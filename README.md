# GmailOAuth2 sender core, in Dafny

This project models the sending side of the `gmail-sender` NestJS service and proves
properties of that model. The service takes a recipient, a subject, a text and up to five
uploaded files. It builds one `multipart/mixed` MIME message from them and sends it
through the Gmail API as unpadded base64url text. It then deletes the temporary upload
files, whether the send succeeded or not. A token file on disk stands for "authenticated".

The modules follow the program:

- `MimeMessage` (`mimemessage.dfy`) is `createEmail` and `readFileAsBase64`.
  - `BuildRaw` and its helpers are the specification: the header lines, one six-line part
    per attachment, the closing boundary, CRLF joining, `trim`, UTF-8, base64url.
  - `CreateEmail` is `createEmail`'s loop, with `push` on a line list.
  - `ReadFileAsBase64` is the reading loop over 64 KiB chunks.
- `Service` (`gmailservice.dfy`) is the `GmailService` class.
  - It holds the OAuth client's credentials and reaches the disk through a `Disk.FileSystem`.
  - Its methods are the token store, `cleanupAttachments` and `sendEmail`.
  - A ghost counter records how often the cleanup ran.
- `Disk` (`disk.dfy`) is a `FileSystem` class over a map from path to bytes.
  - It has the `fs` calls the service makes: `existsSync`, `readFileSync`, `writeFileSync`
    and `unlinkSync`.
  - Some paths exist but cannot be deleted; that set is fixed for the life of the disk.
- `EmailController` (`emailcontroller.dfy`) is the controller:
  - the MIME-type allow-list;
  - the count and size limits;
  - the stored-file-name generator;
  - the mapping of the service's outcome to the reply or to a Bad Request.
- Supporting definitions, each written from the standard or documented behaviour it
  stands for:
  - `Base64`: RFC 4648, section 4 (padded) and section 5 (base64url, unpadded here, as
    Node writes it). The decoder is strict. Both alphabets are proved bijective.
  - `Utf8`: RFC 3629, with a strict decoder that is proved to be the exact inverse.
  - `JsText`: `Array.prototype.join`, and `String.prototype.trim` with the white-space
    set of ECMA-262.
  - `NodePath`: POSIX `path.extname`.
  - `Decimal`: the decimal spelling of a non-negative integer.
  - `Bytes`: `Buffer.concat`.
  - `Uploads`: the multer file record and the error value.

Foreign and nondeterministic inputs are parameters:

- `now`: the reading of `Date.now()`.
- `random`: the value of `Math.round(Math.random() * 1E9)`.
- `lookup`: `mime.lookup` of the `mime-types` library.
- `getToken`: the OAuth client's code exchange.
- `send`: Gmail's `users.messages.send`. It is given the current credentials, and returns the outcome
  together with the credentials the client holds afterwards. Those differ when the
  client refreshed an expired access token during the call.

For N attachments, N + 2 entries of the pushed line list are boundary markers, unless
the message text is itself a marker (see `DelimiterCount`). This is a count of list
entries, not of the CRLF-separated lines of the text that is sent. A field holding an
embedded line break can add further marker lines to the sent text.

## Model

| member | source | states |
|---|---|---|
| `MimeMessage.ReadFileAsBase64` | gmail-sender/src/gmail/gmail.service.ts:119-131 | The file is read in 64 KiB chunks, in order, and the chunks are concatenated; the result is the padded base64 of the file's whole contents. A path that does not exist rejects with the ENOENT error naming it. |
| `MimeMessage.CreateEmail` | gmail-sender/src/gmail/gmail.service.ts:83-117 | The loop that pushes the header lines, six lines per attachment and the closing line resolves to the specification `BuildRaw`. That is the raw text of the message when every attachment can be read. Otherwise it is the error of the first attachment that cannot be read, and no later file is looked at. |
| `MimeMessage.BuildRawSucceedsIff` | gmail-sender/src/gmail/gmail.service.ts:99-111 | `createEmail` resolves if and only if every attachment's stored file exists. |
| `MimeMessage.FirstMissingFileWins` | gmail-sender/src/gmail/gmail.service.ts:99-100 | When the file of attachment j is missing and all earlier ones exist, the build fails with attachment j's ENOENT error. |
| `MimeMessage.ErrorStopsTheBuild` | gmail-sender/src/gmail/gmail.service.ts:99-100 | Once the attachments up to some point fail, the whole list fails with that same error. |
| `MimeMessage.ResolveMimeType` | gmail-sender/src/gmail/gmail.service.ts:101 | The type is the looked-up one when the lookup gives a non-empty string. Otherwise it is the type the client declared, since a failed lookup (`false`) and an empty string are both falsy for `\|\|`. It is empty only when the declared type is. |
| `MimeMessage.ResolvePartsAllPresent` | gmail-sender/src/gmail/gmail.service.ts:99-111 | When every file exists, attachment k becomes part k, in input order. Each part carries the resolved MIME type, the original name and the base64 of the file. |
| `MimeMessage.ResolvePartsOkMeansPresent` | gmail-sender/src/gmail/gmail.service.ts:99-100 | A successful build implies that every attachment's file exists. |
| `MimeMessage.PartsLinesShape` | gmail-sender/src/gmail/gmail.service.ts:99-111 | The attachment lines are six per attachment, and block k is the part of attachment k. |
| `MimeMessage.EmailLinesShape` | gmail-sender/src/gmail/gmail.service.ts:85-113 | The pushed line list has 11 + 6·N entries, each exactly as stated in the contract. The first ten are the headers and the text part. Each attachment adds `--B`, its Content-Type, `Content-Transfer-Encoding: base64`, a Content-Disposition with the original name inserted verbatim and unescaped, an empty line and the content. The last line is `--B--`. |
| `MimeMessage.TrimKeepsEmail` | gmail-sender/src/gmail/gmail.service.ts:115 | The joined text starts with `T` and ends with `-`, so `trim` leaves it unchanged. |
| `MimeMessage.Raw` | gmail-sender/src/gmail/gmail.service.ts:115-116 | The raw value uses only the base64url alphabet, and it decodes to the UTF-8 bytes of the trimmed text. |
| `MimeMessage.RawMeaning` | gmail-sender/src/gmail/gmail.service.ts:116 | The UTF-8 bytes of the trimmed text decode back to it. The raw value is the only base64url text whose bytes decode to the trimmed text. |
| `MimeMessage.BuildRawSucceeds` | gmail-sender/src/gmail/gmail.service.ts:83-117 | A successful build is the raw form of exactly the joined lines, with nothing trimmed. Part k carries attachment k's original name and resolved MIME type. Its content decodes to attachment k's file contents. |
| `MimeMessage.Boundary` | gmail-sender/src/gmail/gmail.service.ts:84 | The boundary is `boundary` followed by the decimal digits of the clock reading; reading those digits back gives the clock reading. |
| `MimeMessage.DelimiterCount` | gmail-sender/src/gmail/gmail.service.ts:85-113 | When neither the text nor any content line is a boundary marker, exactly N + 2 entries of the pushed line list are markers. One comes before the text, one before each attachment, and one closes the message. |
| `MimeMessage.Base64NotDelimiter` | gmail-sender/src/gmail/gmail.service.ts:109 | A base64 content line is never a boundary marker. |
| `MimeMessage.BuildDelimiterCount` | gmail-sender/src/gmail/gmail.service.ts:83-117 | In a built message's line list, N + 2 entries are boundary markers whenever the text is not one. |
| `Service.AfterCleanup` | gmail-sender/src/gmail/gmail.service.ts:133-143 | After cleanup, a path remains exactly when it was present and is either not listed or cannot be deleted. What remains keeps its contents. |
| `Service.GmailService.CleanupAttachments` | gmail-sender/src/gmail/gmail.service.ts:133-143 | Every listed file that exists and can be deleted is deleted. A delete that fails is swallowed and the later files are still handled. Nothing else on disk changes, the credentials do not change, and the cleanup count goes up by one. |
| `Service.GmailService.SendEmail` | gmail-sender/src/gmail/gmail.service.ts:59-81 | The message is built from the disk as it was and sent with the current credentials. The result is the message id, or the build's or the send's own error, re-thrown unchanged. The cleanup runs exactly once on every path. The credentials end as the send call leaves them, refreshed or not. They are unchanged when the build fails. |
| `Service.GmailService.IsAuthenticated` | gmail-sender/src/gmail/gmail.service.ts:54-57 | True if and only if the token file exists. |
| `Service.GmailService.GetAccessTokenFromCode` | gmail-sender/src/gmail/gmail.service.ts:39-52 | When the exchange succeeds, the tokens become the credentials and are written to the token file, so the service is authenticated afterwards, and the call returns success. When the exchange fails, credentials and disk are unchanged and the exchange's error is returned. |
| `Service.GmailService.constructor` | gmail-sender/src/gmail/gmail.service.ts:24-29 | The credentials are the saved token when the token file exists, and none otherwise. |
| `Disk.FileSystem.Exists` | gmail-sender/src/gmail/gmail.service.ts:136 | `existsSync` is true if and only if the path is on disk. |
| `Disk.FileSystem.ReadFile` | gmail-sender/src/gmail/gmail.service.ts:27 | `readFileSync` gives the file's contents, or the ENOENT error for a missing path. |
| `Disk.FileSystem.WriteFile` | gmail-sender/src/gmail/gmail.service.ts:43-46 | `writeFileSync` creates or replaces exactly that one file. |
| `Disk.FileSystem.Unlink` | gmail-sender/src/gmail/gmail.service.ts:137 | `unlinkSync` removes exactly that file. A missing path fails with ENOENT, and an undeletable one fails with a permission error (written as EPERM; EACCES is handled the same way). Both failures leave the disk unchanged. |
| `EmailController.FileFilter` | gmail-sender/src/gmail/gmail.controller.ts:34-53 | A file is accepted if and only if its declared type is one of the nine listed. Otherwise it is rejected with the Bad Request `File type <m> is not allowed`. |
| `EmailController.RejectionNamesType` | gmail-sender/src/gmail/gmail.controller.ts:51 | The rejection message gives back the rejected type, and no other message gives back that type. |
| `EmailController.AdmitFrom` | gmail-sender/src/gmail/gmail.controller.ts:22-53 | The scan from file i onwards lets the files through only if every remaining file is acceptable. It refuses for their number only if there are more than five files. |
| `EmailController.Admit` | gmail-sender/src/gmail/gmail.controller.ts:22-53 | A request's files are let through if and only if there are at most 5, each of an allowed type and at most 10·1024·1024 bytes. |
| `EmailController.AdmitFirstBad` | gmail-sender/src/gmail/gmail.controller.ts:30-53 | The refusal concerns the first unacceptable file among the first five. A type rejection carries the filter's message; otherwise the file is refused as too large. |
| `EmailController.AdmitTooMany` | gmail-sender/src/gmail/gmail.controller.ts:22-33 | More than five files, the first five of them acceptable, are refused for their number. |
| `EmailController.StoredFilename` | gmail-sender/src/gmail/gmail.controller.ts:25-28 | The stored name `<now>-<random><ext>` has the original name's extension, as `path.extname` gives it. |
| `EmailController.StoredFilenameInjective` | gmail-sender/src/gmail/gmail.controller.ts:26-27 | Two equal stored names come from the same clock reading, the same random number and the same extension. |
| `EmailController.Respond` | gmail-sender/src/gmail/gmail.controller.ts:59-67 | The reply is a success if and only if the service resolved, and then its message is `Email sent successfully`. A failure's message is `Failed to send email: ` followed by the service error's message unchanged. |
| `EmailController.RespondInjective` | gmail-sender/src/gmail/gmail.controller.ts:65-67 | Different service errors give different Bad Request replies. |
| `EmailController.HandleSend` | gmail-sender/src/gmail/gmail.controller.ts:55-68 | The handler's reply is the mapping of the service's outcome. The disk, the credentials and the cleanup count end as `sendEmail` leaves them. |
| `Base64.StandardInverse` | gmail-sender/src/gmail/gmail.service.ts:128 | Padded base64 (RFC 4648, section 4): `Decode(s)` is `b` if and only if `Encode(b)` is `s`. |
| `Base64.DecodeEncode` | gmail-sender/src/gmail/gmail.service.ts:128 | Decoding the padded encoding of any bytes gives them back. |
| `Base64.EncodeLength` | gmail-sender/src/gmail/gmail.service.ts:128 | The padded encoding of n bytes has 4·⌈n/3⌉ characters. |
| `Base64.UrlInverse` | gmail-sender/src/gmail/gmail.service.ts:116 | Base64url (RFC 4648, section 5), unpadded: `DecodeUrl(s)` is `b` if and only if `EncodeUrl(b)` is `s`. |
| `Base64.EncodeUrlAlphabet` | gmail-sender/src/gmail/gmail.service.ts:116 | The base64url text uses only `A–Z a–z 0–9 - _` and has ⌈4n/3⌉ characters. |
| `Base64.SextetsInverse` | gmail-sender/src/gmail/gmail.service.ts:116 | Splitting bytes into 6-bit groups (with zero fill bits) is a bijection onto the groups the strict decoder accepts. |
| `Utf8.Inverse` | gmail-sender/src/gmail/gmail.service.ts:116 | `Buffer.from(string)` as UTF-8 (RFC 3629): the strict decoder gives back `s` from `b` if and only if `b` is the encoding of `s`. |
| `JsText.TrimIsTrim` | gmail-sender/src/gmail/gmail.service.ts:115 | `trim` removes exactly the leading and trailing ECMAScript white space and line terminators. |
| `JsText.TrimUnchanged` | gmail-sender/src/gmail/gmail.service.ts:115 | A text that neither starts nor ends with white space is left unchanged by `trim`. |
| `JsText.JoinStartsWithFirst` | gmail-sender/src/gmail/gmail.service.ts:115 | The joined text begins with the first line. |
| `JsText.JoinEndsWithLast` | gmail-sender/src/gmail/gmail.service.ts:115 | The joined text ends with the last line. |
| `NodePath.LastDot` | gmail-sender/src/gmail/gmail.controller.ts:27 | The position found is a `.` with no `.` after it, or there is no `.` at all. |
| `NodePath.ExtnameShape` | gmail-sender/src/gmail/gmail.controller.ts:27 | An extension is empty, or a `.` followed by no further `.` and no `/`. |
| `NodePath.ExtnameAfterStem` | gmail-sender/src/gmail/gmail.controller.ts:27 | A non-empty stem with no `.` and no `/`, followed by an extension, has exactly that extension. |
| `Decimal.FromNat` | gmail-sender/src/gmail/gmail.controller.ts:26 | A number's spelling is a non-empty string of digits with no leading zero. |
| `Decimal.ToNatFromNat` | gmail-sender/src/gmail/gmail.service.ts:84 | Reading a spelling back gives the number. |
| `Bytes.ConcatSnoc` | gmail-sender/src/gmail/gmail.service.ts:124-127 | Concatenating one more chunk appends its bytes at the end. |

## Left out

- The loading of `credentials.json` and the construction of the OAuth client
  (gmail.service.ts:14-23) are configuration and are not modelled. `getAuthUrl`
  (gmail.service.ts:32-37) is a fixed configuration value and is left out too.
- The OAuth code exchange, the Gmail send call, `mime.lookup`, `Date.now()` and
  `Math.random()` are foreign or nondeterministic, so they are parameters.
- Logging (`console.error`, `Logger.log`) is output and is not modelled.
- The token is stored as opaque bytes. `JSON.stringify` and `JSON.parse` are taken as
  inverse, so a corrupt token file that would make the constructor throw is not modelled.
- `Service.GmailService.GetAccessTokenFromCode`: `writeFileSync` is modelled as never
  failing. In the code, a failed write would throw after the credentials were already set.
- `MimeMessage.DelimiterCount`: counts boundary markers among the entries of the pushed
  line list, not among the CRLF-separated lines of the sent text. A CR or LF embedded in
  the recipient, the subject, the message text or a file name can add marker lines to
  the sent text. The count over the sent text is not modelled.
- `MimeMessage.EmailLinesShape` and `MimeMessage.PartsLinesShape`: they give the entries of
  the pushed line list, not the CRLF-separated lines of the sent text. A message text
  (or recipient, subject or file name) holding a line break spans several lines once
  joined. Splitting the sent text back into lines is not modelled.
- `MimeMessage.ReadFileAsBase64`: the only stream error modelled is a missing path. Other
  read errors (permissions, a directory) are not modelled.
- The arrival of stream chunks is fixed at 64 KiB. The event callbacks and the promise
  are modelled as a sequential loop.
- Which deletes fail is a fixed set of paths on the disk. The swallowed error is only
  logged in the code, so it is not part of the model.
- The upload gate is an ordered scan: the count, then the filter, then the size. Multer's
  and busboy's streaming enforcement, their own error messages and HTTP statuses, and the
  writing of uploads to `./uploads` are not modelled. An `UploadedFile`'s `path` is an
  input, not derived from `StoredFilename`.
- `StoredFilename` covers only the decimal form of integers. The clock and the random
  value never reach the exponent form that JavaScript uses from 10^21.
- Dafny strings hold Unicode scalar values only. A JavaScript string with a lone
  surrogate, which `Buffer.from` would encode as U+FFFD, is not modelled.
- A boundary string that also occurs in the text or in a file name is not guarded against
  in the code and is not modelled beyond `DelimiterCount`'s precondition. An attachment
  name containing `"` is inserted unescaped, exactly as the code does it.
- When and how the OAuth client refreshes its access token during a send is up to the
  `send` parameter. The model keeps the credentials it returns in memory only. As in the
  code, a refreshed token is never written to `token.json`.
- Concurrent requests are not modelled. That includes the unlocked last-writer-wins
  update of `token.json` and the interleaving of asynchronous calls.
- A missing `response.data.id` is not modelled; the message id is a plain string.
- The success objects `{ success: true }` and `{ success: true, messageId }` are `Ok(())`
  and `Ok(messageId)`.
- `auth.controller.ts`, `main.ts`, `app.module.ts` and the whole `gmail-client` React
  application are routing, bootstrapping and user interface, and are not part of this model.
