/** The outgoing-message builder of `GmailService` (`createEmail` and `readFileAsBase64`):
    a `multipart/mixed` message made of header lines, one text part and one part per
    attachment, joined with CRLF and base64url-encoded for the Gmail send call.

    `Date.now()` and `mime.lookup` are parameters: `now` is the clock reading the boundary
    is made from, and `lookup` stands for the MIME-type table of the `mime-types` library. */
module MimeMessage {
  import opened Wrappers
  import opened Bytes
  import opened Uploads
  import opened JsText
  import Base64
  import Utf8
  import Decimal

  /** `mime.lookup(name)`: the type registered for the name's extension, `None` where the
      library answers `false`. */
  type MimeLookup = string -> Option<string>

  /** One attachment as it goes into the message. */
  datatype Part = Part(mimeType: string, filename: string, content: string)

  // ---------------------------------------------------------------------------
  // The message, line by line

  /** `'boundary' + Date.now().toString()`: "boundary" followed by the clock reading in
      decimal, which reads back as that reading. */
  function Boundary(now: nat): (b: string)
    ensures |b| > 8 && b[..8] == "boundary"
    ensures Decimal.AllDigits(b[8..]) && Decimal.ToNat(b[8..]) == now
  {
    var digits := Decimal.FromNat(now);
    Decimal.ToNatFromNat(now);
    assert ("boundary" + digits)[8..] == digits;
    "boundary" + digits
  }

  /** The header lines and the text part, up to and including the message text. */
  function HeaderLines(to: string, subject: string, boundary: string, message: string): seq<string> {
    [ "To: " + to,
      "Subject: " + subject,
      "MIME-Version: 1.0",
      "Content-Type: multipart/mixed; boundary=\"" + boundary + "\"",
      "",
      "--" + boundary,
      "Content-Type: text/plain; charset=utf-8",
      "Content-Transfer-Encoding: 7bit",
      "",
      message ]
  }

  /** The six lines of one attachment part; the file name goes in as it is, unescaped. */
  function PartLines(boundary: string, p: Part): seq<string> {
    [ "--" + boundary,
      "Content-Type: " + p.mimeType,
      "Content-Transfer-Encoding: base64",
      "Content-Disposition: attachment; filename=\"" + p.filename + "\"",
      "",
      p.content ]
  }

  function PartsLines(boundary: string, parts: seq<Part>): seq<string>
    decreases |parts|
  {
    if |parts| == 0 then []
    else PartsLines(boundary, parts[..|parts| - 1]) + PartLines(boundary, parts[|parts| - 1])
  }

  function CloseDelimiter(boundary: string): string {
    "--" + boundary + "--"
  }

  function EmailLines(to: string, subject: string, message: string, boundary: string, parts: seq<Part>): seq<string> {
    HeaderLines(to, subject, boundary, message) + PartsLines(boundary, parts) + [CloseDelimiter(boundary)]
  }

  /** `emailLines.join('\r\n')`. */
  function EmailText(to: string, subject: string, message: string, boundary: string, parts: seq<Part>): string {
    Join(EmailLines(to, subject, message, boundary, parts), CRLF)
  }

  /** `Buffer.from(email.trim()).toString('base64url')`: base64url text whose bytes are the
      UTF-8 encoding of the trimmed message. */
  function Raw(text: string): (s: string)
    ensures Base64.IsUrlSafeText(s)
    ensures Base64.DecodeUrl(s) == Some(Utf8.Encode(Trim(text)))
  {
    var b := Utf8.Encode(Trim(text));
    Base64.EncodeUrlAlphabet(b);
    Base64.UrlInverse(Base64.EncodeUrl(b), b);
    Base64.EncodeUrl(b)
  }

  // ---------------------------------------------------------------------------
  // Attachments

  /** `mime.lookup(file.originalname) || file.mimetype`: the looked-up type unless the
      lookup fails (or gives the empty string, which is falsy too). */
  function ResolveMimeType(lookup: MimeLookup, file: UploadedFile): (r: string)
    ensures lookup(file.originalname).Some? && lookup(file.originalname).value != "" ==>
      r == lookup(file.originalname).value
    ensures lookup(file.originalname).None? || lookup(file.originalname).value == "" ==>
      r == file.mimetype
    ensures r == "" ==> file.mimetype == ""
  {
    match lookup(file.originalname)
    case Some(m) => if m != "" then m else file.mimetype
    case None => file.mimetype
  }

  /** Reading one attachment from the disk `files` and turning it into a part. */
  function ResolvePart(files: map<Path, Bytes>, lookup: MimeLookup, file: UploadedFile): Result<Part, Error> {
    if file.path in files
    then Ok(Part(ResolveMimeType(lookup, file), file.originalname, Base64.Encode(files[file.path])))
    else Err(NoSuchFile(file.path))
  }

  /** The attachments in order; the first one that cannot be read stops the build. */
  function ResolveParts(files: map<Path, Bytes>, lookup: MimeLookup, attachments: seq<UploadedFile>): Result<seq<Part>, Error>
    decreases |attachments|
  {
    if |attachments| == 0 then Ok([])
    else
      match ResolveParts(files, lookup, attachments[..|attachments| - 1])
      case Err(e) => Err(e)
      case Ok(parts) =>
        match ResolvePart(files, lookup, attachments[|attachments| - 1])
        case Err(e) => Err(e)
        case Ok(p) => Ok(parts + [p])
  }

  /** What `createEmail` resolves to, or the error it rejects with. */
  function BuildRaw(to: string, subject: string, message: string, attachments: seq<UploadedFile>,
                    files: map<Path, Bytes>, now: nat, lookup: MimeLookup): Result<string, Error>
  {
    match ResolveParts(files, lookup, attachments)
    case Err(e) => Err(e)
    case Ok(parts) => Ok(Raw(EmailText(to, subject, message, Boundary(now), parts)))
  }

  /** The part every attachment becomes when all of them can be read. */
  function PartsOf(files: map<Path, Bytes>, lookup: MimeLookup, attachments: seq<UploadedFile>): (r: seq<Part>)
    requires forall i :: 0 <= i < |attachments| ==> attachments[i].path in files
    ensures |r| == |attachments|
    ensures forall k :: 0 <= k < |r| ==> r[k] == Part(ResolveMimeType(lookup, attachments[k]),
      attachments[k].originalname, Base64.Encode(files[attachments[k].path]))
  {
    seq(|attachments|, k requires 0 <= k < |attachments| =>
      Part(ResolveMimeType(lookup, attachments[k]), attachments[k].originalname, Base64.Encode(files[attachments[k].path])))
  }

  // ---------------------------------------------------------------------------
  // createEmail and readFileAsBase64

  /** The chunk size of a file read stream (`highWaterMark`, 64 KiB). */
  const HighWaterMark: nat := 65536

  /** `readFileAsBase64`: every 'data' event pushes one chunk of the file, 'end' encodes
      the concatenated chunks, and 'error' (here: the path does not exist) rejects. */
  method ReadFileAsBase64(files: map<Path, Bytes>, path: Path) returns (r: Result<string, Error>)
    ensures path in files ==> r == Ok(Base64.Encode(files[path]))
    ensures path !in files ==> r == Err(NoSuchFile(path))
  {
    if path !in files {
      return Err(NoSuchFile(path));
    }
    var data := files[path];
    var chunks: seq<Bytes> := [];
    var pos := 0;
    while pos < |data|
      invariant pos <= |data|
      invariant Concat(chunks) == data[..pos]
      decreases |data| - pos
    {
      var end := if pos + HighWaterMark < |data| then pos + HighWaterMark else |data|;
      var chunk := data[pos..end];
      ConcatSnoc(chunks, chunk);
      assert data[..pos] + chunk == data[..end];
      chunks := chunks + [chunk];
      pos := end;
    }
    assert data[..pos] == data;
    var buffer := Concat(chunks);
    r := Ok(Base64.Encode(buffer));
  }

  /** `createEmail`. */
  method CreateEmail(to: string, subject: string, message: string, attachments: seq<UploadedFile>,
                     files: map<Path, Bytes>, now: nat, lookup: MimeLookup) returns (r: Result<string, Error>)
    ensures r == BuildRaw(to, subject, message, attachments, files, now, lookup)
  {
    var boundary := "boundary" + Decimal.FromNat(now);
    var emailLines := [
      "To: " + to,
      "Subject: " + subject,
      "MIME-Version: 1.0",
      "Content-Type: multipart/mixed; boundary=\"" + boundary + "\"",
      "",
      "--" + boundary,
      "Content-Type: text/plain; charset=utf-8",
      "Content-Transfer-Encoding: 7bit",
      "",
      message
    ];
    ghost var parts: seq<Part> := [];
    for i := 0 to |attachments|
      invariant ResolveParts(files, lookup, attachments[..i]) == Ok(parts)
      invariant emailLines == HeaderLines(to, subject, boundary, message) + PartsLines(boundary, parts)
    {
      var file := attachments[i];
      ResolvePartsStep(files, lookup, attachments, i, parts);
      var content := ReadFileAsBase64(files, file.path);
      if content.Err? {
        ErrorStopsTheBuild(files, lookup, attachments, i + 1, content.error);
        return Err(content.error);
      }
      var mimeType := ResolveMimeType(lookup, file);
      var part := Part(mimeType, file.originalname, content.value);
      PartsLinesStep(HeaderLines(to, subject, boundary, message), boundary, parts, part);
      emailLines := emailLines + [
        "--" + boundary,
        "Content-Type: " + mimeType,
        "Content-Transfer-Encoding: base64",
        "Content-Disposition: attachment; filename=\"" + file.originalname + "\"",
        "",
        content.value
      ];
      parts := parts + [part];
    }
    assert attachments[..|attachments|] == attachments;
    emailLines := emailLines + ["--" + boundary + "--"];
    var email := Trim(Join(emailLines, CRLF));
    r := Ok(Base64.EncodeUrl(Utf8.Encode(email)));
  }

  // ---------------------------------------------------------------------------
  // Properties

  /** One more attachment resolves the list one longer. */
  lemma ResolvePartsStep(files: map<Path, Bytes>, lookup: MimeLookup, attachments: seq<UploadedFile>, i: nat, parts: seq<Part>)
    requires i < |attachments| && ResolveParts(files, lookup, attachments[..i]) == Ok(parts)
    ensures ResolveParts(files, lookup, attachments[..i + 1]) ==
      match ResolvePart(files, lookup, attachments[i])
      case Err(e) => Err(e)
      case Ok(p) => Ok(parts + [p])
  {
    assert attachments[..i + 1][..i] == attachments[..i];
  }

  lemma PartsLinesStep(head: seq<string>, boundary: string, parts: seq<Part>, p: Part)
    ensures head + PartsLines(boundary, parts + [p]) == (head + PartsLines(boundary, parts)) + PartLines(boundary, p)
  {
    assert (parts + [p])[..|parts|] == parts;
  }

  /** Once a prefix of the attachments fails, the whole list fails with the same error. */
  lemma {:induction false} ErrorStopsTheBuild(files: map<Path, Bytes>, lookup: MimeLookup,
                                              attachments: seq<UploadedFile>, k: nat, e: Error)
    requires k <= |attachments| && ResolveParts(files, lookup, attachments[..k]) == Err(e)
    ensures ResolveParts(files, lookup, attachments) == Err(e)
    decreases |attachments|
  {
    if k < |attachments| {
      var init := attachments[..|attachments| - 1];
      assert init[..k] == attachments[..k];
      ErrorStopsTheBuild(files, lookup, init, k, e);
    } else {
      assert attachments[..k] == attachments;
    }
  }

  /** When every stored file exists, each attachment becomes its part, in order. */
  lemma {:induction false} ResolvePartsAllPresent(files: map<Path, Bytes>, lookup: MimeLookup, attachments: seq<UploadedFile>)
    requires forall i :: 0 <= i < |attachments| ==> attachments[i].path in files
    ensures ResolveParts(files, lookup, attachments) == Ok(PartsOf(files, lookup, attachments))
    decreases |attachments|
  {
    if |attachments| > 0 {
      var init := attachments[..|attachments| - 1];
      ResolvePartsAllPresent(files, lookup, init);
      var whole, front := PartsOf(files, lookup, attachments), PartsOf(files, lookup, init);
      assert whole == front + [whole[|whole| - 1]];
    }
  }

  /** The build succeeds only when every stored file exists. */
  lemma {:induction false} ResolvePartsOkMeansPresent(files: map<Path, Bytes>, lookup: MimeLookup, attachments: seq<UploadedFile>)
    requires ResolveParts(files, lookup, attachments).Ok?
    ensures forall i :: 0 <= i < |attachments| ==> attachments[i].path in files
    decreases |attachments|
  {
    if |attachments| > 0 {
      var init := attachments[..|attachments| - 1];
      ResolvePartsOkMeansPresent(files, lookup, init);
      forall i | 0 <= i < |attachments| ensures attachments[i].path in files {
        if i < |init| {
          assert attachments[i] == init[i];
        }
      }
    }
  }

  /** The error is the one of the first attachment whose file is missing. */
  lemma FirstMissingFileWins(files: map<Path, Bytes>, lookup: MimeLookup, attachments: seq<UploadedFile>, j: nat)
    requires j < |attachments| && attachments[j].path !in files
    requires forall i :: 0 <= i < j ==> attachments[i].path in files
    ensures ResolveParts(files, lookup, attachments) == Err(NoSuchFile(attachments[j].path))
  {
    var front := attachments[..j];
    ResolvePartsAllPresent(files, lookup, front);
    var upTo := attachments[..j + 1];
    assert upTo[..j] == front;
    ErrorStopsTheBuild(files, lookup, attachments, j + 1, NoSuchFile(attachments[j].path));
  }

  /** `createEmail` resolves exactly when every attachment's file can be read. */
  lemma BuildRawSucceedsIff(to: string, subject: string, message: string, attachments: seq<UploadedFile>,
                            files: map<Path, Bytes>, now: nat, lookup: MimeLookup)
    ensures BuildRaw(to, subject, message, attachments, files, now, lookup).Ok?
        <==> forall i :: 0 <= i < |attachments| ==> attachments[i].path in files
  {
    if BuildRaw(to, subject, message, attachments, files, now, lookup).Ok? {
      ResolvePartsOkMeansPresent(files, lookup, attachments);
    }
    if forall i :: 0 <= i < |attachments| ==> attachments[i].path in files {
      ResolvePartsAllPresent(files, lookup, attachments);
    }
  }

  /** The attachment lines: six per part, in the order of the parts. */
  lemma {:induction false} PartsLinesShape(boundary: string, parts: seq<Part>)
    ensures |PartsLines(boundary, parts)| == 6 * |parts|
    ensures forall k :: 0 <= k < |parts| ==> PartsLines(boundary, parts)[6 * k..6 * k + 6] == PartLines(boundary, parts[k])
    decreases |parts|
  {
    if |parts| > 0 {
      var init := parts[..|parts| - 1];
      PartsLinesShape(boundary, init);
      var front, last := PartsLines(boundary, init), PartLines(boundary, parts[|parts| - 1]);
      assert PartsLines(boundary, parts) == front + last;
      forall k | 0 <= k < |parts| ensures (front + last)[6 * k..6 * k + 6] == PartLines(boundary, parts[k]) {
        if k < |init| {
          assert parts[k] == init[k];
          assert (front + last)[6 * k..6 * k + 6] == front[6 * k..6 * k + 6];
        } else {
          assert (front + last)[6 * k..6 * k + 6] == last;
        }
      }
    }
  }

  /** The message, line by line: the headers, the text part, one six-line part per
      attachment, and the closing delimiter last. */
  lemma EmailLinesShape(to: string, subject: string, message: string, boundary: string, parts: seq<Part>)
    ensures var lines := EmailLines(to, subject, message, boundary, parts);
      && |lines| == 11 + 6 * |parts|
      && lines[0] == "To: " + to
      && lines[1] == "Subject: " + subject
      && lines[2] == "MIME-Version: 1.0"
      && lines[3] == "Content-Type: multipart/mixed; boundary=\"" + boundary + "\""
      && lines[4] == ""
      && lines[5] == "--" + boundary
      && lines[6] == "Content-Type: text/plain; charset=utf-8"
      && lines[7] == "Content-Transfer-Encoding: 7bit"
      && lines[8] == ""
      && lines[9] == message
      && (forall k :: 0 <= k < |parts| ==>
            && lines[10 + 6 * k] == "--" + boundary
            && lines[11 + 6 * k] == "Content-Type: " + parts[k].mimeType
            && lines[12 + 6 * k] == "Content-Transfer-Encoding: base64"
            && lines[13 + 6 * k] == "Content-Disposition: attachment; filename=\"" + parts[k].filename + "\""
            && lines[14 + 6 * k] == ""
            && lines[15 + 6 * k] == parts[k].content)
      && lines[|lines| - 1] == "--" + boundary + "--"
  {
    var head, body, tail := HeaderLines(to, subject, boundary, message), PartsLines(boundary, parts), [CloseDelimiter(boundary)];
    var lines := head + body + tail;
    PartsLinesShape(boundary, parts);
    BlocksAt(lines, head, body, tail, boundary, parts);
    HeaderAt(lines, body + tail, to, subject, boundary, message);
    assert lines[|lines| - 1] == tail[0];
  }

  lemma HeaderAt(lines: seq<string>, rest: seq<string>, to: string, subject: string, boundary: string, message: string)
    requires lines == HeaderLines(to, subject, boundary, message) + rest
    ensures |lines| >= 10
    ensures lines[0] == "To: " + to
    ensures lines[1] == "Subject: " + subject
    ensures lines[2] == "MIME-Version: 1.0"
    ensures lines[3] == "Content-Type: multipart/mixed; boundary=\"" + boundary + "\""
    ensures lines[4] == ""
    ensures lines[5] == "--" + boundary
    ensures lines[6] == "Content-Type: text/plain; charset=utf-8"
    ensures lines[7] == "Content-Transfer-Encoding: 7bit"
    ensures lines[8] == ""
    ensures lines[9] == message
  {
    var head := HeaderLines(to, subject, boundary, message);
    assert forall i :: 0 <= i < 10 ==> lines[i] == head[i];
  }

  lemma BlocksAt(lines: seq<string>, head: seq<string>, body: seq<string>, tail: seq<string>, boundary: string, parts: seq<Part>)
    requires lines == head + body + tail && |head| == 10 && |body| == 6 * |parts|
    requires forall k :: 0 <= k < |parts| ==> body[6 * k..6 * k + 6] == PartLines(boundary, parts[k])
    ensures forall k :: 0 <= k < |parts| ==>
        && lines[10 + 6 * k] == "--" + boundary
        && lines[11 + 6 * k] == "Content-Type: " + parts[k].mimeType
        && lines[12 + 6 * k] == "Content-Transfer-Encoding: base64"
        && lines[13 + 6 * k] == "Content-Disposition: attachment; filename=\"" + parts[k].filename + "\""
        && lines[14 + 6 * k] == ""
        && lines[15 + 6 * k] == parts[k].content
  {
    forall k | 0 <= k < |parts|
      ensures lines[10 + 6 * k] == "--" + boundary
      ensures lines[11 + 6 * k] == "Content-Type: " + parts[k].mimeType
      ensures lines[12 + 6 * k] == "Content-Transfer-Encoding: base64"
      ensures lines[13 + 6 * k] == "Content-Disposition: attachment; filename=\"" + parts[k].filename + "\""
      ensures lines[14 + 6 * k] == ""
      ensures lines[15 + 6 * k] == parts[k].content
    {
      assert lines[10 + 6 * k..16 + 6 * k] == body[6 * k..6 * k + 6];
      PartLinesAt(lines, 10 + 6 * k, boundary, parts[k]);
    }
  }

  lemma PartLinesAt(lines: seq<string>, at: nat, boundary: string, p: Part)
    requires at + 6 <= |lines| && lines[at..at + 6] == PartLines(boundary, p)
    ensures lines[at] == "--" + boundary
    ensures lines[at + 1] == "Content-Type: " + p.mimeType
    ensures lines[at + 2] == "Content-Transfer-Encoding: base64"
    ensures lines[at + 3] == "Content-Disposition: attachment; filename=\"" + p.filename + "\""
    ensures lines[at + 4] == ""
    ensures lines[at + 5] == p.content
  {
    var block := lines[at..at + 6];
    assert lines[at] == block[0] && lines[at + 1] == block[1] && lines[at + 2] == block[2];
    assert lines[at + 3] == block[3] && lines[at + 4] == block[4] && lines[at + 5] == block[5];
  }

  /** The text starts with "To:" and ends with the closing delimiter, so the `trim` in
      `createEmail` never removes anything. */
  lemma TrimKeepsEmail(to: string, subject: string, message: string, boundary: string, parts: seq<Part>)
    ensures Trim(EmailText(to, subject, message, boundary, parts)) == EmailText(to, subject, message, boundary, parts)
  {
    var lines := EmailLines(to, subject, message, boundary, parts);
    var text := Join(lines, CRLF);
    JoinStartsWithFirst(lines, CRLF);
    JoinEndsWithLast(lines, CRLF);
    var last := lines[|lines| - 1];
    assert last == CloseDelimiter(boundary);
    assert text[0] == lines[0][0] == 'T';
    assert text[|text| - 1] == last[|last| - 1] == '-';
    TrimUnchanged(text);
  }

  /** The raw value is the one and only base64url text whose bytes are the UTF-8
      encoding of the trimmed message. */
  lemma RawMeaning(text: string, s: string)
    ensures Utf8.Decode(Utf8.Encode(Trim(text))) == Some(Trim(text))
    ensures (exists b :: Base64.DecodeUrl(s) == Some(b) && Utf8.Decode(b) == Some(Trim(text))) <==> s == Raw(text)
  {
    var b := Utf8.Encode(Trim(text));
    Base64.EncodeUrlAlphabet(b);
    Base64.UrlInverse(Raw(text), b);
    Utf8.DecodeEncode(Trim(text));
    if s == Raw(text) {
      assert Base64.DecodeUrl(s) == Some(b) && Utf8.Decode(b) == Some(Trim(text));
    }
    if exists c :: Base64.DecodeUrl(s) == Some(c) && Utf8.Decode(c) == Some(Trim(text)) {
      var c :| Base64.DecodeUrl(s) == Some(c) && Utf8.Decode(c) == Some(Trim(text));
      Utf8.Inverse(c, Trim(text));
      Base64.UrlInverse(s, c);
    }
  }

  /** What a successful `createEmail` sends: the base64url form of the message built from
      every attachment's part, each part carrying the file's own bytes in base64. */
  lemma BuildRawSucceeds(to: string, subject: string, message: string, attachments: seq<UploadedFile>,
                         files: map<Path, Bytes>, now: nat, lookup: MimeLookup)
    requires forall i :: 0 <= i < |attachments| ==> attachments[i].path in files
    ensures var text := EmailText(to, subject, message, Boundary(now), PartsOf(files, lookup, attachments));
      && BuildRaw(to, subject, message, attachments, files, now, lookup) == Ok(Raw(text))
      && Base64.DecodeUrl(Raw(text)) == Some(Utf8.Encode(text))
    ensures var parts := PartsOf(files, lookup, attachments);
      forall k :: 0 <= k < |parts| ==>
        && parts[k].filename == attachments[k].originalname
        && parts[k].mimeType == ResolveMimeType(lookup, attachments[k])
        && Base64.Decode(parts[k].content) == Some(files[attachments[k].path])
  {
    var parts := PartsOf(files, lookup, attachments);
    var text := EmailText(to, subject, message, Boundary(now), parts);
    ResolvePartsAllPresent(files, lookup, attachments);
    TrimKeepsEmail(to, subject, message, Boundary(now), parts);
    forall k | 0 <= k < |parts|
      ensures parts[k].filename == attachments[k].originalname
      ensures parts[k].mimeType == ResolveMimeType(lookup, attachments[k])
      ensures Base64.Decode(parts[k].content) == Some(files[attachments[k].path])
    {
      assert parts[k].content == Base64.Encode(files[attachments[k].path]);
      Base64.DecodeEncode(files[attachments[k].path]);
    }
  }

  // ---------------------------------------------------------------------------
  // Boundary markers

  /** A line that opens a part (`--B`) or closes the message (`--B--`). */
  predicate IsDelimiter(line: string, boundary: string) {
    line == "--" + boundary || line == CloseDelimiter(boundary)
  }

  function CountDelimiters(lines: seq<string>, boundary: string): nat
    decreases |lines|
  {
    if |lines| == 0 then 0
    else CountDelimiters(lines[..|lines| - 1], boundary) + (if IsDelimiter(lines[|lines| - 1], boundary) then 1 else 0)
  }

  lemma {:induction false} CountDelimitersAppend(a: seq<string>, b: seq<string>, boundary: string)
    ensures CountDelimiters(a + b, boundary) == CountDelimiters(a, boundary) + CountDelimiters(b, boundary)
    decreases |b|
  {
    if |b| > 0 {
      var b' := b[..|b| - 1];
      assert (a + b)[..|a + b| - 1] == a + b';
      CountDelimitersAppend(a, b', boundary);
    } else {
      assert a + b == a;
    }
  }

  lemma {:induction false} CountNoDelimiter(lines: seq<string>, boundary: string)
    requires forall i :: 0 <= i < |lines| ==> !IsDelimiter(lines[i], boundary)
    ensures CountDelimiters(lines, boundary) == 0
    decreases |lines|
  {
    if |lines| > 0 {
      CountNoDelimiter(lines[..|lines| - 1], boundary);
    }
  }

  /** A list whose only boundary marker is at `j` has one. */
  lemma CountOneDelimiter(lines: seq<string>, j: nat, boundary: string)
    requires j < |lines| && IsDelimiter(lines[j], boundary)
    requires forall i :: 0 <= i < |lines| && i != j ==> !IsDelimiter(lines[i], boundary)
    ensures CountDelimiters(lines, boundary) == 1
  {
    var before, after := lines[..j], lines[j + 1..];
    assert lines == before + [lines[j]] + after;
    CountNoDelimiter(before, boundary);
    CountNoDelimiter(after, boundary) by {
      forall i | 0 <= i < |after| ensures !IsDelimiter(after[i], boundary) {
        assert after[i] == lines[j + 1 + i];
      }
    }
    CountDelimitersAppend(before + [lines[j]], after, boundary);
    CountDelimitersAppend(before, [lines[j]], boundary);
    assert [lines[j]][..0] == [];
  }

  /** A line that starts with a letter is not a boundary marker. */
  lemma LetterLineNotDelimiter(line: string, boundary: string)
    requires |line| > 0 && line[0] != '-'
    ensures !IsDelimiter(line, boundary)
  {
    assert ("--" + boundary)[0] == '-';
    assert CloseDelimiter(boundary)[0] == '-';
  }

  lemma {:induction false} PartsDelimiters(boundary: string, parts: seq<Part>)
    requires forall k :: 0 <= k < |parts| ==> !IsDelimiter(parts[k].content, boundary)
    ensures CountDelimiters(PartsLines(boundary, parts), boundary) == |parts|
    decreases |parts|
  {
    if |parts| > 0 {
      var init, p := parts[..|parts| - 1], parts[|parts| - 1];
      PartsDelimiters(boundary, init);
      CountDelimitersAppend(PartsLines(boundary, init), PartLines(boundary, p), boundary);
      var ls := PartLines(boundary, p);
      LetterLineNotDelimiter(ls[1], boundary);
      LetterLineNotDelimiter(ls[2], boundary);
      LetterLineNotDelimiter(ls[3], boundary);
      CountOneDelimiter(ls, 0, boundary);
    }
  }

  /** Unless the message text is itself a boundary marker, and no attachment content is,
      N + 2 of the entries of the line list are boundary markers for N attachments: one
      before the text, one before each attachment and the closing one. */
  lemma DelimiterCount(to: string, subject: string, message: string, boundary: string, parts: seq<Part>)
    requires !IsDelimiter(message, boundary)
    requires forall k :: 0 <= k < |parts| ==> !IsDelimiter(parts[k].content, boundary)
    ensures CountDelimiters(EmailLines(to, subject, message, boundary, parts), boundary) == |parts| + 2
  {
    var head := HeaderLines(to, subject, boundary, message);
    var body := PartsLines(boundary, parts);
    var close := [CloseDelimiter(boundary)];
    CountDelimitersAppend(head + body, close, boundary);
    CountDelimitersAppend(head, body, boundary);
    PartsDelimiters(boundary, parts);
    LetterLineNotDelimiter(head[0], boundary);
    LetterLineNotDelimiter(head[1], boundary);
    LetterLineNotDelimiter(head[2], boundary);
    LetterLineNotDelimiter(head[3], boundary);
    LetterLineNotDelimiter(head[6], boundary);
    LetterLineNotDelimiter(head[7], boundary);
    CountOneDelimiter(head, 5, boundary);
    CountOneDelimiter(close, 0, boundary);
  }

  /** Base64 text never starts with `-`, so attachment contents are never boundary markers. */
  lemma Base64NotDelimiter(b: Bytes, boundary: string)
    ensures !IsDelimiter(Base64.Encode(b), boundary)
  {
    var s := Base64.Encode(b);
    var u := Base64.EncodeUnpadded(Base64.Standard, b);
    if |s| > 0 {
      if |u| > 0 {
        assert s[0] == u[0];
      }
      LetterLineNotDelimiter(s, boundary);
    }
  }

  /** For what a successful `createEmail` builds: N + 2 of the line-list entries are
      boundary markers whenever the message text is not one. */
  lemma BuildDelimiterCount(to: string, subject: string, message: string, attachments: seq<UploadedFile>,
                            files: map<Path, Bytes>, now: nat, lookup: MimeLookup)
    requires forall i :: 0 <= i < |attachments| ==> attachments[i].path in files
    requires !IsDelimiter(message, Boundary(now))
    ensures CountDelimiters(EmailLines(to, subject, message, Boundary(now), PartsOf(files, lookup, attachments)), Boundary(now))
         == |attachments| + 2
  {
    var parts := PartsOf(files, lookup, attachments);
    forall k | 0 <= k < |parts| ensures !IsDelimiter(parts[k].content, Boundary(now)) {
      Base64NotDelimiter(files[attachments[k].path], Boundary(now));
    }
    DelimiterCount(to, subject, message, Boundary(now), parts);
  }
}
