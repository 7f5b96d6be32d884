/** `GmailService`: the token store, the send path with its cleanup of uploaded files,
    and the cleanup itself. The OAuth client's code exchange and the Gmail API's send call
    are foreign, so both are parameters: `getToken` answers a code with a token or an
    error, and `send` answers (credentials, raw message) with a message id or an error,
    together with the credentials the client holds afterwards (the client refreshes an
    expired access token in memory during the call). */
module Service {
  import opened Wrappers
  import opened Bytes
  import opened Uploads
  import opened Disk
  import MimeMessage

  /** `path.join(__dirname, 'token.json')`. */
  const TokenPath: Path := "token.json"

  /** `oAuth2Client.getToken`: the tokens for an authorization code. */
  type TokenExchange = string -> Result<Bytes, Error>

  /** What a send call leaves: the message id or the error, and the client's credentials
      after the call, refreshed or not. */
  datatype Sent = Sent(outcome: Result<string, Error>, credentials: Option<Bytes>)

  /** `gmail.users.messages.send` with the client's current credentials. */
  type GmailSend = (Option<Bytes>, string) -> Sent

  /** What `sendEmail` settles with (the message id, or the error it re-throws) and the
      credentials it leaves: a failed build never reaches the send call. */
  function Dispatch(raw: Result<string, Error>, credentials: Option<Bytes>, send: GmailSend): Sent {
    match raw
    case Err(e) => Sent(Err(e), credentials)
    case Ok(s) => send(credentials, s)
  }

  /** The disk after `cleanupAttachments`: every listed file that can be deleted is gone,
      nothing else changes. */
  function AfterCleanup(files: map<Path, Bytes>, unremovable: set<Path>, attachments: seq<UploadedFile>): (r: map<Path, Bytes>)
    ensures forall p :: p in r <==> p in files && (p !in Paths(attachments) || p in unremovable)
    ensures forall p :: p in r ==> r[p] == files[p]
  {
    files - (Paths(attachments) - unremovable)
  }

  /** One more attachment handled: the disk after it is the cleanup of the longer list. */
  lemma CleanupStep(files: map<Path, Bytes>, unremovable: set<Path>, attachments: seq<UploadedFile>, i: nat,
                    before: map<Path, Bytes>, after: map<Path, Bytes>)
    requires i < |attachments| && before == AfterCleanup(files, unremovable, attachments[..i])
    requires var p := attachments[i].path;
      after == if p in before && p !in unremovable then before - {p} else before
    ensures after == AfterCleanup(files, unremovable, attachments[..i + 1])
  {
    var p := attachments[i].path;
    assert Paths(attachments[..i + 1]) == Paths(attachments[..i]) + {p} by {
      assert attachments[..i + 1] == attachments[..i] + [attachments[i]];
    }
  }

  class GmailService {
    const fs: FileSystem
    /** The credentials set on the OAuth client. */
    var credentials: Option<Bytes>
    /** How many times `cleanupAttachments` has run. */
    ghost var cleanups: nat

    /** Loads the saved token, if there is one, into the client. */
    constructor (fs: FileSystem)
      ensures this.fs == fs && cleanups == 0
      ensures TokenPath in fs.files ==> credentials == Some(fs.files[TokenPath])
      ensures TokenPath !in fs.files ==> credentials == None
    {
      this.fs := fs;
      cleanups := 0;
      var present := fs.Exists(TokenPath);
      if present {
        var token := fs.ReadFile(TokenPath);
        credentials := Some(token.value);
      } else {
        credentials := None;
      }
    }

    /** `isAuthenticated`: whether a token file exists. */
    method IsAuthenticated() returns (b: bool)
      ensures b <==> TokenPath in fs.files
    {
      b := fs.Exists(TokenPath);
    }

    /** `getAccessTokenFromCode`: on success the tokens become the credentials and are
        saved, so the service is authenticated from then on; on failure nothing changes
        and the exchange's own error is re-thrown. */
    method GetAccessTokenFromCode(code: string, getToken: TokenExchange) returns (r: Result<(), Error>)
      modifies this, fs
      ensures getToken(code).Ok? ==> && r == Ok(())
                                      && credentials == Some(getToken(code).value)
                                      && fs.files == old(fs.files)[TokenPath := getToken(code).value]
                                      && TokenPath in fs.files
      ensures getToken(code).Err? ==> && r == Err(getToken(code).error)
                                       && credentials == old(credentials)
                                       && fs.files == old(fs.files)
      ensures cleanups == old(cleanups)
    {
      var exchanged := getToken(code);
      if exchanged.Err? {
        return Err(exchanged.error);
      }
      credentials := Some(exchanged.value);
      fs.WriteFile(TokenPath, exchanged.value);
      r := Ok(());
    }

    /** `cleanupAttachments`: deletes every listed file that exists; a failed delete is
        swallowed and the later files are still deleted. */
    method CleanupAttachments(attachments: seq<UploadedFile>)
      modifies this, fs
      ensures fs.files == AfterCleanup(old(fs.files), fs.unremovable, attachments)
      ensures cleanups == old(cleanups) + 1
      ensures credentials == old(credentials)
    {
      for i := 0 to |attachments|
        invariant fs.files == AfterCleanup(old(fs.files), fs.unremovable, attachments[..i])
        invariant credentials == old(credentials) && cleanups == old(cleanups)
      {
        var path := attachments[i].path;
        ghost var before := fs.files;
        var present := fs.Exists(path);
        if present {
          var _ := fs.Unlink(path);
        }
        CleanupStep(old(fs.files), fs.unremovable, attachments, i, before, fs.files);
      }
      assert attachments[..|attachments|] == attachments;
      cleanups := cleanups + 1;
    }

    /** `sendEmail`: builds the raw message from the disk as it is, sends it with the
        current credentials, and cleans up the attachments exactly once, whether the build
        or the send failed or not. The credentials are the ones the send call leaves, and
        stay as they were when the build fails. */
    method SendEmail(to: string, subject: string, message: string, attachments: seq<UploadedFile>,
                     now: nat, lookup: MimeMessage.MimeLookup, send: GmailSend) returns (r: Result<string, Error>)
      modifies this, fs
      ensures var sent := Dispatch(MimeMessage.BuildRaw(to, subject, message, attachments, old(fs.files), now, lookup),
                                   old(credentials), send);
        r == sent.outcome && credentials == sent.credentials
      ensures fs.files == AfterCleanup(old(fs.files), fs.unremovable, attachments)
      ensures cleanups == old(cleanups) + 1
    {
      var raw := MimeMessage.CreateEmail(to, subject, message, attachments, fs.files, now, lookup);
      if raw.Err? {
        CleanupAttachments(attachments);
        return Err(raw.error);
      }
      var response := send(credentials, raw.value);
      credentials := response.credentials;
      CleanupAttachments(attachments);
      r := response.outcome;
    }
  }
}
