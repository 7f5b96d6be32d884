/** `EmailController`: the upload gate in front of `POST /email/send` (the MIME-type
    allow-list, the count and size limits, the names uploads are stored under) and the
    mapping of the service's outcome to the HTTP reply. */
module EmailController {
  import opened Wrappers
  import opened Uploads
  import Decimal
  import NodePath
  import MimeMessage
  import opened Service

  /** The HTTP exception the controller raises, with its message. */
  datatype HttpException = BadRequest(message: string)

  // ---------------------------------------------------------------------------
  // The file filter

  /** The nine MIME types an upload may declare. */
  const AllowedMimeTypes: seq<string> := [
    "application/pdf",
    "application/msword",
    "application/vnd.openxmlformats-officedocument.wordprocessingml.document",
    "image/jpeg",
    "image/png",
    "image/gif",
    "text/plain",
    "application/vnd.ms-excel",
    "application/vnd.openxmlformats-officedocument.spreadsheetml.sheet"
  ]

  datatype FilterDecision = Accept | Reject(exception: HttpException)

  const RejectionPrefix: string := "File type "
  const RejectionSuffix: string := " is not allowed"

  function RejectionMessage(mimetype: string): string {
    RejectionPrefix + mimetype + RejectionSuffix
  }

  /** `fileFilter`: accepts exactly the listed types and rejects every other with a
      Bad Request that names the type. */
  function FileFilter(mimetype: string): (r: FilterDecision)
    ensures r.Accept? <==> mimetype in AllowedMimeTypes
    ensures r.Reject? ==> r.exception == BadRequest(RejectionMessage(mimetype))
  {
    if mimetype in AllowedMimeTypes then Accept else Reject(BadRequest(RejectionMessage(mimetype)))
  }

  /** Reads the rejected type back out of a rejection message. */
  function RejectedType(message: string): (r: Option<string>)
    ensures r.Some? ==> RejectionMessage(r.value) == message
  {
    var n, p, q := |message|, |RejectionPrefix|, |RejectionSuffix|;
    if n >= p + q && message[..p] == RejectionPrefix && message[n - q..] == RejectionSuffix
    then
      assert message == message[..p] + message[p..n - q] + message[n - q..];
      Some(message[p..n - q])
    else None
  }

  /** The message of a rejection names the declared type, and nothing else does. */
  lemma RejectionNamesType(mimetype: string, message: string)
    ensures RejectedType(message) == Some(mimetype) <==> RejectionMessage(mimetype) == message
  {
    var m := RejectionMessage(mimetype);
    var p, q := |RejectionPrefix|, |RejectionSuffix|;
    if m == message {
      assert m[..p] == RejectionPrefix;
      assert m[|m| - q..] == RejectionSuffix;
      assert m[p..|m| - q] == mimetype;
    }
  }

  // ---------------------------------------------------------------------------
  // The limits

  /** `limits.fileSize`: 10 MiB per file. */
  const MaxFileSize: nat := 10 * 1024 * 1024

  /** `limits.files`, and the interceptor's `maxCount`: five files per request. */
  const MaxFiles: nat := 5

  /** A file as the client sends it, before it is stored. */
  datatype Incoming = Incoming(originalname: string, mimetype: string, size: nat)

  /** Why the upload of a request is refused. */
  datatype GateError = TooManyFiles | TypeNotAllowed(exception: HttpException) | FileTooLarge(originalname: string)

  /** The gate in the order the files arrive: a file past the fifth is refused before it is
      looked at, then the filter judges its declared type, then its size is checked. */
  function AdmitFrom(incoming: seq<Incoming>, i: nat): (r: Result<(), GateError>)
    requires i <= |incoming|
    ensures r.Ok? ==> forall k :: i <= k < |incoming| ==> Acceptable(incoming[k])
    ensures r == Err(TooManyFiles) ==> |incoming| > MaxFiles
    decreases |incoming| - i
  {
    if i == |incoming| then Ok(())
    else if i >= MaxFiles then Err(TooManyFiles)
    else
      match FileFilter(incoming[i].mimetype)
      case Reject(e) => Err(TypeNotAllowed(e))
      case Accept =>
        if incoming[i].size > MaxFileSize then Err(FileTooLarge(incoming[i].originalname))
        else AdmitFrom(incoming, i + 1)
  }

  /** A request's files are let through exactly when there are at most five, each of an
      allowed type and at most 10 MiB. */
  function Admit(incoming: seq<Incoming>): (r: Result<(), GateError>)
    ensures r.Ok? <==> |incoming| <= MaxFiles && forall k :: 0 <= k < |incoming| ==> Acceptable(incoming[k])
  {
    AdmitFromIff(incoming, 0);
    AdmitFrom(incoming, 0)
  }

  predicate Acceptable(f: Incoming) {
    f.mimetype in AllowedMimeTypes && f.size <= MaxFileSize
  }

  lemma {:induction false} AdmitFromIff(incoming: seq<Incoming>, i: nat)
    requires i <= |incoming| && i <= MaxFiles
    ensures AdmitFrom(incoming, i).Ok? <==>
      |incoming| <= MaxFiles && forall k :: i <= k < |incoming| ==> Acceptable(incoming[k])
    decreases |incoming| - i
  {
    if i < |incoming| && i < MaxFiles {
      AdmitFromIff(incoming, i + 1);
    }
  }

  lemma {:induction false} AdmitFromFirstBad(incoming: seq<Incoming>, i: nat, j: nat)
    requires i <= j < |incoming| && j < MaxFiles && !Acceptable(incoming[j])
    requires forall k :: i <= k < j ==> Acceptable(incoming[k])
    ensures incoming[j].mimetype !in AllowedMimeTypes ==>
      AdmitFrom(incoming, i) == Err(TypeNotAllowed(BadRequest(RejectionMessage(incoming[j].mimetype))))
    ensures incoming[j].mimetype in AllowedMimeTypes ==>
      AdmitFrom(incoming, i) == Err(FileTooLarge(incoming[j].originalname))
    decreases j - i
  {
    if i < j {
      AdmitFromFirstBad(incoming, i + 1, j);
    }
  }

  /** The refusal names the first file among the first five that is not acceptable: its
      type when the filter rejects it, otherwise its size. */
  lemma AdmitFirstBad(incoming: seq<Incoming>, j: nat)
    requires j < |incoming| && j < MaxFiles && !Acceptable(incoming[j])
    requires forall k :: 0 <= k < j ==> Acceptable(incoming[k])
    ensures incoming[j].mimetype !in AllowedMimeTypes ==>
      Admit(incoming) == Err(TypeNotAllowed(BadRequest(RejectionMessage(incoming[j].mimetype))))
    ensures incoming[j].mimetype in AllowedMimeTypes ==>
      Admit(incoming) == Err(FileTooLarge(incoming[j].originalname))
  {
    AdmitFromFirstBad(incoming, 0, j);
  }

  lemma {:induction false} AdmitFromTooMany(incoming: seq<Incoming>, i: nat)
    requires i <= MaxFiles < |incoming|
    requires forall k :: i <= k < MaxFiles ==> Acceptable(incoming[k])
    ensures AdmitFrom(incoming, i) == Err(TooManyFiles)
    decreases MaxFiles - i
  {
    if i < MaxFiles {
      AdmitFromTooMany(incoming, i + 1);
    }
  }

  /** Six or more files whose first five are acceptable are refused for their number. */
  lemma AdmitTooMany(incoming: seq<Incoming>)
    requires |incoming| > MaxFiles
    requires forall k :: 0 <= k < MaxFiles ==> Acceptable(incoming[k])
    ensures Admit(incoming) == Err(TooManyFiles)
  {
    AdmitFromTooMany(incoming, 0);
  }

  // ---------------------------------------------------------------------------
  // Stored names

  /** The `filename` callback: `Date.now()`, a dash, `Math.round(Math.random() * 1E9)`
      (`random`, an integer from 0 to 10^9), and the original name's extension, which the
      stored name keeps as `path.extname` sees it. */
  function StoredFilename(now: nat, random: nat, originalname: string): (r: string)
    ensures NodePath.Extname(r) == NodePath.Extname(originalname)
  {
    var a, b := Decimal.FromNat(now), Decimal.FromNat(random);
    StemKeepsExtension(a, b, originalname);
    a + "-" + b + NodePath.Extname(originalname)
  }

  lemma DigitsHaveNoSeparator(d: string)
    requires Decimal.AllDigits(d)
    ensures NodePath.NoChar(d, '.') && NodePath.NoChar(d, '/')
  {
  }

  /** Two digit strings joined by a dash form a stem that does not change the extension
      put after it. */
  lemma StemKeepsExtension(a: string, b: string, originalname: string)
    requires Decimal.AllDigits(a) && Decimal.AllDigits(b)
    ensures NodePath.Extname(a + "-" + b + NodePath.Extname(originalname)) == NodePath.Extname(originalname)
  {
    var e := NodePath.Extname(originalname);
    var stem := a + "-" + b;
    DigitsHaveNoSeparator(a);
    DigitsHaveNoSeparator(b);
    assert NodePath.NoChar(stem, '.') && NodePath.NoChar(stem, '/') by {
      forall i | 0 <= i < |stem| ensures stem[i] != '.' && stem[i] != '/' {
        if i < |a| {
          assert stem[i] == a[i];
        } else if i > |a| {
          assert stem[i] == b[i - |a| - 1];
        }
      }
    }
    NodePath.ExtnameShape(originalname);
    NodePath.ExtnameAfterStem(stem, e);
  }

  /** A digit string followed by text that is empty or starts with a non-digit can be
      split off only one way. */
  lemma DigitsThenRest(d1: string, t1: string, d2: string, t2: string)
    requires Decimal.AllDigits(d1) && Decimal.AllDigits(d2)
    requires |t1| == 0 || !Decimal.IsDigit(t1[0])
    requires |t2| == 0 || !Decimal.IsDigit(t2[0])
    requires d1 + t1 == d2 + t2
    ensures d1 == d2 && t1 == t2
  {
    var s := d1 + t1;
    assert forall i :: 0 <= i < |d1| ==> Decimal.IsDigit(s[i]);
    assert forall i :: 0 <= i < |d2| ==> Decimal.IsDigit(s[i]);
    assert |d1| < |s| ==> !Decimal.IsDigit(s[|d1|]);
    assert |d2| < |s| ==> !Decimal.IsDigit(s[|d2|]);
    assert |d1| == |d2|;
    assert d1 == s[..|d1|] == d2;
    assert t1 == s[|d1|..] == t2;
  }

  /** `<digits>-<digits><extension>` can be taken apart only one way. */
  lemma NameSplitsOneWay(a1: string, b1: string, e1: string, a2: string, b2: string, e2: string)
    requires Decimal.AllDigits(a1) && Decimal.AllDigits(b1) && NodePath.IsExtension(e1)
    requires Decimal.AllDigits(a2) && Decimal.AllDigits(b2) && NodePath.IsExtension(e2)
    requires a1 + "-" + b1 + e1 == a2 + "-" + b2 + e2
    ensures a1 == a2 && b1 == b2 && e1 == e2
  {
    var r1, r2 := "-" + (b1 + e1), "-" + (b2 + e2);
    assert a1 + r1 == a1 + "-" + b1 + e1;
    assert a2 + r2 == a2 + "-" + b2 + e2;
    DigitsThenRest(a1, r1, a2, r2);
    assert b1 + e1 == r1[1..] == r2[1..] == b2 + e2;
    DigitsThenRest(b1, e1, b2, e2);
  }

  /** Different clock readings or random numbers give different stored names. */
  lemma StoredFilenameInjective(now1: nat, random1: nat, name1: string, now2: nat, random2: nat, name2: string)
    requires StoredFilename(now1, random1, name1) == StoredFilename(now2, random2, name2)
    ensures now1 == now2 && random1 == random2
    ensures NodePath.Extname(name1) == NodePath.Extname(name2)
  {
    NodePath.ExtnameShape(name1);
    NodePath.ExtnameShape(name2);
    NameSplitsOneWay(Decimal.FromNat(now1), Decimal.FromNat(random1), NodePath.Extname(name1),
                     Decimal.FromNat(now2), Decimal.FromNat(random2), NodePath.Extname(name2));
    Decimal.FromNatInjective(now1, now2);
    Decimal.FromNatInjective(random1, random2);
  }

  // ---------------------------------------------------------------------------
  // The reply

  /** The body of a successful reply. */
  datatype Reply = Reply(message: string)

  const SuccessMessage: string := "Email sent successfully"
  const FailurePrefix: string := "Failed to send email: "

  /** The handler's `try`/`catch`: a resolved send becomes the success reply; any error of
      the service becomes a Bad Request whose message is a fixed prefix followed by the
      service's message, which can be read back off it. */
  function Respond(outcome: Result<string, Error>): (r: Result<Reply, HttpException>)
    ensures r.Ok? <==> outcome.Ok?
    ensures r.Ok? ==> r.value.message == "Email sent successfully"
    ensures r.Err? ==> var m := r.error.message;
      && |m| >= |FailurePrefix| && m[..|FailurePrefix|] == "Failed to send email: "
      && m[|FailurePrefix|..] == outcome.error.message
  {
    match outcome
    case Ok(_) => Ok(Reply(SuccessMessage))
    case Err(e) => Err(BadRequest(FailurePrefix + e.message))
  }

  /** Different service errors give different replies. */
  lemma RespondInjective(e1: Error, e2: Error)
    requires Respond(Err(e1)) == Respond(Err(e2))
    ensures e1 == e2
  {
    var m := Respond(Err(e1)).error.message;
    assert e1.message == m[|FailurePrefix|..] == e2.message;
  }

  /** `sendEmail` of the controller: hands the stored uploads to the service and replies. */
  method HandleSend(service: GmailService, to: string, subject: string, message: string,
                    files: seq<UploadedFile>, now: nat, lookup: MimeMessage.MimeLookup, send: GmailSend)
    returns (r: Result<Reply, HttpException>)
    modifies service, service.fs
    ensures var sent := Dispatch(MimeMessage.BuildRaw(to, subject, message, files, old(service.fs.files), now, lookup),
                                 old(service.credentials), send);
      r == Respond(sent.outcome) && service.credentials == sent.credentials
    ensures service.fs.files == AfterCleanup(old(service.fs.files), service.fs.unremovable, files)
    ensures service.cleanups == old(service.cleanups) + 1
  {
    var outcome := service.SendEmail(to, subject, message, files, now, lookup, send);
    r := Respond(outcome);
  }
}
