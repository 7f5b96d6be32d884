/** What the service is handed for each uploaded file, and the errors it passes on. */
module Uploads {
  import opened Bytes

  /** The fields of an `Express.Multer.File` the core reads: the name the client gave,
      the MIME type the client declared, and where the upload was stored on disk. */
  datatype UploadedFile = UploadedFile(originalname: string, mimetype: string, path: Path)

  /** A JavaScript `Error`, known to its handlers only by its `message`. */
  datatype Error = Error(message: string)

  /** The error Node's `fs` raises for opening a path that does not exist. */
  function NoSuchFile(path: Path): Error {
    Error("ENOENT: no such file or directory, open '" + path + "'")
  }

  /** The stored paths of a list of uploads. */
  function Paths(attachments: seq<UploadedFile>): (r: set<Path>)
    ensures forall i :: 0 <= i < |attachments| ==> attachments[i].path in r
    ensures forall p :: p in r ==> exists i :: 0 <= i < |attachments| && attachments[i].path == p
  {
    set i | 0 <= i < |attachments| :: attachments[i].path
  }
}
