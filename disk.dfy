/** The part of Node's `fs` the service uses, over an abstract disk: a map from path to
    contents. Some paths exist but cannot be deleted (no permission, busy); which ones is
    fixed for the life of the disk. */
module Disk {
  import opened Wrappers
  import opened Bytes
  import opened Uploads

  /** The error `fs.unlinkSync` raises for a path it may not delete. The model writes
      it as EPERM; Linux gives EACCES when the directory is not writable, and the service
      swallows both alike. */
  function NotPermitted(path: Path): Error {
    Error("EPERM: operation not permitted, unlink '" + path + "'")
  }

  /** The error `fs.unlinkSync` raises for a path that does not exist. */
  function NoSuchFileToUnlink(path: Path): Error {
    Error("ENOENT: no such file or directory, unlink '" + path + "'")
  }

  class FileSystem {
    var files: map<Path, Bytes>
    const unremovable: set<Path>

    constructor (files: map<Path, Bytes>, unremovable: set<Path>)
      ensures this.files == files && this.unremovable == unremovable
    {
      this.files := files;
      this.unremovable := unremovable;
    }

    /** `fs.existsSync`. */
    method Exists(path: Path) returns (b: bool)
      ensures b <==> path in files
    {
      b := path in files;
    }

    /** `fs.readFileSync`. */
    method ReadFile(path: Path) returns (r: Result<Bytes, Error>)
      ensures path in files ==> r == Ok(files[path])
      ensures path !in files ==> r == Err(NoSuchFile(path))
    {
      if path in files {
        r := Ok(files[path]);
      } else {
        r := Err(NoSuchFile(path));
      }
    }

    /** `fs.writeFileSync`: creates or replaces the file. */
    method WriteFile(path: Path, data: Bytes)
      modifies this
      ensures files == old(files)[path := data]
    {
      files := files[path := data];
    }

    /** `fs.unlinkSync`: deletes the file, or fails and leaves the disk as it was. */
    method Unlink(path: Path) returns (r: Result<(), Error>)
      modifies this
      ensures path !in old(files) ==> r == Err(NoSuchFileToUnlink(path)) && files == old(files)
      ensures path in old(files) && path in unremovable ==> r == Err(NotPermitted(path)) && files == old(files)
      ensures path in old(files) && path !in unremovable ==> r == Ok(()) && files == old(files) - {path}
    {
      if path !in files {
        return Err(NoSuchFileToUnlink(path));
      }
      if path in unremovable {
        return Err(NotPermitted(path));
      }
      files := files - {path};
      r := Ok(());
    }
  }
}
