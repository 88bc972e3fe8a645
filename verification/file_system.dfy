/**
 Abstract storage behind the file-system port: the set of existing
 directory paths, the set of existing file paths, and the paths whose
 creation the storage refuses, each with the status code it answers. The
 existence checks read the sets; a create either succeeds and adds the path
 or fails with the refusal code and changes nothing. Creating a directory
 on a path that is already taken succeeds without change, whatever the
 refusals say, as the POSIX adapter treats EEXIST; opening a directory as
 a file fails.
 */
module FileSystem {
  import opened Types

  datatype Storage = Storage(dirs: set<string>, files: set<string>, refused: map<string, StatusCode>)

  /** The error a create on `path` answers, if any. */
  function Refusal(fs: Storage, path: string): Option<StatusCode>
  {
    if path in fs.refused && fs.refused[path] != Success then Some(fs.refused[path]) else None
  }

  predicate DirectoryExists(fs: Storage, path: string) {
    path in fs.dirs
  }

  predicate FileExists(fs: Storage, path: string) {
    path in fs.files
  }

  /**
   Creating a directory: a path that is already taken, by a directory or by
   a file, answers Success and nothing changes (`mkdir` fails with EEXIST
   whatever kind of entry is there, and the adapter reports that as
   success); otherwise the storage either refuses with its code or adds the
   directory. A storage that keeps directories and files apart still does.
   */
  function CreateDirectory(fs: Storage, path: string): (r: (StatusCode, Storage))
    ensures path in fs.dirs || path in fs.files ==> r == (Success, fs)
    ensures r.0 == Success <==> path in fs.dirs || path in fs.files || Refusal(fs, path).None?
    ensures r.0 != Success ==> r.0 == Refusal(fs, path).value && r.1 == fs
    ensures r.0 == Success && path !in fs.dirs && path !in fs.files ==> r.1 == fs.(dirs := fs.dirs + {path})
    ensures fs.dirs !! fs.files ==> r.1.dirs !! r.1.files
  {
    if path in fs.dirs || path in fs.files then (Success, fs)
    else
      match Refusal(fs, path)
      case Some(e) => (e, fs)
      case None => (Success, fs.(dirs := fs.dirs + {path}))
  }

  /**
   Creating (or truncating) a file: a path that is a directory cannot be
   opened for writing and answers ErrorFileCreation; otherwise the storage
   either refuses with its code or adds the file. A storage that keeps
   directories and files apart still does.
   */
  function CreateFile(fs: Storage, path: string): (r: (StatusCode, Storage))
    ensures path in fs.dirs ==> r == (ErrorFileCreation, fs)
    ensures r.0 == Success <==> path !in fs.dirs && Refusal(fs, path).None?
    ensures r.0 != Success && path !in fs.dirs ==> r.0 == Refusal(fs, path).value && r.1 == fs
    ensures r.0 == Success ==> r.1 == fs.(files := fs.files + {path})
    ensures fs.dirs !! fs.files ==> r.1.dirs !! r.1.files
  {
    if path in fs.dirs then (ErrorFileCreation, fs)
    else
      match Refusal(fs, path)
      case Some(e) => (e, fs)
      case None => (Success, fs.(files := fs.files + {path}))
  }

  /** `after` only adds to `before`'s directories and files, under the same refusals. */
  predicate Grows(before: Storage, after: Storage) {
    before.dirs <= after.dirs && before.files <= after.files && before.refused == after.refused
  }
}
