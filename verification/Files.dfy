/** `FileHelper`: files as byte strings under their paths. I/O errors are not modelled. */
module Files {
  import opened Basics

  class FileSystem {
    var files: map<Bytes, Bytes>

    constructor ()
      ensures files == map[]
    {
      files := map[];
    }

    /** An absent file reads as empty, as `size()` reports it. */
    function Content(path: Bytes): Bytes
      reads this
    {
      if path in files then files[path] else []
    }

    lemma {:induction false} ContentIs(path: Bytes)
      ensures path in files ==> Content(path) == files[path]
      ensures path !in files ==> Content(path) == []
    {
    }

    method Exists(path: Bytes) returns (ok: bool)
      ensures ok <==> path in files
    {
      return path in files;
    }

    method Size(path: Bytes) returns (n: nat)
      ensures n == |Content(path)|
    {
      return if path in files then |files[path]| else 0;
    }

    /** Reading nothing succeeds at any offset. */
    method Read(path: Bytes, offset: nat, len: nat) returns (ok: bool, body: Bytes)
      ensures ok <==> path in files && (len == 0 || offset + len <= |files[path]|)
      ensures ok ==> body == if len == 0 then [] else Content(path)[offset..offset + len]
    {
      if path in files && len == 0 {
        return true, [];
      }
      if path in files && offset + len <= |files[path]| {
        return true, files[path][offset..offset + len];
      }
      return false, [];
    }

    /** Writes in place, creating the file first when it is absent. */
    method Write(path: Bytes, body: Bytes, offset: nat)
      modifies this
      ensures files == old(files)[path := Overwrite(old(Content(path)), offset, body)]
    {
      var present := Exists(path);
      if !present {
        CreateFile(path);
      }
      files := files[path := Overwrite(files[path], offset, body)];
    }

    method CreateFile(path: Bytes)
      modifies this
      ensures files == old(files)[path := []]
    {
      files := files[path := []];
    }

    method RemoveFile(path: Bytes) returns (ok: bool)
      modifies this
      ensures ok <==> path in old(files)
      ensures files == old(files) - {path}
    {
      ok := path in files;
      files := files - {path};
    }

    method Rename(path: Bytes, newPath: Bytes) returns (ok: bool)
      modifies this
      ensures ok <==> path in old(files)
      ensures files == if ok then (old(files) - {path})[newPath := old(files)[path]] else old(files)
    {
      ok := path in files;
      if ok {
        files := (files - {path})[newPath := files[path]];
      }
    }
  }
}
