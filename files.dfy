/**
 * The part of the file system the collection touches: files by path, each
 * with its text and modification time. A write replaces the file and stamps
 * it with the time of writing; a ghost log records every write made.
 */
module Files {
  import opened Wrappers

  datatype File = File(content: string, modified: int)

  datatype Write = Write(path: string, content: string)

  /**
   * Assets::is_modified_later: the file at `path` is missing, or older than
   * `time`. With no time only a missing file counts as stale.
   */
  function IsModifiedLater(files: map<string, File>, path: Option<string>, time: Option<int>): (b: bool)
    ensures path.Some? && path.value !in files ==> b
    ensures time.None? ==> (b <==> path.None? || path.value !in files)
    ensures path.Some? && path.value in files && time.Some? ==> (b <==> files[path.value].modified < time.value)
  {
    path.None? || path.value !in files || (time.Some? && files[path.value].modified < time.value)
  }

  class FileStore {
    var files: map<string, File>
    ghost var writes: seq<Write>

    constructor (initial: map<string, File>)
      ensures files == initial && writes == []
    {
      files := initial;
      writes := [];
    }

    /** file_put_contents: overwrite (or create) the file, stamped with the time `now`. */
    method PutContents(path: string, content: string, now: int)
      modifies this
      ensures files == old(files)[path := File(content, now)]
      ensures writes == old(writes) + [Write(path, content)]
    {
      files := files[path := File(content, now)];
      writes := writes + [Write(path, content)];
    }
  }
}
