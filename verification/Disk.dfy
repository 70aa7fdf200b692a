/** The directory of the credential file, step by step. */
module Disk {
  import opened Bytes
  import opened Credentials

  /** A file holds a complete list, or something that is not one (empty or cut short). */
  datatype Content = Whole(list: seq<Credential>) | Torn

  type Files = map<string, Content>

  /** Which of the steps of one save succeed. */
  datatype Outcomes = Outcomes(marshal: bool, create: bool, chmod: bool, write: bool, sync: bool, close: bool,
                               rename: bool, remove: bool)
  {
    predicate Persists() {
      marshal && create && chmod && write && sync && close && rename
    }
  }

  function ContentAt(files: Files, path: string): Option<Content> {
    if path in files then Some(files[path]) else None
  }

  class Directory {
    var files: Files
    /** Every state the directory has been in, the present one last: a stop leaves one of them behind. */
    ghost var history: seq<Files>

    ghost predicate Valid()
      reads this
    {
      history != [] && history[|history| - 1] == files
    }

    constructor (initial: Files)
      ensures Valid() && files == initial && history == [initial]
    {
      files := initial;
      history := [initial];
    }

    method Set(path: string, content: Content)
      requires Valid()
      modifies this
      ensures Valid() && files == old(files)[path := content] && history == old(history) + [files]
    {
      files := files[path := content];
      history := history + [files];
    }

    /** Fails when the name is taken. */
    method CreateTemp(path: string, works: bool) returns (ok: bool)
      requires Valid()
      modifies this
      ensures Valid() && ok == (works && path !in old(files))
      ensures files == (if ok then old(files)[path := Torn] else old(files))
      ensures history == if ok then old(history) + [files] else old(history)
    {
      ok := works && path !in files;
      if ok {
        Set(path, Torn);
      }
    }

    /** The content is incomplete until the write has succeeded. */
    method Write(path: string, list: seq<Credential>, works: bool) returns (ok: bool)
      requires Valid()
      modifies this
      ensures Valid() && ok == works
      ensures files == old(files)[path := if ok then Whole(list) else Torn]
      ensures history == old(history) + [old(files)[path := Torn]] + (if ok then [files] else [])
    {
      Set(path, Torn);
      ok := works;
      if ok {
        Set(path, Whole(list));
        assert files == old(files)[path := Whole(list)];
      }
    }

    /** Atomic: the directory goes from one state to the next without anything in between. */
    method Rename(source: string, target: string, works: bool) returns (ok: bool)
      requires Valid() && source in files && source != target
      modifies this
      ensures Valid() && ok == works
      ensures files == if ok then old(files)[target := old(files)[source]] - {source} else old(files)
      ensures history == if ok then old(history) + [files] else old(history)
    {
      ok := works;
      if ok {
        files := files[target := files[source]] - {source};
        history := history + [files];
      }
    }

    method Remove(path: string, works: bool)
      requires Valid()
      modifies this
      ensures Valid()
      ensures files == if works then old(files) - {path} else old(files)
      ensures history == if works then old(history) + [files] else old(history)
    {
      if works {
        files := files - {path};
        history := history + [files];
      }
    }
  }
}
