/**
 * The output directory as seen by the splitter: a map from file name to the
 * document last saved under that name, plus a ghost history of every save.
 */
module Files {
  import opened Wrappers
  import opened Xml

  /** One save: the file name and the document written to it. */
  datatype Write = Write(path: string, document: Node)

  /** The document that the last write to `path` in `log` saved, if any. */
  function Latest(log: seq<Write>, path: string): Option<Node> {
    if log == [] then None
    else if log[|log| - 1].path == path then Some(log[|log| - 1].document)
    else Latest(log[..|log| - 1], path)
  }

  /** A later write to the same path hides an earlier one; writes elsewhere change nothing. */
  lemma {:induction false} LatestAppend(log: seq<Write>, more: seq<Write>, path: string)
    ensures Latest(log + more, path) == if Latest(more, path).Some? then Latest(more, path) else Latest(log, path)
    decreases |more|
  {
    if more != [] {
      var init := more[..|more| - 1];
      assert (log + more)[..|log + more| - 1] == log + init;
      LatestAppend(log, init, path);
    } else {
      assert log + more == log;
    }
  }

  /** When the writes in `more` all go to different paths, each of them is the latest for its path. */
  lemma {:induction false} LatestOfDistinct(log: seq<Write>, more: seq<Write>)
    requires forall j, k :: 0 <= j < k < |more| ==> more[j].path != more[k].path
    ensures forall j :: 0 <= j < |more| ==> Latest(log + more, more[j].path) == Some(more[j].document)
    decreases |more|
  {
    if more != [] {
      var init, n := more[..|more| - 1], |more| - 1;
      assert (log + more)[..|log + more| - 1] == log + init;
      assert (log + more)[|log + more| - 1] == more[n];
      LatestOfDistinct(log, init);
      forall j | 0 <= j < n
        ensures Latest(log + more, more[j].path) == Some(more[j].document)
      {
        assert more[j] == init[j];
      }
    }
  }

  /** The files after applying `writes` in order to `files`: each save creates or overwrites one file. */
  function ApplyWrites(files: map<string, Node>, writes: seq<Write>): map<string, Node> {
    if writes == [] then files
    else ApplyWrites(files, writes[..|writes| - 1])[writes[|writes| - 1].path := writes[|writes| - 1].document]
  }

  /**
   * After applying `writes`, a path holds the document of its latest write;
   * a path that no write touches keeps exactly what it held before.
   */
  lemma {:induction false} ApplyWritesLatest(files: map<string, Node>, writes: seq<Write>, path: string)
    ensures Latest(writes, path).Some? ==>
      path in ApplyWrites(files, writes) && ApplyWrites(files, writes)[path] == Latest(writes, path).value
    ensures Latest(writes, path).None? ==>
      (path in ApplyWrites(files, writes) <==> path in files)
      && (path in files ==> ApplyWrites(files, writes)[path] == files[path])
    decreases |writes|
  {
    if writes != [] {
      ApplyWritesLatest(files, writes[..|writes| - 1], path);
    }
  }

  /** Applying two more writes is updating the map with each of them in turn. */
  lemma ApplyTwoMore(files: map<string, Node>, writes: seq<Write>, w1: Write, w2: Write)
    ensures ApplyWrites(files, writes + [w1, w2])
      == ApplyWrites(files, writes)[w1.path := w1.document][w2.path := w2.document]
  {
    assert (writes + [w1, w2])[..|writes| + 1] == writes + [w1];
    assert (writes + [w1])[..|writes|] == writes;
  }

  class FileStore {
    /** The files on disk: name to saved document. */
    var files: map<string, Node>
    /** Every save made through this store, oldest first. */
    ghost var log: seq<Write>

    /** Every file this store saved holds the document of its most recent save. */
    ghost predicate Valid()
      reads this
    {
      forall path :: Latest(log, path).Some? ==> path in files && files[path] == Latest(log, path).value
    }

    /** A store over a directory that already holds `existing`, with no saves yet. */
    constructor (existing: map<string, Node>)
      ensures Valid()
      ensures files == existing && log == []
    {
      files := existing;
      log := [];
    }

    /** Creates or overwrites the file `path` with `document`. */
    method Save(path: string, document: Node)
      requires Valid()
      modifies this
      ensures Valid()
      ensures files == old(files)[path := document]
      ensures log == old(log) + [Write(path, document)]
    {
      files := files[path := document];
      log := log + [Write(path, document)];
      assert log[..|log| - 1] == old(log);
    }
  }
}
