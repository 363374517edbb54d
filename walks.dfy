/** `os.walk` as the loader scripts use it: the directories of a tree, each
    with its path and the files directly in it. The listing is an input; the
    scripts keep the files whose name passes a test, under the full path
    `os.path.join(root, name)`, in walk order. */
module Walks {
  import opened Paths

  /** A file: its name and its lines (each still carrying its line break). */
  datatype File = File(name: string, lines: seq<string>)

  /** One `(root, dirs, files)` triple of `os.walk`; the names in `dirs` are
      never used. */
  datatype WalkDir = WalkDir(root: string, files: seq<File>)

  /** A file kept by a walk: its full path, its name and its lines. */
  datatype Found = Found(path: string, name: string, lines: seq<string>)

  function FoundAt(root: string, f: File): Found {
    Found(PathJoin(root, f.name), f.name, f.lines)
  }

  /** The files of one directory whose name passes `keep`, in listing order. */
  function DirMatches(root: string, files: seq<File>, keep: string -> bool): (r: seq<Found>)
    ensures |r| <= |files|
    decreases |files|
  {
    if |files| == 0 then []
    else
      var f := files[|files| - 1];
      DirMatches(root, files[..|files| - 1], keep) + (if keep(f.name) then [FoundAt(root, f)] else [])
  }

  /** The files of a whole walk whose name passes `keep`, directory by
      directory. */
  function WalkMatches(walk: seq<WalkDir>, keep: string -> bool): seq<Found>
    decreases |walk|
  {
    if |walk| == 0 then []
    else WalkMatches(walk[..|walk| - 1], keep) + DirMatches(walk[|walk| - 1].root, walk[|walk| - 1].files, keep)
  }

  /** A directory keeps exactly the files whose name passes the test. */
  lemma {:induction false} DirMatchesMember(root: string, files: seq<File>, keep: string -> bool, x: Found)
    ensures x in DirMatches(root, files, keep) <==>
      exists j :: 0 <= j < |files| && keep(files[j].name) && x == FoundAt(root, files[j])
    decreases |files|
  {
    if |files| > 0 {
      var pre := files[..|files| - 1];
      DirMatchesMember(root, pre, keep, x);
      if exists j :: 0 <= j < |pre| && keep(pre[j].name) && x == FoundAt(root, pre[j]) {
        var j :| 0 <= j < |pre| && keep(pre[j].name) && x == FoundAt(root, pre[j]);
        assert files[j] == pre[j];
      }
      if exists j :: 0 <= j < |files| && keep(files[j].name) && x == FoundAt(root, files[j]) {
        var j :| 0 <= j < |files| && keep(files[j].name) && x == FoundAt(root, files[j]);
        if j < |pre| { assert pre[j] == files[j]; }
      }
    }
  }

  /** Every file a walk keeps passed the test and sits under the path of
      one of the walked directories. */
  lemma {:induction false} WalkMatchesKept(walk: seq<WalkDir>, keep: string -> bool, x: Found)
    requires x in WalkMatches(walk, keep)
    ensures keep(x.name)
    ensures exists i :: 0 <= i < |walk| && x.path == PathJoin(walk[i].root, x.name)
    decreases |walk|
  {
    var pre := walk[..|walk| - 1];
    var d := walk[|walk| - 1];
    if x in WalkMatches(pre, keep) {
      WalkMatchesKept(pre, keep, x);
      var i :| 0 <= i < |pre| && x.path == PathJoin(pre[i].root, x.name);
      assert walk[i] == pre[i];
    } else {
      DirMatchesMember(d.root, d.files, keep, x);
    }
  }
}
