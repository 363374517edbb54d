/** Copying UProC output files into iRODS
    (loader/imicrobe/uproc/copy_uproc_results_to_iplant_imicrobe.py): walk
    the source tree, map every result file to its place under the target
    collection, keep the pairs whose target is missing, and put those files
    in sorted source order. The walk is a listing; whether the source
    directory exists and each local file's checksum are parameters. */
module CopyResults {
  import opened Wrappers
  import opened Strings
  import opened Paths
  import opened Walks
  import opened Irods

  /** A UProC output file: its name contains `.uproc.`. */
  predicate IsUprocName(name: string) {
    Contains(name, ".uproc.")
  }

  /** The iRODS path of file `name` found in directory `dir`: the target
      root, the part of `dir` after the source root and its `/`, the name. */
  function TargetPath(sourceRoot: string, targetRoot: string, dir: string, name: string): string {
    PathJoin(PathJoin(targetRoot, DropFirst(dir, |sourceRoot| + 1)), name)
  }

  /** The inner loop over one directory's files, from the map found so far:
      a repeated source path is an error. */
  function AddFiles(sourceRoot: string, targetRoot: string, dir: string, files: seq<File>, found: map<string, string>)
    : Result<map<string, string>>
    decreases |files|
  {
    if |files| == 0 then Ok(found)
    else
      var name := files[0].name;
      if !IsUprocName(name) then AddFiles(sourceRoot, targetRoot, dir, files[1..], found)
      else
        var source := PathJoin(dir, name);
        if source in found then Err("already found " + source)
        else AddFiles(sourceRoot, targetRoot, dir, files[1..], found[source := TargetPath(sourceRoot, targetRoot, dir, name)])
  }

  /** The outer loop over the walk: after each whole directory the walk
      stops once at least `fileLimit` files have been found. */
  function Scan(sourceRoot: string, targetRoot: string, walk: seq<WalkDir>, fileLimit: Option<int>, found: map<string, string>)
    : Result<map<string, string>>
    decreases |walk|
  {
    if |walk| == 0 then Ok(found)
    else
      var added := AddFiles(sourceRoot, targetRoot, walk[0].root, walk[0].files, found);
      if added.Err? then added
      else if fileLimit.Some? && |added.value| >= fileLimit.value then added
      else Scan(sourceRoot, targetRoot, walk[1..], fileLimit, added.value)
  }

  /** One directory keeps the entries found before it and adds every
      selected file. */
  lemma {:induction false} AddFilesCovers(sourceRoot: string, targetRoot: string, dir: string, files: seq<File>,
                                          found: map<string, string>)
    requires AddFiles(sourceRoot, targetRoot, dir, files, found).Ok?
    ensures var m := AddFiles(sourceRoot, targetRoot, dir, files, found).value;
      && (forall k :: k in found ==> k in m && m[k] == found[k])
      && (forall j :: 0 <= j < |files| && IsUprocName(files[j].name) ==> PathJoin(dir, files[j].name) in m)
    decreases |files|
  {
    if |files| > 0 {
      var name := files[0].name;
      var rest := files[1..];
      var next := if IsUprocName(name) then found[PathJoin(dir, name) := TargetPath(sourceRoot, targetRoot, dir, name)] else found;
      assert AddFiles(sourceRoot, targetRoot, dir, files, found) == AddFiles(sourceRoot, targetRoot, dir, rest, next);
      AddFilesCovers(sourceRoot, targetRoot, dir, rest, next);
      var m := AddFiles(sourceRoot, targetRoot, dir, files, found).value;
      forall j | 0 <= j < |files| && IsUprocName(files[j].name)
        ensures PathJoin(dir, files[j].name) in m
      {
        if j > 0 { assert files[j] == rest[j - 1]; }
      }
    }
  }

  /** Every entry one directory adds is a selected file mapped to its
      target. */
  lemma {:induction false} AddFilesSound(sourceRoot: string, targetRoot: string, dir: string, files: seq<File>,
                                         found: map<string, string>)
    requires AddFiles(sourceRoot, targetRoot, dir, files, found).Ok?
    ensures var m := AddFiles(sourceRoot, targetRoot, dir, files, found).value;
      forall k :: k in m && k !in found ==>
        exists j :: 0 <= j < |files| && IsUprocName(files[j].name) && k == PathJoin(dir, files[j].name)
          && m[k] == TargetPath(sourceRoot, targetRoot, dir, files[j].name)
    decreases |files|
  {
    if |files| > 0 {
      var name := files[0].name;
      var rest := files[1..];
      var next := if IsUprocName(name) then found[PathJoin(dir, name) := TargetPath(sourceRoot, targetRoot, dir, name)] else found;
      assert AddFiles(sourceRoot, targetRoot, dir, files, found) == AddFiles(sourceRoot, targetRoot, dir, rest, next);
      AddFilesSound(sourceRoot, targetRoot, dir, rest, next);
      AddFilesCovers(sourceRoot, targetRoot, dir, rest, next);
      var m := AddFiles(sourceRoot, targetRoot, dir, files, found).value;
      forall k | k in m && k !in found
        ensures exists j ::
          && 0 <= j < |files| && IsUprocName(files[j].name) && k == PathJoin(dir, files[j].name)
          && m[k] == TargetPath(sourceRoot, targetRoot, dir, files[j].name)
      {
        if k in next {
          assert 0 < |files| && IsUprocName(files[0].name) && k == PathJoin(dir, files[0].name);
        } else {
          var j :| 0 <= j < |rest| && IsUprocName(rest[j].name) && k == PathJoin(dir, rest[j].name)
            && m[k] == TargetPath(sourceRoot, targetRoot, dir, rest[j].name);
          assert files[j + 1] == rest[j];
        }
      }
    }
  }

  /** Every entry the scan finds is a selected file of a walked directory,
      mapped to its target path. */
  lemma {:induction false} ScanSound(sourceRoot: string, targetRoot: string, walk: seq<WalkDir>, fileLimit: Option<int>,
                                     found: map<string, string>)
    requires Scan(sourceRoot, targetRoot, walk, fileLimit, found).Ok?
    ensures var m := Scan(sourceRoot, targetRoot, walk, fileLimit, found).value;
      forall k :: k in m && k !in found ==>
            exists i, j :: 0 <= i < |walk| && 0 <= j < |walk[i].files| && IsUprocName(walk[i].files[j].name)
              && k == PathJoin(walk[i].root, walk[i].files[j].name)
              && m[k] == TargetPath(sourceRoot, targetRoot, walk[i].root, walk[i].files[j].name)
    decreases |walk|
  {
    if |walk| > 0 {
      var d := walk[0];
      AddFilesSound(sourceRoot, targetRoot, d.root, d.files, found);
      var added := AddFiles(sourceRoot, targetRoot, d.root, d.files, found).value;
      if !(fileLimit.Some? && |added| >= fileLimit.value) {
        var rest := walk[1..];
        ScanSound(sourceRoot, targetRoot, rest, fileLimit, added);
        ScanKeeps(sourceRoot, targetRoot, rest, fileLimit, added);
        var m := Scan(sourceRoot, targetRoot, walk, fileLimit, found).value;
        forall k | k in m && k !in found
          ensures exists i, j ::
            && 0 <= i < |walk| && 0 <= j < |walk[i].files| && IsUprocName(walk[i].files[j].name)
            && k == PathJoin(walk[i].root, walk[i].files[j].name)
            && m[k] == TargetPath(sourceRoot, targetRoot, walk[i].root, walk[i].files[j].name)
        {
          if k in added {
            var j :| 0 <= j < |d.files| && IsUprocName(d.files[j].name) && k == PathJoin(d.root, d.files[j].name)
              && added[k] == TargetPath(sourceRoot, targetRoot, d.root, d.files[j].name);
            assert walk[0] == d;
          } else {
            var i, j :| 0 <= i < |rest| && 0 <= j < |rest[i].files| && IsUprocName(rest[i].files[j].name)
              && k == PathJoin(rest[i].root, rest[i].files[j].name)
              && m[k] == TargetPath(sourceRoot, targetRoot, rest[i].root, rest[i].files[j].name);
            assert walk[i + 1] == rest[i];
          }
        }
      }
    }
  }

  /** The scan keeps the entries it started from. */
  lemma {:induction false} ScanKeeps(sourceRoot: string, targetRoot: string, walk: seq<WalkDir>, fileLimit: Option<int>,
                                     found: map<string, string>)
    requires Scan(sourceRoot, targetRoot, walk, fileLimit, found).Ok?
    ensures var m := Scan(sourceRoot, targetRoot, walk, fileLimit, found).value;
      forall k :: k in found ==> k in m && m[k] == found[k]
    decreases |walk|
  {
    if |walk| > 0 {
      var d := walk[0];
      AddFilesCovers(sourceRoot, targetRoot, d.root, d.files, found);
      var added := AddFiles(sourceRoot, targetRoot, d.root, d.files, found).value;
      if !(fileLimit.Some? && |added| >= fileLimit.value) {
        ScanKeeps(sourceRoot, targetRoot, walk[1..], fileLimit, added);
      }
    }
  }

  /** The scan either reaches the limit or finds every selected file of the
      walk. */
  lemma {:induction false} ScanComplete(sourceRoot: string, targetRoot: string, walk: seq<WalkDir>, fileLimit: Option<int>,
                                        found: map<string, string>)
    requires Scan(sourceRoot, targetRoot, walk, fileLimit, found).Ok?
    ensures var m := Scan(sourceRoot, targetRoot, walk, fileLimit, found).value;
      (fileLimit.Some? && |m| >= fileLimit.value) || AllSelectedFound(walk, m)
    decreases |walk|
  {
    if |walk| > 0 {
      var d := walk[0];
      AddFilesCovers(sourceRoot, targetRoot, d.root, d.files, found);
      var added := AddFiles(sourceRoot, targetRoot, d.root, d.files, found).value;
      if !(fileLimit.Some? && |added| >= fileLimit.value) {
        var rest := walk[1..];
        var m := Scan(sourceRoot, targetRoot, rest, fileLimit, added).value;
        assert Scan(sourceRoot, targetRoot, walk, fileLimit, found).value == m;
        ScanComplete(sourceRoot, targetRoot, rest, fileLimit, added);
        ScanKeeps(sourceRoot, targetRoot, rest, fileLimit, added);
        if !(fileLimit.Some? && |m| >= fileLimit.value) {
          AllSelectedFoundCons(walk, m);
        }
      }
    }
  }

  /** Every selected file of the walk is an entry of `m`. */
  predicate AllSelectedFound(walk: seq<WalkDir>, m: map<string, string>) {
    forall i, j :: 0 <= i < |walk| && 0 <= j < |walk[i].files| && IsUprocName(walk[i].files[j].name) ==>
      PathJoin(walk[i].root, walk[i].files[j].name) in m
  }

  lemma AllSelectedFoundCons(walk: seq<WalkDir>, m: map<string, string>)
    requires |walk| > 0
    requires forall j :: 0 <= j < |walk[0].files| && IsUprocName(walk[0].files[j].name) ==>
      PathJoin(walk[0].root, walk[0].files[j].name) in m
    requires AllSelectedFound(walk[1..], m)
    ensures AllSelectedFound(walk, m)
  {
    forall i, j | 0 <= i < |walk| && 0 <= j < |walk[i].files| && IsUprocName(walk[i].files[j].name)
      ensures PathJoin(walk[i].root, walk[i].files[j].name) in m
    {
      if i > 0 {
        assert walk[i] == walk[1..][i - 1];
      }
    }
  }

  /** The loop that builds `uproc_results_files`. */
  method FindResults(sourceRoot: string, targetRoot: string, walk: seq<WalkDir>, fileLimit: Option<int>)
    returns (r: Result<map<string, string>>)
    ensures r == Scan(sourceRoot, targetRoot, walk, fileLimit, map[])
  {
    var found: map<string, string> := map[];
    var i := 0;
    while i < |walk|
      invariant i <= |walk|
      invariant Scan(sourceRoot, targetRoot, walk[i..], fileLimit, found) == Scan(sourceRoot, targetRoot, walk, fileLimit, map[])
    {
      var dir := walk[i].root;
      var files := walk[i].files;
      ghost var before := found;
      var j := 0;
      while j < |files|
        invariant j <= |files|
        invariant AddFiles(sourceRoot, targetRoot, dir, files[j..], found) == AddFiles(sourceRoot, targetRoot, dir, files, before)
      {
        assert files[j..][1..] == files[j + 1..];
        var name := files[j].name;
        if IsUprocName(name) {
          var source := PathJoin(dir, name);
          if source in found {
            return Err("already found " + source);
          }
          found := found[source := TargetPath(sourceRoot, targetRoot, dir, name)];
        }
        j := j + 1;
      }
      assert walk[i..][1..] == walk[i + 1..];
      if fileLimit.Some? && |found| >= fileLimit.value {
        return Ok(found);
      }
      i := i + 1;
    }
    return Ok(found);
  }

  /** The pairs to copy, in the order of `sources`: those whose target is
      not yet a data object. */
  function ToCopy(sources: seq<string>, found: map<string, string>, objects: map<string, string>): seq<(string, string)>
    requires forall s :: s in sources ==> s in found
    decreases |sources|
  {
    if |sources| == 0 then []
    else
      var s := sources[|sources| - 1];
      ToCopy(sources[..|sources| - 1], found, objects) + (if found[s] in objects then [] else [(s, found[s])])
  }

  /** The pairs to copy are exactly the found pairs whose target is
      missing. */
  lemma {:induction false} ToCopyMembers(sources: seq<string>, found: map<string, string>, objects: map<string, string>)
    requires forall s :: s in sources ==> s in found
    ensures forall p :: p in ToCopy(sources, found, objects) <==> p.0 in sources && p.1 == found[p.0] && p.1 !in objects
    decreases |sources|
  {
    if |sources| > 0 {
      var pre := sources[..|sources| - 1];
      var s := sources[|sources| - 1];
      ToCopyMembers(pre, found, objects);
      forall p ensures p in ToCopy(sources, found, objects) <==> p.0 in sources && p.1 == found[p.0] && p.1 !in objects {
        if p.0 in sources && p.0 !in pre {
          assert p.0 == s;
        }
      }
    }
  }

  /** Strictly increasing: sorted and without repeats. */
  predicate StrictlySorted(s: seq<string>) {
    forall i, j :: 0 <= i < j < |s| ==> LexLe(s[i], s[j]) && s[i] != s[j]
  }

  /** The source paths of a list of pairs. */
  function Sources(pairs: seq<(string, string)>): (r: seq<string>)
    ensures |r| == |pairs|
  {
    seq(|pairs|, i requires 0 <= i < |pairs| => pairs[i].0)
  }

  /** The pairs to copy keep the order of the sources. */
  lemma {:induction false} ToCopySorted(sources: seq<string>, found: map<string, string>, objects: map<string, string>)
    requires forall s :: s in sources ==> s in found
    requires StrictlySorted(sources)
    ensures StrictlySorted(Sources(ToCopy(sources, found, objects)))
    decreases |sources|
  {
    if |sources| > 0 {
      var pre := sources[..|sources| - 1];
      var s := sources[|sources| - 1];
      assert StrictlySorted(pre) by {
        forall i, j | 0 <= i < j < |pre| ensures LexLe(pre[i], pre[j]) && pre[i] != pre[j] {
          assert pre[i] == sources[i] && pre[j] == sources[j];
        }
      }
      ToCopySorted(pre, found, objects);
      ToCopyMembers(pre, found, objects);
      var head := ToCopy(pre, found, objects);
      var pairs := ToCopy(sources, found, objects);
      var ss := Sources(pairs);
      forall a, b | 0 <= a < b < |ss| ensures LexLe(ss[a], ss[b]) && ss[a] != ss[b] {
        assert pairs[a] == head[a];
        if b < |head| {
          assert pairs[b] == head[b];
          assert Sources(head)[a] == ss[a] && Sources(head)[b] == ss[b];
        } else {
          assert head[a] in head;
          var x :| 0 <= x < |pre| && pre[x] == head[a].0;
          assert ss[b] == s && sources[x] == pre[x];
        }
      }
    }
  }

  /** The loop that builds `files_to_be_copied`, over the found pairs in
      sorted source order. */
  method FilesToCopy(found: map<string, string>, objects: map<string, string>) returns (pairs: seq<(string, string)>)
    ensures forall p :: p in pairs <==> p.0 in found && p.1 == found[p.0] && p.1 !in objects
    ensures StrictlySorted(Sources(pairs))
  {
    var sources := SortedElements(found.Keys);
    pairs := [];
    var i := 0;
    while i < |sources|
      invariant i <= |sources|
      invariant pairs == ToCopy(sources[..i], found, objects)
    {
      assert sources[..i + 1][..i] == sources[..i];
      var s := sources[i];
      if found[s] !in objects {
        pairs := pairs + [(s, found[s])];
      }
      i := i + 1;
    }
    assert sources[..i] == sources;
    ToCopyMembers(sources, found, objects);
    ToCopySorted(sources, found, objects);
  }

  /** The data objects after `copy_file_to_irods`: the put happens only
      when the target is missing. */
  function Copied(objects: map<string, string>, target: string, checksum: string): (r: map<string, string>)
    ensures target in r
    ensures forall k :: k in objects ==> k in r && r[k] == objects[k]
    ensures forall k :: k in r ==> k in objects || k == target
  {
    if target in objects then objects else objects[target := checksum]
  }

  /** Copying the same file twice is the same as copying it once. */
  lemma CopiedIdempotent(objects: map<string, string>, target: string, checksum: string)
    ensures Copied(Copied(objects, target, checksum), target, checksum) == Copied(objects, target, checksum)
  {
  }

  /** `copy_file_to_irods`. */
  method CopyFileToIrods(store: IrodsStore, source: string, target: string, checksum: string)
    modifies store
    ensures store.objects == Copied(old(store.objects), target, checksum)
    ensures store.collections == old(store.collections)
  {
    if target !in store.objects {
      store.Put(target, checksum);
    }
  }

  /** The data objects after copying `pairs` in order. */
  function CopyAll(objects: map<string, string>, pairs: seq<(string, string)>, checksumOf: string -> string)
    : map<string, string>
    decreases |pairs|
  {
    if |pairs| == 0 then objects
    else
      var p := pairs[|pairs| - 1];
      Copied(CopyAll(objects, pairs[..|pairs| - 1], checksumOf), p.1, checksumOf(p.0))
  }

  /** After the copies every target exists, the objects that existed are
      untouched, and nothing else appears. */
  lemma {:induction false} CopyAllResult(objects: map<string, string>, pairs: seq<(string, string)>, checksumOf: string -> string)
    ensures var r := CopyAll(objects, pairs, checksumOf);
      && (forall p :: p in pairs ==> p.1 in r)
      && (forall k :: k in objects ==> k in r && r[k] == objects[k])
      && (forall k :: k in r ==> k in objects || exists p :: p in pairs && p.1 == k)
    decreases |pairs|
  {
    if |pairs| > 0 {
      var pre := pairs[..|pairs| - 1];
      CopyAllResult(objects, pre, checksumOf);
      var r := CopyAll(objects, pairs, checksumOf);
      forall p | p in pairs ensures p.1 in r {
        if p != pairs[|pairs| - 1] {
          var j :| 0 <= j < |pairs| && pairs[j] == p;
          assert pre[j] == p;
        }
      }
      forall k | k in r ensures k in objects || exists p :: p in pairs && p.1 == k {
        if k !in CopyAll(objects, pre, checksumOf) {
          assert pairs[|pairs| - 1] in pairs;
        } else if k !in objects {
          var p :| p in pre && p.1 == k;
          var j :| 0 <= j < |pre| && pre[j] == p;
          assert pairs[j] == p;
        }
      }
    }
  }

  /** `copy_uproc_output_to_irods`: a missing source directory or target
      collection ends the run before anything else; a repeated source path
      ends it after the walk; otherwise every file whose target is missing
      is copied, in sorted source order, and the copied pairs are
      returned. */
  method CopyUprocOutput(store: IrodsStore, sourceExists: bool, sourceRoot: string, targetRoot: string,
                         walk: seq<WalkDir>, fileLimit: Option<int>, checksumOf: string -> string)
    returns (r: Result<seq<(string, string)>>)
    modifies store
    ensures r.Ok? <==> sourceExists && targetRoot in old(store.collections)
                       && Scan(sourceRoot, targetRoot, walk, fileLimit, map[]).Ok?
    ensures r.Err? ==> store.objects == old(store.objects)
    ensures r.Ok? ==> var found := Scan(sourceRoot, targetRoot, walk, fileLimit, map[]).value;
      && (forall p :: p in r.value <==> p.0 in found && p.1 == found[p.0] && p.1 !in old(store.objects))
      && StrictlySorted(Sources(r.value))
      && store.objects == CopyAll(old(store.objects), r.value, checksumOf)
    ensures store.collections == old(store.collections)
  {
    if !sourceExists {
      return Err("source directory does not exist");
    }
    if targetRoot !in store.collections {
      return Err("target directory does not exist");
    }
    var found := FindResults(sourceRoot, targetRoot, walk, fileLimit);
    if found.Err? {
      return Err(found.msg);
    }
    var pairs := FilesToCopy(found.value, store.objects);
    ghost var objects := store.objects;
    var i := 0;
    while i < |pairs|
      invariant i <= |pairs|
      invariant store.objects == CopyAll(objects, pairs[..i], checksumOf)
      invariant store.collections == old(store.collections)
    {
      assert pairs[..i + 1][..i] == pairs[..i];
      CopyFileToIrods(store, pairs[i].0, pairs[i].1, checksumOf(pairs[i].0));
      i := i + 1;
    }
    assert pairs[..i] == pairs;
    r := Ok(pairs);
  }
}
