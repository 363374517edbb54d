/** The download command file for UProC results
    (imicrobe/load/uproc_results/write_download_command_file.py): an
    `ils -r` listing of the iRODS project tree is read line by line; each
    `.uproc.kegg` or `.uproc.pfam28` file under a collection gets one shell
    line that makes the local directory and fetches the file with `iget`,
    unless the local file already exists. The local file system is the set
    of paths that exist. */
module DownloadCommands {
  import opened Wrappers
  import opened Strings
  import opened Groups
  import opened Paths

  /** The root collection: the first line, stripped, without its colon. */
  function Root(first: string): string {
    DropLast(Strip(first))
  }

  predicate IsKeggLine(line: string) {
    EndsWith(line, ".uproc.kegg")
  }

  predicate IsPfamLine(line: string) {
    EndsWith(line, ".uproc.pfam28")
  }

  /** A collection header: a line starting with the root that is not a
      `C-` sub-collection line. */
  predicate IsHeader(root: string, line: string) {
    !StartsWith(line, "C-") && StartsWith(line, root)
  }

  /** Where a result file is put: the target directory, the collection with
      the root and the `/` after it removed, the file name. */
  function LocalPath(root: string, target: string, collection: string, name: string): string {
    PathJoin(PathJoin(target, DropFirst(collection, |root| + 1)), name)
  }

  /** One download: the iRODS source path and the local path. */
  datatype Download = Download(source: string, local: string)

  /** The shell line fetching a download: make its directory, then `iget`
      the file. */
  function CommandLine(d: Download): string {
    var dir := Dirname(d.local);
    "mkdir -p " + dir + ";chmod agu+rx " + dir + ";" + "iget -K " + d.source + " " + d.local + ";chmod agu+r " + d.local + "\n"
  }

  /** The lines written for the downloads, in order. */
  function CommandLines(ds: seq<Download>): (r: seq<string>)
    ensures |r| == |ds|
  {
    seq(|ds|, i requires 0 <= i < |ds| => CommandLine(ds[i]))
  }

  /** The download of one result file: none when the local file exists. */
  function ResultDownloads(root: string, target: string, existing: set<string>, collection: string, name: string)
    : (r: seq<Download>)
    ensures |r| <= 1
  {
    var local := LocalPath(root, target, collection, name);
    if local in existing then [] else [Download(PathJoin(collection, name), local)]
  }

  /** The state of the loop: the current collection, the downloads written
      and the two counters. */
  datatype ListingState = ListingState(collection: Option<string>, downloads: seq<Download>, keggCount: nat, pfamCount: nat)

  /** One listing line. */
  function Step(root: string, target: string, existing: set<string>, st: ListingState, line: string): ListingState {
    if StartsWith(line, "C-") then st
    else if StartsWith(line, root) then st.(collection := Some(DropLast(Strip(line))))
    else if IsKeggLine(line) && st.collection.Some? then
      st.(keggCount := st.keggCount + 1,
          downloads := st.downloads + ResultDownloads(root, target, existing, st.collection.value, line))
    else if IsPfamLine(line) && st.collection.Some? then
      st.(pfamCount := st.pfamCount + 1,
          downloads := st.downloads + ResultDownloads(root, target, existing, st.collection.value, line))
    else st
  }

  /** The state after the lines, from no collection, no download and zero
      counts. */
  function Run(root: string, target: string, existing: set<string>, lines: seq<string>): ListingState
    decreases |lines|
  {
    if |lines| == 0 then ListingState(None, [], 0, 0)
    else Step(root, target, existing, Run(root, target, existing, lines[..|lines| - 1]), lines[|lines| - 1])
  }

  /** The lines after the first, stripped, at most `lineLimit` of them. */
  function Body(listing: seq<string>, lineLimit: Option<nat>): seq<string> {
    var rest := if |listing| == 0 then [] else listing[1..];
    Take(lineLimit, seq(|rest|, i requires 0 <= i < |rest| => Strip(rest[i])))
  }

  function First(listing: seq<string>): string {
    if |listing| == 0 then "" else listing[0]
  }

  /** The argument check of `get_args`: the target must be absolute. */
  function CheckTarget(target: string): Result<string> {
    if IsAbs(target) then Ok(target)
    else Err("command line argument --results-target-dp must be an absolute path")
  }

  /** `main`: the root from the first line, then the loop over the rest;
      `out` is what is written to standard output, one line per download. */
  method WriteDownloadCommands(listing: seq<string>, target: string, lineLimit: Option<nat>, existing: set<string>)
    returns (r: Result<ListingState>, out: seq<string>)
    ensures r.Ok? <==> IsAbs(target)
    ensures r.Ok? ==> r.value == Run(Root(First(listing)), target, existing, Body(listing, lineLimit))
    ensures r.Ok? ==> out == CommandLines(r.value.downloads)
    ensures r.Ok? ==> var lines := Body(listing, lineLimit);
      out == CommandLines(Wanted(Root(First(listing)), target, existing, lines, |lines|))
    ensures r.Err? ==> out == []
  {
    out := [];
    var t := CheckTarget(target);
    if t.Err? {
      return Err(t.msg), out;
    }
    var root := Root(First(listing));
    var lines := Body(listing, lineLimit);
    var st := ListingState(None, [], 0, 0);
    var i := 0;
    while i < |lines|
      invariant i <= |lines|
      invariant st == Run(root, target, existing, lines[..i])
    {
      RunStep(root, target, existing, lines, i);
      var line := lines[i];
      if StartsWith(line, "C-") {
      } else if StartsWith(line, root) {
        st := st.(collection := Some(DropLast(Strip(line))));
      } else if IsKeggLine(line) && st.collection.Some? {
        var added := ResultDownloads(root, target, existing, st.collection.value, line);
        st := st.(keggCount := st.keggCount + 1, downloads := st.downloads + added);
      } else if IsPfamLine(line) && st.collection.Some? {
        var added := ResultDownloads(root, target, existing, st.collection.value, line);
        st := st.(pfamCount := st.pfamCount + 1, downloads := st.downloads + added);
      }
      i := i + 1;
    }
    assert lines[..i] == lines;
    RunDownloads(root, target, existing, lines);
    r := Ok(st);
    out := CommandLines(st.downloads);
  }

  /** Some header comes before line `i`. */
  predicate HeaderBefore(root: string, lines: seq<string>, i: nat)
    requires i <= |lines|
  {
    exists k :: 0 <= k < i && IsHeader(root, lines[k])
  }

  /** A counted KEGG result line: not a `C-` line, not a header, ending in
      `.uproc.kegg`, after some header. */
  predicate KeggAt(root: string, lines: seq<string>, i: nat)
    requires i < |lines|
  {
    !StartsWith(lines[i], "C-") && !StartsWith(lines[i], root) && IsKeggLine(lines[i])
    && HeaderBefore(root, lines, i)
  }

  /** A counted Pfam result line. */
  predicate PfamAt(root: string, lines: seq<string>, i: nat)
    requires i < |lines|
  {
    !StartsWith(lines[i], "C-") && !StartsWith(lines[i], root) && IsPfamLine(lines[i]) && !IsKeggLine(lines[i])
    && HeaderBefore(root, lines, i)
  }

  /** The indices below `n` that satisfy `p`. */
  function Matching(n: nat, p: nat -> bool): set<nat> {
    set i | 0 <= i < n && p(i)
  }

  lemma MatchingStep(n: nat, p: nat -> bool)
    ensures |Matching(n + 1, p)| == |Matching(n, p)| + if p(n) then 1 else 0
  {
    if p(n) {
      assert Matching(n + 1, p) == Matching(n, p) + {n};
    } else {
      assert Matching(n + 1, p) == Matching(n, p);
    }
  }

  function IsKeggAt(root: string, lines: seq<string>): nat -> bool {
    (i: nat) => i < |lines| && KeggAt(root, lines, i)
  }

  function IsPfamAt(root: string, lines: seq<string>): nat -> bool {
    (i: nat) => i < |lines| && PfamAt(root, lines, i)
  }

  /** The counted KEGG result lines among the first `n`. */
  function KeggLines(root: string, lines: seq<string>, n: nat): set<nat> {
    Matching(n, IsKeggAt(root, lines))
  }

  /** The counted Pfam result lines among the first `n`. */
  function PfamLines(root: string, lines: seq<string>, n: nat): set<nat> {
    Matching(n, IsPfamAt(root, lines))
  }

  /** `Step` case by case, with the two kinds of result line together. */
  lemma StepCases(root: string, target: string, existing: set<string>, st: ListingState, line: string)
    ensures StartsWith(line, "C-") ==> Step(root, target, existing, st, line) == st
    ensures !StartsWith(line, "C-") && StartsWith(line, root) ==>
      Step(root, target, existing, st, line) == st.(collection := Some(DropLast(Strip(line))))
    ensures !StartsWith(line, "C-") && !StartsWith(line, root) && (IsKeggLine(line) || IsPfamLine(line)) && st.collection.Some? ==>
      Step(root, target, existing, st, line) ==
        st.(keggCount := st.keggCount + (if IsKeggLine(line) then 1 else 0),
            pfamCount := st.pfamCount + (if IsKeggLine(line) then 0 else 1),
            downloads := st.downloads + ResultDownloads(root, target, existing, st.collection.value, line))
    ensures !StartsWith(line, "C-") && !StartsWith(line, root) && !((IsKeggLine(line) || IsPfamLine(line)) && st.collection.Some?) ==>
      Step(root, target, existing, st, line) == st
  {
  }

  /** Only a header line changes the collection. */
  lemma StepCollection(root: string, target: string, existing: set<string>, st: ListingState, line: string)
    ensures Step(root, target, existing, st, line).collection ==
      if IsHeader(root, line) then Some(DropLast(Strip(line))) else st.collection
  {
  }

  /** Running one more line of a listing. */
  lemma RunStep(root: string, target: string, existing: set<string>, lines: seq<string>, n: nat)
    requires n < |lines|
    ensures Run(root, target, existing, lines[..n + 1]) == Step(root, target, existing, Run(root, target, existing, lines[..n]), lines[n])
  {
    assert lines[..n + 1][..n] == lines[..n];
  }

  /** The collection is set exactly once a header has been read. */
  lemma {:induction false} RunHasCollection(root: string, target: string, existing: set<string>, lines: seq<string>, n: nat)
    requires n <= |lines|
    ensures Run(root, target, existing, lines[..n]).collection.Some? <==> HeaderBefore(root, lines, n)
    decreases n
  {
    if n > 0 {
      RunHasCollection(root, target, existing, lines, n - 1);
      RunStep(root, target, existing, lines, n - 1);
      if HeaderBefore(root, lines, n - 1) {
        var k :| 0 <= k < n - 1 && IsHeader(root, lines[k]);
        assert 0 <= k < n && IsHeader(root, lines[k]);
      }
      if IsHeader(root, lines[n - 1]) {
        assert HeaderBefore(root, lines, n);
      }
    }
  }

  /** The KEGG counter counts the KEGG result lines that follow a header,
      whether or not a command was written for them. */
  lemma {:induction false} RunKeggCount(root: string, target: string, existing: set<string>, lines: seq<string>, n: nat)
    requires n <= |lines|
    ensures Run(root, target, existing, lines[..n]).keggCount == |KeggLines(root, lines, n)|
    decreases n
  {
    if n > 0 {
      RunKeggCount(root, target, existing, lines, n - 1);
      RunHasCollection(root, target, existing, lines, n - 1);
      RunStep(root, target, existing, lines, n - 1);
      MatchingStep(n - 1, IsKeggAt(root, lines));
    }
  }

  /** A line cannot end with both suffixes. */
  lemma NotBoth(line: string)
    requires IsPfamLine(line)
    ensures !IsKeggLine(line)
  {
    assert line[|line| - 13..][12] == line[|line| - 1] == '8';
    assert line[|line| - 11..][10] == line[|line| - 1];
  }

  /** The Pfam counter counts the Pfam result lines that follow a header. */
  lemma {:induction false} RunPfamCount(root: string, target: string, existing: set<string>, lines: seq<string>, n: nat)
    requires n <= |lines|
    ensures Run(root, target, existing, lines[..n]).pfamCount == |PfamLines(root, lines, n)|
    decreases n
  {
    if n > 0 {
      RunPfamCount(root, target, existing, lines, n - 1);
      RunHasCollection(root, target, existing, lines, n - 1);
      RunStep(root, target, existing, lines, n - 1);
      if IsPfamLine(lines[n - 1]) {
        NotBoth(lines[n - 1]);
      }
      MatchingStep(n - 1, IsPfamAt(root, lines));
    }
  }

  /** At most one download is written per counted result line. */
  lemma {:induction false} RunDownloadsBound(root: string, target: string, existing: set<string>, lines: seq<string>)
    ensures var st := Run(root, target, existing, lines);
      |st.downloads| <= st.keggCount + st.pfamCount
    decreases |lines|
  {
    if |lines| > 0 {
      RunDownloadsBound(root, target, existing, lines[..|lines| - 1]);
    }
  }

  /** The index of the last header line, if any. */
  function LastHeader(root: string, lines: seq<string>): (r: Option<nat>)
    ensures r.Some? ==> r.value < |lines|
    decreases |lines|
  {
    if |lines| == 0 then None
    else if IsHeader(root, lines[|lines| - 1]) then Some(|lines| - 1)
    else LastHeader(root, lines[..|lines| - 1])
  }

  /** `LastHeader` finds a header with none after it, or reports that
      there is none. */
  lemma {:induction false} LastHeaderIs(root: string, lines: seq<string>)
    ensures var h := LastHeader(root, lines);
      && (h.Some? ==> IsHeader(root, lines[h.value]) && forall m :: h.value < m < |lines| ==> !IsHeader(root, lines[m]))
      && (h.None? ==> forall m :: 0 <= m < |lines| ==> !IsHeader(root, lines[m]))
    decreases |lines|
  {
    if |lines| > 0 && !IsHeader(root, lines[|lines| - 1]) {
      var pre := lines[..|lines| - 1];
      LastHeaderIs(root, pre);
      assert forall m :: 0 <= m < |pre| ==> lines[m] == pre[m];
    }
  }

  /** The collection the loop holds is the last header line read, without
      its colon, and there is none before the first header. */
  lemma {:induction false} RunCollection(root: string, target: string, existing: set<string>, lines: seq<string>)
    ensures Run(root, target, existing, lines).collection ==
      if LastHeader(root, lines).Some? then Some(DropLast(Strip(lines[LastHeader(root, lines).value]))) else None
    decreases |lines|
  {
    if |lines| > 0 {
      var pre := lines[..|lines| - 1];
      var last := lines[|lines| - 1];
      StepCollection(root, target, existing, Run(root, target, existing, pre), last);
      if !IsHeader(root, last) {
        RunCollection(root, target, existing, pre);
        var h := LastHeader(root, pre);
        if h.Some? {
          assert lines[h.value] == pre[h.value];
        }
      }
    }
  }

  /** The index of the last header line before line `i`, if any. */
  function HeaderBeforeAt(root: string, lines: seq<string>, i: nat): (r: Option<nat>)
    requires i <= |lines|
    ensures r.Some? ==> r.value < i
    decreases i
  {
    if i == 0 then None
    else if IsHeader(root, lines[i - 1]) then Some(i - 1)
    else HeaderBeforeAt(root, lines, i - 1)
  }

  /** The collection in force at line `i`: the last header before it,
      without its colon. */
  function CollectionAt(root: string, lines: seq<string>, i: nat): Option<string>
    requires i <= |lines|
  {
    var h := HeaderBeforeAt(root, lines, i);
    if h.Some? then Some(DropLast(Strip(lines[h.value]))) else None
  }

  /** Line `i` is a result line (not a `C-` line, not a header, ending in
      `.uproc.kegg` or `.uproc.pfam28`) read in a collection, and its local
      file does not exist yet. */
  predicate DownloadAt(root: string, target: string, existing: set<string>, lines: seq<string>, i: nat)
    requires i < |lines|
  {
    var c := CollectionAt(root, lines, i);
    && c.Some?
    && !StartsWith(lines[i], "C-") && !StartsWith(lines[i], root)
    && (IsKeggLine(lines[i]) || IsPfamLine(lines[i]))
    && LocalPath(root, target, c.value, lines[i]) !in existing
  }

  /** The download line `i` asks for: the file in its collection, to its
      place under the target. */
  function DownloadOf(root: string, target: string, lines: seq<string>, i: nat): Download
    requires i < |lines| && CollectionAt(root, lines, i).Some?
  {
    var c := CollectionAt(root, lines, i).value;
    Download(PathJoin(c, lines[i]), LocalPath(root, target, c, lines[i]))
  }

  /** `HeaderBeforeAt` is the last header of the lines before `i`. */
  lemma {:induction false} HeaderBeforeAtIsLast(root: string, lines: seq<string>, i: nat)
    requires i <= |lines|
    ensures HeaderBeforeAt(root, lines, i) == LastHeader(root, lines[..i])
    decreases i
  {
    if i > 0 {
      HeaderBeforeAtIsLast(root, lines, i - 1);
      assert lines[..i][..i - 1] == lines[..i - 1];
    }
  }

  /** A line has a collection exactly when a header comes before it, so
      `DownloadAt` holds exactly for the counted KEGG and Pfam result lines
      whose local file does not exist. */
  lemma DownloadAtCounted(root: string, target: string, existing: set<string>, lines: seq<string>, i: nat)
    requires i < |lines|
    ensures CollectionAt(root, lines, i).Some? <==> HeaderBefore(root, lines, i)
    ensures DownloadAt(root, target, existing, lines, i) <==>
      (KeggAt(root, lines, i) || PfamAt(root, lines, i))
      && LocalPath(root, target, CollectionAt(root, lines, i).value, lines[i]) !in existing
  {
    HeaderBeforeAtIsLast(root, lines, i);
    RunHasCollection(root, target, existing, lines, i);
    RunCollection(root, target, existing, lines[..i]);
    if IsPfamLine(lines[i]) {
      NotBoth(lines[i]);
    }
  }

  /** The values `f(i)` for the indices `i` below `n` that `keep` holds
      for, in index order. */
  function Pick<T>(n: nat, keep: nat -> bool, f: nat -> T): seq<T>
    decreases n
  {
    if n == 0 then []
    else if keep(n - 1) then Pick(n - 1, keep, f) + [f(n - 1)]
    else Pick(n - 1, keep, f)
  }

  /** A value is picked exactly when some kept index below `n` gives it. */
  lemma {:induction false} PickMembers<T>(n: nat, keep: nat -> bool, f: nat -> T)
    ensures forall x :: x in Pick(n, keep, f) ==> exists i :: 0 <= i < n && keep(i) && x == f(i)
    ensures forall i :: 0 <= i < n && keep(i) ==> f(i) in Pick(n, keep, f)
    decreases n
  {
    if n > 0 {
      PickMembers(n - 1, keep, f);
      forall x | x in Pick(n, keep, f) ensures exists i :: 0 <= i < n && keep(i) && x == f(i) {
        if x in Pick(n - 1, keep, f) {
          var i :| 0 <= i < n - 1 && keep(i) && x == f(i);
          assert 0 <= i < n;
        } else {
          assert keep(n - 1) && x == f(n - 1);
        }
      }
      forall i | 0 <= i < n && keep(i) ensures f(i) in Pick(n, keep, f) {
        if i < n - 1 {
          assert f(i) in Pick(n - 1, keep, f);
        }
      }
    }
  }

  function WantedKeep(root: string, target: string, existing: set<string>, lines: seq<string>): nat -> bool {
    (i: nat) => i < |lines| && DownloadAt(root, target, existing, lines, i)
  }

  /** The download of line `i` (a line without a collection never has one,
      so the empty download is never picked). */
  function WantedOf(root: string, target: string, lines: seq<string>): nat -> Download {
    (i: nat) => if i < |lines| && CollectionAt(root, lines, i).Some? then DownloadOf(root, target, lines, i) else Download("", "")
  }

  /** The downloads the script promises for the first `n` lines: one per
      line that `DownloadAt` holds for, in line order. */
  function Wanted(root: string, target: string, existing: set<string>, lines: seq<string>, n: nat): seq<Download> {
    Pick(n, WantedKeep(root, target, existing, lines), WantedOf(root, target, lines))
  }

  /** The loop over the first `n` lines writes exactly `Wanted`. */
  lemma {:induction false} RunIsWanted(root: string, target: string, existing: set<string>, lines: seq<string>, n: nat)
    requires n <= |lines|
    ensures Run(root, target, existing, lines[..n]).downloads == Wanted(root, target, existing, lines, n)
    decreases n
  {
    if n > 0 {
      var i := n - 1;
      RunIsWanted(root, target, existing, lines, i);
      RunStep(root, target, existing, lines, i);
      var pre := lines[..i];
      RunCollection(root, target, existing, pre);
      HeaderBeforeAtIsLast(root, lines, i);
      var h := LastHeader(root, pre);
      if h.Some? {
        assert pre[h.value] == lines[h.value];
      }
      assert Run(root, target, existing, pre).collection == CollectionAt(root, lines, i);
      if IsPfamLine(lines[i]) {
        NotBoth(lines[i]);
      }
    }
  }

  /** Every download written is asked for by a result line read after a
      header, with that header's collection, and every such line whose local
      file does not exist gets its download, in the order of the lines
      (`DownloadAtCounted` ties these lines to the counted ones). */
  lemma RunDownloads(root: string, target: string, existing: set<string>, lines: seq<string>)
    ensures Run(root, target, existing, lines).downloads == Wanted(root, target, existing, lines, |lines|)
    ensures forall d :: d in Run(root, target, existing, lines).downloads ==>
      exists i :: 0 <= i < |lines| && DownloadAt(root, target, existing, lines, i) && d == DownloadOf(root, target, lines, i)
    ensures forall i :: 0 <= i < |lines| && DownloadAt(root, target, existing, lines, i) ==>
      DownloadOf(root, target, lines, i) in Run(root, target, existing, lines).downloads
  {
    RunIsWanted(root, target, existing, lines, |lines|);
    assert lines[..|lines|] == lines;
    var keep := WantedKeep(root, target, existing, lines);
    var f := WantedOf(root, target, lines);
    PickMembers(|lines|, keep, f);
    forall d | d in Run(root, target, existing, lines).downloads
      ensures exists i :: 0 <= i < |lines| && DownloadAt(root, target, existing, lines, i) && d == DownloadOf(root, target, lines, i)
    {
      assert d in Pick(|lines|, keep, f);
      var i :| 0 <= i < |lines| && keep(i) && d == f(i);
      assert DownloadAt(root, target, existing, lines, i) && d == DownloadOf(root, target, lines, i);
    }
    forall i | 0 <= i < |lines| && DownloadAt(root, target, existing, lines, i)
      ensures DownloadOf(root, target, lines, i) in Run(root, target, existing, lines).downloads
    {
      assert keep(i) && DownloadOf(root, target, lines, i) == f(i);
      assert f(i) in Pick(|lines|, keep, f);
    }
  }

  /** The local directory of a result file: for a collection
      `root/rel`, the file goes to `target/rel/name`, and the command makes
      the directory `target/rel`. */
  lemma LocalPathShape(root: string, target: string, rel: string, name: string)
    requires target != "" && !EndsWith(target, "/")
    requires rel != "" && !StartsWith(rel, "/") && !EndsWith(rel, "/")
    requires name != "" && '/' !in name
    ensures LocalPath(root, target, root + "/" + rel, name) == target + "/" + rel + "/" + name
    ensures Dirname(LocalPath(root, target, root + "/" + rel, name)) == target + "/" + rel
  {
    var c := root + "/" + rel;
    assert c[|root| + 1..] == rel;
    var d := target + "/" + rel;
    assert PathJoin(target, rel) == d;
    assert d[|d| - 1] == rel[|rel| - 1];
    assert !EndsWith(d, "/") by {
      assert d[|d| - 1..] == [d[|d| - 1]];
      assert rel[|rel| - 1..] == [rel[|rel| - 1]];
    }
    assert !StartsWith(name, "/") by { assert name[..1] == [name[0]]; }
    SplitJoin(d, name);
  }
}
