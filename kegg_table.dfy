/** The older two-pass KEGG loader
    (loaders/uproc_results/kegg/load_kegg_results_to_uproc_kegg_table.py).
    Pass one reads the KEGG ids of every `.uproc.kegg` file of a directory
    tree, downloads the annotations the `kegg_annotation` table lacks, ten
    ids per request, and sorts every needed id into `downloaded` or
    `failed`; pass two loads one `uproc_kegg_result` row per result line
    whose id was downloaded. The database is a class holding the two tables;
    `session_` (commit on normal exit, roll back and re-raise on an
    exception) is modelled by writing a group's or a file's rows only when
    it completes. */
module KeggTable {
  import opened Wrappers
  import opened Strings
  import opened Groups
  import opened Paths
  import opened Walks
  import opened ResultLines
  import Kegg

  /** A `kegg_annotation` row: the values stored under NAME, DEFINITION,
      PATHWAY and MODULE. */
  datatype KeggAnnotation = KeggAnnotation(name: seq<string>, definition: seq<string>,
                                           pathway: seq<string>, module_: seq<string>)

  /** A `uproc_kegg_result` row. */
  datatype UprocKeggResult = UprocKeggResult(sampleId: nat, keggId: string, readCount: nat)

  /** The two tables, keyed as the database keys them. */
  class KeggDb {
    var annotations: map<string, KeggAnnotation>
    var results: seq<UprocKeggResult>

    constructor (annotations: map<string, KeggAnnotation>, results: seq<UprocKeggResult>)
      ensures this.annotations == annotations && this.results == results
    {
      this.annotations := annotations;
      this.results := results;
    }
  }

  predicate IsKeggResultsName(name: string) {
    EndsWith(name, ".uproc.kegg")
  }

  /** The `.uproc.kegg` files of a walk, in walk order. */
  function KeggFiles(walk: seq<WalkDir>): seq<Found> {
    WalkMatches(walk, IsKeggResultsName)
  }

  /** What pass one collects from a run of unpacked lines: the set of their
      ids, or the first unpacking error. */
  function PassOne(rows: seq<Row>): Result<set<string>>
    decreases |rows|
  {
    if |rows| == 0 then Ok({})
    else
      match PassOne(rows[..|rows| - 1])
      case Err(e) => Err(e)
      case Ok(ids) =>
        match rows[|rows| - 1]
        case Err(e) => Err(e)
        case Ok(p) => Ok(ids + {p.0})
  }

  /** Pass one fails exactly when some line does not unpack. */
  lemma {:induction false} PassOneFails(rows: seq<Row>)
    ensures PassOne(rows).Err? <==> exists j :: 0 <= j < |rows| && rows[j].Err?
    decreases |rows|
  {
    if |rows| > 0 {
      var pre := rows[..|rows| - 1];
      PassOneFails(pre);
      if exists j :: 0 <= j < |pre| && pre[j].Err? {
        var j :| 0 <= j < |pre| && pre[j].Err?;
        assert rows[j] == pre[j];
      }
      if exists j :: 0 <= j < |rows| && rows[j].Err? {
        var j :| 0 <= j < |rows| && rows[j].Err?;
        if j < |pre| { assert pre[j] == rows[j]; }
      }
    }
  }

  /** When pass one succeeds, it holds exactly the ids of the lines. */
  lemma {:induction false} PassOneIds(rows: seq<Row>, k: string)
    requires PassOne(rows).Ok?
    ensures k in PassOne(rows).value <==> exists j :: 0 <= j < |rows| && rows[j].Ok? && rows[j].value.0 == k
    decreases |rows|
  {
    if |rows| > 0 {
      var pre := rows[..|rows| - 1];
      PassOneIds(pre, k);
      if exists j :: 0 <= j < |pre| && pre[j].Ok? && pre[j].value.0 == k {
        var j :| 0 <= j < |pre| && pre[j].Ok? && pre[j].value.0 == k;
        assert rows[j] == pre[j];
      }
      if exists j :: 0 <= j < |rows| && rows[j].Ok? && rows[j].value.0 == k {
        var j :| 0 <= j < |rows| && rows[j].Ok? && rows[j].value.0 == k;
        if j < |pre| { assert pre[j] == rows[j]; }
      }
    }
  }

  /** Pass one over two runs of lines: it succeeds when both do, with the
      union of their ids. */
  lemma {:induction false} PassOneAppend(a: seq<Row>, b: seq<Row>)
    ensures PassOne(a + b).Ok? <==> PassOne(a).Ok? && PassOne(b).Ok?
    ensures PassOne(a + b).Ok? ==> PassOne(a + b).value == PassOne(a).value + PassOne(b).value
    decreases |b|
  {
    if |b| == 0 {
      assert a + b == a;
    } else {
      assert (a + b)[..|a + b| - 1] == a + b[..|b| - 1];
      PassOneAppend(a, b[..|b| - 1]);
    }
  }

  /** The unpacked lines pass one reads: the first `line_limit` lines of
      each file, file after file. */
  function Scanned(files: seq<Found>, lineLimit: Option<nat>): seq<Row>
    decreases |files|
  {
    if |files| == 0 then []
    else Scanned(files[..|files| - 1], lineLimit) + ParseResultLines(Take(lineLimit, files[|files| - 1].lines))
  }

  /** The inner loop of pass one over the lines of one file: every id is
      added to the set; a line that does not unpack ends the load. */
  method ScanLines(lines: seq<string>, ids: set<string>) returns (r: Result<set<string>>)
    ensures var p := PassOne(ParseResultLines(lines));
      (r.Ok? <==> p.Ok?) && (r.Ok? ==> r.value == ids + p.value)
  {
    ghost var rows := ParseResultLines(lines);
    var acc := ids;
    var j := 0;
    while j < |lines|
      invariant j <= |lines|
      invariant PassOne(rows[..j]).Ok? && acc == ids + PassOne(rows[..j]).value
    {
      assert rows[..j + 1][..j] == rows[..j];
      var p := ParseResultLine(lines[j]);
      if p.Err? {
        PassOneAppend(rows[..j + 1], rows[j + 1..]);
        assert rows[..j + 1] + rows[j + 1..] == rows;
        return Err(p.msg);
      }
      acc := acc + {p.value.0};
      j := j + 1;
    }
    assert rows[..j] == rows;
    r := Ok(acc);
  }

  /** Pass one: the ids of the first `line_limit` lines of every
      `.uproc.kegg` file; a line that does not unpack ends the load. The
      nested loops over directories and their files are one loop over the
      files the walk keeps. */
  method CollectKeggIds(walk: seq<WalkDir>, lineLimit: Option<nat>) returns (r: Result<set<string>>)
    ensures var p := PassOne(Scanned(KeggFiles(walk), lineLimit));
      (r.Ok? <==> p.Ok?) && (r.Ok? ==> r.value == p.value)
  {
    var files := KeggFiles(walk);
    var ids: set<string> := {};
    var i := 0;
    while i < |files|
      invariant i <= |files|
      invariant PassOne(Scanned(files[..i], lineLimit)) == Ok(ids)
    {
      var lines := Take(lineLimit, files[i].lines);
      ScannedNext(files, i, lineLimit, ids);
      var step := ScanLines(lines, ids);
      if step.Err? {
        ScannedPrefixFails(files, i + 1, lineLimit);
        return Err(step.msg);
      }
      ids := step.value;
      i := i + 1;
    }
    assert files[..i] == files;
    r := Ok(ids);
  }

  /** Pass one over one more file adds the ids of its lines. */
  lemma ScannedNext(files: seq<Found>, i: nat, lineLimit: Option<nat>, ids: set<string>)
    requires i < |files| && PassOne(Scanned(files[..i], lineLimit)) == Ok(ids)
    ensures var p := PassOne(ParseResultLines(Take(lineLimit, files[i].lines)));
      && (PassOne(Scanned(files[..i + 1], lineLimit)).Ok? <==> p.Ok?)
      && (p.Ok? ==> PassOne(Scanned(files[..i + 1], lineLimit)).value == ids + p.value)
  {
    assert files[..i + 1][..i] == files[..i];
    PassOneAppend(Scanned(files[..i], lineLimit), ParseResultLines(Take(lineLimit, files[i].lines)));
  }

  /** A failure in the lines of the first `n` files fails pass one. */
  lemma {:induction false} ScannedPrefixFails(files: seq<Found>, n: nat, lineLimit: Option<nat>)
    requires n <= |files| && PassOne(Scanned(files[..n], lineLimit)).Err?
    ensures PassOne(Scanned(files, lineLimit)).Err?
    decreases |files| - n
  {
    if n < |files| {
      assert files[..n + 1][..n] == files[..n];
      PassOneAppend(Scanned(files[..n], lineLimit), ParseResultLines(Take(lineLimit, files[n].lines)));
      ScannedPrefixFails(files, n + 1, lineLimit);
    } else {
      assert files[..n] == files;
    }
  }

  /** `kegg_annotations_needed`: the ids of pass one that the table lacks. */
  method NeededIds(keggIds: set<string>, downloaded: set<string>) returns (needed: set<string>)
    ensures forall k :: k in needed <==> k in keggIds && k !in downloaded
  {
    needed := {};
    var todo := keggIds;
    while todo != {}
      invariant todo <= keggIds
      invariant forall k :: k in needed <==> k in keggIds && k !in todo && k !in downloaded
      decreases |todo|
    {
      var k :| k in todo;
      if k !in downloaded {
        needed := needed + {k};
      }
      todo := todo - {k};
    }
  }

  /** The loop variables of `parse_kegg_response`: the current id and
      field, the value of the last line that matched (`None` while the name
      `field_value` is still unbound), and the annotations so far. */
  datatype OldParseState = OldParseState(id: Option<string>, field: Option<string>,
                                         value: Option<string>, entries: Kegg.Entries)

  /** One turn of the loop in `parse_kegg_response`. Unlike the newer parser,
      a line that does not match (such as `///`) resets nothing: the value of
      the previous line is appended again under the current id and field, and
      before any line has matched that value is unbound and the append
      raises. A matching line sets the field, an `ENTRY` line the id, and its
      value is appended. */
  function OldStep(st: OldParseState, line: string): Result<OldParseState> {
    match Kegg.MatchField(RStrip(line))
    case None =>
      if st.value.None? then Err("local variable 'field_value' referenced before assignment")
      else Ok(st.(entries := Kegg.Append(st.entries, st.id, st.field, st.value.value)))
    case Some(fl) =>
      var id := if fl.name == Some("ENTRY") then Some(Kegg.FirstToken(fl.value)) else st.id;
      Ok(OldParseState(id, fl.name, Some(fl.value), Kegg.Append(st.entries, id, fl.name, fl.value)))
  }

  /** The parser state after the given lines, or the error that stopped it. */
  function OldParse(lines: seq<string>): Result<OldParseState>
    decreases |lines|
  {
    if |lines| == 0 then Ok(OldParseState(None, None, None, map[]))
    else
      match OldParse(lines[..|lines| - 1])
      case Err(e) => Err(e)
      case Ok(st) => OldStep(st, lines[|lines| - 1])
  }

  /** A separator line keeps the id and the field and appends the previous
      line's value once more. */
  lemma StaleValueReappended(st: OldParseState, line: string)
    requires Kegg.MatchField(RStrip(line)).None? && st.value.Some?
    ensures OldStep(st, line).Ok?
    ensures var n := OldStep(st, line).value;
      n.id == st.id && n.field == st.field && n.value == st.value
      && Kegg.Lookup(n.entries, st.id, st.field) == Kegg.Lookup(st.entries, st.id, st.field) + [st.value.value]
  {
  }

  /** A response whose first line does not match cannot be parsed. */
  lemma {:induction false} LeadingSeparatorFails(lines: seq<string>)
    requires |lines| > 0 && Kegg.MatchField(RStrip(lines[0])).None?
    ensures OldParse(lines).Err?
    decreases |lines|
  {
    if |lines| > 1 {
      assert lines[..|lines| - 1][0] == lines[0];
      LeadingSeparatorFails(lines[..|lines| - 1]);
    } else {
      assert lines[..0] == [];
    }
  }

  /** The ids present in what `parse_kegg_response` returns are exactly
      those of its `ENTRY` lines, as for the newer parser. */
  lemma {:induction false} OldParsedKeys(lines: seq<string>)
    requires OldParse(lines).Ok?
    ensures forall k :: Some(k) in OldParse(lines).value.entries <==> k in Kegg.EntryIds(lines)
    ensures OldParse(lines).value.id.Some? ==> OldParse(lines).value.id in OldParse(lines).value.entries
    decreases |lines|
  {
    if |lines| > 0 {
      var pre := lines[..|lines| - 1];
      OldParsedKeys(pre);
      OldStepKeys(OldParse(pre).value, lines[|lines| - 1]);
    }
  }

  /** One line adds at most the id its `ENTRY` line opens, and keeps the
      current id among the stored keys. */
  lemma OldStepKeys(st: OldParseState, line: string)
    requires st.id.Some? ==> st.id in st.entries
    requires OldStep(st, line).Ok?
    ensures forall k :: Some(k) in OldStep(st, line).value.entries <==> Some(k) in st.entries || Kegg.EntryId(line) == Some(k)
    ensures OldStep(st, line).value.id.Some? ==> OldStep(st, line).value.id in OldStep(st, line).value.entries
  {
    var n := OldStep(st, line).value;
    var m := Kegg.MatchField(RStrip(line));
    if m.None? {
      assert Kegg.EntryId(line).None?;
      assert n.entries.Keys == st.entries.Keys + {st.id};
    } else {
      var fl := m.value;
      var id := if fl.name == Some("ENTRY") then Some(Kegg.FirstToken(fl.value)) else st.id;
      assert n.id == id;
      assert n.entries.Keys == st.entries.Keys + {id};
      assert fl.name == Some("ENTRY") ==> Kegg.EntryId(line) == id;
      assert fl.name != Some("ENTRY") ==> Kegg.EntryId(line).None?;
    }
  }

  /** `parse_kegg_response` */
  method ParseKeggResponse(text: string) returns (r: Result<Kegg.Entries>)
    ensures r.Ok? <==> OldParse(Kegg.ReadLines(text)).Ok?
    ensures r.Ok? ==> r.value == OldParse(Kegg.ReadLines(text)).value.entries
  {
    var lines := Kegg.ReadLines(text);
    var st := OldParseState(None, None, None, map[]);
    var i := 0;
    while i < |lines|
      invariant i <= |lines| && OldParse(lines[..i]) == Ok(st)
    {
      assert lines[..i + 1][..i] == lines[..i];
      var next := OldStep(st, lines[i]);
      if next.Err? {
        OldParseErrExtends(lines, i + 1);
        return Err(next.msg);
      }
      st := next.value;
      i := i + 1;
    }
    assert lines[..i] == lines;
    r := Ok(st.entries);
  }

  lemma {:induction false} OldParseErrExtends(lines: seq<string>, n: nat)
    requires n <= |lines| && OldParse(lines[..n]).Err?
    ensures OldParse(lines).Err?
    decreases |lines| - n
  {
    if n < |lines| {
      assert lines[..n + 1][..n] == lines[..n];
      OldParseErrExtends(lines, n + 1);
    } else {
      assert lines[..n] == lines;
    }
  }

  /** The annotations a response yields for the loader: nothing unless the
      status is 200, then what `parse_kegg_response` returns. */
  function GroupEntries(resp: Kegg.Response): Result<Kegg.Entries> {
    if resp.status != 200 then Ok(map[])
    else
      match OldParse(Kegg.ReadLines(resp.text))
      case Err(e) => Err(e)
      case Ok(st) => Ok(st.entries)
  }

  /** The `kegg_annotation` row of an id: `ko_annotations[kegg_id]['NAME']`
      and `['DEFINITION']` (empty when absent, as `defaultdict(list)` makes
      them), `.get('PATHWAY', '')` and `.get('MODULE', '')`. */
  function AnnotationOf(entries: Kegg.Entries, k: string): KeggAnnotation {
    KeggAnnotation(Kegg.Lookup(entries, Some(k), Some("NAME")), Kegg.Lookup(entries, Some(k), Some("DEFINITION")),
                   Kegg.Lookup(entries, Some(k), Some("PATHWAY")), Kegg.Lookup(entries, Some(k), Some("MODULE")))
  }

  /** One group of pass one, in its own session: on status 200 each id the
      response parsed is downloaded and gets its row, every other id of the
      group failed; on any other status the whole group failed. A response
      that cannot be parsed raises, and nothing of the group is written. */
  method DownloadGroup(db: KeggDb, group: seq<string>, downloaded: set<string>, failed: set<string>,
                       service: string -> Kegg.Response)
    returns (r: Result<(set<string>, set<string>)>)
    modifies db
    ensures var g := GroupEntries(service(Kegg.RequestUrl(group)));
      (r.Err? <==> g.Err?) && (r.Err? ==> db.annotations == old(db.annotations))
      && (r.Ok? ==>
        (forall k :: k in r.value.0 <==> k in downloaded || (k in group && Some(k) in g.value))
        && (forall k :: k in r.value.1 <==> k in failed || (k in group && Some(k) !in g.value))
        && (forall k :: k in db.annotations <==> k in old(db.annotations) || (k in group && Some(k) in g.value))
        && (forall k :: k in group && Some(k) in g.value ==> db.annotations[k] == AnnotationOf(g.value, k))
        && (forall k :: k in old(db.annotations) && !(k in group && Some(k) in g.value) ==>
              db.annotations[k] == old(db.annotations)[k]))
    ensures db.results == old(db.results)
  {
    var resp := service(Kegg.RequestUrl(group));
    if resp.status != 200 {
      return Ok((downloaded, failed + set k | k in group));
    }
    var parsed := ParseKeggResponse(resp.text);
    if parsed.Err? {
      return Err(parsed.msg);
    }
    var entries := parsed.value;
    var ordered := Sort(group);
    assert forall k :: k in ordered <==> k in group by {
      forall k ensures k in ordered <==> k in group {
        assert k in ordered <==> k in multiset(ordered);
        assert k in group <==> k in multiset(group);
      }
    }
    var dl, fl, pending := SortGroup(ordered, entries, downloaded, failed);
    // commit
    db.annotations := db.annotations + pending;
    r := Ok((dl, fl));
  }

  /** The loop over `sorted(kegg_id_group)` after a 200 response: an id the
      response parsed is downloaded and its row is added to the session, any
      other id failed. */
  method SortGroup(ordered: seq<string>, entries: Kegg.Entries, downloaded: set<string>, failed: set<string>)
    returns (dl: set<string>, fl: set<string>, pending: map<string, KeggAnnotation>)
    ensures forall k :: k in dl <==> k in downloaded || (k in ordered && Some(k) in entries)
    ensures forall k :: k in fl <==> k in failed || (k in ordered && Some(k) !in entries)
    ensures forall k :: k in pending <==> k in ordered && Some(k) in entries
    ensures forall k :: k in pending ==> pending[k] == AnnotationOf(entries, k)
  {
    dl, fl := downloaded, failed;
    pending := map[];
    var i := 0;
    while i < |ordered|
      invariant i <= |ordered|
      invariant forall k :: k in dl <==> k in downloaded || (k in ordered[..i] && Some(k) in entries)
      invariant forall k :: k in fl <==> k in failed || (k in ordered[..i] && Some(k) !in entries)
      invariant forall k :: k in pending <==> k in ordered[..i] && Some(k) in entries
      invariant forall k :: k in pending ==> pending[k] == AnnotationOf(entries, k)
    {
      var k := ordered[i];
      assert ordered[..i + 1] == ordered[..i] + [k];
      if Some(k) in entries {
        dl := dl + {k};
        pending := pending[k := AnnotationOf(entries, k)];
      } else {
        fl := fl + {k};
      }
      i := i + 1;
    }
    assert ordered[..i] == ordered;
  }

  /** The download loop of pass one over all groups, starting from the ids
      the table already holds. Each needed id ends up in exactly one of
      `downloaded` and `failed`, only needed ids fail, and the downloaded ids
      are exactly those with a `kegg_annotation` row. */
  method DownloadAll(db: KeggDb, groups: seq<seq<string>>, downloaded: set<string>,
                     service: string -> Kegg.Response)
    returns (r: Result<(set<string>, set<string>)>)
    requires forall k :: k in downloaded <==> k in db.annotations
    requires forall i, j :: 0 <= i < j < |Flatten(groups)| ==> Flatten(groups)[i] != Flatten(groups)[j]
    requires forall k :: k in Flatten(groups) ==> k !in downloaded
    modifies db
    ensures r.Ok? ==>
      (forall k :: k in r.value.0 <==> k in db.annotations)
      && (forall k :: k in Flatten(groups) ==> (k in r.value.0 <==> k !in r.value.1))
      && (forall k :: k in r.value.1 ==> k in Flatten(groups))
      && (forall k :: k in downloaded ==> k in r.value.0)
      && (forall k :: k in r.value.0 ==> k in downloaded || k in Flatten(groups))
    ensures db.results == old(db.results)
  {
    var dl, fl := downloaded, {};
    var g := 0;
    while g < |groups|
      invariant g <= |groups| && db.results == old(db.results)
      invariant forall k :: k in dl <==> k in db.annotations
      invariant forall k :: k in Flatten(groups[..g]) ==> (k in dl <==> k !in fl)
      invariant forall k :: k in fl ==> k in Flatten(groups[..g])
      invariant forall k :: k in downloaded ==> k in dl
      invariant forall k :: k in dl ==> k in downloaded || k in Flatten(groups[..g])
    {
      FreshGroup(groups, g, downloaded);
      assert groups[..g + 1] == groups[..g] + [groups[g]];
      FlattenSnoc(groups[..g], groups[g]);
      var step := DownloadGroup(db, groups[g], dl, fl, service);
      if step.Err? {
        return Err(step.msg);
      }
      dl, fl := step.value.0, step.value.1;
      g := g + 1;
    }
    assert groups[..g] == groups;
    r := Ok((dl, fl));
  }

  /** The ids of a group are new: not held before and not in an earlier group. */
  lemma FreshGroup(groups: seq<seq<string>>, g: nat, downloaded: set<string>)
    requires g < |groups|
    requires forall i, j :: 0 <= i < j < |Flatten(groups)| ==> Flatten(groups)[i] != Flatten(groups)[j]
    requires forall k :: k in Flatten(groups) ==> k !in downloaded
    ensures forall k :: k in groups[g] ==> k !in downloaded && k !in Flatten(groups[..g])
  {
    FlattenDistinct(groups, g);
    forall k | k in groups[g] ensures k !in downloaded {
      FlattenMember(groups, k);
    }
  }

  /** The rows pass two loads from the unpacked lines of one file: a failed
      id is skipped, a downloaded one gives a row with `int(read_count)`, any
      other id (the unreachable "what happened?" branch) is skipped. A line
      that does not unpack, or a count that is not a number, raises. */
  function FileRows(sampleId: nat, rows: seq<Row>, dl: set<string>, fl: set<string>): Result<seq<UprocKeggResult>>
    decreases |rows|
  {
    if |rows| == 0 then Ok([])
    else
      match FileRows(sampleId, rows[..|rows| - 1], dl, fl)
      case Err(e) => Err(e)
      case Ok(acc) =>
        match rows[|rows| - 1]
        case Err(e) => Err(e)
        case Ok(p) =>
          if p.0 in fl then Ok(acc)
          else if p.0 in dl then
            match ParseNat(p.1)
            case Err(e) => Err(e)
            case Ok(n) => Ok(acc + [UprocKeggResult(sampleId, p.0, n)])
          else Ok(acc)
  }

  /** The rows of a file that loads: each belongs to the sample and to a
      downloaded id that did not fail, and each line with such an id gives
      its row, with its count. */
  lemma {:induction false} FileRowsExact(sampleId: nat, rows: seq<Row>, dl: set<string>, fl: set<string>)
    requires FileRows(sampleId, rows, dl, fl).Ok?
    ensures var out := FileRows(sampleId, rows, dl, fl).value;
      |out| <= |rows|
      && (forall x :: x in out ==> x.sampleId == sampleId && x.keggId in dl && x.keggId !in fl)
      && (forall j :: 0 <= j < |rows| && rows[j].Ok? && rows[j].value.0 in dl && rows[j].value.0 !in fl ==>
            ParseNat(rows[j].value.1).Ok?
            && UprocKeggResult(sampleId, rows[j].value.0, ParseNat(rows[j].value.1).value) in out)
    decreases |rows|
  {
    if |rows| > 0 {
      var pre := rows[..|rows| - 1];
      FileRowsExact(sampleId, pre, dl, fl);
      var out := FileRows(sampleId, rows, dl, fl).value;
      var acc := FileRows(sampleId, pre, dl, fl).value;
      assert forall x :: x in acc ==> x in out;
      forall j | 0 <= j < |rows| - 1 ensures rows[j] == pre[j] { }
    }
  }

  lemma {:induction false} FileRowsErrExtends(sampleId: nat, rows: seq<Row>, n: nat, dl: set<string>, fl: set<string>)
    requires n <= |rows| && FileRows(sampleId, rows[..n], dl, fl).Err?
    ensures FileRows(sampleId, rows, dl, fl).Err?
    decreases |rows| - n
  {
    if n < |rows| {
      assert rows[..n + 1][..n] == rows[..n];
      FileRowsErrExtends(sampleId, rows, n + 1, dl, fl);
    } else {
      assert rows[..n] == rows;
    }
  }

  /** One file of pass two in its own session: its rows are committed
      together, or, when a line raises, none of them is. */
  /** One more row of a file whose rows so far load. */
  lemma FileRowsNext(sampleId: nat, rows: seq<Row>, j: nat, dl: set<string>, fl: set<string>, pending: seq<UprocKeggResult>)
    requires j < |rows| && FileRows(sampleId, rows[..j], dl, fl) == Ok(pending)
    ensures rows[j].Err? ==> FileRows(sampleId, rows[..j + 1], dl, fl).Err?
    ensures rows[j].Ok? && (rows[j].value.0 in fl || rows[j].value.0 !in dl) ==>
      FileRows(sampleId, rows[..j + 1], dl, fl) == Ok(pending)
    ensures rows[j].Ok? && rows[j].value.0 !in fl && rows[j].value.0 in dl && ParseNat(rows[j].value.1).Err? ==>
      FileRows(sampleId, rows[..j + 1], dl, fl).Err?
    ensures rows[j].Ok? && rows[j].value.0 !in fl && rows[j].value.0 in dl && ParseNat(rows[j].value.1).Ok? ==>
      FileRows(sampleId, rows[..j + 1], dl, fl) ==
        Ok(pending + [UprocKeggResult(sampleId, rows[j].value.0, ParseNat(rows[j].value.1).value)])
  {
    assert rows[..j + 1][..j] == rows[..j];
  }

  method LoadFile(db: KeggDb, sampleId: nat, lines: seq<string>, dl: set<string>, fl: set<string>)
    returns (ok: bool)
    modifies db
    ensures var f := FileRows(sampleId, ParseResultLines(lines), dl, fl);
      ok == f.Ok? && db.results == old(db.results) + (if ok then f.value else [])
    ensures db.annotations == old(db.annotations)
  {
    ghost var rows := ParseResultLines(lines);
    var pending: seq<UprocKeggResult> := [];
    var j := 0;
    while j < |lines|
      invariant j <= |lines| && FileRows(sampleId, rows[..j], dl, fl) == Ok(pending)
      invariant unchanged(db)
    {
      var p := ParseResultLine(lines[j]);
      FileRowsNext(sampleId, rows, j, dl, fl, pending);
      assert rows[j] == p;
      if p.Err? {
        FileRowsErrExtends(sampleId, rows, j + 1, dl, fl);
        return false;
      }
      var k := p.value.0;
      if k in fl {
      } else if k in dl {
        var n := ParseNat(p.value.1);
        if n.Err? {
          FileRowsErrExtends(sampleId, rows, j + 1, dl, fl);
          return false;
        }
        pending := pending + [UprocKeggResult(sampleId, k, n.value)];
      }
      j := j + 1;
    }
    assert rows[..j] == rows;
    // commit
    db.results := db.results + pending;
    ok := true;
  }

  /** What pass two loads from one file: a directory name that is not a
      number raises out of the whole load, a file whose lines raise
      contributes nothing. */
  function FileLoad(f: Found, lineLimit: Option<nat>, dl: set<string>, fl: set<string>): Result<seq<UprocKeggResult>> {
    match SampleIdOf(f.path)
    case Err(e) => Err(e)
    case Ok(sampleId) =>
      match FileRows(sampleId, ParseResultLines(Take(lineLimit, f.lines)), dl, fl)
      case Err(_) => Ok([])
      case Ok(rows) => Ok(rows)
  }

  /** What pass two loads from each file, in walk order. */
  function FileLoads(files: seq<Found>, lineLimit: Option<nat>, dl: set<string>, fl: set<string>)
    : (r: seq<Result<seq<UprocKeggResult>>>)
    ensures |r| == |files|
  {
    seq(|files|, i requires 0 <= i < |files| => FileLoad(files[i], lineLimit, dl, fl))
  }

  /** The rows of the loads one after another, or the first error. */
  function Concat(loads: seq<Result<seq<UprocKeggResult>>>): Result<seq<UprocKeggResult>>
    decreases |loads|
  {
    if |loads| == 0 then Ok([])
    else
      match Concat(loads[..|loads| - 1])
      case Err(e) => Err(e)
      case Ok(acc) =>
        match loads[|loads| - 1]
        case Err(e) => Err(e)
        case Ok(rows) => Ok(acc + rows)
  }

  /** A concatenation fails exactly when one of its loads fails; otherwise
      every load's rows are among its rows. */
  lemma {:induction false} ConcatFails(loads: seq<Result<seq<UprocKeggResult>>>)
    ensures Concat(loads).Err? <==> exists j :: 0 <= j < |loads| && loads[j].Err?
    ensures Concat(loads).Ok? ==> forall j, x :: 0 <= j < |loads| && x in loads[j].value ==> x in Concat(loads).value
    decreases |loads|
  {
    if |loads| > 0 {
      var pre := loads[..|loads| - 1];
      ConcatFails(pre);
      assert forall j :: 0 <= j < |pre| ==> pre[j] == loads[j];
    }
  }

  /** What pass two loads from the files. */
  function ResultsLoad(files: seq<Found>, lineLimit: Option<nat>, dl: set<string>, fl: set<string>)
    : Result<seq<UprocKeggResult>>
  {
    Concat(FileLoads(files, lineLimit, dl, fl))
  }

  lemma {:induction false} ConcatErrExtends(loads: seq<Result<seq<UprocKeggResult>>>, n: nat)
    requires n <= |loads| && Concat(loads[..n]).Err?
    ensures Concat(loads).Err?
    decreases |loads| - n
  {
    if n < |loads| {
      assert loads[..n + 1][..n] == loads[..n];
      ConcatErrExtends(loads, n + 1);
    } else {
      assert loads[..n] == loads;
    }
  }

  /** Pass two for one file. */
  method LoadFound(db: KeggDb, f: Found, lineLimit: Option<nat>, dl: set<string>, fl: set<string>)
    returns (r: Result<()>)
    modifies db
    ensures r.Ok? <==> FileLoad(f, lineLimit, dl, fl).Ok?
    ensures db.results == old(db.results) + ValueOr(FileLoad(f, lineLimit, dl, fl), [])
    ensures db.annotations == old(db.annotations)
  {
    var sampleId := SampleIdOf(f.path);
    if sampleId.Err? {
      return Err(sampleId.msg);
    }
    var lines := Take(lineLimit, f.lines);
    ghost var rows := FileRows(sampleId.value, ParseResultLines(lines), dl, fl);
    assert FileLoad(f, lineLimit, dl, fl) == if rows.Ok? then rows else Ok([]);
    var ok := LoadFile(db, sampleId.value, lines, dl, fl);
    r := Ok(());
  }

  /** One more load extends a concatenation that has not failed. */
  lemma ConcatStep(loads: seq<Result<seq<UprocKeggResult>>>, i: nat)
    requires i < |loads| && Concat(loads[..i]).Ok?
    ensures Concat(loads[..i + 1])
      == if loads[i].Ok? then Ok(Concat(loads[..i]).value + loads[i].value) else Err(loads[i].msg)
  {
    assert loads[..i + 1][..i] == loads[..i];
  }

  lemma ConcatWhole(loads: seq<Result<seq<UprocKeggResult>>>)
    ensures Concat(loads[..|loads|]) == Concat(loads)
  {
    assert loads[..|loads|] == loads;
  }

  /** Appending to a table whose rows are the old rows plus `added`. */
  lemma AppendRows(t0: seq<UprocKeggResult>, added: seq<UprocKeggResult>, t1: seq<UprocKeggResult>, rows: seq<UprocKeggResult>)
    requires t1 == t0 + added
    ensures t1 + rows == t0 + (added + rows)
  {
  }

  /** Pass two over every `.uproc.kegg` file of the walk: all files load,
      in walk order, until a directory name that is not a number stops it. */
  method LoadResults(db: KeggDb, files: seq<Found>, lineLimit: Option<nat>, dl: set<string>, fl: set<string>)
    returns (r: Result<()>)
    modifies db
    ensures r.Ok? <==> ResultsLoad(files, lineLimit, dl, fl).Ok?
    ensures r.Ok? ==> db.results == old(db.results) + ResultsLoad(files, lineLimit, dl, fl).value
    ensures db.annotations == old(db.annotations)
  {
    ghost var loads := FileLoads(files, lineLimit, dl, fl);
    ghost var added: seq<UprocKeggResult> := [];
    var i := 0;
    while i < |files|
      invariant i <= |files| && Concat(loads[..i]) == Ok(added)
      invariant db.results == old(db.results) + added
      invariant db.annotations == old(db.annotations)
    {
      ConcatStep(loads, i);
      ghost var before := db.results;
      var step := LoadFound(db, files[i], lineLimit, dl, fl);
      if step.Err? {
        ConcatErrExtends(loads, i + 1);
        return Err(step.msg);
      }
      AppendRows(old(db.results), added, before, loads[i].value);
      added := added + loads[i].value;
      i := i + 1;
    }
    ConcatWhole(loads);
    r := Ok(());
  }

  /** `load_all_samples_to_uproc_kegg_table_from_directory_tree`. When it
      completes, every id of pass one is in exactly one of `downloaded` and
      `failed`, so pass two never reaches its "what happened?" branch; the
      downloaded ids are exactly those with a `kegg_annotation` row; and the
      `uproc_kegg_result` table gained the rows of pass two. A pass one that
      fails writes nothing. */
  method LoadAllSamples(db: KeggDb, walk: seq<WalkDir>, lineLimit: Option<nat>, service: string -> Kegg.Response)
    returns (r: Result<(set<string>, set<string>)>)
    modifies db
    ensures var ids := PassOne(Scanned(KeggFiles(walk), lineLimit));
      (ids.Err? ==> r.Err? && db.annotations == old(db.annotations) && db.results == old(db.results))
      && (r.Ok? ==> ids.Ok? && forall k :: k in ids.value ==> (k in r.value.0 <==> k !in r.value.1))
    ensures r.Ok? ==> forall k :: k in r.value.0 <==> k in db.annotations
    ensures r.Ok? ==> forall k :: k in old(db.annotations) ==> k in db.annotations
    ensures r.Ok? ==> (ResultsLoad(KeggFiles(walk), lineLimit, r.value.0, r.value.1).Ok?
      && db.results == old(db.results) + ResultsLoad(KeggFiles(walk), lineLimit, r.value.0, r.value.1).value)
  {
    var ids := CollectKeggIds(walk, lineLimit);
    if ids.Err? {
      return Err(ids.msg);
    }
    var downloaded := db.annotations.Keys;
    var needed := NeededIds(ids.value, downloaded);
    var ordered := SortedElements(needed);
    var groups := Batches(ordered, 10);
    BatchesPartition(ordered, 10);
    var fetched := DownloadAll(db, groups, downloaded, service);
    if fetched.Err? {
      return Err(fetched.msg);
    }
    var dl, fl := fetched.value.0, fetched.value.1;
    var loaded := LoadResults(db, KeggFiles(walk), lineLimit, dl, fl);
    if loaded.Err? {
      return Err(loaded.msg);
    }
    r := Ok((dl, fl));
  }

  /** The line `write_command_file_from_directory_tree` prints for a file. */
  function Command(path: string): string {
    "python kegg/load_kegg_results_to_uproc_kegg_table.py --uproc-results-fp " + path
  }

  /** `write_command_file_from_directory_tree`: one command per `.uproc.kegg`
      file of the walk, in walk order, and the number of files. */
  method WriteCommandFile(walk: seq<WalkDir>) returns (out: seq<string>, fileCount: nat)
    ensures fileCount == |out| == |KeggFiles(walk)|
    ensures forall i :: 0 <= i < |out| ==> out[i] == Command(KeggFiles(walk)[i].path)
  {
    var files := KeggFiles(walk);
    out := [];
    fileCount := 0;
    var i := 0;
    while i < |files|
      invariant i <= |files| && fileCount == |out| == i
      invariant forall k :: 0 <= k < i ==> out[k] == Command(files[k].path)
    {
      fileCount := fileCount + 1;
      out := out + [Command(files[i].path)];
      i := i + 1;
    }
  }
}
