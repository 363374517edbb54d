/** The value-level part of loading UProC results into the iMicrobe database
    (imicrobe/load/uproc/load.py): the store's rows, the accession classifier,
    the per-file count tables and their key-wise sum, the results-file name
    filter, the "what still needs fetching" filter, the association rows a
    sample yields, and one line of the Pfam-A annotation file. */
module UProCResults {
  import opened Wrappers
  import opened Strings
  import opened Kegg

  datatype ProteinType = PFAM | KEGG

  /** `get_protein_type`: the first letter of the accession decides. */
  function GetProteinType(accession: string): (r: Result<ProteinType>)
    ensures r == Ok(PFAM) <==> StartsWith(accession, "P")
    ensures r == Ok(KEGG) <==> StartsWith(accession, "K")
    ensures r.Err? <==> !StartsWith(accession, "P") && !StartsWith(accession, "K")
  {
    if StartsWith(accession, "P") then Ok(PFAM)
    else if StartsWith(accession, "K") then Ok(KEGG)
    else Err("failed to recognize accession \"" + accession + "\"")
  }

  /** A protein's description: the Pfam description text, or the KEGG fields
      `NAME`, `DEFINITION`, `PATHWAY` and `MODULE` that the loader formats
      one per line (the last two may be missing). */
  datatype Description =
    | Text(text: string)
    | KeggFields(name: seq<string>, definition: seq<string>, pathway: Option<seq<string>>, module_: Option<seq<string>>)

  /** The description built from one parsed KEGG entry. The entry is a
      `defaultdict(list)`, so `NAME` and `DEFINITION` looked up with `[]`
      give an empty list when the response had no such field; `PATHWAY`
      and `MODULE` are looked up with `get` and stay missing. */
  function KeggDescription(annotation: map<Option<string>, seq<string>>): (r: Description)
    ensures r.KeggFields?
    ensures Some("NAME") in annotation ==> r.name == annotation[Some("NAME")]
    ensures Some("NAME") !in annotation ==> r.name == []
    ensures Some("DEFINITION") in annotation ==> r.definition == annotation[Some("DEFINITION")]
    ensures Some("DEFINITION") !in annotation ==> r.definition == []
    ensures r.pathway.Some? <==> Some("PATHWAY") in annotation
    ensures r.pathway.Some? ==> r.pathway.value == annotation[Some("PATHWAY")]
    ensures r.module_.Some? <==> Some("MODULE") in annotation
    ensures r.module_.Some? ==> r.module_.value == annotation[Some("MODULE")]
  {
    KeggFields(
      if Some("NAME") in annotation then annotation[Some("NAME")] else [],
      if Some("DEFINITION") in annotation then annotation[Some("DEFINITION")] else [],
      if Some("PATHWAY") in annotation then Some(annotation[Some("PATHWAY")]) else None,
      if Some("MODULE") in annotation then Some(annotation[Some("MODULE")]) else None)
  }

  /** A row of table `protein`; the accession is the key of the map holding it. */
  datatype Protein = Protein(id: nat, description: Description, kind: ProteinType)

  /** A row of table `sample_to_protein`. */
  datatype SampleToProtein = SampleToProtein(sampleId: string, proteinId: nat, evidence: string, readCount: nat)

  /** Protein ids are below the next id to hand out and no two accessions
      share one (accessions are unique because they key the map). */
  ghost predicate ProteinsValid(proteins: map<string, Protein>, nextId: nat) {
    (forall a :: a in proteins ==> proteins[a].id < nextId)
    && (forall a, b :: a in proteins && b in proteins && a != b ==> proteins[a].id != proteins[b].id)
  }

  /** Every cached accession is stored, under the cached id. */
  ghost predicate CacheAgrees(cache: map<string, nat>, proteins: map<string, Protein>) {
    forall a :: a in cache ==> a in proteins && cache[a] == proteins[a].id
  }

  /** Adding a row with the next id keeps the ids distinct and bounded. */
  lemma AddProteinValid(proteins: map<string, Protein>, nextId: nat, a: string, d: Description, k: ProteinType)
    requires ProteinsValid(proteins, nextId) && a !in proteins
    ensures ProteinsValid(proteins[a := Protein(nextId, d, k)], nextId + 1)
  {
  }

  // ---------------------------------------------------------------------
  // Count tables

  /** A parsed UProC results file: accession to read count. */
  type CountTable = map<string, nat>

  /** The count of `k`, 0 when absent (`fill_value=0`). */
  function Get(t: CountTable, k: string): nat {
    if k in t then t[k] else 0
  }

  /** `a.add(b, fill_value=0.0)` */
  function AddTables(a: CountTable, b: CountTable): (r: CountTable) {
    map k | k in a.Keys + b.Keys :: Get(a, k) + Get(b, k)
  }

  /** The key-wise sum does not depend on the order of its operands... */
  lemma AddTablesCommutes(a: CountTable, b: CountTable)
    ensures AddTables(a, b) == AddTables(b, a)
  {
  }

  /** ...nor on how several are grouped. */
  lemma AddTablesAssociates(a: CountTable, b: CountTable, c: CountTable)
    ensures AddTables(AddTables(a, b), c) == AddTables(a, AddTables(b, c))
  {
    var l := AddTables(AddTables(a, b), c);
    var r := AddTables(a, AddTables(b, c));
    forall k | k in l ensures k in r && l[k] == r[k] {
      assert Get(AddTables(a, b), k) == Get(a, k) + Get(b, k);
      assert Get(AddTables(b, c), k) == Get(b, k) + Get(c, k);
    }
  }

  /** The per-file tables of one sample, combined as `load_annotations`
      does: start from the first and `add` each following one. */
  function Combine(ts: seq<CountTable>): CountTable
    decreases |ts|
  {
    if |ts| == 0 then map[]
    else if |ts| == 1 then ts[0]
    else AddTables(Combine(ts[..|ts| - 1]), ts[|ts| - 1])
  }

  /** The total read count of `k` over all the tables. */
  function SumAt(ts: seq<CountTable>, k: string): nat
    decreases |ts|
  {
    if |ts| == 0 then 0 else SumAt(ts[..|ts| - 1], k) + Get(ts[|ts| - 1], k)
  }

  /** Every accession seen in any of the tables. */
  function UnionKeys(ts: seq<CountTable>): set<string>
    decreases |ts|
  {
    if |ts| == 0 then {} else UnionKeys(ts[..|ts| - 1]) + ts[|ts| - 1].Keys
  }

  /** The combined table holds every accession of every file, with its read
      counts summed over the files (a file without it contributes 0). */
  lemma {:induction false} CombineSums(ts: seq<CountTable>)
    ensures Combine(ts).Keys == UnionKeys(ts)
    ensures forall k :: k in Combine(ts) ==> Combine(ts)[k] == SumAt(ts, k)
    ensures forall k :: k !in UnionKeys(ts) ==> SumAt(ts, k) == 0
    decreases |ts|
  {
    if |ts| == 1 {
      assert ts[..0] == [];
    } else if |ts| > 1 {
      CombineSums(ts[..|ts| - 1]);
      var pre := Combine(ts[..|ts| - 1]);
      forall k | k in Combine(ts) ensures Combine(ts)[k] == SumAt(ts, k) {
        assert Get(pre, k) == SumAt(ts[..|ts| - 1], k);
      }
    }
  }

  /** Length of the trailing run of decimal digits. */
  function TrailingDigits(s: string): (n: nat)
    ensures n <= |s|
    ensures forall i :: |s| - n <= i < |s| ==> IsDigit(s[i])
    ensures n == |s| || !IsDigit(s[|s| - n - 1])
    decreases |s|
  {
    if |s| == 0 || !IsDigit(s[|s| - 1]) then 0 else 1 + TrailingDigits(s[..|s| - 1])
  }

  /** The name test `\.uproc\.(kegg|pfam\d+)$`. */
  predicate IsUprocResultsName(name: string) {
    EndsWith(name, ".uproc.kegg")
    || (var d := TrailingDigits(name); d > 0 && EndsWith(name[..|name| - d], ".uproc.pfam"))
  }

  /** A name passes exactly when it is some stem followed by `.uproc.kegg`,
      or by `.uproc.pfam` and at least one digit. */
  lemma {:induction false} UprocResultsNameShape(stem: string, digits: string)
    requires forall i :: 0 <= i < |digits| ==> IsDigit(digits[i])
    ensures IsUprocResultsName(stem + ".uproc.kegg")
    ensures |digits| > 0 ==> IsUprocResultsName(stem + ".uproc.pfam" + digits)
    ensures !IsUprocResultsName(stem + ".uproc.pfam")
  {
    var k := stem + ".uproc.kegg";
    assert k[|k| - 11..] == ".uproc.kegg";
    var p := stem + ".uproc.pfam";
    assert TrailingDigits(p) == 0;
    assert !EndsWith(p, ".uproc.kegg") by { assert p[|p| - 1] == 'm'; }
    if |digits| > 0 {
      var q := p + digits;
      TrailingDigitsOfDigits(p, digits);
      assert q[..|q| - |digits|] == p;
      assert p[|p| - 11..] == ".uproc.pfam";
    }
  }

  lemma {:induction false} TrailingDigitsOfDigits(p: string, digits: string)
    requires |p| > 0 && !IsDigit(p[|p| - 1])
    requires forall i :: 0 <= i < |digits| ==> IsDigit(digits[i])
    ensures TrailingDigits(p + digits) == |digits|
    decreases |digits|
  {
    if |digits| == 0 {
      assert p + digits == p;
    } else {
      var q := p + digits;
      assert q[..|q| - 1] == p + digits[..|digits| - 1];
      TrailingDigitsOfDigits(p, digits[..|digits| - 1]);
    }
  }

  /** The lines of a UProC results file, `accession,count`, read into a
      table of counts: blank lines are skipped, and a line must have exactly
      two fields, an accession not seen before and an integer count.  This is
      stricter than `pd.read_csv(..., index_col=0, header=None)`, which keeps
      repeated accessions and fills missing fields. */
  function ParseUprocLines(lines: seq<string>): (r: Result<CountTable>)
    decreases |lines|
  {
    if |lines| == 0 then Ok(map[])
    else
      match ParseUprocLines(lines[..|lines| - 1])
      case Err(e) => Err(e)
      case Ok(t) =>
        var line := lines[|lines| - 1];
        var fields := Split(line, ',');
        if line == "" then Ok(t)
        else if |fields| != 2 then Err("expected 2 fields in \"" + line + "\"")
        else if fields[0] in t then Err("duplicate accession \"" + fields[0] + "\"")
        else
          match ParseNat(fields[1])
          case Err(e) => Err(e)
          case Ok(n) => Ok(t[fields[0] := n])
  }

  /** A parsed table holds one entry per non-blank line: the line's accession
      with the line's count, and nothing else. */
  lemma {:induction false} ParseUprocLinesContents(lines: seq<string>)
    requires ParseUprocLines(lines).Ok?
    ensures forall i :: 0 <= i < |lines| && lines[i] != "" ==>
      var f := Split(lines[i], ',');
      |f| == 2 && f[0] in ParseUprocLines(lines).value
      && ParseNat(f[1]) == Ok(ParseUprocLines(lines).value[f[0]])
    ensures forall k :: k in ParseUprocLines(lines).value ==>
      exists i :: 0 <= i < |lines| && lines[i] != "" && Split(lines[i], ',')[0] == k
    decreases |lines|
  {
    if |lines| > 0 {
      var pre := lines[..|lines| - 1];
      ParseUprocLinesContents(pre);
      var t := ParseUprocLines(pre).value;
      var r := ParseUprocLines(lines).value;
      var line := lines[|lines| - 1];
      forall i | 0 <= i < |lines| && lines[i] != ""
        ensures var f := Split(lines[i], ','); |f| == 2 && f[0] in r && ParseNat(f[1]) == Ok(r[f[0]])
      {
        if i < |pre| {
          assert lines[i] == pre[i];
        }
      }
      forall k | k in r ensures exists i :: 0 <= i < |lines| && lines[i] != "" && Split(lines[i], ',')[0] == k {
        if k in t {
          var i :| 0 <= i < |pre| && pre[i] != "" && Split(pre[i], ',')[0] == k;
          assert lines[i] == pre[i];
        } else {
          assert Split(lines[|lines| - 1], ',')[0] == k;
        }
      }
    }
  }

  /** `parse_uproc_results` on the text of a data object. */
  function ParseUprocResults(text: string): Result<CountTable> {
    ParseUprocLines(ReadLines(text))
  }

  // ---------------------------------------------------------------------
  // Fetch filter and association rows

  /** The accessions `insert_kegg_annotations_for_sample` sends to KEGG:
      those in neither the cache nor the bad set, in their original order. */
  function ToFetch(candidates: seq<string>, cache: map<string, nat>, bad: set<string>): (r: seq<string>)
    ensures forall a :: a in r <==> a in candidates && a !in cache && a !in bad
    ensures |r| <= |candidates|
    decreases |candidates|
  {
    if |candidates| == 0 then []
    else
      var rest := ToFetch(candidates[1..], cache, bad);
      assert forall a :: a in candidates <==> a == candidates[0] || a in candidates[1..];
      if candidates[0] in cache || candidates[0] in bad then rest else [candidates[0]] + rest
  }

  /** The `sample_to_protein` rows for one sample's results, in order: one
      per accession the cache knows, with evidence `UProC`. */
  function AssociationRows(sampleId: string, results: seq<(string, nat)>, cache: map<string, nat>): (rows: seq<SampleToProtein>)
    ensures |rows| <= |results|
    decreases |results|
  {
    if |results| == 0 then []
    else
      var pre := AssociationRows(sampleId, results[..|results| - 1], cache);
      var (acc, count) := results[|results| - 1];
      if acc in cache then pre + [SampleToProtein(sampleId, cache[acc], "UProC", count)] else pre
  }

  /** Every row belongs to the sample, carries evidence `UProC` and the cached
      id and count of one result, and every result the cache knows has its row. */
  lemma {:induction false} AssociationRowsExact(sampleId: string, results: seq<(string, nat)>, cache: map<string, nat>)
    ensures forall row :: row in AssociationRows(sampleId, results, cache) ==>
      exists i :: 0 <= i < |results| && results[i].0 in cache
        && row == SampleToProtein(sampleId, cache[results[i].0], "UProC", results[i].1)
    ensures forall i :: 0 <= i < |results| && results[i].0 in cache ==>
      SampleToProtein(sampleId, cache[results[i].0], "UProC", results[i].1) in AssociationRows(sampleId, results, cache)
    decreases |results|
  {
    if |results| > 0 {
      var pre := results[..|results| - 1];
      AssociationRowsExact(sampleId, pre, cache);
      var rows := AssociationRows(sampleId, results, cache);
      forall row | row in rows
        ensures exists i :: (0 <= i < |results| && results[i].0 in cache
                             && row == SampleToProtein(sampleId, cache[results[i].0], "UProC", results[i].1))
      {
        if row in AssociationRows(sampleId, pre, cache) {
          var i :| 0 <= i < |pre| && pre[i].0 in cache
            && row == SampleToProtein(sampleId, cache[pre[i].0], "UProC", pre[i].1);
          assert results[i] == pre[i];
        } else {
          assert results[|results| - 1].0 in cache;
        }
      }
      forall i | 0 <= i < |results| && results[i].0 in cache
        ensures SampleToProtein(sampleId, cache[results[i].0], "UProC", results[i].1) in rows
      {
        if i < |pre| {
          assert results[i] == pre[i];
        }
      }
    }
  }

  /** The results the cache does not know: they become bad accessions. */
  function UnknownAccessions(results: seq<(string, nat)>, cache: map<string, nat>): set<string> {
    set i | 0 <= i < |results| && results[i].0 !in cache :: results[i].0
  }

  /** `count_uproc_results_for_sample`: the rows of one sample. */
  function CountForSample(rows: seq<SampleToProtein>, sampleId: string): (n: nat)
    ensures n <= |rows|
    decreases |rows|
  {
    if |rows| == 0 then 0
    else CountForSample(rows[..|rows| - 1], sampleId) + (if rows[|rows| - 1].sampleId == sampleId then 1 else 0)
  }

  /** Counting distributes over appended rows. */
  lemma {:induction false} CountForSampleAppend(a: seq<SampleToProtein>, b: seq<SampleToProtein>, sampleId: string)
    ensures CountForSample(a + b, sampleId) == CountForSample(a, sampleId) + CountForSample(b, sampleId)
    decreases |b|
  {
    if |b| == 0 {
      assert a + b == a;
    } else {
      assert (a + b)[..|a + b| - 1] == a + b[..|b| - 1];
      CountForSampleAppend(a, b[..|b| - 1], sampleId);
    }
  }

  /** All of a sample's new rows count for that sample and for no other. */
  lemma {:induction false} AssociationRowsCount(sampleId: string, results: seq<(string, nat)>, cache: map<string, nat>, other: string)
    ensures CountForSample(AssociationRows(sampleId, results, cache), sampleId) == |AssociationRows(sampleId, results, cache)|
    ensures other != sampleId ==> CountForSample(AssociationRows(sampleId, results, cache), other) == 0
    decreases |results|
  {
    if |results| > 0 {
      var pre := results[..|results| - 1];
      AssociationRowsCount(sampleId, pre, cache, other);
      var p := AssociationRows(sampleId, pre, cache);
      var (acc, count) := results[|results| - 1];
      if acc in cache {
        var row := SampleToProtein(sampleId, cache[acc], "UProC", count);
        assert (p + [row])[..|p + [row]| - 1] == p;
      }
    }
  }

  // ---------------------------------------------------------------------
  // Pfam-A annotation file

  /** What a Pfam-A line load updates: the protein table, the next id, and
      the accession-to-id cache. */
  datatype PfamState = PfamState(proteins: map<string, Protein>, nextId: nat, cache: map<string, nat>)

  /** The two of the unpacked fields of a Pfam-A line that are used: field 0,
      the accession, and field 8, the description. */
  datatype PfamLine = PfamLine(accession: string, description: string)

  /** `line.strip().split('\t')` */
  function PfamFields(line: string): seq<string> {
    Split(Strip(line), '\t')
  }

  /** The unpacking of `line.strip().split('\t')` into nine or more names:
      fewer than nine fields raise. */
  function ParsePfamLine(line: string): Result<PfamLine> {
    var f := PfamFields(line);
    if |f| < 9 then Err("not enough values to unpack") else Ok(PfamLine(f[0], f[8]))
  }

  /** A tab-separated line of nine or more fields, none holding a tab and
      the whole without surrounding whitespace, unpacks to its first and
      ninth fields. */
  lemma ParsePfamLineOfFields(fields: seq<string>)
    requires |fields| >= 9 && forall i :: 0 <= i < |fields| ==> '\t' !in fields[i]
    requires Strip(Join(fields, "\t")) == Join(fields, "\t")
    ensures ParsePfamLine(Join(fields, "\t")) == Ok(PfamLine(fields[0], fields[8]))
  {
    SplitOfJoin(fields, '\t');
  }

  /** Every line of the file unpacked, in order. */
  function ParsePfamLines(lines: seq<string>): (r: seq<Result<PfamLine>>)
    ensures |r| == |lines|
    decreases |lines|
  {
    if |lines| == 0 then []
    else ParsePfamLines(lines[..|lines| - 1]) + [ParsePfamLine(lines[|lines| - 1])]
  }

  /** The unpacking is line by line: entry `i` is line `i` unpacked, and a
      prefix of the lines unpacks to the same prefix. */
  lemma {:induction false} ParsePfamLinesAt(lines: seq<string>, i: nat)
    requires i < |lines|
    ensures ParsePfamLines(lines)[i] == ParsePfamLine(lines[i])
    ensures ParsePfamLines(lines[..i]) == ParsePfamLines(lines)[..i]
    decreases |lines|
  {
    var pre := lines[..|lines| - 1];
    if i < |pre| {
      ParsePfamLinesAt(pre, i);
      assert pre[i] == lines[i];
      assert pre[..i] == lines[..i];
    } else {
      assert lines[..i] == pre;
    }
  }

  /** One line of `insert_pfam_annotations_from_file` once unpacked: a line
      that failed to unpack fails; an accession already stored keeps its id,
      a new one is inserted with the next id, typed by its prefix; either
      way the cache maps it to that id. */
  function PfamStep(st: PfamState, line: Result<PfamLine>): Result<PfamState> {
    match line
    case Err(e) => Err(e)
    case Ok(PfamLine(a, d)) =>
      if a in st.proteins then Ok(st.(cache := st.cache[a := st.proteins[a].id]))
      else
        match GetProteinType(a)
        case Err(e) => Err(e)
        case Ok(kind) => Ok(PfamState(st.proteins[a := Protein(st.nextId, Text(d), kind)], st.nextId + 1, st.cache[a := st.nextId]))
  }

  /** The unpacked lines applied in order; the first failing line fails the
      load. */
  function PfamApply(st: PfamState, lines: seq<Result<PfamLine>>): Result<PfamState>
    decreases |lines|
  {
    if |lines| == 0 then Ok(st)
    else
      match PfamApply(st, lines[..|lines| - 1])
      case Err(e) => Err(e)
      case Ok(s) => PfamStep(s, lines[|lines| - 1])
  }

  /** The load of the lines of a Pfam-A file. */
  function PfamLoad(st: PfamState, lines: seq<string>): Result<PfamState> {
    PfamApply(st, ParsePfamLines(lines))
  }

  /** The accessions of the lines that unpacked. */
  function PfamAccessions(lines: seq<Result<PfamLine>>): set<string>
    decreases |lines|
  {
    if |lines| == 0 then {}
    else
      var line := lines[|lines| - 1];
      PfamAccessions(lines[..|lines| - 1]) + (if line.Ok? then {line.value.accession} else {})
  }

  /** What one successful line does to the state. */
  lemma PfamStepFacts(s: PfamState, line: Result<PfamLine>)
    requires PfamStep(s, line).Ok?
    ensures line.Ok?
    ensures PfamStep(s, line).value.proteins.Keys == s.proteins.Keys + {line.value.accession}
    ensures forall b :: b in s.proteins ==> PfamStep(s, line).value.proteins[b] == s.proteins[b]
    ensures line.value.accession !in s.proteins ==>
      PfamStep(s, line).value.proteins[line.value.accession].description == Text(line.value.description)
    ensures PfamStep(s, line).value.cache == s.cache[line.value.accession := PfamStep(s, line).value.proteins[line.value.accession].id]
    ensures ProteinsValid(s.proteins, s.nextId) ==> ProteinsValid(PfamStep(s, line).value.proteins, PfamStep(s, line).value.nextId)
  {
  }

  /** A successful load keeps every stored protein as it was, adds exactly the
      accessions of the lines, and keeps the ids distinct. */
  lemma {:induction false} PfamLoadKeeps(st: PfamState, lines: seq<Result<PfamLine>>)
    requires ProteinsValid(st.proteins, st.nextId)
    requires PfamApply(st, lines).Ok?
    ensures ProteinsValid(PfamApply(st, lines).value.proteins, PfamApply(st, lines).value.nextId)
    ensures PfamApply(st, lines).value.proteins.Keys == st.proteins.Keys + PfamAccessions(lines)
    ensures forall a :: a in st.proteins ==> PfamApply(st, lines).value.proteins[a] == st.proteins[a]
    decreases |lines|
  {
    if |lines| > 0 {
      var pre := lines[..|lines| - 1];
      var line := lines[|lines| - 1];
      PfamLoadKeeps(st, pre);
      var s := PfamApply(st, pre).value;
      assert PfamApply(st, lines) == PfamStep(s, line);
      PfamStepFacts(s, line);
    }
  }

  /** After a successful load every loaded accession is cached with its
      stored id, and the other cached accessions keep theirs. */
  lemma {:induction false} PfamLoadCaches(st: PfamState, lines: seq<Result<PfamLine>>)
    requires PfamApply(st, lines).Ok?
    ensures forall a :: a in PfamAccessions(lines) ==>
      a in PfamApply(st, lines).value.cache && a in PfamApply(st, lines).value.proteins
      && PfamApply(st, lines).value.cache[a] == PfamApply(st, lines).value.proteins[a].id
    ensures forall a :: a in st.cache && a !in PfamAccessions(lines) ==>
      a in PfamApply(st, lines).value.cache && PfamApply(st, lines).value.cache[a] == st.cache[a]
    decreases |lines|
  {
    if |lines| > 0 {
      var pre := lines[..|lines| - 1];
      var line := lines[|lines| - 1];
      PfamLoadCaches(st, pre);
      var s := PfamApply(st, pre).value;
      var r := PfamApply(st, lines).value;
      assert PfamApply(st, lines) == PfamStep(s, line);
      PfamStepFacts(s, line);
      var a := line.value.accession;
      assert PfamAccessions(lines) == PfamAccessions(pre) + {a};
      forall b | b in PfamAccessions(lines)
        ensures b in r.cache && b in r.proteins && r.cache[b] == r.proteins[b].id
      {
        if b != a {
          assert r.proteins[b] == s.proteins[b];
        }
      }
    }
  }

  /** A load succeeds only if every line unpacks. */
  lemma {:induction false} PfamLoadLinesOk(st: PfamState, lines: seq<Result<PfamLine>>)
    requires PfamApply(st, lines).Ok?
    ensures forall i :: 0 <= i < |lines| ==> lines[i].Ok?
    decreases |lines|
  {
    if |lines| > 0 {
      var pre := lines[..|lines| - 1];
      var line := lines[|lines| - 1];
      PfamLoadLinesOk(st, pre);
      assert PfamApply(st, lines) == PfamStep(PfamApply(st, pre).value, line);
      forall i | 0 <= i < |lines| ensures lines[i].Ok? {
        if i < |pre| { assert lines[i] == pre[i]; }
      }
    }
  }

  /** A new accession is described by the first line that names it: later
      lines with the same accession find it stored and change nothing. */
  lemma {:induction false} PfamLoadFirstWins(st: PfamState, lines: seq<Result<PfamLine>>, i: nat)
    requires ProteinsValid(st.proteins, st.nextId)
    requires PfamApply(st, lines).Ok?
    requires i < |lines| && lines[i].Ok? && lines[i].value.accession !in st.proteins
    requires forall j :: 0 <= j < i ==> lines[j].Ok? && lines[j].value.accession != lines[i].value.accession
    ensures var r := PfamApply(st, lines).value;
      lines[i].value.accession in r.proteins
      && r.proteins[lines[i].value.accession].description == Text(lines[i].value.description)
    decreases |lines|
  {
    var pre := lines[..|lines| - 1];
    var a := lines[i].value.accession;
    var s := PfamApply(st, pre).value;
    var line := lines[|lines| - 1];
    assert PfamApply(st, lines) == PfamStep(s, line);
    PfamStepFacts(s, line);
    if i < |pre| {
      assert pre[i] == lines[i];
      forall j | 0 <= j < i ensures pre[j].Ok? && pre[j].value.accession != a {
        assert pre[j] == lines[j];
      }
      PfamLoadFirstWins(st, pre, i);
      PfamLoadKeeps(st, pre);
    } else {
      assert lines[i] == line;
      PfamLoadKeeps(st, pre);
      assert a !in PfamAccessions(pre) by {
        if a in PfamAccessions(pre) {
          var j := PfamAccessionsIndex(pre, a);
        }
      }
    }
  }

  /** An accession of `PfamAccessions(lines)` comes from some line. */
  lemma {:induction false} PfamAccessionsIndex(lines: seq<Result<PfamLine>>, a: string) returns (j: nat)
    requires a in PfamAccessions(lines)
    ensures j < |lines| && lines[j].Ok? && lines[j].value.accession == a
    decreases |lines|
  {
    var pre := lines[..|lines| - 1];
    if a in PfamAccessions(pre) {
      j := PfamAccessionsIndex(pre, a);
      assert lines[j] == pre[j];
    } else {
      j := |lines| - 1;
    }
  }

  /** A successful Pfam load keeps the protein ids distinct and the cache in
      agreement with the stored rows. */
  lemma PfamLoadValid(st: PfamState, lines: seq<Result<PfamLine>>)
    requires ProteinsValid(st.proteins, st.nextId) && CacheAgrees(st.cache, st.proteins)
    requires PfamApply(st, lines).Ok?
    ensures ProteinsValid(PfamApply(st, lines).value.proteins, PfamApply(st, lines).value.nextId)
    ensures CacheAgrees(PfamApply(st, lines).value.cache, PfamApply(st, lines).value.proteins)
  {
    PfamLoadKeeps(st, lines);
    PfamLoadCaches(st, lines);
    var r := PfamApply(st, lines).value;
    forall a | a in r.cache ensures a in r.proteins && r.cache[a] == r.proteins[a].id {
      if a !in PfamAccessions(lines) {
        PfamLoadCacheFrom(st, lines, a);
      }
    }
  }

  /** The load only adds cache entries for the accessions of its lines. */
  lemma {:induction false} PfamLoadCacheFrom(st: PfamState, lines: seq<Result<PfamLine>>, a: string)
    requires PfamApply(st, lines).Ok? && a in PfamApply(st, lines).value.cache
    requires a !in PfamAccessions(lines)
    ensures a in st.cache
    decreases |lines|
  {
    if |lines| > 0 {
      var pre := lines[..|lines| - 1];
      var line := lines[|lines| - 1];
      var s := PfamApply(st, pre).value;
      assert PfamApply(st, lines) == PfamStep(s, line);
      PfamStepFacts(s, line);
      PfamLoadCacheFrom(st, pre, a);
    }
  }

  /** The load of one more line is one more step. */
  lemma PfamLoadNext(st: PfamState, lines: seq<Result<PfamLine>>, j: nat, cur: PfamState)
    requires j < |lines| && PfamApply(st, lines[..j]) == Ok(cur)
    ensures PfamApply(st, lines[..j + 1]) == PfamStep(cur, lines[j])
  {
    assert lines[..j + 1][..j] == lines[..j];
    assert lines[..j + 1][j] == lines[j];
  }

  /** Once a prefix of the lines fails, the whole load fails. */
  lemma {:induction false} PfamLoadErrExtends(st: PfamState, lines: seq<Result<PfamLine>>, n: nat)
    requires n <= |lines| && PfamApply(st, lines[..n]).Err?
    ensures PfamApply(st, lines).Err?
    decreases |lines| - n
  {
    if n < |lines| {
      assert lines[..n + 1][..n] == lines[..n];
      PfamLoadErrExtends(st, lines, n + 1);
    } else {
      assert lines[..n] == lines;
    }
  }
}
