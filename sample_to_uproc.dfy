/** The two `sample_to_uproc` loaders. One reads a single UProC results file
    of a sample and commits its rows at the end
    (imicrobe/load/uproc_results/load_sample_to_uproc_table.py), and writes
    the command lines that run it over a directory tree; the other reads one
    tab-separated file of all samples and commits every 1000 lines
    (load_sample_to_uproc_table.py). Both join each line against the `uproc`
    table, here a map from accession to `uproc_id`, and add a row only for an
    accession the table holds. */
module SampleToUproc {
  import opened Wrappers
  import opened Strings
  import opened Groups
  import opened Paths
  import opened Walks
  import opened ResultLines

  /** A `sample_to_uproc` row. */
  datatype SampleToUprocRow = SampleToUprocRow(sampleId: nat, uprocId: nat, readCount: nat)

  /** The committed rows of the `sample_to_uproc` table. */
  class SampleToUprocTable {
    var rows: seq<SampleToUprocRow>

    constructor ()
      ensures rows == []
    {
      rows := [];
    }
  }

  /** The row one results line gives: none when its accession is not in
      `uproc` (the line is reported and skipped), otherwise one carrying the
      accession's `uproc_id` and `int(read_count)`. A line that does not
      unpack, or a count that is not a number, raises. */
  function LineRows(sampleId: nat, row: Row, uproc: map<string, nat>): Result<seq<SampleToUprocRow>> {
    match row
    case Err(e) => Err(e)
    case Ok(p) =>
      if p.0 !in uproc then Ok([])
      else
        match ParseNat(p.1)
        case Err(e) => Err(e)
        case Ok(n) => Ok([SampleToUprocRow(sampleId, uproc[p.0], n)])
  }

  /** The rows of one results file, line by line, or the first error. */
  function FileRows(sampleId: nat, rows: seq<Row>, uproc: map<string, nat>): Result<seq<SampleToUprocRow>>
    decreases |rows|
  {
    if |rows| == 0 then Ok([])
    else
      match FileRows(sampleId, rows[..|rows| - 1], uproc)
      case Err(e) => Err(e)
      case Ok(acc) =>
        match LineRows(sampleId, rows[|rows| - 1], uproc)
        case Err(e) => Err(e)
        case Ok(added) => Ok(acc + added)
  }

  /** A file that loads gives a row exactly for each line whose accession
      the `uproc` table holds, with that accession's id and the line's count,
      all for the file's sample. */
  lemma {:induction false} FileRowsExact(sampleId: nat, rows: seq<Row>, uproc: map<string, nat>)
    requires FileRows(sampleId, rows, uproc).Ok?
    ensures var out := FileRows(sampleId, rows, uproc).value;
      |out| <= |rows|
      && (forall x :: x in out ==>
            x.sampleId == sampleId
            && exists j :: 0 <= j < |rows| && rows[j].Ok? && rows[j].value.0 in uproc
                 && x.uprocId == uproc[rows[j].value.0] && ParseNat(rows[j].value.1) == Ok(x.readCount))
      && (forall j :: 0 <= j < |rows| && rows[j].Ok? && rows[j].value.0 in uproc ==>
            ParseNat(rows[j].value.1).Ok?
            && SampleToUprocRow(sampleId, uproc[rows[j].value.0], ParseNat(rows[j].value.1).value) in out)
    decreases |rows|
  {
    if |rows| > 0 {
      var pre := rows[..|rows| - 1];
      FileRowsExact(sampleId, pre, uproc);
      var out := FileRows(sampleId, rows, uproc).value;
      var acc := FileRows(sampleId, pre, uproc).value;
      assert forall x :: x in acc ==> x in out;
      forall j | 0 <= j < |rows| - 1 ensures rows[j] == pre[j] { }
    }
  }

  /** One more line extends the rows of a file that has not failed. */
  lemma FileRowsStep(sampleId: nat, rows: seq<Row>, j: nat, uproc: map<string, nat>)
    requires j < |rows| && FileRows(sampleId, rows[..j], uproc).Ok?
    ensures var l := LineRows(sampleId, rows[j], uproc);
      FileRows(sampleId, rows[..j + 1], uproc)
        == if l.Ok? then Ok(FileRows(sampleId, rows[..j], uproc).value + l.value) else Err(l.msg)
  {
    assert rows[..j + 1][..j] == rows[..j];
  }

  lemma {:induction false} FileRowsErrExtends(sampleId: nat, rows: seq<Row>, n: nat, uproc: map<string, nat>)
    requires n <= |rows| && FileRows(sampleId, rows[..n], uproc).Err?
    ensures FileRows(sampleId, rows, uproc).Err?
    decreases |rows| - n
  {
    if n < |rows| {
      assert rows[..n + 1][..n] == rows[..n];
      FileRowsErrExtends(sampleId, rows, n + 1, uproc);
    } else {
      assert rows[..n] == rows;
    }
  }

  /** What `load_sample_to_uproc_table_from_file` commits for a file: its
      rows, or an error when the directory name is not a number or a line
      raises. */
  function FromFile(path: string, lines: seq<string>, uproc: map<string, nat>): Result<seq<SampleToUprocRow>> {
    match SampleIdOf(path)
    case Err(e) => Err(e)
    case Ok(sampleId) => FileRows(sampleId, ParseResultLines(lines), uproc)
  }

  /** The lines of one file, with their rows committed together at the end;
      a line that raises leaves the table as it was. */
  method AddFileRows(table: SampleToUprocTable, sampleId: nat, lines: seq<string>, uproc: map<string, nat>)
    returns (r: Result<()>)
    modifies table
    ensures r.Ok? <==> FileRows(sampleId, ParseResultLines(lines), uproc).Ok?
    ensures table.rows == old(table.rows) + ValueOr(FileRows(sampleId, ParseResultLines(lines), uproc), [])
  {
    ghost var rows := ParseResultLines(lines);
    var pending: seq<SampleToUprocRow> := [];
    var j := 0;
    while j < |lines|
      invariant j <= |lines| && FileRows(sampleId, rows[..j], uproc) == Ok(pending)
      invariant table.rows == old(table.rows)
    {
      FileRowsStep(sampleId, rows, j, uproc);
      var p := ParseResultLine(lines[j]);
      if p.Err? {
        FileRowsErrExtends(sampleId, rows, j + 1, uproc);
        return Err(p.msg);
      }
      assert rows[j] == p;
      var accession := p.value.0;
      if accession in uproc {
        var n := ParseNat(p.value.1);
        if n.Err? {
          FileRowsErrExtends(sampleId, rows, j + 1, uproc);
          return Err(n.msg);
        }
        assert LineRows(sampleId, rows[j], uproc) == Ok([SampleToUprocRow(sampleId, uproc[accession], n.value)]);
        pending := pending + [SampleToUprocRow(sampleId, uproc[accession], n.value)];
      } else {
        assert LineRows(sampleId, rows[j], uproc) == Ok([]);
        assert pending + [] == pending;
      }
      j := j + 1;
    }
    assert rows[..j] == rows;
    // commit
    table.rows := table.rows + pending;
    r := Ok(());
  }

  /** `load_sample_to_uproc_table_from_file`. */
  method LoadFromFile(table: SampleToUprocTable, path: string, lines: seq<string>, uproc: map<string, nat>)
    returns (r: Result<()>)
    modifies table
    ensures r.Ok? <==> FromFile(path, lines, uproc).Ok?
    ensures table.rows == old(table.rows) + ValueOr(FromFile(path, lines, uproc), [])
  {
    var sampleId := SampleIdOf(path);
    if sampleId.Err? {
      return Err(sampleId.msg);
    }
    assert FromFile(path, lines, uproc) == FileRows(sampleId.value, ParseResultLines(lines), uproc);
    r := AddFileRows(table, sampleId.value, lines, uproc);
  }

  predicate IsUprocName(name: string) {
    EndsWith(name, ".uproc")
  }

  /** The `.uproc` files of a walk, in walk order. */
  function UprocFiles(walk: seq<WalkDir>): seq<Found> {
    WalkMatches(walk, IsUprocName)
  }

  /** The command line printed for one results file. */
  function Command(path: string): string {
    "python load_sample_to_uproc_table.py --uproc-results-fp " + path + " >& /dev/null"
  }

  /** `write_command_file_from_directory_tree`: one command line per `.uproc`
      file of the walk, in walk order, and the count it reports is the number
      of lines. */
  method WriteCommandFile(walk: seq<WalkDir>) returns (out: seq<string>, fileCount: nat)
    ensures fileCount == |out| == |UprocFiles(walk)|
    ensures forall i :: 0 <= i < |out| ==> out[i] == Command(UprocFiles(walk)[i].path)
  {
    var files := UprocFiles(walk);
    out, fileCount := [], 0;
    var i := 0;
    while i < |files|
      invariant i <= |files| && fileCount == |out| == i
      invariant forall k :: 0 <= k < i ==> out[k] == Command(files[k].path)
    {
      out := out + [Command(files[i].path)];
      fileCount := fileCount + 1;
      i := i + 1;
    }
  }

  /** Every command names a `.uproc` file under one of the walked
      directories. */
  lemma CommandsNameUprocFiles(walk: seq<WalkDir>, i: nat)
    requires i < |UprocFiles(walk)|
    ensures EndsWith(UprocFiles(walk)[i].name, ".uproc")
    ensures exists d ::
      0 <= d < |walk| && UprocFiles(walk)[i].path == PathJoin(walk[d].root, UprocFiles(walk)[i].name)
  {
    WalkMatchesKept(walk, IsUprocName, UprocFiles(walk)[i]);
  }

  /** The number of lines `load_sample_to_uproc_table` commits at a time. */
  const LineGroupLength: nat := 1000

  /** `project_id, sample_id, pfam_accession, read_count =
      line.strip().split('\t')`: exactly four fields, or the unpacking
      raises. */
  function TabLine(line: string): Result<seq<string>> {
    var f := Split(Strip(line), '\t');
    if |f| != 4 then Err("wrong number of values to unpack (expected 4)") else Ok(f)
  }

  /** A line written from four fields reads them back. */
  lemma TabLineOfFields(project: string, sample: string, accession: string, count: string)
    requires '\t' !in project && '\t' !in sample && '\t' !in accession && '\t' !in count
    requires var line := project + "\t" + sample + "\t" + accession + "\t" + count; Strip(line) == line
    ensures TabLine(project + "\t" + sample + "\t" + accession + "\t" + count)
      == Ok([project, sample, accession, count])
  {
    var parts := [project, sample, accession, count];
    assert Join(parts, "\t") == project + "\t" + Join(parts[1..], "\t");
    assert Join(parts[1..], "\t") == sample + "\t" + Join(parts[2..], "\t");
    assert Join(parts[2..], "\t") == accession + "\t" + Join(parts[3..], "\t");
    assert parts[3..] == [count];
    assert Join(parts, "\t") == project + "\t" + sample + "\t" + accession + "\t" + count;
    SplitOfJoin(parts, '\t');
  }

  /** The row one tab line gives: none when its accession is not in
      `uproc`, otherwise `(int(sample_id), uproc_id, int(read_count))`; a
      number that does not parse raises. */
  function TabRow(fields: seq<string>, uproc: map<string, nat>): Result<seq<SampleToUprocRow>>
    requires |fields| == 4
  {
    if fields[2] !in uproc then Ok([])
    else
      match ParseNat(fields[1])
      case Err(e) => Err(e)
      case Ok(sampleId) =>
        match ParseNat(fields[3])
        case Err(e) => Err(e)
        case Ok(n) => Ok([SampleToUprocRow(sampleId, uproc[fields[2]], n)])
  }

  /** The rows one tab line adds, or its error. */
  function TabLineRows(line: string, uproc: map<string, nat>): Result<seq<SampleToUprocRow>> {
    match TabLine(line)
    case Err(e) => Err(e)
    case Ok(f) => TabRow(f, uproc)
  }

  /** A tab line that loads adds one row when its accession is in `uproc`,
      with that accession's id and the line's sample and count, and none
      otherwise. */
  lemma TabLineRowsJoin(line: string, uproc: map<string, nat>)
    requires TabLineRows(line, uproc).Ok?
    ensures TabLine(line).Ok?
    ensures var f := TabLine(line).value; var out := TabLineRows(line, uproc).value;
      (f[2] in uproc <==> |out| == 1) && |out| <= 1
      && (f[2] in uproc ==>
            out[0].uprocId == uproc[f[2]]
            && ParseNat(f[1]) == Ok(out[0].sampleId) && ParseNat(f[3]) == Ok(out[0].readCount))
  {
  }

  /** The rows a group of lines adds, or the first error. */
  function GroupRows(lines: seq<string>, uproc: map<string, nat>): (r: Result<seq<SampleToUprocRow>>)
    ensures r.Ok? ==> |r.value| <= |lines|
    decreases |lines|
  {
    if |lines| == 0 then Ok([])
    else
      match GroupRows(lines[..|lines| - 1], uproc)
      case Err(e) => Err(e)
      case Ok(acc) =>
        match TabLineRows(lines[|lines| - 1], uproc)
        case Err(e) => Err(e)
        case Ok(added) => Ok(acc + added)
  }

  /** A group loads when all of its lines do, and its rows are exactly the
      rows of its lines. */
  lemma {:induction false} GroupRowsLines(lines: seq<string>, uproc: map<string, nat>)
    requires GroupRows(lines, uproc).Ok?
    ensures forall j :: 0 <= j < |lines| ==> TabLineRows(lines[j], uproc).Ok?
    ensures forall j, x :: 0 <= j < |lines| && x in TabLineRows(lines[j], uproc).value ==>
      x in GroupRows(lines, uproc).value
    ensures forall x :: x in GroupRows(lines, uproc).value ==>
      exists j :: 0 <= j < |lines| && x in TabLineRows(lines[j], uproc).value
    decreases |lines|
  {
    if |lines| > 0 {
      var pre := lines[..|lines| - 1];
      GroupRowsLines(pre, uproc);
      assert forall j :: 0 <= j < |pre| ==> pre[j] == lines[j];
    }
  }

  /** One more line of a group that loads so far. */
  lemma GroupRowsStep(lines: seq<string>, n: nat, uproc: map<string, nat>, acc: seq<SampleToUprocRow>)
    requires n < |lines| && GroupRows(lines[..n], uproc) == Ok(acc)
    ensures TabLineRows(lines[n], uproc).Err? ==> GroupRows(lines[..n + 1], uproc).Err?
    ensures TabLineRows(lines[n], uproc).Ok? ==>
      GroupRows(lines[..n + 1], uproc) == Ok(acc + TabLineRows(lines[n], uproc).value)
  {
    assert lines[..n + 1][..n] == lines[..n];
  }

  lemma {:induction false} GroupRowsErrExtends(lines: seq<string>, n: nat, uproc: map<string, nat>)
    requires n <= |lines| && GroupRows(lines[..n], uproc).Err?
    ensures GroupRows(lines, uproc).Err?
    decreases |lines| - n
  {
    if n < |lines| {
      assert lines[..n + 1][..n] == lines[..n];
      GroupRowsErrExtends(lines, n + 1, uproc);
    } else {
      assert lines[..n] == lines;
    }
  }

  /** The table after committing the groups one by one, up to the first
      group that raises. */
  function Committed(rows: seq<SampleToUprocRow>, groups: seq<seq<string>>, uproc: map<string, nat>): seq<SampleToUprocRow>
    decreases |groups|
  {
    if |groups| == 0 then rows
    else
      match GroupRows(groups[0], uproc)
      case Err(_) => rows
      case Ok(news) => Committed(rows + news, groups[1..], uproc)
  }

  /** The committed groups only add rows, never more than one per line. */
  lemma {:induction false} CommittedBound(rows: seq<SampleToUprocRow>, groups: seq<seq<string>>, uproc: map<string, nat>)
    ensures rows <= Committed(rows, groups, uproc)
    ensures |Committed(rows, groups, uproc)| <= |rows| + |Flatten(groups)|
    decreases |groups|
  {
    if |groups| > 0 {
      assert Flatten(groups) == groups[0] + Flatten(groups[1..]);
      if GroupRows(groups[0], uproc).Ok? {
        CommittedBound(rows + GroupRows(groups[0], uproc).value, groups[1..], uproc);
      }
    }
  }

  /** One group: every line is counted and joined; the rows are committed
      together at the end of the group, and a line that raises loses the
      group. The count is the number of lines, so the rows added never
      exceed it. */
  method LoadGroup(table: SampleToUprocTable, lines: seq<string>, uproc: map<string, nat>)
    returns (r: Result<nat>)
    modifies table
    ensures r.Ok? <==> GroupRows(lines, uproc).Ok?
    ensures table.rows == old(table.rows) + ValueOr(GroupRows(lines, uproc), [])
    ensures r.Ok? ==> r.value == |lines| && |table.rows| <= |old(table.rows)| + r.value
  {
    var pending: seq<SampleToUprocRow> := [];
    var lineCounter := 0;
    while lineCounter < |lines|
      invariant lineCounter <= |lines| && GroupRows(lines[..lineCounter], uproc) == Ok(pending)
      invariant table.rows == old(table.rows)
    {
      GroupRowsStep(lines, lineCounter, uproc, pending);
      var added := TabLineRows(lines[lineCounter], uproc);
      if added.Err? {
        GroupRowsErrExtends(lines, lineCounter + 1, uproc);
        return Err(added.msg);
      }
      pending := pending + added.value;
      lineCounter := lineCounter + 1;
    }
    assert lines[..lineCounter] == lines;
    // commit
    table.rows := table.rows + pending;
    r := Ok(lineCounter);
  }

  /** `load_sample_to_uproc_table`: the lines in groups of 1000, the last
      group shorter, each group committed before the next is read. */
  method LoadSampleToUprocTable(table: SampleToUprocTable, lines: seq<string>, uproc: map<string, nat>)
    returns (r: Result<()>)
    modifies table
    ensures var groups := Batches(lines, LineGroupLength);
      (r.Ok? <==> forall g :: 0 <= g < |groups| ==> GroupRows(groups[g], uproc).Ok?)
      && table.rows == Committed(old(table.rows), groups, uproc)
  {
    var groups := Batches(lines, LineGroupLength);
    var g := 0;
    while g < |groups|
      invariant g <= |groups|
      invariant forall h :: 0 <= h < g ==> GroupRows(groups[h], uproc).Ok?
      invariant Committed(table.rows, groups[g..], uproc) == Committed(old(table.rows), groups, uproc)
    {
      var step := LoadGroup(table, groups[g], uproc);
      if step.Err? {
        return Err(step.msg);
      }
      assert groups[g..][1..] == groups[g + 1..];
      g := g + 1;
    }
    r := Ok(());
  }
}
