/** The `uproc` reference table loader: the live Pfam families of
    `pfamA.txt.gz`, then the dead families of `dead_family.txt.gz`, each row
    keyed by its accession and inserted only when the accession is not in
    the table yet. The session is the `UprocTable` object; its `rows` are the
    committed rows, and a load that raises loses whatever it had not
    committed. */
module PfamTable {
  import opened Wrappers
  import opened Strings
  import opened Groups

  /** A row of the `uproc` table. */
  datatype UprocRow = UprocRow(accession: string, identifier: string, name: string, description: string)

  /** The committed contents of the `uproc` table. */
  class UprocTable {
    var rows: seq<UprocRow>

    /** A freshly created, empty table. */
    constructor ()
      ensures rows == []
    {
      rows := [];
    }
  }

  predicate HasAccession(rows: seq<UprocRow>, acc: string) {
    exists i :: 0 <= i < |rows| && rows[i].accession == acc
  }

  /** The declared uniqueness of `uproc.accession`. */
  predicate UniqueAccessions(rows: seq<UprocRow>) {
    forall i, j :: 0 <= i < j < |rows| ==> rows[i].accession != rows[j].accession
  }

  /** The number of lines `load_pfam_table` commits at a time. */
  const PfamGroupLength: nat := 2000

  /** A `pfamA.txt` line: of its tab-separated fields, the accession is the
      first, the identifier the second, the name the fourth and the
      description the ninth; further fields are ignored and fewer than nine
      raise. */
  function PfamRow(line: string): Result<UprocRow> {
    var f := Split(Strip(line), '\t');
    if |f| < 9 then Err("not enough values to unpack (expected at least 9)")
    else Ok(UprocRow(f[0], f[1], f[3], f[8]))
  }

  /** A `dead_family.txt` line: accession, identifier and cause of death;
      the row is named `dead` and described by the cause. Fewer than three
      fields raise. */
  function DeadRow(line: string): Result<UprocRow> {
    var f := Split(Strip(line), '\t');
    if |f| < 3 then Err("not enough values to unpack (expected at least 3)")
    else Ok(UprocRow(f[0], f[1], "dead", f[2]))
  }

  /** A `pfamA.txt` line written from its fields reads them back. */
  lemma PfamRowOfFields(fields: seq<string>)
    requires |fields| >= 9 && forall i :: 0 <= i < |fields| ==> '\t' !in fields[i]
    requires Strip(Join(fields, "\t")) == Join(fields, "\t")
    ensures PfamRow(Join(fields, "\t")) == Ok(UprocRow(fields[0], fields[1], fields[3], fields[8]))
  {
    SplitOfJoin(fields, '\t');
  }

  /** A `dead_family.txt` line written from its fields reads them back. */
  lemma DeadRowOfFields(fields: seq<string>)
    requires |fields| >= 3 && forall i :: 0 <= i < |fields| ==> '\t' !in fields[i]
    requires Strip(Join(fields, "\t")) == Join(fields, "\t")
    ensures DeadRow(Join(fields, "\t")) == Ok(UprocRow(fields[0], fields[1], "dead", fields[2]))
  {
    SplitOfJoin(fields, '\t');
  }

  /** A line with fewer than nine fields raises. */
  lemma PfamRowShortFails(fields: seq<string>)
    requires 1 <= |fields| < 9 && forall i :: 0 <= i < |fields| ==> '\t' !in fields[i]
    requires Strip(Join(fields, "\t")) == Join(fields, "\t")
    ensures PfamRow(Join(fields, "\t")).Err?
  {
    SplitOfJoin(fields, '\t');
  }

  /** The lines of a file, each read with `parse`. */
  function ParseLines(lines: seq<string>, parse: string -> Result<UprocRow>): (r: seq<Result<UprocRow>>)
    ensures |r| == |lines|
  {
    seq(|lines|, j requires 0 <= j < |lines| => parse(lines[j]))
  }

  /** The rows of a run of read lines, or the first error. */
  function GroupRows(parsed: seq<Result<UprocRow>>): Result<seq<UprocRow>>
    decreases |parsed|
  {
    if |parsed| == 0 then Ok([])
    else
      match GroupRows(parsed[..|parsed| - 1])
      case Err(e) => Err(e)
      case Ok(acc) =>
        match parsed[|parsed| - 1]
        case Err(e) => Err(e)
        case Ok(row) => Ok(acc + [row])
  }

  /** A run of lines reads exactly when each of its lines does, and then
      gives their rows in order. */
  lemma {:induction false} GroupRowsOk(parsed: seq<Result<UprocRow>>)
    ensures GroupRows(parsed).Ok? <==> forall j :: 0 <= j < |parsed| ==> parsed[j].Ok?
    ensures GroupRows(parsed).Ok? ==>
      |GroupRows(parsed).value| == |parsed|
      && forall j :: 0 <= j < |parsed| ==> GroupRows(parsed).value[j] == parsed[j].value
    decreases |parsed|
  {
    if |parsed| > 0 {
      var pre := parsed[..|parsed| - 1];
      GroupRowsOk(pre);
      assert forall j :: 0 <= j < |pre| ==> pre[j] == parsed[j];
    }
  }

  lemma {:induction false} GroupRowsErrExtends(parsed: seq<Result<UprocRow>>, n: nat)
    requires n <= |parsed| && GroupRows(parsed[..n]).Err?
    ensures GroupRows(parsed).Err?
    decreases |parsed| - n
  {
    if n < |parsed| {
      assert parsed[..n + 1][..n] == parsed[..n];
      GroupRowsErrExtends(parsed, n + 1);
    } else {
      assert parsed[..n] == parsed;
    }
  }

  /** `session.add(row)` unless a row with its accession is already there. */
  function InsertNew(rows: seq<UprocRow>, row: UprocRow): seq<UprocRow> {
    if HasAccession(rows, row.accession) then rows else rows + [row]
  }

  /** The rows inserted one at a time, each only if its accession is absent. */
  function InsertAll(rows: seq<UprocRow>, news: seq<UprocRow>): seq<UprocRow>
    decreases |news|
  {
    if |news| == 0 then rows
    else InsertNew(InsertAll(rows, news[..|news| - 1]), news[|news| - 1])
  }

  /** Inserting never removes or changes a row: the old rows are a prefix,
      and every row comes from the old rows or the new ones. */
  lemma {:induction false} InsertAllExtends(rows: seq<UprocRow>, news: seq<UprocRow>)
    ensures rows <= InsertAll(rows, news)
    ensures forall x :: x in InsertAll(rows, news) ==> x in rows || x in news
    decreases |news|
  {
    if |news| > 0 {
      var pre := news[..|news| - 1];
      InsertAllExtends(rows, pre);
      assert forall x :: x in pre ==> x in news;
    }
  }

  /** Insert-if-absent keeps the accessions unique. */
  lemma {:induction false} InsertAllUnique(rows: seq<UprocRow>, news: seq<UprocRow>)
    requires UniqueAccessions(rows)
    ensures UniqueAccessions(InsertAll(rows, news))
    decreases |news|
  {
    if |news| > 0 {
      InsertAllUnique(rows, news[..|news| - 1]);
    }
  }

  /** After an insert-if-absent, an accession has a row exactly when it had
      one before or it is the inserted row's. */
  lemma InsertNewHas(rows: seq<UprocRow>, row: UprocRow, acc: string)
    ensures HasAccession(InsertNew(rows, row), acc) <==> HasAccession(rows, acc) || row.accession == acc
  {
    var r := InsertNew(rows, row);
    if HasAccession(rows, acc) {
      var i :| 0 <= i < |rows| && rows[i].accession == acc;
      assert r[i] == rows[i];
    }
    if !HasAccession(rows, row.accession) {
      assert r[|rows|] == row;
    }
  }

  /** Every accession inserted has a row afterwards, and no other does. */
  lemma {:induction false} InsertAllCovers(rows: seq<UprocRow>, news: seq<UprocRow>, acc: string)
    ensures HasAccession(InsertAll(rows, news), acc) <==>
      HasAccession(rows, acc) || exists j :: 0 <= j < |news| && news[j].accession == acc
    decreases |news|
  {
    if |news| > 0 {
      var pre := news[..|news| - 1];
      InsertAllCovers(rows, pre, acc);
      InsertNewHas(InsertAll(rows, pre), news[|news| - 1], acc);
      if exists j :: 0 <= j < |pre| && pre[j].accession == acc {
        var j :| 0 <= j < |pre| && pre[j].accession == acc;
        assert news[j] == pre[j];
      }
      if exists j :: 0 <= j < |news| && news[j].accession == acc {
        var j :| 0 <= j < |news| && news[j].accession == acc;
        if j < |pre| { assert pre[j] == news[j]; }
      }
    }
  }

  /** The first occurrence wins: a new row whose accession is neither in the
      table nor on an earlier new row is the row inserted for it. */
  lemma {:induction false} InsertAllFirstWins(rows: seq<UprocRow>, news: seq<UprocRow>, j: nat)
    requires j < |news| && !HasAccession(rows, news[j].accession)
    requires forall k :: 0 <= k < j ==> news[k].accession != news[j].accession
    ensures news[j] in InsertAll(rows, news)
    decreases |news|
  {
    var pre := news[..|news| - 1];
    InsertAllExtends(InsertAll(rows, pre), [news[|news| - 1]]);
    if j < |pre| {
      InsertAllFirstWins(rows, pre, j);
    } else {
      InsertAllCovers(rows, pre, news[j].accession);
    }
  }

  /** Inserting two runs one after the other is inserting them together. */
  lemma {:induction false} InsertAllAppend(rows: seq<UprocRow>, a: seq<UprocRow>, b: seq<UprocRow>)
    ensures InsertAll(InsertAll(rows, a), b) == InsertAll(rows, a + b)
    decreases |b|
  {
    if |b| == 0 {
      assert a + b == a;
    } else {
      InsertAllAppend(rows, a, b[..|b| - 1]);
      assert (a + b)[..|a + b| - 1] == a + b[..|b| - 1];
    }
  }

  /** The read lines of `pfamA.txt`, in commit groups. */
  function PfamGroups(lines: seq<string>): seq<seq<Result<UprocRow>>> {
    var groups := Batches(lines, PfamGroupLength);
    seq(|groups|, g requires 0 <= g < |groups| => ParseLines(groups[g], PfamRow))
  }

  /** The table after committing the groups one by one, up to the first
      group that raises. */
  function Committed(rows: seq<UprocRow>, groups: seq<seq<Result<UprocRow>>>): seq<UprocRow>
    decreases |groups|
  {
    if |groups| == 0 then rows
    else
      match GroupRows(groups[0])
      case Err(_) => rows
      case Ok(news) => Committed(InsertAll(rows, news), groups[1..])
  }

  /** Committed groups keep the old rows as a prefix and the accessions
      unique. */
  lemma {:induction false} CommittedExtends(rows: seq<UprocRow>, groups: seq<seq<Result<UprocRow>>>)
    requires UniqueAccessions(rows)
    ensures rows <= Committed(rows, groups) && UniqueAccessions(Committed(rows, groups))
    decreases |groups|
  {
    if |groups| > 0 && GroupRows(groups[0]).Ok? {
      var news := GroupRows(groups[0]).value;
      InsertAllExtends(rows, news);
      InsertAllUnique(rows, news);
      CommittedExtends(InsertAll(rows, news), groups[1..]);
    }
  }

  /** When every group reads, the commit groups make no difference: the
      table is the rows of the whole file inserted one at a time. */
  lemma {:induction false} CommittedAll(rows: seq<UprocRow>, groups: seq<seq<Result<UprocRow>>>)
    requires forall g :: 0 <= g < |groups| ==> GroupRows(groups[g]).Ok?
    ensures Committed(rows, groups) == InsertAll(rows, Flatten(GroupValues(groups)))
    decreases |groups|
  {
    if |groups| > 0 {
      var news := GroupRows(groups[0]).value;
      var rest := groups[1..];
      assert forall g :: 0 <= g < |rest| ==> GroupRows(rest[g]).Ok? by {
        forall g | 0 <= g < |rest| ensures GroupRows(rest[g]).Ok? { assert rest[g] == groups[g + 1]; }
      }
      CommittedAll(InsertAll(rows, news), rest);
      assert GroupValues(groups) == [news] + GroupValues(rest);
      FlattenAppend([news], GroupValues(rest));
      assert Flatten([news]) == news by { FlattenSnoc([], news); }
      InsertAllAppend(rows, news, Flatten(GroupValues(rest)));
    }
  }

  /** The rows of groups that all read. */
  function GroupValues(groups: seq<seq<Result<UprocRow>>>): (r: seq<seq<UprocRow>>)
    requires forall g :: 0 <= g < |groups| ==> GroupRows(groups[g]).Ok?
    ensures |r| == |groups|
  {
    seq(|groups|, g requires 0 <= g < |groups| && GroupRows(groups[g]).Ok? => GroupRows(groups[g]).value)
  }

  /** The lines of one group (or of the dead-family file): each is read with
      `parse` and its row added unless its accession is already present,
      rows added earlier in the same session included; the group commits
      once at its end, and a line that raises loses the whole group. */
  method LoadGroup(table: UprocTable, lines: seq<string>, parse: string -> Result<UprocRow>)
    returns (r: Result<()>)
    modifies table
    ensures var p := GroupRows(ParseLines(lines, parse));
      (r.Ok? <==> p.Ok?) && table.rows == if p.Ok? then InsertAll(old(table.rows), p.value) else old(table.rows)
  {
    ghost var parsed := ParseLines(lines, parse);
    var session := table.rows;
    ghost var added: seq<UprocRow> := [];
    var j := 0;
    while j < |lines|
      invariant j <= |lines| && GroupRows(parsed[..j]) == Ok(added)
      invariant session == InsertAll(table.rows, added) && table.rows == old(table.rows)
    {
      assert parsed[..j + 1][..j] == parsed[..j];
      var row := parse(lines[j]);
      if row.Err? {
        GroupRowsErrExtends(parsed, j + 1);
        return Err(row.msg);
      }
      if !(exists i :: 0 <= i < |session| && session[i].accession == row.value.accession) {
        session := session + [row.value];
      }
      assert (added + [row.value])[..|added|] == added;
      added := added + [row.value];
      j := j + 1;
    }
    assert parsed[..j] == parsed;
    // commit
    table.rows := session;
    r := Ok(());
  }

  /** `load_pfam_table`: the lines of `pfamA.txt` in groups of 2000, the
      last group shorter, each group committed before the next is read. */
  method LoadPfamTable(table: UprocTable, lines: seq<string>) returns (r: Result<()>)
    modifies table
    ensures var groups := PfamGroups(lines);
      (r.Ok? <==> forall g :: 0 <= g < |groups| ==> GroupRows(groups[g]).Ok?)
      && table.rows == Committed(old(table.rows), groups)
  {
    var batches := Batches(lines, PfamGroupLength);
    ghost var groups := PfamGroups(lines);
    var g := 0;
    while g < |batches|
      invariant g <= |batches| == |groups|
      invariant forall h :: 0 <= h < g ==> GroupRows(groups[h]).Ok?
      invariant Committed(table.rows, groups[g..]) == Committed(old(table.rows), groups)
    {
      assert groups[g] == ParseLines(batches[g], PfamRow);
      var step := LoadGroup(table, batches[g], PfamRow);
      if step.Err? {
        return Err(step.msg);
      }
      assert groups[g..][1..] == groups[g + 1..];
      g := g + 1;
    }
    r := Ok(());
  }

  /** `load_dead_pfam`: every line of `dead_family.txt`, one commit at the
      end. */
  method LoadDeadPfam(table: UprocTable, lines: seq<string>) returns (r: Result<()>)
    modifies table
    ensures var p := GroupRows(ParseLines(lines, DeadRow));
      (r.Ok? <==> p.Ok?) && table.rows == if p.Ok? then InsertAll(old(table.rows), p.value) else old(table.rows)
  {
    r := LoadGroup(table, lines, DeadRow);
  }

  /** `main`: the table is recreated empty, loaded from `pfamA.txt`, then
      from `dead_family.txt`. The accessions stay unique, and the rows of
      the live families come first and stay as they were, so no dead-family
      row replaces a live one. */
  method LoadUprocTable(table: UprocTable, pfamLines: seq<string>, deadLines: seq<string>) returns (r: Result<()>)
    modifies table
    ensures UniqueAccessions(table.rows)
    ensures Committed([], PfamGroups(pfamLines)) <= table.rows
    ensures forall x :: x in table.rows ==> x in Committed([], PfamGroups(pfamLines)) || x.name == "dead"
    ensures r.Ok? ==> (GroupRows(ParseLines(deadLines, DeadRow)).Ok? && table.rows
      == InsertAll(Committed([], PfamGroups(pfamLines)), GroupRows(ParseLines(deadLines, DeadRow)).value))
  {
    table.rows := [];
    CommittedExtends([], PfamGroups(pfamLines));
    r := LoadPfamTable(table, pfamLines);
    if r.Err? {
      return;
    }
    ghost var live := table.rows;
    r := LoadDeadPfam(table, deadLines);
    ghost var p := GroupRows(ParseLines(deadLines, DeadRow));
    if p.Ok? {
      DeadRowsAreDead(deadLines);
      LiveThenDead(live, p.value);
    }
  }

  /** Dead-family rows inserted after the live ones keep the live rows in
      front and the accessions unique. */
  lemma LiveThenDead(live: seq<UprocRow>, dead: seq<UprocRow>)
    requires UniqueAccessions(live) && forall x :: x in dead ==> x.name == "dead"
    ensures UniqueAccessions(InsertAll(live, dead)) && live <= InsertAll(live, dead)
    ensures forall x :: x in InsertAll(live, dead) ==> x in live || x.name == "dead"
  {
    InsertAllExtends(live, dead);
    InsertAllUnique(live, dead);
  }

  /** Every row read from the dead-family file is named `dead`. */
  lemma DeadRowsAreDead(lines: seq<string>)
    requires GroupRows(ParseLines(lines, DeadRow)).Ok?
    ensures forall x :: x in GroupRows(ParseLines(lines, DeadRow)).value ==> x.name == "dead"
  {
    var parsed := ParseLines(lines, DeadRow);
    GroupRowsOk(parsed);
    forall x | x in GroupRows(parsed).value ensures x.name == "dead" {
      var j :| 0 <= j < |parsed| && GroupRows(parsed).value[j] == x;
      assert parsed[j] == DeadRow(lines[j]);
    }
  }
}
