/** The comma-separated UProC results files as the loaders read them: each
    line is an accession and a read count, and the sample a file belongs to
    is named by the directory holding it. */
module ResultLines {
  import opened Wrappers
  import opened Strings
  import opened Paths

  /** `accession, read_count = line.strip().split(',')`: exactly two fields, or
      the unpacking raises. */
  function ParseResultLine(line: string): Result<(string, string)> {
    var f := Split(Strip(line), ',');
    if |f| < 2 then Err("not enough values to unpack (expected 2)")
    else if |f| > 2 then Err("too many values to unpack (expected 2)")
    else Ok((f[0], f[1]))
  }

  /** A results line `id,count` gives its two fields back. */
  lemma ParseResultLineOfPair(id: string, count: string)
    requires ',' !in id && ',' !in count
    requires Strip(id + "," + count) == id + "," + count
    ensures ParseResultLine(id + "," + count) == Ok((id, count))
  {
    assert Join([id, count], ",") == id + "," + Join([count], ",");
    SplitOfJoin([id, count], ',');
  }

  /** A line of one field, or of more than two, does not unpack. */
  lemma ParseResultLineWrongCount(fields: seq<string>)
    requires |fields| >= 1 && |fields| != 2 && forall i :: 0 <= i < |fields| ==> ',' !in fields[i]
    requires Strip(Join(fields, ",")) == Join(fields, ",")
    ensures ParseResultLine(Join(fields, ",")).Err?
  {
    SplitOfJoin(fields, ',');
  }

  /** A results line once unpacked: its id and its count text, or the
      unpacking error. */
  type Row = Result<(string, string)>

  /** The lines of a file, each unpacked. */
  function ParseResultLines(lines: seq<string>): (rows: seq<Row>)
    ensures |rows| == |lines|
  {
    seq(|lines|, j requires 0 <= j < |lines| => ParseResultLine(lines[j]))
  }

  /** The sample id of a results file: the integer name of its directory,
      `int(os.path.split(os.path.dirname(path))[1])`. */
  function SampleIdOf(path: string): Result<nat> {
    ParseNat(ParentName(path))
  }

  /** For a file `base/<digits>/name`, the sample id is the number the
      directory is named by. */
  lemma SampleIdOfResultsPath(base: string, digits: string, name: string)
    requires base != "" && !EndsWith(base, "/")
    requires digits != "" && forall i :: 0 <= i < |digits| ==> IsDigit(digits[i])
    requires name != "" && '/' !in name
    ensures SampleIdOf(PathJoin(PathJoin(base, digits), name)) == Ok(DigitsValue(digits))
  {
    assert '/' !in digits by {
      forall i | 0 <= i < |digits| ensures digits[i] != '/' { assert IsDigit(digits[i]); }
    }
    ParentNameOfJoin(base, digits, name);
  }
}
