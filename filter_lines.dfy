/** imicrobe/execute/makeblastdb/filter_lines.py: copy the lines of standard
    input to standard output, except that each distinct line of the filter
    file suppresses one occurrence, the first, of itself. The filter is a
    set that loses a line each time that line is suppressed. Lines keep
    their line breaks, so a line matches only a line with the same ending. */
module FilterLines {

  /** The distinct lines of a file. */
  function Distinct(lines: seq<string>): set<string> {
    set l | l in lines
  }

  /** The output for `input` when `filter` holds the lines still to
      suppress. */
  function Filtered(input: seq<string>, filter: set<string>): seq<string>
    decreases |input|
  {
    if |input| == 0 then []
    else if input[0] in filter then Filtered(input[1..], filter - {input[0]})
    else [input[0]] + Filtered(input[1..], filter)
  }

  /** `main`: the filter is the set of the filter file's lines; every input
      line found in it is removed from it and not written, every other line
      is written. */
  method FilterOut(filterFile: seq<string>, input: seq<string>) returns (out: seq<string>)
    ensures out == Filtered(input, Distinct(filterFile))
  {
    var filter := Distinct(filterFile);
    out := [];
    var i := 0;
    while i < |input|
      invariant i <= |input|
      invariant out + Filtered(input[i..], filter) == Filtered(input, Distinct(filterFile))
    {
      var line := input[i];
      assert input[i..][1..] == input[i + 1..];
      if line in filter {
        filter := filter - {line};
      } else {
        out := out + [line];
      }
      i := i + 1;
    }
  }

  /** `a` is `b` with some items left out, the rest in their order. */
  predicate Subsequence(a: seq<string>, b: seq<string>)
    decreases |b|
  {
    if |b| == 0 then |a| == 0
    else (|a| > 0 && a[0] == b[0] && Subsequence(a[1..], b[1..])) || Subsequence(a, b[1..])
  }

  /** The output keeps input lines in input order. */
  lemma {:induction false} FilteredSubsequence(input: seq<string>, filter: set<string>)
    ensures Subsequence(Filtered(input, filter), input)
    decreases |input|
  {
    if |input| > 0 {
      var rest := input[1..];
      if input[0] in filter {
        FilteredSubsequence(rest, filter - {input[0]});
      } else {
        FilteredSubsequence(rest, filter);
        assert ([input[0]] + Filtered(rest, filter))[1..] == Filtered(rest, filter);
      }
    }
  }

  /** How often a line is written: as often as it is read, less one when
      it is in the filter and is read at all. Lines outside the filter all
      pass, and each filter line suppresses exactly one occurrence. */
  lemma {:induction false} FilteredCount(input: seq<string>, filter: set<string>, x: string)
    ensures multiset(Filtered(input, filter))[x] ==
      multiset(input)[x] - (if x in filter && x in input then 1 else 0)
    decreases |input|
  {
    if |input| > 0 {
      var rest := input[1..];
      assert input == [input[0]] + rest;
      if input[0] in filter {
        FilteredCount(rest, filter - {input[0]}, x);
      } else {
        FilteredCount(rest, filter, x);
      }
    }
  }

  /** Only the first occurrence of a filter line is suppressed: the output
      up to that occurrence is the filtered input before it, and everything
      after it goes on filtering without that line. */
  lemma {:induction false} FirstOccurrenceSuppressed(input: seq<string>, filter: set<string>, k: nat)
    requires k < |input| && input[k] in filter && input[k] !in input[..k]
    ensures Filtered(input, filter) ==
      Filtered(input[..k], filter) + Filtered(input[k + 1..], filter - Distinct(input[..k + 1]))
    decreases k
  {
    var rest := input[1..];
    if k == 0 {
      assert Distinct(input[..1]) == {input[0]};
      assert input[..0] == [];
      assert input[1..] == input[k + 1..];
    } else {
      assert input[0] != input[k];
      assert rest[..k - 1] == input[1..k];
      assert rest[k - 1] == input[k];
      assert rest[k..] == input[k + 1..];
      assert input[..k] == [input[0]] + rest[..k - 1];
      if input[0] in filter {
        var f := filter - {input[0]};
        FirstOccurrenceSuppressed(rest, f, k - 1);
        assert f - Distinct(rest[..k]) == filter - Distinct(input[..k + 1]);
        assert Filtered(input[..k], filter) == Filtered(rest[..k - 1], f);
      } else {
        FirstOccurrenceSuppressed(rest, filter, k - 1);
        assert filter - Distinct(rest[..k]) == filter - Distinct(input[..k + 1]);
        assert Filtered(input[..k], filter) == [input[0]] + Filtered(rest[..k - 1], filter);
      }
    }
  }

  /** The number of suppressed lines is the number of filter lines that
      occur in the input, so never more than the distinct filter lines. */
  lemma {:induction false} SuppressedBound(input: seq<string>, filter: set<string>)
    ensures |input| - |Filtered(input, filter)| == |filter * Distinct(input)|
    ensures |Filtered(input, filter)| >= |input| - |filter|
    decreases |input|
  {
    if |input| > 0 {
      var x := input[0];
      var rest := input[1..];
      assert Distinct(input) == {x} + Distinct(rest);
      if x in filter {
        SuppressedBound(rest, filter - {x});
        assert filter * Distinct(input) == {x} + (filter - {x}) * Distinct(rest);
      } else {
        SuppressedBound(rest, filter);
        assert filter * Distinct(input) == filter * Distinct(rest);
      }
    }
    assert filter * Distinct(input) <= filter;
  }
}
