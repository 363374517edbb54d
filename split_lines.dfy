/** imicrobe/execute/makeblastdb/split_lines.py: deal the lines of standard
    input round-robin into `split_count` groups, then write group `k` to the
    file named by the prefix and the `k`-th two-letter name `aa`, `ab`, …,
    `zz`. There are 676 names, so at most 676 files are written and the
    lines of any later group are not written anywhere. */
module SplitLines {
  import opened Strings
  import opened Groups

  /** The number of lines group `g` of `n` receives out of `len`: one per
      full round, and one more in the last, partial round when `g` comes
      before where it stops. */
  function ColumnSize(len: nat, n: nat, g: nat): nat
    requires n > 0
  {
    len / n + (if g < len % n then 1 else 0)
  }

  /** `k * n`, spelled out as repeated addition so that the proofs about
      dealing stay linear. */
  function Mul(k: nat, n: nat): nat {
    if k == 0 then 0 else Mul(k - 1, n) + n
  }

  lemma {:induction false} MulIsProduct(k: nat, n: nat)
    ensures Mul(k, n) == k * n
  {
    if k > 0 {
      MulIsProduct(k - 1, n);
      assert k * n == (k - 1) * n + n;
    }
  }

  /** A later round starts at least a whole round further on. */
  lemma {:induction false} MulGrows(n: nat, j: nat, k: nat)
    requires j < k
    ensures Mul(j, n) + n <= Mul(k, n)
    decreases k - j
  {
    if j + 1 < k {
      MulGrows(n, j, k - 1);
    }
  }

  /** The `k`-th line of group `g` exists. */
  lemma ColumnIndex(len: nat, n: nat, g: nat, k: nat)
    requires n > 0 && g < n && k < ColumnSize(len, n, g)
    ensures Mul(k, n) + g < len
  {
    var q, r := len / n, len % n;
    MulIsProduct(q, n);
    assert len == Mul(q, n) + r;
    if k < q {
      MulGrows(n, k, q);
    }
  }

  /** Group `g` of `n`: the lines whose index leaves remainder `g`, in input
      order. */
  function Column(lines: seq<string>, n: nat, g: nat): (r: seq<string>)
    requires n > 0 && g < n
    ensures |r| == ColumnSize(|lines|, n, g)
  {
    seq(ColumnSize(|lines|, n, g), k requires 0 <= k < ColumnSize(|lines|, n, g) =>
      ColumnIndex(|lines|, n, g, k); lines[Mul(k, n) + g])
  }

  /** The groups `main` fills: `split_count` lists, line `i` appended to
      list `i % split_count`; with no lists, `zip` with an empty cycle reads
      nothing. */
  method SplitIntoGroups(lines: seq<string>, n: int) returns (groups: seq<seq<string>>)
    ensures |groups| == (if n > 0 then n else 0)
    ensures forall g :: 0 <= g < |groups| ==> groups[g] == Column(lines, n, g)
    ensures n > 0 ==> multiset(Flatten(groups)) == multiset(lines)
  {
    if n <= 0 {
      return [];
    }
    groups := seq(n, _ => []);
    assert multiset(Flatten(groups)) == multiset{} by { FlattenEmpties(groups); }
    var g := 0;
    ghost var q := 0;
    for i := 0 to |lines|
      invariant i == Mul(q, n) + g && Dealt(lines, n, groups, q, g)
      invariant multiset(Flatten(groups)) == multiset(lines[..i])
    {
      DealtStep(lines, n, groups, q, g);
      DealtLines(lines, groups, g, i);
      groups := groups[g := groups[g] + [lines[i]]];
      g := g + 1;
      if g == n {
        g := 0;
        q := q + 1;
      }
    }
    assert lines[..|lines|] == lines;
    DealtAll(lines, n, groups, q, g);
  }

  /** The groups after dealing `q` full rounds and `g` more lines: group `h`
      holds one line per round it has had, the `k`-th being line
      `k * n + h`. */
  ghost predicate Dealt(lines: seq<string>, n: nat, groups: seq<seq<string>>, q: nat, g: nat) {
    && n > 0 && g < n && |groups| == n && Mul(q, n) + g <= |lines|
    && (forall h :: 0 <= h < n ==> |groups[h]| == q + (if h < g then 1 else 0))
    && (forall h, k :: 0 <= h < n && 0 <= k < |groups[h]| ==>
          Mul(k, n) + h < |lines| && groups[h][k] == lines[Mul(k, n) + h])
  }

  /** Dealing the next line, to group `g`. */
  lemma DealtStep(lines: seq<string>, n: nat, groups: seq<seq<string>>, q: nat, g: nat)
    requires Dealt(lines, n, groups, q, g) && Mul(q, n) + g < |lines|
    ensures var next := groups[g := groups[g] + [lines[Mul(q, n) + g]]];
      if g + 1 == n then Dealt(lines, n, next, q + 1, 0) && Mul(q + 1, n) == Mul(q, n) + g + 1
      else Dealt(lines, n, next, q, g + 1)
  {
    var next := groups[g := groups[g] + [lines[Mul(q, n) + g]]];
    forall h, k | 0 <= h < n && 0 <= k < |next[h]|
      ensures Mul(k, n) + h < |lines| && next[h][k] == lines[Mul(k, n) + h]
    {
      if h != g || k < q {
        assert next[h][k] == groups[h][k];
      }
    }
  }

  /** Dealing line `i` adds it to the lines dealt so far. */
  lemma DealtLines(lines: seq<string>, groups: seq<seq<string>>, g: nat, i: nat)
    requires g < |groups| && i < |lines| && multiset(Flatten(groups)) == multiset(lines[..i])
    ensures multiset(Flatten(groups[g := groups[g] + [lines[i]]])) == multiset(lines[..i + 1])
  {
    FlattenUpdate(groups, g, lines[i]);
    assert lines[..i + 1] == lines[..i] + [lines[i]];
  }

  /** Once every line is dealt, group `h` is column `h`. */
  lemma DealtAll(lines: seq<string>, n: nat, groups: seq<seq<string>>, q: nat, g: nat)
    requires Dealt(lines, n, groups, q, g) && Mul(q, n) + g == |lines|
    ensures forall h :: 0 <= h < n ==> groups[h] == Column(lines, n, h)
  {
    MulIsProduct(q, n);
    DivMod(|lines|, n, q, g);
    forall h | 0 <= h < n
      ensures groups[h] == Column(lines, n, h)
    {
    }
  }

  /** Division recovered from a quotient and remainder. */
  lemma DivMod(len: nat, n: nat, q: nat, r: nat)
    requires n > 0 && r < n && len == q * n + r
    ensures len / n == q && len % n == r
  {
    var d, m := len / n, len % n;
    assert len == d * n + m;
    assert (d - q) * n == r - m;
    MulSmall(n, d - q);
  }

  /** A multiple of `n` strictly between `-n` and `n` is zero. */
  lemma MulSmall(n: int, x: int)
    requires n > 0 && -n < x * n < n
    ensures x == 0
  {
    if x >= 1 {
      MulMono(n, 1, x);
    }
  }

  /** Multiplying by `n` keeps the order. */
  lemma {:induction false} MulMono(n: nat, x: nat, y: nat)
    requires x <= y
    ensures x * n <= y * n
    decreases y - x
  {
    if x < y {
      MulMono(n, x, y - 1);
      assert y * n == (y - 1) * n + n;
    }
  }

  /** Groups of nothing concatenate to nothing. */
  lemma {:induction false} FlattenEmpties(groups: seq<seq<string>>)
    requires forall g :: 0 <= g < |groups| ==> groups[g] == []
    ensures Flatten(groups) == []
    decreases |groups|
  {
    if |groups| > 0 {
      FlattenEmpties(groups[1..]);
    }
  }

  /** Appending a line to one group adds it to the lines of all groups. */
  lemma {:induction false} FlattenUpdate(groups: seq<seq<string>>, g: nat, x: string)
    requires g < |groups|
    ensures multiset(Flatten(groups[g := groups[g] + [x]])) == multiset(Flatten(groups)) + multiset{x}
    decreases |groups|
  {
    var updated := groups[g := groups[g] + [x]];
    if g == 0 {
      assert updated[1..] == groups[1..];
    } else {
      assert updated[1..] == groups[1..][g - 1 := groups[g] + [x]];
      FlattenUpdate(groups[1..], g - 1, x);
    }
  }

  /** Line `i` lands in group `i % n`, as its `(i / n)`-th line. */
  lemma LineGoesToGroup(lines: seq<string>, n: nat, i: nat)
    requires n > 0 && i < |lines|
    ensures i / n < |Column(lines, n, i % n)|
    ensures Column(lines, n, i % n)[i / n] == lines[i]
  {
    DivAsMul(i, n);
    DivAsMul(|lines|, n);
    RoundOf(|lines|, n, i, i / n, i % n, |lines| / n, |lines| % n);
  }

  /** Euclidean division in terms of `Mul`. */
  lemma DivAsMul(x: nat, n: nat)
    requires n > 0
    ensures x == Mul(x / n, n) + x % n && x % n < n
  {
    MulIsProduct(x / n, n);
  }

  /** Line `i`, in round `q` at place `r`, comes before the end of the
      lines, in round `lq` at place `lr`, so its group has a `q`-th line. */
  lemma RoundOf(len: nat, n: nat, i: nat, q: nat, r: nat, lq: nat, lr: nat)
    requires i < len && r < n && lr < n
    requires i == Mul(q, n) + r && len == Mul(lq, n) + lr
    ensures q < lq + (if r < lr then 1 else 0)
  {
    if q > lq {
      MulGrows(n, lq, q);
    } else if q == lq {
    }
  }

  /** The group sizes differ by at most one. */
  lemma ColumnsBalanced(lines: seq<string>, n: nat, g: nat, h: nat)
    requires n > 0 && g < n && h < n
    ensures |Column(lines, n, g)| <= |Column(lines, n, h)| + 1
  {
  }

  /** Each group keeps the input order of its lines. */
  lemma ColumnInOrder(lines: seq<string>, n: nat, g: nat, k1: nat, k2: nat)
    requires n > 0 && g < n && k1 < k2 < |Column(lines, n, g)|
    ensures Mul(k1, n) + g < Mul(k2, n) + g < |lines|
  {
    ColumnIndex(|lines|, n, g, k2);
    MulGrows(n, k1, k2);
  }

  /** The `k`-th of the names `product('abc…z', repeat=2)` yields, joined. */
  function Name(k: nat): (r: string)
    requires k < 676
    ensures |r| == 2 && forall i :: 0 <= i < 2 ==> 'a' <= r[i] <= 'z'
  {
    [Letter(k / 26), Letter(k % 26)]
  }

  function Letter(i: nat): char
    requires i < 26
  {
    (97 + i) as char
  }

  /** No two groups share a file name. */
  lemma NamesDistinct(j: nat, k: nat)
    requires j < 676 && k < 676 && j != k
    ensures Name(j) != Name(k)
  {
    assert j == (j / 26) * 26 + j % 26;
    assert k == (k / 26) * 26 + k % 26;
  }

  /** The names come in Python string order, `aa` first and `zz` last. */
  lemma NamesInOrder(j: nat, k: nat)
    requires j < k < 676
    ensures LexLe(Name(j), Name(k)) && Name(j) != Name(k)
  {
    NamesDistinct(j, k);
    var a, b := j / 26, k / 26;
    assert j == a * 26 + j % 26;
    assert k == b * 26 + k % 26;
    assert Name(j)[1..] == [Letter(j % 26)];
    assert Name(k)[1..] == [Letter(k % 26)];
  }

  /** `main`: split the lines into `n` groups and write group `k` to
      `prefix + Name(k)` for as many groups as there are names; a file's
      content is its group's lines joined with nothing between them. */
  method SplitFiles(lines: seq<string>, n: int, prefix: string) returns (files: seq<(string, string)>)
    ensures |files| == if n <= 0 then 0 else if n < 676 then n else 676
    ensures forall k :: 0 <= k < |files| ==> files[k].0 == prefix + Name(k)
    ensures forall k :: 0 <= k < |files| ==> files[k].1 == Flatten(Column(lines, n, k))
  {
    var groups := SplitIntoGroups(lines, n);
    var count := if |groups| < 676 then |groups| else 676;
    files := [];
    for k := 0 to count
      invariant |files| == k
      invariant forall j :: 0 <= j < k ==> files[j] == (prefix + Name(j), Flatten(groups[j]))
    {
      files := files + [(prefix + Name(k), Flatten(groups[k]))];
    }
  }
}
