/** The two itertools recipes every loader copies: `take(n, it)` and
    `grouper(it, n, fillvalue)`, and the "drop the `None` padding" step that
    follows each use of `grouper`. */
module Groups {
  import opened Wrappers

  /** `take(n, it) == list(islice(it, n))`; `n == None` takes everything. */
  function Take<T>(n: Option<nat>, s: seq<T>): (r: seq<T>)
    ensures n.None? ==> r == s
    ensures n.Some? ==> |r| == (if n.value < |s| then n.value else |s|)
    ensures r == s[..|r|]
  {
    if n.Some? && n.value < |s| then s[..n.value] else s
  }

  /** Concatenation of a sequence of sequences. */
  function Flatten<T>(ss: seq<seq<T>>): seq<T>
    decreases |ss|
  {
    if |ss| == 0 then [] else ss[0] + Flatten(ss[1..])
  }

  /** An item is in the concatenation exactly when it is in one of the parts. */
  lemma {:induction false} FlattenMember<T>(ss: seq<seq<T>>, x: T)
    ensures x in Flatten(ss) <==> exists i :: 0 <= i < |ss| && x in ss[i]
    decreases |ss|
  {
    if |ss| > 0 {
      FlattenMember(ss[1..], x);
      if x in Flatten(ss[1..]) {
        var i :| 0 <= i < |ss[1..]| && x in ss[1..][i];
        assert x in ss[i + 1];
      }
      if exists i :: 0 <= i < |ss| && x in ss[i] {
        var i :| 0 <= i < |ss| && x in ss[i];
        if i > 0 { assert ss[1..][i - 1] == ss[i]; }
      }
    }
  }

  /** Concatenation distributes over appending one more part. */
  lemma {:induction false} FlattenSnoc<T>(ss: seq<seq<T>>, x: seq<T>)
    ensures Flatten(ss + [x]) == Flatten(ss) + x
    decreases |ss|
  {
    if |ss| == 0 {
      assert ss + [x] == [x];
    } else {
      assert (ss + [x])[1..] == ss[1..] + [x];
      FlattenSnoc(ss[1..], x);
    }
  }

  /** Concatenation distributes over appending sequences of parts. */
  lemma {:induction false} FlattenAppend<T>(a: seq<seq<T>>, b: seq<seq<T>>)
    ensures Flatten(a + b) == Flatten(a) + Flatten(b)
    decreases |a|
  {
    if |a| > 0 {
      assert (a + b)[1..] == a[1..] + b;
      FlattenAppend(a[1..], b);
    } else {
      assert a + b == b;
    }
  }

  /** In a concatenation without repeats, no item of a part occurs in the
      parts before it. */
  lemma FlattenDistinct<T>(ss: seq<seq<T>>, g: nat)
    requires g < |ss|
    requires forall i, j :: 0 <= i < j < |Flatten(ss)| ==> Flatten(ss)[i] != Flatten(ss)[j]
    ensures forall x :: x in ss[g] ==> x !in Flatten(ss[..g])
  {
    assert ss == ss[..g] + [ss[g]] + ss[g + 1..];
    FlattenAppend(ss[..g] + [ss[g]], ss[g + 1..]);
    FlattenSnoc(ss[..g], ss[g]);
    var pre := Flatten(ss[..g]);
    var all := Flatten(ss);
    assert all[..|pre| + |ss[g]|] == pre + ss[g];
    forall i, j | 0 <= i < |pre| && 0 <= j < |ss[g]| ensures pre[i] != ss[g][j] {
      assert all[i] == pre[i] && all[|pre| + j] == ss[g][j];
    }
  }

  /** `grouper(s, n, fill)`: consecutive chunks of exactly `n` items, the last
      one padded with `fill` (`zip_longest` of `n` copies of one iterator);
      `n == 0` yields nothing. */
  function Grouper<T>(s: seq<T>, n: nat, fill: T): seq<seq<T>>
    decreases |s|
  {
    if n == 0 || |s| == 0 then []
    else if |s| >= n then [s[..n]] + Grouper(s[n..], n, fill)
    else [s + seq(n - |s|, _ => fill)]
  }

  /** Every chunk of `grouper` has exactly `n` items, and the chunks together
      are the input followed by fewer than `n` fill values. */
  lemma {:induction false} GrouperShape<T>(s: seq<T>, n: nat, fill: T)
    requires n > 0
    ensures forall g :: g in Grouper(s, n, fill) ==> |g| == n
    ensures |s| <= |Flatten(Grouper(s, n, fill))| < |s| + n
    ensures Flatten(Grouper(s, n, fill))[..|s|] == s
    ensures forall i :: |s| <= i < |Flatten(Grouper(s, n, fill))| ==> Flatten(Grouper(s, n, fill))[i] == fill
    decreases |s|
  {
    var r := Grouper(s, n, fill);
    if |s| == 0 {
    } else if |s| >= n {
      GrouperShape(s[n..], n, fill);
      assert r == [s[..n]] + Grouper(s[n..], n, fill);
      var rest := Flatten(Grouper(s[n..], n, fill));
      assert Flatten(r) == s[..n] + rest;
      assert Flatten(r)[..|s|] == s[..n] + rest[..|s| - n];
      assert s == s[..n] + s[n..];
    } else {
      assert r == [s + seq(n - |s|, _ => fill)];
      assert Flatten(r) == s + seq(n - |s|, _ => fill);
    }
  }

  /** Each item wrapped in `Some`, so that `None` can pad. */
  function Somes<T>(s: seq<T>): (r: seq<Option<T>>)
    ensures |r| == |s| && forall i :: 0 <= i < |s| ==> r[i] == Some(s[i])
  {
    seq(|s|, i requires 0 <= i < |s| => Some(s[i]))
  }

  /** `[k for k in group if k is not None]` */
  function Present<T>(g: seq<Option<T>>): (r: seq<T>)
    ensures |r| <= |g|
    decreases |g|
  {
    if |g| == 0 then []
    else if g[0].Some? then [g[0].value] + Present(g[1..])
    else Present(g[1..])
  }

  lemma {:induction false} PresentSomes<T>(s: seq<T>, k: nat)
    ensures Present(Somes(s) + seq(k, _ => None)) == s
    decreases |s| + k
  {
    var g := Somes(s) + seq(k, _ => None);
    if |s| > 0 {
      assert g[1..] == Somes(s[1..]) + seq(k, _ => None);
      PresentSomes(s[1..], k);
      assert s == [s[0]] + s[1..];
    } else if k > 0 {
      assert g[1..] == Somes(s) + seq(k - 1, _ => None);
      PresentSomes(s, k - 1);
    }
  }

  /** The batches a loop over `grouper(s, n)` sees once the padding is
      dropped. */
  function Batches<T>(s: seq<T>, n: nat): seq<seq<T>> {
    var gs := Grouper(Somes(s), n, None);
    seq(|gs|, i requires 0 <= i < |gs| => Present(gs[i]))
  }

  /** The batches of a long input start with its first `n` items; those of
      a short non-empty one are the input alone. */
  lemma BatchesCons<T>(s: seq<T>, n: nat)
    requires n > 0 && |s| > 0
    ensures |s| >= n ==> Batches(s, n) == [s[..n]] + Batches(s[n..], n)
    ensures |s| < n ==> Batches(s, n) == [s]
  {
    var gs := Grouper(Somes(s), n, None);
    if |s| >= n {
      assert Somes(s)[..n] == Somes(s[..n]);
      assert Somes(s)[n..] == Somes(s[n..]);
      assert gs == [Somes(s[..n])] + Grouper(Somes(s[n..]), n, None);
      PresentSomes(s[..n], 0);
      assert Somes(s[..n]) + seq(0, _ => None) == Somes(s[..n]);
    } else {
      PresentSomes(s, n - |s|);
    }
  }

  /** Batches are non-empty, hold at most `n` items each, and concatenated
      give the input back in order. */
  lemma {:induction false} BatchesPartition<T>(s: seq<T>, n: nat)
    requires n > 0
    ensures forall b :: b in Batches(s, n) ==> 0 < |b| <= n
    ensures Flatten(Batches(s, n)) == s
    decreases |s|
  {
    if |s| > 0 {
      BatchesCons(s, n);
      if |s| >= n {
        BatchesPartition(s[n..], n);
        assert s == s[..n] + s[n..];
      } else {
        assert Flatten([s]) == s + Flatten<T>([]);
      }
    }
  }
}
