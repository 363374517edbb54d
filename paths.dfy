/** POSIX `os.path` as the scripts use it: `join` of two parts, `split`,
    `dirname` and `isabs`. */
module Paths {
  import opened Strings

  /** `os.path.isabs(p)` */
  predicate IsAbs(p: string) {
    StartsWith(p, "/")
  }

  /** `os.path.join(a, b)`: an absolute `b` discards `a`; otherwise one `/`
      is put between them unless `a` is empty or already ends with `/`. */
  function PathJoin(a: string, b: string): string {
    if StartsWith(b, "/") then b
    else if a == "" || EndsWith(a, "/") then a + b
    else a + "/" + b
  }

  /** Index just past the last `/` of `p` (`p.rfind('/') + 1`). */
  function AfterLastSlash(p: string): (i: nat)
    ensures i <= |p|
    ensures i > 0 ==> p[i - 1] == '/'
    ensures forall j :: i <= j < |p| ==> p[j] != '/'
    decreases |p|
  {
    if |p| == 0 then 0
    else if p[|p| - 1] == '/' then |p|
    else AfterLastSlash(p[..|p| - 1])
  }

  /** `s.rstrip('/')` */
  function RStripSlash(s: string): (r: string)
    ensures |r| <= |s| && r == s[..|r|]
    decreases |s|
  {
    if |s| > 0 && s[|s| - 1] == '/' then RStripSlash(s[..|s| - 1]) else s
  }

  predicate AllSlashes(s: string) {
    forall j :: 0 <= j < |s| ==> s[j] == '/'
  }

  /** `os.path.split(p)`: the part before the last `/` (trailing slashes
      removed unless it is all slashes) and the part after it. */
  function PathSplit(p: string): (r: (string, string))
    ensures '/' !in r.1
    ensures |r.0| + |r.1| <= |p|
    ensures r.1 == p[|p| - |r.1|..]
  {
    var i := AfterLastSlash(p);
    var head := p[..i];
    var tail := p[i..];
    (if head != "" && !AllSlashes(head) then RStripSlash(head) else head, tail)
  }

  /** `os.path.dirname(p)` */
  function Dirname(p: string): string {
    PathSplit(p).0
  }

  /** The name of the directory holding `p`:
      `os.path.split(os.path.dirname(p))[1]`. */
  function ParentName(p: string): string {
    PathSplit(Dirname(p)).1
  }

  /** Splitting a join gives the parts back, for a directory that does not end
      in `/` and a plain file name. */
  lemma SplitJoin(d: string, f: string)
    requires d != "" && !EndsWith(d, "/") && f != "" && '/' !in f
    ensures PathSplit(PathJoin(d, f)) == (d, f)
  {
    assert !StartsWith(f, "/") by { assert f[..1] == [f[0]]; }
    assert d[|d| - 1] != '/' by { assert d[|d| - 1..] == [d[|d| - 1]]; }
    SplitAtSlash(d, f);
  }

  /** The last `/` of `d + "/" + f` is the one put between them. */
  lemma SplitAtSlash(d: string, f: string)
    requires d != "" && d[|d| - 1] != '/' && '/' !in f
    ensures PathSplit(d + "/" + f) == (d, f)
  {
    var h := d + "/";
    AfterLastSlashOfName(h, f);
    var p := h + f;
    assert p[..|h|] == h && p[|h|..] == f;
    assert !AllSlashes(h) by { assert h[|d| - 1] == d[|d| - 1]; }
    assert h[..|d|] == d;
    assert RStripSlash(h) == RStripSlash(d) == d;
    assert d + "/" + f == p;
  }

  lemma {:induction false} AfterLastSlashOfName(h: string, f: string)
    requires |h| > 0 && h[|h| - 1] == '/' && '/' !in f
    ensures AfterLastSlash(h + f) == |h|
    decreases |f|
  {
    if |f| == 0 {
      assert h + f == h;
    } else {
      var p := h + f;
      assert p[|p| - 1] == f[|f| - 1];
      assert p[..|p| - 1] == h + f[..|f| - 1];
      var g := f[..|f| - 1];
      assert '/' !in g by {
        forall j | 0 <= j < |g| ensures g[j] != '/' {
          assert g[j] == f[j];
        }
      }
      AfterLastSlashOfName(h, f[..|f| - 1]);
    }
  }

  /** The directory name a file path yields is the last component of the
      directory it was joined onto: for `base/s/name`, it is `s`. */
  lemma ParentNameOfJoin(base: string, s: string, name: string)
    requires base != "" && !EndsWith(base, "/")
    requires s != "" && '/' !in s && name != "" && '/' !in name
    ensures ParentName(PathJoin(PathJoin(base, s), name)) == s
  {
    SplitJoin(base, s);
    var d := PathJoin(base, s);
    assert !StartsWith(s, "/") by { assert s[..1] == [s[0]]; }
    assert d == base + "/" + s;
    assert d[|d| - 1] == s[|s| - 1];
    assert !EndsWith(d, "/") by { assert d[|d| - 1..] == [d[|d| - 1]]; }
    SplitJoin(d, name);
  }

  /** The parent directory of a path with a non-empty last component is
      strictly shorter than the path: the upward walk terminates. */
  lemma SplitShrinks(p: string)
    requires PathSplit(p).1 != ""
    ensures |PathSplit(p).0| < |p|
  {
  }
}
