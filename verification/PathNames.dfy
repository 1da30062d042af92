/** Paths as strings and as lists of components. */
module PathNames {

  const NAME_MAX: nat := 255
  const PATH_MAX: nat := 512

  /** The length of the first component of `p`. */
  function SegLen(p: string): (n: nat)
    ensures n <= |p| && '/' !in p[..n] && (n < |p| ==> p[n] == '/')
  {
    if p == "" || p[0] == '/' then 0 else
    var n := 1 + SegLen(p[1..]);
    assert p[..n] == [p[0]] + p[1..][..n - 1];
    n
  }

  /** `vfs_skip_slashes` */
  function SkipSlashes(p: string): (q: string)
    ensures |q| <= |p| && (q != "" ==> q[0] != '/') && (p != "" && p[0] != '/' ==> q == p)
  {
    if p != "" && p[0] == '/' then SkipSlashes(p[1..]) else p
  }

  /** The components of a path: what stands between its slashes, empty ones left out. */
  function Comps(p: string): (cs: seq<string>)
    ensures forall i :: 0 <= i < |cs| ==> cs[i] != "" && '/' !in cs[i]
    decreases |p|
  {
    if p == "" then []
    else if p[0] == '/' then Comps(p[1..])
    else [p[..SegLen(p)]] + Comps(p[SegLen(p)..])
  }

  lemma {:induction false} CompsSkip(p: string)
    ensures Comps(SkipSlashes(p)) == Comps(p)
    decreases |p|
  {
    if p != "" && p[0] == '/' { CompsSkip(p[1..]); }
  }

  /** The first component of `a + "/" + b` is that of `a`, unless `a` is empty. */
  lemma {:induction false} SegLenSlash(a: string, b: string)
    ensures SegLen(a + "/" + b) == SegLen(a)
    decreases |a|
  {
    if a != "" {
      assert (a + "/" + b)[0] == a[0];
      assert (a + "/" + b)[1..] == a[1..] + "/" + b;
      SegLenSlash(a[1..], b);
    }
  }

  /** A slash separates: the components of the two sides follow each other. */
  lemma {:induction false} CompsSlash(a: string, b: string)
    ensures Comps(a + "/" + b) == Comps(a) + Comps(b)
    decreases |a|
  {
    var p := a + "/" + b;
    if a == "" {
      assert p[1..] == b;
    } else if a[0] == '/' {
      assert p[1..] == a[1..] + "/" + b;
      CompsSlash(a[1..], b);
    } else {
      var n := SegLen(a);
      SegLenSlash(a, b);
      assert p[..n] == a[..n];
      assert p[n..] == a[n..] + "/" + b;
      CompsSlash(a[n..], b);
    }
  }

  lemma {:induction false} SegLenWhole(p: string)
    requires '/' !in p
    ensures SegLen(p) == |p|
  {
    if p != "" { SegLenWhole(p[1..]); }
  }

  lemma CompsOne(p: string)
    requires '/' !in p
    ensures Comps(p) == if p == "" then [] else [p]
  {
    SegLenWhole(p);
    if p != "" { assert p[..|p|] == p && p[|p|..] == ""; }
  }

  /** A path without its trailing slashes, a single leading one being kept. */
  function Strip(p: string): (q: string)
    ensures q <= p && (p != "" ==> q != "" && q[0] == p[0]) && (|q| > 1 ==> q[|q| - 1] != '/')
  {
    if |p| > 1 && p[|p| - 1] == '/' then Strip(p[..|p| - 1]) else p
  }

  lemma {:induction false} CompsStrip(p: string)
    ensures Comps(Strip(p)) == Comps(p)
    decreases |p|
  {
    if |p| > 1 && p[|p| - 1] == '/' {
      var a := p[..|p| - 1];
      assert p == a + "/" + "";
      CompsSlash(a, "");
      CompsStrip(a);
    }
  }

  /** The position behind the last slash, 0 if there is none. */
  function AfterSlash(p: string): (k: nat)
    ensures k <= |p| && '/' !in p[k..] && (k > 0 ==> p[k - 1] == '/')
  {
    if p == "" then 0
    else if p[|p| - 1] == '/' then |p|
    else
      var k := AfterSlash(p[..|p| - 1]);
      assert p[k..] == p[..|p| - 1][k..] + [p[|p| - 1]];
      k
  }

  /** The last component of a path, which is "" only for a path of slashes. */
  function LastName(p: string): (n: string)
    ensures '/' !in n
  {
    Strip(p)[AfterSlash(Strip(p))..]
  }

  /** Everything before the last component. */
  lemma CompsLast(p: string)
    ensures var q := Strip(p);
            var k := AfterSlash(q);
            && (k == 0 ==> Comps(p) == if q == "" then [] else [q])
            && (k > 0 ==> Comps(p) == Comps(q[..k - 1]) + if q[k..] == "" then [] else [q[k..]])
  {
    CompsStrip(p);
    var q := Strip(p);
    var k := AfterSlash(q);
    if k == 0 {
      assert q[0..] == q;
      CompsOne(q);
    } else {
      assert q == q[..k - 1] + "/" + q[k..];
      CompsSlash(q[..k - 1], q[k..]);
      CompsOne(q[k..]);
    }
  }
}
