/** Tours over city indices, the sequence transforms the solvers apply to
    them, and the cyclic and open lengths of a tour under a weight function. */
module Tour {

  /** Cost of travelling from one city index to another. */
  type Weight = (nat, nat) -> real

  ghost predicate Symmetric(w: Weight)
  {
    forall i: nat, j: nat :: w(i, j) == w(j, i)
  }

  /** The identity tour [0, 1, ..., n-1]. */
  function Iota(n: nat): (r: seq<nat>)
    ensures |r| == n
    ensures forall i :: 0 <= i < n ==> r[i] == i
  {
    seq(n, i requires 0 <= i => i as nat)
  }

  /** p visits every city 0..n-1 exactly once. */
  ghost predicate IsPerm(p: seq<nat>, n: nat)
  {
    multiset(p) == multiset(Iota(n))
  }

  /** No two positions of s hold the same city. */
  ghost predicate Distinct(s: seq<nat>)
  {
    forall i, j :: 0 <= i < j < |s| ==> s[i] != s[j]
  }

  lemma PermFacts(p: seq<nat>, n: nat)
    requires IsPerm(p, n)
    ensures |p| == n
    ensures forall i :: 0 <= i < |p| ==> p[i] < n
    ensures forall v :: 0 <= v < n ==> v in p
  {
    calc {
      |p|;
      |multiset(p)|;
      |multiset(Iota(n))|;
      |Iota(n)|;
    }
    forall i | 0 <= i < |p|
      ensures p[i] < n
    {
      assert p[i] in multiset(p);
      assert p[i] in Iota(n);
    }
    forall v | 0 <= v < n
      ensures v in p
    {
      assert Iota(n)[v] == v;
      assert v in multiset(Iota(n));
    }
  }

  // ---------------------------------------------------------------------
  // Sequence transforms
  // ---------------------------------------------------------------------

  /** s with the entries at x and y exchanged. */
  function Swapped(s: seq<nat>, x: nat, y: nat): (r: seq<nat>)
    requires x < |s| && y < |s|
    ensures |r| == |s| && r[x] == s[y] && r[y] == s[x]
    ensures forall i :: 0 <= i < |s| && i != x && i != y ==> r[i] == s[i]
  {
    s[x := s[y]][y := s[x]]
  }

  lemma SwappedInvolution(s: seq<nat>, x: nat, y: nat)
    requires x < |s| && y < |s|
    ensures Swapped(Swapped(s, x, y), x, y) == s
    ensures Swapped(s, x, x) == s
  {
  }

  lemma SwappedPermutes(s: seq<nat>, x: nat, y: nat)
    requires x < |s| && y < |s|
    ensures multiset(Swapped(s, x, y)) == multiset(s)
  {
  }

  function Reverse(s: seq<nat>): (r: seq<nat>)
    ensures |r| == |s|
    ensures forall i :: 0 <= i < |s| ==> r[i] == s[|s| - 1 - i]
  {
    seq(|s|, i requires 0 <= i < |s| => s[|s| - 1 - i])
  }

  lemma {:induction false} ReversePermutes(s: seq<nat>)
    ensures multiset(Reverse(s)) == multiset(s)
  {
    if s != [] {
      assert Reverse(s) == Reverse(s[1..]) + [s[0]];
      ReversePermutes(s[1..]);
      assert s == [s[0]] + s[1..];
    }
  }

  /** s with the closed range [lo, hi] reversed in place. */
  function ReverseRange(s: seq<nat>, lo: nat, hi: nat): (r: seq<nat>)
    requires lo <= hi < |s|
    ensures |r| == |s|
    ensures forall i :: 0 <= i < |s| ==> r[i] == if lo <= i <= hi then s[hi - (i - lo)] else s[i]
  {
    s[..lo] + Reverse(s[lo..hi + 1]) + s[hi + 1..]
  }

  lemma ReverseRangeInvolution(s: seq<nat>, lo: nat, hi: nat)
    requires lo <= hi < |s|
    ensures ReverseRange(ReverseRange(s, lo, hi), lo, hi) == s
  {
    var r := ReverseRange(s, lo, hi);
    var rr := ReverseRange(r, lo, hi);
    forall i | 0 <= i < |s|
      ensures rr[i] == s[i]
    {
      if lo <= i <= hi {
        assert rr[i] == r[hi - (i - lo)];
      }
    }
  }

  lemma ReverseRangePermutes(s: seq<nat>, lo: nat, hi: nat)
    requires lo <= hi < |s|
    ensures multiset(ReverseRange(s, lo, hi)) == multiset(s)
  {
    ReversePermutes(s[lo..hi + 1]);
    assert s == s[..lo] + s[lo..hi + 1] + s[hi + 1..];
  }

  /** Circular shift by one place to the right: the last entry moves to the front. */
  function ShiftedRight(s: seq<nat>): (r: seq<nat>)
    requires |s| > 0
    ensures |r| == |s| && r[0] == s[|s| - 1]
    ensures forall i :: 1 <= i < |s| ==> r[i] == s[i - 1]
  {
    [s[|s| - 1]] + s[..|s| - 1]
  }

  /** Circular shift by one place to the left: the first entry moves to the back. */
  function ShiftedLeft(s: seq<nat>): (r: seq<nat>)
    requires |s| > 0
    ensures |r| == |s| && r[|s| - 1] == s[0]
    ensures forall i :: 0 <= i < |s| - 1 ==> r[i] == s[i + 1]
  {
    s[1..] + [s[0]]
  }

  lemma ShiftsAreInverse(s: seq<nat>)
    requires |s| > 0
    ensures ShiftedLeft(ShiftedRight(s)) == s
    ensures ShiftedRight(ShiftedLeft(s)) == s
  {
    assert ShiftedLeft(ShiftedRight(s)) == s[..|s| - 1] + [s[|s| - 1]];
    assert s == s[..|s| - 1] + [s[|s| - 1]];
  }

  lemma ShiftsPermute(s: seq<nat>)
    requires |s| > 0
    ensures multiset(ShiftedRight(s)) == multiset(s)
    ensures multiset(ShiftedLeft(s)) == multiset(s)
  {
    assert s == s[..|s| - 1] + [s[|s| - 1]];
    assert s == [s[0]] + s[1..];
  }

  /** s rotated left by k places: s[k..] followed by s[..k]. */
  function Rotate(s: seq<nat>, k: nat): seq<nat>
    requires k <= |s|
  {
    s[k..] + s[..k]
  }

  lemma RotateStep(s: seq<nat>, k: nat)
    requires k < |s|
    ensures ShiftedLeft(Rotate(s, k)) == Rotate(s, k + 1)
  {
    assert Rotate(s, k)[0] == s[k];
    assert s[..k + 1] == s[..k] + [s[k]];
  }

  // ---------------------------------------------------------------------
  // Tour lengths
  // ---------------------------------------------------------------------

  /** The edge leaving position i, wrapping from the last city back to the first. */
  function Edge(w: Weight, p: seq<nat>, i: nat): real
    requires i < |p|
  {
    w(p[i], p[(i + 1) % |p|])
  }

  /** Sum of the first k edges of the closed tour p. */
  function CyclePrefix(w: Weight, p: seq<nat>, k: nat): real
    requires k <= |p|
  {
    if k == 0 then 0.0 else CyclePrefix(w, p, k - 1) + Edge(w, p, k - 1)
  }

  /** Length of the closed tour p, including the edge back to the start. */
  function CyclicLength(w: Weight, p: seq<nat>): real
  {
    CyclePrefix(w, p, |p|)
  }

  /** Tours scored by their closed length. */
  function Cyclic(w: Weight): seq<nat> -> real
  {
    p => CyclicLength(w, p)
  }

  /** Length of the open path p: no edge back to the start. */
  function OpenLength(w: Weight, p: seq<nat>): real
  {
    if |p| <= 1 then 0.0 else OpenLength(w, p[..|p| - 1]) + w(p[|p| - 2], p[|p| - 1])
  }

  /** Paths scored by their open length. */
  function Open(w: Weight): seq<nat> -> real
  {
    p => OpenLength(w, p)
  }

  lemma {:induction false} CyclePrefixIsOpen(w: Weight, p: seq<nat>, k: nat)
    requires k < |p|
    ensures CyclePrefix(w, p, k) == OpenLength(w, p[..k + 1])
  {
    if k > 0 {
      CyclePrefixIsOpen(w, p, k - 1);
      var q := p[..k + 1];
      assert q[..k] == p[..k];
      assert k % |p| == k;
      assert Edge(w, p, k - 1) == w(q[k - 1], q[k]);
    }
  }

  /** A closed tour is its open path plus the edge from the last city back to the first. */
  lemma CycleClosesOpen(w: Weight, p: seq<nat>)
    requires |p| > 0
    ensures CyclicLength(w, p) == OpenLength(w, p) + w(p[|p| - 1], p[0])
  {
    CyclePrefixIsOpen(w, p, |p| - 1);
    assert p[..|p|] == p;
    assert (|p| - 1 + 1) % |p| == 0;
    assert CyclicLength(w, p) == CyclePrefix(w, p, |p| - 1) + w(p[|p| - 1], p[0]);
  }

  lemma {:induction false} OpenCons(w: Weight, a: nat, s: seq<nat>)
    requires |s| > 0
    ensures OpenLength(w, [a] + s) == w(a, s[0]) + OpenLength(w, s)
  {
    if |s| > 1 {
      assert ([a] + s)[..|s|] == [a] + s[..|s| - 1];
      OpenCons(w, a, s[..|s| - 1]);
    } else {
      assert ([a] + s)[..1] == [a];
    }
  }

  lemma OpenSnoc(w: Weight, s: seq<nat>, b: nat)
    requires |s| > 0
    ensures OpenLength(w, s + [b]) == OpenLength(w, s) + w(s[|s| - 1], b)
  {
    assert (s + [b])[..|s|] == s;
  }

  /** Rotating a closed tour by one place does not change its length. */
  lemma ShiftLeftKeepsLength(w: Weight, p: seq<nat>)
    requires |p| > 0
    ensures CyclicLength(w, ShiftedLeft(p)) == CyclicLength(w, p)
  {
    var q := ShiftedLeft(p);
    CycleClosesOpen(w, p);
    CycleClosesOpen(w, q);
    if |p| > 1 {
      assert p == [p[0]] + p[1..];
      OpenCons(w, p[0], p[1..]);
      OpenSnoc(w, p[1..], p[0]);
    }
  }

  lemma ShiftRightKeepsLength(w: Weight, p: seq<nat>)
    requires |p| > 0
    ensures CyclicLength(w, ShiftedRight(p)) == CyclicLength(w, p)
  {
    ShiftsAreInverse(p);
    ShiftLeftKeepsLength(w, ShiftedRight(p));
  }

  /** Rotating a closed tour by any number of places does not change its length. */
  lemma {:induction false} RotateKeepsLength(w: Weight, p: seq<nat>, k: nat)
    requires k <= |p|
    ensures CyclicLength(w, Rotate(p, k)) == CyclicLength(w, p)
  {
    if k == 0 {
      assert Rotate(p, 0) == p;
    } else {
      RotateKeepsLength(w, p, k - 1);
      RotateStep(p, k - 1);
      ShiftLeftKeepsLength(w, Rotate(p, k - 1));
    }
  }

  lemma {:induction false} ReverseKeepsOpenLength(w: Weight, p: seq<nat>)
    requires Symmetric(w)
    ensures OpenLength(w, Reverse(p)) == OpenLength(w, p)
  {
    if |p| > 1 {
      var t := p[1..];
      assert Reverse(p) == Reverse(t) + [p[0]];
      ReverseKeepsOpenLength(w, t);
      OpenSnoc(w, Reverse(t), p[0]);
      assert p == [p[0]] + t;
      OpenCons(w, p[0], t);
      assert w(t[0], p[0]) == w(p[0], t[0]);
    }
  }

  /** Traversing a closed tour backwards does not change its length when the weight is symmetric. */
  lemma ReverseKeepsLength(w: Weight, p: seq<nat>)
    requires Symmetric(w)
    ensures CyclicLength(w, Reverse(p)) == CyclicLength(w, p)
  {
    if |p| > 0 {
      CycleClosesOpen(w, p);
      CycleClosesOpen(w, Reverse(p));
      ReverseKeepsOpenLength(w, p);
      assert w(p[0], p[|p| - 1]) == w(p[|p| - 1], p[0]);
    }
  }

  /** The length loop shared by the engines: one edge per position, the last
      one wrapping back to the start through `(i + 1) % len`. */
  method MeasureCycle(w: Weight, p: seq<nat>) returns (length: real)
    ensures length == CyclicLength(w, p)
  {
    length := 0.0;
    var i := 0;
    while i < |p|
      invariant 0 <= i <= |p|
      invariant length == CyclePrefix(w, p, i)
    {
      length := length + w(p[i], p[(i + 1) % |p|]);
      i := i + 1;
    }
  }
}
