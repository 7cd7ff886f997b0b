/** The brute force of the older solver (tsp-rust/src/brute_force.rs), and
    the permutation generator it shares with the older step-wise engine
    (tsp-rust/src/algo/brute_force.rs): a recursive generator that fixes one
    position at a time by swapping every later entry into it, then a scan
    of all permutations for the shortest open path. */
module SwapBruteForce {
  import opened Wrappers
  import opened Tour
  import opened Util
  import opened Record

  // ---------------------------------------------------------------------
  // The generator
  // ---------------------------------------------------------------------

  /** What permute appends for the array s when positions below p are fixed:
      s itself once every position is fixed, and otherwise the branches of
      its loop. */
  function Perms(s: seq<nat>, p: nat): seq<seq<nat>>
    requires p <= |s|
    decreases |s| - p, 1, 0
  {
    if p == |s| then [s] else Branches(s, p, p)
  }

  /** The rounds x, x+1, ..., |s|-1 of permute's loop at position p: each
      swaps entry x into position p and fixes the next position. */
  function Branches(s: seq<nat>, p: nat, x: nat): seq<seq<nat>>
    requires p < |s| && p <= x <= |s|
    decreases |s| - p, 0, |s| - x
  {
    if x == |s| then [] else Perms(Swapped(s, p, x), p + 1) + Branches(s, p, x + 1)
  }

  /** permute: appends Perms(arr, p) to res and leaves arr as it found it,
      each round's second swap undoing its first. */
  method Permute(arr: array<nat>, res: seq<seq<nat>>, p: nat) returns (out: seq<seq<nat>>)
    requires p <= arr.Length
    modifies arr
    ensures arr[..] == old(arr[..])
    ensures out == res + Perms(old(arr[..]), p)
    decreases arr.Length - p
  {
    if p == arr.Length {
      return res + [arr[..]];
    }
    ghost var s := arr[..];
    out := res;
    for x := p to arr.Length
      invariant arr[..] == s
      invariant out + Branches(s, p, x) == res + Branches(s, p, p)
    {
      Swap(arr, p, x);
      out := Permute(arr, out, p + 1);
      Swap(arr, p, x);
      SwappedInvolution(s, p, x);
    }
  }

  /** get_permutations: runs permute on the identity array of length len. */
  method GetPermutations(len: nat) returns (res: seq<seq<nat>>)
    ensures res == Perms(Iota(len), 0)
  {
    var arr := new nat[len];
    for i := 0 to len
      invariant arr[..i] == Iota(len)[..i]
    {
      arr[i] := i;
    }
    assert arr[..] == arr[..len] && Iota(len)[..len] == Iota(len);
    res := Permute(arr, [], 0);
  }

  // ---------------------------------------------------------------------
  // What the generator produces
  // ---------------------------------------------------------------------

  function Fact(n: nat): nat
  {
    if n == 0 then 1 else n * Fact(n - 1)
  }

  /** No tour is produced twice. */
  ghost predicate NoRepeats(q: seq<seq<nat>>)
  {
    forall i, j :: 0 <= i < j < |q| ==> q[i] != q[j]
  }

  /** With |s| - p positions free there are (|s| - p)! results. */
  lemma {:induction false} PermsCount(s: seq<nat>, p: nat)
    requires p <= |s|
    ensures |Perms(s, p)| == Fact(|s| - p)
    decreases |s| - p, 1, 0
  {
    if p < |s| {
      BranchesCount(s, p, p);
    }
  }

  lemma {:induction false} BranchesCount(s: seq<nat>, p: nat, x: nat)
    requires p < |s| && p <= x <= |s|
    ensures |Branches(s, p, x)| == (|s| - x) * Fact(|s| - p - 1)
    decreases |s| - p, 0, |s| - x
  {
    if x < |s| {
      PermsCount(Swapped(s, p, x), p + 1);
      BranchesCount(s, p, x + 1);
      var k, f := |s| - x, Fact(|s| - p - 1);
      assert k * f == f + (k - 1) * f;
    }
  }

  /** Every result rearranges s and keeps its entries below p in place. */
  lemma {:induction false} PermsShape(s: seq<nat>, p: nat)
    requires p <= |s|
    ensures forall e: seq<nat> :: e in Perms(s, p) ==> |e| == |s| && multiset(e) == multiset(s) && e[..p] == s[..p]
    decreases |s| - p, 1, 0
  {
    if p < |s| {
      BranchesShape(s, p, p);
    }
  }

  /** A result of the rounds from x on also holds at position p one of the
      entries s[x..]. */
  lemma {:induction false} BranchesShape(s: seq<nat>, p: nat, x: nat)
    requires p < |s| && p <= x <= |s|
    ensures forall e: seq<nat> :: e in Branches(s, p, x) ==>
      |e| == |s| && multiset(e) == multiset(s) && e[..p] == s[..p] && e[p] in s[x..]
    decreases |s| - p, 0, |s| - x, 1
  {
    if x < |s| {
      RoundShape(s, p, x);
      BranchesShape(s, p, x + 1);
      assert s[x..] == [s[x]] + s[x + 1..];
    }
  }

  /** The round that swaps entry x into position p fixes s[x] there. */
  lemma {:induction false} RoundShape(s: seq<nat>, p: nat, x: nat)
    requires p <= x < |s|
    ensures forall e: seq<nat> :: e in Perms(Swapped(s, p, x), p + 1) ==>
      |e| == |s| && multiset(e) == multiset(s) && e[..p] == s[..p] && e[p] == s[x]
    decreases |s| - p, 0, |s| - x, 0
  {
    var u := Swapped(s, p, x);
    PermsShape(u, p + 1);
    SwappedPermutes(s, p, x);
    forall e | e in Perms(u, p + 1)
      ensures e[..p] == s[..p] && e[p] == s[x]
    {
      assert e[..p + 1][p] == u[p];
    }
  }

  /** The first result is s itself. */
  lemma {:induction false} PermsFirst(s: seq<nat>, p: nat)
    requires p <= |s|
    ensures |Perms(s, p)| > 0 && Perms(s, p)[0] == s
    decreases |s| - p
  {
    if p < |s| {
      SwappedInvolution(s, p, p);
      PermsFirst(s, p + 1);
    }
  }

  /** When s repeats no city, no result repeats. */
  lemma {:induction false} PermsNoRepeats(s: seq<nat>, p: nat)
    requires p <= |s| && Distinct(s)
    ensures NoRepeats(Perms(s, p))
    decreases |s| - p, 1, 0
  {
    if p < |s| {
      BranchesNoRepeats(s, p, p);
    }
  }

  lemma {:induction false} BranchesNoRepeats(s: seq<nat>, p: nat, x: nat)
    requires p < |s| && p <= x <= |s| && Distinct(s)
    ensures NoRepeats(Branches(s, p, x))
    decreases |s| - p, 0, |s| - x
  {
    if x < |s| {
      var u := Swapped(s, p, x);
      assert Distinct(u);
      PermsNoRepeats(u, p + 1);
      BranchesNoRepeats(s, p, x + 1);
      RoundShape(s, p, x);
      BranchesShape(s, p, x + 1);
      var a, b := Perms(u, p + 1), Branches(s, p, x + 1);
      forall i, j | 0 <= i < |a| && 0 <= j < |b|
        ensures a[i] != b[j]
      {
        assert a[i] in a && b[j] in b;
        assert s[x] !in s[x + 1..];
      }
    }
  }

  /** Every rearrangement of s that keeps the entries below p in place is
      among the results. */
  lemma {:induction false} PermsComplete(s: seq<nat>, p: nat, t: seq<nat>)
    requires p <= |s| && |t| == |s| && multiset(t) == multiset(s) && t[..p] == s[..p]
    ensures t in Perms(s, p)
    decreases |s| - p
  {
    if p == |s| {
      assert t == t[..p] && s == s[..p];
    } else {
      SameTail(s, t, p);
      assert t[p..][0] == t[p];
      assert t[p] in multiset(s[p..]);
      var i :| 0 <= i < |s[p..]| && s[p..][i] == t[p];
      var x := p + i;
      var u := Swapped(s, p, x);
      SwappedPermutes(s, p, x);
      assert t[..p + 1] == u[..p + 1];
      PermsComplete(u, p + 1, t);
      InBranches(s, p, p, x, t);
    }
  }

  /** Two rearrangements of each other that agree below p hold the same
      entries from p on. */
  lemma SameTail(s: seq<nat>, t: seq<nat>, p: nat)
    requires p <= |s| && |t| == |s| && multiset(t) == multiset(s) && t[..p] == s[..p]
    ensures multiset(t[p..]) == multiset(s[p..])
  {
    assert t == t[..p] + t[p..] && s == s[..p] + s[p..];
    forall v
      ensures multiset(t[p..])[v] == multiset(s[p..])[v]
    {
      assert multiset(t)[v] == multiset(t[..p])[v] + multiset(t[p..])[v];
      assert multiset(s)[v] == multiset(s[..p])[v] + multiset(s[p..])[v];
    }
  }

  lemma {:induction false} InBranches(s: seq<nat>, p: nat, y: nat, x: nat, t: seq<nat>)
    requires p <= y <= x < |s| && t in Perms(Swapped(s, p, x), p + 1)
    ensures t in Branches(s, p, y)
    decreases x - y
  {
    if y < x {
      InBranches(s, p, y + 1, x, t);
    }
  }

  /** get_permutations(n) lists each tour of the cities 0..n-1 exactly once,
      n! of them, starting with the identity. */
  lemma AllTours(n: nat)
    ensures forall t :: t in Perms(Iota(n), 0) <==> IsPerm(t, n)
    ensures |Perms(Iota(n), 0)| == Fact(n)
    ensures NoRepeats(Perms(Iota(n), 0))
    ensures |Perms(Iota(n), 0)| > 0 && Perms(Iota(n), 0)[0] == Iota(n)
  {
    var s := Iota(n);
    PermsShape(s, 0);
    forall t | IsPerm(t, n)
      ensures t in Perms(s, 0)
    {
      PermFacts(t, n);
      PermsComplete(s, 0, t);
    }
    PermsCount(s, 0);
    PermsNoRepeats(s, 0);
    PermsFirst(s, 0);
  }

  // ---------------------------------------------------------------------
  // run_brute_force
  // ---------------------------------------------------------------------

  /** The inner loop of run_brute_force: one edge per position from the
      second on, with no edge back to the start. */
  method MeasureOpen(w: Weight, p: seq<nat>) returns (length: real)
    ensures length == OpenLength(w, p)
  {
    length := 0.0;
    var i := 1;
    while i < |p|
      invariant 1 <= i
      invariant |p| > 0 ==> i <= |p| && length == OpenLength(w, p[..i])
      invariant |p| == 0 ==> length == 0.0
    {
      assert p[..i + 1][..i] == p[..i];
      length := length + w(p[i - 1], p[i]);
      i := i + 1;
    }
    if |p| > 0 {
      assert p[..i] == p;
    }
  }

  /** The weight run_brute_force compares tours with: the squared distance,
      whose root is taken once at the end. */
  function SquaredWeight(cities: seq<City>): Weight
  {
    CityWeight(cities, DistSqr)
  }

  /** run_brute_force: the first tour, in generator order, of least squared
      open length, and the root of that length. None stands for the panic of
      unwrap when no tour scores below F64Max. */
  method RunBruteForce(cities: seq<City>, sqrt: real -> real) returns (r: Option<(real, seq<nat>)>)
    ensures var w := SquaredWeight(cities);
      r.None? <==> forall q :: IsPerm(q, |cities|) ==> OpenLength(w, q) >= F64Max
    ensures r.Some? ==> var (len, path) := r.value; var w := SquaredWeight(cities);
      && IsPerm(path, |cities|)
      && len == sqrt(OpenLength(w, path))
      && OpenLength(w, path) < F64Max
      && (forall q :: IsPerm(q, |cities|) ==> OpenLength(w, path) <= OpenLength(w, q))
    ensures r.Some? ==> var perms := Perms(Iota(|cities|), 0); var w := SquaredWeight(cities);
      exists b :: 0 <= b < |perms| && perms[b] == r.value.1 &&
        forall j :: 0 <= j < b ==> OpenLength(w, perms[j]) > OpenLength(w, r.value.1)
  {
    ghost var w := SquaredWeight(cities);
    var shortest := F64Max;
    var path: Option<seq<nat>> := None;
    ghost var best := 0;
    var permutations := GetPermutations(|cities|);
    for k := 0 to |permutations|
      invariant Tracks(Open(w), permutations[..k], shortest, path, best)
    {
      var p := permutations[k];
      var len := MeasureOpen(SquaredWeight(cities), p);
      TracksStep(Open(w), permutations[..k], shortest, path, best, p, len);
      if len < shortest {
        shortest, path, best := len, Some(p), k;
      }
      assert permutations[..k + 1] == permutations[..k] + [p];
    }
    assert permutations[..|permutations|] == permutations;
    AllTours(|cities|);
    if path.None? {
      NoRecordMeansSentinel(Open(w), permutations, shortest, path, best);
      return None;
    }
    RecordIsFirstMinimum(Open(w), permutations, shortest, path, best);
    assert path.value in permutations;
    r := Some((sqrt(shortest), path.value));
  }
}
