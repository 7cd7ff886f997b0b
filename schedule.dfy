/** What the two annealing engines share: the distance table and the
    random-insertion tour they start from, the acceptance and stop rules of
    their step, and the geometric cooling of the temperature. */
module Schedule {
  import opened Tour
  import opened Util

  // ---------------------------------------------------------------------
  // Distance table
  // ---------------------------------------------------------------------

  /** The table the constructors fill: entry (i, j) is measured from the
      lower index to the higher one, the lower triangle being a copy. */
  function DistanceTable(cities: seq<City>, metric: (City, City) -> real): (d: seq<seq<real>>)
    ensures |d| == |cities|
    ensures forall a :: 0 <= a < |cities| ==> |d[a]| == |cities|
    ensures forall a, b :: 0 <= a < |cities| && 0 <= b < |cities| ==>
      d[a][b] == if a <= b then metric(cities[a], cities[b]) else metric(cities[b], cities[a])
  {
    seq(|cities|, a requires 0 <= a < |cities| =>
      seq(|cities|, b requires 0 <= b < |cities| =>
        if a <= b then metric(cities[a], cities[b]) else metric(cities[b], cities[a])))
  }

  /** The table is symmetric whatever the metric, so the weight it defines is too. */
  lemma DistanceTableSymmetric(cities: seq<City>, metric: (City, City) -> real)
    ensures forall a, b :: 0 <= a < |cities| && 0 <= b < |cities| ==>
      DistanceTable(cities, metric)[a][b] == DistanceTable(cities, metric)[b][a]
    ensures Symmetric(MatrixWeight(DistanceTable(cities, metric)))
  {
    var d := DistanceTable(cities, metric);
    var w := MatrixWeight(d);
    forall i: nat, j: nat
      ensures w(i, j) == w(j, i)
    {
      if i < |d| && j < |d| {
        assert w(i, j) == d[i][j] && w(j, i) == d[j][i];
      }
    }
  }

  /** Entry (a, b) has been written once the scan has passed it: the row of
      min(a, b) is finished, or it is the current row and the column of
      max(a, b) is behind the inner index. */
  predicate Filled(i: nat, j: nat, a: nat, b: nat)
  {
    var lo, hi := if a <= b then a else b, if a <= b then b else a;
    lo < i || (lo == i && hi < j)
  }

  /** The nested fill of the constructors: every entry starts at -1.0, and
      for each i <= j the pair (i, j) is measured and copied to (j, i). */
  method BuildDistance(cities: seq<City>, metric: (City, City) -> real) returns (d: seq<seq<real>>)
    ensures d == DistanceTable(cities, metric)
  {
    var n := |cities|;
    ghost var table := DistanceTable(cities, metric);
    d := seq(n, _ => seq(n, _ => -1.0));
    var i := 0;
    while i < n
      invariant 0 <= i <= n
      invariant |d| == n && forall a :: 0 <= a < n ==> |d[a]| == n
      invariant forall a, b :: 0 <= a < n && 0 <= b < n && Filled(i, 0, a, b) ==> d[a][b] == table[a][b]
    {
      var j := i;
      while j < n
        invariant i <= j <= n
        invariant |d| == n && forall a :: 0 <= a < n ==> |d[a]| == n
        invariant forall a, b :: 0 <= a < n && 0 <= b < n && Filled(i, j, a, b) ==> d[a][b] == table[a][b]
      {
        d := d[i := d[i][j := metric(cities[i], cities[j])]];
        d := d[j := d[j][i := d[i][j]]];
        j := j + 1;
      }
      i := i + 1;
    }
    forall a | 0 <= a < n
      ensures d[a] == table[a]
    {
      assert forall b :: 0 <= b < n ==> Filled(n, 0, a, b);
    }
  }

  // ---------------------------------------------------------------------
  // Random-insertion initial tour
  // ---------------------------------------------------------------------

  /** s with v inserted before position k. */
  function Insert(s: seq<nat>, k: nat, v: nat): (r: seq<nat>)
    requires k <= |s|
    ensures |r| == |s| + 1 && r[k] == v
    ensures r[..k] == s[..k] && r[k + 1..] == s[k..]
    ensures multiset(r) == multiset(s) + multiset{v}
  {
    assert s == s[..k] + s[k..];
    s[..k] + [v] + s[k..]
  }

  /** The positions drawn by the constructors: city i is inserted at a
      position between 0 and i, the length of the tour built so far. */
  predicate ValidPicks(picks: seq<nat>)
  {
    forall i :: 0 <= i < |picks| ==> picks[i] <= i
  }

  /** The tour built by inserting 0, 1, ... at the drawn positions. */
  function Insertions(picks: seq<nat>): (r: seq<nat>)
    requires ValidPicks(picks)
    ensures |r| == |picks|
  {
    if picks == [] then []
    else
      var k := |picks| - 1;
      assert ValidPicks(picks[..k]);
      Insert(Insertions(picks[..k]), picks[k], k)
  }

  lemma IotaSnoc(n: nat)
    ensures Iota(n + 1) == Iota(n) + [n]
  {
  }

  /** Whatever positions are drawn, the cities 0..n-1 each appear once. */
  lemma {:induction false} InsertionsPermute(picks: seq<nat>)
    requires ValidPicks(picks)
    ensures IsPerm(Insertions(picks), |picks|)
  {
    if picks != [] {
      var k := |picks| - 1;
      assert ValidPicks(picks[..k]);
      InsertionsPermute(picks[..k]);
      IotaSnoc(k);
    }
  }

  lemma InsertionsStep(picks: seq<nat>, i: nat)
    requires ValidPicks(picks) && i < |picks|
    ensures ValidPicks(picks[..i]) && ValidPicks(picks[..i + 1])
    ensures Insertions(picks[..i + 1]) == Insert(Insertions(picks[..i]), picks[i], i)
  {
    var prefix := picks[..i + 1];
    assert prefix[..i] == picks[..i];
  }

  /** The random-insertion loop of the constructors. */
  method InsertionPath(picks: seq<nat>) returns (path: seq<nat>)
    requires ValidPicks(picks)
    ensures path == Insertions(picks)
  {
    path := [];
    var i := 0;
    while i < |picks|
      invariant 0 <= i <= |picks|
      invariant ValidPicks(picks[..i]) && path == Insertions(picks[..i])
    {
      InsertionsStep(picks, i);
      path := path[..picks[i]] + [i] + path[picks[i]..];
      i := i + 1;
    }
    assert picks[..|picks|] == picks;
  }

  // ---------------------------------------------------------------------
  // Acceptance, stop rule and cooling
  // ---------------------------------------------------------------------

  /** A proposal is taken when it is no longer than the current tour, with no
      draw, and otherwise when the uphill draw succeeds. */
  predicate Accepts(length: real, newLength: real, uphill: bool)
    ensures newLength <= length ==> Accepts(length, newLength, uphill)
    ensures Accepts(length, newLength, uphill) && !uphill ==> newLength <= length
  {
    length - newLength >= 0.0 || uphill
  }

  /** The stop test at the end of a batch; the difference is only formed when
      the first test fails, and it would underflow were lastDecrease > step. */
  predicate Stops(maxSteps: nat, maxNoDecrease: nat, step: nat, lastDecrease: nat)
    requires step > maxSteps || lastDecrease <= step
    ensures step > maxSteps ==> Stops(maxSteps, maxNoDecrease, step, lastDecrease)
    ensures Stops(maxSteps, maxNoDecrease, step, lastDecrease) && step <= maxSteps ==>
      lastDecrease + maxNoDecrease < step
  {
    step > maxSteps || step - lastDecrease > maxNoDecrease
  }

  /** The temperature after k coolings from `start`, each multiplying by `mult`. */
  function Cooled(start: real, mult: real, k: nat): (r: real)
    ensures 0.0 <= start && 0.0 <= mult <= 1.0 ==> 0.0 <= r <= start
  {
    if k == 0 then start
    else
      var c := Cooled(start, mult, k - 1);
      ScaleDown(c, mult);
      c * mult
  }

  /** Multiplying by a factor in [0, 1] keeps a non-negative value between 0 and itself. */
  lemma ScaleDown(c: real, mult: real)
    ensures 0.0 <= c && 0.0 <= mult <= 1.0 ==> 0.0 <= c * mult <= c
  {
    if 0.0 <= c && 0.0 <= mult <= 1.0 {
      assert c - c * mult == c * (1.0 - mult);
    }
  }
}
