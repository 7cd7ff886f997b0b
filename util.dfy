/** Cities, the squared and Euclidean distances between them, the weight
    functions the engines measure tours with, and the in-place swap helper. */
module Util {
  import opened Tour

  datatype City = City(x: real, y: real)

  /** The largest finite f64, (2^53 - 1) * 2^971: the engines' "no tour yet" length. */
  const F64Max: real := 179769313486231570814527423731704356798070567525844996598917476803157260780028538760589558632766878171540458953514382464234321326889464182768467546703537516986049910576551282076245490090389328944075868508455133942304583236903222948165808559332123348274797826204144723168738177180919299881250404026184124858368.0

  /** Squared Euclidean distance between two cities. */
  function DistSqr(a: City, b: City): (r: real)
    ensures r >= 0.0
    ensures a == b ==> r == 0.0
  {
    var dx := b.x - a.x;
    var dy := b.y - a.y;
    assert dx * dx >= 0.0 && dy * dy >= 0.0;
    dx * dx + dy * dy
  }

  lemma DistSqrSymmetric(a: City, b: City)
    ensures DistSqr(a, b) == DistSqr(b, a)
  {
    assert (b.x - a.x) * (b.x - a.x) == (a.x - b.x) * (a.x - b.x);
    assert (b.y - a.y) * (b.y - a.y) == (a.y - b.y) * (a.y - b.y);
  }

  /** Euclidean distance: the square root of DistSqr. Square roots are not
      computed here, so the root is supplied by the caller. */
  function Euclid(sqrt: real -> real): (City, City) -> real
  {
    (a: City, b: City) => sqrt(DistSqr(a, b))
  }

  /** Weight of a move between city indices, measured with `metric` on the
      cities' coordinates; indices outside the city list never occur in a tour. */
  function CityWeight(cities: seq<City>, metric: (City, City) -> real): (w: Weight)
    ensures forall i: nat, j: nat :: i < |cities| && j < |cities| ==> w(i, j) == metric(cities[i], cities[j])
  {
    (i: nat, j: nat) => if i < |cities| && j < |cities| then metric(cities[i], cities[j]) else 0.0
  }

  /** Weight read from a table of distances. */
  function MatrixWeight(d: seq<seq<real>>): (w: Weight)
    ensures forall i: nat, j: nat :: i < |d| && j < |d[i]| ==> w(i, j) == d[i][j]
  {
    (i: nat, j: nat) => if i < |d| && j < |d[i]| then d[i][j] else 0.0
  }

  /** Measuring with the Euclidean distance is symmetric whatever the square root. */
  lemma EuclidWeightSymmetric(cities: seq<City>, sqrt: real -> real)
    ensures Symmetric(CityWeight(cities, Euclid(sqrt)))
  {
    var w := CityWeight(cities, Euclid(sqrt));
    forall i: nat, j: nat
      ensures w(i, j) == w(j, i)
    {
      if i < |cities| && j < |cities| {
        DistSqrSymmetric(cities[i], cities[j]);
      }
    }
  }

  /** Exchanges arr[x] and arr[y] in place. */
  method Swap(arr: array<nat>, x: nat, y: nat)
    requires x < arr.Length && y < arr.Length
    modifies arr
    ensures arr[..] == Swapped(old(arr[..]), x, y)
  {
    var h := arr[x];
    arr[x] := arr[y];
    arr[y] := h;
  }
}
