/** The step-wise brute force of the older solver
    (tsp-rust/src/algo/brute_force.rs): all permutations are generated up
    front, and each step measures the next one as a closed tour. */
module LegacyBruteForce {
  import opened Wrappers
  import opened Tour
  import opened Util
  import opened Record
  import opened SwapBruteForce

  class BruteForce {
    const cities: seq<City>
    /** Square root used by the Euclidean distance. */
    const sqrt: real -> real
    const permutations: seq<seq<nat>>
    var index: nat
    var length: real
    var path: Option<seq<nat>>
    /** Position in `permutations` of the tour held in `path`. */
    ghost var best: nat

    function Weight(): Weight
    {
      CityWeight(cities, Euclid(sqrt))
    }

    /** The permutations are those of the generator, the first `index` of
        them have been measured, and length and path record the first
        shortest of those. */
    ghost predicate Valid()
      reads this
    {
      && permutations == Perms(Iota(|cities|), 0)
      && index <= |permutations|
      && Tracks(Cyclic(Weight()), permutations[..index], length, path, best)
    }

    /** init: generate every permutation; nothing measured, no path, the
        length at F64Max. */
    constructor Init(cities: seq<City>, sqrt: real -> real)
      ensures Valid()
      ensures this.cities == cities && this.sqrt == sqrt
      ensures index == 0 && length == F64Max && path == None
      ensures |permutations| == Fact(|cities|)
    {
      var perms := GetPermutations(|cities|);
      AllTours(|cities|);
      this.cities := cities;
      this.sqrt := sqrt;
      permutations := perms;
      index := 0;
      length := F64Max;
      path := None;
      best := 0;
      new;
      TracksStart(Cyclic(Weight()));
    }

    /** state: the length, the path (unwrapped, so it must be there) and the
        progress index / number of permutations shown in the status line.
        Once every permutation is measured the path is a shortest tour. */
    function State(): (r: (real, seq<nat>, nat, nat))
      requires Valid() && path.Some?
      reads this
      ensures IsPerm(r.1, |cities|)
      ensures r.0 == CyclicLength(Weight(), r.1) && r.0 < F64Max
      ensures r.2 == index && r.3 == |permutations|
      ensures forall j :: 0 <= j < index ==> r.0 <= CyclicLength(Weight(), permutations[j])
      ensures index == |permutations| ==>
        forall q :: IsPerm(q, |cities|) ==> r.0 <= CyclicLength(Weight(), q)
    {
      AllTours(|cities|);
      RecordIsFirstMinimum(Cyclic(Weight()), permutations[..index], length, path, best);
      assert path.value in permutations;
      assert index == |permutations| ==> permutations[..index] == permutations;
      (length, path.value, index, |permutations|)
    }

    /** step: measure permutation `index` as a closed tour, keep it when it
        is strictly shorter, and answer whether that was the last one. The
        source indexes out of range, and panics, if called again after that. */
    method Step() returns (done: bool)
      requires Valid() && index < |permutations|
      modifies this
      ensures Valid()
      ensures index == old(index) + 1 && done == (index == |permutations|)
      ensures var newLength := CyclicLength(Weight(), permutations[old(index)]);
        if newLength < old(length) then length == newLength && path == Some(permutations[old(index)])
        else length == old(length) && path == old(path)
    {
      var p := permutations[index];
      var newLength := MeasureCycle(Weight(), p);
      TracksStep(Cyclic(Weight()), permutations[..index], length, path, best, p, newLength);
      assert permutations[..index + 1] == permutations[..index] + [p];
      if newLength < length {
        length, path, best := newLength, Some(p), index;
      }
      index := index + 1;
      done := index == |permutations|;
    }
  }
}
