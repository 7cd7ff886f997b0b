/** The helpers of the older interactive program (tsp-rust/src/aron.rs):
    the open-path energy over a distance table and the "0 -> 2 -> 1"
    rendering of a path. Its in-place swap of two cities is the same
    exchange as Util.Swap. */
module Aron {
  import opened Wrappers
  import opened Tour
  import opened Util
  import opened Text

  /** The separator path_to_string writes between cities. */
  const Arrow: string := " -> "

  /** calculate_energy: the sum of the table entries for each pair of
      neighbours, with no edge back to the start. The source computes
      len - 2 as an unsigned value, so paths of fewer than two cities are
      rejected (an underflow panic), as are indices outside the table. */
  method CalculateEnergy(path: seq<nat>, distance: seq<seq<real>>) returns (sum: real)
    requires |path| >= 2
    requires forall i :: 0 <= i < |path| - 1 ==> path[i] < |distance| && path[i + 1] < |distance[path[i]]|
    ensures sum == OpenLength(MatrixWeight(distance), path)
  {
    ghost var w := MatrixWeight(distance);
    sum := 0.0;
    for i := 0 to |path| - 1
      invariant sum == OpenLength(w, path[..i + 1])
    {
      assert path[..i + 2][..i + 1] == path[..i + 1];
      sum := sum + distance[path[i]][path[i + 1]];
    }
    assert path[..|path|] == path;
  }

  /** The energy is the closed length less the edge back to the start; for
      two cities it is their one edge. */
  lemma EnergyIsOpenTour(w: Weight, path: seq<nat>)
    requires |path| >= 2
    ensures OpenLength(w, path) == CyclicLength(w, path) - w(path[|path| - 1], path[0])
    ensures |path| == 2 ==> OpenLength(w, path) == w(path[0], path[1])
  {
    CycleClosesOpen(w, path);
    if |path| == 2 {
      assert path[..1] == [path[0]];
    }
  }

  /** path_to_string: the first index, then " -> " and the next index for
      each later position. The source reads path[0], so an empty path is
      rejected. The line holds one arrow fewer than there are cities, and
      splitting it on the arrow and parsing each piece gives the path back. */
  method PathToString(path: seq<nat>) returns (s: string)
    requires |path| > 0
    ensures s == Join(path, Arrow)
    ensures multiset(s)['>'] == |path| - 1
    ensures ParseJoined(s, Arrow) == Some(path)
  {
    s := NatToString(path[0]);
    assert path[..1] == [path[0]];
    for i := 1 to |path|
      invariant s == Join(path[..i], Arrow)
    {
      JoinSnoc(path[..i], path[i], Arrow);
      assert path[..i + 1] == path[..i] + [path[i]];
      s := s + Arrow;
      s := s + NatToString(path[i]);
    }
    assert path[..|path|] == path;
    JoinSeparators(path, Arrow, '>');
    JoinRoundTrip(path, Arrow);
  }
}
