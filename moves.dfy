/** The neighbour moves of the annealing engines: the random index pair, the
    swap of two cities, the inversion of a section and the circular shifts.
    Each move builds a fresh tour from the current one. */
module Moves {
  import opened Wrappers
  import opened Tour
  import opened Util

  /** One neighbour move together with the random choices made for it: the
      kind, the two indices drawn for a swap or an inversion, and the
      direction coin of a shift (true shifts right). */
  datatype Move =
    | SwapMove(x: nat, y: nat)
    | InvertMove(x: nat, y: nat)
    | ShiftMove(right: bool)

  /** m can be drawn on a tour of n cities: two distinct indices below n, or
      a non-empty tour to shift. */
  predicate Fits(m: Move, n: nat)
  {
    match m
    case SwapMove(x, y) => x < n && y < n && x != y
    case InvertMove(x, y) => x < n && y < n && x != y
    case ShiftMove(_) => n > 0
  }

  /** The tour that move m proposes from `path`. An inversion reverses the
      closed range between its two indices, whichever is drawn first. */
  function Apply(path: seq<nat>, m: Move): (r: seq<nat>)
    requires Fits(m, |path|)
    ensures |r| == |path|
  {
    match m
    case SwapMove(x, y) => Swapped(path, x, y)
    case InvertMove(x, y) => if x < y then ReverseRange(path, x, y) else ReverseRange(path, y, x)
    case ShiftMove(right) => if right then ShiftedRight(path) else ShiftedLeft(path)
  }

  /** The move that takes a proposal back to the tour it came from. */
  function Undo(m: Move): Move
  {
    match m
    case ShiftMove(right) => ShiftMove(!right)
    case _ => m
  }

  /** Every move rearranges the cities of the tour and nothing else. */
  lemma ApplyPermutes(path: seq<nat>, m: Move, n: nat)
    requires Fits(m, |path|)
    ensures multiset(Apply(path, m)) == multiset(path)
    ensures IsPerm(path, n) ==> IsPerm(Apply(path, m), n)
  {
    match m
    case SwapMove(x, y) => SwappedPermutes(path, x, y);
    case InvertMove(x, y) =>
      if x < y {
        ReverseRangePermutes(path, x, y);
      } else {
        ReverseRangePermutes(path, y, x);
      }
    case ShiftMove(_) => ShiftsPermute(path);
  }

  /** Swap and inversion undo themselves; the two shifts undo each other. */
  lemma ApplyUndo(path: seq<nat>, m: Move)
    requires Fits(m, |path|)
    ensures Fits(Undo(m), |path|)
    ensures Apply(Apply(path, m), Undo(m)) == path
  {
    match m
    case SwapMove(x, y) => SwappedInvolution(path, x, y);
    case InvertMove(x, y) =>
      if x < y {
        ReverseRangeInvolution(path, x, y);
      } else {
        ReverseRangeInvolution(path, y, x);
      }
    case ShiftMove(_) => ShiftsAreInverse(path);
  }

  /** A shift only moves the starting city: the closed tour keeps its length. */
  lemma ShiftKeepsLength(w: Weight, path: seq<nat>, right: bool)
    requires |path| > 0
    ensures CyclicLength(w, Apply(path, ShiftMove(right))) == CyclicLength(w, path)
  {
    if right {
      ShiftRightKeepsLength(w, path);
    } else {
      ShiftLeftKeepsLength(w, path);
    }
  }

  /** distinct_indicies: x is the first draw and y the first later draw that
      differs from it. Each draw is below `max`. The source redraws forever
      when every draw repeats x; here the supply of draws is finite and the
      result is None once it runs out. */
  method DistinctIndices(max: nat, draws: seq<nat>) returns (r: Option<(nat, nat)>)
    requires max > 0 && |draws| > 0
    requires forall i :: 0 <= i < |draws| ==> draws[i] < max
    ensures r.Some? ==> r.value.0 == draws[0] && r.value.1 != r.value.0
    ensures r.Some? ==> r.value.0 < max && r.value.1 < max
    ensures r.Some? ==> exists i :: 0 < i < |draws| && draws[i] == r.value.1 && forall j :: 0 < j < i ==> draws[j] == draws[0]
    ensures r.None? <==> forall i :: 0 <= i < |draws| ==> draws[i] == draws[0]
    ensures max < 2 ==> r.None?
  {
    var x := draws[0];
    var y := x;
    var i := 1;
    while y == x && i < |draws|
      invariant 1 <= i <= |draws|
      invariant y == x ==> forall j :: 0 <= j < i ==> draws[j] == x
      invariant y != x ==> draws[i - 1] == y && forall j :: 0 < j < i - 1 ==> draws[j] == x
      invariant y < max
    {
      y := draws[i];
      i := i + 1;
    }
    if y == x {
      return None;
    }
    r := Some((x, y));
  }

  /** Draws the move of kind `kind` (gen_range(0..=2)) on a tour of n
      cities, taking its indices from `draws` and its direction from `coin`. */
  method DrawMove(kind: nat, n: nat, draws: seq<nat>, coin: bool) returns (m: Option<Move>)
    requires kind <= 2 && n > 0 && |draws| > 0
    requires forall i :: 0 <= i < |draws| ==> draws[i] < n
    ensures m.Some? ==> Fits(m.value, n)
    ensures kind == 2 ==> m == Some(ShiftMove(coin))
    ensures kind == 0 && m.Some? ==> m.value.SwapMove?
    ensures kind == 1 && m.Some? ==> m.value.InvertMove?
    ensures kind < 2 && m.Some? ==> m.value.x == draws[0]
    ensures kind < 2 && m.Some? ==>
      exists i :: 0 < i < |draws| && draws[i] == m.value.y && forall j :: 0 < j < i ==> draws[j] == draws[0]
    ensures kind < 2 ==> (m.None? <==> forall i :: 0 <= i < |draws| ==> draws[i] == draws[0])
    ensures kind < 2 && n < 2 ==> m.None?
  {
    if kind == 2 {
      return Some(ShiftMove(coin));
    }
    var xy := DistinctIndices(n, draws);
    if xy.None? {
      return None;
    }
    var (x, y) := xy.value;
    m := if kind == 0 then Some(SwapMove(x, y)) else Some(InvertMove(x, y));
  }

  /** swap_cities: a copy of the tour with two entries exchanged. */
  method SwapCities(path: seq<nat>, x: nat, y: nat) returns (res: seq<nat>)
    requires x < |path| && y < |path| && x != y
    ensures res == Apply(path, SwapMove(x, y))
  {
    var a := new nat[|path|](i requires 0 <= i < |path| => path[i]);
    assert a[..] == path;
    Swap(a, x, y);
    res := a[..];
  }

  /** invert_section: entries outside [s, e] are copied, entries inside are
      read from the mirrored position e - (i - s). */
  method InvertSection(path: seq<nat>, x: nat, y: nat) returns (res: seq<nat>)
    requires x < |path| && y < |path| && x != y
    ensures res == Apply(path, InvertMove(x, y))
  {
    var s, e := if x < y then x else y, if x < y then y else x;
    ghost var t := ReverseRange(path, s, e);
    res := [];
    var i := 0;
    while i < |path|
      invariant 0 <= i <= |path|
      invariant res == t[..i]
    {
      assert t[..i + 1] == t[..i] + [t[i]];
      if i >= s && i <= e {
        res := res + [path[e - (i - s)]];
      } else {
        res := res + [path[i]];
      }
      i := i + 1;
    }
    assert t[..|path|] == t;
  }

  /** shift_right: the last entry, then all the others in order. */
  method ShiftRight(arr: seq<nat>) returns (res: seq<nat>)
    requires |arr| > 0
    ensures res == Apply(arr, ShiftMove(true))
  {
    res := [arr[|arr| - 1]];
    var i := 0;
    while i < |arr| - 1
      invariant 0 <= i <= |arr| - 1
      invariant res == [arr[|arr| - 1]] + arr[..i]
    {
      res := res + [arr[i]];
      i := i + 1;
    }
  }

  /** shift_left: all entries after the first, then the first. */
  method ShiftLeft(arr: seq<nat>) returns (res: seq<nat>)
    requires |arr| > 0
    ensures res == Apply(arr, ShiftMove(false))
  {
    res := [];
    var i := 1;
    while i < |arr|
      invariant 1 <= i <= |arr|
      invariant res == arr[1..i]
    {
      res := res + [arr[i]];
      i := i + 1;
    }
    res := res + [arr[0]];
  }

  /** The proposal step of both engines: build the tour move m leads to. */
  method Propose(path: seq<nat>, m: Move) returns (sample: seq<nat>)
    requires Fits(m, |path|)
    ensures sample == Apply(path, m)
  {
    match m
    case SwapMove(x, y) =>
      sample := SwapCities(path, x, y);
    case InvertMove(x, y) =>
      sample := InvertSection(path, x, y);
    case ShiftMove(right) =>
      if right {
        sample := ShiftRight(path);
      } else {
        sample := ShiftLeft(path);
      }
  }
}
