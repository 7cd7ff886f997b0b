/** The simulated-annealing engine of the older solver
    (tsp-rust/src/algo/annealing.rs). It differs from the current one in
    three ways: there is no start temperature parameter (the temperature
    starts at 1.0), there is no separate sample (a refused proposal is simply
    dropped), and the default batch sizes are larger. */
module LegacyAnnealing {
  import opened Tour
  import opened Util
  import opened Moves
  import opened Schedule

  datatype Params = Params(tempMult: real, maxSteps: nat, candidates: nat, maxNoDecrease: nat)

  /** The parameters `init` runs with. */
  const DefaultParams := Params(0.95, 500, 500, 50)

  /** The temperature every engine starts from, whatever its parameters. */
  const StartTemp: real := 1.0

  /** The fields step changes. */
  datatype Engine = Engine(
    temperature: real,
    step: nat,
    candidate: nat,
    lastDecrease: nat,
    path: seq<nat>,
    length: real)

  /** What holds between calls on a tour of n cities. */
  ghost predicate Inv(p: Params, w: Weight, n: nat, e: Engine)
  {
    && e.candidate <= p.candidates
    && e.lastDecrease <= e.step
    && e.step <= p.maxSteps + 1
    && IsPerm(e.path, n)
    && e.length == CyclicLength(w, e.path)
    && e.temperature == Cooled(StartTemp, p.tempMult, e.step)
  }

  /** A call with the batch not yet full: an accepted proposal replaces the
      path; a refused one is dropped. */
  function Offered(p: Params, w: Weight, e: Engine, m: Move, uphill: bool): (r: Engine)
    requires Fits(m, |e.path|)
    ensures r.candidate == e.candidate + 1 && r.step == e.step && r.temperature == e.temperature
    ensures || (r.path == e.path && r.length == e.length && r.lastDecrease == e.lastDecrease)
            || (r.path == Apply(e.path, m) && r.length == CyclicLength(w, r.path) && r.lastDecrease == e.step)
    ensures r.length <= e.length || uphill
  {
    var newPath := Apply(e.path, m);
    var newLength := CyclicLength(w, newPath);
    if Accepts(e.length, newLength, uphill) then
      e.(path := newPath, length := newLength, lastDecrease := e.step, candidate := e.candidate + 1)
    else
      e.(candidate := e.candidate + 1)
  }

  /** A call at the end of a batch: the candidate count restarts and the stop
      rule is checked; if the search goes on the temperature cools and the
      step counter advances. */
  function BatchEnded(p: Params, e: Engine): (r: (Engine, bool))
    requires e.step > p.maxSteps || e.lastDecrease <= e.step
    ensures r.0.candidate == 0 && r.0.path == e.path && r.0.length == e.length
    ensures r.0.lastDecrease == e.lastDecrease
    ensures r.1 <==> Stops(p.maxSteps, p.maxNoDecrease, e.step, e.lastDecrease)
    ensures r.1 ==> r.0.step == e.step && r.0.temperature == e.temperature
    ensures !r.1 ==> r.0.step == e.step + 1 && r.0.temperature == e.temperature * p.tempMult
  {
    if Stops(p.maxSteps, p.maxNoDecrease, e.step, e.lastDecrease) then
      (e.(candidate := 0), true)
    else
      (e.(candidate := 0, temperature := e.temperature * p.tempMult, step := e.step + 1), false)
  }

  /** One call of step: the engine after it, and whether the search is over. */
  function Next(p: Params, w: Weight, e: Engine, m: Move, uphill: bool): (r: (Engine, bool))
    requires e.candidate < p.candidates ==> Fits(m, |e.path|)
    requires e.candidate >= p.candidates ==> e.step > p.maxSteps || e.lastDecrease <= e.step
    ensures r.1 ==> e.candidate >= p.candidates
    ensures e.candidate < p.candidates ==> r.0.candidate == e.candidate + 1 && r.0.step == e.step
    ensures e.candidate >= p.candidates ==> r.0.candidate == 0 && r.0.path == e.path
    ensures r.0.length <= e.length || (uphill && e.candidate < p.candidates)
  {
    if e.candidate < p.candidates then (Offered(p, w, e, m, uphill), false) else BatchEnded(p, e)
  }

  /** Every call keeps the counters in range, the path a tour of all n
      cities, the length that of the path, and the temperature 1.0 cooled
      once per step. */
  lemma NextKeepsInv(p: Params, w: Weight, n: nat, e: Engine, m: Move, uphill: bool)
    requires Inv(p, w, n, e)
    requires e.candidate < p.candidates ==> Fits(m, |e.path|)
    ensures Inv(p, w, n, Next(p, w, e, m, uphill).0)
  {
    if e.candidate < p.candidates {
      OfferKeepsInv(p, w, n, e, m, uphill);
    } else {
      BatchEndKeepsInv(p, w, n, e);
    }
  }

  lemma OfferKeepsInv(p: Params, w: Weight, n: nat, e: Engine, m: Move, uphill: bool)
    requires Inv(p, w, n, e) && e.candidate < p.candidates && Fits(m, |e.path|)
    ensures Inv(p, w, n, Offered(p, w, e, m, uphill))
  {
    ApplyPermutes(e.path, m, n);
  }

  lemma BatchEndKeepsInv(p: Params, w: Weight, n: nat, e: Engine)
    requires Inv(p, w, n, e)
    ensures Inv(p, w, n, BatchEnded(p, e).0)
  {
    if !Stops(p.maxSteps, p.maxNoDecrease, e.step, e.lastDecrease) {
      assert Cooled(StartTemp, p.tempMult, e.step + 1) == e.temperature * p.tempMult;
    }
  }

  /** The counters advance in lexicographic order (step, candidate) on every
      call that does not stop; a call at the last step with a full batch stops. */
  lemma NextProgress(p: Params, w: Weight, n: nat, e: Engine, m: Move, uphill: bool)
    requires Inv(p, w, n, e)
    requires e.candidate < p.candidates ==> Fits(m, |e.path|)
    ensures var (r, done) := Next(p, w, e, m, uphill);
      !done ==> r.step > e.step || (r.step == e.step && r.candidate > e.candidate)
    ensures e.step == p.maxSteps + 1 && e.candidate == p.candidates ==> Next(p, w, e, m, uphill).1
    ensures Next(p, w, e, m, uphill).1 ==> e.candidate == p.candidates
  {
  }

  /** A proposal no longer than the current tour replaces it without a draw;
      a longer one refused by the draw leaves everything but the candidate
      count as it was. */
  lemma Acceptance(p: Params, w: Weight, e: Engine, m: Move, uphill: bool)
    requires e.candidate < p.candidates && Fits(m, |e.path|)
    ensures CyclicLength(w, Apply(e.path, m)) <= e.length ==>
      Next(p, w, e, m, uphill) == Next(p, w, e, m, !uphill) &&
      Next(p, w, e, m, uphill).0.path == Apply(e.path, m) &&
      Next(p, w, e, m, uphill).0.lastDecrease == e.step
    ensures CyclicLength(w, Apply(e.path, m)) > e.length ==>
      Next(p, w, e, m, false).0 == e.(candidate := e.candidate + 1)
  {
  }

  /** The end of a batch leaves the tour alone; it cools exactly when the
      search goes on. */
  lemma BatchEnd(p: Params, w: Weight, e: Engine, m: Move, uphill: bool)
    requires e.candidate >= p.candidates
    requires e.step > p.maxSteps || e.lastDecrease <= e.step
    ensures var (r, done) := Next(p, w, e, m, uphill);
      && r.candidate == 0 && r.path == e.path && r.length == e.length
      && r.lastDecrease == e.lastDecrease
      && done == (e.step > p.maxSteps || e.step - e.lastDecrease > p.maxNoDecrease)
      && (done ==> r.step == e.step && r.temperature == e.temperature)
      && (!done ==> r.step == e.step + 1 && r.temperature == e.temperature * p.tempMult)
  {
  }

  class Annealing {
    const param: Params
    const distance: seq<seq<real>>
    /** The number of cities. */
    const n: nat
    var temperature: real
    var step: nat
    var candidate: nat
    var lastDecrease: nat
    var path: seq<nat>
    var length: real

    function Weight(): Weight
    {
      MatrixWeight(distance)
    }

    function Snapshot(): Engine
      reads this
    {
      Engine(temperature, step, candidate, lastDecrease, path, length)
    }

    ghost predicate Valid()
      reads this
    {
      Inv(param, Weight(), n, Snapshot())
    }

    /** new: fill the distance table, build the random-insertion tour from
        `picks`, and measure it; the temperature starts at 1.0. */
    constructor New(cities: seq<City>, sqrt: real -> real, param: Params, picks: seq<nat>)
      requires |picks| == |cities| && ValidPicks(picks)
      ensures Valid()
      ensures this.param == param && n == |cities|
      ensures distance == DistanceTable(cities, Euclid(sqrt))
      ensures Snapshot() == Engine(StartTemp, 0, 0, 0, Insertions(picks),
                                   CyclicLength(MatrixWeight(distance), Insertions(picks)))
    {
      var d := BuildDistance(cities, Euclid(sqrt));
      var tour := InsertionPath(picks);
      InsertionsPermute(picks);
      var len := MeasureCycle(MatrixWeight(d), tour);
      this.param := param;
      distance := d;
      n := |cities|;
      temperature := 1.0;
      step, candidate, lastDecrease := 0, 0, 0;
      path := tour;
      length := len;
    }

    /** init: new with the default parameters. */
    static method Init(cities: seq<City>, sqrt: real -> real, picks: seq<nat>) returns (a: Annealing)
      requires |picks| == |cities| && ValidPicks(picks)
      ensures fresh(a) && a.Valid()
      ensures a.param == DefaultParams && a.n == |cities|
      ensures a.distance == DistanceTable(cities, Euclid(sqrt))
      ensures a.Snapshot() == Engine(StartTemp, 0, 0, 0, Insertions(picks),
                                     CyclicLength(a.Weight(), Insertions(picks)))
    {
      a := new Annealing.New(cities, sqrt, DefaultParams, picks);
    }

    /** state: the length and the path. */
    function State(): (r: (real, seq<nat>))
      reads this
      requires Valid()
      ensures IsPerm(r.1, n)
      ensures r.0 == CyclicLength(Weight(), r.1)
    {
      (length, path)
    }

    /** The first branch of step: propose move m, measure the proposal,
        and take it when it is no longer or when the uphill draw allows. */
    method Offer(m: Move, uphill: bool)
      requires Valid() && candidate < param.candidates && Fits(m, |path|)
      modifies this
      ensures Valid()
      ensures Snapshot() == Offered(param, Weight(), old(Snapshot()), m, uphill)
    {
      ghost var before := Snapshot();
      OfferKeepsInv(param, Weight(), n, before, m, uphill);
      var newPath := Propose(path, m);
      var newLength := MeasureCycle(Weight(), newPath);
      var deltaE := length - newLength;
      var accept := if deltaE >= 0.0 then true else uphill;
      assert accept == Accepts(before.length, newLength, uphill);
      if accept {
        path, length, lastDecrease, candidate := newPath, newLength, step, candidate + 1;
      } else {
        candidate := candidate + 1;
      }
    }

    /** The second branch of step: restart the batch, then stop or cool. */
    method EndBatch() returns (done: bool)
      requires Valid() && candidate >= param.candidates
      modifies this
      ensures Valid()
      ensures (Snapshot(), done) == BatchEnded(param, old(Snapshot()))
    {
      BatchEndKeepsInv(param, Weight(), n, Snapshot());
      candidate := 0;
      if step > param.maxSteps || step - lastDecrease > param.maxNoDecrease {
        return true;
      }
      temperature, step := temperature * param.tempMult, step + 1;
      return false;
    }

    /** step with the move m drawn for it and the outcome `uphill` of the
        acceptance draw for a longer proposal. */
    method Step(m: Move, uphill: bool) returns (done: bool)
      requires Valid()
      requires candidate < param.candidates ==> Fits(m, |path|)
      modifies this
      ensures Valid()
      ensures (Snapshot(), done) == Next(param, Weight(), old(Snapshot()), m, uphill)
    {
      if candidate < param.candidates {
        Offer(m, uphill);
        return false;
      }
      done := EndBatch();
    }
  }
}
