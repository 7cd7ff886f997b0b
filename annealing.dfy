/** The simulated-annealing engine of the current solver (src/algo/annealing.rs).
    Each call of `step` either proposes one neighbour of the current tour
    (a "candidate") or, once a batch of candidates is done, checks the stop
    rule and cools the temperature. The random choices of a call (the move,
    its indices and direction, and the uphill draw) are its parameters. */
module Annealing {
  import opened Tour
  import opened Util
  import opened Moves
  import opened Schedule

  datatype Params = Params(startTemp: real, tempMult: real, maxSteps: nat, candidates: nat, maxNoDecrease: nat)

  /** The parameters `init` runs with. */
  const DefaultParams := Params(30.0, 0.95, 200, 200, 50)

  /** The fields step changes. */
  datatype Engine = Engine(
    temperature: real,
    step: nat,
    candidate: nat,
    lastDecrease: nat,
    path: seq<nat>,
    sample: seq<nat>,
    length: real)

  /** What holds between calls on a tour of n cities. */
  ghost predicate Inv(p: Params, w: Weight, n: nat, e: Engine)
  {
    && e.candidate <= p.candidates
    && e.lastDecrease <= e.step
    && e.step <= p.maxSteps + 1
    && IsPerm(e.path, n)
    && IsPerm(e.sample, n)
    && e.length == CyclicLength(w, e.path)
    && e.temperature == Cooled(p.startTemp, p.tempMult, e.step)
  }

  /** A call with the batch not yet full: the proposal of move m always
      becomes the sample, and an accepted one also becomes the path. */
  function Offered(p: Params, w: Weight, e: Engine, m: Move, uphill: bool): (r: Engine)
    requires Fits(m, |e.path|)
    ensures r.sample == Apply(e.path, m) && r.candidate == e.candidate + 1
    ensures r.step == e.step && r.temperature == e.temperature
    ensures || (r.path == e.path && r.length == e.length && r.lastDecrease == e.lastDecrease)
            || (r.path == r.sample && r.length == CyclicLength(w, r.path) && r.lastDecrease == e.step)
    ensures r.length <= e.length || uphill
  {
    var sample := Apply(e.path, m);
    var newLength := CyclicLength(w, sample);
    if Accepts(e.length, newLength, uphill) then
      e.(sample := sample, path := sample, length := newLength,
         lastDecrease := e.step, candidate := e.candidate + 1)
    else
      e.(sample := sample, candidate := e.candidate + 1)
  }

  /** A call at the end of a batch: the candidate count restarts and the stop
      rule is checked; if the search goes on the temperature cools and the
      step counter advances. */
  function BatchEnded(p: Params, e: Engine): (r: (Engine, bool))
    requires e.step > p.maxSteps || e.lastDecrease <= e.step
    ensures r.0.candidate == 0 && r.0.path == e.path && r.0.length == e.length && r.0.sample == e.sample
    ensures r.0.lastDecrease == e.lastDecrease
    ensures r.1 <==> Stops(p.maxSteps, p.maxNoDecrease, e.step, e.lastDecrease)
    ensures r.1 ==> r.0.step == e.step && r.0.temperature == e.temperature
    ensures !r.1 ==> r.0.step == e.step + 1 && r.0.temperature == e.temperature * p.tempMult
  {
    if Stops(p.maxSteps, p.maxNoDecrease, e.step, e.lastDecrease) then
      (e.(candidate := 0), true)
    else
      (e.(candidate := 0, temperature := e.temperature * p.tempMult, step := e.step + 1), false)
  }

  /** One call of step: the engine after it, and whether the search is over. */
  function Next(p: Params, w: Weight, e: Engine, m: Move, uphill: bool): (r: (Engine, bool))
    requires e.candidate < p.candidates ==> Fits(m, |e.path|)
    requires e.candidate >= p.candidates ==> e.step > p.maxSteps || e.lastDecrease <= e.step
    ensures r.1 ==> e.candidate >= p.candidates
    ensures e.candidate < p.candidates ==> r.0.candidate == e.candidate + 1 && r.0.step == e.step
    ensures e.candidate >= p.candidates ==> r.0.candidate == 0 && r.0.path == e.path
    ensures r.0.length <= e.length || (uphill && e.candidate < p.candidates)
  {
    if e.candidate < p.candidates then (Offered(p, w, e, m, uphill), false) else BatchEnded(p, e)
  }

  /** Every call keeps the counters in range, the path and the sample tours
      of all n cities, the length that of the path, and the temperature the
      start temperature cooled once per step. */
  lemma NextKeepsInv(p: Params, w: Weight, n: nat, e: Engine, m: Move, uphill: bool)
    requires Inv(p, w, n, e)
    requires e.candidate < p.candidates ==> Fits(m, |e.path|)
    ensures Inv(p, w, n, Next(p, w, e, m, uphill).0)
  {
    if e.candidate < p.candidates {
      OfferKeepsInv(p, w, n, e, m, uphill);
    } else {
      BatchEndKeepsInv(p, w, n, e);
    }
  }

  lemma OfferKeepsInv(p: Params, w: Weight, n: nat, e: Engine, m: Move, uphill: bool)
    requires Inv(p, w, n, e) && e.candidate < p.candidates && Fits(m, |e.path|)
    ensures Inv(p, w, n, Offered(p, w, e, m, uphill))
  {
    ApplyPermutes(e.path, m, n);
  }

  lemma BatchEndKeepsInv(p: Params, w: Weight, n: nat, e: Engine)
    requires Inv(p, w, n, e)
    ensures Inv(p, w, n, BatchEnded(p, e).0)
  {
    if !Stops(p.maxSteps, p.maxNoDecrease, e.step, e.lastDecrease) {
      assert Cooled(p.startTemp, p.tempMult, e.step + 1) == e.temperature * p.tempMult;
    }
  }

  /** The counters advance in lexicographic order (step, candidate) on every
      call that does not stop, and they are bounded by Inv, so the search
      stops; a call at the last step with a full batch stops. */
  lemma NextProgress(p: Params, w: Weight, n: nat, e: Engine, m: Move, uphill: bool)
    requires Inv(p, w, n, e)
    requires e.candidate < p.candidates ==> Fits(m, |e.path|)
    ensures var (r, done) := Next(p, w, e, m, uphill);
      !done ==> r.step > e.step || (r.step == e.step && r.candidate > e.candidate)
    ensures e.step == p.maxSteps + 1 && e.candidate == p.candidates ==> Next(p, w, e, m, uphill).1
    ensures Next(p, w, e, m, uphill).1 ==> e.candidate == p.candidates
  {
  }

  /** A proposal no longer than the current tour is taken without consulting
      the uphill draw, and it records the current step as the last decrease. */
  lemma DownhillAccepted(p: Params, w: Weight, e: Engine, m: Move, uphill: bool)
    requires e.candidate < p.candidates && Fits(m, |e.path|)
    requires CyclicLength(w, Apply(e.path, m)) <= e.length
    ensures Next(p, w, e, m, uphill) == Next(p, w, e, m, !uphill)
    ensures Next(p, w, e, m, uphill).0.path == Apply(e.path, m)
    ensures Next(p, w, e, m, uphill).0.lastDecrease == e.step
  {
  }

  /** A refused proposal still becomes the sample; nothing else but the
      candidate count changes. */
  lemma UphillRefused(p: Params, w: Weight, e: Engine, m: Move)
    requires e.candidate < p.candidates && Fits(m, |e.path|)
    requires CyclicLength(w, Apply(e.path, m)) > e.length
    ensures Next(p, w, e, m, false).0 == e.(sample := Apply(e.path, m), candidate := e.candidate + 1)
  {
  }

  /** Without a successful uphill draw the length of the path never grows. */
  lemma NoUphillNoIncrease(p: Params, w: Weight, e: Engine, m: Move)
    requires e.candidate < p.candidates ==> Fits(m, |e.path|)
    requires e.candidate >= p.candidates ==> e.step > p.maxSteps || e.lastDecrease <= e.step
    ensures Next(p, w, e, m, false).0.length <= e.length
  {
  }

  /** The end of a batch leaves the tours alone; it cools exactly when the
      search goes on. */
  lemma BatchEnd(p: Params, w: Weight, e: Engine, m: Move, uphill: bool)
    requires e.candidate >= p.candidates
    requires e.step > p.maxSteps || e.lastDecrease <= e.step
    ensures var (r, done) := Next(p, w, e, m, uphill);
      && r.candidate == 0 && r.path == e.path && r.sample == e.sample && r.length == e.length
      && r.lastDecrease == e.lastDecrease
      && done == (e.step > p.maxSteps || e.step - e.lastDecrease > p.maxNoDecrease)
      && (done ==> r.step == e.step && r.temperature == e.temperature)
      && (!done ==> r.step == e.step + 1 && r.temperature == e.temperature * p.tempMult)
  {
  }

  class Annealing {
    const param: Params
    const distance: seq<seq<real>>
    /** The number of cities. */
    const n: nat
    var temperature: real
    var step: nat
    var candidate: nat
    var lastDecrease: nat
    var path: seq<nat>
    var sample: seq<nat>
    var length: real

    function Weight(): Weight
    {
      MatrixWeight(distance)
    }

    function Snapshot(): Engine
      reads this
    {
      Engine(temperature, step, candidate, lastDecrease, path, sample, length)
    }

    ghost predicate Valid()
      reads this
    {
      Inv(param, Weight(), n, Snapshot())
    }

    /** new: fill the distance table, build the random-insertion tour from
        `picks`, and measure it. */
    constructor New(cities: seq<City>, sqrt: real -> real, param: Params, picks: seq<nat>)
      requires |picks| == |cities| && ValidPicks(picks)
      ensures Valid()
      ensures this.param == param && n == |cities|
      ensures distance == DistanceTable(cities, Euclid(sqrt))
      ensures Snapshot() == Engine(param.startTemp, 0, 0, 0, Insertions(picks), Insertions(picks),
                                   CyclicLength(MatrixWeight(distance), Insertions(picks)))
    {
      var d := BuildDistance(cities, Euclid(sqrt));
      var tour := InsertionPath(picks);
      InsertionsPermute(picks);
      var len := MeasureCycle(MatrixWeight(d), tour);
      this.param := param;
      distance := d;
      n := |cities|;
      temperature := param.startTemp;
      step, candidate, lastDecrease := 0, 0, 0;
      sample := tour;
      path := tour;
      length := len;
    }

    /** init: new with the default parameters. */
    static method Init(cities: seq<City>, sqrt: real -> real, picks: seq<nat>) returns (a: Annealing)
      requires |picks| == |cities| && ValidPicks(picks)
      ensures fresh(a) && a.Valid()
      ensures a.param == DefaultParams && a.n == |cities|
      ensures a.distance == DistanceTable(cities, Euclid(sqrt))
      ensures a.Snapshot() == Engine(DefaultParams.startTemp, 0, 0, 0, Insertions(picks), Insertions(picks),
                                     CyclicLength(a.Weight(), Insertions(picks)))
    {
      a := new Annealing.New(cities, sqrt, DefaultParams, picks);
    }

    /** state: the length, the path and the sample. */
    function State(): (r: (real, seq<nat>, seq<nat>))
      reads this
      requires Valid()
      ensures IsPerm(r.1, n) && IsPerm(r.2, n)
      ensures r.0 == CyclicLength(Weight(), r.1)
    {
      (length, path, sample)
    }

    /** The first branch of step: propose move m, measure the proposal,
        and take it when it is no longer or when the uphill draw allows. */
    method Offer(m: Move, uphill: bool)
      requires Valid() && candidate < param.candidates && Fits(m, |path|)
      modifies this
      ensures Valid()
      ensures Snapshot() == Offered(param, Weight(), old(Snapshot()), m, uphill)
    {
      ghost var before := Snapshot();
      OfferKeepsInv(param, Weight(), n, before, m, uphill);
      sample := Propose(path, m);
      var newLength := MeasureCycle(Weight(), sample);
      var deltaE := length - newLength;
      var accept := if deltaE >= 0.0 then true else uphill;
      assert accept == Accepts(before.length, newLength, uphill);
      if accept {
        path, length, lastDecrease := sample, newLength, step;
      }
      candidate := candidate + 1;
    }

    /** The second branch of step: restart the batch, then stop or cool. */
    method EndBatch() returns (done: bool)
      requires Valid() && candidate >= param.candidates
      modifies this
      ensures Valid()
      ensures (Snapshot(), done) == BatchEnded(param, old(Snapshot()))
    {
      BatchEndKeepsInv(param, Weight(), n, Snapshot());
      candidate := 0;
      if step > param.maxSteps || step - lastDecrease > param.maxNoDecrease {
        return true;
      }
      temperature, step := temperature * param.tempMult, step + 1;
      return false;
    }

    /** step with the move m drawn for it and the outcome `uphill` of the
        acceptance draw for a longer proposal. */
    method Step(m: Move, uphill: bool) returns (done: bool)
      requires Valid()
      requires candidate < param.candidates ==> Fits(m, |path|)
      modifies this
      ensures Valid()
      ensures (Snapshot(), done) == Next(param, Weight(), old(Snapshot()), m, uphill)
    {
      if candidate < param.candidates {
        Offer(m, uphill);
        return false;
      }
      done := EndBatch();
    }
  }
}
