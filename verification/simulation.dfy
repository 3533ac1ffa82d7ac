/** The driver of sim.c: `init_pop`, `calc_function` and the generation loop
    of `main`. The objective `do_func` is a parameter. */
module Simulation {

  import opened Options
  import opened Streams
  import opened Genome
  import opened Wheel
  import opened Reproduction
  import opened Config

  /** The initial population: n genomes `arc4random() % 255`, so the value 255
      never occurs initially. */
  function InitPop(src: Sources, n: nat): (r: (seq<Gene>, Sources))
    ensures |r.0| == n
    ensures forall i :: 0 <= i < n ==> r.0[i] < 255
    ensures r.1.wheel == src.wheel && r.1.rnd == src.rnd
    ensures r.1.arc.at == src.arc.at && r.1.arc.pos == src.arc.pos + n
  {
    var draws := Take(src.arc, n);
    (seq(n, i requires 0 <= i < n => (draws.0[i] % 255) as Gene), src.(arc := draws.1))
  }

  /** `calc_function`: the objective applied to every member. */
  function Evaluate(f: Gene -> real, pop: seq<Gene>): (results: seq<real>)
    ensures |results| == |pop|
    ensures (forall x: Gene :: 0.0 <= f(x)) ==> NonNegative(results)
  {
    var results := seq(|pop|, i requires 0 <= i < |pop| => f(pop[i]));
    assert (forall x: Gene :: 0.0 <= f(x)) ==> NonNegative(results) by {
      if forall x: Gene :: 0.0 <= f(x) {
        forall i | 0 <= i < |results|
          ensures 0.0 <= results[i]
        {
          var x := pop[i];
          assert 0.0 <= f(x);
        }
      }
    }
    results
  }

  /** The values of a fully assigned population. */
  function Values(s: seq<Option<Gene>>): (pop: seq<Gene>)
    requires AllAssigned(s)
    ensures |pop| == |s|
    ensures forall i :: 0 <= i < |s| ==> s[i] == Some(pop[i])
  {
    seq(|s|, i requires 0 <= i < |s| => s[i].value)
  }

  /** Why a run left the real-number model: the results summed to zero (the
      source divides by zero), or a selection slot stayed unassigned (the
      source goes on with an indeterminate genome). */
  datatype Cause = ZeroTotal | UnassignedSlot

  /** The end of a run: the final population with its results and counters,
      or the round at which the source's behaviour stops being determined. */
  datatype Outcome =
    | Completed(pop: seq<Gene>, results: seq<real>, src: Sources, stats: Stats)
    | Stopped(round: nat, cause: Cause, stats: Stats)

  lemma MulStep(k: nat, h: nat)
    ensures (k + 1) * h == k * h + h
  {
  }

  /** Rounds `round` to `rounds - 1` of the generation loop: fitness, wheel,
      reproduction, and the new population's results. */
  function Evolve(f: Gene -> real, pop: seq<Gene>, round: nat, rounds: nat, src: Sources, stats: Stats): (o: Outcome)
    requires |pop| % 2 == 0 && round <= rounds
    ensures o.Completed? ==> |o.pop| == |pop| && o.results == Evaluate(f, o.pop)
    ensures o.Completed? ==> o.stats.cTotal == stats.cTotal + (rounds - round) * (|pop| / 2)
    ensures o.Completed? ==> o.stats.mTotal == stats.mTotal + (rounds - round) * |pop|
    ensures o.Stopped? ==> round <= o.round < rounds
    ensures Consistent(stats) ==> Consistent(o.stats)
    ensures o.Completed? && round == rounds ==> o.pop == pop && o.stats == stats
    decreases rounds - round
  {
    if round == rounds then Completed(pop, Evaluate(f, pop), src, stats)
    else
      match FindFitness(Evaluate(f, pop))
      case None => Stopped(round, ZeroTotal, stats)
      case Some(fitness) =>
        var next := Reproduce(FindSlice(fitness), pop, src, stats);
        if AllAssigned(next.pop) then
          MulStep(rounds - round - 1, |pop| / 2);
          MulStep(rounds - round - 1, |pop|);
          Evolve(f, Values(next.pop), round + 1, rounds, next.src, next.stats)
        else Stopped(round, UnassignedSlot, next.stats)
  }

  /** A whole run of sim.c: N_POP initial genomes, then ROUNDS generations
      with all four counters starting at 0. */
  function Simulate(f: Gene -> real, src: Sources): (o: Outcome)
    ensures o.Completed? ==> |o.pop| == N_POP && o.results == Evaluate(f, o.pop)
    ensures o.Completed? ==> o.stats.cTotal == ROUNDS * (N_POP / 2) && o.stats.mTotal == ROUNDS * N_POP
    ensures Consistent(o.stats)
    ensures o.Stopped? ==> o.round < ROUNDS
  {
    var init := InitPop(src, N_POP);
    Evolve(f, init.0, 0, ROUNDS, init.1, Stats(0, 0, 0, 0))
  }

  /** For a nonnegative objective, a round stops on a zero total exactly when
      every member scores 0. */
  lemma ZeroTotalIffAllScoreZero(f: Gene -> real, pop: seq<Gene>)
    requires forall x: Gene :: 0.0 <= f(x)
    ensures FindFitness(Evaluate(f, pop)).None? <==> forall i :: 0 <= i < |pop| ==> f(pop[i]) == 0.0
  {
    var results := Evaluate(f, pop);
    SumZeroIff(results);
    assert forall i :: 0 <= i < |pop| ==> results[i] == f(pop[i]);
  }

  /** For an objective shaped like `sin(pi * x / 256)` on [0,255] (0 at x = 0,
      positive everywhere else), a round stops on a zero total exactly when
      every member is 0. */
  lemma ZeroTotalIffAllZero(f: Gene -> real, pop: seq<Gene>)
    requires forall x: Gene :: 0.0 <= f(x) && (f(x) == 0.0 <==> x == 0)
    ensures FindFitness(Evaluate(f, pop)).None? <==> forall i :: 0 <= i < |pop| ==> pop[i] == 0
  {
    ZeroTotalIffAllScoreZero(f, pop);
    assert forall i :: 0 <= i < |pop| ==> (f(pop[i]) == 0.0 <==> pop[i] == 0);
  }

  /** For a nonnegative objective, the wheel of every round ends at 1 and a
      round fills every slot exactly when every wheel draw lies strictly in
      (0,1) and on no slice bound. */
  lemma EvaluatedRoundAssignedIff(f: Gene -> real, pop: seq<Gene>, src: Sources, stats: Stats)
    requires |pop| % 2 == 0 && (forall x: Gene :: 0.0 <= f(x))
    requires FindFitness(Evaluate(f, pop)).Some?
    ensures var slice := FindSlice(FindFitness(Evaluate(f, pop)).value);
            var draws := Take(src.wheel, |pop|).0;
            && NonDecreasing(slice) && slice[|slice| - 1] == 1.0
            && (AllAssigned(Reproduce(slice, pop, src, stats).pop) <==>
                  forall i :: 0 <= i < |draws| ==> 0.0 < draws[i] < 1.0 && draws[i] !in slice)
  {
    var results := Evaluate(f, pop);
    WheelEndsAtOne(results);
    RoundAssignedIff(results, pop, src, stats);
  }
}
