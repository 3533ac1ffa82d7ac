/** One call of `reproduce` in sim.c: roulette selection into a fresh
    population, pairwise crossover, mutation, and the four statistics counters.

    The three random generators become explicit streams of draws:
    `wheel` holds the `drand48` values of `init_random`, `rnd` the `rand()`
    values deciding crossovers, and `arc` the `arc4random()` values (crossover
    masks, then one decision per slot and a bit index for each mutation). */
module Reproduction {

  import opened Options
  import opened Streams
  import opened Genome
  import opened Wheel
  import opened Config

  /** The global counters `m_total`, `m_count`, `c_total`, `c_count`. */
  datatype Stats = Stats(mTotal: nat, mCount: nat, cTotal: nat, cCount: nat)

  /** Occurrences never exceed attempts. */
  predicate Consistent(s: Stats) {
    s.cCount <= s.cTotal && s.mCount <= s.mTotal
  }

  /** The random sources of one run. */
  datatype Sources = Sources(wheel: Stream<real>, rnd: Stream<nat>, arc: Stream<nat>)

  /** A population in the making: slots the selection left unassigned are `None`. */
  datatype Step = Step(pop: seq<Option<Gene>>, src: Sources, stats: Stats)

  /** `prob = 1.0 * j / 1000` for `j = draw % 1000`. */
  function Probability(d: nat): real {
    (d % 1000) as real / 1000.0
  }

  /** A pair is skipped when its probability is at least `C_RATE`. */
  predicate CrossoverSkips(d: nat) {
    Probability(d) >= C_RATE
  }

  /** A genome mutates when its probability is at most `M_RATE`. */
  predicate MutationHappens(d: nat) {
    Probability(d) <= M_RATE
  }

  /** The crossover test on the draw: a pair is skipped exactly when
      `j = d % 1000` is 800 or more. */
  lemma CrossoverGate(d: nat)
    ensures CrossoverSkips(d) <==> d % 1000 >= 800
  {
  }

  /** The mutation test on the draw: a genome mutates exactly when
      `j = d % 1000` is 0 or 1. */
  lemma MutationGate(d: nat)
    ensures MutationHappens(d) <==> d % 1000 <= 1
  {
  }

  /** The outcome of crossing over a pair of slots: two assigned parents give
      two assigned children that recombine their bits; a pair with an
      unassigned member gives two unassigned children. */
  predicate PairRecombined(a: Option<Gene>, b: Option<Gene>, c1: Option<Gene>, c2: Option<Gene>) {
    if a.Some? && b.Some?
    then c1.Some? && c2.Some? && Recombination(a.value, b.value, Children(c1.value, c2.value))
    else c1.None? && c2.None?
  }

  /** The pair (a, b) crossed with the mask drawn as `d % 100`; a pair with an
      unassigned member gives two unassigned children. */
  predicate PairCrossed(a: Option<Gene>, b: Option<Gene>, c1: Option<Gene>, c2: Option<Gene>, d: nat) {
    if a.Some? && b.Some?
    then var c := Crossover(a.value, b.value, CrossoverMask(d));
         c1 == Some(c.first) && c2 == Some(c.second)
    else c1.None? && c2.None?
  }

  /** A pair crossed with a drawn mask is recombined. */
  lemma PairCrossedIsRecombined(a: Option<Gene>, b: Option<Gene>, c1: Option<Gene>, c2: Option<Gene>, d: nat)
    requires PairCrossed(a, b, c1, c2, d)
    ensures PairRecombined(a, b, c1, c2)
  {
    if a.Some? && b.Some? {
      DrawnCrossoverIsRecombination(a.value, b.value, d);
    }
  }

  /** One iteration of the crossover loop on the pair (a, b). */
  function CrossPair(a: Option<Gene>, b: Option<Gene>, src: Sources, stats: Stats): (r: Step)
    ensures |r.pop| == 2
    ensures r.src.wheel == src.wheel && r.src.rnd == src.rnd.Tail()
    ensures r.stats.cTotal == stats.cTotal + 1
    ensures r.stats.mTotal == stats.mTotal && r.stats.mCount == stats.mCount
    ensures CrossoverSkips(src.rnd.Head()) ==>
              r.pop == [a, b] && r.src.arc == src.arc && r.stats.cCount == stats.cCount
    ensures !CrossoverSkips(src.rnd.Head()) ==>
              && r.src.arc == src.arc.Tail()
              && r.stats.cCount == stats.cCount + 1
              && PairRecombined(a, b, r.pop[0], r.pop[1])
              && PairCrossed(a, b, r.pop[0], r.pop[1], src.arc.Head())
  {
    var j := src.rnd.Head();
    var tried := stats.(cTotal := stats.cTotal + 1);
    if CrossoverSkips(j) then
      Step([a, b], src.(rnd := src.rnd.Tail()), tried)
    else
      var d := src.arc.Head();
      var children :=
        if a.Some? && b.Some? then
          var c := Crossover(a.value, b.value, CrossoverMask(d));
          DrawnCrossoverIsRecombination(a.value, b.value, d);
          [Some(c.first), Some(c.second)]
        else [None, None];
      Step(children, Sources(src.wheel, src.rnd.Tail(), src.arc.Tail()), tried.(cCount := tried.cCount + 1))
  }

  /** What the crossover loop did to pair p of `before`, whose draw is
      `rnd.at(rnd.pos + p)`: kept it when the draw skips, and otherwise crossed
      it with the mask of the arc draw that follows the masks of the earlier
      crossed pairs, `arc.at(arc.pos + Crossings(rnd, p))`. */
  predicate PairOutcome(before: seq<Option<Gene>>, after: seq<Option<Gene>>, rnd: Stream<nat>, arc: Stream<nat>, p: nat)
    requires |before| == |after| && 2 * p + 1 < |before|
  {
    if CrossoverSkips(rnd.at(rnd.pos + p))
    then after[2 * p] == before[2 * p] && after[2 * p + 1] == before[2 * p + 1]
    else PairCrossed(before[2 * p], before[2 * p + 1], after[2 * p], after[2 * p + 1], arc.at(arc.pos + Crossings(rnd, p)))
  }

  /** A pair the crossover loop crossed is recombined. */
  lemma PairOutcomeRecombines(before: seq<Option<Gene>>, after: seq<Option<Gene>>, rnd: Stream<nat>, arc: Stream<nat>, p: nat)
    requires |before| == |after| && 2 * p + 1 < |before|
    requires PairOutcome(before, after, rnd, arc, p) && !CrossoverSkips(rnd.at(rnd.pos + p))
    ensures PairRecombined(before[2 * p], before[2 * p + 1], after[2 * p], after[2 * p + 1])
  {
    PairCrossedIsRecombined(before[2 * p], before[2 * p + 1], after[2 * p], after[2 * p + 1],
                            arc.at(arc.pos + Crossings(rnd, p)));
  }

  /** How many of the next n crossover draws lead to a crossover. */
  function Crossings(rnd: Stream<nat>, n: nat): (count: nat)
    ensures count <= n
    decreases n
  {
    if n == 0 then 0
    else (if CrossoverSkips(rnd.Head()) then 0 else 1) + Crossings(rnd.Tail(), n - 1)
  }

  /** Every slot is assigned. */
  predicate AllAssigned(s: seq<Option<Gene>>) {
    forall i :: 0 <= i < |s| ==> s[i].Some?
  }

  lemma AllAssignedConcat(a: seq<Option<Gene>>, b: seq<Option<Gene>>)
    ensures AllAssigned(a + b) <==> AllAssigned(a) && AllAssigned(b)
  {
    if AllAssigned(a + b) {
      forall i | 0 <= i < |a|
        ensures a[i].Some?
      {
        assert a[i] == (a + b)[i];
      }
      forall i | 0 <= i < |b|
        ensures b[i].Some?
      {
        assert b[i] == (a + b)[|a| + i];
      }
    }
    if AllAssigned(a) && AllAssigned(b) {
      forall i | 0 <= i < |a + b|
        ensures (a + b)[i].Some?
      {
        if i >= |a| {
          assert (a + b)[i] == b[i - |a|];
        }
      }
    }
  }

  lemma PairOutcomesCombine(pop: seq<Option<Gene>>, rnd: Stream<nat>, arc: Stream<nat>, restArc: Stream<nat>,
                            first: seq<Option<Gene>>, rest: seq<Option<Gene>>)
    requires |pop| >= 2 && |pop| % 2 == 0 && |first| == 2 && |rest| == |pop| - 2
    requires CrossoverSkips(rnd.Head()) ==> first == [pop[0], pop[1]]
    requires !CrossoverSkips(rnd.Head()) ==> PairCrossed(pop[0], pop[1], first[0], first[1], arc.Head())
    requires restArc.at == arc.at && restArc.pos == arc.pos + (if CrossoverSkips(rnd.Head()) then 0 else 1)
    requires forall p :: 0 <= p < |rest| / 2 ==> PairOutcome(pop[2..], rest, rnd.Tail(), restArc, p)
    ensures forall p :: 0 <= p < |pop| / 2 ==> PairOutcome(pop, first + rest, rnd, arc, p)
  {
    forall p | 0 <= p < |pop| / 2
      ensures PairOutcome(pop, first + rest, rnd, arc, p)
    {
      if p > 0 {
        LaterPairOutcome(pop, rnd, arc, restArc, first, rest, p);
      }
    }
  }

  lemma LaterPairOutcome(pop: seq<Option<Gene>>, rnd: Stream<nat>, arc: Stream<nat>, restArc: Stream<nat>,
                         first: seq<Option<Gene>>, rest: seq<Option<Gene>>, p: nat)
    requires |pop| >= 2 && |first| == 2 && |rest| == |pop| - 2 && 0 < p && 2 * p + 1 < |pop|
    requires restArc.at == arc.at && restArc.pos == arc.pos + (if CrossoverSkips(rnd.Head()) then 0 else 1)
    requires PairOutcome(pop[2..], rest, rnd.Tail(), restArc, p - 1)
    ensures PairOutcome(pop, first + rest, rnd, arc, p)
  {
    var after := first + rest;
    assert after[2 * p] == rest[2 * (p - 1)] && after[2 * p + 1] == rest[2 * (p - 1) + 1];
    assert pop[2 * p] == pop[2..][2 * (p - 1)] && pop[2 * p + 1] == pop[2..][2 * (p - 1) + 1];
    assert rnd.Tail().at(rnd.Tail().pos + (p - 1)) == rnd.at(rnd.pos + p);
    assert restArc.pos + Crossings(rnd.Tail(), p - 1) == arc.pos + Crossings(rnd, p);
  }

  lemma PairKeepsAssignment(a: Option<Gene>, b: Option<Gene>, first: seq<Option<Gene>>, d: nat)
    requires |first| == 2
    requires CrossoverSkips(d) ==> first == [a, b]
    requires !CrossoverSkips(d) ==> PairRecombined(a, b, first[0], first[1])
    ensures AllAssigned(first) <==> AllAssigned([a, b])
  {
    assert AllAssigned(first) <==> first[0].Some? && first[1].Some?;
    assert [a, b][0] == a && [a, b][1] == b;
  }

  /** The crossover loop over the pairs (0,1), (2,3), ...: one `rand()` draw
      per pair, one `arc4random()` draw per crossover, `c_total` up by one per
      pair and `c_count` by one per crossover. */
  function CrossoverPass(pop: seq<Option<Gene>>, src: Sources, stats: Stats): (r: Step)
    requires |pop| % 2 == 0
    ensures |r.pop| == |pop|
    ensures r.src.wheel == src.wheel
    ensures r.src.rnd.at == src.rnd.at && r.src.rnd.pos == src.rnd.pos + |pop| / 2
    ensures r.stats.cTotal == stats.cTotal + |pop| / 2
    ensures r.stats.cCount == stats.cCount + Crossings(src.rnd, |pop| / 2)
    ensures r.src.arc.at == src.arc.at && r.src.arc.pos == src.arc.pos + Crossings(src.rnd, |pop| / 2)
    ensures r.stats.mTotal == stats.mTotal && r.stats.mCount == stats.mCount
    decreases |pop|
  {
    if |pop| == 0 then Step([], src, stats)
    else
      var first := CrossPair(pop[0], pop[1], src, stats);
      var rest := CrossoverPass(pop[2..], first.src, first.stats);
      assert |pop[2..]| / 2 == |pop| / 2 - 1;
      Step(first.pop + rest.pop, rest.src, rest.stats)
  }

  /** Pair p of the crossover loop's output is pair p of its input, kept when
      the pair's draw `rnd.at(rnd.pos + p)` skips, and otherwise crossed with
      the mask of its own arc draw. */
  lemma {:induction false} CrossoverPassPairs(pop: seq<Option<Gene>>, src: Sources, stats: Stats)
    requires |pop| % 2 == 0
    ensures forall p :: 0 <= p < |pop| / 2 ==> PairOutcome(pop, CrossoverPass(pop, src, stats).pop, src.rnd, src.arc, p)
    decreases |pop|
  {
    if |pop| > 0 {
      var first := CrossPair(pop[0], pop[1], src, stats);
      CrossoverPassPairs(pop[2..], first.src, first.stats);
      var rest := CrossoverPass(pop[2..], first.src, first.stats);
      PairOutcomesCombine(pop, src.rnd, src.arc, first.src.arc, first.pop, rest.pop);
    }
  }

  /** The crossover loop leaves every slot assigned exactly when every slot
      was assigned before it. */
  lemma {:induction false} CrossoverPassAssignment(pop: seq<Option<Gene>>, src: Sources, stats: Stats)
    requires |pop| % 2 == 0
    ensures AllAssigned(CrossoverPass(pop, src, stats).pop) <==> AllAssigned(pop)
    decreases |pop|
  {
    if |pop| > 0 {
      var first := CrossPair(pop[0], pop[1], src, stats);
      CrossoverPassAssignment(pop[2..], first.src, first.stats);
      var rest := CrossoverPass(pop[2..], first.src, first.stats);
      assert pop == [pop[0], pop[1]] + pop[2..];
      AllAssignedConcat([pop[0], pop[1]], pop[2..]);
      AllAssignedConcat(first.pop, rest.pop);
      PairKeepsAssignment(pop[0], pop[1], first.pop, src.rnd.Head());
    }
  }

  /** The outcome of mutating a slot: an assigned genome becomes a genome one
      bit apart; an unassigned slot stays unassigned. */
  predicate SlotMutated(x: Option<Gene>, y: Option<Gene>) {
    if x.Some? then y.Some? && OneBitApart(x.value, y.value) else y.None?
  }

  /** One iteration of the mutation loop on slot x. */
  function MutateSlot(x: Option<Gene>, src: Sources, stats: Stats): (r: Step)
    ensures |r.pop| == 1
    ensures r.src.wheel == src.wheel && r.src.rnd == src.rnd
    ensures r.stats.mTotal == stats.mTotal + 1
    ensures r.stats.cTotal == stats.cTotal && r.stats.cCount == stats.cCount
    ensures !MutationHappens(src.arc.Head()) ==>
              r.pop == [x] && r.src.arc == src.arc.Tail() && r.stats.mCount == stats.mCount
    ensures MutationHappens(src.arc.Head()) ==>
              && r.src.arc == src.arc.Tail().Tail()
              && r.stats.mCount == stats.mCount + 1
              && SlotMutated(x, r.pop[0])
  {
    var j := src.arc.Head();
    var tried := stats.(mTotal := stats.mTotal + 1);
    var rest := src.arc.Tail();
    if !MutationHappens(j) then
      Step([x], src.(arc := rest), tried)
    else
      var k := MutationIndex(rest.Head());
      var y :=
        if x.Some? then
          MutateIsOneBitApart(x.value, k);
          Some(Mutate(x.value, k))
        else None;
      Step([y], src.(arc := rest.Tail()), tried.(mCount := tried.mCount + 1))
  }

  /** The arc stream once the mutation loop has handled the slot whose
      decision draw is its head: one draw, and one more when the slot mutates. */
  function NextSlot(arc: Stream<nat>): Stream<nat> {
    if MutationHappens(arc.Head()) then arc.Tail().Tail() else arc.Tail()
  }

  /** How many of the next n slots of the mutation loop mutate. */
  function Mutations(arc: Stream<nat>, n: nat): (count: nat)
    ensures count <= n
    decreases n
  {
    if n == 0 then 0
    else (if MutationHappens(arc.Head()) then 1 else 0) + Mutations(NextSlot(arc), n - 1)
  }

  /** The arc stream when the mutation loop reaches slot n: the head is the
      decision draw of slot n. Each slot before it used one draw, and each
      mutation one more. */
  function SlotStream(arc: Stream<nat>, n: nat): (s: Stream<nat>)
    ensures s.at == arc.at && s.pos == arc.pos + n + Mutations(arc, n)
    decreases n
  {
    if n == 0 then arc else SlotStream(NextSlot(arc), n - 1)
  }

  /** What the mutation loop does to slot x when its decision draw is the head
      of `arc`: nothing when the draw fails the gate, otherwise the flip of the
      bit chosen by the following draw (an unassigned slot stays unassigned). */
  predicate SlotOutcome(x: Option<Gene>, y: Option<Gene>, arc: Stream<nat>) {
    if !MutationHappens(arc.Head()) then y == x
    else if x.Some? then y == Some(Mutate(x.value, MutationIndex(arc.Tail().Head())))
    else y.None?
  }

  /** The mutation loop over every slot: one `arc4random()` decision draw per
      slot and one more per mutation, `m_total` up by one per slot and
      `m_count` by one per mutation. */
  function MutationPass(pop: seq<Option<Gene>>, src: Sources, stats: Stats): (r: Step)
    ensures |r.pop| == |pop|
    ensures r.src.wheel == src.wheel && r.src.rnd == src.rnd
    ensures r.stats.mTotal == stats.mTotal + |pop|
    ensures r.stats.mCount == stats.mCount + Mutations(src.arc, |pop|)
    ensures stats.mCount <= r.stats.mCount <= stats.mCount + |pop|
    ensures r.src.arc == SlotStream(src.arc, |pop|)
    ensures r.src.arc.pos == src.arc.pos + |pop| + (r.stats.mCount - stats.mCount)
    ensures r.stats.cTotal == stats.cTotal && r.stats.cCount == stats.cCount
    decreases |pop|
  {
    if |pop| == 0 then Step([], src, stats)
    else
      var first := MutateSlot(pop[0], src, stats);
      assert first.src.arc == NextSlot(src.arc);
      var rest := MutationPass(pop[1..], first.src, first.stats);
      Step(first.pop + rest.pop, rest.src, rest.stats)
  }

  /** Slot i of the mutation loop's output is slot i of its input, changed
      exactly as slot i's own decision draw (the head of
      `SlotStream(src.arc, i)`) and bit-index draw say. */
  lemma {:induction false} MutationPassDraws(pop: seq<Option<Gene>>, src: Sources, stats: Stats)
    ensures var r := MutationPass(pop, src, stats);
            forall i :: 0 <= i < |pop| ==> SlotOutcome(pop[i], r.pop[i], SlotStream(src.arc, i))
    decreases |pop|
  {
    if |pop| > 0 {
      var first := MutateSlot(pop[0], src, stats);
      assert first.src.arc == NextSlot(src.arc);
      MutationPassDraws(pop[1..], first.src, first.stats);
      var rest := MutationPass(pop[1..], first.src, first.stats);
      var r := MutationPass(pop, src, stats);
      assert r.pop == first.pop + rest.pop;
      forall i | 0 <= i < |pop|
        ensures SlotOutcome(pop[i], r.pop[i], SlotStream(src.arc, i))
      {
        if i > 0 {
          assert r.pop[i] == rest.pop[i - 1] && pop[i] == pop[1..][i - 1];
          assert SlotStream(src.arc, i) == SlotStream(first.src.arc, i - 1);
        }
      }
    }
  }

  /** A slot's outcome leaves it unchanged or one bit apart, and keeps its
      assignment. */
  lemma SlotOutcomeIsMutation(x: Option<Gene>, y: Option<Gene>, arc: Stream<nat>)
    requires SlotOutcome(x, y, arc)
    ensures y == x || SlotMutated(x, y)
    ensures y.Some? <==> x.Some?
  {
    if MutationHappens(arc.Head()) && x.Some? {
      MutateIsOneBitApart(x.value, MutationIndex(arc.Tail().Head()));
    }
  }

  /** Every slot leaves the mutation loop unchanged or one bit apart, and
      keeps its assignment. */
  lemma {:induction false} MutationPassSlots(pop: seq<Option<Gene>>, src: Sources, stats: Stats)
    ensures var r := MutationPass(pop, src, stats);
            && (forall i :: 0 <= i < |pop| ==> r.pop[i] == pop[i] || SlotMutated(pop[i], r.pop[i]))
            && (forall i :: 0 <= i < |pop| ==> (r.pop[i].Some? <==> pop[i].Some?))
  {
    var r := MutationPass(pop, src, stats);
    MutationPassDraws(pop, src, stats);
    forall i | 0 <= i < |pop|
      ensures r.pop[i] == pop[i] || SlotMutated(pop[i], r.pop[i])
      ensures r.pop[i].Some? <==> pop[i].Some?
    {
      SlotOutcomeIsMutation(pop[i], r.pop[i], SlotStream(src.arc, i));
    }
  }

  /** When `m_count` did not grow, the mutation loop changed nothing. */
  lemma {:induction false} NoMutationNoChange(pop: seq<Option<Gene>>, src: Sources, stats: Stats)
    ensures var r := MutationPass(pop, src, stats);
            r.stats.mCount == stats.mCount ==> r.pop == pop
    decreases |pop|
  {
    var r := MutationPass(pop, src, stats);
    if |pop| > 0 && r.stats.mCount == stats.mCount {
      var first := MutateSlot(pop[0], src, stats);
      NoMutationNoChange(pop[1..], first.src, first.stats);
      var rest := MutationPass(pop[1..], first.src, first.stats);
      assert r.pop == first.pop + rest.pop;
      assert first.pop == [pop[0]];
      assert pop == [pop[0]] + pop[1..];
    }
  }

  /** The mutation loop leaves every slot assigned exactly when every slot
      was assigned before it. */
  lemma MutationPassAssignment(pop: seq<Option<Gene>>, src: Sources, stats: Stats)
    ensures AllAssigned(MutationPass(pop, src, stats).pop) <==> AllAssigned(pop)
  {
    MutationPassSlots(pop, src, stats);
  }

  /** The arc stream once the crossover loop over n slots has drawn its masks:
      the mutation loop starts here. */
  function MaskedArc(src: Sources, n: nat): Stream<nat> {
    Stream(src.arc.at, src.arc.pos + Crossings(src.rnd, n / 2))
  }

  /** The second half of `reproduce`: the crossover loop, then the mutation
      loop, on the selected population. */
  function Breed(selected: seq<Option<Gene>>, src: Sources, stats: Stats): (r: Step)
    requires |selected| % 2 == 0
    ensures |r.pop| == |selected|
    ensures r.stats.cTotal == stats.cTotal + |selected| / 2
    ensures r.stats.mTotal == stats.mTotal + |selected|
    ensures r.stats.cCount == stats.cCount + Crossings(src.rnd, |selected| / 2)
    ensures r.stats.mCount == stats.mCount + Mutations(MaskedArc(src, |selected|), |selected|)
    ensures r.src.wheel == src.wheel
    ensures r.src.rnd.at == src.rnd.at && r.src.rnd.pos == src.rnd.pos + |selected| / 2
    ensures r.src.arc.at == src.arc.at
    ensures r.src.arc.pos == src.arc.pos + |selected| + (r.stats.cCount - stats.cCount) + (r.stats.mCount - stats.mCount)
    ensures AllAssigned(r.pop) <==> AllAssigned(selected)
  {
    var crossed := CrossoverPass(selected, src, stats);
    CrossoverPassAssignment(selected, src, stats);
    MutationPassAssignment(crossed.pop, crossed.src, crossed.stats);
    assert crossed.src.arc == MaskedArc(src, |selected|);
    MutationPass(crossed.pop, crossed.src, crossed.stats)
  }

  /** One call of `reproduce`: selection with the next |pop| wheel draws,
      then crossover and mutation. The result replaces the population. */
  function Reproduce(slice: seq<real>, pop: seq<Gene>, src: Sources, stats: Stats): (r: Step)
    requires |slice| == |pop| && |pop| % 2 == 0
    ensures |r.pop| == |pop|
    ensures r.stats.cTotal == stats.cTotal + |pop| / 2
    ensures r.stats.mTotal == stats.mTotal + |pop|
    ensures r.stats.cCount == stats.cCount + Crossings(src.rnd, |pop| / 2)
    ensures r.stats.mCount == stats.mCount + Mutations(MaskedArc(src, |pop|), |pop|)
    ensures stats.cCount <= r.stats.cCount <= stats.cCount + |pop| / 2
    ensures stats.mCount <= r.stats.mCount <= stats.mCount + |pop|
    ensures Consistent(stats) ==> Consistent(r.stats)
    ensures r.src.wheel.at == src.wheel.at && r.src.wheel.pos == src.wheel.pos + |pop|
    ensures r.src.rnd.at == src.rnd.at && r.src.rnd.pos == src.rnd.pos + |pop| / 2
    ensures r.src.arc.at == src.arc.at
    ensures r.src.arc.pos == src.arc.pos + |pop| + (r.stats.cCount - stats.cCount) + (r.stats.mCount - stats.mCount)
    ensures AllAssigned(r.pop) <==> AllAssigned(Select(slice, pop, Take(src.wheel, |pop|).0))
  {
    var draws := Take(src.wheel, |pop|);
    var selected := Select(slice, pop, draws.0);
    var rest := src.(wheel := draws.1);
    assert |selected| == |pop| && MaskedArc(rest, |selected|) == MaskedArc(src, |pop|);
    Breed(selected, rest, stats)
  }

  /** The population `reproduce` returns comes from the selection through the
      two loops: pair p of the crossed population is kept or recombined as
      the p-th `rand()` draw says, and slot i of the result is slot i of the
      crossed population, mutated or not as its own `arc4random()` draws say. */
  lemma ReproduceStages(slice: seq<real>, pop: seq<Gene>, src: Sources, stats: Stats)
      returns (selected: seq<Option<Gene>>, crossed: seq<Option<Gene>>)
    requires |slice| == |pop| && |pop| % 2 == 0
    ensures selected == Select(slice, pop, Take(src.wheel, |pop|).0)
    ensures |selected| == |crossed| == |pop|
    ensures forall p :: 0 <= p < |pop| / 2 ==> PairOutcome(selected, crossed, src.rnd, src.arc, p)
    ensures var r := Reproduce(slice, pop, src, stats);
            forall i :: 0 <= i < |pop| ==> SlotOutcome(crossed[i], r.pop[i], SlotStream(MaskedArc(src, |pop|), i))
  {
    var draws := Take(src.wheel, |pop|);
    selected := Select(slice, pop, draws.0);
    var afterSelect := src.(wheel := draws.1);
    var x := CrossoverPass(selected, afterSelect, stats);
    crossed := x.pop;
    CrossoverPassPairs(selected, afterSelect, stats);
    assert x.src.arc == MaskedArc(src, |pop|);
    MutationPassDraws(crossed, x.src, x.stats);
  }

  /** For nonnegative results with a nonzero total, a round of `reproduce`
      assigns every slot exactly when every wheel draw lies strictly between
      0 and 1 and on no slice boundary. Since `drand48` draws lie in [0,1), a
      slot can only stay unassigned on a draw of exactly 0 or on a boundary. */
  lemma RoundAssignedIff(results: seq<real>, pop: seq<Gene>, src: Sources, stats: Stats)
    requires |results| == |pop| && |pop| % 2 == 0
    requires NonNegative(results) && FindFitness(results).Some?
    ensures var slice := FindSlice(FindFitness(results).value);
            var draws := Take(src.wheel, |pop|).0;
            AllAssigned(Reproduce(slice, pop, src, stats).pop) <==>
              forall i :: 0 <= i < |draws| ==> 0.0 < draws[i] < 1.0 && draws[i] !in slice
  {
    var slice := FindSlice(FindFitness(results).value);
    var draws := Take(src.wheel, |pop|).0;
    WheelEndsAtOne(results);
    WheelDrawsAssigned(slice, pop, draws);
    assert AllAssigned(Reproduce(slice, pop, src, stats).pop) <==> AllAssigned(Select(slice, pop, draws));
  }

  /** On a wheel that ends at 1, the selection assigns every slot exactly when
      every draw lies strictly in (0,1) and on no slice bound. */
  lemma WheelDrawsAssigned(slice: seq<real>, pop: seq<Gene>, draws: seq<real>)
    requires |slice| == |pop| > 0 && NonDecreasing(slice) && 0.0 <= slice[0] && slice[|slice| - 1] == 1.0
    ensures AllAssigned(Select(slice, pop, draws)) <==>
              forall i :: 0 <= i < |draws| ==> 0.0 < draws[i] < 1.0 && draws[i] !in slice
  {
    forall i | 0 <= i < |draws|
      ensures SpinWheel(slice, pop, draws[i]).Some? <==> 0.0 < draws[i] < 1.0 && draws[i] !in slice
    {
      SelectionAssignedIff(slice, pop, draws[i]);
    }
    SelectionAssigned(slice, pop, draws);
  }

  lemma SelectionAssigned(slice: seq<real>, pop: seq<Gene>, draws: seq<real>)
    requires |slice| == |pop|
    ensures AllAssigned(Select(slice, pop, draws)) <==>
              forall i :: 0 <= i < |draws| ==> SpinWheel(slice, pop, draws[i]).Some?
  {
    var selected := Select(slice, pop, draws);
    assert forall i :: 0 <= i < |draws| ==> selected[i] == SpinWheel(slice, pop, draws[i]);
  }
}
