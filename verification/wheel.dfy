/** The roulette wheel of sim.c: fitness normalisation (`find_fitness`), the
    cumulative slices (`find_slice`) and the selection spin at the top of
    `reproduce`. Doubles are idealised as reals. */
module Wheel {

  import opened Options
  import opened Genome

  /** The sum of a vector, accumulated left to right from 0. */
  function Sum(s: seq<real>): real {
    if |s| == 0 then 0.0 else Sum(s[..|s| - 1]) + s[|s| - 1]
  }

  predicate NonNegative(s: seq<real>) {
    forall i :: 0 <= i < |s| ==> 0.0 <= s[i]
  }

  predicate NonDecreasing(s: seq<real>) {
    forall i, j :: 0 <= i <= j < |s| ==> s[i] <= s[j]
  }

  /** Every entry of `s` divided by `t`. */
  function Divide(s: seq<real>, t: real): seq<real>
    requires t != 0.0
  {
    seq(|s|, i requires 0 <= i < |s| => s[i] / t)
  }

  /** Fitness of each member: its result divided by the total of all results,
      the total accumulated from 0. A zero total has no real quotient; the
      model reports it as `None`. */
  function FindFitness(results: seq<real>): (fitness: Option<seq<real>>)
    ensures fitness.None? <==> Sum(results) == 0.0
    ensures fitness.Some? ==> |fitness.value| == |results|
    ensures fitness.Some? ==> forall i :: 0 <= i < |results| ==> fitness.value[i] * Sum(results) == results[i]
  {
    var total := Sum(results);
    if total == 0.0 then None else Some(Divide(results, total))
  }

  lemma {:induction false} SumDivide(s: seq<real>, t: real)
    requires t != 0.0
    ensures Sum(Divide(s, t)) == Sum(s) / t
  {
    if |s| > 0 {
      var n := |s|;
      assert Divide(s, t)[..n - 1] == Divide(s[..n - 1], t);
      SumDivide(s[..n - 1], t);
      assert Sum(Divide(s, t)) == Sum(s[..n - 1]) / t + s[n - 1] / t;
    }
  }

  /** The fitnesses of any result vector with a nonzero total sum to 1. */
  lemma FitnessSumsToOne(results: seq<real>)
    requires FindFitness(results).Some?
    ensures Sum(FindFitness(results).value) == 1.0
  {
    var total := Sum(results);
    assert FindFitness(results).value == Divide(results, total);
    SumDivide(results, total);
    assert total / total == 1.0;
  }

  lemma {:induction false} SumNonNegative(s: seq<real>)
    requires NonNegative(s)
    ensures 0.0 <= Sum(s)
  {
    if |s| > 0 {
      SumNonNegative(s[..|s| - 1]);
    }
  }

  /** A sum of nonnegative entries is 0 exactly when every entry is 0. */
  lemma {:induction false} SumZeroIff(s: seq<real>)
    requires NonNegative(s)
    ensures Sum(s) == 0.0 <==> forall i :: 0 <= i < |s| ==> s[i] == 0.0
  {
    if |s| > 0 {
      var n := |s|;
      SumZeroIff(s[..n - 1]);
      SumNonNegative(s[..n - 1]);
      assert forall i :: 0 <= i < n - 1 ==> s[..n - 1][i] == s[i];
    }
  }

  lemma {:induction false} EntryAtMostSum(s: seq<real>, i: nat)
    requires NonNegative(s) && i < |s|
    ensures s[i] <= Sum(s)
  {
    var n := |s|;
    if i == n - 1 {
      SumNonNegative(s[..n - 1]);
    } else {
      EntryAtMostSum(s[..n - 1], i);
    }
  }

  lemma QuotientInUnitInterval(x: real, t: real)
    requires 0.0 <= x <= t && 0.0 < t
    ensures 0.0 <= x / t <= 1.0
  {
    assert x / t * t == x;
  }

  /** With nonnegative results and a nonzero (hence positive) total, every
      fitness lies in [0,1]. */
  lemma FitnessInUnitInterval(results: seq<real>)
    requires NonNegative(results) && FindFitness(results).Some?
    ensures 0.0 < Sum(results)
    ensures forall i :: 0 <= i < |results| ==>
              0.0 <= FindFitness(results).value[i] <= 1.0
  {
    SumNonNegative(results);
    var total := Sum(results);
    forall i | 0 <= i < |results|
      ensures 0.0 <= results[i] / total <= 1.0
    {
      EntryAtMostSum(results, i);
      QuotientInUnitInterval(results[i], total);
    }
  }

  /** The roulette wheel: the running total of the fitnesses, starting with
      `0 + fitness[0]`. Slice i is the sum of the first i+1 fitnesses. */
  function FindSlice(fitness: seq<real>): (slice: seq<real>)
    ensures |slice| == |fitness|
    ensures forall i :: 0 <= i < |slice| ==> slice[i] == Sum(fitness[..i + 1])
  {
    if |fitness| == 0 then []
    else
      var n := |fitness|;
      var prev := FindSlice(fitness[..n - 1]);
      var slice := prev + [(if n == 1 then 0.0 else prev[n - 2]) + fitness[n - 1]];
      assert forall i :: 0 <= i < n ==> slice[i] == Sum(fitness[..i + 1]) by {
        forall i | 0 <= i < n
          ensures slice[i] == Sum(fitness[..i + 1])
        {
          if i < n - 1 {
            assert fitness[..n - 1][..i + 1] == fitness[..i + 1];
          } else {
            assert fitness[..n][..n - 1] == fitness[..n - 1];
            if n > 1 {
              assert fitness[..n - 1][..n - 1] == fitness[..n - 1];
            }
          }
        }
      }
      slice
  }

  /** With nonnegative fitnesses the wheel is non-decreasing. */
  lemma {:induction false} SliceNonDecreasing(fitness: seq<real>)
    requires NonNegative(fitness)
    ensures NonDecreasing(FindSlice(fitness))
  {
    if |fitness| > 1 {
      var n := |fitness|;
      var prev := FindSlice(fitness[..n - 1]);
      SliceNonDecreasing(fitness[..n - 1]);
      var slice := FindSlice(fitness);
      assert slice == prev + [prev[n - 2] + fitness[n - 1]];
      forall i, j | 0 <= i <= j < n
        ensures slice[i] <= slice[j]
      {
        if j == n - 1 && i < n - 1 {
          assert slice[i] == prev[i] <= prev[n - 2];
        }
      }
    }
  }

  /** With nonnegative fitnesses the wheel is non-decreasing, starts at or
      above 0 and its last slice is the total fitness. */
  lemma SliceShape(fitness: seq<real>)
    requires NonNegative(fitness)
    ensures NonDecreasing(FindSlice(fitness))
    ensures |fitness| > 0 ==> 0.0 <= FindSlice(fitness)[0]
    ensures |fitness| > 0 ==> FindSlice(fitness)[|fitness| - 1] == Sum(fitness)
  {
    SliceNonDecreasing(fitness);
    if |fitness| > 0 {
      var n := |fitness|;
      var slice := FindSlice(fitness);
      assert slice[0] == fitness[0] by {
        assert slice[0] == Sum(fitness[..1]);
        assert fitness[..1][..0] == [];
      }
      assert slice[n - 1] == Sum(fitness) by {
        assert slice[n - 1] == Sum(fitness[..n]);
        assert fitness[..n] == fitness;
      }
    }
  }

  /** The wheel built from nonnegative results with a nonzero total is
      non-decreasing and ends at 1. */
  lemma WheelEndsAtOne(results: seq<real>)
    requires NonNegative(results) && FindFitness(results).Some?
    ensures var slice := FindSlice(FindFitness(results).value);
            |slice| == |results| > 0 && NonDecreasing(slice) && 0.0 <= slice[0] && slice[|slice| - 1] == 1.0
  {
    var fitness := FindFitness(results).value;
    FitnessInUnitInterval(results);
    FitnessSumsToOne(results);
    SliceShape(fitness);
  }

  /** Four equal results give quarter fitnesses and the wheel 0.25, 0.5,
      0.75, 1. */
  lemma EqualResultsExample()
    ensures FindFitness([1.0, 1.0, 1.0, 1.0]) == Some([0.25, 0.25, 0.25, 0.25])
    ensures FindSlice([0.25, 0.25, 0.25, 0.25]) == [0.25, 0.5, 0.75, 1.0]
  {
    var r := [1.0, 1.0, 1.0, 1.0];
    assert Sum([1.0]) == 1.0 by { assert [1.0][..0] == []; }
    assert Sum([1.0, 1.0]) == 2.0 by { assert [1.0, 1.0][..1] == [1.0]; }
    assert Sum([1.0, 1.0, 1.0]) == 3.0 by { assert [1.0, 1.0, 1.0][..2] == [1.0, 1.0]; }
    assert Sum(r) == 4.0 by { assert r[..3] == [1.0, 1.0, 1.0]; }
    var f := [0.25, 0.25, 0.25, 0.25];
    assert Divide(r, 4.0) == f;
    assert Sum(f[..1]) == 0.25 by { assert f[..1][..0] == []; }
    assert Sum(f[..2]) == 0.5 by { assert f[..2][..1] == f[..1]; }
    assert Sum(f[..3]) == 0.75 by { assert f[..3][..2] == f[..2]; }
    assert Sum(f[..4]) == 1.0 by { assert f[..4][..3] == f[..3]; }
    var slice := FindSlice(f);
    assert slice[0] == 0.25 && slice[1] == 0.5 && slice[2] == 0.75 && slice[3] == 1.0;
  }

  /** Whether the draw `r` falls strictly inside slice j of the wheel: between
      0 and slice 0 for j = 0, between slices j-1 and j otherwise. */
  predicate InSlice(slice: seq<real>, j: nat, r: real)
    requires j < |slice|
  {
    if j == 0 then 0.0 < r < slice[0] else slice[j - 1] < r < slice[j]
  }

  /** The inner selection loop from index j on: every slice containing the draw
      overwrites the slot with its member, so the last such slice wins. */
  function Spin(slice: seq<real>, pop: seq<Gene>, r: real, j: nat, slot: Option<Gene>): (res: Option<Gene>)
    requires |slice| == |pop| && j <= |slice|
    ensures (forall k :: j <= k < |slice| ==> !InSlice(slice, k, r)) ==> res == slot
    ensures forall k :: (j <= k < |slice| && InSlice(slice, k, r) &&
                         forall m :: k < m < |slice| ==> !InSlice(slice, m, r)) ==> res == Some(pop[k])
    ensures res == slot || exists k :: j <= k < |slice| && InSlice(slice, k, r) && res == Some(pop[k])
    decreases |slice| - j
  {
    if j == |slice| then slot
    else Spin(slice, pop, r, j + 1, if InSlice(slice, j, r) then Some(pop[j]) else slot)
  }

  lemma {:induction false} LastMatchExists(slice: seq<real>, r: real, k: nat)
    requires k < |slice| && InSlice(slice, k, r)
    ensures exists l :: k <= l < |slice| && InSlice(slice, l, r) &&
                        forall m :: l < m < |slice| ==> !InSlice(slice, m, r)
    decreases |slice| - k
  {
    if exists m :: k < m < |slice| && InSlice(slice, m, r) {
      var m :| k < m < |slice| && InSlice(slice, m, r);
      LastMatchExists(slice, r, m);
    } else {
      assert forall m :: k < m < |slice| ==> !InSlice(slice, m, r);
    }
  }

  /** One selection slot: starts unassigned and is assigned the member of a
      slice that contains the draw; it stays unassigned when no slice does. */
  function SpinWheel(slice: seq<real>, pop: seq<Gene>, r: real): (slot: Option<Gene>)
    requires |slice| == |pop|
    ensures slot.None? <==> forall j :: 0 <= j < |slice| ==> !InSlice(slice, j, r)
    ensures slot.Some? ==> exists j :: 0 <= j < |slice| && InSlice(slice, j, r) && slot.value == pop[j]
  {
    var res := Spin(slice, pop, r, 0, None);
    assert (exists j :: 0 <= j < |slice| && InSlice(slice, j, r)) ==> res.Some? by {
      if exists j :: 0 <= j < |slice| && InSlice(slice, j, r) {
        var j :| 0 <= j < |slice| && InSlice(slice, j, r);
        LastMatchExists(slice, r, j);
      }
    }
    res
  }

  /** Roulette selection: slot i of the new population spins the wheel with
      draw `random[i]` against the current population. */
  function Select(slice: seq<real>, pop: seq<Gene>, random: seq<real>): (newPop: seq<Option<Gene>>)
    requires |slice| == |pop|
    ensures |newPop| == |random|
    ensures forall i :: 0 <= i < |random| ==>
              (newPop[i].None? <==> forall j :: 0 <= j < |slice| ==> !InSlice(slice, j, random[i]))
    ensures forall i :: 0 <= i < |random| && newPop[i].Some? ==>
              exists j :: 0 <= j < |slice| && InSlice(slice, j, random[i]) && newPop[i].value == pop[j]
  {
    seq(|random|, i requires 0 <= i < |random| => SpinWheel(slice, pop, random[i]))
  }

  /** On a non-decreasing wheel at most one slice contains a draw. */
  lemma AtMostOneSlice(slice: seq<real>, r: real, j1: nat, j2: nat)
    requires NonDecreasing(slice)
    requires j1 < |slice| && j2 < |slice|
    requires InSlice(slice, j1, r) && InSlice(slice, j2, r)
    ensures j1 == j2
  {
  }

  lemma {:induction false} FirstAbove(slice: seq<real>, r: real, j: nat) returns (k: nat)
    requires j < |slice| && r < slice[j]
    ensures k <= j && r < slice[k]
    ensures forall m :: 0 <= m < k ==> slice[m] <= r
  {
    if exists m :: 0 <= m < j && r < slice[m] {
      var m :| 0 <= m < j && r < slice[m];
      k := FirstAbove(slice, r, m);
    } else {
      k := j;
    }
  }

  /** On a non-decreasing wheel starting at or above 0 (the wheel of
      nonnegative fitnesses), a slot is assigned exactly when the draw lies
      strictly between 0 and the last slice and on no slice boundary; in
      particular a draw at or below 0, on a boundary, or at or above the last
      slice leaves the slot unassigned. An assigned slot holds the member of
      the one slice that contains the draw. */
  lemma SelectionAssignedIff(slice: seq<real>, pop: seq<Gene>, r: real)
    requires |slice| == |pop| > 0 && NonDecreasing(slice) && 0.0 <= slice[0]
    ensures SpinWheel(slice, pop, r).Some? <==> 0.0 < r < slice[|slice| - 1] && r !in slice
    ensures forall j :: 0 <= j < |slice| && InSlice(slice, j, r) ==> SpinWheel(slice, pop, r) == Some(pop[j])
  {
    var n := |slice|;
    if 0.0 < r < slice[n - 1] && r !in slice {
      var k := FirstAbove(slice, r, n - 1);
      assert InSlice(slice, k, r) by {
        if k > 0 {
          assert slice[k - 1] <= r && slice[k - 1] != r;
        }
      }
    }
    if SpinWheel(slice, pop, r).Some? {
      var j :| 0 <= j < n && InSlice(slice, j, r);
      assert 0.0 < r by {
        if j > 0 {
          assert 0.0 <= slice[0] <= slice[j - 1];
        }
      }
      assert r < slice[n - 1];
      forall m | 0 <= m < n
        ensures slice[m] != r
      {
        if m < j {
          assert slice[m] <= slice[j - 1] || j == 0;
        } else {
          assert slice[j] <= slice[m];
        }
      }
    }
    forall j | 0 <= j < n && InSlice(slice, j, r)
      ensures SpinWheel(slice, pop, r) == Some(pop[j])
    {
      var slot := SpinWheel(slice, pop, r);
      var l :| 0 <= l < n && InSlice(slice, l, r) && slot.value == pop[l];
      AtMostOneSlice(slice, r, j, l);
    }
  }

  /** A member whose fitness is 0 owns an empty slice of the wheel and is
      never selected. */
  lemma ZeroFitnessNeverSelected(fitness: seq<real>, j: nat, r: real)
    requires j < |fitness| && fitness[j] == 0.0
    ensures !InSlice(FindSlice(fitness), j, r)
  {
    var slice := FindSlice(fitness);
    if j == 0 {
      assert slice[0] == 0.0 by {
        assert slice[0] == Sum(fitness[..1]);
        assert fitness[..1][..0] == [];
      }
    } else {
      assert slice[j] == slice[j - 1] by {
        assert fitness[..j + 1][..j] == fitness[..j];
      }
    }
  }
}
