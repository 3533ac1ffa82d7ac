# A genetic algorithm on 8-bit genomes, in Dafny

This project models `sim.c`, a small genetic algorithm. The algorithm searches
the integers 0 to 255 for the value that maximises an objective function. The
reference objective is `sin(pi * x / 256)`.

A run works like this:

- `init_pop` draws a population of `N_POP` = 32 genomes.
- The generation loop in `main` then repeats `ROUNDS` = 512 times:
  - `calc_function` scores every member;
  - `find_fitness` divides each score by the total;
  - `find_slice` turns the fitnesses into a cumulative roulette wheel;
  - `reproduce` breeds the next population.

`reproduce` has three stages:

1. Selection: it spins the wheel once per slot with a `drand48` draw.
2. Crossover: for each pair it draws `rand() % 1000`. If the pair is not skipped
   (probability below `C_RATE` = 0.8), it swaps the bits selected by a mask
   `arc4random() % 100`.
3. Mutation: for each genome it draws `arc4random() % 1000`. If the probability
   is at most `M_RATE` = 0.001, it flips the bit chosen by `arc4random() % 8`.

Along the way `reproduce` keeps four global counters. `c_total` and `c_count`
count crossover attempts and crossovers. `m_total` and `m_count` count mutation
attempts and mutations.

Modules, in dependency order:

- `Options` (options.dfy): the `Option` type.
- `Config` (config.dfy): the four constants of the program.
- `Streams` (streams.dfy): random generators as explicit endless streams of
  draws. One run uses three: `wheel` for `drand48`, `rnd` for `rand()`, and
  `arc` for `arc4random()`. The arc stream is read in source order: the
  initial population, then per round the crossover masks, then the mutation
  decisions and bit indices.
- `Genome` (genome.dfy): a genome as an 8-bit value, mask crossover and
  single-bit mutation, and their bit-level laws. The 32-bit `u_int` forms as
  written (`CrossoverWord`, `MutateWord`) are shown to agree with the 8-bit
  forms on in-domain values. `~mask` sets the 24 high bits, but they never
  reach a result.
- `Wheel` (wheel.dfy): `find_fitness`, `find_slice` and the selection spin.
  Doubles are idealised as reals.
- `Reproduction` (reproduction.dfy): one call of `reproduce`, including the
  counters and the draws it consumes.
- `Simulation` (simulation.dfy): `init_pop`, `calc_function` and the
  generation loop.

The model makes three choices where `sim.c` leaves behaviour undefined:

- Uninitialised `total`: `find_fitness` never initialises `total`. The model
  starts it at 0. When the results sum to zero, the C code divides by zero;
  the model reports this as `None`, and the run ends as
  `Stopped(round, ZeroTotal, stats)`.
- Unassigned selection slots: a slot keeps the uninitialised value of
  `new_pop[i]` when no slice of the wheel contains its draw. The model gives
  such a slot the value `None`.
  - Crossover of a pair with an unassigned member gives two unassigned
    children. Mutation keeps an unassigned slot unassigned.
  - If any slot is unassigned after `reproduce`, the run ends as
    `Stopped(round, UnassignedSlot, stats)`.
  - `Reproduction.RoundAssignedIff` states exactly when this happens: on a
    draw of exactly 0, or on a draw that lands on a slice boundary.
- Two probability tests: the model decides both on the integer draw.
  `1.0 * j / 1000 >= 0.8` holds exactly when `j >= 800`. `1.0 * j / 1000 <= 0.001`
  holds exactly when `j <= 1`, which is two draws in 1000.

The selection code tests each slice with strict comparisons on both sides,
`slice[j-1] < r < slice[j]`. A draw equal to a slice bound therefore selects
nothing. The model follows the code, not a half-open interval
`(slice[j-1], slice[j]]`. The inner loop overwrites the slot at every match,
so the last match wins. On a non-decreasing wheel at most one slice matches
(`Wheel.AtMostOneSlice`), so the last match is also the only one.

## Model

| member | source | states |
|---|---|---|
| Genome.CrossoverMask | sim.c:161 | the drawn crossover mask is below 100 |
| Genome.CrossoverSwapsMaskedBits | sim.c:163-167 | bit i is exchanged between the two parents exactly when bit i of the mask is set; otherwise each child keeps its own parent's bit |
| Genome.CrossoverConservesBits | sim.c:163-167 | the and and the or of the two children equal those of the parents |
| Genome.CrossoverKeepsXor | sim.c:163-167 | the xor of the two children equals the xor of the parents |
| Genome.CrossoverKeepsSum | sim.c:163-167 | crossover keeps the integer sum of the pair |
| Genome.DrawnCrossoverKeepsBit7 | sim.c:161-167 | with a mask drawn as `% 100`, bit 7 (value 128) is never exchanged: each child keeps its own parent's bit 7 |
| Genome.DrawnCrossoverIsRecombination | sim.c:161-167 | every crossover the program performs is a recombination: bits conserved and bit 7 kept |
| Genome.CrossoverInvolution | sim.c:163-167 | crossing the children over again with the same mask restores the parents; the zero mask changes nothing |
| Genome.CrossoverWordAgrees | sim.c:163-164 | on in-domain operands, the 32-bit computation with `~mask` gives the 8-bit children, so both stay in [0,255] |
| Genome.MutationIndex | sim.c:185 | the drawn index lies within the 8-entry mutation table |
| Genome.MutateFlipsOneBit | sim.c:185-186 | mutation with table entry k changes bit 7-k and no other bit |
| Genome.MutateUndo | sim.c:186 | applying the same mutation twice restores the genome |
| Genome.MutateIsOneBitApart | sim.c:185-186 | a mutated genome differs from the original and is one table mask apart from it |
| Genome.OneBitApartIsMutation | sim.c:185-186 | two genomes are one table mask apart exactly when one of the 8 mutations maps the first to the second |
| Genome.MutateWordAgrees | sim.c:186 | on an in-domain word, the 32-bit xor gives the 8-bit mutation, which stays in [0,255] |
| Wheel.FindFitness | sim.c:227-238 | none exactly when the results sum to 0; otherwise one fitness per result, with fitness times total equal to the result |
| Wheel.FitnessSumsToOne | sim.c:233-237 | when the total is nonzero, the fitnesses sum to 1 |
| Wheel.FitnessInUnitInterval | sim.c:233-237 | for nonnegative results with a nonzero total, the total is positive and every fitness lies in [0,1] |
| Wheel.SumZeroIff | sim.c:233-234 | a total of nonnegative results is 0 exactly when every result is 0 |
| Wheel.FindSlice | sim.c:212-221 | one slice per fitness; slice i is the sum of fitnesses 0 to i |
| Wheel.SliceNonDecreasing | sim.c:217-220 | with nonnegative fitnesses the wheel is non-decreasing |
| Wheel.SliceShape | sim.c:217-220 | with nonnegative fitnesses the wheel is non-decreasing, its first slice is at least 0, and its last slice is the total fitness |
| Wheel.WheelEndsAtOne | sim.c:71-74 | the wheel built from nonnegative results with a nonzero total is non-decreasing, starts at or above 0, and ends at exactly 1 |
| Wheel.EqualResultsExample | sim.c:227-237 | four equal results give fitnesses of 0.25 each and the wheel 0.25, 0.5, 0.75, 1.0 |
| Wheel.Spin | sim.c:131-139 | the inner selection loop keeps the slot when no later slice contains the draw, takes the member of the last slice that contains it, and yields only the old slot or a matching member |
| Wheel.SpinWheel | sim.c:130-140 | a slot stays unassigned exactly when no slice contains the draw; an assigned slot holds the member of a slice that contains it |
| Wheel.Select | sim.c:130-140 | one slot per draw; slot i is unassigned exactly when no slice contains draw i, and otherwise holds the current member whose slice contains draw i |
| Wheel.AtMostOneSlice | sim.c:132-138 | on a non-decreasing wheel, no draw lies in two different slices |
| Wheel.SelectionAssignedIff | sim.c:130-140 | on a non-decreasing wheel starting at or above 0, a slot is assigned exactly when 0 < r < last slice and r is no slice bound; the member chosen is the one whose slice contains r |
| Wheel.ZeroFitnessNeverSelected | sim.c:130-140 | a member with fitness 0 owns an empty slice, so no draw selects it |
| Reproduction.CrossoverGate | sim.c:150-157 | a pair is skipped exactly when the draw modulo 1000 is at least 800 |
| Reproduction.MutationGate | sim.c:177-183 | a genome mutates exactly when the draw modulo 1000 is at most 1 |
| Reproduction.CrossPair | sim.c:150-167 | one rand draw and one crossover attempt per pair; a skipped pair is kept and counts no crossover; a crossed pair consumes one arc draw, counts one crossover, and its children are the parents crossed with that draw's `% 100` mask, so they conserve the parents' bits and keep bit 7 (unassigned parents give unassigned children) |
| Reproduction.Crossings | sim.c:149-159 | the number of crossovers among n pairs is at most n |
| Reproduction.CrossoverPass | sim.c:149-168 | half as many attempts and rand draws as slots; crossovers and arc draws both equal the number of non-skipping draws; the mutation counters are untouched |
| Reproduction.CrossoverPassPairs | sim.c:149-168 | pair p of the output is pair p of the input when its rand draw skips it; otherwise it is pair p crossed with the `% 100` mask of arc draw `arc.pos + Crossings(rnd, p)`, the draw after the masks of the earlier crossed pairs |
| Reproduction.PairOutcomeRecombines | sim.c:161-167 | a pair the crossover loop crossed conserves its parents' bits and keeps bit 7 |
| Reproduction.PairCrossedIsRecombined | sim.c:161-167 | a pair crossed with a drawn mask conserves its parents' bits and keeps bit 7 |
| Reproduction.CrossoverPassAssignment | sim.c:149-168 | the crossover loop leaves every slot assigned exactly when every input slot was assigned |
| Reproduction.MutateSlot | sim.c:177-187 | one mutation attempt per slot; a failed gate keeps the slot and consumes one arc draw; a passing gate consumes a second draw, counts one mutation and leaves the genome one bit apart (an unassigned slot stays unassigned) |
| Reproduction.Mutations | sim.c:176-188 | the number of mutations among n slots is at most n |
| Reproduction.SlotStream | sim.c:176-188 | when the loop reaches slot n, n decision draws and one bit-index draw per earlier mutation have been used |
| Reproduction.MutationPass | sim.c:176-188 | one attempt per slot; m_count grows by exactly the number of slots whose own decision draw passes the gate; the arc stream ends after one draw per slot plus one per mutation; the crossover counters are untouched |
| Reproduction.MutationPassDraws | sim.c:176-188 | slot i is unchanged when its own decision draw fails the gate, and otherwise has the bit chosen by its following draw flipped (an unassigned slot stays unassigned) |
| Reproduction.SlotOutcomeIsMutation | sim.c:183-186 | what the loop does to a slot leaves it unchanged or one bit apart, and keeps its assignment |
| Reproduction.MutationPassSlots | sim.c:176-188 | every slot ends unchanged or one bit apart, and keeps its assignment |
| Reproduction.NoMutationNoChange | sim.c:176-188 | when m_count did not grow, the population is unchanged |
| Reproduction.MutationPassAssignment | sim.c:176-188 | the mutation loop leaves every slot assigned exactly when every input slot was assigned |
| Reproduction.Breed | sim.c:149-188 | after selection: N/2 crossover and N mutation attempts; c_count and m_count grow by the crossings and the mutations that their own draws decide; N/2 rand draws and N plus the occurrences in arc draws; assignment kept |
| Reproduction.Reproduce | sim.c:113-191 | attempts grow by N/2 crossovers and N mutations; c_count and m_count grow by exactly the number of passing draws; occurrences never exceed attempts; N wheel draws, N/2 rand draws, and N plus the occurrences in arc draws; the result is fully assigned exactly when the selection was |
| Reproduction.ReproduceStages | sim.c:130-190 | the result comes from the selection of the wheel draws, through a crossed population whose pair p is kept as the p-th rand draw says or crossed with the mask of its own arc draw, and whose slot i is then mutated or not as its own arc draws say |
| Reproduction.RoundAssignedIff | sim.c:121-140 | for nonnegative results with a nonzero total, a round assigns every slot exactly when every wheel draw lies strictly in (0,1) and on no slice bound |
| Reproduction.WheelDrawsAssigned | sim.c:130-140 | on a non-decreasing wheel that starts at or above 0 and ends at 1, the selection assigns every slot exactly when every draw lies strictly in (0,1) and on no slice bound |
| Simulation.InitPop | sim.c:257-264 | n genomes from n arc draws, each below 255 |
| Simulation.Evaluate | sim.c:244-251 | one result per member; a nonnegative objective gives nonnegative results |
| Simulation.Evolve | sim.c:69-81 | a completed run keeps the population size and ends with the results of its final population; each round adds N/2 crossover and N mutation attempts; a stop happens in one of the remaining rounds; consistent counters stay consistent |
| Simulation.ZeroTotalIffAllScoreZero | sim.c:69-71 | for a nonnegative objective, a round meets a zero total exactly when every member scores 0 |
| Simulation.ZeroTotalIffAllZero | sim.c:69-71 | for an objective that is 0 at 0 and positive elsewhere, as `sin(pi * x / 256)` is on [0,255], a round meets a zero total exactly when every member is 0 |
| Simulation.EvaluatedRoundAssignedIff | sim.c:69-80 | for a nonnegative objective with a nonzero total, the round's wheel is non-decreasing and ends at 1, and the round fills every slot exactly when every wheel draw lies strictly in (0,1) and on no slice bound |
| Simulation.Simulate | sim.c:44-81 | a completed run has 32 members and totals of 512·16 crossover and 512·32 mutation attempts; occurrences never exceed attempts; a stop happens within the 512 rounds |

## Left out

- Printing, the `v` switch and `argv` handling are not modelled (sim.c:46-49, 63-68, 90-106). Neither are the initial and evolved averages or the percentages printed at the end; they are output only.
- `do_func` (`sin(pi * x / 256)`) is a parameter `f` of `Evaluate`, `Evolve` and `Simulate`. Floating-point `sin` cannot be expressed over reals.
- `init_random` reseeds `drand48` from the clock, the process id and the slot index before every draw. The model takes the resulting values as the `wheel` stream. The `rnd` and `arc` streams likewise stand for `rand()` and `arc4random()`.
- Doubles are idealised as exact reals. IEEE rounding, NaN and infinities are not modelled, so a zero total is a stop rather than a NaN fitness.
- The `int` counters are unbounded naturals. At most 512·32 increments happen, far below 2^31.
- Genomes are 8-bit values rather than 32-bit `u_int` words. `Genome.CrossoverWordAgrees` and `Genome.MutateWordAgrees` show that the word operations never leave [0,255] on in-domain operands.
- After a `Stopped` outcome the C program goes on with undefined values (a NaN wheel, or an indeterminate genome). The model does not follow it.
- Simulation.InitPop: `arc4random() % 255` yields values in [0,254], so 255 is never drawn initially. The contract states this bound rather than the domain [0,255] the program's header comment describes. Mutation can still reach 255.
