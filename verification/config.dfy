/** The compile-time constants of the simulation (the `#define`s of sim.c). */
module Config {

  /** Rate of mutation: a genome mutates when its probability draw is at most this. */
  const M_RATE: real := 0.001

  /** Rate of crossover: a pair is recombined when its probability draw is below this. */
  const C_RATE: real := 0.8

  /** Number of reproduction rounds. */
  const ROUNDS: nat := 512

  /** Number of members in the population. */
  const N_POP: nat := 32
}
