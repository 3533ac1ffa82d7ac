/** Random number generators, replaced by explicit endless streams of draws.
    A `Stream` is the sequence of all values a generator would return, together
    with how many of them have been consumed so far. */
module Streams {

  datatype Stream<T> = Stream(at: nat -> T, pos: nat) {

    /** The next draw. */
    function Head(): T {
      at(pos)
    }

    /** The stream after one draw. */
    function Tail(): Stream<T> {
      Stream(at, pos + 1)
    }
  }

  /** Draws `n` values in order. */
  function Take<T>(s: Stream<T>, n: nat): (seq<T>, Stream<T>) {
    (seq(n, i requires 0 <= i < n => s.at(s.pos + i)), Stream(s.at, s.pos + n))
  }
}
