/** Genomes and the two bit-level genetic operators of sim.c: the mask
    crossover of a pair and the single-bit mutation.

    A genome is an 8-bit value, the search domain [0,255]. The source keeps
    genomes in 32-bit `u_int` words; `CrossoverWord` and `MutateWord` state the
    word computations as written and the lemmas at the end of this module show
    that on in-domain words they agree with the 8-bit operators. */
module Genome {

  /** A genome, an integer in [0,255]. */
  type Gene = bv8

  /** The source's `u_int`. */
  type Word = bv32

  /** A bit position of a genome, 0 (value 1) to 7 (value 128). */
  type BitIndex = bv3

  /** Whether bit `i` of `x` is set. */
  predicate BitAt(x: Gene, i: BitIndex) {
    (x >> i) & 1 == 1
  }

  /** The two children of a crossover. */
  datatype Children = Children(first: Gene, second: Gene)

  /** The crossover mask `arc4random() % 100` built from the draw `d`. */
  function CrossoverMask(d: nat): (mask: Gene)
    ensures mask < 100
  {
    (d % 100) as Gene
  }

  /** Mask crossover of the pair (a, b): the first child takes the masked bits
      of `b` and the others of `a`; the second child the other way round. */
  function Crossover(a: Gene, b: Gene, mask: Gene): Children {
    Children((b & mask) | (a & !mask), (a & mask) | (b & !mask))
  }

  /** The relation between two parents and their two children that every
      crossover of sim.c establishes: at every bit position the children hold
      the parents' two bits (both set, or neither, or exactly one of them), and
      bit 7 is not exchanged. */
  predicate Recombination(a: Gene, b: Gene, c: Children) {
    && c.first & c.second == a & b
    && c.first | c.second == a | b
    && c.first & 128 == a & 128
    && c.second & 128 == b & 128
  }

  lemma MergeBit(x: Gene, y: Gene, m: Gene, i: BitIndex)
    ensures BitAt((y & m) | (x & !m), i) == if BitAt(m, i) then BitAt(y, i) else BitAt(x, i)
  {
  }

  /** Bit i is exchanged between the pair exactly when it is set in the mask. */
  lemma CrossoverSwapsMaskedBits(a: Gene, b: Gene, mask: Gene, i: BitIndex)
    ensures var c := Crossover(a, b, mask);
            if BitAt(mask, i)
            then BitAt(c.first, i) == BitAt(b, i) && BitAt(c.second, i) == BitAt(a, i)
            else BitAt(c.first, i) == BitAt(a, i) && BitAt(c.second, i) == BitAt(b, i)
  {
    MergeBit(a, b, mask, i);
    MergeBit(b, a, mask, i);
  }

  lemma MergeConservesBits(a: Gene, b: Gene, m: Gene)
    ensures var x, y := (b & m) | (a & !m), (a & m) | (b & !m);
            x & y == a & b && x | y == a | b
  {
  }

  /** At every position the pair's bits are conserved: the and and the or of
      the children are those of the parents. */
  lemma CrossoverConservesBits(a: Gene, b: Gene, mask: Gene)
    ensures var c := Crossover(a, b, mask);
            c.first & c.second == a & b && c.first | c.second == a | b
  {
    MergeConservesBits(a, b, mask);
  }

  lemma MergeKeepsXor(a: Gene, b: Gene, m: Gene)
    ensures ((b & m) | (a & !m)) ^ ((a & m) | (b & !m)) == a ^ b
  {
  }

  /** The children differ in exactly the positions where the parents differ. */
  lemma CrossoverKeepsXor(a: Gene, b: Gene, mask: Gene)
    ensures var c := Crossover(a, b, mask); c.first ^ c.second == a ^ b
  {
    MergeKeepsXor(a, b, mask);
  }

  lemma SameBitsSameWideSum(x: Gene, y: Gene, p: Gene, q: Gene)
    requires x & y == p & q && x | y == p | q
    ensures (x as bv9) + (y as bv9) == (p as bv9) + (q as bv9)
  {
  }

  lemma WideSumIsSum(x: Gene, y: Gene)
    ensures ((x as bv9) + (y as bv9)) as int == x as int + y as int
  {
  }

  lemma SameBitsSameSum(x: Gene, y: Gene, p: Gene, q: Gene)
    requires x & y == p & q && x | y == p | q
    ensures x as int + y as int == p as int + q as int
  {
    SameBitsSameWideSum(x, y, p, q);
    WideSumIsSum(x, y);
    WideSumIsSum(p, q);
  }

  /** Crossover keeps the sum of the pair. */
  lemma CrossoverKeepsSum(a: Gene, b: Gene, mask: Gene)
    ensures var c := Crossover(a, b, mask);
            c.first as int + c.second as int == a as int + b as int
  {
    var c := Crossover(a, b, mask);
    CrossoverConservesBits(a, b, mask);
    SameBitsSameSum(c.first, c.second, a, b);
  }

  lemma MergeKeepsBit7(a: Gene, b: Gene, m: Gene)
    requires m < 128
    ensures ((b & m) | (a & !m)) & 128 == a & 128
  {
  }

  /** A mask drawn as `arc4random() % 100` is below 128, so it never exchanges
      bit 7 (value 128). */
  lemma DrawnCrossoverKeepsBit7(a: Gene, b: Gene, d: nat)
    ensures var c := Crossover(a, b, CrossoverMask(d));
            c.first & 128 == a & 128 && c.second & 128 == b & 128
  {
    var mask := CrossoverMask(d);
    assert mask < 128;
    MergeKeepsBit7(a, b, mask);
    MergeKeepsBit7(b, a, mask);
  }

  /** Every crossover that sim.c performs is a `Recombination`. */
  lemma DrawnCrossoverIsRecombination(a: Gene, b: Gene, d: nat)
    ensures Recombination(a, b, Crossover(a, b, CrossoverMask(d)))
  {
    CrossoverConservesBits(a, b, CrossoverMask(d));
    DrawnCrossoverKeepsBit7(a, b, d);
  }

  lemma MergeTwice(a: Gene, b: Gene, m: Gene)
    ensures var x, y := (b & m) | (a & !m), (a & m) | (b & !m);
            (y & m) | (x & !m) == a && (x & m) | (y & !m) == b
  {
  }

  /** Crossing the children over with the same mask gives back the parents;
      the empty mask leaves the pair unchanged. */
  lemma CrossoverInvolution(a: Gene, b: Gene, mask: Gene)
    ensures var c := Crossover(a, b, mask); Crossover(c.first, c.second, mask) == Children(a, b)
    ensures Crossover(a, b, 0) == Children(a, b)
  {
    MergeTwice(a, b, mask);
  }

  /** The table `mutation[8]` of sim.c: bit 7-k at index k. */
  const MutationMasks: seq<Gene> := [128, 64, 32, 16, 8, 4, 2, 1]

  /** The bit index `arc4random() % 8` built from the draw `d`. */
  function MutationIndex(d: nat): (k: nat)
    ensures k < |MutationMasks|
  {
    d % 8
  }

  /** Mutation: exclusive-or with the k-th mask of the table. */
  function Mutate(x: Gene, k: nat): Gene
    requires k < |MutationMasks|
  {
    x ^ MutationMasks[k]
  }

  lemma FlipBit(x: Gene, j: BitIndex, i: BitIndex)
    ensures BitAt(x ^ ((1 as Gene) << j), i) != BitAt(x, i) <==> i == j
  {
  }

  /** A mutation flips bit 7-k and no other bit. */
  lemma MutateFlipsOneBit(x: Gene, k: nat, i: BitIndex)
    requires k < |MutationMasks|
    ensures BitAt(Mutate(x, k), i) != BitAt(x, i) <==> i == (7 - k) as BitIndex
  {
    assert MutationMasks[k] == (1 as Gene) << ((7 - k) as BitIndex);
    FlipBit(x, (7 - k) as BitIndex, i);
  }

  /** Mutating twice with the same index restores the genome. */
  lemma MutateUndo(x: Gene, k: nat)
    requires k < |MutationMasks|
    ensures Mutate(Mutate(x, k), k) == x
  {
  }

  /** Two genomes one mutation apart: they differ by one mask of the table. */
  predicate OneBitApart(x: Gene, y: Gene) {
    x ^ y in MutationMasks
  }

  /** A mutation yields a different genome, one bit apart from its input. */
  lemma MutateIsOneBitApart(x: Gene, k: nat)
    requires k < |MutationMasks|
    ensures OneBitApart(x, Mutate(x, k)) && Mutate(x, k) != x
  {
    assert x ^ Mutate(x, k) == MutationMasks[k];
  }

  /** `OneBitApart` holds exactly of the pairs some mutation relates. */
  lemma OneBitApartIsMutation(x: Gene, y: Gene)
    ensures OneBitApart(x, y) <==> exists k :: 0 <= k < |MutationMasks| && y == Mutate(x, k)
  {
    if OneBitApart(x, y) {
      var k :| 0 <= k < |MutationMasks| && x ^ y == MutationMasks[k];
      assert y == Mutate(x, k);
    }
    if exists k :: 0 <= k < |MutationMasks| && y == Mutate(x, k) {
      var k :| 0 <= k < |MutationMasks| && y == Mutate(x, k);
      MutateIsOneBitApart(x, k);
    }
  }

  /** Crossover on two `u_int` words, as sim.c writes it: `~mask` is the full
      32-bit complement. */
  function CrossoverWord(a: Word, b: Word, mask: Word): (Word, Word) {
    ((b & mask) | (a & !mask), (a & mask) | (b & !mask))
  }

  /** Mutation of a `u_int` word, as sim.c writes it. */
  function MutateWord(x: Word, k: nat): Word
    requires k < |MutationMasks|
  {
    x ^ (MutationMasks[k] as Word)
  }

  lemma WordMerge(a: Gene, b: Gene, m: Gene)
    ensures ((b as Word) & (m as Word)) | ((a as Word) & !(m as Word)) == ((b & m) | (a & !m)) as Word
  {
  }

  /** On in-domain words, the 32-bit crossover gives the 8-bit children: the
      high bits that `~mask` sets never reach the result, so both children stay
      in [0,255]. */
  lemma CrossoverWordAgrees(a: Gene, b: Gene, mask: Gene)
    ensures var w := CrossoverWord(a as Word, b as Word, mask as Word);
            var c := Crossover(a, b, mask);
            w.0 == c.first as Word && w.1 == c.second as Word && w.0 <= 255 && w.1 <= 255
  {
    WordMerge(a, b, mask);
    WordMerge(b, a, mask);
  }

  /** On in-domain words, the 32-bit mutation gives the 8-bit result. */
  lemma MutateWordAgrees(x: Gene, k: nat)
    requires k < |MutationMasks|
    ensures MutateWord(x as Word, k) == Mutate(x, k) as Word && MutateWord(x as Word, k) <= 255
  {
    var m := MutationMasks[k];
    assert (x as Word) ^ (m as Word) == (x ^ m) as Word;
  }
}
