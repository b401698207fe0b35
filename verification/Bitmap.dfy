/** Single-bit access to 32-bit bitmap words, as the frame allocator does it
    with shifts and masks. The lemmas reduce every such access to "one bit
    changed, all others kept". */
module Bitmap {

  /** `(w >> k) & 1`. */
  predicate BitSet(w: bv32, k: bv6)
    requires k < 32
  {
    (w >> k) & 1 == 1
  }

  /** `w | (1U << k)`. */
  function WithBit(w: bv32, k: bv6): bv32
    requires k < 32
  {
    w | (1 << k)
  }

  /** `w & ~(1U << k)`. */
  function WithoutBit(w: bv32, k: bv6): bv32
    requires k < 32
  {
    w & !(1 << k)
  }

  /** The position of bit number `n` of a bitmap inside its word. */
  function BitIndex(n: nat): (k: bv6)
    ensures k < 32 && k as nat == n % 32
  {
    (n % 32) as bv6
  }

  lemma MasksDisjoint(k: bv6, j: bv6)
    requires k < 32 && j < 32 && k != j
    ensures (1 as bv32 << k) & (1 << j) == 0
  {
  }

  lemma OrElsewhere(w: bv32, m: bv32, n: bv32)
    requires m & n == 0
    ensures (w | m) & n == w & n
  {
  }

  lemma ClearElsewhere(w: bv32, m: bv32, n: bv32)
    requires m & n == 0
    ensures (w & !m) & n == w & n
  {
  }

  /** Bit j is a function of the word masked with `1 << j`. */
  lemma ReadThroughMask(w: bv32, v: bv32, j: bv6)
    requires j < 32 && w & (1 << j) == v & (1 << j)
    ensures BitSet(w, j) <==> BitSet(v, j)
  {
  }

  lemma ChangedBit(w: bv32, k: bv6)
    requires k < 32
    ensures BitSet(WithBit(w, k), k) && !BitSet(WithoutBit(w, k), k)
  {
  }

  /** Setting or clearing bit k keeps the reading of every other bit. */
  lemma KeptBit(w: bv32, k: bv6, j: bv6)
    requires k < 32 && j < 32 && j != k
    ensures BitSet(WithBit(w, k), j) <==> BitSet(w, j)
    ensures BitSet(WithoutBit(w, k), j) <==> BitSet(w, j)
  {
    KeptBySet(w, k, j);
    KeptByClear(w, k, j);
  }

  lemma KeptBySet(w: bv32, k: bv6, j: bv6)
    requires k < 32 && j < 32 && j != k
    ensures BitSet(WithBit(w, k), j) <==> BitSet(w, j)
  {
    MasksDisjoint(k, j);
    OrElsewhere(w, 1 << k, 1 << j);
    ReadThroughMask(WithBit(w, k), w, j);
  }

  lemma KeptByClear(w: bv32, k: bv6, j: bv6)
    requires k < 32 && j < 32 && j != k
    ensures BitSet(WithoutBit(w, k), j) <==> BitSet(w, j)
  {
    MasksDisjoint(k, j);
    ClearElsewhere(w, 1 << k, 1 << j);
    ReadThroughMask(WithoutBit(w, k), w, j);
  }

  lemma BitIndexInjective(n: nat, m: nat)
    requires n % 32 != m % 32
    ensures BitIndex(n) != BitIndex(m)
  {
  }

  lemma SameBit(w: bv32, n: nat, m: nat)
    requires n % 32 == m % 32
    ensures BitSet(WithBit(w, BitIndex(n)), BitIndex(m))
    ensures !BitSet(WithoutBit(w, BitIndex(n)), BitIndex(m))
  {
    assert BitIndex(n) == BitIndex(m);
    ChangedBit(w, BitIndex(n));
  }

  lemma OtherBit(w: bv32, n: nat, m: nat)
    requires n % 32 != m % 32
    ensures BitSet(WithBit(w, BitIndex(n)), BitIndex(m)) <==> BitSet(w, BitIndex(m))
    ensures BitSet(WithoutBit(w, BitIndex(n)), BitIndex(m)) <==> BitSet(w, BitIndex(m))
  {
    BitIndexInjective(n, m);
    KeptBit(w, BitIndex(n), BitIndex(m));
  }

  lemma AllOnes(n: nat)
    ensures BitSet(0xFFFF_FFFF, BitIndex(n))
  {
    AllOnesAt(BitIndex(n));
  }

  lemma AllOnesAt(k: bv6)
    requires k < 32
    ensures (0xFFFF_FFFF as bv32 >> k) & 1 == 1
  {
  }
}
