/** What FIPS 180-4 says, in other words, of the constants and functions SHA-256 is
    built from: the constants are digits of roots of primes, the functions are given bit
    by bit, and words and bytes convert back and forth. */
module Sha256Standard {
  import opened Sha256Spec

  /** The first 64 primes. */
  function Prime(t: nat): nat
    requires t < 64
  {
    [
      [2, 3, 5, 7, 11, 13, 17, 19],
      [23, 29, 31, 37, 41, 43, 47, 53],
      [59, 61, 67, 71, 73, 79, 83, 89],
      [97, 101, 103, 107, 109, 113, 127, 131],
      [137, 139, 149, 151, 157, 163, 167, 173],
      [179, 181, 191, 193, 197, 199, 211, 223],
      [227, 229, 233, 239, 241, 251, 257, 263],
      [269, 271, 277, 281, 283, 293, 307, 311]
    ][t / 8][t % 8]
  }

  /** The whole part of the square and of the cube root of a number below 343. */
  function CubeRoot(p: nat): nat {
    if p < 8 then 1 else if p < 27 then 2 else if p < 64 then 3 else if p < 125 then 4 else if p < 216 then 5 else 6
  }

  function SquareRoot(p: nat): nat {
    if p < 4 then 1 else if p < 9 then 2 else if p < 16 then 3 else 4
  }

  function Square(n: nat): nat {
    n * n
  }

  function Cube(n: nat): nat {
    n * n * n
  }

  predicate CubeRootOf(t: nat)
    requires t < 64
  {
    var n := CubeRoot(Prime(t)) * 0x1_0000_0000 + K(t) as int;
    Cube(n) <= Prime(t) * 0x1_0000_0000_0000_0000_0000_0000 < Cube(n + 1)
  }

  /** Round constant t is the first 32 bits of the fractional part of the cube root of
      the t-th prime: with r its whole part, r * 2^32 and the constant is the whole part
      of the root times 2^32. */
  lemma ConstantsAreCubeRoots(t: nat) returns (r: nat)
    requires t < 64
    ensures var n := r * 0x1_0000_0000 + K(t) as int;
            Cube(n) <= Prime(t) * 0x1_0000_0000_0000_0000_0000_0000 < Cube(n + 1)
  {
    assert CubeRootOf(t) by {
      hide *;
      CubeRoots0(); CubeRoots1(); CubeRoots2(); CubeRoots3();
      CubeRoots4(); CubeRoots5(); CubeRoots6(); CubeRoots7();
      CubeRoots8(); CubeRoots9(); CubeRoots10(); CubeRoots11();
      CubeRoots12(); CubeRoots13(); CubeRoots14(); CubeRoots15();
    }
    hide K, Prime, CubeRoot, Cube;
    r := CubeRoot(Prime(t));
  }

  lemma CubeRoots0()
    ensures forall t {:trigger CubeRootOf(t)} :: 0 <= t < 4 ==> CubeRootOf(t)
  {
    assert CubeRootOf(0) && CubeRootOf(1) && CubeRootOf(2) && CubeRootOf(3);
    hide CubeRootOf;
  }

  lemma CubeRoots1()
    ensures forall t {:trigger CubeRootOf(t)} :: 4 <= t < 8 ==> CubeRootOf(t)
  {
    assert CubeRootOf(4) && CubeRootOf(5) && CubeRootOf(6) && CubeRootOf(7);
    hide CubeRootOf;
  }

  lemma CubeRoots2()
    ensures forall t {:trigger CubeRootOf(t)} :: 8 <= t < 12 ==> CubeRootOf(t)
  {
    assert CubeRootOf(8) && CubeRootOf(9) && CubeRootOf(10) && CubeRootOf(11);
    hide CubeRootOf;
  }

  lemma CubeRoots3()
    ensures forall t {:trigger CubeRootOf(t)} :: 12 <= t < 16 ==> CubeRootOf(t)
  {
    assert CubeRootOf(12) && CubeRootOf(13) && CubeRootOf(14) && CubeRootOf(15);
    hide CubeRootOf;
  }

  lemma CubeRoots4()
    ensures forall t {:trigger CubeRootOf(t)} :: 16 <= t < 20 ==> CubeRootOf(t)
  {
    assert CubeRootOf(16) && CubeRootOf(17) && CubeRootOf(18) && CubeRootOf(19);
    hide CubeRootOf;
  }

  lemma CubeRoots5()
    ensures forall t {:trigger CubeRootOf(t)} :: 20 <= t < 24 ==> CubeRootOf(t)
  {
    assert CubeRootOf(20) && CubeRootOf(21) && CubeRootOf(22) && CubeRootOf(23);
    hide CubeRootOf;
  }

  lemma CubeRoots6()
    ensures forall t {:trigger CubeRootOf(t)} :: 24 <= t < 28 ==> CubeRootOf(t)
  {
    assert CubeRootOf(24) && CubeRootOf(25) && CubeRootOf(26) && CubeRootOf(27);
    hide CubeRootOf;
  }

  lemma CubeRoots7()
    ensures forall t {:trigger CubeRootOf(t)} :: 28 <= t < 32 ==> CubeRootOf(t)
  {
    assert CubeRootOf(28) && CubeRootOf(29) && CubeRootOf(30) && CubeRootOf(31);
    hide CubeRootOf;
  }

  lemma CubeRoots8()
    ensures forall t {:trigger CubeRootOf(t)} :: 32 <= t < 36 ==> CubeRootOf(t)
  {
    assert CubeRootOf(32) && CubeRootOf(33) && CubeRootOf(34) && CubeRootOf(35);
    hide CubeRootOf;
  }

  lemma CubeRoots9()
    ensures forall t {:trigger CubeRootOf(t)} :: 36 <= t < 40 ==> CubeRootOf(t)
  {
    assert CubeRootOf(36) && CubeRootOf(37) && CubeRootOf(38) && CubeRootOf(39);
    hide CubeRootOf;
  }

  lemma CubeRoots10()
    ensures forall t {:trigger CubeRootOf(t)} :: 40 <= t < 44 ==> CubeRootOf(t)
  {
    assert CubeRootOf(40) && CubeRootOf(41) && CubeRootOf(42) && CubeRootOf(43);
    hide CubeRootOf;
  }

  lemma CubeRoots11()
    ensures forall t {:trigger CubeRootOf(t)} :: 44 <= t < 48 ==> CubeRootOf(t)
  {
    assert CubeRootOf(44) && CubeRootOf(45) && CubeRootOf(46) && CubeRootOf(47);
    hide CubeRootOf;
  }

  lemma CubeRoots12()
    ensures forall t {:trigger CubeRootOf(t)} :: 48 <= t < 52 ==> CubeRootOf(t)
  {
    assert CubeRootOf(48) && CubeRootOf(49) && CubeRootOf(50) && CubeRootOf(51);
    hide CubeRootOf;
  }

  lemma CubeRoots13()
    ensures forall t {:trigger CubeRootOf(t)} :: 52 <= t < 56 ==> CubeRootOf(t)
  {
    assert CubeRootOf(52) && CubeRootOf(53) && CubeRootOf(54) && CubeRootOf(55);
    hide CubeRootOf;
  }

  lemma CubeRoots14()
    ensures forall t {:trigger CubeRootOf(t)} :: 56 <= t < 60 ==> CubeRootOf(t)
  {
    assert CubeRootOf(56) && CubeRootOf(57) && CubeRootOf(58) && CubeRootOf(59);
    hide CubeRootOf;
  }

  lemma CubeRoots15()
    ensures forall t {:trigger CubeRootOf(t)} :: 60 <= t < 64 ==> CubeRootOf(t)
  {
    assert CubeRootOf(60) && CubeRootOf(61) && CubeRootOf(62) && CubeRootOf(63);
    hide CubeRootOf;
  }

  predicate SquareRootOf(i: nat)
    requires i < 8
  {
    var n := SquareRoot(Prime(i)) * 0x1_0000_0000 + H0()[i] as int;
    Square(n) <= Prime(i) * 0x1_0000_0000_0000_0000 < Square(n + 1)
  }

  /** The initial hash value likewise: the square roots of the first eight primes. */
  lemma InitialHashIsSquareRoots(i: nat) returns (r: nat)
    requires i < 8
    ensures var n := r * 0x1_0000_0000 + H0()[i] as int;
            Square(n) <= Prime(i) * 0x1_0000_0000_0000_0000 < Square(n + 1)
  {
    assert SquareRootOf(i) by {
      hide *;
      SquareRoots0();
      SquareRoots1();
    }
    hide H0, Prime, SquareRoot, Square;
    r := SquareRoot(Prime(i));
  }

  lemma SquareRoots0()
    ensures forall i {:trigger SquareRootOf(i)} :: 0 <= i < 4 ==> SquareRootOf(i)
  {
    assert SquareRootOf(0) && SquareRootOf(1) && SquareRootOf(2) && SquareRootOf(3);
    hide SquareRootOf;
  }

  lemma SquareRoots1()
    ensures forall i {:trigger SquareRootOf(i)} :: 4 <= i < 8 ==> SquareRootOf(i)
  {
    assert SquareRootOf(4) && SquareRootOf(5) && SquareRootOf(6) && SquareRootOf(7);
    hide SquareRootOf;
  }

  /** Bit i of a word, the lowest being bit 0. */
  predicate Bit(x: word, i: word)
    requires i < 32
  {
    (x >> i) & 1 == 1
  }

  /** Whether an odd number of three bits is set. */
  predicate Odd(a: bool, b: bool, c: bool) {
    (a != b) != c
  }

  lemma RotrBit()
    ensures forall x: word, n: word, i: word :: 0 < n < 32 && i < 32 ==>
              Bit(Rotr(x, n), i) == Bit(x, (i + n) & 31)
  {
  }

  /** Bit by bit, Ch chooses and Maj takes the majority. */
  lemma ChooseBit()
    ensures forall x: word, y: word, z: word, i: word :: i < 32 ==>
              Bit(Ch(x, y, z), i) == if Bit(x, i) then Bit(y, i) else Bit(z, i)
  {
  }

  lemma MajorityBit()
    ensures forall x: word, y: word, z: word, i: word :: i < 32 ==>
              Bit(Maj(x, y, z), i) == if Bit(x, i) == Bit(y, i) then Bit(x, i) else Bit(z, i)
  {
  }

  /** Each bit of the sigma functions is the parity of three bits of x, counted round
      the word, except that the shifted-out ones are clear. */
  lemma BigSigma0Bit()
    ensures forall x: word, i: word :: i < 32 ==>
              Bit(BigSigma0(x), i) == Odd(Bit(x, (i + 2) & 31), Bit(x, (i + 13) & 31), Bit(x, (i + 22) & 31))
  {
  }

  lemma BigSigma1Bit()
    ensures forall x: word, i: word :: i < 32 ==>
              Bit(BigSigma1(x), i) == Odd(Bit(x, (i + 6) & 31), Bit(x, (i + 11) & 31), Bit(x, (i + 25) & 31))
  {
  }

  lemma SmallSigma0Bit()
    ensures forall x: word, i: word :: i < 32 ==>
              Bit(SmallSigma0(x), i) == Odd(Bit(x, (i + 7) & 31), Bit(x, (i + 18) & 31), i < 29 && Bit(x, i + 3))
  {
  }

  lemma SmallSigma1Bit()
    ensures forall x: word, i: word :: i < 32 ==>
              Bit(SmallSigma1(x), i) == Odd(Bit(x, (i + 17) & 31), Bit(x, (i + 19) & 31), i < 22 && Bit(x, i + 10))
  {
  }

  /** Addition counts on from x, all the way round. */
  lemma PlusCounts(x: word, y: word)
    ensures Plus(x, 0) == x && Plus(x, y + 1) == Plus(x, y) + 1
  {
  }

  lemma OctetIsLowBits(x: word)
    ensures Octet(x) as bv8 as word == x & 0xFF
  {
  }

  /** A word is read back from the four bytes it is written as. */
  lemma BytesOfWord(x: word)
    ensures var b := WordBytes(x); Join(b[0], b[1], b[2], b[3]) == x
  {
    OctetIsLowBits(Shr(x, 24));
    OctetIsLowBits(Shr(x, 16));
    OctetIsLowBits(Shr(x, 8));
    OctetIsLowBits(x);
    hide Octet;
  }
}
