/** SHA-256 as FIPS 180-4 defines it, on byte strings. */
module Sha256Spec {
  type byte = x: int | 0 <= x < 256
  type word = bv32

  // ---------------------------------------------------------------------
  // Section 4.1.2, the six functions; section 4.2.2 and 5.3.3, the constants
  // ---------------------------------------------------------------------

  function Rotr(x: word, n: word): word
    requires n <= 32
  {
    (x >> n) | (x << (32 - n))
  }

  function Shr(x: word, n: word): word
    requires n < 32
  {
    x >> n
  }

  /** Addition modulo 2^32. */
  function Plus(x: word, y: word): word {
    x + y
  }

  function Ch(x: word, y: word, z: word): word {
    (x & y) ^ (!x & z)
  }

  function Maj(x: word, y: word, z: word): word {
    (x & y) ^ (x & z) ^ (y & z)
  }

  function BigSigma0(x: word): word {
    Rotr(x, 2) ^ Rotr(x, 13) ^ Rotr(x, 22)
  }

  function BigSigma1(x: word): word {
    Rotr(x, 6) ^ Rotr(x, 11) ^ Rotr(x, 25)
  }

  function SmallSigma0(x: word): word {
    Rotr(x, 7) ^ Rotr(x, 18) ^ Shr(x, 3)
  }

  function SmallSigma1(x: word): word {
    Rotr(x, 17) ^ Rotr(x, 19) ^ Shr(x, 10)
  }

  function K(t: nat): word
    requires t < 64
  {
    [
      [0x428A2F98, 0x71374491, 0xB5C0FBCF, 0xE9B5DBA5, 0x3956C25B, 0x59F111F1, 0x923F82A4, 0xAB1C5ED5],
      [0xD807AA98, 0x12835B01, 0x243185BE, 0x550C7DC3, 0x72BE5D74, 0x80DEB1FE, 0x9BDC06A7, 0xC19BF174],
      [0xE49B69C1, 0xEFBE4786, 0x0FC19DC6, 0x240CA1CC, 0x2DE92C6F, 0x4A7484AA, 0x5CB0A9DC, 0x76F988DA],
      [0x983E5152, 0xA831C66D, 0xB00327C8, 0xBF597FC7, 0xC6E00BF3, 0xD5A79147, 0x06CA6351, 0x14292967],
      [0x27B70A85, 0x2E1B2138, 0x4D2C6DFC, 0x53380D13, 0x650A7354, 0x766A0ABB, 0x81C2C92E, 0x92722C85],
      [0xA2BFE8A1, 0xA81A664B, 0xC24B8B70, 0xC76C51A3, 0xD192E819, 0xD6990624, 0xF40E3585, 0x106AA070],
      [0x19A4C116, 0x1E376C08, 0x2748774C, 0x34B0BCB5, 0x391C0CB3, 0x4ED8AA4A, 0x5B9CCA4F, 0x682E6FF3],
      [0x748F82EE, 0x78A5636F, 0x84C87814, 0x8CC70208, 0x90BEFFFA, 0xA4506CEB, 0xBEF9A3F7, 0xC67178F2]
    ][t / 8][t % 8]
  }

  function H0(): (h: seq<word>)
    ensures |h| == 8
  {
    [0x6A09E667, 0xBB67AE85, 0x3C6EF372, 0xA54FF53A, 0x510E527F, 0x9B05688C, 0x1F83D9AB, 0x5BE0CD19]
  }

  // ---------------------------------------------------------------------
  // Section 5.1.1, padding; section 5.2.1, parsing
  // ---------------------------------------------------------------------

  function Zeros(k: nat): (z: seq<byte>)
    ensures |z| == k && forall i :: 0 <= i < k ==> z[i] == 0
  {
    seq(k, i => 0)
  }

  /** The low eight bits of n. */
  function LowByte(n: nat): byte {
    n % 256
  }

  /** The number n in k bytes, most significant first. */
  function BigEndian(n: nat, k: nat): (s: seq<byte>)
    ensures |s| == k
  {
    if k == 0 then [] else BigEndian(n / 256, k - 1) + [LowByte(n)]
  }

  /** How many zero bytes leave room for exactly the length field. */
  function ZeroCount(len: nat): (k: nat)
    ensures k < 64 && (len + 1 + k) % 64 == 56
  {
    (119 - len % 64) % 64
  }

  lemma PaddedLength(len: nat)
    ensures (len + 1 + ZeroCount(len) + 8) % 64 == 0
  {
  }

  lemma ZeroCountIsLeast(len: nat, j: nat)
    requires (len + 1 + j) % 64 == 56
    ensures ZeroCount(len) <= j
  {
  }

  function Pad(m: seq<byte>): (p: seq<byte>)
    ensures |p| % 64 == 0 && m <= p
  {
    PaddedLength(|m|);
    m + [0x80] + Zeros(ZeroCount(|m|)) + BigEndian(8 * |m|, 8)
  }

  // ---------------------------------------------------------------------
  // Section 6.2.2, the hash computation
  // ---------------------------------------------------------------------

  /** Four bytes as a word, the first one highest. */
  function Join(a: byte, b: byte, c: byte, d: byte): word {
    (a as bv8 as word << 24) | (b as bv8 as word << 16) | (c as bv8 as word << 8) | (d as bv8 as word)
  }

  function WordAt(block: seq<byte>, t: nat): word
    requires |block| == 64 && t < 16
  {
    Join(block[4 * t], block[4 * t + 1], block[4 * t + 2], block[4 * t + 3])
  }

  function Schedule(block: seq<byte>, t: nat): word
    requires |block| == 64 && t < 64
  {
    if t < 16 then WordAt(block, t)
    else Expand(Schedule(block, t - 2), Schedule(block, t - 7), Schedule(block, t - 15), Schedule(block, t - 16))
  }

  function Expand(w2: word, w7: word, w15: word, w16: word): word {
    Plus(Plus(Plus(SmallSigma1(w2), w7), SmallSigma0(w15)), w16)
  }

  /** The eight working variables. */
  datatype Working = Working(a: word, b: word, c: word, d: word, e: word, f: word, g: word, h: word)

  function T1(e: word, f: word, g: word, h: word, k: word, w: word): word {
    Plus(Plus(Plus(Plus(h, BigSigma1(e)), Ch(e, f, g)), k), w)
  }

  function T2(a: word, b: word, c: word): word {
    Plus(BigSigma0(a), Maj(a, b, c))
  }

  function Round(v: Working, k: word, w: word): Working {
    var t1, t2 := T1(v.e, v.f, v.g, v.h, k, w), T2(v.a, v.b, v.c);
    Working(Plus(t1, t2), v.a, v.b, v.c, Plus(v.d, t1), v.e, v.f, v.g)
  }

  function Rounds(v: Working, block: seq<byte>, t: nat): Working
    requires |block| == 64 && t <= 64
  {
    if t == 0 then v else Round(Rounds(v, block, t - 1), K(t - 1), Schedule(block, t - 1))
  }

  function Load(h: seq<word>): Working
    requires |h| == 8
  {
    Working(h[0], h[1], h[2], h[3], h[4], h[5], h[6], h[7])
  }

  function AddWorking(h: seq<word>, v: Working): (r: seq<word>)
    requires |h| == 8
    ensures |r| == 8
  {
    [Plus(h[0], v.a), Plus(h[1], v.b), Plus(h[2], v.c), Plus(h[3], v.d),
     Plus(h[4], v.e), Plus(h[5], v.f), Plus(h[6], v.g), Plus(h[7], v.h)]
  }

  function Compress(h: seq<word>, block: seq<byte>): (r: seq<word>)
    requires |h| == 8 && |block| == 64
    ensures |r| == 8
  {
    AddWorking(h, Rounds(Load(h), block, 64))
  }

  /** The hash value after all blocks of a padded message, folded left to right. */
  function Fold(p: seq<byte>): (h: seq<word>)
    requires |p| % 64 == 0
    ensures |h| == 8
    decreases |p|
  {
    if p == [] then H0() else Compress(Fold(p[..|p| - 64]), p[|p| - 64..])
  }

  /** The `uint8_t` cast. */
  function Octet(x: word): byte {
    ((x & 0xFF) as bv8) as int
  }

  function WordBytes(x: word): (s: seq<byte>)
    ensures |s| == 4
  {
    [Octet(Shr(x, 24)), Octet(Shr(x, 16)), Octet(Shr(x, 8)), Octet(x)]
  }

  function Output(h: seq<word>): (s: seq<byte>)
    ensures |s| == 4 * |h|
  {
    if h == [] then [] else Output(h[..|h| - 1]) + WordBytes(h[|h| - 1])
  }

  function Digest(m: seq<byte>): (d: seq<byte>)
    ensures |d| == 32
  {
    Output(Fold(Pad(m)))
  }
}
