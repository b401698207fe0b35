/** Ledger blocks, their byte layout on 32-bit x86, and the hash that seals them. */
module LedgerBlocks {
  import opened Sha256Spec

  const UINT32_RANGE: nat := 0x1_0000_0000
  const UINT64_RANGE: nat := 0x1_0000_0000_0000_0000

  /** An event as the queue carries it. */
  datatype Event = Event(action: byte, streamId: byte, timestamp: nat, target: seq<byte>)

  datatype Block = Block(index: nat, timestamp: nat, action: byte, streamId: byte, parentCount: byte,
                         target: seq<byte>, prev0: seq<byte>, prev1: seq<byte>, hash: seq<byte>)

  /** All fields have their C widths. */
  ghost predicate Sized(b: Block) {
    && b.index < UINT32_RANGE && b.timestamp < UINT64_RANGE
    && |b.target| == 64 && |b.prev0| == 32 && |b.prev1| == 32 && |b.hash| == 32
  }

  function Blank(): (b: Block)
    ensures Sized(b)
  {
    Block(0, 0, 0, 0, 0, Zeros(64), Zeros(32), Zeros(32), Zeros(32))
  }

  // ---------------------------------------------------------------------
  // Strings
  // ---------------------------------------------------------------------

  /** How many bytes of the string at s precede its NUL (or all n of them). */
  function PrefixLength(s: seq<byte>, n: nat): (k: nat)
    requires n <= |s| || 0 in s
    ensures k <= n && k <= |s| && (forall i :: 0 <= i < k ==> s[i] != 0)
    ensures k < n ==> k < |s| && s[k] == 0
    decreases n
  {
    if n == 0 || s[0] == 0 then 0 else 1 + PrefixLength(s[1..], n - 1)
  }

  /** The n bytes `luna_strncpy(dst, s, n)` writes: the string, cut or padded with NULs. */
  function StrNCpy(s: seq<byte>, n: nat): (d: seq<byte>)
    requires n <= |s| || 0 in s
    ensures |d| == n
  {
    s[..PrefixLength(s, n)] + Zeros(n - PrefixLength(s, n))
  }

  /** The 64-byte target field made from a NUL-terminated string. */
  function TargetField(s: seq<byte>): (t: seq<byte>)
    requires 0 in s
    ensures |t| == 64
  {
    StrNCpy(s, 63) + [0]
  }

  lemma {:induction false} PrefixLengthIsFirstNul(s: seq<byte>, n: nat, k: nat)
    requires k <= n && k <= |s| && (forall i :: 0 <= i < k ==> s[i] != 0)
    requires k < n ==> k < |s| && s[k] == 0
    ensures (n <= |s| || 0 in s) && PrefixLength(s, n) == k
    decreases n
  {
    if k < n { assert s[k] in s; }
    if n > 0 && k > 0 {
      PrefixLengthIsFirstNul(s[1..], n - 1, k - 1);
    }
  }

  /** Copying a target field the way a block copies its event's target keeps it. */
  lemma TargetSurvivesCopy(s: seq<byte>)
    requires 0 in s
    ensures TargetField(TargetField(s)) == TargetField(s)
    ensures 0 in TargetField(s)
  {
    hide PrefixLength;
    var t, k := TargetField(s), PrefixLength(s, 63);
    FieldShape(s, k);
    PrefixLengthIsFirstNul(t, 63, k);
    assert t[..k] + Zeros(63 - k) + [0] == t;
  }

  lemma FieldShape(s: seq<byte>, k: nat)
    requires 0 in s && k == PrefixLength(s, 63)
    ensures var t := TargetField(s);
            t[63] == 0 && t[..k] == s[..k] && forall i :: k <= i < 64 ==> t[i] == 0
  {
    hide PrefixLength;
  }

  // ---------------------------------------------------------------------
  // Layout
  // ---------------------------------------------------------------------

  function LittleEndian(n: nat, k: nat): (s: seq<byte>)
    ensures |s| == k
  {
    if k == 0 then [] else [LowByte(n)] + LittleEndian(n / 256, k - 1)
  }

  function Value(s: seq<byte>): nat {
    if s == [] then 0 else s[0] + 256 * Value(s[1..])
  }

  function Power256(k: nat): (p: nat)
    ensures p > 0
  {
    if k == 0 then 1 else 256 * Power256(k - 1)
  }

  lemma {:induction false} LittleEndianValue(n: nat, k: nat)
    requires n < Power256(k)
    ensures Value(LittleEndian(n, k)) == n
  {
    if k > 0 {
      LittleEndianValue(n / 256, k - 1);
      assert LittleEndian(n, k)[1..] == LittleEndian(n / 256, k - 1);
    }
  }

  lemma FourBytes(n: nat, a: nat, b: nat, c: nat)
    requires a == n / 256 && b == a / 256 && c == b / 256
    ensures LittleEndian(n, 4) == [n % 256, a % 256, b % 256, c % 256]
  {
    assert LittleEndian(n, 4) == [LowByte(n)] + LittleEndian(a, 3);
    assert LittleEndian(a, 3) == [LowByte(a)] + LittleEndian(b, 2);
    assert LittleEndian(b, 2) == [LowByte(b)] + LittleEndian(c, 1);
    assert LittleEndian(c, 1) == [LowByte(c)] + LittleEndian(c / 256, 0);
    hide LittleEndian;
  }

  lemma EightIsTwice(n: nat, a: nat, b: nat, c: nat)
    requires a == n / 256 && b == a / 256 && c == b / 256
    ensures LittleEndian(n, 8) == LittleEndian(n, 4) + LittleEndian(c / 256, 4)
  {
    var low, high := [LowByte(n)], LittleEndian(c / 256, 4);
    assert LittleEndian(n, 8) == low + LittleEndian(a, 7) && LittleEndian(n, 4) == low + LittleEndian(a, 3);
    assert LittleEndian(a, 7) == [LowByte(a)] + LittleEndian(b, 6) && LittleEndian(a, 3) == [LowByte(a)] + LittleEndian(b, 2);
    assert LittleEndian(b, 6) == [LowByte(b)] + LittleEndian(c, 5) && LittleEndian(b, 2) == [LowByte(b)] + LittleEndian(c, 1);
    assert LittleEndian(c, 5) == [LowByte(c)] + high && LittleEndian(c, 1) == [LowByte(c)] + LittleEndian(c / 256, 0);
    hide LittleEndian, LowByte;
  }

  /** The bytes of 32-bit and 64-bit fields, lowest first. */
  lemma LittleEndianBytes(n: nat)
    ensures LittleEndian(n, 4) == [n % 256, n / 0x100 % 256, n / 0x1_0000 % 256, n / 0x100_0000 % 256]
    ensures LittleEndian(n, 8) == LittleEndian(n, 4) + LittleEndian(n / 0x1_0000_0000, 4)
  {
    hide LittleEndian;
    var a, b, c := n / 256, n / 256 / 256, n / 256 / 256 / 256;
    assert b == n / 0x1_0000 && c == n / 0x100_0000 && c / 256 == n / 0x1_0000_0000;
    FourBytes(n, a, b, c);
    EightIsTwice(n, a, b, c);
  }

  /** The 144 bytes before `block_hash`: what the hash covers. */
  function Preimage(b: Block): seq<byte> {
    LittleEndian(b.index, 4) + LittleEndian(b.timestamp, 8)
    + [b.action, b.streamId, b.parentCount, 0] + b.target + b.prev0 + b.prev1
  }

  /** The hash function that seals blocks; the kernel's is SHA-256. */
  type HashFunction = seq<byte> -> seq<byte>

  function BlockHash(H: HashFunction, b: Block): seq<byte> {
    H(Preimage(b))
  }

  /** The layout loses nothing: blocks with the same hashed bytes agree in every field
      except the hash itself. */
  lemma PreimageInjective(b: Block, c: Block)
    requires Sized(b) && Sized(c) && Preimage(b) == Preimage(c)
    ensures b == c.(hash := b.hash)
  {
    hide LittleEndian, Value, Power256;
    Fields(b);
    Fields(c);
    Powers();
    LittleEndianValue(b.index, 4);
    LittleEndianValue(c.index, 4);
    LittleEndianValue(b.timestamp, 8);
    LittleEndianValue(c.timestamp, 8);
  }

  lemma Powers()
    ensures Power256(4) == UINT32_RANGE && Power256(8) == UINT64_RANGE
  {
  }

  /** A blank block is all zero bytes, as `luna_memset` leaves it. */
  lemma BlankIsZero()
    ensures |Preimage(Blank())| == 144 && forall i :: 0 <= i < 144 ==> Preimage(Blank())[i] == 0
    ensures Blank().hash == Zeros(32) && forall i :: 0 <= i < 32 ==> Zeros(32)[i] == 0
  {
    LittleEndianBytes(0);
    hide LittleEndian;
  }

  lemma Fields(b: Block)
    requires Sized(b)
    ensures var p := Preimage(b);
            && |p| == 144
            && p[..4] == LittleEndian(b.index, 4) && p[4..12] == LittleEndian(b.timestamp, 8)
            && p[12] == b.action && p[13] == b.streamId && p[14] == b.parentCount && p[15] == 0
            && p[16..80] == b.target && p[80..112] == b.prev0 && p[112..144] == b.prev1
  {
    hide LittleEndian;
  }
}
