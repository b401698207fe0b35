/** The kernel's SHA-256: full blocks are compressed straight from the message, the
    rest goes through a 64-byte buffer filled once or twice. */
module Sha256 {
  import opened Sha256Spec

  /** Compresses one block into the running hash value. */
  method Transform(state: array<word>, block: seq<byte>)
    requires state.Length == 8 && |block| == 64
    modifies state
    ensures state[..] == Compress(old(state[..]), block)
  {
    var w := BuildSchedule(block);
    var a, b, c, d, e, f, g, h := Mix(state, w, block);
    hide Rounds;
    AddInto(state, a, b, c, d, e, f, g, h);
  }

  method BuildSchedule(block: seq<byte>) returns (w: array<word>)
    requires |block| == 64
    ensures fresh(w) && w.Length == 64
    ensures forall t :: 0 <= t < 64 ==> w[t] == Schedule(block, t)
  {
    w := new word[64](_ => 0);
    for i := 0 to 16
      invariant forall t :: 0 <= t < i ==> w[t] == Schedule(block, t)
    {
      w[i] := WordAt(block, i);
    }
    ExtendSchedule(block, w);
  }

  method ExtendSchedule(ghost block: seq<byte>, w: array<word>)
    requires |block| == 64 && w.Length == 64
    requires forall t :: 0 <= t < 16 ==> w[t] == Schedule(block, t)
    modifies w
    ensures forall t :: 0 <= t < 64 ==> w[t] == Schedule(block, t)
  {
    hide Schedule, SmallSigma0, SmallSigma1, Plus;
    for i := 16 to 64
      invariant forall t :: 0 <= t < i ==> w[t] == Schedule(block, t)
    {
      ScheduleNext(block, i, w[i - 2], w[i - 7], w[i - 15], w[i - 16]);
      w[i] := Plus(Plus(Plus(SmallSigma1(w[i - 2]), w[i - 7]), SmallSigma0(w[i - 15])), w[i - 16]);
    }
  }

  lemma ScheduleNext(block: seq<byte>, i: nat, w2: word, w7: word, w15: word, w16: word)
    requires |block| == 64 && 16 <= i < 64
    requires w2 == Schedule(block, i - 2) && w7 == Schedule(block, i - 7)
    requires w15 == Schedule(block, i - 15) && w16 == Schedule(block, i - 16)
    ensures Schedule(block, i) == Expand(w2, w7, w15, w16)
  {
  }

  /** The 64 rounds, on eight variables updated one after the other. */
  method Mix(state: array<word>, w: array<word>, ghost block: seq<byte>)
    returns (a: word, b: word, c: word, d: word, e: word, f: word, g: word, h: word)
    requires state.Length == 8 && |block| == 64 && w.Length == 64
    requires forall t :: 0 <= t < 64 ==> w[t] == Schedule(block, t)
    ensures Working(a, b, c, d, e, f, g, h) == Rounds(Load(state[..]), block, 64)
  {
    a, b, c, d := state[0], state[1], state[2], state[3];
    e, f, g, h := state[4], state[5], state[6], state[7];
    ghost var start := Load(state[..]);
    assert Rounds(start, block, 0) == start;
    hide Rounds, Schedule, K, Ch, Maj, BigSigma0, BigSigma1, Plus;
    for i := 0 to 64
      invariant Working(a, b, c, d, e, f, g, h) == Rounds(start, block, i)
    {
      RoundsNext(start, block, i);
      var t1 := Plus(Plus(Plus(Plus(h, BigSigma1(e)), Ch(e, f, g)), K(i)), w[i]);
      var t2 := Plus(BigSigma0(a), Maj(a, b, c));
      h := g;
      g := f;
      f := e;
      e := Plus(d, t1);
      d := c;
      c := b;
      b := a;
      a := Plus(t1, t2);
    }
  }

  lemma RoundsNext(start: Working, block: seq<byte>, i: nat)
    requires |block| == 64 && i < 64
    ensures Rounds(start, block, i + 1) == Round(Rounds(start, block, i), K(i), Schedule(block, i))
  {
  }

  /** Adds the working variables to the hash value, word by word. */
  method AddInto(state: array<word>, a: word, b: word, c: word, d: word, e: word, f: word, g: word, h: word)
    requires state.Length == 8
    modifies state
    ensures state[..] == AddWorking(old(state[..]), Working(a, b, c, d, e, f, g, h))
  {
    hide Plus;
    ghost var was := state[..];
    AddFour(state, 0, a, b, c, d);
    AddFour(state, 4, e, f, g, h);
    assert state[..] == state[..4] + state[4..];
  }

  /** Four of the eight additions. */
  method AddFour(state: array<word>, i: nat, p: word, q: word, r: word, s: word)
    requires state.Length == 8 && (i == 0 || i == 4)
    modifies state
    ensures state[..i] == old(state[..i]) && state[i + 4..] == old(state[i + 4..])
    ensures state[i] == Plus(old(state[i]), p) && state[i + 1] == Plus(old(state[i + 1]), q)
    ensures state[i + 2] == Plus(old(state[i + 2]), r) && state[i + 3] == Plus(old(state[i + 3]), s)
  {
    hide Plus;
    state[i] := Plus(state[i], p);
    state[i + 1] := Plus(state[i + 1], q);
    state[i + 2] := Plus(state[i + 2], r);
    state[i + 3] := Plus(state[i + 3], s);
  }

  /** Folding one more block onto a prefix of a padded message. */
  lemma FoldNext(p: seq<byte>, block: seq<byte>)
    requires |p| % 64 == 0 && |block| == 64
    ensures |p + block| % 64 == 0 && Fold(p + block) == Compress(Fold(p), block)
  {
    assert (p + block)[..|p + block| - 64] == p;
    assert (p + block)[|p + block| - 64..] == block;
  }

  /** Compresses the next block of a padded message whose prefix p is done. */
  method AddBlock(state: array<word>, ghost p: seq<byte>, block: seq<byte>)
    requires state.Length == 8 && |block| == 64 && |p| % 64 == 0 && state[..] == Fold(p)
    modifies state
    ensures |p + block| % 64 == 0 && state[..] == Fold(p + block)
  {
    FoldNext(p, block);
    Transform(state, block);
  }

  lemma NextBlock(data: seq<byte>, done: nat)
    requires done + 64 <= |data|
    ensures data[..done] + data[done..done + 64] == data[..done + 64]
  {
  }

  lemma LastFullBlock(len: nat, done: nat)
    requires done % 64 == 0 && done <= len < done + 64
    ensures done == len - len % 64
  {
  }

  /** The bytes of the length field, as the source extracts them with shifts. */
  function LengthField(bits: nat): (s: seq<byte>)
    ensures |s| == 8
  {
    [LowByte(bits / 0x100_0000_0000_0000), LowByte(bits / 0x1_0000_0000_0000),
     LowByte(bits / 0x100_0000_0000), LowByte(bits / 0x1_0000_0000),
     LowByte(bits / 0x100_0000), LowByte(bits / 0x1_0000),
     LowByte(bits / 0x100), LowByte(bits)]
  }

  function FourBytes(n: nat): (s: seq<byte>)
    ensures |s| == 4
  {
    [LowByte(n / 0x100_0000), LowByte(n / 0x1_0000), LowByte(n / 0x100), LowByte(n)]
  }

  lemma LengthFieldIsBigEndian(bits: nat)
    ensures LengthField(bits) == BigEndian(bits, 8)
  {
    EightBytes(bits, 8);
    HighQuotients(bits);
  }

  lemma EightBytes(n: nat, k: nat)
    requires k == 8
    ensures BigEndian(n, k) == FourBytes(n / 0x1_0000_0000) + FourBytes(n)
  {
    LowFourBytes(n, k - 4);
    LowFourBytes(n / 0x1_0000_0000, k - 8);
  }

  lemma HighQuotients(n: nat)
    ensures n / 0x1_0000_0000 / 0x100_0000 == n / 0x100_0000_0000_0000
    ensures n / 0x1_0000_0000 / 0x1_0000 == n / 0x1_0000_0000_0000
    ensures n / 0x1_0000_0000 / 0x100 == n / 0x100_0000_0000
  {
  }

  lemma LowFourBytes(n: nat, k: nat)
    ensures BigEndian(n, k + 4) == BigEndian(n / 0x1_0000_0000, k) + FourBytes(n)
  {
    LowTwoBytes(n, k + 2);
    LowTwoBytes(n / 0x1_0000, k);
    assert n / 0x1_0000 / 0x1_0000 == n / 0x1_0000_0000 && n / 0x1_0000 / 0x100 == n / 0x100_0000;
  }

  lemma LowTwoBytes(n: nat, k: nat)
    ensures BigEndian(n, k + 2) == BigEndian(n / 0x1_0000, k) + [LowByte(n / 0x100), LowByte(n)]
  {
    assert n / 0x100 / 0x100 == n / 0x1_0000;
    assert BigEndian(n, k + 2) == BigEndian(n / 0x100, k + 1) + [LowByte(n)];
  }

  /** The padded message is the full blocks followed by one or two more. */
  lemma TailIsPadding(m: seq<byte>, full: nat)
    requires full == |m| - |m| % 64
    ensures Pad(m) == m[..full] + Tail(m[full..], |m|)
  {
    assert m == m[..full] + m[full..];
    assert ZeroCount(|m|) == ZeroCount(|m| - full);
  }

  /** What follows the full blocks: the remaining bytes, padded. */
  function Tail(rest: seq<byte>, len: nat): (t: seq<byte>)
    requires |rest| < 64 && len % 64 == |rest|
    ensures |t| == if |rest| + 1 > 56 then 128 else 64
  {
    rest + [0x80] + Zeros(ZeroCount(|rest|)) + BigEndian(8 * len, 8)
  }

  method Hash(data: seq<byte>, out: array<byte>)
    requires |data| < 0x1_0000_0000 && out.Length == 32
    modifies out
    ensures out[..] == Digest(data)
  {
    var state := new word[8](i requires 0 <= i < 8 => H0()[i]);
    assert state[..] == H0() == Fold(data[..0]);
    var done: nat, remaining: nat := 0, |data|;
    while remaining >= 64
      invariant done + remaining == |data| && done % 64 == 0
      invariant state[..] == Fold(data[..done])
    {
      NextBlock(data, done);
      AddBlock(state, data[..done], data[done..done + 64]);
      done, remaining := done + 64, remaining - 64;
    }
    LastFullBlock(|data|, done);
    TailIsPadding(data, done);
    Finish(state, data[..done], data[done..], |data|, Pad(data));
    Emit(state, out);
  }

  /** Hashes the last one or two blocks, built in a 64-byte buffer. */
  method Finish(state: array<word>, ghost full: seq<byte>, rest: seq<byte>, len: nat, ghost padded: seq<byte>)
    requires state.Length == 8 && |full| % 64 == 0 && state[..] == Fold(full)
    requires |rest| < 64 && len % 64 == |rest| && len < 0x1_0000_0000
    requires |padded| % 64 == 0 && padded == full + Tail(rest, len)
    modifies state
    ensures state[..] == Fold(padded)
  {
    hide Fold;
    var block := new byte[64](_ => 0);
    var remaining := CopyIn(block, rest);
    if remaining > 56 {
      FillToEnd(block, rest, remaining);
      ghost var flushed := rest + [0x80] + Zeros(63 - |rest|);
      AddBlock(state, full, block[..]);
      remaining := 0;
      FillLastBlock(block, [], remaining, len);
      TwoBlockTail(full, rest, len, flushed, block[..]);
      AddBlock(state, full + flushed, block[..]);
    } else {
      FillLastBlock(block, rest + [0x80], remaining, len);
      OneBlockTail(rest, len, block[..]);
      AddBlock(state, full, block[..]);
    }
  }

  method FillToEnd(block: array<byte>, ghost rest: seq<byte>, remaining: nat)
    requires block.Length == 64 && remaining == |rest| + 1 <= 64 && block[..remaining] == rest + [0x80]
    modifies block
    ensures block[..] == rest + [0x80] + Zeros(63 - |rest|)
  {
    FillZeros(block, remaining, 64);
  }

  /** Zeros up to byte 56, then the length. */
  method FillLastBlock(block: array<byte>, ghost kept: seq<byte>, remaining: nat, len: nat)
    requires block.Length == 64 && remaining <= 56 && block[..remaining] == kept && len < 0x1_0000_0000
    modifies block
    ensures block[..] == kept + Zeros(56 - |kept|) + BigEndian(8 * len, 8)
  {
    FillZeros(block, remaining, 56);
    assert block[..56] == kept + Zeros(56 - |kept|);
    StoreLength(block, len * 8);
  }

  lemma OneBlockTail(rest: seq<byte>, len: nat, block: seq<byte>)
    requires |rest| + 1 <= 56 && len % 64 == |rest|
    requires block == rest + [0x80] + Zeros(56 - |rest + [0x80]|) + BigEndian(8 * len, 8)
    ensures block == Tail(rest, len)
  {
    assert ZeroCount(|rest|) == 55 - |rest|;
  }

  lemma TwoBlockTail(full: seq<byte>, rest: seq<byte>, len: nat, first: seq<byte>, second: seq<byte>)
    requires 56 < |rest| + 1 <= 64 && len % 64 == |rest|
    requires first == rest + [0x80] + Zeros(63 - |rest|) && second == [] + Zeros(56) + BigEndian(8 * len, 8)
    ensures full + first + second == full + Tail(rest, len)
  {
    assert ZeroCount(|rest|) == 119 - |rest|;
    assert Zeros(63 - |rest|) + Zeros(56) == Zeros(119 - |rest|);
    assert first + second == Tail(rest, len);
  }

  /** Copies the last bytes of the message and appends the 1 bit. */
  method CopyIn(block: array<byte>, rest: seq<byte>) returns (remaining: nat)
    requires |rest| < block.Length
    modifies block
    ensures remaining == |rest| + 1 && block[..remaining] == rest + [0x80]
  {
    for i := 0 to |rest|
      invariant block[..i] == rest[..i]
    {
      block[i] := rest[i];
    }
    block[|rest|] := 0x80;
    remaining := |rest| + 1;
  }

  /** `while (remaining < limit) block[remaining++] = 0`. */
  method FillZeros(block: array<byte>, from: nat, limit: nat)
    requires from <= limit <= block.Length
    modifies block
    ensures block[..] == old(block[..from]) + Zeros(limit - from) + old(block[limit..])
  {
    var remaining := from;
    while remaining < limit
      invariant from <= remaining <= limit
      invariant forall i :: 0 <= i < block.Length ==>
                  block[i] == if from <= i < remaining then 0 else old(block[i])
    {
      block[remaining] := 0;
      remaining := remaining + 1;
    }
  }

  method StoreLength(block: array<byte>, bits: nat)
    requires block.Length == 64 && bits < 0x1_0000_0000_0000_0000
    modifies block
    ensures block[..] == old(block[..56]) + BigEndian(bits, 8)
  {
    hide LowByte, BigEndian;
    LengthFieldIsBigEndian(bits);
    block[56] := LowByte(bits / 0x100_0000_0000_0000);
    block[57] := LowByte(bits / 0x1_0000_0000_0000);
    block[58] := LowByte(bits / 0x100_0000_0000);
    block[59] := LowByte(bits / 0x1_0000_0000);
    block[60] := LowByte(bits / 0x100_0000);
    block[61] := LowByte(bits / 0x1_0000);
    block[62] := LowByte(bits / 0x100);
    block[63] := LowByte(bits);
    assert block[..] == old(block[..56]) + LengthField(bits);
  }

  /** Writes the hash value out, each word most significant byte first. */
  method Emit(state: array<word>, out: array<byte>)
    requires state.Length == 8 && out.Length == 32
    modifies out
    ensures out[..] == Output(state[..])
  {
    hide Octet, Shr, Output;
    for i := 0 to 8
      invariant out[..4 * i] == Output(state[..i])
    {
      out[i * 4] := Octet(Shr(state[i], 24));
      out[i * 4 + 1] := Octet(Shr(state[i], 16));
      out[i * 4 + 2] := Octet(Shr(state[i], 8));
      out[i * 4 + 3] := Octet(state[i]);
      OutputNext(state[..i], state[i], WordBytes(state[i]));
      assert state[..i + 1] == state[..i] + [state[i]];
      assert out[..4 * (i + 1)] == out[..4 * i] + WordBytes(state[i]);
    }
    assert state[..8] == state[..] && out[..32] == out[..];
  }

  lemma OutputNext(h: seq<word>, x: word, bytes: seq<byte>)
    requires bytes == WordBytes(x)
    ensures Output(h + [x]) == Output(h) + bytes
  {
    assert (h + [x])[..|h|] == h;
  }
}
