/** Bounded formatting (`luna_snprintf`) and number parsing of the string library.
    Strings are C strings without their final NUL. */
module Formatting {
  import opened Wrappers

  const NUL: char := '\0'

  /** One variadic argument; the integer kinds carry a value of that C type. */
  datatype Arg =
    | Str(text: Option<string>)
    | Int32(i: int)
    | Uint32(u: nat)
    | Int64(il: int)
    | Uint64(ul: nat)

  ghost predicate Ranged(a: Arg) {
    match a
    case Str(t) => t.Some? ==> NUL !in t.value && |t.value| < 0x8000_0000
    case Int32(i) => -0x8000_0000 <= i < 0x8000_0000
    case Uint32(u) => u < 0x1_0000_0000
    case Int64(i) => -0x8000_0000_0000_0000 <= i < 0x8000_0000_0000_0000
    case Uint64(u) => u < 0x1_0000_0000_0000_0000
  }

  ghost predicate AllRanged(args: seq<Arg>) {
    forall k :: 0 <= k < |args| ==> Ranged(args[k])
  }

  // ---------------------------------------------------------------------
  // What a conversion produces
  // ---------------------------------------------------------------------

  function DigitChar(d: nat, upper: bool): char
    requires d < 16
  {
    (if upper then "0123456789ABCDEF" else "0123456789abcdef")[d]
  }

  /** `v / base` for the two bases in use. */
  function Quotient(v: nat, base: nat): nat
    requires base == 10 || base == 16
  {
    if base == 10 then v / 10 else v / 16
  }

  /** `v % base`. */
  function Remainder(v: nat, base: nat): (r: nat)
    requires base == 10 || base == 16
    ensures r < base
  {
    if base == 10 then v % 10 else v % 16
  }

  /** The numeral of v, most significant digit first. */
  function Digits(v: nat, base: nat, upper: bool): (s: string)
    requires base == 10 || base == 16
    ensures |s| >= 1
    decreases v
  {
    if v < base then [DigitChar(v, upper)]
    else Digits(Quotient(v, base), base, upper) + [DigitChar(Remainder(v, base), upper)]
  }

  function Repeat(c: char, n: nat): (s: string)
    ensures |s| == n && forall i :: 0 <= i < n ==> s[i] == c
  {
    seq(n, i => c)
  }

  function PadLeft(s: string, width: nat, pad: char): string {
    if |s| < width then Repeat(pad, width - |s|) + s else s
  }

  /** `(uint64_t)v`. */
  function Unsigned64(v: int): nat
    requires -0x8000_0000_0000_0000 <= v < 0x8000_0000_0000_0000
  {
    if v < 0 then v + 0x1_0000_0000_0000_0000 else v
  }

  /** `if (v < 0) v = -v` on 32 bits and the cast to 64: the most negative number keeps
      its sign through the negation and is sign-extended. */
  function Magnitude32(v: int): nat
    requires -0x8000_0000 <= v < 0x8000_0000
  {
    Unsigned64(if v < 0 && v != -0x8000_0000 then -v else v)
  }

  /** The same on 64 bits, where the cast undoes the wrap. */
  function Magnitude64(v: int): nat
    requires -0x8000_0000_0000_0000 <= v < 0x8000_0000_0000_0000
  {
    Unsigned64(if v < 0 && v != -0x8000_0000_0000_0000 then -v else v)
  }

  function Sign(v: int): string {
    if v < 0 then "-" else ""
  }

  /** The numeral of a signed number, as a reader expects it. */
  function Decimal(v: int): string {
    if v < 0 then "-" + Digits(-v, 10, false) else Digits(v, 10, false)
  }

  // ---------------------------------------------------------------------
  // Reading digits
  // ---------------------------------------------------------------------

  /** The value of a digit character; 16, larger than any digit, for others. */
  function DigitOf(c: char): (d: nat)
    ensures d <= 16
  {
    if '0' <= c <= '9' then (c as int) - 48
    else if 'a' <= c <= 'f' then (c as int) - 87
    else if 'A' <= c <= 'F' then (c as int) - 55
    else 16
  }

  predicate IsDigit(c: char, base: nat) {
    DigitOf(c) < base && DigitOf(c) < 16
  }

  predicate AllDigits(s: string, i: nat, j: nat, base: nat)
    requires i <= j <= |s|
  {
    forall k :: i <= k < j ==> IsDigit(s[k], base)
  }

  /** The index after the digits that start at i. */
  function DigitsEnd(s: string, i: nat, base: nat): (j: nat)
    requires i <= |s|
    ensures i <= j <= |s| && (j < |s| ==> !IsDigit(s[j], base)) && AllDigits(s, i, j, base)
    decreases |s| - i
  {
    if i < |s| && IsDigit(s[i], base) then DigitsEnd(s, i + 1, base) else i
  }

  /** The number those digits write. */
  function DigitsValue(s: string, i: nat, j: nat, base: nat): nat
    requires i <= j <= |s|
    decreases j
  {
    if i == j then 0 else base * DigitsValue(s, i, j - 1, base) + DigitOf(s[j - 1])
  }

  // ---------------------------------------------------------------------
  // Format strings
  // ---------------------------------------------------------------------

  /** Everything between '%' at i - 1 and the conversion letter, and where that is. */
  datatype Spec = Spec(pad: char, width: nat, at: nat)

  function ParseSpec(f: string, i: nat): (d: Spec)
    requires i <= |f|
    ensures i <= d.at <= |f|
  {
    var start := if i < |f| && f[i] == '0' then i + 1 else i;
    var end := DigitsEnd(f, start, 10);
    Spec(if start > i then '0' else ' ', DigitsValue(f, start, end, 10), end)
  }

  /** The index after a conversion whose letter is at d.at. */
  function NextIndex(f: string, d: Spec): nat
    requires d.at < |f|
  {
    if f[d.at] == 'l' then d.at + 2 else d.at + 1
  }

  /** The argument a conversion takes fits its letter, and a value follows. */
  predicate Takes(f: string, d: Spec, args: seq<Arg>)
    requires d.at < |f|
  {
    match f[d.at]
    case 's' => args != [] && args[0].Str?
    case 'c' => args != [] && args[0].Int32?
    case 'd' => args != [] && args[0].Int32?
    case 'u' => args != [] && args[0].Uint32?
    case 'x' => args != [] && args[0].Uint32?
    case 'X' => args != [] && args[0].Uint32?
    case 'p' => args != [] && args[0].Uint32?
    case 'l' =>
      d.at + 1 < |f| &&
      (f[d.at + 1] == 'u' || f[d.at + 1] == 'x' ==> args != [] && args[0].Uint64?)
      && (f[d.at + 1] == 'd' ==> args != [] && args[0].Int64?)
    case _ => true
  }

  /** Conversions of one 32-bit argument to digits. */
  predicate IntLetter(c: char) {
    c == 'd' || c == 'u' || c == 'x' || c == 'X' || c == 'p'
  }

  /** How many arguments a conversion takes. */
  function Used(f: string, d: Spec): nat
    requires d.at < |f|
  {
    match f[d.at]
    case '%' => 0
    case 'l' => if d.at + 1 < |f| && (f[d.at + 1] == 'u' || f[d.at + 1] == 'x' || f[d.at + 1] == 'd') then 1 else 0
    case c => if IntLetter(c) || c == 's' || c == 'c' then 1 else 0
  }

  /** No dangling '%', widths that fit an int, arguments that match. */
  ghost predicate WellFormed(f: string, i: nat, args: seq<Arg>)
    requires i <= |f|
    decreases |f| - i
  {
    if i == |f| then true
    else if f[i] != '%' then WellFormed(f, i + 1, args)
    else
      var d := ParseSpec(f, i + 1);
      && d.at < |f| && d.width < 0x8000_0000 && Takes(f, d, args) && Used(f, d) <= |args|
      && NextIndex(f, d) <= |f| && WellFormed(f, NextIndex(f, d), args[Used(f, d)..])
  }

  /** The text of one conversion. */
  function Convert(f: string, d: Spec, args: seq<Arg>): string
    requires d.at < |f| && Takes(f, d, args)
    requires AllRanged(args)
  {
    match f[d.at]
    case 's' => PadLeft(if args[0].text.Some? then args[0].text.value else "(null)", d.width, ' ')
    case 'c' => [(args[0].i % 256) as char]
    case 'd' => Sign(args[0].i) + PadLeft(Digits(Magnitude32(args[0].i), 10, false), d.width, d.pad)
    case 'u' => PadLeft(Digits(args[0].u, 10, false), d.width, d.pad)
    case 'x' => PadLeft(Digits(args[0].u, 16, false), d.width, d.pad)
    case 'X' => PadLeft(Digits(args[0].u, 16, true), d.width, d.pad)
    case 'p' => "0x" + PadLeft(Digits(args[0].u, 16, false), 8, '0')
    case 'l' =>
      if f[d.at + 1] == 'u' then PadLeft(Digits(args[0].ul, 10, false), d.width, d.pad)
      else if f[d.at + 1] == 'x' then PadLeft(Digits(args[0].ul, 16, false), d.width, d.pad)
      else if f[d.at + 1] == 'd' then
        Sign(args[0].il) + PadLeft(Digits(Magnitude64(args[0].il), 10, false), d.width, d.pad)
      else ""
    case '%' => "%"
    case _ => "?"
  }

  /** The unbounded expansion of the format from index i on. */
  function Expand(f: string, i: nat, args: seq<Arg>): string
    requires i <= |f| && WellFormed(f, i, args) && AllRanged(args)
    decreases |f| - i
  {
    if i == |f| then ""
    else if f[i] != '%' then [f[i]] + Expand(f, i + 1, args)
    else
      var d := ParseSpec(f, i + 1);
      Convert(f, d, args) + Expand(f, NextIndex(f, d), args[Used(f, d)..])
  }

  // ---------------------------------------------------------------------
  // Writing into a bounded buffer
  // ---------------------------------------------------------------------

  /** The buffer holds as much of the text `out` as leaves room for a final NUL. */
  ghost predicate Holds(buf: array<char>, pos: nat, max: nat, out: string)
    reads buf
  {
    && 1 <= max <= buf.Length
    && pos <= |out| && pos == (if |out| < max then |out| else max - 1)
    && buf[..pos] == out[..pos]
  }

  method WriteChar(buf: array<char>, pos: nat, max: nat, c: char, ghost out: string) returns (p: nat)
    requires Holds(buf, pos, max, out)
    modifies buf
    ensures Holds(buf, p, max, out + [c])
    ensures forall k :: max - 1 <= k < buf.Length ==> buf[k] == old(buf[k])
  {
    p := pos;
    if p < max - 1 {
      buf[p] := c;
      p := p + 1;
      assert buf[..p] == buf[..pos] + [c];
    }
  }

  /** `while (pad-- > 0) write_char(pad)`. */
  method WritePadding(buf: array<char>, pos: nat, max: nat, pad: int, c: char, ghost out: string) returns (p: nat)
    requires Holds(buf, pos, max, out)
    modifies buf
    ensures Holds(buf, p, max, out + Repeat(c, if pad > 0 then pad else 0))
    ensures forall k :: max - 1 <= k < buf.Length ==> buf[k] == old(buf[k])
  {
    var left := pad;
    p := pos;
    ghost var written := 0;
    assert out + Repeat(c, 0) == out;
    while left > 0
      invariant written >= 0 && written + (if left > 0 then left else 0) == if pad > 0 then pad else 0
      invariant Holds(buf, p, max, out + Repeat(c, written))
      invariant forall k :: max - 1 <= k < buf.Length ==> buf[k] == old(buf[k])
    {
      p := WriteChar(buf, p, max, c, out + Repeat(c, written));
      left := left - 1;
      assert out + Repeat(c, written) + [c] == out + Repeat(c, written + 1);
      written := written + 1;
    }
  }

  method WriteStr(buf: array<char>, pos: nat, max: nat, s: string, width: nat, ghost out: string) returns (p: nat)
    requires Holds(buf, pos, max, out)
    modifies buf
    ensures Holds(buf, p, max, out + PadLeft(s, width, ' '))
    ensures forall k :: max - 1 <= k < buf.Length ==> buf[k] == old(buf[k])
  {
    p := WritePadding(buf, pos, max, width - |s|, ' ', out);
    ghost var before := out + Repeat(' ', if width > |s| then width - |s| else 0);
    assert before + s[..0] == before;
    var i := 0;
    while i < |s|
      invariant i <= |s| && Holds(buf, p, max, before + s[..i])
      invariant forall k :: max - 1 <= k < buf.Length ==> buf[k] == old(buf[k])
    {
      p := WriteChar(buf, p, max, s[i], before + s[..i]);
      assert before + s[..i] + [s[i]] == before + s[..i + 1];
      i := i + 1;
    }
    assert before + s[..i] == out + PadLeft(s, width, ' ');
  }

  function PowerOfTen(n: nat): (p: nat)
    ensures p >= 1
  {
    if n == 0 then 1 else 10 * PowerOfTen(n - 1)
  }

  lemma {:induction false} DigitCount(v: nat, base: nat, upper: bool, n: nat)
    requires (base == 10 || base == 16) && v < PowerOfTen(n) && n >= 1
    ensures |Digits(v, base, upper)| <= n
    decreases n
  {
    if v >= base {
      DigitCount(Quotient(v, base), base, upper, n - 1);
    }
  }

  /** A 64-bit number fits the 24-byte digit buffer, with room to spare. */
  lemma DigitsFitTheBuffer(v: nat, base: nat, upper: bool)
    requires (base == 10 || base == 16) && v < 0x1_0000_0000_0000_0000
    ensures |Digits(v, base, upper)| <= 20
  {
    assert PowerOfTen(5) == 100_000;
    assert PowerOfTen(10) == 10_000_000_000;
    assert PowerOfTen(15) == 1_000_000_000_000_000;
    assert PowerOfTen(20) == 100_000_000_000_000_000_000;
    DigitCount(v, base, upper, 20);
  }

  /** What is left to write once i digits of `all` have been collected. */
  ghost predicate Left(all: string, i: nat, val: nat, base: nat, upper: bool)
    requires base == 10 || base == 16
  {
    i <= |all| && all[..|all| - i] == if val == 0 then "" else Digits(val, base, upper)
  }

  lemma NextDigit(all: string, i: nat, val: nat, base: nat, upper: bool)
    requires (base == 10 || base == 16) && val != 0 && Left(all, i, val, base, upper)
    ensures i < |all| && all[|all| - 1 - i] == DigitChar(Remainder(val, base), upper)
    ensures Left(all, i + 1, Quotient(val, base), base, upper) && Quotient(val, base) < val
  {
    var rest := Digits(val, base, upper);
    assert all[..|all| - (i + 1)] == rest[..|rest| - 1];
  }

  lemma NothingLeft(all: string, i: nat, base: nat, upper: bool)
    requires (base == 10 || base == 16) && Left(all, i, 0, base, upper)
    ensures i == |all|
  {
  }

  /** Fills tmp with the digits of v, least significant first. */
  method CollectDigits(tmp: array<char>, v: nat, base: nat, upper: bool) returns (i: nat)
    requires tmp.Length == 24 && (base == 10 || base == 16) && v < 0x1_0000_0000_0000_0000
    modifies tmp
    ensures i == |Digits(v, base, upper)| <= 20
    ensures forall k :: 0 <= k < i ==> tmp[k] == Digits(v, base, upper)[i - 1 - k]
  {
    DigitsFitTheBuffer(v, base, upper);
    if v == 0 {
      tmp[0] := '0';
      return 1;
    }
    hide Digits;
    i := DivideOut(tmp, v, base, upper);
  }

  /** The loop that divides a positive number out. */
  method DivideOut(tmp: array<char>, v: nat, base: nat, upper: bool) returns (i: nat)
    requires tmp.Length == 24 && (base == 10 || base == 16) && v > 0 && |Digits(v, base, upper)| <= 20
    modifies tmp
    ensures i == |Digits(v, base, upper)|
    ensures forall k :: 0 <= k < i ==> tmp[k] == Digits(v, base, upper)[i - 1 - k]
  {
    ghost var all := Digits(v, base, upper);
    assert all[..|all|] == all && Left(all, 0, v, base, upper);
    hide Digits, Quotient, Remainder, DigitChar, Left;
    var val: nat := v;
    i := 0;
    while val != 0
      invariant i <= |all| && Left(all, i, val, base, upper)
      invariant forall k :: 0 <= k < i ==> tmp[k] == all[|all| - 1 - k]
      decreases val
    {
      NextDigit(all, i, val, base, upper);
      tmp[i] := DigitChar(Remainder(val, base), upper);
      i := i + 1;
      val := Quotient(val, base);
    }
    NothingLeft(all, i, base, upper);
  }

  /** `while (i > 0) write_char(tmp[--i])`. */
  method WriteReversed(buf: array<char>, pos: nat, max: nat, tmp: array<char>, n: nat, ghost all: string,
                       ghost out: string) returns (p: nat)
    requires Holds(buf, pos, max, out) && buf != tmp && n == |all| <= tmp.Length
    requires forall k :: 0 <= k < n ==> tmp[k] == all[n - 1 - k]
    modifies buf
    ensures Holds(buf, p, max, out + all)
    ensures forall k :: max - 1 <= k < buf.Length ==> buf[k] == old(buf[k])
  {
    assert max >= 1 && max <= buf.Length;
    hide Holds;
    p := pos;
    assert out + all[..0] == out;
    var i := n;
    while i > 0
      invariant 0 <= i <= n && Holds(buf, p, max, out + all[..n - i])
      invariant forall k :: max - 1 <= k < buf.Length ==> buf[k] == old(buf[k])
    {
      i := i - 1;
      p := WriteChar(buf, p, max, tmp[i], out + all[..n - 1 - i]);
      assert out + all[..n - 1 - i] + [all[n - 1 - i]] == out + all[..n - i];
    }
    assert all[..n] == all;
  }

  method WriteUint(buf: array<char>, pos: nat, max: nat, v: nat, base: nat, upper: bool,
                   width: nat, pad: char, ghost out: string) returns (p: nat)
    requires Holds(buf, pos, max, out) && (base == 10 || base == 16) && v < 0x1_0000_0000_0000_0000
    modifies buf
    ensures Holds(buf, p, max, out + PadLeft(Digits(v, base, upper), width, pad))
    ensures forall k :: max - 1 <= k < buf.Length ==> buf[k] == old(buf[k])
  {
    hide Digits, Holds;
    var tmp := new char[24];
    var i := CollectDigits(tmp, v, base, upper);
    ghost var all := Digits(v, base, upper);
    p := WritePadding(buf, pos, max, width - i, pad, out);
    ghost var padding := Repeat(pad, if width > i then width - i else 0);
    p := WriteReversed(buf, p, max, tmp, i, all, out + padding);
    assert out + padding + all == out + PadLeft(all, width, pad);
  }

  method WriteSigned(buf: array<char>, pos: nat, max: nat, v: int, magnitude: nat, width: nat, pad: char,
                     ghost out: string) returns (p: nat)
    requires Holds(buf, pos, max, out) && magnitude < 0x1_0000_0000_0000_0000
    modifies buf
    ensures Holds(buf, p, max, out + (Sign(v) + PadLeft(Digits(magnitude, 10, false), width, pad)))
    ensures forall k :: max - 1 <= k < buf.Length ==> buf[k] == old(buf[k])
  {
    hide Digits, PadLeft;
    p := pos;
    assert out + Sign(v) == if v < 0 then out + ['-'] else out;
    if v < 0 { p := WriteChar(buf, p, max, '-', out); }
    p := WriteUint(buf, p, max, magnitude, 10, false, width, pad, out + Sign(v));
    assert out + Sign(v) + PadLeft(Digits(magnitude, 10, false), width, pad)
        == out + (Sign(v) + PadLeft(Digits(magnitude, 10, false), width, pad));
  }

  method WriteLong(buf: array<char>, pos: nat, max: nat, f: string, d: Spec, args: seq<Arg>, ghost out: string)
    returns (p: nat)
    requires Holds(buf, pos, max, out) && d.at < |f| && Takes(f, d, args) && AllRanged(args) && f[d.at] == 'l'
    modifies buf
    ensures Holds(buf, p, max, out + Convert(f, d, args))
    ensures forall k :: max - 1 <= k < buf.Length ==> buf[k] == old(buf[k])
  {
    hide Digits, PadLeft, Sign, Magnitude64;
    var letter := f[d.at + 1];
    if letter == 'u' {
      p := WriteUint(buf, pos, max, args[0].ul, 10, false, d.width, d.pad, out);
    } else if letter == 'x' {
      p := WriteUint(buf, pos, max, args[0].ul, 16, false, d.width, d.pad, out);
    } else if letter == 'd' {
      Magnitude64Fits(args[0].il);
      p := WriteSigned(buf, pos, max, args[0].il, Magnitude64(args[0].il), d.width, d.pad, out);
    } else {
      p := pos;
      assert out + "" == out;
    }
  }

  lemma Magnitude64Fits(v: int)
    requires -0x8000_0000_0000_0000 <= v < 0x8000_0000_0000_0000
    ensures Magnitude64(v) < 0x1_0000_0000_0000_0000
    ensures Magnitude64(v) == if v < 0 then -v else v
  {
  }

  /** The `switch` on the conversion letter. */
  method WriteConversion(buf: array<char>, pos: nat, max: nat, f: string, d: Spec, args: seq<Arg>, ghost out: string)
    returns (p: nat)
    requires Holds(buf, pos, max, out) && d.at < |f| && Takes(f, d, args) && AllRanged(args)
    modifies buf
    ensures Holds(buf, p, max, out + Convert(f, d, args))
    ensures forall k :: max - 1 <= k < buf.Length ==> buf[k] == old(buf[k])
  {
    hide Digits, PadLeft, Sign, Holds;
    match f[d.at] {
      case 's' =>
        var text := if args[0].text.Some? then args[0].text.value else "(null)";
        p := WriteStr(buf, pos, max, text, d.width, out);
      case 'c' =>
        p := WriteChar(buf, pos, max, (args[0].i % 256) as char, out);
      case 'd' =>
        p := WriteSigned(buf, pos, max, args[0].i, Magnitude32(args[0].i), d.width, d.pad, out);
      case 'u' =>
        p := WriteUint(buf, pos, max, args[0].u, 10, false, d.width, d.pad, out);
      case 'x' =>
        p := WriteUint(buf, pos, max, args[0].u, 16, false, d.width, d.pad, out);
      case 'X' =>
        p := WriteUint(buf, pos, max, args[0].u, 16, true, d.width, d.pad, out);
      case 'p' =>
        p := WriteChar(buf, pos, max, '0', out);
        p := WriteChar(buf, p, max, 'x', out + ['0']);
        p := WriteUint(buf, p, max, args[0].u, 16, false, 8, '0', out + ['0'] + ['x']);
        assert out + ['0'] + ['x'] + PadLeft(Digits(args[0].u, 16, false), 8, '0')
            == out + ("0x" + PadLeft(Digits(args[0].u, 16, false), 8, '0'));
      case 'l' =>
        p := WriteLong(buf, pos, max, f, d, args, out);
      case '%' =>
        p := WriteChar(buf, pos, max, '%', out);
      case _ =>
        p := WriteChar(buf, pos, max, '?', out);
    }
  }

  /** The flag and width loop that follows a '%'. */
  method ReadSpec(f: string, i: nat) returns (d: Spec)
    requires i <= |f|
    ensures d == ParseSpec(f, i)
  {
    var pad, j := ' ', i;
    if j < |f| && f[j] == '0' { pad, j := '0', j + 1; }
    var width := 0;
    ghost var start := j;
    while j < |f| && '0' <= f[j] <= '9'
      invariant start <= j <= |f| && DigitsEnd(f, j, 10) == DigitsEnd(f, start, 10)
      invariant width == DigitsValue(f, start, j, 10)
    {
      width := width * 10 + ((f[j] as int) - 48);
      j := j + 1;
    }
    return Spec(pad, width, j);
  }

  /** Text already produced, followed by the expansion of what is left, is the whole. */
  ghost predicate Halfway(f: string, i: nat, rest: seq<Arg>, out: string, whole: string) {
    i <= |f| && WellFormed(f, i, rest) && AllRanged(rest) && out + Expand(f, i, rest) == whole
  }

  lemma PlainCharacter(f: string, i: nat, rest: seq<Arg>, out: string, whole: string)
    requires Halfway(f, i, rest, out, whole) && i < |f| && f[i] != '%'
    ensures Halfway(f, i + 1, rest, out + [f[i]], whole)
  {
    assert out + Expand(f, i, rest) == out + [f[i]] + Expand(f, i + 1, rest);
  }

  lemma Directive(f: string, i: nat, rest: seq<Arg>, out: string, whole: string)
    requires Halfway(f, i, rest, out, whole) && i < |f| && f[i] == '%'
    ensures var d := ParseSpec(f, i + 1);
            && d.at < |f| && Takes(f, d, rest) && AllRanged(rest) && Used(f, d) <= |rest|
            && NextIndex(f, d) <= |f|
            && Halfway(f, NextIndex(f, d), rest[Used(f, d)..], out + Convert(f, d, rest), whole)
  {
    hide Convert, ParseSpec;
    var d := ParseSpec(f, i + 1);
    var next := Expand(f, NextIndex(f, d), rest[Used(f, d)..]);
    assert out + Expand(f, i, rest) == out + Convert(f, d, rest) + next;
  }

  lemma HalfwayEnds(f: string, i: nat, rest: seq<Arg>, out: string, whole: string)
    requires Halfway(f, i, rest, out, whole)
    ensures i == |f| ==> out == whole
    ensures |out| <= |whole| && whole[..|out|] == out
  {
  }

  /** `buf[pos] = 0`, once the buffer is full or all of the text is out. */
  method Terminate(buf: array<char>, pos: nat, size: nat, ghost out: string, ghost text: string)
    requires Holds(buf, pos, size, out) && |out| <= |text| && text[..|out|] == out
    requires pos < size - 1 ==> out == text
    modifies buf
    ensures pos == (if |text| < size then |text| else size - 1)
    ensures buf[..pos] == text[..pos] && buf[pos] == NUL
    ensures forall k :: size <= k < buf.Length ==> buf[k] == old(buf[k])
  {
    buf[pos] := NUL;
    assert out[..pos] == text[..pos];
  }

  /** The loop over the format string. */
  method WriteExpansion(buf: array<char>, size: nat, f: string, args: seq<Arg>, ghost text: string)
    returns (pos: nat, ghost out: string)
    requires 1 <= size <= buf.Length && Halfway(f, 0, args, "", text)
    modifies buf
    ensures Holds(buf, pos, size, out) && |out| <= |text| && text[..|out|] == out
    ensures pos < size - 1 ==> out == text
    ensures forall k :: size - 1 <= k < buf.Length ==> buf[k] == old(buf[k])
  {
    hide WellFormed, Expand, AllRanged, Takes, Used, Convert, ParseSpec, Halfway;
    var i: nat, rest := 0, args;
    pos, out := 0, "";
    while i < |f| && pos < size - 1
      invariant i <= |f| && Holds(buf, pos, size, out)
      invariant Halfway(f, i, rest, out, text)
      invariant forall k :: size - 1 <= k < buf.Length ==> buf[k] == old(buf[k])
    {
      if f[i] != '%' {
        PlainCharacter(f, i, rest, out, text);
        pos := WriteChar(buf, pos, size, f[i], out);
        out := out + [f[i]];
        i := i + 1;
      } else {
        Directive(f, i, rest, out, text);
        var d := ReadSpec(f, i + 1);
        pos := WriteConversion(buf, pos, size, f, d, rest, out);
        out := out + Convert(f, d, rest);
        i, rest := NextIndex(f, d), rest[Used(f, d)..];
      }
    }
    HalfwayEnds(f, i, rest, out, text);
  }

  /** Writes as much of the expansion as fits, then NUL; returns the number of
      characters before the NUL. Nothing at or past `size` is touched. */
  method Snprintf(buf: array<char>, size: nat, f: string, args: seq<Arg>) returns (n: nat)
    requires size <= buf.Length && WellFormed(f, 0, args) && AllRanged(args)
    modifies buf
    ensures size == 0 ==> n == 0 && buf[..] == old(buf[..])
    ensures size > 0 ==>
              var text := Expand(f, 0, args);
              && n == (if |text| < size then |text| else size - 1)
              && buf[..n] == text[..n] && buf[n] == NUL
              && forall k :: size <= k < buf.Length ==> buf[k] == old(buf[k])
  {
    if size == 0 { return 0; }
    ghost var text := Expand(f, 0, args);
    assert Halfway(f, 0, args, "", text);
    hide WellFormed, Expand, AllRanged, Halfway;
    ghost var out;
    n, out := WriteExpansion(buf, size, f, args, text);
    Terminate(buf, n, size, out, text);
  }

  // ---------------------------------------------------------------------
  // Parsing
  // ---------------------------------------------------------------------

  /** The index after the blanks that start the text; only atoi skips tabs. */
  function BlanksEnd(s: string, i: nat, tabs: bool): (j: nat)
    requires i <= |s|
    ensures i <= j <= |s| && forall k :: i <= k < j ==> s[k] == ' ' || (tabs && s[k] == '\t')
    ensures j < |s| ==> s[j] != ' ' && (tabs ==> s[j] != '\t')
    decreases |s| - i
  {
    if i < |s| && (s[i] == ' ' || (tabs && s[i] == '\t')) then BlanksEnd(s, i + 1, tabs) else i
  }

  /** Where strtoul starts reading digits: after blanks and, in base 16, after "0x". */
  function NumberStart(s: string, base: nat): (j: nat)
    ensures j <= |s|
  {
    var i := BlanksEnd(s, 0, false);
    if base == 16 && i + 1 < |s| && s[i] == '0' && (s[i + 1] == 'x' || s[i + 1] == 'X') then i + 2 else i
  }

  /** The number strtoul reads; it wraps at 32 bits. */
  function UnsignedValue(s: string, base: nat): nat {
    var i := NumberStart(s, base);
    DigitsValue(s, i, DigitsEnd(s, i, base), base) % 0x1_0000_0000
  }

  /** `result * base + d` on 32 bits. */
  function Accumulated(result: nat, base: nat, d: nat): (r: nat)
    ensures r < 0x1_0000_0000
  {
    (base * result + d) % 0x1_0000_0000
  }

  /** Wrapping at every digit is wrapping once at the end. */
  lemma WrapsDigitByDigit(s: string, i: nat, j: nat, base: nat)
    requires i <= j < |s|
    ensures Accumulated(DigitsValue(s, i, j, base) % 0x1_0000_0000, base, DigitOf(s[j]))
         == DigitsValue(s, i, j + 1, base) % 0x1_0000_0000
  {
    var value, d := DigitsValue(s, i, j, base), DigitOf(s[j]);
    WrapsOnce(value, base, d);
  }

  lemma WrapsOnce(value: nat, base: nat, d: nat)
    ensures Accumulated(value % 0x1_0000_0000, base, d) == (base * value + d) % 0x1_0000_0000
  {
    var q, r := value / 0x1_0000_0000, value % 0x1_0000_0000;
    assert base * value == base * (q * 0x1_0000_0000) + base * r;
    assert base * (q * 0x1_0000_0000) == base * q * 0x1_0000_0000;
    MultiplesVanish(base * q, base * r + d);
  }

  lemma MultiplesVanish(k: int, x: int)
    ensures (k * 0x1_0000_0000 + x) % 0x1_0000_0000 == x % 0x1_0000_0000
  {
  }

  method Strtoul(s: string, base: nat) returns (result: nat, end: nat)
    ensures result == UnsignedValue(s, base)
    ensures end == DigitsEnd(s, NumberStart(s, base), base)
  {
    var i: nat := 0;
    while i < |s| && s[i] == ' '
      invariant i <= |s| && BlanksEnd(s, i, false) == BlanksEnd(s, 0, false)
    {
      i := i + 1;
    }
    result := 0;
    if base == 16 && i + 1 < |s| && s[i] == '0' && (s[i + 1] == 'x' || s[i + 1] == 'X') { i := i + 2; }
    ghost var start := i;
    assert start == NumberStart(s, base) && DigitsValue(s, start, start, base) == 0;
    hide DigitsValue, Accumulated;
    while i < |s| && DigitOf(s[i]) < 16 && DigitOf(s[i]) < base
      invariant start <= i <= |s| && DigitsEnd(s, i, base) == DigitsEnd(s, start, base)
      invariant result == DigitsValue(s, start, i, base) % 0x1_0000_0000
    {
      WrapsDigitByDigit(s, start, i, base);
      result := Accumulated(result, base, DigitOf(s[i]));
      i := i + 1;
    }
    end := i;
  }

  function SignStart(s: string): (i: nat)
    ensures i <= |s|
  {
    BlanksEnd(s, 0, true)
  }

  /** Where atoi starts reading digits: after blanks and one sign. */
  function SignedStart(s: string): (j: nat)
    ensures j <= |s|
  {
    var i := SignStart(s);
    if i < |s| && (s[i] == '-' || s[i] == '+') then i + 1 else i
  }

  function SignedMagnitude(s: string): nat {
    DigitsValue(s, SignedStart(s), DigitsEnd(s, SignedStart(s), 10), 10)
  }

  /** The number atoi reads. */
  function SignedValue(s: string): int {
    var m: int := SignedMagnitude(s);
    if SignStart(s) < |s| && s[SignStart(s)] == '-' then 0 - m else m
  }

  lemma {:induction false} PrefixesAreSmaller(s: string, i: nat, j: nat, n: nat)
    requires i <= j <= n <= |s|
    ensures DigitsValue(s, i, j, 10) <= DigitsValue(s, i, n, 10)
    decreases n
  {
    if j < n { PrefixesAreSmaller(s, i, j, n - 1); }
  }

  /** The digit loop of atoi. The number fits an int; so does every intermediate value. */
  method ReadDecimal(s: string, start: nat) returns (val: nat)
    requires start <= |s| && DigitsValue(s, start, DigitsEnd(s, start, 10), 10) < 0x8000_0000
    ensures val == DigitsValue(s, start, DigitsEnd(s, start, 10), 10)
  {
    var i := start;
    val := 0;
    while i < |s| && '0' <= s[i] <= '9'
      invariant start <= i <= |s| && DigitsEnd(s, i, 10) == DigitsEnd(s, start, 10)
      invariant val == DigitsValue(s, start, i, 10) < 0x8000_0000
    {
      PrefixesAreSmaller(s, start, i + 1, DigitsEnd(s, start, 10));
      val := val * 10 + ((s[i] as int) - 48);
      i := i + 1;
    }
  }

  /** Signed overflow is undefined, so the number must fit an int. */
  method Atoi(s: string) returns (result: int)
    requires SignedMagnitude(s) < 0x8000_0000
    ensures result == SignedValue(s)
  {
    var i: nat := 0;
    while i < |s| && (s[i] == ' ' || s[i] == '\t')
      invariant i <= |s| && BlanksEnd(s, i, true) == BlanksEnd(s, 0, true)
    {
      i := i + 1;
    }
    hide DigitsValue, DigitsEnd;
    var sign: int := 1;
    if i < |s| && s[i] == '-' {
      sign, i := -1, i + 1;
    } else if i < |s| && s[i] == '+' {
      i := i + 1;
    }
    var val := ReadDecimal(s, i);
    return sign * val;
  }

  // ---------------------------------------------------------------------
  // Print, then parse
  // ---------------------------------------------------------------------

  lemma DigitsAreRead(d: nat, upper: bool)
    requires d < 16
    ensures DigitOf(DigitChar(d, upper)) == d
  {
  }

  /** A number is the value of its numeral. */
  lemma {:induction false} NumeralValue(v: nat, base: nat, upper: bool)
    requires base == 10 || base == 16
    ensures ReadsAs(Digits(v, base, upper), v, base)
    decreases v
  {
    if v < base {
      DigitsAreRead(v, upper);
      assert DigitsValue(Digits(v, base, upper), 0, 0, base) == 0;
    } else {
      var q, r := Quotient(v, base), Remainder(v, base);
      NumeralValue(q, base, upper);
      DigitsAreRead(r, upper);
      OneMoreDigit(Digits(q, base, upper), q, DigitChar(r, upper), v, base);
    }
  }

  ghost predicate ReadsAs(t: string, v: nat, base: nat) {
    AllDigits(t, 0, |t|, base) && DigitsValue(t, 0, |t|, base) == v
  }

  lemma OneMoreDigit(t: string, q: nat, c: char, v: nat, base: nat)
    requires (base == 10 || base == 16) && ReadsAs(t, q, base) && IsDigit(c, base)
    requires q == Quotient(v, base) && DigitOf(c) == Remainder(v, base)
    ensures ReadsAs(t + [c], v, base)
  {
    AppendDigit(t, c, base);
    hide DigitsValue, AllDigits, DigitOf;
    if base == 10 {
      assert v == 10 * q + DigitOf(c);
    } else {
      assert v == 16 * q + DigitOf(c);
    }
  }

  lemma AppendDigit(t: string, c: char, base: nat)
    requires AllDigits(t, 0, |t|, base) && IsDigit(c, base)
    ensures AllDigits(t + [c], 0, |t| + 1, base)
    ensures DigitsValue(t + [c], 0, |t| + 1, base) == base * DigitsValue(t, 0, |t|, base) + DigitOf(c)
  {
    var s := t + [c];
    assert s[..|t|] == t && t[..|t|] == t;
    SamePrefixValue(s, t, |t|, base);
    hide DigitOf;
    assert forall k :: 0 <= k < |t| ==> s[k] == t[k];
  }

  lemma {:induction false} SamePrefixValue(s: string, t: string, j: nat, base: nat)
    requires j <= |s| && j <= |t| && s[..j] == t[..j]
    ensures DigitsValue(s, 0, j, base) == DigitsValue(t, 0, j, base)
    decreases j
  {
    if j > 0 {
      assert s[..j - 1] == s[..j][..j - 1] && t[..j - 1] == t[..j][..j - 1];
      assert s[j - 1] == s[..j][j - 1] && t[j - 1] == t[..j][j - 1];
      SamePrefixValue(s, t, j - 1, base);
    }
  }

  lemma {:induction false} ZerosWriteZero(s: string, z: nat, k: nat, base: nat)
    requires z <= k <= |s| && forall m :: z <= m < k ==> s[m] == '0'
    ensures DigitsValue(s, z, k, base) == 0
    decreases k
  {
    if z < k { ZerosWriteZero(s, z, k - 1, base); }
  }

  /** Leading zeros do not count, wherever the numeral starts. */
  lemma {:induction false} PaddedValue(s: string, z: nat, k: nat, t: string, j: nat, base: nat)
    requires z <= k <= |s| && (forall m :: z <= m < k ==> s[m] == '0') && s[k..] == t && j <= |t|
    ensures DigitsValue(s, z, k + j, base) == DigitsValue(t, 0, j, base)
    decreases j
  {
    if j == 0 {
      ZerosWriteZero(s, z, k, base);
    } else {
      PaddedValue(s, z, k, t, j - 1, base);
      assert s[k + j - 1] == t[j - 1];
    }
  }

  predicate Padding(pad: char) {
    pad == ' ' || pad == '0'
  }

  /** From index z to its end, the text writes the number v. */
  ghost predicate Writes(s: string, z: nat, v: nat, base: nat) {
    z < |s| && AllDigits(s, z, |s|, base) && DigitsValue(s, z, |s|, base) == v
  }

  ghost predicate BlankBefore(s: string, z: nat) {
    z <= |s| && forall m :: 0 <= m < z ==> s[m] == ' '
  }

  lemma ReadToTheEnd(s: string, z: nat, v: nat, base: nat)
    requires Writes(s, z, v, base)
    ensures DigitsEnd(s, z, base) == |s|
  {
  }

  /** The number of padding characters in front of a numeral. */
  function PadCount(t: string, width: nat): nat {
    if |t| < width then width - |t| else 0
  }

  lemma PaddedText(t: string, v: nat, base: nat, width: nat, pad: char)
    requires Writes(t, 0, v, base) && Padding(pad) && base >= 2
    ensures var z := if pad == '0' then 0 else PadCount(t, width);
            Writes(PadLeft(t, width, pad), z, v, base) && BlankBefore(PadLeft(t, width, pad), z)
  {
    hide DigitsValue;
    var s, k := PadLeft(t, width, pad), PadCount(t, width);
    var z := if pad == '0' then 0 else k;
    assert s[k..] == t;
    PaddedValue(s, z, k, t, |t|, base);
    forall m | z <= m < |s|
      ensures IsDigit(s[m], base)
    {
      if m >= k { assert s[m] == t[m - k]; }
    }
  }

  /** A padded numeral writes its number: zeros do not count, blanks are skipped. */
  lemma PaddedNumeral(v: nat, base: nat, upper: bool, width: nat, pad: char)
    requires (base == 10 || base == 16) && Padding(pad)
    ensures var t := Digits(v, base, upper);
            var z := if pad == '0' then 0 else PadCount(t, width);
            Writes(PadLeft(t, width, pad), z, v, base) && BlankBefore(PadLeft(t, width, pad), z)
  {
    NumeralValue(v, base, upper);
    hide Digits, DigitsValue, PadLeft, BlankBefore, IsDigit;
    PaddedText(Digits(v, base, upper), v, base, width, pad);
  }

  lemma {:induction false} ShiftedValue(p: string, s: string, z: nat, j: nat, base: nat)
    requires z <= j <= |s|
    ensures DigitsValue(p + s, |p| + z, |p| + j, base) == DigitsValue(s, z, j, base)
    decreases j
  {
    if z < j { ShiftedValue(p, s, z, j - 1, base); }
  }

  lemma Shifted(p: string, s: string, z: nat, v: nat, base: nat)
    requires Writes(s, z, v, base)
    ensures Writes(p + s, |p| + z, v, base)
  {
    ShiftedValue(p, s, z, |s|, base);
  }

  lemma UnsignedStart(s: string, z: nat, v: nat, base: nat)
    requires BlankBefore(s, z) && Writes(s, z, v, base)
    ensures NumberStart(s, base) == z
  {
    hide DigitsValue, DigitsEnd;
    assert IsDigit(s[z], base);
    assert BlanksEnd(s, 0, false) == z;
    assert z + 1 < |s| ==> IsDigit(s[z + 1], base);
  }

  /** strtoul recovers every 32-bit number printed in its base, with any padding. */
  lemma UnsignedRoundTrip(v: nat, base: nat, upper: bool, width: nat, pad: char)
    requires (base == 10 || base == 16) && v < 0x1_0000_0000 && Padding(pad)
    ensures var s := PadLeft(Digits(v, base, upper), width, pad);
            UnsignedValue(s, base) == v && DigitsEnd(s, NumberStart(s, base), base) == |s|
  {
    PaddedNumeral(v, base, upper, width, pad);
    hide Digits, DigitsValue, DigitsEnd, PadLeft, NumberStart, BlankBefore;
    var t := Digits(v, base, upper);
    var s, z := PadLeft(t, width, pad), if pad == '0' then 0 else PadCount(t, width);
    UnsignedStart(s, z, v, base);
    ReadToTheEnd(s, z, v, base);
  }

  lemma AfterHexPrefix(body: string, v: nat)
    requires Writes(body, 0, v, 16)
    ensures NumberStart("0x" + body, 16) == 2 && Writes("0x" + body, 2, v, 16)
  {
    hide DigitsValue, DigitsEnd;
    Shifted("0x", body, 0, v, 16);
    assert ("0x" + body)[0] == '0' && ("0x" + body)[1] == 'x';
  }

  /** The same for `%p`, whose "0x" is skipped. */
  lemma PointerRoundTrip(v: nat)
    requires v < 0x1_0000_0000
    ensures var s := "0x" + PadLeft(Digits(v, 16, false), 8, '0');
            UnsignedValue(s, 16) == v && DigitsEnd(s, NumberStart(s, 16), 16) == |s|
  {
    hide Digits, DigitsValue, DigitsEnd, PadLeft, NumberStart, BlankBefore;
    PaddedNumeral(v, 16, false, 8, '0');
    var body := PadLeft(Digits(v, 16, false), 8, '0');
    AfterHexPrefix(body, v);
    ReadToTheEnd("0x" + body, 2, v, 16);
  }

  lemma SignedStartOf(s: string, z: nat, v: nat)
    requires Writes(s, z, v, 10)
    requires if z > 0 && s[0] == '-' then z == 1 else BlankBefore(s, z)
    ensures SignedStart(s) == z && (SignStart(s) < |s| && s[SignStart(s)] == '-' <==> z > 0 && s[0] == '-')
  {
    hide DigitsValue, DigitsEnd;
    assert IsDigit(s[z], 10);
    if z > 0 && s[0] == '-' {
      assert BlanksEnd(s, 0, true) == 0;
    } else {
      assert BlanksEnd(s, 0, true) == z;
    }
  }

  /** atoi recovers a printed number unless blanks follow its sign. */
  lemma SignedRoundTrip(v: int, width: nat, pad: char)
    requires -0x8000_0000 < v < 0x8000_0000 && Padding(pad)
    ensures var s := Sign(v) + PadLeft(Digits(Magnitude32(v), 10, false), width, pad);
            && SignedMagnitude(s) < 0x8000_0000
            && (SignedValue(s) == v <==> v >= 0 || pad == '0' || width <= |Digits(-v, 10, false)|)
  {
    var m := Magnitude32(v);
    PaddedNumeral(m, 10, false, width, pad);
    var t := Digits(m, 10, false);
    var body, k := PadLeft(t, width, pad), PadCount(t, width);
    if v < 0 && pad == ' ' && k > 0 {
      assert ("-" + body)[0] == '-' && ("-" + body)[1] == ' ';
      BlankIsNoNumber("-" + body);
    } else {
      hide Digits, DigitsValue, DigitsEnd, PadLeft, SignedStart, SignStart;
      var z := if pad == '0' then 0 else k;
      if v < 0 {
        Shifted("-", body, z, m, 10);
        SignedStartOf("-" + body, z + 1, m);
        ReadToTheEnd("-" + body, z + 1, m, 10);
      } else {
        assert "" + body == body;
        assert z > 0 ==> body[0] == ' ';
        SignedStartOf(body, z, m);
        ReadToTheEnd(body, z, m, 10);
      }
    }
  }

  lemma BlankIsNoNumber(s: string)
    requires |s| >= 2 && s[0] == '-' && s[1] == ' '
    ensures SignedMagnitude(s) == 0 && SignedValue(s) == 0
  {
    assert SignStart(s) == 0 && SignedStart(s) == 1;
    assert DigitsEnd(s, 1, 10) == 1;
  }

  /** A format that is one directive and nothing else, such as "%08x". */
  ghost predicate SingleDirective(f: string) {
    && |f| >= 2 && f[0] == '%'
    && ParseSpec(f, 1).at == |f| - 1 && ParseSpec(f, 1).width < 0x8000_0000
  }

  lemma SingleExpansion(f: string, a: Arg)
    requires SingleDirective(f) && Ranged(a) && IntLetter(f[|f| - 1]) && Takes(f, ParseSpec(f, 1), [a])
    ensures WellFormed(f, 0, [a]) && AllRanged([a]) && Expand(f, 0, [a]) == Convert(f, ParseSpec(f, 1), [a])
  {
    hide Convert, ParseSpec, PadLeft, Digits, DigitsEnd, DigitsValue;
    var d := ParseSpec(f, 1);
    assert NextIndex(f, d) == |f| && [a][Used(f, d)..] == [];
    assert WellFormed(f, |f|, []) && Expand(f, |f|, []) == "";
    assert WellFormed(f, 0, [a]);
    var text := Convert(f, d, [a]);
    assert text + "" == text;
  }

  /** What `%u`, `%x`, `%X` and `%p` print, with any flag and width, strtoul reads back. */
  lemma PrintedUnsignedParses(f: string, v: nat)
    requires SingleDirective(f) && v < 0x1_0000_0000 && IntLetter(f[|f| - 1]) && f[|f| - 1] != 'd'
    ensures WellFormed(f, 0, [Uint32(v)]) && AllRanged([Uint32(v)])
    ensures var base := if f[|f| - 1] == 'u' then 10 else 16;
            var s := Expand(f, 0, [Uint32(v)]);
            UnsignedValue(s, base) == v && DigitsEnd(s, NumberStart(s, base), base) == |s|
  {
    SingleExpansion(f, Uint32(v));
    hide Digits, DigitsValue, DigitsEnd, PadLeft, NumberStart, UnsignedValue, Expand, WellFormed;
    var d := ParseSpec(f, 1);
    assert Padding(d.pad);
    match f[|f| - 1] {
      case 'u' => UnsignedRoundTrip(v, 10, false, d.width, d.pad);
      case 'x' => UnsignedRoundTrip(v, 16, false, d.width, d.pad);
      case 'X' => UnsignedRoundTrip(v, 16, true, d.width, d.pad);
      case _ => PointerRoundTrip(v);
    }
  }

  /** What `%d` prints, atoi reads back for every int but the most negative, exactly
      if no blanks come between sign and digits. */
  lemma PrintedSignedParses(f: string, v: int)
    requires SingleDirective(f) && -0x8000_0000 < v < 0x8000_0000 && f[|f| - 1] == 'd'
    ensures WellFormed(f, 0, [Int32(v)]) && AllRanged([Int32(v)])
    ensures var s := Expand(f, 0, [Int32(v)]);
            && SignedMagnitude(s) < 0x8000_0000
            && (SignedValue(s) == v <==>
                  v >= 0 || ParseSpec(f, 1).pad == '0' || ParseSpec(f, 1).width <= |Digits(-v, 10, false)|)
  {
    SingleExpansion(f, Int32(v));
    hide Digits, DigitsValue, DigitsEnd, PadLeft, Expand, WellFormed, SignedMagnitude, SignedValue;
    var d := ParseSpec(f, 1);
    assert Padding(d.pad);
    SignedRoundTrip(v, d.width, d.pad);
  }

  lemma NumeralsAreInjective(v: nat, w: nat)
    ensures Digits(v, 10, false) == Digits(w, 10, false) <==> v == w
  {
    NumeralValue(v, 10, false);
    NumeralValue(w, 10, false);
  }

  /** `%d` prints the decimal numeral of every int except the most negative one, whose
      magnitude comes out as 2^64 - 2^31. */
  lemma DecimalUnlessMostNegative(v: int)
    requires -0x8000_0000 <= v < 0x8000_0000
    ensures Sign(v) + Digits(Magnitude32(v), 10, false) == Decimal(v) <==> v != -0x8000_0000
  {
    hide Digits;
    if v < 0 {
      var m, w := Magnitude32(v), -v;
      NumeralsAreInjective(m, w);
      assert ("-" + Digits(m, 10, false))[1..] == Digits(m, 10, false);
      assert ("-" + Digits(w, 10, false))[1..] == Digits(w, 10, false);
    } else {
      assert "" + Digits(v, 10, false) == Digits(v, 10, false);
    }
  }

  /** `%ld` has no such case. */
  lemma LongDecimalAlways(v: int)
    requires -0x8000_0000_0000_0000 <= v < 0x8000_0000_0000_0000
    ensures Sign(v) + Digits(Magnitude64(v), 10, false) == Decimal(v)
  {
    hide Digits;
    Magnitude64Fits(v);
    if v >= 0 { assert "" + Digits(v, 10, false) == Digits(v, 10, false); }
  }
}
