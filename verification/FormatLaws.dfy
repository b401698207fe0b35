/** What a caller of the string library may rely on: the text each directive prints,
    how formats compose, and what the parsers make of blanks, signs and prefixes. */
module FormatLaws {
  import opened Wrappers
  import opened Formatting

  // ---------------------------------------------------------------------
  // Digits and padding
  // ---------------------------------------------------------------------

  /** Digits above nine are letters, of the case asked for. */
  lemma DigitCharIs(d: nat, upper: bool)
    requires d < 16
    ensures DigitChar(d, upper) as int == if d < 10 then '0' as int + d
                                          else (if upper then 'A' else 'a') as int + (d - 10)
  {
  }

  /** Exactly the characters that are printed as digits are read as digits. */
  lemma DigitsReadAreDigitsPrinted(c: char)
    ensures DigitOf(c) < 16 <==> exists d: nat, upper :: d < 16 && c == DigitChar(d, upper)
  {
    if DigitOf(c) < 16 {
      DigitCharIs(DigitOf(c), 'A' <= c <= 'F');
      assert c == DigitChar(DigitOf(c), 'A' <= c <= 'F');
    }
    if d: nat, upper :| d < 16 && c == DigitChar(d, upper) {
      DigitsAreRead(d, upper);
    }
  }

  /** Padding puts only padding characters in front, and just enough of them. */
  lemma PaddingIs(s: string, width: nat, pad: char)
    ensures var p := PadLeft(s, width, pad);
            && |p| == (if |s| < width then width else |s|)
            && p[|p| - |s|..] == s
            && forall i :: 0 <= i < |p| - |s| ==> p[i] == pad
  {
  }

  /** A numeral other than "0" starts with another digit. */
  lemma {:induction false} NoLeadingZero(v: nat, base: nat, upper: bool)
    requires (base == 10 || base == 16) && v > 0
    ensures Digits(v, base, upper)[0] != '0'
    decreases v
  {
    if v < base {
      DigitCharIs(v, upper);
    } else {
      NoLeadingZero(Quotient(v, base), base, upper);
    }
  }

  // ---------------------------------------------------------------------
  // Flag and width
  // ---------------------------------------------------------------------

  /** A numeral between other characters is read to its end, for its value. */
  lemma NumeralInside(p: string, v: nat, base: nat, upper: bool, rest: string)
    requires base == 10 || base == 16
    requires rest == "" || !IsDigit(rest[0], base)
    ensures var t := Digits(v, base, upper);
            var s := p + t + rest;
            DigitsEnd(s, |p|, base) == |p| + |t| && DigitsValue(s, |p|, |p| + |t|, base) == v
  {
    hide *;
    NumeralValue(v, base, upper);
    InsideValue(p, Digits(v, base, upper), rest, v, base);
    InsideEnd(p, Digits(v, base, upper), rest, v, base);
  }

  lemma InsideValue(p: string, t: string, rest: string, v: nat, base: nat)
    requires ReadsAs(t, v, base)
    ensures DigitsValue(p + t + rest, |p|, |p| + |t|, base) == v
  {
    hide DigitsValue, AllDigits;
    assert DigitsValue(t, 0, |t|, base) == v;
    ShiftedValue(p, t + rest, 0, |t|, base);
    assert p + (t + rest) == p + t + rest;
    assert (t + rest)[..|t|] == t[..|t|];
    SamePrefixValue(t + rest, t, |t|, base);
  }

  lemma InsideEnd(p: string, t: string, rest: string, v: nat, base: nat)
    requires ReadsAs(t, v, base) && (rest == "" || !IsDigit(rest[0], base))
    ensures DigitsEnd(p + t + rest, |p|, base) == |p| + |t|
  {
    hide DigitsValue, IsDigit, DigitsEnd;
    var s := p + t + rest;
    forall k | |p| <= k < |p| + |t|
      ensures IsDigit(s[k], base)
    {
      assert s[k] == t[k - |p|];
    }
    assert rest != "" ==> s[|p| + |t|] == rest[0];
    EndOfDigits(s, |p|, |p| + |t|, base);
  }

  lemma {:induction false} EndOfDigits(s: string, i: nat, j: nat, base: nat)
    requires i <= j <= |s| && AllDigits(s, i, j, base) && (j < |s| ==> !IsDigit(s[j], base))
    ensures DigitsEnd(s, i, base) == j
    decreases j - i
  {
    hide DigitOf;
    if i < j { EndOfDigits(s, i + 1, j, base); }
  }

  /** A width written as a numeral after '%', with or without the flag '0', is read as
      that width; without digits it is 0. */
  lemma SpecIsRead(flag: bool, width: nat, letter: char, rest: string)
    requires !IsDigit(letter, 10)
    ensures var zero := if flag then "0" else "";
            var number := if width == 0 then "" else Digits(width, 10, false);
            ParseSpec("%" + zero + number + [letter] + rest, 1)
            == Spec(if flag then '0' else ' ', width, 1 + |zero| + |number|)
  {
    var zero := if flag then "0" else "";
    var number := if width == 0 then "" else Digits(width, 10, false);
    var f := "%" + zero + number + [letter] + rest;
    var start := 1 + |zero|;
    assert f[start + |number|] == letter;
    if width == 0 {
      assert f[start] == letter;
      EndOfDigits(f, start, start, 10);
    } else {
      NoLeadingZero(width, 10, false);
      NumeralInside("%" + zero, width, 10, false, [letter] + rest);
      assert "%" + zero + number + ([letter] + rest) == f;
      assert f[start] == number[0];
    }
    hide Digits, DigitsEnd, DigitsValue;
    assert letter != '0';
    if flag { assert f[1] == '0'; }
  }

  // ---------------------------------------------------------------------
  // The text of each directive
  // ---------------------------------------------------------------------

  /** One directive taken off the front of what is still to be expanded, or put back. */
  lemma TakeDirective(f: string, i: nat, args: seq<Arg>)
    requires i < |f| && f[i] == '%' && WellFormed(f, i, args) && AllRanged(args)
    ensures var d := ParseSpec(f, i + 1);
            && d.at < |f| && d.width < 0x8000_0000 && Takes(f, d, args) && Used(f, d) <= |args|
            && i < NextIndex(f, d) <= |f|
            && WellFormed(f, NextIndex(f, d), args[Used(f, d)..]) && AllRanged(args[Used(f, d)..])
            && Expand(f, i, args) == Convert(f, d, args) + Expand(f, NextIndex(f, d), args[Used(f, d)..])
  {
    hide ParseSpec, Convert, Takes, Used;
  }

  lemma PutDirective(f: string, i: nat, args: seq<Arg>, d: Spec)
    requires i < |f| && f[i] == '%' && AllRanged(args) && d == ParseSpec(f, i + 1)
    requires d.at < |f| && d.width < 0x8000_0000 && Takes(f, d, args) && Used(f, d) <= |args|
    requires NextIndex(f, d) <= |f| && WellFormed(f, NextIndex(f, d), args[Used(f, d)..])
    ensures WellFormed(f, i, args) && AllRanged(args[Used(f, d)..])
    ensures Expand(f, i, args) == Convert(f, d, args) + Expand(f, NextIndex(f, d), args[Used(f, d)..])
  {
    hide ParseSpec, Convert, Takes, Used;
  }

  /** A format of one directive, its letters at the end. */
  function Format(flag: bool, width: nat, letters: string): string {
    "%" + (if flag then "0" else "") + (if width == 0 then "" else Digits(width, 10, false)) + letters
  }

  lemma OneDirective(flag: bool, width: nat, letters: string, args: seq<Arg>)
    requires letters != "" && !IsDigit(letters[0], 10) && width < 0x8000_0000 && AllRanged(args)
    requires var d := Spec(if flag then '0' else ' ', width, |Format(flag, width, letters)| - |letters|);
             var f := Format(flag, width, letters);
             Takes(f, d, args) && Used(f, d) == |args| && NextIndex(f, d) == |f|
    ensures var f := Format(flag, width, letters);
            && WellFormed(f, 0, args)
            && Expand(f, 0, args) == Convert(f, Spec(if flag then '0' else ' ', width, |f| - |letters|), args)
  {
    hide *;
    var f := Format(flag, width, letters);
    FormatSpec(flag, width, letters);
    var d := Spec(if flag then '0' else ' ', width, |f| - |letters|);
    NothingToExpand(f);
    assert args[Used(f, d)..] == [];
    PutDirective(f, 0, args, d);
    assert Convert(f, d, args) + "" == Convert(f, d, args);
  }

  lemma NothingToExpand(f: string)
    ensures AllRanged([]) && WellFormed(f, |f|, []) && Expand(f, |f|, []) == ""
  {
  }

  lemma FormatSpec(flag: bool, width: nat, letters: string)
    requires letters != "" && !IsDigit(letters[0], 10)
    ensures var f := Format(flag, width, letters);
            && |f| > |letters| && f[0] == '%'
            && ParseSpec(f, 1) == Spec(if flag then '0' else ' ', width, |f| - |letters|)
  {
    var front := "%" + (if flag then "0" else "") + (if width == 0 then "" else Digits(width, 10, false));
    hide Digits, ParseSpec, IsDigit;
    SpecIsRead(flag, width, letters[0], letters[1..]);
    assert front + [letters[0]] + letters[1..] == front + letters == Format(flag, width, letters);
  }

  /** `%s` pads with blanks even under the flag '0'; a null pointer prints as "(null)". */
  lemma PrintsText(flag: bool, width: nat, text: Option<string>)
    requires width < 0x8000_0000 && Ranged(Str(text))
    ensures var f := Format(flag, width, "s");
            && WellFormed(f, 0, [Str(text)]) && AllRanged([Str(text)])
            && Expand(f, 0, [Str(text)]) == PadLeft(if text == None then "(null)" else text.value, width, ' ')
  {
    hide Digits, PadLeft, WellFormed, Expand;
    OneDirective(flag, width, "s", [Str(text)]);
  }

  /** `%c` prints one byte, whatever the width; `%%` a percent sign, and any letter that
      is none of the others a question mark, both without taking an argument. */
  lemma PrintsCharacter(flag: bool, width: nat, c: char, x: char)
    requires width < 0x8000_0000 && c as int < 256 && !IsDigit(x, 10) && x !in "scduxXpl%"
    ensures AllRanged([Int32(c as int)]) && AllRanged([])
    ensures var f := Format(flag, width, "c");
            WellFormed(f, 0, [Int32(c as int)]) && Expand(f, 0, [Int32(c as int)]) == [c]
    ensures var f := Format(flag, width, "%"); WellFormed(f, 0, []) && Expand(f, 0, []) == "%"
    ensures var f := Format(flag, width, [x]); WellFormed(f, 0, []) && Expand(f, 0, []) == "?"
  {
    hide Digits, PadLeft, WellFormed, Expand;
    OneDirective(flag, width, "c", [Int32(c as int)]);
    OneDirective(flag, width, "%", []);
    OneDirective(flag, width, [x], []);
  }

  /** `%u`, `%x`, `%X` and `%p` print the numeral of a 32-bit number; `%p` with its own
      prefix and width. */
  lemma PrintsUnsigned(flag: bool, width: nat, v: nat)
    requires width < 0x8000_0000 && v < 0x1_0000_0000
    ensures AllRanged([Uint32(v)])
    ensures var f, pad := Format(flag, width, "u"), if flag then '0' else ' ';
            WellFormed(f, 0, [Uint32(v)]) && Expand(f, 0, [Uint32(v)]) == PadLeft(Digits(v, 10, false), width, pad)
    ensures var f, pad := Format(flag, width, "x"), if flag then '0' else ' ';
            WellFormed(f, 0, [Uint32(v)]) && Expand(f, 0, [Uint32(v)]) == PadLeft(Digits(v, 16, false), width, pad)
    ensures var f, pad := Format(flag, width, "X"), if flag then '0' else ' ';
            WellFormed(f, 0, [Uint32(v)]) && Expand(f, 0, [Uint32(v)]) == PadLeft(Digits(v, 16, true), width, pad)
    ensures var f := Format(flag, width, "p");
            WellFormed(f, 0, [Uint32(v)]) && Expand(f, 0, [Uint32(v)]) == "0x" + PadLeft(Digits(v, 16, false), 8, '0')
  {
    hide Digits, PadLeft, WellFormed, Expand;
    OneDirective(flag, width, "u", [Uint32(v)]);
    OneDirective(flag, width, "x", [Uint32(v)]);
    OneDirective(flag, width, "X", [Uint32(v)]);
    OneDirective(flag, width, "p", [Uint32(v)]);
  }

  /** `%lu`, `%lx` and `%ld` do so for 64-bit numbers; any other letter after 'l' prints
      nothing and takes nothing. */
  lemma PrintsLong(flag: bool, width: nat, v: nat, i: int, x: char)
    requires width < 0x8000_0000 && v < 0x1_0000_0000_0000_0000
    requires -0x8000_0000_0000_0000 <= i < 0x8000_0000_0000_0000 && x !in "uxd"
    ensures AllRanged([Uint64(v)]) && AllRanged([Int64(i)]) && AllRanged([])
    ensures var f, pad := Format(flag, width, "lu"), if flag then '0' else ' ';
            WellFormed(f, 0, [Uint64(v)]) && Expand(f, 0, [Uint64(v)]) == PadLeft(Digits(v, 10, false), width, pad)
    ensures var f, pad := Format(flag, width, "lx"), if flag then '0' else ' ';
            WellFormed(f, 0, [Uint64(v)]) && Expand(f, 0, [Uint64(v)]) == PadLeft(Digits(v, 16, false), width, pad)
    ensures var f, pad := Format(flag, width, "ld"), if flag then '0' else ' ';
            WellFormed(f, 0, [Int64(i)])
            && Expand(f, 0, [Int64(i)])
               == (if i < 0 then "-" else "") + PadLeft(Digits(if i < 0 then -i else i, 10, false), width, pad)
    ensures var f := Format(flag, width, ['l', x]); WellFormed(f, 0, []) && Expand(f, 0, []) == ""
  {
    hide Digits, PadLeft, WellFormed, Expand;
    Magnitude64Fits(i);
    OneDirective(flag, width, "lu", [Uint64(v)]);
    OneDirective(flag, width, "lx", [Uint64(v)]);
    OneDirective(flag, width, "ld", [Int64(i)]);
    OneDirective(flag, width, ['l', x], []);
  }

  /** `%d` of the most negative int: a minus sign and the magnitude sign-extended to
      64 bits. */
  lemma PrintsSigned(flag: bool, width: nat, i: int)
    requires width < 0x8000_0000 && -0x8000_0000 <= i < 0x8000_0000
    ensures AllRanged([Int32(i)])
    ensures var f, pad := Format(flag, width, "d"), if flag then '0' else ' ';
            var magnitude := if i == -0x8000_0000 then 0xFFFF_FFFF_8000_0000 else if i < 0 then -i else i;
            WellFormed(f, 0, [Int32(i)])
            && Expand(f, 0, [Int32(i)]) == (if i < 0 then "-" else "") + PadLeft(Digits(magnitude, 10, false), width, pad)
  {
    hide Digits, PadLeft, WellFormed, Expand;
    OneDirective(flag, width, "d", [Int32(i)]);
  }

  // ---------------------------------------------------------------------
  // Formats compose
  // ---------------------------------------------------------------------

  /** The format is well formed and uses up its arguments. */
  ghost predicate Exact(f: string, i: nat, args: seq<Arg>)
    requires i <= |f|
    decreases |f| - i
  {
    if i == |f| then args == []
    else if f[i] != '%' then Exact(f, i + 1, args)
    else
      var d := ParseSpec(f, i + 1);
      && d.at < |f| && d.width < 0x8000_0000 && Takes(f, d, args) && Used(f, d) <= |args|
      && NextIndex(f, d) <= |f| && Exact(f, NextIndex(f, d), args[Used(f, d)..])
  }

  lemma {:induction false} ExactIsWellFormed(f: string, i: nat, args: seq<Arg>)
    requires i <= |f| && Exact(f, i, args)
    ensures WellFormed(f, i, args)
    decreases |f| - i
  {
    hide ParseSpec, Takes, Used;
    if i == |f| {
    } else if f[i] != '%' {
      ExactIsWellFormed(f, i + 1, args);
    } else {
      var d := ParseSpec(f, i + 1);
      ExactIsWellFormed(f, NextIndex(f, d), args[Used(f, d)..]);
    }
  }

  lemma {:induction false} DigitsEndShifts(p: string, g: string, i: nat, base: nat)
    requires i <= |g|
    ensures DigitsEnd(p + g, |p| + i, base) == |p| + DigitsEnd(g, i, base)
    decreases |g| - i
  {
    hide DigitOf;
    assert i < |g| ==> (p + g)[|p| + i] == g[i];
    if i < |g| && IsDigit(g[i], base) { DigitsEndShifts(p, g, i + 1, base); }
  }

  lemma SpecShifts(p: string, g: string, i: nat)
    requires i <= |g|
    ensures var d := ParseSpec(g, i); ParseSpec(p + g, |p| + i) == Spec(d.pad, d.width, |p| + d.at)
  {
    assert i < |g| ==> (p + g)[|p| + i] == g[i];
    var start := if i < |g| && g[i] == '0' then i + 1 else i;
    DigitsEndShifts(p, g, start, 10);
    ShiftedValue(p, g, start, DigitsEnd(g, start, 10), 10);
    hide DigitsEnd, DigitsValue;
  }

  /** What comes before the part still to be expanded does not matter. */
  lemma {:induction false} ExpandShifts(p: string, g: string, i: nat, args: seq<Arg>)
    requires i <= |g| && WellFormed(g, i, args) && AllRanged(args)
    ensures WellFormed(p + g, |p| + i, args) && Expand(p + g, |p| + i, args) == Expand(g, i, args)
    decreases |g| - i
  {
    hide ParseSpec, Convert, Takes, Used;
    if i == |g| {
    } else if g[i] != '%' {
      ExpandShifts(p, g, i + 1, args);
    } else {
      ShiftDirective(p, g, i, args);
      hide *;
      TakeDirective(g, i, args);
      var d := ParseSpec(g, i + 1);
      ExpandShifts(p, g, NextIndex(g, d), args[Used(g, d)..]);
      PutDirective(p + g, |p| + i, args, Spec(d.pad, d.width, |p| + d.at));
    }
  }

  lemma ShiftDirective(p: string, g: string, i: nat, args: seq<Arg>)
    requires i < |g| && g[i] == '%' && WellFormed(g, i, args) && AllRanged(args)
    ensures (p + g)[|p| + i] == '%'
    ensures var d := ParseSpec(g, i + 1);
            var e := Spec(d.pad, d.width, |p| + d.at);
            && ParseSpec(p + g, |p| + i + 1) == e && Takes(p + g, e, args) && Used(p + g, e) == Used(g, d)
            && NextIndex(p + g, e) == |p| + NextIndex(g, d) && Convert(p + g, e, args) == Convert(g, d, args)
  {
    hide *;
    TakeDirective(g, i, args);
    SpecShifts(p, g, i + 1);
    var d := ParseSpec(g, i + 1);
    SameDirective(p + g, Spec(d.pad, d.width, |p| + d.at), g, d, args);
  }

  /** A directive depends on the format only through its letters. */
  lemma SameDirective(f: string, e: Spec, g: string, d: Spec, args: seq<Arg>)
    requires d.at < |g| && e.at < |f| && e.pad == d.pad && e.width == d.width && f[e.at] == g[d.at]
    requires d.at + 1 < |g| ==> e.at + 1 < |f| && f[e.at + 1] == g[d.at + 1]
    requires Takes(g, d, args) && NextIndex(g, d) <= |g|
    ensures Takes(f, e, args) && Used(f, e) == Used(g, d) && NextIndex(f, e) - e.at == NextIndex(g, d) - d.at
    ensures AllRanged(args) ==> Convert(f, e, args) == Convert(g, d, args)
  {
    hide Digits, PadLeft;
  }

  /** A directive of f is the same directive in f + g, up to what f's letters decide. */
  lemma SpecStays(f: string, g: string, i: nat)
    requires i <= |f| && ParseSpec(f, i).at < |f|
    ensures ParseSpec(f + g, i) == ParseSpec(f, i)
  {
    var s := f + g;
    var start := if f[i] == '0' then i + 1 else i;
    var end := DigitsEnd(f, start, 10);
    assert s[i] == f[i] && s[end] == f[end];
    assert forall k :: start <= k < end ==> s[k] == f[k];
    EndOfDigits(s, start, end, 10);
    assert s[..end] == f[..end];
    SamePrefixValueFrom(s, f, start, end);
    hide DigitsEnd, DigitsValue;
  }

  lemma {:induction false} SamePrefixValueFrom(s: string, t: string, i: nat, j: nat)
    requires i <= j <= |s| && j <= |t| && s[..j] == t[..j]
    ensures DigitsValue(s, i, j, 10) == DigitsValue(t, i, j, 10)
    decreases j
  {
    if i < j {
      assert s[..j - 1] == s[..j][..j - 1] && t[..j - 1] == t[..j][..j - 1];
      assert s[j - 1] == s[..j][j - 1] && t[j - 1] == t[..j][j - 1];
      SamePrefixValueFrom(s, t, i, j - 1);
    }
  }

  /** Two formats, one after the other, print their texts one after the other, the first
      with the first arguments and the second with the rest. */
  lemma FormatsCompose(f: string, g: string, a: seq<Arg>, b: seq<Arg>)
    requires Exact(f, 0, a) && AllRanged(a) && WellFormed(g, 0, b) && AllRanged(b)
    ensures WellFormed(f, 0, a) && WellFormed(f + g, 0, a + b) && AllRanged(a + b)
    ensures Expand(f + g, 0, a + b) == Expand(f, 0, a) + Expand(g, 0, b)
  {
    ExactIsWellFormed(f, 0, a);
    ComposeFrom(f, g, 0, a, b);
  }

  lemma {:induction false} ComposeFrom(f: string, g: string, i: nat, a: seq<Arg>, b: seq<Arg>)
    requires i <= |f| && Exact(f, i, a) && AllRanged(a) && WellFormed(g, 0, b) && AllRanged(b)
    ensures WellFormed(f, i, a) && WellFormed(f + g, i, a + b) && AllRanged(a + b)
    ensures Expand(f + g, i, a + b) == Expand(f, i, a) + Expand(g, 0, b)
    decreases |f| - i
  {
    ExactIsWellFormed(f, i, a);
    assert i < |f| ==> (f + g)[i] == f[i];
    if i == |f| {
      ExpandShifts(f, g, 0, b);
      assert a + b == b && "" + Expand(g, 0, b) == Expand(g, 0, b);
    } else if f[i] != '%' {
      ComposeFrom(f, g, i + 1, a, b);
      JoinTexts([f[i]], Expand(f, i + 1, a), Expand(g, 0, b));
    } else {
      var d := ParseSpec(f, i + 1);
      var n := Used(f, d);
      JoinDirective(f, g, i, a, b);
      assert Exact(f, NextIndex(f, d), a[n..]);
      hide *;
      TakeDirective(f, i, a);
      assert (a + b)[n..] == a[n..] + b;
      ComposeFrom(f, g, NextIndex(f, d), a[n..], b);
      PutDirective(f + g, i, a + b, d);
      JoinTexts(Convert(f, d, a), Expand(f, NextIndex(f, d), a[n..]), Expand(g, 0, b));
    }
  }

  lemma JoinDirective(f: string, g: string, i: nat, a: seq<Arg>, b: seq<Arg>)
    requires i < |f| && f[i] == '%' && WellFormed(f, i, a) && AllRanged(a) && AllRanged(b)
    ensures AllRanged(a + b) && (f + g)[i] == '%'
    ensures var d := ParseSpec(f, i + 1);
            && ParseSpec(f + g, i + 1) == d && d.at < |f| && Takes(f, d, a) && Takes(f + g, d, a + b)
            && Used(f + g, d) == Used(f, d) && NextIndex(f + g, d) == NextIndex(f, d)
            && Convert(f + g, d, a + b) == Convert(f, d, a)
  {
    hide *;
    TakeDirective(f, i, a);
    SpecStays(f, g, i + 1);
    var d := ParseSpec(f, i + 1);
    assert (f + g)[d.at] == f[d.at] && (d.at + 1 < |f| ==> (f + g)[d.at + 1] == f[d.at + 1]);
    MoreArguments(f, d, a, b);
    SameDirective(f + g, d, f, d, a + b);
  }

  lemma JoinTexts(x: string, y: string, z: string)
    ensures x + (y + z) == x + y + z
  {
  }

  /** Arguments after the one a directive takes do not matter to it. */
  lemma MoreArguments(f: string, d: Spec, a: seq<Arg>, b: seq<Arg>)
    requires d.at < |f| && Takes(f, d, a) && Used(f, d) <= |a| && AllRanged(a) && AllRanged(b)
    ensures Takes(f, d, a + b) && AllRanged(a + b) && Convert(f, d, a + b) == Convert(f, d, a)
  {
    hide Digits, PadLeft;
    assert a != [] ==> (a + b)[0] == a[0];
  }

  // ---------------------------------------------------------------------
  // Parsing
  // ---------------------------------------------------------------------

  lemma {:induction false} EndOfBlanks(s: string, i: nat, j: nat, tabs: bool)
    requires i <= j <= |s| && (forall k :: i <= k < j ==> s[k] == ' ' || (tabs && s[k] == '\t'))
    requires j < |s| ==> s[j] != ' ' && s[j] != '\t'
    ensures BlanksEnd(s, i, tabs) == j
    decreases j - i
  {
    if i < j { EndOfBlanks(s, i + 1, j, tabs); }
  }

  lemma NumeralStarts(v: nat, base: nat, upper: bool)
    requires base == 10 || base == 16
    ensures IsDigit(Digits(v, base, upper)[0], base)
  {
    NumeralValue(v, base, upper);
  }

  /** atoi of blanks and tabs, one sign or none, a numeral, and anything that is no
      digit: the number, negative exactly after a minus sign. */
  lemma AtoiReads(blanks: string, sign: string, v: nat, rest: string)
    requires (forall k :: 0 <= k < |blanks| ==> blanks[k] == ' ' || blanks[k] == '\t')
    requires sign == "" || sign == "-" || sign == "+"
    requires rest == "" || !IsDigit(rest[0], 10)
    ensures var s := blanks + sign + Digits(v, 10, false) + rest;
            SignedMagnitude(s) == v && SignedValue(s) == if sign == "-" then 0 - v as int else v
  {
    hide Digits, DigitsValue, DigitsEnd, BlanksEnd, DigitOf;
    var t := Digits(v, 10, false);
    var s, n := blanks + sign + t + rest, |blanks|;
    NumeralStarts(v, 10, false);
    SignIsNoDigit(t[0]);
    assert s[n + |sign|] == t[0];
    assert sign != "" ==> s[n] == sign[0];
    assert forall k :: 0 <= k < n ==> s[k] == blanks[k];
    EndOfBlanks(s, 0, n, true);
    assert SignedStart(s) == n + |sign|;
    NumeralInside(blanks + sign, v, 10, false, rest);
  }

  lemma SignIsNoDigit(c: char)
    requires IsDigit(c, 10)
    ensures c != '-' && c != '+' && c != ' ' && c != '\t'
  {
  }

  /** strtoul of blanks, for base 16 either prefix or none, a numeral, and anything that
      is no digit: the number modulo 2^32, up to where the numeral ends. */
  lemma StrtoulReads(blanks: string, prefix: string, v: nat, base: nat, upper: bool, rest: string)
    requires (forall k :: 0 <= k < |blanks| ==> blanks[k] == ' ') && (base == 10 || base == 16)
    requires prefix == "" || (base == 16 && (prefix == "0x" || prefix == "0X"))
    requires rest == "" || !IsDigit(rest[0], base)
    requires base == 16 && prefix == "" && rest != "" && v == 0 ==> rest[0] != 'x' && rest[0] != 'X'
    ensures var t := Digits(v, base, upper);
            var s := blanks + prefix + t + rest;
            && UnsignedValue(s, base) == v % 0x1_0000_0000
            && DigitsEnd(s, NumberStart(s, base), base) == |blanks| + |prefix| + |t|
  {
    hide Digits, DigitsValue, DigitsEnd, NumberStart, IsDigit;
    NumeralStarts(v, base, upper);
    var t := Digits(v, base, upper);
    var s := blanks + prefix + t + rest;
    if prefix == "" {
      assert s[|blanks|..] == t + rest;
      NoPrefix(s, |blanks|, v, base, upper, rest);
    }
    StartAfterPrefix(blanks, prefix, t, rest, base);
    NumeralInside(blanks + prefix, v, base, upper, rest);
  }

  lemma StartAfterPrefix(blanks: string, prefix: string, t: string, rest: string, base: nat)
    requires (forall k :: 0 <= k < |blanks| ==> blanks[k] == ' ') && t != "" && IsDigit(t[0], base)
    requires prefix == "" || (base == 16 && (prefix == "0x" || prefix == "0X"))
    requires var s, n := blanks + prefix + t + rest, |blanks|;
             prefix == "" && base == 16 && n + 1 < |s| && s[n] == '0' ==> s[n + 1] != 'x' && s[n + 1] != 'X'
    ensures NumberStart(blanks + prefix + t + rest, base) == |blanks| + |prefix|
  {
    BlankIsNoDigit(t[0], base);
    hide BlanksEnd, IsDigit;
    var s, n := blanks + prefix + t + rest, |blanks|;
    assert s[n + |prefix|] == t[0];
    assert prefix != "" ==> s[n] == prefix[0] && s[n + 1] == prefix[1];
    assert forall k :: 0 <= k < n ==> s[k] == blanks[k];
    EndOfBlanks(s, 0, n, false);
  }

  lemma BlankIsNoDigit(c: char, base: nat)
    requires IsDigit(c, base)
    ensures c != ' ' && c != '\t' && c != 'x' && c != 'X'
  {
  }

  /** Only "0" followed by an x could be mistaken for a prefix. */
  lemma NoPrefix(s: string, n: nat, v: nat, base: nat, upper: bool, rest: string)
    requires (base == 10 || base == 16) && n <= |s| && s[n..] == Digits(v, base, upper) + rest
    requires base == 16 && rest != "" && v == 0 ==> rest[0] != 'x' && rest[0] != 'X'
    ensures base == 16 && n + 1 < |s| && s[n] == '0' ==> s[n + 1] != 'x' && s[n + 1] != 'X'
  {
    var t := Digits(v, base, upper);
    assert n + 1 < |s| ==> s[n] == s[n..][0] == t[0] && s[n + 1] == s[n..][1];
    if v > 0 {
      NoLeadingZero(v, base, upper);
    }
  }
}
