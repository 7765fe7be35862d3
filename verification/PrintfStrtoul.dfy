/** Whatever width, precision and padding a number is printed with, strtoul
    reads it back. */
module PrintfStrtoul {
  import opened Bits
  import opened Digits
  import opened Strtoul
  import opened PrintfSpec

  lemma {:induction false} ManyPadded(c: char, n: nat)
    requires n > 0
    ensures Pad(c, n) == [c] + Pad(c, n - 1) && Pad(c, n) == Pad(c, n - 1) + [c]
  {
  }

  lemma {:induction false} SpacesSkipped(n: nat, i: nat, rest: string)
    requires i <= n && (rest != "" ==> !IsSpace(rest[0]))
    ensures SkipSpaces(Pad(' ', n) + rest, i) == n
    decreases n - i
  {
    if i < n { SpacesSkipped(n, i + 1, rest); }
  }

  lemma {:induction false} DigitsInside(front: string, body: string, tail: string, i: nat, base: nat)
    requires AllDigits(body, base) && i <= |body| && (tail != "" ==> DigitOf(tail[0], base).NoDigit?)
    ensures var s := front + body + tail;
      && Run(s, |front| + i, base) == |front| + |body|
      && Value(s, |front| + i, base, Number(body[..i], base)) == Number(body, base)
    decreases |body| - i
  {
    var s := front + body + tail;
    if i < |body| {
      assert s[|front| + i] == body[i];
      assert body[..i + 1][..i] == body[..i] && body[..i + 1][i] == body[i];
      DigitsInside(front, body, tail, i + 1, base);
    } else {
      assert body[..i] == body && (tail != "" ==> s[|front| + i] == tail[0]);
    }
  }

  lemma {:induction false} LeadingZeros(z: nat, digits: string, base: nat)
    requires 2 <= base && AllDigits(digits, base)
    ensures AllDigits(Pad('0', z) + digits, base) && Number(Pad('0', z) + digits, base) == Number(digits, base)
    decreases |digits| + z
  {
    var s := Pad('0', z) + digits;
    assert DigitOf('0', base) == Is(0);
    if digits != "" {
      assert s[..|s| - 1] == Pad('0', z) + digits[..|digits| - 1];
      LeadingZeros(z, digits[..|digits| - 1], base);
    } else if z > 0 {
      ManyPadded('0', z);
      assert s == Pad('0', z - 1) + [('0')] && s[..|s| - 1] == Pad('0', z - 1) + "";
      LeadingZeros(z - 1, "", base);
    }
  }

  predicate IsMark(mark: string) { mark == "" || mark == "0x" || mark == "0X" }

  // A sign or none, and 0x, 0X or nothing behind it.
  predicate Marks(sign: string, mark: string, body: string, base: nat)
  {
    && (sign == "" || sign == "+" || sign == "-") && 2 <= base <= 36 && AllDigits(body, base)
    && IsMark(mark) && (mark != "" ==> base == 16 && body != "")
  }

  // What the digits start behind.
  lemma LeadBehindMarks(before: nat, sign: string, mark: string, body: string, after: nat, base: nat)
    requires Marks(sign, mark, body, base) && sign + mark + body != ""
    ensures Lead(Pad(' ', before) + sign + mark + body + Pad(' ', after), base)
      == (before + |sign| + |mark|, sign == "-", base)
  {
    var s, rest := Pad(' ', before) + sign + mark + body + Pad(' ', after), sign + mark + body + Pad(' ', after);
    var j := before + |sign|;
    assert s == Pad(' ', before) + rest;
    if sign == "" && mark == "" { assert rest[0] == body[0] && DigitOf(body[0], base).Is?; }
    SpacesSkipped(before, 0, rest);
    assert At(s, before) == rest[0];
    if mark == "" {
      assert Pad(' ', before) + sign + mark == Pad(' ', before) + sign;
      NoPrefixInside(Pad(' ', before) + sign, body, after, base);
    } else {
      assert At(s, j) == '0' && At(s, j + 1) == mark[1];
    }
  }

  // No 0x stands behind the spaces and the sign.
  lemma NoPrefixInside(front: string, body: string, after: nat, base: nat)
    requires 2 <= base <= 36 && AllDigits(body, base)
    ensures var s, j := front + body + Pad(' ', after), |front|;
      At(s, j) == '0' && base == 16 ==> At(s, j + 1) != 'x' && At(s, j + 1) != 'X'
  {
    var s, j := front + body + Pad(' ', after), |front|;
    if body == "" {
      assert At(s, j) == if after > 0 then ' ' else '\0';
    } else if |body| == 1 {
      assert At(s, j + 1) == if after > 0 then ' ' else '\0';
    } else {
      assert At(s, j + 1) == body[1] && DigitOf(body[1], base).Is?;
    }
  }

  // Spaces, the marks, digits, spaces.
  lemma PaddedDigits(before: nat, sign: string, mark: string, body: string, after: nat, base: nat)
    requires Marks(sign, mark, body, base) && Number(body, base) <= ULONG_MAX
    ensures Parsed(Pad(' ', before) + sign + mark + body + Pad(' ', after), base).0
         == if sign == "-" then (WORD - Number(body, base)) % WORD else Number(body, base)
  {
    if sign + mark + body == "" {
      OnlySpaces(before, after, base);
      assert Pad(' ', before) + sign + mark + body + Pad(' ', after) == Pad(' ', before) + Pad(' ', after);
    } else {
      LeadBehindMarks(before, sign, mark, body, after, base);
      ReadBehind(Pad(' ', before) + sign + mark, body, Pad(' ', after), base, sign == "-");
    }
  }

  lemma OnlySpaces(m: nat, n: nat, base: nat)
    requires 2 <= base <= 36
    ensures Parsed(Pad(' ', m) + Pad(' ', n), base).0 == 0
  {
    assert Pad(' ', m) + Pad(' ', n) == Pad(' ', m + n) + "";
    SpacesSkipped(m + n, 0, "");
  }

  // Digits read from where the lead ends.
  lemma ReadBehind(front: string, body: string, tail: string, base: nat, neg: bool)
    requires AllDigits(body, base) && Number(body, base) <= ULONG_MAX
      && (tail != "" ==> DigitOf(tail[0], base).NoDigit?)
    requires Lead(front + body + tail, base) == (|front|, neg, base)
    ensures Parsed(front + body + tail, base).0
         == if neg then (WORD - Number(body, base)) % WORD else Number(body, base)
  {
    assert body[..0] == "";
    DigitsInside(front, body, tail, 0, base);
    ParsedOf(front + body + tail, base, |front|, neg, base, Number(body, base));
  }

  lemma ParsedOf(s: string, base0: nat, i: nat, neg: bool, base: nat, v: u32)
    requires Lead(s, base0) == (i, neg, base) && Value(s, i, base, 0) == v
    ensures Parsed(s, base0).0 == if neg then (WORD - v) % WORD else v
  {
  }

  // Conversions whose output is a number strtoul can read: all of the integer
  // ones but hexadecimal in lower case.
  predicate Readable(s: Spec)
  {
    && s.caseAdjust <= 32
    && (s.conv == UnsignedInt || s.conv == Octal || ((s.conv == HexInt || s.conv == Pointer) && s.caseAdjust == 0)
        || (s.conv == SignedInt && s.prepend in {'\0', '+', ' '}))
  }

  // The number that is meant, as an unsigned word.
  function Meant(s: Spec, a: Arg): u32
  {
    if s.conv == SignedInt then
      var v := NarrowSigned(a.word, s.modifier);
      if v < 0 then WORD + v else v
    else if s.conv == Pointer then a.word
    else Narrow(a.word, s.modifier)
  }

  // Under every flag, width, precision and length modifier, strtoul in the base
  // of the conversion reads back what was printed; a negative number comes back
  // as the same 32 bits.
  lemma PrintedFieldParses(s: Spec, a: Arg)
    requires Readable(s)
    ensures Parsed(Field(Convert(s, a)), BaseOf(s.conv)).0 == Meant(s, a)
  {
    var c, val := Convert(s, a), Magnitude(s, a);
    NumberOfPayload(s, c.sign, val);
    FieldParses(c, BaseOf(s.conv), val);
    NegatedWord(val);
  }

  lemma NegatedWord(val: u32)
    ensures val > 0 ==> (WORD - val) % WORD == WORD - val
  {
  }

  lemma FieldParses(c: Converted, base: nat, val: u32)
    requires 2 <= base <= 36 && AllDigits(c.payload, base) && Number(c.payload, base) == val
    requires IsMark(Mark(c)) && (c.need0x != '\0' ==> base == 16 && c.payload != "")
    requires c.sign == '\0' || c.sign == '+' || c.sign == ' ' || c.sign == '-'
    ensures Parsed(Field(c), base).0 == if c.sign == '-' then (WORD - val) % WORD else val
  {
    var before, zeros, after := FieldOfNumber(c);
    PaddedNumber(before, c.sign, Mark(c), zeros, c.payload, after, base, val);
  }

  function Mark(c: Converted): string { if c.need0x == '\0' then "" else ['0', c.need0x] }

  lemma PaddedNumber(before: nat, sign: char, mark: string, zeros: nat, digits: string, after: nat, base: nat, val: u32)
    requires 2 <= base <= 36 && AllDigits(digits, base) && Number(digits, base) == val
    requires IsMark(mark) && (mark != "" ==> base == 16 && digits != "")
    requires sign == '\0' || sign == '+' || sign == ' ' || sign == '-'
    ensures Parsed(Pad(' ', before) + One(sign) + mark + (Pad('0', zeros) + digits) + Pad(' ', after), base).0
         == if sign == '-' then (WORD - val) % WORD else val
  {
    var body := Pad('0', zeros) + digits;
    LeadingZeros(zeros, digits, base);
    if sign == ' ' {
      OneMoreSpace(before, mark, body, Pad(' ', after));
      PaddedDigits(before + 1, "", mark, body, after, base);
    } else {
      PaddedDigits(before, One(sign), mark, body, after, base);
    }
  }

  lemma OneMoreSpace(n: nat, mark: string, body: string, tail: string)
    ensures Pad(' ', n) + " " + mark + body + tail == Pad(' ', n + 1) + "" + mark + body + tail
  {
  }

  // The absolute value that is printed, and the sign in front of it.
  function Magnitude(s: Spec, a: Arg): (v: u32)
    requires Readable(s)
    ensures Convert(s, a) == NumberText(s, Convert(s, a).sign, v) && Convert(s, a).sign in {'\0', '+', ' ', '-'}
    ensures Convert(s, a).sign == '-' ==> 0 < v && Meant(s, a) == WORD - v
    ensures Convert(s, a).sign != '-' ==> v == Meant(s, a)
  {
    if s.conv == SignedInt && NarrowSigned(a.word, s.modifier) < 0 then -NarrowSigned(a.word, s.modifier)
    else Meant(s, a)
  }

  lemma NumberOfPayload(s: Spec, sign: char, val: u32)
    requires Readable(s)
    ensures var c, base := NumberText(s, sign, val), BaseOf(s.conv);
      && AllDigits(c.payload, base) && Number(c.payload, base) == val && c.sign == sign
      && (c.need0x == '\0' || (c.need0x == 'X' && base == 16 && c.payload != ""))
  {
    var base := BaseOf(s.conv);
    if !Blank(s, val) {
      if base != 16 { CaseMatters(val, base, s.caseAdjust); }
      PrintedNumber(val, base);
      if base == 8 && s.altForm && val != 0 { LeadingZero(Reversed(val, base, 0), base); }
    }
  }

  lemma {:induction false} BackwardsAppend(s: string, c: char)
    ensures Backwards(s + [c]) == [c] + Backwards(s)
  {
    if s == "" {
      assert [c][1..] == "";
    } else {
      assert (s + [c])[1..] == s[1..] + [c];
      BackwardsAppend(s[1..], c);
    }
  }

  // The 0 that '#' puts in front of octal digits.
  lemma LeadingZero(digits: string, base: nat)
    requires 2 <= base && AllDigits(Backwards(digits), base)
    ensures var t := Backwards(digits + ['0']);
      t != "" && AllDigits(t, base) && Number(t, base) == Number(Backwards(digits), base)
  {
    BackwardsAppend(digits, '0');
    assert Pad('0', 1) == "0";
    LeadingZeros(1, Backwards(digits), base);
  }

  // Only hexadecimal digits have a case.
  lemma {:induction false} CaseMatters(val: nat, base: nat, caseAdj: nat)
    requires base == 8 || base == 10
    requires caseAdj <= 32
    ensures Reversed(val, base, caseAdj) == Reversed(val, base, 0)
    decreases val
  {
    var q := Over(val, base);
    assert DigitChar(LastDigit(val, base), caseAdj) == DigitChar(LastDigit(val, base), 0);
    if q != 0 { CaseMatters(q, base, caseAdj); }
  }

  lemma FieldOfNumber(c: Converted) returns (before: nat, zeros: nat, after: nat)
    ensures Field(c) == Pad(' ', before) + One(c.sign) + Mark(c) + (Pad('0', zeros) + c.payload) + Pad(' ', after)
  {
    assert Prefix(c) == One(c.sign) + Mark(c);
    var free := Max(0, c.spec.fieldWidth - (|Prefix(c)| + PrecPad(c) + |c.payload|));
    zeros := if ZeroPadded(c) then PrecPad(c) + free else PrecPad(c);
    before := if ZeroPadded(c) || c.spec.leftJustified then 0 else free;
    after := if !ZeroPadded(c) && c.spec.leftJustified then free else 0;
  }

  // ----- lower-case hexadecimal -----

  // %x and %p: the field reads back to what was meant exactly when no letter
  // occurs among its digits; the first letter ends the scan.
  lemma LowerFieldParses(s: Spec, a: Arg)
    requires (s.conv == HexInt || s.conv == Pointer) && s.caseAdjust == 32
    ensures Parsed(Field(Convert(s, a)), 16).0 == Meant(s, a) <==> Decimal(Convert(s, a).payload)
  {
    var c, val := Convert(s, a), Meant(s, a);
    var upper := UpperOf(s, val);
    assert c == NumberText(s, '\0', val);
    if Decimal(c.payload) {
      SameIfDecimal(c.payload, upper);
      FieldParses(c, 16, val);
    } else {
      FieldStops(c, upper, val);
    }
  }

  // The digits in upper case.
  lemma UpperOf(s: Spec, val: u32) returns (upper: string)
    requires (s.conv == HexInt || s.conv == Pointer) && s.caseAdjust == 32
    ensures var c := NumberText(s, '\0', val);
      && SameDigits(c.payload, upper) && Number(upper, 16) == val && c.sign == '\0'
      && IsMark(Mark(c)) && (c.need0x != '\0' ==> c.payload != "")
  {
    if Blank(s, val) {
      upper := "";
    } else {
      upper := Backwards(Reversed(val, 16, 0));
      BothCases(val);
      PrintedNumber(val, 16);
    }
  }

  lemma SameIfDecimal(lower: string, upper: string)
    requires SameDigits(lower, upper) && Decimal(lower)
    ensures lower == upper
  {
  }

  lemma FieldStops(c: Converted, upper: string, val: u32)
    requires c.sign == '\0' && IsMark(Mark(c)) && SameDigits(c.payload, upper) && !Decimal(c.payload)
      && Number(upper, 16) == val
    ensures Parsed(Field(c), 16).0 < val
  {
    var lower := c.payload;
    var j := FirstLetter(lower);
    assert lower[..j] == upper[..j];
    var before, zeros, after := FieldOfNumber(c);
    var body, tail := Pad('0', zeros) + lower[..j], lower[j..] + Pad(' ', after);
    LeadingZeros(zeros, upper[..j], 16);
    LetterIsPositive(upper, j);
    PrefixIsLess(upper, j);
    assert tail[0] == lower[j];
    MarkedRead(before, Mark(c), body, tail);
    Regrouped(Pad(' ', before), Mark(c), Pad('0', zeros), lower, j, Pad(' ', after));
  }

  lemma FirstLetter(s: string) returns (j: nat)
    requires !Decimal(s)
    ensures j < |s| && !IsDigit(s[j]) && Decimal(s[..j])
  {
    j := 0;
    while IsDigit(s[j])
      invariant j < |s| && Decimal(s[..j]) && !Decimal(s[j..])
      decreases |s| - j
    {
      j := j + 1;
    }
  }

  lemma Regrouped(a: string, m: string, z: string, s: string, j: nat, b: string)
    requires j <= |s|
    ensures a + "" + m + (z + s) + b == a + m + (z + s[..j]) + (s[j..] + b)
  {
  }

  // Spaces, a mark or none, digits, and something that is no digit.
  lemma MarkedRead(before: nat, mark: string, body: string, tail: string)
    requires IsMark(mark) && AllDigits(body, 16) && Number(body, 16) <= ULONG_MAX
    requires tail != "" && 'a' <= tail[0] <= 'f'
    ensures Parsed(Pad(' ', before) + mark + body + tail, 16).0 == Number(body, 16)
  {
    LeadBeforeLetter(before, mark, body, tail);
    ReadBehind(Pad(' ', before) + mark, body, tail, 16, false);
  }

  lemma LeadBeforeLetter(before: nat, mark: string, body: string, tail: string)
    requires IsMark(mark) && AllDigits(body, 16) && tail != "" && 'a' <= tail[0] <= 'f'
    ensures Lead(Pad(' ', before) + mark + body + tail, 16) == (before + |mark|, false, 16)
  {
    var s, rest := Pad(' ', before) + mark + body + tail, mark + body + tail;
    assert s == Pad(' ', before) + rest;
    if mark == "" && body != "" { assert rest[0] == body[0] && DigitOf(body[0], 16).Is?; }
    if mark == "" && body == "" { assert rest[0] == tail[0]; }
    SpacesSkipped(before, 0, rest);
    assert At(s, before) == rest[0] && (|rest| > 1 ==> At(s, before + 1) == rest[1]);
    if mark == "" {
      SecondIsNoX(body, tail);
      assert rest == body + tail;
    }
  }

  lemma SecondIsNoX(body: string, tail: string)
    requires AllDigits(body, 16) && tail != "" && 'a' <= tail[0] <= 'f'
    ensures var t := body + tail; t[0] == '0' && |t| > 1 ==> t[1] != 'x' && t[1] != 'X'
  {
    var t := body + tail;
    if body == "" {
      assert t[0] == tail[0];
    } else if |body| == 1 {
      assert t[1] == tail[0];
    } else {
      assert t[1] == body[1] && DigitOf(body[1], 16).Is?;
    }
  }

  // ----- the base -----

  function Saturated(n: nat): u32 { if n > ULONG_MAX then ULONG_MAX else n }

  // Base 0 takes its base from how the number begins: 0x or 0X, 0, or another
  // digit; base 16 passes over a 0x as well.
  lemma BaseFromPrefix(d: string, base: nat)
    requires base == 0 || base == 16
    ensures d != "" && AllDigits(d, 16) ==>
      Parsed("0x" + d, base) == Parsed("0X" + d, base) == (Saturated(Number(d, 16)), |d| + 2)
    ensures AllDigits(d, 8) && base == 0 ==> Parsed("0" + d, base) == (Saturated(Number(d, 8)), |d| + 1)
    ensures d != "" && d[0] != '0' && AllDigits(d, 10) && base == 0
      ==> Parsed(d, base) == (Saturated(Number(d, 10)), |d|)
  {
    if d != "" && AllDigits(d, 16) {
      HexAfterPrefix("0x", d, base);
      HexAfterPrefix("0X", d, base);
    }
    if AllDigits(d, 8) && base == 0 { OctalAfterZero(d); }
    if d != "" && d[0] != '0' && AllDigits(d, 10) && base == 0 {
      assert DigitOf(d[0], 10).Is? && SkipSpaces(d, 0) == 0;
      AllRead(d, 0, 10);
    }
  }

  lemma HexAfterPrefix(p: string, d: string, base: nat)
    requires (base == 0 || base == 16) && (p == "0x" || p == "0X") && d != "" && AllDigits(d, 16)
    ensures Parsed(p + d, base) == (Saturated(Number(d, 16)), |d| + 2)
  {
    assert d[..0] == "" && p + d == p + d + "";
    assert At(p + d, 0) == '0' && At(p + d, 1) == p[1] && SkipSpaces(p + d, 0) == 0;
    DigitsInside(p, d, "", 0, 16);
  }

  lemma OctalAfterZero(d: string)
    requires AllDigits(d, 8)
    ensures Parsed("0" + d, 0) == (Saturated(Number(d, 8)), |d| + 1)
  {
    assert Pad('0', 1) == "0";
    LeadingZeros(1, d, 8);
    OctalLead(d);
    AllRead("0" + d, 0, 8);
  }

  lemma OctalLead(d: string)
    requires AllDigits(d, 8)
    ensures Lead("0" + d, 0) == (0, false, 8)
  {
    var s := "0" + d;
    assert At(s, 0) == '0' && SkipSpaces(s, 0) == 0;
    if d != "" { assert At(s, 1) == d[0] && DigitOf(d[0], 8).Is?; }
  }

  lemma AllRead(s: string, base0: nat, base: nat)
    requires s != "" && AllDigits(s, base) && Lead(s, base0) == (0, false, base)
    ensures Parsed(s, base0) == (Saturated(Number(s, base)), |s|)
  {
    assert s[..0] == "";
    ValueOfDigits(s, 0, base);
  }
}
