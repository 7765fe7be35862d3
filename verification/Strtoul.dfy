/** strtoul: one scanning loop with an overflow test, and the inversion of the
    formatter's digits. */
module Strtoul {
  import opened Bits
  import opened Digits

  const ULONG_MAX: u32 := 0xFFFF_FFFF

  // The character at i; a NUL ends every string.
  function At(s: string, i: nat): char
  {
    if i < |s| then s[i] else '\0'
  }

  predicate IsSpace(c: char) { c == ' ' || c == '\U{0C}' || c == '\n' || c == '\r' || c == '\t' || c == '\U{0B}' }
  predicate IsDigit(c: char) { '0' <= c <= '9' }
  predicate IsAlpha(c: char) { 'A' <= c <= 'Z' || 'a' <= c <= 'z' }
  // True of every character.
  predicate IsUpper(c: char) { c >= 'A' || c <= 'Z' }

  datatype Digit = NoDigit | Is(value: nat)

  // What the loop makes of a character.
  function DigitOf(c: char, base: nat): (d: Digit)
    ensures d.Is? ==> d.value < base
  {
    var v := if IsDigit(c) then c as int - '0' as int
             else if IsAlpha(c) then c as int - (if IsUpper(c) then 'A' as int - 10 else 'a' as int - 10)
             else base;
    if 0 <= v < base then Is(v) else NoDigit
  }

  // The digits from i on, as far as they go.
  function Run(s: string, i: nat, base: nat): (j: nat)
    ensures i <= j && (i <= |s| ==> j <= |s|)
    decreases |s| - i
  {
    if i < |s| && DigitOf(s[i], base).Is? then Run(s, i + 1, base) else i
  }

  // Their value, continuing from acc.
  function Value(s: string, i: nat, base: nat, acc: nat): nat
    decreases |s| - i
  {
    if i < |s| && DigitOf(s[i], base).Is? then Value(s, i + 1, base, acc * base + DigitOf(s[i], base).value) else acc
  }

  // ----- in front of the digits -----

  function SkipSpaces(s: string, i: nat): (j: nat)
    ensures i <= j
    decreases |s| - i
  {
    if i < |s| && IsSpace(s[i]) then SkipSpaces(s, i + 1) else i
  }

  // Where the digits start, whether a minus stands in front, and the base.
  function Lead(s: string, base: nat): (nat, bool, nat)
  {
    var i := SkipSpaces(s, 0);
    var neg := At(s, i) == '-';
    var j := if neg || At(s, i) == '+' then i + 1 else i;
    if (base == 0 || base == 16) && At(s, j) == '0' && (At(s, j + 1) == 'x' || At(s, j + 1) == 'X') then
      (j + 2, neg, 16)
    else (j, neg, if base != 0 then base else if At(s, j) == '0' then 8 else 10)
  }

  // The whole answer: the value held at ULONG_MAX when it is too large, and
  // negated modulo 2^32 behind a minus; and how far the digits went.
  function Parsed(s: string, base: nat): (u32, nat)
  {
    var (i, neg, b) := Lead(s, base);
    var j, v := Run(s, i, b), Value(s, i, b, 0);
    (if v > ULONG_MAX then ULONG_MAX else if neg then (WORD - v) % WORD else v, if j > i then j else 0)
  }

  lemma {:induction false} ValueGrows(s: string, i: nat, base: nat, acc: nat)
    requires base >= 1
    ensures Value(s, i, base, acc) >= acc
    decreases |s| - i
  {
    if i < |s| && DigitOf(s[i], base).Is? {
      var m := Longer(acc, base, DigitOf(s[i], base).value);
      ValueGrows(s, i + 1, base, m);
    }
  }

  lemma Longer(acc: nat, base: nat, d: nat) returns (m: nat)
    requires base >= 1
    ensures m == acc * base + d && m >= acc
  {
    MulMonotone(1, base, acc);
    m := acc * base + d;
  }

  // The overflow test of the loop, with cutoff and cutlim, is exact.
  lemma CutoffIsExact(acc: nat, base: nat, d: nat, cutoff: nat, cutlim: nat)
    requires 0 < base && d < base && ULONG_MAX == cutoff * base + cutlim && cutlim < base
    ensures acc > cutoff || (acc == cutoff && d > cutlim) <==> acc * base + d > ULONG_MAX
  {
    if acc > cutoff { MulMonotone(cutoff + 1, acc, base); }
    if acc < cutoff { MulMonotone(acc + 1, cutoff, base); }
  }

  method Strtoul(nptr: string, base0: nat) returns (acc: u32, end: nat)
    ensures (acc, end) == Parsed(nptr, base0)
  {
    var s, neg, base := ReadLead(nptr, base0);
    var any;
    acc, any, end := ReadDigits(nptr, s, base);
    if any < 0 {
      acc := ULONG_MAX;
    } else if neg {
      acc := (WORD - acc) % WORD;
    }
    if any == 0 {
      end := 0;
    }
  }

  method ReadLead(nptr: string, base0: nat) returns (s: nat, neg: bool, base: nat)
    ensures (s, neg, base) == Lead(nptr, base0) && base >= 1
  {
    s, neg, base := 0, false, base0;
    while IsSpace(At(nptr, s))
      invariant SkipSpaces(nptr, s) == SkipSpaces(nptr, 0)
      decreases |nptr| - s
    {
      s := s + 1;
    }
    if At(nptr, s) == '-' {
      neg := true;
      s := s + 1;
    } else if At(nptr, s) == '+' {
      s := s + 1;
    }
    if (base == 0 || base == 16) && At(nptr, s) == '0' && (At(nptr, s + 1) == 'x' || At(nptr, s + 1) == 'X') {
      s := s + 2;
      base := 16;
    }
    if base == 0 {
      base := if At(nptr, s) == '0' then 8 else 10;
    }
  }

  lemma OneDigit(s: string, i: nat, base: nat, acc: nat)
    requires DigitOf(At(s, i), base).Is? && DigitOf('\0', base).NoDigit?
    ensures i < |s| && Run(s, i, base) == Run(s, i + 1, base)
    ensures Value(s, i, base, acc) == Value(s, i + 1, base, acc * base + DigitOf(At(s, i), base).value)
  {
  }

  // One digit into the accumulator.
  method Accumulate(acc: u32, any: int, c: nat, base: nat, cutoff: nat, cutlim: nat) returns (acc': u32, any': int)
    requires 0 < base && c < base && ULONG_MAX == cutoff * base + cutlim && cutlim < base
    ensures any' == if any < 0 || acc * base + c > ULONG_MAX then -1 else 1
    ensures any' >= 0 ==> acc' == acc * base + c
  {
    CutoffIsExact(acc, base, c, cutoff, cutlim);
    if any < 0 || acc > cutoff || (acc == cutoff && c > cutlim) {
      return acc, -1;
    }
    return acc * base + c, 1;
  }

  // With the digits before s read, the rest still leads to `total`.
  ghost predicate Scanning(nptr: string, s: nat, base: nat, acc: u32, any: int, total: nat)
  {
    if any < 0 then total > ULONG_MAX else Value(nptr, s, base, acc) == total
  }

  // The body of the loop.
  method TakeDigit(nptr: string, s: nat, base: nat, acc: u32, any: int, cutoff: nat, cutlim: nat, ghost total: nat)
    returns (acc': u32, any': int)
    requires base >= 1 && ULONG_MAX == cutoff * base + cutlim && cutlim < base
    requires DigitOf(At(nptr, s), base).Is? && Scanning(nptr, s, base, acc, any, total)
    ensures Scanning(nptr, s + 1, base, acc', any', total) && any' != 0
    ensures s < |nptr| && Run(nptr, s, base) == Run(nptr, s + 1, base)
  {
    var c := DigitOf(At(nptr, s), base).value;
    MulMonotone(0, acc, base);
    ghost var m: nat := acc * base + c;
    OneDigit(nptr, s, base, acc);
    ValueGrows(nptr, s + 1, base, m);
    acc', any' := Accumulate(acc, any, c, base, cutoff, cutlim);
    StillScanning(nptr, s, base, acc, any, total, m, acc', any');
  }

  method Cutoffs(base: nat) returns (cutoff: nat, cutlim: nat)
    requires base > 0
    ensures ULONG_MAX == cutoff * base + cutlim && cutlim < base
  {
    QuotIsDiv(ULONG_MAX, base);
    cutoff, cutlim := ULONG_MAX / base, ULONG_MAX % base;
  }

  lemma StillScanning(nptr: string, s: nat, base: nat, acc: u32, any: int, total: nat, m: nat, acc': u32, any': int)
    requires Scanning(nptr, s, base, acc, any, total)
    requires Value(nptr, s, base, acc) == Value(nptr, s + 1, base, m) >= m
    requires any' == (if any < 0 || m > ULONG_MAX then -1 else 1) && (any' >= 0 ==> acc' == m)
    ensures Scanning(nptr, s + 1, base, acc', any', total)
  {
  }

  lemma NoMoreDigits(nptr: string, s: nat, base: nat, acc: nat)
    requires DigitOf(At(nptr, s), base).NoDigit?
    ensures Run(nptr, s, base) == s && Value(nptr, s, base, acc) == acc
  {
  }

  // The loop. `any` is 0 before the first digit and -1 after an overflow.
  method ReadDigits(nptr: string, start: nat, base: nat) returns (acc: u32, any: int, s: nat)
    requires base >= 1
    ensures s == Run(nptr, start, base) && (any == 0 <==> s == start)
    ensures any < 0 <==> Value(nptr, start, base, 0) > ULONG_MAX
    ensures any >= 0 ==> acc == Value(nptr, start, base, 0)
  {
    ghost var run, total := Run(nptr, start, base), Value(nptr, start, base, 0);
    var cutoff, cutlim := Cutoffs(base);
    acc, any, s := 0, 0, start;
    while DigitOf(At(nptr, s), base).Is?
      invariant s >= start && Run(nptr, s, base) == run && (any == 0 <==> s == start)
      invariant Scanning(nptr, s, base, acc, any, total)
      decreases |nptr| - s
    {
      acc, any := TakeDigit(nptr, s, base, acc, any, cutoff, cutlim, total);
      s := s + 1;
    }
    NoMoreDigits(nptr, s, base, acc);
  }

  // ----- what Parsed says about digit strings -----

  predicate AllDigits(s: string, base: nat)
  {
    forall i :: 0 <= i < |s| ==> DigitOf(s[i], base).Is?
  }

  // The number a string of digits stands for.
  function Number(s: string, base: nat): nat
  {
    if s == "" then 0
    else var d := DigitOf(s[|s| - 1], base); Number(s[..|s| - 1], base) * base + if d.Is? then d.value else 0
  }

  lemma {:induction false} ValueOfDigits(s: string, i: nat, base: nat)
    requires i <= |s| && AllDigits(s, base)
    ensures Run(s, i, base) == |s|
    ensures Value(s, i, base, Number(s[..i], base)) == Number(s, base)
    decreases |s| - i
  {
    if i < |s| {
      assert s[..i + 1][..i] == s[..i] && s[..i + 1][i] == s[i];
      ValueOfDigits(s, i + 1, base);
    } else {
      assert s[..i] == s;
    }
  }

  lemma DigitsHaveNoLead(s: string, base: nat)
    requires base >= 1 && s != "" && AllDigits(s, base)
    ensures Lead(s, base) == (0, false, base)
  {
    assert DigitOf(s[0], base).Is?;
    if |s| > 1 { assert DigitOf(s[1], base).Is?; }
  }

  // A string of digits of any length, in upper case as DigitOf has it, gives
  // its number, held at ULONG_MAX exactly when it is too large; and all of it
  // is read.
  lemma DigitStringsSaturate(s: string, base: nat)
    requires base >= 1 && s != "" && AllDigits(s, base)
    ensures Parsed(s, base) == (if Number(s, base) > ULONG_MAX then ULONG_MAX else Number(s, base), |s|)
  {
    DigitsHaveNoLead(s, base);
    ValueOfDigits(s, 0, base);
    assert s[..0] == "";
  }

  // isupper holds of every character, so a lower-case letter counts from 42 on
  // and is no digit in any base of the standard.
  lemma LowerCaseIsNoDigit(c: char, base: nat)
    ensures 'a' <= c <= 'z' ==> (DigitOf(c, base).Is? <==> base > 42 + (c as int - 'a' as int))
    ensures 'A' <= c <= 'Z' && c as int - 'A' as int + 10 < base ==> DigitOf(c, base) == Is(c as int - 'A' as int + 10)
    ensures IsDigit(c) && c as int - '0' as int < base ==> DigitOf(c, base) == Is(c as int - '0' as int)
  {
  }

  // ----- reading back what the formatter printed -----

  function Backwards(s: string): (r: string)
    ensures |r| == |s|
  {
    if s == "" then "" else Backwards(s[1..]) + [s[0]]
  }

  lemma {:induction false} PrintedNumber(val: nat, base: nat)
    requires Base(base)
    ensures var s := Backwards(Reversed(val, base, 0)); s != "" && AllDigits(s, base) && Number(s, base) == val
    decreases val
  {
    var q, d := Over(val, base), LastDigit(val, base);
    var c := DigitChar(d, 0);
    OverDigit(val, base);
    assert DigitOf(c, base) == Is(d);
    if q == 0 {
      assert Reversed(val, base, 0) == [c] && Backwards([c]) == [c];
      assert [c][..0] == "";
    } else {
      PrintedNumber(q, base);
      var front := Backwards(Reversed(q, base, 0));
      assert Backwards(Reversed(val, base, 0)) == front + [c] by {
        assert ([c] + Reversed(q, base, 0))[1..] == Reversed(q, base, 0);
      }
      assert (front + [c])[..|front|] == front;
    }
  }

  // strtoul inverts the formatter's upper-case digits for every number.
  lemma PrintThenParse(val: u32, base: nat)
    requires Base(base)
    ensures var s := Backwards(Reversed(val, base, 0)); Parsed(s, base) == (val, |s|)
  {
    PrintedNumber(val, base);
    DigitStringsSaturate(Backwards(Reversed(val, base, 0)), base);
  }

  // ----- lower-case hexadecimal -----

  predicate Decimal(s: string)
  {
    forall i :: 0 <= i < |s| ==> IsDigit(s[i])
  }

  // The two cases of a printed number agree on the digits up to nine.
  ghost predicate SameDigits(lower: string, upper: string)
  {
    && |lower| == |upper| && AllDigits(upper, 16)
    && forall i :: 0 <= i < |lower| ==> if IsDigit(upper[i]) then lower[i] == upper[i] else 'a' <= lower[i] <= 'f'
  }

  lemma {:induction false} BothCases(val: nat)
    ensures SameDigits(Backwards(Reversed(val, 16, 32)), Backwards(Reversed(val, 16, 0)))
    decreases val
  {
    var q, d := Over(val, 16), LastDigit(val, 16);
    var l, u := Reversed(val, 16, 32), Reversed(val, 16, 0);
    assert l[0] == DigitChar(d, 32) && u[0] == DigitChar(d, 0);
    if q == 0 {
      assert l[1..] == "" && u[1..] == "";
      assert Backwards(l) == [l[0]] && Backwards(u) == [u[0]];
    } else {
      BothCases(q);
      assert l[1..] == Reversed(q, 16, 32) && u[1..] == Reversed(q, 16, 0);
      SameAppended(Backwards(l[1..]), Backwards(u[1..]), d);
    }
  }

  lemma SameAppended(lower: string, upper: string, d: nat)
    requires SameDigits(lower, upper) && d < 16
    ensures SameDigits(lower + [DigitChar(d, 32)], upper + [DigitChar(d, 0)])
  {
  }

  lemma {:induction false} StopsAtLetter(lower: string, upper: string, i: nat)
    requires SameDigits(lower, upper) && i <= |lower| && Decimal(lower[..i])
    ensures var j := Run(lower, i, 16);
      && Decimal(lower[..j]) && (j < |lower| ==> !IsDigit(lower[j]))
      && Value(lower, i, 16, Number(upper[..i], 16)) == Number(upper[..j], 16)
    decreases |lower| - i
  {
    if i < |lower| && DigitOf(lower[i], 16).Is? {
      assert IsDigit(lower[i]) && lower[i] == upper[i];
      assert lower[..i + 1] == lower[..i] + [lower[i]];
      assert upper[..i + 1][..i] == upper[..i] && upper[..i + 1][i] == upper[i];
      StopsAtLetter(lower, upper, i + 1);
    }
  }

  lemma {:induction false} PrefixIsLess(s: string, j: nat)
    requires j <= |s|
    ensures Number(s[..j], 16) <= Number(s, 16)
    ensures j < |s| && Number(s, 16) > 0 ==> Number(s[..j], 16) < Number(s, 16)
    decreases |s|
  {
    if j == |s| {
      assert s[..j] == s;
    } else {
      var front := s[..|s| - 1];
      assert front[..j] == s[..j];
      PrefixIsLess(front, j);
    }
  }

  // Printed in lower case, a number reads back as itself exactly when no
  // letter occurs in it: the first letter ends the scan.
  lemma LowerCaseHex(val: u32)
    ensures var s := Backwards(Reversed(val, 16, 32)); Parsed(s, 16).0 == val <==> Decimal(s)
  {
    var lower, upper := Backwards(Reversed(val, 16, 32)), Backwards(Reversed(val, 16, 0));
    BothCases(val);
    PrintedNumber(val, 16);
    ScanOfLower(lower, upper);
  }

  lemma ScanOfLower(lower: string, upper: string)
    requires SameDigits(lower, upper) && lower != "" && Number(upper, 16) <= ULONG_MAX
    ensures Parsed(lower, 16).0 == Number(upper, 16) <==> Decimal(lower)
  {
    LowerHasNoLead(lower, upper);
    assert lower[..0] == "" && upper[..0] == "";
    StopsAtLetter(lower, upper, 0);
    var j := Run(lower, 0, 16);
    PrefixIsLess(upper, j);
    if j == |lower| {
      assert lower[..j] == lower && upper[..j] == upper;
    } else {
      LetterIsPositive(upper, j);
    }
  }

  lemma LowerHasNoLead(lower: string, upper: string)
    requires SameDigits(lower, upper) && lower != ""
    ensures Lead(lower, 16) == (0, false, 16)
  {
    assert IsDigit(upper[0]) || 'a' <= lower[0] <= 'f';
    if |lower| > 1 { assert IsDigit(upper[1]) || 'a' <= lower[1] <= 'f'; }
  }

  lemma {:induction false} LetterIsPositive(s: string, j: nat)
    requires j < |s| && AllDigits(s, 16) && !IsDigit(s[j])
    ensures Number(s, 16) > 0
    decreases |s|
  {
    var front := s[..|s| - 1];
    if j < |front| { LetterIsPositive(front, j); }
  }
}
