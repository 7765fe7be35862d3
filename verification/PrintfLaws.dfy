/** What a field looks like, conversion by conversion: signs, prefixes, digits,
    zeros and spaces. */
module PrintfLaws {
  import opened Bits
  import opened Digits
  import opened Strtoul
  import opened PrintfSpec
  import opened PrintfStrtoul
  import opened PrintfFormat
  import Printf

  ghost function Repeat(c: char, n: int): string
    decreases n
  {
    if n <= 0 then "" else [c] + Repeat(c, n - 1)
  }

  // The numeral of a number: its digits, the first one in front, no zeros
  // before it.
  ghost function Numeral(n: nat, base: nat, upper: bool): string
    requires base == 8 || base == 10 || base == 16
    decreases n
  {
    var q := if base == 8 then n / 8 else if base == 10 then n / 10 else n / 16;
    var d := if base == 8 then n % 8 else if base == 10 then n % 10 else n % 16;
    (if q == 0 then "" else Numeral(q, base, upper)) + [(if upper then "0123456789ABCDEF" else "0123456789abcdef")[d]]
  }

  // In a field of this width: front and body on the left with spaces behind,
  // or on the right with spaces before or zeros between them.
  ghost function Laid(width: int, left: bool, fill: bool, front: string, body: string): string
  {
    var n := width - |front| - |body|;
    if left then front + body + Repeat(' ', n)
    else if fill then front + Repeat('0', n) + body
    else Repeat(' ', n) + front + body
  }

  ghost function AtLeast(digits: string, n: int): string { Repeat('0', n - |digits|) + digits }

  // A specification without a precision has none left behind.
  ghost predicate Usual(s: Spec)
  {
    && s.prepend in {'\0', '+', ' '} && (s.caseAdjust == 0 || s.caseAdjust == 32)
    && s.prec >= 0 && (s.precOpt == NotGiven ==> s.prec == 0)
  }

  ghost predicate Cased(s: Spec) { (s.caseAdjust == 0 || s.caseAdjust == 32) && s.prec >= 0 }

  // The bits that a length modifier leaves.
  ghost function Range(m: LengthModifier): nat
  {
    match m
    case Short => 0x1_0000
    case Char => 0x100
    case _ => 0x1_0000_0000
  }

  // The number with these bits, signed or not.
  ghost predicate HasBits(v: int, word: u32, m: LengthModifier, signed: bool)
  {
    && (v - word) % Range(m) == 0
    && if signed then -(Range(m) / 2) <= v < Range(m) / 2 else 0 <= v < Range(m)
  }

  ghost function SignOf(negative: bool, s: Spec): string
  {
    if negative then "-" else if s.prepend == '+' then "+" else if s.prepend == ' ' then " " else ""
  }

  // ----- repeated characters and digits -----

  lemma {:induction false} RepeatIsPad(c: char, n: int)
    ensures Repeat(c, n) == Pad(c, n)
    decreases n
  {
    if n > 0 {
      RepeatIsPad(c, n - 1);
      ManyPadded(c, n);
    }
  }

  lemma {:induction false} RepeatAdds(c: char, m: nat, n: nat)
    ensures Repeat(c, m) + Repeat(c, n) == Repeat(c, m + n)
  {
    if m > 0 { RepeatAdds(c, m - 1, n); }
  }

  lemma {:induction false} NumeralIsPrinted(n: nat, base: nat, caseAdj: nat)
    requires (base == 8 || base == 10 || base == 16) && (caseAdj == 0 || caseAdj == 32)
    ensures Backwards(Reversed(n, base, caseAdj)) == Numeral(n, base, caseAdj == 0)
    decreases n
  {
    var q, d := Over(n, base), DigitChar(LastDigit(n, base), caseAdj);
    assert d == (if caseAdj == 0 then "0123456789ABCDEF" else "0123456789abcdef")[LastDigit(n, base)];
    if q == 0 {
      assert [d] + "" == [d];
    } else {
      NumeralIsPrinted(q, base, caseAdj);
      var rest := Reversed(q, base, caseAdj);
      assert ([d] + rest)[0] == d && ([d] + rest)[1..] == rest;
    }
  }

  // ----- the field -----

  // Where the zeros fill the width, they join those of the precision.
  lemma FieldIsLaid(c: Converted)
    ensures Field(c) == Laid(c.spec.fieldWidth, c.spec.leftJustified, ZeroPadded(c), Prefix(c),
                             Repeat('0', PrecPad(c)) + c.payload)
  {
    var zeros := PrecPad(c);
    var n := c.spec.fieldWidth - |Prefix(c)| - zeros - |c.payload|;
    RepeatIsPad('0', zeros);
    RepeatIsPad(' ', n);
    RepeatIsPad('0', n);
    RepeatIsPad('0', zeros + Max(0, n));
    if ZeroPadded(c) {
      RepeatAdds('0', Max(0, n), zeros);
      assert Repeat('0', n) == Repeat('0', Max(0, n));
      InThree(Prefix(c), Repeat('0', n), Repeat('0', zeros), c.payload);
    } else {
      InThree(Pad(' ', n), Prefix(c), Repeat('0', zeros), c.payload);
      InThree(Prefix(c), Repeat('0', zeros), c.payload, Pad(' ', n));
    }
  }

  lemma InThree(a: string, b: string, c: string, d: string)
    ensures a + b + (c + d) == a + (b + c) + d == a + (b + c + d) == (a + b + c) + d
  {
  }

  // What stands in front of the digits, and the digits with the zeros that a
  // precision asks for.
  ghost function NumberBody(s: Spec, n: nat, base: nat): string
    requires base == 8 || base == 10 || base == 16
  {
    if n == 0 && s.precOpt != NotGiven && s.prec == 0 then (if base == 8 && s.altForm then "0" else "")
    else AtLeast((if base == 8 && s.altForm && n > 0 then "0" else "") + Numeral(n, base, s.caseAdjust == 0), s.prec)
  }

  ghost function HexMark(s: Spec, n: nat, base: nat): string
  {
    if base == 16 && s.altForm && n > 0 then (if s.caseAdjust == 0 then "0X" else "0x") else ""
  }

  lemma NumberLaid(s: Spec, sign: char, n: nat)
    requires Cased(s) && (Integer(s.conv) || s.conv == Pointer)
    ensures var c := NumberText(s, sign, n);
      Field(c) == Laid(s.fieldWidth, s.leftJustified, ZeroPadded(c),
                       One(sign) + HexMark(s, n, BaseOf(s.conv)), NumberBody(s, n, BaseOf(s.conv)))
  {
    FieldIsLaid(NumberText(s, sign, n));
    BodyOfNumber(s, sign, n);
    FrontOfNumber(s, sign, n);
  }

  lemma FrontOfNumber(s: Spec, sign: char, n: nat)
    requires Cased(s) && (Integer(s.conv) || s.conv == Pointer)
    ensures var c := NumberText(s, sign, n);
      && Prefix(c) == One(sign) + HexMark(s, n, BaseOf(s.conv))
      && c.spec.fieldWidth == s.fieldWidth && c.spec.leftJustified == s.leftJustified
  {
  }

  lemma BodyOfNumber(s: Spec, sign: char, n: nat)
    requires Cased(s) && (Integer(s.conv) || s.conv == Pointer)
    ensures var c := NumberText(s, sign, n);
      Repeat('0', PrecPad(c)) + c.payload == NumberBody(s, n, BaseOf(s.conv))
  {
    var base, c := BaseOf(s.conv), NumberText(s, sign, n);
    if Blank(s, n) {
      assert Repeat('0', 1) == "0" by { assert Repeat('0', 0) == ""; }
    } else {
      PayloadOfNumber(s, sign, n);
      SameRepeat('0', PrecPad(c), s.prec - |c.payload|);
    }
  }

  lemma PayloadOfNumber(s: Spec, sign: char, n: nat)
    requires Cased(s) && (Integer(s.conv) || s.conv == Pointer) && !Blank(s, n)
    ensures var base := BaseOf(s.conv);
      NumberText(s, sign, n).payload
      == (if base == 8 && s.altForm && n > 0 then "0" else "") + Numeral(n, base, s.caseAdjust == 0)
  {
    var base := BaseOf(s.conv);
    NumeralIsPrinted(n, base, s.caseAdjust);
    BackwardsAppend(Reversed(n, base, s.caseAdjust), '0');
  }

  lemma SameRepeat(c: char, m: int, n: int)
    requires m == Max(0, n)
    ensures Repeat(c, m) == Repeat(c, n)
  {
  }

  // ----- the conversions -----

  // d and i.
  lemma SignedField(s: Spec, a: Arg, v: int)
    requires Usual(s) && s.conv == SignedInt && HasBits(v, a.word, s.modifier, true)
    ensures Field(Convert(Defaults(s), a))
      == Laid(s.fieldWidth, s.leftJustified, s.leadingZeroPad && !s.leftJustified && s.precOpt == NotGiven,
              SignOf(v < 0, s), NumberBody(s, if v < 0 then -v else v, 10))
  {
    var sign, n := if v < 0 then '-' else s.prepend, if v < 0 then -v else v;
    SignedConverted(s, a, v, sign, n);
    IntegerLaid(s, sign, n);
    SignInFront(s, v < 0, sign, n);
  }

  lemma SignedConverted(s: Spec, a: Arg, v: int, sign: char, n: nat)
    requires Cased(s) && s.conv == SignedInt && HasBits(v, a.word, s.modifier, true)
    requires sign == (if v < 0 then '-' else s.prepend) && n == if v < 0 then -v else v
    ensures Convert(Defaults(s), a) == NumberText(Defaults(s), sign, n)
  {
    SignedValue(v, a.word, s.modifier);
  }

  lemma SignInFront(s: Spec, negative: bool, sign: char, n: nat)
    requires Usual(s) && sign == if negative then '-' else s.prepend
    ensures One(sign) + HexMark(s, n, 10) == SignOf(negative, s)
  {
  }

  // Where a precision is given, the zeros are its own.
  lemma IntegerLaid(s: Spec, sign: char, n: nat)
    requires Usual(s) && Integer(s.conv)
    ensures Field(NumberText(Defaults(s), sign, n))
      == Laid(s.fieldWidth, s.leftJustified, s.leadingZeroPad && !s.leftJustified && s.precOpt == NotGiven,
              One(sign) + HexMark(s, n, BaseOf(s.conv)), NumberBody(s, n, BaseOf(s.conv)))
  {
    var t := Defaults(s);
    NumberLaid(t, sign, n);
    SameBody(s, t, n, BaseOf(s.conv));
    FilledOnce(s, sign, n);
  }

  lemma SameBody(s: Spec, t: Spec, n: nat, base: nat)
    requires base == 8 || base == 10 || base == 16
    requires t.prec == s.prec && t.precOpt == s.precOpt && t.altForm == s.altForm && t.caseAdjust == s.caseAdjust
    ensures NumberBody(t, n, base) == NumberBody(s, n, base) && HexMark(t, n, base) == HexMark(s, n, base)
  {
  }

  lemma FilledOnce(s: Spec, sign: char, n: nat)
    requires Usual(s) && Integer(s.conv)
    ensures var c := NumberText(Defaults(s), sign, n);
      ZeroPadded(c) <==> s.leadingZeroPad && !s.leftJustified && s.precOpt == NotGiven
  {
  }

  lemma SignedValue(v: int, word: u32, m: LengthModifier)
    requires HasBits(v, word, m, true)
    ensures v == NarrowSigned(word, m)
  {
    Congruent(v, word, Range(m));
  }

  lemma Congruent(v: int, w: int, r: nat)
    requires r > 0 && (v - w) % r == 0
    ensures v % r == w % r
  {
    var q := (v - w) / r;
    assert v - w == r * q;
    DivModUnique(v, r, w / r + q, w % r);
  }

  // u, o and x.
  lemma UnsignedField(s: Spec, a: Arg, v: int)
    requires Usual(s) && (s.conv == UnsignedInt || s.conv == Octal || s.conv == HexInt)
    requires HasBits(v, a.word, s.modifier, false)
    ensures var base := if s.conv == UnsignedInt then 10 else if s.conv == Octal then 8 else 16;
      Field(Convert(Defaults(s), a))
      == Laid(s.fieldWidth, s.leftJustified, s.leadingZeroPad && !s.leftJustified && s.precOpt == NotGiven,
              HexMark(s, v, base), NumberBody(s, v, base))
  {
    UnsignedConverted(s, a, v);
    IntegerLaid(s, '\0', v);
    assert One('\0') + HexMark(s, v, BaseOf(s.conv)) == HexMark(s, v, BaseOf(s.conv));
  }

  lemma UnsignedConverted(s: Spec, a: Arg, v: int)
    requires Cased(s) && (s.conv == UnsignedInt || s.conv == Octal || s.conv == HexInt)
    requires HasBits(v, a.word, s.modifier, false)
    ensures Convert(Defaults(s), a) == NumberText(Defaults(s), '\0', v)
  {
    UnsignedValue(v, a.word, s.modifier);
  }

  lemma UnsignedValue(v: int, word: u32, m: LengthModifier)
    requires HasBits(v, word, m, false)
    ensures v == Narrow(word, m)
  {
    Congruent(v, word, Range(m));
  }

  // p: eight digits unless a precision says otherwise.
  lemma PointerField(s: Spec, a: Arg)
    requires Usual(s) && s.conv == Pointer
    ensures var t := if s.precOpt == NotGiven then s.(prec := 8) else s;
      Field(Convert(Defaults(s), a))
      == Laid(s.fieldWidth, s.leftJustified, s.leadingZeroPad && !s.leftJustified
                                             && !(s.precOpt != NotGiven && s.prec == 0 && a.word == 0),
              HexMark(s, a.word, 16), NumberBody(t, a.word, 16))
  {
    var t := Defaults(s);
    NumberLaid(t, '\0', a.word);
    PointerFilled(t, a.word);
    assert "" + HexMark(t, a.word, 16) == HexMark(t, a.word, 16);
    SameBody(if s.precOpt == NotGiven then s.(prec := 8) else s, t, a.word, 16);
  }

  lemma PointerFilled(t: Spec, n: nat)
    requires Cased(t) && t.conv == Pointer
    ensures ZeroPadded(NumberText(t, '\0', n))
      <==> t.leadingZeroPad && !t.leftJustified && !(t.precOpt != NotGiven && t.prec == 0 && n == 0)
  {
  }

  // c: the character with the low eight bits, and zeros up to a precision.
  lemma CharacterField(s: Spec, a: Arg)
    requires Usual(s) && s.conv == Character
    ensures Field(Convert(Defaults(s), a))
      == Laid(s.fieldWidth, s.leftJustified, s.leadingZeroPad && !s.leftJustified, "",
              AtLeast([(a.word % 0x100) as char], s.prec))
  {
    OneCharacter(Convert(Defaults(s), a), s);
  }

  // %%
  lemma PercentField(s: Spec, a: Arg)
    requires Usual(s) && s.conv == Percent
    ensures Field(Convert(Defaults(s), a))
      == Laid(s.fieldWidth, s.leftJustified, s.leadingZeroPad && !s.leftJustified, "", AtLeast("%", s.prec))
  {
    OneCharacter(Convert(Defaults(s), a), s);
  }

  lemma OneCharacter(c: Converted, s: Spec)
    requires (c.spec.conv == Character || c.spec.conv == Percent) && c.spec == s
    requires c.sign == '\0' && c.need0x == '\0' && |c.payload| == 1 && !c.zero
    ensures Field(c) == Laid(s.fieldWidth, s.leftJustified, s.leadingZeroPad && !s.leftJustified, "",
                             AtLeast(c.payload, s.prec))
  {
    FieldIsLaid(c);
    SameRepeat('0', PrecPad(c), s.prec - 1);
  }

  // Texts and floating-point numbers take no zeros for a precision.
  lemma NoZeros(c: Converted)
    requires c.spec.conv == Text || c.spec.conv == Float
    ensures Field(c) == Laid(c.spec.fieldWidth, c.spec.leftJustified, ZeroPadded(c), Prefix(c), c.payload)
  {
    FieldIsLaid(c);
    assert Repeat('0', 0) + c.payload == c.payload;
  }

  // s: as many characters of the text as the precision lets through, none of
  // no text.
  lemma TextField(s: Spec, a: Arg)
    requires Usual(s) && s.conv == Text
    ensures Field(Convert(Defaults(s), a))
      == Laid(s.fieldWidth, s.leftJustified, s.leadingZeroPad && !s.leftJustified, "",
              if a.isNull then "" else if s.precOpt != NotGiven && s.prec < |a.text| then a.text[..s.prec] else a.text)
  {
    NoZeros(Convert(Defaults(s), a));
  }

  // e, f and g: the sign in front, and zeros only where it is a number.
  lemma FloatField(s: Spec, a: Arg)
    requires Usual(s) && s.conv == Float
    ensures Field(Convert(Defaults(s), a))
      == Laid(s.fieldWidth, s.leftJustified,
              s.leadingZeroPad && !s.leftJustified && !a.float.isText
              && !(s.precOpt != NotGiven && s.prec == 0 && a.float.zero),
              SignOf(a.float.negative, s), Backwards(a.float.reversed))
  {
    FloatFront(s, a);
    NoZeros(Convert(Defaults(s), a));
  }

  lemma FloatFront(s: Spec, a: Arg)
    requires Usual(s) && s.conv == Float
    ensures var c := Convert(Defaults(s), a);
      Prefix(c) == SignOf(a.float.negative, s) && c.payload == Backwards(a.float.reversed)
  {
  }

  // ----- '*' and the flags -----

  // A width or precision from the arguments: a negative width means the left
  // side, a negative precision none.
  lemma StarsTaken(s: Spec, args: seq<Arg>, k: nat, w: int, p: int)
    requires s.fieldWidthOpt == Star && s.precOpt == Star && k + 2 <= |args|
    requires HasBits(w, args[k].word, NoModifier, true) && HasBits(p, args[k + 1].word, NoModifier, true)
    ensures Resolve(s, args, k)
      == (Defaults(s.(fieldWidth := if w < 0 then -w else w, leftJustified := s.leftJustified || w < 0,
                      prec := if p < 0 then 0 else p, precOpt := if p < 0 then NotGiven else Star)), k + 2)
  {
    SignedValue(w, args[k].word, NoModifier);
    SignedValue(p, args[k + 1].word, NoModifier);
  }

  lemma OneStarTaken(s: Spec, args: seq<Arg>, k: nat, n: int)
    requires (s.fieldWidthOpt == Star) != (s.precOpt == Star) && k < |args|
    requires HasBits(n, args[k].word, NoModifier, true)
    ensures Resolve(s, args, k)
      == (Defaults(if s.fieldWidthOpt == Star
                   then s.(fieldWidth := if n < 0 then -n else n, leftJustified := s.leftJustified || n < 0)
                   else s.(prec := if n < 0 then 0 else n, precOpt := if n < 0 then NotGiven else Star)), k + 1)
  {
    SignedValue(n, args[k].word, NoModifier);
  }

  // What a flag adds.
  function AfterFlag(c: char, s: Spec): Spec
  {
    if c == '-' then s.(leftJustified := true)
    else if c == '0' then s.(leadingZeroPad := true)
    else if c == '+' then s.(prepend := '+')
    else if c == ' ' then (if s.prepend == '+' then s else s.(prepend := ' '))
    else s.(altForm := true)
  }

  // Flags in any order and number: a plus outweighs a space.
  lemma {:induction false} FlagsMean(format: string, i: nat, j: nat, s: Spec)
    requires i <= j <= |format| && (forall k :: i <= k < j ==> format[k] in {'-', '0', '+', ' ', '#'})
    requires j < |format| ==> format[j] !in {'-', '0', '+', ' ', '#'}
    requires s.prepend in {'\0', '+', ' '}
    ensures var t := format[i..j];
      Flags(format, i, s)
      == (s.(leftJustified := s.leftJustified || '-' in t, leadingZeroPad := s.leadingZeroPad || '0' in t,
             altForm := s.altForm || '#' in t,
             prepend := if s.prepend == '+' || '+' in t then '+' else if ' ' in t then ' ' else s.prepend), j)
    decreases j - i
  {
    if i < j {
      assert format[i..j] == [format[i]] + format[i + 1..j];
      FlagsMean(format, i + 1, j, AfterFlag(format[i], s));
    } else {
      assert format[i..j] == "";
    }
  }

  // The letters there are, and what the ones that mean the same stand for.
  lemma LettersKnown(c: char)
    ensures PrintfSpec.Lookup(c).Known? <==> c in "%cCdDiIeEfFgGoOpPsSuUxX"
    ensures c in "iI" ==> PrintfSpec.Lookup(c) == PrintfSpec.Lookup('d')
    ensures c in "eEgG" ==> PrintfSpec.Lookup(c) == PrintfSpec.Lookup('f')
  {
  }

  // ----- a whole format -----

  // One specification without a '*' prints its field.
  lemma OneField(s: Spec, w: string, p: string, args: seq<Arg>)
    requires Canonical(s, w, p) && s.fieldWidthOpt != Star && s.precOpt != Star
    ensures Rendered(Written(s, w, p), 0, args, 0) == Field(Convert(Defaults(s), Fetch(args, 0)))
  {
    var f := Written(s, w, p);
    assert f[0..0 + |f|] == f;
    SpecIsRead(f, 0, s, w, p);
    var field := Field(Convert(Defaults(s), Fetch(args, 0)));
    assert Resolve(s, args, 0) == (Defaults(s), 0);
    assert Rendered(f, 0, args, 0) == field + Rendered(f, |f|, args, if s.conv == Percent then 0 else 1);
  }

  // The text that a precision lets through.
  ghost function Shown(s: Spec, a: Arg): string
    requires s.prec >= 0
  {
    if a.isNull then "" else if s.precOpt != NotGiven && s.prec < |a.text| then a.text[..s.prec] else a.text
  }

  lemma TextRendered(s: Spec, w: string, p: string, a: Arg)
    requires Canonical(s, w, p) && s.conv == Text && s.fieldWidthOpt != Star && s.precOpt != Star
    ensures Rendered(Written(s, w, p), 0, [a], 0)
      == Laid(s.fieldWidth, s.leftJustified, s.leadingZeroPad && !s.leftJustified, "", Shown(s, a))
  {
    OneField(s, w, p, [a]);
    TextField(s, a);
  }

  // What fits of it and a NUL, and nothing behind.
  twostate predicate Holds(buffer: array<char>, bufsz: nat, want: string)
    requires 0 < bufsz <= buffer.Length
    reads buffer
  {
    var m := if |want| < bufsz then |want| else bufsz - 1;
    buffer[..m] == want[..m] && buffer[m] == '\0' && buffer[m + 1..] == old(buffer[m + 1..])
  }

  method PutOut(buffer: array<char>, bufsz: nat, format: string, a: Arg, ghost want: string) returns (n: nat)
    requires bufsz <= buffer.Length && want == Rendered(format, 0, [a], 0)
    modifies buffer
    ensures n == |want| && (bufsz > 0 ==> Holds(buffer, bufsz, want))
  {
    n := Printf.Vsnprintf(buffer, false, bufsz, format, [a]);
  }

  // vsnprintf of a text, under any width, precision and flags.
  method PrintText(buffer: array<char>, bufsz: nat, s: Spec, w: string, p: string, a: Arg) returns (n: nat)
    requires bufsz <= buffer.Length
    requires Canonical(s, w, p) && s.conv == Text && s.fieldWidthOpt != Star && s.precOpt != Star
    modifies buffer
    ensures var want := Laid(s.fieldWidth, s.leftJustified, s.leadingZeroPad && !s.leftJustified, "", Shown(s, a));
      n == |want| && (bufsz > 0 ==> Holds(buffer, bufsz, want))
  {
    TextRendered(s, w, p, a);
    n := PutOut(buffer, bufsz, Written(s, w, p), a,
                Laid(s.fieldWidth, s.leftJustified, s.leadingZeroPad && !s.leftJustified, "", Shown(s, a)));
  }

  // "%s" itself: the text as it is.
  method PrintPlainText(buffer: array<char>, bufsz: nat, a: Arg) returns (n: nat)
    requires bufsz <= buffer.Length
    modifies buffer
    ensures var text := if a.isNull then "" else a.text; n == |text| && (bufsz > 0 ==> Holds(buffer, bufsz, text))
  {
    PlainTextRendered(a);
    n := PutOut(buffer, bufsz, "%s", a, if a.isNull then "" else a.text);
  }

  lemma PlainTextRendered(a: Arg)
    ensures Rendered("%s", 0, [a], 0) == if a.isNull then "" else a.text
  {
    var s := PLAIN.(conv := Text, caseAdjust := 32);
    assert Written(s, "", "") == "%s";
    TextRendered(s, "", "", a);
    assert "" + "" + Shown(s, a) == Shown(s, a);
  }
}
