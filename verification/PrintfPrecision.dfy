/** Where a precision is not what the C standard makes of it: a negative one
    written out, and one given to %c and %%. */
module PrintfPrecision {
  import opened Digits
  import opened Strtoul
  import opened PrintfSpec
  import opened PrintfFormat

  // ----- reading a negative precision -----

  lemma MinusRead(f: string, i: nat, t: string, n: nat, rest: string, q: Spec)
    requires Stands(f, i, ".-" + t + rest) && Denotes(t, n) && rest != "" && !IsDigit(rest[0])
    ensures Precision(f, i, q) == (q.(prec := n, precOpt := NotGiven), i + 2 + |t|)
  {
    StandsSplit(f, i, ".-" + t, rest);
    StandsSplit(f, i, ".-", t);
    StandsSplit(f, i, ".", "-");
    CharStands(f, i, ".");
    CharStands(f, i + 1, "-");
    CharStands(f, i + |".-" + t|, rest);
    DigitsRead(f, i + 2, t, n);
  }

  // The minus in front of the digits only clears the flag that a precision was
  // given: the number stays.
  lemma MinusKeepsNumber(f: string, i: nat, s: Spec, w: string, t: string, n: nat)
    requires Canonical(s, w, "") && s.precOpt == NotGiven && Denotes(t, n)
    requires Stands(f, i, "%" + FlagText(s) + (WidthText(s, w) + (".-" + t + TypeText(s))))
    ensures ParseSpec(f, i) == Found(s.(prec := n), i + 3 + |FlagText(s)| + |WidthText(s, w)| + |t| + |TypeText(s)|)
  {
    var minus, i1 := ".-" + t + TypeText(s), i + 1 + |FlagText(s)|;
    FrontWithMinus(f, i, s, w, minus);
    FlagsThenWidth(f, i, Flagged(s), i1);
    RestWithMinus(f, i1, s, w, t, n, Flagged(s));
  }

  lemma FrontWithMinus(f: string, i: nat, s: Spec, w: string, minus: string)
    requires Canonical(s, w, "") && minus != "" && minus[0] == '.'
    requires Stands(f, i, "%" + FlagText(s) + (WidthText(s, w) + minus))
    ensures Flags(f, i + 1, PLAIN) == (Flagged(s), i + 1 + |FlagText(s)|)
    ensures Stands(f, i + 1 + |FlagText(s)|, WidthText(s, w) + minus)
  {
    var i1 := i + 1 + |FlagText(s)|;
    StandsSplit(f, i, "%" + FlagText(s), WidthText(s, w) + minus);
    StandsSplit(f, i, "%", FlagText(s));
    NoFlagFollows(s, w, minus);
    CharStands(f, i1, WidthText(s, w) + minus);
    FlagsRead(f, i + 1, s);
  }

  function Flagged(s: Spec): Spec
  {
    PLAIN.(leftJustified := s.leftJustified, leadingZeroPad := s.leadingZeroPad, prepend := s.prepend,
           altForm := s.altForm)
  }

  lemma RestWithMinus(f: string, i: nat, s: Spec, w: string, t: string, n: nat, q: Spec)
    requires Canonical(s, w, "") && s.precOpt == NotGiven && Denotes(t, n) && q == Flagged(s)
    requires Stands(f, i, WidthText(s, w) + (".-" + t + TypeText(s)))
    ensures FromWidth(f, i, q) == Found(s.(prec := n), i + |WidthText(s, w)| + 2 + |t| + |TypeText(s)|)
  {
    var j := i + |WidthText(s, w)|;
    StandsSplit(f, i, WidthText(s, w), ".-" + t + TypeText(s));
    WidthBefore(f, i, s, w, "", ".-" + t + TypeText(s), q);
    TypeWithMinus(f, j, s, t, n, q.(fieldWidth := s.fieldWidth, fieldWidthOpt := s.fieldWidthOpt));
  }

  lemma TypeWithMinus(f: string, j: nat, s: Spec, t: string, n: nat, q: Spec)
    requires (s.caseAdjust == 32 || (s.caseAdjust == 0 && s.conv != Percent)) && s.precOpt == NotGiven && Denotes(t, n)
    requires Stands(f, j, ".-" + t + TypeText(s))
    requires s == q.(prec := s.prec, precOpt := NotGiven, modifier := s.modifier, conv := s.conv,
                     caseAdjust := s.caseAdjust)
    ensures FromPrec(f, j, q) == Found(s.(prec := n), j + 2 + |t| + |TypeText(s)|)
  {
    TypeLeads(s);
    MinusRead(f, j, t, n, TypeText(s), q);
    StandsSplit(f, j, ".-" + t, TypeText(s));
    TypeBehind(f, j + 2 + |t|, s, n, q.(prec := n, precOpt := NotGiven));
    PrecisionThenType(f, j, q, q.(prec := n, precOpt := NotGiven), j + 2 + |t|);
  }

  // ParseSpec step by step.
  lemma FlagsThenWidth(f: string, i: nat, q: Spec, j: nat)
    requires Flags(f, i + 1, PLAIN) == (q, j)
    ensures ParseSpec(f, i) == FromWidth(f, j, q)
  {
  }

  lemma PrecisionThenType(f: string, i: nat, q: Spec, r: Spec, j: nat)
    requires Precision(f, i, q) == (r, j)
    ensures FromPrec(f, i, q) == FromType(f, j, r)
  {
  }

  lemma TypeBehind(f: string, j: nat, s: Spec, n: nat, q: Spec)
    requires s.caseAdjust == 32 || (s.caseAdjust == 0 && s.conv != Percent)
    requires Stands(f, j, TypeText(s))
      && s.(prec := n) == q.(modifier := s.modifier, conv := s.conv, caseAdjust := s.caseAdjust)
    ensures FromType(f, j, q) == Found(s.(prec := n), j + |TypeText(s)|)
  {
    ReadFromType(f, j, s.(prec := n), q);
  }

  lemma NoFlagFollows(s: Spec, w: string, minus: string)
    requires Canonical(s, w, "") && minus != "" && minus[0] == '.'
    ensures !FlagChar((WidthText(s, w) + minus)[0])
  {
    if s.fieldWidthOpt == Literal { assert DigitOf(w[0], 10).Is?; }
  }

  // ----- fields with more zeros -----

  // How long the characters of a field can become by zeros without a change.
  function Room(c: Converted): int
  {
    if ZeroPadded(c) then Max(|c.payload|, c.spec.fieldWidth - |Prefix(c)|) else |c.payload|
  }

  // Converted alike but for a precision of n.
  function WithPrec(c: Converted, n: nat): Converted { c.(spec := c.spec.(prec := n, precOpt := NotGiven)) }

  // Numbers and characters without a precision.
  predicate Plain(c: Converted)
  {
    && c.spec.conv != Text && c.spec.conv != Float && c.spec.prec == 0 && c.spec.precOpt == NotGiven
    && c.payload != "" && (c.payload[|c.payload| - 1] != ' ' || |c.payload| == 1)
    && (Prefix(c) == "" || Prefix(c)[|Prefix(c)| - 1] != '0')
  }

  // A precision of n changes nothing exactly when there is room for its zeros.
  lemma ZerosShow(c: Converted, n: nat)
    requires Plain(c)
    ensures Field(WithPrec(c, n)) == Field(c) <==> n <= Room(c)
  {
    var d := WithPrec(c, n);
    var p, w, zeros := Prefix(c), c.spec.fieldWidth, Max(0, n - |c.payload|);
    assert Prefix(d) == p && PrecPad(d) == zeros && PrecPad(c) == 0;
    FieldWidth(c);
    FieldWidth(d);
    if ZeroPadded(c) {
      if |Field(c)| == |Field(d)| { ZeroPaddedSame(c, d); }
    } else if zeros == 0 {
      assert Pad('0', zeros) == "";
    } else {
      assert p + Pad('0', 0) + c.payload == p + c.payload;
      if c.spec.leftJustified {
        LeftDiffers(p, zeros, c.payload, w - |p| - |c.payload|, w - |p| - zeros - |c.payload|);
      } else {
        RightDiffers(p, zeros, c.payload, w - |p| - |c.payload|, w - |p| - zeros - |c.payload|);
      }
    }
  }

  lemma ZeroPaddedSame(c: Converted, d: Converted)
    requires ZeroPadded(c) && ZeroPadded(d) && Prefix(c) == Prefix(d) && c.payload == d.payload
    requires |Field(c)| == |Field(d)|
    ensures Field(c) == Field(d)
  {
  }

  // Zeros in front of the characters show, since something else stood there.
  lemma LeftDiffers(p: string, zeros: nat, payload: string, m: int, n: int)
    requires zeros > 0 && payload != "" && (payload[|payload| - 1] != ' ' || |payload| == 1)
    ensures p + payload + Pad(' ', m) != p + Pad('0', zeros) + payload + Pad(' ', n)
  {
    var u, v := p + payload + Pad(' ', m), p + Pad('0', zeros) + payload + Pad(' ', n);
    var k := |p| + zeros + |payload| - 1;
    if |u| == |v| {
      assert v[k] == payload[|payload| - 1] && u[k] == ' ';
      assert v[|p|] == '0' && u[|p|] == payload[0];
    }
  }

  lemma RightDiffers(p: string, zeros: nat, payload: string, m: int, n: int)
    requires zeros > 0 && payload != "" && (p == "" || p[|p| - 1] != '0')
    ensures Pad(' ', m) + (p + payload) != Pad(' ', n) + (p + Pad('0', zeros) + payload)
  {
    var u, v := Pad(' ', m) + (p + payload), Pad(' ', n) + (p + Pad('0', zeros) + payload);
    if |u| == |v| {
      var k := |u| - |payload| - 1;
      assert v[k] == '0';
      assert u[k] == if p == "" then ' ' else p[|p| - 1];
    }
  }

  // ----- what is printed -----

  predicate Prepends(s: Spec) { s.prepend in {'\0', '+', ' '} && s.caseAdjust <= 32 }

  lemma BackwardsEnds(t: string)
    requires t != ""
    ensures Backwards(t)[|t| - 1] == t[0]
  {
  }

  lemma DigitEnds(val: nat, base: nat, caseAdj: nat)
    requires Base(base) && caseAdj <= 32
    ensures Reversed(val, base, caseAdj)[0] != ' '
  {
  }

  lemma PlainNumber(s: Spec, sign: char, val: nat)
    requires Prepends(s) && s.precOpt == NotGiven && s.prec == 0 && Integer(s.conv) && sign in {'\0', '+', ' ', '-'}
    ensures Plain(NumberText(s, sign, val))
  {
    var base := BaseOf(s.conv);
    var digits := Reversed(val, base, s.caseAdjust);
    DigitEnds(val, base, s.caseAdjust);
    BackwardsEnds(digits);
    BackwardsEnds(digits + ['0']);
  }

  lemma PlainConversion(s: Spec, a: Arg)
    requires Prepends(s) && s.precOpt == NotGiven && s.prec == 0 && s.conv != Text && s.conv != Float
      && s.conv != Pointer
    ensures Plain(Convert(s, a))
  {
    if s.conv == SignedInt {
      var v := NarrowSigned(a.word, s.modifier);
      PlainNumber(s, if v < 0 then '-' else s.prepend, if v < 0 then -v else v);
    } else if Integer(s.conv) {
      PlainNumber(s, '\0', Narrow(a.word, s.modifier));
    }
  }

  lemma ConvertWithPrec(s: Spec, a: Arg, n: nat)
    requires Prepends(s) && s.precOpt == NotGiven && s.conv != Pointer
    ensures Convert(s.(prec := n), a) == WithPrec(Convert(s, a), n)
  {
  }

  // A negative precision ought to count as none. It does exactly for texts,
  // floating-point numbers and pointers, and where there is room for the zeros.
  lemma NegativePrecision(s: Spec, a: Arg, n: nat)
    requires Prepends(s) && s.precOpt == NotGiven && s.prec == 0
    ensures Field(Convert(Defaults(s.(prec := n)), a)) == Field(Convert(Defaults(s), a))
       <==> s.conv in {Text, Float, Pointer} || n <= Room(Convert(s, a))
  {
    if s.conv in {Text, Float, Pointer} {
      PrecisionUnused(s, a, n);
    } else {
      PrecisionUsed(s, a, n);
    }
  }

  lemma PrecisionUnused(s: Spec, a: Arg, n: nat)
    requires Prepends(s) && s.precOpt == NotGiven && s.conv in {Text, Float, Pointer}
    ensures Field(Convert(Defaults(s.(prec := n)), a)) == Field(Convert(Defaults(s), a))
  {
    if s.conv == Text { UnusedInText(Convert(s, a), Convert(s.(prec := n), a)); }
  }

  lemma UnusedInText(c: Converted, d: Converted)
    requires c == d.(spec := d.spec.(prec := c.spec.prec)) && c.spec.conv == Text && c.spec.precOpt == NotGiven
    ensures Field(c) == Field(d)
  {
  }

  lemma PrecisionUsed(s: Spec, a: Arg, n: nat)
    requires Prepends(s) && s.precOpt == NotGiven && s.prec == 0 && s.conv !in {Text, Float, Pointer}
    ensures Defaults(s.(prec := n)) == s.(prec := n) && Defaults(s) == s
    ensures Field(Convert(s.(prec := n), a)) == Field(Convert(s, a)) <==> n <= Room(Convert(s, a))
  {
    ConvertWithPrec(s, a, n);
    PlainConversion(s, a);
    ZerosShow(Convert(s, a), n);
  }

  // Nor ought a precision to matter to a character or a percent sign: it does
  // not exactly when it is at most one or zeros fill the width anyway.
  lemma CharacterPrecision(s: Spec, a: Arg)
    requires Prepends(s) && (s.conv == Character || s.conv == Percent) && s.prec >= 0
    ensures Field(Convert(Defaults(s), a)) == Field(Convert(Defaults(s.(prec := 0, precOpt := NotGiven)), a))
       <==> s.prec <= if s.leadingZeroPad && !s.leftJustified then Max(1, s.fieldWidth) else 1
  {
    var s0 := s.(prec := 0, precOpt := NotGiven);
    PlainConversion(s0, a);
    ZerosShow(Convert(s0, a), s.prec);
    SameField(Convert(s, a), WithPrec(Convert(s0, a), s.prec));
  }

  lemma SameField(c: Converted, d: Converted)
    requires c == d.(spec := d.spec.(precOpt := c.spec.precOpt)) && !c.zero
    ensures Field(c) == Field(d)
  {
  }

  const SEVEN := Arg(7, "", true, RealText(false, true, "0", false))
  const LETTER_A := Arg(65, "", true, RealText(false, true, "0", false))

  lemma MinusFiveIsRead()
    ensures ParseSpec("%.-5d", 0) == Found(PLAIN.(prec := 5, conv := SignedInt, caseAdjust := 32), 5)
  {
    var s := PLAIN.(conv := SignedInt, caseAdjust := 32);
    assert Number("5", 10) == 5 && AllDigits("5", 10);
    assert "%.-5d" == "%" + FlagText(s) + (WidthText(s, "") + (".-" + "5" + TypeText(s)));
    MinusKeepsNumber("%.-5d", 0, s, "", "5", 5);
  }

  lemma MinusFivePads()
    ensures Field(Convert(PLAIN.(prec := 5, conv := SignedInt, caseAdjust := 32), SEVEN)) == "00007"
    ensures Field(Convert(PLAIN.(conv := SignedInt, caseAdjust := 32), SEVEN)) == "7"
  {
    assert Reversed(7, 10, 32) == "7" && Backwards("7") == "7";
    assert Pad('0', 4) == "0000";
  }

  lemma DotThreeIsRead()
    ensures ParseSpec("%.3c", 0) == Found(PLAIN.(prec := 3, precOpt := Literal, conv := Character, caseAdjust := 32), 4)
  {
    assert Lookup('c') == Known(Character);
    assert Decimals("%.3c", 3, 3) == (3, 3);
    assert Decimals("%.3c", 2, 0) == (3, 3);
    assert Precision("%.3c", 1, PLAIN) == (PLAIN.(prec := 3, precOpt := Literal), 3);
    assert Flags("%.3c", 1, PLAIN) == (PLAIN, 1);
    assert Width("%.3c", 1, PLAIN) == (PLAIN, 1);
  }

  lemma DotThreePads()
    ensures Field(Convert(PLAIN.(prec := 3, precOpt := Literal, conv := Character, caseAdjust := 32), LETTER_A))
      == "00A"
  {
    assert Pad('0', 2) == "00";
  }
}
