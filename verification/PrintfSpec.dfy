/** What the formatter prints: format specifications, conversions and fields. */
module PrintfSpec {
  import opened Bits
  import opened Digits
  import opened Strtoul

  datatype Conversion = Percent | Character | Text | SignedInt | Octal | HexInt | UnsignedInt | Pointer | Float

  datatype LengthModifier = NoModifier | Short | Char | Long | LongDouble

  datatype Option = NotGiven | Literal | Star

  // A NUL stands for no character in `prepend`.
  datatype Spec = Spec(leftJustified: bool, leadingZeroPad: bool, prepend: char, altForm: bool,
                       fieldWidth: int, fieldWidthOpt: Option, prec: int, precOpt: Option,
                       modifier: LengthModifier, conv: Conversion, caseAdjust: nat)

  datatype Parse = NoSpec | Found(spec: Spec, end: nat)

  const PLAIN := Spec(false, false, '\0', false, 0, NotGiven, 0, NotGiven, NoModifier, Percent, 0)

  // ----- one format specification -----

  // The flags from i on, and where they end.
  function Flags(format: string, i: nat, s: Spec): (r: (Spec, nat))
    ensures i <= r.1
    decreases |format| - i
  {
    if i >= |format| then (s, i)
    else if format[i] == '-' then Flags(format, i + 1, s.(leftJustified := true))
    else if format[i] == '0' then Flags(format, i + 1, s.(leadingZeroPad := true))
    else if format[i] == '+' then Flags(format, i + 1, s.(prepend := '+'))
    else if format[i] == ' ' then Flags(format, i + 1, if s.prepend == '+' then s else s.(prepend := ' '))
    else if format[i] == '#' then Flags(format, i + 1, s.(altForm := true))
    else (s, i)
  }

  // Decimal digits from i on: the number so far continued, and where they end.
  function Decimals(format: string, i: nat, acc: int): (r: (int, nat))
    ensures i <= r.1
    decreases |format| - i
  {
    if i < |format| && IsDigit(format[i]) then Decimals(format, i + 1, acc * 10 + (format[i] as int - '0' as int))
    else (acc, i)
  }

  function Width(format: string, i: nat, s: Spec): (r: (Spec, nat))
    ensures i <= r.1
  {
    if At(format, i) == '*' then (s.(fieldWidth := 0, fieldWidthOpt := Star), i + 1)
    else
      var (n, j) := Decimals(format, i, 0);
      (s.(fieldWidth := n, fieldWidthOpt := if j > i then Literal else NotGiven), j)
  }

  function Precision(format: string, i: nat, s: Spec): (r: (Spec, nat))
    ensures i <= r.1
  {
    if At(format, i) != '.' then (s.(prec := 0, precOpt := NotGiven), i)
    else if At(format, i + 1) == '*' then (s.(prec := 0, precOpt := Star), i + 2)
    else
      var minus := At(format, i + 1) == '-';
      var (n, j) := Decimals(format, if minus then i + 2 else i + 1, 0);
      (s.(prec := n, precOpt := if minus then NotGiven else Literal), j)
  }

  function Modifier(format: string, i: nat): (r: (LengthModifier, nat))
    ensures i <= r.1
  {
    match At(format, i)
    case 'h' => if At(format, i + 1) == 'h' then (Char, i + 2) else (Short, i + 1)
    case 'l' => (Long, i + 1)
    case 'L' => (LongDouble, i + 1)
    case _ => (NoModifier, i)
  }

  datatype Conversions = Unknown | Known(c: Conversion)

  function Lookup(c: char): Conversions
  {
    match c
    case '%' => Known(Percent)
    case 'c' => Known(Character) case 'C' => Known(Character)
    case 'd' => Known(SignedInt) case 'D' => Known(SignedInt)
    case 'i' => Known(SignedInt) case 'I' => Known(SignedInt)
    case 'e' => Known(Float) case 'E' => Known(Float)
    case 'f' => Known(Float) case 'F' => Known(Float)
    case 'g' => Known(Float) case 'G' => Known(Float)
    case 'o' => Known(Octal) case 'O' => Known(Octal)
    case 'p' => Known(Pointer) case 'P' => Known(Pointer)
    case 's' => Known(Text) case 'S' => Known(Text)
    case 'u' => Known(UnsignedInt) case 'U' => Known(UnsignedInt)
    case 'x' => Known(HexInt) case 'X' => Known(HexInt)
    case _ => Unknown
  }

  // From the '%' at i.
  function ParseSpec(format: string, i: nat): (p: Parse)
    ensures p.Found? ==> i < p.end <= |format| && p.spec.caseAdjust <= 32
  {
    var (s1, i1) := Flags(format, i + 1, PLAIN);
    var (s2, i2) := Width(format, i1, s1);
    var (s3, i3) := Precision(format, i2, s2);
    var (m, i4) := Modifier(format, i3);
    var c := At(format, i4);
    match Lookup(c)
    case Unknown => NoSpec
    case Known(conv) => Found(s3.(modifier := m, conv := conv, caseAdjust := if 'A' <= c <= 'Z' then 0 else 32), i4 + 1)
  }

  // ----- the arguments -----

  // The text of a floating-point number as its conversion leaves it, last
  // character first; isText when it is no number.
  datatype RealText = RealText(negative: bool, zero: bool, reversed: string, isText: bool)

  // One argument, as whatever type it is fetched.
  datatype Arg = Arg(word: u32, text: string, isNull: bool, float: RealText)

  const NO_ARG := Arg(0, "", true, RealText(false, true, "0", false))

  function Fetch(args: seq<Arg>, k: nat): Arg
  {
    if k < |args| then args[k] else NO_ARG
  }

  function Signed(x: u32): int { if x < 0x8000_0000 then x else x - WORD }

  // '*' arguments and the defaults that depend on them.
  function StarWidth(s: Spec, a: Arg): Spec
  {
    var w := Signed(a.word);
    if w < 0 then s.(fieldWidth := -w, leftJustified := true) else s.(fieldWidth := w)
  }

  function StarPrec(s: Spec, a: Arg): Spec
  {
    var p := Signed(a.word);
    if p < 0 then s.(prec := 0, precOpt := NotGiven) else s.(prec := p)
  }

  predicate Integer(c: Conversion) { c.SignedInt? || c.Octal? || c.HexInt? || c.UnsignedInt? }

  function Defaults(s: Spec): Spec
  {
    var t := if s.precOpt == NotGiven && s.conv == Pointer then s.(prec := 8)
             else if s.precOpt == NotGiven && s.conv == Float then s.(prec := 6)
             else s;
    if t.precOpt != NotGiven && Integer(t.conv) then t.(leadingZeroPad := false) else t
  }

  // The specification with its '*' arguments, and how many there are.
  function Resolve(s: Spec, args: seq<Arg>, k: nat): (r: (Spec, nat))
    ensures r.0.caseAdjust == s.caseAdjust && r.0.conv == s.conv && k <= r.1
  {
    var (s1, k1) := if s.fieldWidthOpt == Star then (StarWidth(s, Fetch(args, k)), k + 1) else (s, k);
    var (s2, k2) := if s1.precOpt == Star then (StarPrec(s1, Fetch(args, k1)), k1 + 1) else (s1, k1);
    (Defaults(s2), k2)
  }

  // ----- one conversion -----

  // A converted argument: the specification as it ends up, the sign and the
  // x of 0x (NUL for none), the characters, and whether the value is zero.
  datatype Converted = Converted(spec: Spec, sign: char, need0x: char, payload: string, zero: bool)

  function Narrow(v: u32, m: LengthModifier): u32
  {
    match m
    case Short => v % 0x1_0000
    case Char => v % 0x100
    case _ => v
  }

  function NarrowSigned(v: u32, m: LengthModifier): int
  {
    match m
    case Short => var x := v % 0x1_0000; if x < 0x8000 then x else x - 0x1_0000
    case Char => var x := v % 0x100; if x < 0x80 then x else x - 0x100
    case _ => Signed(v)
  }

  function BaseOf(c: Conversion): (b: nat)
    ensures Base(b)
  {
    if c == Octal then 8 else if c == HexInt || c == Pointer then 16 else 10
  }

  function Blank(s: Spec, val: nat): bool
  {
    val == 0 && s.precOpt != NotGiven && s.prec == 0
  }

  function NumberText(s: Spec, sign: char, val: nat): Converted
    requires s.caseAdjust <= 32
  {
    var base := BaseOf(s.conv);
    if Blank(s, val) then
      Converted(if base == 8 && s.altForm then s.(prec := 1) else s, sign, '\0', "", true)
    else
      var digits := Reversed(val, base, s.caseAdjust);
      var alt := val != 0 && s.altForm;
      Converted(s, sign, if alt && base == 16 then ('X' as int + s.caseAdjust) as char else '\0',
                Backwards(if alt && base == 8 then digits + ['0'] else digits), val == 0)
  }

  function Convert(s: Spec, a: Arg): Converted
    requires s.caseAdjust <= 32
  {
    match s.conv
    case Percent => Converted(s, '\0', '\0', "%", false)
    case Character => Converted(s, '\0', '\0', [(a.word % 0x100) as char], false)
    case Text =>
      var t := if a.isNull then "" else a.text;
      var shown := if s.precOpt == NotGiven || |t| <= s.prec then t else if s.prec < 0 then "" else t[..s.prec];
      Converted(s, '\0', '\0', shown, false)
    case SignedInt =>
      var v := NarrowSigned(a.word, s.modifier);
      NumberText(s, if v < 0 then '-' else s.prepend, if v < 0 then -v else v)
    case Pointer => NumberText(s, '\0', a.word)
    case Float =>
      Converted(if a.float.isText then s.(leadingZeroPad := false) else s,
                if a.float.negative then '-' else s.prepend, '\0',
                Backwards(a.float.reversed), a.float.zero)
    case _ => NumberText(s, '\0', Narrow(a.word, s.modifier))
  }

  // ----- the field -----

  function Max(a: int, b: int): int { if a >= b then a else b }

  function Pad(c: char, n: int): (r: string)
    ensures |r| == Max(0, n)
  {
    seq(Max(0, n), _ => c)
  }

  function One(c: char): string { if c == '\0' then "" else [c] }

  function Prefix(c: Converted): string
  {
    One(c.sign) + if c.need0x == '\0' then "" else ['0', c.need0x]
  }

  function PrecPad(c: Converted): nat
  {
    if c.spec.conv == Text || c.spec.conv == Float then 0 else Max(0, c.spec.prec - |c.payload|)
  }

  predicate ZeroPadded(c: Converted)
  {
    c.spec.leadingZeroPad && !c.spec.leftJustified && !(c.spec.precOpt != NotGiven && c.spec.prec == 0 && c.zero)
  }

  // Spaces, sign and 0x, zeros and the characters; left-justified, the spaces
  // come last; zero-padded, they are zeros behind the sign.
  function Field(c: Converted): string
  {
    var core := Prefix(c) + Pad('0', PrecPad(c)) + c.payload;
    var pad := c.spec.fieldWidth - |core|;
    if ZeroPadded(c) then Prefix(c) + Pad('0', PrecPad(c) + Max(0, pad)) + c.payload
    else if c.spec.leftJustified then core + Pad(' ', pad)
    else Pad(' ', pad) + core
  }

  // A field is as wide as asked for, or as its characters need.
  lemma FieldWidth(c: Converted)
    ensures |Field(c)| == Max(c.spec.fieldWidth, |Prefix(c)| + PrecPad(c) + |c.payload|)
  {
  }

  // ----- the whole output -----

  function Rendered(format: string, i: nat, args: seq<Arg>, k: nat): string
    decreases |format| - i
  {
    if i >= |format| then ""
    else
      var p := if format[i] == '%' then ParseSpec(format, i) else NoSpec;
      match p
      case NoSpec => [format[i]] + Rendered(format, i + 1, args, k)
      case Found(s, end) =>
        var (t, k1) := Resolve(s, args, k);
        Field(Convert(t, Fetch(args, k1))) + Rendered(format, end, args, if t.conv == Percent then k1 else k1 + 1)
  }
}
