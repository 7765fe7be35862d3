/** Format strings as they are written: a specification is read as it was meant,
    and a format prints piece by piece. */
module PrintfFormat {
  import opened Digits
  import opened Strtoul
  import opened PrintfSpec
  import opened PrintfStrtoul
  import Printf

  function FlagText(s: Spec): string
  {
    (if s.leftJustified then "-" else "") + (if s.leadingZeroPad then "0" else "") + One(s.prepend)
    + if s.altForm then "#" else ""
  }

  // w and p are the digits of width and precision.
  function WidthText(s: Spec, w: string): string
  {
    match s.fieldWidthOpt
    case NotGiven => ""
    case Literal => w
    case Star => "*"
  }

  function PrecText(s: Spec, p: string): string
  {
    match s.precOpt
    case NotGiven => ""
    case Literal => "." + p
    case Star => ".*"
  }

  function ModifierText(m: LengthModifier): string
  {
    match m
    case NoModifier => ""
    case Short => "h"
    case Char => "hh"
    case Long => "l"
    case LongDouble => "L"
  }

  function Letter(s: Spec): char
  {
    var upper := s.caseAdjust == 0;
    match s.conv
    case Percent => '%'
    case Character => if upper then 'C' else 'c'
    case Text => if upper then 'S' else 's'
    case SignedInt => if upper then 'D' else 'd'
    case Octal => if upper then 'O' else 'o'
    case HexInt => if upper then 'X' else 'x'
    case UnsignedInt => if upper then 'U' else 'u'
    case Pointer => if upper then 'P' else 'p'
    case Float => if upper then 'F' else 'f'
  }

  function TypeText(s: Spec): string { ModifierText(s.modifier) + [Letter(s)] }

  function PrecPart(s: Spec, p: string): string
  {
    PrecText(s, p) + TypeText(s)
  }

  function WidthPart(s: Spec, w: string, p: string): string
  {
    WidthText(s, w) + PrecPart(s, p)
  }

  // What can be asked for. The digits of a width do not begin with a zero, since
  // a zero there is a flag; those of a precision may be missing.
  predicate Canonical(s: Spec, w: string, p: string)
  {
    && s.prepend in {'\0', '+', ' '} && (s.caseAdjust == 32 || (s.caseAdjust == 0 && s.conv != Percent))
    && (if s.fieldWidthOpt == Literal then w != "" && w[0] != '0' && Denotes(w, s.fieldWidth) else s.fieldWidth == 0)
    && (if s.precOpt == Literal then Denotes(p, s.prec) else s.prec == 0)
  }

  predicate Denotes(t: string, n: int)
  {
    AllDigits(t, 10) && Number(t, 10) == n
  }

  function Written(s: Spec, w: string, p: string): (t: string)
    ensures t != "" && t[0] == '%'
  {
    "%" + FlagText(s) + WidthPart(s, w, p)
  }

  // ----- numbers -----

  lemma {:induction false} DecimalsAreValue(f: string, i: nat, acc: nat)
    ensures Decimals(f, i, acc) == (Value(f, i, 10, acc), Run(f, i, 10))
    decreases |f| - i
  {
    if i < |f| {
      assert DigitOf(f[i], 10).Is? <==> IsDigit(f[i]);
      if IsDigit(f[i]) { DecimalsAreValue(f, i + 1, acc * 10 + DigitOf(f[i], 10).value); }
    }
  }

  // A text at a place.
  predicate Stands(f: string, i: nat, t: string)
  {
    i + |t| <= |f| && f[i..i + |t|] == t
  }

  lemma StandsSplit(f: string, i: nat, a: string, b: string)
    requires Stands(f, i, a + b)
    ensures Stands(f, i, a) && Stands(f, i + |a|, b)
  {
    var t := f[i..i + |a + b|];
    assert t[..|a|] == a && t[|a|..] == b;
    assert f[i..i + |a|] == t[..|a|] && f[i + |a|..i + |a| + |b|] == t[|a|..];
  }

  lemma CharStands(f: string, i: nat, t: string)
    requires Stands(f, i, t) && t != ""
    ensures i < |f| && f[i] == t[0] == At(f, i)
  {
    assert f[i] == f[i..i + |t|][0];
  }

  lemma DigitsRead(f: string, i: nat, t: string, n: nat)
    requires Stands(f, i, t) && !IsDigit(At(f, i + |t|)) && Denotes(t, n)
    ensures Decimals(f, i, 0) == (n, i + |t|)
  {
    var front, tail := f[..i], f[i + |t|..];
    assert f == front + t + tail && t[..0] == "";
    if tail != "" { assert tail[0] == At(f, i + |t|) && (DigitOf(tail[0], 10).Is? <==> IsDigit(tail[0])); }
    DigitsInside(front, t, tail, 0, 10);
    DecimalsAreValue(f, i, 0);
  }

  // ----- the parts of a specification -----

  predicate FlagChar(c: char) { c in {'-', '0', '+', ' ', '#'} }

  // What the parts begin with.
  lemma TypeLeads(s: Spec)
    ensures var c := TypeText(s)[0]; !FlagChar(c) && !IsDigit(c) && c != '*' && c != '.' && c != '-'
    ensures Letter(s) !in {'h', 'l', 'L'}
  {
  }

  lemma PrecLeads(s: Spec, p: string)
    ensures PrecPart(s, p) != "" && var c := PrecPart(s, p)[0]; !FlagChar(c) && !IsDigit(c) && c != '*'
  {
    TypeLeads(s);
  }

  lemma WidthLeads(s: Spec, w: string, p: string)
    requires Canonical(s, w, p)
    ensures WidthPart(s, w, p) != "" && !FlagChar(WidthPart(s, w, p)[0])
  {
    PrecLeads(s, p);
    if s.fieldWidthOpt == Literal { assert DigitOf(w[0], 10).Is?; }
  }

  lemma FlagsRead(f: string, i: nat, s: Spec)
    requires s.prepend in {'\0', '+', ' '} && Stands(f, i, FlagText(s)) && i + |FlagText(s)| < |f|
      && !FlagChar(f[i + |FlagText(s)|])
    ensures Flags(f, i, PLAIN)
         == (PLAIN.(leftJustified := s.leftJustified, leadingZeroPad := s.leadingZeroPad, prepend := s.prepend,
                    altForm := s.altForm), i + |FlagText(s)|)
  {
    var a, b, c := if s.leftJustified then "-" else "", if s.leadingZeroPad then "0" else "", One(s.prepend);
    var d := if s.altForm then "#" else "";
    FourStand(f, i, a, b, c, d);
    FourFlags(f, i, a, b, c, d, PLAIN);
  }

  lemma FourStand(f: string, i: nat, a: string, b: string, c: string, d: string)
    requires Stands(f, i, a + b + c + d)
    ensures Stands(f, i, a) && Stands(f, i + |a|, b) && Stands(f, i + |a| + |b|, c)
    ensures Stands(f, i + |a| + |b| + |c|, d)
  {
    StandsSplit(f, i, a + b + c, d);
    StandsSplit(f, i, a + b, c);
    StandsSplit(f, i, a, b);
  }

  // The flags as they follow each other, each there or not.
  lemma FourFlags(f: string, i: nat, a: string, b: string, c: string, d: string, p: Spec)
    requires a in {"", "-"} && b in {"", "0"} && c in {"", "+", " "} && d in {"", "#"} && p.prepend == '\0'
    requires Stands(f, i, a) && Stands(f, i + |a|, b) && Stands(f, i + |a| + |b|, c)
      && Stands(f, i + |a| + |b| + |c|, d)
    requires var j := i + |a| + |b| + |c| + |d|; j < |f| && !FlagChar(f[j])
    ensures Flags(f, i, p)
         == (p.(leftJustified := p.leftJustified || a != "", leadingZeroPad := p.leadingZeroPad || b != "",
                prepend := if c == "" then '\0' else c[0], altForm := p.altForm || d != ""),
             i + |a| + |b| + |c| + |d|)
  {
    if a != "" { CharStands(f, i, a); }
    ThreeFlags(f, i + |a|, b, c, d, p.(leftJustified := p.leftJustified || a != ""));
  }

  lemma ThreeFlags(f: string, i: nat, b: string, c: string, d: string, p: Spec)
    requires b in {"", "0"} && c in {"", "+", " "} && d in {"", "#"} && p.prepend == '\0'
    requires Stands(f, i, b) && Stands(f, i + |b|, c) && Stands(f, i + |b| + |c|, d)
    requires var j := i + |b| + |c| + |d|; j < |f| && !FlagChar(f[j])
    ensures Flags(f, i, p)
         == (p.(leadingZeroPad := p.leadingZeroPad || b != "", prepend := if c == "" then '\0' else c[0],
                altForm := p.altForm || d != ""), i + |b| + |c| + |d|)
  {
    if b != "" { CharStands(f, i, b); }
    TwoFlags(f, i + |b|, c, d, p.(leadingZeroPad := p.leadingZeroPad || b != ""));
  }

  lemma TwoFlags(f: string, i: nat, c: string, d: string, p: Spec)
    requires c in {"", "+", " "} && d in {"", "#"} && p.prepend == '\0' && Stands(f, i, c) && Stands(f, i + |c|, d)
    requires var j := i + |c| + |d|; j < |f| && !FlagChar(f[j])
    ensures Flags(f, i, p)
      == (p.(prepend := if c == "" then '\0' else c[0], altForm := p.altForm || d != ""), i + |c| + |d|)
  {
    if c != "" { CharStands(f, i, c); }
    OneFlag(f, i + |c|, d, p.(prepend := if c == "" then '\0' else c[0]));
  }

  lemma OneFlag(f: string, i: nat, d: string, p: Spec)
    requires d in {"", "#"} && Stands(f, i, d) && i + |d| < |f| && !FlagChar(f[i + |d|])
    ensures Flags(f, i, p) == (p.(altForm := p.altForm || d != ""), i + |d|)
  {
    if d != "" { CharStands(f, i, d); }
    FlagsEnd(f, i + |d|, p.(altForm := p.altForm || d != ""));
  }

  lemma FlagsEnd(f: string, i: nat, p: Spec)
    requires i < |f| && !FlagChar(f[i])
    ensures Flags(f, i, p) == (p, i)
  {
  }

  lemma WidthRead(f: string, i: nat, s: Spec, w: string, p: string, q: Spec)
    requires Canonical(s, w, p) && Stands(f, i, WidthPart(s, w, p))
    ensures Width(f, i, q) == (q.(fieldWidth := s.fieldWidth, fieldWidthOpt := s.fieldWidthOpt), i + |WidthText(s, w)|)
  {
    PrecLeads(s, p);
    WidthBefore(f, i, s, w, p, PrecPart(s, p), q);
  }

  // A width and what stands behind it.
  lemma WidthBefore(f: string, i: nat, s: Spec, w: string, p: string, rest: string, q: Spec)
    requires Canonical(s, w, p) && Stands(f, i, WidthText(s, w) + rest)
    requires rest != "" && !IsDigit(rest[0]) && rest[0] != '*'
    ensures Width(f, i, q) == (q.(fieldWidth := s.fieldWidth, fieldWidthOpt := s.fieldWidthOpt), i + |WidthText(s, w)|)
  {
    StandsSplit(f, i, WidthText(s, w), rest);
    CharStands(f, i + |WidthText(s, w)|, rest);
    if s.fieldWidthOpt == Literal {
      assert DigitOf(w[0], 10).Is?;
      CharStands(f, i, w);
      DigitsRead(f, i, w, s.fieldWidth);
    } else if s.fieldWidthOpt == Star {
      CharStands(f, i, "*");
    }
  }

  lemma PrecRead(f: string, i: nat, s: Spec, w: string, p: string, q: Spec)
    requires Canonical(s, w, p) && Stands(f, i, PrecPart(s, p))
    ensures Precision(f, i, q) == (q.(prec := s.prec, precOpt := s.precOpt), i + |PrecText(s, p)|)
  {
    StandsSplit(f, i, PrecText(s, p), TypeText(s));
    TypeLeads(s);
    CharStands(f, i + |PrecText(s, p)|, TypeText(s));
    if s.precOpt == Literal {
      StandsSplit(f, i, ".", p);
      CharStands(f, i, ".");
      if p != "" {
        assert DigitOf(p[0], 10).Is?;
        CharStands(f, i + 1, p);
      }
      DigitsRead(f, i + 1, p, s.prec);
    } else if s.precOpt == Star {
      StandsSplit(f, i, ".", "*");
      CharStands(f, i, ".");
      CharStands(f, i + 1, "*");
    }
  }

  lemma TypeRead(f: string, i: nat, s: Spec)
    requires Stands(f, i, TypeText(s))
    ensures Modifier(f, i) == (s.modifier, i + |ModifierText(s.modifier)|)
    ensures var j := i + |ModifierText(s.modifier)|; j < |f| && At(f, j) == Letter(s)
    ensures i + |TypeText(s)| == i + |ModifierText(s.modifier)| + 1
  {
    var m := ModifierText(s.modifier);
    StandsSplit(f, i, m, [Letter(s)]);
    TypeLeads(s);
    CharStands(f, i + |m|, [Letter(s)]);
    if m != "" { CharStands(f, i, m); }
    if |m| == 2 {
      StandsSplit(f, i, "h", "h");
      CharStands(f, i + 1, "h");
    }
  }

  // Where the parts of a specification stand.
  lemma PartsStand(f: string, i: nat, s: Spec, w: string, p: string) returns (i1: nat, i2: nat, i3: nat)
    requires Canonical(s, w, p) && Stands(f, i, Written(s, w, p))
    ensures i1 == i + 1 + |FlagText(s)| && i2 == i1 + |WidthText(s, w)| && i3 == i2 + |PrecText(s, p)|
    ensures i3 + |TypeText(s)| == i + |Written(s, w, p)|
    ensures Stands(f, i + 1, FlagText(s)) && Stands(f, i1, WidthPart(s, w, p)) && Stands(f, i2, PrecPart(s, p))
      && Stands(f, i3, TypeText(s))
  {
    i1 := i + 1 + |FlagText(s)|;
    i2 := i1 + |WidthText(s, w)|;
    i3 := i2 + |PrecText(s, p)|;
    StandsSplit(f, i, "%" + FlagText(s), WidthPart(s, w, p));
    StandsSplit(f, i, "%", FlagText(s));
    StandsSplit(f, i1, WidthText(s, w), PrecPart(s, p));
    StandsSplit(f, i2, PrecText(s, p), TypeText(s));
  }

  // A specification is read back as it was written, wherever it stands.
  lemma SpecIsRead(f: string, i: nat, s: Spec, w: string, p: string)
    requires Canonical(s, w, p) && Stands(f, i, Written(s, w, p))
    ensures ParseSpec(f, i) == Found(s, i + |Written(s, w, p)|)
  {
    var i1, i2, i3 := PartsStand(f, i, s, w, p);
    WidthLeads(s, w, p);
    CharStands(f, i1, WidthPart(s, w, p));
    FlagsRead(f, i + 1, s);
    var q := PLAIN.(leftJustified := s.leftJustified, leadingZeroPad := s.leadingZeroPad, prepend := s.prepend,
                    altForm := s.altForm);
    ReadFromWidth(f, i1, i2, i3, s, w, p, q);
  }

  // ParseSpec from its later parts on.
  function FromType(f: string, i: nat, p: Spec): Parse
  {
    var (m, j) := Modifier(f, i);
    match Lookup(At(f, j))
    case Unknown => NoSpec
    case Known(conv) =>
      Found(p.(modifier := m, conv := conv, caseAdjust := if 'A' <= At(f, j) <= 'Z' then 0 else 32), j + 1)
  }

  function FromPrec(f: string, i: nat, p: Spec): Parse
  {
    var (q, j) := Precision(f, i, p);
    FromType(f, j, q)
  }

  function FromWidth(f: string, i: nat, p: Spec): Parse
  {
    var (q, j) := Width(f, i, p);
    FromPrec(f, j, q)
  }

  lemma ReadFromWidth(f: string, i1: nat, i2: nat, i3: nat, s: Spec, w: string, p: string, q: Spec)
    requires Canonical(s, w, p) && i2 == i1 + |WidthText(s, w)| && i3 == i2 + |PrecText(s, p)|
    requires Stands(f, i1, WidthPart(s, w, p)) && Stands(f, i2, PrecPart(s, p)) && Stands(f, i3, TypeText(s))
    requires q == PLAIN.(leftJustified := s.leftJustified, leadingZeroPad := s.leadingZeroPad, prepend := s.prepend,
                         altForm := s.altForm)
    ensures FromWidth(f, i1, q) == Found(s, i3 + |TypeText(s)|)
  {
    WidthRead(f, i1, s, w, p, q);
    ReadFromPrec(f, i2, i3, s, w, p, q.(fieldWidth := s.fieldWidth, fieldWidthOpt := s.fieldWidthOpt));
  }

  lemma ReadFromPrec(f: string, i2: nat, i3: nat, s: Spec, w: string, p: string, q: Spec)
    requires Canonical(s, w, p) && i3 == i2 + |PrecText(s, p)| && Stands(f, i2, PrecPart(s, p))
      && Stands(f, i3, TypeText(s))
    requires s == q.(prec := s.prec, precOpt := s.precOpt, modifier := s.modifier, conv := s.conv,
                     caseAdjust := s.caseAdjust)
    ensures FromPrec(f, i2, q) == Found(s, i3 + |TypeText(s)|)
  {
    PrecRead(f, i2, s, w, p, q);
    ReadFromType(f, i3, s, q.(prec := s.prec, precOpt := s.precOpt));
  }

  lemma ReadFromType(f: string, i3: nat, s: Spec, p: Spec)
    requires s.caseAdjust == 32 || (s.caseAdjust == 0 && s.conv != Percent)
    requires Stands(f, i3, TypeText(s))
    requires s == p.(modifier := s.modifier, conv := s.conv, caseAdjust := s.caseAdjust)
    ensures FromType(f, i3, p) == Found(s, i3 + |TypeText(s)|)
  {
    TypeRead(f, i3, s);
    LetterRead(s);
  }

  lemma LetterRead(s: Spec)
    requires s.caseAdjust == 32 || (s.caseAdjust == 0 && s.conv != Percent)
    ensures Lookup(Letter(s)) == Known(s.conv) && s.caseAdjust == if 'A' <= Letter(s) <= 'Z' then 0 else 32
  {
  }

  // ----- a whole format -----

  // A plain character, or a specification with the digits of its numbers.
  datatype Piece = Verbatim(c: char) | Insert(s: Spec, w: string, p: string)
  {
    predicate Proper() { if Verbatim? then c != '%' else Canonical(s, w, p) }

    function Format(): (t: string)
    {
      if Verbatim? then [c] else Written(s, w, p)
    }
  }

  function Joined<P>(format: P -> string, pieces: seq<P>): string
  {
    if pieces == [] then "" else format(pieces[0]) + Joined(format, pieces[1..])
  }

  // What comes out of the pieces, each taking its arguments in turn.
  function Outcome<P>(step: (P, nat) -> (string, nat), pieces: seq<P>, k: nat): string
  {
    if pieces == [] then "" else step(pieces[0], k).0 + Outcome(step, pieces[1..], step(pieces[0], k).1)
  }

  // Where a piece stands in f, the output from there on is that of the piece
  // and that from behind it on.
  ghost predicate Follows<P(!new)>(r: (nat, nat) -> string, step: (P, nat) -> (string, nat), format: P -> string,
                                   good: P -> bool, f: string)
  {
    forall i: nat, p: P, k: nat {:trigger Stands(f, i, format(p)), r(i, k)} ::
      good(p) && Stands(f, i, format(p)) ==> r(i, k) == step(p, k).0 + r(i + |format(p)|, step(p, k).1)
  }

  lemma {:induction false} FollowsToTheEnd<P(!new)>(r: (nat, nat) -> string, step: (P, nat) -> (string, nat),
      format: P -> string, good: P -> bool, f: string, i: nat, pieces: seq<P>, k: nat)
    requires Follows(r, step, format, good, f) && (forall n: nat :: r(|f|, n) == "")
    requires forall j :: 0 <= j < |pieces| ==> good(pieces[j])
    requires Stands(f, i, Joined(format, pieces)) && i + |Joined(format, pieces)| == |f|
    ensures r(i, k) == Outcome(step, pieces, k)
    decreases |pieces|
  {
    if pieces != [] {
      var p, rest := pieces[0], pieces[1..];
      StandsSplit(f, i, format(p), Joined(format, rest));
      FollowsToTheEnd(r, step, format, good, f, i + |format(p)|, rest, step(p, k).1);
    }
  }

  // What a piece prints, and the next argument behind those it takes.
  function Printed(p: Piece, args: seq<Arg>, k: nat): (string, nat)
    requires p.Insert? ==> p.s.caseAdjust <= 32
  {
    if p.Verbatim? then ([p.c], k)
    else
      var (t, k1) := Resolve(p.s, args, k);
      (Field(Convert(t, Fetch(args, k1))), if t.conv == Percent then k1 else k1 + 1)
  }

  // r, step and parse are these functions.
  ghost predicate Parses(parse: nat -> Parse, f: string)
  {
    forall i: nat {:trigger ParseSpec(f, i)} :: parse(i) == ParseSpec(f, i)
  }

  ghost predicate Renders(r: (nat, nat) -> string, f: string, args: seq<Arg>)
  {
    forall i: nat, k: nat {:trigger Rendered(f, i, args, k)} :: r(i, k) == Rendered(f, i, args, k)
  }

  ghost predicate Prints(step: (Piece, nat) -> (string, nat), args: seq<Arg>)
  {
    forall p: Piece, k: nat {:trigger Printed(p, args, k)} :: p.Proper() ==> step(p, k) == Printed(p, args, k)
  }

  lemma PiecePrinted(r: (nat, nat) -> string, step: (Piece, nat) -> (string, nat), parse: nat -> Parse, f: string,
                     i: nat, p: Piece, args: seq<Arg>, k: nat)
    requires Renders(r, f, args) && Prints(step, args) && Parses(parse, f) && p.Proper() && Stands(f, i, p.Format())
    ensures r(i, k) == step(p, k).0 + r(i + |p.Format()|, step(p, k).1)
  {
    CharStands(f, i, p.Format());
    if p.Verbatim? {
      VerbatimPrinted(r, step, f, i, p, args, k);
    } else {
      InsertParsed(parse, f, i, p.s, p.w, p.p);
      FoundPrinted(r, step, parse, f, i, p, i + |p.Format()|, args, k);
    }
  }

  lemma VerbatimPrinted(r: (nat, nat) -> string, step: (Piece, nat) -> (string, nat), f: string, i: nat, p: Piece,
                        args: seq<Arg>, k: nat)
    requires Renders(r, f, args) && Prints(step, args) && p.Verbatim? && p.c != '%' && i < |f| && f[i] == p.c
    ensures r(i, k) == step(p, k).0 + r(i + 1, step(p, k).1)
  {
    Printf.RenderedStep(f, i, args, k, NoSpec);
    assert Printed(p, args, k) == ([p.c], k) && p.Proper();
  }

  lemma InsertParsed(parse: nat -> Parse, f: string, i: nat, s: Spec, w: string, p: string)
    requires Parses(parse, f) && Canonical(s, w, p) && Stands(f, i, Written(s, w, p))
    ensures parse(i) == Found(s, i + |Written(s, w, p)|)
  {
    SpecIsRead(f, i, s, w, p);
  }

  lemma FoundPrinted(r: (nat, nat) -> string, step: (Piece, nat) -> (string, nat), parse: nat -> Parse, f: string,
                     i: nat, p: Piece, end: nat, args: seq<Arg>, k: nat)
    requires Renders(r, f, args) && Prints(step, args) && Parses(parse, f) && p.Insert? && p.Proper()
    requires i < |f| && f[i] == '%' && parse(i) == Found(p.s, end)
    ensures r(i, k) == step(p, k).0 + r(end, step(p, k).1)
  {
    var out := Printf.FromSpec(p.s, f, end, args, k);
    FoundRendered(r, parse, f, i, p.s, end, args, k, out);
    SpecPrinted(r, step, f, p, end, args, k, out);
  }

  lemma FoundRendered(r: (nat, nat) -> string, parse: nat -> Parse, f: string, i: nat, s: Spec, end: nat,
                      args: seq<Arg>, k: nat, out: string)
    requires Renders(r, f, args) && Parses(parse, f) && i < |f| && f[i] == '%' && parse(i) == Found(s, end)
    requires s.caseAdjust <= 32 && out == Printf.FromSpec(s, f, end, args, k)
    ensures r(i, k) == out
  {
    assert ParseSpec(f, i) == Found(s, end);
    Printf.RenderedStep(f, i, args, k, Found(s, end));
  }

  lemma SpecPrinted(r: (nat, nat) -> string, step: (Piece, nat) -> (string, nat), f: string, p: Piece, end: nat,
                    args: seq<Arg>, k: nat, out: string)
    requires Renders(r, f, args) && Prints(step, args) && p.Insert? && p.Proper()
      && out == Printf.FromSpec(p.s, f, end, args, k)
    ensures out == step(p, k).0 + r(end, step(p, k).1)
  {
    PrintedFrom(p, f, end, args, k);
  }

  lemma PrintedFrom(p: Piece, f: string, end: nat, args: seq<Arg>, k: nat)
    requires p.Insert? && p.s.caseAdjust <= 32
    ensures Printf.FromSpec(p.s, f, end, args, k)
         == Printed(p, args, k).0 + Rendered(f, end, args, Printed(p, args, k).1)
  {
  }

  lemma AllFollow(r: (nat, nat) -> string, step: (Piece, nat) -> (string, nat), parse: nat -> Parse,
                  format: Piece -> string, good: Piece -> bool,
                  f: string, args: seq<Arg>)
    requires Renders(r, f, args) && Prints(step, args) && Parses(parse, f)
    requires forall p: Piece {:trigger format(p)} :: format(p) == p.Format()
    requires forall p: Piece {:trigger good(p)} :: good(p) == p.Proper()
    ensures Follows(r, step, format, good, f)
  {
    forall i: nat, p: Piece, k: nat {:trigger Stands(f, i, format(p)), r(i, k)} | good(p) && Stands(f, i, format(p))
      ensures r(i, k) == step(p, k).0 + r(i + |format(p)|, step(p, k).1)
    {
      PiecePrinted(r, step, parse, f, i, p, args, k);
    }
  }

  function Formats(): Piece -> string { (p: Piece) => p.Format() }

  function Printer(args: seq<Arg>): (Piece, nat) -> (string, nat)
  {
    (p: Piece, k: nat) => if p.Insert? && p.s.caseAdjust > 32 then ("", k) else Printed(p, args, k)
  }

  // A format prints what its pieces print, each conversion taking its
  // arguments in turn.
  lemma FormatPrintsPieces(pieces: seq<Piece>, args: seq<Arg>, f: string)
    requires (forall i :: 0 <= i < |pieces| ==> pieces[i].Proper()) && f == Joined(Formats(), pieces)
    ensures Rendered(f, 0, args, 0) == Outcome(Printer(args), pieces, 0)
  {
    var good, r := (p: Piece) => p.Proper(), (i: nat, k: nat) => Rendered(f, i, args, k);
    AllFollow(r, Printer(args), (i: nat) => ParseSpec(f, i), Formats(), good, f, args);
    FollowsToTheEnd(r, Printer(args), Formats(), good, f, 0, pieces, 0);
  }
}
