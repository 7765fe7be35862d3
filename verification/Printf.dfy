/** vpprintf and vsnprintf: characters go out one by one while a single sum per
    conversion keeps the count. */
module Printf {
  import opened Bits
  import opened Digits
  import opened Strtoul
  import opened PrintfSpec

  // Where the characters go: npf_bufputc with its context. The calls made are
  // `out`; what fits of them is in the buffer.
  class Sink {
    const dst: array<char>
    const bufsz: nat
    const isNull: bool
    var cursor: nat
    var len: nat
    ghost var out: string

    constructor (dst: array<char>, bufsz: nat, isNull: bool)
      requires !isNull ==> bufsz <= dst.Length
      ensures this.dst == dst && this.bufsz == bufsz && this.isNull == isNull && Valid() && out == ""
    {
      this.dst, this.bufsz, this.isNull := dst, bufsz, isNull;
      cursor, len, out := 0, bufsz, "";
    }

    ghost predicate Valid()
      reads this, dst
    {
      if isNull then cursor == 0
      else
        && bufsz <= dst.Length && cursor + len == bufsz && cursor == (if |out| <= bufsz then |out| else bufsz)
        && dst[..cursor] == out[..cursor]
    }

    method Put(c: char)
      requires Valid()
      modifies this`cursor, this`len, this`out, dst
      ensures Valid() && out == old(out) + [c]
      ensures isNull ==> dst[..] == old(dst[..])
      ensures !isNull ==> dst[bufsz..] == old(dst[bufsz..])
      ensures forall k :: |out| <= k < dst.Length ==> dst[k] == old(dst[k])
    {
      if !isNull && len > 0 {
        len := len - 1;
        dst[cursor] := c;
        cursor := cursor + 1;
      }
      out := out + [c];
    }

    // Untouched so far: nothing behind the output, nor behind the buffer.
    twostate predicate Kept()
      reads this, dst
    {
      && |old(out)| <= |out|
      && (isNull ==> dst[..] == old(dst[..]))
      && forall k :: |out| <= k < dst.Length || bufsz <= k < dst.Length ==> dst[k] == old(dst[k])
    }

    // while (n-- > 0) put(c)
    method PutPad(c: char, n: int)
      requires Valid()
      modifies this`cursor, this`len, this`out, dst
      ensures Valid() && out == old(out) + Pad(c, n)
      ensures Kept()
    {
      var i := 0;
      while i < n
        invariant 0 <= i <= Max(0, n) && Valid() && out == old(out) + Pad(c, i) && Kept()
      {
        Put(c);
        i := i + 1;
      }
    }

    // The payload from the front, or from the back.
    method PutText(s: string)
      requires Valid()
      modifies this`cursor, this`len, this`out, dst
      ensures Valid() && out == old(out) + s
      ensures Kept()
    {
      for i := 0 to |s|
        invariant Valid() && out == old(out) + s[..i] && Kept()
      {
        Put(s[i]);
      }
    }

    method PutReversed(s: string)
      requires Valid()
      modifies this`cursor, this`len, this`out, dst
      ensures Valid() && out == old(out) + Backwards(s)
      ensures Kept()
    {
      var n := |s|;
      assert s[n..] == "";
      while n > 0
        invariant 0 <= n <= |s| && Valid() && out == old(out) + Backwards(s[n..]) && Kept()
      {
        n := n - 1;
        Put(s[n]);
      }
      assert s[0..] == s;
    }

    method PutSign(signC: char, need0x: char)
      requires Valid()
      modifies this`cursor, this`len, this`out, dst
      ensures Valid() && out == old(out) + PrefixOf(signC, need0x) && Kept()
    {
      if signC != '\0' { Put(signC); }
      if need0x != '\0' {
        Put('0');
        Put(need0x);
      }
    }

    // Pads, sign, 0x, zeros and payload, with the counters running out.
    method EmitParts(left: bool, padC: char, fieldPad0: int, signC: char, need0x: char, precPad: int, cbuf: string,
                     forward: bool)
      requires Valid()
      modifies this`cursor, this`len, this`out, dst
      ensures Valid() && Kept()
      ensures out == old(out) + ((if left then "" else Pad(padC, fieldPad0)) + PrefixOf(signC, need0x)
                                 + Pad('0', precPad) + (if forward then cbuf else Backwards(cbuf))
                                 + Pad(padC, if left then fieldPad0 else 0))
    {
      var fieldPad := fieldPad0;
      ghost var before := if left then "" else Pad(padC, fieldPad0);
      ghost var after := Pad(padC, if left then fieldPad0 else 0);
      InOrder(out, before, PrefixOf(signC, need0x), Pad('0', precPad),
              if forward then cbuf else Backwards(cbuf), after);
      if !left {
        PutPad(padC, fieldPad);
        fieldPad := 0;
      } else {
        assert out + before == out;
      }
      PutSign(signC, need0x);
      PutPad('0', precPad);
      if forward {
        PutText(cbuf);
      } else {
        PutReversed(cbuf);
      }
      PutPad(padC, fieldPad);
    }

    // One conversion; the length is summed up before the counters run out.
    method Emit(fs: Spec, signC: char, need0x: char, cbuf: string, zero: bool, ghost c: Converted)
        returns (specLen: nat)
      requires Valid() && c == Converted(fs, signC, need0x, if fs.conv == Text then cbuf else Backwards(cbuf), zero)
      modifies this`cursor, this`len, this`out, dst
      ensures Valid() && out == old(out) + Field(c) && specLen == |Field(c)| && Kept()
    {
      var padC, precPad, fieldPad;
      padC, precPad, fieldPad, specLen := Measure(fs, signC, need0x, |cbuf|, zero, c);
      EmitParts(fs.leftJustified, padC, fieldPad, signC, need0x, precPad, cbuf, fs.conv == Text);
    }
  }

  lemma InOrder(out: string, a: string, b: string, c: string, d: string, e: string)
    ensures out + a + b + c + d + e == out + (a + b + c + d + e)
  {
  }

  function PrefixOf(sign: char, need0x: char): string
  {
    One(sign) + if need0x == '\0' then "" else ['0', need0x]
  }

  // The pad character, how many zeros and pad characters, and the length.
  method Measure(fs: Spec, signC: char, need0x: char, cbufLen: nat, zero: bool, ghost c: Converted)
    returns (padC: char, precPad: int, fieldPad: int, specLen: nat)
    requires c.spec == fs && c.sign == signC && c.need0x == need0x && |c.payload| == cbufLen && c.zero == zero
    ensures specLen == |Field(c)|
    ensures Field(c) == (if fs.leftJustified then "" else Pad(padC, fieldPad)) + PrefixOf(signC, need0x)
      + Pad('0', precPad)
                        + c.payload + Pad(padC, if fs.leftJustified then fieldPad else 0)
  {
    padC := ' ';
    if fs.leadingZeroPad && !fs.leftJustified && !(fs.precOpt != NotGiven && fs.prec == 0 && zero) {
      padC := '0';
    }
    precPad := 0;
    if fs.conv != Text && fs.conv != Float {
      precPad := Max(0, fs.prec - cbufLen);
    }
    var sum := cbufLen + (if signC != '\0' then 1 else 0) + (if need0x != '\0' then 2 else 0) + precPad;
    fieldPad := fs.fieldWidth - sum;
    if fieldPad < 0 {
      fieldPad := 0;
    }
    specLen := sum + fieldPad;
    if padC == '0' {
      precPad := precPad + fieldPad;
      fieldPad := 0;
    }
    FieldWidth(c);
    FieldInOrder(c, padC, precPad, fieldPad);
  }

  // The order in which the parts go out is that of the field.
  lemma FieldInOrder(c: Converted, padC: char, zeros: int, pad: int)
    requires padC == if ZeroPadded(c) then '0' else ' '
    requires var free := Max(0, c.spec.fieldWidth - (|Prefix(c)| + PrecPad(c) + |c.payload|));
      (zeros, pad) == if ZeroPadded(c) then (PrecPad(c) + free, 0) else (PrecPad(c), free)
    ensures Field(c) == (if c.spec.leftJustified then "" else Pad(padC, pad)) + PrefixOf(c.sign, c.need0x)
      + Pad('0', zeros) + c.payload
                        + Pad(padC, if c.spec.leftJustified then pad else 0)
  {
    NoneOutside(Prefix(c), Pad('0', zeros), c.payload);
  }

  lemma NoneOutside(a: string, b: string, c: string)
    ensures "" + a + b + c == a + b + c && a + b + c + "" == a + b + c
    ensures "" + a + b + c + "" == a + b + c
  {
  }

  // ----- the argument as text -----

  // An integer: its digits, last one first, and the x of 0x.
  method IntegerText(fs0: Spec, signC: char, val: u32) returns (fs: Spec, need0x: char, cbuf: string, zero: bool)
    requires fs0.caseAdjust <= 32 && (Integer(fs0.conv) || fs0.conv == Pointer)
    ensures Converted(fs, signC, need0x, Backwards(cbuf), zero) == NumberText(fs0, signC, val)
  {
    var base := BaseOf(fs0.conv);
    fs, need0x, cbuf, zero := fs0, '\0', "", val == 0;
    if val == 0 && fs.precOpt != NotGiven && fs.prec == 0 {
      if base == 8 && fs.altForm {
        fs := fs.(prec := 1);
      }
    } else {
      cbuf := UtoaRevEnd(val, base, fs.caseAdjust, false);
      if val != 0 && fs.altForm {
        if base == 8 {
          cbuf := cbuf + ['0'];
        } else if base == 16 {
          need0x := ('X' as int + fs.caseAdjust) as char;
        }
      }
    }
  }

  // A string, cut off at its precision.
  method StringText(fs: Spec, a: Arg) returns (cbuf: string)
    requires fs.conv == Text && fs.caseAdjust <= 32
    ensures cbuf == Convert(fs, a).payload
  {
    var len := 0;
    while (fs.precOpt == NotGiven || len < fs.prec) && !a.isNull && len < |a.text|
      invariant 0 <= len <= |a.text| && (len > 0 ==> !a.isNull && (fs.precOpt == NotGiven || len <= fs.prec))
    {
      len := len + 1;
    }
    cbuf := a.text[..len];
  }

  method ConvertArg(fs0: Spec, a: Arg) returns (fs: Spec, signC: char, need0x: char, cbuf: string, zero: bool)
    requires fs0.caseAdjust <= 32
    ensures fs.conv == fs0.conv
    ensures Converted(fs, signC, need0x, if fs.conv == Text then cbuf else Backwards(cbuf), zero) == Convert(fs0, a)
  {
    fs, signC, need0x, cbuf, zero := fs0, '\0', '\0', "", false;
    match fs.conv
    case Float =>
      signC := if a.float.negative then '-' else fs.prepend;
      zero := a.float.zero;
      cbuf := a.float.reversed;
      if a.float.isText { fs := fs.(leadingZeroPad := false); }
    case SignedInt =>
      var sval := NarrowSigned(a.word, fs.modifier);
      signC := if sval < 0 then '-' else fs.prepend;
      fs, need0x, cbuf, zero := IntegerText(fs, signC, if sval < 0 then -sval else sval);
    case Pointer =>
      fs, need0x, cbuf, zero := IntegerText(fs, signC, a.word);
    case Text =>
      cbuf := StringText(fs, a);
    case Character =>
      cbuf := [(a.word % 0x100) as char];
      assert Backwards(cbuf) == cbuf;
    case Percent =>
      cbuf := "%";
      assert Backwards(cbuf) == cbuf;
    case _ =>
      fs, need0x, cbuf, zero := IntegerText(fs, signC, Narrow(a.word, fs.modifier));
  }

  // '*' arguments, defaults, and whether the 0 flag counts.
  method ResolveSpec(fs0: Spec, args: seq<Arg>, k0: nat) returns (fs: Spec, k: nat)
    ensures (fs, k) == Resolve(fs0, args, k0)
  {
    fs, k := fs0, k0;
    if fs.fieldWidthOpt == Star {
      fs := fs.(fieldWidth := Signed(Fetch(args, k).word));
      if fs.fieldWidth < 0 {
        fs := fs.(fieldWidth := -fs.fieldWidth, leftJustified := true);
      }
      k := k + 1;
    }
    if fs.precOpt == Star {
      fs := fs.(prec := Signed(Fetch(args, k).word));
      if fs.prec < 0 {
        fs := fs.(prec := 0, precOpt := NotGiven);
      }
      k := k + 1;
    }
    if fs.precOpt == NotGiven {
      if fs.conv == Pointer {
        fs := fs.(prec := 8);
      } else if fs.conv == Float {
        fs := fs.(prec := 6);
      }
    }
    if fs.precOpt != NotGiven && Integer(fs.conv) {
      fs := fs.(leadingZeroPad := false);
    }
  }

  // ----- reading a specification -----

  predicate IsFlag(c: char) { c == '-' || c == '0' || c == '+' || c == ' ' || c == '#' }

  method ParseFlags(format: string, i: nat, s0: Spec) returns (s: Spec, cur: nat)
    ensures (s, cur) == Flags(format, i, s0)
  {
    s, cur := s0, i;
    while cur < |format| && IsFlag(format[cur])
      invariant Flags(format, cur, s) == Flags(format, i, s0)
      decreases |format| - cur
    {
      match format[cur] {
        case '-' => s := s.(leftJustified := true);
        case '0' => s := s.(leadingZeroPad := true);
        case '#' => s := s.(altForm := true);
        case c => if s.prepend != '+' { s := s.(prepend := c); }
      }
      cur := cur + 1;
    }
  }

  method ParseDecimals(format: string, i: nat) returns (n: int, cur: nat)
    ensures (n, cur) == Decimals(format, i, 0)
  {
    n, cur := 0, i;
    while IsDigit(At(format, cur))
      invariant Decimals(format, cur, n) == Decimals(format, i, 0)
      decreases |format| - cur
    {
      n := n * 10 + (At(format, cur) as int - '0' as int);
      cur := cur + 1;
    }
  }

  method ParseWidth(format: string, i: nat, s0: Spec) returns (s: Spec, cur: nat)
    ensures (s, cur) == Width(format, i, s0)
  {
    s, cur := s0.(fieldWidth := 0, fieldWidthOpt := NotGiven), i;
    if At(format, cur) == '*' {
      s, cur := s.(fieldWidthOpt := Star), cur + 1;
    } else {
      var n;
      n, cur := ParseDecimals(format, cur);
      s := s.(fieldWidth := n);
      if cur > i { s := s.(fieldWidthOpt := Literal); }
    }
  }

  method ParsePrecision(format: string, i: nat, s0: Spec) returns (s: Spec, cur: nat)
    ensures (s, cur) == Precision(format, i, s0)
  {
    s, cur := s0.(prec := 0, precOpt := NotGiven), i;
    if At(format, cur) == '.' {
      cur := cur + 1;
      if At(format, cur) == '*' {
        s, cur := s.(precOpt := Star), cur + 1;
      } else {
        if At(format, cur) == '-' {
          cur := cur + 1;
        } else {
          s := s.(precOpt := Literal);
        }
        var n;
        n, cur := ParseDecimals(format, cur);
        s := s.(prec := n);
      }
    }
  }

  method ParseFormatSpecEnd(format: string, i: nat) returns (p: Parse)
    ensures p == ParseSpec(format, i)
  {
    var s, cur := ParseFlags(format, i + 1, PLAIN);
    s, cur := ParseWidth(format, cur, s);
    s, cur := ParsePrecision(format, cur, s);
    var m, j := Modifier(format, cur).0, Modifier(format, cur).1;
    var c := At(format, j);
    match PrintfSpec.Lookup(c)
    case Unknown => p := NoSpec;
    case Known(conv) =>
      p := Found(s.(modifier := m, conv := conv, caseAdjust := if 'A' <= c <= 'Z' then 0 else 32), j + 1);
  }

  // ----- the whole format -----

  // What is printed from a specification on.
  ghost function FromSpec(spec: Spec, format: string, end: nat, args: seq<Arg>, k: nat): string
    requires spec.caseAdjust <= 32
  {
    var (t, k1) := Resolve(spec, args, k);
    Field(Convert(t, Fetch(args, k1))) + Rendered(format, end, args, if t.conv == Percent then k1 else k1 + 1)
  }

  // One turn of the loop over the format, on its output.
  lemma RenderedStep(format: string, i: nat, args: seq<Arg>, k: nat, p: Parse)
    requires i < |format| && p == if format[i] == '%' then ParseSpec(format, i) else NoSpec
    ensures p.NoSpec? ==> Rendered(format, i, args, k) == [format[i]] + Rendered(format, i + 1, args, k)
    ensures p.Found? ==> Rendered(format, i, args, k) == FromSpec(p.spec, format, p.end, args, k)
  {
  }

  // The value returned is the number of characters put out.
  method Vpprintf(pc: Sink, format: string, args: seq<Arg>) returns (n: nat)
    requires pc.Valid() && pc.out == ""
    modifies pc, pc.dst
    ensures pc.Valid() && pc.out == Rendered(format, 0, args, 0) && n == |pc.out|
    ensures pc.Kept()
  {
    var cur, k := 0, 0;
    n := 0;
    ghost var all := Rendered(format, 0, args, 0);
    while cur < |format|
      invariant cur <= |format| && pc.Valid() && pc.Kept()
      invariant n == |pc.out| && pc.out + Rendered(format, cur, args, k) == all
      decreases |format| - cur
    {
      cur, k, n := PutNext(pc, format, cur, args, k, n, all);
    }
  }

  // One turn: a character, or a whole conversion.
  method PutNext(pc: Sink, format: string, cur0: nat, args: seq<Arg>, k0: nat, n0: nat, ghost all: string)
    returns (cur: nat, k: nat, n: nat)
    requires pc.Valid() && cur0 < |format| && n0 == |pc.out| && pc.out + Rendered(format, cur0, args, k0) == all
    modifies pc, pc.dst
    ensures cur0 < cur <= |format| && pc.Valid() && pc.Kept()
    ensures n == |pc.out| && pc.out + Rendered(format, cur, args, k) == all
  {
    var p := NoSpec;
    if format[cur0] == '%' { p := ParseFormatSpecEnd(format, cur0); }
    RenderedStep(format, cur0, args, k0, p);
    if p.NoSpec? {
      n := PutPlain(pc, format[cur0], n0, Rendered(format, cur0 + 1, args, k0));
      return cur0 + 1, k0, n;
    }
    n, k := PutSpec(pc, p.spec, args, k0, n0, format, p.end);
    cur := p.end;
  }

  method PutPlain(pc: Sink, c: char, n0: nat, ghost rest: string) returns (n: nat)
    requires pc.Valid() && n0 == |pc.out|
    modifies pc, pc.dst
    ensures pc.Valid() && pc.Kept() && n == |pc.out| && pc.out + rest == old(pc.out) + ([c] + rest)
  {
    Appended(pc.out, [c], rest);
    pc.Put(c);
    n := n0 + 1;
  }

  // A conversion, with its '*' arguments.
  method PutSpec(pc: Sink, spec: Spec, args: seq<Arg>, k0: nat, n0: nat, ghost format: string, ghost end: nat)
    returns (n: nat, k: nat)
    requires pc.Valid() && spec.caseAdjust <= 32 && n0 == |pc.out|
    modifies pc, pc.dst
    ensures pc.Valid() && pc.Kept() && n == |pc.out|
    ensures pc.out + Rendered(format, end, args, k) == old(pc.out) + FromSpec(spec, format, end, args, k0)
  {
    var fs;
    fs, k := ResolveSpec(spec, args, k0);
    ghost var k1, before := k, pc.out;
    ghost var next := if fs.conv == Percent then k1 else k1 + 1;
    SpecOutput(spec, format, end, args, k0, fs, k1, before, Rendered(format, end, args, next));
    n := PutCounted(pc, fs, Fetch(args, k), n0, Field(Convert(fs, Fetch(args, k))));
    if fs.conv != Percent { k := k + 1; }
  }

  method PutCounted(pc: Sink, fs: Spec, a: Arg, n0: nat, ghost field: string) returns (n: nat)
    requires pc.Valid() && fs.caseAdjust <= 32 && n0 == |pc.out| && field == Field(Convert(fs, a))
    modifies pc, pc.dst
    ensures pc.Valid() && pc.Kept() && n == |pc.out| && pc.out == old(pc.out) + field
  {
    var specLen := PutConversion(pc, fs, a);
    n := n0 + specLen;
  }

  lemma SpecOutput(spec: Spec, format: string, end: nat, args: seq<Arg>, k0: nat, fs: Spec, k1: nat, before: string,
                   rest: string)
    requires spec.caseAdjust <= 32 && (fs, k1) == Resolve(spec, args, k0)
    requires rest == Rendered(format, end, args, if fs.conv == Percent then k1 else k1 + 1)
    ensures before + FromSpec(spec, format, end, args, k0) == before + Field(Convert(fs, Fetch(args, k1))) + rest
  {
    Appended(before, Field(Convert(fs, Fetch(args, k1))), rest);
  }

  lemma Appended(a: string, b: string, c: string)
    ensures a + (b + c) == a + b + c
  {
  }

  method PutConversion(pc: Sink, fs: Spec, a: Arg) returns (specLen: nat)
    requires pc.Valid() && fs.caseAdjust <= 32
    modifies pc, pc.dst
    ensures pc.Valid() && pc.out == old(pc.out) + Field(Convert(fs, a)) && specLen == |Field(Convert(fs, a))|
      && pc.Kept()
  {
    var t, signC, need0x, cbuf, zero := ConvertArg(fs, a);
    specLen := pc.Emit(t, signC, need0x, cbuf, zero, Convert(fs, a));
  }

  // vsnprintf: the first characters of the same output and a NUL; nothing
  // behind them is touched.
  method Vsnprintf(buffer: array<char>, isNull: bool, bufsz: nat, format: string, args: seq<Arg>) returns (n: nat)
    requires !isNull ==> bufsz <= buffer.Length
    modifies buffer
    ensures n == |Rendered(format, 0, args, 0)|
    ensures isNull || bufsz == 0 ==> buffer[..] == old(buffer[..])
    ensures !isNull && bufsz > 0 ==> var m := if n <= bufsz - 1 then n else bufsz - 1;
      && buffer[..m] == Rendered(format, 0, args, 0)[..m] && buffer[m] == '\0'
      && buffer[m + 1..] == old(buffer[m + 1..])
  {
    var ctx := new Sink(buffer, bufsz, isNull);
    ghost var before := buffer[..];
    n := Vpprintf(ctx, format, args);
    if !isNull && bufsz > 0 {
      var m := if n <= bufsz - 1 then n else bufsz - 1;
      FirstPart(buffer[..], before, ctx.out, ctx.cursor, m);
      buffer[m] := '\0';
    }
  }

  lemma FirstPart(buffer: string, before: string, out: string, cursor: nat, m: nat)
    requires m <= cursor <= |out| && cursor <= |buffer| == |before| && m < |buffer| && buffer[..cursor] == out[..cursor]
    requires forall k :: m < k < |buffer| ==> buffer[k] == before[k]
    ensures buffer[..m] == out[..m] && buffer[m + 1..] == before[m + 1..]
  {
    assert buffer[..m] == buffer[..cursor][..m];
  }
}
