/** 64-bit arithmetic for a 32-bit machine: counting zeros, and division by
    shifting and subtracting without a comparison. */
module Arith64 {
  import opened Bits

  const WORD64 := 0x1_0000_0000_0000_0000
  const TOP := 0x8000_0000_0000_0000

  type u64 = x: int | 0 <= x < WORD64
  type s64 = x: int | -TOP <= x < TOP

  // Reduction of an unsigned result to 64 bits.
  function Wrap(x: int): u64 { x % WORD64 }

  // The C operator !.
  function Not(x: nat): nat { if x == 0 then 1 else 0 }

  lemma Pow2Sixty()
    ensures Pow2(32) == 0x1_0000_0000 && Pow2(48) == 0x1_0000_0000_0000 && Pow2(56) == 0x100_0000_0000_0000
    ensures Pow2(60) == 0x1000_0000_0000_0000 && Pow2(62) == 0x4000_0000_0000_0000
    ensures Pow2(63) == TOP && Pow2(64) == WORD64
  {
    Pow2Words();
    Pow2Add(32, 16);
    Pow2Add(48, 8);
    assert Pow2(4) == 16 && Pow2(2) == 4;
    Pow2Add(56, 4);
    Pow2Add(60, 2);
    assert Pow2(63) == 2 * Pow2(62) && Pow2(64) == 2 * Pow2(63);
  }

  lemma Pow2Is64()
    ensures Pow2(64) == WORD64
  {
    Pow2Sixty();
  }

  lemma SmallPowers()
    ensures Pow2(0) == 1 && Pow2(1) == 2 && Pow2(2) == 4 && Pow2(3) == 8 && Pow2(4) == 16 && Pow2(5) == 32
  {
  }

  // A mask of the high bits misses exactly the numbers that fit below it.
  lemma {:induction false} HighMask(a: nat, j: nat, k: nat)
    requires j <= k && a < Pow2(k)
    ensures Pow2(j) <= Pow2(k) && (And(a, Pow2(k) - Pow2(j)) == 0 <==> a < Pow2(j))
  {
    Pow2Monotone(j, k);
    if j == 0 {
      AndLowMask(a, k);
      DivModUnique(a, Pow2(k), 0, a);
    } else {
      HighMask(a / 2, j - 1, k - 1);
      EvenMask(a, Pow2(k - 1) - Pow2(j - 1));
    }
  }

  lemma EvenMask(a: nat, m: nat)
    ensures And(a, 2 * m) == 2 * And(a / 2, m)
  {
    assert (2 * m) / 2 == m;
  }

  // The shift of one line of __clzdi2: by w when the w high bits are clear.
  lemma LineShift(a: u64, s: nat, mask: nat, w: nat, b: nat)
    requires w == Pow2(s) && w <= 64 && mask == Pow2(64) - Pow2(64 - w)
    requires b == Shl(Not(And(a, mask)), s)
    ensures b == if a < Pow2(64 - w) then w else 0
  {
    Pow2Is64();
    HighMask(a, 64 - w, 64);
    ShlIsTimes(Not(And(a, mask)), s);
  }

  lemma MovedUp(a: nat, w: nat, b: nat)
    requires 2 * w <= 64 && Pow2(64 - 2 * w) <= a < WORD64 && b == if a < Pow2(64 - w) then w else 0
    ensures Shl(a, b) == a * Pow2(b) < WORD64 && Pow2(64 - w) <= Shl(a, b)
  {
    ShlIsTimes(a, b);
    if b == w {
      Pow2Sixty();
      Pow2Add(64 - 2 * w, w);
      Pow2Add(64 - w, w);
      Scaled(a, Pow2(64 - 2 * w), Pow2(64 - w), Pow2(w));
    }
  }

  lemma Scaled(a: nat, lo: nat, hi: nat, p: nat)
    requires lo <= a < hi && hi == lo * p && hi * p == WORD64
    ensures hi <= a * p < WORD64
  {
    MulMonotone(lo, a, p);
    MulMonotone(a, hi - 1, p);
    assert (hi - 1) * p == hi * p - p;
  }

  lemma TimesPow2(a: nat, x: nat, n: nat, b: nat)
    requires x == a * Pow2(n)
    ensures x * Pow2(b) == a * Pow2(n + b)
  {
    Pow2Add(n, b);
    assert a * Pow2(n) * Pow2(b) == a * (Pow2(n) * Pow2(b));
  }

  lemma LineDone(a: u64, n: nat, s: nat, mask: nat, w: nat, a0: u64, b: nat)
    requires w == Pow2(s) && 2 * w <= 64 && mask == Pow2(64) - Pow2(64 - w)
    requires Pow2(64 - 2 * w) <= a == a0 * Pow2(n) && b == Shl(Not(And(a, mask)), s)
    ensures b <= w && Wrap(Shl(a, b)) == a0 * Pow2(n + b) && Pow2(64 - w) <= Wrap(Shl(a, b))
  {
    LineShift(a, s, mask, w, b);
    MovedUp(a, w, b);
    TimesPow2(a0, a, n, b);
    WrapSmall(Shl(a, b));
  }

  lemma WrapSmall(x: nat)
    requires x < WORD64
    ensures Wrap(x) == x
  {
  }

  // One line of __clzdi2, with 2 * w zeros at most left to find.
  method ClzLine(a: u64, n: nat, s: nat, mask: nat, ghost w: nat, ghost a0: u64) returns (a': u64, n': nat)
    requires w == Pow2(s) && 2 * w <= 64 && mask == Pow2(64) - Pow2(64 - w)
    requires Pow2(64 - 2 * w) <= a == a0 * Pow2(n)
    ensures a' == a0 * Pow2(n') && Pow2(64 - w) <= a' && n' <= n + w
  {
    var b := Shl(Not(And(a, mask)), s);
    LineDone(a, n, s, mask, w, a0, b);
    n' := n + b;
    a' := Wrap(Shl(a, b));
  }

  // n zeros stand in front of a.
  ghost predicate LeadingZeros(a: u64, n: nat)
  {
    TOP <= a * Pow2(n) < WORD64
  }

  lemma LastZero(a: u64, n: nat, a0: u64)
    requires Pow2(62) <= a == a0 * Pow2(n)
    ensures Not(And(a, TOP)) <= 1 && LeadingZeros(a0, n + Not(And(a, TOP)))
  {
    Pow2Sixty();
    HighMask(a, 63, 64);
    TimesPow2(a0, a, n, 1);
    assert Pow2(1) == 2;
  }

  method Clzdi2(a0: u64) returns (n: nat)
    requires a0 > 0
    ensures n <= 63 && LeadingZeros(a0, n)
  {
    Pow2Sixty();
    SmallPowers();
    var a := a0;
    n := 0;
    a, n := ClzLine(a, n, 5, 0xffff_ffff_0000_0000, 32, a0);
    a, n := ClzLine(a, n, 4, 0xffff_0000_0000_0000, 16, a0);
    a, n := ClzLine(a, n, 3, 0xff00_0000_0000_0000, 8, a0);
    a, n := ClzLine(a, n, 2, 0xf000_0000_0000_0000, 4, a0);
    a, n := ClzLine(a, n, 1, 0xc000_0000_0000_0000, 2, a0);
    LastZero(a, n, a0);
    n := n + Not(And(a, 0x8000_0000_0000_0000));
  }

  // The C operator | on non-negative operands, bit by bit.
  function Or(x: nat, y: nat): nat
  {
    if x == 0 then y else if y == 0 then x
    else 2 * Or(x / 2, y / 2) + (if x % 2 == 1 || y % 2 == 1 then 1 else 0)
  }

  lemma OrLowBit(x: nat, t: nat)
    requires x % 2 == 0 && t < 2
    ensures Or(x, t) == x + t
  {
    if x > 0 && t > 0 { assert Or(x / 2, 0) == x / 2; }
  }

  const ONES := 0xffff_ffff_ffff_ffff

  lemma AndOnes(b: u64)
    ensures And(b, ONES) == b && And(b, 0) == 0
  {
    Pow2Sixty();
    AndLowMask(b, 64);
  }

  // The sign of b - rem - 1 tells whether b fits into rem, for a remainder
  // below 2 * b and, when b has its top bit set, only if b does fit.
  lemma SignDecides(b: u64, rem: u64)
    requires b > 0 && rem < 2 * b && (b <= TOP || b <= rem)
    ensures Wrap(b - rem - 1) >= TOP <==> rem >= b
  {
    var d := b - rem - 1;
    if rem >= b {
      DivModUnique(d, WORD64, -1, d + WORD64);
    } else {
      DivModUnique(d, WORD64, 0, d);
    }
  }

  // That condition is needed: without it a small remainder looks large.
  lemma SignMisleads()
    ensures var b, rem := TOP + 1, 0; Wrap(b - rem - 1) >= TOP && rem < b
  {
  }

  // The top bit t of a numerator whose high part is m, and what remains when
  // it is shifted out and a quotient bit is shifted in.
  lemma ShiftNumerator(m: nat, r: nat, q: nat, t: nat, a: nat)
    requires t < 2 && t * TOP <= m && m + r <= (t + 1) * TOP && q < 2 * r && a == m + q / 2
    ensures a < WORD64 && a / TOP == t && Or(Wrap(2 * a), q % 2) == 2 * (m - t * TOP) + q
  {
    DivModUnique(a, TOP, t, a - t * TOP);
    DivModUnique(2 * a, WORD64, t, 2 * a - t * WORD64);
    OrLowBit(Wrap(2 * a), q % 2);
  }

  // lo is what is left of the numerator, below 2 * p.
  lemma HighPart(lo: nat, p: nat, r: nat, t: nat)
    requires lo < 2 * p && p * r == TOP && t == if lo >= p then 1 else 0
    ensures t * TOP <= lo * r && lo * r + r <= (t + 1) * TOP
    ensures (lo - t * p) * (2 * r) == 2 * (lo * r - t * TOP)
  {
    if t == 0 {
      Below(lo, p, r);
    } else {
      Below(lo - p, p, r);
      assert (lo - p) * r == lo * r - p * r;
    }
    assert (lo - t * p) * (2 * r) == 2 * ((lo - t * p) * r);
  }

  lemma Below(lo: nat, p: nat, r: nat)
    requires lo < p
    ensures 0 <= lo * r && lo * r + r <= p * r
  {
    MulMonotone(lo + 1, p, r);
    assert (lo + 1) * r == lo * r + r;
  }

  // The numerator is hi * p + lo with p == 2^n when n bits are left: the high
  // part divided, the low part still to come in a, in front of the quotient
  // bits found; r == 2^(64 - n).
  ghost predicate Dividing(num: nat, b: nat, rem: nat, a: nat, q: nat, hi: nat, lo: nat, p: nat, r: nat)
  {
    && num == hi * p + lo && lo < p && p * r == WORD64
    && hi == q * b + rem && rem < b && q < 2 * r && a == lo * r + q / 2
  }

  lemma NextHigh(num: nat, hi: nat, lo: nat, p: nat, r: nat, t: nat)
    requires num == hi * (2 * p) + lo && (2 * p) * r == WORD64
    ensures num == (2 * hi + t) * p + (lo - t * p) && p * r == TOP && p * (2 * r) == WORD64
  {
    assert (2 * p) * r == 2 * (p * r) && p * (2 * r) == 2 * (p * r);
    assert hi * (2 * p) == (2 * hi) * p && (2 * hi + t) * p == (2 * hi) * p + t * p;
  }

  lemma NextQuotient(hi: nat, q: nat, b: nat, rem: nat, t: nat, w: nat)
    requires hi == q * b + rem
    ensures 2 * hi + t == (2 * q + w) * b + (2 * rem + t - w * b)
  {
    assert (2 * q + w) * b == 2 * (q * b) + w * b;
  }

  lemma DivisionStep(num: nat, b: nat, rem: nat, a: nat, q: nat, hi: nat, lo: nat, p: nat, r: nat) returns (lo': nat)
    requires Dividing(num, b, rem, a, q, hi, lo, 2 * p, r)
    ensures a < WORD64 && a / TOP < 2 && p * r == TOP
    ensures var t := a / TOP; var rem1 := 2 * rem + t;
      if rem1 >= b then Dividing(num, b, rem1 - b, Or(Wrap(2 * a), q % 2), 2 * q + 1, 2 * hi + t, lo', p, 2 * r)
      else Dividing(num, b, rem1, Or(Wrap(2 * a), q % 2), 2 * q, 2 * hi + t, lo', p, 2 * r)
  {
    var t := if lo >= p then 1 else 0;
    lo' := if lo >= p then lo - p else lo;
    NextHigh(num, hi, lo, p, r, t);
    HighPart(lo, p, r, t);
    ShiftNumerator(lo * r, r, q, t, a);
    NextQuotient(hi, q, b, rem, t, if 2 * rem + t >= b then 1 else 0);
  }

  lemma TooFar(a: nat, b: nat, x: nat, y: nat, d: nat)
    requires b <= a && TOP <= b * y && d >= 2 && x == y * d
    ensures a * x >= WORD64
  {
    MulMonotone(b, a, y);
    MulMonotone(2, d, a * y);
    assert a * (y * d) == d * (a * y);
  }

  lemma FarEnough(a: nat, b: nat, x: nat, y: nat, d: nat)
    requires a * x < WORD64 && TOP <= b * y && d * x == 2 * y
    ensures a < b * d
  {
    assert b * d * x == b * (d * x) == 2 * (b * y);
    if a >= b * d {
      MulMonotone(b * d, a, x);
    }
  }

  lemma NoRoom(b: nat, y: nat)
    requires b >= 2 && TOP <= b * y < WORD64
    ensures y < TOP && (b > TOP ==> y < 2)
  {
    if y >= TOP { MulMonotone(2, b, y); }
    if b > TOP && y >= 2 { MulMonotone(2, y, b); }
  }

  // The zeros in front of both numbers bound the quotient: shifted right by
  // one bit more than they differ, the numerator is below the divisor.
  lemma ZerosBound(a: u64, b: u64, za: nat, zb: nat)
    requires 1 < b <= a && za <= 63 && zb <= 63 && LeadingZeros(a, za) && LeadingZeros(b, zb)
    ensures za <= zb <= 62 && a < b * Pow2(zb - za + 1) && (b > TOP ==> zb == 0)
  {
    Pow2Sixty();
    NoRoom(b, Pow2(zb));
    assert zb > 0 ==> Pow2(zb) >= 2;
    if za > zb {
      Pow2Add(zb, za - zb);
      TooFar(a, b, Pow2(za), Pow2(zb), Pow2(za - zb));
    }
    Pow2Add(zb - za + 1, za);
    FarEnough(a, b, Pow2(za), Pow2(zb), Pow2(zb - za + 1));
  }

  lemma Distribute(rem: nat, p: nat, lo: nat, r: nat)
    ensures (rem * p + lo) * r == rem * (p * r) + lo * r
  {
    assert (rem * p + lo) * r == rem * p * r + lo * r && rem * p * r == rem * (p * r);
  }

  lemma SplitNumerator(a: u64, p: nat, r: nat, b: nat)
    requires p >= 2 && p * r == WORD64 && a < b * p && r >= 1
    ensures var rem, lo := a / p, a % p;
      rem < b && rem < TOP && Wrap(a * r) == lo * r && Dividing(a, b, rem, lo * r, 0, rem, lo, p, r)
  {
    var rem, lo := a / p, a % p;
    assert a == rem * p + lo;
    if rem >= b { MulMonotone(b, rem, p); }
    if rem >= TOP { MulMonotone(2, p, rem); }
    Below(lo, p, r);
    Distribute(rem, p, lo, r);
    DivModUnique(a * r, WORD64, rem, lo * r);
    assert 0 * b == 0;
  }

  lemma DivisionBegins(a: u64, b: u64, bits: nat)
    requires 1 <= bits <= 63 && a < b * Pow2(bits)
    ensures var rem, lo := Quot(a, Pow2(bits)), Rem(a, Pow2(bits));
      rem < TOP && Dividing(a, b, rem, Wrap(Shl(a, 64 - bits)), 0, rem, lo, Pow2(bits), Pow2(64 - bits))
  {
    Pow2Sixty();
    Pow2Add(bits, 64 - bits);
    QuotIsDiv(a, Pow2(bits));
    ShlIsTimes(a, 64 - bits);
    SplitNumerator(a, Pow2(bits), Pow2(64 - bits), b);
  }

  // Without a comparison, subtract b if it fits.
  method SubtractIfFits(rem: u64, b: u64) returns (rem': u64, wrap: u64)
    requires b > 0 && rem < 2 * b && (b <= TOP || b <= rem)
    ensures if rem >= b then rem' == rem - b && wrap == ONES else rem' == rem && wrap == 0
  {
    SignDecides(b, rem);
    AndOnes(b);
    wrap := if Wrap(b - rem - 1) >= TOP then ONES else 0;
    rem' := Wrap(rem - And(b, wrap));
  }

  lemma ShiftIn(a: u64, t: nat)
    requires t < 2
    ensures Or(Wrap(2 * a), t) == Wrap(2 * a) + t < WORD64
  {
    OrLowBit(Wrap(2 * a), t);
  }

  lemma ShiftInSmall(a: nat, t: nat)
    requires t < 2 && a < TOP
    ensures Or(Wrap(2 * a), t) == 2 * a + t < WORD64
  {
    OrLowBit(2 * a, t);
  }

  lemma LowBitOf(q: nat)
    ensures And(if q % 2 == 1 then ONES else 0, 1) == q % 2
  {
    assert And(ONES / 2, 0) == 0;
  }

  // A divisor with its top bit set fits into the numerator at once.
  lemma TopDivisor(num: nat, b: nat, rem: nat, q: nat, hi: nat, lo: nat, t: nat)
    requires num >= b && q == 0 && hi == q * b + rem && num == (2 * hi + t) * 1 + lo && lo < 1
    ensures b <= 2 * rem + t
  {
  }

  // What the next turn of the loop needs.
  lemma NextBit(num: nat, b: nat, rem: nat, a: nat, q: nat, hi: nat, lo: nat, p: nat, r: nat) returns (lo': nat)
    requires Dividing(num, b, rem, a, q, hi, lo, 2 * p, r)
    requires b <= num && rem < TOP && (b <= TOP || (p == 1 && q == 0))
    ensures a < WORD64 && b > 0
    ensures var t := a / TOP; var rem1 := 2 * rem + t;
      && Or(Wrap(2 * rem), t) == rem1 < WORD64 && rem1 < 2 * b && (b <= TOP || b <= rem1)
      && Or(Wrap(2 * a), q % 2) < WORD64
      && if rem1 >= b then Dividing(num, b, rem1 - b, Or(Wrap(2 * a), q % 2), 2 * q + 1, 2 * hi + t, lo', p, 2 * r)
         else Dividing(num, b, rem1, Or(Wrap(2 * a), q % 2), 2 * q, 2 * hi + t, lo', p, 2 * r)
  {
    lo' := DivisionStep(num, b, rem, a, q, hi, lo, p, r);
    ShiftInSmall(rem, a / TOP);
    ShiftIn(a, q % 2);
    if b > TOP {
      TopDivisor(num, b, rem, q, hi, lo', a / TOP);
    }
  }

  // The body of the loop.
  method DivisionBit(rem: u64, a: u64, wrap: u64, b: u64, ghost num: nat, ghost q: nat, ghost hi: nat, ghost lo: nat,
                     ghost p: nat, ghost r: nat)
    returns (rem': u64, a': u64, wrap': u64, ghost q': nat, ghost hi': nat, ghost lo': nat)
    requires Dividing(num, b, rem, a, q, hi, lo, 2 * p, r)
    requires b <= num && rem < TOP && (b <= TOP || (p == 1 && q == 0))
    requires wrap == if q % 2 == 1 then ONES else 0
    ensures Dividing(num, b, rem', a', q', hi', lo', p, 2 * r) && wrap' == if q' % 2 == 1 then ONES else 0
  {
    lo' := NextBit(num, b, rem, a, q, hi, lo, p, r);
    LowBitOf(q);
    hi' := 2 * hi + a / TOP;
    rem' := Or(Wrap(2 * rem), a / TOP);
    a' := Or(Wrap(2 * a), And(wrap, 1));
    rem', wrap' := SubtractIfFits(rem', b);
    q' := if wrap' == ONES then 2 * q + 1 else 2 * q;
  }

  lemma Finished(num: u64, b: nat, rem: nat, a: nat, q: nat, hi: nat, lo: nat, r: nat)
    requires Dividing(num, b, rem, a, q, hi, lo, 1, r)
    ensures num == q * b + rem && a == q / 2 && q < WORD64
  {
    NoneLeft(lo, r);
    MulMonotone(1, b, q);
  }

  lemma NoneLeft(lo: nat, r: nat)
    requires lo < 1
    ensures lo * r == 0
  {
  }

  lemma LastBit(q: u64)
    ensures Or(Wrap(2 * (q / 2)), q % 2) == q
  {
    ShiftInSmall(q / 2, q % 2);
  }

  // __divmoddi4; a divisor of zero raises an exception there.
  method Divmoddi4(a0: u64, b: u64) returns (quotient: u64, c: u64)
    requires b != 0
    ensures a0 == quotient * b + c && c < b
  {
    if b > a0 {
      assert 0 * b == 0;
      return 0, a0;
    }
    if b / 0x1_0000_0000 == 0 {
      if b == 1 {
        return a0, 0;
      }
      if a0 / 0x1_0000_0000 == 0 {
        QuotIsDiv(a0, b);
        return Quot(a0, b), Rem(a0, b);
      }
    }
    quotient, c := LongDivision(a0, b);
  }

  method LongDivision(a0: u64, b: u64) returns (quotient: u64, c: u64)
    requires 1 < b <= a0
    ensures a0 == quotient * b + c && c < b
  {
    var zb := Clzdi2(b);
    var za := Clzdi2(a0);
    ZerosBound(a0, b, za, zb);
    var bits := zb - za + 1;
    DivisionBegins(a0, b, bits);
    var rem: u64, a: u64, wrap: u64 := Quot(a0, Pow2(bits)), Wrap(Shl(a0, 64 - bits)), 0;
    ghost var q: nat, hi: nat, lo: nat := 0, rem, Rem(a0, Pow2(bits));
    while bits > 0
      invariant bits <= 63 && Dividing(a0, b, rem, a, q, hi, lo, Pow2(bits), Pow2(64 - bits))
      invariant wrap == if q % 2 == 1 then ONES else 0
      invariant bits > 0 ==> rem < TOP && (b <= TOP || (bits == 1 && q == 0))
    {
      rem, a, wrap, q, hi, lo := DivisionBit(rem, a, wrap, b, a0, q, hi, lo, Pow2(bits - 1), Pow2(64 - bits));
      bits := bits - 1;
    }
    Finished(a0, b, rem, a, q, hi, lo, Pow2(64));
    LowBitOf(q);
    LastBit(q);
    return Or(Wrap(2 * a), And(wrap, 1)), rem;
  }

  method Udivdi3(a: u64, b: u64) returns (q: u64)
    requires b != 0
    ensures q == a / b == Quot(a, b)
  {
    QuotIsDiv(a, b);
    var c;
    q, c := Divmoddi4(a, b);
    DivModUnique(a, b, q, c);
  }

  method Umoddi3(a: u64, b: u64) returns (r: u64)
    requires b != 0
    ensures r == a % b == Rem(a, b)
  {
    QuotIsDiv(a, b);
    var q;
    q, r := Divmoddi4(a, b);
    DivModUnique(a, b, q, r);
  }

  // ----- signed division -----

  function AsUnsigned(x: s64): u64 { if x < 0 then x + WORD64 else x }
  function AsSigned(x: u64): s64 { if x < TOP then x else x - WORD64 }
  function Abs(x: int): nat { if x < 0 then -x else x }

  // arith64_neg: invert and increment, on two's complement words.
  function Negated(x: u64, negative: bool): u64
  {
    Wrap((if negative then ONES - x else x) + (if negative then 1 else 0))
  }

  // Division that rounds toward zero.
  function TruncQuot(a: int, b: int): int
    requires b != 0
  {
    var q: int := Quot(Abs(a), Abs(b));
    if (a < 0) == (b < 0) then q else -q
  }

  function TruncRem(a: int, b: int): int
    requires b != 0
  {
    var r: int := Rem(Abs(a), Abs(b));
    if a < 0 then -r else r
  }

  lemma QuotRem(x: nat, y: nat)
    requires y > 0
    ensures x == Quot(x, y) * y + Rem(x, y)
  {
    QuotIsDiv(x, y);
  }

  lemma Truncation(a: int, b: int)
    requires b != 0
    ensures a == TruncQuot(a, b) * b + TruncRem(a, b) && Abs(TruncRem(a, b)) < Abs(b)
    ensures TruncRem(a, b) != 0 ==> (TruncRem(a, b) < 0 <==> a < 0)
    ensures Abs(TruncQuot(a, b)) <= Abs(a) && (Abs(TruncQuot(a, b)) == Abs(a) ==> a == 0 || Abs(b) == 1)
  {
    var x, y := Abs(a), Abs(b);
    QuotRem(x, y);
    SignedParts(a, b, Quot(x, y), Rem(x, y));
    SmallQuotient(x, y, Quot(x, y), Rem(x, y));
  }

  lemma SignedParts(a: int, b: int, q: int, r: int)
    requires Abs(a) == q * Abs(b) + r
    ensures a == (if (a < 0) == (b < 0) then q else -q) * b + (if a < 0 then -r else r)
  {
    assert (-q) * b == -(q * b) && q * (-b) == -(q * b);
  }

  lemma SmallQuotient(x: nat, y: nat, q: int, r: nat)
    requires x == q * y + r && r < y
    ensures 0 <= q <= x && (q == x ==> x == 0 || y == 1)
  {
    if q < 0 { MulMonotone(q, -1, y); }
    else {
      MulMonotone(1, y, q);
      if y >= 2 { MulMonotone(2, y, q); }
    }
  }

  lemma {:induction false} TruncationUnique(a: int, b: int, q: int, r: int)
    requires b != 0 && a == q * b + r && Abs(r) < Abs(b) && (r != 0 ==> (r < 0 <==> a < 0))
    ensures q == TruncQuot(a, b) && r == TruncRem(a, b)
  {
    var k := if (a < 0) == (b < 0) then q else -q;
    assert (-q) * (-b) == q * b && (-q) * b == -(q * b) && q * (-b) == -(q * b);
    DivModUnique(Abs(a), Abs(b), k, Abs(r));
    QuotIsDiv(Abs(a), Abs(b));
  }

  lemma NegatedIs(x: u64, negative: bool)
    ensures Negated(x, negative) == if negative && x > 0 then WORD64 - x else x
  {
  }

  // The absolute value as an unsigned word, of the minimum as well.
  lemma AbsWord(x: s64)
    ensures Negated(AsUnsigned(x), x < 0) == Abs(x)
  {
    NegatedIs(AsUnsigned(x), x < 0);
  }

  // __divdi3 truncates toward zero, except when the quotient is not a signed
  // word. a ^ b is negative exactly when the signs differ.
  method Divdi3(a: s64, b: s64) returns (r: s64)
    requires b != 0
    ensures r == TruncQuot(a, b) <==> !(a == -TOP && b == -1)
    ensures a == -TOP && b == -1 ==> r == -TOP
  {
    AbsWord(a);
    AbsWord(b);
    var q := Udivdi3(Negated(AsUnsigned(a), a < 0), Negated(AsUnsigned(b), b < 0));
    Truncation(a, b);
    NegatedIs(q, (a < 0) != (b < 0));
    r := AsSigned(Negated(q, (a < 0) != (b < 0)));
  }

  method Moddi3(a: s64, b: s64) returns (r: s64)
    requires b != 0
    ensures r == TruncRem(a, b)
  {
    AbsWord(a);
    AbsWord(b);
    var u := Umoddi3(Negated(AsUnsigned(a), a < 0), Negated(AsUnsigned(b), b < 0));
    Truncation(a, b);
    NegatedIs(u, a < 0);
    r := AsSigned(Negated(u, a < 0));
  }
}
