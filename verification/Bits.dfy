/** Unsigned machine arithmetic on mathematical integers: powers of two, bitwise
    `and`, and the little-endian words the file formats store. */
module Bits {

  const WORD := 0x1_0000_0000

  type u8 = x: int | 0 <= x < 0x100
  type u16 = x: int | 0 <= x < 0x1_0000
  type u32 = x: int | 0 <= x < 0x1_0000_0000

  function Min(a: int, b: int): (m: int)
    ensures m <= a && m <= b && (m == a || m == b)
  {
    if a < b then a else b
  }

  // Unsigned 32-bit subtraction.
  function Sub32(a: u32, b: u32): u32
  {
    if a >= b then a - b else a - b + WORD
  }

  function Pow2(n: nat): (p: nat)
    ensures p >= 1
  {
    if n == 0 then 1 else 2 * Pow2(n - 1)
  }

  lemma MulDouble(p: int, q: int)
    ensures 2 * (p * q) == (2 * p) * q == p * (2 * q)
  {
  }

  lemma {:induction false} Pow2Add(m: nat, n: nat)
    ensures Pow2(m + n) == Pow2(m) * Pow2(n)
  {
    if m > 0 {
      Pow2Add(m - 1, n);
      MulDouble(Pow2(m - 1), Pow2(n));
    }
  }

  lemma {:induction false} Pow2Monotone(m: nat, n: nat)
    requires m <= n
    ensures Pow2(m) <= Pow2(n)
  {
    if m < n { Pow2Monotone(m, n - 1); }
  }

  // The C operator & on non-negative operands, bit by bit.
  function And(x: nat, y: nat): nat
  {
    if x == 0 || y == 0 then 0
    else 2 * And(x / 2, y / 2) + (if x % 2 == 1 && y % 2 == 1 then 1 else 0)
  }

  lemma {:induction false} AndSelf(x: nat)
    ensures And(x, x) == x
  {
    if x > 0 { AndSelf(x / 2); }
  }

  lemma {:induction false} AndLowMask(x: nat, k: nat)
    ensures And(x, Pow2(k) - 1) == x % Pow2(k)
  {
    if k == 0 {
      assert x % 1 == 0;
    } else {
      AndLowMask(x / 2, k - 1);
      AndLowMaskStep(x, Pow2(k - 1));
    }
  }

  lemma AndLowMaskStep(x: nat, p: nat)
    requires p > 0 && And(x / 2, p - 1) == (x / 2) % p
    ensures And(x, 2 * p - 1) == x % (2 * p)
  {
    var m := 2 * p - 1;
    assert m / 2 == p - 1 && m % 2 == 1;
    ModTwice(x, p);
  }

  lemma ModTwice(x: nat, p: nat)
    requires p > 0
    ensures x % (2 * p) == 2 * ((x / 2) % p) + x % 2
  {
    var h := x / 2;
    var r := 2 * (h % p) + x % 2;
    assert h == (h / p) * p + h % p;
    assert x == (h / p) * (2 * p) + r;
    DivModUnique(x, 2 * p, h / p, r);
  }

  lemma MulAtLeast(k: int, d: int)
    requires k >= 1 && d >= 0
    ensures k * d >= d
  {
    assert k * d == d + (k - 1) * d;
  }

  lemma MulMonotone(a: int, b: int, d: int)
    requires a <= b && d >= 0
    ensures a * d <= b * d
  {
    assert b * d - a * d == (b - a) * d;
  }

  // Unsigned / and % by repeated subtraction; QuotIsDiv identifies them with
  // the built-in operators.
  function Quot(n: nat, d: nat): nat
    requires d > 0
  {
    if n < d then 0 else 1 + Quot(n - d, d)
  }

  function Rem(n: nat, d: nat): (r: nat)
    requires d > 0
    ensures r < d
  {
    if n < d then n else Rem(n - d, d)
  }

  lemma {:induction false} QuotIsDiv(n: nat, d: nat)
    requires d > 0
    ensures Quot(n, d) == n / d && Rem(n, d) == n % d
  {
    if n < d {
      DivModUnique(n, d, 0, n);
    } else {
      QuotIsDiv(n - d, d);
      var q := (n - d) / d;
      assert n == (q + 1) * d + (n - d) % d by { assert n - d == q * d + (n - d) % d; }
      DivModUnique(n, d, q + 1, (n - d) % d);
    }
  }

  // Unsigned x << n without overflow.
  function Shl(x: nat, n: nat): nat
    decreases n
  {
    if n == 0 then x else Shl(2 * x, n - 1)
  }

  lemma {:induction false} ShlIsTimes(x: nat, n: nat)
    ensures Shl(x, n) == x * Pow2(n)
    decreases n
  {
    if n > 0 {
      ShlIsTimes(2 * x, n - 1);
      MulDouble(x, Pow2(n - 1));
    }
  }

  lemma DivModUnique(x: int, d: int, q: int, r: int)
    requires d > 0 && 0 <= r < d && x == q * d + r
    ensures x / d == q && x % d == r
  {
    var k := q - x / d;
    assert k * d == x % d - r by {
      assert (q - x / d) * d == q * d - (x / d) * d;
    }
    if k > 0 { MulAtLeast(k, d); }
    if k < 0 { MulAtLeast(-k, d); }
  }

  // x & (1 << k) tests bit k.
  lemma {:induction false} AndBit(x: nat, k: nat)
    ensures And(x, Pow2(k)) == if (x / Pow2(k)) % 2 == 1 then Pow2(k) else 0
  {
    var p := Pow2(k);
    if k == 0 {
      assert x / 1 == x;
      assert And(x / 2, 0) == 0;
    } else if x > 0 {
      var h := Pow2(k - 1);
      AndBit(x / 2, k - 1);
      DivTwice(x, h);
      assert p / 2 == h && p % 2 == 0;
    } else {
      DivModUnique(0, p, 0, 0);
    }
  }

  lemma DivTwice(x: nat, h: nat)
    requires h > 0
    ensures x / (2 * h) == (x / 2) / h
  {
    ModTwice(x, h);
    var y := x / 2;
    assert x == (y / h) * (2 * h) + (2 * (y % h) + x % 2) by {
      assert y == (y / h) * h + y % h;
    }
    DivModUnique(x, 2 * h, y / h, 2 * (y % h) + x % 2);
  }

  lemma Pow2Words()
    ensures Pow2(8) == 0x100 && Pow2(16) == 0x1_0000 && Pow2(31) == 0x8000_0000 && Pow2(32) == WORD
  {
    assert Pow2(8) == 0x100;
    Pow2Add(8, 8);
    Pow2Add(16, 8);
    Pow2Add(24, 7);
  }

  lemma AndLow31(x: nat)
    ensures And(x, 0x7FFF_FFFF) == x % 0x8000_0000
  {
    Pow2Words();
    AndLowMask(x, 31);
  }

  lemma AndTopBit(x: u32)
    ensures And(x, 0x8000_0000) == if x >= 0x8000_0000 then 0x8000_0000 else 0
  {
    Pow2Words();
    AndBit(x, 31);
  }

  ghost predicate IsPow2(n: nat)
  {
    exists k: nat :: n == Pow2(k)
  }

  function Le32(s: seq<u8>, i: nat): u32
    requires i + 4 <= |s|
  {
    s[i] as int + 0x100 * s[i + 1] as int + 0x1_0000 * s[i + 2] as int + 0x100_0000 * s[i + 3] as int
  }

  // n & (n - 1) clears the lowest set bit, so it vanishes exactly on powers of two.
  lemma {:induction false} AndPredecessor(n: nat)
    requires n > 0
    ensures And(n, n - 1) == 0 <==> IsPow2(n)
  {
    if n == 1 {
      assert Pow2(0) == 1;
    } else if n % 2 == 0 {
      var h := n / 2;
      AndPredecessor(h);
      assert (n - 1) / 2 == h - 1;
      if IsPow2(h) {
        var k: nat :| h == Pow2(k);
        assert n == Pow2(k + 1);
      }
      if IsPow2(n) {
        var k: nat :| n == Pow2(k);
        assert h == Pow2(k - 1);
      }
    } else {
      AndSelf(n / 2);
      assert (n - 1) / 2 == n / 2 && n / 2 > 0;
      OddIsNoPower(n);
    }
  }

  lemma OddIsNoPower(n: nat)
    requires n % 2 == 1 && n > 1
    ensures !IsPow2(n)
  {
    forall k: nat ensures n != Pow2(k) {
      if k > 0 { assert Pow2(k) == 2 * Pow2(k - 1); }
    }
  }

  // A 32-bit word as four little-endian bytes.
  function Word(x: u32): (s: seq<u8>)
    ensures |s| == 4
  {
    [x % 0x100, x / 0x100 % 0x100, x / 0x1_0000 % 0x100, x / 0x100_0000]
  }

  lemma WordRoundTrip(x: u32)
    ensures Le32(Word(x), 0) == x
  {
    var a := x / 0x100;
    var b := a / 0x100;
    assert x / 0x1_0000 == b && x / 0x100_0000 == b / 0x100;
  }

  lemma Le32Slice(s: seq<u8>, i: nat)
    requires i + 4 <= |s|
    ensures Le32(s[i..i + 4], 0) == Le32(s, i)
  {
  }

  // Shifting right and left again drops the low bits.
  lemma ShlOfQuot(x: nat, n: nat)
    ensures Shl(Quot(x, Pow2(n)), n) + Rem(x, Pow2(n)) == x
  {
    QuotIsDiv(x, Pow2(n));
    ShlIsTimes(Quot(x, Pow2(n)), n);
  }

  lemma {:induction false} ShlAdd(x: nat, y: nat, n: nat)
    ensures Shl(x + y, n) == Shl(x, n) + Shl(y, n)
    decreases n
  {
    if n > 0 { ShlAdd(2 * x, 2 * y, n - 1); }
  }

  // Filling up to the next multiple leaves no remainder.
  lemma {:induction false} RemFilled(n: nat, d: nat)
    requires d > 0 && Rem(n, d) != 0
    ensures Rem(n + (d - Rem(n, d)), d) == 0
  {
    if n >= d { RemFilled(n - d, d); }
    else { assert Rem(d, d) == Rem(0, d); }
  }
}
