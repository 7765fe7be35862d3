/** The formatter's conversion of numbers to digits, with and without division. */
module Digits {
  import opened Bits

  predicate Base(b: nat) { b == 8 || b == 10 || b == 16 }

  // val / base and val % base, for the three bases in use.
  function Over(val: nat, base: nat): (q: nat)
    requires Base(base)
    ensures q <= val && (val > 0 ==> q < val)
  {
    if base == 8 then val / 8 else if base == 10 then val / 10 else val / 16
  }

  function LastDigit(val: nat, base: nat): (d: nat)
    requires Base(base)
    ensures d < base
  {
    if base == 8 then val % 8 else if base == 10 then val % 10 else val % 16
  }

  lemma OverDigit(val: nat, base: nat)
    requires Base(base)
    ensures val == base * Over(val, base) + LastDigit(val, base)
  {
  }

  // The character of a digit; caseAdj is 32 for lower case.
  function DigitChar(d: nat, caseAdj: nat): char
    requires d < 16 && caseAdj <= 32
  {
    ((if d < 10 then '0' as int else 'A' as int - 10 + caseAdj) + d) as char
  }

  // The digits of a number, the last one first.
  function Reversed(val: nat, base: nat, caseAdj: nat): (s: string)
    requires Base(base) && caseAdj <= 32
    ensures s != ""
    decreases val
  {
    var q := Over(val, base);
    [DigitChar(LastDigit(val, base), caseAdj)] + if q == 0 then "" else Reversed(q, base, caseAdj)
  }

  // A division by ten made of shifts, exact for every 32-bit number: the
  // estimate is at most one too small, and the remainder tells.
  method Div10(n: u32) returns (r: u32)
    ensures r == n / 10
  {
    var q := n / 2 + n / 4;
    q := q + q / 16;
    q := q + q / 256;
    q := q + q / 65536;
    q := q / 8;
    Estimate(n, q);
    Corrected(n, q);
    r := q + (n - q * 10 + 6) / 16;
  }

  lemma Estimate(n: u32, q: nat)
    requires var q0 := n as int / 2 + n as int / 4;
      var q1 := q0 + q0 / 16; var q2 := q1 + q1 / 256; var q3 := q2 + q2 / 65536; q == q3 / 8
    ensures 0 <= n - 10 * q < 20
  {
  }

  lemma Corrected(n: u32, q: nat)
    requires 0 <= n - 10 * q < 20
    ensures q + (n - q * 10 + 6) / 16 == n / 10
  {
  }

  lemma ReversedStep(v: nat, base: nat, caseAdj: nat, out: string)
    requires Base(base) && caseAdj <= 32
    ensures var q, d := Over(v, base), [DigitChar(LastDigit(v, base), caseAdj)];
      out + Reversed(v, base, caseAdj) == if q == 0 then out + d else out + d + Reversed(q, base, caseAdj)
  {
  }

  method UtoaRevEnd(val: u32, base: nat, caseAdj: nat, divisionFree: bool) returns (buf: string)
    requires Base(base) && caseAdj <= 32
    ensures buf == Reversed(val, base, caseAdj)
  {
    var v32: u32 := val;
    buf := "";
    var done := false;
    while !done
      invariant done ==> buf == Reversed(val, base, caseAdj)
      invariant !done ==> buf + Reversed(v32, base, caseAdj) == Reversed(val, base, caseAdj)
      decreases !done, v32
    {
      var d;
      ReversedStep(v32, base, caseAdj, buf);
      if divisionFree {
        v32, d := NextFree(v32, base);
      } else {
        v32, d := Over(v32, base), LastDigit(v32, base);
      }
      buf := buf + [DigitChar(d, caseAdj)];
      done := v32 == 0;
    }
  }

  // Quotient and digit without % and /.
  method NextFree(v32: u32, base: nat) returns (q: u32, d: nat)
    requires Base(base)
    ensures q == Over(v32, base) && d == LastDigit(v32, base)
  {
    if base == 10 {
      q := Div10(v32);
      d := v32 - q * 10;
    } else {
      MaskAndShift(v32, base);
      d := And(v32, base - 1);
      q := Quot(v32, Pow2((base + 16) / 8));
    }
  }

  lemma MaskAndShift(v: nat, base: nat)
    requires base == 8 || base == 16
    ensures And(v, base - 1) == LastDigit(v, base) && Quot(v, Pow2((base + 16) / 8)) == Over(v, base)
  {
    assert Pow2(3) == 8 && Pow2(4) == 16;
    AndLowMask(v, if base == 8 then 3 else 4);
    QuotIsDiv(v, base);
  }

  // At most eleven digits: the conversion buffer holds them and a prefix.
  lemma {:induction false} DigitCount(val: nat, base: nat, caseAdj: nat, n: nat)
    requires Base(base) && caseAdj <= 32 && val < Pow2(3 * n) && n > 0
    ensures |Reversed(val, base, caseAdj)| <= n
    decreases n
  {
    if Over(val, base) > 0 {
      if n == 1 { assert Pow2(3) == 8; }
      assert Pow2(3 * n) == 8 * Pow2(3 * (n - 1)) by {
        assert Pow2(3 * n) == 2 * Pow2(3 * n - 1) && Pow2(3 * n - 1) == 2 * Pow2(3 * n - 2);
      }
      DigitCount(Over(val, base), base, caseAdj, n - 1);
    }
  }
}
