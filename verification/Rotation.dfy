/** The block exchange of getopt_long: two neighbouring blocks of an array change
    places through gcd-many interleaved cycles of swaps. */
module Rotation {
  import opened Bits

  // Euclid's algorithm, the reference for the loop below.
  function Gcd(a: nat, b: nat): nat
    decreases b
  {
    if b == 0 then a else Gcd(b, a % b)
  }

  method ComputeGcd(a0: nat, b0: nat) returns (g: nat)
    requires b0 > 0
    ensures g == Gcd(a0, b0)
  {
    var a, b := a0, b0;
    var c := a % b;
    while c != 0
      invariant b > 0 && c == a % b && Gcd(b, c) == Gcd(a0, b0)
      decreases c
    {
      a := b;
      b := c;
      c := a % b;
    }
    g := b;
  }

  // The cofactors of a gcd, and a combination of the operands that yields it.
  lemma {:induction false} Bezout(a: nat, b: nat) returns (u: nat, v: nat, x: int, y: int)
    requires a > 0 || b > 0
    ensures var g := Gcd(a, b); g > 0 && a == g * u && b == g * v && g == x * a + y * b
    decreases b
  {
    var g := Gcd(a, b);
    if b == 0 {
      u, v, x, y := 1, 0, 1, 0;
    } else {
      var q, r := a / b, a % b;
      var u', v', x', y' := Bezout(b, r);
      u, v, x, y := q * u' + v', u', y', x' - y' * q;
      BezoutStep(g, a, b, q, r, u', v', x', y');
    }
  }

  lemma BezoutStep(g: int, a: int, b: int, q: int, r: int, u: int, v: int, x: int, y: int)
    requires a == q * b + r && b == g * u && r == g * v && g == x * b + y * r
    ensures a == g * (q * u + v) && g == y * a + (x - y * q) * b
  {
    assert q * (g * u) == g * (q * u);
    assert y * a == y * (q * b) + y * r;
    assert (y * q) * b == y * (q * b);
    assert (x - y * q) * b == x * b - (y * q) * b;
  }

  // One cycle visits u + v rows; each step goes u rows back, cyclically.
  function Back(t: nat, u: nat, v: nat): nat
  {
    if t >= u then t - u else t + v
  }

  function Orbit(u: nat, v: nat, j: nat): (t: nat)
    requires v > 0
    ensures t < u + v
  {
    if j == 0 then u else Back(Orbit(u, v, j - 1), u, v)
  }

  ghost function Wraps(u: nat, v: nat, j: nat): int
    requires v > 0
  {
    if j == 0 then 0 else Wraps(u, v, j - 1) + (if Orbit(u, v, j - 1) >= u then 0 else 1)
  }

  lemma {:induction false} OrbitClosed(u: nat, v: nat, j: nat)
    requires v > 0
    ensures Orbit(u, v, j) == u - j * u + Wraps(u, v, j) * (u + v)
  {
    if j > 0 {
      OrbitClosed(u, v, j - 1);
      OneMore(j - 1, u);
      OneMore(Wraps(u, v, j - 1), u + v);
    } else {
      assert 0 * u == 0 && 0 * (u + v) == 0;
    }
  }

  lemma OneMore(k: int, x: int)
    ensures (k + 1) * x == k * x + x
  {
  }

  // No multiple of n lies strictly between 0 and n.
  lemma NoMultiple(d: int, n: int, z: int)
    requires d == n * z && -n < d < n && n > 0
    ensures d == 0
  {
    if z >= 1 { MulMonotone(1, z, n); }
    if z <= -1 { MulMonotone(z, -1, n); }
  }

  lemma OrbitInjective(u: nat, v: nat, x: int, y: int, j: nat, k: nat)
    requires v > 0 && x * u + y * v == 1 && j < k && k - j < u + v
    ensures Orbit(u, v, j) != Orbit(u, v, k)
  {
    if Orbit(u, v, j) == Orbit(u, v, k) {
      OrbitClosed(u, v, j);
      OrbitClosed(u, v, k);
      var d, w := k - j, Wraps(u, v, k) - Wraps(u, v, j);
      assert d * u == w * (u + v) by {
        assert k * u - j * u == (k - j) * u;
        assert Wraps(u, v, k) * (u + v) - Wraps(u, v, j) * (u + v) == w * (u + v);
      }
      CoprimeMultiple(u, v, x, y, d, w);
      NoMultiple(d, u + v, x * w + y * (d - w));
    }
  }

  lemma CoprimeMultiple(u: int, v: int, x: int, y: int, d: int, w: int)
    requires x * u + y * v == 1 && d * u == w * (u + v)
    ensures d == (u + v) * (x * w + y * (d - w))
  {
    var n := u + v;
    assert d * v == (d - w) * n by {
      assert d * v == d * n - d * u;
      assert (d - w) * n == d * n - w * n;
    }
    calc {
      d;
      d * (x * u + y * v);
      { assert d * (x * u) == x * (d * u) && d * (y * v) == y * (d * v); }
      x * (d * u) + y * (d * v);
      x * (w * n) + y * ((d - w) * n);
      { assert x * (w * n) == n * (x * w) && y * ((d - w) * n) == n * (y * (d - w)); }
      n * (x * w) + n * (y * (d - w));
      n * (x * w + y * (d - w));
    }
  }

  // Every row is visited within one cycle.
  lemma OrbitReaches(u: nat, v: nat, x: int, y: int, t: nat) returns (j: nat)
    requires v > 0 && x * u + y * v == 1 && t < u + v
    ensures 1 <= j <= u + v && Orbit(u, v, j) == t
  {
    var n, z := u + v, 1 - t * (x - y);
    var q;
    q, j := PositiveRest(z, n);
    OrbitClosed(u, v, j);
    RowOfStep(u, v, x, y, t, z, q, j);
    var w := Wraps(u, v, j);
    FactorOut(n, w, q * u, t * y);
    NoMultiple(Orbit(u, v, j) - t, n, w + q * u - t * y);
  }

  lemma FactorOut(n: int, a: int, b: int, c: int)
    ensures n * (a + b - c) == a * n + n * b - n * c
  {
  }

  // Division with a remainder from 1 to n.
  lemma PositiveRest(z: int, n: nat) returns (q: int, j: nat)
    requires n > 0
    ensures z == q * n + j && 1 <= j <= n
  {
    q, j := z / n, z % n;
    assert z == q * n + j;
    if j == 0 {
      q, j := q - 1, n;
      assert q * n == (q + 1) * n - n;
    }
  }

  lemma RowOfStep(u: int, v: int, x: int, y: int, t: int, z: int, q: int, j: int)
    requires x * u + y * v == 1 && z == 1 - t * (x - y) && z == q * (u + v) + j
    ensures u - j * u == t + (u + v) * (q * u) - (u + v) * (t * y)
  {
    var n := u + v;
    assert (x - y) * u == 1 - y * n by {
      assert (x - y) * u == x * u - y * u;
      assert y * n == y * u + y * v;
    }
    calc {
      u - j * u;
      (1 - j) * u;
      (1 - z + q * n) * u;
      { assert (1 - z + q * n) * u == (1 - z) * u + (q * n) * u; }
      (1 - z) * u + (q * n) * u;
      { assert (1 - z) * u == (t * (x - y)) * u == t * ((x - y) * u); }
      t * (1 - y * n) + (q * n) * u;
      { assert t * (1 - y * n) == t - t * (y * n); assert t * (y * n) == n * (t * y);
        assert (q * n) * u == n * (q * u); }
      t + n * (q * u) - n * (t * y);
    }
  }

  lemma OrbitCloses(u: nat, v: nat, x: int, y: int)
    requires v > 0 && x * u + y * v == 1
    ensures Orbit(u, v, u + v) == u
  {
    var j := OrbitReaches(u, v, x, y, u);
    if j < u + v { OrbitInjective(u, v, x, y, 0, j); }
  }

  // Row t of column i in a table of g columns.
  function At(g: nat, i: nat, t: nat): nat
  {
    if t == 0 then i else g + At(g, i, t - 1)
  }

  lemma {:induction false} AtTimes(g: nat, i: nat, t: nat)
    ensures At(g, i, t) == i + g * t
  {
    if t > 0 {
      AtTimes(g, i, t - 1);
      assert g * t == g * (t - 1) + g;
    }
  }

  lemma {:induction false} AtAdd(g: nat, i: nat, t: nat, k: nat)
    ensures At(g, i, t + k) == At(g, i, t) + At(g, 0, k)
  {
    if k > 0 {
      AtAdd(g, i, t, k - 1);
    }
  }

  lemma {:induction false} AtCell(g: nat, i: nat, t: nat)
    requires i < g
    ensures Rem(At(g, i, t), g) == i && Quot(At(g, i, t), g) == t
  {
    if t > 0 { AtCell(g, i, t - 1); }
  }

  lemma {:induction false} AtOf(g: nat, r: nat)
    requires g > 0
    ensures At(g, Rem(r, g), Quot(r, g)) == r
  {
    if r >= g { AtOf(g, r - g); }
  }

  // A column that starts before the block boundary row u stays before it.
  lemma {:induction false} AtBelow(g: nat, i: nat, t: nat, u: nat)
    requires i < g && t < u
    ensures At(g, i, t) < At(g, 0, u)
    decreases t
  {
    if t > 0 { AtBelow(g, i, t - 1, u - 1); }
  }

  /** The two blocks [s, e) and [e, o), as u and v rows of g columns with u and v
      coprime (x and y witness it). */
  datatype Ring = Ring(s: nat, e: nat, o: nat, g: nat, u: nat, v: nat, x: int, y: int)
  {
    ghost predicate Valid()
    {
      && s < e < o && g > 0 && u > 0 && v > 0
      && e - s == At(g, 0, u) && o - e == At(g, 0, v)
      && x * u + y * v == 1
    }

    // Where the element that ends up at offset r comes from.
    function Source(r: nat): int
    {
      if r < o - e then r + (e - s) else r - (o - e)
    }
  }

  ghost predicate Visited(u: nat, v: nat, t: nat, j: nat)
    requires v > 0
  {
    exists k :: 1 <= k <= j && Orbit(u, v, k) == t
  }

  // The element at p after j steps of cycle i.
  ghost function Element<T>(before: seq<T>, ring: Ring, p: nat, i: nat, j: nat): T
    requires ring.Valid() && ring.s <= p < ring.o <= |before| && i <= ring.g
  {
    var r := p - ring.s;
    var col, row := Rem(r, ring.g), Quot(r, ring.g);
    if col < i || (col == i && Visited(ring.u, ring.v, row, j)) then
      before[ring.s + ring.Source(r)]
    else if col == i && row == ring.u then
      CarryInRange(ring, i, j);
      before[ring.s + At(ring.g, i, Orbit(ring.u, ring.v, j))]
    else before[p]
  }

  lemma RowsCover(ring: Ring, r: nat)
    requires ring.Valid() && r < ring.o - ring.s
    ensures Quot(r, ring.g) < ring.u + ring.v && Rem(r, ring.g) < ring.g
  {
    AtOf(ring.g, r);
    AtAdd(ring.g, 0, ring.u, ring.v);
    var t := Quot(r, ring.g);
    if t >= ring.u + ring.v {
      AtAdd(ring.g, Rem(r, ring.g), ring.u + ring.v, t - (ring.u + ring.v));
      AtAdd(ring.g, Rem(r, ring.g), 0, ring.u + ring.v);
    }
  }

  lemma CarryInRange(ring: Ring, i: nat, j: nat)
    requires ring.Valid() && i < ring.g
    ensures ring.s + At(ring.g, i, Orbit(ring.u, ring.v, j)) < ring.o
  {
    AtAdd(ring.g, 0, ring.u, ring.v);
    AtBelow(ring.g, i, Orbit(ring.u, ring.v, j), ring.u + ring.v);
  }

  ghost function Snapshot<T>(before: seq<T>, ring: Ring, i: nat, j: nat): (after: seq<T>)
    requires ring.Valid() && ring.o <= |before| && i <= ring.g
    ensures |after| == |before|
  {
    seq(|before|, p requires 0 <= p < |before| =>
      if ring.s <= p < ring.o then Element(before, ring, p, i, j) else before[p])
  }

  function Swapped<T>(a: seq<T>, p: nat, q: nat): (b: seq<T>)
    requires p < |a| && q < |a|
    ensures |b| == |a|
  {
    a[p := a[q]][q := a[p]]
  }

  // The position of step j of cycle i.
  ghost function Stop(ring: Ring, i: nat, j: nat): (p: nat)
    requires ring.Valid() && i < ring.g
    ensures ring.s <= p < ring.o
  {
    CarryInRange(ring, i, j);
    ring.s + At(ring.g, i, Orbit(ring.u, ring.v, j))
  }

  // The loop's move from one stop to the next.
  lemma NextStop(ring: Ring, i: nat, j: nat)
    requires ring.Valid() && i < ring.g
    ensures Stop(ring, i, j + 1) ==
      if Stop(ring, i, j) >= ring.e then Stop(ring, i, j) - (ring.e - ring.s) else Stop(ring, i, j) + (ring.o - ring.e)
    ensures ring.Source(Stop(ring, i, j + 1) - ring.s) == Stop(ring, i, j) - ring.s
  {
    var t := Orbit(ring.u, ring.v, j);
    if t >= ring.u {
      AtAdd(ring.g, i, t - ring.u, ring.u);
      AtBelow(ring.g, i, t - ring.u, ring.v);
    } else {
      AtAdd(ring.g, i, t, ring.v);
      AtBelow(ring.g, i, t, ring.u);
      AtAdd(ring.g, i, 0, t);
      AtAdd(ring.g, 0, t, ring.v);
    }
  }

  lemma CellOfStop(ring: Ring, i: nat, j: nat, p: nat)
    requires ring.Valid() && i < ring.g && ring.s <= p < ring.o
    ensures p == Stop(ring, i, j)
      <==> Rem(p - ring.s, ring.g) == i && Quot(p - ring.s, ring.g) == Orbit(ring.u, ring.v, j)
  {
    AtCell(ring.g, i, Orbit(ring.u, ring.v, j));
    AtOf(ring.g, p - ring.s);
  }

  lemma VisitedNext(u: nat, v: nat, t: nat, j: nat)
    requires v > 0
    ensures Visited(u, v, t, j + 1) <==> Visited(u, v, t, j) || t == Orbit(u, v, j + 1)
  {
  }

  // Step j + 1 reaches a row no earlier step reached, the start row only at the end.
  lemma FreshRow(ring: Ring, j: nat)
    requires ring.Valid() && j < ring.u + ring.v
    ensures !Visited(ring.u, ring.v, Orbit(ring.u, ring.v, j + 1), j)
    ensures !Visited(ring.u, ring.v, ring.u, j)
    ensures Orbit(ring.u, ring.v, j + 1) == ring.u <==> j + 1 == ring.u + ring.v
  {
    var u, v := ring.u, ring.v;
    forall k | 1 <= k <= j
      ensures Orbit(u, v, k) != Orbit(u, v, j + 1) && Orbit(u, v, k) != Orbit(u, v, 0)
    {
      OrbitInjective(u, v, ring.x, ring.y, k, j + 1);
      OrbitInjective(u, v, ring.x, ring.y, 0, k);
    }
    if j + 1 == u + v {
      OrbitCloses(u, v, ring.x, ring.y);
    } else {
      OrbitInjective(u, v, ring.x, ring.y, 0, j + 1);
    }
  }

  // Cells that step j + 1 does not touch.
  lemma ElementElsewhere<T>(before: seq<T>, ring: Ring, p: nat, i: nat, j: nat)
    requires ring.Valid() && ring.s <= p < ring.o <= |before| && i < ring.g
    requires p != Stop(ring, i, j + 1) && p != Stop(ring, i, 0)
    ensures Element(before, ring, p, i, j + 1) == Element(before, ring, p, i, j)
  {
    CellOfStop(ring, i, 0, p);
    CellOfStop(ring, i, j + 1, p);
    VisitedNext(ring.u, ring.v, Quot(p - ring.s, ring.g), j);
  }

  // The cell at the cycle's start carries the element of the last stop ...
  lemma ElementAtStart<T>(before: seq<T>, ring: Ring, i: nat, j: nat)
    requires ring.Valid() && ring.o <= |before| && i < ring.g && j < ring.u + ring.v
    ensures Element(before, ring, Stop(ring, i, 0), i, j) == before[Stop(ring, i, j)]
  {
    CellOfStop(ring, i, 0, Stop(ring, i, 0));
    FreshRow(ring, j);
  }

  // ... until it is visited itself, and a stop is untouched before its step.
  lemma ElementAtStop<T>(before: seq<T>, ring: Ring, i: nat, j: nat)
    requires ring.Valid() && ring.o <= |before| && i < ring.g && j < ring.u + ring.v
    ensures Element(before, ring, Stop(ring, i, j + 1), i, j + 1) == before[Stop(ring, i, j)]
    ensures Stop(ring, i, j + 1) != Stop(ring, i, 0) ==>
      && j + 1 < ring.u + ring.v
      && Element(before, ring, Stop(ring, i, j + 1), i, j) == before[Stop(ring, i, j + 1)]
  {
    var q := Stop(ring, i, j + 1);
    CellOfStop(ring, i, 0, q);
    CellOfStop(ring, i, j + 1, q);
    FreshRow(ring, j);
    VisitedNext(ring.u, ring.v, Orbit(ring.u, ring.v, j + 1), j);
    NextStop(ring, i, j);
  }

  lemma ElementStep<T>(before: seq<T>, ring: Ring, p: nat, i: nat, j: nat)
    requires ring.Valid() && ring.s <= p < ring.o <= |before| && i < ring.g && j < ring.u + ring.v
    ensures var q, c := Stop(ring, i, j + 1), Stop(ring, i, 0);
      Element(before, ring, p, i, j + 1) ==
        if p == c then Element(before, ring, q, i, j)
        else if p == q then Element(before, ring, c, i, j)
        else Element(before, ring, p, i, j)
  {
    var q, c := Stop(ring, i, j + 1), Stop(ring, i, 0);
    ElementAtStart(before, ring, i, j);
    ElementAtStop(before, ring, i, j);
    if p != c && p != q {
      ElementElsewhere(before, ring, p, i, j);
    } else if p != q {
      ElementAtStart(before, ring, i, j + 1);
    }
  }

  lemma SnapshotStep<T>(before: seq<T>, ring: Ring, i: nat, j: nat)
    requires ring.Valid() && ring.o <= |before| && i < ring.g && j < ring.u + ring.v
    ensures Snapshot(before, ring, i, j + 1)
      == Swapped(Snapshot(before, ring, i, j), Stop(ring, i, j + 1), Stop(ring, i, 0))
  {
    var now, next := Snapshot(before, ring, i, j), Snapshot(before, ring, i, j + 1);
    forall p | 0 <= p < |before|
      ensures next[p] == Swapped(now, Stop(ring, i, j + 1), Stop(ring, i, 0))[p]
    {
      if ring.s <= p < ring.o { ElementStep(before, ring, p, i, j); }
    }
  }

  // A finished column leaves the start of the next one.
  lemma ColumnDone<T>(before: seq<T>, ring: Ring, i: nat)
    requires ring.Valid() && ring.o <= |before| && i < ring.g
    ensures Snapshot(before, ring, i, ring.u + ring.v) == Snapshot(before, ring, i + 1, 0)
  {
    var n := ring.u + ring.v;
    forall p | ring.s <= p < ring.o
      ensures Element(before, ring, p, i, n) == Element(before, ring, p, i + 1, 0)
    {
      var r := p - ring.s;
      RowsCover(ring, r);
      var j := OrbitReaches(ring.u, ring.v, ring.x, ring.y, Quot(r, ring.g));
      assert Visited(ring.u, ring.v, Quot(r, ring.g), n);
      if i + 1 < ring.g { CellOfStop(ring, i + 1, 0, p); }
    }
  }

  lemma NothingMoved<T>(before: seq<T>, ring: Ring)
    requires ring.Valid() && ring.o <= |before|
    ensures Snapshot(before, ring, 0, 0) == before
  {
    forall p | ring.s <= p < ring.o
      ensures Element(before, ring, p, 0, 0) == before[p]
    {
      CellOfStop(ring, 0, 0, p);
    }
  }

  // The blocks [s, e) and [e, o) exchanged.
  function Exchanged<T>(a: seq<T>, s: nat, e: nat, o: nat): (b: seq<T>)
    requires s <= e <= o <= |a|
    ensures |b| == |a|
  {
    a[..s] + a[e..o] + a[s..e] + a[o..]
  }

  lemma AllMoved<T>(before: seq<T>, ring: Ring)
    requires ring.Valid() && ring.o <= |before|
    ensures Snapshot(before, ring, ring.g, 0) == Exchanged(before, ring.s, ring.e, ring.o)
  {
    var after := Exchanged(before, ring.s, ring.e, ring.o);
    forall p | 0 <= p < |before|
      ensures Snapshot(before, ring, ring.g, 0)[p] == after[p]
    {
      if ring.s <= p < ring.o { RowsCover(ring, p - ring.s); }
    }
  }

  lemma MakeRing(s: nat, e: nat, o: nat) returns (ring: Ring)
    requires s < e < o
    ensures ring.Valid() && ring.s == s && ring.e == e && ring.o == o
    ensures ring.g == Gcd(e - s, o - e) && (o - s) / ring.g == ring.u + ring.v
  {
    var n, m := e - s, o - e;
    var u, v, x, y := Bezout(n, m);
    var g := Gcd(n, m);
    AtTimes(g, 0, u);
    AtTimes(g, 0, v);
    CoprimeCofactors(g, n, m, u, v, x, y);
    ring := Ring(s, e, o, g, u, v, x, y);
    CycleLength(o - s, g, u, v);
  }

  lemma CycleLength(n: nat, g: nat, u: nat, v: nat)
    requires g > 0 && n == g * u + g * v
    ensures n / g == u + v
  {
    assert n == (u + v) * g + 0;
    DivModUnique(n, g, u + v, 0);
  }

  lemma CoprimeCofactors(g: nat, n: nat, m: nat, u: nat, v: nat, x: int, y: int)
    requires g > 0 && n > 0 && m > 0 && n == g * u && m == g * v && g == x * n + y * m
    ensures x * u + y * v == 1 && u > 0 && v > 0
  {
    var z := x * u + y * v;
    assert g * z == g by {
      assert g * z == g * (x * u) + g * (y * v);
      assert g * (x * u) == x * (g * u) && g * (y * v) == y * (g * v);
    }
    if z >= 2 { MulMonotone(2, z, g); }
    if z <= 0 { MulMonotone(z, 0, g); }
  }

  lemma FirstStop(ring: Ring, i: nat)
    requires ring.Valid() && i < ring.g
    ensures Stop(ring, i, 0) == ring.e + i
  {
    AtAdd(ring.g, i, 0, ring.u);
  }

  // One cycle of swaps through the cell at cstart.
  method RunCycle<T>(panonoptEnd: nat, nnonopts: nat, nopts: nat, cyclelen: nat, i: nat, nargv: array<T>,
                     ghost before: seq<T>, ghost ring: Ring)
    requires ring.Valid() && ring.o <= |before| && i < ring.g && nargv[..] == Snapshot(before, ring, i, 0)
    requires panonoptEnd == ring.e && nnonopts == ring.e - ring.s && nopts == ring.o - ring.e
    requires cyclelen == ring.u + ring.v
    modifies nargv
    ensures nargv[..] == Snapshot(before, ring, i + 1, 0)
  {
    var cstart := panonoptEnd + i;
    var pos := cstart;
    FirstStop(ring, i);
    for j := 0 to cyclelen
      invariant cstart == Stop(ring, i, 0) && pos == Stop(ring, i, j)
      invariant nargv[..] == Snapshot(before, ring, i, j)
    {
      NextStop(ring, i, j);
      if pos >= panonoptEnd {
        pos := pos - nnonopts;
      } else {
        pos := pos + nopts;
      }
      Swap(nargv, pos, cstart);
      SnapshotStep(before, ring, i, j);
    }
    ColumnDone(before, ring, i);
  }

  method PermuteArgs<T>(panonoptStart: nat, panonoptEnd: nat, optEnd: nat, nargv: array<T>)
    requires panonoptStart < panonoptEnd < optEnd <= nargv.Length
    modifies nargv
    ensures nargv[..] == Exchanged(old(nargv[..]), panonoptStart, panonoptEnd, optEnd)
  {
    var nnonopts := panonoptEnd - panonoptStart;
    var nopts := optEnd - panonoptEnd;
    var ncycle := ComputeGcd(nnonopts, nopts);
    ghost var ring := MakeRing(panonoptStart, panonoptEnd, optEnd);
    var cyclelen := (optEnd - panonoptStart) / ncycle;
    ghost var before := nargv[..];
    NothingMoved(before, ring);
    for i := 0 to ncycle
      invariant nargv[..] == Snapshot(before, ring, i, 0)
    {
      RunCycle(panonoptEnd, nnonopts, nopts, cyclelen, i, nargv, before, ring);
    }
    AllMoved(before, ring);
  }

  method Swap<T>(a: array<T>, p: nat, q: nat)
    requires p < a.Length && q < a.Length
    modifies a
    ensures a[..] == Swapped(old(a[..]), p, q)
  {
    var swap := a[p];
    a[p] := a[q];
    a[q] := swap;
  }
}
