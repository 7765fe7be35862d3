/** sha1_compile: eighty rounds over a circular schedule of sixteen words, with
    the five registers renamed instead of moved. */
module Sha1Compile {
  import opened Fips180

  function RotrBy27(x: Word): Word { (x >> 27) | (x << 5) }
  function RotrBy2(x: Word): Word { (x >> 2) | (x << 30) }

  // What a cycle leaves in its register e.
  function CycleSum(a: Word, f: Word, e: Word, k: Word, h: Word): Word { e + (a + f + k + h) }

  function FastCh(x: Word, y: Word, z: Word): Word { z ^ (x & (y ^ z)) }
  function FastMaj(x: Word, y: Word, z: Word): Word { (x & y) | (z & (x ^ y)) }

  ghost predicate Same(f: Mixing, g: Mixing)
  {
    forall x, y, z :: f(x, y, z) == g(x, y, z)
  }

  // The forms found by Schroeppel and Plumb are those of section 4.1.1.
  lemma FastForms()
    ensures Same(FastCh, Ch) && Same(FastMaj, Maj) && Same(Parity, Parity)
  {
    forall x: Word, y: Word, z: Word ensures FastCh(x, y, z) == Ch(x, y, z) { RawCh(x, y, z); }
    forall x: Word, y: Word, z: Word ensures FastMaj(x, y, z) == Maj(x, y, z) { RawMaj(x, y, z); }
  }

  // The next lemmas are about bits alone; written without function names they
  // are within the solver's reach.
  lemma RawCh(x: Word, y: Word, z: Word)
    ensures z ^ (x & (y ^ z)) == (x & y) ^ (!x & z)
  {
  }

  lemma RawMaj(x: Word, y: Word, z: Word)
    ensures (x & y) | (z & (x ^ y)) == (x & y) ^ (x & z) ^ (y & z)
  {
  }

  lemma RawSum(a5: Word, f: Word, e: Word, k: Word, w: Word)
    ensures e + (a5 + f + k + w) == a5 + f + e + k + w
  {
  }

  lemma RawTurns(a: Word, b: Word)
    ensures (a >> 27) | (a << 5) == (a << 5) | (a >> 27)
    ensures (b >> 2) | (b << 30) == (b << 30) | (b >> 2)
  {
  }

  lemma CycleIsT(a5: Word, f: Word, e: Word, k: Word, w: Word)
    ensures CycleSum(a5, f, e, k, w) == T(a5, f, e, k, w)
  {
    RawSum(a5, f, e, k, w);
  }

  // Rotations to the right are rotations to the left.
  lemma TurnsAreLeft(a: Word, b: Word)
    ensures RotrBy27(a) == Rotl5(a) && RotrBy2(b) == Rotl30(b)
  {
    RawTurns(a, b);
  }

  // The sixteen words hold the last sixteen of the schedule before t.
  ghost predicate Window(w: seq<Word>, ws: seq<Word>, t: nat)
  {
    && |w| == 16 && |ws| == 80 && t <= 80
    && if t < 16 then w == ws[..16] else forall u :: t - 16 <= u < t ==> w[u % 16] == ws[u]
  }

  lemma WindowMoves(w: seq<Word>, ws: seq<Word>, t: nat)
    requires 16 <= t < 80 && Window(w, ws, t)
    ensures Window(w[t % 16 := ws[t]], ws, t + 1)
    ensures w[(t + 13) % 16] == ws[t - 3] && w[(t + 8) % 16] == ws[t - 8]
    ensures w[(t + 2) % 16] == ws[t - 14] && w[t % 16] == ws[t - 16]
  {
    assert w[(t - 3) % 16] == ws[t - 3] && w[(t - 8) % 16] == ws[t - 8];
    assert w[(t - 14) % 16] == ws[t - 14] && w[(t - 16) % 16] == ws[t - 16];
  }

  // hf: a word of the block, and from round 16 on the next word of the schedule,
  // stored over the oldest one.
  method NextWord(w: array<Word>, i: nat, ghost block: seq<Word>) returns (h: Word)
    requires |block| == 16 && i < 80 && Window(w[..], Schedule(block), i)
    modifies w
    ensures h == Schedule(block)[i] && Window(w[..], Schedule(block), i + 1)
  {
    if i < 16 {
      return w[i];
    }
    WindowMoves(w[..], Schedule(block), i);
    ScheduleAt(block, i);
    h := Rotl1(w[(i + 13) % 16] ^ w[(i + 8) % 16] ^ w[(i + 2) % 16] ^ w[i % 16]);
    w[i % 16] := h;
    assert w[..] == old(w[..])[i % 16 := h];
  }

  ghost predicate Roles(v: array<Word>, a: nat, b: nat, c: nat, d: nat, e: nat)
  {
    && v.Length == 5 && a < 5 && b < 5 && c < 5 && d < 5 && e < 5
    && a != b && a != c && a != d && a != e && b != c && b != d && b != e && c != d && c != e && d != e
  }

  ghost function Registers(v: array<Word>, a: nat, b: nat, c: nat, d: nat, e: nat): State
    requires Roles(v, a, b, c, d, e)
    reads v
  {
    State(v[a], v[b], v[c], v[d], v[e])
  }

  lemma CycleIsRound(s: State, f: Mixing, g: Mixing, k: Word, h: Word)
    requires Same(f, g)
    ensures State(CycleSum(RotrBy27(s.a), f(s.b, s.c, s.d), s.e, k, h), s.a, RotrBy2(s.b), s.c, s.d)
      == Round(s, g, k, h)
  {
    CycleIsT(Rotl5(s.a), f(s.b, s.c, s.d), s.e, k, h);
    TurnsAreLeft(s.a, s.b);
  }

  method OneCycle(v: array<Word>, a: nat, b: nat, c: nat, d: nat, e: nat, f: Mixing, k: Word, h: Word,
                  ghost g: Mixing)
    requires Roles(v, a, b, c, d, e) && Same(f, g)
    modifies v
    ensures Registers(v, e, a, b, c, d) == Round(old(Registers(v, a, b, c, d, e)), g, k, h)
  {
    CycleIsRound(Registers(v, a, b, c, d, e), f, g, k, h);
    v[e] := CycleSum(RotrBy27(v[a]), f(v[b], v[c], v[d]), v[e], k, h);
    v[b] := RotrBy2(v[b]);
  }

  // The rounds before i are done, with the registers in these roles.
  ghost predicate DoneTo(v: array<Word>, a: nat, b: nat, c: nat, d: nat, e: nat, w: array<Word>, i: nat,
                         s: State, block: seq<Word>)
    reads v, w
  {
    && Roles(v, a, b, c, d, e) && v != w && |block| == 16 && i <= 80
    && Registers(v, a, b, c, d, e) == Rounds(s, Schedule(block), i)
    && Window(w[..], Schedule(block), i)
  }

  method CycleAt(v: array<Word>, a: nat, b: nat, c: nat, d: nat, e: nat, f: Mixing, k: Word, w: array<Word>, i: nat,
                 ghost s: State, ghost block: seq<Word>)
    requires i < 80 && DoneTo(v, a, b, c, d, e, w, i, s, block) && Same(f, F(i)) && k == K(i)
    modifies v, w
    ensures DoneTo(v, e, a, b, c, d, w, i + 1, s, block)
  {
    var h := NextWord(w, i, block);
    OneCycle(v, a, b, c, d, e, f, k, h, F(i));
  }

  // These n rounds from i on share their function and constant.
  ghost predicate Uses(f: Mixing, k: Word, i: nat, n: nat)
  {
    forall t {:trigger F(t)} {:trigger K(t)} :: i <= t < i + n ==> Same(f, F(t)) && k == K(t)
  }

  method FiveCycle(v: array<Word>, f: Mixing, k: Word, w: array<Word>, i: nat, ghost s: State, ghost block: seq<Word>)
    requires i + 5 <= 80 && DoneTo(v, 0, 1, 2, 3, 4, w, i, s, block) && Uses(f, k, i, 5)
    modifies v, w
    ensures DoneTo(v, 0, 1, 2, 3, 4, w, i + 5, s, block)
  {
    CycleAt(v, 0, 1, 2, 3, 4, f, k, w, i, s, block);
    CycleAt(v, 4, 0, 1, 2, 3, f, k, w, i + 1, s, block);
    CycleAt(v, 3, 4, 0, 1, 2, f, k, w, i + 2, s, block);
    CycleAt(v, 2, 3, 4, 0, 1, f, k, w, i + 3, s, block);
    CycleAt(v, 1, 2, 3, 4, 0, f, k, w, i + 4, s, block);
  }

  method TwentyRounds(v: array<Word>, f: Mixing, k: Word, w: array<Word>, i: nat, ghost s: State,
                      ghost block: seq<Word>)
    requires i + 20 <= 80 && DoneTo(v, 0, 1, 2, 3, 4, w, i, s, block) && Uses(f, k, i, 20)
    modifies v, w
    ensures DoneTo(v, 0, 1, 2, 3, 4, w, i + 20, s, block)
  {
    FiveCycle(v, f, k, w, i, s, block);
    FiveCycle(v, f, k, w, i + 5, s, block);
    FiveCycle(v, f, k, w, i + 10, s, block);
    FiveCycle(v, f, k, w, i + 15, s, block);
  }

  lemma Choices()
    ensures Uses(FastCh, 0x5a827999, 0, 20) && Uses(Parity, 0x6ed9eba1, 20, 20)
    ensures Uses(FastMaj, 0x8f1bbcdc, 40, 20) && Uses(Parity, 0xca62c1d6, 60, 20)
  {
    FastForms();
  }

  ghost function StateOf(hash: array<Word>): State
    requires hash.Length == 5
    reads hash
  {
    State(hash[0], hash[1], hash[2], hash[3], hash[4])
  }

  method CopyOf(hash: array<Word>) returns (v: array<Word>)
    requires hash.Length == 5
    ensures fresh(v) && v.Length == 5 && StateOf(v) == StateOf(hash)
  {
    v := new Word[5];
    v[0], v[1], v[2], v[3], v[4] := hash[0], hash[1], hash[2], hash[3], hash[4];
  }

  method FirstForty(v: array<Word>, wbuf: array<Word>, ghost s: State, ghost block: seq<Word>)
    requires DoneTo(v, 0, 1, 2, 3, 4, wbuf, 0, s, block)
    modifies v, wbuf
    ensures DoneTo(v, 0, 1, 2, 3, 4, wbuf, 40, s, block)
  {
    Choices();
    TwentyRounds(v, FastCh, 0x5a827999, wbuf, 0, s, block);
    TwentyRounds(v, Parity, 0x6ed9eba1, wbuf, 20, s, block);
  }

  method LastForty(v: array<Word>, wbuf: array<Word>, ghost s: State, ghost block: seq<Word>)
    requires DoneTo(v, 0, 1, 2, 3, 4, wbuf, 40, s, block)
    modifies v, wbuf
    ensures DoneTo(v, 0, 1, 2, 3, 4, wbuf, 80, s, block)
  {
    Choices();
    TwentyRounds(v, FastMaj, 0x8f1bbcdc, wbuf, 40, s, block);
    TwentyRounds(v, Parity, 0xca62c1d6, wbuf, 60, s, block);
  }

  lemma CompressedBy(s: State, block: seq<Word>, r: State)
    requires |block| == 16 && r == Rounds(s, Schedule(block), 80)
    ensures Compress(s, block) == s.Plus(r)
  {
  }

  // sha1_compile is the hash computation of section 6.1.2.
  method Compile(hash: array<Word>, wbuf: array<Word>)
    requires hash.Length == 5 && wbuf.Length == 16 && hash != wbuf
    modifies hash, wbuf
    ensures StateOf(hash) == Compress(old(StateOf(hash)), old(wbuf[..]))
  {
    ghost var s, block := StateOf(hash), wbuf[..];
    var v := CopyOf(hash);
    FirstForty(v, wbuf, s, block);
    LastForty(v, wbuf, s, block);
    CompressedBy(s, block, StateOf(v));
    AddInto(hash, v);
  }

  method AddInto(hash: array<Word>, v: array<Word>)
    requires hash.Length == 5 && v.Length == 5 && hash != v
    modifies hash
    ensures StateOf(hash) == old(StateOf(hash)).Plus(StateOf(v))
  {
    hash[0] := Add(hash[0], v[0]);
    hash[1] := Add(hash[1], v[1]);
    hash[2] := Add(hash[2], v[2]);
    hash[3] := Add(hash[3], v[3]);
    hash[4] := Add(hash[4], v[4]);
  }
}
