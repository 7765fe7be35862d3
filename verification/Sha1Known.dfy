/** SHA-1 of "abc", the first example of the standard, worked out word by word. */
module Sha1Known {
  import Bits
  import opened Fips180

  // ----- generic steps -----

  // The words of eight rounds from t on, the first n of them done.
  function Eight(s: State, ws: seq<Word>, t: nat, n: nat): State
    requires n <= |ws|
  {
    if n == 0 then s else Round(Eight(s, ws, t, n - 1), F(t + n - 1), K(t + n - 1), ws[n - 1])
  }

  lemma {:induction false} RoundsFrom(s0: State, w: seq<Word>, t: nat, s: State, ws: seq<Word>, n: nat)
    requires n <= |ws| && t + n <= |w| && (forall i :: 0 <= i < n ==> w[t + i] == ws[i]) && Rounds(s0, w, t) == s
    ensures Rounds(s0, w, t + n) == Eight(s, ws, t, n)
  {
    if n > 0 { RoundsFrom(s0, w, t, s, ws, n - 1); }
  }

  function Of(a: seq<Word>, b: seq<Word>, i: nat): Word
    requires |a| == |b| == 8 && i < 16
  {
    if i < 8 then a[i] else b[i - 8]
  }

  // The first n words of c come from the sixteen before them, a and b.
  predicate Follow(a: seq<Word>, b: seq<Word>, c: seq<Word>, n: nat)
    requires |a| == |b| == |c| == 8 && n <= 8
  {
    n == 0 || (Follow(a, b, c, n - 1)
               && c[n - 1] == Rotl1(Of(b, c, n + 4) ^ Of(a, b, n + 7) ^ Of(a, b, n + 1) ^ Of(a, b, n - 1)))
  }

  // Words t to t + 8 of w.
  ghost predicate RowIs(w: seq<Word>, t: nat, a: seq<Word>)
  {
    |a| == 8 && t + 8 <= |w| && forall i :: 0 <= i < 8 ==> w[t + i] == a[i]
  }

  lemma WordsBefore(w: seq<Word>, t: nat, a: seq<Word>, b: seq<Word>, c: seq<Word>, n: nat)
    requires 16 <= t && t + 8 <= |w| && 0 < n <= 8 && |c| == 8 && RowIs(w, t - 16, a) && RowIs(w, t - 8, b)
    requires forall i :: 0 <= i < n - 1 ==> w[t + i] == c[i]
    ensures var u := t + n - 1;
      w[u - 3] == Of(b, c, n + 4) && w[u - 8] == Of(a, b, n + 7) && w[u - 14] == Of(a, b, n + 1)
      && w[u - 16] == Of(a, b, n - 1)
  {
    assert n >= 4 ==> w[t + (n - 4)] == c[n - 4];
    assert n < 4 ==> w[t - 8 + (n + 4)] == b[n + 4];
    assert w[t - 8 + (n - 1)] == b[n - 1];
    assert n >= 7 ==> w[t - 8 + (n - 7)] == b[n - 7];
    assert n < 7 ==> w[t - 16 + (n + 1)] == a[n + 1];
    assert w[t - 16 + (n - 1)] == a[n - 1];
  }

  lemma TurnOf(w: seq<Word>, u: nat, a: Word, b: Word, c: Word, d: Word)
    requires 16 <= u < |w| && w[u - 3] == a && w[u - 8] == b && w[u - 14] == c && w[u - 16] == d
    ensures Rotl1(w[u - 3] ^ w[u - 8] ^ w[u - 14] ^ w[u - 16]) == Rotl1(a ^ b ^ c ^ d)
  {
  }

  lemma {:induction false} RowFollows(block: seq<Word>, t: nat, a: seq<Word>, b: seq<Word>, c: seq<Word>, n: nat)
    requires |block| == 16 && 16 <= t <= 72 && n <= 8 && |c| == 8
    requires RowIs(Schedule(block), t - 16, a) && RowIs(Schedule(block), t - 8, b) && Follow(a, b, c, n)
    ensures forall i :: 0 <= i < n ==> Schedule(block)[t + i] == c[i]
  {
    if n > 0 {
      RowFollows(block, t, a, b, c, n - 1);
      NextWord(block, t, a, b, c, n);
    }
  }

  lemma NextWord(block: seq<Word>, t: nat, a: seq<Word>, b: seq<Word>, c: seq<Word>, n: nat)
    requires |block| == 16 && 16 <= t <= 72 && 0 < n <= 8 && |c| == 8
    requires RowIs(Schedule(block), t - 16, a) && RowIs(Schedule(block), t - 8, b) && Follow(a, b, c, n)
    requires forall i :: 0 <= i < n - 1 ==> Schedule(block)[t + i] == c[i]
    ensures Schedule(block)[t + n - 1] == c[n - 1]
  {
    ScheduleAt(block, t + n - 1);
    WordsBefore(Schedule(block), t, a, b, c, n);
    TurnOf(Schedule(block), t + n - 1, Of(b, c, n + 4), Of(a, b, n + 7), Of(a, b, n + 1), Of(a, b, n - 1));
  }

  // Eight rounds on, with the next eight words.
  lemma RoundsRow(s0: State, w: seq<Word>, t: nat, a: seq<Word>, s: State, r: State)
    requires RowIs(w, t, a) && Rounds(s0, w, t) == s && Eight(s, a, t, 8) == r
    ensures Rounds(s0, w, t + 8) == r
  {
    RoundsFrom(s0, w, t, s, a, 8);
  }

  // ----- the eighty words and the registers after every eight rounds -----

  const ROW0: seq<Word> := [0x61626380, 0x00000000, 0x00000000, 0x00000000,
      0x00000000, 0x00000000, 0x00000000, 0x00000000]
  const ROW1: seq<Word> := [0x00000000, 0x00000000, 0x00000000, 0x00000000,
      0x00000000, 0x00000000, 0x00000000, 0x00000018]
  const ROW2: seq<Word> := [0xc2c4c700, 0x00000000, 0x00000030, 0x85898e01,
      0x00000000, 0x00000060, 0x0b131c03, 0x00000030]
  const ROW3: seq<Word> := [0x85898ec1, 0x16263806, 0x00000000, 0x00000180,
      0x2c4c700c, 0x000000f0, 0x93afb507, 0x5898e048]
  const ROW4: seq<Word> := [0x8e9a9202, 0x00000600, 0xb131c0f0, 0x16263bc6,
      0x4ebed41e, 0x626380a1, 0x16263806, 0x000018c0]
  const ROW5: seq<Word> := [0xd2e138c4, 0x00000f00, 0x3afb5079, 0x898e04e5,
      0xe2ba3c2b, 0x000060c0, 0x053a37cd, 0x74458547]
  const ROW6: seq<Word> := [0xda9415ed, 0x26380a16, 0x626383a1, 0x4ebf54de,
      0x3835b44b, 0x0000f600, 0x1e84c7a3, 0x98e04d98]
  const ROW7: seq<Word> := [0x651d16a0, 0x62658ca1, 0x458544d6, 0x44584cb7,
      0x7ba06619, 0x6380aea2, 0x0ae55269, 0x627b49a1]
  const ROW8: seq<Word> := [0x7cd45c9d, 0x000f0000, 0xfb50753a, 0xec6765e8,
      0xba3c2be2, 0x0060c000, 0x3a37cd05, 0x458546f4]
  const ROW9: seq<Word> := [0xb8599dd6, 0x380a1a26, 0x01e02203, 0xe7cc3456,
      0xe6e60b69, 0x00f60a00, 0x5795ef4f, 0x822e0879]

  const STATE8 := State(0x9e8c07d4, 0x993e30c1, 0x0ff1f290, 0xb3f52677, 0xf3763846)
  const STATE16 := State(0x20bdd62f, 0x196bee77, 0x644a3da5, 0x1181ed99, 0x18c623f9)
  const STATE24 := State(0xd541f12d, 0x21283486, 0x0ce88eff, 0x868dec32, 0x7f67875f)
  const STATE32 := State(0x3b845d33, 0x1267b407, 0x717eebd7, 0xa0dc2d4b, 0xd2aa1365)
  const STATE40 := State(0x32de1cba, 0x4c986405, 0xf718e5cf, 0x03d447f6, 0xf72eec32)
  const STATE48 := State(0xbead02ca, 0xa01b846c, 0x8714787c, 0x503ca382, 0xfb86c6ab)
  const STATE56 := State(0x5e6456af, 0x7b71f76d, 0x09fa7c76, 0x792410db, 0x8e11eb59)
  const STATE64 := State(0x6b61c9e1, 0xb66c020b, 0x9523272c, 0xf5d5b051, 0x8fd4b796)
  const STATE72 := State(0x39859de7, 0xc199f8c7, 0x8fc96230, 0x125c24f0, 0xde37534a)
  const STATE80 := State(0x42541b35, 0x5738d5e1, 0x21834873, 0x681e6df6, 0xd8fdf6ad)

  lemma LowRows()
    ensures Follow(ROW0, ROW1, ROW2, 8) && Follow(ROW1, ROW2, ROW3, 8)
    ensures Follow(ROW2, ROW3, ROW4, 8) && Follow(ROW3, ROW4, ROW5, 8)
  {
  }

  lemma HighRows()
    ensures Follow(ROW4, ROW5, ROW6, 8) && Follow(ROW5, ROW6, ROW7, 8)
    ensures Follow(ROW6, ROW7, ROW8, 8) && Follow(ROW7, ROW8, ROW9, 8)
  {
  }

  lemma Run1()
    ensures Eight(INITIAL, ROW0, 0, 8) == STATE8 && Eight(STATE8, ROW1, 8, 8) == STATE16
  {
  }

  lemma Run2()
    ensures Eight(STATE16, ROW2, 16, 8) == STATE24 && Eight(STATE24, ROW3, 24, 8) == STATE32
  {
  }

  lemma Run3()
    ensures Eight(STATE32, ROW4, 32, 8) == STATE40 && Eight(STATE40, ROW5, 40, 8) == STATE48
  {
  }

  lemma Run4()
    ensures Eight(STATE48, ROW6, 48, 8) == STATE56 && Eight(STATE56, ROW7, 56, 8) == STATE64
  {
  }

  lemma Run5()
    ensures Eight(STATE64, ROW8, 64, 8) == STATE72 && Eight(STATE72, ROW9, 72, 8) == STATE80
  {
  }

  // The message with its padding, in words.
  const BLOCK: seq<Word> := [0x61626380, 0, 0, 0, 0, 0, 0, 0, 0, 0, 0, 0, 0, 0, 0, 24]

  lemma FirstRows(w: seq<Word>)
    requires BLOCK <= w
    ensures RowIs(w, 0, ROW0) && RowIs(w, 8, ROW1)
  {
    forall i | 0 <= i < 8 ensures w[i] == ROW0[i] && w[8 + i] == ROW1[i] {
      assert w[i] == BLOCK[i] && w[8 + i] == BLOCK[8 + i];
    }
  }

  lemma NextRow(t: nat, a: seq<Word>, b: seq<Word>, c: seq<Word>)
    requires 16 <= t <= 72 && |c| == 8
    requires RowIs(Schedule(BLOCK), t - 16, a) && RowIs(Schedule(BLOCK), t - 8, b) && Follow(a, b, c, 8)
    ensures RowIs(Schedule(BLOCK), t, c)
  {
    RowFollows(BLOCK, t, a, b, c, 8);
  }

  lemma ScheduleRows()
    ensures var w := Schedule(BLOCK);
      && RowIs(w, 0, ROW0) && RowIs(w, 8, ROW1) && RowIs(w, 16, ROW2) && RowIs(w, 24, ROW3) && RowIs(w, 32, ROW4)
      && RowIs(w, 40, ROW5) && RowIs(w, 48, ROW6) && RowIs(w, 56, ROW7) && RowIs(w, 64, ROW8) && RowIs(w, 72, ROW9)
  {
    FirstRows(Schedule(BLOCK));
    LowRows();
    HighRows();
    NextRow(16, ROW0, ROW1, ROW2);
    NextRow(24, ROW1, ROW2, ROW3);
    NextRow(32, ROW2, ROW3, ROW4);
    NextRow(40, ROW3, ROW4, ROW5);
    NextRow(48, ROW4, ROW5, ROW6);
    NextRow(56, ROW5, ROW6, ROW7);
    NextRow(64, ROW6, ROW7, ROW8);
    NextRow(72, ROW7, ROW8, ROW9);
  }

  lemma FirstRounds(w: seq<Word>)
    requires RowIs(w, 0, ROW0) && RowIs(w, 8, ROW1) && RowIs(w, 16, ROW2)
    requires RowIs(w, 24, ROW3) && RowIs(w, 32, ROW4) && RowIs(w, 40, ROW5)
    ensures Rounds(INITIAL, w, 48) == STATE48
  {
    Run1();
    RoundsRow(INITIAL, w, 0, ROW0, INITIAL, STATE8);
    RoundsRow(INITIAL, w, 8, ROW1, STATE8, STATE16);
    Run2();
    RoundsRow(INITIAL, w, 16, ROW2, STATE16, STATE24);
    RoundsRow(INITIAL, w, 24, ROW3, STATE24, STATE32);
    Run3();
    RoundsRow(INITIAL, w, 32, ROW4, STATE32, STATE40);
    RoundsRow(INITIAL, w, 40, ROW5, STATE40, STATE48);
  }

  lemma LastRounds(w: seq<Word>)
    requires RowIs(w, 48, ROW6) && RowIs(w, 56, ROW7) && RowIs(w, 64, ROW8)
    requires RowIs(w, 72, ROW9)
    requires Rounds(INITIAL, w, 48) == STATE48
    ensures Rounds(INITIAL, w, 80) == STATE80
  {
    Run4();
    RoundsRow(INITIAL, w, 48, ROW6, STATE48, STATE56);
    RoundsRow(INITIAL, w, 56, ROW7, STATE56, STATE64);
    Run5();
    RoundsRow(INITIAL, w, 64, ROW8, STATE64, STATE72);
    RoundsRow(INITIAL, w, 72, ROW9, STATE72, STATE80);
  }

  lemma Compressed()
    ensures Compress(INITIAL, BLOCK) == State(0xa9993e36, 0x4706816a, 0xba3e2571, 0x7850c26c, 0x9cd0d89d)
  {
    ScheduleRows();
    FirstRounds(Schedule(BLOCK));
    LastRounds(Schedule(BLOCK));
  }

  // ----- from bytes to bytes -----

  lemma PaddedAbc()
    ensures var m: seq<Byte> := [0x61, 0x62, 0x63];
      |m + Padding(3)| == 64 && Words(m + Padding(3)) == BLOCK
  {
    var m: seq<Byte> := [0x61, 0x62, 0x63];
    var p := m + Padding(3);
    assert p[0] == 0x61 && p[1] == 0x62 && p[2] == 0x63 && p[3] == 0x80;
    assert forall i :: 4 <= i < 56 ==> p[i] == 0;
    assert WordBytes(0) == [0, 0, 0, 0] && WordBytes(24) == [0, 0, 0, 24];
    assert forall i :: 56 <= i < 63 ==> p[i] == 0;
    assert p[63] == 24;
    assert BigEndian(0x61, 0x62, 0x63, 0x80) == 0x61626380;
    assert BigEndian(0, 0, 0, 0) == 0 && BigEndian(0, 0, 0, 24) == 24;
  }

  // The length in bits stands in two words, the upper one first.
  lemma LengthInBits(n: nat, high: Bits.u32, low: Bits.u32)
    requires high * 0x1_0000_0000 + low == 8 * n && n < MAX_LENGTH
    ensures LengthWords(n) == [high as bv32, low as bv32]
  {
    Bits.DivModUnique(8 * n, 0x1_0000_0000, high, low);
  }

  lemma OneBlock(bytes: seq<Byte>)
    requires |bytes| == 64
    ensures HashBlocks(bytes) == Compress(INITIAL, Words(bytes))
  {
    HashOneMore([], bytes);
    assert [] + bytes == bytes;
  }

  lemma DigestBytes()
    ensures Digest(State(0xa9993e36, 0x4706816a, 0xba3e2571, 0x7850c26c, 0x9cd0d89d))
         == [0xa9, 0x99, 0x3e, 0x36, 0x47, 0x06, 0x81, 0x6a, 0xba, 0x3e,
             0x25, 0x71, 0x78, 0x50, 0xc2, 0x6c, 0x9c, 0xd0, 0xd8, 0x9d]
  {
  }

  /** The digest of "abc". */
  lemma AbcDigest()
    ensures Sha1([0x61, 0x62, 0x63])
         == [0xa9, 0x99, 0x3e, 0x36, 0x47, 0x06, 0x81, 0x6a, 0xba, 0x3e,
             0x25, 0x71, 0x78, 0x50, 0xc2, 0x6c, 0x9c, 0xd0, 0xd8, 0x9d]
  {
    var m: seq<Byte> := [0x61, 0x62, 0x63];
    PaddedAbc();
    OneBlock(m + Padding(3));
    Compressed();
    DigestBytes();
  }
}
