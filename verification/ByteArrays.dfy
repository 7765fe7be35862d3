/** Words and halfwords in byte buffers. */
module ByteArrays {
  import opened Bits

  type Bytes = seq<u8>

  function WordsBytes(ws: seq<u32>): (b: Bytes)
    ensures |b| == 4 * |ws|
  {
    if ws == [] then [] else Word(ws[0]) + WordsBytes(ws[1..])
  }

  lemma {:induction false} WordsAt(ws: seq<u32>, k: nat)
    requires k < |ws|
    ensures WordsBytes(ws)[4 * k..4 * k + 4] == Word(ws[k])
  {
    if k > 0 {
      WordsAt(ws[1..], k - 1);
      assert WordsBytes(ws)[4 * k..4 * k + 4] == WordsBytes(ws[1..])[4 * (k - 1)..4 * (k - 1) + 4];
    }
  }

  lemma {:induction false} WordsUpdated(ws: seq<u32>, k: nat, x: u32)
    requires k < |ws|
    ensures var b := WordsBytes(ws); WordsBytes(ws[k := x]) == b[..4 * k] + Word(x) + b[4 * k + 4..]
  {
    if k == 0 {
      assert ws[0 := x][1..] == ws[1..];
    } else {
      WordsUpdated(ws[1..], k - 1, x);
      assert ws[k := x][1..] == ws[1..][k - 1 := x];
    }
  }

  lemma WordRead(s: Bytes, i: nat, x: u32)
    requires i + 4 <= |s| && s[i..i + 4] == Word(x)
    ensures Le32(s, i) == x
  {
    Le32Slice(s, i);
    WordRoundTrip(x);
  }

  lemma SliceOfSlice(s: Bytes, i: nat, j: nat, a: nat, b: nat)
    requires i <= j <= |s| && a <= b <= j - i
    ensures s[i..j][a..b] == s[i + a..i + b]
  {
    var t := s[i..j];
    forall k | 0 <= k < b - a ensures t[a..b][k] == s[i + a..i + b][k] {
      assert t[a + k] == s[i + (a + k)];
    }
    assert |t[a..b]| == |s[i + a..i + b]|;
  }

  function Half(x: u16): (b: Bytes)
    ensures |b| == 2
  {
    [x % 0x100, x / 0x100]
  }

  function Le16(s: Bytes, i: nat): u16
    requires i + 2 <= |s|
  {
    s[i] as int + 0x100 * s[i + 1] as int
  }

  lemma HalfRead(s: Bytes, i: nat, x: u16)
    requires i + 2 <= |s| && s[i..i + 2] == Half(x)
    ensures Le16(s, i) == x
  {
    assert s[i] == s[i..i + 2][0] && s[i + 1] == s[i..i + 2][1];
  }

  // memcpy.
  method PutBytes(buf: array<u8>, i: nat, data: Bytes)
    requires i + |data| <= buf.Length
    modifies buf
    ensures buf[..] == old(buf[..])[..i] + data + old(buf[..])[i + |data|..]
  {
    forall k | 0 <= k < |data| { buf[i + k] := data[k]; }
  }
}
