/** psp-fixup-imports: the import headers of a module rebuilt from its stubs. */
module FixupImports {
  import opened Bits

  const JR_RA: u32 := 0x03e0_0008
  const NOP: u32 := 0

  // Words 0 to 4 of an import: name, flags, sizes with the function count in
  // the upper half, and the places of its first NID and its first stub.
  const RECORD := 5

  // Whose stub it is: the index of the import, or -1 for one already fixed.
  function Owner(text: seq<u32>, libAddr: u32, i: nat): int
    requires 2 * i + 1 < |text|
  {
    if text[2 * i] == JR_RA && text[2 * i + 1] == NOP then -1 else (text[2 * i] as int - libAddr) / 20
  }

  function Owners(text: seq<u32>, libAddr: u32, n: nat): (own: seq<int>)
    requires 2 * n <= |text|
    ensures |own| == n
  {
    seq(n, i requires 0 <= i < n => Owner(text, libAddr, i))
  }

  // The checks a stub has to pass.
  predicate Passes(text: seq<u32>, nids: seq<u32>, libAddr: u32, libSize: nat, i: nat)
    requires 2 * i + 1 < |text| && i < |nids|
  {
    var addr, nid := text[2 * i], text[2 * i + 1];
    (addr == JR_RA && nid == NOP) || (nid == nids[i] && Accepted(addr, libAddr, libSize))
  }

  // The check of a stub's address; the end of the section passes it.
  predicate Accepted(addr: u32, libAddr: u32, libSize: nat)
  {
    libAddr <= addr <= libAddr + libSize && addr % 4 == 0
  }

  predicate WholeImport(addr: u32, libAddr: u32, libSize: nat)
  {
    libAddr <= addr && (addr - libAddr) % 20 == 0 && addr + 20 <= libAddr + libSize
  }

  // The check alone is never enough: if it accepts any address at all, it
  // accepts one whose import would not lie in the section.
  lemma CheckNeverSuffices(libAddr: u32, libSize: nat)
    requires libAddr + libSize < WORD
    ensures (forall a: u32 :: Accepted(a, libAddr, libSize) ==> WholeImport(a, libAddr, libSize))
      <==> !exists a: u32 :: Accepted(a, libAddr, libSize)
  {
    if a: u32 :| Accepted(a, libAddr, libSize) {
      var last := libAddr + libSize - (libAddr + libSize) % 4;
      LastMultiple(a, libAddr + libSize, last);
      assert Accepted(last, libAddr, libSize) && !WholeImport(last, libAddr, libSize);
    }
  }

  lemma LastMultiple(a: nat, end: nat, last: nat)
    requires a <= end && a % 4 == 0 && last == end - end % 4
    ensures a <= last <= end < last + 4 && last % 4 == 0
  {
  }

  // A stub that passes points at a whole import.
  predicate OnRecord(text: seq<u32>, nids: seq<u32>, libAddr: u32, words: nat, i: nat)
    requires 2 * i + 1 < |text| && i < |nids|
  {
    var own := Owner(text, libAddr, i);
    Passes(text, nids, libAddr, 4 * words, i) && own != -1 ==>
      text[2 * i] as int == libAddr + 20 * own && RECORD * own + RECORD <= words
  }

  // That is so exactly when the stub fails the check, is fixed already, or its
  // address is a multiple of the import's size from the start of the section
  // and leaves room for an import before its end.
  lemma OnRecordIsWhole(text: seq<u32>, nids: seq<u32>, libAddr: u32, words: nat, i: nat)
    requires 2 * i + 1 < |text| && i < |nids|
    ensures OnRecord(text, nids, libAddr, words, i)
      <==> (Passes(text, nids, libAddr, 4 * words, i) && Owner(text, libAddr, i) != -1
            ==> WholeImport(text[2 * i], libAddr, 4 * words))
  {
    var addr := text[2 * i];
    if Passes(text, nids, libAddr, 4 * words, i) && !(addr == JR_RA && text[2 * i + 1] == NOP) {
      Twenties(addr - libAddr, 4 * words);
    }
  }

  lemma Twenties(x: nat, size: nat)
    requires size % 4 == 0
    ensures x == 20 * (x / 20) && 5 * (x / 20) + 5 <= size / 4 <==> x % 20 == 0 && x + 20 <= size
  {
  }

  // How many of the first n stubs an import owns, and the first of all.
  function CountOf(own: seq<int>, j: int, n: nat): (c: nat)
    requires n <= |own|
    ensures c <= n
  {
    if n == 0 then 0 else CountOf(own, j, n - 1) + if own[n - 1] == j then 1 else 0
  }

  function FirstOf(own: seq<int>, j: int): (i: nat)
    ensures i <= |own| && (forall k :: 0 <= k < i ==> own[k] != j) && (i < |own| ==> own[i] == j)
  {
    if own == [] || own[0] == j then 0 else 1 + FirstOf(own[1..], j)
  }

  lemma {:induction false} CountsSeen(own: seq<int>, j: int, n: nat)
    requires n <= |own|
    ensures CountOf(own, j, n) == 0 <==> n <= FirstOf(own, j)
  {
    if n > 0 {
      CountsSeen(own, j, n - 1);
    }
  }

  function FuncCount(w: u32): nat { w / 0x1_0000 }

  // The import after n stubs have been seen: its count has grown by its own
  // stubs among them, and if it started at zero, its places are those of its
  // first stub.
  ghost predicate Fixed(lib: seq<u32>, orig: seq<u32>, own: seq<int>, j: nat, n: nat, nidAddr: u32, textAddr: u32)
    requires |lib| == |orig| && RECORD * j + RECORD <= |lib| && n <= |own|
  {
    var b, c, first := RECORD * j, CountOf(own, j, n), FirstOf(own, j);
    && lib[b] == orig[b] && lib[b + 1] == orig[b + 1]
    && lib[b + 2] == orig[b + 2] + 0x1_0000 * c
    && (if c > 0 && FuncCount(orig[b + 2]) == 0
        then lib[b + 3] == nidAddr + 4 * first && lib[b + 4] == textAddr + 8 * first
        else lib[b + 3] == orig[b + 3] && lib[b + 4] == orig[b + 4])
  }

  ghost predicate AllFixed(lib: seq<u32>, orig: seq<u32>, own: seq<int>, n: nat, nidAddr: u32, textAddr: u32)
    requires n <= |own|
  {
    |lib| == |orig|
    && forall j :: 0 <= j && RECORD * j + RECORD <= |lib| ==> Fixed(lib, orig, own, j, n, nidAddr, textAddr)
  }

  // No function count outgrows its 16 bits.
  ghost predicate CountsFit(orig: seq<u32>, own: seq<int>)
  {
    forall j :: 0 <= j && RECORD * j + RECORD <= |orig| ==>
      FuncCount(orig[RECORD * j + 2]) + CountOf(own, j, |own|) < 0x1_0000
  }

  // Stubs of one library stand together.
  predicate Contiguous(own: seq<int>)
  {
    forall a, b, c :: 0 <= a < b < c < |own| && own[a] >= 0 && own[a] == own[c] ==> own[b] == own[a]
  }

  // A stub of a library seen before, but not directly before.
  predicate OutOfOrder(own: seq<int>, i: nat)
    requires i < |own|
  {
    own[i] >= 0 && CountOf(own, own[i], i) > 0 && own[i - 1] != own[i]
  }

  lemma OrderIsContiguity(own: seq<int>)
    ensures Contiguous(own) <==> forall i :: 0 <= i < |own| ==> !OutOfOrder(own, i)
  {
    if Contiguous(own) {
      forall i | 0 <= i < |own| ensures !OutOfOrder(own, i) {
        CountsSeen(own, own[i], i);
        var f := FirstOf(own, own[i]);
        if f < i - 1 && own[i] >= 0 { assert own[f] == own[i] ==> own[i - 1] == own[f]; }
      }
    }
    if forall i :: 0 <= i < |own| ==> !OutOfOrder(own, i) {
      forall a, b, c | 0 <= a < b < c < |own| && own[a] >= 0 && own[a] == own[c] ensures own[b] == own[a] {
        StaysTogether(own, a, b, c);
      }
    }
  }

  lemma {:induction false} StaysTogether(own: seq<int>, a: nat, b: nat, c: nat)
    requires a < b < c < |own| && own[a] >= 0 && own[a] == own[c]
    requires forall i :: 0 <= i < |own| ==> !OutOfOrder(own, i)
    ensures own[b] == own[a]
    decreases c
  {
    CountsSeen(own, own[c], c);
    assert !OutOfOrder(own, c);
    if b < c - 1 { StaysTogether(own, a, b, c - 1); }
  }

  lemma {:induction false} CountGrows(own: seq<int>, j: int, m: nat, n: nat)
    requires m <= n <= |own|
    ensures CountOf(own, j, m) <= CountOf(own, j, n)
  {
    if m < n { CountGrows(own, j, m, n - 1); }
  }

  // One more stub changes one import.
  lemma OneMoreStub(lib: seq<u32>, lib': seq<u32>, orig: seq<u32>, own: seq<int>, n: nat, nidAddr: u32, textAddr: u32)
    requires n < |own| && AllFixed(lib, orig, own, n, nidAddr, textAddr) && |lib'| == |lib|
    requires own[n] >= 0 && RECORD * own[n] + RECORD <= |lib|
    requires var b := RECORD * own[n];
      && lib'[b] == lib[b] && lib'[b + 1] == lib[b + 1] && lib'[b + 2] == lib[b + 2] as int + 0x1_0000
      && (if FuncCount(lib[b + 2]) == 0 then lib'[b + 3] == nidAddr + 4 * n && lib'[b + 4] == textAddr + 8 * n
          else lib'[b + 3] == lib[b + 3] && lib'[b + 4] == lib[b + 4])
      && forall k :: 0 <= k < |lib| && !(b <= k < b + RECORD) ==> lib'[k] == lib[k]
    ensures AllFixed(lib', orig, own, n + 1, nidAddr, textAddr)
  {
    forall j | 0 <= j && RECORD * j + RECORD <= |lib| ensures Fixed(lib', orig, own, j, n + 1, nidAddr, textAddr) {
      assert Fixed(lib, orig, own, j, n, nidAddr, textAddr);
      CountsSeen(own, j, n);
      CountsSeen(own, j, n + 1);
    }
  }

  // A stub already fixed changes none.
  lemma NoMoreStub(lib: seq<u32>, orig: seq<u32>, own: seq<int>, n: nat, nidAddr: u32, textAddr: u32)
    requires n < |own| && AllFixed(lib, orig, own, n, nidAddr, textAddr) && own[n] == -1
    ensures AllFixed(lib, orig, own, n + 1, nidAddr, textAddr)
  {
    forall j | 0 <= j && RECORD * j + RECORD <= |lib| ensures Fixed(lib, orig, own, j, n + 1, nidAddr, textAddr) {
      assert Fixed(lib, orig, own, j, n, nidAddr, textAddr);
    }
  }

  // ----- the program itself -----

  // Where in the section of imports a stub points to, in words, or -1 for one
  // already fixed.
  function Place(text: seq<u32>, libAddr: u32, i: nat): int
    requires 2 * i + 1 < |text|
  {
    if text[2 * i] == JR_RA && text[2 * i + 1] == NOP then -1 else (text[2 * i] as int - libAddr) / 4
  }

  // It points to a word of the section with room for an import behind it.
  predicate Inside(text: seq<u32>, libAddr: u32, words: nat, i: nat)
    requires 2 * i + 1 < |text|
  {
    var at := Place(text, libAddr, i);
    at == -1 || (4 * at == text[2 * i] as int - libAddr && at + RECORD <= words)
  }

  function Places(text: seq<u32>, libAddr: u32, n: nat): (at: seq<int>)
    requires 2 * n <= |text|
    ensures |at| == n
  {
    seq(n, i requires 0 <= i < n => Place(text, libAddr, i))
  }

  // An import header with one stub more; its count has 16 bits.
  function Stamped(lib: seq<u32>, w: nat, i: nat, nidAddr: u32, textAddr: u32): (r: seq<u32>)
    requires w + RECORD <= |lib| && nidAddr + 4 * i < WORD && textAddr + 8 * i < WORD
    ensures |r| == |lib|
  {
    var c := FuncCount(lib[w + 2]);
    var placed := if c == 0 then lib[w + 3 := nidAddr + 4 * i][w + 4 := textAddr + 8 * i] else lib;
    placed[w + 2 := lib[w + 2] % 0x1_0000 + 0x1_0000 * ((c + 1) % 0x1_0000)]
  }

  // The places lie in the section, and what is written there fits.
  predicate Fitting(words: nat, at: seq<int>, n: nat, nidAddr: u32, textAddr: u32)
    requires n <= |at|
  {
    && nidAddr + 4 * n < WORD && textAddr + 8 * n < WORD
    && forall i :: 0 <= i < n ==> at[i] == -1 || 0 <= at[i] <= words - RECORD
  }

  // The section after n stubs, one by one.
  function FixAll(lib: seq<u32>, at: seq<int>, n: nat, nidAddr: u32, textAddr: u32): (r: seq<u32>)
    requires n <= |at| && Fitting(|lib|, at, n, nidAddr, textAddr)
    ensures |r| == |lib|
  {
    if n == 0 then lib
    else
      var before := FixAll(lib, at, n - 1, nidAddr, textAddr);
      if at[n - 1] == -1 then before else Stamped(before, at[n - 1], n - 1, nidAddr, textAddr)
  }

  // The warning: an import that has functions, while the stub before belongs
  // elsewhere.
  predicate WarnsAt(lib: seq<u32>, at: seq<int>, i: nat, nidAddr: u32, textAddr: u32)
    requires i < |at| && Fitting(|lib|, at, i + 1, nidAddr, textAddr)
  {
    && i > 0 && at[i] != -1 && at[i - 1] != at[i]
    && FuncCount(FixAll(lib, at, i, nidAddr, textAddr)[at[i] + 2]) > 0
  }

  // One of the first n stubs is warned of.
  ghost predicate AnyWarns(lib: seq<u32>, at: seq<int>, n: nat, nidAddr: u32, textAddr: u32)
    requires n <= |at| && Fitting(|lib|, at, n, nidAddr, textAddr)
  {
    exists i :: 0 <= i < n && WarnsAt(lib, at, i, nidAddr, textAddr)
  }

  lemma OneMoreMayWarn(lib: seq<u32>, at: seq<int>, n: nat, nidAddr: u32, textAddr: u32)
    requires n < |at| && Fitting(|lib|, at, n + 1, nidAddr, textAddr)
    ensures AnyWarns(lib, at, n + 1, nidAddr, textAddr)
      <==> AnyWarns(lib, at, n, nidAddr, textAddr) || WarnsAt(lib, at, n, nidAddr, textAddr)
  {
    if AnyWarns(lib, at, n, nidAddr, textAddr) {
      var i :| 0 <= i < n && WarnsAt(lib, at, i, nidAddr, textAddr);
      assert 0 <= i < n + 1 && WarnsAt(lib, at, i, nidAddr, textAddr);
    }
  }

  // The import header of one stub.
  method FixOne(lib: array<u32>, w: nat, i: nat, nidAddr: u32, textAddr: u32) returns (hadFunctions: bool)
    requires w + RECORD <= lib.Length && nidAddr + 4 * i < WORD && textAddr + 8 * i < WORD
    modifies lib
    ensures hadFunctions <==> FuncCount(old(lib[w + 2])) > 0
    ensures lib[..] == Stamped(old(lib[..]), w, i, nidAddr, textAddr)
  {
    var funcCount := FuncCount(lib[w + 2]);
    hadFunctions := funcCount != 0;
    if funcCount == 0 {
      lib[w + 3] := 4 * i + nidAddr;
      lib[w + 4] := 8 * i + textAddr;
    }
    lib[w + 2] := lib[w + 2] % 0x1_0000 + 0x1_0000 * ((funcCount + 1) % 0x1_0000);
  }

  // One turn of the loop; `last` is the place of the stub before, or -2.
  method FixStub(text: array<u32>, nids: array<u32>, lib: array<u32>, textAddr: u32, nidAddr: u32, libAddr: u32, i: nat,
                 last: int) returns (ok: bool, warned: bool, last': int)
    requires text != lib && text != nids && lib != nids && text.Length == 2 * nids.Length && i < nids.Length
    requires textAddr + 4 * text.Length < WORD && nidAddr + 4 * nids.Length < WORD
    requires Passes(text[..], nids[..], libAddr, 4 * lib.Length, i) ==> Inside(text[..], libAddr, lib.Length, i)
    modifies text, lib
    ensures ok <==> Passes(old(text[..]), nids[..], libAddr, 4 * lib.Length, i)
    ensures forall k :: 0 <= k < text.Length && k != 2 * i && k != 2 * i + 1 ==> text[k] == old(text[k])
    ensures !ok ==> text[..] == old(text[..]) && lib[..] == old(lib[..])
    ensures ok ==> text[2 * i] == JR_RA && text[2 * i + 1] == NOP
    ensures ok ==> last' == Place(old(text[..]), libAddr, i) >= -1
    ensures ok && last' == -1 ==> lib[..] == old(lib[..]) && !warned
    ensures ok && last' != -1 ==>
      && lib[..] == Stamped(old(lib[..]), last', i, nidAddr, textAddr)
      && (warned <==> last != -2 && last != last' && FuncCount(old(lib[last' + 2])) > 0)
  {
    var stubAddr, stubNid, sectNid := text[2 * i], text[2 * i + 1], nids[i];
    ok, warned, last' := true, false, -1;
    if stubAddr == JR_RA && stubNid == NOP {
      return;
    }
    if stubNid != sectNid { return false, false, last; }
    if stubAddr < libAddr || stubAddr > libAddr + 4 * lib.Length || stubAddr % 4 != 0 { return false, false, last; }
    last' := (stubAddr - libAddr) / 4;
    var had := FixOne(lib, last', i, nidAddr, textAddr);
    warned := had && last != -2 && last != last';
    text[2 * i], text[2 * i + 1] := JR_RA, NOP;
  }

  // That turn in the course of the run.
  method FixNext(text: array<u32>, nids: array<u32>, lib: array<u32>, textAddr: u32, nidAddr: u32, libAddr: u32, i: nat,
                 last: int, ghost at: seq<int>, ghost l0: seq<u32>) returns (ok: bool, warned: bool, last': int)
    requires text != lib && text != nids && lib != nids && text.Length == 2 * nids.Length && i < nids.Length == |at|
    requires textAddr + 4 * text.Length < WORD && nidAddr + 4 * nids.Length < WORD
    requires at[i] == Place(text[..], libAddr, i) && last == (if i == 0 then -2 else at[i - 1])
    requires Passes(text[..], nids[..], libAddr, 4 * lib.Length, i) ==> Inside(text[..], libAddr, lib.Length, i)
    requires Fitting(|l0|, at, i, nidAddr, textAddr) && lib[..] == FixAll(l0, at, i, nidAddr, textAddr)
    requires i > 0 ==> last >= -1
    modifies text, lib
    ensures ok <==> Passes(old(text[..]), nids[..], libAddr, 4 * lib.Length, i)
    ensures forall k :: 0 <= k < text.Length && k != 2 * i && k != 2 * i + 1 ==> text[k] == old(text[k])
    ensures !ok ==> text[..] == old(text[..]) && lib[..] == old(lib[..])
    ensures ok ==>
      && text[2 * i] == JR_RA && text[2 * i + 1] == NOP && last' == at[i] >= -1
      && Fitting(|l0|, at, i + 1, nidAddr, textAddr) && lib[..] == FixAll(l0, at, i + 1, nidAddr, textAddr)
      && (warned <==> WarnsAt(l0, at, i, nidAddr, textAddr))
  {
    ok, warned, last' := FixStub(text, nids, lib, textAddr, nidAddr, libAddr, i, last);
  }

  // The first stubs all pass.
  predicate PassUpTo(text: seq<u32>, nids: seq<u32>, libAddr: u32, libSize: nat, n: nat)
    requires |text| == 2 * |nids| && n <= |nids|
  {
    forall i :: 0 <= i < n ==> Passes(text, nids, libAddr, libSize, i)
  }

  // Every stub that is reached and passes is inside the section.
  predicate InSection(text: seq<u32>, nids: seq<u32>, libAddr: u32, words: nat)
    requires |text| == 2 * |nids|
  {
    forall i :: 0 <= i < |nids| && PassUpTo(text, nids, libAddr, 4 * words, i + 1) ==> Inside(text, libAddr, words, i)
  }

  predicate Done(text: seq<u32>, n: nat)
    requires 2 * n <= |text|
  {
    forall i :: 0 <= i < n ==> text[2 * i] == JR_RA && text[2 * i + 1] == NOP
  }

  // Every stub is jr ra and nop already, or has its NID in the other section
  // and a word of the section of imports, or its end, as its address.
  ghost predicate Acceptable(text: seq<u32>, nids: seq<u32>, libAddr: u32, libSize: nat)
    requires |text| == 2 * |nids|
  {
    forall i :: 0 <= i < |nids| ==>
      (text[2 * i] == 0x03e0_0008 && text[2 * i + 1] == 0)
      || (text[2 * i + 1] == nids[i] && libAddr <= text[2 * i] <= libAddr + libSize && text[2 * i] % 4 == 0)
  }

  lemma AcceptablePass(text: seq<u32>, nids: seq<u32>, libAddr: u32, libSize: nat)
    requires |text| == 2 * |nids|
    ensures Acceptable(text, nids, libAddr, libSize) <==> PassUpTo(text, nids, libAddr, libSize, |nids|)
    ensures forall i :: 0 <= i < |nids| && !Passes(text, nids, libAddr, libSize, i) ==>
      !PassUpTo(text, nids, libAddr, libSize, |nids|)
  {
    if PassUpTo(text, nids, libAddr, libSize, |nids|) {
      forall i | 0 <= i < |nids|
        ensures (text[2 * i] == 0x03e0_0008 && text[2 * i + 1] == 0)
          || (text[2 * i + 1] == nids[i] && libAddr <= text[2 * i] <= libAddr + libSize && text[2 * i] % 4 == 0)
      {
        assert Passes(text, nids, libAddr, libSize, i);
      }
    }
  }

  // fixup_imports: n stubs are dealt with, all of them or those in front of the
  // first that does not pass.
  method FixupImports(text: array<u32>, nids: array<u32>, lib: array<u32>, textAddr: u32, nidAddr: u32, libAddr: u32)
    returns (ok: bool, warned: bool, ghost n: nat)
    requires text != lib && text != nids && lib != nids
    requires textAddr + 4 * text.Length < WORD && nidAddr + 4 * nids.Length < WORD
    requires text.Length == 2 * nids.Length ==> InSection(text[..], nids[..], libAddr, lib.Length)
    modifies text, lib
    ensures text.Length != 2 * nids.Length ==> !ok && !warned && text[..] == old(text[..]) && lib[..] == old(lib[..])
    ensures text.Length == 2 * nids.Length ==>
      && n <= nids.Length && (ok <==> n == nids.Length)
      && PassUpTo(old(text[..]), nids[..], libAddr, 4 * lib.Length, n)
      && (n < nids.Length ==> !Passes(old(text[..]), nids[..], libAddr, 4 * lib.Length, n))
      && Done(text[..], n) && text[2 * n..] == old(text[2 * n..])
      && (ok <==> Acceptable(old(text[..]), nids[..], libAddr, 4 * lib.Length))
      && (ok ==> forall i :: 0 <= i < nids.Length ==> text[2 * i] == 0x03e0_0008 && text[2 * i + 1] == 0)
      && var at := Places(old(text[..]), libAddr, nids.Length);
      && Fitting(lib.Length, at, n, nidAddr, textAddr) && lib[..] == FixAll(old(lib[..]), at, n, nidAddr, textAddr)
      && warned == AnyWarns(old(lib[..]), at, n, nidAddr, textAddr)
  {
    warned, n := false, 0;
    if text.Length != 2 * nids.Length { return false, false, 0; }
    ghost var at, t0, l0 := Places(text[..], libAddr, nids.Length), text[..], lib[..];
    var last, i := -2, 0;
    AcceptablePass(t0, nids[..], libAddr, 4 * lib.Length);
    while i < nids.Length
      invariant n == i <= nids.Length && PassUpTo(t0, nids[..], libAddr, 4 * lib.Length, i)
      invariant Fitting(|l0|, at, i, nidAddr, textAddr) && lib[..] == FixAll(l0, at, i, nidAddr, textAddr)
      invariant Done(text[..], i) && text[2 * i..] == t0[2 * i..]
      invariant last == (if i == 0 then -2 else at[i - 1]) && (i > 0 ==> last >= -1)
      invariant warned == AnyWarns(l0, at, i, nidAddr, textAddr)
    {
      Unseen(text[..], t0, nids[..], libAddr, lib.Length, i);
      ghost var before := text[..];
      var w;
      ok, w, last := FixNext(text, nids, lib, textAddr, nidAddr, libAddr, i, last, at, l0);
      if !ok { return; }
      OneMoreDone(before, text[..], t0, i);
      OneMoreMayWarn(l0, at, i, nidAddr, textAddr);
      warned := warned || w;
      i := i + 1;
      n := i;
    }
    return true, warned, n;
  }

  lemma OneMoreDone(before: seq<u32>, text: seq<u32>, t0: seq<u32>, i: nat)
    requires |before| == |text| == |t0| && 2 * i + 2 <= |text| && Done(before, i)
    requires before[2 * (i + 1)..] == t0[2 * (i + 1)..] && text[2 * i] == JR_RA && text[2 * i + 1] == NOP
    requires forall k :: 0 <= k < |text| && k != 2 * i && k != 2 * i + 1 ==> text[k] == before[k]
    ensures Done(text, i + 1) && text[2 * (i + 1)..] == t0[2 * (i + 1)..]
  {
    assert text[2 * (i + 1)..] == before[2 * (i + 1)..];
  }

  // A stub not reached yet is what it was.
  lemma Unseen(text: seq<u32>, t0: seq<u32>, nids: seq<u32>, libAddr: u32, words: nat, i: nat)
    requires |text| == |t0| == 2 * |nids| && i < |nids| && text[2 * i..] == t0[2 * i..]
    ensures Passes(text, nids, libAddr, 4 * words, i) == Passes(t0, nids, libAddr, 4 * words, i)
    ensures Place(text, libAddr, i) == Place(t0, libAddr, i)
    ensures Inside(text, libAddr, words, i) == Inside(t0, libAddr, words, i)
    ensures text[2 * (i + 1)..] == t0[2 * (i + 1)..]
  {
    assert text[2 * i] == text[2 * i..][0] && text[2 * i + 1] == text[2 * i..][1];
    assert text[2 * (i + 1)..] == text[2 * i..][2..];
  }

  // ----- what the rebuilt headers say -----

  predicate Warns(orig: seq<u32>, own: seq<int>, i: nat)
    requires i < |own|
  {
    && i > 0 && own[i] >= 0 && own[i - 1] != own[i] && RECORD * own[i] + RECORD <= |orig|
    && FuncCount(orig[RECORD * own[i] + 2]) + CountOf(own, own[i], i) > 0
  }

  // Every stub not fixed before is on a whole import.
  predicate WholeImports(words: nat, at: seq<int>, own: seq<int>)
  {
    |at| == |own| && forall i :: 0 <= i < |own| ==>
      (own[i] == -1 == at[i]) || (0 <= own[i] && at[i] == RECORD * own[i] && at[i] + RECORD <= words)
  }

  lemma RecordsAreWhole(text: seq<u32>, nids: seq<u32>, libAddr: u32, words: nat)
    requires |text| == 2 * |nids| && PassUpTo(text, nids, libAddr, 4 * words, |nids|)
    requires forall i :: 0 <= i < |nids| ==> OnRecord(text, nids, libAddr, words, i)
    ensures WholeImports(words, Places(text, libAddr, |nids|), Owners(text, libAddr, |nids|))
  {
    var at, own := Places(text, libAddr, |nids|), Owners(text, libAddr, |nids|);
    forall i | 0 <= i < |nids|
      ensures (own[i] == -1 == at[i]) || (0 <= own[i] && at[i] == RECORD * own[i] && at[i] + RECORD <= words)
    {
      RecordIsWhole(text, nids, libAddr, words, i);
    }
  }

  lemma RecordIsWhole(text: seq<u32>, nids: seq<u32>, libAddr: u32, words: nat, i: nat)
    requires 2 * i + 1 < |text| && i < |nids|
    requires Passes(text, nids, libAddr, 4 * words, i) && OnRecord(text, nids, libAddr, words, i)
    ensures var own, at := Owner(text, libAddr, i), Place(text, libAddr, i);
      (own == -1 == at) || (0 <= own && at == RECORD * own && at + RECORD <= words)
  {
  }

  // The rebuilt headers: every import has grown by its own stubs and has the
  // places of its first one, if and only if no count outgrows its 16 bits.
  lemma HeadersAreFixed(lib: seq<u32>, at: seq<int>, own: seq<int>, nidAddr: u32, textAddr: u32)
    requires WholeImports(|lib|, at, own) && Fitting(|lib|, at, |at|, nidAddr, textAddr)
    ensures AllFixed(FixAll(lib, at, |at|, nidAddr, textAddr), lib, own, |own|, nidAddr, textAddr)
      <==> CountsFit(lib, own)
  {
    var out := FixAll(lib, at, |at|, nidAddr, textAddr);
    if CountsFit(lib, own) {
      FixedSoFar(lib, at, own, |own|, nidAddr, textAddr);
    }
    if AllFixed(out, lib, own, |own|, nidAddr, textAddr) {
      forall j | 0 <= j && RECORD * j + RECORD <= |lib|
        ensures FuncCount(lib[RECORD * j + 2]) + CountOf(own, j, |own|) < 0x1_0000
      {
        assert Fixed(out, lib, own, j, |own|, nidAddr, textAddr);
      }
    }
  }

  lemma {:induction false} FixedSoFar(lib: seq<u32>, at: seq<int>, own: seq<int>, n: nat, nidAddr: u32, textAddr: u32)
    requires n <= |own| && WholeImports(|lib|, at, own) && Fitting(|lib|, at, |at|, nidAddr, textAddr)
    requires CountsFit(lib, own)
    ensures AllFixed(FixAll(lib, at, n, nidAddr, textAddr), lib, own, n, nidAddr, textAddr)
  {
    if n > 0 {
      FixedSoFar(lib, at, own, n - 1, nidAddr, textAddr);
      var before := FixAll(lib, at, n - 1, nidAddr, textAddr);
      if own[n - 1] == -1 {
        NoMoreStub(before, lib, own, n - 1, nidAddr, textAddr);
      } else {
        RoomForOne(before, lib, own, own[n - 1], n - 1, nidAddr, textAddr);
        var after := Stamped(before, at[n - 1], n - 1, nidAddr, textAddr);
        OneMoreStub(before, after, lib, own, n - 1, nidAddr, textAddr);
      }
    }
  }

  // And then the warnings are those of the counts.
  lemma WarningsOfCounts(lib: seq<u32>, at: seq<int>, own: seq<int>, i: nat, nidAddr: u32, textAddr: u32)
    requires i < |own| && WholeImports(|lib|, at, own) && Fitting(|lib|, at, |at|, nidAddr, textAddr)
    requires CountsFit(lib, own)
    ensures WarnsAt(lib, at, i, nidAddr, textAddr) <==> Warns(lib, own, i)
  {
    FixedSoFar(lib, at, own, i, nidAddr, textAddr);
    if own[i] != -1 {
      RoomForOne(FixAll(lib, at, i, nidAddr, textAddr), lib, own, own[i], i, nidAddr, textAddr);
    }
  }

  // Words of the section that no stub leads to stay, as do those behind the
  // last whole import.
  lemma {:induction false} OtherWordsStay(lib: seq<u32>, at: seq<int>, n: nat, k: nat, nidAddr: u32, textAddr: u32)
    requires n <= |at| && Fitting(|lib|, at, n, nidAddr, textAddr) && k < |lib|
    requires forall i :: 0 <= i < n ==> at[i] == -1 || !(at[i] <= k < at[i] + RECORD)
    ensures FixAll(lib, at, n, nidAddr, textAddr)[k] == lib[k]
  {
    if n > 0 { OtherWordsStay(lib, at, n - 1, k, nidAddr, textAddr); }
  }

  lemma TrailingWordsStay(lib: seq<u32>, at: seq<int>, own: seq<int>, nidAddr: u32, textAddr: u32)
    requires WholeImports(|lib|, at, own) && Fitting(|lib|, at, |at|, nidAddr, textAddr)
    ensures FixAll(lib, at, |at|, nidAddr, textAddr)[RECORD * (|lib| / RECORD)..] == lib[RECORD * (|lib| / RECORD)..]
  {
    var e := RECORD * (|lib| / RECORD);
    forall k | e <= k < |lib| ensures FixAll(lib, at, |at|, nidAddr, textAddr)[k] == lib[k] {
      OtherWordsStay(lib, at, |at|, k, nidAddr, textAddr);
    }
  }

  // The count in the import still fits, and tells whether there were functions
  // or stubs before.
  lemma RoomForOne(lib: seq<u32>, orig: seq<u32>, own: seq<int>, j: nat, i: nat, nidAddr: u32, textAddr: u32)
    requires i < |own| && own[i] == j && RECORD * j + RECORD <= |lib|
    requires AllFixed(lib, orig, own, i, nidAddr, textAddr) && CountsFit(orig, own)
    ensures lib[RECORD * j + 2] + 0x1_0000 < WORD
    ensures FuncCount(lib[RECORD * j + 2]) == FuncCount(orig[RECORD * j + 2]) + CountOf(own, j, i)
  {
    assert Fixed(lib, orig, own, j, i, nidAddr, textAddr);
    CountGrows(own, j, i + 1, |own|);
  }

  // Started at zero, the headers describe exactly the stubs of each library
  // when nothing was warned of; and there is a warning otherwise.
  lemma NoWarningIsContiguous(orig: seq<u32>, own: seq<int>)
    requires forall i :: 0 <= i < |own| ==> own[i] >= 0 ==> RECORD * own[i] + RECORD <= |orig|
    requires forall j :: 0 <= j && RECORD * j + RECORD <= |orig| ==> FuncCount(orig[RECORD * j + 2]) == 0
    ensures Contiguous(own) <==> !exists i :: 0 <= i < |own| && Warns(orig, own, i)
  {
    OrderIsContiguity(own);
    forall i | 0 <= i < |own| ensures Warns(orig, own, i) <==> OutOfOrder(own, i) {
      if own[i] >= 0 && i > 0 { CountsSeen(own, own[i], i); }
    }
  }

  lemma {:induction false} CountBehindFirst(own: seq<int>, j: int, n: nat)
    requires n <= |own|
    ensures n >= FirstOf(own, j) ==> FirstOf(own, j) + CountOf(own, j, n) <= n
  {
    if n > 0 {
      CountBehindFirst(own, j, n - 1);
      CountsSeen(own, j, n);
    }
  }

  // The stubs of an import are one run, from its first to the last counted.
  lemma {:induction false} RunOfImport(own: seq<int>, j: int, n: nat)
    requires Contiguous(own) && j >= 0 && n <= |own|
    ensures var f, c := FirstOf(own, j), CountOf(own, j, n);
      forall i :: 0 <= i < n ==> (own[i] == j <==> f <= i < f + c)
  {
    if n > 0 {
      RunOfImport(own, j, n - 1);
      RunGrows(own, j, n - 1, FirstOf(own, j), CountOf(own, j, n - 1));
    }
  }

  lemma RunGrows(own: seq<int>, j: int, n: nat, f: nat, c: nat)
    requires Contiguous(own) && j >= 0 && n < |own| && f == FirstOf(own, j) && c == CountOf(own, j, n)
    requires forall i :: 0 <= i < n ==> (own[i] == j <==> f <= i < f + c)
    ensures forall i :: 0 <= i < n + 1 ==> (own[i] == j <==> f <= i < f + CountOf(own, j, n + 1))
  {
    CountsSeen(own, j, n);
    CountBehindFirst(own, j, n);
    if own[n] == j {
      assert f + c == n;
    }
  }

  // The functions of the first m imports together.
  function Total(own: seq<int>, m: nat, n: nat): nat
    requires n <= |own|
  {
    if m == 0 then 0 else Total(own, m - 1, n) + CountOf(own, m - 1, n)
  }

  function Unfixed(own: seq<int>, n: nat): nat
    requires n <= |own|
  {
    if n == 0 then 0 else Unfixed(own, n - 1) + if own[n - 1] >= 0 then 1 else 0
  }

  lemma {:induction false} TotalGrows(own: seq<int>, m: nat, n: nat)
    requires n < |own|
    ensures Total(own, m, n + 1) == Total(own, m, n) + if 0 <= own[n] < m then 1 else 0
  {
    if m > 0 { TotalGrows(own, m - 1, n); }
  }

  lemma {:induction false} NoneYet(own: seq<int>, m: nat)
    ensures Total(own, m, 0) == 0
  {
    if m > 0 { NoneYet(own, m - 1); }
  }

  // The counts add up to the stubs fixed.
  lemma {:induction false} CountsAddUp(own: seq<int>, m: nat, n: nat)
    requires n <= |own| && forall i :: 0 <= i < n ==> own[i] < m
    ensures Total(own, m, n) == Unfixed(own, n)
  {
    if n == 0 {
      NoneYet(own, m);
    } else {
      CountsAddUp(own, m, n - 1);
      TotalGrows(own, m, n - 1);
    }
  }

  // ----- a second run -----

  lemma FixedPlaces(text: seq<u32>, nids: seq<u32>, libAddr: u32, libSize: nat)
    requires |text| == 2 * |nids| && Done(text, |nids|)
    ensures PassUpTo(text, nids, libAddr, libSize, |nids|)
    ensures forall i :: 0 <= i < |nids| ==> Places(text, libAddr, |nids|)[i] == -1
  {
  }

  lemma {:induction false} NothingStamped(lib: seq<u32>, at: seq<int>, n: nat, nidAddr: u32, textAddr: u32)
    requires n <= |at| && Fitting(|lib|, at, n, nidAddr, textAddr) && forall i :: 0 <= i < n ==> at[i] == -1
    ensures FixAll(lib, at, n, nidAddr, textAddr) == lib
  {
    if n > 0 { NothingStamped(lib, at, n - 1, nidAddr, textAddr); }
  }

  // A second run finds every stub fixed: it passes, warns of nothing and leaves
  // both sections as the first one left them.
  method FixupTwice(text: array<u32>, nids: array<u32>, lib: array<u32>, textAddr: u32, nidAddr: u32, libAddr: u32)
    returns (ok: bool, again: bool, warned: bool)
    requires text != lib && text != nids && lib != nids
    requires textAddr + 4 * text.Length < WORD && nidAddr + 4 * nids.Length < WORD
    requires text.Length == 2 * nids.Length ==> InSection(text[..], nids[..], libAddr, lib.Length)
    modifies text, lib
    ensures ok ==> again && !warned && text.Length == 2 * nids.Length && Done(text[..], nids.Length)
    ensures ok ==> var at := Places(old(text[..]), libAddr, nids.Length);
      && Fitting(lib.Length, at, |at|, nidAddr, textAddr)
      && lib[..] == FixAll(old(lib[..]), at, |at|, nidAddr, textAddr)
  {
    var w;
    ghost var n;
    again, warned := false, false;
    ok, w, n := FixupImports(text, nids, lib, textAddr, nidAddr, libAddr);
    if ok {
      ghost var t, l := text[..], lib[..];
      FixedPlaces(t, nids[..], libAddr, 4 * lib.Length);
      again, warned, n := FixupImports(text, nids, lib, textAddr, nidAddr, libAddr);
      ghost var at := Places(t, libAddr, nids.Length);
      NothingStamped(l, at, n, nidAddr, textAddr);
    }
  }
}
