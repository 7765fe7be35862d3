/** Instructions as they are assembled, where a step of them stops, and where
    the program goes on behind the host's commands. */
module GdbLaws {
  import opened Bits
  import opened Wrappers
  import opened GdbStub

  // ----- assembled instructions -----

  // The opcode with a major number, two registers and a signed offset.
  ghost function Immediate(major: nat, s: nat, t: nat, offset: int): nat
    requires major < 64 && s < 32 && t < 32 && -0x8000 <= offset < 0x8000
  {
    major * 0x400_0000 + s * 0x20_0000 + t * 0x1_0000 + if offset < 0 then offset + 0x1_0000 else offset
  }

  lemma ImmediateFields(major: nat, s: nat, t: nat, offset: int)
    requires major < 64 && s < 32 && t < 32 && -0x8000 <= offset < 0x8000
    ensures var op := Immediate(major, s, t, offset);
      op < WORD && Major(op) == major && Rs(op) == s && Rt(op) == t && Offset(op) == offset
  {
    var low := if offset < 0 then offset + 0x1_0000 else offset;
    UpperFields((major * 32 + s) * 32 + t, low);
    var upper := (major * 32 + s) * 32 + t;
    assert upper / 1024 == major && upper / 32 % 32 == s && upper % 32 == t;
  }

  lemma UpperFields(upper: nat, low: nat)
    requires low < 0x1_0000
    ensures var op := upper * 0x1_0000 + low;
      && op % 0x1_0000 == low && op / 0x1_0000 == upper && op / 0x20_0000 == upper / 32
      && op / 0x400_0000 == upper / 1024
  {
  }

  // Signed comparison of a register with zero.
  ghost function AsSigned(x: u32): int { if x < 0x8000_0000 then x else x - 0x1_0000_0000 }

  // The condition of a branch: beq, bne, blez and bgtz with their likely forms,
  // and bltz and bgez with theirs and those that link.
  ghost function Condition(major: nat, t: nat, x: u32, y: u32): bool
  {
    match major
    case 4 => x == y case 20 => x == y
    case 5 => x != y case 21 => x != y
    case 6 => AsSigned(x) <= 0 case 22 => AsSigned(x) <= 0
    case 7 => AsSigned(x) > 0 case 23 => AsSigned(x) > 0
    case _ => if t % 2 == 0 then AsSigned(x) < 0 else AsSigned(x) >= 0
  }

  // A branch leads past its delay slot by its offset in words, or behind it.
  lemma BranchesTo(major: nat, s: nat, t: nat, offset: int, epc: u32, r: seq<u32>, flags: nat -> bool)
    requires |r| == 32 && s < 32 && t < 32 && -0x8000 <= offset < 0x8000
    requires major in {4, 5, 6, 7, 20, 21, 22, 23} || (major == 1 && t in {0, 1, 2, 3, 16, 17, 18, 19})
    ensures NextPc(Immediate(major, s, t, offset), epc, r, flags)
      == if Condition(major, t, r[s], r[t]) then (epc + 4 + 4 * offset) % 0x1_0000_0000
         else (epc + 8) % 0x1_0000_0000
  {
    ImmediateFields(major, s, t, offset);
  }

  // bc0 to bc2 on one of eight condition bits, for its being set or clear.
  lemma ConditionBits(cop: nat, bit: nat, likely: bool, set_: bool, offset: int, epc: u32, r: seq<u32>,
                      flags: nat -> bool)
    requires |r| == 32 && 16 <= cop <= 18 && bit < 8 && -0x8000 <= offset < 0x8000
    ensures var t := 4 * bit + (if likely then 2 else 0) + (if set_ then 1 else 0);
      && NextPc(Immediate(cop, 8, t, offset), epc, r, flags)
         == (if flags(bit) == set_ then (epc + 4 + 4 * offset) % 0x1_0000_0000 else (epc + 8) % 0x1_0000_0000)
      && (OtherBit(Immediate(cop, 8, t, offset)) <==> bit != 0)
  {
    var t := 4 * bit + (if likely then 2 else 0) + (if set_ then 1 else 0);
    ImmediateFields(cop, 8, t, offset);
    BitFields(Immediate(cop, 8, t, offset), t);
  }

  lemma BitFields(op: u32, t: nat)
    requires t < 32 && Rt(op) == t
    ensures op / 0x4_0000 % 8 == t / 4 && op / 0x1_0000 % 2 == t % 2
  {
    var m := op / 0x1_0000;
    assert op / 0x4_0000 == m / 4;
    LowFive(m, t);
  }

  lemma LowFive(m: nat, t: nat)
    requires m % 0x20 == t
    ensures m / 4 % 8 == t / 4 && m % 2 == t % 2
  {
    var q := m / 0x20;
    assert m == 0x20 * q + t;
  }

  // j and jal stay in the 256 MB of their delay slot; jr and jalr lead to their
  // register, with whatever stands in the other fields.
  lemma JumpsTo(link: bool, index: nat, s: nat, rest: nat, epc: u32, r: seq<u32>, flags: nat -> bool)
    requires |r| == 32 && index < 0x400_0000 && s < 32 && rest < 0x8000
    ensures var next := (epc + 4) % 0x1_0000_0000;
      NextPc((if link then 3 else 2) * 0x400_0000 + index, epc, r, flags) == next - next % 0x1000_0000 + 4 * index
    ensures NextPc(s * 0x20_0000 + rest * 0x40 + (if link then 9 else 8), epc, r, flags) == r[s]
  {
    JumpFields(if link then 3 else 2, index);
    RegisterFields(s, rest, if link then 9 else 8);
    var next := (epc + 4) % 0x1_0000_0000;
    assert next / 0x1000_0000 * 0x1000_0000 == next - next % 0x1000_0000;
  }

  lemma JumpFields(major: nat, index: nat)
    requires major < 64 && index < 0x400_0000
    ensures var op := major * 0x400_0000 + index; op < WORD && Major(op) == major && op % 0x400_0000 == index
  {
  }

  lemma RegisterFields(s: nat, rest: nat, function_: nat)
    requires s < 32 && rest < 0x8000 && function_ < 0x40
    ensures var op := s * 0x20_0000 + rest * 0x40 + function_;
      op < WORD && Major(op) == 0 && Rs(op) == s && op % 0x40 == function_
  {
  }

  // ----- where a step stops -----

  // A live breakpoint, with the break instruction in memory.
  ghost predicate StopsAt(m: Machine, a: u32)
  {
    && a in m.mem && m.mem[a] == 0x0000_000d
    && ((m.bp0.active && m.bp0.addr == a) || (m.bp1.active && m.bp1.addr == a))
  }

  // The program goes on from the place the host asks for, with its registers,
  // and stops at the next instruction from there.
  lemma StepStopsNext(s: State, at: Option<u32>, flags: nat -> bool)
    requires s.m.Clean() && s.Allows(SingleStep(at))
    ensures var t, from := s.Answer(SingleStep(at)), if at.Some? then at.value else s.epc;
      && t.epc == from && t.r == s.r && t.m.Under() == s.m.mem
      && (!OtherBit(s.m.mem[from]) ==> StopsAt(t.m, NextPc(s.m.mem[from], from, s.r, flags)))
  {
    var t, from := s.Answer(SingleStep(at)), if at.Some? then at.value else s.epc;
    var op := s.m.mem[from];
    StepCovers(op, from, s.r);
    PlantedStop(s.m, from, s.r);
    OneEvent(s.m, Steps(from, s.r));
    if !OtherBit(op) { assert NextPc(op, from, s.r, flags) in Planted(op, from, s.r, false); }
  }

  lemma PlantedStop(m: Machine, epc: u32, r: seq<u32>)
    requires m.Clean() && m.CanStep(epc, r, false)
    ensures forall a :: a in Planted(m.mem[epc], epc, r, false) ==> StopsAt(m.Stepped(epc, r, false), a)
  {
  }

  // Stepping over calls leaves a breakpoint behind the delay slot alone; every
  // other instruction is stepped as usual.
  lemma SkipsCalls(op: u32, epc: u32, r: seq<u32>)
    requires |r| == 32
    ensures Planted(op, epc, r, true)
      == if op / 0x400_0000 == 3 || (op / 0x400_0000 == 0 && op % 0x40 == 9) then {(epc + 8) % 0x1_0000_0000}
         else Planted(op, epc, r, false)
  {
  }

  // ----- where the program goes on -----

  // Commands that leave registers and place alone.
  ghost predicate Quiet(commands: seq<Command>)
  {
    forall i :: 0 <= i < |commands| ==> commands[i].Query? || commands[i].WriteMemory?
  }

  lemma {:induction false} QuietAnswers(s: State, quiet: seq<Command>, rest: seq<Command>)
    requires Quiet(quiet) && AllowsAll(s, quiet + rest)
    ensures AllowsAll(s, quiet)
    ensures var t := AnswerAll(s, quiet);
      t.epc == s.epc && t.r == s.r && AllowsAll(t, rest) && AnswerAll(s, quiet + rest) == AnswerAll(t, rest)
    decreases |quiet|
  {
    if quiet == [] {
      assert quiet + rest == rest;
    } else {
      assert (quiet + rest)[0] == quiet[0] && (quiet + rest)[1..] == quiet[1..] + rest;
      QuietAnswers(s.Answer(quiet[0]), quiet[1..], rest);
    }
  }

  // The registers and the place that were written last are those the program
  // goes on with, unless the command that lets it go on names another place.
  lemma GoesOnWith(s: State, quiet: seq<Command>, regs: seq<u32>, pc: u32, quiet': seq<Command>, last: Command)
    requires Quiet(quiet) && Quiet(quiet') && last.Restarts()
    requires AllowsAll(s, quiet + ([WriteRegisters(regs, pc)] + (quiet' + [last])))
    ensures var t := AnswerAll(s, quiet + ([WriteRegisters(regs, pc)] + (quiet' + [last])));
      t.r == regs && t.epc == if !last.Detach? && last.at.Some? then last.at.value else pc
  {
    var w := WriteRegisters(regs, pc);
    QuietAnswers(s, quiet, [w] + (quiet' + [last]));
    var t := AnswerAll(s, quiet);
    assert ([w] + (quiet' + [last]))[1..] == quiet' + [last];
    QuietAnswers(t.Answer(w), quiet', [last]);
    OneAnswer(AnswerAll(t.Answer(w), quiet'), last);
  }

  // Without that, those it stopped with.
  lemma GoesOnAsBefore(s: State, quiet: seq<Command>, last: Command)
    requires Quiet(quiet) && last.Restarts() && AllowsAll(s, quiet + [last])
    ensures var t := AnswerAll(s, quiet + [last]);
      t.r == s.r && t.epc == if !last.Detach? && last.at.Some? then last.at.value else s.epc
  {
    QuietAnswers(s, quiet, [last]);
    OneAnswer(AnswerAll(s, quiet), last);
  }

  lemma OneAnswer(s: State, last: Command)
    requires last.Restarts() && AllowsAll(s, [last])
    ensures var t := AnswerAll(s, [last]);
      t.r == s.r && t.epc == if !last.Detach? && last.at.Some? then last.at.value else s.epc
  {
  }
}
