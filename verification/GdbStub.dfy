/** The debugger stub's single step: temporary breakpoints at every place the
    next instruction can be, and their removal at the next exception. */
module GdbStub {
  import opened Bits
  import opened Wrappers

  const BREAK: u32 := 0x0000_000d

  // Memory as its readable words.
  type Memory = map<u32, u32>

  datatype Breakpoint = Breakpoint(addr: u32, oldInst: u32, active: bool)

  function Plus(a: u32, b: int): u32 { (a + b) % WORD }

  function Offset(opcode: u32): int
  {
    var x := opcode % 0x1_0000;
    if x < 0x8000 then x else x - 0x1_0000
  }

  // ----- what the processor does -----

  datatype Instruction = Branch(taken: bool, target: u32) | Jump(target: u32) | Other

  function Major(op: u32): nat { op / 0x400_0000 }
  function Rs(op: u32): (n: nat) ensures n < 32 { op / 0x20_0000 % 0x20 }
  function Rt(op: u32): (n: nat) ensures n < 32 { op / 0x1_0000 % 0x20 }

  predicate Negative(x: u32) { x >= 0x8000_0000 }

  // The MIPS branches and jumps: the condition on the registers, and `flags`
  // for what the condition bits of a coprocessor say (bit 16 of the opcode
  // tells on which value the branch is taken, bits 18 to 20 which bit it is).
  function Decode(op: u32, epc: u32, r: seq<u32>, flags: nat -> bool): Instruction
    requires |r| == 32
  {
    var s, t, target := r[Rs(op)], r[Rt(op)], Plus(epc, 4 + Offset(op) * 4);
    match Major(op)
    case 4 => Branch(s == t, target)
    case 20 => Branch(s == t, target)
    case 5 => Branch(s != t, target)
    case 21 => Branch(s != t, target)
    case 6 => Branch(s == 0 || Negative(s), target)
    case 22 => Branch(s == 0 || Negative(s), target)
    case 7 => Branch(s != 0 && !Negative(s), target)
    case 23 => Branch(s != 0 && !Negative(s), target)
    case 1 =>
      if Rt(op) in {0, 2, 16, 18} then Branch(Negative(s), target)
      else if Rt(op) in {1, 3, 17, 19} then Branch(!Negative(s), target)
      else Other
    case 2 => Jump(op % 0x400_0000 * 4 + Plus(epc, 4) / 0x1000_0000 * 0x1000_0000)
    case 3 => Jump(op % 0x400_0000 * 4 + Plus(epc, 4) / 0x1000_0000 * 0x1000_0000)
    case 0 => if op % 0x40 == 8 || op % 0x40 == 9 then Jump(s) else Other
    case _ =>
      if 16 <= Major(op) <= 18 && Rs(op) == 8 then
        Branch(flags(op / 0x4_0000 % 8) == (op / 0x1_0000 % 2 == 1), target)
      else Other
  }

  // Where the program is after this instruction and its delay slot.
  function NextPc(op: u32, epc: u32, r: seq<u32>, flags: nat -> bool): u32
    requires |r| == 32
  {
    match Decode(op, epc, r, flags)
    case Branch(taken, target) => if taken then target else Plus(epc, 8)
    case Jump(target) => target
    case Other => Plus(epc, 4)
  }

  // A coprocessor branch on a condition bit other than the first.
  predicate OtherBit(op: u32)
  {
    16 <= Major(op) <= 18 && Rs(op) == 8 && op / 0x4_0000 % 8 != 0
  }

  // ----- what the stub makes of an instruction -----

  datatype Step = Step(target: u32, branch: bool, cond: bool, link: bool)

  function StepOf(op: u32, epc: u32, r: seq<u32>): Step
    requires |r| == 32
  {
    var next := Plus(epc, 4);
    var conditional := Step(Plus(next, Offset(op) * 4), true, true, false);
    var plain := Step(next, false, false, false);
    match Major(op)
    case 4 => conditional case 20 => conditional case 7 => conditional case 23 => conditional
    case 6 => conditional case 22 => conditional case 5 => conditional case 21 => conditional
    case 1 => if Rt(op) in {1, 17, 19, 3, 0, 16, 18, 2} then conditional else plain
    case 3 => Step(op % 0x400_0000 * 4 + next / 0x1000_0000 * 0x1000_0000, true, false, true)
    case 2 => Step(op % 0x400_0000 * 4 + next / 0x1000_0000 * 0x1000_0000, true, false, false)
    case 0 =>
      if op % 0x40 == 9 then Step(r[Rs(op)], true, false, true)
      else if op % 0x40 == 8 then Step(r[Rs(op)], true, false, false)
      else plain
    case _ =>
      if 16 <= Major(op) <= 18 && op / 0x1_0000 % 0x400 in {0x100, 0x102, 0x101, 0x103} then conditional else plain
  }

  // The places of the breakpoints.
  function Planted(op: u32, epc: u32, r: seq<u32>, skip: bool): set<u32>
    requires |r| == 32
  {
    var s := StepOf(op, epc, r);
    if s.link && skip then {Plus(epc, 8)}
    else if s.branch && s.cond then {s.target, Plus(epc, 8)}
    else {s.target}
  }

  // The step stops at the next instruction, whatever the branch decides;
  // except for the coprocessor branches the stub does not know.
  lemma StepCovers(op: u32, epc: u32, r: seq<u32>)
    requires |r| == 32
    ensures (forall flags: nat -> bool :: NextPc(op, epc, r, flags) in Planted(op, epc, r, false)) <==> !OtherBit(op)
  {
    TargetIsSame(epc, Offset(op));
    if OtherBit(op) {
      var flags: nat -> bool := _ => op / 0x1_0000 % 2 != 1;
      CopFields(op);
      Eight(epc);
      assert NextPc(op, epc, r, flags) == Plus(epc, 8);
    } else {
      CopFields(op);
    }
  }

  // What may still run before the program is at the next instruction: the
  // instruction, and the delay slot of a branch or jump.
  function StillRuns(op: u32, epc: u32, r: seq<u32>): set<u32>
    requires |r| == 32
  {
    {epc} + if Decode(op, epc, r, _ => true).Other? then {} else {Plus(epc, 4)}
  }

  // No breakpoint stands in the way of the step itself, unless a branch or jump
  // leads to itself or its delay slot, or is one the stub does not know: then
  // the step stops before it is done.
  lemma StepIsClear(op: u32, epc: u32, r: seq<u32>)
    requires |r| == 32
    ensures Planted(op, epc, r, false) !! StillRuns(op, epc, r)
      <==> !OtherBit(op) && !(StepOf(op, epc, r).branch && StepOf(op, epc, r).target in {epc, Plus(epc, 4)})
  {
    CopFields(op);
    Eight(epc);
    var s := StepOf(op, epc, r);
    assert s.target in Planted(op, epc, r, false) && epc in StillRuns(op, epc, r);
    if OtherBit(op) { assert Plus(epc, 4) in Planted(op, epc, r, false) && Plus(epc, 4) in StillRuns(op, epc, r); }
    if s.branch { assert Plus(epc, 4) in StillRuns(op, epc, r); }
  }

  // A branch to its own delay slot, and a branch to itself.
  lemma StepsStopEarly(epc: u32, r: seq<u32>)
    requires |r| == 32
    ensures Plus(epc, 4) in Planted(0x1000_0000, epc, r, false) * StillRuns(0x1000_0000, epc, r)
    ensures epc in Planted(0x1000_ffff, epc, r, false) * StillRuns(0x1000_ffff, epc, r)
  {
    BranchPlanted(0x1000_0000, epc, r);
    BranchPlanted(0x1000_ffff, epc, r);
    Back(epc);
  }

  lemma BranchPlanted(op: u32, epc: u32, r: seq<u32>)
    requires |r| == 32 && Major(op) == 4
    ensures Plus(Plus(epc, 4), Offset(op) * 4) in Planted(op, epc, r, false)
      && StillRuns(op, epc, r) == {epc, Plus(epc, 4)}
  {
  }

  lemma Back(epc: u32)
    ensures Plus(Plus(epc, 4), 0) == Plus(epc, 4) && Plus(Plus(epc, 4), -4) == epc
  {
  }

  lemma TargetIsSame(epc: u32, offset: int)
    ensures Plus(Plus(epc, 4), offset * 4) == Plus(epc, 4 + offset * 4)
  {
    if epc + 4 >= WORD { OnceAround(epc + 4 - WORD + offset * 4); }
  }

  lemma OnceAround(x: int)
    ensures (x + WORD) % WORD == x % WORD
  {
  }

  lemma Eight(epc: u32)
    ensures Plus(epc, 8) != Plus(epc, 4) && Plus(epc, 4) != epc && Plus(epc, 8) != epc
  {
  }

  lemma CopFields(op: u32)
    ensures op / 0x1_0000 % 0x400 in {0x100, 0x102, 0x101, 0x103} <==> Rs(op) == 8 && op / 0x4_0000 % 8 == 0
  {
    var m := op / 0x1_0000;
    assert op / 0x20_0000 == m / 0x20 && op / 0x4_0000 == m / 4;
    assert m % 0x400 == m / 0x20 % 0x20 * 0x20 + m % 0x20;
    assert m / 4 % 8 == m % 0x20 / 4;
  }

  // ----- memory with and without the breakpoints -----

  function Restored(mem: Memory, b: Breakpoint): Memory
  {
    if b.active then mem[b.addr := b.oldInst] else mem
  }

  // The program as it is without the step breakpoints.
  function Program(mem: Memory, b0: Breakpoint, b1: Breakpoint): Memory
  {
    Restored(Restored(mem, b0), b1)
  }

  // A program that runs between the step and the next exception writes these
  // words; taking the breakpoints out afterwards gives what the program would
  // have made of its memory without them, if and only if it did not overwrite
  // a breakpoint with something else than the instruction under it.
  lemma RunThenRestore(mem: Memory, b0: Breakpoint, b1: Breakpoint, writes: Memory)
    requires b0.active && b1.active ==> b0.addr != b1.addr
    ensures Program(mem + writes, b0, b1) == Program(mem, b0, b1) + writes
      <==> (b0.active && b0.addr in writes ==> writes[b0.addr] == b0.oldInst)
           && (b1.active && b1.addr in writes ==> writes[b1.addr] == b1.oldInst)
  {
    var got, want := Program(mem + writes, b0, b1), Program(mem, b0, b1) + writes;
    assert got.Keys == want.Keys;
    if b0.active && b0.addr in writes {
      assert got[b0.addr] == b0.oldInst && want[b0.addr] == writes[b0.addr];
    }
    if b1.active && b1.addr in writes {
      assert got[b1.addr] == b1.oldInst && want[b1.addr] == writes[b1.addr];
    }
    forall a | a in want && !(b0.active && a == b0.addr) && !(b1.active && a == b1.addr) ensures got[a] == want[a] { }
  }

  // ----- any session -----

  datatype Machine = Machine(mem: Memory, bp0: Breakpoint, bp1: Breakpoint)
  {
    predicate Clean() { !bp0.active && !bp1.active }

    function Under(): Memory { Program(mem, bp0, bp1) }

    // Two live breakpoints are in two places.
    predicate Apart() { bp0.active && bp1.active ==> bp0.addr != bp1.addr }

    // What the program writes leaves the live breakpoints as they are, or puts
    // the instruction under one of them back.
    predicate Spares(writes: Memory)
    {
      && (bp0.active && bp0.addr in writes ==> writes[bp0.addr] == bp0.oldInst)
      && (bp1.active && bp1.addr in writes ==> writes[bp1.addr] == bp1.oldInst)
    }

    function Stopped(): Machine
    {
      Machine(Under(), bp0.(active := false), bp1.(active := false))
    }

    predicate CanStep(epc: u32, r: seq<u32>, skip: bool)
    {
      |r| == 32 && epc in mem && Planted(mem[epc], epc, r, skip) <= mem.Keys
    }

    function Stepped(epc: u32, r: seq<u32>, skip: bool): Machine
      requires CanStep(epc, r, skip)
    {
      var s, after := StepOf(mem[epc], epc, r), Plus(epc, 8);
      if s.link && skip then Machine(mem[after := BREAK], bp0, Breakpoint(after, mem[after], true))
      else if s.branch && s.cond && s.target != after then
        Machine(mem[s.target := BREAK][after := BREAK], Breakpoint(s.target, mem[s.target], true),
                Breakpoint(after, mem[after], true))
      else Machine(mem[s.target := BREAK], Breakpoint(s.target, mem[s.target], true), bp1)
    }
  }

  // An exception, a write by the host, a step, and the program running.
  datatype Event = Trap | HostWrites(words: Memory) | Steps(epc: u32, r: seq<u32>) | Runs(writes: Memory)
  {
    predicate Legal(m: Machine)
    {
      match this
      case Trap => true
      case HostWrites(words) => m.Clean()
      case Steps(epc, r) => m.Clean() && m.CanStep(epc, r, false)
      case Runs(writes) => m.Spares(writes)
    }

    function Apply(m: Machine): Machine
      requires Legal(m)
    {
      match this
      case Trap => m.Stopped()
      case HostWrites(words) => m.(mem := m.mem + words)
      case Steps(epc, r) => m.Stepped(epc, r, false)
      case Runs(writes) => m.(mem := m.mem + writes)
    }

    // The same event in a world without breakpoints.
    function Ideal(mem: Memory): Memory
    {
      match this
      case Trap => mem
      case HostWrites(words) => mem + words
      case Steps(_, _) => mem
      case Runs(writes) => mem + writes
    }
  }

  predicate Session(m: Machine, events: seq<Event>)
    decreases |events|
  {
    events == [] || (events[0].Legal(m) && Session(events[0].Apply(m), events[1..]))
  }

  function After(m: Machine, events: seq<Event>): Machine
    requires Session(m, events)
    decreases |events|
  {
    if events == [] then m else After(events[0].Apply(m), events[1..])
  }

  function IdealAfter(mem: Memory, events: seq<Event>): Memory
    decreases |events|
  {
    if events == [] then mem else IdealAfter(events[0].Ideal(mem), events[1..])
  }

  lemma OneEvent(m: Machine, e: Event)
    requires m.Apart() && e.Legal(m)
    ensures e.Apply(m).Apart() && e.Apply(m).Under() == e.Ideal(m.Under())
    ensures e.Trap? ==> e.Apply(m).Clean() && e.Apply(m).mem == m.Under()
  {
    match e
    case Trap =>
    case HostWrites(words) =>
    case Steps(epc, r) =>
    case Runs(writes) => RunThenRestore(m.mem, m.bp0, m.bp1, writes);
  }

  // Over every session the memory under the breakpoints is what it would be
  // without them.
  lemma {:induction false} BreakpointsAreInvisible(m: Machine, events: seq<Event>)
    requires m.Apart() && Session(m, events)
    ensures After(m, events).Apart() && After(m, events).Under() == IdealAfter(m.Under(), events)
    decreases |events|
  {
    if events != [] {
      OneEvent(m, events[0]);
      BreakpointsAreInvisible(events[0].Apply(m), events[1..]);
    }
  }

  // ----- the commands of the host -----

  // What the host asks for while the program is stopped.
  datatype Command = Continue(at: Option<u32>) | Detach | SingleStep(at: Option<u32>)
                   | WriteRegisters(r: seq<u32>, epc: u32)
                   | WriteMemory(words: Memory) | Query
  {
    // The program goes on behind these.
    predicate Restarts() { Continue? || Detach? || SingleStep? }
  }

  // The machine with the registers of the program.
  datatype State = State(m: Machine, epc: u32, r: seq<u32>)
  {
    function At(at: Option<u32>): u32 { if at.Some? then at.value else epc }

    // A step needs the instruction and every place it can lead to.
    predicate Allows(c: Command)
    {
      && (c.WriteRegisters? ==> |c.r| == 32)
      && (c.SingleStep? ==> m.CanStep(At(c.at), r, false))
    }

    function Answer(c: Command): State
      requires Allows(c)
    {
      match c
      case Continue(at) => this.(epc := At(at))
      case Detach => this
      case SingleStep(at) => State(m.Stepped(At(at), r, false), At(at), r)
      case WriteRegisters(regs, pc) => State(m, pc, regs)
      case WriteMemory(words) => this.(m := m.(mem := m.mem + words))
      case Query => this
    }
  }

  // Commands one after the other, up to the first that lets the program go on.
  predicate AllowsAll(s: State, commands: seq<Command>)
    decreases |commands|
  {
    commands == []
    || (s.Allows(commands[0]) && (commands[0].Restarts() || AllowsAll(s.Answer(commands[0]), commands[1..])))
  }

  function AnswerAll(s: State, commands: seq<Command>): State
    requires AllowsAll(s, commands)
    decreases |commands|
  {
    if commands == [] then s
    else if commands[0].Restarts() then s.Answer(commands[0])
    else AnswerAll(s.Answer(commands[0]), commands[1..])
  }

  // What they are as events.
  function EventsOf(s: State, commands: seq<Command>): seq<Event>
    requires AllowsAll(s, commands)
    decreases |commands|
  {
    if commands == [] then []
    else
      var c := commands[0];
      var first := match c
        case SingleStep(at) => [Steps(s.At(at), s.r)]
        case WriteMemory(words) => [HostWrites(words)]
        case _ => [];
      first + if c.Restarts() then [] else EventsOf(s.Answer(c), commands[1..])
  }

  // Whatever the host asks for is a session, so it finds and leaves memory as
  // it would be without breakpoints.
  lemma {:induction false} CommandsAreSession(s: State, commands: seq<Command>)
    requires s.m.Clean() && AllowsAll(s, commands)
    ensures var events := EventsOf(s, commands);
      Session(s.m, events) && After(s.m, events) == AnswerAll(s, commands).m
    decreases |commands|
  {
    if commands != [] {
      var c := commands[0];
      if c.Restarts() {
        if c.SingleStep? { OneStep(s.m, Steps(s.At(c.at), s.r), []); }
      } else {
        var rest := EventsOf(s.Answer(c), commands[1..]);
        CommandsAreSession(s.Answer(c), commands[1..]);
        if c.WriteMemory? {
          OneStep(s.m, HostWrites(c.words), rest);
        } else {
          assert [] + rest == rest;
        }
      }
    }
  }

  lemma OneStep(m: Machine, e: Event, rest: seq<Event>)
    requires e.Legal(m) && Session(e.Apply(m), rest)
    ensures Session(m, [e] + rest) && After(m, [e] + rest) == After(e.Apply(m), rest)
    ensures IdealAfter(m.Under(), [e] + rest) == IdealAfter(e.Ideal(m.Under()), rest)
  {
    assert ([e] + rest)[1..] == rest;
  }

  class Stub {
    var mem: Memory
    var epc: u32
    var r: seq<u32>
    var bp0: Breakpoint
    var bp1: Breakpoint

    // No breakpoint is live.
    ghost predicate Clean()
      reads this
    {
      |r| == 32 && !bp0.active && !bp1.active
    }

    // step_generic
    method StepGeneric(skip: bool)
      requires Clean() && epc in mem && Planted(mem[epc], epc, r, skip) <= mem.Keys
      modifies this`mem, this`bp0, this`bp1
      ensures Program(mem, bp0, bp1) == old(mem) && mem.Keys == old(mem.Keys)
      ensures var places := Planted(old(mem)[epc], epc, r, skip);
        && (forall a :: a in places ==> mem[a] == 0x0000_000d)
        && (forall a :: a in mem && a !in places ==> mem[a] == old(mem)[a])
        && places == (if bp0.active then {bp0.addr} else {}) + (if bp1.active then {bp1.addr} else {})
      ensures bp0.active && bp1.active ==> bp0.addr != bp1.addr
      ensures Machine(mem, bp0, bp1) == Machine(old(mem), old(bp0), old(bp1)).Stepped(epc, r, skip)
    {
      var s := StepOf(mem[epc], epc, r);
      var after := Plus(epc, 8);
      if s.link && skip {
        bp1 := Breakpoint(after, mem[after], true);
        mem := mem[after := BREAK];
      } else if s.branch {
        bp0 := Breakpoint(s.target, mem[s.target], true);
        mem := mem[s.target := BREAK];
        if s.cond && s.target != after {
          bp1 := Breakpoint(after, mem[after], true);
          mem := mem[after := BREAK];
        }
      } else {
        bp0 := Breakpoint(s.target, mem[s.target], true);
        mem := mem[s.target := BREAK];
      }
    }

    // The entry of handle_exception.
    method RemoveBreakpoints()
      requires |r| == 32
      modifies this`mem, this`bp0, this`bp1
      ensures Clean() && mem == Program(old(mem), old(bp0), old(bp1))
      ensures Machine(mem, bp0, bp1) == Machine(old(mem), old(bp0), old(bp1)).Stopped()
    {
      if bp0.active {
        mem := mem[bp0.addr := bp0.oldInst];
        bp0 := bp0.(active := false);
      }
      if bp1.active {
        mem := mem[bp1.addr := bp1.oldInst];
        bp1 := bp1.(active := false);
      }
    }

    ghost function Whole(): State
      reads this
    {
      State(Machine(mem, bp0, bp1), epc, r)
    }

    // One command; true when the program is to go on.
    method Serve(c: Command) returns (restart: bool)
      requires Clean() && Whole().Allows(c)
      modifies this
      ensures restart == c.Restarts() && Whole() == old(Whole()).Answer(c)
      ensures |r| == 32 && (!c.SingleStep? ==> Clean()) && Whole().m.Apart()
      ensures Program(mem, bp0, bp1) == if c.WriteMemory? then old(mem) + c.words else old(mem)
    {
      restart := false;
      match c {
        case Continue(at) =>
          if at.Some? { epc := at.value; }
          restart := true;
        case Detach =>
          restart := true;
        case SingleStep(at) =>
          if at.Some? { epc := at.value; }
          StepGeneric(false);
          restart := true;
        case WriteRegisters(regs, pc) =>
          r, epc := regs, pc;
        case WriteMemory(words) =>
          mem := mem + words;
        case Query =>
      }
    }

    // The state the host finds: breakpoints taken out, and a stop in the entry
    // of the breakpoint function left for its caller.
    ghost function Found(trap: nat, entry: u32): State
      reads this
      requires |r| == 32
    {
      State(Whole().m.Stopped(), if epc == entry && trap == 9 then r[31] else epc, r)
    }

    // handle_exception: an exception, and commands up to one that restarts.
    method HandleException(trap: nat, entry: u32, commands: seq<Command>) returns (served: nat)
      requires |r| == 32 && AllowsAll(Found(trap, entry), commands)
      requires Whole().m.Apart()
      modifies this
      ensures Whole() == AnswerAll(old(Found(trap, entry)), commands)
      ensures commands == [] ==>
        r == old(r) && epc == if old(epc) == entry && trap == 9 then old(r)[31] else old(epc)
      ensures served <= |commands| && (served < |commands| ==> 0 < served && commands[served - 1].Restarts())
      ensures var events := [Trap] + EventsOf(old(Found(trap, entry)), commands);
        && Session(old(Whole()).m, events) && Whole().m == After(old(Whole()).m, events)
        && Whole().m.Apart() && Whole().m.Under() == IdealAfter(old(Whole()).m.Under(), events)
    {
      ghost var m0, s := Whole().m, Found(trap, entry);
      if epc == entry && trap == 9 {
        epc := r[31];
      }
      RemoveBreakpoints();
      assert Whole() == s;
      CommandsAreSession(s, commands);
      OneStep(m0, Trap, EventsOf(s, commands));
      BreakpointsAreInvisible(m0, [Trap] + EventsOf(s, commands));
      served := ServeAll(commands);
    }

    method ServeAll(commands: seq<Command>) returns (served: nat)
      requires Clean() && AllowsAll(Whole(), commands)
      modifies this
      ensures Whole() == AnswerAll(old(Whole()), commands)
      ensures served <= |commands| && (served < |commands| ==> 0 < served && commands[served - 1].Restarts())
    {
      served := 0;
      var restart := false;
      while !restart && served < |commands|
        invariant served <= |commands| && (restart ==> 0 < served && commands[served - 1].Restarts())
        invariant !restart ==>
          && Clean() && AllowsAll(Whole(), commands[served..])
          && AnswerAll(Whole(), commands[served..]) == AnswerAll(old(Whole()), commands)
        invariant restart ==> Whole() == AnswerAll(old(Whole()), commands)
        decreases |commands| - served, !restart
      {
        assert commands[served..][0] == commands[served] && commands[served..][1..] == commands[served + 1..];
        restart := Serve(commands[served]);
        served := served + 1;
      }
    }
  }
}
