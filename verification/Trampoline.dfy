/** v86_int: calling a real-mode interrupt handler so that its IRET ends the emulation. */
module Trampoline {
  import opened Words
  import opened Machines
  import opened Stacks
  import opened Blocks
  import opened Histories

  const STACK_SIZE: nat := 0x2000
  const HALT_SIZE: nat := 0x100
  const REAL_MEM_BASE: nat := 0x1_0000
  const REAL_MEM_SIZE: nat := 0x2_0000

  /** X86_IF_MASK | X86_IOPL_MASK */
  const ENTRY_FLAGS: u16 := 0x3200

  const OP_IRET: u8 := 0xCF
  const OP_HLT: u8 := 0xF4

  // --- The execution loop

  datatype Outcome = Running(s: State) | Returned(s: State)

  /** X86EMU_exec's loop after up to n turns. */
  function Exec(turn: State -> State, s: State, n: nat): Outcome
    decreases n
  {
    if s.intr.halted then Returned(s) else if n == 0 then Running(s) else Exec(turn, turn(s), n - 1)
  }

  lemma {:induction false} ExecSplit(turn: State -> State, s: State, n: nat, k: nat)
    ensures Exec(turn, s, n + k) == match Exec(turn, s, n)
                                    case Returned(t) => Returned(t)
                                    case Running(t) => Exec(turn, t, k)
    decreases n
  {
    if n != 0 && !s.intr.halted {
      ExecSplit(turn, turn(s), n - 1, k);
    }
  }

  lemma TwoTurns(turn: State -> State, s: State, t: State, u: State, k: nat)
    requires !s.intr.halted && turn(s) == t && !t.intr.halted && turn(t) == u && u.intr.halted
    ensures Exec(turn, s, 2 + k) == Returned(u)
  {
    assert Exec(turn, s, 2 + k) == Exec(turn, t, 1 + k);
    assert Exec(turn, t, 1 + k) == Exec(turn, u, k);
  }

  // --- One turn

  predicate Pending(i: Intr) { i.synch || i.asynch || i.halted }

  /** x86emu_intr_handle, every vector being hooked to x86emu_do_int. It leaves `intr` set. */
  function Handle(s: State): State { if s.intr.synch then DoInt(s, s.intno) else s }

  /** The part of a turn of X86EMU_exec's loop before the fetch. */
  function Deliver(s: State): State {
    if Pending(s.intr) && ((s.intr.synch && (s.intno == 0 || s.intno == 2)) || !s.flags.ctl.inf) then Handle(s) else s
  }

  /** No interrupt is delivered: none is pending, or one that waits for IF to be cleared. */
  predicate Quiet(s: State) { s.intr.synch ==> s.flags.ctl.inf && s.intno != 0 && s.intno != 2 }

  lemma QuietDelivers(s: State)
    requires Quiet(s)
    ensures Deliver(s) == s
  {
  }

  function Fetch(s: State): u8 { s.mem[Linear(s.seg.cs, s.spc.eip.lo)] }

  function Fetched(s: State): State { s.(spc := s.spc.(eip := s.spc.eip.(lo := Add16(s.spc.eip.lo, 1)))) }

  /** x86emuOp_halt */
  function Halt(s: State): State { ClearPrefixes(s.(intr := s.intr.(halted := true))) }

  /** Dispatch through the opcode table; `ops` is every handler but IRET and HLT, whatever they do. */
  function Dispatch(ops: (u8, State) -> State, op: u8, s: State): State {
    if op == OP_IRET then ClearPrefixes(Iret(s)) else if op == OP_HLT then Halt(s) else ops(op, s)
  }

  function Turn(ops: (u8, State) -> State, s: State): State {
    var t := Deliver(s);
    Dispatch(ops, Fetch(t), Fetched(t))
  }

  /** The loop's turn as a function of the state. */
  function TurnOf(ops: (u8, State) -> State): (turn: State -> State)
    ensures forall s :: turn(s) == Turn(ops, s)
  {
    (s: State) => Turn(ops, s)
  }

  // --- v86_int

  /** What the caller passes in and v86_int does not overwrite. */
  datatype Regs = Regs(gen: Gen, spc: Spc, es: u16)

  /** The state v86_int builds before its pushes. */
  function Prepared(s: State, r: Regs, stack: nat, num: u8): State
    requires stack < 0x10_0000
  {
    s.(gen := r.gen,
       seg := Seg(Vector(s.mem, num, 2), 0x0040, stack / 16, r.es, 0, 0),
       spc := r.spc.(eip := Item(Vector(s.mem, num, 0)), esp := Item(STACK_SIZE)),
       flags := FlagsOf(ENTRY_FLAGS))
  }

  function EntryFrame(halt: nat): (vs: seq<Reg>)
    requires halt < 0x10_0000
    ensures |vs| == 3
  {
    [Item(ENTRY_FLAGS), Item(halt / 16), Item(0)]
  }

  /** The state in which X86EMU_exec's loop starts. */
  function Entry(s: State, r: Regs, stack: nat, halt: nat, num: u8): State
    requires stack < 0x10_0000 && halt < 0x10_0000
  {
    PushItems(Prepared(s, r, stack, num), false, EntryFrame(halt)).(intr := Intr(false, false, false))
  }

  /** The register settings of v86_int */
  method SetUp(m: Machine, r: Regs, stack: nat, num: u8)
    requires stack < 0x10_0000
    modifies m`gen, m`spc, m`seg, m`flags
    ensures m.Snap() == Prepared(old(m.Snap()), r, stack, num)
  {
    hide Vector, FlagsOf;
    m.gen := r.gen;
    m.spc := r.spc;
    m.seg := Seg(Vector(m.mem, num, 2), 0x0040, m.seg.ss, r.es, 0, 0);
    m.spc := m.spc.(eip := Item(Vector(m.mem, num, 0)));
    m.seg := m.seg.(ss := stack / 16);
    m.spc := m.spc.(esp := Item(STACK_SIZE));
    m.flags := FlagsOf(ENTRY_FLAGS);
  }

  /** v86_int up to the loop of X86EMU_exec */
  method EnterInt(m: Machine, r: Regs, stack: nat, halt: nat, num: u8)
    requires stack < 0x10_0000 && halt < 0x10_0000
    modifies m
    ensures m.Snap() == Entry(old(m.Snap()), r, stack, halt, num)
  {
    hide PushMemory, Vector, FlagsOf;
    SetUp(m, r, stack, num);
    ThreePushes(m.mem, m.seg.ss, STACK_SIZE, Item(ENTRY_FLAGS), Item(halt / 16), Item(0));
    PushW(m, 0x3200);
    PushW(m, halt / 16);
    PushW(m, 0);
    m.intr := Intr(false, false, false);
  }

  /** The guest kept what it must: the three words pushed for it and the HLT at the halt block. */
  predicate FrameKept(e: Memory, t: Memory, stack: nat, halt: nat)
    requires stack + STACK_SIZE <= MEM_SIZE && halt < MEM_SIZE
  {
    (forall a | stack + STACK_SIZE - 6 <= a < stack + STACK_SIZE :: t[a] == e[a]) && t[halt] == OP_HLT
  }

  /** The guest is about to execute an IRET at the stack depth it was entered with. */
  predicate AtReturn(t: State, stack: nat) {
    !t.intr.halted && Quiet(t) && Fetch(t) == OP_IRET && t.seg.ss as int == stack / 16 && t.spc.esp.lo as int == STACK_SIZE - 6
  }

  /** The pushes of v86_int land in the last six bytes of the stack block. */
  lemma FrameSlot(stack: nat, k: nat)
    requires stack % 16 == 0 && stack < 0x10_0000 && 1 <= k <= 3
    ensures Slot(stack / 16, STACK_SIZE, 2 * k) == stack + STACK_SIZE - 2 * k
  {
  }

  /** Words in bytes that did not change. */
  lemma SameItem(m: Memory, t: Memory, a: nat)
    requires InMemory(a, 4) && m[a] == t[a] && m[a + 1] == t[a + 1]
    ensures ReadItem(m, a, false) == ReadItem(t, a, false)
  {
  }

  /** What the guest's IRET finds on the stack it was given: item i of the frame, from the last on. */
  lemma FramePopped(mem: Memory, t: State, stack: nat, halt: nat, i: nat)
    requires stack % 16 == 0 && stack < 0xF_0000 && halt < 0x10_0000 && i < 3
    requires t.seg.ss as int == stack / 16 && t.spc.esp.lo as int == STACK_SIZE - 6
    requires FrameKept(PushMemory(mem, stack / 16, STACK_SIZE, false, EntryFrame(halt)), t.mem, stack, halt)
    ensures Popped(t, false, i) == EntryFrame(halt)[2 - i]
  {
    hide PushMemory, ReadItem, Slot;
    var m := PushMemory(mem, stack / 16, STACK_SIZE, false, EntryFrame(halt));
    var a := stack + STACK_SIZE - 2 * (3 - i);
    PushedItem(mem, stack / 16, STACK_SIZE, false, EntryFrame(halt), 2 - i);
    FrameSlot(stack, 3 - i);
    SameItem(m, t.mem, a);
    assert Linear(t.seg.ss, Add16(t.spc.esp.lo, Depth(false, i))) == a;
  }

  /** The state X86EMU_exec returns in. */
  function Home(t: State, halt: nat): State
    requires halt < 0x10_0000
  {
    ClearPrefixes(t.(seg := t.seg.(cs := halt / 16),
                     spc := t.spc.(eip := t.spc.eip.(lo := 1), esp := t.spc.esp.(lo := STACK_SIZE)),
                     flags := FlagsOf(ENTRY_FLAGS), intr := t.intr.(halted := true)))
  }

  /** ... and the state one turn earlier, at halt:0. */
  function Landed(t: State, halt: nat): State
    requires halt < 0x10_0000
  {
    ClearPrefixes(t.(seg := t.seg.(cs := halt / 16),
                     spc := t.spc.(eip := t.spc.eip.(lo := 0), esp := t.spc.esp.(lo := STACK_SIZE)),
                     flags := FlagsOf(ENTRY_FLAGS)))
  }

  lemma ReturnTurn(ops: (u8, State) -> State, t: State, stack: nat, halt: nat)
    requires halt < 0x10_0000 && AtReturn(t, stack)
    requires Popped(t, false, 0) == Item(0) && Popped(t, false, 1) == Item(halt / 16) && Popped(t, false, 2) == Item(ENTRY_FLAGS)
    ensures Turn(ops, t) == Landed(t, halt)
  {
    hide Popped, FlagsOf, Deliver;
    var f := Fetched(t);
    QuietDelivers(t);
    PoppedSame(t, f, 0);
    PoppedSame(t, f, 1);
    PoppedSame(t, f, 2);
  }

  /** At halt:0 a turn runs HLT. */
  lemma HaltTurn(ops: (u8, State) -> State, u: State, halt: nat)
    requires halt % 16 == 0 && halt < 0x10_0000 && u.mem[halt] == OP_HLT
    requires Quiet(u) && u.seg.cs as int == halt / 16 && u.spc.eip.lo == 0
    ensures Turn(ops, u) == Halt(u.(spc := u.spc.(eip := u.spc.eip.(lo := 1))))
  {
    hide Deliver;
    QuietDelivers(u);
    assert Linear(u.seg.cs, 0) == halt;
  }

  lemma EntryFlags()
    ensures var f := FlagsOf(ENTRY_FLAGS); f.ctl.inf && !f.ctl.tf && FlagsWord(f) == ENTRY_FLAGS
  {
    hide FlagsWord, FlagsOf;
    var f := Flags(false, false, false, false, false, false, Control(false, true, false, false, false, false, 3));
    EntryWord(f);
    FlagsOfWord(f);
  }

  lemma EntryWord(f: Flags)
    requires f == Flags(false, false, false, false, false, false, Control(false, true, false, false, false, false, 3))
    ensures FlagsWord(f) == ENTRY_FLAGS
  {
    var bs := FlagBits(f);
    assert bs[11..][1..] == [];
    assert Word(bs[11..], 3) == 6;
    assert Word(bs[10..], 3) == 12 by { assert bs[10..][1..] == bs[11..]; }
    assert Word(bs[9..], 3) == 25 by { assert bs[9..][1..] == bs[10..]; }
    ShiftWord(bs, 9, 25);
  }

  /** Nine clear bits below. */
  lemma {:induction false} ShiftWord(bs: seq<bool>, k: nat, v: nat)
    requires k <= |bs| && Word(bs[k..], 3) == v && forall i | 0 <= i < k :: !bs[i]
    ensures Word(bs, 3) == Pow2(k) * v
    decreases k
  {
    if k == 0 {
      assert bs[0..] == bs;
    } else {
      assert bs[1..][k - 1..] == bs[k..];
      ShiftWord(bs[1..], k - 1, v);
      MulDouble(Pow2(k - 1), v);
    }
  }

  /** Whatever the guest and its instructions do for n turns: if it then stands at an IRET with the stack as
      deep as it was entered, with the frame and the halt byte kept and no interrupt about to be delivered, two
      turns later X86EMU_exec returns, with SP back at the top of the stack and everything else as the guest
      left it. */
  lemma GuestReturns(ops: (u8, State) -> State, s: State, r: Regs, stack: nat, halt: nat, num: u8, n: nat, t: State, k: nat)
    requires stack % 16 == 0 && stack < 0xF_0000 && halt % 16 == 0 && halt < 0x10_0000
    requires Exec(TurnOf(ops), Entry(s, r, stack, halt, num), n) == Running(t)
    requires AtReturn(t, stack) && t.mem[halt] == 0xF4
    requires forall a | stack + 0x2000 - 6 <= a < stack + 0x2000 :: t.mem[a] == Entry(s, r, stack, halt, num).mem[a]
    ensures Exec(TurnOf(ops), Entry(s, r, stack, halt, num), n + 2 + k) == Returned(Home(t, halt))
    ensures var h := Home(t, halt);
            && h.intr == t.intr.(halted := true) && h.seg == t.seg.(cs := halt / 16) && h.mem == t.mem && h.gen == t.gen
            && h.spc == t.spc.(eip := Reg(t.spc.eip.hi, 1), esp := Reg(t.spc.esp.hi, 0x2000)) && FlagsWord(h.flags) == 0x3200
  {
    hide PushMemory, Popped, Exec, Turn, FlagsOf, Vector, Fetch, TurnOf;
    var e := Entry(s, r, stack, halt, num);
    FramePopped(s.mem, t, stack, halt, 0);
    FramePopped(s.mem, t, stack, halt, 1);
    FramePopped(s.mem, t, stack, halt, 2);
    ReturnTurn(ops, t, stack, halt);
    EntryFlags();
    HaltKept(e.mem, t.mem, stack, halt);
    HaltTurn(ops, Landed(t, halt), halt);
    ExecSplit(TurnOf(ops), e, n, 2 + k);
    TwoTurns(TurnOf(ops), t, Landed(t, halt), Home(t, halt), k);
  }

  lemma HaltKept(e: Memory, t: Memory, stack: nat, halt: nat)
    requires stack + STACK_SIZE <= MEM_SIZE && halt < MEM_SIZE && FrameKept(e, t, stack, halt)
    ensures t[halt] == OP_HLT
  {
  }

  /** A byte outside the stack block is not touched by the entry. */
  lemma EntryKeeps(mem: Memory, stack: nat, halt: nat, a: nat)
    requires stack % 16 == 0 && stack < 0xF_0000 && halt < 0x10_0000
    requires a < 0x11_0000 - 4 && Apart(a, 2, stack, STACK_SIZE)
    ensures PushMemory(mem, stack / 16, STACK_SIZE, false, EntryFrame(halt))[a] == mem[a]
  {
    hide PushMemory, Slot;
    FrameSlot(stack, 1);
    FrameSlot(stack, 2);
    FrameSlot(stack, 3);
    PushedElsewhere(mem, stack / 16, STACK_SIZE, false, EntryFrame(halt), a);
  }

  /** What the guest's handler is entered with: at its vector, on the stack block six bytes below the top, with
      the BIOS data segment in DS, interrupts enabled, no single-stepping, and the caller's other registers. */
  lemma EntryRegisters(s: State, r: Regs, stack: nat, halt: nat, num: u8)
    requires stack < 0xF_0000 && halt < 0x10_0000
    ensures var e, n := Entry(s, r, stack, halt, num), num as int;
            && e.seg.cs as int == s.mem[4 * n + 2] as int + 0x100 * s.mem[4 * n + 3] as int
            && e.spc.eip == Reg(0, e.spc.eip.lo) && e.spc.eip.lo as int == s.mem[4 * n] as int + 0x100 * s.mem[4 * n + 1] as int
            && e.seg == Seg(e.seg.cs, 0x0040, stack / 16, r.es, 0, 0) && e.spc.esp == Reg(0, 0x1FFA)
            && e.gen == r.gen && e.spc.ebp == r.spc.ebp && e.spc.esi == r.spc.esi && e.spc.edi == r.spc.edi
            && FlagsWord(e.flags) == 0x3200 && e.flags.ctl.inf && !e.flags.ctl.tf
            && e.intr == Intr(false, false, false) && e.mode == s.mode
  {
    hide Vector, FlagsOf, PushMemory, FlagsWord;
    EntryFlags();
    VectorIs(s.mem, num);
  }

  /** The words v86_int pushes, from SS:SP up: 0 and the halt block's segment, where the IRET goes, and FLAGS. */
  lemma EntryStack(s: State, r: Regs, stack: nat, halt: nat, num: u8)
    requires stack % 16 == 0 && stack < 0xF_0000 && halt < 0x10_0000
    ensures var m, a, h := Entry(s, r, stack, halt, num).mem, stack + 0x1FFA, halt / 16;
            && m[a] == 0 && m[a + 1] == 0 && m[a + 2] as int == h % 0x100 && m[a + 3] as int == h / 0x100
            && m[a + 4] == 0x00 && m[a + 5] == 0x32
  {
    hide Vector, FlagsOf, PushMemory;
    FrameItem(s.mem, stack / 16, STACK_SIZE, EntryFrame(halt), 0);
    FrameItem(s.mem, stack / 16, STACK_SIZE, EntryFrame(halt), 1);
    FrameItem(s.mem, stack / 16, STACK_SIZE, EntryFrame(halt), 2);
  }

  /** A turn in which an interrupt is delivered, 0 or 2 at once and any other when IF is clear: the machine is at
      its vector with the old IP, CS and FLAGS on the stack, and it stays pending. */
  lemma DeliveredEnters(s: State)
    requires s.intr.synch && (s.intno == 0 || s.intno == 2 || !s.flags.ctl.inf) && VectorClear(s, s.intno)
    ensures var t, n := Deliver(s), s.intno as int;
            && t.seg.cs as int == s.mem[4 * n + 2] as int + 0x100 * s.mem[4 * n + 3] as int
            && t.spc.eip.lo as int == s.mem[4 * n] as int + 0x100 * s.mem[4 * n + 1] as int
            && t.intr == s.intr && t.intno == s.intno && t.gen == s.gen && t.flags.ctl.inf == s.flags.ctl.inf
            && t.spc.esp.lo as int == (s.spc.esp.lo as int - 6) % 0x1_0000
    ensures var t, a := Deliver(s), 16 * s.seg.ss as int + (s.spc.esp.lo as int - 6) % 0x1_0000;
            t.mem[a] as int == s.spc.eip.lo % 0x100 && t.mem[a + 1] as int == s.spc.eip.lo / 0x100
  {
    hide DoInt, VectorClear;
    IntEnters(s, s.intno, true);
    IntFrame(s, s.intno, true);
  }

  /** The simplest guest, a handler that is one IRET: v86_int comes back after two turns, wherever handler and
      halt byte lie outside the stack block. */
  lemma BareHandlerReturns(ops: (u8, State) -> State, s: State, r: Regs, stack: nat, halt: nat, num: u8, k: nat)
    requires stack % 16 == 0 && stack < 0xF_0000 && halt % 16 == 0 && halt < 0x10_0000
    requires Apart(halt, 2, stack, STACK_SIZE) && s.mem[halt] == 0xF4
    requires var a := Linear(Vector(s.mem, num, 2), Vector(s.mem, num, 0));
             Apart(a, 2, stack, STACK_SIZE) && s.mem[a] == 0xCF
    ensures var e := Entry(s, r, stack, halt, num); Exec(TurnOf(ops), e, 2 + k) == Returned(Home(e, halt))
  {
    hide Vector, FlagsOf, PushMemory, TurnOf;
    var e := Entry(s, r, stack, halt, num);
    EntryKeeps(s.mem, stack, halt, halt);
    EntryKeeps(s.mem, stack, halt, Linear(Vector(s.mem, num, 2), Vector(s.mem, num, 0)));
    EntryRegisters(s, r, stack, halt, num);
    assert Exec(TurnOf(ops), e, 0) == Running(e);
    GuestReturns(ops, s, r, stack, halt, num, 0, e, k);
  }

  // --- Where the stack and the halt byte live

  /** v86_init's two allocations on a fresh table. */
  function InitTable(): (Table, nat, nat) {
    var (t, stack) := Alloc(Fresh(REAL_MEM_SIZE), REAL_MEM_BASE, STACK_SIZE);
    var (u, halt) := Alloc(t, REAL_MEM_BASE, HALT_SIZE);
    (u, stack, halt)
  }

  lemma FitsHead(b: Block, t: Table, n: int)
    requires Fits(b, n)
    ensures FirstFit([b] + t, n, 0) == 0
  {
  }

  lemma InitLayout()
    ensures var (u, stack, halt) := InitTable();
            && stack == 0x1_0000 && halt == 0x1_2000
            && WellFormed(u, 0x2_0000)
            && Live(u, REAL_MEM_BASE) == map[0x1_0000 := 0x2000, 0x1_2000 := 0x100]
  {
    hide FirstFit, Live, Total;
    var f := Fresh(REAL_MEM_SIZE);
    FreshWellFormed(REAL_MEM_SIZE, REAL_MEM_BASE);
    AllocRight(f, REAL_MEM_SIZE, REAL_MEM_BASE, STACK_SIZE);
    assert f == [Block(REAL_MEM_SIZE, true)] + [];
    FitsHead(Block(REAL_MEM_SIZE, true), [], STACK_SIZE);
    assert f[..0] == [];
    TotalNone();
    var t := Alloc(f, REAL_MEM_BASE, STACK_SIZE).0;
    var b0, b1 := Block(STACK_SIZE, false), Block(REAL_MEM_SIZE - STACK_SIZE, true);
    assert t == [b0, b1];
    AllocRight(t, REAL_MEM_SIZE, REAL_MEM_BASE, HALT_SIZE);
    SecondFits(b0, b1, HALT_SIZE);
    assert t[..1] == [b0] + [];
    TotalCons(b0, []);
  }

  lemma TotalNone()
    ensures Total([]) == 0
  {
  }

  lemma SecondFits(a: Block, b: Block, n: int)
    requires !a.free && Fits(b, n)
    ensures FirstFit([a, b], n, 0) == 1
  {
    assert FirstFit([a, b], n, 1) == 1;
  }

  /** However the allocator is used after v86_init, short of freeing these two: the stack and halt blocks stay
      allocated, no other live region touches them, and the words v86_int pushes stay inside the stack block,
      clear of the halt byte. */
  lemma StackAndHaltSafe(ops: seq<Op>, a: nat)
    requires Asked(ops) && FreeOp(0x1_0000) !in ops && FreeOp(0x1_2000) !in ops
    ensures var (u, stack, halt) := InitTable();
            var live := Run(u, Live(u, REAL_MEM_BASE), REAL_MEM_BASE, ops).1;
            && stack in live && live[stack] == STACK_SIZE && halt in live && live[halt] == HALT_SIZE
            && (a in live && a != stack && a != halt ==>
                  Apart(a, live[a], stack, STACK_SIZE) && Apart(a, live[a], halt, HALT_SIZE))
            && stack % 16 == 0 && halt % 16 == 0
            && (forall k | 1 <= k <= 3 :: stack <= Slot(stack / 16, STACK_SIZE, 2 * k) <= stack + STACK_SIZE - 2 <= halt - 2)
  {
    hide Live, Total, Alloc, Positive, Aligned, Coalesced, Slot, Run;
    InitLayout();
    var (u, stack, halt) := InitTable();
    StaysLive(u, REAL_MEM_SIZE, REAL_MEM_BASE, ops, stack);
    StaysLive(u, REAL_MEM_SIZE, REAL_MEM_BASE, ops, halt);
    HistoryRight(u, REAL_MEM_SIZE, REAL_MEM_BASE, ops);
    ShapedDisjoint(Run(u, Live(u, REAL_MEM_BASE), REAL_MEM_BASE, ops).0, REAL_MEM_SIZE, REAL_MEM_BASE);
    forall k | 1 <= k <= 3
      ensures stack <= Slot(stack / 16, STACK_SIZE, 2 * k) <= stack + STACK_SIZE - 2 <= halt - 2
    {
      FrameSlot(stack, k);
    }
  }
}
