/** The real-mode stack: PUSHA and POPA, INT and IRET, for every SS:SP, 16-bit wrap included. */
module Stacks {
  import opened Words
  import opened Machines

  // --- Items: words, or longs under the operand-size prefix

  function Size(long: bool): nat { if long then 4 else 2 }

  /** How far k items reach. */
  function Depth(long: bool, k: nat): nat { if long then 4 * k else 2 * k }

  /** What is left of a register in an item. */
  function Trim(long: bool, v: Reg): Reg { if long then v else v.(hi := 0) }

  function ReadItem(mem: Memory, a: nat, long: bool): Reg
    requires InMemory(a, 4)
  {
    Reg(if long then ReadWord(mem, a + 2) else 0, ReadWord(mem, a))
  }

  function WriteItem(mem: Memory, a: nat, long: bool, v: Reg): Memory
    requires InMemory(a, 4)
  {
    if long then WriteWord(WriteWord(mem, a, v.lo), a + 2, v.hi) else WriteWord(mem, a, v.lo)
  }

  lemma ReadOwn(mem: Memory, a: nat, long: bool, v: Reg)
    requires InMemory(a, 4)
    ensures ReadItem(WriteItem(mem, a, long, v), a, long) == Trim(long, v)
  {
  }

  /** Two items at a and c do not overlap. */
  predicate ItemsApart(long: bool, a: nat, c: nat) { a + Size(long) <= c || c + Size(long) <= a }

  lemma ReadOther(mem: Memory, a: nat, long: bool, v: Reg, c: nat)
    requires InMemory(a, 4) && InMemory(c, 4) && ItemsApart(long, a, c)
    ensures ReadItem(WriteItem(mem, a, long, v), c, long) == ReadItem(mem, c, long)
  {
  }

  // --- Slots below the stack pointer

  /** The address d bytes below SS:sp; offsets wrap at 2^16, addresses do not. */
  function Slot(ss: u16, sp: u16, d: nat): (a: nat)
    requires d <= 0x1_0000
    ensures InMemory(a, 4)
  {
    Linear(ss, Back16(sp, d))
  }

  /** The items pushed number j and number k, out of eight. */
  lemma SlotsApart(ss: u16, sp: u16, long: bool, j: nat, k: nat)
    requires j < k <= 8
    ensures ItemsApart(long, Slot(ss, sp, Depth(long, j)), Slot(ss, sp, Depth(long, k)))
  {
  }

  lemma SlotFrom(ss: u16, sp: u16, d: nat, e: nat)
    requires d + e <= 0x1_0000
    ensures Slot(ss, Back16(sp, d), e) == Slot(ss, sp, d + e)
  {
  }

  // --- Pushes and pops

  /** push_word and push_long, over and over: SP goes down first, in 16 bits, and the item is stored there. */
  function PushMemory(mem: Memory, ss: u16, sp: u16, long: bool, vs: seq<Reg>): Memory
    decreases |vs|
  {
    if vs == [] then mem
    else
      PushMemory(WriteItem(mem, Slot(ss, sp, Size(long)), long, vs[0]), ss, Back16(sp, Size(long)), long, vs[1..])
  }

  /** Pushing up to eight items. */
  function PushItems(s: State, long: bool, vs: seq<Reg>): State
    requires |vs| <= 8
  {
    s.(mem := PushMemory(s.mem, s.seg.ss, s.spc.esp.lo, long, vs),
       spc := s.spc.(esp := s.spc.esp.(lo := Back16(s.spc.esp.lo, Depth(long, |vs|)))))
  }

  /** The slots of the next n items lie clear of an item at a. */
  predicate SlotsClear(ss: u16, sp: u16, long: bool, n: nat, a: nat)
    requires n <= 8
  {
    forall k: nat | 1 <= k <= n :: ItemsApart(long, Slot(ss, sp, Depth(long, k)), a)
  }

  lemma ClearNext(ss: u16, sp: u16, long: bool, n: nat, a: nat)
    requires 1 <= n <= 8 && SlotsClear(ss, sp, long, n, a)
    ensures SlotsClear(ss, Back16(sp, Size(long)), long, n - 1, a)
    ensures ItemsApart(long, Slot(ss, sp, Size(long)), a)
  {
    hide Slot, Add16, Back16;
    forall k: nat | 1 <= k <= n - 1
      ensures ItemsApart(long, Slot(ss, Back16(sp, Size(long)), Depth(long, k)), a)
    {
      assert ItemsApart(long, Slot(ss, sp, Depth(long, k + 1)), a);
      SlotFrom(ss, sp, Size(long), Depth(long, k));
    }
    assert Depth(long, 1) == Size(long);
  }

  /** Pushes leave an item alone whose place they do not reach. */
  lemma {:induction false} PushedElsewhere(mem: Memory, ss: u16, sp: u16, long: bool, vs: seq<Reg>, a: nat)
    requires |vs| <= 8 && InMemory(a, 4) && SlotsClear(ss, sp, long, |vs|, a)
    ensures ReadItem(PushMemory(mem, ss, sp, long, vs), a, long) == ReadItem(mem, a, long)
    decreases |vs|
  {
    hide ReadItem, WriteItem, Slot, Add16, Back16, SlotsClear;
    if vs != [] {
      ClearNext(ss, sp, long, |vs|, a);
      ReadOther(mem, Slot(ss, sp, Size(long)), long, vs[0], a);
      PushedElsewhere(WriteItem(mem, Slot(ss, sp, Size(long)), long, vs[0]), ss, Back16(sp, Size(long)), long, vs[1..], a);
    }
  }

  /** After up to eight pushes, slot i holds item i. */
  lemma {:induction false} PushedItem(mem: Memory, ss: u16, sp: u16, long: bool, vs: seq<Reg>, i: nat)
    requires i < |vs| <= 8
    ensures ReadItem(PushMemory(mem, ss, sp, long, vs), Slot(ss, sp, Depth(long, i + 1)), long) == Trim(long, vs[i])
    decreases |vs|
  {
    hide ReadItem, WriteItem, Slot, Add16, Back16;
    var a, sp' := Slot(ss, sp, Size(long)), Back16(sp, Size(long));
    var u := WriteItem(mem, a, long, vs[0]);
    SlotFrom(ss, sp, Size(long), Depth(long, i));
    if i == 0 {
      ReadOwn(mem, a, long, vs[0]);
      OwnClear(ss, sp, long, |vs| - 1);
      PushedElsewhere(u, ss, sp', long, vs[1..], a);
    } else {
      PushedItem(u, ss, sp', long, vs[1..], i - 1);
    }
  }

  lemma OwnClear(ss: u16, sp: u16, long: bool, n: nat)
    requires n <= 7
    ensures SlotsClear(ss, Back16(sp, Size(long)), long, n, Slot(ss, sp, Size(long)))
  {
    hide Slot, Add16, Back16;
    forall k: nat | 1 <= k <= n
      ensures ItemsApart(long, Slot(ss, Back16(sp, Size(long)), Depth(long, k)), Slot(ss, sp, Size(long)))
    {
      SlotFrom(ss, sp, Size(long), Depth(long, k));
      SlotsApart(ss, sp, long, 1, k + 1);
    }
  }

  /** The item i places above SS:SP. */
  function Popped(t: State, long: bool, i: nat): Reg
    requires i <= 8
  {
    ReadItem(t.mem, Linear(t.seg.ss, Add16(t.spc.esp.lo, Depth(long, i))), long)
  }

  /** What pop number i (from 0) reads, after pushing vs: the items come back in reverse. */
  lemma PoppedItem(s: State, long: bool, vs: seq<Reg>, i: nat)
    requires i < |vs| <= 8
    ensures Popped(PushItems(s, long, vs), long, i) == Trim(long, vs[|vs| - 1 - i])
  {
    hide ReadItem, Linear;
    PushedItem(s.mem, s.seg.ss, s.spc.esp.lo, long, vs, |vs| - 1 - i);
    Backwards(s.spc.esp.lo, Depth(long, |vs|), Depth(long, i));
  }

  lemma Backwards(sp: u16, d: nat, e: nat)
    requires e <= d <= 0x1_0000
    ensures Add16(Back16(sp, d), e) == Back16(sp, d - e)
  {
  }

  lemma {:induction false} PushThen(mem: Memory, ss: u16, sp: u16, long: bool, vs: seq<Reg>, v: Reg)
    requires |vs| <= 7
    ensures PushMemory(mem, ss, sp, long, vs + [v])
            == PushMemory(PushMemory(mem, ss, sp, long, vs), ss, Back16(sp, Depth(long, |vs|)), long, [v])
    decreases |vs|
  {
    hide Slot, WriteItem;
    if vs == [] {
      assert vs + [v] == [v];
    } else {
      assert (vs + [v])[1..] == vs[1..] + [v];
      PushThen(WriteItem(mem, Slot(ss, sp, Size(long)), long, vs[0]), ss, Back16(sp, Size(long)), long, vs[1..], v);
      Deeper(sp, Size(long), Depth(long, |vs| - 1));
    }
  }

  lemma Deeper(sp: u16, d: nat, e: nat)
    requires d + e <= 0x1_0000
    ensures Back16(Back16(sp, d), e) == Back16(sp, d + e)
  {
  }

  /** Pushing one item more. */
  lemma PushAnother(s: State, long: bool, vs: seq<Reg>, v: Reg)
    requires |vs| <= 7
    ensures PushItems(PushItems(s, long, vs), long, [v]) == PushItems(s, long, vs + [v])
  {
    hide PushMemory, Add16, Back16;
    PushThen(s.mem, s.seg.ss, s.spc.esp.lo, long, vs, v);
    Deeper(s.spc.esp.lo, Depth(long, |vs|), Size(long));
  }

  lemma PushNone(s: State, long: bool)
    ensures PushItems(s, long, []) == s
  {
  }

  // --- PUSHA and POPA

  /** The eight items PUSHA or PUSHAD pushes, first to last. */
  function AllRegisters(s: State): (vs: seq<Reg>)
    ensures |vs| == 8
  {
    [s.gen.eax, s.gen.ecx, s.gen.edx, s.gen.ebx, s.spc.esp, s.spc.ebp, s.spc.esi, s.spc.edi]
  }

  function PushAll(s: State, long: bool): State { PushItems(s, long, AllRegisters(s)) }

  /** Storing a popped item in a register. */
  function Into(r: Reg, long: bool, v: Reg): Reg { if long then v else r.(lo := v.lo) }

  /** ESP after x86emuOp_pop_all. Seven of the eight steps move SP, the low half; POPAD skips the stored ESP
      by adding to the whole register. */
  function EspAfterPopAll(esp: Reg, long: bool): Reg {
    if long then
      var e := Up(esp.(lo := Add16(esp.lo, 12)), 4);
      e.(lo := Add16(e.lo, 16))
    else esp.(lo := Add16(esp.lo, 16))
  }

  function PopAll(t: State, long: bool): State {
    t.(gen := Gen(Into(t.gen.eax, long, Popped(t, long, 7)), Into(t.gen.ebx, long, Popped(t, long, 4)),
                  Into(t.gen.ecx, long, Popped(t, long, 6)), Into(t.gen.edx, long, Popped(t, long, 5))),
       spc := t.spc.(edi := Into(t.spc.edi, long, Popped(t, long, 0)), esi := Into(t.spc.esi, long, Popped(t, long, 1)),
                     ebp := Into(t.spc.ebp, long, Popped(t, long, 2)), esp := EspAfterPopAll(t.spc.esp, long)))
  }

  /** POPA after PUSHA restores every register, for every SS:SP. POPAD after PUSHAD does so exactly when SP is
      not 16 to 19: there the skip of the stored ESP carries into the upper half. */
  lemma PopAllUndoesPushAll(s: State, long: bool)
    ensures var t := PushAll(s, long);
            && PopAll(t, long) == s.(mem := t.mem, spc := s.spc.(esp := EspAfterPopAll(t.spc.esp, long)))
            && (EspAfterPopAll(t.spc.esp, long) == s.spc.esp <==> !long || !(16 <= s.spc.esp.lo < 20))
  {
    hide PushMemory, Popped, Add16, Back16, EspAfterPopAll;
    var vs := AllRegisters(s);
    PoppedItem(s, long, vs, 0);
    PoppedItem(s, long, vs, 1);
    PoppedItem(s, long, vs, 2);
    PoppedItem(s, long, vs, 4);
    PoppedItem(s, long, vs, 5);
    PoppedItem(s, long, vs, 6);
    PoppedItem(s, long, vs, 7);
    EspRestored(s.spc.esp, long);
  }

  lemma EspRestored(esp: Reg, long: bool)
    ensures EspAfterPopAll(esp.(lo := Back16(esp.lo, Depth(long, 8))), long) == esp <==> !long || !(16 <= esp.lo < 20)
  {
  }

  // --- The handlers

  lemma PushOne(mem: Memory, ss: u16, sp: u16, long: bool, v: Reg)
    ensures PushMemory(mem, ss, sp, long, [v]) == WriteItem(mem, Linear(ss, Back16(sp, Size(long))), long, v)
  {
    hide Linear, WriteItem, Back16;
    assert [v][1..] == [];
  }

  /** push_word, push_long */
  method Push(m: Machine, long: bool, v: Reg)
    modifies m`mem, m`spc
    ensures m.Snap() == PushItems(old(m.Snap()), long, [v])
  {
    hide Linear, WriteItem, Add16, Back16, PushMemory;
    PushOne(m.mem, m.seg.ss, m.spc.esp.lo, long, v);
    m.spc := m.spc.(esp := m.spc.esp.(lo := Back16(m.spc.esp.lo, Size(long))));
    m.mem := WriteItem(m.mem, Linear(m.seg.ss, m.spc.esp.lo), long, v);
  }

  /** pop_word, pop_long */
  method Pop(m: Machine, long: bool) returns (v: Reg)
    modifies m`spc
    ensures v == Popped(old(m.Snap()), long, 0) && m.spc == old(m.spc).(esp := EspUp(old(m.spc.esp), Size(long)))
  {
    hide Linear, ReadItem;
    v := ReadItem(m.mem, Linear(m.seg.ss, m.spc.esp.lo), long);
    m.spc := m.spc.(esp := m.spc.esp.(lo := Add16(m.spc.esp.lo, Size(long))));
  }

  /** x86emuOp_push_all */
  method PushAllRegisters(m: Machine, data: bool)
    modifies m`mem, m`spc
    ensures m.Snap() == PushAll(old(m.Snap()), data)
  {
    hide PushItems, AllRegisters;
    ghost var s, vs := m.Snap(), AllRegisters(m.Snap());
    var oldSp := m.spc.esp;
    RegistersInTurn(s);
    PushNone(s, data);
    PushInto(m, data, m.gen.eax, s, vs[..0]);
    PushInto(m, data, m.gen.ecx, s, vs[..1]);
    PushInto(m, data, m.gen.edx, s, vs[..2]);
    PushInto(m, data, m.gen.ebx, s, vs[..3]);
    PushInto(m, data, oldSp, s, vs[..4]);
    PushInto(m, data, m.spc.ebp, s, vs[..5]);
    PushInto(m, data, m.spc.esi, s, vs[..6]);
    PushInto(m, data, m.spc.edi, s, vs[..7]);
  }

  lemma RegistersInTurn(s: State)
    ensures var vs := AllRegisters(s);
            && vs[..0] == [] && vs[..0] + [s.gen.eax] == vs[..1] && vs[..1] + [s.gen.ecx] == vs[..2]
            && vs[..2] + [s.gen.edx] == vs[..3] && vs[..3] + [s.gen.ebx] == vs[..4] && vs[..4] + [s.spc.esp] == vs[..5]
            && vs[..5] + [s.spc.ebp] == vs[..6] && vs[..6] + [s.spc.esi] == vs[..7] && vs[..7] + [s.spc.edi] == vs
  {
  }

  /** push_word or push_long, after vs was pushed in state s */
  method PushInto(m: Machine, long: bool, v: Reg, ghost s: State, ghost vs: seq<Reg>)
    requires |vs| <= 7 && m.Snap() == PushItems(s, long, vs)
    modifies m`mem, m`spc
    ensures m.Snap() == PushItems(s, long, vs + [v])
    ensures m.spc == old(m.spc).(esp := m.spc.esp)
  {
    hide PushMemory, Add16, Back16;
    PushAnother(s, long, vs, v);
    Push(m, long, v);
  }

  /** ESP with d bytes popped off, in the low half. */
  function EspUp(esp: Reg, d: nat): Reg
    requires d <= 0x1_0000
  {
    esp.(lo := Add16(esp.lo, d))
  }

  lemma Further(sp: u16, d: nat, e: nat)
    requires d + e <= 0x1_0000
    ensures Add16(Add16(sp, d), e) == Add16(sp, d + e)
  {
  }

  /** pop_word or pop_long as the i-th pop since state t */
  method PopInto(m: Machine, ghost t: State, long: bool, ghost i: nat) returns (v: Reg)
    requires i <= 7 && m.mem == t.mem && m.seg.ss == t.seg.ss && m.spc.esp == EspUp(t.spc.esp, Depth(long, i))
    modifies m`spc
    ensures v == Popped(t, long, i) && m.spc == old(m.spc).(esp := EspUp(t.spc.esp, Depth(long, i + 1)))
  {
    hide Linear, ReadItem, Add16;
    Further(t.spc.esp.lo, Depth(long, i), Size(long));
    Further(t.spc.esp.lo, Depth(long, i), 0);
    v := Pop(m, long);
  }

  lemma EspUpNone(esp: Reg)
    ensures EspUp(esp, 0) == esp
  {
  }

  /** x86emuOp_pop_all without the operand-size prefix */
  method PopAllWords(m: Machine)
    modifies m`gen, m`spc
    ensures m.Snap() == PopAll(old(m.Snap()), false)
  {
    hide Popped, EspUp, Add16;
    ghost var t := m.Snap();
    EspUpNone(t.spc.esp);
    var v := PopInto(m, t, false, 0);
    m.spc := m.spc.(edi := Into(m.spc.edi, false, v));
    v := PopInto(m, t, false, 1);
    m.spc := m.spc.(esi := Into(m.spc.esi, false, v));
    v := PopInto(m, t, false, 2);
    m.spc := m.spc.(ebp := Into(m.spc.ebp, false, v));
    SkipSp(t.spc.esp);
    m.spc := m.spc.(esp := m.spc.esp.(lo := Add16(m.spc.esp.lo, 2)));
    v := PopInto(m, t, false, 4);
    m.gen := m.gen.(ebx := Into(m.gen.ebx, false, v));
    v := PopInto(m, t, false, 5);
    m.gen := m.gen.(edx := Into(m.gen.edx, false, v));
    v := PopInto(m, t, false, 6);
    m.gen := m.gen.(ecx := Into(m.gen.ecx, false, v));
    v := PopInto(m, t, false, 7);
    m.gen := m.gen.(eax := Into(m.gen.eax, false, v));
  }

  lemma SkipSp(esp: Reg)
    ensures EspUp(esp, 6).(lo := Add16(EspUp(esp, 6).lo, 2)) == EspUp(esp, 8) && EspUp(esp, 16) == EspAfterPopAll(esp, false)
  {
  }

  /** `R_ESP += 4` in the middle of POPAD: the low half moves like a pop, the upper half may carry. */
  lemma SkipEsp(t: State, u: State, i: nat)
    requires u.mem == t.mem && u.seg == t.seg && u.spc.esp == Up(EspUp(t.spc.esp, 12), 4) && i <= 4
    ensures Popped(u, true, i) == Popped(t, true, 4 + i) && EspUp(u.spc.esp, 16) == EspAfterPopAll(t.spc.esp, true)
  {
    hide ReadItem, Linear;
    Skipped(t.spc.esp, i);
  }

  lemma Skipped(esp: Reg, i: nat)
    requires i <= 4
    ensures Add16(Up(EspUp(esp, 12), 4).lo, Depth(true, i)) == Add16(esp.lo, Depth(true, 4 + i))
  {
  }

  /** x86emuOp_pop_all with the operand-size prefix */
  method PopAllLongs(m: Machine)
    modifies m`gen, m`spc
    ensures m.Snap() == PopAll(old(m.Snap()), true)
  {
    hide Popped, EspUp, Add16, EspAfterPopAll, RegOf, Up, U32, Reg.Whole;
    ghost var t := m.Snap();
    EspUpNone(t.spc.esp);
    var v := PopInto(m, t, true, 0);
    m.spc := m.spc.(edi := v);
    v := PopInto(m, t, true, 1);
    m.spc := m.spc.(esi := v);
    v := PopInto(m, t, true, 2);
    m.spc := m.spc.(ebp := v);
    UpDownWhole(m.spc.esp, 4);
    m.spc := m.spc.(esp := RegOf(U32(m.spc.esp.Whole() as int + 4)));
    ghost var u := m.Snap();
    EspUpNone(u.spc.esp);
    SkipEsp(t, u, 0);
    SkipEsp(t, u, 1);
    SkipEsp(t, u, 2);
    SkipEsp(t, u, 3);
    v := PopInto(m, u, true, 0);
    m.gen := m.gen.(ebx := v);
    v := PopInto(m, u, true, 1);
    m.gen := m.gen.(edx := v);
    v := PopInto(m, u, true, 2);
    m.gen := m.gen.(ecx := v);
    v := PopInto(m, u, true, 3);
    m.gen := m.gen.(eax := v);
  }

  // --- INT and IRET

  /** CLEAR_FLAG(F_IF); CLEAR_FLAG(F_TF) */
  function NoInterrupts(f: Flags): Flags { f.(ctl := f.ctl.(inf := false, tf := false)) }

  /** `X86_EFLAGS & ~(X86_VIF_MASK | X86_TF_MASK)`: VIF is bit 19, the seventh above bit 12. */
  function NoTrace(f: Flags): Flags { f.(ctl := f.ctl.(tf := false, high := WithoutSeven(f.ctl.high))) }

  function WithoutSeven(h: u20): u20 { if h / 0x80 % 2 == 1 then h - 0x80 else h }

  /** `(u16) M.x86.R_FLG` */
  function FlagsLow(f: Flags): u16 { FlagsWord(f) % 0x1_0000 }

  /** A word as an item. */
  function Item(v: u16): Reg { Reg(0, v) }

  /** The three words an interrupt pushes. */
  function Frame(s: State): (vs: seq<Reg>)
    ensures |vs| == 3
  {
    [Item(FlagsLow(s.flags)), Item(s.seg.cs), Item(s.spc.eip.lo)]
  }

  function Vector(mem: Memory, num: u8, part: nat): u16
    requires part <= 2
  {
    ReadWord(mem, 4 * (num as int) + part)
  }

  function Jump(s: State, cs: u16, ip: u16): State {
    s.(seg := s.seg.(cs := cs), spc := s.spc.(eip := s.spc.eip.(lo := ip)))
  }

  /** x86emuOp_int_IMM with no hooked handler: CS is loaded when two words are on the stack, IP when all
      three are. */
  function IntTable(s: State, num: u8): State {
    var v := Frame(s);
    var t := PushItems(s, false, v);
    var cs := Vector(PushItems(s, false, v[..2]).mem, num, 2);
    Jump(t.(flags := NoInterrupts(s.flags)), cs, Vector(t.mem, num, 0))
  }

  /** x86emu_do_int, the handler v86_init hooks to every vector: pushw moves the whole of ESP. */
  function DoInt(s: State, num: u8): State {
    var mem := PushItems(s, false, Frame(s)).mem;
    var u := s.(mem := mem, flags := NoTrace(s.flags), spc := s.spc.(esp := Down(s.spc.esp, 6)));
    Jump(u, Vector(mem, num, 2), Vector(mem, num, 0))
  }

  /** x86emuOp_iret: FLAGS is assigned the popped word, so its upper half becomes zero. */
  function Iret(t: State): State {
    t.(spc := t.spc.(eip := t.spc.eip.(lo := Popped(t, false, 0).lo), esp := EspUp(t.spc.esp, 6)),
       seg := t.seg.(cs := Popped(t, false, 1).lo),
       flags := FlagsOf(Popped(t, false, 2).lo))
  }

  lemma PoppedSame(t: State, u: State, i: nat)
    requires i <= 8 && u.mem == t.mem && u.seg.ss == t.seg.ss && u.spc.esp.lo == t.spc.esp.lo
    ensures Popped(u, false, i) == Popped(t, false, i)
  {
    hide ReadItem, Linear, Add16;
  }

  /** IRET after INT, by either path, restores CS, IP and SP for every SS:SP, and FLAGS with its upper half
      cleared. All of ESP comes back after INT through the table; after x86emu_do_int, exactly when SP was at
      least 6. */
  lemma IretUndoesInt(s: State, num: u8, hooked: bool)
    ensures var t := if hooked then DoInt(s, num) else IntTable(s, num);
            var r := Iret(t);
            && r == s.(mem := t.mem, spc := s.spc.(esp := r.spc.esp),
                       flags := s.flags.(ctl := s.flags.ctl.(high := s.flags.ctl.high % 0x10)))
            && r.spc.esp.lo == s.spc.esp.lo
            && (r.spc.esp == s.spc.esp <==> !hooked || s.spc.esp.lo >= 6)
  {
    hide PushMemory, Popped, Add16, Back16, Down, EspUp, Vector, FlagsOf, FlagsLow, NoTrace;
    var v := Frame(s);
    var t0 := PushItems(s, false, v);
    PoppedItem(s, false, v, 0);
    PoppedItem(s, false, v, 1);
    PoppedItem(s, false, v, 2);
    EspOverInt(s.spc.esp);
    var t := if hooked then DoInt(s, num) else IntTable(s, num);
    PoppedSame(t0, t, 0);
    PoppedSame(t0, t, 1);
    PoppedSame(t0, t, 2);
    FlagsLowHalf(s.flags);
  }

  lemma EspOverInt(esp: Reg)
    ensures var down := esp.(lo := Back16(esp.lo, 6));
            && Down(esp, 6).lo == down.lo && EspUp(down, 6) == esp && EspUp(Down(esp, 6), 6).lo == esp.lo
            && (EspUp(Down(esp, 6), 6) == esp <==> esp.lo >= 6)
  {
  }

  /** The stack words an interrupt pushes lie clear of its entry in the vector table. */
  predicate VectorClear(s: State, num: u8) {
    SlotsClear(s.seg.ss, s.spc.esp.lo, false, 3, 4 * (num as int)) && SlotsClear(s.seg.ss, s.spc.esp.lo, false, 3, 4 * (num as int) + 2)
  }

  lemma VectorKept(s: State, num: u8, vs: seq<Reg>)
    requires |vs| <= 3 && VectorClear(s, num)
    ensures Vector(PushItems(s, false, vs).mem, num, 0) == Vector(s.mem, num, 0)
    ensures Vector(PushItems(s, false, vs).mem, num, 2) == Vector(s.mem, num, 2)
  {
    hide PushMemory, Slot, ReadWord;
    PushedElsewhere(s.mem, s.seg.ss, s.spc.esp.lo, false, vs, 4 * (num as int));
    PushedElsewhere(s.mem, s.seg.ss, s.spc.esp.lo, false, vs, 4 * (num as int) + 2);
  }

  /** The vector of interrupt n, in bytes: IP at 4n, CS at 4n + 2. */
  lemma VectorIs(mem: Memory, num: u8)
    ensures var n: int := num;
            && Vector(mem, num, 0) as int == mem[4 * n] as int + 0x100 * mem[4 * n + 1] as int
            && Vector(mem, num, 2) as int == mem[4 * n + 2] as int + 0x100 * mem[4 * n + 3] as int
  {
  }

  /** Of the bits from 12 on, x86emu_do_int turns off the one that is bit 19 of FLAGS. */
  lemma NoTraceIs(f: Flags)
    ensures var g := NoTrace(f);
            && g.ctl.high / 0x80 % 2 == 0 && g.ctl.high % 0x80 == f.ctl.high % 0x80 && g.ctl.high / 0x100 == f.ctl.high / 0x100
            && g == f.(ctl := f.ctl.(tf := false, high := g.ctl.high))
  {
    hide WithoutSeven;
    WithoutSevenIs(f.ctl.high);
  }

  lemma WithoutSevenIs(h: u20)
    ensures var h' := WithoutSeven(h); h' / 0x80 % 2 == 0 && h' % 0x80 == h % 0x80 && h' / 0x100 == h / 0x100
  {
    if h / 0x80 % 2 == 1 {
      ClearSeven(h, h / 0x80, h % 0x80, h / 0x80 / 2);
    }
  }

  lemma ClearSeven(h: nat, q: nat, r: nat, p: nat)
    requires h == 0x80 * q + r && r < 0x80 && q == 2 * p + 1
    ensures (h - 0x80) / 0x80 % 2 == 0 && (h - 0x80) % 0x80 == h % 0x80 && (h - 0x80) / 0x100 == h / 0x100
  {
    BitSeven(p, r);
    assert h == 0x100 * p + r + 0x80;
  }

  lemma BitSeven(p: nat, r: nat)
    requires r < 0x80
    ensures var h := 0x100 * p + r;
            && h / 0x80 % 2 == 0 && h % 0x80 == r && h / 0x100 == p
            && (h + 0x80) % 0x80 == r && (h + 0x80) / 0x100 == p && (h + 0x80) / 0x80 == 2 * p + 1
  {
    var h := 0x100 * p + r;
    ModUnique(h, 0x80, 2 * p, r);
    ModUnique(h, 0x100, p, r);
    ModUnique(h + 0x80, 0x80, 2 * p + 1, r);
    ModUnique(h + 0x80, 0x100, p, 0x80 + r);
  }

  /** An interrupt goes to the address in its vector, by either path. The table path turns IF and TF off; the
      hooked handler turns TF and VIF off and leaves IF on. The other flags and registers stay. */
  lemma IntEnters(s: State, num: u8, hooked: bool)
    requires VectorClear(s, num)
    ensures var t := if hooked then DoInt(s, num) else IntTable(s, num);
            var n: int := num;
            && t.seg.cs as int == s.mem[4 * n + 2] as int + 0x100 * s.mem[4 * n + 3] as int
            && t.spc.eip.lo as int == s.mem[4 * n] as int + 0x100 * s.mem[4 * n + 1] as int
            && t.spc.esp.lo as int == (s.spc.esp.lo as int - 6) % 0x1_0000
            && t == s.(mem := t.mem, flags := t.flags, seg := s.seg.(cs := t.seg.cs),
                       spc := s.spc.(eip := s.spc.eip.(lo := t.spc.eip.lo), esp := t.spc.esp))
    ensures var t := if hooked then DoInt(s, num) else IntTable(s, num);
            var h, h' := s.flags.ctl.high, t.flags.ctl.high;
            && t.flags == s.flags.(ctl := s.flags.ctl.(tf := false, inf := hooked && s.flags.ctl.inf, high := h'))
            && if hooked then h' / 0x80 % 2 == 0 && h' % 0x80 == h % 0x80 && h' / 0x100 == h / 0x100 else h' == h
  {
    hide PushMemory, Vector, FlagsLow, VectorClear, NoTrace;
    VectorKept(s, num, Frame(s));
    VectorKept(s, num, Frame(s)[..2]);
    VectorIs(s.mem, num);
    NoTraceIs(s.flags);
  }

  /** An item in bytes, low byte first. */
  lemma ItemBytes(mem: Memory, a: nat, long: bool, v: Reg)
    requires InMemory(a, 4) && ReadItem(mem, a, long) == Trim(long, v)
    ensures mem[a] as int == v.lo % 0x100 && mem[a + 1] as int == v.lo / 0x100
    ensures long ==> mem[a + 2] as int == v.hi % 0x100 && mem[a + 3] as int == v.hi / 0x100
  {
  }

  lemma SlotIs(ss: u16, sp: u16, d: nat)
    requires d <= 0x1_0000
    ensures Slot(ss, sp, d) as int == 16 * ss as int + (sp as int - d) % 0x1_0000
  {
    LinearIs(ss, Back16(sp, d));
  }

  /** What an interrupt leaves on the stack, by either path: from SS:SP up IP, CS and the low word of FLAGS. */
  lemma IntFrame(s: State, num: u8, hooked: bool)
    ensures var t := if hooked then DoInt(s, num) else IntTable(s, num);
            var ss, sp := 16 * s.seg.ss as int, s.spc.esp.lo as int;
            var a, b, c := ss + (sp - 6) % 0x1_0000, ss + (sp - 4) % 0x1_0000, ss + (sp - 2) % 0x1_0000;
            && t.mem[a] as int == s.spc.eip.lo % 0x100 && t.mem[a + 1] as int == s.spc.eip.lo / 0x100
            && t.mem[b] as int == s.seg.cs % 0x100 && t.mem[b + 1] as int == s.seg.cs / 0x100
            && t.mem[c] as int == FlagsWord(s.flags) % 0x100 && t.mem[c + 1] as int == FlagsWord(s.flags) / 0x100 % 0x100
  {
    hide PushMemory, Vector, FlagsWord, FlagsLow, NoTrace, DoInt, IntTable;
    var v := Frame(s);
    LowBytes(s.flags);
    FrameItem(s.mem, s.seg.ss, s.spc.esp.lo, v, 0);
    FrameItem(s.mem, s.seg.ss, s.spc.esp.lo, v, 1);
    FrameItem(s.mem, s.seg.ss, s.spc.esp.lo, v, 2);
    PushedMemory(s, num, hooked);
  }

  lemma PushedMemory(s: State, num: u8, hooked: bool)
    ensures var t := if hooked then DoInt(s, num) else IntTable(s, num);
            t.mem == PushMemory(s.mem, s.seg.ss, s.spc.esp.lo, false, Frame(s))
  {
    hide PushMemory, Vector, FlagsLow;
  }

  lemma LowBytes(f: Flags)
    ensures FlagsLow(f) % 0x100 == FlagsWord(f) % 0x100 && FlagsLow(f) / 0x100 == FlagsWord(f) / 0x100 % 0x100
  {
    hide FlagsWord;
    var w := FlagsWord(f);
    var q, r := w / 0x100, w % 0x100;
    var a, b := q / 0x100, q % 0x100;
    ModUnique(w, 0x1_0000, a, b * 0x100 + r);
    ModUnique(b * 0x100 + r, 0x100, b, r);
  }

  lemma FrameItem(mem: Memory, ss: u16, sp: u16, v: seq<Reg>, i: nat)
    requires i < |v| == 3
    ensures var m, a := PushMemory(mem, ss, sp, false, v), 16 * ss as int + (sp as int - 2 * (i + 1)) % 0x1_0000;
            m[a] as int == v[i].lo % 0x100 && m[a + 1] as int == v[i].lo / 0x100
  {
    hide PushMemory, ReadItem, Slot;
    PushedItem(mem, ss, sp, false, v, i);
    SlotIs(ss, sp, 2 * (i + 1));
    ItemBytes(PushMemory(mem, ss, sp, false, v), Slot(ss, sp, 2 * (i + 1)), false, v[i]);
  }

  /** What PUSHA and PUSHAD leave on the stack: AX first and so highest, then CX, DX, BX, SP as it was, BP, SI, DI. */
  lemma PushAllLayout(s: State, long: bool, j: nat)
    requires j < 8
    ensures var t := PushAll(s, long);
            var v := [s.gen.eax, s.gen.ecx, s.gen.edx, s.gen.ebx, s.spc.esp, s.spc.ebp, s.spc.esi, s.spc.edi][j];
            var d := if long then 4 * (j + 1) else 2 * (j + 1);
            var a := 16 * s.seg.ss as int + (s.spc.esp.lo as int - d) % 0x1_0000;
            && t.mem[a] as int == v.lo % 0x100 && t.mem[a + 1] as int == v.lo / 0x100
            && (long ==> t.mem[a + 2] as int == v.hi % 0x100 && t.mem[a + 3] as int == v.hi / 0x100)
            && t.spc.esp.lo as int == (s.spc.esp.lo as int - if long then 32 else 16) % 0x1_0000
  {
    hide PushMemory, ReadItem, Slot;
    var d := Depth(long, j + 1);
    PushedItem(s.mem, s.seg.ss, s.spc.esp.lo, long, AllRegisters(s), j);
    SlotIs(s.seg.ss, s.spc.esp.lo, d);
    ItemBytes(PushAll(s, long).mem, Slot(s.seg.ss, s.spc.esp.lo, d), long, AllRegisters(s)[j]);
  }

  lemma {:induction false} WordHigh(bs: seq<bool>, high: nat)
    ensures Word(bs, high) == Word(bs, 0) + Pow2(|bs|) * high
  {
    if bs != [] {
      WordHigh(bs[1..], high);
      MulDouble(Pow2(|bs| - 1), high);
    }
  }

  lemma LowPart(x: nat, high: nat)
    requires x < 0x1000 && high < 0x10_0000
    ensures (x + 0x1000 * high) % 0x1_0000 == x + 0x1000 * (high % 0x10)
  {
    ModUnique(x + 0x1000 * high, 0x1_0000, high / 0x10, x + 0x1000 * (high % 0x10));
  }

  lemma Pow2Twelve()
    ensures Pow2(12) == 0x1000
  {
  }

  /** The low word of FLAGS put back: of the bits above 11, only 12 to 15 survive. */
  lemma FlagsLowHalf(f: Flags)
    ensures FlagsOf(FlagsLow(f)) == f.(ctl := f.ctl.(high := f.ctl.high % 0x10))
  {
    hide FlagsOf, Word, Pow2;
    var g := f.(ctl := f.ctl.(high := f.ctl.high % 0x10));
    var bs := FlagBits(f);
    Pow2Twelve();
    WordHigh(bs, f.ctl.high);
    WordHigh(bs, f.ctl.high % 0x10);
    WordBound(bs, 0, 1);
    LowPart(Word(bs, 0), f.ctl.high);
    FlagsOfWord(g);
  }

  /** x86emuOp_int_IMM when the vector is not hooked */
  method InterruptByTable(m: Machine, num: u8)
    modifies m`mem, m`spc, m`flags, m`seg
    ensures m.Snap() == IntTable(old(m.Snap()), num)
  {
    hide PushMemory, Vector, FlagsLow, FlagsWord, Add16, Back16;
    ghost var s, v := m.Snap(), Frame(m.Snap());
    assert v[..0] == [] && v[..1] + [v[1]] == v[..2] && v[..2] + [v[2]] == v && [] + [v[0]] == v[..1];
    PushNone(s, false);
    PushAnother(s, false, [], v[0]);
    PushAnother(s, false, v[..1], v[1]);
    PushAnother(s, false, v[..2], v[2]);
    Push(m, false, Item(FlagsLow(m.flags)));
    m.flags := NoInterrupts(m.flags);
    Push(m, false, Item(m.seg.cs));
    m.seg := m.seg.(cs := Vector(m.mem, num, 2));
    Push(m, false, Item(m.spc.eip.lo));
    m.spc := m.spc.(eip := m.spc.eip.(lo := Vector(m.mem, num, 0)));
  }

  /** pushw in v86_x86emu.c: the whole of ESP goes down. */
  method PushW(m: Machine, v: u16)
    modifies m`mem, m`spc
    ensures m.spc == old(m.spc).(esp := Down(old(m.spc.esp), 2))
    ensures m.mem == PushMemory(old(m.mem), m.seg.ss, old(m.spc.esp.lo), false, [Item(v)])
  {
    hide WriteItem, Linear, RegOf, U32, Reg.Whole;
    UpDownWhole(m.spc.esp, 2);
    m.spc := m.spc.(esp := RegOf(U32(m.spc.esp.Whole() as int - 2)));
    m.mem := WriteItem(m.mem, Linear(m.seg.ss, m.spc.esp.lo), false, Item(v));
  }

  lemma DownSix(esp: Reg)
    ensures Down(Down(Down(esp, 2), 2), 2) == Down(esp, 6)
    ensures Down(esp, 2).lo == Back16(esp.lo, 2) && Down(Down(esp, 2), 2).lo == Back16(esp.lo, 4)
  {
  }

  /** Three words pushed one after the other. */
  lemma ThreePushes(mem: Memory, ss: u16, sp: u16, a: Reg, b: Reg, c: Reg)
    ensures PushMemory(mem, ss, sp, false, [a, b, c])
            == var m1 := PushMemory(mem, ss, sp, false, [a]);
               var m2 := PushMemory(m1, ss, Back16(sp, 2), false, [b]);
               PushMemory(m2, ss, Back16(sp, 4), false, [c])
  {
    hide PushMemory, Add16, Back16;
    assert [a] + [b] == [a, b] && [a, b] + [c] == [a, b, c];
    PushThen(mem, ss, sp, false, [a], b);
    PushThen(mem, ss, sp, false, [a, b], c);
  }

  /** x86emu_do_int */
  method DoInterrupt(m: Machine, num: u8)
    modifies m`mem, m`spc, m`flags, m`seg
    ensures m.Snap() == DoInt(old(m.Snap()), num)
  {
    hide PushMemory, Vector, FlagsLow, Add16, Back16, Down;
    ThreePushes(m.mem, m.seg.ss, m.spc.esp.lo, Item(FlagsLow(m.flags)), Item(m.seg.cs), Item(m.spc.eip.lo));
    DownSix(m.spc.esp);
    var eflags := m.flags;
    PushW(m, FlagsLow(eflags));
    PushW(m, m.seg.cs);
    PushW(m, m.spc.eip.lo);
    m.flags := NoTrace(m.flags);
    m.seg := m.seg.(cs := Vector(m.mem, num, 2));
    m.spc := m.spc.(eip := m.spc.eip.(lo := Vector(m.mem, num, 0)));
  }

  /** x86emuOp_iret */
  method InterruptReturn(m: Machine)
    modifies m`spc, m`seg, m`flags
    ensures m.Snap() == Iret(old(m.Snap()))
  {
    hide Popped, FlagsOf, EspUp;
    ghost var t := m.Snap();
    EspUpNone(t.spc.esp);
    var v := PopInto(m, t, false, 0);
    m.spc := m.spc.(eip := m.spc.eip.(lo := v.lo));
    v := PopInto(m, t, false, 1);
    m.seg := m.seg.(cs := v.lo);
    v := PopInto(m, t, false, 2);
    m.flags := FlagsOf(v.lo);
  }
}
