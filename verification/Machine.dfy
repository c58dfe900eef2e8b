/** The emulator's machine state: registers, flags, prefixes, pending interrupts and guest memory. */
module Machines {
  import opened Words

  /** A 32-bit register as the source's union has it: the 16-bit register in its low half, and the rest. */
  datatype Reg = Reg(hi: u16, lo: u16)
  {
    function Whole(): u32 { hi as int * 0x1_0000 + lo as int }

    /** The low byte. */
    function Byte(): u8 { lo % 0x100 }
  }

  /** The register that holds v. */
  function RegOf(v: u32): Reg { Reg(v / 0x1_0000, v % 0x1_0000) }

  datatype Gen = Gen(eax: Reg, ebx: Reg, ecx: Reg, edx: Reg)
  datatype Spc = Spc(esp: Reg, ebp: Reg, esi: Reg, edi: Reg, eip: Reg)
  datatype Seg = Seg(cs: u16, ds: u16, ss: u16, es: u16, fs: u16, gs: u16)

  type u20 = x: int | 0 <= x < 0x10_0000

  /** The FLAGS bits no arithmetic instruction writes: TF, IF, DF, the reserved bits and bits 12 to 31. */
  datatype Control = Control(tf: bool, inf: bool, df: bool, bit1: bool, bit3: bool, bit5: bool, high: u20)

  /** The FLAGS register. */
  datatype Flags = Flags(cf: bool, pf: bool, af: bool, zf: bool, sf: bool, of: bool, ctl: Control)

  datatype SegName = CS | DS | ES | FS | GS | SS

  /** Instruction prefixes seen so far. */
  datatype Mode = Mode(repe: bool, repne: bool, data: bool, addr: bool, stackSeg: bool, overrides: set<SegName>)

  datatype Intr = Intr(synch: bool, asynch: bool, halted: bool)

  /** Room for every linear address segment:offset can reach, plus a long access. */
  const MEM_SIZE: nat := 0x11_0000

  type Memory = m: seq<u8> | |m| == MEM_SIZE witness seq(MEM_SIZE, (i: nat) => 0)

  /** A linear address. */
  type Address = a: nat | a < MEM_SIZE

  datatype State = State(gen: Gen, spc: Spc, seg: Seg, flags: Flags, mem: Memory, mode: Mode, intr: Intr, intno: u8)

  class Machine {
    var gen: Gen
    var spc: Spc
    var seg: Seg
    var flags: Flags
    var mem: Memory
    var mode: Mode
    var intr: Intr
    var intno: u8

    constructor (s: State)
      ensures Snap() == s
    {
      gen, spc, seg, flags, mem, mode, intr, intno := s.gen, s.spc, s.seg, s.flags, s.mem, s.mode, s.intr, s.intno;
    }

    /** The whole state as a value. */
    function Snap(): State
      reads this
    {
      State(gen, spc, seg, flags, mem, mode, intr, intno)
    }
  }

  /** DECODE_CLEAR_SEGOVR */
  function ClearPrefixes(s: State): State {
    s.(mode := s.mode.(data := false, addr := false, stackSeg := false, overrides := {}))
  }

  // --- Register arithmetic

  function U16(x: int): u16 { x % 0x1_0000 }

  /** x + d in a 16-bit register. */
  function Add16(x: u16, d: int): u16
    requires -0x1_0000 <= d <= 0x1_0000
  {
    if x + d < 0 then x + d + 0x1_0000 else if x + d >= 0x1_0000 then x + d - 0x1_0000 else x + d
  }

  /** x - d in a 16-bit register. */
  function Back16(x: u16, d: nat): u16
    requires d <= 0x1_0000
  {
    if x >= d then x - d else x - d + 0x1_0000
  }

  /** r + d in a 32-bit register, half by half. */
  function Up(r: Reg, d: u16): Reg {
    if r.lo + d < 0x1_0000 then Reg(r.hi, r.lo + d) else Reg(Add16(r.hi, 1), r.lo + d - 0x1_0000)
  }

  /** r - d in a 32-bit register, half by half. */
  function Down(r: Reg, d: u16): Reg {
    if r.lo >= d then Reg(r.hi, r.lo - d) else Reg(Add16(r.hi, -1), r.lo - d + 0x1_0000)
  }

  lemma Add16IsMod(x: u16, d: int)
    requires -0x1_0000 <= d <= 0x1_0000
    ensures Add16(x, d) == U16(x as int + d) && (d <= 0 ==> Back16(x, -d) == U16(x as int + d))
  {
  }

  lemma WholeOf(v: u32, r: Reg)
    ensures RegOf(v).Whole() == v && RegOf(r.Whole()) == r
  {
  }

  lemma UpDownWhole(r: Reg, d: u16)
    ensures Up(r, d) == RegOf(U32(r.Whole() as int + d as int)) && Down(r, d) == RegOf(U32(r.Whole() as int - d as int))
  {
    hide RegOf, U32;
    UpWhole(r, d);
    DownWhole(r, d);
    WholeOf(0, Up(r, d));
    WholeOf(0, Down(r, d));
  }

  lemma UpWhole(r: Reg, d: u16)
    ensures Up(r, d).Whole() == U32(r.Whole() as int + d as int)
  {
  }

  lemma DownWhole(r: Reg, d: u16)
    ensures Down(r, d).Whole() == U32(r.Whole() as int - d as int)
  {
  }

  // --- FLAGS as a word

  /** The word whose low bits are bs, least significant first, below `high`. */
  function Word(bs: seq<bool>, high: nat): nat {
    if bs == [] then high else (if bs[0] then 1 else 0) + 2 * Word(bs[1..], high)
  }

  /** The n low bits of w, least significant first. */
  function Bits(w: nat, n: nat): (bs: seq<bool>)
    ensures |bs| == n
    decreases n, w
  {
    if n == 0 then [] else [w % 2 == 1] + Bits(w / 2, n - 1)
  }

  lemma {:induction false} BitsOfWord(bs: seq<bool>, high: nat)
    ensures Bits(Word(bs, high), |bs|) == bs && Shr(Word(bs, high), |bs|) == high
  {
    if bs != [] {
      BitsOfWord(bs[1..], high);
    }
  }

  lemma {:induction false} WordBound(bs: seq<bool>, high: nat, m: nat)
    requires high < m
    ensures Word(bs, high) < Pow2(|bs|) * m
  {
    if bs != [] {
      WordBound(bs[1..], high, m);
      MulDouble(Pow2(|bs| - 1), m);
    }
  }

  lemma {:induction false} ShrBound(w: nat, n: nat, m: nat)
    requires w < Pow2(n) * m
    ensures Shr(w, n) < m
    decreases n
  {
    if n != 0 {
      MulDouble(Pow2(n - 1), m);
      ShrBound(w / 2, n - 1, m);
    }
  }

  /** The low flag bits in register order (regs.h). */
  function FlagBits(f: Flags): (bs: seq<bool>)
    ensures |bs| == 12
  {
    [f.cf, f.ctl.bit1, f.pf, f.ctl.bit3, f.af, f.ctl.bit5, f.zf, f.sf, f.ctl.tf, f.ctl.inf, f.ctl.df, f.of]
  }

  /** The FLAGS register as the 32-bit word R_FLG. */
  function FlagsWord(f: Flags): u32 {
    WordBound(FlagBits(f), f.ctl.high, 0x10_0000);
    assert Pow2(12) == 0x1000;
    Word(FlagBits(f), f.ctl.high)
  }

  /** The register after the word w was stored in it. */
  function FlagsOf(w: u32): Flags {
    var b := Bits(w, 12);
    assert Pow2(12) == 0x1000;
    ShrBound(w, 12, 0x10_0000);
    Flags(b[0], b[2], b[4], b[6], b[7], b[11], Control(b[8], b[9], b[10], b[1], b[3], b[5], Shr(w, 12)))
  }

  /** Storing the word of a flags register gives the register back. */
  lemma FlagsOfWord(f: Flags)
    ensures FlagsOf(FlagsWord(f)) == f
  {
    BitsOfWord(FlagBits(f), f.ctl.high);
  }

  /** The bit of FLAGS each flag is kept in. */
  lemma FlagPositions(w: u32)
    ensures var f := FlagsOf(w);
            && f.cf == (w % 2 == 1) && f.pf == (w / 4 % 2 == 1) && f.af == (w / 0x10 % 2 == 1) && f.zf == (w / 0x40 % 2 == 1)
            && f.sf == (w / 0x80 % 2 == 1) && f.ctl.tf == (w / 0x100 % 2 == 1) && f.ctl.inf == (w / 0x200 % 2 == 1)
            && f.ctl.df == (w / 0x400 % 2 == 1) && f.of == (w / 0x800 % 2 == 1) && f.ctl.high == w / 0x1000
  {
    hide Bits, Shr, Pow2;
    SmallPowers();
    forall i | 0 <= i < 12
      ensures Bits(w, 12)[i] == (w / Pow2(i) % 2 == 1)
    {
      BitsAt(w, 12, i);
    }
    ShrIs(w, 12);
  }

  lemma SmallPowers()
    ensures Pow2(0) == 1 && Pow2(1) == 2 && Pow2(2) == 4 && Pow2(3) == 8 && Pow2(4) == 0x10 && Pow2(5) == 0x20
    ensures Pow2(6) == 0x40 && Pow2(7) == 0x80 && Pow2(8) == 0x100 && Pow2(9) == 0x200 && Pow2(10) == 0x400
    ensures Pow2(11) == 0x800 && Pow2(12) == 0x1000
  {
  }

  /** Halving and then dividing by p. */
  lemma HalfDivided(w: nat, p: nat)
    requires p > 0
    ensures w / 2 / p == w / (2 * p)
  {
    var h := w / 2;
    var q, r := h / p, h % p;
    assert h == q * p + r;
    MulDouble(q, p);
    ModUnique(w, 2 * p, q, 2 * r + w % 2);
  }

  lemma {:induction false} ShrIs(w: nat, k: nat)
    ensures Shr(w, k) == w / Pow2(k)
    decreases k
  {
    if k != 0 {
      ShrIs(w / 2, k - 1);
      HalfDivided(w, Pow2(k - 1));
    }
  }

  lemma {:induction false} BitsAt(w: nat, n: nat, i: nat)
    requires i < n
    ensures Bits(w, n)[i] == (w / Pow2(i) % 2 == 1)
    decreases i
  {
    if i != 0 {
      BitsAt(w / 2, n - 1, i - 1);
      HalfDivided(w, Pow2(i - 1));
    } else {
      assert Pow2(0) == 1;
    }
  }

  // --- linear memory

  /** `(segment << 4) + offset` */
  function Linear(seg: u16, off: u16): (a: nat)
    ensures InMemory(a, 4)
  {
    16 * (seg as int) + off as int
  }

  lemma LinearIs(seg: u16, off: u16)
    ensures Linear(seg, off) as int == 16 * seg as int + off as int
  {
  }

  predicate InMemory(a: int, n: nat) { 0 <= a && a + n <= MEM_SIZE }

  function ReadWord(mem: Memory, a: nat): u16
    requires InMemory(a, 2)
  {
    mem[a] as int + 0x100 * (mem[a + 1] as int)
  }

  function WriteWord(mem: Memory, a: nat, v: u16): Memory
    requires InMemory(a, 2)
  {
    mem[a := v % 0x100][a + 1 := v / 0x100]
  }

  function ReadLong(mem: Memory, a: nat): u32
    requires InMemory(a, 4)
  {
    ReadWord(mem, a) as int + 0x1_0000 * (ReadWord(mem, a + 2) as int)
  }

  function WriteLong(mem: Memory, a: nat, v: u32): Memory
    requires InMemory(a, 4)
  {
    WriteWord(WriteWord(mem, a, v % 0x1_0000), a + 2, v / 0x1_0000)
  }
}
