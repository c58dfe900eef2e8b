/** The sixteen conditions in their three encodings: short jumps, near jumps and SETcc. */
module Conditions {
  import opened Words
  import opened Machines
  import opened Arith

  // --- The tables in the source

  /** x86emuOp_jump_near_*: the branch the handler of opcode 0x70 + k takes. */
  predicate ShortTaken(op: u8, f: Flags)
    requires 0x70 <= op <= 0x7f
  {
    match op
    case 0x70 => f.of
    case 0x71 => !f.of
    case 0x72 => f.cf
    case 0x73 => !f.cf
    case 0x74 => f.zf
    case 0x75 => !f.zf
    case 0x76 => f.cf || f.zf
    case 0x77 => !(f.cf || f.zf)
    case 0x78 => f.sf
    case 0x79 => !f.sf
    case 0x7a => f.pf
    case 0x7b => !f.pf
    case 0x7c => f.sf != f.of
    case 0x7d => f.sf == f.of
    case 0x7e => f.sf != f.of || f.zf
    case 0x7f => f.sf == f.of && !f.zf
  }

  /** The macro xorl. */
  predicate Xorl(a: bool, b: bool) { (a && !b) || (!a && b) }

  /** x86emuOp2_long_jump: cond for opcode 0x0f, 0x80 + k. */
  predicate LongTaken(op: u8, f: Flags)
    requires 0x80 <= op <= 0x8f
  {
    match op
    case 0x80 => f.of
    case 0x81 => !f.of
    case 0x82 => f.cf
    case 0x83 => !f.cf
    case 0x84 => f.zf
    case 0x85 => !f.zf
    case 0x86 => f.cf || f.zf
    case 0x87 => !(f.cf || f.zf)
    case 0x88 => f.sf
    case 0x89 => !f.sf
    case 0x8a => f.pf
    case 0x8b => !f.pf
    case 0x8c => Xorl(f.sf, f.of)
    case 0x8d => !Xorl(f.sf, f.of)
    case 0x8e => Xorl(f.sf, f.of) || f.zf
    case 0x8f => !(Xorl(f.sf, f.of) || f.zf)
  }

  /** x86emuOp2_set_byte: cond for opcode 0x0f, 0x90 + k. */
  predicate SetTaken(op: u8, f: Flags)
    requires 0x90 <= op <= 0x9f
  {
    match op
    case 0x90 => f.of
    case 0x91 => !f.of
    case 0x92 => f.cf
    case 0x93 => !f.cf
    case 0x94 => f.zf
    case 0x95 => !f.zf
    case 0x96 => f.cf || f.zf
    case 0x97 => !(f.cf || f.zf)
    case 0x98 => f.sf
    case 0x99 => !f.sf
    case 0x9a => f.pf
    case 0x9b => !f.pf
    case 0x9c => Xorl(f.sf, f.of)
    case 0x9d => Xorl(f.sf, f.of)
    case 0x9e => Xorl(f.sf, f.of) || f.zf
    case 0x9f => !(Xorl(f.sf, f.of) || f.zf)
  }

  // --- What condition code k asks about d and s

  predicate Asks(k: nat, w: nat, d: nat, s: nat)
    requires k < 16 && w >= 1 && s <= d + Pow2(w)
  {
    match k / 2
    case 0 => (k == 0) == !FitsSigned(w, Signed(w, d) - Signed(w, s))
    case 1 => (k == 2) == (d < s)
    case 2 => (k == 4) == (d == s)
    case 3 => (k == 6) == (d <= s)
    case 4 => (k == 8) == (Signed(w, Diff(w, d, s, 0)) < 0)
    case 5 => (k == 10) == EvenParity(Diff(w, d, s, 0))
    case 6 => (k == 12) == (Signed(w, d) < Signed(w, s))
    case 7 => (k == 14) == (Signed(w, d) <= Signed(w, s))
  }

  /** The sign of the difference, corrected by overflow, orders the operands; ZF says they are equal. */
  lemma SignedOrder(w: nat, d: nat, s: nat, f: Flags)
    requires w >= 1 && d < Pow2(w) && s < Pow2(w)
    ensures var g := SubFlags(w, d, s, 0, f);
            (g.sf != g.of <==> Signed(w, d) < Signed(w, s)) && (g.zf <==> d == s) && (g.cf <==> d < s)
  {
    hide Ones, EvenParity;
  }

  lemma SignedInjective(w: nat, d: nat, s: nat)
    requires w >= 1 && d < Pow2(w) && s < Pow2(w)
    ensures Signed(w, d) == Signed(w, s) <==> d == s
  {
  }

  /** After CMP of d with s, each short jump is taken exactly when its relation holds. */
  lemma ShortAfterCmp(op: u8, w: nat, d: nat, s: nat, f: Flags)
    requires 0x70 <= op <= 0x7f && w >= 1 && d < Pow2(w) && s < Pow2(w)
    ensures ShortTaken(op, SubFlags(w, d, s, 0, f)) <==> Asks(op - 0x70, w, d, s)
  {
    hide Ones, EvenParity, FitsSigned, Signed, Pow2;
    SignedOrder(w, d, s, f);
    SignedInjective(w, d, s);
  }

  /** The two jump encodings agree on every state of the flags. */
  lemma LongAgrees(k: nat, f: Flags)
    requires k < 16
    ensures LongTaken(0x80 + k, f) == ShortTaken(0x70 + k, f)
  {
  }

  /** SETcc agrees with the jumps exactly for the codes other than 0x9d, which gives the opposite answer
      on every state of the flags. */
  lemma SetAgrees(k: nat, f: Flags)
    requires k < 16
    ensures SetTaken(0x90 + k, f) == ShortTaken(0x70 + k, f) <==> k != 13
  {
  }

  // --- The handlers

  function SignExtend8(b: u8): int { if b < 0x80 then b else b - 0x100 }

  function SignExtend16(v: u16): int { if v < 0x8000 then v else v - 0x1_0000 }

  /** Where control goes: past the immediate, or that plus the displacement, modulo 2^16. */
  function Target(ip: u16, size: nat, displacement: int, taken: bool): u16 {
    U16(ip as int + size + if taken then displacement else 0)
  }

  lemma ShortTarget(ip: u16, offset: int)
    ensures U16(U16(ip as int + 1) + offset) == Target(ip, 1, offset, true)
  {
  }

  lemma LongTarget(ip: u16, v: u16)
    ensures U16(SignExtend16(v) + SignExtend16(U16(ip as int + 2))) == Target(ip, 2, v, true)
  {
    var next := U16(ip as int + 2);
    assert exists q: int :: SignExtend16(v) + SignExtend16(next) == ip as int + 2 + v as int - 0x1_0000 * q by {
      var q := (if v < 0x8000 then 0 else 1) + (if next < 0x8000 then 0 else 1) + (ip as int + 2) / 0x1_0000;
      assert SignExtend16(v) + SignExtend16(next) == ip as int + 2 + v as int - 0x1_0000 * q;
    }
  }

  lemma ShortMeans(ip: u16, b: u8, taken: bool)
    ensures Target(ip, 1, SignExtend8(b), taken) as int
            == (ip as int + 1 + if taken then (if b < 0x80 then b as int else b as int - 0x100) else 0) % 0x1_0000
    ensures !taken ==> Target(ip, 1, SignExtend8(b), taken) == U16(ip as int + 1)
  {
  }

  lemma LongMeans(ip: u16, v: u16, taken: bool)
    ensures Target(ip, 2, v, taken) as int == (ip as int + 2 + if taken then v as int else 0) % 0x1_0000
    ensures !taken ==> Target(ip, 2, v, taken) == U16(ip as int + 2)
  {
  }

  /** x86emuOp_jump_near_*, entered with IP past the opcode. */
  method JumpShort(m: Machine, op: u8)
    requires 0x70 <= op <= 0x7f
    modifies m`spc
    ensures var r := old(m.spc.eip);
            var b: int := m.mem[16 * m.seg.cs as int + r.lo as int];
            m.spc == old(m.spc).(eip := r.(lo :=
              (r.lo as int + 1 + if ShortTaken(op, m.flags) then (if b < 0x80 then b else b - 0x100) else 0) % 0x1_0000))
  {
    hide Linear, SignExtend8, U16;
    LinearIs(m.seg.cs, m.spc.eip.lo);
    ShortMeans(m.spc.eip.lo, m.mem[Linear(m.seg.cs, m.spc.eip.lo)], ShortTaken(op, m.flags));
    var ip := m.spc.eip.lo;
    var offset := SignExtend8(m.mem[Linear(m.seg.cs, ip)]);
    m.spc := m.spc.(eip := m.spc.eip.(lo := U16(ip as int + 1)));
    var target := U16(m.spc.eip.lo as int + offset);
    ShortTarget(ip, offset);
    if ShortTaken(op, m.flags) {
      m.spc := m.spc.(eip := m.spc.eip.(lo := target));
    }
  }

  /** x86emuOp2_long_jump, entered with IP past the opcode: the target is computed in signed 32-bit
      arithmetic from both halves sign-extended. */
  method JumpLong(m: Machine, op: u8)
    requires 0x80 <= op <= 0x8f
    modifies m`spc
    ensures var r := old(m.spc.eip);
            var a := 16 * m.seg.cs as int + r.lo as int;
            var v := m.mem[a] as int + 0x100 * m.mem[a + 1] as int;
            m.spc == old(m.spc).(eip := r.(lo := (r.lo as int + 2 + if LongTaken(op, m.flags) then v else 0) % 0x1_0000))
  {
    hide Linear, SignExtend16, U16;
    LinearIs(m.seg.cs, m.spc.eip.lo);
    LongMeans(m.spc.eip.lo, ReadWord(m.mem, Linear(m.seg.cs, m.spc.eip.lo)), LongTaken(op, m.flags));
    var ip := m.spc.eip.lo;
    var cond := LongTaken(op, m.flags);
    var target := SignExtend16(ReadWord(m.mem, Linear(m.seg.cs, ip)));
    m.spc := m.spc.(eip := m.spc.eip.(lo := U16(ip as int + 2)));
    target := target + SignExtend16(m.spc.eip.lo);
    LongTarget(ip, ReadWord(m.mem, Linear(m.seg.cs, ip)));
    if cond {
      m.spc := m.spc.(eip := m.spc.eip.(lo := U16(target)));
    }
  }
}
