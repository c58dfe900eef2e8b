/** Arithmetic on numbers longer than a register: runs of ADC or SBB over little-endian limbs, and of
    ADC;DAA or SBB;DAS over packed-BCD bytes. */
module Limbs {
  import opened Words
  import opened Machines
  import opened Arith

  // --- DAA and DAS

  /** DAA and DAS correct the low digit. */
  predicate FixLow(d: u8, af: bool) { d % 16 > 9 || af }

  /** DAA's correction of the high digit. */
  function AddHigh(res: nat, cf: bool): (u8, bool) {
    if res > 0x9F || cf then ((res + 0x60) % 0x100, true) else (res % 0x100, false)
  }

  /** `d -= x` on a byte */
  function Less(d: u8, x: u8): u8 { (d as int - x as int) % 0x100 }

  /** DAS's correction of the high digit. */
  function SubHigh(res: u8, cf: bool): (u8, bool) {
    if res > 0x9F || cf then (Less(res, 0x60), true) else (res, false)
  }

  /** The value and the carry DAA makes of a byte, AF and CF. */
  function DaaCore(d: u8, af: bool, cf: bool): (u8, bool) {
    AddHigh(if FixLow(d, af) then d + 6 else d, cf)
  }

  /** The value and the carry DAS makes of a byte, AF and CF. */
  function DasCore(d: u8, af: bool, cf: bool): (u8, bool) {
    SubHigh(if FixLow(d, af) then Less(d, 6) else d, cf)
  }

  function Daa(d: u8, f: Flags): (u8, Flags) {
    var (v, cf) := DaaCore(d, f.af, f.cf);
    (v, ResultFlags(8, v, f.(af := FixLow(d, f.af), cf := cf)))
  }

  function Das(d: u8, f: Flags): (u8, Flags) {
    var (v, cf) := DasCore(d, f.af, f.cf);
    (v, ResultFlags(8, v, f.(af := FixLow(d, f.af), cf := cf)))
  }

  /** AL and CF after DAA as the SDM gives it: the high correction looks at AL as it was, and alone decides CF. */
  function DaaArch(d: u8, af: bool, cf: bool): (u8, bool) {
    var d1 := if d % 16 > 9 || af then (d + 6) % 0x100 else d;
    if d > 0x99 || cf then ((d1 + 0x60) % 0x100, true) else (d1, false)
  }

  /** AL and CF after DAS as the SDM gives it: the same, but the low correction sets CF when it borrows. */
  function DasArch(d: u8, af: bool, cf: bool): (u8, bool) {
    var low := d % 16 > 9 || af;
    var d1: u8, c1 := if low then (d as int - 6) % 0x100 else d, low && (cf || d < 6);
    if d > 0x99 || cf then ((d1 as int - 0x60) % 0x100, true) else (d1, c1)
  }

  /** The other flags after DAA and DAS: AF says whether the low digit was corrected, ZF, SF and PF describe the
      result, and nothing else changes. */
  lemma DaaDasFlags(d: u8, f: Flags, subtract: bool)
    ensures var (v, g) := if subtract then Das(d, f) else Daa(d, f);
            && g.af == (d % 16 > 9 || f.af) && g.zf == (v == 0) && g.sf == (v >= 0x80) && g.pf == EvenParity(v)
            && g.of == f.of && g.ctl == f.ctl
            && (v, g.cf) == if subtract then DasCore(d, f.af, f.cf) else DaaCore(d, f.af, f.cf)
  {
    hide Ones, EvenParity, DasCore, DaaCore;
    Pow2Values();
  }

  /** daa_byte is the SDM's DAA. */
  lemma DaaIsArch(d: u8, af: bool, cf: bool)
    ensures DaaCore(d, af, cf) == DaaArch(d, af, cf)
  {
  }

  /** das_byte is the SDM's DAS but for three ranges of AL: it tests AL for the high correction after the low one,
      and the low one never sets CF. */
  lemma DasArchIff(d: u8, af: bool, cf: bool)
    ensures DasCore(d, af, cf) == DasArch(d, af, cf)
            <==> cf || !((af && d < 6) || 0x9A <= d <= 0x9F || (af && 0xA0 <= d <= 0xA5))
  {
  }

  /** AL = 0x9A with AF and CF clear. */
  lemma DasWitness()
    ensures DasCore(0x9A, false, false) == (0x94, false) && DasArch(0x9A, false, false) == (0x34, true)
  {
  }

  /** daa_byte */
  method DaaByte(m: Machine, d: u8) returns (r: u8)
    modifies m`flags
    ensures (r, m.flags) == Daa(d, old(m.flags))
  {
    hide Ones, Signed, Low, EvenParity, Pow2, ResultFlags;
    var res: u32 := d;
    if d % 16 > 9 || m.flags.af {
      res := res + 6;
      m.flags := m.flags.(af := true);
    }
    if res > 0x9F || m.flags.cf {
      res := res + 0x60;
      m.flags := m.flags.(cf := true);
    }
    Low8(res);
    SetResultFlags(m, 8, res);
    r := res % 0x100;
  }

  /** das_byte */
  method DasByte(m: Machine, d: u8) returns (r: u8)
    modifies m`flags
    ensures (r, m.flags) == Das(d, old(m.flags))
  {
    hide Ones, Signed, Low, EvenParity, Pow2, ResultFlags, Less;
    r := d;
    if r % 16 > 9 || m.flags.af {
      r := Less(r, 6);
      m.flags := m.flags.(af := true);
    }
    if r > 0x9F || m.flags.cf {
      r := Less(r, 0x60);
      m.flags := m.flags.(cf := true);
    }
    Low8(r);
    SetResultFlags(m, 8, r);
  }

  lemma Low8(x: nat)
    ensures Low(8, x) == x % 0x100
  {
    Pow2Values();
    LowIsMod(8, x);
  }

  lemma ByteSum(d: nat, s: nat, c: nat)
    requires d < Pow2(8) && s < Pow2(8) && c <= 1
    ensures Sum(8, d, s, c) < 0x100 && s + c <= d + Pow2(8) && Diff(8, d, s, c) < 0x100
  {
    Pow2Values();
  }

  // --- One step of a chain

  /** The instruction (pair) applied to each limb. */
  datatype Instr = Adc(w: nat) | Sbb(w: nat) | AdcDaa | SbbDas
  {
    predicate Known() { (Adc? || Sbb?) ==> IsWidth(w) }

    predicate Subtracts() { Sbb? || SbbDas? }

    function Width(): nat { if Adc? || Sbb? then w else 8 }
  }

  /** The radix of a limb. */
  function Base(k: Instr): nat { if k.Adc? || k.Sbb? then Pow2(k.w) else 100 }

  /** x is a limb: any word, or a byte of two decimal digits. */
  predicate IsLimb(k: Instr, x: nat) {
    x < Pow2(k.Width()) && ((k.AdcDaa? || k.SbbDas?) ==> x / 16 <= 9 && x % 16 <= 9)
  }

  /** d op s on limbs, reading CF from f: the result limb and the flags left behind. */
  function Step(k: Instr, d: nat, s: nat, f: Flags): (nat, Flags)
    requires k.Known() && IsLimb(k, d) && IsLimb(k, s)
  {
    var w, c := k.Width(), Carry(f);
    match k
    case Adc(_) => (Sum(w, d, s, c), AddFlags(w, d, s, c, f))
    case Sbb(_) => (Diff(w, d, s, c), SubFlags(w, d, s, c, f))
    case AdcDaa =>
      ByteSum(d, s, c);
      Daa(Sum(8, d, s, c), AddFlags(8, d, s, c, f))
    case SbbDas =>
      ByteSum(d, s, c);
      Das(Diff(8, d, s, c), SubFlags(8, d, s, c, f))
  }

  /** The number a limb stands for. */
  function Digit(k: Instr, x: nat): nat {
    if k.Adc? || k.Sbb? then x else 10 * (x / 16) + x % 16
  }

  /** x + y + cin == z + Base * cout, in limbs. */
  predicate Balanced(k: Instr, x: nat, y: nat, cin: nat, z: nat, cout: nat) {
    Digit(k, x) + Digit(k, y) + cin == Digit(k, z) + Base(k) * cout
  }

  /** A byte put together from its two digits. */
  lemma Digits(x: nat, h: nat, l: nat)
    requires x == 16 * h + l && l < 16
    ensures x / 16 == h && x % 16 == l
  {
  }

  lemma HighDigit(t: nat, u: nat, res: nat, cf: bool)
    requires t <= 19 && u <= 9 && (cf ==> t >= 16) && res == 16 * t + u - if cf then 0x100 else 0
    ensures AddHigh(res, cf) == if t > 9 then (16 * (t - 10) + u, true) else (16 * t + u, false)
  {
  }

  lemma HighDigitBorrowed(t: int, u: nat, res: u8, cf: bool)
    requires -10 <= t <= 9 && u <= 9 && cf == (t < 0) && res == 16 * t + u + if cf then 0x100 else 0
    ensures SubHigh(res, cf) == if t < 0 then (16 * (t + 10) + u, true) else (16 * t + u, false)
  {
  }

  /** DAA on the binary sum of two-digit numbers whose digit sums are h and l. */
  lemma DaaDigits(h: nat, l: nat, d: u8)
    requires h <= 18 && l <= 19 && d == (if 16 * h + l < 0x100 then 16 * h + l else 16 * h + l - 0x100)
    ensures var (v, cf) := DaaCore(d, l >= 16, 16 * h + l >= 0x100);
            v / 16 <= 9 && v % 16 <= 9 && 10 * h + l == 10 * (v / 16) + v % 16 + 100 * (if cf then 1 else 0)
  {
    hide AddHigh;
    var cf := 16 * h + l >= 0x100;
    Digits(d, (if l < 16 then h else h + 1) - (if cf then 16 else 0), if l < 16 then l else l - 16);
    var t, u := if l > 9 then h + 1 else h, if l > 9 then l - 10 else l;
    HighDigit(t, u, if l > 9 then d + 6 else d, cf);
    Digits(16 * (if t > 9 then t - 10 else t) + u, if t > 9 then t - 10 else t, u);
  }

  /** DAS on the binary difference of two-digit numbers whose digit differences are h and l. */
  lemma DasDigits(h: int, l: int, d: u8)
    requires -9 <= h <= 9 && -10 <= l <= 9 && d == (if 16 * h + l < 0 then 16 * h + l + 0x100 else 16 * h + l)
    ensures var (v, cf) := DasCore(d, l < 0, 16 * h + l < 0);
            v / 16 <= 9 && v % 16 <= 9 && 10 * h + l + 100 * (if cf then 1 else 0) == 10 * (v / 16) + v % 16
  {
    hide SubHigh;
    var cf := 16 * h + l < 0;
    Digits(d, (if l < 0 then h - 1 else h) + (if cf then 16 else 0), if l < 0 then l + 16 else l);
    var t, u := if l < 0 then h - 1 else h, if l < 0 then l + 10 else l;
    HighDigitBorrowed(t, u, if l < 0 then Less(d, 6) else d, cf);
    Digits(16 * (if t < 0 then t + 10 else t) + u, if t < 0 then t + 10 else t, u);
  }

  lemma DaaExact(d: u8, s: u8, c: nat, f: Flags)
    requires IsLimb(AdcDaa, d) && IsLimb(AdcDaa, s) && c <= 1 && Pow2(8) == 0x100
    ensures var (r, g) := Daa(Sum(8, d, s, c), AddFlags(8, d, s, c, f));
            IsLimb(AdcDaa, r) && Balanced(AdcDaa, d, s, c, r, Carry(g))
  {
    hide Ones, Signed, FitsSigned, DaaCore;
    DaaDigits(d / 16 + s / 16, d % 16 + s % 16 + c, Sum(8, d, s, c));
  }

  lemma DasExact(d: u8, s: u8, c: nat, f: Flags)
    requires IsLimb(SbbDas, d) && IsLimb(SbbDas, s) && c <= 1 && Pow2(8) == 0x100
    ensures var (r, g) := Das(Diff(8, d, s, c), SubFlags(8, d, s, c, f));
            IsLimb(SbbDas, r) && Balanced(SbbDas, s, r, c, d, Carry(g))
  {
    hide Ones, Signed, FitsSigned, DasCore;
    DasDigits(d / 16 - s / 16, d % 16 - s % 16 - c, Diff(8, d, s, c));
  }

  lemma AdcExact(w: nat, d: nat, s: nat, f: Flags)
    requires IsWidth(w) && d < Pow2(w) && s < Pow2(w)
    ensures Sum(w, d, s, Carry(f)) < Pow2(w)
    ensures Balanced(Adc(w), d, s, Carry(f), Sum(w, d, s, Carry(f)), Carry(AddFlags(w, d, s, Carry(f), f)))
  {
    hide Ones, Signed, FitsSigned, EvenParity;
    Pow2Values();
  }

  lemma SbbExact(w: nat, d: nat, s: nat, f: Flags)
    requires IsWidth(w) && d < Pow2(w) && s < Pow2(w)
    ensures Diff(w, d, s, Carry(f)) < Pow2(w)
    ensures Balanced(Sbb(w), s, Diff(w, d, s, Carry(f)), Carry(f), d, Carry(SubFlags(w, d, s, Carry(f), f)))
  {
    hide Ones, Signed, FitsSigned, EvenParity;
    Pow2Values();
  }

  /** One step loses nothing: the limb and the carry (or borrow) out account for the operands. */
  lemma StepExact(k: Instr, d: nat, s: nat, f: Flags)
    requires k.Known() && IsLimb(k, d) && IsLimb(k, s)
    ensures var (r, g) := Step(k, d, s, f);
            && IsLimb(k, r)
            && if k.Subtracts() then Balanced(k, s, r, Carry(f), d, Carry(g)) else Balanced(k, d, s, Carry(f), r, Carry(g))
  {
    hide Ones, Signed, FitsSigned, EvenParity, Daa, Das, AddFlags, SubFlags, Balanced;
    assert Pow2(8) == 0x100;
    match k
    case Adc(w) => AdcExact(w, d, s, f);
    case Sbb(w) => SbbExact(w, d, s, f);
    case AdcDaa => DaaExact(d, s, Carry(f), f);
    case SbbDas => DasExact(d, s, Carry(f), f);
  }

  // --- Runs

  predicate AllLimbs(k: Instr, xs: seq<nat>) { forall i | 0 <= i < |xs| :: IsLimb(k, xs[i]) }

  /** The instruction applied limb by limb, lowest first, CF passing from one to the next. */
  function Run(k: Instr, ds: seq<nat>, ss: seq<nat>, f: Flags): (seq<nat>, Flags)
    requires k.Known() && |ds| == |ss| && AllLimbs(k, ds) && AllLimbs(k, ss)
  {
    if ds == [] then ([], f)
    else
      var (r, g) := Step(k, ds[0], ss[0], f);
      var (rs, h) := Run(k, ds[1..], ss[1..], g);
      ([r] + rs, h)
  }

  /** The number little-endian limbs stand for. */
  function Value(k: Instr, xs: seq<nat>): nat {
    if xs == [] then 0 else Digit(k, xs[0]) + Base(k) * Value(k, xs[1..])
  }

  function Power(b: nat, n: nat): nat { if n == 0 then 1 else b * Power(b, n - 1) }

  lemma Regroup(b: nat, d: nat, s: nat, r: nat, c0: nat, c1: nat, c2: nat, vd: nat, vs: nat, vr: nat, p: nat)
    requires d + s + c0 == r + b * c1
    requires vd + vs + c1 == vr + p * c2
    ensures (d + b * vd) + (s + b * vs) + c0 == (r + b * vr) + (b * p) * c2
  {
    assert b * (vd + vs + c1) == b * vr + b * (p * c2);
  }

  /** However many limbs: ADC runs compute the exact sum, with CF the carry out of the whole; SBB runs the
      exact difference, with CF the borrow; and the same in decimal with DAA and DAS. */
  lemma {:induction false} RunExact(k: Instr, ds: seq<nat>, ss: seq<nat>, f: Flags)
    requires k.Known() && |ds| == |ss| && AllLimbs(k, ds) && AllLimbs(k, ss)
    ensures var (rs, g) := Run(k, ds, ss, f);
            && |rs| == |ds| && AllLimbs(k, rs)
            && if k.Subtracts()
               then Value(k, ss) + Value(k, rs) + Carry(f) == Value(k, ds) + Power(Base(k), |ds|) * Carry(g)
               else Value(k, ds) + Value(k, ss) + Carry(f) == Value(k, rs) + Power(Base(k), |ds|) * Carry(g)
  {
    hide Step, Digit, Base, IsLimb;
    if ds != [] {
      var (r, g) := Step(k, ds[0], ss[0], f);
      var (rs, h) := Run(k, ds[1..], ss[1..], g);
      StepExact(k, ds[0], ss[0], f);
      RunExact(k, ds[1..], ss[1..], g);
      assert ([r] + rs)[1..] == rs;
      var b, p := Base(k), Power(Base(k), |rs|);
      var d, s, z := Digit(k, ds[0]), Digit(k, ss[0]), Digit(k, r);
      var vd, vs, vr := Value(k, ds[1..]), Value(k, ss[1..]), Value(k, rs);
      if k.Subtracts() {
        Regroup(b, s, z, d, Carry(f), Carry(g), Carry(h), vs, vr, vd, p);
      } else {
        Regroup(b, d, s, z, Carry(f), Carry(g), Carry(h), vd, vs, vr, p);
      }
    }
  }
}
