/** MUL, IMUL and DIV on 32-bit operands without a 64-bit type: products from 16-bit halves, quotients by
    shift and subtract. */
module MulDiv {
  import opened Words
  import opened Machines
  import opened Arith

  const K16: nat := 0x1_0000
  const K32: nat := 0x1_0000_0000
  const K64: nat := 0x1_0000_0000_0000_0000

  // --- Products

  function Times(x: nat, y: nat): nat { x * y }

  function Hi16(x: nat): nat { x / K16 }

  /** The sum the emulator keeps in the 32-bit variable rlo_hi: everything of weight 2^16. */
  function CrossSum(a: nat, s: nat): nat {
    Times(Hi16(a), s % K16) + Times(a % K16, Hi16(s)) + Times(a % K16, s % K16) / K16
  }

  /** The low and high words mul_long and imul_long_direct assemble. */
  function PartialLow(a: nat, s: nat): u32 {
    U32(U32(CrossSum(a, s)) * K16 + Times(a % K16, s % K16) % K16)
  }

  function PartialHigh(a: nat, s: nat): u32 {
    U32(Times(Hi16(a), Hi16(s)) + U32(CrossSum(a, s)) / K16)
  }

  lemma Expand(ah: nat, al: nat, sh: nat, sl: nat)
    ensures Times(ah * K16 + al, sh * K16 + sl)
            == Times(ah, sh) * K32 + (Times(ah, sl) + Times(al, sh)) * K16 + Times(al, sl)
  {
    var y := sh * K16 + sl;
    assert (ah * K16 + al) * y == K16 * (ah * y) + al * y;
    assert ah * y == K16 * (ah * sh) + ah * sl;
    assert al * y == K16 * (al * sh) + al * sl;
  }

  lemma TimesAtMost(x: nat, y: nat, p: nat, q: nat)
    requires x <= p && y <= q
    ensures Times(x, y) <= Times(p, q)
  {
    assert x * y <= p * y;
    assert p * y <= p * q;
  }

  lemma HalvesAtMost(x: nat, y: nat)
    requires x < K16 && y < K16
    ensures Times(x, y) <= 0xFFFE_0001
  {
    TimesAtMost(x, y, 0xFFFF, 0xFFFF);
  }

  lemma Halves(x: nat)
    requires x < K32
    ensures x == Hi16(x) * K16 + x % K16 && Hi16(x) < K16
  {
  }

  /** Putting the three partial products together: p of weight 2^32, q of weight 2^16, t of weight 1. */
  lemma Assemble(p: nat, q: nat, t: nat, x: nat)
    requires p <= 0xFFFE_0001 && x == q + t / K16
    ensures U32(p + (x % K32) / K16) * K32 + U32((x % K32) * K16 + t % K16) + (x / K32) * (K16 * K32)
            == p * K32 + q * K16 + t
    ensures U32(p + (x % K32) / K16) >= p
  {
    var y := x % K32;
    assert x == (x / K32) * K32 + y;
    assert y == (y / K16) * K16 + y % K16;
    assert t == (t / K16) * K16 + t % K16;
    ModUnique(y * K16 + t % K16, K32, y / K16, (y % K16) * K16 + t % K16);
    ModUnique(p + y / K16, K32, 0, p + y / K16);
  }

  /** All that can go wrong is the carry out of the cross sum, which is worth 2^48. */
  lemma PartialProduct(a: nat, s: nat)
    requires a < K32 && s < K32
    ensures PartialHigh(a, s) * K32 + PartialLow(a, s) + (CrossSum(a, s) / K32) * (K16 * K32) == Times(a, s)
    ensures PartialHigh(a, s) >= Times(Hi16(a), Hi16(s))
    ensures CrossSum(a, s) < 2 * K32
  {
    hide Times;
    Halves(a);
    Halves(s);
    Expand(Hi16(a), a % K16, Hi16(s), s % K16);
    HalvesAtMost(Hi16(a), Hi16(s));
    HalvesAtMost(a % K16, Hi16(s));
    HalvesAtMost(Hi16(a), s % K16);
    HalvesAtMost(a % K16, s % K16);
    Assemble(Times(Hi16(a), Hi16(s)), Times(Hi16(a), s % K16) + Times(a % K16, Hi16(s)),
             Times(a % K16, s % K16), CrossSum(a, s));
  }

  /** The cross sum overflows only when both operands reach past 16 bits. */
  lemma CrossNeedsHalves(a: nat, s: nat)
    requires a < K32 && s < K32 && CrossSum(a, s) >= K32
    ensures Times(Hi16(a), Hi16(s)) >= 1 && Times(a, s) >= K32
  {
    Halves(a);
    Halves(s);
    HalvesAtMost(a % K16, Hi16(s));
    HalvesAtMost(Hi16(a), s % K16);
    HalvesAtMost(a % K16, s % K16);
    TimesAtMost(1, 1, Hi16(a), Hi16(s));
    TimesAtMost(K16, K16, a, s);
  }

  /** mul_long's flags say whether the true product fits 32 bits, even where its EDX is wrong. */
  lemma MulFlagsRight(a: nat, s: nat)
    requires a < K32 && s < K32
    ensures PartialHigh(a, s) == 0 <==> Times(a, s) < K32
  {
    hide Times, PartialHigh, PartialLow;
    PartialProduct(a, s);
    if CrossSum(a, s) >= K32 {
      CrossNeedsHalves(a, s);
    }
  }

  /** `(hi << 16) | (lo & 0xFFFF)` in 32 bits */
  lemma OrHalves(hi: u32, lo: u32)
    ensures Or(Low(32, Shl(hi, 16)), lo % 0x1_0000) == U32(hi * K16 + lo % K16)
  {
    hide Or, Low, Shl;
    Pow2Values();
    ShlDouble(hi, 16);
    LowIsMod(32, Shl(hi, 16));
    ModUnique(hi * K16, K32, hi / K16, (hi % K16) * K16);
    ShlDouble(hi % K16, 16);
    OrAbove(16, hi % K16, lo % K16);
    ModUnique(hi * K16 + lo % K16, K32, hi / K16, (hi % K16) * K16 + lo % K16);
  }

  lemma Fits32(x: nat)
    requires x < K32
    ensures U32(x) == x
  {
  }

  /** The 16-bit halves multiplied and assembled, as both mul_long and imul_long_direct write it. */
  method MulHalves(a: u32, s: u32) returns (resLo: u32, resHi: u32)
    ensures resLo == PartialLow(a, s) && resHi == PartialHigh(a, s)
  {
    hide Or, Low, Shl, Times, U32;
    HalvesAtMost(a % K16, s % K16);
    Fits32(Times(a % K16, s % K16));
    var aLo, aHi := a % 0x1_0000, a / 0x1_0000;
    var sLo, sHi := s % 0x1_0000, s / 0x1_0000;
    var rloLo := U32(Times(aLo, sLo));
    var rloHi := U32(Times(aHi, sLo) + Times(aLo, sHi) + rloLo / 0x1_0000);
    var rhiLo := U32(Times(aHi, sHi) + rloHi / 0x1_0000);
    OrHalves(rloHi, rloLo);
    resLo := Or(Low(32, Shl(rloHi, 16)), rloLo % 0x1_0000);
    resHi := rhiLo;
  }

  /** mul_long, the path without a 64-bit type: EDX is too small by 2^16 exactly when the cross sum
      overflows; EAX, CF and OF are always right. */
  method MulLong(m: Machine, s: u32)
    modifies m`gen, m`flags
    ensures var a := old(m.gen.eax).Whole();
            && m.gen == old(m.gen).(eax := m.gen.eax, edx := m.gen.edx)
            && m.gen.edx.Whole() * K32 + m.gen.eax.Whole() == Times(a, s) - (if CrossSum(a, s) >= K32 then K16 * K32 else 0)
            && m.flags == old(m.flags).(cf := Times(a, s) >= K32, of := Times(a, s) >= K32)
  {
    hide Times, PartialHigh, PartialLow, CrossSum, RegOf, Reg.Whole;
    var a := m.gen.eax.Whole();
    PartialProduct(a, s);
    MulFlagsRight(a, s);
    var lo, hi := MulHalves(a, s);
    WholeOf(lo, m.gen.eax);
    WholeOf(hi, m.gen.edx);
    m.gen := m.gen.(eax := RegOf(lo));
    m.gen := m.gen.(edx := RegOf(hi));
    if m.gen.edx.Whole() == 0 {
      m.flags := m.flags.(cf := false, of := false);
    } else {
      m.flags := m.flags.(cf := true, of := true);
    }
  }

  /** The 64-bit product is exact exactly when the cross sum stays below 2^32. */
  lemma MulExactIff(a: u32, s: u32)
    ensures PartialHigh(a, s) * K32 + PartialLow(a, s) == Times(a, s) <==> CrossSum(a, s) < K32
  {
    hide Times, PartialHigh, PartialLow, CrossSum;
    PartialProduct(a, s);
  }

  /** The largest operands. */
  lemma MulWitness()
    ensures CrossSum(0xFFFF_FFFF, 0xFFFF_FFFF) >= K32
    ensures PartialHigh(0xFFFF_FFFF, 0xFFFF_FFFF) * K32 + PartialLow(0xFFFF_FFFF, 0xFFFF_FFFF) != Times(0xFFFF_FFFF, 0xFFFF_FFFF)
  {
    assert CrossSum(0xFFFF_FFFF, 0xFFFF_FFFF) >= K32;
    MulExactIff(0xFFFF_FFFF, 0xFFFF_FFFF);
  }

  // --- Signed products

  /** hi:lo as a two's-complement 64-bit number */
  function Signed64(hi: u32, lo: u32): int {
    if hi < 0x8000_0000 then hi * K32 + lo else hi * K32 + lo - K64
  }

  function Signed32(x: u32): int { if x < 0x8000_0000 then x else x - K32 }

  function Magnitude(x: u32): nat { if x < 0x8000_0000 then x else K32 - x }

  lemma Negated(x: u32)
    ensures Magnitude(x) == (if x >= 0x8000_0000 then U32(0 - x as int) else x) && Magnitude(x) <= 0x8000_0000
  {
    if x >= 0x8000_0000 {
      ModUnique32(0 - x as int, -1, K32 - x);
    }
  }

  lemma ModUnique32(v: int, q: int, r: u32)
    requires v == q * K32 + r
    ensures U32(v) == r
  {
    assert v == (v / 0x1_0000_0000) * 0x1_0000_0000 + U32(v);
    assert v / 0x1_0000_0000 == q;
  }

  lemma Positive64(hi: u32, lo: u32)
    requires hi * K32 + lo <= 0x4000_0000_0000_0000
    ensures Signed64(hi, lo) == hi * K32 + lo
  {
  }

  /** The magnitudes are at most 2^31, so their cross sum never overflows. */
  lemma MagnitudesExact(d: nat, s: nat)
    requires d <= 0x8000_0000 && s <= 0x8000_0000
    ensures CrossSum(d, s) < K32 && Times(d, s) <= 0x4000_0000_0000_0000
  {
    Halves(d);
    Halves(s);
    TimesAtMost(Hi16(d), s % K16, 0x8000, 0xFFFF);
    TimesAtMost(d % K16, Hi16(s), 0xFFFF, 0x8000);
    HalvesAtMost(d % K16, s % K16);
    TimesAtMost(d, s, 0x8000_0000, 0x8000_0000);
  }

  /** Negating hi:lo: the carry from the low word is read off 16-bit halves of ~lo. */
  lemma Negate64(lo: u32, hi: u32, v: nat)
    requires v == hi * K32 + lo && v <= 0x4000_0000_0000_0000
    ensures var d: u32 := 0xFFFF_FFFF - lo;
            var s := (d % 0x1_0000 + 1) / 0x1_0000 + d / 0x1_0000;
            Signed64(U32(0xFFFF_FFFF - hi + s / 0x1_0000), U32(d + 1)) == -(v as int)
  {
    hide Signed64;
    var d: u32 := 0xFFFF_FFFF - lo;
    var s := (d % 0x1_0000 + 1) / 0x1_0000 + d / 0x1_0000;
    assert s / 0x1_0000 == if lo == 0 then 1 else 0;
    assert U32(d + 1) == if lo == 0 then 0 else K32 - lo;
    NegatedPair(hi, lo);
  }

  lemma NegatedPair(hi: u32, lo: u32)
    requires hi * K32 + lo <= 0x4000_0000_0000_0000
    ensures Signed64(U32(0xFFFF_FFFF - hi + if lo == 0 then 1 else 0), if lo == 0 then 0 else K32 - lo) == -(hi * K32 + lo)
  {
  }

  /** imul_long_direct, the path without a 64-bit type */
  method ImulLongDirect(d0: u32, s0: u32) returns (resLo: u32, resHi: u32)
    ensures Signed64(resHi, resLo) == Signed32(d0) * Signed32(s0)
  {
    hide Times, PartialHigh, PartialLow, CrossSum, Signed64, Signed32, Magnitude, U32;
    Negated(d0);
    Negated(s0);
    var d, s := d0, s0;
    var dSign, sSign := d >= 0x8000_0000, s >= 0x8000_0000;
    if dSign {
      d := U32(0 - d as int);
    }
    if sSign {
      s := U32(0 - s as int);
    }
    PartialProduct(d, s);
    MagnitudesExact(d, s);
    SignsOfProduct(d0, s0);
    resLo, resHi := MulHalves(d, s);
    Positive64(resHi, resLo);
    if dSign != sSign {
      Negate64(resLo, resHi, Times(d, s));
      d := 0xFFFF_FFFF - resLo;
      s := (d % 0x1_0000 + 1) / 0x1_0000 + d / 0x1_0000;
      resLo := U32(0xFFFF_FFFF - resLo as int + 1);
      resHi := U32(0xFFFF_FFFF - resHi as int + s / 0x1_0000);
    }
  }

  lemma SignsOfProduct(d: u32, s: u32)
    ensures Signed32(d) * Signed32(s)
            == if (d < 0x8000_0000) == (s < 0x8000_0000) then Times(Magnitude(d), Magnitude(s))
               else -(Times(Magnitude(d), Magnitude(s)) as int)
  {
    var x: int, y: int := Magnitude(d), Magnitude(s);
    assert (-x) * y == -(x * y) && x * (-y) == -(x * y) && (-x) * (-y) == x * y;
  }

  /** The products for which imul_word (w = 16) and imul_long (w = 32) clear CF and OF. They compare the high word
      with 0xFF where the sign extension is all ones. */
  predicate SeemsToFit(w: nat, p: int)
    requires w >= 1
  {
    0 <= p < Pow2(w - 1) || 0xFF * Pow2(w) + Pow2(w - 1) <= p < 0x100 * Pow2(w)
  }

  /** What the test on the words of a product says about the product. */
  lemma ImulTest(w: nat, hi: nat, lo: nat, p: int)
    requires (w == 16 || w == 32) && hi < Pow2(w) && lo < Pow2(w) && p == Signed(w, hi) * Pow2(w) + lo
    ensures (lo < Pow2(w - 1) && hi == 0) || (lo >= Pow2(w - 1) && hi == 0xFF) <==> SeemsToFit(w, p)
  {
    Pow2Values();
  }

  /** CF and OF are right for a product exactly when it is not a negative number that fits, nor one of the
      positive ones whose high word is 0xFF. */
  predicate ImulFlagsRight(w: nat, p: int)
    requires w >= 1
  {
    !(-(Pow2(w - 1) as int) <= p < 0) && !(0xFF * Pow2(w) + Pow2(w - 1) <= p < 0x100 * Pow2(w))
  }

  lemma ImulFlagsIff(w: nat, d: nat, s: nat)
    requires w == 16 || w == 32
    ensures var p := Signed(w, d) * Signed(w, s);
            (SeemsToFit(w, p) <==> FitsSigned(w, p)) <==> ImulFlagsRight(w, p)
  {
    hide Signed;
    Pow2Values();
  }

  /** -1 times 1 fits and is said not to; 4095 times 4096 (2^20 - 1 times 2^20) does not fit and is said to. */
  lemma ImulWitness()
    ensures Signed(16, 0xFFFF) * Signed(16, 1) == Signed(32, 0xFFFF_FFFF) * Signed(32, 1) == -1
    ensures FitsSigned(16, -1) && !SeemsToFit(16, -1) && FitsSigned(32, -1) && !SeemsToFit(32, -1)
    ensures var p := Signed(16, 0xFFF) * Signed(16, 0x1000); SeemsToFit(16, p) && !FitsSigned(16, p)
    ensures var p := Signed(32, 0xF_FFFF) * Signed(32, 0x10_0000); SeemsToFit(32, p) && !FitsSigned(32, p)
  {
    Pow2Values();
  }

  lemma Signed32Is(x: u32)
    ensures Signed(32, x) == Signed32(x)
  {
    Pow2Values();
  }

  lemma Signed64Is(hi: u32, lo: u32)
    ensures Signed64(hi, lo) == Signed(32, hi) * Pow2(32) + lo
  {
    Pow2Values();
  }

  /** imul_word */
  method ImulWord(m: Machine, s: u16)
    modifies m`gen, m`flags
    ensures var p := Signed(16, old(m.gen.eax.lo)) * Signed(16, s);
            && Signed(16, m.gen.edx.lo) * K16 + m.gen.eax.lo == p
            && m.gen == old(m.gen).(eax := old(m.gen.eax).(lo := m.gen.eax.lo), edx := old(m.gen.edx).(lo := m.gen.edx.lo))
            && m.flags == old(m.flags).(cf := !SeemsToFit(16, p), of := !SeemsToFit(16, p))
            && (m.flags.cf == !FitsSigned(16, p) <==> ImulFlagsRight(16, p))
  {
    hide Signed, SeemsToFit, ImulFlagsRight, FitsSigned;
    var ax := m.gen.eax.lo;
    var res := Signed(16, ax) * Signed(16, s);
    WordProduct(ax, s);
    ImulFlagsIff(16, ax, s);
    ImulTest(16, U16(res / 0x1_0000), U16(res), res);
    m.gen := m.gen.(eax := m.gen.eax.(lo := U16(res)));
    m.gen := m.gen.(edx := m.gen.edx.(lo := U16(res / 0x1_0000)));
    if (m.gen.eax.lo < 0x8000 && m.gen.edx.lo == 0) || (m.gen.eax.lo >= 0x8000 && m.gen.edx.lo == 0xFF) {
      m.flags := m.flags.(cf := false, of := false);
    } else {
      m.flags := m.flags.(cf := true, of := true);
    }
  }

  /** The two words of a 16-bit product, read back as a signed number. */
  lemma WordProduct(d: u16, s: u16)
    ensures Pow2(16) == K16 && Pow2(15) == 0x8000
    ensures var p := Signed(16, d) * Signed(16, s); Signed(16, U16(p / 0x1_0000)) * K16 + U16(p) == p
  {
    Pow2Values();
    var x, y := Signed(16, d), Signed(16, s);
    SignedProduct(x, y);
    Halved(x * y);
  }

  lemma SignedProduct(x: int, y: int)
    requires -0x8000 <= x < 0x8000 && -0x8000 <= y < 0x8000
    ensures -0x4000_0000 <= x * y <= 0x4000_0000
  {
    var a, b := if x < 0 then -x else x, if y < 0 then -y else y;
    TimesAtMost(a, b, 0x8000, 0x8000);
    assert x * y == a * b || x * y == -(a * b);
  }

  lemma Halved(p: int)
    requires -0x4000_0000 <= p <= 0x4000_0000
    ensures Signed(16, U16(p / 0x1_0000)) * K16 + U16(p) == p
  {
    Pow2Values();
    var q := p / 0x1_0000;
    assert -0x4000 <= q <= 0x4000;
    assert U16(q) == if q < 0 then q + 0x1_0000 else q;
  }

  /** imul_long */
  method ImulLong(m: Machine, s: u32)
    modifies m`gen, m`flags
    ensures var p := Signed(32, old(m.gen.eax).Whole()) * Signed(32, s);
            && Signed64(m.gen.edx.Whole(), m.gen.eax.Whole()) == p
            && m.gen == old(m.gen).(eax := m.gen.eax, edx := m.gen.edx)
            && m.flags == old(m.flags).(cf := !SeemsToFit(32, p), of := !SeemsToFit(32, p))
            && (m.flags.cf == !FitsSigned(32, p) <==> ImulFlagsRight(32, p))
  {
    hide Signed64, Signed32, Signed, RegOf, Reg.Whole, SeemsToFit, ImulFlagsRight, FitsSigned;
    Pow2Values();
    Signed32Is(m.gen.eax.Whole());
    Signed32Is(s);
    ImulFlagsIff(32, m.gen.eax.Whole(), s);
    var lo, hi := ImulLongDirect(m.gen.eax.Whole(), s);
    WholeOf(lo, m.gen.eax);
    WholeOf(hi, m.gen.edx);
    Signed64Is(hi, lo);
    ImulTest(32, hi, lo, Signed64(hi, lo));
    m.gen := m.gen.(eax := RegOf(lo), edx := RegOf(hi));
    if (m.gen.eax.Whole() < 0x8000_0000 && m.gen.edx.Whole() == 0) || (m.gen.eax.Whole() >= 0x8000_0000 && m.gen.edx.Whole() == 0xFF) {
      m.flags := m.flags.(cf := false, of := false);
    } else {
      m.flags := m.flags.(cf := true, of := true);
    }
  }

  // --- Division

  datatype DivResult = Raise | Quotient(quot: u32, rem: u32)

  /** DIV in the SDM: interrupt 0 when the divisor is zero or the quotient does not fit. */
  function DivArch(dvd: nat, s: u32): DivResult {
    if s == 0 || dvd / s >= K32 then Raise else Quotient(dvd / s, dvd % s)
  }

  /** Quotient and remainder account for the dividend; nothing else does. */
  lemma DivArchMeans(dvd: nat, s: u32, q: u32, r: u32)
    ensures DivArch(dvd, s) == Quotient(q, r) <==> dvd == Times(s, q) + r && r < s
  {
    if s > 0 {
      if dvd == s * q + r && r < s {
        ModUnique(dvd, s, q, r);
      }
      assert dvd == s * (dvd / s) + dvd % s;
    }
  }

  /** div_long with a 64-bit type: its overflow test never fires. */
  function DivWide(dvd: nat, s: u32): DivResult {
    if s == 0 then Raise else Quotient((dvd / s) % K32, dvd % s)
  }

  /** div_long without one. */
  function DivShift(dvd: nat, s: u32): DivResult {
    if s == 0 || dvd > Times(s, 2 * K32) then Raise
    else if dvd == Times(s, 2 * K32) then Quotient(0xFFFF_FFFF, s)
    else Quotient((dvd / s) % K32, dvd % s)
  }

  lemma QuotientBound(dvd: nat, s: nat, k: nat)
    requires s > 0
    ensures dvd / s >= k <==> dvd >= Times(s, k)
  {
    var q, r := dvd / s, dvd % s;
    assert dvd == s * q + r;
    if q >= k {
      TimesAtMost(s, k, s, q);
    } else {
      TimesAtMost(s, q + 1, s, k);
    }
  }

  /** The shift-subtract path is DIV exactly when the divisor is zero, EDX is below it, or the dividend is
      above twice the first dividend that overflows. */
  lemma DivShiftIff(edx: u32, eax: u32, s: u32)
    ensures var dvd := edx * K32 + eax;
            DivShift(dvd, s) == DivArch(dvd, s) <==> s == 0 || edx < s || dvd > Times(s, 2 * K32)
  {
    var dvd := edx * K32 + eax;
    if s != 0 {
      QuotientBound(dvd, s, K32);
      QuotientBound(dvd, s, 2 * K32);
      if dvd < Times(s, K32) {
        ModUnique(dvd / s, K32, 0, dvd / s);
      }
    }
  }

  /** The two paths of the source agree exactly below 2^33 times the divisor. */
  lemma DivPathsAgree(dvd: nat, s: u32)
    ensures DivShift(dvd, s) == DivWide(dvd, s) <==> s == 0 || dvd < Times(s, 2 * K32)
  {
    if s != 0 && dvd == Times(s, 2 * K32) {
      ModUnique(dvd, s, 2 * K32, 0);
    }
  }

  /** With EDX equal to the divisor the SDM raises interrupt 0, and the shift-subtract path answers. */
  lemma DivShiftWitness(eax: u32, s: u32)
    requires s > 0
    ensures DivArch(s * K32 + eax, s) == Raise && DivShift(s * K32 + eax, s).Quotient?
  {
    DivShiftIff(s, eax, s);
    QuotientBound(s * K32 + eax, s, K32);
  }

  /** 2^33 by 1: the paths give different answers, and both are wrong. */
  lemma DivPathsWitness()
    ensures DivShift(2 * K32, 1) == Quotient(0xFFFF_FFFF, 1) && DivWide(2 * K32, 1) == Quotient(0, 0) && DivArch(2 * K32, 1) == Raise
  {
  }

  /** The loop state after 33 - k steps: the quotient so far and what is left account for the dividend.
      Either what is left is below s * 2^k, or every step so far has subtracted. */
  predicate DivInv(dvd: nat, s: nat, k: nat, q: nat, left: nat)
  {
    && k <= 33
    && dvd == Times(s, Times(q, Pow2(k))) + left
    && if dvd < Times(s, 2 * K32) then left < Times(s, Pow2(k))
       else left >= Times(s, Pow2(k)) && q + 1 == Pow2(33 - k)
  }

  lemma TimesDouble(s: nat, q: nat, p: nat)
    ensures Times(s, 2 * p) == 2 * Times(s, p)
    ensures Times(s, Times(q, 2 * p)) == Times(s, Times(2 * q, p))
    ensures Times(s, Times(2 * q + 1, p)) == Times(s, Times(2 * q, p)) + Times(s, p)
  {
    MulDouble(s, p);
    MulDouble(q, p);
    assert (2 * q + 1) * p == (2 * q) * p + p;
    assert s * ((2 * q) * p + p) == s * ((2 * q) * p) + s * p;
  }

  lemma DivStart(dvd: nat, s: u32)
    ensures dvd < K64 && s > 0 ==> DivInv(dvd, s, 33, 0, dvd)
    ensures Times(s, Pow2(32)) == s * K32
  {
    Pow2Values();
    assert Times(0, Pow2(33)) == 0 && Times(s, 0) == 0;
  }

  /** One step of long division. */
  lemma DivStep(dvd: nat, s: nat, k: nat, q: nat, left: nat)
    requires 1 <= k && DivInv(dvd, s, k, q, left)
    ensures var p := Times(s, Pow2(k - 1));
            if left < p then DivInv(dvd, s, k - 1, 2 * q, left) else DivInv(dvd, s, k - 1, 2 * q + 1, left - p)
  {
    hide Times;
    TimesDouble(s, q, Pow2(k - 1));
  }

  lemma DivEnd(dvd: nat, s: u32, q: nat, left: nat)
    requires s > 0 && DivInv(dvd, s, 0, q, left)
    ensures DivShift(dvd, s) == if left > s then Raise else Quotient(q % K32, left)
  {
    Pow2Values();
    assert Times(q, 1) == q && Times(s, 1) == s;
    if dvd < Times(s, 2 * K32) {
      ModUnique(dvd, s, q, left);
    } else {
      assert Times(s, 2 * K32) == Times(s, q) + s;
      ModUnique(q, K32, 1, 0xFFFF_FFFF);
    }
  }

  /** `h_s >>= 1; l_s = s << (counter - 1)` halves the shifted divisor. */
  lemma HalveDivisor(s: u32, c: nat, h: u32, l: u32)
    requires 1 <= c && h * K32 + l == Times(s, Pow2(c))
    ensures (h / 2) * K32 + U32(Shl(s, c - 1)) == Times(s, Pow2(c - 1))
  {
    ShlDouble(s, c - 1);
    var y := Times(s, Pow2(c - 1));
    TimesDouble(s, 0, Pow2(c - 1));
    HalvePair(h, l, y);
  }

  lemma HalvePair(h: u32, l: u32, y: nat)
    requires h * K32 + l == 2 * y
    ensures (h / 2) * K32 + U32(y) == y
  {
    ModUnique(y, K32, h / 2, (h % 2) * 0x8000_0000 + l / 2);
  }

  /** The test and the subtraction on split registers: `carry` is the borrow out of the low words. */
  lemma SplitSubtract(h: u32, l: u32, hs: u32, ls: u32)
    requires hs == 0xFFFF_FFFF ==> ls == 0
    ensures var carry := if l >= ls then 0 else 1;
            && (h < U32(hs + carry) <==> h * K32 + l < hs * K32 + ls)
            && (h >= U32(hs + carry) ==>
                  U32(h as int - hs as int - carry) * K32
                  + (if carry != 0 then U32(0xFFFF_FFFF - ls as int + l as int + 1) else l - ls)
                  == (h * K32 + l) - (hs * K32 + ls))
  {
  }

  lemma OrOne(x: u32)
    requires x % 2 == 0
    ensures Or(x, 1) == x + 1
  {
    OrZero(x / 2);
  }

  lemma ShiftQuotient(q: nat)
    ensures U32(2 * (q % K32)) == (2 * q) % K32
    ensures (2 * q) % K32 % 2 == 0 && (2 * q) % K32 + 1 == (2 * q + 1) % K32
  {
    var a, b := q / K32, q % K32;
    assert q == a * K32 + b;
    var b' := 2 * b % K32;
    assert 2 * b == (2 * b / K32) * K32 + b';
    ModUnique(2 * q, K32, 2 * a + 2 * b / K32, b');
    ModUnique(2 * q + 1, K32, 2 * a + 2 * b / K32, b' + 1);
  }

  /** x86emu_intr_raise */
  method IntrRaise(m: Machine, intno: u8)
    modifies m`intr, m`intno
    ensures m.intno == intno && m.intr == old(m.intr).(synch := true)
  {
    m.intno := intno;
    m.intr := m.intr.(synch := true);
  }

  /** div_long's loop. It is a do-while, but counter starts at 32, so the test may come first. After the
      last step l_s is shifted by -1 and never read; here it is arbitrary. */
  method ShiftSubtract(edx: u32, eax: u32, s: u32) returns (div: u32, hDvd: u32, lDvd: u32)
    requires s > 0
    ensures var rest := hDvd * K32 + lDvd;
            DivShift(edx * K32 + eax, s) == if rest > s then Raise else Quotient(div, rest)
  {
    hide Times, DivInv, DivShift, Shl, Or, U32, Pow2;
    div, hDvd, lDvd := 0, edx, eax;
    ghost var q: nat := 0;
    var hS: u32, lS: u32 := s, 0;
    var counter := 32;
    ghost var dvd: nat := hDvd * K32 + lDvd;
    DivStart(dvd, s);
    while counter > -1
      invariant -1 <= counter <= 32
      invariant div == q % K32
      invariant DivInv(dvd, s, counter + 1, q, hDvd * K32 + lDvd)
      invariant counter >= 0 ==> hS * K32 + lS == Times(s, Pow2(counter))
      invariant hS < 0x8000_0000 || lS == 0
    {
      DivStep(dvd, s, counter + 1, q, hDvd * K32 + lDvd);
      SplitSubtract(hDvd, lDvd, hS, lS);
      ShiftQuotient(q);
      div := U32(2 * div);
      q := 2 * q;
      var carry := if lDvd >= lS then 0 else 1;
      if hDvd >= U32(hS + carry) {
        hDvd := U32(hDvd as int - hS as int - carry);
        lDvd := if carry != 0 then U32((0xFFFF_FFFF - lS as int) + lDvd as int + 1) else lDvd - lS;
        OrOne(div);
        div := Or(div, 1);
        q := q + 1;
      }
      if counter >= 1 {
        HalveDivisor(s, counter, hS, lS);
      }
      hS := hS / 2;
      counter := counter - 1;
      if counter >= 0 {
        lS := U32(Shl(s, counter));
      } else {
        lS := *;
      }
    }
    DivEnd(dvd, s, q, hDvd * K32 + lDvd);
  }

  /** div_long, the path without a 64-bit type. */
  method DivLong(m: Machine, s: u32)
    modifies m`gen, m`flags, m`intr, m`intno
    ensures match DivShift(old(m.gen.edx).Whole() * K32 + old(m.gen.eax).Whole(), s)
            case Raise => m.gen == old(m.gen) && m.flags == old(m.flags) && m.intno == 0 && m.intr == old(m.intr).(synch := true)
            case Quotient(q, r) => m.gen == old(m.gen).(eax := RegOf(q), edx := RegOf(r))
                                   && m.gen.eax.Whole() == q && m.gen.edx.Whole() == r
                                   && m.flags == old(m.flags).(cf := false, af := false, sf := false, zf := true, pf := EvenParity(r))
                                   && m.intr == old(m.intr) && m.intno == old(m.intno)
  {
    hide RegOf, Reg.Whole, Times, DivShift, Low, Ones, Parity, EvenParity, Pow2;
    DivZero(m.gen.edx.Whole() * K32 + m.gen.eax.Whole());
    if s == 0 {
      IntrRaise(m, 0);
      return;
    }
    var div, hDvd, lDvd := ShiftSubtract(m.gen.edx.Whole(), m.gen.eax.Whole(), s);
    if hDvd != 0 || lDvd > s {
      IntrRaise(m, 0);
      return;
    }
    var mod := lDvd;
    LowByteParity(mod);
    m.flags := m.flags.(cf := false, af := false, sf := false, zf := true);
    m.flags := m.flags.(pf := Parity(Low(8, mod)));
    WholeOf(div, m.gen.eax);
    WholeOf(mod, m.gen.edx);
    m.gen := m.gen.(eax := RegOf(div));
    m.gen := m.gen.(edx := RegOf(mod));
  }

  lemma DivZero(dvd: nat)
    ensures DivShift(dvd, 0) == Raise
  {
  }

  lemma LowByteParity(x: nat)
    ensures Low(8, x) < 0x100 && Parity(Low(8, x)) == EvenParity(x)
  {
    Pow2Values();
    ParityTable(Low(8, x));
    OnesLow(8, 8, x);
  }
}
