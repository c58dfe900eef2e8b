/** ADD, ADC, SUB, SBB, CMP, INC, DEC and NEG: the emulator derives CF, OF and AF from the carry and
    borrow chains; here they are proved to be the flags of the Intel SDM (volume 1, section 3.4.3.1). */
module Arith {
  import opened Words
  import opened Chains
  import opened Machines

  // --- What the flags mean

  function Ones(n: nat, x: nat): nat
    decreases n, x
  {
    if n == 0 then 0 else x % 2 + Ones(n - 1, x / 2)
  }

  /** The low byte of x has an even number of set bits. */
  predicate EvenParity(x: nat) { Ones(8, x) % 2 == 0 }

  function Signed(w: nat, x: nat): int
    requires w >= 1
  {
    if x < Pow2(w - 1) then x else x - Pow2(w)
  }

  predicate FitsSigned(w: nat, x: int)
    requires w >= 1
  {
    -(Pow2(w - 1) as int) <= x < Pow2(w - 1)
  }

  /** ZF, SF and PF describe the w-bit result r. */
  function ResultFlags(w: nat, r: nat, f: Flags): Flags
    requires w >= 1
  {
    f.(zf := r == 0, sf := Signed(w, r) < 0, pf := EvenParity(r))
  }

  /** d + s + c as a w-bit word, for w-bit d and s */
  function Sum(w: nat, d: nat, s: nat, c: nat): nat {
    if d + s + c < Pow2(w) then d + s + c else d + s + c - Pow2(w)
  }

  /** The flags after d + s + c at width w. */
  function AddFlags(w: nat, d: nat, s: nat, c: nat, f: Flags): Flags
    requires w >= 1
  {
    ResultFlags(w, Sum(w, d, s, c), f).(
      cf := d + s + c >= Pow2(w),
      of := !FitsSigned(w, Signed(w, d) + Signed(w, s) + c),
      af := d % 16 + s % 16 + c >= 16)
  }

  /** d - s - c as a w-bit word, for w-bit d and s */
  function Diff(w: nat, d: nat, s: nat, c: nat): nat
    requires s + c <= d + Pow2(w)
  {
    if d >= s + c then d - s - c else d + Pow2(w) - s - c
  }

  /** The flags after d - s - c at width w. */
  function SubFlags(w: nat, d: nat, s: nat, c: nat, f: Flags): Flags
    requires w >= 1 && s + c <= d + Pow2(w)
  {
    ResultFlags(w, Diff(w, d, s, c), f).(
      cf := d < s + c,
      of := !FitsSigned(w, Signed(w, d) - Signed(w, s) - c),
      af := d % 16 < s % 16 + c)
  }

  function Carry(f: Flags): nat { if f.cf then 1 else 0 }

  predicate IsWidth(w: nat) { w == 8 || w == 16 || w == 32 }

  // --- The source's macros

  const PARITY_TAB: seq<u32> := [0x96696996, 0x69969669, 0x69969669, 0x96696996,
                                 0x69969669, 0x96696996, 0x96696996, 0x69969669]

  /** PARITY(x) */
  predicate Parity(x: u8) { !Bit(PARITY_TAB[x / 32], x % 32) }

  /** XOR2(x) */
  predicate Xor2(x: nat) { Bit(x, 0) != Bit(x, 1) }

  // --- The parity table holds the parity of every byte

  /** The Thue-Morse word of 2^n bits: bit i is the parity of the set bits of i. Each doubling appends the
      complement. */
  function Thue(n: nat): (t: nat)
    ensures t < Pow2(Pow2(n))
  {
    if n == 0 then 0
    else
      var h, t := Pow2(n - 1), Thue(n - 1);
      AppendBound(h, h, t, Not(h, t));
      Append(h, t, Not(h, t))
  }

  lemma {:induction false} OnesTop(n: nat, i: nat)
    requires i < 2 * Pow2(n)
    ensures Ones(n + 1, i) == if i < Pow2(n) then Ones(n, i) else Ones(n, i - Pow2(n)) + 1
    decreases n
  {
    if n != 0 {
      OnesTop(n - 1, i / 2);
    }
  }

  lemma {:induction false} ThueBit(n: nat, i: nat)
    requires i < Pow2(n)
    ensures Bit(Thue(n), i) == (Ones(n, i) % 2 == 1)
    decreases n
  {
    hide Bit, Ones, Append, Not, Low;
    if n == 0 {
      BitZero(0);
      NoOnes(i);
    } else {
      var h, t := Pow2(n - 1), Thue(n - 1);
      BitAppend(h, t, Not(h, t), i);
      OnesTop(n - 1, i);
      if i < h {
        ThueBit(n - 1, i);
      } else {
        BitNot(h, t, i - h);
        ThueBit(n - 1, i - h);
      }
    }
  }

  lemma NoOnes(i: nat)
    ensures Ones(0, i) == 0
  {
  }

  lemma ThueNext(n: nat)
    ensures Thue(n + 1) == Append(Pow2(n), Thue(n), Pow2(Pow2(n)) - 1 - Thue(n))
  {
    hide Append, Low, Pow2;
    LowFits(Pow2(n), Thue(n));
  }

  lemma TableIsThue()
    ensures Thue(5) == 0x96696996
  {
    hide Thue;
    Pow2Values();
    assert Pow2(0) == 1 && Pow2(1) == 2 && Pow2(2) == 4;
    ThueZero();
    ThueNext(0);
    ThueNext(1);
    ThueNext(2);
    ThueNext(3);
    ThueNext(4);
  }

  lemma ThueZero()
    ensures Thue(0) == 0
  {
  }

  lemma TableWord(t: nat, i: nat)
    requires i < 32 && t == 0x96696996
    ensures Bit(t, i) == (Ones(5, i) % 2 == 1)
  {
    hide Bit, Ones, Thue;
    Pow2Values();
    TableIsThue();
    ThueBit(5, i);
  }

  lemma TableWordFlipped(t: nat, i: nat)
    requires i < 32 && t == 0x69969669
    ensures Bit(t, i) == (Ones(5, i) % 2 == 0)
  {
    hide Bit, Ones;
    Pow2Values();
    LowFits(32, 0x96696996);
    TableWord(0x96696996, i);
    BitNot(32, 0x96696996, i);
  }

  lemma {:induction false} OnesSplit(a: nat, b: nat, x: nat)
    ensures Ones(a + b, x) == Ones(a, Low(a, x)) + Ones(b, Shr(x, a))
    decreases a
  {
    if a != 0 {
      OnesSplit(a - 1, b, x / 2);
    }
  }

  lemma TableChoice(h: nat)
    requires h < 8
    ensures PARITY_TAB[h] == if Ones(3, h) % 2 == 0 then 0x96696996 else 0x69969669
  {
    assert Ones(3, 0) == 0 && Ones(3, 1) == 1 && Ones(3, 2) == 1 && Ones(3, 3) == 2;
    assert Ones(3, 4) == 1 && Ones(3, 5) == 2 && Ones(3, 6) == 2 && Ones(3, 7) == 3;
  }

  lemma TableEntry(h: nat, l: nat)
    requires h < 8 && l < 32
    ensures Bit(PARITY_TAB[h], l) == ((Ones(5, l) + Ones(3, h)) % 2 == 1)
  {
    TableChoice(h);
    if Ones(3, h) % 2 == 0 {
      TableWord(PARITY_TAB[h], l);
    } else {
      TableWordFlipped(PARITY_TAB[h], l);
    }
  }

  lemma OnesOfByte(x: u8)
    ensures Ones(8, x) == Ones(5, x % 32) + Ones(3, x / 32)
  {
    Pow2Values();
    LowIsMod(5, x);
    OnesSplit(5, 3, x);
  }

  /** The table lookup PARITY answers "an even number of set bits" for every byte. */
  lemma ParityTable(x: u8)
    ensures Parity(x) == EvenParity(x)
  {
    OnesOfByte(x);
    TableEntry(x / 32, x % 32);
  }

  /** Parity looks only at the low byte. */
  lemma {:induction false} OnesLow(n: nat, w: nat, x: nat)
    requires n <= w
    ensures Ones(n, Low(w, x)) == Ones(n, x)
    decreases n
  {
    if n != 0 {
      OnesLow(n - 1, w - 1, x / 2);
    }
  }

  // --- What the source's tests on `res` and on the chains mean

  /** The ZF, SF and PF tests on a register whose low w bits are the result. */
  lemma ResultTests(w: nat, res: u32)
    requires 8 <= w <= 32
    ensures Low(8, res) < 0x100
    ensures var r := Low(w, res);
            Bit(res, w - 1) == (Signed(w, r) < 0) && Parity(Low(8, res)) == EvenParity(r)
  {
    hide Bit, Ones, Low;
    Pow2Values();
    BitLow(w, res, w - 1);
    TopBit(w, Low(w, res));
    ParityTable(Low(8, res));
    OnesLow(8, 8, res);
    OnesLow(8, w, res);
  }

  lemma Xor2Shr(x: nat, k: nat)
    ensures Xor2(Shr(x, k)) == (Bit(x, k) != Bit(x, k + 1))
  {
    BitShr(x, k, 0);
    BitShr(x, k, 1);
  }

  lemma TopSplit(w: nat, x: nat)
    requires 1 <= w && x < Pow2(w)
    ensures Low(w, x) == x && Signed(w, x) == Low(w - 1, x) - (if Bit(x, w - 1) then Pow2(w - 1) else 0)
  {
    LowFits(w, x);
    LowStep(w - 1, x);
    TopBit(w, x);
  }

  lemma NibbleChains(d: nat, s: nat, c: nat)
    ensures CarryOut(d, s, c, 3) == (d % 16 + s % 16 + c >= 16)
    ensures BorrowOut(d, s, c, 3) == (d % 16 < s % 16 + c)
  {
    Pow2Values();
    LowIsMod(4, d);
    LowIsMod(4, s);
  }

  /** Signed overflow is a difference between the carries into and out of the top position. */
  lemma OverflowChains(w: nat, d: nat, s: nat, c: nat)
    requires 2 <= w && d < Pow2(w) && s < Pow2(w) && c <= 1
    ensures CarryOut(d, s, c, w - 1) == (d + s + c >= Pow2(w))
    ensures BorrowOut(d, s, c, w - 1) == (d < s + c)
    ensures (CarryOut(d, s, c, w - 2) != CarryOut(d, s, c, w - 1)) == !FitsSigned(w, Signed(w, d) + Signed(w, s) + c)
    ensures (BorrowOut(d, s, c, w - 2) != BorrowOut(d, s, c, w - 1)) == !FitsSigned(w, Signed(w, d) - Signed(w, s) - c)
  {
    hide Bit;
    TopSplit(w, d);
    TopSplit(w, s);
    LowStep(w - 1, d);
    LowStep(w - 1, s);
  }

  /** The carry into and out of the top position differ exactly on signed overflow; the carry out of
      position 3 is the nibble carry. */
  lemma AddTests(w: nat, d: nat, s: nat, c: nat, res: nat)
    requires 8 <= w <= 32 && d < Pow2(w) && s < Pow2(w) && c <= 1 && res == Low(32, d + s + c)
    ensures var cc := CarryChain(32, d, s, res);
            && Xor2(Shr(cc, w - 2)) == !FitsSigned(w, Signed(w, d) + Signed(w, s) + c)
            && Bit(cc, 3) == (d % 16 + s % 16 + c >= 16)
  {
    hide Pow2, Bit, Low, Or, And, Shr, Ones, Signed;
    Xor2Shr(CarryChain(32, d, s, res), w - 2);
    CarryChainBit(32, d, s, c, res, w - 2);
    CarryChainBit(32, d, s, c, res, w - 1);
    CarryChainBit(32, d, s, c, res, 3);
    OverflowChains(w, d, s, c);
    NibbleChains(d, s, c);
  }

  lemma SubTests(w: nat, d: nat, s: nat, c: nat, res: nat)
    requires 8 <= w <= 32 && d < Pow2(w) && s < Pow2(w) && c <= 1 && Low(32, s + res + c) == Low(32, d)
    ensures var bc := BorrowChain(32, d, s, res);
            && Xor2(Shr(bc, w - 2)) == !FitsSigned(w, Signed(w, d) - Signed(w, s) - c)
            && Bit(bc, 3) == (d % 16 < s % 16 + c)
            && Bit(bc, w - 1) == (d < s + c)
  {
    hide Pow2, Bit, Low, Or, And, Shr, Ones, Signed;
    Xor2Shr(BorrowChain(32, d, s, res), w - 2);
    BorrowChainBit(32, d, s, c, res, w - 2);
    BorrowChainBit(32, d, s, c, res, w - 1);
    BorrowChainBit(32, d, s, c, res, 3);
    OverflowChains(w, d, s, c);
    NibbleChains(d, s, c);
  }

  lemma SumResult(w: nat, d: nat, s: nat, c: nat)
    requires d < Pow2(w) && s < Pow2(w) && c <= 1
    ensures Low(w, d + s + c) == Sum(w, d, s, c)
  {
    LowFits(w, Sum(w, d, s, c));
    LowShift(w, Sum(w, d, s, c), 1);
  }

  /** Truncating to w bits a word that wrapped in an n-bit register. */
  lemma WrappedLow(w: nat, n: nat, v: nat)
    requires v < Pow2(w) && w <= n
    ensures Pow2(n) >= Pow2(w) && Low(w, v + (Pow2(n) - Pow2(w))) == v
  {
    var q := Pow2(n - w) - 1;
    Pow2Split(w, n - w);
    assert q * Pow2(w) == Pow2(n) - Pow2(w);
    LowShift(w, v, q);
    LowFits(w, v);
  }

  /** The w-bit difference is what an n-bit register holding the difference keeps in its low w bits. */
  lemma DiffResult(w: nat, n: nat, d: nat, s: nat, c: nat, res: nat)
    requires w <= n && d < Pow2(w) && s < Pow2(w) && c <= 1
    requires s + c <= d + Pow2(n) && res == Diff(n, d, s, c)
    ensures s + c <= d + Pow2(w) && Low(w, res) == Diff(w, d, s, c)
    ensures Low(n, s + res + c) == Low(n, d)
  {
    hide Low, Pow2;
    if d >= s + c {
      LowFits(w, res);
    } else {
      LowShift(n, d, 1);
      WrappedLow(w, n, Diff(w, d, s, c));
    }
  }

  lemma RegisterDiff(d: u32, s: u32, c: nat, res: u32)
    requires c <= 1 && res == U32(d - s - c)
    ensures s + c <= d + Pow2(32) && res == Diff(32, d, s, c)
  {
    Pow2Values();
  }

  /** What SUB, SBB, CMP and DEC read off the register `res` and the borrow chain is the flags of the
      difference. */
  lemma SubRight(w: nat, d: nat, s: nat, c: nat, res: u32, f: Flags)
    requires IsWidth(w) && d < Pow2(w) && s < Pow2(w) && c <= 1 && res == U32(d - s - c)
    ensures s + c <= d + Pow2(w) && Low(w, res) == Diff(w, d, s, c)
    ensures var bc := BorrowChain(32, d, s, res);
            SubFlags(w, d, s, c, f)
            == ResultFlags(w, Low(w, res), f).(cf := Bit(bc, w - 1), of := Xor2(Shr(bc, w - 2)), af := Bit(bc, 3))
  {
    hide Pow2, Bit, Low, Or, And, Shr, Ones, Signed;
    Pow2Values();
    Pow2Mono(w, 32);
    RegisterDiff(d, s, c, res);
    DiffResult(w, 32, d, s, c, res);
    SubTests(w, d, s, c, res);
  }

  /** What ADD, ADC and INC read off the register `res` and the carry chain, CF apart. */
  lemma AddRight(w: nat, d: nat, s: nat, c: nat, res: u32, f: Flags)
    requires IsWidth(w) && d < Pow2(w) && s < Pow2(w) && c <= 1 && res == Low(32, d + s + c)
    ensures Low(w, res) == Sum(w, d, s, c)
    ensures var cc := CarryChain(32, d, s, res);
            AddFlags(w, d, s, c, f)
            == ResultFlags(w, Low(w, res), f).(
                 cf := d + s + c >= Pow2(w), of := Xor2(Shr(cc, w - 2)), af := Bit(cc, 3))
  {
    hide Pow2, Bit, Low, Or, And, Shr, Ones, Signed;
    LowLow(w, 32, d + s + c);
    SumResult(w, d, s, c);
    AddTests(w, d, s, c, res);
  }

  /** The sum fits the register, and bit w of it is the carry. */
  lemma NarrowSum(w: nat, d: nat, s: nat, c: nat)
    requires (w == 8 || w == 16) && d < Pow2(w) && s < Pow2(w) && c <= 1
    ensures d + s + c < 0x1_0000_0000 && Low(32, d + s + c) == d + s + c
    ensures Bit(d + s + c, w) == (d + s + c >= Pow2(w))
  {
    Pow2Values();
    LowFits(32, d + s + c);
    TopBit(w + 1, d + s + c);
  }

  /** Bit 16 of the half-wise sum is the carry out of the whole addition. */
  lemma LongSum(d: u32, s: u32, c: nat, hi: nat, res: u32)
    requires c <= 1 && hi == (c + d % 0x1_0000 + s % 0x1_0000) / 0x1_0000 + d / 0x1_0000 + s / 0x1_0000
    requires res == U32(d + s + c)
    ensures Bit(hi, 16) == (d + s + c >= Pow2(32)) && res == Low(32, d + s + c)
    ensures Low(32, res) == res && d < Pow2(32) && s < Pow2(32)
  {
    Pow2Values();
    TopBit(17, hi);
    LowIsMod(32, d + s + c);
    LowFits(32, res);
  }

  // --- The operations. `m.flags` is R_FLG; each line of a body is one CONDITIONAL_SET_FLAG.

  method SetResultFlags(m: Machine, w: nat, res: u32)
    requires IsWidth(w)
    modifies m`flags
    ensures m.flags == ResultFlags(w, Low(w, res), old(m.flags))
  {
    ResultTests(w, res);
    m.flags := m.flags.(zf := Low(w, res) == 0);
    m.flags := m.flags.(sf := Bit(res, w - 1));
    m.flags := m.flags.(pf := Parity(Low(8, res)));
  }

  /** adc_byte, adc_word */
  method AdcNarrow(m: Machine, w: nat, d: nat, s: nat) returns (r: nat)
    requires (w == 8 || w == 16) && d < Pow2(w) && s < Pow2(w)
    modifies m`flags
    ensures r == Sum(w, d, s, Carry(old(m.flags)))
    ensures m.flags == AddFlags(w, d, s, Carry(old(m.flags)), old(m.flags))
  {
    hide Pow2, Bit, Low, Or, And, Shr, Ones, Signed;
    NarrowSum(w, d, s, Carry(m.flags));
    var res := if m.flags.cf then 1 + d + s else d + s;
    AddRight(w, d, s, Carry(m.flags), res, m.flags);
    m.flags := m.flags.(cf := Bit(res, w));
    SetResultFlags(m, w, res);
    var cc := Or(And(s, d), And(Not(32, res), Or(s, d)));
    m.flags := m.flags.(of := Xor2(Shr(cc, w - 2)));
    m.flags := m.flags.(af := Bit(cc, 3));
    r := Low(w, res);
  }

  /** adc_long: CF comes from a sum of 16-bit halves. */
  method AdcLong(m: Machine, d: u32, s: u32) returns (r: u32)
    modifies m`flags
    ensures r == Sum(32, d, s, Carry(old(m.flags)))
    ensures m.flags == AddFlags(32, d, s, Carry(old(m.flags)), old(m.flags))
  {
    hide Pow2, Bit, Low, Or, And, Shr, Ones, Signed;
    ghost var c := Carry(m.flags);
    var lo, res;
    if m.flags.cf {
      lo := 1 + d % 0x1_0000 + s % 0x1_0000;
      res := U32(1 + d + s);
    } else {
      lo := d % 0x1_0000 + s % 0x1_0000;
      res := U32(d + s);
    }
    var hi := lo / 0x1_0000 + d / 0x1_0000 + s / 0x1_0000;
    LongSum(d, s, c, hi, res);
    AddRight(32, d, s, c, res, m.flags);
    m.flags := m.flags.(cf := Bit(hi, 16));
    SetResultFlags(m, 32, res);
    var cc := Or(And(s, d), And(Not(32, res), Or(s, d)));
    m.flags := m.flags.(of := Xor2(Shr(cc, 30)));
    m.flags := m.flags.(af := Bit(cc, 3));
    r := res;
  }

  /** add_byte, add_word */
  method AddNarrow(m: Machine, w: nat, d: nat, s: nat) returns (r: nat)
    requires (w == 8 || w == 16) && d < Pow2(w) && s < Pow2(w)
    modifies m`flags
    ensures r == Sum(w, d, s, 0) && m.flags == AddFlags(w, d, s, 0, old(m.flags))
  {
    hide Pow2, Bit, Low, Or, And, Shr, Ones, Signed;
    NarrowSum(w, d, s, 0);
    var res := d + s;
    AddRight(w, d, s, 0, res, m.flags);
    m.flags := m.flags.(cf := Bit(res, w));
    SetResultFlags(m, w, res);
    var cc := Or(And(s, d), And(Not(32, res), Or(s, d)));
    m.flags := m.flags.(of := Xor2(Shr(cc, w - 2)));
    m.flags := m.flags.(af := Bit(cc, 3));
    r := Low(w, res);
  }

  /** add_long */
  method AddLong(m: Machine, d: u32, s: u32) returns (r: u32)
    modifies m`flags
    ensures r == Sum(32, d, s, 0) && m.flags == AddFlags(32, d, s, 0, old(m.flags))
  {
    hide Pow2, Bit, Low, Or, And, Shr, Ones, Signed;
    var lo := d % 0x1_0000 + s % 0x1_0000;
    var res := U32(d + s);
    var hi := lo / 0x1_0000 + d / 0x1_0000 + s / 0x1_0000;
    LongSum(d, s, 0, hi, res);
    AddRight(32, d, s, 0, res, m.flags);
    m.flags := m.flags.(cf := Bit(hi, 16));
    SetResultFlags(m, 32, res);
    var cc := Or(And(s, d), And(Not(32, res), Or(s, d)));
    m.flags := m.flags.(of := Xor2(Shr(cc, 30)));
    m.flags := m.flags.(af := Bit(cc, 3));
    r := res;
  }

  /** inc_byte, inc_word, inc_long: CF is kept; the byte form writes its chain differently. */
  method Inc(m: Machine, w: nat, d: nat) returns (r: nat)
    requires IsWidth(w) && d < Pow2(w)
    modifies m`flags
    ensures r == Sum(w, d, 1, 0)
    ensures m.flags == AddFlags(w, d, 1, 0, old(m.flags)).(cf := old(m.flags.cf))
  {
    hide Pow2, Bit, Low, Or, And, Shr, Ones, Signed;
    var res := U32(d + 1);
    IncSum(w, d, res);
    AddRight(w, d, 1, 0, res, m.flags);
    SetResultFlags(m, w, res);
    var cc;
    if w == 8 {
      cc := And(Or(And(1, d), Not(32, res)), Or(1, d));
      IncByteChain(d, res, 6);
      IncByteChain(d, res, 3);
    } else {
      cc := Or(And(1, d), And(Not(32, res), Or(1, d)));
    }
    m.flags := m.flags.(of := Xor2(Shr(cc, w - 2)));
    m.flags := m.flags.(af := Bit(cc, 3));
    r := Low(w, res);
  }

  lemma IncSum(w: nat, d: nat, res: u32)
    requires IsWidth(w) && d < Pow2(w) && res == U32(d + 1)
    ensures res == Low(32, d + 1) && 1 < Pow2(w)
  {
    Pow2Values();
    LowIsMod(32, d + 1);
  }

  lemma IncByteBit(d: nat, res: nat, i: nat)
    ensures Bit(And(Or(And(1, d), Not(32, res)), Or(1, d)), i) == Bit(CarryChain(32, d, 1, res), i)
  {
    BitAnd(1, d, i);
    BitOr(1, d, i);
    BitOr(And(1, d), Not(32, res), i);
    BitAnd(Or(And(1, d), Not(32, res)), Or(1, d), i);
    BitAnd(Not(32, res), Or(1, d), i);
    BitOr(And(1, d), And(Not(32, res), Or(1, d)), i);
  }

  /** inc_byte's chain agrees with the general one, because `1 & d` is within `1 | d`. */
  lemma IncByteChain(d: nat, res: nat, k: nat)
    ensures var cc := And(Or(And(1, d), Not(32, res)), Or(1, d));
            Bit(cc, k) == Bit(CarryChain(32, d, 1, res), k) && Xor2(Shr(cc, k)) == Xor2(Shr(CarryChain(32, d, 1, res), k))
  {
    var cc := And(Or(And(1, d), Not(32, res)), Or(1, d));
    IncByteBit(d, res, k);
    IncByteBit(d, res, k + 1);
    Xor2Shr(cc, k);
    Xor2Shr(CarryChain(32, d, 1, res), k);
  }

  /** sub_byte, sub_word, sub_long */
  method Sub(m: Machine, w: nat, d: nat, s: nat) returns (r: nat)
    requires IsWidth(w) && d < Pow2(w) && s < Pow2(w)
    modifies m`flags
    ensures r == Diff(w, d, s, 0) && m.flags == SubFlags(w, d, s, 0, old(m.flags))
  {
    hide Pow2, Bit, Low, Or, And, Shr, Ones, Signed;
    var res := U32(d - s);
    SubRight(w, d, s, 0, res, m.flags);
    SetResultFlags(m, w, res);
    var bc := Or(And(res, Or(Not(32, d), s)), And(Not(32, d), s));
    m.flags := m.flags.(cf := Bit(bc, w - 1));
    m.flags := m.flags.(of := Xor2(Shr(bc, w - 2)));
    m.flags := m.flags.(af := Bit(bc, 3));
    r := Low(w, res);
  }

  /** sbb_byte, sbb_word, sbb_long */
  method Sbb(m: Machine, w: nat, d: nat, s: nat) returns (r: nat)
    requires IsWidth(w) && d < Pow2(w) && s < Pow2(w)
    modifies m`flags
    ensures r == Diff(w, d, s, Carry(old(m.flags)))
    ensures m.flags == SubFlags(w, d, s, Carry(old(m.flags)), old(m.flags))
  {
    hide Pow2, Bit, Low, Or, And, Shr, Ones, Signed;
    var res := if m.flags.cf then U32(d - s - 1) else U32(d - s);
    SubRight(w, d, s, Carry(m.flags), res, m.flags);
    SetResultFlags(m, w, res);
    var bc := Or(And(res, Or(Not(32, d), s)), And(Not(32, d), s));
    m.flags := m.flags.(cf := Bit(bc, w - 1));
    m.flags := m.flags.(of := Xor2(Shr(bc, w - 2)));
    m.flags := m.flags.(af := Bit(bc, 3));
    r := Low(w, res);
  }

  /** cmp_byte, cmp_word, cmp_long: the flags of SUB, and the operand unchanged. */
  method Cmp(m: Machine, w: nat, d: nat, s: nat) returns (r: nat)
    requires IsWidth(w) && d < Pow2(w) && s < Pow2(w)
    modifies m`flags
    ensures r == d && m.flags == SubFlags(w, d, s, 0, old(m.flags))
  {
    hide Pow2, Bit, Low, Or, And, Shr, Ones, Signed;
    var res := U32(d - s);
    SubRight(w, d, s, 0, res, m.flags);
    if w == 8 {
      m.flags := m.flags.(cf := false);
    }
    SetResultFlags(m, w, res);
    var bc := Or(And(res, Or(Not(32, d), s)), And(Not(32, d), s));
    m.flags := m.flags.(cf := Bit(bc, w - 1));
    m.flags := m.flags.(of := Xor2(Shr(bc, w - 2)));
    m.flags := m.flags.(af := Bit(bc, 3));
    r := d;
  }

  /** dec_byte, dec_word, dec_long: SUB of 1, with CF kept. */
  method Dec(m: Machine, w: nat, d: nat) returns (r: nat)
    requires IsWidth(w) && d < Pow2(w)
    modifies m`flags
    ensures r == Diff(w, d, 1, 0)
    ensures m.flags == SubFlags(w, d, 1, 0, old(m.flags)).(cf := old(m.flags.cf))
  {
    hide Pow2, Bit, Low, Or, And, Shr, Ones, Signed;
    var res := U32(d - 1);
    IncSum(w, d, U32(d + 1));
    SubRight(w, d, 1, 0, res, m.flags);
    SetResultFlags(m, w, res);
    var bc := Or(And(res, Or(Not(32, d), 1)), And(Not(32, d), 1));
    m.flags := m.flags.(of := Xor2(Shr(bc, w - 2)));
    m.flags := m.flags.(af := Bit(bc, 3));
    r := Low(w, res);
  }

  /** neg_byte, neg_word, neg_long: SUB from 0, with a chain simplified by hand. */
  method Neg(m: Machine, w: nat, s: nat) returns (r: nat)
    requires IsWidth(w) && s < Pow2(w)
    modifies m`flags
    ensures r == Diff(w, 0, s, 0) && m.flags == SubFlags(w, 0, s, 0, old(m.flags))
  {
    hide Pow2, Bit, Low, Or, And, Shr, Ones, Signed;
    ghost var f := m.flags;
    m.flags := m.flags.(cf := s != 0);
    var res := Low(w, U32(0 - s));
    NegRight(w, s, res, f);
    SetResultFlags(m, w, res);
    var bc := Or(res, s);
    m.flags := m.flags.(of := Xor2(Shr(bc, w - 2)));
    m.flags := m.flags.(af := Bit(bc, 3));
    r := res;
  }

  /** `res | s` has the bits of the borrow chain of 0 - s within the word. */
  lemma NegChainBit(w: nat, s: nat, full: u32, i: nat)
    requires i < w <= 32
    ensures Bit(Or(Low(w, full), s), i) == Bit(BorrowChain(32, 0, s, full), i)
  {
    BitOr(Low(w, full), s, i);
    BitLow(w, full, i);
    BitZero(i);
    BitNot(32, 0, i);
    BitOr(Not(32, 0), s, i);
    BitAnd(full, Or(Not(32, 0), s), i);
    BitAnd(Not(32, 0), s, i);
    BitOr(And(full, Or(Not(32, 0), s)), And(Not(32, 0), s), i);
  }

  lemma NegChain(w: nat, s: nat, full: u32)
    requires 8 <= w <= 32
    ensures var bc := Or(Low(w, full), s);
            && Xor2(Shr(bc, w - 2)) == Xor2(Shr(BorrowChain(32, 0, s, full), w - 2))
            && Bit(bc, 3) == Bit(BorrowChain(32, 0, s, full), 3)
  {
    hide Pow2, Bit, Low, Or, And, Shr, Ones, Signed;
    NegChainBit(w, s, full, 3);
    NegChainBit(w, s, full, w - 2);
    NegChainBit(w, s, full, w - 1);
    Xor2Shr(Or(Low(w, full), s), w - 2);
    Xor2Shr(BorrowChain(32, 0, s, full), w - 2);
  }

  lemma NegRight(w: nat, s: nat, res: nat, f: Flags)
    requires IsWidth(w) && s < Pow2(w) && res == Low(w, U32(0 - s))
    ensures res == Diff(w, 0, s, 0) && res < 0x1_0000_0000 && Low(w, res) == res
    ensures var bc := Or(res, s);
            SubFlags(w, 0, s, 0, f)
            == ResultFlags(w, Low(w, res), f.(cf := s != 0)).(of := Xor2(Shr(bc, w - 2)), af := Bit(bc, 3))
  {
    hide Pow2, Bit, Low, Or, And, Shr, Ones, Signed;
    Pow2Values();
    SubRight(w, 0, s, 0, U32(0 - s), f);
    LowFits(w, res);
    NegChain(w, s, U32(0 - s));
  }
}
