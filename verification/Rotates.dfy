/** RCL and RCR: the emulator rotates the w+1 bits of CF:d in one go; the architecture rotates one bit
    at a time. */
module Rotates {
  import opened Words
  import opened Machines
  import opened Arith

  /** The ring of w+1 bits a rotate through carry turns: d below, CF at position w. */
  datatype Ring = Ring(cf: bool, d: nat)

  predicate InRing(w: nat, x: Ring) { w >= 1 && x.d < Pow2(w) }

  function RingBit(w: nat, x: Ring, j: nat): bool { if j == w then x.cf else Bit(x.d, j) }

  /** One step of RCL as the SDM gives it. */
  function StepL(w: nat, x: Ring): Ring
    requires InRing(w, x)
  {
    Ring(Bit(x.d, w - 1), Low(w, 2 * x.d + if x.cf then 1 else 0))
  }

  /** One step of RCR. */
  function StepR(w: nat, x: Ring): (y: Ring)
    requires InRing(w, x)
    ensures InRing(w, y)
  {
    Ring(x.d % 2 == 1, x.d / 2 + if x.cf then Pow2(w - 1) else 0)
  }

  function RotL(w: nat, x: Ring, n: nat): (y: Ring)
    requires InRing(w, x)
    ensures InRing(w, y)
    decreases n, x
  {
    if n == 0 then x else StepL(w, RotL(w, x, n - 1))
  }

  function RotR(w: nat, x: Ring, n: nat): (y: Ring)
    requires InRing(w, x)
    ensures InRing(w, y)
    decreases n, x
  {
    if n == 0 then x else StepR(w, RotR(w, x, n - 1))
  }

  // --- The rotates bit by bit

  /** Where bit j of the ring was n left rotates ago. */
  function FromL(w: nat, n: nat, j: nat): nat
    requires n <= w + 1 && j <= w
  {
    if j >= n then j - n else j + w + 1 - n
  }

  /** Where bit j of the ring was n right rotates ago. */
  function FromR(w: nat, n: nat, j: nat): nat
    requires n <= w + 1 && j <= w
  {
    if j + n <= w then j + n else j + n - w - 1
  }

  lemma StepLBit(w: nat, x: Ring, j: nat)
    requires InRing(w, x) && j <= w
    ensures RingBit(w, StepL(w, x), j) == RingBit(w, x, FromL(w, 1, j))
  {
    var v := 2 * x.d + if x.cf then 1 else 0;
    assert v / 2 == x.d;
    BitLow(w, v, j);
  }

  lemma StepRBit(w: nat, x: Ring, j: nat)
    requires InRing(w, x) && j <= w
    ensures RingBit(w, StepR(w, x), j) == RingBit(w, x, FromR(w, 1, j))
  {
    if j < w {
      var h := x.d / 2;
      var c := if x.cf then Pow2(w - 1) else 0;
      AddTopBit(w - 1, h, x.cf, j);
    }
  }

  /** Putting a bit above a k-bit number. */
  lemma {:induction false} AddTopBit(k: nat, h: nat, c: bool, j: nat)
    requires h < Pow2(k)
    ensures Bit(h + (if c then Pow2(k) else 0), j) == if j == k then c else Bit(h, j)
    decreases k
  {
    if k == 0 {
      if j != 0 {
        BitZero(j - 1);
      }
      BitZero(j);
    } else {
      assert (h + if c then Pow2(k) else 0) / 2 == h / 2 + if c then Pow2(k - 1) else 0;
      if j != 0 {
        AddTopBit(k - 1, h / 2, c, j - 1);
      }
    }
  }

  lemma {:induction false} RotLBit(w: nat, x: Ring, n: nat, j: nat)
    requires InRing(w, x) && n <= w + 1 && j <= w
    ensures RingBit(w, RotL(w, x, n), j) == RingBit(w, x, FromL(w, n, j))
    decreases n
  {
    hide Bit, Low, StepL;
    if n != 0 {
      StepLBit(w, RotL(w, x, n - 1), j);
      RotLBit(w, x, n - 1, FromL(w, 1, j));
    }
  }

  lemma {:induction false} RotRBit(w: nat, x: Ring, n: nat, j: nat)
    requires InRing(w, x) && n <= w + 1 && j <= w
    ensures RingBit(w, RotR(w, x, n), j) == RingBit(w, x, FromR(w, n, j))
    decreases n
  {
    hide Bit, Low, StepR;
    if n != 0 {
      StepRBit(w, RotR(w, x, n - 1), j);
      RotRBit(w, x, n - 1, FromR(w, 1, j));
    }
  }

  lemma SameRing(w: nat, x: Ring, y: Ring)
    requires InRing(w, x) && InRing(w, y)
    requires forall j | 0 <= j <= w :: RingBit(w, x, j) == RingBit(w, y, j)
    ensures x == y
  {
    assert RingBit(w, x, w) == RingBit(w, y, w);
    forall j | 0 <= j < w
      ensures Bit(x.d, j) == Bit(y.d, j)
    {
      assert RingBit(w, x, j) == RingBit(w, y, j);
    }
    SameBits(w, x.d, y.d);
  }

  lemma RotZero(w: nat, x: Ring)
    requires InRing(w, x)
    ensures RotL(w, x, 0) == x && RotR(w, x, 0) == x
  {
  }

  /** w + 1 rotates are none. */
  lemma FullTurn(w: nat, x: Ring)
    requires InRing(w, x)
    ensures RotL(w, x, w + 1) == x && RotR(w, x, w + 1) == x
  {
    hide Bit, RotL, RotR;
    forall j | 0 <= j <= w
      ensures RingBit(w, RotL(w, x, w + 1), j) == RingBit(w, x, j)
      ensures RingBit(w, RotR(w, x, w + 1), j) == RingBit(w, x, j)
    {
      RotLBit(w, x, w + 1, j);
      RotRBit(w, x, w + 1, j);
    }
    SameRing(w, RotL(w, x, w + 1), x);
    SameRing(w, RotR(w, x, w + 1), x);
  }

  /** Rotating by a and then by b is rotating by a + b. */
  lemma {:induction false} RotCompose(w: nat, x: Ring, a: nat, b: nat)
    requires InRing(w, x)
    ensures RotL(w, RotL(w, x, a), b) == RotL(w, x, a + b)
    ensures RotR(w, RotR(w, x, a), b) == RotR(w, x, a + b)
    decreases b
  {
    hide StepL, StepR;
    if b != 0 {
      RotCompose(w, x, a, b - 1);
    }
  }

  /** Only the distance modulo w + 1 matters. */
  lemma {:induction false} RotMod(w: nat, x: Ring, n: nat)
    requires InRing(w, x)
    ensures RotL(w, x, n % (w + 1)) == RotL(w, x, n)
    ensures RotR(w, x, n % (w + 1)) == RotR(w, x, n)
    decreases n
  {
    hide RotL, RotR;
    ModStep(n, w + 1);
    if n > w {
      FullTurn(w, x);
      RotCompose(w, x, w + 1, n - w - 1);
      RotMod(w, x, n - w - 1);
    }
  }

  /** RCR by n undoes RCL by n, on the value and on CF. */
  lemma {:induction false} RotUndo(w: nat, x: Ring, n: nat)
    requires InRing(w, x)
    ensures RotR(w, RotL(w, x, n), n) == x
    decreases n
  {
    if n != 0 {
      var y := RotL(w, x, n - 1);
      StepUndo(w, y);
      RotCompose(w, StepL(w, y), 1, n - 1);
      RotUndo(w, x, n - 1);
      assert RotR(w, StepL(w, y), 1) == StepR(w, RotR(w, StepL(w, y), 0));
    }
  }

  lemma StepUndo(w: nat, x: Ring)
    requires InRing(w, x)
    ensures StepR(w, StepL(w, x)) == x
  {
    hide Bit, StepL, StepR;
    var y := StepL(w, x);
    assert y == StepL(w, RotL(w, x, 0)) == RotL(w, x, 1);
    forall j | 0 <= j <= w
      ensures RingBit(w, StepR(w, y), j) == RingBit(w, x, j)
    {
      StepRBit(w, y, j);
      StepLBit(w, x, FromR(w, 1, j));
    }
    SameRing(w, StepR(w, y), x);
  }

  // --- The closed forms

  /** The value rcl_* builds for 0 < cnt < w + 1: the part shifted up, the part that came round, and CF. */
  function RclValue(w: nat, d: nat, cf: bool, cnt: nat): nat
    requires 0 < cnt <= w
  {
    var res := Or(Low(w, Shl(d, cnt)), And(Shr(d, w + 1 - cnt), Pow2(cnt - 1) - 1));
    if cf then Or(res, Pow2(cnt - 1)) else res
  }

  lemma RclValueBit(w: nat, d: nat, cf: bool, cnt: nat, j: nat)
    requires 0 < cnt <= w && d < Pow2(w)
    ensures Bit(RclValue(w, d, cf, cnt), j)
            == (if j < w then RingBit(w, Ring(cf, d), FromL(w, cnt, j)) else false)
  {
    hide Bit, Low, Shl, Shr, And, Or, Pow2;
    var up, round := Low(w, Shl(d, cnt)), And(Shr(d, w + 1 - cnt), Pow2(cnt - 1) - 1);
    BitLow(w, Shl(d, cnt), j);
    BitShl(d, cnt, j);
    BitShr(d, w + 1 - cnt, j);
    BitMask(cnt - 1, j);
    BitAnd(Shr(d, w + 1 - cnt), Pow2(cnt - 1) - 1, j);
    BitOr(up, round, j);
    BitPow2(cnt - 1, j);
    BitOr(Or(up, round), Pow2(cnt - 1), j);
  }

  /** The register rcr_* builds; the operand shifted up is cut to 32 bits. */
  function RcrValue(w: nat, d: nat, cf: bool, cnt: nat): nat
    requires 0 < cnt <= w
  {
    var res := And(Shr(d, cnt), Pow2(w - cnt) - 1);
    var res' := if w == 32 && cnt == 1 then res else Or(res, Low(32, Shl(d, w + 1 - cnt)));
    if cf then Or(res', Pow2(w - cnt)) else res'
  }

  lemma RcrValueBit(w: nat, d: nat, cf: bool, cnt: nat, j: nat)
    requires 0 < cnt <= w <= 32 && j < w && d < Pow2(w)
    ensures Bit(RcrValue(w, d, cf, cnt), j) == RingBit(w, Ring(cf, d), FromR(w, cnt, j))
  {
    hide Bit, Low, Shl, Shr, And, Or, Pow2;
    var res, round := And(Shr(d, cnt), Pow2(w - cnt) - 1), Low(32, Shl(d, w + 1 - cnt));
    BitShr(d, cnt, j);
    BitMask(w - cnt, j);
    BitAnd(Shr(d, cnt), Pow2(w - cnt) - 1, j);
    BitLow(32, Shl(d, w + 1 - cnt), j);
    BitShl(d, w + 1 - cnt, j);
    BitOr(res, round, j);
    BitPow2(w - cnt, j);
    BitOr(res, Pow2(w - cnt), j);
    BitOr(Or(res, round), Pow2(w - cnt), j);
  }

  /** No set bit at or above w: the number fits w bits. */
  lemma {:induction false} FitsByBits(w: nat, x: nat)
    requires forall j | j >= w :: !Bit(x, j)
    ensures x < Pow2(w)
    decreases w, x
  {
    if w != 0 {
      forall j | j >= w - 1
        ensures !Bit(x / 2, j)
      {
        assert !Bit(x, j + 1);
      }
      FitsByBits(w - 1, x / 2);
    } else if x != 0 {
      var j := HasBit(x);
    }
  }

  lemma {:induction false} HasBit(x: nat) returns (j: nat)
    requires x != 0
    ensures Bit(x, j)
    decreases x
  {
    if x % 2 == 1 {
      j := 0;
    } else {
      j := HasBit(x / 2);
      j := j + 1;
    }
  }

  /** The distance modulo w + 1. */
  function Distance(w: nat, s: nat): (cnt: nat)
    ensures cnt <= w
  {
    s % (w + 1)
  }

  /** rcl's closed form is s rotates. */
  lemma RclRight(w: nat, d: nat, cf: bool, s: nat)
    requires w >= 1 && d < Pow2(w)
    ensures var cnt := Distance(w, s);
            RotL(w, Ring(cf, d), s)
            == if cnt == 0 then Ring(cf, d) else Ring(Bit(d, w - cnt), RclValue(w, d, cf, cnt))
  {
    hide Bit, RotL, RclValue, RotR;
    var x, cnt := Ring(cf, d), Distance(w, s);
    RotMod(w, x, s);
    if cnt == 0 {
      RotZero(w, x);
    } else {
      var v := RclValue(w, d, cf, cnt);
      var y := Ring(Bit(d, w - cnt), v);
      forall j | j >= w
        ensures !Bit(v, j)
      {
        RclValueBit(w, d, cf, cnt, j);
      }
      FitsByBits(w, v);
      forall j | 0 <= j <= w
        ensures RingBit(w, RotL(w, x, cnt), j) == RingBit(w, y, j)
      {
        RotLBit(w, x, cnt, j);
        RclValueBit(w, d, cf, cnt, j);
      }
      SameRing(w, RotL(w, x, cnt), y);
    }
  }

  /** rcr's closed form is s rotates. */
  lemma RcrRight(w: nat, d: nat, cf: bool, s: nat)
    requires 1 <= w <= 32 && d < Pow2(w)
    ensures var cnt := Distance(w, s);
            RotR(w, Ring(cf, d), s)
            == if cnt == 0 then Ring(cf, d) else Ring(Bit(d, cnt - 1), Low(w, RcrValue(w, d, cf, cnt)))
  {
    hide Bit, RotL, RcrValue, RotR, Low;
    var x, cnt := Ring(cf, d), Distance(w, s);
    RotMod(w, x, s);
    if cnt == 0 {
      RotZero(w, x);
    } else {
      var v := RcrValue(w, d, cf, cnt);
      var y := Ring(Bit(d, cnt - 1), Low(w, v));
      forall j | 0 <= j <= w
        ensures RingBit(w, RotR(w, x, cnt), j) == RingBit(w, y, j)
      {
        RotRBit(w, x, cnt, j);
        if j < w {
          BitLow(w, v, j);
          RcrValueBit(w, d, cf, cnt, j);
        }
      }
      SameRing(w, RotR(w, x, cnt), y);
    }
  }

  // --- The distance

  /** The SDM takes five bits of the distance, and the emulator all eight. Up to 31 that is the same; from 32 on the
      results differ at every width, for instance on the ring in which only bit 0 is set. */
  lemma MaskedDistance(w: nat, s: u8)
    requires IsWidth(w)
    ensures s < 32 ==> s % 32 == s
    ensures s >= 32 ==> InRing(w, Ring(false, 1)) && RotL(w, Ring(false, 1), s) != RotL(w, Ring(false, 1), s % 32)
                        && RotR(w, Ring(false, 1), s) != RotR(w, Ring(false, 1), s % 32)
  {
    hide RotL, RotR, Distance;
    if s >= 32 {
      DistancesDiffer(w, s, s % 32, s / 32);
      OneBit(w, Distance(w, s), Distance(w, s % 32));
      RotDistance(w, Ring(false, 1), s);
      RotDistance(w, Ring(false, 1), s % 32);
    }
  }

  lemma RotDistance(w: nat, x: Ring, n: nat)
    requires InRing(w, x)
    ensures RotL(w, x, Distance(w, n)) == RotL(w, x, n) && RotR(w, x, Distance(w, n)) == RotR(w, x, n)
  {
    hide RotL, RotR;
    RotMod(w, x, n);
  }

  lemma DistancesDiffer(w: nat, s: nat, r: nat, q: nat)
    requires IsWidth(w) && s == 32 * q + r && 1 <= q <= 7
    ensures Distance(w, s) != Distance(w, r)
  {
    if w == 8 {
      NotCongruent(s, r, q, 9);
    } else if w == 16 {
      NotCongruent(s, r, q, 17);
    } else {
      NotCongruent(s, r, q, 33);
    }
  }

  lemma NotCongruent(s: nat, r: nat, q: nat, m: nat)
    requires s == 32 * q + r && 1 <= q <= 7 && (m == 9 || m == 17 || m == 33)
    ensures s % m != r % m
  {
    var a, b := s / m, r / m;
    assert s == m * a + s % m && r == m * b + r % m;
    assert q == 1 || q == 2 || q == 3 || q == 4 || q == 5 || q == 6 || q == 7;
  }

  /** The single bit ends up in different places. */
  lemma OneBit(w: nat, a: nat, b: nat)
    requires IsWidth(w) && a <= w && b <= w && a != b
    ensures InRing(w, Ring(false, 1)) && RotL(w, Ring(false, 1), a) != RotL(w, Ring(false, 1), b)
    ensures RotR(w, Ring(false, 1), a) != RotR(w, Ring(false, 1), b)
  {
    hide RotL, RotR, Bit;
    Pow2Values();
    var x := Ring(false, 1);
    OneBitOf();
    var j, k := a, if a == 0 then 0 else w + 1 - a;
    RotLBit(w, x, a, j);
    RotLBit(w, x, b, j);
    RotRBit(w, x, a, k);
    RotRBit(w, x, b, k);
  }

  lemma OneBitOf()
    ensures Bit(1, 0) && forall i: nat | i > 0 :: !Bit(1, i)
  {
    forall i: nat | i > 0
      ensures !Bit(1, i)
    {
      BitZero(i - 1);
    }
  }

  // --- The operations

  function B2N(b: bool): nat { if b then 1 else 0 }

  lemma Xor2Top(w: nat, c: bool, x: nat)
    requires w >= 2
    ensures Xor2(B2N(c) + And(Shr(x, w - 2), 2)) == (c != Bit(x, w - 1))
  {
    var a := And(Shr(x, w - 2), 2);
    BitAnd(Shr(x, w - 2), 2, 0);
    BitAnd(Shr(x, w - 2), 2, 1);
    BitShr(x, w - 2, 1);
    assert Bit(2, 1) && !Bit(2, 0);
    assert (B2N(c) + a) / 2 == a / 2;
  }

  /** Or-ing in something else than the part shifted up, which at distance 32 is empty. */
  lemma WildUp(d: nat, cf: bool, wild: u32)
    requires d < Pow2(32)
    ensures var x := And(Shr(d, 1), Pow2(31) - 1);
            (if cf then Or(Or(wild, x), Pow2(31)) else Or(wild, x)) == Or(RclValue(32, d, cf, 32), wild)
  {
    hide Or, And, Shr, Shl, Low;
    var x := And(Shr(d, 1), Pow2(31) - 1);
    ShlDouble(d, 32);
    LowIsMod(32, Shl(d, 32));
    Pow2Values();
    assert Low(32, Shl(d, 32)) == 0;
    OrNone(x);
    OrCommutes(wild, x);
    OrAssociates(x, wild, Pow2(31));
    OrCommutes(wild, Pow2(31));
    OrAssociates(x, Pow2(31), wild);
  }

  /** What rcl_* computes, with any value for a shift by 32. */
  lemma RclComputed(w: nat, d: nat, cf: bool, cnt: nat, wild: u32)
    requires IsWidth(w) && d < Pow2(w) && 0 < cnt <= w
    ensures var up := if cnt == 32 then wild else Low(w, Shl(d, cnt));
            var around := And(if w == 32 && cnt == 1 then wild else Shr(d, w + 1 - cnt), Pow2(cnt - 1) - 1);
            var v := RclValue(w, d, cf, cnt);
            (if cf then Or(Or(up, around), Pow2(cnt - 1)) else Or(up, around)) == if cnt == 32 then Or(v, wild) else v
  {
    hide Bit, Low, Shl, Shr, And, Or, Pow2;
    Pow2None();
    if cnt == 32 {
      WildUp(d, cf, wild);
    } else if w == 32 && cnt == 1 {
      AndNone(wild);
      AndNone(Shr(d, w + 1 - cnt));
    }
  }

  /** What rcr_* computes. */
  lemma RcrComputed(w: nat, d: nat, cf: bool, cnt: nat, wild: u32)
    requires IsWidth(w) && d < Pow2(w) && 0 < cnt <= w
    ensures var down := And(if cnt == 32 then wild else Shr(d, cnt), Pow2(w - cnt) - 1);
            var res := if w != 32 || cnt != 1 then Or(down, Low(32, Shl(d, w + 1 - cnt))) else down;
            (if cf then Or(res, Pow2(w - cnt)) else res) == RcrValue(w, d, cf, cnt)
  {
    hide Bit, Low, Shl, Shr, And, Or, Pow2;
    Pow2None();
    if cnt == 32 {
      AndNone(wild);
      AndNone(Shr(d, cnt));
    }
  }

  /** rcl_byte, rcl_word, rcl_long. C leaves a shift by 32 undefined; `wild` is what it gives. At distance 1 it
      is masked off. At distance 32 it is or-ed into the result, which is right exactly when that adds no bit. */
  method Rcl(m: Machine, w: nat, d: nat, s: u8, wild: u32) returns (r: nat)
    requires IsWidth(w) && d < Pow2(w)
    modifies m`flags
    ensures var y := RotL(w, Ring(old(m.flags.cf), d), s);
            && r == (if Distance(w, s) == 32 then Or(y.d, wild) else y.d)
            && m.flags == old(m.flags).(
                 cf := y.cf, of := if Distance(w, s) == 0 then old(m.flags.of) else Distance(w, s) == 1 && y.cf != Bit(r, w - 1))
  {
    hide RotL, Bit, Low, Shl, Shr, And, Or, Pow2, Xor2, RclValue, B2N, Distance;
    RclRight(w, d, m.flags.cf, s);
    var res := d;
    var cnt := Distance(w, s);
    if cnt != 0 {
      var cf := Bit(d, w - cnt);
      res := if cnt == 32 then wild else Low(w, Shl(d, cnt));
      var mask := Pow2(cnt - 1) - 1;
      RclComputed(w, d, m.flags.cf, cnt, wild);
      res := Or(res, And(if w == 32 && cnt == 1 then wild else Shr(d, w + 1 - cnt), mask));
      if m.flags.cf {
        res := Or(res, Pow2(cnt - 1));
      }
      m.flags := m.flags.(cf := cf);
      Xor2Top(w, cf, res);
      m.flags := m.flags.(of := cnt == 1 && Xor2(B2N(cf) + And(Shr(res, w - 2), 2)));
    }
    r := res;
  }

  lemma Pow2None()
    ensures Pow2(0) - 1 == 0
  {
  }

  /** x86 hardware shifts by 32 not at all. A single set bit then stays where it was. */
  lemma RclWitness()
    ensures RotL(32, Ring(false, 1), 32) == Ring(true, 0) && Or(0, 1) == 1
  {
    hide RotL, RclValue, Bit;
    Pow2Values();
    RclRight(32, 1, false, 32);
    RclOne();
    OrNone(1);
  }

  lemma RclOne()
    ensures Bit(1, 0) && RclValue(32, 1, false, 32) == 0
  {
    hide Or, Low, Shl, Pow2;
    Pow2Values();
    ShlDouble(1, 32);
    LowIsMod(32, Shl(1, 32));
    assert Shr(1, 1) == 0;
    assert And(0, Pow2(31) - 1) == 0;
    OrNone(0);
  }

  /** rcr_byte, rcr_word, rcr_long. A shift by 32 is always masked off or avoided. */
  method Rcr(m: Machine, w: nat, d: nat, s: u8, wild: u32) returns (r: nat)
    requires IsWidth(w) && d < Pow2(w)
    modifies m`flags
    ensures var y := RotR(w, Ring(old(m.flags.cf), d), s);
            r == y.d && m.flags == old(m.flags).(
              cf := y.cf, of := if Distance(w, s) == 1 then old(m.flags.cf) != Bit(d, w - 1) else old(m.flags.of))
  {
    hide RotR, Bit, Low, Shl, Shr, And, Or, Pow2, Xor2, B2N, RcrValue, Distance;
    RcrRight(w, d, m.flags.cf, s);
    LowFits(w, d);
    var res := d;
    var cnt := Distance(w, s);
    if cnt != 0 {
      var cf, ocf := Bit(d, cnt - 1), false;
      if cnt == 1 {
        ocf := m.flags.cf;
      }
      var mask := Pow2(w - cnt) - 1;
      RcrComputed(w, d, m.flags.cf, cnt, wild);
      res := And(if cnt == 32 then wild else Shr(d, cnt), mask);
      if w != 32 || cnt != 1 {
        res := Or(res, Low(32, Shl(d, w + 1 - cnt)));
      }
      if m.flags.cf {
        res := Or(res, Pow2(w - cnt));
      }
      m.flags := m.flags.(cf := cf);
      if cnt == 1 {
        Xor2Top(w, ocf, d);
        m.flags := m.flags.(of := Xor2(B2N(ocf) + And(Shr(d, w - 2), 2)));
      }
    }
    r := Low(w, res);
  }
}
