/** The carry and borrow chains: closed forms over the two operands and the result whose bit i is the
    carry (borrow) out of position i. Proved for every width. */
module Chains {
  import opened Words

  /** `(s & d) | (~res & (s | d))` in w-bit registers */
  function CarryChain(w: nat, d: nat, s: nat, res: nat): nat {
    Or(And(s, d), And(Not(w, res), Or(s, d)))
  }

  /** `(res & (~d | s)) | (~d & s)` in w-bit registers */
  function BorrowChain(w: nat, d: nat, s: nat, res: nat): nat {
    Or(And(res, Or(Not(w, d), s)), And(Not(w, d), s))
  }

  /** Adding d, s and c carries out of position i. */
  predicate CarryOut(d: nat, s: nat, c: nat, i: nat) {
    Low(i + 1, d) + Low(i + 1, s) + c >= Pow2(i + 1)
  }

  /** Taking s and c from d borrows into position i + 1. */
  predicate BorrowOut(d: nat, s: nat, c: nat, i: nat) {
    Low(i + 1, d) < Low(i + 1, s) + c
  }

  lemma {:induction false} LowSum(j: nat, d: nat, s: nat, c: nat)
    requires c <= 1
    ensures var low := Low(j, d) + Low(j, s) + c;
            low == Low(j, d + s + c) + if low >= Pow2(j) then Pow2(j) else 0
    decreases j
  {
    if j != 0 {
      var c' := (d % 2 + s % 2 + c) / 2;
      assert (d + s + c) / 2 == d / 2 + s / 2 + c';
      LowSum(j - 1, d / 2, s / 2, c');
    }
  }

  /** The truth table in the source's note: a position carries out when both operand bits are set, or
      when one is and the sum bit is clear. */
  lemma {:induction false} FullAdder(d: nat, s: nat, c: nat, i: nat)
    requires c <= 1
    ensures CarryOut(d, s, c, i) <==> (Bit(s, i) && Bit(d, i)) || (!Bit(d + s + c, i) && (Bit(s, i) || Bit(d, i)))
    decreases i
  {
    if i != 0 {
      var c' := (d % 2 + s % 2 + c) / 2;
      assert (d + s + c) / 2 == d / 2 + s / 2 + c';
      FullAdder(d / 2, s / 2, c', i - 1);
    } else {
      assert Low(1, d) == d % 2 && Low(1, s) == s % 2;
    }
  }

  lemma CarryChainBit(w: nat, d: nat, s: nat, c: nat, res: nat, i: nat)
    requires c <= 1 && i < w && res == Low(w, d + s + c)
    ensures Bit(CarryChain(w, d, s, res), i) <==> CarryOut(d, s, c, i)
  {
    hide Bit, Or, And;
    FullAdder(d, s, c, i);
    BitLow(w, d + s + c, i);
    BitOr(s, d, i);
    BitAnd(s, d, i);
    BitNot(w, res, i);
    BitAnd(Not(w, res), Or(s, d), i);
    BitOr(And(s, d), And(Not(w, res), Or(s, d)), i);
  }

  /** Subtraction is read backwards: d is s + c + res, so the borrows of d - s - c are the carries of that sum. */
  lemma BorrowChainBit(w: nat, d: nat, s: nat, c: nat, res: nat, i: nat)
    requires c <= 1 && i < w && Low(w, s + res + c) == Low(w, d)
    ensures Bit(BorrowChain(w, d, s, res), i) <==> BorrowOut(d, s, c, i)
  {
    hide Bit, Or, And, Low, Pow2;
    var sum := s + res + c;
    FullAdder(s, res, c, i);
    BitLow(w, sum, i);
    BitLow(w, d, i);
    LowSum(i + 1, s, res, c);
    LowLow(i + 1, w, sum);
    LowLow(i + 1, w, d);
    BitNot(w, d, i);
    BitOr(Not(w, d), s, i);
    BitAnd(res, Or(Not(w, d), s), i);
    BitAnd(Not(w, d), s, i);
    BitOr(And(res, Or(Not(w, d), s)), And(Not(w, d), s), i);
  }
}
