/** Machine words as natural numbers: powers of two, single bits, and the C operators `&`, `|`, `~`,
    `<<` and `>>`, each characterised by its bits. */
module Words {

  type u8 = x: int | 0 <= x < 0x100
  type u16 = x: int | 0 <= x < 0x1_0000
  type u32 = x: int | 0 <= x < 0x1_0000_0000

  function Pow2(n: nat): (p: nat)
    ensures p >= 1
  {
    if n == 0 then 1 else 2 * Pow2(n - 1)
  }

  /** Bit i of x. */
  predicate Bit(x: nat, i: nat)
    decreases i, x
  {
    if i == 0 then x % 2 == 1 else Bit(x / 2, i - 1)
  }

  /** The low w bits of x, `x & (2^w - 1)`; equal to x % 2^w by LowIsMod. */
  function Low(w: nat, x: nat): (r: nat)
    ensures r < Pow2(w)
    decreases w, x
  {
    if w == 0 then 0 else x % 2 + 2 * Low(w - 1, x / 2)
  }

  /** `a & b` */
  function And(a: nat, b: nat): nat
  {
    if a == 0 then 0 else (a % 2) * (b % 2) + 2 * And(a / 2, b / 2)
  }

  /** `a | b` */
  function Or(a: nat, b: nat): nat
    decreases a + b
  {
    if a == 0 && b == 0 then 0 else (if a % 2 == 1 || b % 2 == 1 then 1 else 0) + 2 * Or(a / 2, b / 2)
  }

  /** `~a` in a w-bit register */
  function Not(w: nat, a: nat): nat { Pow2(w) - 1 - Low(w, a) }

  /** `a << k`, before truncation to a register */
  function Shl(a: nat, k: nat): nat
    decreases k, a
  {
    if k == 0 then a else Shl(2 * a, k - 1)
  }

  /** `a >> k` */
  function Shr(a: nat, k: nat): nat
    decreases k, a
  {
    if k == 0 then a else Shr(a / 2, k - 1)
  }

  /** Conversion to an unsigned 32-bit register. */
  function U32(x: int): u32 { x % 0x1_0000_0000 }

  lemma Pow2Values()
    ensures Pow2(3) == 8 && Pow2(4) == 16 && Pow2(5) == 32 && Pow2(8) == 0x100
    ensures Pow2(16) == 0x1_0000 && Pow2(17) == 0x2_0000
    ensures Pow2(31) == 0x8000_0000 && Pow2(32) == 0x1_0000_0000 && Pow2(33) == 0x2_0000_0000
  {
    assert Pow2(5) == 32 && Pow2(8) == 0x100;
    assert Pow2(16) == 0x1_0000;
    assert Pow2(24) == 0x100_0000;
    assert Pow2(32) == 0x1_0000_0000;
  }

  lemma {:induction false} Pow2Mono(a: nat, b: nat)
    requires a <= b
    ensures Pow2(a) <= Pow2(b)
    decreases b
  {
    if a < b {
      Pow2Mono(a, b - 1);
    }
  }

  lemma MulDouble(a: nat, b: nat)
    ensures a * (2 * b) == 2 * (a * b) && (2 * a) * b == 2 * (a * b)
  {
  }

  lemma {:induction false} Pow2Split(a: nat, b: nat)
    ensures Pow2(a + b) == Pow2(a) * Pow2(b)
    decreases a
  {
    if a != 0 {
      Pow2Split(a - 1, b);
      MulDouble(Pow2(a - 1), Pow2(b));
    }
  }

  lemma ModUnique(x: nat, m: nat, q: nat, r: nat)
    requires r < m && x == q * m + r
    ensures x % m == r && x / m == q
  {
    var dq := x / m - q;
    assert x == (x / m) * m + x % m;
    assert dq * m == r - x % m;
    assert dq >= 1 ==> dq * m >= m;
    assert dq <= -1 ==> dq * m + m <= 0;
  }

  lemma ModStep(n: nat, m: nat)
    requires m >= 1
    ensures n % m == if n < m then n else (n - m) % m
  {
    if n < m {
      ModUnique(n, m, 0, n);
    } else {
      assert n - m == ((n - m) / m) * m + (n - m) % m;
      ModUnique(n, m, (n - m) / m + 1, (n - m) % m);
    }
  }

  lemma {:induction false} LowFits(w: nat, x: nat)
    requires x < Pow2(w)
    ensures Low(w, x) == x
    decreases w
  {
    if w != 0 {
      LowFits(w - 1, x / 2);
    }
  }

  lemma {:induction false} LowSplit(w: nat, x: nat)
    ensures x == Shr(x, w) * Pow2(w) + Low(w, x)
    decreases w
  {
    if w != 0 {
      LowSplit(w - 1, x / 2);
      MulDouble(Shr(x, w), Pow2(w - 1));
    }
  }

  lemma LowIsMod(w: nat, x: nat)
    ensures Low(w, x) == x % Pow2(w) && Shr(x, w) == x / Pow2(w)
  {
    LowSplit(w, x);
    ModUnique(x, Pow2(w), Shr(x, w), Low(w, x));
  }

  lemma {:induction false} LowLow(v: nat, w: nat, x: nat)
    requires v <= w
    ensures Low(v, Low(w, x)) == Low(v, x)
    decreases v
  {
    if v != 0 {
      LowLow(v - 1, w - 1, x / 2);
    }
  }

  /** Low only sees its argument modulo 2^w. */
  lemma {:induction false} LowShift(w: nat, x: nat, q: nat)
    ensures Low(w, x + q * Pow2(w)) == Low(w, x)
    decreases w
  {
    if w != 0 {
      var h := q * Pow2(w - 1);
      LowShift(w - 1, x / 2, q);
      MulDouble(q, Pow2(w - 1));
      LowAddEven(w, x, h);
    }
  }

  lemma LowAddEven(w: nat, x: nat, h: nat)
    requires w >= 1
    ensures Low(w, x + 2 * h) == x % 2 + 2 * Low(w - 1, x / 2 + h)
  {
    assert (x + 2 * h) / 2 == x / 2 + h;
  }

  /** One more bit of Low. */
  lemma {:induction false} LowStep(i: nat, x: nat)
    ensures Low(i + 1, x) == Low(i, x) + (if Bit(x, i) then Pow2(i) else 0)
    decreases i
  {
    if i != 0 {
      LowStep(i - 1, x / 2);
    }
  }

  lemma {:induction false} BitLow(w: nat, x: nat, i: nat)
    ensures Bit(Low(w, x), i) == (i < w && Bit(x, i))
    decreases w
  {
    if w == 0 {
      BitZero(i);
    } else if i != 0 {
      BitLow(w - 1, x / 2, i - 1);
    }
  }

  lemma {:induction false} BitZero(i: nat)
    ensures !Bit(0, i)
  {
    if i != 0 {
      BitZero(i - 1);
    }
  }

  lemma {:induction false} BitAnd(a: nat, b: nat, i: nat)
    ensures Bit(And(a, b), i) == (Bit(a, i) && Bit(b, i))
    decreases i
  {
    if a == 0 {
      BitZero(i);
    } else if i != 0 {
      BitAnd(a / 2, b / 2, i - 1);
    }
  }

  lemma {:induction false} BitOr(a: nat, b: nat, i: nat)
    ensures Bit(Or(a, b), i) == (Bit(a, i) || Bit(b, i))
    decreases i
  {
    if a == 0 && b == 0 {
      BitZero(i);
    } else if i != 0 {
      BitOr(a / 2, b / 2, i - 1);
    }
  }

  lemma {:induction false} BitNot(w: nat, a: nat, i: nat)
    requires i < w
    ensures Bit(Not(w, a), i) == !Bit(a, i)
    decreases i
  {
    if i != 0 {
      assert Not(w, a) / 2 == Not(w - 1, a / 2);
      BitNot(w - 1, a / 2, i - 1);
    }
  }

  lemma {:induction false} BitShl(a: nat, k: nat, i: nat)
    ensures Bit(Shl(a, k), i) == (i >= k && Bit(a, i - k))
    decreases k
  {
    if k != 0 {
      BitShl(2 * a, k - 1, i);
      if i >= k {
        assert (2 * a) / 2 == a;
      }
    }
  }

  lemma {:induction false} BitShr(a: nat, k: nat, i: nat)
    ensures Bit(Shr(a, k), i) == Bit(a, i + k)
    decreases k
  {
    if k != 0 {
      BitShr(a / 2, k - 1, i);
    }
  }

  /** The bits of the mask `(1 << k) - 1`. */
  lemma {:induction false} BitMask(k: nat, i: nat)
    ensures Bit(Pow2(k) - 1, i) == (i < k)
    decreases k
  {
    if k == 0 {
      BitZero(i);
    } else if i != 0 {
      assert (Pow2(k) - 1) / 2 == Pow2(k - 1) - 1;
      BitMask(k - 1, i - 1);
    }
  }

  /** The bits of `1 << k`. */
  lemma {:induction false} BitPow2(k: nat, i: nat)
    ensures Bit(Pow2(k), i) == (i == k)
    decreases k
  {
    if k == 0 {
      if i != 0 {
        BitZero(i - 1);
      }
    } else if i != 0 {
      BitPow2(k - 1, i - 1);
    }
  }

  /** The top bit of a w-bit word says whether it reaches 2^(w-1). */
  lemma {:induction false} TopBit(w: nat, x: nat)
    requires 1 <= w && x < Pow2(w)
    ensures Bit(x, w - 1) <==> x >= Pow2(w - 1)
    decreases w
  {
    if w > 1 {
      TopBit(w - 1, x / 2);
    }
  }

  /** Words with the same bits are the same word. */
  lemma {:induction false} SameBits(w: nat, a: nat, b: nat)
    requires a < Pow2(w) && b < Pow2(w)
    requires forall i | 0 <= i < w :: Bit(a, i) == Bit(b, i)
    ensures a == b
    decreases w
  {
    if w != 0 {
      assert Bit(a, 0) == Bit(b, 0);
      forall i | 0 <= i < w - 1
        ensures Bit(a / 2, i) == Bit(b / 2, i)
      {
        assert Bit(a, i + 1) == Bit(b, i + 1);
      }
      SameBits(w - 1, a / 2, b / 2);
    }
  }

  /** Numbers with no bit in common add up under `|`. */
  lemma {:induction false} OrAbove(k: nat, x: nat, y: nat)
    requires y < Pow2(k)
    ensures Or(Shl(x, k), y) == x * Pow2(k) + y
    decreases k
  {
    if k == 0 {
      OrZero(x);
    } else {
      ShlDouble(x, k - 1);
      OrAbove(k - 1, x, y / 2);
      MulDouble(x, Pow2(k - 1));
    }
  }

  lemma {:induction false} ShlDouble(x: nat, k: nat)
    ensures Shl(2 * x, k) == 2 * Shl(x, k) && Shl(x, k) == x * Pow2(k)
    decreases k
  {
    if k != 0 {
      ShlDouble(2 * x, k - 1);
      ShlDouble(x, k - 1);
      MulDouble(x, Pow2(k - 1));
    }
  }

  lemma {:induction false} OrZero(x: nat)
    ensures Or(x, 0) == x
  {
    if x != 0 {
      OrZero(x / 2);
    }
  }

  lemma {:induction false} OrCommutes(a: nat, b: nat)
    ensures Or(a, b) == Or(b, a)
    decreases a + b
  {
    if a != 0 || b != 0 {
      OrCommutes(a / 2, b / 2);
    }
  }

  lemma OrNone(x: nat)
    ensures Or(0, x) == x
  {
    OrCommutes(0, x);
    OrZero(x);
  }

  lemma {:induction false} OrAssociates(a: nat, b: nat, c: nat)
    ensures Or(Or(a, b), c) == Or(a, Or(b, c))
    decreases a + b + c
  {
    if a != 0 || b != 0 || c != 0 {
      OrAssociates(a / 2, b / 2, c / 2);
      OrStep(a, b);
      OrStep(b, c);
      OrStep(Or(a, b), c);
      OrStep(a, Or(b, c));
    }
  }

  lemma OrStep(a: nat, b: nat)
    ensures Or(a, b) / 2 == Or(a / 2, b / 2) && Or(a, b) % 2 == if a % 2 == 1 || b % 2 == 1 then 1 else 0
  {
  }

  lemma {:induction false} AndNone(x: nat)
    ensures And(x, 0) == 0
    decreases x
  {
    if x != 0 {
      AndNone(x / 2);
    }
  }

  /** The number with lo in its low k bits and hi above them. */
  function Append(k: nat, lo: nat, hi: nat): nat { lo + hi * Pow2(k) }

  lemma {:induction false} BitAppend(k: nat, lo: nat, hi: nat, i: nat)
    requires lo < Pow2(k)
    ensures Bit(Append(k, lo, hi), i) == if i < k then Bit(lo, i) else Bit(hi, i - k)
    decreases k
  {
    if k != 0 {
      AppendHalf(k, lo, hi);
      if i != 0 {
        BitAppend(k - 1, lo / 2, hi, i - 1);
      }
    }
  }

  lemma AppendHalf(k: nat, lo: nat, hi: nat)
    requires k >= 1
    ensures Append(k, lo, hi) / 2 == Append(k - 1, lo / 2, hi) && Append(k, lo, hi) % 2 == lo % 2
  {
    MulDouble(hi, Pow2(k - 1));
    var h := hi * Pow2(k - 1);
    assert (lo + 2 * h) / 2 == lo / 2 + h;
  }

  lemma AppendBound(k: nat, j: nat, lo: nat, hi: nat)
    requires lo < Pow2(k) && hi < Pow2(j)
    ensures Append(k, lo, hi) < Pow2(k + j)
  {
    Pow2Split(j, k);
    MulMono(hi + 1, Pow2(j), Pow2(k));
    assert (hi + 1) * Pow2(k) == hi * Pow2(k) + Pow2(k);
  }

  lemma MulMono(a: nat, b: nat, c: nat)
    requires a <= b
    ensures a * c <= b * c
  {
  }
}
