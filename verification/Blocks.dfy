/** The real-mode block allocator as operations on a table of (size, free) records, and what every
    history of them keeps. v86_mem.c and lrmi.c hold the same code for different capacities. */
module Blocks {

  const MAX_BLOCKS: nat := 0x100

  /** Sizes are 20-bit fields. */
  const SIZE_MOD: int := 0x10_0000

  type Size = x: int | 0 <= x < 0x10_0000

  datatype Block = Block(size: Size, free: bool)

  type Table = seq<Block>

  // --- What a table says

  function Total(t: Table): nat {
    if t == [] then 0 else t[0].size + Total(t[1..])
  }

  /** The allocations a table records: start address to size, for blocks laid out from r on. */
  function Live(t: Table, r: nat): map<nat, nat> {
    if t == [] then map[]
    else
      var rest := Live(t[1..], r + t[0].size);
      if t[0].free then rest else rest[r := t[0].size as nat]
  }

  predicate Positive(t: Table) { forall i | 0 <= i < |t| :: t[i].size > 0 }

  predicate Aligned(t: Table) { forall i | 0 <= i < |t| :: t[i].size % 16 == 0 }

  predicate Coalesced(t: Table) { forall i | 0 <= i < |t| - 1 :: !(t[i].free && t[i + 1].free) }

  /** The blocks tile the region, none is empty, free neighbours are merged and the last block is free. */
  predicate WellFormed(t: Table, capacity: nat) {
    0 < |t| <= MAX_BLOCKS && Positive(t) && Aligned(t) && Coalesced(t) && t[|t| - 1].free && Total(t) == capacity
  }

  /** A region v86_mem_init or LRMI_init can hand out: 0x20000 bytes in v86d, 0x40000 in LRMI. */
  predicate Capacity(c: nat) { 0 < c < 0x10_0000 && c % 16 == 0 }

  function Fresh(capacity: nat): Table
    requires Capacity(capacity)
  {
    [Block(capacity, true)]
  }

  // --- The operations

  /** `(size + 15) & ~15` */
  function Round(size: int): int { (size + 15) / 16 * 16 }

  predicate Fits(b: Block, n: int) { b.free && n < b.size }

  /** The first block from i on that is free and larger than n, or |t|. */
  function FirstFit(t: Table, n: int, i: nat): (j: nat)
    requires i <= |t|
    ensures i <= j <= |t| && (j < |t| ==> Fits(t[j], n))
    ensures forall k | i <= k < j :: !Fits(t[k], n)
    decreases |t| - i
  {
    if i == |t| || Fits(t[i], n) then i else FirstFit(t, n, i + 1)
  }

  function Trunc(x: int): Size { x % SIZE_MOD }

  /** Block i cut in two: n bytes taken, the rest free. */
  function Carve(t: Table, i: nat, n: int): Table
    requires i < |t|
  {
    t[..i] + [Block(Trunc(n), false), Block(Trunc(t[i].size - n), t[i].free)] + t[i + 1..]
  }

  /** v86_mem_alloc on a ready table: the new table and the address, 0 for failure. */
  function Alloc(t: Table, base: nat, size: int): (Table, nat) {
    var n := Round(size);
    var i := FirstFit(t, n, 0);
    if |t| == MAX_BLOCKS || i == |t| then (t, 0) else (Carve(t, i, n), base + Total(t[..i]))
  }

  /** The index v86_mem_free's scan stops at when it starts at block i and address r; |t| when it gives up. */
  function Find(t: Table, r: nat, m: nat, i: nat): (j: nat)
    requires i < |t|
    ensures i <= j <= |t|
    decreases |t| - i
  {
    if m == r then i else if i + 1 == |t| then |t| else Find(t, r + t[i].size, m, i + 1)
  }

  /** Block i + 1 absorbed into block i. */
  function Absorb(t: Table, i: nat): Table
    requires i + 1 < |t|
  {
    t[..i] + [Block(Trunc(t[i].size + t[i + 1].size), t[i].free)] + t[i + 2..]
  }

  function AbsorbRight(t: Table, i: nat): Table
    requires i < |t|
  {
    if i + 1 < |t| && t[i + 1].free then Absorb(t, i) else t
  }

  function AbsorbLeft(t: Table, i: nat): Table
    requires i < |t|
  {
    if i >= 1 && t[i - 1].free then Absorb(t, i - 1) else t
  }

  function Release(t: Table, i: nat): Table
    requires i < |t|
  {
    AbsorbLeft(AbsorbRight(t[i := t[i].(free := true)], i), i)
  }

  /** v86_mem_free on a ready table. */
  function Free(t: Table, base: nat, m: nat): Table
    requires t != []
  {
    var i := Find(t, base, m, 0);
    if i == |t| then t else Release(t, i)
  }

  // --- Tables put together

  lemma {:induction false} TotalConcat(a: Table, b: Table)
    ensures Total(a + b) == Total(a) + Total(b)
  {
    if a == [] {
      assert a + b == b;
    } else {
      assert (a + b)[1..] == a[1..] + b;
      TotalConcat(a[1..], b);
    }
  }

  lemma {:induction false} LiveRange(t: Table, r: nat)
    requires Positive(t)
    ensures forall k | k in Live(t, r) :: r <= k && Live(t, r)[k] > 0 && k + Live(t, r)[k] <= r + Total(t)
  {
    if t != [] {
      LiveRange(t[1..], r + t[0].size);
    }
  }

  lemma {:induction false} LiveConcat(a: Table, b: Table, r: nat)
    requires Positive(a) && Positive(b)
    ensures Live(a + b, r) == Live(a, r) + Live(b, r + Total(a))
    ensures Live(a, r).Keys !! Live(b, r + Total(a)).Keys
  {
    if a == [] {
      assert a + b == b;
    } else {
      assert (a + b)[1..] == a[1..] + b;
      var r' := r + a[0].size;
      LiveConcat(a[1..], b, r');
      LiveRange(b, r' + Total(a[1..]));
    }
  }

  /** A table cut at block i. */
  lemma Cut(t: Table, i: nat, r: nat)
    requires i < |t| && Positive(t)
    ensures Total(t) == Total(t[..i]) + t[i].size + Total(t[i + 1..])
    ensures var p := r + Total(t[..i]);
            && Live(t, r) == Live(t[..i], r) + Live(t[i..], p)
            && Live(t[i..], p) == (if t[i].free then Live(t[i + 1..], p + t[i].size)
                                   else Live(t[i + 1..], p + t[i].size)[p := t[i].size as nat])
            && p !in Live(t[..i], r) && p !in Live(t[i + 1..], p + t[i].size)
            && (p in Live(t, r) <==> !t[i].free)
  {
    assert t == t[..i] + t[i..];
    assert t[i..][1..] == t[i + 1..];
    TotalConcat(t[..i], t[i..]);
    LiveConcat(t[..i], t[i..], r);
    LiveRange(t[..i], r);
    LiveRange(t[i + 1..], r + Total(t[..i]) + t[i].size);
  }

  lemma FreeHead(b: Block, t: Table, r: nat)
    requires b.free
    ensures Live([b] + t, r) == Live(t, r + b.size) && Total([b] + t) == b.size + Total(t)
  {
    assert ([b] + t)[1..] == t;
  }

  // --- Allocation

  /** Cutting an allocation out of a free block. */
  lemma CarveLive(t: Table, i: nat, n: int, r: nat)
    requires i < |t| && Positive(t) && t[i].free && 0 < n < t[i].size
    ensures Total(Carve(t, i, n)) == Total(t)
    ensures var p := r + Total(t[..i]);
            p !in Live(t, r) && Live(Carve(t, i, n), r) == Live(t, r)[p := n]
  {
    hide Total, Live;
    var c := Carve(t, i, n);
    Cut(t, i, r);
    Cut(c, i, r);
    assert c[..i] == t[..i];
    assert c[i + 1..] == [c[i + 1]] + t[i + 1..];
    FreeHead(c[i + 1], t[i + 1..], r + Total(t[..i]) + n);
  }

  lemma CarveWellFormed(t: Table, capacity: nat, i: nat, n: int)
    requires WellFormed(t, capacity) && |t| < MAX_BLOCKS
    requires i < |t| && t[i].free && 0 < n < t[i].size && n % 16 == 0
    ensures WellFormed(Carve(t, i, n), capacity)
  {
    hide Total, Live;
    var c := Carve(t, i, n);
    CarveLive(t, i, n, 0);
    assert forall k | 0 <= k < i :: c[k] == t[k];
    assert c[i].size == n && c[i + 1].size == t[i].size - n;
    assert forall k | i + 2 <= k < |c| :: c[k] == t[k - 1];
  }

  lemma {:induction false} BlockAtMost(t: Table, i: nat)
    requires i < |t|
    ensures t[i].size <= Total(t)
  {
    if i != 0 {
      BlockAtMost(t[1..], i - 1);
    }
  }

  /** The rounded size is the least multiple of 16 not below the size, for every int. */
  lemma RoundIs(size: int, n: int)
    requires n % 16 == 0 && size <= n < size + 16
    ensures Round(size) == n
  {
  }

  lemma RoundBounds(size: int)
    ensures Round(size) % 16 == 0 && size <= Round(size) < size + 16
  {
  }

  /** Allocation of a positive size keeps the table well formed and records exactly one new region, at an address
      that was not live: the size rounded up to 16 bytes. On failure nothing changes. */
  lemma AllocRight(t: Table, capacity: nat, base: nat, size: int)
    requires WellFormed(t, capacity) && Capacity(capacity) && base > 0 && size > 0
    ensures var (t', r) := Alloc(t, base, size);
            && WellFormed(t', capacity)
            && if r == 0 then t' == t else r !in Live(t, base) && Live(t', base) == Live(t, base)[r := Round(size)]
    ensures Round(size) % 16 == 0 && size <= Round(size) < size + 16
  {
    hide Total, Live, Positive, Aligned, Coalesced, FirstFit, Carve;
    RoundBounds(size);
    var n := Round(size);
    var i := FirstFit(t, n, 0);
    if |t| != MAX_BLOCKS && i != |t| {
      CarveWellFormed(t, capacity, i, n);
      CarveLive(t, i, n, base);
    }
  }

  /** First fit is complete: with n the size rounded up to a multiple of 16, allocation fails only when there are
      256 records or no free block is larger than n, and otherwise takes the lowest such block. */
  lemma AllocFirstFit(t: Table, base: nat, size: int, n: int)
    requires base > 0 && n % 16 == 0 && size <= n < size + 16
    ensures var (t', r) := Alloc(t, base, size);
            && (r == 0 <==> |t| == 0x100 || forall i | 0 <= i < |t| :: !(t[i].free && n < t[i].size))
            && (r != 0 ==> exists i | 0 <= i < |t| :: r == base + Total(t[..i]) && t[i].free && n < t[i].size
                                                     && forall j | 0 <= j < i :: !(t[j].free && n < t[j].size))
  {
    RoundIs(size, n);
    var i := FirstFit(t, n, 0);
    if |t| != MAX_BLOCKS && i != |t| {
      assert Fits(t[i], n);
      assert forall j | 0 <= j < i :: !Fits(t[j], n);
    } else if i == |t| {
      assert forall j | 0 <= j < |t| :: !Fits(t[j], n);
    }
  }

  /** Addresses are aligned as the region is, whatever size was asked. */
  lemma AllocAligned(t: Table, base: nat, size: int)
    requires Aligned(t) && base % 16 == 0
    ensures Alloc(t, base, size).1 % 16 == 0
  {
    TotalAligned(t[..FirstFit(t, Round(size), 0)]);
  }

  lemma {:induction false} TotalAligned(t: Table)
    requires Aligned(t)
    ensures Total(t) % 16 == 0
  {
    if t != [] {
      assert forall i | 0 <= i < |t| - 1 :: t[1..][i] == t[i + 1];
      TotalAligned(t[1..]);
      assert t[0].size % 16 == 0;
    }
  }

  lemma TruncMultiple(n: int)
    requires n % 16 == 0
    ensures Trunc(n) % 16 == 0
  {
  }

  lemma TruncDifference(s: Size, n: int)
    ensures Trunc(s - n) == if Trunc(n) <= s then s - Trunc(n) else s - Trunc(n) + SIZE_MOD
    ensures -SIZE_MOD < n <= 0 ==> Trunc(n) == if n == 0 then 0 else n + SIZE_MOD
    ensures 0 <= n < SIZE_MOD ==> Trunc(n) == n
  {
    var q := n / SIZE_MOD;
    assert n == q * SIZE_MOD + Trunc(n);
  }

  lemma TotalCons(b: Block, t: Table)
    ensures Total([b] + t) == b.size + Total(t)
  {
    assert ([b] + t)[1..] == t;
  }

  lemma CarveTotal(t: Table, i: nat, n: int)
    requires i < |t|
    ensures Total(Carve(t, i, n)) == Total(t) - t[i].size + Trunc(n) + Trunc(t[i].size - n)
  {
    hide Total, Trunc;
    var x, y, rest := Block(Trunc(n), false), Block(Trunc(t[i].size - n), t[i].free), t[i + 1..];
    assert t == t[..i] + ([t[i]] + rest);
    assert Carve(t, i, n) == t[..i] + ([x] + ([y] + rest));
    TotalConcat(t[..i], [t[i]] + rest);
    TotalConcat(t[..i], [x] + ([y] + rest));
    TotalCons(t[i], rest);
    TotalCons(x, [y] + rest);
    TotalCons(y, rest);
  }

  lemma CarveIff(t: Table, capacity: nat, i: nat, n: int)
    requires WellFormed(t, capacity) && |t| < MAX_BLOCKS && i < |t| && t[i].free && n % 16 == 0
    ensures WellFormed(Carve(t, i, n), capacity) <==> 0 < Trunc(n) < t[i].size
  {
    hide Total, Trunc, Aligned, Coalesced;
    var c := Carve(t, i, n);
    assert c[i].size == Trunc(n) && c[i + 1].size == Trunc(t[i].size - n);
    TruncDifference(t[i].size, n);
    if 0 < Trunc(n) < t[i].size {
      TruncMultiple(n);
      TruncDifference(t[i].size, Trunc(n));
      CarveWellFormed(t, capacity, i, Trunc(n));
      assert c == Carve(t, i, Trunc(n));
    } else {
      CarveTotal(t, i, n);
    }
  }

  lemma RoundSign(size: int, capacity: nat, s: nat)
    requires capacity - SIZE_MOD < size && Capacity(capacity) && Round(size) < s <= capacity
    ensures 0 < Trunc(Round(size)) < s <==> size > 0
  {
    hide Trunc;
    var n := Round(size);
    TruncDifference(0, n);
  }

  /** For any int the source accepts: a successful allocation keeps the table well formed exactly when the
      rounded size, cut to the 20-bit field, is positive and smaller than the block it came from. Short of
      sizes so negative that they wrap round the field, that is exactly when the size is positive. */
  lemma AllocWellFormedIff(t: Table, capacity: nat, base: nat, size: int)
    requires WellFormed(t, capacity) && Capacity(capacity)
    ensures var n := Round(size);
            var i := FirstFit(t, n, 0);
            var t' := Alloc(t, base, size).0;
            if |t| == MAX_BLOCKS || i == |t| then t' == t
            else && (WellFormed(t', capacity) <==> 0 < Trunc(n) < t[i].size)
                 && (size > capacity - SIZE_MOD ==> (WellFormed(t', capacity) <==> size > 0))
  {
    hide Live, Total, FirstFit, Trunc, Positive, Aligned, Coalesced, Carve;
    var n := Round(size);
    var i := FirstFit(t, n, 0);
    if |t| != MAX_BLOCKS && i != |t| {
      BlockAtMost(t, i);
      CarveIff(t, capacity, i, n);
      if size > capacity - SIZE_MOD {
        RoundSign(size, capacity, t[i].size);
      }
    }
  }

  /** Sizes that are not positive do share memory: two requests of zero bytes get the same address. */
  lemma ZeroSizeShares(capacity: nat, base: nat)
    requires Capacity(capacity) && base > 0
    ensures var (t, r) := Alloc(Fresh(capacity), base, 0);
            r == base && Alloc(t, base, 0).1 == base
  {
    var f := Fresh(capacity);
    assert FirstFit(f, 0, 0) == 0 && f[..0] == [];
    var t := Carve(f, 0, 0);
    assert t == [Block(0, false), Block(capacity, true)];
    assert FirstFit(t, 0, 0) == 1;
    assert t[..1] == [Block(0, false)];
    assert Total([Block(0, false)]) == 0;
  }

  // --- Release

  lemma LiveNone(r: nat)
    ensures Live([], r) == map[]
  {
  }

  /** What the scan of v86_mem_free finds, in a table whose suffix from i starts at r. */
  lemma {:induction false} FindLive(t: Table, r: nat, m: nat, i: nat)
    requires i < |t| && Positive(t)
    ensures var j := Find(t, r, m, i);
            if m in Live(t[i..], r) then j < |t| && !t[j].free && m == r + Total(t[i..j])
            else j < |t| ==> t[j].free
    decreases |t| - i
  {
    hide Live;
    var u := t[i..];
    Cut(u, 0, r);
    assert u[..0] == [] && u[1..] == t[i + 1..];
    if m == r {
    } else if i + 1 == |t| {
      assert t[i + 1..] == [];
      LiveNone(r + t[i].size);
    } else {
      FindLive(t, r + t[i].size, m, i + 1);
      var j := Find(t, r + t[i].size, m, i + 1);
      if m in Live(u, r) {
        assert t[i..j][1..] == t[i + 1..j];
      }
    }
  }

  lemma AbsorbLive(t: Table, i: nat, r: nat)
    requires i + 1 < |t| && Positive(t) && t[i].free && t[i + 1].free && Total(t) < SIZE_MOD
    ensures var a := Absorb(t, i);
            Total(a) == Total(t) && Live(a, r) == Live(t, r) && a[i].size == t[i].size + t[i + 1].size
  {
    Cut(t, i, r);
    assert t[i + 1..][1..] == t[i + 2..];
    assert Total(t[i + 1..]) == t[i + 1].size + Total(t[i + 2..]);
    assert t[i].size + t[i + 1].size < SIZE_MOD;
    var a := Absorb(t, i);
    assert a[i].size == t[i].size + t[i + 1].size;
    assert forall k | i < k < |a| :: a[k] == t[k + 1];
    Cut(a, i, r);
    assert a[..i] == t[..i] && a[i + 1..] == t[i + 2..];
  }

  /** All that release leaves to be merged is the pair ending at i. */
  predicate CoalescedBut(t: Table, i: nat) {
    forall k | 0 <= k < |t| - 1 && k + 1 != i :: !(t[k].free && t[k + 1].free)
  }

  predicate Sound(t: Table, capacity: nat) {
    0 < |t| <= MAX_BLOCKS && Positive(t) && Aligned(t) && t[|t| - 1].free && Total(t) == capacity
  }

  lemma AbsorbAt(t: Table, i: nat)
    requires i + 1 < |t|
    ensures var a := Absorb(t, i);
            && |a| == |t| - 1 && a[i].free == t[i].free
            && (forall k | 0 <= k < i :: a[k] == t[k])
            && (forall k | i < k < |a| :: a[k] == t[k + 1])
  {
  }

  lemma AbsorbSound(t: Table, capacity: nat, i: nat, r: nat)
    requires Sound(t, capacity) && capacity < SIZE_MOD
    requires i + 1 < |t| && t[i].free && t[i + 1].free
    ensures Sound(Absorb(t, i), capacity) && Live(Absorb(t, i), r) == Live(t, r)
  {
    hide Total, Live, Absorb;
    AbsorbLive(t, i, r);
    AbsorbAt(t, i);
  }

  lemma AbsorbRightRight(t: Table, capacity: nat, i: nat, r: nat)
    requires Sound(t, capacity) && capacity < SIZE_MOD && i < |t| && t[i].free
    requires forall k | 0 <= k < |t| - 1 && k != i && k + 1 != i :: !(t[k].free && t[k + 1].free)
    ensures var a := AbsorbRight(t, i);
            Sound(a, capacity) && i < |a| && a[i].free && CoalescedBut(a, i) && Live(a, r) == Live(t, r)
  {
    hide Live, Absorb, Sound;
    if i + 1 < |t| && t[i + 1].free {
      AbsorbSound(t, capacity, i, r);
      AbsorbAt(t, i);
    }
  }

  lemma AbsorbLeftRight(t: Table, capacity: nat, i: nat, r: nat)
    requires Sound(t, capacity) && capacity < SIZE_MOD && i < |t| && t[i].free && CoalescedBut(t, i)
    ensures WellFormed(AbsorbLeft(t, i), capacity) && Live(AbsorbLeft(t, i), r) == Live(t, r)
  {
    hide Live, Absorb, Positive, Aligned, Total;
    if i >= 1 && t[i - 1].free {
      AbsorbSound(t, capacity, i - 1, r);
      AbsorbAt(t, i - 1);
    }
  }

  lemma MarkFree(t: Table, capacity: nat, i: nat, r: nat)
    requires WellFormed(t, capacity) && i < |t| && !t[i].free
    ensures var f := t[i := t[i].(free := true)];
            && Sound(f, capacity) && Live(f, r) == Live(t, r) - {r + Total(t[..i])}
            && forall k | 0 <= k < |f| - 1 && k != i && k + 1 != i :: !(f[k].free && f[k + 1].free)
  {
    hide Total, Live;
    var f := t[i := t[i].(free := true)];
    Cut(t, i, r);
    Cut(f, i, r);
    assert f[..i] == t[..i] && f[i + 1..] == t[i + 1..];
  }

  lemma ReleaseRight(t: Table, capacity: nat, i: nat, r: nat)
    requires WellFormed(t, capacity) && capacity < SIZE_MOD && i < |t| && !t[i].free
    ensures WellFormed(Release(t, i), capacity)
    ensures Live(Release(t, i), r) == Live(t, r) - {r + Total(t[..i])}
  {
    hide Total, Live, WellFormed, Sound, AbsorbRight, AbsorbLeft, CoalescedBut;
    var f := t[i := t[i].(free := true)];
    MarkFree(t, capacity, i, r);
    AbsorbRightRight(f, capacity, i, r);
    AbsorbLeftRight(AbsorbRight(f, i), capacity, i, r);
  }

  lemma ReleaseFree(t: Table, capacity: nat, i: nat)
    requires WellFormed(t, capacity) && i < |t| && t[i].free
    ensures Release(t, i) == t
  {
    hide Total, Positive, Aligned, Absorb;
    assert t[i := t[i].(free := true)] == t;
  }

  /** Freeing a live address forgets exactly that region; freeing anything else changes nothing. */
  lemma FreeRight(t: Table, capacity: nat, base: nat, m: nat)
    requires WellFormed(t, capacity) && Capacity(capacity)
    ensures var t' := Free(t, base, m);
            && WellFormed(t', capacity)
            && if m in Live(t, base) then Live(t', base) == Live(t, base) - {m} else t' == t
  {
    hide Total, Live, Release, Positive, Aligned, Coalesced;
    FindLive(t, base, m, 0);
    assert t[0..] == t;
    var i := Find(t, base, m, 0);
    if m in Live(t, base) {
      assert t[0..i] == t[..i];
      ReleaseRight(t, capacity, i, base);
    } else if i < |t| {
      ReleaseFree(t, capacity, i);
    }
  }
}
