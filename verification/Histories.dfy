/** What holds of the allocator over whole histories: the live regions determine the table. */
module Histories {
  import opened Blocks

  // --- The table is a function of the live regions

  predicate Shaped(t: Table) { t != [] && Positive(t) && Coalesced(t) && t[|t| - 1].free }

  lemma Head(t: Table, r: nat)
    requires Shaped(t)
    ensures r in Live(t, r) <==> !t[0].free
    ensures Total(t) == t[0].size + Total(t[1..])
    ensures |t| > 1 ==> Shaped(t[1..])
    ensures Live(t[1..], r + t[0].size) == Live(t, r) - {r}
    ensures !t[0].free ==> |t| > 1 && Live(t, r)[r] == t[0].size
  {
    Cut(t, 0, r);
    assert t[..0] == [] && t[0..] == t;
    assert forall i | 0 <= i < |t| - 1 :: t[1..][i] == t[i + 1];
  }

  /** After a leading gap comes the first live region, or nothing at all. */
  lemma LeadingGap(t: Table, r: nat)
    requires Shaped(t) && t[0].free
    ensures forall k | k in Live(t, r) :: k >= r + t[0].size
    ensures if |t| == 1 then Live(t, r) == map[] else r + t[0].size in Live(t, r)
  {
    Head(t, r);
    LiveRange(t[1..], r + t[0].size);
    if |t| > 1 {
      Head(t[1..], r + t[0].size);
    }
  }

  /** Two well-shaped tables over the same bytes with the same live regions are the same table. */
  lemma {:induction false} SameTable(t: Table, u: Table, r: nat)
    requires Shaped(t) && Shaped(u) && Total(t) == Total(u) && Live(t, r) == Live(u, r)
    ensures t == u
  {
    hide Live, Positive, Coalesced;
    Head(t, r);
    Head(u, r);
    if t[0].free {
      LeadingGap(t, r);
      LeadingGap(u, r);
    }
    if |t| > 1 {
      assert t[0] == u[0];
      SameTable(t[1..], u[1..], r + t[0].size);
      assert t == [t[0]] + t[1..] && u == [u[0]] + u[1..];
    } else {
      assert Total(t[1..]) == 0 && Total(u[1..]) == 0;
    }
  }

  lemma CanonicalTable(t: Table, u: Table, capacity: nat, base: nat)
    requires WellFormed(t, capacity) && WellFormed(u, capacity) && Live(t, base) == Live(u, base)
    ensures t == u
  {
    SameTable(t, u, base);
  }

  lemma FreshWellFormed(capacity: nat, base: nat)
    requires Capacity(capacity)
    ensures WellFormed(Fresh(capacity), capacity) && Live(Fresh(capacity), base) == map[]
  {
    assert Fresh(capacity)[1..] == [];
  }

  /** With nothing allocated there is one free block of full capacity, whatever came before. */
  lemma NothingLive(t: Table, capacity: nat, base: nat)
    requires WellFormed(t, capacity) && Capacity(capacity)
    ensures Live(t, base) == map[] <==> t == Fresh(capacity)
  {
    FreshWellFormed(capacity, base);
    if Live(t, base) == map[] {
      CanonicalTable(t, Fresh(capacity), capacity, base);
    }
  }

  /** The scan for an address stops at the first block that starts there. */
  lemma {:induction false} FindStart(t: Table, r: nat, i: nat, j: nat)
    requires i <= j < |t| && forall k | i <= k < j :: t[k].size > 0
    ensures Find(t, r, r + Total(t[i..j]), i) == j
    decreases j - i
  {
    if i == j {
      assert t[i..j] == [];
    } else {
      assert t[i..j][1..] == t[i + 1..j];
      FindStart(t, r + t[i].size, i + 1, j);
    }
  }

  lemma TruncBack(s: Size, n: int)
    ensures Trunc(Trunc(n) + Trunc(s - n)) == s
  {
    hide Trunc;
    TruncDifference(s, n);
    TruncSmall(s);
  }

  lemma TruncSmall(s: Size)
    ensures Trunc(s) == s && Trunc(s + SIZE_MOD) == s
  {
  }

  /** Releasing the block just cut out puts the cut together again. */
  lemma ReleaseCarved(t: Table, i: nat, n: int)
    requires i < |t| && t[i].free && (i > 0 ==> !t[i - 1].free)
    ensures |Carve(t, i, n)| == |t| + 1 && Release(Carve(t, i, n), i) == t
  {
    hide Trunc;
    var c := Carve(t, i, n);
    TruncBack(t[i].size, n);
    var f := c[i := c[i].(free := true)];
    assert AbsorbRight(f, i) == t;
  }

  /** Freeing what was just allocated restores the table, record by record, for any size asked: the free undoes
      even the allocations that leave a table ill formed. */
  lemma AllocThenFree(t: Table, capacity: nat, base: nat, size: int)
    requires WellFormed(t, capacity) && base > 0
    ensures var (t', r) := Alloc(t, base, size);
            t' != [] && if r == 0 then t' == t else Free(t', base, r) == t
  {
    hide Total, Release, Carve, Aligned;
    var (t', r) := Alloc(t, base, size);
    var i := FirstFit(t, Round(size), 0);
    if r != 0 {
      ReleaseCarved(t, i, Round(size));
      CarvePrefix(t, i, Round(size));
      FindStart(t', base, 0, i);
      assert t'[0..i] == t'[..i];
    }
  }

  lemma CarvePrefix(t: Table, i: nat, n: int)
    requires i < |t|
    ensures |Carve(t, i, n)| == |t| + 1 && Carve(t, i, n)[..i] == t[..i]
    ensures forall k | 0 <= k < i :: Carve(t, i, n)[k] == t[k]
  {
  }

  // --- Live regions do not overlap

  predicate Apart(a: nat, m: nat, b: nat, n: nat) { a + m <= b || b + n <= a }

  predicate Within(x: nat, a: nat, m: nat) { a <= x < a + m }

  /** Regions are apart exactly when no byte is in both. */
  lemma ApartIff(a: nat, m: nat, b: nat, n: nat)
    requires m > 0 && n > 0
    ensures Apart(a, m, b, n) <==> forall x: nat | Within(x, a, m) :: !Within(x, b, n)
  {
    var x := if a < b then b else a;
    assert Within(x, a, m) && Within(x, b, n) ==> !Apart(a, m, b, n);
  }

  /** No two regions share a byte. */
  predicate Disjoint(live: map<nat, nat>) {
    forall a, b | a in live && b in live && a != b :: Apart(a, live[a], b, live[b])
  }

  lemma {:induction false} LiveDisjoint(t: Table, r: nat)
    requires Positive(t)
    ensures Disjoint(Live(t, r))
  {
    if t != [] {
      LiveDisjoint(t[1..], r + t[0].size);
      LiveRange(t[1..], r + t[0].size);
    }
  }

  predicate Paragraphs(a: nat, n: nat) { a % 16 == 0 && n % 16 == 0 }

  lemma {:induction false} LiveAligned(t: Table, r: nat)
    requires Aligned(t) && r % 16 == 0
    ensures forall a | a in Live(t, r) :: Paragraphs(a, Live(t, r)[a])
  {
    if t != [] {
      assert t[0].size % 16 == 0;
      assert (r + t[0].size) % 16 == 0;
      assert forall i | 0 <= i < |t| - 1 :: t[1..][i] == t[i + 1];
      LiveAligned(t[1..], r + t[0].size);
    }
  }

  // --- The table cannot be full while few regions are live

  lemma TailShape(t: Table)
    requires |t| > 0 && Positive(t) && Coalesced(t)
    ensures Positive(t[1..]) && Coalesced(t[1..]) && t[0].size > 0
  {
    assert forall i | 0 <= i < |t| - 1 :: t[1..][i] == t[i + 1];
  }

  /** An allocated first block counts for one region. */
  lemma LiveHead(t: Table, r: nat)
    requires |t| > 0 && Positive(t[1..]) && t[0].size > 0 && !t[0].free
    ensures |Live(t, r)| == |Live(t[1..], r + t[0].size)| + 1
  {
    hide Total;
    LiveRange(t[1..], r + t[0].size);
  }

  /** Of two neighbours at least one is allocated. */
  lemma {:induction false} CountBound(t: Table, r: nat)
    requires Positive(t) && Coalesced(t)
    ensures |t| <= 2 * |Live(t, r)| + 1
  {
    hide Total, Positive, Coalesced;
    if t != [] {
      TailShape(t);
      if !t[0].free {
        LiveHead(t, r);
        CountBound(t[1..], r + t[0].size);
      } else if |t| > 1 {
        TailShape(t[1..]);
        FreeThenLive(t);
        LiveHead(t[1..], r + t[0].size);
        CountBound(t[1..][1..], r + t[0].size + t[1].size);
      }
    }
  }

  lemma FreeThenLive(t: Table)
    requires |t| > 1 && Coalesced(t) && t[0].free
    ensures !t[1].free
  {
  }

  /** With fewer than 128 regions live, only lack of space makes an allocation fail. */
  lemma NeverFull(t: Table, capacity: nat, base: nat, size: int, n: int)
    requires WellFormed(t, capacity) && base > 0 && |Live(t, base)| < 128
    requires n % 16 == 0 && size <= n < size + 16
    ensures |t| < 0x100
    ensures Alloc(t, base, size).1 == 0 <==> forall i | 0 <= i < |t| :: !(t[i].free && n < t[i].size)
  {
    hide Live, Total, Alloc;
    CountBound(t, base);
    AllocFirstFit(t, base, size, n);
  }

  // --- Histories

  datatype Op = AllocOp(size: int) | FreeOp(m: nat)

  predicate Asked(ops: seq<Op>) { forall i | 0 <= i < |ops| :: ops[i].AllocOp? ==> ops[i].size > 0 }

  function Perform(t: Table, base: nat, op: Op): (Table, nat)
    requires t != []
  {
    match op
    case AllocOp(size) => Alloc(t, base, size)
    case FreeOp(m) => (Free(t, base, m), 0)
  }

  /** What a caller who only sees the returned addresses knows to be live. */
  function Note(live: map<nat, nat>, op: Op, r: nat): map<nat, nat> {
    match op
    case AllocOp(size) => if r == 0 || size <= 0 then live else live[r := Round(size)]
    case FreeOp(m) => live - {m}
  }

  /** The table and the caller's notes after a history. */
  function Run(t: Table, live: map<nat, nat>, base: nat, ops: seq<Op>): (Table, map<nat, nat>)
    decreases ops
  {
    if ops == [] || t == [] then (t, live)
    else
      var (t', r) := Perform(t, base, ops[0]);
      Run(t', Note(live, ops[0], r), base, ops[1..])
  }

  lemma PerformRight(t: Table, capacity: nat, base: nat, op: Op)
    requires WellFormed(t, capacity) && Capacity(capacity) && base > 0 && (op.AllocOp? ==> op.size > 0)
    ensures var (t', r) := Perform(t, base, op);
            WellFormed(t', capacity) && Live(t', base) == Note(Live(t, base), op, r)
  {
    hide Live, Total, Alloc, Free, Positive, Aligned, Coalesced;
    match op
    case AllocOp(size) => AllocRight(t, capacity, base, size);
    case FreeOp(m) =>
      FreeRight(t, capacity, base, m);
      if m !in Live(t, base) {
        assert Live(t, base) - {m} == Live(t, base);
      }
  }

  /** Every history of requests for positive sizes keeps the table well formed, and its allocated blocks are
      exactly the regions the caller holds. */
  lemma {:induction false} HistoryRight(t: Table, capacity: nat, base: nat, ops: seq<Op>)
    requires WellFormed(t, capacity) && Capacity(capacity) && base > 0 && Asked(ops)
    ensures var (t', live) := Run(t, Live(t, base), base, ops);
            WellFormed(t', capacity) && Live(t', base) == live
    decreases ops
  {
    hide Live, Total, Perform, Note, Positive, Aligned, Coalesced;
    if ops != [] {
      PerformRight(t, capacity, base, ops[0]);
      HistoryRight(Perform(t, base, ops[0]).0, capacity, base, ops[1..]);
    }
  }

  /** From the start: what callers hold is disjoint, aligned and inside the region, after any history. */
  lemma HistorySafe(capacity: nat, base: nat, ops: seq<Op>)
    requires Capacity(capacity) && base > 0 && base % 16 == 0 && Asked(ops)
    ensures var (t, live) := Run(Fresh(capacity), map[], base, ops);
            && WellFormed(t, capacity)
            && (forall a | a in live :: base <= a && a + live[a] <= base + capacity && Paragraphs(a, live[a]) && live[a] > 0)
            && Disjoint(live)
            && (live == map[] ==> t == Fresh(capacity))
  {
    FreshWellFormed(capacity, base);
    HistoryRight(Fresh(capacity), capacity, base, ops);
    var t := Run(Fresh(capacity), map[], base, ops).0;
    LiveRange(t, base);
    LiveDisjoint(t, base);
    LiveAligned(t, base);
    NothingLive(t, capacity, base);
  }

  function Frees(ms: seq<nat>): seq<Op> { seq(|ms|, i requires 0 <= i < |ms| => FreeOp(ms[i])) }

  lemma {:induction false} FreesForget(t: Table, capacity: nat, base: nat, ms: seq<nat>)
    requires WellFormed(t, capacity) && Capacity(capacity) && base > 0
    ensures Run(t, Live(t, base), base, Frees(ms)).1 == Live(t, base) - (set m | m in ms)
    decreases ms
  {
    hide Live, Total, Free, Positive, Aligned, Coalesced;
    if ms != [] {
      var t' := Free(t, base, ms[0]);
      PerformRight(t, capacity, base, FreeOp(ms[0]));
      assert Frees(ms)[1..] == Frees(ms[1..]);
      FreesForget(t', capacity, base, ms[1..]);
      assert (set m | m in ms) == {ms[0]} + (set m | m in ms[1..]);
    }
  }

  /** Freeing every live region, in any order and with any other addresses in between, leaves the one free
      block of full capacity. */
  lemma FreeAllAnyOrder(t: Table, capacity: nat, base: nat, ms: seq<nat>)
    requires WellFormed(t, capacity) && Capacity(capacity) && base > 0
    requires forall a | a in Live(t, base) :: a in ms
    ensures Run(t, Live(t, base), base, Frees(ms)).0 == Fresh(capacity)
  {
    hide Live, Total, Positive, Aligned, Coalesced, Run;
    FreesForget(t, capacity, base, ms);
    HistoryRight(t, capacity, base, Frees(ms));
    assert Live(t, base) - (set m | m in ms) == map[];
    NothingLive(Run(t, Live(t, base), base, Frees(ms)).0, capacity, base);
  }

  /** A region that is never freed stays live, at its size. */
  lemma {:induction false} StaysLive(t: Table, capacity: nat, base: nat, ops: seq<Op>, a: nat)
    requires WellFormed(t, capacity) && Capacity(capacity) && base > 0 && Asked(ops)
    requires a in Live(t, base) && FreeOp(a) !in ops
    ensures var live := Run(t, Live(t, base), base, ops).1;
            a in live && live[a] == Live(t, base)[a]
    decreases |ops|
  {
    hide Live, Total, Perform, Positive, Aligned, Coalesced;
    if ops != [] {
      var (u, r) := Perform(t, base, ops[0]);
      PerformRight(t, capacity, base, ops[0]);
      NewAddress(t, capacity, base, ops[0], a);
      StaysLive(u, capacity, base, ops[1..], a);
    }
  }

  lemma NewAddress(t: Table, capacity: nat, base: nat, op: Op, a: nat)
    requires WellFormed(t, capacity) && Capacity(capacity) && base > 0 && (op.AllocOp? ==> op.size > 0)
    requires a in Live(t, base)
    ensures op.AllocOp? ==> Perform(t, base, op).1 != a
  {
    hide Live, Total, Alloc, Positive, Aligned, Coalesced;
    if op.AllocOp? {
      AllocRight(t, capacity, base, op.size);
      LivePositive(t, base);
    }
  }

  lemma LivePositive(t: Table, base: nat)
    requires Positive(t) && base > 0
    ensures 0 !in Live(t, base)
  {
    LiveRange(t, base);
  }

  lemma ShapedDisjoint(t: Table, capacity: nat, base: nat)
    requires WellFormed(t, capacity)
    ensures Disjoint(Live(t, base))
  {
    LiveDisjoint(t, base);
  }
}
