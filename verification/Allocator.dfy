/** The allocator as the source runs it: a fixed array of records shifted in place. */
module Allocators {
  import opened Blocks

  /** mem_info, together with the region it describes. */
  class Allocator {
    const base: nat
    const capacity: Size
    var ready: bool
    var count: nat
    const blocks: array<Block>

    /** The records fit the array, and once ready there is at least one. */
    ghost predicate Valid()
      reads this
    {
      blocks.Length == MAX_BLOCKS && count <= MAX_BLOCKS && (ready ==> count >= 1)
    }

    /** The records in use. */
    ghost function Records(): Table
      reads this, blocks
      requires Valid()
    {
      blocks[..count]
    }

    constructor (base: nat, capacity: Size)
      ensures Valid() && !ready && fresh(blocks) && this.base == base && this.capacity == capacity
    {
      this.base, this.capacity := base, capacity;
      ready, count := false, 0;
      blocks := new Block[MAX_BLOCKS](_ => Block(0, false));
    }

    /** real_mem_init, when mapping the memory succeeds */
    method Init()
      requires Valid()
      modifies this`ready, this`count, blocks
      ensures Valid() && ready
      ensures if old(ready) then Records() == old(Records()) else Records() == [Block(capacity, true)]
    {
      if ready {
        return;
      }
      ready := true;
      count := 1;
      blocks[0] := Block(capacity, true);
    }

    /** insert_block: the memmove opens a gap at i, still holding a copy of the record that was there. */
    method InsertBlock(i: nat)
      requires Valid() && i < count < MAX_BLOCKS
      modifies this`count, blocks
      ensures Valid()
      ensures Records() == old(Records()[..i]) + [old(blocks[i])] + old(Records()[i..])
    {
      forall k | i < k <= count {
        blocks[k] := blocks[k - 1];
      }
      count := count + 1;
    }

    /** delete_block */
    method DeleteBlock(i: nat)
      requires Valid() && i < count && count >= 2
      modifies this`count, blocks
      ensures Valid()
      ensures Records() == old(Records()[..i]) + old(Records()[i + 1..])
    {
      count := count - 1;
      forall k | i <= k < count {
        blocks[k] := blocks[k + 1];
      }
    }

    /** The body of the allocation loop's branch: block i cut in two. */
    method Take(i: nat, n: int)
      requires Valid() && i < count < MAX_BLOCKS
      modifies this`count, blocks
      ensures Valid() && Records() == Carve(old(Records()), i, n)
    {
      InsertBlock(i);
      blocks[i] := blocks[i].(size := n % SIZE_MOD);
      blocks[i] := blocks[i].(free := false);
      blocks[i + 1] := blocks[i + 1].(size := (blocks[i + 1].size - n) % SIZE_MOD);
    }

    /** v86_mem_alloc, LRMI_alloc_real */
    method Allocate(size: int) returns (r: nat)
      requires Valid()
      modifies this`count, blocks
      ensures Valid()
      ensures if ready then (Records(), r) == Alloc(old(Records()), base, size) else Records() == old(Records()) && r == 0
    {
      hide Carve;
      if !ready {
        return 0;
      }
      if count == MAX_BLOCKS {
        return 0;
      }
      r := base;
      ghost var t := Records();
      var n := (size + 15) / 16 * 16;
      var i := 0;
      while i < count
        invariant Valid() && 0 <= i <= count
        invariant Records() == t && count == |t|
        invariant r == base + Total(t[..i])
        invariant FirstFit(t, n, 0) == FirstFit(t, n, i)
      {
        assert blocks[i] == t[i];
        if blocks[i].free && n < blocks[i].size {
          Take(i, n);
          return;
        }
        TotalNext(t, i);
        r := r + blocks[i].size;
        i := i + 1;
      }
      return 0;
    }

    /** Two neighbouring records merged: the size field added up, the right record deleted. */
    method Merge(i: nat)
      requires Valid() && ready && i + 1 < count
      modifies this`count, blocks
      ensures Valid() && Records() == Absorb(old(Records()), i)
    {
      ghost var t := Records();
      blocks[i] := blocks[i].(size := (blocks[i].size + blocks[i + 1].size) % SIZE_MOD);
      ghost var u := Records();
      assert u == t[i := Block(Trunc(t[i].size + t[i + 1].size), t[i].free)];
      DeleteBlock(i + 1);
      assert u[..i + 1] == t[..i] + [u[i]] && u[i + 2..] == t[i + 2..];
    }

    /** v86_mem_free, LRMI_free_real */
    method Deallocate(m: nat)
      requires Valid()
      modifies this`count, blocks
      ensures Valid()
      ensures Records() == if ready then Free(old(Records()), base, m) else old(Records())
    {
      if !ready {
        return;
      }
      var r: nat := base;
      ghost var t := Records();
      var i := 0;
      while m != r
        invariant Valid() && 0 <= i < count
        invariant Records() == t && count == |t|
        invariant Find(t, base, m, 0) == Find(t, r, m, i)
        decreases count - i
      {
        r := r + blocks[i].size;
        i := i + 1;
        if i == count {
          return;
        }
      }
      blocks[i] := blocks[i].(free := true);
      assert Records() == t[i := t[i].(free := true)];
      if i + 1 < count && blocks[i + 1].free {
        Merge(i);
      }
      assert Records() == AbsorbRight(t[i := t[i].(free := true)], i);
      if i >= 1 && blocks[i - 1].free {
        Merge(i - 1);
      }
    }
  }

  lemma TotalNext(t: Table, i: nat)
    requires i < |t|
    ensures Total(t[..i + 1]) == Total(t[..i]) + t[i].size
  {
    assert t[..i + 1] == t[..i] + [t[i]];
    TotalConcat(t[..i], [t[i]]);
    TotalCons(t[i], []);
  }
}
