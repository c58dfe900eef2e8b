/** v86_task: one request of the kernel, from the buffer's allocation to its release. */
module VbeTask {
  import opened Words
  import opened Blocks
  import opened Histories
  import opened Allocators
  import opened VbeInfo
  import opened VbeLayout

  type i32 = x: int | -0x8000_0000 <= x < 0x8000_0000

  /** tsk->flags and tsk->buf_len */
  datatype Request = Request(vbeIb: bool, esdi: bool, esbx: bool, ret: bool, len: i32)

  /** The registers of the task that v86_task reads or sets. */
  datatype TaskRegs = TaskRegs(eax: u32, ebx: u32, edi: u32, es: int)

  /** What v86_int comes back with: its return value, the registers and real-mode memory. */
  datatype Answer = Answer(failed: bool, regs: TaskRegs, mem: Bytes)

  /** The VBE Info Block's pointer fields: as they were, or turned into offsets. */
  datatype IbFields = Untouched | Rewritten(fields: Offsets)

  /** A VBE Info Block task always allocates; any other one when it brings a buffer. */
  predicate Allocates(tsk: Request) { tsk.vbeIb || tsk.len != 0 }

  /** An int converted to size_t. */
  function SizeT(n: i32): nat { if n >= 0 then n else n + 0x1_0000_0000_0000_0000 }

  /** memcpy: n bytes from t of c to o of b. */
  function Copy(b: Bytes, o: nat, c: Bytes, t: nat, n: nat): (d: Bytes)
    ensures forall i: nat :: d(i) == if o <= i < o + n then c(t + (i - o)) else b(i)
  {
    (i: nat) => if o <= i < o + n then c(t + (i - o)) else b(i)
  }

  /** The registers handed to the guest, for a buffer at lbuf. */
  function GuestRegs(tsk: Request, regs: TaskRegs, lbuf: nat): TaskRegs {
    if tsk.vbeIb then regs.(es := lbuf / 16, edi := 0)
    else
      var r := if tsk.esdi then regs.(es := lbuf / 16, edi := 0) else regs;
      if tsk.esbx then r.(es := lbuf / 16, ebx := 0) else r
  }

  /** The VBE function did not succeed. */
  predicate Refused(answer: Answer) { answer.failed || answer.regs.eax % 0x1_0000 != 0x004f }

  /** The buffer goes back to the caller. */
  predicate Returns(tsk: Request, answer: Answer) { !Refused(answer) && (tsk.vbeIb || (tsk.len != 0 && tsk.ret)) }

  /** The real-mode memory the guest starts with. */
  function Sent(tsk: Request, bios: Bytes, lbuf: nat, buf: Bytes): Bytes {
    if Allocates(tsk) then Copy(bios, lbuf, buf, 0, SizeT(tsk.len)) else bios
  }

  /** What the BIOS is called with, for a buffer allocated in a well-formed table over an aligned region. ES:DI, or
      ES:BX, is the address of the buffer; the buffer's bytes are there, and the rest of real-mode memory is as it
      was; so are the registers not named. */
  lemma GuestSees(t: Table, capacity: nat, base: nat, tsk: Request, regs: TaskRegs, bios: Bytes, lbuf: nat, buf: Bytes)
    requires WellFormed(t, capacity) && base % 16 == 0
    requires lbuf == if Allocates(tsk) then Alloc(t, base, tsk.len).1 else 0
    ensures var g := GuestRegs(tsk, regs, lbuf);
            && (tsk.vbeIb || tsk.esdi ==> 16 * g.es + g.edi as int == lbuf)
            && (!tsk.vbeIb && tsk.esbx ==> 16 * g.es + g.ebx as int == lbuf)
            && g.eax == regs.eax && (tsk.vbeIb || !tsk.esbx ==> g.ebx == regs.ebx)
            && (!tsk.vbeIb && !tsk.esdi ==> g.edi == regs.edi) && (!tsk.vbeIb && !tsk.esdi && !tsk.esbx ==> g.es == regs.es)
    ensures var m := Sent(tsk, bios, lbuf, buf);
            && (tsk.len >= 0 ==> (forall i: nat | i < tsk.len :: m(lbuf + i) == buf(i))
                                 && forall a: nat | a < lbuf || lbuf + tsk.len <= a :: m(a) == bios(a))
  {
    hide Alloc, Copy;
    AllocAligned(t, base, tsk.len);
  }

  /** The buffer comes back when v86_int succeeded and left 0x004f in AX, if the task is one that returns it. */
  lemma ReturnsIff(tsk: Request, answer: Answer)
    ensures Returns(tsk, answer)
            <==> !answer.failed && answer.regs.eax % 0x1_0000 == 0x004f && (tsk.vbeIb || (tsk.len != 0 && tsk.ret))
    ensures Allocates(tsk) <==> tsk.vbeIb || tsk.len != 0
  {
  }

  lemma KeptSelf(b: Bytes, len: int)
    ensures Kept(b, b, len)
  {
  }

  /** Copying back a buffer of this length stores nothing past it. */
  lemma CopyKeeps(b: Bytes, c: Bytes, t: nat, d: Bytes, len: i32)
    requires len >= 0
    ensures Kept(Copy(b, 0, c, t, SizeT(len)), d, len) ==> Kept(b, d, len)
  {
  }

  /** v86_task. `guest` is v86_int(0x10, ...), whatever the BIOS does; `fields` reads the pointer fields of the
      block, `ibSize` is its size. `held` is the table of blocks while the guest runs. */
  method Task(a: Allocator, bios: Ram, buf: Ram, tsk: Request, regs: TaskRegs, ibSize: nat, fields: Bytes -> Pointers,
              guest: (TaskRegs, Bytes) -> Answer)
    returns (status: int, out: TaskRegs, ib: IbFields, ghost held: Table)
    requires a.Valid() && a.ready && Capacity(a.capacity) && a.base > 0 && WellFormed(a.Records(), a.capacity)
    requires bios != buf
    modifies a`count, a.blocks, bios, buf
    ensures a.Valid() && a.Records() == old(a.Records())
    ensures status == if Allocates(tsk) && Alloc(old(a.Records()), a.base, tsk.len).1 == 0 then -1 else 0
    ensures status == -1 ==> out == regs && bios.byte == old(bios.byte) && buf.byte == old(buf.byte) && ib == Untouched
    ensures status == 0 ==>
              var lbuf := if Allocates(tsk) then Alloc(old(a.Records()), a.base, tsk.len).1 else 0;
              var answer := guest(GuestRegs(tsk, regs, lbuf), Sent(tsk, old(bios.byte), lbuf, old(buf.byte)));
              var got := Copy(old(buf.byte), 0, answer.mem, lbuf, SizeT(tsk.len));
              var job := Job(tsk.len, lbuf, ibSize, answer.mem);
              && out == answer.regs && bios.byte == answer.mem
              && buf.byte == (if !Returns(tsk, answer) then old(buf.byte)
                              else if tsk.vbeIb then Packed(job, got, fields(got)).mem else got)
              && ib == (if Returns(tsk, answer) && tsk.vbeIb then Rewritten(Fields(job, got, fields(got))) else Untouched)
              && (tsk.len >= 0 && (Returns(tsk, answer) && tsk.vbeIb ==> Contained(job, got, fields(got).modes, fields(got).Strings(), 4)) ==>
                    Kept(old(buf.byte), buf.byte, tsk.len))
              && (Allocates(tsk) && tsk.len > 0 ==>
                    && lbuf !in Live(old(a.Records()), a.base) && Round(tsk.len) >= tsk.len
                    && Live(held, a.base) == Live(old(a.Records()), a.base)[lbuf := Round(tsk.len)])
  {
    hide Live, Total, Alloc, Free, WellFormed, Packed, Fields, Copy, Settled, ListSettled, Contained, ListStep, Kept, SizeT;
    KeptSelf(buf.byte, tsk.len);
    ghost var t := a.Records();
    held := t;
    status, out, ib := 0, regs, Untouched;
    AllocThenFree(t, a.capacity, a.base, tsk.len);
    if tsk.len > 0 {
      AllocRight(t, a.capacity, a.base, tsk.len);
    }
    if tsk.vbeIb {
      var lbuf := a.Allocate(tsk.len);
      if lbuf == 0 {
        status := -1;
        return;
      }
      held := a.Records();
      bios.byte := Copy(bios.byte, lbuf, buf.byte, 0, SizeT(tsk.len));
      out := out.(es := lbuf / 16, edi := 0);
      var answer := guest(out, bios.byte);
      out, bios.byte := answer.regs, answer.mem;
      if !(answer.failed || out.eax % 0x1_0000 != 0x004f) {
        buf.byte := Copy(buf.byte, 0, bios.byte, lbuf, SizeT(tsk.len));
        var o := PackInfo(buf, Job(tsk.len, lbuf, ibSize, bios.byte), fields(buf.byte));
        ib := Rewritten(o);
        if tsk.len >= 0 {
          CopyKeeps(old(buf.byte), bios.byte, lbuf, buf.byte, tsk.len);
        }
      }
      a.Deallocate(lbuf);
    } else {
      var lbuf := 0;
      if tsk.len != 0 {
        lbuf := a.Allocate(tsk.len);
        if lbuf == 0 {
          status := -1;
          return;
        }
        held := a.Records();
        bios.byte := Copy(bios.byte, lbuf, buf.byte, 0, SizeT(tsk.len));
      }
      if tsk.esdi {
        out := out.(es := lbuf / 16, edi := 0);
      }
      if tsk.esbx {
        out := out.(es := lbuf / 16, ebx := 0);
      }
      var answer := guest(out, bios.byte);
      out, bios.byte := answer.regs, answer.mem;
      if !(answer.failed || out.eax % 0x1_0000 != 0x004f) && tsk.len != 0 && tsk.ret {
        buf.byte := Copy(buf.byte, 0, bios.byte, lbuf, SizeT(tsk.len));
        KeptSelf(buf.byte, tsk.len);
        if tsk.len >= 0 {
          CopyKeeps(old(buf.byte), bios.byte, lbuf, buf.byte, tsk.len);
        }
      }
      if tsk.len != 0 {
        a.Deallocate(lbuf);
      }
    }
  }
}
