/** The packing of a VBE Info Block: its pointers lead into real-mode memory; the strings and the mode list they
    lead to are brought into the caller's buffer, and the pointers become offsets. */
module VbeInfo {
  import opened Words

  /** Memory from some address on. Addresses have no upper end, so that what is stored past the end of a buffer
      is part of the model. */
  type Bytes = nat -> u8

  /** The macro addr: segment:offset to linear. */
  function Addr(p: u32): u32 { p / 0x1_0000 * 16 + p % 0x1_0000 }

  const DATA: nat := 512
  const ROM_START: nat := 0xa0000

  // --- Words and strings in memory

  function Word(b: Bytes, i: nat): u16 { b(i) as int + 0x100 * b(i + 1) as int }

  function Store(b: Bytes, i: nat, v: u8): (c: Bytes)
    ensures forall j: nat :: c(j) == if j == i then v else b(j)
  {
    (j: nat) => if j == i then v else b(j)
  }

  function StoreWord(b: Bytes, i: nat, v: u16): (c: Bytes)
    ensures forall j: nat :: c(j) == if j == i then v % 0x100 else if j == i + 1 then v / 0x100 else b(j)
  {
    Store(Store(b, i, v % 0x100), i + 1, v / 0x100)
  }

  /** `if (buf[i] != 0) buf[i] = 0` */
  function Terminated(b: Bytes, i: nat): (c: Bytes)
    ensures forall j: nat :: c(j) == if j == i then 0 else b(j)
  {
    if b(i) != 0 then Store(b, i, 0) else b
  }

  /** strnlen: how many bytes from o on precede the first zero, at most n. */
  function Strnlen(b: Bytes, o: nat, n: nat): (l: nat)
    ensures l <= n && (l < n ==> b(o + l) == 0)
    ensures forall i: nat | o <= i < o + l :: b(i) != 0
    decreases n, o
  {
    if n == 0 || b(o) == 0 then 0 else 1 + Strnlen(b, o + 1, n - 1)
  }

  /** strncpy: the string at t of rom, then zeros, up to n bytes from o on. */
  function Strncpy(b: Bytes, o: nat, rom: Bytes, t: nat, n: nat): (c: Bytes)
    ensures forall j: nat :: c(j) == if o <= j < o + Strnlen(rom, t, n) then rom(t + (j - o)) else if o <= j < o + n then 0 else b(j)
  {
    var l := Strnlen(rom, t, n);
    (j: nat) => if o <= j < o + l then rom(t + (j - o)) else if o <= j < o + n then 0 else b(j)
  }

  /** The n bytes from o on. */
  function Slice(b: Bytes, o: nat, n: nat): (s: seq<u8>)
    ensures |s| == n && forall i | 0 <= i < n :: s[i] == b(o + i)
  {
    seq(n, i requires 0 <= i < n => b(o + i))
  }

  /** As much of the zero-terminated string at t as fits n bytes, without its terminator. */
  function Text(b: Bytes, t: nat, n: nat): seq<u8> { Slice(b, t, Strnlen(b, t, n)) }

  /** The bytes s stand at o, with a zero after them. */
  predicate StringAt(b: Bytes, o: nat, s: seq<u8>) {
    b(o + |s|) == 0 && forall i | 0 <= i < |s| :: b(o + i) == s[i]
  }

  /** Bytes outside [lo, hi) are the same. */
  ghost predicate SameBut(b: Bytes, c: Bytes, lo: nat, hi: nat) {
    forall i: nat | !(lo <= i < hi) :: b(i) == c(i)
  }

  lemma StrnlenIs(b: Bytes, o: nat, n: nat, l: nat)
    requires l <= n && (l < n ==> b(o + l) == 0) && forall i: nat | o <= i < o + l :: b(i) != 0
    ensures Strnlen(b, o, n) == l
  {
    hide Strnlen;
    var k := Strnlen(b, o, n);
    assert k < n ==> b(o + k) == 0;
  }

  /** strnlen of the copy is strnlen of the original. */
  lemma CopiedLength(b: Bytes, o: nat, rom: Bytes, t: nat, n: nat)
    ensures Strnlen(Strncpy(b, o, rom, t, n), o, n) == Strnlen(rom, t, n)
  {
    hide Strnlen, Strncpy;
    var l := Strnlen(rom, t, n);
    var c := Strncpy(b, o, rom, t, n);
    forall i: nat | o <= i < o + l
      ensures c(i) != 0
    {
      assert rom(t + (i - o)) != 0;
    }
    StrnlenIs(c, o, n, l);
  }

  // --- What is packed, and how

  /** The buffer's length, its copy in real-mode memory, the size of the header, and real-mode memory after the
      call. */
  datatype Job = Job(len: int, lbuf: nat, ibSize: nat, rom: Bytes)

  /** The buffer, and where its free room begins. */
  datatype Packing = Packing(mem: Bytes, room: nat)

  /** `t < bufend`: taken to lead into the header. */
  predicate InHeader(job: Job, ptr: u32) { Addr(ptr) < job.lbuf + job.ibSize }

  predicate InRom(job: Job, ptr: u32) { !InHeader(job, ptr) && Addr(ptr) > ROM_START }

  /** Real-mode pointers, segment and offset: what they lead to, and what they are taken for. */
  lemma PointerIs(job: Job, seg: u16, off: u16)
    ensures var p: u32 := 0x1_0000 * seg as int + off as int;
            var a := 16 * seg as int + off as int;
            && Addr(p) == a && (InHeader(job, p) <==> a < job.lbuf + job.ibSize)
            && (InRom(job, p) <==> job.lbuf + job.ibSize <= a && 0xa_0000 < a)
  {
    var p: u32 := 0x1_0000 * seg as int + off as int;
    assert p / 0x1_0000 == seg && p % 0x1_0000 == off;
  }

  /** The offset a pointer into the header becomes, a 32-bit field. For a pointer below the buffer it wraps. */
  function Offset(job: Job, ptr: u32): u32 { U32(Addr(ptr) - job.lbuf) }

  /** From where it leads to the end of the header. */
  function Span(job: Job, ptr: u32): nat { if InHeader(job, ptr) then job.lbuf + job.ibSize - Addr(ptr) else 0 }

  // Mode lists

  /** The most entries the loop `while (fsize > 2 && ...)` can pass. */
  function Most(fsize: int): nat { if fsize > 2 then (fsize - 1) / 2 else 0 }

  /** How many entries precede the terminator of the list at t, at most n. */
  function ModeCount(b: Bytes, t: nat, n: nat): (k: nat)
    ensures k <= n && (k < n ==> Word(b, t + 2 * k) == 0xffff)
    ensures forall i | 0 <= i < k :: Word(b, t + 2 * i) != 0xffff
    decreases n, t
  {
    if n == 0 then 0
    else
      var k := ModeCount(b, t, n - 1);
      if k < n - 1 || Word(b, t + 2 * k) == 0xffff then k else n
  }

  lemma ModeCountIs(b: Bytes, t: nat, n: nat, k: nat)
    requires k <= n && (k < n ==> Word(b, t + 2 * k) == 0xffff) && forall i | 0 <= i < k :: Word(b, t + 2 * i) != 0xffff
    ensures ModeCount(b, t, n) == k
  {
    hide ModeCount;
    var m := ModeCount(b, t, n);
    assert m < n ==> Word(b, t + 2 * m) == 0xffff;
  }

  /** The first k words of the list at t, copied to the data area one by one. */
  function Copied(b: Bytes, rom: Bytes, t: nat, k: nat): Bytes
    decreases k, t
  {
    if k == 0 then b else StoreWord(Copied(b, rom, t, k - 1), DATA + 2 * (k - 1), Word(rom, t + 2 * (k - 1)))
  }

  lemma {:induction false} CopiedBytes(b: Bytes, rom: Bytes, t: nat, k: nat, i: nat)
    ensures Copied(b, rom, t, k)(i) == if DATA <= i < DATA + 2 * k then rom(t + (i - DATA)) else b(i)
    decreases k
  {
    if k != 0 {
      CopiedBytes(b, rom, t, k - 1, i);
    }
  }

  /** How many entries of the mode list are kept. */
  function Modes(job: Job, b: Bytes, ptr: u32): nat {
    ModeCount(if InHeader(job, ptr) then b else job.rom, if InHeader(job, ptr) then Offset(job, ptr) else Addr(ptr),
              Most(job.len - DATA))
  }

  function ListStep(job: Job, b: Bytes, ptr: u32): Packing {
    var k := Modes(job, b, ptr);
    if InHeader(job, ptr) then Packing(StoreWord(b, Offset(job, ptr) + 2 * k, 0xffff), DATA + 2 * k + 2)
    else if InRom(job, ptr) then Packing(StoreWord(Copied(b, job.rom, Addr(ptr), k), DATA + 2 * k, 0xffff), DATA + 2 * k + 2)
    else Packing(b, DATA)
  }

  function ListField(job: Job, ptr: u32): u32 {
    if InHeader(job, ptr) then Offset(job, ptr) else if InRom(job, ptr) then DATA else 0
  }

  // Strings

  /** A ROM string is fetched while there is room. */
  predicate Fetched(job: Job, room: nat, ptr: u32) { InRom(job, ptr) && room < job.len }

  /** The length of the string one step deals with, cut to its span or to the room. */
  function Length(job: Job, p: Packing, ptr: u32): nat {
    if InHeader(job, ptr) then Strnlen(p.mem, Offset(job, ptr), Span(job, ptr))
    else if Fetched(job, p.room, ptr) then Strnlen(job.rom, Addr(ptr), job.len - p.room)
    else 0
  }

  function StringStep(job: Job, p: Packing, ptr: u32): Packing {
    var l := Length(job, p, ptr);
    if InHeader(job, ptr) then Packing(Terminated(p.mem, Offset(job, ptr) + l), p.room + l)
    else if Fetched(job, p.room, ptr) then
      Packing(Terminated(Strncpy(p.mem, p.room, job.rom, Addr(ptr), job.len - p.room), p.room + l), p.room + l + 1)
    else p
  }

  function StringField(job: Job, room: nat, ptr: u32): int {
    if InHeader(job, ptr) then Offset(job, ptr) else if Fetched(job, room, ptr) then room else 0
  }

  /** The buffer after the first n string steps. */
  function After(job: Job, p: Packing, ptrs: seq<u32>, n: nat): Packing
    requires n <= |ptrs|
    decreases n, ptrs
  {
    if n == 0 then p else StringStep(job, After(job, p, ptrs, n - 1), ptrs[n - 1])
  }

  // --- The code

  /** Memory the code stores to. */
  class Ram {
    var byte: Bytes

    constructor (b: Bytes)
      ensures byte == b
    {
      byte := b;
    }

    method Poke(i: nat, v: u8)
      modifies this
      ensures byte == Store(old(byte), i, v)
    {
      byte := Store(byte, i, v);
    }

    /** A store through a u16 pointer. */
    method PokeWord(i: nat, v: u16)
      modifies this
      ensures byte == StoreWord(old(byte), i, v)
    {
      Poke(i, v % 0x100);
      Poke(i + 1, v / 0x100);
    }
  }

  /** The mode list in ROM: copied to the data area until its terminator or until two bytes are left. */
  method CopyModes(buf: Ram, rom: Bytes, t0: nat, fsize0: int) returns (cbuf: nat, fsize: int)
    modifies buf
    ensures var k := ModeCount(rom, t0, Most(fsize0));
            && cbuf == DATA + 2 * k + 2 && fsize == fsize0 - 2 * k - 2
            && buf.byte == StoreWord(Copied(old(buf.byte), rom, t0, k), DATA + 2 * k, 0xffff)
            && Slice(buf.byte, DATA, 2 * k) == Slice(rom, t0, 2 * k) && Word(buf.byte, DATA + 2 * k) == 0xffff
            && SameBut(old(buf.byte), buf.byte, DATA, cbuf)
  {
    hide Word, ModeCount, StoreWord, Copied;
    ghost var b := buf.byte;
    ghost var n := Most(fsize0);
    ghost var k: nat := 0;
    cbuf, fsize := DATA, fsize0;
    var td: nat, t: nat := DATA, t0;
    CopiedNone(b, rom, t0);
    while fsize > 2 && Word(rom, t) != 0xffff
      invariant k <= n && td == cbuf == DATA + 2 * k && t == t0 + 2 * k && fsize == fsize0 - 2 * k
      invariant forall i | 0 <= i < k :: Word(rom, t0 + 2 * i) != 0xffff
      invariant buf.byte == Copied(b, rom, t0, k)
      decreases fsize
    {
      CopiedNext(b, rom, t0, k);
      fsize := fsize - 2;
      buf.PokeWord(td, Word(rom, t));
      td := td + 2;
      t := t + 2;
      cbuf := cbuf + 2;
      k := k + 1;
    }
    ModeCountIs(rom, t0, n, k);
    buf.PokeWord(td, 0xffff);
    cbuf := cbuf + 2;
    fsize := fsize - 2;
    ListStored(b, rom, t0, k);
  }

  lemma CopiedNone(b: Bytes, rom: Bytes, t: nat)
    ensures Copied(b, rom, t, 0) == b
  {
  }

  lemma CopiedNext(b: Bytes, rom: Bytes, t: nat, k: nat)
    ensures Copied(b, rom, t, k + 1) == StoreWord(Copied(b, rom, t, k), DATA + 2 * k, Word(rom, t + 2 * k))
  {
  }

  /** The list and its terminator, and nothing else. */
  lemma ListStored(b: Bytes, rom: Bytes, t: nat, k: nat)
    ensures var c := StoreWord(Copied(b, rom, t, k), DATA + 2 * k, 0xffff);
            Slice(c, DATA, 2 * k) == Slice(rom, t, 2 * k) && Word(c, DATA + 2 * k) == 0xffff && SameBut(b, c, DATA, DATA + 2 * k + 2)
  {
    hide Copied;
    forall i: nat
      ensures Copied(b, rom, t, k)(i) == if DATA <= i < DATA + 2 * k then rom(t + (i - DATA)) else b(i)
    {
      CopiedBytes(b, rom, t, k, i);
    }
  }

  /** The mode list already in the buffer, at `off`: cut where it would pass the room left, and accounted for as
      if it began at the data area. */
  method CutModes(buf: Ram, off: nat, fsize0: int) returns (cbuf: nat, fsize: int)
    modifies buf
    ensures var k := ModeCount(old(buf.byte), off, Most(fsize0));
            && cbuf == DATA + 2 * k + 2 && fsize == fsize0 - 2 * k - 2
            && buf.byte == StoreWord(old(buf.byte), off + 2 * k, 0xffff)
            && Slice(buf.byte, off, 2 * k) == Slice(old(buf.byte), off, 2 * k) && Word(buf.byte, off + 2 * k) == 0xffff
            && SameBut(old(buf.byte), buf.byte, off + 2 * k, off + 2 * k + 2)
            && (k < Most(fsize0) ==> SameBut(old(buf.byte), buf.byte, 0, 0))
  {
    hide ModeCount;
    ghost var n := Most(fsize0);
    ghost var k: nat := 0;
    cbuf, fsize := DATA, fsize0;
    var td := off;
    while fsize > 2 && Word(buf.byte, td) != 0xffff
      invariant k <= n && td == off + 2 * k && cbuf == DATA + 2 * k && fsize == fsize0 - 2 * k
      invariant forall i | 0 <= i < k :: Word(buf.byte, off + 2 * i) != 0xffff
      invariant buf.byte == old(buf.byte)
      decreases fsize
    {
      td := td + 2;
      fsize := fsize - 2;
      cbuf := cbuf + 2;
      k := k + 1;
    }
    ModeCountIs(buf.byte, off, n, k);
    buf.PokeWord(td, 0xffff);
    cbuf := cbuf + 2;
    fsize := fsize - 2;
  }

  /** The mode-list part of v86_task: in the header, in ROM, or nowhere usable. */
  method PackModes(buf: Ram, job: Job, ptr: u32) returns (modes: u32, cbuf: nat, fsize: int)
    modifies buf
    ensures cbuf + fsize == job.len && modes == ListField(job, ptr)
    ensures Packing(buf.byte, cbuf) == ListStep(job, old(buf.byte), ptr)
    ensures InRom(job, ptr) ==>
              var k := ModeCount(job.rom, Addr(ptr), Most(job.len - DATA));
              && modes == DATA && cbuf == DATA + 2 * k + 2
              && Slice(buf.byte, DATA, 2 * k) == Slice(job.rom, Addr(ptr), 2 * k) && Word(buf.byte, DATA + 2 * k) == 0xffff
              && SameBut(old(buf.byte), buf.byte, DATA, cbuf)
    ensures InHeader(job, ptr) ==>
              var k := ModeCount(old(buf.byte), modes, Most(job.len - DATA));
              && Addr(ptr) == (job.lbuf + modes) % 0x1_0000_0000 && cbuf == DATA + 2 * k + 2
              && Slice(buf.byte, modes, 2 * k) == Slice(old(buf.byte), modes, 2 * k) && Word(buf.byte, modes + 2 * k) == 0xffff
              && SameBut(old(buf.byte), buf.byte, modes + 2 * k, modes + 2 * k + 2)
    ensures !InRom(job, ptr) && !InHeader(job, ptr) ==> modes == 0 && cbuf == DATA && buf.byte == old(buf.byte)
  {
    hide ModeCount, Addr, U32, Word, StoreWord, Slice, SameBut, Copied;
    fsize := job.len - DATA;
    cbuf := DATA;
    var t := Addr(ptr);
    if t < job.lbuf + job.ibSize {
      OffsetBack(job, ptr);
      modes := U32(t - job.lbuf);
      cbuf, fsize := CutModes(buf, modes, fsize);
    } else if t > ROM_START {
      cbuf, fsize := CopyModes(buf, job.rom, t, fsize);
      modes := DATA;
    } else {
      modes := 0;
    }
  }

  lemma OffsetBack(job: Job, ptr: u32)
    ensures Addr(ptr) == (job.lbuf + Offset(job, ptr)) % 0x1_0000_0000
  {
    hide Addr;
    var d := Addr(ptr) - job.lbuf;
    var q := d / 0x1_0000_0000;
    assert d == q * 0x1_0000_0000 + U32(d);
    assert job.lbuf + U32(d) == Addr(ptr) + (-q) * 0x1_0000_0000;
    WrapBack(Addr(ptr), -q);
  }

  lemma WrapBack(a: u32, q: int)
    ensures (a as int + q * 0x1_0000_0000) % 0x1_0000_0000 == a
  {
  }

  /** The first branch of vbeib_get_string: the string at `off` ends within n bytes, or is cut there. */
  method CutString(buf: Ram, off: nat, n: nat) returns (l: nat)
    modifies buf
    ensures l == Strnlen(old(buf.byte), off, n) && buf.byte == Terminated(old(buf.byte), off + l)
    ensures StringAt(buf.byte, off, Text(old(buf.byte), off, n))
    ensures if l < n then buf.byte == old(buf.byte) else SameBut(old(buf.byte), buf.byte, off + n, off + n + 1)
  {
    hide Strnlen;
    l := Strnlen(buf.byte, off, n);
    if buf.byte(off + l) != 0 {
      buf.Poke(off + l, 0);
    }
  }

  /** The second branch: the string at t copied to cbuf, where there is room for n bytes. When it fills them, its
      terminator goes past them. */
  method FetchString(buf: Ram, rom: Bytes, t: nat, cbuf: nat, n: nat) returns (l: nat)
    modifies buf
    ensures l == Strnlen(rom, t, n) && buf.byte == Terminated(Strncpy(old(buf.byte), cbuf, rom, t, n), cbuf + l)
    ensures StringAt(buf.byte, cbuf, Text(rom, t, n))
    ensures SameBut(old(buf.byte), buf.byte, cbuf, if l < n then cbuf + n else cbuf + n + 1)
    ensures l == n ==> buf.byte(cbuf + n) == 0
  {
    hide Strnlen;
    CopiedLength(buf.byte, cbuf, rom, t, n);
    buf.byte := Strncpy(buf.byte, cbuf, rom, t, n);
    l := Strnlen(buf.byte, cbuf, n);
    if buf.byte(cbuf + l) != 0 {
      buf.Poke(cbuf + l, 0);
    }
  }

  /** While there is room, cbuf is where that room begins; with none left, cbuf is at or past the end. */
  predicate Account(cbuf: nat, fsize: int, len: int) { if fsize > 0 then cbuf + fsize == len else cbuf >= len }

  /** The macro vbeib_get_string for one pointer field. */
  method PackString(buf: Ram, job: Job, ptr: u32, cbuf0: nat, fsize0: int) returns (name: int, cbuf: nat, fsize: int)
    requires Account(cbuf0, fsize0, job.len)
    modifies buf
    ensures Account(cbuf, fsize, job.len) && name == StringField(job, cbuf0, ptr)
    ensures Packing(buf.byte, cbuf) == StringStep(job, Packing(old(buf.byte), cbuf0), ptr)
    ensures if InHeader(job, ptr) then
              var s := Text(old(buf.byte), name, Span(job, ptr));
              && Addr(ptr) == (job.lbuf + name) % 0x1_0000_0000 && cbuf == cbuf0 + |s| && StringAt(buf.byte, name, s)
              && (|s| < Span(job, ptr) ==> buf.byte == old(buf.byte))
              && SameBut(old(buf.byte), buf.byte, name + |s|, name + |s| + 1)
            else if Fetched(job, cbuf0, ptr) then
              var s := Text(job.rom, Addr(ptr), job.len - cbuf0);
              && name == cbuf0 && cbuf == cbuf0 + |s| + 1 && StringAt(buf.byte, cbuf0, s)
              && SameBut(old(buf.byte), buf.byte, cbuf0, if cbuf <= job.len then job.len else job.len + 1)
            else name == 0 && cbuf == cbuf0 && buf.byte == old(buf.byte)
  {
    hide Strnlen, StringAt, Addr, U32, Terminated, Strncpy;
    cbuf, fsize := cbuf0, fsize0;
    var t := Addr(ptr);
    var bufend := job.lbuf + job.ibSize;
    if t < bufend {
      OffsetBack(job, ptr);
      name := U32(t - job.lbuf);
      var l := CutString(buf, name, bufend - t);
      fsize := fsize - l;
      cbuf := cbuf + l;
    } else if t > ROM_START && fsize > 0 {
      var l := FetchString(buf, job.rom, t, cbuf, fsize);
      name := job.len - fsize;
      l := l + 1;
      fsize := fsize - l;
      cbuf := cbuf + l;
    } else {
      name := 0;
    }
    if fsize < 0 {
      fsize := 0;
    }
  }

  /** The pointer fields of the block. */
  datatype Pointers = Pointers(modes: u32, oem: u32, vendor: u32, product: u32, rev: u32)
  {
    /** The string fields in the order they are processed. */
    function Strings(): (ptrs: seq<u32>)
      ensures |ptrs| == 4
    {
      [oem, vendor, product, rev]
    }
  }

  /** The fields afterwards: offsets into the buffer, 0 for what could not be kept. */
  datatype Offsets = Offsets(modes: u32, strings: seq<int>)

  /** The buffer after the whole packing. */
  function Packed(job: Job, b: Bytes, p: Pointers): Packing {
    After(job, ListStep(job, b, p.modes), p.Strings(), 4)
  }

  /** Where the free room begins when string j is dealt with. */
  function RoomAt(job: Job, b: Bytes, p: Pointers, j: nat): nat
    requires j <= 4
  {
    After(job, ListStep(job, b, p.modes), p.Strings(), j).room
  }

  /** The fields after the whole packing. */
  function Fields(job: Job, b: Bytes, p: Pointers): Offsets {
    Offsets(ListField(job, p.modes), seq(4, j requires 0 <= j < 4 => StringField(job, RoomAt(job, b, p, j), p.Strings()[j])))
  }

  lemma FourSteps(job: Job, s: Packing, ptrs: seq<u32>)
    requires |ptrs| == 4
    ensures After(job, s, ptrs, 0) == s
    ensures forall n | 0 <= n < 4 :: After(job, s, ptrs, n + 1) == StringStep(job, After(job, s, ptrs, n), ptrs[n])
  {
  }
}
