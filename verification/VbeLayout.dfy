/** What stands in the buffer when a VBE Info Block has been packed, and what was stored past its end. The string
    steps are taken for a list of pointers of any length; v86_task has four. */
module VbeLayout {
  import opened Words
  import opened VbeInfo

  // --- One string step

  /** The string in the header runs to the end of the header, and is cut there. */
  predicate Cuts(job: Job, p: Packing, ptr: u32) { InHeader(job, ptr) && Length(job, p, ptr) == Span(job, ptr) }

  function CutPoint(job: Job, ptr: u32): nat { Offset(job, ptr) + Span(job, ptr) }

  /** The string from ROM fills the room, so that its terminator goes past the end. */
  predicate Spills(job: Job, p: Packing, ptr: u32) {
    Fetched(job, p.room, ptr) && Length(job, p, ptr) == job.len - p.room
  }

  /** The step stores a terminator at i, outside the room. */
  predicate Zeroes(job: Job, p: Packing, ptr: u32, i: nat) {
    (Cuts(job, p, ptr) && i == CutPoint(job, ptr)) || (Spills(job, p, ptr) && i == job.len)
  }

  /** The step copies over i. */
  predicate Covers(job: Job, p: Packing, ptr: u32, i: nat) { Fetched(job, p.room, ptr) && p.room <= i < job.len }

  lemma StepByte(job: Job, p: Packing, ptr: u32, i: nat)
    ensures StringStep(job, p, ptr).room >= p.room
    ensures !Covers(job, p, ptr, i) ==> StringStep(job, p, ptr).mem(i) == if Zeroes(job, p, ptr, i) then 0 else p.mem(i)
  {
    hide Strnlen, Strncpy, Terminated, Addr, Offset;
  }

  lemma StepPlaces(job: Job, p: Packing, ptr: u32)
    requires Fetched(job, p.room, ptr)
    ensures var s := Text(job.rom, Addr(ptr), job.len - p.room);
            && StringAt(StringStep(job, p, ptr).mem, p.room, s) && StringStep(job, p, ptr).room == p.room + |s| + 1
            && p.room + |s| <= job.len && forall i | 0 <= i < |s| :: s[i] != 0
  {
    hide Strnlen, Strncpy, Terminated, Addr;
  }

  lemma StepTerminates(job: Job, p: Packing, ptr: u32)
    requires InHeader(job, ptr)
    ensures var s := Text(p.mem, Offset(job, ptr), Span(job, ptr));
            StringAt(StringStep(job, p, ptr).mem, Offset(job, ptr), s) && |s| <= Span(job, ptr)
  {
    hide Strnlen, Terminated, Addr, Offset;
  }

  /** A cut is at the end of the header; for a pointer below the buffer, 2^32 bytes (or a multiple) further on. */
  lemma CutPointIs(job: Job, ptr: u32)
    requires InHeader(job, ptr)
    ensures CutPoint(job, ptr) >= job.ibSize
    ensures job.lbuf <= Addr(ptr) <==> CutPoint(job, ptr) == job.ibSize
  {
    hide Addr;
    var d := Addr(ptr) - job.lbuf;
    var q := d / 0x1_0000_0000;
    assert d == q * 0x1_0000_0000 + U32(d);
  }

  // --- All of them

  lemma {:induction false} RoomsRise(job: Job, s: Packing, ptrs: seq<u32>, m: nat, n: nat)
    requires m <= n <= |ptrs|
    ensures After(job, s, ptrs, m).room <= After(job, s, ptrs, n).room
    decreases n
  {
    hide StringStep;
    if m < n {
      RoomsRise(job, s, ptrs, m, n - 1);
      StepByte(job, After(job, s, ptrs, n - 1), ptrs[n - 1], 0);
    }
  }

  /** One of the steps from m to n - 1 stores a terminator at i. */
  predicate Zeroed(job: Job, s: Packing, ptrs: seq<u32>, m: nat, n: nat, i: nat)
    requires n <= |ptrs|
  {
    exists x | m <= x < n :: Zeroes(job, After(job, s, ptrs, x), ptrs[x], i)
  }

  /** What becomes of a byte none of the steps from m to n - 1 copies over. */
  lemma {:induction false} ByteStands(job: Job, s: Packing, ptrs: seq<u32>, m: nat, n: nat, i: nat)
    requires m <= n <= |ptrs| && forall x | m <= x < n :: !Covers(job, After(job, s, ptrs, x), ptrs[x], i)
    ensures After(job, s, ptrs, n).mem(i) == if Zeroed(job, s, ptrs, m, n, i) then 0 else After(job, s, ptrs, m).mem(i)
    decreases n
  {
    hide StringStep, Covers, Zeroes;
    if m < n {
      ByteStands(job, s, ptrs, m, n - 1, i);
      var q := After(job, s, ptrs, n - 1);
      StepByte(job, q, ptrs[n - 1], i);
      if Zeroed(job, s, ptrs, m, n - 1, i) {
        var x :| m <= x < n - 1 && Zeroes(job, After(job, s, ptrs, x), ptrs[x], i);
        assert Zeroed(job, s, ptrs, m, n, i);
      } else if Zeroes(job, q, ptrs[n - 1], i) {
        assert Zeroed(job, s, ptrs, m, n, i);
      }
    }
  }

  /** The last of the first n steps that copies over i; -1 if none does. */
  function LastCover(job: Job, s: Packing, ptrs: seq<u32>, n: nat, i: nat): (x: int)
    requires n <= |ptrs|
    ensures -1 <= x < n
    decreases n, i
  {
    if n == 0 then -1
    else if Covers(job, After(job, s, ptrs, n - 1), ptrs[n - 1], i) then n - 1
    else LastCover(job, s, ptrs, n - 1, i)
  }

  lemma {:induction false} LastCoverIs(job: Job, s: Packing, ptrs: seq<u32>, n: nat, i: nat)
    requires n <= |ptrs|
    ensures var x := LastCover(job, s, ptrs, n, i);
            && (x >= 0 ==> Covers(job, After(job, s, ptrs, x), ptrs[x], i))
            && forall y | x < y < n :: !Covers(job, After(job, s, ptrs, y), ptrs[y], i)
    decreases n
  {
    hide Covers, After;
    if n != 0 {
      LastCoverIs(job, s, ptrs, n - 1, i);
    }
  }

  /** What a step that copies over i puts there: a byte of the string, or of the zeros after it. */
  function CopyByte(job: Job, p: Packing, ptr: u32, i: nat): u8 {
    if p.room <= i < p.room + Length(job, p, ptr) then job.rom(Addr(ptr) + (i - p.room)) else 0
  }

  lemma StepCovers(job: Job, p: Packing, ptr: u32, i: nat)
    requires Covers(job, p, ptr, i)
    ensures StringStep(job, p, ptr).mem(i) == CopyByte(job, p, ptr, i)
  {
    hide Strnlen, Strncpy, Terminated, Addr;
  }

  /** Every byte of memory after the string steps: what the last copy put there, or what was there before the
      first, unless a terminator was stored on it since. */
  lemma EveryByte(job: Job, s: Packing, ptrs: seq<u32>, n: nat, i: nat)
    requires n <= |ptrs|
    ensures var x := LastCover(job, s, ptrs, n, i);
            After(job, s, ptrs, n).mem(i)
            == if Zeroed(job, s, ptrs, x + 1, n, i) then 0
               else if x >= 0 then CopyByte(job, After(job, s, ptrs, x), ptrs[x], i) else s.mem(i)
  {
    hide StringStep, Covers, Zeroed, CopyByte, Length;
    var x := LastCover(job, s, ptrs, n, i);
    LastCoverIs(job, s, ptrs, n, i);
    ByteStands(job, s, ptrs, x + 1, n, i);
    if x >= 0 {
      StepCovers(job, After(job, s, ptrs, x), ptrs[x], i);
    }
  }

  /** Bytes below the room are not copied over any more. */
  lemma BelowRoom(job: Job, s: Packing, ptrs: seq<u32>, m: nat, n: nat, i: nat)
    requires m <= n <= |ptrs| && i < After(job, s, ptrs, m).room
    ensures After(job, s, ptrs, n).mem(i) == if Zeroed(job, s, ptrs, m, n, i) then 0 else After(job, s, ptrs, m).mem(i)
  {
    hide After;
    forall x | m <= x < n
      ensures !Covers(job, After(job, s, ptrs, x), ptrs[x], i)
    {
      RoomsRise(job, s, ptrs, m, x);
    }
    ByteStands(job, s, ptrs, m, n, i);
  }

  /** A later step cuts a header string at a place from lo to hi - 1. */
  predicate Struck(job: Job, s: Packing, ptrs: seq<u32>, m: nat, n: nat, lo: nat, hi: nat)
    requires n <= |ptrs|
  {
    exists x | m <= x < n :: Cuts(job, After(job, s, ptrs, x), ptrs[x]) && lo <= CutPoint(job, ptrs[x]) < hi
  }

  lemma ZeroedBelow(job: Job, s: Packing, ptrs: seq<u32>, m: nat, n: nat, lo: nat, hi: nat)
    requires m <= n <= |ptrs| && hi <= job.len
    ensures Struck(job, s, ptrs, m, n, lo, hi) <==> exists i: nat | lo <= i < hi :: Zeroed(job, s, ptrs, m, n, i)
  {
    hide After, Cuts, Spills, CutPoint, InHeader;
    if Struck(job, s, ptrs, m, n, lo, hi) {
      var x :| m <= x < n && Cuts(job, After(job, s, ptrs, x), ptrs[x]) && lo <= CutPoint(job, ptrs[x]) < hi;
      assert Zeroes(job, After(job, s, ptrs, x), ptrs[x], CutPoint(job, ptrs[x]));
      assert Zeroed(job, s, ptrs, m, n, CutPoint(job, ptrs[x]));
    }
  }

  /** A ROM string for which there is room is stored where the room began, whatever follows; the next string's
      room begins just past it. It stands in the finished buffer exactly when no later string in the header is
      cut inside it. */
  lemma RomStringStands(job: Job, s: Packing, ptrs: seq<u32>, j: nat, n: nat)
    requires j < n <= |ptrs| && Fetched(job, After(job, s, ptrs, j).room, ptrs[j])
    ensures var o := After(job, s, ptrs, j).room;
            var t := Text(job.rom, Addr(ptrs[j]), job.len - o);
            && StringField(job, o, ptrs[j]) == o && After(job, s, ptrs, j + 1).room == o + |t| + 1
            && (StringAt(After(job, s, ptrs, n).mem, o, t) <==> !Struck(job, s, ptrs, j + 1, n, o, o + |t|))
  {
    hide After, Struck, Zeroed, Text;
    var p := After(job, s, ptrs, j);
    var o := p.room;
    var t := Text(job.rom, Addr(ptrs[j]), job.len - o);
    AfterNext(job, s, ptrs, j);
    StepPlaces(job, p, ptrs[j]);
    ZeroedBelow(job, s, ptrs, j + 1, n, o, o + |t|);
    forall i: nat | o <= i <= o + |t|
      ensures After(job, s, ptrs, n).mem(i)
              == if Zeroed(job, s, ptrs, j + 1, n, i) then 0 else After(job, s, ptrs, j + 1).mem(i)
    {
      BelowRoom(job, s, ptrs, j + 1, n, i);
    }
    StandsUnlessZeroed(job, s, ptrs, j + 1, n, o, t);
  }

  lemma AfterNext(job: Job, s: Packing, ptrs: seq<u32>, j: nat)
    requires j < |ptrs|
    ensures After(job, s, ptrs, j + 1) == StringStep(job, After(job, s, ptrs, j), ptrs[j])
  {
  }

  /** A string without zeros, some of whose bytes may be zeroed. */
  lemma StandsUnlessZeroed(job: Job, s: Packing, ptrs: seq<u32>, m: nat, n: nat, o: nat, t: seq<u8>)
    requires m <= n <= |ptrs| && StringAt(After(job, s, ptrs, m).mem, o, t) && forall i | 0 <= i < |t| :: t[i] != 0
    requires forall i: nat | o <= i <= o + |t| ::
               After(job, s, ptrs, n).mem(i) == if Zeroed(job, s, ptrs, m, n, i) then 0 else After(job, s, ptrs, m).mem(i)
    ensures StringAt(After(job, s, ptrs, n).mem, o, t)
            <==> !exists i: nat | o <= i < o + |t| :: Zeroed(job, s, ptrs, m, n, i)
  {
    hide After, Zeroed;
    var b, c := After(job, s, ptrs, m).mem, After(job, s, ptrs, n).mem;
    if StringAt(c, o, t) {
      forall i: nat | o <= i < o + |t|
        ensures !Zeroed(job, s, ptrs, m, n, i)
      {
        assert c(o + (i - o)) == t[i - o];
      }
    }
    if !exists i: nat | o <= i < o + |t| :: Zeroed(job, s, ptrs, m, n, i) {
      forall i | 0 <= i < |t|
        ensures c(o + i) == t[i]
      {
        assert !Zeroed(job, s, ptrs, m, n, o + i);
      }
    }
  }

  /** No string fetched by the steps from m to n - 1 is copied to a place below hi. */
  predicate Uncovered(job: Job, s: Packing, ptrs: seq<u32>, m: nat, n: nat, hi: nat)
    requires n <= |ptrs|
  {
    forall x | m <= x < n && Fetched(job, After(job, s, ptrs, x).room, ptrs[x]) :: hi <= After(job, s, ptrs, x).room
  }

  lemma UncoveredData(job: Job, s: Packing, ptrs: seq<u32>, m: nat, n: nat, hi: nat)
    requires n <= |ptrs| && hi <= s.room
    ensures Uncovered(job, s, ptrs, m, n, hi)
  {
    hide After;
    AfterNone(job, s, ptrs);
    forall x | m <= x < n
      ensures hi <= After(job, s, ptrs, x).room
    {
      RoomsRise(job, s, ptrs, 0, x);
    }
  }

  /** Cuts are at the end of the header or later: below it, what no string is copied over stays. */
  lemma HeaderByte(job: Job, s: Packing, ptrs: seq<u32>, m: nat, n: nat, hi: nat, i: nat)
    requires m <= n <= |ptrs| && Uncovered(job, s, ptrs, m, n, hi) && i < hi && i <= job.ibSize
    ensures var b, c := After(job, s, ptrs, m).mem, After(job, s, ptrs, n).mem;
            c(i) == b(i) || (i == job.ibSize && c(i) == 0)
  {
    hide After, CutPoint;
    forall x | m <= x < n
      ensures !Covers(job, After(job, s, ptrs, x), ptrs[x], i)
      ensures i < job.ibSize ==> !Zeroes(job, After(job, s, ptrs, x), ptrs[x], i)
    {
      if InHeader(job, ptrs[x]) {
        CutPointIs(job, ptrs[x]);
      }
    }
    ByteStands(job, s, ptrs, m, n, i);
  }

  lemma AfterNone(job: Job, s: Packing, ptrs: seq<u32>)
    ensures After(job, s, ptrs, 0) == s
  {
  }

  lemma HeaderOffset(job: Job, ptr: u32)
    requires job.lbuf <= Addr(ptr)
    ensures Offset(job, ptr) == Addr(ptr) - job.lbuf
  {
    hide Addr;
  }

  lemma HeaderRoom(job: Job, p: Packing, ptr: u32)
    requires InHeader(job, ptr)
    ensures StringStep(job, p, ptr).room == p.room + Strnlen(p.mem, Offset(job, ptr), Span(job, ptr))
  {
    hide Strnlen, Terminated, Addr, Offset;
  }

  // --- The mode list

  /** A ROM mode list, in a buffer of even length from 514 bytes on: the longest prefix that leaves room for its
      terminator, which ends inside the buffer. At odd lengths a list that fills the room ends one byte past it,
      and below 514 bytes the terminator alone does not fit. */
  lemma RomListFits(job: Job, b: Bytes, ptr: u32)
    requires InRom(job, ptr)
    ensures var k := Modes(job, b, ptr);
            && (job.len >= 514 && job.len % 2 == 0 ==> k == ModeCount(job.rom, Addr(ptr), (job.len - 514) / 2))
            && (ListStep(job, b, ptr).room <= job.len
                <==> job.len >= 514 && (job.len % 2 == 0 || k < (job.len - 513) / 2))
  {
    hide ModeCount, Addr;
  }

  /** The list at lo stands in the finished buffer, if no string is copied over it, exactly when a string in the
      header is cut inside it only where a zero was anyway. Strings are never copied over a list from ROM. */
  lemma ListStands(job: Job, b: Bytes, ptr: u32, ptrs: seq<u32>, n: nat)
    requires n <= |ptrs| && (InHeader(job, ptr) || InRom(job, ptr))
    ensures var s := ListStep(job, b, ptr);
            var lo := ListField(job, ptr);
            var hi := lo + 2 * Modes(job, b, ptr) + 2;
            InRom(job, ptr) || Uncovered(job, s, ptrs, 0, n, hi)
            ==> ((forall i: nat | lo <= i < hi :: After(job, s, ptrs, n).mem(i) == s.mem(i))
                 <==> forall x | 0 <= x < n && Cuts(job, After(job, s, ptrs, x), ptrs[x]) && lo <= CutPoint(job, ptrs[x]) < hi
                        :: s.mem(CutPoint(job, ptrs[x])) == 0)
  {
    hide After, Modes, Addr, StringStep, StoreWord, Copied, Offset, Cuts, CutPoint;
    var s := ListStep(job, b, ptr);
    var lo := ListField(job, ptr);
    var hi := lo + 2 * Modes(job, b, ptr) + 2;
    if InRom(job, ptr) {
      ListRoom(job, b, ptr);
      UncoveredData(job, s, ptrs, 0, n, hi);
    }
    if Uncovered(job, s, ptrs, 0, n, hi) {
      AfterNone(job, s, ptrs);
      forall i: nat | lo <= i < hi
        ensures After(job, s, ptrs, n).mem(i) == if CutAt(job, s, ptrs, n, i) then 0 else s.mem(i)
      {
        ByteStands(job, s, ptrs, 0, n, i);
        CutAtIs(job, s, ptrs, n, i, hi);
      }
      CutAtMany(job, s, ptrs, n, lo, hi);
    }
  }

  /** A cut inside the list at lo, at a byte that is not zero anyway. */
  predicate ListStruck(job: Job, s: Packing, ptrs: seq<u32>, n: nat, lo: nat, hi: nat)
    requires n <= |ptrs|
  {
    exists x | 0 <= x < n :: Cuts(job, After(job, s, ptrs, x), ptrs[x]) && lo <= CutPoint(job, ptrs[x]) < hi && s.mem(CutPoint(job, ptrs[x])) != 0
  }

  /** What becomes of the mode list of the block b: its offset in the finished buffer c, where the strings' room
      begins, and when it stands there with the bytes it had, terminator included. A list from ROM stands unless
      struck. A list in the header stands unless struck if every string is copied past it; if one is copied over
      its end, it cannot stand unless ROM has a byte 0xff to put there. */
  ghost predicate ListSettled(job: Job, b: Bytes, ptr: u32, ptrs: seq<u32>, n: nat, c: Bytes, modes: u32)
    requires n <= |ptrs|
  {
    var s := ListStep(job, b, ptr);
    var k := Modes(job, b, ptr);
    if InHeader(job, ptr) then
      && Addr(ptr) == (job.lbuf + modes) % 0x1_0000_0000 && s.room == DATA + 2 * k + 2
      && (Uncovered(job, s, ptrs, 0, n, modes + 2 * k + 2) ==>
            (ListAt(c, modes, b, modes, k) <==> !ListStruck(job, s, ptrs, n, modes, modes + 2 * k + 2)))
      && (!Uncovered(job, s, ptrs, 0, n, modes + 2 * k + 2) && modes + 2 * k + 2 <= job.len && (forall a: nat :: job.rom(a) != 0xff) ==>
            !ListAt(c, modes, b, modes, k))
    else if InRom(job, ptr) then
      && modes == DATA && s.room == DATA + 2 * k + 2
      && (ListAt(c, DATA, job.rom, Addr(ptr), k) <==> !ListStruck(job, s, ptrs, n, DATA, s.room))
    else
      modes == 0 && s.room == DATA
  }

  /** The k words from t of rom on stand at lo, with the terminator after them. */
  predicate ListAt(c: Bytes, lo: nat, rom: Bytes, t: nat, k: nat) {
    Slice(c, lo, 2 * k) == Slice(rom, t, 2 * k) && Word(c, lo + 2 * k) == 0xffff
  }

  lemma ListAlwaysSettled(job: Job, b: Bytes, ptr: u32, ptrs: seq<u32>, n: nat)
    requires n <= |ptrs|
    ensures ListSettled(job, b, ptr, ptrs, n, After(job, ListStep(job, b, ptr), ptrs, n).mem, ListField(job, ptr))
  {
    hide After, Modes, Addr, Copied, StoreWord, ListAt, Cuts, CutPoint, Uncovered;
    OffsetBack(job, ptr);
    var s := ListStep(job, b, ptr);
    var k := Modes(job, b, ptr);
    if InHeader(job, ptr) {
      ListStands(job, b, ptr, ptrs, n);
      ListStoredInHeader(b, Offset(job, ptr), k);
      SameList(s.mem, After(job, s, ptrs, n).mem, Offset(job, ptr), b, Offset(job, ptr), k);
      ListCovered(job, s, ptrs, n, Offset(job, ptr), b, k);
    } else if InRom(job, ptr) {
      ListStands(job, b, ptr, ptrs, n);
      ListStoredInRoom(b, job.rom, Addr(ptr), k);
      SameList(s.mem, After(job, s, ptrs, n).mem, DATA, job.rom, Addr(ptr), k);
    }
  }

  lemma ListStoredInHeader(b: Bytes, lo: nat, k: nat)
    ensures ListAt(StoreWord(b, lo + 2 * k, 0xffff), lo, b, lo, k)
  {
  }

  lemma ListStoredInRoom(b: Bytes, rom: Bytes, t: nat, k: nat)
    ensures ListAt(StoreWord(Copied(b, rom, t, k), DATA + 2 * k, 0xffff), DATA, rom, t, k)
  {
    ListStored(b, rom, t, k);
  }

  lemma SameList(b: Bytes, c: Bytes, lo: nat, rom: Bytes, t: nat, k: nat)
    requires ListAt(b, lo, rom, t, k)
    ensures (forall i: nat | lo <= i < lo + 2 * k + 2 :: c(i) == b(i)) <==> ListAt(c, lo, rom, t, k)
  {
    if ListAt(c, lo, rom, t, k) {
      forall i: nat | lo <= i < lo + 2 * k + 2
        ensures c(i) == b(i)
      {
        if i < lo + 2 * k {
          assert Slice(c, lo, 2 * k)[i - lo] == Slice(b, lo, 2 * k)[i - lo];
        }
      }
    }
    if forall i: nat | lo <= i < lo + 2 * k + 2 :: c(i) == b(i) {
      assert Slice(c, lo, 2 * k) == Slice(b, lo, 2 * k);
      assert c(lo + 2 * k) == 0xff && c(lo + 2 * k + 1) == 0xff;
    }
  }

  /** The last byte of the terminator copied over by bytes other than 0xff. */
  lemma ListCovered(job: Job, s: Packing, ptrs: seq<u32>, n: nat, lo: nat, b: Bytes, k: nat)
    requires n <= |ptrs|
    ensures !Uncovered(job, s, ptrs, 0, n, lo + 2 * k + 2) && lo + 2 * k + 2 <= job.len && (forall a: nat :: job.rom(a) != 0xff) ==>
              !ListAt(After(job, s, ptrs, n).mem, lo, b, lo, k)
  {
    hide After;
    var i := lo + 2 * k + 1;
    if !Uncovered(job, s, ptrs, 0, n, i + 1) && i + 1 <= job.len && forall a: nat :: job.rom(a) != 0xff {
      var x :| 0 <= x < n && Fetched(job, After(job, s, ptrs, x).room, ptrs[x]) && After(job, s, ptrs, x).room < i + 1;
      assert Covers(job, After(job, s, ptrs, x), ptrs[x], i);
      LastCoverIs(job, s, ptrs, n, i);
      EveryByte(job, s, ptrs, n, i);
    }
  }

  /** Where the first string is fetched to decides what is copied over. */
  lemma UncoveredIff(job: Job, s: Packing, ptrs: seq<u32>, n: nat, x: nat, hi: nat)
    requires x < n <= |ptrs| && Fetched(job, After(job, s, ptrs, x).room, ptrs[x])
    requires forall y | 0 <= y < x :: !Fetched(job, After(job, s, ptrs, y).room, ptrs[y])
    ensures Uncovered(job, s, ptrs, 0, n, hi) <==> hi <= After(job, s, ptrs, x).room
  {
    hide After, Fetched;
    forall y | x <= y < n
      ensures After(job, s, ptrs, x).room <= After(job, s, ptrs, y).room
    {
      RoomsRise(job, s, ptrs, x, y);
    }
  }

  /** A list in the header, when the first string comes from ROM: nothing is copied over it exactly when it begins
      in the first 512 bytes, or where they end. */
  lemma HeaderListUncovered(job: Job, b: Bytes, ptr: u32, ptrs: seq<u32>, n: nat)
    requires 0 < n <= |ptrs| && InHeader(job, ptr) && Fetched(job, ListStep(job, b, ptr).room, ptrs[0])
    ensures Uncovered(job, ListStep(job, b, ptr), ptrs, 0, n, Offset(job, ptr) + 2 * Modes(job, b, ptr) + 2)
            <==> Offset(job, ptr) <= DATA
  {
    hide After, Modes, Addr;
    AfterNone(job, ListStep(job, b, ptr), ptrs);
    UncoveredIff(job, ListStep(job, b, ptr), ptrs, n, 0, Offset(job, ptr) + 2 * Modes(job, b, ptr) + 2);
  }

  /** The mode list step stores at i. */
  predicate ListStores(job: Job, b: Bytes, ptr: u32, i: nat) {
    var k := Modes(job, b, ptr);
    if InHeader(job, ptr) then 0 <= i - Offset(job, ptr) - 2 * k < 2 else InRom(job, ptr) && DATA <= i < DATA + 2 * k + 2
  }

  /** What is at i after it. */
  function ListByte(job: Job, b: Bytes, ptr: u32, i: nat): u8 {
    if !ListStores(job, b, ptr, i) then b(i)
    else if InRom(job, ptr) && DATA <= i < DATA + 2 * Modes(job, b, ptr) then job.rom(Addr(ptr) + (i - DATA))
    else 0xff
  }

  lemma ListByteIs(job: Job, b: Bytes, ptr: u32, i: nat)
    ensures ListStep(job, b, ptr).mem(i) == ListByte(job, b, ptr, i)
  {
    hide ModeCount, Addr, Offset, Copied;
    if InRom(job, ptr) {
      CopiedBytes(b, job.rom, Addr(ptr), Modes(job, b, ptr), i);
    }
  }

  lemma ListRoom(job: Job, b: Bytes, ptr: u32)
    requires InRom(job, ptr)
    ensures ListStep(job, b, ptr).room == ListField(job, ptr) + 2 * Modes(job, b, ptr) + 2
  {
  }

  predicate CutAt(job: Job, s: Packing, ptrs: seq<u32>, n: nat, i: nat)
    requires n <= |ptrs|
  {
    exists x | 0 <= x < n :: Cuts(job, After(job, s, ptrs, x), ptrs[x]) && CutPoint(job, ptrs[x]) == i
  }

  lemma CutAtIs(job: Job, s: Packing, ptrs: seq<u32>, n: nat, i: nat, hi: nat)
    requires n <= |ptrs| && i < hi && Uncovered(job, s, ptrs, 0, n, hi)
    ensures Zeroed(job, s, ptrs, 0, n, i) <==> CutAt(job, s, ptrs, n, i)
  {
    hide After, Cuts, CutPoint, Fetched;
    if CutAt(job, s, ptrs, n, i) {
      var x :| 0 <= x < n && Cuts(job, After(job, s, ptrs, x), ptrs[x]) && CutPoint(job, ptrs[x]) == i;
      assert Zeroes(job, After(job, s, ptrs, x), ptrs[x], i);
    }
  }

  lemma CutAtMany(job: Job, s: Packing, ptrs: seq<u32>, n: nat, lo: nat, hi: nat)
    requires n <= |ptrs|
    ensures (forall i: nat | lo <= i < hi && CutAt(job, s, ptrs, n, i) :: s.mem(i) == 0)
            <==> forall x | 0 <= x < n && Cuts(job, After(job, s, ptrs, x), ptrs[x]) && lo <= CutPoint(job, ptrs[x]) < hi
                   :: s.mem(CutPoint(job, ptrs[x])) == 0
  {
    hide After, Cuts, CutPoint;
    forall x | 0 <= x < n && Cuts(job, After(job, s, ptrs, x), ptrs[x]) && lo <= CutPoint(job, ptrs[x]) < hi
      ensures CutAt(job, s, ptrs, n, CutPoint(job, ptrs[x]))
    {
    }
  }

  // --- Strings in the header, against the block as it was received

  /** Nothing is copied or stored by the list on the bytes from lo to hi - 1. */
  predicate Clear(job: Job, b: Bytes, ptr: u32, ptrs: seq<u32>, n: nat, lo: nat, hi: nat)
    requires n <= |ptrs|
  {
    Uncovered(job, ListStep(job, b, ptr), ptrs, 0, n, hi) && forall i: nat | lo <= i < hi :: !ListStores(job, b, ptr, i)
  }

  /** Below the data area only the terminator of a list in the header is stored. */
  lemma ClearBelowData(job: Job, b: Bytes, ptr: u32, ptrs: seq<u32>, n: nat, lo: nat, hi: nat)
    requires n <= |ptrs| && hi <= DATA && !InHeader(job, ptr)
    ensures Clear(job, b, ptr, ptrs, n, lo, hi)
  {
    hide Modes, After, ListStep;
    ListRoomLow(job, b, ptr);
    UncoveredData(job, ListStep(job, b, ptr), ptrs, 0, n, hi);
  }

  /** The list or one of the strings is stored over i. */
  predicate Overwritten(job: Job, b: Bytes, ptr: u32, ptrs: seq<u32>, n: nat, i: nat)
    requires n <= |ptrs|
  {
    ListStores(job, b, ptr, i) || exists x | 0 <= x < n :: Writes(job, After(job, ListStep(job, b, ptr), ptrs, x), ptrs[x], i)
  }

  predicate Writes(job: Job, p: Packing, ptr: u32, i: nat) { Covers(job, p, ptr, i) || (Spills(job, p, ptr) && i == job.len) }

  /** Up to the end of the header, what is not overwritten stays as it was in the block; at the end a cut may put
      a zero. */
  lemma BlockByte(job: Job, b: Bytes, ptr: u32, ptrs: seq<u32>, m: nat, n: nat, i: nat)
    requires m <= n <= |ptrs| && i <= job.ibSize && !Overwritten(job, b, ptr, ptrs, n, i)
    ensures var c := After(job, ListStep(job, b, ptr), ptrs, m).mem; c(i) == b(i) || (i == job.ibSize && c(i) == 0)
  {
    hide After, CutPoint, ListStep, ListStores, Spills, Addr, Covers;
    var s := ListStep(job, b, ptr);
    ListByteIs(job, b, ptr, i);
    AfterNone(job, s, ptrs);
    forall x | 0 <= x < m
      ensures !Covers(job, After(job, s, ptrs, x), ptrs[x], i)
      ensures i < job.ibSize ==> !Zeroes(job, After(job, s, ptrs, x), ptrs[x], i)
    {
      assert !Writes(job, After(job, s, ptrs, x), ptrs[x], i);
      if InHeader(job, ptrs[x]) {
        CutPointIs(job, ptrs[x]);
      }
    }
    ByteStands(job, s, ptrs, 0, m, i);
  }

  lemma ClearKeeps(job: Job, b: Bytes, ptr: u32, ptrs: seq<u32>, n: nat, lo: nat, hi: nat, i: nat)
    requires n <= |ptrs| && Clear(job, b, ptr, ptrs, n, lo, hi) && lo <= i < hi
    ensures !Overwritten(job, b, ptr, ptrs, n, i)
  {
    hide After, ListStep, ListStores, Length, Addr;
  }

  /** The text of a string in the header, read from memory where it is unchanged. */
  lemma SameText(b: Bytes, c: Bytes, o: nat, n: nat)
    requires forall i: nat | o <= i < o + n && i <= o + Strnlen(b, o, n) :: c(i) == b(i)
    ensures Strnlen(c, o, n) == Strnlen(b, o, n)
  {
    hide Strnlen;
    StrnlenIs(c, o, n, Strnlen(b, o, n));
  }

  /** A string in the header of the block keeps its offset. It stands in the finished buffer exactly when what was
      stored over its bytes left them as they were and there is a zero after them; so when nothing was stored over
      it, up to its end. Then the code has also taken its length from the block. */
  lemma HeaderStringStands(job: Job, b: Bytes, ptr: u32, ptrs: seq<u32>, j: nat, n: nat)
    requires j < n <= |ptrs| && InHeader(job, ptrs[j]) && job.lbuf <= Addr(ptrs[j])
    ensures var s, o := ListStep(job, b, ptr), Offset(job, ptrs[j]);
            var t, c := Text(b, o, Span(job, ptrs[j])), After(job, s, ptrs, n).mem;
            && StringField(job, After(job, s, ptrs, j).room, ptrs[j]) == o == Addr(ptrs[j]) - job.lbuf
            && (StringAt(c, o, t)
                <==> c(o + |t|) == 0 && forall i: nat | o <= i < o + |t| && Overwritten(job, b, ptr, ptrs, n, i) :: c(i) == b(i))
            && (Clear(job, b, ptr, ptrs, n, o, o + |t| + 1) ==>
                  StringAt(c, o, t) && After(job, s, ptrs, j + 1).room == After(job, s, ptrs, j).room + |t|)
  {
    hide After, Addr, StringStep, ListStep, Overwritten, Clear, Strnlen;
    var s, o := ListStep(job, b, ptr), Offset(job, ptrs[j]);
    var t, c := Text(b, o, Span(job, ptrs[j])), After(job, s, ptrs, n).mem;
    HeaderOffset(job, ptrs[j]);
    forall i: nat | o <= i < o + |t| && !Overwritten(job, b, ptr, ptrs, n, i)
      ensures c(i) == b(i)
    {
      BlockByte(job, b, ptr, ptrs, n, n, i);
    }
    assert StringAt(c, o, t) <==> c(o + |t|) == 0 && forall i: nat | o <= i < o + |t| :: c(i) == b(i) by {
      SameBytes(b, c, o, |t|);
    }
    if Clear(job, b, ptr, ptrs, n, o, o + |t| + 1) {
      HeaderTextKept(job, b, ptr, ptrs, j, n);
    }
  }

  lemma SameBytes(b: Bytes, c: Bytes, o: nat, l: nat)
    ensures StringAt(c, o, Slice(b, o, l)) <==> c(o + l) == 0 && forall i: nat | o <= i < o + l :: c(i) == b(i)
  {
    if StringAt(c, o, Slice(b, o, l)) {
      forall i: nat | o <= i < o + l
        ensures c(i) == b(i)
      {
        assert c(o + (i - o)) == Slice(b, o, l)[i - o];
      }
    }
  }

  lemma HeaderTextKept(job: Job, b: Bytes, ptr: u32, ptrs: seq<u32>, j: nat, n: nat)
    requires j < n <= |ptrs| && InHeader(job, ptrs[j]) && job.lbuf <= Addr(ptrs[j])
    requires var o := Offset(job, ptrs[j]); Clear(job, b, ptr, ptrs, n, o, o + Strnlen(b, o, Span(job, ptrs[j])) + 1)
    ensures var s, o := ListStep(job, b, ptr), Offset(job, ptrs[j]);
            var l, p := Strnlen(b, o, Span(job, ptrs[j])), After(job, s, ptrs, j);
            && Strnlen(p.mem, o, Span(job, ptrs[j])) == l && After(job, s, ptrs, j + 1).room == p.room + l
            && After(job, s, ptrs, n).mem(o + l) == 0 && forall i: nat | o <= i < o + l :: After(job, s, ptrs, n).mem(i) == b(i)
  {
    hide After, Addr, StringStep, ListStep, Overwritten, Clear, Strnlen;
    var s, o := ListStep(job, b, ptr), Offset(job, ptrs[j]);
    var l, p := Strnlen(b, o, Span(job, ptrs[j])), After(job, s, ptrs, j);
    HeaderOffset(job, ptrs[j]);
    forall i: nat | o <= i <= o + l
      ensures !Overwritten(job, b, ptr, ptrs, n, i)
    {
      ClearKeeps(job, b, ptr, ptrs, n, o, o + l + 1, i);
    }
    forall i: nat | o <= i <= o + l && i < job.ibSize
      ensures p.mem(i) == b(i) == After(job, s, ptrs, n).mem(i)
    {
      BlockByte(job, b, ptr, ptrs, j, n, i);
      BlockByte(job, b, ptr, ptrs, n, n, i);
    }
    SameText(b, p.mem, o, Span(job, ptrs[j]));
    AfterNext(job, s, ptrs, j);
    HeaderRoom(job, p, ptrs[j]);
    if l == Span(job, ptrs[j]) {
      StepTerminates(job, p, ptrs[j]);
      ClearUncovered(job, b, ptr, ptrs, j + 1, n, o, o + l + 1);
      HeaderByte(job, s, ptrs, j + 1, n, o + l + 1, o + l);
    }
  }

  lemma ClearUncovered(job: Job, b: Bytes, ptr: u32, ptrs: seq<u32>, m: nat, n: nat, lo: nat, hi: nat)
    requires n <= |ptrs| && Clear(job, b, ptr, ptrs, n, lo, hi)
    ensures Uncovered(job, ListStep(job, b, ptr), ptrs, m, n, hi)
  {
    hide After, ListStep;
  }

  // --- Past the end of the buffer

  /** The mode list puts half of its terminator, or all of it, at i, past the end. */
  predicate ListMarks(job: Job, b: Bytes, ptr: u32, i: nat) { i >= job.len && ListStores(job, b, ptr, i) }

  lemma ListPastEnd(job: Job, b: Bytes, ptr: u32, i: nat)
    requires i >= job.len
    ensures ListStep(job, b, ptr).mem(i) == if ListMarks(job, b, ptr, i) then 0xff else b(i)
  {
    hide ModeCount, Addr, Offset, ListStep;
    ListByteIs(job, b, ptr, i);
  }

  /** Every byte past the end, after the whole packing. */
  lemma PastEnd(job: Job, b: Bytes, ptr: u32, ptrs: seq<u32>, n: nat, i: nat)
    requires n <= |ptrs| && i >= job.len
    ensures var s := ListStep(job, b, ptr);
            After(job, s, ptrs, n).mem(i)
            == if Zeroed(job, s, ptrs, 0, n, i) then 0 else if ListMarks(job, b, ptr, i) then 0xff else b(i)
  {
    hide Modes, StringStep, ListStep, ListMarks;
    var s := ListStep(job, b, ptr);
    ByteStands(job, s, ptrs, 0, n, i);
    AfterNone(job, s, ptrs);
    ListPastEnd(job, b, ptr, i);
  }

  /** The list and its terminator end inside the buffer. */
  predicate ListFits(job: Job, b: Bytes, ptr: u32) {
    var end := 2 * Modes(job, b, ptr) + 2;
    if InHeader(job, ptr) then Offset(job, ptr) + end <= job.len else InRom(job, ptr) ==> DATA + end <= job.len
  }

  /** Everything that is stored is stored inside the buffer: the mode list fits, a string in the header that has
      to be cut is cut inside, and no string from ROM fills the room. */
  predicate Contained(job: Job, b: Bytes, ptr: u32, ptrs: seq<u32>, n: nat)
    requires n <= |ptrs|
  {
    && ListFits(job, b, ptr)
    && forall x | 0 <= x < n ::
         var p := After(job, ListStep(job, b, ptr), ptrs, x);
         (Cuts(job, p, ptrs[x]) ==> CutPoint(job, ptrs[x]) < job.len) && !Spills(job, p, ptrs[x])
  }

  ghost predicate Kept(b: Bytes, c: Bytes, len: int) { forall i: nat | i >= len :: c(i) == b(i) }

  /** Whatever is stored past the end was there already: 0 where terminators of strings go, 0xff where the list
      runs over. */
  ghost predicate Unaltered(job: Job, b: Bytes, ptr: u32, ptrs: seq<u32>, n: nat)
    requires n <= |ptrs|
  {
    forall i: nat | i >= job.len ::
      if Zeroed(job, ListStep(job, b, ptr), ptrs, 0, n, i) then b(i) == 0 else ListMarks(job, b, ptr, i) ==> b(i) == 0xff
  }

  /** What lies past the end of the buffer is kept exactly when nothing stored there alters it; so if the packing
      is contained, and otherwise some byte there becomes 0 or 0xff. */
  lemma KeptIff(job: Job, b: Bytes, ptr: u32, ptrs: seq<u32>, n: nat)
    requires n <= |ptrs|
    ensures var c := After(job, ListStep(job, b, ptr), ptrs, n).mem;
            && (Contained(job, b, ptr, ptrs, n) ==> Kept(b, c, job.len))
            && (!Contained(job, b, ptr, ptrs, n) ==> exists i: nat :: i >= job.len && (c(i) == 0 || c(i) == 0xff))
            && (Kept(b, c, job.len) <==> Unaltered(job, b, ptr, ptrs, n))
  {
    hide After, Modes, ListStep, Offset, ListFits;
    var s := ListStep(job, b, ptr);
    var c := After(job, s, ptrs, n).mem;
    forall i: nat | i >= job.len
      ensures c(i) == if Zeroed(job, s, ptrs, 0, n, i) then 0 else if ListMarks(job, b, ptr, i) then 0xff else b(i)
    {
      PastEnd(job, b, ptr, ptrs, n, i);
    }
    if Contained(job, b, ptr, ptrs, n) {
      forall i: nat | i >= job.len
        ensures c(i) == b(i)
      {
        PastEnd(job, b, ptr, ptrs, n, i);
        FitsUnmarked(job, b, ptr, i);
        forall x | 0 <= x < n
          ensures !Zeroes(job, After(job, s, ptrs, x), ptrs[x], i)
        {
        }
      }
    } else {
      var i := Stray(job, b, ptr, ptrs, n);
      PastEnd(job, b, ptr, ptrs, n, i);
    }
  }

  lemma FitsUnmarked(job: Job, b: Bytes, ptr: u32, i: nat)
    ensures ListFits(job, b, ptr) ==> !ListMarks(job, b, ptr, i)
  {
    hide Modes, Offset, Addr;
  }

  /** A byte past the end that an uncontained packing sets. */
  lemma Stray(job: Job, b: Bytes, ptr: u32, ptrs: seq<u32>, n: nat) returns (i: nat)
    requires n <= |ptrs| && !Contained(job, b, ptr, ptrs, n)
    ensures i >= job.len && (ListMarks(job, b, ptr, i) || Zeroed(job, ListStep(job, b, ptr), ptrs, 0, n, i))
  {
    hide Modes, Offset, Addr, ListStep, After, Cuts, CutPoint;
    if !ListFits(job, b, ptr) {
      i := if InHeader(job, ptr) then Offset(job, ptr) + 2 * Modes(job, b, ptr) + 1 else DATA + 2 * Modes(job, b, ptr) + 1;
    } else {
      var s := ListStep(job, b, ptr);
      var x :| 0 <= x < n && var p := After(job, s, ptrs, x);
                             (Cuts(job, p, ptrs[x]) && CutPoint(job, ptrs[x]) >= job.len) || Spills(job, p, ptrs[x]);
      i := if Spills(job, After(job, s, ptrs, x), ptrs[x]) then job.len else CutPoint(job, ptrs[x]);
      assert Zeroes(job, After(job, s, ptrs, x), ptrs[x], i);
    }
  }

  // --- In terms of the block and of ROM alone

  /** Every string in the header ends below the data area, and the list puts no terminator into it. */
  predicate Plain(job: Job, b: Bytes, ptr: u32, ptrs: seq<u32>) {
    forall j | 0 <= j < |ptrs| && InHeader(job, ptrs[j]) ::
      var o := Offset(job, ptrs[j]);
      var hi := o + Strnlen(b, o, Span(job, ptrs[j])) + 1;
      job.lbuf <= Addr(ptrs[j]) && hi <= DATA && forall i: nat | o <= i < hi :: !ListStores(job, b, ptr, i)
  }

  /** Where string j's room begins, from the lengths of the strings before it. */
  function PlainRoom(job: Job, b: Bytes, ptr: u32, ptrs: seq<u32>, j: nat): nat
    requires j <= |ptrs|
    decreases j, ptrs
  {
    if j == 0 then ListStep(job, b, ptr).room
    else
      var r, q := PlainRoom(job, b, ptr, ptrs, j - 1), ptrs[j - 1];
      if InHeader(job, q) then r + Strnlen(b, Offset(job, q), Span(job, q))
      else if Fetched(job, r, q) then r + Strnlen(job.rom, Addr(q), job.len - r) + 1
      else r
  }

  lemma PlainText(job: Job, b: Bytes, ptr: u32, ptrs: seq<u32>, j: nat)
    requires j < |ptrs| && Plain(job, b, ptr, ptrs) && InHeader(job, ptrs[j])
    ensures var o, n := Offset(job, ptrs[j]), Span(job, ptrs[j]);
            Strnlen(After(job, ListStep(job, b, ptr), ptrs, j).mem, o, n) == Strnlen(b, o, n)
    ensures CutPoint(job, ptrs[j]) == job.ibSize
  {
    hide After, ListStep, ListStores, Strnlen, Addr, Offset, Span;
    var o := Offset(job, ptrs[j]);
    var hi := o + Strnlen(b, o, Span(job, ptrs[j])) + 1;
    ListRoomLow(job, b, ptr);
    UncoveredData(job, ListStep(job, b, ptr), ptrs, 0, |ptrs|, hi);
    HeaderTextKept(job, b, ptr, ptrs, j, |ptrs|);
    CutPointIs(job, ptrs[j]);
  }

  lemma {:induction false} PlainRoomIs(job: Job, b: Bytes, ptr: u32, ptrs: seq<u32>, j: nat)
    requires j <= |ptrs| && Plain(job, b, ptr, ptrs)
    ensures After(job, ListStep(job, b, ptr), ptrs, j).room == PlainRoom(job, b, ptr, ptrs, j)
    decreases j
  {
    hide ListStep, Strnlen, Addr, Offset, Span, Plain, Terminated, Strncpy, CutPoint;
    if j != 0 {
      PlainRoomIs(job, b, ptr, ptrs, j - 1);
      if InHeader(job, ptrs[j - 1]) {
        PlainText(job, b, ptr, ptrs, j - 1);
      }
    }
  }

  /** For such a block, whether anything is stored past the end can be told from the block, from ROM and from the
      pointers: the list must fit, a string that reaches the end of the header must do so before the end of the
      buffer, and each string from ROM must have its zero in the room it finds. */
  lemma PlainContained(job: Job, b: Bytes, ptr: u32, ptrs: seq<u32>)
    requires Plain(job, b, ptr, ptrs)
    ensures Contained(job, b, ptr, ptrs, |ptrs|)
            <==> && ListFits(job, b, ptr)
                 && forall j | 0 <= j < |ptrs| ::
                      var q, r := ptrs[j], PlainRoom(job, b, ptr, ptrs, j);
                      && (InHeader(job, q) && Strnlen(b, Offset(job, q), Span(job, q)) == Span(job, q) ==> job.ibSize < job.len)
                      && (Fetched(job, r, q) ==> Strnlen(job.rom, Addr(q), job.len - r) < job.len - r)
  {
    hide ListStep, Strnlen, Addr, Offset, Span, Plain, After, CutPoint, ListFits, PlainRoom;
    forall j | 0 <= j < |ptrs|
      ensures var p, q := After(job, ListStep(job, b, ptr), ptrs, j), ptrs[j];
              var r := PlainRoom(job, b, ptr, ptrs, j);
              && (Cuts(job, p, q) <==> InHeader(job, q) && Strnlen(b, Offset(job, q), Span(job, q)) == Span(job, q))
              && (Spills(job, p, q) <==> Fetched(job, r, q) && Strnlen(job.rom, Addr(q), job.len - r) == job.len - r)
              && (InHeader(job, q) ==> CutPoint(job, q) == job.ibSize)
    {
      PlainRoomIs(job, b, ptr, ptrs, j);
      if InHeader(job, ptrs[j]) {
        PlainText(job, b, ptr, ptrs, j);
      }
    }
  }

  // --- The whole block

  /** What becomes of string j of the block b: its offset in the finished buffer c, where the next room begins,
      and whether it stands there, with its bytes in b if it is in the header. */
  ghost predicate Settled(job: Job, b: Bytes, ptr: u32, ptrs: seq<u32>, j: nat, n: nat, c: Bytes, name: int)
    requires j < n <= |ptrs|
  {
    var s := ListStep(job, b, ptr);
    var p := After(job, s, ptrs, j);
    var next := After(job, s, ptrs, j + 1).room;
    if InHeader(job, ptrs[j]) then
      && 0 <= name && Addr(ptrs[j]) == (job.lbuf + name) % 0x1_0000_0000
      && next == p.room + Strnlen(p.mem, name, Span(job, ptrs[j]))
      && (job.lbuf <= Addr(ptrs[j]) ==>
            var t := Text(b, name, Span(job, ptrs[j]));
            && (StringAt(c, name, t)
                <==> c(name + |t|) == 0
                     && forall i: nat | name <= i < name + |t| && Overwritten(job, b, ptr, ptrs, n, i) :: c(i) == b(i))
            && (Clear(job, b, ptr, ptrs, n, name, name + |t| + 1) ==> StringAt(c, name, t) && next == p.room + |t|))
    else if Fetched(job, p.room, ptrs[j]) then
      var t := Text(job.rom, Addr(ptrs[j]), job.len - p.room);
      && name == p.room && next == p.room + |t| + 1
      && (StringAt(c, p.room, t) <==> !Struck(job, s, ptrs, j + 1, n, p.room, p.room + |t|))
    else
      name == 0 && next == p.room
  }

  lemma AllSettled(job: Job, b: Bytes, ptr: u32, ptrs: seq<u32>, j: nat, n: nat)
    requires j < n <= |ptrs|
    ensures var s := ListStep(job, b, ptr);
            Settled(job, b, ptr, ptrs, j, n, After(job, s, ptrs, n).mem, StringField(job, After(job, s, ptrs, j).room, ptrs[j]))
  {
    hide After, Text, Addr, Struck, StringAt, ListStep, Overwritten, Clear, Strnlen;
    var s := ListStep(job, b, ptr);
    OffsetBack(job, ptrs[j]);
    AfterNext(job, s, ptrs, j);
    if InHeader(job, ptrs[j]) {
      HeaderRoom(job, After(job, s, ptrs, j), ptrs[j]);
      if job.lbuf <= Addr(ptrs[j]) {
        HeaderStringStands(job, b, ptr, ptrs, j, n);
      }
    } else if Fetched(job, After(job, s, ptrs, j).room, ptrs[j]) {
      RomStringStands(job, s, ptrs, j, n);
    }
  }

  lemma InfoSettled(job: Job, b: Bytes, p: Pointers)
    ensures forall j | 0 <= j < 4 ::
              Settled(job, b, p.modes, p.Strings(), j, 4, Packed(job, b, p).mem, Fields(job, b, p).strings[j])
  {
    hide ListStep, StringStep, ListField, StringField, Settled, After;
    forall j | 0 <= j < 4
      ensures Settled(job, b, p.modes, p.Strings(), j, 4, Packed(job, b, p).mem, Fields(job, b, p).strings[j])
    {
      AllSettled(job, b, p.modes, p.Strings(), j, 4);
    }
  }

  /** Everything from the mode list to the last string: the offsets, where each string and the mode list stand
      and what breaks them, and what is kept past the end of the buffer. */
  method PackInfo(buf: Ram, job: Job, p: Pointers) returns (o: Offsets)
    modifies buf
    ensures buf.byte == Packed(job, old(buf.byte), p).mem && o == Fields(job, old(buf.byte), p)
    ensures forall j | 0 <= j < 4 ::
              Settled(job, old(buf.byte), p.modes, p.Strings(), j, 4, buf.byte, o.strings[j])
    ensures ListSettled(job, old(buf.byte), p.modes, p.Strings(), 4, buf.byte, o.modes)
    ensures Contained(job, old(buf.byte), p.modes, p.Strings(), 4) ==> Kept(old(buf.byte), buf.byte, job.len)
    ensures !Contained(job, old(buf.byte), p.modes, p.Strings(), 4) ==>
              exists i: nat :: i >= job.len && (buf.byte(i) == 0 || buf.byte(i) == 0xff)
  {
    hide ListStep, StringStep, ListField, StringField, Contained, Settled, ListSettled, Addr, StringAt, Strnlen, Text;
    ghost var b := buf.byte;
    ghost var s := ListStep(job, b, p.modes);
    FourSteps(job, s, p.Strings());
    var modes, cbuf, fsize := PackModes(buf, job, p.modes);
    var oem, vendor, product, rev;
    oem, cbuf, fsize := PackString(buf, job, p.oem, cbuf, fsize);
    vendor, cbuf, fsize := PackString(buf, job, p.vendor, cbuf, fsize);
    product, cbuf, fsize := PackString(buf, job, p.product, cbuf, fsize);
    rev, cbuf, fsize := PackString(buf, job, p.rev, cbuf, fsize);
    o := Offsets(modes, [oem, vendor, product, rev]);
    assert o == Fields(job, b, p);
    InfoSettled(job, b, p);
    ListAlwaysSettled(job, b, p.modes, p.Strings(), 4);
    KeptIff(job, b, p.modes, p.Strings(), 4);
  }

  lemma ListRoomLow(job: Job, b: Bytes, ptr: u32)
    ensures ListStep(job, b, ptr).room >= DATA
  {
  }

  // --- Where it goes wrong: concrete inputs

  /** Real-mode memory, or a buffer, without a zero byte. */
  function Letters(): (b: Bytes)
    ensures forall i: nat :: b(i) == 0x41
  {
    (i: nat) => 0x41
  }

  /** A pointer to nowhere usable: below video memory, above the buffer. */
  const NOWHERE: u32 := 0x9000_0000

  /** A ROM string at c000:0000. */
  const ROM_STRING: u32 := 0xc000_0000

  const LBUF: nat := 0x1_2100

  lemma Places(len: int, ibSize: nat, rom: Bytes)
    requires ibSize <= 0x400
    ensures var job := Job(len, LBUF, ibSize, rom);
            && !InHeader(job, NOWHERE) && !InRom(job, NOWHERE)
            && InRom(job, ROM_STRING) && Addr(ROM_STRING) == 0xc_0000
  {
  }

  lemma Addresses()
    ensures Addr(0) == 0 && Addr(0x1200_0400) == LBUF + 0x300
  {
  }

  lemma NoZeros(b: Bytes, o: nat, n: nat)
    requires forall i: nat :: b(i) != 0
    ensures Strnlen(b, o, n) == n
  {
    hide Strnlen;
    assert b(o + Strnlen(b, o, n)) != 0;
  }

  /** A string that fills the 512 bytes of room in a 1024-byte buffer zeroes the byte after the buffer, whatever
      that was. */
  lemma SpillWitness(b: Bytes)
    ensures var job := Job(1024, LBUF, 1024, Letters());
            var p := Pointers(NOWHERE, ROM_STRING, NOWHERE, NOWHERE, NOWHERE);
            Fields(job, b, p).strings[0] == DATA && Packed(job, b, p).mem(1024) == 0
  {
    hide After, Strnlen, Addr, ModeCount;
    var job := Job(1024, LBUF, 1024, Letters());
    var p := Pointers(NOWHERE, ROM_STRING, NOWHERE, NOWHERE, NOWHERE);
    var s := ListStep(job, b, p.modes);
    Places(1024, 1024, Letters());
    AfterNone(job, s, p.Strings());
    NoZeros(Letters(), 0xc_0000, 512);
    assert Zeroes(job, After(job, s, p.Strings(), 0), p.Strings()[0], 1024);
    PastEnd(job, b, p.modes, p.Strings(), 4, 1024);
  }

  /** A mode list that fills the room of a buffer of odd length has half of its terminator after the buffer. */
  lemma OddListWitness(b: Bytes)
    ensures var job := Job(515, LBUF, 512, Letters());
            ListStep(job, b, ROM_STRING).room == 516 && ListStep(job, b, ROM_STRING).mem(515) == 0xff
  {
    hide Addr, Copied;
    var job := Job(515, LBUF, 512, Letters());
    Places(515, 512, Letters());
    assert Word(Letters(), 0xc_0000) != 0xffff;
    assert Modes(job, b, ROM_STRING) == 1;
    ListPastEnd(job, b, ROM_STRING, 515);
  }

  /** A string in the header that is not terminated there: with the buffer as long as the header, the byte after
      the buffer is zeroed. */
  lemma CutWitness()
    ensures var job := Job(1024, LBUF, 1024, Letters());
            var p := Pointers(NOWHERE, 0x1200_0400, NOWHERE, NOWHERE, NOWHERE);
            Fields(job, Letters(), p).strings[0] == 0x300 && Packed(job, Letters(), p).mem(1024) == 0
  {
    hide After, Strnlen, ModeCount, Addr;
    var job := Job(1024, LBUF, 1024, Letters());
    var p := Pointers(NOWHERE, 0x1200_0400, NOWHERE, NOWHERE, NOWHERE);
    var s := ListStep(job, Letters(), p.modes);
    Addresses();
    Places(1024, 1024, Letters());
    AfterNone(job, s, p.Strings());
    NoZeros(Letters(), 0x300, 0x100);
    assert Zeroes(job, After(job, s, p.Strings(), 0), p.Strings()[0], 1024);
    PastEnd(job, Letters(), p.modes, p.Strings(), 4, 1024);
  }

  /** In a longer buffer the same cut falls into the string copied just before. */
  lemma StruckWitness(b: Bytes)
    ensures var job := Job(2000, LBUF, 1024, Letters());
            var p := Pointers(NOWHERE, ROM_STRING, 0x1200_0400, NOWHERE, NOWHERE);
            && Fields(job, b, p).strings[0] == DATA
            && !StringAt(Packed(job, b, p).mem, DATA, Text(Letters(), 0xc_0000, 2000 - DATA))
  {
    hide After, Strnlen, ModeCount, Strncpy, Terminated, Addr;
    var job := Job(2000, LBUF, 1024, Letters());
    var p := Pointers(NOWHERE, ROM_STRING, 0x1200_0400, NOWHERE, NOWHERE);
    var s := ListStep(job, b, p.modes);
    var ptrs := p.Strings();
    Places(2000, 1024, Letters());
    AfterNone(job, s, ptrs);
    AfterNext(job, s, ptrs, 0);
    NoZeros(Letters(), 0xc_0000, 2000 - DATA);
    var q := After(job, s, ptrs, 1);
    Addresses();
    StrnlenIs(q.mem, 0x300, 0x100, Strnlen(q.mem, 0x300, 0x100));
    RomStringStands(job, s, ptrs, 0, 4);
    assert Cuts(job, q, ptrs[1]);
    assert Struck(job, s, ptrs, 1, 4, DATA, DATA + 1488);
  }

  /** A mode list at 0x300 of the header is copied over by the first string from ROM; its offset stays. */
  lemma ListLostWitness(b: Bytes)
    requires Word(b, 0x300) == 0x0101 && Word(b, 0x302) == 0xffff
    ensures var job := Job(2000, LBUF, 1024, Letters());
            var p := Pointers(0x1200_0400, ROM_STRING, NOWHERE, NOWHERE, NOWHERE);
            var c := Packed(job, b, p).mem;
            Fields(job, b, p).modes == 0x300 && c(0x300) == c(0x301) == c(0x302) == c(0x303) == 0x41
  {
    hide After, Strnlen, Addr, ListStep, CopyByte, Modes, Letters;
    var job := Job(2000, LBUF, 1024, Letters());
    var p := Pointers(0x1200_0400, ROM_STRING, NOWHERE, NOWHERE, NOWHERE);
    var s := ListStep(job, b, p.modes);
    Places(2000, 1024, Letters());
    OneMode(job, b);
    forall i: nat | 0x300 <= i < 0x304
      ensures Packed(job, b, p).mem(i) == 0x41
    {
      FirstCopyStands(job, s, p.Strings(), i);
      LettersCopied(job, s, i);
    }
  }

  lemma OneMode(job: Job, b: Bytes)
    requires job == Job(2000, LBUF, 1024, Letters()) && Word(b, 0x300) == 0x0101 && Word(b, 0x302) == 0xffff
    ensures ListStep(job, b, 0x1200_0400).room == 516 && ListField(job, 0x1200_0400) == 0x300
  {
    hide Addr, ModeCount, Word, StoreWord, Letters;
    Addresses();
    assert Offset(job, 0x1200_0400) == 0x300;
    ModeCountIs(b, 0x300, 743, 1);
    assert Most(2000 - DATA) == 743;
  }

  lemma LettersCopied(job: Job, p: Packing, i: nat)
    requires job.rom == Letters() && Fetched(job, p.room, ROM_STRING) && p.room <= i < job.len
    ensures CopyByte(job, p, ROM_STRING, i) == 0x41
  {
    NoZeros(Letters(), Addr(ROM_STRING), job.len - p.room);
  }

  /** When only the first string does anything, what it copied stands. */
  lemma FirstCopyStands(job: Job, s: Packing, ptrs: seq<u32>, i: nat)
    requires |ptrs| == 4 && Covers(job, s, ptrs[0], i) && forall x | 1 <= x < 4 :: !InHeader(job, ptrs[x]) && !InRom(job, ptrs[x])
    ensures After(job, s, ptrs, 4).mem(i) == CopyByte(job, s, ptrs[0], i)
  {
    hide After, Strnlen, Addr, StringStep, CopyByte, Length;
    AfterNone(job, s, ptrs);
    LastCoverIs(job, s, ptrs, 4, i);
    EveryByte(job, s, ptrs, 4, i);
  }

  /** A string at 0x300 of the header is copied over by a mode list from ROM; its offset stays. */
  lemma StringLostWitness(b: Bytes)
    requires Text(b, 0x300, 0x100) == [0x42, 0x42, 0x42, 0x42]
    ensures var job := Job(2000, LBUF, 1024, Letters());
            var p := Pointers(ROM_STRING, 0x1200_0400, NOWHERE, NOWHERE, NOWHERE);
            Fields(job, b, p).strings[0] == 0x300 && Packed(job, b, p).mem(0x300) == 0x41
  {
    hide After, Strnlen, Addr, Copied;
    var job := Job(2000, LBUF, 1024, Letters());
    var p := Pointers(ROM_STRING, 0x1200_0400, NOWHERE, NOWHERE, NOWHERE);
    var s := ListStep(job, b, p.modes);
    Addresses();
    Places(2000, 1024, Letters());
    AfterNone(job, s, p.Strings());
    LettersList(job, b);
    EveryByte(job, s, p.Strings(), 4, 0x300);
    ListByteIs(job, b, p.modes, 0x300);
  }

  /** A list without a terminator fills the room. */
  lemma LettersList(job: Job, b: Bytes)
    requires job.rom == Letters() && InRom(job, ROM_STRING)
    ensures Modes(job, b, ROM_STRING) == Most(job.len - DATA)
  {
    ModeCountIs(Letters(), Addr(ROM_STRING), Most(job.len - DATA), Most(job.len - DATA));
  }

  /** A pointer below the buffer, as a null pointer is, is taken to lead into the header, and its offset leads
      past 2^32 less the buffer's address. It is an offset into the header exactly for the other pointers. */
  lemma OffsetInHeaderIff(job: Job, ptr: u32)
    requires InHeader(job, ptr) && job.lbuf + job.ibSize < 0x1_0000_0000
    ensures Offset(job, ptr) < job.ibSize <==> job.lbuf <= Addr(ptr)
    ensures job.lbuf > 0 ==> InHeader(job, 0) && Offset(job, 0) == 0x1_0000_0000 - job.lbuf
  {
    hide Addr;
    Addresses();
    var d := Addr(ptr) - job.lbuf;
    assert d < 0 ==> U32(d) == d + 0x1_0000_0000;
  }
}
