/** The byte string instructions MOVS, STOS, CMPS and SCAS with their repeat prefixes. */
module Strings {
  import opened Words
  import opened Machines
  import opened Arith

  // --- Data access

  /** get_data_segment: more than one override prefix is an error that selects segment 0. */
  function DataSegment(mode: Mode, seg: Seg): u16 {
    if mode.overrides == {} then (if mode.stackSeg then seg.ss else seg.ds)
    else if mode.overrides == {CS} then seg.cs
    else if mode.overrides == {DS} then seg.ds
    else if mode.overrides == {ES} then seg.es
    else if mode.overrides == {FS} then seg.fs
    else if mode.overrides == {GS} then seg.gs
    else if mode.overrides == {SS} then seg.ss
    else 0
  }

  /** ... and halts the machine. */
  function Checked(mode: Mode, intr: Intr): Intr {
    if exists a, b | a in mode.overrides && b in mode.overrides :: a != b then intr.(halted := true) else intr
  }

  /** At most one override prefix leaves the machine running, and it alone picks the segment, whatever the
      addressing mode would have picked; any two of them halt it. */
  lemma OverridesHalt(mode: Mode, intr: Intr, seg: Seg, s: SegName)
    ensures Checked(mode, intr) == intr <==> intr.halted || |mode.overrides| <= 1
    ensures |mode.overrides| == 1 && s in mode.overrides ==>
              DataSegment(mode, seg) == match s
                                        case CS => seg.cs
                                        case DS => seg.ds
                                        case ES => seg.es
                                        case FS => seg.fs
                                        case GS => seg.gs
                                        case SS => seg.ss
    ensures |mode.overrides| == 1 ==> DataSegment(mode.(stackSeg := !mode.stackSeg), seg) == DataSegment(mode, seg)
    ensures |mode.overrides| == 0 ==> DataSegment(mode, seg) == if mode.stackSeg then seg.ss else seg.ds
    ensures |mode.overrides| > 1 ==> DataSegment(mode, seg) == 0
  {
    var o := mode.overrides;
    if a :| a in o {
      var rest := o - {a};
      assert |rest| == |o| - 1;
      if b :| b in rest {
        assert a != b;
        assert |rest - {b}| == |rest| - 1;
      } else {
        assert o == {a};
      }
    }
  }

  // --- Registers of a state

  /** One step of one byte in the direction DF gives, modulo 2^16. */
  function Step16(x: u16, down: bool): u16 { Add16(x, if down then -1 else 1) }

  /** An offset after i steps. */
  function Off(x: u16, down: bool, i: nat): u16
    decreases i, x
  {
    if i == 0 then x else Step16(Off(x, down, i - 1), down)
  }

  lemma {:induction false} OffIs(x: u16, down: bool, i: nat)
    ensures Off(x, down, i) == U16(if down then x as int - i else x as int + i)
    decreases i
  {
    hide Step16, U16;
    OffStart(x);
    if i != 0 {
      OffIs(x, down, i - 1);
      StepIs(if down then x as int - (i - 1) else x as int + (i - 1), down);
    }
  }

  lemma OffStart(x: u16)
    ensures U16(x) == x
  {
  }

  lemma StepIs(y: int, down: bool)
    ensures Step16(U16(y), down) == U16(if down then y - 1 else y + 1)
  {
  }

  lemma {:induction false} OffNext(x: u16, down: bool, i: nat)
    ensures Off(Step16(x, down), down, i) == Off(x, down, i + 1)
    decreases i
  {
    if i != 0 {
      OffNext(x, down, i - 1);
    }
  }

  lemma OffDistinct(x: u16, down: bool, i: nat, j: nat)
    requires i < j < i + 0x1_0000
    ensures Off(x, down, i) != Off(x, down, j)
  {
    OffIs(x, down, i);
    OffIs(x, down, j);
  }

  /** The registers after n elements: CX counted down, DI (and SI, if the instruction reads a source) advanced. */
  function MovedSpc(r: Spc, down: bool, source: bool, n: nat): Spc {
    var spc := if source then r.(esi := r.esi.(lo := Off(r.esi.lo, down, n))) else r;
    spc.(edi := r.edi.(lo := Off(r.edi.lo, down, n)))
  }

  function Moved(s: State, source: bool, n: nat): (t: State)
    requires n <= s.gen.ecx.lo
  {
    s.(gen := s.gen.(ecx := s.gen.ecx.(lo := s.gen.ecx.lo - n)), spc := MovedSpc(s.spc, s.flags.ctl.df, source, n))
  }

  lemma MovedSpcNext(r: Spc, down: bool, source: bool, n: nat)
    ensures MovedSpc(r, down, source, 0) == r
    ensures MovedSpc(MovedSpc(r, down, source, 1), down, source, n) == MovedSpc(r, down, source, n + 1)
  {
    hide Step16;
    OffOnce(r.esi.lo, down, n);
    OffOnce(r.edi.lo, down, n);
  }

  lemma OffOnce(x: u16, down: bool, n: nat)
    ensures Off(x, down, 1) == Step16(x, down) && Off(Off(x, down, 1), down, n) == Off(x, down, n + 1)
  {
    hide Step16;
    OffNext(x, down, n);
  }

  /** Where SI and DI point, with the segments they go with. */
  function Src(s: State): Address { Linear(DataSegment(s.mode, s.seg), s.spc.esi.lo) }

  function Dst(s: State): Address { Linear(s.seg.es, s.spc.edi.lo) }

  /** The addresses of n bytes along a segment. */
  function Along(seg: u16, x: u16, down: bool, n: nat): (at: seq<Address>)
    ensures |at| == n
  {
    seq(n, i requires 0 <= i < n => Linear(seg, Off(x, down, i)))
  }

  function Srcs(s: State, n: nat): seq<Address> { Along(DataSegment(s.mode, s.seg), s.spc.esi.lo, s.flags.ctl.df, n) }

  function Dsts(s: State, n: nat): seq<Address> { Along(s.seg.es, s.spc.edi.lo, s.flags.ctl.df, n) }

  lemma AlongNext(seg: u16, x: u16, down: bool, n: nat)
    ensures Along(seg, x, down, n + 1) == [Linear(seg, x) as Address] + Along(seg, Off(x, down, 1), down, n)
  {
    hide Off, Linear;
    OffNone(x, down);
    forall i | 0 <= i < n
      ensures Off(Off(x, down, 1), down, i) == Off(x, down, i + 1)
    {
      OffOnce(x, down, i);
    }
  }

  lemma OffNone(x: u16, down: bool)
    ensures Off(x, down, 0) == x
  {
  }

  predicate Distinct(at: seq<Address>) { forall i, j | 0 <= i < j < |at| :: at[i] != at[j] }

  lemma AlongDistinct(seg: u16, x: u16, down: bool, n: nat)
    requires n <= 0x1_0000
    ensures Distinct(Along(seg, x, down, n))
  {
    hide Off;
    forall i, j | 0 <= i < j < n
      ensures Linear(seg, Off(x, down, i)) != Linear(seg, Off(x, down, j))
    {
      OffDistinct(x, down, i, j);
    }
  }

  // --- One element, as the SDM gives it

  function Advance(s: State, source: bool): State { s.(spc := MovedSpc(s.spc, s.flags.ctl.df, source, 1)) }

  function MovsElement(s: State): State {
    Advance(s.(mem := s.mem[Dst(s) := s.mem[Src(s)]], intr := Checked(s.mode, s.intr)), true)
  }

  function StosElement(s: State): State { Advance(s.(mem := s.mem[Dst(s) := s.gen.eax.Byte()]), false) }

  /** What is compared with what. */
  datatype Scan = Cmps | Scas

  function Left(k: Scan, s: State): u8 { if k.Cmps? then s.mem[Src(s)] else s.gen.eax.Byte() }

  function ScanElement(k: Scan, s: State): State {
    Advance(s.(flags := SubFlags8(Left(k, s), s.mem[Dst(s)], s.flags),
               intr := if k.Cmps? then Checked(s.mode, s.intr) else s.intr), k.Cmps?)
  }

  /** The flags CMP leaves for two bytes. */
  function SubFlags8(d: u8, s: u8, f: Flags): Flags {
    assert Pow2(8) == 0x100;
    SubFlags(8, d, s, 0, f)
  }

  // --- Repetition, as the SDM gives it: test CX, do one element, count down

  function CountDown(s: State): State
    requires s.gen.ecx.lo != 0
  {
    s.(gen := s.gen.(ecx := s.gen.ecx.(lo := s.gen.ecx.lo - 1)))
  }

  function RepMovs(s: State): State
    decreases s.gen.ecx.lo
  {
    if s.gen.ecx.lo == 0 then s else RepMovs(CountDown(MovsElement(s)))
  }

  function RepStos(s: State): State
    decreases s.gen.ecx.lo
  {
    if s.gen.ecx.lo == 0 then s else RepStos(CountDown(StosElement(s)))
  }

  /** REPE (eq) or REPNE (!eq). */
  function RepScan(k: Scan, eq: bool, s: State): State
    decreases s.gen.ecx.lo
  {
    if s.gen.ecx.lo == 0 then s
    else
      var t := CountDown(ScanElement(k, s));
      if t.flags.zf == eq then RepScan(k, eq, t) else t
  }

  // --- Copies in memory

  /** Memory after copying byte by byte, in order. */
  function CopyAll(m: Memory, from: seq<Address>, to: seq<Address>): Memory
    requires |from| == |to|
    decreases |to|
  {
    if to == [] then m else CopyAll(m[to[0] := m[from[0]]], from[1..], to[1..])
  }

  /** Memory after storing bytes, in order. */
  function StoreAll(m: Memory, to: seq<Address>, vs: seq<u8>): Memory
    requires |vs| == |to|
    decreases |to|
  {
    if to == [] then m else StoreAll(m[to[0] := vs[0]], to[1..], vs[1..])
  }

  function BytesAt(m: Memory, from: seq<Address>): (vs: seq<u8>)
    ensures |vs| == |from|
  {
    seq(|from|, i requires 0 <= i < |from| => m[from[i]])
  }

  /** No byte is overwritten before it is read. */
  predicate SourceKept(from: seq<Address>, to: seq<Address>)
    requires |from| == |to|
  {
    forall i, j | 0 <= j < i < |from| :: from[i] != to[j]
  }

  /** t is m with the bytes vs stored at the addresses, and no other change. */
  predicate Written(m: Memory, t: Memory, to: seq<Address>, vs: seq<u8>)
    requires |to| == |vs|
  {
    (forall i | 0 <= i < |to| :: t[to[i]] == vs[i]) && (forall a | 0 <= a < MEM_SIZE && a !in to :: t[a] == m[a])
  }

  /** A copy that keeps its source stores what was there to begin with. */
  lemma {:induction false} CopyStores(m: Memory, from: seq<Address>, to: seq<Address>)
    requires |from| == |to| && SourceKept(from, to)
    ensures CopyAll(m, from, to) == StoreAll(m, to, BytesAt(m, from))
    decreases |to|
  {
    if to != [] {
      var u := m[to[0] := m[from[0]]];
      forall i | 0 <= i < |to| - 1
        ensures u[from[1..][i]] == m[from[i + 1]]
      {
        assert from[i + 1] != to[0];
      }
      assert BytesAt(u, from[1..]) == BytesAt(m, from)[1..];
      CopyStores(u, from[1..], to[1..]);
    }
  }

  lemma {:induction false} StoresWritten(m: Memory, to: seq<Address>, vs: seq<u8>)
    requires |to| == |vs| && Distinct(to)
    ensures Written(m, StoreAll(m, to, vs), to, vs)
    decreases |to|
  {
    if to != [] {
      var u := m[to[0] := vs[0]];
      StoresWritten(u, to[1..], vs[1..]);
      WrittenNext(m, StoreAll(m, to, vs), to, vs);
    }
  }

  lemma WrittenNext(m: Memory, t: Memory, to: seq<Address>, vs: seq<u8>)
    requires |to| == |vs| > 0 && Distinct(to) && Written(m[to[0] := vs[0]], t, to[1..], vs[1..])
    ensures Written(m, t, to, vs)
  {
    assert to[0] !in to[1..];
    forall i | 0 <= i < |to|
      ensures t[to[i]] == vs[i]
    {
      if i > 0 {
        assert to[1..][i - 1] == to[i] && vs[1..][i - 1] == vs[i];
      }
    }
    assert to == [to[0]] + to[1..];
  }

  // --- What the repeated instructions do

  lemma CheckedTwice(mode: Mode, intr: Intr)
    ensures Checked(mode, Checked(mode, intr)) == Checked(mode, intr)
  {
  }

  /** REP MOVSB, whatever overlaps: the bytes copied one by one, CX 0, SI and DI moved by CX bytes. */
  lemma {:induction false} RepMovsIs(s: State)
    ensures var n := s.gen.ecx.lo;
            RepMovs(s) == Moved(s, true, n).(mem := CopyAll(s.mem, Srcs(s, n), Dsts(s, n)),
                                             intr := if n == 0 then s.intr else Checked(s.mode, s.intr))
    decreases s.gen.ecx.lo
  {
    hide Off, Linear, Checked, DataSegment, Along, MovedSpc;
    var n := s.gen.ecx.lo;
    var df := s.flags.ctl.df;
    MovedSpcNext(s.spc, df, true, if n == 0 then 0 else n - 1);
    if n != 0 {
      var u := CountDown(MovsElement(s));
      RepMovsIs(u);
      OnceIs(s.spc, df);
      AlongNext(DataSegment(s.mode, s.seg), s.spc.esi.lo, df, n - 1);
      AlongNext(s.seg.es, s.spc.edi.lo, df, n - 1);
      CheckedTwice(s.mode, s.intr);
    }
  }

  lemma OnceIs(r: Spc, down: bool)
    ensures MovedSpc(r, down, true, 1).esi.lo == Off(r.esi.lo, down, 1)
    ensures forall source :: MovedSpc(r, down, source, 1).edi.lo == Off(r.edi.lo, down, 1)
  {
  }

  /** REP MOVSB is a copy: if no source byte is overwritten before it is read, as when the ranges are disjoint,
      every destination byte gets its source byte and nothing else in memory changes. */
  lemma RepMovsCopies(s: State)
    ensures var n := s.gen.ecx.lo;
            SourceKept(Srcs(s, n), Dsts(s, n)) ==>
              Written(s.mem, RepMovs(s).mem, Dsts(s, n), BytesAt(s.mem, Srcs(s, n)))
    ensures var t, n := RepMovs(s), s.gen.ecx.lo;
            t == Moved(s, true, n).(mem := t.mem, intr := if n == 0 then s.intr else Checked(s.mode, s.intr))
  {
    hide RepMovs, Along, DataSegment, Moved, CopyAll, Written, SourceKept, Checked;
    var n := s.gen.ecx.lo;
    RepMovsIs(s);
    if SourceKept(Srcs(s, n), Dsts(s, n)) {
      CopyStores(s.mem, Srcs(s, n), Dsts(s, n));
      AlongDistinct(s.seg.es, s.spc.edi.lo, s.flags.ctl.df, n);
      StoresWritten(s.mem, Dsts(s, n), BytesAt(s.mem, Srcs(s, n)));
    }
  }

  function Fill(v: u8, n: nat): (vs: seq<u8>)
    ensures |vs| == n
  {
    seq(n, i => v)
  }

  lemma FillNext(v: u8, n: nat)
    ensures Fill(v, n + 1) == [v] + Fill(v, n)
  {
  }

  lemma {:induction false} RepStosIs(s: State)
    ensures var n := s.gen.ecx.lo;
            RepStos(s) == Moved(s, false, n).(mem := StoreAll(s.mem, Dsts(s, n), Fill(s.gen.eax.Byte(), n)))
    decreases s.gen.ecx.lo
  {
    hide Off, Linear, Along, MovedSpc, Fill, Reg.Byte;
    var n := s.gen.ecx.lo;
    var df := s.flags.ctl.df;
    MovedSpcNext(s.spc, df, false, if n == 0 then 0 else n - 1);
    if n != 0 {
      var u := CountDown(StosElement(s));
      RepStosIs(u);
      OnceIs(s.spc, df);
      AlongNext(s.seg.es, s.spc.edi.lo, df, n - 1);
      FillNext(s.gen.eax.Byte(), n - 1);
    }
  }

  /** REP STOSB fills CX bytes with AL and changes nothing else in memory. */
  lemma RepStosFills(s: State)
    ensures var n := s.gen.ecx.lo;
            Written(s.mem, RepStos(s).mem, Dsts(s, n), Fill(s.gen.eax.Byte(), n))
    ensures var t := RepStos(s); t == Moved(s, false, s.gen.ecx.lo).(mem := t.mem)
  {
    hide RepStos, Along, Moved, Written, Fill, Reg.Byte;
    var n := s.gen.ecx.lo;
    RepStosIs(s);
    AlongDistinct(s.seg.es, s.spc.edi.lo, s.flags.ctl.df, n);
    StoresWritten(s.mem, Dsts(s, n), Fill(s.gen.eax.Byte(), n));
  }

  // --- Scans

  /** How many pairs a repeated scan looks at: up to and including the first where equality is not eq. */
  function Examined(eq: bool, ls: seq<u8>, rs: seq<u8>): (e: nat)
    requires |ls| == |rs|
    ensures e <= |ls| && (e == 0 <==> ls == [])
    ensures forall i | 0 <= i < e - 1 :: (ls[i] == rs[i]) == eq
    ensures e < |ls| ==> (ls[e - 1] == rs[e - 1]) != eq
  {
    if ls == [] then 0 else if (ls[0] == rs[0]) != eq then 1 else 1 + Examined(eq, ls[1..], rs[1..])
  }

  lemma ExaminedNext(eq: bool, ls: seq<u8>, rs: seq<u8>)
    requires |ls| == |rs| > 0
    ensures Examined(eq, ls, rs) == if (ls[0] == rs[0]) != eq then 1 else 1 + Examined(eq, ls[1..], rs[1..])
  {
  }

  /** The bytes a scan of n elements would compare. */
  function Lefts(k: Scan, s: State, n: nat): (vs: seq<u8>)
    ensures |vs| == n
  {
    if k.Cmps? then BytesAt(s.mem, Srcs(s, n)) else Fill(s.gen.eax.Byte(), n)
  }

  function Rights(s: State, n: nat): (vs: seq<u8>)
    ensures |vs| == n
  {
    BytesAt(s.mem, Dsts(s, n))
  }

  lemma BytesNext(m: Memory, a: Address, from: seq<Address>)
    ensures BytesAt(m, [a] + from) == [m[a]] + BytesAt(m, from)
  {
  }

  /** The comparisons of the rest are those of the whole but the first. */
  lemma ComparedNext(k: Scan, s: State, u: State, n: nat)
    requires u == s.(gen := u.gen, flags := u.flags, intr := u.intr, spc := MovedSpc(s.spc, s.flags.ctl.df, k.Cmps?, 1))
    requires u.gen.eax == s.gen.eax && u.flags.ctl == s.flags.ctl
    ensures Lefts(k, s, n + 1) == [Left(k, s)] + Lefts(k, u, n)
    ensures Rights(s, n + 1) == [s.mem[Dst(s)]] + Rights(u, n)
  {
    hide Off, Linear, Along, MovedSpc, Fill, Reg.Byte, BytesAt, DataSegment;
    var df := s.flags.ctl.df;
    OnceIs(s.spc, df);
    AlongNext(s.seg.es, s.spc.edi.lo, df, n);
    BytesNext(s.mem, Dst(s), Dsts(u, n));
    if k.Cmps? {
      AlongNext(DataSegment(s.mode, s.seg), s.spc.esi.lo, df, n);
      BytesNext(s.mem, Src(s), Srcs(u, n));
    } else {
      FillNext(s.gen.eax.Byte(), n);
    }
  }

  lemma SubFlags8Last(d: u8, s: u8, e: u8, t: u8, f: Flags)
    ensures SubFlags8(d, s, SubFlags8(e, t, f)) == SubFlags8(d, s, f)
    ensures SubFlags8(d, s, f).zf == (d == s) && SubFlags8(d, s, f).ctl == f.ctl
  {
    hide Ones, EvenParity, Signed, FitsSigned;
    assert Pow2(8) == 0x100;
  }

  /** The state after e elements of a scan, the last of which compared l with r. */
  function Scanned(k: Scan, s: State, e: nat, l: u8, r: u8): State
    requires e <= s.gen.ecx.lo
  {
    Moved(s, k.Cmps?, e).(flags := SubFlags8(l, r, s.flags), intr := if k.Cmps? then Checked(s.mode, s.intr) else s.intr)
  }

  lemma ScannedNext(k: Scan, s: State, e: nat, l: u8, r: u8)
    requires e + 1 <= s.gen.ecx.lo
    ensures var u := CountDown(ScanElement(k, s));
            u == Scanned(k, s, 1, Left(k, s), s.mem[Dst(s)]) && Scanned(k, u, e, l, r) == Scanned(k, s, e + 1, l, r)
  {
    hide Checked, SubFlags8, Left, Dst, MovedSpc;
    SubFlags8Last(l, r, Left(k, s), s.mem[Dst(s)], s.flags);
    SubFlags8Last(Left(k, s), s.mem[Dst(s)], 0, 0, s.flags);
    MovedSpcNext(s.spc, s.flags.ctl.df, k.Cmps?, e);
    CheckedTwice(s.mode, s.intr);
  }

  /** REPE and REPNE scans stop at the first difference or match: CX, DI and (for CMPS) SI count the elements
      looked at, the flags are those of the last comparison, and memory is untouched. */
  lemma {:induction false} RepScanStops(k: Scan, eq: bool, s: State)
    ensures var n := s.gen.ecx.lo;
            var ls, rs := Lefts(k, s, n), Rights(s, n);
            var e := Examined(eq, ls, rs);
            RepScan(k, eq, s) == if n == 0 then s else Scanned(k, s, e, ls[e - 1], rs[e - 1])
    decreases s.gen.ecx.lo
  {
    hide Lefts, Rights, SubFlags8, Left, Dst, Examined, Scanned, ScanElement, CountDown;
    var n := s.gen.ecx.lo;
    if n != 0 {
      ScanStep(k, eq, s);
      var u := CountDown(ScanElement(k, s));
      ScanCounts(k, s);
      ScannedNext(k, s, 0, 0, 0);
      ComparedNext(k, s, u, n - 1);
      var ls, rs := Lefts(k, u, n - 1), Rights(u, n - 1);
      assert Lefts(k, s, n)[1..] == ls && Rights(s, n)[1..] == rs;
      ExaminedNext(eq, Lefts(k, s, n), Rights(s, n));
      if u.flags.zf == eq {
        RepScanStops(k, eq, u);
        ScanDone(k, eq, u);
        if n > 1 {
          var e := Examined(eq, ls, rs);
          ScannedNext(k, s, e, ls[e - 1], rs[e - 1]);
        }
      }
    }
  }

  /** What one counted element leaves as it was, and what ZF says. */
  lemma ScanCounts(k: Scan, s: State)
    requires s.gen.ecx.lo != 0
    ensures var u := CountDown(ScanElement(k, s));
            && u == s.(gen := u.gen, flags := u.flags, intr := u.intr, spc := MovedSpc(s.spc, s.flags.ctl.df, k.Cmps?, 1))
            && u.gen.eax == s.gen.eax && u.gen.ecx.lo == s.gen.ecx.lo - 1 && u.flags.ctl == s.flags.ctl
            && u.flags.zf == (Left(k, s) == s.mem[Dst(s)])
  {
    hide SubFlags8, Left, Dst, MovedSpc, Checked;
    SubFlags8Last(Left(k, s), s.mem[Dst(s)], 0, 0, s.flags);
  }

  // --- The same in terms of bytes, addresses and numbers

  lemma AlongIs(seg: u16, x: u16, down: bool, n: nat, i: nat)
    requires i < n
    ensures Along(seg, x, down, n)[i] as int == 16 * seg as int + (if down then x as int - i else x as int + i) % 0x1_0000
  {
    OffIs(x, down, i);
    LinearIs(seg, Off(x, down, i));
  }

  /** What is left of the registers after n elements. */
  lemma MovedIs(s: State, source: bool, n: nat)
    requires n <= s.gen.ecx.lo
    ensures var t, down := Moved(s, source, n), s.flags.ctl.df;
            && t.gen.ecx.lo as int == s.gen.ecx.lo - n
            && t.spc.edi.lo as int == (if down then s.spc.edi.lo as int - n else s.spc.edi.lo as int + n) % 0x1_0000
            && (source ==> t.spc.esi.lo as int == (if down then s.spc.esi.lo as int - n else s.spc.esi.lo as int + n) % 0x1_0000)
            && t == s.(gen := s.gen.(ecx := s.gen.ecx.(lo := t.gen.ecx.lo)),
                       spc := s.spc.(esi := s.spc.esi.(lo := t.spc.esi.lo), edi := s.spc.edi.(lo := t.spc.edi.lo)))
            && (!source ==> t.spc.esi == s.spc.esi)
  {
    hide Off;
    OffIs(s.spc.esi.lo, s.flags.ctl.df, n);
    OffIs(s.spc.edi.lo, s.flags.ctl.df, n);
  }

  /** REP MOVSB: byte i of CX at ES:DI is what byte i at the source segment and SI was, the registers moved. */
  lemma RepMovsBytes(s: State, i: nat)
    requires i < s.gen.ecx.lo && SourceKept(Srcs(s, s.gen.ecx.lo), Dsts(s, s.gen.ecx.lo))
    ensures var t, n, down := RepMovs(s), s.gen.ecx.lo, s.flags.ctl.df;
            var seg, si, di := DataSegment(s.mode, s.seg) as int, s.spc.esi.lo as int, s.spc.edi.lo as int;
            && t.mem[16 * s.seg.es as int + (if down then di - i else di + i) % 0x1_0000]
               == s.mem[16 * seg + (if down then si - i else si + i) % 0x1_0000]
            && t.gen.ecx.lo == 0 && t.spc.esi.lo as int == (if down then si - n else si + n) % 0x1_0000
            && t.spc.edi.lo as int == (if down then di - n else di + n) % 0x1_0000
  {
    hide RepMovs, Along, DataSegment, Moved, SourceKept, Checked;
    RepMovsCopies(s);
    MovedIs(s, true, s.gen.ecx.lo);
    AlongIs(DataSegment(s.mode, s.seg), s.spc.esi.lo, s.flags.ctl.df, s.gen.ecx.lo, i);
    AlongIs(s.seg.es, s.spc.edi.lo, s.flags.ctl.df, s.gen.ecx.lo, i);
  }

  /** REP STOSB: byte i of CX at ES:DI is the low byte of EAX. */
  lemma RepStosBytes(s: State, i: nat)
    requires i < s.gen.ecx.lo
    ensures var t, n, down, di := RepStos(s), s.gen.ecx.lo, s.flags.ctl.df, s.spc.edi.lo as int;
            && t.mem[16 * s.seg.es as int + (if down then di - i else di + i) % 0x1_0000] as int == s.gen.eax.Whole() % 0x100
            && t.gen.ecx.lo == 0 && t.spc.edi.lo as int == (if down then di - n else di + n) % 0x1_0000 && t.spc.esi == s.spc.esi
  {
    hide RepStos, Along, Moved;
    RepStosFills(s);
    MovedIs(s, false, s.gen.ecx.lo);
    AlongIs(s.seg.es, s.spc.edi.lo, s.flags.ctl.df, s.gen.ecx.lo, i);
    LowByte(s.gen.eax);
  }

  lemma LowByte(r: Reg)
    ensures r.Byte() as int == r.Whole() % 0x100
  {
  }

  /** MOVSB and STOSB without a prefix. */
  lemma OnceMeans(s: State)
    ensures var t, u, down := MovsElement(s), StosElement(s), s.flags.ctl.df;
            var a := 16 * s.seg.es as int + s.spc.edi.lo as int;
            && t.mem == s.mem[a := s.mem[16 * DataSegment(s.mode, s.seg) as int + s.spc.esi.lo as int]]
            && u.mem == s.mem[a := s.gen.eax.Whole() % 0x100] && t.gen == u.gen == s.gen && u.spc.esi == s.spc.esi
            && t.spc.esi.lo as int == (if down then s.spc.esi.lo as int - 1 else s.spc.esi.lo as int + 1) % 0x1_0000
            && t.spc.edi.lo as int == u.spc.edi.lo as int
               == (if down then s.spc.edi.lo as int - 1 else s.spc.edi.lo as int + 1) % 0x1_0000
  {
    hide Off, DataSegment, Checked;
    LowByte(s.gen.eax);
    OffIs(s.spc.esi.lo, s.flags.ctl.df, 1);
    OffIs(s.spc.edi.lo, s.flags.ctl.df, 1);
  }

  /** CMP of two bytes, flag by flag: CF orders them as unsigned numbers, SF against OF as signed ones. */
  lemma CompareFlags(l: u8, r: u8, f: Flags)
    ensures var g, d := SubFlags8(l, r, f), (l as int - r as int) % 0x100;
            && g.cf == (l < r) && g.zf == (l == r) && g.af == (l % 16 < r % 16)
            && g.sf == (d >= 0x80) && g.pf == EvenParity(d) && g.ctl == f.ctl
            && (g.sf != g.of) == ((if l < 0x80 then l as int else l as int - 0x100) < (if r < 0x80 then r as int else r as int - 0x100))
  {
    hide Ones, EvenParity;
    assert Pow2(8) == 0x100 && Pow2(7) == 0x80;
  }

  /** CMPSB and SCASB without a prefix: the byte at SI, or AL, against the byte at ES:DI. */
  lemma CompareMeans(k: Scan, s: State)
    ensures var t, down := ScanElement(k, s), s.flags.ctl.df;
            var l := if k.Cmps? then s.mem[16 * DataSegment(s.mode, s.seg) as int + s.spc.esi.lo as int] as int
                     else s.gen.eax.Whole() % 0x100;
            var r := s.mem[16 * s.seg.es as int + s.spc.edi.lo as int] as int;
            && t.flags.cf == (l < r) && t.flags.zf == (l == r) && t.flags.af == (l % 16 < r % 16)
            && t.flags.sf == ((l - r) % 0x100 >= 0x80) && t.flags.pf == EvenParity((l - r) % 0x100)
            && (t.flags.sf != t.flags.of) == ((if l < 0x80 then l else l - 0x100) < (if r < 0x80 then r else r - 0x100))
            && t.mem == s.mem && t.gen == s.gen
            && t.spc.edi.lo as int == (if down then s.spc.edi.lo as int - 1 else s.spc.edi.lo as int + 1) % 0x1_0000
            && t.spc.esi.lo as int == (if !k.Cmps? then s.spc.esi.lo as int
                                       else if down then s.spc.esi.lo as int - 1 else s.spc.esi.lo as int + 1) % 0x1_0000
  {
    hide Off, DataSegment, Checked, SubFlags8, EvenParity;
    LowByte(s.gen.eax);
    CompareFlags(Left(k, s), s.mem[Dst(s)], s.flags);
    OffIs(s.spc.esi.lo, s.flags.ctl.df, 1);
    OffIs(s.spc.edi.lo, s.flags.ctl.df, 1);
  }

  /** Byte i of a scan's operands. */
  lemma OperandsAre(k: Scan, s: State, n: nat, i: nat)
    requires i < n
    ensures var down, si, di := s.flags.ctl.df, s.spc.esi.lo as int, s.spc.edi.lo as int;
            && Lefts(k, s, n)[i] as int
               == (if k.Cmps? then s.mem[16 * DataSegment(s.mode, s.seg) as int + (if down then si - i else si + i) % 0x1_0000] as int
                   else s.gen.eax.Whole() % 0x100)
            && Rights(s, n)[i] == s.mem[16 * s.seg.es as int + (if down then di - i else di + i) % 0x1_0000]
  {
    hide Along, DataSegment;
    AlongIs(DataSegment(s.mode, s.seg), s.spc.esi.lo, s.flags.ctl.df, n, i);
    AlongIs(s.seg.es, s.spc.edi.lo, s.flags.ctl.df, n, i);
    LowByte(s.gen.eax);
  }

  /** The repeated scans: e elements were looked at, as CX, DI and SI say. The flags order the last two bytes
      compared; if it was not the last element of all, they are the first that differ (REPE) or match (REPNE). */
  lemma RepScanMeans(k: Scan, eq: bool, s: State)
    requires s.gen.ecx.lo > 0
    ensures var t, n, down, si, di := RepScan(k, eq, s), s.gen.ecx.lo, s.flags.ctl.df, s.spc.esi.lo as int, s.spc.edi.lo as int;
            var e := n - t.gen.ecx.lo;
            && 1 <= e <= n && t.mem == s.mem
            && t.spc.edi.lo as int == (if down then di - e else di + e) % 0x1_0000
            && (k.Cmps? ==> t.spc.esi.lo as int == (if down then si - e else si + e) % 0x1_0000)
            && var l := if k.Cmps? then s.mem[16 * DataSegment(s.mode, s.seg) as int + (if down then si - (e - 1) else si + (e - 1)) % 0x1_0000] as int
                        else s.gen.eax.Whole() % 0x100;
               var r := s.mem[16 * s.seg.es as int + (if down then di - (e - 1) else di + (e - 1)) % 0x1_0000] as int;
               && t.flags.cf == (l < r) && t.flags.zf == (l == r) && t.flags.af == (l % 16 < r % 16)
               && t.flags.sf == ((l - r) % 0x100 >= 0x80) && t.flags.pf == EvenParity((l - r) % 0x100)
               && (t.flags.sf != t.flags.of) == ((if l < 0x80 then l else l - 0x100) < (if r < 0x80 then r else r - 0x100))
               && (e < n ==> (l == r) != eq)
  {
    hide RepScan, Lefts, Rights, DataSegment, Moved, SubFlags8, EvenParity, Examined, Checked;
    var n := s.gen.ecx.lo;
    var ls, rs := Lefts(k, s, n), Rights(s, n);
    var e := Examined(eq, ls, rs);
    RepScanStops(k, eq, s);
    MovedIs(s, k.Cmps?, e);
    OperandsAre(k, s, n, e - 1);
    CompareFlags(ls[e - 1], rs[e - 1], s.flags);
  }

  /** ... and the elements before it did not stop the scan. */
  lemma RepScanPassed(k: Scan, eq: bool, s: State, i: nat)
    requires i + 1 < s.gen.ecx.lo - RepScan(k, eq, s).gen.ecx.lo
    ensures var down, si, di := s.flags.ctl.df, s.spc.esi.lo as int, s.spc.edi.lo as int;
            var l := if k.Cmps? then s.mem[16 * DataSegment(s.mode, s.seg) as int + (if down then si - i else si + i) % 0x1_0000] as int
                     else s.gen.eax.Whole() % 0x100;
            (l == s.mem[16 * s.seg.es as int + (if down then di - i else di + i) % 0x1_0000] as int) == eq
  {
    hide RepScan, Lefts, Rights, DataSegment, Moved, SubFlags8, Examined, Checked;
    var n := s.gen.ecx.lo;
    RepScanStops(k, eq, s);
    if n > 0 {
      MovedIs(s, k.Cmps?, Examined(eq, Lefts(k, s, n), Rights(s, n)));
      OperandsAre(k, s, n, i);
    }
  }

  /** What DECODE_CLEAR_SEGOVR leaves: the repeat prefixes, and DS as the data segment. */
  lemma PrefixesCleared(s: State)
    ensures var t := ClearPrefixes(s);
            && t.mode == Mode(s.mode.repe, s.mode.repne, false, false, false, {}) && DataSegment(t.mode, t.seg) == s.seg.ds
            && t == s.(mode := t.mode)
    ensures NoRep(s) == s.(mode := Mode(false, false, s.mode.data, s.mode.addr, s.mode.stackSeg, s.mode.overrides))
  {
  }

  // --- The handlers

  function NoRep(s: State): State { s.(mode := s.mode.(repe := false, repne := false)) }

  /** fetch_data_byte */
  method FetchDataByte(m: Machine, offset: u16) returns (v: u8)
    modifies m`intr
    ensures v == m.mem[Linear(DataSegment(m.mode, m.seg), offset)] && m.intr == Checked(m.mode, old(m.intr))
  {
    if exists a, b | a in m.mode.overrides && b in m.mode.overrides :: a != b {
      m.intr := m.intr.(halted := true);
    }
    v := m.mem[Linear(DataSegment(m.mode, m.seg), offset)];
  }

  /** fetch_data_byte_abs */
  method FetchDataByteAbs(m: Machine, segment: u16, offset: u16) returns (v: u8)
    ensures v == m.mem[Linear(segment, offset)]
  {
    v := m.mem[Linear(segment, offset)];
  }

  /** store_data_byte_abs */
  method StoreDataByteAbs(m: Machine, segment: u16, offset: u16, v: u8)
    modifies m`mem
    ensures m.mem == old(m.mem)[Linear(segment, offset) := v]
  {
    m.mem := m.mem[Linear(segment, offset) := v];
  }

  /** `M.x86.R_SI += inc; M.x86.R_DI += inc`, with inc chosen by DF; SCAS and STOS have no SI. */
  method StepIndices(m: Machine, source: bool)
    modifies m`spc
    ensures m.Snap() == Advance(old(m.Snap()), source)
  {
    hide Add16;
    var inc := if m.flags.ctl.df then -1 else 1;
    OffOnce(m.spc.esi.lo, m.flags.ctl.df, 0);
    OffOnce(m.spc.edi.lo, m.flags.ctl.df, 0);
    if source {
      m.spc := m.spc.(esi := m.spc.esi.(lo := Add16(m.spc.esi.lo, inc)));
    }
    m.spc := m.spc.(edi := m.spc.edi.(lo := Add16(m.spc.edi.lo, inc)));
  }

  /** The body of the loop in x86emuOp_movs_byte */
  method MoveOne(m: Machine)
    modifies m`mem, m`spc, m`intr
    ensures m.Snap() == MovsElement(old(m.Snap()))
  {
    hide Off, DataSegment, Linear, Checked;
    var v := FetchDataByte(m, m.spc.esi.lo);
    StoreDataByteAbs(m, m.seg.es, m.spc.edi.lo, v);
    StepIndices(m, true);
  }

  function WithCx(s: State, v: u16): State { s.(gen := s.gen.(ecx := s.gen.ecx.(lo := v))) }

  lemma MovsCounted(s: State, count: u16)
    requires count >= 1
    ensures RepMovs(WithCx(s, count)) == RepMovs(WithCx(MovsElement(s), count - 1))
  {
    hide DataSegment, Linear, Checked, MovedSpc;
    assert CountDown(MovsElement(WithCx(s, count))) == WithCx(MovsElement(s), count - 1);
  }

  /** x86emuOp_movs_byte: CX is cleared before the loop, which counts in a variable of its own. */
  method MovsByte(m: Machine)
    modifies m
    ensures var s := old(m.Snap());
            m.Snap() == ClearPrefixes(if s.mode.repe || s.mode.repne then RepMovs(NoRep(s)) else MovsElement(s))
  {
    hide MovsElement, RepMovs;
    ghost var s := m.Snap();
    var count := 1;
    if m.mode.repe || m.mode.repne {
      count := m.gen.ecx.lo;
      m.gen := m.gen.(ecx := m.gen.ecx.(lo := 0));
      m.mode := m.mode.(repe := false, repne := false);
      assert WithCx(m.Snap(), count) == NoRep(s);
      while count > 0
        invariant 0 <= count <= 0xFFFF && m.gen.ecx.lo == 0
        invariant RepMovs(NoRep(s)) == RepMovs(WithCx(m.Snap(), count))
      {
        MovsCounted(m.Snap(), count);
        MovsKeepsCx(m.Snap());
        count := count - 1;
        MoveOne(m);
      }
      assert WithCx(m.Snap(), 0) == m.Snap();
      RepDone(m.Snap());
    } else {
      MoveOne(m);
    }
    m.mode := m.mode.(data := false, addr := false, stackSeg := false, overrides := {});
  }

  lemma MovsKeepsCx(s: State)
    ensures MovsElement(s).gen == s.gen
  {
  }

  lemma RepDone(s: State)
    ensures s.gen.ecx.lo == 0 ==> RepMovs(s) == s && RepStos(s) == s
  {
  }

  /** The body of the loop in x86emuOp_stos_byte, without its count */
  method StoreOne(m: Machine)
    modifies m`mem, m`spc
    ensures m.Snap() == StosElement(old(m.Snap()))
  {
    hide Off, Linear;
    StoreDataByteAbs(m, m.seg.es, m.spc.edi.lo, m.gen.eax.Byte());
    StepIndices(m, false);
  }

  /** x86emuOp_stos_byte */
  method StosByte(m: Machine)
    modifies m
    ensures var s := old(m.Snap());
            m.Snap() == ClearPrefixes(if s.mode.repe || s.mode.repne then NoRep(RepStos(s)) else StosElement(s))
  {
    hide StosElement, RepStos;
    ghost var s := m.Snap();
    if m.mode.repe || m.mode.repne {
      while m.gen.ecx.lo != 0
        invariant RepStos(s) == RepStos(m.Snap())
        decreases m.gen.ecx.lo
      {
        StosStep(m.Snap());
        StoreOne(m);
        m.gen := m.gen.(ecx := m.gen.ecx.(lo := m.gen.ecx.lo - 1));
      }
      RepDone(m.Snap());
      m.mode := m.mode.(repe := false, repne := false);
    } else {
      StoreOne(m);
    }
    m.mode := m.mode.(data := false, addr := false, stackSeg := false, overrides := {});
  }

  lemma StosStep(s: State)
    requires s.gen.ecx.lo != 0
    ensures StosElement(s).gen == s.gen && RepStos(s) == RepStos(CountDown(StosElement(s)))
  {
  }

  /** One comparison of x86emuOp_cmps_byte or x86emuOp_scas_byte, without its count */
  method CompareOne(m: Machine, k: Scan)
    modifies m`flags, m`spc, m`intr
    ensures m.Snap() == ScanElement(k, old(m.Snap()))
  {
    hide Off, DataSegment, Linear, Checked, Ones, EvenParity, Signed, FitsSigned, ResultFlags;
    assert Pow2(8) == 0x100;
    var val1: u8 := m.gen.eax.Byte();
    if k.Cmps? {
      val1 := FetchDataByte(m, m.spc.esi.lo);
    }
    var val2 := FetchDataByteAbs(m, m.seg.es, m.spc.edi.lo);
    var _ := Cmp(m, 8, val1, val2);
    ControlKept(val1, val2, old(m.flags));
    StepIndices(m, k.Cmps?);
  }

  lemma ControlKept(d: u8, s: u8, f: Flags)
    ensures SubFlags8(d, s, f).ctl == f.ctl
  {
    SubFlags8Last(d, s, 0, 0, f);
  }

  lemma ScanStep(k: Scan, eq: bool, s: State)
    requires s.gen.ecx.lo != 0
    ensures var t := CountDown(ScanElement(k, s));
            ScanElement(k, s).gen == s.gen && RepScan(k, eq, s) == if t.flags.zf == eq then RepScan(k, eq, t) else t
  {
    hide SubFlags8, Left, Dst, MovedSpc, Checked;
  }

  /** The REPE and REPNE loops of CMPS and SCAS: they leave on ZF clear and ZF set respectively. */
  method RepeatCompare(m: Machine, k: Scan, eq: bool)
    modifies m`flags, m`spc, m`intr, m`gen
    ensures m.Snap() == RepScan(k, eq, old(m.Snap()))
  {
    hide ScanElement, RepScan;
    ghost var s := m.Snap();
    while m.gen.ecx.lo != 0
      invariant RepScan(k, eq, s) == RepScan(k, eq, m.Snap())
      decreases m.gen.ecx.lo
    {
      ScanStep(k, eq, m.Snap());
      CompareOne(m, k);
      m.gen := m.gen.(ecx := m.gen.ecx.(lo := m.gen.ecx.lo - 1));
      if m.flags.zf != eq {
        return;
      }
    }
    ScanDone(k, eq, m.Snap());
  }

  lemma ScanDone(k: Scan, eq: bool, s: State)
    ensures s.gen.ecx.lo == 0 ==> RepScan(k, eq, s) == s
  {
  }

  /** x86emuOp_cmps_byte and x86emuOp_scas_byte: REPE wins over REPNE, and only the prefix used is cleared. */
  method CompareBytes(m: Machine, k: Scan)
    modifies m
    ensures var s := old(m.Snap());
            m.Snap() == ClearPrefixes(
              if s.mode.repe then var t := RepScan(k, true, s); t.(mode := t.mode.(repe := false))
              else if s.mode.repne then var t := RepScan(k, false, s); t.(mode := t.mode.(repne := false))
              else ScanElement(k, s))
  {
    hide ScanElement, RepScan;
    if m.mode.repe {
      RepeatCompare(m, k, true);
      m.mode := m.mode.(repe := false);
    } else if m.mode.repne {
      RepeatCompare(m, k, false);
      m.mode := m.mode.(repne := false);
    } else {
      CompareOne(m, k);
    }
    m.mode := m.mode.(data := false, addr := false, stackSeg := false, overrides := {});
  }
}
