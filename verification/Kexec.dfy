/** kexec: an ELF64 kernel staged for the jump that replaces the running one. */
module Kexec {
  import opened Words
  import opened Bytes

  const KERNEL_LOAD := 0x10_0000
  const STAGE_SIZE := 0x80_0000

  function Wrap(n: int): u64 { n % 0x1_0000_0000_0000_0000 }

  function Low32(n: int): u32 { n % 0x1_0000_0000 }

  // ---- The image ----

  /** A PT_LOAD program header. */
  datatype Segment = Segment(offset: u64, vaddr: u64, filesz: u64, memsz: u64)

  datatype Header = Header(entry: u64, phoff: u64, phentsize: nat, phnum: nat)

  datatype Option<T> = None | Some(value: T)

  predicate Elf64(eh: Data) {
    |eh| >= 64 && eh[0] == 0x7f && eh[1] == 69 && eh[2] == 76 && eh[3] == 70 && eh[4] == 2
  }

  function HeaderOf(eh: Data): (h: Header)
    requires |eh| >= 64
    ensures h.phentsize < 0x1_0000 && h.phnum < 0x1_0000
  {
    Header(Le8(eh, 24), Le8(eh, 32), Le2(eh, 54), Le2(eh, 56))
  }

  /** The check on the program header table, its sum taken in 64 bits. */
  predicate TableAccepted(h: Header, size: nat) {
    h.phoff != 0 && h.phnum != 0 && h.phentsize >= 56 && Wrap(TableSum(h)) <= size
  }

  function TableSum(h: Header): int { h.phoff + h.phnum * h.phentsize }

  /** The table lies in the image. */
  predicate TableInside(h: Header, size: nat) { TableSum(h) <= size }

  lemma EntryInside(h: Header, size: nat, i: nat)
    requires TableInside(h, size) && i < h.phnum && h.phentsize >= 56
    ensures h.phoff + i * h.phentsize + 56 <= size
  {
    MulMonotone(i + 1, h.phnum, h.phentsize);
    MulDistributes(i, 1, h.phentsize);
  }

  /** The program header at a position, if it asks to be loaded. */
  function SegmentAt(eh: Data, at: nat): Option<Segment>
    requires at + 56 <= |eh|
  {
    if Le4(eh, at) != 1 then None
    else Some(Segment(Le8(eh, at + 8), Le8(eh, at + 16), Le8(eh, at + 32), Le8(eh, at + 40)))
  }

  /** The segments among the first n program headers, in order. */
  function Segments(eh: Data, h: Header, n: nat): seq<Segment>
    requires TableInside(h, |eh|) && h.phentsize >= 56 && n <= h.phnum
  {
    if n == 0 then []
    else
      EntryInside(h, |eh|, n - 1);
      var s := SegmentAt(eh, h.phoff + (n - 1) * h.phentsize);
      Segments(eh, h, n - 1) + (if s.None? then [] else [s.value])
  }

  // ---- Images as the ELF specification lays them out ----

  /** A program header: its type, its flags, the segment, its physical address and alignment. */
  datatype ProgramHeader = ProgramHeader(kind: u32, flags: u32, segment: Segment, paddr: u64, align: u64)

  function SpellHeader(p: ProgramHeader): (s: Data)
    ensures |s| == 56
  {
    Put4(p.kind) + Put4(p.flags) + Put8(p.segment.offset) + Put8(p.segment.vaddr) + Put8(p.paddr)
    + Put8(p.segment.filesz) + Put8(p.segment.memsz) + Put8(p.align)
  }

  function SpellTable(ps: seq<ProgramHeader>): (s: Data)
    ensures |s| == 56 * |ps|
  {
    if ps == [] then [] else SpellTable(ps[..|ps| - 1]) + SpellHeader(ps[|ps| - 1])
  }

  /** The first 64 bytes: `ident` and `mid` are the fields the loader does not look at further. */
  function SpellStart(ident: Data, entry: u64, phoff: u64, mid: Data, phentsize: nat, phnum: nat, end: Data): (s: Data)
    requires |ident| == 24 && |mid| == 14 && phentsize < 0x1_0000 && phnum < 0x1_0000 && |end| == 6
    ensures |s| == 64
  {
    ident + Put8(entry) + Put8(phoff) + mid + Put2(phentsize) + Put2(phnum) + end
  }

  /** The segments to load, in the order of their headers. */
  function Loadable(ps: seq<ProgramHeader>): seq<Segment> {
    if ps == [] then []
    else Loadable(ps[..|ps| - 1]) + (if ps[|ps| - 1].kind == 1 then [ps[|ps| - 1].segment] else [])
  }

  lemma HeaderReadsBack(ident: Data, entry: u64, phoff: u64, mid: Data, phentsize: nat, phnum: nat, end: Data,
                        rest: Data)
    requires |ident| == 24 && |mid| == 14 && phentsize < 0x1_0000 && phnum < 0x1_0000 && |end| == 6
    ensures HeaderOf(SpellStart(ident, entry, phoff, mid, phentsize, phnum, end) + rest)
         == Header(entry, phoff, phentsize, phnum)
  {
    hide Put8, Put2, Le8, Le2;
    var eh := SpellStart(ident, entry, phoff, mid, phentsize, phnum, end) + rest;
    assert eh[24..32] == Put8(entry);
    assert eh[32..40] == Put8(phoff);
    assert eh[54..56] == Put2(phentsize);
    assert eh[56..58] == Put2(phnum);
    Le8At(eh, 24, entry);
    Le8At(eh, 32, phoff);
    Le2At(eh, 54, phentsize);
    Le2At(eh, 56, phnum);
  }

  lemma SegmentReadsBack(p: ProgramHeader)
    ensures SegmentAt(SpellHeader(p), 0) == if p.kind == 1 then Some(p.segment) else None
  {
    hide Put4, Put8, Le4, Le8;
    var s := SpellHeader(p);
    assert s[0..4] == Put4(p.kind);
    assert s[8..16] == Put8(p.segment.offset);
    assert s[16..24] == Put8(p.segment.vaddr);
    assert s[32..40] == Put8(p.segment.filesz);
    assert s[40..48] == Put8(p.segment.memsz);
    LeAt(s, 0, p.kind);
    Le8At(s, 8, p.segment.offset);
    Le8At(s, 16, p.segment.vaddr);
    Le8At(s, 32, p.segment.filesz);
    Le8At(s, 40, p.segment.memsz);
  }

  lemma {:induction false} HeaderInTable(ps: seq<ProgramHeader>, i: nat)
    requires i < |ps|
    ensures SpellTable(ps)[56 * i..56 * i + 56] == SpellHeader(ps[i])
    decreases |ps|
  {
    hide SpellHeader;
    var front := ps[..|ps| - 1];
    if i < |front| {
      HeaderInTable(front, i);
    }
  }

  /** The headers of a table anywhere in an image are those that were laid down there. */
  lemma {:induction false} TableReadsBack(eh: Data, h: Header, ps: seq<ProgramHeader>, n: nat)
    requires h.phentsize == 56 && h.phnum == |ps| && TableInside(h, |eh|) && n <= |ps|
    requires h.phoff + 56 * |ps| <= |eh| && eh[h.phoff..h.phoff + 56 * |ps|] == SpellTable(ps)
    ensures Segments(eh, h, n) == Loadable(ps[..n])
    decreases n
  {
    hide SegmentAt, SpellHeader, SpellTable;
    if n > 0 {
      TableReadsBack(eh, h, ps, n - 1);
      var at, table := h.phoff + 56 * (n - 1), SpellTable(ps);
      HeaderInTable(ps, n - 1);
      SubSlice(eh, h.phoff, h.phoff + 56 * |ps|, 56 * (n - 1), 56 * (n - 1) + 56);
      SegmentInWindow(eh, at);
      SegmentReadsBack(ps[n - 1]);
      assert ps[..n][..n - 1] == ps[..n - 1];
    }
  }

  /** A kernel image of any entry point and any program headers, wherever the table lies: the loader
      reads exactly the entry point and the loadable segments, in order, that were laid down. */
  lemma ImageReadsBack(ident: Data, entry: u64, mid: Data, end: Data, gap: Data, ps: seq<ProgramHeader>, rest: Data)
    requires |ident| == 24 && |mid| == 14 && |end| == 6 && 0 < |ps| < 0x1_0000 && |gap| < TWO_32
    ensures var start := SpellStart(ident, entry, 64 + |gap|, mid, 56, |ps|, end);
            var eh := start + gap + SpellTable(ps) + rest;
            var h := HeaderOf(eh);
            && h.entry == entry && h.phnum == |ps| && h.phentsize == 56 && TableInside(h, |eh|)
            && TableAccepted(h, |eh|) && Segments(eh, h, |ps|) == Loadable(ps)
  {
    hide SpellTable, Segments, HeaderOf, Loadable, Wrap;
    var start := SpellStart(ident, entry, 64 + |gap|, mid, 56, |ps|, end);
    hide SpellStart;
    var eh := start + gap + SpellTable(ps) + rest;
    HeaderReadsBack(ident, entry, 64 + |gap|, mid, 56, |ps|, end, gap + SpellTable(ps) + rest);
    assert eh == start + (gap + SpellTable(ps) + rest);
    var h := HeaderOf(eh);
    Middle(start + gap, SpellTable(ps), rest);
    WrapSmall(TableSum(h));
    TableReadsBack(eh, h, ps, |ps|);
    assert ps[..|ps|] == ps;
  }

  // ---- Reading from memory ----

  /** The memory around an image, by offset from its start in 64 bits. */
  type Around = u64 -> byte

  function ByteAt(eh: Data, around: Around, i: u64): byte { if i < |eh| then eh[i] else around(i) }

  /** n bytes from an offset on. */
  function Window(eh: Data, around: Around, at: u64, n: nat): (w: Data)
    ensures |w| == n
  {
    seq<byte>(n, i requires 0 <= i < n => ByteAt(eh, around, Wrap(at + i)))
  }

  /** The segments the header loop comes upon, wherever a wrapping table sends it. */
  function HeadersRead(eh: Data, around: Around, h: Header, n: nat): seq<Segment> {
    if n == 0 then []
    else
      var s := SegmentAt(Window(eh, around, Wrap(h.phoff + (n - 1) * h.phentsize), 56), 0);
      HeadersRead(eh, around, h, n - 1) + (if s.None? then [] else [s.value])
  }

  lemma WindowInside(eh: Data, around: Around, at: nat, n: nat)
    requires |eh| < TWO_32 && at + n <= |eh|
    ensures Wrap(at) == at && Window(eh, around, at, n) == eh[at..at + n]
  {
    hide Wrap;
    WrapSmall(at);
    var w, v := Window(eh, around, at, n), eh[at..at + n];
    forall i | 0 <= i < n
      ensures w[i] == v[i]
    {
      WrapSmall(at + i);
      assert w[i] == ByteAt(eh, around, Wrap(at + i));
    }
  }

  lemma SegmentInWindow(eh: Data, at: nat)
    requires at + 56 <= |eh|
    ensures SegmentAt(eh[at..at + 56], 0) == SegmentAt(eh, at)
  {
    var w := eh[at..at + 56];
    assert forall i :: 0 <= i < 56 ==> w[i] == eh[at + i];
    Le4Shifts(eh, at, w, 0);
    Le8Shifts(eh, at, w, 8);
    Le8Shifts(eh, at, w, 16);
    Le8Shifts(eh, at, w, 32);
    Le8Shifts(eh, at, w, 40);
  }

  lemma Le4Shifts(s: Data, at: nat, w: Data, i: nat)
    requires at + |w| <= |s| && i + 4 <= |w| && w == s[at..at + |w|]
    ensures Le4(w, i) == Le4(s, at + i)
  {
    assert w[i] == s[at + i] && w[i + 1] == s[at + i + 1] && w[i + 2] == s[at + i + 2] && w[i + 3] == s[at + i + 3];
  }

  lemma Le8Shifts(s: Data, at: nat, w: Data, i: nat)
    requires at + |w| <= |s| && i + 8 <= |w| && w == s[at..at + |w|]
    ensures Le8(w, i) == Le8(s, at + i)
  {
    hide Le4;
    Le4Shifts(s, at, w, i);
    Le4Shifts(s, at, w, i + 4);
  }

  /** From a table in the image the loop reads the image alone. */
  lemma {:induction false} HeadersInside(eh: Data, around: Around, h: Header, n: nat)
    requires |eh| < TWO_32 && TableInside(h, |eh|) && h.phentsize >= 56 && n <= h.phnum
    ensures HeadersRead(eh, around, h, n) == Segments(eh, h, n)
  {
    hide SegmentAt, Window, Wrap, TableInside;
    if n > 0 {
      HeadersInside(eh, around, h, n - 1);
      EntryInside(h, |eh|, n - 1);
      var at := h.phoff + (n - 1) * h.phentsize;
      MulMonotone(0, n - 1, h.phentsize);
      WindowInside(eh, around, at, 56);
      SegmentInWindow(eh, at);
    }
  }

  // ---- Placing a segment ----

  /** A segment's place in the stage. */
  function Place(s: Segment): int { s.vaddr - KERNEL_LOAD }

  /** Where its file part ends. */
  function Tail(s: Segment): int { Place(s) + s.filesz }

  /** The loader's checks, their sums taken in 64 bits. */
  predicate Accepted(s: Segment, size: nat) {
    && s.vaddr >= KERNEL_LOAD
    && Wrap(Place(s) + s.memsz) <= STAGE_SIZE
    && (s.filesz != 0 ==> Wrap(s.offset + s.filesz) <= size)
  }

  /** The bytes copied and the bytes cleared behind them, counted in 32 bits. */
  function CopyCount(s: Segment): u32 { Low32(s.filesz) }

  function ClearCount(s: Segment): u32 { if s.memsz > s.filesz then Low32(s.memsz - s.filesz) else 0 }

  /** The part of the stage that a write of n bytes at a place reaches, addresses wrapping: byte a
      of the stage is byte `Wrap(a - at)` of the write. */
  function Reached(stage: Data, at: int, n: nat, src: u64 -> byte): (t: Data)
    ensures |t| == |stage|
  {
    seq<byte>(|stage|, a requires 0 <= a < |stage| => ReachedByte(stage, at, n, src, a))
  }

  function ReachedByte(stage: Data, at: int, n: nat, src: u64 -> byte, a: nat): byte
    requires a < |stage|
  {
    if Wrap(a - at) < n then src(Wrap(a - at)) else stage[a]
  }

  /** The stage once a segment is copied in and its tail cleared. */
  function Placed(stage: Data, eh: Data, around: Around, s: Segment): (t: Data)
    ensures |t| == |stage|
  {
    var copied := Reached(stage, Place(s), CopyCount(s), i => ByteAt(eh, around, Wrap(s.offset + i)));
    Reached(copied, Tail(s), ClearCount(s), _ => 0)
  }

  function PlacedAll(eh: Data, around: Around, segs: seq<Segment>): (t: Data)
    ensures |t| == STAGE_SIZE
  {
    if segs == [] then Zeros(STAGE_SIZE)
    else Placed(PlacedAll(eh, around, segs[..|segs| - 1]), eh, around, segs[|segs| - 1])
  }

  /** The lowest address and the highest end of the segments, as the loader tracks them. */
  function Lowest(segs: seq<Segment>): u64 {
    if segs == [] then 0xFFFF_FFFF_FFFF_FFFF
    else
      var m, v := Lowest(segs[..|segs| - 1]), segs[|segs| - 1].vaddr;
      if v < m then v else m
  }

  function Highest(segs: seq<Segment>): u64 {
    if segs == [] then 0
    else
      var m, s := Highest(segs[..|segs| - 1]), segs[|segs| - 1];
      var e := Wrap(s.vaddr + s.memsz);
      if e > m then e else m
  }

  /** Whether all segments are accepted, and those placed: the ones before the first refused. */
  function Loaded(segs: seq<Segment>, size: nat): (bool, seq<Segment>) {
    if segs == [] then (true, [])
    else
      var (ok, done) := Loaded(segs[..|segs| - 1], size);
      var s := segs[|segs| - 1];
      if ok && Accepted(s, size) then (true, done + [s]) else (false, done)
  }

  // ---- A whole load ----

  /** What a load leaves behind; the stage only when it was written. */
  datatype Outcome = Outcome(ok: bool, entry: u64, span: u64, stage: Option<Data>)

  function Span(segs: seq<Segment>): u64 {
    var n := Wrap(Highest(segs) - KERNEL_LOAD);
    if n < 4096 then 4096 else n
  }

  function Parsed(mapped: bool, eh: Data, around: Around): Outcome {
    if !mapped || !Elf64(eh) then Outcome(false, 0, 0, None)
    else
      var h := HeaderOf(eh);
      if !TableAccepted(h, |eh|) then Outcome(false, h.entry, 0, None)
      else
        var (ok, done) := Loaded(HeadersRead(eh, around, h, h.phnum), |eh|);
        var stage := Some(PlacedAll(eh, around, done));
        if !ok || Highest(done) <= Lowest(done) then Outcome(false, h.entry, 0, stage)
        else Outcome(true, h.entry, Span(done), stage)
  }

  predicate AllAccepted(segs: seq<Segment>, size: nat) {
    forall i :: 0 <= i < |segs| ==> Accepted(segs[i], size)
  }

  lemma {:induction false} LoadedIff(segs: seq<Segment>, size: nat)
    ensures Loaded(segs, size).0 <==> AllAccepted(segs, size)
    ensures Loaded(segs, size).0 ==> Loaded(segs, size).1 == segs
    decreases |segs|
  {
    hide Accepted;
    if segs != [] {
      var front := segs[..|segs| - 1];
      LoadedIff(front, size);
      assert segs == front + [segs[|segs| - 1]];
      assert AllAccepted(segs, size) ==> AllAccepted(front, size);
    }
  }

  /** A load succeeds, for any image whatever, exactly when every check the loader makes passes:
      on the header, on the table, on each segment it comes upon, and on the ends. */
  lemma SucceedsOnChecks(mapped: bool, eh: Data, around: Around)
    ensures Parsed(mapped, eh, around).ok <==>
              && mapped && Elf64(eh) && TableAccepted(HeaderOf(eh), |eh|)
              && var segs := HeadersRead(eh, around, HeaderOf(eh), HeaderOf(eh).phnum);
                 AllAccepted(segs, |eh|) && Highest(segs) > Lowest(segs)
  {
    hide HeaderOf, HeadersRead, PlacedAll, Span, TableAccepted, Lowest, Highest, AllAccepted, Loaded;
    if Elf64(eh) {
      LoadedIff(HeadersRead(eh, around, HeaderOf(eh), HeaderOf(eh).phnum), |eh|);
    }
  }

  lemma {:induction false} LoadedStuck(eh: Data, around: Around, h: Header, i: nat, n: nat)
    requires i <= n && !Loaded(HeadersRead(eh, around, h, i), |eh|).0
    ensures Loaded(HeadersRead(eh, around, h, n), |eh|) == Loaded(HeadersRead(eh, around, h, i), |eh|)
    decreases n
  {
    hide Accepted, SegmentAt, Window, Wrap;
    if i < n {
      LoadedStuck(eh, around, h, i, n - 1);
      var before, all := HeadersRead(eh, around, h, n - 1), HeadersRead(eh, around, h, n);
      if |all| > |before| {
        assert all[..|all| - 1] == before;
        assert Loaded(all, |eh|) == Loaded(before, |eh|);
      } else {
        assert all == before;
      }
    }
  }

  /** One more segment. */
  lemma LoadedOneMore(segs: seq<Segment>, s: Segment, size: nat)
    requires Loaded(segs, size) == (true, segs)
    ensures Loaded(segs + [s], size) == (if Accepted(s, size) then (true, segs + [s]) else (false, segs))
    ensures Lowest(segs + [s]) == (if s.vaddr < Lowest(segs) then s.vaddr else Lowest(segs))
    ensures var e := Wrap(s.vaddr + s.memsz);
            Highest(segs + [s]) == (if e > Highest(segs) then e else Highest(segs))
  {
    hide Accepted, Wrap;
    assert (segs + [s])[..|segs|] == segs;
  }

  lemma NothingLoaded(eh: Data, around: Around, h: Header)
    ensures HeadersRead(eh, around, h, 0) == [] && Loaded([], |eh|) == (true, [])
    ensures PlacedAll(eh, around, []) == Zeros(STAGE_SIZE) && Lowest([]) == 0xFFFF_FFFF_FFFF_FFFF && Highest([]) == 0
  {
  }

  lemma OneHeaderMore(eh: Data, around: Around, h: Header, i: nat)
    ensures var p := SegmentAt(Window(eh, around, Wrap(h.phoff + i * h.phentsize), 56), 0);
            HeadersRead(eh, around, h, i + 1) == HeadersRead(eh, around, h, i) + (if p.None? then [] else [p.value])
  {
    hide SegmentAt, Window, Wrap;
  }

  lemma PlacedOneMore(eh: Data, around: Around, segs: seq<Segment>, s: Segment)
    ensures PlacedAll(eh, around, segs + [s]) == Placed(PlacedAll(eh, around, segs), eh, around, s)
  {
    hide Placed;
    assert (segs + [s])[..|segs|] == segs;
  }

  // ---- What a load achieves ----

  /** A segment as the program header chapter of the System V gABI has it, and within the stage. */
  predicate Sound(s: Segment, size: nat) {
    && s.vaddr >= KERNEL_LOAD && Place(s) + s.memsz <= STAGE_SIZE
    && s.filesz <= s.memsz && (s.filesz != 0 ==> s.offset + s.filesz <= size)
  }

  /** What keeps 64-bit sums from wrapping, and the file part within the memory part. */
  predicate Tame(s: Segment) {
    s.filesz <= s.memsz && Place(s) + s.memsz < TWO_64 && s.offset + s.filesz < TWO_64
  }

  /** The segments that pass the checks are sound if and only if they are tame: what the checks
      miss is a sum that wraps, or more bytes in the file than in memory. */
  lemma AcceptedSoundIff(s: Segment, size: u32)
    requires Accepted(s, size)
    ensures Sound(s, size) <==> Tame(s)
  {
    hide Wrap;
    if Tame(s) {
      WrapSmall(Place(s) + s.memsz);
      WrapSmall(s.offset + s.filesz);
    }
  }

  /** So on tame segments the loader is exactly right: it takes the sound ones, refuses the others,
      and never strays. */
  lemma TameAcceptedIff(s: Segment, size: u32)
    requires Tame(s)
    ensures Accepted(s, size) <==> Sound(s, size)
    ensures Accepted(s, size) ==> Inside(s, size)
  {
    hide Wrap, Inside;
    WrapSmall(s.offset + s.filesz);
    if s.vaddr >= KERNEL_LOAD { WrapSmall(Place(s) + s.memsz); }
    if Accepted(s, size) { StraysIff(s, size); }
  }

  /** Every byte copied is read from the image, and every byte copied or cleared is in the stage. */
  predicate Inside(s: Segment, size: nat) {
    && (forall i :: 0 <= i < CopyCount(s) ==> Below(s.offset, i, size) && Below(Place(s), i, STAGE_SIZE))
    && (forall i :: 0 <= i < ClearCount(s) ==> Below(Tail(s), i, STAGE_SIZE))
  }

  /** Byte i from a place on lies below a limit, addresses wrapping. */
  predicate Below(at: int, i: int, limit: nat) { Wrap(at + i) < limit }

  lemma SpanInside(at: u64, n: nat, limit: nat)
    requires limit < TWO_63 && n < TWO_63
    ensures (forall i :: 0 <= i < n ==> Below(at, i, limit)) <==> n == 0 || at + n <= limit
  {
    hide Wrap;
    if n > 0 && at + n <= limit {
      forall i | 0 <= i < n
        ensures Below(at, i, limit)
      {
        WrapSmall(at + i);
      }
    }
    if n > 0 && at + n > limit {
      var i := if at < limit then limit - at else 0;
      WrapSmall(at + i);
      assert !Below(at, i, limit);
    }
  }

  /** Among the segments accepted without a sum wrapping, those and only those stray whose file
      part ends beyond the stage. */
  lemma StraysIff(s: Segment, size: u32)
    requires Accepted(s, size) && Place(s) + s.memsz < TWO_64 && s.offset + s.filesz < TWO_64
    ensures !Inside(s, size) <==> Place(s) + s.filesz > STAGE_SIZE
  {
    hide Wrap, Low32;
    WrapSmall(Place(s) + s.memsz);
    WrapSmall(s.offset + s.filesz);
    LowSmall(s.filesz);
    SpanInside(s.offset, CopyCount(s), size);
    SpanInside(Place(s), CopyCount(s), STAGE_SIZE);
    if s.memsz > s.filesz {
      LowSmall(s.memsz - s.filesz);
      SpanInside(Place(s) + s.filesz, ClearCount(s), STAGE_SIZE);
    }
  }

  lemma AcceptedIfSound(s: Segment, size: u32)
    requires Sound(s, size)
    ensures Accepted(s, size) && Tame(s)
  {
    hide Wrap;
    WrapSmall(Place(s) + s.memsz);
    if s.filesz != 0 { WrapSmall(s.offset + s.filesz); }
  }

  lemma WrapSmall(n: int)
    requires 0 <= n < TWO_64
    ensures Wrap(n) == n
  {
  }

  lemma LowSmall(n: int)
    requires 0 <= n < TWO_32
    ensures Low32(n) == n
  {
  }

  predicate InFile(s: Segment, a: int) { Place(s) <= a < Place(s) + s.filesz }

  predicate InMemory(s: Segment, a: int) { Place(s) <= a < Place(s) + s.memsz }

  lemma ReachedAt(a: nat, at: nat, n: nat)
    requires a < TWO_32 && at + n < TWO_32
    ensures Wrap(a - at) < n <==> at <= a < at + n
    ensures at <= a ==> Wrap(a - at) == a - at
  {
  }

  lemma PlacedAt(stage: Data, eh: Data, around: Around, s: Segment, a: nat)
    requires |stage| == STAGE_SIZE && |eh| < TWO_32 && Sound(s, |eh|) && a < STAGE_SIZE
    ensures Placed(stage, eh, around, s)[a]
         == (if InFile(s, a) then eh[s.offset + a - Place(s)] else if InMemory(s, a) then 0 else stage[a])
  {
    hide Wrap, Low32;
    LowSmall(s.filesz);
    LowSmall(s.memsz - s.filesz);
    ReachedAt(a, Place(s), s.filesz);
    ReachedAt(a, Tail(s), ClearCount(s));
    var src: u64 -> byte := i => ByteAt(eh, around, Wrap(s.offset + i));
    var copied := Reached(stage, Place(s), CopyCount(s), src);
    assert copied[a] == ReachedByte(stage, Place(s), CopyCount(s), src, a);
    assert Placed(stage, eh, around, s)[a] == ReachedByte(copied, Tail(s), ClearCount(s), _ => 0, a);
    if InFile(s, a) {
      assert src(a - Place(s)) == ByteAt(eh, around, Wrap(s.offset + (a - Place(s))));
      WrapSmall(s.offset + (a - Place(s)));
    }
  }

  predicate AllSound(segs: seq<Segment>, size: nat) { forall i :: 0 <= i < |segs| ==> Sound(segs[i], size) }

  predicate Apart(s: Segment, t: Segment) {
    s.memsz == 0 || t.memsz == 0 || s.vaddr + s.memsz <= t.vaddr || t.vaddr + t.memsz <= s.vaddr
  }

  predicate AllApart(segs: seq<Segment>) {
    forall i, j :: 0 <= i < j < |segs| ==> Apart(segs[i], segs[j])
  }

  /** A byte of the file is where its segment puts it. */
  lemma {:induction false} FileByteStaged(eh: Data, around: Around, segs: seq<Segment>, i: nat, a: nat)
    requires |eh| < TWO_32 && AllSound(segs, |eh|) && AllApart(segs)
    requires i < |segs| && a < STAGE_SIZE && InFile(segs[i], a)
    ensures PlacedAll(eh, around, segs)[a] == eh[segs[i].offset + a - Place(segs[i])]
    decreases |segs|
  {
    hide Placed;
    var front, last := segs[..|segs| - 1], segs[|segs| - 1];
    PlacedAt(PlacedAll(eh, around, front), eh, around, last, a);
    if i < |segs| - 1 {
      assert front[i] == segs[i] && Apart(segs[i], last);
      FileByteStaged(eh, around, front, i, a);
    }
  }

  /** Every other byte of the stage is zero. */
  lemma {:induction false} OtherBytesZero(eh: Data, around: Around, segs: seq<Segment>, a: nat)
    requires |eh| < TWO_32 && AllSound(segs, |eh|) && a < STAGE_SIZE
    requires forall i :: 0 <= i < |segs| ==> !InFile(segs[i], a)
    ensures PlacedAll(eh, around, segs)[a] == 0
    decreases |segs|
  {
    hide Placed;
    if segs != [] {
      var front, last := segs[..|segs| - 1], segs[|segs| - 1];
      assert forall i :: 0 <= i < |front| ==> front[i] == segs[i];
      OtherBytesZero(eh, around, front, a);
      PlacedAt(PlacedAll(eh, around, front), eh, around, last, a);
    }
  }

  lemma {:induction false} EndsCover(segs: seq<Segment>, size: u32, i: nat)
    requires AllSound(segs, size) && i < |segs|
    ensures Lowest(segs) <= segs[i].vaddr && segs[i].vaddr + segs[i].memsz <= Highest(segs)
    ensures Highest(segs) <= KERNEL_LOAD + STAGE_SIZE
    decreases |segs|
  {
    hide Wrap;
    var front, last := segs[..|segs| - 1], segs[|segs| - 1];
    WrapSmall(last.vaddr + last.memsz);
    if front != [] {
      EndsCover(front, size, if i < |front| then i else 0);
      assert i < |front| ==> front[i] == segs[i];
    }
  }

  /** The program header table is there and lies in the image. */
  predicate HasTable(eh: Data) {
    && |eh| < TWO_32 && Elf64(eh)
    && var h := HeaderOf(eh);
       h.phoff != 0 && h.phnum != 0 && h.phentsize >= 56 && TableInside(h, |eh|)
  }

  function SegmentsOf(eh: Data): seq<Segment>
    requires HasTable(eh)
  {
    Segments(eh, HeaderOf(eh), HeaderOf(eh).phnum)
  }

  predicate WellFormed(eh: Data) {
    && |eh| < TWO_32 && HasTable(eh) && AllSound(SegmentsOf(eh), |eh|) && AllApart(SegmentsOf(eh))
    && CoverSome(SegmentsOf(eh))
  }

  /** Some segment starts below the end of some segment. */
  predicate CoverSome(segs: seq<Segment>) {
    exists i, j :: 0 <= i < |segs| && 0 <= j < |segs| && segs[i].vaddr < segs[j].vaddr + segs[j].memsz
  }

  lemma TableIsAccepted(eh: Data)
    requires HasTable(eh)
    ensures TableAccepted(HeaderOf(eh), |eh|)
  {
    hide Wrap, Le2, Le4, Le8;
    var h := HeaderOf(eh);
    var bytes := h.phnum * h.phentsize;
    assert TableInside(h, |eh|) ==> h.phoff + bytes <= |eh|;
    MulMonotone(0, h.phnum, h.phentsize);
    WrapSmall(h.phoff + bytes);
  }

  lemma SoundAccepted(segs: seq<Segment>, size: u32)
    requires AllSound(segs, size)
    ensures AllAccepted(segs, size)
  {
    hide Sound, Accepted;
    forall i | 0 <= i < |segs|
      ensures Accepted(segs[i], size)
    {
      AcceptedIfSound(segs[i], size);
    }
  }

  /** What the loader makes of an image with its table inside. */
  lemma TableParsed(eh: Data, around: Around)
    requires HasTable(eh)
    ensures var segs := SegmentsOf(eh);
            var o := Parsed(true, eh, around);
            && (o.ok <==> AllAccepted(segs, |eh|) && Highest(segs) > Lowest(segs))
            && o.entry == HeaderOf(eh).entry && o.stage.Some?
            && (o.ok ==> o.span == Span(segs) && o.stage.value == PlacedAll(eh, around, segs))
  {
    hide Segments, HeadersRead, Loaded, PlacedAll, Span, Lowest, Highest, HeaderOf, TableAccepted, AllAccepted;
    TableIsAccepted(eh);
    var h := HeaderOf(eh);
    HeadersInside(eh, around, h, h.phnum);
    LoadedIff(SegmentsOf(eh), |eh|);
  }

  lemma WellFormedParsed(eh: Data, around: Around)
    requires WellFormed(eh)
    ensures Parsed(true, eh, around)
         == Outcome(true, HeaderOf(eh).entry, Span(SegmentsOf(eh)), Some(PlacedAll(eh, around, SegmentsOf(eh))))
  {
    hide SegmentsOf, AllApart, PlacedAll, Span, Lowest, Highest, HasTable, Parsed, AllSound, AllAccepted;
    var segs := SegmentsOf(eh);
    SoundAccepted(segs, |eh|);
    var i, j :| 0 <= i < |segs| && 0 <= j < |segs| && segs[i].vaddr < segs[j].vaddr + segs[j].memsz;
    EndsCover(segs, |eh|, i);
    EndsCover(segs, |eh|, j);
    TableParsed(eh, around);
  }

  lemma {:induction false} EndsAttained(segs: seq<Segment>, size: u32) returns (i: nat, j: nat)
    requires AllSound(segs, size) && segs != []
    ensures i < |segs| && j < |segs|
    ensures Lowest(segs) == segs[i].vaddr && Highest(segs) == segs[j].vaddr + segs[j].memsz
    decreases |segs|
  {
    hide Wrap;
    var front, last := segs[..|segs| - 1], segs[|segs| - 1];
    WrapSmall(last.vaddr + last.memsz);
    i, j := |front|, |front|;
    if front != [] {
      var i', j' := EndsAttained(front, size);
      assert front[i'] == segs[i'] && front[j'] == segs[j'];
      i := if Lowest(segs) == last.vaddr then |front| else i';
      j := if Highest(segs) == last.vaddr + last.memsz then |front| else j';
    }
  }

  /** Where no sum wraps, not of the table nor of a segment, and the segments are disjoint and
      tame, the loader succeeds exactly on well-formed images. */
  lemma SucceedsIff(eh: Data, around: Around)
    requires |eh| < TWO_32 && (Elf64(eh) ==> TableSum(HeaderOf(eh)) < TWO_64)
    requires HasTable(eh) ==> AllApart(SegmentsOf(eh)) && forall s :: s in SegmentsOf(eh) ==> Tame(s)
    ensures Parsed(true, eh, around).ok <==> WellFormed(eh)
  {
    hide SegmentsOf, AllApart, Span, Lowest, Highest, Parsed, HeaderOf, Sound, Accepted, Tame, PlacedAll;
    if !HasTable(eh) {
      NoTableRefused(eh, around);
      return;
    }
    var segs := SegmentsOf(eh);
    TableParsed(eh, around);
    if WellFormed(eh) {
      WellFormedParsed(eh, around);
    }
    if Parsed(true, eh, around).ok {
      EmptyRange();
      forall i | 0 <= i < |segs|
        ensures Sound(segs[i], |eh|)
      {
        TameAcceptedIff(segs[i], |eh|);
      }
      var i, j := EndsAttained(segs, |eh|);
    }
  }

  lemma EmptyRange()
    ensures Highest([]) <= Lowest([])
  {
  }

  lemma NoTableRefused(eh: Data, around: Around)
    requires |eh| < TWO_32 && !HasTable(eh) && (Elf64(eh) ==> TableSum(HeaderOf(eh)) < TWO_64)
    ensures !Parsed(true, eh, around).ok
  {
    hide HeadersRead, Loaded, PlacedAll, Span, Wrap, Le2, Le8;
    if Elf64(eh) {
      var h := HeaderOf(eh);
      MulMonotone(0, h.phnum, h.phentsize);
      WrapSmall(TableSum(h));
    }
  }

  /** A well-formed image is staged as the memory image it describes, and the span to be moved
      covers every segment without leaving the stage. */
  lemma LoadIsFaithful(eh: Data, around: Around, a: nat, i: nat)
    requires WellFormed(eh) && a < STAGE_SIZE
    ensures var segs := SegmentsOf(eh);
            var o := Parsed(true, eh, around);
            && o.ok && o.entry == HeaderOf(eh).entry && o.stage.Some? && |o.stage.value| == 0x80_0000
            && (i < |segs| && InFile(segs[i], a) ==> o.stage.value[a] == eh[segs[i].offset + a - Place(segs[i])])
            && ((forall k :: 0 <= k < |segs| ==> !InFile(segs[k], a)) ==> o.stage.value[a] == 0)
            && (i < |segs| && InMemory(segs[i], a) ==> a < o.span)
            && 4096 <= o.span <= 0x80_0000
            && (o.span == 4096 || exists k :: 0 <= k < |segs| && o.span == segs[k].vaddr + segs[k].memsz - 0x10_0000)
  {
    hide Parsed, SegmentsOf, PlacedAll, HasTable, AllApart, HeaderOf, Span;
    var segs := SegmentsOf(eh);
    WellFormedParsed(eh, around);
    assert i < |segs| ==> Sound(segs[i], |eh|);
    if i < |segs| && InFile(segs[i], a) {
      FileByteStaged(eh, around, segs, i, a);
    }
    if forall k :: 0 <= k < |segs| ==> !InFile(segs[k], a) {
      OtherBytesZero(eh, around, segs, a);
    }
    SpanCovers(segs, |eh|, i, a);
    SpanIs(segs, |eh|);
  }

  lemma SpanIs(segs: seq<Segment>, size: u32)
    requires AllSound(segs, size) && segs != []
    ensures Span(segs) >= 4096
    ensures Span(segs) == 4096 || exists k :: 0 <= k < |segs| && Span(segs) == segs[k].vaddr + segs[k].memsz - 0x10_0000
  {
    hide Lowest, Highest, Wrap;
    var _, j := EndsAttained(segs, size);
    EndsCover(segs, size, 0);
    WrapSmall(Highest(segs) - KERNEL_LOAD);
  }

  lemma SpanCovers(segs: seq<Segment>, size: u32, i: nat, a: nat)
    requires AllSound(segs, size) && segs != []
    ensures (i < |segs| && InMemory(segs[i], a) ==> a < Span(segs)) && Span(segs) <= STAGE_SIZE
  {
    hide Lowest, Highest, Wrap;
    EndsCover(segs, size, if i < |segs| then i else 0);
    WrapSmall(Highest(segs) - KERNEL_LOAD);
  }

  /** What a load that is refused leaves behind: an image too short or without the ELF mark has no
      entry point and leaves the stage alone; one with the mark leaves its entry point all the same. */
  lemma RefusedLeaves(mapped: bool, eh: Data, around: Around)
    ensures var o := Parsed(mapped, eh, around);
            var marked := mapped && |eh| >= 64 && eh[..5] == [0x7f, 69, 76, 70, 2];
            && o.entry == (if marked then Le8(eh, 24) else 0)
            && (!marked ==> !o.ok && o.stage == None)
            && (!o.ok ==> o.span == 0)
            && (o.stage == None <==> !marked || !TableAccepted(HeaderOf(eh), |eh|))
  {
    hide HeadersRead, PlacedAll, Span, TableAccepted, Lowest, Highest, Loaded, Le8, Le2;
    assert |eh| >= 5 ==> eh[..5] == [eh[0], eh[1], eh[2], eh[3], eh[4]];
  }

  // ---- Runs ----

  /** The loads a running kernel is asked for: from memory, or from a file that may not map. */
  datatype Load =
    | FromMemory(mapped: bool, data: Data, around: Around)
    | FromFile(file: Option<Data>, around: Around)

  datatype Statics = Statics(ready: bool, entry: u64, span: u64)

  /** A load reaches the parser unless its file cannot be mapped or is too short. */
  predicate Reaches(op: Load) { op.FromMemory? || (op.file.Some? && |op.file.value| >= 64) }

  function OutcomeOf(op: Load): Outcome
    requires Reaches(op)
  {
    match op
    case FromMemory(mapped, data, around) => Parsed(mapped, data, around)
    case FromFile(file, around) => Parsed(true, file.value, around)
  }

  predicate Succeeds(op: Load) { Reaches(op) && OutcomeOf(op).ok }

  function After(o: Outcome): Statics { Statics(o.ok, o.entry, o.span) }

  function Apply(st: Statics, op: Load): Statics { if Reaches(op) then After(OutcomeOf(op)) else st }

  /** A file that is missing or shorter than 64 bytes leaves everything as it was; any other is
      parsed, and everything is then as the parser leaves it. */
  lemma FileLoads(st: Statics, file: Data, around: Around)
    ensures Apply(st, FromFile(None, around)) == st
    ensures |file| < 64 ==> Apply(st, FromFile(Some(file), around)) == st
    ensures |file| >= 64 ==> var o := Parsed(true, file, around);
                             Apply(st, FromFile(Some(file), around)) == Statics(o.ok, o.entry, o.span)
  {
    hide Parsed;
  }

  function Run(ops: seq<Load>): Statics {
    if ops == [] then Statics(false, 0, 0) else Apply(Run(ops[..|ops| - 1]), ops[|ops| - 1])
  }

  /** The reboot jumps. */
  predicate Jumps(st: Statics, trampoline: u32) { st.ready && st.entry != 0 && 0 < trampoline <= 0x1000 }

  /** Position i holds the last load that reached the parser. */
  predicate IsLatest(ops: seq<Load>, i: nat) {
    i < |ops| && Reaches(ops[i]) && forall j :: i < j < |ops| ==> !Reaches(ops[j])
  }

  lemma {:induction false} RunIsLatest(ops: seq<Load>, i: nat)
    requires IsLatest(ops, i)
    ensures Run(ops) == After(OutcomeOf(ops[i]))
    decreases |ops|
  {
    hide OutcomeOf, Reaches;
    if i < |ops| - 1 {
      var front := ops[..|ops| - 1];
      assert front[i] == ops[i];
      RunIsLatest(front, i);
    }
  }

  lemma {:induction false} RunOfNone(ops: seq<Load>)
    requires forall j :: 0 <= j < |ops| ==> !Reaches(ops[j])
    ensures Run(ops) == Statics(false, 0, 0)
    decreases |ops|
  {
    hide OutcomeOf, Reaches;
    if ops != [] {
      RunOfNone(ops[..|ops| - 1]);
    }
  }

  /** Over any run of loads a reboot jumps just when the last image parsed passed the loader's
      checks, straying or not, and has an entry point. */
  lemma JumpsIff(ops: seq<Load>, trampoline: u32)
    requires 0 < trampoline <= 0x1000
    ensures Jumps(Run(ops), trampoline)
            <==> exists i: nat :: IsLatest(ops, i) && Succeeds(ops[i]) && OutcomeOf(ops[i]).entry != 0
  {
    hide OutcomeOf, Reaches, Run;
    if i: nat :| IsLatest(ops, i) {
      RunIsLatest(ops, i);
    } else {
      forall j | 0 <= j < |ops|
        ensures !Reaches(ops[j])
      {
        NoLatest(ops, j);
      }
      RunOfNone(ops);
    }
  }

  lemma NoLatest(ops: seq<Load>, j: nat)
    requires j < |ops| && forall i: nat :: !IsLatest(ops, i)
    ensures !Reaches(ops[j])
    decreases |ops| - j
  {
    hide Reaches;
    forall k | j < k < |ops|
      ensures !Reaches(ops[k])
    {
      NoLatest(ops, k);
    }
    assert !IsLatest(ops, j);
  }

  /** A jump says that the latest load succeeded exactly when that load reached the parser. */
  lemma LatestSucceededIff(ops: seq<Load>, op: Load, trampoline: u32)
    requires Jumps(Run(ops + [op]), trampoline)
    ensures Succeeds(op) <==> Reaches(op)
  {
    hide OutcomeOf;
    assert (ops + [op])[..|ops|] == ops;
  }

  /** A least image: one segment of sixteen zero bytes, entered at its start. */
  function LeastByte(i: nat): byte {
    if i == 0 then 0x7f else if i == 1 then 69 else if i == 2 then 76 else if i == 3 then 70 else if i == 4 then 2
    else if i == 26 || i == 82 then 0x10           // entry point and address 0x100000
    else if i == 32 then 64                        // program headers after the header
    else if i == 54 then 56 else if i == 56 then 1 // one of them
    else if i == 64 then 1                         // PT_LOAD
    else if i == 104 then 16                       // of sixteen bytes
    else 0
  }

  const LEAST: Data := seq(120, i requires i >= 0 => LeastByte(i))

  lemma LeastSegment()
    ensures HasTable(LEAST) && HeaderOf(LEAST) == Header(0x10_0000, 64, 56, 1)
    ensures SegmentsOf(LEAST) == [Segment(0, 0x10_0000, 0, 16)]
  {
    hide Le2, Le4, Le8;
    LeastHeader();
    LeastFields();
    var h := HeaderOf(LEAST);
    assert SegmentAt(LEAST, 64) == Some(Segment(0, 0x10_0000, 0, 16));
    assert Segments(LEAST, h, 0) == [];
    assert Segments(LEAST, h, 1) == [Segment(0, 0x10_0000, 0, 16)];
  }

  lemma LeastHeader()
    ensures Elf64(LEAST) && Le8(LEAST, 24) == 0x10_0000 && Le8(LEAST, 32) == 64
    ensures Le2(LEAST, 54) == 56 && Le2(LEAST, 56) == 1 && Le4(LEAST, 64) == 1
  {
  }

  lemma LeastFields()
    ensures Le8(LEAST, 72) == 0 && Le8(LEAST, 80) == 0x10_0000 && Le8(LEAST, 96) == 0 && Le8(LEAST, 104) == 16
  {
    hide Le4;
    LeastWords();
  }

  lemma LeastWords()
    ensures Le4(LEAST, 72) == 0 && Le4(LEAST, 76) == 0 && Le4(LEAST, 80) == 0x10_0000 && Le4(LEAST, 84) == 0
    ensures Le4(LEAST, 96) == 0 && Le4(LEAST, 100) == 0 && Le4(LEAST, 104) == 16 && Le4(LEAST, 108) == 0
  {
  }

  /** Otherwise not: after a good image, a file that cannot be mapped fails to load, and the
      reboot still jumps to the image before it. */
  lemma StaleImageJumps(around: Around)
    ensures var missing := FromFile(None, around);
            !Succeeds(missing) && Jumps(Run([FromMemory(true, LEAST, around), missing]), 0x100)
  {
    hide Parsed, SegmentsOf, HasTable, HeaderOf;
    LeastSegment();
    var s := SegmentsOf(LEAST);
    assert s[0].vaddr < s[0].vaddr + s[0].memsz;
    WellFormedParsed(LEAST, around);
    var ops := [FromMemory(true, LEAST, around), FromFile(None, around)];
    assert IsLatest(ops, 0);
    RunIsLatest(ops, 0);
  }

  /** The least image with a file part sixteen bytes longer than the stage. */
  const LONG: Data :=
    seq(0x80_0100, i requires i >= 0 => if i == 96 then 0x10 else if i == 98 then 0x80 else LeastByte(i))

  lemma LongSegment()
    ensures HasTable(LONG) && HeaderOf(LONG) == Header(0x10_0000, 64, 56, 1)
    ensures SegmentsOf(LONG) == [Segment(0, 0x10_0000, 0x80_0010, 16)]
  {
    hide Le2, Le4, Le8;
    LongHeader();
    LongOffset();
    LongSizes();
    var h := HeaderOf(LONG);
    assert SegmentAt(LONG, 64) == Some(Segment(0, 0x10_0000, 0x80_0010, 16));
    assert Segments(LONG, h, 0) == [];
    assert Segments(LONG, h, 1) == [Segment(0, 0x10_0000, 0x80_0010, 16)];
  }

  lemma LongHeader()
    ensures Elf64(LONG) && Le8(LONG, 24) == 0x10_0000 && Le8(LONG, 32) == 64
    ensures Le2(LONG, 54) == 56 && Le2(LONG, 56) == 1 && Le4(LONG, 64) == 1
  {
  }

  lemma LongOffset()
    ensures Le8(LONG, 72) == 0 && Le8(LONG, 80) == 0x10_0000
  {
  }

  lemma LongSizes()
    ensures Le8(LONG, 96) == 0x80_0010 && Le8(LONG, 104) == 16
  {
  }

  /** It is accepted, written past the end of the stage, and jumped to. */
  lemma StrayImageJumps(around: Around)
    ensures var s := Segment(0, 0x10_0000, 0x80_0010, 16);
            && HasTable(LONG) && SegmentsOf(LONG) == [s] && Accepted(s, |LONG|) && !Inside(s, |LONG|)
            && Jumps(Run([FromMemory(true, LONG, around)]), 0x100)
  {
    hide Parsed, SegmentsOf, HasTable, HeaderOf, Inside, PlacedAll;
    LongSegment();
    var segs := SegmentsOf(LONG);
    StraysIff(segs[0], |LONG|);
    OneRange(segs[0]);
    TableParsed(LONG, around);
    var ops := [FromMemory(true, LONG, around)];
    assert IsLatest(ops, 0);
    RunIsLatest(ops, 0);
  }

  lemma OneRange(s: Segment)
    requires s.vaddr + s.memsz < TWO_64
    ensures Lowest([s]) == s.vaddr && Highest([s]) == s.vaddr + s.memsz
  {
    assert [s][..0] == [];
  }

  lemma NothingReached(stage: Data, at: int, src: u64 -> byte)
    ensures Reached(stage, at, 0, src) == stage
  {
  }

  lemma NoneOfZero()
    ensures Low32(0) == 0
  {
  }

  class Loader {
    var entry: u64
    var span: u64
    var ready: bool
    const stage: array<byte>

    ghost predicate Valid() { stage.Length == STAGE_SIZE }

    constructor ()
      ensures Valid() && fresh(stage) && !ready && entry == 0 && span == 0
    {
      entry, span, ready := 0, 0, false;
      stage := new byte[STAGE_SIZE];
    }

    /** The stage, cleared. */
    method ClearStage()
      requires Valid()
      modifies stage
      ensures stage[..] == Zeros(STAGE_SIZE)
    {
      forall i | 0 <= i < stage.Length {
        stage[i] := 0;
      }
    }

    /** A write of n bytes at a place, as far as it falls in the stage. */
    method WriteAt(at: int, n: nat, src: u64 -> byte)
      requires Valid()
      modifies stage
      ensures stage[..] == Reached(old(stage[..]), at, n, src)
    {
      forall a | 0 <= a < stage.Length && Wrap(a - at) < n {
        stage[a] := src(Wrap(a - at));
      }
    }

    /** One program header's segment: the checks in their order, the copy and the clearing. */
    method LoadSegment(eh: Data, around: Around, s: Segment) returns (ok: bool)
      requires Valid()
      modifies stage
      ensures ok == Accepted(s, |eh|)
      ensures stage[..] == (if ok then Placed(old(stage[..]), eh, around, s) else old(stage[..]))
    {
      hide Reached, Wrap, Low32, ByteAt;
      if s.vaddr < KERNEL_LOAD {
        return false;
      }
      if Wrap(s.vaddr - KERNEL_LOAD + s.memsz) > STAGE_SIZE {
        return false;
      }
      if s.filesz != 0 && Wrap(s.offset + s.filesz) > |eh| {
        return false;
      }
      PlaceSegment(eh, around, s);
      return true;
    }

    method PlaceSegment(eh: Data, around: Around, s: Segment)
      requires Valid()
      modifies stage
      ensures stage[..] == Placed(old(stage[..]), eh, around, s)
    {
      hide Reached, Wrap, Low32, ByteAt;
      var at := s.vaddr - KERNEL_LOAD;
      NothingReached(stage[..], at, i => ByteAt(eh, around, Wrap(s.offset + i)));
      NoneOfZero();
      if s.filesz != 0 {
        WriteAt(at, Low32(s.filesz), i => ByteAt(eh, around, Wrap(s.offset + i)));
      }
      NothingReached(stage[..], at + s.filesz, _ => 0);
      if s.memsz > s.filesz {
        WriteAt(at + s.filesz, Low32(s.memsz - s.filesz), _ => 0);
      }
    }

    /** The program header loop. */
    method LoadSegments(eh: Data, around: Around, h: Header) returns (ok: bool, low: u64, high: u64)
      requires Valid() && stage[..] == Zeros(STAGE_SIZE)
      modifies stage
      ensures var (all, done) := Loaded(HeadersRead(eh, around, h, h.phnum), |eh|);
              ok == all && stage[..] == PlacedAll(eh, around, done) && (ok ==> low == Lowest(done) && high == Highest(done))
    {
      hide Accepted, SegmentAt, Placed, Zeros, Wrap, Window, HeadersRead, Loaded, PlacedAll, Lowest, Highest;
      low, high := 0xFFFF_FFFF_FFFF_FFFF, 0;
      ghost var done: seq<Segment> := [];
      NothingLoaded(eh, around, h);
      for i := 0 to h.phnum
        invariant HeadersRead(eh, around, h, i) == done && Loaded(done, |eh|) == (true, done)
        invariant stage[..] == PlacedAll(eh, around, done) && low == Lowest(done) && high == Highest(done)
      {
        var p := SegmentAt(Window(eh, around, Wrap(h.phoff + i * h.phentsize), 56), 0);
        OneHeaderMore(eh, around, h, i);
        if p.Some? {
          var s := p.value;
          LoadedOneMore(done, s, |eh|);
          PlacedOneMore(eh, around, done, s);
          ok := LoadSegment(eh, around, s);
          if !ok {
            LoadedStuck(eh, around, h, i + 1, h.phnum);
            return;
          }
          done := done + [s];
          low := if s.vaddr < low then s.vaddr else low;
          high := if Wrap(s.vaddr + s.memsz) > high then Wrap(s.vaddr + s.memsz) else high;
        }
      }
      ok := true;
    }

    /** `kexec_parse_elf`. */
    method ParseElf(mapped: bool, eh: Data, around: Around) returns (ok: bool)
      requires Valid()
      modifies this, stage
      ensures var o := Parsed(mapped, eh, around);
              && ok == ready == o.ok && entry == o.entry && span == o.span
              && stage[..] == (if o.stage.Some? then o.stage.value else old(stage[..]))
    {
      hide Zeros, HeadersRead, Loaded, PlacedAll, Wrap;
      ready, span, entry := false, 0, 0;
      if !mapped || |eh| < 64 {
        return false;
      }
      if eh[0] != 0x7f || eh[1] != 69 || eh[2] != 76 || eh[3] != 70 || eh[4] != 2 {
        return false;
      }
      var h := HeaderOf(eh);
      entry := h.entry;
      if h.phoff == 0 || h.phnum == 0 || h.phentsize < 56 || Wrap(h.phoff + h.phnum * h.phentsize) > |eh| {
        return false;
      }
      ClearStage();
      var low, high;
      ok, low, high := LoadSegments(eh, around, h);
      if !ok {
        return;
      }
      if high <= low {
        return false;
      }
      span := Wrap(high - KERNEL_LOAD);
      if span < 4096 {
        span := 4096;
      }
      ready := true;
    }

    ghost function State(): Statics
      reads this
    {
      Statics(ready, entry, span)
    }

    method LoadMemory(mapped: bool, data: Data, around: Around) returns (ok: bool)
      requires Valid()
      modifies this, stage
      ensures State() == Apply(old(State()), FromMemory(mapped, data, around))
      ensures ok == Succeeds(FromMemory(mapped, data, around))
    {
      hide Parsed;
      ok := ParseElf(mapped, data, around);
    }

    method LoadFile(file: Option<Data>, around: Around) returns (ok: bool)
      requires Valid()
      modifies this, stage
      ensures State() == Apply(old(State()), FromFile(file, around)) && ok == Succeeds(FromFile(file, around))
    {
      hide Parsed;
      if file.None? || |file.value| < 64 {
        return false;
      }
      ok := ParseElf(true, file.value, around);
    }

    /** `kexec_reboot` as far as its decision: the span and entry handed to the trampoline. */
    method Reboot(trampoline: u32) returns (jump: Option<(u64, u64)>)
      ensures jump.Some? <==> Jumps(State(), trampoline)
      ensures jump.Some? <==> ready && entry != 0 && 0 < trampoline <= 4096
      ensures jump.Some? ==> jump.value == (span, entry)
    {
      if !ready || entry == 0 {
        return None;
      }
      if trampoline == 0 || trampoline > 0x1000 {
        return None;
      }
      return Some((span, entry));
    }
  }
}
