/** The write-behind cache of stdio: eight slots of 4096 bytes between the program
    and the kernel's files, seen against a file that is not buffered at all. */
module Stdio {
  import opened Words

  const SLOTS := 8
  const BUFSIZE := 4096

  /** What a program can offer to write: its addresses end at 0x40000000. */
  type Buffer = s: seq<byte> | |s| <= 0x4000_0000

  // ---- An unbuffered file ----

  datatype File = File(content: seq<byte>, pos: nat)

  /** A write at the current position, over what is there, padding with zeros if the
      position lies beyond the end. Writing nothing changes nothing. */
  function Write(f: File, data: seq<byte>): File {
    if data == [] then f
    else
      var n := if |f.content| < f.pos + |data| then f.pos + |data| else |f.content|;
      File(seq(n, i requires 0 <= i < n => ByteAfter(f, data, i)), f.pos + |data|)
  }

  function ByteAfter(f: File, data: seq<byte>, i: nat): byte {
    if f.pos <= i < f.pos + |data| then data[i - f.pos]
    else if i < |f.content| then f.content[i]
    else 0
  }

  /** The bytes before the position and those behind the data stay; zeros fill a gap; the file
      never gets shorter. */
  lemma WriteIs(f: File, data: seq<byte>)
    requires data != []
    ensures Write(f, data).pos == f.pos + |data|
    ensures f.pos + |data| <= |f.content| ==>
              Write(f, data).content == f.content[..f.pos] + data + f.content[f.pos + |data|..]
    ensures f.pos <= |f.content| < f.pos + |data| ==> Write(f, data).content == f.content[..f.pos] + data
    ensures f.pos > |f.content| ==>
              Write(f, data).content == f.content + seq(f.pos - |f.content|, _ => 0) + data
  {
  }

  /** Two writes in a row are one write of both. */
  lemma WriteTwice(f: File, a: seq<byte>, b: seq<byte>)
    ensures Write(Write(f, a), b) == Write(f, a + b)
  {
    if a == [] {
      assert a + b == b;
    } else if b == [] {
      assert a + b == a;
    } else {
      var lhs, rhs := Write(Write(f, a), b).content, Write(f, a + b).content;
      assert |lhs| == |rhs|;
      forall i | 0 <= i < |lhs|
        ensures lhs[i] == rhs[i]
      {
        assert lhs[i] == ByteAfter(Write(f, a), b, i);
        assert rhs[i] == ByteAfter(f, a + b, i);
      }
      assert lhs == rhs;
    }
  }

  lemma WriteNothing(f: File)
    ensures Write(f, []) == f
  {
  }

  /** A write that leaves the file as it was wrote nothing. */
  lemma WriteIsNothing(f: File, data: seq<byte>)
    requires Write(f, data) == f
    ensures data == []
  {
  }

  datatype Whence = SeekSet | SeekCur | SeekEnd

  function SeekTarget(f: File, off: int, whence: Whence): int {
    off + match whence case SeekSet => 0 case SeekCur => f.pos case SeekEnd => |f.content|
  }

  /** A seek before the start of the file is refused. */
  function Seek(f: File, off: int, whence: Whence): File {
    if SeekTarget(f, off, whence) < 0 then f else f.(pos := SeekTarget(f, off, whence))
  }

  /** Seeking counts from the start, the position or the end, beyond the end if asked to, and
      never changes what is in the file. */
  lemma SeekIs(f: File, off: int)
    ensures Seek(f, off, SeekSet) == (if off >= 0 then File(f.content, off) else f)
    ensures Seek(f, off, SeekCur) == (if f.pos + off >= 0 then File(f.content, f.pos + off) else f)
    ensures Seek(f, off, SeekEnd) == (if |f.content| + off >= 0 then File(f.content, |f.content| + off) else f)
  {
  }

  // ---- The cache, and the files it stands for ----

  /** A slot is free when its stream is 0. */
  datatype Slot = Slot(stream: int, used: nat, data: seq<byte>)

  type Files = map<int, File>

  /** Buffers of the right size, and no stream with two of them. */
  ghost predicate Framed(slots: seq<Slot>) {
    && |slots| == SLOTS
    && (forall i :: 0 <= i < |slots| ==> |slots[i].data| == BUFSIZE && slots[i].used <= BUFSIZE)
    && (forall i, j :: 0 <= i < j < |slots| && slots[i].stream != 0 ==> slots[i].stream != slots[j].stream)
  }

  /** Between calls no buffer is full. */
  ghost predicate NoneFull(slots: seq<Slot>) {
    forall i :: 0 <= i < |slots| ==> slots[i].used < BUFSIZE
  }

  /** Slots belong to open streams other than the standard three. */
  ghost predicate Owned(slots: seq<Slot>, open: set<int>, standard: set<int>) {
    forall i :: 0 <= i < |slots| && slots[i].stream != 0 ==>
                  slots[i].stream in open && slots[i].stream !in standard
  }

  function Find(slots: seq<Slot>, s: int): (i: int)
    ensures -1 <= i < |slots|
    ensures i >= 0 ==> slots[i].stream == s && forall j :: 0 <= j < i ==> slots[j].stream != s
    ensures i == -1 ==> forall j :: 0 <= j < |slots| ==> slots[j].stream != s
  {
    if slots == [] then -1
    else if slots[0].stream == s then 0
    else
      var i := Find(slots[1..], s);
      if i < 0 then -1 else i + 1
  }

  /** The bytes a stream has written and the kernel has not seen. */
  ghost function Pending(slots: seq<Slot>, s: int): seq<byte>
    requires Framed(slots)
  {
    var i := Find(slots, s);
    if i < 0 then [] else slots[i].data[..slots[i].used]
  }

  /** The file a program believes it has: the kernel's, with what is pending written to it. */
  ghost function Logical(slots: seq<Slot>, files: Files, s: int): File
    requires Framed(slots) && s in files
  {
    Write(files[s], Pending(slots, s))
  }

  ghost function View(slots: seq<Slot>, files: Files): (v: Files)
    requires Framed(slots)
    ensures v.Keys == files.Keys
  {
    map s | s in files :: Logical(slots, files, s)
  }

  /** Files that agree one by one agree. */
  lemma SameView(slots: seq<Slot>, files: Files, slots': seq<Slot>, files': Files)
    requires Framed(slots) && Framed(slots') && files'.Keys == files.Keys
    requires forall t :: t in files ==> Logical(slots', files', t) == Logical(slots, files, t)
    ensures View(slots', files') == View(slots, files)
  {
    hide Logical, Framed;
  }

  /** A program with these files writes `data` to one of them. */
  function Wrote(v: Files, s: int, data: seq<byte>): Files
    requires s in v
  {
    v[s := Write(v[s], data)]
  }

  lemma WroteTwice(v: Files, s: int, a: seq<byte>, b: seq<byte>)
    requires s in v
    ensures Wrote(Wrote(v, s, a), s, b) == Wrote(v, s, a + b)
    ensures Wrote(v, s, []) == v
  {
    hide Write;
    WriteTwice(v[s], a, b);
    WriteNothing(v[s]);
  }

  lemma PendingAt(slots: seq<Slot>, i: nat)
    requires Framed(slots) && i < |slots| && slots[i].stream != 0
    ensures Find(slots, slots[i].stream) == i
    ensures Pending(slots, slots[i].stream) == slots[i].data[..slots[i].used]
  {
  }

  lemma UpdateFramed(slots: seq<Slot>, i: nat, slot: Slot)
    requires Framed(slots) && i < |slots| && |slot.data| == BUFSIZE && slot.used <= BUFSIZE
    requires slot.stream == slots[i].stream || slot.stream == 0 || Find(slots, slot.stream) < 0
    ensures Framed(slots[i := slot])
  {
  }

  /** A change to one slot concerns no stream but its owner, before or after. */
  lemma OthersPending(slots: seq<Slot>, i: nat, slot: Slot, s: int)
    requires Framed(slots) && i < |slots| && Framed(slots[i := slot])
    requires s != 0 && s != slots[i].stream && s != slot.stream
    ensures Pending(slots[i := slot], s) == Pending(slots, s)
  {
    var slots' := slots[i := slot];
    var j := Find(slots, s);
    if j >= 0 {
      assert slots'[j] == slots[j];
      PendingAt(slots', j);
    } else {
      assert forall k :: 0 <= k < |slots'| ==> slots'[k].stream != s;
    }
  }

  /** Putting `chunk` behind what is already in the buffer. */
  function Appended(slot: Slot, chunk: seq<byte>): Slot
    requires slot.used + |chunk| <= |slot.data|
  {
    slot.(used := slot.used + |chunk|,
          data := slot.data[..slot.used] + chunk + slot.data[slot.used + |chunk|..])
  }

  lemma AppendView(slots: seq<Slot>, files: Files, i: nat, chunk: seq<byte>)
    requires Framed(slots) && 0 !in files && i < |slots| && slots[i].stream in files
    requires slots[i].used + |chunk| <= BUFSIZE
    ensures var s, slots' := slots[i].stream, slots[i := Appended(slots[i], chunk)];
            && Framed(slots')
            && View(slots', files) == Wrote(View(slots, files), s, chunk)
  {
    hide Write, Find, Framed, Pending, Appended;
    AppendPending(slots, i, chunk);
    var s, slots' := slots[i].stream, slots[i := Appended(slots[i], chunk)];
    WriteTwice(files[s], Pending(slots, s), chunk);
    forall t | t in files && t != s
      ensures Logical(slots', files, t) == Logical(slots, files, t)
    {
      OthersPending(slots, i, Appended(slots[i], chunk), t);
    }
  }

  lemma AppendPending(slots: seq<Slot>, i: nat, chunk: seq<byte>)
    requires Framed(slots) && i < |slots| && slots[i].stream != 0 && slots[i].used + |chunk| <= BUFSIZE
    ensures slots[i].used + |chunk| <= |slots[i].data| && Appended(slots[i], chunk).stream == slots[i].stream
    ensures var slots' := slots[i := Appended(slots[i], chunk)];
            Framed(slots') && Pending(slots', slots[i].stream) == Pending(slots, slots[i].stream) + chunk
  {
    hide Find;
    var slots' := slots[i := Appended(slots[i], chunk)];
    UpdateFramed(slots, i, Appended(slots[i], chunk));
    PendingAt(slots, i);
    PendingAt(slots', i);
  }

  function Drained(slots: seq<Slot>, s: int): seq<Slot> {
    var i := Find(slots, s);
    if i < 0 then slots else slots[i := slots[i].(used := 0)]
  }

  function Vacated(slots: seq<Slot>, s: int): seq<Slot> {
    var i := Find(slots, s);
    if i < 0 then slots else slots[i := slots[i].(stream := 0, used := 0)]
  }

  /** Handing the pending bytes to the kernel is invisible to the program. */
  lemma FlushView(slots: seq<Slot>, files: Files, s: int)
    requires Framed(slots) && 0 !in files && s in files
    ensures var slots', files' := Drained(slots, s), files[s := Logical(slots, files, s)];
            && Framed(slots') && Find(slots', s) == Find(slots, s) && Pending(slots', s) == []
            && View(slots', files') == View(slots, files)
  {
    hide Write, View, Find, Framed, Pending;
    var slots', files' := Drained(slots, s), files[s := Logical(slots, files, s)];
    DrainedPending(slots, s);
    WriteNothing(files'[s]);
    forall t | t in files
      ensures Logical(slots', files', t) == Logical(slots, files, t)
    {
      if t != s { DrainedOthers(slots, s, t); }
    }
    SameView(slots, files, slots', files');
  }

  lemma DrainedPending(slots: seq<Slot>, s: int)
    requires Framed(slots) && s != 0
    ensures Framed(Drained(slots, s)) && Find(Drained(slots, s), s) == Find(slots, s)
    ensures Pending(Drained(slots, s), s) == []
  {
    hide Find;
    var i := Find(slots, s);
    if i >= 0 {
      UpdateFramed(slots, i, slots[i].(used := 0));
      PendingAt(Drained(slots, s), i);
    }
  }

  lemma DrainedOthers(slots: seq<Slot>, s: int, t: int)
    requires Framed(slots) && s != 0 && t != 0 && t != s && Framed(Drained(slots, s))
    ensures Pending(Drained(slots, s), t) == Pending(slots, t)
  {
    hide Find, Framed, Pending;
    var i := Find(slots, s);
    if i >= 0 { OthersPending(slots, i, slots[i].(used := 0), t); }
  }

  /** Giving up a slot whose bytes have been handed over is invisible too. */
  lemma VacateView(slots: seq<Slot>, files: Files, s: int)
    requires Framed(slots) && 0 !in files && s in files && Pending(slots, s) == []
    ensures Framed(Vacated(slots, s)) && Find(Vacated(slots, s), s) < 0
    ensures View(Vacated(slots, s), files) == View(slots, files)
  {
    hide Write, View, Find, Framed, Pending;
    var slots' := Vacated(slots, s);
    VacatedPending(slots, s);
    forall t | t in files
      ensures Logical(slots', files, t) == Logical(slots, files, t)
    {
      if t != s { VacatedOthers(slots, s, t); }
    }
    SameView(slots, files, slots', files);
  }

  lemma VacatedPending(slots: seq<Slot>, s: int)
    requires Framed(slots) && s != 0
    ensures Framed(Vacated(slots, s)) && Find(Vacated(slots, s), s) < 0 && Pending(Vacated(slots, s), s) == []
  {
    hide Find;
    var i := Find(slots, s);
    if i >= 0 {
      UpdateFramed(slots, i, slots[i].(stream := 0, used := 0));
      assert forall j :: 0 <= j < |slots| ==> Vacated(slots, s)[j].stream != s;
    }
  }

  lemma VacatedOthers(slots: seq<Slot>, s: int, t: int)
    requires Framed(slots) && s != 0 && t != 0 && t != s && Framed(Vacated(slots, s))
    ensures Pending(Vacated(slots, s), t) == Pending(slots, t)
  {
    hide Find, Framed, Pending;
    var i := Find(slots, s);
    if i >= 0 { OthersPending(slots, i, slots[i].(stream := 0, used := 0), t); }
  }

  function Flushed(slots: seq<Slot>, s: int, release: bool): seq<Slot> {
    if release then Vacated(slots, s) else Drained(slots, s)
  }

  /** Both kinds of flush: invisible, and nothing is left pending. */
  lemma FlushedView(slots: seq<Slot>, files: Files, s: int, release: bool)
    requires Framed(slots) && 0 !in files && s in files
    ensures var slots', files' := Flushed(slots, s, release), files[s := Logical(slots, files, s)];
            && Framed(slots') && Pending(slots', s) == [] && (release ==> Find(slots', s) < 0)
            && View(slots', files') == View(slots, files)
  {
    hide Write, View, Framed, Pending, Logical, Find;
    FlushView(slots, files, s);
    var files' := files[s := Logical(slots, files, s)];
    if release {
      VacatedPending(slots, s);
      VacatedDrained(slots, s);
      VacateView(Drained(slots, s), files', s);
    }
  }

  lemma VacatedDrained(slots: seq<Slot>, s: int)
    requires Framed(slots) && s != 0
    ensures Vacated(Drained(slots, s), s) == Vacated(slots, s)
  {
    hide Find, Framed, Pending;
    DrainedPending(slots, s);
    assert Vacated(Drained(slots, s), s) == Vacated(slots, s);
  }

  lemma FlushedOwned(slots: seq<Slot>, s: int, release: bool, open: set<int>, standard: set<int>)
    requires Framed(slots) && Owned(slots, open, standard)
    ensures Owned(Flushed(slots, s, release), open, standard)
    ensures (forall i :: 0 <= i < |slots| && i != Find(slots, s) ==> slots[i].used < BUFSIZE) ==>
              NoneFull(Flushed(slots, s, release))
    ensures !release ==> forall i :: 0 <= i < |slots| ==> Flushed(slots, s, release)[i].stream == slots[i].stream
  {
  }

  /** With nothing pending, a raw write is a write. */
  lemma RawView(slots: seq<Slot>, files: Files, s: int, data: seq<byte>)
    requires Framed(slots) && s in files && Pending(slots, s) == []
    ensures View(slots, files[s := Write(files[s], data)]) == Wrote(View(slots, files), s, data)
  {
    hide Write;
    WriteNothing(files[s]);
    WriteNothing(Write(files[s], data));
    var files' := files[s := Write(files[s], data)];
    forall t | t in files
      ensures Logical(slots, files', t) == if t == s then Write(Logical(slots, files, s), data) else Logical(slots, files, t)
    {
    }
  }

  /** Taking over a free slot is invisible. */
  lemma ClaimView(slots: seq<Slot>, files: Files, i: nat, s: int)
    requires Framed(slots) && 0 !in files && i < |slots|
    requires s != 0 && slots[i].stream == 0 && Find(slots, s) < 0
    ensures var slots' := slots[i := slots[i].(stream := s, used := 0)];
            Framed(slots') && View(slots', files) == View(slots, files)
  {
    hide Write;
    var slots' := slots[i := slots[i].(stream := s, used := 0)];
    UpdateFramed(slots, i, slots[i].(stream := s, used := 0));
    PendingAt(slots', i);
    forall t | t in files && t != s
      ensures Pending(slots', t) == Pending(slots, t)
    {
      OthersPending(slots, i, slots[i].(stream := s, used := 0), t);
    }
  }

  // ---- What fwrite returns ----

  /** A write that goes straight to the kernel: to a standard stream, of a buffer or more, or
      when no slot is to be had. */
  predicate Raw(slots: seq<Slot>, direct: bool, total: int, s: int) {
    direct || total >= BUFSIZE || (Find(slots, s) < 0 && Find(slots, 0) < 0)
  }

  /** The result: items, but the kernel's count of bytes for a raw write without a descriptor. */
  function Returned(slots: seq<Slot>, direct: bool, descriptor: bool, itemsize: i32, noitems: i32, s: int): int {
    if itemsize <= 0 || noitems <= 0 then 0
    else if Raw(slots, direct, itemsize * noitems, s) && !descriptor then itemsize * noitems
    else noitems
  }

  /** All items are written, but the result says so if and only if items are bytes, the stream has
      a descriptor, or the write was buffered. */
  lemma ReturnsItemsIff(slots: seq<Slot>, direct: bool, descriptor: bool, itemsize: i32, noitems: i32, s: int)
    requires itemsize > 0 && noitems > 0
    ensures var r := Returned(slots, direct, descriptor, itemsize, noitems, s);
            && (r == noitems <==> itemsize == 1 || descriptor || !Raw(slots, direct, itemsize * noitems, s))
            && (r != noitems ==> r == itemsize * noitems)
  {
    hide Raw;
    if itemsize > 1 { MulMonotone(2, itemsize, noitems); }
  }

  /** A write bypasses the cache if and only if it is to a direct stream, has 4096 bytes or more,
      or finds neither a slot of its own nor a free one. */
  lemma RawIff(slots: seq<Slot>, direct: bool, total: int, s: int)
    ensures Raw(slots, direct, total, s) <==>
              direct || total >= 4096 || forall i :: 0 <= i < |slots| ==> slots[i].stream != s && slots[i].stream != 0
  {
  }

  /** For one, 2000 items of 4 bytes: the result is 8000. */
  lemma ReturnsBytes(slots: seq<Slot>, s: int)
    ensures Returned(slots, false, false, 4, 2000, s) == 8000
  {
  }

  // ---- Whole runs ----

  datatype Op =
    | OpWrite(s: int, buf: Buffer, itemsize: i32, noitems: i32)
    | OpPutc(s: int, c: int)
    | OpFlush(s: int)
    | OpFlushAll
    | OpSeek(s: int, off: int, whence: Whence)
    | OpClose(s: int)

  predicate Announced(buf: Buffer, itemsize: i32, noitems: i32) {
    itemsize > 0 && noitems > 0 ==> |buf| == itemsize * noitems
  }

  /** The operation names an open stream that is not standard, and a write is offered the
      bytes it announces. */
  predicate Proper(v: Files, op: Op, standard: set<int>) {
    || op.OpFlushAll?
    || (&& op.s in v && op.s !in standard
        && (op.OpWrite? ==> Announced(op.buf, op.itemsize, op.noitems)))
  }

  /** What the operation does to files that are not buffered. */
  function Unbuffered(v: Files, op: Op): Files
    requires op.OpFlushAll? || op.s in v
  {
    match op
    case OpWrite(s, buf, itemsize, noitems) => if itemsize <= 0 || noitems <= 0 then v else Wrote(v, s, buf)
    case OpPutc(s, c) => Wrote(v, s, [c % 256])
    case OpFlush(_) => v
    case OpFlushAll => v
    case OpSeek(s, off, whence) => v[s := Seek(v[s], off, whence)]
    case OpClose(s) => v - {s}
  }

  /** Writing changes one file, by exactly the bytes offered; a character is written as a byte. */
  lemma UnbufferedWrites(v: Files, s: int, buf: Buffer, itemsize: i32, noitems: i32, c: int)
    requires s in v
    ensures itemsize > 0 && noitems > 0 ==>
              Unbuffered(v, OpWrite(s, buf, itemsize, noitems)) == v[s := Write(v[s], buf)]
    ensures itemsize <= 0 || noitems <= 0 ==> Unbuffered(v, OpWrite(s, buf, itemsize, noitems)) == v
    ensures 0 <= c < 256 ==> Unbuffered(v, OpPutc(s, c)) == v[s := Write(v[s], [c])]
    ensures -256 <= c < 0 ==> Unbuffered(v, OpPutc(s, c)) == v[s := Write(v[s], [c + 256])]
  {
    hide Write;
  }

  /** A flush is nothing to such a file, a seek moves only its own position, and closing takes away
      only its own. */
  lemma UnbufferedMoves(v: Files, s: int, off: int, whence: Whence, t: int)
    requires s in v && t in v && t != s
    ensures Unbuffered(v, OpFlush(s)) == v && Unbuffered(v, OpFlushAll) == v
    ensures var w := Unbuffered(v, OpSeek(s, off, whence));
            w.Keys == v.Keys && w[s] == Seek(v[s], off, whence) && w[t] == v[t]
    ensures var w := Unbuffered(v, OpClose(s)); w.Keys == v.Keys - {s} && w[t] == v[t]
  {
    hide Seek;
  }

  predicate ProperRun(v: Files, ops: seq<Op>, standard: set<int>)
    decreases |ops|
  {
    ops == [] || (Proper(v, ops[0], standard) && ProperRun(Unbuffered(v, ops[0]), ops[1..], standard))
  }

  function UnbufferedRun(v: Files, ops: seq<Op>, standard: set<int>): Files
    requires ProperRun(v, ops, standard)
    decreases |ops|
  {
    if ops == [] then v else UnbufferedRun(Unbuffered(v, ops[0]), ops[1..], standard)
  }

  /** A run is its operations one after the other. */
  lemma {:induction false} RunIsSteps(v: Files, a: seq<Op>, b: seq<Op>, standard: set<int>)
    ensures ProperRun(v, a + b, standard)
       <==> ProperRun(v, a, standard) && ProperRun(UnbufferedRun(v, a, standard), b, standard)
    ensures ProperRun(v, a + b, standard) ==>
              UnbufferedRun(v, a + b, standard) == UnbufferedRun(UnbufferedRun(v, a, standard), b, standard)
    ensures |b| == 1 && Proper(v, b[0], standard) ==>
              ProperRun(v, b, standard) && UnbufferedRun(v, b, standard) == Unbuffered(v, b[0])
    decreases |a|
  {
    hide Unbuffered, Proper;
    if |b| == 1 && Proper(v, b[0], standard) {
      ProperNames(v, b[0], standard);
      assert b[1..] == [];
    }
    if a == [] {
      assert a + b == b;
    } else {
      assert (a + b)[0] == a[0] && (a + b)[1..] == a[1..] + b;
      if Proper(v, a[0], standard) {
        ProperNames(v, a[0], standard);
        RunIsSteps(Unbuffered(v, a[0]), a[1..], b, standard);
      }
    }
  }

  lemma ProperNames(v: Files, op: Op, standard: set<int>)
    requires Proper(v, op, standard)
    ensures op.OpFlushAll? || op.s in v
  {
  }

  // ---- The code ----

  class Cache {
    const stdin: int
    const stdout: int
    const stderr: int
    /** Streams that wrap a file descriptor (`ics_fdopen_fd(stream) >= 0`). */
    const descriptors: set<int>
    var slots: seq<Slot>
    var files: Files
    var console: seq<byte>

    ghost predicate Valid()
      reads this
    {
      && Framed(slots) && NoneFull(slots) && 0 !in files
      && Owned(slots, files.Keys, {stdin, stdout, stderr})
    }

    constructor (stdin: int, stdout: int, stderr: int, descriptors: set<int>, files: Files)
      requires 0 !in files
      ensures Valid() && this.files == files && View(slots, files) == files && console == []
      ensures |slots| == 8 && forall i :: 0 <= i < 8 ==> slots[i].stream == 0 && |slots[i].data| == 4096
    {
      this.stdin, this.stdout, this.stderr, this.descriptors := stdin, stdout, stderr, descriptors;
      slots := seq(SLOTS, _ => Slot(0, 0, seq(BUFSIZE, _ => 0)));
      this.files := files;
      console := [];
    }

    /** `sdk_write_buffer`: the stream's slot, or with `create` a free one made its own. */
    method SlotOf(s: int, create: bool) returns (b: int)
      requires Framed(slots) && 0 !in files && s != 0
      modifies this`slots
      ensures -1 <= b < |slots| && Framed(slots)
      ensures View(slots, files) == old(View(slots, files))
      ensures b >= 0 ==> slots[b].stream == s
      ensures !create ==> slots == old(slots) && b == Find(slots, s)
      ensures create ==> (b < 0 <==> old(Find(slots, s) < 0 && Find(slots, 0) < 0))
      ensures b < 0 ==> slots == old(slots)
      ensures old(NoneFull(slots)) ==> NoneFull(slots)
      ensures forall i :: 0 <= i < |slots| && i != b ==> slots[i] == old(slots)[i]
    {
      var freeSlot := -1;
      for i := 0 to SLOTS
        invariant forall j :: 0 <= j < i ==> slots[j].stream != s
        invariant -1 <= freeSlot < i
        invariant freeSlot >= 0 ==> slots[freeSlot].stream == 0
        invariant freeSlot < 0 ==> forall j :: 0 <= j < i ==> slots[j].stream != 0
      {
        if slots[i].stream == s {
          return i;
        }
        if slots[i].stream == 0 && freeSlot < 0 {
          freeSlot := i;
        }
      }
      if create && freeSlot >= 0 {
        ClaimView(slots, files, freeSlot, s);
        slots := slots[freeSlot := slots[freeSlot].(stream := s, used := 0)];
        return freeSlot;
      }
      return -1;
    }

    /** `sdk_raw_fwrite`, on a kernel that writes all it is given. Through a descriptor the count
        of bytes is turned back into items; the kernel's own call returns bytes. */
    method RawWrite(s: int, data: seq<byte>, itemsize: i32, noitems: i32) returns (r: int)
      requires s in files && itemsize > 0 && |data| == itemsize * noitems
      modifies this`files
      ensures files == old(files)[s := Write(old(files)[s], data)]
      ensures r == if s in descriptors then noitems else |data|
    {
      files := files[s := Write(files[s], data)];
      if s in descriptors {
        DivModUnique(|data|, itemsize, noitems, 0);
        return |data| / itemsize;
      }
      return |data|;
    }

    /** `sdk_flush_write_buffer` */
    method FlushSlot(s: int, release: bool)
      requires Framed(slots) && 0 !in files && s in files
      modifies this`slots, this`files
      ensures slots == Flushed(old(slots), s, release)
      ensures files == old(files)[s := old(Logical(slots, files, s))]
    {
      hide View, Write, Find;
      WriteNothing(files[s]);
      var b := SlotOf(s, false);
      if b >= 0 && slots[b].used > 0 {
        var _ := RawWrite(s, slots[b].data[..slots[b].used], 1, slots[b].used);
        slots := slots[b := slots[b].(used := 0)];
      }
      if b >= 0 && release {
        slots := slots[b := slots[b].(stream := 0)];
      }
    }

    /** A raw write with nothing pending. */
    method WriteThrough(s: int, data: seq<byte>, itemsize: i32, noitems: i32) returns (r: int)
      requires Valid() && s in files && Pending(slots, s) == []
      requires itemsize > 0 && |data| == itemsize * noitems
      modifies this`files
      ensures Valid() && files.Keys == old(files).Keys
      ensures View(slots, files) == old(Wrote(View(slots, files), s, data))
      ensures r == if s in descriptors then noitems else |data|
    {
      hide Write, View, Pending;
      RawView(slots, files, s, data);
      r := RawWrite(s, data, itemsize, noitems);
    }

    /** Moving `chunk` into a slot that has room, and flushing it if that fills it: one
        turn of the loop in `fwrite`, and all of `fputc`. */
    method Buffer(b: nat, chunk: seq<byte>)
      requires Valid() && b < SLOTS && slots[b].stream != 0 && slots[b].used + |chunk| <= BUFSIZE
      modifies this`slots, this`files
      ensures Valid() && slots[b].stream == old(slots[b].stream) && files.Keys == old(files).Keys
      ensures View(slots, files) == old(Wrote(View(slots, files), slots[b].stream, chunk))
      ensures slots[b].used == if old(slots[b].used) + |chunk| == BUFSIZE then 0 else old(slots[b].used) + |chunk|
      ensures old(slots[b].used) + |chunk| < BUFSIZE ==> files == old(files)
    {
      hide View, Write, Wrote, Pending, Logical;
      var s := slots[b].stream;
      AppendView(slots, files, b, chunk);
      slots := slots[b := Appended(slots[b], chunk)];
      if slots[b].used == BUFSIZE {
        assert Find(slots, s) == b;
        FlushedView(slots, files, s, false);
        FlushedOwned(slots, s, false, files.Keys, {stdin, stdout, stderr});
        FlushSlot(s, false);
      }
    }

    /** The loop of `fwrite`: lines 1551-1561. */
    method FillSlot(data: seq<byte>, s: int, b: nat)
      requires Valid() && b < SLOTS && s != 0 && slots[b].stream == s
      modifies this`slots, this`files
      ensures Valid() && files.Keys == old(files).Keys
      ensures View(slots, files) == old(Wrote(View(slots, files), s, data))
    {
      hide Write, View, Wrote;
      var p, left := 0, |data|;
      WroteTwice(View(slots, files), s, [], []);
      while left > 0
        invariant 0 <= p && 0 <= left && p + left == |data|
        invariant Valid() && slots[b].stream == s && files.Keys == old(files).Keys
        invariant View(slots, files) == old(Wrote(View(slots, files), s, data[..p]))
      {
        var room := BUFSIZE - slots[b].used;
        var chunk := if left < room then left else room;
        WroteTwice(old(View(slots, files)), s, data[..p], data[p..p + chunk]);
        assert data[..p] + data[p..p + chunk] == data[..p + chunk];
        Buffer(b, data[p..p + chunk]);
        p, left := p + chunk, left - chunk;
      }
      assert data[..p] == data;
    }

    /** A write of less than a buffer, or straight through if no slot can be had. */
    method WriteSmall(buf: seq<byte>, itemsize: i32, noitems: i32, s: int) returns (r: int)
      requires Valid() && s in files && s !in {stdin, stdout, stderr}
      requires itemsize > 0 && |buf| == itemsize * noitems < BUFSIZE
      modifies this`slots, this`files
      ensures Valid() && files.Keys == old(files).Keys
      ensures View(slots, files) == old(Wrote(View(slots, files), s, buf))
      ensures r == if s !in descriptors && old(Find(slots, s) < 0 && Find(slots, 0) < 0) then |buf| else noitems
    {
      hide Write, View, Wrote, Logical;
      var b := SlotOf(s, true);
      if b < 0 {
        r := WriteThrough(s, buf, itemsize, noitems);
      } else {
        FillSlot(buf, s, b);
        r := noitems;
      }
    }

    /** `sdk_flush_write_buffer`, as callers see it. */
    method FlushNow(s: int, release: bool)
      requires Valid() && s in files
      modifies this`slots, this`files
      ensures Valid() && files.Keys == old(files).Keys
      ensures View(slots, files) == old(View(slots, files))
      ensures Pending(slots, s) == [] && (release ==> Find(slots, s) < 0)
      ensures slots == Flushed(old(slots), s, release)
    {
      hide Write, View, Flushed, Logical;
      FlushedView(slots, files, s, release);
      FlushedOwned(slots, s, release, files.Keys, {stdin, stdout, stderr});
      FlushSlot(s, release);
    }

    lemma NoSlotIfDirect(s: int)
      requires Valid() && s in {stdout, stderr} && s != 0
      ensures Pending(slots, s) == []
    {
    }

    /** `fwrite`: the stream gains the whole buffer at its position. */
    method FWrite(buf: Buffer, itemsize: i32, noitems: i32, s: int) returns (r: int)
      requires Valid() && s in files && s != stdin && Announced(buf, itemsize, noitems)
      modifies this`slots, this`files
      ensures Valid() && files.Keys == old(files).Keys
      ensures View(slots, files)
           == if itemsize <= 0 || noitems <= 0 then old(View(slots, files)) else old(Wrote(View(slots, files), s, buf))
      ensures r == Returned(old(slots), s in {stdout, stderr}, s in descriptors, itemsize, noitems, s)
      ensures itemsize <= 0 || noitems <= 0 ==> r == 0
    {
      hide Write, View, Wrote, NoneFull, Framed, Find;
      if itemsize <= 0 || noitems <= 0 {
        return 0;
      }
      var total := (itemsize * noitems) % 0x1_0000_0000;
      assert total == |buf|;
      if s == stdout || s == stderr {
        NoSlotIfDirect(s);
        r := WriteThrough(s, buf, itemsize, noitems);
      } else if total >= BUFSIZE {
        FlushNow(s, false);
        r := WriteThrough(s, buf, itemsize, noitems);
      } else {
        r := WriteSmall(buf, itemsize, noitems, s);
      }
    }

    /** `fputc`. On the standard output streams the character goes to the console. */
    method FPutc(c: int, s: int) returns (r: byte)
      requires Valid() && (s in files || s in {stdout, stderr}) && s != stdin
      modifies this`slots, this`files, this`console
      ensures Valid() && files.Keys == old(files).Keys
      ensures r == c % 256
      ensures s in {stdout, stderr} ==> console == old(console) + [r] && slots == old(slots) && files == old(files)
      ensures s !in {stdout, stderr} ==>
                console == old(console) && View(slots, files) == old(Wrote(View(slots, files), s, [c % 256]))
    {
      hide View, Write, Wrote, Logical;
      var ch: byte := c % 256;
      if s == stdout || s == stderr {
        console := console + [ch];
      } else {
        var b := SlotOf(s, true);
        if b < 0 {
          var _ := WriteThrough(s, [ch], 1, 1);
        } else {
          Buffer(b, [ch]);
        }
      }
      r := ch;
    }

    /** `fflush` of one stream: its kernel file catches up with the program's. */
    method FFlush(s: int)
      requires Valid() && s in files
      modifies this`slots, this`files
      ensures Valid() && files.Keys == old(files).Keys
      ensures View(slots, files) == old(View(slots, files))
      ensures files[s] == old(Logical(slots, files, s))
    {
      if s == stdout || s == stderr || s == stdin {
        UnbufferedIsLogical(s);
        return;
      }
      FlushNow(s, false);
      UnbufferedIsLogical(s);
    }

    lemma UnbufferedIsLogical(s: int)
      requires Valid() && s in files
      requires s in {stdin, stdout, stderr} || Pending(slots, s) == []
      ensures files[s] == Logical(slots, files, s) == View(slots, files)[s]
    {
      assert Pending(slots, s) == [];
      WriteNothing(files[s]);
    }

    /** `fflush(NULL)`: every kernel file catches up. */
    method FFlushAll()
      requires Valid()
      modifies this`slots, this`files
      ensures Valid() && files == View(slots, files) == old(View(slots, files))
    {
      hide View, Write, Logical, Pending;
      for i := 0 to SLOTS
        invariant Valid() && files.Keys == old(files).Keys
        invariant View(slots, files) == old(View(slots, files))
        invariant forall j :: 0 <= j < i ==> slots[j].stream == 0 || slots[j].used == 0
      {
        if slots[i].stream != 0 {
          PendingAt(slots, i);
          FlushNow(slots[i].stream, false);
        }
      }
      AllDrained();
    }

    lemma AllDrained()
      requires Valid() && forall j :: 0 <= j < |slots| ==> slots[j].stream == 0 || slots[j].used == 0
      ensures View(slots, files) == files
    {
      forall s | s in files
        ensures files[s] == View(slots, files)[s]
      {
        assert Pending(slots, s) == [];
        UnbufferedIsLogical(s);
      }
    }

    /** `fclose`: the pending bytes reach the kernel before the file is closed, and the
        slot is free again. Standard streams stay open. */
    method FClose(s: int) returns (final: seq<byte>)
      requires Valid() && s in files
      modifies this`slots, this`files
      ensures Valid()
      ensures final == old(Logical(slots, files, s)).content
      ensures s in {stdin, stdout, stderr} ==> slots == old(slots) && files == old(files)
      ensures s !in {stdin, stdout, stderr} ==>
                Find(slots, s) < 0 && View(slots, files) == old(View(slots, files)) - {s}
    {
      if s == stdout || s == stderr || s == stdin {
        UnbufferedIsLogical(s);
        return files[s].content;
      }
      FlushNow(s, true);
      UnbufferedIsLogical(s);
      final := files[s].content;
      CloseView(s);
      files := files - {s};
    }

    lemma CloseView(s: int)
      requires Valid() && s in files && Find(slots, s) < 0
      ensures View(slots, files - {s}) == View(slots, files) - {s}
      ensures Owned(slots, files.Keys - {s}, {stdin, stdout, stderr})
    {
      hide Write;
    }

    /** `fseek`: the program's file moves to the position asked for, whatever was pending. A seek
        before the start of the file is refused, and reported as success all the same: the
        kernel's refusal is not looked at. */
    method FSeek(s: int, off: int, whence: Whence) returns (r: int)
      requires Valid() && s in files
      modifies this`slots, this`files
      ensures Valid()
      ensures View(slots, files) == old(var v := View(slots, files); v[s := Seek(v[s], off, whence)])
      ensures r == 0
    {
      FFlush(s);
      SeekView(s, off, whence);
      files := files[s := Seek(files[s], off, whence)];
      if s in descriptors {
        var pos := files[s].pos;
        return if pos < 0 then -1 else 0;
      }
      return 0;
    }

    lemma SeekView(s: int, off: int, whence: Whence)
      requires Valid() && s in files && files[s] == View(slots, files)[s]
      ensures var files' := files[s := Seek(files[s], off, whence)];
              View(slots, files') == View(slots, files)[s := Seek(files[s], off, whence)]
    {
      hide Write;
      WriteIsNothing(files[s], Pending(slots, s));
      WriteNothing(Seek(files[s], off, whence));
    }

    /** `ftell`: the position the program believes in. */
    method FTell(s: int) returns (pos: nat)
      requires Valid() && s in files
      ensures pos == Logical(slots, files, s).pos
    {
      pos := files[s].pos;
      var b := Find(slots, s);
      pos := pos + if b >= 0 then slots[b].used else 0;
    }

    method Perform(op: Op)
      requires Valid() && Proper(View(slots, files), op, {stdin, stdout, stderr})
      modifies this`slots, this`files, this`console
      ensures Valid() && View(slots, files) == Unbuffered(old(View(slots, files)), op)
    {
      hide View, Write, Wrote, Logical, Framed, NoneFull, Owned;
      match op
      case OpWrite(s, buf, itemsize, noitems) =>
        var _ := FWrite(buf, itemsize, noitems, s);
      case OpPutc(s, c) =>
        var _ := FPutc(c, s);
      case OpFlush(s) =>
        FFlush(s);
      case OpFlushAll =>
        FFlushAll();
      case OpSeek(s, off, whence) =>
        var _ := FSeek(s, off, whence);
      case OpClose(s) =>
        var _ := FClose(s);
    }

    /** Over any run of operations on any number of streams, the program's files are
        those it would have without a cache: contents, positions and open streams. */
    method Run(ops: seq<Op>)
      requires Valid() && ProperRun(View(slots, files), ops, {stdin, stdout, stderr})
      modifies this`slots, this`files, this`console
      ensures Valid()
      ensures View(slots, files) == UnbufferedRun(old(View(slots, files)), ops, {stdin, stdout, stderr})
      decreases |ops|
    {
      if ops != [] {
        Perform(ops[0]);
        Run(ops[1..]);
      }
    }
  }
}
