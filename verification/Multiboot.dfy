/** The Multiboot2 information block: the walk over its tags at boot, and the block that kexec
    leaves for the kernel it starts. */
module Multiboot {
  import opened Words
  import opened Bytes

  datatype Option<T> = None | Some(value: T)

  /** A tag: its type, what follows the eight bytes of type and size, and what the block holds
      beyond it, which a read that is longer than the tag comes upon. */
  datatype Tag = Tag(kind: u32, body: Data, beyond: Data)
  {
    function Room(): Data { body + beyond }
  }

  /** An entry of the memory table, in the split words of Multiboot1. */
  datatype Region = Region(baseLow: u32, baseHigh: u32, lengthLow: u32, lengthHigh: u32)
  {
    function Base(): int { baseLow + 0x1_0000_0000 * baseHigh }
    function Length(): int { lengthLow + 0x1_0000_0000 * lengthHigh }
  }

  datatype Screen = Screen(addr: u64, pitch: u32, width: u32, height: u32, bpp: byte, ftype: byte, channels: Data)

  /** What the walk learns. */
  datatype View = View(device: u32, table: seq<Region>, screen: Option<Screen>, rsdp: Data, cmdline: Data, kexeced: bool)

  const START := View(0xE000_0000, [], None, [], [], false)

  // ---- What each tag says ----

  const KEXECED: Data := [107, 101, 120, 101, 99, 101, 100]

  /** A buffer as a C string. */
  function CString(s: Data): Data { if s == [] || s[0] == 0 then [] else [s[0]] + CString(s[1..]) }

  /** The command line says kexeced: that word alone, or first and followed by a space. */
  predicate SaysKexeced(line: Data) {
    var s := CString(line);
    line != [] && (s == KEXECED || (|s| >= 8 && s[..8] == KEXECED + [32]))
  }

  function EntrySize(room: Data): (es: nat)
    requires |room| >= 4
    ensures es > 0
  {
    if Le4(room, 0) == 0 then 24 else Le4(room, 0)
  }

  /** The number of entries looked at, by the size of the tag: no more than 32. */
  function EntryCount(t: Tag): (n: nat)
    requires |t.Room()| >= 4
    ensures n <= 32
  {
    if |t.body| < 8 then 0
    else
      DivNonNegative(|t.body| - 8, EntrySize(t.Room()));
      var n := (|t.body| - 8) / EntrySize(t.Room());
      if n < 32 then n else 32
  }

  function EntryAt(room: Data, j: nat): nat
    requires |room| >= 4
  {
    8 + j * EntrySize(room)
  }

  /** All of entry j that is read lies in the block. */
  predicate EntryInside(room: Data, j: nat)
    requires |room| >= 4
  {
    EntryAt(room, j) + 20 <= |room|
  }

  /** The reads made for a tag stay in the block. */
  predicate Contained(t: Tag) {
    && (t.kind == 5 ==> |t.Room()| >= 12)
    && (t.kind == 6 ==> |t.Room()| >= 4 && forall j :: 0 <= j < EntryCount(t) ==> EntryInside(t.Room(), j))
  }

  lemma LastEntryEnds(es: nat, room: nat, j: nat)
    requires es > 0 && j < room / es
    ensures j * es + es <= room
  {
    MulMonotone(j + 1, room / es, es);
    MulDistributes(j, 1, es);
  }

  /** Entries of at least 20 bytes are always read inside their tag. */
  lemma EntriesFit(t: Tag)
    requires t.kind == 6 && t.beyond == [] && |t.body| >= 8 && EntrySize(t.body) >= 20
    ensures Contained(t)
  {
    hide EntrySize;
    assert t.Room() == t.body;
    forall j | 0 <= j < EntryCount(t)
      ensures EntryInside(t.Room(), j)
    {
      LastEntryEnds(EntrySize(t.body), |t.body| - 8, j);
    }
  }

  /** The RAM entry at a position of a memory map; none if it is not RAM. */
  function RamAt(body: Data, at: nat): (r: seq<Region>)
    requires at + 20 <= |body|
    ensures |r| <= 1
  {
    if Le4(body, at + 16) != 1 then []
    else [Region(Le4(body, at), Le4(body, at + 4), Le4(body, at + 8), Le4(body, at + 12))]
  }

  /** The RAM entries among the first n, in order. */
  function Ram(t: Tag, n: nat): (regions: seq<Region>)
    requires t.kind == 6 && Contained(t) && n <= EntryCount(t)
    ensures |regions| <= n
  {
    if n == 0 then []
    else
      assert EntryInside(t.Room(), n - 1);
      Ram(t, n - 1) + RamAt(t.Room(), EntryAt(t.Room(), n - 1))
  }

  function Capped(table: seq<Region>): seq<Region> { if |table| <= 32 then table else table[..32] }

  function DeviceOf(body: Data): u32
    requires |body| >= 12
  {
    Le4(body, 0) % 0x100 * 0x100_0000 + Le4(body, 4) % 0x100 * 0x1_0000 + Le4(body, 8) % 0x100 * 0x100
  }

  function ScreenOf(body: Data): Screen
    requires |body| >= 30
  {
    Screen(Le8(body, 0), Le4(body, 8), Le4(body, 12), Le4(body, 16), body[20], body[21], body[24..30])
  }

  function LineOf(body: Data): Data { if |body| > 255 then [] else body }

  /** What is known after one more tag. */
  function Seen(v: View, t: Tag): View
    requires Contained(t)
  {
    if t.kind == 5 then v.(device := DeviceOf(t.Room()))
    else if t.kind == 6 then v.(table := Capped(v.table + Ram(t, EntryCount(t))))
    else if t.kind == 8 then (if |t.body| >= 30 then v.(screen := Some(ScreenOf(t.body))) else v)
    else if t.kind == 15 || (t.kind == 14 && v.rsdp == []) then
      if t.body == [] then v else v.(rsdp := if |t.body| > 36 then t.body[..36] else t.body)
    else if t.kind == 1 then
      v.(cmdline := LineOf(t.body), kexeced := v.kexeced || SaysKexeced(LineOf(t.body)))
    else v
  }

  predicate AllContained(tags: seq<Tag>) { forall i :: 0 <= i < |tags| ==> Contained(tags[i]) }

  function SeenAll(v: View, tags: seq<Tag>): View
    requires AllContained(tags)
    decreases |tags|
  {
    if tags == [] then v else SeenAll(Seen(v, tags[0]), tags[1..])
  }

  // ---- The walk ----

  /** How a walk ends: at the end tag, by reading outside the block, or never, on a tag of size
      zero that is its own successor. */
  datatype Walk = Done(view: View) | Stray(view: View) | Stuck(view: View)

  /** The next multiple of eight. */
  function RoundUp8(n: nat): (r: nat)
    ensures n <= r < n + 8 && r % 8 == 0
  {
    (n + 7) / 8 * 8
  }

  function SizeAt(mem: Data, off: nat): (n: nat)
    requires off + 8 <= |mem|
    ensures n < 0x1_0000_0000
  {
    Le4(mem, off + 4)
  }

  /** Where the tag's own bytes end. */
  function EndAt(mem: Data, off: nat): (n: nat)
    requires off + 8 <= |mem|
    ensures n >= off + 8
  {
    off + if SizeAt(mem, off) < 8 then 8 else SizeAt(mem, off)
  }

  function TagAt(mem: Data, off: nat): Tag
    requires off + 8 <= |mem| && EndAt(mem, off) <= |mem|
  {
    Tag(Le4(mem, off), mem[off + 8..EndAt(mem, off)], mem[EndAt(mem, off)..])
  }

  function WalkFrom(mem: Data, off: nat, v: View): Walk
    decreases |mem| - off
  {
    if off + 8 > |mem| then Stray(v)
    else if Le4(mem, off) == 0 then Done(v)
    else if EndAt(mem, off) > |mem| || !Contained(TagAt(mem, off)) then Stray(v)
    else
      var w := Seen(v, TagAt(mem, off));
      if SizeAt(mem, off) == 0 then Stuck(w) else WalkFrom(mem, RoundUp8(off + SizeAt(mem, off)), w)
  }

  // ---- Blocks as the specification lays them out ----

  /** A tag that says how long it is and is read no further. */
  predicate Fits(t: Tag) { t.kind != 0 && |t.body| + 16 < TWO_32 && t.beyond == [] && Contained(t) }

  lemma Le4Prefix(a: Data, b: Data, i: nat)
    requires i + 4 <= |a|
    ensures Le4(a + b, i) == Le4(a, i)
  {
  }

  lemma RamPrefix(a: Data, b: Data, at: nat)
    requires at + 20 <= |a|
    ensures RamAt(a + b, at) == RamAt(a, at)
  {
    hide Le4;
    Le4Prefix(a, b, at);
    Le4Prefix(a, b, at + 4);
    Le4Prefix(a, b, at + 8);
    Le4Prefix(a, b, at + 12);
    Le4Prefix(a, b, at + 16);
  }

  lemma SameEntries(t: Tag, more: Data)
    requires t.kind == 6 && t.beyond == [] && Contained(t)
    ensures var u := t.(beyond := more);
            t.Room() == t.body && |u.Room()| >= 4 && EntrySize(u.Room()) == EntrySize(t.Room())
            && EntryCount(u) == EntryCount(t)
  {
    hide Le4;
    assert t.Room() == t.body;
    Le4Prefix(t.body, more, 0);
  }

  lemma {:induction false} SameRam(t: Tag, more: Data, n: nat)
    requires t.kind == 6 && t.beyond == [] && Contained(t) && n <= EntryCount(t)
    requires Contained(t.(beyond := more)) && n <= EntryCount(t.(beyond := more))
    ensures Ram(t.(beyond := more), n) == Ram(t, n)
  {
    hide RamAt, EntrySize;
    SameEntries(t, more);
    if n > 0 {
      SameRam(t, more, n - 1);
      assert EntryInside(t.Room(), n - 1);
      RamPrefix(t.body, more, EntryAt(t.Room(), n - 1));
    }
  }

  /** What the block holds beyond such a tag makes no difference. */
  lemma BeyondIrrelevant(v: View, t: Tag, more: Data)
    requires t.beyond == [] && Contained(t)
    ensures Contained(t.(beyond := more)) && Seen(v, t.(beyond := more)) == Seen(v, t)
  {
    hide EntrySize, Ram, Le4;
    var u := t.(beyond := more);
    assert t.Room() == t.body;
    if t.kind == 6 {
      SameEntries(t, more);
      forall j | 0 <= j < EntryCount(u)
        ensures EntryInside(u.Room(), j)
      {
        assert EntryInside(t.Room(), j);
      }
      SameRam(t, more, EntryCount(t));
    } else if t.kind == 5 {
      Le4Prefix(t.body, more, 0);
      Le4Prefix(t.body, more, 4);
      Le4Prefix(t.body, more, 8);
    }
  }

  /** Type, size, body and padding to a multiple of eight: section 3.6.2 of the Multiboot2 specification. */
  function SpellTag(t: Tag): (s: Data)
    requires |t.body| + 16 < TWO_32
    ensures |s| == 8 + RoundUp8(|t.body|)
  {
    Put4(t.kind) + Put4(8 + |t.body|) + t.body + Zeros(RoundUp8(|t.body|) - |t.body|)
  }

  const END: Data := Put4(0) + Put4(8)

  predicate AllFit(tags: seq<Tag>) { forall i :: 0 <= i < |tags| ==> Fits(tags[i]) }

  function SpellAll(tags: seq<Tag>): Data
    requires AllFit(tags)
  {
    if tags == [] then [] else SpellTag(tags[0]) + SpellAll(tags[1..])
  }

  lemma TagIsRead(pre: Data, t: Tag, rest: Data)
    requires |pre| % 8 == 0 && Fits(t)
    ensures var mem, off := pre + SpellTag(t) + rest, |pre|;
            && off + 8 <= |mem| && Le4(mem, off) == t.kind && SizeAt(mem, off) == 8 + |t.body|
            && EndAt(mem, off) <= |mem| && TagAt(mem, off) == t.(beyond := mem[EndAt(mem, off)..])
            && RoundUp8(off + SizeAt(mem, off)) == |pre + SpellTag(t)|
  {
    hide Le4, Put4, Contained, Zeros, RoundUp8;
    var mem, off := pre + SpellTag(t) + rest, |pre|;
    TagParts(pre, t, rest);
    LeAt(mem, off, t.kind);
    LeAt(mem, off + 4, 8 + |t.body|);
    RoundUpAdds(off, |t.body|);
  }

  lemma RoundUpAdds(off: nat, n: nat)
    requires off % 8 == 0
    ensures RoundUp8(off + 8 + n) == off + 8 + RoundUp8(n)
  {
  }

  lemma TagParts(pre: Data, t: Tag, rest: Data)
    requires |t.body| + 16 < TWO_32
    ensures var mem, off := pre + SpellTag(t) + rest, |pre|;
            && |mem| == off + 8 + RoundUp8(|t.body|) + |rest|
            && mem[off..off + 4] == Put4(t.kind) && mem[off + 4..off + 8] == Put4(8 + |t.body|)
            && mem[off + 8..off + 8 + |t.body|] == t.body
  {
    hide Put4, Zeros, RoundUp8;
    var mem, off := pre + SpellTag(t) + rest, |pre|;
    var pad := Zeros(RoundUp8(|t.body|) - |t.body|);
    var kind, size := Put4(t.kind), Put4(8 + |t.body|);
    Middle(pre, kind, size + t.body + pad + rest);
    assert mem == pre + kind + (size + t.body + pad + rest);
    Middle(pre + kind, size, t.body + pad + rest);
    assert mem == pre + kind + size + (t.body + pad + rest);
    Middle(pre + kind + size, t.body, pad + rest);
    assert mem == pre + kind + size + t.body + (pad + rest);
  }

  /** Each tag of a well-formed block is visited once, in order, and the walk stops at the end tag. */
  lemma {:induction false} WalkVisitsAll(pre: Data, tags: seq<Tag>, rest: Data, v: View)
    requires |pre| % 8 == 0 && AllFit(tags)
    ensures WalkFrom(pre + SpellAll(tags) + END + rest, |pre|, v) == Done(SeenAll(v, tags))
    decreases |tags|
  {
    hide Seen, Contained, Le4, RoundUp8, SizeAt, EndAt, TagAt, Put4;
    var mem := pre + SpellAll(tags) + END + rest;
    if tags == [] {
      assert mem == pre + Put4(0) + (Put4(8) + rest);
      Middle(pre, Put4(0), Put4(8) + rest);
      LeAt(mem, |pre|, 0);
    } else {
      var t := tags[0];
      var tail := SpellAll(tags[1..]) + END + rest;
      var pre' := pre + SpellTag(t);
      assert mem == pre' + tail;
      TagIsRead(pre, t, tail);
      BeyondIrrelevant(v, t, mem[EndAt(mem, |pre|)..]);
      assert mem == pre' + SpellAll(tags[1..]) + END + rest;
      WalkVisitsAll(pre', tags[1..], rest, Seen(v, t));
    }
  }

  lemma {:induction false} SeenConcat(v: View, a: seq<Tag>, b: seq<Tag>)
    requires AllContained(a) && AllContained(b)
    ensures AllContained(a + b)
    ensures SeenAll(v, a + b) == SeenAll(SeenAll(v, a), b)
    decreases |a|
  {
    hide Seen, Contained;
    if a == [] {
      assert a + b == b;
    } else {
      assert (a + b)[1..] == a[1..] + b;
      SeenConcat(Seen(v, a[0]), a[1..], b);
    }
  }

  predicate NoMemoryMap(tags: seq<Tag>) { forall i :: 0 <= i < |tags| ==> tags[i].kind != 6 }

  lemma {:induction false} TableKept(v: View, tags: seq<Tag>)
    requires AllContained(tags) && NoMemoryMap(tags)
    ensures SeenAll(v, tags).table == v.table
    decreases |tags|
  {
    hide Contained;
    if tags != [] {
      TableKept(Seen(v, tags[0]), tags[1..]);
    }
  }

  /** With one memory map the table is its RAM entries, in order, among the first 32. */
  lemma OneMemoryMap(before: seq<Tag>, m: Tag, after: seq<Tag>)
    requires AllContained(before) && Contained(m) && AllContained(after)
    requires NoMemoryMap(before) && m.kind == 6 && NoMemoryMap(after)
    ensures AllContained(before + [m] + after)
    ensures SeenAll(START, before + [m] + after).table == Ram(m, EntryCount(m))
  {
    hide Contained, Seen, Ram;
    SeenConcat(START, before, [m]);
    SeenConcat(START, before + [m], after);
    TableKept(START, before);
    var v := SeenAll(START, before);
    OneSeen(v, m);
    TableKept(SeenAll(v, [m]), after);
  }

  lemma OneSeen(v: View, m: Tag)
    requires m.kind == 6 && Contained(m) && v.table == []
    ensures SeenAll(v, [m]) == Seen(v, m) && Seen(v, m).table == Ram(m, EntryCount(m))
  {
    assert SeenAll(Seen(v, m), [m][1..]) == Seen(v, m);
    assert [] + Ram(m, EntryCount(m)) == Ram(m, EntryCount(m));
  }

  /** Every entry of the table has the base and length of a RAM entry of the map. */
  lemma {:induction false} RamIsFromMap(t: Tag, n: nat, k: nat) returns (j: nat)
    requires t.kind == 6 && Contained(t) && n <= EntryCount(t) && k < |Ram(t, n)|
    ensures j < n && EntryInside(t.Room(), j) && Le4(t.Room(), EntryAt(t.Room(), j) + 16) == 1
    ensures Ram(t, n)[k].Base() == Le8(t.Room(), EntryAt(t.Room(), j))
    ensures Ram(t, n)[k].Length() == Le8(t.Room(), EntryAt(t.Room(), j) + 8)
    decreases n
  {
    hide EntryAt, EntrySize, EntryCount, Le4;
    assert EntryInside(t.Room(), n - 1);
    if k < |Ram(t, n - 1)| {
      j := RamIsFromMap(t, n - 1, k);
    } else {
      j := n - 1;
    }
  }

  /** And every RAM entry of the map is there, after those that come before it. */
  lemma {:induction false} RamHasEntry(t: Tag, n: nat, j: nat)
    requires t.kind == 6 && Contained(t) && j < n <= EntryCount(t)
    requires EntryInside(t.Room(), j) && Le4(t.Room(), EntryAt(t.Room(), j) + 16) == 1
    ensures var k := |Ram(t, j)|;
            && k < |Ram(t, n)| && Ram(t, n)[k].Base() == Le8(t.Room(), EntryAt(t.Room(), j))
            && Ram(t, n)[k].Length() == Le8(t.Room(), EntryAt(t.Room(), j) + 8)
    decreases n
  {
    hide EntryAt, EntrySize, EntryCount, Le4;
    assert EntryInside(t.Room(), n - 1);
    if j < n - 1 {
      RamHasEntry(t, n - 1, j);
    }
  }

  // ---- Memory maps as the specification lays them out ----

  datatype Entry = Entry(region: Region, kind: u32, reserved: u32)

  function SpellEntry(e: Entry): (s: Data)
    ensures |s| == 24
  {
    Put4(e.region.baseLow) + Put4(e.region.baseHigh) + Put4(e.region.lengthLow) + Put4(e.region.lengthHigh)
    + Put4(e.kind) + Put4(e.reserved)
  }

  function SpellEntries(es: seq<Entry>): (s: Data)
    ensures |s| == 24 * |es|
  {
    if es == [] then [] else SpellEntries(es[..|es| - 1]) + SpellEntry(es[|es| - 1])
  }

  /** The body of a memory map: the size of an entry, a version and the entries. */
  function SpellMap(size: u32, version: u32, es: seq<Entry>): Data {
    Put4(size) + Put4(version) + SpellEntries(es)
  }

  /** The regions that are RAM, in order. */
  function RamOf(es: seq<Entry>): seq<Region> {
    if es == [] then []
    else RamOf(es[..|es| - 1]) + (if es[|es| - 1].kind == 1 then [es[|es| - 1].region] else [])
  }

  lemma EntryReadsBack(e: Entry)
    ensures RamAt(SpellEntry(e), 0) == if e.kind == 1 then [e.region] else []
  {
    hide Put4, Le4;
    var s := SpellEntry(e);
    assert s[0..4] == Put4(e.region.baseLow) && s[4..8] == Put4(e.region.baseHigh);
    assert s[8..12] == Put4(e.region.lengthLow) && s[12..16] == Put4(e.region.lengthHigh);
    assert s[16..20] == Put4(e.kind);
    LeAt(s, 0, e.region.baseLow);
    LeAt(s, 4, e.region.baseHigh);
    LeAt(s, 8, e.region.lengthLow);
    LeAt(s, 12, e.region.lengthHigh);
    LeAt(s, 16, e.kind);
  }

  lemma {:induction false} EntryInMap(es: seq<Entry>, j: nat)
    requires j < |es|
    ensures SpellEntries(es)[24 * j..24 * j + 24] == SpellEntry(es[j])
    decreases |es|
  {
    hide SpellEntry;
    var front := es[..|es| - 1];
    if j < |front| {
      EntryInMap(front, j);
    }
  }

  lemma RamShifts(s: Data, at: nat, w: Data)
    requires |w| == 24 && at + 24 <= |s| && s[at..at + 24] == w
    ensures RamAt(s, at) == RamAt(w, 0)
  {
    hide Le4;
    WordShifts(s, at, w, 0);
    WordShifts(s, at, w, 4);
    WordShifts(s, at, w, 8);
    WordShifts(s, at, w, 12);
    WordShifts(s, at, w, 16);
  }

  lemma WordShifts(s: Data, at: nat, w: Data, i: nat)
    requires at + |w| <= |s| && s[at..at + |w|] == w && i + 4 <= |w|
    ensures Le4(s, at + i) == Le4(w, i)
  {
    assert w[i] == s[at + i] && w[i + 1] == s[at + i + 1] && w[i + 2] == s[at + i + 2] && w[i + 3] == s[at + i + 3];
  }

  lemma MapShape(t: Tag, size: u32, version: u32, es: seq<Entry>)
    requires t == Tag(6, SpellMap(size, version, es), []) && (size == 24 || size == 0)
    ensures Contained(t) && EntrySize(t.Room()) == 24 && t.Room() == t.body && |t.body| == 8 + 24 * |es|
    ensures EntryCount(t) == if |es| < 32 then |es| else 32
  {
    hide Put4, Le4, SpellEntries;
    assert t.Room() == t.body;
    assert t.body[0..4] == Put4(size);
    LeAt(t.body, 0, size);
    DivModUnique(24 * |es|, 24, |es|, 0);
    EntriesFit(t);
  }

  /** A memory map of any entries, their size given as 24 or left at zero: the table gets the RAM
      among the first 32 of them, each with its own base and length. */
  lemma {:induction false} MapReadsBack(t: Tag, size: u32, version: u32, es: seq<Entry>, n: nat)
    requires t == Tag(6, SpellMap(size, version, es), []) && (size == 24 || size == 0)
    requires n <= |es| && n <= 32
    ensures Contained(t) && n <= EntryCount(t) && Ram(t, n) == RamOf(es[..n])
    decreases n
  {
    hide RamAt, EntrySize, EntryCount, SpellEntries, SpellMap, Put4, Contained;
    MapShape(t, size, version, es);
    if n > 0 {
      MapReadsBack(t, size, version, es, n - 1);
      EntryPlace(t, n - 1);
      EntryBytes(size, version, es, n - 1);
      RamShifts(t.body, 8 + 24 * (n - 1), SpellEntry(es[n - 1]));
      EntryReadsBack(es[n - 1]);
      assert es[..n][..n - 1] == es[..n - 1];
    }
  }

  lemma EntryBytes(size: u32, version: u32, es: seq<Entry>, j: nat)
    requires j < |es|
    ensures var m, at := SpellMap(size, version, es), 8 + 24 * j;
            at + 24 <= |m| && m[at..at + 24] == SpellEntry(es[j])
  {
    hide Put4, SpellEntries, SpellEntry;
    var head, s := Put4(size) + Put4(version), SpellEntries(es);
    EntryInMap(es, j);
    var m := head + s;
    assert m[8..8 + 24 * |es|] == s;
    SubSlice(m, 8, 8 + 24 * |es|, 24 * j, 24 * j + 24);
  }

  // ---- What a whole block says ----

  predicate IsDevice(t: Tag) { t.kind == 5 }

  predicate IsScreen(t: Tag) { t.kind == 8 && |t.body| >= 30 }

  predicate IsLine(t: Tag) { t.kind == 1 }

  predicate IsNewRoot(t: Tag) { t.kind == 15 && t.body != [] }

  predicate IsOldRoot(t: Tag) { t.kind == 14 && t.body != [] }

  /** The last tag of a sort, and the first. */
  function LastOf(tags: seq<Tag>, p: Tag -> bool): Option<Tag> {
    if tags == [] then None
    else if p(tags[|tags| - 1]) then Some(tags[|tags| - 1])
    else LastOf(tags[..|tags| - 1], p)
  }

  function FirstOf(tags: seq<Tag>, p: Tag -> bool): Option<Tag> {
    if tags == [] then None
    else if FirstOf(tags[..|tags| - 1], p).Some? then FirstOf(tags[..|tags| - 1], p)
    else if p(tags[|tags| - 1]) then Some(tags[|tags| - 1])
    else None
  }

  /** The word "kexeced" and nothing after it but a space, a NUL or the end. */
  predicate Kexeced(line: Data) {
    |line| >= 7 && line[..7] == [107, 101, 120, 101, 99, 101, 100] && (|line| == 7 || line[7] == 0 || line[7] == 32)
  }

  lemma {:induction false} CStringIs(s: Data, n: nat)
    requires n <= |s| && (forall i :: 0 <= i < n ==> s[i] != 0)
    ensures n == |s| || s[n] == 0 ==> CString(s) == s[..n]
    ensures n <= |CString(s)| && CString(s)[..n] == s[..n]
    ensures n < |s| && s[n] != 0 ==> |CString(s)| > n && CString(s)[n] == s[n]
    decreases n
  {
    if n > 0 {
      CStringIs(s[1..], n - 1);
      assert s[1..][..n - 1] == s[1..n];
      assert s[..n] == [s[0]] + s[1..n];
    }
  }

  lemma {:induction false} CStringBytes(s: Data, i: nat)
    requires i < |CString(s)|
    ensures i < |s| && s[i] == CString(s)[i] != 0
    decreases i
  {
    if i > 0 { CStringBytes(s[1..], i - 1); }
  }

  /** The command line is taken for that of a kexec exactly when it opens with that word. */
  lemma SaysKexecedIff(line: Data)
    ensures SaysKexeced(line) <==> Kexeced(line)
  {
    hide CString;
    var s := CString(line);
    if Kexeced(line) {
      KexecedSays(line);
    }
    if SaysKexeced(line) {
      forall i | 0 <= i < 7
        ensures i < |line| && line[i] == KEXECED[i]
      {
        CStringBytes(line, i);
        assert |s| >= 8 ==> s[i] == s[..8][i];
      }
      CStringBytes(line, 6);
      assert line[..7] == KEXECED;
      if |line| > 7 && line[7] != 0 {
        assert forall i :: 0 <= i < 7 ==> line[i] == line[..7][i];
        CStringIs(line, 7);
      }
    }
  }

  lemma KexecedSays(line: Data)
    requires Kexeced(line)
    ensures SaysKexeced(line)
  {
    hide CString;
    assert forall i :: 0 <= i < 7 ==> line[i] == line[..7][i];
    CStringIs(line, 7);
    if |line| > 7 && line[7] == 32 {
      CStringIs(line, 8);
      assert line[..8] == KEXECED + [32];
    }
  }

  /** The RAM of all memory maps together, in order. */
  function AllRam(tags: seq<Tag>): seq<Region>
    requires AllContained(tags)
  {
    if tags == [] then []
    else
      var front, t := tags[..|tags| - 1], tags[|tags| - 1];
      AllRam(front) + (if t.kind == 6 then Ram(t, EntryCount(t)) else [])
  }

  /** A boot device number: drive, partition and sub-partition in the three upper bytes. */
  function Device(room: Data): int
    requires |room| >= 12
  {
    var drive: int, part: int, sub: int := room[0], room[4], room[8];
    drive * 0x100_0000 + part * 0x1_0000 + sub * 0x100
  }

  lemma DeviceIs(room: Data)
    requires |room| >= 12
    ensures DeviceOf(room) == Device(room)
  {
    LowByte(room, 0);
    LowByte(room, 4);
    LowByte(room, 8);
  }

  lemma LowByte(s: Data, i: nat)
    requires i + 4 <= |s|
    ensures Le4(s, i) % 0x100 == s[i]
  {
    var b1: int, b2: int, b3: int := s[i + 1], s[i + 2], s[i + 3];
    DivModUnique(Le4(s, i), 0x100, b1 + 0x100 * b2 + 0x1_0000 * b3, s[i]);
  }

  /** The root pointer: the last of the new kind, or failing that the first of the old, up to 36 bytes. */
  function RootOf(tags: seq<Tag>): Data {
    var newest, oldest := LastOf(tags, IsNewRoot), FirstOf(tags, IsOldRoot);
    var body := if newest.Some? then newest.value.body else if oldest.Some? then oldest.value.body else [];
    if |body| > 36 then body[..36] else body
  }

  lemma SeenLast(v: View, tags: seq<Tag>)
    requires AllContained(tags) && tags != []
    ensures var front, t := tags[..|tags| - 1], tags[|tags| - 1];
            AllContained(front) && Contained(t) && SeenAll(v, tags) == Seen(SeenAll(v, front), t)
  {
    hide Seen, Contained;
    var front, t := tags[..|tags| - 1], tags[|tags| - 1];
    SeenConcat(v, front, [t]);
    assert front + [t] == tags;
    assert [t][1..] == [];
  }

  /** Over any tags in any order, the boot device and the screen are those of the last tag that
      has one. */
  lemma {:induction false} BlockDevices(tags: seq<Tag>)
    requires AllContained(tags)
    ensures var w, device, screen := SeenAll(START, tags), LastOf(tags, IsDevice), LastOf(tags, IsScreen);
            && (device.None? ==> w.device == 0xE000_0000)
            && (device.Some? ==> |device.value.Room()| >= 12 && w.device == Device(device.value.Room()))
            && (screen.None? ==> w.screen == None)
            && (screen.Some? ==> |screen.value.body| >= 30 && w.screen == Some(ScreenOf(screen.value.body)))
    decreases |tags|
  {
    hide Seen, DeviceOf, Device, ScreenOf, SeenAll;
    if tags == [] {
      NothingSeen(START);
    } else {
      var front, t := tags[..|tags| - 1], tags[|tags| - 1];
      SeenLast(START, tags);
      BlockDevices(front);
      if t.kind == 5 { DeviceIs(t.Room()); }
      DeviceSeen(SeenAll(START, front), t);
    }
  }

  lemma DeviceSeen(v: View, t: Tag)
    requires Contained(t)
    ensures Seen(v, t).device == if t.kind == 5 then DeviceOf(t.Room()) else v.device
    ensures Seen(v, t).screen == if t.kind == 8 && |t.body| >= 30 then Some(ScreenOf(t.body)) else v.screen
  {
    hide DeviceOf, ScreenOf, Ram, EntryCount, SaysKexeced, LineOf;
  }

  /** The command line is that of the last such tag, and none if that is too long; the kernel was
      kexeced if any line short enough said so. */
  lemma {:induction false} BlockLine(tags: seq<Tag>)
    requires AllContained(tags)
    ensures var w, line := SeenAll(START, tags), LastOf(tags, IsLine);
            && (line.None? ==> w.cmdline == [])
            && (line.Some? ==> w.cmdline == if |line.value.body| > 255 then [] else line.value.body)
            && (w.kexeced <==> exists i :: 0 <= i < |tags| && TellsKexeced(tags[i]))
    decreases |tags|
  {
    hide Seen, Contained, SeenAll, TellsKexeced;
    if tags == [] {
      NothingSeen(START);
    } else {
      var front, t := tags[..|tags| - 1], tags[|tags| - 1];
      SeenLast(START, tags);
      BlockLine(front);
      assert forall i :: 0 <= i < |front| ==> tags[i] == front[i];
      LineSeen(SeenAll(START, front), t);
    }
  }

  predicate TellsKexeced(t: Tag) { t.kind == 1 && |t.body| <= 255 && Kexeced(t.body) }

  lemma LineSeen(v: View, t: Tag)
    requires Contained(t)
    ensures Seen(v, t).cmdline == if t.kind != 1 then v.cmdline else if |t.body| > 255 then [] else t.body
    ensures Seen(v, t).kexeced <==> v.kexeced || TellsKexeced(t)
  {
    hide DeviceOf, ScreenOf, Ram, EntryCount, SaysKexeced, Kexeced;
    SaysKexecedIff(t.body);
    SaysKexecedIff([]);
    EmptyLine();
  }

  lemma EmptyLine()
    ensures !Kexeced([])
  {
  }

  lemma NothingSeen(v: View)
    ensures SeenAll(v, []) == v
  {
  }

  /** The table is the RAM of all maps, the first 32 regions of it, and the root pointer the newest. */
  lemma {:induction false} BlockMaps(tags: seq<Tag>)
    requires AllContained(tags)
    ensures var w := SeenAll(START, tags);
            && w.table == (if |AllRam(tags)| > 32 then AllRam(tags)[..32] else AllRam(tags))
            && w.rsdp == RootOf(tags)
    decreases |tags|
  {
    hide Ram, EntryCount, DeviceOf, ScreenOf, SaysKexeced, Contained, SeenAll, RootOf;
    if tags == [] {
      NothingSeen(START);
      NoRoot();
    } else {
      var front, t := tags[..|tags| - 1], tags[|tags| - 1];
      SeenLast(START, tags);
      BlockMaps(front);
      RootStep(tags);
    }
  }

  lemma NoRoot()
    ensures RootOf([]) == []
  {
  }

  lemma RootStep(tags: seq<Tag>)
    requires tags != []
    ensures var before, t := RootOf(tags[..|tags| - 1]), tags[|tags| - 1];
            RootOf(tags) == if t.body != [] && (t.kind == 15 || (t.kind == 14 && before == []))
                            then (if |t.body| > 36 then t.body[..36] else t.body) else before
  {
    RootFound(tags[..|tags| - 1]);
  }

  lemma {:induction false} RootFound(tags: seq<Tag>)
    ensures var l := LastOf(tags, IsNewRoot); l.Some? ==> l.value.body != []
    ensures var f := FirstOf(tags, IsOldRoot); f.Some? ==> f.value.body != []
    decreases |tags|
  {
    if tags != [] { RootFound(tags[..|tags| - 1]); }
  }

  // ---- The block kexec writes ----

  const CMDLINE: Tag := Tag(1, KEXECED + [0], [])

  /** The 40 bytes `fbconsole_export_tag` fills in: type and size in the first four bytes and the
      address from byte 4 on. Two bytes at the end stay as they were. */
  function Exported(s: Screen, slack: Data): (t: Data)
    requires |s.channels| == 6 && |slack| == 2
    ensures |t| == 40
  {
    [8, 0, 40, 0] + Put4(s.addr % 0x1_0000_0000) + Put4(s.addr / 0x1_0000_0000)
    + Put4(s.pitch) + Put4(s.width) + Put4(s.height) + [s.bpp, s.ftype, 0, 0] + s.channels + [0, 0, 0, 0] + slack
  }

  /** Where the exported bytes have the screen: the address in bytes 4 to 11, then pitch, width and
      height, and zeros between the fields. */
  lemma ExportedFields(s: Screen, slack: Data)
    requires |s.channels| == 6 && |slack| == 2
    ensures var t := Exported(s, slack);
            && t[0] == 8 && t[1] == 0 && t[2] == 40 && t[3] == 0 && Le8(t, 4) == s.addr
            && Le4(t, 12) == s.pitch && Le4(t, 16) == s.width && Le4(t, 20) == s.height
            && t[24] == s.bpp && t[25] == s.ftype && t[26] == 0 && t[27] == 0
            && t[28..34] == s.channels && t[34..38] == [0, 0, 0, 0] && t[38..] == slack
  {
    hide Put4, Le4;
    var t := Exported(s, slack);
    assert t[4..8] == Put4(s.addr % 0x1_0000_0000) && t[8..12] == Put4(s.addr / 0x1_0000_0000);
    assert t[12..16] == Put4(s.pitch) && t[16..20] == Put4(s.width) && t[20..24] == Put4(s.height);
    LeAt(t, 4, s.addr % 0x1_0000_0000);
    LeAt(t, 8, s.addr / 0x1_0000_0000);
    LeAt(t, 12, s.pitch);
    LeAt(t, 16, s.width);
    LeAt(t, 20, s.height);
  }

  /** The 128 bytes at the hand-off address. */
  function InfoBlock(exported: Option<Data>): (b: Data)
    requires exported.Some? ==> |exported.value| == 40
    ensures |b| == 128
  {
    if exported.None? then Put4(32) + Put4(0) + SpellTag(CMDLINE) + END + Zeros(96)
    else Put4(72) + Put4(0) + SpellTag(CMDLINE) + exported.value + END + Zeros(56)
  }

  /** What the walk makes of the command line tag: the kernel knows it was kexeced. */
  const TOLD: View := START.(cmdline := KEXECED + [0], kexeced := true)

  lemma CommandLineSeen()
    ensures Fits(CMDLINE) && Seen(START, CMDLINE) == TOLD
  {
    var line := KEXECED + [0];
    CStringStops(KEXECED);
    assert CString(line) == KEXECED;
  }

  lemma {:induction false} CStringStops(s: Data)
    requires forall i :: 0 <= i < |s| ==> s[i] != 0
    ensures CString(s + [0]) == s
    decreases |s|
  {
    if s != [] {
      assert (s + [0])[1..] == s[1..] + [0];
      CStringStops(s[1..]);
    }
  }

  /** Without a framebuffer the block reads back as the kexeced command line, whole. */
  lemma DecodesWithoutScreen()
    ensures WalkFrom(InfoBlock(None), 8, START) == Done(TOLD)
  {
    hide WalkFrom, Seen, SpellTag, Put4, Fits, Zeros;
    CommandLineSeen();
    var pre := Put4(32) + Put4(0);
    var tags := [CMDLINE];
    assert SpellAll(tags) == SpellTag(CMDLINE) + SpellAll(tags[1..]);
    assert SpellAll(tags) == SpellTag(CMDLINE);
    WalkVisitsAll(pre, tags, Zeros(96), START);
    assert SeenAll(START, tags) == Seen(START, CMDLINE);
  }

  /** Where the walk stands after the command line. */
  lemma AfterCommandLine(rest: Data, total: u32)
    ensures WalkFrom(Put4(total) + Put4(0) + SpellTag(CMDLINE) + rest, 8, START)
         == WalkFrom(Put4(total) + Put4(0) + SpellTag(CMDLINE) + rest, 24, TOLD)
  {
    hide Seen, SpellTag, Put4, Fits, Le4, TagAt, SizeAt, EndAt, RoundUp8, Contained;
    CommandLineSeen();
    var mem := Put4(total) + Put4(0) + SpellTag(CMDLINE) + rest;
    TagIsRead(Put4(total) + Put4(0), CMDLINE, rest);
    BeyondIrrelevant(START, CMDLINE, mem[EndAt(mem, 8)..]);
    CommandLineLength();
  }

  lemma CommandLineLength()
    ensures |SpellTag(CMDLINE)| == 16
  {
  }

  /** The exported bytes at offset 24, read as a tag: an unknown type, and the low half of the
      framebuffer's address for a size. */
  lemma ExportedRead(mem: Data, s: Screen, slack: Data)
    requires |s.channels| == 6 && |slack| == 2
    requires |mem| == 128 && mem[24..64] == Exported(s, slack)
    ensures Le4(mem, 24) == 0x28_0008 && SizeAt(mem, 24) == s.addr % 0x1_0000_0000
  {
    hide Le4, Put4;
    var e, z := Exported(s, slack), s.addr % 0x1_0000_0000;
    ExportedParts(s, slack);
    SubSlice(mem, 24, 64, 0, 4);
    SubSlice(mem, 24, 64, 4, 8);
    FirstWord();
    LeAt(mem, 24, 0x28_0008);
    LeAt(mem, 28, z);
  }

  lemma FirstWord()
    ensures Put4(0x28_0008) == [8, 0, 40, 0]
  {
  }

  lemma ExportedParts(s: Screen, slack: Data)
    requires |s.channels| == 6 && |slack| == 2
    ensures Exported(s, slack)[..4] == [8, 0, 40, 0]
    ensures Exported(s, slack)[4..8] == Put4(s.addr % 0x1_0000_0000)
  {
    hide Put4;
  }

  lemma ZeroWord(mem: Data, off: nat)
    requires off + 4 <= |mem| && mem[off] == 0 && mem[off + 1] == 0 && mem[off + 2] == 0 && mem[off + 3] == 0
    ensures Le4(mem, off) == 0
  {
  }

  lemma HandOffParts(exported: Data)
    requires |exported| == 40
    ensures var mem := InfoBlock(Some(exported));
            mem[24..64] == exported && (forall i {:trigger mem[i]} :: 64 <= i < 128 && i != 68 ==> mem[i] == 0)
  {
    var a := Put4(72) + Put4(0) + SpellTag(CMDLINE);
    CommandLineLength();
    Middle(a, exported, END + Zeros(56));
    var mem := InfoBlock(Some(exported));
    assert mem == a + exported + (END + Zeros(56));
    assert mem[64..] == END + Zeros(56);
    forall i {:trigger mem[i]} | 64 <= i < 128 && i != 68
      ensures mem[i] == 0
    {
      assert mem[i] == mem[64..][i - 64];
    }
  }

  /** With a framebuffer the command line is still told, but the exported bytes are not a
      framebuffer tag: the low half of the address is taken for its size. On zero the walk never
      moves on; on 1 to 32 it goes on among the exported fields, read as tags; on 33 to 96 it comes
      to the end tag or the cleared bytes after it; on more it leaves the block. */
  lemma DecodesWithScreen(s: Screen, slack: Data)
    requires |s.channels| == 6 && |slack| == 2
    ensures var z := s.addr % 0x1_0000_0000;
            var mem := InfoBlock(Some(Exported(s, slack)));
            var w := WalkFrom(mem, 8, START);
            && w.view.kexeced
            && (z == 0 ==> w == Stuck(TOLD))
            && (1 <= z <= 32 ==> w == WalkFrom(mem, RoundUp8(24 + z), TOLD))
            && (33 <= z <= 96 ==> w == Done(TOLD))
            && (z > 96 ==> w == Stray(TOLD))
  {
    hide InfoBlock, Exported, WalkFrom;
    var e, z := Exported(s, slack), s.addr % 0x1_0000_0000;
    var mem := InfoBlock(Some(e));
    HandOffWalk(e);
    HandOffParts(e);
    ExportedRead(mem, s, slack);
    UnknownTag(mem, z);
    KexecedStays(mem, 24, TOLD);
  }

  /** What is once known of the command line stays known. */
  lemma {:induction false} KexecedStays(mem: Data, off: nat, v: View)
    requires v.kexeced
    ensures WalkFrom(mem, off, v).view.kexeced
    decreases |mem| - off
  {
    hide Le4, Contained, Ram, RoundUp8, SaysKexeced, DeviceOf, ScreenOf, EntryCount;
    if off + 8 <= |mem| && EndAt(mem, off) <= |mem| && Contained(TagAt(mem, off)) && SizeAt(mem, off) != 0 {
      KexecedStays(mem, RoundUp8(off + SizeAt(mem, off)), Seen(v, TagAt(mem, off)));
    }
  }

  lemma HandOffWalk(e: Data)
    requires |e| == 40
    ensures WalkFrom(InfoBlock(Some(e)), 8, START) == WalkFrom(InfoBlock(Some(e)), 24, TOLD)
  {
    hide WalkFrom, SpellTag, Put4, Zeros;
    var rest := e + END + Zeros(56);
    assert InfoBlock(Some(e)) == Put4(72) + Put4(0) + SpellTag(CMDLINE) + rest;
    AfterCommandLine(rest, 72);
  }

  lemma UnknownTag(mem: Data, z: nat)
    requires |mem| == 128 && Le4(mem, 24) == 0x28_0008 && SizeAt(mem, 24) == z
    requires forall i {:trigger mem[i]} :: 64 <= i < 128 && i != 68 ==> mem[i] == 0
    ensures var w := WalkFrom(mem, 24, TOLD);
            && (z == 0 ==> w == Stuck(TOLD))
            && (1 <= z <= 32 ==> w == WalkFrom(mem, RoundUp8(24 + z), TOLD))
            && (33 <= z <= 96 ==> w == Done(TOLD))
            && (z > 96 ==> w == Stray(TOLD))
  {
    hide Le4, SizeAt, CString;
    if EndAt(mem, 24) <= 128 && z > 32 {
      var off := RoundUp8(24 + z);
      if off < 128 {
        ZeroWord(mem, off);
      }
    }
  }

  /** A framebuffer lies on a page, so then the walk does not end. */
  lemma ScreenOnPageNeverEnds(s: Screen, slack: Data)
    requires |s.channels| == 6 && |slack| == 2 && s.addr % 0x1000 == 0
    ensures !WalkFrom(InfoBlock(Some(Exported(s, slack))), 8, START).Done?
  {
    hide WalkFrom, InfoBlock, Exported;
    PageOffset(s.addr);
    DecodesWithScreen(s, slack);
  }

  lemma PageOffset(a: u64)
    requires a % 0x1000 == 0
    ensures a % 0x1_0000_0000 == 0 || a % 0x1_0000_0000 >= 0x1000
  {
    assert a % 0x1_0000_0000 % 0x1000 == 0;
  }

  /** The tag the specification asks for (section 3.6.12). */
  function ScreenBody(s: Screen): (b: Data)
    requires |s.channels| == 6
    ensures |b| == 30
  {
    Put4(s.addr % 0x1_0000_0000) + Put4(s.addr / 0x1_0000_0000) + Put4(s.pitch) + Put4(s.width) + Put4(s.height)
    + [s.bpp, s.ftype, 0, 0] + s.channels
  }

  lemma ScreenBodyRead(s: Screen)
    requires |s.channels| == 6
    ensures ScreenOf(ScreenBody(s)) == s
  {
    hide Le4, Put4;
    var b := ScreenBody(s);
    assert b[0..4] == Put4(s.addr % 0x1_0000_0000) && b[4..8] == Put4(s.addr / 0x1_0000_0000);
    assert b[8..12] == Put4(s.pitch) && b[12..16] == Put4(s.width) && b[16..20] == Put4(s.height);
    LeAt(b, 0, s.addr % 0x1_0000_0000);
    LeAt(b, 4, s.addr / 0x1_0000_0000);
    LeAt(b, 8, s.pitch);
    LeAt(b, 12, s.width);
    LeAt(b, 16, s.height);
  }

  /** Laid out so, the framebuffer would be handed over whole. */
  lemma ProperScreenDecodes(pre: Data, s: Screen, rest: Data)
    requires |s.channels| == 6 && |pre| % 8 == 0
    ensures var tags := [CMDLINE, Tag(8, ScreenBody(s), [])];
            && AllFit(tags)
            && WalkFrom(pre + SpellAll(tags) + END + rest, |pre|, START) == Done(TOLD.(screen := Some(s)))
  {
    hide WalkFrom, SpellTag, Fits, ScreenBody, ScreenOf;
    var t := Tag(8, ScreenBody(s), []);
    var tags := [CMDLINE, t];
    CommandLineSeen();
    ScreenSeen(s);
    WalkVisitsAll(pre, tags, rest, START);
    assert tags[1..] == [t] && [t][1..] == [];
    assert SeenAll(TOLD, [t]) == SeenAll(Seen(TOLD, t), []);
  }

  lemma ScreenSeen(s: Screen)
    requires |s.channels| == 6
    ensures var t := Tag(8, ScreenBody(s), []); Fits(t) && Seen(TOLD, t) == TOLD.(screen := Some(s))
  {
    hide ScreenBody, ScreenOf;
    ScreenBodyRead(s);
  }

  // ---- The code that walks ----

  /** n bytes from a position on as a little-endian number. */
  function LeN(s: Data, at: nat, n: nat): nat
    requires at + n <= |s|
  {
    if n == 0 then 0 else LeN(s, at, n - 1) + s[at + n - 1] * Pow2(8 * (n - 1))
  }

  lemma {:induction false} LeNBelow(s: Data, at: nat, n: nat)
    requires at + n <= |s|
    ensures LeN(s, at, n) < Pow2(8 * n)
  {
    if n > 0 {
      LeNBelow(s, at, n - 1);
      var p := Pow2(8 * (n - 1));
      NextByte(n - 1);
      MulMonotone(s[at + n - 1], 255, p);
    }
  }

  lemma NextByte(n: nat)
    ensures Pow2(8 * (n + 1)) == 256 * Pow2(8 * n)
  {
    Pow2Add(8, 8 * n);
    assert Pow2(8) == 256;
  }

  lemma LeNIsLe(s: Data, at: nat)
    ensures at + 4 <= |s| ==> LeN(s, at, 4) == Le4(s, at)
    ensures at + 8 <= |s| ==> LeN(s, at, 8) == Le8(s, at)
  {
    BytePowers();
    if at + 4 <= |s| {
      FirstFour(s, at);
    }
    if at + 8 <= |s| {
      assert LeN(s, at, 8) == LeN(s, at, 4) + s[at + 4] * Pow2(32) + s[at + 5] * Pow2(40)
                              + s[at + 6] * Pow2(48) + s[at + 7] * Pow2(56) by {
        LastFour(s, at);
      }
    }
  }

  lemma BytePowers()
    ensures Pow2(0) == 1 && Pow2(8) == 0x100 && Pow2(16) == 0x1_0000 && Pow2(24) == 0x100_0000
    ensures Pow2(32) == 0x1_0000_0000 && Pow2(40) == 0x100_0000_0000
    ensures Pow2(48) == 0x1_0000_0000_0000 && Pow2(56) == 0x100_0000_0000_0000
  {
    hide Pow2;
    PowerZero();
    NextByte(0);
    NextByte(1);
    NextByte(2);
    NextByte(3);
    NextByte(4);
    NextByte(5);
    NextByte(6);
  }

  lemma PowerZero()
    ensures Pow2(0) == 1
  {
  }

  lemma FirstFour(s: Data, at: nat)
    requires at + 4 <= |s|
    ensures LeN(s, at, 4) == Le4(s, at)
  {
    hide Pow2;
    BytePowers();
    FourTerms(s, at);
  }

  lemma FourTerms(s: Data, at: nat)
    requires at + 4 <= |s|
    ensures LeN(s, at, 4) == s[at] * Pow2(0) + s[at + 1] * Pow2(8) + s[at + 2] * Pow2(16) + s[at + 3] * Pow2(24)
  {
    hide Pow2;
    assert LeN(s, at, 2) == LeN(s, at, 1) + s[at + 1] * Pow2(8);
    assert LeN(s, at, 4) == LeN(s, at, 3) + s[at + 3] * Pow2(24);
  }

  lemma LastFour(s: Data, at: nat)
    requires at + 8 <= |s|
    ensures LeN(s, at, 8) == LeN(s, at, 4) + s[at + 4] * Pow2(32) + s[at + 5] * Pow2(40)
                             + s[at + 6] * Pow2(48) + s[at + 7] * Pow2(56)
  {
    hide Pow2;
    assert LeN(s, at, 6) == LeN(s, at, 5) + s[at + 5] * Pow2(40);
    assert LeN(s, at, 8) == LeN(s, at, 7) + s[at + 7] * Pow2(56);
  }

  /** A field gathered byte by byte with shifts and ors. */
  method Gather(e: Data, at: nat, n: nat) returns (v: nat)
    requires at + n <= |e|
    ensures v == LeN(e, at, n)
  {
    hide Pow2, BitOr;
    v := 0;
    for k := 0 to n
      invariant v == LeN(e, at, k)
    {
      LeNBelow(e, at, k);
      ShiftedByte(e[at + k], v, 8 * k);
      v := BitOr(e[at + k] * Pow2(8 * k), v);
    }
  }

  lemma ShiftedByte(b: byte, v: nat, k: nat)
    requires v < Pow2(k)
    ensures BitOr(b * Pow2(k), v) == b * Pow2(k) + v
  {
    DivModUnique(b * Pow2(k), Pow2(k), b, 0);
    OrIsSum(b * Pow2(k), v, k);
  }

  datatype Ending = Ended | Left | Looping

  class Boot {
    var device: u32
    var table: seq<Region>
    var screen: Option<Screen>
    var rsdp: Data
    var cmdline: Data
    var kexeced: bool

    ghost function Known(): View
      reads this
    {
      View(device, table, screen, rsdp, cmdline, kexeced)
    }

    constructor ()
      ensures Known() == START
    {
      device, table, screen, rsdp, cmdline, kexeced := 0xE000_0000, [], None, [], [], false;
    }

    /** One entry of a memory map: kept if it is RAM and there is room. */
    method OnEntry(body: Data, at: nat)
      requires at + 20 <= |body|
      modifies this`table
      ensures table == (if |old(table)| < 32 then old(table) + RamAt(body, at) else old(table))
    {
      LeNIsLe(body, at);
      LeNIsLe(body, at + 8);
      LeNIsLe(body, at + 16);
      var base := Gather(body, at, 8);
      var length := Gather(body, at + 8, 8);
      var kind := Gather(body, at + 16, 4);
      if kind == 1 && |table| < 32 {
        SplitWord(body, at);
        SplitWord(body, at + 8);
        table := table + [Region(base % 0x1_0000_0000, base / 0x1_0000_0000,
                                 length % 0x1_0000_0000, length / 0x1_0000_0000)];
      }
    }

    method OnMemoryMap(t: Tag)
      requires t.kind == 6 && Contained(t) && |table| <= 32
      modifies this`table
      ensures Known() == Seen(old(Known()), t) && |table| <= 32
    {
      hide RamAt, EntryAt, EntrySize, EntryInside;
      var room := t.Room();
      var es := if Le4(room, 0) != 0 then Le4(room, 0) else 24;
      EntrySizeIs(room);
      ghost var was := table;
      var n := EntryCount(t);
      assert was + Ram(t, 0) == was;
      for j := 0 to n
        invariant table == Capped(was + Ram(t, j))
      {
        EntryPlace(t, j);
        CapStep(was, Ram(t, j), RamAt(t.Room(), EntryAt(t.Room(), j)));
        OnEntry(room, 8 + j * es);
      }
    }

    /** The command line tag, by the size in its header. */
    method OnCommandLine(t: Tag, size: u32)
      requires t.kind == 1 && |t.body| == (if size < 8 then 0 else size - 8)
      modifies this`cmdline, this`kexeced
      ensures Known() == Seen(old(Known()), t)
    {
      var n := if size > 8 then size - 8 else 0;
      if size < 8 || size > 8 + 255 {
        n := 0;
      }
      if n > 255 {
        n := 255;
      }
      cmdline := t.body[..n];
      assert n == |t.body| ==> cmdline == t.body;
      if n != 0 && SaysKexeced(cmdline) {
        kexeced := true;
      }
    }

    method OnRootPointer(t: Tag)
      requires t.kind == 15 || t.kind == 14
      modifies this`rsdp
      ensures Known() == Seen(old(Known()), t)
    {
      if (t.kind == 15 || |rsdp| == 0) && |t.body| > 0 {
        var length := |t.body|;
        if length > 36 {
          length := 36;
        }
        rsdp := t.body[..length];
        assert length == |t.body| ==> rsdp == t.body;
      }
    }

    /** One turn of the walk on a tag. */
    method OnTag(t: Tag, size: u32)
      requires Contained(t) && |table| <= 32 && |t.body| == (if size < 8 then 0 else size - 8)
      modifies this
      ensures Known() == Seen(old(Known()), t) && |table| <= 32
    {
      hide Ram, Contained, SaysKexeced, EntryCount, DeviceOf, ScreenOf;
      if t.kind == 5 {
        InsideDevice(t);
        device := DeviceOf(t.Room());
      }
      if t.kind == 6 {
        OnMemoryMap(t);
      }
      if t.kind == 8 && size >= 38 {
        screen := Some(ScreenOf(t.body));
      }
      if t.kind == 15 || t.kind == 14 {
        OnRootPointer(t);
      }
      if t.kind == 1 {
        OnCommandLine(t, size);
      }
    }

    /** The whole walk over a block at an 8-aligned address. */
    method WalkTags(mem: Data, base: nat) returns (e: Ending)
      requires Known() == START && base % 8 == 0 && base + |mem| + TWO_32 + 8 < TWO_64
      modifies this
      ensures var w := WalkFrom(mem, 8, START);
              && Known() == w.view
              && (e == Ended <==> w.Done?) && (e == Left <==> w.Stray?) && (e == Looping <==> w.Stuck?)
    {
      hide Seen, Contained, Le4, RoundUp8, BitAnd, SizeAt, EndAt, TagAt;
      var tag, off := base + 8, 8;
      while true
        invariant tag == base + off && off % 8 == 0 && |table| <= 32
        invariant WalkFrom(mem, off, Known()) == WalkFrom(mem, 8, START)
        decreases |mem| - off
      {
        if off + 8 > |mem| {
          return Left;
        }
        if Le4(mem, off) == 0 {
          return Ended;
        }
        if EndAt(mem, off) > |mem| || !Contained(TagAt(mem, off)) {
          return Left;
        }
        var size := SizeAt(mem, off);
        BodyLength(mem, off);
        OnTag(TagAt(mem, off), size);
        NextTag(base, off, size);
        var next := BitAnd(tag + size + 7, 0xFFFF_FFFF_FFFF_FFF8);
        if next == tag {
          return Looping;
        }
        tag, off := next, next - base;
      }
    }
  }

  lemma InsideDevice(t: Tag)
    requires Contained(t) && t.kind == 5
    ensures |t.Room()| >= 12
  {
  }

  lemma BodyLength(mem: Data, off: nat)
    requires off + 8 <= |mem| && EndAt(mem, off) <= |mem|
    ensures var size := SizeAt(mem, off); |TagAt(mem, off).body| == (if size < 8 then 0 else size - 8)
  {
  }

  /** The rounding of the next tag's address. */
  lemma NextTag(base: nat, off: nat, size: u32)
    requires base % 8 == 0 && off % 8 == 0 && base + off + size + 7 < TWO_64
    ensures BitAnd(base + off + size + 7, 0xFFFF_FFFF_FFFF_FFF8) == base + RoundUp8(off + size)
    ensures RoundUp8(off + size) == off <==> size == 0
    ensures RoundUp8(off + size) >= off && RoundUp8(off + size) % 8 == 0
  {
    hide BitAnd, Pow2;
    EightIsPow2();
    Pow2Of64();
    AndRoundsDown(base + off + size + 7, 3, 64);
    RoundUpIs(base, off + size);
  }

  lemma EightIsPow2()
    ensures Pow2(3) == 8
  {
    assert Pow2(1) == 2;
  }

  lemma RoundUpIs(base: nat, n: nat)
    requires base % 8 == 0
    ensures base + n + 7 - (base + n + 7) % 8 == base + RoundUp8(n)
  {
  }

  lemma SplitWord(s: Data, at: nat)
    requires at + 8 <= |s|
    ensures Le8(s, at) % 0x1_0000_0000 == Le4(s, at) && Le8(s, at) / 0x1_0000_0000 == Le4(s, at + 4)
  {
    hide Le4;
  }

  lemma EntrySizeIs(room: Data)
    requires |room| >= 4
    ensures EntrySize(room) == (if Le4(room, 0) != 0 then Le4(room, 0) else 24)
  {
  }

  lemma EntryPlace(t: Tag, j: nat)
    requires t.kind == 6 && Contained(t) && j < EntryCount(t)
    ensures EntryAt(t.Room(), j) == 8 + j * EntrySize(t.Room()) && EntryAt(t.Room(), j) + 20 <= |t.Room()|
  {
    assert EntryInside(t.Room(), j);
  }

  lemma CapStep(was: seq<Region>, ram: seq<Region>, r: seq<Region>)
    requires |r| <= 1
    ensures Capped(was + (ram + r))
         == (if |Capped(was + ram)| < 32 then Capped(was + ram) + r else Capped(was + ram))
  {
    assert was + (ram + r) == was + ram + r;
  }

  // ---- The code that writes ----

  method PutBytes(mb2: array<byte>, at: nat, src: Data)
    requires at + |src| <= mb2.Length
    modifies mb2
    ensures mb2[..] == Laid(old(mb2[..]), at, src)
  {
    forall i | 0 <= i < |src| {
      mb2[at + i] := src[i];
    }
  }

  /** The block kexec_reboot leaves for the next kernel. */
  method WriteInfo(exported: Option<Data>) returns (mb2: array<byte>)
    requires exported.Some? ==> |exported.value| == 40
    ensures fresh(mb2) && mb2[..] == InfoBlock(exported)
  {
    hide Put4, Laid, Zeros, InfoBlock;
    mb2 := new byte[128](_ => 0);
    assert mb2[..] == Zeros(128);
    PutBytes(mb2, 8, Put4(1));
    PutBytes(mb2, 12, Put4(8 + 8));
    PutBytes(mb2, 16, KEXECED + [0]);
    ghost var told := mb2[..];
    HandOffStart(told);
    if exported.Some? {
      PutBytes(mb2, 24, exported.value);
      PutBytes(mb2, 64, Put4(0));
      PutBytes(mb2, 68, Put4(8));
      PutBytes(mb2, 0, Put4(72));
      HandOffWith(told, exported.value, mb2[..]);
    } else {
      PutBytes(mb2, 24, Put4(0));
      PutBytes(mb2, 28, Put4(8));
      PutBytes(mb2, 0, Put4(32));
      HandOffWithout(told, mb2[..]);
    }
  }

  /** The command line tag in place, all else clear. */
  predicate Started(b: Data) {
    && |b| == 128 && b[8..24] == SpellTag(CMDLINE)
    && forall i {:trigger b[i]} :: 0 <= i < 128 && !(8 <= i < 24) ==> b[i] == 0
  }

  lemma HandOffStart(b: Data)
    requires b == Laid(Laid(Laid(Zeros(128), 8, Put4(1)), 12, Put4(16)), 16, KEXECED + [0])
    ensures Started(b)
  {
    hide Put4, Laid;
    CommandLineLength();
    LaidHere(Zeros(128), 8, Put4(1));
    LaidHere(Laid(Zeros(128), 8, Put4(1)), 12, Put4(16));
    LaidHere(Laid(Laid(Zeros(128), 8, Put4(1)), 12, Put4(16)), 16, KEXECED + [0]);
    SameSlice(b, Laid(Laid(Zeros(128), 8, Put4(1)), 12, Put4(16)), 12, 16);
    SameSlice(b, Laid(Zeros(128), 8, Put4(1)), 8, 12);
    assert SpellTag(CMDLINE) == Put4(1) + Put4(16) + (KEXECED + [0]);
    ThreeParts(b, 8, 12, 16, 24);
  }

  lemma LaidHere(s: Data, at: nat, src: Data)
    requires at + |src| <= |s|
    ensures Laid(s, at, src)[at..at + |src|] == src
  {
    hide Laid;
  }

  lemma SameSlice(b: Data, c: Data, lo: nat, hi: nat)
    requires lo <= hi <= |b| == |c| && forall i :: lo <= i < hi ==> b[i] == c[i]
    ensures b[lo..hi] == c[lo..hi]
  {
  }

  lemma ZeroSlice(b: Data, lo: nat, hi: nat)
    requires lo <= hi <= |b| && forall i :: lo <= i < hi ==> b[i] == 0
    ensures b[lo..hi] == Zeros(hi - lo)
  {
    hide Zeros;
  }

  lemma ThreeParts(b: Data, i: nat, j: nat, k: nat, l: nat)
    requires i <= j <= k <= l <= |b|
    ensures b[i..l] == b[i..j] + b[j..k] + b[k..l]
  {
  }

  lemma ZeroBytes()
    ensures Put4(0) == Zeros(4)
  {
  }

  lemma HandOffWithout(told: Data, b: Data)
    requires Started(told)
    requires b == Laid(Laid(Laid(told, 24, Put4(0)), 28, Put4(8)), 0, Put4(32))
    ensures b == InfoBlock(None)
  {
    hide Put4, SpellTag, Laid, Zeros;
    CommandLineLength();
    ZeroBytes();
    var x := Laid(told, 24, Put4(0));
    var y := Laid(x, 28, Put4(8));
    LaidHere(told, 24, Put4(0));
    LaidHere(x, 28, Put4(8));
    LaidHere(y, 0, Put4(32));
    ZeroSlice(b, 4, 8);
    SameSlice(b, told, 8, 24);
    SameSlice(b, x, 24, 28);
    SameSlice(b, y, 28, 32);
    ZeroSlice(b, 32, 128);
    ThreeParts(b, 0, 4, 8, 24);
    ThreeParts(b, 24, 28, 32, 128);
    assert b == b[0..24] + b[24..128];
    assert b == Put4(32) + Put4(0) + SpellTag(CMDLINE) + (Put4(0) + Put4(8)) + Zeros(96);
  }

  lemma HandOffWith(told: Data, e: Data, b: Data)
    requires Started(told) && |e| == 40
    requires b == Laid(Laid(Laid(Laid(told, 24, e), 64, Put4(0)), 68, Put4(8)), 0, Put4(72))
    ensures b == InfoBlock(Some(e))
  {
    hide Put4, SpellTag, Laid, Zeros;
    CommandLineLength();
    ZeroBytes();
    var w := Laid(told, 24, e);
    var x := Laid(w, 64, Put4(0));
    var y := Laid(x, 68, Put4(8));
    LaidHere(told, 24, e);
    LaidHere(w, 64, Put4(0));
    LaidHere(x, 68, Put4(8));
    LaidHere(y, 0, Put4(72));
    ZeroSlice(b, 4, 8);
    SameSlice(b, told, 8, 24);
    SameSlice(b, w, 24, 64);
    SameSlice(b, x, 64, 68);
    SameSlice(b, y, 68, 72);
    ZeroSlice(b, 72, 128);
    ThreeParts(b, 0, 4, 8, 24);
    ThreeParts(b, 24, 64, 68, 72);
    assert b == b[0..24] + b[24..72] + b[72..128];
    assert b == Put4(72) + Put4(0) + SpellTag(CMDLINE) + e + (Put4(0) + Put4(8)) + Zeros(56);
  }
}
