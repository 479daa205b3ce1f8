/** The user-space heap: power-of-two buckets whose free lists run through the
    block headers, and a slab that small blocks are carved from. */
module Heap {
  import opened Words

  const MALLOC_HDR := 32
  const MALLOC_MAGIC: u32 := 0xA11C_C8ED
  const BUCKETS := 32
  const SBRK_FAILED: u64 := 0xFFFF_FFFF_FFFF_FFFF

  datatype Header = Header(bucket: int, magic: u32, size: nat, next: nat)

  type Memory = map<nat, Header>

  function BucketSize(b: nat): nat { 16 * Pow2(b) }

  function Span(hdr: Header): nat { MALLOC_HDR + hdr.size }

  function Max(a: nat, b: nat): nat { if a < b then b else a }

  // ---- What a heap must satisfy ----

  ghost predicate Within(start: nat, len: nat, granted: iset<nat>) {
    forall a :: start <= a < start + len ==> a in granted
  }

  ghost predicate Fresh(start: nat, len: nat, granted: iset<nat>) {
    forall a :: start <= a < start + len ==> a !in granted
  }

  predicate Disjoint(a: nat, n: nat, b: nat, m: nat) {
    n == 0 || m == 0 || a + n <= b || b + m <= a
  }

  predicate WellFormed(h: nat, hdr: Header) {
    && h > 0 && h % 16 == 0
    && 0 <= hdr.bucket < BUCKETS
    && hdr.size == BucketSize(hdr.bucket)
  }

  /** Every block is well formed and lies in memory that sbrk granted. */
  ghost predicate BlocksOk(mem: Memory, granted: iset<nat>) {
    forall h :: h in mem ==> WellFormed(h, mem[h]) && Within(h, Span(mem[h]), granted)
  }

  /** No two blocks, headers included, share a byte. */
  ghost predicate Apart(mem: Memory) {
    forall g, h :: g in mem && h in mem && g != h ==> Disjoint(g, Span(mem[g]), h, Span(mem[h]))
  }

  /** The unused slab tail is granted memory that no block touches. Before the first
      slab is granted both ends are as initialised, or as a failed sbrk left them. */
  ghost predicate SlabOk(mem: Memory, granted: iset<nat>, cur: u64, end: u64) {
    if end == 0 then cur == 0 || cur == SBRK_FAILED
    else
      && 0 < cur <= end < TWO_63 && cur % 16 == 0
      && Within(cur, end - cur, granted)
      && forall h :: h in mem ==> Disjoint(h, Span(mem[h]), cur, end - cur)
  }

  /** The free list of one bucket: linked through the headers, null terminated,
      without repetition, and holding only freed blocks of that bucket. */
  ghost predicate ChainOk(mem: Memory, head: nat, list: seq<nat>, b: nat)
    decreases |list|
  {
    if list == [] then head == 0
    else
      && head == list[0] && head in mem && mem[head].bucket == b && mem[head].magic == 0
      && head !in list[1..]
      && ChainOk(mem, mem[head].next, list[1..], b)
  }

  ghost predicate ListsOk(mem: Memory, buckets: seq<nat>, free: seq<seq<nat>>) {
    && |buckets| == |free| == BUCKETS
    && forall b :: 0 <= b < BUCKETS ==> ChainOk(mem, buckets[b], free[b], b)
  }

  /** Every block is live, or on the free list of its own bucket. */
  ghost predicate Accounted(mem: Memory, free: seq<seq<nat>>)
    requires |free| == BUCKETS
  {
    forall h :: h in mem && 0 <= mem[h].bucket < BUCKETS ==>
                  mem[h].magic == MALLOC_MAGIC || h in free[mem[h].bucket]
  }

  /** The allocator's globals and the memory it manages. `free` lists the chained
      blocks and `granted` the addresses that sbrk has handed over so far. */
  datatype State = State(
    mem: Memory, bytes: map<nat, int>, buckets: seq<nat>, free: seq<seq<nat>>,
    cur: u64, end: u64, granted: iset<nat>)

  ghost predicate Ok(s: State) {
    && BlocksOk(s.mem, s.granted) && Apart(s.mem) && SlabOk(s.mem, s.granted, s.cur, s.end)
    && ListsOk(s.mem, s.buckets, s.free) && Accounted(s.mem, s.free)
  }

  function LiveBlocks(mem: Memory): set<nat> {
    set h | h in mem && mem[h].magic == MALLOC_MAGIC
  }

  // ---- What the invariant means to a caller ----

  /** A payload overlaps neither another block, header included, nor its own header. */
  lemma PayloadsAreSafe(mem: Memory, granted: iset<nat>, g: nat, h: nat)
    requires BlocksOk(mem, granted) && Apart(mem)
    requires g in mem && h in mem && g != h
    ensures Disjoint(g + MALLOC_HDR, mem[g].size, h, Span(mem[h]))
    ensures Disjoint(g + MALLOC_HDR, mem[g].size, g, MALLOC_HDR)
  {
    assert Disjoint(g, Span(mem[g]), h, Span(mem[h]));
    SubSpan(g, Span(mem[g]), h, Span(mem[h]), MALLOC_HDR);
  }

  /** A payload does not reach into the slab tail. */
  lemma PayloadsLeaveSlab(mem: Memory, granted: iset<nat>, cur: u64, end: u64, g: nat)
    requires SlabOk(mem, granted, cur, end) && cur <= end
    requires g in mem
    ensures Disjoint(g + MALLOC_HDR, mem[g].size, cur, end - cur)
  {
    if end != 0 { SubSpan(g, Span(mem[g]), cur, end - cur, MALLOC_HDR); }
  }

  lemma SubSpan(a: nat, n: nat, b: nat, m: nat, k: nat)
    requires k <= n && Disjoint(a, n, b, m)
    ensures Disjoint(a + k, n - k, b, m)
  {
  }

  /** A block is never both live and free, nor on two free lists. */
  lemma FreeListsAreDisjoint(mem: Memory, buckets: seq<nat>, free: seq<seq<nat>>, b: nat, c: nat, h: nat)
    requires ListsOk(mem, buckets, free)
    requires b < BUCKETS && c < BUCKETS && h in free[b] && h in free[c]
    ensures b == c && h !in LiveBlocks(mem)
  {
    ChainMembers(mem, buckets[b], free[b], b);
    ChainMembers(mem, buckets[c], free[c], c);
  }

  /** Every block is exactly one of live, and on the free list of its own bucket. */
  lemma LiveXorFree(s: State, h: nat)
    requires Ok(s) && h in s.mem
    ensures 0 <= s.mem[h].bucket < |s.free|
    ensures h in LiveBlocks(s.mem) <==> h !in s.free[s.mem[h].bucket]
    ensures forall b :: 0 <= b < |s.free| && b != s.mem[h].bucket ==> h !in s.free[b]
  {
    assert WellFormed(h, s.mem[h]);
    hide BlocksOk, Apart, SlabOk;
    forall b | 0 <= b < |s.free|
      ensures h in s.free[b] ==> s.mem[h].bucket == b && s.mem[h].magic == 0
    {
      ChainMembers(s.mem, s.buckets[b], s.free[b], b);
    }
  }

  lemma {:induction false} ChainMembers(mem: Memory, head: nat, list: seq<nat>, b: nat)
    requires ChainOk(mem, head, list, b)
    ensures forall h :: h in list ==> h in mem && mem[h].bucket == b && mem[h].magic == 0
    ensures forall i, j :: 0 <= i < j < |list| ==> list[i] != list[j]
    decreases |list|
  {
    if list != [] { ChainMembers(mem, mem[head].next, list[1..], b); }
  }

  // ---- How each kind of step keeps it ----

  /** Headers may change everything but where blocks are and how long. */
  ghost predicate SameShape(mem: Memory, mem': Memory) {
    && mem.Keys == mem'.Keys
    && forall h :: h in mem ==> mem'[h].bucket == mem[h].bucket && mem'[h].size == mem[h].size
  }

  lemma ShapeIsEnough(mem: Memory, mem': Memory, granted: iset<nat>, cur: u64, end: u64)
    requires SameShape(mem, mem')
    requires BlocksOk(mem, granted) && Apart(mem) && SlabOk(mem, granted, cur, end)
    ensures BlocksOk(mem', granted) && Apart(mem') && SlabOk(mem', granted, cur, end)
  {
    assert forall h :: h in mem' ==> Span(mem'[h]) == Span(mem[h]);
  }

  /** Changing headers that are not on a list leaves the list alone. */
  lemma {:induction false} ChainUntouched(mem: Memory, mem': Memory, head: nat, list: seq<nat>, b: nat)
    requires ChainOk(mem, head, list, b)
    requires forall h :: h in list ==> h in mem && h in mem' && mem'[h] == mem[h]
    ensures ChainOk(mem', head, list, b)
    decreases |list|
  {
    if list != [] { ChainUntouched(mem, mem', mem[head].next, list[1..], b); }
  }

  /** Taking the first block off a free list and marking it live. */
  lemma PopKeeps(mem: Memory, buckets: seq<nat>, free: seq<seq<nat>>, b: nat, mem': Memory)
    requires b < BUCKETS && ListsOk(mem, buckets, free) && Accounted(mem, free)
    requires free[b] != []
    requires mem' == mem[buckets[b] := mem[buckets[b]].(magic := MALLOC_MAGIC, next := 0)]
    ensures ListsOk(mem', buckets[b := mem[buckets[b]].next], free[b := free[b][1..]])
    ensures Accounted(mem', free[b := free[b][1..]])
  {
    var h := buckets[b];
    var buckets', free' := buckets[b := mem[h].next], free[b := free[b][1..]];
    forall c | 0 <= c < BUCKETS
      ensures ChainOk(mem', buckets'[c], free'[c], c)
    {
      ChainMembers(mem, buckets[c], free[c], c);
      ChainUntouched(mem, mem', buckets'[c], free'[c], c);
    }
    assert free[b] == [h] + free'[b];
  }

  /** Marking a live block free and pushing it on the list of its bucket. */
  lemma PushKeeps(mem: Memory, buckets: seq<nat>, free: seq<seq<nat>>, h: nat, mem': Memory)
    requires ListsOk(mem, buckets, free) && Accounted(mem, free)
    requires h > 0 && h in mem && 0 <= mem[h].bucket < BUCKETS && mem[h].magic == MALLOC_MAGIC
    requires mem' == mem[h := mem[h].(magic := 0, next := buckets[mem[h].bucket])]
    ensures ListsOk(mem', buckets[mem[h].bucket := h], free[mem[h].bucket := [h] + free[mem[h].bucket]])
    ensures Accounted(mem', free[mem[h].bucket := [h] + free[mem[h].bucket]])
  {
    var b := mem[h].bucket;
    var buckets', free' := buckets[b := h], free[b := [h] + free[b]];
    assert free'[b][1..] == free[b];
    forall c | 0 <= c < BUCKETS
      ensures ChainOk(mem', buckets'[c], free'[c], c)
    {
      ChainMembers(mem, buckets[c], free[c], c);
      ChainUntouched(mem, mem', buckets[c], free[c], c);
    }
  }

  /** Adding a live block in memory that no block uses. */
  lemma AddKeeps(mem: Memory, granted: iset<nat>, buckets: seq<nat>, free: seq<seq<nat>>, h: nat, hdr: Header)
    requires BlocksOk(mem, granted) && Apart(mem) && ListsOk(mem, buckets, free) && Accounted(mem, free)
    requires WellFormed(h, hdr) && hdr.magic == MALLOC_MAGIC && Within(h, Span(hdr), granted)
    requires forall g :: g in mem ==> Disjoint(g, Span(mem[g]), h, Span(hdr))
    ensures h !in mem
    ensures var mem' := mem[h := hdr];
            BlocksOk(mem', granted) && Apart(mem') && ListsOk(mem', buckets, free) && Accounted(mem', free)
  {
    assert h in mem ==> Disjoint(h, Span(mem[h]), h, Span(hdr));
    var mem' := mem[h := hdr];
    forall c | 0 <= c < BUCKETS
      ensures ChainOk(mem', buckets[c], free[c], c)
    {
      ChainMembers(mem, buckets[c], free[c], c);
      ChainUntouched(mem, mem', buckets[c], free[c], c);
    }
  }

  lemma GrantedIsFarFromFresh(a: nat, n: nat, b: nat, m: nat, granted: iset<nat>)
    requires Within(a, n, granted) && Fresh(b, m, granted)
    ensures Disjoint(a, n, b, m)
  {
    assert !Disjoint(a, n, b, m) ==> Max(a, b) in granted;
  }

  // ---- free ----

  function Freed(s: State, h: nat): State
    requires h in s.mem && 0 <= s.mem[h].bucket < |s.buckets| == |s.free|
  {
    var b := s.mem[h].bucket;
    s.(mem := s.mem[h := s.mem[h].(magic := 0, next := s.buckets[b])],
       buckets := s.buckets[b := h],
       free := s.free[b := [h] + s.free[b]])
  }

  /** `free`: only a block carrying the magic word is pushed on its list. */
  function FreeStep(s: State, ptr: nat): State
    requires |s.buckets| == |s.free| == BUCKETS
    requires ptr == 0 || (ptr >= MALLOC_HDR && ptr - MALLOC_HDR in s.mem)
  {
    if ptr == 0 then s
    else
      var hdr := s.mem[ptr - MALLOC_HDR];
      if hdr.bucket < 0 || hdr.bucket >= BUCKETS || hdr.magic != MALLOC_MAGIC then s
      else Freed(s, ptr - MALLOC_HDR)
  }

  predicate KnownPointer(s: State, ptr: nat) {
    ptr == 0 || (ptr >= MALLOC_HDR && ptr - MALLOC_HDR in s.mem)
  }

  /** Freeing keeps the heap sound, and does nothing to a null pointer or to a block
      that is already free. */
  lemma FreeKeeps(s: State, ptr: nat)
    requires Ok(s) && KnownPointer(s, ptr)
    ensures Ok(FreeStep(s, ptr))
    ensures ptr == 0 || ptr - MALLOC_HDR !in LiveBlocks(s.mem) ==> FreeStep(s, ptr) == s
  {
    var h := ptr - MALLOC_HDR;
    if ptr != 0 && s.mem[h].magic == MALLOC_MAGIC {
      FreedKeeps(s, h);
    }
  }

  lemma FreedKeeps(s: State, h: nat)
    requires Ok(s) && h in LiveBlocks(s.mem)
    ensures WellFormed(h, s.mem[h])
    ensures Ok(Freed(s, h))
  {
    assert WellFormed(h, s.mem[h]);
    hide BlocksOk, Apart, SlabOk, ListsOk, Accounted;
    var mem' := Freed(s, h).mem;
    PushKeeps(s.mem, s.buckets, s.free, h, mem');
    ShapeIsEnough(s.mem, mem', s.granted, s.cur, s.end);
  }

  /** Freeing takes exactly that block out of the live set and touches no other header. */
  lemma FreeTakesOne(s: State, ptr: nat)
    requires |s.buckets| == |s.free| == BUCKETS && KnownPointer(s, ptr)
    requires forall h :: h in s.mem ==> WellFormed(h, s.mem[h])
    ensures LiveBlocks(FreeStep(s, ptr).mem) == LiveBlocks(s.mem) - {ptr - MALLOC_HDR}
    ensures forall g :: g in s.mem && g != ptr - MALLOC_HDR ==>
                          g in FreeStep(s, ptr).mem && FreeStep(s, ptr).mem[g] == s.mem[g]
  {
    if ptr != 0 { assert WellFormed(ptr - MALLOC_HDR, s.mem[ptr - MALLOC_HDR]); }
  }

  // ---- malloc ----

  /** The smallest bucket from `b` on that holds `want` bytes, or -1. */
  function BucketFrom(want: nat, b: nat): (r: int)
    requires b <= BUCKETS
    ensures r == -1 || b <= r < BUCKETS
    ensures r == -1 ==> forall c :: b <= c < BUCKETS ==> BucketSize(c) < want
    ensures r >= 0 ==> want <= BucketSize(r) && forall c :: b <= c < r ==> BucketSize(c) < want
    decreases BUCKETS - b
  {
    if b == BUCKETS then -1 else if BucketSize(b) >= want then b else BucketFrom(want, b + 1)
  }

  function BucketFor(size: nat): int { BucketFrom(Max(size, 16), 0) }

  /** How many bytes `malloc` asks of sbrk for a block of `total` bytes. */
  function SbrkAmount(total: nat): nat {
    if total <= 0x10_0000
    then BitAnd(Max(total, 0x1_0000) + 0xfff, 0xFFFF_FFFF_FFFF_F000)
    else BitAnd(total + 0xfff, 0xFFFF_F000)
  }

  /** The unsigned room test of line 1012. */
  predicate SlabTooSmall(cur: u64, end: u64, total: nat) {
    (end - cur) % TWO_64 < total
  }

  predicate SbrkFails(p: u64) { p == 0 || p == SBRK_FAILED }

  predicate InRegion(a: nat, p: nat, amount: nat) { p <= a < p + amount }

  ghost function Region(p: nat, amount: nat): iset<nat> {
    iset a: nat | InRegion(a, p, amount)
  }

  function Install(s: State, h: nat, b: nat): State {
    s.(mem := s.mem[h := Header(b, MALLOC_MAGIC, BucketSize(b), 0)])
  }

  /** Reusing the first block of a free list. */
  function Popped(s: State, b: nat): State
    requires b < |s.buckets| == |s.free| && s.buckets[b] in s.mem && s.free[b] != []
  {
    var h := s.buckets[b];
    s.(mem := s.mem[h := s.mem[h].(magic := MALLOC_MAGIC, next := 0)],
       buckets := s.buckets[b := s.mem[h].next],
       free := s.free[b := s.free[b][1..]])
  }

  /** Carving from the slab, after a refill if it is too small. A failed refill has
      already overwritten `slab_cur` when the failure is noticed (line 1015). */
  ghost function Carved(s: State, b: nat, p: u64): (State, nat) {
    var total := BucketSize(b) + MALLOC_HDR;
    if !SlabTooSmall(s.cur, s.end, total) then
      (Install(s.(cur := (s.cur + total) % TWO_64), s.cur, b), s.cur + MALLOC_HDR)
    else if SbrkFails(p) then
      (s.(cur := p), 0)
    else
      var amount := SbrkAmount(total);
      (Install(s.(cur := (p + total) % TWO_64, end := (p + amount) % TWO_64,
                  granted := s.granted + Region(p, amount)), p, b),
       p + MALLOC_HDR)
  }

  /** A block with an sbrk region of its own. */
  ghost function Large(s: State, b: nat, p: u64): (State, nat) {
    if SbrkFails(p) then (s, 0)
    else
      (Install(s.(granted := s.granted + Region(p, SbrkAmount(BucketSize(b) + MALLOC_HDR))), p, b),
       p + MALLOC_HDR)
  }

  /** The bucket's list can be popped, or is empty. */
  predicate Poppable(s: State, b: nat) {
    && b < BUCKETS && |s.buckets| == |s.free| == BUCKETS
    && (s.buckets[b] != 0 ==>
          s.buckets[b] in s.mem && s.mem[s.buckets[b]].bucket == b && s.free[b] != [])
  }

  /** A block of bucket `b`: reused, carved, or in a region of its own. */
  ghost function Taken(s: State, b: nat, p: u64): (State, nat)
    requires Poppable(s, b)
  {
    if s.buckets[b] != 0 then (Popped(s, b), s.buckets[b] + MALLOC_HDR)
    else
      var total := BucketSize(b) + MALLOC_HDR;
      if total > 0x7fff_ffff then (s, 0)
      else if total <= 0x10_0000 then Carved(s, b, p)
      else Large(s, b, p)
  }

  lemma OkIsPoppable(s: State, b: nat)
    requires Ok(s) && b < BUCKETS
    ensures Poppable(s, b)
  {
    assert ChainOk(s.mem, s.buckets[b], s.free[b], b);
  }

  /** `malloc`, given what sbrk returns if it is called: the new state and the
      pointer, 0 for null. */
  ghost function MallocStep(s: State, size: nat, p: u64): (State, nat)
    requires Ok(s)
  {
    var b := BucketFor(size);
    if b < 0 then (s, 0)
    else
      OkIsPoppable(s, b);
      Taken(s, b, p)
  }

  lemma MallocIsTake(s: State, size: nat, p: u64)
    requires Ok(s)
    ensures -1 <= BucketFor(size) < BUCKETS
    ensures BucketFor(size) < 0 ==> MallocStep(s, size, p) == (s, 0)
    ensures BucketFor(size) >= 0 ==>
              Poppable(s, BucketFor(size)) && MallocStep(s, size, p) == Taken(s, BucketFor(size), p)
  {
    hide Ok, Taken, BucketSize, Poppable;
    if BucketFor(size) >= 0 { OkIsPoppable(s, BucketFor(size)); }
  }

  /** What the kernel promises of an sbrk of `amount` bytes: null, -1, or a region never
      granted before, on a multiple of 16. */
  ghost predicate SbrkResult(p: u64, amount: nat, granted: iset<nat>) {
    SbrkFails(p) || (p % 16 == 0 && p + amount < TWO_63 && Fresh(p, amount, granted))
  }

  /** The kernel keeps the promise: a break starts 16 bytes into the heap's first page and
      moves by whole pages, so what it returns is 16 beyond a page boundary. */
  lemma BreakKeepsPromise(p: u64, amount: nat, granted: iset<nat>)
    requires p % 4096 == 16 && p + amount < TWO_63 && Fresh(p, amount, granted)
    ensures SbrkResult(p, amount, granted) && !SbrkFails(p)
  {
    hide Fresh;
    DivModUnique(p, 16, 256 * (p / 4096) + 1, 0);
  }

  lemma SbrkAmountFits(total: nat)
    requires total <= 0x7fff_ffff
    ensures total <= SbrkAmount(total)
  {
    if total <= 0x10_0000 {
      RoundToPage(Max(total, 0x1_0000) + 0xfff, 64, 0xFFFF_FFFF_FFFF_F000);
    } else {
      RoundToPage(total + 0xfff, 32, 0xFFFF_F000);
    }
  }

  lemma RoundToPage(x: nat, w: nat, mask: nat)
    requires (w == 32 && mask == 0xFFFF_F000 && x < 0x1_0000_0000)
          || (w == 64 && mask == 0xFFFF_FFFF_FFFF_F000 && x < 0x1_0000_0000_0000_0000)
    ensures BitAnd(x, mask) > x - 4096
  {
    Pow2Of16();
    if w == 32 { Pow2Of32(); } else { Pow2Of64(); }
    AndRoundsDown(x, 12, w);
  }

  lemma BucketSizeAligned(b: nat)
    ensures BucketSize(b) % 16 == 0 && BucketSize(b) >= 16
  {
    hide Pow2;
    DivModUnique(BucketSize(b), 16, Pow2(b), 0);
  }

  lemma PoppedKeeps(s: State, b: nat)
    requires Ok(s) && b < BUCKETS && s.buckets[b] != 0
    ensures s.buckets[b] in s.mem && s.mem[s.buckets[b]].bucket == b && s.mem[s.buckets[b]].magic == 0
    ensures s.free[b] != [] && Ok(Popped(s, b))
  {
    assert ChainOk(s.mem, s.buckets[b], s.free[b], b);
    hide BlocksOk, Apart, SlabOk, ListsOk, Accounted;
    var mem' := Popped(s, b).mem;
    PopKeeps(s.mem, s.buckets, s.free, b, mem');
    ShapeIsEnough(s.mem, mem', s.granted, s.cur, s.end);
  }

  /** Granting more memory harms nothing. */
  lemma GrantKeeps(mem: Memory, granted: iset<nat>, more: iset<nat>, cur: u64, end: u64)
    requires BlocksOk(mem, granted)
    ensures BlocksOk(mem, granted + more)
    ensures SlabOk(mem, granted, cur, end) ==> SlabOk(mem, granted + more, cur, end)
  {
  }

  /** A new block in granted memory that touches neither a block nor the slab tail. */
  lemma InstallKeeps(s: State, h: nat, b: nat)
    requires Ok(s) && b < BUCKETS && h > 0 && h % 16 == 0
    requires Within(h, BucketSize(b) + MALLOC_HDR, s.granted)
    requires forall g :: g in s.mem ==> Disjoint(g, Span(s.mem[g]), h, BucketSize(b) + MALLOC_HDR)
    requires s.end != 0 ==> Disjoint(h, BucketSize(b) + MALLOC_HDR, s.cur, s.end - s.cur)
    ensures h !in s.mem && Ok(Install(s, h, b))
  {
    var hdr := Header(b, MALLOC_MAGIC, BucketSize(b), 0);
    assert SlabOk(s.mem[h := hdr], s.granted, s.cur, s.end);
    hide BlocksOk, Apart, SlabOk, ListsOk, Accounted, ChainOk;
    AddKeeps(s.mem, s.granted, s.buckets, s.free, h, hdr);
  }

  /** Taking the front of the slab tail leaves a shorter tail. */
  lemma TailShrinks(mem: Memory, granted: iset<nat>, cur: u64, end: u64, total: nat)
    requires SlabOk(mem, granted, cur, end) && end != 0 && total <= end - cur && total % 16 == 0
    ensures SlabOk(mem, granted, cur + total, end) && Within(cur, total, granted)
    ensures forall g :: g in mem ==> Disjoint(g, Span(mem[g]), cur, total)
  {
  }

  /** Room in the slab: the block takes the front of the tail. */
  lemma CarveFromTail(s: State, b: nat)
    requires Ok(s) && b < BUCKETS && !SlabTooSmall(s.cur, s.end, BucketSize(b) + MALLOC_HDR)
    ensures s.cur > 0 && s.cur !in s.mem && Ok(Carved(s, b, 0).0)
  {
    var total := BucketSize(b) + MALLOC_HDR;
    hide BlocksOk, Apart, SlabOk, ListsOk, Accounted, ChainOk, Within, BucketSize, SlabTooSmall;
    BucketSizeAligned(b);
    RoomInTail(s.mem, s.granted, s.cur, s.end, total);
    assert s.(cur := s.cur + total) == s.(cur := (s.cur + total) % TWO_64);
    TailShrinks(s.mem, s.granted, s.cur, s.end, total);
    InstallKeeps(s.(cur := s.cur + total), s.cur, b);
  }

  /** In a sound heap the unsigned room test says what it should. */
  lemma RoomInTail(mem: Memory, granted: iset<nat>, cur: u64, end: u64, total: nat)
    requires SlabOk(mem, granted, cur, end) && total >= 16 && !SlabTooSmall(cur, end, total)
    ensures 0 < cur <= end < TWO_63 && cur % 16 == 0 && total <= end - cur
  {
  }

  /** Blocks and the slab tail stay clear of a region that was never granted. */
  lemma FreshIsClear(s: State, p: u64, amount: nat)
    requires Ok(s) && Fresh(p, amount, s.granted)
    ensures forall g :: g in s.mem ==> Disjoint(g, Span(s.mem[g]), p, amount)
    ensures s.end != 0 ==> Disjoint(s.cur, s.end - s.cur, p, amount)
  {
    forall g | g in s.mem
      ensures Disjoint(g, Span(s.mem[g]), p, amount)
    {
      GrantedIsFarFromFresh(g, Span(s.mem[g]), p, amount, s.granted);
    }
    if 0 < s.end { GrantedIsFarFromFresh(s.cur, s.end - s.cur, p, amount, s.granted); }
  }

  /** A fresh region becomes the new slab, its first `total` bytes set aside. */
  lemma FreshSlab(mem: Memory, granted: iset<nat>, p: u64, amount: nat, total: nat)
    requires 0 < p && p % 16 == 0 && p + amount < TWO_63 && total <= amount && total % 16 == 0
    requires forall g :: g in mem ==> Disjoint(g, Span(mem[g]), p, amount)
    ensures SlabOk(mem, granted + Region(p, amount), p + total, p + amount)
    ensures Within(p, total, granted + Region(p, amount))
  {
  }

  /** A fresh region holds a block at its start; the rest of it is the new slab, or
      belongs to the block while the old slab stays. */
  lemma FreshRegionKeeps(s: State, p: u64, amount: nat, b: nat, newSlab: bool)
    requires Ok(s) && b < BUCKETS
    requires 0 < p && p % 16 == 0 && p + amount < TWO_63 && Fresh(p, amount, s.granted)
    requires BucketSize(b) + MALLOC_HDR <= amount
    ensures p !in s.mem
    ensures var cur := if newSlab then p + BucketSize(b) + MALLOC_HDR else s.cur;
            var end := if newSlab then p + amount else s.end;
            Ok(Install(s.(granted := s.granted + Region(p, amount), cur := cur, end := end), p, b))
  {
    hide BlocksOk, Apart, SlabOk, ListsOk, Accounted, ChainOk, Within, Fresh, BucketSize, Region, Span, Install;
    var total := BucketSize(b) + MALLOC_HDR;
    BucketSizeAligned(b);
    FreshIsClear(s, p, amount);
    GrantKeeps(s.mem, s.granted, Region(p, amount), s.cur, s.end);
    FreshSlab(s.mem, s.granted, p, amount, total);
    StartIsClear(s.mem, p, amount, total);
    var s' := s.(granted := s.granted + Region(p, amount),
                 cur := if newSlab then p + total else s.cur,
                 end := if newSlab then p + amount else s.end);
    InstallKeeps(s', p, b);
  }

  lemma StartIsClear(mem: Memory, p: nat, amount: nat, total: nat)
    requires total <= amount && forall g :: g in mem ==> Disjoint(g, Span(mem[g]), p, amount)
    ensures forall g :: g in mem ==> Disjoint(g, Span(mem[g]), p, total)
  {
  }

  /** A slab refill that sbrk refuses. */
  predicate RefillFails(s: State, size: nat, p: u64)
    requires |s.buckets| == BUCKETS
  {
    var b := BucketFor(size);
    && b >= 0 && s.buckets[b] == 0
    && BucketSize(b) + MALLOC_HDR <= 0x10_0000
    && SlabTooSmall(s.cur, s.end, BucketSize(b) + MALLOC_HDR)
    && SbrkFails(p)
  }

  /** The sbrk result `p` is one the kernel may give to a request of `size` bytes. */
  ghost predicate KernelGrants(s: State, size: nat, p: u64) {
    BucketFor(size) >= 0 ==>
      SbrkResult(p, SbrkAmount(BucketSize(BucketFor(size)) + MALLOC_HDR), s.granted)
  }

  /** `malloc` keeps the heap sound if and only if it does not try, and fail, to
      replace a slab it already had. */
  lemma MallocKeepsIff(s: State, size: nat, p: u64)
    requires Ok(s) && KernelGrants(s, size, p)
    ensures Ok(MallocStep(s, size, p).0) <==> !(RefillFails(s, size, p) && s.end != 0)
  {
    var b := BucketFor(size);
    if b >= 0 {
      if s.buckets[b] != 0 {
        PoppedKeeps(s, b);
      } else if BucketSize(b) + MALLOC_HDR <= 0x7fff_ffff {
        if RefillFails(s, size, p) {
          assert SlabOk(s.mem, s.granted, p, s.end) <==> s.end == 0;
        } else {
          GrowKeeps(s, b, p);
        }
      }
    }
  }

  /** The two ways of getting a block that is on no free list. */
  lemma GrowKeeps(s: State, b: nat, p: u64)
    requires Ok(s) && b < BUCKETS && BucketSize(b) + MALLOC_HDR <= 0x7fff_ffff
    requires SbrkResult(p, SbrkAmount(BucketSize(b) + MALLOC_HDR), s.granted)
    ensures !SlabTooSmall(s.cur, s.end, BucketSize(b) + MALLOC_HDR) ==>
              s.cur > 0 && s.cur !in s.mem && Ok(Carved(s, b, p).0)
    ensures !SbrkFails(p) ==> p !in s.mem && Ok(Carved(s, b, p).0)
    ensures Ok(Large(s, b, p).0)
  {
    hide Ok, SlabTooSmall, Fresh, SbrkAmount, BucketSize;
    var total := BucketSize(b) + MALLOC_HDR;
    if !SlabTooSmall(s.cur, s.end, total) { CarveFromTail(s, b); }
    if !SbrkFails(p) {
      SbrkAmountFits(total);
      FreshRegionKeeps(s, p, SbrkAmount(total), b, true);
      FreshRegionKeeps(s, p, SbrkAmount(total), b, false);
    }
  }

  /** Block `h` has become live, holds `size` bytes, and no other header changed. */
  ghost predicate Gives(mem: Memory, mem': Memory, h: nat, size: nat) {
    && h % 16 == 0
    && h !in LiveBlocks(mem) && LiveBlocks(mem') == LiveBlocks(mem) + {h}
    && h in mem' && size <= mem'[h].size
    && forall g :: g in mem && g != h ==> g in mem' && mem'[g] == mem[g]
  }

  lemma InstallGives(s: State, h: nat, b: nat, size: nat)
    requires h !in s.mem && h % 16 == 0 && size <= BucketSize(b)
    ensures Gives(s.mem, Install(s, h, b).mem, h, size)
  {
  }

  lemma PopGives(s: State, b: nat, size: nat)
    requires Ok(s) && b < BUCKETS && s.buckets[b] != 0 && size <= BucketSize(b)
    requires s.buckets[b] in s.mem && s.free[b] != []
    ensures Gives(s.mem, Popped(s, b).mem, s.buckets[b], size)
  {
    PoppedKeeps(s, b);
    assert WellFormed(s.buckets[b], s.mem[s.buckets[b]]);
    hide BlocksOk, Apart, SlabOk, ListsOk, Accounted;
  }

  /** What a call that returned `r` has done. */
  ghost predicate Allocated(s: State, s': State, r: nat, size: nat) {
    && s'.bytes == s.bytes
    && (r == 0 ==> s'.mem == s.mem)
    && (r != 0 ==> r >= MALLOC_HDR && Gives(s.mem, s'.mem, r - MALLOC_HDR, size))
  }

  lemma SbrkAligned(p: u64, amount: nat, granted: iset<nat>)
    requires SbrkResult(p, amount, granted) && !SbrkFails(p)
    ensures p % 16 == 0
  {
    hide Fresh;
  }

  lemma CarvedGives(s: State, b: nat, p: u64, size: nat)
    requires Ok(s) && b < BUCKETS && size <= BucketSize(b) && BucketSize(b) + MALLOC_HDR <= 0x7fff_ffff
    requires SbrkResult(p, SbrkAmount(BucketSize(b) + MALLOC_HDR), s.granted)
    ensures Allocated(s, Carved(s, b, p).0, Carved(s, b, p).1, size)
  {
    hide BlocksOk, Apart, SlabOk, ListsOk, Accounted, Gives, SbrkAmount, BucketSize, SbrkResult, SlabTooSmall;
    var total := BucketSize(b) + MALLOC_HDR;
    GrowKeeps(s, b, p);
    if !SlabTooSmall(s.cur, s.end, total) {
      BucketSizeAligned(b);
      RoomInTail(s.mem, s.granted, s.cur, s.end, total);
      InstallGives(s, s.cur, b, size);
    } else if !SbrkFails(p) {
      SbrkAligned(p, SbrkAmount(total), s.granted);
      InstallGives(s, p, b, size);
    }
  }

  lemma LargeGives(s: State, b: nat, p: u64, size: nat)
    requires Ok(s) && b < BUCKETS && size <= BucketSize(b) && BucketSize(b) + MALLOC_HDR <= 0x7fff_ffff
    requires SbrkResult(p, SbrkAmount(BucketSize(b) + MALLOC_HDR), s.granted)
    ensures Allocated(s, Large(s, b, p).0, Large(s, b, p).1, size)
  {
    hide BlocksOk, Apart, SlabOk, ListsOk, Accounted, Gives, SbrkAmount, BucketSize, SbrkResult, Carved;
    GrowKeeps(s, b, p);
    if !SbrkFails(p) {
      SbrkAligned(p, SbrkAmount(BucketSize(b) + MALLOC_HDR), s.granted);
      InstallGives(s, p, b, size);
    }
  }

  /** What a caller gets when it is not a null pointer: a 16-aligned block, live from
      now on and not before, that holds the request. No payload byte changes. */
  lemma MallocGives(s: State, size: nat, p: u64)
    requires Ok(s) && KernelGrants(s, size, p)
    ensures var (s', r) := MallocStep(s, size, p); Allocated(s, s', r, size)
  {
    var b := BucketFor(size);
    hide BlocksOk, Apart, SlabOk, ListsOk, Accounted, Gives, SbrkAmount, Carved, Large, SbrkResult, BucketSize;
    if b >= 0 {
      OkIsPoppable(s, b);
      if s.buckets[b] != 0 {
        PoppedKeeps(s, b);
        PopGives(s, b, size);
      } else if BucketSize(b) + MALLOC_HDR <= 0x7fff_ffff {
        CarvedGives(s, b, p, size);
        LargeGives(s, b, p, size);
      }
    }
  }

  /** There is no block for a request: it is too large for any bucket, or its bucket has no free
      block and the kernel cannot be asked, or is asked and refuses. */
  predicate OutOfMemory(s: State, size: nat, p: u64)
    requires |s.buckets| == BUCKETS
  {
    var b := BucketFor(size);
    || size > 0x8_0000_0000
    || (b >= 0 && s.buckets[b] == 0 &&
        var total := BucketSize(b) + MALLOC_HDR;
        || total > 0x7fff_ffff
        || (SbrkFails(p) && (total > 0x10_0000 || SlabTooSmall(s.cur, s.end, total))))
  }

  /** When `malloc` returns null. */
  lemma MallocNullIff(s: State, size: nat, p: u64)
    requires Ok(s) && KernelGrants(s, size, p)
    ensures MallocStep(s, size, p).1 == 0 <==> OutOfMemory(s, size, p)
  {
    LargestBucket(size);
  }

  /** What is asked of the kernel: the least whole number of pages that holds the block, or
      64 KiB if that is more and the block is to come from a slab. */
  lemma SbrkAmountIs(total: nat)
    requires total <= 0x7fff_ffff
    ensures var least := if total <= 0x10_0000 then Max(total, 0x1_0000) else total;
            SbrkAmount(total) % 4096 == 0 && least <= SbrkAmount(total) < least + 4096
  {
    if total <= 0x10_0000 {
      PageRound(Max(total, 0x1_0000) + 0xfff, 64);
    } else {
      PageRound(total + 0xfff, 32);
    }
  }

  /** A word with its low twelve bits cleared is rounded down to a page. */
  lemma PageRound(x: nat, w: nat)
    requires (w == 32 && x < 0x1_0000_0000) || (w == 64 && x < 0x1_0000_0000_0000_0000)
    ensures BitAnd(x, if w == 32 then 0xFFFF_F000 else 0xFFFF_FFFF_FFFF_F000) == x - x % 4096
    ensures (x - x % 4096) % 4096 == 0
  {
    hide BitAnd, Pow2;
    Pow2Of16();
    if w == 32 { Pow2Of32(); } else { Pow2Of64(); }
    AndRoundsDown(x, 12, w);
    DivModUnique(x - x % 4096, 4096, x / 4096, 0);
  }

  /** Where a block that is on no free list comes from: the front of the slab while that is large
      enough, and only then the kernel; a fresh region is the new slab for a small block and the
      block's own for a large one. */
  lemma MallocPlaces(s: State, size: nat, p: u64)
    requires Ok(s) && KernelGrants(s, size, p) && !OutOfMemory(s, size, p)
    requires BucketFor(size) >= 0 && s.buckets[BucketFor(size)] == 0
    ensures var total := BucketSize(BucketFor(size)) + MALLOC_HDR;
            var (s', r) := MallocStep(s, size, p);
            var amount := SbrkAmount(total);
            && (total <= 0x10_0000 && !SlabTooSmall(s.cur, s.end, total) ==>
                  r == s.cur + MALLOC_HDR && s'.cur == s.cur + total && s'.end == s.end && s'.granted == s.granted)
            && (total <= 0x10_0000 && SlabTooSmall(s.cur, s.end, total) ==>
                  && r == p + MALLOC_HDR && s'.cur == p + total && s'.end == p + amount
                  && s'.granted == s.granted + Region(p, amount))
            && (total > 0x10_0000 ==>
                  && r == p + MALLOC_HDR && s'.cur == s.cur && s'.end == s.end
                  && s'.granted == s.granted + Region(p, amount))
  {
    hide Ok, BucketSize, BucketFor, SbrkAmount, SlabTooSmall, Fresh, Region;
    var total := BucketSize(BucketFor(size)) + MALLOC_HDR;
    MallocIsTake(s, size, p);
    LargestBucket(size);
    if !SlabTooSmall(s.cur, s.end, total) {
      TailFits(s, total);
    }
    SbrkAmountFits(total);
  }

  lemma TailFits(s: State, total: nat)
    requires Ok(s) && total >= 16 && !SlabTooSmall(s.cur, s.end, total)
    ensures s.cur + total < TWO_63
  {
    RoomInTail(s.mem, s.granted, s.cur, s.end, total);
  }

  /** A freed block is the first to be used again: the next request for its bucket gets it back,
      and with it the live set is as it was. */
  lemma FreeThenMalloc(s: State, ptr: nat, size: nat, p: u64)
    requires Ok(s) && KnownPointer(s, ptr) && ptr != 0 && ptr - MALLOC_HDR in LiveBlocks(s.mem)
    requires BucketFor(size) == s.mem[ptr - MALLOC_HDR].bucket
    ensures Ok(FreeStep(s, ptr))
    ensures var (s', r) := MallocStep(FreeStep(s, ptr), size, p);
            && r == ptr && LiveBlocks(s'.mem) == LiveBlocks(s.mem)
            && s'.buckets == s.buckets && s'.granted == s.granted && s'.cur == s.cur && s'.end == s.end
  {
    hide BucketFor, BlocksOk, Apart, SlabOk, Accounted, ChainOk;
    AllWellFormed(s);
    assert WellFormed(ptr - MALLOC_HDR, s.mem[ptr - MALLOC_HDR]);
    FreeKeeps(s, ptr);
    MallocIsTake(FreeStep(s, ptr), size, p);
    FreedThenPopped(s, ptr - MALLOC_HDR);
  }

  lemma FreedThenPopped(s: State, h: nat)
    requires h in LiveBlocks(s.mem) && 0 <= s.mem[h].bucket < |s.buckets| == |s.free|
    ensures var s' := Popped(Freed(s, h), s.mem[h].bucket);
            LiveBlocks(s'.mem) == LiveBlocks(s.mem) && s'.buckets == s.buckets && s'.free == s.free
  {
  }

  lemma LargestBucket(size: nat)
    ensures BucketFor(size) == -1 <==> size > 0x8_0000_0000
  {
    assert BucketSize(BUCKETS - 1) == 0x8_0000_0000 by { Pow2Of32(); assert Pow2(32) == 2 * Pow2(31); }
    var b := BucketFor(size);
    if b >= 0 { Pow2Monotone(b, BUCKETS - 1); }
    Pow2Monotone(0, BUCKETS - 1);
  }

  /** The capacity is less than twice the request, or the 16-byte minimum. */
  lemma MallocIsTight(size: nat)
    requires BucketFor(size) >= 0
    ensures BucketSize(BucketFor(size)) == 16 || BucketSize(BucketFor(size)) < 2 * size
  {
    var b := BucketFor(size);
    if b > 0 { assert BucketSize(b - 1) < Max(size, 16); Pow2Monotone(0, b - 1); }
  }

  /** After a failed refill the room test passes by wrapping around, and the next small
      block gets its header at the address sbrk returned to say it failed. */
  lemma AfterFailedRefill(s: State, size: nat, p: u64, b: nat)
    requires Ok(s) && KernelGrants(s, size, p)
    requires RefillFails(s, size, p) && s.end >= 0x10_0000
    requires b < BUCKETS && BucketSize(b) + MALLOC_HDR <= 0x10_0000
    ensures var broken := MallocStep(s, size, p).0;
            && !Ok(broken)
            && !SlabTooSmall(broken.cur, broken.end, BucketSize(b) + MALLOC_HDR)
            && p in Carved(broken, b, p).0.mem
  {
    hide Ok, BucketSize, BucketFor, SbrkAmount, KernelGrants, MallocStep;
    MallocKeepsIff(s, size, p);
    MallocIsTake(s, size, p);
    assert MallocStep(s, size, p).0 == s.(cur := p);
    EndBelow(s);
  }

  lemma EndBelow(s: State)
    requires Ok(s)
    ensures s.end < TWO_63
  {
  }

  const EMPTY: State := State(map[], map[], seq(BUCKETS, _ => 0), seq(BUCKETS, _ => []), 0, 0, iset{})

  lemma BucketIs(size: nat, b: nat)
    requires 0 < b < BUCKETS && BucketSize(b - 1) < size <= BucketSize(b) && size >= 16
    ensures BucketFor(size) == b
  {
    var r := BucketFor(size);
    if 0 <= r < b { Pow2Monotone(r, b - 1); }
  }

  /** Such a run: the first block of 64 KiB brings a slab, the next request needs more than
      is left of it, and the kernel has no more to give. */
  lemma RefillFailsInTwoCalls()
    ensures Ok(EMPTY) && Allowed(EMPTY, Malloc(0x1_0000, 0xA00_0010))
    ensures var s := Next(EMPTY, Malloc(0x1_0000, 0xA00_0010));
            && Ok(s) && KernelGrants(s, 0x2000, SBRK_FAILED) && s.end >= 0x10_0000
            && RefillFails(s, 0x2000, SBRK_FAILED) && !Ok(MallocStep(s, 0x2000, SBRK_FAILED).0)
  {
    hide Ok, BucketFor, Pow2, BitAnd, Fresh, Region, SbrkAmount;
    EmptyIsOk();
    SmallBuckets();
    var first := Malloc(0x1_0000, 0xA00_0010);
    FirstSlab();
    assert KernelGrants(EMPTY, 0x1_0000, 0xA00_0010);
    NextKeeps(EMPTY, first);
    MallocIsTake(EMPTY, 0x1_0000, 0xA00_0010);
    var s := Next(EMPTY, first);
    assert s.buckets == EMPTY.buckets && s.cur == 0xA01_0030 && s.end == 0xA01_1010;
    MallocKeepsIff(s, 0x2000, SBRK_FAILED);
  }

  lemma EmptyIsOk()
    ensures Ok(EMPTY)
  {
  }

  lemma SmallBuckets()
    ensures BucketFor(0x1_0000) == 12 && BucketSize(12) == 0x1_0000
    ensures BucketFor(0x2000) == 9 && BucketSize(9) == 0x2000
  {
    Pow2Of16();
    assert Pow2(12) == 2 * Pow2(11) && Pow2(9) == 2 * Pow2(8);
    BucketIs(0x1_0000, 12);
    BucketIs(0x2000, 9);
  }

  lemma FirstSlab()
    ensures SbrkAmount(0x1_0020) == 0x1_1000 && Fresh(0xA00_0010, 0x1_1000, iset{})
  {
    Pow2Of16();
    Pow2Of64();
    AndRoundsDown(0x1_101f, 12, 64);
  }

  // ---- realloc ----

  function Read(bytes: map<nat, int>, a: nat): int { if a in bytes then bytes[a] else 0 }

  /** `memcpy` between payloads. */
  function Copied(bytes: map<nat, int>, dst: nat, src: nat, n: nat): map<nat, int> {
    bytes + map a | dst <= a < dst + n && InRegion(a, dst, n) :: Read(bytes, a - dst + src)
  }

  /** A block that was there before `malloc` succeeded is there, and unchanged, after. */
  lemma MallocKeepsOthers(s: State, size: nat, p: u64, h: nat)
    requires Ok(s) && KernelGrants(s, size, p) && h in LiveBlocks(s.mem)
    ensures var (s1, r) := MallocStep(s, size, p);
            && h in s1.mem && s1.mem[h] == s.mem[h] && h in LiveBlocks(s1.mem)
            && (r != 0 ==> Ok(s1) && r != h + MALLOC_HDR)
  {
    MallocGives(s, size, p);
    MallocKeepsIff(s, size, p);
    MallocNullIff(s, size, p);
  }

  /** The case in which `realloc` calls `malloc`. */
  predicate Grows(s: State, ptr: nat, size: nat)
    requires KnownPointer(s, ptr)
  {
    ptr == 0 || (ptr - MALLOC_HDR in LiveBlocks(s.mem) && size > s.mem[ptr - MALLOC_HDR].size)
  }

  /** Growing a live block: allocate, copy the old capacity, free. */
  ghost function GrowStep(s: State, ptr: nat, size: nat, p: u64): (State, nat)
    requires Ok(s) && KnownPointer(s, ptr) && KernelGrants(s, size, p) && ptr != 0 && Grows(s, ptr, size)
  {
    MallocKeepsOthers(s, size, p, ptr - MALLOC_HDR);
    var (s1, r) := MallocStep(s, size, p);
    if r == 0 then (s1, 0)
    else (FreeStep(s1.(bytes := Copied(s1.bytes, r, ptr, s.mem[ptr - MALLOC_HDR].size)), ptr), r)
  }

  /** `realloc`. A pointer whose header does not carry the magic word is refused. */
  ghost function ReallocStep(s: State, ptr: nat, size: nat, p: u64): (State, nat)
    requires Ok(s) && KnownPointer(s, ptr) && KernelGrants(s, size, p)
  {
    if ptr == 0 then MallocStep(s, size, p)
    else
      var hdr := s.mem[ptr - MALLOC_HDR];
      if hdr.bucket < 0 || hdr.bucket >= BUCKETS || hdr.magic != MALLOC_MAGIC then (s, 0)
      else if size == 0 then (FreeStep(s, ptr), 0)
      else if size <= hdr.size then (s, ptr)
      else GrowStep(s, ptr, size, p)
  }

  /** Soundness after `realloc`, under the same exact condition as for `malloc`. */
  lemma ReallocKeepsIff(s: State, ptr: nat, size: nat, p: u64)
    requires Ok(s) && KnownPointer(s, ptr) && KernelGrants(s, size, p)
    ensures Ok(ReallocStep(s, ptr, size, p).0) <==>
              !(Grows(s, ptr, size) && RefillFails(s, size, p) && s.end != 0)
  {
    hide BlocksOk, Apart, SlabOk, Accounted, MallocStep, Copied, RefillFails, KernelGrants, ChainOk;
    MallocKeepsIff(s, size, p);
    AllWellFormed(s);
    if ptr != 0 {
      FreeKeeps(s, ptr);
      if Grows(s, ptr, size) {
        MallocKeepsOthers(s, size, p, ptr - MALLOC_HDR);
        var (s1, r) := MallocStep(s, size, p);
        if r != 0 { CopyThenFreeKeeps(s1, r, ptr); }
      }
    }
  }

  lemma SameBytesIrrelevant(s: State, bytes: map<nat, int>)
    requires Ok(s)
    ensures Ok(s.(bytes := bytes))
  {
  }

  lemma CopyThenFreeKeeps(s: State, r: nat, ptr: nat)
    requires Ok(s) && ptr >= MALLOC_HDR && ptr - MALLOC_HDR in s.mem
    ensures Ok(FreeStep(s.(bytes := Copied(s.bytes, r, ptr, s.mem[ptr - MALLOC_HDR].size)), ptr))
  {
    FreeKeeps(s.(bytes := Copied(s.bytes, r, ptr, s.mem[ptr - MALLOC_HDR].size)), ptr);
  }

  /** What `realloc` gives back: null after freeing, after refusing, or when it cannot
      grow, and then the old block is still live and no byte has changed; or a block
      that holds the request and starts with every byte of the old capacity, the old
      block being freed if it is another one. */
  lemma ReallocGives(s: State, ptr: nat, size: nat, p: u64)
    requires Ok(s) && KnownPointer(s, ptr) && KernelGrants(s, size, p) && ptr != 0
    ensures var (s', r) := ReallocStep(s, ptr, size, p);
            var h := ptr - MALLOC_HDR;
            && (r == 0 ==> s'.bytes == s.bytes)
            && (r == 0 && size > 0 ==> s'.mem == s.mem)
            && (r != 0 ==>
                  && h in LiveBlocks(s.mem) && size > 0
                  && r >= MALLOC_HDR && r - MALLOC_HDR in s'.mem && size <= s'.mem[r - MALLOC_HDR].size
                  && LiveBlocks(s'.mem) == LiveBlocks(s.mem) - {h} + {r - MALLOC_HDR})
  {
    hide BlocksOk, Apart, SlabOk, Accounted, MallocStep, Copied, RefillFails, KernelGrants, ChainOk;
    var h := ptr - MALLOC_HDR;
    if Grows(s, ptr, size) {
      MallocKeepsOthers(s, size, p, h);
      MallocGives(s, size, p);
      var (s1, r) := MallocStep(s, size, p);
      if r != 0 {
        AllWellFormed(s1);
        FreeTakesOne(s1.(bytes := Copied(s1.bytes, r, ptr, s.mem[h].size)), ptr);
      }
    }
  }

  lemma AllWellFormed(s: State)
    requires Ok(s)
    ensures forall h :: h in s.mem ==> WellFormed(h, s.mem[h])
  {
  }

  /** Exactly when `realloc` of a block gives null: the block is not live, is to be freed, or is
      to grow and there is no memory. A request it already holds leaves everything as it is, and
      one for nothing frees it. */
  lemma ReallocNullIff(s: State, ptr: nat, size: nat, p: u64)
    requires Ok(s) && KnownPointer(s, ptr) && KernelGrants(s, size, p) && ptr != 0
    ensures var (s', r) := ReallocStep(s, ptr, size, p);
            var h := ptr - MALLOC_HDR;
            var live, cap := h in LiveBlocks(s.mem), s.mem[h].size;
            && (r == 0 <==> !live || size == 0 || (size > cap && OutOfMemory(s, size, p)))
            && (!live ==> s' == s)
            && (live && 0 < size <= cap ==> r == ptr && s' == s)
            && (live && size == 0 ==> LiveBlocks(s'.mem) == LiveBlocks(s.mem) - {h})
            && (live && size > cap && r != 0 ==> r - MALLOC_HDR !in LiveBlocks(s.mem))
  {
    hide BlocksOk, Apart, SlabOk, Accounted, MallocStep, Copied, KernelGrants, ChainOk, OutOfMemory;
    var h := ptr - MALLOC_HDR;
    AllWellFormed(s);
    MallocNullIff(s, size, p);
    if size == 0 {
      FreeTakesOne(s, ptr);
    } else if Grows(s, ptr, size) {
      MallocGives(s, size, p);
    }
  }

  /** Without a block it is `malloc`. */
  lemma ReallocOfNull(s: State, size: nat, p: u64)
    requires Ok(s) && KernelGrants(s, size, p)
    ensures ReallocStep(s, 0, size, p) == MallocStep(s, size, p)
  {
    hide Ok, MallocStep;
  }

  /** Every byte of the old capacity survives `realloc`, and so does every byte that is
      not in the block it returns. */
  lemma ReallocCopies(s: State, ptr: nat, size: nat, p: u64, a: nat)
    requires Ok(s) && KnownPointer(s, ptr) && KernelGrants(s, size, p) && ptr != 0
    ensures var (s', r) := ReallocStep(s, ptr, size, p);
            var was := s.mem[ptr - MALLOC_HDR].size;
            && (r != 0 && a < was ==> Read(s'.bytes, r + a) == Read(s.bytes, ptr + a))
            && (!InRegion(a, r, was) ==> Read(s'.bytes, a) == Read(s.bytes, a))
  {
    hide BlocksOk, Apart, SlabOk, Accounted, MallocStep, RefillFails, KernelGrants, ChainOk;
    if Grows(s, ptr, size) {
      MallocKeepsOthers(s, size, p, ptr - MALLOC_HDR);
      MallocGives(s, size, p);
      var r := MallocStep(s, size, p).1;
      if a < s.mem[ptr - MALLOC_HDR].size { assert InRegion(r + a, r, s.mem[ptr - MALLOC_HDR].size); }
    }
  }

  // ---- Whole runs ----

  /** What a program can do to its heap. The sbrk results are the kernel's answers. */
  datatype Call =
    | Malloc(size: nat, sbrk: u64)
    | Free(ptr: nat)
    | Realloc(ptr: nat, size: nat, sbrk: u64)
    | Store(block: nat, offset: nat, value: int)

  /** A program passes pointers it was given and stores inside live payloads; the kernel
      answers as promised and refuses no slab refill once there is a slab. */
  ghost predicate Allowed(s: State, c: Call)
    requires Ok(s)
  {
    match c
    case Malloc(size, p) => KernelGrants(s, size, p) && !(RefillFails(s, size, p) && s.end != 0)
    case Free(ptr) => KnownPointer(s, ptr)
    case Realloc(ptr, size, p) =>
      && KnownPointer(s, ptr) && KernelGrants(s, size, p)
      && !(Grows(s, ptr, size) && RefillFails(s, size, p) && s.end != 0)
    case Store(h, offset, _) => h in LiveBlocks(s.mem) && offset < s.mem[h].size
  }

  ghost function Next(s: State, c: Call): State
    requires Ok(s) && Allowed(s, c)
  {
    match c
    case Malloc(size, p) => MallocStep(s, size, p).0
    case Free(ptr) => FreeStep(s, ptr)
    case Realloc(ptr, size, p) => ReallocStep(s, ptr, size, p).0
    case Store(h, offset, v) => s.(bytes := s.bytes[h + MALLOC_HDR + offset := v])
  }

  lemma NextKeeps(s: State, c: Call)
    requires Ok(s) && Allowed(s, c)
    ensures Ok(Next(s, c))
  {
    hide BlocksOk, Apart, SlabOk, Accounted, MallocStep, ReallocStep, RefillFails, KernelGrants, ChainOk, Grows;
    match c
    case Malloc(size, p) => MallocKeepsIff(s, size, p);
    case Free(ptr) => FreeKeeps(s, ptr);
    case Realloc(ptr, size, p) => ReallocKeepsIff(s, ptr, size, p);
    case Store(_, _, _) =>
  }

  ghost predicate AllowedRun(s: State, calls: seq<Call>)
    requires Ok(s)
    decreases |calls|
  {
    calls == [] ||
    (Allowed(s, calls[0]) && (NextKeeps(s, calls[0]); AllowedRun(Next(s, calls[0]), calls[1..])))
  }

  /** The heap after a run; every state on the way is sound. */
  ghost function Run(s: State, calls: seq<Call>): (s': State)
    requires Ok(s) && AllowedRun(s, calls)
    ensures Ok(s')
    decreases |calls|
  {
    if calls == [] then s
    else
      NextKeeps(s, calls[0]);
      Run(Next(s, calls[0]), calls[1..])
  }

  /** The call frees, moves or writes block `h`. */
  predicate Touches(c: Call, h: nat) {
    match c
    case Malloc(_, _) => false
    case Free(ptr) => ptr == h + MALLOC_HDR
    case Realloc(ptr, _, _) => ptr == h + MALLOC_HDR
    case Store(g, _, _) => g == h
  }

  /** Block `h` and every byte of its payload are the same in both states. */
  ghost predicate Intact(s: State, s': State, h: nat) {
    && h in LiveBlocks(s.mem) && h in LiveBlocks(s'.mem) && s'.mem[h] == s.mem[h]
    && forall a :: InRegion(a, h + MALLOC_HDR, s.mem[h].size) ==> Read(s'.bytes, a) == Read(s.bytes, a)
  }

  lemma StoreElsewhere(s: State, c: Call, h: nat)
    requires Ok(s) && Allowed(s, c) && c.Store? && h in LiveBlocks(s.mem) && c.block != h
    ensures Intact(s, Next(s, c), h)
  {
    PayloadsAreSafe(s.mem, s.granted, c.block, h);
  }

  lemma IntactTrans(s: State, s1: State, s2: State, h: nat)
    requires Intact(s, s1, h) && Intact(s1, s2, h)
    ensures Intact(s, s2, h)
  {
  }

  lemma MallocElsewhere(s: State, size: nat, p: u64, h: nat)
    requires Ok(s) && KernelGrants(s, size, p) && h in LiveBlocks(s.mem)
    ensures Intact(s, MallocStep(s, size, p).0, h)
  {
    hide BlocksOk, Apart, SlabOk, ListsOk, Accounted, MallocStep, KernelGrants;
    MallocKeepsOthers(s, size, p, h);
    MallocGives(s, size, p);
  }

  lemma FreeElsewhere(s: State, ptr: nat, h: nat)
    requires Ok(s) && KnownPointer(s, ptr) && h in LiveBlocks(s.mem) && ptr != h + MALLOC_HDR
    ensures Intact(s, FreeStep(s, ptr), h)
  {
    AllWellFormed(s);
    hide BlocksOk, Apart, SlabOk, Accounted;
    FreeTakesOne(s, ptr);
  }

  /** Copying into one payload and freeing another block leaves a third alone. */
  lemma MoveElsewhere(s: State, r: nat, ptr: nat, n: nat, h: nat)
    requires Ok(s) && h in LiveBlocks(s.mem)
    requires r >= MALLOC_HDR && r - MALLOC_HDR in s.mem && r != h + MALLOC_HDR && n <= s.mem[r - MALLOC_HDR].size
    requires ptr >= MALLOC_HDR && ptr - MALLOC_HDR in s.mem && ptr != h + MALLOC_HDR
    ensures Intact(s, FreeStep(s.(bytes := Copied(s.bytes, r, ptr, n)), ptr), h)
  {
    PayloadsAreSafe(s.mem, s.granted, r - MALLOC_HDR, h);
    PayloadsAreSafe(s.mem, s.granted, h, r - MALLOC_HDR);
    AllWellFormed(s);
    hide BlocksOk, Apart, SlabOk, Accounted;
    FreeTakesOne(s.(bytes := Copied(s.bytes, r, ptr, n)), ptr);
  }

  lemma ReallocElsewhere(s: State, ptr: nat, size: nat, p: u64, h: nat)
    requires Ok(s) && KnownPointer(s, ptr) && KernelGrants(s, size, p)
    requires h in LiveBlocks(s.mem) && ptr != h + MALLOC_HDR
    ensures Intact(s, ReallocStep(s, ptr, size, p).0, h)
  {
    hide BlocksOk, Apart, SlabOk, Accounted, MallocStep, KernelGrants, Copied, Gives;
    MallocElsewhere(s, size, p, h);
    if ptr != 0 {
      FreeElsewhere(s, ptr, h);
      if Grows(s, ptr, size) {
        var g := ptr - MALLOC_HDR;
        MallocKeepsOthers(s, size, p, g);
        MallocKeepsOthers(s, size, p, h);
        MallocNewBlock(s, size, p);
        var (s1, r) := MallocStep(s, size, p);
        if r != 0 {
          MoveElsewhere(s1, r, ptr, s.mem[g].size, h);
          IntactTrans(s, s1, FreeStep(s1.(bytes := Copied(s1.bytes, r, ptr, s.mem[g].size)), ptr), h);
        }
      }
    }
  }

  lemma MallocNewBlock(s: State, size: nat, p: u64)
    requires Ok(s) && KernelGrants(s, size, p)
    ensures var (s1, r) := MallocStep(s, size, p);
            r != 0 ==> r >= MALLOC_HDR && r - MALLOC_HDR in s1.mem && size <= s1.mem[r - MALLOC_HDR].size
  {
    hide BlocksOk, Apart, SlabOk, ListsOk, Accounted, MallocStep, KernelGrants;
    MallocGives(s, size, p);
  }

  lemma CallElsewhere(s: State, c: Call, h: nat)
    requires Ok(s) && Allowed(s, c) && h in LiveBlocks(s.mem) && !Touches(c, h)
    ensures Intact(s, Next(s, c), h)
  {
    match c
    case Malloc(size, p) => MallocElsewhere(s, size, p, h);
    case Free(ptr) => FreeElsewhere(s, ptr, h);
    case Realloc(ptr, size, p) => ReallocElsewhere(s, ptr, size, p, h);
    case Store(_, _, _) => StoreElsewhere(s, c, h);
  }

  /** Over any run, a live block that the program neither frees, moves nor writes stays
      live and keeps every byte of its payload. */
  lemma {:induction false} RunElsewhere(s: State, calls: seq<Call>, h: nat)
    requires Ok(s) && AllowedRun(s, calls) && h in LiveBlocks(s.mem)
    requires forall c :: c in calls ==> !Touches(c, h)
    ensures Intact(s, Run(s, calls), h)
    decreases |calls|
  {
    if calls != [] {
      var s1 := Next(s, calls[0]);
      NextKeeps(s, calls[0]);
      hide Ok, Allowed, Next, Intact;
      CallElsewhere(s, calls[0], h);
      IntactLive(s, s1, h);
      RunElsewhere(s1, calls[1..], h);
      IntactTrans(s, s1, Run(s1, calls[1..]), h);
    }
  }

  /** What a program stores in a block it finds there again, whatever it does in between with any
      other blocks. */
  lemma StoredIsKept(s: State, h: nat, offset: nat, v: int, calls: seq<Call>)
    requires Ok(s) && AllowedRun(s, [Store(h, offset, v)] + calls)
    requires forall c :: c in calls ==> !Touches(c, h)
    ensures var s' := Run(s, [Store(h, offset, v)] + calls);
            && h in LiveBlocks(s'.mem) && s'.mem[h] == s.mem[h]
            && h + 32 + offset in s'.bytes && s'.bytes[h + 32 + offset] == v
  {
    hide Ok, AllowedRun, Run;
    var c := Store(h, offset, v);
    RunFirst(s, c, calls);
    var s1 := Next(s, c);
    RunElsewhere(s1, calls, h);
    var a := h + MALLOC_HDR + offset;
    assert InRegion(a, h + MALLOC_HDR, s1.mem[h].size);
    assert Read(Run(s1, calls).bytes, a) == Read(s1.bytes, a) == v;
    BytesStay(s1, calls, a);
  }

  lemma RunFirst(s: State, c: Call, calls: seq<Call>)
    requires Ok(s) && AllowedRun(s, [c] + calls)
    ensures Allowed(s, c) && Ok(Next(s, c)) && AllowedRun(Next(s, c), calls)
    ensures Run(s, [c] + calls) == Run(Next(s, c), calls)
  {
    hide Ok, Allowed, Next;
    var all := [c] + calls;
    assert all[0] == c && all[1..] == calls;
    NextKeeps(s, c);
  }

  /** Nothing that was ever stored is forgotten altogether. */
  lemma {:induction false} BytesStay(s: State, calls: seq<Call>, a: nat)
    requires Ok(s) && AllowedRun(s, calls) && a in s.bytes
    ensures a in Run(s, calls).bytes
    decreases |calls|
  {
    hide Ok, Allowed, MallocStep;
    if calls != [] {
      NextKeeps(s, calls[0]);
      ByteStays(s, calls[0], a);
      BytesStay(Next(s, calls[0]), calls[1..], a);
    }
  }

  lemma ByteStays(s: State, c: Call, a: nat)
    requires Ok(s) && Allowed(s, c) && a in s.bytes
    ensures a in Next(s, c).bytes
  {
    hide BlocksOk, Apart, SlabOk, Accounted, ChainOk, MallocStep, KernelGrants, RefillFails;
    match c
    case Malloc(size, p) => MallocGives(s, size, p);
    case Free(ptr) =>
    case Realloc(ptr, size, p) => MallocGives(s, size, p);
    case Store(_, _, _) =>
  }

  lemma IntactLive(s: State, s': State, h: nat)
    requires Intact(s, s', h)
    ensures h in LiveBlocks(s'.mem)
  {
  }

  // ---- The code ----

  class Allocator {
    var mem: Memory
    var bytes: map<nat, int>
    var buckets: seq<nat>
    var bucket2size: seq<nat>
    var slabCur: u64
    var slabEnd: u64
    ghost var free: seq<seq<nat>>
    ghost var granted: iset<nat>

    ghost function Heap(): State
      reads this`mem, this`bytes, this`buckets, this`free, this`slabCur, this`slabEnd, this`granted
    {
      State(mem, bytes, buckets, free, slabCur, slabEnd, granted)
    }

    ghost predicate TableReady()
      reads this`bucket2size
    {
      |bucket2size| == BUCKETS && forall b :: 0 <= b < BUCKETS ==> bucket2size[b] == BucketSize(b)
    }

    ghost predicate TableOk()
      reads this`bucket2size
    {
      |bucket2size| == BUCKETS && (bucket2size[0] == 0 || TableReady())
    }

    ghost predicate Valid()
      reads this
    {
      Ok(Heap()) && TableOk()
    }

    constructor ()
      ensures Valid() && mem == map[] && granted == iset{}
    {
      mem, bytes := map[], map[];
      buckets := seq(BUCKETS, _ => 0);
      bucket2size := seq(BUCKETS, _ => 0);
      slabCur, slabEnd := 0, 0;
      free := seq(BUCKETS, _ => []);
      granted := iset{};
    }

    /** `init_buckets` */
    method InitBuckets()
      requires |bucket2size| == BUCKETS
      modifies this`bucket2size
      ensures TableReady()
    {
      bucket2size := bucket2size[0 := 16];
      for b := 1 to BUCKETS
        invariant |bucket2size| == BUCKETS
        invariant forall c :: 0 <= c < b ==> bucket2size[c] == BucketSize(c)
      {
        bucket2size := bucket2size[b := bucket2size[b - 1] * 2];
      }
    }

    /** `size2bucket` */
    method Size2Bucket(size: nat) returns (b: int)
      requires TableReady()
      ensures b == BucketFor(size)
    {
      var want := Max(size, 16);
      b := 0;
      while b < BUCKETS
        invariant 0 <= b <= BUCKETS
        invariant BucketFor(size) == BucketFrom(want, b)
      {
        if bucket2size[b] >= want {
          return;
        }
        b := b + 1;
      }
      b := -1;
    }

    method FreeBlock(ptr: nat)
      requires Valid() && KnownPointer(Heap(), ptr)
      modifies this`mem, this`buckets, this`free
      ensures Valid() && Heap() == FreeStep(old(Heap()), ptr)
    {
      hide BlocksOk, Apart, SlabOk, Accounted, ChainOk;
      FreeKeeps(Heap(), ptr);
      if ptr != 0 {
        var h := ptr - MALLOC_HDR;
        var b := mem[h].bucket;
        if !(b < 0 || b >= BUCKETS || mem[h].magic != MALLOC_MAGIC) {
          mem := mem[h := mem[h].(magic := 0)];
          mem := mem[h := mem[h].(next := buckets[b])];
          buckets := buckets[b := h];
          free := free[b := [h] + free[b]];
        }
      }
      assert Heap() == FreeStep(old(Heap()), ptr);
    }

    /** The free-list path of `malloc`: lines 995-1005. */
    method Pop(b: nat) returns (r: nat)
      requires b < |buckets| == |free| && buckets[b] in mem && free[b] != []
      requires mem[buckets[b]].bucket == b
      modifies this`mem, this`buckets, this`free
      ensures Heap() == old(Popped(Heap(), b)) && r == old(buckets[b]) + MALLOC_HDR
    {
      var h := buckets[b];
      buckets := buckets[b := mem[h].next];
      if mem[h].bucket != b {
        assert false;
      }
      mem := mem[h := mem[h].(magic := MALLOC_MAGIC)];
      mem := mem[h := mem[h].(next := 0)];
      free := free[b := free[b][1..]];
      r := h + MALLOC_HDR;
    }

    /** The slab path of `malloc`: lines 1010-1037. `p` is what sbrk returns. */
    method Carve(b: nat, p: u64) returns (r: nat)
      requires b < BUCKETS && TableReady() && BucketSize(b) + MALLOC_HDR <= 0x10_0000
      modifies this`mem, this`slabCur, this`slabEnd, this`granted
      ensures (Heap(), r) == old(Carved(Heap(), b, p))
    {
      var size := bucket2size[b] + MALLOC_HDR;
      if (slabEnd - slabCur) % 0x1_0000_0000_0000_0000 < size {
        var slab := if size > 0x1_0000 then size else 0x1_0000;
        slab := BitAnd(slab + 0xfff, 0xFFFF_FFFF_FFFF_F000);
        slabCur := p;
        if slabCur == 0 || slabCur == 0xFFFF_FFFF_FFFF_FFFF {
          return 0;
        }
        slabEnd := (slabCur + slab) % 0x1_0000_0000_0000_0000;
        granted := granted + Region(p, slab);
      }
      r := slabCur;
      slabCur := (slabCur + size) % 0x1_0000_0000_0000_0000;
      mem := mem[r := Header(b, MALLOC_MAGIC, bucket2size[b], 0)];
      r := r + MALLOC_HDR;
    }

    /** `malloc` once the bucket is known: lines 995-1037. */
    method TakeBlock(b: nat, p: u64) returns (r: nat)
      requires Poppable(Heap(), b) && TableReady()
      modifies this`mem, this`buckets, this`slabCur, this`slabEnd, this`free, this`granted
      ensures (Heap(), r) == old(Taken(Heap(), b, p))
    {
      hide Carved, Large, Popped;
      if buckets[b] != 0 {
        r := Pop(b);
      } else {
        var total := bucket2size[b] + MALLOC_HDR;
        if total > 0x7fff_ffff {
          r := 0;
        } else if total <= 0x10_0000 {
          r := Carve(b, p);
        } else {
          r := OwnRegion(b, p);
        }
      }
    }

    /** `malloc`. `p` is what sbrk returns if it is called. */
    method MallocBlock(size: nat, p: u64) returns (r: nat)
      requires Valid() && KernelGrants(Heap(), size, p)
      modifies this`mem, this`buckets, this`bucket2size, this`slabCur, this`slabEnd, this`free, this`granted
      ensures (Heap(), r) == MallocStep(old(Heap()), size, p)
      ensures TableOk()
      ensures Valid() <==> !old(RefillFails(Heap(), size, p) && slabEnd != 0)
    {
      hide Ok, KernelGrants, Taken, RefillFails, Poppable, BucketSize, MallocStep, BucketFor;
      ghost var s := Heap();
      MallocKeepsIff(s, size, p);
      MallocIsTake(s, size, p);
      if bucket2size[0] == 0 {
        InitBuckets();
      }
      var b := Size2Bucket(size);
      if b < 0 {
        r := 0;
      } else {
        r := TakeBlock(b, p);
      }
    }

    /** The large-block path of `malloc`: lines 1022-1037. */
    method OwnRegion(b: nat, p: u64) returns (r: nat)
      requires b < BUCKETS && TableReady() && 0x10_0000 < BucketSize(b) + MALLOC_HDR <= 0x7fff_ffff
      modifies this`mem, this`granted
      ensures (Heap(), r) == old(Large(Heap(), b, p))
    {
      var size := BitAnd(bucket2size[b] + MALLOC_HDR + 0xfff, 0xFFFF_F000);
      r := p;
      if r == 0 || r == 0xFFFF_FFFF_FFFF_FFFF {
        return 0;
      }
      granted := granted + Region(p, size);
      mem := mem[r := Header(b, MALLOC_MAGIC, bucket2size[b], 0)];
      r := r + MALLOC_HDR;
    }

    /** The end of `realloc`: lines 979-980. */
    method CopyAndFree(r: nat, ptr: nat, n: nat)
      requires Valid() && KnownPointer(Heap(), ptr)
      modifies this`mem, this`bytes, this`buckets, this`free
      ensures Valid()
      ensures Heap() == FreeStep(old(Heap()).(bytes := Copied(old(bytes), r, ptr, n)), ptr)
    {
      ghost var s := Heap();
      assert |buckets| == |free| == BUCKETS;
      hide Ok, Copied, FreeStep, TableOk;
      bytes := Copied(bytes, r, ptr, n);
      SameBytesIrrelevant(s, bytes);
      FreeBlock(ptr);
    }

    /** `realloc` of a live block to more than it holds: lines 976-981. */
    method MoveBlock(ptr: nat, size: nat, p: u64) returns (r: nat)
      requires Valid() && KernelGrants(Heap(), size, p)
      requires ptr != 0 && KnownPointer(Heap(), ptr) && Grows(Heap(), ptr, size)
      modifies this
      ensures (Heap(), r) == GrowStep(old(Heap()), ptr, size, p)
      ensures TableOk()
    {
      hide BlocksOk, Apart, SlabOk, ListsOk, Accounted, ChainOk, BucketFor, BucketSize, Copied, FreeStep, MallocStep,
           RefillFails, TableReady, KernelGrants;
      ghost var s := Heap();
      MallocKeepsOthers(s, size, p, ptr - MALLOC_HDR);
      hide Ok, KernelGrants, MallocStep, RefillFails, Copied, TableOk, TableReady, FreeStep, Grows;
      var oldsize := mem[ptr - MALLOC_HDR].size;
      r := MallocBlock(size, p);
      if r != 0 {
        CopyAndFree(r, ptr, oldsize);
      }
    }

    /** `realloc` */
    method ReallocBlock(ptr: nat, size: nat, p: u64) returns (r: nat)
      requires Valid() && KnownPointer(Heap(), ptr) && KernelGrants(Heap(), size, p)
      modifies this
      ensures (Heap(), r) == ReallocStep(old(Heap()), ptr, size, p)
      ensures Valid() <==> !old(Grows(Heap(), ptr, size) && RefillFails(Heap(), size, p) && slabEnd != 0)
    {
      ReallocKeepsIff(Heap(), ptr, size, p);
      hide BlocksOk, Apart, SlabOk, ListsOk, Accounted, ChainOk, KernelGrants, MallocStep, RefillFails, BucketSize, Copied, TableReady;
      if ptr == 0 {
        r := MallocBlock(size, p);
      } else {
        var hdr := mem[ptr - MALLOC_HDR];
        if hdr.bucket < 0 || hdr.bucket >= BUCKETS || hdr.magic != MALLOC_MAGIC {
          r := 0;
        } else if size == 0 {
          FreeBlock(ptr);
          r := 0;
        } else if size <= hdr.size {
          r := ptr;
        } else {
          r := MoveBlock(ptr, size, p);
        }
      }
    }
  }
}
