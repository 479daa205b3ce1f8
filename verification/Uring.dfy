/** The io_uring rings shared by the program and the kernel. `Ring` has counters that
    never wrap and remembers everything that went through it; the class below it is the
    code, with 32-bit counters, masks and an index array. */
module Uring {
  import opened Words

  datatype Option<T> = None | Some(value: T)

  /** A request; `rest` stands for the fields the rings do not look at. */
  datatype Sqe = Sqe(userData: u64, rest: int)
  datatype Cqe = Cqe(userData: u64, res: int)

  const BLANK := Sqe(0, 0)

  /** Entries [head, tail) are published, [tail, next) prepared but not yet published.
      The histories hold every entry ever prepared, consumed, posted and seen, in order. */
  datatype Ring = Ring(
    slotOf: seq<nat>, sqes: seq<Sqe>, cqes: seq<Cqe>,
    head: nat, tail: nat, next: nat, cqHead: nat, cqTail: nat,
    prepared: seq<Sqe>, consumed: seq<Sqe>, posted: seq<Cqe>, seen: seq<Cqe>,
    inflight: seq<u64>, dropped: seq<u64>)

  function Requests(s: seq<Sqe>): multiset<u64> {
    if s == [] then multiset{} else Requests(s[..|s| - 1]) + multiset{s[|s| - 1].userData}
  }

  function Answers(s: seq<Cqe>): multiset<u64> {
    if s == [] then multiset{} else Answers(s[..|s| - 1]) + multiset{s[|s| - 1].userData}
  }

  ghost predicate SlotsOk(r: Ring) {
    && |r.slotOf| > 0
    && (forall i :: 0 <= i < |r.slotOf| ==> r.slotOf[i] < |r.sqes|)
    && (forall i, j :: 0 <= i < j < |r.slotOf| ==> r.slotOf[i] != r.slotOf[j])
  }

  /** The submission side: what lies in the ring is what was prepared, in order, and
      what has left it is exactly the part that came before. */
  ghost predicate SubmissionOk(r: Ring)
    requires SlotsOk(r)
  {
    && r.head <= r.tail <= r.next <= r.head + |r.slotOf|
    && |r.prepared| == r.next && r.consumed == r.prepared[..r.head]
    && forall i :: r.head <= i < r.next ==> r.sqes[r.slotOf[i % |r.slotOf|]] == r.prepared[i]
  }

  /** The completion side, likewise. */
  ghost predicate CompletionOk(r: Ring) {
    && |r.cqes| > 0
    && r.cqHead <= r.cqTail <= r.cqHead + |r.cqes|
    && |r.posted| == r.cqTail && r.seen == r.posted[..r.cqHead]
    && forall i :: r.cqHead <= i < r.cqTail ==> r.cqes[i % |r.cqes|] == r.posted[i]
  }

  /** Every consumed request is answered, in flight, or counted as overflow: once. */
  ghost predicate Conserved(r: Ring) {
    Requests(r.consumed) == Answers(r.posted) + multiset(r.inflight) + multiset(r.dropped)
  }

  ghost predicate Inv(r: Ring) {
    SlotsOk(r) && SubmissionOk(r) && CompletionOk(r) && Conserved(r)
  }

  // ---- Arithmetic of slots ----

  /** Counters less than a lap apart use different slots. */
  lemma SlotsDiffer(i: nat, j: nat, n: nat)
    requires n > 0 && i < j < i + n
    ensures i % n != j % n
  {
    if i % n == j % n {
      var e := j / n - i / n;
      assert j - i == e * n by {
        assert i == n * (i / n) + i % n && j == n * (j / n) + j % n;
        MulDistributes(j / n, i / n, n);
      }
      if e >= 1 { MulMonotone(1, e, n); }
      if e <= 0 { MulMonotone(e, 0, n); }
    }
  }

  // ---- Steps of the program ----

  predicate HasRoom(r: Ring) { r.next < r.head + |r.slotOf| }

  /** `io_uring_get_sqe` when there is room: a cleared entry. */
  function Prepared(r: Ring): Ring
    requires |r.slotOf| > 0 && r.slotOf[r.next % |r.slotOf|] < |r.sqes|
  {
    r.(sqes := r.sqes[r.slotOf[r.next % |r.slotOf|] := BLANK],
       next := r.next + 1, prepared := r.prepared + [BLANK])
  }

  /** The slot handed out holds no entry that is prepared or pending. */
  lemma SlotIsFree(r: Ring, i: nat)
    requires Inv(r) && HasRoom(r) && r.head <= i < r.next
    ensures r.slotOf[i % |r.slotOf|] != r.slotOf[r.next % |r.slotOf|]
  {
    var n := |r.slotOf|;
    SlotsDiffer(i, r.next, n);
    var a, b := i % n, r.next % n;
    assert a < b || b < a;
  }

  lemma SlotIsFreeAll(r: Ring)
    requires Inv(r) && HasRoom(r)
    ensures forall i :: r.head <= i < r.next ==> r.slotOf[i % |r.slotOf|] != r.slotOf[r.next % |r.slotOf|]
  {
    hide Conserved, CompletionOk;
    forall i | r.head <= i < r.next
      ensures r.slotOf[i % |r.slotOf|] != r.slotOf[r.next % |r.slotOf|]
    {
      SlotIsFree(r, i);
    }
  }

  lemma PreparedKeeps(r: Ring)
    requires Inv(r) && HasRoom(r)
    ensures Inv(Prepared(r))
  {
    hide Requests, Answers;
    var r' := Prepared(r);
    forall i | r'.head <= i < r'.next
      ensures r'.sqes[r'.slotOf[i % |r'.slotOf|]] == r'.prepared[i]
    {
      if i < r.next { SlotIsFree(r, i); }
    }
    assert r'.consumed == r'.prepared[..r'.head];
  }

  /** The program fills in an entry it has not submitted yet. */
  function Filled(r: Ring, e: nat, sqe: Sqe): Ring
    requires |r.slotOf| > 0 && r.slotOf[e % |r.slotOf|] < |r.sqes| && e < |r.prepared|
  {
    r.(sqes := r.sqes[r.slotOf[e % |r.slotOf|] := sqe], prepared := r.prepared[e := sqe])
  }

  lemma FilledKeeps(r: Ring, e: nat, sqe: Sqe)
    requires Inv(r) && r.tail <= e < r.next
    ensures Inv(Filled(r, e, sqe))
  {
    var r', n := Filled(r, e, sqe), |r.slotOf|;
    forall i | r'.head <= i < r'.next
      ensures r'.sqes[r'.slotOf[i % n]] == r'.prepared[i]
    {
      if i != e {
        if i < e { SlotsDiffer(i, e, n); } else { SlotsDiffer(e, i, n); }
        var a, b := i % n, e % n;
        assert a < b || b < a;
        assert r.slotOf[a] != r.slotOf[b];
      }
    }
    assert r'.consumed == r'.prepared[..r'.head];
  }

  /** `io_uring_submit`: everything prepared is published. */
  function Submitted(r: Ring): Ring { r.(tail := r.next) }

  lemma SubmittedKeeps(r: Ring)
    requires Inv(r)
    ensures Inv(Submitted(r))
  {
  }

  /** `io_uring_cqe_seen` */
  function Seen(r: Ring): Ring
    requires r.cqHead < |r.posted|
  {
    r.(cqHead := r.cqHead + 1, seen := r.seen + [r.posted[r.cqHead]])
  }

  lemma SeenKeeps(r: Ring)
    requires Inv(r) && r.cqHead < r.cqTail
    ensures Inv(Seen(r))
  {
    assert r.posted[..r.cqHead + 1] == r.posted[..r.cqHead] + [r.posted[r.cqHead]];
  }

  // ---- Steps of the kernel ----

  predicate HasWork(r: Ring) { r.head < r.tail }

  /** A completion goes to the ring, or is only counted when the ring is full. */
  function Posted(r: Ring, c: Cqe): Ring
    requires |r.cqes| > 0
  {
    if r.cqTail < r.cqHead + |r.cqes|
    then r.(cqes := r.cqes[r.cqTail % |r.cqes| := c], cqTail := r.cqTail + 1, posted := r.posted + [c])
    else r.(dropped := r.dropped + [c.userData])
  }

  /** The entry at the head leaves the ring; its answer is still owed. */
  function Taken(r: Ring): Ring
    requires r.head < |r.prepared|
  {
    var sqe := r.prepared[r.head];
    r.(head := r.head + 1, consumed := r.consumed + [sqe], inflight := r.inflight + [sqe.userData])
  }

  /** An answer owed is given. */
  function Settled(r: Ring, i: nat, res: int): Ring
    requires i < |r.inflight| && |r.cqes| > 0
  {
    Posted(r.(inflight := r.inflight[..i] + r.inflight[i + 1..]), Cqe(r.inflight[i], res))
  }

  lemma TakenKeeps(r: Ring)
    requires Inv(r) && HasWork(r)
    ensures Inv(Taken(r))
  {
    hide Requests, Answers;
    var sqe := r.prepared[r.head];
    RequestsAppend(r.consumed, sqe);
    TakenInOrder(r);
    TakenOwed(r);
  }

  lemma TakenInOrder(r: Ring)
    requires SlotsOk(r) && SubmissionOk(r) && HasWork(r)
    ensures SlotsOk(Taken(r)) && SubmissionOk(Taken(r))
  {
    assert r.prepared[..r.head + 1] == r.consumed + [r.prepared[r.head]];
  }

  lemma TakenOwed(r: Ring)
    requires SlotsOk(r) && SubmissionOk(r) && HasWork(r) && Conserved(r)
    ensures Conserved(Taken(r))
  {
    hide Requests, Answers, SlotsOk;
    var sqe := r.prepared[r.head];
    RequestsAppend(r.consumed, sqe);
    assert multiset(r.inflight + [sqe.userData]) == multiset(r.inflight) + multiset{sqe.userData};
  }

  lemma SlotBelow(i: nat, n: nat)
    requires n > 0
    ensures 0 <= i % n < n
  {
  }

  lemma CompletionBounds(r: Ring)
    requires CompletionOk(r)
    ensures |r.cqes| > 0 && r.cqHead <= r.cqTail <= r.cqHead + |r.cqes|
  {
  }

  lemma RequestsAppend(s: seq<Sqe>, sqe: Sqe)
    ensures Requests(s + [sqe]) == Requests(s) + multiset{sqe.userData}
  {
    assert (s + [sqe])[..|s|] == s;
  }

  lemma AnswersAppend(s: seq<Cqe>, c: Cqe)
    ensures Answers(s + [c]) == Answers(s) + multiset{c.userData}
  {
    assert (s + [c])[..|s|] == s;
  }

  lemma PostedKeeps(r: Ring, c: Cqe)
    requires SlotsOk(r) && SubmissionOk(r) && CompletionOk(r)
    requires Requests(r.consumed)
          == Answers(r.posted) + multiset(r.inflight) + multiset(r.dropped) + multiset{c.userData}
    ensures Inv(Posted(r, c))
  {
    hide Requests, Answers, SubmissionOk, SlotsOk, CompletionOk;
    PostedInPlace(r, c);
    PostedApart(r, c);
    PostedPaid(r, c);
  }

  lemma PostedApart(r: Ring, c: Cqe)
    requires SlotsOk(r) && SubmissionOk(r) && |r.cqes| > 0
    ensures SlotsOk(Posted(r, c)) && SubmissionOk(Posted(r, c))
  {
  }

  lemma PostedPaid(r: Ring, c: Cqe)
    requires |r.cqes| > 0
    requires Requests(r.consumed)
          == Answers(r.posted) + multiset(r.inflight) + multiset(r.dropped) + multiset{c.userData}
    ensures Conserved(Posted(r, c))
  {
    hide Requests, Answers;
    AnswersAppend(r.posted, c);
    assert multiset(r.dropped + [c.userData]) == multiset(r.dropped) + multiset{c.userData};
  }

  lemma PostedInPlace(r: Ring, c: Cqe)
    requires CompletionOk(r)
    ensures |r.cqes| > 0 && CompletionOk(Posted(r, c))
  {
    var r', m := Posted(r, c), |r.cqes|;
    forall i | r'.cqHead <= i < r'.cqTail
      ensures r'.cqes[i % m] == r'.posted[i]
    {
      if i < r.cqTail < r.cqHead + m { SlotsDiffer(i, r.cqTail, m); }
    }
    assert r'.seen == r'.posted[..r'.cqHead];
  }

  lemma SettledKeeps(r: Ring, i: nat, res: int)
    requires Inv(r) && i < |r.inflight|
    ensures Inv(Settled(r, i, res))
  {
    var rest := r.inflight[..i] + r.inflight[i + 1..];
    assert r.inflight == r.inflight[..i] + [r.inflight[i]] + r.inflight[i + 1..];
    assert multiset(r.inflight) == multiset(rest) + multiset{r.inflight[i]};
    PostedKeeps(r.(inflight := rest), Cqe(r.inflight[i], res));
  }

  // ---- Whole runs ----

  datatype Event =
    | GetSqe | Fill(entry: nat, sqe: Sqe) | Submit | CqeSeen
    | Take | Settle(index: nat, res: int)

  ghost predicate Enabled(r: Ring, ev: Event) {
    match ev
    case GetSqe => HasRoom(r)
    case Fill(e, _) => r.tail <= e < r.next
    case Submit => true
    case CqeSeen => r.cqHead < r.cqTail
    case Take => HasWork(r)
    case Settle(i, _) => i < |r.inflight|
  }

  ghost function Next(r: Ring, ev: Event): Ring
    requires Inv(r) && Enabled(r, ev)
  {
    match ev
    case GetSqe => Prepared(r)
    case Fill(e, sqe) => Filled(r, e, sqe)
    case Submit => Submitted(r)
    case CqeSeen => Seen(r)
    case Take => Taken(r)
    case Settle(i, res) => Settled(r, i, res)
  }

  lemma NextKeeps(r: Ring, ev: Event)
    requires Inv(r) && Enabled(r, ev)
    ensures Inv(Next(r, ev))
  {
    match ev
    case GetSqe => PreparedKeeps(r);
    case Fill(e, sqe) => FilledKeeps(r, e, sqe);
    case Submit => SubmittedKeeps(r);
    case CqeSeen => SeenKeeps(r);
    case Take => TakenKeeps(r);
    case Settle(i, res) => SettledKeeps(r, i, res);
  }

  ghost predicate EnabledRun(r: Ring, evs: seq<Event>)
    requires Inv(r)
    decreases |evs|
  {
    evs == [] || (Enabled(r, evs[0]) && (NextKeeps(r, evs[0]); EnabledRun(Next(r, evs[0]), evs[1..])))
  }

  ghost function Run(r: Ring, evs: seq<Event>): (r': Ring)
    requires Inv(r) && EnabledRun(r, evs)
    ensures Inv(r')
    decreases |evs|
  {
    if evs == [] then r
    else
      NextKeeps(r, evs[0]);
      Run(Next(r, evs[0]), evs[1..])
  }

  ghost predicate Sized(r: Ring) {
    r.head <= r.tail <= r.next == |r.prepared| && |r.consumed| == r.head && r.cqHead <= |r.posted| && |r.seen| == r.cqHead
  }

  lemma InvSized(r: Ring)
    requires Inv(r)
    ensures Sized(r)
  {
    hide Conserved, SlotsOk;
  }

  /** Nothing that happened has been undone. */
  ghost predicate Extends(r: Ring, r': Ring) {
    && r.tail <= r'.tail && r.tail <= |r.prepared| && r'.tail <= |r'.prepared|
    && r.prepared[..r.tail] <= r'.prepared[..r'.tail]
    && r.consumed <= r'.consumed && r.posted <= r'.posted && r.seen <= r'.seen
  }

  lemma NextExtends(r: Ring, ev: Event)
    requires Inv(r) && Enabled(r, ev)
    ensures Extends(r, Next(r, ev))
  {
    hide Conserved, SubmissionOk, CompletionOk;
    InvSized(r);
    NextKeeps(r, ev);
    InvSized(Next(r, ev));
  }

  lemma ExtendsTrans(r: Ring, r1: Ring, r2: Ring)
    requires Extends(r, r1) && Extends(r1, r2)
    ensures Extends(r, r2)
  {
  }

  /** Over any run nothing that happened is undone: a published entry stays as it was
      published, and consumption, completion and reaping only ever append. */
  lemma {:induction false} RunExtends(r: Ring, evs: seq<Event>)
    requires Inv(r) && EnabledRun(r, evs)
    ensures Extends(r, Run(r, evs))
    decreases |evs|
  {
    hide Inv, Enabled, Next, Extends;
    if evs == [] {
      ExtendsSelf(r);
    } else {
      var r1 := Next(r, evs[0]);
      NextKeeps(r, evs[0]);
      NextExtends(r, evs[0]);
      RunExtends(r1, evs[1..]);
      ExtendsTrans(r, r1, Run(r1, evs[1..]));
    }
  }

  lemma ExtendsSelf(r: Ring)
    requires Inv(r)
    ensures Extends(r, r)
  {
    hide Conserved, SubmissionOk, CompletionOk;
    InvSized(r);
  }

  /** The kernel executes exactly what was published, in the order it was prepared,
      each entry once; what the program has reaped is what was posted, likewise. */
  lemma OrderAndOnce(r: Ring, evs: seq<Event>, i: nat)
    requires Inv(r) && EnabledRun(r, evs)
    ensures var r' := Run(r, evs);
            && Sized(r') && r.tail <= |r.prepared|
            && (i < r'.head && i < r.tail ==> r'.consumed[i] == r.prepared[i])
            && (i < r'.cqHead ==> r'.seen[i] == r'.posted[i])
  {
    hide Inv, Enabled, Next, EnabledRun, Run;
    RunExtends(r, evs);
    InvSized(r);
    InvSized(Run(r, evs));
    ConsumedInOrder(Run(r, evs));
  }

  lemma ConsumedInOrder(r: Ring)
    requires Inv(r)
    ensures Sized(r) && r.consumed == r.prepared[..r.head] && r.seen == r.posted[..r.cqHead]
  {
    hide Conserved;
  }

  // ---- Progress ----

  lemma {:induction false} RunConcat(r: Ring, a: seq<Event>, b: seq<Event>)
    requires Inv(r)
    ensures EnabledRun(r, a + b) <==> EnabledRun(r, a) && EnabledRun(Run(r, a), b)
    ensures EnabledRun(r, a + b) ==> Run(r, a + b) == Run(Run(r, a), b)
    decreases |a|
  {
    hide Inv, Next, Enabled;
    if a == [] {
      assert a + b == b;
    } else {
      assert (a + b)[0] == a[0] && (a + b)[1..] == a[1..] + b;
      if Enabled(r, a[0]) {
        NextKeeps(r, a[0]);
        RunConcat(Next(r, a[0]), a[1..], b);
      }
    }
  }

  lemma RunOne(r: Ring, ev: Event)
    requires Inv(r)
    ensures EnabledRun(r, [ev]) <==> Enabled(r, ev)
    ensures Enabled(r, ev) ==> Run(r, [ev]) == Next(r, ev)
  {
    hide Inv, Next, Enabled;
    if Enabled(r, ev) { NextKeeps(r, ev); }
  }

  function Repeat(ev: Event, n: nat): seq<Event> {
    if n == 0 then [] else [ev] + Repeat(ev, n - 1)
  }

  function Ids(s: seq<Sqe>): seq<u64> { seq(|s|, i requires 0 <= i < |s| => s[i].userData) }

  lemma BatchGrows(s: seq<Sqe>, h: nat, n: nat, consumed: seq<Sqe>, inflight: seq<u64>)
    requires 0 < n && h + n <= |s|
    ensures consumed + [s[h]] + s[h + 1..h + n] == consumed + s[h..h + n]
    ensures inflight + [s[h].userData] + Ids(s[h + 1..h + n]) == inflight + Ids(s[h..h + n])
  {
  }

  /** The kernel can take as many entries as are published, and no more; they are those
      prepared first among the entries not yet taken. */
  lemma {:induction false} TakesInOrder(r: Ring, n: nat)
    requires Inv(r)
    ensures Sized(r)
    ensures EnabledRun(r, Repeat(Take, n)) <==> n <= r.tail - r.head
    ensures n <= r.tail - r.head ==>
              var batch := r.prepared[r.head..r.head + n];
              Run(r, Repeat(Take, n)) ==
              r.(head := r.head + n, consumed := r.consumed + batch, inflight := r.inflight + Ids(batch))
    decreases n
  {
    hide Inv, EnabledRun, Run;
    InvSized(r);
    RunNone(r);
    if n > 0 {
      RunOne(r, Take);
      RunConcat(r, [Take], Repeat(Take, n - 1));
    }
    if n > 0 && HasWork(r) {
      NextKeeps(r, Take);
      TakesInOrder(Taken(r), n - 1);
      if n <= r.tail - r.head {
        BatchGrows(r.prepared, r.head, n, r.consumed, r.inflight);
      }
    }
  }

  /** Submitting hands over everything prepared: exactly so many turns of the kernel follow,
      they consume it all, in order, and then there is no work left. */
  lemma SubmitThenTake(r: Ring, n: nat)
    requires Inv(r)
    ensures r.head <= r.next == |r.prepared|
    ensures EnabledRun(r, [Submit] + Repeat(Take, n)) <==> n <= r.next - r.head
    ensures n == r.next - r.head ==>
              var r' := Run(r, [Submit] + Repeat(Take, n));
              && !HasWork(r') && r'.prepared == r.prepared && r'.consumed == r.prepared
              && r'.inflight == r.inflight + Ids(r.prepared[r.head..])
  {
    hide SubmissionOk, CompletionOk, Conserved, SlotsOk, Repeat, EnabledRun, Run;
    InvSized(r);
    SubmittedKeeps(r);
    RunOne(r, Submit);
    RunConcat(r, [Submit], Repeat(Take, n));
    TakesInOrder(Submitted(r), n);
    ConsumedInOrder(r);
    assert r.prepared[..r.head] + r.prepared[r.head..] == r.prepared;
    assert r.prepared[r.head..r.next] == r.prepared[r.head..];
  }

  /** Taking an entry and filling it in, for each of `sqes`. */
  function Preparing(e: nat, sqes: seq<Sqe>): seq<Event>
    decreases |sqes|
  {
    if sqes == [] then [] else [GetSqe, Fill(e, sqes[0])] + Preparing(e + 1, sqes[1..])
  }

  lemma PrepareOne(r: Ring, sqe: Sqe)
    requires Inv(r) && HasRoom(r)
    ensures Inv(Prepared(r)) && Enabled(Prepared(r), Fill(r.next, sqe))
    ensures var r' := Filled(Prepared(r), r.next, sqe);
            Inv(r') && r' == r.(sqes := r'.sqes, next := r.next + 1, prepared := r.prepared + [sqe])
  {
    hide Conserved, CompletionOk;
    PreparedKeeps(r);
    FilledKeeps(Prepared(r), r.next, sqe);
    assert (r.prepared + [BLANK])[r.next := sqe] == r.prepared + [sqe];
  }

  lemma RunTwo(r: Ring, a: Event, b: Event)
    requires Inv(r) && Enabled(r, a) && Inv(Next(r, a)) && Enabled(Next(r, a), b)
    ensures EnabledRun(r, [a, b]) && Run(r, [a, b]) == Next(Next(r, a), b)
  {
    hide Inv, Next, Enabled;
    assert [a, b][1..] == [b];
    RunOne(Next(r, a), b);
  }

  /** There is an entry for each request as long as the ring has room for them all. */
  lemma {:induction false} PrepareAll(r: Ring, sqes: seq<Sqe>)
    requires Inv(r) && r.next + |sqes| <= r.head + |r.slotOf|
    ensures EnabledRun(r, Preparing(r.next, sqes))
    ensures var r' := Run(r, Preparing(r.next, sqes));
            r' == r.(sqes := r'.sqes, next := r.next + |sqes|, prepared := r.prepared + sqes)
    decreases |sqes|
  {
    hide Inv, EnabledRun, Run;
    if sqes == [] {
      assert EnabledRun(r, []) && Run(r, []) == r by { RunNone(r); }
    } else {
      var pair, rest := [GetSqe, Fill(r.next, sqes[0])], Preparing(r.next + 1, sqes[1..]);
      InvSlots(r);
      InvOrder(r);
      PrepareOne(r, sqes[0]);
      RunTwo(r, GetSqe, Fill(r.next, sqes[0]));
      var r1 := Filled(Prepared(r), r.next, sqes[0]);
      PrepareAll(r1, sqes[1..]);
      RunConcat(r, pair, rest);
      assert r.prepared + [sqes[0]] + sqes[1..] == r.prepared + sqes;
    }
  }

  lemma RunNone(r: Ring)
    requires Inv(r)
    ensures EnabledRun(r, []) && Run(r, []) == r
  {
    hide Inv;
  }

  lemma InvSlots(r: Ring)
    requires Inv(r)
    ensures |r.slotOf| > 0 && |r.cqes| > 0
    ensures forall i :: 0 <= i < |r.slotOf| ==> r.slotOf[i] < |r.sqes|
  {
    hide SubmissionOk, Conserved;
  }

  /** The answers owed first are given, with results `rs`. */
  function Settling(rs: seq<int>): seq<Event> {
    if rs == [] then [] else [Settle(0, rs[0])] + Settling(rs[1..])
  }

  function Replies(ids: seq<u64>, rs: seq<int>): seq<Cqe>
    requires |rs| <= |ids|
  {
    seq(|rs|, i requires 0 <= i < |rs| => Cqe(ids[i], rs[i]))
  }

  lemma RepliesGrow(posted: seq<Cqe>, ids: seq<u64>, rs: seq<int>)
    requires 0 < |rs| <= |ids|
    ensures ids[..0] + ids[1..] == ids[1..] && ids[1..][|rs[1..]|..] == ids[|rs|..]
    ensures posted + [Cqe(ids[0], rs[0])] + Replies(ids[1..], rs[1..]) == posted + Replies(ids, rs)
  {
  }

  /** While the completion ring has room, each answer is posted to the request it is for. */
  lemma {:induction false} SettleAll(r: Ring, rs: seq<int>)
    requires Inv(r) && |rs| <= |r.inflight| && r.cqTail + |rs| <= r.cqHead + |r.cqes|
    ensures EnabledRun(r, Settling(rs))
    ensures var r' := Run(r, Settling(rs));
            r' == r.(cqes := r'.cqes, cqTail := r.cqTail + |rs|, posted := r.posted + Replies(r.inflight, rs),
                     inflight := r.inflight[|rs|..])
    decreases |rs|
  {
    hide Inv;
    if rs == [] {
      RunNone(r);
      assert r.posted + Replies(r.inflight, rs) == r.posted;
    } else {
      InvSlots(r);
      NextKeeps(r, Settle(0, rs[0]));
      var r1 := Settled(r, 0, rs[0]);
      RepliesGrow(r.posted, r.inflight, rs);
      SettleAll(r1, rs[1..]);
    }
  }

  /** The program sees as many completions as were posted, and no more, in that order. */
  lemma {:induction false} SeesInOrder(r: Ring, n: nat)
    requires Inv(r)
    ensures r.cqHead <= r.cqTail == |r.posted|
    ensures EnabledRun(r, Repeat(CqeSeen, n)) <==> n <= r.cqTail - r.cqHead
    ensures n <= r.cqTail - r.cqHead ==>
              Run(r, Repeat(CqeSeen, n)) == r.(cqHead := r.cqHead + n, seen := r.posted[..r.cqHead + n])
    decreases n
  {
    hide SubmissionOk, Conserved, SlotsOk;
    if n > 0 && r.cqHead < r.cqTail {
      NextKeeps(r, CqeSeen);
      SeesInOrder(Seen(r), n - 1);
    }
  }

  /** Nothing is prepared, owed or unseen. */
  predicate Idle(r: Ring) { r.head == r.tail == r.next && r.cqHead == r.cqTail && r.inflight == [] }

  /** Prepare, submit, execute, answer, reap. */
  function Batch(e: nat, sqes: seq<Sqe>, rs: seq<int>): seq<Event> {
    Preparing(e, sqes) + ([Submit] + Repeat(Take, |sqes|)) + (Settling(rs) + Repeat(CqeSeen, |rs|))
  }

  /** A batch that both rings can hold goes all the way round: the kernel consumes those requests
      and no others, in order, and the program sees for each of them its own answer. */
  lemma BatchGoesRound(r: Ring, sqes: seq<Sqe>, rs: seq<int>)
    requires Inv(r) && Idle(r) && |sqes| == |rs| <= |r.slotOf| && |rs| <= |r.cqes|
    ensures EnabledRun(r, Batch(r.next, sqes, rs))
    ensures var r' := Run(r, Batch(r.next, sqes, rs));
            && Idle(r') && r'.consumed == r.consumed + sqes
            && r'.seen == r.seen + Replies(Ids(sqes), rs) && r'.dropped == r.dropped
  {
    hide Inv, EnabledRun, Run, Preparing, Repeat, Settling;
    var r1 := BatchPrepared(r, sqes);
    BatchTaken(r, sqes, r1);
    var done := Preparing(r.next, sqes) + ([Submit] + Repeat(Take, |sqes|));
    RunConcat(r, Preparing(r.next, sqes), [Submit] + Repeat(Take, |sqes|));
    var r2 := Run(r1, [Submit] + Repeat(Take, |sqes|));
    BatchAnswered(r2, sqes, rs);
    RunConcat(r, done, Settling(rs) + Repeat(CqeSeen, |rs|));
    InvOrder(r);
  }

  lemma InvOrder(r: Ring)
    requires Inv(r)
    ensures |r.prepared| == r.next && r.consumed == r.prepared[..r.head] && r.head <= |r.prepared|
    ensures |r.posted| == r.cqTail && r.cqHead <= r.cqTail && r.seen == r.posted[..r.cqHead]
  {
    hide Conserved;
  }

  lemma BatchPrepared(r: Ring, sqes: seq<Sqe>) returns (r1: Ring)
    requires Inv(r) && Idle(r) && |sqes| <= |r.slotOf|
    ensures EnabledRun(r, Preparing(r.next, sqes)) && r1 == Run(r, Preparing(r.next, sqes))
    ensures Inv(r1) && r1 == r.(sqes := r1.sqes, next := r.next + |sqes|, prepared := r.prepared + sqes)
  {
    hide Inv, EnabledRun, Run, Preparing;
    PrepareAll(r, sqes);
    r1 := Run(r, Preparing(r.next, sqes));
  }

  lemma BatchTaken(r: Ring, sqes: seq<Sqe>, r1: Ring)
    requires Inv(r) && Idle(r) && Inv(r1)
    requires r1 == r.(sqes := r1.sqes, next := r.next + |sqes|, prepared := r.prepared + sqes)
    ensures EnabledRun(r1, [Submit] + Repeat(Take, |sqes|))
    ensures var r2 := Run(r1, [Submit] + Repeat(Take, |sqes|));
            && Inv(r2) && r2.head == r2.tail == r2.next == r1.next && r2.consumed == r.consumed + sqes
            && r2.inflight == Ids(sqes)
            && r2.cqHead == r.cqHead && r2.cqTail == r.cqTail && r2.posted == r.posted && r2.cqes == r.cqes
            && r2.dropped == r.dropped
  {
    hide Inv, EnabledRun, Run, Repeat;
    InvOrder(r);
    SubmittedIsInv(r1);
    RunOne(r1, Submit);
    RunConcat(r1, [Submit], Repeat(Take, |sqes|));
    TakesInOrder(Submitted(r1), |sqes|);
    assert r1.prepared[r1.head..r1.head + |sqes|] == sqes;
    assert r.inflight + Ids(sqes) == Ids(sqes);
  }

  lemma SubmittedIsInv(r: Ring)
    requires Inv(r)
    ensures Inv(Submitted(r)) && Enabled(r, Submit) && Next(r, Submit) == Submitted(r)
  {
    SubmittedKeeps(r);
  }

  lemma BatchAnswered(r: Ring, sqes: seq<Sqe>, rs: seq<int>)
    requires Inv(r) && r.cqHead == r.cqTail && r.inflight == Ids(sqes) && |sqes| == |rs| <= |r.cqes|
    ensures EnabledRun(r, Settling(rs) + Repeat(CqeSeen, |rs|))
    ensures var r' := Run(r, Settling(rs) + Repeat(CqeSeen, |rs|));
            && r'.cqHead == r'.cqTail && r'.inflight == [] && r'.seen == r.posted + Replies(Ids(sqes), rs)
            && r'.head == r.head && r'.tail == r.tail && r'.next == r.next
            && r'.consumed == r.consumed && r'.dropped == r.dropped
  {
    hide Inv, EnabledRun, Run, Repeat, Settling;
    SettleAll(r, rs);
    var r1 := Run(r, Settling(rs));
    InvOrder(r);
    SeesInOrder(r1, |rs|);
    RunConcat(r, Settling(rs), Repeat(CqeSeen, |rs|));
    assert r1.posted[..r1.cqHead + |rs|] == r1.posted;
  }

  /** Each consumed request is answered once, still in flight, or counted as dropped. */
  lemma NothingLost(r: Ring)
    requires Inv(r)
    ensures |r.consumed| == |r.posted| + |r.inflight| + |r.dropped|
  {
    hide SubmissionOk, CompletionOk, SlotsOk;
    RequestsSize(r.consumed);
    AnswersSize(r.posted);
  }

  /** No more consumed requests are unseen than the completion ring holds. */
  predicate Reaped(r: Ring) { |r.consumed| <= |r.seen| + |r.cqes| }

  ghost predicate ReapedRun(r: Ring, evs: seq<Event>)
    requires Inv(r) && EnabledRun(r, evs)
    decreases |evs|
  {
    Reaped(r) && (evs == [] || (NextKeeps(r, evs[0]); ReapedRun(Next(r, evs[0]), evs[1..])))
  }

  /** There is then room for every answer. */
  lemma RoomForAnswer(r: Ring)
    requires Inv(r) && Reaped(r) && |r.inflight| > 0
    ensures r.cqTail < r.cqHead + |r.cqes|
  {
    hide Conserved, SlotsOk, SubmissionOk;
    NothingLost(r);
  }

  /** A program that reaps in time loses no completion. */
  lemma {:induction false} NoneDropped(r: Ring, evs: seq<Event>)
    requires Inv(r) && EnabledRun(r, evs) && ReapedRun(r, evs)
    ensures Run(r, evs).dropped == r.dropped
    decreases |evs|
  {
    hide Inv;
    if evs != [] {
      NextKeeps(r, evs[0]);
      if evs[0].Settle? { RoomForAnswer(r); }
      NoneDropped(Next(r, evs[0]), evs[1..]);
    }
  }

  lemma {:induction false} RequestsSize(s: seq<Sqe>)
    ensures |Requests(s)| == |s|
  {
    if s != [] { RequestsSize(s[..|s| - 1]); }
  }

  lemma {:induction false} AnswersSize(s: seq<Cqe>)
    ensures |Answers(s)| == |s|
  {
    if s != [] { AnswersSize(s[..|s| - 1]); }
  }

  // ---- Words ----

  function Wrap(i: nat): u32 { i % 0x1_0000_0000 }

  /** Unsigned subtraction gives the true distance of two counters less than 2^32 apart. */
  lemma WrappedDistance(a: nat, b: nat)
    requires b <= a < b + TWO_32
    ensures (Wrap(a) - Wrap(b)) % TWO_32 == a - b
  {
    var k := a / TWO_32 - b / TWO_32;
    assert Wrap(a) - Wrap(b) == (a - b) - k * TWO_32;
    DivModUnique(Wrap(a) - Wrap(b), TWO_32, -k, a - b);
  }

  lemma WrapNext(i: nat)
    ensures Wrap(i + 1) == (Wrap(i) + 1) % 0x1_0000_0000
  {
  }

  /** Two counters less than 2^32 apart are equal when their words are. */
  lemma WrappedEqual(a: nat, b: nat)
    requires b <= a < b + TWO_32
    ensures Wrap(a) == Wrap(b) <==> a == b
  {
    WrappedDistance(a, b);
  }

  /** Masking a wrapped counter gives the slot of the counter itself. */
  lemma MaskedSlot(i: nat, k: nat)
    requires k <= 32
    ensures BitAnd(Wrap(i), Pow2(k) - 1) == i % Pow2(k)
  {
    AndMask(Wrap(i), k);
    Pow2Of32();
    Pow2Add(32 - k, k);
    ModOfMod(i, Pow2(k), Pow2(32 - k));
  }

  lemma ModOfMod(i: nat, p: nat, q: nat)
    requires p > 0 && q > 0
    ensures (i % (q * p)) % p == i % p
  {
    var c, w := i / (q * p), i % (q * p);
    assert i == c * (q * p) + w;
    MulAssociative(c, q, p);
    MulDistributes(c * q, w / p, p);
    DivModUnique(i, p, c * q + w / p, w % p);
  }

  // ---- The code ----

  /** The answer reached the program's side, or the loss was counted, as there was room or not. */
  predicate Answered(r: Ring, r': Ring, userData: u64, res: int) {
    if r.cqTail < r.cqHead + |r.cqes|
    then r'.posted == r.posted + [Cqe(userData, res)] && r'.dropped == r.dropped
    else r'.posted == r.posted && r'.dropped == r.dropped + [userData]
  }

  const URING_MAX := 64

  /** The shared ring memory, the program's private tail and the kernel's bookkeeping.
      `ring` is the abstract ring this state stands for. */
  class Queue {
    const entries: nat
    const mask: nat
    const sqArray: seq<nat>
    var sqHead: u32
    var sqTail: u32
    var sqeTail: u32
    var cqHead: u32
    var cqTail: u32
    var cqOverflow: u32
    var sqes: seq<Sqe>
    var cqes: seq<Cqe>
    var inflight: seq<u64>
    ghost const order: nat
    ghost var ring: Ring

    ghost predicate Shape()
    {
      && order <= 31 && entries == Pow2(order) && mask == entries - 1 && |sqArray| == entries
      && forall i :: 0 <= i < |sqArray| ==> sqArray[i] <= mask
    }

    ghost predicate Valid()
      reads this
    {
      && Shape() && Inv(ring) && ring.slotOf == sqArray && |ring.cqes| == entries
      && ring.sqes == sqes && ring.cqes == cqes && ring.inflight == inflight
      && sqHead == Wrap(ring.head) && sqTail == Wrap(ring.tail) && sqeTail == Wrap(ring.next)
      && cqHead == Wrap(ring.cqHead) && cqTail == Wrap(ring.cqTail)
      && cqOverflow == Wrap(|ring.dropped|)
    }

    lemma EntriesFit()
      requires Shape()
      ensures 1 <= entries <= 0x8000_0000
    {
      Pow2Of32();
      Pow2Monotone(order, 31);
    }

    /** `sys_io_uring_setup`: the number of entries is clamped and rounded up to a power
        of two, and the index array is the identity. */
    constructor (wanted: u32)
      ensures Valid() && ring.next == 0 && ring.cqTail == 0 && inflight == []
      ensures wanted <= URING_MAX ==> wanted <= entries
      ensures entries <= URING_MAX && (entries == 1 || entries < 2 * wanted)
    {
      var n := if wanted < 1 then 1 else if wanted > URING_MAX then URING_MAX else wanted;
      var p2 := 1;
      ghost var k := 0;
      assert Pow2(6) == 64;
      while p2 < n
        invariant k <= 6 && p2 == Pow2(k) && (p2 == 1 || p2 < 2 * n) && p2 <= 64
        decreases n - p2
      {
        if k == 6 { assert false; }
        assert p2 <= 32 by { Pow2Monotone(k, 5); assert Pow2(5) == 32; }
        p2 := p2 * 2;
        k := k + 1;
      }
      entries, mask, order := p2, p2 - 1, k;
      var slots := seq(p2, i => i);
      sqArray := slots;
      sqHead, sqTail, sqeTail, cqHead, cqTail, cqOverflow := 0, 0, 0, 0, 0, 0;
      sqes := seq(URING_MAX, _ => BLANK);
      cqes := seq(p2, _ => Cqe(0, 0));
      inflight := [];
      ring := Ring(slots, seq(URING_MAX, _ => BLANK), seq(p2, _ => Cqe(0, 0)), 0, 0, 0, 0, 0, [], [], [], [], [], []);
    }

    /** `io_uring_get_sqe`. `head` is the head as loaded, when the counter was `h`; the
        kernel may have moved on since. */
    method GetEntry(head: u32, ghost h: nat) returns (slot: Option<nat>)
      requires Valid() && head == Wrap(h) && h <= ring.head && ring.next <= h + entries
      modifies this`sqes, this`sqeTail, this`ring
      ensures Valid()
      ensures slot.None? <==> old(ring.next) == h + entries
      ensures slot.None? ==> ring == old(ring)
      ensures slot.Some? ==>
                && old(HasRoom(ring)) && ring == old(Prepared(ring))
                && ring.next == old(ring.next) + 1 && ring.prepared == old(ring.prepared) + [BLANK]
                && slot.value == sqArray[old(ring.next) % entries] && sqes == old(sqes)[slot.value := BLANK]
                && forall i :: old(ring.head) <= i < old(ring.next) ==> sqArray[i % entries] != slot.value
    {
      hide SubmissionOk, CompletionOk, Conserved, Pow2, Wrap;
      EntriesFit();
      InvSized(ring);
      WrapNext(ring.next);
      var tail := sqeTail;
      WrappedDistance(ring.next, h);
      if (tail - head) % 0x1_0000_0000 >= entries {
        return None;
      }
      MaskedSlot(ring.next, order);
      var idx := sqArray[BitAnd(tail, mask)];
      PreparedKeeps(ring);
      SlotIsFreeAll(ring);
      sqes := sqes[idx := BLANK];
      sqeTail := (tail + 1) % 0x1_0000_0000;
      ring := Prepared(ring);
      slot := Some(idx);
    }

    /** The program writes an entry it was given and has not submitted. */
    method FillEntry(slot: nat, sqe: Sqe, ghost e: nat)
      requires Valid() && ring.tail <= e < ring.next && slot == sqArray[e % entries]
      modifies this`sqes, this`ring
      ensures Valid() && ring == Filled(old(ring), e, sqe)
      ensures ring.prepared == old(ring.prepared)[e := sqe] && sqes == old(sqes)[slot := sqe]
    {
      FilledKeeps(ring, e, sqe);
      sqes := sqes[slot := sqe];
      ring := Filled(ring, e, sqe);
    }

    /** `io_uring_submit` up to the system call: what it publishes and how many entries
        it tells the kernel to take, counted from the head as loaded. */
    method SubmitAll(head: u32, ghost h: nat) returns (toSubmit: u32)
      requires Valid() && head == Wrap(h) && h <= ring.head && ring.next <= h + entries
      modifies this`sqTail, this`ring
      ensures Valid() && ring == old(Submitted(ring))
      ensures ring.tail == ring.next == old(ring.next) && ring.head == old(ring.head)
      ensures ring.prepared == old(ring.prepared) && sqTail == sqeTail
      ensures toSubmit == ring.next - h
    {
      hide Conserved, CompletionOk, Pow2, Wrap;
      EntriesFit();
      var tail := sqeTail;
      WrappedDistance(ring.next, h);
      WrappedEqual(ring.next, h);
      SubmittedKeeps(ring);
      if tail == head {
        ring := Submitted(ring);
        return 0;
      }
      sqTail := tail;
      ring := Submitted(ring);
      toSubmit := (tail - head) % 0x1_0000_0000;
    }

    /** Posting a completion: lines 1184-1192 and 1551-1562. */
    method Post(userData: u64, res: int)
      requires Shape() && |cqes| == entries && CompletionOk(ring) && ring.cqes == cqes
      requires cqHead == Wrap(ring.cqHead) && cqTail == Wrap(ring.cqTail) && cqOverflow == Wrap(|ring.dropped|)
      modifies this`cqes, this`cqTail, this`cqOverflow, this`ring
      ensures ring == old(Posted(ring, Cqe(userData, res))) && ring.cqes == cqes
      ensures cqTail == Wrap(ring.cqTail) && cqOverflow == Wrap(|ring.dropped|)
    {
      hide Pow2, Wrap, BitAnd, CompletionOk;
      EntriesFit();
      CompletionBounds(ring);
      WrapNext(ring.cqTail);
      WrapNext(|ring.dropped|);
      WrappedDistance(ring.cqTail, ring.cqHead);
      MaskedSlot(ring.cqTail, order);
      SlotBelow(ring.cqTail, entries);
      var room := (cqTail - cqHead) % 0x1_0000_0000 < entries;
      var slot := BitAnd(cqTail, mask);
      if room {
        cqes := cqes[slot := Cqe(userData, res)];
        cqTail := (cqTail + 1) % 0x1_0000_0000;
      } else {
        cqOverflow := (cqOverflow + 1) % 0x1_0000_0000;
      }
      ring := Posted(ring, Cqe(userData, res));
    }

    /** One turn of the loop in `sys_io_uring_enter`: nothing when the ring is empty;
        otherwise the request at the head, exactly as it was prepared, is queued on the
        block device or answered at once with `res`. */
    method KernelTurn(queued: bool, res: int) returns (took: Option<Sqe>)
      requires Valid()
      modifies this
      ensures Valid()
      ensures took.None? <==> !old(HasWork(ring))
      ensures took.None? ==> ring == old(ring)
      ensures took.Some? ==>
                && took.value == old(ring.prepared[ring.head])
                && ring.head == old(ring.head) + 1 && ring.consumed == old(ring.consumed) + [took.value]
                && (queued ==> inflight == old(inflight) + [took.value.userData] && ring.posted == old(ring.posted))
                && (!queued ==> Answered(old(ring), ring, took.value.userData, res))
                && ring == (var t := old(Taken(ring)); if queued then t else Settled(t, |t.inflight| - 1, res))
    {
      hide CompletionOk, Conserved, Pow2, Wrap;
      EntriesFit();
      WrapNext(ring.head);
      WrappedEqual(ring.tail, ring.head);
      if sqHead == sqTail {
        return None;
      }
      MaskedSlot(ring.head, order);
      var idx := sqArray[BitAnd(sqHead, mask)];
      if idx > mask {
        assert false;
      }
      var sqe := sqes[idx];
      TakenKeeps(ring);
      ring := Taken(ring);
      inflight := inflight + [sqe.userData];
      sqHead := (sqHead + 1) % 0x1_0000_0000;
      if !queued {
        Settle(|inflight| - 1, res);
      }
      took := Some(sqe);
    }

    /** `uring_vblk_done`, and the inline answer: an answer owed is given. */
    method Settle(i: nat, res: int)
      requires Valid() && i < |inflight|
      modifies this`inflight, this`cqes, this`cqTail, this`cqOverflow, this`ring
      ensures Valid() && ring == old(Settled(ring, i, res))
      ensures Answered(old(ring), ring, old(inflight[i]), res)
      ensures inflight == old(inflight[..i] + inflight[i + 1..])
    {
      hide SubmissionOk, Conserved, Pow2, Wrap;
      SettledKeeps(ring, i, res);
      var userData := inflight[i];
      inflight := inflight[..i] + inflight[i + 1..];
      ring := ring.(inflight := inflight);
      Post(userData, res);
    }

    /** `io_uring_wait_cqe`, on the tail it loaded last, when the counter was `t`. */
    method NextCqe(tail: u32, ghost t: nat) returns (cqe: Option<Cqe>)
      requires Valid() && tail == Wrap(t) && ring.cqHead <= t <= ring.cqTail
      ensures cqe.None? <==> t == ring.cqHead
      ensures cqe.Some? ==> cqe.value == ring.posted[ring.cqHead]
    {
      hide SubmissionOk, Conserved, Pow2, Wrap;
      EntriesFit();
      WrappedEqual(t, ring.cqHead);
      if cqHead == tail {
        return None;
      }
      MaskedSlot(ring.cqHead, order);
      cqe := Some(cqes[BitAnd(cqHead, mask)]);
    }

    /** `io_uring_cqe_seen`, on a completion the program was shown. */
    method MarkSeen()
      requires Valid() && ring.cqHead < ring.cqTail
      modifies this`cqHead, this`ring
      ensures Valid() && ring == old(Seen(ring))
      ensures ring.cqHead == old(ring.cqHead) + 1 && ring.seen == old(ring.seen) + [old(ring.posted[ring.cqHead])]
    {
      hide SubmissionOk, Conserved, Pow2, Wrap;
      WrapNext(ring.cqHead);
      SeenKeeps(ring);
      cqHead := (cqHead + 1) % 0x1_0000_0000;
      ring := Seen(ring);
    }
  }
}
