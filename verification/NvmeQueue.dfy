/** An NVMe queue pair as host and controller see it: two rings, doorbells and a phase bit, against the unbounded
    logs of what was submitted, fetched, posted and consumed. */
module NvmeQueue {
  import opened Bits

  /** The fields of a submission entry that nvme.c fills in. */
  datatype Command = Command(opcode: nat, id: nat, nsid: nat, prp1: nat, cdw10: nat, cdw11: nat, cdw12: nat)

  /** A completion entry: the command's identifier, and a status whose lowest bit is the Phase Tag. */
  datatype Completion = Completion(id: nat, status: nat)

  /** Rings and doorbells are shared memory; tail, head and phase are the host's; the rest is the controller's. */
  datatype Queue = Queue(
    size: nat, sq: seq<Command>, cq: seq<Completion>,
    tail: nat, head: nat, phase: nat,
    tailBell: nat, headBell: nat,
    sqHead: nat, cqTail: nat, ctrlPhase: nat)

  /** The history: commands submitted, commands the controller read from the ring, completions it wrote with the
      index of the command each belongs to, and completions the host read from the ring. */
  datatype Log = Log(submitted: seq<Command>, taken: seq<Command>, written: seq<Completion>, owner: seq<nat>,
    seen: seq<Completion>)

  datatype State = State(q: Queue, log: Log)

  // ---------------------------------------------------------------- steps of the host

  function Advance(i: nat, size: nat): nat {
    if i + 1 >= size then 0 else i + 1
  }

  /** NVMe_SubmitCommand */
  function Submit(s: State, c: Command): State
    requires s.q.tail < |s.q.sq|
  {
    var tail := Advance(s.q.tail, s.q.size);
    State(s.q.(sq := s.q.sq[s.q.tail := c], tail := tail, tailBell := tail),
          s.log.(submitted := s.log.submitted + [c]))
  }

  /** The test of NVMe_WaitForCompletion: the entry at the head is new. */
  predicate NewEntry(q: Queue)
    requires q.head < |q.cq|
  {
    q.cq[q.head].status % 2 == q.phase
  }

  /** Consuming the entry at the head. */
  function Consume(s: State): State
    requires s.q.head < |s.q.cq|
  {
    var head := Advance(s.q.head, s.q.size);
    var phase := if s.q.head + 1 >= s.q.size then (if s.q.phase == 0 then 1 else 0) else s.q.phase;
    State(s.q.(head := head, phase := phase, headBell := head), s.log.(seen := s.log.seen + [s.q.cq[s.q.head]]))
  }

  /** One round of the polling loop. */
  function Poll(s: State): State
    requires s.q.head < |s.q.cq|
  {
    if NewEntry(s.q) then Consume(s) else s
  }

  // ---------------------------------------------------------------- steps of the controller

  /** What the controller may do next: nothing, fetch a command, or post the completion of command `index`. */
  datatype Device = Rest | Fetch | Post(index: nat, status: nat)

  /** The controller fetches while its head differs from the tail doorbell; it posts once for each fetched command, in
      any order, while the completion queue is not full by the head doorbell. */
  predicate Enabled(s: State, d: Device) {
    match d
    case Rest => true
    case Fetch => s.q.sqHead < |s.q.sq| && s.q.sqHead != s.q.tailBell
    case Post(i, _) =>
      && s.q.cqTail < |s.q.cq| && i < |s.log.taken| && i !in s.log.owner
      && Advance(s.q.cqTail, s.q.size) != s.q.headBell
  }

  function Act(s: State, d: Device): State {
    if !Enabled(s, d) then s
    else match d
      case Rest => s
      case Fetch =>
        State(s.q.(sqHead := Advance(s.q.sqHead, s.q.size)), s.log.(taken := s.log.taken + [s.q.sq[s.q.sqHead]]))
      case Post(i, status) =>
        var entry := Completion(s.log.taken[i].id, 2 * status + s.q.ctrlPhase);
        var flipped := if s.q.ctrlPhase == 0 then 1 else 0;
        State(s.q.(cq := s.q.cq[s.q.cqTail := entry], cqTail := Advance(s.q.cqTail, s.q.size),
                   ctrlPhase := if s.q.cqTail + 1 >= s.q.size then flipped else s.q.ctrlPhase),
              s.log.(written := s.log.written + [entry], owner := s.log.owner + [i]))
  }

  // ---------------------------------------------------------------- positions in a ring

  /** Where entry `k` of an unbounded log lies in a ring, and the phase it carries: 1 on even passes. */
  function Slot(k: nat, size: nat): (r: nat)
    requires size > 0
    ensures r < size
  {
    k % size
  }

  function PhaseOf(k: nat, size: nat): (p: nat)
    requires size > 0
    ensures p < 2
  {
    1 - (k / size) % 2
  }

  lemma FirstSlot(size: nat)
    requires size > 0
    ensures Slot(0, size) == 0 && PhaseOf(0, size) == 1
  {
  }

  lemma NextSlot(k: nat, size: nat)
    requires size > 0
    ensures Slot(k + 1, size) == Advance(Slot(k, size), size)
    ensures PhaseOf(k + 1, size) == if Slot(k, size) + 1 >= size then 1 - PhaseOf(k, size) else PhaseOf(k, size)
  {
    var q, r := k / size, k % size;
    assert k == q * size + r;
    if r + 1 < size {
      DivModUnique(k + 1, size, q, r + 1);
    } else {
      assert (q + 1) * size == q * size + size;
      DivModUnique(k + 1, size, q + 1, 0);
    }
  }

  /** One pass later the slot is the same and the phase the other one. */
  lemma NextPass(k: nat, size: nat)
    requires size > 0
    ensures Slot(k + size, size) == Slot(k, size) && PhaseOf(k + size, size) == 1 - PhaseOf(k, size)
  {
    var q, r := k / size, k % size;
    assert (q + 1) * size == q * size + size;
    DivModUnique(k + size, size, q + 1, r);
  }

  /** Less than a full ring apart, entries lie in different slots. */
  lemma SlotsApart(a: nat, b: nat, size: nat)
    requires size > 0 && a < b < a + size
    ensures Slot(a, size) != Slot(b, size)
  {
    if Slot(a, size) == Slot(b, size) {
      var p, q := a / size, b / size;
      assert b - a == q * size - p * size;
      if p < q { MulGap(p, q, size); } else { MulUp(q, p, size); }
    }
  }

  lemma MulUp(q: nat, p: nat, d: nat)
    requires q <= p
    ensures q * d <= p * d
  {
    if q < p { MulGap(q, p, d); }
  }

  // ---------------------------------------------------------------- the invariant

  /** The counters in the ring are those of the logs. */
  ghost predicate Counted(s: State) {
    var (q, l) := (s.q, s.log);
    && 2 <= q.size <= |q.sq| && q.size <= |q.cq|
    && |l.owner| == |l.written| && |l.seen| <= |l.written| <= |l.taken| <= |l.submitted|
    && q.tail == q.tailBell == Slot(|l.submitted|, q.size) && q.sqHead == Slot(|l.taken|, q.size)
    && q.head == q.headBell == Slot(|l.seen|, q.size) && q.cqTail == Slot(|l.written|, q.size)
    && q.phase == PhaseOf(|l.seen|, q.size) && q.ctrlPhase == PhaseOf(|l.written|, q.size)
    && |l.submitted| - |l.taken| < q.size && |l.written| - |l.seen| < q.size
  }

  /** Commands not yet fetched are still in their slots. */
  ghost predicate SqHolds(s: State) {
    && 0 < s.q.size <= |s.q.sq|
    && forall k: nat :: |s.log.taken| <= k < |s.log.submitted| ==> s.q.sq[Slot(k, s.q.size)] == s.log.submitted[k]
  }

  /** Completions not yet consumed are still in their slots, and every other slot carries the phase of the pass
      before. */
  ghost predicate CqHolds(s: State) {
    && 0 < s.q.size <= |s.q.cq| && |s.log.seen| <= |s.log.written|
    && (forall k: nat :: |s.log.seen| <= k < |s.log.written| ==> s.q.cq[Slot(k, s.q.size)] == s.log.written[k])
    && (forall k: nat :: |s.log.written| <= k < |s.log.seen| + s.q.size ==>
          s.q.cq[Slot(k, s.q.size)].status % 2 == 1 - PhaseOf(k, s.q.size))
  }

  /** Each completion belongs to a fetched command of its own and carries its identifier and pass. */
  ghost predicate Matched(l: Log, size: nat) {
    && size > 0 && |l.owner| == |l.written|
    && (forall k: nat :: k < |l.owner| ==> l.owner[k] < |l.taken| && l.written[k].id == l.taken[l.owner[k]].id)
    && (forall k: nat :: k < |l.owner| ==> l.written[k].status % 2 == PhaseOf(k, size))
    && (forall j: nat, k: nat :: j < k < |l.owner| ==> l.owner[j] != l.owner[k])
  }

  /** The rings refine the logs: nothing is lost, repeated or reordered. */
  ghost predicate Inv(s: State) {
    && Counted(s) && SqHolds(s) && CqHolds(s) && Matched(s.log, s.q.size)
    && s.log.taken <= s.log.submitted && s.log.seen <= s.log.written
  }

  /** Empty rings: the host's fields as nvme.c sets them, the controller's after reset. */
  function Fresh(size: nat, sq: seq<Command>, cq: seq<Completion>): State {
    State(Queue(size, sq, cq, 0, 0, 1, 0, 0, 0, 0, 1), Log([], [], [], [], []))
  }

  /** A fresh queue pair is consistent exactly when no completion slot of its ring still carries phase 1. */
  lemma FreshInv(size: nat, sq: seq<Command>, cq: seq<Completion>)
    requires 2 <= size <= |sq| && size <= |cq|
    ensures Inv(Fresh(size, sq, cq)) <==> forall i :: 0 <= i < size ==> cq[i].status % 2 == 0
  {
    FirstSlot(size);
    var s := Fresh(size, sq, cq);
    forall k: nat | k < size ensures Slot(k, size) == k && PhaseOf(k, size) == 1 {
      DivModUnique(k, size, 0, k);
    }
    if CqHolds(s) {
      forall i | 0 <= i < size ensures cq[i].status % 2 == 0 {
        assert Slot(i, size) == i;
      }
    }
  }

  // ---------------------------------------------------------------- every step keeps the invariant

  /** The poll test succeeds exactly when a posted completion has not been consumed. */
  lemma NewEntryIff(s: State)
    requires Inv(s)
    ensures NewEntry(s.q) <==> |s.log.seen| < |s.log.written|
    ensures NewEntry(s.q) ==> s.q.cq[s.q.head] == s.log.written[|s.log.seen|]
  {
    hide Slot, PhaseOf;
    var c, size := |s.log.seen|, s.q.size;
    if c < |s.log.written| {
      assert s.q.cq[Slot(c, size)] == s.log.written[c];
    } else {
      assert s.q.cq[Slot(c, size)].status % 2 == 1 - PhaseOf(c, size);
    }
  }

  /** Storing one more command leaves the tail behind the controller's head. */
  predicate HasRoom(q: Queue) {
    Advance(q.tail, q.size) != q.sqHead
  }

  /** The two ring indices tell whether fewer than `size - 1` commands wait to be fetched. */
  lemma HasRoomIff(s: State)
    requires Inv(s)
    ensures HasRoom(s.q) <==> |s.log.submitted| - |s.log.taken| + 1 < s.q.size
  {
    hide PhaseOf, SqHolds, CqHolds, Matched;
    var n, f, size := |s.log.submitted|, |s.log.taken|, s.q.size;
    NextSlot(n, size);
    if n + 1 == f + size {
      NextPass(f, size);
    } else {
      SlotsApart(f, n + 1, size);
    }
  }

  lemma SubmitKeeps(s: State, c: Command)
    requires Inv(s) && HasRoom(s.q)
    ensures Inv(Submit(s, c))
  {
    HasRoomIff(s);
    hide Slot, PhaseOf;
    var n, size, s' := |s.log.submitted|, s.q.size, Submit(s, c);
    NextSlot(n, size);
    forall k: nat | |s.log.taken| <= k < |s'.log.submitted| ensures s'.q.sq[Slot(k, size)] == s'.log.submitted[k] {
      if k < n { SlotsApart(k, n, size); }
    }
    SameCompletions(s, s');
  }

  /** A submission keeps the rings consistent exactly when the queue has room. Into a full ring it makes the tail
      doorbell meet the controller's head, so the controller fetches nothing although `size` commands wait. */
  lemma SubmitInvIff(s: State, c: Command)
    requires Inv(s)
    ensures Inv(Submit(s, c)) <==> HasRoom(s.q)
    ensures !HasRoom(s.q) ==>
      !Enabled(Submit(s, c), Fetch) && |Submit(s, c).log.submitted| - |s.log.taken| == s.q.size
  {
    HasRoomIff(s);
    if HasRoom(s.q) { SubmitKeeps(s, c); }
  }

  lemma SameCompletions(s: State, s': State)
    requires CqHolds(s) && s'.q.cq == s.q.cq && s'.q.size == s.q.size
    requires s'.log.written == s.log.written && s'.log.seen == s.log.seen
    ensures CqHolds(s')
  {
  }

  lemma SameCommands(s: State, s': State)
    requires SqHolds(s) && s'.q.sq == s.q.sq && s'.q.size == s.q.size
    requires s'.log.submitted == s.log.submitted && |s'.log.taken| >= |s.log.taken|
    ensures SqHolds(s')
  {
  }

  lemma ConsumeCompletions(s: State)
    requires Inv(s) && |s.log.seen| < |s.log.written|
    ensures CqHolds(Consume(s))
  {
    hide Slot, PhaseOf;
    var c, size, s' := |s.log.seen|, s.q.size, Consume(s);
    assert s.q.cq[Slot(c, size)] == s.log.written[c];
    NextPass(c, size);
    forall k: nat | |s.log.written| <= k < c + 1 + size
      ensures s'.q.cq[Slot(k, size)].status % 2 == 1 - PhaseOf(k, size)
    {
      if k == c + size {
        assert s.log.written[c].status % 2 == PhaseOf(c, size);
      }
    }
  }

  lemma PollInv(s: State)
    requires Inv(s)
    ensures Inv(Poll(s))
  {
    NewEntryIff(s);
    if NewEntry(s.q) {
      ConsumeCompletions(s);
      SameCommands(s, Consume(s));
      hide Slot, PhaseOf, CqHolds, SqHolds;
      NextSlot(|s.log.seen|, s.q.size);
    }
  }

  lemma FetchInv(s: State)
    requires Inv(s) && Enabled(s, Fetch)
    ensures Inv(Act(s, Fetch))
  {
    hide Slot, PhaseOf;
    var f, size := |s.log.taken|, s.q.size;
    assert s.q.sq[Slot(f, size)] == s.log.submitted[f];
    NextSlot(f, size);
    SameCommands(s, Act(s, Fetch));
    SameCompletions(s, Act(s, Fetch));
  }

  /** The head doorbell tells the controller exactly whether the completion ring is full. */
  lemma NotFull(s: State)
    requires Inv(s) && |s.log.written| - |s.log.seen| + 1 >= s.q.size
    ensures Advance(s.q.cqTail, s.q.size) == s.q.headBell
  {
    hide PhaseOf;
    NextSlot(|s.log.written|, s.q.size);
    NextPass(|s.log.seen|, s.q.size);
  }

  lemma PostCompletions(s: State, i: nat, status: nat)
    requires Inv(s) && Enabled(s, Post(i, status)) && |s.log.written| - |s.log.seen| + 1 < s.q.size
    ensures CqHolds(Act(s, Post(i, status)))
  {
    hide Slot, PhaseOf, SqHolds, Matched;
    var p, size, s' := |s.log.written|, s.q.size, Act(s, Post(i, status));
    forall k: nat | |s.log.seen| <= k < p + 1 ensures s'.q.cq[Slot(k, size)] == s'.log.written[k] {
      if k < p { SlotsApart(k, p, size); }
    }
    forall k: nat | p + 1 <= k < |s.log.seen| + size ensures s'.q.cq[Slot(k, size)].status % 2 == 1 - PhaseOf(k, size) {
      SlotsApart(p, k, size);
    }
  }

  lemma MatchedOneMore(l: Log, size: nat, i: nat, entry: Completion)
    requires Matched(l, size) && i < |l.taken| && i !in l.owner
    requires entry.id == l.taken[i].id && entry.status % 2 == PhaseOf(|l.written|, size)
    ensures Matched(l.(written := l.written + [entry], owner := l.owner + [i]), size) && |l.written| < |l.taken|
  {
    hide PhaseOf;
    var owner := l.owner + [i];
    forall j: nat, k: nat | j < k < |owner| ensures owner[j] != owner[k] {
      if k == |l.owner| { assert owner[j] in l.owner; }
    }
    Pigeonhole(owner, |l.taken|);
  }

  lemma PostMatched(s: State, i: nat, status: nat)
    requires Inv(s) && Enabled(s, Post(i, status))
    ensures Matched(Act(s, Post(i, status)).log, s.q.size) && |s.log.written| < |s.log.taken|
  {
    hide Slot, PhaseOf, CqHolds, SqHolds, Matched;
    MatchedOneMore(s.log, s.q.size, i, Completion(s.log.taken[i].id, 2 * status + s.q.ctrlPhase));
  }

  lemma PostInv(s: State, i: nat, status: nat)
    requires Inv(s) && Enabled(s, Post(i, status))
    ensures Inv(Act(s, Post(i, status)))
  {
    if |s.log.written| - |s.log.seen| + 1 >= s.q.size { NotFull(s); }
    PostCompletions(s, i, status);
    PostMatched(s, i, status);
    SameCommands(s, Act(s, Post(i, status)));
    hide Slot, PhaseOf, CqHolds, SqHolds, Matched;
    NextSlot(|s.log.written|, s.q.size);
  }

  /** There are at most `n` distinct numbers below `n`. */
  lemma {:induction false} Pigeonhole(xs: seq<nat>, n: nat)
    requires forall k: nat :: k < |xs| ==> xs[k] < n
    requires forall j: nat, k: nat :: j < k < |xs| ==> xs[j] != xs[k]
    ensures |xs| <= n
    decreases n
  {
    if xs == [] {
    } else if k: nat :| k < |xs| && xs[k] == n - 1 {
      var rest := xs[..k] + xs[k + 1..];
      forall j: nat | j < |rest| ensures rest[j] == xs[if j < k then j else j + 1] && rest[j] < n - 1 {
      }
      Pigeonhole(rest, n - 1);
    } else {
      assert xs[0] < n;
      Pigeonhole(xs, n - 1);
    }
  }

  lemma ActInv(s: State, d: Device)
    requires Inv(s)
    ensures Inv(Act(s, d))
  {
    if Enabled(s, d) {
      match d
      case Rest =>
      case Fetch => FetchInv(s);
      case Post(i, status) => PostInv(s, i, status);
    }
  }

  // ---------------------------------------------------------------- runs

  datatype Event = SubmitEvent(c: Command) | PollEvent | DeviceEvent(d: Device)

  /** The host's obligation: it submits only into a ring with room. The controller has none. */
  predicate Legal(s: State, e: Event) {
    e.SubmitEvent? ==> HasRoom(s.q)
  }

  ghost function Step(s: State, e: Event): State
    requires Inv(s)
  {
    match e
    case SubmitEvent(c) => Submit(s, c)
    case PollEvent => Poll(s)
    case DeviceEvent(d) => Act(s, d)
  }

  lemma StepInv(s: State, e: Event)
    requires Inv(s) && Legal(s, e)
    ensures Inv(Step(s, e))
  {
    match e
    case SubmitEvent(c) => SubmitKeeps(s, c);
    case PollEvent => PollInv(s);
    case DeviceEvent(d) => ActInv(s, d);
  }

  /** Histories only grow. */
  ghost predicate Extended(l: Log, l': Log) {
    l.submitted <= l'.submitted && l.taken <= l'.taken && l.written <= l'.written && l.seen <= l'.seen
  }

  lemma StepExtends(s: State, e: Event)
    requires Inv(s)
    ensures Extended(s.log, Step(s, e).log)
  {
    hide Slot, PhaseOf, CqHolds, SqHolds, Matched;
  }

  lemma ExtendedTwice(l0: Log, l1: Log, l2: Log)
    ensures Extended(l0, l0)
    ensures Extended(l0, l1) && Extended(l1, l2) ==> Extended(l0, l2)
  {
  }

  /** Every submission of the run finds room. */
  ghost predicate LegalRun(s: State, es: seq<Event>)
    requires Inv(s)
    decreases |es|
  {
    es == [] || (Legal(s, es[0]) && (StepInv(s, es[0]); LegalRun(Step(s, es[0]), es[1..])))
  }

  ghost function RunAll(s: State, es: seq<Event>): State
    requires Inv(s) && LegalRun(s, es)
    decreases |es|
  {
    if es == [] then s
    else
      StepInv(s, es[0]);
      RunAll(Step(s, es[0]), es[1..])
  }

  /** Under every interleaving of host and controller in which the host leaves a slot free, the rings are FIFO: what
      the controller has read is a prefix of what was submitted, what the host has consumed is a prefix of what was
      posted, and both histories only grow, across any number of wraps. */
  lemma {:induction false} RingsAreFifo(s: State, es: seq<Event>)
    requires Inv(s) && LegalRun(s, es)
    ensures var r := RunAll(s, es);
      && Inv(r) && r.log.taken <= r.log.submitted && r.log.seen <= r.log.written
      && Extended(s.log, r.log)
      && (NewEntry(r.q) <==> r.log.seen != r.log.written)
    decreases |es|
  {
    if es == [] {
      NewEntryIff(s);
    } else {
      StepInv(s, es[0]);
      StepExtends(s, es[0]);
      hide Inv, NewEntry, Legal, Step, Extended;
      ExtendedTwice(s.log, Step(s, es[0]).log, RunAll(s, es).log);
      RingsAreFifo(Step(s, es[0]), es[1..]);
    }
  }

  // ---------------------------------------------------------------- calls that wait for their completion

  /** The rest of a call to NVMe_WaitForCompletion: before each poll the controller makes the next step of `ds`. The
      result says whether the call has returned by the end of `ds`. */
  function Wait(s: State, cid: nat, ds: seq<Device>): (State, bool)
    decreases |ds|
  {
    if ds == [] then (s, false)
    else
      var s1 := Act(s, ds[0]);
      if s1.q.head >= |s1.q.cq| then (s1, false)
      else if !NewEntry(s1.q) then Wait(s1, cid, ds[1..])
      else if s1.q.cq[s1.q.head].id == cid then (Consume(s1), true)
      else Wait(Consume(s1), cid, ds[1..])
  }

  /** Commands have completed in the order of submission, and all that were submitted have been consumed. */
  ghost predicate Quiet(s: State) {
    Inv(s) && InOrder(s) && |s.log.seen| == |s.log.submitted|
  }

  ghost predicate InOrder(s: State) {
    forall k: nat :: k < |s.log.owner| ==> s.log.owner[k] == k
  }

  /** One command, with identifier `cid`, has been submitted and its completion not consumed. */
  ghost predicate Outstanding(s: State, cid: nat) {
    && Inv(s) && InOrder(s) && |s.log.submitted| == |s.log.seen| + 1
    && s.log.submitted[|s.log.seen|].id == cid
  }

  lemma FreshQuiet(size: nat, sq: seq<Command>, cq: seq<Completion>)
    requires 2 <= size <= |sq| && size <= |cq| && forall i :: 0 <= i < size ==> cq[i].status % 2 == 0
    ensures Quiet(Fresh(size, sq, cq))
  {
    FreshInv(size, sq, cq);
  }

  lemma SubmitQuiet(s: State, c: Command)
    requires Quiet(s)
    ensures HasRoom(s.q) && Outstanding(Submit(s, c), c.id)
  {
    HasRoomIff(s);
    SubmitKeeps(s, c);
    hide Slot, PhaseOf, CqHolds, SqHolds;
  }

  /** While one command is outstanding the controller can only complete that one. */
  lemma ActOutstanding(s: State, cid: nat, d: Device)
    requires Outstanding(s, cid)
    ensures Outstanding(Act(s, d), cid)
    ensures Act(s, d).log.submitted == s.log.submitted && Act(s, d).log.seen == s.log.seen
  {
    ActInv(s, d);
    hide Slot, PhaseOf, CqHolds, SqHolds;
    var s' := Act(s, d);
    forall k: nat | k < |s.log.owner| ensures k in s.log.owner {
      assert s.log.owner[k] == k;
    }
    forall k: nat | k < |s'.log.owner| ensures s'.log.owner[k] == k {
      if k == |s.log.owner| { PostMatched(s, d.index, d.status); }
    }
  }

  /** An entry the poll finds while one command is outstanding is that command's completion. */
  lemma AnswerIsOurs(s: State, cid: nat)
    requires Outstanding(s, cid) && NewEntry(s.q)
    ensures s.q.cq[s.q.head].id == cid && s.log.owner[|s.log.seen|] == |s.log.submitted| - 1
    ensures Quiet(Consume(s))
  {
    NewEntryIff(s);
    PollInv(s);
    hide Slot, PhaseOf, CqHolds, SqHolds;
    var n := |s.log.seen|;
    assert s.log.owner[n] == n && s.log.written[n].id == s.log.taken[n].id;
  }

  /** A call submits its command and waits. It never consumes another command's completion; when it returns, the
      completion it consumed is the one of the command it submitted, and nothing is outstanding again; until it
      returns, the controller has not posted that completion. */
  lemma {:induction false} WaitOutstanding(s: State, cid: nat, ds: seq<Device>)
    requires Outstanding(s, cid)
    ensures var (s', done) := Wait(s, cid, ds);
      && s'.log.submitted == s.log.submitted
      && (done ==>
            && Quiet(s') && s'.log.seen[|s.log.seen|].id == cid
            && s'.log.owner[|s.log.seen|] == |s.log.submitted| - 1)
      && (!done ==>
            && Outstanding(s', cid) && s'.log.seen == s.log.seen
            && (ds != [] ==> |s'.log.written| == |s'.log.seen|))
    decreases |ds|
  {
    hide Slot, PhaseOf, CqHolds, SqHolds, Matched, Act, InOrder, Advance;
    if ds != [] {
      var s1 := Act(s, ds[0]);
      ActOutstanding(s, cid, ds[0]);
      NewEntryIff(s1);
      if NewEntry(s1.q) {
        AnswerIsOurs(s1, cid);
      } else {
        WaitOutstanding(s1, cid, ds[1..]);
      }
    }
  }

  /** In `ds` the controller posts command `n` at some point, having fetched a command before if it still must. */
  predicate Serves(ds: seq<Device>, n: nat, fetched: bool)
    decreases |ds|
  {
    ds != [] && ((fetched && IsPost(ds[0], n)) || Serves(ds[1..], n, fetched || ds[0].Fetch?))
  }

  predicate IsPost(d: Device, n: nat) {
    d.Post? && d.index == n
  }

  /** In `ds` the controller fetches a command and later posts the completion of command `n`. */
  ghost predicate Served(ds: seq<Device>, n: nat) {
    exists i: nat, j: nat :: i < j < |ds| && ds[i].Fetch? && IsPost(ds[j], n)
  }

  lemma {:induction false} ServesWhen(ds: seq<Device>, n: nat, j: nat)
    ensures j < |ds| && IsPost(ds[j], n) ==> Serves(ds, n, true)
    ensures forall i: nat :: i < j < |ds| && ds[i].Fetch? && IsPost(ds[j], n) ==> Serves(ds, n, false)
    decreases |ds|
  {
    if ds != [] && j > 0 {
      ServesWhen(ds[1..], n, j - 1);
      forall i: nat | i < j < |ds| && ds[i].Fetch? && IsPost(ds[j], n) ensures Serves(ds, n, false) {
        if i > 0 { assert ds[1..][i - 1] == ds[i]; }
      }
    }
  }

  lemma {:induction false} WhenServes(ds: seq<Device>, n: nat, fetched: bool)
    requires Serves(ds, n, fetched)
    ensures if fetched then exists j: nat :: j < |ds| && IsPost(ds[j], n) else Served(ds, n)
    decreases |ds|
  {
    if !(fetched && IsPost(ds[0], n)) {
      var next := fetched || ds[0].Fetch?;
      WhenServes(ds[1..], n, next);
      if next {
        var j: nat :| j < |ds| - 1 && IsPost(ds[1..][j], n);
        assert IsPost(ds[j + 1], n);
      } else {
        var i: nat, j: nat :| i < j < |ds| - 1 && ds[1..][i].Fetch? && IsPost(ds[1..][j], n);
        assert ds[i + 1].Fetch? && IsPost(ds[j + 1], n);
      }
    }
  }

  /** The controller sees a command waiting exactly when one has not been fetched. */
  lemma FetchIff(s: State)
    requires Inv(s)
    ensures Enabled(s, Fetch) <==> |s.log.taken| < |s.log.submitted|
  {
    hide Slot, PhaseOf, CqHolds, SqHolds, Matched;
    if |s.log.taken| < |s.log.submitted| { SlotsApart(|s.log.taken|, |s.log.submitted|, s.q.size); }
  }

  /** While one command is outstanding and not answered, the controller can post it, once fetched, and no other. */
  lemma PostIff(s: State, cid: nat, i: nat, status: nat)
    requires Outstanding(s, cid) && |s.log.written| == |s.log.seen|
    ensures Enabled(s, Post(i, status)) <==> i == |s.log.submitted| - 1 && |s.log.taken| == |s.log.submitted|
  {
    hide Slot, PhaseOf, CqHolds, SqHolds, Matched;
    if i < |s.log.seen| { assert s.log.owner[i] == i; }
  }

  lemma ActServes(s: State, cid: nat, d: Device)
    requires Outstanding(s, cid) && |s.log.written| == |s.log.seen|
    ensures var n := |s.log.submitted| - 1; var fetched := |s.log.taken| == n + 1; var s' := Act(s, d);
      && (|s'.log.written| > |s.log.seen| <==> fetched && IsPost(d, n))
      && (|s'.log.taken| == n + 1 <==> fetched || d.Fetch?)
  {
    hide Slot, PhaseOf, CqHolds, SqHolds, Matched, InOrder;
    match d
    case Rest =>
    case Fetch => FetchIff(s);
    case Post(i, status) => PostIff(s, cid, i, status);
  }

  /** The wait returns exactly when the controller fetches the command and posts its completion. */
  lemma {:induction false} WaitReturns(s: State, cid: nat, ds: seq<Device>)
    requires Outstanding(s, cid) && |s.log.written| == |s.log.seen|
    ensures Wait(s, cid, ds).1 <==> Serves(ds, |s.log.submitted| - 1, |s.log.taken| == |s.log.submitted|)
    decreases |ds|
  {
    hide Slot, PhaseOf, CqHolds, SqHolds, Matched, Act, InOrder, Advance;
    if ds != [] {
      var s1 := Act(s, ds[0]);
      ActOutstanding(s, cid, ds[0]);
      ActServes(s, cid, ds[0]);
      NewEntryIff(s1);
      if NewEntry(s1.q) { AnswerIsOurs(s1, cid); } else { WaitReturns(s1, cid, ds[1..]); }
    }
  }

  /** A call returns exactly when the controller fetches something and later posts this call's command. */
  lemma CallReturnsIff(s: State, c: Command, ds: seq<Device>)
    requires Quiet(s)
    ensures Wait(Submit(s, c), c.id, ds).1 <==> Served(ds, |s.log.submitted|)
  {
    SubmitQuiet(s, c);
    var s0, n := Submit(s, c), |s.log.submitted|;
    hide Slot, PhaseOf, CqHolds, SqHolds, Matched, Wait, InOrder, Serves, IsPost;
    WaitReturns(s0, c.id, ds);
    if Serves(ds, n, false) { WhenServes(ds, n, false); }
    if Served(ds, n) {
      var i: nat, j: nat :| i < j < |ds| && ds[i].Fetch? && IsPost(ds[j], n);
      ServesWhen(ds, n, j);
    }
  }

  /** A call of NVMe_Read or NVMe_Write: the command, and what the controller does while the host polls. */
  datatype Call = Call(c: Command, ds: seq<Device>)

  /** Calls made one after the other, each once the one before has returned; stops at a call that has not returned. */
  function Calls(s: State, calls: seq<Call>): (State, bool)
    decreases |calls|
  {
    if calls == [] then (s, true)
    else if s.q.tail >= |s.q.sq| then (s, false)
    else
      var (s1, done) := Wait(Submit(s, calls[0].c), calls[0].c.id, calls[0].ds);
      if done then Calls(s1, calls[1..]) else (s1, false)
  }

  /** Completions consumed so far answer the commands in the order they were submitted. */
  ghost predicate Answered(s: State) {
    |s.log.seen| <= |s.log.submitted| && forall k: nat :: k < |s.log.seen| ==> s.log.seen[k].id == s.log.submitted[k].id
  }

  lemma AnsweredInOrder(s: State)
    requires Inv(s) && InOrder(s)
    ensures Answered(s)
  {
    hide Slot, PhaseOf, CqHolds, SqHolds;
    forall k: nat | k < |s.log.seen| ensures s.log.seen[k].id == s.log.submitted[k].id {
      assert s.log.owner[k] == k && s.log.written[k].id == s.log.taken[k].id;
    }
  }

  /** One call: it returns exactly if it is served, and leaves every completion consumed so far answering its command.
      */
  lemma OneCall(s: State, call: Call)
    requires Quiet(s)
    ensures s.q.tail < |s.q.sq|
    ensures var (s1, done) := Wait(Submit(s, call.c), call.c.id, call.ds);
      && (done <==> Served(call.ds, |s.log.submitted|))
      && Inv(s1) && Answered(s1) && |s1.log.submitted| == |s.log.submitted| + 1 <= |s1.log.seen| + 1
      && (done ==> Quiet(s1))
  {
    hide Slot, PhaseOf, CqHolds, SqHolds, Matched, Wait, Served, InOrder, Answered;
    SubmitQuiet(s, call.c);
    WaitOutstanding(Submit(s, call.c), call.c.id, call.ds);
    CallReturnsIff(s, call.c, call.ds);
    AnsweredInOrder(Wait(Submit(s, call.c), call.c.id, call.ds).0);
  }

  lemma AllServed(calls: seq<Call>, n: nat)
    requires calls != [] && Served(calls[0].ds, n)
    ensures (forall k: nat :: k < |calls| ==> Served(calls[k].ds, n + k)) <==>
      forall k: nat :: k < |calls[1..]| ==> Served(calls[1..][k].ds, n + 1 + k)
  {
    hide Served;
    if forall k: nat :: k < |calls[1..]| ==> Served(calls[1..][k].ds, n + 1 + k) {
      forall k: nat | k < |calls| ensures Served(calls[k].ds, n + k) {
        if k > 0 { assert Served(calls[1..][k - 1].ds, n + 1 + (k - 1)); }
      }
    }
    if forall k: nat :: k < |calls| ==> Served(calls[k].ds, n + k) {
      forall k: nat | k < |calls[1..]| ensures Served(calls[1..][k].ds, n + 1 + k) {
        assert Served(calls[k + 1].ds, n + (k + 1));
      }
    }
  }

  /** Over any sequence of calls, with the same identifiers reused for ever, at most one command is outstanding and each
      call ends with the completion of its own command; all calls return exactly when the controller serves each. */
  lemma {:induction false} CallsAnswered(s: State, calls: seq<Call>)
    requires Quiet(s)
    ensures var (s', done) := Calls(s, calls);
      && Inv(s') && Answered(s') && |s'.log.submitted| <= |s'.log.seen| + 1
      && (done ==> Quiet(s') && |s'.log.submitted| == |s.log.submitted| + |calls|)
      && (done <==> forall k: nat :: k < |calls| ==> Served(calls[k].ds, |s.log.submitted| + k))
    decreases |calls|
  {
    if calls == [] {
      AnsweredInOrder(s);
    } else {
      OneCall(s, calls[0]);
      var s1 := Wait(Submit(s, calls[0].c), calls[0].c.id, calls[0].ds).0;
      hide Inv, InOrder, Submit, Wait, Served, Answered;
      if Served(calls[0].ds, |s.log.submitted|) {
        CallsAnswered(s1, calls[1..]);
        AllServed(calls, |s.log.submitted|);
      }
    }
  }

  // ---------------------------------------------------------------- the commands of NVMe_Read and NVMe_Write

  const OP_READ: nat := 0x02
  const OP_WRITE: nat := 0x01
  const READ_ID: nat := 100
  const WRITE_ID: nat := 101

  /** The 64-bit block address split over two 32-bit words, and the 32-bit block count as a 16-bit number one less. */
  function Transfer(opcode: nat, id: nat, nsid: nat, lba: nat, buffer: nat, count: nat): Command {
    Command(opcode, id, nsid, buffer, lba % DWORD, (lba / DWORD) % DWORD, ((count + DWORD - 1) % DWORD) % 0x1_0000)
  }

  function StartBlock(c: Command): nat { c.cdw11 * DWORD + c.cdw10 }

  function BlockCount(c: Command): nat { c.cdw12 + 1 }

  /** What the controller reads out of the command: the operation, namespace and buffer asked for, the whole 64-bit
      start block, and a count that is the one asked for modulo 65536, so exactly that one for 1 to 65536 blocks. */
  lemma TransferDecodes(opcode: nat, id: nat, nsid: nat, lba: nat, buffer: nat, count: nat)
    requires lba < WORD && count < DWORD
    ensures var c := Transfer(opcode, id, nsid, lba, buffer, count);
      && c.opcode == opcode && c.id == id && c.nsid == nsid && c.prp1 == buffer && StartBlock(c) == lba
      && 1 <= BlockCount(c) <= 0x1_0000 && (BlockCount(c) - count) % 0x1_0000 == 0
      && (BlockCount(c) == count <==> 1 <= count <= 0x1_0000)
  {
    var c := Transfer(opcode, id, nsid, lba, buffer, count);
    if count == 0 {
      assert (count + DWORD - 1) % DWORD == DWORD - 1;
    } else {
      assert (count + DWORD - 1) % DWORD == count - 1;
    }
  }
}
