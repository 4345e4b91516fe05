/** schedule.c on values: the task table, the cyclic search for the next task, and what holds of it over every
    interleaving of additions, switches and terminations. */
module Scheduling {
  import opened Bits
  import opened Options
  import opened PageAllocation

  datatype Task = Task(rsp: nat, active: bool, stackBase: nat, stackPages: nat)

  /** `tasks` has MAX_TASKS entries, `total` of them handed out so far. */
  datatype Sched = Sched(tasks: seq<Task>, current: nat, total: nat)

  /** An interrupt frame: 15 registers, the vector, the error code and the five words of iretq. */
  const FRAME_WORDS: nat := 22

  /** The frame pointer of a task that has not run yet: one frame below the top of its kernel stack page. */
  function InitialRsp(kstack: nat): nat {
    kstack + PAGE_SIZE - FRAME_WORDS * 8
  }

  // ---------------------------------------------------------------- operations

  /** Zeroed static data. */
  function Boot(n: nat): Sched {
    Sched(seq(n, _ => Task(0, false, 0, 0)), 0, 0)
  }

  function Init(s: Sched): Sched
    requires |s.tasks| > 0
  {
    var cleared := seq(|s.tasks|, i requires 0 <= i < |s.tasks| => s.tasks[i].(active := false));
    s.(tasks := cleared[0 := cleared[0].(active := true)], total := 1)
  }

  /** The `i`-th index the search looks at. */
  function Probe(s: Sched, i: nat): nat
    requires s.total > 0
  {
    (s.current + i) % s.total
  }

  predicate Ready(s: Sched, idx: nat) {
    idx < |s.tasks| && s.tasks[idx].active && idx != s.current
  }

  /** The first other active task after the current one, in cyclic order. */
  function Search(s: Sched, i: nat): Option<nat>
    requires s.total > 0
    decreases s.total + 1 - i
  {
    if i > s.total then None
    else if Ready(s, Probe(s, i)) then Some(Probe(s, i))
    else Search(s, i + 1)
  }

  function Next(s: Sched): Option<nat>
    requires s.total > 0
  {
    Search(s, 1)
  }

  /** Scheduler_Switch: the new table and the frame to resume. */
  function Switch(s: Sched, frame: nat): (Sched, nat)
    requires s.total > 0 && s.current < |s.tasks|
  {
    match Next(s)
    case None => (s, frame)
    case Some(n) =>
      var saved := s.tasks[s.current := s.tasks[s.current].(rsp := frame)];
      (s.(tasks := saved, current := n), if n < |saved| then saved[n].rsp else 0)
  }

  /** The user stack that terminating the current task gives back, if any. */
  function Freed(s: Sched): Option<Run>
    requires s.current < |s.tasks|
  {
    var t := s.tasks[s.current];
    if s.current != 0 && t.stackBase != 0 && t.stackPages > 0 then
      Some(Run(t.stackBase / PAGE_SIZE, t.stackPages))
    else None
  }

  /** The current task's entry after its resources are freed. */
  function Dead(s: Sched): Sched
    requires s.current < |s.tasks|
  {
    var t := s.tasks[s.current];
    s.(tasks := s.tasks[s.current := t.(active := false, stackBase := if t.stackPages > 0 then 0 else t.stackBase)])
  }

  /** Scheduler_TerminateCurrentTask: the new table and the frame to resume. Task 0 cannot be terminated. */
  function Terminate(s: Sched, frame: nat): (Sched, nat)
    requires s.total > 0 && s.current < |s.tasks|
  {
    if s.current == 0 then (s, frame)
    else
      var d := Dead(s);
      var n := match Next(d) { case None => 0 case Some(n) => n };
      (d.(current := n), if n < |d.tasks| then d.tasks[n].rsp else 0)
  }

  /** Scheduler_AddUserTask, with the address its one-page allocation returned (0 for NULL). A failed
      allocation still uses up the slot. */
  function AddUserTask(s: Sched, stackBase: nat, stackPages: nat, kstack: nat): Sched
    requires s.total < |s.tasks|
  {
    if kstack == 0 then s.(total := s.total + 1)
    else s.(tasks := s.tasks[s.total := Task(InitialRsp(kstack), true, stackBase, stackPages)], total := s.total + 1)
  }

  // ---------------------------------------------------------------- runs

  datatype Event =
    | Add(stackBase: nat, stackPages: nat, kstack: nat)
    | Switched(frame: nat)
    | Terminated(frame: nat)

  /** The table after the event and the frame pointer the handler leaves. */
  function Step(s: Sched, e: Event): (Sched, nat)
    requires s.total > 0 && s.current < |s.tasks|
  {
    match e
    case Add(base, pages, kstack) => (if s.total >= |s.tasks| then s else AddUserTask(s, base, pages, kstack), 0)
    case Switched(f) => Switch(s, f)
    case Terminated(f) => Terminate(s, f)
  }

  /** The current task and task 0 are active; slots not handed out are not. */
  ghost predicate Ok(s: Sched) {
    && s.current < s.total <= |s.tasks|
    && s.tasks[s.current].active && s.tasks[0].active
    && forall i :: s.total <= i < |s.tasks| ==> !s.tasks[i].active
  }

  lemma InitOk(n: nat)
    requires n > 0
    ensures var s := Init(Boot(n));
      Ok(s) && s.current == 0 && s.total == 1 && |s.tasks| == n && forall i :: 0 <= i < n ==>
        (s.tasks[i].active <==> i == 0)
  {
  }

  // ---------------------------------------------------------------- the search

  lemma ProbeIs(s: Sched, i: nat)
    requires s.current < s.total && i <= s.total
    ensures Probe(s, i) == if s.current + i < s.total then s.current + i else s.current + i - s.total
  {
    if s.current + i < s.total {
      DivModUnique(s.current + i, s.total, 0, s.current + i);
    } else {
      DivModUnique(s.current + i, s.total, 1, s.current + i - s.total);
    }
  }

  /** What the search finds: a ready task with no ready task probed before it; None iff no task is ready. */
  lemma {:induction false} SearchLaw(s: Sched, i: nat)
    requires s.current < s.total && 0 < i
    ensures match Search(s, i)
      case Some(n) =>
        && Ready(s, n) && n < s.total
        && exists k :: i <= k <= s.total && n == Probe(s, k) && forall j :: i <= j < k ==> !Ready(s, Probe(s, j))
      case None => forall j :: i <= j <= s.total ==> !Ready(s, Probe(s, j))
    decreases s.total + 1 - i
  {
    if i <= s.total && !Ready(s, Probe(s, i)) {
      SearchLaw(s, i + 1);
    }
  }

  /** Any ready task is probed somewhere, so the search succeeds when there is one. */
  lemma NextExists(s: Sched, idx: nat)
    requires s.current < s.total && idx < s.total && Ready(s, idx)
    ensures Next(s).Some?
  {
    SearchLaw(s, 1);
    var k := if idx > s.current then idx - s.current else idx + s.total - s.current;
    ProbeIs(s, k);
    assert Ready(s, Probe(s, k));
  }

  lemma StepOk(s: Sched, e: Event)
    requires Ok(s)
    ensures Ok(Step(s, e).0) && |Step(s, e).0.tasks| == |s.tasks|
  {
    match e
    case Add(_, _, _) =>
    case Switched(_) => SearchLaw(s, 1);
    case Terminated(_) =>
      if s.current != 0 {
        NextExists(Dead(s), 0);
        SearchLaw(Dead(s), 1);
      }
  }

  ghost function RunAll(s: Sched, es: seq<Event>): (r: Sched)
    requires Ok(s)
    ensures Ok(r) && |r.tasks| == |s.tasks|
    decreases |es|
  {
    if es == [] then s
    else
      var before := RunAll(s, es[..|es| - 1]);
      StepOk(before, es[|es| - 1]);
      Step(before, es[|es| - 1]).0
  }

  /** The "no next task" fallback of terminate is never taken, and the next task is another one. */
  lemma TerminateFindsTask(s: Sched)
    requires Ok(s) && s.current != 0
    ensures Next(Dead(s)).Some? && Next(Dead(s)).value != s.current
  {
    NextExists(Dead(s), 0);
    SearchLaw(Dead(s), 1);
  }

  // ---------------------------------------------------------------- fairness

  /** How far `idx` lies after the current task in cyclic order over the whole table. */
  function Distance(s: Sched, idx: nat): int {
    if idx >= s.current then idx - s.current else idx - s.current + |s.tasks|
  }

  /** The event hands the processor to another task. */
  predicate Effective(s: Sched, e: Event)
    requires s.total > 0 && s.current < |s.tasks|
  {
    match e
    case Add(_, _, _) => false
    case Switched(_) => Next(s).Some?
    case Terminated(_) => s.current != 0
  }

  /** The task after `s.current`'s search comes no later than any waiting task. */
  lemma NextIsNearest(s: Sched, idx: nat)
    requires s.current < s.total <= |s.tasks| && idx < s.total && Ready(s, idx)
    ensures Next(s).Some?
    ensures var n := Next(s).value; n < s.total && n != s.current && Distance(s, n) <= Distance(s, idx)
  {
    NextExists(s, idx);
    SearchLaw(s, 1);
    var n := Next(s).value;
    var k :| 1 <= k <= s.total && n == Probe(s, k) && forall j :: 1 <= j < k ==> !Ready(s, Probe(s, j));
    var m := if idx > s.current then idx - s.current else idx + s.total - s.current;
    ProbeIs(s, m);
    ProbeIs(s, k);
    assert k <= m;
  }

  /** A waiting task comes closer with every effective event and is not moved away by any other. */
  lemma Closer(s: Sched, e: Event, idx: nat)
    requires Ok(s) && idx < s.total && Ready(s, idx)
    ensures var s' := Step(s, e).0;
      && idx < s'.total && s'.tasks[idx].active
      && (Effective(s, e) ==> 0 <= Distance(s', idx) < Distance(s, idx))
      && (!Effective(s, e) ==> s'.current == s.current)
      && (e.Switched? ==> Effective(s, e))
  {
    StepOk(s, e);
    NextIsNearest(s, idx);
    if e.Terminated? && s.current != 0 {
      NextIsNearest(Dead(s), idx);
    }
  }

  /** No task waits for the processor. */
  ghost predicate Alone(s: Sched) {
    forall t: nat :: t < s.total ==> !Ready(s, t)
  }

  /** `n` waits, and no other waiting task comes before it in cyclic order. */
  ghost predicate Nearest(s: Sched, n: nat) {
    && n < s.total && Ready(s, n)
    && forall idx: nat :: idx < s.total && Ready(s, idx) ==> Distance(s, n) <= Distance(s, idx)
  }

  /** `s'` has the tasks of `s` but for one entry. */
  ghost predicate OthersKept(s: Sched, s': Sched, t: nat) {
    && s'.total == s.total && |s'.tasks| == |s.tasks|
    && forall i :: 0 <= i < |s.tasks| && i != t ==> s'.tasks[i] == s.tasks[i]
  }

  /** A switch when no other task is ready changes nothing and resumes the interrupted frame; any other switch saves
      that frame with the current task and resumes the nearest ready task where it left. */
  lemma SwitchLaw(s: Sched, frame: nat)
    requires Ok(s)
    ensures var (s', resumed) := Switch(s, frame);
      if Alone(s) then s' == s && resumed == frame
      else
        && Nearest(s, s'.current) && resumed == s.tasks[s'.current].rsp
        && OthersKept(s, s', s.current) && s'.tasks[s.current] == s.tasks[s.current].(rsp := frame)
  {
    SearchLaw(s, 1);
    forall t: nat | t < s.total && Ready(s, t) ensures Next(s).Some? && Distance(s, Next(s).value) <= Distance(s, t) {
      NextIsNearest(s, t);
    }
  }

  /** Terminating task 0 changes nothing and resumes the frame it was called with; terminating another task makes it
      inactive, takes its user stack from it, and resumes the nearest task left where it left. */
  lemma TerminateLaw(s: Sched, frame: nat)
    requires Ok(s)
    ensures var (s', resumed) := Terminate(s, frame); var dead := s.tasks[s.current];
      if s.current == 0 then s' == s && resumed == frame
      else
        && Nearest(s, s'.current) && resumed == s.tasks[s'.current].rsp && OthersKept(s, s', s.current)
        && !s'.tasks[s.current].active
        && s'.tasks[s.current].stackBase == (if dead.stackPages > 0 then 0 else dead.stackBase)
        && s'.tasks[s.current].rsp == dead.rsp && s'.tasks[s.current].stackPages == dead.stackPages
  {
    if s.current != 0 {
      TerminateFindsTask(s);
      SearchLaw(Dead(s), 1);
      forall t: nat | t < s.total && Ready(s, t) ensures Distance(s, Next(Dead(s)).value) <= Distance(s, t) {
        NextIsNearest(Dead(s), t);
      }
    }
  }

  /** Events that hand the processor to no one leave the table and the frame pointer as they are. */
  lemma IdleStep(s: Sched, e: Event)
    requires Ok(s) && !e.Add? && !Effective(s, e)
    ensures Step(s, e) == (s, e.frame)
  {
  }

  ghost function EffectiveCount(s: Sched, es: seq<Event>): nat
    requires Ok(s)
    decreases |es|
  {
    if es == [] then 0
    else
      var before := RunAll(s, es[..|es| - 1]);
      EffectiveCount(s, es[..|es| - 1]) + (if Effective(before, es[|es| - 1]) then 1 else 0)
  }

  /** The task is the current one at some point of the run. */
  ghost predicate GetsToRun(s: Sched, es: seq<Event>, idx: nat)
    requires Ok(s)
  {
    exists k: nat :: k <= |es| && RunAll(s, es[..k]).current == idx
  }

  lemma {:induction false} WaitShrinks(s: Sched, es: seq<Event>, idx: nat)
    requires Ok(s) && idx < s.total && Ready(s, idx)
    ensures GetsToRun(s, es, idx) || (var r := RunAll(s, es);
      idx < r.total && Ready(r, idx) && 0 < Distance(r, idx) <= Distance(s, idx) - EffectiveCount(s, es))
    decreases |es|
  {
    assert es[..|es|] == es;
    if es != [] {
      var init := es[..|es| - 1];
      WaitShrinks(s, init, idx);
      if GetsToRun(s, init, idx) {
        var k: nat :| k <= |init| && RunAll(s, init[..k]).current == idx;
        assert init[..k] == es[..k];
        assert GetsToRun(s, es, idx);
      } else {
        Closer(RunAll(s, init), es[|es| - 1], idx);
        assert RunAll(s, es[..|es|]) == Step(RunAll(s, init), es[|es| - 1]).0;
      }
    }
  }

  /** Starvation freedom: with additions and terminations freely interleaved, a waiting task runs within
      MAX_TASKS - 1 effective switches or terminations. */
  lemma StarvationFree(s: Sched, es: seq<Event>, idx: nat)
    requires Ok(s) && idx < s.total && Ready(s, idx)
    requires EffectiveCount(s, es) >= |s.tasks| - 1
    ensures GetsToRun(s, es, idx)
  {
    WaitShrinks(s, es, idx);
  }

  // ---------------------------------------------------------------- round robin

  /** The active tasks below `n`, in ascending order. */
  function ActiveBelow(tasks: seq<Task>, n: nat): (a: seq<nat>)
    requires n <= |tasks|
    ensures forall i :: 0 <= i < |a| ==> a[i] < n && tasks[a[i]].active
    ensures forall i, j :: 0 <= i < j < |a| ==> a[i] < a[j]
    ensures forall x :: 0 <= x < n && tasks[x].active ==> x in a
  {
    if n == 0 then []
    else if tasks[n - 1].active then ActiveBelow(tasks, n - 1) + [n - 1]
    else ActiveBelow(tasks, n - 1)
  }

  function Active(s: Sched): seq<nat>
    requires s.total <= |s.tasks|
  {
    ActiveBelow(s.tasks, s.total)
  }

  lemma {:induction false} ActiveBelowSame(tasks: seq<Task>, tasks': seq<Task>, n: nat)
    requires n <= |tasks| == |tasks'| && forall i :: 0 <= i < n ==> tasks'[i].active == tasks[i].active
    ensures ActiveBelow(tasks', n) == ActiveBelow(tasks, n)
  {
    if n > 0 { ActiveBelowSame(tasks, tasks', n - 1); }
  }

  /** Between two neighbours of the active list no task is active. */
  lemma NoActiveBetween(s: Sched, r: nat, x: nat)
    requires s.total <= |s.tasks| && r < |Active(s)| && x < s.total && s.tasks[x].active
    ensures Active(s)[r] < x ==> r + 1 < |Active(s)| && Active(s)[r + 1] <= x
    ensures x < Active(s)[r] ==> Active(s)[0] <= x
    ensures Active(s)[0] <= x
  {
    var a := Active(s);
    var j :| 0 <= j < |a| && a[j] == x;
  }

  /** The next task is the successor of the current one in the ascending list of active tasks, cyclically. */
  lemma NextIsSuccessor(s: Sched, r: nat)
    requires Ok(s) && r < |Active(s)| && Active(s)[r] == s.current && |Active(s)| > 1
    ensures Next(s) == Some(Active(s)[if r + 1 < |Active(s)| then r + 1 else 0])
  {
    var a := Active(s);
    var m := if r + 1 < |a| then r + 1 else 0;
    NextIsNearest(s, a[m]);
    var n := Next(s).value;
    SearchLaw(s, 1);
    NoActiveBetween(s, r, n);
  }

  ghost function Switches(frames: seq<nat>): seq<Event> {
    seq(|frames|, i requires 0 <= i < |frames| => Switched(frames[i]))
  }

  /** A position in a cycle of `k`. */
  function Cyclic(x: nat, k: nat): (c: nat)
    requires k > 0
    ensures c < k
  {
    x % k
  }

  /** After `m` switches from the `r`-th active task the current task is the `Cyclic(r + m, k)`-th of the `k` active
      ones. */
  lemma {:induction false} RoundRobin(s: Sched, frames: seq<nat>, r: nat)
    requires Ok(s) && r < |Active(s)| && Active(s)[r] == s.current
    ensures var s' := RunAll(s, Switches(frames));
      s'.total == s.total && Active(s') == Active(s) && s'.current == Active(s)[Cyclic(r + |frames|, |Active(s)|)]
    decreases |frames|
  {
    hide Switch, Search, ActiveBelow, Cyclic;
    var k := |Active(s)|;
    if frames == [] {
      CyclicStart(r, k);
    } else {
      var init := frames[..|frames| - 1];
      RoundRobin(s, init, r);
      assert Switches(frames)[..|frames| - 1] == Switches(init);
      var before := RunAll(s, Switches(init));
      var q := Cyclic(r + |init|, k);
      OneSwitch(before, frames[|frames| - 1], q);
      CyclicStep(r + |init|, k);
    }
  }

  lemma CyclicStart(r: nat, k: nat)
    requires r < k
    ensures Cyclic(r, k) == r && Cyclic(r + k, k) == r
  {
    DivModUnique(r, k, 0, r);
    DivModUnique(r + k, k, 1, r);
  }

  lemma CyclicStep(x: nat, k: nat)
    requires k > 0
    ensures Cyclic(x + 1, k) == if Cyclic(x, k) + 1 < k then Cyclic(x, k) + 1 else 0
  {
    assert x == (x / k) * k + x % k;
    if x % k + 1 < k {
      DivModUnique(x + 1, k, x / k, x % k + 1);
    } else {
      assert (x / k + 1) * k == (x / k) * k + k;
      DivModUnique(x + 1, k, x / k + 1, 0);
    }
  }

  lemma OneSwitch(s: Sched, frame: nat, r: nat)
    requires Ok(s) && r < |Active(s)| && Active(s)[r] == s.current
    ensures var s' := Switch(s, frame).0;
      s'.total == s.total && Active(s') == Active(s) &&
        s'.current == Active(s)[if r + 1 < |Active(s)| then r + 1 else 0]
  {
    var a, s' := Active(s), Switch(s, frame).0;
    if |a| > 1 {
      NextIsSuccessor(s, r);
      ActiveBelowSame(s.tasks, s'.tasks, s.total);
    } else {
      SearchLaw(s, 1);
      if Next(s).Some? { NoActiveBetween(s, r, Next(s).value); }
    }
  }

  /** Where in a round the `j`-th active task runs, starting from the `r`-th of `k`. */
  function Turn(r: nat, j: nat, k: nat): int {
    if r <= j then j - r else j + k - r
  }

  lemma TurnLaw(r: nat, j: nat, k: nat, m: nat)
    requires r < k && j < k && m < k
    ensures Cyclic(r + m, k) == j <==> m == Turn(r, j, k)
  {
    if r + m < k { DivModUnique(r + m, k, 0, r + m); } else { DivModUnique(r + m, k, 1, r + m - k); }
  }

  /** A full round of `k` switches over `k` active tasks returns to the start, and each active task runs at
      exactly one point of it. */
  lemma FullRound(s: Sched, frames: seq<nat>, r: nat, j: nat)
    requires Ok(s) && r < |Active(s)| == |frames| && Active(s)[r] == s.current && j < |frames|
    ensures RunAll(s, Switches(frames)).current == s.current
    ensures forall m: nat :: m < |frames| ==>
      (RunAll(s, Switches(frames[..m])).current == Active(s)[j] <==> m == Turn(r, j, |frames|))
  {
    hide RunAll, Cyclic, Turn, ActiveBelow;
    var k := |frames|;
    RoundRobin(s, frames, r);
    CyclicStart(r, k);
    forall m: nat | m < k ensures RunAll(s, Switches(frames[..m])).current == Active(s)[j] <==> m == Turn(r, j, k) {
      RoundRobin(s, frames[..m], r);
      TurnLaw(r, j, k, m);
      assert |frames[..m]| == m;
    }
  }

  // ---------------------------------------------------------------- saved contexts

  /** The frame pointer task `t` was last suspended with, read off the history: the frame its last departure by
      a switch was given, or the initial frame if it has not run; 0 if it has no such frame. */
  ghost function LastSaved(s: Sched, es: seq<Event>, t: nat): nat
    requires Ok(s)
    decreases |es|
  {
    if es == [] then 0
    else
      var before, e := RunAll(s, es[..|es| - 1]), es[|es| - 1];
      if e.Switched? && before.current == t && Effective(before, e) then e.frame
      else if e.Add? && before.total == t && t < |before.tasks| && e.kstack != 0 then InitialRsp(e.kstack)
      else LastSaved(s, es[..|es| - 1], t)
  }

  /** Interrupts pass real frames. */
  ghost predicate RealFrames(es: seq<Event>) {
    forall i :: 0 <= i < |es| ==> (es[i].Switched? ==> es[i].frame != 0)
  }

  /** In every run from Scheduler_Init, each active task that is not running holds, nonzero, the frame pointer of
      its last departure; so that is what resuming it returns. */
  lemma {:induction false} SavedContexts(n: nat, es: seq<Event>, t: nat)
    requires n > 0 && RealFrames(es)
    ensures Ok(Init(Boot(n)))
    ensures var r := RunAll(Init(Boot(n)), es);
      t < r.total && Ready(r, t) ==> r.tasks[t].rsp == LastSaved(Init(Boot(n)), es, t) && r.tasks[t].rsp != 0
    decreases |es|
  {
    InitOk(n);
    var s0 := Init(Boot(n));
    if es != [] {
      var init, e := es[..|es| - 1], es[|es| - 1];
      SavedContexts(n, init, t);
      var before := RunAll(s0, init);
      var r := RunAll(s0, es);
      assert r == Step(before, e).0;
      if t < r.total && Ready(r, t) && t != before.current {
        KeepsContext(before, e, t);
      }
      if e.Terminated? && before.current != 0 {
        SearchLaw(Dead(before), 1);
      }
    }
  }

  lemma KeepsContext(s: Sched, e: Event, t: nat)
    requires Ok(s) && t != s.current
    ensures var s' := Step(s, e).0;
      && (t < s.total ==> t < s'.total && s'.tasks[t] == s.tasks[t])
      && (s.total <= t < s'.total && Ready(s', t) ==>
        e.Add? && t == s.total && e.kstack != 0 && s'.tasks[t].rsp == InitialRsp(e.kstack))
  {
  }

  /** A switch or termination resumes a waiting task with the frame pointer it holds. */
  lemma ResumeReturnsSaved(s: Sched, e: Event)
    requires Ok(s) && Effective(s, e)
    ensures var (s', frame) := Step(s, e); Ready(s, s'.current) && frame == s.tasks[s'.current].rsp
  {
    SearchLaw(s, 1);
    if e.Terminated? {
      NextExists(Dead(s), 0);
      SearchLaw(Dead(s), 1);
    }
  }

  /** A terminated task never runs again. */
  lemma {:induction false} DeadStaysDead(s: Sched, es: seq<Event>, t: nat)
    requires Ok(s) && t < s.total && !s.tasks[t].active
    ensures var r := RunAll(s, es); t < r.total && !r.tasks[t].active && r.current != t
    decreases |es|
  {
    if es != [] {
      DeadStaysDead(s, es[..|es| - 1], t);
      KeepsContext(RunAll(s, es[..|es| - 1]), es[|es| - 1], t);
    }
  }

  /** Every task waiting to be resumed has a frame. */
  ghost predicate HaveFrames(s: Sched) {
    forall t: nat :: t < s.total && Ready(s, t) ==> s.tasks[t].rsp != 0
  }

  lemma FramesKept(s: Sched, e: Event)
    requires Ok(s) && HaveFrames(s) && (e.Switched? ==> e.frame != 0)
    ensures HaveFrames(Step(s, e).0)
    ensures Effective(s, e) ==> Step(s, e).1 != 0
  {
    StepOk(s, e);
    var s' := Step(s, e).0;
    if Effective(s, e) { ResumeReturnsSaved(s, e); }
    forall t: nat | t < s'.total && Ready(s', t) ensures s'.tasks[t].rsp != 0 {
      if t != s.current { KeepsContext(s, e, t); }
      if e.Terminated? && s.current != 0 { TerminateFindsTask(s); }
    }
  }
}
