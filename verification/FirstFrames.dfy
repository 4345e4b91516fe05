/** The interrupt frame each new task starts from, from the EXEC that builds it on the task's kernel stack until the
    switch or termination that first resumes the task. */
module FirstFrames {
  import opened Bits
  import opened PageAllocation
  import opened PageTree
  import opened PageTables
  import opened Scheduling
  import opened Ownership
  import TaskTable

  /** Where a task that has not run yet starts, and the page of its kernel stack. */
  datatype Start = Start(entry: nat, page: nat)

  /** Task `t` waits, and the frame it will be resumed with is its entry frame, intact, on its own kernel stack: it
      starts at its function, on the top of its own user stack. */
  ghost predicate FrameReady(mem: seq<nat>, k: Kernel, t: nat, start: Start) {
    && t < k.sched.total && Ready(k.sched, t)
    && start.page in k.owner && k.owner[start.page] == KernelStack(t)
    && start.page < MAX_PAGES && |mem| == MAX_PAGES * ENTRIES
    && k.sched.tasks[t].rsp == InitialRsp(start.page * PAGE_SIZE)
    && HoldsFrame(mem, start.page, start.entry, k.sched.tasks[t].stackBase + k.sched.tasks[t].stackPages * PAGE_SIZE)
  }

  /** The top of page `q` is the frame of a task that starts at `entry`. */
  ghost predicate HoldsFrame(mem: seq<nat>, q: nat, entry: nat, stackTop: nat) {
    && InitialRsp(q * PAGE_SIZE) / 8 + FRAME_WORDS <= |mem|
    && TaskTable.FrameAt(mem, InitialRsp(q * PAGE_SIZE)) == TaskTable.EntryFrame(entry, stackTop)
  }

  ghost predicate FramesReady(mem: seq<nat>, k: Kernel, starts: map<nat, Start>) {
    forall t :: t in starts ==> FrameReady(mem, k, t, starts[t])
  }

  /** Memory is unchanged on page `q`. */
  ghost predicate PageKept(mem: seq<nat>, mem': seq<nat>, q: nat) {
    |mem'| == |mem| && forall i: nat :: i < |mem| && i / ENTRIES == q ==> mem'[i] == mem[i]
  }

  lemma FrameKept(mem: seq<nat>, mem': seq<nat>, q: nat, entry: nat, stackTop: nat)
    requires HoldsFrame(mem, q, entry, stackTop) && PageKept(mem, mem', q)
    ensures HoldsFrame(mem', q, entry, stackTop)
  {
    var low := InitialRsp(q * PAGE_SIZE) / 8;
    assert low == q * ENTRIES + 490;
    forall i | low <= i < low + FRAME_WORDS ensures mem'[i] == mem[i] {
      DivModUnique(i, ENTRIES, q, i - q * ENTRIES);
    }
    assert TaskTable.FrameAt(mem', InitialRsp(q * PAGE_SIZE)) == TaskTable.FrameAt(mem, InitialRsp(q * PAGE_SIZE));
  }

  /** Frames survive a step that leaves the waiting tasks, their kernel stacks' owners and those pages alone. */
  lemma FramesSurvive(mem: seq<nat>, mem': seq<nat>, k: Kernel, k': Kernel, starts: map<nat, Start>,
    starts': map<nat, Start>)
    requires FramesReady(mem, k, starts) && OwnersKept(k, k')
    requires forall t :: t in starts' ==> t in starts && starts'[t] == starts[t]
    requires forall t :: t in starts' ==>
      t < k'.sched.total && Ready(k'.sched, t) && k'.sched.tasks[t] == k.sched.tasks[t]
    requires forall t :: t in starts' ==> PageKept(mem, mem', starts'[t].page)
    ensures FramesReady(mem', k', starts')
  {
    hide HoldsFrame, PageKept;
    forall t | t in starts' ensures FrameReady(mem', k', t, starts'[t]) {
      var task := k.sched.tasks[t];
      assert FrameReady(mem, k, t, starts[t]);
      FrameKept(mem, mem', starts[t].page, starts[t].entry, task.stackBase + task.stackPages * PAGE_SIZE);
      assert |mem'| == |mem| by { assert PageKept(mem, mem', starts'[t].page); SameLength(mem, mem', starts'[t].page); }
    }
  }

  lemma SameLength(mem: seq<nat>, mem': seq<nat>, q: nat)
    requires PageKept(mem, mem', q)
    ensures |mem'| == |mem|
  {
  }

  // ---------------------------------------------------------------- switch and termination

  lemma ReadyStays(s: Sched, e: Scheduling.Event, t: nat)
    requires Scheduling.Ok(s) && t < s.total && Ready(s, t) && !e.Add?
    ensures var s' := Scheduling.Step(s, e).0;
      t < s'.total && s'.tasks[t] == s.tasks[t] && (t == s'.current || Ready(s', t))
  {
    KeepsContext(s, e, t);
    Scheduling.StepOk(s, e);
  }

  lemma SwitchFrames(boot: set<nat>, mem: seq<nat>, k: Kernel, starts: map<nat, Start>, frame: nat)
    requires Ownership.Ok(boot, k) && FramesReady(mem, k, starts)
    ensures var k' := Ownership.Switch(k, frame);
      FramesReady(mem, k', starts - {k'.sched.current})
  {
    var k' := Ownership.Switch(k, frame);
    forall t | t in starts
      ensures t < k'.sched.total && k'.sched.tasks[t] == k.sched.tasks[t] &&
        (t == k'.sched.current || Ready(k'.sched, t))
    {
      ReadyStays(k.sched, Switched(frame), t);
    }
    hide FrameReady, Ownership.Ok;
    FramesSurvive(mem, mem, k, k', starts, starts - {k'.sched.current});
  }

  lemma TerminateFrames(boot: set<nat>, mem: seq<nat>, k: Kernel, starts: map<nat, Start>, frame: nat)
    requires Ownership.Ok(boot, k) && FramesReady(mem, k, starts)
    ensures var k' := Ownership.Terminate(k, frame);
      FramesReady(mem, k', starts - {k'.sched.current})
  {
    var k' := Ownership.Terminate(k, frame);
    forall t | t in starts
      ensures t < k'.sched.total && k'.sched.tasks[t] == k.sched.tasks[t] &&
        (t == k'.sched.current || Ready(k'.sched, t))
    {
      ReadyStays(k.sched, Terminated(frame), t);
    }
    TerminateOwners(boot, k, frame);
    hide FrameReady, Ownership.Ok;
    FramesSurvive(mem, mem, k, k', starts, starts - {k'.sched.current});
  }

  /** Returning to the frame at `rsp` runs the current task in user mode from `entry`, on the top of its user stack,
      with interrupts on and all registers zero. */
  ghost predicate Enters(mem: seq<nat>, s: Sched, rsp: nat, entry: nat) {
    && rsp / 8 + FRAME_WORDS <= |mem| && s.current < |s.tasks|
    && var task, c := s.tasks[s.current], TaskTable.Restored(mem, rsp);
       && c.rip == entry && c.rsp == task.stackBase + task.stackPages * PAGE_SIZE
       && c.cs % 4 == 3 && c.cs / 8 == TaskTable.USER_CODE_INDEX && c.ss % 4 == 3 &&
         c.ss / 8 == TaskTable.USER_DATA_INDEX
       && c.rflags == 0x200 + 2 && |c.regs| == 15 && forall i :: 0 <= i < |c.regs| ==> c.regs[i] == 0
  }

  /** A task resumed for the first time starts in user mode at its function, on the top of its own user stack. */
  lemma FirstResume(boot: set<nat>, mem: seq<nat>, k: Kernel, starts: map<nat, Start>, e: Scheduling.Event)
    requires Ownership.Ok(boot, k) && FramesReady(mem, k, starts) && !e.Add?
    ensures var (s', rsp) := Scheduling.Step(k.sched, e);
      s'.current in starts ==> Enters(mem, s', rsp, starts[s'.current].entry)
  {
    var (s', rsp) := Scheduling.Step(k.sched, e);
    if s'.current in starts {
      assert FrameReady(mem, k, s'.current, starts[s'.current]);
      assert Effective(k.sched, e);
      ResumeReturnsSaved(k.sched, e);
      ReadyStays(k.sched, e, s'.current);
      var task := k.sched.tasks[s'.current];
      TaskTable.EntryFrameStarts(mem, rsp, starts[s'.current].entry, task.stackBase + task.stackPages * PAGE_SIZE);
    }
  }

  // ---------------------------------------------------------------- EXEC and mappings

  /** The tasks that have not run after EXEC: a new one if it got a slot and a kernel stack. */
  ghost function AfterExec(k: Kernel, starts: map<nat, Start>, entry: nat, pages: nat): map<nat, Start> {
    var (st1, stack) := Alloc(k.tree.st, pages);
    var kstack := Alloc(st1, 1).1;
    if stack == 0 || k.sched.total >= |k.sched.tasks| || kstack == 0 then starts
    else starts[k.sched.total := Start(entry, kstack / PAGE_SIZE)]
  }

  /** What EXEC stores: nothing, or the new task's frame on its kernel stack page. */
  ghost predicate ExecStores(mem: seq<nat>, mem': seq<nat>, k: Kernel, entry: nat, pages: nat) {
    var (st1, stack) := Alloc(k.tree.st, pages);
    if stack == 0 || k.sched.total >= |k.sched.tasks| then mem' == mem
    else TaskTable.FramePushed(mem, mem', Alloc(st1, 1).1, entry, stack + pages * PAGE_SIZE)
  }

  /** The tasks that have not run, told from the tables before and after: a slot newly filled joins them if its task is
      active. */
  ghost function Joined(s: Sched, s': Sched, starts: map<nat, Start>, entry: nat): map<nat, Start> {
    var t := s.total;
    if t < |s'.tasks| && t < s'.total && s'.tasks[t].active then starts[t := Start(entry, s'.tasks[t].rsp / PAGE_SIZE)]
    else starts
  }

  lemma AfterExecIs(boot: set<nat>, k: Kernel, starts: map<nat, Start>, entry: nat, pages: nat)
    requires Ownership.Ok(boot, k)
    ensures AfterExec(k, starts, entry, pages) == Joined(k.sched, Exec(k, pages).sched, starts, entry)
  {
    ExecKernelStack(boot, k, pages);
    FreshRun(boot, k, pages);
    AllocLaw(k.tree.st, pages);
  }

  lemma OtherPage(mem: seq<nat>, mem': seq<nat>, q: nat, p: nat)
    requires OnlyPage(mem, mem', q) && p != q
    ensures PageKept(mem, mem', p)
  {
  }

  /** EXEC leaves every waiting frame alone. */
  lemma ExecKeepsFrames(boot: set<nat>, mem: seq<nat>, mem': seq<nat>, k: Kernel, starts: map<nat, Start>,
    entry: nat, pages: nat)
    requires Ownership.Ok(boot, k) && FramesReady(mem, k, starts) && ExecStores(mem, mem', k, entry, pages)
    ensures FramesReady(mem', Exec(k, pages), starts)
  {
    hide HoldsFrame, TaskTable.StartsUser, TaskTable.Restored, TaskTable.EntryFrame, TaskTable.FrameAt;
    var k' := Exec(k, pages);
    var (st1, stack) := Alloc(k.tree.st, pages);
    var kstack := Alloc(st1, 1).1;
    ExecOwners(boot, k, pages);
    if stack != 0 && k.sched.total < |k.sched.tasks| {
      ExecKernelStack(boot, k, pages);
      forall t | t in starts ensures PageKept(mem, mem', starts[t].page) {
        assert FrameReady(mem, k, t, starts[t]);
        if kstack != 0 { OtherPage(mem, mem', kstack / PAGE_SIZE, starts[t].page); }
      }
    }
    hide HoldsFrame, Ownership.Ok, TaskTable.FramePushed;
    forall t | t in starts ensures t < k'.sched.total && Ready(k'.sched, t) && k'.sched.tasks[t] == k.sched.tasks[t] {
      assert FrameReady(mem, k, t, starts[t]);
    }
    FramesSurvive(mem, mem', k, k', starts, starts);
  }

  /** The new kernel stack is on a page that had no owner, and the new task owns it. */
  lemma ExecKernelStack(boot: set<nat>, k: Kernel, pages: nat)
    requires Ownership.Ok(boot, k)
    ensures var (st1, stack) := Alloc(k.tree.st, pages); var kstack := Alloc(st1, 1).1; var q := kstack / PAGE_SIZE;
      stack != 0 && k.sched.total < |k.sched.tasks| && kstack != 0 ==>
        && q !in k.owner && q < MAX_PAGES && kstack == q * PAGE_SIZE
        && q in Exec(k, pages).owner && Exec(k, pages).owner[q] == KernelStack(k.sched.total)
  {
    FreshRun(boot, k, pages);
    var (st1, stack) := Alloc(k.tree.st, pages);
    if stack != 0 && k.sched.total < |k.sched.tasks| {
      var r := Run(stack / PAGE_SIZE, pages);
      GivePlain(boot, k, r, Leaked);
      var k1 := Kernel(k.tree.(st := st1), k.sched, Give(k.owner, r, Leaked));
      FreshRun(boot, k1, 1);
      var q := Alloc(st1, 1).1 / PAGE_SIZE;
      assert Run(q, 1).Has(q);
      assert q in Run(q, 1).All();
      assert k1.owner.Keys == k.owner.Keys + r.All();
    }
  }

  lemma NewFrameReady(boot: set<nat>, mem: seq<nat>, mem': seq<nat>, k: Kernel, entry: nat, pages: nat)
    requires Ownership.Ok(boot, k) && |mem| == MAX_PAGES * ENTRIES && ExecStores(mem, mem', k, entry, pages)
    requires Alloc(k.tree.st, pages).1 != 0 && k.sched.total < |k.sched.tasks|
    requires Alloc(Alloc(k.tree.st, pages).0, 1).1 != 0
    ensures FrameReady(mem', Exec(k, pages), k.sched.total,
      Start(entry, Alloc(Alloc(k.tree.st, pages).0, 1).1 / PAGE_SIZE))
  {
    hide Alloc, Give, TaskTable.EntryFrame, TaskTable.FrameAt, TaskTable.StartsUser, TaskTable.Restored, OnOwnPages,
      Accounts, TablesOwned, StacksOwned,
      KernelStacksOwned;
    ExecKernelStack(boot, k, pages);
  }

  /** EXEC gives the new task its entry frame and keeps those of the tasks that have not run yet. */
  lemma ExecFrames(boot: set<nat>, mem: seq<nat>, mem': seq<nat>, k: Kernel, starts: map<nat, Start>, entry: nat,
    pages: nat)
    requires Ownership.Ok(boot, k) && FramesReady(mem, k, starts) && ExecStores(mem, mem', k, entry, pages)
    requires |mem| == MAX_PAGES * ENTRIES
    ensures FramesReady(mem', Exec(k, pages), AfterExec(k, starts, entry, pages))
  {
    hide Ownership.Ok, FrameReady, ExecStores, Exec, Alloc;
    ExecKeepsFrames(boot, mem, mem', k, starts, entry, pages);
    var (st1, stack) := Alloc(k.tree.st, pages);
    var kstack := Alloc(st1, 1).1;
    if stack != 0 && k.sched.total < |k.sched.tasks| && kstack != 0 {
      NewFrameReady(boot, mem, mem', k, entry, pages);
    }
  }

  lemma WaitingFrames(mem: seq<nat>, k: Kernel, starts: map<nat, Start>)
    requires FramesReady(mem, k, starts)
    ensures forall t :: t in starts ==>
      t < k.sched.total && Ready(k.sched, t) && starts[t].page in k.owner && k.owner[starts[t].page] == KernelStack(t)
  {
    forall t | t in starts ensures FrameReady(mem, k, t, starts[t]) {
    }
  }

  /** A step that leaves the task table alone and stores only to other pages than kernel stacks. */
  lemma SameTasks(mem: seq<nat>, mem': seq<nat>, k: Kernel, k': Kernel, starts: map<nat, Start>)
    requires FramesReady(mem, k, starts) && OwnersKept(k, k') && k'.sched == k.sched
    requires forall q :: q in k.owner && k.owner[q].KernelStack? ==> PageKept(mem, mem', q)
    ensures FramesReady(mem', k', starts)
  {
    hide OwnersKept, PageKept, FramesReady, Ready;
    WaitingFrames(mem, k, starts);
    FramesSurvive(mem, mem', k, k', starts, starts);
  }

  lemma StackIsNoTable(boot: set<nat>, mem: seq<nat>, mem': seq<nat>, k: Kernel, q: nat)
    requires Ownership.Ok(boot, k) && q in k.owner && k.owner[q].KernelStack? && TablesOnly(mem, mem', k.tree.nodes)
    ensures PageKept(mem, mem', q)
  {
    assert q !in k.tree.nodes.Values;
  }

  /** A mapping stores into tables only, and no kernel stack is on a table's page. */
  lemma MapFrames(boot: set<nat>, mem: seq<nat>, mem': seq<nat>, k: Kernel, starts: map<nat, Start>, p: VPage)
    requires Ownership.Ok(boot, k) && Enough(k.tree, PathNodes(p)) && FramesReady(mem, k, starts)
    requires TablesOnly(mem, mem', Ownership.Map(k, p).tree.nodes)
    ensures FramesReady(mem', Ownership.Map(k, p), starts)
  {
    var k' := Ownership.Map(k, p);
    assert k'.sched == k.sched;
    hide Ownership.Map, Enough, TablesOnly, PageKept, FramesReady, Ownership.Ok;
    MapOk(boot, k, p);
    MapOwners(boot, k, p);
    forall q | q in k.owner && k.owner[q].KernelStack? ensures PageKept(mem, mem', q) {
      StackIsNoTable(boot, mem, mem', k', q);
    }
    SameTasks(mem, mem', k, k', starts);
  }

  lemma ReserveFrames(boot: set<nat>, mem: seq<nat>, k: Kernel, starts: map<nat, Start>, pages: nat)
    requires Ownership.Ok(boot, k) && FramesReady(mem, k, starts)
    ensures FramesReady(mem, Reserve(k, pages), starts)
  {
    var k' := Reserve(k, pages);
    assert k'.sched == k.sched;
    hide Reserve, FramesReady, Ownership.Ok, OwnersKept;
    ReserveOwners(boot, k, pages);
    SameTasks(mem, mem, k, k', starts);
  }
}
