/** Who owns which physical page, over every interleaving of EXEC, task switches, terminations, mappings and
    large allocations. Kernel stacks are never given back, and a failed EXEC leaks its user stack, as in the code. */
module Ownership {
  import opened PageAllocation
  import opened PageTree
  import opened PageTables
  import Scheduling

  datatype Owner =
    | TablePage(node: Node)
    | UserStack(task: nat)
    | KernelStack(task: nat)
    | HeapArena
    | Leaked

  /** The allocator and the page tables, the scheduler, and the owner of each page taken since boot. */
  datatype Kernel = Kernel(tree: Tree, sched: Scheduling.Sched, owner: map<nat, Owner>)

  /** Page `p` belongs to the user stack recorded for the live task `t`. */
  ghost predicate InStack(s: Scheduling.Sched, t: nat, p: nat) {
    && t < s.total && t < |s.tasks| && s.tasks[t].active && s.tasks[t].stackBase != 0
    && Run(s.tasks[t].stackBase / PAGE_SIZE, s.tasks[t].stackPages).Has(p)
  }

  /** The pages in use are those in use at boot and, apart from them, the owned ones; page 0 is never owned. */
  ghost predicate Accounts(boot: set<nat>, k: Kernel) {
    k.tree.st.used == boot + k.owner.Keys && boot !! k.owner.Keys && 0 !in k.owner
  }

  ghost predicate TablesOwned(k: Kernel) {
    && (forall n :: n in k.tree.nodes ==> k.tree.nodes[n] in k.owner && k.owner[k.tree.nodes[n]] == TablePage(n))
    && (forall p :: p in k.owner && k.owner[p].TablePage? ==>
          k.owner[p].node in k.tree.nodes && k.tree.nodes[k.owner[p].node] == p)
  }

  ghost predicate StacksOwned(k: Kernel) {
    forall t, p :: InStack(k.sched, t, p) <==> p in k.owner && k.owner[p] == UserStack(t)
  }

  /** A task has at most one kernel stack page, and only tasks that exist have one. */
  ghost predicate KernelStacksOwned(k: Kernel) {
    && (forall p :: p in k.owner && k.owner[p].KernelStack? ==> k.owner[p].task < k.sched.total)
    && (forall p, q :: p in k.owner && q in k.owner && k.owner[p].KernelStack? && k.owner[q] == k.owner[p] ==> p == q)
  }

  ghost predicate Ok(boot: set<nat>, k: Kernel) {
    && OnOwnPages(k.tree) && Scheduling.Ok(k.sched)
    && Accounts(boot, k) && TablesOwned(k) && StacksOwned(k) && KernelStacksOwned(k)
  }

  // ---------------------------------------------------------------- steps

  function Give(owner: map<nat, Owner>, r: Run, o: Owner): map<nat, Owner> {
    map p | p in owner.Keys + r.All() :: if r.Has(p) then o else owner[p]
  }

  /** SYSCALL_EXEC: the user stack is allocated first, then Scheduler_AddUserTask takes a slot and a kernel stack. */
  ghost function Exec(k: Kernel, pages: nat): Kernel
    requires Scheduling.Ok(k.sched)
  {
    var (st1, stack) := Alloc(k.tree.st, pages);
    if stack == 0 then k
    else
      var r := Run(stack / PAGE_SIZE, pages);
      if k.sched.total >= |k.sched.tasks| then
        Kernel(k.tree.(st := st1), k.sched, Give(k.owner, r, Leaked))
      else
        var (st2, kstack) := Alloc(st1, 1);
        var sched := Scheduling.AddUserTask(k.sched, stack, pages, kstack);
        if kstack == 0 then
          Kernel(k.tree.(st := st2), sched, Give(k.owner, r, Leaked))
        else
          Kernel(k.tree.(st := st2), sched,
                 Give(Give(k.owner, r, UserStack(k.sched.total)), Run(kstack / PAGE_SIZE, 1),
                   KernelStack(k.sched.total)))
  }

  ghost function Switch(k: Kernel, frame: nat): Kernel
    requires Scheduling.Ok(k.sched)
  {
    k.(sched := Scheduling.Switch(k.sched, frame).0)
  }

  /** SYSCALL_TERMINATE and the ESC key: the dying task's user stack goes back to the allocator. */
  ghost function Terminate(k: Kernel, frame: nat): Kernel
    requires Scheduling.Ok(k.sched)
  {
    var sched := Scheduling.Terminate(k.sched, frame).0;
    match Scheduling.Freed(k.sched)
    case None => k.(sched := sched)
    case Some(r) => Kernel(k.tree.(st := FreeRun(k.tree.st, r)), sched, k.owner - r.All())
  }

  /** The table that page `q` holds. */
  ghost function NodeOn(t: Tree, q: nat): Node
    requires TableOn(t, q)
  {
    var n :| n in t.nodes && t.nodes[n] == q; n
  }

  /** The owners of the pages taken between two trees. */
  ghost function NewOwners(before: Tree, t: Tree): map<nat, Owner> {
    map q | q in t.st.used - before.st.used && TableOn(t, q) :: TablePage(NodeOn(t, q))
  }

  /** The kernel after the page tables have grown to `t`. */
  ghost function Grown(k: Kernel, t: Tree): Kernel {
    Kernel(t, k.sched, k.owner + NewOwners(k.tree, t))
  }

  /** PageTable_Map: the tables it creates own their pages. */
  ghost function Map(k: Kernel, p: VPage): Kernel {
    Grown(k, GrowPath(k.tree, p))
  }

  /** The allocation of the kernel heap's arena. */
  ghost function Reserve(k: Kernel, pages: nat): Kernel {
    var (st, a) := Alloc(k.tree.st, pages);
    if a == 0 then k else Kernel(k.tree.(st := st), k.sched, Give(k.owner, Run(a / PAGE_SIZE, pages), HeapArena))
  }

  // ---------------------------------------------------------------- each step keeps ownership straight

  /** A freshly allocated run has no owner and was not in use at boot. */
  lemma FreshRun(boot: set<nat>, k: Kernel, n: nat)
    requires Ok(boot, k)
    ensures var (st, a) := Alloc(k.tree.st, n);
      a != 0 ==> var r := Run(a / PAGE_SIZE, n);
        && 1 <= r.start && a == r.start * PAGE_SIZE && n > 0
        && r.All() !! boot && r.All() !! k.owner.Keys
        && st == k.tree.st.(used := k.tree.st.used + r.All()) && st.Valid()
  {
    AllocLaw(k.tree.st, n);
    var (st, a) := Alloc(k.tree.st, n);
    if a != 0 {
      var r := Run(a / PAGE_SIZE, n);
      assert forall p :: p in r.All() <==> r.Has(p);
    }
  }

  /** Giving a fresh run to an owner that is neither a table nor a stack. */
  lemma GivePlain(boot: set<nat>, k: Kernel, r: Run, o: Owner)
    requires Ok(boot, k) && r.All() !! boot && r.All() !! k.owner.Keys && 1 <= r.start
    requires k.tree.st.(used := k.tree.st.used + r.All()).Valid() && (o == Leaked || o == HeapArena)
    ensures Ok(boot, Kernel(k.tree.(st := k.tree.st.(used := k.tree.st.used + r.All())), k.sched, Give(k.owner, r, o)))
  {
    var k' := Kernel(k.tree.(st := k.tree.st.(used := k.tree.st.used + r.All())), k.sched, Give(k.owner, r, o));
    assert forall p :: p in r.All() <==> r.Has(p);
    assert k'.owner.Keys == k.owner.Keys + r.All();
  }

  lemma ReserveOk(boot: set<nat>, k: Kernel, pages: nat)
    requires Ok(boot, k)
    ensures Ok(boot, Reserve(k, pages))
  {
    FreshRun(boot, k, pages);
    var (st, a) := Alloc(k.tree.st, pages);
    if a != 0 { GivePlain(boot, k, Run(a / PAGE_SIZE, pages), HeapArena); }
  }

  lemma SwitchOk(boot: set<nat>, k: Kernel, frame: nat)
    requires Ok(boot, k)
    ensures Ok(boot, Switch(k, frame))
  {
    Scheduling.StepOk(k.sched, Scheduling.Switched(frame));
    forall t, p ensures InStack(Switch(k, frame).sched, t, p) <==> InStack(k.sched, t, p) {
    }
  }

  /** What a termination does to the table as far as stacks are concerned. */
  lemma TerminateStacks(s: Scheduling.Sched, frame: nat)
    requires Scheduling.Ok(s)
    ensures var s' := Scheduling.Terminate(s, frame).0;
      && Scheduling.Ok(s') && s'.total == s.total
      && (forall t, p :: InStack(s', t, p) <==> InStack(s, t, p) && (s.current == 0 || t != s.current))
    ensures Scheduling.Freed(s).None? ==> s.current == 0 || forall p :: !InStack(s, s.current, p)
    ensures Scheduling.Freed(s).Some? ==>
      s.current != 0 && forall p :: Scheduling.Freed(s).value.Has(p) <==> InStack(s, s.current, p)
  {
    Scheduling.StepOk(s, Scheduling.Terminated(frame));
  }

  /** A termination clears exactly the bits of the dying task's user stack. */
  lemma TerminateOk(boot: set<nat>, k: Kernel, frame: nat)
    requires Ok(boot, k)
    ensures Ok(boot, Terminate(k, frame))
    ensures forall p :: p in Terminate(k, frame).tree.st.used <==>
      p in k.tree.st.used && !(k.sched.current != 0 && InStack(k.sched, k.sched.current, p))
  {
    TerminateStacks(k.sched, frame);
    hide Scheduling.Terminate, InStack;
    var k' := Terminate(k, frame);
    match Scheduling.Freed(k.sched)
    case None =>
    case Some(r) =>
      assert forall p :: p in r.All() <==> r.Has(p);
      assert k'.owner.Keys == k.owner.Keys - r.All();
  }

  lemma NewOwnersLaw(k: Kernel, t: Tree)
    requires OnOwnPages(t) && Extends(k.tree, t, t.nodes.Keys)
    ensures var o := NewOwners(k.tree, t);
      && o.Keys == t.st.used - k.tree.st.used
      && (forall q :: q in o ==> o[q].TablePage? && o[q].node in t.nodes && t.nodes[o[q].node] == q)
      && (forall n :: n in t.nodes && n !in k.tree.nodes ==> t.nodes[n] in o && o[t.nodes[n]] == TablePage(n))
  {
    forall n | n in t.nodes && n !in k.tree.nodes ensures t.nodes[n] in NewOwners(k.tree, t) {
      assert TableOn(t, t.nodes[n]);
    }
  }

  lemma GrownAccounts(boot: set<nat>, k: Kernel, t: Tree)
    requires Accounts(boot, k) && k.tree.st.used <= t.st.used && NewOwners(k.tree, t).Keys == t.st.used - k.tree.st.used
    requires OnOwnPages(t)
    ensures Accounts(boot, Grown(k, t))
  {
  }

  lemma GrownTables(boot: set<nat>, k: Kernel, t: Tree)
    requires Accounts(boot, k) && TablesOwned(k) && OnOwnPages(t) && Extends(k.tree, t, t.nodes.Keys)
    ensures TablesOwned(Grown(k, t))
  {
    NewOwnersLaw(k, t);
    hide NewOwners, OnOwnPages;
  }

  lemma GrownStacks(boot: set<nat>, k: Kernel, t: Tree)
    requires Accounts(boot, k) && StacksOwned(k) && KernelStacksOwned(k)
    requires OnOwnPages(t) && Extends(k.tree, t, t.nodes.Keys)
    ensures StacksOwned(Grown(k, t)) && KernelStacksOwned(Grown(k, t))
  {
    NewOwnersLaw(k, t);
    hide NewOwners, OnOwnPages, Extends, InStack;
  }

  /** Growing the page tables takes pages for the new tables, and for nothing else. */
  lemma GrownOk(boot: set<nat>, k: Kernel, t: Tree)
    requires Ok(boot, k) && OnOwnPages(t) && Extends(k.tree, t, t.nodes.Keys)
    ensures Ok(boot, Grown(k, t))
  {
    NewOwnersLaw(k, t);
    GrownTables(boot, k, t);
    GrownStacks(boot, k, t);
    hide NewOwners, InStack, StacksOwned, KernelStacksOwned, TablesOwned;
    GrownAccounts(boot, k, t);
  }

  lemma MapOk(boot: set<nat>, k: Kernel, p: VPage)
    requires Ok(boot, k) && Enough(k.tree, PathNodes(p))
    ensures Ok(boot, Map(k, p))
  {
    hide GrowPath, Ok, Extends, OnOwnPages, Enough;
    assert OnOwnPages(k.tree) by { OkOnOwnPages(boot, k); }
    GrowPathLaw(k.tree, p, PathNodes(p));
    ExtendsAll(k.tree, GrowPath(k.tree, p), PathNodes(p));
    GrownOk(boot, k, GrowPath(k.tree, p));
  }

  lemma OkOnOwnPages(boot: set<nat>, k: Kernel)
    requires Ok(boot, k)
    ensures OnOwnPages(k.tree)
  {
  }

  /** The stacks after a successful EXEC: the new task's, and the others. */
  lemma AddedStacks(s: Scheduling.Sched, stack: nat, pages: nat, kstack: nat)
    requires Scheduling.Ok(s) && s.total < |s.tasks| && stack != 0
    ensures var s' := Scheduling.AddUserTask(s, stack, pages, kstack);
      && Scheduling.Ok(s') && s'.total == s.total + 1
      && forall t, p :: InStack(s', t, p) <==>
           InStack(s, t, p) || (kstack != 0 && t == s.total && Run(stack / PAGE_SIZE, pages).Has(p))
  {
  }

  /** EXEC's user stack and kernel stack are fresh pages, each with one owner; with no slot or no kernel stack the
      user stack is leaked, and stays marked in use. */
  lemma ExecOk(boot: set<nat>, k: Kernel, pages: nat)
    requires Ok(boot, k)
    ensures Ok(boot, Exec(k, pages))
  {
    FreshRun(boot, k, pages);
    var (st1, stack) := Alloc(k.tree.st, pages);
    if stack != 0 {
      var r := Run(stack / PAGE_SIZE, pages);
      GivePlain(boot, k, r, Leaked);
      if k.sched.total < |k.sched.tasks| {
        ExecTask(boot, k, pages);
      }
    }
  }

  /** `r` is the lowest run of `n` free pages. */
  ghost predicate Lowest(st: Pages, n: nat, r: Run) {
    r.pages == n && Available(st, r) && forall s :: Available(st, Run(s, n)) ==> r.start <= s
  }

  ghost predicate NoRun(st: Pages, n: nat) {
    forall s :: !Available(st, Run(s, n))
  }

  ghost function Using(st: Pages, r: Run): Pages {
    st.(used := st.used + r.All())
  }

  /** The allocator in terms of the runs there are. */
  lemma AllocIs(st: Pages, n: nat)
    requires st.Valid()
    ensures NoRun(st, n) ==> Alloc(st, n) == (st, 0)
    ensures forall r :: Lowest(st, n, r) ==> Alloc(st, n) == (Using(st, r), r.start * PAGE_SIZE)
    ensures NoRun(st, n) || exists r :: Lowest(st, n, r)
    ensures Alloc(st, n).0.Valid()
  {
    AllocLaw(st, n);
    var (st', a) := Alloc(st, n);
    if a != 0 { assert Lowest(st, n, Run(a / PAGE_SIZE, n)); }
    forall r | Lowest(st, n, r) ensures a != 0 && r == Run(a / PAGE_SIZE, n) {
      assert Available(st, Run(r.start, n));
    }
  }

  /** The pages of `r` belong to `o`, and every other page to whom it belonged. */
  ghost predicate Given(k: Kernel, k': Kernel, r: Run, o: Owner) {
    && k'.owner.Keys == k.owner.Keys + r.All()
    && forall p :: p in k'.owner ==> k'.owner[p] == if r.Has(p) then o else k.owner[p]
  }

  /** EXEC, case by case. Without a run for the user stack nothing happens. Otherwise the lowest one is taken: leaked if
      the task table is full, and leaked together with a slot if there is no page for the kernel stack; else the
      lowest remaining page becomes the kernel stack, and the new task is active and owns both. */
  lemma ExecLaw(boot: set<nat>, k: Kernel, pages: nat)
    requires Ok(boot, k)
    ensures var k', t := Exec(k, pages), k.sched.total;
      && k'.tree.nodes == k.tree.nodes
      && (NoRun(k.tree.st, pages) ==> k' == k)
      && forall r :: Lowest(k.tree.st, pages, r) ==>
           if t == |k.sched.tasks| then
             k'.tree.st == Using(k.tree.st, r) && k'.sched == k.sched && Given(k, k', r, Leaked)
           else if NoRun(Using(k.tree.st, r), 1) then
             && k'.tree.st == Using(k.tree.st, r) && k'.sched == k.sched.(total := t + 1) && Given(k, k', r, Leaked)
             && !k'.sched.tasks[t].active
           else
             exists q :: Lowest(Using(k.tree.st, r), 1, q) && TaskStarted(k, k', r, q)
  {
    hide Alloc;
    AllocIs(k.tree.st, pages);
    forall r | Lowest(k.tree.st, pages, r)
      ensures Alloc(k.tree.st, pages) == (Using(k.tree.st, r), r.start * PAGE_SIZE) && r.start > 0
      ensures r.start * PAGE_SIZE / PAGE_SIZE == r.start
      ensures (forall p :: p in r.All() <==> r.Has(p)) && Using(k.tree.st, r).Valid()
    {
    }
    forall r | Lowest(k.tree.st, pages, r) && k.sched.total < |k.sched.tasks| && !NoRun(Using(k.tree.st, r), 1)
      ensures exists q :: Lowest(Using(k.tree.st, r), 1, q) && TaskStarted(k, Exec(k, pages), r, q)
    {
      ExecStarts(k, pages, r);
    }
    forall r | Lowest(k.tree.st, pages, r)
      ensures NoRun(Using(k.tree.st, r), 1) ==> Alloc(Using(k.tree.st, r), 1) == (Using(k.tree.st, r), 0)
    {
      AllocIs(Using(k.tree.st, r), 1);
    }
  }

  /** Task `t`, active, starts with user stack `r` and kernel stack page `q`. */
  ghost predicate TaskStarted(k: Kernel, k': Kernel, r: Run, q: Run) {
    var t := k.sched.total;
    && k'.tree.st == Using(Using(k.tree.st, r), q)
    && k'.sched.total == t + 1 && |k'.sched.tasks| == |k.sched.tasks| > t && k'.sched.current == k.sched.current
    && (forall i :: 0 <= i < |k.sched.tasks| && i != t ==> k'.sched.tasks[i] == k.sched.tasks[i])
    && k'.sched.tasks[t].active && k'.sched.tasks[t].stackBase == r.start * PAGE_SIZE
    && k'.sched.tasks[t].stackPages == r.pages
    && k'.owner.Keys == k.owner.Keys + r.All() + q.All()
    && forall p :: p in k'.owner ==>
         k'.owner[p] == if q.Has(p) then KernelStack(t) else if r.Has(p) then UserStack(t) else k.owner[p]
  }

  lemma ExecStarts(k: Kernel, pages: nat, r: Run)
    requires Scheduling.Ok(k.sched) && k.tree.st.Valid()
    requires Lowest(k.tree.st, pages, r) && k.sched.total < |k.sched.tasks| && !NoRun(Using(k.tree.st, r), 1)
    ensures exists q :: Lowest(Using(k.tree.st, r), 1, q) && TaskStarted(k, Exec(k, pages), r, q)
  {
    hide Alloc, NoRun, Lowest;
    AllocIs(k.tree.st, pages);
    AllocIs(Using(k.tree.st, r), 1);
    var q :| Lowest(Using(k.tree.st, r), 1, q);
    LowestStart(k.tree.st, pages, r);
    LowestStart(Using(k.tree.st, r), 1, q);
    assert TaskStarted(k, Exec(k, pages), r, q);
  }

  lemma LowestStart(st: Pages, n: nat, r: Run)
    requires Lowest(st, n, r)
    ensures r.start > 0 && r.pages == n && r.start * PAGE_SIZE / PAGE_SIZE == r.start
    ensures forall p :: p in r.All() <==> r.Has(p)
  {
  }

  /** The owners after a fresh run and a fresh page have been given away. */
  lemma GiveTwice(owner: map<nat, Owner>, r: Run, o: Owner, q: nat, o': Owner)
    requires !r.Has(q)
    ensures var owner' := Give(Give(owner, r, o), Run(q, 1), o');
      && owner'.Keys == owner.Keys + r.All() + Run(q, 1).All()
      && (forall p :: p in owner' ==> owner'[p] == if p == q then o' else if r.Has(p) then o else owner[p])
      && (forall p :: p in Run(q, 1).All() <==> p == q) && (forall p :: p in r.All() <==> r.Has(p))
  {
    assert forall p :: p in Run(q, 1).All() <==> Run(q, 1).Has(p);
    assert forall p :: p in r.All() <==> r.Has(p);
  }

  lemma ExecTask(boot: set<nat>, k: Kernel, pages: nat)
    requires Ok(boot, k) && k.sched.total < |k.sched.tasks| && Alloc(k.tree.st, pages).1 != 0
    requires Ok(boot, Kernel(k.tree.(st := Alloc(k.tree.st, pages).0), k.sched,
      Give(k.owner, Run(Alloc(k.tree.st, pages).1 / PAGE_SIZE, pages), Leaked)))
    ensures Ok(boot, Exec(k, pages))
  {
    FreshRun(boot, k, pages);
    var (st1, stack) := Alloc(k.tree.st, pages);
    var r := Run(stack / PAGE_SIZE, pages);
    var k1 := Kernel(k.tree.(st := st1), k.sched, Give(k.owner, r, Leaked));
    FreshRun(boot, k1, 1);
    var (st2, kstack) := Alloc(st1, 1);
    AddedStacks(k.sched, stack, pages, kstack);
    var sched := Scheduling.AddUserTask(k.sched, stack, pages, kstack);
    if kstack == 0 {
      AllocLaw(st1, 1);
      SlotLeaked(boot, k1, sched);
    } else {
      assert kstack / PAGE_SIZE in Run(kstack / PAGE_SIZE, 1).All();
      TaskAdded(boot, k, sched, r, kstack / PAGE_SIZE);
    }
  }

  lemma SlotLeaked(boot: set<nat>, k: Kernel, sched: Scheduling.Sched)
    requires Ok(boot, k) && Scheduling.Ok(sched) && sched.total == k.sched.total + 1
    requires forall t, p :: InStack(sched, t, p) <==> InStack(k.sched, t, p)
    ensures Ok(boot, k.(sched := sched))
  {
  }

  /** The kernel after run `r` has become the new task's user stack and page `q` its kernel stack. */
  ghost function WithTask(k: Kernel, sched: Scheduling.Sched, r: Run, q: nat): Kernel {
    Kernel(k.tree.(st := k.tree.st.(used := k.tree.st.used + r.All() + Run(q, 1).All())), sched,
           Give(Give(k.owner, r, UserStack(k.sched.total)), Run(q, 1), KernelStack(k.sched.total)))
  }

  /** Run `r` and page `q` are apart, not owned, and were not in use at boot. */
  ghost predicate Unclaimed(boot: set<nat>, k: Kernel, r: Run, q: nat) {
    && r.All() !! boot && r.All() !! k.owner.Keys && 1 <= r.start
    && !r.Has(q) && q !in boot && q !in k.owner && 1 <= q
  }

  lemma TaskPages(boot: set<nat>, k: Kernel, sched: Scheduling.Sched, r: Run, q: nat)
    requires Accounts(boot, k) && TablesOwned(k) && Unclaimed(boot, k, r, q)
    ensures Accounts(boot, WithTask(k, sched, r, q)) && TablesOwned(WithTask(k, sched, r, q))
  {
    GiveTwice(k.owner, r, UserStack(k.sched.total), q, KernelStack(k.sched.total));
    hide Give;
  }

  lemma TaskStacks(boot: set<nat>, k: Kernel, sched: Scheduling.Sched, r: Run, q: nat)
    requires StacksOwned(k) && KernelStacksOwned(k) && Unclaimed(boot, k, r, q) && sched.total == k.sched.total + 1
    requires forall t, p :: InStack(sched, t, p) <==> InStack(k.sched, t, p) || (t == k.sched.total && r.Has(p))
    ensures StacksOwned(WithTask(k, sched, r, q)) && KernelStacksOwned(WithTask(k, sched, r, q))
  {
    GiveTwice(k.owner, r, UserStack(k.sched.total), q, KernelStack(k.sched.total));
    assert forall p :: !InStack(k.sched, k.sched.total, p);
    hide Give, InStack;
  }

  lemma TaskAdded(boot: set<nat>, k: Kernel, sched: Scheduling.Sched, r: Run, q: nat)
    requires Ok(boot, k) && Scheduling.Ok(sched) && sched.total == k.sched.total + 1
    requires forall t, p :: InStack(sched, t, p) <==> InStack(k.sched, t, p) || (t == k.sched.total && r.Has(p))
    requires Unclaimed(boot, k, r, q) && WithTask(k, sched, r, q).tree.st.Valid()
    ensures Ok(boot, WithTask(k, sched, r, q))
  {
    TaskPages(boot, k, sched, r, q);
    TaskStacks(boot, k, sched, r, q);
    hide Accounts, TablesOwned, StacksOwned, KernelStacksOwned, InStack;
  }

  // ---------------------------------------------------------------- runs

  datatype Event =
    | ExecEvent(pages: nat)
    | SwitchEvent(frame: nat)
    | TerminateEvent(frame: nat)
    | MapEvent(page: VPage)
    | ReserveEvent(pages: nat)

  /** A mapping needs pages for the tables it creates; memory.c does not check for NULL. */
  ghost predicate Legal(k: Kernel, e: Event) {
    e.MapEvent? ==> Enough(k.tree, PathNodes(e.page))
  }

  ghost function Step(k: Kernel, e: Event): Kernel
    requires Scheduling.Ok(k.sched)
  {
    match e
    case ExecEvent(n) => Exec(k, n)
    case SwitchEvent(f) => Switch(k, f)
    case TerminateEvent(f) => Terminate(k, f)
    case MapEvent(p) => Map(k, p)
    case ReserveEvent(n) => Reserve(k, n)
  }

  lemma StepOk(boot: set<nat>, k: Kernel, e: Event)
    requires Ok(boot, k) && Legal(k, e)
    ensures Ok(boot, Step(k, e))
  {
    hide Exec, Switch, Terminate, Map, Reserve, Accounts, TablesOwned, StacksOwned, KernelStacksOwned, OnOwnPages,
      Enough;
    match e
    case ExecEvent(n) => ExecOk(boot, k, n);
    case SwitchEvent(f) => SwitchOk(boot, k, f);
    case TerminateEvent(f) => TerminateOk(boot, k, f);
    case MapEvent(p) => MapOk(boot, k, p);
    case ReserveEvent(n) => ReserveOk(boot, k, n);
  }

  /** Pages owned by tables, kernel stacks and the heap, and leaked pages, keep their owner. */
  ghost predicate OwnersKept(k: Kernel, k': Kernel) {
    forall p :: p in k.owner && !k.owner[p].UserStack? ==> p in k'.owner && k'.owner[p] == k.owner[p]
  }

  lemma ExecOwners(boot: set<nat>, k: Kernel, pages: nat)
    requires Ok(boot, k)
    ensures OwnersKept(k, Exec(k, pages))
  {
    FreshRun(boot, k, pages);
    var (st1, stack) := Alloc(k.tree.st, pages);
    if stack != 0 {
      var r := Run(stack / PAGE_SIZE, pages);
      GivePlain(boot, k, r, Leaked);
      var k1 := Kernel(k.tree.(st := st1), k.sched, Give(k.owner, r, Leaked));
      FreshRun(boot, k1, 1);
      assert k1.owner.Keys == k.owner.Keys + r.All();
      assert forall p :: p in r.All() <==> r.Has(p);
      var q := Run(Alloc(st1, 1).1 / PAGE_SIZE, 1);
      assert forall p :: p in q.All() <==> q.Has(p);
    }
  }

  lemma TerminateOwners(boot: set<nat>, k: Kernel, frame: nat)
    requires Ok(boot, k)
    ensures OwnersKept(k, Terminate(k, frame))
  {
    TerminateStacks(k.sched, frame);
    match Scheduling.Freed(k.sched)
    case None =>
    case Some(r) =>
      assert forall p :: p in r.All() <==> r.Has(p);
  }

  lemma MapOwners(boot: set<nat>, k: Kernel, p: VPage)
    requires Ok(boot, k) && Enough(k.tree, PathNodes(p))
    ensures OwnersKept(k, Map(k, p))
  {
    hide GrowPath, Enough;
    GrowPathLaw(k.tree, p, PathNodes(p));
    ExtendsAll(k.tree, GrowPath(k.tree, p), PathNodes(p));
    NewOwnersLaw(k, GrowPath(k.tree, p));
  }

  lemma ReserveOwners(boot: set<nat>, k: Kernel, pages: nat)
    requires Ok(boot, k)
    ensures OwnersKept(k, Reserve(k, pages))
  {
    FreshRun(boot, k, pages);
    var r := Run(Alloc(k.tree.st, pages).1 / PAGE_SIZE, pages);
    assert forall p :: p in r.All() <==> r.Has(p);
  }

  lemma StepOwners(boot: set<nat>, k: Kernel, e: Event)
    requires Ok(boot, k) && Legal(k, e)
    ensures OwnersKept(k, Step(k, e))
  {
    match e
    case ExecEvent(n) => ExecOwners(boot, k, n);
    case SwitchEvent(f) =>
    case TerminateEvent(f) => TerminateOwners(boot, k, f);
    case MapEvent(p) => MapOwners(boot, k, p);
    case ReserveEvent(n) => ReserveOwners(boot, k, n);
  }

  /** Every mapping of the run finds pages enough for its tables. */
  ghost predicate LegalRun(boot: set<nat>, k: Kernel, es: seq<Event>)
    requires Ok(boot, k)
    decreases |es|
  {
    es == [] || (Legal(k, es[0]) && (StepOk(boot, k, es[0]); LegalRun(boot, Step(k, es[0]), es[1..])))
  }

  ghost function RunAll(boot: set<nat>, k: Kernel, es: seq<Event>): Kernel
    requires Ok(boot, k) && LegalRun(boot, k, es)
    decreases |es|
  {
    if es == [] then k
    else
      StepOk(boot, k, es[0]);
      RunAll(boot, Step(k, es[0]), es[1..])
  }

  /** In every run in which mappings find pages for their tables, each page taken since boot has exactly one owner and
      its bit is set, page tables are on pages of their own, each live task's user stack is its own, and no page in
      use at boot is ever handed out; and only user stacks ever change hands. */
  lemma {:induction false} RunOk(boot: set<nat>, k: Kernel, es: seq<Event>)
    requires Ok(boot, k) && LegalRun(boot, k, es)
    ensures Ok(boot, RunAll(boot, k, es)) && OwnersKept(k, RunAll(boot, k, es))
    decreases |es|
  {
    if es != [] {
      StepOk(boot, k, es[0]);
      StepOwners(boot, k, es[0]);
      hide Ok, Step, Legal;
      RunOk(boot, Step(k, es[0]), es[1..]);
    }
  }

  /** The kernel after the page tables are built and the scheduler is initialised. */
  lemma BootOk(st: Pages, t: Tree, n: nat)
    requires st.Valid() && n > 0 && OnOwnPages(t) && Extends(Tree(st, map[]), t, t.nodes.Keys)
    ensures var k := Kernel(Tree(st, map[]), Scheduling.Init(Scheduling.Boot(n)), map[]);
      Ok(st.used, k) && Ok(st.used, Grown(k, t))
  {
    Scheduling.InitOk(n);
    var k := Kernel(Tree(st, map[]), Scheduling.Init(Scheduling.Boot(n)), map[]);
    GrownOk(st.used, k, t);
  }

  /** What one owner per page means: two live stacks share no page, no stack page holds a table or was in use at
      boot, and all of them are marked in use. */
  lemma Exclusive(boot: set<nat>, k: Kernel, t: nat, u: nat, p: nat)
    requires Ok(boot, k) && InStack(k.sched, t, p)
    ensures p in k.tree.st.used && p !in boot && p != 0
    ensures InStack(k.sched, u, p) ==> t == u
    ensures forall n :: n in k.tree.nodes ==> k.tree.nodes[n] != p
  {
    assert k.owner[p] == UserStack(t);
  }
}
