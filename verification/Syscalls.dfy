/** syscall.c:174-201 and the key handlers over the real allocator, tables and task table: each call is the
    corresponding step of page ownership, and none of the task operations changes any address's translation. */
module Syscalls {
  import opened PageAllocation
  import opened PageTree
  import opened PageTables
  import opened IdentityMap
  import Scheduling
  import Ownership
  import FirstFrames
  import PageBitmap
  import TaskTable

  lemma BootState(st: Pages, t: Tree, s: Scheduling.Sched)
    requires st.Valid() && OnOwnPages(t) && Extends(Tree(st, map[]), t, t.nodes.Keys)
    requires |s.tasks| > 0 && s == Scheduling.Init(Scheduling.Boot(|s.tasks|))
    ensures Ownership.Ok(st.used, Ownership.Kernel(t, s, Ownership.NewOwners(Tree(st, map[]), t)))
    ensures Scheduling.HaveFrames(s)
  {
    Ownership.BootOk(st, t, |s.tasks|);
    hide OnOwnPages, Extends, Ownership.Ok, Ownership.NewOwners;
    NothingOwned(Ownership.NewOwners(Tree(st, map[]), t));
  }

  lemma NothingOwned(owner: map<nat, Ownership.Owner>)
    ensures map[] + owner == owner
  {
  }

  lemma TreeSize(mem: seq<nat>, nodes: map<Node, nat>)
    requires TreeOk(mem, nodes)
    ensures |mem| == MAX_PAGES * ENTRIES
  {
  }

  /** EXEC step by step: what the two allocations and the task table contribute to the kernel's next state. */
  lemma ExecParts(boot: set<nat>, k: Ownership.Kernel, pages: nat)
    requires Ownership.Ok(boot, k) && Scheduling.HaveFrames(k.sched)
    ensures Scheduling.Ok(k.sched) && OnOwnPages(k.tree)
    ensures Ownership.Ok(boot, Ownership.Exec(k, pages)) && OnOwnPages(Ownership.Exec(k, pages).tree)
    ensures Scheduling.HaveFrames(Ownership.Exec(k, pages).sched)
    ensures var (st1, stack) := Alloc(k.tree.st, pages); var (st2, kstack) := Alloc(st1, 1);
      var k' := Ownership.Exec(k, pages);
      && k'.tree.nodes == k.tree.nodes
      && (stack == 0 ==> st1 == k.tree.st && k' == k)
      && (stack != 0 && k.sched.total >= |k.sched.tasks| ==> k'.tree.st == st1 && k'.sched == k.sched)
      && (stack != 0 && k.sched.total < |k.sched.tasks| ==>
            && k'.tree.st == st2 && k'.sched == Scheduling.AddUserTask(k.sched, stack, pages, kstack)
            && (kstack != 0 ==> NoTable(k.tree.nodes, kstack / PAGE_SIZE)))
  {
    Ownership.ExecOk(boot, k, pages);
    Ownership.FreshRun(boot, k, pages);
    AllocLaw(k.tree.st, pages);
    var (st1, stack) := Alloc(k.tree.st, pages);
    AllocLaw(st1, 1);
    var kstack := Alloc(st1, 1).1;
    Scheduling.FramesKept(k.sched, Scheduling.Add(stack, pages, kstack));
    if kstack != 0 { assert Run(kstack / PAGE_SIZE, 1).Has(kstack / PAGE_SIZE); }
  }

  lemma SwitchParts(boot: set<nat>, k: Ownership.Kernel, frame: nat)
    requires Ownership.Ok(boot, k) && Scheduling.HaveFrames(k.sched) && frame != 0
    ensures Scheduling.Ok(k.sched) && Ownership.Ok(boot, Ownership.Switch(k, frame)) && OnOwnPages(k.tree)
    ensures Scheduling.HaveFrames(Scheduling.Switch(k.sched, frame).0) && Scheduling.Switch(k.sched, frame).1 != 0
  {
    Ownership.SwitchOk(boot, k, frame);
    Scheduling.FramesKept(k.sched, Scheduling.Switched(frame));
  }

  lemma TerminateParts(boot: set<nat>, k: Ownership.Kernel, frame: nat)
    requires Ownership.Ok(boot, k) && Scheduling.HaveFrames(k.sched)
    ensures Scheduling.Ok(k.sched)
    ensures Ownership.Ok(boot, Ownership.Terminate(k, frame)) && OnOwnPages(Ownership.Terminate(k, frame).tree)
    ensures var (s', f) := Scheduling.Terminate(k.sched, frame);
      var k' := Ownership.Terminate(k, frame);
      && Scheduling.HaveFrames(s') && k'.sched == s' && k'.tree.nodes == k.tree.nodes
      && k'.tree.st == (match Scheduling.Freed(k.sched)
                        case None => k.tree.st
                        case Some(r) => FreeRun(k.tree.st, r))
      && s'.current < |s'.tasks| && (k.sched.current == 0 ==> k' == k)
      && (if k.sched.current == 0 then f == frame else f == s'.tasks[s'.current].rsp && f != 0)
  {
    Ownership.TerminateOk(boot, k, frame);
    Scheduling.FramesKept(k.sched, Scheduling.Terminated(frame));
    Scheduling.StepOk(k.sched, Scheduling.Terminated(frame));
  }

  lemma ReserveParts(boot: set<nat>, k: Ownership.Kernel, pages: nat)
    requires Ownership.Ok(boot, k)
    ensures Ownership.Ok(boot, Ownership.Reserve(k, pages)) && OnOwnPages(Ownership.Reserve(k, pages).tree)
    ensures Ownership.Reserve(k, pages).tree == k.tree.(st := Alloc(k.tree.st, pages).0)
    ensures Ownership.Reserve(k, pages).sched == k.sched
  {
    Ownership.ReserveOk(boot, k, pages);
    AllocLaw(k.tree.st, pages);
  }

  /** Building a task's first frame on a page that holds no table changes no translation. */
  lemma FramePushedView(mem: seq<nat>, mem': seq<nat>, kstack: nat, entry: nat, stackTop: nat, nodes: map<Node, nat>)
    requires TreeOk(mem, nodes) && Rooted(nodes) && TaskTable.FramePushed(mem, mem', kstack, entry, stackTop)
    requires kstack != 0 ==> NoTable(nodes, kstack / PAGE_SIZE)
    ensures TreeOk(mem', nodes) && View(mem', nodes[Root] * PAGE_SIZE) == View(mem, nodes[Root] * PAGE_SIZE)
  {
    hide View;
    if kstack != 0 { ForeignView(mem, mem', nodes, kstack / PAGE_SIZE); }
  }

  class Kernel {
    const pa: PageBitmap.PageAllocator
    const words: array<nat>
    const tables: Tables
    const sched: TaskTable.Scheduler
    ghost var owner: map<nat, Ownership.Owner>
    /** The tasks that have not run yet. */
    ghost var starts: map<nat, FirstFrames.Start>
    /** The pages in use before the page tables were built. */
    ghost const boot: set<nat>

    ghost predicate Wired() {
      tables.pa == pa && tables.words == words && sched.pa == pa && sched.words == words && sched.Separate()
    }

    ghost function Abs(): Ownership.Kernel
      reads this, tables, sched, sched.tasks, pa, pa.bitmap
      requires Wired() && pa.Valid()
    {
      Ownership.Kernel(tables.AbsTree(), sched.State(), owner)
    }

    ghost predicate Valid()
      reads this, tables, sched, sched.tasks, pa, pa.bitmap, words
    {
      && Wired() && tables.Built()
      && Ownership.Ok(boot, Abs()) && Scheduling.HaveFrames(sched.State())
      && FirstFrames.FramesReady(words[..], Abs(), starts)
    }

    /** Returning to the frame at `rsp` starts the current task at `entry`. */
    ghost predicate EntersAt(rsp: nat, entry: nat)
      reads sched, sched.tasks, words
    {
      FirstFrames.Enters(words[..], sched.State(), rsp, entry)
    }

    /** The kernel once PageTable_Init and Scheduler_Init have run on the allocator state `st`. */
    constructor (tables: Tables, sched: TaskTable.Scheduler, ghost st: Pages)
      requires tables.Built() && tables.pa == sched.pa && tables.words == sched.words && sched.Separate()
      requires st.Valid() && Extends(Tree(st, map[]), tables.AbsTree(), tables.nodes.Keys)
      requires sched.tasks.Length > 0 && sched.State() == Scheduling.Init(Scheduling.Boot(sched.tasks.Length))
      ensures this.tables == tables && this.sched == sched && this.pa == tables.pa && this.words == tables.words
      ensures boot == st.used && starts == map[] && Valid()
    {
      this.tables := tables;
      this.sched := sched;
      pa := tables.pa;
      words := tables.words;
      boot := st.used;
      starts := map[];
      owner := Ownership.NewOwners(Tree(st, map[]), tables.AbsTree());
      new;
      hide TreeOk, Rooted, OnOwnPages, Ownership.Ok, Extends, Ownership.NewOwners, Scheduling.Init, View;
      BootState(st, tables.AbsTree(), sched.State());
    }

    /** SYSCALL_EXEC */
    method Exec(entry: nat, pages: nat)
      requires Valid()
      modifies this`owner, this`starts, sched`total, sched.tasks, words, pa.bitmap
      ensures Valid() && Abs() == Ownership.Exec(old(Abs()), pages)
      ensures starts == FirstFrames.Joined(old(sched.State()), sched.State(), old(starts), entry)
      ensures tables.Space() == old(tables.Space())
    {
      hide Ownership.Ok, TreeOk, Rooted, View, OnOwnPages, Ownership.Exec, Scheduling.HaveFrames, Alloc,
        Scheduling.AddUserTask;
      hide FirstFrames.FramesReady, FirstFrames.AfterExec, TaskTable.FramePushed;
      ghost var k, mem := Abs(), words[..];
      ExecParts(boot, k, pages);
      TreeSize(mem, tables.nodes);
      var stack := pa.Alloc(pages);
      assert words[..] == mem;
      ghost var st1 := pa.State();
      if stack != 0 {
        sched.AddUserTask(entry, stack, pages);
        if k.sched.total < |k.sched.tasks| {
          FramePushedView(mem, words[..], Alloc(st1, 1).1, entry, stack + pages * PAGE_SIZE, tables.nodes);
        }
      }
      FirstFrames.ExecFrames(boot, mem, words[..], k, starts, entry, pages);
      FirstFrames.AfterExecIs(boot, k, starts, entry, pages);
      owner := Ownership.Exec(k, pages).owner;
      starts := FirstFrames.AfterExec(k, starts, entry, pages);
    }

    /** The CapsLock key: Scheduler_Switch on the interrupted task's frame. */
    method Switch(frame: nat) returns (resumed: nat)
      requires Valid() && frame != 0
      modifies this`starts, sched`current, sched.tasks
      ensures Valid() && Abs() == Ownership.Switch(old(Abs()), frame)
      ensures starts == old(starts) - {sched.current}
      ensures sched.current in old(starts) ==> EntersAt(resumed, old(starts)[sched.current].entry)
      ensures resumed != 0
      ensures Scheduling.Alone(old(sched.State())) ==> Abs() == old(Abs()) && resumed == frame
      ensures !Scheduling.Alone(old(sched.State())) ==>
        && Scheduling.Nearest(old(sched.State()), sched.current)
        && resumed == old(sched.State()).tasks[sched.current].rsp && sched.tasks[old(sched.current)].rsp == frame
      ensures tables.Space() == old(tables.Space())
    {
      hide Ownership.Ok, TreeOk, Rooted, View, OnOwnPages, Scheduling.HaveFrames, Scheduling.Switch,
        FirstFrames.FramesReady, FirstFrames.Enters, Scheduling.Alone, Scheduling.Nearest;
      ghost var k, mem := Abs(), words[..];
      SwitchParts(boot, k, frame);
      Scheduling.SwitchLaw(k.sched, frame);
      FirstFrames.SwitchFrames(boot, mem, k, starts, frame);
      FirstFrames.FirstResume(boot, mem, k, starts, Scheduling.Switched(frame));
      resumed := sched.Switch(frame);
      assert words[..] == mem;
      starts := starts - {sched.current};
    }

    /** The ESC key and SYSCALL_TERMINATE: the frame of the next task, or the frame given if task 0 is running. */
    method Terminate(frame: nat) returns (resumed: nat)
      requires Valid()
      modifies this`owner, this`starts, sched`current, sched.tasks, pa.bitmap
      ensures Valid() && Abs() == Ownership.Terminate(old(Abs()), frame)
      ensures starts == old(starts) - {sched.current}
      ensures sched.current in old(starts) ==> EntersAt(resumed, old(starts)[sched.current].entry)
      ensures old(sched.current) == 0 ==> resumed == frame && Abs() == old(Abs())
      ensures old(sched.current) != 0 ==>
        resumed == sched.tasks[sched.current].rsp != 0 && Scheduling.Nearest(old(sched.State()), sched.current)
      ensures tables.Space() == old(tables.Space())
    {
      hide Ownership.Ok, TreeOk, Rooted, View, OnOwnPages, Scheduling.HaveFrames, Scheduling.Terminate,
        Ownership.Terminate;
      hide Scheduling.Freed, FirstFrames.FramesReady, FirstFrames.Enters, Scheduling.Nearest;
      ghost var k, mem := Abs(), words[..];
      TerminateParts(boot, k, frame);
      TreeSize(mem, tables.nodes);
      Scheduling.TerminateLaw(k.sched, frame);
      FirstFrames.TerminateFrames(boot, mem, k, starts, frame);
      FirstFrames.FirstResume(boot, mem, k, starts, Scheduling.Terminated(frame));
      resumed := sched.Terminate(frame);
      owner := Ownership.Terminate(k, frame).owner;
      assert words[..] == mem;
      starts := starts - {sched.current};
    }

    /** SYSCALL_TERMINATE returns 0, for "no context switch", exactly when task 0 called it. */
    method TerminateSyscall() returns (newRsp: nat)
      requires Valid()
      modifies this`owner, this`starts, sched`current, sched.tasks, pa.bitmap
      ensures Valid() && Abs() == Ownership.Terminate(old(Abs()), 0)
      ensures newRsp == 0 <==> old(sched.current) == 0
      ensures old(sched.current) == 0 ==> Abs() == old(Abs())
      ensures old(sched.current) != 0 ==>
        newRsp == sched.tasks[sched.current].rsp && Scheduling.Nearest(old(sched.State()), sched.current)
      ensures starts == old(starts) - {sched.current}
      ensures sched.current in old(starts) ==> EntersAt(newRsp, old(starts)[sched.current].entry)
    {
      newRsp := Terminate(0);
    }

    /** A mapping made while tasks exist. */
    method MapPage(virt: nat, phys: nat, flags: nat)
      requires Valid()
      requires phys % PAGE_SIZE == 0 && phys < MAX_PHYS && flags < PAGE_SIZE
      requires Enough(tables.AbsTree(), PathNodes(PageOf(virt)))
      modifies this`owner, tables`nodes, tables`tlb, words, pa.bitmap
      ensures Valid() && Abs() == Ownership.Map(old(Abs()), PageOf(virt))
      ensures tables.Space() == old(tables.Space())[PageOf(virt) := Target(phys, flags)]
      ensures forall stale :: Coherent(old(tables.tlb), old(tables.Space()), stale) ==>
        Coherent(tables.tlb, tables.Space(), stale + {PageOf(virt)})
      ensures StoreStep(old(tables.tlb), tables.tlb, old(tables.Space()), tables.Space(), tables.keeps)
    {
      hide Ownership.Ok, TreeOk, Rooted, View, OnOwnPages, Scheduling.HaveFrames, GrowPath, Target, Coherent, Enough,
        PageOf;
      hide StoreStep, TablesOnly, FirstFrames.FramesReady;
      ghost var k, mem := Abs(), words[..];
      Ownership.MapOk(boot, k, PageOf(virt));
      tables.Map(tables.root, virt, phys, flags);
      FirstFrames.MapFrames(boot, mem, words[..], k, starts, PageOf(virt));
      owner := Ownership.Map(k, PageOf(virt)).owner;
    }

    /** main.c:151: the arena of the kernel heap, `pages` pages. */
    method ReserveHeap(pages: nat) returns (arena: nat)
      requires Valid()
      modifies this`owner, pa.bitmap
      ensures Valid() && Abs() == Ownership.Reserve(old(Abs()), pages)
      ensures arena == Alloc(old(pa.State()), pages).1
      ensures tables.Space() == old(tables.Space())
    {
      hide Ownership.Ok, TreeOk, Rooted, View, OnOwnPages, Scheduling.HaveFrames, Alloc, FirstFrames.FramesReady;
      ghost var k, mem := Abs(), words[..];
      ReserveParts(boot, k, pages);
      FirstFrames.ReserveFrames(boot, mem, k, starts, pages);
      TreeSize(mem, tables.nodes);
      arena := pa.Alloc(pages);
      owner := Ownership.Reserve(k, pages).owner;
      assert words[..] == mem;
    }
  }

  /** The allocator after PageAllocator_Init, PageAllocator_MarkUsed and Syscall_Init's page (main.c:125-134). */
  ghost function AtBoot(ds: seq<Descriptor>, image: Run): Pages {
    Alloc(MarkUsed(PageAllocation.Init(0, ds), image), 1).0
  }

  lemma AtBootValid(ds: seq<Descriptor>, image: Run)
    ensures AtBoot(ds, image).Valid()
  {
    BootLaw(0, ds, image, 0);
    AllocLaw(MarkUsed(PageAllocation.Init(0, ds), image), 1);
  }

  /** At boot a page is free exactly if it is usable, outside the kernel image, and not the lowest such page above 0
      below the page count, which holds the processor's data. */
  lemma AtBootLaw(ds: seq<Descriptor>, image: Run, p: nat)
    requires p < MAX_PAGES
    ensures var count := PageAllocation.Init(0, ds).total;
      AtBoot(ds, image).total == count &&
      (p !in AtBoot(ds, image).used <==>
        && !image.Has(p) && (exists d :: d in ds && d.Usable() && d.Covers(p))
        && (0 < p < count ==> exists q: nat :: q < p && Spare(ds, image, q)))
  {
    hide Alloc, PageAllocation.Init, Spare;
    var st := MarkUsed(PageAllocation.Init(0, ds), image);
    BootLaw(0, ds, image, p);
    LowestSpare(ds, image);
    SpareMeans(ds, image, p);
    var a := Alloc(st, 1).1;
    if a != 0 { TakenPage(st, a / PAGE_SIZE, p); }
  }

  lemma SpareMeans(ds: seq<Descriptor>, image: Run, p: nat)
    ensures Spare(ds, image, p) <==> p > 0 && !image.Has(p) && exists d :: d in ds && d.Usable() && d.Covers(p)
  {
  }

  lemma LowestSpare(ds: seq<Descriptor>, image: Run)
    ensures var st := MarkUsed(PageAllocation.Init(0, ds), image); var (st', a) := Alloc(st, 1); var q := a / PAGE_SIZE;
      && (a == 0 ==> st' == st && forall x: nat :: x < st.total ==> !Spare(ds, image, x))
      && (a != 0 ==>
            && st' == st.(used := st.used + Run(q, 1).All())
            && q < st.total && Spare(ds, image, q) && forall x: nat :: x < q ==> !Spare(ds, image, x))
  {
    var st := MarkUsed(PageAllocation.Init(0, ds), image);
    BootLaw(0, ds, image, 0);
    AllocLaw(st, 1);
    forall q: nat | q < st.total ensures Available(st, Run(q, 1)) <==> Spare(ds, image, q) {
      BootLaw(0, ds, image, q);
      assert Run(q, 1).Has(q);
    }
  }

  lemma TakenPage(st: Pages, q: nat, p: nat)
    ensures p in st.used + Run(q, 1).All() <==> p in st.used || p == q
  {
    assert forall x :: x in Run(q, 1).All() <==> Run(q, 1).Has(x);
  }

  /** Whatever the kernel has handed out since boot lies in usable memory of the firmware's map, outside the
      kernel image, and is not page 0. */
  lemma OnlyUsableMemory(ds: seq<Descriptor>, image: Run, k: Ownership.Kernel, p: nat)
    requires Ownership.Ok(AtBoot(ds, image).used, k) && p in k.owner
    ensures p != 0 && !image.Has(p) && exists d :: d in ds && d.Usable() && d.Covers(p)
  {
    BootLaw(0, ds, image, p);
    AllocLaw(MarkUsed(PageAllocation.Init(0, ds), image), 1);
  }

  /** Page `p` is mapped to itself, writable. */
  ghost predicate OnItself(space: Space, p: nat) {
    var v := PageOf(p * PAGE_SIZE);
    v in space && space[v].frame == p * PAGE_SIZE && space[v].writable
  }

  /** Every page the allocator may hand out can be reached by the kernel at its own address. */
  ghost predicate Direct(space: Space, ds: seq<Descriptor>) {
    forall p: nat :: p < MAX_PAGES && InUsable(ds, p) ==> OnItself(space, p)
  }

  ghost predicate InUsable(ds: seq<Descriptor>, p: nat) {
    exists d :: d in ds && d.Usable() && d.Covers(p)
  }

  /** The kernel reaches every page it has handed out, tables, stacks and heap included, at that page's own address. */
  lemma OwnedOnItself(ds: seq<Descriptor>, image: Run, k: Ownership.Kernel, space: Space, p: nat)
    requires Ownership.Ok(AtBoot(ds, image).used, k) && Direct(space, ds) && p in k.owner
    ensures OnItself(space, p)
  {
    hide OnItself;
    OnlyUsableMemory(ds, image, k, p);
    assert p in k.tree.st.used && p < MAX_PAGES;
    assert InUsable(ds, p);
  }

  /** PageTable_Init's address space has every usable page at its own address. */
  lemma InitialDirect(ds: seq<Descriptor>, fb: nat, fbSize: nat, lapic: nat, rsp: nat, needed: set<Node>)
    requires forall d :: d in ds ==> Placed(d, needed)
    ensures Direct(InitialSpace(ds, fb, fbSize, lapic, rsp), ds)
  {
    hide InitialSpace, OnItself, Placed;
    forall p: nat | p < MAX_PAGES && InUsable(ds, p) ensures OnItself(InitialSpace(ds, fb, fbSize, lapic, rsp), p) {
      var d :| d in ds && d.Usable() && d.Covers(p);
      assert Placed(d, needed);
      InitialOnItself(ds, fb, fbSize, lapic, rsp, needed, d, p);
    }
  }

  lemma InitialOnItself(ds: seq<Descriptor>, fb: nat, fbSize: nat, lapic: nat, rsp: nat, needed: set<Node>,
    d: Descriptor, p: nat)
    requires d in ds && Placed(d, needed) && d.Usable() && d.Covers(p) && p < MAX_PAGES
    ensures OnItself(InitialSpace(ds, fb, fbSize, lapic, rsp), p)
  {
    hide InitialSpace, PageOf, Base, NeededFor, StackBase;
    var v := PageOf(p * PAGE_SIZE);
    BaseOf(p * PAGE_SIZE);
    assert InRange(v, d.start, d.start + d.pages * PAGE_SIZE);
    assert InDescriptors(ds, v);
    InitialSpaceLaw(ds, fb, fbSize, lapic, rsp, v);
  }

  /** PageTable_Map keeps it exactly when it maps no usable page away from itself or read-only. */
  lemma MapDirectIff(space: Space, ds: seq<Descriptor>, v: VPage, m: Mapping)
    requires Direct(space, ds)
    ensures Direct(space[v := m], ds) <==>
      forall p: nat :: p < MAX_PAGES && InUsable(ds, p) && PageOf(p * PAGE_SIZE) == v ==>
        m.frame == p * PAGE_SIZE && m.writable
  {
    hide InUsable;
    if Direct(space[v := m], ds) {
      forall p: nat | p < MAX_PAGES && InUsable(ds, p) && PageOf(p * PAGE_SIZE) == v
        ensures m.frame == p * PAGE_SIZE && m.writable
      {
        assert OnItself(space[v := m], p);
      }
    } else {
      var p: nat :| p < MAX_PAGES && InUsable(ds, p) && !OnItself(space[v := m], p);
      assert OnItself(space, p);
    }
  }

  /** Memory_MapMMIO always keeps it. */
  lemma MapMMIODirect(space: Space, ds: seq<Descriptor>, start: nat, end: nat)
    requires Direct(space, ds)
    ensures Direct(Overlay(space, start, end, READ_WRITE_USER), ds)
  {
    forall p: nat | p < MAX_PAGES && InUsable(ds, p) ensures OnItself(Overlay(space, start, end, READ_WRITE_USER), p) {
      assert OnItself(space, p);
      BaseOf(p * PAGE_SIZE);
      FlagBits(READ_WRITE_USER);
    }
  }

  const HEAP_PAGES: nat := 4096

  /** KernelMain up to the first task: every precondition on the way follows from the shape of the memory map and
      from there being enough free pages for the tables. The heap arena, if there is room for it, meets the
      requirements of Heap_Init. */
  method BootKernel(at: nat -> Descriptor, mapSize: nat, descSize: nat, imageBase: nat, imagePages: nat,
                    fb: nat, fbSize: nat, lapic: nat, rsp: nat, maxTasks: nat, words: array<nat>,
                    ghost needed: set<Node>, ghost keeps: bool)
    returns (k: Kernel, heap: nat)
    requires descSize > 0 && maxTasks > 0 && words.Length == MAX_PAGES * ENTRIES
    requires forall d :: d in PageBitmap.Visited(at, 0, mapSize, descSize) ==> d.Fits() && Placed(d, needed)
    requires DevicesPlaced(fb, fbSize, lapic, rsp, needed)
    requires |needed| < |FreePages(AtBoot(PageBitmap.Visited(at, 0, mapSize, descSize),
      Run(imageBase / PAGE_SIZE, imagePages)))|
    modifies words
    ensures k.Valid() && k.tables.CacheCoherent() && k.starts == map[]
    ensures k.boot == AtBoot(PageBitmap.Visited(at, 0, mapSize, descSize), Run(imageBase / PAGE_SIZE, imagePages)).used
    ensures k.tables.Space() == InitialSpace(PageBitmap.Visited(at, 0, mapSize, descSize), fb, fbSize, lapic, rsp)
    ensures Direct(k.tables.Space(), PageBitmap.Visited(at, 0, mapSize, descSize))
    ensures k.sched.State() == Scheduling.Init(Scheduling.Boot(maxTasks))
    ensures heap != 0 ==>
      && heap % PAGE_SIZE == 0 && heap + 4096 * 4096 <= MAX_PAGES * PAGE_SIZE
      && forall p :: heap / PAGE_SIZE <= p < heap / PAGE_SIZE + 4096 ==>
        p in k.owner && k.owner[p] == Ownership.HeapArena
  {
    hide DevicesPlaced, FreePages, InitialSpace, TreeOk, View, OnOwnPages, Extends, Ownership.Ok, Alloc, Coherent,
      Rooted;
    hide Scheduling.Init, Direct, Ownership.Reserve, FirstFrames.FramesReady, Scheduling.HaveFrames, Placed, AtBoot;
    ghost var ds := PageBitmap.Visited(at, 0, mapSize, descSize);
    InitialDirect(ds, fb, fbSize, lapic, rsp, needed);
    AtBootValid(ds, Run(imageBase / PAGE_SIZE, imagePages));
    var pa := BootPages(at, mapSize, descSize, imageBase, imagePages);
    ghost var st := pa.State();
    var tables := new Tables(pa, words, keeps);
    tables.Init(at, mapSize, descSize, fb, fbSize, lapic, rsp, needed);
    var sched := new TaskTable.Scheduler(pa, words, maxTasks);
    sched.Init();
    k := new Kernel(tables, sched, st);
    ArenaOwned(k.boot, k.Abs(), HEAP_PAGES);
    heap := k.ReserveHeap(HEAP_PAGES);
  }

  /** main.c:125-134: the page allocator, the kernel image's pages and the page Syscall_Init takes. */
  method BootPages(at: nat -> Descriptor, mapSize: nat, descSize: nat, imageBase: nat, imagePages: nat)
    returns (pa: PageBitmap.PageAllocator)
    requires descSize > 0 && forall d :: d in PageBitmap.Visited(at, 0, mapSize, descSize) ==> d.Fits()
    ensures fresh(pa) && fresh(pa.bitmap) && pa.Valid()
    ensures pa.State() == AtBoot(PageBitmap.Visited(at, 0, mapSize, descSize), Run(imageBase / PAGE_SIZE, imagePages))
  {
    pa := new PageBitmap.PageAllocator();
    pa.Init(at, mapSize, descSize);
    pa.MarkUsed(imageBase, imagePages);
    var cpuData := pa.Alloc(1);
  }

  lemma ArenaOwned(boot: set<nat>, k: Ownership.Kernel, pages: nat)
    requires Ownership.Ok(boot, k)
    ensures var heap := Alloc(k.tree.st, pages).1; var k' := Ownership.Reserve(k, pages);
      heap != 0 ==>
        && heap % PAGE_SIZE == 0 && heap + pages * PAGE_SIZE <= MAX_PAGES * PAGE_SIZE
        && k'.sched == k.sched
        && forall p :: Run(heap / PAGE_SIZE, pages).Has(p) ==> p in k'.owner && k'.owner[p] == Ownership.HeapArena
  {
    AllocLaw(k.tree.st, pages);
  }
}
