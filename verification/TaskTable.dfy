/** schedule.c on the task table itself, with the first frame of each task built word by word on its kernel stack. */
module TaskTable {
  import opened Bits
  import opened PageAllocation
  import opened PageTree
  import opened Scheduling
  import PageBitmap

  const USER_DATA_SEL: nat := 0x1B
  const USER_CODE_SEL: nat := 0x23
  const ENTRY_FLAGS: nat := 0x202

  /** The segments GDT_Init (gdt.c:52-56) makes for user data and code. */
  const USER_DATA_INDEX: nat := 3
  const USER_CODE_INDEX: nat := 4

  /** struct InterruptFrame: 15 zeroed registers, vector and error code, then what iretq pops. */
  function EntryFrame(entry: nat, stackTop: nat): seq<nat> {
    seq(17, _ => 0) + [entry, USER_CODE_SEL, ENTRY_FLAGS, stackTop, USER_DATA_SEL]
  }

  /** What the processor runs with after the handler returns: the fifteen registers from r15 up to rax, and what iretq
      loads. */
  datatype Context = Context(regs: seq<nat>, rip: nat, cs: nat, rflags: nat, rsp: nat, ss: nat)

  /** `n` pops of 64-bit words, the stack pointer rising from `sp`. */
  function Pops(words: seq<nat>, sp: nat, n: nat): (vs: seq<nat>)
    requires sp / 8 + n <= |words|
    ensures |vs| == n && forall i :: 0 <= i < n ==> vs[i] == words[sp / 8 + i]
    decreases n
  {
    if n == 0 then [] else [words[sp / 8]] + Pops(words, sp + 8, n - 1)
  }

  /** isr_restore with the stack pointer at `rsp` (interrupt.c:212-228): fifteen pops, the vector and the error code are
      skipped, and iretq pops RIP, CS, RFLAGS, RSP and SS, in this order. */
  function Restored(words: seq<nat>, rsp: nat): Context
    requires rsp / 8 + FRAME_WORDS <= |words|
  {
    var popped := Pops(words, rsp + 15 * 8 + 16, 5);
    Context(Pops(words, rsp, 15), popped[0], popped[1], popped[2], popped[3], popped[4])
  }

  /** The processor is in user mode (privilege level 3 in both selectors) with no flag but interrupts on (and the one
      that is always set), about to run `entry` on a stack that ends at `stackTop`, with all registers zero. */
  predicate StartsUser(c: Context, entry: nat, stackTop: nat) {
    && c.rip == entry && c.rsp == stackTop
    && c.cs % 4 == 3 && c.ss % 4 == 3 && c.cs / 8 == USER_CODE_INDEX && c.ss / 8 == USER_DATA_INDEX
    && c.rflags == 0x200 + 2
    && |c.regs| == 15 && forall i :: 0 <= i < 15 ==> c.regs[i] == 0
  }

  /** Returning to an entry frame starts the task as EXEC asked. */
  lemma EntryFrameStarts(words: seq<nat>, rsp: nat, entry: nat, stackTop: nat)
    requires rsp / 8 + FRAME_WORDS <= |words| && FrameAt(words, rsp) == EntryFrame(entry, stackTop)
    ensures StartsUser(Restored(words, rsp), entry, stackTop)
  {
    hide Pops, EntryFrame;
    EntryWords(entry, stackTop);
    assert (rsp + 15 * 8 + 16) / 8 == rsp / 8 + 17;
    assert forall i :: 0 <= i < FRAME_WORDS ==> words[rsp / 8 + i] == FrameAt(words, rsp)[i];
    var low, popped := Pops(words, rsp, 15), Pops(words, rsp + 15 * 8 + 16, 5);
    assert forall i :: 0 <= i < 15 ==> low[i] == FrameAt(words, rsp)[i];
    assert forall i :: 0 <= i < 5 ==> popped[i] == FrameAt(words, rsp)[17 + i];
  }

  lemma EntryWords(entry: nat, stackTop: nat)
    ensures var f := EntryFrame(entry, stackTop);
      && |f| == FRAME_WORDS && (forall i :: 0 <= i < 17 ==> f[i] == 0)
      && f[17] == entry && f[18] == USER_CODE_SEL && f[19] == ENTRY_FLAGS && f[20] == stackTop && f[21] == USER_DATA_SEL
  {
  }

  /** The frame stored at address `rsp`. */
  function FrameAt(words: seq<nat>, rsp: nat): seq<nat>
    requires rsp / 8 + FRAME_WORDS <= |words|
  {
    words[rsp / 8..rsp / 8 + FRAME_WORDS]
  }

  /** Fifteen zeroes below the pushed words make the frame, inside the kernel stack page. */
  lemma FrameBuilt(before: seq<nat>, after: seq<nat>, kstack: nat, upper: seq<nat>, entry: nat, stackTop: nat)
    requires kstack % PAGE_SIZE == 0 && kstack / 8 + 512 <= |after| == |before| && |upper| == 7
    requires upper == EntryFrame(entry, stackTop)[15..]
    requires var top := kstack / 8 + 512;
      && (forall j :: top - 7 <= j < top ==> after[j] == upper[j - (top - 7)])
      && (forall j :: top - 22 <= j < top - 7 ==> after[j] == 0)
      && (forall j :: 0 <= j < |after| && !(top - 22 <= j < top) ==> after[j] == before[j])
    ensures InitialRsp(kstack) / 8 + FRAME_WORDS == kstack / 8 + 512 && InitialRsp(kstack) == (kstack / 8 + 490) * 8
    ensures FrameAt(after, InitialRsp(kstack)) == EntryFrame(entry, stackTop)
    ensures StartsUser(Restored(after, InitialRsp(kstack)), entry, stackTop)
    ensures OnlyPage(before, after, kstack / PAGE_SIZE)
  {
    hide StartsUser, Restored;
    var top := kstack / 8 + 512;
    assert kstack == kstack / PAGE_SIZE * PAGE_SIZE;
    assert InitialRsp(kstack) / 8 == top - 22;
    var frame, expected := FrameAt(after, InitialRsp(kstack)), EntryFrame(entry, stackTop);
    forall i | 0 <= i < 22 ensures frame[i] == expected[i] {
      assert frame[i] == after[top - 22 + i];
      if i >= 15 { assert upper[i - 15] == expected[15..][i - 15]; }
    }
    forall k: nat | k < |before| && k / ENTRIES != kstack / PAGE_SIZE ensures after[k] == before[k] {
      if kstack / 8 <= k < kstack / 8 + 512 { WordInPage(kstack, k); }
    }
    EntryFrameStarts(after, InitialRsp(kstack), entry, stackTop);
  }

  lemma WordInPage(kstack: nat, k: nat)
    requires kstack % PAGE_SIZE == 0 && kstack / 8 <= k < kstack / 8 + 512
    ensures k / ENTRIES == kstack / PAGE_SIZE
  {
    DivModUnique(k, ENTRIES, kstack / PAGE_SIZE, k - kstack / 8);
  }

  /** What adding a task stores: the entry frame on the kernel stack page `kstack`, and nothing outside that page. */
  ghost predicate FramePushed(before: seq<nat>, after: seq<nat>, kstack: nat, entry: nat, stackTop: nat) {
    if kstack == 0 then after == before
    else
      && OnlyPage(before, after, kstack / PAGE_SIZE)
      && InitialRsp(kstack) / 8 + FRAME_WORDS <= |after|
      && FrameAt(after, InitialRsp(kstack)) == EntryFrame(entry, stackTop)
      && StartsUser(Restored(after, InitialRsp(kstack)), entry, stackTop)
  }

  class Scheduler {
    const pa: PageBitmap.PageAllocator
    const words: array<nat>
    const tasks: array<Task>
    var current: nat
    var total: nat

    ghost function State(): Sched
      reads this, tasks
    {
      Sched(tasks[..], current, total)
    }

    /** The task table is neither the bitmap nor physical memory. */
    ghost predicate Separate() {
      tasks as object != pa.bitmap as object && tasks as object != words as object
    }

    /** Zeroed static data. */
    constructor (pa: PageBitmap.PageAllocator, words: array<nat>, maxTasks: nat)
      ensures this.pa == pa && this.words == words && fresh(tasks) && tasks.Length == maxTasks && Separate() &&
        State() == Boot(maxTasks)
    {
      this.pa := pa;
      this.words := words;
      tasks := new Task[maxTasks](_ => Task(0, false, 0, 0));
      current, total := 0, 0;
    }

    /** Scheduler_Init */
    method Init()
      requires tasks.Length > 0
      modifies this`total, tasks
      ensures State() == Scheduling.Init(old(State()))
    {
      for i := 0 to tasks.Length
        invariant forall j :: 0 <= j < i ==> tasks[j] == old(tasks[j]).(active := false)
        invariant forall j :: i <= j < tasks.Length ==> tasks[j] == old(tasks[j])
      {
        tasks[i] := tasks[i].(active := false);
      }
      tasks[0] := tasks[0].(active := true);
      total := 1;
    }

    /** `*(--ks) = v`: a pointer to 64-bit words counts in words. */
    method Push(ks: nat, v: nat) returns (lower: nat)
      requires 0 < ks <= words.Length
      modifies words
      ensures lower == ks - 1 && words[lower] == v
      ensures forall j :: 0 <= j < words.Length && j != lower ==> words[j] == old(words[j])
    {
      lower := ks - 1;
      words[lower] := v;
    }

    /** schedule.c:91-100: what iretq pops, the vector and the error code. */
    method PushEntry(top: nat, entry: nat, stackTop: nat) returns (ks: nat)
      requires 7 <= top <= words.Length
      modifies words
      ensures ks == top - 7
      ensures words[top - 7..top] == EntryFrame(entry, stackTop)[15..]
      ensures forall j :: 0 <= j < words.Length && !(top - 7 <= j < top) ==> words[j] == old(words[j])
    {
      ks := Push(top, USER_DATA_SEL);
      ks := Push(ks, stackTop);
      ks := Push(ks, ENTRY_FLAGS);
      ks := Push(ks, USER_CODE_SEL);
      ks := Push(ks, entry);
      ks := Push(ks, 0);
      ks := Push(ks, 0);
    }

    /** schedule.c:88-104: the frame a new task starts from, below the top of its kernel stack page. */
    method BuildFrame(kstack: nat, entry: nat, stackTop: nat) returns (rsp: nat)
      requires kstack % PAGE_SIZE == 0 && kstack / 8 + 512 <= words.Length
      modifies words
      ensures rsp == InitialRsp(kstack)
      ensures rsp / 8 + FRAME_WORDS <= words.Length && FrameAt(words[..], rsp) == EntryFrame(entry, stackTop)
      ensures StartsUser(Restored(words[..], rsp), entry, stackTop)
      ensures OnlyPage(old(words[..]), words[..], kstack / PAGE_SIZE)
    {
      ghost var before := words[..];
      var top := kstack / 8 + 512;
      var ks := PushEntry(top, entry, stackTop);
      ghost var upper := words[top - 7..top];
      for i := 0 to 15
        invariant ks == top - 7 - i
        invariant forall j :: top - 7 <= j < top ==> words[j] == upper[j - (top - 7)]
        invariant forall j :: top - 7 - i <= j < top - 7 ==> words[j] == 0
        invariant forall j :: 0 <= j < words.Length && !(top - 7 - i <= j < top) ==> words[j] == before[j]
      {
        ks := Push(ks, 0);
      }
      FrameBuilt(before, words[..], kstack, upper, entry, stackTop);
      rsp := ks * 8;
    }

    /** Scheduler_AddUserTask: one page for the kernel stack is allocated even though the slot is already taken. */
    method AddUserTask(entry: nat, stackBase: nat, stackPages: nat)
      requires Separate() && pa.Valid() && words.Length == MAX_PAGES * ENTRIES && Scheduling.Ok(State())
      modifies this`total, tasks, words, pa.bitmap
      ensures old(total) >= tasks.Length ==>
        State() == old(State()) && pa.State() == old(pa.State()) && words[..] == old(words[..])
      ensures old(total) < tasks.Length ==>
        && pa.State() == Alloc(old(pa.State()), 1).0
        && State() == Scheduling.AddUserTask(old(State()), stackBase, stackPages, Alloc(old(pa.State()), 1).1)
        && FramePushed(old(words[..]), words[..], Alloc(old(pa.State()), 1).1, entry,
          stackBase + stackPages * PAGE_SIZE)
    {
      hide StartsUser, Restored, EntryFrame, FrameAt, Alloc, OnlyPage;
      if total >= tasks.Length {
        return;
      }
      var idx := total;
      total := total + 1;
      AllocLaw(pa.State(), 1);
      var kstack := pa.Alloc(1);
      if kstack == 0 {
        return;
      }
      var rsp := BuildFrame(kstack, entry, stackBase + stackPages * PAGE_SIZE);
      tasks[idx] := Task(rsp, true, stackBase, stackPages);
    }

    /** Scheduler_Switch: returns the frame to resume. */
    method Switch(frame: nat) returns (resumed: nat)
      requires Scheduling.Ok(State())
      modifies this`current, tasks
      ensures (State(), resumed) == Scheduling.Switch(old(State()), frame)
      ensures Alone(old(State())) ==> State() == old(State()) && resumed == frame
    {
      SwitchLaw(State(), frame);
      var nextIndex := -1;
      var i := 1;
      while i <= total
        invariant 1 <= i && nextIndex == -1 && Search(State(), i) == Next(State())
      {
        var idx := (current + i) % total;
        assert idx == Probe(State(), i);
        if tasks[idx].active && idx != current {
          nextIndex := idx;
          break;
        }
        i := i + 1;
      }
      if nextIndex == -1 || nextIndex == current {
        return frame;
      }
      tasks[current] := tasks[current].(rsp := frame);
      current := nextIndex;
      resumed := tasks[current].rsp;
    }

    /** Scheduler_TerminateCurrentTask: frees the user stack and returns the frame to resume. */
    method Terminate(frame: nat) returns (resumed: nat)
      requires Separate() && pa.Valid() && Scheduling.Ok(State())
      modifies this`current, tasks, pa.bitmap
      ensures (State(), resumed) == Scheduling.Terminate(old(State()), frame)
      ensures pa.State() == match Freed(old(State()))
        case None => old(pa.State())
        case Some(r) => FreeRun(old(pa.State()), r)
    {
      if current == 0 {
        return frame;
      }
      Bury();
      ghost var dead := State();
      var nextIndex := -1;
      var i := 1;
      while i <= total
        invariant 1 <= i && nextIndex == -1 && State() == dead && Search(dead, i) == Next(dead)
      {
        var idx := (current + i) % total;
        assert idx == Probe(dead, i);
        if tasks[idx].active {
          nextIndex := idx;
          break;
        }
        i := i + 1;
      }
      if nextIndex == -1 {
        nextIndex := 0;
      }
      current := nextIndex;
      resumed := tasks[current].rsp;
    }

    /** schedule.c:137-144: frees the current task's user stack and marks it inactive. */
    method Bury()
      requires Separate() && pa.Valid() && Scheduling.Ok(State()) && current != 0
      modifies tasks, pa.bitmap
      ensures State() == Dead(old(State()))
      ensures pa.State() == match Freed(old(State()))
        case None => old(pa.State())
        case Some(r) => FreeRun(old(pa.State()), r)
    {
      var task := tasks[current];
      if task.stackBase != 0 && task.stackPages > 0 {
        pa.Free(task.stackBase, task.stackPages);
        task := task.(stackBase := 0);
      }
      tasks[current] := task.(active := false);
    }
  }
}
