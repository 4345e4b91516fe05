/** nvme.c:25-122 and 248-300 on the rings in memory. The controller is part of the object, so that host and
    controller steps act on the same rings and doorbells. */
module Nvme {
  import opened Bits
  import opened NvmeQueue

  lemma IndicesInRange(s: State, c: Command)
    requires Quiet(s)
    ensures s.q.tail < |s.q.sq| && s.q.head < s.q.size <= |s.q.cq|
    ensures Submit(s, c).log.submitted == s.log.submitted + [c]
  {
  }

  class QueuePair {
    /** NVMe_Queue: identifier, rings, doorbell addresses, the host's indices and phase, and the doorbells' values. */
    const id: nat
    const size: nat
    const sq: array<Command>
    const cq: array<Completion>
    const doorbellTail: nat
    const doorbellHead: nat
    var tail: nat
    var head: nat
    var phase: nat
    var tailBell: nat
    var headBell: nat
    /** The controller's own indices and phase. */
    var sqHead: nat
    var cqTail: nat
    var ctrlPhase: nat
    /** The history of both sides. */
    var log: Log

    ghost function Abs(): State
      reads this, sq, cq
    {
      State(Queue(size, sq[..], cq[..], tail, head, phase, tailBell, headBell, sqHead, cqTail, ctrlPhase), log)
    }

    /** The fields as nvme.c:109-115 and 213-219 set them, over the given buffers. */
    constructor (id: nat, size: nat, sq: array<Command>, cq: array<Completion>, doorbellTail: nat, doorbellHead: nat)
      ensures this.id == id && this.size == size && this.sq == sq && this.cq == cq
      ensures this.doorbellTail == doorbellTail && this.doorbellHead == doorbellHead
      ensures Abs() == Fresh(size, sq[..], cq[..])
    {
      this.id, this.size := id, size;
      this.doorbellTail, this.doorbellHead := doorbellTail, doorbellHead;
      this.sq, this.cq := sq, cq;
      tail, head, phase := 0, 0, 1;
      tailBell, headBell := 0, 0;
      sqHead, cqTail, ctrlPhase := 0, 0, 1;
      log := Log([], [], [], [], []);
    }

    /** NVMe_SubmitCommand */
    method SubmitCommand(c: Command)
      requires tail < sq.Length
      modifies this`tail, this`tailBell, this`log, sq
      ensures Abs() == Submit(old(Abs()), c)
    {
      sq[tail] := c;
      tail := tail + 1;
      if tail >= size {
        tail := 0;
      }
      tailBell := tail;
      log := log.(submitted := log.submitted + [c]);
    }

    /** nvme.c:53-60 and 64-69: the entry at the head is consumed. */
    method ConsumeEntry()
      requires head < cq.Length
      modifies this`head, this`phase, this`headBell, this`log
      ensures Abs() == Consume(old(Abs()))
    {
      log := log.(seen := log.seen + [cq[head]]);
      head := head + 1;
      if head >= size {
        head := 0;
        phase := if phase == 0 then 1 else 0;
      }
      headBell := head;
    }

    /** One step of the controller, if it is enabled. */
    method DeviceStep(d: Device)
      modifies this`sqHead, this`cqTail, this`ctrlPhase, this`log, cq
      ensures Abs() == Act(old(Abs()), d)
    {
      match d {
        case Rest =>
        case Fetch =>
          if sqHead < sq.Length && sqHead != tailBell {
            log := log.(taken := log.taken + [sq[sqHead]]);
            sqHead := Advance(sqHead, size);
          }
        case Post(i, status) =>
          if cqTail < cq.Length && i < |log.taken| && i !in log.owner && Advance(cqTail, size) != headBell {
            var entry := Completion(log.taken[i].id, 2 * status + ctrlPhase);
            cq[cqTail] := entry;
            log := log.(written := log.written + [entry], owner := log.owner + [i]);
            if cqTail + 1 >= size {
              ctrlPhase := if ctrlPhase == 0 then 1 else 0;
            }
            cqTail := Advance(cqTail, size);
          }
      }
    }

    /** NVMe_WaitForCompletion, for as long as the controller's steps in `ds` last; `done` says that it returned. */
    method WaitForCompletion(cid: nat, ds: seq<Device>) returns (done: bool)
      requires head < size <= cq.Length
      modifies this`head, this`phase, this`headBell, this`sqHead, this`cqTail, this`ctrlPhase, this`log, cq
      ensures (Abs(), done) == Wait(old(Abs()), cid, ds)
    {
      for k := 0 to |ds|
        invariant head < size && tail == old(tail) && tailBell == old(tailBell)
        invariant Wait(Abs(), cid, ds[k..]) == Wait(old(Abs()), cid, ds)
      {
        assert ds[k..][0] == ds[k] && ds[k..][1..] == ds[k + 1..];
        DeviceStep(ds[k]);
        if cq[head].status % 2 == phase {
          if cq[head].id == cid {
            ConsumeEntry();
            return true;
          } else {
            ConsumeEntry();
          }
        }
      }
      return false;
    }

    /** Submit and wait, as every caller in nvme.c does. If the call returns, the completion it consumed is that of
        its own command; as long as it does not, the controller has not completed the command. */
    method Execute(c: Command, ds: seq<Device>) returns (done: bool)
      requires Quiet(Abs())
      modifies this`tail, this`tailBell, this`head, this`phase, this`headBell, this`sqHead, this`cqTail,
        this`ctrlPhase, this`log, sq, cq
      ensures (Abs(), done) == Wait(Submit(old(Abs()), c), c.id, ds)
      ensures log.submitted == old(log.submitted) + [c]
      ensures done ==>
        Quiet(Abs()) && log.seen[|log.seen| - 1].id == c.id && log.owner[|log.seen| - 1] == |log.submitted| - 1
      ensures !done ==> Outstanding(Abs(), c.id) && (ds != [] ==> |log.written| == |log.seen|)
      ensures done <==> Served(ds, |old(log.submitted)|)
    {
      IndicesInRange(Abs(), c);
      SubmitQuiet(Abs(), c);
      ghost var s0 := Submit(Abs(), c);
      hide Inv, InOrder, Wait;
      SubmitCommand(c);
      WaitOutstanding(s0, c.id, ds);
      CallReturnsIff(old(Abs()), c, ds);
      done := WaitForCompletion(c.id, ds);
    }

    /** NVMe_Read */
    method Read(nsid: nat, lba: nat, buffer: nat, count: nat, ds: seq<Device>) returns (done: bool)
      requires Quiet(Abs())
      modifies this`tail, this`tailBell, this`head, this`phase, this`headBell, this`sqHead, this`cqTail,
        this`ctrlPhase, this`log, sq, cq
      ensures |log.submitted| == |old(log.submitted)| + 1 && old(log.submitted) <= log.submitted
      ensures var c := log.submitted[|old(log.submitted)|];
        && c.opcode == 0x02 && c.id == 100 && c.nsid == nsid && c.prp1 == buffer
        && (lba < WORD && count < DWORD ==>
              && c.cdw11 * DWORD + c.cdw10 == lba
              && (c.cdw12 + 1 == count <==> 1 <= count <= 0x1_0000))
      ensures (Abs(), done) == Wait(Submit(old(Abs()), Transfer(OP_READ, READ_ID, nsid, lba, buffer, count)),
        READ_ID, ds)
      ensures if done then Quiet(Abs()) && log.seen[|log.seen| - 1].id == READ_ID else Outstanding(Abs(), READ_ID)
      ensures done <==> Served(ds, |old(log.submitted)|)
    {
      if lba < WORD && count < DWORD { TransferDecodes(OP_READ, READ_ID, nsid, lba, buffer, count); }
      done := Execute(Transfer(OP_READ, READ_ID, nsid, lba, buffer, count), ds);
    }

    /** NVMe_Write */
    method Write(nsid: nat, lba: nat, buffer: nat, count: nat, ds: seq<Device>) returns (done: bool)
      requires Quiet(Abs())
      modifies this`tail, this`tailBell, this`head, this`phase, this`headBell, this`sqHead, this`cqTail,
        this`ctrlPhase, this`log, sq, cq
      ensures |log.submitted| == |old(log.submitted)| + 1 && old(log.submitted) <= log.submitted
      ensures var c := log.submitted[|old(log.submitted)|];
        && c.opcode == 0x01 && c.id == 101 && c.nsid == nsid && c.prp1 == buffer
        && (lba < WORD && count < DWORD ==>
              && c.cdw11 * DWORD + c.cdw10 == lba
              && (c.cdw12 + 1 == count <==> 1 <= count <= 0x1_0000))
      ensures (Abs(), done) == Wait(Submit(old(Abs()), Transfer(OP_WRITE, WRITE_ID, nsid, lba, buffer, count)),
        WRITE_ID, ds)
      ensures if done then Quiet(Abs()) && log.seen[|log.seen| - 1].id == WRITE_ID else Outstanding(Abs(), WRITE_ID)
      ensures done <==> Served(ds, |old(log.submitted)|)
    {
      if lba < WORD && count < DWORD { TransferDecodes(OP_WRITE, WRITE_ID, nsid, lba, buffer, count); }
      done := Execute(Transfer(OP_WRITE, WRITE_ID, nsid, lba, buffer, count), ds);
    }
  }

  const IO_QUEUE_SIZE: nat := 64
  const CREATE_CQ_ID: nat := 2
  const CREATE_SQ_ID: nat := 3

  /** The two admin commands of NVMe_SetupIOQueues: queue 1 with 64 entries, physically contiguous, completions to
      queue 1. */
  function CreateIoCq(buffer: nat): Command {
    Command(0x05, CREATE_CQ_ID, 0, buffer, (IO_QUEUE_SIZE - 1) * 0x1_0000 + 1, 1, 0)
  }

  function CreateIoSq(buffer: nat): Command {
    Command(0x01, CREATE_SQ_ID, 0, buffer, (IO_QUEUE_SIZE - 1) * 0x1_0000 + 1, 0x1_0000 + 1, 0)
  }

  /** How a controller reads the two commands (sections 5.3 and 5.4 of the NVM Express Base Specification 1.4): dword
      10 holds the queue's identifier and its size less one, bit 0 alone of dword 11's lower half says that the
      buffer is contiguous and interrupts are off. */
  predicate CreatesQueue(c: Command, opcode: nat, buffer: nat, id: nat, size: nat) {
    && c.opcode == opcode && c.prp1 == buffer
    && c.cdw10 % 0x1_0000 == id && c.cdw10 / 0x1_0000 + 1 == size
    && c.cdw11 % 0x1_0000 == 1
  }

  /** The upper half of dword 11 names the completion queue to use. */
  function CompletionQueue(c: Command): nat { c.cdw11 / 0x1_0000 }

  /** NVMe_SetupIOQueues over zeroed static buffers, which may hold more entries than the queue uses. It goes through
      exactly when the controller serves the two admin commands; then the I/O queue pair is ready for calls, and its
      doorbells are those of queue 1 (section 3.1 of the NVM Express Base Specification 1.4, stride 0). */
  method SetupIOQueues(admin: QueuePair, sqBuffer: array<Command>, cqBuffer: array<Completion>, sqAddress: nat,
                       cqAddress: nat, regs: nat, ds2: seq<Device>, ds3: seq<Device>)
    returns (io: QueuePair?)
    requires Quiet(admin.Abs()) && sqBuffer != admin.sq && cqBuffer != admin.cq
    requires IO_QUEUE_SIZE <= sqBuffer.Length && IO_QUEUE_SIZE <= cqBuffer.Length
    requires forall i :: 0 <= i < cqBuffer.Length ==> cqBuffer[i].status == 0
    modifies admin, admin.sq, admin.cq
    ensures io != null ==>
      && fresh(io) && io.id == 1 && io.size == 64 && io.sq == sqBuffer && io.cq == cqBuffer
      && io.doorbellTail == regs + 0x1008 && io.doorbellHead == regs + 0x100C
      && Quiet(io.Abs()) && Quiet(admin.Abs())
      && |admin.log.submitted| == |old(admin.log.submitted)| + 2 && old(admin.log.submitted) <= admin.log.submitted
      && CreatesQueue(admin.log.submitted[|old(admin.log.submitted)|], 0x05, cqAddress, io.id, io.size)
      && CreatesQueue(admin.log.submitted[|old(admin.log.submitted)| + 1], 0x01, sqAddress, io.id, io.size)
      && CompletionQueue(admin.log.submitted[|old(admin.log.submitted)| + 1]) == io.id
    ensures io == null ==> Outstanding(admin.Abs(), CREATE_CQ_ID) || Outstanding(admin.Abs(), CREATE_SQ_ID)
    ensures io != null <==>
      Served(ds2, |old(admin.log.submitted)|) && Served(ds3, |old(admin.log.submitted)| + 1)
  {
    hide Quiet, Outstanding, Wait, Submit, Fresh, Served;
    var done := admin.Execute(CreateIoCq(cqAddress), ds2);
    if !done {
      return null;
    }
    done := admin.Execute(CreateIoSq(sqAddress), ds3);
    if !done {
      return null;
    }
    var doorbells := regs + 0x1000;
    FreshQuiet(IO_QUEUE_SIZE, sqBuffer[..], cqBuffer[..]);
    io := new QueuePair(1, IO_QUEUE_SIZE, sqBuffer, cqBuffer, doorbells + 8, doorbells + 12);
  }
}
