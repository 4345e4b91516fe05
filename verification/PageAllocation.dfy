/** memory.c:8-85: the physical page allocator, a bitmap with one bit a page. */
module PageAllocation {
  import opened Bits

  const PAGE_SIZE: nat := 4096
  const MAX_PAGES: nat := 1024 * 1024

  /** The memory types of efi.h, in its order. */
  datatype MemoryType =
    | ReservedMemory | LoaderCode | LoaderData | BootServicesCode | BootServicesData
    | RuntimeServicesCode | RuntimeServicesData | ConventionalMemory | UnusableMemory
    | ACPIReclaimMemory | ACPIMemoryNVS | MemoryMappedIO | MemoryMappedIOPortSpace
    | PalCode | PersistentMemory

  datatype Descriptor = Descriptor(kind: MemoryType, start: nat, pages: nat) {
    /** Memory the allocator may hand out. */
    predicate Usable() {
      kind == ConventionalMemory || kind == BootServicesCode || kind == BootServicesData
    }

    function FirstPage(): nat { start / PAGE_SIZE }

    function LastPage(): nat { (start + pages * PAGE_SIZE + PAGE_SIZE - 1) / PAGE_SIZE }

    /** Page `p` lies in the range, its first page counted whole even if the range starts inside it. */
    predicate Covers(p: nat) { FirstPage() <= p < FirstPage() + pages }

    /** The end of the range fits in 64 bits with room to round up. */
    predicate Fits() { start + pages * PAGE_SIZE + PAGE_SIZE - 1 < WORD }
  }

  /** What the allocator knows: the pages in use, and the number of pages it scans. */
  datatype Pages = Pages(used: set<nat>, total: nat) {
    ghost predicate Valid() {
      total < MAX_PAGES && forall p :: p in used ==> p < MAX_PAGES
    }
  }

  datatype Run = Run(start: nat, pages: nat) {
    predicate Has(p: nat) { start <= p < start + pages }

    function All(): set<nat> { set p: nat | start <= p < start + pages && Has(p) }
  }

  function Below(n: nat): set<nat> { Run(0, n).All() }

  // ---------------------------------------------------------------- operations

  function AddDescriptor(st: Pages, d: Descriptor): Pages {
    Pages(
      if d.Usable() then st.used - Run(d.FirstPage(), d.pages).All() else st.used,
      if d.LastPage() > st.total && d.LastPage() < MAX_PAGES then d.LastPage() else st.total)
  }

  function Scan(st: Pages, ds: seq<Descriptor>): Pages
    decreases |ds|
  {
    if ds == [] then st else Scan(AddDescriptor(st, ds[0]), ds[1..])
  }

  function Init(total: nat, ds: seq<Descriptor>): Pages {
    Scan(Pages(Below(MAX_PAGES), total), ds)
  }

  function MarkUsed(st: Pages, r: Run): Pages {
    st.(used := st.used + r.All() * Below(MAX_PAGES))
  }

  function FreeRun(st: Pages, r: Run): Pages {
    st.(used := st.used - r.All())
  }

  ghost predicate AllFree(st: Pages, r: Run) {
    forall p :: r.Has(p) ==> p !in st.used
  }

  /** A run the allocator may return: it starts at page 1 or later and ends inside the scanned pages. */
  ghost predicate Available(st: Pages, r: Run) {
    r.pages > 0 && 1 <= r.start && r.start + r.pages <= st.total && AllFree(st, r)
  }

  /** The lowest start from `i` on of a free run of `n` pages, or `total` if there is none. */
  ghost function LowestFrom(st: Pages, i: nat, n: nat): (s: nat)
    requires i <= st.total
    ensures i <= s <= st.total
    decreases st.total - i
  {
    if i + n > st.total then st.total
    else if AllFree(st, Run(i, n)) then i
    else if i < st.total then LowestFrom(st, i + 1, n)
    else st.total
  }

  /** The allocator's new state and the address it returns, 0 for NULL. */
  ghost function Alloc(st: Pages, n: nat): (Pages, nat) {
    if n == 0 || n > st.total then (st, 0)
    else
      var s := LowestFrom(st, 1, n);
      if s == st.total then (st, 0) else (st.(used := st.used + Run(s, n).All()), s * PAGE_SIZE)
  }

  // ---------------------------------------------------------------- laws

  lemma {:induction false} LowestFromLaw(st: Pages, i: nat, n: nat)
    requires i <= st.total && n > 0
    ensures var s := LowestFrom(st, i, n);
      && (s < st.total ==> s + n <= st.total && AllFree(st, Run(s, n)))
      && (forall j :: i <= j < s && j + n <= st.total ==> !AllFree(st, Run(j, n)))
    decreases st.total - i
  {
    if i + n <= st.total && !AllFree(st, Run(i, n)) && i < st.total {
      LowestFromLaw(st, i + 1, n);
    }
  }

  /** Alloc returns the lowest available run, NULL iff there is none, and marks exactly that run. */
  lemma AllocLaw(st: Pages, n: nat)
    requires st.Valid()
    ensures var (st', a) := Alloc(st, n);
      && a % PAGE_SIZE == 0
      && (a == 0 <==> forall s :: !Available(st, Run(s, n)))
      && (a == 0 ==> st' == st)
      && (a != 0 ==> var r := Run(a / PAGE_SIZE, n);
                     && Available(st, r) && st' == st.(used := st.used + r.All())
                     && forall s :: Available(st, Run(s, n)) ==> r.start <= s)
      && st'.Valid()
  {
    if 0 < n <= st.total {
      LowestFromLaw(st, 1, n);
      var s := LowestFrom(st, 1, n);
      if s < st.total {
        assert Available(st, Run(s, n));
      }
    }
  }

  /** Freeing what Alloc returned restores every bit. */
  lemma AllocThenFree(st: Pages, n: nat)
    requires st.Valid()
    ensures var (st', a) := Alloc(st, n); a != 0 ==> FreeRun(st', Run(a / PAGE_SIZE, n)) == st
  {
    AllocLaw(st, n);
    var (st', a) := Alloc(st, n);
    if a != 0 {
      var r := Run(a / PAGE_SIZE, n);
      assert forall p :: p in r.All() <==> r.Has(p);
      assert st.used + r.All() - r.All() == st.used;
    }
  }

  lemma {:induction false} ScanLaw(st: Pages, ds: seq<Descriptor>, p: nat)
    ensures p in Scan(st, ds).used <==> p in st.used && forall d :: d in ds ==> !(d.Usable() && d.Covers(p))
    ensures st.total <= Scan(st, ds).total && (st.total < MAX_PAGES ==> Scan(st, ds).total < MAX_PAGES)
    ensures forall d :: d in ds && d.LastPage() < MAX_PAGES ==> d.LastPage() <= Scan(st, ds).total
    ensures Scan(st, ds).total == st.total || exists d :: d in ds && d.LastPage() == Scan(st, ds).total
    decreases |ds|
  {
    if ds != [] {
      ScanLaw(AddDescriptor(st, ds[0]), ds[1..], p);
      assert forall d :: d in ds <==> d == ds[0] || d in ds[1..];
    }
  }

  /** After Init and MarkUsed a page below MAX_PAGES is free iff a usable descriptor covers it and it is not
      marked, whatever the list; the scan bound is the greatest last page below MAX_PAGES. */
  lemma BootLaw(total: nat, ds: seq<Descriptor>, image: Run, p: nat)
    requires total < MAX_PAGES && p < MAX_PAGES
    ensures p !in MarkUsed(Init(total, ds), image).used <==>
      (exists d :: d in ds && d.Usable() && d.Covers(p)) && !image.Has(p)
    ensures MarkUsed(Init(total, ds), image).Valid()
  {
    ScanLaw(Pages(Below(MAX_PAGES), total), ds, p);
    forall q | q in MarkUsed(Init(total, ds), image).used ensures q < MAX_PAGES {
      ScanLaw(Pages(Below(MAX_PAGES), total), ds, q);
    }
  }

  /** A range that starts on a page covers the pages whose address lies in it; three types of memory are usable. */
  lemma CoversBytes(d: Descriptor, p: nat)
    ensures d.start % PAGE_SIZE == 0 ==> (d.Covers(p) <==> d.start <= p * PAGE_SIZE < d.start + d.pages * PAGE_SIZE)
    ensures d.Usable() <==> d.kind in {ConventionalMemory, BootServicesCode, BootServicesData}
  {
  }

  /** The range ends within the pages the bitmap has. */
  predicate EndsWithin(d: Descriptor) {
    d.start + d.pages * PAGE_SIZE <= (MAX_PAGES - 1) * PAGE_SIZE
  }

  /** `t` is the first page wholly past the range. */
  predicate FirstPast(d: Descriptor, t: nat) {
    d.start + d.pages * PAGE_SIZE <= t * PAGE_SIZE < d.start + d.pages * PAGE_SIZE + PAGE_SIZE
  }

  lemma LastPageIs(d: Descriptor, p: nat)
    ensures FirstPast(d, d.LastPage()) && (EndsWithin(d) <==> d.LastPage() < MAX_PAGES)
    ensures d.Covers(p) ==> p < d.LastPage()
  {
    var end := d.start + d.pages * PAGE_SIZE;
    assert d.start / PAGE_SIZE * PAGE_SIZE <= d.start;
  }

  /** The page count after Init lies past every page of every range that ends within the bitmap, and grew only to the
      first page past one of them. */
  lemma CountLaw(total: nat, ds: seq<Descriptor>)
    requires total < MAX_PAGES
    ensures var count := Init(total, ds).total;
      && total <= count < MAX_PAGES
      && (forall d, p: nat :: d in ds && EndsWithin(d) && d.Covers(p) ==> p < count)
      && (count == total || exists d :: d in ds && EndsWithin(d) && FirstPast(d, count))
  {
    var count := Init(total, ds).total;
    ScanLaw(Pages(Below(MAX_PAGES), total), ds, 0);
    forall d, p: nat | d in ds && EndsWithin(d) && d.Covers(p) ensures p < count {
      LastPageIs(d, p);
    }
    if count != total {
      var d :| d in ds && d.LastPage() == count;
      LastPageIs(d, 0);
    }
  }

  /** Page `p` is usable memory outside the kernel image, and not page 0. */
  ghost predicate Spare(ds: seq<Descriptor>, image: Run, p: nat) {
    p > 0 && !image.Has(p) && exists d :: d in ds && d.Usable() && d.Covers(p)
  }

  /** After boot a one-page allocation fails exactly if no spare page lies below the page count; so it succeeds whenever
      a range that ends within the bitmap has one. */
  lemma BootAllocLaw(ds: seq<Descriptor>, image: Run)
    ensures var st := MarkUsed(Init(0, ds), image);
      Alloc(st, 1).1 == 0 <==> forall p: nat :: p < Init(0, ds).total ==> !Spare(ds, image, p)
    ensures forall d, p: nat :: d in ds && EndsWithin(d) && d.Usable() && d.Covers(p) && p > 0 && !image.Has(p) ==>
      Alloc(MarkUsed(Init(0, ds), image), 1).1 != 0
  {
    var st := MarkUsed(Init(0, ds), image);
    CountLaw(0, ds);
    BootLaw(0, ds, image, 0);
    AllocLaw(st, 1);
    forall p: nat | p < st.total ensures Available(st, Run(p, 1)) <==> Spare(ds, image, p) {
      BootLaw(0, ds, image, p);
      assert Run(p, 1).Has(p);
    }
    if Alloc(st, 1).1 != 0 {
      var p := Alloc(st, 1).1 / PAGE_SIZE;
      assert Available(st, Run(p, 1));
    }
    forall d, p: nat | d in ds && EndsWithin(d) && d.Usable() && d.Covers(p) && p > 0 && !image.Has(p)
      ensures Alloc(st, 1).1 != 0
    {
      assert Spare(ds, image, p);
    }
  }

  // ---------------------------------------------------------------- runs with owners

  datatype Request = AllocReq(pages: nat) | FreeReq(run: Run)

  /** The allocator together with the runs handed out and not yet freed. */
  datatype Owned = Owned(st: Pages, runs: set<Run>)

  ghost predicate Covered(runs: set<Run>, p: nat) {
    exists r :: r in runs && r.Has(p)
  }

  /** Callers free only runs they own, as the whole runs they were given. */
  ghost predicate Legal(o: Owned, q: Request) {
    q.FreeReq? ==> q.run in o.runs
  }

  ghost function Serve(o: Owned, q: Request): Owned
    requires Legal(o, q)
  {
    match q
    case AllocReq(n) =>
      var (st', a) := Alloc(o.st, n);
      if a == 0 then o else Owned(st', o.runs + {Run(a / PAGE_SIZE, n)})
    case FreeReq(r) => Owned(FreeRun(o.st, r), o.runs - {r})
  }

  ghost predicate LegalRun(o: Owned, qs: seq<Request>)
    decreases |qs|
  {
    qs == [] || (Legal(o, qs[0]) && LegalRun(Serve(o, qs[0]), qs[1..]))
  }

  ghost function ServeAll(o: Owned, qs: seq<Request>): Owned
    requires LegalRun(o, qs)
    decreases |qs|
  {
    if qs == [] then o else ServeAll(Serve(o, qs[0]), qs[1..])
  }

  /** Since `boot`, exactly the owned runs have been taken; they avoid page 0, each other and
      everything that was in use at boot. */
  ghost predicate Accounted(boot: Pages, o: Owned) {
    && boot.Valid() && o.st.total == boot.total
    && (forall p :: p in o.st.used <==> p in boot.used || Covered(o.runs, p))
    && (forall r :: r in o.runs ==> Available(boot, r))
    && (forall r, s, p :: r in o.runs && s in o.runs && r.Has(p) && s.Has(p) ==> r == s)
  }

  lemma AccountedValid(boot: Pages, o: Owned)
    requires Accounted(boot, o)
    ensures o.st.Valid()
  {
    forall p | p in o.st.used ensures p < MAX_PAGES {
      if p !in boot.used {
        var r :| r in o.runs && r.Has(p);
        assert Available(boot, r);
      }
    }
  }

  lemma ServeAccounted(boot: Pages, o: Owned, q: Request)
    requires Accounted(boot, o) && Legal(o, q)
    ensures Accounted(boot, Serve(o, q))
  {
    AccountedValid(boot, o);
    match q
    case AllocReq(n) =>
      AllocLaw(o.st, n);
      var (st', a) := Alloc(o.st, n);
      if a != 0 {
        var r := Run(a / PAGE_SIZE, n);
        var o' := Serve(o, q);
        forall s, p | s in o.runs && s.Has(p) ensures !r.Has(p) {
          assert Covered(o.runs, p);
        }
        forall p ensures p in o'.st.used <==> p in boot.used || Covered(o'.runs, p) {
          assert r in o'.runs;
          if Covered(o'.runs, p) {
            var s :| s in o'.runs && s.Has(p);
          }
          if Covered(o.runs, p) {
            var s :| s in o.runs && s.Has(p);
            assert s in o'.runs;
          }
        }
      }
    case FreeReq(r) =>
      var o' := Serve(o, q);
      forall p ensures p in o'.st.used <==> p in boot.used || Covered(o'.runs, p) {
        if r.Has(p) {
          assert p !in boot.used;
          assert !Covered(o'.runs, p);
        } else if Covered(o.runs, p) {
          var s :| s in o.runs && s.Has(p);
          assert s in o'.runs;
        }
      }
  }

  /** Over every run whose frees are of owned runs, nothing in use at boot, and not page 0, is ever handed out. */
  lemma {:induction false} RunAccounted(boot: Pages, o: Owned, qs: seq<Request>)
    requires Accounted(boot, o) && LegalRun(o, qs)
    ensures Accounted(boot, ServeAll(o, qs))
    decreases |qs|
  {
    if qs != [] {
      ServeAccounted(boot, o, qs[0]);
      RunAccounted(boot, Serve(o, qs[0]), qs[1..]);
    }
  }

  /** When every run has been given back, the bitmap is the one at boot, bit for bit. */
  lemma AllReturned(boot: Pages, qs: seq<Request>)
    requires boot.Valid() && LegalRun(Owned(boot, {}), qs)
    requires ServeAll(Owned(boot, {}), qs).runs == {}
    ensures ServeAll(Owned(boot, {}), qs).st == boot
  {
    RunAccounted(boot, Owned(boot, {}), qs);
  }
}
