/** The address space memory.c:146-216 sets up: ranges of memory mapped to themselves, a later mapping of a
    page replacing an earlier one. */
module IdentityMap {
  import opened Bits
  import opened PageAllocation
  import opened PageTree

  type Space = imap<VPage, Mapping>

  /** Addresses below this bound have nothing above the four indices and the offset. */
  const LIMIT: nat := 0x1_0000_0000_0000

  /** The lowest address of a virtual page. */
  function Base(p: VPage): nat {
    (((p.i4 * 512 + p.i3) * 512 + p.i2) * 512 + p.i1) * PAGE_SIZE
  }

  predicate InRange(p: VPage, start: nat, end: nat) {
    p.Valid() && start <= Base(p) < end
  }

  /** The pages of `[start, end)` mapped to themselves with `flags`; all others as in `space`. */
  ghost function Overlay(space: Space, start: nat, end: nat, flags: nat): Space {
    imap p: VPage | p in space || InRange(p, start, end) ::
      if InRange(p, start, end) then Target(Base(p), flags) else space[p]
  }

  /** The descriptor types PageTable_Init maps (memory.c:159-166). */
  predicate Mapped(d: Descriptor) {
    match d.kind
    case ConventionalMemory | LoaderCode | LoaderData | BootServicesCode | BootServicesData => true
    case RuntimeServicesCode | RuntimeServicesData | ACPIReclaimMemory | ACPIMemoryNVS => true
    case MemoryMappedIO | MemoryMappedIOPortSpace => true
    case ReservedMemory | UnusableMemory | PalCode | PersistentMemory => false
  }

  const READ_WRITE_USER: nat := 6
  const IOAPIC_BASE: nat := 0xFEC0_0000

  ghost function MapOne(space: Space, d: Descriptor): Space {
    if Mapped(d) then Overlay(space, d.start, d.start + d.pages * PAGE_SIZE, READ_WRITE_USER) else space
  }

  /** memory.c:155-176 */
  ghost function MapDescriptors(space: Space, ds: seq<Descriptor>): Space
    decreases |ds|
  {
    if ds == [] then space
    else
      MapDescriptors(MapOne(space, ds[0]), ds[1..])
  }

  function StackBase(rsp: nat): nat {
    AndNot(rsp, 0xF_FFFF)
  }

  /** memory.c:179-199: framebuffer, local APIC, I/O APIC, then the boot stack. */
  ghost function WithDevices(memory: Space, fb: nat, fbSize: nat, lapic: nat, rsp: nat): Space {
    var withFb := Overlay(memory, fb, fb + fbSize, READ_WRITE_USER);
    var withLapic := if lapic != 0 then Overlay(withFb, lapic, lapic + PAGE_SIZE, WRITABLE) else withFb;
    var withIoapic := Overlay(withLapic, IOAPIC_BASE, IOAPIC_BASE + 0x1000, WRITABLE);
    Overlay(withIoapic, StackBase(rsp), StackBase(rsp) + 0x10_0000, READ_WRITE_USER)
  }

  /** The whole of PageTable_Init. */
  ghost function InitialSpace(ds: seq<Descriptor>, fb: nat, fbSize: nat, lapic: nat, rsp: nat): Space {
    WithDevices(MapDescriptors(imap[], ds), fb, fbSize, lapic, rsp)
  }

  // ---------------------------------------------------------------- laws

  lemma BaseOf(addr: nat)
    requires addr % PAGE_SIZE == 0 && addr < LIMIT
    ensures PageOf(addr).Valid() && Base(PageOf(addr)) == addr
  {
    PageNumber(addr);
  }

  lemma NextPage(addr: nat)
    requires addr % PAGE_SIZE == 0
    ensures (addr + PAGE_SIZE) % PAGE_SIZE == 0
  {
  }

  /** Pages are determined by their base. */
  lemma BaseInjective(p: VPage, q: VPage)
    requires p.Valid() && q.Valid() && Base(p) == Base(q)
    ensures p == q
  {
    var x, y := (p.i4 * 512 + p.i3) * 512 + p.i2, (q.i4 * 512 + q.i3) * 512 + q.i2;
    SameDigits(x, p.i1, y, q.i1);
    SameDigits(p.i4 * 512 + p.i3, p.i2, q.i4 * 512 + q.i3, q.i2);
    SameDigits(p.i4, p.i3, q.i4, q.i3);
  }

  lemma SameDigits(a: nat, b: nat, c: nat, d: nat)
    requires a * 512 + b == c * 512 + d && b < 512 && d < 512
    ensures a == c && b == d
  {
  }

  /** One more page mapped extends the range by that page. */
  lemma OverlayStep(space: Space, start: nat, addr: nat, flags: nat)
    requires start <= addr < LIMIT && addr % PAGE_SIZE == 0
    ensures Overlay(space, start, addr + PAGE_SIZE, flags) ==
      Overlay(space, start, addr, flags)[PageOf(addr) := Target(addr, flags)]
  {
    BaseOf(addr);
    hide Target, PageOf;
    forall p: VPage ensures InRange(p, start, addr + PAGE_SIZE) <==> InRange(p, start, addr) || p == PageOf(addr) {
      if p.Valid() && addr <= Base(p) < addr + PAGE_SIZE {
        AlignedGap(((p.i4 * 512 + p.i3) * 512 + p.i2) * 512 + p.i1, addr);
        BaseInjective(p, PageOf(addr));
      }
    }
  }

  lemma AlignedGap(n: nat, addr: nat)
    requires addr % PAGE_SIZE == 0 && addr <= n * PAGE_SIZE < addr + PAGE_SIZE
    ensures n * PAGE_SIZE == addr
  {
  }

  /** Mapping whole pages until `addr` reaches `end` covers the pages based below `end`. */
  lemma OverlayRound(space: Space, start: nat, addr: nat, end: nat, flags: nat)
    requires start % PAGE_SIZE == 0 && addr % PAGE_SIZE == 0
    requires end <= addr && (addr == start || addr < end + PAGE_SIZE)
    ensures Overlay(space, start, addr, flags) == Overlay(space, start, end, flags)
  {
    hide Target, Base;
    forall p: VPage ensures InRange(p, start, addr) <==> InRange(p, start, end) {
      if p.Valid() { PagesBelow(p, addr, end); }
    }
  }

  lemma PagesBelow(p: VPage, addr: nat, end: nat)
    requires addr % PAGE_SIZE == 0 && end <= addr
    ensures addr < end + PAGE_SIZE && Base(p) < addr ==> Base(p) < end
  {
    var n := ((p.i4 * 512 + p.i3) * 512 + p.i2) * 512 + p.i1;
    assert Base(p) == n * PAGE_SIZE && addr == addr / PAGE_SIZE * PAGE_SIZE;
  }

  lemma EmptyOverlay(space: Space, start: nat, flags: nat)
    ensures Overlay(space, start, start, flags) == space
  {
  }

  /** The stack window is the aligned megabyte that holds `rsp`. */
  lemma StackAligned(rsp: nat)
    ensures StackBase(rsp) % PAGE_SIZE == 0 && StackBase(rsp) % 0x10_0000 == 0
    ensures StackBase(rsp) <= rsp < StackBase(rsp) + 0x10_0000
  {
    assert Pow2(12) == 0x1000;
    assert Pow2(16) == 0x1_0000;
    assert Pow2(20) == 0x10_0000;
    AndNotMask(rsp, 20);
    hide Pow2, AndNot;
    MultipleBelow(rsp, 0x10_0000, StackBase(rsp));
  }

  /** No translation of the space leads anywhere but to the page itself. */
  ghost predicate Identity(space: Space) {
    forall p :: p in space ==> p.Valid() && space[p].frame == Base(p)
  }

  lemma OverlayIdentity(space: Space, start: nat, end: nat, flags: nat)
    requires Identity(space)
    ensures Identity(Overlay(space, start, end, flags))
    ensures forall p :: InRange(p, start, end) ==> p in Overlay(space, start, end, flags)
    ensures forall p :: p in space ==> p in Overlay(space, start, end, flags)
  {
  }

  ghost predicate InDescriptors(ds: seq<Descriptor>, p: VPage) {
    exists d :: d in ds && Mapped(d) && InRange(p, d.start, d.start + d.pages * PAGE_SIZE)
  }

  lemma {:induction false} MapDescriptorsIdentity(space: Space, ds: seq<Descriptor>)
    requires Identity(space)
    ensures Identity(MapDescriptors(space, ds))
    decreases |ds|
  {
    if ds != [] {
      OverlayIdentity(space, ds[0].start, ds[0].start + ds[0].pages * PAGE_SIZE, READ_WRITE_USER);
      hide Identity, Overlay;
      MapDescriptorsIdentity(MapOne(space, ds[0]), ds[1..]);
    }
  }

  lemma {:induction false} MapDescriptorsLaw(space: Space, ds: seq<Descriptor>, p: VPage)
    ensures p in MapDescriptors(space, ds) <==> p in space || InDescriptors(ds, p)
    decreases |ds|
  {
    if ds != [] {
      hide InRange, Target, Mapped;
      MapDescriptorsLaw(MapOne(space, ds[0]), ds[1..], p);
      assert forall e :: e in ds <==> e == ds[0] || e in ds[1..];
    }
  }

  /** A page of the initial space is one of a mapped descriptor, the framebuffer, an APIC or the boot stack;
      it translates to itself; and its rights are those of the last of these that contains it. */
  lemma InitialSpaceLaw(ds: seq<Descriptor>, fb: nat, fbSize: nat, lapic: nat, rsp: nat, p: VPage)
    ensures var space := InitialSpace(ds, fb, fbSize, lapic, rsp);
      var inStack := InRange(p, StackBase(rsp), StackBase(rsp) + 0x10_0000);
      var inApic := InRange(p, 0xFEC0_0000, 0xFEC0_1000) ||
        (lapic != 0 && InRange(p, lapic, lapic + PAGE_SIZE));
      var inMemory := InRange(p, fb, fb + fbSize) || InDescriptors(ds, p);
      && Identity(space)
      && (p in space <==> inStack || inApic || inMemory)
      && (p in space ==> space[p].writable && (space[p].user <==> inStack || !inApic))
  {
    MapDescriptorsIdentity(imap[], ds);
    MapDescriptorsLaw(imap[], ds, p);
    MapDescriptorsRights(imap[], ds, p);
    assert Has(READ_WRITE_USER, WRITABLE) && Has(READ_WRITE_USER, USER) && Has(WRITABLE, WRITABLE) &&
      !Has(WRITABLE, USER);
    hide MapDescriptors, Has, StackBase, Base, Mapped, InDescriptors;
    var memory := MapDescriptors(imap[], ds);
    OverlayIdentity(memory, fb, fb + fbSize, READ_WRITE_USER);
    var withFb := Overlay(memory, fb, fb + fbSize, READ_WRITE_USER);
    OverlayIdentity(withFb, lapic, lapic + PAGE_SIZE, WRITABLE);
    var withLapic := if lapic != 0 then Overlay(withFb, lapic, lapic + PAGE_SIZE, WRITABLE) else withFb;
    OverlayIdentity(withLapic, IOAPIC_BASE, IOAPIC_BASE + 0x1000, WRITABLE);
    var withIoapic := Overlay(withLapic, IOAPIC_BASE, IOAPIC_BASE + 0x1000, WRITABLE);
    OverlayIdentity(withIoapic, StackBase(rsp), StackBase(rsp) + 0x10_0000, READ_WRITE_USER);
  }

  lemma {:induction false} MapDescriptorsRights(space: Space, ds: seq<Descriptor>, p: VPage)
    requires p in space ==> space[p].writable && space[p].user
    ensures p in MapDescriptors(space, ds) ==>
      MapDescriptors(space, ds)[p].writable && MapDescriptors(space, ds)[p].user
    decreases |ds|
  {
    if ds != [] {
      assert Has(READ_WRITE_USER, WRITABLE) && Has(READ_WRITE_USER, USER);
      hide Has, Base, Mapped;
      MapDescriptorsRights(MapOne(space, ds[0]), ds[1..], p);
    }
  }

  /** The page of an address in an aligned window lies in the window. */
  lemma PageInWindow(base: nat, end: nat, addr: nat)
    requires base % PAGE_SIZE == 0 && base <= addr < end && addr < LIMIT
    ensures InRange(PageOf(addr), base, end) && Base(PageOf(addr)) == addr - addr % PAGE_SIZE
  {
    hide PageOf, Base;
    var page := addr - addr % PAGE_SIZE;
    BaseOf(page);
    PageStart(addr);
    AlignedBelow(base, addr);
  }

  lemma PageStart(addr: nat)
    ensures (addr - addr % PAGE_SIZE) % PAGE_SIZE == 0 && PageOf(addr - addr % PAGE_SIZE) == PageOf(addr)
  {
    hide PageOf;
    DivModUnique(addr - addr % PAGE_SIZE, PAGE_SIZE, addr / PAGE_SIZE, 0);
    SamePage(addr, addr - addr % PAGE_SIZE);
  }

  lemma AlignedBelow(base: nat, addr: nat)
    requires base % PAGE_SIZE == 0 && base <= addr
    ensures base <= addr - addr % PAGE_SIZE
  {
  }

  /** The code that loads the tables still has its stack: the page of `rsp` is present, writable and open to user
      mode. */
  lemma StackStaysMapped(ds: seq<Descriptor>, fb: nat, fbSize: nat, lapic: nat, rsp: nat)
    requires rsp < LIMIT
    ensures var space := InitialSpace(ds, fb, fbSize, lapic, rsp);
      && PageOf(rsp) in space && space[PageOf(rsp)].frame == rsp - rsp % PAGE_SIZE
      && space[PageOf(rsp)].writable && space[PageOf(rsp)].user
  {
    hide InitialSpace, StackBase, PageOf, Base;
    StackAligned(rsp);
    PageInWindow(StackBase(rsp), StackBase(rsp) + 0x10_0000, rsp);
    InitialSpaceLaw(ds, fb, fbSize, lapic, rsp, PageOf(rsp));
  }

  /** Four types of memory are left unmapped, and all memory the allocator may hand out is mapped. */
  lemma MappedTypes(d: Descriptor)
    ensures !Mapped(d) <==> d.kind in {ReservedMemory, UnusableMemory, PalCode, PersistentMemory}
    ensures d.Usable() ==> Mapped(d)
  {
  }
}
