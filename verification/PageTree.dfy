/** The 4-level page tables as raw words of physical memory: the hardware walk, the shape that
    memory.c:87-144 keeps, and the meaning of the tables as a partial map of virtual pages. */
module PageTree {
  import opened Bits
  import opened Options
  import opened PageAllocation

  const ENTRIES: nat := 512
  const PRESENT: nat := 1
  const WRITABLE: nat := 2
  const USER: nat := 4

  /** Physical addresses have at most 52 bits (section 4.1.4 of the Intel SDM, volume 3A). */
  const MAX_PHYS: nat := 0x10_0000_0000_0000

  // ---------------------------------------------------------------- virtual pages

  /** The four table indices of a virtual address, bits 47 to 12. */
  datatype VPage = VPage(i4: nat, i3: nat, i2: nat, i1: nat) {
    predicate Valid() { i4 < ENTRIES && i3 < ENTRIES && i2 < ENTRIES && i1 < ENTRIES }
  }

  function PageOf(v: nat): VPage {
    VPage((v / 0x80_0000_0000) % ENTRIES, (v / 0x4000_0000) % ENTRIES, (v / 0x20_0000) % ENTRIES,
      (v / 0x1000) % ENTRIES)
  }

  /** Two addresses lie on the same virtual page iff they agree in bits 47 to 12. */
  lemma SamePage(v: nat, w: nat)
    ensures PageOf(v) == PageOf(w) <==> (v / 0x1000) % 0x10_0000_0000 == (w / 0x1000) % 0x10_0000_0000
  {
    PageNumber(v);
    PageNumber(w);
  }

  lemma PageNumber(v: nat)
    ensures var p := PageOf(v);
      p.Valid() && (v / 0x1000) % 0x10_0000_0000 == ((p.i4 * 512 + p.i3) * 512 + p.i2) * 512 + p.i1
  {
    var n := v / 0x1000;
    DivTwice(v);
    SplitIndex(n, 0x800_0000);
    SplitIndex(n / 512, 0x4_0000);
    SplitIndex(n / 512 / 512, 0x200);
  }

  lemma DivTwice(v: nat)
    ensures v / 0x20_0000 == v / 0x1000 / 512
    ensures v / 0x4000_0000 == v / 0x1000 / 512 / 512
    ensures v / 0x80_0000_0000 == v / 0x1000 / 512 / 512 / 512
  {
  }

  /** Splitting the lowest nine bits off a remainder. */
  lemma SplitIndex(x: nat, m: nat)
    requires m > 0
    ensures x % (512 * m) == ((x / 512) % m) * 512 + x % 512
  {
    var y := x / 512;
    var q, r := y / m, y % m;
    assert y == q * m + r;
    assert x == q * (512 * m) + (512 * r + x % 512);
    DivModUnique(x, 512 * m, q, 512 * r + x % 512);
  }

  // ---------------------------------------------------------------- the walk

  /** A translation: the frame, the low 12 bits of the last entry, and the rights after all four levels. */
  datatype Mapping = Mapping(frame: nat, flags: nat, writable: bool, user: bool)

  predicate Has(e: nat, flag: nat) {
    And(e, flag) != 0
  }

  /** The address of the next table, as the code computes it. */
  function TableOf(e: nat): nat {
    AndNot(e, 0xFFF)
  }

  /** Entry `i` of the table at physical address `table`; outside the memory nothing is present. */
  function Entry(mem: seq<nat>, table: nat, i: nat): nat {
    if table / 8 + i < |mem| then mem[table / 8 + i] else 0
  }

  /** A right is granted only if all four entries grant it. */
  predicate Granted(e4: nat, e3: nat, e2: nat, e1: nat, right: nat) {
    Has(e4, right) && Has(e3, right) && Has(e2, right) && Has(e1, right)
  }

  /** The 4-level walk (section 4.5 of the Intel SDM, volume 3A), with the rights of every level
      combined (section 4.6). */
  function Walk(mem: seq<nat>, root: nat, p: VPage): Option<Mapping> {
    var e4 := Entry(mem, root, p.i4);
    if !Has(e4, PRESENT) then None else
    var e3 := Entry(mem, TableOf(e4), p.i3);
    if !Has(e3, PRESENT) then None else
    var e2 := Entry(mem, TableOf(e3), p.i2);
    if !Has(e2, PRESENT) then None else
    var e1 := Entry(mem, TableOf(e2), p.i1);
    if !Has(e1, PRESENT) then None else
    Some(Mapping((e1 - e1 % PAGE_SIZE) % MAX_PHYS, e1 % PAGE_SIZE,
                 Granted(e4, e3, e2, e1, WRITABLE), Granted(e4, e3, e2, e1, USER)))
  }

  // ---------------------------------------------------------------- the tree

  /** A table, named by the indices that lead to it. */
  datatype Node = Root | Pdp(i4: nat) | Pd(i4: nat, i3: nat) | Pt(i4: nat, i3: nat, i2: nat)

  function Child(n: Node, i: nat): Node
    requires !n.Pt?
  {
    match n
    case Root => Pdp(i)
    case Pdp(a) => Pd(a, i)
    case Pd(a, b) => Pt(a, b, i)
  }

  /** The entry GetOrCreateTable writes for the table on page `page`. */
  function Link(page: nat): nat {
    page * PAGE_SIZE + 7
  }

  /** The address of entry `i` of the table on page `page`, as an index of 8-byte words. */
  function Slot(page: nat, i: nat): nat {
    page * ENTRIES + i
  }

  lemma SlotsDistinct(p: nat, i: nat, q: nat, j: nat)
    requires i < ENTRIES && j < ENTRIES
    ensures Slot(p, i) == Slot(q, j) <==> p == q && i == j
  {
  }

  /** The entry of node `n` at index `i`, for a node that has a page. */
  ghost predicate EntryOk(mem: seq<nat>, nodes: map<Node, nat>, n: Node, i: nat) {
    n in nodes && i < ENTRIES && nodes[n] < MAX_PAGES && |mem| == MAX_PAGES * ENTRIES ==>
      var e := mem[Slot(nodes[n], i)];
      if n.Pt? then e == 0 || Has(e, PRESENT)
      else if Child(n, i) in nodes then e == Link(nodes[Child(n, i)])
      else e == 0
  }

  /** Every table is on a page of its own, and an upper entry is present exactly when the table it
      leads to exists, and then it is a link to that table's page. */
  ghost predicate TreeOk(mem: seq<nat>, nodes: map<Node, nat>) {
    && |mem| == MAX_PAGES * ENTRIES && Root in nodes
    && (forall n :: n in nodes ==> 1 <= nodes[n] < MAX_PAGES)
    && (forall n, n' :: n in nodes && n' in nodes && nodes[n] == nodes[n'] ==> n == n')
    && (forall n, i: nat :: EntryOk(mem, nodes, n, i))
  }

  /** The three flags as arithmetic. */
  lemma FlagBits(e: nat)
    ensures Has(e, PRESENT) <==> e % 2 == 1
    ensures Has(e, WRITABLE) <==> (e / 2) % 2 == 1
    ensures Has(e, USER) <==> (e / 4) % 2 == 1
  {
    assert And(e / 2, 0) == 0;
    assert And(e, 1) == 2 * And(e / 2, 0) + (if e % 2 == 1 then 1 else 0);
    assert And(e / 2, 1) == 2 * And(e / 4, 0) + (if (e / 2) % 2 == 1 then 1 else 0);
    assert And(e / 4, 1) == 2 * And(e / 8, 0) + (if (e / 4) % 2 == 1 then 1 else 0);
    assert And(e, 2) == 2 * And(e / 2, 1);
    assert And(e / 2, 2) == 2 * And(e / 4, 1);
    assert And(e, 4) == 2 * And(e / 2, 2);
  }

  lemma TableOfEntry(e: nat)
    ensures TableOf(e) == e - e % PAGE_SIZE
  {
    assert Pow2(12) == 4096;
    AndNotMask(e, 12);
  }

  lemma LinkDigits(page: nat)
    ensures var e := Link(page);
      e % 2 == 1 && (e / 2) % 2 == 1 && (e / 4) % 2 == 1 && e - e % PAGE_SIZE == page * PAGE_SIZE &&
        (page * PAGE_SIZE) % PAGE_SIZE == 0
  {
    LowDigits(page, 7);
    LowDigits(page, 0);
  }

  /** Adding less than a page to a page's address leaves the low digits of the addend. */
  lemma LowDigits(k: nat, f: nat)
    requires f < PAGE_SIZE
    ensures var e := k * PAGE_SIZE + f;
      e % PAGE_SIZE == f && e % 2 == f % 2 && e / 2 % 2 == f / 2 % 2 && e / 4 % 2 == f / 4 % 2
  {
    var e := k * PAGE_SIZE + f;
    DivModUnique(e, PAGE_SIZE, k, f);
    EvenAway(k * 2048, f);
    DivModUnique(e, 2, k * 2048 + f / 2, f % 2);
    EvenAway(k * 1024, f / 2);
    DivModUnique(e, 4, k * 1024 + f / 4, f % 4);
    EvenAway(k * 512, f / 4);
  }

  lemma EvenAway(a: nat, b: nat)
    ensures (2 * a + b) % 2 == b % 2
  {
  }

  /** The link to a table is present, writable and open to user code, and leads to its page. */
  lemma LinkBits(page: nat)
    ensures Has(Link(page), PRESENT) && TableOf(Link(page)) == page * PAGE_SIZE
    ensures Has(Link(page), WRITABLE) && Has(Link(page), USER)
  {
    hide Has, TableOf, Link;
    LinkDigits(page);
    FlagBits(Link(page));
    TableOfEntry(Link(page));
  }

  /** The entry as the code builds it: address, then three flags. */
  lemma LinkOr(page: nat)
    ensures Or(Or(Or(page * PAGE_SIZE, PRESENT), WRITABLE), USER) == Link(page)
  {
    assert Pow2(12) == 4096 && Or(1, 2) == 3 && Or(3, 4) == 7;
    hide Pow2, Or;
    LinkDigits(page);
    var x := page * PAGE_SIZE;
    OrDisjoint(x, PRESENT, 12);
    OrLow(x, 1, WRITABLE, 12);
    OrLow(x, 3, USER, 12);
  }

  // ---------------------------------------------------------------- the meaning of a well-shaped tree

  /** What a present last-level entry under links means. */
  function Decode(e: nat): Mapping {
    Mapping((e - e % PAGE_SIZE) % MAX_PHYS, e % PAGE_SIZE, Has(e, WRITABLE), Has(e, USER))
  }

  /** Under the shape invariant the walk reads the entry of the last table, if that table exists. */
  ghost function Leaf(mem: seq<nat>, nodes: map<Node, nat>, p: VPage): Option<Mapping> {
    var t := Pt(p.i4, p.i3, p.i2);
    if t !in nodes then None
    else
      var e := Entry(mem, nodes[t] * PAGE_SIZE, p.i1);
      if !Has(e, PRESENT) then None else Some(Decode(e))
  }

  /** Tables hang together: each one's parent exists. */
  ghost predicate Rooted(nodes: map<Node, nat>) {
    && (forall a, b :: Pd(a, b) in nodes ==> Pdp(a) in nodes)
    && (forall a, b, c :: Pt(a, b, c) in nodes ==> Pd(a, b) in nodes)
  }

  lemma UpperEntry(mem: seq<nat>, nodes: map<Node, nat>, n: Node, i: nat)
    requires TreeOk(mem, nodes) && n in nodes && !n.Pt? && i < ENTRIES
    ensures var e := Entry(mem, nodes[n] * PAGE_SIZE, i);
      && (Has(e, PRESENT) <==> Child(n, i) in nodes)
      && (Child(n, i) in nodes ==> TableOf(e) == nodes[Child(n, i)] * PAGE_SIZE && Has(e, WRITABLE) && Has(e, USER))
  {
    hide Link;
    assert EntryOk(mem, nodes, n, i);
    if Child(n, i) in nodes { LinkBits(nodes[Child(n, i)]); }
  }

  lemma RootExists(mem: seq<nat>, nodes: map<Node, nat>)
    requires TreeOk(mem, nodes)
    ensures Root in nodes
  {
  }

  lemma SlotBound(mem: seq<nat>, nodes: map<Node, nat>, n: Node, i: nat)
    requires TreeOk(mem, nodes) && n in nodes && i < ENTRIES
    ensures |mem| == MAX_PAGES * ENTRIES && 1 <= nodes[n] < MAX_PAGES
    ensures Slot(nodes[n], i) < |mem| && nodes[n] * PAGE_SIZE / 8 + i == Slot(nodes[n], i)
    ensures Entry(mem, nodes[n] * PAGE_SIZE, i) == mem[Slot(nodes[n], i)]
  {
  }

  /** The walk and the tree agree on every page. */
  lemma WalkIsLeaf(mem: seq<nat>, nodes: map<Node, nat>, p: VPage)
    requires TreeOk(mem, nodes) && Rooted(nodes) && p.Valid()
    ensures Walk(mem, nodes[Root] * PAGE_SIZE, p) == Leaf(mem, nodes, p)
  {
    hide Entry, Has, TableOf;
    UpperEntry(mem, nodes, Root, p.i4);
    if Pdp(p.i4) in nodes {
      UpperEntry(mem, nodes, Pdp(p.i4), p.i3);
      if Pd(p.i4, p.i3) in nodes {
        UpperEntry(mem, nodes, Pd(p.i4, p.i3), p.i2);
      }
    }
  }

  /** The tables as a partial map from virtual pages to translations. */
  ghost function View(mem: seq<nat>, root: nat): imap<VPage, Mapping> {
    imap p: VPage | p.Valid() && Walk(mem, root, p).Some? :: Walk(mem, root, p).value
  }

  /** Two trees with the same root and the same leaves are the same map. */
  lemma SameLeaves(mem: seq<nat>, nodes: map<Node, nat>, mem': seq<nat>, nodes': map<Node, nat>)
    requires TreeOk(mem, nodes) && Rooted(nodes) && TreeOk(mem', nodes') && Rooted(nodes')
    requires nodes'[Root] == nodes[Root]
    requires forall p: VPage :: p.Valid() ==> Leaf(mem', nodes', p) == Leaf(mem, nodes, p)
    ensures View(mem', nodes[Root] * PAGE_SIZE) == View(mem, nodes[Root] * PAGE_SIZE)
  {
    var root := nodes[Root] * PAGE_SIZE;
    hide Leaf, Walk, TreeOk, Rooted;
    forall p: VPage | p.Valid() ensures Walk(mem', root, p) == Walk(mem, root, p)
    {
      WalkIsLeaf(mem, nodes, p);
      WalkIsLeaf(mem', nodes', p);
    }
  }

  /** `mem'` is `mem` except on page `q`. */
  ghost predicate OnlyPage(mem: seq<nat>, mem': seq<nat>, q: nat) {
    |mem'| == |mem| && forall k: nat :: k < |mem| && k / ENTRIES != q ==> mem'[k] == mem[k]
  }

  /** No table is on page `q`. */
  ghost predicate NoTable(nodes: map<Node, nat>, q: nat) {
    forall n :: n in nodes ==> nodes[n] != q
  }

  /** Stores to a page that holds no table leave the tree and its meaning alone. */
  lemma ForeignStore(mem: seq<nat>, mem': seq<nat>, nodes: map<Node, nat>, q: nat)
    requires TreeOk(mem, nodes) && OnlyPage(mem, mem', q) && NoTable(nodes, q)
    ensures TreeOk(mem', nodes)
    ensures forall p: VPage :: p.Valid() ==> Leaf(mem', nodes, p) == Leaf(mem, nodes, p)
  {
    forall n, i: nat ensures EntryOk(mem', nodes, n, i) {
      assert EntryOk(mem, nodes, n, i);
      if n in nodes && i < ENTRIES { assert (nodes[n] * ENTRIES + i) / ENTRIES == nodes[n]; }
    }
    forall p: VPage | p.Valid() ensures Leaf(mem', nodes, p) == Leaf(mem, nodes, p) {
      var t := Pt(p.i4, p.i3, p.i2);
      if t in nodes { assert (nodes[t] * ENTRIES + p.i1) / ENTRIES == nodes[t]; }
    }
  }

  ghost predicate Zeroed(mem: seq<nat>, q: nat) {
    |mem| == MAX_PAGES * ENTRIES && q < MAX_PAGES && forall j: nat :: j < ENTRIES ==> mem[Slot(q, j)] == 0
  }

  /** Entry `i` of `n`'s table is free to link a new, empty table on page `q`. */
  ghost predicate Linkable(mem: seq<nat>, nodes: map<Node, nat>, n: Node, i: nat, q: nat) {
    && TreeOk(mem, nodes) && Rooted(nodes) && n in nodes && !n.Pt? && i < ENTRIES
    && Child(n, i) !in nodes && NoTable(nodes, q) && 1 <= q && Zeroed(mem, q)
  }

  lemma LinkedTree(mem: seq<nat>, nodes: map<Node, nat>, n: Node, i: nat, q: nat)
    requires Linkable(mem, nodes, n, i, q)
    ensures var mem', nodes' := mem[Slot(nodes[n], i) := Link(q)], nodes[Child(n, i) := q];
      TreeOk(mem', nodes') && Rooted(nodes')
  {
    var c := Child(n, i);
    var mem', nodes' := mem[Slot(nodes[n], i) := Link(q)], nodes[c := q];
    forall m, j: nat ensures EntryOk(mem', nodes', m, j) {
      if m in nodes && j < ENTRIES {
        assert EntryOk(mem, nodes, m, j);
        SlotsDistinct(nodes[m], j, nodes[n], i);
      } else if m == c && j < ENTRIES {
        SlotsDistinct(q, j, nodes[n], i);
        assert mem'[Slot(q, j)] == 0;
        if !c.Pt? { OrphanChild(nodes, n, i, j); }
      }
    }
  }

  lemma LinkedLeaf(mem: seq<nat>, nodes: map<Node, nat>, n: Node, i: nat, q: nat, p: VPage)
    requires Linkable(mem, nodes, n, i, q) && p.Valid()
    ensures Leaf(mem[Slot(nodes[n], i) := Link(q)], nodes[Child(n, i) := q], p) == Leaf(mem, nodes, p)
  {
    var t := Pt(p.i4, p.i3, p.i2);
    if t == Child(n, i) {
      SlotsDistinct(q, p.i1, nodes[n], i);
    } else if t in nodes {
      SlotsDistinct(nodes[t], p.i1, nodes[n], i);
    }
  }

  /** Linking an empty table under an entry that was not present adds that table and maps nothing. */
  lemma LinkTable(mem: seq<nat>, nodes: map<Node, nat>, n: Node, i: nat, q: nat)
    requires Linkable(mem, nodes, n, i, q)
    ensures var mem', nodes' := mem[Slot(nodes[n], i) := Link(q)], nodes[Child(n, i) := q];
      && TreeOk(mem', nodes') && Rooted(nodes')
      && (forall p: VPage :: p.Valid() ==> Leaf(mem', nodes', p) == Leaf(mem, nodes, p))
  {
    LinkedTree(mem, nodes, n, i, q);
    forall p: VPage | p.Valid()
      ensures Leaf(mem[Slot(nodes[n], i) := Link(q)], nodes[Child(n, i) := q], p) == Leaf(mem, nodes, p)
    {
      LinkedLeaf(mem, nodes, n, i, q, p);
    }
  }

  /** A table that does not exist has no children. */
  lemma OrphanChild(nodes: map<Node, nat>, n: Node, i: nat, j: nat)
    requires Rooted(nodes) && !n.Pt? && Child(n, i) !in nodes && !Child(n, i).Pt?
    ensures Child(Child(n, i), j) !in nodes && Child(Child(n, i), j) != Child(n, i)
  {
  }

  /** Storing a last-level entry changes the translation of its page and of no other. */
  lemma StoreLeaf(mem: seq<nat>, nodes: map<Node, nat>, p: VPage, e: nat)
    requires TreeOk(mem, nodes) && Rooted(nodes) && p.Valid() && Pt(p.i4, p.i3, p.i2) in nodes
    requires e == 0 || Has(e, PRESENT)
    ensures var mem' := mem[Slot(nodes[Pt(p.i4, p.i3, p.i2)], p.i1) := e];
      && TreeOk(mem', nodes)
      && Leaf(mem', nodes, p) == (if e == 0 then None else Some(Decode(e)))
      && (forall q: VPage :: q.Valid() && q != p ==> Leaf(mem', nodes, q) == Leaf(mem, nodes, q))
  {
    var t := Pt(p.i4, p.i3, p.i2);
    var mem' := mem[Slot(nodes[t], p.i1) := e];
    forall m, j: nat ensures EntryOk(mem', nodes, m, j) {
      assert EntryOk(mem, nodes, m, j);
      if m in nodes && j < ENTRIES { SlotsDistinct(nodes[m], j, nodes[t], p.i1); }
    }
    forall q: VPage | q.Valid() && q != p ensures Leaf(mem', nodes, q) == Leaf(mem, nodes, q) {
      var u := Pt(q.i4, q.i3, q.i2);
      if u in nodes { SlotsDistinct(nodes[u], q.i1, nodes[t], p.i1); }
    }
  }

  /** The translation PageTable_Map(virt, phys, flags) is to set up. */
  function Target(phys: nat, flags: nat): Mapping {
    Mapping(phys, Or(flags, PRESENT), Has(flags, WRITABLE), Has(flags, USER))
  }

  /** One changed leaf is one changed point of the map. */
  lemma OneLeaf(mem: seq<nat>, mem': seq<nat>, nodes: map<Node, nat>, p: VPage, e: nat)
    requires TreeOk(mem, nodes) && TreeOk(mem', nodes) && Rooted(nodes) && p.Valid()
    requires Leaf(mem', nodes, p) == if e == 0 then None else Some(Decode(e))
    requires forall q: VPage :: q.Valid() && q != p ==> Leaf(mem', nodes, q) == Leaf(mem, nodes, q)
    ensures View(mem', nodes[Root] * PAGE_SIZE) ==
      if e == 0 then View(mem, nodes[Root] * PAGE_SIZE) - {p} else View(mem, nodes[Root] * PAGE_SIZE)[p := Decode(e)]
  {
    var root := nodes[Root] * PAGE_SIZE;
    hide Leaf, Walk, TreeOk, Rooted, View, Decode;
    WalkIsLeaf(mem', nodes, p);
    forall q: VPage | q.Valid() && q != p ensures Walk(mem', root, q) == Walk(mem, root, q) {
      WalkIsLeaf(mem, nodes, q);
      WalkIsLeaf(mem', nodes, q);
    }
    OnePoint(mem, mem', root, p);
  }

  /** Two memories whose walks differ at most at `p`. */
  lemma OnePoint(mem: seq<nat>, mem': seq<nat>, root: nat, p: VPage)
    requires p.Valid() && forall q: VPage :: q.Valid() && q != p ==> Walk(mem', root, q) == Walk(mem, root, q)
    ensures View(mem', root) ==
      match Walk(mem', root, p) { case None => View(mem, root) - {p} case Some(m) => View(mem, root)[p := m] }
  {
    hide Walk;
  }

  /** Without its last table a page has no translation. */
  lemma NoTranslation(mem: seq<nat>, nodes: map<Node, nat>, p: VPage)
    requires TreeOk(mem, nodes) && Rooted(nodes) && p.Valid()
    requires Pdp(p.i4) !in nodes || Pd(p.i4, p.i3) !in nodes || Pt(p.i4, p.i3, p.i2) !in nodes
    ensures View(mem, nodes[Root] * PAGE_SIZE) - {p} == View(mem, nodes[Root] * PAGE_SIZE)
  {
    WalkIsLeaf(mem, nodes, p);
    hide Walk;
    assert p !in View(mem, nodes[Root] * PAGE_SIZE);
  }

  /** The nine index bits, as the code extracts them. */
  lemma IndexBits(x: nat)
    ensures And(x, 0x1FF) == x % ENTRIES
  {
    assert Pow2(9) == 512;
    AndMask(x, 9);
  }

  /** The last-level entry, as the code builds it, decodes to the requested translation. */
  lemma EntryDecodes(phys: nat, flags: nat)
    requires phys % PAGE_SIZE == 0 && phys < MAX_PHYS && flags < PAGE_SIZE
    ensures var e := Or(Or(phys, flags), PRESENT); Has(e, PRESENT) && e != 0 && Decode(e) == Target(phys, flags)
  {
    assert Pow2(12) == 4096;
    OddOr(flags);
    var e := Or(Or(phys, flags), PRESENT);
    hide Pow2, Or, Has;
    assert Or(flags, PRESENT) < PAGE_SIZE;
    OrDisjoint(phys, flags, 12);
    OrLow(phys, flags, PRESENT, 12);
    FlagBits(e);
    FlagBits(flags);
    EntryDigits(phys, Or(flags, PRESENT));
  }

  lemma OddOr(f: nat)
    ensures Or(f, PRESENT) == f + 1 - f % 2
    ensures Or(f, PRESENT) % 2 == 1 && Or(f, PRESENT) / 2 == f / 2 && Or(f, PRESENT) / 4 == f / 4
  {
    if f != 0 {
      assert Or(f / 2, 0) == f / 2;
      assert Or(f, PRESENT) == 2 * Or(f / 2, 0) + 1;
    }
  }

  lemma EntryDigits(phys: nat, f: nat)
    requires phys % PAGE_SIZE == 0 && phys < MAX_PHYS && f < PAGE_SIZE
    ensures (phys + f) % PAGE_SIZE == f && (phys + f) % 2 == f % 2 && (phys + f) / 2 % 2 == f / 2 % 2 &&
      (phys + f) / 4 % 2 == f / 4 % 2
    ensures ((phys + f) - (phys + f) % PAGE_SIZE) % MAX_PHYS == phys
  {
    LowDigits(phys / PAGE_SIZE, f);
    assert phys == phys / PAGE_SIZE * PAGE_SIZE;
    DivModUnique(phys, MAX_PHYS, 0, phys);
  }

  /** A cleared page is a tree with no translations. */
  lemma EmptyTree(mem: seq<nat>, q: nat)
    requires Zeroed(mem, q) && 1 <= q
    ensures TreeOk(mem, map[Root := q]) && Rooted(map[Root := q])
    ensures View(mem, q * PAGE_SIZE) == imap[]
  {
    var nodes := map[Root := q];
    forall n, i: nat ensures EntryOk(mem, nodes, n, i) {
      if n in nodes && i < ENTRIES { assert mem[Slot(q, i)] == 0; }
    }
    forall p: VPage | p.Valid() ensures Walk(mem, q * PAGE_SIZE, p).None? {
      WalkIsLeaf(mem, nodes, p);
    }
  }

  /** Stores to a page without a table, seen as a change of address space: none. */
  lemma ForeignView(mem: seq<nat>, mem': seq<nat>, nodes: map<Node, nat>, q: nat)
    requires TreeOk(mem, nodes) && Rooted(nodes) && OnlyPage(mem, mem', q) && NoTable(nodes, q)
    ensures TreeOk(mem', nodes) && View(mem', nodes[Root] * PAGE_SIZE) == View(mem, nodes[Root] * PAGE_SIZE)
  {
    hide Leaf, View;
    ForeignStore(mem, mem', nodes, q);
    SameLeaves(mem, nodes, mem', nodes);
  }

  /** Linking an empty table, seen as a change of address space: none. */
  lemma LinkView(mem: seq<nat>, nodes: map<Node, nat>, n: Node, i: nat, q: nat)
    requires Linkable(mem, nodes, n, i, q)
    ensures Slot(nodes[n], i) < |mem|
    ensures var mem', nodes' := mem[Slot(nodes[n], i) := Link(q)], nodes[Child(n, i) := q];
      TreeOk(mem', nodes') && Rooted(nodes') && nodes'[Root] == nodes[Root]
      && View(mem', nodes[Root] * PAGE_SIZE) == View(mem, nodes[Root] * PAGE_SIZE)
  {
    hide Leaf, View, Zeroed;
    SlotBound(mem, nodes, n, i);
    LinkTable(mem, nodes, n, i, q);
    SameLeaves(mem, nodes, mem[Slot(nodes[n], i) := Link(q)], nodes[Child(n, i) := q]);
  }
}
