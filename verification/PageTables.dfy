/** memory.c:87-144: tables are created on pages of the physical allocator, and entries are stored in
    physical memory. The processor may cache any translation it can walk, at any time. */
module PageTables {
  import opened Bits
  import opened PageAllocation
  import opened PageTree
  import opened IdentityMap
  import PageBitmap

  /** The allocator and the tables it has given pages to. */
  datatype Tree = Tree(st: Pages, nodes: map<Node, nat>)

  /** Tables are on distinct pages, all of them marked in use. */
  ghost predicate OnOwnPages(t: Tree) {
    && t.st.Valid()
    && (forall n :: n in t.nodes ==> 1 <= t.nodes[n] && t.nodes[n] in t.st.used)
    && (forall n, m :: n in t.nodes && m in t.nodes && t.nodes[n] == t.nodes[m] ==> n == m)
  }

  /** GetOrCreateTable: table `c` is created on a fresh page unless it exists or no page is left. */
  ghost function Grow(t: Tree, c: Node): Tree {
    if c in t.nodes then t
    else
      var (st', a) := Alloc(t.st, 1);
      if a == 0 then t else Tree(st', t.nodes[c := a / PAGE_SIZE])
  }

  ghost function GrowPath(t: Tree, p: VPage): Tree {
    Grow(Grow(Grow(t, Pdp(p.i4)), Pd(p.i4, p.i3)), Pt(p.i4, p.i3, p.i2))
  }

  /** The pages one-page allocations can still get. */
  ghost function FreePages(st: Pages): set<nat> {
    set p: nat | 1 <= p < st.total && p !in st.used
  }

  function PathNodes(p: VPage): set<Node> {
    {Pdp(p.i4), Pd(p.i4, p.i3), Pt(p.i4, p.i3, p.i2)}
  }

  /** Enough pages are left for the tables in `needed` that do not exist yet. */
  ghost predicate Enough(t: Tree, needed: set<Node>) {
    |needed - t.nodes.Keys| <= |FreePages(t.st)|
  }

  lemma SinglePage(st: Pages)
    requires st.Valid()
    ensures var (st', a) := Alloc(st, 1);
      && (a == 0 <==> FreePages(st) == {})
      && (a != 0 ==> a / PAGE_SIZE in FreePages(st) && a == a / PAGE_SIZE * PAGE_SIZE
                     && st' == st.(used := st.used + {a / PAGE_SIZE})
                     && FreePages(st') == FreePages(st) - {a / PAGE_SIZE})
  {
    AllocLaw(st, 1);
    var (st', a) := Alloc(st, 1);
    forall s: nat ensures Available(st, Run(s, 1)) <==> s in FreePages(st) {
      assert Run(s, 1).Has(s);
    }
    if a == 0 {
      assert FreePages(st) == {};
    } else {
      assert Run(a / PAGE_SIZE, 1).Has(a / PAGE_SIZE);
      assert forall p :: p in Run(a / PAGE_SIZE, 1).All() <==> p == a / PAGE_SIZE;
      assert Run(a / PAGE_SIZE, 1).All() == {a / PAGE_SIZE};
    }
  }

  /** `t'` is `t` with the tables `added`: those that did not exist are on pages that were
      free, existing ones stay where they are, and no other page is taken. */
  ghost predicate Extends(t: Tree, t': Tree, added: set<Node>) {
    && t'.nodes.Keys == t.nodes.Keys + added
    && (forall n :: n in t.nodes ==> t'.nodes[n] == t.nodes[n])
    && (forall n :: n in t'.nodes && n !in t.nodes ==> t'.nodes[n] in FreePages(t.st) && t'.nodes[n] in t'.st.used)
    && t'.st.total == t.st.total && t.st.used <= t'.st.used
    && (forall q :: q in t'.st.used && q !in t.st.used ==> TableOn(t', q))
  }

  ghost predicate TableOn(t: Tree, q: nat) {
    exists n :: n in t.nodes && t.nodes[n] == q
  }

  lemma GrowNew(t: Tree, c: Node)
    requires OnOwnPages(t) && c !in t.nodes && FreePages(t.st) != {}
    ensures var t' := Grow(t, c);
      OnOwnPages(t') && Extends(t, t', {c}) && |FreePages(t'.st)| == |FreePages(t.st)| - 1
  {
    hide Alloc;
    SinglePage(t.st);
    assert c in Grow(t, c).nodes;
  }

  lemma OneLess(needed: set<Node>, made: set<Node>, c: Node)
    requires c in needed && c !in made
    ensures |needed - (made + {c})| == |needed - made| - 1
  {
    assert needed - (made + {c}) == (needed - made) - {c};
  }

  /** Creating a needed table uses up one page and one need; nothing else changes. */
  lemma GrowLaw(t: Tree, c: Node, needed: set<Node>)
    requires OnOwnPages(t) && Enough(t, needed) && c in needed
    ensures OnOwnPages(Grow(t, c)) && Enough(Grow(t, c), needed) && Extends(t, Grow(t, c), {c})
  {
    if c !in t.nodes {
      OneLess(needed, t.nodes.Keys, c);
      GrowNew(t, c);
      hide Grow, OnOwnPages, FreePages;
    }
  }

  lemma GrowKnown(t: Tree, c: Node)
    ensures c in t.nodes ==> Grow(t, c) == t
  {
  }

  lemma GrowUnknown(t: Tree, c: Node)
    requires OnOwnPages(t) && c !in t.nodes
    ensures var (st', a) := Alloc(t.st, 1);
      && Grow(t, c) == (if a == 0 then t else Tree(st', t.nodes[c := a / PAGE_SIZE]))
      && (a == 0 ==> st' == t.st)
      && (a != 0 ==> a % PAGE_SIZE == 0 && a / PAGE_SIZE in FreePages(t.st)
                     && st' == t.st.(used := t.st.used + {a / PAGE_SIZE}))
  {
    AllocLaw(t.st, 1);
    SinglePage(t.st);
  }

  /** A free page holds no table, and a new table may go there. */
  lemma FreshPage(t: Tree, c: Node, q: nat)
    requires OnOwnPages(t) && c !in t.nodes && q in FreePages(t.st)
    ensures 1 <= q < MAX_PAGES && NoTable(t.nodes, q)
    ensures OnOwnPages(Tree(t.st.(used := t.st.used + {q}), t.nodes[c := q]))
  {
  }

  lemma ExtendsTwice(t: Tree, t1: Tree, t2: Tree, s1: set<Node>, s2: set<Node>)
    requires Extends(t, t1, s1) && Extends(t1, t2, s2)
    ensures Extends(t, t2, s1 + s2)
  {
    forall q | q in t2.st.used && q !in t.st.used ensures TableOn(t2, q) {
      if q in t1.st.used {
        assert TableOn(t1, q);
        var n :| n in t1.nodes && t1.nodes[n] == q;
        assert t2.nodes[n] == q;
      }
    }
  }

  /** A mapping's three tables exist afterwards, and only they are new. */
  lemma GrowPathLaw(t: Tree, p: VPage, needed: set<Node>)
    requires OnOwnPages(t) && Enough(t, needed) && PathNodes(p) <= needed
    ensures OnOwnPages(GrowPath(t, p)) && Enough(GrowPath(t, p), needed) && Extends(t, GrowPath(t, p), PathNodes(p))
  {
    hide Grow, OnOwnPages, Enough, Extends;
    var a, b, c := Pdp(p.i4), Pd(p.i4, p.i3), Pt(p.i4, p.i3, p.i2);
    GrowLaw(t, a, needed);
    var t1 := Grow(t, a);
    GrowLaw(t1, b, needed);
    var t2 := Grow(t1, b);
    GrowLaw(t2, c, needed);
    ExtendsTwice(t, t1, t2, {a}, {b});
    ExtendsTwice(t, t2, Grow(t2, c), {a} + {b}, {c});
    assert {a} + {b} + {c} == PathNodes(p);
  }

  /** The tree of PageTable_Init's first allocation. */
  lemma RootTree(st: Pages, q: nat, needed: set<Node>)
    requires st.Valid() && q in FreePages(st) && |needed| < |FreePages(st)|
    requires FreePages(st.(used := st.used + {q})) == FreePages(st) - {q}
    ensures var t := Tree(st.(used := st.used + {q}), map[Root := q]);
      1 <= q < MAX_PAGES && OnOwnPages(t) && Extends(Tree(st, map[]), t, t.nodes.Keys) && Enough(t, needed)
  {
    var t := Tree(st.(used := st.used + {q}), map[Root := q]);
    SubsetSize(needed - {Root}, needed);
    assert TableOn(t, q) by { assert Root in t.nodes; }
  }

  /** With or without a free page, growing only adds tables, on pages that were free. */
  lemma GrowAny(t: Tree, c: Node)
    requires OnOwnPages(t)
    ensures OnOwnPages(Grow(t, c)) && Extends(t, Grow(t, c), Grow(t, c).nodes.Keys)
    ensures Grow(t, c).nodes.Keys <= t.nodes.Keys + {c}
  {
    if c !in t.nodes {
      SinglePage(t.st);
      if FreePages(t.st) != {} {
        GrowNew(t, c);
        ExtendsAll(t, Grow(t, c), {c});
      }
    }
  }

  /** As many pages are free as there are new tables on them. */
  lemma {:induction false} PagesForTables(nodes: map<Node, nat>, made: set<Node>, free: set<nat>)
    requires made <= nodes.Keys && forall n :: n in made ==> nodes[n] in free
    requires forall n, m :: n in made && m in made && nodes[n] == nodes[m] ==> n == m
    ensures |made| <= |free|
    decreases made
  {
    if made != {} {
      var n :| n in made;
      PagesForTables(nodes, made - {n}, free - {nodes[n]});
    }
  }

  /** PageTable_Map does not check its three GetOrCreateTable calls for NULL: they all succeed exactly when the tables
      missing on the path are at most as many as the free pages. */
  lemma MapSucceedsIff(t: Tree, p: VPage)
    requires OnOwnPages(t)
    ensures PathNodes(p) <= GrowPath(t, p).nodes.Keys <==> Enough(t, PathNodes(p))
  {
    if Enough(t, PathNodes(p)) {
      GrowPathLaw(t, p, PathNodes(p));
    }
    if PathNodes(p) <= GrowPath(t, p).nodes.Keys {
      hide Grow, Enough, PathNodes;
      var t1 := Grow(t, Pdp(p.i4));
      var t2 := Grow(t1, Pd(p.i4, p.i3));
      var t3 := Grow(t2, Pt(p.i4, p.i3, p.i2));
      assert OnOwnPages(t3) && Extends(t, t3, t3.nodes.Keys) by {
        hide OnOwnPages, Extends;
        GrowAny(t, Pdp(p.i4));
        GrowAny(t1, Pd(p.i4, p.i3));
        GrowAny(t2, Pt(p.i4, p.i3, p.i2));
        ExtendsChain(t, t1, t2);
        ExtendsChain(t, t2, t3);
      }
      NewTablesFit(t, t3, PathNodes(p));
    }
  }

  lemma NewTablesFit(t: Tree, t': Tree, needed: set<Node>)
    requires OnOwnPages(t') && Extends(t, t', t'.nodes.Keys) && needed <= t'.nodes.Keys
    ensures Enough(t, needed)
  {
    PagesForTables(t'.nodes, needed - t.nodes.Keys, FreePages(t.st));
  }

  lemma ExtendsSelf(t: Tree)
    ensures Extends(t, t, t.nodes.Keys)
  {
  }

  lemma ExtendsAll(t: Tree, t': Tree, added: set<Node>)
    requires Extends(t, t', added)
    ensures Extends(t, t', t'.nodes.Keys)
  {
  }

  lemma ExtendsChain(t: Tree, t1: Tree, t2: Tree)
    requires Extends(t, t1, t1.nodes.Keys) && Extends(t1, t2, t2.nodes.Keys)
    ensures Extends(t, t2, t2.nodes.Keys)
  {
    ExtendsTwice(t, t1, t2, t1.nodes.Keys, t2.nodes.Keys);
    ExtendsAll(t, t2, t1.nodes.Keys + t2.nodes.Keys);
  }

  lemma FewerNeeds(t: Tree, some: set<Node>, needed: set<Node>)
    requires Enough(t, needed) && some <= needed
    ensures Enough(t, some)
  {
    SubsetSize(some - t.nodes.Keys, needed - t.nodes.Keys);
  }

  lemma SubsetSize(a: set<Node>, b: set<Node>)
    requires a <= b
    ensures |a| <= |b|
  {
    if a != {} {
      var x :| x in a;
      SubsetSize(a - {x}, b - {x});
    }
  }

  // ---------------------------------------------------------------- the translation cache

  type Tlb = map<VPage, Mapping>

  /** Every cached translation, except possibly of pages in `stale`, is the current one. */
  ghost predicate Coherent(tlb: Tlb, view: imap<VPage, Mapping>, stale: set<VPage>) {
    forall p :: p in tlb && p !in stale ==> p in view && view[p] == tlb[p]
  }

  /** `after` may hold what `before` held and anything the tables translate. A processor that `keeps` its cache still
      holds all that it held. */
  ghost predicate Cached(before: Tlb, after: Tlb, view: imap<VPage, Mapping>, keeps: bool) {
    && (forall p :: p in after ==> (p in before && after[p] == before[p]) || (p in view && after[p] == view[p]))
    && (keeps ==> forall p :: p in before ==> p in after && after[p] == before[p])
  }

  lemma CachedTwice(t0: Tlb, t1: Tlb, t2: Tlb, view: imap<VPage, Mapping>, keeps: bool)
    requires Cached(t0, t1, view, keeps) && Cached(t1, t2, view, keeps)
    ensures Cached(t0, t2, view, keeps)
  {
  }

  /** Caching more of the current translations cannot break coherence. */
  lemma CachingIsHarmless(before: Tlb, after: Tlb, view: imap<VPage, Mapping>, keeps: bool, stale: set<VPage>)
    requires Coherent(before, view, stale) && Cached(before, after, view, keeps)
    ensures Coherent(after, view, stale)
  {
  }

  /** Before anything is cached afresh, changing one page's translation can only make that page stale. */
  lemma OneStale(tlb: Tlb, view: imap<VPage, Mapping>, view': imap<VPage, Mapping>, p: VPage, stale: set<VPage>)
    requires Coherent(tlb, view, stale)
    requires forall q :: q != p ==> (q in view' <==> q in view) && (q in view ==> view'[q] == view[q])
    ensures Coherent(tlb, view', stale + {p})
  {
  }

  /** What a cache can go through while one entry is stored: caching under the old tables, then under the new ones. */
  ghost predicate StoreStep(t0: Tlb, t1: Tlb, view: imap<VPage, Mapping>, view': imap<VPage, Mapping>, keeps: bool) {
    exists t :: Cached(t0, t, view, keeps) && Cached(t, t1, view', keeps)
  }

  /** Remapping page `p` can leave at most `p` stale, and nothing if its translation was absent or the same. It does
      leave `p` stale if the old translation was cached and is not dropped by chance. */
  lemma MapTlb(t0: Tlb, t1: Tlb, view: imap<VPage, Mapping>, p: VPage, m: Mapping, keeps: bool)
    requires StoreStep(t0, t1, view, view[p := m], keeps)
    ensures forall stale :: Coherent(t0, view, stale) ==> Coherent(t1, view[p := m], stale + {p})
    ensures Coherent(t0, view, {}) && (p in view ==> view[p] == m) ==> Coherent(t1, view[p := m], {})
    ensures Coherent(t0, view, {}) && keeps && p in t0 && view[p] != m ==> !Coherent(t1, view[p := m], {})
  {
    var t :| Cached(t0, t, view, keeps) && Cached(t, t1, view[p := m], keeps);
    forall stale | Coherent(t0, view, stale) ensures Coherent(t1, view[p := m], stale + {p}) {
      CachingIsHarmless(t0, t, view, keeps, stale);
      OneStale(t, view, view[p := m], p, stale);
      CachingIsHarmless(t, t1, view[p := m], keeps, stale + {p});
    }
  }

  /** Caching between the store that unmaps page `p` and the invalidation of `p`. */
  lemma UnMapTlb(t0: Tlb, t1: Tlb, t2: Tlb, view: imap<VPage, Mapping>, view': imap<VPage, Mapping>, p: VPage,
    keeps: bool)
    requires view' == view - {p} && Cached(t0, t1, view', keeps) && t2 == t1 - {p}
    ensures forall stale :: Coherent(t0, view, stale) ==> Coherent(t2, view', stale)
  {
    forall stale | Coherent(t0, view, stale) ensures Coherent(t2, view', stale) {
      OneStale(t0, view, view', p, stale);
      CachingIsHarmless(t0, t1, view', keeps, stale + {p});
    }
  }

  lemma Invalidated(tlb: Tlb, view: imap<VPage, Mapping>, p: VPage)
    ensures Coherent(tlb, view, {} + {p}) ==> Coherent(tlb - {p}, view, {})
  {
  }

  /** Whatever is cached before, during and after the store, a coherent cache stays coherent. */
  ghost predicate StaysCoherent(view: imap<VPage, Mapping>, view': imap<VPage, Mapping>, keeps: bool) {
    forall t0, t1 :: Coherent(t0, view, {}) && StoreStep(t0, t1, view, view', keeps) ==> Coherent(t1, view', {})
  }

  /** PageTable_Map has no invalidation: its steps keep every coherent cache coherent exactly when page `p` had no
      translation or already had this one. */
  lemma MapNeedsInvalidation(view: imap<VPage, Mapping>, p: VPage, m: Mapping, keeps: bool)
    ensures StaysCoherent(view, view[p := m], keeps) <==> (p in view ==> view[p] == m)
  {
    var view' := view[p := m];
    if p in view && view[p] != m {
      var t: Tlb := map[p := view[p]];
      assert Cached(t, t, view, keeps) && Cached(t, t, view', keeps);
      assert StoreStep(t, t, view, view', keeps) && Coherent(t, view, {}) && !Coherent(t, view', {});
    } else {
      forall t0, t1 | Coherent(t0, view, {}) && StoreStep(t0, t1, view, view', keeps) ensures Coherent(t1, view', {}) {
        MapTlb(t0, t1, view, p, m, keeps);
      }
    }
  }

  // ---------------------------------------------------------------- stores into table pages

  /** Only words of pages that hold a table differ. */
  ghost predicate TablesOnly(mem: seq<nat>, mem': seq<nat>, nodes: map<Node, nat>) {
    |mem'| == |mem| && forall k: nat :: k < |mem| && k / ENTRIES !in nodes.Values ==> mem'[k] == mem[k]
  }

  lemma TablesOnlyTwice(mem: seq<nat>, mem1: seq<nat>, mem2: seq<nat>, nodes1: map<Node, nat>, nodes2: map<Node, nat>)
    requires TablesOnly(mem, mem1, nodes1) && TablesOnly(mem1, mem2, nodes2) && nodes1.Values <= nodes2.Values
    ensures TablesOnly(mem, mem2, nodes2)
  {
  }

  /** One entry of node `n`'s table is stored. */
  lemma StoreInTable(mem: seq<nat>, nodes: map<Node, nat>, n: Node, i: nat, e: nat)
    requires n in nodes && i < ENTRIES && Slot(nodes[n], i) < |mem|
    ensures TablesOnly(mem, mem[Slot(nodes[n], i) := e], nodes)
  {
    assert Slot(nodes[n], i) / ENTRIES == nodes[n];
    assert nodes[n] in nodes.Values;
  }

  lemma PageInTable(mem: seq<nat>, mem': seq<nat>, nodes: map<Node, nat>, n: Node)
    requires n in nodes && OnlyPage(mem, mem', nodes[n])
    ensures TablesOnly(mem, mem', nodes)
  {
    assert nodes[n] in nodes.Values;
  }

  lemma MoreTables(nodes: map<Node, nat>, c: Node, q: nat)
    requires c !in nodes
    ensures nodes.Values <= nodes[c := q].Values
  {
    forall v | v in nodes.Values ensures v in nodes[c := q].Values {
      var n :| n in nodes && nodes[n] == v;
      assert nodes[c := q][n] == v;
    }
  }

  /** `needed` holds every table that mapping `[start, end)` uses. */
  ghost predicate NeededFor(needed: set<Node>, start: nat, end: nat) {
    forall p :: InRange(p, start, end) ==> PathNodes(p) <= needed
  }

  /** A descriptor PageTable_Init maps is page-aligned and below the limit, and `needed` covers it. */
  ghost predicate Placed(d: Descriptor, needed: set<Node>) {
    Mapped(d) ==>
      && d.start % PAGE_SIZE == 0 && d.start + d.pages * PAGE_SIZE <= LIMIT
      && NeededFor(needed, d.start, d.start + d.pages * PAGE_SIZE)
  }

  ghost predicate DevicesPlaced(fb: nat, fbSize: nat, lapic: nat, rsp: nat, needed: set<Node>) {
    && fb % PAGE_SIZE == 0 && fb + fbSize <= LIMIT && NeededFor(needed, fb, fb + fbSize)
    && lapic % PAGE_SIZE == 0 && lapic + PAGE_SIZE <= LIMIT && NeededFor(needed, lapic, lapic + PAGE_SIZE)
    && NeededFor(needed, IOAPIC_BASE, IOAPIC_BASE + 0x1000)
    && StackBase(rsp) + 0x10_0000 <= LIMIT && NeededFor(needed, StackBase(rsp), StackBase(rsp) + 0x10_0000)
  }

  // ---------------------------------------------------------------- the tables in memory

  class Tables {
    const pa: PageBitmap.PageAllocator
    /** Physical memory below 4 GB, as 64-bit words; the tables live in it. */
    const words: array<nat>
    /** g_kernel_pml4, 0 before PageTable_Init. */
    var root: nat
    ghost var nodes: map<Node, nat>
    ghost var tlb: Tlb
    /** Whether the processor drops cached translations only when it must; it is free to do so at any time otherwise. */
    ghost const keeps: bool

    ghost predicate Built()
      reads this, pa, pa.bitmap, words
    {
      && pa.Valid() && root != 0
      && TreeOk(words[..], nodes) && Rooted(nodes) && root == nodes[Root] * PAGE_SIZE
      && OnOwnPages(AbsTree())
    }

    ghost function AbsTree(): Tree
      reads this, pa, pa.bitmap
      requires pa.Valid()
    {
      Tree(pa.State(), nodes)
    }

    /** The address space: what the hardware walk translates, and to what. */
    ghost function Space(): imap<VPage, Mapping>
      reads this, words
    {
      View(words[..], root)
    }

    /** Every cached translation is the one the tables give now. */
    ghost predicate CacheCoherent()
      reads this, words
    {
      Coherent(tlb, Space(), {})
    }

    constructor (pa: PageBitmap.PageAllocator, words: array<nat>, ghost keeps: bool)
      ensures this.pa == pa && this.words == words && root == 0 && this.keeps == keeps
    {
      this.keeps := keeps;
      this.pa := pa;
      this.words := words;
      root := 0;
      nodes := map[];
      tlb := map[];
    }

    /** The processor caches any translations it can walk right now, and may drop others. */
    ghost method Speculate()
      modifies this`tlb
      ensures Cached(old(tlb), tlb, Space(), keeps)
    {
      var pick: set<VPage> := *;
      var drop: set<VPage> := *;
      if keeps {
        pick, drop := pick - tlb.Keys, {};
      }
      tlb := (tlb - drop) + map p | p in pick && p in Space() :: Space()[p];
    }

    /** memory.c:97-99: the new table is cleared before anything points to it. */
    method ClearTable(table: nat, ghost q: nat)
      requires words.Length == MAX_PAGES * ENTRIES && q < MAX_PAGES && table == q * PAGE_SIZE
      modifies words
      ensures OnlyPage(old(words[..]), words[..], q) && Zeroed(words[..], q)
    {
      for i := 0 to ENTRIES
        invariant OnlyPage(old(words[..]), words[..], q)
        invariant forall j: nat :: j < i ==> words[Slot(q, j)] == 0
      {
        words[table / 8 + i] := 0;
      }
    }

    /** memory.c:97-99, on the page just allocated: until it is linked the page changes no translation. */
    method PrepareTable(t: nat, ghost q: nat)
      requires root != 0 && TreeOk(words[..], nodes) && Rooted(nodes) && root == nodes[Root] * PAGE_SIZE
      requires t == q * PAGE_SIZE && q < MAX_PAGES && NoTable(nodes, q)
      modifies this`tlb, words
      ensures TreeOk(words[..], nodes) && Zeroed(words[..], q) && OnlyPage(old(words[..]), words[..], q)
      ensures Space() == old(Space()) && Cached(old(tlb), tlb, Space(), keeps)
    {
      hide Rooted, View, OnlyPage, Zeroed, Cached, NoTable, EntryOk;
      ghost var mem0 := words[..];
      ClearTable(t, q);
      ForeignView(mem0, words[..], nodes, q);
      Speculate();
    }

    /** memory.c:97-103, on the page just allocated. */
    method LinkNewTable(table: nat, index: nat, t: nat, ghost n: Node, ghost before: Tree)
      requires pa.Valid() && root != 0 && TreeOk(words[..], nodes) && Rooted(nodes) && root == nodes[Root] * PAGE_SIZE
      requires n in nodes && !n.Pt? && table == nodes[n] * PAGE_SIZE && index < ENTRIES && Child(n, index) !in nodes
      requires OnOwnPages(before) && before.nodes == nodes
      requires t % PAGE_SIZE == 0 && t / PAGE_SIZE in FreePages(before.st)
      requires pa.State() == before.st.(used := before.st.used + {t / PAGE_SIZE})
      modifies this`nodes, this`tlb, words
      ensures Built() && nodes == old(nodes)[Child(n, index) := t / PAGE_SIZE]
      ensures TablesOnly(old(words[..]), words[..], nodes) && old(nodes).Values <= nodes.Values
      ensures Space() == old(Space()) && Cached(old(tlb), tlb, Space(), keeps)
    {
      hide TreeOk, Rooted, View, Zeroed, Link, Or, Cached, OnOwnPages, FreePages, NoTable, OnlyPage, TablesOnly;
      ghost var q, c, mem0 := t / PAGE_SIZE, Child(n, index), words[..];
      FreshPage(before, c, q);
      PrepareTable(t, q);
      ghost var mem := words[..];
      SlotBound(mem, nodes, n, index);
      LinkOr(q);
      LinkView(mem, nodes, n, index, q);
      words[table / 8 + index] := Or(Or(Or(t, PRESENT), WRITABLE), USER);
      assert words[..] == mem[Slot(nodes[n], index) := Link(q)];
      MoreTables(nodes, c, q);
      nodes := nodes[c := q];
      PageInTable(mem0, mem, nodes, c);
      StoreInTable(mem, nodes, n, index, Link(q));
      TablesOnlyTwice(mem0, mem, words[..], nodes, nodes);
    }

    /** GetOrCreateTable: returns the table under entry `index` of node `n`'s table, creating it on a page
        of its own if need be, 0 if no page is left. No address changes its translation. */
    method GetOrCreateTable(table: nat, index: nat, ghost n: Node) returns (t: nat)
      requires Built() && n in nodes && !n.Pt? && table == nodes[n] * PAGE_SIZE && index < ENTRIES
      modifies this`nodes, this`tlb, words, pa.bitmap
      ensures Built() && AbsTree() == Grow(old(AbsTree()), Child(n, index))
      ensures t == if Child(n, index) in nodes then nodes[Child(n, index)] * PAGE_SIZE else 0
      ensures TablesOnly(old(words[..]), words[..], nodes) && old(nodes).Values <= nodes.Values
      ensures Space() == old(Space()) && Cached(old(tlb), tlb, Space(), keeps)
    {
      hide TreeOk, Rooted, OnOwnPages, View, Grow, Has, TableOf;
      ghost var mem := words[..];
      UpperEntry(words[..], nodes, n, index);
      SlotBound(words[..], nodes, n, index);
      var entry := words[table / 8 + index];
      if Has(entry, PRESENT) {
        GrowKnown(AbsTree(), Child(n, index));
        return TableOf(entry);
      }
      t := pa.Alloc(1);
      assert words[..] == mem;
      GrowUnknown(old(AbsTree()), Child(n, index));
      if t != 0 {
        LinkNewTable(table, index, t, n, old(AbsTree()));
      }
    }
  
    /** invlpg */
    ghost method Invalidate(virt: nat)
      modifies this`tlb
      ensures tlb == old(tlb) - {PageOf(virt)}
    {
      tlb := tlb - {PageOf(virt)};
    }

    /** memory.c:118: the store of a last-level entry. */
    method StoreEntry(table: nat, index: nat, e: nat, ghost p: VPage)
      requires Built() && p.Valid() && Pt(p.i4, p.i3, p.i2) in nodes
      requires table == nodes[Pt(p.i4, p.i3, p.i2)] * PAGE_SIZE && index == p.i1
      requires e == 0 || Has(e, PRESENT)
      modifies words
      ensures Built() && AbsTree() == old(AbsTree()) && TablesOnly(old(words[..]), words[..], nodes)
      ensures Space() == if e == 0 then old(Space()) - {p} else old(Space())[p := Decode(e)]
    {
      hide TreeOk, Rooted, OnOwnPages, Leaf;
      ghost var mem := words[..];
      SlotBound(mem, nodes, Pt(p.i4, p.i3, p.i2), index);
      StoreLeaf(mem, nodes, p, e);
      words[table / 8 + index] := e;
      assert words[..] == mem[Slot(nodes[Pt(p.i4, p.i3, p.i2)], p.i1) := e];
      OneLeaf(mem, words[..], nodes, p, e);
      StoreInTable(mem, nodes, Pt(p.i4, p.i3, p.i2), p.i1, e);
    }

    /** memory.c:108-116: the last-level table for `virt`, with every table on the way created where it was missing. */
    method WalkCreating(pml4: nat, virt: nat) returns (pt: nat)
      requires Built() && pml4 == root && Enough(AbsTree(), PathNodes(PageOf(virt)))
      modifies this`nodes, this`tlb, words, pa.bitmap
      ensures Built() && AbsTree() == GrowPath(old(AbsTree()), PageOf(virt))
      ensures var p := PageOf(virt); Pt(p.i4, p.i3, p.i2) in nodes && pt == nodes[Pt(p.i4, p.i3, p.i2)] * PAGE_SIZE
      ensures TablesOnly(old(words[..]), words[..], nodes)
      ensures Space() == old(Space()) && Cached(old(tlb), tlb, Space(), keeps)
    {
      hide TreeOk, Rooted, OnOwnPages, View, Grow, Enough, Cached, TablesOnly;
      IndexBits(virt / 0x80_0000_0000);
      IndexBits(virt / 0x4000_0000);
      IndexBits(virt / 0x20_0000);
      var pml4Idx, pdpIdx := And(virt / 0x80_0000_0000, 0x1FF), And(virt / 0x4000_0000, 0x1FF);
      var pdIdx := And(virt / 0x20_0000, 0x1FF);
      ghost var p, mem0, tlb0 := PageOf(virt), words[..], tlb;
      RootExists(words[..], nodes);
      SlotBound(words[..], nodes, Root, 0);
      GrowLaw(AbsTree(), Pdp(p.i4), PathNodes(p));
      var pdp := GetOrCreateTable(pml4, pml4Idx, Root);
      ghost var mem1, nodes1, tlb1 := words[..], nodes, tlb;
      GrowLaw(AbsTree(), Pd(p.i4, p.i3), PathNodes(p));
      var pd := GetOrCreateTable(pdp, pdpIdx, Pdp(p.i4));
      ghost var mem2, nodes2, tlb2 := words[..], nodes, tlb;
      GrowLaw(AbsTree(), Pt(p.i4, p.i3, p.i2), PathNodes(p));
      pt := GetOrCreateTable(pd, pdIdx, Pd(p.i4, p.i3));
      TablesOnlyTwice(mem0, mem1, mem2, nodes1, nodes2);
      TablesOnlyTwice(mem0, mem2, words[..], nodes2, nodes);
      CachedTwice(tlb0, tlb1, tlb2, Space(), keeps);
      CachedTwice(tlb0, tlb2, tlb, Space(), keeps);
    }

    /** PageTable_Map: afterwards `virt`'s page translates to `phys` with `flags`, and every other page as before. */
    method Map(pml4: nat, virt: nat, phys: nat, flags: nat)
      requires Built() && pml4 == root
      requires phys % PAGE_SIZE == 0 && phys < MAX_PHYS && flags < PAGE_SIZE
      requires Enough(AbsTree(), PathNodes(PageOf(virt)))
      modifies this`nodes, this`tlb, words, pa.bitmap
      ensures Built() && AbsTree() == GrowPath(old(AbsTree()), PageOf(virt))
      ensures Space() == old(Space())[PageOf(virt) := Target(phys, flags)]
      ensures TablesOnly(old(words[..]), words[..], nodes)
      ensures forall stale :: Coherent(old(tlb), old(Space()), stale) ==> Coherent(tlb, Space(), stale + {PageOf(virt)})
      ensures StoreStep(old(tlb), tlb, old(Space()), Space(), keeps)
      ensures old(CacheCoherent()) ==>
        && ((PageOf(virt) in old(Space()) ==> old(Space())[PageOf(virt)] == Target(phys, flags)) ==> CacheCoherent())
        && (keeps && PageOf(virt) in old(tlb) ==>
              (CacheCoherent() <==> old(Space())[PageOf(virt)] == Target(phys, flags)))
    {
      hide TreeOk, Rooted, OnOwnPages, View, Grow, Enough, Coherent, Cached, Has, Decode, Target, TablesOnly;
      ghost var p, mem, space, tlb0 := PageOf(virt), words[..], Space(), tlb;
      IndexBits(virt / 0x1000);
      var ptIdx := And(virt / 0x1000, 0x1FF);
      var pt := WalkCreating(pml4, virt);
      ghost var mem1 := words[..];
      EntryDecodes(phys, flags);
      StoreEntry(pt, ptIdx, Or(Or(phys, flags), PRESENT), p);
      TablesOnlyTwice(mem, mem1, words[..], nodes, nodes);
      Speculate();
      assert StoreStep(tlb0, tlb, space, Space(), keeps);
      MapTlb(tlb0, tlb, space, p, Target(phys, flags), keeps);
    }

    /** PageTable_UnMap: afterwards `virt`'s page has no translation, every other page is as before, and whatever
        was cached coherently still is, on the early returns too. */
    method UnMap(pml4: nat, virt: nat)
      requires Built() && pml4 == root
      modifies this`tlb, words
      ensures Built() && AbsTree() == old(AbsTree())
      ensures Space() == old(Space()) - {PageOf(virt)}
      ensures forall stale :: Coherent(old(tlb), old(Space()), stale) ==> Coherent(tlb, Space(), stale)
    {
      hide TreeOk, Rooted, OnOwnPages, View, Coherent, Cached, Has, TableOf, Decode;
      IndexBits(virt / 0x80_0000_0000);
      IndexBits(virt / 0x4000_0000);
      IndexBits(virt / 0x20_0000);
      IndexBits(virt / 0x1000);
      var pml4Idx, pdpIdx := And(virt / 0x80_0000_0000, 0x1FF), And(virt / 0x4000_0000, 0x1FF);
      var pdIdx, ptIdx := And(virt / 0x20_0000, 0x1FF), And(virt / 0x1000, 0x1FF);
      ghost var p, space0, tlb0 := PageOf(virt), Space(), tlb;
      RootExists(words[..], nodes);
      SlotBound(words[..], nodes, Root, pml4Idx);
      UpperEntry(words[..], nodes, Root, pml4Idx);
      if !Has(words[pml4 / 8 + pml4Idx], PRESENT) {
        NoTranslation(words[..], nodes, p);
        return;
      }
      var pdp := TableOf(words[pml4 / 8 + pml4Idx]);
      SlotBound(words[..], nodes, Pdp(p.i4), pdpIdx);
      UpperEntry(words[..], nodes, Pdp(p.i4), pdpIdx);
      if !Has(words[pdp / 8 + pdpIdx], PRESENT) {
        NoTranslation(words[..], nodes, p);
        return;
      }
      var pd := TableOf(words[pdp / 8 + pdpIdx]);
      SlotBound(words[..], nodes, Pd(p.i4, p.i3), pdIdx);
      UpperEntry(words[..], nodes, Pd(p.i4, p.i3), pdIdx);
      if !Has(words[pd / 8 + pdIdx], PRESENT) {
        NoTranslation(words[..], nodes, p);
        return;
      }
      var pt := TableOf(words[pd / 8 + pdIdx]);
      StoreEntry(pt, ptIdx, 0, p);
      Speculate();
      ghost var tlb1 := tlb;
      Invalidate(virt);
      UnMapTlb(tlb0, tlb1, tlb, space0, Space(), p, keeps);
    }
  
    // -------------------------------------------------------------- identity maps

    /** One round of the mapping loops: page `addr` is mapped to itself. */
    method MapPage(pml4: nat, ghost space0: Space, ghost start: nat, addr: nat, flags: nat, ghost needed: set<Node>)
      requires Built() && pml4 == root
      requires addr % PAGE_SIZE == 0 && start <= addr < LIMIT && flags < PAGE_SIZE
      requires PathNodes(PageOf(addr)) <= needed && Enough(AbsTree(), needed)
      requires Space() == Overlay(space0, start, addr, flags)
      modifies this`nodes, this`tlb, words, pa.bitmap
      ensures Built() && Enough(AbsTree(), needed) && Extends(old(AbsTree()), AbsTree(), AbsTree().nodes.Keys)
      ensures Space() == Overlay(space0, start, addr + PAGE_SIZE, flags)
      ensures forall stale :: Coherent(old(tlb), old(Space()), stale) ==> Coherent(tlb, Space(), stale + {PageOf(addr)})
    {
      hide TreeOk, Rooted, View, Coherent, Target, GrowPath, Overlay, PageOf;
      FewerNeeds(AbsTree(), PathNodes(PageOf(addr)), needed);
      GrowPathLaw(AbsTree(), PageOf(addr), needed);
      OverlayStep(space0, start, addr, flags);
      Map(pml4, addr, addr, flags);
      ExtendsAll(old(AbsTree()), AbsTree(), PathNodes(PageOf(addr)));
    }

    /** A mapping loop of PageTable_Init: `[start, end)` is mapped to itself. */
    method MapIdentity(pml4: nat, start: nat, end: nat, flags: nat, ghost needed: set<Node>)
      requires Built() && pml4 == root
      requires start % PAGE_SIZE == 0 && end <= LIMIT && flags < PAGE_SIZE
      requires NeededFor(needed, start, end) && Enough(AbsTree(), needed)
      modifies this`nodes, this`tlb, words, pa.bitmap
      ensures Built() && Enough(AbsTree(), needed) && Extends(old(AbsTree()), AbsTree(), AbsTree().nodes.Keys)
      ensures Space() == Overlay(old(Space()), start, end, flags)
    {
      hide TreeOk, Rooted, View, Coherent, Target, Overlay, OnOwnPages, Extends, Enough, PageOf;
      EmptyOverlay(Space(), start, flags);
      ExtendsSelf(AbsTree());
      var addr := start;
      while addr < end
        invariant addr % PAGE_SIZE == 0 && start <= addr && (addr == start || addr < end + PAGE_SIZE)
        invariant Built() && Enough(AbsTree(), needed) && Extends(old(AbsTree()), AbsTree(), AbsTree().nodes.Keys)
        invariant Space() == Overlay(old(Space()), start, addr, flags)
      {
        BaseOf(addr);
        NextPage(addr);
        ghost var t := AbsTree();
        MapPage(pml4, old(Space()), start, addr, flags, needed);
        ExtendsChain(old(AbsTree()), t, AbsTree());
        addr := addr + PAGE_SIZE;
      }
      OverlayRound(old(Space()), start, addr, end, flags);
    }

    /** Memory_MapMMIO: each page is mapped to itself and invalidated, so a coherent cache stays coherent. */
    method MapMMIO(physAddr: nat, size: nat, ghost needed: set<Node>)
      requires root == 0 || Built()
      requires physAddr % PAGE_SIZE == 0 && physAddr + size <= LIMIT
      requires root != 0 ==> NeededFor(needed, physAddr, physAddr + size) && Enough(AbsTree(), needed)
      modifies this`nodes, this`tlb, words, pa.bitmap
      ensures old(root == 0) ==> unchanged(this, words, pa.bitmap)
      ensures old(root != 0) ==>
        && Built() && Enough(AbsTree(), needed) && Extends(old(AbsTree()), AbsTree(), AbsTree().nodes.Keys)
        && Space() == Overlay(old(Space()), physAddr, physAddr + size, READ_WRITE_USER)
        && (old(CacheCoherent()) ==> CacheCoherent())
    {
      if root == 0 {
        return;
      }
      MapMMIOPages(physAddr, size, needed);
    }

    /** memory.c:212-214 */
    method MapInvalidate(ghost space0: Space, ghost start: nat, addr: nat, ghost needed: set<Node>)
      requires Built() && addr % PAGE_SIZE == 0 && start <= addr < LIMIT
      requires PathNodes(PageOf(addr)) <= needed && Enough(AbsTree(), needed)
      requires Space() == Overlay(space0, start, addr, READ_WRITE_USER)
      modifies this`nodes, this`tlb, words, pa.bitmap
      ensures Built() && Enough(AbsTree(), needed) && Extends(old(AbsTree()), AbsTree(), AbsTree().nodes.Keys)
      ensures Space() == Overlay(space0, start, addr + PAGE_SIZE, READ_WRITE_USER)
      ensures old(CacheCoherent()) ==> CacheCoherent()
    {
      hide TreeOk, Rooted, View, Coherent, Overlay, OnOwnPages, Extends, Enough, PageOf;
      MapPage(root, space0, start, addr, READ_WRITE_USER, needed);
      ghost var tlb1 := tlb;
      Invalidate(addr);
      Invalidated(tlb1, Space(), PageOf(addr));
    }

    method MapMMIOPages(physAddr: nat, size: nat, ghost needed: set<Node>)
      requires Built() && physAddr % PAGE_SIZE == 0 && physAddr + size <= LIMIT
      requires NeededFor(needed, physAddr, physAddr + size) && Enough(AbsTree(), needed)
      modifies this`nodes, this`tlb, words, pa.bitmap
      ensures Built() && Enough(AbsTree(), needed) && Extends(old(AbsTree()), AbsTree(), AbsTree().nodes.Keys)
      ensures Space() == Overlay(old(Space()), physAddr, physAddr + size, READ_WRITE_USER)
      ensures old(CacheCoherent()) ==> CacheCoherent()
    {
      hide TreeOk, Rooted, View, Coherent, Target, Overlay, OnOwnPages, Extends, Enough, PageOf;
      EmptyOverlay(Space(), physAddr, READ_WRITE_USER);
      ExtendsSelf(AbsTree());
      var addr, end := physAddr, physAddr + size;
      while addr < end
        invariant addr % PAGE_SIZE == 0 && physAddr <= addr && (addr == physAddr || addr < end + PAGE_SIZE)
        invariant Built() && Enough(AbsTree(), needed) && Extends(old(AbsTree()), AbsTree(), AbsTree().nodes.Keys)
        invariant Space() == Overlay(old(Space()), physAddr, addr, READ_WRITE_USER)
        invariant old(CacheCoherent()) ==> CacheCoherent()
      {
        BaseOf(addr);
        NextPage(addr);
        ghost var t := AbsTree();
        MapInvalidate(old(Space()), physAddr, addr, needed);
        ExtendsChain(old(AbsTree()), t, AbsTree());
        addr := addr + PAGE_SIZE;
      }
      OverlayRound(old(Space()), physAddr, addr, end, READ_WRITE_USER);
    }
  
    /** memory.c:149-152 */
    method CreateRoot(ghost needed: set<Node>)
      requires pa.Valid() && words.Length == MAX_PAGES * ENTRIES && |needed| < |FreePages(pa.State())|
      modifies this`root, this`nodes, words, pa.bitmap
      ensures Built() && Space() == imap[] && Enough(AbsTree(), needed)
      ensures Extends(Tree(old(pa.State()), map[]), AbsTree(), AbsTree().nodes.Keys)
    {
      hide TreeOk, Rooted, View, Zeroed, OnlyPage, FreePages, OnOwnPages, Extends, Enough, Alloc;
      ghost var st := pa.State();
      SinglePage(st);
      root := pa.Alloc(1);
      ghost var q := root / PAGE_SIZE;
      ghost var st' := pa.State();
      RootTree(st, q, needed);
      ClearTable(root, q);
      assert pa.State() == st';
      nodes := map[Root := q];
      EmptyTree(words[..], q);
    }

    /** memory.c:155-176 */
    method MapMemory(pml4: nat, at: nat -> Descriptor, mapSize: nat, descSize: nat, ghost needed: set<Node>)
      requires Built() && pml4 == root && descSize > 0 && Enough(AbsTree(), needed)
      requires forall d :: d in PageBitmap.Visited(at, 0, mapSize, descSize) ==> Placed(d, needed)
      modifies this`nodes, this`tlb, words, pa.bitmap
      ensures Built() && Enough(AbsTree(), needed) && Extends(old(AbsTree()), AbsTree(), AbsTree().nodes.Keys)
      ensures Space() == MapDescriptors(old(Space()), PageBitmap.Visited(at, 0, mapSize, descSize))
    {
      hide TreeOk, Rooted, View, Overlay, OnOwnPages, Extends, Enough;
      ExtendsSelf(AbsTree());
      ghost var all := PageBitmap.Visited(at, 0, mapSize, descSize);
      var offset := 0;
      while offset < mapSize
        invariant Built() && Enough(AbsTree(), needed) && Extends(old(AbsTree()), AbsTree(), AbsTree().nodes.Keys)
        invariant MapDescriptors(Space(), PageBitmap.Visited(at, offset, mapSize, descSize)) ==
          MapDescriptors(old(Space()), all)
        invariant forall d :: d in PageBitmap.Visited(at, offset, mapSize, descSize) ==> Placed(d, needed)
        decreases mapSize - offset
      {
        var d := at(offset);
        assert PageBitmap.Visited(at, offset, mapSize, descSize)[0] == d &&
          d in PageBitmap.Visited(at, offset, mapSize, descSize);
        if Mapped(d) {
          ghost var t := AbsTree();
          MapIdentity(pml4, d.start, d.start + d.pages * PAGE_SIZE, READ_WRITE_USER, needed);
          ExtendsChain(old(AbsTree()), t, AbsTree());
        }
        offset := offset + descSize;
      }
    }

    /** memory.c:179-199 */
    method MapDevices(pml4: nat, fb: nat, fbSize: nat, lapic: nat, rsp: nat, ghost needed: set<Node>)
      requires Built() && pml4 == root && Enough(AbsTree(), needed) && DevicesPlaced(fb, fbSize, lapic, rsp, needed)
      modifies this`nodes, this`tlb, words, pa.bitmap
      ensures Built() && Extends(old(AbsTree()), AbsTree(), AbsTree().nodes.Keys)
      ensures Space() == WithDevices(old(Space()), fb, fbSize, lapic, rsp)
    {
      hide TreeOk, Rooted, View, Overlay, OnOwnPages, Extends, Enough, StackBase, NeededFor;
      MapIdentity(pml4, fb, fb + fbSize, READ_WRITE_USER, needed);
      if lapic != 0 {
        ghost var t := AbsTree();
        MapIdentity(pml4, lapic, lapic + PAGE_SIZE, WRITABLE, needed);
        ExtendsChain(old(AbsTree()), t, AbsTree());
      }
      ghost var t1 := AbsTree();
      MapIdentity(pml4, IOAPIC_BASE, IOAPIC_BASE + 0x1000, WRITABLE, needed);
      ExtendsChain(old(AbsTree()), t1, AbsTree());
      ghost var t2 := AbsTree();
      StackAligned(rsp);
      MapIdentity(pml4, StackBase(rsp), StackBase(rsp) + 0x10_0000, READ_WRITE_USER, needed);
      ExtendsChain(old(AbsTree()), t2, AbsTree());
    }

    /** PageTable_Init: a fresh tree that maps exactly the initial space; loading CR3 empties the cache. */
    method Init(at: nat -> Descriptor, mapSize: nat, descSize: nat, fb: nat, fbSize: nat, lapic: nat, rsp: nat,
      ghost needed: set<Node>)
      requires pa.Valid() && words.Length == MAX_PAGES * ENTRIES && |needed| < |FreePages(pa.State())| && descSize > 0
      requires forall d :: d in PageBitmap.Visited(at, 0, mapSize, descSize) ==> Placed(d, needed)
      requires DevicesPlaced(fb, fbSize, lapic, rsp, needed)
      modifies this`root, this`nodes, this`tlb, words, pa.bitmap
      ensures Built()
      ensures Space() == InitialSpace(PageBitmap.Visited(at, 0, mapSize, descSize), fb, fbSize, lapic, rsp)
      ensures CacheCoherent()
      ensures Extends(Tree(old(pa.State()), map[]), AbsTree(), AbsTree().nodes.Keys)
    {
      hide TreeOk, Rooted, View, Overlay, OnOwnPages, Extends, Enough, FreePages, Placed, DevicesPlaced;
      CreateRoot(needed);
      ghost var t1 := AbsTree();
      MapMemory(root, at, mapSize, descSize, needed);
      ExtendsChain(Tree(old(pa.State()), map[]), t1, AbsTree());
      ghost var t2 := AbsTree();
      MapDevices(root, fb, fbSize, lapic, rsp, needed);
      ExtendsChain(Tree(old(pa.State()), map[]), t2, AbsTree());
      tlb := map[];
      Speculate();
    }
  }
}
