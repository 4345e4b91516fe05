/** Laws of the kernel heap over whole runs: the block list is canonical, every
    request keeps it well formed, and frees undo allocations exactly. */
module HeapTheorems {
  import opened Bytes
  import opened Bits
  import opened HeapLayout

  // ---------------------------------------------------------------- the layout is canonical

  lemma Tail(bs: seq<Block>, lo: nat, hi: nat)
    requires WellFormed(bs, lo, hi) && |bs| > 1
    ensures WellFormed(bs[1..], bs[0].End(), hi)
    ensures Live(bs) == Live(bs[1..]) + (if bs[0].free then {} else {bs[0]})
    ensures bs[0] !in Live(bs[1..])
  {
    assert Joined(bs, 0);
    forall i: nat | i < |bs[1..]| ensures Joined(bs[1..], i) && Apart(bs[1..], i) {
      assert Joined(bs, i + 1) && Apart(bs, i + 1);
    }
    assert bs == [bs[0]] + bs[1..];
    forall i | 0 < i < |bs| ensures bs[i] != bs[0] {
      Ordered(bs, lo, hi, 0, i);
    }
  }

  /** A block that starts where the list starts is its first block. */
  lemma FirstBlock(bs: seq<Block>, lo: nat, hi: nat, b: Block)
    requires WellFormed(bs, lo, hi) && b in bs && b.addr == lo
    ensures b == bs[0]
  {
    var i :| 0 <= i < |bs| && bs[i] == b;
    if i > 0 { Ordered(bs, lo, hi, 0, i); }
  }

  /** Two first blocks that are both free end at the same address, or the live sets differ. */
  lemma FreeHeadEnds(bs: seq<Block>, cs: seq<Block>, lo: nat, hi: nat)
    requires WellFormed(bs, lo, hi) && WellFormed(cs, lo, hi) && Live(bs) == Live(cs)
    requires bs[0].free && cs[0].free
    ensures bs[0].End() >= cs[0].End()
  {
    if bs[0].End() < cs[0].End() {
      Bounds(cs, lo, hi, 0);
      assert |bs| > 1;
      assert Joined(bs, 0) && Apart(bs, 0);
      assert bs[1] in Live(bs);
      var j :| 0 <= j < |cs| && cs[j] == bs[1];
      if j > 0 { Ordered(cs, lo, hi, 0, j); }
      assert false;
    }
  }

  lemma SameHead(bs: seq<Block>, cs: seq<Block>, lo: nat, hi: nat)
    requires WellFormed(bs, lo, hi) && WellFormed(cs, lo, hi) && Live(bs) == Live(cs)
    ensures bs[0] == cs[0]
  {
    if !bs[0].free {
      assert bs[0] in Live(cs);
      FirstBlock(cs, lo, hi, bs[0]);
    } else if !cs[0].free {
      assert cs[0] in Live(bs);
      FirstBlock(bs, lo, hi, cs[0]);
    } else {
      FreeHeadEnds(bs, cs, lo, hi);
      FreeHeadEnds(cs, bs, lo, hi);
    }
  }

  /** The block list of a well-formed heap is determined by its live blocks: every
      maximal gap between them is exactly one free block. */
  lemma {:induction false} Canonical(bs: seq<Block>, cs: seq<Block>, lo: nat, hi: nat)
    requires WellFormed(bs, lo, hi) && WellFormed(cs, lo, hi) && Live(bs) == Live(cs)
    ensures bs == cs
    decreases |bs|
  {
    SameHead(bs, cs, lo, hi);
    if |bs| == 1 {
      if |cs| > 1 { Ordered(cs, lo, hi, 0, |cs| - 1); }
    } else {
      if |cs| == 1 { Ordered(bs, lo, hi, 0, |bs| - 1); }
      Tail(bs, lo, hi);
      Tail(cs, lo, hi);
      Canonical(bs[1..], cs[1..], bs[0].End(), hi);
      assert bs == [bs[0]] + bs[1..] && cs == [cs[0]] + cs[1..];
    }
  }

  // ---------------------------------------------------------------- live blocks

  /** Distinct live blocks have disjoint extents, headers included. */
  lemma LiveDisjoint(bs: seq<Block>, lo: nat, hi: nat, b: Block, c: Block)
    requires WellFormed(bs, lo, hi) && b in Live(bs) && c in Live(bs) && b != c
    ensures b.End() <= c.addr || c.End() <= b.addr
  {
    var i :| 0 <= i < |bs| && bs[i] == b;
    var j :| 0 <= j < |bs| && bs[j] == c;
    if i < j { Ordered(bs, lo, hi, i, j); } else { Ordered(bs, lo, hi, j, i); }
  }

  lemma LiveInside(bs: seq<Block>, lo: nat, hi: nat, b: Block)
    requires WellFormed(bs, lo, hi) && b in Live(bs)
    ensures lo <= b.addr && b.End() <= hi
  {
    var i :| 0 <= i < |bs| && bs[i] == b;
    Bounds(bs, lo, hi, i);
  }

  /** An address inside a free block is not the start of a live block. */
  lemma NotLiveInsideFree(bs: seq<Block>, lo: nat, hi: nat, i: nat, b: Block)
    requires WellFormed(bs, lo, hi) && i < |bs| && bs[i].free
    requires bs[i].addr <= b.addr < bs[i].End()
    ensures b !in Live(bs)
  {
    if b in Live(bs) {
      var j :| 0 <= j < |bs| && bs[j] == b;
      if j < i { Ordered(bs, lo, hi, j, i); } else if i < j { Ordered(bs, lo, hi, i, j); }
      assert false;
    }
  }

  /** Distinct blocks have distinct payload addresses. */
  lemma IndexUnique(bs: seq<Block>, lo: nat, hi: nat, i: nat)
    requires WellFormed(bs, lo, hi) && i < |bs|
    ensures BlockPtr(bs, bs[i].Payload()) && IndexOf(bs, bs[i].Payload()) == i
  {
    assert bs[i] in bs;
    var j := IndexOf(bs, bs[i].Payload());
    if i < j { Ordered(bs, lo, hi, i, j); } else if j < i { Ordered(bs, lo, hi, j, i); }
  }

  /** The freed pointer names one live block, and only that block leaves the live set. */
  lemma KfreeLaw(bs: seq<Block>, lo: nat, hi: nat, b: Block)
    requires WellFormed(bs, lo, hi) && b in Live(bs)
    ensures LivePtr(bs, b.Payload()) && BlockPtr(bs, b.Payload())
    ensures WellFormed(Kfree(bs, b.Payload()), lo, hi)
    ensures Live(Kfree(bs, b.Payload())) == Live(bs) - {b}
  {
    var i :| 0 <= i < |bs| && bs[i] == b;
    IndexUnique(bs, lo, hi, i);
    FreeKeeps(bs, lo, hi, i);
  }

  /** From `bs` to `cs` exactly one live block was added: payload at `p`, between `least` and `most` bytes. */
  ghost predicate Grants(bs: seq<Block>, cs: seq<Block>, p: nat, least: nat, most: nat) {
    exists b: Block :: b in Live(cs) && Granted(bs, cs, p, b) && least <= b.size <= most
  }

  ghost predicate Granted(bs: seq<Block>, cs: seq<Block>, p: nat, b: Block) {
    b.Payload() == p && b !in Live(bs) && Live(cs) == Live(bs) + {b}
  }

  ghost predicate LowestFit(bs: seq<Block>, n: nat, p: nat) {
    && (exists b :: b in bs && Fits(b, n) && b.Payload() == p)
    && (forall b :: b in bs && Fits(b, n) ==> p <= b.Payload())
  }

  ghost predicate NothingFits(bs: seq<Block>, n: nat) {
    forall b :: b in bs ==> !Fits(b, n)
  }

  /** The block granted at `p` is the lowest free block that holds `n` bytes: cut to `n` bytes if it has 48 more, for a
      header and 16 bytes, and whole otherwise. */
  ghost predicate TakenFrom(bs: seq<Block>, cs: seq<Block>, n: nat, p: nat) {
    && LowestFit(bs, n, p)
    && exists b, c :: b in bs && c in Live(cs) && Taking(b, c, n) && c.Payload() == p
  }

  ghost predicate Taking(b: Block, c: Block, n: nat) {
    Fits(b, n) && c.addr == b.addr && c.size == if b.size >= n + 48 then n else b.size
  }

  /** The block granted at `p` ends where the lowest free block that holds the padded request ends once it is taken, and
      starts at the first multiple of `align` that leaves a header free before it. */
  ghost predicate AlignedFrom(bs: seq<Block>, cs: seq<Block>, n: nat, align: nat, p: nat) {
    exists b, c :: b in bs && c in Live(cs) && LowestFit(bs, n + align + HEADER, b.Payload()) && c.Payload() == p
                   && Aligning(b, c, n, align)
  }

  ghost predicate Aligning(b: Block, c: Block, n: nat, align: nat) {
    && Fits(b, n + align + HEADER)
    && b.Payload() + HEADER <= c.Payload() < b.Payload() + HEADER + align
    && c.End() == if b.size >= n + align + HEADER + 48 then b.Payload() + n + align + HEADER else b.End()
  }

  lemma FirstFitIsLowest(bs: seq<Block>, lo: nat, hi: nat, n: nat)
    requires WellFormed(bs, lo, hi)
    ensures var i := FirstFit(bs, n); if i == |bs| then NothingFits(bs, n) else LowestFit(bs, n, bs[i].Payload())
  {
    var i := FirstFit(bs, n);
    forall b | b in bs && Fits(b, n) ensures i < |bs| && bs[i].addr <= b.addr {
      var j :| 0 <= j < |bs| && bs[j] == b;
      if i < j { Ordered(bs, lo, hi, i, j); }
    }
    if i < |bs| { assert bs[i] in bs; }
  }

  /** kmalloc: NULL iff no free block fits; otherwise the lowest fitting free block is used and exactly
      one live block of `n` to `n + 47` bytes appears. */
  lemma KmallocLaw(bs: seq<Block>, lo: nat, hi: nat, n: nat)
    requires WellFormed(bs, lo, hi)
    ensures var (cs, p) := Kmalloc(bs, n);
      && WellFormed(cs, lo, hi)
      && (p == 0 <==> NothingFits(bs, n))
      && (p == 0 ==> cs == bs)
      && (p != 0 ==> LowestFit(bs, n, p) && Grants(bs, cs, p, n, n + 47) && TakenFrom(bs, cs, n, p))
  {
    FirstFitIsLowest(bs, lo, hi, n);
    var i := FirstFit(bs, n);
    if i < |bs| {
      TakeKeeps(bs, lo, hi, i, n);
      var cs := TakeAt(bs, i, n);
      NotLiveInsideFree(bs, lo, hi, i, cs[i]);
      assert Granted(bs, cs, bs[i].Payload(), cs[i]);
      assert bs[i] in bs && Taking(bs[i], cs[i], n);
    }
  }

  /** kmalloc_aligned with an alignment of 16 or less is kmalloc. */
  lemma KmallocSmallAlign(bs: seq<Block>, lo: nat, hi: nat, n: nat, align: nat)
    requires WellFormed(bs, lo, hi) && align <= 16
    ensures var (cs, p) := KmallocAligned(bs, n, align);
      && WellFormed(cs, lo, hi)
      && (p == 0 <==> NothingFits(bs, n))
      && (p == 0 ==> cs == bs)
      && (p != 0 ==> Grants(bs, cs, p, n, n + 47) && TakenFrom(bs, cs, n, p))
  {
    KmallocLaw(bs, lo, hi, n);
  }

  /** The aligned address lies inside the over-allocated payload, with room for a header before it. */
  lemma AlignedAddressFits(raw: nat, size: nat, n: nat, align: nat)
    requires IsPow2(align) && align > 16 && size >= n + align + HEADER
    ensures var p := AlignedAddress(raw, align);
      p % align == 0 && raw + HEADER <= p < raw + HEADER + align && p + n < raw + size
  {
    RoundUp(raw + HEADER, align);
  }

  /** The block handed out when block `i` is taken for `total` bytes. */
  function Taken(bs: seq<Block>, i: nat, total: nat): Block
    requires i < |bs|
  {
    TakeAt(bs, i, total)[i]
  }

  /** A header and payload that start at `p - HEADER` and `p` lie inside the block handed out. */
  predicate CarvesAt(bs: seq<Block>, i: nat, total: nat, p: nat)
    requires i < |bs|
  {
    Taken(bs, i, total).Payload() + HEADER <= p <= Taken(bs, i, total).End()
  }

  /** Taking block `i` for the padded request and cutting it at `p`. */
  ghost function TakeAndCarve(bs: seq<Block>, i: nat, total: nat, p: nat): seq<Block>
    requires i < |bs| && CarvesAt(bs, i, total, p)
  {
    CarveAt(TakeAt(bs, i, total), i, p)
  }

  lemma TakeAndCarveKeeps(bs: seq<Block>, lo: nat, hi: nat, i: nat, total: nat, p: nat)
    requires WellFormed(bs, lo, hi) && i < |bs| && Fits(bs[i], total)
    requires CarvesAt(bs, i, total, p)
    ensures var cs := TakeAndCarve(bs, i, total, p);
      && WellFormed(cs, lo, hi) && i + 1 < |cs| && cs[i].free && !cs[i + 1].free
      && cs[i + 1].End() == Taken(bs, i, total).End()
      && (i > 0 ==> !cs[i - 1].free)
      && Granted(bs, cs, p, cs[i + 1])
  {
    var taken := TakeAt(bs, i, total);
    TakeKeeps(bs, lo, hi, i, total);
    if i > 0 {
      assert Apart(bs, i - 1);
      assert taken[..i][i - 1] == bs[..i][i - 1];
    }
    NotLiveInsideFree(bs, lo, hi, i, taken[i]);
    CarveKeeps(taken, lo, hi, i, p);
    var cs := CarveAt(taken, i, p);
    if i > 0 { assert cs[..i][i - 1] == taken[..i][i - 1]; }
    TakenInside(bs, i, total);
    NotLiveInsideFree(bs, lo, hi, i, cs[i + 1]);
  }

  /** It starts where block `i` did and does not reach past it. */
  lemma TakenInside(bs: seq<Block>, i: nat, total: nat)
    requires i < |bs| && bs[i].size >= total
    ensures Taken(bs, i, total).addr == bs[i].addr && Taken(bs, i, total).End() <= bs[i].End()
  {
  }

  /** The aligned address leaves room in the taken block for a header before it and the request after it. */
  lemma AlignedPlace(bs: seq<Block>, lo: nat, hi: nat, n: nat, align: nat, i: nat)
    requires WellFormed(bs, lo, hi) && IsPow2(align) && align > 16
    requires i == FirstFit(bs, n + align + HEADER) < |bs|
    ensures var p := AlignedAddress(bs[i].Payload(), align);
      && CarvesAt(bs, i, n + align + HEADER, p) && p % align == 0
      && n < Taken(bs, i, n + align + HEADER).End() - p <= n + align + 47
      && bs[i].Payload() + HEADER <= p < bs[i].Payload() + HEADER + align
  {
    hide WellFormed, IsPow2, AlignedAddress;
    var total := n + align + HEADER;
    TakeKeeps(bs, lo, hi, i, total);
    AlignedAddressFits(bs[i].Payload(), Taken(bs, i, total).size, n, align);
  }

  /** Some live block has its payload at `p` and ends at `end`. */
  ghost predicate LiveTo(cs: seq<Block>, p: nat, end: nat) {
    exists c :: c in Live(cs) && c.Payload() == p && c.End() == end
  }

  /** kmalloc_aligned carves the taken block at `p`, and its own kfree changes nothing. */
  lemma AlignedStep(bs: seq<Block>, lo: nat, hi: nat, n: nat, align: nat, i: nat, p: nat)
    requires WellFormed(bs, lo, hi) && IsPow2(align) && align > 16
    requires i == FirstFit(bs, n + align + HEADER) < |bs| && p == AlignedAddress(bs[i].Payload(), align)
    requires CarvesAt(bs, i, n + align + HEADER, p)
    ensures KmallocAligned(bs, n, align) == (TakeAndCarve(bs, i, n + align + HEADER, p), p)
  {
    hide WellFormed, Splice, IsPow2, AlignedAddress;
    var total := n + align + HEADER;
    TakeKeeps(bs, lo, hi, i, total);
    TakeAndCarveKeeps(bs, lo, hi, i, total, p);
    FreeOfPaddingIsIdentity(TakeAndCarve(bs, i, total, p), i);
  }

  /** The carved block is the one granted, whatever address it is carved at. */
  lemma CarveGrants(bs: seq<Block>, lo: nat, hi: nat, i: nat, total: nat, p: nat, least: nat, most: nat)
    requires WellFormed(bs, lo, hi) && i < |bs| && Fits(bs[i], total) && CarvesAt(bs, i, total, p)
    requires least <= Taken(bs, i, total).End() - p <= most
    ensures var cs := TakeAndCarve(bs, i, total, p);
      WellFormed(cs, lo, hi) && Grants(bs, cs, p, least, most) && LiveTo(cs, p, Taken(bs, i, total).End())
  {
    hide WellFormed, Splice;
    TakeAndCarveKeeps(bs, lo, hi, i, total, p);
    var cs := TakeAndCarve(bs, i, total, p);
    assert cs[i + 1] in Live(cs) && Granted(bs, cs, p, cs[i + 1]);
  }

  lemma AlignedFails(bs: seq<Block>, n: nat, align: nat)
    requires align > 16 && IsPow2(align) && FirstFit(bs, n + align + HEADER) == |bs|
    ensures KmallocAligned(bs, n, align) == (bs, 0)
  {
  }

  lemma TakenEnd(bs: seq<Block>, lo: nat, hi: nat, i: nat, total: nat)
    requires WellFormed(bs, lo, hi) && i < |bs| && Fits(bs[i], total)
    ensures Taken(bs, i, total).End() == if bs[i].size >= total + 48 then bs[i].Payload() + total else bs[i].End()
  {
    hide WellFormed;
    TakeKeeps(bs, lo, hi, i, total);
  }

  lemma AlignedExactly(bs: seq<Block>, cs: seq<Block>, n: nat, align: nat, b: Block, p: nat)
    requires b in bs && Fits(b, n + align + HEADER) && LowestFit(bs, n + align + HEADER, b.Payload())
    requires b.Payload() + HEADER <= p < b.Payload() + HEADER + align
    requires LiveTo(cs, p, if b.size >= n + align + HEADER + 48 then b.Payload() + n + align + HEADER else b.End())
    ensures AlignedFrom(bs, cs, n, align, p)
  {
    hide LowestFit, Live;
    var c :| c in Live(cs) && c.Payload() == p
             && c.End() == if b.size >= n + align + HEADER + 48 then b.Payload() + n + align + HEADER else b.End();
    assert Aligning(b, c, n, align);
  }

  /** kmalloc_aligned with a power of two above 16: NULL iff no free block holds the padded request; otherwise
      the payload is aligned and longer than `n` by at most `align + 47`; its own kfree changes nothing. */
  lemma KmallocAlignedLaw(bs: seq<Block>, lo: nat, hi: nat, n: nat, align: nat)
    requires WellFormed(bs, lo, hi) && IsPow2(align) && align > 16
    ensures var (cs, p) := KmallocAligned(bs, n, align);
      && WellFormed(cs, lo, hi)
      && (p == 0 <==> NothingFits(bs, n + align + HEADER))
      && (p == 0 ==> cs == bs)
      && (p != 0 ==>
            && p % align == 0 && Grants(bs, cs, p, n + 1, n + align + 47)
            && AlignedFrom(bs, cs, n, align, p))
  {
    hide WellFormed, IsPow2, AlignedAddress, KmallocAligned, TakeAndCarve, Taken, Grants, LiveTo, AlignedFrom,
      LowestFit;
    FirstFitIsLowest(bs, lo, hi, n + align + HEADER);
    var i := FirstFit(bs, n + align + HEADER);
    if i == |bs| {
      AlignedFails(bs, n, align);
    } else {
      var p := AlignedAddress(bs[i].Payload(), align);
      AlignedPlace(bs, lo, hi, n, align, i);
      AlignedStep(bs, lo, hi, n, align, i, p);
      CarveGrants(bs, lo, hi, i, n + align + HEADER, p, n + 1, n + align + 47);
      TakenEnd(bs, lo, hi, i, n + align + HEADER);
      AlignedExactly(bs, TakeAndCarve(bs, i, n + align + HEADER, p), n, align, bs[i], p);
    }
  }

  // ---------------------------------------------------------------- exact undo, commutation

  lemma FreeUndoesGrant(bs: seq<Block>, cs: seq<Block>, lo: nat, hi: nat, p: nat, least: nat, most: nat)
    requires WellFormed(bs, lo, hi) && WellFormed(cs, lo, hi) && Grants(bs, cs, p, least, most)
    ensures LivePtr(cs, p) && Kfree(cs, p) == bs
  {
    var b :| b in Live(cs) && Granted(bs, cs, p, b) && least <= b.size <= most;
    KfreeLaw(cs, lo, hi, b);
    assert Live(cs) - {b} == Live(bs);
    Canonical(Kfree(cs, p), bs, lo, hi);
  }

  /** kfree(kmalloc(n)) restores the block list, header for header. */
  lemma KmallocRoundTrip(bs: seq<Block>, lo: nat, hi: nat, n: nat)
    requires WellFormed(bs, lo, hi)
    ensures var (cs, p) := Kmalloc(bs, n); (p == 0 || LivePtr(cs, p)) && Kfree(cs, p) == bs
  {
    KmallocLaw(bs, lo, hi, n);
    var (cs, p) := Kmalloc(bs, n);
    if p != 0 { FreeUndoesGrant(bs, cs, lo, hi, p, n, n + 47); }
  }

  /** kfree(kmalloc_aligned(n, align)) restores the block list, padding and all. */
  lemma KmallocAlignedRoundTrip(bs: seq<Block>, lo: nat, hi: nat, n: nat, align: nat)
    requires WellFormed(bs, lo, hi) && (align > 16 ==> IsPow2(align))
    ensures var (cs, p) := KmallocAligned(bs, n, align); (p == 0 || LivePtr(cs, p)) && Kfree(cs, p) == bs
  {
    if align <= 16 {
      KmallocRoundTrip(bs, lo, hi, n);
    } else {
      KmallocAlignedLaw(bs, lo, hi, n, align);
      var (cs, p) := KmallocAligned(bs, n, align);
      if p != 0 { FreeUndoesGrant(bs, cs, lo, hi, p, n + 1, n + align + 47); }
    }
  }

  lemma TwoFrees(bs: seq<Block>, lo: nat, hi: nat, b: Block, c: Block)
    requires WellFormed(bs, lo, hi) && b in Live(bs) && c in Live(bs) && b != c
    ensures BlockPtr(bs, b.Payload()) && BlockPtr(Kfree(bs, b.Payload()), c.Payload())
    ensures var cs := Kfree(Kfree(bs, b.Payload()), c.Payload());
      WellFormed(cs, lo, hi) && Live(cs) == Live(bs) - {b, c}
  {
    KfreeLaw(bs, lo, hi, b);
    KfreeLaw(Kfree(bs, b.Payload()), lo, hi, c);
  }

  /** Two frees commute. */
  lemma KfreeCommutes(bs: seq<Block>, lo: nat, hi: nat, b: Block, c: Block)
    requires WellFormed(bs, lo, hi) && b in Live(bs) && c in Live(bs) && b != c
    ensures BlockPtr(bs, b.Payload()) && BlockPtr(bs, c.Payload())
    ensures BlockPtr(Kfree(bs, b.Payload()), c.Payload()) && BlockPtr(Kfree(bs, c.Payload()), b.Payload())
    ensures Kfree(Kfree(bs, b.Payload()), c.Payload()) == Kfree(Kfree(bs, c.Payload()), b.Payload())
  {
    hide Kfree, LivePtr, BlockPtr, WellFormed;
    TwoFrees(bs, lo, hi, b, c);
    TwoFrees(bs, lo, hi, c, b);
    assert {b, c} == {c, b};
    Canonical(Kfree(Kfree(bs, b.Payload()), c.Payload()), Kfree(Kfree(bs, c.Payload()), b.Payload()), lo, hi);
  }

  // ---------------------------------------------------------------- runs

  /** A call of the allocator, or a caller's store of one byte into a payload. */
  datatype Request =
    | Malloc(size: nat)
    | MallocAligned(size: nat, align: nat)
    | Free(ptr: nat)
    | Write(ptr: nat, offset: nat, value: Byte)

  /** Byte `k` of the payload at `p` belongs to a caller. */
  ghost predicate OwnsByte(bs: seq<Block>, p: nat, k: nat) {
    exists b :: b in Live(bs) && b.Payload() == p && k < b.size
  }

  /** What heap.c demands of its callers: a pointer freed, or stored through, is live, and the store is in bounds. */
  ghost predicate Legal(bs: seq<Block>, r: Request) {
    match r
    case Malloc(n) => n < WORD
    case MallocAligned(n, align) => n < WORD && (align > 16 ==> IsPow2(align) && n + align + HEADER < WORD)
    case Free(p) => p == 0 || LivePtr(bs, p)
    case Write(p, k, _) => OwnsByte(bs, p, k)
  }

  ghost function Serve(bs: seq<Block>, r: Request): seq<Block>
    requires Legal(bs, r)
  {
    match r
    case Malloc(n) => Kmalloc(bs, n).0
    case MallocAligned(n, align) => KmallocAligned(bs, n, align).0
    case Free(p) => Kfree(bs, p)
    case Write(_, _, _) => bs
  }

  ghost predicate LegalRun(bs: seq<Block>, rs: seq<Request>)
    decreases |rs|
  {
    rs == [] || (Legal(bs, rs[0]) && LegalRun(Serve(bs, rs[0]), rs[1..]))
  }

  ghost function Run(bs: seq<Block>, rs: seq<Request>): seq<Block>
    requires LegalRun(bs, rs)
    decreases |rs|
  {
    if rs == [] then bs else Run(Serve(bs, rs[0]), rs[1..])
  }

  lemma ServeKeeps(bs: seq<Block>, lo: nat, hi: nat, r: Request)
    requires WellFormed(bs, lo, hi) && Legal(bs, r)
    ensures WellFormed(Serve(bs, r), lo, hi)
  {
    match r
    case Malloc(n) => KmallocLaw(bs, lo, hi, n);
    case MallocAligned(n, align) =>
      if align <= 16 { KmallocLaw(bs, lo, hi, n); } else { KmallocAlignedLaw(bs, lo, hi, n, align); }
    case Free(p) =>
      if p != 0 {
        var b :| b in Live(bs) && b.Payload() == p;
        KfreeLaw(bs, lo, hi, b);
      }
    case Write(_, _, _) =>
  }

  /** What the requests leave at address `a`: the last byte stored there, or else `v`, the byte before. */
  function LastWritten(rs: seq<Request>, a: nat, v: Byte): Byte
    decreases |rs|
  {
    if rs == [] then v else LastWritten(rs[1..], a, Effect(rs[0], a, v))
  }

  function Effect(r: Request, a: nat, v: Byte): Byte {
    if r.Write? && r.ptr + r.offset == a then r.value else v
  }

  /** Over every run the blocks tile the arena with no two free neighbours. */
  lemma {:induction false} RunKeeps(bs: seq<Block>, lo: nat, hi: nat, rs: seq<Request>)
    requires WellFormed(bs, lo, hi) && LegalRun(bs, rs)
    ensures WellFormed(Run(bs, rs), lo, hi)
    decreases |rs|
  {
    if rs != [] {
      ServeKeeps(bs, lo, hi, rs[0]);
      RunKeeps(Serve(bs, rs[0]), lo, hi, rs[1..]);
    }
  }

  lemma InitWellFormed(start: nat, size: nat)
    requires start > 0 && size >= HEADER
    ensures WellFormed(InitLayout(start, size), start, start + size) && Live(InitLayout(start, size)) == {}
  {
  }

  /** Two runs from Heap_Init that leave the same live blocks leave the same heap, whatever their requests were. */
  lemma HistoryIndependent(start: nat, size: nat, rs: seq<Request>, qs: seq<Request>)
    requires start > 0 && size >= HEADER
    requires LegalRun(InitLayout(start, size), rs) && LegalRun(InitLayout(start, size), qs)
    requires Live(Run(InitLayout(start, size), rs)) == Live(Run(InitLayout(start, size), qs))
    ensures Run(InitLayout(start, size), rs) == Run(InitLayout(start, size), qs)
  {
    var bs := InitLayout(start, size);
    InitWellFormed(start, size);
    RunKeeps(bs, start, start + size, rs);
    RunKeeps(bs, start, start + size, qs);
    Canonical(Run(bs, rs), Run(bs, qs), start, start + size);
  }

  function Footprint(bs: seq<Block>): nat {
    if bs == [] then 0 else HEADER + bs[0].size + Footprint(bs[1..])
  }

  /** Headers and payloads add up to the arena. */
  lemma {:induction false} FootprintIsArena(bs: seq<Block>, lo: nat, hi: nat)
    requires WellFormed(bs, lo, hi)
    ensures Footprint(bs) == hi - lo
    decreases |bs|
  {
    if |bs| == 1 {
      assert bs[1..] == [];
    } else {
      Tail(bs, lo, hi);
      FootprintIsArena(bs[1..], bs[0].End(), hi);
    }
  }

  function Frees(order: seq<Block>): seq<Request> {
    seq(|order|, i requires 0 <= i < |order| => Free(order[i].Payload()))
  }

  /** `order` lists the live blocks of `bs`, each once. */
  ghost predicate Enumerates(order: seq<Block>, bs: seq<Block>) {
    && (forall i, j :: 0 <= i < j < |order| ==> order[i] != order[j])
    && (set b | b in order) == Live(bs)
  }

  /** Freeing every live block of a reachable heap, in any order, restores the single block of Heap_Init. */
  lemma {:induction false} DrainRestoresInit(bs: seq<Block>, lo: nat, hi: nat, order: seq<Block>)
    requires WellFormed(bs, lo, hi) && Enumerates(order, bs)
    ensures LegalRun(bs, Frees(order))
    ensures lo + HEADER <= hi && Run(bs, Frees(order)) == InitLayout(lo, hi - lo)
    decreases |order|
  {
    hide Kfree, WellFormed, Enumerates, Live;
    Extent(bs, lo, hi);
    if order == [] {
      InitWellFormed(lo, hi - lo);
      NothingLeft(bs);
      Canonical(bs, InitLayout(lo, hi - lo), lo, hi);
    } else {
      var b, rest := order[0], order[1..];
      FirstOf(order, bs);
      KfreeLaw(bs, lo, hi, b);
      RestOf(order, bs, Kfree(bs, b.Payload()));
      DrainRestoresInit(Kfree(bs, b.Payload()), lo, hi, rest);
      assert Frees(order)[1..] == Frees(rest);
    }
  }

  lemma Extent(bs: seq<Block>, lo: nat, hi: nat)
    requires WellFormed(bs, lo, hi)
    ensures 0 < lo && lo + HEADER <= hi
  {
    Bounds(bs, lo, hi, 0);
  }

  lemma NothingLeft(bs: seq<Block>)
    requires Enumerates([], bs)
    ensures Live(bs) == {}
  {
  }

  lemma FirstOf(order: seq<Block>, bs: seq<Block>)
    requires Enumerates(order, bs) && order != []
    ensures order[0] in Live(bs)
  {
    assert order[0] in order;
  }

  /** After the first block of the order is freed, the others are the live ones. */
  lemma RestOf(order: seq<Block>, bs: seq<Block>, cs: seq<Block>)
    requires Enumerates(order, bs) && order != [] && Live(cs) == Live(bs) - {order[0]}
    ensures Enumerates(order[1..], cs)
  {
    hide Live;
    assert order == [order[0]] + order[1..];
    assert order[0] !in order[1..];
  }
}
