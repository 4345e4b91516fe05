/** heap.c on raw memory: headers are words inside the arena, at computed addresses,
    and every request is a series of header stores. */
module KernelHeap {
  import opened Bits
  import opened Bytes
  import opened HeapLayout
  import opened HeapTheorems

  /** struct HeapBlock: size at 0, next at 8, prev at 16, free at 24. */
  datatype Header = Header(size: nat, next: nat, prev: nat, free: nat)

  /** The header stored at offset `off`; offsets outside the memory hold no header and read as zeros. */
  function HeaderAt(m: seq<Byte>, off: int): Header {
    if 0 <= off && off + HEADER <= |m| then
      Header(Word(m, off, 8), Word(m, off + 8, 8), Word(m, off + 16, 8), Word(m, off + 24, 4))
    else
      Header(0, 0, 0, 0)
  }

  function Flag(b: Block): nat {
    if b.free then 1 else 0
  }

  function AddrAt(bs: seq<Block>, i: int): nat {
    if 0 <= i < |bs| then bs[i].addr else 0
  }

  /** The header block `i` must have for the list to be doubly linked in address order. */
  function Expected(bs: seq<Block>, i: nat): Header
    requires i < |bs|
  {
    Header(bs[i].size, AddrAt(bs, i + 1), AddrAt(bs, i - 1), Flag(bs[i]))
  }

  ghost predicate HeaderOk(m: seq<Byte>, start: nat, bs: seq<Block>, i: nat) {
    i < |bs| ==> HeaderAt(m, bs[i].addr - start) == Expected(bs, i)
  }

  /** Memory `m`, whose first byte has address `start`, holds the block list `bs`. */
  ghost predicate Represents(m: seq<Byte>, start: nat, bs: seq<Block>) {
    forall i: nat :: i < |bs| ==> HeaderOk(m, start, bs, i)
  }

  /** The list as the bytes of memory have it: each header links to where its own block ends and back to the block
      before, and its flag is set exactly if the block is free. */
  lemma LinksInMemory(m: seq<Byte>, start: nat, bs: seq<Block>, i: nat)
    requires Tiles(bs, start, start + |m|) && Represents(m, start, bs) && i < |bs|
    ensures var o := bs[i].addr - start;
      && 0 <= o && o + 32 <= |m|
      && Word(m, o, 8) == bs[i].size
      && Word(m, o + 8, 8) == (if i + 1 < |bs| then bs[i].addr + 32 + bs[i].size else 0)
      && Word(m, o + 16, 8) == (if i > 0 then bs[i - 1].addr else 0)
      && (Word(m, o + 24, 4) != 0 <==> bs[i].free)
  {
    hide Word;
    assert HeaderOk(m, start, bs, i) && Joined(bs, i);
    Bounds(bs, start, start + |m|, i);
  }

  ghost function Members(bs: seq<Block>): set<Block> {
    set b | b in bs
  }

  /** Every payload byte of the blocks in `s` has the same value in both memories. */
  ghost predicate PayloadsKept(m: seq<Byte>, m': seq<Byte>, start: nat, s: set<Block>) {
    |m'| == |m| &&
    forall b, k: nat :: b in s && b.Payload() <= start + k < b.End() && k < |m| ==> m'[k] == m[k]
  }

  // ---------------------------------------------------------------- what a few stores do to the list

  lemma HeaderFrame(m: seq<Byte>, m': seq<Byte>, lo: int, hi: int, off: int)
    requires OnlyChanged(m, m', lo, hi)
    requires off + HEADER <= lo || hi <= off
    ensures HeaderAt(m', off) == HeaderAt(m, off)
  {
    hide Word;
    if 0 <= off && off + HEADER <= |m| {
      WordFrame(m, m', off, 8);
      WordFrame(m, m', off + 8, 8);
      WordFrame(m, m', off + 16, 8);
      WordFrame(m, m', off + 24, 4);
    }
  }

  /** All that a store into the header at offset `off` may do. */
  ghost predicate StoredAt(m: seq<Byte>, m': seq<Byte>, off: int) {
    && OnlyChanged(m, m', off, off + HEADER)
    && (forall q: int {:trigger HeaderAt(m', q)} :: q + HEADER <= off || off + HEADER <= q ==>
      HeaderAt(m', q) == HeaderAt(m, q))
  }

  lemma FieldStored(m: seq<Byte>, m': seq<Byte>, off: nat, lo: nat, hi: nat)
    requires off <= lo <= hi <= off + HEADER && OnlyChanged(m, m', lo, hi)
    ensures StoredAt(m, m', off)
  {
    forall q: int | q + HEADER <= off || off + HEADER <= q ensures HeaderAt(m', q) == HeaderAt(m, q) {
      HeaderFrame(m, m', lo, hi, q);
    }
  }

  lemma Unchanged(m: seq<Byte>, lo: int, hi: int)
    ensures OnlyChanged(m, m, lo, hi)
  {
  }

  /** One more store inside a range. */
  lemma StoredInside(m: seq<Byte>, m1: seq<Byte>, m2: seq<Byte>, lo: int, hi: int, off: int)
    requires OnlyChanged(m, m1, lo, hi) && StoredAt(m1, m2, off) && lo <= off && off + HEADER <= hi
    ensures OnlyChanged(m, m2, lo, hi)
  {
  }

  /** The end of what a change of blocks before index `i` may write: the header of block `i`, if there is one. */
  function Reach(bs: seq<Block>, i: nat): nat
    requires 0 < i <= |bs|
  {
    if i < |bs| then bs[i].Payload() else bs[i - 1].End()
  }

  /** The header of a block before the rewritten stretch is still right. */
  lemma HeaderBefore(m: seq<Byte>, m': seq<Byte>, start: nat, bs: seq<Block>, f: nat, k: nat, mid: seq<Block>, j: nat)
    requires Tiles(bs, start, start + |m|) && HeaderOk(m, start, bs, j)
    requires 0 < k && f + k <= |bs| && Tiles(mid, bs[f].addr, bs[f + k - 1].End()) && j < f
    requires OnlyChanged(m, m', bs[f].addr - start, Reach(bs, f + k) - start)
    ensures HeaderOk(m', start, Splice(bs, f, k, mid), j)
  {
    hide OnlyChanged, HeaderAt;
    var cs := Splice(bs, f, k, mid);
    Ordered(bs, start, start + |m|, j, f);
    HeaderFrame(m, m', bs[f].addr - start, Reach(bs, f + k) - start, bs[j].addr - start);
    assert cs[j] == bs[j] && AddrAt(cs, j + 1) == AddrAt(bs, j + 1) && AddrAt(cs, j - 1) == AddrAt(bs, j - 1);
  }

  /** The header of a block after the block whose `prev` was redirected is still right. */
  lemma HeaderAfter(m: seq<Byte>, m': seq<Byte>, start: nat, bs: seq<Block>, f: nat, k: nat, mid: seq<Block>, x: nat)
    requires Tiles(bs, start, start + |m|) && HeaderOk(m, start, bs, x)
    requires 0 < k && f + k < x < |bs|
    requires OnlyChanged(m, m', bs[f].addr - start, Reach(bs, f + k) - start)
    ensures HeaderOk(m', start, Splice(bs, f, k, mid), x - k + |mid|)
  {
    hide OnlyChanged, HeaderAt;
    var cs, j := Splice(bs, f, k, mid), x - k + |mid|;
    Ordered(bs, start, start + |m|, f + k, x);
    HeaderFrame(m, m', bs[f].addr - start, Reach(bs, f + k) - start, bs[x].addr - start);
    assert cs[j] == bs[x] && AddrAt(cs, j + 1) == AddrAt(bs, x + 1) && AddrAt(cs, j - 1) == AddrAt(bs, x - 1);
  }

  /** Blocks `f` to `f + k` are rewritten as `mid`, the following block's `prev` is redirected, and
      nothing else changes: then the memory holds the spliced list. */
  lemma SpliceRepresents(m: seq<Byte>, m': seq<Byte>, start: nat, bs: seq<Block>, f: nat, k: nat, mid: seq<Block>)
    requires Tiles(bs, start, start + |m|) && Represents(m, start, bs)
    requires 0 < k && f + k <= |bs| && Tiles(mid, bs[f].addr, bs[f + k - 1].End())
    requires OnlyChanged(m, m', bs[f].addr - start, Reach(bs, f + k) - start)
    requires forall j: nat :: f <= j < f + |mid| ==> HeaderOk(m', start, Splice(bs, f, k, mid), j)
    requires f + k < |bs| ==>
      HeaderAt(m', bs[f + k].addr - start) == HeaderAt(m, bs[f + k].addr - start).(prev := mid[|mid| - 1].addr)
    ensures Represents(m', start, Splice(bs, f, k, mid))
  {
    hide OnlyChanged, HeaderAt;
    var cs := Splice(bs, f, k, mid);
    forall j: nat | j < |cs| ensures HeaderOk(m', start, cs, j) {
      if j < f {
        HeaderBefore(m, m', start, bs, f, k, mid, j);
      } else if j > f + |mid| {
        HeaderAfter(m, m', start, bs, f, k, mid, j - |mid| + k);
      } else if j == f + |mid| {
        assert HeaderOk(m, start, bs, f + k);
        assert cs[j] == bs[f + k] && AddrAt(cs, j + 1) == AddrAt(bs, f + k + 1) && cs[j - 1] == mid[|mid| - 1];
      }
    }
  }

  /** The header after a rewritten stretch points back at the stretch's last block. */
  ghost predicate PrevRedirected(m: seq<Byte>, m': seq<Byte>, start: nat, bs: seq<Block>, i: nat, last: nat) {
    i < |bs| ==> HeaderAt(m', bs[i].addr - start) == HeaderAt(m, bs[i].addr - start).(prev := last)
  }

  /** Block `i` becomes the two blocks `c` and `d`. */
  lemma TwoForOne(m: seq<Byte>, m': seq<Byte>, start: nat, bs: seq<Block>, i: nat, c: Block, d: Block)
    requires Tiles(bs, start, start + |m|) && Represents(m, start, bs)
    requires i < |bs| && c.addr == bs[i].addr && c.End() == d.addr && d.End() == bs[i].End()
    requires OnlyChanged(m, m', bs[i].addr - start, Reach(bs, i + 1) - start)
    requires HeaderAt(m', c.addr - start) == Header(c.size, d.addr, AddrAt(bs, i - 1), Flag(c))
    requires HeaderAt(m', d.addr - start) == Header(d.size, AddrAt(bs, i + 1), c.addr, Flag(d))
    requires PrevRedirected(m, m', start, bs, i + 1, d.addr)
    ensures Represents(m', start, Splice(bs, i, 1, [c, d]))
  {
    hide OnlyChanged, HeaderAt;
    var cs := Splice(bs, i, 1, [c, d]);
    assert cs[i] == c && cs[i + 1] == d && AddrAt(cs, i - 1) == AddrAt(bs, i - 1) &&
      AddrAt(cs, i + 2) == AddrAt(bs, i + 1);
    assert HeaderOk(m', start, cs, i) && HeaderOk(m', start, cs, i + 1);
    SpliceRepresents(m, m', start, bs, i, 1, [c, d]);
  }

  /** Blocks `f` to `f + k` become the one block `c`. */
  lemma OneForMany(m: seq<Byte>, m': seq<Byte>, start: nat, bs: seq<Block>, f: nat, k: nat, c: Block)
    requires Tiles(bs, start, start + |m|) && Represents(m, start, bs)
    requires 0 < k && f + k <= |bs| && c.addr == bs[f].addr && c.End() == bs[f + k - 1].End()
    requires OnlyChanged(m, m', bs[f].addr - start, Reach(bs, f + k) - start)
    requires HeaderAt(m', c.addr - start) == Header(c.size, AddrAt(bs, f + k), AddrAt(bs, f - 1), Flag(c))
    requires PrevRedirected(m, m', start, bs, f + k, c.addr)
    ensures Represents(m', start, Splice(bs, f, k, [c]))
  {
    hide OnlyChanged, HeaderAt;
    var cs := Splice(bs, f, k, [c]);
    assert cs[f] == c && AddrAt(cs, f - 1) == AddrAt(bs, f - 1) && AddrAt(cs, f + 1) == AddrAt(bs, f + k);
    assert HeaderOk(m', start, cs, f);
    SpliceRepresents(m, m', start, bs, f, k, [c]);
  }

  /** One block's header is rewritten, the block keeping its extent. */
  lemma OneStore(m: seq<Byte>, m': seq<Byte>, start: nat, bs: seq<Block>, i: nat, c: Block)
    requires Tiles(bs, start, start + |m|) && Represents(m, start, bs)
    requires i < |bs| && c.addr == bs[i].addr && c.size == bs[i].size
    requires StoredAt(m, m', c.addr - start)
    requires HeaderAt(m', c.addr - start) == HeaderAt(m, c.addr - start).(free := Flag(c))
    ensures Represents(m', start, Splice(bs, i, 1, [c]))
  {
    hide HeaderAt;
    assert HeaderOk(m, start, bs, i);
    if i + 1 < |bs| { assert Joined(bs, i) && HeaderOk(m, start, bs, i + 1); }
    OneForMany(m, m', start, bs, i, 1, c);
  }

  /** Stores inside the blocks `f` to `f + k` and the next header miss every payload outside those blocks. */
  lemma PayloadsOutside(m: seq<Byte>, m': seq<Byte>, start: nat, bs: seq<Block>, f: nat, k: nat, s: set<Block>)
    requires Tiles(bs, start, start + |m|) && 0 < k && f + k <= |bs|
    requires OnlyChanged(m, m', bs[f].addr - start, Reach(bs, f + k) - start)
    requires s <= Live(bs) && forall x :: f <= x < f + k ==> bs[x] !in s
    ensures PayloadsKept(m, m', start, s)
  {
    forall b, a: nat | b in s && b.Payload() <= start + a < b.End() && a < |m| ensures m'[a] == m[a] {
      var x :| 0 <= x < |bs| && bs[x] == b;
      if x < f {
        Ordered(bs, start, start + |m|, x, f);
      } else {
        if f + k < x { Ordered(bs, start, start + |m|, f + k, x); }
        Bounds(bs, start, start + |m|, f + k - 1);
      }
    }
  }

  /** Block `i` cut for a request of `size` bytes, both parts still free; uncut if it is too short. */
  function Cut(bs: seq<Block>, i: nat, size: nat): seq<Block>
    requires i < |bs|
  {
    var b := bs[i];
    if Splits(b, size) then
      Splice(bs, i, 1, [Block(b.addr, size, true), Block(b.addr + HEADER + size, b.size - size - HEADER, true)])
    else bs
  }

  /** Marking the cut block used completes the hand-out. */
  lemma TakenRepresents(m: seq<Byte>, m': seq<Byte>, start: nat, bs: seq<Block>, i: nat, size: nat)
    requires Tiles(bs, start, start + |m|) && i < |bs| && Fits(bs[i], size) && Represents(m, start, Cut(bs, i, size))
    requires StoredAt(m, m', bs[i].addr - start)
    requires HeaderAt(m', bs[i].addr - start) == HeaderAt(m, bs[i].addr - start).(free := 0)
    ensures Represents(m', start, TakeAt(bs, i, size))
  {
    hide HeaderAt;
    var b, cs := bs[i], Cut(bs, i, size);
    if Splits(b, size) {
      SpliceTiles(bs, start, start + |m|, i, 1,
        [Block(b.addr, size, true), Block(b.addr + HEADER + size, b.size - size - HEADER, true)]);
    }
    var used := Block(b.addr, cs[i].size, false);
    OneStore(m, m', start, cs, i, used);
    assert Splice(cs, i, 1, [used]) == TakeAt(bs, i, size);
  }

  /** Address `a` lies in a block header. */
  ghost predicate InHeader(bs: seq<Block>, a: nat) {
    exists j: nat :: j < |bs| && bs[j].addr <= a < bs[j].Payload()
  }

  /** Only header bytes differ. */
  ghost predicate HeadersOnly(m: seq<Byte>, m': seq<Byte>, start: nat, bs: seq<Block>) {
    |m'| == |m| && forall k: nat :: k < |m| && !InHeader(bs, start + k) ==> m'[k] == m[k]
  }

  lemma HeaderStored(m: seq<Byte>, m1: seq<Byte>, m2: seq<Byte>, start: nat, bs: seq<Block>, j: nat)
    requires HeadersOnly(m, m1, start, bs) && j < |bs| && StoredAt(m1, m2, bs[j].addr - start)
    ensures HeadersOnly(m, m2, start, bs)
  {
    hide HeaderAt;
    forall k: nat | k < |m| && !InHeader(bs, start + k) ensures m2[k] == m[k] {
      assert !(bs[j].addr <= start + k < bs[j].Payload());
    }
  }

  lemma NoStores(m: seq<Byte>, start: nat, bs: seq<Block>)
    ensures HeadersOnly(m, m, start, bs)
  {
  }

  /** Every block of `cs` starts where a block of `bs` does. */
  ghost predicate StartsAmong(cs: seq<Block>, bs: seq<Block>) {
    forall c :: c in cs ==> exists b :: b in bs && b.addr == c.addr
  }

  /** A list that starts blocks only where `bs` does has no header bytes elsewhere. */
  lemma FewerHeaders(m: seq<Byte>, m1: seq<Byte>, m2: seq<Byte>, start: nat, bs: seq<Block>, cs: seq<Block>)
    requires HeadersOnly(m, m1, start, bs) && HeadersOnly(m1, m2, start, cs)
    requires StartsAmong(cs, bs)
    ensures HeadersOnly(m, m2, start, bs)
  {
    forall a: nat | InHeader(cs, a) ensures InHeader(bs, a) {
      var j: nat :| j < |cs| && cs[j].addr <= a < cs[j].Payload();
      assert cs[j] in cs;
      var b :| b in bs && b.addr == cs[j].addr;
      var x :| 0 <= x < |bs| && bs[x] == b;
    }
  }

  /** No header byte is a payload byte. */
  lemma HeadersMissPayloads(m: seq<Byte>, m': seq<Byte>, start: nat, bs: seq<Block>)
    requires Tiles(bs, start, start + |m|) && HeadersOnly(m, m', start, bs)
    ensures PayloadsKept(m, m', start, Members(bs))
  {
    forall b, k: nat | b in bs && b.Payload() <= start + k < b.End() && k < |m| ensures m'[k] == m[k] {
      if InHeader(bs, start + k) {
        var x :| 0 <= x < |bs| && bs[x] == b;
        var j: nat :| j < |bs| && bs[j].addr <= start + k < bs[j].Payload();
        if j < x { Ordered(bs, start, start + |m|, j, x); } else if x < j { Ordered(bs, start, start + |m|, x, j); }
      }
    }
  }

  /** Marking a block free moves no block. */
  lemma MarkedTiles(bs: seq<Block>, lo: nat, hi: nat, i: nat)
    requires Tiles(bs, lo, hi) && i < |bs|
    ensures var marked := bs[i := bs[i].(free := true)];
      Tiles(marked, lo, hi) && marked == Splice(bs, i, 1, [marked[i]]) && StartsAmong(marked, bs)
  {
    var marked := bs[i := bs[i].(free := true)];
    forall j: nat | j < |marked| ensures Joined(marked, j) { assert Joined(bs, j); }
    forall c | c in marked ensures exists b :: b in bs && b.addr == c.addr {
      var j :| 0 <= j < |marked| && marked[j] == c;
      assert bs[j] in bs && bs[j].addr == c.addr;
    }
  }

  lemma StartsTransitive(ds: seq<Block>, cs: seq<Block>, bs: seq<Block>)
    requires StartsAmong(ds, cs) && StartsAmong(cs, bs)
    ensures StartsAmong(ds, bs)
  {
    forall d | d in ds ensures exists b :: b in bs && b.addr == d.addr {
      var c :| c in cs && c.addr == d.addr;
    }
  }

  lemma MergedTiles(bs: seq<Block>, lo: nat, hi: nat, i: nat)
    requires Tiles(bs, lo, hi) && i < |bs| && bs[i].free
    ensures var merged := MergeNext(bs, i);
      Tiles(merged, lo, hi) && i < |merged| && merged[i].free && merged[i].addr == bs[i].addr
  {
    if i + 1 < |bs| && bs[i + 1].free {
      assert Joined(bs, i);
      SpliceTiles(bs, lo, hi, i, 2, [Block(bs[i].addr, bs[i].size + bs[i + 1].size + HEADER, true)]);
    }
  }

  lemma MergedStarts(bs: seq<Block>, i: nat)
    requires i < |bs|
    ensures StartsAmong(MergeNext(bs, i), bs)
  {
    var merged := MergeNext(bs, i);
    forall c | c in merged ensures exists b :: b in bs && b.addr == c.addr {
      var j :| 0 <= j < |merged| && merged[j] == c;
      var x := if j <= i || |merged| == |bs| then j else j + 1;
      assert bs[x] in bs && bs[x].addr == c.addr;
    }
  }

  lemma PayloadsKeptTwice(m0: seq<Byte>, m1: seq<Byte>, m2: seq<Byte>, start: nat, s: set<Block>, t: set<Block>)
    requires PayloadsKept(m0, m1, start, s) && PayloadsKept(m1, m2, start, t)
    ensures PayloadsKept(m0, m2, start, s * t)
  {
  }

  lemma FewerPayloads(m0: seq<Byte>, m1: seq<Byte>, start: nat, s: set<Block>, t: set<Block>)
    requires PayloadsKept(m0, m1, start, s) && t <= s
    ensures PayloadsKept(m0, m1, start, t)
  {
  }

  /** A live block occurs once, and after a carve every other live block is still in the list. */
  lemma OnlyBlock(bs: seq<Block>, lo: nat, hi: nat, i: nat)
    requires WellFormed(bs, lo, hi) && i < |bs| && !bs[i].free
    ensures forall x :: i <= x < i + 1 ==> bs[x] !in Live(bs) - {bs[i]}
    ensures bs[i] in Live(bs)
  {
  }

  /** What the over-allocation inside kmalloc_aligned returns. */
  lemma PaddedRequest(bs: seq<Block>, lo: nat, hi: nat, size: nat, align: nat)
    requires WellFormed(bs, lo, hi) && IsPow2(align) && align > 16
    ensures var total := size + align + HEADER;
      var i := FirstFit(bs, total);
      if i == |bs| then Kmalloc(bs, total) == (bs, 0) && KmallocAligned(bs, size, align) == (bs, 0)
      else Kmalloc(bs, total) == (TakeAt(bs, i, total), bs[i].Payload())
  {
  }

  lemma AlignedUnfolds(bs: seq<Block>, size: nat, align: nat, i: nat)
    requires IsPow2(align) && align > 16 && i == FirstFit(bs, size + align + HEADER) < |bs|
    requires i < |TakeAt(bs, i, size + align + HEADER)|
    ensures var taken := TakeAt(bs, i, size + align + HEADER);
      var p := AlignedAddress(taken[i].Payload(), align);
      taken[i].Payload() + HEADER <= p <= taken[i].End() ==>
        KmallocAligned(bs, size, align) == (FreeAt(CarveAt(taken, i, p), i), p)
  {
    hide FreeAt, CarveAt, TakeAt, AlignedAddress, FirstFit;
  }

  /** The block the padded request takes: used, preceded by a used block, new to the live set, and long
      enough for the carve; the address arithmetic does not wrap. */
  lemma TakenForCarve(bs: seq<Block>, lo: nat, hi: nat, i: nat, size: nat, align: nat)
    requires WellFormed(bs, lo, hi) && hi <= WORD && IsPow2(align) && align > 16
    requires i == FirstFit(bs, size + align + HEADER) < |bs|
    ensures var taken := TakeAt(bs, i, size + align + HEADER);
      var p := AlignedAddress(taken[i].Payload(), align);
      && i < |taken| && !taken[i].free && (i > 0 ==> !taken[i - 1].free) && taken[i].addr == bs[i].addr
      && taken[i].Payload() + HEADER <= p <= taken[i].End()
      && taken[i].Payload() + HEADER + align - 1 < WORD
      && Live(bs) <= Live(taken) - {taken[i]}
  {
    var total := size + align + HEADER;
    var taken := TakeAt(bs, i, total);
    TakeKeeps(bs, lo, hi, i, total);
    AlignedAddressFits(taken[i].Payload(), taken[i].size, size, align);
    if i > 0 {
      assert Apart(bs, i - 1);
      assert taken[..i][i - 1] == bs[..i][i - 1];
    }
    NotLiveInsideFree(bs, lo, hi, i, taken[i]);
    Bounds(taken, lo, hi, i);
  }

  lemma LiveIsBlock(bs: seq<Block>, p: nat)
    requires p == 0 || LivePtr(bs, p)
    ensures p == 0 || BlockPtr(bs, p)
  {
  }

  /** The blocks live now and after each of the requests. */
  ghost function Survivors(bs: seq<Block>, rs: seq<Request>): set<Block>
    requires LegalRun(bs, rs)
    decreases |rs|
  {
    if rs == [] then Live(bs) else Live(bs) * Survivors(Serve(bs, rs[0]), rs[1..])
  }

  /** Bytes of the payloads in `s` are what the requests' own stores make of them. */
  ghost predicate PayloadsFollow(m: seq<Byte>, m': seq<Byte>, start: nat, s: set<Block>, rs: seq<Request>) {
    |m'| == |m| &&
    forall b, k: nat :: b in s && b.Payload() <= start + k < b.End() && k < |m| ==>
      m'[k] == LastWritten(rs, start + k, m[k])
  }

  lemma PayloadsSame(m: seq<Byte>, start: nat, s: set<Block>)
    ensures PayloadsFollow(m, m, start, s, [])
  {
  }

  lemma FollowTwice(m0: seq<Byte>, m1: seq<Byte>, m2: seq<Byte>, start: nat, s: set<Block>, t: set<Block>,
    rs: seq<Request>)
    requires rs != [] && PayloadsFollow(m0, m1, start, s, [rs[0]]) && PayloadsFollow(m1, m2, start, t, rs[1..])
    ensures PayloadsFollow(m0, m2, start, s * t, rs)
  {
    forall b, k: nat | b in s * t && b.Payload() <= start + k < b.End() && k < |m0|
      ensures m2[k] == LastWritten(rs, start + k, m0[k])
    {
      OneRequest(rs[0]);
      assert m1[k] == Effect(rs[0], start + k, m0[k]);
    }
  }

  lemma OneRequest(r: Request)
    ensures forall a, v :: LastWritten([r], a, v) == Effect(r, a, v)
  {
    forall a, v ensures LastWritten([r], a, v) == Effect(r, a, v) {
      assert [r][1..] == [];
    }
  }

  /** A store confined to one block's payload leaves every header as it is. */
  lemma PayloadStored(m: seq<Byte>, m': seq<Byte>, start: nat, bs: seq<Block>, b: Block)
    requires Tiles(bs, start, start + |m|) && Represents(m, start, bs) && b in bs
    requires OnlyChanged(m, m', b.Payload() - start, b.End() - start)
    ensures Represents(m', start, bs)
  {
    hide HeaderAt, OnlyChanged, Tiles;
    var i :| 0 <= i < |bs| && bs[i] == b;
    forall j: nat | j < |bs| ensures HeaderOk(m', start, bs, j) {
      assert HeaderOk(m, start, bs, j);
      if j < i { Ordered(bs, start, start + |m|, j, i); }
      if i < j { Ordered(bs, start, start + |m|, i, j); }
      HeaderFrame(m, m', b.Payload() - start, b.End() - start, bs[j].addr - start);
    }
  }

  // ---------------------------------------------------------------- the allocator

  class Heap {
    /** The arena: its bytes, and the address of the first of them. */
    const start: nat
    const arena: array<Byte>
    var freeList: nat
    ghost var blocks: seq<Block>

    /** The arena does not wrap the address space, and the sum kmalloc compares with a block's size fits in 64 bits. */
    ghost predicate Placed() {
      0 < start && start + arena.Length <= WORD && arena.Length + MIN_SPLIT < WORD
    }

    ghost predicate Valid()
      reads this, arena
    {
      && Placed() && freeList == start
      && WellFormed(blocks, start, start + arena.Length)
      && Represents(arena[..], start, blocks)
    }

    predicate InArena(p: nat) {
      start <= p && p + HEADER <= start + arena.Length
    }

    // Field reads and writes of the header at address `p`.

    function Size(p: nat): nat
      reads arena
    {
      HeaderAt(arena[..], p - start).size
    }

    function Next(p: nat): nat
      reads arena
    {
      HeaderAt(arena[..], p - start).next
    }

    function Prev(p: nat): nat
      reads arena
    {
      HeaderAt(arena[..], p - start).prev
    }

    function IsFree(p: nat): bool
      reads arena
    {
      HeaderAt(arena[..], p - start).free != 0
    }

    method SetSize(p: nat, v: nat)
      requires InArena(p) && v < WORD
      modifies arena
      ensures HeaderAt(arena[..], p - start) == old(HeaderAt(arena[..], p - start)).(size := v)
      ensures StoredAt(old(arena[..]), arena[..], p - start)
    {
      hide Word;
      var o := p - start;
      ghost var m := arena[..];
      Store(arena, o, 8, v);
      WordFrame(m, arena[..], o + 8, 8);
      WordFrame(m, arena[..], o + 16, 8);
      WordFrame(m, arena[..], o + 24, 4);
      FieldStored(m, arena[..], o, o, o + 8);
    }

    method SetNext(p: nat, v: nat)
      requires InArena(p) && v < WORD
      modifies arena
      ensures HeaderAt(arena[..], p - start) == old(HeaderAt(arena[..], p - start)).(next := v)
      ensures StoredAt(old(arena[..]), arena[..], p - start)
    {
      hide Word;
      var o := p - start;
      ghost var m := arena[..];
      Store(arena, o + 8, 8, v);
      WordFrame(m, arena[..], o, 8);
      WordFrame(m, arena[..], o + 16, 8);
      WordFrame(m, arena[..], o + 24, 4);
      FieldStored(m, arena[..], o, o + 8, o + 16);
    }

    method SetPrev(p: nat, v: nat)
      requires InArena(p) && v < WORD
      modifies arena
      ensures HeaderAt(arena[..], p - start) == old(HeaderAt(arena[..], p - start)).(prev := v)
      ensures StoredAt(old(arena[..]), arena[..], p - start)
    {
      hide Word;
      var o := p - start;
      ghost var m := arena[..];
      Store(arena, o + 16, 8, v);
      WordFrame(m, arena[..], o, 8);
      WordFrame(m, arena[..], o + 8, 8);
      WordFrame(m, arena[..], o + 24, 4);
      FieldStored(m, arena[..], o, o + 16, o + 24);
    }

    method SetFree(p: nat, v: nat)
      requires InArena(p) && v < 2
      modifies arena
      ensures HeaderAt(arena[..], p - start) == old(HeaderAt(arena[..], p - start)).(free := v)
      ensures StoredAt(old(arena[..]), arena[..], p - start)
    {
      hide Word;
      var o := p - start;
      ghost var m := arena[..];
      Store(arena, o + 24, 4, v);
      WordFrame(m, arena[..], o, 8);
      WordFrame(m, arena[..], o + 8, 8);
      WordFrame(m, arena[..], o + 16, 8);
      FieldStored(m, arena[..], o, o + 24, o + 28);
    }

    /** The four field stores that make a header, in the order heap.c always writes them. */
    method WriteHeader(p: nat, h: Header)
      requires InArena(p) && h.size < WORD && h.next < WORD && h.prev < WORD && h.free < 2
      modifies arena
      ensures HeaderAt(arena[..], p - start) == h
      ensures StoredAt(old(arena[..]), arena[..], p - start)
    {
      hide HeaderAt, OnlyChanged;
      ghost var m0, o := arena[..], p - start;
      SetSize(p, h.size);
      ghost var m1 := arena[..];
      SetNext(p, h.next);
      ghost var m2 := arena[..]; StoredInside(m0, m1, m2, o, o + HEADER, o);
      SetPrev(p, h.prev);
      ghost var m3 := arena[..]; StoredInside(m0, m2, m3, o, o + HEADER, o);
      SetFree(p, h.free);
      StoredInside(m0, m3, arena[..], o, o + HEADER, o);
    }

    /** Heap_Init: one free block spans the arena. */
    constructor (start: nat, arena: array<Byte>)
      requires 0 < start && HEADER <= arena.Length && start + arena.Length <= WORD && arena.Length + MIN_SPLIT < WORD
      modifies arena
      ensures this.start == start && this.arena == arena
      ensures Valid() && blocks == InitLayout(start, arena.Length)
    {
      this.start := start;
      this.arena := arena;
      freeList := start;
      blocks := InitLayout(start, arena.Length);
      new;
      hide HeaderAt;
      WriteHeader(start, Header(arena.Length - HEADER, 0, 0, 1));
      InitWellFormed(start, arena.Length);
      assert HeaderOk(arena[..], start, blocks, 0);
    }

    /** What the code reads of the header of block `i` of the list `bs` the arena holds. */
    lemma HeaderIn(bs: seq<Block>, i: nat)
      requires Tiles(bs, start, start + arena.Length) && Represents(arena[..], start, bs) && i < |bs|
      ensures InArena(bs[i].addr) && HeaderAt(arena[..], bs[i].addr - start) == Expected(bs, i)
      ensures bs[i].End() <= start + arena.Length
      ensures i + 1 < |bs| ==> bs[i + 1].addr == bs[i].End()
    {
      assert HeaderOk(arena[..], start, bs, i) && Joined(bs, i);
      Bounds(bs, start, start + arena.Length, i);
    }

    /** heap.c:22-33: block `i` is cut after `size` bytes and the rest becomes a free block of its own. */
    method Split(current: nat, size: nat, ghost i: nat)
      requires Valid() && i < |blocks| && blocks[i].free && current == blocks[i].addr && Splits(blocks[i], size)
      modifies arena
      ensures Represents(arena[..], start, Cut(blocks, i, size))
      ensures OnlyChanged(old(arena[..]), arena[..], current - start, Reach(blocks, i + 1) - start)
    {
      hide HeaderAt, OnlyChanged;
      HeaderIn(blocks, i);
      if i + 1 < |blocks| { HeaderIn(blocks, i + 1); assert Joined(blocks, i); }
      ghost var b, lo, hi := blocks[i], current - start, Reach(blocks, i + 1) - start;
      ghost var m0 := arena[..];
      assert OnlyChanged(m0, m0, lo, hi) by { Unchanged(m0, lo, hi); }
      var next := current + HEADER + size;
      WriteHeader(next, Header(Size(current) - size - HEADER, Next(current), current, 1));
      ghost var m4 := arena[..]; StoredInside(m0, m0, m4, lo, hi, next - start);
      if Next(next) != 0 {
        SetPrev(Next(next), next);
        StoredInside(m0, m4, arena[..], lo, hi, blocks[i + 1].addr - start);
      }
      ghost var m5 := arena[..];
      SetSize(current, size);
      ghost var m6 := arena[..]; StoredInside(m0, m5, m6, lo, hi, current - start);
      SetNext(current, next);
      StoredInside(m0, m6, arena[..], lo, hi, current - start);
      TwoForOne(m0, arena[..], start, blocks, i, Block(b.addr, size, true), Block(next, b.size - size - HEADER, true));
    }
  
    /** heap.c:21-36: block `i` is handed out, split first if it is long enough. */
    method TakeStores(current: nat, size: nat, ghost i: nat)
      requires Valid() && i < |blocks| && current == blocks[i].addr && Fits(blocks[i], size)
      modifies arena
      ensures Represents(arena[..], start, TakeAt(blocks, i, size))
      ensures OnlyChanged(old(arena[..]), arena[..], current - start, Reach(blocks, i + 1) - start)
    {
      hide HeaderAt, OnlyChanged, Add64, Represents, Tiles, Splice, TakeAt;
      HeaderIn(blocks, i);
      ghost var m0, lo, hi := arena[..], current - start, Reach(blocks, i + 1) - start;
      Unchanged(m0, lo, hi);
      NoWrap(size, HEADER);
      NoWrap(size + HEADER, MIN_SPLIT);
      if Size(current) >= Add64(Add64(size, HEADER), MIN_SPLIT) {
        Split(current, size, i);
      }
      ghost var m1 := arena[..];
      SetFree(current, 0);
      StoredInside(m0, m1, arena[..], lo, hi, lo);
      TakenRepresents(m1, arena[..], start, blocks, i, size);
    }

    method Take(current: nat, size: nat, ghost i: nat)
      requires Valid() && i < |blocks| && current == blocks[i].addr && Fits(blocks[i], size)
      modifies this`blocks, arena
      ensures Valid() && blocks == TakeAt(old(blocks), i, size)
      ensures PayloadsKept(old(arena[..]), arena[..], start, Live(old(blocks)))
    {
      hide Represents, PayloadsKept;
      TakeStores(current, size, i);
      TakeKeeps(blocks, start, start + arena.Length, i, size);
      PayloadsOutside(old(arena[..]), arena[..], start, blocks, i, 1, Live(blocks));
      blocks := TakeAt(blocks, i, size);
    }

    /** kmalloc: the block list changes as the first-fit rule says, and no byte of a payload
        already handed out changes. */
    method Malloc(size: nat) returns (p: nat)
      requires Valid() && size < WORD
      modifies this`blocks, arena
      ensures Valid()
      ensures (blocks, p) == Kmalloc(old(blocks), size)
      ensures p == 0 ==> arena[..] == old(arena[..])
      ensures PayloadsKept(old(arena[..]), arena[..], start, Live(old(blocks)))
    {
      hide HeaderAt, Represents, TakeAt;
      var current := freeList;
      ghost var i: nat := 0;
      while current != 0
        invariant Valid() && blocks == old(blocks) && arena[..] == old(arena[..])
        invariant i <= |blocks| && current == AddrAt(blocks, i)
        invariant forall j :: 0 <= j < i ==> !Fits(blocks[j], size)
        decreases |blocks| - i
      {
        HeaderIn(blocks, i);
        if IsFree(current) && Size(current) >= size {
          Take(current, size, i);
          return current + HEADER;
        }
        current := Next(current);
        i := i + 1;
      }
      if i < |blocks| { Bounds(blocks, start, start + arena.Length, i); }
      return 0;
    }

    /** heap.c:99-104 */
    method MergeNextStores(block: nat, ghost bs: seq<Block>, ghost i: nat)
      requires Placed() && Tiles(bs, start, start + arena.Length) && Represents(arena[..], start, bs)
      requires i < |bs| && block == bs[i].addr && bs[i].free
      modifies arena
      ensures Represents(arena[..], start, MergeNext(bs, i))
      ensures HeadersOnly(old(arena[..]), arena[..], start, bs)
    {
      hide HeaderAt, OnlyChanged, Represents, Tiles, Splice, HeadersOnly;
      ghost var m0 := arena[..];
      NoStores(m0, start, bs);
      HeaderIn(bs, i);
      if i + 1 < |bs| { HeaderIn(bs, i + 1); }
      if Next(block) != 0 && IsFree(Next(block)) {
        if i + 2 < |bs| { HeaderIn(bs, i + 2); }
        ghost var lo, hi := block - start, Reach(bs, i + 2) - start;
        Unchanged(m0, lo, hi);
        SetSize(block, Size(block) + (Size(Next(block)) + HEADER));
        ghost var m1 := arena[..]; StoredInside(m0, m0, m1, lo, hi, lo); HeaderStored(m0, m0, m1, start, bs, i);
        SetNext(block, Next(Next(block)));
        ghost var m2 := arena[..]; StoredInside(m0, m1, m2, lo, hi, lo); HeaderStored(m0, m1, m2, start, bs, i);
        if Next(block) != 0 {
          SetPrev(Next(block), block);
          StoredInside(m0, m2, arena[..], lo, hi, bs[i + 2].addr - start);
          HeaderStored(m0, m2, arena[..], start, bs, i + 2);
        }
        OneForMany(m0, arena[..], start, bs, i, 2, Block(block, bs[i].size + bs[i + 1].size + HEADER, true));
      }
    }

    /** heap.c:107-112 */
    method MergePrevStores(block: nat, ghost bs: seq<Block>, ghost i: nat)
      requires Placed() && Tiles(bs, start, start + arena.Length) && Represents(arena[..], start, bs)
      requires i < |bs| && block == bs[i].addr && bs[i].free
      modifies arena
      ensures Represents(arena[..], start, MergePrev(bs, i))
      ensures HeadersOnly(old(arena[..]), arena[..], start, bs)
    {
      hide HeaderAt, OnlyChanged, Represents, Tiles, Splice, HeadersOnly;
      ghost var m0 := arena[..];
      NoStores(m0, start, bs);
      HeaderIn(bs, i);
      if i > 0 { HeaderIn(bs, i - 1); }
      if Prev(block) != 0 && IsFree(Prev(block)) {
        if i + 1 < |bs| { HeaderIn(bs, i + 1); }
        ghost var lo, hi := bs[i - 1].addr - start, Reach(bs, i + 1) - start;
        Unchanged(m0, lo, hi);
        SetSize(Prev(block), Size(Prev(block)) + (Size(block) + HEADER));
        ghost var m1 := arena[..]; StoredInside(m0, m0, m1, lo, hi, lo); HeaderStored(m0, m0, m1, start, bs, i - 1);
        SetNext(Prev(block), Next(block));
        ghost var m2 := arena[..]; StoredInside(m0, m1, m2, lo, hi, lo); HeaderStored(m0, m1, m2, start, bs, i - 1);
        if Next(block) != 0 {
          SetPrev(Next(block), Prev(block));
          StoredInside(m0, m2, arena[..], lo, hi, bs[i + 1].addr - start);
          HeaderStored(m0, m2, arena[..], start, bs, i + 1);
        }
        OneForMany(m0, arena[..], start, bs, i - 1, 2,
          Block(bs[i - 1].addr, bs[i - 1].size + bs[i].size + HEADER, true));
      }
    }
  
    /** heap.c:95-112 on the list `bs == blocks`: mark block `i` free, then merge it both ways. */
    method FreeStores(block: nat, ghost i: nat)
      requires Valid() && i < |blocks| && block == blocks[i].addr
      modifies arena
      ensures Represents(arena[..], start, FreeAt(blocks, i))
      ensures HeadersOnly(old(arena[..]), arena[..], start, blocks)
    {
      hide HeaderAt, Represents, HeadersOnly, Splice, MergePrev, Tiles, StartsAmong;
      ghost var m0, hi := arena[..], start + arena.Length;
      HeaderIn(blocks, i);
      SetFree(block, 1);
      ghost var m1 := arena[..];
      ghost var marked := blocks[i := blocks[i].(free := true)];
      NoStores(m0, start, blocks);
      HeaderStored(m0, m0, m1, start, blocks, i);
      OneStore(m0, m1, start, blocks, i, marked[i]);
      MarkedTiles(blocks, start, hi, i);
      MergeNextStores(block, marked, i);
      ghost var m2, merged := arena[..], MergeNext(marked, i);
      MergedTiles(marked, start, hi, i);
      FewerHeaders(m0, m1, m2, start, blocks, marked);
      MergedStarts(marked, i);
      StartsTransitive(merged, marked, blocks);
      MergePrevStores(block, merged, i);
      FewerHeaders(m0, m2, arena[..], start, blocks, merged);
    }

    /** kfree: the freed block is merged with its free neighbours, and only header bytes change. */
    method Free(ptr: nat)
      requires Valid() && (ptr == 0 || BlockPtr(blocks, ptr))
      modifies this`blocks, arena
      ensures Valid()
      ensures blocks == Kfree(old(blocks), ptr)
      ensures ptr == 0 ==> blocks == old(blocks) && arena[..] == old(arena[..])
      ensures PayloadsKept(old(arena[..]), arena[..], start, Members(old(blocks)))
    {
      if ptr == 0 {
        return;
      }
      hide Represents, HeadersOnly, PayloadsKept, FreeAt;
      ghost var i := IndexOf(blocks, ptr);
      FreeStores(ptr - HEADER, i);
      FreeAtKeeps(blocks, start, start + arena.Length, i);
      HeadersMissPayloads(old(arena[..]), arena[..], start, blocks);
      blocks := FreeAt(blocks, i);
    }

    /** heap.c:70-82: the used block `i` is cut at `aligned` into free padding and a used block. */
    method CarveStores(original: nat, aligned: nat, ghost i: nat)
      requires Valid() && i < |blocks| && !blocks[i].free && original == blocks[i].addr
      requires original + HEADER <= aligned && aligned + HEADER <= blocks[i].End()
      modifies arena
      ensures Represents(arena[..], start, CarveAt(blocks, i, aligned + HEADER))
      ensures OnlyChanged(old(arena[..]), arena[..], original - start, Reach(blocks, i + 1) - start)
    {
      hide HeaderAt, OnlyChanged, Represents, Tiles, Splice;
      HeaderIn(blocks, i);
      if i + 1 < |blocks| { HeaderIn(blocks, i + 1); }
      ghost var m0, lo, hi := arena[..], original - start, Reach(blocks, i + 1) - start;
      Unchanged(m0, lo, hi);
      WriteHeader(aligned, Header(Size(original) - (aligned - original), Next(original), original, 0));
      ghost var m1 := arena[..]; StoredInside(m0, m0, m1, lo, hi, aligned - start);
      if Next(aligned) != 0 {
        SetPrev(Next(aligned), aligned);
        StoredInside(m0, m1, arena[..], lo, hi, blocks[i + 1].addr - start);
      }
      ghost var m2 := arena[..];
      SetSize(original, aligned - original - HEADER);
      ghost var m3 := arena[..]; StoredInside(m0, m2, m3, lo, hi, lo);
      SetNext(original, aligned);
      ghost var m4 := arena[..]; StoredInside(m0, m3, m4, lo, hi, lo);
      SetFree(original, 1);
      StoredInside(m0, m4, arena[..], lo, hi, lo);
      TwoForOne(m0, arena[..], start, blocks, i,
        Block(original, aligned - original - HEADER, true),
        Block(aligned, blocks[i].size - (aligned - original), false));
    }
  
    /** heap.c:70-85: cut off the padding and hand it to kfree. */
    method Carve(original: nat, aligned: nat, ghost i: nat)
      requires Valid() && i < |blocks| && !blocks[i].free && (i > 0 ==> !blocks[i - 1].free)
      requires original == blocks[i].addr && original + HEADER <= aligned && aligned + HEADER <= blocks[i].End()
      modifies this`blocks, arena
      ensures Valid() && blocks == FreeAt(CarveAt(old(blocks), i, aligned + HEADER), i)
      ensures PayloadsKept(old(arena[..]), arena[..], start, Live(old(blocks)) - {old(blocks)[i]})
    {
      hide Represents, PayloadsKept, FreeAt, MergeNext, OnlyChanged, Tiles;
      ghost var m0, hi, kept := arena[..], start + arena.Length, Live(blocks) - {blocks[i]};
      CarveStores(original, aligned, i);
      OnlyBlock(blocks, start, hi, i);
      PayloadsOutside(m0, arena[..], start, blocks, i, 1, kept);
      CarveKeeps(blocks, start, hi, i, aligned + HEADER);
      blocks := CarveAt(blocks, i, aligned + HEADER);
      ghost var m1 := arena[..];
      IndexUnique(blocks, start, hi, i);
      Free(original + HEADER);
      ghost var members := Members(CarveAt(old(blocks), i, aligned + HEADER));
      PayloadsKeptTwice(m0, m1, arena[..], start, kept, members);
      FewerPayloads(m0, arena[..], start, kept * members, kept);
    }

    /** kmalloc_aligned: the block list changes as KmallocAligned says, and no byte of a payload
        already handed out changes. */
    method MallocAligned(size: nat, alignment: nat) returns (p: nat)
      requires Valid() && size < WORD
      requires alignment > 16 ==> IsPow2(alignment) && size + alignment + HEADER < WORD
      modifies this`blocks, arena
      ensures Valid()
      ensures (blocks, p) == KmallocAligned(old(blocks), size, alignment)
      ensures PayloadsKept(old(arena[..]), arena[..], start, Live(old(blocks)))
    {
      if alignment <= 16 {
        p := Malloc(size);
      } else {
        NoWrap(size, alignment);
        NoWrap(size + alignment, HEADER);
        p := MallocPadded(size, alignment, Add64(Add64(size, alignment), HEADER));
      }
    }

    /** heap.c:56-88 */
    method MallocPadded(ghost size: nat, alignment: nat, total: nat) returns (p: nat)
      requires Valid() && alignment > 16 && IsPow2(alignment) && total == size + alignment + HEADER < WORD
      modifies this`blocks, arena
      ensures Valid()
      ensures (blocks, p) == KmallocAligned(old(blocks), size, alignment)
      ensures PayloadsKept(old(arena[..]), arena[..], start, Live(old(blocks)))
    {
      hide Represents, PayloadsKept, WellFormed, IsPow2, Kmalloc, KmallocAligned, Live, FirstFit, TakeAt;
      PaddedRequest(blocks, start, start + arena.Length, size, alignment);
      var ptr := Malloc(total);
      if ptr == 0 {
        p := 0;
      } else {
        p := AlignTaken(ptr, alignment, size, old(blocks), old(arena[..]), FirstFit(old(blocks), total));
      }
    }

    /** heap.c:60-88, after the over-allocation of block `i` of `bs` succeeded. */
    method AlignTaken(ptr: nat, alignment: nat, ghost size: nat, ghost bs: seq<Block>, ghost m0: seq<Byte>,
      ghost i: nat)
      returns (p: nat)
      requires Valid() && WellFormed(bs, start, start + arena.Length)
      requires IsPow2(alignment) && alignment > 16
      requires i == FirstFit(bs, size + alignment + HEADER) < |bs|
      requires blocks == TakeAt(bs, i, size + alignment + HEADER) && ptr == bs[i].Payload()
      requires PayloadsKept(m0, arena[..], start, Live(bs))
      modifies this`blocks, arena
      ensures Valid()
      ensures (blocks, p) == KmallocAligned(bs, size, alignment)
      ensures PayloadsKept(m0, arena[..], start, Live(bs))
    {
      hide Represents, PayloadsKept, FreeAt, WellFormed, IsPow2, KmallocAligned, TakeAt, CarveAt, Live, AndNot;
      ghost var m1, taken := arena[..], blocks;
      TakenForCarve(bs, start, start + arena.Length, i, size, alignment);
      AlignedUnfolds(bs, size, alignment, i);
      p := AndNot((ptr + HEADER + alignment - 1) % WORD, alignment - 1);
      var original := ptr - HEADER;
      var alignedBlock := p - HEADER;
      if alignedBlock != original {
        Carve(original, alignedBlock, i);
        PayloadsKeptTwice(m0, m1, arena[..], start, Live(bs), Live(taken) - {taken[i]});
        FewerPayloads(m0, arena[..], start, Live(bs) * (Live(taken) - {taken[i]}), Live(bs));
      }
    }
  
    /** A caller's own store into its payload. */
    method ClientWrite(ptr: nat, offset: nat, value: Byte)
      requires Valid() && OwnsByte(blocks, ptr, offset)
      modifies arena
      ensures Valid() && start <= ptr + offset < start + arena.Length
      ensures arena[..] == old(arena[..])[ptr + offset - start := value]
    {
      hide Represents;
      ghost var b :| b in Live(blocks) && b.Payload() == ptr && offset < b.size;
      LiveInside(blocks, start, start + arena.Length, b);
      ghost var m := arena[..];
      arena[ptr + offset - start] := value;
      PayloadStored(m, arena[..], start, blocks, b);
    }

    /** One request: the block list follows, and in every payload that was live only the caller's own store shows. */
    method ServeOne(r: Request)
      requires Valid() && Legal(blocks, r)
      modifies this`blocks, arena
      ensures Valid() && blocks == Serve(old(blocks), r)
      ensures PayloadsFollow(old(arena[..]), arena[..], start, Live(old(blocks)), [r])
    {
      hide Represents, WellFormed;
      match r {
        case Malloc(n) =>
          var _ := Malloc(n);
        case MallocAligned(n, align) =>
          var _ := MallocAligned(n, align);
        case Free(p) =>
          LiveIsBlock(blocks, p);
          Free(p);
          FewerPayloads(old(arena[..]), arena[..], start, Members(old(blocks)), Live(old(blocks)));
        case Write(p, k, v) =>
          ClientWrite(p, k, v);
      }
      OneRequest(r);
    }

    /** Over any legal sequence of requests, callers' stores included, the bytes in the arena follow the block list of
        the same run, and every byte of a payload is the one last stored there by its owner. */
    method ServeAll(rs: seq<Request>)
      requires Valid() && LegalRun(blocks, rs)
      modifies this`blocks, arena
      ensures Valid() && blocks == Run(old(blocks), rs)
      ensures PayloadsFollow(old(arena[..]), arena[..], start, Survivors(old(blocks), rs), rs)
      decreases |rs|
    {
      hide PayloadsFollow, Represents, WellFormed, Serve, Live;
      if rs == [] {
        PayloadsSame(arena[..], start, Survivors(blocks, rs));
      } else {
        ghost var m0, bs := arena[..], blocks;
        ServeOne(rs[0]);
        ghost var m1 := arena[..];
        ServeAll(rs[1..]);
        FollowTwice(m0, m1, arena[..], start, Live(bs), Survivors(Serve(bs, rs[0]), rs[1..]), rs);
      }
    }
  }
}
