/** The kernel heap as a list of blocks: what kmalloc, kmalloc_aligned and kfree
    do to the block list, and the laws that hold of it over every run. */
module HeapLayout {
  import opened Bits

  /** sizeof(HeapBlock): three 8-byte fields, a 4-byte flag and 4 bytes of padding. */
  const HEADER: nat := 32

  /** The least remainder kmalloc will split off as a block of its own, besides its header. */
  const MIN_SPLIT: nat := 16

  datatype Block = Block(addr: nat, size: nat, free: bool) {
    function Payload(): nat { addr + HEADER }
    function End(): nat { addr + HEADER + size }
  }

  /** Block `i` ends where the next one begins. */
  ghost predicate Joined(bs: seq<Block>, i: nat) {
    i + 1 < |bs| ==> bs[i + 1].addr == bs[i].End()
  }

  /** Block `i` and the next one are not both free. */
  ghost predicate Apart(bs: seq<Block>, i: nat) {
    i + 1 < |bs| ==> !(bs[i].free && bs[i + 1].free)
  }

  /** The blocks lie end to end from `lo` to `hi`, headers included. */
  ghost predicate Tiles(bs: seq<Block>, lo: nat, hi: nat) {
    && |bs| > 0 && bs[0].addr == lo && bs[|bs| - 1].End() == hi
    && (forall i: nat :: i < |bs| ==> Joined(bs, i))
  }

  ghost predicate NoAdjacentFree(bs: seq<Block>) {
    forall i: nat :: i < |bs| ==> Apart(bs, i)
  }

  ghost predicate WellFormed(bs: seq<Block>, lo: nat, hi: nat) {
    0 < lo && Tiles(bs, lo, hi) && NoAdjacentFree(bs)
  }

  /** The blocks handed out and not yet freed. */
  ghost function Live(bs: seq<Block>): set<Block> {
    set b | b in bs && !b.free
  }

  ghost predicate LivePtr(bs: seq<Block>, p: nat) {
    exists b :: b in Live(bs) && b.Payload() == p
  }

  // ---------------------------------------------------------------- operations

  function InitLayout(start: nat, size: nat): seq<Block>
    requires size >= HEADER
  {
    [Block(start, size - HEADER, true)]
  }

  predicate Fits(b: Block, n: nat) {
    b.free && b.size >= n
  }

  function FirstFit(bs: seq<Block>, n: nat): (i: nat)
    ensures i <= |bs|
    ensures i < |bs| ==> Fits(bs[i], n)
    ensures forall j :: 0 <= j < i ==> !Fits(bs[j], n)
  {
    if |bs| == 0 || Fits(bs[0], n) then 0
    else
      var k := FirstFit(bs[1..], n);
      assert forall j :: 0 < j <= k ==> bs[j] == bs[1..][j - 1];
      k + 1
  }

  /** `mid` in place of the `k` blocks from index `i` on. */
  function Splice(bs: seq<Block>, i: nat, k: nat, mid: seq<Block>): seq<Block>
    requires i + k <= |bs|
  {
    bs[..i] + mid + bs[i + k..]
  }

  predicate Splits(b: Block, n: nat) {
    b.size >= n + HEADER + MIN_SPLIT
  }

  /** Block `i` is handed out for `n` bytes; what is left over becomes a free block if it is large enough. */
  function TakeAt(bs: seq<Block>, i: nat, n: nat): seq<Block>
    requires i < |bs|
  {
    var b := bs[i];
    if Splits(b, n) then
      Splice(bs, i, 1, [Block(b.addr, n, false), Block(b.addr + HEADER + n, b.size - n - HEADER, true)])
    else
      Splice(bs, i, 1, [Block(b.addr, b.size, false)])
  }

  function Kmalloc(bs: seq<Block>, n: nat): (seq<Block>, nat) {
    var i := FirstFit(bs, n);
    if i == |bs| then (bs, 0) else (TakeAt(bs, i, n), bs[i].Payload())
  }

  function MergeNext(bs: seq<Block>, i: nat): seq<Block>
    requires i < |bs|
  {
    if i + 1 < |bs| && bs[i + 1].free then
      Splice(bs, i, 2, [Block(bs[i].addr, bs[i].size + bs[i + 1].size + HEADER, bs[i].free)])
    else bs
  }

  function MergePrev(bs: seq<Block>, i: nat): seq<Block>
    requires i < |bs|
  {
    if i > 0 && bs[i - 1].free then
      Splice(bs, i - 1, 2, [Block(bs[i - 1].addr, bs[i - 1].size + bs[i].size + HEADER, true)])
    else bs
  }

  function FreeAt(bs: seq<Block>, i: nat): seq<Block>
    requires i < |bs|
  {
    MergePrev(MergeNext(bs[i := bs[i].(free := true)], i), i)
  }

  ghost predicate BlockPtr(bs: seq<Block>, p: nat) {
    exists b :: b in bs && b.Payload() == p
  }

  ghost function IndexOf(bs: seq<Block>, p: nat): (i: nat)
    requires BlockPtr(bs, p)
    ensures i < |bs| && bs[i].Payload() == p
  {
    var b :| b in bs && b.Payload() == p;
    var i :| 0 <= i < |bs| && bs[i] == b;
    i
  }

  ghost function Kfree(bs: seq<Block>, p: nat): seq<Block>
    requires p == 0 || BlockPtr(bs, p)
  {
    if p == 0 then bs else FreeAt(bs, IndexOf(bs, p))
  }

  /** The first address at or after `raw + HEADER` that is a multiple of `align`. */
  function AlignedAddress(raw: nat, align: nat): nat
    requires align > 0
  {
    AndNot(raw + HEADER + align - 1, align - 1)
  }

  /** Block `i` is cut at `p - HEADER` into free padding and a used block whose payload is `p`. */
  function CarveAt(bs: seq<Block>, i: nat, p: nat): seq<Block>
    requires i < |bs| && bs[i].Payload() + HEADER <= p <= bs[i].End()
  {
    var b := bs[i];
    var padding := Block(b.addr, p - HEADER - b.addr - HEADER, true);
    Splice(bs, i, 1, [padding, Block(p - HEADER, b.size - (p - HEADER - b.addr), false)])
  }

  ghost function KmallocAligned(bs: seq<Block>, n: nat, align: nat): (seq<Block>, nat)
    requires align > 16 ==> IsPow2(align)
  {
    if align <= 16 then Kmalloc(bs, n)
    else
      var i := FirstFit(bs, n + align + HEADER);
      if i == |bs| then (bs, 0)
      else
        var taken := TakeAt(bs, i, n + align + HEADER);
        RoundUp(taken[i].Payload() + HEADER, align);
        var p := AlignedAddress(taken[i].Payload(), align);
        (FreeAt(CarveAt(taken, i, p), i), p)
  }

  // ---------------------------------------------------------------- tiling

  lemma {:induction false} Ordered(bs: seq<Block>, lo: nat, hi: nat, i: nat, j: nat)
    requires Tiles(bs, lo, hi) && i < j < |bs|
    ensures bs[i].End() <= bs[j].addr
    decreases j
  {
    if j > i + 1 {
      Ordered(bs, lo, hi, i, j - 1);
    }
    assert Joined(bs, j - 1);
  }

  lemma Bounds(bs: seq<Block>, lo: nat, hi: nat, i: nat)
    requires Tiles(bs, lo, hi) && i < |bs|
    ensures lo <= bs[i].addr && bs[i].End() <= hi
  {
    if i > 0 { Ordered(bs, lo, hi, 0, i); }
    if i < |bs| - 1 { Ordered(bs, lo, hi, i, |bs| - 1); }
  }

  /** Replacing a stretch of blocks by others that tile the same bytes keeps the tiling. */
  lemma SpliceTiles(bs: seq<Block>, lo: nat, hi: nat, i: nat, k: nat, mid: seq<Block>)
    requires Tiles(bs, lo, hi) && 0 < k && i + k <= |bs|
    requires Tiles(mid, bs[i].addr, bs[i + k - 1].End())
    ensures Tiles(Splice(bs, i, k, mid), lo, hi)
  {
    var cs := Splice(bs, i, k, mid);
    forall a: nat | a < |cs| ensures Joined(cs, a) {
      if a + 1 < i {
        assert Joined(bs, a);
      } else if a + 1 == i {
        assert Joined(bs, a);
      } else if a + 1 < i + |mid| {
        assert Joined(mid, a - i);
      } else if a + 1 == i + |mid| {
        assert Joined(bs, i + k - 1);
      } else {
        assert Joined(bs, a - |mid| + k);
      }
    }
  }

  lemma SpliceNoAdjacentFree(bs: seq<Block>, i: nat, k: nat, mid: seq<Block>)
    requires i + k <= |bs| && |mid| > 0 && NoAdjacentFree(bs) && NoAdjacentFree(mid)
    requires i > 0 ==> !(bs[i - 1].free && mid[0].free)
    requires i + k < |bs| ==> !(mid[|mid| - 1].free && bs[i + k].free)
    ensures NoAdjacentFree(Splice(bs, i, k, mid))
  {
    var cs := Splice(bs, i, k, mid);
    forall a: nat | a < |cs| ensures Apart(cs, a) {
      if a + 1 < i {
        assert Apart(bs, a);
      } else if i <= a && a + 1 < i + |mid| {
        assert Apart(mid, a - i);
      } else if a + 1 > i + |mid| {
        assert Apart(bs, a - |mid| + k);
      }
    }
  }

  /** What a splice does to the set of live blocks. */
  lemma SpliceLive(bs: seq<Block>, lo: nat, hi: nat, i: nat, k: nat, mid: seq<Block>)
    requires Tiles(bs, lo, hi) && i + k <= |bs|
    ensures Live(Splice(bs, i, k, mid)) == Live(bs) - Live(bs[i..i + k]) + Live(mid)
  {
    var cs := Splice(bs, i, k, mid);
    forall x | i <= x < i + k ensures bs[x] in bs[i..i + k] {
      assert bs[i..i + k][x - i] == bs[x];
    }
    forall x | i <= x < i + |mid| ensures cs[x] in mid {
      assert cs[x] == mid[x - i];
    }
    forall b | b in Live(bs) && b !in Live(bs[i..i + k]) ensures b in Live(cs) {
      var x :| 0 <= x < |bs| && bs[x] == b;
      assert cs[if x < i then x else x - k + |mid|] == b;
    }
    forall b | b in Live(mid) ensures b in Live(cs) {
      var x :| 0 <= x < |mid| && mid[x] == b;
      assert cs[i + x] == b;
    }
    forall b | b in Live(cs) && b !in Live(mid) ensures b in Live(bs) && b !in Live(bs[i..i + k]) {
      var x :| 0 <= x < |cs| && cs[x] == b;
      var y := if x < i then x else x - |mid| + k;
      assert bs[y] == b;
      forall z | i <= z < i + k ensures bs[z] != b {
        if y < i { Ordered(bs, lo, hi, y, z); } else { Ordered(bs, lo, hi, z, y); }
      }
    }
  }

  // ---------------------------------------------------------------- each operation keeps the layout

  /** The one-block and two-block cases of `Live`. */
  lemma LiveOfFew(b: Block, c: Block)
    ensures Live([b]) == if b.free then {} else {b}
    ensures Live([b, c]) == Live([b]) + Live([c])
  {
    assert forall d :: d in [b] <==> d == b;
    assert forall d :: d in [b, c] <==> d in [b] || d in [c];
  }

  /** A splice that tiles the same bytes and creates no free neighbours keeps the layout well formed. */
  lemma SpliceKeeps(bs: seq<Block>, lo: nat, hi: nat, i: nat, k: nat, mid: seq<Block>)
    requires WellFormed(bs, lo, hi) && 0 < k && i + k <= |bs|
    requires Tiles(mid, bs[i].addr, bs[i + k - 1].End()) && NoAdjacentFree(mid)
    requires i > 0 ==> !(bs[i - 1].free && mid[0].free)
    requires i + k < |bs| ==> !(mid[|mid| - 1].free && bs[i + k].free)
    ensures WellFormed(Splice(bs, i, k, mid), lo, hi)
    ensures Live(Splice(bs, i, k, mid)) == Live(bs) - Live(bs[i..i + k]) + Live(mid)
    ensures Splice(bs, i, k, mid)[..i] == bs[..i]
    ensures Splice(bs, i, k, mid)[i] == mid[0]
  {
    SpliceTiles(bs, lo, hi, i, k, mid);
    SpliceNoAdjacentFree(bs, i, k, mid);
    SpliceLive(bs, lo, hi, i, k, mid);
  }

  /** Replacing one block by one or two others. */
  lemma ReplaceOne(bs: seq<Block>, lo: nat, hi: nat, i: nat, mid: seq<Block>)
    requires WellFormed(bs, lo, hi) && i < |bs|
    requires Tiles(mid, bs[i].addr, bs[i].End()) && NoAdjacentFree(mid)
    requires i > 0 ==> !(bs[i - 1].free && mid[0].free)
    requires i + 1 < |bs| ==> !(mid[|mid| - 1].free && bs[i + 1].free)
    ensures WellFormed(Splice(bs, i, 1, mid), lo, hi)
    ensures Live(Splice(bs, i, 1, mid)) == Live(bs) - (if bs[i].free then {} else {bs[i]}) + Live(mid)
    ensures Splice(bs, i, 1, mid)[..i] == bs[..i]
    ensures Splice(bs, i, 1, mid)[i] == mid[0]
  {
    SpliceKeeps(bs, lo, hi, i, 1, mid);
    assert bs[i..i + 1] == [bs[i]];
    LiveOfFew(bs[i], bs[i]);
  }

  lemma TakeSplits(bs: seq<Block>, lo: nat, hi: nat, i: nat, n: nat)
    requires WellFormed(bs, lo, hi) && i < |bs| && Fits(bs[i], n) && Splits(bs[i], n)
    ensures var cs := TakeAt(bs, i, n);
            && WellFormed(cs, lo, hi) && i < |cs| && !cs[i].free && cs[i].addr == bs[i].addr
            && bs[i].size >= n + 48 && cs[i].size == n
            && Live(cs) == Live(bs) + {cs[i]}
            && cs[..i] == bs[..i]
  {
    var b := bs[i];
    var used := Block(b.addr, n, false);
    var rest := Block(b.addr + HEADER + n, b.size - n - HEADER, true);
    assert Apart(bs, i);
    ReplaceOne(bs, lo, hi, i, [used, rest]);
    LiveOfFew(used, rest);
    LiveOfFew(rest, rest);
  }

  lemma TakeWhole(bs: seq<Block>, lo: nat, hi: nat, i: nat, n: nat)
    requires WellFormed(bs, lo, hi) && i < |bs| && Fits(bs[i], n) && !Splits(bs[i], n)
    ensures var cs := TakeAt(bs, i, n);
            && WellFormed(cs, lo, hi) && i < |cs| && !cs[i].free && cs[i].addr == bs[i].addr
            && bs[i].size < n + 48 && cs[i].size == bs[i].size
            && Live(cs) == Live(bs) + {cs[i]}
            && cs[..i] == bs[..i]
  {
    var used := Block(bs[i].addr, bs[i].size, false);
    ReplaceOne(bs, lo, hi, i, [used]);
    LiveOfFew(used, used);
  }

  /** Handing out block `i` adds exactly one live block, at the old payload address. */
  lemma TakeKeeps(bs: seq<Block>, lo: nat, hi: nat, i: nat, n: nat)
    requires WellFormed(bs, lo, hi) && i < |bs| && Fits(bs[i], n)
    ensures var cs := TakeAt(bs, i, n);
            && WellFormed(cs, lo, hi) && i < |cs| && !cs[i].free && cs[i].addr == bs[i].addr
            && cs[i].size == (if bs[i].size >= n + 48 then n else bs[i].size) && n <= cs[i].size < n + 48
            && Live(cs) == Live(bs) + {cs[i]}
            && cs[..i] == bs[..i]
  {
    if Splits(bs[i], n) { TakeSplits(bs, lo, hi, i, n); } else { TakeWhole(bs, lo, hi, i, n); }
  }

  /** Cutting padding off the front of a used block whose predecessor is used. */
  lemma CarveKeeps(bs: seq<Block>, lo: nat, hi: nat, i: nat, p: nat)
    requires WellFormed(bs, lo, hi) && i < |bs| && !bs[i].free
    requires i > 0 ==> !bs[i - 1].free
    requires bs[i].Payload() + HEADER <= p <= bs[i].End()
    ensures var cs := CarveAt(bs, i, p);
            && WellFormed(cs, lo, hi) && i + 1 < |cs|
            && cs[i].free && !cs[i + 1].free && cs[i + 1].Payload() == p && cs[i + 1].End() == bs[i].End()
            && Live(cs) == Live(bs) - {bs[i]} + {cs[i + 1]}
            && cs[..i] == bs[..i]
  {
    var b := bs[i];
    var pad := Block(b.addr, p - HEADER - b.addr - HEADER, true);
    var used := Block(p - HEADER, b.size - (p - HEADER - b.addr), false);
    ReplaceOne(bs, lo, hi, i, [pad, used]);
    LiveOfFew(pad, used);
    LiveOfFew(used, used);
    assert CarveAt(bs, i, p)[i + 1] == used;
  }

  /** Blocks `f` to `e` of `bs` seen as one free block. */
  function Merged(bs: seq<Block>, f: nat, e: nat): Block
    requires f < e <= |bs| && bs[f].addr + HEADER <= bs[e - 1].End()
  {
    Block(bs[f].addr, bs[e - 1].End() - bs[f].addr - HEADER, true)
  }

  lemma MergeNextIsSplice(bs: seq<Block>, lo: nat, hi: nat, i: nat) returns (e: nat)
    requires WellFormed(bs, lo, hi) && i < |bs| && !bs[i].free
    ensures i < e <= |bs| && (forall x :: i < x < e ==> bs[x].free) && (e < |bs| ==> !bs[e].free)
    ensures bs[i].addr + HEADER <= bs[e - 1].End()
    ensures MergeNext(bs[i := bs[i].(free := true)], i) == bs[..i] + [Merged(bs, i, e)] + bs[e..]
  {
    e := if i + 1 < |bs| && bs[i + 1].free then i + 2 else i + 1;
    assert Joined(bs, i) && Apart(bs, e - 1);
  }

  /** The two merge steps of kfree amount to one splice: blocks `f` to `e` become one free block. */
  lemma FreeIsSplice(bs: seq<Block>, lo: nat, hi: nat, i: nat) returns (f: nat, e: nat)
    requires WellFormed(bs, lo, hi) && i < |bs| && !bs[i].free
    ensures f <= i < e <= |bs|
    ensures forall x :: f <= x < e && x != i ==> bs[x].free
    ensures f > 0 ==> !bs[f - 1].free
    ensures e < |bs| ==> !bs[e].free
    ensures bs[f].addr + HEADER <= bs[e - 1].End()
    ensures FreeAt(bs, i) == bs[..f] + [Merged(bs, f, e)] + bs[e..]
  {
    e := MergeNextIsSplice(bs, lo, hi, i);
    f := if i > 0 && bs[i - 1].free then i - 1 else i;
    if i > 0 { assert Joined(bs, i - 1); }
    if i > 1 { assert Apart(bs, i - 2); }
    var next := bs[..i] + [Merged(bs, i, e)] + bs[e..];
    assert next[i] == Merged(bs, i, e) && next[i + 1..] == bs[e..];
    assert i > 0 ==> next[i - 1] == bs[i - 1] && next[..i - 1] == bs[..i - 1];
  }

  lemma LiveOfRun(bs: seq<Block>, i: nat, f: nat, e: nat)
    requires f <= i < e <= |bs| && !bs[i].free
    requires forall x :: f <= x < e && x != i ==> bs[x].free
    ensures Live(bs[f..e]) == {bs[i]}
  {
    assert bs[f..e][i - f] == bs[i];
  }

  lemma MergedRunKeeps(bs: seq<Block>, lo: nat, hi: nat, i: nat, f: nat, e: nat, m: Block)
    requires WellFormed(bs, lo, hi) && f <= i < e <= |bs| && !bs[i].free
    requires forall x :: f <= x < e && x != i ==> bs[x].free
    requires f > 0 ==> !bs[f - 1].free
    requires e < |bs| ==> !bs[e].free
    requires m.free && m.addr == bs[f].addr && m.End() == bs[e - 1].End()
    ensures WellFormed(Splice(bs, f, e - f, [m]), lo, hi)
    ensures Live(Splice(bs, f, e - f, [m])) == Live(bs) - {bs[i]}
  {
    SpliceKeeps(bs, lo, hi, f, e - f, [m]);
    LiveOfFew(m, m);
    LiveOfRun(bs, i, f, e);
  }

  /** Freeing removes exactly the freed block from the live set, and merging leaves no two free neighbours. */
  lemma FreeKeeps(bs: seq<Block>, lo: nat, hi: nat, i: nat)
    requires WellFormed(bs, lo, hi) && i < |bs| && !bs[i].free
    ensures WellFormed(FreeAt(bs, i), lo, hi)
    ensures Live(FreeAt(bs, i)) == Live(bs) - {bs[i]}
  {
    var f, e := FreeIsSplice(bs, lo, hi, i);
    MergedRunKeeps(bs, lo, hi, i, f, e, Merged(bs, f, e));
  }

  /** In the heap kmalloc_aligned leaves before its own kfree, that kfree changes nothing:
      the padding sits between two used blocks. */
  lemma FreeOfPaddingIsIdentity(bs: seq<Block>, i: nat)
    requires i + 1 < |bs| && bs[i].free && !bs[i + 1].free
    requires i > 0 ==> !bs[i - 1].free
    ensures FreeAt(bs, i) == bs
  {
    assert bs[i := bs[i].(free := true)] == bs;
  }

  /** Freeing any block, even one already free, keeps the layout. */
  lemma FreeAtKeeps(bs: seq<Block>, lo: nat, hi: nat, i: nat)
    requires WellFormed(bs, lo, hi) && i < |bs|
    ensures WellFormed(FreeAt(bs, i), lo, hi)
  {
    if bs[i].free {
      assert Apart(bs, i);
      if i > 0 { assert Apart(bs, i - 1); }
      assert bs[i := bs[i].(free := true)] == bs;
    } else {
      FreeKeeps(bs, lo, hi, i);
    }
  }
}
