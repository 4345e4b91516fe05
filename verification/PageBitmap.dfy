/** memory.c:8-85 on the bitmap itself: loops over pages that test, set and clear single bits. */
module PageBitmap {
  import opened PageAllocation

  /** `1 << (page % 8)` */
  function Mask(page: nat): bv8 {
    (1 as bv8) << (page % 8)
  }

  /** `byte & (1 << (page % 8))`, and the two ways the code changes that bit. */
  predicate Test(b: bv8, p: nat) {
    b & Mask(p) != 0
  }

  function WithBit(b: bv8, p: nat): bv8 {
    b | Mask(p)
  }

  function WithoutBit(b: bv8, p: nat): bv8 {
    b & !Mask(p)
  }

  predicate SingleBit(m: bv8) {
    m == 1 || m == 2 || m == 4 || m == 8 || m == 16 || m == 32 || m == 64 || m == 128
  }

  lemma MaskTable(p: nat)
    ensures Mask(p) == match p % 8
      case 0 => 1 case 1 => 2 case 2 => 4 case 3 => 8
      case 4 => 16 case 5 => 32 case 6 => 64 case _ => 128
    ensures SingleBit(Mask(p))
  {
  }

  lemma MaskBits(b: bv8, m: bv8, n: bv8)
    requires SingleBit(m) && SingleBit(n)
    ensures (b | m) & n != 0 <==> m == n || b & n != 0
    ensures (b & !m) & n != 0 <==> m != n && b & n != 0
  {
  }

  /** Setting or clearing one bit of a byte leaves the other seven alone. */
  lemma OneBit(b: bv8, p: nat, q: nat)
    ensures Test(WithBit(b, p), q) <==> p % 8 == q % 8 || Test(b, q)
    ensures Test(WithoutBit(b, p), q) <==> p % 8 != q % 8 && Test(b, q)
  {
    MaskTable(p);
    MaskTable(q);
    assert Mask(p) == Mask(q) <==> p % 8 == q % 8;
    hide Mask, SingleBit;
    MaskBits(b, Mask(p), Mask(q));
  }

  lemma AllOnes(p: nat)
    ensures Test(0xFF, p)
  {
    MaskTable(p);
  }

  /** The descriptors the scan of a memory map visits: one every `stride` bytes, up to `size` bytes. */
  ghost function Visited(at: nat -> Descriptor, offset: nat, size: nat, stride: nat): seq<Descriptor>
    requires stride > 0
    decreases if offset < size then size - offset else 0
  {
    if offset >= size then [] else [at(offset)] + Visited(at, offset + stride, size, stride)
  }

  /** They are the ones at offsets 0, `stride`, 2 `stride` and so on below `size`. */
  lemma {:induction false} VisitedAt(at: nat -> Descriptor, offset: nat, size: nat, stride: nat)
    requires stride > 0
    ensures var ds := Visited(at, offset, size, stride);
      && size <= offset + |ds| * stride
      && forall i: nat :: i < |ds| ==> offset + i * stride < size && ds[i] == at(offset + i * stride)
    decreases if offset < size then size - offset else 0
  {
    if offset < size {
      VisitedAt(at, offset + stride, size, stride);
      var ds, rest := Visited(at, offset, size, stride), Visited(at, offset + stride, size, stride);
      assert |ds| * stride == stride + |rest| * stride;
      forall i: nat | i < |ds| ensures offset + i * stride < size && ds[i] == at(offset + i * stride) {
        if i > 0 {
          assert ds[i] == rest[i - 1];
          assert offset + i * stride == offset + stride + (i - 1) * stride;
        }
      }
    }
  }

  /** Runs that grow by one page. */
  lemma RunStep(start: nat, i: nat)
    ensures Run(start, i + 1).All() == Run(start, i).All() + {start + i}
    ensures Run(start, 0).All() == {}
  {
    forall p ensures p in Run(start, i + 1).All() <==> p in Run(start, i).All() || p == start + i {
      assert Run(start, i + 1).Has(p) <==> Run(start, i).Has(p) || p == start + i;
    }
  }

  /** A search that has ruled out every start before `s` has found the lowest one. */
  lemma Found(st: Pages, n: nat, s: nat)
    requires 0 < n <= st.total && 1 <= s
    requires forall k :: 1 <= k < s && k + n <= st.total ==> !AllFree(st, Run(k, n))
    requires s + n <= st.total ==> AllFree(st, Run(s, n))
    ensures LowestFrom(st, 1, n) == if s + n <= st.total then s else st.total
  {
    LowestFromLaw(st, 1, n);
  }

  class PageAllocator {
    const bitmap: array<bv8>
    var totalPages: nat

    ghost predicate Valid()
      reads this
    {
      bitmap.Length == MAX_PAGES / 8 && totalPages < MAX_PAGES
    }

    predicate BitSet(p: nat)
      reads bitmap
      requires p / 8 < bitmap.Length
    {
      Test(bitmap[p / 8], p)
    }

    ghost function Used(): set<nat>
      reads bitmap
      requires bitmap.Length == MAX_PAGES / 8
    {
      set p: nat | p < MAX_PAGES && BitSet(p)
    }

    /** The abstract state the bitmap and the page count stand for. */
    ghost function State(): Pages
      reads this, bitmap
      requires Valid()
    {
      Pages(Used(), totalPages)
    }

    method SetBit(p: nat)
      requires Valid() && p < MAX_PAGES
      modifies bitmap
      ensures Used() == old(Used()) + {p}
    {
      ghost var before := bitmap[..];
      bitmap[p / 8] := WithBit(bitmap[p / 8], p);
      hide Test, WithBit, WithoutBit;
      forall q: nat | q < MAX_PAGES ensures BitSet(q) <==> q == p || old(BitSet(q)) {
        if q / 8 == p / 8 { OneBit(before[p / 8], p, q); }
      }
    }

    method ClearBit(p: nat)
      requires Valid() && p < MAX_PAGES
      modifies bitmap
      ensures Used() == old(Used()) - {p}
    {
      ghost var before := bitmap[..];
      bitmap[p / 8] := WithoutBit(bitmap[p / 8], p);
      hide Test, WithBit, WithoutBit;
      forall q: nat | q < MAX_PAGES ensures BitSet(q) <==> q != p && old(BitSet(q)) {
        if q / 8 == p / 8 { OneBit(before[p / 8], p, q); }
      }
    }
  
    /** A fresh bitmap, before PageAllocator_Init. */
    constructor ()
      ensures Valid() && fresh(bitmap) && totalPages == 0
    {
      bitmap := new bv8[MAX_PAGES / 8];
      totalPages := 0;
    }

    method ClearPages(startPage: nat, pages: nat)
      requires Valid()
      modifies bitmap
      ensures Used() == old(Used()) - Run(startPage, pages).All()
    {
      RunStep(startPage, 0);
      for i := 0 to pages
        invariant Used() == old(Used()) - Run(startPage, i).All()
      {
        RunStep(startPage, i);
        if startPage + i < MAX_PAGES {
          ClearBit(startPage + i);
        }
      }
    }

    method SetPages(startPage: nat, pages: nat)
      requires Valid()
      modifies bitmap
      ensures Used() == old(Used()) + Run(startPage, pages).All() * Below(MAX_PAGES)
    {
      RunStep(startPage, 0);
      for i := 0 to pages
        invariant Used() == old(Used()) + Run(startPage, i).All() * Below(MAX_PAGES)
      {
        RunStep(startPage, i);
        if startPage + i < MAX_PAGES {
          SetBit(startPage + i);
        }
      }
    }

    /** memory.c:11-12: every page is marked used. */
    method MarkAllUsed()
      requires Valid()
      modifies bitmap
      ensures Used() == Below(MAX_PAGES)
    {
      for i := 0 to bitmap.Length
        invariant forall k :: 0 <= k < i ==> bitmap[k] == 0xFF
      {
        bitmap[i] := 0xFF;
      }
      hide Test;
      forall p: nat | p < MAX_PAGES ensures BitSet(p) {
        AllOnes(p);
      }
    }

    /** memory.c:18-37: one descriptor of the map. */
    method AddOne(d: Descriptor)
      requires Valid() && d.Fits()
      modifies this`totalPages, bitmap
      ensures Valid() && State() == AddDescriptor(old(State()), d)
    {
      hide Test;
      var lastPage := d.LastPage();
      if lastPage > totalPages && lastPage < MAX_PAGES {
        totalPages := lastPage;
      }
      if d.Usable() {
        ClearPages(d.FirstPage(), d.pages);
      }
    }

    /** PageAllocator_Init over the memory map read at every `descSize`-th byte. */
    method Init(at: nat -> Descriptor, mapSize: nat, descSize: nat)
      requires Valid() && descSize > 0
      requires forall d :: d in Visited(at, 0, mapSize, descSize) ==> d.Fits()
      modifies this`totalPages, bitmap
      ensures Valid()
      ensures State() == PageAllocation.Init(old(totalPages), Visited(at, 0, mapSize, descSize))
    {
      hide AddDescriptor, Below;
      MarkAllUsed();
      ghost var all := Visited(at, 0, mapSize, descSize);
      var offset := 0;
      while offset < mapSize
        invariant Valid()
        invariant Scan(State(), Visited(at, offset, mapSize, descSize)) == PageAllocation.Init(old(totalPages), all)
        invariant forall d :: d in Visited(at, offset, mapSize, descSize) ==> d.Fits()
        decreases mapSize - offset
      {
        ghost var rest := Visited(at, offset, mapSize, descSize);
        assert rest[0] == at(offset) && rest[0] in rest &&
          rest[1..] == Visited(at, offset + descSize, mapSize, descSize);
        AddOne(at(offset));
        offset := offset + descSize;
      }
    }

    /** PageAllocator_MarkUsed */
    method MarkUsed(ptr: nat, pages: nat)
      requires Valid()
      modifies bitmap
      ensures State() == PageAllocation.MarkUsed(old(State()), Run(ptr / PAGE_SIZE, pages))
    {
      SetPages(ptr / PAGE_SIZE, pages);
    }

    /** The test of one candidate run: the number of free pages before the first page in use. */
    method CountFree(i: nat, pages: nat) returns (found: nat)
      requires Valid() && i + pages <= MAX_PAGES
      ensures found <= pages
      ensures found == pages <==> AllFree(State(), Run(i, pages))
    {
      found := 0;
      for j := 0 to pages
        invariant found == j && forall p :: i <= p < i + j ==> p !in Used()
      {
        if BitSet(i + j) {
          assert i + j in Used() && Run(i, pages).Has(i + j);
          break;
        }
        found := found + 1;
      }
    }

    /** PageAllocator_Alloc */
    method Alloc(pages: nat) returns (address: nat)
      requires Valid()
      modifies bitmap
      ensures (State(), address) == PageAllocation.Alloc(old(State()), pages)
    {
      if pages == 0 || pages > totalPages {
        return 0;
      }
      var i := 1;
      while i <= totalPages - pages
        invariant 1 <= i && bitmap[..] == old(bitmap[..]) && State() == old(State())
        invariant forall k :: 1 <= k < i && k + pages <= totalPages ==> !AllFree(State(), Run(k, pages))
      {
        var found := CountFree(i, pages);
        if found == pages {
          Found(State(), pages, i);
          SetPages(i, pages);
          assert Run(i, pages).All() * Below(MAX_PAGES) == Run(i, pages).All();
          return i * PAGE_SIZE;
        }
        i := i + 1;
      }
      Found(State(), pages, i);
      return 0;
    }

    /** PageAllocator_Free */
    method Free(ptr: nat, pages: nat)
      requires Valid()
      modifies bitmap
      ensures State() == FreeRun(old(State()), Run(ptr / PAGE_SIZE, pages))
    {
      ClearPages(ptr / PAGE_SIZE, pages);
    }
  }
}
