/** The block list of the kernel heap (src/memory/heap.c), as a sequence of blocks in list
    order, without the memory that holds it.  Module Heap refines it to in-band headers. */
module HeapList {
  import opened Common

  const BLOCK_SIZE: nat := 20

  /** PAGE_SIZE is 4096; literals keep the arithmetic linear. */
  function PageBytes(pages: nat): (r: nat) { pages * 4096 }

  predicate PageAligned(a: nat) { a % 4096 == 0 }

  const HEAP_START: nat := 0x0040_0000
  /** The largest request that kmalloc does not reject outright. */
  const MAX_REQUEST: nat := WORD - 1 - BLOCK_SIZE - 4

  /** `avail` in the requests below is the number of pages the page allocator hands out
      before it answers null. */
  datatype Block = Block(addr: nat, size: nat, free: bool) {
    function Ptr(): (r: nat) { addr + BLOCK_SIZE }
    function End(): (r: nat) { addr + BLOCK_SIZE + size }
  }

  datatype State = State(blocks: seq<Block>, cur: nat)

  datatype Reply = Reply(state: State, ptr: nat)

  // ---------------------------------------------------------------- invariant

  predicate InHeap(b: Block, cur: nat) {
    HEAP_START <= b.addr && b.addr % 4 == 0 && b.size % 4 == 0 && b.End() <= cur
  }

  /** Address-ordered and non-overlapping, but not necessarily contiguous. */
  predicate Ordered(bs: seq<Block>) {
    forall i, j | 0 <= i < j < |bs| :: bs[i].End() <= bs[j].addr
  }

  predicate Layout(st: State) {
    && HEAP_START <= st.cur && PageAligned(st.cur)
    && (forall i | 0 <= i < |st.blocks| :: InHeap(st.blocks[i], st.cur))
    && Ordered(st.blocks)
  }

  /** No two neighbours are both free. */
  predicate Coalesced(bs: seq<Block>) {
    forall i | 0 <= i < |bs| - 1 :: !(bs[i].free && bs[i + 1].free)
  }

  predicate Valid(st: State) { Layout(st) && Coalesced(st.blocks) }

  // --------------------------------------------------------------- operations

  function Align4(n: nat): (r: nat) { (n + 3) / 4 * 4 }

  predicate Fits(b: Block, n: nat) { b.free && n <= b.size }

  /** The first block that fits, or |bs|. */
  function FirstFit(bs: seq<Block>, n: nat): (i: nat)
    ensures i <= |bs|
    ensures i < |bs| ==> Fits(bs[i], n)
    ensures forall j | 0 <= j < i :: !Fits(bs[j], n)
  {
    if bs == [] || Fits(bs[0], n) then 0 else 1 + FirstFit(bs[1..], n)
  }

  /** Serve n bytes from block i; split off the rest when it can hold a header and a word. */
  function Carve(bs: seq<Block>, i: nat, n: nat): (r: seq<Block>)
    requires i < |bs| && n <= bs[i].size
  {
    var b := bs[i];
    if n + BLOCK_SIZE + 4 <= b.size then
      bs[..i] + [Block(b.addr, n, false), Block(b.Ptr() + n, b.size - n - BLOCK_SIZE, true)] + bs[i + 1..]
    else
      bs[i := b.(free := false)]
  }

  /** Whole pages for `total` bytes, in 32-bit arithmetic. */
  function Pages(total: nat): (r: nat) { (total + 4095) % 0x1_0000_0000 / 4096 }

  /** Map pages at the heap's end one by one; a refusal leaves those already mapped behind. */
  function Extend(st: State, size: nat, pages: nat, avail: nat): (r: Reply) {
    if avail < pages then Reply(st.(cur := st.cur + PageBytes(avail)), 0)
    else Reply(State(st.blocks + [Block(st.cur, size, false)], st.cur + PageBytes(pages)), st.cur + BLOCK_SIZE)
  }

  predicate Rejected(size: nat) { size == 0 || MAX_REQUEST < size }

  function Malloc(st: State, size: nat, avail: nat): (r: Reply) {
    if Rejected(size) then Reply(st, 0)
    else
      var n := Align4(size);
      var i := FirstFit(st.blocks, n);
      if i < |st.blocks| then Reply(st.(blocks := Carve(st.blocks, i, n)), st.blocks[i].Ptr())
      else Extend(st, n, Pages(BLOCK_SIZE + n), avail)
  }

  /** The size kmalloc_aligned records, in 32-bit arithmetic. */
  function WholeSize(pages: nat): (r: nat) { (PageBytes(pages) + 0xFFFF_FFEC) % 0x1_0000_0000 }

  function MallocAligned(st: State, size: nat, avail: nat): (r: Reply) {
    if Rejected(size) then Reply(st, 0)
    else
      var pages := Pages(BLOCK_SIZE + Align4(size));
      Extend(st, WholeSize(pages), pages, avail)
  }

  /** Absorb block i + 1 into block i, whatever lies between them. */
  function Merge(bs: seq<Block>, i: nat): (r: seq<Block>)
    requires i + 1 < |bs|
  {
    bs[..i] + [Block(bs[i].addr, bs[i].size + BLOCK_SIZE + bs[i + 1].size, true)] + bs[i + 2..]
  }

  function MergeNext(bs: seq<Block>, i: nat): (r: seq<Block>)
    requires i < |bs| && bs[i].free
    ensures i < |r| && r[i].free && r[..i] == bs[..i] && r[i].addr == bs[i].addr
  {
    if i + 1 < |bs| && bs[i + 1].free then Merge(bs, i) else bs
  }

  /** Freeing block i lets its predecessor absorb it, so that it leaves the list. */
  predicate Absorbs(bs: seq<Block>, i: nat)
    requires i < |bs|
  {
    0 < i && bs[i - 1].free
  }

  function MergePrev(bs: seq<Block>, i: nat): (r: seq<Block>)
    requires i < |bs| && bs[i].free
    ensures if Absorbs(bs, i) then i <= |r| else r == bs
  {
    if 0 < i && bs[i - 1].free then Merge(bs, i - 1) else bs
  }

  function Release(bs: seq<Block>, i: nat): (r: seq<Block>)
    requires i < |bs|
    ensures if Absorbs(bs, i) then i <= |r| else i < |r|
  {
    var marked := bs[i := bs[i].(free := true)];
    assert MergeNext(marked, i)[..i] == marked[..i];
    assert 0 < i ==> marked[..i][i - 1] == bs[i - 1];
    MergePrev(MergeNext(marked, i), i)
  }

  /** The size in the header of block i once it was freed. */
  function LeftSize(bs: seq<Block>, i: nat): (n: nat)
    requires i < |bs|
  {
    MergeNext(bs[i := bs[i].(free := true)], i)[i].size
  }

  /** Freeing a pointer whose header, of the given size, block j has absorbed: the header still
      names j as its predecessor, and j absorbs it again, in 32-bit arithmetic. */
  function Reabsorb(bs: seq<Block>, j: nat, size: nat): (r: seq<Block>)
    requires j < |bs|
  {
    bs[j := bs[j].(size := (bs[j].size + BLOCK_SIZE + size) % 0x1_0000_0000)]
  }

  /** Two frees of the same pointer in a row. */
  function ReleaseTwice(bs: seq<Block>, i: nat): (r: seq<Block>)
    requires i < |bs|
  {
    if Absorbs(bs, i) then Reabsorb(Release(bs, i), i - 1, LeftSize(bs, i)) else Release(Release(bs, i), i)
  }

  // -------------------------------------------------------------- observations

  /** The blocks a client holds. */
  function Live(bs: seq<Block>): (r: set<Block>) { set b | b in bs && !b.free }

  /** The bytes the list accounts for, headers included. */
  function Total(bs: seq<Block>): (r: nat) {
    if bs == [] then 0 else BLOCK_SIZE + bs[0].size + Total(bs[1..])
  }

  /** The growth of `total` bytes rounds up past the end of the address range. */
  predicate Wraps(size: nat) { WORD <= BLOCK_SIZE + Align4(size) + 4095 }

  predicate Grows(st: State, size: nat) {
    !Rejected(size) && FirstFit(st.blocks, Align4(size)) == |st.blocks|
  }

  lemma MallocBounded(st: State, size: nat, avail: nat)
    ensures st.cur <= Malloc(st, size, avail).state.cur <= st.cur + PageBytes(avail)
  {
  }

  // ------------------------------------------------------------ page rounding

  lemma PagesExact(total: nat)
    requires total + 4095 < WORD
    ensures total <= PageBytes(Pages(total)) <= total + 4095
  {
  }

  lemma PagesCover(size: nat)
    requires !Rejected(size)
    ensures !Wraps(size) ==> BLOCK_SIZE + Align4(size) <= PageBytes(Pages(BLOCK_SIZE + Align4(size)))
    ensures Wraps(size) ==> Pages(BLOCK_SIZE + Align4(size)) == 0
  {
    var total := BLOCK_SIZE + Align4(size);
    if !Wraps(size) {
      PagesExact(total);
    } else {
      assert 0 <= total + 4095 - 0x1_0000_0000 < 4096;
      assert (total + 4095) % 0x1_0000_0000 == total + 4095 - 0x1_0000_0000;
    }
  }

  lemma OnceOver(x: nat)
    requires 0x1_0000_0000 <= x < 0x2_0000_0000
    ensures x % 0x1_0000_0000 == x - 0x1_0000_0000
  {
  }

  lemma WholeSizeExact(pages: nat)
    requires PageBytes(pages) < WORD
    ensures WholeSize(pages) == if pages == 0 then 0xFFFF_FFEC else PageBytes(pages) - BLOCK_SIZE
    ensures WholeSize(pages) % 4 == 0
  {
    if 0 < pages {
      OnceOver(PageBytes(pages) + 0xFFFF_FFEC);
      assert WholeSize(pages) == 4 * (1024 * pages - 5);
    } else {
      assert WholeSize(0) == 4 * 0x3FFF_FFFB;
    }
  }

  lemma Aligned(n: nat)
    ensures n <= Align4(n) <= n + 3 && Align4(n) % 4 == 0
  {
  }

  lemma WholeSizeCovers(size: nat)
    requires !Rejected(size)
    ensures var pages := Pages(BLOCK_SIZE + Align4(size));
            size <= WholeSize(pages) && WholeSize(pages) % 4 == 0
            && (BLOCK_SIZE + WholeSize(pages) <= PageBytes(pages) <==> !Wraps(size))
  {
    PagesCover(size);
    Aligned(size);
    var total := BLOCK_SIZE + Align4(size);
    if !Wraps(size) { PagesExact(total); }
    hide Pages, WholeSize, Align4;
    WholeSizeExact(Pages(total));
  }

  // ------------------------------------------------------- invariant preserved

  lemma OrderedAt(st: State, i: nat, j: nat)
    requires Layout(st) && i < j < |st.blocks|
    ensures st.blocks[i].End() <= st.blocks[j].addr
  {
  }

  lemma PagesAreWords(a: nat)
    requires a % 4096 == 0
    ensures a % 4 == 0 && (a + 20) % 4 == 0
  {
    var q := a / 4096;
    assert a == 4096 * q;
    assert a + 20 == 4 * (1024 * q + 5);
  }

  lemma CurAligned(st: State)
    requires Layout(st)
    ensures (st.cur + BLOCK_SIZE) % 4 == 0
  {
    PagesAreWords(st.cur);
  }

  lemma InHeapAt(st: State, i: nat)
    requires Layout(st) && i < |st.blocks|
    ensures InHeap(st.blocks[i], st.cur)
  {
  }

  lemma AppendOrdered(st: State, b: Block)
    requires Layout(st) && st.cur <= b.addr
    ensures Ordered(st.blocks + [b])
  {
    var r := st.blocks + [b];
    forall i, j | 0 <= i < j < |r| ensures r[i].End() <= r[j].addr {
      if j < |st.blocks| { OrderedAt(st, i, j); } else { InHeapAt(st, i); }
    }
  }

  lemma AppendKeepsLayout(st: State, b: Block, cur: nat)
    requires Layout(st) && b.addr == st.cur && b.size % 4 == 0 && b.End() <= cur && PageAligned(cur)
    ensures Layout(State(st.blocks + [b], cur))
  {
    var r := st.blocks + [b];
    AppendOrdered(st, b);
    CurAligned(st);
    hide Ordered;
    forall i | 0 <= i < |r| ensures InHeap(r[i], cur) { if i < |st.blocks| { InHeapAt(st, i); } }
  }

  lemma AppendKeepsLayoutIff(st: State, size: nat, cur: nat)
    requires Layout(st) && size % 4 == 0 && st.cur <= cur && PageAligned(cur)
    ensures Layout(State(st.blocks + [Block(st.cur, size, false)], cur)) <==> st.cur + BLOCK_SIZE + size <= cur
  {
    var b := Block(st.cur, size, false);
    if b.End() <= cur {
      AppendKeepsLayout(st, b, cur);
    } else {
      assert !InHeap((st.blocks + [b])[|st.blocks|], cur);
    }
  }

  lemma ExtendKeepsLayoutIff(st: State, size: nat, pages: nat, avail: nat)
    requires Layout(st) && size % 4 == 0
    ensures Layout(Extend(st, size, pages, avail).state) <==> avail < pages || BLOCK_SIZE + size <= PageBytes(pages)
  {
    if pages <= avail {
      AppendKeepsLayoutIff(st, size, st.cur + PageBytes(pages));
    } else {
      var cur := st.cur + PageBytes(avail);
      forall i | 0 <= i < |st.blocks| ensures InHeap(st.blocks[i], cur) { assert InHeap(st.blocks[i], st.cur); }
    }
  }

  lemma SplitOrdered(st: State, i: nat, n: nat)
    requires Layout(st) && i < |st.blocks| && n + BLOCK_SIZE + 4 <= st.blocks[i].size
    ensures Ordered(Carve(st.blocks, i, n))
  {
    var bs, r := st.blocks, Carve(st.blocks, i, n);
    forall j, k | 0 <= j < k < |r| ensures r[j].End() <= r[k].addr {
      var j', k' := if j <= i then j else j - 1, if k <= i then k else k - 1;
      assert bs[j'].addr <= r[j].addr && r[j].End() <= bs[j'].End() && bs[k'].addr <= r[k].addr;
      if j' < k' { OrderedAt(st, j', k'); }
    }
  }

  lemma SplitKeepsLayout(st: State, i: nat, n: nat)
    requires Layout(st) && i < |st.blocks| && n % 4 == 0 && n + BLOCK_SIZE + 4 <= st.blocks[i].size
    ensures Layout(st.(blocks := Carve(st.blocks, i, n)))
  {
    var bs := st.blocks;
    var r := Carve(bs, i, n);
    assert InHeap(bs[i], st.cur);
    assert InHeap(r[i], st.cur) && InHeap(r[i + 1], st.cur);
    assert r[i + 1].End() == bs[i].End();
    forall j | 0 <= j < |r| ensures InHeap(r[j], st.cur) {
      if j < i { assert InHeap(bs[j], st.cur); } else if i + 1 < j { assert InHeap(bs[j - 1], st.cur); }
    }
    SplitOrdered(st, i, n);
  }

  lemma CarveKeepsCoalesced(bs: seq<Block>, i: nat, n: nat)
    requires Coalesced(bs) && i < |bs| && Fits(bs[i], n)
    ensures Coalesced(Carve(bs, i, n))
  {
    var r := Carve(bs, i, n);
    var d := |r| - |bs|;
    forall j | 0 <= j < |r| - 1 ensures !(r[j].free && r[j + 1].free) {
      if j < i {
        assert r[j] == bs[j];
      } else if i + d < j {
        assert r[j] == bs[j - d] && r[j + 1] == bs[j - d + 1];
      } else if j == i + d && d == 1 {
        assert r[j + 1] == bs[i + 1];
      }
    }
  }

  lemma CarveKeepsValid(st: State, i: nat, n: nat)
    requires Valid(st) && i < |st.blocks| && n % 4 == 0 && Fits(st.blocks[i], n)
    ensures Valid(st.(blocks := Carve(st.blocks, i, n)))
  {
    CarveKeepsCoalesced(st.blocks, i, n);
    if n + BLOCK_SIZE + 4 <= st.blocks[i].size {
      SplitKeepsLayout(st, i, n);
    } else {
      assert InHeap(st.blocks[i], st.cur);
    }
  }

  lemma MergeOrdered(st: State, i: nat)
    requires Layout(st) && i + 1 < |st.blocks|
    ensures Ordered(Merge(st.blocks, i))
  {
    var bs, r := st.blocks, Merge(st.blocks, i);
    OrderedAt(st, i, i + 1);
    forall j, k | 0 <= j < k < |r| ensures r[j].End() <= r[k].addr {
      var j', k' := if j < i then j else j + 1, if k <= i then k else k + 1;
      assert r[j].End() <= bs[j'].End() && r[k].addr == bs[k'].addr;
      OrderedAt(st, j', k');
    }
  }

  lemma MergeKeepsLayout(st: State, i: nat)
    requires Layout(st) && i + 1 < |st.blocks|
    ensures Layout(st.(blocks := Merge(st.blocks, i)))
  {
    var bs, r := st.blocks, Merge(st.blocks, i);
    MergeOrdered(st, i);
    OrderedAt(st, i, i + 1);
    InHeapAt(st, i);
    InHeapAt(st, i + 1);
    forall j | 0 <= j < |r| ensures InHeap(r[j], st.cur) {
      if j < i { InHeapAt(st, j); } else if i < j { InHeapAt(st, j + 1); }
    }
  }

  lemma MarkKeepsLayout(st: State, i: nat)
    requires Layout(st) && i < |st.blocks|
    ensures Layout(st.(blocks := st.blocks[i := st.blocks[i].(free := true)]))
  {
    var r := st.blocks[i := st.blocks[i].(free := true)];
    forall j | 0 <= j < |r| ensures InHeap(r[j], st.cur) { assert InHeap(st.blocks[j], st.cur); }
  }

  /** No two neighbours other than block i and one beside it are both free. */
  predicate CoalescedAround(bs: seq<Block>, i: nat) {
    forall j | 0 <= j < |bs| - 1 && j != i && j + 1 != i :: !(bs[j].free && bs[j + 1].free)
  }

  lemma MergeNextCoalesces(bs: seq<Block>, i: nat)
    requires i < |bs| && bs[i].free && CoalescedAround(bs, i)
    ensures var r := MergeNext(bs, i); CoalescedAround(r, i) && (i + 1 < |r| ==> !r[i + 1].free)
  {
    var r := MergeNext(bs, i);
    if r != bs {
      forall j | 0 <= j < |r| - 1 && j != i && j + 1 != i ensures !(r[j].free && r[j + 1].free) {
        if j < i {
          assert r[j] == bs[j] && r[j + 1] == bs[j + 1];
        } else {
          assert r[j] == bs[j + 1] && r[j + 1] == bs[j + 2];
        }
      }
      if i + 1 < |r| { assert r[i + 1] == bs[i + 2]; }
    }
  }

  lemma MergePrevCoalesces(bs: seq<Block>, i: nat)
    requires i < |bs| && bs[i].free && CoalescedAround(bs, i) && (i + 1 < |bs| ==> !bs[i + 1].free)
    requires 1 < i && bs[i - 1].free ==> !bs[i - 2].free
    ensures Coalesced(MergePrev(bs, i))
  {
    var r := MergePrev(bs, i);
    if r != bs {
      forall j | 0 <= j < |r| - 1 ensures !(r[j].free && r[j + 1].free) {
        if j + 1 < i - 1 {
          assert r[j] == bs[j] && r[j + 1] == bs[j + 1];
        } else if j + 1 == i - 1 {
          assert r[j] == bs[i - 2];
        } else {
          assert r[j + 1] == bs[j + 2] && (i <= j ==> r[j] == bs[j + 1]);
        }
      }
    }
  }

  lemma NotBothFree(bs: seq<Block>, j: nat)
    requires Coalesced(bs) && j + 1 < |bs|
    ensures !(bs[j].free && bs[j + 1].free)
  {
  }

  lemma ReleaseKeepsCoalesced(bs: seq<Block>, i: nat)
    requires Coalesced(bs) && i < |bs|
    ensures Coalesced(Release(bs, i))
  {
    var b0 := bs[i := bs[i].(free := true)];
    MergeNextCoalesces(b0, i);
    if 1 < i { NotBothFree(bs, i - 2); }
    var b1 := MergeNext(b0, i);
    assert forall j | 0 <= j < i :: b1[j] == b1[..i][j] == bs[j];
    MergePrevCoalesces(b1, i);
  }

  lemma ReleaseKeepsValid(st: State, i: nat)
    requires Valid(st) && i < |st.blocks|
    ensures Valid(st.(blocks := Release(st.blocks, i)))
  {
    var b0 := st.blocks[i := st.blocks[i].(free := true)];
    var s0 := st.(blocks := b0);
    MarkKeepsLayout(st, i);
    var b1 := MergeNext(b0, i);
    var s1 := st.(blocks := b1);
    if b1 != b0 { MergeKeepsLayout(s0, i); }
    assert Layout(s1);
    var b2 := MergePrev(b1, i);
    if b2 != b1 { MergeKeepsLayout(s1, i - 1); }
    ReleaseKeepsCoalesced(st.blocks, i);
  }

  /** kmalloc keeps the heap valid on every request, except that it grows by no page at all,
      past its own end, exactly when rounding the request to pages wraps. */
  lemma MallocKeepsValidIff(st: State, size: nat, avail: nat)
    requires Valid(st)
    ensures Valid(Malloc(st, size, avail).state) <==> !(Grows(st, size) && Wraps(size))
  {
    if !Rejected(size) {
      var n := Align4(size);
      var i := FirstFit(st.blocks, n);
      if i < |st.blocks| {
        CarveKeepsValid(st, i, n);
      } else {
        PagesCover(size);
        hide Pages, Layout;
        ExtendKeepsLayoutIff(st, n, Pages(BLOCK_SIZE + n), avail);
      }
    }
  }

  lemma MallocAlignedKeepsValidIff(st: State, size: nat, avail: nat)
    requires Valid(st)
    ensures Valid(MallocAligned(st, size, avail).state) <==> Rejected(size) || !Wraps(size)
  {
    if !Rejected(size) {
      PagesCover(size);
      WholeSizeCovers(size);
      hide Pages, WholeSize, Align4, Layout;
      var pages := Pages(BLOCK_SIZE + Align4(size));
      ExtendKeepsLayoutIff(st, WholeSize(pages), pages, avail);
    }
  }

  // ------------------------------------------------------------ what is served

  /** A served block starts where the free one did, is large enough, and wastes less than what a
      header and a word would take; what is cut off is a free block up to the old end.  No other
      block changes. */
  lemma CarveServes(bs: seq<Block>, i: nat, n: nat)
    requires i < |bs| && Fits(bs[i], n)
    ensures var r := Carve(bs, i, n);
            && |bs| <= |r| <= |bs| + 1 && r[..i] == bs[..i] && r[i + 1 + |r| - |bs|..] == bs[i + 1..]
            && r[i].addr == bs[i].addr && !r[i].free && n <= r[i].size < n + 24
            && (if |r| == |bs| then r[i].End() == bs[i].End()
                else r[i + 1].free && r[i + 1].addr == r[i].End() && r[i + 1].End() == bs[i].End())
  {
  }

  /** Some block on the list can serve n bytes. */
  ghost predicate Serves(bs: seq<Block>, n: nat) {
    exists b :: b in bs && b.free && n <= b.size
  }

  lemma FirstFitIff(bs: seq<Block>, n: nat)
    ensures FirstFit(bs, n) < |bs| <==> Serves(bs, n)
  {
    var i := FirstFit(bs, n);
    if i < |bs| {
      assert bs[i] in bs;
    } else {
      assert forall b | b in bs :: !Fits(b, n);
    }
  }

  /** `avail` pages are enough to grow by a header and n bytes. */
  predicate Room(n: nat, avail: nat) { BLOCK_SIZE + n <= 4096 * avail }

  lemma LeastPages(total: nat, pages: nat, avail: nat)
    requires total <= 4096 * pages <= total + 4095
    ensures pages <= avail <==> total <= 4096 * avail
  {
  }

  /** Enough pages means enough bytes, except that a count that wraps is always enough. */
  lemma PagesEnoughIff(size: nat, avail: nat)
    requires !Rejected(size)
    ensures Pages(BLOCK_SIZE + Align4(size)) <= avail <==> Wraps(size) || Room(Align4(size), avail)
  {
    PagesCover(size);
    if !Wraps(size) {
      PagesExact(BLOCK_SIZE + Align4(size));
      hide Pages, Align4;
      LeastPages(BLOCK_SIZE + Align4(size), Pages(BLOCK_SIZE + Align4(size)), avail);
    }
  }

  /** What growth leaves: the mapped pages are the least that hold the block, or all there were
      when they are too few. */
  predicate Grown(cur: nat, cur': nat, n: nat, avail: nat) {
    if Room(n, avail) then (cur' - cur) % 4096 == 0 && BLOCK_SIZE + n <= cur' - cur < BLOCK_SIZE + n + 4096
    else cur' == cur + 4096 * avail
  }

  lemma GrowsLeast(st: State, size: nat, n: nat, avail: nat)
    requires !Rejected(size) && !Wraps(size)
    ensures Grown(st.cur, Extend(st, n, Pages(BLOCK_SIZE + Align4(size)), avail).state.cur, Align4(size), avail)
  {
    PagesEnoughIff(size, avail);
    PagesExact(BLOCK_SIZE + Align4(size));
  }

  /** kmalloc answers if and only if the request is neither empty nor too large and a block on the
      list can serve it, or there are pages for it, or their count wraps. */
  lemma MallocAnswersIff(st: State, size: nat, avail: nat)
    ensures Malloc(st, size, avail).ptr != 0 <==>
              0 < size <= 0xFFFF_FFFF - 24 &&
              (Serves(st.blocks, Align4(size)) || Wraps(size) || Room(Align4(size), avail))
  {
    if !Rejected(size) {
      FirstFitIff(st.blocks, Align4(size));
      PagesEnoughIff(size, avail);
    }
  }

  predicate FirstToServe(bs: seq<Block>, i: nat, n: nat) {
    i < |bs| && bs[i].free && n <= bs[i].size && forall j | 0 <= j < i :: !(bs[j].free && n <= bs[j].size)
  }

  /** It answers with a block of the list whenever one can serve, and only otherwise grows the
      heap, at its end and by the least number of pages. */
  lemma MallocChooses(st: State, size: nat, avail: nat)
    requires 0 < size <= 0xFFFF_FFFF - 24
    ensures var r := Malloc(st, size, avail);
            if Serves(st.blocks, Align4(size)) then
              && r.state.cur == st.cur
              && exists i :: 0 <= i < |st.blocks| && FirstToServe(st.blocks, i, Align4(size))
                             && r.ptr == st.blocks[i].Ptr()
            else
              && (r.ptr != 0 ==> r.ptr == st.cur + BLOCK_SIZE)
              && (if Wraps(size) then r.state.cur == st.cur else Grown(st.cur, r.state.cur, Align4(size), avail))
  {
    FirstFitIff(st.blocks, Align4(size));
    PagesCover(size);
    if Serves(st.blocks, Align4(size)) {
      assert FirstToServe(st.blocks, FirstFit(st.blocks, Align4(size)), Align4(size));
    } else if !Wraps(size) {
      GrowsLeast(st, size, Align4(size), avail);
    }
  }

  /** kmalloc_aligned never looks at the list: it answers if and only if there are pages, with the
      end of the heap, all of whose new pages belong to the block. */
  lemma MallocAlignedAnswersIff(st: State, size: nat, avail: nat)
    ensures var r := MallocAligned(st, size, avail);
            && (r.ptr != 0 <==> 0 < size <= 0xFFFF_FFFF - 24 && (Wraps(size) || Room(Align4(size), avail)))
            && (r.ptr != 0 ==> r.ptr == st.cur + BLOCK_SIZE)
            && (0 < size <= 0xFFFF_FFFF - 24 && !Wraps(size) ==> Grown(st.cur, r.state.cur, Align4(size), avail))
            && (r.ptr != 0 && !Wraps(size) && 4096 * avail < WORD ==>
                  r.state.blocks == st.blocks + [Block(st.cur, r.state.cur - st.cur - BLOCK_SIZE, false)])
  {
    if !Rejected(size) {
      PagesEnoughIff(size, avail);
      var pages := Pages(BLOCK_SIZE + Align4(size));
      PagesCover(size);
      if !Wraps(size) { GrowsLeast(st, size, WholeSize(pages), avail); }
      if pages <= avail && 4096 * avail < WORD { WholeSizeExact(pages); }
    }
  }

  // ------------------------------------------------------- what clients hold

  /** Any two blocks of a valid heap lie apart, headers included. */
  lemma BlocksApart(st: State, b: Block, c: Block)
    requires Layout(st) && b in st.blocks && c in st.blocks && b != c
    ensures b.End() <= c.addr || c.End() <= b.addr
  {
    var i :| 0 <= i < |st.blocks| && st.blocks[i] == b;
    var j :| 0 <= j < |st.blocks| && st.blocks[j] == c;
    if i < j { OrderedAt(st, i, j); } else { OrderedAt(st, j, i); }
  }

  lemma FreshAddress(st: State, addr: nat)
    requires Layout(st) && st.cur <= addr
    ensures forall b | b in st.blocks :: b.addr != addr
  {
    forall b | b in st.blocks ensures b.addr != addr {
      var i :| 0 <= i < |st.blocks| && st.blocks[i] == b;
      assert InHeap(st.blocks[i], st.cur);
    }
  }

  lemma LiveAppend(a: seq<Block>, b: seq<Block>)
    ensures Live(a + b) == Live(a) + Live(b)
  {
  }

  lemma LiveParts(a: seq<Block>, b: seq<Block>, c: seq<Block>)
    ensures Live(a + b + c) == Live(a) + Live(b) + Live(c)
  {
    LiveAppend(a + b, c);
    LiveAppend(a, b);
  }

  lemma CarveParts(bs: seq<Block>, i: nat, n: nat)
    requires i < |bs| && Fits(bs[i], n)
    ensures Live(Carve(bs, i, n)) == Live(bs) + {Carve(bs, i, n)[i]}
  {
    var b := bs[i];
    var mid := if n + BLOCK_SIZE + 4 <= b.size
               then [Block(b.addr, n, false), Block(b.Ptr() + n, b.size - n - BLOCK_SIZE, true)]
               else [b.(free := false)];
    assert bs == bs[..i] + [b] + bs[i + 1..];
    assert Carve(bs, i, n) == bs[..i] + mid + bs[i + 1..];
    LiveParts(bs[..i], [b], bs[i + 1..]);
    LiveParts(bs[..i], mid, bs[i + 1..]);
    assert Live(mid) == {mid[0]} && Live([b]) == {};
  }

  /** Addresses identify blocks. */
  lemma BlockUnique(st: State, i: nat, b: Block)
    requires Layout(st) && i < |st.blocks| && b in st.blocks && b.addr == st.blocks[i].addr
    ensures b == st.blocks[i]
  {
    if b != st.blocks[i] { BlocksApart(st, b, st.blocks[i]); }
  }

  lemma CarveLive(st: State, i: nat, n: nat)
    requires Layout(st) && i < |st.blocks| && Fits(st.blocks[i], n)
    ensures var b := Carve(st.blocks, i, n)[i];
            b !in Live(st.blocks) && Live(Carve(st.blocks, i, n)) == Live(st.blocks) + {b}
  {
    CarveParts(st.blocks, i, n);
    var b := Carve(st.blocks, i, n)[i];
    if b in st.blocks { BlockUnique(st, i, b); }
  }

  lemma ExtendLive(st: State, size: nat, pages: nat, avail: nat)
    requires Layout(st) && pages <= avail
    ensures var b := Block(st.cur, size, false);
            b !in Live(st.blocks) && Live(Extend(st, size, pages, avail).state.blocks) == Live(st.blocks) + {b}
  {
    FreshAddress(st, st.cur);
    hide Layout;
    LiveAppend(st.blocks, [Block(st.cur, size, false)]);
  }

  ghost predicate HandsOutBlock(before: seq<Block>, after: seq<Block>, b: Block, size: nat) {
    size <= b.size && b.Ptr() % 4 == 0 && b !in Live(before) && Live(after) == Live(before) + {b}
  }

  /** The blocks that `before` and `after` hold differ by one new block at `ptr`, which is
      aligned and large enough. */
  ghost predicate HandsOut(before: seq<Block>, after: seq<Block>, ptr: nat, size: nat) {
    exists b: Block :: b.Ptr() == ptr && HandsOutBlock(before, after, b, size)
  }

  lemma ExtendHandsOut(st: State, n: nat, pages: nat, avail: nat, size: nat)
    requires Layout(st) && size <= n && pages <= avail
    ensures HandsOut(st.blocks, Extend(st, n, pages, avail).state.blocks, st.cur + BLOCK_SIZE, size)
  {
    hide Layout, Live;
    ExtendLive(st, n, pages, avail);
    CurAligned(st);
    var b := Block(st.cur, n, false);
    assert HandsOutBlock(st.blocks, st.blocks + [b], b, size);
  }

  lemma CarveHandsOut(st: State, i: nat, n: nat, size: nat)
    requires Layout(st) && i < |st.blocks| && Fits(st.blocks[i], n) && size <= n
    ensures HandsOut(st.blocks, Carve(st.blocks, i, n), st.blocks[i].Ptr(), size)
  {
    hide Live, Carve;
    CarveLive(st, i, n);
    CarveServes(st.blocks, i, n);
    assert InHeap(st.blocks[i], st.cur);
    assert HandsOutBlock(st.blocks, Carve(st.blocks, i, n), Carve(st.blocks, i, n)[i], size);
  }

  /** An answered request adds one block to what clients hold; a refused one changes nothing. */
  lemma MallocHandsOut(st: State, size: nat, avail: nat)
    requires Valid(st)
    ensures var r := Malloc(st, size, avail);
            if r.ptr == 0 then r.state.blocks == st.blocks
            else HandsOut(st.blocks, r.state.blocks, r.ptr, size)
  {
    hide Layout, Coalesced, HandsOut, Carve, Align4, Pages;
    if !Rejected(size) {
      var n := Align4(size);
      var i := FirstFit(st.blocks, n);
      Aligned(size);
      if i < |st.blocks| {
        CarveHandsOut(st, i, n, size);
      } else if Pages(BLOCK_SIZE + n) <= avail {
        ExtendHandsOut(st, n, Pages(BLOCK_SIZE + n), avail, size);
      }
    }
  }

  lemma MallocAlignedHandsOut(st: State, size: nat, avail: nat)
    requires Valid(st)
    ensures var r := MallocAligned(st, size, avail);
            if r.ptr == 0 then r.state.blocks == st.blocks
            else HandsOut(st.blocks, r.state.blocks, r.ptr, size)
  {
    hide Layout, Coalesced, HandsOut, Align4, Pages, WholeSize;
    if !Rejected(size) {
      var pages := Pages(BLOCK_SIZE + Align4(size));
      WholeSizeCovers(size);
      if pages <= avail { ExtendHandsOut(st, WholeSize(pages), pages, avail, size); }
    }
  }

  lemma MergeLive(bs: seq<Block>, i: nat)
    requires i + 1 < |bs| && bs[i].free && bs[i + 1].free
    ensures Live(Merge(bs, i)) == Live(bs)
  {
    var r := Merge(bs, i);
    assert bs == bs[..i] + [bs[i], bs[i + 1]] + bs[i + 2..];
    LiveParts(bs[..i], [bs[i], bs[i + 1]], bs[i + 2..]);
    LiveParts(bs[..i], [r[i]], bs[i + 2..]);
  }

  lemma BlocksDistinct(st: State, i: nat, j: nat)
    requires Layout(st) && i < |st.blocks| && j < |st.blocks| && st.blocks[i].addr == st.blocks[j].addr
    ensures i == j
  {
    var a, b := st.blocks[i], st.blocks[j];
    assert a.addr < a.End() && b.addr < b.End();
  }

  lemma MarkLive(st: State, i: nat)
    requires Layout(st) && i < |st.blocks|
    ensures Live(st.blocks[i := st.blocks[i].(free := true)]) == Live(st.blocks) - {st.blocks[i]}
  {
    var bs := st.blocks;
    var b0 := bs[i := bs[i].(free := true)];
    forall j | 0 <= j < |bs| && bs[j] == bs[i] ensures j == i { BlocksDistinct(st, i, j); }
    hide Layout;
    assert bs == bs[..i] + [bs[i]] + bs[i + 1..] && b0 == bs[..i] + [b0[i]] + bs[i + 1..];
    LiveParts(bs[..i], [bs[i]], bs[i + 1..]);
    LiveParts(bs[..i], [b0[i]], bs[i + 1..]);
    assert bs[i] !in bs[..i] && bs[i] !in bs[i + 1..];
  }

  /** kfree takes back the block it is given and no other. */
  lemma ReleaseTakesBack(st: State, i: nat)
    requires Layout(st) && i < |st.blocks|
    ensures Live(Release(st.blocks, i)) == Live(st.blocks) - {st.blocks[i]}
  {
    MarkLive(st, i);
    var b0 := st.blocks[i := st.blocks[i].(free := true)];
    var b1 := MergeNext(b0, i);
    if b1 != b0 { MergeLive(b0, i); }
    if MergePrev(b1, i) != b1 { MergeLive(b1, i - 1); }
  }

  // ------------------------------------------------ round trip, conservation

  /** Freeing what kmalloc just served from the list restores the list exactly. */
  lemma ReleaseUndoesCarve(bs: seq<Block>, i: nat, n: nat)
    requires Coalesced(bs) && i < |bs| && Fits(bs[i], n)
    ensures Release(Carve(bs, i, n), i) == bs
  {
    var r := Carve(bs, i, n);
    assert 0 < i ==> !bs[i - 1].free;
    if |r| == |bs| {
      assert i + 1 < |bs| ==> !bs[i + 1].free;
      assert r[i := r[i].(free := true)] == bs;
    } else {
      var r0 := r[i := r[i].(free := true)];
      assert r0[i + 2..] == bs[i + 1..] && r0[..i] == bs[..i];
      assert MergeNext(r0, i) == bs[..i] + [bs[i]] + bs[i + 1..] == bs;
    }
  }

  lemma TotalSplit(bs: seq<Block>, k: nat)
    requires k <= |bs|
    ensures Total(bs) == Total(bs[..k]) + Total(bs[k..])
  {
    if 0 < k {
      TotalSplit(bs[1..], k - 1);
      assert bs[..k][1..] == bs[1..][..k - 1];
    } else {
      assert bs[0..] == bs;
    }
  }

  lemma TotalPeel(bs: seq<Block>, k: nat)
    requires k < |bs|
    ensures Total(bs[k..]) == BLOCK_SIZE + bs[k].size + Total(bs[k + 1..])
  {
    assert bs[k..][1..] == bs[k + 1..];
  }

  lemma CarveKeepsTotal(bs: seq<Block>, i: nat, n: nat)
    requires i < |bs| && Fits(bs[i], n)
    ensures Total(Carve(bs, i, n)) == Total(bs)
  {
    var r := Carve(bs, i, n);
    var d := |r| - |bs|;
    TotalSplit(bs, i);
    TotalSplit(r, i);
    TotalPeel(bs, i);
    TotalPeel(r, i);
    if d == 1 { TotalPeel(r, i + 1); }
    assert r[..i] == bs[..i] && r[i + 1 + d..] == bs[i + 1..];
  }

  lemma MergeKeepsTotal(bs: seq<Block>, i: nat)
    requires i + 1 < |bs|
    ensures Total(Merge(bs, i)) == Total(bs)
  {
    var r := Merge(bs, i);
    TotalSplit(bs, i);
    TotalSplit(r, i);
    TotalPeel(bs, i);
    TotalPeel(bs, i + 1);
    TotalPeel(r, i);
    assert r[..i] == bs[..i] && r[i + 1..] == bs[i + 2..];
  }

  lemma MarkKeepsTotal(bs: seq<Block>, i: nat, b: Block)
    requires i < |bs| && b.size == bs[i].size
    ensures Total(bs[i := b]) == Total(bs)
  {
    var r := bs[i := b];
    TotalSplit(bs, i);
    TotalSplit(r, i);
    TotalPeel(bs, i);
    TotalPeel(r, i);
    assert r[..i] == bs[..i] && r[i + 1..] == bs[i + 1..];
  }

  /** kfree conserves the bytes the list accounts for. */
  lemma ReleaseKeepsTotal(bs: seq<Block>, i: nat)
    requires i < |bs|
    ensures Total(Release(bs, i)) == Total(bs)
  {
    var b0 := bs[i := bs[i].(free := true)];
    MarkKeepsTotal(bs, i, b0[i]);
    var b1 := MergeNext(b0, i);
    if b1 != b0 { MergeKeepsTotal(b0, i); }
    if MergePrev(b1, i) != b1 { MergeKeepsTotal(b1, i - 1); }
  }

  /** When no block is held, everything has coalesced into one free block. */
  lemma NothingLive(st: State)
    requires Valid(st) && Live(st.blocks) == {} && st.blocks != []
    ensures |st.blocks| == 1 && st.blocks[0].free && BLOCK_SIZE + st.blocks[0].size == Total(st.blocks)
  {
    var bs := st.blocks;
    assert 1 < |bs| ==> !bs[0].free || !bs[0 + 1].free;
    forall i | 0 <= i < |bs| ensures bs[i].free {
      assert bs[i] in bs && bs[i] !in Live(bs);
    }
    assert |bs| == 1 && bs[1..] == [];
  }
}
