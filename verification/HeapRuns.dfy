/** Whole runs of the kernel heap: from heap_init through any sequence of requests. */
module HeapRuns {
  import opened Common
  import opened HeapList

  datatype Op =
    | Alloc(size: nat, avail: nat)
    | AllocAligned(size: nat, avail: nat)
    | Free(ptr: nat)
    | Realloc(ptr: nat, size: nat, avail: nat)

  const INIT_PAGES: nat := 64

  function Init(avail: nat): (r: State) {
    if avail == 0 then State([], HEAP_START)
    else
      var bytes := PageBytes(if avail < INIT_PAGES then avail else INIT_PAGES);
      State([Block(HEAP_START, bytes - BLOCK_SIZE, true)], HEAP_START + bytes)
  }

  /** The index of the block whose payload starts at ptr, or |bs|. */
  function IndexOf(bs: seq<Block>, ptr: nat): (i: nat)
    ensures i <= |bs|
    ensures i < |bs| ==> bs[i].Ptr() == ptr
    ensures forall j | 0 <= j < i :: bs[j].Ptr() != ptr
  {
    if bs == [] || bs[0].Ptr() == ptr then 0 else 1 + IndexOf(bs[1..], ptr)
  }

  /** A null pointer, or one without a header behind it, is ignored.  What a header does that is
      still there although its block was absorbed is the subject of ReleaseTwice. */
  function Release(st: State, ptr: nat): (r: State) {
    var i := IndexOf(st.blocks, ptr);
    if ptr == 0 || i == |st.blocks| then st else st.(blocks := HeapList.Release(st.blocks, i))
  }

  function Resize(st: State, ptr: nat, size: nat, avail: nat): (r: Reply) {
    var i := IndexOf(st.blocks, ptr);
    if ptr == 0 then Malloc(st, size, avail)
    else if size == 0 then Reply(Release(st, ptr), 0)
    else if i == |st.blocks| then Reply(st, 0)
    else if size <= st.blocks[i].size then Reply(st, ptr)
    else
      var r := Malloc(st, size, avail);
      if r.ptr == 0 then r else Reply(Release(r.state, ptr), r.ptr)
  }

  function Step(st: State, op: Op): (r: Reply) {
    match op
    case Alloc(size, avail) => Malloc(st, size, avail)
    case AllocAligned(size, avail) => MallocAligned(st, size, avail)
    case Free(ptr) => Reply(Release(st, ptr), 0)
    case Realloc(ptr, size, avail) => Resize(st, ptr, size, avail)
  }

  /** The requests whose page rounding stays within 32 bits. */
  predicate InRange(op: Op) {
    op.Free? || !Wraps(op.size)
  }

  function Run(st: State, ops: seq<Op>): (r: State)
    decreases |ops|
  {
    if ops == [] then st else Run(Step(st, ops[0]).state, ops[1..])
  }

  // -------------------------------------------------- what the clients think

  /** The pointers clients hold after one call, from the answer alone. */
  function Own(own: set<nat>, op: Op, answer: nat): (r: set<nat>) {
    match op
    case Alloc(_, _) => if answer == 0 then own else own + {answer}
    case AllocAligned(_, _) => if answer == 0 then own else own + {answer}
    case Free(ptr) => own - {ptr}
    case Realloc(ptr, size, _) =>
      if size == 0 then own - {ptr}
      else if answer == 0 then own
      else own - {ptr} + {answer}
  }

  function Owned(st: State, own: set<nat>, ops: seq<Op>): (r: set<nat>)
    decreases |ops|
  {
    if ops == [] then own
    else
      var r := Step(st, ops[0]);
      Owned(r.state, Own(own, ops[0], r.ptr), ops[1..])
  }

  /** A client gives back or resizes only null or a pointer it holds. */
  predicate Allowed(own: set<nat>, op: Op) {
    op.Free? || op.Realloc? ==> op.ptr == 0 || op.ptr in own
  }

  /** Every call of the run is allowed. */
  predicate Disciplined(st: State, own: set<nat>, ops: seq<Op>)
    decreases |ops|
  {
    ops == [] ||
    (var r := Step(st, ops[0]);
     && Allowed(own, ops[0])
     && Disciplined(r.state, Own(own, ops[0], r.ptr), ops[1..]))
  }

  function Ptrs(held: set<Block>): (r: set<nat>) { set b | b in held :: b.Ptr() }

  function LivePtrs(bs: seq<Block>): (r: set<nat>) { Ptrs(Live(bs)) }

  lemma PtrsMinus(held: set<Block>, b: Block)
    requires b in held && forall c | c in held && c != b :: c.Ptr() != b.Ptr()
    ensures Ptrs(held - {b}) == Ptrs(held) - {b.Ptr()}
  {
  }

  // ---------------------------------------------------------------- one step

  lemma InitValid(avail: nat)
    ensures Valid(Init(avail))
    ensures Total(Init(avail).blocks) == Init(avail).cur - HEAP_START
    ensures Live(Init(avail).blocks) == {}
    ensures Init(avail).cur == HEAP_START + 4096 * Min(avail, 64)
  {
    if avail != 0 { assert Init(avail).blocks[1..] == []; }
  }

  lemma ReleaseValid(st: State, ptr: nat)
    requires Valid(st)
    ensures Valid(Release(st, ptr)) && Total(Release(st, ptr).blocks) == Total(st.blocks)
  {
    var i := IndexOf(st.blocks, ptr);
    if i < |st.blocks| {
      ReleaseKeepsValid(st, i);
      ReleaseKeepsTotal(st.blocks, i);
    }
  }

  lemma ExtendTotal(st: State, size: nat, pages: nat, avail: nat)
    ensures Total(st.blocks) <= Total(Extend(st, size, pages, avail).state.blocks)
  {
    if pages <= avail {
      var r := st.blocks + [Block(st.cur, size, false)];
      TotalSplit(r, |st.blocks|);
      assert r[..|st.blocks|] == st.blocks;
    }
  }

  lemma MallocTotal(st: State, size: nat, avail: nat)
    ensures Total(st.blocks) <= Total(Malloc(st, size, avail).state.blocks)
    ensures !Grows(st, size) ==> Total(st.blocks) == Total(Malloc(st, size, avail).state.blocks)
  {
    if !Rejected(size) {
      var n := Align4(size);
      var i := FirstFit(st.blocks, n);
      if i < |st.blocks| {
        CarveKeepsTotal(st.blocks, i, n);
      } else {
        ExtendTotal(st, n, Pages(BLOCK_SIZE + n), avail);
      }
    }
  }

  lemma MallocAlignedTotal(st: State, size: nat, avail: nat)
    ensures Total(st.blocks) <= Total(MallocAligned(st, size, avail).state.blocks)
  {
    if !Rejected(size) {
      var pages := Pages(BLOCK_SIZE + Align4(size));
      ExtendTotal(st, WholeSize(pages), pages, avail);
    }
  }

  lemma StepValid(st: State, op: Op)
    requires Valid(st) && InRange(op) && Allowed(LivePtrs(st.blocks), op)
    ensures Valid(Step(st, op).state)
    ensures Total(st.blocks) <= Total(Step(st, op).state.blocks)
  {
    hide HeapList.Valid, Malloc, MallocAligned, Release, Wraps, Rejected;
    match op
    case Alloc(size, avail) =>
      MallocKeepsValidIff(st, size, avail);
      MallocTotal(st, size, avail);
    case AllocAligned(size, avail) =>
      MallocAlignedKeepsValidIff(st, size, avail);
      MallocAlignedTotal(st, size, avail);
    case Free(ptr) =>
      ReleaseValid(st, ptr);
    case Realloc(ptr, size, avail) =>
      MallocKeepsValidIff(st, size, avail);
      MallocTotal(st, size, avail);
      ReleaseValid(st, ptr);
      ReleaseValid(Malloc(st, size, avail).state, ptr);
  }

  lemma HandsOutPtr(st: State, after: seq<Block>, ptr: nat, size: nat)
    requires Layout(st) && HandsOut(st.blocks, after, ptr, size)
    requires exists cur :: Layout(State(after, cur))
    ensures LivePtrs(after) == LivePtrs(st.blocks) + {ptr} && ptr !in LivePtrs(st.blocks) && ptr != 0
  {
    var b: Block :| b.Ptr() == ptr && HandsOutBlock(st.blocks, after, b, size);
    var cur :| Layout(State(after, cur));
    forall c | c in Live(st.blocks) ensures c.Ptr() != ptr {
      assert c in Live(after) && b in Live(after);
      BlocksApart(State(after, cur), b, c);
    }
    assert forall c | c in Live(after) :: c == b || c in Live(st.blocks);
  }

  lemma PtrIndexed(st: State, ptr: nat)
    requires Layout(st) && ptr in LivePtrs(st.blocks)
    ensures var i := IndexOf(st.blocks, ptr);
            ptr != 0 && i < |st.blocks| && !st.blocks[i].free
  {
    var b :| b in Live(st.blocks) && b.Ptr() == ptr;
    var k :| 0 <= k < |st.blocks| && st.blocks[k] == b;
    BlockUnique(st, IndexOf(st.blocks, ptr), b);
  }

  lemma ReleasePtrs(st: State, ptr: nat)
    requires Valid(st) && ptr in LivePtrs(st.blocks)
    ensures LivePtrs(Release(st, ptr).blocks) == LivePtrs(st.blocks) - {ptr}
  {
    var i := IndexOf(st.blocks, ptr);
    PtrIndexed(st, ptr);
    var b := st.blocks[i];
    ReleaseTakesBack(st, i);
    forall c | c in Live(st.blocks) && c != b ensures c.Ptr() != b.Ptr() { BlocksApart(st, b, c); }
    hide HeapList.Release, HeapList.Valid;
    PtrsMinus(Live(st.blocks), b);
  }

  lemma MallocOwns(st: State, size: nat, avail: nat)
    requires Valid(st) && !Wraps(size)
    ensures var r := Malloc(st, size, avail);
            && Valid(r.state)
            && LivePtrs(r.state.blocks) == LivePtrs(st.blocks) + (if r.ptr == 0 then {} else {r.ptr})
            && (r.ptr != 0 ==> r.ptr !in LivePtrs(st.blocks))
  {
    var r := Malloc(st, size, avail);
    MallocKeepsValidIff(st, size, avail);
    MallocHandsOut(st, size, avail);
    if r.ptr != 0 {
      assert Layout(State(r.state.blocks, r.state.cur));
      HandsOutPtr(st, r.state.blocks, r.ptr, size);
    }
  }

  lemma MallocAlignedOwns(st: State, size: nat, avail: nat)
    requires Valid(st) && !Wraps(size)
    ensures var r := MallocAligned(st, size, avail);
            && LivePtrs(r.state.blocks) == LivePtrs(st.blocks) + (if r.ptr == 0 then {} else {r.ptr})
            && (r.ptr != 0 ==> r.ptr !in LivePtrs(st.blocks))
  {
    var r := MallocAligned(st, size, avail);
    MallocAlignedKeepsValidIff(st, size, avail);
    MallocAlignedHandsOut(st, size, avail);
    if r.ptr != 0 {
      assert Layout(State(r.state.blocks, r.state.cur));
      HandsOutPtr(st, r.state.blocks, r.ptr, size);
    }
  }

  lemma ResizeOwns(st: State, ptr: nat, size: nat, avail: nat)
    requires Valid(st) && !Wraps(size) && ptr in LivePtrs(st.blocks)
    ensures var r := Resize(st, ptr, size, avail);
            LivePtrs(r.state.blocks) == Own(LivePtrs(st.blocks), Realloc(ptr, size, avail), r.ptr)
  {
    hide Layout, Coalesced, Malloc, Release, LivePtrs, Wraps, IndexOf;
    PtrIndexed(st, ptr);
    MallocOwns(st, size, avail);
    ReleasePtrs(st, ptr);
    var m := Malloc(st, size, avail);
    ReleasePtrs(m.state, ptr);
  }

  lemma NullNotLive(bs: seq<Block>)
    ensures 0 !in LivePtrs(bs)
  {
  }

  lemma StepOwns(st: State, op: Op)
    requires Valid(st) && InRange(op) && Allowed(LivePtrs(st.blocks), op)
    ensures LivePtrs(Step(st, op).state.blocks) == Own(LivePtrs(st.blocks), op, Step(st, op).ptr)
  {
    match op
    case Alloc(size, avail) => MallocOwns(st, size, avail);
    case AllocAligned(size, avail) => MallocAlignedOwns(st, size, avail);
    case Free(ptr) =>
      NullNotLive(st.blocks);
      if ptr != 0 { ReleasePtrs(st, ptr); }
    case Realloc(ptr, size, avail) =>
      NullNotLive(st.blocks);
      if ptr == 0 { MallocOwns(st, size, avail); } else { ResizeOwns(st, ptr, size, avail); }
  }

  // ------------------------------------------------------------- every run

  /** Every run in which clients give back only what they hold keeps the list ordered, apart, in
      bounds and coalesced; the bytes it accounts for never shrink; and when every block is back,
      one free block holds them all. */
  lemma {:induction false} RunSafe(st: State, ops: seq<Op>)
    requires Valid(st) && (forall op | op in ops :: InRange(op))
    requires Disciplined(st, LivePtrs(st.blocks), ops)
    ensures var end := Run(st, ops);
            && Valid(end)
            && Total(st.blocks) <= Total(end.blocks)
            && (Live(end.blocks) == {} && end.blocks != [] ==>
                  |end.blocks| == 1 && end.blocks[0].free && BLOCK_SIZE + end.blocks[0].size == Total(end.blocks))
    decreases |ops|
  {
    if ops == [] {
      if Live(st.blocks) == {} && st.blocks != [] { NothingLive(st); }
    } else {
      StepValid(st, ops[0]);
      StepOwns(st, ops[0]);
      RunSafe(Step(st, ops[0]).state, ops[1..]);
    }
  }

  /** Over every run in which clients give back only what they hold, the pointers they believe
      they hold are exactly the live blocks of the list: none is lost, reused or invented. */
  lemma {:induction false} RunOwns(st: State, ops: seq<Op>)
    requires Valid(st) && (forall op | op in ops :: InRange(op))
    requires Disciplined(st, LivePtrs(st.blocks), ops)
    ensures Owned(st, LivePtrs(st.blocks), ops) == LivePtrs(Run(st, ops).blocks)
    decreases |ops|
  {
    if ops != [] {
      StepValid(st, ops[0]);
      StepOwns(st, ops[0]);
      RunOwns(Step(st, ops[0]).state, ops[1..]);
    }
  }

  /** krealloc of null is kmalloc, to size 0 is kfree, and of a pointer without a header is refused. */
  lemma ResizeSpecial(st: State, ptr: nat, size: nat, avail: nat)
    ensures Resize(st, 0, size, avail) == Malloc(st, size, avail)
    ensures ptr != 0 && size == 0 ==> Resize(st, ptr, size, avail) == Reply(Release(st, ptr), 0)
    ensures ptr != 0 && IndexOf(st.blocks, ptr) == |st.blocks| ==> Resize(st, ptr, size, avail) == Reply(st, 0)
  {
  }

  /** krealloc keeps the block in place exactly when it is large enough, and otherwise moves it
      exactly when kmalloc can serve the new size. */
  lemma ResizeAnswersIff(st: State, ptr: nat, size: nat, avail: nat)
    requires Valid(st) && ptr in LivePtrs(st.blocks) && 0 < size
    ensures var i, r := IndexOf(st.blocks, ptr), Resize(st, ptr, size, avail);
            && i < |st.blocks|
            && (size <= st.blocks[i].size ==> r == Reply(st, ptr))
            && (st.blocks[i].size < size ==>
                  && (r.ptr != 0 <==>
                        size <= 0xFFFF_FFFF - 24
                        && (Serves(st.blocks, Align4(size)) || Wraps(size) || Room(Align4(size), avail)))
                  && (!Wraps(size) ==> r.ptr != ptr))
  {
    PtrIndexed(st, ptr);
    MallocAnswersIff(st, size, avail);
    if !Wraps(size) { MallocOwns(st, size, avail); }
  }

  /** A request served from the list and given back leaves the heap as it was. */
  lemma FreeUndoesMalloc(st: State, size: nat, avail: nat)
    requires Valid(st) && !Rejected(size) && !Grows(st, size)
    ensures var r := Malloc(st, size, avail); Release(r.state, r.ptr) == st
  {
    var n := Align4(size);
    var i := FirstFit(st.blocks, n);
    var r := Malloc(st, size, avail);
    CarveKeepsValid(st, i, n);
    var k := IndexOf(r.state.blocks, r.ptr);
    assert i < |r.state.blocks| && r.state.blocks[i].Ptr() == r.ptr;
    assert k < |r.state.blocks|;
    BlocksDistinct(r.state, i, k);
    ReleaseUndoesCarve(st.blocks, i, n);
  }

  /** A second kfree of a block that is still on the list changes nothing. */
  lemma SecondFreeHarmless(st: State, i: nat)
    requires Coalesced(st.blocks) && i < |st.blocks| && st.blocks[i].free
    ensures HeapList.Release(st.blocks, i) == st.blocks
  {
    assert st.blocks[i := st.blocks[i].(free := true)] == st.blocks;
    if 0 < i { NotBothFree(st.blocks, i - 1); }
  }

  /** What the first of two frees leaves: block i free, or block i - 1 grown by it. */
  lemma Released(st: State, i: nat)
    requires Valid(st) && i < |st.blocks| && st.cur <= WORD
    ensures var r, bs := HeapList.Release(st.blocks, i), st.blocks;
            && Valid(st.(blocks := r))
            && (if Absorbs(bs, i) then r[i - 1].free && r[i - 1].size < WORD else r[i].free)
            && BLOCK_SIZE + LeftSize(bs, i) < WORD
            && LeftSize(bs, i) % 4 == 0
  {
    var bs := st.blocks;
    ReleaseKeepsValid(st, i);
    MarkKeepsLayout(st, i);
    var b0 := bs[i := bs[i].(free := true)];
    if i + 1 < |bs| && bs[i + 1].free { MergeKeepsLayout(st.(blocks := b0), i); }
    var b1 := MergeNext(b0, i);
    assert InHeap(b1[i], st.cur);
    assert b1[..i] == b0[..i];
    var r := HeapList.Release(bs, i);
    if Absorbs(bs, i) { assert b0[..i][i - 1] == bs[i - 1]; assert InHeap(r[i - 1], st.cur); }
  }

  lemma WrapsElsewhere(x: nat, y: nat)
    requires x < 0x1_0000_0000 && 0 < y < 0x1_0000_0000
    ensures (x + y) % 0x1_0000_0000 != x
  {
  }

  lemma SecondCoalesced(st: State)
    requires Valid(st)
    ensures Coalesced(st.blocks)
  {
  }

  /** A second kfree of the same pointer is harmless if and only if the first did not let a free
      predecessor absorb the block; otherwise the predecessor grows by the block again. */
  lemma SecondFreeHarmlessIff(st: State, i: nat)
    requires Valid(st) && i < |st.blocks| && st.cur <= WORD
    ensures ReleaseTwice(st.blocks, i) == HeapList.Release(st.blocks, i) <==> !Absorbs(st.blocks, i)
  {
    var r, bs := HeapList.Release(st.blocks, i), st.blocks;
    Released(st, i);
    hide Valid, HeapList.Release, LeftSize;
    if Absorbs(bs, i) {
      var x, y := r[i - 1].size, BLOCK_SIZE + LeftSize(bs, i);
      assert (x + y) % 0x1_0000_0000 != x by { WrapsElsewhere(x, y); }
    } else {
      SecondCoalesced(st.(blocks := r));
      SecondFreeHarmless(st.(blocks := r), i);
    }
  }

  /** Where the memory behind block j that the list may use ends. */
  function Limit(st: State, j: nat): (a: nat) {
    if j + 1 < |st.blocks| then st.blocks[j + 1].addr else st.cur
  }

  lemma EndsBefore(st: State, j: nat)
    requires Layout(st) && j < |st.blocks|
    ensures st.blocks[j].End() <= Limit(st, j)
  {
    assert InHeap(st.blocks[j], st.cur);
  }

  lemma ReabsorbKeepsCoalesced(bs: seq<Block>, j: nat, size: nat)
    requires Coalesced(bs) && j < |bs|
    ensures Coalesced(Reabsorb(bs, j, size))
  {
    var r := Reabsorb(bs, j, size);
    forall k | 0 <= k < |r| - 1 ensures !(r[k].free && r[k + 1].free) { NotBothFree(bs, k); }
  }

  lemma SumAligned(x: nat, y: nat)
    requires x % 4 == 0 && y % 4 == 0
    ensures (x + BLOCK_SIZE + y) % 0x1_0000_0000 % 4 == 0
  {
    var n := x + BLOCK_SIZE + y;
    assert n % 0x1_0000_0000 == n - 0x1_0000_0000 * (n / 0x1_0000_0000);
  }

  lemma GrownKeepsLayout(st: State, j: nat, b: Block)
    requires Layout(st) && j < |st.blocks| && b.addr == st.blocks[j].addr && b.size % 4 == 0 && b.End() <= Limit(st, j)
    ensures Layout(st.(blocks := st.blocks[j := b]))
  {
    var bs, r := st.blocks, st.blocks[j := b];
    assert InHeap(bs[j], st.cur);
    if j + 1 < |bs| { assert InHeap(bs[j + 1], st.cur); }
    forall k | 0 <= k < |r| ensures InHeap(r[k], st.cur) { assert InHeap(bs[k], st.cur); }
    forall i, k | 0 <= i < k < |r| ensures r[i].End() <= r[k].addr {
      assert bs[i].End() <= bs[k].addr;
      if i == j && j + 1 < k { assert bs[j + 1].End() <= bs[k].addr; }
    }
  }

  lemma ReabsorbKeepsValidIff(st: State, j: nat, size: nat)
    requires Valid(st) && j < |st.blocks| && size % 4 == 0
    ensures Valid(st.(blocks := Reabsorb(st.blocks, j, size)))
        <==> Reabsorb(st.blocks, j, size)[j].End() <= Limit(st, j)
  {
    var r := Reabsorb(st.blocks, j, size);
    assert InHeap(st.blocks[j], st.cur);
    hide Layout, Coalesced;
    ReabsorbKeepsCoalesced(st.blocks, j, size);
    SumAligned(st.blocks[j].size, size);
    if r[j].End() <= Limit(st, j) { GrownKeepsLayout(st, j, r[j]); }
    if Valid(st.(blocks := r)) { EndsBefore(st.(blocks := r), j); }
  }

  /** The heap stays well-formed over it only if a gap behind the predecessor takes the block a
      second time. */
  lemma SecondFreeKeepsValidIff(st: State, i: nat)
    requires Valid(st) && i < |st.blocks| && st.cur <= WORD && Absorbs(st.blocks, i)
    ensures var r, twice := HeapList.Release(st.blocks, i), ReleaseTwice(st.blocks, i);
            Valid(st.(blocks := twice)) <==> twice[i - 1].End() <= Limit(st.(blocks := r), i - 1)
  {
    Released(st, i);
    ReabsorbKeepsValidIff(st.(blocks := HeapList.Release(st.blocks, i)), i - 1, LeftSize(st.blocks, i));
  }

  /** The heap after heap_init and two requests of eight bytes. */
  lemma TwoBlocks()
    ensures var a := Malloc(Init(64), 8, 0);
            var b := Malloc(a.state, 8, 0);
            && a.ptr == HEAP_START + 20 && b.ptr == HEAP_START + 48
            && b.state == State([Block(HEAP_START, 8, false), Block(HEAP_START + 28, 8, false),
                                 Block(HEAP_START + 56, 262068, true)], HEAP_START + 0x4_0000)
  {
    var a := Malloc(Init(64), 8, 0);
    assert a.state.blocks == [Block(HEAP_START, 8, false), Block(HEAP_START + 28, 262096, true)];
    assert a.state.blocks[1..] == [Block(HEAP_START + 28, 262096, true)];
    assert FirstFit(a.state.blocks, 8) == 1;
  }

  lemma FreedTwice(p: Block, q: Block, rest: Block)
    requires p.free && !q.free && rest.free
    ensures var size := q.size + BLOCK_SIZE + rest.size;
            && HeapList.Release([p, q, rest], 1) == [Block(p.addr, p.size + BLOCK_SIZE + size, true)]
            && LeftSize([p, q, rest], 1) == size
  {
    var marked := [p, q, rest][1 := q.(free := true)];
    assert marked == [p, q.(free := true), rest];
    assert MergeNext(marked, 1) == [p, Block(q.addr, q.size + BLOCK_SIZE + rest.size, true)];
  }

  lemma FirstOfTwo(bs: seq<Block>)
    requires |bs| == 3 && !bs[1].free
    ensures HeapList.Release(bs, 0) == [bs[0].(free := true), bs[1], bs[2]]
  {
  }

  /** Both blocks freed in order, and the second once more: the one free block then claims
      twice the memory there is. */
  lemma SecondFreeExample()
    ensures var a := Malloc(Init(64), 8, 0);
            var b := Malloc(a.state, 8, 0);
            var st := Release(b.state, a.ptr);
            && IndexOf(st.blocks, b.ptr) == 1 && Absorbs(st.blocks, 1)
            && Valid(st) && Release(st, b.ptr).blocks == [Block(HEAP_START, 262124, true)]
            && ReleaseTwice(st.blocks, 1) == [Block(HEAP_START, 524240, true)]
            && !Valid(st.(blocks := ReleaseTwice(st.blocks, 1)))
  {
    hide Malloc, Valid, Layout, HeapList.Release, LeftSize;
    TwoBlocks();
    InitValid(64);
    var a := Malloc(Init(64), 8, 0);
    MallocKeepsValidIff(Init(64), 8, 0);
    MallocKeepsValidIff(a.state, 8, 0);
    var b := Malloc(a.state, 8, 0);
    ReleaseValid(b.state, a.ptr);
    FirstOfTwo(b.state.blocks);
    var st := Release(b.state, a.ptr);
    FreedTwice(st.blocks[0], st.blocks[1], st.blocks[2]);
    assert st.blocks == [st.blocks[0], st.blocks[1], st.blocks[2]] && st.blocks[1..][0] == st.blocks[1];
    SecondFreeKeepsValidIff(st, 1);
  }

  /** The smallest request whose page rounding wraps: kmalloc answers with a pointer although
      no page was mapped for it, and the new block reaches past the end of the heap. */
  lemma GrowthWrapsExample()
    ensures var st := Init(1);
            var r := Malloc(st, 0xFFFF_EFED, 0);
            Valid(st) && r.ptr == st.cur + BLOCK_SIZE && r.state.cur == st.cur && !Valid(r.state)
    ensures !Wraps(0xFFFF_EFEC)
  {
    var st := Init(1);
    InitValid(1);
    assert FirstFit(st.blocks, Align4(0xFFFF_EFED)) == 1;
    MallocKeepsValidIff(st, 0xFFFF_EFED, 0);
  }
}
