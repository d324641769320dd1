/** The kernel heap of src/memory/heap.c over a byte memory: block headers live in the memory
    they manage, and every list operation is a handful of stores into those headers. */
module Heap {
  import opened Common
  import opened HeapList
  import opened Memory
  import opened HeapHeaders
  import HeapRuns

  class KernelHeap {
    const ram: array<byte>
    var head: nat
    var cur: nat
    ghost var blocks: seq<Block>

    ghost function Abstract(): (r: State)
      reads this
    {
      State(blocks, cur)
    }

    ghost predicate InMemory()
      reads this, ram
    {
      ram.Length == WORD && PageAligned(cur) && Represents(ram[..], head, blocks)
    }

    ghost predicate Valid()
      reads this, ram
    {
      InMemory() && HeapList.Valid(Abstract())
    }

    /** The statics before boot, over the address space `memory`. */
    constructor (memory: array<byte>)
      ensures ram == memory && head == 0 && cur == 0 && blocks == []
    {
      ram, head, cur, blocks := memory, 0, 0, [];
    }

    method Store32(a: nat, v: nat)
      requires a + 4 <= ram.Length && v < WORD
      modifies ram
      ensures ram[..] == Put32(old(ram[..]), a, v)
    {
      ram[a], ram[a + 1] := v % 0x100, v / 0x100 % 0x100;
      ram[a + 2], ram[a + 3] := v / 0x1_0000 % 0x100, v / 0x100_0000;
    }

    method SetSize(ghost bs: seq<Block>, ghost i: nat, a: nat, v: nat)
      requires Spaced(bs, ram.Length) && i < |bs| && a == bs[i].addr && v < WORD
      modifies ram
      ensures Headers(ram[..], bs) == old(Headers(ram[..], bs)[i := Headers(ram[..], bs)[i].(size := v)])
      ensures HeadersOnly(old(ram[..]), ram[..], bs)
    {
      SetSizeEffect(ram[..], a, v);
      Store32(a, v);
      HeadersKept(old(ram[..]), ram[..], bs, i);
    }

    method SetFree(ghost bs: seq<Block>, ghost i: nat, a: nat, f: bool)
      requires Spaced(bs, ram.Length) && i < |bs| && a == bs[i].addr
      modifies ram
      ensures Headers(ram[..], bs) == old(Headers(ram[..], bs)[i := Headers(ram[..], bs)[i].(free := f)])
      ensures HeadersOnly(old(ram[..]), ram[..], bs)
    {
      SetFreeEffect(ram[..], a, f);
      ram[a + 4] := if f then 1 else 0;
      assert ram[..] == old(ram[..])[a + 4 := if f then 1 else 0];
      HeadersKept(old(ram[..]), ram[..], bs, i);
    }

    method SetNext(ghost bs: seq<Block>, ghost i: nat, a: nat, v: nat)
      requires Spaced(bs, ram.Length) && i < |bs| && a == bs[i].addr && v < WORD
      modifies ram
      ensures Headers(ram[..], bs) == old(Headers(ram[..], bs)[i := Headers(ram[..], bs)[i].(next := v)])
      ensures HeadersOnly(old(ram[..]), ram[..], bs)
    {
      SetNextEffect(ram[..], a, v);
      Store32(a + 8, v);
      HeadersKept(old(ram[..]), ram[..], bs, i);
    }

    method SetPrev(ghost bs: seq<Block>, ghost i: nat, a: nat, v: nat)
      requires Spaced(bs, ram.Length) && i < |bs| && a == bs[i].addr && v < WORD
      modifies ram
      ensures Headers(ram[..], bs) == old(Headers(ram[..], bs)[i := Headers(ram[..], bs)[i].(prev := v)])
      ensures HeadersOnly(old(ram[..]), ram[..], bs)
    {
      SetPrevEffect(ram[..], a, v);
      Store32(a + 12, v);
      HeadersKept(old(ram[..]), ram[..], bs, i);
    }

    method SetMagic(ghost bs: seq<Block>, ghost i: nat, a: nat)
      requires Spaced(bs, ram.Length) && i < |bs| && a == bs[i].addr
      modifies ram
      ensures Headers(ram[..], bs) == old(Headers(ram[..], bs)[i := Headers(ram[..], bs)[i].(magic := MAGIC)])
      ensures HeadersOnly(old(ram[..]), ram[..], bs)
    {
      SetMagicEffect(ram[..], a, MAGIC);
      Store32(a + 16, MAGIC);
      HeadersKept(old(ram[..]), ram[..], bs, i);
    }

    /** The five stores that set up a new block. */
    method NewHeader(ghost bs: seq<Block>, ghost i: nat, a: nat, h: Header)
      requires Spaced(bs, ram.Length) && i < |bs| && a == bs[i].addr
      requires h.size < WORD && h.next < WORD && h.prev < WORD && h.magic == MAGIC
      modifies ram
      ensures Headers(ram[..], bs) == old(Headers(ram[..], bs)[i := h])
      ensures HeadersOnly(old(ram[..]), ram[..], bs)
    {
      hide OutsideHeaders, Spaced, HeaderAt;
      SetSize(bs, i, a, h.size);
      SetFree(bs, i, a, h.free);
      SetMagic(bs, i, a);
      SetNext(bs, i, a, h.next);
      SetPrev(bs, i, a, h.prev);
    }

    /** heap_init: map up to 64 pages and put them in one free block. */
    method Init(avail: nat)
      requires ram.Length == WORD
      modifies this, ram
      ensures Valid() && Abstract() == HeapRuns.Init(avail)
    {
      cur, head, blocks := HEAP_START, 0, [];
      var mapped := 0;
      for i := 0 to 64
        invariant mapped == i <= avail && cur == HEAP_START + PageBytes(mapped)
        invariant head == 0 && blocks == []
      {
        if i == avail { break; }
        cur := cur + 4096;
        mapped := mapped + 1;
      }
      HeapRuns.InitValid(avail);
      if mapped == 0 { return; }
      ghost var b := Block(HEAP_START, PageBytes(mapped) - BLOCK_SIZE, true);
      NewHeader([b], 0, HEAP_START, Header(mapped * 4096 - BLOCK_SIZE, true, 0, 0, MAGIC));
      head := HEAP_START;
      blocks := [b];
    }

    // -------------------------------------------------------- find_free_block

    method FindFreeBlock(size: nat) returns (block: nat, ghost i: nat)
      requires Valid()
      ensures block == AddrAt(blocks, FirstFit(blocks, size))
      ensures i == FirstFit(blocks, size)
    {
      block, i := head, 0;
      while block != 0
        invariant i <= |blocks| && block == AddrAt(blocks, i)
        invariant forall j | 0 <= j < i :: !Fits(blocks[j], size)
        decreases |blocks| - i
      {
        var h := HeaderAt(ram[..], block);
        assert h == Headers(ram[..], blocks)[i] == Links(blocks)[i];
        if h.free && size <= h.size { return; }
        block, i := h.next, i + 1;
      }
      NullEndsList(Abstract(), i);
    }

    // ---------------------------------------------------------------- kmalloc

    method ShrinkStores(block: nat, newBlock: nat, size: nat, ghost r: seq<Block>, ghost i: nat)
      requires Spaced(r, ram.Length) && i < |r| && block == r[i].addr && newBlock < WORD && size < WORD
      modifies ram
      ensures Headers(ram[..], r) == Shrunk(old(Headers(ram[..], r)), i, newBlock, size)
      ensures HeadersOnly(old(ram[..]), ram[..], r)
    {
      hide OutsideHeaders, Spaced, HeaderAt;
      SetNext(r, i, block, newBlock);
      SetSize(r, i, block, size);
      SetFree(r, i, block, false);
    }

    method InsertStores(block: nat, newBlock: nat, h: Header, size: nat, ghost r: seq<Block>, ghost i: nat)
      requires Spaced(r, ram.Length) && ram.Length == WORD && i + 1 < |r|
      requires size + BLOCK_SIZE <= h.size < WORD && h.next < WORD
      requires block == r[i].addr < WORD && newBlock == r[i + 1].addr < WORD
      requires if i + 2 < |r| then h.next == r[i + 2].addr != 0 else h.next == 0
      modifies ram
      ensures Headers(ram[..], r) == Inserted(old(Headers(ram[..], r)), i, block, newBlock, h, size)
      ensures HeadersOnly(old(ram[..]), ram[..], r)
    {
      hide OutsideHeaders, Spaced, HeaderAt;
      NewHeader(r, i + 1, newBlock, Header(h.size - size - BLOCK_SIZE, true, h.next, block, MAGIC));
      if h.next != 0 { SetPrev(r, i + 2, h.next, newBlock); }
    }

    method SplitStores(block: nat, newBlock: nat, h: Header, size: nat, ghost r: seq<Block>, ghost i: nat)
      requires Spaced(r, ram.Length) && ram.Length == WORD && i + 1 < |r|
      requires size + BLOCK_SIZE <= h.size < WORD && h.next < WORD
      requires block == r[i].addr && newBlock == r[i + 1].addr
      requires if i + 2 < |r| then h.next == r[i + 2].addr != 0 else h.next == 0
      modifies ram
      ensures Headers(ram[..], r) == SplitAll(old(Headers(ram[..], r)), i, block, newBlock, h, size)
      ensures HeadersOnly(old(ram[..]), ram[..], r)
    {
      assert r[i].addr < WORD && r[i + 1].addr < WORD;
      hide OutsideHeaders, Spaced, HeaderAt, Inserted, Shrunk;
      InsertStores(block, newBlock, h, size, r, i);
      ShrinkStores(block, newBlock, size, r, i);
    }

    lemma SplitSetup(i: nat, size: nat)
      requires Valid() && cur < WORD && i < |blocks|
      requires size % 4 == 0 && size + BLOCK_SIZE + 4 <= blocks[i].size
      ensures var r := Carve(blocks, i, size);
              && Spaced(r, ram.Length) && SplitReady(Headers(ram[..], r), blocks, i)
              && SplitAll(Headers(ram[..], r), i, blocks[i].addr, blocks[i].Ptr() + size, Linked(blocks, i), size)
                 == Links(r)
    {
      hide Carve, Links, SplitAll, SplitReady, Spaced;
      SplitKeepsLayout(Abstract(), i, size);
      LayoutSpaced(State(Carve(blocks, i, size), cur), ram.Length);
      SplitHeaders(ram[..], blocks, i, size);
      SplitLinks(Headers(ram[..], Carve(blocks, i, size)), blocks, i, size);
    }

    lemma SplitFacts(i: nat)
      requires Valid() && cur < WORD && i < |blocks|
      ensures blocks[i].addr + BLOCK_SIZE <= WORD && HeaderAt(ram[..], blocks[i].addr) == Linked(blocks, i)
      ensures blocks[i].addr < WORD && blocks[i].size < WORD && AddrAt(blocks, i + 1) < WORD
      ensures AddrAt(blocks, i + 1) == 0 <==> i + 1 == |blocks|
    {
      NullEndsList(Abstract(), i + 1);
      assert InHeap(blocks[i], cur);
      if i + 1 < |blocks| { assert InHeap(blocks[i + 1], cur); }
      HeaderIn(ram[..], blocks, i);
      LinksAt(blocks, i);
    }

    method Split(block: nat, ghost i: nat, size: nat)
      requires Valid() && cur < WORD && i < |blocks| && block == blocks[i].addr
      requires size % 4 == 0 && size + BLOCK_SIZE + 4 <= blocks[i].size
      modifies this`blocks, ram
      ensures blocks == Carve(old(blocks), i, size) && InMemory()
      ensures HeadersOnly(old(ram[..]), ram[..], blocks)
    {
      hide Carve, SplitAll, SplitReady, OutsideHeaders;
      ghost var r := Carve(blocks, i, size);
      SplitAt(blocks, i, size);
      SplitSetup(i, size);
      SplitFacts(i);
      var h := HeaderAt(ram[..], block);
      hide HeapList.Valid, HeaderAt, Headers, Links, Spaced;
      SplitStores(block, block + BLOCK_SIZE + size, h, size, r, i);
      assert AddrAt(r, 0) == AddrAt(blocks, 0);
      blocks := r;
    }

    // ------------------------------------------------------------ expand_heap

    method Memset(a: nat, c: byte, n: nat)
      requires a + n <= ram.Length
      modifies ram
      ensures forall k | 0 <= k < ram.Length :: ram[k] == if a <= k < a + n then c else old(ram[k])
    {
      for d := 0 to n
        invariant forall k | 0 <= k < ram.Length :: ram[k] == if a <= k < a + d then c else old(ram[k])
      {
        ram[a + d] := c;
      }
    }

    /** The page loop shared by expand_heap and kmalloc_aligned. */
    method MapPages(pages: nat, avail: nat) returns (ok: bool)
      requires ram.Length == WORD && cur + PageBytes(avail) <= WORD
      modifies this`cur, ram
      ensures ok <==> pages <= avail
      ensures cur == old(cur) + PageBytes(if pages <= avail then pages else avail)
      ensures forall k | 0 <= k < WORD :: ram[k] == if old(cur) <= k < cur then 0 else old(ram[k])
    {
      for i := 0 to pages
        invariant i <= avail && cur == old(cur) + PageBytes(i)
        invariant forall k | 0 <= k < WORD :: ram[k] == if old(cur) <= k < cur then 0 else old(ram[k])
      {
        if i == avail { return false; }
        Memset(cur, 0, 4096);
        cur := cur + 4096;
      }
      return true;
    }

    method LastBlock(ghost low: nat, ghost r: seq<Block>) returns (last: nat)
      requires blocks != [] && Spaced(r, ram.Length) && |blocks| < |r| && r[..|blocks|] == blocks
      requires forall i | 0 <= i < |blocks| :: Headers(ram[..], r)[i] == Linked(blocks, i)
      requires Layout(State(blocks, low)) && head == AddrAt(blocks, 0)
      ensures last == AddrAt(blocks, |blocks| - 1)
    {
      last := head;
      ghost var i := 0;
      while HeaderAt(ram[..], last).next != 0
        invariant 0 <= i < |blocks| && last == blocks[i].addr == r[i].addr
        decreases |blocks| - i
      {
        NullEndsList(State(blocks, low), i + 1);
        assert Headers(ram[..], r)[i] == Linked(blocks, i);
        last, i := HeaderAt(ram[..], last).next, i + 1;
        assert r[i] == r[..|blocks|][i];
      }
      NullEndsList(State(blocks, low), i + 1);
      assert Headers(ram[..], r)[i] == Linked(blocks, i);
    }

    method LinkLast(last: nat, base: nat, ghost r: seq<Block>, ghost n: nat)
      requires Spaced(r, ram.Length) && 0 < n < |r| && last == r[n - 1].addr < WORD && base == r[n].addr < WORD
      modifies ram
      ensures Headers(ram[..], r) == LinkedBehind(old(Headers(ram[..], r)), n, last, base)
      ensures HeadersOnly(old(ram[..]), ram[..], r)
    {
      hide OutsideHeaders, Spaced, HeaderAt;
      SetNext(r, n - 1, last, base);
      SetPrev(r, n, base, last);
    }

    method LinkToList(base: nat, ghost low: nat, ghost r: seq<Block>)
      requires Layout(State(blocks, low)) && blocks != [] && head == AddrAt(blocks, 0) && low <= WORD
      requires Spaced(r, ram.Length) && |r| == |blocks| + 1 && r[..|blocks|] == blocks
      requires base == r[|blocks|].addr < WORD
      requires Headers(ram[..], r)[..|blocks|] == Links(blocks)
      modifies ram
      ensures Headers(ram[..], r)
           == LinkedBehind(old(Headers(ram[..], r)), |blocks|, AddrAt(blocks, |blocks| - 1), base)
      ensures HeadersOnly(old(ram[..]), ram[..], r)
    {
      ghost var n, hs := |blocks|, Headers(ram[..], r);
      assert InHeap(blocks[n - 1], low) && r[n - 1] == r[..n][n - 1];
      hide Layout, Links, Linked, HeaderAt, OutsideHeaders, LinkedBehind, Spaced, Headers;
      LinksBelow(blocks, hs);
      var last := LastBlock(low, r);
      LinkLast(last, base, r, n);
    }

    /** The stores that set up a block at `base` and link it to the end of the list. */
    method AppendStores(base: nat, size: nat, ghost low: nat, ghost r: seq<Block>)
      requires Layout(State(blocks, low)) && head == AddrAt(blocks, 0) && Spaced(r, ram.Length)
      requires |r| == |blocks| + 1 && r[..|blocks|] == blocks && r[|blocks|] == Block(base, size, false)
      requires Headers(ram[..], r)[..|blocks|] == Links(blocks)
      requires size < WORD && base < WORD && low <= WORD
      modifies this`head, ram
      ensures head == AddrAt(r, 0) && Headers(ram[..], r) == Links(r)
      ensures HeadersOnly(old(ram[..]), ram[..], r)
    {
      ghost var n, hs := |blocks|, Headers(ram[..], r);
      AppendLinks(blocks, r[n], hs);
      assert blocks + [r[n]] == r;
      NullEndsList(State(blocks, low), 0);
      NewHeader(r, n, base, Header(size, false, 0, 0, MAGIC));
      if head != 0 {
        assert r[0] == r[..n][0];
        LinkToList(base, low, r);
      } else {
        head := base;
      }
    }

    method Append(base: nat, size: nat, ghost low: nat)
      requires Layout(State(blocks, low)) && Represents(ram[..], head, blocks)
      requires ram.Length == WORD && low <= base && base + BLOCK_SIZE <= WORD && size < WORD
      modifies this`head, this`blocks, ram
      ensures blocks == old(blocks) + [Block(base, size, false)] && Represents(ram[..], head, blocks)
      ensures HeadersOnly(old(ram[..]), ram[..], blocks)
    {
      ghost var r := blocks + [Block(base, size, false)];
      AppendSpaced(State(blocks, low), r[|blocks|]);
      AppendHeaders(ram[..], blocks, r[|blocks|]);
      assert r[..|blocks|] == blocks;
      AppendStores(base, size, low, r);
      blocks := r;
    }

    /** The growth shared by kmalloc and kmalloc_aligned. */
    method Extend(size: nat, pages: nat, avail: nat) returns (ptr: nat)
      requires Valid() && size < WORD && cur + PageBytes(avail) < WORD
      modifies this, ram
      ensures var r := HeapList.Extend(old(Abstract()), size, pages, avail); Abstract() == r.state && ptr == r.ptr
      ensures InMemory()
      ensures LiveSame(old(ram[..]), ram[..], old(blocks))
    {
      ghost var st, m := Abstract(), ram[..];
      var base := cur;
      var ok := MapPages(pages, avail);
      LayoutSpaced(st, st.cur);
      assert Headers(ram[..], blocks) == Headers(m, blocks) by { HeadersBelow(m, ram[..], blocks, base); }
      if !ok {
        AllBelow(m, ram[..], st);
        return 0;
      }
      ghost var m1 := ram[..];
      Append(base, size, base);
      GrowthKept(m, m1, ram[..], st, Block(base, size, false));
      return base + BLOCK_SIZE;
    }

    method TakeWhole(block: nat, ghost i: nat)
      requires ram.Length == WORD && Represents(ram[..], head, blocks) && i < |blocks| && block == blocks[i].addr
      modifies this`blocks, ram
      ensures blocks == old(blocks)[i := old(blocks)[i].(free := false)] && Represents(ram[..], head, blocks)
      ensures HeadersOnly(old(ram[..]), ram[..], blocks)
    {
      ghost var bs := blocks;
      MarkLinks(bs, i, false);
      SetFree(bs, i, block, false);
      blocks := bs[i := bs[i].(free := false)];
      hide HeaderAt;
      SameAddresses(old(ram[..]), ram[..], bs, blocks);
    }

    method Serve(block: nat, ghost i: nat, n: nat) returns (ptr: nat)
      requires Valid() && cur < WORD && block == AddrAt(blocks, i) && block != 0 && n % 4 == 0 && Fits(blocks[i], n)
      modifies this`blocks, ram
      ensures blocks == Carve(old(blocks), i, n) && ptr == old(blocks)[i].Ptr() && InMemory()
      ensures LiveSame(old(ram[..]), ram[..], old(blocks))
    {
      ghost var st := Abstract();
      CarveKeepsValid(st, i, n);
      CarveParts(blocks, i, n);
      LayoutSpaced(st, WORD);
      var h := HeaderAt(ram[..], block);
      assert h == Headers(ram[..], blocks)[i] == Linked(blocks, i);
      if n + BLOCK_SIZE + 4 <= h.size {
        Split(block, i, n);
      } else {
        TakeWhole(block, i);
      }
      LiveKept(old(ram[..]), ram[..], st.blocks, Abstract());
      return block + BLOCK_SIZE;
    }

    method Kmalloc(size: nat, avail: nat) returns (ptr: nat)
      requires Valid() && size < WORD && cur + PageBytes(avail) < WORD
      modifies this, ram
      ensures var r := Malloc(old(Abstract()), size, avail); Abstract() == r.state && ptr == r.ptr
      ensures InMemory() && (Valid() <==> !(Grows(old(Abstract()), size) && Wraps(size)))
      ensures LiveSame(old(ram[..]), ram[..], old(blocks))
    {
      hide Layout, Coalesced, Represents, Carve, Live, LiveSame, HeapList.Extend, Align4, Pages, Wraps, FirstFit;
      MallocKeepsValidIff(Abstract(), size, avail);
      if size == 0 || MAX_REQUEST < size {
        AllSame(ram[..], Abstract());
        return 0;
      }
      var n := Align4(size);
      Aligned(size);
      var block, i := FindFreeBlock(n);
      if block != 0 {
        ptr := Serve(block, i, n);
      } else {
        NullEndsList(Abstract(), i);
        ptr := Extend(n, Pages(BLOCK_SIZE + n), avail);
      }
    }

    method KmallocAligned(size: nat, avail: nat) returns (ptr: nat)
      requires Valid() && size < WORD && cur + PageBytes(avail) < WORD
      modifies this, ram
      ensures var r := MallocAligned(old(Abstract()), size, avail); Abstract() == r.state && ptr == r.ptr
      ensures InMemory() && (Valid() <==> Rejected(size) || !Wraps(size))
      ensures LiveSame(old(ram[..]), ram[..], old(blocks))
    {
      MallocAlignedKeepsValidIff(Abstract(), size, avail);
      if size == 0 || MAX_REQUEST < size { return 0; }
      hide Layout, Coalesced, Represents, LiveSame, HeapList.Extend, Wraps, Pages, Align4;
      var pages := Pages(BLOCK_SIZE + Align4(size));
      ptr := Extend(WholeSize(pages), pages, avail);
    }

    // ------------------------------------------------------------------ kfree

    /** Block b, whose header is at address b, is absorbed into the block at a. */
    method Absorb(a: nat, b: nat, ghost r: seq<Block>, ghost j: nat)
      requires ram.Length == WORD && Here(ram[..], r, j, a) && Here(ram[..], r, j + 1, b)
      requires Headers(ram[..], r)[j + 1].next == AddrAt(r, j + 2)
      modifies ram
      ensures Headers(ram[..], r) == AbsorbedIn(old(Headers(ram[..], r)), r, j)
      ensures HeadersOnly(old(ram[..]), ram[..], r)
    {
      hide OutsideHeaders, Spaced, HeaderAt;
      HeaderIn(ram[..], r, j);
      HeaderIn(ram[..], r, j + 1);
      var next := HeaderAt(ram[..], b).next;
      SetSize(r, j, a, (HeaderAt(ram[..], a).size + BLOCK_SIZE + HeaderAt(ram[..], b).size) % 0x1_0000_0000);
      SetNext(r, j, a, next);
      if next != 0 { SetPrev(r, j + 2, next, a); }
    }

    /** kfree's first merge: with the block behind, if that is free. */
    method CoalesceNext(block: nat, ghost r: seq<Block>, ghost k: nat)
      requires ram.Length == WORD && Here(ram[..], r, k, block) && NextKnown(Headers(ram[..], r), r, k)
      modifies ram
      ensures Headers(ram[..], r) == NextAbsorbed(old(Headers(ram[..], r)), r, k)
      ensures HeadersOnly(old(ram[..]), ram[..], r)
    {
      hide HeaderAt, OutsideHeaders, AbsorbedIn;
      HeaderIn(ram[..], r, k);
      if k + 1 < |r| { HeaderIn(ram[..], r, k + 1); }
      var next := HeaderAt(ram[..], block).next;
      if next != 0 && HeaderAt(ram[..], next).free { Absorb(block, next, r, k); }
    }

    /** ... and its second: into the block before, if that is free. */
    method CoalescePrev(block: nat, ghost r: seq<Block>, ghost k: nat)
      requires ram.Length == WORD && Here(ram[..], r, k, block) && PrevKnown(Headers(ram[..], r), r, k)
      modifies ram
      ensures Headers(ram[..], r) == PrevAbsorbed(old(Headers(ram[..], r)), r, k)
      ensures HeadersOnly(old(ram[..]), ram[..], r)
    {
      hide HeaderAt, OutsideHeaders, AbsorbedIn;
      HeaderIn(ram[..], r, k);
      if 0 < k { HeaderIn(ram[..], r, k - 1); }
      var prev := HeaderAt(ram[..], block).prev;
      if prev != 0 && HeaderAt(ram[..], prev).free { Absorb(prev, block, r, k - 1); }
    }

    /** The pointer of a block on the list. */
    ghost predicate OnList(ptr: nat)
      reads this
    {
      ptr != 0 && HeapRuns.IndexOf(blocks, ptr) < |blocks|
    }

    /** A pointer without a header before it. */
    ghost predicate NoHeader(ptr: nat)
      requires ram.Length == WORD
      reads this, ram
    {
      BLOCK_SIZE <= ptr <= WORD && HeaderAt(ram[..], ptr - BLOCK_SIZE).magic != MAGIC
    }

    /** A pointer whose header lies behind the free block j, which has absorbed its block. */
    ghost predicate StaleBehind(ptr: nat, j: nat, size: nat)
      requires ram.Length == WORD
      reads this, ram
    {
      BLOCK_SIZE <= ptr <= WORD && StaleAt(Abstract(), j, ptr - BLOCK_SIZE, HeaderAt(ram[..], ptr - BLOCK_SIZE), size)
    }

    ghost predicate Stale(ptr: nat)
      requires ram.Length == WORD
      reads this, ram
    {
      exists j: nat, size: nat :: StaleBehind(ptr, j, size)
    }

    /** The pointers kfree is called with here: null, one of a block on the list, held or not,
        one without a header, or one whose block was absorbed. */
    ghost predicate Freeable(ptr: nat)
      requires ram.Length == WORD
      reads this, ram
    {
      ptr == 0 || OnList(ptr) || NoHeader(ptr) || Stale(ptr)
    }

    lemma Cases(ptr: nat)
      requires Valid() && cur < WORD && ptr != 0 && Freeable(ptr)
      ensures BLOCK_SIZE <= ptr <= WORD
      ensures NoHeader(ptr) <==> !OnList(ptr) && !Stale(ptr)
      ensures OnList(ptr) ==> !Stale(ptr)
    {
      hide Represents, HeaderAt, Layout, StaleAt;
      var st, i := Abstract(), HeapRuns.IndexOf(blocks, ptr);
      if OnList(ptr) {
        ListStart(ram[..], head, st, i);
        ListedKnown(ram[..], head, st, i);
      }
      if j: nat, size: nat :| StaleBehind(ptr, j, size) {
        var h := HeaderAt(ram[..], ptr - BLOCK_SIZE);
        StaleMagic(st, j, ptr - BLOCK_SIZE, h, size);
        StaleUnlisted(st, j, ptr - BLOCK_SIZE, h, size);
      }
    }

    /** kfree behind the test of the magic, for a header on the list (k is its index) or a stale
        one (behind block k - 1).  The stores are the same; which headers they meet is not. */
    method FreeHeader(ptr: nat, ghost k: nat, ghost size: nat)
      requires Valid() && cur < WORD
      requires BLOCK_SIZE <= ptr <= WORD && (OnList(ptr) ==> k == HeapRuns.IndexOf(blocks, ptr))
      requires !OnList(ptr) ==> 0 < k && StaleBehind(ptr, k - 1, size)
      modifies this`blocks, ram
      ensures InMemory()
      ensures blocks == if old(OnList(ptr)) then Release(old(blocks), k) else Reabsorb(old(blocks), k - 1, size)
      ensures old(OnList(ptr)) && Absorbs(old(blocks), k) ==> StaleBehind(ptr, k - 1, LeftSize(old(blocks), k))
      ensures LiveSame(old(ram[..]), ram[..], blocks)
    {
      hide HeapList.Valid, Layout, HeaderAt, Headers, Represents, Listed, HoldsStale, HeadersOnly, LiveSame, StaleAt;
      hide Spaced, Named, NextKnown, PrevKnown, NextAbsorbed, PrevAbsorbed, MergeNext, MergePrev, WithStale, Reabsorb;
      var block := ptr - BLOCK_SIZE;
      ghost var st, m, on := Abstract(), ram[..], OnList(ptr);
      ghost var b := Block(block, size, true);
      ghost var r0, r1, r2 := blocks, blocks, blocks;
      if on {
        r1 := Marked(blocks, k);
        r2 := MergeNext(r1, k);
        ListStart(m, head, st, k);
      } else {
        StaleHeld(m, head, st, k - 1, b);
        r0 := WithStale(blocks, k - 1, b);
        r1, r2 := r0, r0;
      }
      SetFree(r0, k, block, true);
      ghost var m1 := ram[..];
      if on { ListMarked(m, m1, head, st, k); } else { StaleMarked(m, m1, st, k - 1, b); StaleReady(m1, st, k - 1, b); }
      CoalesceNext(block, r1, k);
      ghost var m2 := ram[..];
      if on { ListNext(m1, m2, head, st, k); } else { StaleNext(m1, m2, st, k - 1, b); }
      CoalescePrev(block, r2, k);
      if on {
        ListPrev(m, m1, m2, ram[..], head, st, k);
        blocks := Release(st.blocks, k);
      } else {
        StaleFreed(m, m1, m2, ram[..], head, st, k - 1, b);
        blocks := Reabsorb(st.blocks, k - 1, size);
      }
    }

    /** What kfree is to do, for each kind of pointer. */
    lemma FreeEffect(ptr: nat)
      requires Valid() && cur < WORD && Freeable(ptr)
      ensures !OnList(ptr) ==> HeapRuns.Release(Abstract(), ptr) == Abstract()
      ensures OnList(ptr) ==> var i := HeapRuns.IndexOf(blocks, ptr);
              && HeapRuns.Release(Abstract(), ptr) == Abstract().(blocks := Release(blocks, i))
              && HeapList.Valid(Abstract().(blocks := Release(blocks, i)))
              && (ptr !in HeapRuns.LivePtrs(blocks) ==> Release(blocks, i) == blocks)
      ensures ptr == 0 ==> !Stale(ptr)
      ensures forall j: nat, size: nat, j': nat, size': nat |
                StaleBehind(ptr, j, size) && StaleBehind(ptr, j', size') :: j == j' && size == size'
      ensures forall j: nat, size: nat | StaleBehind(ptr, j, size) ::
                j < |blocks| && Reabsorb(blocks, j, size) != blocks
    {
      hide Release, Represents, HeaderAt, StaleAt, Reabsorb;
      var st, i := Abstract(), HeapRuns.IndexOf(blocks, ptr);
      if OnList(ptr) {
        ReleaseKeepsValid(st, i);
        if ptr !in HeapRuns.LivePtrs(blocks) {
          HeldIsLive(blocks, i);
          HeapRuns.SecondFreeHarmless(st, i);
        }
      }
      if BLOCK_SIZE <= ptr <= WORD {
        var a := ptr - BLOCK_SIZE;
        var h := HeaderAt(ram[..], a);
        forall j: nat, size: nat, j': nat, size': nat | StaleBehind(ptr, j, size) && StaleBehind(ptr, j', size')
          ensures j == j' && size == size'
        {
          StaleUnique(st, j, j', a, h, size, size');
        }
        forall j: nat, size: nat | StaleBehind(ptr, j, size)
          ensures j < |blocks| && Reabsorb(blocks, j, size) != blocks
        {
          StaleGrows(st, j, a, h, size);
        }
      }
    }

    method Kfree(ptr: nat)
      requires Valid() && cur < WORD && Freeable(ptr)
      modifies this`blocks, ram
      ensures InMemory()
      ensures !old(Stale(ptr)) ==> Abstract() == HeapRuns.Release(old(Abstract()), ptr) && Valid()
      ensures forall j: nat, size: nat | old(StaleBehind(ptr, j, size)) :: blocks == Reabsorb(old(blocks), j, size)
      ensures LiveSame(old(ram[..]), ram[..], blocks)
      // a block that its predecessor absorbs leaves its header behind
      ensures var bs, i := old(blocks), old(HeapRuns.IndexOf(blocks, ptr));
              old(OnList(ptr)) && Absorbs(bs, i) ==> StaleBehind(ptr, i - 1, LeftSize(bs, i))
      // freeing what nobody holds changes nothing, unless a stale header is there
      ensures ptr !in old(HeapRuns.LivePtrs(blocks)) ==> (blocks == old(blocks) <==> !old(Stale(ptr)))
    {
      hide HeapList.Valid, Layout, HeaderAt, Represents, LiveSame, StaleAt, Live, Release, HeapRuns.Release, Reabsorb;
      ghost var st, i := Abstract(), HeapRuns.IndexOf(blocks, ptr);
      ghost var k, size: nat := i, 0;
      ValidList(st);
      FreeEffect(ptr);
      AllSame(ram[..], st);
      if ptr == 0 { return; }
      Cases(ptr);
      var block := ptr - BLOCK_SIZE;
      if HeaderAt(ram[..], block).magic != MAGIC { return; }
      if !OnList(ptr) {
        ghost var j: nat, n: nat :| StaleBehind(ptr, j, n);
        k, size := j + 1, n;
      }
      FreeHeader(ptr, k, size);
    }

    /** kfree of a pointer behind which no stale header lies. */
    method GiveBack(ptr: nat)
      requires Valid() && cur < WORD && (ptr == 0 || OnList(ptr) || (NoHeader(ptr) && !OnList(ptr)))
      modifies this`blocks, ram
      ensures Abstract() == HeapRuns.Release(old(Abstract()), ptr) && Valid()
      ensures LiveSame(old(ram[..]), ram[..], blocks)
    {
      hide HeapList.Valid, Represents, LiveSame, HeapRuns.Release, HeaderAt, StaleAt, Live;
      if ptr != 0 { Cases(ptr); }
      Kfree(ptr);
    }

    lemma NotBoth(ptr: nat)
      requires Valid() && cur < WORD && OnList(ptr)
      ensures !Stale(ptr)
    {
      Cases(ptr);
    }

    lemma HeldOnList(ptr: nat)
      requires Valid() && cur < WORD && ptr in HeapRuns.LivePtrs(blocks)
      ensures OnList(ptr) && !Stale(ptr)
    {
      hide Represents;
      HeapRuns.PtrIndexed(Abstract(), ptr);
      NotBoth(ptr);
    }

    /** Two calls of kfree with the same pointer in a row: the second is harmless exactly when the
        first did not let a free predecessor absorb the block. */
    method KfreeTwice(ptr: nat)
      requires Valid() && cur < WORD && ptr in HeapRuns.LivePtrs(blocks)
      modifies this`blocks, ram
      ensures InMemory() && old(OnList(ptr))
      ensures blocks == ReleaseTwice(old(blocks), old(HeapRuns.IndexOf(blocks, ptr)))
      ensures Abstract() == HeapRuns.Release(old(Abstract()), ptr)
         <==> !Absorbs(old(blocks), old(HeapRuns.IndexOf(blocks, ptr)))
    {
      hide HeapList.Valid, Represents, StaleBehind, NoHeader, LiveSame, LeftSize, Release, Reabsorb,
        HeapRuns.LivePtrs, HeapRuns.IndexOf;
      ghost var st, i := Abstract(), HeapRuns.IndexOf(blocks, ptr);
      HeldOnList(ptr);
      HeapRuns.SecondFreeHarmlessIff(st, i);
      Kfree(ptr);
      if Absorbs(st.blocks, i) {
        assert StaleBehind(ptr, i - 1, LeftSize(st.blocks, i));
      } else {
        StillThere(st, i, ptr);
        NotBoth(ptr);
      }
      Kfree(ptr);
    }

    // --------------------------------------------------------------- krealloc

    method Memcpy(d: nat, a: nat, n: nat)
      requires d + n <= ram.Length && a + n <= ram.Length && (d + n <= a || a + n <= d)
      modifies ram
      ensures forall k | 0 <= k < ram.Length :: ram[k] == old(if d <= k < d + n then ram[a + k - d] else ram[k])
    {
      for i := 0 to n
        invariant forall k | 0 <= k < ram.Length :: ram[k] == old(if d <= k < d + i then ram[a + k - d] else ram[k])
      {
        ram[d + i] := ram[a + i];
      }
    }

    /** Fill the start of the live block c with the payload of the live block b. */
    method CopyPayload(ghost b: Block, ghost c: Block, to: nat, from: nat, n: nat)
      requires Valid() && cur < WORD && b in Live(blocks) && c in Live(blocks) && b != c
      requires from == b.Ptr() && to == c.Ptr() && n == b.size <= c.size
      modifies ram
      ensures Valid() && Copied(old(ram[..]), from, ram[..], to, n)
      ensures forall d | d in Live(blocks) && d != c :: Same(old(ram[..]), ram[..], d.Ptr(), d.size)
    {
      LayoutClear(Abstract(), b);
      LayoutClear(Abstract(), c);
      BlocksApart(Abstract(), b, c);
      Memcpy(to, from, n);
      CopiedIs(old(ram[..]), ram[..], from, to, n);
      PayloadWriteKeeps(old(ram[..]), ram[..], Abstract(), c);
    }

    /** What krealloc promises the holder of the block b it moves to r. */
    twostate predicate Moved(b: Block, r: nat)
      reads this, ram
    {
      if r == 0 then b in Live(blocks) && Same(old(ram[..]), ram[..], b.Ptr(), b.size)
      else Copied(old(ram[..]), b.Ptr(), ram[..], r, b.size)
    }

    /** memcpy into the new block c, then kfree of the old block b. */
    method MoveInto(ghost b: Block, ghost c: Block, from: nat, to: nat, n: nat)
      requires Valid() && cur < WORD && b in Live(blocks) && c in Live(blocks) && b != c
      requires from == b.Ptr() && to == c.Ptr() && n == b.size <= c.size
      modifies this`blocks, ram
      ensures Abstract() == HeapRuns.Release(old(Abstract()), from) && Valid()
      ensures Copied(old(ram[..]), from, ram[..], to, n)
      ensures forall d | d in old(Live(blocks)) && d != b && d != c :: Same(old(ram[..]), ram[..], d.Ptr(), d.size)
    {
      ghost var st, m0 := Abstract(), ram[..];
      LayoutClear(st, b);
      LayoutClear(st, c);
      FreedByPtr(st, b, from);
      assert from in HeapRuns.LivePtrs(blocks);
      HeapRuns.PtrIndexed(st, from);
      CopyPayload(b, c, to, from, n);
      ghost var m1 := ram[..];
      hide Layout, Coalesced, Represents, Live, HeapRuns.Release, LiveSame, HeapRuns.LivePtrs, Same, Copied, Valid,
        InMemory;
      GiveBack(from);
      MoveKept(m0, m1, ram[..], st.blocks, blocks, b, c);
    }

    method Move(ghost b: Block, ptr: nat, size: nat, avail: nat) returns (r: nat)
      requires Valid() && size < WORD && cur + PageBytes(avail) < WORD && !(Grows(Abstract(), size) && Wraps(size))
      requires b in Live(blocks) && b.Ptr() == ptr && b.size < size && HeaderAt(ram[..], b.addr).size == b.size
      modifies this, ram
      ensures var m := Malloc(old(Abstract()), size, avail);
              r == m.ptr && Abstract() == if r == 0 then m.state else HeapRuns.Release(m.state, ptr)
      ensures Valid() && Moved(b, r)
      ensures forall d | d in old(Live(blocks)) && d != b :: Same(old(ram[..]), ram[..], d.Ptr(), d.size)
    {
      ghost var st, m0 := Abstract(), ram[..];
      MallocHandsOut(st, size, avail);
      MallocBounded(st, size, avail);
      LayoutClear(st, b);
      var n := HeaderAt(ram[..], ptr - BLOCK_SIZE).size;
      hide Layout, Coalesced, Represents, Live, HeapRuns.Release, Malloc, Wraps, Carve, Same;
      hide LiveSame, Valid, InMemory, Copied;
      r := Kmalloc(size, avail);
      ghost var bs1, m1 := blocks, ram[..];
      if r != 0 {
        ghost var c: Block :| c.Ptr() == r && HandsOutBlock(st.blocks, blocks, c, size);
        MoveInto(b, c, ptr, r, n);
        MoveChain(m0, m1, ram[..], st.blocks, bs1, b, c);
      } else {
        Unmoved(m0, m1, st.blocks, b);
      }
    }

    /** What is behind the pointer krealloc gets: a block held under it alone, or no header. */
    lemma Whose(ptr: nat)
      requires Valid() && cur < WORD && ptr != 0
      requires ptr in HeapRuns.LivePtrs(blocks) || (NoHeader(ptr) && !OnList(ptr))
      ensures BLOCK_SIZE <= ptr <= WORD
      ensures OnList(ptr) <==> !NoHeader(ptr)
      ensures OnList(ptr) ==> ptr in HeapRuns.LivePtrs(blocks)
      ensures var i := HeapRuns.IndexOf(blocks, ptr);
              if i < |blocks|
              then blocks[i] in Live(blocks) && blocks[i].Ptr() == ptr
                   && HeaderAt(ram[..], blocks[i].addr).size == blocks[i].size
                   && (forall b | b in Live(blocks) && b.Ptr() == ptr :: b == blocks[i])
              else forall b | b in Live(blocks) :: b.Ptr() != ptr
    {
      hide Represents, HeaderAt, Live, HeapRuns.LivePtrs;
      var st, i := Abstract(), HeapRuns.IndexOf(blocks, ptr);
      if ptr in HeapRuns.LivePtrs(blocks) {
        OwnBlock(st, ptr);
        ListStart(ram[..], head, st, i);
        ListedKnown(ram[..], head, st, i);
      } else {
        NoBlock(blocks, ptr);
      }
    }

    /** What krealloc promises: every other block that was live keeps its bytes, and the resized
        one moves or stays with its bytes, or is still there untouched. */
    twostate predicate Kept(ptr: nat, size: nat, r: nat)
      reads this, ram
    {
      && (forall b | b in old(Live(blocks)) && b.Ptr() != ptr :: Same(old(ram[..]), ram[..], b.Ptr(), b.size))
      && (forall b | b in old(Live(blocks)) && b.Ptr() == ptr && size != 0 :: Moved(b, r))
    }

    /** krealloc with size 0. */
    method Drop(ptr: nat)
      requires Valid() && cur < WORD && (OnList(ptr) ==> ptr in HeapRuns.LivePtrs(blocks))
      requires ptr != 0 && (OnList(ptr) || NoHeader(ptr))
      modifies this`blocks, ram
      ensures Abstract() == HeapRuns.Release(old(Abstract()), ptr) && Valid() && Kept(ptr, 0, 0)
    {
      hide HeapList.Valid, Represents, HeapRuns.Release, HeaderAt, HeapRuns.LivePtrs, Same, Live;
      ghost var st, i := Abstract(), HeapRuns.IndexOf(blocks, ptr);
      ValidList(st);
      FreeEffect(ptr);
      if OnList(ptr) { OwnBlock(st, ptr); FreedByPtr(st, blocks[i], ptr); }
      GiveBack(ptr);
    }

    /** krealloc of a held pointer to more than its block has. */
    method MoveHeld(ptr: nat, size: nat, avail: nat) returns (r: nat)
      requires Valid() && size < WORD && cur + PageBytes(avail) < WORD && !(Grows(Abstract(), size) && Wraps(size))
      requires ptr in HeapRuns.LivePtrs(blocks) && HeapRuns.IndexOf(blocks, ptr) < |blocks|
      requires blocks[HeapRuns.IndexOf(blocks, ptr)].size < size
      modifies this, ram
      ensures var m := Malloc(old(Abstract()), size, avail);
              r == m.ptr && Abstract() == if r == 0 then m.state else HeapRuns.Release(m.state, ptr)
      ensures Valid() && Kept(ptr, size, r)
    {
      hide Malloc, HeapRuns.Release, Represents, Same, Copied, Wraps, Grows, HeaderAt, Live, HeapRuns.LivePtrs;
      ghost var i := HeapRuns.IndexOf(blocks, ptr);
      PtrPositive(blocks, ptr);
      Whose(ptr);
      r := Move(blocks[i], ptr, size, avail);
    }

    /** krealloc of a pointer to a size that is not 0. */
    method Resize(ptr: nat, size: nat, avail: nat) returns (r: nat)
      requires Valid() && 0 < size < WORD && cur + PageBytes(avail) < WORD && !(Grows(Abstract(), size) && Wraps(size))
      requires ptr != 0 && (ptr in HeapRuns.LivePtrs(blocks) || (NoHeader(ptr) && !OnList(ptr)))
      modifies this, ram
      ensures var s := HeapRuns.Resize(old(Abstract()), ptr, size, avail); Abstract() == s.state && r == s.ptr
      ensures Valid() && Kept(ptr, size, r)
    {
      hide Malloc, HeapRuns.Release, Represents, Wraps, Grows, HeaderAt, Live, HeapRuns.LivePtrs;
      ghost var st := Abstract();
      ValidList(st);
      AllSame(ram[..], st);
      Whose(ptr);
      var h := HeaderAt(ram[..], ptr - BLOCK_SIZE);
      if h.magic != MAGIC { return 0; }
      if size <= h.size { return ptr; }
      r := MoveHeld(ptr, size, avail);
    }

    method Krealloc(ptr: nat, size: nat, avail: nat) returns (r: nat)
      requires Valid() && size < WORD && cur + PageBytes(avail) < WORD && !(Grows(Abstract(), size) && Wraps(size))
      requires ptr == 0 || ptr in HeapRuns.LivePtrs(blocks) || (NoHeader(ptr) && !OnList(ptr))
      modifies this, ram
      ensures var s := HeapRuns.Resize(old(Abstract()), ptr, size, avail); Abstract() == s.state && r == s.ptr
      ensures Valid() && Kept(ptr, size, r)
    {
      if ptr == 0 {
        r := Kmalloc(size, avail);
      } else if size == 0 {
        Whose(ptr);
        Drop(ptr);
        r := 0;
      } else {
        r := Resize(ptr, size, avail);
      }
    }
  }
}
