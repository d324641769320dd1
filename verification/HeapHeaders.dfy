/** The block headers of src/memory/heap.c in a byte memory: what they say when they represent
    a list, and what the stores of each list operation make of them. */
module HeapHeaders {
  import opened Common
  import opened HeapList
  import opened Memory
  import HeapRuns

  const MAGIC: nat := 0xDEAD_BEEF

  /** The fields of block_t, at offsets 0, 4, 8, 12 and 16 of a 20-byte header. */
  datatype Header = Header(size: nat, free: bool, next: nat, prev: nat, magic: nat)

  function HeaderAt(m: seq<byte>, a: nat): (r: Header)
    requires a + BLOCK_SIZE <= |m|
  {
    Header(Get32(m, a), m[a + 4] != 0, Get32(m, a + 8), Get32(m, a + 12), Get32(m, a + 16))
  }

  /** The headers of a list lie apart and inside the memory. */
  predicate Spaced(bs: seq<Block>, limit: nat) {
    && (forall i | 0 <= i < |bs| :: bs[i].addr + BLOCK_SIZE <= limit)
    && (forall i, j | 0 <= i < j < |bs| :: bs[i].addr + BLOCK_SIZE <= bs[j].addr)
  }

  ghost function Headers(m: seq<byte>, bs: seq<Block>): (r: seq<Header>)
    requires Spaced(bs, |m|)
    ensures |r| == |bs|
  {
    seq(|bs|, i requires 0 <= i < |bs| => HeaderAt(m, bs[i].addr))
  }

  function AddrAt(bs: seq<Block>, i: int): (r: nat) {
    if 0 <= i < |bs| then bs[i].addr else 0
  }

  /** The header that represents block i of a list. */
  function Linked(bs: seq<Block>, i: nat): (r: Header)
    requires i < |bs|
  {
    Header(bs[i].size, bs[i].free, AddrAt(bs, i + 1), AddrAt(bs, i - 1), MAGIC)
  }

  function Links(bs: seq<Block>): (r: seq<Header>)
    ensures |r| == |bs|
  {
    seq(|bs|, i requires 0 <= i < |bs| => Linked(bs, i))
  }

  lemma LinksAt(bs: seq<Block>, i: nat)
    requires i < |bs|
    ensures Links(bs)[i] == Linked(bs, i)
  {
  }

  lemma LinksBelow(bs: seq<Block>, hs: seq<Header>)
    requires |bs| <= |hs| && hs[..|bs|] == Links(bs)
    ensures forall i | 0 <= i < |bs| :: hs[i] == Linked(bs, i)
  {
    hide Linked, Links;
    forall i | 0 <= i < |bs| ensures hs[i] == Linked(bs, i) {
      assert hs[..|bs|][i] == hs[i];
      LinksAt(bs, i);
    }
  }

  /** The memory holds the list: mutually linked headers with the right magic. */
  ghost predicate Represents(m: seq<byte>, head: nat, bs: seq<Block>) {
    Spaced(bs, |m|) && head == AddrAt(bs, 0) && Headers(m, bs) == Links(bs)
  }

  lemma HeaderIn(m: seq<byte>, r: seq<Block>, k: nat)
    requires Spaced(r, |m|) && k < |r|
    ensures r[k].addr + BLOCK_SIZE <= |m| && Headers(m, r)[k] == HeaderAt(m, r[k].addr)
  {
  }

  lemma NullEndsList(st: State, i: int)
    requires Layout(st)
    ensures AddrAt(st.blocks, i) == 0 <==> !(0 <= i < |st.blocks|)
  {
    assert 0 <= i < |st.blocks| ==> InHeap(st.blocks[i], st.cur);
  }

  lemma LayoutSpaced(st: State, limit: nat)
    requires Layout(st) && st.cur <= limit
    ensures Spaced(st.blocks, limit)
  {
    forall i | 0 <= i < |st.blocks| ensures st.blocks[i].addr + BLOCK_SIZE <= limit {
      assert InHeap(st.blocks[i], st.cur);
    }
  }

  // ------------------------------------------------------------ what changes

  ghost predicate OnlyHeader(m: seq<byte>, m': seq<byte>, a: nat) {
    |m| == |m'| && forall k | 0 <= k < |m| && !(a <= k < a + BLOCK_SIZE) :: m'[k] == m[k]
  }

  predicate OutsideHeaders(bs: seq<Block>, k: nat) {
    forall i | 0 <= i < |bs| :: k < bs[i].addr || bs[i].addr + BLOCK_SIZE <= k
  }

  /** Only headers of the list differ. */
  ghost predicate HeadersOnly(m: seq<byte>, m': seq<byte>, bs: seq<Block>) {
    |m| == |m'| && forall k | 0 <= k < |m| && OutsideHeaders(bs, k) :: m'[k] == m[k]
  }

  lemma HeaderKept(m: seq<byte>, m': seq<byte>, a: nat, b: nat)
    requires OnlyHeader(m, m', a) && b + BLOCK_SIZE <= |m| && (b + BLOCK_SIZE <= a || a + BLOCK_SIZE <= b)
    ensures HeaderAt(m', b) == HeaderAt(m, b)
  {
  }

  lemma HeadersKept(m: seq<byte>, m': seq<byte>, bs: seq<Block>, i: nat)
    requires Spaced(bs, |m|) && i < |bs| && OnlyHeader(m, m', bs[i].addr)
    ensures Headers(m', bs) == Headers(m, bs)[i := HeaderAt(m', bs[i].addr)]
    ensures HeadersOnly(m, m', bs)
  {
    forall j | 0 <= j < |bs| && j != i ensures HeaderAt(m', bs[j].addr) == HeaderAt(m, bs[j].addr) {
      HeaderKept(m, m', bs[i].addr, bs[j].addr);
    }
  }

  lemma SetSizeEffect(m: seq<byte>, a: nat, v: nat)
    requires a + BLOCK_SIZE <= |m| && v < WORD
    ensures HeaderAt(Put32(m, a, v), a) == HeaderAt(m, a).(size := v)
  {
    GetPut32(m, a, v);
  }

  lemma SetFreeEffect(m: seq<byte>, a: nat, f: bool)
    requires a + BLOCK_SIZE <= |m|
    ensures HeaderAt(m[a + 4 := if f then 1 else 0], a) == HeaderAt(m, a).(free := f)
  {
  }

  lemma SetNextEffect(m: seq<byte>, a: nat, v: nat)
    requires a + BLOCK_SIZE <= |m| && v < WORD
    ensures HeaderAt(Put32(m, a + 8, v), a) == HeaderAt(m, a).(next := v)
  {
    GetPut32(m, a + 8, v);
  }

  lemma SetPrevEffect(m: seq<byte>, a: nat, v: nat)
    requires a + BLOCK_SIZE <= |m| && v < WORD
    ensures HeaderAt(Put32(m, a + 12, v), a) == HeaderAt(m, a).(prev := v)
  {
    GetPut32(m, a + 12, v);
  }

  lemma SetMagicEffect(m: seq<byte>, a: nat, v: nat)
    requires a + BLOCK_SIZE <= |m| && v < WORD
    ensures HeaderAt(Put32(m, a + 16, v), a) == HeaderAt(m, a).(magic := v)
  {
    GetPut32(m, a + 16, v);
  }

  // ------------------------------------------------- headers of changed lists

  lemma SplitAt(bs: seq<Block>, i: nat, n: nat)
    requires i < |bs| && n + BLOCK_SIZE + 4 <= bs[i].size
    ensures var r := Carve(bs, i, n);
            && |r| == |bs| + 1
            && r[i] == Block(bs[i].addr, n, false)
            && r[i + 1] == Block(bs[i].Ptr() + n, bs[i].size - n - BLOCK_SIZE, true)
            && (forall j | 0 <= j < i :: r[j] == bs[j])
            && (forall j | i + 2 <= j < |r| :: r[j] == bs[j - 1])
  {
  }

  /** The headers hs of the carved list before its stores: the old ones around a gap. */
  ghost predicate SplitReady(hs: seq<Header>, bs: seq<Block>, i: nat) {
    && |hs| == |bs| + 1
    && (forall j | 0 <= j <= i && j < |bs| :: hs[j] == Linked(bs, j))
    && (forall j | i + 2 <= j < |hs| :: hs[j] == Linked(bs, j - 1))
  }

  lemma SplitHeaders(m: seq<byte>, bs: seq<Block>, i: nat, n: nat)
    requires i < |bs| && n + BLOCK_SIZE + 4 <= bs[i].size && Spaced(bs, |m|) && Spaced(Carve(bs, i, n), |m|)
    requires Headers(m, bs) == Links(bs)
    ensures SplitReady(Headers(m, Carve(bs, i, n)), bs, i)
  {
    var r := Carve(bs, i, n);
    SplitAt(bs, i, n);
    forall j | 0 <= j <= i ensures Headers(m, r)[j] == Linked(bs, j) {
      assert r[j].addr == bs[j].addr;
      assert Headers(m, bs)[j] == Links(bs)[j];
    }
    forall j | i + 2 <= j < |r| ensures Headers(m, r)[j] == Linked(bs, j - 1) {
      assert r[j] == bs[j - 1];
      assert Headers(m, bs)[j - 1] == Links(bs)[j - 1];
    }
  }

  /** The stores of a split, on the headers of the carved list: the new block behind block i ... */
  function Inserted(hs: seq<Header>, i: nat, a: nat, a': nat, h: Header, n: nat): (r: seq<Header>)
    requires i + 1 < |hs| && n + BLOCK_SIZE <= h.size
    ensures |r| == |hs|
  {
    var h1 := hs[i + 1 := Header(h.size - n - BLOCK_SIZE, true, h.next, a, MAGIC)];
    if i + 2 < |hs| then h1[i + 2 := h1[i + 2].(prev := a')] else h1
  }

  /** ... and block i itself, cut to n bytes. */
  function Shrunk(hs: seq<Header>, i: nat, a': nat, n: nat): (r: seq<Header>)
    requires i < |hs|
    ensures |r| == |hs|
  {
    hs[i := hs[i].(next := a', size := n, free := false)]
  }

  function SplitAll(hs: seq<Header>, i: nat, a: nat, a': nat, h: Header, n: nat): (r: seq<Header>)
    requires i + 1 < |hs| && n + BLOCK_SIZE <= h.size
  {
    Shrunk(Inserted(hs, i, a, a', h, n), i, a', n)
  }

  lemma SplitLinks(hs: seq<Header>, bs: seq<Block>, i: nat, n: nat)
    requires i < |bs| && n + BLOCK_SIZE + 4 <= bs[i].size && SplitReady(hs, bs, i)
    ensures SplitAll(hs, i, bs[i].addr, bs[i].Ptr() + n, Linked(bs, i), n) == Links(Carve(bs, i, n))
  {
    var r := Carve(bs, i, n);
    SplitAt(bs, i, n);
    var h3 := SplitAll(hs, i, bs[i].addr, bs[i].Ptr() + n, Linked(bs, i), n);
    forall j | 0 <= j < |r| ensures h3[j] == Linked(r, j) {
      if j < i {
        assert AddrAt(r, j + 1) == AddrAt(bs, j + 1) && AddrAt(r, j - 1) == AddrAt(bs, j - 1);
      } else if i + 2 < j {
        assert AddrAt(r, j + 1) == AddrAt(bs, j) && AddrAt(r, j - 1) == AddrAt(bs, j - 2);
      }
    }
  }

  lemma MarkLinks(bs: seq<Block>, i: nat, f: bool)
    requires i < |bs|
    ensures Links(bs[i := bs[i].(free := f)]) == Links(bs)[i := Links(bs)[i].(free := f)]
  {
    var r := bs[i := bs[i].(free := f)];
    assert forall j :: AddrAt(r, j) == AddrAt(bs, j);
  }

  lemma AppendSpaced(st: State, b: Block)
    requires Layout(st) && st.cur <= b.addr && b.addr + BLOCK_SIZE <= WORD
    ensures Spaced(st.blocks + [b], WORD)
  {
    LayoutSpaced(st, WORD);
  }

  lemma AppendHeaders(m: seq<byte>, bs: seq<Block>, b: Block)
    requires Spaced(bs, |m|) && Spaced(bs + [b], |m|)
    ensures Headers(m, bs + [b])[..|bs|] == Headers(m, bs)
  {
  }

  function LinkedBehind(hs: seq<Header>, n: nat, last: nat, base: nat): (r: seq<Header>)
    requires 0 < n < |hs|
  {
    hs[n - 1 := hs[n - 1].(next := base)][n := hs[n].(prev := last)]
  }

  /** The stores that append a block turn the old headers into those of the longer list. */
  lemma AppendLinks(bs: seq<Block>, b: Block, hs: seq<Header>)
    requires |hs| == |bs| + 1 && hs[..|bs|] == Links(bs)
    ensures var n, h1 := |bs|, hs[|bs| := Header(b.size, b.free, 0, 0, MAGIC)];
            (if n == 0 then h1 else LinkedBehind(h1, n, AddrAt(bs, n - 1), b.addr)) == Links(bs + [b])
  {
    var n, h1, r := |bs|, hs[|bs| := Header(b.size, b.free, 0, 0, MAGIC)], bs + [b];
    var h2 := if n == 0 then h1 else LinkedBehind(h1, n, AddrAt(bs, n - 1), b.addr);
    forall j | 0 <= j < |r| ensures h2[j] == Linked(r, j) {
      if j < n { assert hs[j] == Linked(bs, j) by { assert hs[..n][j] == hs[j]; } }
    }
  }

  // -------------------------------------------------------------- merging

  function Absorbed(hs: seq<Header>, j: nat, size: nat, next: nat, a: nat): (r: seq<Header>)
    requires j + 1 < |hs|
    ensures |r| == |hs|
  {
    var h1 := hs[j := hs[j].(size := size, next := next)];
    if j + 2 < |hs| then h1[j + 2 := h1[j + 2].(prev := a)] else h1
  }

  lemma AbsorbedHeader(m: seq<byte>, m': seq<byte>, bs: seq<Block>, j: nat, size: nat, next: nat, a: nat)
    requires |m'| == |m| && Spaced(bs, |m|) && j + 1 < |bs|
    requires Headers(m', bs) == Absorbed(Headers(m, bs), j, size, next, a)
    ensures bs[j + 1].addr + BLOCK_SIZE <= |m| && HeaderAt(m', bs[j + 1].addr) == HeaderAt(m, bs[j + 1].addr)
  {
    hide HeaderAt;
    assert Headers(m', bs)[j + 1] == Headers(m, bs)[j + 1];
  }

  lemma MergeAt(bs: seq<Block>, j: nat)
    requires j + 1 < |bs|
    ensures var r := Merge(bs, j);
            && |r| == |bs| - 1
            && r[j] == Block(bs[j].addr, bs[j].size + BLOCK_SIZE + bs[j + 1].size, true)
            && (forall k | 0 <= k < j :: r[k] == bs[k])
            && (forall k | j + 1 <= k < |r| :: r[k] == bs[k + 1])
  {
  }

  lemma MergeSpaced(bs: seq<Block>, j: nat, limit: nat)
    requires j + 1 < |bs| && Spaced(bs, limit)
    ensures Spaced(Merge(bs, j), limit)
  {
    MergeAt(bs, j);
    var r := Merge(bs, j);
    hide Merge;
    forall i, k | 0 <= i < k < |r| ensures r[i].addr + BLOCK_SIZE <= r[k].addr {
      var i', k' := if i <= j then i else i + 1, if k <= j then k else k + 1;
      assert r[i].addr == bs[i'].addr && r[k].addr == bs[k'].addr;
    }
  }

  lemma MergeLink(bs: seq<Block>, j: nat, k: nat)
    requires j + 1 < |bs| && bs[j].free && k + 1 < |bs|
    ensures |Merge(bs, j)| == |bs| - 1
    ensures var size := bs[j].size + BLOCK_SIZE + bs[j + 1].size;
            Absorbed(Links(bs), j, size, AddrAt(bs, j + 2), bs[j].addr)[if k <= j then k else k + 1]
            == Linked(Merge(bs, j), k)
  {
    MergeAt(bs, j);
    hide Merge, Links;
    LinksAt(bs, if k <= j then k else k + 1);
  }

  lemma MergeLinkAt(m: seq<byte>, bs: seq<Block>, j: nat, k: nat)
    requires j + 1 < |bs| && bs[j].free && Spaced(bs, |m|) && Spaced(Merge(bs, j), |m|) && k + 1 < |bs|
    requires Headers(m, bs)
          == Absorbed(Links(bs), j, bs[j].size + BLOCK_SIZE + bs[j + 1].size, AddrAt(bs, j + 2), bs[j].addr)
    ensures |Merge(bs, j)| == |bs| - 1
    ensures HeaderAt(m, Merge(bs, j)[k].addr) == Linked(Merge(bs, j), k)
  {
    hide Merge, Spaced, Links, Linked, Absorbed, HeaderAt;
    MergeAt(bs, j);
    HeaderIn(m, bs, if k <= j then k else k + 1);
    MergeLink(bs, j, k);
  }

  /** After the stores of a merge, the headers left on the list are those of the merged list. */
  lemma MergeLinks(m: seq<byte>, bs: seq<Block>, j: nat)
    requires j + 1 < |bs| && bs[j].free && Spaced(bs, |m|)
    requires Headers(m, bs)
          == Absorbed(Links(bs), j, bs[j].size + BLOCK_SIZE + bs[j + 1].size, AddrAt(bs, j + 2), bs[j].addr)
    ensures Spaced(Merge(bs, j), |m|) && Headers(m, Merge(bs, j)) == Links(Merge(bs, j))
    ensures AddrAt(Merge(bs, j), 0) == AddrAt(bs, 0)
  {
    var r := Merge(bs, j);
    MergeAt(bs, j);
    hide Merge;
    MergeSpaced(bs, j, |m|);
    forall k | 0 <= k < |r| ensures HeaderAt(m, r[k].addr) == Linked(r, k) {
      MergeLinkAt(m, bs, j, k);
    }
  }

  lemma MergeRepresents(m: seq<byte>, head: nat, bs: seq<Block>, j: nat)
    requires j + 1 < |bs| && head == AddrAt(bs, 0) && AddrAt(Merge(bs, j), 0) == AddrAt(bs, 0)
    requires Spaced(Merge(bs, j), |m|) && Headers(m, Merge(bs, j)) == Links(Merge(bs, j))
    ensures Represents(m, head, Merge(bs, j))
  {
  }

  // ------------------------------------------------------------- payloads

  /** The payload of b lies outside every header of the list. */
  predicate Clear(bs: seq<Block>, b: Block) {
    forall i | 0 <= i < |bs| :: bs[i].addr + BLOCK_SIZE <= b.Ptr() || b.End() <= bs[i].addr
  }

  lemma PayloadKept(m: seq<byte>, m': seq<byte>, bs: seq<Block>, b: Block)
    requires HeadersOnly(m, m', bs) && Clear(bs, b) && b.End() <= |m|
    ensures Same(m, m', b.Ptr(), b.size)
  {
    forall k | b.Ptr() <= k < b.End() ensures m'[k] == m[k] { assert OutsideHeaders(bs, k); }
  }

  lemma LayoutClear(st: State, b: Block)
    requires Layout(st) && b in st.blocks
    ensures Clear(st.blocks, b) && b.End() <= st.cur
  {
    var k :| 0 <= k < |st.blocks| && st.blocks[k] == b;
    assert InHeap(st.blocks[k], st.cur);
    forall i | 0 <= i < |st.blocks| ensures st.blocks[i].addr + BLOCK_SIZE <= b.Ptr() || b.End() <= st.blocks[i].addr {
      if i < k { OrderedAt(st, i, k); } else if k < i { OrderedAt(st, k, i); }
    }
  }

  /** No byte of a live payload differs. */
  ghost predicate LiveSame(m: seq<byte>, m': seq<byte>, bs: seq<Block>) {
    forall b | b in Live(bs) :: Same(m, m', b.Ptr(), b.size)
  }

  /** Every live payload of `before` is untouched when only headers of `after` change. */
  lemma LiveKept(m: seq<byte>, m': seq<byte>, before: seq<Block>, after: State)
    requires Layout(after) && after.cur <= |m| && Live(before) <= Live(after.blocks) && HeadersOnly(m, m', after.blocks)
    ensures LiveSame(m, m', before)
  {
    forall b | b in Live(before) ensures Same(m, m', b.Ptr(), b.size) {
      assert b in Live(after.blocks);
      LayoutClear(after, b);
      PayloadKept(m, m', after.blocks, b);
    }
  }

  /** Headers at the same addresses are the same headers. */
  lemma SameAddresses(m0: seq<byte>, m: seq<byte>, bs: seq<Block>, r: seq<Block>)
    requires Spaced(bs, |m|) && |r| == |bs| && forall i | 0 <= i < |bs| :: r[i].addr == bs[i].addr
    requires HeadersOnly(m0, m, bs)
    ensures Spaced(r, |m|) && Headers(m, r) == Headers(m, bs)
    ensures HeadersOnly(m0, m, r)
  {
    forall k | 0 <= k < |m| && OutsideHeaders(r, k) ensures m[k] == m0[k] { assert OutsideHeaders(bs, k); }
  }

  lemma HeadersBelow(m: seq<byte>, m': seq<byte>, bs: seq<Block>, limit: nat)
    requires |m| == |m'| && limit <= |m| && Spaced(bs, limit) && Spaced(bs, |m|)
    requires forall k | 0 <= k < limit :: m'[k] == m[k]
    ensures Headers(m', bs) == Headers(m, bs)
  {
    forall i | 0 <= i < |bs| ensures HeaderAt(m', bs[i].addr) == HeaderAt(m, bs[i].addr) {
      assert bs[i].addr + BLOCK_SIZE <= limit;
    }
  }

  lemma AllBelow(m: seq<byte>, m': seq<byte>, st: State)
    requires Layout(st) && |m| == |m'| && st.cur <= |m| && forall k | 0 <= k < st.cur :: m'[k] == m[k]
    ensures LiveSame(m, m', st.blocks)
  {
    forall b | b in Live(st.blocks) ensures Same(m, m', b.Ptr(), b.size) { LayoutClear(st, b); }
  }

  lemma GrowthKept(m: seq<byte>, m1: seq<byte>, m': seq<byte>, st: State, b: Block)
    requires Layout(st) && |m| == |m1| && st.cur <= |m| && st.cur <= b.addr
    requires forall k | 0 <= k < st.cur :: m1[k] == m[k]
    requires HeadersOnly(m1, m', st.blocks + [b])
    ensures LiveSame(m, m', st.blocks)
  {
    AllBelow(m, m1, st);
    forall c | c in Live(st.blocks) ensures Same(m, m', c.Ptr(), c.size) {
      LayoutClear(st, c);
      PayloadKept(m1, m', st.blocks + [b], c);
    }
  }

  lemma AllSame(m: seq<byte>, st: State)
    requires Layout(st) && st.cur <= |m|
    ensures LiveSame(m, m, st.blocks)
  {
    AllBelow(m, m, st);
  }

  lemma LiveTrans(m0: seq<byte>, m1: seq<byte>, m2: seq<byte>, before: seq<Block>, after: seq<Block>)
    requires LiveSame(m0, m1, before) && LiveSame(m1, m2, after) && Live(before) <= Live(after)
    ensures LiveSame(m0, m2, before)
  {
    forall b | b in Live(before) ensures Same(m0, m2, b.Ptr(), b.size) { assert b in Live(after); }
  }

  lemma LiveTwice(m0: seq<byte>, m1: seq<byte>, m2: seq<byte>, st0: State, st1: State, i: nat)
    requires Layout(st0) && Layout(st1) && i < |st0.blocks| && st0.blocks[i].free
    requires st1.blocks == MergeNext(st0.blocks, i)
    requires st0.cur <= |m0| && st1.cur <= |m1|
    requires HeadersOnly(m0, m1, st0.blocks) && HeadersOnly(m1, m2, st1.blocks)
    ensures LiveSame(m0, m2, st0.blocks)
  {
    if st1.blocks != st0.blocks { MergeLive(st0.blocks, i); }
    hide Layout, MergeNext, HeadersOnly, LiveSame;
    LiveKept(m0, m1, st0.blocks, st0);
    LiveKept(m1, m2, st1.blocks, st1);
    LiveTrans(m0, m1, m2, st0.blocks, st1.blocks);
  }

  lemma LiveMeet(m0: seq<byte>, m1: seq<byte>, m2: seq<byte>, a: seq<Block>, b: seq<Block>, c: seq<Block>)
    requires LiveSame(m0, m1, a) && LiveSame(m1, m2, b) && Live(c) <= Live(a) && Live(c) <= Live(b)
    ensures LiveSame(m0, m2, c)
  {
    hide Live;
    forall d | d in Live(c) ensures Same(m0, m2, d.Ptr(), d.size) { assert d in Live(a) && d in Live(b); }
  }

  /** Freeing block i touches no payload that is still live afterwards. */
  lemma LiveFreed(m0: seq<byte>, m1: seq<byte>, m2: seq<byte>, st: State, i: nat)
    requires Layout(st) && i < |st.blocks| && st.cur <= |m0|
    requires HeadersOnly(m0, m1, st.blocks)
    requires LiveSame(m1, m2, st.blocks[i := st.blocks[i].(free := true)])
    ensures LiveSame(m0, m2, Release(st.blocks, i))
  {
    hide Layout, HeadersOnly, Release, LiveSame, Live;
    ReleaseTakesBack(st, i);
    MarkLive(st, i);
    LiveKept(m0, m1, st.blocks, st);
    LiveMeet(m0, m1, m2, st.blocks, st.blocks[i := st.blocks[i].(free := true)], Release(st.blocks, i));
  }

  lemma AbsorbFacts(st: State, j: nat)
    requires Layout(st) && st.cur < WORD && j + 1 < |st.blocks|
    ensures st.blocks[j].size + BLOCK_SIZE + st.blocks[j + 1].size < WORD
    ensures st.blocks[j].addr < WORD && AddrAt(st.blocks, j + 2) < WORD
    ensures AddrAt(st.blocks, j + 2) == 0 <==> j + 2 == |st.blocks|
  {
    NullEndsList(st, j + 2);
    assert InHeap(st.blocks[j], st.cur) && InHeap(st.blocks[j + 1], st.cur);
    assert st.blocks[j].End() <= st.blocks[j + 1].addr;
    assert j + 2 < |st.blocks| ==> InHeap(st.blocks[j + 2], st.cur);
  }

  /** Writing inside one live payload disturbs neither the headers nor other payloads. */
  lemma PayloadWriteKeeps(m: seq<byte>, m': seq<byte>, st: State, c: Block)
    requires Layout(st) && st.cur <= |m| == |m'| && c in st.blocks
    requires forall k | 0 <= k < |m| && !(c.Ptr() <= k < c.End()) :: m'[k] == m[k]
    ensures Spaced(st.blocks, |m|) && Headers(m', st.blocks) == Headers(m, st.blocks)
    ensures forall d | d in st.blocks && d != c :: Same(m, m', d.Ptr(), d.size)
  {
    LayoutSpaced(st, |m|);
    LayoutClear(st, c);
    forall i | 0 <= i < |st.blocks| ensures HeaderAt(m', st.blocks[i].addr) == HeaderAt(m, st.blocks[i].addr) {
      assert st.blocks[i].addr + BLOCK_SIZE <= c.Ptr() || c.End() <= st.blocks[i].addr;
    }
    forall d | d in st.blocks && d != c ensures Same(m, m', d.Ptr(), d.size) {
      LayoutClear(st, d);
      BlocksApart(st, c, d);
    }
  }

  lemma OwnBlock(st: State, ptr: nat)
    requires Layout(st) && ptr in HeapRuns.LivePtrs(st.blocks)
    ensures var i := HeapRuns.IndexOf(st.blocks, ptr);
            && i < |st.blocks| && st.blocks[i] in Live(st.blocks) && st.blocks[i].Ptr() == ptr
            && (forall b | b in Live(st.blocks) && b.Ptr() == ptr :: b == st.blocks[i])
  {
    HeapRuns.PtrIndexed(st, ptr);
    var i := HeapRuns.IndexOf(st.blocks, ptr);
    forall b | b in Live(st.blocks) && b.Ptr() == ptr ensures b == st.blocks[i] { BlockUnique(st, i, b); }
  }

  lemma NoBlock(bs: seq<Block>, ptr: nat)
    requires HeapRuns.IndexOf(bs, ptr) == |bs|
    ensures forall b | b in Live(bs) :: b.Ptr() != ptr
  {
  }

  /** Freeing by pointer frees the block that the pointer was handed out for. */
  lemma FreedByPtr(st: State, b: Block, ptr: nat)
    requires Layout(st) && b in Live(st.blocks) && b.Ptr() == ptr
    ensures Live(HeapRuns.Release(st, ptr).blocks) == Live(st.blocks) - {b}
  {
    var i := HeapRuns.IndexOf(st.blocks, ptr);
    var k :| 0 <= k < |st.blocks| && st.blocks[k] == b;
    BlockUnique(st, i, b);
    ReleaseTakesBack(st, i);
  }

  /** The n bytes at a in m are those at a' in m'. */
  ghost predicate Copied(m: seq<byte>, a: nat, m': seq<byte>, a': nat, n: nat) {
    a + n <= |m| && a' + n <= |m'| && m'[a'..a' + n] == m[a..a + n]
  }

  lemma CopiedIs(m: seq<byte>, m': seq<byte>, a: nat, a': nat, n: nat)
    requires a + n <= |m| && a' + n <= |m'| && forall k | a' <= k < a' + n :: m'[k] == m[a + k - a']
    ensures Copied(m, a, m', a', n)
  {
    var s, s' := m[a..a + n], m'[a'..a' + n];
    forall d | 0 <= d < n ensures s'[d] == s[d] { assert m'[a' + d] == m[a + (a' + d) - a']; }
  }

  lemma SamePrefix(m: seq<byte>, m': seq<byte>, a: nat, n: nat, k: nat)
    requires Same(m, m', a, n) && k <= n
    ensures Same(m, m', a, k)
  {
    assert m[a..a + k] == m[a..a + n][..k];
    assert m'[a..a + k] == m'[a..a + n][..k];
  }

  lemma MoveKept(m0: seq<byte>, m1: seq<byte>, m2: seq<byte>, before: seq<Block>, after: seq<Block>, b: Block, c: Block)
    requires b in Live(before) && c in Live(before) && b != c && b.size <= c.size
    requires Live(after) == Live(before) - {b}
    requires Copied(m0, b.Ptr(), m1, c.Ptr(), b.size)
    requires forall d | d in Live(before) && d != c :: Same(m0, m1, d.Ptr(), d.size)
    requires LiveSame(m1, m2, after)
    ensures Copied(m0, b.Ptr(), m2, c.Ptr(), b.size)
    ensures forall d | d in Live(before) && d != b && d != c :: Same(m0, m2, d.Ptr(), d.size)
  {
    var r, n := c.Ptr(), b.size;
    assert c in Live(after) && Same(m1, m2, r, c.size);
    SamePrefix(m1, m2, r, c.size, n);
    forall d | d in Live(before) && d != b && d != c ensures Same(m0, m2, d.Ptr(), d.size) {
      assert d in Live(after);
    }
  }

  lemma Unmoved(m0: seq<byte>, m1: seq<byte>, bs: seq<Block>, b: Block)
    requires LiveSame(m0, m1, bs) && b in Live(bs)
    ensures forall d | d in Live(bs) :: Same(m0, m1, d.Ptr(), d.size)
  {
  }

  lemma MoveChain(m0: seq<byte>, m1: seq<byte>, m2: seq<byte>, before: seq<Block>, mid: seq<Block>, b: Block, c: Block)
    requires LiveSame(m0, m1, before) && b in Live(before)
    requires c !in Live(before) && Live(mid) == Live(before) + {c}
    requires forall d | d in Live(mid) && d != b && d != c :: Same(m1, m2, d.Ptr(), d.size)
    requires Copied(m1, b.Ptr(), m2, c.Ptr(), b.size)
    ensures Copied(m0, b.Ptr(), m2, c.Ptr(), b.size)
    ensures forall d | d in Live(before) && d != b :: Same(m0, m2, d.Ptr(), d.size)
  {
    assert Same(m0, m1, b.Ptr(), b.size);
    forall d | d in Live(before) && d != b ensures Same(m0, m2, d.Ptr(), d.size) { assert d in Live(mid); }
  }

  // --------------------------------------------------------- stale headers

  /** At address a, behind the free block j, lies header h of a block that j has absorbed. */
  predicate StaleAt(st: State, j: nat, a: nat, h: Header, size: nat) {
    && j < |st.blocks| && st.blocks[j].free && (j + 1 < |st.blocks| ==> !st.blocks[j + 1].free)
    && st.blocks[j].Ptr() <= a && a + BLOCK_SIZE <= HeapRuns.Limit(st, j)
    && h == Header(size, true, AddrAt(st.blocks, j + 1), st.blocks[j].addr, MAGIC)
    && BLOCK_SIZE + size < WORD
  }

  lemma StaleUnique(st: State, j: nat, j': nat, a: nat, h: Header, size: nat, size': nat)
    requires Layout(st) && StaleAt(st, j, a, h, size) && StaleAt(st, j', a, h, size')
    ensures j == j' && size == size'
  {
    BlocksDistinct(st, j, j');
  }

  lemma StaleApart(st: State, j: nat, a: nat, h: Header, size: nat, i: nat)
    requires Layout(st) && StaleAt(st, j, a, h, size) && i < |st.blocks|
    ensures st.blocks[i].addr != a
  {
    if i < j {
      OrderedAt(st, i, j);
    } else if j + 1 < i {
      OrderedAt(st, j + 1, i);
    }
  }

  /** Where a stale header lies, no block of the list begins. */
  lemma StaleUnlisted(st: State, j: nat, a: nat, h: Header, size: nat)
    requires Layout(st) && StaleAt(st, j, a, h, size)
    ensures HeapRuns.IndexOf(st.blocks, a + BLOCK_SIZE) == |st.blocks|
  {
    var i := HeapRuns.IndexOf(st.blocks, a + BLOCK_SIZE);
    if i < |st.blocks| { StaleApart(st, j, a, h, size, i); }
  }

  lemma MergeLeaves(st: State, i: nat, b1: seq<Block>, r: seq<Block>)
    requires Layout(st.(blocks := b1)) && 0 < i < |b1| && b1[i - 1].free && b1[i].free && r == Merge(b1, i - 1)
    requires Coalesced(r) && st.cur <= WORD
    ensures StaleAt(st.(blocks := r), i - 1, b1[i].addr, Linked(b1, i), b1[i].size)
  {
    MergeAt(b1, i - 1);
    hide Merge;
    if i < |r| { NotBothFree(r, i - 1); }
    assert InHeap(b1[i], st.cur);
    assert b1[i - 1].End() <= b1[i].addr && (i + 1 < |b1| ==> b1[i].End() <= b1[i + 1].addr);
  }

  lemma NextMergeKeeps(st: State, i: nat)
    requires Layout(st) && i < |st.blocks|
    ensures var b1 := MergeNext(st.blocks[i := st.blocks[i].(free := true)], i);
            && Layout(st.(blocks := b1)) && i < |b1| && b1[i].free && b1[i].addr == st.blocks[i].addr
            && (0 < i ==> b1[i - 1] == st.blocks[i - 1])
  {
    var b0 := st.blocks[i := st.blocks[i].(free := true)];
    MarkKeepsLayout(st, i);
    if i + 1 < |b0| && b0[i + 1].free { MergeKeepsLayout(st.(blocks := b0), i); }
    var b1 := MergeNext(b0, i);
    if 0 < i { assert b1[i - 1] == b1[..i][i - 1] == b0[..i][i - 1]; }
  }

  /** A freed block that its predecessor absorbs leaves its header behind. */
  lemma LeavesStale(st: State, i: nat)
    requires HeapList.Valid(st) && i < |st.blocks| && Absorbs(st.blocks, i) && st.cur <= WORD
    ensures var b1 := MergeNext(st.blocks[i := st.blocks[i].(free := true)], i);
            StaleAt(st.(blocks := Release(st.blocks, i)), i - 1, st.blocks[i].addr,
                    Linked(b1, i), LeftSize(st.blocks, i))
  {
    hide Layout, MergeNext, Merge, StaleAt, Linked;
    NextMergeKeeps(st, i);
    ReleaseKeepsValid(st, i);
    MergeLeaves(st, i, MergeNext(st.blocks[i := st.blocks[i].(free := true)], i), Release(st.blocks, i));
  }

  /** The list with the absorbed block still on it: the headers one can find in memory. */
  function WithStale(bs: seq<Block>, j: nat, b: Block): (r: seq<Block>)
    requires j < |bs|
    ensures |r| == |bs| + 1 && r[j] == bs[j] && r[j + 1] == b
  {
    bs[..j + 1] + [b] + bs[j + 1..]
  }

  lemma WithStaleAt(bs: seq<Block>, j: nat, b: Block, i: nat)
    requires j < |bs| && i <= |bs| && i != j + 1
    ensures WithStale(bs, j, b)[i] == bs[if i <= j then i else i - 1]
  {
  }

  lemma StaleSpaced(st: State, j: nat, b: Block, h: Header, limit: nat)
    requires Layout(st) && st.cur <= limit && StaleAt(st, j, b.addr, h, b.size)
    ensures Spaced(WithStale(st.blocks, j, b), limit)
  {
    var bs, r := st.blocks, WithStale(st.blocks, j, b);
    LayoutSpaced(st, limit);
    forall i, k | 0 <= i < k < |r| ensures r[i].addr + BLOCK_SIZE <= r[k].addr {
      var i', k' := if i <= j then i else i - 1, if k <= j then k else k - 1;
      if i != j + 1 && k != j + 1 {
        assert bs[i'].addr + BLOCK_SIZE <= bs[k'].addr;
      } else if k == j + 1 {
        assert i == j || bs[i].addr + BLOCK_SIZE <= bs[j].addr;
      } else {
        assert k' == j + 1 || bs[j + 1].addr + BLOCK_SIZE <= bs[k'].addr;
      }
    }
  }

  /** The headers of the list and the stale one between them. */
  ghost predicate HasStale(hs: seq<Header>, bs: seq<Block>, j: nat, h: Header) {
    && |hs| == |bs| + 1 && j < |bs|
    && (forall k | 0 <= k <= j :: hs[k] == Linked(bs, k))
    && hs[j + 1] == h
    && (forall k | j + 1 < k < |hs| :: hs[k] == Linked(bs, k - 1))
  }

  lemma StaleHeaders(m: seq<byte>, head: nat, bs: seq<Block>, j: nat, b: Block)
    requires Represents(m, head, bs) && j < |bs| && Spaced(WithStale(bs, j, b), |m|)
    ensures HasStale(Headers(m, WithStale(bs, j, b)), bs, j, HeaderAt(m, b.addr))
  {
    var r := WithStale(bs, j, b);
    forall k | 0 <= k < |r| && k != j + 1 ensures Headers(m, r)[k] == Linked(bs, if k <= j then k else k - 1) {
      var k' := if k <= j then k else k - 1;
      assert r[k] == bs[k'];
      assert Headers(m, bs)[k'] == Links(bs)[k'];
    }
  }

  /** One header after the stores that absorb the stale block once more. */
  lemma ReabsorbLink(hs: seq<Header>, bs: seq<Block>, j: nat, size: nat, k: nat)
    requires k < |bs| && j < |bs| && HasStale(hs, bs, j, Header(size, true, AddrAt(bs, j + 1), bs[j].addr, MAGIC))
    ensures var sum := (bs[j].size + BLOCK_SIZE + size) % 0x1_0000_0000;
            Absorbed(hs, j, sum, AddrAt(bs, j + 1), bs[j].addr)[if k <= j then k else k + 1]
            == Linked(Reabsorb(bs, j, size), k)
  {
    var r := Reabsorb(bs, j, size);
    assert AddrAt(r, k + 1) == AddrAt(bs, k + 1) && AddrAt(r, k - 1) == AddrAt(bs, k - 1);
    assert k <= j ==> hs[k] == Linked(bs, k);
    assert j < k ==> hs[k + 1] == Linked(bs, k);
  }

  lemma ReabsorbHeader(m: seq<byte>, bs: seq<Block>, j: nat, b: Block, k: nat)
    requires j < |bs| && k < |bs| && Spaced(WithStale(bs, j, b), |m|)
    ensures bs[k].addr + BLOCK_SIZE <= |m|
    ensures HeaderAt(m, bs[k].addr) == Headers(m, WithStale(bs, j, b))[if k <= j then k else k + 1]
  {
    var k' := if k <= j then k else k + 1;
    assert WithStale(bs, j, b)[k'] == bs[k];
    HeaderIn(m, WithStale(bs, j, b), k');
  }

  lemma ReabsorbSpaced(bs: seq<Block>, j: nat, size: nat, limit: nat)
    requires Spaced(bs, limit) && j < |bs|
    ensures Spaced(Reabsorb(bs, j, size), limit)
  {
  }

  /** The stores that absorb the stale block once more give a list with block j grown. */
  lemma ReabsorbRepresents(m: seq<byte>, hs: seq<Header>, head: nat, bs: seq<Block>, j: nat, b: Block)
    requires j < |bs| && head == AddrAt(bs, 0) && Spaced(bs, |m|) && Spaced(WithStale(bs, j, b), |m|)
    requires HasStale(hs, bs, j, Header(b.size, true, AddrAt(bs, j + 1), bs[j].addr, MAGIC))
    requires Headers(m, WithStale(bs, j, b))
          == Absorbed(hs, j, (bs[j].size + BLOCK_SIZE + b.size) % 0x1_0000_0000, AddrAt(bs, j + 1), bs[j].addr)
    ensures Represents(m, head, Reabsorb(bs, j, b.size))
  {
    hide Spaced, HasStale, WithStale, HeaderAt, Linked, Absorbed;
    var r := Reabsorb(bs, j, b.size);
    ReabsorbSpaced(bs, j, b.size, |m|);
    forall k | 0 <= k < |r| ensures Headers(m, r)[k] == Links(r)[k] {
      HeaderIn(m, r, k);
      LinksAt(r, k);
      ReabsorbHeader(m, bs, j, b, k);
      ReabsorbLink(hs, bs, j, b.size, k);
    }
  }

  lemma StaleMagic(st: State, j: nat, a: nat, h: Header, size: nat)
    requires StaleAt(st, j, a, h, size)
    ensures h.magic == MAGIC && j < |st.blocks|
  {
  }

  lemma StaleClear(st: State, j: nat, b: Block, h: Header, c: Block)
    requires Layout(st) && StaleAt(st, j, b.addr, h, b.size) && c in Live(st.blocks)
    ensures Clear(WithStale(st.blocks, j, b), c)
  {
    hide WithStale;
    var bs, r := st.blocks, WithStale(st.blocks, j, b);
    LayoutClear(st, c);
    var k :| 0 <= k < |bs| && bs[k] == c;
    if k < j { OrderedAt(st, k, j); }
    if j + 1 < k { OrderedAt(st, j + 1, k); }
    hide Layout;
    forall i | 0 <= i < |r| ensures r[i].addr + BLOCK_SIZE <= c.Ptr() || c.End() <= r[i].addr {
      if i != j + 1 { WithStaleAt(bs, j, b, i); }
    }
  }

  lemma StaleLive(m: seq<byte>, m': seq<byte>, st: State, j: nat, b: Block, h: Header)
    requires HeapList.Valid(st) && st.cur <= |m| && StaleAt(st, j, b.addr, h, b.size)
    requires HeadersOnly(m, m', WithStale(st.blocks, j, b))
    ensures LiveSame(m, m', st.blocks)
  {
    hide HeadersOnly, Clear, WithStale, StaleAt;
    StaleMagic(st, j, b.addr, h, b.size);
    forall c | c in Live(st.blocks) ensures Same(m, m', c.Ptr(), c.size) {
      LayoutClear(st, c);
      StaleClear(st, j, b, h, c);
      PayloadKept(m, m', WithStale(st.blocks, j, b), c);
    }
  }

  /** The list r is bs with a block at address a between the free block j and its successor. */
  predicate StaleFits(bs: seq<Block>, j: nat, r: seq<Block>, a: nat) {
    && j < |bs| && |r| == |bs| + 1 && bs[j].free && (j + 1 < |bs| ==> !bs[j + 1].free)
    && r[j].addr == bs[j].addr && r[j + 1].addr == a && 0 < bs[j].addr < WORD && AddrAt(bs, j + 1) < WORD
    && (if j + 2 < |r| then AddrAt(bs, j + 1) == r[j + 2].addr != 0 else AddrAt(bs, j + 1) == 0)
  }

  lemma StaleFitsList(st: State, j: nat, b: Block, h: Header)
    requires Layout(st) && st.cur < WORD && StaleAt(st, j, b.addr, h, b.size)
    ensures StaleFits(st.blocks, j, WithStale(st.blocks, j, b), b.addr)
  {
    NullEndsList(st, j + 1);
    assert InHeap(st.blocks[j], st.cur);
    assert j + 1 < |st.blocks| ==> InHeap(st.blocks[j + 1], st.cur);
  }

  lemma ValidList(st: State)
    requires HeapList.Valid(st)
    ensures Layout(st) && Coalesced(st.blocks)
  {
  }

  /** A freed block that no predecessor absorbs is found again under its pointer. */
  lemma StillThere(st: State, i: nat, ptr: nat)
    requires HeapList.Valid(st) && i < |st.blocks| && st.blocks[i].Ptr() == ptr && !Absorbs(st.blocks, i)
    ensures var r := Release(st.blocks, i);
            && HeapList.Valid(st.(blocks := r)) && HeapRuns.IndexOf(r, ptr) == i < |r|
            && !Absorbs(r, i)
  {
    ReleaseKeepsValid(st, i);
    NextMergeKeeps(st, i);
    var r := Release(st.blocks, i);
    BlocksDistinct(st.(blocks := r), HeapRuns.IndexOf(r, ptr), i);
  }

  // ---------------------------------------------------- the stores of kfree

  /** The stores that let header j absorb header j + 1: sizes add in 32 bits, the link goes on. */
  function AbsorbedIn(hs: seq<Header>, r: seq<Block>, j: nat): (q: seq<Header>)
    requires j + 1 < |hs| == |r|
    ensures |q| == |hs|
  {
    Absorbed(hs, j, (hs[j].size + BLOCK_SIZE + hs[j + 1].size) % 0x1_0000_0000, hs[j + 1].next, r[j].addr)
  }

  predicate Named(r: seq<Block>) { forall i | 0 <= i < |r| :: 0 < r[i].addr < WORD }

  /** Header k of the list r lies at address a. */
  ghost predicate Here(m: seq<byte>, r: seq<Block>, k: nat, a: nat) {
    |m| == WORD && Spaced(r, WORD) && Named(r) && k < |r| && r[k].addr == a
  }

  /** The successor that header k names is header k + 1, and if it is to be absorbed, so is its. */
  predicate NextKnown(hs: seq<Header>, r: seq<Block>, k: nat) {
    |hs| == |r| && k < |r| && (hs[k].next != 0 ==>
      k + 1 < |r| && hs[k].next == r[k + 1].addr && (hs[k + 1].free ==> hs[k + 1].next == AddrAt(r, k + 2)))
  }

  function NextAbsorbed(hs: seq<Header>, r: seq<Block>, k: nat): (q: seq<Header>)
    requires NextKnown(hs, r, k)
    ensures |q| == |hs|
  {
    if hs[k].next != 0 && hs[k + 1].free then AbsorbedIn(hs, r, k) else hs
  }

  /** The predecessor that header k names is header k - 1, and if it is to absorb, k's successor
      is header k + 1. */
  predicate PrevKnown(hs: seq<Header>, r: seq<Block>, k: nat) {
    |hs| == |r| && k < |r| && (hs[k].prev != 0 ==>
      0 < k && hs[k].prev == r[k - 1].addr && (hs[k - 1].free ==> hs[k].next == AddrAt(r, k + 1)))
  }

  function PrevAbsorbed(hs: seq<Header>, r: seq<Block>, k: nat): (q: seq<Header>)
    requires PrevKnown(hs, r, k)
    ensures |q| == |hs|
  {
    if hs[k].prev != 0 && hs[k - 1].free then AbsorbedIn(hs, r, k - 1) else hs
  }

  // ... when the header is on the list

  ghost predicate Listed(m: seq<byte>, head: nat, st: State, k: nat) {
    |m| == WORD && Represents(m, head, st.blocks) && Layout(st) && st.cur < WORD && k < |st.blocks|
  }

  lemma ListedKnown(m: seq<byte>, head: nat, st: State, k: nat)
    requires Listed(m, head, st, k)
    ensures st.blocks[k].addr + BLOCK_SIZE <= WORD
    ensures Here(m, st.blocks, k, st.blocks[k].addr)
    ensures NextKnown(Headers(m, st.blocks), st.blocks, k) && PrevKnown(Headers(m, st.blocks), st.blocks, k)
    ensures HeaderAt(m, st.blocks[k].addr) == Linked(st.blocks, k)
  {
    var bs := st.blocks;
    forall i | 0 <= i < |bs| ensures 0 < bs[i].addr < WORD { assert InHeap(bs[i], st.cur); }
    assert Headers(m, bs)[k] == Links(bs)[k];
    if k + 1 < |bs| { assert Headers(m, bs)[k + 1] == Links(bs)[k + 1]; }
    HeaderIn(m, bs, k);
  }

  /** Marking block i free. */
  lemma MarkedListed(m: seq<byte>, m': seq<byte>, head: nat, st: State, i: nat)
    requires Listed(m, head, st, i) && HeadersOnly(m, m', st.blocks)
    requires Headers(m', st.blocks) == Headers(m, st.blocks)[i := Headers(m, st.blocks)[i].(free := true)]
    ensures Listed(m', head, st.(blocks := st.blocks[i := st.blocks[i].(free := true)]), i)
  {
    var bs := st.blocks;
    MarkKeepsLayout(st, i);
    MarkLinks(bs, i, true);
    hide HeaderAt, Layout;
    SameAddresses(m, m', bs, bs[i := bs[i].(free := true)]);
  }

  lemma NoWrap(n: nat)
    requires n < WORD
    ensures n % 0x1_0000_0000 == n
  {
  }

  lemma AbsorbsLinks(m: seq<byte>, head: nat, st: State, j: nat)
    requires Listed(m, head, st, j) && j + 1 < |st.blocks|
    ensures Headers(m, st.blocks) == Links(st.blocks)
    ensures AbsorbedIn(Headers(m, st.blocks), st.blocks, j)
         == Absorbed(Links(st.blocks), j, st.blocks[j].size + BLOCK_SIZE + st.blocks[j + 1].size,
                     AddrAt(st.blocks, j + 2), st.blocks[j].addr)
  {
    hide HeaderAt, Absorbed, Layout, Headers, Links, Spaced;
    AbsorbFacts(st, j);
    LinksAt(st.blocks, j);
    LinksAt(st.blocks, j + 1);
    NoWrap(st.blocks[j].size + BLOCK_SIZE + st.blocks[j + 1].size);
  }

  /** Block j absorbing its successor. */
  lemma AbsorbedListed(m: seq<byte>, m': seq<byte>, head: nat, st: State, j: nat)
    requires Listed(m, head, st, j) && j + 1 < |st.blocks| && st.blocks[j].free && |m'| == WORD
    requires Headers(m', st.blocks) == AbsorbedIn(Headers(m, st.blocks), st.blocks, j)
    ensures Listed(m', head, st.(blocks := Merge(st.blocks, j)), j)
    ensures st.blocks[j + 1].addr + BLOCK_SIZE <= WORD
    ensures HeaderAt(m', st.blocks[j + 1].addr) == HeaderAt(m, st.blocks[j + 1].addr)
  {
    var bs := st.blocks;
    hide Layout, HeaderAt, Absorbed, Merge, Spaced;
    MergeAt(bs, j);
    MergeKeepsLayout(st, j);
    AbsorbsLinks(m, head, st, j);
    var size := bs[j].size + BLOCK_SIZE + bs[j + 1].size;
    AbsorbedHeader(m, m', bs, j, size, AddrAt(bs, j + 2), bs[j].addr);
    MergeLinks(m', bs, j);
    MergeRepresents(m', head, bs, j);
  }

  lemma NextListed(m: seq<byte>, m': seq<byte>, head: nat, st: State, i: nat)
    requires Listed(m, head, st, i) && st.blocks[i].free && |m'| == WORD && HeadersOnly(m, m', st.blocks)
    requires NextKnown(Headers(m, st.blocks), st.blocks, i)
    requires Headers(m', st.blocks) == NextAbsorbed(Headers(m, st.blocks), st.blocks, i)
    ensures Listed(m', head, st.(blocks := MergeNext(st.blocks, i)), i)
  {
    hide Layout, HeaderAt, AbsorbedIn, Merge, Headers, Links, Spaced, HeadersOnly;
    var bs := st.blocks;
    NullEndsList(st, i + 1);
    LinksAt(bs, i);
    if i + 1 < |bs| { LinksAt(bs, i + 1); }
    if i + 1 < |bs| && bs[i + 1].free { AbsorbedListed(m, m', head, st, i); }
  }

  lemma PrevListed(m: seq<byte>, m': seq<byte>, head: nat, st: State, i: nat)
    requires Listed(m, head, st, i) && st.blocks[i].free && |m'| == WORD && HeadersOnly(m, m', st.blocks)
    requires PrevKnown(Headers(m, st.blocks), st.blocks, i)
    requires Headers(m', st.blocks) == PrevAbsorbed(Headers(m, st.blocks), st.blocks, i)
    ensures Represents(m', head, MergePrev(st.blocks, i))
    ensures st.blocks[i].addr + BLOCK_SIZE <= WORD
    ensures Absorbs(st.blocks, i) ==> HeaderAt(m', st.blocks[i].addr) == Linked(st.blocks, i)
  {
    hide Layout, HeaderAt, AbsorbedIn, Merge, Headers, Links, Spaced, HeadersOnly;
    var bs := st.blocks;
    ListedKnown(m, head, st, i);
    NullEndsList(st, i - 1);
    LinksAt(bs, i);
    if 0 < i { LinksAt(bs, i - 1); }
    if Absorbs(bs, i) {
      assert PrevAbsorbed(Headers(m, bs), bs, i) == AbsorbedIn(Headers(m, bs), bs, i - 1);
      AbsorbedListed(m, m', head, st, i - 1);
    }
  }

  /** The three rounds of stores leave every payload that is still live as it was. */
  lemma FreedLive(m: seq<byte>, m1: seq<byte>, m2: seq<byte>, m3: seq<byte>, st: State, i: nat)
    requires Layout(st) && st.cur <= |m| == |m1| == |m2| && i < |st.blocks|
    requires HeadersOnly(m, m1, st.blocks)
    requires HeadersOnly(m1, m2, st.blocks[i := st.blocks[i].(free := true)])
    requires HeadersOnly(m2, m3, MergeNext(st.blocks[i := st.blocks[i].(free := true)], i))
    ensures LiveSame(m, m3, Release(st.blocks, i))
  {
    var b0 := st.blocks[i := st.blocks[i].(free := true)];
    MarkKeepsLayout(st, i);
    NextMergeKeeps(st, i);
    hide Layout, MergeNext, HeadersOnly, LiveSame, Release, Live;
    LiveTwice(m1, m2, m3, st.(blocks := b0), st.(blocks := MergeNext(b0, i)), i);
    LiveFreed(m, m1, m3, st, i);
  }

  // ... and when it is stale

  lemma StaleNamed(st: State, j: nat, b: Block, h: Header)
    requires Layout(st) && st.cur < WORD && StaleAt(st, j, b.addr, h, b.size)
    ensures Named(WithStale(st.blocks, j, b))
  {
    var bs, r := st.blocks, WithStale(st.blocks, j, b);
    forall i | 0 <= i < |bs| ensures 0 < bs[i].addr < WORD { assert InHeap(bs[i], st.cur); }
    forall i | 0 <= i < |r| ensures 0 < r[i].addr < WORD {
      if i != j + 1 { assert r[i] == bs[if i <= j then i else i - 1]; }
    }
  }

  /** The memory holds the list and, behind its block j, the stale header of b. */
  ghost predicate HoldsStale(m: seq<byte>, st: State, j: nat, b: Block) {
    && j < |st.blocks| && Here(m, WithStale(st.blocks, j, b), j + 1, b.addr)
    && StaleFits(st.blocks, j, WithStale(st.blocks, j, b), b.addr)
    && HasStale(Headers(m, WithStale(st.blocks, j, b)), st.blocks, j,
                Header(b.size, true, AddrAt(st.blocks, j + 1), st.blocks[j].addr, MAGIC))
  }

  lemma StaleHeld(m: seq<byte>, head: nat, st: State, j: nat, b: Block)
    requires |m| == WORD && Represents(m, head, st.blocks) && HeapList.Valid(st) && st.cur < WORD
    requires b.addr + BLOCK_SIZE <= WORD && StaleAt(st, j, b.addr, HeaderAt(m, b.addr), b.size)
    ensures HoldsStale(m, st, j, b) && j < |st.blocks|
    ensures Here(m, WithStale(st.blocks, j, b), j + 1, b.addr)
  {
    hide HeaderAt, Headers, Layout;
    var h := HeaderAt(m, b.addr);
    StaleSpaced(st, j, b, h, WORD);
    StaleNamed(st, j, b, h);
    StaleHeaders(m, head, st.blocks, j, b);
    StaleFitsList(st, j, b, h);
  }

  /** A stale header is free already. */
  lemma StaleMarked(m: seq<byte>, m': seq<byte>, st: State, j: nat, b: Block)
    requires HoldsStale(m, st, j, b) && |m'| == WORD
    requires var r := WithStale(st.blocks, j, b);
             Headers(m', r) == Headers(m, r)[j + 1 := Headers(m, r)[j + 1].(free := true)]
    ensures HoldsStale(m', st, j, b)
    ensures Headers(m', WithStale(st.blocks, j, b)) == Headers(m, WithStale(st.blocks, j, b))
  {
    hide Spaced, Headers, WithStale, StaleFits;
  }

  /** Nothing follows it that could be absorbed, and what precedes it absorbs it. */
  lemma StaleKnown(m: seq<byte>, st: State, j: nat, b: Block)
    requires HoldsStale(m, st, j, b)
    ensures var r := WithStale(st.blocks, j, b);
            var hs := Headers(m, r);
            && NextKnown(hs, r, j + 1) && NextAbsorbed(hs, r, j + 1) == hs
            && PrevKnown(hs, r, j + 1)
            && PrevAbsorbed(hs, r, j + 1)
               == Absorbed(hs, j, (st.blocks[j].size + BLOCK_SIZE + b.size) % 0x1_0000_0000,
                           AddrAt(st.blocks, j + 1), st.blocks[j].addr)
  {
    hide Spaced, Headers, WithStale, Absorbed;
    var hs := Headers(m, WithStale(st.blocks, j, b));
    assert hs[j] == Linked(st.blocks, j);
    if j + 1 < |st.blocks| { assert hs[j + 2] == Linked(st.blocks, j + 1); }
  }

  lemma HeadersOnlyTrans(m0: seq<byte>, m1: seq<byte>, m2: seq<byte>, r: seq<Block>)
    requires HeadersOnly(m0, m1, r) && HeadersOnly(m1, m2, r)
    ensures HeadersOnly(m0, m2, r)
  {
    hide OutsideHeaders;
  }

  lemma ReabsorbLive(bs: seq<Block>, j: nat, size: nat)
    requires j < |bs| && bs[j].free
    ensures Live(Reabsorb(bs, j, size)) == Live(bs)
  {
    var r := Reabsorb(bs, j, size);
    assert bs == bs[..j] + [bs[j]] + bs[j + 1..] && r == bs[..j] + [r[j]] + bs[j + 1..];
    LiveParts(bs[..j], [bs[j]], bs[j + 1..]);
    LiveParts(bs[..j], [r[j]], bs[j + 1..]);
  }

  lemma SameLive(m: seq<byte>, m': seq<byte>, a: seq<Block>, b: seq<Block>)
    requires LiveSame(m, m', a) && Live(a) == Live(b)
    ensures LiveSame(m, m', b)
  {
    hide Live;
  }

  /** What the three rounds of stores make of a stale header. */
  lemma StaleFreed(m: seq<byte>, m1: seq<byte>, m2: seq<byte>, m3: seq<byte>, head: nat, st: State, j: nat, b: Block)
    requires HeapList.Valid(st) && st.cur < WORD && |m| == WORD && Represents(m, head, st.blocks)
    requires b.addr + BLOCK_SIZE <= WORD && StaleAt(st, j, b.addr, HeaderAt(m, b.addr), b.size)
    requires HoldsStale(m2, st, j, b) && |m3| == WORD
    requires var r := WithStale(st.blocks, j, b);
             && HeadersOnly(m, m1, r) && HeadersOnly(m1, m2, r) && HeadersOnly(m2, m3, r)
             && PrevKnown(Headers(m2, r), r, j + 1) && Headers(m3, r) == PrevAbsorbed(Headers(m2, r), r, j + 1)
    ensures Represents(m3, head, Reabsorb(st.blocks, j, b.size))
    ensures LiveSame(m, m3, Reabsorb(st.blocks, j, b.size))
  {
    hide HeaderAt, HeadersOnly, StaleAt, Headers, WithStale, LiveSame, Reabsorb, HasStale, Absorbed;
    var r := WithStale(st.blocks, j, b);
    StaleKnown(m2, st, j, b);
    ReabsorbRepresents(m3, Headers(m2, r), head, st.blocks, j, b);
    HeadersOnlyTrans(m, m1, m2, r);
    HeadersOnlyTrans(m, m2, m3, r);
    StaleLive(m, m3, st, j, b, HeaderAt(m, b.addr));
    ReabsorbLive(st.blocks, j, b.size);
    SameLive(m, m3, st.blocks, Reabsorb(st.blocks, j, b.size));
  }

  // The same, stage by stage: before the mark, after it, and after each merge.

  lemma ListStart(m: seq<byte>, head: nat, st: State, k: nat)
    requires |m| == WORD && Represents(m, head, st.blocks) && HeapList.Valid(st) && st.cur < WORD && k < |st.blocks|
    ensures Listed(m, head, st, k) && Here(m, st.blocks, k, st.blocks[k].addr)
  {
    ListedKnown(m, head, st, k);
  }

  function Marked(bs: seq<Block>, k: nat): (r: seq<Block>)
    requires k < |bs|
    ensures |r| == |bs| && r[k].addr == bs[k].addr && r[k].free
  {
    bs[k := bs[k].(free := true)]
  }

  lemma ListMarked(m: seq<byte>, m1: seq<byte>, head: nat, st: State, k: nat)
    requires Listed(m, head, st, k) && HeadersOnly(m, m1, st.blocks) && Spaced(st.blocks, |m1|)
    requires Headers(m1, st.blocks) == Headers(m, st.blocks)[k := Headers(m, st.blocks)[k].(free := true)]
    ensures var r := Marked(st.blocks, k);
            && Listed(m1, head, st.(blocks := r), k) && Here(m1, r, k, r[k].addr) && NextKnown(Headers(m1, r), r, k)
  {
    MarkedListed(m, m1, head, st, k);
    ListedKnown(m1, head, st.(blocks := Marked(st.blocks, k)), k);
  }

  lemma ListNext(m1: seq<byte>, m2: seq<byte>, head: nat, st: State, k: nat)
    requires k < |st.blocks| && Listed(m1, head, st.(blocks := Marked(st.blocks, k)), k) && |m2| == WORD
    requires var r := Marked(st.blocks, k);
             && Here(m1, r, k, r[k].addr) && NextKnown(Headers(m1, r), r, k) && HeadersOnly(m1, m2, r)
             && Headers(m2, r) == NextAbsorbed(Headers(m1, r), r, k)
    ensures var r := MergeNext(Marked(st.blocks, k), k);
            && Listed(m2, head, st.(blocks := r), k) && Here(m2, r, k, st.blocks[k].addr)
            && PrevKnown(Headers(m2, r), r, k)
  {
    hide Headers, Represents, Layout, NextAbsorbed, HeadersOnly;
    NextListed(m1, m2, head, st.(blocks := Marked(st.blocks, k)), k);
    ListedKnown(m2, head, st.(blocks := MergeNext(Marked(st.blocks, k), k)), k);
  }

  lemma ListPrev(m: seq<byte>, m1: seq<byte>, m2: seq<byte>, m3: seq<byte>, head: nat, st: State, k: nat)
    requires HeapList.Valid(st) && st.cur < WORD && k < |st.blocks| && |m| == |m1| == |m2| == |m3| == WORD
    requires HeadersOnly(m, m1, st.blocks) && HeadersOnly(m1, m2, Marked(st.blocks, k))
    requires var r := MergeNext(Marked(st.blocks, k), k);
             && Listed(m2, head, st.(blocks := r), k) && Here(m2, r, k, st.blocks[k].addr)
             && PrevKnown(Headers(m2, r), r, k) && HeadersOnly(m2, m3, r)
             && Headers(m3, r) == PrevAbsorbed(Headers(m2, r), r, k)
    ensures Represents(m3, head, Release(st.blocks, k)) && LiveSame(m, m3, Release(st.blocks, k))
    ensures st.blocks[k].addr + BLOCK_SIZE <= WORD
    ensures Absorbs(st.blocks, k) ==>
              StaleAt(st.(blocks := Release(st.blocks, k)), k - 1, st.blocks[k].addr,
                HeaderAt(m3, st.blocks[k].addr), LeftSize(st.blocks, k))
  {
    hide Headers, Represents, PrevAbsorbed, HeadersOnly, LiveSame, HeaderAt, MergeNext, MergePrev, StaleAt, LeftSize;
    var r := MergeNext(Marked(st.blocks, k), k);
    NextMergeKeeps(st, k);
    PrevListed(m2, m3, head, st.(blocks := r), k);
    FreedLive(m, m1, m2, m3, st, k);
    if Absorbs(st.blocks, k) { LeavesStale(st, k); }
  }

  lemma StaleReady(m: seq<byte>, st: State, j: nat, b: Block)
    requires HoldsStale(m, st, j, b)
    ensures var r := WithStale(st.blocks, j, b);
            && Here(m, r, j + 1, b.addr) && NextKnown(Headers(m, r), r, j + 1)
  {
    StaleKnown(m, st, j, b);
  }

  lemma StaleNext(m1: seq<byte>, m2: seq<byte>, st: State, j: nat, b: Block)
    requires HoldsStale(m1, st, j, b) && |m2| == WORD
    requires var r := WithStale(st.blocks, j, b);
             NextKnown(Headers(m1, r), r, j + 1) && Headers(m2, r) == NextAbsorbed(Headers(m1, r), r, j + 1)
    ensures var r := WithStale(st.blocks, j, b);
            HoldsStale(m2, st, j, b) && Here(m2, r, j + 1, b.addr) && PrevKnown(Headers(m2, r), r, j + 1)
  {
    hide Spaced, Headers, WithStale, StaleFits, NextAbsorbed, PrevAbsorbed, NextKnown, PrevKnown;
    StaleKnown(m1, st, j, b);
    assert HoldsStale(m2, st, j, b);
    StaleKnown(m2, st, j, b);
  }

  lemma HeldIsLive(bs: seq<Block>, i: nat)
    requires i < |bs|
    ensures !bs[i].free ==> bs[i].Ptr() in HeapRuns.LivePtrs(bs)
  {
    if !bs[i].free { assert bs[i] in Live(bs); }
  }

  lemma StaleGrows(st: State, j: nat, a: nat, h: Header, size: nat)
    requires Layout(st) && st.cur < WORD && StaleAt(st, j, a, h, size)
    ensures j < |st.blocks| && Reabsorb(st.blocks, j, size) != st.blocks
  {
    assert InHeap(st.blocks[j], st.cur);
    var x, y := st.blocks[j].size, BLOCK_SIZE + size;
    HeapRuns.WrapsElsewhere(x, y);
    assert Reabsorb(st.blocks, j, size)[j].size == (x + y) % 0x1_0000_0000;
  }

  lemma PtrPositive(bs: seq<Block>, ptr: nat)
    requires ptr in HeapRuns.LivePtrs(bs)
    ensures ptr != 0
  {
  }
}
