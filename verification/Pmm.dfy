/** The physical page allocator of rust/src/pmm.rs: a bitmap with a cached count refines the
    set of pages that are held. */
module Pmm {
  import opened Common

  const BITMAP_SIZE: nat := 8192
  const MAX_PAGES: nat := 65536

  // ------------------------------------------------------------ bits of a byte

  function Mask(k: nat): (r: bv8)
    requires k < 8
  {
    (1 as bv8) << k
  }

  predicate Bit(b: bv8, k: nat)
    requires k < 8
  {
    b & Mask(k) != 0
  }

  function ByteWith(b: bv8, k: nat): (r: bv8)
    requires k < 8
  {
    b | Mask(k)
  }

  function ByteWithout(b: bv8, k: nat): (r: bv8)
    requires k < 8
  {
    b & !Mask(k)
  }

  lemma Masks(k: nat)
    requires k < 8
    ensures Mask(k) == [1, 2, 4, 8, 16, 32, 64, 128][k]
  {
  }

  /** Setting and clearing a bit change that bit and no other. */
  lemma SetBit(b: bv8, k: nat, j: nat)
    requires k < 8 && j < 8
    ensures Bit(ByteWith(b, k), j) <==> j == k || Bit(b, j)
  {
    Masks(k);
    Masks(j);
  }

  lemma ClearBit(b: bv8, k: nat, j: nat)
    requires k < 8 && j < 8
    ensures Bit(ByteWithout(b, k), j) <==> j != k && Bit(b, j)
  {
    Masks(k);
    Masks(j);
  }

  // -------------------------------------------------------- the bitmap as a set

  predicate Held(bits: seq<bv8>, i: nat)
    requires |bits| == BITMAP_SIZE && i < MAX_PAGES
  {
    Bit(bits[i / 8], i % 8)
  }

  ghost function HeldSet(bits: seq<bv8>): (r: set<nat>)
    requires |bits| == BITMAP_SIZE
  {
    set i: nat | i < MAX_PAGES && Held(bits, i)
  }

  /** How many of the first n pages are held. */
  function Count(bits: seq<bv8>, n: nat): (r: nat)
    requires |bits| == BITMAP_SIZE && n <= MAX_PAGES
    ensures r <= n
  {
    if n == 0 then 0 else Count(bits, n - 1) + if Held(bits, n - 1) then 1 else 0
  }

  function WithBit(bits: seq<bv8>, i: nat): (r: seq<bv8>)
    requires |bits| == BITMAP_SIZE && i < MAX_PAGES
    ensures |r| == BITMAP_SIZE
  {
    bits[i / 8 := ByteWith(bits[i / 8], i % 8)]
  }

  function WithoutBit(bits: seq<bv8>, i: nat): (r: seq<bv8>)
    requires |bits| == BITMAP_SIZE && i < MAX_PAGES
    ensures |r| == BITMAP_SIZE
  {
    bits[i / 8 := ByteWithout(bits[i / 8], i % 8)]
  }

  lemma SamePlace(i: nat, j: nat)
    ensures i / 8 == j / 8 && i % 8 == j % 8 <==> i == j
  {
    assert i == 8 * (i / 8) + i % 8 && j == 8 * (j / 8) + j % 8;
  }

  lemma SetAt(bits: seq<bv8>, i: nat, j: nat)
    requires |bits| == BITMAP_SIZE && i < MAX_PAGES && j < MAX_PAGES
    ensures Held(WithBit(bits, i), j) <==> j == i || Held(bits, j)
  {
    hide Bit, ByteWith, ByteWithout;
    SamePlace(i, j);
    if j / 8 == i / 8 { SetBit(bits[i / 8], i % 8, j % 8); }
  }

  lemma ClearAt(bits: seq<bv8>, i: nat, j: nat)
    requires |bits| == BITMAP_SIZE && i < MAX_PAGES && j < MAX_PAGES
    ensures Held(WithoutBit(bits, i), j) <==> j != i && Held(bits, j)
  {
    hide Bit, ByteWith, ByteWithout;
    SamePlace(i, j);
    if j / 8 == i / 8 { ClearBit(bits[i / 8], i % 8, j % 8); }
  }

  lemma SetOne(bits: seq<bv8>, i: nat)
    requires |bits| == BITMAP_SIZE && i < MAX_PAGES
    ensures forall j: nat | j < MAX_PAGES :: Held(WithBit(bits, i), j) <==> j == i || Held(bits, j)
  {
    hide Held, WithBit;
    forall j: nat | j < MAX_PAGES ensures Held(WithBit(bits, i), j) <==> j == i || Held(bits, j) { SetAt(bits, i, j); }
  }

  lemma ClearOne(bits: seq<bv8>, i: nat)
    requires |bits| == BITMAP_SIZE && i < MAX_PAGES
    ensures forall j: nat | j < MAX_PAGES :: Held(WithoutBit(bits, i), j) <==> j != i && Held(bits, j)
  {
    hide Held, WithoutBit;
    forall j: nat | j < MAX_PAGES ensures Held(WithoutBit(bits, i), j) <==> j != i && Held(bits, j) {
      ClearAt(bits, i, j);
    }
  }

  /** Two bitmaps that differ at one page count accordingly. */
  lemma {:induction false} CountOne(a: seq<bv8>, b: seq<bv8>, i: nat, n: nat)
    requires |a| == |b| == BITMAP_SIZE && i < MAX_PAGES && n <= MAX_PAGES
    requires !Held(a, i) && Held(b, i) && forall j: nat | j < MAX_PAGES && j != i :: Held(a, j) == Held(b, j)
    ensures Count(b, n) == Count(a, n) + if i < n then 1 else 0
  {
    hide Held;
    if 0 < n { CountOne(a, b, i, n - 1); }
  }

  lemma {:induction false} CountShort(bits: seq<bv8>, i: nat, n: nat)
    requires |bits| == BITMAP_SIZE && i < n <= MAX_PAGES && !Held(bits, i)
    ensures Count(bits, n) < n
  {
    hide Held;
    if i < n - 1 { CountShort(bits, i, n - 1); }
  }

  lemma {:induction false} CountFullIff(bits: seq<bv8>, n: nat)
    requires |bits| == BITMAP_SIZE && n <= MAX_PAGES
    ensures Count(bits, n) == n <==> forall i | 0 <= i < n :: Held(bits, i)
  {
    hide Held;
    if 0 < n { CountFullIff(bits, n - 1); }
  }

  ghost function Unheld(bits: seq<bv8>, n: nat): (r: set<nat>)
    requires |bits| == BITMAP_SIZE && n <= MAX_PAGES
  {
    set i: nat | i < n && !Held(bits, i)
  }

  lemma {:induction false} CountFree(bits: seq<bv8>, n: nat)
    requires |bits| == BITMAP_SIZE && n <= MAX_PAGES
    ensures |Unheld(bits, n)| == n - Count(bits, n)
  {
    hide Held;
    if 0 < n {
      CountFree(bits, n - 1);
      assert Unheld(bits, n) == Unheld(bits, n - 1) + if Held(bits, n - 1) then {} else {n - 1};
    } else {
      assert Unheld(bits, 0) == {};
    }
  }

  // ----------------------------------------------------------------- runs

  datatype Op = Alloc | Free(page: nat)

  /** Page i is what an allocator of `total` pages hands out when `held` are held. */
  ghost predicate Lowest(held: set<nat>, total: nat, i: nat) {
    i < total && i !in held && forall j: nat | j < i :: j in held
  }

  datatype Books = Books(held: set<nat>, owned: multiset<nat>)

  /** One call, as its callers see it: what is held, and what they own, counting repetitions. */
  ghost predicate Step(total: nat, a: Books, op: Op, b: Books) {
    match op
    case Alloc =>
      (b == a && forall i: nat | i < total :: i in a.held) ||
      exists i: nat :: 0 < i && Lowest(a.held, total, i) && b == Books(a.held + {i}, a.owned + multiset{i})
    case Free(i) =>
      0 < i && i in a.owned && b == Books(if i < total then a.held - {i} else a.held, a.owned - multiset{i})
  }

  ghost predicate Run(total: nat, s: seq<Books>, ops: seq<Op>) {
    |s| == |ops| + 1 && forall k | 0 <= k < |ops| :: Step(total, s[k], ops[k], s[k + 1])
  }

  /** The pages held are those reserved at the start, page 0 among them, and those callers own,
      each owned once. */
  ghost predicate Balanced(reserved: set<nat>, total: nat, b: Books) {
    && 0 in reserved
    && (forall i | i in b.owned :: b.owned[i] == 1 && i < total && i !in reserved)
    && b.held == reserved + set i | i in b.owned
  }

  lemma StepBalanced(reserved: set<nat>, total: nat, a: Books, op: Op, b: Books)
    requires Balanced(reserved, total, a) && Step(total, a, op, b)
    ensures Balanced(reserved, total, b)
  {
    if op.Alloc? && b != a {
      var i: nat :| Lowest(a.held, total, i) && b == Books(a.held + {i}, a.owned + multiset{i});
      assert i !in a.owned;
    }
  }

  /** Over every run in which callers free only what they own, no page has two owners and
      nothing is lost: held pages are the reserved ones and the owned ones. */
  lemma {:induction false} RunBalanced(reserved: set<nat>, total: nat, s: seq<Books>, ops: seq<Op>)
    requires Run(total, s, ops) && Balanced(reserved, total, s[0])
    ensures Balanced(reserved, total, s[|ops|])
    decreases |ops|
  {
    if ops != [] {
      var n := |ops| - 1;
      forall k | 0 <= k < n ensures Step(total, s[..n + 1][k], ops[..n][k], s[..n + 1][k + 1]) {
        assert Step(total, s[k], ops[k], s[k + 1]);
      }
      RunBalanced(reserved, total, s[..n + 1], ops[..n]);
      assert Step(total, s[n], ops[n], s[n + 1]);
      StepBalanced(reserved, total, s[n], ops[n], s[n + 1]);
    }
  }

  lemma NothingHeld(bits: seq<bv8>)
    requires |bits| == BITMAP_SIZE && forall i | 0 <= i < |bits| :: bits[i] == 0
    ensures HeldSet(bits) == {}
  {
  }

  // ---------------------------------------------------------------- the code

  class PageMap {
    const bitmap: array<bv8>
    var totalPages: nat
    var usedPages: nat

    ghost predicate Counted()
      reads this, bitmap
    {
      && bitmap.Length == BITMAP_SIZE && totalPages <= MAX_PAGES
      && usedPages == Count(bitmap[..], totalPages)
    }

    /** Page 0 is reserved, so that address 0 can mean "no page". */
    ghost predicate Valid()
      reads this, bitmap
    {
      Counted() && Held(bitmap[..], 0)
    }

    ghost function Pages(): (r: set<nat>)
      requires bitmap.Length == BITMAP_SIZE
      reads bitmap
    {
      HeldSet(bitmap[..])
    }

    constructor ()
      ensures bitmap.Length == BITMAP_SIZE && fresh(bitmap) && totalPages == 0 && usedPages == 0
      ensures Pages() == {}
    {
      bitmap := new bv8[8192](_ => 0);
      totalPages, usedPages := 0, 0;
    }

    method BitmapSet(i: nat)
      requires bitmap.Length == BITMAP_SIZE && i < MAX_PAGES
      modifies bitmap
      ensures bitmap[..] == WithBit(old(bitmap[..]), i)
      ensures Pages() == old(Pages()) + {i}
    {
      SetOne(bitmap[..], i);
      bitmap[i / 8] := bitmap[i / 8] | Mask(i % 8);
      assert bitmap[..] == WithBit(old(bitmap[..]), i);
    }

    method BitmapClear(i: nat)
      requires bitmap.Length == BITMAP_SIZE && i < MAX_PAGES
      modifies bitmap
      ensures bitmap[..] == WithoutBit(old(bitmap[..]), i)
      ensures Pages() == old(Pages()) - {i}
    {
      ClearOne(bitmap[..], i);
      bitmap[i / 8] := bitmap[i / 8] & !Mask(i % 8);
      assert bitmap[..] == WithoutBit(old(bitmap[..]), i);
    }

    method BitmapTest(i: nat) returns (r: bool)
      requires bitmap.Length == BITMAP_SIZE && i < MAX_PAGES
      ensures r <==> i in Pages()
      ensures r <==> Held(bitmap[..], i)
    {
      r := bitmap[i / 8] & Mask(i % 8) != 0;
    }

    /** Reserve the pages from lo up to hi. */
    method Reserve(lo: nat, hi: nat)
      requires bitmap.Length == BITMAP_SIZE && lo <= hi <= MAX_PAGES
      modifies bitmap
      ensures Pages() == old(Pages()) + Span(lo, hi)
    {
      hide HeldSet, WithBit, Span;
      SpanNone(lo);
      for i := lo to hi
        invariant Pages() == old(Pages()) + Span(lo, i)
      {
        SpanNext(lo, i);
        BitmapSet(i);
      }
    }

    method CountUsed(tp: nat) returns (used: nat)
      requires bitmap.Length == BITMAP_SIZE && tp <= MAX_PAGES
      ensures used == Count(bitmap[..], tp)
    {
      used := 0;
      for i := 0 to tp
        invariant used == Count(bitmap[..], i)
      {
        var t := BitmapTest(i);
        if t { used := used + 1; }
      }
    }

    /** After init the kernel, the bitmap and the text screen are held, and nothing else. */
    method Init(totalMemory: nat, kernelEnd: nat)
      requires bitmap.Length == BITMAP_SIZE && kernelEnd <= MAX_PAGES * 4096
      modifies this, bitmap
      ensures Valid() && totalPages == if totalMemory / 4096 < MAX_PAGES then totalMemory / 4096 else MAX_PAGES
      ensures Pages() == Span(0, if kernelEnd <= 8192 then 2 else (kernelEnd + 4095) / 4096) + {0xB8}
    {
      var tp := totalMemory / 4096;
      if 65536 < tp { tp := 65536; }
      totalPages := tp;
      for i := 0 to 8192
        invariant totalPages == tp && forall k | 0 <= k < i :: bitmap[k] == 0
      {
        bitmap[i] := 0;
      }
      NothingHeld(bitmap[..]);
      Reserve(0, (kernelEnd + 4095) / 4096);
      Reserve(0, 2);
      Reserve(0xB8, 0xB9);
      assert 0 in Pages();
      usedPages := CountUsed(tp);
    }

    lemma FullIff()
      requires Counted()
      ensures usedPages == totalPages <==> forall i: nat | i < totalPages :: i in Pages()
    {
      hide Held;
      CountFullIff(bitmap[..], totalPages);
      assert forall i: nat | i < totalPages :: i in Pages() <==> Held(bitmap[..], i);
    }

    method Take(i: nat)
      requires Counted() && i < totalPages && !Held(bitmap[..], i)
      modifies this`usedPages, bitmap
      ensures Counted() && (old(Held(bitmap[..], 0)) ==> Held(bitmap[..], 0))
      ensures Pages() == old(Pages()) + {i} && old(usedPages) < totalPages && usedPages == old(usedPages) + 1
    {
      ghost var before := bitmap[..];
      SetOne(before, i);
      BitmapSet(i);
      hide Held;
      CountOne(before, bitmap[..], i, totalPages);
      CountShort(before, i, totalPages);
      usedPages := usedPages + 1;
    }

    /** Hands out the lowest page below totalPages that is not held.  The answer is 0 exactly
        when all are held, or when page 0 is not: then that is taken and lost. */
    method AllocPage() returns (page: nat)
      requires Counted()
      modifies this`usedPages, bitmap
      ensures Counted() && (old(Valid()) ==> Valid())
      ensures page == 0 <==> old(usedPages) == totalPages || Lowest(old(Pages()), totalPages, 0)
      ensures old(usedPages) == totalPages <==> forall i: nat | i < totalPages :: i in old(Pages())
      ensures page % 4096 == 0
      ensures if old(usedPages) == totalPages then Pages() == old(Pages()) && usedPages == old(usedPages)
              else Lowest(old(Pages()), totalPages, page / 4096)
                   && Pages() == old(Pages()) + {page / 4096} && usedPages == old(usedPages) + 1
    {
      hide Held, Count, HeldSet;
      FullIff();
      for i := 0 to totalPages
        invariant bitmap[..] == old(bitmap[..]) && usedPages == old(usedPages) && Pages() == old(Pages())
        invariant forall j: nat | j < i :: j in Pages()
      {
        var t := BitmapTest(i);
        if !t {
          Take(i);
          return i * 4096;
        }
      }
      return 0;
    }

    /** Makes a held page below totalPages available again; anything else changes nothing.  Page
        0 stays reserved unless an address inside it is freed. */
    method FreePage(page: nat)
      requires Valid()
      modifies this`usedPages, bitmap
      ensures Counted() && (Valid() <==> !(0 < page < 4096 && 0 < totalPages))
      ensures Pages() == if page != 0 && page / 4096 < totalPages then old(Pages()) - {page / 4096} else old(Pages())
      ensures usedPages
           == old(usedPages) - if page != 0 && page / 4096 < totalPages && page / 4096 in old(Pages()) then 1 else 0
    {
      if page == 0 { return; }
      var index := page / 4096;
      if index < totalPages {
        var t := BitmapTest(index);
        if t {
          ghost var before := bitmap[..];
          ClearOne(before, index);
          BitmapClear(index);
          CountOne(bitmap[..], before, index, totalPages);
          usedPages := usedPages - 1;
        }
      }
    }

    lemma FreeSet()
      requires Valid()
      ensures Unheld(bitmap[..], totalPages) == set i: nat | i < totalPages && i !in Pages()
    {
    }

    /** The cached count answers how many pages can still be handed out. */
    method FreeCount() returns (n: nat)
      requires Valid()
      ensures n == |set i: nat | i < totalPages && i !in Pages()|
    {
      CountFree(bitmap[..], totalPages);
      FreeSet();
      n := totalPages - usedPages;  // saturating in the source; it never saturates
    }

    /** A call with the books its callers keep: what the allocator does is a step of the books,
        and they agree with its bitmap before and after. */
    method Call(op: Op, ghost b: Books) returns (page: nat, ghost b': Books)
      requires Valid() && b.held == Pages()
      requires op.Free? ==> 0 < op.page && op.page in b.owned
      modifies this`usedPages, bitmap
      ensures Valid() && b'.held == Pages() && Step(totalPages, b, op, b')
      ensures op.Alloc? ==> b'.owned == b.owned + if page == 0 then multiset{} else multiset{page / 4096}
    {
      match op {
        case Alloc =>
          page := AllocPage();
          b' := if page == 0 then b else Books(b.held + {page / 4096}, b.owned + multiset{page / 4096});
          assert page != 0 ==> 0 < page / 4096 && Lowest(b.held, totalPages, page / 4096);
        case Free(i) =>
          page := 0;
          FreePage(i * 4096);
          b' := Books(Pages(), b.owned - multiset{i});
      }
    }

    /** An address inside page 0 is freed and a page allocated: the answer is null, however many
        pages are free, and everything is as before. */
    method FirstPageLost() returns (page: nat)
      requires Valid() && 0 < totalPages
      modifies this`usedPages, bitmap
      ensures page == 0
      ensures Valid() && Pages() == old(Pages()) && usedPages == old(usedPages)
    {
      FreePage(1);
      page := AllocPage();
    }
  }
}
