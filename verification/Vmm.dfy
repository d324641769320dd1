/** Two-level paging (src/memory/vmm.c): a page directory and page tables in physical pages
    handed out by the page allocator refine one flat map from virtual pages to frames. */
module Vmm {
  import opened Pmm

  const ENTRIES: nat := 1024
  const ADDRESSES: nat := 0x1_0000_0000

  /** A directory or table entry; `frame` is the top 20 bits. */
  datatype Entry = Entry(present: bool, rw: bool, user: bool, accessed: bool, dirty: bool, frame: nat)

  const EMPTY: Entry := Entry(false, false, false, false, false, 0)

  /** Physical memory, by page number, each page seen as 1024 entries. */
  type Ram = seq<seq<Entry>>

  datatype Mapping = Unmapped | Mapped(frame: nat, rw: bool, user: bool)

  predicate Paged(ram: Ram) {
    |ram| == MAX_PAGES && forall p | 0 <= p < MAX_PAGES :: |ram[p]| == ENTRIES
  }

  /** Every table is entered writable and for the kernel only. */
  predicate Rights(e: Entry) { e.rw && !e.user }

  predicate TableOk(t: nat, dir: nat, held: set<nat>) { 0 < t < MAX_PAGES && t != dir && t in held }

  /** The directory and the tables it names are distinct pages that the allocator holds. */
  predicate TreeOk(ram: Ram, dir: nat, held: set<nat>)
    requires Paged(ram)
  {
    && 0 < dir < MAX_PAGES && dir in held
    && (forall i | 0 <= i < 1024 && ram[dir][i].present :: TableOk(ram[dir][i].frame, dir, held) && Rights(ram[dir][i]))
    && (forall i, j | 0 <= i < j < 1024 && ram[dir][i].present && ram[dir][j].present ::
          ram[dir][i].frame != ram[dir][j].frame)
  }

  /** The flat map: what virtual page n translates to. */
  function Lookup(ram: Ram, dir: nat, n: nat): (r: Mapping)
    requires Paged(ram) && dir < MAX_PAGES && n < 0x10_0000
    requires ram[dir][n / 1024].present ==> ram[dir][n / 1024].frame < MAX_PAGES
  {
    var d := ram[dir][n / 1024];
    if !d.present then Unmapped
    else
      var e := ram[d.frame][n % 1024];
      if e.present then Mapped(e.frame, e.rw, e.user) else Unmapped
  }

  function Translate(e: Entry): (r: Mapping) { if e.present then Mapped(e.frame, e.rw, e.user) else Unmapped }

  /** Entering a table on a page nobody holds into an empty slot gives that slot the table's
      translations and neither loses nor invents any other. */
  lemma NewTable(ram: Ram, dir: nat, held: set<nat>, i: nat, t: nat, e: Entry, table: seq<Entry>)
    requires Paged(ram) && TreeOk(ram, dir, held) && i < 1024 && !ram[dir][i].present && |table| == 1024
    requires 0 < t < MAX_PAGES && t !in held && e.present && e.frame == t && Rights(e)
    ensures var r := ram[t := table][dir := ram[dir][i := e]];
            && Paged(r) && TreeOk(r, dir, held + {t})
            && forall n | 0 <= n < 0x10_0000 ::
                 Lookup(r, dir, n) == if n / 1024 == i then Translate(table[n % 1024]) else Lookup(ram, dir, n)
  {
    var r := ram[t := table][dir := ram[dir][i := e]];
    forall n | 0 <= n < 0x10_0000
      ensures Lookup(r, dir, n) == if n / 1024 == i then Translate(table[n % 1024]) else Lookup(ram, dir, n)
    {
      if n / 1024 != i { assert r[dir][n / 1024] == ram[dir][n / 1024]; }
    }
  }

  lemma Places(m: nat, n: nat)
    ensures m / 1024 == n / 1024 && m % 1024 == n % 1024 <==> m == n
  {
    assert m == 1024 * (m / 1024) + m % 1024 && n == 1024 * (n / 1024) + n % 1024;
  }

  /** Writing one table entry changes the flat map at that page only. */
  lemma SetMapping(ram: Ram, dir: nat, held: set<nat>, n: nat, e: Entry)
    requires Paged(ram) && TreeOk(ram, dir, held) && n < 0x10_0000 && ram[dir][n / 1024].present
    ensures var t := ram[dir][n / 1024].frame;
            var r := ram[t := ram[t][n % 1024 := e]];
            && Paged(r) && TreeOk(r, dir, held)
            && Lookup(r, dir, n) == Translate(e)
            && forall m | 0 <= m < 0x10_0000 && m != n :: Lookup(r, dir, m) == Lookup(ram, dir, m)
  {
    var t := ram[dir][n / 1024].frame;
    assert TableOk(t, dir, held);
    var r := ram[t := ram[t][n % 1024 := e]];
    assert r[dir] == ram[dir];
    forall m | 0 <= m < 0x10_0000 && m != n ensures Lookup(r, dir, m) == Lookup(ram, dir, m) {
      Places(m, n);
      if m / 1024 != n / 1024 && ram[dir][m / 1024].present { assert ram[dir][m / 1024].frame != t; }
    }
  }

  function IdentityTable(i: nat): (r: seq<Entry>)
    ensures |r| == 1024
  {
    seq(1024, j requires 0 <= j < 1024 => Entry(true, true, false, false, false, i * 1024 + j))
  }

  lemma IdentityAt(i: nat)
    ensures forall n: nat | n / 1024 == i :: Translate(IdentityTable(i)[n % 1024]) == Mapped(n, true, false)
  {
  }

  /** The shifts of the code and the page number's two parts. */
  lemma Indices(virt: nat)
    requires virt < ADDRESSES
    ensures virt / 0x40_0000 == virt / 4096 / 1024 < 1024 && virt / 4096 < 0x10_0000
  {
  }

  /** What the processor grants: a right must be given in the directory and in the table. */
  function Granted(ram: Ram, dir: nat, n: nat): (r: Mapping)
    requires Paged(ram) && dir < MAX_PAGES && n < 0x10_0000
    requires ram[dir][n / 1024].present ==> ram[dir][n / 1024].frame < MAX_PAGES
  {
    var d := ram[dir][n / 1024];
    match Lookup(ram, dir, n)
    case Unmapped => Unmapped
    case Mapped(f, rw, user) => Mapped(f, d.rw && rw, d.user && user)
  }

  /** Whatever flags a page is mapped with, user code cannot reach it: the tables never let it.  The
      write right is the one asked for. */
  lemma UserNeverGranted(ram: Ram, dir: nat, held: set<nat>, n: nat)
    requires Paged(ram) && TreeOk(ram, dir, held) && n < 0x10_0000
    ensures ram[dir][n / 1024].present ==> ram[dir][n / 1024].frame < MAX_PAGES
    ensures Granted(ram, dir, n)
         == match Lookup(ram, dir, n) case Unmapped => Unmapped case Mapped(f, rw, _) => Mapped(f, rw, false)
  {
    if ram[dir][n / 1024].present { assert TableOk(ram[dir][n / 1024].frame, dir, held); }
  }

  class AddressSpace {
    const ram: array<seq<Entry>>
    const pmm: PageMap
    var dir: nat

    constructor (memory: array<seq<Entry>>, allocator: PageMap)
      ensures ram == memory && pmm == allocator && dir == 0
    {
      ram, pmm, dir := memory, allocator, 0;
    }

    ghost predicate Valid()
      reads this, ram, pmm, pmm.bitmap
    {
      pmm.Valid() && Paged(ram[..]) && TreeOk(ram[..], dir, pmm.Pages())
    }

    /** The flat map this address space stands for. */
    ghost function At(n: nat): (r: Mapping)
      requires Valid() && n < 0x10_0000
      reads this, ram, pmm, pmm.bitmap
    {
      Lookup(ram[..], dir, n)
    }

    method ZeroPage(p: nat)
      requires p < ram.Length
      modifies ram
      ensures ram[..] == old(ram[..])[p := seq(1024, _ => EMPTY)]
    {
      ram[p] := seq(1024, _ => EMPTY);
    }

    /** The table for a directory slot, or 0: the lookup that makes none. */
    method FindTable(index: nat) returns (table: nat)
      requires Valid() && index < 1024
      ensures table == (if ram[dir][index].present then ram[dir][index].frame else 0) < MAX_PAGES
      ensures table != 0 <==> ram[dir][index].present
    {
      var e := ram[dir][index];
      if !e.present { return 0; }
      assert TableOk(ram[..][dir][index].frame, dir, pmm.Pages());
      table := e.frame;
    }

    /** The table for a directory slot; with `create`, a missing one is made when the allocator
        has a page.  The flat map does not change either way. */
    method GetPageTable(index: nat, create: bool) returns (table: nat)
      requires Valid() && index < 1024
      modifies ram, pmm`usedPages, pmm.bitmap
      ensures Valid() && forall n | 0 <= n < 0x10_0000 :: At(n) == old(At(n))
      ensures table != 0 <==> ram[dir][index].present
      ensures table != 0 ==> table == ram[dir][index].frame
      ensures table == 0 <==> !old(ram[dir][index].present) && (!create || old(pmm.usedPages) == pmm.totalPages)
      ensures old(pmm.Pages()) <= pmm.Pages()
      ensures !create ==>
                ram[..] == old(ram[..]) && pmm.usedPages == old(pmm.usedPages) && pmm.Pages() == old(pmm.Pages())
    {
      ghost var m: Ram, held := ram[..], pmm.Pages();
      var e := ram[dir][index];
      table := FindTable(index);
      if table != 0 || !create { return; }
      var page := pmm.AllocPage();
      if page == 0 { return 0; }
      table := page / 4096;
      var e' := e.(present := true, rw := true, user := false, frame := table);
      NewTable(m, dir, held, index, table, e', seq(1024, _ => EMPTY));
      ZeroPage(table);
      ram[dir] := ram[dir][index := e'];
      assert ram[..] == m[table := seq(1024, _ => EMPTY)][dir := m[dir][index := e']];
    }

    method SetEntry(n: nat, table: nat, e: Entry)
      requires Valid() && n < 0x10_0000 && ram[dir][n / 1024].present && table == ram[dir][n / 1024].frame
      modifies ram
      ensures Valid() && At(n) == Translate(e)
      ensures forall m | 0 <= m < 0x10_0000 && m != n :: At(m) == old(At(m))
    {
      ghost var m: Ram := ram[..];
      assert TableOk(m[dir][n / 1024].frame, dir, pmm.Pages());
      SetMapping(m, dir, pmm.Pages(), n, e);
      ram[table] := ram[table][n % 1024 := e];
      assert ram[..] == m[table := m[table][n % 1024 := e]];
    }

    /** Maps one page: exactly that translation changes, unless a table is missing and the
        allocator is out of pages, when none does. */
    method MapPage(virt: nat, phys: nat, flags: nat)
      requires Valid() && virt < ADDRESSES && phys < ADDRESSES
      modifies ram, pmm`usedPages, pmm.bitmap
      ensures Valid()
      ensures forall n | 0 <= n < 0x10_0000 && n != virt / 4096 :: At(n) == old(At(n))
      ensures At(virt / 4096) ==
              if !old(ram[dir][virt / 0x40_0000].present) && old(pmm.usedPages) == pmm.totalPages
              then old(At(virt / 4096))
              else Mapped(phys / 4096, flags / 2 % 2 == 1, flags / 4 % 2 == 1)
    {
      Indices(virt);
      var table := GetPageTable(virt / 0x40_0000, true);
      if table == 0 { return; }
      SetEntry(virt / 4096, table,
        ram[table][virt / 4096 % 1024].(present := true, rw := flags / 2 % 2 == 1, user := flags / 4 % 2 == 1,
                                        frame := phys / 4096));
    }

    /** Removes one translation and no other. */
    method UnmapPage(virt: nat)
      requires Valid() && virt < ADDRESSES
      modifies ram
      ensures Valid() && At(virt / 4096) == Unmapped
      ensures forall n | 0 <= n < 0x10_0000 && n != virt / 4096 :: At(n) == old(At(n))
    {
      Indices(virt);
      var table := FindTable(virt / 0x40_0000);
      if table == 0 { return; }
      SetEntry(virt / 4096, table, ram[table][virt / 4096 % 1024].(present := false, frame := 0));
    }

    /** The frame's address with the offset in the page, or 0. */
    method GetPhysical(virt: nat) returns (phys: nat)
      requires Valid() && virt < ADDRESSES
      ensures phys == match At(virt / 4096) case Unmapped => 0 case Mapped(f, _, _) => f * 4096 + virt % 4096
    {
      Indices(virt);
      var table := FindTable(virt / 0x40_0000);
      if table == 0 { return 0; }
      var e: Entry := ram[table][virt / 4096 % 1024];
      if !e.present { return 0; }
      return e.frame * 4096 + virt % 4096;
    }

    // -------------------------------------------------------------- vmm_init

    /** Fill a zeroed page with the identity translations of directory slot i. */
    method FillTable(p: nat, i: nat)
      requires p < ram.Length && ram[p] == seq(1024, _ => EMPTY) && i < 1024
      modifies ram
      ensures ram[..] == old(ram[..])[p := IdentityTable(i)]
    {
      for j := 0 to 1024
        invariant |ram[p]| == 1024 && ram[..] == old(ram[..])[p := ram[p]]
        invariant forall k | 0 <= k < 1024 :: ram[p][k] == if k < j then IdentityTable(i)[k] else EMPTY
      {
        var phys := i * 0x40_0000 + j * 4096;
        ram[p] := ram[p][j := ram[p][j].(present := true, rw := true, user := false, frame := phys / 4096)];
      }
      assert ram[p] == IdentityTable(i);
    }

    /** One slot of the kernel directory; without a page it stays empty. */
    method BuildTable(i: nat)
      requires Valid() && i < 1024 && !ram[dir][i].present
      modifies ram, pmm`usedPages, pmm.bitmap
      ensures Valid()
      ensures forall n | 0 <= n < 0x10_0000 ::
                At(n) == if n / 1024 == i && old(pmm.usedPages) < pmm.totalPages
                         then Mapped(n, true, false) else old(At(n))
      ensures forall k | 0 <= k < 1024 && k != i :: ram[dir][k] == old(ram[dir][k])
      ensures pmm.usedPages == old(pmm.usedPages) + if old(pmm.usedPages) < pmm.totalPages then 1 else 0
    {
      ghost var m: Ram, held := ram[..], pmm.Pages();
      var page := pmm.AllocPage();
      if page == 0 { return; }
      var table := page / 4096;
      ZeroPage(table);
      FillTable(table, i);
      var e: Entry := ram[dir][i].(present := true, rw := true, user := false, frame := table);
      NewTable(m, dir, held, i, table, e, IdentityTable(i));
      ram[dir] := ram[dir][i := e];
      assert ram[..] == m[table := IdentityTable(i)][dir := m[dir][i := e]];
      IdentityAt(i);
    }

    /** Builds the kernel directory, unless there is no page for it (the source then halts).
        Only the first 64 MB and the top 4 MB are translated, to themselves; with 18 pages
        free all of them are. */
    method Init() returns (ok: bool)
      requires pmm.Valid() && Paged(ram[..])
      modifies this`dir, ram, pmm`usedPages, pmm.bitmap
      ensures ok <==> old(pmm.usedPages) < pmm.totalPages
      ensures ok ==> Valid()
      ensures ok ==> forall n | 0 <= n < 0x10_0000 ::
                At(n) == Unmapped || (At(n) == Mapped(n, true, false) && (n < 16 * 1024 || 1023 * 1024 <= n))
      ensures ok && old(pmm.usedPages) + 18 <= pmm.totalPages ==>
                forall n | 0 <= n < 0x10_0000 && (n < 16 * 1024 || 1023 * 1024 <= n) :: At(n) == Mapped(n, true, false)
    {
      var page := pmm.AllocPage();
      if page == 0 { return false; }
      dir := page / 4096;
      ZeroPage(dir);
      assert ram[dir] == seq(1024, _ => EMPTY);
      ghost var used := pmm.usedPages;
      for i := 0 to 16
        invariant Valid() && used + (if used + 17 <= pmm.totalPages then i else 0) <= pmm.usedPages <= used + i
        invariant forall k | i <= k < 1024 :: !ram[dir][k].present
        invariant forall n | 0 <= n < 0x10_0000 ::
                    At(n) == Unmapped || (At(n) == Mapped(n, true, false) && n < i * 1024)
        invariant used + 17 <= pmm.totalPages ==> forall n | 0 <= n < i * 1024 :: At(n) == Mapped(n, true, false)
      {
        BuildTable(i);
      }
      BuildTable(1023);
      return true;
    }
  }
}
