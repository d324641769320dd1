/** The FAT16 driver's chain code (src/fs/fat16.c) over a disk of 512-byte sectors: entry
    addressing, allocation, freeing and reading.  The disk answers without errors. */
module Fat16 {
  import opened Memory
  import opened FatTable

  type Sector = s: seq<byte> | |s| == 512 witness seq(512, _ => 0)

  const FREE: nat := 0
  const LAST: nat := 0xFFFF

  /** What mounting leaves in `fs`: where the table and the data start, and how large they are. */
  datatype Volume = Volume(fatStart: nat, fatSize: nat, dataStart: nat, perCluster: nat, clusters: nat)

  /** The sectors a walk can touch exist. */
  predicate WalkOnDisk(disk: seq<Sector>, v: Volume) { v.fatStart + 16 <= |disk| }

  // --------------------------------------------------------- entries and bytes

  function EntrySector(v: Volume, c: nat): (r: nat) { v.fatStart + c * 2 / 512 }

  /** An entry lies within its sector, at an even byte. */
  lemma EntryOffset(c: nat)
    ensures c * 2 / 512 == c / 256 && c * 2 % 512 == 2 * (c % 256) <= 510
  {
    var q, r := c / 256, c % 256;
    assert c * 2 == 512 * q + 2 * r;
  }

  function Entry(disk: seq<Sector>, v: Volume, c: nat): (e: nat)
    requires EntrySector(v, c) < |disk|
    ensures e < 0x1_0000
  {
    EntryOffset(c);
    Get16(disk[EntrySector(v, c)], c * 2 % 512)
  }

  function SetEntry(disk: seq<Sector>, v: Volume, c: nat, e: nat): (r: seq<Sector>)
    requires EntrySector(v, c) < |disk| && e < 0x1_0000
    ensures |r| == |disk|
  {
    EntryOffset(c);
    disk[EntrySector(v, c) := Put16(disk[EntrySector(v, c)], c * 2 % 512, e)]
  }

  /** The n entries of the table, as numbers. */
  function Table(disk: seq<Sector>, v: Volume, n: nat): (t: seq<nat>)
    requires n == 0 || EntrySector(v, n - 1) < |disk|
    ensures |t| == n
  {
    seq(n, c requires 0 <= c < n => Entry(disk, v, c))
  }

  lemma Addresses(c: nat)
    ensures c == 256 * (c * 2 / 512) + c * 2 % 512 / 2 && c * 2 % 512 % 2 == 0
  {
  }

  /** Entries do not overlap: setting one changes that one and no other. */
  lemma EntrySet(disk: seq<Sector>, v: Volume, c: nat, e: nat, d: nat)
    requires EntrySector(v, c) < |disk| && EntrySector(v, d) < |disk| && e < 0x1_0000
    ensures Entry(SetEntry(disk, v, c, e), v, d) == if d == c then e else Entry(disk, v, d)
  {
    GetPut16(disk[EntrySector(v, c)], c * 2 % 512, e);
    if d != c && EntrySector(v, d) == EntrySector(v, c) {
      Addresses(c);
      Addresses(d);
    }
  }

  /** The allocation scan, sector by sector and 256 entries to a sector, and the walker, which
      divides the byte offset, address the same two bytes. */
  lemma ScanAddresses(v: Volume, s: nat, i: nat)
    requires i < 256
    ensures EntrySector(v, s * 256 + i) == v.fatStart + s && (s * 256 + i) * 2 % 512 == i * 2
  {
    assert (s * 256 + i) * 2 == s * 512 + i * 2;
  }

  lemma TableSet(disk: seq<Sector>, v: Volume, n: nat, c: nat, e: nat)
    requires c < n && EntrySector(v, n - 1) < |disk| && e < 0x1_0000
    ensures EntrySector(v, c) < |disk|
    ensures Table(SetEntry(disk, v, c, e), v, n) == Table(disk, v, n)[c := e]
  {
    forall d | 0 <= d < n ensures Table(SetEntry(disk, v, c, e), v, n)[d] == Table(disk, v, n)[c := e][d] {
      EntrySet(disk, v, c, e, d);
    }
  }

  // ------------------------------------------------------------- freeing

  /** Freeing a chain on the disk. */
  function FreeDisk(disk: seq<Sector>, v: Volume, c: nat): (r: seq<Sector>)
    requires WalkOnDisk(disk, v)
    ensures |r| == |disk|
    decreases Nonzero(Table(disk, v, 0x1000)), if InWalk(c) then 1 else 0
  {
    if !InWalk(c) then disk
    else
      TableSet(disk, v, 0x1000, c, 0);
      NonzeroAt(Table(disk, v, 0x1000), c, 0);
      FreeDisk(SetEntry(disk, v, c, 0), v, Entry(disk, v, c))
  }

  predicate SameOutside(a: seq<Sector>, b: seq<Sector>, v: Volume) {
    |a| == |b| && forall s | 0 <= s < |a| && !(v.fatStart <= s < v.fatStart + 16) :: b[s] == a[s]
  }

  lemma SetEntryInside(disk: seq<Sector>, v: Volume, c: nat, e: nat)
    requires WalkOnDisk(disk, v) && InWalk(c) && e < 0x1_0000
    ensures SameOutside(disk, SetEntry(disk, v, c, e), v)
  {
  }

  /** On the disk freeing is what it is on the table, and touches no sector outside it. */
  lemma {:induction false} FreeDiskIsFree(disk: seq<Sector>, v: Volume, c: nat)
    requires WalkOnDisk(disk, v)
    ensures Table(FreeDisk(disk, v, c), v, 0x1000) == Free(Table(disk, v, 0x1000), c)
    ensures SameOutside(disk, FreeDisk(disk, v, c), v)
    decreases Nonzero(Table(disk, v, 0x1000)), if InWalk(c) then 1 else 0
  {
    hide SetEntry, Nonzero;
    if InWalk(c) {
      SetEntryInside(disk, v, c, 0);
      TableSet(disk, v, 0x1000, c, 0);
      NonzeroAt(Table(disk, v, 0x1000), c, 0);
      FreeDiskIsFree(SetEntry(disk, v, c, 0), v, Entry(disk, v, c));
    }
  }

  /** An entry determines the two bytes that hold it. */
  lemma EntryBytes(m: seq<byte>, m': seq<byte>, a: nat)
    requires a + 2 <= |m| && a + 2 <= |m'|
    ensures Get16(m, a) == Get16(m', a) <==> m[a] == m'[a] && m[a + 1] == m'[a + 1]
    ensures Get16(m, a) == 0 <==> m[a] == 0 && m[a + 1] == 0
  {
  }

  /** Byte k of sector s of a FAT holds half of this entry. */
  function EntryAt(v: Volume, s: nat, k: nat): (d: nat)
    requires v.fatStart <= s
  {
    (s - v.fatStart) * 256 + k / 2
  }

  /** Freeing zeroes exactly the bytes of the entries on the walk; every other byte of the disk
      is as before, whatever the FAT holds. */
  lemma FreeDiskExact(disk: seq<Sector>, v: Volume, c: nat, s: nat, k: nat)
    requires WalkOnDisk(disk, v) && s < |disk| && k < 512
    ensures FreeDisk(disk, v, c)[s][k]
         == if v.fatStart <= s < v.fatStart + 16 && Visits(Table(disk, v, 0x1000), c, EntryAt(v, s, k))
            then 0 else disk[s][k]
  {
    hide FreeDisk, Free, Visits;
    FreeDiskIsFree(disk, v, c);
    var r, t := FreeDisk(disk, v, c), Table(disk, v, 0x1000);
    if v.fatStart <= s < v.fatStart + 16 {
      var d, i := EntryAt(v, s, k), k / 2;
      ScanAddresses(v, s - v.fatStart, i);
      FreeExact(t, c, d);
      assert Table(r, v, 0x1000)[d] == Get16(r[s], i * 2) && t[d] == Get16(disk[s], i * 2);
      EntryBytes(r[s], disk[s], i * 2);
      assert k == i * 2 || k == i * 2 + 1;
    }
  }

  // ----------------------------------------------------------- allocating

  lemma SectorInFat(v: Volume, c: nat)
    requires c < v.fatSize * 256
    ensures EntrySector(v, c) < v.fatStart + v.fatSize
  {
  }

  /** The lowest free cluster of the volume from c on, or 0. */
  function FirstFree(disk: seq<Sector>, v: Volume, c: nat): (r: nat)
    requires v.fatStart + v.fatSize <= |disk| && c <= v.fatSize * 256
    decreases v.fatSize * 256 - c
  {
    if c == v.fatSize * 256 then 0
    else
      SectorInFat(v, c);
      if 2 <= c < 2 + v.clusters && Entry(disk, v, c) == FREE then c else FirstFree(disk, v, c + 1)
  }

  lemma {:induction false} FirstFreeIsLowest(disk: seq<Sector>, v: Volume, c: nat)
    requires v.fatStart + v.fatSize <= |disk| && c <= v.fatSize * 256
    ensures var r := FirstFree(disk, v, c);
            && (r != 0 ==> c <= r < v.fatSize * 256 && 2 <= r < 2 + v.clusters
                           && EntrySector(v, r) < |disk| && Entry(disk, v, r) == FREE)
            && forall d | c <= d < v.fatSize * 256 && 2 <= d < 2 + v.clusters && (r == 0 || d < r) ::
                 EntrySector(v, d) < |disk| && Entry(disk, v, d) != FREE
    decreases v.fatSize * 256 - c
  {
    if c < v.fatSize * 256 {
      SectorInFat(v, c);
      FirstFreeIsLowest(disk, v, c + 1);
    }
  }

  function Allocate(disk: seq<Sector>, v: Volume): (r: seq<Sector>)
    requires v.fatStart + v.fatSize <= |disk|
  {
    FirstFreeIsLowest(disk, v, 0);
    var c := FirstFree(disk, v, 0);
    if c == 0 then disk else SetEntry(disk, v, c, LAST)
  }

  /** Allocation writes the end mark, 0xFFFF, into the entry of the cluster it answers and changes
      no other; when it answers 0 nothing changes. */
  lemma AllocateMarks(disk: seq<Sector>, v: Volume, d: nat)
    requires v.fatStart + v.fatSize <= |disk| && d < v.fatSize * 256
    ensures var c, r := FirstFree(disk, v, 0), Allocate(disk, v);
            && |r| == |disk| && EntrySector(v, d) < |disk|
            && (if c == 0 then r == disk else Entry(r, v, d) == if d == c then 0xFFFF else Entry(disk, v, d))
  {
    FirstFreeIsLowest(disk, v, 0);
    SectorInFat(v, d);
    if FirstFree(disk, v, 0) != 0 { EntrySet(disk, v, FirstFree(disk, v, 0), LAST, d); }
  }

  lemma PutTwice(m: seq<byte>, a: nat, x: nat)
    requires a + 2 <= |m| && x < 0x1_0000
    ensures Put16(Put16(m, a, x), a, Get16(m, a)) == m
  {
  }

  lemma SetTwice(disk: seq<Sector>, v: Volume, c: nat, e: nat)
    requires EntrySector(v, c) < |disk| && e < 0x1_0000
    ensures SetEntry(SetEntry(disk, v, c, e), v, c, Entry(disk, v, c)) == disk
  {
    hide Put16, Get16;
    EntryOffset(c);
    var s := EntrySector(v, c);
    PutTwice(disk[s], c * 2 % 512, e);
    assert SetEntry(disk, v, c, e)[s] == Put16(disk[s], c * 2 % 512, e);
    assert disk[s := disk[s]] == disk;
  }

  /** Freeing the chain that starts at a fresh cluster restores every byte of the disk, if and
      only if that cluster lies below the end of the code's walks. */
  lemma FreeUndoesAllocateIff(disk: seq<Sector>, v: Volume)
    requires v.fatStart + v.fatSize <= |disk| && WalkOnDisk(disk, v) && FirstFree(disk, v, 0) != 0
    ensures FreeDisk(Allocate(disk, v), v, FirstFree(disk, v, 0)) == disk <==> FirstFree(disk, v, 0) < END_OF_WALK
  {
    var c := FirstFree(disk, v, 0);
    FirstFreeIsLowest(disk, v, 0);
    var d := Allocate(disk, v);
    EntrySet(disk, v, c, LAST, c);
    if InWalk(c) {
      SetTwice(disk, v, c, LAST);
      assert FreeDisk(d, v, c) == FreeDisk(SetEntry(d, v, c, 0), v, LAST) == SetEntry(d, v, c, 0);
    } else {
      assert FreeDisk(d, v, c) == d;
    }
  }

  function FullSector(n: nat): (r: Sector) {
    seq(512, k requires 0 <= k < 512 => if k < n then 0xFF else 0)
  }

  /** A full table whose first free cluster is the first that walks stop at: what allocation
      takes there, freeing does not give back. */
  function FullBelow(): (disk: seq<Sector>)
    ensures |disk| == 16
  {
    seq<Sector>(16, s requires 0 <= s < 16 => FullSector(if s < 15 then 512 else 0x1F0))
  }

  lemma FullEntry(v: Volume, d: nat)
    requires v.fatStart == 0 && d < 0x1000
    ensures EntrySector(v, d) < 16 && (Entry(FullBelow(), v, d) == FREE <==> 0xFF8 <= d)
  {
    Addresses(d);
    var s, a := d * 2 / 512, d * 2 % 512;
    assert FullBelow()[s] == FullSector(if s < 15 then 512 else 0x1F0);
    assert a < 0x1F0 || s < 15 <==> d < 0xFF8;
  }

  lemma FreshClusterStays()
    ensures var v := Volume(0, 16, 16, 1, 0x0FFE);
            && FirstFree(FullBelow(), v, 0) == 0xFF8
            && FreeDisk(Allocate(FullBelow(), v), v, 0xFF8) == Allocate(FullBelow(), v) != FullBelow()
  {
    var disk, v := FullBelow(), Volume(0, 16, 16, 1, 0x0FFE);
    hide Entry, EntrySector, FullBelow, FirstFree;
    FirstFreeIsLowest(disk, v, 0);
    FullEntry(v, 0xFF8);
    FullEntry(v, FirstFree(disk, v, 0));
    FreeUndoesAllocateIff(disk, v);
  }

  // ---------------------------------------------------------------- the code

  method NextCluster(disk: array<Sector>, v: Volume, cluster: nat) returns (next: nat)
    requires EntrySector(v, cluster) < disk.Length
    ensures next == Entry(disk[..], v, cluster)
  {
    EntryOffset(cluster);
    var fatOffset := cluster * 2;
    var fatSector := v.fatStart + fatOffset / 512;
    var sector := disk[fatSector];
    next := Get16(sector, fatOffset % 512);
  }

  /** fat16_free_cluster_chain: ends on every table and leaves the disk that FreeDisk says. */
  method FreeClusterChain(disk: array<Sector>, v: Volume, first: nat)
    requires WalkOnDisk(disk[..], v)
    modifies disk
    ensures disk[..] == FreeDisk(old(disk[..]), v, first)
  {
    var cluster := first;
    while 2 <= cluster < 0xFF8
      invariant WalkOnDisk(disk[..], v) && FreeDisk(disk[..], v, cluster) == FreeDisk(old(disk[..]), v, first)
      decreases Nonzero(Table(disk[..], v, 0x1000)), if InWalk(cluster) then 1 else 0
    {
      ghost var d := disk[..];
      TableSet(d, v, 0x1000, cluster, 0);
      NonzeroAt(Table(d, v, 0x1000), cluster, 0);
      var next := NextCluster(disk, v, cluster);
      var fatSector := v.fatStart + cluster * 2 / 512;
      var sector := disk[fatSector];
      disk[fatSector] := Put16(sector, cluster * 2 % 512, FREE);
      assert disk[..] == SetEntry(d, v, cluster, 0);
      cluster := next;
    }
  }

  lemma FreeHere(disk: seq<Sector>, v: Volume, c: nat)
    requires v.fatStart + v.fatSize <= |disk| && c < v.fatSize * 256 && 2 <= c < 2 + v.clusters
    requires EntrySector(v, c) < |disk| && Entry(disk, v, c) == FREE
    ensures FirstFree(disk, v, c) == c
  {
  }

  /** fat16_allocate_cluster: marks the lowest free cluster and returns it, or returns 0. */
  method AllocateCluster(disk: array<Sector>, v: Volume) returns (r: nat)
    requires v.fatStart + v.fatSize <= disk.Length
    modifies disk
    ensures r == FirstFree(old(disk[..]), v, 0) && disk[..] == Allocate(old(disk[..]), v)
  {
    hide Get16, Put16, FreeDisk, Table;
    ghost var d := disk[..];
    for s := 0 to v.fatSize
      invariant disk[..] == d && FirstFree(d, v, 0) == FirstFree(d, v, s * 256)
    {
      var sector := disk[v.fatStart + s];
      for i := 0 to 256
        invariant disk[..] == d && FirstFree(d, v, 0) == FirstFree(d, v, s * 256 + i)
      {
        ScanAddresses(v, s, i);
        var cluster := s * 256 + i;
        assert cluster < v.fatSize * 256;
        if 2 <= cluster < 2 + v.clusters && Get16(sector, i * 2) == FREE {
          FreeHere(d, v, cluster);
          disk[v.fatStart + s] := Put16(sector, i * 2, LAST);
          assert disk[..] == SetEntry(d, v, cluster, LAST);
          return cluster;
        }
      }
    }
    return 0;
  }
}
