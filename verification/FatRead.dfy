/** Reading a FAT16 file (src/fs/fat16.c:161-199): the cluster walk, the three bounds on each
    copy, and when the loop ends. */
module FatRead {
  import opened Common
  import opened Memory
  import opened FatTable
  import opened Fat16

  /** The cluster data of every walk lies on the disk. */
  predicate DataOnDisk(disk: seq<Sector>, v: Volume) {
    0 < v.perCluster && v.dataStart + 0xFF8 * v.perCluster <= |disk|
  }

  function Sectors(disk: seq<Sector>, s: nat, n: nat): (r: seq<byte>)
    requires s + n <= |disk|
    ensures |r| == 512 * n
  {
    if n == 0 then [] else Sectors(disk, s, n - 1) + disk[s + n - 1]
  }

  lemma MulMono(a: nat, b: nat, m: nat)
    requires a <= b
    ensures a * m <= b * m
  {
    assert b * m == a * m + (b - a) * m;
  }

  /** The first sector of a cluster. */
  function Start(v: Volume, c: nat): (s: nat)
    requires 2 <= c
  {
    v.dataStart + (c - 2) * v.perCluster
  }

  /** The data area starts with cluster 2, and each cluster goes on where the one before it ends. */
  lemma StartSteps(v: Volume, c: nat)
    requires 2 <= c
    ensures Start(v, 2) == v.dataStart && Start(v, c + 1) == Start(v, c) + v.perCluster
  {
    assert (2 - 2) * v.perCluster == 0;
    assert (c + 1 - 2) * v.perCluster == (c - 2) * v.perCluster + v.perCluster;
  }

  /** No two clusters share a sector. */
  lemma {:induction false} StartsApart(v: Volume, c: nat, d: nat)
    requires 2 <= c < d
    ensures Start(v, c) + v.perCluster <= Start(v, d)
  {
    hide Start;
    StartSteps(v, d - 1);
    if c + 1 < d { StartsApart(v, c, d - 1); }
  }

  lemma ClusterFits(disk: seq<Sector>, v: Volume, c: nat)
    requires DataOnDisk(disk, v) && InWalk(c)
    ensures Start(v, c) + v.perCluster <= |disk|
  {
    StartsApart(v, c, 0xFF8);
    MulMono(0xFF6, 0xFF8, v.perCluster);
  }

  function ClusterData(disk: seq<Sector>, v: Volume, c: nat): (r: seq<byte>)
    requires DataOnDisk(disk, v) && InWalk(c)
    ensures |r| == 512 * v.perCluster
  {
    ClusterFits(disk, v, c);
    Sectors(disk, Start(v, c), v.perCluster)
  }

  /** The first n clusters from c on are all on the walk. */
  predicate Alive(t: seq<nat>, c: nat, n: nat)
    requires 0xFF8 <= |t|
    decreases n
  {
    n == 0 || (InWalk(c) && Alive(t, t[c], n - 1))
  }

  /** The data of the first n clusters of the walk. */
  function Concat(disk: seq<Sector>, v: Volume, t: seq<nat>, c: nat, n: nat): (r: seq<byte>)
    requires DataOnDisk(disk, v) && 0xFF8 <= |t| && Alive(t, c, n)
    decreases n
  {
    if n == 0 then [] else ClusterData(disk, v, c) + Concat(disk, v, t, t[c], n - 1)
  }

  // ------------------------------------------------------- which bytes those are

  lemma {:induction false} SectorsAt(disk: seq<Sector>, s: nat, n: nat, k: nat)
    requires s + n <= |disk| && k < 512 * n
    ensures Sectors(disk, s, n)[k] == disk[s + k / 512][k % 512]
  {
    if k < 512 * (n - 1) { SectorsAt(disk, s, n - 1, k); }
  }

  lemma {:induction false} SectorsJoin(disk: seq<Sector>, s: nat, m: nat, n: nat)
    requires s + m + n <= |disk|
    ensures Sectors(disk, s, m) + Sectors(disk, s + m, n) == Sectors(disk, s, m + n)
  {
    if 0 < n {
      SectorsJoin(disk, s, m, n - 1);
      assert Sectors(disk, s, m) + (Sectors(disk, s + m, n - 1) + disk[s + m + n - 1])
          == (Sectors(disk, s, m) + Sectors(disk, s + m, n - 1)) + disk[s + m + n - 1];
    }
  }

  lemma SectorInCluster(v: Volume, x: nat)
    requires x < 512 * v.perCluster
    ensures x / 512 < v.perCluster
  {
  }

  /** Byte x of a cluster, by sector and offset on the disk. */
  lemma ClusterByte(disk: seq<Sector>, v: Volume, c: nat, x: nat)
    requires DataOnDisk(disk, v) && InWalk(c) && x < 512 * v.perCluster
    ensures Start(v, c) + x / 512 < |disk| && ClusterData(disk, v, c)[x] == disk[Start(v, c) + x / 512][x % 512]
  {
    hide Start, DataOnDisk;
    ClusterFits(disk, v, c);
    SectorInCluster(v, x);
    SectorsAt(disk, Start(v, c), v.perCluster, x);
  }

  /** Clusters that follow each other are one stretch of sectors. */
  lemma ClustersJoin(disk: seq<Sector>, v: Volume, c: nat)
    requires DataOnDisk(disk, v) && InWalk(c) && InWalk(c + 1)
    ensures Start(v, c) + v.perCluster + v.perCluster <= |disk|
    ensures ClusterData(disk, v, c) + ClusterData(disk, v, c + 1)
         == Sectors(disk, Start(v, c), v.perCluster + v.perCluster)
  {
    hide Start, DataOnDisk, Sectors;
    ClusterFits(disk, v, c);
    ClusterFits(disk, v, c + 1);
    StartSteps(v, c);
    SectorsJoin(disk, Start(v, c), v.perCluster, v.perCluster);
  }

  lemma {:induction false} ConcatSize(disk: seq<Sector>, v: Volume, t: seq<nat>, c: nat, n: nat)
    requires DataOnDisk(disk, v) && 0xFF8 <= |t| && Alive(t, c, n)
    ensures |Concat(disk, v, t, c, n)| == n * (512 * v.perCluster)
    decreases n
  {
    hide ClusterData, DataOnDisk;
    if 0 < n {
      ConcatSize(disk, v, t, t[c], n - 1);
      assert n * (512 * v.perCluster) == (n - 1) * (512 * v.perCluster) + 512 * v.perCluster;
    }
  }

  lemma {:induction false} WalkByte(disk: seq<Sector>, v: Volume, t: seq<nat>, c: nat, n: nat, q: nat, x: nat)
    requires DataOnDisk(disk, v) && 0xFF8 <= |t| && Alive(t, c, n) && q < n && x < 512 * v.perCluster
    ensures InWalk(Orbit(t, c, q)) && q * (512 * v.perCluster) + x < |Concat(disk, v, t, c, n)|
    ensures Concat(disk, v, t, c, n)[q * (512 * v.perCluster) + x] == ClusterData(disk, v, Orbit(t, c, q))[x]
    decreases n
  {
    hide ClusterData, DataOnDisk;
    var cs := 512 * v.perCluster;
    ConcatSize(disk, v, t, c, n);
    if q == 0 {
      assert Orbit(t, c, 0) == c;
      assert 0 * cs + x == x && x < n * cs by { MulMono(1, n, cs); }
    } else {
      WalkByte(disk, v, t, t[c], n - 1, q - 1, x);
      OrbitShift(t, c, q - 1);
      assert q * cs + x == cs + ((q - 1) * cs + x);
    }
  }

  /** Byte x of the q-th cluster of a walk lies where the q-th link leads. */
  lemma FileByte(disk: seq<Sector>, v: Volume, t: seq<nat>, c: nat, n: nat, q: nat, x: nat)
    requires DataOnDisk(disk, v) && 0xFF8 <= |t| && Alive(t, c, n) && q < n && x < 512 * v.perCluster
    ensures var d := Orbit(t, c, q);
            && InWalk(d) && Start(v, d) + x / 512 < |disk| && q * (512 * v.perCluster) + x < |Concat(disk, v, t, c, n)|
            && Concat(disk, v, t, c, n)[q * (512 * v.perCluster) + x] == disk[Start(v, d) + x / 512][x % 512]
  {
    hide ClusterData, Concat, Orbit, Start, DataOnDisk, Alive;
    WalkByte(disk, v, t, c, n, q, x);
    ClusterByte(disk, v, Orbit(t, c, q), x);
  }

  /** How much of one cluster is copied: never more than the file, the cluster or the buffer
      has left. */
  function ToCopy(size: nat, max: nat, cs: nat, done: nat): (r: nat)
    requires done <= size && done <= max
  {
    Min(Min(size - done, cs), max - done)
  }

  // ------------------------------------------------------------ termination

  /** The bytes read after k rounds of a loop that always finds another cluster. */
  function BytesAfter(size: nat, max: nat, cs: nat, k: nat): (b: nat)
    ensures b <= size && b <= max
  {
    if k == 0 then 0 else var b := BytesAfter(size, max, cs, k - 1); b + ToCopy(size, max, cs, b)
  }

  /** The loop condition holds after k rounds. */
  predicate GoesOn(t: seq<nat>, c: nat, size: nat, max: nat, cs: nat, k: nat)
    requires 0xFF8 <= |t|
  {
    InWalk(Orbit(t, c, k)) && BytesAfter(size, max, cs, k) < max
  }

  /** There are this many clusters a walk can be on. */
  const WALK_CLUSTERS: nat := 0xFF6

  /** Following that many links leaves the range: what a caller can check beforehand. */
  predicate WalkEnds(t: seq<nat>, c: nat)
    requires 0xFF8 <= |t|
  {
    !InWalk(Orbit(t, c, WALK_CLUSTERS))
  }

  ghost function Seen(t: seq<nat>, c: nat, n: nat): (r: set<nat>)
    requires 0xFF8 <= |t|
  {
    set k | 0 <= k < n :: Orbit(t, c, k)
  }

  lemma {:induction false} SubsetSize(a: set<nat>, b: set<nat>)
    requires a <= b
    ensures |a| <= |b|
  {
    if x :| x in a { SubsetSize(a - {x}, b - {x}); }
  }

  lemma {:induction false} SeenSize(t: seq<nat>, c: nat, n: nat)
    requires 0xFF8 <= |t| && forall i, j | 0 <= i < j < n :: Orbit(t, c, i) != Orbit(t, c, j)
    ensures |Seen(t, c, n)| == n
  {
    hide Orbit;
    if 0 < n {
      SeenSize(t, c, n - 1);
      assert Seen(t, c, n) == Seen(t, c, n - 1) + {Orbit(t, c, n - 1)};
      assert Orbit(t, c, n - 1) !in Seen(t, c, n - 1);
    }
  }

  /** A walk that stays in range longer than there are clusters comes back to one of them. */
  lemma Revisits(t: seq<nat>, c: nat, n: nat) returns (i: nat, j: nat)
    requires 0xFF8 <= |t| && WALK_CLUSTERS < n && forall k | 0 <= k < n :: InWalk(Orbit(t, c, k))
    ensures i < j < n && Orbit(t, c, i) == Orbit(t, c, j)
  {
    hide Orbit;
    if forall a, b | 0 <= a < b < n :: Orbit(t, c, a) != Orbit(t, c, b) {
      SeenSize(t, c, n);
      SpanSize(2, END_OF_WALK);
      SubsetSize(Seen(t, c, n), Span(2, END_OF_WALK));
    } else {
      i, j :| 0 <= i < j < n && Orbit(t, c, i) == Orbit(t, c, j);
    }
  }

  /** ... and then never leaves. */
  lemma {:induction false} CycleStays(t: seq<nat>, c: nat, i: nat, j: nat, k: nat)
    requires 0xFF8 <= |t| && i < j && Orbit(t, c, i) == Orbit(t, c, j)
    requires forall m | 0 <= m < j :: InWalk(Orbit(t, c, m))
    ensures InWalk(Orbit(t, c, k))
  {
    hide Orbit;
    if j <= k {
      CycleStays(t, c, i, j, k - (j - i));
      OrbitCompose(t, c, i, k - j);
      OrbitCompose(t, c, j, k - j);
    }
  }

  /** A walk that ends at all ends within as many links as there are clusters. */
  lemma WalkEndsIff(t: seq<nat>, c: nat)
    requires 0xFF8 <= |t|
    ensures WalkEnds(t, c) <==> exists k: nat :: !InWalk(Orbit(t, c, k))
  {
    hide Orbit;
    if WalkEnds(t, c) {
      var k: nat := WALK_CLUSTERS;
      assert !InWalk(Orbit(t, c, k));
    } else {
      forall k | 0 <= k < WALK_CLUSTERS + 1 ensures InWalk(Orbit(t, c, k)) {
        if !InWalk(Orbit(t, c, k)) { OrbitStuck(t, c, k, WALK_CLUSTERS); }
      }
      var i, j := Revisits(t, c, WALK_CLUSTERS + 1);
      forall k: nat ensures InWalk(Orbit(t, c, k)) { CycleStays(t, c, i, j, k); }
    }
  }

  lemma {:induction false} BytesGrow(size: nat, max: nat, cs: nat, k: nat)
    requires 0 < cs
    ensures Min(Min(size, max), k) <= BytesAfter(size, max, cs, k)
  {
    if 0 < k { BytesGrow(size, max, cs, k - 1); }
  }

  /** The read loop ends if and only if the walk ends or the buffer is no larger than the file:
      the end of the file alone does not stop it. */
  lemma ReadEndsIff(t: seq<nat>, c: nat, size: nat, max: nat, cs: nat)
    requires 0xFF8 <= |t| && 0 < cs
    ensures (exists k: nat :: !GoesOn(t, c, size, max, cs, k)) <==> WalkEnds(t, c) || max <= size
    ensures WalkEnds(t, c) ==> !GoesOn(t, c, size, max, cs, WALK_CLUSTERS)
    ensures max <= size ==> !GoesOn(t, c, size, max, cs, max)
  {
    hide Orbit;
    WalkEndsIff(t, c);
    if WalkEnds(t, c) {
      assert !GoesOn(t, c, size, max, cs, WALK_CLUSTERS);
    }
    if max <= size {
      BytesGrow(size, max, cs, max);
      assert !GoesOn(t, c, size, max, cs, max);
    } else if !WalkEnds(t, c) {
      forall k: nat ensures GoesOn(t, c, size, max, cs, k) { assert InWalk(Orbit(t, c, k)); }
    }
  }

  /** A chain of one cluster that links to itself, an empty file and a buffer of one byte: the
      loop goes round for ever. */
  lemma {:induction false} ReadsForEver(t: seq<nat>, k: nat)
    requires 0xFF8 <= |t| && t[2] == 2
    ensures Orbit(t, 2, k) == 2 && GoesOn(t, 2, 0, 1, 512, k)
  {
    if 0 < k { ReadsForEver(t, k - 1); }
  }

  // ---------------------------------------------------------------- the code

  lemma {:induction false} AliveMore(t: seq<nat>, c: nat, n: nat)
    requires 0xFF8 <= |t| && Alive(t, c, n)
    ensures forall k | 0 <= k < n :: InWalk(Orbit(t, c, k))
    ensures Alive(t, c, n + 1) <==> InWalk(Orbit(t, c, n))
    decreases n
  {
    if n == 0 {
      assert Orbit(t, c, 0) == c;
    } else {
      AliveMore(t, t[c], n - 1);
      OrbitShift(t, c, n - 1);
      forall k | 0 <= k < n ensures InWalk(Orbit(t, c, k)) {
        if k == 0 { assert Orbit(t, c, 0) == c; } else { OrbitShift(t, c, k - 1); }
      }
    }
  }

  lemma {:induction false} ConcatMore(disk: seq<Sector>, v: Volume, t: seq<nat>, c: nat, n: nat)
    requires DataOnDisk(disk, v) && 0xFF8 <= |t| && Alive(t, c, n) && InWalk(Orbit(t, c, n))
    ensures Alive(t, c, n + 1)
    ensures Concat(disk, v, t, c, n + 1) == Concat(disk, v, t, c, n) + ClusterData(disk, v, Orbit(t, c, n))
    decreases n
  {
    AliveMore(t, c, n);
    if n == 0 {
      assert Orbit(t, c, 0) == c;
      assert Concat(disk, v, t, t[c], 0) == [];
    } else {
      OrbitShift(t, c, n - 1);
      ConcatMore(disk, v, t, t[c], n - 1);
    }
  }

  lemma {:induction false} AlivePrefix(t: seq<nat>, c: nat, n: nat)
    requires 0xFF8 <= |t| && 0 < n && Alive(t, c, n)
    ensures Alive(t, c, n - 1)
    decreases n
  {
    if 1 < n { AlivePrefix(t, t[c], n - 1); }
  }

  /** The bytes read after n live rounds are the first of the concatenated data that the file
      and the buffer have room for. */
  lemma {:induction false} BytesAre(disk: seq<Sector>, v: Volume, t: seq<nat>, c: nat, n: nat, size: nat, max: nat)
    requires DataOnDisk(disk, v) && 0xFF8 <= |t| && Alive(t, c, n)
    ensures BytesAfter(size, max, 512 * v.perCluster, n) == Min(Min(size, max), |Concat(disk, v, t, c, n)|)
  {
    if 0 < n {
      AlivePrefix(t, c, n);
      AliveMore(t, c, n);
      BytesAre(disk, v, t, c, n - 1, size, max);
      ConcatMore(disk, v, t, c, n - 1);
    }
  }

  /** One round: what was read stays a prefix of the data, now of one cluster more. */
  lemma ReadRound(disk: seq<Sector>, v: Volume, t: seq<nat>, c: nat, n: nat, size: nat, max: nat, out: seq<byte>)
    requires DataOnDisk(disk, v) && 0xFF8 <= |t| && Alive(t, c, n) && InWalk(Orbit(t, c, n))
    requires |out| == BytesAfter(size, max, 512 * v.perCluster, n) < max && out <= Concat(disk, v, t, c, n)
    ensures var data := ClusterData(disk, v, Orbit(t, c, n));
            var k := ToCopy(size, max, 512 * v.perCluster, |out|);
            && Alive(t, c, n + 1) && k <= |data|
            && |out| + k == BytesAfter(size, max, 512 * v.perCluster, n + 1)
            && out + data[..k] <= Concat(disk, v, t, c, n + 1)
            && (max <= size ==> 0 < k)
  {
    ConcatMore(disk, v, t, c, n);
    BytesAre(disk, v, t, c, n, size, max);
    var k := ToCopy(size, max, 512 * v.perCluster, |out|);
    if 0 < k { assert out == Concat(disk, v, t, c, n); }
  }

  method ReadCluster(disk: array<Sector>, v: Volume, c: nat) returns (buf: seq<byte>)
    requires DataOnDisk(disk[..], v) && InWalk(c)
    ensures buf == ClusterData(disk[..], v, c)
  {
    ClusterFits(disk[..], v, c);
    buf := [];
    var sector := v.dataStart + (c - 2) * v.perCluster;
    for i := 0 to v.perCluster
      invariant buf == Sectors(disk[..], sector, i)
    {
      buf := buf + disk[sector + i];
    }
  }

  /** How many rounds the loop can take. */
  function Rounds(t: seq<nat>, c: nat, max: nat, refused: Option<nat>): (r: nat)
    requires 0xFF8 <= |t|
  {
    if refused.Some? then refused.value else if WalkEnds(t, c) then WALK_CLUSTERS else max
  }

  lemma ReadsOn(t: seq<nat>, c: nat, size: nat, max: nat, cs: nat, refused: Option<nat>, n: nat)
    requires 0xFF8 <= |t| && 0 < cs && (WalkEnds(t, c) || max <= size || refused.Some?)
    requires (refused.Some? ==> n < refused.value) && GoesOn(t, c, size, max, cs, n)
    ensures n < Rounds(t, c, max, refused)
  {
    hide Orbit;
    if WalkEnds(t, c) && WALK_CLUSTERS <= n { OrbitStuck(t, c, WALK_CLUSTERS, n); }
    BytesGrow(size, max, cs, n);
  }

  lemma OrbitNext(t: seq<nat>, c: nat, n: nat)
    requires 0xFF8 <= |t|
    ensures Orbit(t, c, 0) == c
    ensures InWalk(Orbit(t, c, n)) ==> Orbit(t, c, n + 1) == t[Orbit(t, c, n)]
  {
  }

  lemma ReadStart(disk: seq<Sector>, v: Volume, t: seq<nat>, c: nat, size: nat, max: nat)
    requires DataOnDisk(disk, v) && 0xFF8 <= |t|
    ensures Alive(t, c, 0) && Concat(disk, v, t, c, 0) == [] && BytesAfter(size, max, 512 * v.perCluster, 0) == 0
  {
  }

  lemma TableAt(disk: seq<Sector>, v: Volume, c: nat)
    requires WalkOnDisk(disk, v) && InWalk(c)
    ensures EntrySector(v, c) < |disk| && Table(disk, v, 0x1000)[c] == Entry(disk, v, c)
  {
  }

  /** fat16_read_file once the file is found: n clusters were read, and the result is what the
      file and the buffer have room for of their data.  The loop stops because the walk ended,
      the buffer is full, or in round `refused` there was no memory or the cluster could not be
      read. */
  method ReadFile(disk: array<Sector>, v: Volume, first: nat, size: nat, max: nat, refused: Option<nat>)
    returns (out: seq<byte>, n: nat)
    requires WalkOnDisk(disk[..], v) && DataOnDisk(disk[..], v)
    requires WalkEnds(Table(disk[..], v, 0x1000), first) || max <= size || refused.Some?
    ensures var t := Table(disk[..], v, 0x1000);
            && Alive(t, first, n)
            && (!InWalk(Orbit(t, first, n)) || |out| == max || refused == Some(n))
            && (refused.Some? ==> n <= refused.value)
            && out == Concat(disk[..], v, t, first, n)[..Min(Min(size, max), |Concat(disk[..], v, t, first, n)|)]
  {
    hide Concat, Table, SetEntry, Alive, ClusterData, BytesAfter, Orbit;
    ghost var d, t := disk[..], Table(disk[..], v, 0x1000);
    ghost var rounds := Rounds(t, first, max, refused);
    var cluster: nat, read: nat := first, 0;
    out, n := [], 0;
    OrbitNext(t, first, 0);
    ReadStart(d, v, t, first, size, max);
    while 2 <= cluster < 0xFF8 && read < max
      invariant Alive(t, first, n) && cluster == Orbit(t, first, n) && read == |out|
      invariant read == BytesAfter(size, max, 512 * v.perCluster, n) && out <= Concat(d, v, t, first, n)
      invariant refused.Some? ==> n <= refused.value
      decreases rounds - n
    {
      if refused == Some(n) { break; }
      ReadsOn(t, first, size, max, 512 * v.perCluster, refused, n);
      ReadRound(d, v, t, first, n, size, max, out);
      TableAt(d, v, cluster);
      OrbitNext(t, first, n);
      var data := ReadCluster(disk, v, cluster);
      var toCopy := size - read;
      if 512 * v.perCluster < toCopy { toCopy := 512 * v.perCluster; }
      if max < read + toCopy { toCopy := max - read; }
      out := out + data[..toCopy];
      read := read + toCopy;
      cluster := NextCluster(disk, v, cluster);
      n := n + 1;
    }
    BytesAre(d, v, t, first, n, size, max);
  }
}
