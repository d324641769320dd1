/** FAT chains (src/fs/fat16.c) on a table of 16-bit entries: walking, freeing, and what a
    freed chain leaves alone. */
module FatTable {

  const END_OF_WALK: nat := 0xFF8

  /** The clusters every walk of the code goes on from. */
  predicate InWalk(c: nat) { 2 <= c < 0xFF8 }

  /** The cluster k links after c; a walk that has left the range stays where it is. */
  function Orbit(t: seq<nat>, c: nat, k: nat): (r: nat)
    requires 0xFF8 <= |t|
  {
    if k == 0 then c else var d := Orbit(t, c, k - 1); if InWalk(d) then t[d] else d
  }

  /** The walk from c visits d. */
  ghost predicate Visits(t: seq<nat>, c: nat, d: nat)
    requires 0xFF8 <= |t|
  {
    InWalk(d) && exists k: nat :: Orbit(t, c, k) == d
  }

  function Nonzero(t: seq<nat>): (r: nat) {
    if t == [] then 0 else (if t[0] == 0 then 0 else 1) + Nonzero(t[1..])
  }

  lemma {:induction false} NonzeroAt(t: seq<nat>, i: nat, v: nat)
    requires i < |t|
    ensures Nonzero(t[i := v]) == Nonzero(t) - (if t[i] == 0 then 0 else 1) + (if v == 0 then 0 else 1)
  {
    if i == 0 {
      assert t[0 := v][1..] == t[1..];
    } else {
      NonzeroAt(t[1..], i - 1, v);
      assert t[i := v][1..] == t[1..][i - 1 := v];
    }
  }

  /** Freeing a chain, entry by entry.  It ends on every table, cyclic ones included: each step
      clears an entry, and a revisited entry reads 0. */
  function Free(t: seq<nat>, c: nat): (r: seq<nat>)
    requires 0xFF8 <= |t|
    ensures |r| == |t|
    decreases Nonzero(t), if InWalk(c) then 1 else 0
  {
    if !InWalk(c) then t
    else
      NonzeroAt(t, c, 0);
      Free(t[c := 0], t[c])
  }

  // --------------------------------------------------- what freeing clears

  lemma {:induction false} OrbitShift(t: seq<nat>, c: nat, k: nat)
    requires 0xFF8 <= |t| && InWalk(c)
    ensures Orbit(t, c, k + 1) == Orbit(t, t[c], k)
  {
    if 0 < k { OrbitShift(t, c, k - 1); } else { assert Orbit(t, c, 0) == c; }
  }

  lemma {:induction false} OrbitCompose(t: seq<nat>, c: nat, j: nat, k: nat)
    requires 0xFF8 <= |t|
    ensures Orbit(t, Orbit(t, c, j), k) == Orbit(t, c, j + k)
  {
    if 0 < k { OrbitCompose(t, c, j, k - 1); }
  }

  /** A walk that avoids c does not depend on c's entry. */
  lemma {:induction false} OrbitAvoids(t: seq<nat>, c: nat, v: nat, s: nat, k: nat)
    requires 0xFF8 <= |t| && c < |t| && forall j | 0 <= j < k :: Orbit(t, s, j) != c
    ensures Orbit(t[c := v], s, k) == Orbit(t, s, k)
  {
    if 0 < k { OrbitAvoids(t, c, v, s, k - 1); }
  }

  lemma {:induction false} OrbitStuck(t: seq<nat>, s: nat, j: nat, k: nat)
    requires 0xFF8 <= |t| && j <= k && !InWalk(Orbit(t, s, j))
    ensures Orbit(t, s, k) == Orbit(t, s, j)
    decreases k - j
  {
    if j < k { OrbitStuck(t, s, j + 1, k); }
  }

  /** A cluster the walk from c visits is visited without coming back to c. */
  lemma {:induction false} VisitOnce(t: seq<nat>, c: nat, k: nat) returns (m: nat)
    requires 0xFF8 <= |t|
    ensures Orbit(t, c, m) == Orbit(t, c, k) && forall j | 0 < j < m :: Orbit(t, c, j) != c
  {
    if j :| 0 < j <= k && Orbit(t, c, j) == c {
      OrbitCompose(t, c, j, k - j);
      m := VisitOnce(t, c, k - j);
    } else {
      m := k;
    }
  }

  /** The walk from c is c itself and the walk from its successor once c is cleared. */
  lemma VisitsStep(t: seq<nat>, c: nat, d: nat)
    requires 0xFF8 <= |t| && InWalk(c) && d != c
    ensures Visits(t, c, d) <==> Visits(t[c := 0], t[c], d)
  {
    if Visits(t, c, d) {
      var k: nat :| Orbit(t, c, k) == d;
      var m := VisitOnce(t, c, k);
      assert 0 < m;
      OrbitShift(t, c, m - 1);
      forall j | 0 <= j < m - 1 ensures Orbit(t, t[c], j) != c { OrbitShift(t, c, j); }
      OrbitAvoids(t, c, 0, t[c], m - 1);
    }
    if Visits(t[c := 0], t[c], d) {
      var t' := t[c := 0];
      var k: nat :| Orbit(t', t[c], k) == d;
      forall j | 0 <= j < k ensures Orbit(t', t[c], j) != c {
        if Orbit(t', t[c], j) == c { OrbitStuck(t', t[c], j + 1, k); }
      }
      OrbitAvoids(t', c, t[c], t[c], k);
      assert t'[c := t[c]] == t;
      OrbitShift(t, c, k);
    }
  }

  /** Freeing clears exactly the clusters on the walk and changes no other entry, whatever the
      table holds. */
  lemma {:induction false} FreeExact(t: seq<nat>, c: nat, d: nat)
    requires 0xFF8 <= |t| && d < |t|
    ensures Free(t, c)[d] == if Visits(t, c, d) then 0 else t[d]
    decreases Nonzero(t), if InWalk(c) then 1 else 0
  {
    if !InWalk(c) {
      forall k: nat ensures Orbit(t, c, k) == c { OrbitStuck(t, c, 0, k); }
    } else {
      NonzeroAt(t, c, 0);
      FreeExact(t[c := 0], t[c], d);
      if d == c {
        assert Orbit(t, c, 0) == c;
      } else {
        VisitsStep(t, c, d);
      }
    }
  }

  /** A chain with no cluster in common with the freed one is walked as before. */
  lemma {:induction false} FreeKeepsOthers(t: seq<nat>, c: nat, e: nat, k: nat)
    requires 0xFF8 <= |t| && forall d | Visits(t, e, d) :: !Visits(t, c, d)
    ensures Orbit(Free(t, c), e, k) == Orbit(t, e, k)
  {
    if 0 < k {
      FreeKeepsOthers(t, c, e, k - 1);
      var d := Orbit(t, e, k - 1);
      if InWalk(d) {
        assert Visits(t, e, d);
        FreeExact(t, c, d);
      }
    }
  }
}
