/** The round-robin scheduler of src/process/scheduler.c: a table of 32 slots, stepped by
    create, tick, yield and exit. */
module Scheduler {

  const MAX_PROCESSES: nat := 32

  datatype ProcState = Unused | Ready | Running | Blocked | Zombie

  datatype Proc = Proc(pid: int, state: ProcState, slices: nat, exitCode: int) {
    predicate Runnable() { state.Ready? || state.Running? }
  }

  datatype Table = Table(procs: seq<Proc>, current: int, count: int)

  predicate Shape(t: Table) {
    |t.procs| == 32 && -1 <= t.current < 32
  }

  /** How many slots are in use. */
  function Used(procs: seq<Proc>): (r: nat) {
    if procs == [] then 0 else (if procs[0].state.Unused? then 0 else 1) + Used(procs[1..])
  }

  predicate SlotOk(t: Table, i: nat)
    requires i < |t.procs|
  {
    var p := t.procs[i];
    && (p.state.Unused? || p.state.Ready? || p.state.Running?)
    && (p.state.Running? ==> i == t.current)
    && (!p.state.Unused? ==> p.pid == i + 1)
  }

  /** At most the current slot is RUNNING, pids follow slots, and the count is right. */
  predicate Inv(t: Table) {
    && Shape(t)
    && (forall i | 0 <= i < 32 :: SlotOk(t, i))
    && (0 <= t.current ==> t.procs[t.current].Runnable())
    && t.count == Used(t.procs)
  }

  // ------------------------------------------------------------------ steps

  datatype Op = Create(kernelStack: bool, userStack: bool) | Tick | Yield | Exit(code: int)

  /** The first slot from i on that is free, or |procs|. */
  function FirstUnused(procs: seq<Proc>, i: nat): (r: nat)
    requires i <= |procs|
    ensures i <= r <= |procs| && (r < |procs| ==> procs[r].state.Unused?)
    ensures forall j | i <= j < r :: !procs[j].state.Unused?
    decreases |procs| - i
  {
    if i == |procs| || procs[i].state.Unused? then i else FirstUnused(procs, i + 1)
  }

  /** The flags say whether the page allocator has a page for each of the two stacks. */
  function CreateStep(t: Table, kernelStack: bool, userStack: bool): (r: Table)
    requires Shape(t)
  {
    var slot := FirstUnused(t.procs, 0);
    if 32 <= t.count || slot == 32 then t
    else
      var ok := kernelStack && userStack;
      Table(t.procs[slot := Proc(slot + 1, if ok then Ready else Unused, 0, 0)], t.current,
            if ok then t.count + 1 else t.count)
  }

  function ExitStep(t: Table, code: int): (r: Table)
    requires Shape(t)
  {
    if t.current < 0 then t
    else Table(t.procs[t.current := t.procs[t.current].(state := Unused, exitCode := code)], -1, t.count - 1)
  }

  function YieldStep(t: Table): (r: Table)
    requires Shape(t)
  {
    if t.current < 0 then t else t.(procs := t.procs[t.current := t.procs[t.current].(state := Ready)])
  }

  /** The slot the scan looks at in round i. */
  function Probe(current: int, i: nat): (r: nat)
    requires -1 <= current
    ensures r < 32
  {
    (current + 1 + i) % 32
  }

  /** The scan from round i on: the first runnable slot, or -1. */
  function Scan(procs: seq<Proc>, current: int, i: nat): (r: int)
    requires |procs| == 32 && -1 <= current && i <= 32
    ensures -1 <= r < 32
    decreases 32 - i
  {
    if i == 32 then -1
    else if procs[Probe(current, i)].Runnable() then Probe(current, i)
    else Scan(procs, current, i + 1)
  }

  /** The running process is charged, in a 32-bit counter. */
  function Charge(t: Table): (r: Table)
    requires Shape(t)
    ensures Shape(r)
  {
    if 0 <= t.current && t.procs[t.current].state.Running? then
      t.(procs := t.procs[t.current := t.procs[t.current].(slices := (t.procs[t.current].slices + 1) % 0x1_0000_0000)])
    else t
  }

  function SwitchTo(t: Table, next: nat): (r: Table)
    requires Shape(t) && next < 32
  {
    var p := if 0 <= t.current then t.procs[t.current := t.procs[t.current].(state := Ready)] else t.procs;
    Table(p[next := p[next].(state := Running)], next, t.count)
  }

  function TickStep(t: Table): (r: Table)
    requires Shape(t)
  {
    if t.count == 0 then t
    else
      var c := Charge(t);
      var next := Scan(c.procs, c.current, 0);
      if next < 0 || next == t.current then c else SwitchTo(c, next)
  }

  function Step(t: Table, op: Op): (r: Table)
    requires Shape(t)
  {
    match op
    case Create(k, u) => CreateStep(t, k, u)
    case Tick => TickStep(t)
    case Yield => YieldStep(t)
    case Exit(code) => ExitStep(t, code)
  }

  // ------------------------------------------------------- every run is sound

  lemma {:induction false} UsedAt(procs: seq<Proc>, i: nat, p: Proc)
    requires i < |procs|
    ensures Used(procs[i := p])
         == Used(procs) - (if procs[i].state.Unused? then 0 else 1) + (if p.state.Unused? then 0 else 1)
  {
    if i == 0 {
      assert procs[0 := p][1..] == procs[1..];
    } else {
      UsedAt(procs[1..], i - 1, p);
      assert procs[i := p][1..] == procs[1..][i - 1 := p];
    }
  }

  lemma {:induction false} UsedBound(procs: seq<Proc>)
    ensures Used(procs) <= |procs|
    ensures Used(procs) == |procs| <==> forall i | 0 <= i < |procs| :: !procs[i].state.Unused?
    ensures Used(procs) == 0 <==> forall i | 0 <= i < |procs| :: procs[i].state.Unused?
  {
    if procs != [] {
      UsedBound(procs[1..]);
      assert forall i | 1 <= i < |procs| :: procs[i] == procs[1..][i - 1];
    }
  }

  /** Round j is the first from round i on to look at a runnable slot, and that slot is r. */
  predicate FoundAt(procs: seq<Proc>, current: int, i: nat, j: nat, r: nat)
    requires |procs| == 32 && -1 <= current && r < 32
  {
    r == Probe(current, j) && procs[r].Runnable() && forall k | i <= k < j :: !procs[Probe(current, k)].Runnable()
  }

  lemma ScanSound(procs: seq<Proc>, current: int, i: nat)
    requires |procs| == 32 && -1 <= current && i <= 32
    ensures var r := Scan(procs, current, i);
            if r < 0 then forall j | i <= j < 32 :: !procs[Probe(current, j)].Runnable()
            else procs[r].Runnable() && exists j | i <= j < 32 :: FoundAt(procs, current, i, j, r)
    decreases 32 - i
  {
    if i < 32 && procs[Probe(current, i)].Runnable() {
      assert FoundAt(procs, current, i, i, Probe(current, i));
    } else if i < 32 {
      ScanSound(procs, current, i + 1);
      if 0 <= Scan(procs, current, i) {
        var j :| i + 1 <= j < 32 && FoundAt(procs, current, i + 1, j, Scan(procs, current, i));
        assert FoundAt(procs, current, i, j, Scan(procs, current, i));
      }
    }
  }

  lemma CreateInv(t: Table, k: bool, u: bool)
    requires Inv(t)
    ensures forall i | 0 <= i < 32 :: SlotOk(CreateStep(t, k, u), i)
    ensures 0 <= t.current ==> CreateStep(t, k, u).procs[t.current].Runnable()
  {
    forall i | 0 <= i < 32 ensures SlotOk(CreateStep(t, k, u), i) { assert SlotOk(t, i); }
  }

  lemma ChargeInv(t: Table)
    requires Inv(t)
    ensures Inv(Charge(t)) && Charge(t).current == t.current && Charge(t).count == t.count
    ensures forall i | 0 <= i < 32 :: Charge(t).procs[i].state == t.procs[i].state
  {
    if 0 <= t.current {
      UsedAt(t.procs, t.current, Charge(t).procs[t.current]);
      forall i | 0 <= i < 32 ensures SlotOk(Charge(t), i) { assert SlotOk(t, i); }
    }
  }

  lemma SwitchInv(t: Table, next: nat)
    requires Inv(t) && next < 32 && next != t.current && t.procs[next].Runnable()
    ensures Inv(SwitchTo(t, next))
    ensures forall i | 0 <= i < 32 :: SwitchTo(t, next).procs[i].Runnable() == t.procs[i].Runnable()
    ensures forall i | 0 <= i < 32 :: SwitchTo(t, next).procs[i].slices == t.procs[i].slices
  {
    var r := SwitchTo(t, next);
    var p := if 0 <= t.current then t.procs[t.current := t.procs[t.current].(state := Ready)] else t.procs;
    if 0 <= t.current { UsedAt(t.procs, t.current, p[t.current]); }
    UsedAt(p, next, r.procs[next]);
    forall i | 0 <= i < 32 ensures SlotOk(r, i) { assert SlotOk(t, i); }
  }

  lemma TickInv(t: Table)
    requires Inv(t)
    ensures Inv(TickStep(t))
    ensures forall i | 0 <= i < 32 :: TickStep(t).procs[i].Runnable() == t.procs[i].Runnable()
  {
    if t.count != 0 {
      ChargeInv(t);
      var c := Charge(t);
      ScanSound(c.procs, c.current, 0);
      var next := Scan(c.procs, c.current, 0);
      if 0 <= next && next != t.current { SwitchInv(c, next); }
    }
  }

  lemma StepKeepsInv(t: Table, op: Op)
    requires Inv(t)
    ensures Inv(Step(t, op))
  {
    match op
    case Create(k, u) =>
      var slot := FirstUnused(t.procs, 0);
      if t.count < 32 && slot < 32 {
        UsedAt(t.procs, slot, Step(t, op).procs[slot]);
        CreateInv(t, k, u);
      }
    case Tick => TickInv(t);
    case Yield =>
      if 0 <= t.current {
        UsedAt(t.procs, t.current, Step(t, op).procs[t.current]);
        assert SlotOk(t, t.current);
        forall i | 0 <= i < 32 ensures SlotOk(Step(t, op), i) { assert SlotOk(t, i); }
      }
    case Exit(code) =>
      if 0 <= t.current {
        UsedAt(t.procs, t.current, Step(t, op).procs[t.current]);
        forall i | 0 <= i < 32 ensures SlotOk(Step(t, op), i) { assert SlotOk(t, i); }
      }
  }

  function Run(t: Table, ops: seq<Op>): (r: Table)
    requires Shape(t)
    ensures Shape(r)
    decreases |ops|
  {
    if ops == [] then t else assert Shape(Step(t, ops[0])); Run(Step(t, ops[0]), ops[1..])
  }

  /** Every run of create, tick, yield and exit keeps the table sound. */
  lemma {:induction false} RunKeepsInv(t: Table, ops: seq<Op>)
    requires Inv(t)
    ensures Inv(Run(t, ops))
    decreases |ops|
  {
    if ops != [] {
      StepKeepsInv(t, ops[0]);
      RunKeepsInv(Step(t, ops[0]), ops[1..]);
    }
  }

  /** scheduler_init clears the table and the current slot but not the count. */
  function InitStep(t: Table): (r: Table) {
    Table(seq(32, _ => Proc(0, Unused, 0, 0)), -1, t.count)
  }

  lemma InitInvIff(t: Table)
    ensures Inv(InitStep(t)) <==> t.count == 0
  {
    UsedBound(InitStep(t).procs);
  }

  // ------------------------------------------------------- what a step changes

  /** The two tables differ in one slot only. */
  predicate OnlySlot(a: Table, b: Table, s: nat)
    requires Shape(a) && Shape(b)
  {
    forall i | 0 <= i < 32 && i != s :: b.procs[i] == a.procs[i]
  }

  predicate LowestFree(t: Table, s: nat)
    requires Shape(t) && s < 32
  {
    t.procs[s].state.Unused? && forall i | 0 <= i < s :: !t.procs[i].state.Unused?
  }

  /** Creation with both pages and a free slot puts a READY process with no slices into the lowest
      free one; without a page the slot stays free; without a slot nothing changes. */
  lemma CreateAdds(t: Table, kernelStack: bool, userStack: bool)
    requires Inv(t)
    ensures var r := CreateStep(t, kernelStack, userStack);
            && Shape(r) && r.current == t.current
            && ((forall i | 0 <= i < 32 :: !t.procs[i].state.Unused?) ==> r == t)
            && forall s | 0 <= s < 32 && LowestFree(t, s) ::
                 && OnlySlot(t, r, s)
                 && (if kernelStack && userStack
                     then r.procs[s] == Proc(s + 1, Ready, 0, 0) && r.count == t.count + 1
                     else r.procs[s].state.Unused? && r.count == t.count)
  {
    UsedBound(t.procs);
  }

  /** Yielding makes the current process READY and changes nothing else. */
  lemma YieldReadies(t: Table)
    requires Inv(t)
    ensures var r := YieldStep(t);
            && Shape(r) && r.current == t.current && r.count == t.count
            && (forall i | 0 <= i < 32 && i != t.current :: r.procs[i] == t.procs[i])
            && (0 <= t.current ==> r.procs[t.current] == t.procs[t.current].(state := Ready))
  {
  }

  /** Exiting frees the current slot, keeps the code, and changes no other slot. */
  lemma ExitRemoves(t: Table, code: int)
    requires Inv(t)
    ensures var r := ExitStep(t, code);
            && Shape(r) && r.current == -1
            && (t.current < 0 ==> r == t)
            && (0 <= t.current ==>
                  && OnlySlot(t, r, t.current) && r.procs[t.current].state.Unused? && !r.procs[t.current].Runnable()
                  && r.procs[t.current].exitCode == code
                  && Used(r.procs) == Used(t.procs) - 1 && r.count == t.count - 1)
  {
    if 0 <= t.current { UsedAt(t.procs, t.current, ExitStep(t, code).procs[t.current]); }
  }

  /** A tick leaves pids and exit codes alone; if it moves on, the slot it leaves is READY and the
      one it comes to is RUNNING; every other state is as before. */
  lemma TickChanges(t: Table, i: nat)
    requires Inv(t) && i < 32
    ensures var r := TickStep(t);
            && Shape(r) && r.count == t.count
            && r.procs[i].pid == t.procs[i].pid && r.procs[i].exitCode == t.procs[i].exitCode
            && r.procs[i].state == if r.current == t.current then t.procs[i].state
                                   else if i == r.current then Running
                                   else if i == t.current then Ready else t.procs[i].state
  {
    var c := Charge(t);
    ChargeInv(t);
    hide Inv;
  }

  lemma FreeStaysFree(t: Table, op: Op, s: nat)
    requires Inv(t) && s < 32 && t.procs[s].state.Unused? && !op.Create?
    ensures Inv(Step(t, op)) && Step(t, op).procs[s].state.Unused? && Step(t, op).current != s
  {
    StepKeepsInv(t, op);
    match op
    case Tick =>
      TickInv(t);
      assert SlotOk(TickStep(t), s);
    case Yield => YieldReadies(t);
    case Exit(code) => ExitRemoves(t, code);
  }

  lemma NotCurrent(t: Table, s: nat)
    requires Inv(t) && s < 32 && t.procs[s].state.Unused?
    ensures Shape(t) && t.current != s
  {
  }

  lemma {:induction false} RunsFree(t: Table, ops: seq<Op>, s: nat)
    requires Inv(t) && s < 32 && t.procs[s].state.Unused? && (forall op | op in ops :: !op.Create?)
    ensures Run(t, ops).procs[s].state.Unused? && Run(t, ops).current != s
    decreases |ops|
  {
    hide Inv, Step;
    NotCurrent(t, s);
    if ops != [] {
      FreeStaysFree(t, ops[0], s);
      RunsFree(Step(t, ops[0]), ops[1..], s);
    }
  }

  /** A process that has exited never becomes current again in any run that creates none. */
  lemma ExitIsFinal(t: Table, code: int, ops: seq<Op>)
    requires Inv(t) && 0 <= t.current && (forall op | op in ops :: !op.Create?)
    ensures var r := Run(ExitStep(t, code), ops);
            r.current != t.current && !r.procs[t.current].Runnable()
  {
    ExitRemoves(t, code);
    StepKeepsInv(t, Exit(code));
    RunsFree(ExitStep(t, code), ops, t.current);
  }

  // ----------------------------------------------------------------- rotation

  /** The runnable slots below k, in table order. */
  function Slots(procs: seq<Proc>, k: nat): (r: seq<nat>)
    requires k <= |procs|
    ensures forall i | 0 <= i < |r| :: r[i] < k && procs[r[i]].Runnable()
    ensures forall i, j | 0 <= i < j < |r| :: r[i] < r[j]
    ensures forall x | 0 <= x < k && procs[x].Runnable() :: x in r
  {
    if k == 0 then [] else Slots(procs, k - 1) + if procs[k - 1].Runnable() then [k - 1] else []
  }

  function Ring(t: Table): (r: seq<nat>)
    requires Shape(t)
  {
    Slots(t.procs, 32)
  }

  /** The position of the current slot on the ring, -1 when there is no current slot. */
  predicate At(t: Table, p: int)
    requires Shape(t)
  {
    && -1 <= p < |Ring(t)|
    && t.current == if p < 0 then -1 else Ring(t)[p]
  }

  function Succ(p: int, n: nat): (r: int) { if p + 1 == n then 0 else p + 1 }

  lemma {:induction false} SameRing(a: seq<Proc>, b: seq<Proc>, k: nat)
    requires k <= |a| == |b| && forall i | 0 <= i < k :: a[i].Runnable() == b[i].Runnable()
    ensures Slots(a, k) == Slots(b, k)
  {
    if 0 < k { SameRing(a, b, k - 1); }
  }

  predicate IsRing(procs: seq<Proc>, ring: seq<nat>)
    requires |procs| == 32
  {
    && (forall i | 0 <= i < |ring| :: ring[i] < 32 && procs[ring[i]].Runnable())
    && (forall i, j | 0 <= i < j < |ring| :: ring[i] < ring[j])
    && (forall x | 0 <= x < 32 && procs[x].Runnable() :: x in ring)
  }

  /** The round in which the scan from cur looks at slot x. */
  function Distance(cur: int, x: nat): (j: nat)
    requires -1 <= cur < 32 && x < 32
    ensures j < 32 && Probe(cur, j) == x
  {
    if cur < x then x - cur - 1 else x - cur + 31
  }

  function RingAt(ring: seq<nat>, p: int): (r: int)
    requires -1 <= p < |ring|
  {
    if p < 0 then -1 else ring[p]
  }

  /** No ring element lies strictly between position p and its successor. */
  lemma RingGap(ring: seq<nat>, p: int, i: nat, cur: int, x: nat)
    requires -1 <= p < |ring| && i < |ring| && (forall a, b | 0 <= a < b < |ring| :: ring[a] < ring[b])
    requires x == ring[Succ(p, |ring|)] && cur == if p < 0 then -1 else ring[p]
    ensures if cur < x then ring[i] <= cur || x <= ring[i] else x <= ring[i] <= cur
  {
    if p + 1 < |ring| {
      if i <= p { assert i == p || ring[i] < ring[p]; } else { assert i == p + 1 || ring[p + 1] < ring[i]; }
      assert p < 0 || ring[p] < ring[p + 1];
    } else {
      assert i == p || ring[i] < ring[p];
      assert i == 0 || ring[0] < ring[i];
    }
  }

  lemma NoneBetween(procs: seq<Proc>, ring: seq<nat>, p: int, k: nat)
    requires |procs| == 32 && IsRing(procs, ring) && -1 <= p < |ring| && 0 < |ring|
    requires k < Distance(RingAt(ring, p), ring[Succ(p, |ring|)])
    ensures !procs[Probe(RingAt(ring, p), k)].Runnable()
  {
    var cur, x := RingAt(ring, p), ring[Succ(p, |ring|)];
    var y := Probe(cur, k);
    assert y == if cur + 1 + k < 32 then cur + 1 + k else cur + 1 + k - 32;
    if procs[y].Runnable() {
      var i :| 0 <= i < |ring| && ring[i] == y;
      RingGap(ring, p, i, cur, x);
    }
  }

  lemma FirstFoundUnique(procs: seq<Proc>, cur: int, j: nat, j': nat, x: nat, x': nat)
    requires |procs| == 32 && -1 <= cur && x < 32 && x' < 32
    requires FoundAt(procs, cur, 0, j, x) && FoundAt(procs, cur, 0, j', x')
    ensures x == x'
  {
  }

  /** The scan from ring position p finds the next position, wrapping at the end. */
  lemma ScanFollowsRing(procs: seq<Proc>, ring: seq<nat>, p: int)
    requires |procs| == 32 && IsRing(procs, ring) && -1 <= p < |ring| && 0 < |ring|
    ensures Scan(procs, RingAt(ring, p), 0) == ring[Succ(p, |ring|)]
  {
    var cur, x := RingAt(ring, p), ring[Succ(p, |ring|)];
    var j := Distance(cur, x);
    forall k | 0 <= k < j ensures !procs[Probe(cur, k)].Runnable() { NoneBetween(procs, ring, p, k); }
    assert procs[x].Runnable();
    hide Scan, IsRing, Distance, Probe;
    ScanSound(procs, cur, 0);
    assert FoundAt(procs, cur, 0, j, x);
    var r := Scan(procs, cur, 0);
    assert 0 <= r by { assert procs[Probe(cur, j)].Runnable(); }
    var j' :| 0 <= j' < 32 && FoundAt(procs, cur, 0, j', r);
    FirstFoundUnique(procs, cur, j, j', x, r);
  }

  lemma RingDistinct(ring: seq<nat>, i: nat, j: nat)
    requires i < |ring| && j < |ring| && (forall a, b | 0 <= a < b < |ring| :: ring[a] < ring[b]) && ring[i] == ring[j]
    ensures i == j
  {
  }

  lemma RingNonEmpty(t: Table)
    requires Inv(t) && 0 < |Ring(t)|
    ensures t.count != 0
  {
    UsedBound(t.procs);
    assert t.procs[Ring(t)[0]].Runnable();
  }

  lemma TickEnds(t: Table, next: nat)
    requires Shape(t) && t.count != 0 && next < 32 && Charge(t).current == t.current
    requires Scan(Charge(t).procs, t.current, 0) == next
    ensures TickStep(t).current == next
  {
    hide Scan, Charge;
  }

  lemma RingIsRing(procs: seq<Proc>)
    requires |procs| == 32
    ensures IsRing(procs, Slots(procs, 32))
  {
  }

  /** One tick moves the current slot one place along the ring ... */
  lemma TickLands(t: Table, p: int)
    requires Inv(t) && 0 < |Ring(t)| && At(t, p)
    ensures TickStep(t).current == Ring(t)[Succ(p, |Ring(t)|)]
  {
    var c := Charge(t);
    RingNonEmpty(t);
    ChargeInv(t);
    SameRing(t.procs, c.procs, 32);
    RingIsRing(c.procs);
    assert RingAt(Ring(c), p) == c.current == t.current;
    hide Inv, Slots, Scan, Charge, IsRing, At, RingAt, Succ, Ring;
    ScanFollowsRing(c.procs, Slots(c.procs, 32), p);
    TickEnds(t, Slots(c.procs, 32)[Succ(p, |Slots(c.procs, 32)|)]);
  }

  /** ... and leaves the ring alone. */
  lemma TickRotates(t: Table, p: int)
    requires Inv(t) && 0 < |Ring(t)| && At(t, p)
    ensures Inv(TickStep(t)) && Ring(TickStep(t)) == Ring(t) && At(TickStep(t), Succ(p, |Ring(t)|))
  {
    TickInv(t);
    TickLands(t, p);
    SameRing(t.procs, TickStep(t).procs, 32);
  }

  function Ticks(t: Table, k: nat): (r: Table)
    requires Shape(t)
    ensures Shape(r)
  {
    if k == 0 then t else TickStep(Ticks(t, k - 1))
  }

  /** The ring position k ticks after position p, for k up to one round. */
  function Along(p: int, k: nat, n: nat): (r: int) { if p + k < n then p + k else p + k - n }

  /** The state s is k ticks along the ring of t. */
  predicate Rotated(t: Table, s: Table, p: int, k: nat)
    requires Shape(t) && Shape(s)
  {
    Inv(s) && Ring(s) == Ring(t) && At(s, Along(p, k, |Ring(t)|))
  }

  lemma RotatedNext(t: Table, s: Table, p: int, k: nat)
    requires Shape(t) && Shape(s) && 0 < |Ring(t)| && -1 <= p < |Ring(t)| && k < |Ring(t)| && Rotated(t, s, p, k)
    ensures Rotated(t, TickStep(s), p, k + 1)
  {
    hide Inv, Slots, TickStep;
    TickRotates(s, Along(p, k, |Ring(t)|));
    assert Succ(Along(p, k, |Ring(t)|), |Ring(t)|) == Along(p, k + 1, |Ring(t)|);
  }

  lemma RotatedStart(t: Table, p: int)
    requires Inv(t) && At(t, p)
    ensures Rotated(t, t, p, 0)
  {
  }

  lemma {:induction false} TicksRotate(t: Table, p: int, k: nat)
    requires Shape(t) && Inv(t) && 0 < |Ring(t)| && -1 <= p < |Ring(t)| && At(t, p) && k <= |Ring(t)|
    ensures Rotated(t, Ticks(t, k), p, k)
  {
    hide TickStep, Inv, Rotated, At, Ring, Slots, Shape, Along;
    if k == 0 {
      RotatedStart(t, p);
    } else {
      TicksRotate(t, p, k - 1);
      RotatedNext(t, Ticks(t, k - 1), p, k - 1);
    }
  }

  lemma PositionExists(t: Table) returns (p: int)
    requires Inv(t)
    ensures Shape(t) && -1 <= p < |Ring(t)| && At(t, p)
  {
    if t.current < 0 {
      p := -1;
    } else {
      assert t.current in Ring(t);
      p :| 0 <= p < |Ring(t)| && Ring(t)[p] == t.current;
    }
  }

  /** Among the first n ticks, slot is current after tick k only. */
  predicate OnceIn(t: Table, n: nat, slot: nat, k: nat)
    requires Shape(t)
  {
    Ticks(t, k).current == slot && forall k' | 1 <= k' <= n && Ticks(t, k').current == slot :: k' == k
  }

  lemma LandsOnce(t: Table, p: int, q: nat, k: nat, k': nat)
    requires Inv(t) && 0 < |Ring(t)| && At(t, p) && q < |Ring(t)| && 1 <= k' <= |Ring(t)|
    requires k == if p < q then q - p else q - p + |Ring(t)|
    requires Ticks(t, k').current == Ring(t)[q]
    ensures k' == k
  {
    TicksRotate(t, p, k');
    hide Inv, Slots, Ticks;
    RingDistinct(Ring(t), q, Along(p, k', |Ring(t)|));
  }

  lemma PlaceOf(t: Table, slot: nat) returns (q: nat)
    requires Inv(t) && slot < 32 && t.procs[slot].Runnable()
    ensures q < |Ring(t)| && Ring(t)[q] == slot
  {
    assert slot in Ring(t);
    q :| 0 <= q < |Ring(t)| && Ring(t)[q] == slot;
  }

  lemma RotatedCurrent(t: Table, s: Table, p: int, k: nat)
    requires Shape(t) && Shape(s) && -1 <= p < |Ring(t)| && 1 <= k <= |Ring(t)| && Rotated(t, s, p, k)
    ensures s.current == Ring(t)[Along(p, k, |Ring(t)|)]
  {
  }

  /** In any window of n ticks, n being the number of runnable slots, every runnable slot is
      current after exactly one of them. */
  lemma EachOnceARound(t: Table, slot: nat)
    requires Inv(t) && slot < 32 && t.procs[slot].Runnable()
    ensures var n := |Ring(t)|;
            exists k :: 1 <= k <= n && OnceIn(t, n, slot, k)
  {
    hide Inv, Slots, Ticks, Ring, At, Rotated;
    var p := PositionExists(t);
    var q := PlaceOf(t, slot);
    var n := |Ring(t)|;
    var k := if p < q then q - p else q - p + n;
    TicksRotate(t, p, k);
    RotatedCurrent(t, Ticks(t, k), p, k);
    forall k' | 1 <= k' <= n && Ticks(t, k').current == slot ensures k' == k {
      LandsOnce(t, p, q, k, k');
    }
    assert OnceIn(t, n, slot, k);
  }

  lemma {:induction false} TicksInv(t: Table, m: nat)
    requires Inv(t)
    ensures Inv(Ticks(t, m)) && Ring(Ticks(t, m)) == Ring(t)
    ensures forall i | 0 <= i < 32 :: Ticks(t, m).procs[i].Runnable() == t.procs[i].Runnable()
  {
    assert Shape(t);
    hide Inv, TickStep, Slots;
    if 0 < m {
      TicksInv(t, m - 1);
      TickInv(Ticks(t, m - 1));
      SameRing(Ticks(t, m - 1).procs, Ticks(t, m).procs, 32);
    }
  }

  /** The same for every window inside a longer run of ticks. */
  lemma EachOnceInAnyWindow(t: Table, m: nat, slot: nat)
    requires Inv(t) && slot < 32 && t.procs[slot].Runnable()
    ensures var n := |Ring(t)|;
            Inv(Ticks(t, m)) && exists k :: 1 <= k <= n && OnceIn(Ticks(t, m), n, slot, k)
  {
    TicksInv(t, m);
    EachOnceARound(Ticks(t, m), slot);
  }

  // ------------------------------------------------- runs that do not exit

  function TickCount(ops: seq<Op>): (n: nat) {
    if ops == [] then 0 else (if ops[0].Tick? then 1 else 0) + TickCount(ops[1..])
  }

  /** A tick of the run, the k-th operation, makes the slot current. */
  predicate TurnAt(t: Table, ops: seq<Op>, slot: nat, k: nat)
    requires Shape(t)
  {
    k < |ops| && ops[k].Tick? && Run(t, ops[..k + 1]).current == slot
  }

  lemma RunnableShape(t: Table, slot: nat)
    requires Inv(t) && slot < 32 && t.procs[slot].Runnable()
    ensures Shape(t) && t.count != 0
  {
    UsedBound(t.procs);
  }

  lemma NearerProbe(cur: int, i: nat, j: nat, slot: nat)
    requires -1 <= cur < 32 && i <= j < 32 && slot < 32 && j == Distance(cur, slot)
    ensures Probe(cur, i) == slot || Distance(Probe(cur, i), slot) < j
  {
    assert Probe(cur, i) == if cur + 1 + i < 32 then cur + 1 + i else cur + 1 + i - 32;
  }

  /** A tick makes a runnable slot current or brings the current slot nearer to it. */
  lemma TickNearer(t: Table, slot: nat)
    requires Inv(t) && slot < 32 && t.procs[slot].Runnable()
    ensures var n := TickStep(t).current;
            n == slot || (0 <= n < 32 && Distance(n, slot) < Distance(t.current, slot))
  {
    hide Inv, Charge, Scan, Used, Distance, Probe, TickStep;
    RunnableShape(t, slot);
    var c := Charge(t);
    ChargeInv(t);
    ScanSound(c.procs, t.current, 0);
    var j, next := Distance(t.current, slot), Scan(c.procs, t.current, 0);
    assert c.procs[Probe(t.current, j)].Runnable();
    assert 0 <= next;
    var i :| 0 <= i < 32 && FoundAt(c.procs, t.current, 0, i, next);
    NearerProbe(t.current, i, j, slot);
    TickEnds(t, next);
  }

  /** Neither creating nor yielding moves the current slot or takes a slot off the ring. */
  lemma OthersKeep(t: Table, op: Op, slot: nat)
    requires Inv(t) && !op.Tick? && !op.Exit? && slot < 32 && t.procs[slot].Runnable()
    ensures Step(t, op).current == t.current && Step(t, op).procs[slot].Runnable()
  {
  }

  lemma RunFirst(t: Table, ops: seq<Op>, k: nat)
    requires Shape(t) && k < |ops|
    ensures Shape(Step(t, ops[0])) && Run(t, ops[..k + 1]) == Run(Step(t, ops[0]), ops[1..][..k])
    ensures k == 0 ==> Run(t, ops[..k + 1]) == Step(t, ops[0])
  {
    assert ops[..k + 1][1..] == ops[1..][..k];
  }

  lemma TickTurn(t: Table, slot: nat)
    requires Inv(t) && slot < 32 && t.procs[slot].Runnable()
    ensures var s := Step(t, Tick);
            s.procs[slot].Runnable() && (s.current == slot ||
              (0 <= s.current < 32 && Distance(s.current, slot) < Distance(t.current, slot)))
  {
    TickInv(t);
    TickNearer(t, slot);
  }

  lemma {:induction false} TurnComes(t: Table, ops: seq<Op>, slot: nat)
    requires Inv(t) && slot < 32 && t.procs[slot].Runnable() && (forall op | op in ops :: !op.Exit?)
    requires Distance(t.current, slot) < TickCount(ops)
    ensures exists k: nat :: TurnAt(t, ops, slot, k)
    decreases |ops|
  {
    hide Distance, Inv, Step, Run;
    RunnableShape(t, slot);
    var s := Step(t, ops[0]);
    StepKeepsInv(t, ops[0]);
    RunFirst(t, ops, 0);
    if ops[0].Tick? { TickTurn(t, slot); } else { OthersKeep(t, ops[0], slot); }
    if ops[0].Tick? && s.current == slot {
      assert TurnAt(t, ops, slot, 0);
    } else {
      TurnComes(s, ops[1..], slot);
      var k: nat :| TurnAt(s, ops[1..], slot, k);
      RunFirst(t, ops, k + 1);
      assert TurnAt(t, ops, slot, k + 1);
    }
  }

  /** No runnable slot starves: in every run without exit, whatever is created and whoever
      yields in between, one of any 32 ticks makes it current. */
  lemma NoStarvation(t: Table, ops: seq<Op>, slot: nat)
    requires Inv(t) && slot < 32 && t.procs[slot].Runnable()
    requires (forall op | op in ops :: !op.Exit?) && 32 <= TickCount(ops)
    ensures exists k: nat :: TurnAt(t, ops, slot, k)
  {
    TurnComes(t, ops, slot);
  }

  // ----------------------------------------------------------------- fairness

  /** The slot a tick charges, or -1. */
  function Charged(t: Table): (r: int)
    requires Shape(t)
  {
    if t.count != 0 && 0 <= t.current && t.procs[t.current].state.Running? then t.current else -1
  }

  /** How many of the first k ticks charge a slot. */
  function Gain(t: Table, k: nat, slot: nat): (r: nat)
    requires Shape(t)
  {
    if k == 0 then 0 else Gain(t, k - 1, slot) + if Charged(Ticks(t, k - 1)) == slot then 1 else 0
  }

  lemma TickSlices(t: Table, slot: nat)
    requires Shape(t) && slot < 32 && t.procs[slot].slices < 0x1_0000_0000
    ensures var d := if Charged(t) == slot then 1 else 0;
            TickStep(t).procs[slot].slices == (t.procs[slot].slices + d) % 0x1_0000_0000
  {
  }

  /** The counters in the table are the gains, modulo their 32 bits. */
  lemma {:induction false} SlicesAreGains(t: Table, k: nat, slot: nat)
    requires Shape(t) && slot < 32 && t.procs[slot].slices < 0x1_0000_0000
    ensures Ticks(t, k).procs[slot].slices == (t.procs[slot].slices + Gain(t, k, slot)) % 0x1_0000_0000
  {
    hide TickStep, Charged;
    if 0 < k {
      SlicesAreGains(t, k - 1, slot);
      TickSlices(Ticks(t, k - 1), slot);
    }
  }

  /** The current slot exists and is RUNNING. */
  predicate CurrentRuns(t: Table)
    requires Shape(t)
  {
    0 <= t.current && t.procs[t.current].state.Running?
  }

  lemma RunningStays(t: Table)
    requires Inv(t) && CurrentRuns(t)
    ensures CurrentRuns(TickStep(t)) && Charged(t) == t.current && t.current in Ring(t)
  {
    UsedBound(t.procs);
    ChargeInv(t);
  }

  /** Positions on a ring of n places, and full rounds, k ticks after position p. */
  function PosAfter(p: int, k: nat, n: nat): (r: int) { if k == 0 then p else Succ(PosAfter(p, k - 1, n), n) }

  function Lead(p: int, q: int, n: nat): (r: int) { if p <= q then q - p else q - p + n }

  function Rounds(p: int, k: nat, n: nat): (r: nat) {
    if k == 0 then 0 else Rounds(p, k - 1, n) + if Lead(p, PosAfter(p, k - 1, n), n) == n - 1 then 1 else 0
  }

  /** After k ticks the table is at its ring position with the current slot running. */
  predicate Turning(t: Table, s: Table, p: int, k: nat)
    requires Shape(t) && Shape(s)
  {
    var pos := PosAfter(p, k, |Ring(t)|);
    Inv(s) && Ring(s) == Ring(t) && CurrentRuns(s) && 0 <= pos < |Ring(t)| && s.current == Ring(t)[pos] && At(s, pos)
  }

  lemma TurningNext(t: Table, s: Table, p: int, k: nat)
    requires Shape(t) && Shape(s) && Turning(t, s, p, k)
    ensures Turning(t, TickStep(s), p, k + 1) && Charged(s) == Ring(t)[PosAfter(p, k, |Ring(t)|)]
  {
    hide Inv, Slots, TickStep;
    RunningStays(s);
    TickRotates(s, PosAfter(p, k, |Ring(t)|));
  }

  lemma {:induction false} TicksTurn(t: Table, p: int, k: nat)
    requires Shape(t) && Turning(t, t, p, 0)
    ensures Turning(t, Ticks(t, k), p, k)
  {
    hide Turning, TickStep, Shape;
    if 0 < k {
      TicksTurn(t, p, k - 1);
      TurningNext(t, Ticks(t, k - 1), p, k - 1);
    }
  }

  lemma TurningPlace(t: Table, s: Table, p: int, k: nat, q: nat)
    requires Shape(t) && Shape(s) && Turning(t, s, p, k) && q < |Ring(t)|
    ensures var pos := PosAfter(p, k, |Ring(t)|);
            0 <= pos < |Ring(t)| && (Ring(t)[pos] == Ring(t)[q] <==> pos == q)
  {
    hide Inv, TickStep;
    var pos := PosAfter(p, k, |Ring(t)|);
    if Ring(t)[pos] == Ring(t)[q] { RingDistinct(Ring(t), pos, q); }
  }

  lemma LeadNext(p: int, pos: int, q: int, n: nat)
    requires 0 <= p < n && 0 <= pos < n && 0 <= q < n
    ensures (if Lead(p, pos, n) == n - 1 then 1 else 0) + (if Lead(p, q, n) < Lead(p, Succ(pos, n), n) then 1 else 0)
         == (if Lead(p, q, n) < Lead(p, pos, n) then 1 else 0) + (if pos == q then 1 else 0)
  {
  }

  /** Ring place q gains one for every full round, and one more once passed in this round. */
  lemma {:induction false} GainAt(t: Table, p: int, k: nat, q: nat)
    requires Shape(t) && Turning(t, t, p, 0) && q < |Ring(t)| && 0 <= p < |Ring(t)|
    ensures var n := |Ring(t)|;
            Gain(t, k, Ring(t)[q]) == Rounds(p, k, n) + if Lead(p, q, n) < Lead(p, PosAfter(p, k, n), n) then 1 else 0
  {
    hide Turning, TickStep, Shape, Charged, Ticks, Ring;
    var n := |Ring(t)|;
    if 0 < k {
      GainAt(t, p, k - 1, q);
      TicksTurn(t, p, k - 1);
      TurningNext(t, Ticks(t, k - 1), p, k - 1);
      var pos := PosAfter(p, k - 1, n);
      TurningPlace(t, Ticks(t, k - 1), p, k - 1, q);
      LeadNext(p, pos, q, n);
    }
  }

  lemma FairStart(t: Table, p: int)
    requires Inv(t) && CurrentRuns(t) && At(t, p)
    ensures Turning(t, t, p, 0)
  {
  }

  lemma FairFromRunning(t: Table, k: nat, a: nat, b: nat)
    requires Inv(t) && CurrentRuns(t)
    requires a < 32 && b < 32 && t.procs[a].Runnable() && t.procs[b].Runnable()
    ensures -1 <= Gain(t, k, a) - Gain(t, k, b) <= 1
  {
    var p := PositionExists(t);
    var i := PlaceOf(t, a);
    var j := PlaceOf(t, b);
    FairStart(t, p);
    GainAt(t, p, k, i);
    GainAt(t, p, k, j);
  }

  lemma {:induction false} TicksFirst(t: Table, k: nat)
    requires Shape(t)
    ensures Ticks(TickStep(t), k) == Ticks(t, k + 1)
  {
    hide TickStep;
    if 0 < k { TicksFirst(t, k - 1); } else { assert Ticks(t, 0) == t; }
  }

  lemma TicksZero(t: Table)
    requires Shape(t)
    ensures Ticks(t, 0) == t
  {
  }

  lemma {:induction false} GainFirst(t: Table, k: nat, slot: nat)
    requires Shape(t)
    ensures Gain(t, k + 1, slot) == Gain(TickStep(t), k, slot) + if Charged(t) == slot then 1 else 0
  {
    hide TickStep, Charged, Ticks;
    if 0 < k {
      GainFirst(t, k - 1, slot);
      TicksFirst(t, k - 1);
    } else {
      TicksZero(t);
      assert Gain(t, 0, slot) == 0;
    }
  }

  lemma {:induction false} SlotsOne(procs: seq<Proc>, k: nat, a: nat, b: nat)
    requires k <= |procs| && |Slots(procs, k)| == 1 && a < k && b < k && procs[a].Runnable() && procs[b].Runnable()
    ensures a == b
  {
    hide Slots;
    var r := Slots(procs, k);
    assert a in r && b in r;
    assert r[0] == a && r[0] == b;
  }

  lemma RingOne(t: Table, a: nat, b: nat)
    requires Shape(t) && |Ring(t)| == 1 && a < 32 && b < 32 && t.procs[a].Runnable() && t.procs[b].Runnable()
    ensures a == b
  {
    SlotsOne(t.procs, 32, a, b);
  }

  lemma InRing(t: Table, a: nat)
    requires Inv(t) && a < 32 && t.procs[a].Runnable()
    ensures Shape(t) && 0 < |Ring(t)| && (!CurrentRuns(t) ==> Charged(t) == -1)
  {
    assert a in Ring(t);
  }

  /** A tick either leaves the current slot running or finds it alone on the ring. */
  lemma FirstTickRuns(t: Table)
    requires Inv(t) && 0 < |Ring(t)|
    ensures CurrentRuns(TickStep(t)) || |Ring(t)| == 1
  {
    var p := PositionExists(t);
    TickLands(t, p);
    RingNonEmpty(t);
    var next := Ring(t)[Succ(p, |Ring(t)|)];
    if next == t.current && 1 < |Ring(t)| { RingDistinct(Ring(t), p, Succ(p, |Ring(t)|)); }
  }

  /** Over any window of ticks whatever, the slices gained by any two runnable slots differ by
      at most one. */
  lemma Fair(t: Table, k: nat, a: nat, b: nat)
    requires Inv(t) && a < 32 && b < 32 && t.procs[a].Runnable() && t.procs[b].Runnable()
    ensures -1 <= Gain(t, k, a) - Gain(t, k, b) <= 1
  {
    hide Inv, Slots, TickStep, Ring, CurrentRuns, Charged, Ticks;
    InRing(t, a);
    if CurrentRuns(t) {
      FairFromRunning(t, k, a, b);
    } else if 0 < k {
      GainFirst(t, k - 1, a);
      GainFirst(t, k - 1, b);
      FirstTickRuns(t);
      TickInv(t);
      if |Ring(t)| == 1 { RingOne(t, a, b); } else { FairFromRunning(TickStep(t), k - 1, a, b); }
    }
  }

  /** The slot is the only runnable one and current, but READY: the scan finds it where it is
      and never marks it RUNNING. */
  predicate Stuck(t: Table, slot: nat)
    requires Shape(t) && slot < 32
  {
    |Ring(t)| == 1 && t.current == slot && t.procs[slot].state.Ready?
  }

  lemma TickAlone(y: Table)
    requires Shape(y) && 0 <= y.current && y.procs[y.current].state.Ready? && TickStep(y).current == y.current
    ensures TickStep(y) == y && Charged(y) == -1
  {
  }

  lemma {:induction false} StuckUncharged(t: Table, slot: nat, k: nat)
    requires Inv(t) && slot < 32 && Stuck(t, slot)
    ensures Ticks(t, k) == t && Gain(t, k, slot) == 0
  {
    if 0 < k {
      StuckUncharged(t, slot, k - 1);
      var p := PositionExists(t);
      TickLands(t, p);
      TickAlone(t);
    }
  }

  lemma {:induction false} FirstRound(p: int, k: nat, n: nat)
    requires 0 <= p < n && k <= n
    ensures PosAfter(p, k, n) == (if k == n then p else if p + k < n then p + k else p + k - n)
    ensures Rounds(p, k, n) == if k == n then 1 else 0
  {
    if 0 < k { FirstRound(p, k - 1, n); }
  }

  /** A round of ticks of a running table charges every slot of the ring exactly once. */
  lemma ChargedInARound(t: Table, slot: nat)
    requires Inv(t) && CurrentRuns(t) && slot < 32 && t.procs[slot].Runnable()
    ensures Gain(t, |Ring(t)|, slot) == 1
  {
    hide Inv, Slots, Ticks, Ring, At, Charged, TickStep, CurrentRuns, Gain;
    InRing(t, slot);
    var p := PositionExists(t);
    var q := PlaceOf(t, slot);
    FairStart(t, p);
    TurningPlace(t, t, p, 0, q);
    GainAt(t, p, |Ring(t)|, q);
    FirstRound(p, |Ring(t)|, |Ring(t)|);
  }

  /** The first tick leaves a table running unless its current slot is stuck. */
  lemma FirstTickUnstuck(t: Table, slot: nat)
    requires Inv(t) && slot < 32 && t.procs[slot].Runnable() && !CurrentRuns(t) && !Stuck(t, slot)
    ensures CurrentRuns(TickStep(t))
  {
    assert slot in Ring(t);
    FirstTickRuns(t);
    if |Ring(t)| == 1 {
      if 0 <= t.current { RingOne(t, t.current, slot); }
      var p := PositionExists(t);
      TickLands(t, p);
      RingNonEmpty(t);
    }
  }

  lemma StuckRests(t: Table, slot: nat)
    requires Shape(t) && slot < 32 && Stuck(t, slot)
    ensures !CurrentRuns(t)
  {
  }

  /** Ticks charge a runnable slot at some time, and then within one round, or a round and one
      tick when the table is not running yet, if and only if the slot is not stuck. */
  lemma ChargedIff(t: Table, slot: nat)
    requires Inv(t) && slot < 32 && t.procs[slot].Runnable()
    ensures (exists k :: 0 < Gain(t, k, slot)) <==> !Stuck(t, slot)
    ensures 0 < Gain(t, |Ring(t)| + 1, slot) <==> !Stuck(t, slot)
    ensures CurrentRuns(t) ==> Gain(t, |Ring(t)|, slot) == 1
  {
    hide Inv, Slots, TickStep, CurrentRuns, Charged, Ticks, Stuck;
    InRing(t, slot);
    if Stuck(t, slot) {
      forall k: nat ensures Gain(t, k, slot) == 0 { StuckUncharged(t, slot, k); }
      StuckRests(t, slot);
    } else if CurrentRuns(t) {
      ChargedInARound(t, slot);
      assert 0 < Gain(t, |Ring(t)| + 1, slot);
    } else {
      FirstTickUnstuck(t, slot);
      TickInv(t);
      InRing(TickStep(t), slot);
      SameRing(t.procs, TickStep(t).procs, 32);
      ChargedInARound(TickStep(t), slot);
      GainFirst(t, |Ring(t)|, slot);
    }
  }

  lemma {:induction false} FirstAlone(procs: seq<Proc>, k: nat)
    requires 1 <= k <= |procs| && procs[0].Runnable() && forall i | 1 <= i < k :: !procs[i].Runnable()
    ensures Slots(procs, k) == [0]
  {
    if 1 < k { FirstAlone(procs, k - 1); } else { assert Slots(procs, 0) == []; }
  }

  /** A process that is alone and yields is stuck ... */
  lemma YieldSticks(t: Table)
    requires Inv(t) && 0 <= t.current && |Ring(t)| == 1
    ensures Inv(YieldStep(t)) && Stuck(YieldStep(t), t.current)
  {
    StepKeepsInv(t, Yield);
    SameRing(t.procs, YieldStep(t).procs, 32);
  }

  /** ... until another is created. */
  lemma CreateUnsticks(t: Table, slot: nat)
    requires Inv(t) && slot < 32 && Stuck(t, slot)
    ensures var r := CreateStep(t, true, true);
            Inv(r) && (r != t ==> r.procs[slot].Runnable() && !Stuck(r, slot))
  {
    var r, added := CreateStep(t, true, true), FirstUnused(t.procs, 0);
    StepKeepsInv(t, Create(true, true));
    if r != t {
      assert r.procs[slot] == t.procs[slot];
      if |Ring(r)| == 1 { RingOne(r, slot, added); }
    }
  }

  /** The first process of a fresh table, run and yielding at once. */
  function LoneTable(): (t: Table)
    ensures Shape(t)
  {
    Table([Proc(1, Ready, 0, 0)] + seq(31, _ => Proc(0, Unused, 0, 0)), 0, 1)
  }

  lemma LoneSound()
    ensures Inv(LoneTable()) && Stuck(LoneTable(), 0)
  {
    var t := LoneTable();
    UsedBound(t.procs[1..]);
    FirstAlone(t.procs, 32);
  }

  lemma RunOne(t: Table, op: Op, ops: seq<Op>)
    requires Shape(t)
    ensures Shape(Step(t, op)) && Run(t, [op] + ops) == Run(Step(t, op), ops)
  {
    assert ([op] + ops)[1..] == ops;
  }

  lemma LoneRun()
    ensures Run(InitStep(Table([], -1, 0)), [Create(true, true), Tick, Yield]) == LoneTable()
  {
    var t0 := InitStep(Table([], -1, 0));
    var t1, t2 := Step(t0, Create(true, true)), LoneTable().(procs := LoneTable().procs[0 := Proc(1, Running, 0, 0)]);
    assert t1.procs == LoneTable().procs;
    assert Probe(-1, 0) == 0 && Scan(t1.procs, -1, 0) == 0;
    assert Step(t1, Tick).procs == t2.procs;
    assert Step(t2, Yield).procs == LoneTable().procs;
    assert [Create(true, true), Tick, Yield][1..] == [Tick, Yield];
    assert [Tick, Yield][1..] == [Yield] && [Yield][1..] == [];
    RunOne(t2, Yield, []);
    RunOne(t1, Tick, [Yield]);
    RunOne(t0, Create(true, true), [Tick, Yield]);
    assert Run(LoneTable(), []) == LoneTable();
  }

  /** Created, ticked and yielded once, it waits for ever. */
  lemma LoneYielderUncharged(k: nat)
    ensures var t := LoneTable();
            && t == Run(InitStep(Table([], -1, 0)), [Create(true, true), Tick, Yield])
            && Inv(t) && Stuck(t, 0) && Ticks(t, k) == t && Gain(t, k, 0) == 0
  {
    hide Inv, Slots, Ticks, Gain, Stuck, LoneTable, InitStep, Run;
    LoneRun();
    LoneSound();
    StuckUncharged(LoneTable(), 0, k);
  }

  /** A table initialised again while a process is in use counts one that is gone. */
  lemma InitKeepsCount()
    ensures Inv(LoneTable()) && InitStep(LoneTable()).count == 1 && !Inv(InitStep(LoneTable()))
  {
    LoneSound();
    InitInvIff(LoneTable());
  }

  // --------------------------------------------------------------- the code

  class ProcessTable {
    const processes: array<Proc>
    var currentProcess: int
    var processCount: int

    ghost function Abstract(): (r: Table)
      reads this, processes
    {
      Table(processes[..], currentProcess, processCount)
    }

    ghost predicate Ok()
      reads this, processes
    {
      processes.Length == 32 && -1 <= currentProcess < 32
    }

    /** The statics at boot. */
    constructor ()
      ensures Ok() && fresh(processes) && Inv(Abstract()) && currentProcess == -1 && processCount == 0
    {
      processes := new Proc[32](_ => Proc(0, Unused, 0, 0));
      currentProcess, processCount := -1, 0;
      new;
      UsedBound(processes[..]);
    }

    method Init()
      requires Ok()
      modifies this`currentProcess, processes
      ensures Ok() && Abstract() == InitStep(old(Abstract()))
      ensures forall i | 0 <= i < 32 :: processes[i] == Proc(0, Unused, 0, 0)
      ensures currentProcess == -1 && processCount == old(processCount)
    {
      for i := 0 to 32
        invariant forall k | 0 <= k < i :: processes[k] == Proc(0, Unused, 0, 0)
      {
        processes[i] := Proc(0, Unused, 0, 0);
      }
      currentProcess := -1;
    }

    method Create(kernelStack: bool, userStack: bool)
      requires Ok()
      modifies this`processCount, processes
      ensures Ok() && Abstract() == CreateStep(old(Abstract()), kernelStack, userStack)
    {
      if MAX_PROCESSES <= processCount { return; }
      var slot, i := -1, 0;
      while i < 32 && slot == -1
        invariant 0 <= i <= 32 && (slot == -1 || (slot < 32 && slot == FirstUnused(processes[..], 0)))
        invariant slot == -1 ==> FirstUnused(processes[..], 0) == FirstUnused(processes[..], i)
        decreases 32 - i, slot == -1
      {
        if processes[i].state == Unused { slot := i; } else { i := i + 1; }
      }
      if slot == -1 { return; }
      processes[slot] := Proc(slot + 1, Ready, 0, 0);
      if !kernelStack || !userStack {
        processes[slot] := processes[slot].(state := Unused);
        return;
      }
      processCount := processCount + 1;
    }

    method Exit(code: int)
      requires Ok()
      modifies this, processes
      ensures Ok() && Abstract() == ExitStep(old(Abstract()), code)
    {
      if currentProcess < 0 { return; }
      processes[currentProcess] := processes[currentProcess].(state := Unused, exitCode := code);
      processCount := processCount - 1;
      currentProcess := -1;
    }

    method Yield()
      requires Ok()
      modifies processes
      ensures Ok() && Abstract() == YieldStep(old(Abstract()))
    {
      if 0 <= currentProcess {
        processes[currentProcess] := processes[currentProcess].(state := Ready);
      }
    }

    method FindNext() returns (next: int)
      requires Ok()
      ensures next == Scan(processes[..], currentProcess, 0)
    {
      for i := 0 to 32
        invariant Scan(processes[..], currentProcess, 0) == Scan(processes[..], currentProcess, i)
      {
        var idx := (currentProcess + 1 + i) % 32;
        assert idx == Probe(currentProcess, i);
        if processes[idx].state == Ready || processes[idx].state == Running { return idx; }
      }
      return -1;
    }

    method Tick()
      requires Ok()
      modifies this`currentProcess, processes
      ensures Ok() && Abstract() == TickStep(old(Abstract()))
    {
      ghost var t := Abstract();
      if processCount == 0 { return; }
      if 0 <= currentProcess && processes[currentProcess].state == Running {
        var p := processes[currentProcess];
        processes[currentProcess] := p.(slices := (p.slices + 1) % 0x1_0000_0000);
      }
      assert Abstract() == Charge(t);
      var next := FindNext();
      if next < 0 || next == currentProcess { return; }
      if 0 <= currentProcess {
        processes[currentProcess] := processes[currentProcess].(state := Ready);
      }
      processes[next] := processes[next].(state := Running);
      currentProcess := next;
      assert Abstract() == SwitchTo(Charge(t), next);
    }

    /** The pid lookup finds exactly the used slots, each under the pid stored in it. */
    method Get(pid: int) returns (slot: int)
      requires Ok() && Inv(Abstract())
      ensures slot == -1 || 0 <= slot < 32
      ensures 0 <= slot ==> !processes[slot].state.Unused? && processes[slot].pid == pid
      ensures slot == -1 ==> forall i | 0 <= i < 32 :: processes[i].state.Unused? || processes[i].pid != pid
    {
      forall i | 0 <= i < 32 ensures !processes[i].state.Unused? ==> processes[i].pid == i + 1 {
        assert SlotOk(Abstract(), i);
      }
      if pid < 1 || MAX_PROCESSES < pid { return -1; }
      if processes[pid - 1].state == Unused { return -1; }
      return pid - 1;
    }
  }
}
