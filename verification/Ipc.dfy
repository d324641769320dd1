/** The message ring of rust/src/ipc.rs: 64 slots, two indices and used flags refine a bounded
    first-in-first-out queue. */
module Ipc {
  import opened Common
  import opened Memory

  const MSG_SIZE: nat := 256
  const CAPACITY: nat := 63

  datatype Message = Message(sender: int, receiver: int, data: seq<byte>, length: nat, used: bool)

  /** What a message means: its body is the first `length` bytes of the buffer. */
  datatype Envelope = Envelope(sender: int, receiver: int, body: seq<byte>)

  function Open(m: Message): (r: Envelope) {
    Envelope(m.sender, m.receiver, if m.length <= |m.data| then m.data[..m.length] else m.data)
  }

  // --------------------------------------------------------- the bounded queue

  datatype Op = Send(from: int, to: int, data: seq<byte>) | Receive(from: int, max: nat)

  /** One call: the queue after it, what it took in and what it took out, and the answer. */
  datatype Outcome = Outcome(queue: seq<Envelope>, accepted: seq<Envelope>, removed: seq<Envelope>, answer: int,
    bytes: seq<byte>)

  function SendOutcome(q: seq<Envelope>, from: int, to: int, data: seq<byte>): (r: Outcome) {
    if CAPACITY <= |q| || to < 1 || 32 < to then Outcome(q, [], [], -1, [])
    else
      var e := Envelope(from, to, data[..Min(|data|, MSG_SIZE)]);
      Outcome(q + [e], [e], [], Min(|data|, MSG_SIZE), [])
  }

  function ReceiveOutcome(q: seq<Envelope>, from: int, max: nat): (r: Outcome) {
    if q == [] || (from != 0 && q[0].sender != from) then Outcome(q, [], [], 0, [])
    else
      var n := Min(|q[0].body|, max);
      Outcome(q[1..], [], [q[0]], n, q[0].body[..n])
  }

  function Step(q: seq<Envelope>, op: Op): (r: Outcome) {
    match op
    case Send(from, to, data) => SendOutcome(q, from, to, data)
    case Receive(from, max) => ReceiveOutcome(q, from, max)
  }

  /** A run, accumulating everything accepted and everything removed, in order. */
  function Run(q: seq<Envelope>, ops: seq<Op>): (r: Outcome)
    decreases |ops|
  {
    if ops == [] then Outcome(q, [], [], 0, [])
    else
      var s := Step(q, ops[0]);
      var r := Run(s.queue, ops[1..]);
      Outcome(r.queue, s.accepted + r.accepted, s.removed + r.removed, 0, s.bytes + r.bytes)
  }

  lemma StepIsFifo(q: seq<Envelope>, op: Op)
    ensures var s := Step(q, op); q + s.accepted == s.removed + s.queue && (|q| <= CAPACITY ==> |s.queue| <= CAPACITY)
  {
  }

  lemma Chain(q: seq<Envelope>, s: Outcome, r: Outcome)
    requires q + s.accepted == s.removed + s.queue && s.queue + r.accepted == r.removed + r.queue
    ensures q + (s.accepted + r.accepted) == (s.removed + r.removed) + r.queue
  {
    assert q + (s.accepted + r.accepted) == (q + s.accepted) + r.accepted;
    assert (s.removed + s.queue) + r.accepted == s.removed + (s.queue + r.accepted);
    assert s.removed + (r.removed + r.queue) == (s.removed + r.removed) + r.queue;
  }

  /** A send answers -1 exactly when 63 messages are queued or the receiver is not a process; else
      it appends the first 256 bytes and answers how many that are. */
  lemma SendAnswers(q: seq<Envelope>, from: int, to: int, data: seq<byte>)
    requires |q| <= 63
    ensures var o := Step(q, Send(from, to, data));
            && o.removed == [] && o.bytes == []
            && (o.answer == -1 <==> |q| == 63 || to < 1 || 32 < to)
            && (o.answer == -1 ==> o.queue == q && o.accepted == [])
            && (o.answer != -1 ==>
                  && o.answer == Min(|data|, 256)
                  && o.accepted == [Envelope(from, to, data[..Min(|data|, 256)])] && o.queue == q + o.accepted)
  {
  }

  /** The oldest message is from the sender asked for, or any sender will do. */
  predicate Matches(q: seq<Envelope>, from: int) { q != [] && (from == 0 || q[0].sender == from) }

  /** A receive takes the oldest message if it matches, delivers as much of it as the buffer holds
      and answers how much; otherwise it answers 0 and changes nothing. */
  lemma ReceiveAnswers(q: seq<Envelope>, from: int, max: nat)
    ensures var o := Step(q, Receive(from, max));
            && o.accepted == [] && o.answer == |o.bytes|
            && (if Matches(q, from)
                then o.removed == [q[0]] && o.queue == q[1..] && o.bytes == q[0].body[..Min(|q[0].body|, max)]
                else o.removed == [] && o.queue == q && o.bytes == [])
  {
  }

  /** The senders asked for by the receives that took a message, in order. */
  function Asked(q: seq<Envelope>, ops: seq<Op>): (r: seq<int>)
    decreases |ops|
  {
    if ops == [] then []
    else
      var s := Step(q, ops[0]);
      (if ops[0].Receive? && s.removed != [] then [ops[0].from] else []) + Asked(s.queue, ops[1..])
  }

  /** The i-th message is from the i-th sender asked for. */
  predicate AllMatch(asked: seq<int>, ms: seq<Envelope>) {
    |asked| == |ms| && forall i | 0 <= i < |asked| :: asked[i] == 0 || ms[i].sender == asked[i]
  }

  lemma MatchesJoin(a: seq<int>, ms: seq<Envelope>, b: seq<int>, ns: seq<Envelope>)
    requires AllMatch(a, ms) && AllMatch(b, ns)
    ensures AllMatch(a + b, ms + ns)
  {
  }

  lemma StepMatches(q: seq<Envelope>, op: Op)
    ensures var s := Step(q, op);
            if op.Receive? && s.removed != []
            then |s.removed| == 1 && (op.from == 0 || s.removed[0].sender == op.from) else s.removed == []
  {
  }

  /** Over every run each receive that names a sender gets a message of that sender. */
  lemma {:induction false} RunMatches(q: seq<Envelope>, ops: seq<Op>)
    ensures AllMatch(Asked(q, ops), Run(q, ops).removed)
    decreases |ops|
  {
    hide Step;
    if ops != [] {
      var s := Step(q, ops[0]);
      StepMatches(q, ops[0]);
      RunMatches(s.queue, ops[1..]);
      var head := if ops[0].Receive? && s.removed != [] then [ops[0].from] else [];
      MatchesJoin(head, s.removed, Asked(s.queue, ops[1..]), Run(s.queue, ops[1..]).removed);
    }
  }

  /** First in, first out: over every run the messages removed are, in order, the first of
      those queued at the start and accepted since, and the queue holds exactly the rest. */
  lemma {:induction false} RunIsFifo(q: seq<Envelope>, ops: seq<Op>)
    ensures var r := Run(q, ops); q + r.accepted == r.removed + r.queue
    ensures |q| <= CAPACITY ==> |Run(q, ops).queue| <= CAPACITY
    decreases |ops|
  {
    hide Step;
    if ops != [] {
      var s := Step(q, ops[0]);
      StepIsFifo(q, ops[0]);
      RunIsFifo(s.queue, ops[1..]);
      var r := Run(s.queue, ops[1..]);
      Chain(q, s, r);
    }
  }

  /** The buffer sizes of the receives that took a message, in order. */
  function Limits(q: seq<Envelope>, ops: seq<Op>): (r: seq<nat>)
    decreases |ops|
  {
    if ops == [] then []
    else
      var s := Step(q, ops[0]);
      (if ops[0].Receive? && s.removed != [] then [ops[0].max] else []) + Limits(s.queue, ops[1..])
  }

  /** Messages as buffers of given sizes receive them: each cut to its buffer. */
  function Cut(ms: seq<Envelope>, limits: seq<nat>): (r: seq<byte>)
    requires |ms| == |limits|
  {
    if ms == [] then [] else ms[0].body[..Min(|ms[0].body|, limits[0])] + Cut(ms[1..], limits[1..])
  }

  lemma {:induction false} RunCuts(q: seq<Envelope>, ops: seq<Op>)
    ensures var r, limits := Run(q, ops), Limits(q, ops);
            |limits| == |r.removed| && r.bytes == Cut(r.removed, limits)
    decreases |ops|
  {
    if ops != [] {
      var s := Step(q, ops[0]);
      RunCuts(s.queue, ops[1..]);
      var r, limits := Run(s.queue, ops[1..]), Limits(s.queue, ops[1..]);
      if s.removed != [] {
        assert ([q[0]] + r.removed)[1..] == r.removed && ([ops[0].max] + limits)[1..] == limits;
      } else {
        assert [] + r.removed == r.removed && [] + limits == limits && [] + r.bytes == r.bytes;
      }
    }
  }

  /** Over every run the bytes delivered are those of the first messages queued or accepted,
      one for every receive that took one, each cut to its receiver's buffer. */
  lemma RunDelivers(q: seq<Envelope>, ops: seq<Op>)
    ensures var r, limits := Run(q, ops), Limits(q, ops);
            |limits| <= |q + r.accepted| && r.bytes == Cut((q + r.accepted)[..|limits|], limits)
  {
    RunIsFifo(q, ops);
    RunCuts(q, ops);
    var r := Run(q, ops);
    assert (r.removed + r.queue)[..|r.removed|] == r.removed;
  }

  // ----------------------------------------------------------------- the ring

  function Next(i: nat): (r: nat)
    ensures r < 64
  {
    (i + 1) % 64
  }

  /** How far i lies ahead of head on the ring. */
  function Ahead(head: nat, i: nat): (r: nat)
    requires head < 64 && i < 64
    ensures r < 64
  {
    if head <= i then i - head else i - head + 64
  }

  function Items(ring: seq<Message>, head: nat, tail: nat): (q: seq<Envelope>)
    requires |ring| == 64 && head < 64 && tail < 64
    ensures |q| == Ahead(head, tail)
    decreases Ahead(head, tail)
  {
    if head == tail then [] else [Open(ring[head])] + Items(ring, Next(head), tail)
  }

  /** A slot is used exactly when it lies inside the window from head to tail. */
  predicate WindowOk(ring: seq<Message>, head: nat, tail: nat) {
    && |ring| == 64 && head < 64 && tail < 64
    && forall i | 0 <= i < 64 ::
         && |ring[i].data| == MSG_SIZE && ring[i].length <= MSG_SIZE
         && (ring[i].used <==> Ahead(head, i) < Ahead(head, tail))
  }

  /** Slots outside the window do not matter. */
  lemma {:induction false} ItemsKept(a: seq<Message>, b: seq<Message>, head: nat, tail: nat)
    requires |a| == |b| == 64 && head < 64 && tail < 64
    requires forall i | 0 <= i < 64 && Ahead(head, i) < Ahead(head, tail) :: a[i] == b[i]
    ensures Items(a, head, tail) == Items(b, head, tail)
    decreases Ahead(head, tail)
  {
    if head != tail {
      forall i | 0 <= i < 64 && Ahead(Next(head), i) < Ahead(Next(head), tail) ensures a[i] == b[i] {
        assert Ahead(head, i) < Ahead(head, tail);
      }
      assert Ahead(head, head) == 0;
      ItemsKept(a, b, Next(head), tail);
    }
  }

  /** Advancing the tail appends the message in the slot it leaves. */
  lemma {:induction false} ItemsAppend(ring: seq<Message>, head: nat, tail: nat)
    requires |ring| == 64 && head < 64 && tail < 64 && Next(tail) != head
    ensures Items(ring, head, Next(tail)) == Items(ring, head, tail) + [Open(ring[tail])]
    decreases Ahead(head, tail)
  {
    if head != tail {
      ItemsAppend(ring, Next(head), tail);
    } else {
      assert Items(ring, Next(head), Next(tail)) == [];
    }
  }

  /** Clearing the used flag of the head slot and advancing the head removes its message. */
  lemma HeadTaken(ring: seq<Message>, head: nat, tail: nat)
    requires WindowOk(ring, head, tail) && head != tail
    ensures var r := ring[head := ring[head].(used := false)];
            && ring[head].used && WindowOk(r, Next(head), tail)
            && Items(ring, head, tail) == [Open(ring[head])] + Items(r, Next(head), tail)
  {
    var r := ring[head := ring[head].(used := false)];
    assert Ahead(head, head) == 0 < Ahead(head, tail);
    forall i | 0 <= i < 64 && i != head ensures Ahead(head, i) == Ahead(Next(head), i) + 1 {}
    ItemsKept(ring, r, Next(head), tail);
  }

  lemma EmptyIff(ring: seq<Message>, head: nat, tail: nat)
    requires |ring| == 64 && head < 64 && tail < 64
    ensures Items(ring, head, tail) == [] <==> head == tail
  {
  }

  class MessageQueue {
    const queue: array<Message>
    var head: nat
    var tail: nat

    ghost predicate Valid()
      reads this, queue
    {
      WindowOk(queue[..], head, tail)
    }

    ghost function Contents(): (r: seq<Envelope>)
      requires Valid()
      reads this, queue
    {
      Items(queue[..], head, tail)
    }

    constructor ()
      ensures Valid() && fresh(queue) && Contents() == []
    {
      queue := new Message[64](_ => Message(0, 0, seq(256, _ => 0), 0, false));
      head, tail := 0, 0;
    }

    method Init()
      requires queue.Length == 64 && forall i | 0 <= i < 64 :: |queue[i].data| == MSG_SIZE
      modifies this, queue
      ensures Valid() && Contents() == []
    {
      for i := 0 to 64
        invariant forall k | 0 <= k < 64 :: |queue[k].data| == MSG_SIZE
        invariant forall k | 0 <= k < i :: !queue[k].used && queue[k].length == 0
      {
        queue[i] := queue[i].(used := false, length := 0);
      }
      head, tail := 0, 0;
    }

    method Send(from: int, to: int, data: seq<byte>) returns (r: int)
      requires Valid()
      modifies this`tail, queue
      ensures Valid()
      ensures var o := SendOutcome(old(Contents()), from, to, data); Contents() == o.queue && r == o.answer
    {
      var len := if 256 < |data| then 256 else |data|;
      var next := (tail + 1) % 64;
      ghost var before := queue[..];
      assert Ahead(head, tail) == 63 <==> next == head;
      if next == head { return -1; }
      if to < 1 || 32 < to { return -1; }
      queue[tail] := queue[tail].(sender := from, receiver := to, data := data[..len] + queue[tail].data[len..]);
      queue[tail] := queue[tail].(length := len, used := true);
      ItemsKept(before, queue[..], head, tail);
      ItemsAppend(queue[..], head, tail);
      assert Open(queue[tail]).body == data[..len];
      tail := next;
      return len;
    }

    /** The branch for an unused head slot cannot be reached. */
    method Receive(from: int, max: nat) returns (r: int, buf: seq<byte>)
      requires Valid()
      modifies this`head, queue
      ensures Valid()
      ensures var o := ReceiveOutcome(old(Contents()), from, max);
              Contents() == o.queue && r == o.answer && buf == o.bytes
    {
      hide Items, Ahead;
      EmptyIff(queue[..], head, tail);
      buf := [];
      if head == tail { return 0, []; }
      var msg := queue[head];
      HeadTaken(queue[..], head, tail);
      if !msg.used { assert false; }
      if from != 0 && msg.sender != from { return 0, []; }
      var n := if max < msg.length then max else msg.length;
      ghost var before := queue[..];
      queue[head] := msg.(used := false);
      assert queue[..] == before[head := before[head].(used := false)];
      head := (head + 1) % 64;
      return n, msg.data[..n];
    }
  }
}
