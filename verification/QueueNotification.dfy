/**
 A reader of a POSIX message queue that sleeps until mq_notify() signals it.  Registration is
 one-shot and fires only when a message arrives on an empty queue (mq_notify() in the System
 Interfaces volume of POSIX.1-2017), so it must be renewed before the queue is drained.
 */
module QueueNotification {
  import opened Common
  import opened Runs

  datatype Message = Message(prio: nat, body: seq<int>)

  /** QSuspend waits in sigsuspend(); QError is an mq_notify() that failed with EBUSY. */
  datatype Pc = QSuspend | QRenotify | QReceive | QError

  datatype State = State(
    capacity: nat, queue: seq<Message>, registered: bool, pending: bool, pc: Pc,
    sent: seq<Message>, received: seq<Message>)

  /** A step of the reader, or a message sent by any other process. */
  datatype Step = Read | Send(m: Message)

  predicate Ordered(q: seq<Message>) { forall i, j | 0 <= i < j < |q| :: q[i].prio >= q[j].prio }

  /** The state right after the first registration. */
  predicate Start(s: State)
  {
    && s.capacity >= 1 && |s.queue| <= s.capacity
    && Ordered(s.queue)
    && s.registered && !s.pending && s.pc == QSuspend
    && s.sent == s.queue && s.received == []
  }

  predicate Init(s: State) { Start(s) && s.queue == [] }

  /** The messages ahead of a new one: those of at least its priority. */
  function Position(q: seq<Message>, prio: nat): (p: nat)
    ensures p <= |q|
    ensures forall i | 0 <= i < p :: q[i].prio >= prio
    ensures p < |q| ==> q[p].prio < prio
  {
    if q == [] || q[0].prio < prio then 0 else 1 + Position(q[1..], prio)
  }

  function Enqueue(q: seq<Message>, m: Message): seq<Message>
  {
    var p := Position(q, m.prio);
    q[..p] + [m] + q[p..]
  }

  predicate CanRead(s: State)
  {
    match s.pc
    case QSuspend => s.pending
    case QError => false
    case _ => true
  }

  function DoRead(s: State): State
    requires CanRead(s)
  {
    match s.pc
    case QSuspend => s.(pending := false, pc := QRenotify)
    case QRenotify => if s.registered then s.(pc := QError) else s.(registered := true, pc := QReceive)
    case QReceive =>
      if s.queue == [] then s.(pc := QSuspend)
      else s.(received := s.received + [s.queue[0]], queue := s.queue[1..])
  }

  /** A message that arrives on an empty queue uses up the registration. */
  function DoSend(s: State, m: Message): State
  {
    var fires := s.registered && s.queue == [];
    s.(queue := Enqueue(s.queue, m), sent := s.sent + [m],
       registered := s.registered && !fires, pending := s.pending || fires)
  }

  predicate Next(s: State, l: Step, s': State)
  {
    match l
    case Read => CanRead(s) && s' == DoRead(s)
    case Send(m) => |s.queue| < s.capacity && s' == DoSend(s, m)
  }

  // ---- What every step keeps ----

  /** How many of the three ways of not missing a message are in force. */
  function Guards(s: State): nat
  {
    (if s.registered then 1 else 0) + (if s.pending then 1 else 0) + (if s.pc.QRenotify? then 1 else 0)
  }

  predicate Bookkeeping(s: State)
  {
    && s.capacity >= 1 && |s.queue| <= s.capacity && Ordered(s.queue)
    && multiset(s.sent) == multiset(s.received) + multiset(s.queue)
  }

  predicate Inv(s: State)
  {
    && Bookkeeping(s)
    && !s.pc.QError?
    && Guards(s) == 1
    && (s.registered && s.pc.QSuspend? ==> s.queue == [])
  }

  lemma ReceiveConserves(s: State)
    requires Bookkeeping(s) && CanRead(s)
    ensures Bookkeeping(DoRead(s))
  {
    if s.pc.QReceive? && s.queue != [] {
      assert s.queue == [s.queue[0]] + s.queue[1..];
    }
  }

  lemma EnqueueConserves(q: seq<Message>, m: Message)
    ensures multiset(Enqueue(q, m)) == multiset(q) + multiset{m}
  {
    var p := Position(q, m.prio);
    assert q == q[..p] + q[p..];
  }

  lemma EnqueueKeepsOrder(q: seq<Message>, m: Message)
    requires Ordered(q)
    ensures Ordered(Enqueue(q, m))
  {
    var p, r := Position(q, m.prio), Enqueue(q, m);
    forall i, j | 0 <= i < j < |r| ensures r[i].prio >= r[j].prio {
      assert r[i] == if i < p then q[i] else if i == p then m else q[i - 1];
      assert r[j] == if j < p then q[j] else if j == p then m else q[j - 1];
    }
  }

  lemma InvIsInductive()
    ensures Inductive(Init, Next, Inv)
  {
    forall s, l, s' | Inv(s) && Next(s, l, s') ensures Inv(s') {
      match l
      case Read => ReceiveConserves(s);
      case Send(m) => EnqueueConserves(s.queue, m); EnqueueKeepsOrder(s.queue, m);
    }
  }

  // ---- Progress ----

  function Measure(s: State): nat
  {
    |s.queue| + (if s.pending then 4 else 0)
    + match s.pc case QSuspend => 0 case QRenotify => 3 case QReceive => 2 case QError => 0
  }

  predicate IsRead(l: Step) { l.Read? }

  predicate IsSend(l: Step) { l.Send? }

  lemma StepsPay()
    ensures Pays(Next, Inv, IsRead, IsSend, 5, Measure)
  {
  }

  // ---- Main results, over every interleaving ----

  /** Exactly one of: registered, signal pending, awake and about to re-register.  So asleep
      with no signal on its way means registered with an empty queue and every message read;
      re-registering never fails; and nothing is lost or read twice. */
  lemma NoMessageIsStranded(tr: seq<State>, ls: seq<Step>, i: nat)
    requires IsRun(Init, Next, tr, ls) && i < |tr|
    ensures var s := tr[i];
      && Guards(s) == 1
      && (s.pc == QSuspend && !s.pending ==>
            s.registered && s.queue == [] && multiset(s.received) == multiset(s.sent))
      && s.pc != QError
      && multiset(s.sent) == multiset(s.received) + multiset(s.queue)
      && (s.pc == QReceive ==> forall m | m in s.queue :: m.prio <= s.queue[0].prio)
  {
    InvIsInductive();
    InvariantHolds(Init, Next, Inv, tr, ls, i);
  }

  /** A read of a queue that holds a message takes one that no other in the queue exceeds in
      priority. */
  lemma MostUrgentFirst(tr: seq<State>, ls: seq<Step>, i: nat)
    requires IsRun(Init, Next, tr, ls) && i < |ls|
    requires ls[i] == Read && tr[i].pc == QReceive && tr[i].queue != []
    ensures |tr[i + 1].received| == |tr[i].received| + 1
    ensures var m := tr[i + 1].received[|tr[i].received|];
      && tr[i + 1].received == tr[i].received + [m]
      && multiset(tr[i].queue) == multiset(tr[i + 1].queue) + multiset{m}
      && forall x | x in tr[i].queue :: x.prio <= m.prio
  {
    InvIsInductive();
    InvariantHolds(Init, Next, Inv, tr, ls, i);
    assert Next(tr[i], ls[i], tr[i + 1]);
    assert tr[i].queue == [tr[i].queue[0]] + tr[i].queue[1..];
  }

  function HasPrio(p: nat): Message -> bool { (m: Message) => m.prio == p }

  /** The messages of priority p, in order. */
  function OfPrio(ms: seq<Message>, p: nat): seq<Message> { Filtered(HasPrio(p), ms) }

  lemma {:induction false} NoneOfPrio(ms: seq<Message>, p: nat)
    requires forall i | 0 <= i < |ms| :: ms[i].prio != p
    ensures OfPrio(ms, p) == []
  {
    if ms != [] {
      NoneOfPrio(ms[..|ms| - 1], p);
    }
  }

  lemma OfPrioConcat(a: seq<Message>, b: seq<Message>, p: nat)
    ensures OfPrio(a + b, p) == OfPrio(a, p) + OfPrio(b, p)
  {
    FilteredConcat(HasPrio(p), a, b);
  }

  function IfOfPrio(m: Message, p: nat): seq<Message> { if m.prio == p then [m] else [] }

  lemma OneOfPrio(m: Message, p: nat)
    ensures OfPrio([m], p) == IfOfPrio(m, p)
  {
    FilteredOne(HasPrio(p), m);
  }

  lemma AmongEquals(a: seq<Message>, m: Message, b: seq<Message>, p: nat)
    requires m.prio == p ==> OfPrio(b, p) == []
    ensures OfPrio(a + [m] + b, p) == OfPrio(a + b, p) + IfOfPrio(m, p)
  {
    OfPrioConcat(a + [m], b, p);
    OfPrioConcat(a, [m], p);
    OfPrioConcat(a, b, p);
    OneOfPrio(m, p);
  }

  lemma BehindPosition(q: seq<Message>, prio: nat, i: nat)
    requires Ordered(q) && Position(q, prio) <= i < |q|
    ensures q[i].prio < prio
  {
    var k := Position(q, prio);
    assert k < i ==> q[k].prio >= q[i].prio;
  }

  lemma NoneBehind(q: seq<Message>, p: nat)
    requires Ordered(q)
    ensures OfPrio(q[Position(q, p)..], p) == []
  {
    var k := Position(q, p);
    forall i | 0 <= i < |q[k..]| ensures q[k..][i].prio != p {
      BehindPosition(q, p, k + i);
    }
    NoneOfPrio(q[k..], p);
  }

  /** A new message comes behind all of its priority, and moves none of another. */
  lemma EnqueueAmongEquals(q: seq<Message>, m: Message, p: nat)
    requires Ordered(q)
    ensures OfPrio(Enqueue(q, m), p) == OfPrio(q, p) + IfOfPrio(m, p)
  {
    var k := Position(q, m.prio);
    assert q == q[..k] + q[k..];
    NoneBehind(q, m.prio);
    AmongEquals(q[..k], m, q[k..], p);
  }

  /** For every priority: what has been received, followed by what is queued, is what was sent,
      in order.  So among the most urgent messages a read takes the oldest. */
  lemma {:induction false} OldestFirst(tr: seq<State>, ls: seq<Step>, i: nat, p: nat)
    requires IsRun(Init, Next, tr, ls) && i < |tr|
    ensures OfPrio(tr[i].received, p) + OfPrio(tr[i].queue, p) == OfPrio(tr[i].sent, p)
  {
    if i > 0 {
      OldestFirst(tr, ls, i - 1, p);
      assert Inv(tr[i - 1]) by {
        InvIsInductive();
        InvariantHolds(Init, Next, Inv, tr, ls, i - 1);
      }
      assert Next(tr[i - 1], ls[i - 1], tr[i - 1 + 1]);
      StepKeepsAge(tr[i - 1], ls[i - 1], tr[i], p);
    }
  }

  lemma StepKeepsAge(s: State, l: Step, s': State, p: nat)
    requires Ordered(s.queue) && Next(s, l, s')
    requires OfPrio(s.received, p) + OfPrio(s.queue, p) == OfPrio(s.sent, p)
    ensures OfPrio(s'.received, p) + OfPrio(s'.queue, p) == OfPrio(s'.sent, p)
  {
    match l
    case Send(m) => SendKeepsAge(s, m, p);
    case Read =>
      if s.pc.QReceive? && s.queue != [] {
        HeadMoves(s.received, s.queue[0], s.queue[1..], p);
        assert s.queue == [s.queue[0]] + s.queue[1..];
      }
  }

  lemma SendKeepsAge(s: State, m: Message, p: nat)
    requires Ordered(s.queue)
    requires OfPrio(s.received, p) + OfPrio(s.queue, p) == OfPrio(s.sent, p)
    ensures OfPrio(s.received, p) + OfPrio(Enqueue(s.queue, m), p) == OfPrio(s.sent + [m], p)
  {
    EnqueueAmongEquals(s.queue, m, p);
    OfPrioConcat(s.sent, [m], p);
    OneOfPrio(m, p);
  }

  lemma HeadMoves(a: seq<Message>, m: Message, b: seq<Message>, p: nat)
    ensures OfPrio(a + [m], p) + OfPrio(b, p) == OfPrio(a, p) + OfPrio([m] + b, p)
  {
    OfPrioConcat(a, [m], p);
    OfPrioConcat([m], b, p);
  }

  /** Between sends the reader does a bounded amount of work, and when it can do no more it
      has read everything that was sent. */
  lemma EverythingIsRead(tr: seq<State>, ls: seq<Step>)
    requires IsRun(Init, Next, tr, ls)
    ensures Count(IsRead, ls) <= 5 * Count(IsSend, ls)
    ensures !CanRead(tr[|ls|]) ==> multiset(tr[|ls|].received) == multiset(tr[|ls|].sent)
  {
    InvIsInductive();
    StepsPay();
    ProgressIsBounded(Init, Next, Inv, IsRead, IsSend, 5, Measure, tr, ls);
    InvariantHolds(Init, Next, Inv, tr, ls, |ls|);
  }

  // ---- The condition on the first registration ----

  predicate AsleepForGood(s: State)
  {
    s.pc.QSuspend? && s.registered && !s.pending && s.queue != [] && s.received == []
  }

  /** Registering on a queue that already holds a message puts the reader to sleep for ever:
      no message that anybody sends later wakes it. */
  lemma {:induction false} NonEmptyStartStrandsAll(tr: seq<State>, ls: seq<Step>, i: nat)
    requires IsRun(Start, Next, tr, ls) && tr[0].queue != [] && i < |tr|
    ensures AsleepForGood(tr[i])
  {
    if i > 0 {
      NonEmptyStartStrandsAll(tr, ls, i - 1);
      assert Next(tr[i - 1], ls[i - 1], tr[i - 1 + 1]);
    }
  }

  /** The reader misses nothing, over all runs from s, exactly if the queue was empty when it
      first registered. */
  lemma NeverStrandedIffEmptyStart(s: State)
    requires Start(s)
    ensures (forall tr: seq<State>, ls: seq<Step>, i: nat | IsRun(Start, Next, tr, ls) && tr[0] == s && i < |tr| ::
               tr[i].pc == QSuspend && !tr[i].pending ==> multiset(tr[i].received) == multiset(tr[i].sent))
            <==> s.queue == []
  {
    if s.queue == [] {
      forall tr: seq<State>, ls: seq<Step>, i: nat | IsRun(Start, Next, tr, ls) && tr[0] == s && i < |tr|
        ensures tr[i].pc == QSuspend && !tr[i].pending ==> multiset(tr[i].received) == multiset(tr[i].sent)
      {
        NoMessageIsStranded(tr, ls, i);
      }
    } else {
      assert IsRun(Start, Next, [s], []);
      assert s.queue[0] in multiset(s.sent);
      assert [s][0] == s && multiset(s.received) != multiset(s.sent);
    }
  }
}
