/**
 A main thread that joins N threads in the order in which they terminate.  The threads
 announce themselves through counters and a state table under one mutex, and signal a
 condition variable after releasing it; main calls pthread_join() while holding it.
 */
module ThreadJoining {
  import opened Runs

  datatype TState = Alive | Terminated | Joined

  /** The next step of a thread; Counting, Marking and Unlocking hold the mutex. */
  datatype ThreadPc = Absent | Working | Locking | Counting | Marking | Unlocking | Signalling | Returned

  datatype Thread = Thread(pc: ThreadPc, state: TState)

  /** The next step of main; MTestUnjoined and MScan to MUnlock hold the mutex. */
  datatype MainPc =
    | MCreate | MSetTotals | MTestLive | MLock | MTestUnjoined | MAsleep | MRelock
    | MScan | MJoin | MMark | MDecLive | MDecUnjoined | MUnlock | MExit

  datatype Owner = Free | Main | Thr(k: nat)

  datatype State = State(
    threads: seq<Thread>, mutex: Owner, mpc: MainPc, idx: nat, numLive: int, numUnjoined: int)

  /** A step of main or of thread k, main's pthread_join(k), or a spurious wakeup. */
  datatype Step = MainStep | Join(k: nat) | ThreadStep(k: nat) | Spurious

  predicate Init(s: State)
  {
    && |s.threads| >= 1
    && (forall k | 0 <= k < |s.threads| :: s.threads[k] == Thread(Absent, Alive))
    && s.mutex == Free && s.mpc == MCreate && s.idx == 0 && s.numLive == 0 && s.numUnjoined == 0
  }

  predicate CanMain(s: State)
  {
    match s.mpc
    case MLock | MRelock => s.mutex == Free
    case MMark => s.idx < |s.threads|
    case MAsleep | MJoin | MExit => false
    case _ => true
  }

  function DoMain(s: State): State
    requires CanMain(s)
  {
    match s.mpc
    case MCreate =>
      if s.idx < |s.threads|
      then s.(threads := s.threads[s.idx := Thread(Working, Alive)], idx := s.idx + 1)
      else s.(mpc := MSetTotals)
    case MSetTotals => s.(numLive := |s.threads|, mpc := MTestLive)
    case MTestLive => s.(mpc := if s.numLive > 0 then MLock else MExit)
    case MLock => s.(mutex := Main, mpc := MTestUnjoined)
    case MTestUnjoined =>
      if s.numUnjoined == 0 then s.(mutex := Free, mpc := MAsleep) else s.(mpc := MScan, idx := 0)
    case MRelock => s.(mutex := Main, mpc := MTestUnjoined)
    case MScan =>
      if s.idx >= |s.threads| then s.(mpc := MUnlock)
      else if s.threads[s.idx].state == Terminated then s.(mpc := MJoin)
      else s.(idx := s.idx + 1)
    case MMark => s.(threads := s.threads[s.idx := s.threads[s.idx].(state := Joined)], mpc := MDecLive)
    case MDecLive => s.(numLive := s.numLive - 1, mpc := MDecUnjoined)
    case MDecUnjoined => s.(numUnjoined := s.numUnjoined - 1, idx := s.idx + 1, mpc := MScan)
    case MUnlock => s.(mutex := Free, mpc := MTestLive)
  }

  predicate CanThread(s: State, k: nat)
  {
    k < |s.threads| &&
    match s.threads[k].pc
    case Absent | Returned => false
    case Locking => s.mutex == Free
    case _ => true
  }

  function Moved(s: State, k: nat, pc: ThreadPc): State
    requires k < |s.threads|
  {
    s.(threads := s.threads[k := s.threads[k].(pc := pc)])
  }

  function DoThread(s: State, k: nat): State
    requires CanThread(s, k)
  {
    match s.threads[k].pc
    case Working => Moved(s, k, Locking)
    case Locking => Moved(s, k, Counting).(mutex := Thr(k))
    case Counting => Moved(s, k, Marking).(numUnjoined := s.numUnjoined + 1)
    case Marking => s.(threads := s.threads[k := Thread(Unlocking, Terminated)])
    case Unlocking => Moved(s, k, Signalling).(mutex := Free)
    case Signalling => Moved(s, k, Returned).(mpc := if s.mpc.MAsleep? then MRelock else s.mpc)
  }

  predicate Next(s: State, l: Step, s': State)
  {
    match l
    case MainStep => CanMain(s) && s' == DoMain(s)
    case Join(k) =>
      && s.mpc.MJoin? && s.idx == k < |s.threads| && s.threads[k].pc == Returned
      && s' == s.(mpc := MMark)
    case ThreadStep(k) => CanThread(s, k) && s' == DoThread(s, k)
    case Spurious => s.mpc.MAsleep? && s' == s.(mpc := MRelock)
  }

  predicate Productive(l: Step) { !l.Spurious? }

  predicate IsSpurious(l: Step) { l.Spurious? }

  // ---- What every step keeps ----

  predicate IsTerminated(t: Thread) { t.state.Terminated? }

  predicate IsUnjoined(t: Thread) { !t.state.Joined? }

  predicate Creating(s: State) { s.mpc.MCreate? || s.mpc.MSetTotals? }

  predicate Joining(s: State) { s.mpc.MJoin? || s.mpc.MMark? || s.mpc.MDecLive? || s.mpc.MDecUnjoined? }

  predicate MainHolds(s: State) { s.mpc.MTestUnjoined? || s.mpc.MScan? || Joining(s) || s.mpc.MUnlock? }

  predicate Holds(t: Thread) { t.pc.Counting? || t.pc.Marking? || t.pc.Unlocking? }

  predicate MutexOwned(s: State)
  {
    && (s.mutex.Main? <==> MainHolds(s))
    && (forall k | 0 <= k < |s.threads| :: Holds(s.threads[k]) <==> s.mutex == Thr(k))
    && (s.mutex.Thr? ==> s.mutex.k < |s.threads|)
  }

  predicate Announced(t: Thread)
  {
    && (t.state.Alive? <==> !(t.pc.Unlocking? || t.pc.Signalling? || t.pc.Returned?))
    && (t.state.Joined? ==> t.pc.Returned?)
  }

  predicate ThreadsOk(s: State)
  {
    && |s.threads| >= 1
    && s.idx <= |s.threads|
    && (forall k | 0 <= k < |s.threads| :: Announced(s.threads[k]))
    && (forall k | 0 <= k < |s.threads| :: s.threads[k].pc == Absent <==> s.mpc.MCreate? && s.idx <= k)
  }

  predicate CountersOk(s: State)
  {
    && s.numUnjoined == Count(IsTerminated, s.threads)
       + (if s.mutex.Thr? && s.mutex.k < |s.threads| && s.threads[s.mutex.k].pc.Marking? then 1 else 0)
       + (if s.mpc.MDecLive? || s.mpc.MDecUnjoined? then 1 else 0)
    && (if Creating(s) then forall k | 0 <= k < |s.threads| :: IsUnjoined(s.threads[k])
        else s.numLive == Count(IsUnjoined, s.threads) + if s.mpc.MDecLive? then 1 else 0)
  }

  predicate MainOk(s: State)
  {
    && (s.mpc.MExit? ==> s.numLive <= 0)
    && (s.mpc.MLock? || s.mpc.MTestUnjoined? || s.mpc.MAsleep? || s.mpc.MRelock? ==> s.numLive > 0)
    && (s.mpc.MScan? || Joining(s) ==> forall k | 0 <= k < s.idx <= |s.threads| :: !IsTerminated(s.threads[k]))
    && (Joining(s) ==> s.idx < |s.threads|)
    && (s.mpc.MJoin? || s.mpc.MMark? ==> IsTerminated(s.threads[s.idx]))
    && (s.mpc.MMark? ==> s.threads[s.idx].pc.Returned?)
    && (s.mpc.MDecLive? || s.mpc.MDecUnjoined? ==> !IsTerminated(s.threads[s.idx]))
    && (s.mpc.MUnlock? ==> forall k | 0 <= k < |s.threads| :: !IsTerminated(s.threads[k]))
    && (s.mpc.MAsleep? ==>
          forall k | 0 <= k < |s.threads| :: IsTerminated(s.threads[k]) ==> !s.threads[k].pc.Returned?)
  }

  predicate Inv(s: State) { ThreadsOk(s) && MutexOwned(s) && CountersOk(s) && MainOk(s) }

  lemma InitImpliesInv(s: State)
    requires Init(s)
    ensures Inv(s)
  {
    CountBounds(IsTerminated, s.threads);
  }

  lemma Recount(ts: seq<Thread>, k: nat, t: Thread)
    requires k < |ts|
    ensures Count(IsTerminated, ts[k := t]) + (if IsTerminated(ts[k]) then 1 else 0)
            == Count(IsTerminated, ts) + (if IsTerminated(t) then 1 else 0)
    ensures Count(IsUnjoined, ts[k := t]) + (if IsUnjoined(ts[k]) then 1 else 0)
            == Count(IsUnjoined, ts) + (if IsUnjoined(t) then 1 else 0)
  {
    CountUpdate(IsTerminated, ts, k, t);
    CountUpdate(IsUnjoined, ts, k, t);
  }

  lemma NoneTerminated(ts: seq<Thread>)
    ensures Count(IsTerminated, ts) == 0 <==> forall k | 0 <= k < |ts| :: !IsTerminated(ts[k])
  {
    CountBounds(IsTerminated, ts);
    assert forall k | 0 <= k < |ts| :: ts[k] in ts;
  }

  lemma AllUnjoined(ts: seq<Thread>)
    requires forall k | 0 <= k < |ts| :: IsUnjoined(ts[k])
    ensures Count(IsUnjoined, ts) == |ts|
  {
    CountBounds(IsUnjoined, ts);
  }

  lemma CreateKeepsInv(s: State)
    requires Inv(s) && s.mpc.MCreate?
    ensures Inv(DoMain(s))
  {
    if s.idx < |s.threads| {
      Recount(s.threads, s.idx, Thread(Working, Alive));
    }
  }

  lemma MarkKeepsInv(s: State)
    requires Inv(s) && s.mpc.MMark?
    ensures Inv(DoMain(s))
  {
    Recount(s.threads, s.idx, s.threads[s.idx].(state := Joined));
  }

  lemma TestKeepsInv(s: State)
    requires Inv(s) && s.mpc.MTestUnjoined?
    ensures Inv(DoMain(s))
  {
    NoneTerminated(s.threads);
  }

  lemma ScanKeepsInv(s: State)
    requires Inv(s) && s.mpc.MScan?
    ensures Inv(DoMain(s))
  {
  }

  lemma SetTotalsKeepsInv(s: State)
    requires Inv(s) && s.mpc.MSetTotals?
    ensures Inv(DoMain(s))
  {
    AllUnjoined(s.threads);
  }

  /** Steps of main that leave the table alone. */
  lemma OtherKeepsInv(s: State)
    requires Inv(s) && CanMain(s)
    requires !s.mpc.MCreate? && !s.mpc.MMark? && !s.mpc.MTestUnjoined? && !s.mpc.MScan? && !s.mpc.MSetTotals?
    ensures Inv(DoMain(s))
  {
    assert MutexOwned(DoMain(s));
  }

  lemma MainKeepsInv(s: State)
    requires Inv(s) && CanMain(s)
    ensures Inv(DoMain(s))
  {
    match s.mpc
    case MCreate => CreateKeepsInv(s);
    case MMark => MarkKeepsInv(s);
    case MTestUnjoined => TestKeepsInv(s);
    case MScan => ScanKeepsInv(s);
    case MSetTotals => SetTotalsKeepsInv(s);
    case _ => OtherKeepsInv(s);
  }

  lemma ThreadKeepsOwner(s: State, k: nat)
    requires Inv(s) && CanThread(s, k)
    ensures ThreadsOk(DoThread(s, k)) && MutexOwned(DoThread(s, k))
  {
  }

  lemma ThreadKeepsCounters(s: State, k: nat)
    requires Inv(s) && CanThread(s, k)
    ensures CountersOk(DoThread(s, k))
  {
    Recount(s.threads, k, DoThread(s, k).threads[k]);
  }

  lemma ThreadKeepsMain(s: State, k: nat)
    requires Inv(s) && CanThread(s, k)
    ensures MainOk(DoThread(s, k))
  {
  }

  lemma InvIsInductive()
    ensures Inductive(Init, Next, Inv)
  {
    forall s | Init(s) ensures Inv(s) { InitImpliesInv(s); }
    forall s, l, s' | Inv(s) && Next(s, l, s') ensures Inv(s') {
      match l
      case MainStep => MainKeepsInv(s);
      case ThreadStep(k) =>
        ThreadKeepsOwner(s, k);
        ThreadKeepsCounters(s, k);
        ThreadKeepsMain(s, k);
      case _ =>
    }
  }

  // ---- Progress ----

  /** Steps that a thread has left, and g for its join. */
  function Weight(g: nat, t: Thread): nat
  {
    (match t.pc
     case Absent => 10 case Working => 9 case Locking => 8 case Counting => 7
     case Marking => 6 case Unlocking => 5 case Signalling => 4 case Returned => 0)
    + if t.state.Joined? then 0 else g
  }

  /** What main has left to do before the next thread is joined: a scan that still has one
      to find comes last, so a scan that found the last one ranks above a new round. */
  function Rank(s: State): nat
  {
    var n := |s.threads|;
    var left := if s.idx <= n then 5 * (n - s.idx) else 0;
    var found := if Count(IsTerminated, s.threads) > 0 then 0 else 5 * n + 20;
    match s.mpc
    case MCreate => 5 * n + 10 case MSetTotals => 5 * n + 9 case MTestLive => 5 * n + 8
    case MLock => 5 * n + 7 case MRelock => 5 * n + 7 case MTestUnjoined => 5 * n + 6 case MAsleep => 5 * n + 5
    case MScan => found + left + 4 case MJoin => found + left + 3 case MMark => found + left + 2
    case MDecLive => found + left + 1 case MDecUnjoined => found + left
    case MUnlock => found + 3 case MExit => 0
  }

  function Gain(n: nat): nat { 5 * n + 30 }

  function Weigh(n: nat): Thread -> nat { t => Weight(Gain(n), t) }

  function Measure(s: State): nat { Sum(Weigh(|s.threads|), s.threads) + Rank(s) }

  lemma CreateOrMarkPays(s: State)
    requires Inv(s) && CanMain(s) && (s.mpc.MCreate? || s.mpc.MMark?)
    ensures Measure(DoMain(s)) < Measure(s)
  {
    var f := Weigh(|s.threads|);
    if s.mpc.MMark? {
      var t := s.threads[s.idx].(state := Joined);
      SumUpdate(f, s.threads, s.idx, t);
      assert f(t) + Gain(|s.threads|) == f(s.threads[s.idx]);
    } else if s.idx < |s.threads| {
      SumUpdate(f, s.threads, s.idx, Thread(Working, Alive));
    }
  }

  lemma MainPays(s: State)
    requires Inv(s) && CanMain(s)
    ensures Measure(DoMain(s)) < Measure(s)
  {
    if s.mpc.MCreate? || s.mpc.MMark? {
      CreateOrMarkPays(s);
    } else {
      NoneTerminated(s.threads);
      assert DoMain(s).threads == s.threads;
    }
  }

  lemma RankAfterThread(s: State, k: nat)
    requires Inv(s) && CanThread(s, k)
    ensures Rank(DoThread(s, k)) <= Rank(s) + if s.threads[k].pc.Signalling? then 2 else 0
  {
    Recount(s.threads, k, DoThread(s, k).threads[k]);
  }

  lemma ThreadPays(s: State, k: nat)
    requires Inv(s) && CanThread(s, k)
    ensures Measure(DoThread(s, k)) < Measure(s)
  {
    RankAfterThread(s, k);
    var f := Weigh(|s.threads|);
    var t := DoThread(s, k).threads[k];
    SumUpdate(f, s.threads, k, t);
    assert f(t) + (if s.threads[k].pc.Signalling? then 4 else 1) <= f(s.threads[k]);
  }

  lemma StepsPay()
    ensures Pays(Next, Inv, Productive, IsSpurious, 2, Measure)
  {
    forall s, l, s' | Inv(s) && Next(s, l, s')
      ensures Measure(s') + (if Productive(l) then 1 else 0) <= Measure(s) + (if IsSpurious(l) then 2 else 0)
    {
      match l
      case MainStep => MainPays(s);
      case ThreadStep(k) => ThreadPays(s, k);
      case _ =>
    }
  }

  /** A thread that is not blocked on the mutex, or is and finds it free, can move. */
  lemma SomeThreadMoves(s: State, k: nat)
    requires Inv(s) && CanThread(s, k)
    ensures exists l, s' :: Next(s, l, s') && Productive(l)
  {
    assert Next(s, ThreadStep(k), DoThread(s, k)) && Productive(ThreadStep(k));
  }

  lemma NeverStuck(s: State)
    requires Inv(s) && !s.mpc.MExit?
    ensures exists l, s' :: Next(s, l, s') && Productive(l)
  {
    if CanMain(s) {
      assert Next(s, MainStep, DoMain(s)) && Productive(MainStep);
    } else if s.mutex.Thr? {
      SomeThreadMoves(s, s.mutex.k);
    } else if s.mpc.MJoin? && s.threads[s.idx].pc.Returned? {
      assert Next(s, Join(s.idx), s.(mpc := MMark)) && Productive(Join(s.idx));
    } else if s.mpc.MJoin? {
      SomeThreadMoves(s, s.idx);
    } else {
      CountBounds(IsUnjoined, s.threads);
      var t :| t in s.threads && IsUnjoined(t);
      var k :| 0 <= k < |s.threads| && s.threads[k] == t;
      SomeThreadMoves(s, k);
    }
  }

  // ---- Main results, over every interleaving ----

  /** A thread that has announced itself and has still to call pthread_cond_signal(). */
  predicate WillSignal(t: Thread) { t.pc.Marking? || t.pc.Unlocking? || t.pc.Signalling? }

  lemma AsleepIsSignalled(s: State)
    requires Inv(s) && s.mpc.MAsleep? && s.numUnjoined > 0
    ensures exists k :: 0 <= k < |s.threads| && WillSignal(s.threads[k])
    ensures s.mutex == Free ==> exists k :: 0 <= k < |s.threads| && s.threads[k] == Thread(Signalling, Terminated)
  {
    NoneTerminated(s.threads);
  }

  /** At every point where no thread is inside its critical section the counters are exact;
      no wakeup is lost; and a join under the mutex waits only for a thread that no longer
      needs the mutex. */
  lemma CountersAndWakeups(tr: seq<State>, ls: seq<Step>, i: nat)
    requires IsRun(Init, Next, tr, ls) && i < |tr|
    ensures var s := tr[i];
      && (s.mutex == Free ==> s.numUnjoined == Count(IsTerminated, s.threads))
      && (s.mutex == Free && !Creating(s) ==> s.numLive == Count(IsUnjoined, s.threads))
      && (s.mpc == MAsleep && s.numUnjoined > 0 ==> exists k :: 0 <= k < |s.threads| && WillSignal(s.threads[k]))
      && (s.mpc == MJoin ==>
            s.idx < |s.threads| && (s.threads[s.idx].pc == Signalling || s.threads[s.idx].pc == Returned))
  {
    assert Inv(tr[i]) by {
      InvIsInductive();
      InvariantHolds(Init, Next, Inv, tr, ls, i);
    }
    if tr[i].mpc == MAsleep && tr[i].numUnjoined > 0 {
      AsleepIsSignalled(tr[i]);
    }
  }

  /** How often main has called pthread_join() for thread k. */
  function Joins(k: nat, ls: seq<Step>): nat { Count((l: Step) => l == Join(k), ls) }

  /** Thread k has been joined, or main is about to note that it has. */
  function JoinedBy(s: State, k: nat): nat
    requires k < |s.threads|
  {
    if s.threads[k].state.Joined? || (s.mpc.MMark? && s.idx == k) then 1 else 0
  }

  lemma MainJoinStep(s: State, k: nat)
    requires Inv(s) && CanMain(s) && k < |s.threads|
    ensures |DoMain(s).threads| == |s.threads| && JoinedBy(DoMain(s), k) == JoinedBy(s, k)
  {
  }

  lemma ThreadJoinStep(s: State, i: nat, k: nat)
    requires Inv(s) && CanThread(s, i) && k < |s.threads|
    ensures |DoThread(s, i).threads| == |s.threads| && JoinedBy(DoThread(s, i), k) == JoinedBy(s, k)
  {
  }

  lemma JoinStep(s: State, l: Step, s': State, k: nat)
    requires Inv(s) && Next(s, l, s') && k < |s.threads|
    ensures |s'.threads| == |s.threads|
    ensures JoinedBy(s', k) == JoinedBy(s, k) + if l == Join(k) then 1 else 0
  {
    match l
    case MainStep => MainJoinStep(s, k);
    case ThreadStep(i) => ThreadJoinStep(s, i, k);
    case _ =>
  }

  lemma {:induction false} JoinsAreCounted(tr: seq<State>, ls: seq<Step>, k: nat)
    requires IsRun(Init, Next, tr, ls) && k < |tr[0].threads|
    ensures |tr[|ls|].threads| == |tr[0].threads| && Joins(k, ls) == JoinedBy(tr[|ls|], k)
  {
    if ls != [] {
      var i := |ls| - 1;
      assert IsRun(Init, Next, tr[..|tr| - 1], ls[..i]);
      JoinsAreCounted(tr[..|tr| - 1], ls[..i], k);
      assert Inv(tr[i]) by {
        InvIsInductive();
        InvariantHolds(Init, Next, Inv, tr, ls, i);
      }
      assert Next(tr[i], ls[i], tr[i + 1]);
      JoinStep(tr[i], ls[i], tr[i + 1], k);
    }
  }

  /** Main joins the terminated thread with the lowest number. */
  lemma LowestFirst(tr: seq<State>, ls: seq<Step>, i: nat, k: nat)
    requires IsRun(Init, Next, tr, ls) && i < |ls| && ls[i] == Join(k)
    ensures k < |tr[i].threads| && IsTerminated(tr[i].threads[k])
    ensures forall j | 0 <= j < k :: !IsTerminated(tr[i].threads[j])
  {
    InvIsInductive();
    InvariantHolds(Init, Next, Inv, tr, ls, i);
    assert Next(tr[i], ls[i], tr[i + 1]);
  }

  lemma ExitState(s: State)
    requires Inv(s) && s.mpc.MExit?
    ensures forall k | 0 <= k < |s.threads| :: s.threads[k] == Thread(Returned, Joined)
    ensures s.numLive == 0 && s.numUnjoined == 0
    ensures forall l, s' :: !Next(s, l, s')
  {
    CountBounds(IsUnjoined, s.threads);
    forall k | 0 <= k < |s.threads| ensures s.threads[k] == Thread(Returned, Joined) {
      assert s.threads[k] in s.threads;
    }
    NoneTerminated(s.threads);
  }

  lemma InitialMeasure(s: State)
    requires Init(s)
    ensures var n := |s.threads|; Measure(s) <= (5 * n + 40) * n + 5 * n + 10
  {
    SumBound(Weigh(|s.threads|), s.threads, Gain(|s.threads|) + 10);
  }

  lemma RunPays(tr: seq<State>, ls: seq<Step>)
    requires IsRun(Init, Next, tr, ls)
    ensures Count(Productive, ls) <= Measure(tr[0]) + 2 * Count(IsSpurious, ls)
  {
    InvIsInductive();
    StepsPay();
    ProgressIsBounded(Init, Next, Inv, Productive, IsSpurious, 2, Measure, tr, ls);
  }

  lemma RunLength(tr: seq<State>, ls: seq<Step>)
    requires IsRun(Init, Next, tr, ls)
    ensures var n := |tr[0].threads|;
      Count(Productive, ls) <= (5 * n + 40) * n + 5 * n + 10 + 2 * Count(IsSpurious, ls)
  {
    RunPays(tr, ls);
    InitialMeasure(tr[0]);
  }

  /** For any number of threads, with finitely many spurious wakeups every run is finite; it
      can stop only when main exits, and then every thread has been joined exactly once. */
  lemma EveryRunJoinsAll(tr: seq<State>, ls: seq<Step>)
    requires IsRun(Init, Next, tr, ls)
    ensures var n := |tr[0].threads|;
      Count(Productive, ls) <= (5 * n + 40) * n + 5 * n + 10 + 2 * Count(IsSpurious, ls)
    ensures var s := tr[|ls|];
      s.mpc == MExit <==> forall l, s' :: Next(s, l, s') ==> !Productive(l)
    ensures var s := tr[|ls|];
      s.mpc == MExit ==>
        && |s.threads| == |tr[0].threads|
        && s.numLive == 0 && s.numUnjoined == 0
        && (forall k | 0 <= k < |s.threads| :: s.threads[k].state == Joined && Joins(k, ls) == 1)
  {
    RunLength(tr, ls);
    assert Inv(tr[|ls|]) by {
      InvIsInductive();
      InvariantHolds(Init, Next, Inv, tr, ls, |ls|);
    }
    var s := tr[|ls|];
    JoinsAreCounted(tr, ls, 0);
    if s.mpc == MExit {
      ExitState(s);
      forall k | 0 <= k < |s.threads| ensures Joins(k, ls) == 1 {
        JoinsAreCounted(tr, ls, k);
      }
    } else {
      NeverStuck(s);
    }
  }
}
