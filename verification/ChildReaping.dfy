/**
 A parent that creates N children with SIGCHLD blocked, then repeatedly suspends itself
 with an empty signal mask until its handler has reaped them all.  Pending SIGCHLDs do not
 queue: `pending` is one bit, however many children have died since it was last delivered.
 */
module ChildReaping {
  import opened Runs

  datatype Status = Unforked | Running | Zombie | Reaped

  /** The next step of the parent; HWait, HDecrement and HReturn run in its handler. */
  datatype Pc = PFork | PTest | PSuspended | HWait | HDecrement | HReturn | PCount | PExit

  datatype State = State(children: seq<Status>, forked: nat, pending: bool, pc: Pc, numLive: int, sigCnt: nat)

  /** A step of the parent (k is the child that waitpid() picks, where it does), or the
      termination of child k, which also generates SIGCHLD. */
  datatype Step = Parent(k: nat) | ChildExit(k: nat)

  predicate Init(s: State)
  {
    && |s.children| >= 1 && (forall i | 0 <= i < |s.children| :: s.children[i] == Unforked)
    && s.forked == 0 && !s.pending && s.pc == PFork
    && s.numLive == |s.children| && s.sigCnt == 0
  }

  predicate CanParent(s: State, k: nat)
  {
    match s.pc
    case PSuspended => s.pending
    case HWait => Zombie in s.children ==> k < |s.children| && s.children[k] == Zombie
    case PExit => false
    case _ => true
  }

  function DoParent(s: State, k: nat): State
    requires CanParent(s, k)
  {
    match s.pc
    case PFork =>
      if s.forked < |s.children|
      then s.(children := s.children[s.forked := Running], forked := s.forked + 1)
      else s.(pc := PTest)
    case PTest => s.(pc := if s.numLive > 0 then PSuspended else PExit)
    case PSuspended => s.(pending := false, pc := HWait)
    case HWait =>
      if Zombie in s.children
      then s.(children := s.children[k := Reaped], pc := HDecrement)
      else s.(pc := HReturn)
    case HDecrement => s.(numLive := s.numLive - 1, pc := HWait)
    case HReturn => s.(pc := PCount)
    case PCount => s.(sigCnt := s.sigCnt + 1, pc := PTest)
  }

  predicate Next(s: State, l: Step, s': State)
  {
    match l
    case Parent(k) => CanParent(s, k) && s' == DoParent(s, k)
    case ChildExit(k) =>
      && k < |s.children| && s.children[k] == Running
      && s' == s.(children := s.children[k := Zombie], pending := true)
  }

  // ---- What every step keeps ----

  predicate IsUnreaped(c: Status) { c != Reaped }

  predicate IsDead(c: Status) { c == Zombie || c == Reaped }

  predicate HandlingSignal(s: State) { s.pc.HWait? || s.pc.HDecrement? || s.pc.HReturn? || s.pc.PCount? }

  predicate Inv(s: State)
  {
    && |s.children| >= 1
    && s.forked <= |s.children| && (!s.pc.PFork? ==> s.forked == |s.children|)
    && (forall i | 0 <= i < |s.children| :: s.children[i] == Unforked <==> s.forked <= i)
    && s.numLive == Count(IsUnreaped, s.children) + (if s.pc.HDecrement? then 1 else 0)
    && (Zombie in s.children ==> s.pending || s.pc.HWait? || s.pc.HDecrement?)
    && s.sigCnt + (if s.pending then 1 else 0) + (if HandlingSignal(s) then 1 else 0) <= Count(IsDead, s.children)
    && (Reaped in s.children ==> s.sigCnt > 0 || HandlingSignal(s))
    && (s.pc.PSuspended? ==> s.numLive > 0)
    && (s.pc.PExit? ==> s.numLive <= 0)
  }

  lemma InitImpliesInv(s: State)
    requires Init(s)
    ensures Inv(s)
  {
    CountBounds(IsUnreaped, s.children);
    CountBounds(IsDead, s.children);
  }

  /** Replacing the status of one child changes the counts by that child only. */
  lemma Recount(s: State, k: nat, c: Status)
    requires k < |s.children|
    ensures var cs := s.children[k := c];
      && Count(IsUnreaped, cs) + (if IsUnreaped(s.children[k]) then 1 else 0)
         == Count(IsUnreaped, s.children) + (if IsUnreaped(c) then 1 else 0)
      && Count(IsDead, cs) + (if IsDead(s.children[k]) then 1 else 0)
         == Count(IsDead, s.children) + (if IsDead(c) then 1 else 0)
      && c in cs && (forall x | x in cs :: x == c || x in s.children)
  {
    CountUpdate(IsUnreaped, s.children, k, c);
    CountUpdate(IsDead, s.children, k, c);
    assert s.children[k := c][k] == c;
  }

  lemma ForkKeepsInv(s: State, k: nat)
    requires Inv(s) && CanParent(s, k) && s.pc.PFork?
    ensures Inv(DoParent(s, k))
  {
    if s.forked < |s.children| {
      Recount(s, s.forked, Running);
    }
  }

  lemma WaitKeepsInv(s: State, k: nat)
    requires Inv(s) && CanParent(s, k) && s.pc.HWait?
    ensures Inv(DoParent(s, k))
  {
    if Zombie in s.children {
      Recount(s, k, Reaped);
    }
  }

  lemma ParentKeepsInv(s: State, k: nat)
    requires Inv(s) && CanParent(s, k)
    ensures Inv(DoParent(s, k))
  {
    match s.pc
    case PFork => ForkKeepsInv(s, k);
    case HWait => WaitKeepsInv(s, k);
    case _ =>
  }

  lemma ChildKeepsInv(s: State, k: nat, s': State)
    requires Inv(s) && Next(s, ChildExit(k), s')
    ensures Inv(s')
  {
    Recount(s, k, Zombie);
  }

  lemma InvIsInductive()
    ensures Inductive(Init, Next, Inv)
  {
    forall s | Init(s) ensures Inv(s) { InitImpliesInv(s); }
    forall s, l, s' | Inv(s) && Next(s, l, s') ensures Inv(s') {
      match l
      case Parent(k) => ParentKeepsInv(s, k);
      case ChildExit(k) => ChildKeepsInv(s, k, s');
    }
  }

  // ---- Progress ----

  function Rank(pc: Pc): nat
  {
    match pc
    case HDecrement => 6 case HWait => 5 case HReturn => 4 case PCount => 3
    case PFork => 3 case PTest => 2 case PSuspended => 1 case PExit => 0
  }

  function Weight(c: Status): nat
  {
    match c case Unforked => 9 case Running => 8 case Zombie => 2 case Reaped => 0
  }

  function Measure(s: State): nat { Sum(Weight, s.children) + Rank(s.pc) + if s.pending then 5 else 0 }

  predicate AnyStep(l: Step) { true }

  lemma ParentPays(s: State, k: nat)
    requires Inv(s) && CanParent(s, k)
    ensures Measure(DoParent(s, k)) < Measure(s)
  {
    if s.pc.PFork? && s.forked < |s.children| {
      SumUpdate(Weight, s.children, s.forked, Running);
    } else if s.pc.HWait? && Zombie in s.children {
      SumUpdate(Weight, s.children, k, Reaped);
    }
  }

  lemma StepsPay()
    ensures Pays(Next, Inv, AnyStep, Never, 0, Measure)
  {
    forall s, l, s' | Inv(s) && Next(s, l, s') ensures Measure(s') + 1 <= Measure(s) {
      match l
      case ChildExit(k) => SumUpdate(Weight, s.children, k, Zombie);
      case Parent(k) => ParentPays(s, k);
    }
  }

  lemma NeverStuck(s: State)
    requires Inv(s) && !s.pc.PExit?
    ensures exists l, s' :: Next(s, l, s')
  {
    CountBounds(IsUnreaped, s.children);
    if s.pc.PSuspended? && !s.pending {
      var c :| c in s.children && IsUnreaped(c);
      var k :| 0 <= k < |s.children| && s.children[k] == c;
      assert Next(s, ChildExit(k), s.(children := s.children[k := Zombie], pending := true));
    } else if s.pc.HWait? && Zombie in s.children {
      var k :| 0 <= k < |s.children| && s.children[k] == Zombie;
      assert Next(s, Parent(k), DoParent(s, k));
    } else {
      assert Next(s, Parent(0), DoParent(s, 0));
    }
  }

  // ---- Main results, over every interleaving ----

  /** No death goes unnoticed although signals coalesce: asleep with nothing pending means
      that every dead child has been reaped, and the counter is the number not reaped. */
  lemma NoDeathIsMissed(tr: seq<State>, ls: seq<Step>, i: nat)
    requires IsRun(Init, Next, tr, ls) && i < |tr|
    ensures var s := tr[i];
      && (s.pc == PSuspended && !s.pending ==> Zombie !in s.children && Running in s.children)
      && (s.pc != HDecrement ==> s.numLive == Count(IsUnreaped, s.children))
      && s.sigCnt <= Count(IsDead, s.children)
  {
    InvIsInductive();
    InvariantHolds(Init, Next, Inv, tr, ls, i);
    var s := tr[i];
    if s.pc == PSuspended && !s.pending {
      CountBounds(IsUnreaped, s.children);
    }
  }

  lemma ExitState(s: State)
    requires Inv(s) && s.pc.PExit?
    ensures forall k | 0 <= k < |s.children| :: s.children[k] == Reaped
    ensures s.numLive == 0 && 1 <= s.sigCnt <= |s.children|
    ensures forall l, s' :: !Next(s, l, s')
  {
    CountBounds(IsUnreaped, s.children);
    CountBounds(IsDead, s.children);
    forall k | 0 <= k < |s.children| ensures s.children[k] == Reaped {
      assert s.children[k] in s.children;
    }
    assert s.children[0] in s.children;
  }

  lemma {:induction false} SameChildren(tr: seq<State>, ls: seq<Step>, i: nat)
    requires IsRun(Init, Next, tr, ls) && i < |tr|
    ensures |tr[i].children| == |tr[0].children|
  {
    if i > 0 {
      SameChildren(tr, ls, i - 1);
      assert Next(tr[i - 1], ls[i - 1], tr[i - 1 + 1]);
    }
  }

  /** How many signals have been delivered: the steps with which the parent left sigsuspend()
      for its handler. */
  function Deliveries(tr: seq<State>, ls: seq<Step>): nat
    requires |tr| == |ls| + 1
  {
    if ls == [] then 0
    else
      var k := |ls| - 1;
      Deliveries(tr[..|tr| - 1], ls[..k]) + if tr[k].pc == PSuspended && ls[k].Parent? then 1 else 0
  }

  /** sigCnt counts the signals delivered, but for the one that is being handled. */
  lemma {:induction false} DeliveriesAreCounted(tr: seq<State>, ls: seq<Step>)
    requires IsRun(Init, Next, tr, ls)
    ensures var s := tr[|ls|]; Deliveries(tr, ls) == s.sigCnt + if HandlingSignal(s) then 1 else 0
  {
    if ls != [] {
      var k := |ls| - 1;
      assert IsRun(Init, Next, tr[..|tr| - 1], ls[..k]);
      DeliveriesAreCounted(tr[..|tr| - 1], ls[..k]);
      assert Next(tr[k], ls[k], tr[k + 1]);
    }
  }

  /** Every run is finite; it can stop only by exiting, and it exits exactly with every
      child reaped, having counted every signal delivered, at least one and at most N. */
  lemma EveryRunReapsAll(tr: seq<State>, ls: seq<Step>)
    requires IsRun(Init, Next, tr, ls)
    ensures Count(AnyStep, ls) == |ls| <= 9 * |tr[0].children| + 3
    ensures var s := tr[|ls|]; s.pc == PExit <==> forall l, s' :: !Next(s, l, s')
    ensures var s := tr[|ls|]; s.pc == PExit ==>
      && (forall k | 0 <= k < |s.children| :: s.children[k] == Reaped)
      && s.numLive == 0
      && 1 <= s.sigCnt == Deliveries(tr, ls) <= |s.children| == |tr[0].children|
  {
    RunLength(tr, ls);
    DeliveriesAreCounted(tr, ls);
    InvIsInductive();
    InvariantHolds(Init, Next, Inv, tr, ls, |ls|);
    SameChildren(tr, ls, |ls|);
    if tr[|ls|].pc == PExit {
      ExitState(tr[|ls|]);
    } else {
      NeverStuck(tr[|ls|]);
    }
  }

  lemma RunLength(tr: seq<State>, ls: seq<Step>)
    requires IsRun(Init, Next, tr, ls)
    ensures Count(AnyStep, ls) == |ls| <= 9 * |tr[0].children| + 3
  {
    InvIsInductive();
    StepsPay();
    ProgressIsBounded(Init, Next, Inv, AnyStep, Never, 0, Measure, tr, ls);
    SumBound(Weight, tr[0].children, 9);
    CountBounds(AnyStep, ls);
  }
}
