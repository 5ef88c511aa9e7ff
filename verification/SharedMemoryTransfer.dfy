/**
 The System V shared memory transfer: a writer hands a one-slot buffer to a reader with
 two semaphores.  Each process is split at every access to shared state, so a run is an
 arbitrary interleaving of single accesses.  The input is any finite byte stream, read in
 arbitrary non-empty blocks and followed by an end-of-file read of 0 bytes.
 */
module SharedMemoryTransfer {
  import opened Common
  import opened Runs

  const BUF_SIZE: nat := 1024

  /** The next access of the writer; WRemoveSems is the first step of its cleanup. */
  datatype WriterPc =
    | WReserve | WRead | WRelease | WTestEof | WCount
    | WFinalReserve | WRemoveSems | WDetach | WRemoveMemory | WDone

  /** The next access of the reader; RError is an operation on a removed semaphore set. */
  datatype ReaderPc =
    | RReserve | RTestEof | RCount | RWrite | RRelease | RNext
    | RDetach | RFinalRelease | RDone | RError

  datatype State = State(
    input: seq<byte>, unread: seq<byte>,
    writeSem: nat, readSem: nat, semsExist: bool,
    cnt: int, buf: seq<byte>,
    wpc: WriterPc, wXfrs: nat, wBytes: int,
    rpc: ReaderPc, rXfrs: nat, rBytes: int, output: seq<byte>)

  /** One step: the writer (n is what read() returns, where it reads), the reader, or a
      blocked reserve that a signal handler interrupts and that is then retried. */
  datatype Step = Writer(n: nat) | Reader | WriterEintr | ReaderEintr

  predicate Init(s: State)
  {
    && s.unread == s.input && |s.buf| == BUF_SIZE
    && s.writeSem == 1 && s.readSem == 0 && s.semsExist
    && s.wpc.WReserve? && s.wXfrs == 0 && s.wBytes == 0
    && s.rpc.RReserve? && s.rXfrs == 0 && s.rBytes == 0 && s.output == []
  }

  predicate CanWrite(s: State, n: nat)
  {
    match s.wpc
    case WReserve | WFinalReserve => n == 0 && s.writeSem > 0
    case WRead => n <= BUF_SIZE && n <= |s.unread| && (n == 0 <==> s.unread == []) && |s.buf| == BUF_SIZE
    case WDone => false
    case _ => n == 0
  }

  function DoWrite(s: State, n: nat): State
    requires CanWrite(s, n)
  {
    match s.wpc
    case WReserve => s.(writeSem := s.writeSem - 1, wpc := WRead)
    case WRead => s.(cnt := n, buf := s.unread[..n] + s.buf[n..], unread := s.unread[n..], wpc := WRelease)
    case WRelease => s.(readSem := s.readSem + 1, wpc := WTestEof)
    case WTestEof => s.(wpc := if s.cnt == 0 then WFinalReserve else WCount)
    case WCount => s.(wXfrs := s.wXfrs + 1, wBytes := s.wBytes + s.cnt, wpc := WReserve)
    case WFinalReserve => s.(writeSem := s.writeSem - 1, wpc := WRemoveSems)
    case WRemoveSems => s.(semsExist := false, wpc := WDetach)
    case WDetach => s.(wpc := WRemoveMemory)
    case WRemoveMemory => s.(wpc := WDone)
  }

  predicate CanRead(s: State)
  {
    match s.rpc
    case RReserve => s.readSem > 0 || !s.semsExist
    case RWrite => 0 <= s.cnt <= |s.buf|
    case RDone | RError => false
    case _ => true
  }

  function DoRead(s: State): State
    requires CanRead(s)
  {
    match s.rpc
    case RReserve => if s.semsExist then s.(readSem := s.readSem - 1, rpc := RTestEof) else s.(rpc := RError)
    case RTestEof => s.(rpc := if s.cnt == 0 then RDetach else RCount)
    case RCount => s.(rBytes := s.rBytes + s.cnt, rpc := RWrite)
    case RWrite => s.(output := s.output + s.buf[..s.cnt], rpc := RRelease)
    case RRelease => if s.semsExist then s.(writeSem := s.writeSem + 1, rpc := RNext) else s.(rpc := RError)
    case RNext => s.(rXfrs := s.rXfrs + 1, rpc := RReserve)
    case RDetach => s.(rpc := RFinalRelease)
    case RFinalRelease => if s.semsExist then s.(writeSem := s.writeSem + 1, rpc := RDone) else s.(rpc := RError)
  }

  predicate Next(s: State, l: Step, s': State)
  {
    match l
    case Writer(n) => CanWrite(s, n) && s' == DoWrite(s, n)
    case Reader => CanRead(s) && s' == DoRead(s)
    case WriterEintr => (s.wpc.WReserve? || s.wpc.WFinalReserve?) && s.writeSem == 0 && s' == s
    case ReaderEintr => s.rpc.RReserve? && s.readSem == 0 && s.semsExist && s' == s
  }

  predicate Productive(l: Step) { l.Writer? || l.Reader? }

  // ---- What the protocol keeps ----

  predicate WriterInCleanup(s: State) { (s.wpc.WRemoveSems? || s.wpc.WDetach? || s.wpc.WRemoveMemory? || s.wpc.WDone?) }

  function WriterTurn(s: State): nat { if (s.wpc.WRead? || s.wpc.WRelease?) then 1 else 0 }

  function ReaderTurn(s: State): nat
  {
    if s.rpc.RTestEof? || s.rpc.RCount? || s.rpc.RWrite? || s.rpc.RRelease? || s.rpc.RDetach? || s.rpc.RFinalRelease?
    then 1 else 0
  }

  /** The bytes that the writer has taken from its input. */
  function Sent(s: State): seq<byte>
    requires |s.unread| <= |s.input|
  {
    s.input[..|s.input| - |s.unread|]
  }

  /** A block that the reader has not yet copied to its output is in the buffer. */
  predicate InTransit(s: State)
  {
    s.wpc.WRelease? || s.readSem == 1 || (s.rpc.RTestEof? || s.rpc.RCount? || s.rpc.RWrite?)
  }

  /** The writer has read a block that its own counters do not include yet. */
  predicate Uncounted(s: State) { (s.wpc.WRelease? || s.wpc.WTestEof? || s.wpc.WCount?) }

  predicate EofRead(s: State)
  {
    ((s.wpc.WRelease? || s.wpc.WTestEof?) && s.cnt == 0) || s.wpc.WFinalReserve? || WriterInCleanup(s)
  }

  predicate Turns(s: State)
  {
    && (!WriterInCleanup(s) ==> s.writeSem + s.readSem + WriterTurn(s) + ReaderTurn(s) == 1)
    && (WriterInCleanup(s) ==> s.rpc.RDone? && s.readSem == 0)
    && (s.semsExist <==> (!s.wpc.WDetach? && !s.wpc.WRemoveMemory? && !s.wpc.WDone?))
    && !s.rpc.RError?
  }

  predicate Contents(s: State)
  {
    && |s.buf| == BUF_SIZE
    && |s.unread| <= |s.input| && s.input == Sent(s) + s.unread
    && (if InTransit(s) then 0 <= s.cnt <= BUF_SIZE && Sent(s) == s.output + s.buf[..s.cnt] else Sent(s) == s.output)
  }

  predicate Counters(s: State)
  {
    && |s.unread| <= |s.input|
    && (Uncounted(s) ==> s.cnt >= 0)
    && s.wBytes + (if Uncounted(s) then s.cnt else 0) == |s.input| - |s.unread|
    && s.rBytes == |s.output| + (if s.rpc.RWrite? then s.cnt else 0)
    && s.wXfrs + (if Uncounted(s) && s.cnt > 0 then 1 else 0)
       == s.rXfrs + (if InTransit(s) && s.cnt > 0 then 1 else 0) + (if (s.rpc.RRelease? || s.rpc.RNext?) then 1 else 0)
  }

  predicate Phases(s: State)
  {
    && (EofRead(s) ==> s.cnt == 0 && s.unread == [])
    && (s.wpc.WCount? ==> s.cnt > 0)
    && ((s.rpc.RCount? || s.rpc.RWrite? || s.rpc.RRelease?) ==> !EofRead(s))
    && ((s.rpc.RCount? || s.rpc.RWrite?) ==> s.cnt > 0)
    && ((s.rpc.RDetach? || s.rpc.RFinalRelease? || s.rpc.RDone?) ==> EofRead(s) && !s.wpc.WRelease? && s.readSem == 0)
    && ((s.rpc.RNext? || s.rpc.RReserve?) && (s.wpc.WTestEof? || s.wpc.WFinalReserve?) && s.cnt == 0 ==> s.readSem == 1)
    && (InTransit(s) && s.cnt == 0 ==> EofRead(s))
  }

  predicate Inv(s: State) { Turns(s) && Contents(s) && Counters(s) && Phases(s) }

  /** A read moves a block from the input to the buffer. */
  lemma ReadKeepsContents(s: State, n: nat)
    requires Inv(s) && s.wpc.WRead? && CanWrite(s, n)
    ensures Contents(DoWrite(s, n))
  {
    SentGrows(s.input, s.unread, n);
    BlockInBuffer(s.unread[..n], s.buf);
  }

  lemma SentGrows(input: seq<byte>, unread: seq<byte>, n: nat)
    requires n <= |unread| <= |input| && input == input[..|input| - |unread|] + unread
    ensures var k := |input| - |unread|;
      input[..k + n] == input[..k] + unread[..n] && input == input[..k + n] + unread[n..]
  {
  }

  lemma BlockInBuffer(block: seq<byte>, buf: seq<byte>)
    requires |block| <= |buf|
    ensures (block + buf[|block|..])[..|block|] == block
  {
  }

  lemma ReadKeepsCounters(s: State, n: nat)
    requires Inv(s) && s.wpc.WRead? && CanWrite(s, n)
    ensures Counters(DoWrite(s, n))
  {
  }

  lemma ReadKeepsInv(s: State, n: nat)
    requires Inv(s) && s.wpc.WRead? && CanWrite(s, n)
    ensures Inv(DoWrite(s, n))
  {
    ReadKeepsContents(s, n);
    ReadKeepsCounters(s, n);
    assert Turns(DoWrite(s, n));
    assert Phases(DoWrite(s, n));
  }

  lemma WriterKeepsInv(s: State, n: nat)
    requires Inv(s) && CanWrite(s, n)
    ensures Inv(DoWrite(s, n))
  {
    if s.wpc.WRead? {
      ReadKeepsInv(s, n);
    } else {
      assert Turns(DoWrite(s, n));
      assert Phases(DoWrite(s, n));
    }
  }

  lemma ReaderKeepsInv(s: State)
    requires Inv(s) && CanRead(s)
    ensures Inv(DoRead(s))
  {
    if s.rpc.RTestEof? && s.cnt == 0 {
      assert s.buf[..s.cnt] == [];
    }
  }

  lemma InvIsInductive()
    ensures Inductive(Init, Next, Inv)
  {
    forall s, l, s' | Inv(s) && Next(s, l, s') ensures Inv(s') {
      match l
      case Writer(n) => WriterKeepsInv(s, n);
      case Reader => ReaderKeepsInv(s);
      case _ =>
    }
  }

  // ---- Progress ----

  function WriterRank(pc: WriterPc): nat
  {
    match pc
    case WRelease => 15 case WTestEof => 8 case WCount => 7 case WReserve => 6 case WRead => 5
    case WFinalReserve => 4 case WRemoveSems => 3 case WDetach => 2 case WRemoveMemory => 1 case WDone => 0
  }

  function ReaderRank(pc: ReaderPc): nat
  {
    match pc
    case RTestEof => 9 case RCount => 8 case RWrite => 7 case RRelease => 6 case RNext => 5
    case RReserve => 4 case RDetach => 3 case RFinalRelease => 2 case RDone => 1 case RError => 0
  }

  function Measure(s: State): nat
  {
    11 * (|s.unread| + if EofRead(s) then 0 else 1) + WriterRank(s.wpc) + ReaderRank(s.rpc) + 6 * s.readSem
  }

  lemma WriterPays(s: State, n: nat)
    requires Inv(s) && CanWrite(s, n)
    ensures Measure(DoWrite(s, n)) < Measure(s)
  {
  }

  lemma ReaderPays(s: State)
    requires Inv(s) && CanRead(s)
    ensures Measure(DoRead(s)) < Measure(s)
  {
  }

  lemma StepsPay()
    ensures Pays(Next, Inv, Productive, Never, 0, Measure)
  {
    forall s, l, s' | Inv(s) && Next(s, l, s')
      ensures Measure(s') + (if Productive(l) then 1 else 0) <= Measure(s)
    {
      match l
      case Writer(n) => WriterPays(s, n);
      case Reader => ReaderPays(s);
      case _ =>
    }
  }

  // ---- Main results, over every interleaving ----

  /** The two turns are exclusive, and the output is a prefix of what the writer has read
      from the input, at most one block behind it. */
  lemma TurnsAndPrefix(tr: seq<State>, ls: seq<Step>, i: nat)
    requires IsRun(Init, Next, tr, ls) && i < |tr|
    ensures var s := tr[i];
      && (!WriterInCleanup(s) ==> s.writeSem + s.readSem + WriterTurn(s) + ReaderTurn(s) == 1)
      && (WriterInCleanup(s) ==> s.rpc == RDone)
      && s.output <= s.input && |s.unread| <= |s.input|
      && |s.output| <= |Sent(s)| <= |s.output| + BUF_SIZE
      && ((s.rpc == RDetach || s.rpc == RFinalRelease || s.rpc == RDone) ==> s.output == s.input)
      && s.rpc != RError
  {
    InvIsInductive();
    InvariantHolds(Init, Next, Inv, tr, ls, i);
  }

  predicate Finished(s: State) { s.wpc.WDone? && s.rpc.RDone? }

  /** The step that is possible in every unfinished state. */
  function ReadyStep(s: State): Step
  {
    if CanRead(s) then Reader
    else Writer(if s.wpc == WRead && s.unread != [] then 1 else 0)
  }

  lemma NeverStuck(s: State)
    requires Inv(s) && !Finished(s)
    ensures exists s' :: Next(s, ReadyStep(s), s') && Productive(ReadyStep(s))
  {
    if CanRead(s) {
      assert Next(s, ReadyStep(s), DoRead(s));
    } else {
      var n := ReadyStep(s).n;
      assert Next(s, ReadyStep(s), DoWrite(s, n));
    }
  }

  lemma InputIsConstant(tr: seq<State>, ls: seq<Step>, i: nat)
    requires IsRun(Init, Next, tr, ls) && i < |tr|
    ensures tr[i].input == tr[0].input
  {
    if i > 0 {
      InputIsConstant(tr, ls, i - 1);
      assert Next(tr[i - 1], ls[i - 1], tr[i - 1 + 1]);
    }
  }

  /** The label of a read() that returned a block. */
  predicate ReadsBlock(l: Step) { l.Writer? && l.n > 0 }

  lemma {:induction false} TransfersAreBlocks(tr: seq<State>, ls: seq<Step>)
    requires IsRun(Init, Next, tr, ls)
    ensures var s := tr[|ls|];
      Count(ReadsBlock, ls) == s.wXfrs + if Uncounted(s) && s.cnt > 0 then 1 else 0
  {
    if ls != [] {
      var k := |ls| - 1;
      assert IsRun(Init, Next, tr[..|tr| - 1], ls[..k]);
      TransfersAreBlocks(tr[..|tr| - 1], ls[..k]);
      InvIsInductive();
      InvariantHolds(Init, Next, Inv, tr, ls, k);
      assert Next(tr[k], ls[k], tr[k + 1]);
    }
  }

  lemma RunLength(tr: seq<State>, ls: seq<Step>)
    requires IsRun(Init, Next, tr, ls)
    ensures Count(Productive, ls) <= 11 * |tr[0].input| + 21
  {
    InvIsInductive();
    StepsPay();
    ProgressIsBounded(Init, Next, Inv, Productive, Never, 0, Measure, tr, ls);
  }

  lemma StopsIffFinished(s: State)
    requires Inv(s)
    ensures (forall l, s' :: Next(s, l, s') ==> !Productive(l)) <==> Finished(s)
  {
    if !Finished(s) {
      NeverStuck(s);
    }
  }

  /** However the two processes interleave, only finitely many productive steps happen, and
      a run that can make no further one has delivered the whole input, with equal counts on
      both sides and the semaphores removed. */
  lemma EveryRunDelivers(tr: seq<State>, ls: seq<Step>)
    requires IsRun(Init, Next, tr, ls)
    ensures Count(Productive, ls) <= 11 * |tr[0].input| + 21
    ensures var s := tr[|ls|];
      (forall l, s' :: Next(s, l, s') ==> !Productive(l)) <==> Finished(s)
    ensures var s := tr[|ls|];
      Finished(s) ==>
        && s.output == tr[0].input
        && s.rBytes == s.wBytes == |tr[0].input|
        && s.rXfrs == s.wXfrs == Count(ReadsBlock, ls)
        && !s.semsExist
  {
    RunLength(tr, ls);
    InvIsInductive();
    InvariantHolds(Init, Next, Inv, tr, ls, |ls|);
    InputIsConstant(tr, ls, |ls|);
    TransfersAreBlocks(tr, ls);
    StopsIffFinished(tr[|ls|]);
  }
}
