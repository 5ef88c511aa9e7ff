/**
 File transfer over System V message queues.  Any number of clients each send one request to
 the server's queue and read responses from a queue of their own; the server forks one child
 per request, which sends the file in blocks as read() returns them, then an END message.
 */
module FileTransfer {
  import opened Common
  import opened Runs

  const RESP_MSG_SIZE: nat := 8192

  datatype MType = Failure | Data | End

  datatype Response = Response(mtype: MType, data: seq<byte>)

  /** "Couldn't open" with its terminating null byte. */
  const COULDNT_OPEN: Response :=
    Response(Failure, [67, 111, 117, 108, 100, 110, 39, 116, 32, 111, 112, 101, 110, 0])

  const END_OF_FILE: Response := Response(End, [])

  datatype ClientPc = CSend | CFirst | CTest | CReceive | CStopped | CFailed | CGone

  /** The server child of a client; KNone until the server has forked it. */
  datatype KidPc = KNone | KOpen | KRead | KSend | KEnd | KFail | KDone

  /** One client, its queue, and the server child that serves it. */
  datatype Session = Session(
    path: string,
    client: ClientPc, last: MType, totBytes: int, numMsgs: int, got: seq<byte>,
    queue: seq<Response>,
    kid: KidPc, rest: seq<byte>, buf: seq<byte>, chunks: nat, readFailed: bool)

  datatype State = State(
    files: map<string, seq<byte>>, capacity: nat, serverQueue: seq<nat>, sessions: seq<Session>)

  /** A step of client k, the server's next fork, or a step of the child that serves k (n is
      what its read() returns), or a failure of that read(). */
  datatype Step = Client(k: nat) | Fork | Kid(k: nat, n: nat) | ReadError(k: nat)

  predicate Fresh(c: Session)
  {
    && c.client == CSend && c.got == [] && c.queue == []
    && c.kid == KNone && c.buf == [] && c.chunks == 0 && !c.readFailed
  }

  predicate Init(s: State)
  {
    && s.capacity >= 1 && s.serverQueue == []
    && forall k | 0 <= k < |s.sessions| :: Fresh(s.sessions[k])
  }

  // ---- Steps within one session ----

  /** Every client step but the request, which involves the server's queue. */
  predicate CanClient(c: Session)
  {
    match c.client
    case CSend | CGone => false
    case CFirst | CReceive => c.queue != []
    case _ => true
  }

  function DoClient(c: Session): Session
    requires CanClient(c)
  {
    match c.client
    case CFirst =>
      var m := c.queue[0];
      if m.mtype == Failure then c.(queue := c.queue[1..], last := m.mtype, client := CFailed)
      else
        c.(queue := c.queue[1..], last := m.mtype, got := m.data, totBytes := |m.data|, numMsgs := 1, client := CTest)
    case CTest => c.(client := if c.last == Data then CReceive else CStopped)
    case CReceive =>
      var m := c.queue[0];
      c.(queue := c.queue[1..], last := m.mtype, got := c.got + m.data, totBytes := c.totBytes + |m.data|,
         numMsgs := c.numMsgs + 1, client := CTest)
    case CStopped => c.(queue := [], client := CGone)
    case CFailed => c.(queue := [], client := CGone)
  }

  predicate CanKid(c: Session, capacity: nat, n: nat)
  {
    match c.kid
    case KNone | KDone => false
    case KOpen => n == 0
    case KRead => n <= RESP_MSG_SIZE && n <= |c.rest| && (n == 0 <==> c.rest == [])
    case _ => n == 0 && |c.queue| < capacity
  }

  function DoKid(c: Session, files: map<string, seq<byte>>, capacity: nat, n: nat): Session
    requires CanKid(c, capacity, n)
  {
    match c.kid
    case KOpen => if c.path in files then c.(rest := files[c.path], kid := KRead) else c.(kid := KFail)
    case KRead => if n > 0 then c.(buf := c.rest[..n], rest := c.rest[n..], kid := KSend) else c.(kid := KEnd)
    case KSend => c.(queue := c.queue + [Response(Data, c.buf)], buf := [], chunks := c.chunks + 1, kid := KRead)
    case KEnd => c.(queue := c.queue + [END_OF_FILE], kid := KDone)
    case KFail => c.(queue := c.queue + [COULDNT_OPEN], kid := KDone)
  }

  predicate Next(s: State, l: Step, s': State)
  {
    match l
    case Client(k) =>
      && k < |s.sessions|
      && var c := s.sessions[k];
      if c.client.CSend?
      then |s.serverQueue| < s.capacity
        && s' == s.(serverQueue := s.serverQueue + [k], sessions := s.sessions[k := c.(client := CFirst)])
      else CanClient(c) && s' == s.(sessions := s.sessions[k := DoClient(c)])
    case Fork =>
      && s.serverQueue != []
      && var k := s.serverQueue[0];
      && k < |s.sessions|
      && s' == s.(serverQueue := s.serverQueue[1..], sessions := s.sessions[k := s.sessions[k].(kid := KOpen)])
    case Kid(k, n) =>
      && k < |s.sessions| && CanKid(s.sessions[k], s.capacity, n)
      && s' == s.(sessions := s.sessions[k := DoKid(s.sessions[k], s.files, s.capacity, n)])
    case ReadError(k) =>
      && k < |s.sessions| && s.sessions[k].kid.KRead?
      && s' == s.(sessions := s.sessions[k := s.sessions[k].(readFailed := true, kid := KEnd)])
  }

  // ---- What every step keeps ----

  function DataOf(q: seq<Response>): seq<byte>
  {
    if q == [] then [] else q[0].data + DataOf(q[1..])
  }

  lemma {:induction false} DataOfAppend(q: seq<Response>, m: Response)
    ensures DataOf(q + [m]) == DataOf(q) + m.data
  {
    if q == [] {
      assert q + [m] == [m] && DataOf([m]) == m.data + DataOf([]);
    } else {
      assert (q + [m])[1..] == q[1..] + [m];
      DataOfAppend(q[1..], m);
    }
  }

  predicate DataMessage(m: Response) { m.mtype == Data && 1 <= |m.data| <= RESP_MSG_SIZE }

  /** DATA messages only, followed by END exactly if the file has been sent. */
  predicate Framed(q: seq<Response>, ended: bool)
  {
    && (ended ==> q != [] && q[|q| - 1] == END_OF_FILE)
    && forall i | 0 <= i < |q| - (if ended then 1 else 0) :: DataMessage(q[i])
  }

  predicate SeenEnd(c: Session) { c.client.CStopped? || c.client.CGone? || (c.client.CTest? && c.last.End?) }

  predicate NotServed(c: Session)
  {
    && (c.client.CSend? || c.client.CFirst?)
    && c.queue == [] && c.got == [] && c.buf == [] && c.chunks == 0 && !c.readFailed
  }

  predicate Refused(c: Session)
  {
    && c.got == []
    && match c.kid
       case KFail => c.client.CFirst? && NotServed(c)
       case KDone =>
         if c.client.CFirst? then c.queue == [COULDNT_OPEN]
         else (c.client.CFailed? || c.client.CGone?) && c.queue == []
       case _ => false
  }

  predicate Served(c: Session, file: seq<byte>)
  {
    && !c.kid.KFail? && !c.client.CSend? && !c.client.CFailed?
    && c.got + DataOf(c.queue) + c.buf + c.rest == file
    && (if c.kid.KSend? then 1 <= |c.buf| <= RESP_MSG_SIZE else c.buf == [])
    && (if c.client.CFirst? then c.got == [] else c.totBytes == |c.got|)
    && (if c.client.CFirst? then 0 else c.numMsgs) + |c.queue| == c.chunks + (if c.kid.KDone? then 1 else 0)
    && (c.kid.KEnd? || c.kid.KDone? ==> c.rest == [] || c.readFailed)
    && (c.readFailed ==> c.kid.KEnd? || c.kid.KDone?)
    && (if SeenEnd(c) then c.kid.KDone? && c.queue == [] else Framed(c.queue, c.kid.KDone?))
    && (c.client.CReceive? ==> c.last.Data?)
    && (c.client.CTest? ==> !c.last.Failure?)
  }

  predicate SessionOk(c: Session, waiting: bool, files: map<string, seq<byte>>)
  {
    && (waiting <==> c.kid.KNone? && !c.client.CSend?)
    && (c.kid.KNone? ==> NotServed(c))
    && (c.kid.KOpen? ==> NotServed(c) && c.client.CFirst?)
    && (!c.kid.KNone? && !c.kid.KOpen? ==>
          if c.path in files then Served(c, files[c.path]) else Refused(c))
  }

  predicate Inv(s: State)
  {
    && s.capacity >= 1
    && (forall i | 0 <= i < |s.serverQueue| :: s.serverQueue[i] < |s.sessions|)
    && (forall i, j | 0 <= i < j < |s.serverQueue| :: s.serverQueue[i] != s.serverQueue[j])
    && (forall k: nat | k < |s.sessions| :: SessionOk(s.sessions[k], k in s.serverQueue, s.files))
  }

  lemma FramedHead(q: seq<Response>, ended: bool)
    requires Framed(q, ended) && q != []
    ensures if ended && |q| == 1 then q == [END_OF_FILE] else DataMessage(q[0]) && Framed(q[1..], ended)
  {
    if |q| > 1 {
      assert q[1..][|q| - 2] == q[|q| - 1];
    }
  }

  lemma FramedAppend(q: seq<Response>, m: Response)
    requires Framed(q, false)
    ensures DataMessage(m) ==> Framed(q + [m], false)
    ensures m == END_OF_FILE ==> Framed(q + [m], true)
    ensures DataOf(q + [m]) == DataOf(q) + m.data
  {
    DataOfAppend(q, m);
  }

  lemma ReceiveKeepsServed(c: Session, file: seq<byte>)
    requires Served(c, file) && CanClient(c) && (c.client.CFirst? || c.client.CReceive?)
    ensures Served(DoClient(c), file)
  {
    FramedHead(c.queue, c.kid.KDone?);
    var m, q := c.queue[0], c.queue[1..];
    assert c.got + DataOf(c.queue) == (c.got + m.data) + DataOf(q);
    assert c.got == [] ==> c.got + m.data == m.data;
  }

  lemma ClientKeepsSession(c: Session, waiting: bool, files: map<string, seq<byte>>)
    requires SessionOk(c, waiting, files) && CanClient(c)
    ensures SessionOk(DoClient(c), waiting, files)
  {
    if c.path !in files {
      RefusalKeepsSession(c, waiting, files);
    } else if c.client.CFirst? || c.client.CReceive? {
      ReceiveKeepsServed(c, files[c.path]);
    }
  }

  lemma RefusalKeepsSession(c: Session, waiting: bool, files: map<string, seq<byte>>)
    requires SessionOk(c, waiting, files) && CanClient(c) && c.path !in files
    ensures SessionOk(DoClient(c), waiting, files)
  {
  }

  lemma SendKeepsServed(c: Session, file: seq<byte>, files: map<string, seq<byte>>, capacity: nat, n: nat)
    requires Served(c, file) && CanKid(c, capacity, n) && (c.kid.KSend? || c.kid.KEnd?)
    ensures Served(DoKid(c, files, capacity, n), file)
  {
    var m := if c.kid.KSend? then Response(Data, c.buf) else END_OF_FILE;
    FramedAppend(c.queue, m);
    Regroup(c.got, DataOf(c.queue), c.buf, c.rest);
  }

  lemma Regroup(a: seq<byte>, b: seq<byte>, c: seq<byte>, d: seq<byte>)
    ensures a + (b + c) + [] + d == a + b + c + d
    ensures a + (b + []) + c + d == a + b + c + d
  {
  }

  lemma KidKeepsSession(c: Session, files: map<string, seq<byte>>, capacity: nat, n: nat)
    requires SessionOk(c, false, files) && CanKid(c, capacity, n)
    ensures SessionOk(DoKid(c, files, capacity, n), false, files)
  {
    match c.kid
    case KOpen => if c.path in files { assert Served(DoKid(c, files, capacity, n), files[c.path]); }
    case KRead => assert c.rest == c.rest[..n] + c.rest[n..];
    case KSend => SendKeepsServed(c, files[c.path], files, capacity, n);
    case KEnd => SendKeepsServed(c, files[c.path], files, capacity, n);
    case KFail =>
  }

  lemma SessionStepKeepsInv(s: State, k: nat, c: Session)
    requires Inv(s) && k < |s.sessions|
    requires SessionOk(c, k in s.serverQueue, s.files)
    ensures Inv(s.(sessions := s.sessions[k := c]))
  {
  }

  lemma RequestKeepsInv(s: State, k: nat, s': State)
    requires Inv(s) && Next(s, Client(k), s') && s.sessions[k].client.CSend?
    ensures Inv(s')
  {
    assert forall j :: j in s'.serverQueue <==> j in s.serverQueue || j == k;
  }

  lemma ForkKeepsInv(s: State, s': State)
    requires Inv(s) && Next(s, Fork, s')
    ensures Inv(s')
  {
    assert s.serverQueue == [s.serverQueue[0]] + s'.serverQueue;
    assert forall j :: j in s.serverQueue <==> j in s'.serverQueue || j == s.serverQueue[0];
  }

  lemma StepKeepsInv(s: State, l: Step, s': State)
    requires Inv(s) && Next(s, l, s')
    ensures Inv(s')
  {
    match l
    case Client(k) =>
      if s.sessions[k].client.CSend? {
        RequestKeepsInv(s, k, s');
      } else {
        ClientKeepsSession(s.sessions[k], k in s.serverQueue, s.files);
        SessionStepKeepsInv(s, k, s'.sessions[k]);
      }
    case Fork => ForkKeepsInv(s, s');
    case Kid(k, n) =>
      KidKeepsSession(s.sessions[k], s.files, s.capacity, n);
      SessionStepKeepsInv(s, k, s'.sessions[k]);
    case ReadError(k) => SessionStepKeepsInv(s, k, s'.sessions[k]);
  }

  lemma InvIsInductive()
    ensures Inductive(Init, Next, Inv)
  {
    forall s, l, s' | Inv(s) && Next(s, l, s') ensures Inv(s') { StepKeepsInv(s, l, s'); }
  }

  // ---- Progress ----

  function Weight(files: map<string, seq<byte>>, c: Session): nat
  {
    2 * |c.queue|
    + 4 * (match c.kid
           case KNone | KOpen => if c.path in files then |files[c.path]| else 0
           case KRead | KSend => |c.rest|
           case _ => 0)
    + (match c.kid
       case KSend => 7 case KNone => 6 case KOpen => 5 case KRead => 4
       case KEnd => 3 case KFail => 3 case KDone => 0)
    + (match c.client
       case CSend => 9 case CFirst => 8 case CTest => 7 case CReceive => 6
       case CStopped => 1 case CFailed => 1 case CGone => 0)
  }

  function Weigh(files: map<string, seq<byte>>): Session -> nat { c => Weight(files, c) }

  function Measure(s: State): nat { Sum(Weigh(s.files), s.sessions) }

  predicate AnyStep(l: Step) { true }

  /** The session in which a step takes place. */
  function Where(s: State, l: Step): nat
    requires exists s' :: Next(s, l, s')
  {
    match l case Client(k) => k case Fork => s.serverQueue[0] case Kid(k, _) => k case ReadError(k) => k
  }

  lemma ClientPays(c: Session, files: map<string, seq<byte>>, waiting: bool)
    requires SessionOk(c, waiting, files) && CanClient(c)
    ensures Weight(files, DoClient(c)) < Weight(files, c)
  {
  }

  lemma KidPays(c: Session, files: map<string, seq<byte>>, capacity: nat, n: nat)
    requires CanKid(c, capacity, n)
    ensures Weight(files, DoKid(c, files, capacity, n)) < Weight(files, c)
  {
  }

  lemma SessionPays(s: State, l: Step, s': State)
    requires Inv(s) && Next(s, l, s')
    ensures var k := Where(s, l);
      && k < |s.sessions| && s'.files == s.files
      && s'.sessions == s.sessions[k := s'.sessions[k]]
      && Weight(s.files, s'.sessions[k]) < Weight(s.files, s.sessions[k])
  {
    var k := Where(s, l);
    var c := s.sessions[k];
    assert SessionOk(c, k in s.serverQueue, s.files);
    match l
    case Client(_) => if !c.client.CSend? { ClientPays(c, s.files, k in s.serverQueue); }
    case Kid(_, n) => KidPays(c, s.files, s.capacity, n);
    case _ =>
  }

  lemma StepsPay()
    ensures Pays(Next, Inv, AnyStep, Never, 0, Measure)
  {
    forall s, l, s' | Inv(s) && Next(s, l, s') ensures Measure(s') + 1 <= Measure(s) {
      SessionPays(s, l, s');
      var k := Where(s, l);
      SumUpdate(Weigh(s.files), s.sessions, k, s'.sessions[k]);
    }
  }

  predicate Finished(c: Session) { c.client.CGone? && c.kid.KDone? }

  lemma KidMoves(s: State, k: nat)
    requires Inv(s) && k < |s.sessions|
    requires var c := s.sessions[k]; !c.kid.KNone? && !c.kid.KDone? && (c.queue == [] || c.kid.KRead?)
    ensures exists l, s' :: Next(s, l, s')
  {
    var n := if s.sessions[k].kid.KRead? && s.sessions[k].rest != [] then 1 else 0;
    var c := DoKid(s.sessions[k], s.files, s.capacity, n);
    assert Next(s, Kid(k, n), s.(sessions := s.sessions[k := c]));
  }

  lemma ForkMoves(s: State)
    requires Inv(s) && s.serverQueue != []
    ensures exists l, s' :: Next(s, l, s')
  {
    var k := s.serverQueue[0];
    var c := s.sessions[k].(kid := KOpen);
    assert Next(s, Fork, s.(serverQueue := s.serverQueue[1..], sessions := s.sessions[k := c]));
  }

  lemma NeverStuck(s: State, k: nat)
    requires Inv(s) && k < |s.sessions| && !Finished(s.sessions[k])
    ensures exists l, s' :: Next(s, l, s')
  {
    var c := s.sessions[k];
    assert SessionOk(c, k in s.serverQueue, s.files);
    if s.serverQueue != [] {
      ForkMoves(s);
    } else if c.client.CSend? {
      var d := c.(client := CFirst);
      assert Next(s, Client(k), s.(serverQueue := s.serverQueue + [k], sessions := s.sessions[k := d]));
    } else if CanClient(c) {
      assert Next(s, Client(k), s.(sessions := s.sessions[k := DoClient(c)]));
    } else {
      KidMoves(s, k);
    }
  }

  // ---- Main results, over every interleaving of any number of clients ----

  lemma {:induction false} SameRequests(tr: seq<State>, ls: seq<Step>, i: nat, k: nat)
    requires IsRun(Init, Next, tr, ls) && i < |tr| && k < |tr[0].sessions|
    ensures tr[i].files == tr[0].files && |tr[i].sessions| == |tr[0].sessions|
    ensures tr[i].sessions[k].path == tr[0].sessions[k].path
  {
    if i > 0 {
      SameRequests(tr, ls, i - 1, k);
      assert Next(tr[i - 1], ls[i - 1], tr[i - 1 + 1]);
    }
  }

  /** The client whose request a step puts into the server's queue. */
  function Requested(s: State, l: Step): seq<nat>
  {
    if l.Client? && l.k < |s.sessions| && s.sessions[l.k].client == CSend then [l.k] else []
  }

  /** The clients whose requests have arrived, in order. */
  function Requests(tr: seq<State>, ls: seq<Step>): seq<nat>
    requires |tr| == |ls| + 1
  {
    if ls == [] then []
    else var n := |ls| - 1; Requests(tr[..n + 1], ls[..n]) + Requested(tr[n], ls[n])
  }

  /** Just the clients f have a server child. */
  predicate HaveChild(cs: seq<Session>, f: seq<nat>)
  {
    forall k | 0 <= k < |cs| :: cs[k].kid != KNone <==> k in f
  }

  /** Of the requests r, the last are waiting, and just those before them have a server child. */
  predicate InLine(s: State, r: seq<nat>)
  {
    && |s.serverQueue| <= |r|
    && var n := |r| - |s.serverQueue|; r == r[..n] + s.serverQueue && HaveChild(s.sessions, r[..n])
  }

  lemma ChildrenStay(cs: seq<Session>, f: seq<nat>, k: nat, c: Session)
    requires HaveChild(cs, f) && k < |cs| && (c.kid == KNone <==> cs[k].kid == KNone)
    ensures HaveChild(cs[k := c], f)
  {
  }

  lemma RequestInLine(s: State, k: nat, s': State, r: seq<nat>)
    requires InLine(s, r) && Next(s, Client(k), s') && s.sessions[k].client == CSend
    ensures InLine(s', r + [k])
  {
    var n := |r| - |s.serverQueue|;
    assert (r + [k])[..n] == r[..n];
    ChildrenStay(s.sessions, r[..n], k, s'.sessions[k]);
  }

  lemma OtherInLine(s: State, l: Step, s': State, r: seq<nat>, k: nat)
    requires InLine(s, r) && Next(s, l, s') && !l.Fork? && l.k == k && Requested(s, l) == []
    ensures InLine(s', r)
  {
    ChildrenStay(s.sessions, r[..|r| - |s.serverQueue|], k, s'.sessions[k]);
  }

  lemma ForkInLine(s: State, s': State, r: seq<nat>)
    requires InLine(s, r) && Next(s, Fork, s')
    ensures InLine(s', r)
  {
    var n, q := |r| - |s.serverQueue|, s.serverQueue;
    assert r[..n + 1] == r[..n] + [q[0]];
    assert q == [q[0]] + q[1..];
  }

  /** The server forks children in the order in which the requests arrive. */
  lemma {:induction false} FirstComeFirstServed(tr: seq<State>, ls: seq<Step>)
    requires IsRun(Init, Next, tr, ls)
    ensures InLine(tr[|ls|], Requests(tr, ls))
  {
    if ls != [] {
      var n := |ls| - 1;
      assert IsRun(Init, Next, tr[..n + 1], ls[..n]);
      FirstComeFirstServed(tr[..n + 1], ls[..n]);
      assert Next(tr[n], ls[n], tr[n + 1]);
      StepInLine(tr[n], ls[n], tr[n + 1], Requests(tr[..n + 1], ls[..n]), Requests(tr, ls));
    }
  }

  lemma StepInLine(s: State, l: Step, s': State, r: seq<nat>, q: seq<nat>)
    requires InLine(s, r) && Next(s, l, s') && q == r + Requested(s, l)
    ensures InLine(s', q)
  {
    if Requested(s, l) != [] {
      RequestInLine(s, l.k, s', r);
    } else {
      assert q == r;
      if l.Fork? { ForkInLine(s, s', r); } else { OtherInLine(s, l, s', r, l.k); }
    }
  }

  /** The label of a read() that has returned a block to the child of client k. */
  predicate ReadsFor(k: nat, l: Step) { l.Kid? && l.k == k && l.n > 0 }

  function BlocksRead(k: nat, ls: seq<Step>): nat { Count((l: Step) => ReadsFor(k, l), ls) }

  /** The blocks that the child of a client has read. */
  function Blocks(c: Session): nat { c.chunks + if c.kid.KSend? then 1 else 0 }

  lemma BlocksStep(s: State, l: Step, s': State, k: nat)
    requires Inv(s) && Next(s, l, s') && k < |s.sessions|
    ensures |s'.sessions| == |s.sessions|
    ensures Blocks(s'.sessions[k]) == Blocks(s.sessions[k]) + if ReadsFor(k, l) then 1 else 0
  {
    assert SessionOk(s.sessions[k], k in s.serverQueue, s.files);
  }

  lemma {:induction false} BlocksAreCounted(tr: seq<State>, ls: seq<Step>, k: nat)
    requires IsRun(Init, Next, tr, ls) && k < |tr[0].sessions|
    ensures |tr[|ls|].sessions| == |tr[0].sessions|
    ensures BlocksRead(k, ls) == Blocks(tr[|ls|].sessions[k])
  {
    if ls != [] {
      var i := |ls| - 1;
      assert IsRun(Init, Next, tr[..|tr| - 1], ls[..i]);
      BlocksAreCounted(tr[..|tr| - 1], ls[..i], k);
      assert Inv(tr[i]) by {
        InvIsInductive();
        InvariantHolds(Init, Next, Inv, tr, ls, i);
      }
      assert Next(tr[i], ls[i], tr[i + 1]);
      BlocksStep(tr[i], ls[i], tr[i + 1], k);
    }
  }

  /** What a client has after its session: the file and its figures, up to a read() that failed
      on the server, or nothing if there is no such file. */
  predicate Delivered(c: Session, files: map<string, seq<byte>>, path: string, blocks: nat)
  {
    if path in files then
      && c.got <= files[path] && (!c.readFailed ==> c.got == files[path])
      && c.totBytes == |c.got| && c.numMsgs == blocks + 1
    else c.got == []
  }

  /** A client only ever receives a prefix of its own file.  No child sends to a queue that its
      client has left or removed.  When a client has stopped it has counted every byte and one
      message more than there were blocks; and it has the whole file unless a read() failed. */
  lemma ClientGetsItsFile(tr: seq<State>, ls: seq<Step>, k: nat)
    requires IsRun(Init, Next, tr, ls) && k < |tr[0].sessions|
    ensures |tr[|ls|].sessions| == |tr[0].sessions|
    ensures var (c, files, path) := (tr[|ls|].sessions[k], tr[0].files, tr[0].sessions[k].path);
      && (path in files ==> c.got <= files[path] && c.client != CFailed)
      && (path !in files ==> c.got == [] && c.client != CStopped)
      && (c.client == CStopped || c.client == CFailed || c.client == CGone ==> c.queue == [] && c.kid == KDone)
      && (c.client == CStopped || c.client == CGone ==> Delivered(c, files, path, BlocksRead(k, ls)))
  {
    assert Inv(tr[|ls|]) by {
      InvIsInductive();
      InvariantHolds(Init, Next, Inv, tr, ls, |ls|);
    }
    SameRequests(tr, ls, |ls|, k);
    BlocksAreCounted(tr, ls, k);
    var s := tr[|ls|];
    assert SessionOk(s.sessions[k], k in s.serverQueue, s.files);
  }

  /** The first message that a client receives is a failure, with the server's words, exactly if
      there is no such file. */
  lemma RefusalSaysWhy(tr: seq<State>, ls: seq<Step>, k: nat)
    requires IsRun(Init, Next, tr, ls) && k < |tr[0].sessions|
    ensures |tr[|ls|].sessions| == |tr[0].sessions|
    ensures var (c, files, path) := (tr[|ls|].sessions[k], tr[0].files, tr[0].sessions[k].path);
      c.client == CFirst && c.queue != [] ==>
        && (c.queue[0].mtype == Failure <==> path !in files)
        && (path !in files ==>
              c.queue[0].data == [67, 111, 117, 108, 100, 110, 39, 116, 32, 111, 112, 101, 110, 0])
  {
    assert Inv(tr[|ls|]) by {
      InvIsInductive();
      InvariantHolds(Init, Next, Inv, tr, ls, |ls|);
    }
    SameRequests(tr, ls, |ls|, k);
    var s := tr[|ls|];
    var c := s.sessions[k];
    assert SessionOk(c, k in s.serverQueue, s.files);
    if c.client == CFirst && c.queue != [] && c.path in s.files {
      FramedHead(c.queue, c.kid.KDone?);
    }
  }

  lemma StopsIffFinished(s: State)
    requires Inv(s)
    ensures (forall l, s' :: !Next(s, l, s')) <==> forall k: nat | k < |s.sessions| :: Finished(s.sessions[k])
  {
    if k: nat :| k < |s.sessions| && !Finished(s.sessions[k]) {
      NeverStuck(s, k);
    } else {
      FirstIsWaiting(s);
    }
  }

  lemma FirstIsWaiting(s: State)
    requires Inv(s)
    ensures s.serverQueue != [] ==>
      s.serverQueue[0] < |s.sessions| && !Finished(s.sessions[s.serverQueue[0]])
  {
    if s.serverQueue != [] {
      var k := s.serverQueue[0];
      assert SessionOk(s.sessions[k], k in s.serverQueue, s.files);
    }
  }

  /** Every run is finite, and it can stop exactly when every client has removed its queue and
      every server child has finished; then every client has been served in full. */
  lemma EveryRunServesAll(tr: seq<State>, ls: seq<Step>)
    requires IsRun(Init, Next, tr, ls)
    ensures |ls| <= Measure(tr[0])
    ensures var s := tr[|ls|];
      (forall l, s' :: !Next(s, l, s')) <==> forall k: nat | k < |s.sessions| :: Finished(s.sessions[k])
    ensures |tr[|ls|].sessions| == |tr[0].sessions|
    ensures var (s, files) := (tr[|ls|], tr[0].files);
      forall k: nat | k < |s.sessions| && Finished(s.sessions[k]) ::
        Delivered(s.sessions[k], files, tr[0].sessions[k].path, BlocksRead(k, ls))
  {
    RunLength(tr, ls);
    assert Inv(tr[|ls|]) by {
      InvIsInductive();
      InvariantHolds(Init, Next, Inv, tr, ls, |ls|);
    }
    StopsIffFinished(tr[|ls|]);
    SameSize(tr, ls, |ls|);
    var s := tr[|ls|];
    forall k: nat | k < |s.sessions| && Finished(s.sessions[k])
      ensures Delivered(s.sessions[k], tr[0].files, tr[0].sessions[k].path, BlocksRead(k, ls))
    {
      ClientGetsItsFile(tr, ls, k);
    }
  }

  lemma RunLength(tr: seq<State>, ls: seq<Step>)
    requires IsRun(Init, Next, tr, ls)
    ensures |ls| <= Measure(tr[0])
  {
    InvIsInductive();
    StepsPay();
    ProgressIsBounded(Init, Next, Inv, AnyStep, Never, 0, Measure, tr, ls);
    CountBounds(AnyStep, ls);
  }

  lemma {:induction false} SameSize(tr: seq<State>, ls: seq<Step>, i: nat)
    requires IsRun(Init, Next, tr, ls) && i < |tr|
    ensures |tr[i].sessions| == |tr[0].sessions|
  {
    if i > 0 {
      SameSize(tr, ls, i - 1);
      assert Next(tr[i - 1], ls[i - 1], tr[i - 1 + 1]);
    }
  }
}
