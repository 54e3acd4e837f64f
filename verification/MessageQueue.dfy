/**
  The sequence-number service of HW8/46_2: one server and any number of clients
  share a message queue.  Requests have type 1, a response has the pid of its
  client as type.  The steps of all processes are interleaved in any order; the
  queue is unbounded.
 */
module MessageQueue {
  import opened Sums
  import opened Tickets

  const MSG_TYPE: nat := 1

  /** Process ids are positive; as a message type 0 would stand for any message. */
  type Pid = p: nat | p > 0 witness 1

  datatype Body = Request(clientId: nat, seqLen: nat) | Response(seqNum: nat)

  datatype Msg = Msg(mtype: nat, body: Body)

  datatype ServerPc =
    | Receive              // about to take a message of type 1
    | Reply(req: Body)     // about to send the response
    | Advance(req: Body)   // about to move the counter on

  datatype ClientPc = ToSend | Waiting | Done(answer: Body)

  datatype Client = Client(pid: Pid, len: nat, pc: ClientPc)

  /** `log` records the answers given, in service order, and `sent` the clients in the order of their requests. */
  datatype State = State(queue: seq<Msg>, server: ServerPc, seqNum: nat, clients: seq<Client>, log: seq<Ticket>,
                         sent: seq<nat>)

  datatype Move = Server | ClientMove(k: nat)

  ghost predicate Init(s: State) {
    && s.queue == [] && s.server == Receive && s.seqNum == 0 && s.log == [] && s.sent == []
    && forall k :: 0 <= k < |s.clients| ==> s.clients[k].pc == ToSend
  }

  /** Position of the first message of a type, |q| if there is none. */
  function FirstOf(q: seq<Msg>, mtype: nat): (i: nat)
    ensures i <= |q| && (i < |q| ==> q[i].mtype == mtype)
    ensures forall j :: 0 <= j < i ==> q[j].mtype != mtype
  {
    if q == [] || q[0].mtype == mtype then 0 else 1 + FirstOf(q[1..], mtype)
  }

  function Without(q: seq<Msg>, i: nat): seq<Msg>
    requires i < |q|
  {
    q[..i] + q[i + 1..]
  }

  /** The server holds bytes that are no request. */
  predicate Misread(s: State) {
    (s.server.Reply? || s.server.Advance?) && s.server.req.Response?
  }

  predicate CanMove(s: State, m: Move) {
    match m
    case Server =>
      (match s.server
       case Receive => FirstOf(s.queue, MSG_TYPE) < |s.queue|
       case Reply(req) => req.Request?
       case Advance(req) => req.Request?)
    case ClientMove(k) =>
      k < |s.clients| &&
      (match s.clients[k].pc
       case ToSend => true
       case Waiting => FirstOf(s.queue, s.clients[k].pid) < |s.queue|
       case Done(_) => false)
  }

  function Apply(s: State, m: Move): State
    requires CanMove(s, m)
  {
    match m
    case Server =>
      (match s.server
       case Receive =>
         var i := FirstOf(s.queue, MSG_TYPE);
         s.(queue := Without(s.queue, i), server := Reply(s.queue[i].body))
       case Reply(req) =>
         s.(queue := s.queue + [Msg(req.clientId, Response(s.seqNum))], server := Advance(req),
            log := s.log + [Ticket(req.clientId, s.seqNum, req.seqLen)])
       case Advance(req) => s.(seqNum := s.seqNum + req.seqLen, server := Receive))
    case ClientMove(k) =>
      var c := s.clients[k];
      if c.pc.ToSend? then
        s.(queue := s.queue + [Msg(MSG_TYPE, Request(c.pid, c.len))], clients := s.clients[k := c.(pc := Waiting)],
           sent := s.sent + [c.pid])
      else
        var i := FirstOf(s.queue, c.pid);
        s.(queue := Without(s.queue, i), clients := s.clients[k := c.(pc := Done(s.queue[i].body))])
  }

  ghost predicate Next(s: State, s': State) {
    exists m :: CanMove(s, m) && s' == Apply(s, m)
  }

  ghost predicate IsRun(run: seq<State>) {
    && run != [] && Init(run[0])
    && forall i :: 0 <= i < |run| - 1 ==> Next(run[i], run[i + 1])
  }

  // ---------- the invariant ----------

  /** Process ids differ, and none is the type of requests. */
  ghost predicate GoodPids(cs: seq<Client>) {
    && (forall k :: 0 <= k < |cs| ==> cs[k].pid != MSG_TYPE)
    && (forall j, k :: 0 <= j < k < |cs| ==> cs[j].pid != cs[k].pid)
  }

  /** The client that a message comes from or goes to. */
  function Owner(m: Msg): nat {
    match m.body case Request(id, _) => id case Response(_) => m.mtype
  }

  ghost predicate NoTicket(log: seq<Ticket>, pid: nat) {
    forall i :: 0 <= i < |log| ==> log[i].client != pid
  }

  /** An unanswered request of a waiting client. */
  ghost predicate RequestOk(req: Body, cs: seq<Client>, log: seq<Ticket>) {
    && req.Request? && NoTicket(log, req.clientId)
    && exists k :: 0 <= k < |cs| && cs[k].pid == req.clientId && cs[k].len == req.seqLen && cs[k].pc == Waiting
  }

  /** The answer to a waiting client. */
  ghost predicate AnswerOk(pid: nat, answer: Body, cs: seq<Client>, log: seq<Ticket>) {
    && answer.Response?
    && exists k :: 0 <= k < |cs| && cs[k].pid == pid && cs[k].pc == Waiting
         && Ticket(pid, answer.seqNum, cs[k].len) in log
  }

  ghost predicate MsgOk(m: Msg, cs: seq<Client>, log: seq<Ticket>) {
    if m.body.Request? then m.mtype == MSG_TYPE && RequestOk(m.body, cs, log)
    else m.mtype != MSG_TYPE && AnswerOk(m.mtype, m.body, cs, log)
  }

  ghost predicate QueueInv(q: seq<Msg>, cs: seq<Client>, log: seq<Ticket>) {
    && (forall i :: 0 <= i < |q| ==> MsgOk(q[i], cs, log))
    && (forall i, j :: 0 <= i < j < |q| ==> Owner(q[i]) != Owner(q[j]))
  }

  ghost predicate NotInQueue(q: seq<Msg>, pid: nat) {
    forall i :: 0 <= i < |q| ==> Owner(q[i]) != pid
  }

  ghost predicate ServerInv(server: ServerPc, q: seq<Msg>, cs: seq<Client>, log: seq<Ticket>) {
    && (server.Reply? ==> RequestOk(server.req, cs, log) && NotInQueue(q, server.req.clientId))
    && (server.Advance? ==> server.req.Request?)
  }

  ghost predicate LogInv(s: State) {
    && Allocated(s.log)
    && Total(s.log) == s.seqNum + (if s.server.Advance? && s.server.req.Request? then s.server.req.seqLen else 0)
    && (forall i, j :: 0 <= i < j < |s.log| ==> s.log[i].client != s.log[j].client)
  }

  /** What a client has to do with the rest. */
  ghost predicate ClientInv(c: Client, s: State) {
    match c.pc
    case ToSend => NoTicket(s.log, c.pid)
    case Waiting => !NotInQueue(s.queue, c.pid) || (s.server.Reply? && s.server.req == Request(c.pid, c.len))
    case Done(answer) => answer.Response? && Ticket(c.pid, answer.seqNum, c.len) in s.log
  }

  ghost predicate Inv(s: State) {
    && GoodPids(s.clients)
    && QueueInv(s.queue, s.clients, s.log)
    && ServerInv(s.server, s.queue, s.clients, s.log)
    && LogInv(s)
    && forall k :: 0 <= k < |s.clients| ==> ClientInv(s.clients[k], s)
  }

  // ---------- how the parts of the invariant move along ----------

  lemma NotInWithout(q: seq<Msg>, i: nat, pid: nat)
    requires i < |q|
    ensures NotInQueue(q, pid) ==> NotInQueue(Without(q, i), pid)
    ensures Owner(q[i]) != pid && !NotInQueue(q, pid) ==> !NotInQueue(Without(q, i), pid)
  {
    if Owner(q[i]) != pid && !NotInQueue(q, pid) {
      var j :| 0 <= j < |q| && Owner(q[j]) == pid;
      assert Without(q, i)[if j < i then j else j - 1] == q[j];
    }
  }

  lemma NotInAppended(q: seq<Msg>, m: Msg, pid: nat)
    ensures NotInQueue(q + [m], pid) <==> NotInQueue(q, pid) && Owner(m) != pid
  {
    var q' := q + [m];
    assert q'[|q|] == m;
    assert forall i :: 0 <= i < |q| ==> q'[i] == q[i];
  }

  lemma QueueWithout(q: seq<Msg>, i: nat, cs: seq<Client>, log: seq<Ticket>)
    requires QueueInv(q, cs, log) && i < |q|
    ensures QueueInv(Without(q, i), cs, log) && NotInQueue(Without(q, i), Owner(q[i]))
    ensures MsgOk(q[i], cs, log)
  {
  }

  lemma QueueAppended(q: seq<Msg>, m: Msg, cs: seq<Client>, log: seq<Ticket>)
    requires QueueInv(q, cs, log) && MsgOk(m, cs, log) && NotInQueue(q, Owner(m))
    ensures QueueInv(q + [m], cs, log)
  {
  }

  /** A ticket for a client changes nothing for the messages of others. */
  lemma QueueAfterTicket(q: seq<Msg>, cs: seq<Client>, log: seq<Ticket>, t: Ticket)
    requires QueueInv(q, cs, log) && NotInQueue(q, t.client)
    ensures QueueInv(q, cs, log + [t])
  {
    forall i | 0 <= i < |q| ensures MsgOk(q[i], cs, log + [t]) {
      MsgAfterTicket(q[i], cs, log, t);
    }
  }

  lemma MsgAfterTicket(m: Msg, cs: seq<Client>, log: seq<Ticket>, t: Ticket)
    requires MsgOk(m, cs, log) && Owner(m) != t.client
    ensures MsgOk(m, cs, log + [t])
  {
  }

  /** Neither does a step of a client that owns none of them. */
  lemma QueueAfterClient(q: seq<Msg>, cs: seq<Client>, log: seq<Ticket>, k: nat, pc: ClientPc)
    requires QueueInv(q, cs, log) && k < |cs| && NotInQueue(q, cs[k].pid)
    ensures QueueInv(q, cs[k := cs[k].(pc := pc)], log)
  {
    forall i | 0 <= i < |q| ensures MsgOk(q[i], cs[k := cs[k].(pc := pc)], log) {
      MsgAfterClient(q[i], cs, log, k, pc);
    }
  }

  lemma MsgAfterClient(m: Msg, cs: seq<Client>, log: seq<Ticket>, k: nat, pc: ClientPc)
    requires MsgOk(m, cs, log) && k < |cs| && Owner(m) != cs[k].pid
    ensures MsgOk(m, cs[k := cs[k].(pc := pc)], log)
  {
    var cs' := cs[k := cs[k].(pc := pc)];
    if m.body.Request? {
      var j :| 0 <= j < |cs| && cs[j] == Client(m.body.clientId, m.body.seqLen, Waiting);
      assert cs'[j] == cs[j];
    } else {
      var j :| 0 <= j < |cs| && cs[j].pid == m.mtype && cs[j].pc == Waiting
        && Ticket(m.mtype, m.body.seqNum, cs[j].len) in log;
      assert cs'[j] == cs[j];
    }
  }

  /** A message belongs to a waiting client, and an answer is the one due to it. */
  lemma OwnerWaits(m: Msg, cs: seq<Client>, log: seq<Ticket>, k: nat)
    requires GoodPids(cs) && MsgOk(m, cs, log) && k < |cs|
    ensures Owner(m) == cs[k].pid ==> cs[k].pc == Waiting
    ensures Owner(m) == cs[k].pid && m.body.Response? ==> Ticket(cs[k].pid, m.body.seqNum, cs[k].len) in log
    ensures Owner(m) == cs[k].pid && m.body.Request? ==> m.body.seqLen == cs[k].len
  {
    if m.body.Request? {
      var j :| 0 <= j < |cs| && cs[j] == Client(m.body.clientId, m.body.seqLen, Waiting);
      assert j < k ==> cs[j].pid != cs[k].pid;
      assert k < j ==> cs[k].pid != cs[j].pid;
    } else {
      var j :| 0 <= j < |cs| && cs[j].pid == m.mtype && cs[j].pc == Waiting
        && Ticket(m.mtype, m.body.seqNum, cs[j].len) in log;
      assert j < k ==> cs[j].pid != cs[k].pid;
      assert k < j ==> cs[k].pid != cs[j].pid;
    }
  }

  lemma NobodysMessage(s: State, k: nat)
    requires Inv(s) && k < |s.clients| && s.clients[k].pc != Waiting
    ensures NotInQueue(s.queue, s.clients[k].pid)
    ensures s.server.Reply? ==> s.server.req.clientId != s.clients[k].pid
  {
    forall i | 0 <= i < |s.queue| ensures Owner(s.queue[i]) != s.clients[k].pid {
      OwnerWaits(s.queue[i], s.clients, s.log, k);
    }
    if s.server.Reply? {
      OwnerWaits(Msg(MSG_TYPE, s.server.req), s.clients, s.log, k);
    }
  }

  // ---------- the steps keep the invariant ----------

  lemma InvReceive(s: State)
    requires Inv(s) && s.server.Receive? && CanMove(s, Server)
    ensures Inv(Apply(s, Server))
  {
    var s', i := Apply(s, Server), FirstOf(s.queue, MSG_TYPE);
    var m := s.queue[i];
    QueueWithout(s.queue, i, s.clients, s.log);
    forall k | 0 <= k < |s.clients| ensures ClientInv(s'.clients[k], s') {
      assert ClientInv(s.clients[k], s);
      NotInWithout(s.queue, i, s.clients[k].pid);
      OwnerWaits(m, s.clients, s.log, k);
    }
  }

  lemma AnswerOfRequest(req: Body, cs: seq<Client>, log: seq<Ticket>, n: nat)
    requires RequestOk(req, cs, log) && GoodPids(cs)
    ensures MsgOk(Msg(req.clientId, Response(n)), cs, log + [Ticket(req.clientId, n, req.seqLen)])
  {
    var t := Ticket(req.clientId, n, req.seqLen);
    var k :| 0 <= k < |cs| && cs[k] == Client(req.clientId, req.seqLen, Waiting);
    assert t in log + [t] && cs[k].pid != MSG_TYPE;
  }

  lemma LogAfterReply(s: State)
    requires LogInv(s) && s.server.Reply? && CanMove(s, Server) && NoTicket(s.log, s.server.req.clientId)
    ensures LogInv(Apply(s, Server))
  {
    var req := s.server.req;
    IssueKeeps(s.log, req.clientId, req.seqLen);
    assert Apply(s, Server).log == s.log + [Issue(s.log, req.clientId, req.seqLen)];
  }

  lemma InvReply(s: State)
    requires Inv(s) && s.server.Reply? && CanMove(s, Server)
    ensures Inv(Apply(s, Server))
  {
    var s', req := Apply(s, Server), s.server.req;
    var t, m := Ticket(req.clientId, s.seqNum, req.seqLen), Msg(req.clientId, Response(s.seqNum));
    LogAfterReply(s);
    QueueAfterTicket(s.queue, s.clients, s.log, t);
    AnswerOfRequest(req, s.clients, s.log, s.seqNum);
    QueueAppended(s.queue, m, s.clients, s'.log);
    assert QueueInv(s'.queue, s'.clients, s'.log) && ServerInv(s'.server, s'.queue, s'.clients, s'.log);
    forall k | 0 <= k < |s.clients| ensures ClientInv(s'.clients[k], s') {
      ClientAfterReply(s, k, t, m);
    }
  }

  lemma ClientAfterReply(s: State, k: nat, t: Ticket, m: Msg)
    requires Inv(s) && s.server.Reply? && CanMove(s, Server) && k < |s.clients|
    requires t == Ticket(s.server.req.clientId, s.seqNum, s.server.req.seqLen)
    requires m == Msg(s.server.req.clientId, Response(s.seqNum))
    ensures ClientInv(s.clients[k], Apply(s, Server))
  {
    var c, s' := s.clients[k], Apply(s, Server);
    assert ClientInv(c, s);
    assert s'.queue == s.queue + [m] && s'.log == s.log + [t];
    match c.pc {
      case ToSend =>
        NobodysMessage(s, k);
      case Waiting =>
        NotInAppended(s.queue, m, c.pid);
      case Done(answer) =>
    }
  }

  lemma InvAdvance(s: State)
    requires Inv(s) && s.server.Advance? && CanMove(s, Server)
    ensures Inv(Apply(s, Server))
  {
    var s' := Apply(s, Server);
    forall k | 0 <= k < |s.clients| ensures ClientInv(s'.clients[k], s') {
      assert ClientInv(s.clients[k], s);
    }
  }

  /** The server's request is not affected by a step of another client. */
  lemma ServerAfterClient(s: State, k: nat, pc: ClientPc)
    requires Inv(s) && k < |s.clients| && (s.server.Reply? ==> s.server.req.clientId != s.clients[k].pid)
    ensures s.server.Reply? ==> RequestOk(s.server.req, s.clients[k := s.clients[k].(pc := pc)], s.log)
  {
    if s.server.Reply? {
      MsgAfterClient(Msg(MSG_TYPE, s.server.req), s.clients, s.log, k, pc);
    }
  }

  lemma InvSend(s: State, k: nat)
    requires Inv(s) && CanMove(s, ClientMove(k)) && s.clients[k].pc == ToSend
    ensures Inv(Apply(s, ClientMove(k)))
  {
    var s', c := Apply(s, ClientMove(k)), s.clients[k];
    var m := Msg(MSG_TYPE, Request(c.pid, c.len));
    assert ClientInv(c, s);
    NobodysMessage(s, k);
    QueueAfterClient(s.queue, s.clients, s.log, k, Waiting);
    assert s'.clients[k] == Client(c.pid, c.len, Waiting);
    QueueAppended(s.queue, m, s'.clients, s.log);
    ServerAfterClient(s, k, Waiting);
    if s.server.Reply? {
      NotInAppended(s.queue, m, s.server.req.clientId);
    }
    forall j | 0 <= j < |s.clients| ensures ClientInv(s'.clients[j], s') {
      assert ClientInv(s.clients[j], s);
      NotInAppended(s.queue, m, s.clients[j].pid);
    }
  }

  lemma InvTake(s: State, k: nat)
    requires Inv(s) && CanMove(s, ClientMove(k)) && s.clients[k].pc == Waiting
    ensures Inv(Apply(s, ClientMove(k)))
  {
    var s', c := Apply(s, ClientMove(k)), s.clients[k];
    var i := FirstOf(s.queue, c.pid);
    var m, q := s.queue[i], Without(s.queue, i);
    QueueWithout(s.queue, i, s.clients, s.log);
    assert m.body.Response? && Owner(m) == c.pid;
    OwnerWaits(m, s.clients, s.log, k);
    QueueAfterClient(q, s.clients, s.log, k, Done(m.body));
    if s.server.Reply? {
      assert Owner(m) != s.server.req.clientId;
      NotInWithout(s.queue, i, s.server.req.clientId);
    }
    ServerAfterClient(s, k, Done(m.body));
    forall j | 0 <= j < |s.clients| ensures ClientInv(s'.clients[j], s') {
      assert ClientInv(s.clients[j], s);
      NotInWithout(s.queue, i, s.clients[j].pid);
    }
  }

  lemma InvNext(s: State, s': State)
    requires Inv(s) && Next(s, s')
    ensures Inv(s')
  {
    var m :| CanMove(s, m) && s' == Apply(s, m);
    match m {
      case Server =>
        if s.server.Receive? { InvReceive(s); } else if s.server.Reply? { InvReply(s); } else { InvAdvance(s); }
      case ClientMove(k) =>
        if s.clients[k].pc == ToSend { InvSend(s, k); } else { InvTake(s, k); }
    }
  }

  lemma InvOnRun(run: seq<State>, i: nat)
    requires IsRun(run) && GoodPids(run[0].clients) && i < |run|
    ensures Inv(run[i])
  {
    if i > 0 {
      InvOnRun(run, i - 1);
      assert Next(run[i - 1], run[i - 1 + 1]);
      InvNext(run[i - 1], run[i]);
    }
  }

  // ---------- main results ----------

  /**
    In every state of every run with distinct pids other than 1: the server
    never takes a response for a request; a client that has its answer got the
    start of the range issued to it; nobody was issued two ranges; and the
    ranges are those of the ticket allocator.
   */
  lemma Service(run: seq<State>, i: nat)
    requires IsRun(run) && GoodPids(run[0].clients) && i < |run|
    ensures var s := run[i];
      && !Misread(s)
      && Allocated(s.log) && s.seqNum <= Total(s.log)
      && (s.server == Receive ==> s.seqNum == Total(s.log))
      && (forall a, b :: 0 <= a < b < |s.log| ==> s.log[a].client != s.log[b].client)
      && (forall k :: 0 <= k < |s.clients| && s.clients[k].pc.Done? ==>
            s.clients[k].pc.answer.Response?
            && Ticket(s.clients[k].pid, s.clients[k].pc.answer.seqNum, s.clients[k].len) in s.log)
  {
    InvOnRun(run, i);
    var s := run[i];
    forall k | 0 <= k < |s.clients| && s.clients[k].pc.Done?
      ensures s.clients[k].pc.answer.Response?
        && Ticket(s.clients[k].pid, s.clients[k].pc.answer.seqNum, s.clients[k].len) in s.log
    {
      assert ClientInv(s.clients[k], s);
    }
  }

  // ---------- first come, first served ----------

  function AskerOf(m: Msg): seq<nat> {
    if m.body.Request? then [m.body.clientId] else []
  }

  /** The clients whose requests stand in the queue, in order. */
  function Asking(q: seq<Msg>): seq<nat> {
    if q == [] then [] else AskerOf(q[0]) + Asking(q[1..])
  }

  lemma {:induction false} AskingConcat(a: seq<Msg>, b: seq<Msg>)
    ensures Asking(a + b) == Asking(a) + Asking(b)
  {
    if a == [] {
      assert a + b == b;
    } else {
      assert (a + b)[1..] == a[1..] + b;
      AskingConcat(a[1..], b);
      Regroup(AskerOf(a[0]), Asking(a[1..]), Asking(b));
    }
  }

  lemma Regroup(a: seq<nat>, b: seq<nat>, c: seq<nat>)
    ensures a + (b + c) == (a + b) + c
  {
  }

  lemma AskingAppended(q: seq<Msg>, m: Msg)
    ensures Asking(q + [m]) == Asking(q) + AskerOf(m)
  {
    AskingConcat(q, [m]);
    assert Asking([m]) == AskerOf(m) + [];
  }

  lemma {:induction false} AskingWithout(q: seq<Msg>, i: nat)
    requires i < |q| && (q[i].body.Request? ==> forall j :: 0 <= j < i ==> q[j].body.Response?)
    ensures Asking(q) == AskerOf(q[i]) + Asking(Without(q, i))
  {
    if i == 0 {
      assert Without(q, 0) == q[1..];
    } else {
      assert Without(q, i)[1..] == Without(q[1..], i - 1) && Without(q, i)[0] == q[0];
      AskingWithout(q[1..], i - 1);
    }
  }

  function ServedClients(log: seq<Ticket>): seq<nat> {
    seq(|log|, i requires 0 <= i < |log| => log[i].client)
  }

  function InHand(server: ServerPc): seq<nat> {
    if server.Reply? && server.req.Request? then [server.req.clientId] else []
  }

  /** Every request sent was answered, is in the server's hand or stands in the queue, in this order. */
  ghost predicate OrderInv(s: State) {
    s.sent == ServedClients(s.log) + InHand(s.server) + Asking(s.queue)
  }

  lemma OrderInServerStep(s: State)
    requires QueueInv(s.queue, s.clients, s.log) && OrderInv(s) && CanMove(s, Server)
    ensures OrderInv(Apply(s, Server))
  {
    match s.server {
      case Receive =>
        var i := FirstOf(s.queue, MSG_TYPE);
        forall j | 0 <= j <= i ensures s.queue[j].body.Response? <==> j < i {
          assert MsgOk(s.queue[j], s.clients, s.log);
        }
        AskingWithout(s.queue, i);
      case Reply(req) =>
        var t := Ticket(req.clientId, s.seqNum, req.seqLen);
        assert ServedClients(s.log + [t]) == ServedClients(s.log) + [req.clientId];
        AskingAppended(s.queue, Msg(req.clientId, Response(s.seqNum)));
      case Advance(_) =>
    }
  }

  lemma OrderInClientStep(s: State, k: nat)
    requires GoodPids(s.clients) && QueueInv(s.queue, s.clients, s.log)
    requires OrderInv(s) && CanMove(s, ClientMove(k))
    ensures OrderInv(Apply(s, ClientMove(k)))
  {
    var c := s.clients[k];
    if c.pc.ToSend? {
      AskingAppended(s.queue, Msg(MSG_TYPE, Request(c.pid, c.len)));
    } else {
      var i := FirstOf(s.queue, c.pid);
      assert MsgOk(s.queue[i], s.clients, s.log);
      AskingWithout(s.queue, i);
    }
  }

  lemma OrderNext(s: State, s': State)
    requires Inv(s) && OrderInv(s) && Next(s, s')
    ensures OrderInv(s')
  {
    var m :| CanMove(s, m) && s' == Apply(s, m);
    match m {
      case Server => OrderInServerStep(s);
      case ClientMove(k) => OrderInClientStep(s, k);
    }
  }

  /** Clients are served in the order in which they sent their requests. */
  lemma {:induction false} ServedInOrder(run: seq<State>, i: nat)
    requires IsRun(run) && GoodPids(run[0].clients) && i < |run|
    ensures OrderInv(run[i]) && ServedClients(run[i].log) <= run[i].sent
  {
    if i > 0 {
      ServedInOrder(run, i - 1);
      InvOnRun(run, i - 1);
      assert Next(run[i - 1], run[i - 1 + 1]);
      OrderNext(run[i - 1], run[i]);
    }
  }

  /** As long as somebody waits for an answer or has yet to ask, some process can move. */
  lemma NobodyStarves(run: seq<State>, i: nat, k: nat)
    requires IsRun(run) && GoodPids(run[0].clients) && i < |run| && k < |run[i].clients|
    requires !run[i].clients[k].pc.Done?
    ensures exists m :: CanMove(run[i], m)
  {
    InvOnRun(run, i);
    var s := run[i];
    var c := s.clients[k];
    assert ClientInv(c, s);
    if c.pc.ToSend? {
      assert CanMove(s, ClientMove(k));
    } else if s.server.Receive? {
      var j :| 0 <= j < |s.queue| && Owner(s.queue[j]) == c.pid;
      assert MsgOk(s.queue[j], s.clients, s.log);
      assert if s.queue[j].body.Request? then CanMove(s, Server) else CanMove(s, ClientMove(k));
    } else {
      assert CanMove(s, Server);
    }
  }

  // ---------- every request is answered ----------

  function ClientSteps(c: Client): nat {
    match c.pc case ToSend => 5 case Waiting => 1 case Done(_) => 0
  }

  function Requests(q: seq<Msg>): nat {
    if q == [] then 0 else Requests(q[..|q| - 1]) + (if q[|q| - 1].body.Request? then 1 else 0)
  }

  function ServerSteps(server: ServerPc): nat {
    match server case Receive => 0 case Reply(_) => 2 case Advance(_) => 1
  }

  function Measure(s: State): nat {
    Sum(s.clients, ClientSteps) + 3 * Requests(s.queue) + ServerSteps(s.server)
  }

  lemma {:induction false} RequestsWithout(q: seq<Msg>, i: nat)
    requires i < |q|
    ensures Requests(Without(q, i)) == Requests(q) - (if q[i].body.Request? then 1 else 0)
  {
    var last := |q| - 1;
    if i == last {
      assert Without(q, i) == q[..last];
    } else {
      RequestsWithout(q[..last], i);
      assert Without(q, i)[..last - 1] == Without(q[..last], i);
      assert Without(q, i)[last - 1] == q[last];
    }
  }

  lemma RequestsAppended(q: seq<Msg>, m: Msg)
    ensures Requests(q + [m]) == Requests(q) + (if m.body.Request? then 1 else 0)
  {
    assert (q + [m])[..|q|] == q;
  }

  lemma ServerStepCounts(s: State)
    requires QueueInv(s.queue, s.clients, s.log) && CanMove(s, Server)
    ensures Measure(Apply(s, Server)) < Measure(s)
  {
    match s.server {
      case Receive =>
        var i := FirstOf(s.queue, MSG_TYPE);
        assert MsgOk(s.queue[i], s.clients, s.log);
        RequestsWithout(s.queue, i);
      case Reply(req) =>
        RequestsAppended(s.queue, Msg(req.clientId, Response(s.seqNum)));
      case Advance(_) =>
    }
  }

  lemma ClientStepCounts(s: State, k: nat)
    requires CanMove(s, ClientMove(k))
    ensures Measure(Apply(s, ClientMove(k))) < Measure(s)
  {
    var c := s.clients[k];
    SumUpdate(s.clients, k, Apply(s, ClientMove(k)).clients[k], ClientSteps);
    if c.pc.ToSend? {
      RequestsAppended(s.queue, Msg(MSG_TYPE, Request(c.pid, c.len)));
    } else {
      RequestsWithout(s.queue, FirstOf(s.queue, c.pid));
    }
  }

  lemma EveryStepCounts(s: State, s': State)
    requires Inv(s) && Next(s, s')
    ensures Measure(s') < Measure(s) && |s'.clients| == |s.clients|
  {
    var m :| CanMove(s, m) && s' == Apply(s, m);
    match m {
      case Server => ServerStepCounts(s);
      case ClientMove(k) => ClientStepCounts(s, k);
    }
  }

  lemma {:induction false} MeasureAlongRun(run: seq<State>, i: nat)
    requires IsRun(run) && GoodPids(run[0].clients) && i < |run|
    ensures Measure(run[i]) + i <= Measure(run[0])
    ensures |run[i].clients| == |run[0].clients|
  {
    if i > 0 {
      var s, s' := run[i - 1], run[i];
      assert Next(run[i - 1], run[i - 1 + 1]);
      InvOnRun(run, i - 1);
      EveryStepCounts(s, s');
      MeasureAlongRun(run, i - 1);
    }
  }

  ghost predicate Stuck(s: State) {
    forall m :: !CanMove(s, m)
  }

  /** A run takes at most five steps per client, and when it can go no further everybody has the answer due. */
  lemma EverybodyServed(run: seq<State>)
    requires IsRun(run) && GoodPids(run[0].clients)
    ensures |run| <= 5 * |run[0].clients| + 1
    ensures var s := run[|run| - 1];
      |s.clients| == |run[0].clients| && (Stuck(s) ==> forall k :: 0 <= k < |s.clients| ==> s.clients[k].pc.Done?)
  {
    var last := |run| - 1;
    MeasureAlongRun(run, last);
    SumOfEqual(run[0].clients, ClientSteps, 5);
    var s := run[last];
    if Stuck(s) {
      forall k | 0 <= k < |s.clients| ensures s.clients[k].pc.Done? {
        if !s.clients[k].pc.Done? {
          NobodyStarves(run, last, k);
        }
      }
    }
  }

  // ---------- the pid that must not occur ----------

  ghost predicate ReachesMisread(cs: seq<Client>) {
    exists run: seq<State>, i: nat :: IsRun(run) && run[0].clients == cs && i < |run| && Misread(run[i])
  }

  /** A client with pid 1 gets its answer under the type of requests, and the server may take it back. */
  lemma PidOneMisreads(cs: seq<Client>, k: nat)
    requires (forall j :: 0 <= j < |cs| ==> cs[j].pc == ToSend) && k < |cs| && cs[k].pid == MSG_TYPE
    ensures ReachesMisread(cs)
  {
    var c := cs[k];
    var req := Request(MSG_TYPE, c.len);
    var ask, answer := Msg(MSG_TYPE, req), Msg(MSG_TYPE, Response(0));
    var cs' := cs[k := c.(pc := Waiting)];
    var log := [Ticket(MSG_TYPE, 0, c.len)];
    var s0 := State([], Receive, 0, cs, [], []);
    var s1 := State([ask], Receive, 0, cs', [], [c.pid]);
    var s2 := State([], Reply(req), 0, cs', [], [c.pid]);
    var s3 := State([answer], Advance(req), 0, cs', log, [c.pid]);
    var s4 := State([answer], Receive, c.len, cs', log, [c.pid]);
    var s5 := State([], Reply(Response(0)), c.len, cs', log, [c.pid]);
    assert CanMove(s0, ClientMove(k)) && s1 == Apply(s0, ClientMove(k));
    assert Without([ask], 0) == [] && Without([answer], 0) == [];
    assert CanMove(s1, Server) && s2 == Apply(s1, Server);
    assert CanMove(s2, Server) && s3 == Apply(s2, Server);
    assert CanMove(s3, Server) && s4 == Apply(s3, Server);
    assert CanMove(s4, Server) && s5 == Apply(s4, Server);
    var run := [s0, s1, s2, s3, s4, s5];
    assert IsRun(run) && Misread(run[5]);
  }

  /** With distinct pids the server can go wrong if and only if one of them is 1. */
  lemma MisreadIffPidOne(cs: seq<Client>)
    requires forall j :: 0 <= j < |cs| ==> cs[j].pc == ToSend
    requires forall j, k :: 0 <= j < k < |cs| ==> cs[j].pid != cs[k].pid
    ensures ReachesMisread(cs) <==> exists k :: 0 <= k < |cs| && cs[k].pid == MSG_TYPE
  {
    if k :| 0 <= k < |cs| && cs[k].pid == MSG_TYPE {
      PidOneMisreads(cs, k);
    } else if ReachesMisread(cs) {
      var run: seq<State>, i: nat :| IsRun(run) && run[0].clients == cs && i < |run| && Misread(run[i]);
      assert GoodPids(cs);
      Service(run, i);
    }
  }
}
