/**
  The FIFO protocol of HW8/44_6 from both sides.  A client makes its FIFO, sends
  a request and then opens the FIFO for reading, which blocks until the server
  opens it for writing.  The server does not wait: it opens without blocking,
  and gives up on a client that has not got as far as its own open.  A client may
  die at any time before it has its answer.
 */
module FifoClients {
  import opened Wrappers
  import opened Sums
  import opened Tickets
  import opened FifoServer

  datatype ClientPc =
    | ToSend                        // FIFO made, request not sent
    | ToOpen                        // request sent
    | Opening                       // blocked in open: counts as a reader of the FIFO
    | Reading(fifo: Option<nat>)    // open has returned; what the FIFO holds
    | Done(seqNum: nat)
    | Dead

  datatype Client = Client(len: nat, pc: ClientPc)

  /** Clients are numbered; the number stands for the process id. */
  datatype Req = Req(pid: nat, seqLen: nat)

  datatype ServerPc =
    | Receive
    | Open(req: Req)      // about to open the client's FIFO
    | Write(req: Req)     // about to write the response and close
    | Advance(req: Req)   // about to move the counter on

  /** `rounds` records what the server met in each round, and `sent` the clients in the order of their requests. */
  datatype State = State(requests: seq<Req>, server: ServerPc, seqNum: nat, clients: seq<Client>, rounds: seq<Round>,
                         sent: seq<nat>)

  datatype Move = Server | ClientMove(k: nat) | Kill(k: nat)

  ghost predicate Init(s: State) {
    && s.requests == [] && s.server == Receive && s.seqNum == 0 && s.rounds == [] && s.sent == []
    && forall k :: 0 <= k < |s.clients| ==> s.clients[k].pc == ToSend
  }

  /** An open without blocking succeeds only if somebody reads the FIFO. */
  predicate HasReader(pc: ClientPc) {
    pc.Opening? || pc.Reading?
  }

  predicate CanMove(s: State, m: Move) {
    match m
    case Server =>
      if s.server.Receive? then s.requests != [] else s.server.req.pid < |s.clients|
    case ClientMove(k) =>
      && k < |s.clients|
      && (match s.clients[k].pc
          case ToSend => true
          case ToOpen => true
          case Opening => false
          case Reading(fifo) => fifo.Some?
          case Done(_) => false
          case Dead => false)
    case Kill(k) => k < |s.clients| && !s.clients[k].pc.Done? && !s.clients[k].pc.Dead?
  }

  function SetPc(cs: seq<Client>, k: nat, pc: ClientPc): seq<Client>
    requires k < |cs|
  {
    cs[k := cs[k].(pc := pc)]
  }

  /** The response is in the FIFO; with no reader left the write fails. */
  function AfterWrite(cs: seq<Client>, k: nat, seqNum: nat): seq<Client>
    requires k < |cs|
  {
    if cs[k].pc.Reading? then SetPc(cs, k, Reading(Some(seqNum))) else cs
  }

  function Apply(s: State, m: Move): State
    requires CanMove(s, m)
  {
    match m
    case Server =>
      (match s.server
       case Receive => s.(server := Open(s.requests[0]), requests := s.requests[1..])
       case Open(r) =>
         var pc := s.clients[r.pid].pc;
         if HasReader(pc) then
           s.(server := Write(r), clients := if pc.Opening? then SetPc(s.clients, r.pid, Reading(None)) else s.clients)
         else s.(server := Receive, rounds := s.rounds + [Request(r.pid, r.seqLen, false, false)])
       case Write(r) =>
         s.(server := Advance(r), clients := AfterWrite(s.clients, r.pid, s.seqNum),
            rounds := s.rounds + [Request(r.pid, r.seqLen, true, s.clients[r.pid].pc.Reading?)])
       case Advance(r) => s.(server := Receive, seqNum := s.seqNum + r.seqLen))
    case ClientMove(k) =>
      (match s.clients[k].pc
       case ToSend =>
         s.(requests := s.requests + [Req(k, s.clients[k].len)], clients := SetPc(s.clients, k, ToOpen),
            sent := s.sent + [k])
       case ToOpen => s.(clients := SetPc(s.clients, k, Opening))
       case Reading(fifo) => s.(clients := SetPc(s.clients, k, Done(fifo.value))))
    case Kill(k) => s.(clients := SetPc(s.clients, k, Dead))
  }

  ghost predicate Next(s: State, s': State) {
    exists m :: CanMove(s, m) && s' == Apply(s, m)
  }

  ghost predicate IsRun(run: seq<State>) {
    && run != [] && Init(run[0])
    && forall i :: 0 <= i < |run| - 1 ==> Next(run[i], run[i + 1])
  }

  // ---------- the invariant ----------

  /** Sent, and no answer yet. */
  predicate Asks(pc: ClientPc) {
    pc == ToOpen || pc == Opening
  }

  ghost predicate ReqOk(r: Req, cs: seq<Client>) {
    r.pid < |cs| && r.seqLen == cs[r.pid].len && (Asks(cs[r.pid].pc) || cs[r.pid].pc.Dead?)
  }

  ghost predicate NotQueued(q: seq<Req>, k: nat) {
    forall i :: 0 <= i < |q| ==> q[i].pid != k
  }

  ghost predicate QueueInv(q: seq<Req>, cs: seq<Client>) {
    && (forall i :: 0 <= i < |q| ==> ReqOk(q[i], cs))
    && (forall i, j :: 0 <= i < j < |q| ==> q[i].pid != q[j].pid)
  }

  ghost predicate ServerInv(server: ServerPc, q: seq<Req>, cs: seq<Client>) {
    match server
    case Receive => true
    case Open(r) => ReqOk(r, cs) && NotQueued(q, r.pid)
    case Write(r) =>
      && r.pid < |cs| && r.seqLen == cs[r.pid].len && NotQueued(q, r.pid)
      && (cs[r.pid].pc == Reading(None) || cs[r.pid].pc.Dead?)
    case Advance(r) => r.pid < |cs|
  }

  /** The server has given up on a request of client k. */
  ghost predicate Refused(rounds: seq<Round>, k: nat) {
    exists i :: 0 <= i < |rounds| && rounds[i].Request? && rounds[i].pid == k && !rounds[i].opens
  }

  /** Client k has asked, and nobody knows of its request any more. */
  ghost predicate Lost(s: State, k: nat)
    requires k < |s.clients|
  {
    Asks(s.clients[k].pc) && NotQueued(s.requests, k) && !(s.server.Open? && s.server.req.pid == k)
  }

  ghost predicate NoTicket(log: seq<Ticket>, k: nat) {
    forall i :: 0 <= i < |log| ==> log[i].client != k
  }

  ghost predicate ClientInv(k: nat, c: Client, server: ServerPc, log: seq<Ticket>) {
    match c.pc
    case Reading(Some(n)) => Ticket(k, n, c.len) in log
    case Done(n) => Ticket(k, n, c.len) in log
    case Reading(None) => NoTicket(log, k) && server.Write? && server.req.pid == k
    case Dead => true
    case _ => NoTicket(log, k)
  }

  /** The counter stands at the total of the tickets, or is about to. */
  ghost predicate CounterInv(s: State) {
    s.seqNum + (if s.server.Advance? then s.server.req.seqLen else 0) == Total(Served(s.rounds))
  }

  ghost predicate OneEach(log: seq<Ticket>) {
    forall a, b :: 0 <= a < b < |log| ==> log[a].client != log[b].client
  }

  /** A request under way has no ticket yet. */
  ghost predicate PendingInv(q: seq<Req>, server: ServerPc, log: seq<Ticket>) {
    && (forall i :: 0 <= i < |q| ==> NoTicket(log, q[i].pid))
    && (server.Open? || server.Write? ==> NoTicket(log, server.req.pid))
  }

  ghost predicate Inv(s: State) {
    var log := Served(s.rounds);
    && QueueInv(s.requests, s.clients) && ServerInv(s.server, s.requests, s.clients)
    && CounterInv(s) && OneEach(log) && PendingInv(s.requests, s.server, log)
    && ClientsInv(s.clients, s.server, log) && LostAreRefused(s)
  }

  ghost predicate ClientsInv(cs: seq<Client>, server: ServerPc, log: seq<Ticket>) {
    forall k :: 0 <= k < |cs| ==> ClientInv(k, cs[k], server, log)
  }

  ghost predicate LostAreRefused(s: State) {
    forall k :: 0 <= k < |s.clients| ==> (Lost(s, k) <==> Refused(s.rounds, k) && !s.clients[k].pc.Dead?)
  }

  lemma InvInit(s: State)
    requires Init(s)
    ensures Inv(s)
  {
  }

  lemma RoundAdded(rounds: seq<Round>, r: Round)
    ensures r.Request? && r.opens ==> Served(rounds + [r]) == Served(rounds) + [Issue(Served(rounds), r.pid, r.seqLen)]
    ensures r.Request? && r.opens ==> Total(Served(rounds + [r])) == Total(Served(rounds)) + r.seqLen
    ensures r.Request? && !r.opens ==> Served(rounds + [r]) == Served(rounds)
  {
    assert (rounds + [r])[..|rounds|] == rounds;
    ServedIsAllocated(rounds);
    if r.Request? && r.opens {
      IssueKeeps(Served(rounds), r.pid, r.seqLen);
    }
  }

  lemma RefusedAdded(rounds: seq<Round>, r: Round, k: nat)
    ensures Refused(rounds + [r], k) <==> Refused(rounds, k) || (r.Request? && r.pid == k && !r.opens)
  {
    var rs := rounds + [r];
    if Refused(rounds, k) {
      var i :| 0 <= i < |rounds| && rounds[i].Request? && rounds[i].pid == k && !rounds[i].opens;
      assert rs[i] == rounds[i];
    }
    if r.Request? && r.pid == k && !r.opens {
      assert rs[|rounds|] == r;
    }
  }

  lemma OneEachAdded(log: seq<Ticket>, t: Ticket)
    requires OneEach(log) && NoTicket(log, t.client)
    ensures OneEach(log + [t])
  {
  }

  lemma InvReceive(s: State)
    requires Inv(s) && s.server.Receive? && CanMove(s, Server)
    ensures Inv(Apply(s, Server))
  {
    var s' := Apply(s, Server);
    forall k | 0 <= k < |s.clients| ensures Lost(s', k) <==> Lost(s, k) {
      assert NotQueued(s.requests, k) <==> s.requests[0].pid != k && NotQueued(s.requests[1..], k);
    }
  }

  lemma InvOpen(s: State)
    requires Inv(s) && s.server.Open? && CanMove(s, Server)
    ensures Inv(Apply(s, Server))
  {
    if s.clients[s.server.req.pid].pc == Opening { InvOpened(s); } else { InvGivenUp(s); }
  }

  lemma InvOpened(s: State)
    requires Inv(s) && s.server.Open? && CanMove(s, Server) && s.clients[s.server.req.pid].pc == Opening
    ensures Inv(Apply(s, Server))
  {
    var s' := Apply(s, Server);
    assert forall k :: 0 <= k < |s.clients| ==> (Lost(s', k) <==> Lost(s, k));
  }

  /** Nobody reads the FIFO: the client has not come to its open, or is dead. */
  ghost predicate NoReader(s: State) {
    s.server.Open? && s.server.req.pid < |s.clients| && !HasReader(s.clients[s.server.req.pid].pc)
  }

  lemma InvGivenUp(s: State)
    requires Inv(s) && NoReader(s)
    ensures Inv(Apply(s, Server))
  {
    LostWhenGivenUp(s);
    LogWhenGivenUp(s.clients, s.server, s.rounds);
  }

  lemma LogWhenGivenUp(cs: seq<Client>, server: ServerPc, rounds: seq<Round>)
    requires server.Open? && ClientsInv(cs, server, Served(rounds))
    ensures var rounds' := rounds + [Request(server.req.pid, server.req.seqLen, false, false)];
      Served(rounds') == Served(rounds) && ClientsInv(cs, Receive, Served(rounds'))
  {
    var round := Request(server.req.pid, server.req.seqLen, false, false);
    RoundAdded(rounds, round);
    forall k | 0 <= k < |cs| ensures ClientInv(k, cs[k], Receive, Served(rounds)) {
      assert ClientInv(k, cs[k], server, Served(rounds));
    }
  }

  lemma LostWhenGivenUp(s: State)
    requires QueueInv(s.requests, s.clients) && ServerInv(s.server, s.requests, s.clients) && LostAreRefused(s)
    requires NoReader(s)
    ensures LostAreRefused(Apply(s, Server))
  {
    var s', r := Apply(s, Server), s.server.req;
    forall k | 0 <= k < |s.clients| ensures Lost(s', k) <==> Refused(s'.rounds, k) && !s'.clients[k].pc.Dead? {
      RefusedAdded(s.rounds, Request(r.pid, r.seqLen, false, false), k);
      assert Lost(s', k) <==> Lost(s, k) || (k == r.pid && s.clients[k].pc == ToOpen);
    }
  }

  lemma InvWrite(s: State)
    requires Inv(s) && s.server.Write? && CanMove(s, Server)
    ensures Inv(Apply(s, Server))
  {
    LostWhenWritten(s);
    LogWhenWritten(s.clients, s.server, s.seqNum, s.rounds, s.requests);
  }

  lemma LogWhenWritten(cs: seq<Client>, server: ServerPc, n: nat, rounds: seq<Round>, q: seq<Req>)
    requires server.Write? && server.req.pid < |cs| && server.req.seqLen == cs[server.req.pid].len
    requires NotQueued(q, server.req.pid) && n == Total(Served(rounds))
    requires cs[server.req.pid].pc in {Reading(None), Dead}
    requires ClientsInv(cs, server, Served(rounds)) && OneEach(Served(rounds)) && PendingInv(q, server, Served(rounds))
    ensures var ok := cs[server.req.pid].pc.Reading?;
      var rounds' := rounds + [Request(server.req.pid, server.req.seqLen, true, ok)];
      && Total(Served(rounds')) == n + server.req.seqLen && OneEach(Served(rounds'))
      && PendingInv(q, Advance(server.req), Served(rounds'))
      && ClientsInv(AfterWrite(cs, server.req.pid, n), Advance(server.req), Served(rounds'))
  {
    var r := server.req;
    var log := Served(rounds);
    RoundAdded(rounds, Request(r.pid, r.seqLen, true, cs[r.pid].pc.Reading?));
    OneEachAdded(log, Ticket(r.pid, n, r.seqLen));
    ClientsAfterWrite(cs, server, log, n);
  }

  lemma ClientsAfterWrite(cs: seq<Client>, server: ServerPc, log: seq<Ticket>, n: nat)
    requires ClientsInv(cs, server, log) && server.Write? && server.req.pid < |cs|
    requires server.req.seqLen == cs[server.req.pid].len && NoTicket(log, server.req.pid)
    requires cs[server.req.pid].pc in {Reading(None), Dead}
    ensures ClientsInv(AfterWrite(cs, server.req.pid, n), Advance(server.req),
                       log + [Ticket(server.req.pid, n, server.req.seqLen)])
  {
    var r := server.req;
    var t, cs' := Ticket(r.pid, n, r.seqLen), AfterWrite(cs, r.pid, n);
    assert (log + [t])[|log|] == t;
    forall k | 0 <= k < |cs| ensures ClientInv(k, cs'[k], Advance(r), log + [t]) {
      assert ClientInv(k, cs[k], server, log);
    }
  }

  lemma LostWhenWritten(s: State)
    requires ServerInv(s.server, s.requests, s.clients) && LostAreRefused(s)
    requires s.server.Write? && CanMove(s, Server)
    ensures LostAreRefused(Apply(s, Server))
  {
    var s', r := Apply(s, Server), s.server.req;
    forall k | 0 <= k < |s.clients| ensures Lost(s', k) <==> Refused(s'.rounds, k) && !s'.clients[k].pc.Dead? {
      RefusedAdded(s.rounds, Request(r.pid, r.seqLen, true, s.clients[r.pid].pc.Reading?), k);
      assert Lost(s', k) <==> Lost(s, k);
    }
  }

  lemma InvAdvance(s: State)
    requires Inv(s) && s.server.Advance? && CanMove(s, Server)
    ensures Inv(Apply(s, Server))
  {
    var s' := Apply(s, Server);
    assert forall k :: 0 <= k < |s.clients| ==> (Lost(s', k) <==> Lost(s, k));
  }

  lemma InvSend(s: State, k: nat)
    requires Inv(s) && CanMove(s, ClientMove(k)) && s.clients[k].pc == ToSend
    ensures Inv(Apply(s, ClientMove(k)))
  {
    var s' := Apply(s, ClientMove(k));
    var q, q' := s.requests, s'.requests;
    assert ClientInv(k, s.clients[k], s.server, Served(s.rounds));
    assert !Lost(s, k);
    forall j | 0 <= j < |s.clients| ensures Lost(s', j) <==> Lost(s, j) {
      assert q'[|q|].pid == k;
      assert forall i :: 0 <= i < |q| ==> q'[i] == q[i];
      assert NotQueued(q', j) <==> NotQueued(q, j) && j != k;
    }
  }

  lemma InvProceed(s: State, k: nat)
    requires Inv(s) && CanMove(s, ClientMove(k)) && s.clients[k].pc != ToSend
    ensures Inv(Apply(s, ClientMove(k)))
  {
    var s' := Apply(s, ClientMove(k));
    assert ClientInv(k, s.clients[k], s.server, Served(s.rounds));
    assert forall j :: 0 <= j < |s.clients| ==> (Lost(s', j) <==> Lost(s, j));
  }

  lemma InvKill(s: State, k: nat)
    requires Inv(s) && CanMove(s, Kill(k))
    ensures Inv(Apply(s, Kill(k)))
  {
    var s' := Apply(s, Kill(k));
    assert forall j :: 0 <= j < |s.clients| ==> (Lost(s', j) <==> Lost(s, j) && j != k);
  }

  lemma InvNext(s: State, s': State)
    requires Inv(s) && Next(s, s')
    ensures Inv(s')
  {
    var m :| CanMove(s, m) && s' == Apply(s, m);
    match m {
      case Server =>
        match s.server {
          case Receive => InvReceive(s);
          case Open(_) => InvOpen(s);
          case Write(_) => InvWrite(s);
          case Advance(_) => InvAdvance(s);
        }
      case ClientMove(k) =>
        if s.clients[k].pc == ToSend { InvSend(s, k); } else { InvProceed(s, k); }
      case Kill(k) => InvKill(s, k);
    }
  }

  lemma InvOnRun(run: seq<State>, i: nat)
    requires IsRun(run) && i < |run|
    ensures Inv(run[i])
  {
    if i == 0 {
      InvInit(run[0]);
    } else {
      InvOnRun(run, i - 1);
      assert Next(run[i - 1], run[i - 1 + 1]);
      InvNext(run[i - 1], run[i]);
    }
  }

  // ---------- main results ----------

  /**
    Every client that has an answer has the ticket issued to it; the tickets
    are those of the allocator, one for each client at most.
   */
  lemma Service(run: seq<State>, i: nat)
    requires IsRun(run) && i < |run|
    ensures var s := run[i]; var log := Served(s.rounds);
      && Allocated(log) && OneEach(log)
      && (s.server.Receive? ==> s.seqNum == Total(log))
      && (forall k :: 0 <= k < |s.clients| && s.clients[k].pc.Done? ==>
            Ticket(k, s.clients[k].pc.seqNum, s.clients[k].len) in log)
  {
    var s := run[i];
    InvOnRun(run, i);
    ServedIsAllocated(s.rounds);
    forall k | 0 <= k < |s.clients| && s.clients[k].pc.Done?
      ensures Ticket(k, s.clients[k].pc.seqNum, s.clients[k].len) in Served(s.rounds)
    {
      assert ClientInv(k, s.clients[k], s.server, Served(s.rounds));
    }
  }

  // ---------- first come, first served ----------

  function Asking(q: seq<Req>): seq<nat> {
    seq(|q|, i requires 0 <= i < |q| => q[i].pid)
  }

  function Met(rounds: seq<Round>): seq<nat> {
    seq(|rounds|, i requires 0 <= i < |rounds| => if rounds[i].Request? then rounds[i].pid else 0)
  }

  function InHand(server: ServerPc): seq<nat> {
    if server.Open? || server.Write? then [server.req.pid] else []
  }

  /** Every request sent was dealt with, is in the server's hand or waits in its FIFO, in this order. */
  ghost predicate OrderInv(s: State) {
    s.sent == Met(s.rounds) + InHand(s.server) + Asking(s.requests)
  }

  lemma OrderNext(s: State, s': State)
    requires OrderInv(s) && Next(s, s')
    ensures OrderInv(s')
  {
    var m :| CanMove(s, m) && s' == Apply(s, m);
    if m == Server && s.server.Receive? {
      assert Asking(s.requests) == [s.requests[0].pid] + Asking(s.requests[1..]);
    } else if m == Server && s'.rounds != s.rounds {
      assert Met(s'.rounds) == Met(s.rounds) + [s.server.req.pid];
    } else if m.ClientMove? && s.clients[m.k].pc == ToSend {
      assert Asking(s'.requests) == Asking(s.requests) + [m.k];
    }
  }

  /** Requests are dealt with in the order in which they were sent. */
  lemma {:induction false} ServedInOrder(run: seq<State>, i: nat)
    requires IsRun(run) && i < |run|
    ensures OrderInv(run[i]) && Met(run[i].rounds) <= run[i].sent
  {
    if i > 0 {
      ServedInOrder(run, i - 1);
      assert Next(run[i - 1], run[i - 1 + 1]);
      OrderNext(run[i - 1], run[i]);
    }
  }

  // ---------- the race ----------

  /** The race: an open meets a client that has sent its request and not yet opened its FIFO. */
  ghost predicate LosesRace(s: State, k: nat) {
    k < |s.clients| && s.server.Open? && s.server.req.pid == k && s.clients[k].pc == ToOpen
  }

  /** A client is given up on in the step in which the server loses patience, and stays so as long as it lives. */
  lemma LostStep(s: State, m: Move, k: nat)
    requires Inv(s) && CanMove(s, m) && k < |s.clients|
    ensures |Apply(s, m).clients| == |s.clients|
    ensures s.clients[k].pc.Dead? ==> Apply(s, m).clients[k].pc.Dead?
    ensures Lost(Apply(s, m), k)
       <==> (Lost(s, k) || (m == Server && LosesRace(s, k))) && !Apply(s, m).clients[k].pc.Dead?
  {
    var s' := Apply(s, m);
    InvNext(s, s');
    if s.server.Open? && m == Server {
      var r := s.server.req;
      RefusedAdded(s.rounds, Request(r.pid, r.seqLen, false, false), k);
    } else if s.server.Write? && m == Server {
      var r := s.server.req;
      RefusedAdded(s.rounds, Request(r.pid, r.seqLen, true, s.clients[r.pid].pc.Reading?), k);
    }
  }

  /** The server's open in step i comes before the client's own. */
  ghost predicate RaceAt(run: seq<State>, i: nat, k: nat) {
    i + 1 < |run| && LosesRace(run[i], k) && run[i + 1] == Apply(run[i], Server)
  }

  ghost predicate RaceBefore(run: seq<State>, n: nat, k: nat) {
    exists i: nat :: i < n && RaceAt(run, i, k)
  }

  lemma RaceBeforeNext(run: seq<State>, n: nat, k: nat)
    ensures RaceBefore(run, n + 1, k) <==> RaceBefore(run, n, k) || RaceAt(run, n, k)
  {
  }

  lemma LostNext(s: State, s': State, k: nat)
    requires Inv(s) && Next(s, s') && k < |s.clients|
    ensures |s'.clients| == |s.clients|
    ensures s.clients[k].pc.Dead? ==> s'.clients[k].pc.Dead?
    ensures Lost(s', k) <==> (Lost(s, k) || (LosesRace(s, k) && s' == Apply(s, Server))) && !s'.clients[k].pc.Dead?
  {
    var m :| CanMove(s, m) && s' == Apply(s, m);
    LostStep(s, m, k);
    if LosesRace(s, k) { LostStep(s, Server, k); }
  }

  /** A client that lives waits for ever exactly if somewhere in the run it lost the race. */
  lemma {:induction false} LostIffRaceLost(run: seq<State>, n: nat, k: nat)
    requires IsRun(run) && n < |run| && k < |run[0].clients|
    ensures |run[n].clients| == |run[0].clients|
    ensures Lost(run[n], k) <==> RaceBefore(run, n, k) && !run[n].clients[k].pc.Dead?
  {
    if n > 0 {
      var s, s' := run[n - 1], run[n];
      LostIffRaceLost(run, n - 1, k);
      InvOnRun(run, n - 1);
      assert Next(run[n - 1], run[n - 1 + 1]);
      LostNext(s, s', k);
      RaceBeforeNext(run, n - 1, k);
    }
  }

  // ---------- numbers that nobody gets ----------

  /** A request for at least `least` numbers was given its ticket, and the write failed. */
  predicate Misses(r: Round, least: nat) {
    r.Request? && r.opens && !r.writes && r.seqLen >= least
  }

  ghost predicate Missed(rounds: seq<Round>, least: nat) {
    exists i :: 0 <= i < |rounds| && Misses(rounds[i], least)
  }

  lemma MissedAdded(rounds: seq<Round>, r: Round, least: nat)
    ensures Missed(rounds + [r], least) <==> Missed(rounds, least) || Misses(r, least)
  {
    var rs := rounds + [r];
    assert rs[|rounds|] == r;
    assert forall i :: 0 <= i < |rounds| ==> rs[i] == rounds[i];
  }

  /** The server is about to write to a client that has died since its FIFO was opened. */
  ghost predicate Doomed(s: State, least: nat) {
    && s.server.Write? && s.server.req.pid < |s.clients| && s.clients[s.server.req.pid].pc.Dead?
    && s.server.req.seqLen >= least
  }

  /** In this step a client dies that the server is about to write to. */
  ghost predicate Dies(s: State, s': State, least: nat) {
    && s.server.Write? && s.server.req.seqLen >= least
    && CanMove(s, Kill(s.server.req.pid)) && s' == Apply(s, Kill(s.server.req.pid))
  }

  lemma MissedNext(s: State, s': State, least: nat)
    requires Inv(s) && Next(s, s')
    ensures Missed(s'.rounds, least) || Doomed(s', least)
       <==> Missed(s.rounds, least) || Doomed(s, least) || Dies(s, s', least)
  {
    var m :| CanMove(s, m) && s' == Apply(s, m);
    match m {
      case Server => MissedInServerStep(s, least);
      case ClientMove(k) =>
        assert !s.clients[k].pc.Dead? && !s'.clients[k].pc.Dead?;
      case Kill(k) =>
    }
  }

  lemma MissedInServerStep(s: State, least: nat)
    requires Inv(s) && CanMove(s, Server)
    ensures var s' := Apply(s, Server);
      && (Missed(s'.rounds, least) || Doomed(s', least) <==> Missed(s.rounds, least) || Doomed(s, least))
      && !Dies(s, s', least)
  {
    if !s.server.Receive? {
      var r := s.server.req;
      var round := Request(r.pid, r.seqLen, s.server.Write?, s.server.Write? && s.clients[r.pid].pc.Reading?);
      MissedAdded(s.rounds, round, least);
    }
  }

  ghost predicate DiedBefore(run: seq<State>, n: nat, least: nat)
    requires n < |run|
  {
    exists i: nat :: i < n && Dies(run[i], run[i + 1], least)
  }

  lemma DiedBeforeNext(run: seq<State>, n: nat, least: nat)
    requires n + 1 < |run|
    ensures DiedBefore(run, n + 1, least) <==> DiedBefore(run, n, least) || Dies(run[n], run[n + 1], least)
  {
  }

  lemma {:induction false} MissedIffDied(run: seq<State>, n: nat, least: nat)
    requires IsRun(run) && n < |run|
    ensures Missed(run[n].rounds, least) || Doomed(run[n], least) <==> DiedBefore(run, n, least)
  {
    if n > 0 {
      MissedIffDied(run, n - 1, least);
      InvOnRun(run, n - 1);
      assert Next(run[n - 1], run[n - 1 + 1]);
      MissedNext(run[n - 1], run[n], least);
      DiedBeforeNext(run, n - 1, least);
    }
  }

  /**
    Between requests: some number given out reaches nobody if and only if a
    client that asked for at least one died between the server's open and its
    write, and some ticket reaches nobody if and only if any client did.
   */
  lemma GapIffDied(run: seq<State>, n: nat)
    requires IsRun(run) && n < |run| && run[n].server.Receive?
    ensures Gap(run[n].rounds) <==> DiedBefore(run, n, 1)
    ensures |Delivered(run[n].rounds)| < |Served(run[n].rounds)| <==> DiedBefore(run, n, 0)
  {
    var rounds := run[n].rounds;
    MissedIffDied(run, n, 0);
    MissedIffDied(run, n, 1);
    GapIffWriteFailed(rounds);
    AllDeliveredIffHeard(rounds);
    assert forall i :: 0 <= i < |rounds| ==> (Misses(rounds[i], 1) <==> LosesNumbers(rounds[i]));
    assert forall i :: 0 <= i < |rounds| ==> (Misses(rounds[i], 0) <==> !Heard(rounds[i]));
  }

  // ---------- how a run ends ----------

  function ClientSteps(c: Client): nat {
    match c.pc
    case ToSend => 7
    case ToOpen => 2
    case Opening => 1
    case Reading(_) => 1
    case Done(_) => 0
    case Dead => 0
  }

  function ServerSteps(server: ServerPc): nat {
    match server case Receive => 0 case Open(_) => 3 case Write(_) => 2 case Advance(_) => 1
  }

  function Measure(s: State): nat {
    Sum(s.clients, ClientSteps) + 4 * |s.requests| + ServerSteps(s.server)
  }

  lemma SetPcCounts(cs: seq<Client>, k: nat, pc: ClientPc)
    requires k < |cs|
    ensures Sum(SetPc(cs, k, pc), ClientSteps)
         == Sum(cs, ClientSteps) - ClientSteps(cs[k]) + ClientSteps(Client(cs[k].len, pc))
  {
    SumUpdate(cs, k, cs[k].(pc := pc), ClientSteps);
  }

  lemma ServerStepCounts(s: State)
    requires CanMove(s, Server)
    requires s.server.Write? ==> s.clients[s.server.req.pid].pc in {Reading(None), Dead}
    ensures Measure(Apply(s, Server)) < Measure(s) && |Apply(s, Server).clients| == |s.clients|
  {
    match s.server {
      case Receive =>
      case Open(r) =>
        if s.clients[r.pid].pc == Opening { SetPcCounts(s.clients, r.pid, Reading(None)); }
      case Write(r) =>
        if s.clients[r.pid].pc.Reading? { SetPcCounts(s.clients, r.pid, Reading(Some(s.seqNum))); }
      case Advance(_) =>
    }
  }

  lemma ClientStepCounts(s: State, k: nat)
    requires CanMove(s, ClientMove(k))
    ensures Measure(Apply(s, ClientMove(k))) < Measure(s) && |Apply(s, ClientMove(k)).clients| == |s.clients|
  {
    match s.clients[k].pc {
      case ToSend => SetPcCounts(s.clients, k, ToOpen);
      case ToOpen => SetPcCounts(s.clients, k, Opening);
      case Reading(fifo) => SetPcCounts(s.clients, k, Done(fifo.value));
    }
  }

  lemma EveryStepCounts(s: State, s': State)
    requires Inv(s) && Next(s, s')
    ensures Measure(s') < Measure(s) && |s'.clients| == |s.clients|
  {
    var m :| CanMove(s, m) && s' == Apply(s, m);
    match m {
      case Server => ServerStepCounts(s);
      case ClientMove(k) => ClientStepCounts(s, k);
      case Kill(k) => SetPcCounts(s.clients, k, Dead);
    }
  }

  lemma {:induction false} MeasureAlongRun(run: seq<State>, i: nat)
    requires IsRun(run) && i < |run|
    ensures Measure(run[i]) + i <= Measure(run[0])
    ensures |run[i].clients| == |run[0].clients|
  {
    if i > 0 {
      var s, s' := run[i - 1], run[i];
      assert Next(run[i - 1], run[i - 1 + 1]);
      InvOnRun(run, i - 1);
      EveryStepCounts(s, s');
      MeasureAlongRun(run, i - 1);
    }
  }

  /** Nobody can go on; whoever waits can still die. */
  ghost predicate Stuck(s: State) {
    forall m: Move :: !m.Kill? ==> !CanMove(s, m)
  }

  lemma NobodyWaits(s: State, k: nat)
    requires Inv(s) && Stuck(s) && k < |s.clients|
    ensures s.clients[k].pc.Done? || s.clients[k].pc.Dead? || (s.clients[k].pc == Opening && Lost(s, k))
  {
    assert !CanMove(s, Server) && !CanMove(s, ClientMove(k));
    assert ClientInv(k, s.clients[k], s.server, Served(s.rounds));
    assert s.server.Receive? && s.requests == [];
  }

  /** Client k died, or hangs in its open if it lost the race, or else has its answer. */
  ghost predicate Ended(run: seq<State>, n: nat, k: nat)
    requires n < |run| && k < |run[n].clients|
  {
    var pc := run[n].clients[k].pc;
    pc.Dead? || if RaceBefore(run, n, k) then pc == Opening else pc.Done?
  }

  ghost predicate AllEnded(run: seq<State>, n: nat)
    requires n < |run|
  {
    forall k :: 0 <= k < |run[n].clients| ==> Ended(run, n, k)
  }

  /**
    Every run ends after at most seven steps per client.  When it can go no
    further, the clients that lost the race hang in their open, and all others
    that live have their answers.
   */
  lemma AnsweredUnlessRaceLost(run: seq<State>)
    requires IsRun(run)
    ensures |run| <= 7 * |run[0].clients| + 1
    ensures |run[|run| - 1].clients| == |run[0].clients|
    ensures Stuck(run[|run| - 1]) ==> AllEnded(run, |run| - 1)
  {
    var last := |run| - 1;
    SumOfEqual(run[0].clients, ClientSteps, 7);
    MeasureAlongRun(run, last);
    InvOnRun(run, last);
    if Stuck(run[last]) {
      forall k | 0 <= k < |run[0].clients| ensures Ended(run, last, k) {
        NobodyWaits(run[last], k);
        LostIffRaceLost(run, last, k);
      }
    }
  }

  /** Making the FIFO before sending the request does not prevent the race: any client can lose it. */
  lemma AnyoneMayLose(cs: seq<Client>, k: nat) returns (run: seq<State>)
    requires (forall j :: 0 <= j < |cs| ==> cs[j].pc == ToSend) && k < |cs|
    ensures IsRun(run) && run[0].clients == cs && RaceAt(run, 2, k)
    ensures |run[3].clients| == |cs| && Lost(run[3], k)
  {
    var s0 := State([], Receive, 0, cs, [], []);
    var s1 := Apply(s0, ClientMove(k));
    var s2 := Apply(s1, Server);
    var s3 := Apply(s2, Server);
    run := [s0, s1, s2, s3];
    assert Next(s0, s1) && Next(s1, s2) && Next(s2, s3) by {
      assert CanMove(s0, ClientMove(k)) && CanMove(s1, Server) && CanMove(s2, Server);
    }
    forall i | 0 <= i < |run| - 1 ensures Next(run[i], run[i + 1]) {
      assert i == 0 || i == 1 || i == 2;
    }
  }

  /** Any client that asks for a number can die at the wrong moment and leave a gap. */
  lemma AnyoneMayLeaveAGap(cs: seq<Client>, k: nat) returns (run: seq<State>)
    requires (forall j :: 0 <= j < |cs| ==> cs[j].pc == ToSend) && k < |cs| && cs[k].len > 0
    ensures IsRun(run) && run[0].clients == cs && Gap(run[|run| - 1].rounds)
  {
    var s0 := State([], Receive, 0, cs, [], []);
    var s1 := Apply(s0, ClientMove(k));
    var s2 := Apply(s1, ClientMove(k));
    var s3 := Apply(s2, Server);
    var s4 := Apply(s3, Server);
    var s5 := Apply(s4, Kill(k));
    var s6 := Apply(s5, Server);
    run := [s0, s1, s2, s3, s4, s5, s6];
    assert Next(s0, s1) && Next(s1, s2) && Next(s2, s3) && Next(s3, s4) && Next(s4, s5) && Next(s5, s6) by {
      assert CanMove(s0, ClientMove(k)) && CanMove(s1, ClientMove(k)) && CanMove(s2, Server);
      assert CanMove(s3, Server) && CanMove(s4, Kill(k)) && CanMove(s5, Server);
    }
    forall i | 0 <= i < |run| - 1 ensures Next(run[i], run[i + 1]) {
      assert i == 0 || i == 1 || i == 2 || i == 3 || i == 4 || i == 5;
    }
    assert LosesNumbers(s6.rounds[0]);
    GapIffWriteFailed(s6.rounds);
  }
}
