/**
  The FIFO sequence-number server of HW8/44_6.  Requests come in one after the
  other; each names its client, whose FIFO may fail to open or to take the answer.
 */
module FifoServer {
  import opened Sums
  import opened Tickets

  /** What one round of the server meets. */
  datatype Round =
    | Garbled                     // short read: discarded
    | Request(pid: nat, seqLen: nat, opens: bool, writes: bool)

  /** The requests whose client FIFO could be opened, each with its ticket. */
  function Served(rounds: seq<Round>): seq<Ticket> {
    if rounds == [] then []
    else
      var last := |rounds| - 1;
      var ts := Served(rounds[..last]);
      match rounds[last]
      case Garbled => ts
      case Request(pid, len, opens, _) => if opens then ts + [Issue(ts, pid, len)] else ts
  }

  /** The tickets whose response reached the client, as positions in the list of tickets. */
  function Delivered(rounds: seq<Round>): seq<nat> {
    if rounds == [] then []
    else
      var last := |rounds| - 1;
      var ds := Delivered(rounds[..last]);
      if rounds[last].Request? && rounds[last].opens && rounds[last].writes
      then ds + [|Served(rounds[..last])|] else ds
  }

  /** Positions in ascending order, all below n. */
  ghost predicate Positions(ds: seq<nat>, n: nat) {
    && (forall k :: 0 <= k < |ds| ==> ds[k] < n)
    && (forall a, b :: 0 <= a < b < |ds| ==> ds[a] < ds[b])
  }

  lemma {:induction false} ServedIsAllocated(rounds: seq<Round>)
    ensures Allocated(Served(rounds))
    ensures Positions(Delivered(rounds), |Served(rounds)|)
  {
    if rounds != [] {
      var last := |rounds| - 1;
      var init := rounds[..last];
      ServedIsAllocated(init);
      if rounds[last].Request? {
        IssueKeeps(Served(init), rounds[last].pid, rounds[last].seqLen);
      }
    }
  }

  /** The answer written to a client. */
  datatype Response = Response(pid: nat, seqNum: nat)

  /** Each answer names a client and the start of the ticket issued to it. */
  ghost predicate Answered(answers: seq<Response>, ts: seq<Ticket>, ds: seq<nat>) {
    && |answers| == |ds|
    && forall k :: 0 <= k < |ds| ==> ds[k] < |ts| && answers[k] == Response(ts[ds[k]].client, ts[ds[k]].start)
  }

  /** One more ticket, with or without its answer. */
  lemma AnsweredNext(answers: seq<Response>, ts: seq<Ticket>, ds: seq<nat>, t: Ticket)
    requires Answered(answers, ts, ds)
    ensures Answered(answers, ts + [t], ds)
    ensures Answered(answers + [Response(t.client, t.start)], ts + [t], ds + [|ts|])
  {
  }

  lemma NextRound(rounds: seq<Round>, i: nat)
    requires i < |rounds|
    ensures var ts, ds := Served(rounds[..i]), Delivered(rounds[..i]);
      if rounds[i].Request? && rounds[i].opens then
        var t := Issue(ts, rounds[i].pid, rounds[i].seqLen);
        && Served(rounds[..i + 1]) == ts + [t] && Total(ts + [t]) == Total(ts) + rounds[i].seqLen
        && Delivered(rounds[..i + 1]) == (if rounds[i].writes then ds + [|ts|] else ds)
      else Served(rounds[..i + 1]) == ts && Delivered(rounds[..i + 1]) == ds
  {
    assert rounds[..i + 1][..i] == rounds[..i];
    ServedIsAllocated(rounds[..i]);
    if rounds[i].Request? {
      IssueKeeps(Served(rounds[..i]), rounds[i].pid, rounds[i].seqLen);
    }
  }

  /** The server loop, with the answers that were written successfully. */
  method Serve(rounds: seq<Round>) returns (seqNum: nat, answers: seq<Response>)
    ensures seqNum == Total(Served(rounds))
    ensures Answered(answers, Served(rounds), Delivered(rounds))
  {
    seqNum, answers := 0, [];
    ghost var ts, ds := [], [];
    for i := 0 to |rounds|
      invariant ts == Served(rounds[..i]) && ds == Delivered(rounds[..i])
      invariant seqNum == Total(ts) && Answered(answers, ts, ds)
    {
      var r := rounds[i];
      NextRound(rounds, i);
      if r.Garbled? {
        continue;
      }
      if !r.opens {
        continue;
      }
      ghost var t := Issue(ts, r.pid, r.seqLen);
      AnsweredNext(answers, ts, ds, t);
      if r.writes {
        answers := answers + [Response(r.pid, seqNum)];
        ds := ds + [|ts|];
      }
      ts := ts + [t];
      seqNum := seqNum + r.seqLen;
    }
    assert rounds[..|rounds|] == rounds;
  }

  /** No two answers that were delivered overlap, whatever failed in between. */
  lemma DeliveredDisjoint(rounds: seq<Round>, a: nat, b: nat)
    requires a < b < |Delivered(rounds)|
    ensures var ts, ds := Served(rounds), Delivered(rounds);
      ds[a] < ds[b] < |ts| && ts[ds[a]].start + ts[ds[a]].len <= ts[ds[b]].start
  {
    ServedIsAllocated(rounds);
    var ts, ds := Served(rounds), Delivered(rounds);
    RangesInOrder(ts, ds[a], ds[b]);
  }

  /** Not a request that was given a ticket and never heard of it. */
  predicate Heard(r: Round) {
    r.Request? && r.opens ==> r.writes
  }

  /** Every ticket issued is delivered exactly when no write to an open client FIFO failed. */
  lemma {:induction false} AllDeliveredIffHeard(rounds: seq<Round>)
    ensures |Delivered(rounds)| <= |Served(rounds)|
    ensures |Delivered(rounds)| == |Served(rounds)| <==> forall i :: 0 <= i < |rounds| ==> Heard(rounds[i])
  {
    if rounds != [] {
      var last := |rounds| - 1;
      var init := rounds[..last];
      AllDeliveredIffHeard(init);
      assert forall i :: 0 <= i < last ==> rounds[i] == init[i];
      if |Delivered(rounds)| == |Served(rounds)| {
        assert Heard(rounds[last]);
        assert |Delivered(init)| == |Served(init)|;
      } else if Heard(rounds[last]) {
        assert |Delivered(init)| != |Served(init)|;
        var i :| 0 <= i < last && !Heard(init[i]);
        assert !Heard(rounds[i]);
      }
    }
  }

  // ---------- numbers that nobody got ----------

  ghost predicate InRange(t: Ticket, x: nat) {
    t.start <= x < t.start + t.len
  }

  ghost predicate InDelivered(ts: seq<Ticket>, ds: seq<nat>, x: nat) {
    exists k :: 0 <= k < |ds| && ds[k] < |ts| && InRange(ts[ds[k]], x)
  }

  /** A number was given out that lies in the range of no answer. */
  ghost predicate Gap(rounds: seq<Round>) {
    exists x: nat :: x < Total(Served(rounds)) && !InDelivered(Served(rounds), Delivered(rounds), x)
  }

  /** The client asked for numbers, and its FIFO opened but did not take the answer. */
  predicate LosesNumbers(r: Round) {
    r.Request? && r.opens && !r.writes && r.seqLen > 0
  }

  ghost predicate SomeLost(rounds: seq<Round>) {
    exists i :: 0 <= i < |rounds| && LosesNumbers(rounds[i])
  }

  lemma SomeLostNext(rounds: seq<Round>)
    requires rounds != []
    ensures SomeLost(rounds) <==> SomeLost(rounds[..|rounds| - 1]) || LosesNumbers(rounds[|rounds| - 1])
  {
    var init := rounds[..|rounds| - 1];
    assert forall i :: 0 <= i < |init| ==> rounds[i] == init[i];
  }

  ghost predicate Undelivered(ts: seq<Ticket>, ds: seq<nat>, i: nat) {
    i < |ts| && ts[i].len > 0 && i !in ds
  }

  ghost predicate SomeUndelivered(ts: seq<Ticket>, ds: seq<nat>) {
    exists i: nat :: Undelivered(ts, ds, i)
  }

  lemma SomeUndeliveredNext(ts: seq<Ticket>, ds: seq<nat>, t: Ticket, writes: bool)
    requires Positions(ds, |ts|)
    ensures SomeUndelivered(ts + [t], if writes then ds + [|ts|] else ds)
       <==> SomeUndelivered(ts, ds) || (t.len > 0 && !writes)
  {
    var ts', ds' := ts + [t], if writes then ds + [|ts|] else ds;
    forall i: nat
      ensures Undelivered(ts', ds', i) <==> Undelivered(ts, ds, i) || (i == |ts| && t.len > 0 && !writes)
    {
    }
    if t.len > 0 && !writes { assert Undelivered(ts', ds', |ts|); }
  }

  lemma {:induction false} UndeliveredIffLost(rounds: seq<Round>)
    ensures SomeUndelivered(Served(rounds), Delivered(rounds)) <==> SomeLost(rounds)
  {
    if rounds != [] {
      var init, r := rounds[..|rounds| - 1], rounds[|rounds| - 1];
      UndeliveredIffLost(init);
      SomeLostNext(rounds);
      if r.Request? && r.opens {
        ServedIsAllocated(init);
        SomeUndeliveredNext(Served(init), Delivered(init), Issue(Served(init), r.pid, r.seqLen), r.writes);
      }
    }
  }

  /** A number lies in a delivered range exactly if the one ticket it belongs to was delivered. */
  lemma DeliveredIffTicket(ts: seq<Ticket>, ds: seq<nat>, x: nat, i: nat)
    requires Allocated(ts) && Positions(ds, |ts|) && i < |ts| && InRange(ts[i], x)
    ensures InDelivered(ts, ds, x) <==> i in ds
  {
    forall k | 0 <= k < |ds| && InRange(ts[ds[k]], x) ensures ds[k] == i {
      if ds[k] < i { RangesInOrder(ts, ds[k], i); }
      if i < ds[k] { RangesInOrder(ts, i, ds[k]); }
    }
    if i in ds {
      var k :| 0 <= k < |ds| && ds[k] == i;
      assert InRange(ts[ds[k]], x);
    }
  }

  lemma StartBelowTotal(ts: seq<Ticket>, i: nat)
    requires Allocated(ts) && i < |ts| && ts[i].len > 0
    ensures ts[i].start < Total(ts)
  {
    TotalMonotone(ts, i + 1, |ts|);
    var us := ts[..i + 1];
    assert us[..i] == ts[..i] && us[i] == ts[i];
    assert Total(us) == ts[i].start + ts[i].len;
    assert ts[..|ts|] == ts;
  }

  lemma GapIffUndelivered(rounds: seq<Round>)
    ensures Gap(rounds) <==> SomeUndelivered(Served(rounds), Delivered(rounds))
  {
    var ts, ds := Served(rounds), Delivered(rounds);
    ServedIsAllocated(rounds);
    if Gap(rounds) {
      var x: nat :| x < Total(ts) && !InDelivered(ts, ds, x);
      var i := RangesTile(ts, x);
      DeliveredIffTicket(ts, ds, x, i);
      assert Undelivered(ts, ds, i);
    }
    if i: nat :| Undelivered(ts, ds, i) {
      StartBelowTotal(ts, i);
      DeliveredIffTicket(ts, ds, ts[i].start, i);
    }
  }

  /**
    Some number given out reaches nobody if and only if a client that asked for
    at least one number had its FIFO open and did not get the answer.
   */
  lemma GapIffWriteFailed(rounds: seq<Round>)
    ensures Gap(rounds) <==> SomeLost(rounds)
  {
    GapIffUndelivered(rounds);
    UndeliveredIffLost(rounds);
  }

  // ---------- the numbers said as plain sums ----------

  /** The numbers that a round takes: those asked for, if the client's FIFO opened. */
  function Taken(r: Round): nat {
    if r.Request? && r.opens then r.seqLen else 0
  }

  /** The counter is the sum of the lengths of the requests whose FIFO opened. */
  lemma {:induction false} TotalIsSum(rounds: seq<Round>)
    ensures Total(Served(rounds)) == Sum(rounds, Taken)
  {
    if rounds != [] {
      var last := |rounds| - 1;
      TotalIsSum(rounds[..last]);
      NextRound(rounds, last);
      assert rounds[..last + 1] == rounds;
    }
  }

  /** A request whose FIFO opens gets the ticket that starts at the sum of the lengths of those before it. */
  lemma {:induction false} TicketOfRound(rounds: seq<Round>, i: nat) returns (k: nat)
    requires i < |rounds| && rounds[i].Request? && rounds[i].opens
    ensures k < |Served(rounds)|
    ensures Served(rounds)[k] == Ticket(rounds[i].pid, Sum(rounds[..i], Taken), rounds[i].seqLen)
    ensures rounds[i].writes <==> k in Delivered(rounds)
  {
    var last := |rounds| - 1;
    var init := rounds[..last];
    NextRound(rounds, last);
    assert rounds[..last + 1] == rounds;
    ServedIsAllocated(init);
    if i == last {
      k := |Served(init)|;
      TotalIsSum(init);
    } else {
      k := TicketOfRound(init, i);
      assert init[..i] == rounds[..i];
    }
  }
}
