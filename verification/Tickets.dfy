/**
  A ticket allocator: every request gets the next range of numbers.  Both
  sequence-number servers implement it.
 */
module Tickets {

  /** The range [start, start + len) issued to a client. */
  datatype Ticket = Ticket(client: nat, start: nat, len: nat)

  function Total(ts: seq<Ticket>): nat {
    if ts == [] then 0 else Total(ts[..|ts| - 1]) + ts[|ts| - 1].len
  }

  /** The tickets were issued by the allocator, in this order. */
  ghost predicate Allocated(ts: seq<Ticket>) {
    forall i :: 0 <= i < |ts| ==> ts[i].start == Total(ts[..i])
  }

  /** The next ticket. */
  function Issue(ts: seq<Ticket>, client: nat, len: nat): Ticket {
    Ticket(client, Total(ts), len)
  }

  lemma IssueKeeps(ts: seq<Ticket>, client: nat, len: nat)
    requires Allocated(ts)
    ensures Allocated(ts + [Issue(ts, client, len)])
    ensures Total(ts + [Issue(ts, client, len)]) == Total(ts) + len
  {
    var us := ts + [Issue(ts, client, len)];
    assert us[..|ts|] == ts;
    forall i | 0 <= i < |us| ensures us[i].start == Total(us[..i]) {
      assert i < |ts| ==> us[..i] == ts[..i];
    }
  }

  lemma {:induction false} TotalMonotone(ts: seq<Ticket>, i: nat, j: nat)
    requires i <= j <= |ts|
    ensures Total(ts[..i]) <= Total(ts[..j])
    decreases j - i
  {
    if i < j {
      TotalMonotone(ts, i, j - 1);
      assert ts[..j][..j - 1] == ts[..j - 1];
    }
  }

  /** Ranges follow one another without overlap. */
  lemma RangesInOrder(ts: seq<Ticket>, i: nat, j: nat)
    requires Allocated(ts) && i < j < |ts|
    ensures ts[i].start + ts[i].len <= ts[j].start
  {
    TotalMonotone(ts, i + 1, j);
    assert ts[..i + 1][..i] == ts[..i];
  }

  /** Number x lies in the range of exactly one ticket, and every number below the total does. */
  lemma {:induction false} RangesTile(ts: seq<Ticket>, x: nat) returns (i: nat)
    requires Allocated(ts) && x < Total(ts)
    ensures i < |ts| && ts[i].start <= x < ts[i].start + ts[i].len
    ensures forall j :: 0 <= j < |ts| && ts[j].start <= x < ts[j].start + ts[j].len ==> j == i
  {
    var last := |ts| - 1;
    assert ts[..last] + [ts[last]] == ts;
    if x >= Total(ts[..last]) {
      i := last;
    } else {
      assert forall k :: 0 <= k < last ==> ts[..last][..k] == ts[..k];
      i := RangesTile(ts[..last], x);
    }
    forall j | 0 <= j < |ts| && ts[j].start <= x < ts[j].start + ts[j].len ensures j == i {
      if j < i { RangesInOrder(ts, j, i); }
      if i < j { RangesInOrder(ts, i, j); }
    }
  }
}
