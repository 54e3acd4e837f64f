/**
  The lossy broadcast of HW10: one producer writes message i into slot i modulo
  b of a shared ring and signals the n consumers one after the other.  A signal
  that is sent while one is pending is lost, the producer may give up a round
  after any signal, and the shared counters are incremented by a load and a
  store.  Every access to shared state is a step, interleaved in any order.
 */
module Ring {

  import opened Sums
  import opened Wrappers

  /** m messages, n consumers, b slots. */
  datatype Config = Config(m: nat, n: nat, b: nat)

  datatype ProducerPc =
    | Store(i: nat)           // about to write message i (all done when i == m)
    | Send(i: nat, to: nat)   // about to signal consumer `to`

  datatype ConsumerPc =
    | Wait
    | Check(v: nat)                // got signal value v, about to look into the slot
    | Hit(v: nat)                  // about to load cnt
    | HitStore(v: nat, tmp: nat)   // about to store cnt
    | Miss(v: nat)                 // the same for loss_cnt
    | MissStore(v: nat, tmp: nat)
    | After(v: nat)                // end of the round
    | Gone

  /** A consumer, with a history of what became of the messages sent to it. */
  datatype Consumer = Consumer(
    pc: ConsumerPc, pending: Option<nat>,
    handled: seq<nat>,        // signal values in the order in which they were taken
    received: set<nat>, overwritten: set<nat>,
    coalesced: set<nat>,      // sent while another signal was pending
    skipped: set<nat>)        // not sent: the producer had given up the round

  datatype State = State(p: ProducerPc, slots: seq<int>, cs: seq<Consumer>, cnt: nat, lossCnt: nat)

  datatype Move = Produce(timeout: bool) | Consume(c: nat)

  ghost predicate Init(cfg: Config, s: State) {
    && cfg.b > 0 && s.p == Store(0) && |s.slots| == cfg.b && |s.cs| == cfg.n && s.cnt == 0 && s.lossCnt == 0
    && forall c <- s.cs :: c == Consumer(Wait, None, [], {}, {}, {}, {})
  }

  predicate CanMove(cfg: Config, s: State, mv: Move) {
    match mv
    case Produce(_) =>
      (match s.p
       case Store(i) => i < cfg.m && cfg.b == |s.slots| > 0
       case Send(i, to) => to < |s.cs|)
    case Consume(c) =>
      && c < |s.cs|
      && (s.cs[c].pc.Wait? ==> s.cs[c].pending.Some?)
      && (s.cs[c].pc.Check? ==> |s.slots| > 0)
      && !s.cs[c].pc.Gone?
  }

  /** A signal is sent: it becomes pending, or is lost. */
  function Signalled(c: Consumer, i: nat): Consumer {
    if c.pending.None? then c.(pending := Some(i)) else c.(coalesced := c.coalesced + {i})
  }

  function Skipped(c: Consumer, i: nat): Consumer {
    c.(skipped := c.skipped + {i})
  }

  /** The consumers after signalling consumer `to`; those behind it are skipped on a timeout. */
  function AfterSend(cs: seq<Consumer>, i: nat, to: nat, timeout: bool): (cs': seq<Consumer>)
    ensures |cs'| == |cs|
    ensures forall k :: 0 <= k < |cs| ==>
      cs'[k] == if k == to then Signalled(cs[k], i) else if timeout && k > to then Skipped(cs[k], i) else cs[k]
  {
    seq(|cs|, k requires 0 <= k < |cs| =>
      if k == to then Signalled(cs[k], i) else if timeout && k > to then Skipped(cs[k], i) else cs[k])
  }

  /** A step of one consumer: its new state and the two counters. */
  datatype Effect = Effect(c: Consumer, cnt: nat, lossCnt: nat)

  function Step(c: Consumer, slots: seq<int>, cnt: nat, lossCnt: nat, m: nat): Effect
    requires (c.pc.Wait? ==> c.pending.Some?) && (c.pc.Check? ==> |slots| > 0)
  {
    match c.pc
    case Wait =>
      var v := c.pending.value;
      Effect(c.(pc := Check(v), pending := None, handled := c.handled + [v]), cnt, lossCnt)
    case Check(v) =>
      if slots[v % |slots|] == v then Effect(c.(pc := Hit(v), received := c.received + {v}), cnt, lossCnt)
      else Effect(c.(pc := Miss(v), overwritten := c.overwritten + {v}), cnt, lossCnt)
    case Hit(v) => Effect(c.(pc := HitStore(v, cnt)), cnt, lossCnt)
    case HitStore(v, tmp) => Effect(c.(pc := After(v)), tmp + 1, lossCnt)
    case Miss(v) => Effect(c.(pc := MissStore(v, lossCnt)), cnt, lossCnt)
    case MissStore(v, tmp) => Effect(c.(pc := After(v)), cnt, tmp + 1)
    case After(v) => Effect(c.(pc := if v + 1 == m then Gone else Wait), cnt, lossCnt)
    case Gone => Effect(c, cnt, lossCnt)
  }

  function Apply(cfg: Config, s: State, mv: Move): State
    requires CanMove(cfg, s, mv)
  {
    match mv
    case Produce(timeout) =>
      (match s.p
       case Store(i) =>
         s.(slots := s.slots[i % |s.slots| := i], p := if |s.cs| == 0 then Store(i + 1) else Send(i, 0))
       case Send(i, to) =>
         s.(cs := AfterSend(s.cs, i, to, timeout),
            p := if timeout || to + 1 == |s.cs| then Store(i + 1) else Send(i, to + 1)))
    case Consume(k) =>
      var e := Step(s.cs[k], s.slots, s.cnt, s.lossCnt, cfg.m);
      s.(cs := s.cs[k := e.c], cnt := e.cnt, lossCnt := e.lossCnt)
  }

  ghost predicate Next(cfg: Config, s: State, s': State) {
    exists mv :: CanMove(cfg, s, mv) && s' == Apply(cfg, s, mv)
  }

  ghost predicate IsRun(cfg: Config, run: seq<State>) {
    && run != [] && Init(cfg, run[0])
    && forall i :: 0 <= i < |run| - 1 ==> Next(cfg, run[i], run[i + 1])
  }

  // ---------- the slots ----------

  /** How many messages have been written completely. */
  function Stored(p: ProducerPc): nat {
    match p case Store(i) => i case Send(i, _) => i + 1
  }

  /** The last b messages written stand in their slots. */
  ghost predicate SlotsHold(slots: seq<int>, stored: nat) {
    && |slots| > 0
    && forall j: nat :: j < stored <= j + |slots| ==> slots[j % |slots|] == j
  }

  lemma Multiples(b: nat, d: int)
    requires b > 0
    ensures d >= 1 ==> b * d >= b
    ensures d <= -1 ==> b * d + b <= 0
  {
    assert b * (d - 1) == b * d - b && b * (d + 1) == b * d + b;
  }

  /** Two messages in the same slot are at least b apart. */
  lemma SameSlot(i: nat, j: nat, b: nat)
    requires b > 0 && i % b == j % b
    ensures j < i ==> i >= j + b
  {
    var d := i / b - j / b;
    assert i == b * (i / b) + i % b && j == b * (j / b) + j % b;
    assert i - j == b * d;
    Multiples(b, d);
  }

  lemma SlotsAfterStore(slots: seq<int>, i: nat)
    requires SlotsHold(slots, i)
    ensures SlotsHold(slots[i % |slots| := i], i + 1)
  {
    var b := |slots|;
    var slots' := slots[i % b := i];
    forall j: nat | j < i + 1 <= j + b ensures slots'[j % b] == j {
      if i % b == j % b {
        SameSlot(i, j, b);
      }
    }
  }

  /** The message of the last b that falls on the slot of v. */
  lemma LatestInSlot(v: nat, stored: nat, b: nat) returns (j: nat)
    requires b > 0 && v < stored
    ensures j < stored <= j + b && j % b == v % b && v <= j
  {
    j := v;
    while j + b < stored
      invariant v <= j < stored && j % b == v % b
      decreases stored - j
    {
      ModPlus(j, b);
      j := j + b;
    }
  }

  lemma ModPlus(j: nat, b: nat)
    requires b > 0
    ensures (j + b) % b == j % b
  {
    assert j + b == b * (j / b + 1) + j % b;
    DivModUnique(j + b, b, j / b + 1, j % b);
  }

  lemma DivModUnique(x: nat, b: nat, q: nat, r: nat)
    requires b > 0 && x == b * q + r && r < b
    ensures x % b == r
  {
    assert x == b * (x / b) + x % b;
    var d := x / b - q;
    assert b * d == r - x % b;
    Multiples(b, d);
  }

  /** Slot s holds the greatest index written to it; so v is found exactly while fewer than b newer ones exist. */
  lemma SlotTest(slots: seq<int>, stored: nat, v: nat)
    requires SlotsHold(slots, stored) && v < stored
    ensures slots[v % |slots|] == v <==> stored - 1 < v + |slots|
    ensures forall j: nat :: j < stored && j % |slots| == v % |slots| ==> j <= slots[v % |slots|]
  {
    var b := |slots|;
    var latest := LatestInSlot(v, stored, b);
    assert slots[v % b] == latest;
    forall j: nat | j < stored && j % b == v % b ensures j <= latest {
      SameSlot(j, latest, b);
    }
  }

  // ---------- what becomes of the messages ----------

  function HandOf(c: Consumer): set<nat> {
    if c.pc.Check? then {c.pc.v} else {}
  }

  function PendingOf(c: Consumer): set<nat> {
    if c.pending.Some? then {c.pending.value} else {}
  }

  /** How many messages the producer has dealt with as far as consumer k is concerned. */
  function SentTo(p: ProducerPc, k: nat): nat {
    match p case Store(i) => i case Send(i, to) => if k < to then i + 1 else i
  }

  ghost predicate Ascending(s: seq<nat>) {
    forall a, b :: 0 <= a < b < |s| ==> s[a] < s[b]
  }

  /** Every message dealt with so far had exactly one fate. */
  ghost predicate Fates(c: Consumer, sent: nat) {
    && (forall j: nat :: j < sent <==>
          j in c.received || j in c.overwritten || j in c.coalesced || j in c.skipped
          || j in PendingOf(c) || j in HandOf(c))
    && c.received !! c.overwritten !! c.coalesced !! c.skipped !! PendingOf(c) !! HandOf(c)
  }

  /** Signal values are taken in ascending order, and a pending one is newer than all of them. */
  ghost predicate InOrder(c: Consumer) {
    && Ascending(c.handled)
    && (forall j :: j in c.handled <==> j in c.received || j in c.overwritten || j in HandOf(c))
    && (c.pending.Some? ==> forall j <- c.handled :: j < c.pending.value)
  }

  ghost predicate ConsumerInv(c: Consumer, sent: nat) {
    Fates(c, sent) && InOrder(c)
  }

  /** Increments of the shared counter that this consumer has completed. */
  function Counted(c: Consumer): nat {
    if (c.pc.Hit? || c.pc.HitStore?) && |c.received| > 0 then |c.received| - 1 else |c.received|
  }

  function TotalCounted(cs: seq<Consumer>): nat {
    Sum(cs, Counted)
  }

  function Receptions(c: Consumer): nat {
    |c.received|
  }

  function TotalReceived(cs: seq<Consumer>): nat {
    Sum(cs, Receptions)
  }

  /** Lost updates make the counter too small, never too large. */
  ghost predicate CounterInv(cs: seq<Consumer>, cnt: nat) {
    && cnt <= TotalCounted(cs)
    && (forall k :: 0 <= k < |cs| ==> LoadOk(cs[k], TotalCounted(cs)))
  }

  predicate LoadOk(c: Consumer, total: nat) {
    && (c.pc.Hit? || c.pc.HitStore? ==> |c.received| > 0)
    && (c.pc.HitStore? ==> c.pc.tmp <= total)
  }

  /** With one consumer no update is lost. */
  ghost predicate ExactInv(cs: seq<Consumer>, cnt: nat) {
    |cs| == 1 ==> Exact(cs[0], cnt)
  }

  predicate Exact(c: Consumer, cnt: nat) {
    cnt == Counted(c) && (c.pc.HitStore? ==> c.pc.tmp == cnt)
  }

  ghost predicate ConsumersInv(cs: seq<Consumer>, p: ProducerPc) {
    forall k :: 0 <= k < |cs| ==> ConsumerInv(cs[k], SentTo(p, k))
  }

  ghost predicate Shape(cfg: Config, s: State) {
    && |s.slots| == cfg.b && |s.cs| == cfg.n
    && Stored(s.p) <= cfg.m && (s.p.Send? ==> s.p.to < cfg.n)
    && SlotsHold(s.slots, Stored(s.p))
  }

  ghost predicate Inv(cfg: Config, s: State) {
    Shape(cfg, s) && ConsumersInv(s.cs, s.p) && CounterInv(s.cs, s.cnt) && ExactInv(s.cs, s.cnt)
  }

  lemma {:induction false} TotalCountedSame(cs: seq<Consumer>, ds: seq<Consumer>)
    requires |cs| == |ds| && forall k :: 0 <= k < |cs| ==> Counted(cs[k]) == Counted(ds[k])
    ensures TotalCounted(cs) == TotalCounted(ds)
  {
    if cs != [] {
      TotalCountedSame(cs[..|cs| - 1], ds[..|ds| - 1]);
    }
  }

  lemma InvInit(cfg: Config, s: State)
    requires Init(cfg, s)
    ensures Inv(cfg, s)
  {
    forall k | 0 <= k < |s.cs| ensures s.cs[k] == Consumer(Wait, None, [], {}, {}, {}, {}) {
      assert s.cs[k] in s.cs;
    }
    ZeroCounted(s.cs);
  }

  lemma {:induction false} ZeroCounted(cs: seq<Consumer>)
    requires forall k :: 0 <= k < |cs| ==> Counted(cs[k]) == 0
    ensures TotalCounted(cs) == 0
  {
    if cs != [] {
      ZeroCounted(cs[..|cs| - 1]);
    }
  }

  // ---------- the producer keeps the invariant ----------

  lemma InvStore(cfg: Config, s: State, timeout: bool)
    requires Inv(cfg, s) && s.p.Store? && CanMove(cfg, s, Produce(timeout))
    ensures Inv(cfg, Apply(cfg, s, Produce(timeout)))
  {
    var s' := Apply(cfg, s, Produce(timeout));
    SlotsAfterStore(s.slots, s.p.i);
    assert forall k :: 0 <= k < |s.cs| ==> SentTo(s'.p, k) == SentTo(s.p, k);
  }

  lemma SignalKeeps(c: Consumer, i: nat)
    requires ConsumerInv(c, i)
    ensures ConsumerInv(Signalled(c, i), i + 1)
  {
    var c' := Signalled(c, i);
    assert HandOf(c') == HandOf(c);
    if c.pending.None? {
      assert PendingOf(c') == {i} && PendingOf(c) == {};
      assert c'.handled == c.handled;
      assert forall j :: j in c.handled ==> j < i;
    } else {
      assert PendingOf(c') == PendingOf(c);
    }
  }

  lemma SkipKeeps(c: Consumer, i: nat)
    requires ConsumerInv(c, i)
    ensures ConsumerInv(Skipped(c, i), i + 1)
  {
    var c' := Skipped(c, i);
    assert HandOf(c') == HandOf(c) && PendingOf(c') == PendingOf(c);
  }

  lemma SendConsumers(cs: seq<Consumer>, i: nat, to: nat, timeout: bool, n: nat)
    requires ConsumersInv(cs, Send(i, to)) && to < |cs| == n
    ensures ConsumersInv(AfterSend(cs, i, to, timeout),
                         if timeout || to + 1 == n then Store(i + 1) else Send(i, to + 1))
  {
    var cs' := AfterSend(cs, i, to, timeout);
    var p' := if timeout || to + 1 == n then Store(i + 1) else Send(i, to + 1);
    forall k | 0 <= k < |cs| ensures ConsumerInv(cs'[k], SentTo(p', k)) {
      assert ConsumerInv(cs[k], SentTo(Send(i, to), k));
      if k == to {
        SignalKeeps(cs[k], i);
      } else if timeout && k > to {
        SkipKeeps(cs[k], i);
      }
    }
  }

  lemma SendCounters(cs: seq<Consumer>, cnt: nat, i: nat, to: nat, timeout: bool)
    requires CounterInv(cs, cnt) && ExactInv(cs, cnt)
    ensures CounterInv(AfterSend(cs, i, to, timeout), cnt) && ExactInv(AfterSend(cs, i, to, timeout), cnt)
  {
    var cs' := AfterSend(cs, i, to, timeout);
    assert forall k :: 0 <= k < |cs| ==> Counted(cs'[k]) == Counted(cs[k]);
    TotalCountedSame(cs, cs');
    assert forall k :: 0 <= k < |cs| ==> LoadOk(cs[k], TotalCounted(cs)) == LoadOk(cs'[k], TotalCounted(cs));
  }

  lemma SendShape(cfg: Config, s: State, timeout: bool)
    requires Shape(cfg, s) && s.p.Send? && CanMove(cfg, s, Produce(timeout))
    ensures var s' := Apply(cfg, s, Produce(timeout));
      && Shape(cfg, s') && s'.cnt == s.cnt && s'.cs == AfterSend(s.cs, s.p.i, s.p.to, timeout)
      && s'.p == if timeout || s.p.to + 1 == cfg.n then Store(s.p.i + 1) else Send(s.p.i, s.p.to + 1)
  {
  }

  lemma InvSend(cfg: Config, s: State, timeout: bool)
    requires Inv(cfg, s) && s.p.Send? && CanMove(cfg, s, Produce(timeout))
    ensures Inv(cfg, Apply(cfg, s, Produce(timeout)))
  {
    SendShape(cfg, s, timeout);
    SendConsumers(s.cs, s.p.i, s.p.to, timeout, cfg.n);
    SendCounters(s.cs, s.cnt, s.p.i, s.p.to, timeout);
  }

  // ---------- the consumers keep the invariant ----------

  lemma AscendingSnoc(s: seq<nat>, v: nat)
    requires Ascending(s) && forall j <- s :: j < v
    ensures Ascending(s + [v])
  {
    assert forall a :: 0 <= a < |s| ==> s[a] in s;
  }

  lemma StepFates(c: Consumer, slots: seq<int>, cnt: nat, lossCnt: nat, m: nat, sent: nat)
    requires ConsumerInv(c, sent) && (c.pc.Wait? ==> c.pending.Some?) && (c.pc.Check? ==> |slots| > 0)
    ensures ConsumerInv(Step(c, slots, cnt, lossCnt, m).c, sent)
  {
    var c' := Step(c, slots, cnt, lossCnt, m).c;
    if c.pc.Wait? {
      AscendingSnoc(c.handled, c.pending.value);
      assert HandOf(c') == PendingOf(c) && PendingOf(c') == {} && HandOf(c) == {};
    } else if c.pc.Check? {
      assert HandOf(c') == {} && PendingOf(c') == PendingOf(c);
    } else {
      assert HandOf(c') == {} && HandOf(c) == {} && PendingOf(c') == PendingOf(c);
    }
  }

  lemma HandIsNew(c: Consumer, sent: nat)
    requires ConsumerInv(c, sent)
    ensures c.pc.Check? ==> c.pc.v !in c.received
  {
    assert c.pc.Check? ==> c.pc.v in HandOf(c);
  }

  /** What one consumer step does to the count. */
  lemma StepCounts(c: Consumer, slots: seq<int>, cnt: nat, lossCnt: nat, m: nat, total: nat)
    requires (c.pc.Wait? ==> c.pending.Some?) && (c.pc.Check? ==> |slots| > 0 && c.pc.v !in c.received)
    requires LoadOk(c, total) && cnt <= total
    ensures var e := Step(c, slots, cnt, lossCnt, m);
      && Counted(e.c) == Counted(c) + (if c.pc.HitStore? then 1 else 0)
      && LoadOk(e.c, total)
      && e.cnt <= total + (if c.pc.HitStore? then 1 else 0)
      && (Exact(c, cnt) ==> Exact(e.c, e.cnt))
  {
  }

  lemma ReplaceOne(cs: seq<Consumer>, k: nat, c: Consumer, cnt: nat, cnt': nat)
    requires CounterInv(cs, cnt) && k < |cs|
    requires Counted(c) >= Counted(cs[k]) && LoadOk(c, TotalCounted(cs))
    requires cnt' <= TotalCounted(cs) + Counted(c) - Counted(cs[k])
    ensures CounterInv(cs[k := c], cnt')
  {
    SumUpdate(cs, k, c, Counted);
  }

  lemma StepCounters(cs: seq<Consumer>, k: nat, slots: seq<int>, cnt: nat, lossCnt: nat, m: nat, sent: nat)
    requires CounterInv(cs, cnt) && ExactInv(cs, cnt) && k < |cs| && ConsumerInv(cs[k], sent)
    requires (cs[k].pc.Wait? ==> cs[k].pending.Some?) && (cs[k].pc.Check? ==> |slots| > 0)
    ensures var e := Step(cs[k], slots, cnt, lossCnt, m);
      CounterInv(cs[k := e.c], e.cnt) && ExactInv(cs[k := e.c], e.cnt)
  {
    var e := Step(cs[k], slots, cnt, lossCnt, m);
    HandIsNew(cs[k], sent);
    StepCounts(cs[k], slots, cnt, lossCnt, m, TotalCounted(cs));
    ReplaceOne(cs, k, e.c, cnt, e.cnt);
  }

  lemma InvConsume(cfg: Config, s: State, k: nat)
    requires Inv(cfg, s) && CanMove(cfg, s, Consume(k))
    ensures Inv(cfg, Apply(cfg, s, Consume(k)))
  {
    assert ConsumerInv(s.cs[k], SentTo(s.p, k));
    StepFates(s.cs[k], s.slots, s.cnt, s.lossCnt, cfg.m, SentTo(s.p, k));
    StepCounters(s.cs, k, s.slots, s.cnt, s.lossCnt, cfg.m, SentTo(s.p, k));
  }

  lemma InvNext(cfg: Config, s: State, s': State)
    requires Inv(cfg, s) && Next(cfg, s, s')
    ensures Inv(cfg, s')
  {
    var mv :| CanMove(cfg, s, mv) && s' == Apply(cfg, s, mv);
    match mv {
      case Produce(timeout) =>
        if s.p.Store? { InvStore(cfg, s, timeout); } else { InvSend(cfg, s, timeout); }
      case Consume(k) => InvConsume(cfg, s, k);
    }
  }

  lemma {:induction false} InvOnRun(cfg: Config, run: seq<State>, i: nat)
    requires IsRun(cfg, run) && i < |run|
    ensures Inv(cfg, run[i])
  {
    if i == 0 {
      InvInit(cfg, run[0]);
    } else {
      InvOnRun(cfg, run, i - 1);
      assert Next(cfg, run[i - 1], run[i - 1 + 1]);
      InvNext(cfg, run[i - 1], run[i]);
    }
  }

  // ---------- main results ----------

  /** A consumer looking for message v finds it exactly if fewer than b newer messages have been written. */
  lemma FoundIffFresh(cfg: Config, run: seq<State>, i: nat, k: nat)
    requires IsRun(cfg, run) && i < |run| && k < cfg.n
    ensures |run[i].cs| == cfg.n
    ensures var s := run[i]; s.cs[k].pc.Check? ==>
      var v, last := s.cs[k].pc.v, Stored(s.p) - 1;
      && CanMove(cfg, s, Consume(k)) && v <= last
      && (v in Apply(cfg, s, Consume(k)).cs[k].received <==> last < v + cfg.b)
      && (v in Apply(cfg, s, Consume(k)).cs[k].overwritten <==> last >= v + cfg.b)
  {
    InvOnRun(cfg, run, i);
    var s := run[i];
    var c := s.cs[k];
    if c.pc.Check? {
      assert ConsumerInv(c, SentTo(s.p, k));
      assert c.pc.v in HandOf(c);
      SlotTest(s.slots, Stored(s.p), c.pc.v);
    }
  }

  lemma {:induction false} SizeOfInitial(s: set<nat>, n: nat)
    requires forall j: nat :: j < n <==> j in s
    ensures |s| == n
  {
    if n > 0 {
      SizeOfInitial(s - {n - 1}, n - 1);
    } else {
      assert s == {};
    }
  }

  lemma UnionSize(a: set<nat>, b: set<nat>)
    requires a !! b
    ensures |a + b| == |a| + |b|
  {
  }

  lemma SixSizes(a: set<nat>, b: set<nat>, c: set<nat>, d: set<nat>, e: set<nat>, f: set<nat>)
    requires a !! b !! c !! d !! e !! f
    ensures |a + b + c + d + e + f| == |a| + |b| + |c| + |d| + |e| + |f|
  {
    UnionSize(a, b);
    UnionSize(a + b, c);
    UnionSize(a + b + c, d);
    UnionSize(a + b + c + d, e);
    UnionSize(a + b + c + d + e, f);
  }

  lemma SixFates(c: Consumer, sent: nat)
    requires Fates(c, sent)
    ensures |c.received| + |c.overwritten| + |c.coalesced| + |c.skipped| + |PendingOf(c)| + |HandOf(c)| == sent
  {
    SixSizes(c.received, c.overwritten, c.coalesced, c.skipped, PendingOf(c), HandOf(c));
    SizeOfInitial(c.received + c.overwritten + c.coalesced + c.skipped + PendingOf(c) + HandOf(c), sent);
  }

  /**
    Conservation, for every consumer in every state: each message sent so far is
    received, overwritten, coalesced, skipped, pending or in hand, and nothing is
    in two of these; signal values are taken in ascending order.
   */
  lemma NothingVanishes(cfg: Config, run: seq<State>, i: nat, k: nat)
    requires IsRun(cfg, run) && i < |run| && k < cfg.n
    ensures |run[i].cs| == cfg.n
    ensures var s := run[i]; var c := s.cs[k];
      && Fates(c, SentTo(s.p, k)) && SentTo(s.p, k) <= cfg.m && Ascending(c.handled)
      && |c.received| + |c.overwritten| + |c.coalesced| + |c.skipped| + |PendingOf(c)| + |HandOf(c)| == SentTo(s.p, k)
  {
    InvOnRun(cfg, run, i);
    var s := run[i];
    assert ConsumerInv(s.cs[k], SentTo(s.p, k));
    SixFates(s.cs[k], SentTo(s.p, k));
  }

  lemma {:induction false} TotalsBounded(cs: seq<Consumer>, m: nat)
    requires forall k :: 0 <= k < |cs| ==> |cs[k].received| <= m
    ensures TotalCounted(cs) <= TotalReceived(cs) <= m * |cs|
  {
    if cs != [] {
      TotalsBounded(cs[..|cs| - 1], m);
      assert m * |cs| == m * (|cs| - 1) + m;
    }
  }

  // ---------- when a consumer leaves ----------

  ghost predicate BeforeLast(handled: seq<nat>, m: nat) {
    forall j :: j in handled ==> j + 1 != m
  }

  /** A consumer works on the last value that it took, and all values before that are not the last message. */
  ghost predicate RoundInv(c: Consumer, m: nat) {
    var h := c.handled;
    match c.pc
    case Wait => BeforeLast(h, m)
    case Gone => h != [] && h[|h| - 1] + 1 == m
    case Check(v) => h != [] && h[|h| - 1] == v && BeforeLast(h[..|h| - 1], m)
    case Hit(v) => h != [] && h[|h| - 1] == v && BeforeLast(h[..|h| - 1], m)
    case HitStore(v, _) => h != [] && h[|h| - 1] == v && BeforeLast(h[..|h| - 1], m)
    case Miss(v) => h != [] && h[|h| - 1] == v && BeforeLast(h[..|h| - 1], m)
    case MissStore(v, _) => h != [] && h[|h| - 1] == v && BeforeLast(h[..|h| - 1], m)
    case After(v) => h != [] && h[|h| - 1] == v && BeforeLast(h[..|h| - 1], m)
  }

  lemma RoundStep(c: Consumer, slots: seq<int>, cnt: nat, lossCnt: nat, m: nat)
    requires (c.pc.Wait? ==> c.pending.Some?) && (c.pc.Check? ==> |slots| > 0) && RoundInv(c, m)
    ensures RoundInv(Step(c, slots, cnt, lossCnt, m).c, m)
  {
    var h := c.handled;
    if c.pc.Wait? {
      assert (h + [c.pending.value])[..|h|] == h;
    }
    if c.pc.After? {
      assert h == h[..|h| - 1] + [h[|h| - 1]];
    }
  }

  ghost predicate RoundsInv(cfg: Config, s: State) {
    forall k :: 0 <= k < |s.cs| ==> RoundInv(s.cs[k], cfg.m)
  }

  lemma RoundsNext(cfg: Config, s: State, s': State)
    requires RoundsInv(cfg, s) && Next(cfg, s, s')
    ensures RoundsInv(cfg, s')
  {
    var mv :| CanMove(cfg, s, mv) && s' == Apply(cfg, s, mv);
    if mv.Consume? {
      RoundStep(s.cs[mv.c], s.slots, s.cnt, s.lossCnt, cfg.m);
    } else {
      forall k | 0 <= k < |s'.cs| ensures RoundInv(s'.cs[k], cfg.m) {
        assert s'.cs[k].pc == s.cs[k].pc && s'.cs[k].handled == s.cs[k].handled;
      }
    }
  }

  lemma {:induction false} RoundsOnRun(cfg: Config, run: seq<State>, i: nat)
    requires IsRun(cfg, run) && i < |run|
    ensures RoundsInv(cfg, run[i])
  {
    if i == 0 {
      forall k | 0 <= k < |run[0].cs| ensures RoundInv(run[0].cs[k], cfg.m) {
        assert run[0].cs[k] in run[0].cs;
      }
    } else {
      RoundsOnRun(cfg, run, i - 1);
      assert Next(cfg, run[i - 1], run[i - 1 + 1]);
      RoundsNext(cfg, run[i - 1], run[i]);
    }
  }

  /**
    A consumer has left only with the last message as the last value it took,
    waits only as long as it has not taken that one, and until then it can go on
    whenever a signal is pending.
   */
  lemma LeavesAfterLast(cfg: Config, run: seq<State>, i: nat, k: nat)
    requires IsRun(cfg, run) && i < |run| && k < cfg.n
    ensures |run[i].cs| == cfg.n
    ensures var c := run[i].cs[k];
      && (c.pc.Gone? ==> c.handled != [] && c.handled[|c.handled| - 1] == cfg.m - 1)
      && (c.pc.Wait? ==> cfg.m - 1 !in c.handled)
      && (c.pending.Some? && cfg.m - 1 !in c.handled ==> CanMove(cfg, run[i], Consume(k)))
  {
    RoundsOnRun(cfg, run, i);
    InvOnRun(cfg, run, i);
    var c := run[i].cs[k];
    assert RoundInv(c, cfg.m);
    RoundMeans(c, cfg.m);
  }

  lemma RoundMeans(c: Consumer, m: nat)
    requires RoundInv(c, m)
    ensures c.pc.Gone? ==> c.handled != [] && c.handled[|c.handled| - 1] == m - 1 && m - 1 in c.handled
    ensures c.pc.Wait? ==> m - 1 !in c.handled
  {
    if c.pc.Gone? {
      assert c.handled[|c.handled| - 1] in c.handled;
    }
  }

  /** The producer can always go on until it has written and signalled all messages. */
  lemma ProducerGoesOn(cfg: Config, run: seq<State>, i: nat, timeout: bool)
    requires IsRun(cfg, run) && i < |run|
    ensures CanMove(cfg, run[i], Produce(timeout)) <==> run[i].p != Store(cfg.m)
  {
    InvOnRun(cfg, run, i);
  }

  // ---------- the count of losses ----------

  /** Increments of the loss counter that this consumer has completed. */
  function Missed(c: Consumer): nat {
    if (c.pc.Miss? || c.pc.MissStore?) && |c.overwritten| > 0 then |c.overwritten| - 1 else |c.overwritten|
  }

  function Losses(c: Consumer): nat {
    |c.overwritten|
  }

  ghost predicate LossLoadOk(c: Consumer, total: nat) {
    && (c.pc.Miss? || c.pc.MissStore? ==> |c.overwritten| > 0)
    && (c.pc.MissStore? ==> c.pc.tmp <= total)
  }

  ghost predicate LossInv(cs: seq<Consumer>, lossCnt: nat) {
    && lossCnt <= Sum(cs, Missed)
    && (forall k :: 0 <= k < |cs| ==> LossLoadOk(cs[k], Sum(cs, Missed)))
    && (|cs| == 1 ==> LossExact(cs[0], lossCnt))
  }

  lemma LossStep(c: Consumer, slots: seq<int>, cnt: nat, lossCnt: nat, m: nat, total: nat)
    requires (c.pc.Wait? ==> c.pending.Some?) && (c.pc.Check? ==> |slots| > 0 && c.pc.v !in c.overwritten)
    requires LossLoadOk(c, total) && lossCnt <= total
    ensures var e := Step(c, slots, cnt, lossCnt, m);
      && Missed(e.c) == Missed(c) + (if c.pc.MissStore? then 1 else 0)
      && LossLoadOk(e.c, total)
      && e.lossCnt <= total + (if c.pc.MissStore? then 1 else 0)
      && (LossExact(c, lossCnt) ==> LossExact(e.c, e.lossCnt))
  {
  }

  predicate LossExact(c: Consumer, lossCnt: nat) {
    lossCnt == Missed(c) && (c.pc.MissStore? ==> c.pc.tmp == lossCnt)
  }

  /** One consumer goes on, its completed increments growing by as much as the counter may. */
  lemma LossReplace(cs: seq<Consumer>, k: nat, c: Consumer, lossCnt: nat, lossCnt': nat)
    requires LossInv(cs, lossCnt) && k < |cs| && Missed(c) >= Missed(cs[k])
    requires LossLoadOk(c, Sum(cs, Missed)) && lossCnt' <= Sum(cs, Missed) + Missed(c) - Missed(cs[k])
    requires LossExact(cs[k], lossCnt) ==> LossExact(c, lossCnt')
    ensures LossInv(cs[k := c], lossCnt')
  {
    SumUpdate(cs, k, c, Missed);
    var ds := cs[k := c];
    forall j | 0 <= j < |ds| ensures LossLoadOk(ds[j], Sum(ds, Missed)) {
      assert LossLoadOk(cs[j], Sum(cs, Missed));
    }
  }

  lemma LossConsume(cs: seq<Consumer>, k: nat, slots: seq<int>, cnt: nat, lossCnt: nat, m: nat, sent: nat)
    requires LossInv(cs, lossCnt) && k < |cs| && ConsumerInv(cs[k], sent)
    requires (cs[k].pc.Wait? ==> cs[k].pending.Some?) && (cs[k].pc.Check? ==> |slots| > 0)
    ensures var e := Step(cs[k], slots, cnt, lossCnt, m); LossInv(cs[k := e.c], e.lossCnt)
  {
    NotYetMissed(cs[k], sent);
    LossStep(cs[k], slots, cnt, lossCnt, m, Sum(cs, Missed));
    var e := Step(cs[k], slots, cnt, lossCnt, m);
    LossReplace(cs, k, e.c, lossCnt, e.lossCnt);
  }

  lemma NotYetMissed(c: Consumer, sent: nat)
    requires ConsumerInv(c, sent)
    ensures c.pc.Check? ==> c.pc.v !in c.overwritten
  {
  }

  lemma {:induction false} SameSum(cs: seq<Consumer>, ds: seq<Consumer>)
    requires |cs| == |ds| && forall k :: 0 <= k < |cs| ==> Missed(cs[k]) == Missed(ds[k])
    ensures Sum(cs, Missed) == Sum(ds, Missed)
  {
    if cs != [] {
      SameSum(cs[..|cs| - 1], ds[..|ds| - 1]);
    }
  }

  lemma LossNext(cfg: Config, s: State, s': State)
    requires Inv(cfg, s) && LossInv(s.cs, s.lossCnt) && Next(cfg, s, s')
    ensures LossInv(s'.cs, s'.lossCnt)
  {
    var mv :| CanMove(cfg, s, mv) && s' == Apply(cfg, s, mv);
    if mv.Consume? {
      LossConsume(s.cs, mv.c, s.slots, s.cnt, s.lossCnt, cfg.m, SentTo(s.p, mv.c));
    } else if s.p.Send? {
      LossSend(s.cs, s.lossCnt, s.p.i, s.p.to, mv.timeout);
    }
  }

  lemma LossSend(cs: seq<Consumer>, lossCnt: nat, i: nat, to: nat, timeout: bool)
    requires LossInv(cs, lossCnt)
    ensures LossInv(AfterSend(cs, i, to, timeout), lossCnt)
  {
    var ds := AfterSend(cs, i, to, timeout);
    SameSum(cs, ds);
    forall k | 0 <= k < |ds| ensures LossLoadOk(ds[k], Sum(ds, Missed)) {
      assert LossLoadOk(cs[k], Sum(cs, Missed));
    }
  }

  lemma {:induction false} LossOnRun(cfg: Config, run: seq<State>, i: nat)
    requires IsRun(cfg, run) && i < |run|
    ensures LossInv(run[i].cs, run[i].lossCnt)
  {
    if i == 0 {
      forall k | 0 <= k < |run[0].cs| ensures run[0].cs[k] == Consumer(Wait, None, [], {}, {}, {}, {}) {
        assert run[0].cs[k] in run[0].cs;
      }
      SumOfEqual(run[0].cs, Missed, 0);
    } else {
      LossOnRun(cfg, run, i - 1);
      InvOnRun(cfg, run, i - 1);
      assert Next(cfg, run[i - 1], run[i - 1 + 1]);
      LossNext(cfg, run[i - 1], run[i]);
    }
  }

  lemma {:induction false} MissedBounded(cs: seq<Consumer>)
    ensures Sum(cs, Missed) <= Sum(cs, Losses)
  {
    if cs != [] { MissedBounded(cs[..|cs| - 1]); }
  }

  /** The loss counter never exceeds the number of overwritten messages found; with one consumer it is exact. */
  lemma LossCountNeverTooHigh(cfg: Config, run: seq<State>, i: nat)
    requires IsRun(cfg, run) && i < |run|
    ensures run[i].lossCnt <= Sum(run[i].cs, Losses)
    ensures |run[i].cs| == 1 && !run[i].cs[0].pc.Miss? && !run[i].cs[0].pc.MissStore? ==>
      run[i].lossCnt == |run[i].cs[0].overwritten|
  {
    LossOnRun(cfg, run, i);
    MissedBounded(run[i].cs);
  }

  // ---------- the count of receptions ----------

  /** The shared counter never exceeds the number of receptions, and these never exceed m n. */
  lemma CountNeverTooHigh(cfg: Config, run: seq<State>, i: nat)
    requires IsRun(cfg, run) && i < |run|
    ensures run[i].cnt <= TotalReceived(run[i].cs) <= cfg.m * cfg.n
  {
    InvOnRun(cfg, run, i);
    var s := run[i];
    forall k | 0 <= k < |s.cs| ensures |s.cs[k].received| <= cfg.m {
      NothingVanishes(cfg, run, i, k);
    }
    TotalsBounded(s.cs, cfg.m);
  }

  /** The loss rate as the program computes it, and the one it stands for. */
  function LossRate(cfg: Config, count: nat): real
    requires cfg.m * cfg.n > 0
  {
    1.0 - (count as real) / ((cfg.m * cfg.n) as real)
  }

  lemma LossRateOrder(cfg: Config, count: nat, count': nat)
    requires cfg.m * cfg.n > 0 && count <= count' <= cfg.m * cfg.n
    ensures 0.0 <= LossRate(cfg, count') <= LossRate(cfg, count) <= 1.0
  {
    var t := (cfg.m * cfg.n) as real;
    var x, y := count as real, count' as real;
    assert x / t <= y / t by { Divide(x, y, t); }
    assert y / t <= t / t by { Divide(y, t, t); }
    assert 0.0 / t <= x / t by { Divide(0.0, x, t); }
  }

  lemma Divide(x: real, y: real, t: real)
    requires t > 0.0 && x <= y
    ensures x / t <= y / t
  {
  }

  /** Whenever the parent prints it: the reported loss rate lies in [0, 1] and does not understate the loss. */
  lemma ReportIsPessimistic(cfg: Config, run: seq<State>, i: nat)
    requires IsRun(cfg, run) && i < |run| && cfg.m * cfg.n > 0
    ensures 0.0 <= LossRate(cfg, TotalReceived(run[i].cs)) <= LossRate(cfg, run[i].cnt) <= 1.0
  {
    CountNeverTooHigh(cfg, run, i);
    LossRateOrder(cfg, run[i].cnt, TotalReceived(run[i].cs));
  }

  // ---------- when the count is exact ----------

  /** No consumer is in the middle of an increment. */
  ghost predicate Quiet(s: State) {
    forall k :: 0 <= k < |s.cs| ==> !s.cs[k].pc.Hit? && !s.cs[k].pc.HitStore?
  }

  /** Some run ends in a quiet state in which receptions are missing from the count. */
  ghost predicate CanUndercount(cfg: Config) {
    exists run: seq<State> ::
      IsRun(cfg, run) && Quiet(run[|run| - 1]) && run[|run| - 1].cnt < TotalReceived(run[|run| - 1].cs)
  }

  lemma {:induction false} FirstTwo(cs: seq<Consumer>)
    requires |cs| >= 2
    ensures TotalReceived(cs) >= |cs[0].received| + |cs[1].received|
  {
    var init := cs[..|cs| - 1];
    if |cs| > 2 {
      FirstTwo(init);
    } else {
      assert TotalReceived(init) == TotalReceived(init[..0]) + |init[0].received|;
    }
  }

  /** A consumer before message 0, signalled, and about to look for it. */
  const FRESH := Consumer(Wait, None, [], {}, {}, {}, {})
  const ASKED := FRESH.(pending := Some(0))
  const TOOK := Consumer(Check(0), None, [0], {}, {}, {}, {})

  /** A consumer that has received message 0, with a given point in its round. */
  function Got0(pc: ConsumerPc): Consumer {
    Consumer(pc, None, [0], {0}, {}, {}, {})
  }

  predicate Steps(cfg: Config, ring: seq<int>, c: Consumer, cnt: nat, c': Consumer, cnt': nat) {
    && (c.pc.Wait? ==> c.pending.Some?) && |ring| > 0 && !c.pc.Gone?
    && Step(c, ring, cnt, 0, cfg.m) == Effect(c', cnt', 0)
  }

  lemma FirstConsumes(cfg: Config, p: ProducerPc, ring: seq<int>, a: Consumer, b: Consumer, others: seq<Consumer>,
                      cnt: nat, a': Consumer, cnt': nat)
    requires Steps(cfg, ring, a, cnt, a', cnt')
    ensures Next(cfg, State(p, ring, [a, b] + others, cnt, 0), State(p, ring, [a', b] + others, cnt', 0))
  {
    var s := State(p, ring, [a, b] + others, cnt, 0);
    assert s.cs[0 := a'] == [a', b] + others;
    assert CanMove(cfg, s, Consume(0)) && Apply(cfg, s, Consume(0)) == State(p, ring, [a', b] + others, cnt', 0);
  }

  lemma SecondConsumes(cfg: Config, p: ProducerPc, ring: seq<int>, a: Consumer, b: Consumer, others: seq<Consumer>,
                       cnt: nat, b': Consumer, cnt': nat)
    requires Steps(cfg, ring, b, cnt, b', cnt')
    ensures Next(cfg, State(p, ring, [a, b] + others, cnt, 0), State(p, ring, [a, b'] + others, cnt', 0))
  {
    var s := State(p, ring, [a, b] + others, cnt, 0);
    assert s.cs[1 := b'] == [a, b'] + others;
    assert CanMove(cfg, s, Consume(1)) && Apply(cfg, s, Consume(1)) == State(p, ring, [a, b'] + others, cnt', 0);
  }

  lemma Extend(cfg: Config, run: seq<State>, s: State)
    requires IsRun(cfg, run) && Next(cfg, run[|run| - 1], s)
    ensures IsRun(cfg, run + [s])
  {
  }

  /** The producer writes message 0, signals the first two consumers, and gives up the round. */
  lemma TwoSignals(cfg: Config, slots: seq<int>) returns (run: seq<State>, others: seq<Consumer>)
    requires cfg.n >= 2 && cfg.m >= 1 && cfg.b >= 1 && |slots| == cfg.b
    ensures IsRun(cfg, run) && |others| == cfg.n - 2 && forall k :: 0 <= k < |others| ==> others[k].pc.Wait?
    ensures run[|run| - 1] == State(Store(1), slots[0 := 0], [ASKED, ASKED] + others, 0, 0)
  {
    others := seq(cfg.n - 2, _ => Skipped(FRESH, 0));
    var cs, asked := seq(cfg.n, _ => FRESH), ASKED;
    var ring := slots[0 := 0];
    var s0 := State(Store(0), slots, cs, 0, 0);
    var s1 := State(Send(0, 0), ring, cs, 0, 0);
    var s2 := State(Send(0, 1), ring, cs[0 := asked], 0, 0);
    var s3 := State(Store(1), ring, [asked, asked] + others, 0, 0);
    assert 0 % cfg.b == 0;
    assert CanMove(cfg, s0, Produce(false)) && s1 == Apply(cfg, s0, Produce(false));
    assert AfterSend(cs, 0, 0, false) == cs[0 := asked];
    assert CanMove(cfg, s1, Produce(false)) && s2 == Apply(cfg, s1, Produce(false));
    assert AfterSend(cs[0 := asked], 0, 1, true) == [asked, asked] + others;
    assert CanMove(cfg, s2, Produce(true)) && s3 == Apply(cfg, s2, Produce(true));
    run := [s0, s1, s2, s3];
  }

  /** The first consumer moves from `a` to `a'`, at the end of the run. */
  lemma FirstMoves(cfg: Config, run: seq<State>, ring: seq<int>, a: Consumer, b: Consumer, others: seq<Consumer>,
                   cnt: nat, a': Consumer, cnt': nat) returns (run': seq<State>)
    requires IsRun(cfg, run) && run[|run| - 1] == State(Store(1), ring, [a, b] + others, cnt, 0)
    requires Steps(cfg, ring, a, cnt, a', cnt')
    ensures IsRun(cfg, run') && run'[|run'| - 1] == State(Store(1), ring, [a', b] + others, cnt', 0)
  {
    FirstConsumes(cfg, Store(1), ring, a, b, others, cnt, a', cnt');
    run' := run + [State(Store(1), ring, [a', b] + others, cnt', 0)];
    Extend(cfg, run, State(Store(1), ring, [a', b] + others, cnt', 0));
  }

  lemma SecondMoves(cfg: Config, run: seq<State>, ring: seq<int>, a: Consumer, b: Consumer, others: seq<Consumer>,
                    cnt: nat, b': Consumer, cnt': nat) returns (run': seq<State>)
    requires IsRun(cfg, run) && run[|run| - 1] == State(Store(1), ring, [a, b] + others, cnt, 0)
    requires Steps(cfg, ring, b, cnt, b', cnt')
    ensures IsRun(cfg, run') && run'[|run'| - 1] == State(Store(1), ring, [a, b'] + others, cnt', 0)
  {
    SecondConsumes(cfg, Store(1), ring, a, b, others, cnt, b', cnt');
    run' := run + [State(Store(1), ring, [a, b'] + others, cnt', 0)];
    Extend(cfg, run, State(Store(1), ring, [a, b'] + others, cnt', 0));
  }

  /** One reception of message 0, step by step; the store writes 1 whatever the counter holds by then. */
  lemma Reception(cfg: Config, ring: seq<int>, cnt: nat)
    requires |ring| > 0 && ring[0] == 0
    ensures Steps(cfg, ring, ASKED, 0, TOOK, 0)
    ensures Steps(cfg, ring, TOOK, 0, Got0(Hit(0)), 0)
    ensures Steps(cfg, ring, Got0(Hit(0)), 0, Got0(HitStore(0, 0)), 0)
    ensures Steps(cfg, ring, Got0(HitStore(0, 0)), cnt, Got0(After(0)), 1)
  {
    assert [] + [0] == [0] && {} + {0} == {0} && 0 % |ring| == 0;
  }

  lemma BothHit(cfg: Config, slots: seq<int>) returns (run: seq<State>, others: seq<Consumer>)
    requires cfg.n >= 2 && cfg.m >= 1 && cfg.b >= 1 && |slots| == cfg.b
    ensures IsRun(cfg, run) && |others| == cfg.n - 2 && forall k :: 0 <= k < |others| ==> others[k].pc.Wait?
    ensures run[|run| - 1] == State(Store(1), slots[0 := 0], [Got0(Hit(0)), Got0(Hit(0))] + others, 0, 0)
  {
    var ring, hit := slots[0 := 0], Got0(Hit(0));
    Reception(cfg, ring, 0);
    run, others := TwoSignals(cfg, slots);
    run := FirstMoves(cfg, run, ring, ASKED, ASKED, others, 0, TOOK, 0);
    run := FirstMoves(cfg, run, ring, TOOK, ASKED, others, 0, hit, 0);
    run := SecondMoves(cfg, run, ring, hit, ASKED, others, 0, TOOK, 0);
    run := SecondMoves(cfg, run, ring, hit, TOOK, others, 0, hit, 0);
  }

  lemma BothLoaded(cfg: Config, slots: seq<int>) returns (run: seq<State>, others: seq<Consumer>)
    requires cfg.n >= 2 && cfg.m >= 1 && cfg.b >= 1 && |slots| == cfg.b
    ensures IsRun(cfg, run) && |others| == cfg.n - 2 && forall k :: 0 <= k < |others| ==> others[k].pc.Wait?
    ensures run[|run| - 1]
         == State(Store(1), slots[0 := 0], [Got0(HitStore(0, 0)), Got0(HitStore(0, 0))] + others, 0, 0)
  {
    var ring, hit, load := slots[0 := 0], Got0(Hit(0)), Got0(HitStore(0, 0));
    Reception(cfg, ring, 0);
    run, others := BothHit(cfg, slots);
    run := FirstMoves(cfg, run, ring, hit, hit, others, 0, load, 0);
    run := SecondMoves(cfg, run, ring, load, hit, others, 0, load, 0);
  }

  /** Both of the first two consumers load the counter before either stores it. */
  lemma TwoLoadsBeforeAStore(cfg: Config, slots: seq<int>)
    requires cfg.n >= 2 && cfg.m >= 1 && cfg.b >= 1 && |slots| == cfg.b
    ensures CanUndercount(cfg)
  {
    var ring, load, done := slots[0 := 0], Got0(HitStore(0, 0)), Got0(After(0));
    Reception(cfg, ring, 0);
    Reception(cfg, ring, 1);
    var run, others := BothLoaded(cfg, slots);
    run := FirstMoves(cfg, run, ring, load, load, others, 0, done, 1);
    run := SecondMoves(cfg, run, ring, done, load, others, 1, done, 1);
    TwoReceptions(done, others);
  }

  lemma TwoReceptions(c: Consumer, others: seq<Consumer>)
    requires |c.received| == 1
    ensures TotalReceived([c, c] + others) >= 2
  {
    FirstTwo([c, c] + others);
  }

  /** The count can be too low in a quiet state exactly when there are two consumers and a message to receive. */
  lemma UndercountIffTwoConsumers(cfg: Config)
    requires cfg.b >= 1
    ensures CanUndercount(cfg) <==> cfg.n >= 2 && cfg.m >= 1
  {
    if cfg.n >= 2 && cfg.m >= 1 {
      TwoLoadsBeforeAStore(cfg, seq(cfg.b, _ => 0));
    } else {
      forall run: seq<State> | IsRun(cfg, run) && Quiet(run[|run| - 1])
        ensures run[|run| - 1].cnt >= TotalReceived(run[|run| - 1].cs)
      {
        NoUndercount(cfg, run);
      }
    }
  }

  lemma NoUndercount(cfg: Config, run: seq<State>)
    requires IsRun(cfg, run) && Quiet(run[|run| - 1]) && (cfg.n < 2 || cfg.m == 0)
    ensures run[|run| - 1].cnt >= TotalReceived(run[|run| - 1].cs)
  {
    var last := |run| - 1;
    var s := run[last];
    InvOnRun(cfg, run, last);
    CountNeverTooHigh(cfg, run, last);
    if cfg.n == 1 {
      assert TotalReceived(s.cs) == TotalReceived(s.cs[..0]) + |s.cs[0].received|;
    } else if cfg.n >= 2 {
      assert cfg.m * cfg.n == 0;
    }
  }
}
