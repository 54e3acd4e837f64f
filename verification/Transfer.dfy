/**
  The two-semaphore transfer of HW9/54_1: a writer and a reader share one block.
  Every access to shared state is a step of its own, and the steps of the two
  processes are interleaved in any order.  The reader starts after the writer
  has created and initialised the semaphores.
 */
module Transfer {

  /** Where the writer stands. */
  datatype WriterPc =
    | WReserve   // top of the loop: take WRITE_SEM
    | WRead      // read stdin into the block
    | WStore     // store the byte count in the block
    | WRelease   // give READ_SEM
    | WTest      // look at the count again, outside the critical section
    | WCount     // for-increment: reads the count once more
    | WFinal     // behind the loop: take WRITE_SEM a last time
    | WRemove    // remove the semaphores
    | WDone

  datatype ReaderPc =
    | RReserve   // top of the loop: take READ_SEM
    | RTest      // a count of zero means end of file
    | RCount
    | RWrite     // write the block to stdout
    | RRelease   // give WRITE_SEM and go round
    | RExit      // behind the loop: give WRITE_SEM a last time
    | RDone

  /** `blocks` records what the reads of the writer returned, the empty one at the end left out. */
  datatype State = State(
    blocks: seq<string>,
    w: WriterPc, got: nat, wBytes: nat, wXfrs: nat, rem: string,
    r: ReaderPc, rBytes: nat, rXfrs: nat, out: string,
    writeSem: nat, readSem: nat, cnt: nat, buf: string, removed: bool)

  /** The writer chooses how many bytes a read returns. */
  datatype Move = Writer(n: nat) | Reader

  ghost predicate Init(input: string, s: State) {
    && s.blocks == []
    && s.w == WReserve && s.r == RReserve && s.rem == input && s.out == ""
    && s.wBytes == 0 && s.wXfrs == 0 && s.rBytes == 0 && s.rXfrs == 0
    && s.writeSem == 1 && s.readSem == 0 && |s.buf| > 0 && s.got == 0 && !s.removed
  }

  /** read returns 0 at the end of the input, and between 1 and the buffer size otherwise. */
  predicate ReadReturns(n: nat, rem: string, size: nat) {
    if rem == "" then n == 0 else 0 < n <= |rem| && n <= size
  }

  predicate CanMove(s: State, m: Move) {
    match m
    case Writer(n) =>
      (match s.w
       case WReserve => !s.removed && s.writeSem > 0
       case WRead => ReadReturns(n, s.rem, |s.buf|)
       case WRelease => !s.removed
       case WFinal => !s.removed && s.writeSem > 0
       case WDone => false
       case _ => true)
    case Reader =>
      (match s.r
       case RReserve => !s.removed && s.readSem > 0
       case RWrite => s.cnt <= |s.buf|
       case RRelease => !s.removed
       case RExit => !s.removed
       case RDone => false
       case _ => true)
  }

  function Apply(s: State, m: Move): State
    requires CanMove(s, m)
  {
    match m
    case Writer(n) =>
      (match s.w
       case WReserve => s.(w := WRead, writeSem := s.writeSem - 1)
       case WRead =>
         s.(w := WStore, got := n, buf := s.rem[..n] + s.buf[n..], rem := s.rem[n..],
            blocks := if n > 0 then s.blocks + [s.rem[..n]] else s.blocks)
       case WStore => s.(w := WRelease, cnt := s.got)
       case WRelease => s.(w := WTest, readSem := s.readSem + 1)
       case WTest => s.(w := if s.cnt == 0 then WFinal else WCount)
       case WCount => s.(w := WReserve, wXfrs := s.wXfrs + 1, wBytes := s.wBytes + s.cnt)
       case WFinal => s.(w := WRemove, writeSem := s.writeSem - 1)
       case WRemove => s.(w := WDone, removed := true))
    case Reader =>
      (match s.r
       case RReserve => s.(r := RTest, readSem := s.readSem - 1)
       case RTest => s.(r := if s.cnt == 0 then RExit else RCount)
       case RCount => s.(r := RWrite, rBytes := s.rBytes + s.cnt)
       case RWrite => s.(r := RRelease, out := s.out + s.buf[..s.cnt])
       case RRelease => s.(r := RReserve, writeSem := s.writeSem + 1, rXfrs := s.rXfrs + 1)
       case RExit => s.(r := RDone, writeSem := s.writeSem + 1))
  }

  ghost predicate Next(s: State, s': State) {
    exists m :: CanMove(s, m) && s' == Apply(s, m)
  }

  ghost predicate IsRun(input: string, run: seq<State>) {
    && run != [] && Init(input, run[0])
    && forall i :: 0 <= i < |run| - 1 ==> Next(run[i], run[i + 1])
  }

  ghost predicate Stuck(s: State) {
    forall m :: !CanMove(s, m)
  }

  // ---------- the invariant ----------

  /** The writer holds the block. */
  predicate WriterInside(s: State) {
    s.w in {WRead, WStore, WRelease, WRemove, WDone}
  }

  /** The reader holds the block. */
  predicate ReaderInside(s: State) {
    s.r in {RTest, RCount, RWrite, RRelease, RExit}
  }

  function Bit(b: bool): nat {
    if b then 1 else 0
  }

  /** Exactly one of the two processes holds the block, or it is free for exactly one of them. */
  predicate OneHolder(s: State) {
    s.writeSem + s.readSem + Bit(WriterInside(s)) + Bit(ReaderInside(s)) == 1
  }

  /** A block is filled and the reader has not yet written it out. */
  predicate Unwritten(s: State) {
    s.w in {WStore, WRelease} || s.readSem == 1 || s.r in {RTest, RCount, RWrite}
  }

  /** The bytes on their way. */
  function Flight(s: State): string {
    var n := if s.w == WStore then s.got else s.cnt;
    if Unwritten(s) && n <= |s.buf| then s.buf[..n] else ""
  }

  /** The writer has read and not yet counted a block. */
  predicate Uncounted(s: State) {
    s.w in {WStore, WRelease, WTest, WCount}
  }

  /** The control states that fit together. */
  predicate Control(s: State) {
    && (s.w == WRead || s.w == WStore || s.w == WRelease ==> s.r == RReserve)
    && (s.w in {WRelease, WTest, WCount} ==> s.cnt == s.got)
    && (s.w == WCount ==> s.cnt > 0)
    && (s.w == WReserve && (s.readSem == 1 || ReaderInside(s)) ==> s.cnt > 0)
    && (s.w in {WFinal, WRemove, WDone} ==> s.cnt == 0)
    && (s.w in {WFinal, WRemove, WDone} || (Uncounted(s) && s.got == 0) ==> s.rem == "")
    && (s.r in {RCount, RWrite, RRelease} ==> s.cnt > 0)
    && (s.r in {RExit, RDone} ==> s.cnt == 0 && s.w in {WTest, WFinal, WRemove, WDone})
    && (s.w in {WRemove, WDone} ==> s.r == RDone)
    && (s.r == RDone ==> s.readSem == 0)
    && (s.w == WFinal && s.writeSem == 1 ==> s.r == RDone)
    && (s.w == WTest && s.cnt == 0 && s.writeSem == 1 ==> s.r == RDone)
    && (s.removed <==> s.w == WDone)
  }

  ghost predicate Data(input: string, s: State) {
    && 0 < |s.buf| && s.got <= |s.buf| && (Unwritten(s) && s.w != WStore ==> s.cnt <= |s.buf|)
    && input == s.out + (Flight(s) + s.rem)
    && s.rBytes == |s.out| + (if s.r == RWrite then s.cnt else 0)
    && s.wBytes + (if Uncounted(s) then s.got else 0) == |input| - |s.rem|
    && s.wXfrs + Bit(Uncounted(s) && s.got > 0)
       == s.rXfrs + Bit((s.w == WStore && s.got > 0) || (s.w != WStore && Unwritten(s) && s.cnt > 0) || s.r == RRelease)
  }

  ghost predicate Inv(input: string, s: State) {
    OneHolder(s) && Control(s) && Data(input, s)
  }

  lemma InvInit(input: string, s: State)
    requires Init(input, s)
    ensures Inv(input, s)
  {
  }

  lemma InvWriter(input: string, s: State, n: nat)
    requires Inv(input, s) && CanMove(s, Writer(n))
    ensures Inv(input, Apply(s, Writer(n)))
  {
    var s' := Apply(s, Writer(n));
    if s.w == WRead {
      assert s'.buf[..n] == s.rem[..n];
      assert s.rem == s.rem[..n] + s.rem[n..];
    }
  }

  lemma InvReader(input: string, s: State)
    requires Inv(input, s) && CanMove(s, Reader)
    ensures Inv(input, Apply(s, Reader))
  {
    var s' := Apply(s, Reader);
    if s.r == RWrite {
      assert s'.out + ("" + s.rem) == s.out + (s.buf[..s.cnt] + s.rem);
    }
  }

  lemma InvNext(input: string, s: State, s': State)
    requires Inv(input, s) && Next(s, s')
    ensures Inv(input, s')
  {
    var m :| CanMove(s, m) && s' == Apply(s, m);
    match m {
      case Writer(n) => InvWriter(input, s, n);
      case Reader => InvReader(input, s);
    }
  }

  lemma {:induction false} InvOnRun(input: string, run: seq<State>, i: nat)
    requires IsRun(input, run) && i < |run|
    ensures Inv(input, run[i])
  {
    if i == 0 {
      InvInit(input, run[0]);
    } else {
      InvOnRun(input, run, i - 1);
      assert Next(run[i - 1], run[i - 1 + 1]);
      InvNext(input, run[i - 1], run[i]);
    }
  }

  // ---------- safety ----------

  /** In every state of every interleaving. */
  lemma Safety(input: string, run: seq<State>, i: nat)
    requires IsRun(input, run) && i < |run|
    ensures var s := run[i];
      // what was written so far is the beginning of the input
      && s.out <= input
      // the block is never used by both
      && !(WriterInside(s) && ReaderInside(s))
      && s.writeSem + s.readSem + Bit(WriterInside(s)) + Bit(ReaderInside(s)) == 1
      // the count that the writer looks at outside its critical section is the one it stored
      && (s.w == WTest || s.w == WCount ==> s.cnt == s.got)
      // the semaphores are removed only when the reader needs them no more
      && (s.removed ==> s.r == RDone)
  {
    InvOnRun(input, run, i);
  }

  predicate Final(s: State) {
    s.w == WDone && s.r == RDone
  }

  /** Both done: everything has arrived, and the two reports agree. */
  lemma Completion(input: string, run: seq<State>, i: nat)
    requires IsRun(input, run) && i < |run| && Final(run[i])
    ensures run[i].out == input
    ensures run[i].wBytes == run[i].rBytes == |input|
    ensures run[i].wXfrs == run[i].rXfrs
  {
    InvOnRun(input, run, i);
  }

  // ---------- the number of transfers ----------

  function Joined(blocks: seq<string>): string {
    if blocks == [] then "" else Joined(blocks[..|blocks| - 1]) + blocks[|blocks| - 1]
  }

  /** The writer has counted every block but the one it is at work on. */
  ghost predicate BlocksInv(input: string, s: State) {
    && Joined(s.blocks) + s.rem == input
    && (forall i :: 0 <= i < |s.blocks| ==> 0 < |s.blocks[i]| <= |s.buf|)
    && |s.blocks| == s.wXfrs + Bit(Uncounted(s) && s.got > 0)
  }

  lemma BlocksNext(input: string, s: State, s': State)
    requires Inv(input, s) && BlocksInv(input, s) && Next(s, s')
    ensures BlocksInv(input, s')
  {
    var m :| CanMove(s, m) && s' == Apply(s, m);
    if m.Writer? {
      if s.w == WRead { BlocksRead(input, s, m.n); } else { BlocksKept(input, s, m.n); }
    }
  }

  lemma BlocksRead(input: string, s: State, n: nat)
    requires 0 < |s.buf| && BlocksInv(input, s) && CanMove(s, Writer(n)) && s.w == WRead
    ensures BlocksInv(input, Apply(s, Writer(n)))
  {
    var s' := Apply(s, Writer(n));
    if n > 0 {
      JoinedSnoc(s.blocks, s.rem[..n], s.rem[n..]);
      assert s.rem == s.rem[..n] + s.rem[n..];
    } else {
      assert s.rem[0..] == s.rem;
    }
  }

  lemma JoinedSnoc(blocks: seq<string>, b: string, rem: string)
    ensures Joined(blocks + [b]) + rem == Joined(blocks) + (b + rem)
  {
    assert (blocks + [b])[..|blocks|] == blocks;
  }

  lemma BlocksKept(input: string, s: State, n: nat)
    requires Control(s) && BlocksInv(input, s) && CanMove(s, Writer(n)) && s.w != WRead
    ensures BlocksInv(input, Apply(s, Writer(n)))
  {
  }

  lemma {:induction false} BlocksOnRun(input: string, run: seq<State>, i: nat)
    requires IsRun(input, run) && i < |run|
    ensures BlocksInv(input, run[i])
  {
    if i > 0 {
      BlocksOnRun(input, run, i - 1);
      InvOnRun(input, run, i - 1);
      assert Next(run[i - 1], run[i - 1 + 1]);
      BlocksNext(input, run[i - 1], run[i]);
    }
  }

  /** Both report one transfer for every read that returned something, and these reads make up the input. */
  lemma TransfersAreReads(input: string, run: seq<State>, i: nat)
    requires IsRun(input, run) && i < |run| && Final(run[i])
    ensures run[i].wXfrs == run[i].rXfrs == |run[i].blocks|
    ensures Joined(run[i].blocks) == input
    ensures forall b :: 0 <= b < |run[i].blocks| ==> 0 < |run[i].blocks[b]| <= |run[i].buf|
  {
    BlocksOnRun(input, run, i);
    Completion(input, run, i);
    var s := run[i];
    assert |Joined(s.blocks) + s.rem| == |input|;
    InvOnRun(input, run, i);
    assert Joined(s.blocks) + "" == Joined(s.blocks);
  }

  // ---------- progress ----------

  /** Some process can move in every state that is not final. */
  lemma NoDeadlock(input: string, s: State)
    requires Inv(input, s) && !Final(s)
    ensures exists m :: CanMove(s, m)
  {
    var n := if s.rem == "" then 0 else 1;
    assert ReadReturns(n, s.rem, |s.buf|);
    assert CanMove(s, Writer(n)) || CanMove(s, Reader);
  }

  /** Blocks that are still to be read, the empty one at the end included: at most this many. */
  function BlocksLeft(s: State): nat {
    |s.rem| + Bit(!(s.w in {WFinal, WRemove, WDone} || (Uncounted(s) && s.got == 0)))
  }

  function WriterSteps(w: WriterPc): nat {
    match w
    case WStore => 8 case WRelease => 7 case WTest => 6 case WCount => 5 case WReserve => 4 case WRead => 3
    case WFinal => 2 case WRemove => 1 case WDone => 0
  }

  function ReaderSteps(s: State): nat {
    match s.r
    case RReserve => if s.w == WStore || s.w == WRelease || s.readSem == 1 then 6 else 0
    case RTest => 5 case RCount => 4 case RWrite => 3 case RRelease => 2 case RExit => 1 case RDone => 0
  }

  function Measure(s: State): nat {
    12 * BlocksLeft(s) + WriterSteps(s.w) + ReaderSteps(s)
  }

  lemma EveryStepCounts(input: string, s: State, s': State)
    requires Inv(input, s) && Next(s, s')
    ensures Measure(s') < Measure(s)
  {
    var m :| CanMove(s, m) && s' == Apply(s, m);
  }

  lemma {:induction false} MeasureAlongRun(input: string, run: seq<State>, i: nat)
    requires IsRun(input, run) && i < |run|
    ensures Measure(run[i]) + i <= Measure(run[0])
  {
    if i > 0 {
      MeasureAlongRun(input, run, i - 1);
      InvOnRun(input, run, i - 1);
      assert Next(run[i - 1], run[i - 1 + 1]);
      EveryStepCounts(input, run[i - 1], run[i]);
    }
  }

  /**
    Whatever the interleaving and the sizes of the reads, a run has at most
    12 |input| + 17 states, and one that cannot be continued has delivered the
    whole input and ended both processes.
   */
  lemma EveryRunDelivers(input: string, run: seq<State>)
    requires IsRun(input, run)
    ensures |run| <= 12 * |input| + 17
    ensures var s := run[|run| - 1]; Stuck(s) ==>
      Final(s) && s.out == input && s.wBytes == s.rBytes == |input| && s.wXfrs == s.rXfrs
  {
    var last := |run| - 1;
    MeasureAlongRun(input, run, last);
    InvOnRun(input, run, last);
    if !Final(run[last]) {
      NoDeadlock(input, run[last]);
      var m :| CanMove(run[last], m);
    } else {
      Completion(input, run, last);
    }
  }
}
