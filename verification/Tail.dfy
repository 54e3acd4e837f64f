/**
  The tail command of HW2: the file is read in blocks from its end, newlines are
  counted, and what follows the (n + 1)-th is printed.  Byte 0 of a block is
  never looked at, and when the full blocks do not hold enough newlines the
  first block of the file is read again and again.  The outcome is given for
  every file and every n.
 */
module Tail {

  const BUF_SIZE := 4096
  const NL: char := '\n'

  // ---------- counting newlines ----------

  function Count(s: string, lo: nat, hi: nat): (c: nat)
    requires hi <= |s|
    ensures c > 0 ==> lo < hi
    decreases hi
  {
    if hi <= lo then 0 else Count(s, lo, hi - 1) + (if s[hi - 1] == NL then 1 else 0)
  }

  /** The position of the m-th newline from the end of [lo, hi), -1 if there are fewer. */
  function Nth(s: string, lo: nat, hi: nat, m: nat): (p: int)
    requires hi <= |s| && m > 0
    ensures p == -1 || (lo <= p < hi && s[p] == NL)
    decreases hi
  {
    if hi <= lo then -1
    else if s[hi - 1] != NL then Nth(s, lo, hi - 1, m)
    else if m == 1 then hi - 1
    else Nth(s, lo, hi - 1, m - 1)
  }

  lemma {:induction false} NthFound(s: string, lo: nat, hi: nat, m: nat)
    requires hi <= |s| && m > 0
    ensures Nth(s, lo, hi, m) == -1 <==> Count(s, lo, hi) < m
    ensures Nth(s, lo, hi, m) >= 0 ==> Count(s, Nth(s, lo, hi, m), hi) == m
    decreases hi
  {
    if hi > lo {
      if s[hi - 1] != NL {
        NthFound(s, lo, hi - 1, m);
      } else if m > 1 {
        NthFound(s, lo, hi - 1, m - 1);
      } else {
        assert Count(s, hi - 1, hi - 1) == 0;
      }
    }
  }

  lemma {:induction false} CountSplit(s: string, lo: nat, mid: nat, hi: nat)
    requires lo <= mid <= hi <= |s|
    ensures Count(s, lo, hi) == Count(s, lo, mid) + Count(s, mid, hi)
    decreases hi
  {
    if hi > mid {
      CountSplit(s, lo, mid, hi - 1);
    }
  }

  /** Looking for a newline from the end: in the back part if it holds enough, else on in the front part. */
  lemma {:induction false} NthSplit(s: string, lo: nat, mid: nat, hi: nat, m: nat)
    requires lo <= mid <= hi <= |s| && m > 0
    ensures Count(s, mid, hi) >= m ==> Nth(s, lo, hi, m) == Nth(s, mid, hi, m)
    ensures Count(s, mid, hi) < m ==> Nth(s, lo, hi, m) == Nth(s, lo, mid, m - Count(s, mid, hi))
    decreases hi
  {
    if hi > mid {
      if s[hi - 1] != NL {
        NthSplit(s, lo, mid, hi - 1, m);
      } else if m > 1 {
        NthSplit(s, lo, mid, hi - 1, m - 1);
      }
    }
  }

  // ---------- what should be printed ----------

  /** The last line has its newline, if there is a line at all. */
  predicate Terminated(s: string) {
    s == "" || s[|s| - 1] == NL
  }

  /** The lines of s[p..]: one for every newline, and one for what stands behind the last newline. */
  function LinesFrom(s: string, p: nat): nat
    requires p <= |s|
  {
    Count(s, p, |s|) + if p < |s| && !Terminated(s) then 1 else 0
  }

  /** s[p..] consists of whole lines. */
  predicate Boundary(s: string, p: nat)
    requires p <= |s|
  {
    p == 0 || p == |s| || s[p - 1] == NL
  }

  /** s[p..] is the last n lines, or the whole file if it has fewer. */
  predicate IsLastLines(s: string, n: nat, p: nat)
    requires p <= |s|
  {
    Boundary(s, p) && LinesFrom(s, p) == if LinesFrom(s, 0) <= n then LinesFrom(s, 0) else n
  }

  /** Where the last n lines start. */
  function LastLinesStart(s: string, n: nat): (start: nat)
    ensures start <= |s|
  {
    var need := if Terminated(s) then n + 1 else n;
    if need == 0 then |s| else Nth(s, 0, |s|, need) + 1
  }

  lemma StartIsLastLines(s: string, n: nat)
    ensures IsLastLines(s, n, LastLinesStart(s, n))
  {
    var need := if Terminated(s) then n + 1 else n;
    if need > 0 {
      NthFound(s, 0, |s|, need);
      var q := Nth(s, 0, |s|, need);
      if q >= 0 {
        CountSplit(s, q, q + 1, |s|);
        assert Count(s, q, q + 1) == 1 + Count(s, q, q);
        CountSplit(s, 0, q, |s|);
      }
    }
  }

  lemma MoreLinesInFront(s: string, p: nat, p': nat)
    requires p < p' <= |s| && Boundary(s, p')
    ensures LinesFrom(s, p) > LinesFrom(s, p')
  {
    CountSplit(s, p, p' - 1, |s|);
    CountSplit(s, p' - 1, p', |s|);
    assert Count(s, p' - 1, p') == Count(s, p' - 1, p' - 1) + (if s[p' - 1] == NL then 1 else 0);
  }

  /** There is one such place in every file, whether or not its last line has a newline. */
  lemma LastLinesAreLines(s: string, n: nat, p: nat)
    requires p <= |s|
    ensures IsLastLines(s, n, p) <==> p == LastLinesStart(s, n)
  {
    StartIsLastLines(s, n);
    var start := LastLinesStart(s, n);
    if IsLastLines(s, n, p) {
      if p < start { MoreLinesInFront(s, p, start); }
      if start < p { MoreLinesInFront(s, start, p); }
    }
  }

  // ---------- what is printed ----------

  datatype Outcome = Output(start: nat) | SeekFails | NeverEnds

  /** Result of going through the full blocks: the newline sought, or how many are still missing. */
  datatype Scan = Found(pos: nat) | Missing(m: nat)

  /** The full blocks of s[..end] from the back, byte 0 of each left out. */
  function FullBlocks(s: string, end: nat, m: nat): (r: Scan)
    requires end <= |s| && m > 0
    ensures r.Found? ==> end % BUF_SIZE < r.pos < end && s[r.pos] == NL
    ensures r.Missing? ==> 0 < r.m <= m
    decreases end
  {
    if end < BUF_SIZE then Missing(m)
    else
      var lo := end - BUF_SIZE;
      NthFound(s, lo + 1, end, m);
      if Count(s, lo + 1, end) >= m then Found(Nth(s, lo + 1, end, m))
      else FullBlocks(s, lo, m - Count(s, lo + 1, end))
  }

  function TailOutcome(s: string, n: nat): Outcome {
    var size, need := |s|, n + 1;
    if size < BUF_SIZE then
      Output(Nth(s, 1, size, need) + 1)
    else
      match FullBlocks(s, size, need)
      case Found(q) => Output(q + 1)
      case Missing(m) =>
        var left, again := size % BUF_SIZE, Count(s, 1, BUF_SIZE);
        if again == 0 then NeverEnds
        else if m <= again then
          // first reread: positions are taken for those of the block that ends at `left`
          var start := Nth(s, 1, BUF_SIZE, m) + 1 - (BUF_SIZE - left);
          if start >= 0 then Output(start) else SeekFails
        else if m == again + 1 && s[BUF_SIZE - 1] == NL then Output(0)
        else SeekFails
  }

  /** The inner loop over a block that has been read from position lo: from its last byte down to byte 1. */
  method ScanBlock(s: string, lo: nat, readSize: nat, lineCount: nat, need: nat) returns (count: nat, i: int)
    requires lo + readSize <= |s| && lineCount < need
    ensures count == (if lineCount + Count(s, lo + 1, lo + readSize) >= need then need
                      else lineCount + Count(s, lo + 1, lo + readSize))
    ensures count == need ==> lo + i == Nth(s, lo + 1, lo + readSize, need - lineCount) >= 0
  {
    count, i := lineCount, readSize - 1;
    while i > 0
      invariant -1 <= i < readSize && count < need
      invariant count + Count(s, lo + 1, lo + i + 1) == lineCount + Count(s, lo + 1, lo + readSize)
      invariant Nth(s, lo + 1, lo + i + 1, need - count) == Nth(s, lo + 1, lo + readSize, need - lineCount)
    {
      if s[lo + i] == NL {
        count := count + 1;
      }
      if count == need {
        return;
      }
      i := i - 1;
    }
  }

  /** Where the reading stands. */
  datatype Phase =
    | Whole                // the file fits in one block
    | Full(end: nat)       // next is the full block that ends here
    | Again(t: nat)        // next is reread t of the first block

  /** What the variables of the loop mean at the start of a round; m newlines are still missing. */
  ghost predicate LoopState(s: string, n: nat, ph: Phase, m: nat, offset: nat, seekSize: nat, pos: nat) {
    var size := |s|;
    0 < m <= n + 1 &&
    match ph
    case Whole => size < BUF_SIZE && m == n + 1 && pos == 0 && offset == 0
    case Full(end) =>
      && size >= BUF_SIZE && BUF_SIZE <= end <= size && end % BUF_SIZE == size % BUF_SIZE
      && offset == size - end && seekSize == BUF_SIZE && pos == end - BUF_SIZE
      && FullBlocks(s, size, n + 1) == FullBlocks(s, end, m)
    case Again(t) =>
      && size >= BUF_SIZE && pos == 0 && t >= 1 && seekSize <= BUF_SIZE
      && FullBlocks(s, size, n + 1).Missing?
      && var m0, again, left := FullBlocks(s, size, n + 1).m, Count(s, 1, BUF_SIZE), size % BUF_SIZE;
      && (t == 1 ==> m == m0 && offset == size - left && seekSize == left)
      && (t == 2 ==> m + again == m0 && offset == size && seekSize == BUF_SIZE - left)
      && (t >= 3 ==> m + 2 * again <= m0 && offset > size)
  }

  /** Rounds that are still to come, if the loop ends at all: at most this many. */
  function Rounds(ph: Phase, m: nat): nat {
    match ph case Whole => m case Full(end) => end / BUF_SIZE + m case Again(_) => m
  }

  /** lseek from the end, then copying to the end of the file. */
  function Print(s: string, offset: int): Outcome {
    if 0 <= offset <= |s| then Output(|s| - offset) else SeekFails
  }

  /** A newline that completes the count, in a full block or in a reread: the outcome is settled. */
  lemma FoundIn(s: string, n: nat, ph: Phase, m: nat, offset: nat, seekSize: nat, pos: nat, i: nat)
    requires LoopState(s, n, ph, m, offset, seekSize, pos) && !ph.Whole?
    requires Count(s, pos + 1, pos + BUF_SIZE) >= m && pos + i == Nth(s, pos + 1, pos + BUF_SIZE, m)
    ensures Print(s, offset + (BUF_SIZE - i) - 1) == TailOutcome(s, n)
  {
    match ph {
      case Full(_) => FoundInFull(s, n, ph, m, offset, seekSize, pos, i);
      case Again(t) =>
        if t == 1 {
          FoundAgain(s, n, ph, m, offset, seekSize, i);
        } else if t == 2 {
          LastByte(s, m);
        } else {
          TooFar(s, n, ph, m, offset, seekSize, pos, i);
        }
    }
  }

  lemma FoundInFull(s: string, n: nat, ph: Phase, m: nat, offset: nat, seekSize: nat, pos: nat, i: nat)
    requires LoopState(s, n, ph, m, offset, seekSize, pos) && ph.Full?
    requires Count(s, pos + 1, pos + BUF_SIZE) >= m && pos + i == Nth(s, pos + 1, pos + BUF_SIZE, m)
    ensures Print(s, offset + (BUF_SIZE - i) - 1) == TailOutcome(s, n)
  {
  }

  lemma FoundAgain(s: string, n: nat, ph: Phase, m: nat, offset: nat, seekSize: nat, i: nat)
    requires LoopState(s, n, ph, m, offset, seekSize, 0) && ph == Again(1)
    requires Count(s, 1, BUF_SIZE) >= m && i == Nth(s, 1, BUF_SIZE, m)
    ensures Print(s, offset + (BUF_SIZE - i) - 1) == TailOutcome(s, n)
  {
  }

  lemma TooFar(s: string, n: nat, ph: Phase, m: nat, offset: nat, seekSize: nat, pos: nat, i: nat)
    requires LoopState(s, n, ph, m, offset, seekSize, pos) && ph.Again? && ph.t >= 3
    requires Count(s, 1, BUF_SIZE) >= m && i == Nth(s, 1, BUF_SIZE, m)
    ensures Print(s, offset + (BUF_SIZE - i) - 1) == SeekFails == TailOutcome(s, n)
  {
  }

  /** The newline found is the last byte of the block exactly when one was missing and that byte is a newline. */
  lemma LastByte(s: string, m: nat)
    requires |s| >= BUF_SIZE && m > 0
    ensures Nth(s, 1, BUF_SIZE, m) == BUF_SIZE - 1 <==> m == 1 && s[BUF_SIZE - 1] == NL
  {
  }

  /** The phase after a block that did not hold enough newlines. */
  function NextPhase(ph: Phase): Phase
    requires !ph.Whole?
  {
    match ph
    case Full(end) => if end >= 2 * BUF_SIZE then Full(end - BUF_SIZE) else Again(1)
    case Again(t) => Again(t + 1)
  }

  /** Going back: over the block just read, and then over the next one, as far as the file goes. */
  lemma NotFoundIn(s: string, n: nat, ph: Phase, m: nat, offset: nat, seekSize: nat, pos: nat)
    requires LoopState(s, n, ph, m, offset, seekSize, pos) && !ph.Whole?
    requires Count(s, pos + 1, pos + BUF_SIZE) < m
    ensures var cur := pos + BUF_SIZE - seekSize; var seek := if BUF_SIZE < cur then BUF_SIZE else cur;
      && cur - seek >= 0
      && LoopState(s, n, NextPhase(ph), m - Count(s, pos + 1, pos + BUF_SIZE), offset + seekSize, seek, cur - seek)
  {
    match ph {
      case Full(end) =>
        NotFoundInFull(s, n, end, m, offset);
      case Again(t) =>
        NotFoundAgain(s, n, t, m, offset, seekSize);
    }
  }

  lemma FewerRounds(s: string, n: nat, ph: Phase, m: nat, offset: nat, seekSize: nat, pos: nat)
    requires LoopState(s, n, ph, m, offset, seekSize, pos) && !ph.Whole?
    requires Count(s, pos + 1, pos + BUF_SIZE) < m
    ensures ph.Full? || Count(s, 1, BUF_SIZE) > 0 ==>
      Rounds(NextPhase(ph), m - Count(s, pos + 1, pos + BUF_SIZE)) < Rounds(ph, m)
  {
    if ph.Full? {
      assert ph.end / BUF_SIZE >= 1 && (ph.end - BUF_SIZE) / BUF_SIZE == ph.end / BUF_SIZE - 1;
    }
  }

  lemma NotFoundAgain(s: string, n: nat, t: nat, m: nat, offset: nat, seekSize: nat)
    requires LoopState(s, n, Again(t), m, offset, seekSize, 0) && Count(s, 1, BUF_SIZE) < m
    ensures LoopState(s, n, Again(t + 1), m - Count(s, 1, BUF_SIZE), offset + seekSize, BUF_SIZE - seekSize, 0)
  {
  }

  lemma NotFoundInFull(s: string, n: nat, end: nat, m: nat, offset: nat)
    requires end >= BUF_SIZE && LoopState(s, n, Full(end), m, offset, BUF_SIZE, end - BUF_SIZE)
    requires Count(s, end - BUF_SIZE + 1, end) < m
    ensures var lo, m' := end - BUF_SIZE, m - Count(s, end - BUF_SIZE + 1, end);
      && (lo >= BUF_SIZE ==> LoopState(s, n, Full(lo), m', offset + BUF_SIZE, BUF_SIZE, lo - BUF_SIZE))
      && (lo < BUF_SIZE ==> LoopState(s, n, Again(1), m', offset + BUF_SIZE, lo, 0))
  {
    var lo, m' := end - BUF_SIZE, m - Count(s, end - BUF_SIZE + 1, end);
    assert lo % BUF_SIZE == end % BUF_SIZE;
    assert FullBlocks(s, end, m) == FullBlocks(s, lo, m');
    if lo < BUF_SIZE {
      assert FullBlocks(s, lo, m') == Missing(m');
    }
  }

  /**
    The first `rounds` rounds of the loop.  If it ends within them the outcome
    is the one given; if it does not, it never ends or the rounds were too few.
   */
  method Tail(s: string, n: nat, rounds: nat) returns (ended: bool, r: Outcome)
    ensures ended ==> r == TailOutcome(s, n) != NeverEnds
    ensures !ended ==> TailOutcome(s, n) == NeverEnds || rounds <= |s| / BUF_SIZE + n
  {
    var size, need := |s|, n + 1;
    var lineCount, offset: int := 0, 0;
    var seekSize := if BUF_SIZE < size then BUF_SIZE else size;
    var pos := size - seekSize;
    ghost var ph := if size < BUF_SIZE then Whole else Full(size);
    AtStart(s, n);
    var k := 0;
    while lineCount < need && k < rounds
      invariant 0 <= k <= rounds && lineCount < need
      invariant InLoop(s, n, ph, lineCount, offset, seekSize, pos, k)
      decreases rounds - k
    {
      ended, lineCount, offset, seekSize, pos := Round(s, n, lineCount, offset, seekSize, pos, ph, k);
      if ended {
        return true, Print(s, offset);
      }
      ph := NextPhase(ph);
      k := k + 1;
    }
    RoundsSpent(s, n, ph, lineCount, offset, seekSize, pos, k);
    return false, SeekFails;
  }

  /** A round that did not break out leads to the next phase, and a loop that ends at all has fewer rounds to come. */
  ghost predicate Advanced(s: string, n: nat, ph: Phase, m: nat, m': nat, offset: nat, seekSize: nat, pos: nat) {
    && !ph.Whole?
    && LoopState(s, n, NextPhase(ph), m', offset, seekSize, pos)
    && (TailOutcome(s, n) != NeverEnds ==> Rounds(NextPhase(ph), m') < Rounds(ph, m))
  }

  /** After k rounds, a loop that ends at all has no more to come than the bound allows. */
  ghost predicate EndsInTime(s: string, n: nat, ph: Phase, m: nat, k: nat) {
    TailOutcome(s, n) != NeverEnds ==> k + Rounds(ph, m) <= |s| / BUF_SIZE + n + 1
  }

  /** What holds at the top of the loop after k rounds. */
  ghost predicate InLoop(s: string, n: nat, ph: Phase, lineCount: int, offset: int, seekSize: int, pos: int, k: nat) {
    && 0 <= lineCount <= n && offset >= 0 && seekSize >= 0 && pos >= 0
    && LoopState(s, n, ph, n + 1 - lineCount, offset, seekSize, pos)
    && EndsInTime(s, n, ph, n + 1 - lineCount, k)
  }

  lemma AtStart(s: string, n: nat)
    ensures var size := |s|; var seek := if BUF_SIZE < size then BUF_SIZE else size;
      InLoop(s, n, if size < BUF_SIZE then Whole else Full(size), 0, 0, seek, size - seek, 0)
  {
  }

  lemma RoundsSpent(s: string, n: nat, ph: Phase, lineCount: int, offset: int, seekSize: int, pos: int, k: nat)
    requires InLoop(s, n, ph, lineCount, offset, seekSize, pos, k)
    ensures TailOutcome(s, n) == NeverEnds || k <= |s| / BUF_SIZE + n
  {
  }

  /** Read the block at pos and scan it. */
  method ReadBlock(s: string, n: nat, lineCount: nat, offset: nat, seekSize: nat, pos: nat, ghost ph: Phase)
    returns (count: nat, i: int, readSize: nat)
    requires lineCount <= n && LoopState(s, n, ph, n + 1 - lineCount, offset, seekSize, pos)
    ensures count <= n + 1
    ensures count == n + 1 ==> Print(s, offset + (readSize - i) - 1) == TailOutcome(s, n) != NeverEnds
    ensures count <= n && readSize < BUF_SIZE ==> Print(s, |s|) == TailOutcome(s, n) != NeverEnds
    ensures count <= n && readSize >= BUF_SIZE ==>
      !ph.Whole? && readSize == BUF_SIZE && pos + BUF_SIZE <= |s|
      && count == lineCount + Count(s, pos + 1, pos + BUF_SIZE)
  {
    ghost var m := n + 1 - lineCount;
    BlockSize(s, n, ph, m, offset, seekSize, pos);
    readSize := if pos + BUF_SIZE <= |s| then BUF_SIZE else |s| - pos;
    count, i := ScanBlock(s, pos, readSize, lineCount, n + 1);
    if count == n + 1 {
      Settled(s, n, ph, m, offset, seekSize, pos, readSize, i);
    } else if readSize < BUF_SIZE {
      TooFewLines(s, n, ph, m, offset, seekSize, pos);
    }
  }

  /** The body of the loop; `ended` when it breaks out. */
  method Round(s: string, n: nat, lineCount: int, offset: int, seekSize: int, pos: int, ghost ph: Phase, ghost k: nat)
    returns (ended: bool, lineCount': int, offset': int, seekSize': int, pos': int)
    requires InLoop(s, n, ph, lineCount, offset, seekSize, pos, k)
    ensures ended ==> Print(s, offset') == TailOutcome(s, n) != NeverEnds
    ensures !ended ==> !ph.Whole? && InLoop(s, n, NextPhase(ph), lineCount', offset', seekSize', pos', k + 1)
    ensures !ended ==> lineCount' <= n
  {
    var i, readSize;
    lineCount', i, readSize := ReadBlock(s, n, lineCount, offset, seekSize, pos, ph);
    ended, offset', seekSize', pos' := true, offset, seekSize, pos;
    if lineCount' == n + 1 {
      offset' := offset + (readSize - i);
      offset' := offset' - 1;
    } else if readSize < BUF_SIZE {
      offset' := |s|;
    } else {
      NextRound(s, n, ph, n + 1 - lineCount, offset, seekSize, pos);
      ended := false;
      offset' := offset + seekSize;
      var cur := pos + readSize - seekSize;
      seekSize' := SeekBack(cur);
      pos' := cur - seekSize';
    }
  }

  lemma BlockSize(s: string, n: nat, ph: Phase, m: nat, offset: nat, seekSize: nat, pos: nat)
    requires LoopState(s, n, ph, m, offset, seekSize, pos)
    ensures ph.Whole? <==> pos + BUF_SIZE > |s|
    ensures pos <= |s|
  {
  }

  lemma Settled(s: string, n: nat, ph: Phase, m: nat, offset: nat, seekSize: nat, pos: nat, readSize: nat, i: int)
    requires LoopState(s, n, ph, m, offset, seekSize, pos)
    requires readSize == (if ph.Whole? then |s| else BUF_SIZE) && pos + readSize <= |s|
    requires pos + i == Nth(s, pos + 1, pos + readSize, m) >= 0
    ensures Print(s, offset + (readSize - i) - 1) == TailOutcome(s, n) != NeverEnds
  {
    NthFound(s, pos + 1, pos + readSize, m);
    if !ph.Whole? {
      FoundIn(s, n, ph, m, offset, seekSize, pos, i);
    }
  }

  lemma TooFewLines(s: string, n: nat, ph: Phase, m: nat, offset: nat, seekSize: nat, pos: nat)
    requires LoopState(s, n, ph, m, offset, seekSize, pos) && ph.Whole? && Count(s, 1, |s|) < m
    ensures Print(s, |s|) == TailOutcome(s, n) != NeverEnds
  {
    NthFound(s, 1, |s|, m);
  }

  /** The seek and the position of the next round. */
  function SeekBack(cur: nat): (seek: nat)
    ensures seek <= cur
  {
    if BUF_SIZE < cur then BUF_SIZE else cur
  }

  lemma NextRound(s: string, n: nat, ph: Phase, m: nat, offset: nat, seekSize: nat, pos: nat)
    requires LoopState(s, n, ph, m, offset, seekSize, pos) && !ph.Whole?
    requires Count(s, pos + 1, pos + BUF_SIZE) < m
    ensures var cur := pos + BUF_SIZE - seekSize;
      cur >= 0 && Advanced(s, n, ph, m, m - Count(s, pos + 1, pos + BUF_SIZE), offset + seekSize,
                           SeekBack(cur), cur - SeekBack(cur))
  {
    NotFoundIn(s, n, ph, m, offset, seekSize, pos);
    FewerRounds(s, n, ph, m, offset, seekSize, pos);
  }

  // ---------- when the last n lines are printed ----------

  ghost predicate Right(s: string, n: nat) {
    TailOutcome(s, n) == Output(LastLinesStart(s, n))
  }

  /** A newline with exactly m newlines from it to the end is the m-th from the end. */
  lemma NthIs(s: string, lo: nat, q: nat, hi: nat, m: nat)
    requires lo <= q < hi <= |s| && m > 0 && s[q] == NL
    ensures Count(s, q, hi) == m ==> Nth(s, lo, hi, m) == q
    ensures Count(s, q, hi) > m ==> Nth(s, lo, hi, m) > q
  {
    NthSplit(s, lo, q, hi, m);
    NthFound(s, q, hi, m);
    if Count(s, q, hi) >= m {
      var p := Nth(s, q, hi, m);
      CountSplit(s, q, p, hi);
      if p > q {
        CountSplit(s, q, q + 1, p);
        assert Count(s, q, q + 1) == 1 + Count(s, q, q);
      }
    }
  }

  lemma NthIffCount(s: string, lo: nat, hi: nat, m: nat, p: nat)
    requires lo <= p < hi <= |s| && m > 0
    ensures Nth(s, lo, hi, m) == p <==> s[p] == NL && Count(s, p, hi) == m
    ensures s[p] == NL && Count(s, p, hi) == m ==> m <= Count(s, lo, hi)
  {
    NthFound(s, lo, hi, m);
    if s[p] == NL {
      NthIs(s, lo, p, hi, m);
      CountSplit(s, lo, p, hi);
    }
  }

  /** More than n newlines from p on: the last n lines start behind p, if unterminated not right behind it. */
  lemma StartsBehind(s: string, n: nat, p: nat)
    requires p < |s| && s[p] == NL && Count(s, p, |s|) > n
    ensures LastLinesStart(s, n) > p
    ensures !Terminated(s) || Count(s, p, |s|) > n + 1 ==> LastLinesStart(s, n) > p + 1
  {
    NthIs(s, 0, p, |s|, n + 1);
    if n > 0 { NthIs(s, 0, p, |s|, n); }
  }

  lemma ShortTerminated(s: string, n: nat)
    requires 0 < |s| < BUF_SIZE && Terminated(s)
    ensures Right(s, n) <==> !(s[0] == NL && Count(s, 0, |s|) == n + 1)
  {
    NthSplit(s, 0, 1, |s|, n + 1);
    CountSplit(s, 0, 1, |s|);
    assert Count(s, 0, 1) == (if s[0] == NL then 1 else 0);
    NthFound(s, 1, |s|, n + 1);
    if Count(s, 1, |s|) <= n {
      var m := n + 1 - Count(s, 1, |s|);
      NthFound(s, 0, 1, m);
    }
  }

  lemma ShortUnterminated(s: string, n: nat)
    requires 0 < |s| < BUF_SIZE && !Terminated(s)
    ensures Right(s, n) <==> Count(s, 0, |s|) < n
  {
    var p := Nth(s, 1, |s|, n + 1);
    NthFound(s, 1, |s|, n + 1);
    CountSplit(s, 0, 1, |s|);
    if p >= 0 { StartsBehind(s, n, p); }
    if n > 0 { NthFound(s, 0, |s|, n); }
  }

  /**
    Shorter than a block.  If the last line has its newline, the output is wrong
    only if the file starts with a newline and this is exactly the one sought.
    If it has none, the output is right only if there are too few lines anyway.
   */
  lemma RightIfShort(s: string, n: nat)
    requires |s| < BUF_SIZE
    ensures Right(s, n) <==>
      if Terminated(s) then !(s != "" && s[0] == NL && Count(s, 0, |s|) == n + 1) else Count(s, 0, |s|) < n
  {
    if s != "" {
      if Terminated(s) { ShortTerminated(s, n); } else { ShortUnterminated(s, n); }
    }
  }

  /** Byte 0 of a block, blocks counted from the end. */
  predicate BlockStart(end: nat, p: int) {
    (end - p) % BUF_SIZE == 0
  }

  /** No newline from q on is byte 0 of a block. */
  ghost predicate NoneHidden(s: string, q: nat, end: nat)
    requires end <= |s|
  {
    forall p :: q <= p < end && BlockStart(end, p) ==> s[p] != NL
  }

  lemma BlockStartStep(end: nat, p: int)
    requires end >= BUF_SIZE && p < end
    ensures BlockStart(end, p) <==> p <= end - BUF_SIZE && BlockStart(end - BUF_SIZE, p)
  {
  }

  lemma HiddenStep(s: string, q: nat, end: nat)
    requires BUF_SIZE <= end <= |s| && q < end - BUF_SIZE
    ensures NoneHidden(s, q, end) <==> NoneHidden(s, q, end - BUF_SIZE) && s[end - BUF_SIZE] != NL
  {
    var lo := end - BUF_SIZE;
    forall p | q <= p < end ensures BlockStart(end, p) <==> p <= lo && BlockStart(lo, p) {
      BlockStartStep(end, p);
    }
    assert BlockStart(lo, lo);
  }

  /** What the full blocks yield is at least the newline sought, and that one exactly if none was hidden. */
  lemma {:induction false} FoundCounts(s: string, end: nat, m: nat)
    requires end <= |s| && m > 0 && FullBlocks(s, end, m).Found?
    ensures var q := FullBlocks(s, end, m).pos;
      && !BlockStart(end, q)
      && if NoneHidden(s, q, end) then Count(s, q, end) == m else Count(s, q, end) > m
    decreases end
  {
    var lo := end - BUF_SIZE;
    var c, q := Count(s, lo + 1, end), FullBlocks(s, end, m).pos;
    if c >= m {
      NthFound(s, lo + 1, end, m);
      forall p | q <= p < end ensures !BlockStart(end, p) {
        BlockStartStep(end, p);
      }
    } else {
      FoundCounts(s, lo, m - c);
      BlockStartStep(end, q);
      HiddenStep(s, q, end);
      CountSplit(s, q, lo, end);
      CountSplit(s, lo, lo + 1, end);
      assert Count(s, lo, lo + 1) == (if s[lo] == NL then 1 else 0);
    }
  }

  lemma FoundHere(s: string, end: nat, m: nat, q: nat)
    requires BUF_SIZE <= end <= |s| && end - BUF_SIZE < q < end && s[q] == NL && Count(s, q, end) == m > 0
    ensures FullBlocks(s, end, m) == Found(q)
  {
    CountSplit(s, end - BUF_SIZE + 1, q, end);
    NthIs(s, end - BUF_SIZE + 1, q, end, m);
  }

  lemma FoundFurther(s: string, end: nat, m: nat, q: nat)
    requires BUF_SIZE <= end <= |s| && q < end - BUF_SIZE && s[q] == NL && Count(s, q, end) == m
    requires NoneHidden(s, q, end)
    ensures var lo := end - BUF_SIZE; var c := Count(s, lo + 1, end);
      && Count(s, q, lo) == m - c > 0 && NoneHidden(s, q, lo)
      && FullBlocks(s, end, m) == FullBlocks(s, lo, m - c)
  {
    var lo := end - BUF_SIZE;
    HiddenStep(s, q, end);
    CountSplit(s, q, lo, end);
    CountSplit(s, lo, lo + 1, end);
    assert Count(s, lo, lo + 1) == 0;
    SelfCounts(s, q, lo);
  }

  /** What lies in the full blocks and not at the start of one lies inside the last of them or in front of it. */
  lemma InFullBlocks(s: string, end: nat, q: nat)
    requires end <= |s| && end % BUF_SIZE <= q < end && s[q] == NL && NoneHidden(s, q, end)
    ensures end >= BUF_SIZE && q != end - BUF_SIZE && (end - BUF_SIZE) % BUF_SIZE == end % BUF_SIZE
  {
    if end >= BUF_SIZE {
      assert BlockStart(end, end - BUF_SIZE);
    }
  }

  lemma SelfCounts(s: string, q: nat, end: nat)
    requires q < end <= |s| && s[q] == NL
    ensures Count(s, q, end) > 0
  {
    CountSplit(s, q, q + 1, end);
    assert Count(s, q, q + 1) == 1 + Count(s, q, q);
  }

  /** A newline in the full blocks is found if neither it nor any behind it is hidden. */
  lemma {:induction false} FoundIfNoneHidden(s: string, end: nat, m: nat, q: nat)
    requires end <= |s| && end % BUF_SIZE <= q < end && s[q] == NL && Count(s, q, end) == m
    requires NoneHidden(s, q, end)
    ensures m > 0 && FullBlocks(s, end, m) == Found(q)
    decreases end
  {
    InFullBlocks(s, end, q);
    SelfCounts(s, q, end);
    var lo := end - BUF_SIZE;
    if q > lo {
      FoundHere(s, end, m, q);
    } else {
      FoundFurther(s, end, m, q);
      FoundIfNoneHidden(s, lo, m - Count(s, lo + 1, end), q);
    }
  }

  /** What a reread prints starts in front of the full blocks, or with the first of them. */
  lemma RereadStartsInFront(s: string, n: nat)
    requires |s| >= BUF_SIZE && FullBlocks(s, |s|, n + 1).Missing? && TailOutcome(s, n).Output?
    ensures TailOutcome(s, n).start <= |s| % BUF_SIZE
  {
  }

  lemma RightIfNoneHidden(s: string, n: nat)
    requires |s| >= BUF_SIZE && Terminated(s) && LastLinesStart(s, n) > |s| % BUF_SIZE
    requires NoneHidden(s, LastLinesStart(s, n) - 1, |s|)
    ensures Right(s, n)
  {
    NthFound(s, 0, |s|, n + 1);
    FoundIfNoneHidden(s, |s|, n + 1, Nth(s, 0, |s|, n + 1));
  }

  lemma NoneHiddenIfRight(s: string, n: nat)
    requires |s| >= BUF_SIZE && Terminated(s) && LastLinesStart(s, n) > |s| % BUF_SIZE
    requires Right(s, n)
    ensures NoneHidden(s, LastLinesStart(s, n) - 1, |s|)
  {
    RightIsFound(s, n);
    NthFound(s, 0, |s|, n + 1);
    FoundCounts(s, |s|, n + 1);
  }

  lemma RightIsFound(s: string, n: nat)
    requires |s| >= BUF_SIZE && LastLinesStart(s, n) > |s| % BUF_SIZE && Right(s, n)
    ensures FullBlocks(s, |s|, n + 1) == Found(LastLinesStart(s, n) - 1)
  {
    if FullBlocks(s, |s|, n + 1).Missing? { RereadStartsInFront(s, n); }
  }

  /**
    The last n lines start in the full blocks, blocks counted from the end: they
    are printed exactly if the last line has its newline and neither the newline
    in front of them nor any behind it is byte 0 of a block.
   */
  lemma RightIfInFullBlocks(s: string, n: nat)
    requires |s| >= BUF_SIZE && LastLinesStart(s, n) > |s| % BUF_SIZE
    ensures Right(s, n) <==> Terminated(s) && NoneHidden(s, LastLinesStart(s, n) - 1, |s|)
  {
    if Terminated(s) {
      if Right(s, n) { NoneHiddenIfRight(s, n); }
      if NoneHidden(s, LastLinesStart(s, n) - 1, |s|) { RightIfNoneHidden(s, n); }
    } else if FullBlocks(s, |s|, n + 1).Found? {
      FoundCounts(s, |s|, n + 1);
      StartsBehind(s, n, FullBlocks(s, |s|, n + 1).pos);
    } else if Right(s, n) {
      RereadStartsInFront(s, n);
    }
  }

  /** Newlines of [lo, hi) that are not byte 0 of a block. */
  function Visible(s: string, lo: nat, hi: nat): nat
    requires hi <= |s|
    decreases hi
  {
    if hi <= lo then 0
    else Visible(s, lo, hi - 1) + if s[hi - 1] == NL && !BlockStart(|s|, hi - 1) then 1 else 0
  }

  lemma {:induction false} VisibleSplit(s: string, lo: nat, mid: nat, hi: nat)
    requires lo <= mid <= hi <= |s|
    ensures Visible(s, lo, hi) == Visible(s, lo, mid) + Visible(s, mid, hi)
    decreases hi
  {
    if mid < hi { VisibleSplit(s, lo, mid, hi - 1); }
  }

  /** Behind the start of a block, up to its end, all newlines are visible. */
  lemma {:induction false} VisibleInBlock(s: string, lo: nat, hi: nat)
    requires lo < hi <= |s| && hi <= lo + BUF_SIZE && BlockStart(|s|, lo)
    ensures Visible(s, lo, hi) == Count(s, lo + 1, hi)
    decreases hi
  {
    if hi > lo + 1 {
      VisibleInBlock(s, lo, hi - 1);
      assert !BlockStart(|s|, hi - 1);
    }
  }

  lemma BlockBefore(size: nat, end: nat)
    requires BUF_SIZE <= end <= size && BlockStart(size, end)
    ensures BlockStart(size, end - BUF_SIZE) && (end - BUF_SIZE) % BUF_SIZE == end % BUF_SIZE <= end - BUF_SIZE
  {
  }

  /** What the full blocks leave missing is what they do not show. */
  lemma {:induction false} MissingIsInvisible(s: string, end: nat, m: nat)
    requires end <= |s| && m > 0 && BlockStart(|s|, end)
    ensures FullBlocks(s, end, m).Missing? <==> Visible(s, end % BUF_SIZE, end) < m
    ensures FullBlocks(s, end, m).Missing? ==> FullBlocks(s, end, m).m == m - Visible(s, end % BUF_SIZE, end)
    decreases end
  {
    if end >= BUF_SIZE {
      var lo := end - BUF_SIZE;
      BlockBefore(|s|, end);
      VisibleInBlock(s, lo, end);
      VisibleSplit(s, end % BUF_SIZE, lo, end);
      if Count(s, lo + 1, end) < m {
        MissingIsInvisible(s, lo, m - Count(s, lo + 1, end));
      }
    }
  }

  /**
    Rereading the first block with m newlines missing leads to `start`: because
    the m-th from the end of that block stands as far from its end as `start`
    from the end of the part in front of the full blocks, or at the very end of
    the second reread.
   */
  predicate Coincides(s: string, m: nat, start: nat)
    requires |s| >= BUF_SIZE && start <= |s| % BUF_SIZE
  {
    var p := start + BUF_SIZE - 1 - |s| % BUF_SIZE;
    || (p >= 1 && s[p] == NL && Count(s, p, BUF_SIZE) == m)
    || (start == 0 && s[BUF_SIZE - 1] == NL && m == Count(s, 1, BUF_SIZE) + 1 > 1)
  }

  lemma RereadGives(s: string, n: nat, start: nat)
    requires |s| >= BUF_SIZE && start <= |s| % BUF_SIZE && FullBlocks(s, |s|, n + 1).Missing?
    ensures TailOutcome(s, n) == Output(start) <==> Coincides(s, FullBlocks(s, |s|, n + 1).m, start)
  {
    var m, p := FullBlocks(s, |s|, n + 1).m, start + BUF_SIZE - 1 - |s| % BUF_SIZE;
    NthFound(s, 1, BUF_SIZE, m);
    if p >= 1 { NthIffCount(s, 1, BUF_SIZE, m, p); }
    assert m <= Count(s, 1, BUF_SIZE) ==> (TailOutcome(s, n) == Output(start) <==> Nth(s, 1, BUF_SIZE, m) == p);
  }

  /**
    The last n lines start in front of the full blocks or with the first of
    them: the full blocks never show enough newlines, the first block is read
    again, and the output is right only by a coincidence of positions.
   */
  lemma RightIfReread(s: string, n: nat)
    requires |s| >= BUF_SIZE && LastLinesStart(s, n) <= |s| % BUF_SIZE
    ensures var seen := Visible(s, |s| % BUF_SIZE, |s|);
      seen <= n && (Right(s, n) <==> Coincides(s, n + 1 - seen, LastLinesStart(s, n)))
  {
    if FullBlocks(s, |s|, n + 1).Found? {
      FoundCounts(s, |s|, n + 1);
      StartsBehind(s, n, FullBlocks(s, |s|, n + 1).pos);
    }
    MissingIsInvisible(s, |s|, n + 1);
    RereadGives(s, n, LastLinesStart(s, n));
  }

  // ---------- what is printed, said by counting ----------

  /** The newline that the full blocks yield is the m-th visible one from the end. */
  lemma {:induction false} FoundIsVisible(s: string, end: nat, m: nat)
    requires end <= |s| && m > 0 && BlockStart(|s|, end) && FullBlocks(s, end, m).Found?
    ensures var q := FullBlocks(s, end, m).pos; !BlockStart(|s|, q) && Visible(s, q, end) == m
    decreases end
  {
    var lo := end - BUF_SIZE;
    BlockBefore(|s|, end);
    VisibleInBlock(s, lo, end);
    var q := FullBlocks(s, end, m).pos;
    if Count(s, lo + 1, end) >= m {
      NthFound(s, lo + 1, end, m);
      assert !BlockStart(|s|, q);
      VisibleFrom(s, lo, q, end);
    } else {
      FoundIsVisible(s, lo, m - Count(s, lo + 1, end));
      VisibleSplit(s, q, lo, end);
    }
  }

  /** Inside a block all newlines are visible. */
  lemma {:induction false} VisibleFrom(s: string, lo: nat, q: nat, hi: nat)
    requires lo < q <= hi <= |s| && hi <= lo + BUF_SIZE && BlockStart(|s|, lo)
    ensures Visible(s, q, hi) == Count(s, q, hi)
    decreases hi
  {
    if hi > q {
      VisibleFrom(s, lo, q, hi - 1);
      assert !BlockStart(|s|, hi - 1);
    }
  }

  lemma FewerVisible(s: string, p: nat, q: nat)
    requires p < q <= |s| && s[p] == NL && !BlockStart(|s|, p)
    ensures Visible(s, p, |s|) > Visible(s, q, |s|)
  {
    VisibleSplit(s, p, q, |s|);
    VisibleSplit(s, p, p + 1, q);
    assert Visible(s, p, p + 1) == Visible(s, p, p) + 1;
  }

  /** Printing starts behind p in the full blocks exactly if p is the (n + 1)-th visible newline from the end. */
  lemma PrintedFromFullBlocks(s: string, n: nat, p: nat)
    requires |s| >= BUF_SIZE && |s| % BUF_SIZE <= p < |s|
    ensures TailOutcome(s, n) == Output(p + 1) <==>
      s[p] == NL && !BlockStart(|s|, p) && Visible(s, p, |s|) == n + 1
  {
    var left := |s| % BUF_SIZE;
    MissingIsInvisible(s, |s|, n + 1);
    VisibleSplit(s, left, p, |s|);
    if FullBlocks(s, |s|, n + 1).Found? {
      var q := FullBlocks(s, |s|, n + 1).pos;
      FoundIsVisible(s, |s|, n + 1);
      if s[p] == NL && !BlockStart(|s|, p) && Visible(s, p, |s|) == n + 1 {
        if p < q { FewerVisible(s, p, q); }
        if q < p { FewerVisible(s, q, p); }
      }
    } else if TailOutcome(s, n).Output? {
      RereadStartsInFront(s, n);
    }
  }

  /** It starts no later than the full blocks exactly if these show too few newlines and a reread leads there. */
  lemma PrintedFromReread(s: string, n: nat, start: nat)
    requires |s| >= BUF_SIZE && start <= |s| % BUF_SIZE
    ensures var seen := Visible(s, |s| % BUF_SIZE, |s|);
      TailOutcome(s, n) == Output(start) <==> seen <= n && Coincides(s, n + 1 - seen, start)
  {
    MissingIsInvisible(s, |s|, n + 1);
    if FullBlocks(s, |s|, n + 1).Missing? {
      RereadGives(s, n, start);
    }
  }

  /** It never starts, the loop going on for ever, exactly if the first block has no newline behind its byte 0 then. */
  lemma NeverEndsIff(s: string, n: nat)
    ensures TailOutcome(s, n) == NeverEnds <==>
      |s| >= BUF_SIZE && Visible(s, |s| % BUF_SIZE, |s|) <= n && Count(s, 1, BUF_SIZE) == 0
  {
    if |s| >= BUF_SIZE {
      MissingIsInvisible(s, |s|, n + 1);
    }
  }

  /** A file shorter than a block: behind the (n + 1)-th newline from the end, byte 0 not counted, or all of it. */
  lemma PrintedFromShort(s: string, n: nat, start: nat)
    requires |s| < BUF_SIZE
    ensures TailOutcome(s, n) == Output(start) <==>
      if start == 0 then Count(s, 1, |s|) <= n
      else 1 < start <= |s| && s[start - 1] == NL && Count(s, start - 1, |s|) == n + 1
  {
    NthFound(s, 1, |s|, n + 1);
    if 1 < start <= |s| {
      NthIffCount(s, 1, |s|, n + 1, start - 1);
    }
  }

  // ---------- inputs for which the output is wrong ----------

  /** A file that is one empty line: asked for no lines, the program prints it. */
  lemma EmptyLineIsPrinted()
    ensures TailOutcome("\n", 0) == Output(0) && IsLastLines("\n", 0, 1) && !Right("\n", 0)
  {
    assert Count("\n", 0, 1) == 1;
    LastLinesAreLines("\n", 0, 1);
  }

  /** Without a newline at the end, asked for one line, the program prints two. */
  lemma OneLineTooMany()
    ensures var s := "a\nb";
      TailOutcome(s, 1) == Output(0) && IsLastLines(s, 1, 2) && !Right(s, 1)
  {
    var s := "a\nb";
    assert Count(s, 2, 3) == 0 && Count(s, 1, 2) == 1 && Count(s, 0, 1) == 0;
    CountSplit(s, 0, 1, 3);
    CountSplit(s, 1, 2, 3);
    NthFound(s, 1, 3, 2);
    LastLinesAreLines(s, 1, 2);
  }

  /** A block that consists of an empty line and a long one. */
  function TwoLines(): (s: string)
    ensures |s| == BUF_SIZE
  {
    [NL] + seq(BUF_SIZE - 2, _ => 'a') + [NL]
  }

  /** Its first newline is byte 0 of a block: asked for the long line, the program prints both. */
  lemma HiddenNewline()
    ensures TailOutcome(TwoLines(), 1) == Output(0) && IsLastLines(TwoLines(), 1, 1) && !Right(TwoLines(), 1)
  {
    var s := TwoLines();
    NoneBetween(s, 1, BUF_SIZE - 1);
    assert Count(s, 1, BUF_SIZE) == 1;
    assert Count(s, 0, 1) == 1;
    CountSplit(s, 0, 1, BUF_SIZE);
    LastLinesAreLines(s, 1, 1);
    assert FullBlocks(s, BUF_SIZE, 2) == FullBlocks(s, 0, 1) == Missing(1);
  }

  lemma {:induction false} NoneBetween(s: string, lo: nat, hi: nat)
    requires hi <= |s| && forall k :: lo <= k < hi ==> s[k] != NL
    ensures Count(s, lo, hi) == 0
    decreases hi
  {
    if lo < hi { NoneBetween(s, lo, hi - 1); }
  }

  // ---------- files with far too few lines ----------

  lemma {:induction false} SeenAtMostCount(s: string, end: nat, m: nat)
    requires end <= |s| && m > Count(s, 0, end)
    ensures FullBlocks(s, end, m).Missing? && FullBlocks(s, end, m).m >= m - Count(s, 0, end)
    decreases end
  {
    if end >= BUF_SIZE {
      var lo := end - BUF_SIZE;
      CountSplit(s, 0, lo, end);
      CountSplit(s, lo, lo + 1, end);
      SeenAtMostCount(s, lo, m - Count(s, lo + 1, end));
    }
  }

  /** Asking a file of one block or more for three times its newlines or more prints nothing at all. */
  lemma FarTooManyLines(s: string, n: nat)
    requires |s| >= BUF_SIZE && n >= 3 * Count(s, 0, |s|)
    ensures TailOutcome(s, n) == if Count(s, 1, BUF_SIZE) == 0 then NeverEnds else SeekFails
  {
    SeenAtMostCount(s, |s|, n + 1);
    CountSplit(s, 0, 1, |s|);
    CountSplit(s, 1, BUF_SIZE, |s|);
  }
}
