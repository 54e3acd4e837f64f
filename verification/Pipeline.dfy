/**
  `pipe_and_exec` (HW5/part2): a command line with `|` symbols becomes a chain
  of processes.  Each process keeps the left part, forks, and the child goes on
  with everything behind the first `|`.
 */
module Pipeline {
  import opened Processes

  const BAR := "|"

  // ---------- the command line ----------

  /** Position of the first occurrence of a symbol, the length if there is none. */
  function First(argv: seq<string>, symbol: string): (i: nat)
    ensures i <= |argv|
    ensures forall k :: 0 <= k < i ==> argv[k] != symbol
    ensures i < |argv| ==> argv[i] == symbol
  {
    if argv == [] || argv[0] == symbol then 0 else 1 + First(argv[1..], symbol)
  }

  /** The stages: the command line split at every `|`. */
  function Stages(argv: seq<string>): (ss: seq<seq<string>>)
    ensures |ss| >= 1
    decreases |argv|
  {
    var b := First(argv, BAR);
    if b == |argv| then [argv] else [argv[..b]] + Stages(argv[b + 1..])
  }

  /** The stages with `|` between them. */
  function Command(ss: seq<seq<string>>): seq<string>
    requires ss != []
  {
    if |ss| == 1 then ss[0] else ss[0] + [BAR] + Command(ss[1..])
  }

  /** Splitting is undone by joining: no word and no stage gets lost. */
  lemma {:induction false} JoinOfSplit(argv: seq<string>)
    ensures Command(Stages(argv)) == argv
    decreases |argv|
  {
    var b := First(argv, BAR);
    if b < |argv| {
      var rest := argv[b + 1..];
      JoinOfSplit(rest);
      var ss := Stages(argv);
      assert ss[0] == argv[..b] && ss[1..] == Stages(rest);
      assert Command(ss) == argv[..b] + [BAR] + rest;
      Rejoin(argv, b);
    }
  }

  lemma Rejoin(argv: seq<string>, b: nat)
    requires b < |argv|
    ensures argv[..b] + [argv[b]] + argv[b + 1..] == argv
  {
  }

  lemma {:induction false} NoBarInStages(argv: seq<string>)
    ensures forall s <- Stages(argv) :: BAR !in s
    decreases |argv|
  {
    var b := First(argv, BAR);
    if b < |argv| {
      NoBarInStages(argv[b + 1..]);
    }
  }

  function FirstEmpty(ss: seq<seq<string>>): (j: nat)
    ensures j <= |ss|
    ensures j < |ss| ==> ss[j] == []
    ensures forall i :: 0 <= i < j ==> ss[i] != []
  {
    if ss == [] || ss[0] == [] then 0 else 1 + FirstEmpty(ss[1..])
  }

  /**
    How many stages get as far as exec.  With an empty stage in the middle, all
    those before it.  With the first empty stage at the very end, one less: the
    stage in front of a trailing `|` is refused together with it.
   */
  function ExecCount(ss: seq<seq<string>>): (c: nat)
    ensures c <= |ss|
  {
    var j := FirstEmpty(ss);
    if j == |ss| then j
    else if j == |ss| - 1 then (if j == 0 then 0 else j - 1)
    else j
  }

  /** The command line is refused at this point: it starts with `|`, or only a `|` follows its first stage. */
  predicate Refused(ss: seq<seq<string>>) {
    |ss| > 1 && (ss[0] == [] || ss[1..] == [[]])
  }

  /** The check for `|`: 0 if there is none, -1 if it comes first or last, else its position. */
  method PipePresent(argv: seq<string>) returns (r: int)
    ensures r == 0 <==> Stages(argv) == [argv]
    ensures r == -1 <==> Refused(Stages(argv))
    ensures r > 0 ==> SplitsAt(argv, r)
    ensures r >= -1
  {
    var index := 0;
    while index < |argv|
      invariant 0 <= index <= |argv|
      invariant forall k :: 0 <= k < index ==> argv[k] != BAR
    {
      if argv[index] == BAR {
        break;
      }
      index := index + 1;
    }
    StagesAtBar(argv, index);
    if index == |argv| {
      return 0;
    } else if index == 0 || index + 1 == |argv| {
      return -1;
    } else {
      return index;
    }
  }

  /** The first stage is what stands before position i; something is left behind it. */
  ghost predicate SplitsAt(argv: seq<string>, i: nat) {
    && 0 < i && i + 1 < |argv| && |Stages(argv)| > 1
    && Stages(argv)[0] == argv[..i]
    && Stages(argv)[1..] == Stages(argv[i + 1..])
    && Stages(argv)[1..] != [[]]
  }

  lemma StagesAtBar(argv: seq<string>, i: nat)
    requires i <= |argv| && (i < |argv| ==> argv[i] == BAR)
    requires forall k :: 0 <= k < i ==> argv[k] != BAR
    ensures i == |argv| <==> Stages(argv) == [argv]
    ensures i < |argv| && (i == 0 || i + 1 == |argv|) <==> Refused(Stages(argv))
    ensures 0 < i && i + 1 < |argv| ==> SplitsAt(argv, i)
  {
    FirstIs(argv, i);
    if i < |argv| {
      Cut(argv, i);
      RestIsEmpty(argv[i + 1..]);
    }
  }

  lemma Cut(argv: seq<string>, i: nat)
    requires i < |argv| && First(argv, BAR) == i
    ensures |Stages(argv)| > 1 && Stages(argv)[0] == argv[..i] && Stages(argv)[1..] == Stages(argv[i + 1..])
  {
  }

  lemma RestIsEmpty(rest: seq<string>)
    ensures Stages(rest) == [[]] <==> rest == []
  {
    if rest != [] { StagesOfNonempty(rest); }
  }

  lemma FirstIs(argv: seq<string>, i: nat)
    requires i <= |argv| && (i < |argv| ==> argv[i] == BAR)
    requires forall k :: 0 <= k < i ==> argv[k] != BAR
    ensures First(argv, BAR) == i
  {
  }

  lemma StagesOfNonempty(argv: seq<string>)
    requires argv != []
    ensures Stages(argv) != [[]]
  {
    if Stages(argv) == [[]] {
      JoinOfSplit(argv);
    }
  }

  // ---------- the processes ----------

  /**
    The descriptors of stage j of n: stdin from the pipe in front of it, stdout
    to the pipe behind it, everything else as the shell left it.
   */
  function StageFds(t: FdTable, base: nat, j: nat, n: nat): FdTable
    requires j < n
  {
    var u := if j == 0 then t else t[STDIN := ReadEnd(base + j - 1)];
    if j == n - 1 then u else u[STDOUT := WriteEnd(base + j)]
  }

  /** What a chain started on table `t` with pipes numbered from `base` must look like. */
  ghost predicate Wired(outs: seq<Outcome>, ss: seq<seq<string>>, t: FdTable, base: nat) {
    var c := ExecCount(ss);
    && |outs| == (if c == |ss| then c else c + 1)
    && (forall j :: 0 <= j < c ==> outs[j] == Outcome(Execed(ss[j]), StageFds(t, base, j, |ss|)))
    && (c < |ss| ==> outs[c] == Outcome(Exited, map[]))
  }

  lemma OnlyStage(argv: seq<string>, t: FdTable, base: nat)
    ensures argv != [] ==> Wired([Outcome(Execed(argv), t)], [argv], t, base)
  {
  }

  lemma NothingRuns(ss: seq<seq<string>>, t: FdTable, base: nat)
    requires Refused(ss) || ss == [[]]
    ensures Wired([Outcome(Exited, map[])], ss, t, base)
  {
    assert |ss| > 1 && ss[0] != [] ==> FirstEmpty(ss) == 1 + FirstEmpty(ss[1..]);
  }

  lemma WiredNext(outs: seq<Outcome>, ss: seq<seq<string>>, t: FdTable, base: nat)
    requires |ss| > 1 && ss[0] != [] && ss[1..] != [[]]
    requires Wired(outs, ss[1..], t[STDIN := ReadEnd(base)], base + 1)
    ensures Wired([Outcome(Execed(ss[0]), StageFds(t, base, 0, |ss|))] + outs, ss, t, base)
  {
    assert ExecCount(ss) == ExecCount(ss[1..]) + 1;
  }

  /** Parent side of the fork: keep the write end, as stdout.  This is right even if stdin or stdout was closed. */
  method TalkTo(self: Process, r: nat, w: nat, ghost t: FdTable, ghost p: nat)
    requires r !in t && w !in t && r != w
    requires self.fds == t[r := ReadEnd(p)][w := WriteEnd(p)]
    modifies self`fds
    ensures self.fds == t[STDOUT := WriteEnd(p)]
  {
    self.Close(r);
    if w != STDOUT {
      self.Dup2(w, STDOUT);
      self.Close(w);
    }
  }

  /** Child side of the fork: keep the read end, as stdin. */
  method ListenTo(self: Process, r: nat, w: nat, ghost t: FdTable, ghost p: nat)
    requires r !in t && w !in t && r != w
    requires self.fds == t[r := ReadEnd(p)][w := WriteEnd(p)]
    modifies self`fds
    ensures self.fds == t[STDIN := ReadEnd(p)]
  {
    self.Close(w);
    if r != STDIN {
      self.Dup2(r, STDIN);
      self.Close(r);
    }
  }

  method CopyWords(argv: seq<string>, n: nat) returns (copy: seq<string>)
    requires n <= |argv|
    ensures copy == argv[..n]
  {
    copy := [];
    for i := 0 to n
      invariant copy == argv[..i]
    {
      copy := copy + [argv[i]];
    }
  }

  /**
    Run in a child of the shell.  The processes of the chain are returned in
    stage order; the first one is the process that was called.
   */
  method PipeAndExec(k: Kernel, self: Process, argv: seq<string>) returns (outs: seq<Outcome>)
    requires self.status == Running
    modifies k, self
    ensures Wired(outs, Stages(argv), old(self.fds), old(k.nextPipe))
    ensures k.nextPipe == old(k.nextPipe) + |outs| - 1
    ensures outs[0] == Outcome(self.status, self.fds)
    decreases |argv|, 1
  {
    var index := PipePresent(argv);
    ghost var ss, t, p := Stages(argv), self.fds, k.nextPipe;
    if index > 0 {
      outs := Bridge(k, self, argv, index);
    } else {
      if index == 0 {
        self.Execvp(argv);
        OnlyStage(argv, t, p);
      }
      if self.status == Running {
        self.Exit();
        NothingRuns(ss, t, p);
      }
      outs := [Outcome(self.status, self.fds)];
    }
  }

  /** The `|` in the middle: bridge the two sides with a pipe, exec the left one, recur on the right one. */
  method Bridge(k: Kernel, self: Process, argv: seq<string>, index: nat) returns (outs: seq<Outcome>)
    requires self.status == Running && SplitsAt(argv, index)
    modifies k, self
    ensures Wired(outs, Stages(argv), old(self.fds), old(k.nextPipe))
    ensures k.nextPipe == old(k.nextPipe) + |outs| - 1
    ensures outs[0] == Outcome(self.status, self.fds)
    decreases |argv|, 0
  {
    ghost var t, p := self.fds, k.nextPipe;
    var left := CopyWords(argv, index);
    var r, w := k.Pipe(self);
    var child := self.Fork();
    TalkTo(self, r, w, t, p);
    self.Execvp(left);
    ListenTo(child, r, w, t, p);
    var rest := PipeAndExec(k, child, argv[index + 1..]);
    outs := [Outcome(self.status, self.fds)] + rest;
    WiredNext(rest, Stages(argv), t, p);
  }

  // ---------- what the wiring amounts to ----------

  /** Every stage runs exactly when no stage is empty. */
  lemma AllRunIffNoneEmpty(ss: seq<seq<string>>)
    ensures ExecCount(ss) == |ss| <==> [] !in ss
  {
    var j := FirstEmpty(ss);
    assert j < |ss| ==> ss[j] in ss;
  }

  /**
    Stage i runs: no stage up to it is empty, and the next one is not an empty
    last one, which is found out before the fork.
   */
  predicate StageRuns(ss: seq<seq<string>>, i: nat) {
    && i < |ss| && (forall k :: 0 <= k <= i ==> ss[k] != [])
    && !(i + 2 == |ss| && ss[i + 1] == [])
  }

  lemma StageRunsIff(ss: seq<seq<string>>, i: nat)
    requires i < |ss|
    ensures i < ExecCount(ss) <==> StageRuns(ss, i)
  {
    var j := FirstEmpty(ss);
    if j < |ss| && j <= i {
      assert ss[j] == [];
    }
  }

  /** The processes that reach an exec are those of the stages that run, in order. */
  lemma WhoRuns(outs: seq<Outcome>, ss: seq<seq<string>>, t: FdTable, base: nat, i: nat)
    requires ss != [] && Wired(outs, ss, t, base)
    ensures i < |outs| && outs[i].status.Execed? <==> StageRuns(ss, i)
    ensures StageRuns(ss, i) ==> outs[i].status == Execed(ss[i])
  {
    if i < |ss| { StageRunsIff(ss, i); }
  }

  /** A descriptor is closed in both tables, or open on the same file in both. */
  predicate SameAt(t: FdTable, u: FdTable, fd: nat) {
    (fd in t <==> fd in u) && (fd in t ==> t[fd] == u[fd])
  }

  ghost predicate SameElsewhere(o: Outcome, t: FdTable) {
    forall fd: nat :: fd != STDIN && fd != STDOUT ==> SameAt(o.fds, t, fd)
  }

  /** Stages have the descriptors of table t, stdin and stdout aside; at the two ends of the chain those as well. */
  ghost predicate Kept(outs: seq<Outcome>, ss: seq<seq<string>>, t: FdTable) {
    && (forall j :: 0 <= j < |outs| && outs[j].status.Execed? ==> SameElsewhere(outs[j], t))
    && (|outs| > 0 && outs[0].status.Execed? ==> SameAt(outs[0].fds, t, STDIN))
    && (0 < |ss| <= |outs| && outs[|ss| - 1].status.Execed? ==> SameAt(outs[|ss| - 1].fds, t, STDOUT))
  }

  lemma WiredKeeps(outs: seq<Outcome>, ss: seq<seq<string>>, t: FdTable, base: nat)
    requires ss != [] && Wired(outs, ss, t, base)
    ensures Kept(outs, ss, t)
  {
    forall j | 0 <= j < |outs| && outs[j].status.Execed? ensures SameElsewhere(outs[j], t) {
      assert outs[j].fds == StageFds(t, base, j, |ss|);
    }
    if |outs| > 0 && outs[0].status.Execed? {
      assert outs[0].fds == StageFds(t, base, 0, |ss|);
    }
    if |ss| <= |outs| && outs[|ss| - 1].status.Execed? {
      assert outs[|ss| - 1].fds == StageFds(t, base, |ss| - 1, |ss|);
    }
  }

  /** Who runs, said without the count. */
  ghost predicate RunsAsFar(outs: seq<Outcome>, ss: seq<seq<string>>) {
    && (forall i: nat :: i < |outs| && outs[i].status.Execed? <==> StageRuns(ss, i))
    && (forall i: nat :: StageRuns(ss, i) ==> outs[i].status == Execed(ss[i]))
  }

  lemma WiredMeans(outs: seq<Outcome>, ss: seq<seq<string>>, t: FdTable, base: nat)
    requires ss != [] && Wired(outs, ss, t, base)
    ensures Kept(outs, ss, t) && RunsAsFar(outs, ss)
  {
    WiredKeeps(outs, ss, t, base);
    forall i: nat
      ensures i < |outs| && outs[i].status.Execed? <==> StageRuns(ss, i)
      ensures StageRuns(ss, i) ==> outs[i].status == Execed(ss[i])
    {
      WhoRuns(outs, ss, t, base, i);
    }
  }

  /** Table `t` comes from before the pipes numbered from `base` on. */
  ghost predicate OlderThan(t: FdTable, base: nat) {
    forall fd <- t :: (t[fd].ReadEnd? || t[fd].WriteEnd?) ==> t[fd].pipe < base
  }

  ghost predicate HoldsEnd(outs: seq<Outcome>, i: nat, fd: nat, h: Handle) {
    i < |outs| && fd in outs[i].fds && outs[i].fds[fd] == h
  }

  /**
    Who holds which end, at which descriptor, when every process of the chain
    has reached its exec or given up: pipe q is written by stage q alone, on its
    stdout, and read by stage q + 1 alone, on its stdin.
   */
  lemma PipeEnds(outs: seq<Outcome>, ss: seq<seq<string>>, t: FdTable, base: nat, q: nat, i: nat, fd: nat)
    requires ss != [] && Wired(outs, ss, t, base) && OlderThan(t, base)
    ensures HoldsEnd(outs, i, fd, WriteEnd(base + q))
       <==> i == q && q < ExecCount(ss) && q < |ss| - 1 && fd == STDOUT
    ensures HoldsEnd(outs, i, fd, ReadEnd(base + q))
       <==> i == q + 1 && q + 1 < ExecCount(ss) && fd == STDIN
  {
    if i < ExecCount(ss) {
      assert outs[i].fds == StageFds(t, base, i, |ss|);
    }
  }

  ghost predicate OnlyHolder(outs: seq<Outcome>, stage: nat, at: nat, h: Handle) {
    && HoldsEnd(outs, stage, at, h)
    && forall i: nat, fd: nat :: HoldsEnd(outs, i, fd, h) ==> i == stage && fd == at
  }

  ghost predicate NoHolder(outs: seq<Outcome>, h: Handle) {
    forall i: nat, fd: nat :: !HoldsEnd(outs, i, fd, h)
  }

  /** No stage empty: each of the pipes has exactly one writer and one reader, and they are neighbours. */
  lemma OneWriterOneReader(outs: seq<Outcome>, ss: seq<seq<string>>, t: FdTable, base: nat, q: nat)
    requires ss != [] && [] !in ss && Wired(outs, ss, t, base) && OlderThan(t, base) && q < |ss| - 1
    ensures OnlyHolder(outs, q, STDOUT, WriteEnd(base + q))
    ensures OnlyHolder(outs, q + 1, STDIN, ReadEnd(base + q))
  {
    AllRunIffNoneEmpty(ss);
    PipeEnds(outs, ss, t, base, q, q, STDOUT);
    PipeEnds(outs, ss, t, base, q, q + 1, STDIN);
    var w, r := WriteEnd(base + q), ReadEnd(base + q);
    forall i: nat, fd: nat | HoldsEnd(outs, i, fd, w) ensures i == q && fd == STDOUT {
      PipeEnds(outs, ss, t, base, q, i, fd);
    }
    forall i: nat, fd: nat | HoldsEnd(outs, i, fd, r) ensures i == q + 1 && fd == STDIN {
      PipeEnds(outs, ss, t, base, q, i, fd);
    }
  }

  /** An empty stage somewhere: the last pipe that was made, if any, is left without a reader. */
  lemma BrokenPipe(outs: seq<Outcome>, ss: seq<seq<string>>, t: FdTable, base: nat)
    requires ss != [] && [] in ss && Wired(outs, ss, t, base) && OlderThan(t, base) && ExecCount(ss) > 0
    ensures OnlyHolder(outs, ExecCount(ss) - 1, STDOUT, WriteEnd(base + ExecCount(ss) - 1))
    ensures NoHolder(outs, ReadEnd(base + ExecCount(ss) - 1))
  {
    var q := ExecCount(ss) - 1;
    AllRunIffNoneEmpty(ss);
    PipeEnds(outs, ss, t, base, q, q, STDOUT);
    var w, r := WriteEnd(base + q), ReadEnd(base + q);
    forall i: nat, fd: nat ensures HoldsEnd(outs, i, fd, w) ==> i == q && fd == STDOUT {
      PipeEnds(outs, ss, t, base, q, i, fd);
    }
    forall i: nat, fd: nat ensures !HoldsEnd(outs, i, fd, r) {
      PipeEnds(outs, ss, t, base, q, i, fd);
    }
  }

  // ---------- programs as functions on streams ----------

  /** A program: from its arguments and its whole input to its whole output. */
  type Program = (seq<string>, string) -> string

  /** What a process finds on its stdin, given what there is to read behind each handle. */
  ghost function Input(fds: FdTable, content: Handle -> string): string {
    if STDIN in fds then content(fds[STDIN]) else ""
  }

  ghost function Output(o: Outcome, run: Program, content: Handle -> string): string
    requires o.status.Execed?
  {
    run(o.status.argv, Input(o.fds, content))
  }

  /** What can be read from a pipe is what the process with its write end as stdout writes. */
  ghost predicate Consistent(outs: seq<Outcome>, base: nat, run: Program, content: Handle -> string) {
    forall i: nat, q: nat :: q >= base && HoldsEnd(outs, i, STDOUT, WriteEnd(q)) && outs[i].status.Execed?
      ==> content(ReadEnd(q)) == Output(outs[i], run, content)
  }

  /** The stages applied from left to right. */
  ghost function Composed(ss: seq<seq<string>>, run: Program, input: string): string {
    if ss == [] then input else run(ss[|ss| - 1], Composed(ss[..|ss| - 1], run, input))
  }

  /** However the processes are scheduled: stage j writes the composition of the stages up to j. */
  lemma {:induction false} StageOutput(outs: seq<Outcome>, ss: seq<seq<string>>, t: FdTable, base: nat,
                                      run: Program, content: Handle -> string, j: nat)
    requires [] !in ss && Wired(outs, ss, t, base) && OlderThan(t, base) && Consistent(outs, base, run, content)
    requires j < |ss|
    ensures outs[j].status == Execed(ss[j])
    ensures Output(outs[j], run, content) == Composed(ss[..j + 1], run, Input(t, content))
  {
    AllRunIffNoneEmpty(ss);
    assert outs[j] == Outcome(Execed(ss[j]), StageFds(t, base, j, |ss|));
    assert ss[..j + 1][..j] == ss[..j];
    if j > 0 {
      StageOutput(outs, ss, t, base, run, content, j - 1);
      OneWriterOneReader(outs, ss, t, base, j - 1);
    } else {
      assert Composed(ss[..0], run, Input(t, content)) == Input(t, content);
    }
  }

  /** The pipeline computes the composition of its stages and writes it where the shell's stdout goes. */
  lemma PipelineComposes(outs: seq<Outcome>, ss: seq<seq<string>>, t: FdTable, base: nat,
                         run: Program, content: Handle -> string)
    requires ss != [] && [] !in ss && Wired(outs, ss, t, base) && OlderThan(t, base)
    requires Consistent(outs, base, run, content)
    ensures |outs| == |ss| && outs[|ss| - 1].status.Execed?
    ensures Output(outs[|ss| - 1], run, content) == Composed(ss, run, Input(t, content))
    ensures forall fd :: fd != STDIN ==> (fd in outs[|ss| - 1].fds <==> fd in t)
    ensures forall fd <- t :: fd != STDIN ==> outs[|ss| - 1].fds[fd] == t[fd]
  {
    var last := |ss| - 1;
    AllRunIffNoneEmpty(ss);
    assert outs[last] == Outcome(Execed(ss[last]), StageFds(t, base, last, |ss|));
    assert ss[..last + 1] == ss;
    StageOutput(outs, ss, t, base, run, content, last);
  }

  /** Every pipe filled with the composition up to it. */
  ghost function Filled(ss: seq<seq<string>>, base: nat, run: Program, input: string, outside: Handle -> string)
    : Handle -> string
  {
    (h: Handle) =>
      if h.ReadEnd? && base <= h.pipe < base + |ss| then Composed(ss[..h.pipe - base + 1], run, input)
      else outside(h)
  }

  lemma FilledAt(ss: seq<seq<string>>, base: nat, run: Program, input: string, outside: Handle -> string, i: nat)
    requires i < |ss|
    ensures Filled(ss, base, run, input, outside)(ReadEnd(base + i)) == Composed(ss[..i + 1], run, input)
  {
  }

  lemma FilledFits(ss: seq<seq<string>>, t: FdTable, base: nat, run: Program, outside: Handle -> string, i: nat)
    requires i < |ss| && OlderThan(t, base)
    ensures var input := Input(t, outside); var content := Filled(ss, base, run, input, outside);
      content(ReadEnd(base + i)) == run(ss[i], Input(StageFds(t, base, i, |ss|), content))
  {
    var input := Input(t, outside);
    var fds := StageFds(t, base, i, |ss|);
    assert ss[..i + 1][..i] == ss[..i];
    FilledAt(ss, base, run, input, outside, i);
    if i == 0 {
      assert STDIN in fds <==> STDIN in t;
      assert Composed(ss[..0], run, input) == input;
    } else {
      FilledAt(ss, base, run, input, outside, i - 1);
      assert fds[STDIN] == ReadEnd(base + (i - 1));
    }
  }

  /** Such contents exist: filling every pipe with the composition up to it is consistent. */
  lemma ConsistentExists(outs: seq<Outcome>, ss: seq<seq<string>>, t: FdTable, base: nat,
                         run: Program, outside: Handle -> string) returns (content: Handle -> string)
    requires [] !in ss && Wired(outs, ss, t, base) && OlderThan(t, base)
    ensures Consistent(outs, base, run, content)
    ensures Input(t, content) == Input(t, outside)
  {
    var input := Input(t, outside);
    content := Filled(ss, base, run, input, outside);
    AllRunIffNoneEmpty(ss);
    forall i: nat, q: nat | q >= base && HoldsEnd(outs, i, STDOUT, WriteEnd(q)) && outs[i].status.Execed?
      ensures content(ReadEnd(q)) == Output(outs[i], run, content)
    {
      PipeEnds(outs, ss, t, base, q - base, i, STDOUT);
      assert outs[i] == Outcome(Execed(ss[i]), StageFds(t, base, i, |ss|));
      FilledFits(ss, t, base, run, outside, i);
    }
  }
}
