/**
  From a line of input to the processes that run it (HW5/part2): the two
  redirections, the order in which the child of the shell applies them before
  it builds the pipeline, and the loop of the shell around it.
 */
module CommandLine {
  import opened Processes
  import opened Pipeline
  import opened Tokens
  import opened Wrappers

  // ---------- redirections ----------

  const LESS := "<"
  const GREATER := ">"

  /** An argument vector that is cut off in place. */
  class Argv {
    var words: seq<string>

    constructor (words: seq<string>)
      ensures this.words == words
    {
      this.words := words;
    }
  }

  method Find(argv: Argv, symbol: string) returns (i: nat)
    ensures i == First(argv.words, symbol)
  {
    i := 0;
    while i < |argv.words| && argv.words[i] != symbol
      invariant 0 <= i <= |argv.words|
      invariant forall k :: 0 <= k < i ==> argv.words[k] != symbol
    {
      i := i + 1;
    }
  }

  /** The word behind position i, if there is one. */
  function NameAt(words: seq<string>, i: nat): Option<string> {
    if i + 1 < |words| then Some(words[i + 1]) else None
  }

  predicate Opens(name: Option<string>, files: set<string>) {
    name.Some? && name.value in files
  }

  /**
    Look for `<`.  A file that cannot be opened is ignored.  The file that is
    opened stays as stdin exactly when stdin was open before: a file that came
    to lie on descriptor 0 by itself is closed again.
   */
  method RedirectIn(self: Process, argv: Argv, readable: set<string>) returns (r: int)
    modifies self`fds, argv
    ensures var w := old(argv.words); var i := First(w, LESS);
      && r == (if i == |w| then -1 else 0)
      && argv.words == w[..i]
      && self.fds == if i < |w| && Opens(NameAt(w, i), readable) && STDIN in old(self.fds)
                     then old(self.fds)[STDIN := File(w[i + 1])] else old(self.fds)
  {
    var i := Find(argv, LESS);
    if i == |argv.words| {
      assert argv.words[..i] == argv.words;
      return -1;
    }
    var name := NameAt(argv.words, i);
    if Opens(name, readable) {
      var fd := self.Open(File(name.value));
      self.Dup2(fd, STDIN);
      self.Close(fd);
    }
    argv.words := argv.words[..i];
    r := 0;
  }

  /** A file that comes to lie on descriptor 1 by itself is closed again. */
  predicate OutputTakes(fds: FdTable) {
    STDOUT in fds || STDIN !in fds
  }

  /** Look for `>` in what is left.  A file that cannot be opened ends the process. */
  method RedirectOut(self: Process, argv: Argv, creatable: set<string>) returns (ok: bool)
    modifies self, argv
    ensures var w := old(argv.words); var o := First(w, GREATER);
      && argv.words == (if ok then w[..o] else w)
      && (ok <==> o == |w| || Opens(NameAt(w, o), creatable))
      && (ok ==> self.status == old(self.status))
      && (ok ==> self.fds == if o < |w| && OutputTakes(old(self.fds))
                             then old(self.fds)[STDOUT := File(w[o + 1])] else old(self.fds))
      && (!ok ==> self.status == Exited && self.fds == map[])
  {
    var o := Find(argv, GREATER);
    if o == |argv.words| {
      assert argv.words[..o] == argv.words;
      return true;
    }
    var name := NameAt(argv.words, o);
    if !Opens(name, creatable) {
      self.Exit();
      return false;
    }
    var fd := self.Open(File(name.value));
    self.Dup2(fd, STDOUT);
    self.Close(fd);
    argv.words := argv.words[..o];
    ok := true;
  }

  // ---------- the child of the shell ----------

  function Min(a: nat, b: nat): nat {
    if a < b then a else b
  }

  /** The words that reach the pipeline: everything before the first redirection symbol. */
  function Plain(w: seq<string>): seq<string> {
    w[..Min(First(w, LESS), First(w, GREATER))]
  }

  /** The `>` that takes effect, if any: one that stands before every `<`. */
  function OutputName(w: seq<string>): Option<string> {
    NameAt(w[..First(w, LESS)], First(w, GREATER))
  }

  predicate OutputAsked(w: seq<string>) {
    First(w, GREATER) < First(w, LESS)
  }

  function FdsAfterIn(t: FdTable, w: seq<string>, readable: set<string>): FdTable {
    var i := First(w, LESS);
    if i < |w| && Opens(NameAt(w, i), readable) && STDIN in t then t[STDIN := File(w[i + 1])] else t
  }

  function FdsAfterOut(t: FdTable, w: seq<string>): FdTable {
    if OutputAsked(w) && OutputName(w).Some? && OutputTakes(t) then t[STDOUT := File(OutputName(w).value)] else t
  }

  /** In a vector cut off at i, a symbol is found where it was, or not at all. */
  lemma FirstInPrefix(w: seq<string>, i: nat, symbol: string)
    requires i <= |w|
    ensures First(w[..i], symbol) == Min(i, First(w, symbol))
  {
    var f, g := First(w, symbol), First(w[..i], symbol);
    assert f < i ==> w[..i][f] == symbol;
    assert g < i ==> w[g] == symbol;
  }

  /** Input redirection, output redirection, pipeline: in this order. */
  method RunChild(k: Kernel, self: Process, argv: Argv, readable: set<string>, creatable: set<string>)
    returns (outs: seq<Outcome>)
    requires self.status == Running
    modifies k, self, argv
    ensures var w := old(argv.words); var t := FdsAfterIn(old(self.fds), w, readable);
      if OutputAsked(w) && !Opens(OutputName(w), creatable)
      then outs == [Outcome(Exited, map[])] && k.nextPipe == old(k.nextPipe)
      else Wired(outs, Stages(Plain(w)), FdsAfterOut(t, w), old(k.nextPipe))
    ensures k.nextPipe >= old(k.nextPipe)
  {
    ghost var w := argv.words;
    ghost var i := First(w, LESS);
    var _ := RedirectIn(self, argv, readable);
    FirstInPrefix(w, i, GREATER);
    var ok := RedirectOut(self, argv, creatable);
    if !ok {
      return [Outcome(Exited, map[])];
    }
    assert argv.words == Plain(w);
    outs := PipeAndExec(k, self, argv.words);
  }

  /**
    Started from a shell with stdin and stdout open, the first stage reads the
    file named by the first `<`, and the last stage writes the file named by the
    first `>` if and only if that one stands before every `<`.  A `|` behind a
    redirection symbol starts no stage.
   */
  lemma RedirectedEnds(outs: seq<Outcome>, w: seq<string>, t: FdTable, readable: set<string>, base: nat)
    requires STDIN in t && STDOUT in t && OlderThan(t, base) && [] !in Stages(Plain(w))
    requires Wired(outs, Stages(Plain(w)), FdsAfterOut(FdsAfterIn(t, w, readable), w), base)
    requires OutputAsked(w) ==> OutputName(w).Some?
    ensures |outs| == |Stages(Plain(w))| && STDIN in outs[0].fds && STDOUT in outs[|outs| - 1].fds
    ensures outs[0].fds[STDIN] == if First(w, LESS) < |w| && Opens(NameAt(w, First(w, LESS)), readable)
                                  then File(w[First(w, LESS) + 1]) else t[STDIN]
    ensures outs[|outs| - 1].fds[STDOUT] == if First(w, GREATER) < First(w, LESS)
                                            then File(w[First(w, GREATER) + 1]) else t[STDOUT]
    ensures OlderThan(FdsAfterOut(FdsAfterIn(t, w, readable), w), base)
  {
    var ss, u := Stages(Plain(w)), FdsAfterOut(FdsAfterIn(t, w, readable), w);
    AllRunIffNoneEmpty(ss);
    assert outs[0] == Outcome(Execed(ss[0]), StageFds(u, base, 0, |ss|));
    assert outs[|ss| - 1] == Outcome(Execed(ss[|ss| - 1]), StageFds(u, base, |ss| - 1, |ss|));
  }

  /** `cat < a > b`: the output redirection is dropped without a word. */
  lemma OutputBehindInputIsLost()
    ensures var w := ["cat", "<", "a", ">", "b"];
      !OutputAsked(w) && Plain(w) == ["cat"] && Stages(Plain(w)) == [["cat"]]
  {
    var w := ["cat", "<", "a", ">", "b"];
    assert w[0] == "cat" && w[1] == LESS;
    var i, o := First(w, LESS), First(w, GREATER);
    assert i == 1;
    assert o == 3;
    assert w[..1] == ["cat"];
    assert First(["cat"], BAR) == 1;
  }

  /**
    Taken alone, redirect_in relies on descriptor 0 being open: with 0 closed the
    file lands on it and is closed again.  The shell has it open, see RunLine.
   */
  lemma InputToClosedStdinIsLost()
    ensures var w, t, u := ["cat", "<", "a"], map[1 := Inherited(1)], map[0 := Inherited(0)];
      && Opens(NameAt(w, First(w, LESS)), {"a"})
      && FdsAfterIn(t, w, {"a"}) == t
      && FdsAfterIn(u, w, {"a"}) == map[0 := File("a")]
  {
    var w := ["cat", "<", "a"];
    assert w[0] == "cat" && w[1] == LESS && w[2] == "a";
    assert First(w, LESS) == 1;
  }

  /** Likewise for output if 1 is closed and 0 is not. */
  lemma OutputToClosedStdoutIsLost()
    ensures var w, t, u := ["ls", ">", "b"], map[0 := Inherited(0)], map[1 := Inherited(1)];
      && OutputName(w) == Some("b")
      && FdsAfterOut(t, w) == t
      && FdsAfterOut(u, w) == map[1 := File("b")]
  {
    var w := ["ls", ">", "b"];
    assert w[0] == "ls" && w[1] == GREATER && w[2] == "b";
    assert First(w, GREATER) == 1 && First(w, LESS) == 3;
  }

  // ---------- the shell ----------

  /** The files as they are when a line is run. */
  datatype Files = Files(readable: set<string>, creatable: set<string>)

  /** The shell reads its lines from descriptor 0, and no pipe still to be made is open anywhere. */
  ghost predicate Ready(k: Kernel, shell: Process)
    reads k, shell
  {
    shell.status == Running && STDIN in shell.fds && OlderThan(shell.fds, k.nextPipe)
  }

  /** What the first stage reads and the last one writes, the shell having table t. */
  function InputOf(w: seq<string>, t: FdTable, readable: set<string>): Handle
    requires STDIN in t
  {
    if First(w, LESS) < |w| && Opens(NameAt(w, First(w, LESS)), readable) then File(w[First(w, LESS) + 1]) else t[STDIN]
  }

  function OutputOf(w: seq<string>, t: FdTable): Handle
    requires STDOUT in t && (OutputAsked(w) ==> OutputName(w).Some?)
  {
    if OutputAsked(w) then File(OutputName(w).value) else t[STDOUT]
  }

  /** Pipe `base + q` has stage q as its only writer and stage q + 1 as its only reader. */
  ghost predicate Joins(outs: seq<Outcome>, q: nat, base: nat) {
    OnlyHolder(outs, q, STDOUT, WriteEnd(base + q)) && OnlyHolder(outs, q + 1, STDIN, ReadEnd(base + q))
  }

  /** Every stage runs, and the stages are connected by pipes, each with one writer and one reader. */
  ghost predicate Connected(outs: seq<Outcome>, ss: seq<seq<string>>, base: nat) {
    && |outs| == |ss|
    && (forall j :: 0 <= j < |ss| ==> outs[j].status == Execed(ss[j]))
    && (forall q: nat :: q < |ss| - 1 ==> Joins(outs, q, base))
  }

  /**
    What becomes of the words of a line.  An output file that cannot be opened
    ends the child at once; else the stages run as far as none is empty, with
    the shell's descriptors behind 1.  If no stage is empty they are connected,
    and the ends are the files asked for, or what the shell has there.
   */
  ghost predicate LineRuns(outs: seq<Outcome>, w: seq<string>, t: FdTable, files: Files, base: nat) {
    var ss := Stages(Plain(w));
    if OutputAsked(w) && !Opens(OutputName(w), files.creatable) then outs == [Outcome(Exited, map[])]
    else
      && RunsAsFar(outs, ss)
      && (forall j :: 0 <= j < |outs| && outs[j].status.Execed? ==> SameElsewhere(outs[j], t))
      && ([] !in ss && STDIN in t ==>
            && Connected(outs, ss, base)
            && HoldsEnd(outs, 0, STDIN, InputOf(w, t, files.readable))
            && (if STDOUT in t then HoldsEnd(outs, |outs| - 1, STDOUT, OutputOf(w, t))
                else STDOUT !in outs[|outs| - 1].fds))
  }

  lemma StillOlder(w: seq<string>, t: FdTable, readable: set<string>, base: nat)
    requires OlderThan(t, base)
    ensures OlderThan(FdsAfterOut(FdsAfterIn(t, w, readable), w), base)
  {
  }

  lemma WiredIsConnected(outs: seq<Outcome>, ss: seq<seq<string>>, t: FdTable, base: nat)
    requires ss != [] && [] !in ss && Wired(outs, ss, t, base) && OlderThan(t, base)
    ensures Connected(outs, ss, base)
    ensures SameAt(outs[0].fds, t, STDIN) && SameAt(outs[|ss| - 1].fds, t, STDOUT)
  {
    AllRunIffNoneEmpty(ss);
    WiredKeeps(outs, ss, t, base);
    forall q: nat | q < |ss| - 1 ensures Joins(outs, q, base) {
      OneWriterOneReader(outs, ss, t, base, q);
    }
  }

  /** The redirections change nothing behind descriptor 1. */
  lemma RedirectedElsewhere(w: seq<string>, t: FdTable, readable: set<string>, fd: nat)
    requires fd != STDIN && fd != STDOUT
    ensures SameAt(FdsAfterOut(FdsAfterIn(t, w, readable), w), t, fd)
  {
  }

  lemma WiredRuns(outs: seq<Outcome>, w: seq<string>, t: FdTable, files: Files, base: nat)
    requires OlderThan(t, base) && (OutputAsked(w) ==> Opens(OutputName(w), files.creatable))
    requires Wired(outs, Stages(Plain(w)), FdsAfterOut(FdsAfterIn(t, w, files.readable), w), base)
    ensures LineRuns(outs, w, t, files, base)
  {
    var ss, u := Stages(Plain(w)), FdsAfterOut(FdsAfterIn(t, w, files.readable), w);
    StillOlder(w, t, files.readable, base);
    WiredMeans(outs, ss, u, base);
    forall j | 0 <= j < |outs| && outs[j].status.Execed? ensures SameElsewhere(outs[j], t) {
      forall fd: nat | fd != STDIN && fd != STDOUT ensures SameAt(outs[j].fds, t, fd) {
        RedirectedElsewhere(w, t, files.readable, fd);
        assert SameAt(outs[j].fds, u, fd);
      }
    }
    if [] !in ss && STDIN in t {
      WiredIsConnected(outs, ss, u, base);
    }
  }

  /**
    A line of input: split it into words, and unless it is empty or a builtin
    command, run it in a child.  The shell itself keeps its descriptors.
   */
  method RunLine(k: Kernel, shell: Process, line: string, builtins: set<string>, files: Files)
    returns (outs: seq<Outcome>)
    requires Ready(k, shell)
    modifies k
    ensures Ready(k, shell)
    ensures var w := TokensOf(line);
      if w == [] || w[0] in builtins then outs == [] && k.nextPipe == old(k.nextPipe)
      else LineRuns(outs, w, shell.fds, files, old(k.nextPipe))
  {
    var words := Parse(line);
    if words.None? || words.value[0] in builtins {
      return [];
    }
    var child := shell.Fork();
    var argv := new Argv(words.value);
    outs := RunChild(k, child, argv, files.readable, files.creatable);
    ghost var w, t, base := words.value, shell.fds, old(k.nextPipe);
    if !OutputAsked(w) || Opens(OutputName(w), files.creatable) {
      WiredRuns(outs, w, t, files, base);
    }
  }

  ghost predicate Ran(outs: seq<Outcome>, line: string, t: FdTable, builtins: set<string>, files: Files) {
    var w := TokensOf(line);
    if w == [] || w[0] in builtins then outs == [] else exists base: nat :: LineRuns(outs, w, t, files, base)
  }

  /** The loop of the shell: the same holds for every line, whatever pipes were made for the lines before it. */
  method Session(k: Kernel, shell: Process, lines: seq<string>, builtins: set<string>, files: seq<Files>)
    returns (runs: seq<seq<Outcome>>)
    requires Ready(k, shell) && |files| == |lines|
    modifies k
    ensures Ready(k, shell) && |runs| == |lines|
    ensures forall i :: 0 <= i < |lines| ==> Ran(runs[i], lines[i], shell.fds, builtins, files[i])
  {
    runs := [];
    for i := 0 to |lines|
      invariant Ready(k, shell) && |runs| == i
      invariant forall j :: 0 <= j < i ==> Ran(runs[j], lines[j], shell.fds, builtins, files[j])
    {
      var outs := RunLine(k, shell, lines[i], builtins, files[i]);
      runs := runs + [outs];
    }
  }
}
