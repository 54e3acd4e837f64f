/**
  The process model that the shell works on: a descriptor table per process,
  copied by fork, and pipes numbered in the order of their creation.
 */
module Processes {

  /** What an open descriptor refers to. */
  datatype Handle =
    | Inherited(id: nat)
    | File(name: string)
    | ReadEnd(pipe: nat)
    | WriteEnd(pipe: nat)

  type FdTable = map<nat, Handle>

  datatype Status = Running | Execed(argv: seq<string>) | Exited

  /** How a process ended its part of the work, and the descriptors it then held. */
  datatype Outcome = Outcome(status: Status, fds: FdTable)

  const STDIN: nat := 0
  const STDOUT: nat := 1

  /** The descriptors from `n` on. */
  ghost function From(t: FdTable, n: nat): set<nat> {
    set fd <- t.Keys | fd >= n
  }

  class Process {
    var fds: FdTable
    var status: Status

    constructor (fds: FdTable)
      ensures this.fds == fds && status == Running
    {
      this.fds, status := fds, Running;
    }

    /** The descriptor that the next open, pipe or dup returns. */
    method LowestFree() returns (fd: nat)
      ensures fd !in fds && forall k: nat :: k < fd ==> k in fds
    {
      fd := 0;
      while fd in fds
        invariant forall k: nat :: k < fd ==> k in fds
        decreases From(fds, fd)
      {
        assert fd in From(fds, fd) && From(fds, fd + 1) == From(fds, fd) - {fd};
        fd := fd + 1;
      }
    }

    method Open(h: Handle) returns (fd: nat)
      modifies this`fds
      ensures fd !in old(fds) && (forall k: nat :: k < fd ==> k in old(fds)) && fds == old(fds)[fd := h]
    {
      fd := LowestFree();
      fds := fds[fd := h];
    }

    method Close(fd: nat)
      modifies this`fds
      ensures fds == old(fds) - {fd}
    {
      fds := fds - {fd};
    }

    /** dup2 fails on a closed descriptor, and does nothing when both are the same. */
    method Dup2(fd: nat, to: nat)
      modifies this`fds
      ensures fds == if fd in old(fds) then old(fds)[to := old(fds)[fd]] else old(fds)
    {
      if fd in fds && fd != to {
        fds := fds[to := fds[fd]];
      }
    }

    /** The program image is replaced; open descriptors stay open.  No program, no exec. */
    method Execvp(argv: seq<string>)
      requires status == Running
      modifies this`status
      ensures status == if argv == [] then Running else Execed(argv)
    {
      if argv != [] {
        status := Execed(argv);
      }
    }

    method Exit()
      modifies this
      ensures status == Exited && fds == map[]
    {
      status, fds := Exited, map[];
    }

    method Fork() returns (child: Process)
      ensures fresh(child) && child.fds == fds && child.status == Running
    {
      child := new Process(fds);
    }
  }

  class Kernel {
    /** Pipes 0 .. nextPipe - 1 have been created. */
    var nextPipe: nat

    method Pipe(p: Process) returns (r: nat, w: nat)
      modifies this, p`fds
      ensures nextPipe == old(nextPipe) + 1
      ensures r !in old(p.fds) && w !in old(p.fds) && r != w
      ensures forall k: nat :: k < r ==> k in old(p.fds)
      ensures forall k: nat :: k < w && k != r ==> k in old(p.fds)
      ensures p.fds == old(p.fds)[r := ReadEnd(old(nextPipe))][w := WriteEnd(old(nextPipe))]
    {
      r := p.Open(ReadEnd(nextPipe));
      ghost var between := p.fds;
      w := p.Open(WriteEnd(nextPipe));
      forall k: nat | k < w && k != r ensures k in old(p.fds) {
        assert k in between;
      }
      nextPipe := nextPipe + 1;
    }
  }
}
