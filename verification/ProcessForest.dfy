/**
  The process tree program (HW4/12_2.c): a linked list of nodes is turned in
  place into a forest with parent pointers and NULL-terminated child arrays,
  and printed by a recursive walk.
 */
module ProcessForest {
  import opened ForestModel
  import opened PrintOrder

  const MAX_CHILDREN := 1024

  class ProcNode {
    const name: string
    const pid: int
    const ppid: int
    var parent: ProcNode?
    const children: array<ProcNode?>
    var next: ProcNode?

    /** Only the first child slot is initialised, as in the source. */
    constructor (name: string, pid: int, ppid: int, next: ProcNode?)
      ensures this.name == name && this.pid == pid && this.ppid == ppid
      ensures this.next == next && parent == null
      ensures fresh(children) && children.Length == MAX_CHILDREN && children[0] == null
    {
      this.name, this.pid, this.ppid := name, pid, ppid;
      this.next, parent := next, null;
      children := new ProcNode?[MAX_CHILDREN];
      new;
      children[0] := null;
    }
  }

  /** One line of output. */
  datatype Line = Line(level: nat, node: ProcNode)

  /** A child array holds exactly the nodes at positions `ks`, then NULL. */
  ghost predicate Holds(cs: seq<ProcNode?>, nodes: seq<ProcNode>, ks: seq<nat>) {
    && |ks| < |cs|
    && (forall a :: 0 <= a < |ks| ==> ks[a] < |nodes| && cs[a] == nodes[ks[a]])
    && cs[|ks|] == null
  }

  /** Each position of the output shows the node and the depth of a visit. */
  ghost predicate Shows(out: seq<Line>, vs: seq<Visit>, ns: seq<ProcNode>) {
    && |out| == |vs|
    && forall k :: 0 <= k < |vs| ==> vs[k].node < |ns| && out[k] == Line(vs[k].level, ns[vs[k].node])
  }

  lemma ShowsConcat(out: seq<Line>, vs: seq<Visit>, out': seq<Line>, vs': seq<Visit>, ns: seq<ProcNode>)
    requires Shows(out, vs, ns) && Shows(out', vs', ns)
    ensures Shows(out + out', vs + vs', ns)
  {
  }

  /** The nodes that a child array holds, as a sequence. */
  lemma HeldChildren(cs: seq<ProcNode?>, ns: seq<ProcNode>, ks: seq<nat>, c: nat) returns (held: seq<ProcNode>)
    requires Holds(cs, ns, ks) && Ascending(ks) && c < |ns|
    requires forall i, j :: 0 <= i < j < |ns| ==> ns[i] != ns[j]
    ensures |held| == |ks| < |cs| && cs[..|ks|] == held && cs[|ks|] == null
    ensures ns[c] in held <==> c in ks
    ensures forall a, b :: 0 <= a < b < |held| ==> held[a] != held[b]
  {
    held := seq(|ks|, a requires 0 <= a < |ks| => ns[ks[a]]);
    if c in ks {
      var a :| 0 <= a < |ks| && ks[a] == c;
      assert held[a] == ns[c];
    }
    if ns[c] in held {
      var a :| 0 <= a < |held| && held[a] == ns[c];
      assert ks[a] == c;
    }
  }

  // ---------- the order of the lines, by the links of the nodes ----------

  /** Line j is the last line in front of line k with a smaller level. */
  ghost predicate LastSmaller(out: seq<Line>, j: nat, k: nat) {
    && j < k < |out| && out[j].level < out[k].level
    && forall i :: j < i < k ==> out[i].level >= out[k].level
  }

  /** A line is one level below the last line in front of it with a smaller level, and this line is its parent's. */
  ghost predicate UnderParent(out: seq<Line>, k: nat)
    requires k < |out|
    reads out[k].node
  {
    if out[k].level == 0 then out[k].node.parent == null
    else exists j: nat ::
      LastSmaller(out, j, k) && out[j].level + 1 == out[k].level && out[k].node.parent == out[j].node
  }

  ghost predicate AllUnderParents(out: seq<Line>)
    reads set k: nat | k < |out| :: out[k].node
  {
    forall k :: 0 <= k < |out| ==> UnderParent(out, k)
  }

  /** Lines j and k show nodes at positions a and b of the list. */
  ghost predicate ShowsTwo(out: seq<Line>, ns: seq<ProcNode>, j: nat, k: nat, a: nat, b: nat) {
    j < |out| && k < |out| && a < |ns| && b < |ns| && out[j].node == ns[a] && out[k].node == ns[b]
  }

  /** Of two nodes with the same parent, or without one, the first in the list has the first line. */
  ghost predicate SiblingsInOrder(out: seq<Line>, ns: seq<ProcNode>)
    reads set n <- ns
  {
    forall j: nat, k: nat, a: nat, b: nat ::
      ShowsTwo(out, ns, j, k, a, b) && a < b && ns[a].parent == ns[b].parent ==> j < k
  }

  /** Store a child behind the ones already there and move the NULL one slot on. */
  method AppendChild(parent: ProcNode, cur: ProcNode, ghost ns: seq<ProcNode>, ghost ks: seq<nat>, ghost i: nat)
    requires Holds(parent.children[..], ns, ks) && i < |ns| && ns[i] == cur
    requires |ks| + 1 < parent.children.Length
    modifies parent.children
    ensures Holds(parent.children[..], ns, ks + [i])
  {
    var childIndex := 0;
    while parent.children[childIndex] != null
      invariant 0 <= childIndex <= |ks|
      decreases |ks| - childIndex
    {
      childIndex := childIndex + 1;
    }
    parent.children[childIndex] := cur;
    parent.children[childIndex + 1] := null;
  }

  class ProcTable {
    var listRoot: ProcNode?
    ghost var nodes: seq<ProcNode>

    /** The node at a position, null for -1 and past the end. */
    ghost function At(i: int): (n: ProcNode?)
      reads this
    {
      if 0 <= i < |nodes| then nodes[i] else null
    }

    ghost function NodeSet(): set<object>
      reads this
    {
      set n <- nodes
    }

    ghost function ArraySet(): set<object>
      reads this
    {
      set n <- nodes :: n.children
    }

    /** The next links thread `nodes`. */
    ghost predicate Threaded()
      reads this, NodeSet()
    {
      && listRoot == At(0)
      && (forall i {:trigger nodes[i].next} :: 0 <= i < |nodes| ==> nodes[i].next == At(i + 1))
      && (forall i :: 0 <= i < |nodes| ==> nodes[i].children.Length == MAX_CHILDREN)
    }

    /** No node is listed twice and no two nodes share a child array. */
    ghost predicate Separate()
      reads this
    {
      && (forall i, j :: 0 <= i < j < |nodes| ==> nodes[i] != nodes[j])
      && (forall i, j :: 0 <= i < j < |nodes| ==> nodes[i].children != nodes[j].children)
    }

    ghost predicate Linked()
      reads this, NodeSet()
    {
      Threaded() && Separate()
    }

    ghost function Keys(): (ks: seq<Key>)
      reads this
      ensures |ks| == |nodes|
    {
      seq(|nodes|, i requires 0 <= i < |nodes| reads this => Key(nodes[i].pid, nodes[i].ppid))
    }

    ghost function Par(): (par: seq<int>)
      reads this
      ensures |par| == |nodes| && ParentSeq(par)
    {
      Parents(Keys())
    }

    ghost predicate ChildrenAre(p: nat, ks: seq<nat>)
      requires p < |nodes|
      reads this, ArraySet()
    {
      Holds(nodes[p].children[..], nodes, ks)
    }

    ghost predicate ParFor(par: seq<int>)
      reads this
    {
      |par| == |nodes| && ParentSeq(par)
    }

    /** The first m nodes know their parents, the others have none yet. */
    ghost predicate ParentsTo(par: seq<int>, m: nat)
      requires ParFor(par) && m <= |nodes|
      reads this, NodeSet()
    {
      forall i :: 0 <= i < |nodes| ==> nodes[i].parent == if i < m then At(par[i]) else null
    }

    /** Every child array holds those of the first m nodes that belong there, in list order. */
    ghost predicate ChildrenTo(par: seq<int>, m: nat)
      requires ParFor(par) && m <= |nodes|
      reads this, ArraySet()
    {
      forall p :: 0 <= p < |nodes| ==> ChildrenAre(p, Kids(par, p, m))
    }

    /** The first m nodes have been hung under their parents, the others not yet. */
    ghost predicate BuiltTo(par: seq<int>, m: nat)
      requires ParFor(par) && m <= |nodes|
      reads this, NodeSet(), ArraySet()
    {
      ParentsTo(par, m) && ChildrenTo(par, m)
    }

    /** No node has more children than its array can hold besides the final NULL. */
    ghost predicate Fits(par: seq<int>)
      requires ParFor(par)
      reads this
    {
      forall p :: 0 <= p < |nodes| ==> |Kids(par, p, |nodes|)| < MAX_CHILDREN
    }

    constructor ()
      ensures Linked() && BuiltTo(Par(), 0) && nodes == []
    {
      listRoot, nodes := null, [];
    }

    method InsertNode(name: string, pid: int, ppid: int)
      requires Linked() && BuiltTo(Par(), 0)
      modifies this
      ensures Linked() && BuiltTo(Par(), 0)
      ensures |nodes| == |old(nodes)| + 1 && nodes[1..] == old(nodes)
      ensures fresh(nodes[0]) && nodes[0].name == name && Keys()[0] == Key(pid, ppid)
    {
      var node := new ProcNode(name, pid, ppid, listRoot);
      listRoot := node;
      nodes := [node] + nodes;
      forall p | 0 <= p < |nodes| ensures ChildrenAre(p, []) {
        if p > 0 {
          assert nodes[p] == old(nodes)[p - 1];
          assert old(ChildrenAre(p - 1, Kids(Par(), p - 1, 0)));
        }
      }
    }

    method FindNode(pid: int) returns (r: ProcNode?)
      requires Threaded()
      ensures r == At(FirstWithPid(Keys(), pid))
    {
      r := listRoot;
      ghost var i := 0;
      while r != null
        invariant 0 <= i <= |nodes| && r == At(i)
        invariant forall j :: 0 <= j < i ==> Keys()[j].pid != pid
        decreases |nodes| - i
      {
        assert Keys()[i].pid == r.pid;
        if r.pid == pid { return; }
        r := r.next;
        i := i + 1;
      }
    }

    /** The inner part of the loop: hang node i under its parent, behind the children already there. */
    method Hang(cur: ProcNode, parent: ProcNode, ghost par: seq<int>, ghost i: nat)
      requires Linked() && i < |nodes| && ParFor(par) && BuiltTo(par, i) && Fits(par)
      requires cur == At(i) && par[i] >= 0 && parent == At(par[i])
      modifies cur`parent, parent.children
      ensures Linked() && BuiltTo(par, i + 1)
    {
      ghost var p := par[i];
      ghost var ks := Kids(par, p, i);
      KidsGrow(par, p, i + 1, |nodes|);
      assert |Kids(par, p, i + 1)| == |ks| + 1 < MAX_CHILDREN;
      assert ChildrenAre(p, ks);
      label before:
      cur.parent := parent;
      AppendChild(parent, cur, nodes, ks, i);
      assert ParentsTo(par, i + 1) by {
        assert old(ParentsTo(par, i));
      }
      assert ChildrenTo(par, i + 1) by {
        forall q {:trigger nodes[q]} | 0 <= q < |nodes| ensures ChildrenAre(q, Kids(par, q, i + 1)) {
          assert old@before(ChildrenAre(q, Kids(par, q, i)));
          if q != p {
            assert nodes[q].children != parent.children;
            assert nodes[q].children[..] == old@before(nodes[q].children[..]);
          }
        }
      }
    }

    /** A node without a listed parent needs no work. */
    lemma RootStays(par: seq<int>, i: nat)
      requires i < |nodes| && ParFor(par) && BuiltTo(par, i) && par[i] < 0
      ensures BuiltTo(par, i + 1)
    {
      assert ParentsTo(par, i + 1);
      assert ChildrenTo(par, i + 1) by {
        forall q {:trigger nodes[q]} | 0 <= q < |nodes| ensures ChildrenAre(q, Kids(par, q, i + 1)) {
          assert Kids(par, q, i + 1) == Kids(par, q, i);
          assert ChildrenAre(q, Kids(par, q, i));
        }
      }
    }

    /** The body of the loop: look for the parent of node i, and hang the node under it. */
    method Place(cur: ProcNode, ghost par: seq<int>, ghost i: nat)
      requires Linked() && i < |nodes| && par == Par() && BuiltTo(par, i) && Fits(par)
      requires cur == nodes[i]
      modifies cur`parent, ArraySet()
      ensures Linked() && BuiltTo(par, i + 1)
    {
      var parent := FindNode(cur.ppid);
      assert par[i] == FirstWithPid(Keys(), cur.ppid);
      if parent != null {
        Hang(cur, parent, par, i);
      } else {
        RootStays(par, i);
      }
    }

    method BuildPstree()
      requires Linked() && BuiltTo(Par(), 0) && Fits(Par())
      modifies NodeSet(), ArraySet()
      ensures nodes == old(nodes) && Linked() && BuiltTo(Par(), |nodes|)
    {
      var cur := listRoot;
      ghost var i, par := 0, Par();
      while cur != null
        invariant 0 <= i <= |nodes| && cur == At(i)
        invariant Linked() && BuiltTo(par, i) && par == Par()
        decreases |nodes| - i
      {
        Place(cur, par, i);
        cur := cur.next;
        i := i + 1;
      }
      assert i == |nodes|;
    }

    lemma KidsGrow(par: seq<int>, p: int, m: nat, n: nat)
      requires m <= n <= |par|
      ensures |Kids(par, p, m)| <= |Kids(par, p, n)|
    {
      if m < n { KidsGrow(par, p, m, n - 1); }
    }

    /** In the built forest a node stands in a child array exactly when its parent link says so, and then once. */
    lemma ChildIffParent(p: nat, c: nat) returns (children: seq<ProcNode>)
      requires Linked() && BuiltTo(Par(), |nodes|) && p < |nodes| && c < |nodes|
      // the child array holds `children` and then NULL
      ensures |children| < MAX_CHILDREN && nodes[p].children[..|children|] == children
      ensures nodes[p].children[|children|] == null
      ensures forall a, b :: 0 <= a < b < |children| ==> children[a] != children[b]
      ensures nodes[c] in children <==> nodes[c].parent == nodes[p]
      ensures nodes[c].parent == nodes[p] <==> FirstWithPid(Keys(), nodes[c].ppid) == p
    {
      var par := Par();
      var ks := Kids(par, p, |nodes|);
      KidsExact(par, p, |nodes|);
      assert ChildrenAre(p, ks);
      children := HeldChildren(nodes[p].children[..], nodes, ks, c);
      assert par[c] == FirstWithPid(Keys(), nodes[c].ppid);
      assert nodes[c].parent == At(par[c]);
    }

    /** Print a subtree.  `i` is the position of the node. */
    method PrintPstreeRecursive(node: ProcNode, level: nat, ghost par: seq<int>, ghost i: nat, ghost top: nat)
      returns (out: seq<Line>)
      requires Threaded() && ParFor(par) && ChildrenTo(par, |nodes|) && Bounds(par, top)
      requires i < |nodes| && node == nodes[i] && DepthIs(par, i, level)
      ensures Shows(out, Subtree(par, i, level, top), nodes)
      decreases top - level
    {
      ghost var ks := Kids(par, i, |par|);
      KidsOf(par, i, level, top);
      out := [Line(level, node)];
      var q := 0;
      assert ChildrenAre(i, ks);
      var cnode := node.children[q];
      ghost var done: seq<Visit> := [Visit(i, level)];
      while cnode != null
        invariant 0 <= q <= |ks| && cnode == node.children[q]
        invariant SubtreesDone(par, i, level, top, ks, q, done)
        invariant Shows(out, done, nodes)
        decreases |ks| - q
      {
        SubtreesNext(par, i, level, top, ks, q, done);
        var sub := PrintPstreeRecursive(cnode, level + 1, par, ks[q], top);
        ShowsConcat(out, done, sub, Subtree(par, ks[q], level + 1, top), nodes);
        done := done + Subtree(par, ks[q], level + 1, top);
        out := out + sub;
        q := q + 1;
        cnode := node.children[q];
      }
      assert ks[..q] == ks;
    }

    lemma ParentOf(par: seq<int>, a: nat, b: nat)
      requires Separate() && ParFor(par) && ParentsTo(par, |nodes|) && a < |nodes| && b < |nodes|
      ensures nodes[a].parent == null <==> par[a] < 0
      ensures nodes[a].parent == nodes[b] <==> par[a] == b
      ensures nodes[a].parent == nodes[b].parent <==> par[a] == par[b]
    {
      assert nodes[a].parent == At(par[a]) && nodes[b].parent == At(par[b]);
    }

    lemma LineUnderParent(par: seq<int>, top: nat, out: seq<Line>, k: nat)
      requires Separate() && ParFor(par) && ParentsTo(par, |nodes|) && Bounds(par, top)
      requires Shows(out, Forest(par, top), nodes) && k < |out|
      ensures UnderParent(out, k)
    {
      var vs := Forest(par, top);
      ForestOrder(par, top);
      KidsExact(par, -1, |par|);
      assert NestedAt(par, vs, Kids(par, -1, |par|), 0, k);
      ParentOf(par, vs[k].node, vs[k].node);
      if vs[k].level > 0 {
        var j: nat :| Above(par, vs, j, k);
        ParentOf(par, vs[k].node, vs[j].node);
        forall i | j < i < k ensures out[i].level >= out[k].level {
          assert out[i].level == vs[i].level;
        }
        assert LastSmaller(out, j, k);
      }
    }

    lemma LinesOfSiblings(par: seq<int>, top: nat, out: seq<Line>, j: nat, k: nat, a: nat, b: nat)
      requires Separate() && ParFor(par) && ParentsTo(par, |nodes|) && Bounds(par, top)
      requires Shows(out, Forest(par, top), nodes)
      requires ShowsTwo(out, nodes, j, k, a, b) && a < b && nodes[a].parent == nodes[b].parent
      ensures j < k
    {
      var vs := Forest(par, top);
      ForestOrder(par, top);
      ParentOf(par, a, b);
      assert vs[j].node == a && vs[k].node == b;
    }

    lemma LinesInOrder(par: seq<int>, top: nat, out: seq<Line>)
      requires Separate() && ParFor(par) && ParentsTo(par, |nodes|) && Bounds(par, top)
      requires Shows(out, Forest(par, top), nodes)
      ensures AllUnderParents(out) && SiblingsInOrder(out, nodes)
    {
      forall k | 0 <= k < |out| ensures UnderParent(out, k) {
        LineUnderParent(par, top, out, k);
      }
      forall j: nat, k: nat, a: nat, b: nat
        | ShowsTwo(out, nodes, j, k, a, b) && a < b && nodes[a].parent == nodes[b].parent
        ensures j < k
      {
        LinesOfSiblings(par, top, out, j, k, a, b);
      }
    }

    /** The body of the loop: nodes with a parent are printed with the tree they belong to. */
    method PrintIfRoot(cur: ProcNode, ghost par: seq<int>, ghost i: nat, ghost top: nat, ghost done: seq<Visit>)
      returns (out: seq<Line>, ghost vs: seq<Visit>)
      requires Threaded() && ParFor(par) && ParentsTo(par, |nodes|) && ChildrenTo(par, |nodes|) && Bounds(par, top)
      requires i < |nodes| && cur == nodes[i] && RootsDone(par, top, i, done)
      ensures Shows(out, vs, nodes) && RootsDone(par, top, i + 1, done + vs)
    {
      RootsNext(par, top, i, done);
      assert cur.parent == At(par[i]);
      out, vs := [], [];
      if cur.parent == null {
        out := PrintPstreeRecursive(cur, 0, par, i, top);
        vs := Subtree(par, i, 0, top);
      } else {
        assert done + vs == done;
      }
    }

    /** Print every tree. */
    method PrintPstree(ghost par: seq<int>, ghost top: nat) returns (out: seq<Line>)
      requires Linked() && ParFor(par) && ParentsTo(par, |nodes|) && ChildrenTo(par, |nodes|) && Bounds(par, top)
      ensures Shows(out, Forest(par, top), nodes)
      ensures AllUnderParents(out) && SiblingsInOrder(out, nodes)
    {
      ghost var i: nat := 0;
      ghost var done: seq<Visit> := [];
      out := [];
      var cur := listRoot;
      while cur != null
        invariant i <= |nodes| && cur == At(i)
        invariant RootsDone(par, top, i, done)
        invariant Shows(out, done, nodes)
        decreases |nodes| - i
      {
        var sub;
        ghost var vs;
        sub, vs := PrintIfRoot(cur, par, i, top, done);
        ShowsConcat(out, done, sub, vs, nodes);
        done := done + vs;
        out := out + sub;
        cur := cur.next;
        i := i + 1;
      }
      assert i == |nodes|;
      LinesInOrder(par, top, out);
    }

    /** Build and print: what the program writes for the list it has read. */
    method BuildAndPrint() returns (out: seq<Line>)
      requires Linked() && BuiltTo(Par(), 0) && Fits(Par())
      modifies NodeSet(), ArraySet()
      // every listed node whose chain of parents ends has one line, at its depth; no other line is written
      ensures PrintedOnce(out, Par(), nodes)
      // everybody is printed exactly when nobody is their own ancestor
      ensures Acyclic(Par()) <==> AllPrinted(out, nodes)
      // a node's line stands before those of its children, and siblings stand in list order
      ensures AllUnderParents(out) && SiblingsInOrder(out, nodes)
    {
      ghost var par := Par();
      ghost var top := BoundExists(par);
      BuildPstree();
      assert par == Par();
      out := PrintPstree(par, top);
      ForestLines(par, top, nodes, out);
    }
  }

  ghost predicate SubtreesDone(par: seq<int>, i: nat, level: nat, top: nat, ks: seq<nat>, q: nat, done: seq<Visit>)
    requires ParentSeq(par) && Bounds(par, top) && q <= |ks|
  {
    && AllAt(par, ks[..q], level + 1)
    && done == [Visit(i, level)] + Subtrees(par, ks[..q], level + 1, top)
  }

  lemma SubtreesNext(par: seq<int>, i: nat, level: nat, top: nat, ks: seq<nat>, q: nat, done: seq<Visit>)
    requires ParentSeq(par) && Bounds(par, top) && q < |ks| && AllAt(par, ks, level + 1)
    requires SubtreesDone(par, i, level, top, ks, q, done)
    ensures ks[q] < |par| && DepthIs(par, ks[q], level + 1)
    ensures SubtreesDone(par, i, level, top, ks, q + 1, done + Subtree(par, ks[q], level + 1, top))
  {
    assert ks[q] in ks;
    assert forall k :: k in ks[..q + 1] ==> k in ks;
    assert ks[..q + 1] == ks[..q] + [ks[q]];
    SubtreesSnoc(par, ks[..q], ks[q], level + 1, top);
  }

  /** The roots among the first n nodes have been printed. */
  ghost predicate RootsDone(par: seq<int>, top: nat, n: nat, done: seq<Visit>)
    requires ParentSeq(par) && Bounds(par, top) && n <= |par|
  {
    RootsAtZero(par, n);
    done == Subtrees(par, Kids(par, -1, n), 0, top)
  }

  lemma RootsNext(par: seq<int>, top: nat, n: nat, done: seq<Visit>)
    requires ParentSeq(par) && Bounds(par, top) && n < |par| && RootsDone(par, top, n, done)
    ensures par[n] >= 0 ==> RootsDone(par, top, n + 1, done)
    ensures par[n] < 0 ==> DepthIs(par, n, 0) && RootsDone(par, top, n + 1, done + Subtree(par, n, 0, top))
  {
    RootsAtZero(par, n);
    if par[n] < 0 {
      SubtreesSnoc(par, Kids(par, -1, n), n, 0, top);
    }
  }

  lemma SubtreesSnoc(par: seq<int>, ks: seq<nat>, k: nat, level: nat, top: nat)
    requires ParentSeq(par) && Bounds(par, top) && AllAt(par, ks, level) && k < |par| && DepthIs(par, k, level)
    ensures AllAt(par, ks + [k], level)
    ensures Subtrees(par, ks + [k], level, top) == Subtrees(par, ks, level, top) + Subtree(par, k, level, top)
  {
    assert (ks + [k])[..|ks|] == ks;
  }

  ghost predicate HasLine(out: seq<Line>, n: ProcNode) {
    exists k :: 0 <= k < |out| && out[k].node == n
  }

  ghost predicate AllPrinted(out: seq<Line>, ns: seq<ProcNode>) {
    forall i :: 0 <= i < |ns| ==> HasLine(out, ns[i])
  }

  ghost predicate RightDepth(l: Line, par: seq<int>, ns: seq<ProcNode>)
    requires |par| == |ns| && ParentSeq(par)
  {
    exists i :: 0 <= i < |ns| && l.node == ns[i] && DepthIs(par, i, l.level)
  }

  /** `out` holds one line for every node that has a depth, at that depth, and no others. */
  ghost predicate PrintedOnce(out: seq<Line>, par: seq<int>, ns: seq<ProcNode>)
    requires |par| == |ns| && ParentSeq(par)
  {
    && (forall k :: 0 <= k < |out| ==> RightDepth(out[k], par, ns))
    && (forall i :: 0 <= i < |ns| && HasDepth(par, i) ==> HasLine(out, ns[i]))
    && (forall j, k :: 0 <= j < k < |out| ==> out[j].node != out[k].node)
  }

  lemma ForestDepths(par: seq<int>, top: nat, k: nat)
    requires ParentSeq(par) && Bounds(par, top) && k < |Forest(par, top)|
    ensures Forest(par, top)[k].node < |par| && DepthIs(par, Forest(par, top)[k].node, Forest(par, top)[k].level)
  {
    ForestCount(par, top, Forest(par, top)[k]);
    assert Forest(par, top)[k] in Forest(par, top);
  }

  lemma LineIffDepth(par: seq<int>, top: nat, ns: seq<ProcNode>, out: seq<Line>, i: nat)
    requires |par| == |ns| && ParentSeq(par) && Bounds(par, top) && i < |ns|
    requires forall i, j :: 0 <= i < j < |ns| ==> ns[i] != ns[j]
    requires Shows(out, Forest(par, top), ns)
    ensures HasLine(out, ns[i]) <==> HasDepth(par, i)
  {
    var vs := Forest(par, top);
    PrintedOnceOrNever(par, top, i);
    TimesOfPositions(vs, i);
    if HasLine(out, ns[i]) {
      var k :| 0 <= k < |out| && out[k].node == ns[i];
      assert vs[k].node == i;
    }
    if k :| 0 <= k < |vs| && vs[k].node == i {
      assert out[k].node == ns[i];
    }
  }

  lemma NoLineTwice(par: seq<int>, top: nat, ns: seq<ProcNode>, out: seq<Line>, j: nat, k: nat)
    requires |par| == |ns| && ParentSeq(par) && Bounds(par, top)
    requires forall i, j :: 0 <= i < j < |ns| ==> ns[i] != ns[j]
    requires Shows(out, Forest(par, top), ns) && j < k < |out|
    ensures out[j].node != out[k].node
  {
    var vs := Forest(par, top);
    PrintedOnceOrNever(par, top, vs[j].node);
    TimesOfPositions(vs, vs[j].node);
  }

  lemma ForestLines(par: seq<int>, top: nat, ns: seq<ProcNode>, out: seq<Line>)
    requires |par| == |ns| && ParentSeq(par) && Bounds(par, top)
    requires forall i, j :: 0 <= i < j < |ns| ==> ns[i] != ns[j]
    requires Shows(out, Forest(par, top), ns)
    ensures PrintedOnce(out, par, ns)
    ensures Acyclic(par) <==> AllPrinted(out, ns)
  {
    forall k | 0 <= k < |out| ensures RightDepth(out[k], par, ns) {
      ForestDepths(par, top, k);
      assert out[k].node == ns[Forest(par, top)[k].node];
    }
    forall i | 0 <= i < |ns| ensures HasLine(out, ns[i]) <==> HasDepth(par, i) {
      LineIffDepth(par, top, ns, out, i);
    }
    forall j, k | 0 <= j < k < |out| ensures out[j].node != out[k].node {
      NoLineTwice(par, top, ns, out, j, k);
    }
    AllHaveDepthIffAcyclic(par);
  }
}
