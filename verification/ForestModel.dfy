/**
  The forest that a list of processes describes, on plain values.

  A list of n nodes is given by `par`: `par[i]` is the position of the parent of
  node i, or -1 when the list holds no node with that parent pid.  Nothing is
  assumed about cycles: the theorems say what happens to the nodes on them.
 */
module ForestModel {

  /** `par[i]` is -1 or a position in the list. */
  ghost predicate ParentSeq(par: seq<int>) {
    forall i :: 0 <= i < |par| ==> -1 <= par[i] < |par|
  }

  // ---------- from (pid, ppid) pairs to parent positions ----------

  datatype Key = Key(pid: int, ppid: int)

  /** The first position with this pid, or -1: what the list walk finds. */
  function FirstWithPid(keys: seq<Key>, pid: int): (r: int)
    ensures -1 <= r < |keys|
    ensures r >= 0 ==> keys[r].pid == pid && forall j :: 0 <= j < r ==> keys[j].pid != pid
    ensures r < 0 ==> forall j :: 0 <= j < |keys| ==> keys[j].pid != pid
  {
    if keys == [] then -1
    else if keys[0].pid == pid then 0
    else
      var r := FirstWithPid(keys[1..], pid);
      assert forall j :: 1 <= j < |keys| ==> keys[j] == keys[1..][j - 1];
      if r < 0 then -1 else r + 1
  }

  ghost function Parents(keys: seq<Key>): (par: seq<int>)
    ensures |par| == |keys| && ParentSeq(par)
  {
    seq(|keys|, i requires 0 <= i < |keys| => FirstWithPid(keys, keys[i].ppid))
  }

  // ---------- children ----------

  /** The nodes among the first `n` whose parent is `p`, in list order. */
  ghost function Kids(par: seq<int>, p: int, n: nat): seq<nat>
    requires n <= |par|
  {
    if n == 0 then []
    else if par[n - 1] == p then Kids(par, p, n - 1) + [n - 1]
    else Kids(par, p, n - 1)
  }

  /** The children of p are exactly the nodes with parent p, each once, in list order. */
  lemma {:induction false} KidsExact(par: seq<int>, p: int, n: nat)
    requires n <= |par|
    ensures forall k :: k in Kids(par, p, n) <==> 0 <= k < n && par[k] == p
    ensures Ascending(Kids(par, p, n))
  {
    if n > 0 {
      KidsExact(par, p, n - 1);
      var ks := Kids(par, p, n - 1);
      assert forall a :: 0 <= a < |ks| ==> ks[a] in ks;
    }
  }

  ghost predicate Ascending(ks: seq<nat>) {
    forall a, b :: 0 <= a < b < |ks| ==> ks[a] < ks[b]
  }

  // ---------- ancestors, depth, cycles ----------

  /** The k-th ancestor of i, -1 once the chain has ended. */
  ghost function Anc(par: seq<int>, i: int, k: nat): (a: int)
    requires ParentSeq(par) && -1 <= i < |par|
    ensures -1 <= a < |par|
    decreases k
  {
    if k == 0 || i < 0 then i else Anc(par, par[i], k - 1)
  }

  /** The parent chain of i has exactly d links and ends at a root. */
  ghost predicate DepthIs(par: seq<int>, i: int, d: nat)
    requires ParentSeq(par) && -1 <= i < |par|
  {
    i >= 0 && Anc(par, i, d) >= 0 && par[Anc(par, i, d)] < 0
  }

  /** The parent chain of i ends. */
  ghost predicate HasDepth(par: seq<int>, i: int)
    requires ParentSeq(par) && -1 <= i < |par|
  {
    exists d: nat :: DepthIs(par, i, d)
  }

  /** Some chain of parents comes back to where it started. */
  ghost predicate OnCycle(par: seq<int>, i: int, k: nat)
    requires ParentSeq(par) && -1 <= i < |par|
  {
    i >= 0 && k > 0 && Anc(par, i, k) == i
  }

  ghost predicate Acyclic(par: seq<int>)
    requires ParentSeq(par)
  {
    forall i, k: nat :: 0 <= i < |par| ==> !OnCycle(par, i, k)
  }

  lemma {:induction false} AncAdd(par: seq<int>, i: int, j: nat, k: nat)
    requires ParentSeq(par) && -1 <= i < |par|
    ensures Anc(par, i, j + k) == Anc(par, Anc(par, i, j), k)
    decreases j
  {
    if j > 0 && i >= 0 {
      AncAdd(par, par[i], j - 1, k);
    }
  }

  /** One step up from the k-th ancestor. */
  lemma AncSucc(par: seq<int>, i: int, k: nat)
    requires ParentSeq(par) && -1 <= i < |par|
    ensures Anc(par, i, k + 1) == if Anc(par, i, k) < 0 then -1 else par[Anc(par, i, k)]
  {
    AncAdd(par, i, k, 1);
    var a := Anc(par, i, k);
    assert a >= 0 ==> Anc(par, a, 1) == Anc(par, par[a], 0);
  }

  lemma DepthUnique(par: seq<int>, i: int, d: nat, e: nat)
    requires ParentSeq(par) && 0 <= i < |par|
    requires DepthIs(par, i, d) && DepthIs(par, i, e)
    ensures d == e
  {
    if d < e {
      AncSucc(par, i, d);
      AncAdd(par, i, d + 1, e - d - 1);
    } else if e < d {
      AncSucc(par, i, e);
      AncAdd(par, i, e + 1, d - e - 1);
    }
  }

  lemma DepthOfKid(par: seq<int>, i: int, d: nat, c: int)
    requires ParentSeq(par) && 0 <= i < |par| && 0 <= c < |par|
    requires par[c] == i && DepthIs(par, i, d)
    ensures DepthIs(par, c, d + 1)
  {
    assert Anc(par, c, d + 1) == Anc(par, par[c], d);
  }

  /** The roots are the nodes whose parent pid nobody has. */
  lemma RootIffUnlisted(keys: seq<Key>, i: nat)
    requires i < |keys|
    ensures DepthIs(Parents(keys), i, 0) <==> forall j :: 0 <= j < |keys| ==> keys[j].pid != keys[i].ppid
  {
  }

  // ---------- a chain without an end repeats itself ----------

  /** The first k links above i, i included. */
  ghost function Chain(par: seq<int>, i: int, k: nat): (s: seq<int>)
    requires ParentSeq(par) && 0 <= i < |par|
    ensures |s| == k + 1
    ensures forall e :: 0 <= e <= k ==> s[e] == Anc(par, i, e)
  {
    seq(k + 1, e requires 0 <= e <= k => Anc(par, i, e))
  }

  /** A sequence without repetitions over [0, n) has at most n elements. */
  lemma {:induction false} Pigeonhole(s: seq<int>, n: nat)
    requires forall e :: 0 <= e < |s| ==> 0 <= s[e] < n
    requires forall a, b :: 0 <= a < b < |s| ==> s[a] != s[b]
    ensures |s| <= n
  {
    if s != [] {
      assert 0 <= s[0] < n;
      if n - 1 in s {
        var e :| 0 <= e < |s| && s[e] == n - 1;
        var t := s[..e] + s[e + 1..];
        forall a | 0 <= a < |t| ensures 0 <= t[a] < n - 1 {
          assert t[a] == if a < e then s[a] else s[a + 1];
        }
        forall a, b | 0 <= a < b < |t| ensures t[a] != t[b] {
          assert t[a] == if a < e then s[a] else s[a + 1];
          assert t[b] == if b < e then s[b] else s[b + 1];
        }
        Pigeonhole(t, n - 1);
      } else {
        assert forall e :: 0 <= e < |s| ==> s[e] in s;
        Pigeonhole(s, n - 1);
      }
    }
  }

  /** Without a cycle above it, a node has a depth. */
  lemma AcyclicHasDepth(par: seq<int>, i: int) returns (d: nat)
    requires ParentSeq(par) && 0 <= i < |par| && Acyclic(par)
    ensures DepthIs(par, i, d)
  {
    d := 0;
    while par[Anc(par, i, d)] >= 0
      invariant Anc(par, i, d) >= 0
      invariant d < |par|
      decreases |par| - d
    {
      AncSucc(par, i, d);
      d := d + 1;
      ChainDistinct(par, i, d);
      Pigeonhole(Chain(par, i, d), |par|);
    }
  }

  lemma ChainDistinct(par: seq<int>, i: int, k: nat)
    requires ParentSeq(par) && 0 <= i < |par| && Acyclic(par) && Anc(par, i, k) >= 0
    ensures forall e :: 0 <= e <= k ==> Anc(par, i, e) >= 0
    ensures forall a, b :: 0 <= a < b <= k ==> Anc(par, i, a) != Anc(par, i, b)
  {
    forall e | 0 <= e <= k ensures Anc(par, i, e) >= 0 {
      AncAdd(par, i, e, k - e);
    }
    forall a, b | 0 <= a < b <= k ensures Anc(par, i, a) != Anc(par, i, b) {
      AncAdd(par, i, a, b - a);
      assert !OnCycle(par, Anc(par, i, a), b - a);
    }
  }

  /** A node on a cycle has no depth: its chain never ends. */
  lemma {:induction false} CycleNeverEnds(par: seq<int>, i: int, k: nat, d: nat)
    requires ParentSeq(par) && -1 <= i < |par| && OnCycle(par, i, k)
    ensures !DepthIs(par, i, d)
    decreases d
  {
    if d < k {
      if DepthIs(par, i, d) {
        AncSucc(par, i, d);
        AncAdd(par, i, d + 1, k - d - 1);
      }
    } else {
      AncAdd(par, i, k, d - k);
      CycleNeverEnds(par, i, k, d - k);
    }
  }

  /** Every node has a depth exactly when the parent relation has no cycle. */
  lemma AllHaveDepthIffAcyclic(par: seq<int>)
    requires ParentSeq(par)
    ensures Acyclic(par) <==> forall i :: 0 <= i < |par| ==> HasDepth(par, i)
  {
    if Acyclic(par) {
      forall i | 0 <= i < |par| ensures HasDepth(par, i) {
        var d := AcyclicHasDepth(par, i);
      }
    } else {
      var i, k: nat :| 0 <= i < |par| && OnCycle(par, i, k);
      forall d: nat ensures !DepthIs(par, i, d) {
        CycleNeverEnds(par, i, k, d);
      }
      assert !HasDepth(par, i);
    }
  }

  // ---------- the order in which the forest is printed ----------

  /** `top` is above every depth that occurs. */
  ghost predicate Bounds(par: seq<int>, top: nat)
    requires ParentSeq(par)
  {
    forall i, d: nat :: 0 <= i < |par| && DepthIs(par, i, d) ==> d < top
  }

  lemma BoundExists(par: seq<int>) returns (top: nat)
    requires ParentSeq(par)
    ensures Bounds(par, top)
  {
    top := 0;
    var n := 0;
    while n < |par|
      invariant 0 <= n <= |par|
      invariant forall i, d: nat :: 0 <= i < n && DepthIs(par, i, d) ==> d < top
    {
      if d: nat :| DepthIs(par, n, d) {
        forall e: nat | DepthIs(par, n, e) ensures e == d {
          DepthUnique(par, n, d, e);
        }
        top := if d < top then top else d + 1;
      }
      n := n + 1;
    }
  }

  datatype Visit = Visit(node: nat, level: nat)

  /** The subtree of i, node before children, children in list order. */
  ghost function Subtree(par: seq<int>, i: nat, level: nat, top: nat): seq<Visit>
    requires ParentSeq(par) && i < |par| && DepthIs(par, i, level) && Bounds(par, top)
    decreases top - level, 1, 0
  {
    KidsOf(par, i, level, top);
    [Visit(i, level)] + Subtrees(par, Kids(par, i, |par|), level + 1, top)
  }

  ghost predicate AllAt(par: seq<int>, ks: seq<nat>, level: nat)
    requires ParentSeq(par)
  {
    forall k :: k in ks ==> k < |par| && DepthIs(par, k, level)
  }

  /** The subtrees of a list of siblings, one after the other. */
  ghost function Subtrees(par: seq<int>, ks: seq<nat>, level: nat, top: nat): seq<Visit>
    requires ParentSeq(par) && Bounds(par, top) && AllAt(par, ks, level)
    decreases top - level, 2, |ks|
  {
    if ks == [] then []
    else
      var last := |ks| - 1;
      assert ks[last] in ks;
      assert forall k :: k in ks[..last] ==> k in ks;
      Subtrees(par, ks[..last], level, top) + Subtree(par, ks[last], level, top)
  }

  lemma KidsOf(par: seq<int>, i: nat, level: nat, top: nat)
    requires ParentSeq(par) && i < |par| && DepthIs(par, i, level) && Bounds(par, top)
    ensures AllAt(par, Kids(par, i, |par|), level + 1)
    ensures level < top
  {
    KidsExact(par, i, |par|);
    forall k | k in Kids(par, i, |par|) ensures DepthIs(par, k, level + 1) {
      DepthOfKid(par, i, level, k);
    }
  }

  lemma RootsAtZero(par: seq<int>, n: nat)
    requires ParentSeq(par) && n <= |par|
    ensures AllAt(par, Kids(par, -1, n), 0)
  {
    KidsExact(par, -1, n);
  }

  /** All trees, roots in list order. */
  ghost function Forest(par: seq<int>, top: nat): seq<Visit>
    requires ParentSeq(par) && Bounds(par, top)
  {
    RootsAtZero(par, |par|);
    Subtrees(par, Kids(par, -1, |par|), 0, top)
  }

  // ---------- what is printed, and how often ----------

  /** j stands below (or is) i, and a walk from i at `level` meets j at level d. */
  ghost predicate Below(par: seq<int>, i: int, level: nat, v: Visit)
    requires ParentSeq(par)
  {
    v.node < |par| && level <= v.level && i >= 0 && Anc(par, v.node, v.level - level) == i
  }

  ghost predicate BelowOne(par: seq<int>, ks: seq<nat>, level: nat, v: Visit)
    requires ParentSeq(par)
  {
    exists k :: k in ks && Below(par, k, level, v)
  }

  /** What stands below i is i itself or stands below one child of i. */
  lemma BelowStep(par: seq<int>, i: nat, level: nat, v: Visit)
    requires ParentSeq(par) && i < |par|
    ensures Below(par, i, level, v)
        <==> v == Visit(i, level) || BelowOne(par, Kids(par, i, |par|), level + 1, v)
    ensures v.level == level ==> !BelowOne(par, Kids(par, i, |par|), level + 1, v)
  {
    KidsExact(par, i, |par|);
    if v.node < |par| && level < v.level {
      var e := v.level - level - 1;
      AncSucc(par, v.node, e);
      if Below(par, i, level, v) {
        assert Below(par, Anc(par, v.node, e), level + 1, v);
        assert Anc(par, v.node, e) in Kids(par, i, |par|);
      }
    }
  }

  lemma {:induction false} SubtreeCount(par: seq<int>, i: nat, level: nat, top: nat, v: Visit)
    requires ParentSeq(par) && i < |par| && DepthIs(par, i, level) && Bounds(par, top)
    ensures multiset(Subtree(par, i, level, top))[v] == if Below(par, i, level, v) then 1 else 0
    decreases top - level, 1, 0
  {
    var ks := Kids(par, i, |par|);
    KidsOf(par, i, level, top);
    KidsExact(par, i, |par|);
    SubtreesCount(par, ks, level + 1, top, v);
    assert multiset(Subtree(par, i, level, top))
        == multiset([Visit(i, level)]) + multiset(Subtrees(par, ks, level + 1, top));
    BelowStep(par, i, level, v);
  }

  lemma {:induction false} SubtreesCount(par: seq<int>, ks: seq<nat>, level: nat, top: nat, v: Visit)
    requires ParentSeq(par) && Bounds(par, top) && AllAt(par, ks, level)
    requires Ascending(ks)
    ensures multiset(Subtrees(par, ks, level, top))[v]
         == if BelowOne(par, ks, level, v) then 1 else 0
    decreases top - level, 2, |ks|
  {
    if ks != [] {
      var last := |ks| - 1;
      assert ks[last] in ks;
      assert ks == ks[..last] + [ks[last]];
      assert forall k :: k in ks[..last] ==> k in ks;
      SubtreesCount(par, ks[..last], level, top, v);
      SubtreeCount(par, ks[last], level, top, v);
      if k :| k in ks[..last] && Below(par, k, level, v) {
        assert k < ks[last];
      }
    }
  }

  /** Printed exactly once at its depth if it has one; never otherwise. */
  lemma ForestCount(par: seq<int>, top: nat, v: Visit)
    requires ParentSeq(par) && Bounds(par, top)
    ensures multiset(Forest(par, top))[v]
         == if v.node < |par| && DepthIs(par, v.node, v.level) then 1 else 0
  {
    var roots := Kids(par, -1, |par|);
    RootsAtZero(par, |par|);
    KidsExact(par, -1, |par|);
    SubtreesCount(par, roots, 0, top, v);
    if v.node < |par| && DepthIs(par, v.node, v.level) {
      assert Below(par, Anc(par, v.node, v.level), 0, v);
    }
  }

  /** How often node i is printed, at whatever level. */
  ghost function Times(out: seq<Visit>, i: nat): nat {
    if out == [] then 0 else Times(out[..|out| - 1], i) + if out[|out| - 1].node == i then 1 else 0
  }

  lemma {:induction false} TimesOneLevel(out: seq<Visit>, i: nat, d: nat)
    requires forall v :: v in out && v.node == i ==> v.level == d
    ensures Times(out, i) == multiset(out)[Visit(i, d)]
  {
    if out != [] {
      var last := |out| - 1;
      assert out == out[..last] + [out[last]];
      assert out[last] in out;
      assert forall v :: v in out[..last] ==> v in out;
      TimesOneLevel(out[..last], i, d);
    }
  }

  lemma {:induction false} TimesOfPositions(out: seq<Visit>, i: nat)
    ensures Times(out, i) > 0 <==> exists k :: 0 <= k < |out| && out[k].node == i
    ensures Times(out, i) > 1 <==> exists j, k :: 0 <= j < k < |out| && out[j].node == i && out[k].node == i
  {
    if out != [] {
      var last := |out| - 1;
      TimesOfPositions(out[..last], i);
      if k :| 0 <= k < |out| && out[k].node == i {
        assert k == last || out[..last][k].node == i;
      }
      if j, k :| 0 <= j < k < |out| && out[j].node == i && out[k].node == i {
        assert out[..last][j].node == i;
        assert k == last || out[..last][k].node == i;
      }
      if Times(out[..last], i) > 0 {
        var k :| 0 <= k < last && out[..last][k].node == i;
        assert out[k].node == i;
      }
      if Times(out[..last], i) > 1 {
        var j, k :| 0 <= j < k < last && out[..last][j].node == i && out[..last][k].node == i;
        assert out[j].node == i && out[k].node == i;
      }
    }
  }

  /** Node i is printed once when its chain of parents ends, and not at all when it does not. */
  lemma PrintedOnceOrNever(par: seq<int>, top: nat, i: nat)
    requires ParentSeq(par) && Bounds(par, top) && i < |par|
    ensures Times(Forest(par, top), i) == if HasDepth(par, i) then 1 else 0
  {
    var out := Forest(par, top);
    forall v | v in out && v.node == i ensures DepthIs(par, i, v.level) {
      ForestCount(par, top, v);
    }
    var d: nat := if d: nat :| DepthIs(par, i, d) then d else 0;
    forall v | v in out && v.node == i ensures v.level == d {
      DepthUnique(par, i, v.level, d);
    }
    TimesOneLevel(out, i, d);
    ForestCount(par, top, Visit(i, d));
  }

  /** Every listed process is printed exactly once if and only if the parent relation has no cycle. */
  lemma AllPrintedIffAcyclic(par: seq<int>, top: nat)
    requires ParentSeq(par) && Bounds(par, top)
    ensures Acyclic(par) <==> forall i: nat :: i < |par| ==> Times(Forest(par, top), i) == 1
  {
    AllHaveDepthIffAcyclic(par);
    forall i: nat | i < |par|
      ensures Times(Forest(par, top), i) == 1 <==> HasDepth(par, i)
    {
      PrintedOnceOrNever(par, top, i);
    }
    if Acyclic(par) {
    } else {
      var i: nat :| i < |par| && !HasDepth(par, i);
      assert Times(Forest(par, top), i) != 1;
    }
  }

  /** Two processes that are each other's parent are not printed at all. */
  lemma CycleIsNotPrinted(top: nat)
    requires Bounds(Parents([Key(1, 2), Key(2, 1)]), top)
    ensures var par := Parents([Key(1, 2), Key(2, 1)]);
      !Acyclic(par) && Times(Forest(par, top), 0) == Times(Forest(par, top), 1) == 0
  {
    var keys := [Key(1, 2), Key(2, 1)];
    var par := Parents(keys);
    assert keys[0].pid == 1 && keys[1].pid == 2;
    assert par[0] == 1 && par[1] == 0;
    assert Anc(par, 0, 2) == Anc(par, 1, 1) == 0 && Anc(par, 1, 2) == Anc(par, 0, 1) == 1;
    assert OnCycle(par, 0, 2) && OnCycle(par, 1, 2);
    forall i: nat, d: nat | i < 2 ensures !DepthIs(par, i, d) {
      CycleNeverEnds(par, i, 2, d);
    }
    PrintedOnceOrNever(par, top, 0);
    PrintedOnceOrNever(par, top, 1);
  }
}
