/**
  The order of the lines that HW4/12_2.c writes, as a reader of the output sees
  it: every line stands under its parent's, and siblings stand in list order.
 */
module PrintOrder {
  import opened ForestModel

  /** Line j is the last line before k with a smaller level, and it is the parent's. */
  ghost predicate Above(par: seq<int>, vs: seq<Visit>, j: nat, k: nat) {
    && j < k < |vs| && vs[k].node < |par|
    && vs[j].level + 1 == vs[k].level && par[vs[k].node] == vs[j].node
    && forall i :: j < i < k ==> vs[i].level >= vs[k].level
  }

  ghost predicate HasAbove(par: seq<int>, vs: seq<Visit>, k: nat) {
    exists j: nat :: Above(par, vs, j, k)
  }

  ghost predicate NestedAt(par: seq<int>, vs: seq<Visit>, ks: seq<nat>, level: nat, k: nat)
    requires k < |vs|
  {
    vs[k].level >= level && if vs[k].level == level then vs[k].node in ks else HasAbove(par, vs, k)
  }

  /** Lines at the given level show nodes of `ks`, deeper ones stand under their parents. */
  ghost predicate Nested(par: seq<int>, vs: seq<Visit>, ks: seq<nat>, level: nat) {
    forall k :: 0 <= k < |vs| ==> NestedAt(par, vs, ks, level, k)
  }

  lemma AboveInFront(par: seq<int>, a: seq<Visit>, b: seq<Visit>, k: nat)
    requires HasAbove(par, a, k)
    ensures HasAbove(par, a + b, k)
  {
    var j: nat :| Above(par, a, j, k);
    assert Above(par, a + b, j, k);
  }

  lemma AboveBehind(par: seq<int>, a: seq<Visit>, b: seq<Visit>, k: nat)
    requires HasAbove(par, b, k)
    ensures HasAbove(par, a + b, |a| + k)
  {
    var j: nat :| Above(par, b, j, k);
    var vs := a + b;
    forall i | |a| + j < i < |a| + k ensures vs[i].level >= vs[|a| + k].level {
      assert vs[i] == b[i - |a|];
    }
    assert Above(par, vs, |a| + j, |a| + k);
  }

  lemma NestedConcat(par: seq<int>, a: seq<Visit>, b: seq<Visit>, ks: seq<nat>, level: nat)
    requires Nested(par, a, ks, level) && Nested(par, b, ks, level)
    ensures Nested(par, a + b, ks, level)
  {
    var vs := a + b;
    forall k | 0 <= k < |vs| ensures NestedAt(par, vs, ks, level, k) {
      if k < |a| {
        assert NestedAt(par, a, ks, level, k);
        if a[k].level > level { AboveInFront(par, a, b, k); }
      } else {
        assert vs[k] == b[k - |a|] && NestedAt(par, b, ks, level, k - |a|);
        if b[k - |a|].level > level { AboveBehind(par, a, b, k - |a|); }
      }
    }
  }

  lemma UnderHead(par: seq<int>, v: Visit, rest: seq<Visit>, k: nat)
    requires k < |rest| && rest[k].node < |par| && par[rest[k].node] == v.node && rest[k].level == v.level + 1
    requires forall i :: 0 <= i < |rest| ==> rest[i].level > v.level
    ensures HasAbove(par, [v] + rest, k + 1)
  {
    var vs := [v] + rest;
    forall i | 0 < i < k + 1 ensures vs[i].level >= vs[k + 1].level {
      assert vs[i] == rest[i - 1];
    }
    assert Above(par, vs, 0, k + 1);
  }

  /** A node in front of what hangs below it. */
  lemma NestedUnder(par: seq<int>, v: Visit, rest: seq<Visit>, kids: seq<nat>)
    requires Nested(par, rest, kids, v.level + 1) && forall c :: c in kids ==> c < |par| && par[c] == v.node
    ensures Nested(par, [v] + rest, [v.node], v.level)
  {
    var vs := [v] + rest;
    forall k | 0 <= k < |vs| ensures NestedAt(par, vs, [v.node], v.level, k) {
      if k > 0 {
        DeeperAt(par, v, rest, kids, k - 1);
      }
    }
  }

  lemma DeeperAt(par: seq<int>, v: Visit, rest: seq<Visit>, kids: seq<nat>, k: nat)
    requires Nested(par, rest, kids, v.level + 1) && forall c :: c in kids ==> c < |par| && par[c] == v.node
    requires k < |rest|
    ensures rest[k].level > v.level && HasAbove(par, [v] + rest, k + 1)
  {
    assert NestedAt(par, rest, kids, v.level + 1, k);
    if rest[k].level == v.level + 1 {
      LevelsBelow(par, rest, kids, v.level + 1);
      UnderHead(par, v, rest, k);
    } else {
      AboveBehind(par, [v], rest, k);
    }
  }

  lemma LevelsBelow(par: seq<int>, vs: seq<Visit>, ks: seq<nat>, level: nat)
    requires Nested(par, vs, ks, level)
    ensures forall i :: 0 <= i < |vs| ==> vs[i].level >= level
  {
    forall i | 0 <= i < |vs| ensures vs[i].level >= level {
      assert NestedAt(par, vs, ks, level, i);
    }
  }

  lemma NestedMore(par: seq<int>, vs: seq<Visit>, ks: seq<nat>, ks': seq<nat>, level: nat)
    requires Nested(par, vs, ks, level) && forall k :: k in ks ==> k in ks'
    ensures Nested(par, vs, ks', level)
  {
    forall i | 0 <= i < |vs| ensures NestedAt(par, vs, ks', level, i) {
      assert NestedAt(par, vs, ks, level, i);
    }
  }

  lemma {:induction false} SubtreeNested(par: seq<int>, i: nat, level: nat, top: nat)
    requires ParentSeq(par) && i < |par| && DepthIs(par, i, level) && Bounds(par, top)
    ensures Nested(par, Subtree(par, i, level, top), [i], level)
    decreases top - level, 1, 0
  {
    var kids := Kids(par, i, |par|);
    KidsOf(par, i, level, top);
    KidsExact(par, i, |par|);
    SubtreesNested(par, kids, level + 1, top);
    NestedUnder(par, Visit(i, level), Subtrees(par, kids, level + 1, top), kids);
  }

  lemma {:induction false} SubtreesNested(par: seq<int>, ks: seq<nat>, level: nat, top: nat)
    requires ParentSeq(par) && Bounds(par, top) && AllAt(par, ks, level)
    ensures Nested(par, Subtrees(par, ks, level, top), ks, level)
    decreases top - level, 2, |ks|
  {
    if ks != [] {
      var last := |ks| - 1;
      assert ks[last] in ks;
      assert forall k :: k in ks[..last] ==> k in ks;
      SubtreesNested(par, ks[..last], level, top);
      SubtreeNested(par, ks[last], level, top);
      var a, b := Subtrees(par, ks[..last], level, top), Subtree(par, ks[last], level, top);
      NestedMore(par, a, ks[..last], ks, level);
      NestedMore(par, b, [ks[last]], ks, level);
      NestedConcat(par, a, b, ks, level);
    }
  }

  // ---------- siblings ----------

  /** Every visit shows a node at its depth. */
  ghost predicate DepthsRight(par: seq<int>, vs: seq<Visit>)
    requires ParentSeq(par)
  {
    forall k :: 0 <= k < |vs| ==> vs[k].node < |par| && DepthIs(par, vs[k].node, vs[k].level)
  }

  lemma SubtreesDepths(par: seq<int>, ks: seq<nat>, level: nat, top: nat)
    requires ParentSeq(par) && Bounds(par, top) && AllAt(par, ks, level) && Ascending(ks)
    ensures DepthsRight(par, Subtrees(par, ks, level, top))
  {
    var vs := Subtrees(par, ks, level, top);
    forall k | 0 <= k < |vs| ensures vs[k].node < |par| && DepthIs(par, vs[k].node, vs[k].level) {
      SubtreesCount(par, ks, level, top, vs[k]);
      assert vs[k] in vs;
      var r :| r in ks && Below(par, r, level, vs[k]);
      AncAdd(par, vs[k].node, vs[k].level - level, level);
    }
  }

  /** Nodes with the same parent, or without one, have the same depth. */
  lemma SiblingDepths(par: seq<int>, a: nat, d: nat, b: nat, e: nat)
    requires ParentSeq(par) && a < |par| && b < |par| && par[a] == par[b]
    requires DepthIs(par, a, d) && DepthIs(par, b, e)
    ensures d == e
  {
    if par[a] < 0 {
      DepthUnique(par, a, d, 0);
      DepthUnique(par, b, e, 0);
    } else {
      assert d > 0 && Anc(par, a, d) == Anc(par, par[a], d - 1);
      assert e > 0 && Anc(par, b, e) == Anc(par, par[b], e - 1);
      DepthUnique(par, par[a], d - 1, e - 1);
    }
  }

  /** The nodes have the same parent, or both have none. */
  predicate Siblings(par: seq<int>, v: Visit, w: Visit) {
    v.node < |par| && w.node < |par| && par[v.node] == par[w.node]
  }

  /** Siblings stand in list order. */
  ghost predicate InOrder(par: seq<int>, vs: seq<Visit>) {
    forall j, k :: 0 <= j < k < |vs| && Siblings(par, vs[j], vs[k]) ==> vs[j].node < vs[k].node
  }

  lemma {:induction false} SubtreeInOrder(par: seq<int>, i: nat, level: nat, top: nat)
    requires ParentSeq(par) && i < |par| && DepthIs(par, i, level) && Bounds(par, top)
    ensures InOrder(par, Subtree(par, i, level, top))
    decreases top - level, 1, 0
  {
    var kids := Kids(par, i, |par|);
    KidsOf(par, i, level, top);
    KidsExact(par, i, |par|);
    var rest := Subtrees(par, kids, level + 1, top);
    SubtreesInOrder(par, kids, level + 1, top);
    SubtreesDepths(par, kids, level + 1, top);
    SubtreesNested(par, kids, level + 1, top);
    LevelsBelow(par, rest, kids, level + 1);
    forall k | 0 <= k < |rest| ensures par[rest[k].node] != par[i] {
      if par[rest[k].node] == par[i] {
        SiblingDepths(par, rest[k].node, rest[k].level, i, level);
      }
    }
    var vs := Subtree(par, i, level, top);
    assert forall k :: 0 < k < |vs| ==> vs[k] == rest[k - 1];
  }

  lemma {:induction false} SubtreesInOrder(par: seq<int>, ks: seq<nat>, level: nat, top: nat)
    requires ParentSeq(par) && Bounds(par, top) && AllAt(par, ks, level) && Ascending(ks)
    ensures InOrder(par, Subtrees(par, ks, level, top))
    decreases top - level, 2, |ks|
  {
    if ks != [] {
      var last := |ks| - 1;
      assert ks[last] in ks;
      assert forall k :: k in ks[..last] ==> k in ks;
      var a, b := Subtrees(par, ks[..last], level, top), Subtree(par, ks[last], level, top);
      SubtreesInOrder(par, ks[..last], level, top);
      SubtreeInOrder(par, ks[last], level, top);
      forall j, k | 0 <= j < |a| && 0 <= k < |b| && Siblings(par, a[j], b[k]) ensures a[j].node < b[k].node {
        SiblingsAcross(par, ks, level, top, j, k);
      }
      OrderConcat(par, a, b);
    }
  }

  lemma OrderConcat(par: seq<int>, a: seq<Visit>, b: seq<Visit>)
    requires InOrder(par, a) && InOrder(par, b)
    requires forall j, k :: 0 <= j < |a| && 0 <= k < |b| && Siblings(par, a[j], b[k]) ==> a[j].node < b[k].node
    ensures InOrder(par, a + b)
  {
    var vs := a + b;
    forall j, k | 0 <= j < k < |vs| && Siblings(par, vs[j], vs[k]) ensures vs[j].node < vs[k].node {
      if j >= |a| {
        assert vs[j] == b[j - |a|] && vs[k] == b[k - |a|];
      } else if k >= |a| {
        assert vs[j] == a[j] && vs[k] == b[k - |a|];
      }
    }
  }

  lemma CountedTwice(a: seq<Visit>, b: seq<Visit>, i: nat, h: nat)
    requires i < |a| && h < |b| && a[i] == b[h]
    ensures multiset(a + b)[a[i]] >= 2
  {
    assert a[i] in multiset(a) && b[h] in multiset(b);
  }

  /** Siblings in different trees of a row are the roots of these trees: else their parent would stand in both. */
  lemma SiblingsAcross(par: seq<int>, ks: seq<nat>, level: nat, top: nat, j: nat, k: nat)
    requires ParentSeq(par) && Bounds(par, top) && AllAt(par, ks, level) && Ascending(ks) && ks != []
    requires AllAt(par, ks[..|ks| - 1], level) && ks[|ks| - 1] < |par| && DepthIs(par, ks[|ks| - 1], level)
    requires var a := Subtrees(par, ks[..|ks| - 1], level, top); var b := Subtree(par, ks[|ks| - 1], level, top);
      j < |a| && k < |b| && Siblings(par, a[j], b[k])
    ensures Subtrees(par, ks[..|ks| - 1], level, top)[j].node < Subtree(par, ks[|ks| - 1], level, top)[k].node
  {
    var last := |ks| - 1;
    var a, b := Subtrees(par, ks[..last], level, top), Subtree(par, ks[last], level, top);
    var vs := Subtrees(par, ks, level, top);
    assert vs == a + b;
    SubtreesDepths(par, ks, level, top);
    assert a[j] == vs[j] && b[k] == vs[|a| + k];
    SiblingDepths(par, a[j].node, a[j].level, b[k].node, b[k].level);
    SubtreesNested(par, ks[..last], level, top);
    SubtreeNested(par, ks[last], level, top);
    assert NestedAt(par, a, ks[..last], level, j) && NestedAt(par, b, [ks[last]], level, k);
    if a[j].level > level {
      var i: nat :| Above(par, a, i, j);
      var h: nat :| Above(par, b, h, k);
      CountedTwice(a, b, i, h);
      SubtreesCount(par, ks, level, top, a[i]);
    } else {
      var r :| 0 <= r < last && ks[r] == a[j].node;
    }
  }

  /** The whole output. */
  lemma ForestOrder(par: seq<int>, top: nat)
    requires ParentSeq(par) && Bounds(par, top)
    ensures Nested(par, Forest(par, top), Kids(par, -1, |par|), 0)
    ensures InOrder(par, Forest(par, top)) && DepthsRight(par, Forest(par, top))
  {
    var roots := Kids(par, -1, |par|);
    RootsAtZero(par, |par|);
    KidsExact(par, -1, |par|);
    SubtreesNested(par, roots, 0, top);
    SubtreesInOrder(par, roots, 0, top);
    SubtreesDepths(par, roots, 0, top);
  }
}
