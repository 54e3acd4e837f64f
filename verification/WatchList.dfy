/**
  The recursive directory watcher of HW12/19_1.c: a linked list of watches with
  root and tail pointers, driven by a buffer of variable-length events.
 */
module WatchList {

  import opened Wrappers

  datatype Watch = Watch(wd: nat, path: string)

  // ---------- the list as a value ----------

  /** Position of the first watch with this descriptor, |ws| if there is none. */
  function Find(ws: seq<Watch>, wd: nat): (i: nat)
    ensures i <= |ws|
    ensures i < |ws| ==> ws[i].wd == wd
    ensures forall k :: 0 <= k < i ==> ws[k].wd != wd
  {
    if ws == [] || ws[0].wd == wd then 0 else 1 + Find(ws[1..], wd)
  }

  /** Without the first watch that has this descriptor. */
  function Removed(ws: seq<Watch>, wd: nat): seq<Watch> {
    if ws == [] then [] else if ws[0].wd == wd then ws[1..] else [ws[0]] + Removed(ws[1..], wd)
  }

  lemma {:induction false} RemovedAtFind(ws: seq<Watch>, wd: nat)
    requires Find(ws, wd) < |ws|
    ensures Removed(ws, wd) == ws[..Find(ws, wd)] + ws[Find(ws, wd) + 1..]
  {
    if ws[0].wd != wd {
      var t, i := ws[1..], Find(ws[1..], wd);
      RemovedAtFind(t, wd);
      CutCons(ws, i);
    }
  }

  lemma CutCons(ws: seq<Watch>, i: nat)
    requires i + 1 < |ws|
    ensures [ws[0]] + (ws[1..][..i] + ws[1..][i + 1..]) == ws[..i + 1] + ws[i + 2..]
  {
  }

  function PathOf(ws: seq<Watch>, wd: nat): Option<string> {
    var i := Find(ws, wd);
    if i < |ws| then Some(ws[i].path) else None
  }

  lemma FindIs(ws: seq<Watch>, wd: nat, i: nat)
    requires i <= |ws| && (i < |ws| ==> ws[i].wd == wd)
    requires forall k :: 0 <= k < i ==> ws[k].wd != wd
    ensures Find(ws, wd) == i
  {
  }

  // ---------- the list in memory ----------

  class Item {
    const wd: nat
    const path: string
    var next: Item?

    constructor (wd: nat, path: string)
      ensures this.wd == wd && this.path == path && next == null
    {
      this.wd, this.path, next := wd, path, null;
    }
  }

  class List {
    var root: Item?
    var tail: Item?
    ghost var items: seq<Item>

    ghost function At(i: int): Item?
      reads this
    {
      if 0 <= i < |items| then items[i] else null
    }

    ghost function Nodes(): set<object>
      reads this
    {
      set n <- items
    }

    /** root, the next links and tail describe one sequence in which no node occurs twice. */
    ghost predicate Valid()
      reads this, Nodes()
    {
      && root == At(0) && tail == At(|items| - 1)
      && (forall i {:trigger items[i].next} :: 0 <= i < |items| ==> items[i].next == At(i + 1))
      && (forall i, j :: 0 <= i < j < |items| ==> items[i] != items[j])
    }

    ghost function Watches(): (ws: seq<Watch>)
      reads this
      ensures |ws| == |items|
      ensures forall i :: 0 <= i < |items| ==> ws[i] == Watch(items[i].wd, items[i].path)
    {
      var ns := items;
      seq(|ns|, i requires 0 <= i < |ns| => Watch(ns[i].wd, ns[i].path))
    }

    constructor ()
      ensures Valid() && items == []
    {
      root, tail, items := null, null, [];
    }

    /** `wd` is what inotify_add_watch returned for the path. */
    method WatchSubdir(wd: nat, path: string)
      requires Valid()
      modifies this, Nodes()
      ensures Valid() && Watches() == old(Watches()) + [Watch(wd, path)]
      ensures fresh(Nodes() - old(Nodes()))
    {
      var item := new Item(wd, path);
      if root == null {
        assert items == [];
        root, tail := item, item;
      } else {
        tail.next := item;
        tail := item;
      }
      items := items + [item];
    }

    method ParentPath(wd: nat) returns (path: Option<string>)
      requires Valid()
      ensures path == PathOf(Watches(), wd)
    {
      var cur := root;
      ghost var i := 0;
      while cur != null
        invariant 0 <= i <= |items| && cur == At(i)
        invariant forall k :: 0 <= k < i ==> Watches()[k].wd != wd
        decreases |items| - i
      {
        if cur.wd == wd {
          FindIs(Watches(), wd, i);
          return Some(cur.path);
        }
        cur := cur.next;
        i := i + 1;
      }
      assert i == |items|;
      FindIs(Watches(), wd, i);
      path := None;
    }

    /**
      The descriptor must be in the list: the walk looks at the next node
      without checking that there is one.
     */
    method RmWatchSubdir(wd: nat)
      requires Valid() && Find(Watches(), wd) < |Watches()|
      modifies this, Nodes()
      ensures Valid() && Watches() == Removed(old(Watches()), wd)
      ensures Nodes() <= old(Nodes())
    {
      ghost var ws := Watches();
      var cur := root;
      assert cur == items[0] && ws[0].wd == cur.wd;
      if cur.wd == wd {
        UnlinkRoot();
        return;
      }
      ghost var i;
      cur, i := NodeBefore(wd);
      Unlink(cur, i);
      RemovedAtFind(ws, wd);
    }

    /** The walk that stops in front of the node to be removed. */
    method NodeBefore(wd: nat) returns (cur: Item, ghost i: nat)
      requires Valid() && 0 < Find(Watches(), wd) < |Watches()|
      ensures i + 1 == Find(Watches(), wd) && cur == items[i]
    {
      ghost var target := Find(Watches(), wd);
      assert Watches()[target].wd == wd && forall k :: 0 <= k < target ==> items[k].wd == Watches()[k].wd != wd;
      cur, i := root, 0;
      while cur.next.wd != wd
        invariant 0 <= i < target && cur == items[i]
        decreases target - i
      {
        cur := cur.next;
        i := i + 1;
      }
    }

    /** Take the first node out of the list. */
    method UnlinkRoot()
      requires Valid() && items != []
      modifies this
      ensures Valid() && Watches() == old(Watches())[1..] && Nodes() <= old(Nodes())
    {
      if root == tail {
        assert |items| == 1;
        root, tail := null, null;
      } else {
        root := root.next;
      }
      items := items[1..];
    }

    /** Take the node behind `cur` out of the list. */
    method Unlink(cur: Item, ghost i: nat)
      requires Valid() && i + 1 < |items| && cur == items[i]
      modifies this, cur
      ensures Valid() && Watches() == old(Watches())[..i + 1] + old(Watches())[i + 2..] && Nodes() <= old(Nodes())
    {
      if cur.next == tail {
        assert i + 2 == |items|;
        tail := cur;
        cur.next := null;
      } else {
        cur.next := cur.next.next;
      }
      items := items[..i + 1] + items[i + 2..];
    }
  }

  // ---------- events ----------

  const IN_CREATE: bv32 := 0x100
  const IN_IGNORED: bv32 := 0x8000
  const IN_ISDIR: bv32 := 0x4000_0000

  /** Size of the fixed part of an event: four 32-bit fields. */
  const HEADER := 16

  /** `name` is the whole name field, with the zero bytes behind the name. */
  datatype Event = Event(wd: nat, mask: bv32, cookie: nat, name: string)

  predicate Ignored(mask: bv32) {
    mask & IN_IGNORED != 0
  }

  predicate NewDirectory(mask: bv32) {
    mask & IN_ISDIR != 0 && mask & IN_CREATE != 0
  }

  /** The C string in a name field. */
  function NameOf(field: string): string {
    if field == "" || field[0] == '\0' then "" else [field[0]] + NameOf(field[1..])
  }

  function Under(prefix: Option<string>, name: string): string {
    (if prefix.Some? then prefix.value else "(null)") + "/" + name
  }

  /** What an event does to the list; nothing if its descriptor is unknown, in which case the program ends. */
  function Handled(ws: seq<Watch>, e: Event, newWd: nat): Option<seq<Watch>> {
    if PathOf(ws, e.wd).None? then None
    else
      var left := if Ignored(e.mask) then Removed(ws, e.wd) else ws;
      if NewDirectory(e.mask)
      then Some(left + [Watch(newWd, Under(PathOf(left, e.wd), NameOf(e.name)))])
      else Some(left)
  }

  // ---------- what an event does, by the bits of its mask and the bytes of its name ----------

  /** The field holds this C string: the name up to the first zero byte, or all of it. */
  predicate HoldsName(field: string, name: string) {
    && |name| <= |field| && field[..|name|] == name && '\0' !in name
    && (|name| < |field| ==> field[|name|] == '\0')
  }

  lemma {:induction false} NameOfHolds(field: string)
    ensures HoldsName(field, NameOf(field))
  {
    if field != "" && field[0] != '\0' {
      var rest := NameOf(field[1..]);
      NameOfHolds(field[1..]);
      assert field[..|rest| + 1] == [field[0]] + field[1..][..|rest|];
    }
  }

  lemma NotLonger(field: string, a: string, b: string)
    requires HoldsName(field, a) && HoldsName(field, b)
    ensures |b| <= |a|
  {
    assert forall k :: 0 <= k < |b| ==> field[k] == b[k] && b[k] in b;
  }

  lemma OneName(field: string, a: string, b: string)
    requires HoldsName(field, a) && HoldsName(field, b)
    ensures a == b
  {
    NotLonger(field, a, b);
    NotLonger(field, b, a);
  }

  /** With IN_IGNORED set the first watch of the event's descriptor goes; all others stay in their order. */
  ghost predicate RemovesIfIgnored(ws: seq<Watch>, e: Event, left: seq<Watch>) {
    if e.mask & 0x8000 != 0 then
      exists i :: 0 <= i < |ws| && ws[i].wd == e.wd && (forall k :: 0 <= k < i ==> ws[k].wd != e.wd)
        && left == ws[..i] + ws[i + 1..]
    else left == ws
  }

  /** The path of the first watch that has the descriptor. */
  ghost predicate IsPath(ws: seq<Watch>, wd: nat, path: string) {
    exists i :: 0 <= i < |ws| && ws[i] == Watch(wd, path) && forall k :: 0 <= k < i ==> ws[k].wd != wd
  }

  /**
    With both IN_ISDIR and IN_CREATE set one watch is added behind the others:
    the new descriptor, under the path of the parent and a slash and the name.
   */
  ghost predicate AddsIfNewDirectory(left: seq<Watch>, e: Event, newWd: nat, ws: seq<Watch>) {
    if e.mask & 0x4000_0100 == 0x4000_0100 then
      && |ws| == |left| + 1 && ws[..|left|] == left && ws[|left|].wd == newWd
      && forall parent, name :: IsPath(left, e.wd, parent) && HoldsName(e.name, name) ==>
           ws[|left|].path == parent + "/" + name
    else ws == left
  }

  ghost predicate EventDoes(ws: seq<Watch>, e: Event, newWd: nat, ws': seq<Watch>) {
    exists left :: RemovesIfIgnored(ws, e, left) && AddsIfNewDirectory(left, e, newWd, ws')
  }

  lemma PathIs(ws: seq<Watch>, wd: nat, path: string)
    ensures IsPath(ws, wd, path) <==> PathOf(ws, wd) == Some(path)
  {
    var f := Find(ws, wd);
    if i :| 0 <= i < |ws| && ws[i] == Watch(wd, path) && forall k :: 0 <= k < i ==> ws[k].wd != wd {
      FindIs(ws, wd, i);
    }
    if f < |ws| && ws[f].path == path {
      assert ws[f] == Watch(wd, path);
    }
  }

  lemma NewPath(left: seq<Watch>, e: Event, parent: string, name: string)
    requires IsPath(left, e.wd, parent) && HoldsName(e.name, name)
    ensures Under(PathOf(left, e.wd), NameOf(e.name)) == parent + "/" + name
  {
    PathIs(left, e.wd, parent);
    NameOfHolds(e.name);
    OneName(e.name, NameOf(e.name), name);
  }

  /** The effect of an event, and that the program goes on exactly if some watch has the event's descriptor. */
  lemma HandledDoes(ws: seq<Watch>, e: Event, newWd: nat)
    ensures Handled(ws, e, newWd).Some? <==> exists i :: 0 <= i < |ws| && ws[i].wd == e.wd
    ensures Handled(ws, e, newWd).Some? ==> EventDoes(ws, e, newWd, Handled(ws, e, newWd).value)
  {
    var i := Find(ws, e.wd);
    if i < |ws| {
      RemovedAtFind(ws, e.wd);
      var left := if Ignored(e.mask) then Removed(ws, e.wd) else ws;
      assert RemovesIfIgnored(ws, e, left);
      var ws' := Handled(ws, e, newWd).value;
      if NewDirectory(e.mask) {
        forall parent, name | IsPath(left, e.wd, parent) && HoldsName(e.name, name)
          ensures ws'[|left|].path == parent + "/" + name
        {
          NewPath(left, e, parent, name);
        }
      }
      assert AddsIfNewDirectory(left, e, newWd, ws');
    }
  }

  /** `newWds[i]` is the descriptor that the kernel would return for a watch added by event i. */
  function HandledAll(ws: seq<Watch>, es: seq<Event>, newWds: seq<nat>): Option<seq<Watch>>
    requires |newWds| == |es|
    decreases |es|
  {
    if es == [] then Some(ws)
    else
      match Handled(ws, es[0], newWds[0])
      case None => None
      case Some(ws') => HandledAll(ws', es[1..], newWds[1..])
  }

  /** A run of events that the program survives is a chain of such effects. */
  lemma {:induction false} RunDoes(ws: seq<Watch>, es: seq<Event>, newWds: seq<nat>) returns (states: seq<seq<Watch>>)
    requires |newWds| == |es| && HandledAll(ws, es, newWds).Some?
    ensures |states| == |es| + 1 && states[0] == ws && HandledAll(ws, es, newWds) == Some(states[|es|])
    ensures forall i :: 0 <= i < |es| ==> EventDoes(states[i], es[i], newWds[i], states[i + 1])
    decreases |es|
  {
    states := [ws];
    if es != [] {
      HandledDoes(ws, es[0], newWds[0]);
      var ws' := Handled(ws, es[0], newWds[0]).value;
      var rest := RunDoes(ws', es[1..], newWds[1..]);
      states := [ws] + rest;
      forall i | 0 <= i < |es| ensures EventDoes(states[i], es[i], newWds[i], states[i + 1]) {
        if i > 0 {
          assert EventDoes(rest[i - 1], es[1..][i - 1], newWds[1..][i - 1], rest[i - 1 + 1]);
        }
      }
    }
  }

  /** The check of the parent path comes first, so the removal always finds its node. */
  method DisplayLogEvent(list: List, e: Event, newWd: nat) returns (ok: bool)
    requires list.Valid()
    modifies list, list.Nodes()
    ensures list.Valid() && fresh(list.Nodes() - old(list.Nodes()))
    ensures ok <==> Handled(old(list.Watches()), e, newWd).Some?
    ensures list.Watches() == if ok then Handled(old(list.Watches()), e, newWd).value else old(list.Watches())
    ensures ok ==> EventDoes(old(list.Watches()), e, newWd, list.Watches())
  {
    ghost var ws := list.Watches();
    var prefix := list.ParentPath(e.wd);
    if prefix.None? {
      return false;
    }
    UpdateWatches(list, e, newWd);
    HandledDoes(ws, e, newWd);
    ok := true;
  }

  /** The parts of the function that change the list. */
  method UpdateWatches(list: List, e: Event, newWd: nat)
    requires list.Valid() && PathOf(list.Watches(), e.wd).Some?
    modifies list, list.Nodes()
    ensures list.Valid() && fresh(list.Nodes() - old(list.Nodes()))
    ensures Handled(old(list.Watches()), e, newWd) == Some(list.Watches())
  {
    if Ignored(e.mask) {
      list.RmWatchSubdir(e.wd);
    }
    if NewDirectory(e.mask) {
      WatchNewDirectory(list, e, newWd);
    }
  }

  /** A subdirectory was made: watch it under the path of its parent. */
  method WatchNewDirectory(list: List, e: Event, newWd: nat)
    requires list.Valid()
    modifies list, list.Nodes()
    ensures list.Valid() && fresh(list.Nodes() - old(list.Nodes()))
    ensures var ws := old(list.Watches());
      list.Watches() == ws + [Watch(newWd, Under(PathOf(ws, e.wd), NameOf(e.name)))]
  {
    var prefix := list.ParentPath(e.wd);
    list.WatchSubdir(newWd, Under(prefix, NameOf(e.name)));
  }

  // ---------- the event buffer ----------

  const WORD_LIMIT := 0x1_0000_0000

  predicate Encodable(e: Event) {
    e.wd < WORD_LIMIT && e.cookie < WORD_LIMIT && |e.name| < WORD_LIMIT
  }

  predicate AllEncodable(es: seq<Event>) {
    forall i :: 0 <= i < |es| ==> Encodable(es[i])
  }

  /** A 32-bit field, least significant byte first. */
  function Word(x: nat): (b: string)
    requires x < WORD_LIMIT
    ensures |b| == 4
  {
    [(x % 0x100) as char, (x / 0x100 % 0x100) as char, (x / 0x1_0000 % 0x100) as char, (x / 0x100_0000) as char]
  }

  function WordAt(b: string, p: nat): nat
    requires p + 4 <= |b|
  {
    b[p] as nat + 0x100 * (b[p + 1] as nat) + 0x1_0000 * (b[p + 2] as nat) + 0x100_0000 * (b[p + 3] as nat)
  }

  /** A mask as a 32-bit field, and back. */
  function MaskWord(mask: bv32): (b: string)
    ensures |b| == 4
  {
    MaskBelow(mask);
    Word(mask as nat)
  }

  function MaskOf(x: nat): bv32 {
    (x % WORD_LIMIT) as bv32
  }

  lemma MaskBelow(mask: bv32)
    ensures mask as nat < WORD_LIMIT
    ensures MaskOf(mask as nat) == mask
  {
    CastBack(mask);
  }

  lemma CastBack(mask: bv32)
    ensures mask as nat < 0x1_0000_0000 && (mask as nat) as bv32 == mask
  {
  }

  function Encode(e: Event): (b: string)
    requires Encodable(e)
    ensures |b| == HEADER + |e.name|
  {
    Word(e.wd) + MaskWord(e.mask) + Word(e.cookie) + Word(|e.name|) + e.name
  }

  function EncodeAll(es: seq<Event>): (b: string)
    requires AllEncodable(es)
    ensures |b| >= HEADER * |es|
  {
    if es == [] then "" else Encode(es[0]) + EncodeAll(es[1..])
  }

  lemma WordRoundTrip(x: nat)
    requires x < WORD_LIMIT
    ensures WordAt(Word(x), 0) == x
  {
    var y := x / 0x100;
    var z := y / 0x100;
    assert x / 0x1_0000 == z && x / 0x100_0000 == z / 0x100;
    assert x == 0x100 * y + x % 0x100 && y == 0x100 * z + y % 0x100 && z == 0x100 * (z / 0x100) + z % 0x100;
  }

  lemma WordInside(a: string, x: nat, b: string)
    requires x < WORD_LIMIT
    ensures WordAt(a + Word(x) + b, |a|) == x
  {
    WordRoundTrip(x);
  }

  /** The event at position p, as the cast and the pointer arithmetic see it. */
  function DecodeAt(b: string, p: nat): Event
    requires p + HEADER <= |b| && p + HEADER + WordAt(b, p + 12) <= |b|
  {
    var start := p + HEADER;
    Event(WordAt(b, p), MaskOf(WordAt(b, p + 4)), WordAt(b, p + 8), b[start..start + WordAt(b, p + 12)])
  }

  lemma MaskNumber(mask: bv32) returns (x: nat)
    ensures x < WORD_LIMIT && MaskOf(x) == mask && MaskWord(mask) == Word(x)
  {
    MaskBelow(mask);
    x := mask as nat;
  }

  lemma FieldsApart(a: string, w: string, m: string, c: string, l: string, n: string, b: string)
    ensures var s := a + (w + m + c + l + n) + b;
      && s == a + w + (m + c + l + n + b)
      && s == (a + w) + m + (c + l + n + b)
      && s == (a + w + m) + c + (l + n + b)
      && s == (a + w + m + c) + l + (n + b)
      && s[|a| + |w| + |m| + |c| + |l|..][..|n|] == n
  {
  }

  lemma FieldsOfEncode(a: string, e: Event, x: nat, b: string)
    requires Encodable(e) && x < WORD_LIMIT && MaskWord(e.mask) == Word(x)
    ensures var s := a + Encode(e) + b;
      && |a| + HEADER + |e.name| <= |s|
      && WordAt(s, |a|) == e.wd && WordAt(s, |a| + 4) == x
      && WordAt(s, |a| + 8) == e.cookie && WordAt(s, |a| + 12) == |e.name|
      && s[|a| + HEADER..|a| + HEADER + |e.name|] == e.name
  {
    var s := a + Encode(e) + b;
    var w, m, c, l := Word(e.wd), Word(x), Word(e.cookie), Word(|e.name|);
    FieldsApart(a, w, m, c, l, e.name, b);
    WordInside(a, e.wd, m + c + l + e.name + b);
    WordInside(a + w, x, c + l + e.name + b);
    WordInside(a + w + m, e.cookie, l + e.name + b);
    WordInside(a + w + m + c, |e.name|, e.name + b);
  }

  lemma DecodeOfEncode(a: string, e: Event, b: string)
    requires Encodable(e)
    ensures var s := a + Encode(e) + b;
      && WordAt(s, |a| + 12) == |e.name|
      && |a| + HEADER + |e.name| <= |s|
      && DecodeAt(s, |a|) == e
  {
    var x := MaskNumber(e.mask);
    FieldsOfEncode(a, e, x, b);
    DecodeIs(a + Encode(e) + b, |a|, e, x);
  }

  lemma DecodeIs(s: string, p: nat, e: Event, x: nat)
    requires MaskOf(x) == e.mask && p + HEADER + |e.name| <= |s|
    requires WordAt(s, p) == e.wd && WordAt(s, p + 4) == x
    requires WordAt(s, p + 8) == e.cookie && WordAt(s, p + 12) == |e.name|
    requires s[p + HEADER..p + HEADER + |e.name|] == e.name
    ensures DecodeAt(s, p) == e
  {
  }

  /** The first i events take up `p` bytes and turn `start` into `ws`. */
  ghost predicate Reached(start: seq<Watch>, es: seq<Event>, newWds: seq<nat>, i: nat, ws: seq<Watch>, p: nat) {
    && AllEncodable(es) && |newWds| == |es| && i <= |es| && p == |EncodeAll(es[..i])|
    && HandledAll(start, es[..i], newWds[..i]) == Some(ws)
  }

  /** The first n bytes of the buffer are the events. */
  ghost predicate Encodes(buf: string, n: nat, es: seq<Event>) {
    AllEncodable(es) && n <= |buf| && buf[..n] == EncodeAll(es)
  }

  /** The loop came as far as event i, whose descriptor is unknown. */
  ghost predicate Stopped(start: seq<Watch>, es: seq<Event>, newWds: seq<nat>, i: nat, ws: seq<Watch>, p: nat) {
    Reached(start, es, newWds, i, ws, p) && i < |es| && PathOf(ws, es[i].wd).None?
  }

  /**
    The decoding loop visits every event of the buffer once and in order, and
    stops exactly behind the last one, or at the first one whose descriptor is
    unknown, with the events before it handled.
   */
  method ProcessBuffer(list: List, buf: string, readNum: nat, newWds: seq<nat>, ghost es: seq<Event>)
    returns (ok: bool, stop: nat)
    requires list.Valid() && readNum <= |buf| && |newWds| == |es|
    requires AllEncodable(es) && buf[..readNum] == EncodeAll(es)
    modifies list, list.Nodes()
    ensures list.Valid()
    ensures ok <==> HandledAll(old(list.Watches()), es, newWds).Some?
    ensures ok ==> stop == readNum && HandledAll(old(list.Watches()), es, newWds) == Some(list.Watches())
    ensures !ok ==> exists i :: Stopped(old(list.Watches()), es, newWds, i, list.Watches(), stop)
  {
    ghost var start, ws := list.Watches(), list.Watches();
    var p, i := 0, 0;
    while p < readNum
      invariant list.Valid() && fresh(list.Nodes() - old(list.Nodes())) && ws == list.Watches()
      invariant p <= readNum && Reached(start, es, newWds, i, ws, p)
      decreases readNum - p
    {
      NextEvent(buf, p, readNum, es, newWds, i, ws, start);
      ok, p := ProcessEvent(list, buf, p, newWds[i]);
      if !ok {
        return false, p;
      }
      i, ws := i + 1, list.Watches();
    }
    AtEnd(buf, readNum, es, newWds, i, ws, start);
    ok, stop := true, p;
  }

  /** The body of the loop: handle the event at p and step over it, or stop there. */
  method ProcessEvent(list: List, buf: string, p: nat, newWd: nat) returns (ok: bool, p': nat)
    requires list.Valid() && p + HEADER <= |buf| && p + HEADER + WordAt(buf, p + 12) <= |buf|
    modifies list, list.Nodes()
    ensures list.Valid() && fresh(list.Nodes() - old(list.Nodes()))
    ensures ok <==> Handled(old(list.Watches()), DecodeAt(buf, p), newWd).Some?
    ensures ok ==> Handled(old(list.Watches()), DecodeAt(buf, p), newWd) == Some(list.Watches())
    ensures ok ==> p' == p + HEADER + |DecodeAt(buf, p).name|
    ensures !ok ==> list.Watches() == old(list.Watches()) && p' == p
  {
    var e := DecodeAt(buf, p);
    ok := DisplayLogEvent(list, e, newWd);
    p' := if ok then p + HEADER + |e.name| else p;
  }

  lemma AtEnd(buf: string, n: nat, es: seq<Event>, newWds: seq<nat>, i: nat, ws: seq<Watch>, start: seq<Watch>)
    requires Encodes(buf, n, es) && Reached(start, es, newWds, i, ws, n)
    ensures HandledAll(start, es, newWds) == Some(ws)
  {
    assert es[..i] + es[i..] == es;
    EncodeConcat(es[..i], es[i..]);
    assert |es[i..]| == 0;
    assert es[..i] == es && newWds[..i] == newWds;
  }

  /** What the event at p, once decoded, leads to. */
  lemma NextEvent(buf: string, p: nat, n: nat, es: seq<Event>, newWds: seq<nat>, i: nat,
                  ws: seq<Watch>, start: seq<Watch>)
    requires Encodes(buf, n, es) && Reached(start, es, newWds, i, ws, p) && p < n
    ensures i < |es| && p + HEADER <= |buf| && p + HEADER + WordAt(buf, p + 12) <= |buf|
    ensures var r, p' := Handled(ws, DecodeAt(buf, p), newWds[i]), p + HEADER + |DecodeAt(buf, p).name|;
      if r.None? then HandledAll(start, es, newWds) == None && Stopped(start, es, newWds, i, ws, p)
      else p' <= n && Reached(start, es, newWds, i + 1, r.value, p')
  {
    assert es[..i] + es[i..] == es && newWds[..i] + newWds[i..] == newWds;
    EncodeConcat(es[..i], es[i..]);
    assert buf[p..n] == buf[..n][p..] == EncodeAll(es[i..]);
    EventAt(buf, p, n, es, i);
    ReachNext(start, es, newWds, i, ws, p);
    HandledConcat(start, es[..i], newWds[..i], es[i..], newWds[i..]);
    assert es[i..][0] == es[i] && newWds[i..][0] == newWds[i];
  }

  lemma ReachNext(start: seq<Watch>, es: seq<Event>, newWds: seq<nat>, i: nat, ws: seq<Watch>, p: nat)
    requires Reached(start, es, newWds, i, ws, p) && i < |es|
    ensures var r := Handled(ws, es[i], newWds[i]);
      if r.None? then Stopped(start, es, newWds, i, ws, p)
      else Reached(start, es, newWds, i + 1, r.value, p + HEADER + |es[i].name|)
  {
    assert es[..i + 1] == es[..i] + [es[i]] && newWds[..i + 1] == newWds[..i] + [newWds[i]];
    assert |Encode(es[i])| == HEADER + |es[i].name|;
    HandledConcat(start, es[..i], newWds[..i], [es[i]], [newWds[i]]);
    EncodeConcat(es[..i], [es[i]]);
    assert EncodeAll([es[i]]) == Encode(es[i]) + "";
  }

  lemma {:induction false} HandledConcat(ws: seq<Watch>, es: seq<Event>, newWds: seq<nat>,
                                         es': seq<Event>, newWds': seq<nat>)
    requires |newWds| == |es| && |newWds'| == |es'|
    ensures var r := HandledAll(ws, es, newWds);
      HandledAll(ws, es + es', newWds + newWds') == if r.None? then None else HandledAll(r.value, es', newWds')
    decreases |es|
  {
    if es == [] {
      assert es + es' == es' && newWds + newWds' == newWds';
    } else {
      assert (es + es')[1..] == es[1..] + es' && (newWds + newWds')[1..] == newWds[1..] + newWds';
      var r := Handled(ws, es[0], newWds[0]);
      if r.Some? { HandledConcat(r.value, es[1..], newWds[1..], es', newWds'); }
    }
  }

  lemma {:induction false} EncodeConcat(es: seq<Event>, es': seq<Event>)
    requires AllEncodable(es) && AllEncodable(es')
    ensures AllEncodable(es + es') && EncodeAll(es + es') == EncodeAll(es) + EncodeAll(es')
    decreases |es|
  {
    if es == [] {
      assert es + es' == es';
    } else {
      assert (es + es')[1..] == es[1..] + es';
      EncodeConcat(es[1..], es');
      Regroup(Encode(es[0]), EncodeAll(es[1..]), EncodeAll(es'));
    }
  }

  lemma Regroup(a: string, b: string, c: string)
    ensures a + (b + c) == (a + b) + c
  {
  }

  lemma EventAt(buf: string, p: nat, n: nat, es: seq<Event>, i: nat)
    requires p < n <= |buf| && AllEncodable(es) && i <= |es| && buf[p..n] == EncodeAll(es[i..])
    ensures i < |es| && p + HEADER <= |buf| && p + HEADER + WordAt(buf, p + 12) <= |buf|
    ensures DecodeAt(buf, p) == es[i]
    ensures p + HEADER + |es[i].name| <= n
    ensures buf[p + HEADER + |es[i].name|..n] == EncodeAll(es[i + 1..])
  {
    var e, rest := es[i], EncodeAll(es[i + 1..]);
    assert es[i..][1..] == es[i + 1..] && es[i..][0] == e;
    Cut(buf, p, n, Encode(e), rest);
    DecodeOfEncode(buf[..p], e, rest + buf[n..]);
  }

  lemma Cut(buf: string, p: nat, n: nat, a: string, b: string)
    requires p <= n <= |buf| && buf[p..n] == a + b
    ensures buf == buf[..p] + a + (b + buf[n..])
    ensures p + |a| <= n && buf[p + |a|..n] == b
  {
    assert buf == buf[..p] + (a + b) + buf[n..];
    assert buf[p..n][|a|..] == b;
  }

  // ---------- the list as a map ----------

  ghost predicate Absent(ws: seq<Watch>, wd: nat) {
    Find(ws, wd) == |ws|
  }

  /** No descriptor is listed twice. */
  ghost predicate Distinct(ws: seq<Watch>) {
    ws == [] || (Absent(ws[1..], ws[0].wd) && Distinct(ws[1..]))
  }

  lemma {:induction false} DistinctMeans(ws: seq<Watch>)
    requires Distinct(ws)
    ensures forall i, j :: 0 <= i < j < |ws| ==> ws[i].wd != ws[j].wd
  {
    if ws != [] {
      DistinctMeans(ws[1..]);
      assert forall j :: 1 <= j < |ws| ==> ws[j] == ws[1..][j - 1];
    }
  }

  ghost function AsMap(ws: seq<Watch>): map<nat, string> {
    if ws == [] then map[] else AsMap(ws[1..])[ws[0].wd := ws[0].path]
  }

  /** The same event on a plain map from descriptors to paths. */
  ghost function HandledMap(m: map<nat, string>, e: Event, newWd: nat): Option<map<nat, string>> {
    if e.wd !in m then None
    else
      var left := if Ignored(e.mask) then m - {e.wd} else m;
      if NewDirectory(e.mask)
      then Some(left[newWd := Under(if e.wd in left then Some(left[e.wd]) else None, NameOf(e.name))])
      else Some(left)
  }

  /** The kernel gives a new watch a descriptor that no live watch has. */
  ghost predicate FreshWd(ws: seq<Watch>, e: Event, newWd: nat) {
    NewDirectory(e.mask) ==> Absent(if Ignored(e.mask) then Removed(ws, e.wd) else ws, newWd)
  }

  lemma {:induction false} LookupAgrees(ws: seq<Watch>, wd: nat)
    ensures PathOf(ws, wd) == if wd in AsMap(ws) then Some(AsMap(ws)[wd]) else None
  {
    if ws != [] && ws[0].wd != wd {
      LookupAgrees(ws[1..], wd);
    }
  }

  lemma {:induction false} AddAgrees(ws: seq<Watch>, w: Watch)
    requires Distinct(ws) && Absent(ws, w.wd)
    ensures Distinct(ws + [w]) && AsMap(ws + [w]) == AsMap(ws)[w.wd := w.path]
    ensures forall wd :: wd != w.wd && Absent(ws, wd) ==> Absent(ws + [w], wd)
  {
    if ws == [] {
      assert AsMap([w][1..]) == map[];
    } else {
      var t := ws[1..];
      AddAgrees(t, w);
      assert (ws + [w])[1..] == t + [w];
    }
  }

  /** Freshness is needed: any other descriptor puts a duplicate into the list. */
  lemma {:induction false} DistinctIffFresh(ws: seq<Watch>, w: Watch)
    requires Distinct(ws)
    ensures Distinct(ws + [w]) <==> Absent(ws, w.wd)
  {
    if Absent(ws, w.wd) {
      AddAgrees(ws, w);
    } else {
      var i := Find(ws, w.wd);
      assert (ws + [w])[i].wd == (ws + [w])[|ws|].wd;
      if Distinct(ws + [w]) {
        DistinctMeans(ws + [w]);
      }
    }
  }

  lemma {:induction false} RemoveKeepsAbsent(ws: seq<Watch>, wd: nat, x: nat)
    requires Absent(ws, x)
    ensures Absent(Removed(ws, wd), x)
  {
    if ws != [] {
      if ws[0].wd != wd {
        RemoveKeepsAbsent(ws[1..], wd, x);
        assert ([ws[0]] + Removed(ws[1..], wd))[1..] == Removed(ws[1..], wd);
      }
    }
  }

  lemma {:induction false} RemoveAgrees(ws: seq<Watch>, wd: nat)
    requires Distinct(ws)
    ensures Distinct(Removed(ws, wd)) && AsMap(Removed(ws, wd)) == AsMap(ws) - {wd}
  {
    if ws != [] {
      if ws[0].wd == wd {
        LookupAgrees(ws[1..], wd);
        assert wd !in AsMap(ws[1..]);
      } else {
        RemoveAgrees(ws[1..], wd);
        RemoveKeepsAbsent(ws[1..], wd, ws[0].wd);
        assert ([ws[0]] + Removed(ws[1..], wd))[1..] == Removed(ws[1..], wd);
      }
    }
  }

  /** One event with a fresh descriptor does the same to the list and to the map. */
  lemma EventAgrees(ws: seq<Watch>, e: Event, newWd: nat)
    requires Distinct(ws) && FreshWd(ws, e, newWd)
    ensures Handled(ws, e, newWd).Some? <==> HandledMap(AsMap(ws), e, newWd).Some?
    ensures Handled(ws, e, newWd).Some? ==> Distinct(Handled(ws, e, newWd).value)
    ensures Handled(ws, e, newWd).Some? ==>
      HandledMap(AsMap(ws), e, newWd) == Some(AsMap(Handled(ws, e, newWd).value))
  {
    LookupAgrees(ws, e.wd);
    RemoveAgrees(ws, e.wd);
    var left := if Ignored(e.mask) then Removed(ws, e.wd) else ws;
    LookupAgrees(left, e.wd);
    if NewDirectory(e.mask) {
      AddAgrees(left, Watch(newWd, Under(PathOf(left, e.wd), NameOf(e.name))));
    }
  }

  ghost predicate FreshRun(ws: seq<Watch>, es: seq<Event>, newWds: seq<nat>)
    requires |newWds| == |es|
    decreases |es|
  {
    es == [] || (FreshWd(ws, es[0], newWds[0]) &&
      match Handled(ws, es[0], newWds[0])
      case None => true
      case Some(ws') => FreshRun(ws', es[1..], newWds[1..]))
  }

  ghost function HandledMapAll(m: map<nat, string>, es: seq<Event>, newWds: seq<nat>): Option<map<nat, string>>
    requires |newWds| == |es|
    decreases |es|
  {
    if es == [] then Some(m)
    else
      match HandledMap(m, es[0], newWds[0])
      case None => None
      case Some(m') => HandledMapAll(m', es[1..], newWds[1..])
  }

  /** Over any run of events the list stays duplicate-free and agrees with the map. */
  lemma {:induction false} RunAgrees(ws: seq<Watch>, es: seq<Event>, newWds: seq<nat>)
    requires |newWds| == |es| && Distinct(ws) && FreshRun(ws, es, newWds)
    ensures HandledAll(ws, es, newWds).Some? <==> HandledMapAll(AsMap(ws), es, newWds).Some?
    ensures HandledAll(ws, es, newWds).Some? ==>
      Distinct(HandledAll(ws, es, newWds).value)
      && HandledMapAll(AsMap(ws), es, newWds) == Some(AsMap(HandledAll(ws, es, newWds).value))
    decreases |es|
  {
    if es != [] {
      EventAgrees(ws, es[0], newWds[0]);
      match Handled(ws, es[0], newWds[0]) {
        case None =>
        case Some(ws') => RunAgrees(ws', es[1..], newWds[1..]);
      }
    }
  }
}
