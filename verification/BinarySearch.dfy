/**
  The search of HW11/part1/lookup5.c in a sorted table of records.  The step
  `start = mid` does not shrink an interval of width one; a cap of 100 rounds
  ends the loop.
 */
module BinarySearch {

  datatype Record = Record(word: string, text: string)

  const CAP := 100
  const INT_LIMIT := 0x8000_0000

  // ---------- the order of words ----------

  /** The strings agree up to k, where a ends or has the smaller character. */
  predicate DiffersAt(a: string, b: string, k: nat) {
    && k <= |a| && k < |b| && a[..k] == b[..k]
    && (k == |a| || a[k] < b[k])
  }

  /** a stands before b in dictionary order. */
  ghost predicate Before(a: string, b: string) {
    exists k: nat :: DiffersAt(a, b, k)
  }

  lemma BeforeNext(a: string, b: string)
    requires a != "" && b != "" && a[0] == b[0]
    ensures Before(a, b) <==> Before(a[1..], b[1..])
  {
    if k: nat :| DiffersAt(a, b, k) {
      assert k > 0;
      assert a[..k][1..] == a[1..][..k - 1] && b[..k][1..] == b[1..][..k - 1];
      assert DiffersAt(a[1..], b[1..], k - 1);
    }
    if k: nat :| DiffersAt(a[1..], b[1..], k) {
      assert a[..k + 1] == [a[0]] + a[1..][..k] && b[..k + 1] == [b[0]] + b[1..][..k];
      assert DiffersAt(a, b, k + 1);
    }
  }

  lemma SameFirst(a: string, b: string, k: nat)
    requires 0 < k <= |a| && k <= |b| && a[..k] == b[..k]
    ensures a[0] == b[0]
  {
    assert a[0] == a[..k][0] && b[0] == b[..k][0];
  }

  /** Where the first characters decide. */
  lemma BeforeAtOnce(a: string, b: string)
    requires a == "" || b == "" || a[0] != b[0]
    ensures Before(a, b) <==> b != "" && (a == "" || a[0] < b[0])
  {
    if k: nat :| DiffersAt(a, b, k) {
      if k > 0 { SameFirst(a, b, k); }
    }
    if b != "" && (a == "" || a[0] < b[0]) {
      assert DiffersAt(a, b, 0);
    }
  }

  /** Negative, zero or positive, as the first string is smaller, equal or greater. */
  function Strcmp(a: string, b: string): int {
    if a == "" && b == "" then 0
    else if a == "" then -1
    else if b == "" then 1
    else if a[0] != b[0] then a[0] as int - b[0] as int
    else Strcmp(a[1..], b[1..])
  }

  /** The sign tells which string stands first in dictionary order. */
  lemma {:induction false} StrcmpIsOrder(a: string, b: string)
    ensures Strcmp(a, b) < 0 <==> Before(a, b)
    ensures Strcmp(a, b) > 0 <==> Before(b, a)
  {
    if a != "" && b != "" && a[0] == b[0] {
      BeforeNext(a, b);
      BeforeNext(b, a);
      StrcmpIsOrder(a[1..], b[1..]);
    } else {
      BeforeAtOnce(a, b);
      BeforeAtOnce(b, a);
    }
  }

  lemma {:induction false} StrcmpZero(a: string, b: string)
    ensures Strcmp(a, b) == 0 <==> a == b
  {
    if a != "" && b != "" && a[0] == b[0] {
      StrcmpZero(a[1..], b[1..]);
      assert a == [a[0]] + a[1..] && b == [b[0]] + b[1..];
    }
  }

  lemma {:induction false} StrcmpTransitive(a: string, b: string, c: string)
    requires Strcmp(a, b) <= 0
    ensures Strcmp(b, c) < 0 ==> Strcmp(a, c) < 0
    ensures Strcmp(a, c) > 0 ==> Strcmp(b, c) > 0
  {
    if a != "" && b != "" && c != "" && a[0] == b[0] && b[0] == c[0] {
      StrcmpTransitive(a[1..], b[1..], c[1..]);
    }
  }

  // ---------- the table ----------

  /** No word stands in front of one that comes before it in dictionary order. */
  ghost predicate Sorted(table: seq<Record>) {
    forall i, j :: 0 <= i < j < |table| ==> !Before(table[j].word, table[i].word)
  }

  /** Position of the first record with that word, |table| if there is none: what a linear scan finds. */
  function LinearScan(table: seq<Record>, word: string): (k: nat)
    ensures k <= |table| && (k < |table| ==> table[k].word == word)
    ensures forall i :: 0 <= i < k ==> table[i].word != word
  {
    if table == [] || table[0].word == word then 0 else 1 + LinearScan(table[1..], word)
  }

  /** In a sorted table the comparisons with a word are negative up to some point, positive from some point on. */
  lemma Monotone(table: seq<Record>, word: string, i: nat, j: nat)
    requires Sorted(table) && i <= j < |table|
    ensures Strcmp(table[j].word, word) < 0 ==> Strcmp(table[i].word, word) < 0
    ensures Strcmp(table[i].word, word) > 0 ==> Strcmp(table[j].word, word) > 0
  {
    if i < j {
      StrcmpIsOrder(table[i].word, table[j].word);
      StrcmpTransitive(table[i].word, table[j].word, word);
    }
  }

  // ---------- how fast the interval shrinks ----------

  function Pow2(k: nat): (p: nat)
    ensures p > 0
  {
    if k == 0 then 1 else 2 * Pow2(k - 1)
  }

  lemma {:induction false} Pow2Grows(j: nat, k: nat)
    requires j <= k
    ensures Pow2(j) <= Pow2(k)
  {
    if j < k {
      Pow2Grows(j, k - 1);
    }
  }

  /** After k rounds the width is at most one more than (n - 1) / 2^k. */
  ghost predicate Shrunk(width: int, n: nat, k: nat) {
    width <= 1 || (width - 1) * Pow2(k) < n
  }

  lemma ScaleMono(a: int, b: int, p: nat)
    requires a <= b
    ensures a * p <= b * p
  {
  }

  lemma Double(a: int, p: nat)
    ensures a * (2 * p) == (2 * a) * p
  {
  }

  lemma Halved(width: nat, width': nat, n: nat, k: nat)
    requires Shrunk(width, n, k) && width' <= (width + 1) / 2
    ensures Shrunk(width', n, k + 1)
  {
    if width' > 1 {
      var p := Pow2(k);
      Double(width' - 1, p);
      ScaleMono(2 * (width' - 1), width - 1, p);
    }
  }

  /** As long as the left end has not moved, the width is at most n / 2^k. */
  lemma HalvedFromLeft(end: nat, end': nat, n: nat, k: nat)
    requires end * Pow2(k) <= n && end' <= end / 2
    ensures end' * Pow2(k + 1) <= n
  {
    var p := Pow2(k);
    Double(end', p);
    ScaleMono(2 * end', end, p);
  }

  lemma AtMost30(n: nat, k: nat)
    requires Pow2(k) <= n < INT_LIMIT
    ensures k <= 30
  {
    assert Pow2(8) == 0x100 && Pow2(16) == 0x1_0000 && Pow2(24) == 0x100_0000;
    assert Pow2(31) == INT_LIMIT;
    if k > 30 { Pow2Grows(31, k); }
  }

  /** A probe that is to find something comes after at most 30 rounds. */
  lemma FoundWithin30(start: int, end: int, n: nat, k: nat)
    requires 0 <= start < end && n < INT_LIMIT && Shrunk(end - start, n, k)
    requires end * Pow2(k) <= n || end - start >= 2
    ensures k <= 30
  {
    var w := if end * Pow2(k) <= n then end else end - start - 1;
    AtLeast(w, Pow2(k));
    AtMost30(n, k);
  }

  lemma WidthOneAfter31(width: int, n: nat, k: nat)
    requires Shrunk(width, n, k) && n < INT_LIMIT && k >= 31
    ensures width <= 1
  {
    assert Pow2(8) == 0x100 && Pow2(16) == 0x1_0000 && Pow2(24) == 0x100_0000;
    assert Pow2(31) == INT_LIMIT;
    Pow2Grows(31, k);
    AtLeast(width - 1, Pow2(k));
  }

  lemma AtLeast(w: int, p: nat)
    ensures w >= 1 ==> w * p >= p
  {
  }

  // ---------- lookup ----------

  /** Nothing equal to the word is left outside the interval. */
  ghost predicate Narrowed(table: seq<Record>, word: string, start: int, end: int) {
    && 0 <= start <= end <= |table|
    && (forall i :: 0 <= i < start ==> Strcmp(table[i].word, word) < 0)
    && (forall i :: end <= i < |table| ==> Strcmp(table[i].word, word) > 0)
  }

  /** The left end has not moved, or stands at a smaller word. */
  ghost predicate LeftEnd(table: seq<Record>, word: string, start: int, end: int, cnt: nat) {
    || (start == 0 && end * Pow2(cnt) <= |table|)
    || (0 <= start < end <= |table| && Strcmp(table[start].word, word) < 0)
  }

  /** What holds at the top of the loop as long as nothing was found. */
  ghost predicate Searching(table: seq<Record>, word: string, start: int, end: int, cnt: nat) {
    && Narrowed(table, word, start, end) && cnt <= CAP
    && Shrunk(end - start, |table|, cnt) && LeftEnd(table, word, start, end, cnt)
    && (start == end ==> cnt <= 32)
    && (cnt > 31 && start < end ==> end == start + 1 && Strcmp(table[start].word, word) < 0)
  }

  lemma WentRight(table: seq<Record>, word: string, start: int, mid: int, end: int, cnt: nat)
    requires Sorted(table) && |table| < INT_LIMIT && Searching(table, word, start, end, cnt) && cnt < CAP
    requires start < end && mid == (end - start) / 2 + start && Strcmp(table[mid].word, word) < 0
    ensures Searching(table, word, mid, end, cnt + 1)
  {
    SmallerBefore(table, word, mid);
    Halved(end - start, end - mid, |table|, cnt);
    if cnt >= 31 { WidthOneAfter31(end - start, |table|, cnt); }
  }

  lemma WentLeft(table: seq<Record>, word: string, start: int, mid: int, end: int, cnt: nat)
    requires Sorted(table) && |table| < INT_LIMIT && Searching(table, word, start, end, cnt) && cnt < CAP
    requires start < end && mid == (end - start) / 2 + start && Strcmp(table[mid].word, word) > 0
    ensures Searching(table, word, start, mid, cnt + 1)
  {
    GreaterBehind(table, word, mid);
    Halved(end - start, mid - start, |table|, cnt);
    if cnt >= 31 { WidthOneAfter31(end - start, |table|, cnt); }
    if start == 0 && end * Pow2(cnt) <= |table| { HalvedFromLeft(end, mid, |table|, cnt); }
  }

  lemma FoundInTime(table: seq<Record>, word: string, start: int, mid: int, end: int, cnt: nat)
    requires |table| < INT_LIMIT && Searching(table, word, start, end, cnt)
    requires start < end && mid == (end - start) / 2 + start && Strcmp(table[mid].word, word) == 0
    ensures table[mid].word == word && cnt <= 30
  {
    StrcmpZero(table[mid].word, word);
    FoundWithin30(start, end, |table|, cnt);
  }

  /** A round of the loop: look at the record in the middle.  `hit` is its position, or negative. */
  method Probe(table: seq<Record>, word: string, start: int, end: int, cnt: nat)
    returns (hit: int, start': int, end': int, cnt': nat)
    requires Sorted(table) && |table| < INT_LIMIT
    requires Searching(table, word, start, end, cnt) && start != end && cnt < CAP
    ensures hit < |table|
    ensures if hit >= 0 then table[hit].word == word && cnt' == cnt <= 30
            else Searching(table, word, start', end', cnt') && cnt' == cnt + 1
  {
    var mid := (end - start) / 2 + start;
    var result := Strcmp(table[mid].word, word);
    hit, start', end', cnt' := -1, start, end, cnt;
    if result == 0 {
      FoundInTime(table, word, start, mid, end, cnt);
      hit := mid;
      return;
    } else if result < 0 {
      WentRight(table, word, start, mid, end, cnt);
      start' := mid;
    } else {
      WentLeft(table, word, start, mid, end, cnt);
      end' := mid;
    }
    cnt' := cnt + 1;
  }

  /**
    The text is that of a record with the word sought.  No search is cut off
    undecided: a word that is present is found within 31 probes, and the cap is
    reached exactly when the word is absent and not smaller than all words.
   */
  method Lookup(table: seq<Record>, word: string) returns (found: bool, text: string, cnt: nat)
    requires Sorted(table) && |table| < INT_LIMIT
    ensures found <==> LinearScan(table, word) < |table|
    ensures found ==> Record(word, text) in table && cnt <= 30
    ensures cnt <= CAP
    ensures cnt == CAP <==> !found && table != [] && Before(table[0].word, word)
  {
    var start, end, hit := 0, |table|, -1;
    cnt, found, text := 0, false, "";
    while start != end && hit < 0 && cnt < CAP
      invariant hit < |table| && cnt <= CAP
      invariant if hit >= 0 then table[hit].word == word && cnt <= 30 else Searching(table, word, start, end, cnt)
      decreases CAP - cnt, -hit
    {
      hit, start, end, cnt := Probe(table, word, start, end, cnt);
    }
    if table != [] {
      StrcmpIsOrder(table[0].word, word);
    }
    if hit >= 0 {
      found, text := true, table[hit].text;
    } else if start != end {
      Monotone(table, word, 0, start);
      SearchDecided(table, word, start, end);
    } else {
      SearchDecided(table, word, start, end);
      assert start == 0;
      assert table == [] || Strcmp(table[0].word, word) > 0;
    }
  }

  lemma SmallerBefore(table: seq<Record>, word: string, mid: nat)
    requires Sorted(table) && mid < |table| && Strcmp(table[mid].word, word) < 0
    ensures forall i :: 0 <= i <= mid ==> Strcmp(table[i].word, word) < 0
  {
    forall i | 0 <= i <= mid ensures Strcmp(table[i].word, word) < 0 {
      Monotone(table, word, i, mid);
    }
  }

  lemma GreaterBehind(table: seq<Record>, word: string, mid: nat)
    requires Sorted(table) && mid < |table| && Strcmp(table[mid].word, word) > 0
    ensures forall i :: mid <= i < |table| ==> Strcmp(table[i].word, word) > 0
  {
    forall i | mid <= i < |table| ensures Strcmp(table[i].word, word) > 0 {
      Monotone(table, word, mid, i);
    }
  }

  /** An interval that holds at most one word, and not the one sought, decides the search. */
  lemma SearchDecided(table: seq<Record>, word: string, start: nat, end: nat)
    requires Narrowed(table, word, start, end)
    requires start == end || (end == start + 1 && Strcmp(table[start].word, word) < 0)
    ensures LinearScan(table, word) == |table|
  {
    var k := LinearScan(table, word);
    if k < |table| {
      StrcmpZero(table[k].word, word);
    }
  }
}
