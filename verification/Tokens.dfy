/**
  `parse` (HW5/part2/parse.c): a line is split at white space with strtok.
 */
module Tokens {

  import opened Wrappers

  predicate Delim(c: char) {
    c == ' ' || c == '\t' || c == '\n'
  }

  /** All characters of s are delimiters, or none is. */
  predicate All(s: string, delims: bool) {
    forall k :: 0 <= k < |s| ==> Delim(s[k]) == delims
  }

  /** The length of the run of delimiters (or of other characters) that s starts with. */
  function RunLen(s: string, delims: bool): (n: nat)
    ensures n <= |s|
  {
    if |s| > 0 && Delim(s[0]) == delims then 1 + RunLen(s[1..], delims) else 0
  }

  function SkipRun(s: string, delims: bool): string {
    s[RunLen(s, delims)..]
  }

  /** The tokens of a line. */
  function TokensOf(s: string): seq<string>
    decreases |s|
  {
    var rest := SkipRun(s, true);
    if |rest| == 0 then []
    else
      var n := RunLen(rest, false);
      RunStarts(s);
      [rest[..n]] + TokensOf(rest[n..])
  }

  lemma RunStarts(s: string)
    ensures var rest := SkipRun(s, true); |rest| > 0 ==> RunLen(rest, false) > 0
  {
    RunEnds(s, true);
  }

  /** A run ends at the end of the line or in front of a character of the other kind. */
  lemma {:induction false} RunEnds(s: string, delims: bool)
    ensures RunLen(s, delims) < |s| ==> Delim(s[RunLen(s, delims)]) != delims
  {
    if |s| > 0 && Delim(s[0]) == delims {
      RunEnds(s[1..], delims);
    }
  }

  /** What a line with a token in it starts with. */
  lemma FirstWord(line: string) returns (rest: string, n: nat)
    requires SkipRun(line, true) != ""
    ensures rest == SkipRun(line, true) && 0 < n == RunLen(rest, false)
    ensures TokensOf(line) == [rest[..n]] + TokensOf(rest[n..])
    ensures |rest[n..]| < |line|
  {
    RunStarts(line);
    rest := SkipRun(line, true);
    n := RunLen(rest, false);
  }

  lemma {:induction false} RunLenIs(s: string, n: nat, delims: bool)
    requires n <= |s| && (n < |s| ==> Delim(s[n]) != delims)
    requires forall k :: 0 <= k < n ==> Delim(s[k]) == delims
    ensures RunLen(s, delims) == n
    decreases n
  {
    if n > 0 {
      RunLenIs(s[1..], n - 1, delims);
    }
  }

  // ---------- strtok ----------

  /** The token just read and those still to come. */
  ghost function Pending(token: Option<string>, left: string): seq<string> {
    match token
    case None => []
    case Some(t) => [t] + TokensOf(left)
  }

  /** The state that strtok keeps between calls. */
  class Tokenizer {
    const line: string
    var pos: nat

    constructor (line: string)
      ensures this.line == line && pos == 0
    {
      this.line, pos := line, 0;
    }

    ghost function Left(): string
      requires pos <= |line|
      reads this
    {
      line[pos..]
    }

    method Next() returns (token: Option<string>)
      requires pos <= |line|
      modifies this
      ensures pos <= |line|
      ensures if token.Some? then pos > old(pos) else pos == old(pos)
      ensures TokensOf(old(Left())) == Pending(token, Left())
    {
      var b := pos;
      while b < |line| && Delim(line[b])
        invariant pos <= b <= |line|
        invariant forall k :: pos <= k < b ==> Delim(line[k])
      {
        b := b + 1;
      }
      if b == |line| {
        NoToken(line, pos);
        return None;
      }
      var e := b;
      while e < |line| && !Delim(line[e])
        invariant b <= e <= |line|
        invariant forall k :: b <= k < e ==> !Delim(line[k])
      {
        e := e + 1;
      }
      token := Some(line[b..e]);
      FirstToken(line, pos, b, e);
      // the delimiter behind the token is overwritten and stepped over
      pos := if e < |line| then e + 1 else e;
    }
  }

  lemma NoToken(line: string, pos: nat)
    requires pos <= |line| && forall k :: pos <= k < |line| ==> Delim(line[k])
    ensures TokensOf(line[pos..]) == []
  {
    RunOf(line, pos, |line|, true);
  }

  lemma FirstToken(line: string, pos: nat, b: nat, e: nat)
    requires pos <= b < e <= |line| && (e < |line| ==> Delim(line[e]))
    requires forall k :: pos <= k < b ==> Delim(line[k])
    requires forall k :: b <= k < e ==> !Delim(line[k])
    ensures TokensOf(line[pos..]) == [line[b..e]] + TokensOf(line[if e < |line| then e + 1 else e..])
  {
    RunOf(line, pos, b, true);
    RunOf(line, b, e, false);
    var rest, n := FirstWord(line[pos..]);
    assert rest == line[b..] && n == e - b;
    assert rest[..n] == line[b..e] && rest[n..] == line[e..];
    AfterToken(line, e);
  }

  lemma AfterToken(line: string, e: nat)
    requires e <= |line| && (e < |line| ==> Delim(line[e]))
    ensures TokensOf(line[e..]) == TokensOf(line[if e < |line| then e + 1 else e..])
  {
    if e < |line| {
      DelimSkipped(line[e..]);
      assert line[e..][1..] == line[e + 1..];
    }
  }

  lemma RunOf(line: string, b: nat, e: nat, delims: bool)
    requires b <= e <= |line| && (e < |line| ==> Delim(line[e]) != delims)
    requires forall k :: b <= k < e ==> Delim(line[k]) == delims
    ensures RunLen(line[b..], delims) == e - b
    ensures SkipRun(line[b..], delims) == line[e..] && line[b..][..e - b] == line[b..e]
  {
    assert line[b..][..e - b] == line[b..e];
    RunLenIs(line[b..], e - b, delims);
  }

  lemma DelimSkipped(s: string)
    requires |s| > 0 && Delim(s[0])
    ensures TokensOf(s) == TokensOf(s[1..])
  {
    assert SkipRun(s, true) == SkipRun(s[1..], true);
  }

  // ---------- parse ----------

  lemma Regroup(a: seq<string>, t: string, b: seq<string>)
    ensures a + ([t] + b) == (a + [t]) + b
  {
  }

  method Parse(line: string) returns (argv: Option<seq<string>>)
    ensures argv == if TokensOf(line) == [] then None else Some(TokensOf(line))
  {
    if line == "\n" {
      DelimSkipped(line);
      return None;
    }
    var tokens := new Tokenizer(line);
    assert tokens.Left() == line;
    var token := tokens.Next();
    if token.None? {
      return None;
    }
    var words := [token.value];
    token := tokens.Next();
    while token.Some?
      invariant tokens.line == line && tokens.pos <= |line| && words != []
      invariant TokensOf(line) == words + Pending(token, tokens.Left())
      decreases |line| - tokens.pos, token.Some?
    {
      Regroup(words, token.value, TokensOf(tokens.Left()));
      words := words + [token.value];
      token := tokens.Next();
    }
    assert words + [] == words;
    argv := Some(words);
  }

  // ---------- what a parsed line contains ----------

  /** Tokens, each followed by its gap. */
  function Body(ts: seq<string>, gaps: seq<string>): string
    requires |ts| == |gaps|
  {
    if ts == [] then "" else ts[0] + (gaps[0] + Body(ts[1..], gaps[1..]))
  }

  /** Tokens have no white space in them; only the gap behind the last token may be empty. */
  ghost predicate Separated(ts: seq<string>, gaps: seq<string>) {
    && |ts| == |gaps|
    && (forall i :: 0 <= i < |ts| ==> |ts[i]| > 0 && All(ts[i], false) && All(gaps[i], true))
    && (forall i :: 0 <= i < |gaps| - 1 ==> |gaps[i]| > 0)
  }

  lemma SkipRunOf(a: string, b: string, delims: bool)
    requires All(a, delims) && (|b| > 0 ==> Delim(b[0]) != delims)
    ensures RunLen(a + b, delims) == |a| && SkipRun(a + b, delims) == b
  {
    RunLenIs(a + b, |a|, delims);
  }

  /** Parsing gives back the tokens, whatever white space stands around and between them. */
  lemma {:induction false} ParseOfBody(lead: string, ts: seq<string>, gaps: seq<string>)
    requires All(lead, true) && Separated(ts, gaps)
    ensures TokensOf(lead + Body(ts, gaps)) == ts
    decreases |ts|
  {
    if ts == [] {
      SkipRunOf(lead, "", true);
    } else {
      var t, rest := ts[0], gaps[0] + Body(ts[1..], gaps[1..]);
      SkipRunOf(lead, t + rest, true);
      SkipRunOf(t, rest, false);
      assert (t + rest)[..|t|] == t && (t + rest)[|t|..] == rest;
      ParseOfBody(gaps[0], ts[1..], gaps[1..]);
    }
  }

  /** The line is white space, then tokens with gaps. */
  ghost predicate IsLine(line: string, lead: string, ts: seq<string>, gaps: seq<string>) {
    All(lead, true) && Separated(ts, gaps) && line == lead + Body(ts, gaps)
  }

  /** Every line is of that form, and parsing it gives these tokens. */
  lemma {:induction false} EveryLineIsBody(line: string) returns (lead: string, gaps: seq<string>)
    ensures IsLine(line, lead, TokensOf(line), gaps)
    decreases |line|
  {
    lead := line[..RunLen(line, true)];
    if SkipRun(line, true) == "" {
      gaps := [];
      RunIsAll(line, true);
    } else {
      var rest, n := FirstWord(line);
      var gap, gaps' := EveryLineIsBody(rest[n..]);
      gaps := [gap] + gaps';
      Prepend(line, rest, n, gap, TokensOf(rest[n..]), gaps');
    }
  }

  /** One more token in front, with the gap behind it. */
  lemma Prepend(line: string, rest: string, n: nat, gap: string, ts: seq<string>, gaps: seq<string>)
    requires rest == SkipRun(line, true) && 0 < n == RunLen(rest, false)
    requires IsLine(rest[n..], gap, ts, gaps)
    ensures IsLine(line, line[..RunLen(line, true)], [rest[..n]] + ts, [gap] + gaps)
  {
    var lead, t := line[..RunLen(line, true)], rest[..n];
    RunIsAll(line, true);
    assert Separated([t] + ts, [gap] + gaps) && rest == Body([t] + ts, [gap] + gaps) by {
      RunIsAll(rest, false);
      GapBefore(rest, n, gap, ts, gaps);
      BodyCons(t, gap, ts, gaps);
      Split(rest, n, gap + Body(ts, gaps));
    }
    assert line == lead + rest;
  }

  /** Only the end of the line can follow a token without a gap. */
  lemma GapBefore(rest: string, n: nat, gap: string, ts: seq<string>, gaps: seq<string>)
    requires n == RunLen(rest, false) && Separated(ts, gaps) && rest[n..] == gap + Body(ts, gaps)
    ensures ts != [] ==> |gap| > 0
  {
    RunEnds(rest, false);
    if ts != [] {
      var body := Body(ts, gaps);
      assert body[0] == ts[0][0] && !Delim(body[0]);
      assert rest[n] == rest[n..][0] == (gap + body)[0];
    }
  }

  lemma BodyCons(t: string, gap: string, ts: seq<string>, gaps: seq<string>)
    requires |t| > 0 && All(t, false) && All(gap, true) && Separated(ts, gaps)
    requires ts != [] ==> |gap| > 0
    ensures Separated([t] + ts, [gap] + gaps)
    ensures Body([t] + ts, [gap] + gaps) == t + (gap + Body(ts, gaps))
  {
    assert ([t] + ts)[1..] == ts && ([gap] + gaps)[1..] == gaps;
  }

  lemma Split(s: string, n: nat, tail: string)
    requires n <= |s| && s[n..] == tail
    ensures s == s[..n] + tail
  {
  }

  lemma {:induction false} RunIsAll(s: string, delims: bool)
    ensures All(s[..RunLen(s, delims)], delims)
  {
    if |s| > 0 && Delim(s[0]) == delims {
      RunIsAll(s[1..], delims);
      var n := RunLen(s, delims);
      assert s[..n] == [s[0]] + s[1..][..n - 1];
    }
  }

  // ---------- which characters separate words ----------

  /** The line without its blanks, tabs and newlines. */
  function Letters(s: string): string {
    if s == "" then "" else (if s[0] == ' ' || s[0] == '\t' || s[0] == '\n' then "" else [s[0]]) + Letters(s[1..])
  }

  function Joined(ts: seq<string>): string {
    if ts == [] then "" else ts[0] + Joined(ts[1..])
  }

  lemma {:induction false} LettersConcat(a: string, b: string)
    ensures Letters(a + b) == Letters(a) + Letters(b)
  {
    if a == "" {
      assert a + b == b;
    } else {
      assert (a + b)[1..] == a[1..] + b;
      LettersConcat(a[1..], b);
    }
  }

  lemma {:induction false} LettersOfRun(s: string, delims: bool)
    requires All(s, delims)
    ensures Letters(s) == if delims then "" else s
  {
    if s != "" {
      assert s == [s[0]] + s[1..];
      LettersOfRun(s[1..], delims);
    }
  }

  lemma {:induction false} LettersOfBody(ts: seq<string>, gaps: seq<string>)
    requires Separated(ts, gaps)
    ensures Letters(Body(ts, gaps)) == Joined(ts)
  {
    if ts != [] {
      LettersOfBody(ts[1..], gaps[1..]);
      LettersOfWord(ts[0], gaps[0], Body(ts[1..], gaps[1..]));
    }
  }

  lemma GapDropped(gap: string, rest: string)
    requires All(gap, true)
    ensures Letters(gap + rest) == Letters(rest)
  {
    LettersConcat(gap, rest);
    LettersOfRun(gap, true);
    assert "" + Letters(rest) == Letters(rest);
  }

  lemma LettersOfWord(t: string, gap: string, rest: string)
    requires All(t, false) && All(gap, true)
    ensures Letters(t + (gap + rest)) == t + Letters(rest)
  {
    var tail := gap + rest;
    LettersConcat(t, tail);
    LettersOfRun(t, false);
    GapDropped(gap, rest);
  }

  predicate IsWord(t: string) {
    t != "" && ' ' !in t && '\t' !in t && '\n' !in t
  }

  /** The words hold no blank, tab or newline, and nothing else of the line is dropped. */
  lemma OnlyWhiteSpaceDropped(line: string)
    ensures Joined(TokensOf(line)) == Letters(line)
    ensures forall i :: 0 <= i < |TokensOf(line)| ==> IsWord(TokensOf(line)[i])
  {
    var ts := TokensOf(line);
    var lead, gaps := EveryLineIsBody(line);
    LettersConcat(lead, Body(ts, gaps));
    LettersOfRun(lead, true);
    LettersOfBody(ts, gaps);
  }
}
