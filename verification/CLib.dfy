/**
  The parts of the C library that the dictionary programs rely on: strings in
  fixed buffers and a read cursor over a file.  Bytes are modelled as `char`.
 */
module CLib {

  const NUL: char := '\0'
  const NL: char := '\n'

  // ---------- strings in buffers ----------

  /** The buffer starts with `s` and its terminator. */
  ghost predicate HoldsStr(a: array<char>, s: string)
    reads a
  {
    |s| < a.Length && a[..|s|] == s && a[|s|] == NUL && NUL !in s
  }

  lemma Chars(a: array<char>, s: string)
    requires HoldsStr(a, s)
    ensures forall k :: 0 <= k < |s| ==> a[k] == s[k] && s[k] != NUL
  {
    assert forall k :: 0 <= k < |s| ==> a[k] == a[..|s|][k] && s[k] in s;
  }

  method StrLen(a: array<char>, ghost s: string) returns (n: nat)
    requires HoldsStr(a, s)
    ensures n == |s|
  {
    Chars(a, s);
    n := 0;
    while a[n] != NUL
      invariant n <= |s|
      decreases |s| - n
    {
      n := n + 1;
    }
  }

  /** Whether strcmp returns 0. */
  method StrEqual(a: array<char>, b: array<char>, ghost s: string, ghost t: string) returns (eq: bool)
    requires HoldsStr(a, s) && HoldsStr(b, t)
    ensures eq <==> s == t
  {
    Chars(a, s);
    Chars(b, t);
    var i := 0;
    while a[i] != NUL && a[i] == b[i]
      invariant 0 <= i <= |s| && i <= |t| && s[..i] == t[..i]
      decreases |s| - i
    {
      i := i + 1;
    }
    eq := a[i] == b[i];
    if eq {
      assert i == |s| == |t|;
      assert s == s[..i] && t == t[..i];
    }
  }

  /** Copy `n` bytes to an offset of the destination. */
  method CopyTo(dst: array<char>, off: nat, src: array<char>, n: nat)
    requires dst != src && n <= src.Length && off + n <= dst.Length
    modifies dst
    ensures dst[..] == old(dst[..off]) + src[..n] + old(dst[off + n..])
  {
    for i := 0 to n
      invariant forall k :: 0 <= k < dst.Length ==>
        dst[k] == if off <= k < off + i then src[k - off] else old(dst[k])
    {
      dst[off + i] := src[i];
    }
  }

  method StrCat(dst: array<char>, src: array<char>, ghost s: string, ghost t: string)
    requires dst != src && HoldsStr(dst, s) && HoldsStr(src, t) && |s| + |t| < dst.Length
    modifies dst
    ensures HoldsStr(dst, s + t)
  {
    var n := StrLen(dst, s);
    var m := StrLen(src, t);
    CopyTo(dst, n, src, m + 1);
    assert src[..m + 1] == t + [NUL];
    assert dst[..] == s + t + [NUL] + old(dst[n + m + 1..]);
    assert dst[..|s + t|] == dst[..][..|s + t|] == s + t;
    assert dst[|s + t|] == dst[..][|s + t|];
  }

  /** The string up to its first newline, all of it if it has none. */
  function UpToNewline(s: string): (t: string)
    ensures |t| <= |s| && t == s[..|t|] && NL !in t
    ensures |t| < |s| ==> s[|t|] == NL
  {
    if s == "" || s[0] == NL then "" else [s[0]] + UpToNewline(s[1..])
  }

  lemma {:induction false} UpToNewlineIs(s: string, n: nat)
    requires n <= |s| && NL !in s[..n] && (n < |s| ==> s[n] == NL)
    ensures UpToNewline(s) == s[..n]
    decreases n
  {
    if n > 0 {
      assert s[..n][0] == s[0];
      assert s[..n] == [s[0]] + s[1..][..n - 1];
      UpToNewlineIs(s[1..], n - 1);
    }
  }

  /** Overwrite the first newline of a string, if it has one, with the terminator. */
  method CutAtNewline(a: array<char>, ghost s: string)
    requires HoldsStr(a, s)
    modifies a
    ensures HoldsStr(a, UpToNewline(s))
  {
    ghost var t := UpToNewline(s);
    Chars(a, s);
    assert forall k :: 0 <= k < |t| ==> t[k] == s[k] && t[k] in t;
    var i := 0;
    while a[i] != NL && a[i] != NUL
      invariant 0 <= i <= |t|
      decreases |t| - i
    {
      i := i + 1;
    }
    a[i] := NUL;
    assert a[..|t|] == s[..|t|] == t;
  }

  /** Overwrite the last newline of a string with the terminator. */
  method CutAtLastNewline(a: array<char>, ghost s: string, ghost t: string)
    requires HoldsStr(a, s + [NL] + t) && NL !in t
    modifies a
    ensures HoldsStr(a, s)
  {
    ghost var all := s + [NL] + t;
    Chars(a, all);
    assert forall k :: 0 <= k < |t| ==> all[|s| + 1 + k] == t[k] && t[k] in t;
    assert forall c :: c in s ==> c in all;
    var n := StrLen(a, all);
    var i := n - 1;
    while a[i] != NL
      invariant |s| <= i < n
      decreases i
    {
      assert a[i] == all[i];
      i := i - 1;
    }
    a[i] := NUL;
    assert a[..|s|] == all[..|s|] == s;
  }

  method Memset(a: array<char>, c: char)
    modifies a
    ensures a[..] == seq(a.Length, _ => c)
  {
    for i := 0 to a.Length
      invariant forall k :: 0 <= k < i ==> a[k] == c
    {
      a[i] := c;
    }
  }

  // ---------- files ----------

  /** How many bytes a fgets with room for `room` bytes takes from `rest`. */
  function LineLen(rest: string, room: nat): (n: nat)
    ensures n <= |rest| && n <= room
    ensures rest != "" && room > 0 ==> n > 0
  {
    if rest == "" || room == 0 then 0
    else if rest[0] == NL then 1
    else 1 + LineLen(rest[1..], room - 1)
  }

  /** A line that fits is read whole, newline included. */
  lemma {:induction false} LineLenOfLine(l: string, tail: string, room: nat)
    requires NL !in l && |l| < room
    ensures LineLen(l + [NL] + tail, room) == |l| + 1
    ensures (l + [NL] + tail)[..|l| + 1] == l + [NL]
    ensures (l + [NL] + tail)[|l| + 1..] == tail
  {
    if l != "" {
      assert l[0] in l;
      LineLenOfLine(l[1..], tail, room - 1);
      assert (l + [NL] + tail)[1..] == l[1..] + [NL] + tail;
    }
  }

  /** fgets stops behind the first newline, when its room is used up, or at the end of the file. */
  lemma {:induction false} LineLenIs(rest: string, room: nat, n: nat)
    requires 0 < n <= |rest| && n <= room
    requires forall k :: 0 <= k < n - 1 ==> rest[k] != NL
    requires rest[n - 1] == NL || n == |rest| || n == room
    ensures LineLen(rest, room) == n
  {
    if n > 1 {
      LineLenIs(rest[1..], room - 1, n - 1);
    }
  }

  class CFile {
    const data: string
    var pos: nat
    var eof: bool
    /** The positions that fseek has gone to. */
    ghost var seeks: seq<int>

    ghost function Rest(): string
      reads this
    {
      if pos <= |data| then data[pos..] else ""
    }

    constructor (data: string)
      ensures this.data == data && pos == 0 && !eof && seeks == []
    {
      this.data, pos, eof, seeks := data, 0, false, [];
    }

    /** Copy bytes up to a newline, as far as there is room and the file goes. */
    method CopyLine(line: array<char>, room: nat) returns (n: nat, newline: bool)
      requires room < line.Length && pos < |data|
      modifies this`pos, line
      ensures n <= room && pos == old(pos) + n <= |data| && line[..n] == old(Rest())[..n]
      ensures forall k :: 0 <= k < n - 1 ==> old(Rest())[k] != NL
      ensures newline <==> n > 0 && old(Rest())[n - 1] == NL
      ensures n == room || pos == |data| || newline
    {
      ghost var start, rest := pos, Rest();
      n, newline := 0, false;
      while n < room && pos < |data| && !newline
        invariant n <= room && pos == start + n <= |data|
        invariant forall k :: 0 <= k < n ==> line[k] == rest[k]
        invariant forall k :: 0 <= k < n - 1 ==> rest[k] != NL
        invariant newline <==> n > 0 && rest[n - 1] == NL
        decreases |data| - pos
      {
        assert rest[n] == data[pos];
        line[n] := data[pos];
        newline := data[pos] == NL;
        n := n + 1;
        pos := pos + 1;
      }
    }

    /** At end of file nothing is stored: the buffer keeps its old contents. */
    method Fgets(line: array<char>) returns (ok: bool)
      requires line.Length >= 2
      modifies this`pos, this`eof, line
      ensures ok <==> old(Rest()) != ""
      ensures !ok ==> eof && pos == old(pos) && line[..] == old(line[..])
      ensures ok ==> var rest := old(Rest()); var n := LineLen(rest, line.Length - 1);
        && line[..n] == rest[..n] && line[n] == NUL
        && pos == old(pos) + n && Rest() == rest[n..]
        && (eof <==> old(eof) || (n == |rest| && n < line.Length - 1 && rest[n - 1] != NL))
    {
      if pos >= |data| {
        eof := true;
        return false;
      }
      var room := line.Length - 1;
      ghost var rest := Rest();
      var n, newline := CopyLine(line, room);
      if pos == |data| && n < room && !newline {
        eof := true;
      }
      line[n] := NUL;
      LineLenIs(rest, room, n);
      ok := true;
    }

    /** fseek relative to the current position. */
    method FseekCur(offset: int)
      requires pos + offset >= 0
      modifies this
      ensures pos == old(pos) + offset && !eof && seeks == old(seeks) + [pos]
    {
      pos, eof := pos + offset, false;
      seeks := seeks + [pos];
    }

    method Rewind()
      modifies this`pos, this`eof
      ensures pos == 0 && !eof
    {
      pos, eof := 0, false;
    }
  }

  /** A file open for writing. */
  class Sink {
    var data: string

    constructor ()
      ensures data == ""
    {
      data := "";
    }

    method Fwrite(a: array<char>)
      modifies this
      ensures data == old(data) + a[..]
    {
      data := data + a[..];
    }
  }
}
