/**
  The dictionary programs of HW5/part3: `convert` compiles a text file into
  fixed-length records, `lookup1` finds a word in the record file by moving a
  byte cursor.  The round trip is proved over the raw bytes.
 */
module Dictionary {
  import opened CLib

  const WORD := 32
  const TEXT := 480
  const RECORD := WORD + TEXT
  const BIGLINE := 512

  datatype Entry = Entry(word: string, lines: seq<string>)

  /** What a dictionary text consists of: entries, and blank lines between them. */
  datatype Item = Blank | Def(entry: Entry)

  // ---------- the text format ----------

  /** Every line followed by a newline. */
  function Lines(ls: seq<string>): string {
    if ls == [] then "" else ls[0] + [NL] + Lines(ls[1..])
  }

  /** The lines with newlines between them only. */
  function Joined(ls: seq<string>): string {
    if ls == [] then "" else if |ls| == 1 then ls[0] else ls[0] + [NL] + Joined(ls[1..])
  }

  predicate PlainLine(l: string) {
    l != "" && NL !in l && NUL !in l
  }

  /** The word leaves room for its newline, the text for the newline that ends it. */
  predicate WellFormed(e: Entry) {
    && PlainLine(e.word) && |e.word| < WORD
    && e.lines != [] && (forall l <- e.lines :: PlainLine(l))
    && |Lines(e.lines)| < TEXT
  }

  function Render(items: seq<Item>): string {
    if items == [] then ""
    else (match items[0]
          case Blank => [NL]
          case Def(e) => e.word + [NL] + Lines(e.lines) + [NL]) + Render(items[1..])
  }

  function Entries(items: seq<Item>): seq<Entry> {
    if items == [] then []
    else
      var n := |items| - 1;
      if items[n].Def? then Entries(items[..n]) + [items[n].entry] else Entries(items[..n])
  }

  ghost predicate AllWellFormed(es: seq<Entry>) {
    forall e <- es :: WellFormed(e)
  }

  ghost predicate WellFormedText(items: seq<Item>) {
    forall i :: 0 <= i < |items| && items[i].Def? ==> WellFormed(items[i].entry)
  }

  lemma {:induction false} WellFormedEntries(items: seq<Item>)
    requires WellFormedText(items)
    ensures AllWellFormed(Entries(items))
  {
    if items != [] {
      WellFormedEntries(items[..|items| - 1]);
    }
  }

  // ---------- the record format ----------

  function Zeros(n: nat): (z: string)
    ensures |z| == n
  {
    seq(n, _ => NUL)
  }

  /** A field of n bytes: the string, filled up with zero bytes. */
  function Padded(s: string, n: nat): (p: string)
    ensures |p| == n
    ensures |s| <= n ==> p == s + Zeros(n - |s|)
  {
    (s + Zeros(n))[..n]
  }

  /** Word and text, each ended by a newline and filled up with zero bytes. */
  function Record(e: Entry): (r: string)
    ensures |r| == RECORD
  {
    Padded(e.word + [NL], WORD) + Padded(Lines(e.lines) + [NL], TEXT)
  }

  function Records(es: seq<Entry>): (r: string)
    ensures |r| == RECORD * |es|
  {
    if es == [] then "" else Record(es[0]) + Records(es[1..])
  }

  lemma {:induction false} ZeroByte(n: nat, k: nat)
    requires k < n
    ensures Zeros(n)[k] == '\0'
  {
    if k > 0 { ZeroByte(n - 1, k - 1); }
  }

  /** Behind the newline of the word, and behind that of the text, a record is filled up with zero bytes. */
  lemma PaddingIsZero(e: Entry, k: nat)
    requires WellFormed(e)
    requires |e.word| < k < WORD || WORD + |Lines(e.lines)| < k < RECORD
    ensures Record(e)[k] == '\0'
  {
    if k < WORD {
      ZeroByte(WORD - |e.word| - 1, k - |e.word| - 1);
    } else {
      ZeroByte(TEXT - |Lines(e.lines)| - 1, k - WORD - |Lines(e.lines)| - 1);
    }
  }

  /** The k-th record starts behind the k first ones, at byte 512 k. */
  lemma {:induction false} RecordsSplit(es: seq<Entry>, k: nat)
    requires k <= |es|
    ensures Records(es) == Records(es[..k]) + Records(es[k..])
  {
    if k == 0 {
      assert es[0..] == es;
    } else {
      RecordsSplit(es[1..], k - 1);
      assert es[..k][1..] == es[1..][..k - 1];
      assert es[1..][k - 1..] == es[k..];
    }
  }

  // ---------- facts about lines ----------

  lemma {:induction false} LinesSnoc(ls: seq<string>, l: string)
    ensures Lines(ls + [l]) == Lines(ls) + l + [NL]
  {
    if ls != [] {
      assert (ls + [l])[1..] == ls[1..] + [l];
      LinesSnoc(ls[1..], l);
    } else {
      assert (ls + [l])[1..] == [];
    }
  }

  lemma {:induction false} LinesPrefix(ls: seq<string>, j: nat)
    requires j <= |ls|
    ensures |Lines(ls[..j])| <= |Lines(ls)|
    ensures Lines(ls) == Lines(ls[..j]) + Lines(ls[j..])
  {
    if j > 0 {
      LinesPrefix(ls[1..], j - 1);
      assert ls[..j][1..] == ls[1..][..j - 1] && ls[1..][j - 1..] == ls[j..];
    } else {
      assert ls[0..] == ls;
    }
  }

  /** Cutting the newline behind the last line turns one form into the other. */
  lemma {:induction false} LinesIsJoined(ls: seq<string>)
    requires ls != []
    ensures Lines(ls) == Joined(ls) + [NL]
  {
    if |ls| > 1 {
      LinesIsJoined(ls[1..]);
    }
  }

  /** The line at position j of a text, with its newline; the blank line behind the last. */
  function LineAt(ls: seq<string>, j: nat): string
    requires j <= |ls|
  {
    if j < |ls| then ls[j] + [NL] else [NL]
  }

  /** What follows that line in the input. */
  function After(ls: seq<string>, j: nat, tail: string): string
    requires j <= |ls|
  {
    if j < |ls| then Lines(ls[j + 1..]) + [NL] + tail else tail
  }

  lemma NextLine(ls: seq<string>, j: nat, tail: string, room: nat)
    requires j <= |ls| && (forall l <- ls :: PlainLine(l)) && |Lines(ls)| < room
    ensures var rest := Lines(ls[j..]) + [NL] + tail; var n := LineLen(rest, room);
      && n == |LineAt(ls, j)| > 0 && rest[..n] == LineAt(ls, j) && rest[n..] == After(ls, j, tail)
      && rest[n - 1] == NL
  {
    var rest := Lines(ls[j..]) + [NL] + tail;
    if j < |ls| {
      LinesPrefix(ls, j);
      assert ls[j] in ls;
      var more := Lines(ls[j + 1..]) + [NL] + tail;
      assert ls[j..][1..] == ls[j + 1..];
      assert rest == ls[j] + [NL] + more;
      LineLenOfLine(ls[j], more, room);
    } else {
      assert rest == "" + [NL] + tail;
      LineLenOfLine("", tail, room);
    }
  }

  // ---------- convert ----------

  /** Read a line of a definition, or the blank line behind it. */
  method GetLine(input: CFile, line: array<char>, ghost ls: seq<string>, ghost j: nat, ghost tail: string)
    requires line.Length == BIGLINE && j <= |ls| && (forall l <- ls :: PlainLine(l)) && |Lines(ls)| < TEXT
    requires input.Rest() == Lines(ls[j..]) + [NL] + tail && !input.eof
    modifies input`pos, input`eof, line
    ensures HoldsStr(line, LineAt(ls, j)) && input.Rest() == After(ls, j, tail) && !input.eof
    ensures input.pos == old(input.pos) + |LineAt(ls, j)|
  {
    NextLine(ls, j, tail, BIGLINE - 1);
    var _ := input.Fgets(line);
    assert j < |ls| ==> ls[j] in ls;
  }

  /** The loop over the lines of one definition: leaves them in `text`, and the blank line in `line`. */
  method ReadDefinition(input: CFile, line: array<char>, text: array<char>, ghost e: Entry, ghost tail: string)
    returns (count: nat)
    requires line.Length == BIGLINE && text.Length == TEXT && line != text && WellFormed(e)
    requires text[..] == Zeros(TEXT) && !input.eof
    requires input.Rest() == Lines(e.lines) + [NL] + tail
    modifies input`pos, input`eof, line, text
    ensures count == |Lines(e.lines)| && text[..] == Padded(Lines(e.lines), TEXT)
    ensures HoldsStr(line, [NL]) && input.Rest() == tail && !input.eof
  {
    ghost var ls, j := e.lines, 0;
    assert ls[0..] == ls;
    GetLine(input, line, ls, 0, tail);
    count := 0;
    while line[0] != NL
      invariant 0 <= j <= |ls| && HoldsStr(line, LineAt(ls, j))
      invariant input.Rest() == After(ls, j, tail) && !input.eof
      invariant count == |Lines(ls[..j])| && count < TEXT
      invariant text[..] == Padded(Lines(ls[..j]), TEXT)
      decreases |ls| - j
    {
      FirstByte(line, ls, j);
      AppendLine(text, count, ls, j, line);
      var n := StrLen(line, LineAt(ls, j));
      count := count + n;
      LinesPrefix(ls, j + 1);
      j := j + 1;
      GetLine(input, line, ls, j, tail);
    }
    FirstByte(line, ls, j);
    assert ls[..j] == ls;
  }

  /** Only the blank line behind a text starts with a newline. */
  lemma FirstByte(line: array<char>, ls: seq<string>, j: nat)
    requires j <= |ls| && HoldsStr(line, LineAt(ls, j)) && forall l <- ls :: PlainLine(l)
    ensures line[0] == NL <==> j == |ls|
  {
    assert line[0] == line[..|LineAt(ls, j)|][0];
    if j < |ls| {
      assert ls[j] in ls && ls[j][0] in ls[j];
    }
  }

  /** Copy the bytes of a line behind what the text field holds already. */
  method AppendLine(text: array<char>, count: nat, ghost ls: seq<string>, ghost j: nat, line: array<char>)
    requires text.Length == TEXT && text != line && j < |ls| && |Lines(ls)| < TEXT
    requires HoldsStr(line, LineAt(ls, j)) && count == |Lines(ls[..j])| < TEXT
    requires text[..] == Padded(Lines(ls[..j]), TEXT)
    modifies text
    ensures |Lines(ls[..j + 1])| == count + |LineAt(ls, j)| < TEXT
    ensures text[..] == Padded(Lines(ls[..j + 1]), TEXT)
  {
    var n := StrLen(line, LineAt(ls, j));
    LinesSnoc(ls[..j], ls[j]);
    assert ls[..j + 1] == ls[..j] + [ls[j]];
    LinesPrefix(ls, j + 1);
    CopyTo(text, count, line, n);
  }

  lemma RenderNext(items: seq<Item>, k: nat)
    requires k < |items|
    ensures items[k].Blank? ==> Render(items[k..]) == "" + [NL] + Render(items[k + 1..])
    ensures items[k].Def? ==> var e := items[k].entry;
      Render(items[k..]) == e.word + [NL] + (Lines(e.lines) + [NL] + Render(items[k + 1..]))
  {
    assert items[k..][1..] == items[k + 1..];
  }

  /** The first read of a round: a blank line, a word, or nothing at the end of the file. */
  method ReadWord(input: CFile, line: array<char>, ghost items: seq<Item>, ghost k: nat)
    requires line.Length == BIGLINE && k <= |items| && input.Rest() == Render(items[k..]) && !input.eof
    requires k < |items| && items[k].Def? ==> WellFormed(items[k].entry)
    requires if k > 0 then HoldsStr(line, [NL]) else items != []
    modifies input`pos, input`eof, line
    ensures line[0] == NL <==> k == |items| || items[k].Blank?
    ensures k == |items| ==> input.eof && input.Rest() == "" && HoldsStr(line, [NL])
    ensures k < |items| ==> !input.eof
    ensures k < |items| && items[k].Blank? ==> HoldsStr(line, [NL]) && input.Rest() == Render(items[k + 1..])
    ensures k < |items| && items[k].Def? ==>
      && HoldsStr(line, items[k].entry.word + [NL])
      && input.Rest() == Lines(items[k].entry.lines) + [NL] + Render(items[k + 1..])
  {
    if k < |items| {
      RenderNext(items, k);
      if items[k].Blank? {
        LineLenOfLine("", Render(items[k + 1..]), BIGLINE - 1);
      } else {
        var e := items[k].entry;
        LineLenOfLine(e.word, Lines(e.lines) + [NL] + Render(items[k + 1..]), BIGLINE - 1);
        assert e.word[0] in e.word;
      }
    }
    var _ := input.Fgets(line);
    if k < |items| && items[k].Def? {
      Chars(line, items[k].entry.word + [NL]);
    }
  }

  /** The rest of a round: fill one record, write it, and blank the buffers again. */
  method WriteEntry(input: CFile, output: Sink, line: array<char>, word: array<char>, text: array<char>,
                    ghost e: Entry, ghost tail: string)
    requires line.Length == BIGLINE && word.Length == WORD && text.Length == TEXT
    requires line != word && line != text && word != text && WellFormed(e)
    requires word[..] == Zeros(WORD) && text[..] == Zeros(TEXT)
    requires HoldsStr(line, e.word + [NL]) && input.Rest() == Lines(e.lines) + [NL] + tail && !input.eof
    modifies input`pos, input`eof, output, line, word, text
    ensures output.data == old(output.data) + Record(e)
    ensures word[..] == Zeros(WORD) && text[..] == Zeros(TEXT)
    ensures HoldsStr(line, [NL]) && input.Rest() == tail && !input.eof
  {
    var n := StrLen(line, e.word + [NL]);
    CopyTo(word, 0, line, n);
    var count := ReadDefinition(input, line, text, e, tail);
    text[count] := NL;
    assert word[..] == Padded(e.word + [NL], WORD);
    assert text[..] == Padded(Lines(e.lines) + [NL], TEXT);
    output.Fwrite(word);
    output.Fwrite(text);
    Memset(word, NUL);
    Memset(text, NUL);
  }

  /** The first k items have been converted. */
  ghost predicate Converted(items: seq<Item>, k: nat, out: string)
    requires k <= |items|
  {
    out == Records(Entries(items[..k]))
  }

  lemma ConvertedNext(items: seq<Item>, k: nat, out: string)
    requires k < |items| && Converted(items, k, out)
    ensures items[k].Blank? ==> Converted(items, k + 1, out)
    ensures items[k].Def? ==> Converted(items, k + 1, out + Record(items[k].entry))
  {
    assert items[..k + 1][..k] == items[..k];
    if items[k].Def? {
      var es := Entries(items[..k]);
      RecordsSplit(es + [items[k].entry], |es|);
      assert (es + [items[k].entry])[..|es|] == es;
    }
  }

  /** A round of the conversion loop: over a blank line, over an entry, or to the end of the file. */
  method ConvertItem(input: CFile, output: Sink, line: array<char>, word: array<char>, text: array<char>,
                     ghost items: seq<Item>, ghost k: nat) returns (ghost k': nat)
    requires line.Length == BIGLINE && word.Length == WORD && text.Length == TEXT
    requires line != word && line != text && word != text
    requires WellFormedText(items) && k <= |items| && input.Rest() == Render(items[k..]) && !input.eof
    requires if k > 0 then HoldsStr(line, [NL]) else items != []
    requires Converted(items, k, output.data) && word[..] == Zeros(WORD) && text[..] == Zeros(TEXT)
    modifies input`pos, input`eof, output, line, word, text
    ensures k' == (if k < |items| then k + 1 else k) && input.Rest() == Render(items[k'..])
    ensures Converted(items, k', output.data) && word[..] == Zeros(WORD) && text[..] == Zeros(TEXT)
    ensures input.eof <==> k == |items|
    ensures HoldsStr(line, [NL])
  {
    ReadWord(input, line, items, k);
    k' := if k < |items| then k + 1 else k;
    if k < |items| {
      ConvertedNext(items, k, output.data);
    }
    if line[0] == NL {
      return;
    }
    WriteEntry(input, output, line, word, text, items[k].entry, Render(items[k + 1..]));
  }

  /**
    The conversion loop.  At the end of the file no line can be read, and the
    loop stops because the buffer still holds the blank line read last.
   */
  method Convert(input: CFile, output: Sink, ghost items: seq<Item>)
    requires input.data == Render(items) && input.pos == 0 && !input.eof
    requires items != [] && WellFormedText(items)
    requires output.data == ""
    modifies input`pos, input`eof, output
    ensures output.data == Records(Entries(items))
  {
    var line := new char[BIGLINE];
    var word := new char[WORD];
    var text := new char[TEXT];
    Memset(word, NUL);
    Memset(text, NUL);
    ghost var k := 0;
    assert items[..0] == [] && items[0..] == items;
    while !input.eof
      invariant 0 <= k <= |items| && input.Rest() == Render(items[k..])
      invariant Converted(items, k, output.data)
      invariant word[..] == Zeros(WORD) && text[..] == Zeros(TEXT)
      invariant input.eof ==> k == |items|
      invariant k > 0 ==> HoldsStr(line, [NL])
      decreases |items| - k, !input.eof
    {
      k := ConvertItem(input, output, line, word, text, items, k);
    }
    assert items[..k] == items;
  }

  // ---------- lookup1 ----------

  /** Position of the first entry for a word; the number of entries if there is none. */
  function FirstEntry(es: seq<Entry>, word: string): (k: nat)
    ensures k <= |es|
    ensures k < |es| ==> es[k].word == word
    ensures forall j :: 0 <= j < k ==> es[j].word != word
  {
    if es == [] || es[0].word == word then 0 else 1 + FirstEntry(es[1..], word)
  }

  /** What follows the text of an entry in the record file, given what follows its record. */
  function AfterText(e: Entry, tail: string): string
    requires WellFormed(e)
  {
    Zeros(TEXT - |Lines(e.lines)| - 1) + tail
  }

  function FromText(e: Entry, tail: string): string
    requires WellFormed(e)
  {
    Lines(e.lines) + [NL] + AfterText(e, tail)
  }

  function FromWord(e: Entry, tail: string): string
    requires WellFormed(e)
  {
    e.word + [NL] + (Zeros(WORD - |e.word| - 1) + FromText(e, tail))
  }

  lemma RecordBytes(e: Entry, tail: string)
    requires WellFormed(e)
    ensures Record(e) + tail == FromWord(e, tail)
    ensures (Record(e) + tail)[WORD..] == FromText(e, tail)
  {
    var w, z := e.word + [NL], Zeros(WORD - |e.word| - 1);
    var t, y := Lines(e.lines) + [NL], Zeros(TEXT - |Lines(e.lines)| - 1);
    assert Record(e) + tail == ((w + z) + (t + y)) + tail;
    Regroup(w, z, t, y, tail);
  }

  lemma Regroup(w: string, z: string, t: string, y: string, tail: string)
    ensures ((w + z) + (t + y)) + tail == w + (z + (t + (y + tail)))
    ensures (((w + z) + (t + y)) + tail)[|w + z|..] == t + (y + tail)
  {
  }

  lemma DropPrefix(a: string, b: string, m: nat)
    requires m <= |b|
    ensures (a + b)[|a| + m..] == b[m..]
  {
  }

  /** The record file from its k-th record on, and from the text field of that record on. */
  lemma RecordLayout(es: seq<Entry>, k: nat)
    requires k < |es| && WellFormed(es[k])
    ensures Records(es)[RECORD * k..] == FromWord(es[k], Records(es[k + 1..]))
    ensures Records(es)[RECORD * k + WORD..] == FromText(es[k], Records(es[k + 1..]))
  {
    RecordsSplit(es, k);
    assert es[k..][1..] == es[k + 1..];
    RecordBytes(es[k], Records(es[k + 1..]));
    DropPrefix(Records(es[..k]), Records(es[k..]), 0);
    DropPrefix(Records(es[..k]), Records(es[k..]), WORD);
  }

  method CatLine(text: array<char>, ghost ls: seq<string>, ghost j: nat, line: array<char>)
    requires text.Length == TEXT && text != line && j < |ls| && |Lines(ls)| < TEXT
    requires HoldsStr(line, LineAt(ls, j)) && HoldsStr(text, Lines(ls[..j]))
    modifies text
    ensures HoldsStr(text, Lines(ls[..j + 1]))
  {
    LinesSnoc(ls[..j], ls[j]);
    assert ls[..j + 1] == ls[..j] + [ls[j]];
    LinesPrefix(ls, j + 1);
    assert Lines(ls[..j + 1]) == Lines(ls[..j]) + LineAt(ls, j);
    StrCat(text, line, Lines(ls[..j]), LineAt(ls, j));
  }

  /** Put the lines of a definition together again, and cut the newline behind the last one. */
  method ReadText(input: CFile, line: array<char>, text: array<char>, ghost e: Entry, ghost tail: string)
    requires line.Length == BIGLINE && text.Length == TEXT && line != text && WellFormed(e)
    requires HoldsStr(text, "") && !input.eof
    requires input.Rest() == Lines(e.lines) + [NL] + tail
    modifies input`pos, input`eof, line, text
    ensures HoldsStr(text, Joined(e.lines))
  {
    ghost var ls, j := e.lines, 0;
    assert ls[0..] == ls;
    GetLine(input, line, ls, 0, tail);
    while line[0] != NL
      invariant 0 <= j <= |ls| && HoldsStr(line, LineAt(ls, j))
      invariant input.Rest() == After(ls, j, tail) && !input.eof
      invariant HoldsStr(text, Lines(ls[..j]))
      decreases |ls| - j
    {
      FirstByte(line, ls, j);
      CatLine(text, ls, j, line);
      j := j + 1;
      GetLine(input, line, ls, j, tail);
    }
    FirstByte(line, ls, j);
    assert ls[..j] == ls;
    LinesIsJoined(ls);
    CutAtLastNewline(text, Joined(ls), "");
  }

  /** Read the word of the k-th record, newline included; nothing behind the last record. */
  method NextWord(input: CFile, line: array<char>, ghost es: seq<Entry>, ghost k: nat) returns (ok: bool)
    requires line.Length == BIGLINE && k <= |es| && AllWellFormed(es)
    requires input.data == Records(es) && input.pos == RECORD * k && !input.eof
    modifies input`pos, input`eof, line
    ensures ok <==> k < |es|
    ensures ok ==> HoldsStr(line, es[k].word + [NL]) && input.pos == RECORD * k + |es[k].word| + 1
  {
    if k < |es| {
      RecordLayout(es, k);
      var e := es[k];
      var behind := Zeros(WORD - |e.word| - 1) + FromText(e, Records(es[k + 1..]));
      assert input.Rest() == e.word + [NL] + behind;
      LineLenOfLine(e.word, behind, BIGLINE - 1);
    } else {
      assert input.pos == |input.data|;
    }
    ok := input.Fgets(line);
  }

  /** Strip the newline of the word that was read and compare it with the word sought. */
  method MatchWord(line: array<char>, sought: array<char>, ghost w: string, ghost word: string)
    returns (eq: bool, n: nat)
    requires line != sought && HoldsStr(line, w + [NL]) && NL !in w && HoldsStr(sought, word)
    modifies line
    ensures eq <==> w == word
    ensures n == |w|
  {
    assert (w + [NL])[..|w|] == w;
    UpToNewlineIs(w + [NL], |w|);
    CutAtNewline(line, w + [NL]);
    eq := StrEqual(line, sought, w, word);
    n := StrLen(line, w);
  }

  /** Every seek lands on the start of a record or of a text field. */
  ghost predicate SeeksAligned(seeks: seq<int>) {
    forall p <- seeks :: p % RECORD == 0 || p % RECORD == WORD
  }

  lemma AlignedSnoc(seeks: seq<int>, k: nat, p: int)
    requires SeeksAligned(seeks) && (p == RECORD * k || p == RECORD * k + WORD)
    ensures SeeksAligned(seeks + [p])
  {
    assert p % RECORD == 0 || p % RECORD == WORD;
  }

  /** Go on to the text field of the k-th record, where the word read is es[k].word. */
  method SeekText(input: CFile, n: nat, ghost es: seq<Entry>, ghost k: nat)
    requires k < |es| && WellFormed(es[k]) && n == |es[k].word| && input.data == Records(es)
    requires input.pos == RECORD * k + n + 1 && SeeksAligned(input.seeks)
    modifies input
    ensures input.Rest() == FromText(es[k], Records(es[k + 1..])) && !input.eof && SeeksAligned(input.seeks)
  {
    input.FseekCur(WORD - n - 1);
    AlignedSnoc(old(input.seeks), k, input.pos);
    RecordLayout(es, k);
  }

  /** Go on to the next record. */
  method SeekRecord(input: CFile, n: nat, ghost k: nat)
    requires n < WORD && input.pos == RECORD * k + n + 1 && SeeksAligned(input.seeks)
    modifies input
    ensures input.pos == RECORD * (k + 1) && !input.eof && SeeksAligned(input.seeks)
  {
    input.FseekCur(WORD + TEXT - n - 1);
    AlignedSnoc(old(input.seeks), k + 1, input.pos);
  }

  lemma FirstEntryIs(es: seq<Entry>, word: string, k: nat)
    requires k <= |es| && (k < |es| ==> es[k].word == word)
    requires forall j :: 0 <= j < k ==> es[j].word != word
    ensures FirstEntry(es, word) == k
  {
  }

  /** Search the record file from the top. */
  method Lookup(input: CFile, sought: array<char>, text: array<char>, ghost es: seq<Entry>, ghost word: string)
    returns (found: bool)
    requires input.data == Records(es) && AllWellFormed(es) && SeeksAligned(input.seeks)
    requires HoldsStr(sought, word) && text.Length == TEXT && text != sought
    modifies input, text
    ensures found <==> FirstEntry(es, word) < |es|
    ensures HoldsStr(text, if found then Joined(es[FirstEntry(es, word)].lines) else "")
    ensures SeeksAligned(input.seeks)
  {
    var line := new char[BIGLINE];
    Memset(text, NUL);
    input.Rewind();
    ghost var k := 0;
    var ok := NextWord(input, line, es, 0);
    while ok
      invariant 0 <= k <= |es| && (ok <==> k < |es|)
      invariant ok ==> HoldsStr(line, es[k].word + [NL]) && input.pos == RECORD * k + |es[k].word| + 1
      invariant forall j :: 0 <= j < k ==> es[j].word != word
      invariant HoldsStr(text, "") && SeeksAligned(input.seeks)
      decreases |es| - k
    {
      ghost var e := es[k];
      assert WellFormed(e);
      var eq, n := MatchWord(line, sought, e.word, word);
      if eq {
        SeekText(input, n, es, k);
        ReadText(input, line, text, e, AfterText(e, Records(es[k + 1..])));
        FirstEntryIs(es, word, k);
        return true;
      }
      SeekRecord(input, n, k);
      k := k + 1;
      ok := NextWord(input, line, es, k);
    }
    FirstEntryIs(es, word, k);
    found := false;
  }

  /** convert, then lookup1 on the file it wrote. */
  method ConvertThenLookup(items: seq<Item>, sought: array<char>, text: array<char>, ghost word: string)
    returns (found: bool)
    requires items != [] && WellFormedText(items)
    requires HoldsStr(sought, word) && text.Length == TEXT && text != sought
    modifies text
    ensures found <==> exists e <- Entries(items) :: e.word == word
    ensures found ==> HoldsStr(text, Joined(Entries(items)[FirstEntry(Entries(items), word)].lines))
  {
    var input := new CFile(Render(items));
    var output := new Sink();
    Convert(input, output, items);
    var records := new CFile(output.data);
    WellFormedEntries(items);
    found := Lookup(records, sought, text, Entries(items), word);
  }
}
