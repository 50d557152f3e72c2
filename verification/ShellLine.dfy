/** The shell's line editor, and the tokenizer that cuts a line into words in place. */
module ShellLine {
  import opened Arithmetic
  import opened Bytes

  const BUFFER_SIZE := 128
  const MAX_ARGS := 16

  predicate Blank(c: byte) { c == 32 || c == 9 }

  // ----- words -----

  datatype Span = Span(from: nat, to: nat)

  /** A maximal run of non-blank characters. */
  ghost predicate IsWord(s: seq<byte>, w: Span) {
    && w.from < w.to <= |s|
    && (forall i :: w.from <= i < w.to ==> !Blank(s[i]))
    && (w.from > 0 ==> Blank(s[w.from - 1]))
    && (w.to < |s| ==> Blank(s[w.to]))
  }

  /** The words of a line, in order. */
  ghost predicate WordsOf(s: seq<byte>, ws: seq<Span>) {
    && (forall w :: w in ws <==> IsWord(s, w))
    && forall i, j :: 0 <= i < j < |ws| ==> ws[i].to < ws[j].from
  }

  /** Words that have ended in the first `n` characters, and where the word begins that has not (or -1). */
  datatype Progress = Progress(closed: seq<Span>, start: int)

  function Scan(s: seq<byte>, n: nat): Progress
    requires n <= |s|
  {
    if n == 0 then Progress([], -1)
    else
      var p := Scan(s, n - 1);
      if Blank(s[n - 1]) then
        if p.start >= 0 then Progress(p.closed + [Span(p.start, n - 1)], -1) else p
      else if p.start < 0 then p.(start := n - 1) else p
  }

  function Words(s: seq<byte>): seq<Span> {
    var p := Scan(s, |s|);
    if p.start >= 0 then p.closed + [Span(p.start, |s|)] else p.closed
  }

  /** What has been scanned: an open word runs up to here; the closed ones are the words that end in a blank before. */
  ghost predicate Scanned(s: seq<byte>, n: nat, p: Progress)
    requires n <= |s|
  {
    && (if p.start >= 0
        then p.start < n && (forall i :: p.start <= i < n ==> !Blank(s[i])) && (p.start > 0 ==> Blank(s[p.start - 1]))
        else n > 0 ==> Blank(s[n - 1]))
    && (forall w :: w in p.closed <==> IsWord(s, w) && w.to < n)
    && (forall i, j :: 0 <= i < j < |p.closed| ==> p.closed[i].to < p.closed[j].from)
  }

  lemma {:induction false} ScanIsScanned(s: seq<byte>, n: nat)
    requires n <= |s|
    ensures Scanned(s, n, Scan(s, n))
  {
    if n > 0 {
      ScanIsScanned(s, n - 1);
      ScanStep(s, n - 1, Scan(s, n - 1), Scan(s, n));
    }
  }

  lemma ScanStep(s: seq<byte>, n: nat, p: Progress, q: Progress)
    requires n < |s| && Scanned(s, n, p)
    requires q == if Blank(s[n]) then
                    if p.start >= 0 then Progress(p.closed + [Span(p.start, n)], -1) else p
                  else if p.start < 0 then p.(start := n) else p
    ensures Scanned(s, n + 1, q)
  {
    hide Blank;
    if Blank(s[n]) && p.start >= 0 {
      OnlyWordHere(s, n, p.start);
      var w := Span(p.start, n);
      forall v ensures v in q.closed <==> IsWord(s, v) && v.to < n + 1 {
        assert v in q.closed <==> v in p.closed || v == w;
      }
      forall v | v in p.closed ensures v.to < p.start { WordsApart(s, v, w); }
      assert forall i :: 0 <= i < |p.closed| ==> p.closed[i] in p.closed;
    } else {
      forall v ensures v in q.closed <==> IsWord(s, v) && v.to < n + 1 {
        EndsOnEdge(s, v);
      }
    }
  }

  /** The last character of a word is not blank, and what follows it is. */
  lemma EndsOnEdge(s: seq<byte>, v: Span)
    ensures IsWord(s, v) ==> !Blank(s[v.to - 1]) && (v.to < |s| ==> Blank(s[v.to]))
  {
  }

  /** The one word that ends here is the open one. */
  lemma OnlyWordHere(s: seq<byte>, n: nat, start: nat)
    requires start < n < |s| && Blank(s[n]) && forall i :: start <= i < n ==> !Blank(s[i])
    requires start > 0 ==> Blank(s[start - 1])
    ensures IsWord(s, Span(start, n)) && forall v :: IsWord(s, v) && v.to == n ==> v == Span(start, n)
  {
    hide Blank;
    forall v | IsWord(s, v) && v.to == n ensures v.from == start {
      SameEnd(s, v, Span(start, n));
    }
  }

  lemma SameEnd(s: seq<byte>, v: Span, w: Span)
    requires IsWord(s, v) && IsWord(s, w) && v.to == w.to
    ensures v == w
  {
    hide Blank;
    assert w.from > 0 ==> Blank(s[w.from - 1]);
    assert v.from > 0 ==> Blank(s[v.from - 1]);
  }

  /** Words that end at different places lie apart. */
  lemma WordsApart(s: seq<byte>, v: Span, w: Span)
    requires IsWord(s, v) && IsWord(s, w) && v.to < w.to
    ensures v.to < w.from
  {
    hide Blank;
    assert Blank(s[v.to]);
  }

  /** The scan finds all words of a line, in order, and nothing else. */
  lemma WordsExact(s: seq<byte>)
    ensures WordsOf(s, Words(s))
  {
    ScanIsScanned(s, |s|);
    var p, n := Scan(s, |s|), |s|;
    var ws := Words(s);
    hide Blank, Scan;
    forall v ensures v in ws <==> IsWord(s, v) {
      EndsOnEdge(s, v);
      if IsWord(s, v) && v.to == n && p.start >= 0 {
        SameEnd(s, v, Span(p.start, n));
      }
    }
    if p.start >= 0 {
      var w := Span(p.start, n);
      assert w in ws;
      forall v | v in p.closed ensures v.to < p.start { WordsApart(s, v, w); }
      assert forall i :: 0 <= i < |p.closed| ==> p.closed[i] in p.closed;
    }
  }

  /** There is only one list of all words in order. */
  lemma WordsUnique(s: seq<byte>, a: seq<Span>, b: seq<Span>)
    requires WordsOf(s, a) && WordsOf(s, b)
    ensures a == b
  {
    SameFirst(s, a, b, 0);
  }

  lemma Later(s: seq<byte>, ws: seq<Span>, i: nat, j: nat)
    requires WordsOf(s, ws) && i < j < |ws|
    ensures ws[i].from < ws[i].to < ws[j].from < ws[j].to
  {
    assert ws[i] in ws && ws[j] in ws;
  }

  /** A word of both lists that is next in one is not earlier in the other. */
  lemma NotEarlier(s: seq<byte>, a: seq<Span>, b: seq<Span>, i: nat) returns (j: nat)
    requires WordsOf(s, a) && WordsOf(s, b) && i < |a| && i <= |b| && a[..i] == b[..i]
    ensures i <= j < |b| && b[j] == a[i]
  {
    assert a[i] in a;
    j :| 0 <= j < |b| && b[j] == a[i];
    assert j < i ==> b[j] == b[..i][j] && a[j] == a[..i][j];
    if j < i {
      Later(s, a, j, i);
    }
  }

  lemma {:induction false} SameFirst(s: seq<byte>, a: seq<Span>, b: seq<Span>, i: nat)
    requires WordsOf(s, a) && WordsOf(s, b) && i <= |a| && i <= |b| && a[..i] == b[..i]
    ensures a == b
    decreases |a| - i
  {
    hide WordsOf;
    if i < |a| {
      var j := NotEarlier(s, a, b, i);
      var k := NotEarlier(s, b, a, i);
      if j > i { Later(s, b, i, j); }
      if k > i { Later(s, a, i, k); }
      assert a[..i + 1] == a[..i] + [a[i]] && b[..i + 1] == b[..i] + [b[i]];
      SameFirst(s, a, b, i + 1);
    } else {
      if i < |b| {
        var k := NotEarlier(s, b, a, i);
      }
      assert a == a[..i] && (i == |b| ==> b == b[..i]);
    }
  }

  /** Words closed early stay closed: the list of closed words only grows. */
  lemma {:induction false} ClosedGrows(s: seq<byte>, n: nat)
    requires n <= |s|
    ensures Scan(s, n).closed <= Words(s)
    decreases |s| - n
  {
    if n < |s| {
      ClosedGrows(s, n + 1);
      assert Scan(s, n).closed <= Scan(s, n + 1).closed;
    }
  }

  // ----- the tokenizer -----

  /** The characters from `at` up to the next terminator. */
  function CString(s: seq<byte>, at: nat): (r: seq<byte>)
    requires at <= |s|
    decreases |s| - at
  {
    if at == |s| || s[at] == 0 then [] else [s[at]] + CString(s, at + 1)
  }

  lemma {:induction false} CStringIs(s: seq<byte>, at: nat, to: nat)
    requires at <= to < |s| && s[to] == 0 && forall i :: at <= i < to ==> s[i] != 0
    ensures CString(s, at) == s[at..to]
    decreases |s| - at
  {
    if at < to {
      CStringIs(s, at + 1, to);
      assert s[at..to] == [s[at]] + s[at + 1..to];
    }
  }

  /** The line with terminators stored where the first `k` words end. */
  ghost predicate Terminated(copy: seq<byte>, s: seq<byte>, closed: seq<Span>) {
    && |copy| == BUFFER_SIZE && |s| < BUFFER_SIZE
    && (forall i :: 0 <= i < |s| ==> copy[i] == if exists w :: w in closed && w.to == i then 0 else s[i])
    && forall i :: |s| <= i < BUFFER_SIZE ==> copy[i] == 0
  }

  /** Each of the words is the string that begins where it begins. */
  lemma ReadsWord(copy: seq<byte>, s: seq<byte>, closed: seq<Span>, w: Span)
    requires Terminated(copy, s, closed) && 0 !in s && IsWord(s, w) && (w in closed || w.to == |s|)
    requires forall v :: v in closed ==> IsWord(s, v)
    ensures CString(copy, w.from) == s[w.from..w.to]
  {
    hide CString;
    forall i | w.from <= i < w.to ensures copy[i] == s[i] && copy[i] != 0 {
      forall v | v in closed ensures v.to != i {
        EndsOnEdge(s, v);
      }
      assert s[i] in s;
    }
    CStringIs(copy, w.from, w.to);
    assert copy[w.from..w.to] == s[w.from..w.to];
  }

  class Tokenizer {
    const lineCopy: array<byte>

    constructor ()
      ensures lineCopy.Length == BUFFER_SIZE && fresh(lineCopy)
    {
      lineCopy := new byte[BUFFER_SIZE](_ => 0);
    }

    /** Copies at most 127 characters of the line and pads with zeros. */
    method CopyLine(line: seq<byte>)
      requires lineCopy.Length == BUFFER_SIZE
      modifies lineCopy
      ensures Terminated(lineCopy[..], line[..Min(|line|, BUFFER_SIZE - 1)], [])
    {
      var i := 0;
      while i < BUFFER_SIZE
        invariant i <= BUFFER_SIZE
        invariant forall j :: 0 <= j < i ==> lineCopy[j] == if j < |line| && j < BUFFER_SIZE - 1 then line[j] else 0
      {
        lineCopy[i] := if i < |line| && i < BUFFER_SIZE - 1 then line[i] else 0;
        i := i + 1;
      }
    }

    /**
     Cuts the line into words by storing terminators into the copy. `argv` gets the
     places where the first words begin: reading the copy there gives exactly the
     first 16 words of the line (of its first 127 characters).
     */
    method Parse(line: seq<byte>, argv: array<nat>) returns (argc: nat)
      requires lineCopy.Length == BUFFER_SIZE && argv.Length == MAX_ARGS && 0 !in line
      modifies lineCopy, argv
      ensures var s := line[..Min(|line|, BUFFER_SIZE - 1)];
              && argc == Min(|Words(s)|, MAX_ARGS)
              && forall i :: 0 <= i < argc ==>
                   && argv[i] == Words(s)[i].from < BUFFER_SIZE
                   && IsWord(s, Words(s)[i])
                   && CString(lineCopy[..], argv[i]) == s[Words(s)[i].from..Words(s)[i].to]
    {
      CopyLine(line);
      ghost var s := line[..Min(|line|, BUFFER_SIZE - 1)];
      argc := 0;
      var wordStart := -1;
      var p := 0;
      ghost var closed: seq<Span> := [];
      while lineCopy[p] != 0 && argc < MAX_ARGS
        invariant p <= |s| && argc == |closed| <= MAX_ARGS
        invariant Scan(s, p) == Progress(closed, wordStart)
        invariant Terminated(lineCopy[..], s, closed)
        invariant forall i :: 0 <= i < argc ==> argv[i] == closed[i].from
        invariant forall w :: w in closed ==> w.to < p
        decreases |s| - p
      {
        if lineCopy[p] == 32 || lineCopy[p] == 9 {
          if wordStart >= 0 {
            lineCopy[p] := 0;
            argv[argc] := wordStart;
            argc := argc + 1;
            closed := closed + [Span(wordStart, p)];
            wordStart := -1;
          }
        } else if wordStart < 0 {
          wordStart := p;
        }
        p := p + 1;
      }
      if wordStart >= 0 && argc < MAX_ARGS {
        argv[argc] := wordStart;
        argc := argc + 1;
      }
      Parsed(s, closed, wordStart, p, lineCopy[..]);
    }
  }

  /** What the scan has found when it stops: the words asked for, readable in the copy. */
  lemma Parsed(s: seq<byte>, closed: seq<Span>, wordStart: int, p: nat, copy: seq<byte>)
    requires p <= |s| && Scan(s, p) == Progress(closed, wordStart) && Terminated(copy, s, closed) && 0 !in s
    requires |closed| < MAX_ARGS ==> p == |s|
    requires |closed| <= MAX_ARGS
    ensures var n := if wordStart >= 0 && |closed| < MAX_ARGS then |closed| + 1 else |closed|;
            && n == Min(|Words(s)|, MAX_ARGS)
            && (forall i :: 0 <= i < |closed| ==> Words(s)[i] == closed[i])
            && (wordStart >= 0 && |closed| < MAX_ARGS ==> Words(s)[|closed|].from == wordStart)
            && forall i :: 0 <= i < n ==>
                 IsWord(s, Words(s)[i]) && CString(copy, Words(s)[i].from) == s[Words(s)[i].from..Words(s)[i].to]
  {
    hide CString;
    WordsExact(s);
    ClosedGrows(s, p);
    ScanIsScanned(s, p);
    var ws := Words(s);
    forall i | 0 <= i < |ws| && i <= |closed| && i < MAX_ARGS
      ensures IsWord(s, ws[i]) && CString(copy, ws[i].from) == s[ws[i].from..ws[i].to]
    {
      assert ws[i] in ws;
      assert i < |closed| ==> ws[i] in closed;
      ReadsWord(copy, s, closed, ws[i]);
    }
  }

  // ----- the line editor -----

  predicate Printable(c: byte) { 32 <= c < 127 }

  predicate Enter(c: byte) { c == 13 || c == 10 }

  predicate Erase(c: byte) { c == 8 || c == 127 }

  /** The line after a key; a key too many empties it. */
  function Edited(line: seq<byte>, c: byte): seq<byte> {
    if Enter(c) then []
    else if Erase(c) then (if line != [] then line[..|line| - 1] else line)
    else if Printable(c) then (if |line| < BUFFER_SIZE - 1 then line + [c] else [])
    else line
  }

  /** The line after some keys. */
  function EditedAll(line: seq<byte>, keys: seq<byte>): seq<byte>
    decreases |keys|
  {
    if keys == [] then line else EditedAll(Edited(line, keys[0]), keys[1..])
  }

  /** The line never outgrows the buffer, and holds printable characters only. */
  lemma {:induction false} LineFits(line: seq<byte>, keys: seq<byte>)
    requires |line| < BUFFER_SIZE && forall i :: 0 <= i < |line| ==> Printable(line[i])
    ensures |EditedAll(line, keys)| < BUFFER_SIZE
    ensures forall i :: 0 <= i < |EditedAll(line, keys)| ==> Printable(EditedAll(line, keys)[i])
    decreases |keys|
  {
    if keys != [] {
      LineFits(Edited(line, keys[0]), keys[1..]);
    }
  }

  /** A line that fits is kept as typed, and as many erasures take it back. */
  lemma {:induction false} TypeThenErase(line: seq<byte>, text: seq<byte>, erase: byte)
    requires |line| + |text| < 128 && (erase == 8 || erase == 127)
    requires forall i :: 0 <= i < |text| ==> 32 <= text[i] < 127
    ensures EditedAll(line, text) == line + text
    ensures EditedAll(line + text, seq(|text|, _ => erase)) == line
    decreases |text|
  {
    hide Edited;
    if text == [] {
      assert line + text == line;
    } else {
      var n := |text| - 1;
      var before := line + text[..n];
      assert before + [text[n]] == line + text;
      TypeThenErase(line, text[..n], erase);
      TypedAndErased(before, text[n], erase);
      assert text == text[..n] + [text[n]];
      EditedAllSnoc(line, text[..n], text[n]);
      var e := seq(n, _ => erase);
      assert seq(|text|, _ => erase) == [erase] + e;
      assert ([erase] + e)[1..] == e;
    }
  }

  lemma TypedAndErased(line: seq<byte>, c: byte, erase: byte)
    requires |line| < 127 && 32 <= c < 127 && (erase == 8 || erase == 127)
    ensures Edited(line, c) == line + [c] && Edited(line + [c], erase) == line
  {
  }

  lemma {:induction false} EditedAllSnoc(line: seq<byte>, keys: seq<byte>, c: byte)
    ensures EditedAll(line, keys + [c]) == Edited(EditedAll(line, keys), c)
    decreases |keys|
  {
    if keys == [] {
      assert [c][1..] == [];
    } else {
      assert (keys + [c])[1..] == keys[1..] + [c];
      EditedAllSnoc(Edited(line, keys[0]), keys[1..], c);
    }
  }

  class LineEditor {
    const inputBuffer: array<byte>
    var inputPos: nat

    ghost predicate Valid()
      reads this
    {
      inputBuffer.Length == BUFFER_SIZE && inputPos < BUFFER_SIZE
    }

    ghost function Line(): seq<byte>
      requires Valid()
      reads this, inputBuffer
    {
      inputBuffer[..inputPos]
    }

    constructor ()
      ensures Valid() && Line() == [] && fresh(inputBuffer)
    {
      inputBuffer := new byte[BUFFER_SIZE](_ => 0);
      inputPos := 0;
    }

    /** One key. Enter hands over the line, if it is not empty, for execution. */
    method ProcessInput(c: byte) returns (line: seq<byte>)
      requires Valid()
      modifies this, inputBuffer
      ensures Valid() && Line() == Edited(old(Line()), c)
      ensures line == if Enter(c) then old(Line()) else []
    {
      line := [];
      if c == 13 || c == 10 {
        if inputPos > 0 {
          inputBuffer[inputPos] := 0;
          line := inputBuffer[..inputPos];
          inputPos := 0;
        }
      } else if c == 8 || c == 0x7F {
        if inputPos > 0 {
          inputPos := inputPos - 1;
        }
      } else if c >= 32 && c < 127 {
        if inputPos < BUFFER_SIZE - 1 {
          inputBuffer[inputPos] := c;
          inputPos := inputPos + 1;
        } else {
          inputPos := 0;
        }
      }
    }
  }

  /** A line takes 127 characters; the next one typed empties it. */
  lemma FullLineIsLost(text: seq<byte>, next: byte)
    requires |text| == 127 && (forall i :: 0 <= i < |text| ==> 32 <= text[i] < 127) && 32 <= next < 127
    ensures EditedAll([], text) == text && EditedAll([], text + [next]) == []
  {
    FullLineEmptied(text, next);
    hide EditedAll, Edited;
    TypeThenErase([], text, 8);
    EditedAllSnoc([], text, next);
    assert [] + text == text;
  }

  lemma FullLineEmptied(line: seq<byte>, c: byte)
    requires |line| == 127 && 32 <= c < 127
    ensures Edited(line, c) == []
  {
  }

  /** Control characters other than return, newline and the two that erase are ignored, and so is what is not ASCII. */
  lemma OtherKeysIgnored(line: seq<byte>, c: byte)
    requires c > 127 || (c < 32 && c != 8 && c != 10 && c != 13)
    ensures EditedAll(line, [c]) == line
  {
    assert [c][1..] == [];
  }
}
