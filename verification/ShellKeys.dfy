/** The shell from the keys to the files: line editor, tokenizer and the `echo` and `cat` commands together. */
module ShellKeys {
  import opened Arithmetic
  import opened Bytes
  import opened Directory
  import opened FsRuns
  import opened ShellLine
  import opened ShellSpec

  const ECHO: seq<byte> := [101, 99, 104, 111]

  const CAT: seq<byte> := [99, 97, 116]

  const INTO: seq<byte> := [62]

  datatype Terminal = Terminal(line: seq<byte>, files: Files, output: seq<byte>)

  /** The words of a line as strings. */
  function Texts(s: seq<byte>, ws: seq<Span>): (r: seq<seq<byte>>)
    ensures |r| == |ws|
  {
    seq(|ws|, i requires 0 <= i < |ws| =>
      if ws[i].from <= ws[i].to <= |s| then s[ws[i].from..ws[i].to] else [])
  }

  /** What the tokenizer makes of a line: its first sixteen words. */
  function Argv(line: seq<byte>): seq<seq<byte>> {
    var ws := Texts(line, Words(line));
    if |ws| > MAX_ARGS then ws[..MAX_ARGS] else ws
  }

  /** The two commands modelled here; all others leave the files alone and print nothing. */
  function Execute(a: Files, argv: seq<seq<byte>>): (Files, seq<byte>) {
    if argv == [] then (a, [])
    else if argv[0] == ECHO then
      (if EchoUsage(argv) then Echo(a, argv[|argv| - 1], argv[1..|argv| - 2]).0 else a, [])
    else if argv[0] == CAT && |argv| >= 2 then (a, Cat(a, argv[1]).0)
    else (a, [])
  }

  function Pressed(t: Terminal, c: byte): Terminal {
    if Enter(c) then
      var (a, out) := Execute(t.files, Argv(t.line));
      Terminal([], a, t.output + out)
    else t.(line := Edited(t.line, c))
  }

  function PressedAll(t: Terminal, keys: seq<byte>): Terminal
    decreases |keys|
  {
    if keys == [] then t else PressedAll(Pressed(t, keys[0]), keys[1..])
  }

  // ----- the words of joined words -----

  lemma {:induction false} ScanPrefix(s: seq<byte>, t: seq<byte>, n: nat)
    requires n <= |s|
    ensures Scan(s + t, n) == Scan(s, n)
  {
    if n > 0 {
      ScanPrefix(s, t, n - 1);
    }
  }

  lemma {:induction false} ScanWord(s: seq<byte>, p: nat, n: nat)
    requires p < n <= |s| && Scan(s, p).start < 0 && forall i :: p <= i < n ==> !Blank(s[i])
    ensures Scan(s, n) == Progress(Scan(s, p).closed, p)
    decreases n
  {
    if n > p + 1 {
      ScanWord(s, p, n - 1);
    }
  }

  /** A word: some printable characters without blanks. */
  predicate Plain(w: seq<byte>) { w != [] && forall i :: 0 <= i < |w| ==> Printable(w[i]) && !Blank(w[i]) }

  lemma TextsMore(s: seq<byte>, t: seq<byte>, ws: seq<Span>, last: Span)
    requires forall w :: w in ws ==> w.from <= w.to <= |s|
    requires last.from <= last.to <= |s + t|
    ensures Texts(s + t, ws + [last]) == Texts(s, ws) + [(s + t)[last.from..last.to]]
  {
    var r := Texts(s + t, ws + [last]);
    forall i | 0 <= i < |ws| ensures r[i] == Texts(s, ws)[i] {
      assert ws[i] in ws && (ws + [last])[i] == ws[i];
      assert (s + t)[ws[i].from..ws[i].to] == s[ws[i].from..ws[i].to];
    }
  }

  /** The scan of words joined by spaces ends inside the last one, and has found the others. */
  lemma {:induction false} ScanJoin(ws: seq<seq<byte>>)
    requires ws != [] && forall i :: 0 <= i < |ws| ==> Plain(ws[i])
    ensures var s := Join(ws);
            var p := Scan(s, |s|);
            && 0 <= p.start <= |s| && (forall w :: w in p.closed ==> w.from <= w.to <= |s|)
            && Texts(s, p.closed + [Span(p.start, |s|)]) == ws
    decreases |ws|
  {
    hide Blank, Printable;
    var s := Join(ws);
    if |ws| == 1 {
      ScanWord(s, 0, |s|);
      assert [] + [Span(0, |s|)] == [Span(0, |s|)] && s[0..|s|] == s;
      assert Texts(s, [Span(0, |s|)]) == [s] == ws;
    } else {
      var init, last := ws[..|ws| - 1], ws[|ws| - 1];
      ScanJoin(init);
      JoinStep(Join(init), last, init);
      assert ws == init + [last];
    }
  }

  lemma JoinStep(s: seq<byte>, last: seq<byte>, init: seq<seq<byte>>)
    requires Plain(last) && var p := Scan(s, |s|);
             && 0 <= p.start <= |s| && (forall w :: w in p.closed ==> w.from <= w.to <= |s|)
             && Texts(s, p.closed + [Span(p.start, |s|)]) == init
    ensures var all := s + [SPACE] + last;
            var p := Scan(all, |all|);
            && 0 <= p.start <= |all| && (forall w :: w in p.closed ==> w.from <= w.to <= |all|)
            && Texts(all, p.closed + [Span(p.start, |all|)]) == init + [last]
  {
    hide Printable;
    var all, p, n := s + [SPACE] + last, Scan(s, |s|), |s| + 1;
    assert all == s + ([SPACE] + last);
    ScanPrefix(s, [SPACE] + last, |s|);
    assert Blank(all[|s|]);
    var closed := p.closed + [Span(p.start, |s|)];
    assert Scan(all, n) == Progress(closed, -1);
    assert forall i :: n <= i < |all| ==> all[i] == last[i - n];
    ScanWord(all, n, |all|);
    TextsMore(s, [SPACE] + last, closed, Span(n, |all|));
    assert all[n..|all|] == last;
  }

  /** Typed with single spaces between them, words come out of the tokenizer as they went in. */
  lemma ArgvOfJoin(ws: seq<seq<byte>>)
    requires 0 < |ws| <= MAX_ARGS && forall i :: 0 <= i < |ws| ==> Plain(ws[i])
    ensures Argv(Join(ws)) == ws
  {
    hide Join, Scan, Texts, Plain;
    ScanJoin(ws);
  }

  // ----- typing a line -----

  lemma {:induction false} TypeText(t: Terminal, text: seq<byte>)
    requires |t.line| + |text| < BUFFER_SIZE && forall i :: 0 <= i < |text| ==> Printable(text[i])
    ensures PressedAll(t, text) == t.(line := t.line + text)
    decreases |text|
  {
    hide Execute, Argv;
    if text == [] {
      assert t.line + text == t.line;
    } else {
      TypeText(t.(line := t.line + [text[0]]), text[1..]);
      assert t.line + [text[0]] + text[1..] == t.line + text;
    }
  }

  lemma {:induction false} PressedConcat(t: Terminal, x: seq<byte>, y: seq<byte>)
    ensures PressedAll(t, x + y) == PressedAll(PressedAll(t, x), y)
    decreases |x|
  {
    hide Pressed;
    if x == [] {
      assert x + y == y;
    } else {
      assert (x + y)[1..] == x[1..] + y;
      PressedConcat(Pressed(t, x[0]), x[1..], y);
    }
  }

  lemma {:induction false} JoinPrintable(ws: seq<seq<byte>>)
    requires forall i :: 0 <= i < |ws| ==> Plain(ws[i])
    ensures forall i :: 0 <= i < |Join(ws)| ==> Printable(Join(ws)[i])
  {
    if |ws| > 1 {
      JoinPrintable(ws[..|ws| - 1]);
    }
  }

  /** A line of words that fits is executed with exactly these words, on return or newline. */
  lemma TypeCommand(a: Files, output: seq<byte>, ws: seq<seq<byte>>, enter: byte)
    requires (enter == 13 || enter == 10) && 0 < |ws| <= MAX_ARGS && |Join(ws)| < BUFFER_SIZE
      && forall i :: 0 <= i < |ws| ==> Plain(ws[i])
    ensures var (b, out) := Execute(a, ws);
            PressedAll(Terminal([], a, output), Join(ws) + [enter]) == Terminal([], b, output + out)
  {
    hide Join, Execute, Argv, Plain;
    var t := Terminal([], a, output);
    JoinPrintable(ws);
    TypeText(t, Join(ws));
    assert [] + Join(ws) == Join(ws);
    PressedConcat(t, Join(ws), [enter]);
    ArgvOfJoin(ws);
    var typed := Terminal(Join(ws), a, output);
    assert PressedAll(typed, [enter]) == PressedAll(Pressed(typed, enter), []) by {
      assert [enter][1..] == [];
    }
  }

  /** The keys of `echo w1 .. wn > f`. */
  function EchoKeys(words: seq<seq<byte>>, name: seq<byte>): seq<seq<byte>> { [ECHO] + words + [INTO, name] }

  /**
   Typing `echo w1 .. wn > f` and return, and then `cat f` and return, prints what the
   file found held before, then the words joined by single spaces. It prints just these
   under the conditions of `EchoThenCatIff`, as when no file of that name is there yet.
   */
  lemma TypeEchoThenCat(a: Files, words: seq<seq<byte>>, name: seq<byte>, enter: byte)
    requires (enter == 13 || enter == 10) && words != [] && Plain(name) && forall i :: 0 <= i < |words| ==>
      Plain(words[i])
    requires |words| <= 13 && |Join(EchoKeys(words, name))| < 128 && |Join([CAT, name])| < 128
    requires Echo(a, name, words).1 == 0
    ensures var t := PressedAll(Terminal([], a, []),
                                Join(EchoKeys(words, name)) + [enter] + (Join([CAT, name]) + [enter]));
            && t.line == [] && t.files == Echo(a, name, words).0
            && t.output == CatText(Before(a, name) + Join(words))
            && (NewFirst(a, name) ==> t.output == Join(words))
  {
    hide Join, Echo, Cat, CatText, Before, NewFirst, PressedAll;
    var argv := EchoKeys(words, name);
    assert argv[0] == ECHO && argv[|argv| - 2] == INTO && argv[|argv| - 1] == name && argv[1..|argv| - 2] == words;
    assert Plain(ECHO) && Plain(INTO) && Plain(CAT);
    TypeCommand(a, [], argv, enter);
    var b := Echo(a, name, words).0;
    var none: seq<byte> := [];
    assert Execute(a, argv) == (b, []) && none + [] == none;
    assert PressedAll(Terminal([], a, []), Join(argv) + [enter]) == Terminal([], b, []);
    assert |CAT| != |ECHO| && Execute(b, [CAT, name]) == (b, Cat(b, name).0);
    TypeCommand(b, [], [CAT, name], enter);
    PressedConcat(Terminal([], a, []), Join(argv) + [enter], Join([CAT, name]) + [enter]);
    EchoThenCat(a, name, words);
    assert none + Cat(b, name).0 == Cat(b, name).0;
    WordsHaveNoZero(words);
    EchoThenCatIff(a, name, words);
    CatTextShort(Before(a, name));
  }

  lemma WordsHaveNoZero(words: seq<seq<byte>>)
    requires forall i :: 0 <= i < |words| ==> Plain(words[i])
    ensures forall i :: 0 <= i < |words| ==> 0 !in words[i]
  {
  }

  // ----- joined words -----

  function TotalLength(ws: seq<seq<byte>>): nat {
    if ws == [] then 0 else TotalLength(ws[..|ws| - 1]) + |ws[|ws| - 1]|
  }

  /** Between the words there is one character each, and the words come out again: it is a single space. */
  lemma {:induction false} JoinExact(ws: seq<seq<byte>>)
    requires ws != [] && forall i :: 0 <= i < |ws| ==> Plain(ws[i])
    ensures |Join(ws)| == TotalLength(ws) + |ws| - 1
    ensures forall i :: 0 <= i < |Join(ws)| && Blank(Join(ws)[i]) ==> Join(ws)[i] == 32
    ensures Texts(Join(ws), Words(Join(ws))) == ws
    decreases |ws|
  {
    ScanJoin(ws);
    if |ws| == 1 {
      assert ws[..0] == [];
    } else {
      JoinExact(ws[..|ws| - 1]);
    }
  }

  /** Tabs and runs of blanks separate words too, and blanks at either end do not count. */
  lemma TabsSeparate()
    ensures Argv([32, 97, 9, 32, 98, 98, 9]) == [[97], [98, 98]]
  {
    var s: seq<byte> := [32, 97, 9, 32, 98, 98, 9];
    assert Scan(s, 1) == Progress([], -1);
    assert Scan(s, 2) == Progress([], 1);
    assert Scan(s, 3) == Progress([Span(1, 2)], -1);
    assert Scan(s, 4) == Progress([Span(1, 2)], -1);
    assert Scan(s, 5) == Progress([Span(1, 2)], 4);
    assert Scan(s, 6) == Progress([Span(1, 2)], 4);
    assert Scan(s, 7) == Progress([Span(1, 2), Span(4, 6)], -1);
    assert s[1..2] == [97] && s[4..6] == [98, 98];
  }
}
