/** The shell's `echo` and `cat` as functions on the simple file system. */
module ShellSpec {
  import opened Arithmetic
  import opened Bytes
  import opened Directory
  import opened DirectoryOps
  import opened FsRuns
  import opened ShellLine

  const CHUNK := 127

  /** Words with single spaces between them. */
  function Join(words: seq<seq<byte>>): seq<byte> {
    if words == [] then []
    else if |words| == 1 then words[0]
    else Join(words[..|words| - 1]) + [SPACE] + words[|words| - 1]
  }

  /** What printing a file in chunks shows: each chunk up to its first zero byte. */
  function CatText(bytes: seq<byte>): seq<byte> {
    if bytes == [] then []
    else
      var n := Min(CHUNK, |bytes|);
      CString(bytes[..n], 0) + CatText(bytes[n..])
  }

  lemma {:induction false} CStringShort(s: seq<byte>, at: nat)
    requires at <= |s|
    ensures |CString(s, at)| <= |s| - at
    ensures 0 !in s[at..] ==> CString(s, at) == s[at..]
    ensures 0 in s[at..] ==> |CString(s, at)| < |s| - at
    decreases |s| - at
  {
    if at < |s| {
      CStringShort(s, at + 1);
      assert s[at..] == [s[at]] + s[at + 1..];
    }
  }

  lemma {:induction false} CatTextShort(bytes: seq<byte>)
    ensures |CatText(bytes)| <= |bytes|
    ensures 0 !in bytes ==> CatText(bytes) == bytes
    ensures 0 in bytes ==> |CatText(bytes)| < |bytes|
    decreases |bytes|
  {
    if bytes != [] {
      var n := Min(CHUNK, |bytes|);
      var head, tail := bytes[..n], bytes[n..];
      assert bytes == head + tail && head[0..] == head;
      CStringShort(head, 0);
      CatTextShort(tail);
    }
  }

  /** `cat` shows a file's bytes exactly if none of them is zero. */
  lemma CatShowsAllIff(bytes: seq<byte>)
    ensures CatText(bytes) == bytes <==> 0 !in bytes
  {
    CatTextShort(bytes);
  }

  /** The arguments of a well-formed `echo`: some words, something that begins with `>`, and a file name. */
  predicate EchoUsage(argv: seq<seq<byte>>) {
    |argv| >= 4 && |argv[|argv| - 2]| > 0 && argv[|argv| - 2][0] == 62
  }

  /** Creates an entry, opens the first file of that name and appends the words to it. */
  function Echo(a: Files, name: seq<byte>, words: seq<seq<byte>>): (Files, int) {
    if !NameLengthOk(name) then (a, -1)
    else
      var r := FindFree(a.slots, 0);
      var c := if r < |a.slots| then a.slots[r := File(Name83(name), [])] else a.slots;
      var q := Find(c, Name83(name), 0);
      if q < |c| && c[q].File? then (a.(slots := c[q := File(c[q].name, c[q].bytes + Join(words))]), 0)
      else (a.(slots := c), -1)
  }

  function Cat(a: Files, name: seq<byte>): (seq<byte>, int) {
    var q := Find(a.slots, Name83(name), 0);
    if q < |a.slots| && a.slots[q].File? then (CatText(a.slots[q].bytes), 0) else ([], -1)
  }

  // ----- echo, then cat -----

  /** A file put at a place that no file of its name precedes is the one found. */
  lemma FindPut(slots: seq<Slot>, name: seq<byte>, bytes: seq<byte>, q: nat)
    requires q < |slots| && forall i :: 0 <= i < q ==> !(slots[i].File? && slots[i].name == name)
    ensures Find(slots[q := File(name, bytes)], name, 0) == q
  {
    hide Find;
    var put := slots[q := File(name, bytes)];
    FindIs(put, name, 0);
    assert forall i :: 0 <= i < q ==> put[i] == slots[i];
    assert put[q] == File(name, bytes);
  }

  lemma {:induction false} JoinNoZero(words: seq<seq<byte>>)
    requires forall i :: 0 <= i < |words| ==> 0 !in words[i]
    ensures 0 !in Join(words)
  {
    if |words| > 1 {
      JoinNoZero(words[..|words| - 1]);
    }
  }

  /** The file that `echo` appends to already held these bytes. */
  function Before(a: Files, name: seq<byte>): seq<byte> {
    var r := FindFree(a.slots, 0);
    var c := if r < |a.slots| then a.slots[r := File(Name83(name), [])] else a.slots;
    var q := Find(c, Name83(name), 0);
    if q < |c| && c[q].File? then c[q].bytes else []
  }

  /** After a successful `echo`, `cat` shows what the file held before, then the words joined by spaces. */
  lemma EchoThenCat(a: Files, name: seq<byte>, words: seq<seq<byte>>)
    requires Echo(a, name, words).1 == 0
    ensures Cat(Echo(a, name, words).0, name) == (CatText(Before(a, name) + Join(words)), 0)
  {
    hide Find, FindFree, Name83, CatText, Join;
    var r := FindFree(a.slots, 0);
    var c := if r < |a.slots| then a.slots[r := File(Name83(name), [])] else a.slots;
    var q := Find(c, Name83(name), 0);
    FindIs(c, Name83(name), 0);
    FindPut(c, Name83(name), c[q].bytes + Join(words), q);
  }

  /** No file of that name comes before the place where `echo` creates its own. */
  predicate NewFirst(a: Files, name: seq<byte>) {
    FindFree(a.slots, 0) < Find(a.slots, Name83(name), 0)
  }

  // ----- zero bytes in the older file -----

  /** The text up to the first zero does not depend on what follows that zero. */
  lemma {:induction false} CStringAppend(s: seq<byte>, t: seq<byte>, at: nat)
    requires at <= |s| && 0 !in t
    ensures CString(s + t, at) == if 0 in s[at..] then CString(s, at) else s[at..] + t
    decreases |s| - at
  {
    if at == |s| {
      CStringShort(s + t, at);
      assert (s + t)[at..] == t == [] + t;
    } else {
      CStringAppend(s, t, at + 1);
      assert s[at..] == [s[at]] + s[at + 1..];
    }
  }

  /** How many bytes of a text of length `n` share a chunk with a zero byte of the `bytes` before it. */
  function Swallowed(bytes: seq<byte>, n: nat): (r: nat)
    ensures r <= n
  {
    var last := |bytes| % CHUNK;
    if 0 in bytes[|bytes| - last..] then Min(CHUNK - last, n) else 0
  }

  /** The first chunk, then the rest. */
  lemma CatChunk(bytes: seq<byte>)
    requires bytes != []
    ensures var n := Min(CHUNK, |bytes|); CatText(bytes) == CString(bytes[..n], 0) + CatText(bytes[n..])
  {
  }

  lemma CatAppendShort(bytes: seq<byte>, text: seq<byte>)
    requires 0 !in text && 0 < |bytes| < CHUNK
    ensures CatText(bytes + text) == CatText(bytes) + text[Swallowed(bytes, |text|)..]
  {
    hide CString, CatText, Swallowed;
    var k := Min(CHUNK - |bytes|, |text|);
    var all := bytes + text;
    CatChunk(all);
    CatChunk(bytes);
    assert all[..|bytes| + k] == bytes + text[..k] && all[|bytes| + k..] == text[k..];
    assert bytes[..|bytes|] == bytes && bytes[|bytes|..] == [];
    CatTextShort([]);
    CatTextShort(text[k..]);
    assert CString(bytes, 0) + [] == CString(bytes, 0);
    ShortChunk(bytes, text, k);
  }

  lemma SwallowedShort(bytes: seq<byte>, n: nat)
    requires 0 < |bytes| < CHUNK
    ensures Swallowed(bytes, n) == if 0 in bytes then Min(CHUNK - |bytes|, n) else 0
  {
    assert bytes[0..] == bytes;
  }

  lemma ShortChunk(bytes: seq<byte>, text: seq<byte>, k: nat)
    requires 0 !in text && 0 < |bytes| < CHUNK && k == Min(CHUNK - |bytes|, |text|)
    ensures CString(bytes + text[..k], 0) + text[k..] == CString(bytes, 0) + text[Swallowed(bytes, |text|)..]
  {
    hide CString, Swallowed;
    CStringAppend(bytes, text[..k], 0);
    CStringShort(bytes, 0);
    SwallowedShort(bytes, |text|);
    assert bytes[0..] == bytes;
    Regroup(bytes, text, k);
  }

  lemma Regroup(s: seq<byte>, t: seq<byte>, k: nat)
    requires k <= |t|
    ensures (s + t[..k]) + t[k..] == s + t[0..]
  {
  }

  lemma FirstChunk(bytes: seq<byte>, head: seq<byte>, tail: seq<byte>)
    requires bytes == head + tail && |head| == CHUNK
    ensures CatText(bytes) == CString(head, 0) + CatText(tail)
  {
    hide CString, CatText;
    CatChunk(bytes);
    assert bytes[..CHUNK] == head && bytes[CHUNK..] == tail;
  }

  lemma Regrouped(r: seq<byte>, s: seq<byte>, t: seq<byte>)
    ensures r + (s + t) == (r + s) + t
  {
  }

  /** What `cat` shows of bytes with a text behind them: the bytes as before, and the text but for what is swallowed. */
  lemma {:induction false} CatAppend(bytes: seq<byte>, text: seq<byte>)
    requires 0 !in text
    ensures CatText(bytes + text) == CatText(bytes) + text[Swallowed(bytes, |text|)..]
    decreases |bytes|
  {
    hide CString, CatText, Swallowed;
    if bytes == [] {
      CatTextShort(text);
      CatTextShort([]);
      assert Swallowed([], |text|) == 0 by { SwallowedNone(|text|); }
      assert bytes + text == text == [] + text[0..];
    } else if |bytes| >= CHUNK {
      var head, tail := bytes[..CHUNK], bytes[CHUNK..];
      CatAppend(tail, text);
      FirstChunk(bytes, head, tail);
      FirstChunk(bytes + text, head, tail + text);
      SwallowedTail(bytes, |text|);
      Regrouped(CString(head, 0), CatText(tail), text[Swallowed(tail, |text|)..]);
    } else {
      CatAppendShort(bytes, text);
    }
  }

  lemma SwallowedNone(n: nat)
    ensures Swallowed([], n) == 0
  {
  }

  lemma SwallowedTail(bytes: seq<byte>, n: nat)
    requires |bytes| >= CHUNK
    ensures Swallowed(bytes, n) == Swallowed(bytes[CHUNK..], n)
  {
    var tail, last := bytes[CHUNK..], |bytes| % CHUNK;
    assert |tail| % CHUNK == last;
    assert tail[|tail| - last..] == bytes[|bytes| - last..];
  }

  /**
   `echo w1 .. wn > f; cat f` prints the words joined by single spaces exactly when what
   `cat` shows of the older bytes is the part of the words that their zero bytes
   swallow. If no older file of that name is found first, there are no older bytes.
   */
  lemma EchoThenCatIff(a: Files, name: seq<byte>, words: seq<seq<byte>>)
    requires Echo(a, name, words).1 == 0
    requires forall i :: 0 <= i < |words| ==> 0 !in words[i]
    ensures var text, older := Join(words), Before(a, name);
            Cat(Echo(a, name, words).0, name) == (text, 0) <==> CatText(older) == text[..Swallowed(older, |text|)]
    ensures NewFirst(a, name) ==> Before(a, name) == []
    ensures 0 !in Before(a, name) ==>
      (Cat(Echo(a, name, words).0, name) == (Join(words), 0) <==> Before(a, name) == [])
  {
    hide Find, FindFree, Name83, Join, CatText, Before, Echo, Cat, Swallowed;
    EchoThenCat(a, name, words);
    JoinNoZero(words);
    var text, older := Join(words), Before(a, name);
    CatAppend(older, text);
    var k := Swallowed(older, |text|);
    assert text[..k] + text[k..] == text;
    if CatText(older) + text[k..] == text {
      assert CatText(older) == (CatText(older) + text[k..])[..k];
    }
    CatTextShort(older);
    NoZeroSwallowsNone(older, |text|);
    if NewFirst(a, name) {
      NewHasNone(a, name);
    }
  }

  lemma NoZeroSwallowsNone(bytes: seq<byte>, n: nat)
    ensures 0 !in bytes ==> Swallowed(bytes, n) == 0
  {
  }

  lemma NewHasNone(a: Files, name: seq<byte>)
    requires NewFirst(a, name)
    ensures Before(a, name) == []
  {
    hide Find, FindFree, Name83;
    var r := FindFree(a.slots, 0);
    FindFreeIs(a.slots, 0);
    FindIs(a.slots, Name83(name), 0);
    FindPut(a.slots, Name83(name), [], r);
  }

  /** An older file of 127 zero bytes, one whole chunk, does not show: `cat` prints just the words. */
  lemma ZeroChunkDoesNotShow(a: Files, name: seq<byte>, words: seq<seq<byte>>)
    requires Echo(a, name, words).1 == 0 && Before(a, name) == Fill(0, 127)
    requires forall i :: 0 <= i < |words| ==> 0 !in words[i]
    ensures Cat(Echo(a, name, words).0, name) == (Join(words), 0)
  {
    hide Find, FindFree, Name83, Join, Before, Echo, Cat;
    EchoThenCatIff(a, name, words);
    var older := Fill(0, CHUNK);
    assert older[..CHUNK] == older && older[CHUNK..] == [];
    assert CString(older, 0) == [] && CatText(older) == [] + CatText([]);
  }

  // ----- what the commands answer -----

  /** A file of that stored name is there. */
  ghost predicate Holds(a: Files, name: seq<byte>) {
    exists k :: 0 <= k < |a.slots| && a.slots[k].File? && a.slots[k].name == Name83(name)
  }

  /**
   `cat` answers 0 exactly if there is a file of that name. `echo` answers 0 exactly if the
   name has one to twelve bytes and there is such a file or a slot for a new one, and
   otherwise -1, with no file changed.
   */
  lemma CommandsAnswer(a: Files, name: seq<byte>, words: seq<seq<byte>>)
    ensures Cat(a, name).1 == if Holds(a, name) then 0 else -1
    ensures !Holds(a, name) ==> Cat(a, name).0 == []
    ensures var (b, r) := Echo(a, name, words);
            && r == (if 1 <= |name| <= 12 && (Holds(a, name) || exists k :: 0 <= k < |a.slots| && !a.slots[k].File?)
                     then 0 else -1)
            && (r == -1 ==> b == a) && (r == 0 ==> Holds(b, name))
  {
    hide Find, FindFree, Name83, CatText, Join;
    FindIs(a.slots, Name83(name), 0);
    FindFreeIs(a.slots, 0);
    var r := FindFree(a.slots, 0);
    var c := if r < |a.slots| then a.slots[r := File(Name83(name), [])] else a.slots;
    FindIs(c, Name83(name), 0);
    var q := Find(c, Name83(name), 0);
    if r < |a.slots| {
      assert c[r] == File(Name83(name), []);
    }
    if 1 <= |name| <= 12 && q < |c| {
      assert Echo(a, name, words).0.slots[q].File?;
    }
  }
}
