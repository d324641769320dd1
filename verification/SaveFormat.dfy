/** What the editor writes to a file and what it makes of a file it reads
    (src/tools/editor.c:149-239), on values. */
module SaveFormat {
  import opened Common
  import opened CString
  import opened TextBuffer

  /** A file holds at most 4096 bytes; the editor reads at most 4095 of them. */
  const FILE_SIZE: nat := 4096

  /** The pieces between newlines; a text without newlines is one piece. */
  function Split(s: string): (r: seq<string>)
    ensures r != []
    decreases |s|
  {
    if s == "" then [""]
    else
      var ls, c := Split(s[..|s| - 1]), s[|s| - 1];
      if c == '\n' then ls + [""] else ls[..|ls| - 1] + [ls[|ls| - 1] + [c]]
  }

  /** A line as the buffer can hold it: cut to 79 characters, and read up to a NUL. */
  function Clip(l: string): (r: string) { CStr(l[..Min(|l|, LINE_LEN - 1)]) }

  /** How many lines opening keeps: not an empty last piece after a newline, and at most 256. */
  function Kept(ls: seq<string>): (n: nat)
    requires ls != []
    ensures 1 <= n <= |ls| && n <= MAX_LINES
  {
    Min(if 1 < |ls| && ls[|ls| - 1] == "" then |ls| - 1 else |ls|, MAX_LINES)
  }

  function ClipAll(ls: seq<string>): (r: seq<string>)
    ensures |r| == |ls|
  {
    seq(|ls|, i requires 0 <= i < |ls| => Clip(ls[i]))
  }

  /** The lines the editor shows for a file's contents. */
  function Load(data: string): (r: seq<string>) {
    ClipAll(Split(data)[..Kept(Split(data))])
  }

  function Truncate(s: string, n: nat): (r: string)
    ensures |r| == Min(|s|, n) && r <= s
  { s[..Min(|s|, n)] }

  /** What a file holds once a text was saved to it; `slot` says whether it has a slot. */
  function Saved(text: string, slot: bool): (r: Option<string>) {
    if text == "" || !slot then None else Some(Truncate(text, FILE_SIZE))
  }

  /** Saving answers success either way, but the whole text is there exactly if it is empty, or
      fits and has a slot. */
  lemma SavedWholeIff(text: string, slot: bool)
    ensures Saved(text, slot) == (if text == "" then None else Some(text))
       <==> text == "" || (|text| <= FILE_SIZE && slot)
  {
    assert Truncate(text, FILE_SIZE) == text <==> |text| <= FILE_SIZE;
  }

  /** Saving a document and opening the file again; an empty text leaves no file. */
  function Reopen(doc: seq<string>): (r: seq<string>)
    requires doc != []
  {
    Load(Truncate(Text(doc), FILE_SIZE - 1))
  }

  /** The text is read back in full and does not end in an empty line after others. */
  predicate Survives(doc: seq<string>) {
    doc != [] && |Text(doc)| < FILE_SIZE && (|doc| == 1 || doc[|doc| - 1] != "")
  }

  predicate Clean(doc: seq<string>) {
    1 <= |doc| <= MAX_LINES && forall i | 0 <= i < |doc| :: LineOk(doc[i]) && '\0' !in doc[i]
  }

  // ------------------------------------------------------------ split and join

  lemma {:induction false} SplitAppend(s: string, l: string)
    requires '\n' !in l
    ensures var ls := Split(s); Split(s + l) == ls[..|ls| - 1] + [ls[|ls| - 1] + l]
    decreases |l|
  {
    var ls := Split(s);
    if l == "" {
      assert s + l == s && ls[|ls| - 1] + l == ls[|ls| - 1];
    } else {
      var k := |l| - 1;
      SplitAppend(s, l[..k]);
      assert (s + l)[..|s + l| - 1] == s + l[..k];
      assert l[k] in l && (s + l)[|s + l| - 1] == l[k];
      assert ls[|ls| - 1] + l[..k] + [l[k]] == ls[|ls| - 1] + l;
    }
  }

  lemma SplitLine(s: string)
    ensures Split(s + "\n") == Split(s) + [""]
  {
    assert (s + "\n")[..|s + "\n"| - 1] == s;
  }

  lemma {:induction false} SplitEnded(ls: seq<string>)
    requires forall i | 0 <= i < |ls| :: '\n' !in ls[i]
    ensures Split(Ended(ls)) == ls + [""]
    decreases |ls|
  {
    if ls != [] {
      var n := |ls| - 1;
      var e := Ended(ls[..n]);
      SplitEnded(ls[..n]);
      SplitAppend(e, ls[n]);
      assert "" + ls[n] == ls[n];
      assert Split(e + ls[n]) == ls[..n] + [ls[n]] == ls;
      SplitLine(e + ls[n]);
    }
  }

  /** Splitting what joining produced gives the lines back. */
  lemma SplitText(doc: seq<string>)
    requires doc != [] && forall i | 0 <= i < |doc| :: '\n' !in doc[i]
    ensures Split(Text(doc)) == doc
  {
    var n := |doc| - 1;
    SplitEnded(doc[..n]);
    SplitAppend(Ended(doc[..n]), doc[n]);
    assert "" + doc[n] == doc[n];
    assert (doc[..n] + [""])[..n] == doc[..n];
    assert doc[..n] + [doc[n]] == doc;
  }

  /** Joining what splitting produced gives the text back. */
  lemma {:induction false} TextSplit(s: string)
    ensures Text(Split(s)) == s
    decreases |s|
  {
    if s == "" {
      assert Split(s)[..0] == [];
    } else {
      var init, c := s[..|s| - 1], s[|s| - 1];
      var ls := Split(init);
      TextSplit(init);
      if c == '\n' {
        assert (ls + [""])[..|ls|] == ls;
        assert Ended(ls) == Text(ls) + "\n";
      } else {
        var r := Split(s);
        assert r[..|r| - 1] == ls[..|ls| - 1];
      }
      assert s == init + [c];
    }
  }

  lemma EndedText(doc: seq<string>)
    requires doc != []
    ensures Ended(doc) == Text(doc) + "\n"
  {
  }

  lemma {:induction false} ShorterText(a: seq<string>, b: seq<string>)
    requires |a| <= |b| && forall i | 0 <= i < |a| :: |a[i]| <= |b[i]|
    ensures |Ended(a)| <= |Ended(b)|
    decreases |b|
  {
    if b != [] {
      ShorterText(if |a| == |b| then a[..|a| - 1] else a, b[..|b| - 1]);
    }
  }

  // ------------------------------------------------------------- round trip

  lemma ClipClean(doc: seq<string>)
    requires forall i | 0 <= i < |doc| :: LineOk(doc[i]) && '\0' !in doc[i]
    ensures ClipAll(doc) == doc
  {
    forall i | 0 <= i < |doc| ensures Clip(doc[i]) == doc[i] {
      CStrClean(doc[i]);
      assert doc[i][..|doc[i]|] == doc[i];
    }
  }

  lemma LoadNoLonger(data: string)
    ensures |Ended(Load(data))| <= |data| + 1
  {
    TextSplit(data);
    EndedText(Split(data));
    ShorterText(Load(data), Split(data));
  }

  /** Saving and opening gives back exactly the lines, if and only if the text fits the 4095
      bytes that are read and does not end in an empty line after others. */
  lemma ReopenIff(doc: seq<string>)
    requires Clean(doc)
    ensures Reopen(doc) == doc <==> Survives(doc)
  {
    var t := Text(doc);
    if |t| < FILE_SIZE {
      assert Truncate(t, FILE_SIZE - 1) == t;
      SplitText(doc);
      ClipClean(doc[..Kept(doc)]);
      assert doc[..|doc|] == doc;
    } else {
      LoadNoLonger(Truncate(t, FILE_SIZE - 1));
      EndedText(doc);
    }
  }

  lemma {:induction false} EndedUniform(l: string, n: nat)
    ensures |Ended(seq(n, _ => l))| == n * (|l| + 1)
  {
    if 0 < n {
      EndedUniform(l, n - 1);
      assert seq(n, _ => l)[..n - 1] == seq(n - 1, _ => l);
    }
  }

  /** Fifty-two lines of 79 characters do not fit a file, nor does the buffer refuse them. */
  lemma TooLongExample()
    ensures var doc := seq(52, _ => seq(79, _ => 'a')); Clean(doc) && |Text(doc)| == 4159 && !Survives(doc)
  {
    var l: string := seq(79, _ => 'a');
    var doc := seq(52, _ => l);
    EndedUniform(l, 51);
    assert doc[..51] == seq(51, _ => l);
  }

  lemma TextOfTwo()
    ensures Text(["a", ""]) == "a\n"
  {
    assert ["a", ""][..1] == ["a"] && ["a"][..0] == [];
    EndedSnoc([], "a");
    assert [] + ["a"] == ["a"];
  }

  /** An empty last line is lost. */
  lemma EmptyLastLineLost()
    ensures Clean(["a", ""]) && Reopen(["a", ""]) == ["a"]
  {
    hide Text, Split, ClipAll, Clip;
    var doc := ["a", ""];
    TextOfTwo();
    assert "a\n"[..2] == "a\n";
    assert Truncate("a\n", FILE_SIZE - 1) == "a\n";
    SplitText(doc);
    assert doc[..1] == ["a"];
    ClipClean(["a"]);
  }

  lemma {:induction false} SplitClean(s: string)
    ensures forall i | 0 <= i < |Split(s)| :: '\n' !in Split(s)[i]
    decreases |s|
  {
    if s != "" { SplitClean(s[..|s| - 1]); }
  }

  /** A line is shown up to the first NUL or the 79th character, whichever comes first. */
  lemma ClipLongest(l: string, k: nat)
    requires k <= |l|
    ensures Clip(l) <= l
    ensures k <= |Clip(l)| <==> k <= 79 && '\0' !in l[..k]
  {
    var r := l[..Min(|l|, 79)];
    assert Clip(l) == r[..|Clip(l)|] == l[..|Clip(l)|];
    if k <= |r| {
      CStrLongest(r, k);
      assert r[..k] == l[..k];
    }
  }

  lemma {:induction false} SplitCount(s: string)
    ensures |Split(s)| == Newlines(s) + 1
    decreases |s|
  {
    if s != "" {
      var k := |s| - 1;
      SplitCount(s[..k]);
      assert s == s[..k] + [s[k]];
      NewlinesAppend(s[..k], [s[k]]);
      assert [s[k]][1..] == "";
    }
  }

  lemma SplitLast(s: string)
    ensures var ls := Split(s); ls[|ls| - 1] == "" <==> s == "" || s[|s| - 1] == '\n'
  {
  }

  /** Opening shows as many lines as the file has, a final newline beginning none, and at most 256. */
  lemma LoadCount(data: string)
    ensures |Load(data)| == Min(256, Newlines(data) + if data == "" || data[|data| - 1] != '\n' then 1 else 0)
  {
    SplitCount(data);
    SplitLast(data);
  }

  /** The lines shown are the pieces between newlines, clipped, in order. */
  lemma LoadShows(data: string, i: nat)
    requires i < |Load(data)|
    ensures i < |Split(data)| && Load(data)[i] == Clip(Split(data)[i])
  {
  }

  /** What opening shows is again a document the editor can work on. */
  lemma LoadClean(data: string)
    ensures Clean(Load(data))
  {
    SplitClean(data);
    var ls := Split(data);
    var r := Load(data);
    forall i | 0 <= i < |r| ensures LineOk(r[i]) && '\0' !in r[i] {
      assert '\n' !in ls[i];
      assert forall c | c in Clip(ls[i]) :: c in ls[i];
    }
  }
}
