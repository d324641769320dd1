/** The text editor of src/tools/editor.c: an array of NUL-terminated 80-byte lines and a
    cursor, changed in place by shifting loops.  It refines the views of TextBuffer. */
module Editor {
  import opened Common
  import opened CString
  import opened TextBuffer
  import opened SaveFormat
  import Tmpfs

  const NAME_LEN: nat := 64

  // ------------------------------------------------------------ within a line

  /** The shifting loop of editor_insert_char. */
  method InsertInLine(line: array<char>, x: nat, c: char)
    requires line.Length == LINE_LEN && Terminated(line[..]) && x <= |CStr(line[..])| < LINE_LEN - 1 && c != '\0'
    modifies line
    ensures Terminated(line[..])
    ensures CStr(line[..]) == old(CStr(line[..])[..x] + [c] + CStr(line[..])[x..])
  {
    hide CStr;
    ghost var l := CStr(line[..]);
    var len := Strlen(line);
    var i := len;
    while x <= i
      invariant x - 1 <= i <= len
      invariant forall k | 0 <= k <= i + 1 :: line[k] == old(line[k])
      invariant forall k | i + 2 <= k <= len + 1 :: line[k] == old(line[k - 1])
    {
      var dst := i + 1;
      if dst <= 79 { line[dst] := line[i]; }
      i := i - 1;
    }
    line[x] := c;
    line[len + 1] := '\0';
    ghost var r := l[..x] + [c] + l[x..];
    assert line[..][..len + 1] == r by {
      assert forall k | 0 <= k < len :: l[k] == old(line[..])[k];
    }
    CStrIs(line[..], r);
  }

  /** The shifting loop of editor_delete_char. */
  method DeleteInLine(line: array<char>, x: nat)
    requires Terminated(line[..]) && 0 < x <= |CStr(line[..])|
    modifies line
    ensures Terminated(line[..])
    ensures CStr(line[..]) == old(CStr(line[..])[..x - 1] + CStr(line[..])[x..])
  {
    ghost var l, s := CStr(line[..]), line[..];
    var len := Strlen(line);
    for i := x - 1 to len
      invariant forall k | 0 <= k < x - 1 :: line[k] == s[k]
      invariant forall k | x - 1 <= k < i :: line[k] == s[k + 1]
      invariant forall k | i <= k < line.Length :: line[k] == s[k]
    {
      line[i] := line[i + 1];
    }
    ghost var r := l[..x - 1] + l[x..];
    assert line[..][..len - 1] == r by {
      assert forall k | 0 <= k < len :: l[k] == s[k];
    }
    CStrIs(line[..], r);
  }

  // --------------------------------------------------------- between lines

  /** The array with the lines below y moved down by one. */
  function Gapped(s: seq<string>, y: nat, n: nat): (r: seq<string>)
    requires y < n < |s|
    ensures |r| == |s|
  {
    s[..y + 2] + s[y + 1..n] + s[n + 1..]
  }

  lemma GapLine(s: seq<string>, y: nat, n: nat)
    requires y < n < |s|
    ensures Gapped(s, y, n)[y] == s[y]
  {
  }

  /** ... and then line y cut at column x, its tail on line y + 1. */
  function Broken(s: seq<string>, y: nat, x: nat, n: nat): (r: seq<string>)
    requires y < n < |s| && x <= |s[y]|
    ensures |r| == |s|
  {
    var g := Gapped(s, y, n);
    g[y + 1 := s[y][x..]][y := s[y][..x]]
  }

  lemma BrokenIsBreak(s: seq<string>, n: nat, v: View)
    requires n < |s| && TextBuffer.Valid(v) && v.doc == s[..n] && n < MAX_LINES
    ensures Break(v) == View(Broken(s, v.y, v.x, n)[..n + 1], 0, v.y + 1, v.scroll)
  {
    var r := Broken(s, v.y, v.x, n);
    var d := Break(v).doc;
    assert forall i | 0 <= i < n + 1 :: r[i] == d[i];
  }

  /** The array with line y appended to the one above and the lines below moved up. */
  function Joined(s: seq<string>, y: nat, n: nat): (r: seq<string>)
    requires 0 < y < n <= |s|
    ensures |r| == |s|
  {
    var s1 := s[y - 1 := s[y - 1] + s[y]];
    s1[..y] + s1[y + 1..n] + s1[n - 1..]
  }

  lemma JoinedIsErase(s: seq<string>, n: nat, v: View)
    requires n <= |s| && TextBuffer.Valid(v) && v.doc == s[..n] && v.x == 0 && 0 < v.y
    requires |v.doc[v.y - 1]| + |v.doc[v.y]| < LINE_LEN
    ensures Erase(v) == View(Joined(s, v.y, n)[..n - 1], |s[v.y - 1]|, v.y - 1, v.scroll)
  {
    var r := Joined(s, v.y, n);
    var d := Erase(v).doc;
    assert forall i | 0 <= i < n - 1 :: r[i] == d[i];
  }

  /** One step of the loop that closes the gap. */
  function Closing(s: seq<string>, y: nat, i: nat): (r: seq<string>)
    requires y < |s| && y <= i < |s|
    ensures |r| == |s|
  {
    s[..y] + s[y + 1..i + 1] + s[i..]
  }

  lemma ClosingNext(s: seq<string>, y: nat, i: nat)
    requires y <= i && i + 1 < |s|
    ensures Closing(s, y, i)[i + 1] == s[i + 1]
    ensures Closing(s, y, i)[i := s[i + 1]] == Closing(s, y, i + 1)
  {
  }

  /** One step of the loop that opens a gap. */
  function Opening(s: seq<string>, i: nat, n: nat): (r: seq<string>)
    requires i <= n < |s|
    ensures |r| == |s|
  {
    s[..i + 1] + s[i..n] + s[n + 1..]
  }

  lemma OpeningStart(s: seq<string>, n: nat)
    requires n < |s|
    ensures Opening(s, n, n) == s
  {
  }

  lemma GappedIsOpening(s: seq<string>, y: nat, n: nat)
    requires y < n < |s|
    ensures Gapped(s, y, n) == Opening(s, y + 1, n)
  {
  }

  lemma OpeningNext(s: seq<string>, i: nat, n: nat)
    requires 0 < i <= n < |s|
    ensures Opening(s, i, n)[i - 1] == s[i - 1]
    ensures Opening(s, i, n)[i := s[i - 1]] == Opening(s, i - 1, n)
  {
  }

  // ---------------------------------------------------------------- reading

  /** A row of the array that holds as much of l as fits, and zeros after it. */
  predicate RowHolds(row: seq<char>, l: string) {
    var m := Min(|l|, LINE_LEN - 1);
    |row| == LINE_LEN && row[..m] == l[..m] && forall j | m <= j < LINE_LEN :: row[j] == '\0'
  }

  lemma RowIsClip(row: seq<char>, l: string)
    requires RowHolds(row, l)
    ensures Terminated(row) && CStr(row) == Clip(l)
  {
    var m := Min(|l|, LINE_LEN - 1);
    var c := Clip(l);
    assert row[..|c|] == row[..m][..|c|] == l[..m][..|c|] == c;
    assert row[|c|] == '\0' by { if |c| < m { assert row[|c|] == row[..m][|c|] == l[..m][|c|]; } }
    CStrIs(row, c);
  }

  lemma RowTakes(row: seq<char>, l: string, c: char)
    requires RowHolds(row, l)
    ensures RowHolds(if |l| < LINE_LEN - 1 then row[|l| := c] else row, l + [c])
  {
    var r := if |l| < LINE_LEN - 1 then row[|l| := c] else row;
    var m := Min(|l| + 1, LINE_LEN - 1);
    if |l| < LINE_LEN - 1 { assert r[..m] == row[..|l|] + [c] == l + [c]; } else { assert (l + [c])[..m] == l[..m]; }
  }

  /** All but the last piece of a prefix are pieces of the whole. */
  lemma {:induction false} SplitPrefix(data: string, i: nat)
    requires i <= |data|
    ensures var a, b := Split(data[..i]), Split(data);
            |a| <= |b| && a[..|a| - 1] == b[..|a| - 1]
    decreases |data| - i
  {
    if i == |data| {
      assert data[..i] == data;
    } else {
      SplitPrefix(data, i + 1);
      assert data[..i + 1][..i] == data[..i];
      var a, c := Split(data[..i]), Split(data[..i + 1]);
      assert a[..|a| - 1] == c[..|a| - 1];
      assert c[..|c| - 1][..|a| - 1] == Split(data)[..|c| - 1][..|a| - 1];
    }
  }

  lemma SplitEmpty(s: string)
    ensures Split(s[..0]) == [""]
  {
  }

  lemma SplitNext(s: string, i: nat)
    requires i < |s|
    ensures var ls := Split(s[..i]);
            Split(s[..i + 1]) == if s[i] == '\n' then ls + [""] else ls[..|ls| - 1] + [ls[|ls| - 1] + [s[i]]]
  {
    assert s[..i + 1][..i] == s[..i];
  }

  /** Where the parsing loop stops, its pieces are those that opening keeps. */
  lemma ParseDone(buf: string, i: nat, ls: seq<string>, line: nat)
    requires i <= |buf| && ls == Split(buf[..i]) && line == |ls| - 1 <= 256 && (i == |buf| || line == 256)
    requires line == 256 ==> ls[line] == ""
    ensures var n, r := if ls[line] != "" || line == 0 then line + 1 else line, Split(buf);
            && n == Kept(r)
            && forall k | 0 <= k < 256 :: (if k < n then r[k] else "") == if k < |ls| then ls[k] else ""
  {
    SplitPrefix(buf, i);
    assert buf[..|buf|] == buf;
    assert forall k | 0 <= k < line :: ls[..line][k] == ls[k] && Split(buf)[..line][k] == Split(buf)[k];
  }

  // ------------------------------------------------------------------- keys

  datatype Input = Quit | SaveFile | Press(k: Key) | Ignored

  /** What editor_run makes of a byte from the keyboard. */
  function Decode(c: int): (r: Input) {
    if c == 0x11 then Quit
    else if c == 0x13 then SaveFile
    else if c == 0x0A then Press(Newline)
    else if c == 0x08 then Press(Backspace)
    else if c == 0xF1 then Press(Up)
    else if c == 0xF2 then Press(Down)
    else if c == 0xF3 then Press(Left)
    else if c == 0xF4 then Press(Right)
    else if c == 0xF5 then Press(Home)
    else if c == 0xF6 then Press(End)
    else if c == 0xF7 then Press(PageUp)
    else if c == 0xF8 then Press(PageDown)
    else if 32 <= c < 127 then Press(Char(c as char))
    else Ignored
  }

  /** The key codes of src/drivers/keyboard.h, the control characters, and printable ASCII; every
      other byte is ignored. */
  lemma KeyCodes()
    ensures Decode(0xF1) == Press(Up) && Decode(0xF2) == Press(Down) && Decode(0xF3) == Press(Left)
    ensures Decode(0xF4) == Press(Right) && Decode(0xF5) == Press(Home) && Decode(0xF6) == Press(End)
    ensures Decode(0xF7) == Press(PageUp) && Decode(0xF8) == Press(PageDown)
    ensures Decode('\n' as int) == Press(Newline) && Decode(8) == Press(Backspace)
    ensures Decode(17) == Quit && Decode(19) == SaveFile
    ensures forall c: char | ' ' <= c <= '~' :: Decode(c as int) == Press(Char(c))
    ensures forall c | Decode(c) != Ignored ::
              ' ' as int <= c <= '~' as int || 0xF1 <= c <= 0xF8 || c in {8, 10, 17, 19}
  {
  }

  // ---------------------------------------------------------------- writing

  /** What the save buffer holds once i lines of doc are in it. */
  function Written(doc: seq<string>, i: nat): (r: string)
    requires 0 < |doc| && i <= |doc|
  {
    if i == |doc| then Text(doc) else Ended(doc[..i])
  }

  lemma WrittenNext(doc: seq<string>, i: nat)
    requires i < |doc|
    ensures Written(doc, i + 1) == Written(doc, i) + doc[i] + if i + 1 < |doc| then "\n" else ""
  {
    assert doc[..i + 1][..i] == doc[..i];
    assert i + 1 == |doc| ==> Text(doc) == Ended(doc[..i]) + doc[i];
  }

  lemma {:induction false} WrittenBound(doc: seq<string>, i: nat)
    requires 0 < |doc| && i <= |doc| && forall k | 0 <= k < |doc| :: |doc[k]| < LINE_LEN
    ensures |Written(doc, i)| <= 80 * i
  {
    if 0 < i {
      WrittenBound(doc, i - 1);
      WrittenNext(doc, i - 1);
    } else {
      assert Ended(doc[..0]) == "";
    }
  }

  class Editor {
    const lines: seq<array<char>>
    var lineCount: nat
    var cursorX: nat
    var cursorY: nat
    var scrollY: nat
    var filename: string
    var modified: bool
    var running: bool

    /** The storage: 256 separate arrays of 80 characters, each holding a string. */
    ghost predicate Shaped()
      reads lines
    {
      && |lines| == MAX_LINES
      && (forall i | 0 <= i < 256 :: lines[i].Length == LINE_LEN && Terminated(lines[i][..]))
      && (forall i, j | 0 <= i < j < 256 :: lines[i] != lines[j])
    }

    ghost function Strings(): (r: seq<string>)
      reads lines
      ensures |r| == |lines|
    {
      seq(|lines|, i requires 0 <= i < |lines| reads lines => CStr(lines[i][..]))
    }

    ghost function Abstract(): (r: View)
      requires lineCount <= |lines|
      reads this, lines
    {
      View(Strings()[..lineCount], cursorX, cursorY, scrollY)
    }

    ghost predicate Valid()
      reads this, lines
    {
      Shaped() && 1 <= lineCount <= MAX_LINES && TextBuffer.Valid(Abstract())
    }

    // ------------------------------------------------------ one line changes

    /** Only line y differs. */
    twostate lemma LineChanged(y: nat)
      requires old(Shaped()) && y < 256
      requires forall i | 0 <= i < 256 && i != y :: unchanged(lines[i])
      requires Terminated(lines[y][..])
      ensures Shaped() && Strings() == old(Strings())[y := CStr(lines[y][..])]
    {
      forall i | 0 <= i < 256 && i != y ensures lines[i][..] == old(lines[i][..]) {
        assert unchanged(lines[i]);
      }
    }

    method CopyLine(d: nat, s: nat, k: nat)
      requires Shaped() && d < 256 && s < 256 && d != s && k <= |Strings()[s]|
      modifies lines[d]
      ensures Shaped() && Strings() == old(Strings())[d := old(Strings())[s][k..]]
    {
      CStrSuffix(lines[s][..], k);
      assert lines[s][..][k..] == lines[s][k..];
      Strcpy(lines[d], 0, lines[s], k);
      assert lines[d][0..] == lines[d][..];
      LineChanged(d);
    }

    method CutLine(y: nat, x: nat)
      requires Shaped() && y < 256 && x <= |Strings()[y]|
      modifies lines[y]
      ensures Shaped() && Strings() == old(Strings())[y := old(Strings())[y][..x]]
    {
      ghost var l := Strings()[y];
      assert Terminated(lines[y][..]);
      lines[y][x] := '\0';
      assert lines[y][..][..x] == l[..x];
      CStrIs(lines[y][..], l[..x]);
      LineChanged(y);
    }

    // ----------------------------------------------------------------- typing

    lemma UpdatePrefix(s: seq<string>, n: nat, y: nat, l: string)
      requires y < n <= |s|
      ensures s[y := l][..n] == s[..n][y := l]
    {
    }

    lemma LineIs(y: nat)
      requires Shaped() && y < lineCount <= 256
      ensures |lines| == 256 && Abstract().doc[y] == Strings()[y] && lines[y].Length == LINE_LEN
      ensures Terminated(lines[y][..]) && CStr(lines[y][..]) == Strings()[y]
    {
    }

    lemma CursorIn()
      requires Valid()
      ensures Shaped() && |lines| == 256 && cursorY < lineCount <= 256 && cursorX <= |Strings()[cursorY]|
    {
      LineIs(cursorY);
    }

    method InsertChar(c: char)
      requires Valid() && c != '\0' && c != '\n'
      modifies this`cursorX, this`modified, lines
      ensures Valid() && Abstract() == Insert(old(Abstract()), c)
      ensures modified == (old(modified) || Abstract().doc != old(Abstract().doc))
    {
      hide CStr, TextBuffer.Valid, Strings, Shaped;
      CursorIn();
      ghost var v, s, y := Abstract(), Strings(), cursorY;
      InsertValid(v, c);
      LineIs(y);
      if lineCount <= cursorY { assert false; }  // the code would append a line here
      var len := Strlen(lines[cursorY]);
      if LINE_LEN - 1 <= len { return; }
      if len < cursorX { assert false; }  // the code would clamp the column here
      InsertInLine(lines[cursorY], cursorX, c);
      LineChanged(y);
      UpdatePrefix(s, lineCount, y, Strings()[y]);
      cursorX := cursorX + 1;
      modified := true;
    }

    method EraseInLine()
      requires Valid() && 0 < cursorX
      modifies this`cursorX, this`modified, lines
      ensures Valid() && Abstract() == Erase(old(Abstract()))
      ensures modified == (old(modified) || Abstract().doc != old(Abstract().doc))
    {
      hide CStr, TextBuffer.Valid, Strings, Shaped;
      CursorIn();
      ghost var v, s, y := Abstract(), Strings(), cursorY;
      EraseValid(v);
      LineIs(y);
      DeleteInLine(lines[cursorY], cursorX);
      LineChanged(y);
      UpdatePrefix(s, lineCount, y, Strings()[y]);
      cursorX := cursorX - 1;
      modified := true;
    }

    method CloseGap(ghost s: seq<string>)
      requires Shaped() && |lines| == 256 && cursorY < lineCount <= 256
      requires Strings() == s == Closing(s, cursorY, cursorY)
      modifies lines
      ensures Shaped() && Strings() == Closing(s, cursorY, lineCount - 1)
    {
      hide Closing, Shaped, Strings;
      for i := cursorY to lineCount - 1
        invariant Shaped() && Strings() == Closing(s, cursorY, i)
      {
        ClosingNext(s, cursorY, i);
        CopyLine(i, i + 1, 0);
      }
    }

    /** strcat onto the line above, then close the gap. */
    method JoinLines()
      requires Shaped() && 0 < cursorY < lineCount <= 256
      requires |Strings()[cursorY - 1]| + |Strings()[cursorY]| < LINE_LEN
      modifies lines
      ensures Shaped()
      ensures Strings() == Joined(old(Strings()), cursorY, lineCount)
    {
      ghost var s, y, n := Strings(), cursorY, lineCount;
      Strcat(lines[cursorY - 1], lines[cursorY]);
      LineChanged(cursorY - 1);
      ghost var s1 := s[y - 1 := s[y - 1] + s[y]];
      assert Strings() == s1 == Closing(s1, y, y);
      CloseGap(s1);
      assert Joined(s, y, n) == Closing(s1, y, n - 1);
    }

    method EraseBreak(prevLen: nat)
      requires Valid() && |lines| == 256 && lineCount <= 256 && TextBuffer.Valid(Abstract())
      requires cursorX == 0 && 0 < cursorY < lineCount && prevLen == |Strings()[cursorY - 1]|
      requires |Strings()[cursorY - 1]| + |Strings()[cursorY]| < LINE_LEN
      modifies this`lineCount, this`cursorX, this`cursorY, this`modified, lines
      ensures Shaped() && 1 <= lineCount <= 256 && Abstract() == Erase(old(Abstract()))
      ensures modified
    {
      hide Joined, Shaped, TextBuffer.Valid, Erase, LineOk, Strings;
      JoinedIsErase(Strings(), lineCount, Abstract());
      JoinLines();
      lineCount := lineCount - 1;
      cursorY := cursorY - 1;
      cursorX := prevLen;
      modified := true;
    }

    method DeleteChar()
      requires Valid()
      modifies this`lineCount, this`cursorX, this`cursorY, this`modified, lines
      ensures Valid() && Abstract() == Erase(old(Abstract()))
      ensures modified == (old(modified) || Abstract().doc != old(Abstract().doc))
    {
      hide TextBuffer.Valid, CStr, LineOk;
      CursorIn();
      if 0 < cursorX {
        EraseInLine();
      } else if 0 < cursorY {
        LineIs(cursorY);
        LineIs(cursorY - 1);
        ghost var v := Abstract();
        assert v.doc[v.y - 1] == Strings()[cursorY - 1] && v.doc[v.y] == Strings()[cursorY];
        var prevLen := Strlen(lines[cursorY - 1]);
        var curLen := Strlen(lines[cursorY]);
        EraseValid(v);
        if prevLen + curLen < LINE_LEN { EraseBreak(prevLen); }
      }
    }

    /** Move the lines below the cursor down by one. */
    method OpenGap()
      requires Shaped() && |lines| == 256 && cursorY < lineCount < 256
      modifies lines
      ensures Shaped()
      ensures Strings() == Gapped(old(Strings()), cursorY, lineCount)
    {
      hide Opening, Shaped, Strings;
      ghost var s := Strings();
      OpeningStart(s, lineCount);
      var i := lineCount;
      while cursorY + 1 < i
        invariant cursorY + 1 <= i <= lineCount
        invariant Shaped() && Strings() == Opening(s, i, lineCount)
      {
        OpeningNext(s, i, lineCount);
        CopyLine(i, i - 1, 0);
        i := i - 1;
      }
      GappedIsOpening(s, cursorY, lineCount);
    }

    method BreakLine()
      requires Valid() && |lines| == 256 && cursorY < lineCount < 256 && TextBuffer.Valid(Abstract())
      requires cursorX <= |Strings()[cursorY]|
      modifies this`lineCount, this`cursorX, this`cursorY, this`modified, lines
      ensures Shaped() && 1 <= lineCount <= 256 && Abstract() == Break(old(Abstract()))
      ensures modified
    {
      hide Shaped, TextBuffer.Valid, Break, LineOk, Strings;
      ghost var s, v, n := Strings(), Abstract(), lineCount;
      BrokenIsBreak(s, n, v);
      OpenGap();
      GapLine(s, cursorY, lineCount);
      CopyLine(cursorY + 1, cursorY, cursorX);
      CutLine(cursorY, cursorX);
      assert Strings() == Broken(s, v.y, v.x, n);
      lineCount := lineCount + 1;
      cursorY := cursorY + 1;
      cursorX := 0;
      modified := true;
    }

    method NewLine()
      requires Valid()
      modifies this`lineCount, this`cursorX, this`cursorY, this`modified, lines
      ensures Valid() && Abstract() == Break(old(Abstract()))
      ensures modified == (old(modified) || Abstract().doc != old(Abstract().doc))
    {
      BreakValid(Abstract());
      if MAX_LINES <= lineCount { return; }
      assert Abstract().doc[cursorY] == Strings()[cursorY];
      BreakLine();
    }

    // --------------------------------------------------------- opening, saving

    /** The editor's static storage, as the loader leaves it. */
    constructor (storage: seq<array<char>>)
      requires |storage| == 256 && forall i | 0 <= i < 256 :: storage[i].Length == LINE_LEN
      requires forall i, j | 0 <= i < j < 256 :: storage[i] != storage[j]
      ensures lines == storage
    {
      lines := storage;
      lineCount, cursorX, cursorY, scrollY := 0, 0, 0, 0;
      filename, modified, running := "", false, false;
    }

    ghost predicate Storage()
    {
      && |lines| == 256 && (forall i | 0 <= i < 256 :: lines[i].Length == LINE_LEN)
      && forall i, j | 0 <= i < j < 256 :: lines[i] != lines[j]
    }

    /** The rows hold the given pieces, and nothing further down. */
    ghost predicate Holds(ls: seq<string>)
      requires Storage()
      reads lines
    {
      forall k | 0 <= k < 256 :: RowHolds(lines[k][..], if k < |ls| then ls[k] else "")
    }

    method ClearRow(y: nat)
      requires Storage() && y < 256
      modifies lines[y]
      ensures RowHolds(lines[y][..], "")
    {
      for j := 0 to 80
        invariant forall i | 0 <= i < j :: lines[y][i] == '\0'
      {
        lines[y][j] := '\0';
      }
    }

    /** memset of the whole editor state. */
    method Clear()
      requires Storage()
      modifies this, lines
      ensures Holds([]) && cursorX == cursorY == scrollY == 0 && filename == "" && !modified && !running
    {
      for i := 0 to 256
        invariant forall k | 0 <= k < i :: RowHolds(lines[k][..], "")
      {
        ClearRow(i);
      }
      lineCount, cursorX, cursorY, scrollY := 0, 0, 0, 0;
      filename, modified, running := "", false, false;
    }

    lemma HoldsShows(ls: seq<string>)
      requires Storage() && Holds(ls) && |lines| == 256
      ensures Shaped()
      ensures forall k | 0 <= k < 256 :: Strings()[k] == if k < |ls| then Clip(ls[k]) else ""
    {
      forall k | 0 <= k < 256
        ensures Terminated(lines[k][..]) && CStr(lines[k][..]) == if k < |ls| then Clip(ls[k]) else ""
      {
        RowIsClip(lines[k][..], if k < |ls| then ls[k] else "");
      }
    }

    /** One character of the file goes into row |ls| - 1. */
    method Put(ghost ls: seq<string>, y: nat, col: nat, c: char)
      requires Storage() && Holds(ls) && 1 <= |ls| <= 256 && y == |ls| - 1 && col == Min(|ls[y]|, 79)
      modifies lines[y]
      ensures Holds(ls[..y] + [ls[y] + [c]])
    {
      RowTakes(lines[y][..], ls[y], c);
      if col < LINE_LEN - 1 { lines[y][col] := c; }
      ghost var r := ls[..y] + [ls[y] + [c]];
      assert lines[y][..] == if |ls[y]| < 79 then old(lines[y][..])[|ls[y]| := c] else old(lines[y][..]);
      forall k | 0 <= k < 256 ensures RowHolds(lines[k][..], if k < |r| then r[k] else "") {
        if k != y { assert lines[k][..] == old(lines[k][..]); }
      }
    }

    /** The stored NUL after the last piece is already there. */
    method EndRow(ghost ls: seq<string>, y: nat, col: nat)
      requires Storage() && Holds(ls) && 1 <= |ls| <= 256 && y == |ls| - 1 && col == Min(|ls[y]|, 79)
      modifies lines[y]
      ensures Holds(ls)
    {
      assert RowHolds(lines[y][..], ls[y]);
      lines[y][col] := '\0';
      assert lines[y][..] == old(lines[y][..]);
      forall k | 0 <= k < 256 ensures RowHolds(lines[k][..], if k < |ls| then ls[k] else "") {
        if k != y { assert lines[k][..] == old(lines[k][..]); }
      }
    }

    lemma SamePieces(ls: seq<string>, r: seq<string>)
      requires Storage() && Holds(ls)
      requires forall k | 0 <= k < 256 :: (if k < |r| then r[k] else "") == if k < |ls| then ls[k] else ""
      ensures Holds(r)
    {
    }

    lemma NewPiece(ls: seq<string>)
      requires Storage() && Holds(ls)
      ensures Holds(ls + [""])
    {
      SamePieces(ls, ls + [""]);
    }

    /** The parsing loop of editor_open. */
    method Parse(buf: string) returns (line: nat)
      requires Storage() && Holds([""])
      modifies lines
      ensures line == Kept(Split(buf)) && Holds(Split(buf)[..line])
    {
      hide Holds, RowHolds, Split, Kept;
      line := 0;
      var col, i := 0, 0;
      ghost var ls := [""];
      SplitEmpty(buf);
      while i < |buf| && line < 256
        invariant i <= |buf| && ls == Split(buf[..i]) && line == |ls| - 1 <= 256
        invariant col == Min(|ls[line]|, 79) && (line == 256 ==> ls[line] == "")
        invariant Holds(ls)
      {
        SplitNext(buf, i);
        if buf[i] == '\n' {
          EndRow(ls, line, col);
          NewPiece(ls);
          line, col := line + 1, 0;
          ls := ls + [""];
        } else {
          Put(ls, line, col, buf[i]);
          ls := ls[..line] + [ls[line] + [buf[i]]];
          if col < LINE_LEN - 1 { col := col + 1; }
        }
        i := i + 1;
      }
      ParseDone(buf, i, ls, line);
      if 0 < col || line == 0 {
        EndRow(ls, line, col);
        line := line + 1;
      }
      SamePieces(ls, Split(buf)[..line]);
    }

    /** The rows hold ls, one line each: the editor shows them clipped. */
    lemma ShowsLines(ls: seq<string>)
      requires Storage() && Holds(ls) && 1 <= |ls| <= 256 && lineCount == |ls| && cursorX == cursorY == 0
      requires Clean(ClipAll(ls))
      ensures Valid() && Abstract().doc == ClipAll(ls)
    {
      HoldsShows(ls);
      assert Strings()[..|ls|] == ClipAll(ls);
    }

    lemma EmptyLoad()
      ensures Load("") == [""] == ClipAll([""]) && Clean([""])
    {
      CStrClean("");
      assert ""[..0] == "";
    }

    method New()
      requires Storage()
      modifies this, lines
      ensures Valid() && Abstract() == View([""], 0, 0, 0) && filename == "" && !modified && running
    {
      Clear();
      SamePieces([], [""]);
      EndRow([""], 0, 0);
      lineCount := 1;
      running := true;
      EmptyLoad();
      ShowsLines([""]);
    }

    method OneLine()
      requires Storage() && Holds([""]) && cursorX == cursorY == 0
      modifies this`lineCount
      ensures Valid() && Abstract().doc == [""]
    {
      lineCount := 1;
      EmptyLoad();
      ShowsLines([""]);
    }

    method Show(buf: string)
      requires Storage() && Holds([""]) && cursorX == cursorY == 0
      modifies this`lineCount, lines
      ensures Valid() && Abstract().doc == Load(buf)
    {
      hide Holds, Split, Kept, ClipAll;
      LoadClean(buf);
      lineCount := Parse(buf);
      ShowsLines(Split(buf)[..lineCount]);
    }

    /** editor_open: `memory` says whether kmalloc has room for the buffer. */
    method Open(fs: Tmpfs.FileSystem, name: string, memory: bool)
      requires Storage() && fs.Valid()
      modifies this, lines
      ensures Valid() && cursorX == cursorY == scrollY == 0 && !modified && running
      ensures filename == Truncate(name, NAME_LEN - 1)
      ensures Abstract().doc == match fs.At(name)
                                case None => [""]
                                case Some(data) => if memory then Load(Truncate(data, FILE_SIZE - 1)) else [""]
    {
      hide Holds, Storage, TextBuffer.Valid, Tmpfs.Consistent, Tmpfs.Find, Shaped;
      Clear();
      filename := name[..Min(|name|, 63)];
      modified, running := false, true;
      SamePieces([], [""]);
      EmptyLoad();
      if !memory {
        OneLine();
        return;
      }
      var len, buf := fs.Read(name, 4095);
      if 0 < len {
        Show(buf);
      } else {
        OneLine();
      }
    }

    method CopyOut(buf: array<char>, pos: nat, y: nat, len: nat)
      requires Shaped() && y < 256 && len == |Strings()[y]| && pos + len <= buf.Length && buf !in lines
      modifies buf
      ensures buf[..pos + len] == old(buf[..pos]) + Strings()[y]
    {
      ghost var l := Strings()[y];
      for i := 0 to len
        invariant buf[..pos + i] == old(buf[..pos]) + l[..i]
      {
        assert l[i] == lines[y][..][i];
        buf[pos + i] := lines[y][i];
        assert buf[..pos + i + 1] == buf[..pos + i] + [buf[pos + i]];
      }
    }

    lemma WrittenAll(doc: seq<string>)
      requires 0 < |doc|
      ensures Written(doc, |doc|) == Text(doc)
    {
    }

    /** The printing loop of editor_save. */
    method Print(buf: array<char>) returns (pos: nat)
      requires Valid() && buf.Length == 20480 && buf !in lines
      modifies buf
      ensures pos <= buf.Length && buf[..pos] == Text(Abstract().doc)
    {
      hide Written, Text, Ended, CStr, Strings, Shaped;
      CursorIn();
      ghost var doc := Abstract().doc;
      forall k | 0 <= k < |doc| ensures |doc[k]| < LINE_LEN { assert LineOk(doc[k]); }
      pos := 0;
      WrittenBound(doc, 0);
      for i := 0 to lineCount
        invariant pos <= 80 * i && buf[..pos] == Written(doc, i)
      {
        LineIs(i);
        var len := Strlen(lines[i]);
        if 20480 < pos + len + 1 { break; }
        WrittenNext(doc, i);
        WrittenBound(doc, i + 1);
        CopyOut(buf, pos, i, len);
        pos := pos + len;
        if i + 1 < lineCount {
          buf[pos] := '\n';
          assert buf[..pos + 1] == buf[..pos] + "\n";
          pos := pos + 1;
        }
      }
      WrittenAll(doc);
    }

    ghost predicate HasSlot(fs: Tmpfs.FileSystem, name: string)
      requires fs.Valid()
      reads fs, fs.files
    {
      fs.At(name).Some? || fs.fileCount != Tmpfs.MAX_FILES
    }

    /** The file is deleted and, unless there is nothing to store, written anew. */
    method Rewrite(fs: Tmpfs.FileSystem, name: string, data: string)
      requires fs.Valid() && |name| < NAME_LEN
      modifies fs`fileCount, fs.files
      ensures fs.Valid() && forall n | n != name :: fs.At(n) == old(fs.At(n))
      ensures fs.At(name) == Saved(data, old(HasSlot(fs, name)))
    {
      hide Tmpfs.Consistent, Tmpfs.Find, Tmpfs.Lookup;
      var _ := fs.Delete(name);
      if data != "" {
        var _ := fs.Write(name, data);
        assert data[..Min(|data|, 4096)] == Truncate(data, FILE_SIZE);
      }
    }

    /** editor_save: -1 without a name or without memory; otherwise the file holds the text, up
        to its size limit, and is absent when the text is empty or no slot is free. */
    method Save(fs: Tmpfs.FileSystem, memory: bool) returns (r: int)
      requires Valid() && fs.Valid() && |filename| < NAME_LEN
      modifies this`modified, fs`fileCount, fs.files
      ensures Valid() && Abstract() == old(Abstract()) && fs.Valid()
      ensures forall n | n != filename :: fs.At(n) == old(fs.At(n))
      ensures if filename == "" || !memory
              then r == -1 && modified == old(modified) && fs.At(filename) == old(fs.At(filename))
              else r == 0 && !modified && fs.At(filename) == Saved(Text(Abstract().doc), old(HasSlot(fs, filename)))
    {
      hide TextBuffer.Valid, Tmpfs.Consistent, Tmpfs.Find, Text, Tmpfs.Lookup, CStr, Strings, Shaped, Saved, HasSlot;
      if filename == "" { return -1; }
      if !memory { return -1; }
      var buf := new char[20480];
      var pos := Print(buf);
      Rewrite(fs, filename, buf[..pos]);
      modified := false;
      return 0;
    }

    lemma DocClean()
      requires Valid()
      ensures Clean(Abstract().doc)
    {
      var doc := Abstract().doc;
      forall i | 0 <= i < |doc| ensures LineOk(doc[i]) && '\0' !in doc[i] { assert doc[i] == Strings()[i]; }
    }

    lemma StorageOf()
      requires Shaped()
      ensures Storage()
    {
    }

    lemma SavedReopens(doc: seq<string>)
      requires doc != []
      ensures Reopen(doc)
           == if Text(doc) == "" then [""] else Load(Truncate(Truncate(Text(doc), FILE_SIZE), FILE_SIZE - 1))
    {
      hide Load, Text;
      EmptyLoad();
      var t := Text(doc);
      assert Truncate(Truncate(t, FILE_SIZE), FILE_SIZE - 1) == Truncate(t, FILE_SIZE - 1);
    }

    /** Saving under a name and opening it again shows the very same lines, if and only if the
        text fits and does not end in an empty line after others. */
    method SaveThenOpen(fs: Tmpfs.FileSystem)
      requires Valid() && fs.Valid() && filename != "" && |filename| < NAME_LEN
      requires fs.At(filename).Some? || fs.fileCount < Tmpfs.MAX_FILES
      modifies this, lines, fs`fileCount, fs.files
      ensures Valid() && filename == old(filename)
      ensures Abstract().doc == old(Abstract().doc)
         <==> Survives(old(Abstract()).doc)
    {
      hide TextBuffer.Valid, Tmpfs.Consistent, Tmpfs.Find, Text, Tmpfs.Lookup, Reopen, Load, Clean, Strings;
      ghost var doc := Abstract().doc;
      DocClean();
      ReopenIff(doc);
      SavedReopens(doc);
      var _ := Save(fs, true);
      StorageOf();
      assert filename[..|filename|] == filename;
      Open(fs, filename, true);
    }

    // ------------------------------------------------------------- the key loop

    /** Clamp the column to the line the cursor has moved to. */
    method ClampColumn(ghost x: nat)
      requires Shaped() && cursorY < lineCount <= 256 && x == cursorX
      modifies this`cursorX
      ensures cursorX == Min(x, |Strings()[cursorY]|)
    {
      var len := Strlen(lines[cursorY]);
      if len < cursorX { cursorX := len; }
    }

    /** The cursor keys that stay within a line or step over its end. */
    method MoveAcross(c: int)
      requires Valid() && 0xF3 <= c <= 0xF6
      modifies this`cursorX, this`cursorY
      ensures Valid() && Abstract() == Move(old(Abstract()), Decode(c).k)
    {
      hide CStr, TextBuffer.Valid, Strings, Shaped;
      CursorIn();
      ghost var v := Abstract();
      MoveValid(v, Decode(c).k);
      LineIs(cursorY);
      if c == 0xF3 {
        if 0 < cursorX {
          cursorX := cursorX - 1;
        } else if 0 < cursorY {
          cursorY := cursorY - 1;
          LineIs(cursorY);
          cursorX := Strlen(lines[cursorY]);
        }
      } else if c == 0xF4 {
        EndAt(lines[cursorY][..], cursorX);
        if lines[cursorY][cursorX] != '\0' {
          cursorX := cursorX + 1;
        } else if cursorY < lineCount - 1 {
          cursorY := cursorY + 1;
          cursorX := 0;
        }
      } else if c == 0xF5 {
        cursorX := 0;
      } else {
        cursorX := Strlen(lines[cursorY]);
      }
    }

    method MoveLine(c: int)
      requires Valid() && (c == 0xF1 || c == 0xF2)
      modifies this`cursorX, this`cursorY
      ensures Valid() && Abstract() == Move(old(Abstract()), Decode(c).k)
    {
      hide CStr, TextBuffer.Valid, Strings, Shaped;
      CursorIn();
      ghost var v := Abstract();
      MoveValid(v, Decode(c).k);
      if c == 0xF1 {
        if 0 < cursorY {
          cursorY := cursorY - 1;
          LineIs(cursorY);
          ClampColumn(cursorX);
        }
      } else {
        if cursorY < lineCount - 1 {
          cursorY := cursorY + 1;
          LineIs(cursorY);
          ClampColumn(cursorX);
        }
      }
    }

    lemma PageLine(y: nat)
      requires Shaped() && y < lineCount <= 256
      ensures |Strings()| == 256 && Strings()[..lineCount][y] == Strings()[y]
    {
    }

    method GoTo(y: nat, scroll: nat)
      requires Valid() && y < lineCount
      modifies this`cursorX, this`cursorY, this`scrollY
      ensures Valid() && Abstract() == ToLine(old(Abstract()).(scroll := scroll), y)
    {
      hide CStr, Strings, Shaped, LineOk;
      CursorIn();
      PageLine(y);
      cursorY, scrollY := y, scroll;
      ClampColumn(cursorX);
    }

    method MovePage(c: int)
      requires Valid() && (c == 0xF7 || c == 0xF8)
      modifies this`cursorX, this`cursorY, this`scrollY
      ensures Valid() && Abstract() == Move(old(Abstract()), Decode(c).k)
    {
      hide CStr, TextBuffer.Valid, Strings, Shaped;
      CursorIn();
      ghost var v := Abstract();
      MoveValid(v, Decode(c).k);
      if c == 0xF7 {
        var target := cursorY - 23;
        if target < 0 { target := 0; }
        GoTo(target, if 23 < target then target - 23 + 1 else 0);
      } else {
        var target := cursorY + 23;
        if lineCount <= target { target := lineCount - 1; }
        GoTo(target, target);
      }
    }

    /** One key of editor_run before the view is scrolled. */
    method Dispatch(c: int, fs: Tmpfs.FileSystem, memory: bool)
      requires Valid() && fs.Valid() && |filename| < NAME_LEN
      modifies this, lines, fs`fileCount, fs.files
      ensures Valid() && fs.Valid() && filename == old(filename)
      ensures Abstract() == match Decode(c) case Press(k) => Act(old(Abstract()), k) case _ => old(Abstract())
      ensures running == (old(running) && c != 0x11)
      ensures modified == ((old(modified) && !(c == 0x13 && old(filename) != "" && memory))
                           || Abstract().doc != old(Abstract().doc))
    {
      hide TextBuffer.Valid, Tmpfs.Consistent, Shaped, Insert, Erase, Break, Move, Tmpfs.Lookup;
      CursorIn();
      if Decode(c).Press? { MoveValid(Abstract(), Decode(c).k); }
      if c == 0x11 {
        running := false;
      } else if c == 0x13 {
        var _ := Save(fs, memory);
      } else if c == 0x0A {
        NewLine();
      } else if c == 0x08 {
        DeleteChar();
      } else if c == 0xF1 || c == 0xF2 {
        MoveLine(c);
      } else if c == 0xF7 || c == 0xF8 {
        MovePage(c);
      } else if 0xF3 <= c <= 0xF6 {
        MoveAcross(c);
      } else if 32 <= c < 127 {
        InsertChar(c as char);
      }
    }

    method ScrollToCursor()
      requires Valid()
      modifies this`scrollY
      ensures Valid() && Abstract() == Scroll(old(Abstract())) && InViewport(Abstract())
    {
      hide Strings, Shaped, LineOk;
      if cursorY < scrollY { scrollY := cursorY; }
      if scrollY + 23 <= cursorY { scrollY := cursorY - 23 + 1; }
    }

    /** One round of editor_run: the key acts on the text as the flat machine says, and the
        cursor ends up in view. */
    method Round(c: int, fs: Tmpfs.FileSystem, memory: bool)
      requires Valid() && fs.Valid() && |filename| < NAME_LEN
      modifies this, lines, fs`fileCount, fs.files
      ensures Valid() && fs.Valid() && filename == old(filename) && InViewport(Abstract())
      ensures Abstract() == match Decode(c) case Press(k) => Step(old(Abstract()), k) case _ => Scroll(old(Abstract()))
      ensures running == (old(running) && c != 0x11)
      ensures modified == ((old(modified) && !(c == 0x13 && old(filename) != "" && memory))
                           || Abstract().doc != old(Abstract().doc))
    {
      hide TextBuffer.Valid, Tmpfs.Consistent, Shaped, Act, Tmpfs.Lookup, Strings, Scroll;
      Dispatch(c, fs, memory);
      ScrollToCursor();
    }
  }
}
