/** What the editor's buffer (src/tools/editor.c) stands for: lines and a cursor, and beneath
    them one flat text and one offset. */
module TextBuffer {
  import opened Common

  const MAX_LINES: nat := 256
  const LINE_LEN: nat := 80
  const CONTENT_H: nat := 23

  datatype View = View(doc: seq<string>, x: nat, y: nat, scroll: nat)

  datatype Key =
    | Char(c: char) | Newline | Backspace
    | Left | Right | Home | End
    | Up | Down | PageUp | PageDown

  predicate LineOk(l: string) { |l| < LINE_LEN && '\n' !in l }

  predicate Valid(v: View) {
    && 1 <= |v.doc| <= MAX_LINES
    && (forall i | 0 <= i < |v.doc| :: LineOk(v.doc[i]))
    && v.y < |v.doc| && v.x <= |v.doc[v.y]|
  }

  predicate InViewport(v: View) { v.scroll <= v.y < v.scroll + CONTENT_H }

  // -------------------------------------------------------------- the steps

  function Insert(v: View, c: char): (r: View)
    requires Valid(v)
  {
    var l := v.doc[v.y];
    if LINE_LEN - 1 <= |l| then v
    else v.(doc := v.doc[v.y := l[..v.x] + [c] + l[v.x..]], x := v.x + 1)
  }

  function Break(v: View): (r: View)
    requires Valid(v)
  {
    var l := v.doc[v.y];
    if MAX_LINES <= |v.doc| then v
    else v.(doc := v.doc[..v.y] + [l[..v.x], l[v.x..]] + v.doc[v.y + 1..], x := 0, y := v.y + 1)
  }

  function Erase(v: View): (r: View)
    requires Valid(v)
  {
    var l := v.doc[v.y];
    if 0 < v.x then v.(doc := v.doc[v.y := l[..v.x - 1] + l[v.x..]], x := v.x - 1)
    else if v.y == 0 then v
    else
      var p := v.doc[v.y - 1];
      if LINE_LEN <= |p| + |l| then v
      else v.(doc := v.doc[..v.y - 1] + [p + l] + v.doc[v.y + 1..], x := |p|, y := v.y - 1)
  }

  /** Move to line y, keeping the column where the line is long enough. */
  function ToLine(v: View, y: nat): (r: View)
    requires y < |v.doc|
  {
    v.(y := y, x := Min(v.x, |v.doc[y]|))
  }

  function Move(v: View, k: Key): (r: View)
    requires Valid(v)
  {
    match k
    case Left =>
      if 0 < v.x then v.(x := v.x - 1)
      else if 0 < v.y then v.(y := v.y - 1, x := |v.doc[v.y - 1]|)
      else v
    case Right =>
      if v.x < |v.doc[v.y]| then v.(x := v.x + 1)
      else if v.y + 1 < |v.doc| then v.(y := v.y + 1, x := 0)
      else v
    case Home => v.(x := 0)
    case End => v.(x := |v.doc[v.y]|)
    case Up => if 0 < v.y then ToLine(v, v.y - 1) else v
    case Down => if v.y + 1 < |v.doc| then ToLine(v, v.y + 1) else v
    case PageUp =>
      var y := if v.y < CONTENT_H then 0 else v.y - CONTENT_H;
      ToLine(v.(scroll := if CONTENT_H < y then y - CONTENT_H + 1 else 0), y)
    case PageDown =>
      var y := Min(v.y + CONTENT_H, |v.doc| - 1);
      ToLine(v.(scroll := y), y)
    case _ => v
  }

  function Scroll(v: View): (r: View) {
    var s := if v.y < v.scroll then v.y else v.scroll;
    v.(scroll := if s + CONTENT_H <= v.y then v.y - CONTENT_H + 1 else s)
  }

  function Act(v: View, k: Key): (r: View)
    requires Valid(v)
  {
    match k
    case Char(c) => Insert(v, c)
    case Newline => Break(v)
    case Backspace => Erase(v)
    case _ => Move(v, k)
  }

  /** One round of the editor's loop. */
  function Step(v: View, k: Key): (r: View)
    requires Valid(v)
  {
    Scroll(Act(v, k))
  }

  predicate Typed(k: Key) { k.Char? ==> k.c != '\n' }

  lemma InsertValid(v: View, c: char)
    requires Valid(v) && c != '\n'
    ensures Valid(Insert(v, c))
  {
    assert LineOk(v.doc[v.y]);
  }

  lemma BreakValid(v: View)
    requires Valid(v)
    ensures Valid(Break(v))
  {
    var r := Break(v);
    if r != v {
      forall i | 0 <= i < |r.doc| ensures LineOk(r.doc[i]) {
        var j := if i <= v.y then i else i - 1;
        assert LineOk(v.doc[j]);
      }
    }
  }

  lemma EraseValid(v: View)
    requires Valid(v)
    ensures Valid(Erase(v))
  {
    var r := Erase(v);
    assert LineOk(v.doc[v.y]);
    if v.x == 0 && r != v {
      forall i | 0 <= i < |r.doc| ensures LineOk(r.doc[i]) {
        var j := if i < v.y then i else i + 1;
        assert LineOk(v.doc[j]);
      }
    }
  }

  lemma MoveValid(v: View, k: Key)
    requires Valid(v)
    ensures Valid(Move(v, k)) && Move(v, k).doc == v.doc
  {
  }

  /** Every key keeps the buffer well-formed and leaves the cursor in view. */
  lemma StepValid(v: View, k: Key)
    requires Valid(v) && Typed(k)
    ensures Valid(Step(v, k)) && InViewport(Step(v, k))
  {
    match k
    case Newline => BreakValid(v);
    case Backspace => EraseValid(v);
    case Char(c) => InsertValid(v, c);
    case _ => MoveValid(v, k);
  }

  // -------------------------------------------------------------- flat text

  /** Lines, each followed by a newline. */
  function Ended(ls: seq<string>): (r: string)
    decreases |ls|
  {
    if ls == [] then "" else Ended(ls[..|ls| - 1]) + ls[|ls| - 1] + "\n"
  }

  /** Lines, each preceded by a newline. */
  function Begun(ls: seq<string>): (r: string)
    decreases |ls|
  {
    if ls == [] then "" else Begun(ls[..|ls| - 1]) + "\n" + ls[|ls| - 1]
  }

  /** The lines joined by newlines. */
  function Text(doc: seq<string>): (r: string)
    requires doc != []
  {
    Ended(doc[..|doc| - 1]) + doc[|doc| - 1]
  }

  /** The cursor's position in the text. */
  function Offset(doc: seq<string>, y: nat, x: nat): (r: nat)
    requires y < |doc|
  {
    |Ended(doc[..y])| + x
  }

  datatype Flat = Flat(text: string, off: nat)

  function Flatten(v: View): (r: Flat)
    requires Valid(v)
  {
    Flat(Text(v.doc), Offset(v.doc, v.y, v.x))
  }

  /** The text around line y. */
  lemma {:induction false} TextAround(doc: seq<string>, y: nat)
    requires y < |doc|
    ensures Text(doc) == Ended(doc[..y]) + doc[y] + Begun(doc[y + 1..])
    decreases |doc|
  {
    var n := |doc| - 1;
    if y == n {
      assert doc[y + 1..] == [];
    } else {
      var init := doc[..n];
      TextAround(init, y);
      assert init[..y] == doc[..y] && init[..n - 1] == doc[..n][..n - 1];
      assert doc[y + 1..][..n - y - 1] == init[y + 1..];
      assert Text(doc) == Text(init) + "\n" + doc[n];
      assert Begun(doc[y + 1..]) == Begun(init[y + 1..]) + "\n" + doc[n];
      var e, b := Ended(doc[..y]) + doc[y], Begun(init[y + 1..]);
      assert (e + b) + "\n" + doc[n] == e + (b + "\n" + doc[n]);
    }
  }

  // --------------------------------------------------- the flat text machine

  function StartOf(t: string, o: nat): (r: nat)
    requires o <= |t|
    ensures r <= o
  {
    if o == 0 || t[o - 1] == '\n' then o else StartOf(t, o - 1)
  }

  function EndOf(t: string, o: nat): (r: nat)
    requires o <= |t|
    ensures o <= r <= |t|
    decreases |t| - o
  {
    if o == |t| || t[o] == '\n' then o else EndOf(t, o + 1)
  }

  function Newlines(t: string): (r: nat) {
    if t == "" then 0 else (if t[0] == '\n' then 1 else 0) + Newlines(t[1..])
  }

  /** The start of the line n lines above the one that starts at s, or of the first line. */
  function Above(t: string, s: nat, n: nat): (r: nat)
    requires s <= |t|
    ensures r <= s
    decreases n
  {
    if n == 0 || s == 0 then s else Above(t, StartOf(t, s - 1), n - 1)
  }

  /** The start of the line n lines below the one that starts at s, or of the last line. */
  function Below(t: string, s: nat, n: nat): (r: nat)
    requires s <= |t|
    ensures s <= r <= |t|
    decreases n
  {
    if n == 0 || EndOf(t, s) == |t| then s else Below(t, EndOf(t, s) + 1, n - 1)
  }

  /** The offset in the line that starts at s, at a column or at the end of a shorter line. */
  function InLine(t: string, s: nat, column: nat): (o: nat)
    requires s <= |t|
    ensures s <= o <= |t|
  {
    s + Min(column, EndOf(t, s) - s)
  }

  /** One flat string and one offset, with the buffer's limits on lines and columns. */
  function FlatAct(f: Flat, k: Key): (r: Flat)
    requires f.off <= |f.text|
    ensures r.off <= |r.text|
  {
    var t, o := f.text, f.off;
    var start, end := StartOf(t, o), EndOf(t, o);
    match k
    case Char(c) => if LINE_LEN - 1 <= end - start then f else Flat(t[..o] + [c] + t[o..], o + 1)
    case Newline => if MAX_LINES <= Newlines(t) + 1 then f else Flat(t[..o] + "\n" + t[o..], o + 1)
    case Backspace =>
      if o == 0 || (start == o && LINE_LEN <= o - 1 - StartOf(t, o - 1) + end - o) then f
      else Flat(t[..o - 1] + t[o..], o - 1)
    case Left => if o == 0 then f else f.(off := o - 1)
    case Right => if o == |t| then f else f.(off := o + 1)
    case Home => f.(off := start)
    case End => f.(off := end)
    case Up => f.(off := InLine(t, Above(t, start, 1), o - start))
    case Down => f.(off := InLine(t, Below(t, start, 1), o - start))
    case PageUp => f.(off := InLine(t, Above(t, start, CONTENT_H), o - start))
    case PageDown => f.(off := InLine(t, Below(t, start, CONTENT_H), o - start))
  }

  // ------------------------------------------------------------- refinement

  lemma {:induction false} StartInside(p: string, l: string, q: string, x: nat)
    requires x <= |l| && '\n' !in l && (p == "" || p[|p| - 1] == '\n')
    ensures StartOf(p + l + q, |p| + x) == |p|
  {
    var t := p + l + q;
    if x == 0 {
      assert p != "" ==> t[|p| - 1] == '\n';
    } else {
      assert t[|p| + x - 1] == l[x - 1];
      StartInside(p, l, q, x - 1);
    }
  }

  lemma {:induction false} EndInside(p: string, l: string, q: string, x: nat)
    requires x <= |l| && '\n' !in l && (q == "" || q[0] == '\n')
    ensures EndOf(p + l + q, |p| + x) == |p| + |l|
    decreases |l| - x
  {
    var t := p + l + q;
    if x < |l| {
      assert t[|p| + x] == l[x];
      EndInside(p, l, q, x + 1);
    } else {
      assert q != "" ==> t[|p| + x] == q[0];
    }
  }

  lemma EndedEnds(ls: seq<string>)
    ensures Ended(ls) == "" || Ended(ls)[|Ended(ls)| - 1] == '\n'
    ensures Ended(ls) == "" <==> ls == []
  {
  }

  lemma {:induction false} BegunBegins(ls: seq<string>)
    ensures Begun(ls) == "" || Begun(ls)[0] == '\n'
    ensures Begun(ls) == "" <==> ls == []
    decreases |ls|
  {
    if ls != [] { BegunBegins(ls[..|ls| - 1]); }
  }

  /** Line bounds in the flat text are those of the line the cursor is on. */
  lemma LineBounds(doc: seq<string>, y: nat, x: nat)
    requires y < |doc| && x <= |doc[y]| && '\n' !in doc[y]
    ensures var t, o := Text(doc), Offset(doc, y, x);
            && o <= |t|
            && StartOf(t, o) == Offset(doc, y, 0) && EndOf(t, o) == Offset(doc, y, |doc[y]|)
            && (Offset(doc, y, 0) == 0 <==> y == 0)
            && (Offset(doc, y, |doc[y]|) == |t| <==> y + 1 == |doc|)
  {
    var p, l, q := Ended(doc[..y]), doc[y], Begun(doc[y + 1..]);
    TextAround(doc, y);
    EndedEnds(doc[..y]);
    BegunBegins(doc[y + 1..]);
    StartInside(p, l, q, x);
    EndInside(p, l, q, x);
  }

  /** The previous line starts where the flat text says, one newline before this one. */
  lemma LineAbove(doc: seq<string>, y: nat)
    requires 0 < y < |doc|
    ensures Offset(doc, y, 0) == Offset(doc, y - 1, |doc[y - 1]|) + 1
  {
    assert doc[..y][..y - 1] == doc[..y - 1];
  }

  lemma {:induction false} NewlinesAppend(a: string, b: string)
    ensures Newlines(a + b) == Newlines(a) + Newlines(b)
  {
    if a == "" {
      assert a + b == b;
    } else {
      NewlinesAppend(a[1..], b);
      assert (a + b)[1..] == a[1..] + b;
    }
  }

  lemma {:induction false} NewlinesNone(l: string)
    requires '\n' !in l
    ensures Newlines(l) == 0
  {
    if l != "" { NewlinesNone(l[1..]); }
  }

  lemma {:induction false} NewlinesEnded(ls: seq<string>)
    requires forall i | 0 <= i < |ls| :: '\n' !in ls[i]
    ensures Newlines(Ended(ls)) == |ls|
    decreases |ls|
  {
    if ls != [] {
      var n := |ls| - 1;
      NewlinesEnded(ls[..n]);
      NewlinesNone(ls[n]);
      NewlinesAppend(Ended(ls[..n]) + ls[n], "\n");
      NewlinesAppend(Ended(ls[..n]), ls[n]);
      assert Newlines("\n") == 1 by { assert "\n"[1..] == ""; }
    }
  }

  lemma NewlinesText(doc: seq<string>)
    requires doc != [] && forall i | 0 <= i < |doc| :: '\n' !in doc[i]
    ensures Newlines(Text(doc)) == |doc| - 1
  {
    var n := |doc| - 1;
    NewlinesEnded(doc[..n]);
    NewlinesAppend(Ended(doc[..n]), doc[n]);
    NewlinesNone(doc[n]);
  }

  lemma CutInside(e: string, l: string, b: string, x: nat)
    requires x <= |l|
    ensures (e + l + b)[..|e| + x] == e + l[..x]
    ensures (e + l + b)[|e| + x..] == l[x..] + b
  {
  }

  lemma InsertText(v: View, c: char)
    requires Valid(v) && |v.doc[v.y]| < LINE_LEN - 1
    ensures var t, o := Text(v.doc), Offset(v.doc, v.y, v.x);
            && o <= |t| && Text(Insert(v, c).doc) == t[..o] + [c] + t[o..]
            && Offset(Insert(v, c).doc, v.y, v.x + 1) == o + 1
  {
    hide Text, Ended, Begun;
    var r, e, l, b := Insert(v, c), Ended(v.doc[..v.y]), v.doc[v.y], Begun(v.doc[v.y + 1..]);
    TextAround(v.doc, v.y);
    TextAround(r.doc, v.y);
    assert r.doc[..v.y] == v.doc[..v.y] && r.doc[v.y + 1..] == v.doc[v.y + 1..];
    CutInside(e, l, b, v.x);
    assert e + (l[..v.x] + [c] + l[v.x..]) + b == (e + l[..v.x]) + [c] + (l[v.x..] + b);
  }

  lemma InsertRefines(v: View, c: char)
    requires Valid(v) && c != '\n'
    ensures Flatten(v).off <= |Flatten(v).text|
    ensures Valid(Insert(v, c)) && Flatten(Insert(v, c)) == FlatAct(Flatten(v), Char(c))
  {
    hide Text, Ended, StartOf, EndOf, Newlines;
    assert LineOk(v.doc[v.y]);
    LineBounds(v.doc, v.y, v.x);
    if |v.doc[v.y]| < LINE_LEN - 1 { InsertText(v, c); }
  }

  lemma EndedSnoc(ls: seq<string>, l: string)
    ensures Ended(ls + [l]) == Ended(ls) + l + "\n"
  {
    assert (ls + [l])[..|ls|] == ls;
  }

  lemma BreakText(v: View)
    requires Valid(v) && |v.doc| < MAX_LINES
    ensures var t, o := Text(v.doc), Offset(v.doc, v.y, v.x);
            && o <= |t| && Text(Break(v).doc) == t[..o] + "\n" + t[o..]
            && Offset(Break(v).doc, v.y + 1, 0) == o + 1
  {
    hide Text, Ended, Begun;
    var r, l := Break(v), v.doc[v.y];
    TextAround(v.doc, v.y);
    TextAround(r.doc, v.y + 1);
    EndedSnoc(v.doc[..v.y], l[..v.x]);
    assert r.doc[..v.y + 1] == v.doc[..v.y] + [l[..v.x]];
    assert r.doc[v.y + 2..] == v.doc[v.y + 1..];
    CutInside(Ended(v.doc[..v.y]), l, Begun(v.doc[v.y + 1..]), v.x);
  }

  lemma BreakRefines(v: View)
    requires Valid(v)
    ensures Flatten(v).off <= |Flatten(v).text|
    ensures Valid(Break(v)) && Flatten(Break(v)) == FlatAct(Flatten(v), Newline)
  {
    hide Text, Ended, StartOf, EndOf, Newlines;
    forall i | 0 <= i < |v.doc| ensures '\n' !in v.doc[i] { assert LineOk(v.doc[i]); }
    LineBounds(v.doc, v.y, v.x);
    NewlinesText(v.doc);
    BreakValid(v);
    var r := Break(v);
    if r != v {
      BreakText(v);
    }
  }

  lemma JoinText(v: View)
    requires Valid(v) && v.x == 0 && 0 < v.y && |v.doc[v.y - 1]| + |v.doc[v.y]| < LINE_LEN
    ensures var t, o := Text(v.doc), Offset(v.doc, v.y, v.x);
            && 0 < o <= |t| && Text(Erase(v).doc) == t[..o - 1] + t[o..]
            && Offset(Erase(v).doc, v.y - 1, |v.doc[v.y - 1]|) == o - 1
  {
    hide Text, Ended, Begun;
    var r, y := Erase(v), v.y;
    var p, l := v.doc[y - 1], v.doc[y];
    TextAround(v.doc, y);
    TextAround(r.doc, y - 1);
    EndedSnoc(v.doc[..y - 1], p);
    assert v.doc[..y] == v.doc[..y - 1] + [p] && r.doc[..y - 1] == v.doc[..y - 1];
    assert r.doc[y..] == v.doc[y + 1..];
    var e, b := Ended(v.doc[..y - 1]), Begun(v.doc[y + 1..]);
    assert Text(v.doc) == e + p + "\n" + l + b;
    assert Text(r.doc) == e + (p + l) + b;
  }

  lemma EraseCharText(v: View)
    requires Valid(v) && 0 < v.x
    ensures var t, o := Text(v.doc), Offset(v.doc, v.y, v.x);
            && 0 < o <= |t| && Text(Erase(v).doc) == t[..o - 1] + t[o..]
            && Offset(Erase(v).doc, v.y, v.x - 1) == o - 1
  {
    hide Text, Ended, Begun;
    var r, e, l, b := Erase(v), Ended(v.doc[..v.y]), v.doc[v.y], Begun(v.doc[v.y + 1..]);
    TextAround(v.doc, v.y);
    TextAround(r.doc, v.y);
    assert r.doc[..v.y] == v.doc[..v.y] && r.doc[v.y + 1..] == v.doc[v.y + 1..];
    CutInside(e, l, b, v.x);
    CutInside(e, l, b, v.x - 1);
    assert e + (l[..v.x - 1] + l[v.x..]) + b == (e + l[..v.x - 1]) + (l[v.x..] + b);
  }

  lemma EraseRefines(v: View)
    requires Valid(v)
    ensures Flatten(v).off <= |Flatten(v).text|
    ensures Valid(Erase(v)) && Flatten(Erase(v)) == FlatAct(Flatten(v), Backspace)
  {
    hide Text, Ended, StartOf, EndOf, Newlines;
    assert LineOk(v.doc[v.y]);
    LineBounds(v.doc, v.y, v.x);
    EraseValid(v);
    if 0 < v.x {
      EraseCharText(v);
    } else if 0 < v.y {
      assert LineOk(v.doc[v.y - 1]);
      LineAbove(v.doc, v.y);
      LineBounds(v.doc, v.y - 1, |v.doc[v.y - 1]|);
      if |v.doc[v.y - 1]| + |v.doc[v.y]| < LINE_LEN { JoinText(v); }
    }
  }

  /** The neighbours of line y, as the flat text sees them. */
  lemma Neighbours(v: View)
    requires Valid(v)
    ensures var t, d, y := Text(v.doc), v.doc, v.y;
            && Offset(d, y, v.x) <= |t|
            && StartOf(t, Offset(d, y, v.x)) == Offset(d, y, 0)
            && EndOf(t, Offset(d, y, v.x)) == Offset(d, y, |d[y]|)
            && (Offset(d, y, 0) == 0 <==> y == 0)
            && (Offset(d, y, |d[y]|) == |t| <==> y + 1 == |d|)
            && (0 < y ==> Offset(d, y, 0) == Offset(d, y - 1, |d[y - 1]|) + 1
                          && StartOf(t, Offset(d, y, 0) - 1) == Offset(d, y - 1, 0))
            && (y + 1 < |d| ==> Offset(d, y + 1, 0) == Offset(d, y, |d[y]|) + 1 <= |t|
                                && EndOf(t, Offset(d, y + 1, 0)) == Offset(d, y + 1, |d[y + 1]|))
  {
    hide Text, Ended, StartOf, EndOf;
    assert LineOk(v.doc[v.y]);
    LineBounds(v.doc, v.y, v.x);
    if 0 < v.y {
      assert LineOk(v.doc[v.y - 1]);
      LineAbove(v.doc, v.y);
      LineBounds(v.doc, v.y - 1, |v.doc[v.y - 1]|);
    }
    if v.y + 1 < |v.doc| {
      assert LineOk(v.doc[v.y + 1]);
      LineAbove(v.doc, v.y + 1);
      LineBounds(v.doc, v.y + 1, 0);
    }
  }

  /** Walking up line starts goes up lines, and stops at the first ... */
  lemma {:induction false} AboveIs(v: View, y: nat, n: nat)
    requires Valid(v) && y < |v.doc|
    ensures Offset(v.doc, y, 0) <= |Text(v.doc)|
    ensures Above(Text(v.doc), Offset(v.doc, y, 0), n) == Offset(v.doc, if y < n then 0 else y - n, 0)
    decreases n
  {
    hide Text, Ended, StartOf, EndOf;
    Neighbours(v.(y := y, x := 0));
    if 0 < n && 0 < y { AboveIs(v, y - 1, n - 1); }
  }

  /** ... and walking down goes down, and stops at the last. */
  lemma {:induction false} BelowIs(v: View, y: nat, n: nat)
    requires Valid(v) && y < |v.doc|
    ensures Offset(v.doc, y, 0) <= |Text(v.doc)|
    ensures Below(Text(v.doc), Offset(v.doc, y, 0), n) == Offset(v.doc, Min(y + n, |v.doc| - 1), 0)
    decreases n
  {
    hide Text, Ended, StartOf, EndOf;
    Neighbours(v.(y := y, x := 0));
    if 0 < n && y + 1 < |v.doc| { BelowIs(v, y + 1, n - 1); }
  }

  /** Going to a line and keeping the column means the same on the text. */
  lemma ToLineRefines(v: View, y: nat)
    requires Valid(v) && y < |v.doc|
    ensures Offset(v.doc, y, 0) <= |Text(v.doc)|
    ensures InLine(Text(v.doc), Offset(v.doc, y, 0), v.x) == Offset(v.doc, y, ToLine(v, y).x)
  {
    hide Text, Ended, StartOf, EndOf;
    Neighbours(v.(y := y, x := 0));
  }

  lemma UpRefines(v: View, k: Key)
    requires Valid(v) && (k.Up? || k.PageUp?)
    ensures Flatten(v).off <= |Flatten(v).text|
    ensures Valid(Move(v, k)) && Flatten(Move(v, k)) == FlatAct(Flatten(v), k)
  {
    hide Text, Ended, StartOf, EndOf, Newlines, LineOk, Above, Below, InLine;
    Neighbours(v);
    AboveIs(v, v.y, if k.Up? then 1 else CONTENT_H);
    ToLineRefines(v, Move(v, k).y);
  }

  lemma DownRefines(v: View, k: Key)
    requires Valid(v) && (k.Down? || k.PageDown?)
    ensures Flatten(v).off <= |Flatten(v).text|
    ensures Valid(Move(v, k)) && Flatten(Move(v, k)) == FlatAct(Flatten(v), k)
  {
    hide Text, Ended, StartOf, EndOf, Newlines, LineOk, Above, Below, InLine;
    Neighbours(v);
    BelowIs(v, v.y, if k.Down? then 1 else CONTENT_H);
    ToLineRefines(v, Move(v, k).y);
  }

  lemma MoveRefines(v: View, k: Key)
    requires Valid(v) && !k.Char? && !k.Newline? && !k.Backspace?
    ensures Flatten(v).off <= |Flatten(v).text|
    ensures Valid(Move(v, k)) && Flatten(Move(v, k)) == FlatAct(Flatten(v), k)
  {
    hide Text, Ended, StartOf, EndOf, Newlines, LineOk, Above, Below, InLine;
    match k
    case Up => UpRefines(v, k);
    case PageUp => UpRefines(v, k);
    case Down => DownRefines(v, k);
    case PageDown => DownRefines(v, k);
    case _ => Neighbours(v);
  }

  /** The buffer refines the flat text: every key acts on lines and cursor as it does on one
      string and one offset. */
  lemma ActRefines(v: View, k: Key)
    requires Valid(v) && Typed(k)
    ensures Flatten(v).off <= |Flatten(v).text|
    ensures Valid(Act(v, k)) && Flatten(Act(v, k)) == FlatAct(Flatten(v), k)
  {
    match k
    case Char(c) => InsertRefines(v, c);
    case Newline => BreakRefines(v);
    case Backspace => EraseRefines(v);
    case _ => MoveRefines(v, k);
  }

  // ----------------------------------------------------------------- the view

  /** The flat text with the number of the first line on the screen. */
  datatype Screen = Screen(flat: Flat, top: nat)

  function Shown(v: View): (r: Screen)
    requires Valid(v)
  {
    Screen(Flatten(v), v.scroll)
  }

  /** The line the offset is on. */
  function Row(f: Flat): (r: nat)
    requires f.off <= |f.text|
  {
    Newlines(f.text[..f.off])
  }

  /** One key: the view moves no further than it must to show the cursor, except that paging up
      puts the cursor on the last row, or the text's top on the first, and paging down puts it on
      the first row. */
  function FlatStep(s: Screen, k: Key): (r: Screen)
    requires s.flat.off <= |s.flat.text|
    ensures r.flat.off <= |r.flat.text|
  {
    var f := FlatAct(s.flat, k);
    var row, last := Row(f), CONTENT_H - 1;
    match k
    case PageUp => Screen(f, if row < last then 0 else row - last)
    case PageDown => Screen(f, row)
    case _ =>
      Screen(f, if row < s.top then row else if s.top + last < row then row - last else s.top)
  }

  lemma RowIs(v: View)
    requires Valid(v)
    ensures Flatten(v).off <= |Flatten(v).text| && Row(Flatten(v)) == v.y
  {
    hide Text, Ended, Begun, Newlines;
    forall i | 0 <= i < |v.doc| ensures '\n' !in v.doc[i] { assert LineOk(v.doc[i]); }
    var e, l, b := Ended(v.doc[..v.y]), v.doc[v.y], Begun(v.doc[v.y + 1..]);
    TextAround(v.doc, v.y);
    CutInside(e, l, b, v.x);
    NewlinesAppend(e, l[..v.x]);
    NewlinesEnded(v.doc[..v.y]);
    NewlinesNone(l[..v.x]);
  }

  /** Scrolling moves the view only if the cursor is outside it, and then to the nearest place
      from which it is seen. */
  lemma ScrollNearest(v: View, s: nat)
    requires InViewport(v.(scroll := s))
    ensures var r := Scroll(v);
            && InViewport(r) && r.(scroll := v.scroll) == v
            && (InViewport(v) ==> r == v)
            && (if v.scroll <= s then v.scroll <= r.scroll <= s else s <= r.scroll <= v.scroll)
  {
  }

  lemma ActScrolls(v: View, k: Key)
    requires Valid(v)
    ensures !k.PageUp? && !k.PageDown? ==> Act(v, k).scroll == v.scroll
  {
  }

  /** One round of the loop refines one key of the flat machine, the view included. */
  lemma StepRefines(v: View, k: Key)
    requires Valid(v) && Typed(k)
    ensures Shown(v).flat.off <= |Shown(v).flat.text|
    ensures Valid(Step(v, k)) && Shown(Step(v, k)) == FlatStep(Shown(v), k)
  {
    hide Text, Ended, StartOf, EndOf, Newlines, LineOk, Row, FlatAct, Offset, Insert, Break, Erase;
    ActRefines(v, k);
    StepValid(v, k);
    RowIs(Act(v, k));
    ActScrolls(v, k);
    assert Flatten(Step(v, k)) == Flatten(Act(v, k));
  }

  function Run(v: View, keys: seq<Key>): (r: View)
    requires Valid(v) && forall k | k in keys :: Typed(k)
    decreases |keys|
  {
    if keys == [] then v else StepValid(v, keys[0]); Run(Step(v, keys[0]), keys[1..])
  }

  function FlatRun(s: Screen, keys: seq<Key>): (r: Screen)
    requires s.flat.off <= |s.flat.text|
    decreases |keys|
  {
    if keys == [] then s else FlatRun(FlatStep(s, keys[0]), keys[1..])
  }

  lemma ShownIs(v: View)
    requires Valid(v)
    ensures Shown(v) == Screen(Flatten(v), v.scroll)
  {
  }

  /** Over every run of keys text, offset and view evolve exactly as the flat machine's, the
      buffer stays well-formed, and after any key the cursor is in view. */
  lemma {:induction false} RunRefines(v: View, keys: seq<Key>)
    requires Valid(v) && forall k | k in keys :: Typed(k)
    ensures Shown(v).flat.off <= |Shown(v).flat.text|
    ensures Valid(Run(v, keys)) && Shown(Run(v, keys)) == FlatRun(Shown(v), keys)
    ensures keys != [] ==> InViewport(Run(v, keys))
    decreases |keys|
  {
    hide FlatStep, Step, Shown;
    RowIs(v);
    ShownIs(v);
    if keys != [] {
      StepValid(v, keys[0]);
      StepRefines(v, keys[0]);
      RunRefines(Step(v, keys[0]), keys[1..]);
      if |keys| == 1 { assert Run(v, keys) == Step(v, keys[0]); }
    }
  }
}
