/** 8.3 file names (src/fs/fat16.c:26-62): eleven space-padded bytes and their dotted form. */
module FatNames {
  import opened CString
  import opened Common

  function Upper(c: char): (r: char) { if 'a' <= c <= 'z' then (c as int - 32) as char else c }

  function UpperAll(s: string): (r: string)
    ensures |r| == |s|
  {
    seq(|s|, i requires 0 <= i < |s| => Upper(s[i]))
  }

  const BLANK: string := "           "

  // ---------------------------------------------------------------- parsing

  /** The parsing loop from a state: what is left of the name, the bytes so far, the next
      position, and whether a dot was seen. */
  function ParseFrom(s: string, out: string, j: nat, dot: bool): (r: string)
    requires |out| == 11
    ensures |r| == 11
    decreases |s|
  {
    if s == "" || 11 <= j then out
    else if s[0] == '.' then ParseFrom(s[1..], out, if dot then j else 8, true)
    else ParseFrom(s[1..], out[j := Upper(s[0])], j + 1, dot)
  }

  function Parse(s: string): (r: string)
    ensures |r| == 11
  {
    ParseFrom(s, BLANK, 0, false)
  }

  // --------------------------------------------------------------- unparsing

  function Squeeze(s: string): (r: string)
    ensures |r| <= |s| && ' ' !in r && forall c | c in r :: c in s
  {
    if s == "" then "" else (if s[0] == ' ' then "" else [s[0]]) + Squeeze(s[1..])
  }

  /** The characters written, before the closing NUL. */
  function Unparse(n: string): (r: string)
    requires |n| == 11
    ensures |r| <= 12
  {
    Squeeze(n[..8]) + if n[8] != ' ' then "." + Squeeze(n[8..]) else ""
  }

  // -------------------------------------------------------------- good names

  predicate Blank(s: string) { forall i | 0 <= i < |s| :: s[i] == ' ' }

  /** Spaces only at the end. */
  predicate Padded(s: string) {
    forall i, j | 0 <= i < j < |s| :: s[i] == ' ' ==> s[j] == ' '
  }

  predicate Plain(c: char) { c != '.' && c != '\0' && !('a' <= c <= 'z') }

  /** An on-disk name: both parts padded at the end, no dot, NUL or small letter. */
  predicate Canonical(n: string) {
    |n| == 11 && Padded(n[..8]) && Padded(n[8..]) && forall i | 0 <= i < 11 :: Plain(n[i])
  }

  /** No dot and no space. */
  predicate Part(s: string) { '.' !in s && ' ' !in s }

  predicate DottedAt(s: string, k: nat) {
    k < |s| && s[k] == '.' && Part(s[..k]) && Part(s[k + 1..]) && 1 <= |s| - k - 1 <= 3
  }

  /** A base of at most eight characters, alone or with a dot and one to three more. */
  predicate EightThree(s: string) {
    (|s| <= 8 && Part(s)) ||
    exists k | 0 <= k <= 8 && k < |s| :: DottedAt(s, k)
  }

  // ---------------------------------------------------- parse after unparse

  /** A parsing state in which both parts have been filled from the left. */
  predicate Filling(out: string, j: nat, dot: bool) {
    && |out| == 11 && (forall i | 0 <= i < 11 :: Plain(out[i]))
    && Padded(out[..8]) && Padded(out[8..])
    && (if dot then 8 <= j else forall i | j <= i < 11 :: out[i] == ' ')
    && (forall i | 0 <= i < j && i < 11 && (dot ==> 8 <= i) :: out[i] != ' ')
  }

  lemma FillOne(out: string, j: nat, dot: bool, c: char)
    requires Filling(out, j, dot) && j < 11 && c != ' ' && Plain(c)
    ensures Filling(out[j := c], j + 1, dot)
  {
    var r := out[j := c];
    forall i, k | 0 <= i < k < 8 ensures r[..8][i] == ' ' ==> r[..8][k] == ' ' {
      assert out[..8][i] == out[i] && out[..8][k] == out[k];
    }
    forall i, k | 0 <= i < k < 3 ensures r[8..][i] == ' ' ==> r[8..][k] == ' ' {
      assert out[8..][i] == out[8 + i] && out[8..][k] == out[8 + k];
    }
  }

  /** Whatever is parsed from a name without spaces is canonical. */
  lemma {:induction false} ParseFills(s: string, out: string, j: nat, dot: bool)
    requires Filling(out, j, dot) && ' ' !in s && '\0' !in s
    ensures Canonical(ParseFrom(s, out, j, dot))
    decreases |s|
  {
    if s != "" && j < 11 {
      assert s[0] in s && forall c | c in s[1..] :: c in s;
      if s[0] == '.' {
        ParseFills(s[1..], out, if dot then j else 8, true);
      } else {
        FillOne(out, j, dot, Upper(s[0]));
        ParseFills(s[1..], out[j := Upper(s[0])], j + 1, dot);
      }
    }
  }

  lemma SqueezeStep(s: string)
    requires s != ""
    ensures Squeeze(s) == (if s[0] == ' ' then "" else [s[0]]) + Squeeze(s[1..])
  {
  }

  lemma SqueezeNone()
    ensures Squeeze("") == ""
  {
  }

  lemma {:induction false} SqueezeBlank(pad: string)
    requires Blank(pad)
    ensures Squeeze(pad) == ""
  {
    if pad != "" { SqueezeBlank(pad[1..]); }
  }

  lemma {:induction false} SqueezeWord(w: string, pad: string)
    requires ' ' !in w && Blank(pad)
    ensures Squeeze(w + pad) == w
  {
    hide Squeeze, Blank;
    if w == "" {
      assert w + pad == pad;
      SqueezeBlank(pad);
    } else {
      assert (w + pad)[1..] == w[1..] + pad && w[0] in w && forall c | c in w[1..] :: c in w;
      SqueezeWord(w[1..], pad);
      SqueezeStep(w + pad);
      assert (w + pad)[0] == w[0];
      assert [w[0]] + w[1..] == w;
    }
  }

  lemma PaddedTail(s: string)
    requires Padded(s) && s != ""
    ensures Padded(s[1..]) && (s[0] == ' ' ==> Blank(s))
  {
    forall i, j | 0 <= i < j < |s| - 1 ensures s[1..][i] == ' ' ==> s[1..][j] == ' ' {
      assert s[1..][i] == s[i + 1] && s[1..][j] == s[j + 1];
    }
  }

  lemma WordCons(s: string, w: string)
    requires s != "" && |w| < |s| && s[1..][..|w|] == w && Blank(s[1..][|w|..])
    ensures s[..1 + |w|] == [s[0]] + w && Blank(s[1 + |w|..])
  {
    assert s[..1 + |w|] == [s[0]] + s[1..][..|w|];
    assert s[1 + |w|..] == s[1..][|w|..];
  }

  /** A padded part is its squeezed word and blanks. */
  lemma {:induction false} SqueezePadded(s: string)
    requires Padded(s)
    ensures var w := Squeeze(s); s[..|w|] == w && Blank(s[|w|..])
  {
    hide Squeeze, Padded;
    if s == "" {
      SqueezeNone();
    } else {
      PaddedTail(s);
      SqueezeStep(s);
      if s[0] == ' ' {
        assert "" + s == s;
        SqueezeWord("", s);
      } else {
        SqueezePadded(s[1..]);
        WordCons(s, Squeeze(s[1..]));
      }
    }
  }

  lemma PutFirst(out: string, j: nat, w: string)
    requires |out| == 11 && w != "" && j + |w| <= 11
    ensures var r := out[j := Upper(w[0])];
            r[..j + 1] + UpperAll(w[1..]) + r[j + 1 + |w[1..]|..] == out[..j] + UpperAll(w) + out[j + |w|..]
  {
    var r := out[j := Upper(w[0])];
    assert UpperAll(w) == [Upper(w[0])] + UpperAll(w[1..]);
    assert r[..j + 1] == out[..j] + [Upper(w[0])];
    assert r[j + |w|..] == out[j + |w|..];
  }

  lemma UpperNone()
    ensures UpperAll("") == ""
  {
  }

  lemma ParseOne(c: char, s: string, out: string, j: nat, dot: bool)
    requires |out| == 11 && j < 11 && c != '.'
    ensures ParseFrom([c] + s, out, j, dot) == ParseFrom(s, out[j := Upper(c)], j + 1, dot)
  {
    assert ([c] + s)[1..] == s;
  }

  /** A run of characters without a dot goes to successive positions, in capitals. */
  lemma {:induction false} ParseRun(l: string, rest: string, out: string, j: nat, dot: bool)
    requires |out| == 11 && '.' !in l && j + |l| <= 11
    ensures ParseFrom(l + rest, out, j, dot)
         == ParseFrom(rest, out[..j] + UpperAll(l) + out[j + |l|..], j + |l|, dot)
    decreases |l|
  {
    hide UpperAll, ParseFrom;
    if l == "" {
      assert l + rest == rest;
      UpperNone();
      assert out[..j] + "" + out[j..] == out;
    } else {
      assert l[0] in l && forall c | c in l[1..] :: c in l;
      ParseOne(l[0], l[1..] + rest, out, j, dot);
      assert [l[0]] + (l[1..] + rest) == l + rest;
      ParseRun(l[1..], rest, out[j := Upper(l[0])], j + 1, dot);
      PutFirst(out, j, l);
    }
  }

  lemma ParseDot(s: string, out: string, j: nat, dot: bool)
    requires |out| == 11 && j < 11
    ensures ParseFrom("." + s, out, j, dot) == ParseFrom(s, out, if dot then j else 8, true)
  {
    assert ("." + s)[1..] == s;
  }

  lemma ParseEnd(out: string, j: nat, dot: bool)
    requires |out| == 11
    ensures ParseFrom("", out, j, dot) == out
  {
  }

  lemma NothingBefore(s: string, l: string, t: string)
    ensures s[..0] + l + t == l + t
  {
    assert s[..0] + l == l;
  }

  /** A run of at most the characters left to fill replaces as many blanks. */
  lemma ParseStart(l: string, rest: string)
    requires '.' !in l && |l| <= 8
    ensures ParseFrom(l + rest, BLANK, 0, false) == ParseFrom(rest, UpperAll(l) + BLANK[|l|..], |l|, false)
  {
    hide ParseFrom, UpperAll;
    ParseRun(l, rest, BLANK, 0, false);
    NothingBefore(BLANK, UpperAll(l), BLANK[|l|..]);
  }

  lemma ParseBase(b: string)
    requires '.' !in b && |b| <= 8
    ensures Parse(b) == UpperAll(b) + BLANK[|b|..]
  {
    hide ParseFrom, UpperAll;
    ParseStart(b, "");
    assert b + "" == b;
    ParseEnd(UpperAll(b) + BLANK[|b|..], |b|, false);
  }

  lemma ParseExtension(w: string, e: string)
    requires |w| == 8 && '.' !in e && |e| <= 3
    ensures ParseFrom(e, w + BLANK[8..], 8, true) == w + UpperAll(e) + BLANK[8 + |e|..]
  {
    hide ParseFrom, UpperAll;
    var out := w + BLANK[8..];
    ParseRun(e, "", out, 8, true);
    assert e + "" == e;
    assert out[..8] == w && out[8 + |e|..] == BLANK[8 + |e|..];
    ParseEnd(w + UpperAll(e) + BLANK[8 + |e|..], 8 + |e|, true);
  }

  lemma ParseDotted(b: string, e: string)
    requires '.' !in b && '.' !in e && |b| <= 8 && |e| <= 3
    ensures Parse(b + "." + e) == UpperAll(b) + BLANK[|b|..8] + UpperAll(e) + BLANK[8 + |e|..]
  {
    hide ParseFrom, UpperAll;
    assert b + "." + e == b + ("." + e);
    ParseStart(b, "." + e);
    var w := UpperAll(b) + BLANK[|b|..8];
    assert w + BLANK[8..] == UpperAll(b) + BLANK[|b|..];
    ParseDot(e, w + BLANK[8..], |b|, false);
    ParseExtension(w, e);
  }

  lemma PlainUpper(n: string, w: string)
    requires (forall i | 0 <= i < |n| :: Plain(n[i])) && forall c | c in w :: c in n
    ensures UpperAll(w) == w && '.' !in w && '\0' !in w
  {
    forall i | 0 <= i < |w| ensures Upper(w[i]) == w[i] && w[i] != '.' && w[i] != '\0' {
      assert w[i] in w && w[i] in n;
    }
  }

  /** Unparsing blank-padded parts. */
  lemma UnparseParts(b: string, e: string)
    requires |b| <= 8 && |e| <= 3 && ' ' !in b && ' ' !in e
    ensures Unparse(b + BLANK[|b|..8] + e + BLANK[8 + |e|..]) == b + if e == "" then "" else "." + e
  {
    var n := b + BLANK[|b|..8] + e + BLANK[8 + |e|..];
    assert n[..8] == b + BLANK[|b|..8] && n[8..] == e + BLANK[8 + |e|..];
    SqueezeWord(b, BLANK[|b|..8]);
    SqueezeWord(e, BLANK[8 + |e|..]);
    assert n[8] == n[8..][0] == if e == "" then ' ' else e[0];
    assert e != "" ==> e[0] in e;
  }

  lemma PartsRoundTrip(b: string, e: string)
    requires |b| <= 8 && |e| <= 3 && UpperAll(b) == b && UpperAll(e) == e
    requires '.' !in b && '.' !in e && '\0' !in b && '\0' !in e
    ensures Parse(CStr(b + if e == "" then "" else "." + e)) == b + BLANK[|b|..8] + e + BLANK[8 + |e|..]
  {
    hide Parse, UpperAll, CStr;
    CStrClean(b + if e == "" then "" else "." + e);
    if e == "" {
      ParseBase(b);
      assert b + "" == b && BLANK[|b|..8] + "" + BLANK[8..] == BLANK[|b|..];
    } else {
      ParseDotted(b, e);
      assert b + ("." + e) == b + "." + e;
    }
  }

  lemma JoinParts(n: string, b: string, e: string)
    requires |n| == 11 && |b| <= 8 && |e| <= 3
    requires n[..8][..|b|] == b && Blank(n[..8][|b|..]) && n[8..][..|e|] == e && Blank(n[8..][|e|..])
    ensures n == b + BLANK[|b|..8] + e + BLANK[8 + |e|..]
  {
    assert n[..8] == b + BLANK[|b|..8] by {
      assert n[..8] == n[..8][..|b|] + n[..8][|b|..];
      assert n[..8][|b|..] == BLANK[|b|..8];
    }
    assert n[8..] == e + BLANK[8 + |e|..] by {
      assert n[8..] == n[8..][..|e|] + n[8..][|e|..];
      assert n[8..][|e|..] == BLANK[8 + |e|..];
    }
    assert n == n[..8] + n[8..];
  }

  lemma CanonicalRoundTrip(n: string)
    requires Canonical(n)
    ensures Parse(CStr(Unparse(n))) == n
  {
    hide Unparse, Squeeze, Parse, UpperAll, CStr, Plain;
    var b, e := Squeeze(n[..8]), Squeeze(n[8..]);
    SqueezePadded(n[..8]);
    SqueezePadded(n[8..]);
    JoinParts(n, b, e);
    UnparseParts(b, e);
    assert (forall c | c in n[..8] :: c in n) && (forall c | c in n[8..] :: c in n);
    PlainUpper(n, b);
    PlainUpper(n, e);
    PartsRoundTrip(b, e);
  }

  lemma NoSpaceUnparsed(n: string)
    requires |n| == 11
    ensures ' ' !in Unparse(n)
  {
    hide Squeeze;
    var e := if n[8] != ' ' then "." + Squeeze(n[8..]) else "";
    assert Unparse(n) == Squeeze(n[..8]) + e;
    assert ' ' !in e;
  }

  lemma BlankFilling()
    ensures Filling(BLANK, 0, false)
  {
  }

  lemma UnparsedIsCanonical(n: string)
    requires |n| == 11
    ensures Canonical(Parse(CStr(Unparse(n))))
  {
    hide Unparse, ParseFrom, CStr, Canonical;
    var u := Unparse(n);
    NoSpaceUnparsed(n);
    assert forall c | c in CStr(u) :: c in u;
    BlankFilling();
    ParseFills(CStr(u), BLANK, 0, false);
  }

  /** Parsing what unparsing wrote gives the eleven bytes back exactly for canonical names. */
  lemma ParseUnparseIff(n: string)
    requires |n| == 11
    ensures Parse(CStr(Unparse(n))) == n <==> Canonical(n)
  {
    hide Unparse, CStr, ParseFrom, Canonical;
    if Canonical(n) { CanonicalRoundTrip(n); } else { UnparsedIsCanonical(n); }
  }

  // ------------------------------------------------------------ every name

  /** What comes before the first dot. */
  function Base(s: string): (r: string)
    ensures |r| <= |s| && r == s[..|r|] && '.' !in r && (|r| < |s| ==> s[|r|] == '.')
  {
    if s == "" || s[0] == '.' then "" else [s[0]] + Base(s[1..])
  }

  function Undotted(s: string): (r: string) {
    if s == "" then "" else (if s[0] == '.' then "" else [s[0]]) + Undotted(s[1..])
  }

  lemma ParseStops(s: string, out: string, j: nat)
    requires |out| == 11 && (s == "" || j == 11)
    ensures ParseFrom(s, out, j, true) == out
  {
  }

  lemma UndottedStep(s: string)
    ensures Undotted(s) == if s == "" then "" else (if s[0] == '.' then "" else [s[0]]) + Undotted(s[1..])
  {
  }

  /** After the first dot the other characters fill the last positions, dots aside. */
  lemma {:induction false} ParseTail(s: string, out: string, j: nat)
    requires |out| == 11 && 8 <= j <= 11
    ensures var e := Undotted(s);
            var m := Min(|e|, 11 - j);
            ParseFrom(s, out, j, true) == out[..j] + UpperAll(e[..m]) + out[j + m..]
    decreases |s|
  {
    hide ParseFrom, UpperAll, Undotted;
    var e := Undotted(s);
    var m := Min(|e|, 11 - j);
    UndottedStep(s);
    if s == "" || j == 11 {
      ParseStops(s, out, j);
      UpperNone();
      assert e[..m] == "" && out[..j] + "" + out[j..] == out;
    } else if s[0] == '.' {
      assert s == "." + s[1..];
      assert "" + Undotted(s[1..]) == Undotted(s[1..]);
      ParseDot(s[1..], out, j, true);
      ParseTail(s[1..], out, j);
    } else {
      assert s == [s[0]] + s[1..];
      ParseOne(s[0], s[1..], out, j, true);
      ParseTail(s[1..], out[j := Upper(s[0])], j + 1);
      PutFirst(out, j, e[..m]);
      assert e[..m][1..] == Undotted(s[1..])[..m - 1];
    }
  }

  lemma ParseFull(s: string, out: string)
    requires |out| == 11
    ensures ParseFrom(s, out, 11, false) == out
  {
  }

  lemma UndottedTail(s: string)
    ensures Undotted("." + s) == Undotted(s)
  {
    assert ("." + s)[1..] == s;
  }

  /** What any name is read as: its first eleven characters when no dot is among them; otherwise
      the part before the first dot and, from the ninth position on and over anything there, the
      first three characters behind it that are not dots; all in capitals. */
  lemma ParseIs(s: string)
    ensures var b, e := Base(s), Undotted(s[|Base(s)|..]);
            var out, m := UpperAll(b[..Min(|b|, 11)]) + BLANK[Min(|b|, 11)..], Min(|e|, 3);
            Parse(s) == if 11 <= |b| || |b| == |s| then out else out[..8] + UpperAll(e[..m]) + out[8 + m..]
  {
    hide ParseFrom, UpperAll, Undotted;
    var b := Base(s);
    if 11 <= |b| {
      ParseRun(b[..11], s[11..], BLANK, 0, false);
      assert b[..11] + s[11..] == s;
      NothingBefore(BLANK, UpperAll(b[..11]), BLANK[11..]);
      ParseFull(s[11..], UpperAll(b[..11]) + BLANK[11..]);
    } else {
      ParseRun(b, s[|b|..], BLANK, 0, false);
      assert b + s[|b|..] == s && b[..|b|] == b;
      NothingBefore(BLANK, UpperAll(b), BLANK[|b|..]);
      var out := UpperAll(b) + BLANK[|b|..];
      if |b| == |s| {
        ParseEnd(out, |b|, false);
      } else {
        var rest := s[|b| + 1..];
        assert s[|b|..] == "." + rest;
        ParseDot(rest, out, |b|, false);
        UndottedTail(rest);
        ParseTail(rest, out, 8);
      }
    }
  }

  /** Unparsing drops the spaces of each part, wherever they are ... */
  lemma {:induction false} SqueezeAppend(a: string, b: string)
    ensures Squeeze(a + b) == Squeeze(a) + Squeeze(b)
  {
    if a == "" {
      assert a + b == b;
    } else {
      assert (a + b)[1..] == a[1..] + b;
      SqueezeAppend(a[1..], b);
    }
  }

  /** ... and an extension that begins with one, whatever follows. */
  lemma BlankExtensionDropped(n: string)
    requires |n| == 11 && n[8] == ' '
    ensures Unparse(n) == Squeeze(n[..8])
  {
    assert Squeeze(n[..8]) + "" == Squeeze(n[..8]);
  }

  // ---------------------------------------------------- unparse after parse

  lemma {:induction false} ParseNoDot(s: string, out: string, j: nat, dot: bool)
    requires |out| == 11 && '.' !in out
    ensures '.' !in ParseFrom(s, out, j, dot)
    decreases |s|
  {
    if s != "" && j < 11 {
      if s[0] == '.' {
        ParseNoDot(s[1..], out, if dot then j else 8, true);
      } else {
        assert forall c | c in out[j := Upper(s[0])] :: c == Upper(s[0]) || c in out;
        ParseNoDot(s[1..], out[j := Upper(s[0])], j + 1, dot);
      }
    }
  }

  lemma UnparseShape(n: string)
    requires |n| == 11 && '.' !in n
    ensures EightThree(Unparse(n))
  {
    var b, e := Squeeze(n[..8]), Squeeze(n[8..]);
    if n[8] != ' ' {
      var u := Unparse(n);
      assert e[0] == n[8];
      assert u[..|b|] == b && u[|b| + 1..] == e;
      assert DottedAt(u, |b|);
    }
  }

  lemma UpperKeeps(c: char)
    ensures (Upper(c) == '.' <==> c == '.') && (Upper(c) == ' ' <==> c == ' ')
  {
  }

  lemma UpperPart(w: string)
    ensures Part(UpperAll(w)) <==> Part(w)
  {
    forall i | 0 <= i < |w| ensures UpperAll(w)[i] == Upper(w[i]) { UpperKeeps(w[i]); }
    forall i | 0 <= i < |w|
      ensures (UpperAll(w)[i] == '.' <==> w[i] == '.') && (UpperAll(w)[i] == ' ' <==> w[i] == ' ')
    {
      UpperKeeps(w[i]);
    }
    if Part(w) {
      forall c | c in UpperAll(w) ensures c != '.' && c != ' ' { var i :| 0 <= i < |w| && UpperAll(w)[i] == c; }
    }
    if Part(UpperAll(w)) {
      forall c | c in w ensures c != '.' && c != ' ' {
        var i :| 0 <= i < |w| && w[i] == c;
        assert UpperAll(w)[i] in UpperAll(w);
      }
    }
  }

  lemma UpperShape(s: string)
    requires EightThree(UpperAll(s))
    ensures EightThree(s)
  {
    var u := UpperAll(s);
    UpperPart(s);
    if !(|u| <= 8 && Part(u)) {
      var k :| 0 <= k <= 8 && k < |u| && DottedAt(u, k);
      UpperKeeps(s[k]);
      UpperPart(s[..k]);
      UpperPart(s[k + 1..]);
      assert u[..k] == UpperAll(s[..k]) && u[k + 1..] == UpperAll(s[k + 1..]);
      assert DottedAt(s, k);
    }
  }

  lemma PartFacts(w: string)
    ensures Part(w) ==> '.' !in w && ' ' !in w
  {
  }

  lemma DottedRoundTrip(b: string, e: string)
    requires Part(b) && Part(e) && |b| <= 8 && 1 <= |e| <= 3
    ensures Unparse(Parse(b + "." + e)) == UpperAll(b + "." + e)
  {
    hide Unparse, Squeeze, ParseFrom, Parse, Part;
    PartFacts(b);
    PartFacts(e);
    ParseDotted(b, e);
    UpperPart(b);
    UpperPart(e);
    PartFacts(UpperAll(b));
    PartFacts(UpperAll(e));
    UnparseParts(UpperAll(b), UpperAll(e));
    assert UpperAll(b + "." + e) == UpperAll(b) + ("." + UpperAll(e));
  }

  lemma BaseRoundTrip(s: string)
    requires |s| <= 8 && Part(s)
    ensures Unparse(Parse(s)) == UpperAll(s)
  {
    hide Unparse, Squeeze, ParseFrom, Parse, UpperAll, Part;
    PartFacts(s);
    ParseBase(s);
    UpperPart(s);
    PartFacts(UpperAll(s));
    UnparseParts(UpperAll(s), "");
    assert UpperAll(s) + BLANK[|s|..8] + "" + BLANK[8..] == UpperAll(s) + BLANK[|s|..];
  }

  lemma EightThreeRoundTrip(s: string)
    requires EightThree(s)
    ensures Unparse(Parse(s)) == UpperAll(s)
  {
    hide Unparse, Squeeze, ParseFrom, Parse, UpperAll;
    if |s| <= 8 && Part(s) {
      BaseRoundTrip(s);
    } else {
      var k :| 0 <= k <= 8 && k < |s| && DottedAt(s, k);
      DottedRoundTrip(s[..k], s[k + 1..]);
      assert s == s[..k] + "." + s[k + 1..];
    }
  }

  /** Unparsing what parsing read gives the name in capitals exactly for 8.3 names. */
  lemma UnparseParseIff(s: string)
    ensures Unparse(Parse(s)) == UpperAll(s) <==> EightThree(s)
  {
    if EightThree(s) {
      EightThreeRoundTrip(s);
    } else if Unparse(Parse(s)) == UpperAll(s) {
      ParseNoDot(s, BLANK, 0, false);
      UnparseShape(Parse(s));
      UpperShape(s);
    }
  }

  lemma SqueezesInner()
    ensures Squeeze("A B     ") == "AB"
  {
    assert "B" + "     " == "B     ";
    SqueezeWord("B", "     ");
    hide Squeeze;
    SqueezeStep("A B     ");
    SqueezeStep(" B     ");
    assert "A B     "[1..] == " B     " && " B     "[1..] == "B     ";
  }

  lemma UpperWords()
    ensures UpperAll("AB") == "AB" && UpperAll("A") == "A" && UpperAll("B") == "B" && UpperAll("C") == "C"
  {
  }

  /** An inner space does not survive: "A B" comes back as "AB". */
  lemma InnerSpaceLost()
    ensures Parse(CStr(Unparse("A B        "))) == "AB         " && !Canonical("A B        ")
  {
    hide Squeeze, Parse, CStr, UpperAll;
    SqueezesInner();
    assert "A B        "[..8] == "A B     ";
    CStrClean("AB");
    ParseBase("AB");
    UpperWords();
    assert "AB" + BLANK[2..] == "AB         ";
    assert !Padded("A B        "[..8]) by { assert "A B        "[..8][1] == ' ' && "A B        "[..8][2] == 'B'; }
  }

  lemma ParsesLast()
    ensures ParseFrom("C", "A       B  ", 9, true) == "A       BC "
  {
    hide ParseFrom, UpperAll;
    UpperWords();
    ParseRun("C", "", "A       B  ", 9, true);
    assert "C" + "" == "C" && "A       B  "[..9] + "C" + "A       B  "[10..] == "A       BC ";
    ParseEnd("A       BC ", 10, true);
  }

  lemma ParsesSecondDot()
    ensures ParseFrom("B.C", "A          ", 8, true) == "A       BC "
  {
    hide ParseFrom, UpperAll;
    UpperWords();
    ParseRun("B", ".C", "A          ", 8, true);
    assert "B" + ".C" == "B.C" && "A          "[..8] + "B" + "A          "[9..] == "A       B  ";
    ParseDot("C", "A       B  ", 9, true);
    assert "." + "C" == ".C";
    ParsesLast();
  }

  lemma ParsesTwoDots()
    ensures Parse("A.B.C") == "A       BC "
  {
    hide ParseFrom, UpperAll;
    UpperWords();
    ParseStart("A", ".B.C");
    assert "A" + ".B.C" == "A.B.C" && "A" + BLANK[1..] == "A          ";
    ParseDot("B.C", "A          ", 1, false);
    assert "." + "B.C" == ".B.C";
    ParsesSecondDot();
  }

  /** The second dot of "A.B.C" is lost. */
  lemma SecondDotLost()
    ensures Parse("A.B.C") == "A       BC " && Unparse(Parse("A.B.C")) == "A.BC" && !EightThree("A.B.C")
  {
    hide Squeeze, Unparse, ParseFrom, UpperAll, EightThree;
    ParsesTwoDots();
    UnparseParts("A", "BC");
    assert "A" + BLANK[1..8] + "BC" + BLANK[10..] == "A       BC ";
    UnparseParseIff("A.B.C");
    assert |UpperAll("A.B.C")| == 5 && |"A.BC"| == 4;
  }

  // ---------------------------------------------------------------- the code

  method ParseName(input: array<char>, output: array<char>)
    requires input != output && Terminated(input[..]) && output.Length == 11
    modifies output
    ensures output[..] == Parse(CStr(input[..]))
  {
    for k := 0 to 11
      invariant forall i | 0 <= i < k :: output[i] == ' '
    {
      output[k] := ' ';
    }
    ghost var s := CStr(input[..]);
    assert output[..] == BLANK;
    var i, j: nat, dotSeen := 0, 0, false;
    assert s[0..] == s;
    EndAt(input[..], 0);
    while input[i] != '\0' && j < 11
      invariant i <= |s| && Parse(s) == ParseFrom(s[i..], output[..], j, dotSeen)
      decreases |s| - i
    {
      EndAt(input[..], i);
      assert s[i..][1..] == s[i + 1..];
      if input[i] == '.' {
        if !dotSeen {
          dotSeen := true;
          j := 8;
        }
      } else {
        var c := input[i];
        if 'a' <= c <= 'z' { c := (c as int - 32) as char; }
        ghost var out := output[..];
        output[j] := c;
        assert output[..] == out[j := Upper(input[i])];
        j := j + 1;
      }
      i := i + 1;
    }
    EndAt(input[..], i);
  }

  /** Copy the characters of input[lo..hi] that are not spaces to output, from j on. */
  method CopyNonSpaces(input: array<char>, lo: nat, hi: nat, output: array<char>, j0: nat) returns (j: nat)
    requires input != output && lo <= hi <= input.Length && j0 + hi - lo <= output.Length
    modifies output
    ensures j == j0 + |Squeeze(input[lo..hi])| <= output.Length
    ensures output[..j] == old(output[..j0]) + Squeeze(input[lo..hi])
  {
    hide Squeeze;
    j := j0;
    for i := lo to hi
      invariant j0 <= j <= j0 + i - lo
      invariant output[..j] + Squeeze(input[i..hi]) == old(output[..j0]) + Squeeze(input[lo..hi])
    {
      assert input[i..hi][1..] == input[i + 1..hi];
      SqueezeStep(input[i..hi]);
      if input[i] != ' ' {
        output[j] := input[i];
        assert output[..j + 1] == output[..j] + [input[i]];
        j := j + 1;
      }
    }
    assert input[hi..hi] == [];
    SqueezeNone();
  }

  lemma {:induction false} StopsAtNul(s: seq<char>, u: string)
    requires |u| < |s| && s[..|u|] == u && s[|u|] == '\0'
    ensures CStr(s) == CStr(u) && Terminated(s)
  {
    if u != "" && u[0] != '\0' {
      assert s[1..][..|u| - 1] == u[1..];
      StopsAtNul(s[1..], u[1..]);
    }
  }

  method UnparseName(input: array<char>, output: array<char>)
    requires input != output && input.Length == 11 && output.Length == 13
    modifies output
    ensures CStr(output[..]) == CStr(Unparse(input[..])) && Terminated(output[..])
  {
    hide Squeeze, CStr;
    ghost var n := input[..];
    assert input[0..8] == n[..8] && input[8..11] == n[8..];
    var j := CopyNonSpaces(input, 0, 8, output, 0);
    if input[8] != ' ' {
      output[j] := '.';
      assert output[..j + 1] == output[..j] + ".";
      j := CopyNonSpaces(input, 8, 11, output, j + 1);
    }
    assert output[..j] == Unparse(n);
    output[j] := '\0';
    StopsAtNul(output[..], Unparse(n));
  }
}
