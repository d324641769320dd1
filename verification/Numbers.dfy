/** Printing and reading integers (src/libc/string.c:89-177): digits are emitted backwards and
    reversed in place, and read back from the left. */
module Numbers {
  import opened CString
  import opened Common

  function DigitChar(d: nat): (r: char)
    requires d < 16
  {
    if 9 < d then ('a' as int + d - 10) as char else ('0' as int + d) as char
  }

  /** The digits of v in a base, most significant first; none for 0. */
  function Digits(v: nat, base: nat): (r: string)
    requires 2 <= base <= 16
    decreases v
  {
    if v == 0 then "" else Digits(v / base, base) + [DigitChar(v % base)]
  }

  /** What uitoa writes. */
  function Unsigned(v: nat, base: nat): (r: string)
    requires 2 <= base <= 16
  {
    if v == 0 then "0" else Digits(v, base)
  }

  /** What itoa writes for a 32-bit signed value: a sign in base 10 only. */
  function Signed(v: int, base: nat): (r: string)
    requires 2 <= base <= 16 && -0x8000_0000 <= v < 0x8000_0000
  {
    if v < 0 && base == 10 then "-" + Digits(-v, 10) else Unsigned(if v < 0 then v + WORD else v, base)
  }

  // --------------------------------------------------------------- meaning

  function DigitValue(c: char): (r: nat) {
    if '0' <= c <= '9' then c as int - '0' as int
    else if 'a' <= c <= 'f' then c as int - 'a' as int + 10
    else 0
  }

  /** The value of a digit string. */
  function Value(s: string, base: nat): (r: nat)
    requires 2 <= base <= 16
    decreases |s|
  {
    if s == "" then 0 else Value(s[..|s| - 1], base) * base + DigitValue(s[|s| - 1])
  }

  lemma DigitRoundTrip(d: nat)
    requires d < 16
    ensures DigitValue(DigitChar(d)) == d && DigitChar(d) != '\0'
    ensures d < 10 ==> '0' <= DigitChar(d) <= '9'
    ensures DigitChar(d) == '0' <==> d == 0
  {
  }

  lemma Doubles(q: nat, base: nat)
    requires 2 <= base
    ensures 2 * q <= q * base
  {
    assert q * base == 2 * q + q * (base - 2);
  }

  lemma Smaller(v: nat, base: nat)
    requires 2 <= base && v != 0
    ensures v / base < v && v == v / base * base + v % base && v % base < base
    ensures v / base == 0 ==> v % base == v
  {
    var q, r := v / base, v % base;
    assert v == q * base + r;
    Doubles(q, base);
  }

  lemma DigitsSnoc(v: nat, base: nat)
    requires 2 <= base <= 16 && v != 0
    ensures var s := Digits(v, base);
            s != "" && s[..|s| - 1] == Digits(v / base, base) && s[|s| - 1] == DigitChar(v % base)
  {
  }

  lemma NoDigits(base: nat)
    requires 2 <= base <= 16
    ensures Digits(0, base) == ""
  {
  }

  /** The digits denote the number ... */
  lemma {:induction false} DigitsMean(v: nat, base: nat)
    requires 2 <= base <= 16
    ensures Value(Digits(v, base), base) == v
    decreases v
  {
    hide Digits, DigitChar, DigitValue;
    if v != 0 {
      Smaller(v, base);
      DigitsMean(v / base, base);
      DigitRoundTrip(v % base);
      DigitsSnoc(v, base);
    } else {
      NoDigits(base);
      assert Value("", base) == 0;
    }
  }

  /** ... in characters of the base ... */
  lemma {:induction false} DigitsInBase(v: nat, base: nat, i: nat)
    requires 2 <= base <= 16 && i < |Digits(v, base)|
    ensures exists d | 0 <= d < base :: Digits(v, base)[i] == DigitChar(d)
    decreases v
  {
    hide Digits, DigitChar;
    if v == 0 {
      NoDigits(base);
    } else {
      Smaller(v, base);
      DigitsSnoc(v, base);
      var s, r := Digits(v, base), Digits(v / base, base);
      if i < |r| {
        assert s[i] == s[..|s| - 1][i] == r[i];
        DigitsInBase(v / base, base, i);
      } else {
        assert s[i] == DigitChar(v % base);
      }
    }
  }

  /** ... and without a leading zero. */
  lemma {:induction false} NoLeadingZero(v: nat, base: nat)
    requires 2 <= base <= 16 && v != 0
    ensures Digits(v, base) != "" && Digits(v, base)[0] != '0'
    decreases v
  {
    hide Digits, DigitChar;
    Smaller(v, base);
    DigitsSnoc(v, base);
    DigitRoundTrip(v % base);
    var s, r := Digits(v, base), Digits(v / base, base);
    if v / base == 0 {
      NoDigits(base);
      assert |s| == 1;
    } else {
      NoLeadingZero(v / base, base);
      assert s[0] == s[..|s| - 1][0] == r[0];
    }
  }

  function Power(base: nat, k: nat): (p: nat) { if k == 0 then 1 else base * Power(base, k - 1) }

  lemma {:induction false} MulMono(a: nat, b: nat, c: nat)
    requires a <= b
    ensures a * c <= b * c
  {
    if a < b {
      MulMono(a, b - 1, c);
      assert b * c == (b - 1) * c + c;
    }
  }

  lemma MulBelow(q: nat, r: nat, base: nat, p: nat)
    requires r < base && q < p
    ensures q * base + r < p * base
  {
    assert (q + 1) * base == q * base + base;
    MulMono(q + 1, p, base);
  }

  lemma MulLess(q: nat, r: nat, base: nat, p: nat)
    requires r < base
    ensures q < p <==> q * base + r < base * p
  {
    if q < p { MulBelow(q, r, base, p); } else { MulMono(p, q, base); }
  }

  lemma {:induction false} PowerPositive(base: nat, k: nat)
    requires 0 < base
    ensures 0 < Power(base, k)
  {
    if 0 < k { PowerPositive(base, k - 1); }
  }

  /** A number has at most k digits in a base exactly when it lies below the base to the k. */
  lemma {:induction false} LengthIff(v: nat, base: nat, k: nat)
    requires 2 <= base <= 16
    ensures |Digits(v, base)| <= k <==> v < Power(base, k)
    decreases k
  {
    hide Digits;
    if v == 0 {
      NoDigits(base);
      PowerPositive(base, k);
    } else {
      DigitsSnoc(v, base);
      if 0 < k {
        LengthIff(v / base, base, k - 1);
        Smaller(v, base);
        MulLess(v / base, v % base, base, Power(base, k - 1));
      }
    }
  }

  lemma {:induction false} PowerMono(a: nat, b: nat, k: nat)
    requires 0 < a <= b
    ensures Power(a, k) <= Power(b, k)
  {
    if 0 < k {
      PowerMono(a, b, k - 1);
      MulMono(a, b, Power(b, k - 1));
      MulMono(Power(a, k - 1), Power(b, k - 1), a);
    }
  }

  lemma {:induction false} PowerSum(base: nat, j: nat, k: nat)
    ensures Power(base, j + k) == Power(base, j) * Power(base, k)
  {
    if 0 < j {
      PowerSum(base, j - 1, k);
      var p, q := Power(base, j - 1), Power(base, k);
      assert base * (p * q) == (base * p) * q;
    }
  }

  /** The most digits a 32-bit number has. */
  function Longest(base: nat): (k: nat)
    ensures k <= 32
  {
    if base == 10 then 10 else if base == 16 then 8 else 32
  }

  lemma WordPowers()
    ensures Power(2, 32) == WORD && Power(16, 8) == WORD && Power(10, 10) == 10_000_000_000
  {
    PowerSum(2, 4, 4);
    PowerSum(2, 8, 8);
    PowerSum(2, 16, 16);
    PowerSum(16, 4, 4);
    PowerSum(10, 5, 5);
  }

  /** What uitoa writes fits 33 characters in every base, the closing NUL included, and 11 and
      9 in bases 10 and 16. */
  lemma UnsignedLength(v: nat, base: nat)
    requires 2 <= base <= 16 && v < WORD
    ensures |Unsigned(v, base)| <= Longest(base)
  {
    WordPowers();
    hide Digits, Power;
    PowerMono(2, base, 32);
    LengthIff(v, base, Longest(base));
  }

  /** The bounds are reached. */
  lemma LongestReached(base: nat)
    requires base == 2 || base == 10 || base == 16
    ensures |Unsigned(WORD - 1, base)| == Longest(base)
  {
    WordPowers();
    PowerSum(2, 31, 1);
    PowerSum(16, 7, 1);
    PowerSum(10, 9, 1);
    assert Power(2, 1) == 2 && Power(16, 1) == 16 && Power(10, 1) == 10;
    hide Digits, Power;
    LengthIff(WORD - 1, base, Longest(base));
    LengthIff(WORD - 1, base, Longest(base) - 1);
  }

  /** What itoa writes needs one character more in base 10, for the sign. */
  lemma SignedLength(v: int, base: nat)
    requires 2 <= base <= 16 && -0x8000_0000 <= v < 0x8000_0000
    ensures |Signed(v, base)| <= if base == 10 then 11 else Longest(base)
  {
    WordPowers();
    hide Digits, Power;
    if v < 0 && base == 10 { LengthIff(-v, 10, 10); } else { UnsignedLength(if v < 0 then v + WORD else v, base); }
  }

  // ----------------------------------------------------------------- reading

  predicate IsDigit(c: char) { '0' <= c <= '9' }

  function Trim(s: string): (r: string) { if s != "" && s[0] == ' ' then Trim(s[1..]) else s }

  /** The longest prefix of decimal digits. */
  function Lead(s: string): (r: string)
    ensures |r| <= |s| && r == s[..|r|] && (forall i | 0 <= i < |r| :: IsDigit(r[i]))
    ensures |r| < |s| ==> !IsDigit(s[|r|])
  {
    if s == "" || !IsDigit(s[0]) then "" else [s[0]] + Lead(s[1..])
  }

  function Unsign(s: string): (r: string) { if s != "" && (s[0] == '-' || s[0] == '+') then s[1..] else s }

  function Magnitude(s: string): (r: nat) { Value(Lead(Unsign(Trim(s))), 10) }

  predicate Negative(s: string) { Trim(s) != "" && Trim(s)[0] == '-' }

  /** What atoi returns, in unbounded integers. */
  function Number(s: string): (r: int) { var m: int := Magnitude(s); if Negative(s) then -m else m }

  /** atoi's accumulator never leaves the 32-bit range. */
  predicate NoOverflow(s: string) { Magnitude(s) < 0x8000_0000 }

  lemma {:induction false} LeadAll(s: string)
    requires forall i | 0 <= i < |s| :: IsDigit(s[i])
    ensures Lead(s) == s
  {
    if s != "" { LeadAll(s[1..]); }
  }

  lemma DecimalDigits(v: nat)
    requires v != 0
    ensures Lead(Digits(v, 10)) == Digits(v, 10) && IsDigit(Digits(v, 10)[0])
  {
    var s := Digits(v, 10);
    DigitsSnoc(v, 10);
    forall i | 0 <= i < |s| ensures IsDigit(s[i]) {
      DigitsInBase(v, 10, i);
      var d :| 0 <= d < 10 && s[i] == DigitChar(d);
      DigitRoundTrip(d);
    }
    LeadAll(s);
  }

  lemma ReadsZero()
    ensures Number("0") == 0 && Magnitude("0") == 0
  {
    assert Trim("0") == "0" == Unsign("0");
    assert "0"[1..] == "" && "0"[..0] == "";
    assert Lead("0") == "0";
    assert Value("0", 10) == 0;
  }

  lemma ReadsPositive(v: nat)
    requires v != 0
    ensures Number(Digits(v, 10)) == v && Magnitude(Digits(v, 10)) == v
  {
    DecimalDigits(v);
    DigitsMean(v, 10);
    hide Digits, Lead, Value;
    var s := Digits(v, 10);
    assert Trim(s) == s == Unsign(s);
  }

  lemma ReadsNegative(v: nat)
    requires v != 0
    ensures Number("-" + Digits(v, 10)) + v == 0 && Magnitude("-" + Digits(v, 10)) == v
  {
    DecimalDigits(v);
    DigitsMean(v, 10);
    hide Digits, Lead, Value;
    var s := "-" + Digits(v, 10);
    assert Trim(s) == s && s[1..] == Digits(v, 10);
  }

  /** Reading what itoa wrote gives the number back, and without overflow for every 32-bit
      value except the smallest. */
  lemma RoundTrip(v: int)
    requires -0x8000_0000 <= v < 0x8000_0000
    ensures Number(Signed(v, 10)) == v
    ensures NoOverflow(Signed(v, 10)) <==> v != -0x8000_0000
  {
    hide Digits, Number, Magnitude;
    if v == 0 { ReadsZero(); } else if v < 0 { ReadsNegative(-v); } else { ReadsPositive(v); }
  }

  lemma ZeroMeans(base: nat)
    requires 2 <= base <= 16
    ensures Value("0", base) == 0
  {
    assert "0"[..0] == "";
    assert Value("", base) == 0;
  }

  /** Outside base 10 a negative number prints as its 32-bit pattern; in base 10 as a sign and its
      magnitude, and the smallest is no exception. */
  lemma SignedMeans(v: int, base: nat)
    requires 2 <= base <= 16 && -0x8000_0000 <= v < 0x8000_0000
    ensures 0 <= v ==> Value(Signed(v, base), base) == v
    ensures v < 0 && base != 10 ==> Value(Signed(v, base), base) == v + WORD
    ensures v < 0 && base == 10 ==>
              && Signed(v, base) != "" && Signed(v, base)[0] == '-'
              && Value(Signed(v, base)[1..], 10) + v == 0
  {
    hide Digits, Value;
    ZeroMeans(base);
    if v < 0 && base == 10 {
      DigitsMean(-v, 10);
      assert Signed(v, base)[1..] == Digits(-v, 10);
    } else {
      DigitsMean(if v < 0 then v + WORD else v, base);
    }
  }

  predicate Spaces(s: string) { forall i | 0 <= i < |s| :: s[i] == ' ' }

  lemma {:induction false} TrimSpaces(sp: string, t: string)
    requires Spaces(sp) && (t == "" || t[0] != ' ')
    ensures Trim(sp + t) == t
  {
    if sp == "" {
      assert sp + t == t;
    } else {
      assert (sp + t)[1..] == sp[1..] + t;
      TrimSpaces(sp[1..], t);
    }
  }

  lemma {:induction false} LeadDigits(ds: string, rest: string)
    requires (forall i | 0 <= i < |ds| :: IsDigit(ds[i])) && (rest == "" || !IsDigit(rest[0]))
    ensures Lead(ds + rest) == ds
  {
    if ds == "" {
      assert ds + rest == rest;
    } else {
      assert (ds + rest)[1..] == ds[1..] + rest;
      LeadDigits(ds[1..], rest);
    }
  }

  /** A sign, or none before something that is neither a sign nor a space. */
  predicate Sign(sign: string, t: string) {
    sign == "-" || sign == "+" || (sign == "" && (t == "" || (t[0] != '-' && t[0] != '+' && t[0] != ' ')))
  }

  /** atoi reads any number of spaces, at most one sign and all digits up to the first other
      character, and ignores the rest. */
  lemma ReadsAll(sp: string, sign: string, ds: string, rest: string)
    requires Spaces(sp) && Sign(sign, ds + rest)
    requires (forall i | 0 <= i < |ds| :: IsDigit(ds[i])) && (rest == "" || !IsDigit(rest[0]))
    ensures var m: int := Value(ds, 10); Number(sp + (sign + (ds + rest))) == if sign == "-" then -m else m
  {
    hide Trim, Lead, Value;
    var t := ds + rest;
    TrimSpaces(sp, sign + t);
    LeadDigits(ds, rest);
    assert sign != "" ==> (sign + t)[1..] == t && (sign + t)[0] == sign[0];
    assert sign == "" ==> sign + t == t;
  }

  // ----------------------------------------------------------------- reversal

  function Rev(s: string): (r: string)
    ensures |r| == |s|
    decreases |s|
  {
    if s == "" then "" else [s[|s| - 1]] + Rev(s[..|s| - 1])
  }

  lemma {:induction false} RevAt(s: string, k: nat)
    requires k < |s|
    ensures Rev(s)[k] == s[|s| - 1 - k]
    decreases |s|
  {
    if 0 < k { RevAt(s[..|s| - 1], k - 1); }
  }

  // ---------------------------------------------------------------- the code

  /** The pointer loop that reverses the first n characters in place. */
  method ReverseInPlace(buf: array<char>, n: nat)
    requires n <= buf.Length
    modifies buf
    ensures buf[..n] == Rev(old(buf[..n]))
    ensures forall k | n <= k < buf.Length :: buf[k] == old(buf[k])
  {
    var p, q := 0, n - 1;
    while p < q
      invariant 0 <= p && p + q == n - 1 && p <= q + 2
      invariant forall k | 0 <= k < p :: buf[k] == old(buf[n - 1 - k]) && buf[n - 1 - k] == old(buf[k])
      invariant forall k | p <= k <= q :: buf[k] == old(buf[k])
      invariant forall k | n <= k < buf.Length :: buf[k] == old(buf[k])
      decreases q - p
    {
      var tmp := buf[p];
      buf[p] := buf[q];
      buf[q] := tmp;
      p, q := p + 1, q - 1;
    }
    ghost var s := old(buf[..n]);
    forall k | 0 <= k < n ensures buf[..n][k] == Rev(s)[k] { RevAt(s, k); }
  }

  /** The loop that emits the digits of v, least significant first. */
  method EmitDigits(v: nat, buf: array<char>, base: nat) returns (n: nat)
    requires 2 <= base <= 16 && |Digits(v, base)| < buf.Length
    modifies buf
    ensures n == |Digits(v, base)| && Rev(buf[..n]) == Digits(v, base)
  {
    hide Digits, DigitChar;
    var uv: nat := v;
    n := 0;
    while uv != 0
      invariant n + |Digits(uv, base)| == |Digits(v, base)|
      invariant Digits(uv, base) + Rev(buf[..n]) == Digits(v, base)
      decreases uv
    {
      Smaller(uv, base);
      DigitsSnoc(uv, base);
      ghost var d, e := Digits(uv, base), Digits(uv / base, base);
      var c := DigitChar(uv % base);
      assert d == e + [c];
      buf[n] := c;
      assert buf[..n + 1][..n] == buf[..n];
      assert (e + [c]) + Rev(buf[..n]) == e + ([c] + Rev(buf[..n]));
      uv := uv / base;
      n := n + 1;
    }
    NoDigits(base);
    assert "" + Rev(buf[..n]) == Rev(buf[..n]);
  }

  lemma DigitsNoNul(v: nat, base: nat)
    requires 2 <= base <= 16
    ensures '\0' !in Digits(v, base)
  {
    var s := Digits(v, base);
    forall i | 0 <= i < |s| ensures s[i] != '\0' {
      DigitsInBase(v, base, i);
      var d :| 0 <= d < base && s[i] == DigitChar(d);
      DigitRoundTrip(d);
    }
  }

  method Uitoa(v: nat, buf: array<char>, base: nat)
    requires 2 <= base <= 16 && v < WORD && |Unsigned(v, base)| < buf.Length
    modifies buf
    ensures CStr(buf[..]) == Unsigned(v, base) && Terminated(buf[..])
  {
    if v == 0 {
      buf[0], buf[1] := '0', '\0';
      assert buf[..][..1] == "0";
      CStrIs(buf[..], "0");
      return;
    }
    var n := EmitDigits(v, buf, base);
    buf[n] := '\0';
    ReverseInPlace(buf, n);
    DigitsNoNul(v, base);
    assert buf[..][..n] == buf[..n];
    CStrIs(buf[..], Digits(v, base));
  }

  method Itoa(v: int, buf: array<char>, base: nat)
    requires 2 <= base <= 16 && -0x8000_0000 <= v < 0x8000_0000 && |Signed(v, base)| < buf.Length
    modifies buf
    ensures CStr(buf[..]) == Signed(v, base) && Terminated(buf[..])
  {
    if v == 0 {
      buf[0], buf[1] := '0', '\0';
      assert buf[..][..1] == "0";
      CStrIs(buf[..], "0");
      return;
    }
    var negative := v < 0 && base == 10;
    var uv: nat := if negative then -v else if v < 0 then v + WORD else v;
    var n := EmitDigits(uv, buf, base);
    if negative {
      buf[n] := '-';
      assert buf[..n + 1][..n] == buf[..n];
      n := n + 1;
    }
    ghost var r := Signed(v, base);
    assert Rev(buf[..n]) == r;
    buf[n] := '\0';
    ReverseInPlace(buf, n);
    DigitsNoNul(uv, base);
    assert buf[..][..n] == buf[..n] == r;
    CStrIs(buf[..], r);
  }

  /** Index i of the array is index i of the string, or its end. */
  lemma CharAt(a: seq<char>, i: nat)
    requires i <= |CStr(a)| < |a|
    ensures if i < |CStr(a)| then a[i] == CStr(a)[i] && a[i] != '\0' else a[i] == '\0'
  {
    EndAt(a, i);
  }

  method SkipSpaces(a: array<char>) returns (i: nat)
    requires Terminated(a[..])
    ensures i <= |CStr(a[..])| && CStr(a[..])[i..] == Trim(CStr(a[..]))
  {
    hide CStr;
    ghost var s := CStr(a[..]);
    i := 0;
    assert s[0..] == s;
    CharAt(a[..], 0);
    while a[i] == ' '
      invariant i <= |s| && Trim(s[i..]) == Trim(s)
      invariant if i < |s| then a[i] == s[i] else a[i] == '\0'
      decreases |s| - i
    {
      assert s[i..][1..] == s[i + 1..];
      i := i + 1;
      CharAt(a[..], i);
    }
  }

  lemma LeadEnds(u: string, n: nat)
    requires n <= |Lead(u)| && (n < |u| ==> !IsDigit(u[n]))
    ensures n == |Lead(u)|
  {
    var l := Lead(u);
    forall i | 0 <= i < |l| ensures IsDigit(u[i]) { assert l[i] == u[..|l|][i]; }
  }

  /** The accumulator only grows, so a result in range means it never left the range. */
  lemma {:induction false} ValuePrefix(l: string, k: nat)
    requires k <= |l|
    ensures Value(l[..k], 10) <= Value(l, 10)
    decreases |l|
  {
    if k < |l| {
      ValuePrefix(l[..|l| - 1], k);
      assert l[..|l| - 1][..k] == l[..k];
    } else {
      assert l[..k] == l;
    }
  }

  /** The accumulating loop from index i0 on: no step leaves the 32-bit range. */
  method ReadDigits(a: array<char>, i0: nat) returns (res: nat)
    requires Terminated(a[..]) && i0 <= |CStr(a[..])| && Value(Lead(CStr(a[..])[i0..]), 10) < 0x8000_0000
    ensures res == Value(Lead(CStr(a[..])[i0..]), 10)
  {
    hide CStr, Lead;
    ghost var s := CStr(a[..]);
    ghost var u, l := s[i0..], Lead(s[i0..]);
    var n := 0;
    res := 0;
    CharAt(a[..], i0);
    while '0' <= a[i0 + n] <= '9'
      invariant n <= |l| && i0 + n <= |s| && res == Value(l[..n], 10)
      invariant if i0 + n < |s| then a[i0 + n] == s[i0 + n] else a[i0 + n] == '\0'
      decreases |l| - n
    {
      assert s[i0 + n] == u[n];
      assert n < |l|;
      assert l[..n + 1][..n] == l[..n] && l[n] == u[n];
      ValuePrefix(l, n + 1);
      res := res * 10 + (a[i0 + n] as int - '0' as int);
      assert res < 0x8000_0000;
      n := n + 1;
      CharAt(a[..], i0 + n);
    }
    LeadEnds(u, n);
    assert l[..|l|] == l;
  }

  /** atoi: spaces, one sign, then digits up to the first other character. */
  method Atoi(a: array<char>) returns (r: int)
    requires Terminated(a[..]) && NoOverflow(CStr(a[..]))
    ensures r == Number(CStr(a[..]))
  {
    hide CStr, Trim, Lead, Value;
    ghost var s := CStr(a[..]);
    var i := SkipSpaces(a);
    CharAt(a[..], i);
    var sign: int := 1;
    assert s[i..] == Trim(s);
    if a[i] == '-' {
      sign := -1;
      i := i + 1;
    } else if a[i] == '+' {
      i := i + 1;
    }
    assert s[i..] == Unsign(Trim(s));
    var res := ReadDigits(a, i);
    r := res * sign;
  }
}
