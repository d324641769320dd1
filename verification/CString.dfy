/** NUL-terminated strings in character arrays, and the functions of src/libc/string.c the
    editor is built from. */
module CString {

  /** The characters before the first NUL. */
  function CStr(s: seq<char>): (r: string)
    ensures |r| <= |s| && r == s[..|r|] && '\0' !in r
    ensures |r| < |s| ==> s[|r|] == '\0'
  {
    if s == [] || s[0] == '\0' then [] else [s[0]] + CStr(s[1..])
  }

  predicate Terminated(s: seq<char>) { |CStr(s)| < |s| }

  lemma {:induction false} FirstNul(s: seq<char>, n: nat)
    requires n < |s| && s[n] == '\0' && forall i | 0 <= i < n :: s[i] != '\0'
    ensures |CStr(s)| == n
  {
    if 0 < n { FirstNul(s[1..], n - 1); }
  }

  /** A NUL-free prefix followed by a NUL is the string. */
  lemma CStrIs(s: seq<char>, l: string)
    requires |l| < |s| && s[..|l|] == l && '\0' !in l && s[|l|] == '\0'
    ensures CStr(s) == l && Terminated(s)
  {
    forall i | 0 <= i < |l| ensures s[i] != '\0' { assert s[i] == s[..|l|][i]; }
    FirstNul(s, |l|);
  }

  lemma EndAt(s: seq<char>, n: nat)
    requires n <= |CStr(s)| < |s|
    ensures s[n] == '\0' <==> n == |CStr(s)|
    ensures n < |CStr(s)| ==> s[n] == CStr(s)[n]
  {
  }

  lemma CStrClean(s: string)
    requires '\0' !in s
    ensures CStr(s) == s
  {
    if s != "" {
      assert s[0] in s && forall c | c in s[1..] :: c in s;
      CStrClean(s[1..]);
    }
  }

  lemma CStrSuffix(s: seq<char>, k: nat)
    requires k <= |CStr(s)| < |s|
    ensures CStr(s[k..]) == CStr(s)[k..] && Terminated(s[k..])
  {
    var r := CStr(s);
    assert s[k..][..|r| - k] == r[k..];
    CStrIs(s[k..], r[k..]);
  }

  /** The string is the longest prefix without a NUL. */
  lemma {:induction false} CStrLongest(s: seq<char>, k: nat)
    requires k <= |s|
    ensures k <= |CStr(s)| <==> '\0' !in s[..k]
  {
    if 0 < k {
      assert s[..k] == [s[0]] + s[1..][..k - 1];
      CStrLongest(s[1..], k - 1);
    }
  }

  method Strlen(a: array<char>) returns (n: nat)
    requires Terminated(a[..])
    ensures n == |CStr(a[..])|
  {
    n := 0;
    EndAt(a[..], 0);
    while a[n] != '\0'
      invariant n <= |CStr(a[..])|
      decreases a.Length - n
    {
      EndAt(a[..], n);
      n := n + 1;
    }
    EndAt(a[..], n);
  }

  /** Copy the string that starts at index k of src to index d of dst. */
  method Strcpy(dst: array<char>, d: nat, src: array<char>, k: nat)
    requires dst != src && k <= src.Length && Terminated(src[k..]) && d + |CStr(src[k..])| < dst.Length
    modifies dst
    ensures dst[..d] == old(dst[..d])
    ensures CStr(dst[d..]) == CStr(src[k..]) && Terminated(dst[d..])
  {
    ghost var l := CStr(src[k..]);
    var n := 0;
    while src[k + n] != '\0'
      invariant n <= |l| && dst[..d] == old(dst[..d])
      invariant forall i | 0 <= i < n :: dst[d + i] == l[i]
      decreases |l| - n
    {
      EndAt(src[k..], n);
      dst[d + n] := src[k + n];
      n := n + 1;
    }
    EndAt(src[k..], n);
    dst[d + n] := '\0';
    assert dst[d..][..|l|] == l;
    CStrIs(dst[d..], l);
  }

  lemma CatIs(s: seq<char>, a: string, b: string)
    requires |a| <= |s| && s[..|a|] == a && CStr(s[|a|..]) == b && Terminated(s[|a|..])
    ensures |a + b| < |s| && s[..|a + b|] == a + b && s[|a + b|] == '\0'
  {
    assert s[|a|..][..|b|] == b;
    assert s[..|a + b|] == s[..|a|] + s[|a|..][..|b|];
  }

  method Strcat(dst: array<char>, src: array<char>)
    requires dst != src && Terminated(dst[..]) && Terminated(src[..]) && |CStr(dst[..])| + |CStr(src[..])| < dst.Length
    modifies dst
    ensures CStr(dst[..]) == old(CStr(dst[..])) + CStr(src[..]) && Terminated(dst[..])
  {
    ghost var a, b := CStr(dst[..]), CStr(src[..]);
    var n := Strlen(dst);
    assert src[0..] == src[..];
    Strcpy(dst, n, src, 0);
    assert dst[..][..n] == dst[..n] == a;
    CatIs(dst[..], a, b);
    CStrIs(dst[..], a + b);
  }
}
