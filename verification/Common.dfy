/** What several parts share. */
module Common {

  /** One more than the largest 32-bit value. */
  const WORD: nat := 0x1_0000_0000

  datatype Option<T> = None | Some(value: T)

  function Min(a: nat, b: nat): (r: nat)
    ensures r <= a && r <= b && (r == a || r == b)
  {
    if a < b then a else b
  }

  /** The numbers from lo up to hi. */
  ghost function Span(lo: nat, hi: nat): (r: set<nat>)
    ensures forall i: nat :: i in r <==> lo <= i < hi
  {
    if hi <= lo then {} else Span(lo, hi - 1) + {hi - 1}
  }

  lemma SpanNone(lo: nat)
    ensures Span(lo, lo) == {}
  {
  }

  lemma SpanNext(lo: nat, hi: nat)
    requires lo <= hi
    ensures Span(lo, hi + 1) == Span(lo, hi) + {hi}
  {
  }

  lemma {:induction false} SpanSize(lo: nat, hi: nat)
    requires lo <= hi
    ensures |Span(lo, hi)| == hi - lo
  {
    hide Span;
    if lo < hi {
      SpanSize(lo, hi - 1);
      SpanNext(lo, hi - 1);
      assert hi - 1 !in Span(lo, hi - 1);
    } else {
      SpanNone(lo);
    }
  }
}
