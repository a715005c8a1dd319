/** Facts about sequences: counting facts about integer sequences, used to show
    that a table of brick ids names every id of a range exactly once, and the
    subsequence relation that every list filter of the program keeps. */
module SeqFacts {

  /** The set of values occurring in `s`. */
  function Elems(s: seq<int>): set<int>
  {
    set x | x in s
  }

  /** The integers `lo..hi`, both ends included. */
  function Span(lo: int, hi: int): (r: set<int>)
    ensures forall k :: k in r <==> lo <= k <= hi
    decreases hi - lo
  {
    if lo > hi then {} else {lo} + Span(lo + 1, hi)
  }

  /** No value occurs twice in `s`. */
  predicate Distinct(s: seq<int>)
  {
    forall i, j :: 0 <= i < j < |s| ==> s[i] != s[j]
  }

  lemma {:induction false} ElemsBound(s: seq<int>)
    ensures |Elems(s)| <= |s|
  {
    if s != [] {
      ElemsBound(s[1..]);
      assert Elems(s) == Elems(s[1..]) + {s[0]};
    }
  }

  lemma {:induction false} SpanCard(lo: int, hi: int)
    requires lo <= hi + 1
    ensures |Span(lo, hi)| == hi - lo + 1
    decreases hi - lo
  {
    if lo <= hi {
      SpanCard(lo + 1, hi);
    }
  }

  /** A repeated value leaves fewer distinct values than positions. */
  lemma DuplicateShrinks(s: seq<int>, i: int, j: int)
    requires 0 <= i < j < |s| && s[i] == s[j]
    ensures |Elems(s)| < |s|
  {
    var t := s[..j] + s[j + 1..];
    assert Elems(s) == Elems(t) by {
      forall x | x in Elems(s) ensures x in Elems(t) {
        var k :| 0 <= k < |s| && s[k] == x;
        if k < j { assert t[k] == x; }
        else if k == j { assert t[i] == x; }
        else { assert t[k - 1] == x; }
      }
    }
    ElemsBound(t);
  }

  /** Pigeonhole: a sequence of length `hi - lo + 1` whose values lie in `lo..hi`
      and that mentions every value of `lo..hi` holds each of them exactly once. */
  lemma CoveringIsDistinct(s: seq<int>, lo: int, hi: int)
    requires |s| == hi - lo + 1
    requires forall x :: x in s ==> lo <= x <= hi
    requires forall k :: lo <= k <= hi ==> k in s
    ensures Distinct(s)
    ensures Elems(s) == Span(lo, hi)
  {
    assert Elems(s) == Span(lo, hi);
    SpanCard(lo, hi);
    if !Distinct(s) {
      var i, j :| 0 <= i < j < |s| && s[i] == s[j];
      DuplicateShrinks(s, i, j);
      assert false;
    }
  }

  /** Joining a permutation of `mid+1..hi` with a permutation of `lo..mid`
      gives a permutation of `lo..hi`. */
  lemma JoinSpans(e: seq<int>, w: seq<int>, lo: int, mid: int, hi: int)
    requires lo <= mid + 1 && mid <= hi
    requires Distinct(e) && Elems(e) == Span(mid + 1, hi)
    requires Distinct(w) && Elems(w) == Span(lo, mid)
    requires |e| == hi - mid && |w| == mid - lo + 1
    ensures |e + w| == hi - lo + 1
    ensures Distinct(e + w)
    ensures forall k :: k in e + w <==> lo <= k <= hi
  {
    forall i, j | 0 <= i < j < |e + w| ensures (e + w)[i] != (e + w)[j] {
      if j < |e| {
      } else if i >= |e| {
        assert w[i - |e|] != w[j - |e|];
      } else {
        assert e[i] in Elems(e);
        assert w[j - |e|] in Elems(w);
      }
    }
    forall k ensures k in e + w <==> lo <= k <= hi {
      assert k in e <==> k in Elems(e);
      assert k in w <==> k in Elems(w);
    }
  }

  /** `a` keeps some of the items of `b`, in their order. */
  predicate Subsequence<T(==)>(a: seq<T>, b: seq<T>)
    decreases |b|
  {
    a == [] || (b != [] && ((a[0] == b[0] && Subsequence(a[1..], b[1..])) || Subsequence(a, b[1..])))
  }

  /** Every sequence is a subsequence of itself. */
  lemma {:induction false} SubsequenceRefl<T>(s: seq<T>)
    ensures Subsequence(s, s)
  {
    if s != [] {
      SubsequenceRefl(s[1..]);
    }
  }
}
