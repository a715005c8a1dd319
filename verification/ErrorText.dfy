/** The text of an upload error as the back end reports it: a validation
    error's `str` form with the `ErrorDetail(...)` wrapping, brackets and quotes
    taken out, any other error's `str` as it is. */
module ErrorText {
  import Shows
  import SeqFacts

  /** An error raised while handling an upload, by its `str` form. */
  datatype Failure = ValidationFailure(text: string) | OtherFailure(text: string)

  /** `s.replace(pat, "")`: one pass from the left, each occurrence taken out
      and the scan resumed after it. */
  function Delete(s: string, pat: string): (r: string)
    requires |pat| > 0
    ensures |r| <= |s|
    decreases |s|
  {
    if |s| < |pat| then s
    else if s[..|pat|] == pat then Delete(s[|pat|..], pat)
    else [s[0]] + Delete(s[1..], pat)
  }

  /** What is left is drawn from the text, in order. */
  lemma {:induction false} DeleteSubsequence(s: string, pat: string)
    requires |pat| > 0
    ensures SeqFacts.Subsequence(Delete(s, pat), s)
    decreases |s|
  {
    if |s| < |pat| {
      SeqFacts.SubsequenceRefl(s);
    } else if s[..|pat|] == pat {
      DeleteSubsequence(s[|pat|..], pat);
      SubsequenceOfSuffix(Delete(s[|pat|..], pat), s, |pat|);
    } else {
      var rest := Delete(s[1..], pat);
      DeleteSubsequence(s[1..], pat);
      assert ([s[0]] + rest)[1..] == rest;
    }
  }

  /** A text without the pattern is left as it is. */
  lemma {:induction false} DeleteAbsent(s: string, pat: string)
    requires |pat| > 0 && !Shows.Contains(s, pat)
    ensures Delete(s, pat) == s
    decreases |s|
  {
    if |s| >= |pat| {
      assert !Shows.OccursAt(s, pat, 0);
      ContainsTail(s, pat);
      DeleteAbsent(s[1..], pat);
    }
  }

  /** Taking out a single item leaves none of it. */
  lemma {:induction false} DeleteItem(s: string, c: char)
    ensures c !in Delete(s, [c])
    decreases |s|
  {
    if |s| >= 1 {
      if s[..1] == [c] {
        DeleteItem(s[1..], c);
      } else {
        assert s[..1] == [s[0]];
        DeleteItem(s[1..], c);
      }
    }
  }

  /** What occurs after the first item occurs in the whole. */
  lemma ContainsTail(s: string, pat: string)
    requires |s| > 0
    ensures Shows.Contains(s[1..], pat) ==> Shows.Contains(s, pat)
  {
    if Shows.Contains(s[1..], pat) {
      var i :| 0 <= i <= |s[1..]| && Shows.OccursAt(s[1..], pat, i);
      assert s[1..][i..i + |pat|] == s[i + 1..i + 1 + |pat|];
      assert Shows.OccursAt(s, pat, i + 1);
    }
  }

  /** A subsequence of a suffix is a subsequence of the whole. */
  lemma {:induction false} SubsequenceOfSuffix<T>(a: seq<T>, b: seq<T>, k: nat)
    requires k <= |b| && SeqFacts.Subsequence(a, b[k..])
    ensures SeqFacts.Subsequence(a, b)
  {
    if k > 0 {
      assert b[1..][k - 1..] == b[k..];
      SubsequenceOfSuffix(a, b[1..], k - 1);
    }
  }

  /** Items of a subsequence are items of the whole. */
  lemma {:induction false} SubsequenceItems<T>(a: seq<T>, b: seq<T>)
    requires SeqFacts.Subsequence(a, b)
    ensures forall x :: x in a ==> x in b
    decreases |b|
  {
    if a != [] {
      if a[0] == b[0] && SeqFacts.Subsequence(a[1..], b[1..]) {
        SubsequenceItems(a[1..], b[1..]);
        assert forall x :: x in a ==> x == a[0] || x in a[1..];
      } else {
        SubsequenceItems(a, b[1..]);
      }
    }
  }

  /** Subsequences compose. */
  lemma {:induction false} SubsequenceTrans<T>(a: seq<T>, b: seq<T>, c: seq<T>)
    requires SeqFacts.Subsequence(a, b) && SeqFacts.Subsequence(b, c)
    ensures SeqFacts.Subsequence(a, c)
    decreases |c|
  {
    if a != [] {
      if b[0] == c[0] && SeqFacts.Subsequence(b[1..], c[1..]) {
        if a[0] == b[0] && SeqFacts.Subsequence(a[1..], b[1..]) {
          SubsequenceTrans(a[1..], b[1..], c[1..]);
        } else {
          SubsequenceTrans(a, b[1..], c[1..]);
        }
      } else {
        SubsequenceTrans(a, b, c[1..]);
      }
    }
  }

  /** A pattern with an item the text lacks does not occur in it. */
  lemma Absent(s: string, pat: string, c: char)
    requires c in pat && c !in s
    ensures !Shows.Contains(s, pat)
  {
  }

  /** A prefix in which no occurrence of the pattern can start passes through
      untouched: its last item is absent from the prefix and from the first
      `|pat| - 1` items of the rest. */
  lemma DeleteSkip(a: string, b: string, pat: string)
    requires |pat| > 0 && |b| >= |pat| - 1
    requires pat[|pat| - 1] !in a && pat[|pat| - 1] !in b[..|pat| - 1]
    ensures Delete(a + b, pat) == a + Delete(b, pat)
  {
    var s := a + b;
    forall i | 0 <= i < |a|
      ensures !Shows.OccursAt(s, pat, i)
    {
      var j := i + |pat| - 1;
      if j < |a| {
        assert s[j] == a[j];
      } else {
        assert s[j] == b[..|pat| - 1][j - |a|];
      }
    }
    DeleteSkipWindows(a, b, pat);
  }

  lemma TailOfJoin(a: string, b: string)
    requires a != []
    ensures (a + b)[1..] == a[1..] + b && a == [a[0]] + a[1..]
  {
  }

  /** The pattern cannot start at the front of such a prefix. */
  lemma NoMatchAtFront(a: string, b: string, pat: string)
    requires |pat| > 0 && |b| >= |pat| - 1 && a != [] && |a + b| >= |pat|
    requires pat[|pat| - 1] !in a && pat[|pat| - 1] !in b[..|pat| - 1]
    ensures (a + b)[..|pat|] != pat
  {
    var s := a + b;
    var k := |pat| - 1;
    if k < |a| {
      assert s[..|pat|][k] == a[k];
    } else {
      assert s[..|pat|][k] == b[..|pat| - 1][k - |a|];
    }
  }

  /** Where the pattern does not start, the first item is kept. */
  lemma DeleteKeepsFront(s: string, pat: string)
    requires |pat| > 0 && |s| >= |pat| && s[..|pat|] != pat
    ensures Delete(s, pat) == [s[0]] + Delete(s[1..], pat)
  {
  }

  /** Taking out a pattern at the front. */
  lemma DeleteFront(p: string, b: string)
    requires |p| > 0
    ensures Delete(p + b, p) == Delete(b, p)
  {
    assert (p + b)[..|p|] == p;
    assert (p + b)[|p|..] == b;
  }

  /** `clean_error_message`: a validation error loses the `ErrorDetail(string=`
      and `, code='invalid')` wrapping and then every bracket and quote; any other
      error keeps its text. */
  function Clean(e: Failure): (r: string)
    ensures e.OtherFailure? ==> r == e.text
    ensures e.ValidationFailure? ==> '[' !in r && ']' !in r && '"' !in r && '\'' !in r
    ensures SeqFacts.Subsequence(r, e.text)
  {
    match e
    case OtherFailure(t) =>
      SeqFacts.SubsequenceRefl(t);
      t
    case ValidationFailure(t) =>
      var s1 := Delete(t, "ErrorDetail(string=");
      var s2 := Delete(s1, ", code='invalid')");
      var s3 := Delete(s2, "[");
      var s4 := Delete(s3, "]");
      var s5 := Delete(s4, "\"");
      var s6 := Delete(s5, "'");
      DeleteSubsequence(t, "ErrorDetail(string=");
      DeleteSubsequence(s1, ", code='invalid')");
      DeleteSubsequence(s2, "[");
      DeleteSubsequence(s3, "]");
      DeleteSubsequence(s4, "\"");
      DeleteSubsequence(s5, "'");
      DeleteItem(s2, '[');
      DeleteItem(s3, ']');
      DeleteItem(s4, '"');
      DeleteItem(s5, '\'');
      SubsequenceTrans(s2, s1, t);
      SubsequenceTrans(s3, s2, t);
      SubsequenceTrans(s4, s3, t);
      SubsequenceTrans(s5, s4, t);
      SubsequenceTrans(s6, s5, t);
      SubsequenceItems(s6, s5);
      SubsequenceItems(s5, s4);
      SubsequenceItems(s4, s3);
      s6
  }

  /** A message that survives the wrapping unchanged: printable, and without
      brackets, quotes or backslashes, which `str` would escape or the cleaning
      would take out, and without the wrapper's own opening text. */
  predicate Plain(m: string)
  {
    && (forall i :: 0 <= i < |m| ==>
          ' ' <= m[i] <= '~' && m[i] != '[' && m[i] != ']' && m[i] != '"' && m[i] != '\'' && m[i] != '\\')
    && !Shows.Contains(m, "ErrorDetail(string=")
  }

  /** `str` of a `ValidationError` raised with one message. */
  function Wrapped(m: string): string
  {
    "[ErrorDetail(string='" + m + "', code='invalid')]"
  }

  /** Cleaning gives back the message a `ValidationError` was raised with. */
  lemma CleanUnwraps(m: string)
    requires Plain(m)
    ensures Clean(ValidationFailure(Wrapped(m))) == m
  {
    FirstWrapperGoes(m);
    SecondWrapperGoes(m);
    BracketsGo(m);
    QuotesGo(m);
  }

  /** The one occurrence of a pattern after a prefix where it cannot start is
      taken out and nothing else changes. */
  lemma DropPattern(a: string, p: string, r: string)
    requires |p| > 0 && p[|p| - 1] !in a && p[|p| - 1] !in p[..|p| - 1]
    requires !Shows.Contains(r, p)
    ensures Delete(a + (p + r), p) == a + r
  {
    assert (p + r)[..|p| - 1] == p[..|p| - 1];
    DeleteSkip(a, p + r, p);
    DeleteFront(p, r);
    DeleteAbsent(r, p);
  }

  lemma FirstWrapperGoes(m: string)
    requires Plain(m)
    ensures Delete(Wrapped(m), "ErrorDetail(string=") == "['" + m + "', code='invalid')]"
  {
    var r := "'" + m + "', code='invalid')]";
    NoWrapperInside(m);
    assert Wrapped(m) == "[" + ("ErrorDetail(string=" + r);
    DropPattern("[", "ErrorDetail(string=", r);
  }

  /** A window that covers a quote cannot hold a quote-free pattern. */
  lemma QuoteBlocks(r: string, p: string, i: int, j: int)
    requires forall k :: 0 <= k < |p| ==> p[k] != '\''
    requires 0 <= i <= j < i + |p| <= |r| && r[j] == '\''
    ensures !Shows.OccursAt(r, p, i)
  {
  }

  /** The opening wrapper, having no quote, can only occur inside the message. */
  lemma NoWrapperInside(m: string)
    requires Plain(m)
    ensures !Shows.Contains("'" + m + "', code='invalid')]", "ErrorDetail(string=")
  {
    var r := "'" + m + "', code='invalid')]";
    var p := "ErrorDetail(string=";
    assert forall k :: 0 <= k < |p| ==> p[k] != '\'';
    assert r[0] == '\'' && r[|m| + 1] == '\'';
    forall i | 0 <= i <= |r|
      ensures !Shows.OccursAt(r, p, i)
    {
      if i + |p| <= |r| {
        if i == 0 {
          QuoteBlocks(r, p, i, 0);
        } else if i + |p| <= |m| + 1 {
          assert r[i..i + |p|] == m[i - 1..i - 1 + |p|];
          assert !Shows.OccursAt(m, p, i - 1);
        } else {
          QuoteBlocks(r, p, i, |m| + 1);
        }
      }
    }
  }

  lemma SecondWrapperGoes(m: string)
    requires Plain(m)
    ensures Delete("['" + m + "', code='invalid')]", ", code='invalid')") == "['" + m + "']"
  {
    var p := ", code='invalid')";
    var a := "['" + m + "'";
    var s := a + (p + "]");
    assert "['" + m + "', code='invalid')]" == s;
    forall i | 0 <= i < |a|
      ensures !Shows.OccursAt(s, p, i)
    {
      NoClosingWrapperAt(m, i);
    }
    DeleteSkipWindows(a, p + "]", p);
    DeleteFront(p, "]");
    assert Delete("]", p) == "]";
  }

  /** The closing wrapper, quoted at its 8th and 16th items, cannot start
      before the message's closing quote. */
  lemma NoClosingWrapperAt(m: string, i: int)
    requires Plain(m) && 0 <= i < |m| + 3
    ensures !Shows.OccursAt("['" + m + "'" + (", code='invalid')" + "]"), ", code='invalid')", i)
  {
    var p := ", code='invalid')";
    var a := "['" + m + "'";
    var s := a + (p + "]");
    assert "['" + m + "'" + (p + "]") == s;
    if i + |p| <= |s| {
      if i + 7 < |a| - 1 {
        assert s[i..i + |p|][7] == m[i + 5] != '\'';
      } else if i + 7 == |a| - 1 {
        assert s[i..i + |p|][16] == p[8] != ')';
      } else {
        assert s[i..i + |p|][7] == p[i + 7 - |a|] != '\'';
      }
    }
  }

  /** A prefix at none of whose positions the pattern occurs passes through
      untouched. */
  lemma {:induction false} DeleteSkipWindows(a: string, b: string, pat: string)
    requires |pat| > 0
    requires forall i :: 0 <= i < |a| ==> !Shows.OccursAt(a + b, pat, i)
    ensures Delete(a + b, pat) == a + Delete(b, pat)
  {
    if a == [] {
      assert a + b == b;
    } else if |a + b| < |pat| {
      assert Delete(b, pat) == b;
    } else {
      var s, t, d := a + b, a[1..], Delete(b, pat);
      TailOfJoin(a, b);
      assert !Shows.OccursAt(s, pat, 0);
      assert s[..|pat|] != pat;
      DeleteKeepsFront(s, pat);
      forall i | 0 <= i < |t|
        ensures !Shows.OccursAt(t + b, pat, i)
      {
        OccursShift(s, pat, i);
      }
      DeleteSkipWindows(t, b, pat);
      assert Delete(s, pat) == [a[0]] + (t + d);
      assert [a[0]] + (t + d) == a + d;
    }
  }

  /** An occurrence after the first item is one place further on in the whole. */
  lemma OccursShift(s: string, pat: string, i: int)
    requires |s| > 0
    ensures Shows.OccursAt(s[1..], pat, i) ==> Shows.OccursAt(s, pat, i + 1)
  {
    if Shows.OccursAt(s[1..], pat, i) {
      assert s[1..][i..i + |pat|] == s[i + 1..i + 1 + |pat|];
    }
  }

  lemma BracketsGo(m: string)
    requires Plain(m)
    ensures Delete(Delete("['" + m + "']", "["), "]") == "'" + m + "'"
  {
    var q := "'" + m + "'";
    assert forall c :: c in m ==> c != '[' && c != ']';
    assert "['" + m + "']" == "" + ("[" + (q + "]"));
    Absent(q + "]", "[", '[');
    DropPattern("", "[", q + "]");
    assert "" + (q + "]") == q + ("]" + "");
    DropPattern(q, "]", "");
    assert q + "" == q;
  }

  lemma QuotesGo(m: string)
    requires Plain(m)
    ensures Delete(Delete("'" + m + "'", "\""), "'") == m
  {
    var q := "'" + m + "'";
    assert forall c :: c in m ==> c != '"' && c != '\'';
    assert '"' !in q;
    Absent(q, "\"", '"');
    DeleteAbsent(q, "\"");
    assert q == "'" + (m + "'");
    DeleteFront("'", m + "'");
    assert m + "'" == m + ("'" + "");
    DropPattern(m, "'", "");
  }

  /** A printable character that neither the cleaning nor `str` touches, and
      that cannot start the opening wrapper. */
  predicate TameChar(c: char)
  {
    ' ' <= c <= '~' && c != '[' && c != ']' && c != '"' && c != '\'' && c != '\\' && c != 'E'
  }

  predicate Tame(m: string)
  {
    forall i :: 0 <= i < |m| ==> TameChar(m[i])
  }

  lemma TameJoin(a: string, b: string)
    requires Tame(a) && Tame(b)
    ensures Tame(a + b)
  {
    assert forall i :: 0 <= i < |a + b| ==> (a + b)[i] == (if i < |a| then a[i] else b[i - |a|]);
  }

  /** A tame message is plain, so cleaning gives it back. */
  lemma TameUnwraps(m: string)
    requires Tame(m)
    ensures Clean(ValidationFailure(Wrapped(m))) == m
  {
    assert 'E' in "ErrorDetail(string=";
    assert 'E' !in m;
    Absent(m, "ErrorDetail(string=", 'E');
    CleanUnwraps(m);
  }
}
