/** Calendar dates written as ISO `YYYY-MM-DD` strings, and JavaScript's ordering of
    strings. The show form compares dates as strings; this module shows that on
    well-formed dates the string order is the calendar order. */
module IsoDates {

  /** JavaScript's `<` on strings: the first differing character decides, and a
      proper prefix is the smaller string. */
  predicate LexLess(a: string, b: string)
    decreases |a|
  {
    if b == [] then false
    else if a == [] then true
    else if a[0] != b[0] then a[0] < b[0]
    else LexLess(a[1..], b[1..])
  }

  /** Exactly one of `a < b`, `a == b`, `b < a` holds. */
  lemma {:induction false} LexTrichotomy(a: string, b: string)
    ensures LexLess(a, b) || a == b || LexLess(b, a)
    ensures !(LexLess(a, b) && LexLess(b, a))
    ensures !LexLess(a, a)
    decreases |a|
  {
    if a != [] && b != [] {
      LexTrichotomy(a[1..], b[1..]);
      if a[0] == b[0] && a[1..] == b[1..] {
        assert a == [a[0]] + a[1..] && b == [b[0]] + b[1..];
      }
    }
    if a != [] {
      LexTrichotomy(a[1..], a[1..]);
    }
  }

  lemma {:induction false} LexTransitive(a: string, b: string, c: string)
    requires LexLess(a, b) && LexLess(b, c)
    ensures LexLess(a, c)
    decreases |a|
  {
    if a != [] && a[0] == b[0] && b[0] == c[0] {
      LexTransitive(a[1..], b[1..], c[1..]);
    }
  }

  /** Comparing two strings split at the same length compares the heads first and
      the tails only when the heads agree. */
  lemma {:induction false} LexConcat(x: string, y: string, x2: string, y2: string)
    requires |x| == |x2|
    ensures LexLess(x + y, x2 + y2) <==> LexLess(x, x2) || (x == x2 && LexLess(y, y2))
    decreases |x|
  {
    if x != [] {
      assert (x + y)[0] == x[0] && (x2 + y2)[0] == x2[0];
      assert (x + y)[1..] == x[1..] + y && (x2 + y2)[1..] == x2[1..] + y2;
      LexConcat(x[1..], y, x2[1..], y2);
      if x[0] == x2[0] {
        assert x == x2 <==> x[1..] == x2[1..] by {
          assert x == [x[0]] + x[1..] && x2 == [x2[0]] + x2[1..];
        }
      }
    } else {
      assert x + y == y && x2 + y2 == y2;
    }
  }

  function DigitChar(d: int): (c: char)
    requires 0 <= d < 10
    ensures '0' <= c <= '9' && c as int - '0' as int == d
  {
    ('0' as int + d) as char
  }

  function Pow10(w: nat): (r: nat)
    ensures r >= 1
  {
    if w == 0 then 1 else 10 * Pow10(w - 1)
  }

  /** `n` written in decimal with exactly `w` digits, zero-padded on the left. */
  function Digits(n: nat, w: nat): (r: string)
    ensures |r| == w
    ensures forall i :: 0 <= i < |r| ==> '0' <= r[i] <= '9'
  {
    if w == 0 then [] else Digits(n / 10, w - 1) + [DigitChar(n % 10)]
  }

  /** Splitting off the last decimal digit keeps the order of two numbers. */
  lemma LastDigitOrder(a: nat, b: nat)
    ensures a < b <==> a / 10 < b / 10 || (a / 10 == b / 10 && a % 10 < b % 10)
    ensures a == b <==> a / 10 == b / 10 && a % 10 == b % 10
  {
    assert a == 10 * (a / 10) + a % 10;
    assert b == 10 * (b / 10) + b % 10;
  }

  /** Zero-padded numbers of the same width compare as strings as they do as
      numbers, and two of them are equal strings only when the numbers are equal. */
  lemma {:induction false} DigitsOrder(a: nat, b: nat, w: nat)
    requires a < Pow10(w) && b < Pow10(w)
    ensures LexLess(Digits(a, w), Digits(b, w)) <==> a < b
    ensures Digits(a, w) == Digits(b, w) <==> a == b
  {
    if w == 0 {
    } else {
      DigitsOrder(a / 10, b / 10, w - 1);
      var ca, cb := DigitChar(a % 10), DigitChar(b % 10);
      LexConcat(Digits(a / 10, w - 1), [ca], Digits(b / 10, w - 1), [cb]);
      LastDigitOrder(a, b);
      var da, db := Digits(a, w), Digits(b, w);
      assert da[..w - 1] == Digits(a / 10, w - 1) && da[w - 1] == ca;
      assert db[..w - 1] == Digits(b / 10, w - 1) && db[w - 1] == cb;
      assert da == db <==> da[..w - 1] == db[..w - 1] && da[w - 1] == db[w - 1];
    }
  }

  /** A calendar date. */
  datatype Date = Date(year: int, month: int, day: int)

  /** A date that `YYYY-MM-DD` can write: a four-digit year and a month and day in
      range. */
  predicate ValidDate(d: Date)
  {
    0 <= d.year < 10000 && 1 <= d.month <= 12 && 1 <= d.day <= 31
  }

  /** Calendar order. */
  predicate Before(a: Date, b: Date)
  {
    a.year < b.year
    || (a.year == b.year && a.month < b.month)
    || (a.year == b.year && a.month == b.month && a.day < b.day)
  }

  /** The ISO form a date input reports, `YYYY-MM-DD`. */
  function Iso(d: Date): (r: string)
    requires ValidDate(d)
    ensures |r| == 10 && r[4] == '-' && r[7] == '-'
  {
    Digits(d.year, 4) + "-" + Digits(d.month, 2) + "-" + Digits(d.day, 2)
  }

  /** Two strings split at the same length are equal, or ordered, as their pairs
      of parts are, heads first. */
  lemma Split(x: string, y: string, x2: string, y2: string)
    requires |x| == |x2|
    ensures LexLess(x + y, x2 + y2) <==> LexLess(x, x2) || (x == x2 && LexLess(y, y2))
    ensures x + y == x2 + y2 <==> x == x2 && y == y2
  {
    LexConcat(x, y, x2, y2);
    if x + y == x2 + y2 {
      assert (x + y)[..|x|] == x && (x2 + y2)[..|x|] == x2;
      assert (x + y)[|x|..] == y && (x2 + y2)[|x|..] == y2;
    }
  }

  /** A part that starts with a dash: `-` then `s` compares as `s` does. */
  lemma DashPrefix(s: string, s2: string)
    ensures LexLess("-" + s, "-" + s2) <==> LexLess(s, s2)
    ensures "-" + s == "-" + s2 <==> s == s2
  {
    Split("-", s, "-", s2);
    LexTrichotomy("-", "-");
  }

  /** The `-MM-DD` tail of an ISO date compares as (month, day). */
  lemma TailOrder(ma: string, da: string, mb: string, db: string)
    requires |ma| == |mb|
    ensures LexLess("-" + (ma + ("-" + da)), "-" + (mb + ("-" + db)))
            <==> LexLess(ma, mb) || (ma == mb && LexLess(da, db))
    ensures "-" + (ma + ("-" + da)) == "-" + (mb + ("-" + db)) <==> ma == mb && da == db
  {
    DashPrefix(ma + ("-" + da), mb + ("-" + db));
    Split(ma, "-" + da, mb, "-" + db);
    DashPrefix(da, db);
  }

  /** The ISO form regrouped as year, then the `-MM-DD` tail. */
  lemma IsoParts(d: Date)
    requires ValidDate(d)
    ensures Iso(d) == Digits(d.year, 4) + ("-" + (Digits(d.month, 2) + ("-" + Digits(d.day, 2))))
  {
  }

  /** On valid dates, JavaScript's string comparison of the ISO forms is calendar
      order, and equal strings are equal dates. */
  lemma IsoChronological(a: Date, b: Date)
    requires ValidDate(a) && ValidDate(b)
    ensures LexLess(Iso(a), Iso(b)) <==> Before(a, b)
    ensures Iso(a) == Iso(b) <==> a == b
  {
    DigitsOrder(a.year, b.year, 4);
    DigitsOrder(a.month, b.month, 2);
    DigitsOrder(a.day, b.day, 2);
    IsoParts(a);
    IsoParts(b);
    var ma, mb := Digits(a.month, 2), Digits(b.month, 2);
    var da, db := Digits(a.day, 2), Digits(b.day, 2);
    TailOrder(ma, da, mb, db);
    Split(Digits(a.year, 4), "-" + (ma + ("-" + da)), Digits(b.year, 4), "-" + (mb + ("-" + db)));
  }

  /** The end-date check is implied by the other two: after today and not before
      the start means after today. */
  lemma AfterTodayCarries(today: string, start: string, end: string)
    requires LexLess(today, start) && !LexLess(end, start)
    ensures LexLess(today, end)
  {
    LexTrichotomy(start, end);
    if start != end {
      LexTransitive(today, start, end);
    }
  }
}
