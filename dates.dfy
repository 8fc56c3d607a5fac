/**
 * Calendar dates as the importer and the timeseries view hold them:
 * Python `datetime.date` values (always valid, year 1..9999), their
 * `isoformat()` rendering, the ordering of those strings, and the
 * `order_by("date")` the store applies to a country's rows.
 */
module Dates {

  datatype YMD = YMD(year: int, month: int, day: int)

  predicate IsLeap(y: int)
  {
    y % 4 == 0 && (y % 100 != 0 || y % 400 == 0)
  }

  /** Length of a month in the proleptic Gregorian calendar. */
  function DaysInMonth(y: int, m: int): (n: int)
    requires 1 <= m <= 12
    ensures 28 <= n <= 31
    ensures n == 29 <==> m == 2 && IsLeap(y)
    ensures n == 28 <==> m == 2 && !IsLeap(y)
  {
    if m == 2 then (if IsLeap(y) then 29 else 28)
    else if m == 4 || m == 6 || m == 9 || m == 11 then 30
    else 31
  }

  /** What Python's `date(year, month, day)` accepts without raising. */
  predicate ValidYMD(d: YMD)
  {
    1 <= d.year <= 9999 && 1 <= d.month <= 12 && 1 <= d.day <= DaysInMonth(d.year, d.month)
  }

  /** A `datatime.date`: a valid calendar day. */
  type Date = d: YMD | ValidYMD(d) witness YMD(1970, 1, 1)

  /** Chronological order. */
  predicate Before(a: YMD, b: YMD)
  {
    a.year < b.year
    || (a.year == b.year && (a.month < b.month || (a.month == b.month && a.day < b.day)))
  }

  /** Chronological order is transitive. */
  lemma BeforeTrans(a: YMD, b: YMD, c: YMD)
    requires Before(a, b) && Before(b, c)
    ensures Before(a, c)
  {
  }

  function Pow10(w: nat): (p: nat)
    ensures p >= 1
  {
    if w == 0 then 1 else 10 * Pow10(w - 1)
  }

  /** The ASCII digit for 0..9. */
  function DigitChar(n: int): (c: char)
    requires 0 <= n < 10
    ensures '0' <= c <= '9'
    ensures c as int - '0' as int == n
  {
    (n + '0' as int) as char
  }

  /** `"%0{w}d" % x`: the last `w` decimal digits of `x`, zero-padded. */
  function Pad(x: nat, w: nat): (s: string)
    ensures |s| == w
    ensures forall i :: 0 <= i < w ==> '0' <= s[i] <= '9'
  {
    if w == 0 then "" else Pad(x / 10, w - 1) + [DigitChar(x % 10)]
  }

  /** `d.isoformat()`, the `_iso` helper of the view: `YYYY-MM-DD`. */
  function Iso(d: Date): (s: string)
    ensures |s| == 10 && s[4] == '-' && s[7] == '-'
    ensures forall i :: 0 <= i < 10 && i != 4 && i != 7 ==> '0' <= s[i] <= '9'
  {
    Pad(d.year, 4) + "-" + Pad(d.month, 2) + "-" + Pad(d.day, 2)
  }

  /** Python's `<` on `str`: lexicographic by code point, a proper prefix first. */
  predicate StrLess(a: string, b: string)
    decreases |a|
  {
    if a == [] then b != []
    else if b == [] then false
    else a[0] < b[0] || (a[0] == b[0] && StrLess(a[1..], b[1..]))
  }

  /** Comparing two strings whose heads have equal length: heads first, then tails. */
  lemma {:induction false} StrLessAppend(a1: string, b1: string, a2: string, b2: string)
    requires |a1| == |a2|
    ensures StrLess(a1 + b1, a2 + b2) <==> StrLess(a1, a2) || (a1 == a2 && StrLess(b1, b2))
    decreases |a1|
  {
    if a1 == [] {
      assert a1 + b1 == b1 && a2 + b2 == b2;
    } else {
      assert (a1 + b1)[0] == a1[0] && (a2 + b2)[0] == a2[0];
      assert (a1 + b1)[1..] == a1[1..] + b1;
      assert (a2 + b2)[1..] == a2[1..] + b2;
      StrLessAppend(a1[1..], b1, a2[1..], b2);
      if a1[0] == a2[0] && a1[1..] == a2[1..] {
        assert a1 == a2 by {
          assert a1 == [a1[0]] + a1[1..];
          assert a2 == [a2[0]] + a2[1..];
        }
      }
    }
  }

  /** Zero-padded numerals of the same width compare as the numbers do. */
  lemma {:induction false} PadOrder(x: nat, y: nat, w: nat)
    requires x < Pow10(w) && y < Pow10(w)
    ensures StrLess(Pad(x, w), Pad(y, w)) <==> x < y
    ensures Pad(x, w) == Pad(y, w) <==> x == y
  {
    if w == 0 {
      assert x == 0 && y == 0;
    } else {
      var px, py := Pad(x / 10, w - 1), Pad(y / 10, w - 1);
      var dx, dy := DigitChar(x % 10), DigitChar(y % 10);
      assert x / 10 < Pow10(w - 1) && y / 10 < Pow10(w - 1);
      PadOrder(x / 10, y / 10, w - 1);
      StrLessAppend(px, [dx], py, [dy]);
      assert StrLess([dx], [dy]) <==> dx < dy by {
        assert [dx][1..] == [] && [dy][1..] == [];
      }
      assert px + [dx] == py + [dy] <==> px == py && dx == dy by {
        if px + [dx] == py + [dy] {
          assert (px + [dx])[..w - 1] == px && (py + [dy])[..w - 1] == py;
          assert (px + [dx])[w - 1] == dx && (py + [dy])[w - 1] == dy;
        }
      }
      assert x == 10 * (x / 10) + x % 10 && y == 10 * (y / 10) + y % 10;
    }
  }

  /**
   * Sorting by the `isoformat()` string is sorting by date: the view's final
   * `sort(key=date string)` orders highlights chronologically.
   */
  lemma IsoOrder(a: Date, b: Date)
    ensures StrLess(Iso(a), Iso(b)) <==> Before(a, b)
  {
    var ya, yb := Pad(a.year, 4), Pad(b.year, 4);
    var ma, mb := Pad(a.month, 2), Pad(b.month, 2);
    var da, db := Pad(a.day, 2), Pad(b.day, 2);
    var dashA, dashB := "-" + da, "-" + db;
    var monA, monB := ma + dashA, mb + dashB;
    var restA, restB := "-" + monA, "-" + monB;
    assert Iso(a) == ya + restA;
    assert Iso(b) == yb + restB;
    assert Pow10(4) == 10000 && Pow10(2) == 100;
    PadOrder(a.year, b.year, 4);
    PadOrder(a.month, b.month, 2);
    PadOrder(a.day, b.day, 2);
    StrLessAppend(ya, restA, yb, restB);
    StrLessAppend("-", monA, "-", monB);
    StrLessAppend(ma, dashA, mb, dashB);
    StrLessAppend("-", da, "-", db);
    assert !StrLess("-", "-");
  }

  lemma {:induction false} StrLessIrreflexive(s: string)
    ensures !StrLess(s, s)
    decreases |s|
  {
    if s != [] {
      StrLessIrreflexive(s[1..]);
    }
  }

  /** Distinct dates have distinct `isoformat()` strings. */
  lemma IsoInjective(a: Date, b: Date)
    ensures Iso(a) == Iso(b) <==> a == b
  {
    if a != b {
      IsoOrder(a, b);
      IsoOrder(b, a);
      StrLessIrreflexive(Iso(a));
    }
  }

  /** `m` is an earliest date of `s`. */
  predicate IsEarliest(m: Date, s: set<Date>)
  {
    m in s && forall x :: x in s ==> !Before(x, m)
  }

  lemma {:induction false} EarliestExists(s: set<Date>)
    requires s != {}
    ensures exists m :: IsEarliest(m, s)
    decreases |s|
  {
    var x :| x in s;
    if s == {x} {
      assert IsEarliest(x, s);
    } else {
      EarliestExists(s - {x});
      var m: Date :| IsEarliest(m, s - {x});
      if Before(x, m) {
        forall y | y in s
          ensures !Before(y, x)
        {
          if y != x {
            assert !Before(y, m);
          }
        }
        assert IsEarliest(x, s);
      } else {
        assert IsEarliest(m, s);
      }
    }
  }

  lemma PrependEarliest(m: Date, s: set<Date>, rest: seq<Date>)
    requires IsEarliest(m, s)
    requires |rest| == |s - {m}|
    requires forall d :: d in rest <==> d in s - {m}
    requires forall i, j :: 0 <= i < j < |rest| ==> Before(rest[i], rest[j])
    ensures |[m] + rest| == |s|
    ensures forall d :: d in [m] + rest <==> d in s
    ensures forall i, j :: 0 <= i < j < |[m] + rest| ==> Before(([m] + rest)[i], ([m] + rest)[j])
  {
    assert |s - {m}| == |s| - 1;
    forall j | 0 <= j < |rest|
      ensures Before(m, rest[j])
    {
      assert rest[j] in rest;
    }
  }

  /**
   * The store's `order_by("date")` over one country's rows: the dates of `s`,
   * each once, in strictly increasing order.
   */
  function SortedDates(s: set<Date>): (r: seq<Date>)
    ensures |r| == |s|
    ensures forall d :: d in r <==> d in s
    ensures forall i, j :: 0 <= i < j < |r| ==> Before(r[i], r[j])
    decreases |s|
  {
    if s == {} then []
    else
      EarliestExists(s);
      var m: Date :| m in s && IsEarliest(m, s);
      var rest := SortedDates(s - {m});
      PrependEarliest(m, s, rest);
      [m] + rest
  }
}
