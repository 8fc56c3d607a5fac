/**
 * The last two steps of the highlight engine: the de-duplication by
 * (date, type, title), keeping the first highlight of each key in
 * generation order, and `list.sort(key=date string)`, which is stable.
 */
module HighlightOrder {
  import opened Dates
  import opened Highlights

  /** The de-duplication key. The date string and the date determine each other. */
  type DedupKey = (Date, Kind, string)

  function KeyOf(h: Highlight): DedupKey
  {
    (h.date, h.kind, h.title)
  }

  function KeysOf(hs: seq<Highlight>): set<DedupKey>
  {
    set h | h in hs :: KeyOf(h)
  }

  /** The highlights whose key has not occurred before, in order. */
  function FirstByKey(hs: seq<Highlight>): seq<Highlight>
    decreases |hs|
  {
    if hs == [] then []
    else
      var r := FirstByKey(hs[..|hs| - 1]);
      if KeyOf(hs[|hs| - 1]) in KeysOf(r) then r else r + [hs[|hs| - 1]]
  }

  /** `h` is the first highlight of `hs` with its key. */
  predicate FirstOfItsKey(hs: seq<Highlight>, h: Highlight)
  {
    exists i :: 0 <= i < |hs| && hs[i] == h && forall j :: 0 <= j < i ==> KeyOf(hs[j]) != KeyOf(h)
  }

  lemma KeysOfSnoc(init: seq<Highlight>, last: Highlight)
    ensures KeysOf(init + [last]) == KeysOf(init) + {KeyOf(last)}
  {
    forall k | k in KeysOf(init + [last]) ensures k in KeysOf(init) + {KeyOf(last)} {
      var h :| h in init + [last] && KeyOf(h) == k;
      if h != last { assert h in init; }
    }
  }

  /**
   * De-duplication loses no key and keeps exactly one highlight per key:
   * there are as many highlights as keys.
   */
  lemma {:induction false} FirstByKeyCount(hs: seq<Highlight>)
    ensures KeysOf(FirstByKey(hs)) == KeysOf(hs)
    ensures |FirstByKey(hs)| == |KeysOf(hs)|
    decreases |hs|
  {
    if hs != [] {
      var init, last := hs[..|hs| - 1], hs[|hs| - 1];
      var r := FirstByKey(init);
      FirstByKeyCount(init);
      assert hs == init + [last];
      KeysOfSnoc(init, last);
      if KeyOf(last) !in KeysOf(r) {
        KeysOfSnoc(r, last);
      }
    }
  }

  /**
   * De-duplication keeps no two highlights with one key, and each kept
   * highlight is the first of its key, in generation order.
   */
  lemma {:induction false} FirstByKeyFacts(hs: seq<Highlight>)
    ensures forall p, q :: 0 <= p < q < |FirstByKey(hs)| ==> KeyOf(FirstByKey(hs)[p]) != KeyOf(FirstByKey(hs)[q])
    ensures forall h :: h in FirstByKey(hs) ==> FirstOfItsKey(hs, h)
    decreases |hs|
  {
    if hs != [] {
      var init, last := hs[..|hs| - 1], hs[|hs| - 1];
      FirstByKeyFacts(init);
      FirstByKeyCount(init);
      var r := FirstByKey(init);
      forall h | h in FirstByKey(hs)
        ensures FirstOfItsKey(hs, h)
      {
        if h in r {
          assert FirstOfItsKey(init, h);
          var i :| 0 <= i < |init| && init[i] == h && forall j :: 0 <= j < i ==> KeyOf(init[j]) != KeyOf(h);
          assert hs[i] == h;
          assert forall j :: 0 <= j < i ==> hs[j] == init[j];
        } else {
          assert h == last && KeyOf(last) !in KeysOf(init);
          forall j | 0 <= j < |hs| - 1 ensures KeyOf(hs[j]) != KeyOf(h) {
            assert hs[j] in init;
          }
          assert hs[|hs| - 1] == h;
        }
      }
      if KeyOf(last) !in KeysOf(r) {
        var r1 := r + [last];
        forall p, q | 0 <= p < q < |r1|
          ensures KeyOf(r1[p]) != KeyOf(r1[q])
        {
          if q == |r| {
            assert r1[p] == r[p] && r[p] in r;
          } else {
            assert r1[p] == r[p] && r1[q] == r[q];
          }
        }
      }
    }
  }

  /** A sequence has at most as many keys as elements. */
  lemma {:induction false} KeysAtMost(hs: seq<Highlight>)
    ensures |KeysOf(hs)| <= |hs|
    decreases |hs|
  {
    if hs != [] {
      var init, last := hs[..|hs| - 1], hs[|hs| - 1];
      KeysAtMost(init);
      assert hs == init + [last];
      KeysOfSnoc(init, last);
      if KeyOf(last) in KeysOf(init) {
        assert KeysOf(init) + {KeyOf(last)} == KeysOf(init);
      }
    }
  }

  /** As many elements as keys: no two elements share a key. */
  lemma {:induction false} KeysDistinct(hs: seq<Highlight>)
    requires |hs| == |KeysOf(hs)|
    ensures forall p, q :: 0 <= p < q < |hs| ==> KeyOf(hs[p]) != KeyOf(hs[q])
    decreases |hs|
  {
    if hs != [] {
      var init, last := hs[..|hs| - 1], hs[|hs| - 1];
      assert hs == init + [last];
      KeysOfSnoc(init, last);
      KeysAtMost(init);
      KeysDistinct(init);
      forall p, q | 0 <= p < q < |hs| ensures KeyOf(hs[p]) != KeyOf(hs[q]) {
        if q < |hs| - 1 {
          assert hs[p] == init[p] && hs[q] == init[q];
        } else {
          assert hs[p] in init;
        }
      }
    }
  }

  /** The de-duplication loop: the dict's keys are the keys kept so far. */
  method Dedup(hs: seq<Highlight>) returns (r: seq<Highlight>)
    ensures r == FirstByKey(hs)
  {
    r := [];
    var seen: set<DedupKey> := {};
    for i := 0 to |hs|
      invariant r == FirstByKey(hs[..i])
      invariant seen == KeysOf(r)
    {
      var h := hs[i];
      assert hs[..i + 1][..i] == hs[..i];
      if KeyOf(h) !in seen {
        KeysOfSnoc(r, h);
        seen := seen + {KeyOf(h)};
        r := r + [h];
      }
    }
    assert hs[..|hs|] == hs;
  }

  // ---------------------------------------------------------------------
  // The stable sort by date string

  /** `x` sorts before `y`: its date string is smaller. */
  predicate KeyLess(x: Highlight, y: Highlight)
  {
    StrLess(Iso(x.date), Iso(y.date))
  }

  /** Insertion behind every element whose date string is not greater. */
  function Insert(x: Highlight, s: seq<Highlight>): seq<Highlight>
    decreases |s|
  {
    if s == [] then [x]
    else if KeyLess(x, s[0]) then [x] + s
    else [s[0]] + Insert(x, s[1..])
  }

  /** `highlights.sort(key=lambda x: x["date"])`. */
  function SortByDate(hs: seq<Highlight>): seq<Highlight>
    decreases |hs|
  {
    if hs == [] then [] else Insert(hs[|hs| - 1], SortByDate(hs[..|hs| - 1]))
  }

  /** Chronological order: no highlight is dated after a later one. */
  predicate Sorted(s: seq<Highlight>)
  {
    forall p, q :: 0 <= p < q < |s| ==> !Before(s[q].date, s[p].date)
  }

  /** The highlights of one date, in order. */
  function OnDate(s: seq<Highlight>, d: Date): seq<Highlight>
    decreases |s|
  {
    if s == [] then [] else (if s[0].date == d then [s[0]] else []) + OnDate(s[1..], d)
  }

  lemma {:induction false} OnDateAppend(a: seq<Highlight>, b: seq<Highlight>, d: Date)
    ensures OnDate(a + b, d) == OnDate(a, d) + OnDate(b, d)
    decreases |a|
  {
    if a != [] {
      assert (a + b)[1..] == a[1..] + b;
      OnDateAppend(a[1..], b, d);
    } else {
      assert a + b == b;
    }
  }

  /** A date before every date of a sorted sequence occurs in none of it. */
  lemma {:induction false} OnDateNone(s: seq<Highlight>, d: Date)
    requires forall i :: 0 <= i < |s| ==> Before(d, s[i].date)
    ensures OnDate(s, d) == []
    decreases |s|
  {
    if s != [] {
      OnDateNone(s[1..], d);
    }
  }

  /** No highlight of `s` is dated before `b`. */
  predicate AllFrom(s: seq<Highlight>, b: Date)
  {
    forall i :: 0 <= i < |s| ==> !Before(s[i].date, b)
  }

  lemma SortedTail(s: seq<Highlight>)
    requires Sorted(s) && s != []
    ensures Sorted(s[1..]) && AllFrom(s[1..], s[0].date)
  {
    forall p, q | 0 <= p < q < |s[1..]| ensures !Before(s[1..][q].date, s[1..][p].date) {
      assert s[1..][p] == s[p + 1] && s[1..][q] == s[q + 1];
    }
    forall i | 0 <= i < |s[1..]| ensures !Before(s[1..][i].date, s[0].date) {
      assert s[1..][i] == s[i + 1];
    }
  }

  lemma {:induction false} InsertFrom(x: Highlight, s: seq<Highlight>, b: Date)
    requires AllFrom(s, b) && !Before(x.date, b)
    ensures AllFrom(Insert(x, s), b)
    decreases |s|
  {
    if s != [] && !KeyLess(x, s[0]) {
      assert AllFrom(s[1..], b) by {
        forall i | 0 <= i < |s[1..]| ensures !Before(s[1..][i].date, b) {
          assert s[1..][i] == s[i + 1];
        }
      }
      InsertFrom(x, s[1..], b);
      var r := [s[0]] + Insert(x, s[1..]);
      forall i | 0 <= i < |r| ensures !Before(r[i].date, b) {
        if i > 0 { assert r[i] == Insert(x, s[1..])[i - 1]; }
      }
    }
  }

  lemma {:induction false} InsertPermutes(x: Highlight, s: seq<Highlight>)
    ensures multiset(Insert(x, s)) == multiset(s) + multiset{x}
    decreases |s|
  {
    if s != [] && !KeyLess(x, s[0]) {
      assert s == [s[0]] + s[1..];
      calc {
        multiset(Insert(x, s));
        multiset([s[0]] + Insert(x, s[1..]));
        multiset([s[0]]) + multiset(Insert(x, s[1..]));
        { InsertPermutes(x, s[1..]); }
        multiset([s[0]]) + multiset(s[1..]) + multiset{x};
        multiset(s) + multiset{x};
      }
    }
  }

  lemma {:induction false} InsertSorted(x: Highlight, s: seq<Highlight>)
    requires Sorted(s)
    ensures Sorted(Insert(x, s))
    decreases |s|
  {
    if s != [] {
      IsoOrder(x.date, s[0].date);
      SortedTail(s);
      if KeyLess(x, s[0]) {
        assert AllFrom(s, x.date) by {
          forall i | 0 <= i < |s| ensures !Before(s[i].date, x.date) {
            if i > 0 { assert s[1..][i - 1] == s[i]; }
          }
        }
        SortedCons(x, s);
      } else {
        InsertSorted(x, s[1..]);
        InsertFrom(x, s[1..], s[0].date);
        SortedCons(s[0], Insert(x, s[1..]));
      }
    }
  }

  /** A highlight dated no later than every one of a sorted sequence can go in front of it. */
  lemma SortedCons(x: Highlight, s: seq<Highlight>)
    requires Sorted(s) && AllFrom(s, x.date)
    ensures Sorted([x] + s)
  {
    var r := [x] + s;
    forall p, q | 0 <= p < q < |r| ensures !Before(r[q].date, r[p].date) {
      assert r[q] == s[q - 1];
      if p > 0 { assert r[p] == s[p - 1]; }
    }
  }

  lemma {:induction false} InsertOnDate(x: Highlight, s: seq<Highlight>, d: Date)
    requires Sorted(s)
    ensures OnDate(Insert(x, s), d) == OnDate(s, d) + (if x.date == d then [x] else [])
    decreases |s|
  {
    if s == [] {
      assert [x][1..] == [];
    } else {
      IsoOrder(x.date, s[0].date);
      SortedTail(s);
      if KeyLess(x, s[0]) {
        assert ([x] + s)[1..] == s;
        if x.date == d {
          forall i | 0 <= i < |s| ensures Before(x.date, s[i].date) {
            if i > 0 { assert s[1..][i - 1] == s[i]; }
          }
          OnDateNone(s, x.date);
        }
      } else {
        InsertOnDate(x, s[1..], d);
        assert ([s[0]] + Insert(x, s[1..]))[1..] == Insert(x, s[1..]);
      }
    }
  }

  /** The sort puts the highlights in chronological order. */
  lemma {:induction false} SortByDateSorted(hs: seq<Highlight>)
    ensures Sorted(SortByDate(hs))
    decreases |hs|
  {
    if hs != [] {
      SortByDateSorted(hs[..|hs| - 1]);
      InsertSorted(hs[|hs| - 1], SortByDate(hs[..|hs| - 1]));
    }
  }

  /** The sort neither loses nor adds a highlight. */
  lemma {:induction false} SortByDatePermutes(hs: seq<Highlight>)
    ensures multiset(SortByDate(hs)) == multiset(hs)
    decreases |hs|
  {
    if hs != [] {
      var init, last := hs[..|hs| - 1], hs[|hs| - 1];
      assert hs == init + [last];
      calc {
        multiset(SortByDate(hs));
        multiset(Insert(last, SortByDate(init)));
        { InsertPermutes(last, SortByDate(init)); }
        multiset(SortByDate(init)) + multiset{last};
        { SortByDatePermutes(init); }
        multiset(init) + multiset{last};
        multiset(hs);
      }
    }
  }

  /**
   * The sort is stable: the highlights of each date keep their generation
   * order (policy, then cases, then deaths, then vaccination).
   */
  lemma {:induction false} SortByDateStable(hs: seq<Highlight>, d: Date)
    ensures OnDate(SortByDate(hs), d) == OnDate(hs, d)
    decreases |hs|
  {
    if hs != [] {
      var init, last := hs[..|hs| - 1], hs[|hs| - 1];
      assert hs == init + [last];
      var extra := if last.date == d then [last] else [];
      calc {
        OnDate(SortByDate(hs), d);
        OnDate(Insert(last, SortByDate(init)), d);
        { InsertIntoSorted(init, last, d); }
        OnDate(SortByDate(init), d) + extra;
        { SortByDateStable(init, d); }
        OnDate(init, d) + extra;
        { OnDateSnoc(init, last, d); }
        OnDate(hs, d);
      }
    }
  }

  /** Inserting into a sorted prefix adds the new highlight behind those of its date. */
  lemma InsertIntoSorted(init: seq<Highlight>, last: Highlight, d: Date)
    ensures OnDate(Insert(last, SortByDate(init)), d)
      == OnDate(SortByDate(init), d) + (if last.date == d then [last] else [])
  {
    SortByDateSorted(init);
    InsertOnDate(last, SortByDate(init), d);
  }

  /** The highlights of a date in a sequence extended by one. */
  lemma OnDateSnoc(init: seq<Highlight>, last: Highlight, d: Date)
    ensures OnDate(init + [last], d) == OnDate(init, d) + (if last.date == d then [last] else [])
  {
    OnDateAppend(init, [last], d);
    assert [last][1..] == [];
  }

  /** Sorted by date string is sorted by date. */
  lemma SortedByDateString(s: seq<Highlight>)
    requires Sorted(s)
    ensures forall p, q :: 0 <= p < q < |s| ==> !StrLess(Iso(s[q].date), Iso(s[p].date))
  {
    forall p, q | 0 <= p < q < |s|
      ensures !StrLess(Iso(s[q].date), Iso(s[p].date))
    {
      IsoOrder(s[q].date, s[p].date);
    }
  }
}
