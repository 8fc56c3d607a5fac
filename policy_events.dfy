/**
 * `generate_policy_events`: for each touched country, its events are
 * deleted and derived again from its stored policy rows in date order. A row
 * yields one event when any of its six fields differs from the row before
 * it; the event text lists the changes.
 *
 * The f-string rendering of a stored float is Python's `str(float)`, which
 * is not modelled: it is the parameter `showReal`.
 */
module PolicyEvents {
  import opened Wrappers
  import opened Dates
  import opened Coerce
  import opened Models

  /** `{a}` in an f-string for a nullable value: `None`, or the value shown. */
  function Render<T>(v: Option<T>, show: T -> string): string
  {
    match v
    case None => "None"
    case Some(x) => show(x)
  }

  /** The arrow between the old and the new value. */
  const Arrow: string := " \U{2192} "

  /** `diff(label, a, b)`: a clause when the values differ and one of them is not null. */
  function Diff<T(==)>(title: string, a: Option<T>, b: Option<T>, show: T -> string): (r: Option<string>)
    ensures r.Some? <==> a != b
  {
    if a != b && (a.Some? || b.Some?) then Some(title + ": " + Render(a, show) + Arrow + Render(b, show))
    else None
  }

  /** The clauses that are present, in order. */
  function Present(ds: seq<Option<string>>): (r: seq<string>)
    ensures |r| <= |ds|
    ensures r == [] <==> forall i :: 0 <= i < |ds| ==> ds[i].None?
    ensures forall s :: s in r ==> Some(s) in ds
  {
    if ds == [] then []
    else (if ds[0].Some? then [ds[0].value] else []) + Present(ds[1..])
  }

  /** The six comparisons, in their fixed order. */
  function Diffs(prev: PolicyDaily, cur: PolicyDaily, showReal: real -> string): seq<Option<string>>
  {
    [ Diff("Stringency", prev.stringencyIndex, cur.stringencyIndex, showReal),
      Diff("School closing", prev.c1SchoolClosing, cur.c1SchoolClosing, IntStr),
      Diff("Workplace closing", prev.c2WorkplaceClosing, cur.c2WorkplaceClosing, IntStr),
      Diff("Stay-at-home", prev.c6StayAtHome, cur.c6StayAtHome, IntStr),
      Diff("Intl travel", prev.c8InternationalTravelControls, cur.c8InternationalTravelControls, IntStr),
      Diff("Face coverings", prev.h6FacialCoverings, cur.h6FacialCoverings, IntStr) ]
  }

  /**
   * The list `changes` for one row against the row before it: at most six
   * clauses, and none exactly when all six fields are equal.
   */
  function Changes(prev: PolicyDaily, cur: PolicyDaily, showReal: real -> string): (r: seq<string>)
    ensures |r| <= 6
    ensures r == [] <==> prev == cur
  {
    var ds := Diffs(prev, cur, showReal);
    assert prev == cur <==>
      ds[0].None? && ds[1].None? && ds[2].None? && ds[3].None? && ds[4].None? && ds[5].None?;
    Present(ds)
  }

  /** `"; ".join(parts)`. */
  function Join(parts: seq<string>): string
  {
    if parts == [] then ""
    else if |parts| == 1 then parts[0]
    else Join(parts[..|parts| - 1]) + "; " + parts[|parts| - 1]
  }

  /** The first three clauses joined, then `" (+k more)"` for the k left over. */
  function EventText(changes: seq<string>): string
  {
    if |changes| <= 3 then Join(changes)
    else Join(changes[..3]) + " (+" + IntStr(|changes| - 3) + " more)"
  }

  /**
   * The first three clauses are spelled out, separated by `"; "`, and any
   * further ones are only counted in a `" (+k more)"` suffix.
   */
  lemma EventTextOverflow(c: seq<string>)
    ensures |c| == 1 ==> EventText(c) == c[0]
    ensures |c| == 2 ==> EventText(c) == c[0] + "; " + c[1]
    ensures |c| >= 3 ==>
      EventText(c) == c[0] + "; " + c[1] + "; " + c[2] + (if |c| > 3 then " (+" + IntStr(|c| - 3) + " more)" else "")
  {
    if |c| >= 2 {
      assert c[..2][..1] == c[..1] == [c[0]];
      assert Join(c[..2]) == c[0] + "; " + c[1];
      if |c| >= 3 {
        assert c[..3][..2] == c[..2];
      } else {
        assert c[..2] == c;
      }
    }
  }

  /** The joined text is the clauses and their separators, nothing else. */
  lemma {:induction false} JoinLength(parts: seq<string>, bound: nat)
    requires forall i :: 0 <= i < |parts| ==> |parts[i]| <= bound
    ensures |Join(parts)| <= |parts| * (bound + 2)
    decreases |parts|
  {
    if |parts| > 1 {
      JoinLength(parts[..|parts| - 1], bound);
    }
  }

  /**
   * With clauses of at most 160 characters, the text fits the declared
   * `max_length` of 500: three clauses, two separators and a short suffix.
   */
  lemma EventTextFits(changes: seq<string>)
    requires |changes| <= 6
    requires forall i :: 0 <= i < |changes| ==> |changes[i]| <= 160
    ensures |EventText(changes)| <= EventTextMaxLength
  {
    var head := if |changes| <= 3 then changes else changes[..3];
    JoinLength(head, 160);
    if |changes| > 3 {
      var k := |changes| - 3;
      assert IntStr(k) == [DigitChar(k)];
    }
  }

  /** Every rendered field of a row is at most `w` characters. */
  predicate RenderedWithin(p: PolicyDaily, showReal: real -> string, w: nat)
  {
    && |Render(p.stringencyIndex, showReal)| <= w
    && |Render(p.c1SchoolClosing, IntStr)| <= w
    && |Render(p.c2WorkplaceClosing, IntStr)| <= w
    && |Render(p.c6StayAtHome, IntStr)| <= w
    && |Render(p.c8InternationalTravelControls, IntStr)| <= w
    && |Render(p.h6FacialCoverings, IntStr)| <= w
  }

  /** When every value renders in at most 60 characters, every event text fits its column. */
  lemma ChangesTextFits(prev: PolicyDaily, cur: PolicyDaily, showReal: real -> string)
    requires RenderedWithin(prev, showReal, 60) && RenderedWithin(cur, showReal, 60)
    ensures |EventText(Changes(prev, cur, showReal))| <= EventTextMaxLength
  {
    var ds := Diffs(prev, cur, showReal);
    var ch := Changes(prev, cur, showReal);
    DiffsWithin(prev, cur, showReal);
    forall i | 0 <= i < |ch|
      ensures |ch[i]| <= 160
    {
      assert ch[i] in ch;
      assert Some(ch[i]) in ds;
    }
    EventTextFits(ch);
  }

  /** Each of the six clauses is at most 160 characters when the values are short. */
  lemma DiffsWithin(prev: PolicyDaily, cur: PolicyDaily, showReal: real -> string)
    requires RenderedWithin(prev, showReal, 60) && RenderedWithin(cur, showReal, 60)
    ensures forall d :: d in Diffs(prev, cur, showReal) && d.Some? ==> |d.value| <= 160
  {
    DiffWithin("Stringency", prev.stringencyIndex, cur.stringencyIndex, showReal);
    DiffWithin("School closing", prev.c1SchoolClosing, cur.c1SchoolClosing, IntStr);
    DiffWithin("Workplace closing", prev.c2WorkplaceClosing, cur.c2WorkplaceClosing, IntStr);
    DiffWithin("Stay-at-home", prev.c6StayAtHome, cur.c6StayAtHome, IntStr);
    DiffWithin("Intl travel", prev.c8InternationalTravelControls, cur.c8InternationalTravelControls, IntStr);
    DiffWithin("Face coverings", prev.h6FacialCoverings, cur.h6FacialCoverings, IntStr);
  }

  lemma DiffWithin<T>(title: string, a: Option<T>, b: Option<T>, show: T -> string)
    requires |title| <= 20 && |Render(a, show)| <= 60 && |Render(b, show)| <= 60
    ensures Diff(title, a, b, show).Some? ==> |Diff(title, a, b, show).value| <= 160
  {
  }

  /** The event a row yields against its predecessor, if any. */
  function StepEvent(prev: PolicyDaily, cur: (Date, PolicyDaily), showReal: real -> string): seq<PolicyEvent>
  {
    var ch := Changes(prev, cur.1, showReal);
    if ch == [] then [] else [PolicyEvent(cur.0, EventText(ch))]
  }

  /** The events derived from a country's policy rows in date order. */
  function Derive(rows: seq<(Date, PolicyDaily)>, showReal: real -> string): seq<PolicyEvent>
    decreases |rows|
  {
    if |rows| < 2 then []
    else Derive(rows[..|rows| - 1], showReal) + StepEvent(rows[|rows| - 2].1, rows[|rows| - 1], showReal)
  }

  /** A step yields at most one event, dated on the later row. */
  lemma StepEventDate(prev: PolicyDaily, cur: (Date, PolicyDaily), showReal: real -> string)
    ensures |StepEvent(prev, cur, showReal)| <= 1
    ensures forall k :: 0 <= k < |StepEvent(prev, cur, showReal)| ==> StepEvent(prev, cur, showReal)[k].date == cur.0
  {
  }

  /** One more row adds at most the event of that row against the one before it. */
  lemma DeriveSnoc(rows: seq<(Date, PolicyDaily)>, showReal: real -> string)
    requires |rows| >= 2
    ensures Derive(rows, showReal) == Derive(rows[..|rows| - 1], showReal) + StepEvent(rows[|rows| - 2].1, rows[|rows| - 1], showReal)
  {
  }

  /** The event of row `i` against row `i - 1`. */
  function EventAt(rows: seq<(Date, PolicyDaily)>, i: nat, showReal: real -> string): PolicyEvent
    requires 1 <= i < |rows|
  {
    PolicyEvent(rows[i].0, EventText(Changes(rows[i - 1].1, rows[i].1, showReal)))
  }

  /** `e` is the event of some row that differs from the row before it. */
  ghost predicate FromChangedRow(rows: seq<(Date, PolicyDaily)>, e: PolicyEvent, showReal: real -> string)
  {
    exists i :: 1 <= i < |rows| && rows[i - 1].1 != rows[i].1 && e == EventAt(rows, i, showReal)
  }

  /** Every derived event belongs to a later row that differs from the one before it. */
  lemma {:induction false} DeriveSound(rows: seq<(Date, PolicyDaily)>, showReal: real -> string)
    ensures forall e :: e in Derive(rows, showReal) ==> FromChangedRow(rows, e, showReal)
    decreases |rows|
  {
    if |rows| >= 2 {
      var n := |rows| - 1;
      var init := rows[..n];
      DeriveSound(init, showReal);
      DeriveSnoc(rows, showReal);
      forall e | e in Derive(rows, showReal)
        ensures FromChangedRow(rows, e, showReal)
      {
        if e in Derive(init, showReal) {
          FromChangedPrefix(rows, e, showReal);
        } else {
          FromChangedLast(rows, e, showReal);
        }
      }
    }
  }

  lemma FromChangedPrefix(rows: seq<(Date, PolicyDaily)>, e: PolicyEvent, showReal: real -> string)
    requires |rows| >= 2 && FromChangedRow(rows[..|rows| - 1], e, showReal)
    ensures FromChangedRow(rows, e, showReal)
  {
    var n := |rows| - 1;
    var i :| 1 <= i < n && rows[..n][i - 1].1 != rows[..n][i].1 && e == EventAt(rows[..n], i, showReal);
    EventAtPrefix(rows, n, i, showReal);
  }

  lemma FromChangedLast(rows: seq<(Date, PolicyDaily)>, e: PolicyEvent, showReal: real -> string)
    requires |rows| >= 2 && e in StepEvent(rows[|rows| - 2].1, rows[|rows| - 1], showReal)
    ensures FromChangedRow(rows, e, showReal)
  {
    var n := |rows| - 1;
    StepEventSound(rows, e, showReal);
    assert 1 <= n < |rows| && rows[n - 1].1 != rows[n].1 && e == EventAt(rows, n, showReal);
  }

  /** An event of the last step is the last row's `EventAt`, and that row differs from the one before. */
  lemma StepEventSound(rows: seq<(Date, PolicyDaily)>, e: PolicyEvent, showReal: real -> string)
    requires |rows| >= 2 && e in StepEvent(rows[|rows| - 2].1, rows[|rows| - 1], showReal)
    ensures rows[|rows| - 2].1 != rows[|rows| - 1].1
    ensures e == EventAt(rows, |rows| - 1, showReal)
  {
  }

  /** A prefix of the rows gives the same event at each of its indices. */
  lemma EventAtPrefix(rows: seq<(Date, PolicyDaily)>, n: nat, i: nat, showReal: real -> string)
    requires 1 <= i < n <= |rows|
    ensures rows[..n][i - 1] == rows[i - 1] && rows[..n][i] == rows[i]
    ensures EventAt(rows[..n], i, showReal) == EventAt(rows, i, showReal)
  {
  }

  /** Every later row that differs from the one before it yields its event. */
  lemma {:induction false} DeriveComplete(rows: seq<(Date, PolicyDaily)>, showReal: real -> string)
    ensures forall i :: 1 <= i < |rows| && rows[i - 1].1 != rows[i].1 ==>
      EventAt(rows, i, showReal) in Derive(rows, showReal)
    decreases |rows|
  {
    if |rows| >= 2 {
      var init := rows[..|rows| - 1];
      DeriveComplete(init, showReal);
      forall i | 1 <= i < |rows| && rows[i - 1].1 != rows[i].1
        ensures EventAt(rows, i, showReal) in Derive(rows, showReal)
      {
        if i < |rows| - 1 {
          assert EventAt(rows, i, showReal) == EventAt(init, i, showReal);
        }
      }
    }
  }

  /**
   * On rows in date order, the events are in strictly increasing date order
   * (so at most one per date), and none is on the first row's date.
   */
  lemma DeriveChronological(rows: seq<(Date, PolicyDaily)>, showReal: real -> string)
    requires Chronological(rows)
    ensures forall j, k :: 0 <= j < k < |Derive(rows, showReal)| ==>
      Before(Derive(rows, showReal)[j].date, Derive(rows, showReal)[k].date)
    ensures |rows| > 0 ==> forall e :: e in Derive(rows, showReal) ==> Before(rows[0].0, e.date)
  {
    DeriveOrdered(rows, showReal);
    if |rows| > 0 {
      DeriveWithin(rows, showReal);
      var evs := Derive(rows, showReal);
      forall e | e in evs ensures Before(rows[0].0, e.date) {
        var k :| 0 <= k < |evs| && evs[k] == e;
      }
    }
  }

  /** Each event is dated after the first row and no later than the last one. */
  lemma {:induction false} DeriveWithin(rows: seq<(Date, PolicyDaily)>, showReal: real -> string)
    requires Chronological(rows) && |rows| > 0
    ensures forall k :: 0 <= k < |Derive(rows, showReal)| ==>
      Before(rows[0].0, Derive(rows, showReal)[k].date) &&
      (Derive(rows, showReal)[k].date == rows[|rows| - 1].0 || Before(Derive(rows, showReal)[k].date, rows[|rows| - 1].0))
    decreases |rows|
  {
    if |rows| >= 2 {
      var n := |rows| - 1;
      var init := rows[..n];
      ChronologicalPrefix(rows, n);
      DeriveWithin(init, showReal);
      var step := StepEvent(rows[n - 1].1, rows[n], showReal);
      StepEventDate(rows[n - 1].1, rows[n], showReal);
      DeriveSnoc(rows, showReal);
      RowWithin(rows, n);
      var first, mid, last := rows[0].0, rows[n - 1].0, rows[n].0;
      assert init[0].0 == first && init[n - 1].0 == mid;
      var evs, d := Derive(rows, showReal), Derive(init, showReal);
      forall k | 0 <= k < |evs|
        ensures Before(first, evs[k].date) && (evs[k].date == last || Before(evs[k].date, last))
      {
        if k < |d| {
          assert evs[k] == d[k];
          WithinExtend(first, mid, last, d[k].date);
        } else {
          assert evs[k] == step[k - |d|];
        }
      }
    }
  }

  /** A date no later than `mid` is earlier than anything after `mid`. */
  lemma WithinExtend(first: Date, mid: Date, last: Date, d: Date)
    requires Before(first, d) && (d == mid || Before(d, mid)) && Before(mid, last)
    ensures Before(first, d) && Before(d, last)
  {
    if d != mid {
      BeforeTrans(d, mid, last);
    }
  }

  /** Any prefix of a chronological table is chronological. */
  lemma ChronologicalPrefix<V>(rows: seq<(Date, V)>, n: nat)
    requires Chronological(rows) && n <= |rows|
    ensures Chronological(rows[..n])
  {
    forall i, j | 0 <= i < j < n ensures Before(rows[..n][i].0, rows[..n][j].0) {
      assert rows[..n][i] == rows[i] && rows[..n][j] == rows[j];
    }
  }

  /** A row of a chronological table lies between its first and its last row. */
  lemma RowWithin<V>(rows: seq<(Date, V)>, i: nat)
    requires Chronological(rows) && 1 <= i < |rows|
    ensures Before(rows[0].0, rows[i].0)
    ensures i == |rows| - 1 || Before(rows[i].0, rows[|rows| - 1].0)
  {
  }

  /** Helper of `DeriveChronological`: the events in strictly increasing date order. */
  lemma {:induction false} DeriveOrdered(rows: seq<(Date, PolicyDaily)>, showReal: real -> string)
    requires Chronological(rows)
    ensures forall j, k :: 0 <= j < k < |Derive(rows, showReal)| ==>
      Before(Derive(rows, showReal)[j].date, Derive(rows, showReal)[k].date)
    decreases |rows|
  {
    if |rows| >= 2 {
      var n := |rows| - 1;
      var init := rows[..n];
      ChronologicalPrefix(rows, n);
      DeriveOrdered(init, showReal);
      DeriveWithin(init, showReal);
      var step := StepEvent(rows[n - 1].1, rows[n], showReal);
      StepEventDate(rows[n - 1].1, rows[n], showReal);
      DeriveSnoc(rows, showReal);
      var first, mid, last := rows[0].0, rows[n - 1].0, rows[n].0;
      assert init[0].0 == first && init[n - 1].0 == mid;
      assert Before(mid, last);
      var evs, d := Derive(rows, showReal), Derive(init, showReal);
      forall j, k | 0 <= j < k < |evs|
        ensures Before(evs[j].date, evs[k].date)
      {
        if k >= |d| {
          assert evs[j] == d[j];
          assert evs[k] == step[k - |d|];
          WithinExtend(first, mid, last, d[j].date);
        } else {
          assert evs[j] == d[j] && evs[k] == d[k];
        }
      }
    }
  }

  /**
   * The deriver's walk over the ordered rows: the first row only becomes
   * `prev`; each later one is compared with `prev` and then replaces it.
   */
  method DeriveEvents(rows: seq<(Date, PolicyDaily)>, showReal: real -> string) returns (evs: seq<PolicyEvent>)
    ensures evs == Derive(rows, showReal)
  {
    evs := [];
    var prev: Option<PolicyDaily> := None;
    for i := 0 to |rows|
      invariant evs == Derive(rows[..i], showReal)
      invariant prev == (if i == 0 then None else Some(rows[i - 1].1))
    {
      var p := rows[i];
      assert rows[..i + 1][..i] == rows[..i];
      if prev.Some? {
        var changes := Changes(prev.value, p.1, showReal);
        if changes != [] {
          evs := evs + [PolicyEvent(p.0, EventText(changes))];
        }
      }
      prev := Some(p.1);
    }
    assert rows[..|rows|] == rows;
  }

  /** The events map after regeneration. */
  function RegeneratedEvents(db: Db, codes: set<string>, showReal: real -> string): map<string, seq<PolicyEvent>>
  {
    map c | c in db.events.Keys + (codes * db.countries.Keys) ::
      if c in codes && c in db.countries then Derive(RowsOf(db.policies, c), showReal) else db.events[c]
  }

  /**
   * The store after regeneration for the codes in `codes`: each of them
   * that names a stored country gets exactly the events derived from its
   * policy rows; every other entry is kept.
   */
  function Regenerate(db: Db, codes: set<string>, showReal: real -> string): (r: Db)
    ensures r.countries == db.countries && r.metrics == db.metrics && r.policies == db.policies
    ensures forall c :: c in codes && c in db.countries ==>
      EventsOf(r.events, c) == Derive(RowsOf(db.policies, c), showReal)
    ensures forall c :: !(c in codes && c in db.countries) ==> EventsOf(r.events, c) == EventsOf(db.events, c)
    ensures Valid(db) ==> Valid(r)
  {
    RegeneratedEventsFacts(db, codes, showReal);
    db.(events := RegeneratedEvents(db, codes, showReal))
  }

  lemma RegeneratedEventsFacts(db: Db, codes: set<string>, showReal: real -> string)
    ensures var e := RegeneratedEvents(db, codes, showReal);
      && (forall c :: c in codes && c in db.countries ==> EventsOf(e, c) == Derive(RowsOf(db.policies, c), showReal))
      && (forall c :: !(c in codes && c in db.countries) ==> EventsOf(e, c) == EventsOf(db.events, c))
      && (forall c :: c in e ==> c in db.events || c in db.countries)
  {
  }

  /** Regenerating again from the same rows gives the same events. */
  lemma RegenerateIdempotent(db: Db, codes: set<string>, showReal: real -> string)
    ensures Regenerate(Regenerate(db, codes, showReal), codes, showReal) == Regenerate(db, codes, showReal)
  {
    var e1 := RegeneratedEvents(db, codes, showReal);
    var r1 := db.(events := e1);
    var e2 := RegeneratedEvents(r1, codes, showReal);
    assert e2.Keys == e1.Keys;
    forall c | c in e1
      ensures e2[c] == e1[c]
    {
    }
    assert e2 == e1;
  }
}
