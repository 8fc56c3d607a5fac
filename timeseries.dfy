/**
 * `api_timeseries`: one country's metric series, the policy series aligned
 * to the metric dates, the stored policy events per date and the ordered
 * highlights.
 */
module Timeseries {
  import opened Wrappers
  import opened Dates
  import opened Models
  import opened Highlights
  import opened HighlightOrder

  /** The `series` object: six metric columns and six policy columns. */
  datatype Series = Series(
    cases: seq<Option<real>>,
    deaths: seq<Option<real>>,
    casesPm: seq<Option<real>>,
    deathsPm: seq<Option<real>>,
    vaxFull: seq<Option<real>>,
    vaxTotal: seq<Option<real>>,
    stringency: seq<Option<real>>,
    school: seq<Option<int>>,
    work: seq<Option<int>>,
    stayHome: seq<Option<int>>,
    travel: seq<Option<int>>,
    masks: seq<Option<int>>)

  /** One entry of `events`: a metric date and the texts stored for it. */
  datatype DayEvents = DayEvents(date: string, items: seq<string>)

  /** The response body of a known country. */
  datatype Payload = Payload(
    isoCode: string,
    country: Country,
    dates: seq<string>,
    series: Series,
    events: seq<DayEvents>,
    highlights: seq<Highlight>)

  /** The 404 response, `{"error": "Country not found"}`. */
  datatype ViewError = CountryNotFound

  function MetricDates(mrows: seq<(Date, DailyMetric)>): (r: seq<Date>)
    ensures |r| == |mrows|
  {
    seq(|mrows|, i requires 0 <= i < |mrows| => mrows[i].0)
  }

  function IsoDates(dates: seq<Date>): (r: seq<string>)
    ensures |r| == |dates|
  {
    seq(|dates|, i requires 0 <= i < |dates| => Iso(dates[i]))
  }

  /** `{_iso(r["date"]): r for r in policy_rows}`: a later row of the same date wins. */
  function PolicyMap(prows: seq<(Date, PolicyDaily)>): map<Date, PolicyDaily>
    decreases |prows|
  {
    if prows == [] then map[]
    else PolicyMap(prows[..|prows| - 1])[prows[|prows| - 1].0 := prows[|prows| - 1].1]
  }

  /** The dictionary holds one of the rows of each date, and only those dates. */
  lemma {:induction false} PolicyMapFacts(prows: seq<(Date, PolicyDaily)>)
    ensures forall d :: d in PolicyMap(prows) ==> exists i :: 0 <= i < |prows| && prows[i] == (d, PolicyMap(prows)[d])
    ensures forall i :: 0 <= i < |prows| ==> prows[i].0 in PolicyMap(prows)
    decreases |prows|
  {
    if prows != [] {
      var init, last := prows[..|prows| - 1], prows[|prows| - 1];
      PolicyMapFacts(init);
      forall d | d in PolicyMap(prows)
        ensures exists i :: 0 <= i < |prows| && prows[i] == (d, PolicyMap(prows)[d])
      {
        if d == last.0 {
          assert prows[|prows| - 1] == (d, PolicyMap(prows)[d]);
        } else {
          var i :| 0 <= i < |init| && init[i] == (d, PolicyMap(init)[d]);
          assert prows[i] == init[i];
        }
      }
      forall i | 0 <= i < |prows| ensures prows[i].0 in PolicyMap(prows) {
        if i < |prows| - 1 { assert prows[i] == init[i]; }
      }
    }
  }

  /** `p_arr`: the policy value of each metric date, or none when that date has no policy row. */
  function PolicyColumn<X>(dates: seq<Date>, pmap: map<Date, PolicyDaily>, field: PolicyDaily -> Option<X>)
    : (r: seq<Option<X>>)
    ensures |r| == |dates|
  {
    seq(|dates|, i requires 0 <= i < |dates| => if dates[i] in pmap then field(pmap[dates[i]]) else None)
  }

  function MetricColumn(mrows: seq<(Date, DailyMetric)>, field: DailyMetric -> Option<real>): (r: seq<Option<real>>)
    ensures |r| == |mrows|
  {
    seq(|mrows|, i requires 0 <= i < |mrows| => field(mrows[i].1))
  }

  function SeriesOf(mrows: seq<(Date, DailyMetric)>, pmap: map<Date, PolicyDaily>): Series
  {
    var dates := MetricDates(mrows);
    Series(
      MetricColumn(mrows, (m: DailyMetric) => m.newCasesSmoothed),
      MetricColumn(mrows, (m: DailyMetric) => m.newDeathsSmoothed),
      MetricColumn(mrows, (m: DailyMetric) => m.casesPerMillion),
      MetricColumn(mrows, (m: DailyMetric) => m.deathsPerMillion),
      MetricColumn(mrows, (m: DailyMetric) => m.peopleFullyVaccinatedPerHundred),
      MetricColumn(mrows, (m: DailyMetric) => m.totalVaccinationsPerHundred),
      PolicyColumn(dates, pmap, (p: PolicyDaily) => p.stringencyIndex),
      PolicyColumn(dates, pmap, (p: PolicyDaily) => p.c1SchoolClosing),
      PolicyColumn(dates, pmap, (p: PolicyDaily) => p.c2WorkplaceClosing),
      PolicyColumn(dates, pmap, (p: PolicyDaily) => p.c6StayAtHome),
      PolicyColumn(dates, pmap, (p: PolicyDaily) => p.c8InternationalTravelControls),
      PolicyColumn(dates, pmap, (p: PolicyDaily) => p.h6FacialCoverings))
  }

  /** The texts of the events dated `d`, in stored order. */
  function TextsOn(evs: seq<PolicyEvent>, d: Date): seq<string>
    decreases |evs|
  {
    if evs == [] then []
    else TextsOn(evs[..|evs| - 1], d) + (if evs[|evs| - 1].date == d then [evs[|evs| - 1].text] else [])
  }

  /** The texts of `evs` are those of the events dated `d`, each once, in order. */
  lemma {:induction false} TextsOnFacts(evs: seq<PolicyEvent>, d: Date)
    ensures |TextsOn(evs, d)| <= |evs|
    ensures forall e :: e in evs && e.date == d ==> e.text in TextsOn(evs, d)
    ensures forall t :: t in TextsOn(evs, d) ==> PolicyEvent(d, t) in evs
    decreases |evs|
  {
    if evs != [] {
      TextsOnFacts(evs[..|evs| - 1], d);
      assert evs == evs[..|evs| - 1] + [evs[|evs| - 1]];
    }
  }

  /** `events_by_date`: the event loop appends each text to the list of its date. */
  method GroupEvents(evs: seq<PolicyEvent>) returns (byDate: map<Date, seq<string>>)
    ensures forall d :: (if d in byDate then byDate[d] else []) == TextsOn(evs, d)
  {
    byDate := map[];
    for i := 0 to |evs|
      invariant forall d :: (if d in byDate then byDate[d] else []) == TextsOn(evs[..i], d)
    {
      assert evs[..i + 1][..i] == evs[..i];
      var e := evs[i];
      var items := if e.date in byDate then byDate[e.date] else [];
      byDate := byDate[e.date := items + [e.text]];
    }
    assert evs[..|evs|] == evs;
  }

  /** The highlights in generation order: policy, cases, deaths, vaccination. */
  function Generated(dates: seq<Date>, s: Series, pmap: map<Date, PolicyDaily>): seq<Highlight>
    requires |s.cases| == |s.deaths| == |s.vaxFull| == |dates|
  {
    PolicyShifts(dates, pmap)
      + Accelerations(s.cases, dates, CasesRise, "Cases" + " accelerating", 50.0, |dates|)
      + Accelerations(s.deaths, dates, DeathsRise, "Deaths" + " accelerating", 2.0, |dates|)
      + Milestones(s.vaxFull, dates, |dates|)
  }

  /** `events`: one entry per metric date, with the texts stored for it. */
  function EventsPayload(dates: seq<Date>, evs: seq<PolicyEvent>): (r: seq<DayEvents>)
    ensures |r| == |dates|
  {
    seq(|dates|, i requires 0 <= i < |dates| => DayEvents(Iso(dates[i]), TextsOn(evs, dates[i])))
  }

  /** The highlights after de-duplication and the sort by date string. */
  function Ordered(dates: seq<Date>, s: Series, pmap: map<Date, PolicyDaily>): seq<Highlight>
    requires |s.cases| == |s.deaths| == |s.vaxFull| == |dates|
  {
    SortByDate(FirstByKey(Generated(dates, s, pmap)))
  }

  /** The response body for a stored country, built from its rows. */
  function PayloadOf(db: Db, iso: string): (p: Payload)
    requires iso in db.countries
    ensures p.isoCode == iso && p.country == db.countries[iso]
    ensures var n := |p.dates|;
      && n == |DatesOf(db.metrics, iso)|
      && |p.series.cases| == |p.series.deaths| == |p.series.casesPm| == |p.series.deathsPm| == n
      && |p.series.vaxFull| == |p.series.vaxTotal| == |p.series.stringency| == n
      && |p.series.school| == |p.series.work| == |p.series.stayHome| == n
      && |p.series.travel| == |p.series.masks| == |p.events| == n
  {
    var mrows := RowsOf(db.metrics, iso);
    var dates := MetricDates(mrows);
    var pmap := PolicyMap(RowsOf(db.policies, iso));
    var series := SeriesOf(mrows, pmap);
    Payload(iso, db.countries[iso], IsoDates(dates), series,
            EventsPayload(dates, EventsOf(db.events, iso)), Ordered(dates, series, pmap))
  }

  /** The response of `api_timeseries(iso)` on the store `db`: 404 exactly for an unknown code. */
  function Timeseries(db: Db, iso: string): (r: Result<Payload, ViewError>)
    ensures r.Err? <==> iso !in db.countries
  {
    if iso !in db.countries then Err(CountryNotFound) else Ok(PayloadOf(db, iso))
  }

  /** The view itself: the loops of the highlight engine and of the event grouping. */
  method ApiTimeseries(store: Store, iso: string) returns (r: Result<Payload, ViewError>)
    ensures r == Timeseries(store.State(), iso)
  {
    if iso !in store.countries {
      return Err(CountryNotFound);
    }
    var mrows := RowsOf(store.metrics, iso);
    var dates := MetricDates(mrows);
    var pmap := PolicyMap(RowsOf(store.policies, iso));
    var series := SeriesOf(mrows, pmap);
    var evs := EventsOf(store.events, iso);
    var byDate := GroupEvents(evs);
    var events := seq(|dates|, i requires 0 <= i < |dates| =>
      DayEvents(Iso(dates[i]), if dates[i] in byDate then byDate[dates[i]] else []));
    assert events == EventsPayload(dates, evs);
    var policyHs := PolicyHighlights(dates, pmap);
    var casesHs := AddAccel(series.cases, dates, CasesRise, "Cases", 50.0);
    var deathsHs := AddAccel(series.deaths, dates, DeathsRise, "Deaths", 2.0);
    var vaxHs := VaxMilestones(series.vaxFull, dates);
    assert policyHs + casesHs + deathsHs + vaxHs == Generated(dates, series, pmap);
    var kept := Dedup(policyHs + casesHs + deathsHs + vaxHs);
    var highlights := SortByDate(kept);
    assert highlights == Ordered(dates, series, pmap);
    r := Ok(Payload(iso, store.countries[iso], IsoDates(dates), series, events, highlights));
  }

  // ---------------------------------------------------------------------
  // What the response promises

  /** The dates of a country's rows, in date order, are exactly its dates. */
  lemma MetricDatesOf(rows: map<Key, DailyMetric>, iso: string)
    ensures var ds := MetricDates(RowsOf(rows, iso));
      && (forall i, j :: 0 <= i < j < |ds| ==> Before(ds[i], ds[j]))
      && (forall d :: d in ds <==> (iso, d) in rows)
  {
    var r := RowsOf(rows, iso);
    var ds := MetricDates(r);
    forall d | (iso, d) in rows ensures d in ds {
      var i :| 0 <= i < |r| && r[i].0 == d;
      assert ds[i] == d;
    }
  }

  /** Rendering ascending dates gives ascending strings, one per date. */
  lemma IsoDatesFacts(dates: seq<Date>)
    requires forall i, j :: 0 <= i < j < |dates| ==> Before(dates[i], dates[j])
    ensures var ds := IsoDates(dates);
      && (forall i, j :: 0 <= i < j < |ds| ==> StrLess(ds[i], ds[j]))
      && (forall d: Date :: Iso(d) in ds <==> d in dates)
  {
    var ds := IsoDates(dates);
    forall i, j | 0 <= i < j < |ds| ensures StrLess(ds[i], ds[j]) {
      IsoOrder(dates[i], dates[j]);
    }
    forall d: Date ensures Iso(d) in ds <==> d in dates {
      if Iso(d) in ds {
        var i :| 0 <= i < |ds| && ds[i] == Iso(d);
        IsoInjective(d, dates[i]);
      }
      if d in dates {
        var i :| 0 <= i < |dates| && dates[i] == d;
        assert ds[i] == Iso(d);
      }
    }
  }

  /**
   * `dates` are the country's metric dates, each once, ascending as
   * strings; a date string is there exactly when a metric row has that date.
   */
  lemma TimeseriesDates(db: Db, iso: string)
    requires iso in db.countries
    ensures var ds := PayloadOf(db, iso).dates;
      && (forall i, j :: 0 <= i < j < |ds| ==> StrLess(ds[i], ds[j]))
      && (forall d: Date :: Iso(d) in ds <==> (iso, d) in db.metrics)
  {
    var dates := MetricDates(RowsOf(db.metrics, iso));
    MetricDatesOf(db.metrics, iso);
    IsoDatesFacts(dates);
    assert PayloadOf(db, iso).dates == IsoDates(dates);
  }

  /**
   * Column `i` of every series belongs to the date of `dates[i]`: the metric
   * columns carry that date's metric row, the policy columns that date's
   * policy row or none. Policy rows on other dates appear nowhere.
   */
  lemma TimeseriesColumns(db: Db, iso: string, i: nat, d: Date)
    requires iso in db.countries
    requires i < |PayloadOf(db, iso).dates| && PayloadOf(db, iso).dates[i] == Iso(d)
    ensures (iso, d) in db.metrics
    ensures var s, m := PayloadOf(db, iso).series, db.metrics[(iso, d)];
      && s.cases[i] == m.newCasesSmoothed && s.deaths[i] == m.newDeathsSmoothed
      && s.casesPm[i] == m.casesPerMillion && s.deathsPm[i] == m.deathsPerMillion
      && s.vaxFull[i] == m.peopleFullyVaccinatedPerHundred && s.vaxTotal[i] == m.totalVaccinationsPerHundred
    ensures var s := PayloadOf(db, iso).series;
      if (iso, d) in db.policies then
        var p := db.policies[(iso, d)];
        && s.stringency[i] == p.stringencyIndex && s.school[i] == p.c1SchoolClosing
        && s.work[i] == p.c2WorkplaceClosing && s.stayHome[i] == p.c6StayAtHome
        && s.travel[i] == p.c8InternationalTravelControls && s.masks[i] == p.h6FacialCoverings
      else
        && s.stringency[i].None? && s.school[i].None? && s.work[i].None?
        && s.stayHome[i].None? && s.travel[i].None? && s.masks[i].None?
  {
    var mrows := RowsOf(db.metrics, iso);
    var prows := RowsOf(db.policies, iso);
    var dates := MetricDates(mrows);
    var pmap := PolicyMap(prows);
    var s := PayloadOf(db, iso).series;
    assert s == SeriesOf(mrows, pmap);
    assert PayloadOf(db, iso).dates[i] == Iso(dates[i]);
    IsoInjective(d, dates[i]);
    assert dates[i] == d && mrows[i].0 == d;
    PolicyMapFacts(prows);
    if (iso, d) in db.policies {
      var k :| 0 <= k < |prows| && prows[k].0 == d;
      assert d in pmap;
      var j :| 0 <= j < |prows| && prows[j] == (d, pmap[d]);
    }
  }

  /** `events[i]` lists, in stored order, the texts of the events of the date `dates[i]`. */
  lemma TimeseriesEvents(db: Db, iso: string, i: nat, d: Date)
    requires iso in db.countries
    requires i < |PayloadOf(db, iso).dates| && PayloadOf(db, iso).dates[i] == Iso(d)
    ensures PayloadOf(db, iso).events[i] == DayEvents(Iso(d), TextsOn(EventsOf(db.events, iso), d))
  {
    var dates := MetricDates(RowsOf(db.metrics, iso));
    assert PayloadOf(db, iso).dates[i] == Iso(dates[i]);
    IsoInjective(d, dates[i]);
  }

  /** Every policy, acceleration and milestone highlight is dated on a metric date. */
  lemma GeneratedDated(dates: seq<Date>, s: Series, pmap: map<Date, PolicyDaily>)
    requires |s.cases| == |s.deaths| == |s.vaxFull| == |dates|
    ensures forall h :: h in Generated(dates, s, pmap) ==> h.date in dates
  {
    PolicyShiftsDated(dates, pmap);
    AccelerationsDated(s.cases, dates, CasesRise, "Cases" + " accelerating", 50.0);
    AccelerationsDated(s.deaths, dates, DeathsRise, "Deaths" + " accelerating", 2.0);
    MilestonesDated(s.vaxFull, dates);
  }

  lemma PolicyShiftsDated(dates: seq<Date>, pmap: map<Date, PolicyDaily>)
    ensures forall h :: h in PolicyShifts(dates, pmap) ==> h.date in dates
  {
    PolicyShiftsExact(dates, pmap);
    forall h | h in PolicyShifts(dates, pmap) ensures h.date in dates {
      var i :| Compared(dates, pmap, i) && h in DayShifts(dates[i], pmap[dates[i - 1]], pmap[dates[i]]);
      ChangedIndicatorsExact(dates[i], pmap[dates[i - 1]], pmap[dates[i]], |IndicatorLabels|);
    }
  }

  lemma AccelerationsDated(vals: seq<Option<real>>, dates: seq<Date>, kind: Kind, title: string, floor: real)
    requires |vals| == |dates|
    ensures forall h :: h in Accelerations(vals, dates, kind, title, floor, |dates|) ==> h.date in dates
  {
    AccelerationsExact(vals, dates, kind, title, floor, |dates|);
  }

  lemma MilestonesDated(vax: seq<Option<real>>, dates: seq<Date>)
    requires |vax| == |dates|
    ensures forall h :: h in Milestones(vax, dates, |dates|) ==> h.date in dates
  {
    MilestonesExact(vax, dates, |dates|);
  }

  /**
   * The ordered highlights are chronological, carry one highlight per
   * (date, type, title) key and every generated key, each dated on one of
   * the dates; those of one date keep their generation order.
   */
  lemma OrderedFacts(dates: seq<Date>, s: Series, pmap: map<Date, PolicyDaily>)
    requires |s.cases| == |s.deaths| == |s.vaxFull| == |dates|
    ensures var hs, all := Ordered(dates, s, pmap), Generated(dates, s, pmap);
      && Sorted(hs)
      && KeysOf(hs) == KeysOf(all)
      && |hs| == |KeysOf(all)|
      && (forall h :: h in hs ==> h.date in dates)
      && (forall d :: OnDate(hs, d) == OnDate(FirstByKey(all), d))
  {
    var all := Generated(dates, s, pmap);
    var kept := FirstByKey(all);
    var hs := SortByDate(kept);
    FirstByKeyFacts(all);
    FirstByKeyCount(all);
    SortByDateSorted(kept);
    SortByDatePermutes(kept);
    GeneratedDated(dates, s, pmap);
    forall h ensures h in hs <==> h in kept {
      assert h in hs <==> h in multiset(hs);
    }
    assert KeysOf(hs) == KeysOf(kept);
    assert |hs| == |kept| by {
      assert |multiset(hs)| == |multiset(kept)|;
    }
    forall h | h in hs ensures h.date in dates {
      assert FirstOfItsKey(all, h);
    }
    forall d ensures OnDate(hs, d) == OnDate(kept, d) {
      SortByDateStable(kept, d);
    }
  }

  /**
   * The response's highlights are chronological, one per key, each on a
   * metric date of the country.
   */
  lemma TimeseriesHighlights(db: Db, iso: string)
    requires iso in db.countries
    ensures var hs := PayloadOf(db, iso).highlights;
      && Sorted(hs)
      && (forall p, q :: 0 <= p < q < |hs| ==> KeyOf(hs[p]) != KeyOf(hs[q]))
      && (forall h :: h in hs ==> (iso, h.date) in db.metrics)
  {
    var mrows := RowsOf(db.metrics, iso);
    var dates := MetricDates(mrows);
    var pmap := PolicyMap(RowsOf(db.policies, iso));
    var s := SeriesOf(mrows, pmap);
    var hs := Ordered(dates, s, pmap);
    assert PayloadOf(db, iso).highlights == hs;
    OrderedFacts(dates, s, pmap);
    MetricDatesOf(db.metrics, iso);
    KeysDistinct(hs);
  }

  /** The empty response of a country without metric rows. */
  lemma EmptyCountry(db: Db, iso: string)
    requires iso in db.countries && DatesOf(db.metrics, iso) == {}
    ensures var p := PayloadOf(db, iso);
      p.dates == [] && p.events == [] && p.highlights == []
      && p.series.cases == [] && p.series.stringency == [] && p.series.masks == []
  {
    var mrows := RowsOf(db.metrics, iso);
    var dates := MetricDates(mrows);
    var pmap := PolicyMap(RowsOf(db.policies, iso));
    assert dates == [];
    assert Generated(dates, SeriesOf(mrows, pmap), pmap) == [];
  }
}
