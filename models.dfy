/**
 * The four record shapes of the dashboard's models and the store that holds
 * them. Uniqueness constraints are carried by the keys of the maps: one
 * `Country` per ISO code, one `DailyMetric` and one `PolicyDaily` per
 * (code, date). `PolicyEvent` has no such constraint, so a country's events
 * are a sequence. Every value field is an independent `Option`.
 */
module Models {
  import opened Wrappers
  import opened Dates

  /** `Country`: identified by its ISO code (the key it is stored under). */
  datatype Country = Country(name: string, population: Option<real>)

  /**
   * `DailyMetric` with exactly the eight value fields the model declares.
   * The importer also hands over `people_vaccinated_per_hundred` and
   * `new_vaccinations_smoothed_per_million`, which are not among them.
   */
  datatype DailyMetric = DailyMetric(
    newCasesSmoothed: Option<real>,
    newDeathsSmoothed: Option<real>,
    totalCases: Option<real>,
    totalDeaths: Option<real>,
    casesPerMillion: Option<real>,
    deathsPerMillion: Option<real>,
    totalVaccinationsPerHundred: Option<real>,
    peopleFullyVaccinatedPerHundred: Option<real>)

  /** `PolicyDaily`: the stringency score and five ordinal indicators. */
  datatype PolicyDaily = PolicyDaily(
    stringencyIndex: Option<real>,
    c1SchoolClosing: Option<int>,
    c2WorkplaceClosing: Option<int>,
    c6StayAtHome: Option<int>,
    c8InternationalTravelControls: Option<int>,
    h6FacialCoverings: Option<int>)

  /** `PolicyEvent`: a derived change summary for one date. */
  datatype PolicyEvent = PolicyEvent(date: Date, text: string)

  /** Declared `max_length` of `PolicyEvent.text`. */
  const EventTextMaxLength: nat := 500

  /** Declared `max_length` of `Country.iso_code`. */
  const IsoCodeMaxLength: nat := 10

  /** The (country, date) key of the two per-day tables. */
  type Key = (string, Date)

  /** The whole store: the four tables. */
  datatype Db = Db(
    countries: map<string, Country>,
    metrics: map<Key, DailyMetric>,
    policies: map<Key, PolicyDaily>,
    events: map<string, seq<PolicyEvent>>)

  /** Referential integrity: every row's foreign key names a stored country. */
  predicate Valid(db: Db)
  {
    && (forall k :: k in db.metrics ==> k.0 in db.countries)
    && (forall k :: k in db.policies ==> k.0 in db.countries)
    && (forall c :: c in db.events ==> c in db.countries)
  }

  function Lookup(countries: map<string, Country>, iso: string): (r: Option<Country>)
    ensures r.Some? <==> iso in countries
  {
    if iso in countries then Some(countries[iso]) else None
  }

  /** The dates on which a country has a row in a per-day table. */
  function DatesOf<V>(rows: map<Key, V>, iso: string): (s: set<Date>)
    ensures forall d :: d in s <==> (iso, d) in rows
  {
    set k | k in rows && k.0 == iso :: k.1
  }

  /** Dates strictly increasing along a sequence of dated rows. */
  predicate Chronological<V>(rows: seq<(Date, V)>)
  {
    forall i, j :: 0 <= i < j < |rows| ==> Before(rows[i].0, rows[j].0)
  }

  /**
   * `filter(country=c).order_by("date")` on a per-day table: each of the
   * country's rows once, with its date, in date order.
   */
  function RowsOf<V>(rows: map<Key, V>, iso: string): (r: seq<(Date, V)>)
    ensures |r| == |DatesOf(rows, iso)|
    ensures Chronological(r)
    ensures forall i :: 0 <= i < |r| ==> (iso, r[i].0) in rows && r[i].1 == rows[(iso, r[i].0)]
    ensures forall d :: (iso, d) in rows ==> exists i :: 0 <= i < |r| && r[i].0 == d
  {
    var ds := SortedDates(DatesOf(rows, iso));
    DatedFacts(rows, iso, ds);
    Dated(rows, iso, ds)
  }

  /** The pairs built from the sorted dates of a country are its rows in date order. */
  lemma DatedFacts<V>(rows: map<Key, V>, iso: string, ds: seq<Date>)
    requires forall d :: d in ds <==> (iso, d) in rows
    requires forall i, j :: 0 <= i < j < |ds| ==> Before(ds[i], ds[j])
    ensures var r := Dated(rows, iso, ds);
      && Chronological(r)
      && (forall i :: 0 <= i < |r| ==> (iso, r[i].0) in rows && r[i].1 == rows[(iso, r[i].0)])
      && (forall d :: (iso, d) in rows ==> exists i :: 0 <= i < |r| && r[i].0 == d)
  {
    var r := Dated(rows, iso, ds);
    forall d | (iso, d) in rows
      ensures exists i :: 0 <= i < |r| && r[i].0 == d
    {
      var i :| 0 <= i < |ds| && ds[i] == d;
      assert r[i].0 == d;
    }
  }

  /** Each date of `ds` paired with the country's row stored for it. */
  function Dated<V>(rows: map<Key, V>, iso: string, ds: seq<Date>): (r: seq<(Date, V)>)
    requires forall i :: 0 <= i < |ds| ==> (iso, ds[i]) in rows
    ensures |r| == |ds|
    ensures forall i :: 0 <= i < |r| ==> r[i].0 == ds[i] && r[i].1 == rows[(iso, ds[i])]
  {
    seq(|ds|, i requires 0 <= i < |ds| => (ds[i], rows[(iso, ds[i])]))
  }

  /** A country's stored events, in stored order (none when it has no entry). */
  function EventsOf(events: map<string, seq<PolicyEvent>>, iso: string): seq<PolicyEvent>
  {
    if iso in events then events[iso] else []
  }

  /**
   * Deleting a country: `on_delete=CASCADE` on the three foreign keys takes
   * its metrics, policies and events with it; nothing else changes.
   */
  function WithoutCountry(db: Db, iso: string): (r: Db)
    ensures r.countries.Keys == db.countries.Keys - {iso}
    ensures forall k :: k in r.metrics <==> k in db.metrics && k.0 != iso
    ensures forall k :: k in r.policies <==> k in db.policies && k.0 != iso
    ensures r.events.Keys == db.events.Keys - {iso}
    ensures forall c :: c in r.countries ==> r.countries[c] == db.countries[c]
    ensures forall k :: k in r.metrics ==> r.metrics[k] == db.metrics[k]
    ensures forall k :: k in r.policies ==> r.policies[k] == db.policies[k]
    ensures forall c :: c in r.events ==> r.events[c] == db.events[c]
  {
    Db(db.countries - {iso},
       map k | k in db.metrics && k.0 != iso :: db.metrics[k],
       map k | k in db.policies && k.0 != iso :: db.policies[k],
       db.events - {iso})
  }

  /** The cascade leaves no row pointing at the deleted country. */
  lemma CascadeKeepsIntegrity(db: Db, iso: string)
    requires Valid(db)
    ensures Valid(WithoutCountry(db, iso))
    ensures DatesOf(WithoutCountry(db, iso).metrics, iso) == {}
    ensures DatesOf(WithoutCountry(db, iso).policies, iso) == {}
    ensures EventsOf(WithoutCountry(db, iso).events, iso) == []
  {
  }

  /** The database the management command and the views work on. */
  class Store {
    var countries: map<string, Country>
    var metrics: map<Key, DailyMetric>
    var policies: map<Key, PolicyDaily>
    var events: map<string, seq<PolicyEvent>>

    function State(): Db
      reads this
    {
      Db(countries, metrics, policies, events)
    }

    constructor ()
      ensures State() == Db(map[], map[], map[], map[])
      ensures Valid(State())
    {
      countries, metrics, policies, events := map[], map[], map[], map[];
    }

    /** `Country.delete()`, with its cascade. */
    method Delete(iso: string)
      modifies this
      ensures State() == WithoutCountry(old(State()), iso)
      ensures old(Valid(State())) ==> Valid(State())
    {
      metrics := map k | k in metrics && k.0 != iso :: metrics[k];
      policies := map k | k in policies && k.0 != iso :: policies[k];
      events := events - {iso};
      countries := countries - {iso};
    }
  }
}
