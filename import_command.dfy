/**
 * The `import_covid_data` management command working on the store: the
 * two passes as loops over the feed records, the event regeneration, and
 * `handle`, which chooses the feeds.
 *
 * Each pass is `@transaction.atomic`: it works on copies of the tables it
 * writes and commits them at its end, so a record that raises leaves the
 * store as the pass found it. Downloading and CSV parsing are not part of
 * the model: a feed is the sequence of its records.
 */
module ImportCommand {
  import opened Wrappers
  import opened Dates
  import opened Coerce
  import opened Models
  import opened ImportRows
  import opened PolicyEvents

  /** The whole policy pass: the tables, then the events of every admitted code. */
  function OxcgrtPass(db: Db, rows: seq<Row>, limit: int, showReal: real -> string): Result<(Db, set<string>), ImportError>
  {
    match OxcgrtTables(db, rows, limit)
    case Err(e) => Err(e)
    case Ok(res) => Ok((Regenerate(res.0, res.1, showReal), res.1))
  }

  /**
   * Re-running the policy pass on its own result changes nothing: the same
   * tables, and events derived again from the same rows.
   */
  lemma OxcgrtPassIdempotent(db: Db, rows: seq<Row>, limit: int, showReal: real -> string)
    requires OxcgrtPass(db, rows, limit, showReal).Ok?
    ensures OxcgrtPass(OxcgrtPass(db, rows, limit, showReal).value.0, rows, limit, showReal)
      == OxcgrtPass(db, rows, limit, showReal)
  {
    var sc := ScanOxcgrt(rows, limit).value;
    var (db1, seen) := OxcgrtTables(db, rows, limit).value;
    var db2 := Regenerate(db1, seen, showReal);
    ApplyAllIdempotent(Tables(db.countries, db.policies), sc.admitted);
    assert OxcgrtTables(db2, rows, limit) == Ok((db2, seen));
    RegenerateIdempotent(db1, seen, showReal);
  }

  /** The policy pass keeps referential integrity and leaves the metrics alone. */
  lemma OxcgrtPassKeepsValid(db: Db, rows: seq<Row>, limit: int, showReal: real -> string)
    requires Valid(db) && OxcgrtPass(db, rows, limit, showReal).Ok?
    ensures Valid(OxcgrtPass(db, rows, limit, showReal).value.0)
    ensures OxcgrtPass(db, rows, limit, showReal).value.0.metrics == db.metrics
  {
    OxcgrtTablesFacts(db, rows, limit);
  }

  /** The events map after regenerating no code is the events map. */
  lemma RegeneratedNone(db: Db, showReal: real -> string)
    ensures RegeneratedEvents(db, {}, showReal) == db.events
  {
  }

  /** Regenerating one more code adds exactly that code's derived events. */
  lemma RegeneratedStep(db: Db, done: set<string>, iso: string, showReal: real -> string)
    requires iso !in done
    ensures iso in db.countries ==>
      RegeneratedEvents(db, done + {iso}, showReal)
        == RegeneratedEvents(db, done, showReal)[iso := Derive(RowsOf(db.policies, iso), showReal)]
    ensures iso !in db.countries ==>
      RegeneratedEvents(db, done + {iso}, showReal) == RegeneratedEvents(db, done, showReal)
  {
    if iso in db.countries {
      RegeneratedAdds(db, done, iso, showReal);
    } else {
      RegeneratedSkips(db, done, iso, showReal);
    }
  }

  lemma RegeneratedAdds(db: Db, done: set<string>, iso: string, showReal: real -> string)
    requires iso !in done && iso in db.countries
    ensures RegeneratedEvents(db, done + {iso}, showReal)
        == RegeneratedEvents(db, done, showReal)[iso := Derive(RowsOf(db.policies, iso), showReal)]
  {
    RegeneratedAddsKeys(db, done, iso, showReal);
    RegeneratedAddsValues(db, done, iso, showReal);
    UpdateEquals(RegeneratedEvents(db, done + {iso}, showReal), RegeneratedEvents(db, done, showReal),
                 iso, Derive(RowsOf(db.policies, iso), showReal));
  }

  /** A map that agrees with `base` off `k` and holds `v` at `k` is `base[k := v]`. */
  lemma UpdateEquals<K, V>(m: map<K, V>, base: map<K, V>, k: K, v: V)
    requires m.Keys == base.Keys + {k} && m[k] == v
    requires forall c :: c in base && c != k ==> m[c] == base[c]
    ensures m == base[k := v]
  {
  }

  lemma RegeneratedAddsKeys(db: Db, done: set<string>, iso: string, showReal: real -> string)
    requires iso in db.countries
    ensures RegeneratedEvents(db, done + {iso}, showReal).Keys == RegeneratedEvents(db, done, showReal).Keys + {iso}
  {
  }

  lemma RegeneratedAddsValues(db: Db, done: set<string>, iso: string, showReal: real -> string)
    requires iso in db.countries
    ensures forall c :: c in RegeneratedEvents(db, done, showReal) && c != iso ==>
      RegeneratedEvents(db, done + {iso}, showReal)[c] == RegeneratedEvents(db, done, showReal)[c]
    ensures RegeneratedEvents(db, done + {iso}, showReal)[iso] == Derive(RowsOf(db.policies, iso), showReal)
  {
  }

  lemma RegeneratedSkips(db: Db, done: set<string>, iso: string, showReal: real -> string)
    requires iso !in db.countries
    ensures RegeneratedEvents(db, done + {iso}, showReal) == RegeneratedEvents(db, done, showReal)
  {
    RegeneratedSkipsAgree(db, done, iso, showReal);
    PointwiseEquals(RegeneratedEvents(db, done + {iso}, showReal), RegeneratedEvents(db, done, showReal));
  }

  lemma RegeneratedSkipsAgree(db: Db, done: set<string>, iso: string, showReal: real -> string)
    requires iso !in db.countries
    ensures RegeneratedEvents(db, done + {iso}, showReal).Keys == RegeneratedEvents(db, done, showReal).Keys
    ensures forall c :: c in RegeneratedEvents(db, done, showReal) ==>
      RegeneratedEvents(db, done + {iso}, showReal)[c] == RegeneratedEvents(db, done, showReal)[c]
  {
    assert (done + {iso}) * db.countries.Keys == done * db.countries.Keys;
  }

  /** Two maps with the same keys and the same value at each key are equal. */
  lemma PointwiseEquals<K, V>(m: map<K, V>, base: map<K, V>)
    requires m.Keys == base.Keys
    requires forall c :: c in base ==> m[c] == base[c]
    ensures m == base
  {
  }

  /**
   * The loop of `generate_policy_events` over the codes, on a copy of the
   * events table: each code naming a stored country has its events deleted
   * and those derived from its ordered policy rows created.
   */
  method RegenerateLoop(db: Db, codes: set<string>, showReal: real -> string)
    returns (events: map<string, seq<PolicyEvent>>)
    ensures events == RegeneratedEvents(db, codes, showReal)
  {
    events := db.events;
    var todo := codes;
    ghost var done: set<string> := {};
    RegeneratedNone(db, showReal);
    while todo != {}
      invariant todo + done == codes && todo !! done
      invariant events == RegeneratedEvents(db, done, showReal)
      decreases |todo|
    {
      var iso :| iso in todo;
      RegeneratedStep(db, done, iso, showReal);
      MoveOne(todo, done, codes, iso);
      if iso in db.countries {
        ghost var before := events;
        events := events - {iso};
        var rows := RowsOf(db.policies, iso);
        var evs := DeriveEvents(rows, showReal);
        events := events[iso := evs];
        RemoveThenSet(before, iso, evs);
      }
      todo := todo - {iso};
      done := done + {iso};
    }
    assert done == codes;
  }

  /** Moving one code from the to-do set to the done set keeps them a partition of `codes`. */
  lemma MoveOne(todo: set<string>, done: set<string>, codes: set<string>, iso: string)
    requires todo + done == codes && todo !! done && iso in todo
    ensures (todo - {iso}) + (done + {iso}) == codes && (todo - {iso}) !! (done + {iso})
  {
  }

  /** Deleting a key and then storing it again is storing it. */
  lemma RemoveThenSet<K, V>(m: map<K, V>, k: K, v: V)
    ensures (m - {k})[k := v] == m[k := v]
  {
  }

  /**
   * `generate_policy_events`: for each code naming a stored country, delete
   * its events and create those derived from its ordered policy rows; codes
   * without a country are passed over.
   */
  method GeneratePolicyEvents(store: Store, codes: set<string>, showReal: real -> string)
    modifies store
    ensures store.State() == Regenerate(old(store.State()), codes, showReal)
  {
    var events := RegenerateLoop(store.State(), codes, showReal);
    store.events := events;
  }

  /**
   * The record loop of `import_owid` on copies of the tables: a record that
   * raises ends it with that error.
   */
  method RunOwidPass(db: Db, rows: seq<Row>, limit: int) returns (r: Result<(Db, set<string>), ImportError>)
    ensures r == OwidPass(db, rows, limit)
  {
    var countries, metrics := db.countries, db.metrics;
    var seen: set<string> := {};
    ghost var t0 := Tables(countries, metrics);
    ghost var admitted: seq<Admitted<DailyMetric>> := [];
    for i := 0 to |rows|
      invariant ScanOwid(rows[..i], limit) == Ok(Scan(admitted, seen))
      invariant Tables(countries, metrics) == ApplyAll(t0, admitted)
    {
      var row := rows[i];
      ScanOwidStep(rows, i, limit);
      var iso := Get(row, "iso_code");
      var name := Get(row, "location");
      if Truthy(iso) && !StartsWith(iso.value, "OWID_") && !CapSkips(limit, seen, iso.value) {
        var pop := ToFloat(Get(row, "population"));
        if "date" !in row {
          assert DecideOwid(row, seen, limit) == Err(MissingDate);
          ScanOwidErrorPersists(rows, i + 1, limit);
          return Err(MissingDate);
        }
        var parsed := ParseOwidDate(row["date"]);
        if parsed.Err? {
          assert DecideOwid(row, seen, limit) == Err(BadDate(parsed.error));
          ScanOwidErrorPersists(rows, i + 1, limit);
          return Err(BadDate(parsed.error));
        }
        var date := parsed.value;
        var a := Admitted(iso.value, date, OwidPatch(name, pop), MetricOf(row));
        assert DecideOwid(row, seen, limit) == Ok(Some(a));
        assert (admitted + [a])[..|admitted|] == admitted;
        countries := countries[iso.value := ResolveOwid(Lookup(countries, iso.value), iso.value, name, pop)];
        seen := seen + {iso.value};
        metrics := Upsert(metrics, (iso.value, date), MetricOf(row));
        admitted := admitted + [a];
      }
    }
    assert rows[..|rows|] == rows;
    r := Ok((db.(countries := countries, metrics := metrics), seen));
  }

  /**
   * `import_owid`: on success the store is the pass's result and the
   * admitted codes are returned; when a record raises, the store is left as
   * it was and the error is returned.
   */
  method ImportOwid(store: Store, rows: seq<Row>, limit: int) returns (r: Result<set<string>, ImportError>)
    modifies store
    ensures OwidPass(old(store.State()), rows, limit).Ok? ==>
      && r == Ok(OwidPass(old(store.State()), rows, limit).value.1)
      && store.State() == OwidPass(old(store.State()), rows, limit).value.0
    ensures OwidPass(old(store.State()), rows, limit).Err? ==>
      && r == Err(OwidPass(old(store.State()), rows, limit).error)
      && store.State() == old(store.State())
  {
    var pass := RunOwidPass(store.State(), rows, limit);
    if pass.Err? {
      return Err(pass.error);
    }
    store.countries, store.metrics := pass.value.0.countries, pass.value.0.metrics;
    r := Ok(pass.value.1);
  }

  /**
   * The record loop of `import_oxcgrt` on copies of the tables: a record
   * that raises ends it with that error.
   */
  method RunOxcgrtTables(db: Db, rows: seq<Row>, limit: int) returns (r: Result<(Db, set<string>), ImportError>)
    ensures r == OxcgrtTables(db, rows, limit)
  {
    var countries, policies := db.countries, db.policies;
    var seen: set<string> := {};
    ghost var t0 := Tables(countries, policies);
    ghost var admitted: seq<Admitted<PolicyDaily>> := [];
    for i := 0 to |rows|
      invariant ScanOxcgrt(rows[..i], limit) == Ok(Scan(admitted, seen))
      invariant Tables(countries, policies) == ApplyAll(t0, admitted)
    {
      var row := rows[i];
      ScanOxcgrtStep(rows, i, limit);
      var code := Get(row, "CountryCode");
      var name := Get(row, "CountryName");
      if Truthy(name) {
        var iso := PolicyCode(code, name.value);
        var dateRaw := Get(row, "Date");
        if !CapSkips(limit, seen, iso) && Truthy(dateRaw) {
          var parsed := ParseOxcgrtDate(dateRaw.value);
          if parsed.Err? {
            assert DecideOxcgrt(row, seen, limit) == Err(BadDate(parsed.error));
            ScanOxcgrtErrorPersists(rows, i + 1, limit);
            return Err(BadDate(parsed.error));
          }
          var a := Admitted(iso, parsed.value, CountryPatch(Some(name.value), None), PolicyOf(row));
          assert DecideOxcgrt(row, seen, limit) == Ok(Some(a));
          assert (admitted + [a])[..|admitted|] == admitted;
          countries := countries[iso := ResolveOxcgrt(Lookup(countries, iso), iso, name.value)];
          seen := seen + {iso};
          policies := Upsert(policies, (iso, parsed.value), PolicyOf(row));
          admitted := admitted + [a];
        }
      }
    }
    assert rows[..|rows|] == rows;
    r := Ok((db.(countries := countries, policies := policies), seen));
  }

  /**
   * `import_oxcgrt`: the policy records, then the events of every admitted
   * code; when a record raises, the store is left as it was.
   */
  method ImportOxcgrt(store: Store, rows: seq<Row>, limit: int, showReal: real -> string)
    returns (r: Result<set<string>, ImportError>)
    modifies store
    ensures OxcgrtPass(old(store.State()), rows, limit, showReal).Ok? ==>
      && r == Ok(OxcgrtPass(old(store.State()), rows, limit, showReal).value.1)
      && store.State() == OxcgrtPass(old(store.State()), rows, limit, showReal).value.0
    ensures OxcgrtPass(old(store.State()), rows, limit, showReal).Err? ==>
      && r == Err(OxcgrtPass(old(store.State()), rows, limit, showReal).error)
      && store.State() == old(store.State())
  {
    var tables := RunOxcgrtTables(store.State(), rows, limit);
    if tables.Err? {
      return Err(tables.error);
    }
    store.countries, store.policies := tables.value.0.countries, tables.value.0.policies;
    GeneratePolicyEvents(store, tables.value.1, showReal);
    r := Ok(tables.value.1);
  }

  /**
   * What `handle` leaves behind: the selected passes in order. A pass that
   * raises ends the command; a metrics pass already committed stays.
   */
  function HandleOutcome(db: Db, owidRows: seq<Row>, oxcgrtRows: seq<Row>, all: bool, owid: bool, oxcgrt: bool,
                         limit: int, showReal: real -> string): (Db, Result<(), ImportError>)
  {
    var feeds := SelectFeeds(all, owid, oxcgrt);
    var first := if feeds.0 then OwidPass(db, owidRows, limit) else Ok((db, {}));
    match first
    case Err(e) => (db, Err(e))
    case Ok(res) =>
      if !feeds.1 then (res.0, Ok(()))
      else match OxcgrtPass(res.0, oxcgrtRows, limit, showReal)
        case Err(e) => (res.0, Err(e))
        case Ok(res2) => (res2.0, Ok(()))
  }

  /** Whatever the flags and feeds, the command keeps referential integrity. */
  lemma HandleKeepsValid(db: Db, owidRows: seq<Row>, oxcgrtRows: seq<Row>, all: bool, owid: bool, oxcgrt: bool,
                         limit: int, showReal: real -> string)
    requires Valid(db)
    ensures Valid(HandleOutcome(db, owidRows, oxcgrtRows, all, owid, oxcgrt, limit, showReal).0)
  {
    var feeds := SelectFeeds(all, owid, oxcgrt);
    if feeds.0 && OwidPass(db, owidRows, limit).Ok? {
      OwidPassFacts(db, owidRows, limit);
      var db1 := OwidPass(db, owidRows, limit).value.0;
      if feeds.1 && OxcgrtPass(db1, oxcgrtRows, limit, showReal).Ok? {
        OxcgrtPassKeepsValid(db1, oxcgrtRows, limit, showReal);
      }
    } else if !feeds.0 && feeds.1 && OxcgrtPass(db, oxcgrtRows, limit, showReal).Ok? {
      OxcgrtPassKeepsValid(db, oxcgrtRows, limit, showReal);
    }
  }

  /** `handle`: select the feeds, run the metrics pass, then the policy pass. */
  method Handle(store: Store, owidRows: seq<Row>, oxcgrtRows: seq<Row>, all: bool, owid: bool, oxcgrt: bool,
                limit: int, showReal: real -> string) returns (r: Result<(), ImportError>)
    modifies store
    ensures (store.State(), r)
      == HandleOutcome(old(store.State()), owidRows, oxcgrtRows, all, owid, oxcgrt, limit, showReal)
  {
    var feeds := SelectFeeds(all, owid, oxcgrt);
    if feeds.0 {
      var o := ImportOwid(store, owidRows, limit);
      if o.Err? {
        return Err(o.error);
      }
    }
    if feeds.1 {
      var x := ImportOxcgrt(store, oxcgrtRows, limit, showReal);
      if x.Err? {
        return Err(x.error);
      }
    }
    r := Ok(());
  }
}
