/**
 * What the two import passes of `import_covid_data` do, stated as values.
 *
 * A pass reads CSV records in order. Each record is either skipped, or
 * admitted (a country code, a date, a change to the country and a per-day
 * record to upsert), or it raises. Which records are admitted depends only
 * on the records and on `--limit_countries`, never on the store; the store
 * then receives the admitted records one after the other (`ApplyAll`).
 */
module ImportRows {
  import opened Wrappers
  import opened Dates
  import opened Coerce
  import opened Models

  /** One `csv.DictReader` record: a missing column or a short row has no entry. */
  type Row = map<string, string>

  /** `row.get(column)`. */
  function Get(row: Row, column: string): (r: Option<string>)
    ensures r.Some? <==> column in row
    ensures r.Some? ==> r.value == row[column]
  {
    if column in row then Some(row[column]) else None
  }

  /** Python truthiness of an optional string: present and non-empty. */
  predicate Truthy(s: Option<string>)
  {
    s.Some? && s.value != ""
  }

  /** `s.startswith(prefix)`. */
  predicate StartsWith(s: string, prefix: string)
  {
    |prefix| <= |s| && s[..|prefix|] == prefix
  }

  /**
   * The feed selection of `handle`: `(do_owid, do_oxcgrt)`. With neither
   * `--owid` nor `--oxcgrt` both feeds run, and at least one always does.
   */
  function SelectFeeds(all: bool, owid: bool, oxcgrt: bool): (r: (bool, bool))
    ensures r.0 <==> all || owid || !oxcgrt
    ensures r.1 <==> all || oxcgrt || !owid
    ensures r.0 || r.1
  {
    var doAll := all || (!owid && !oxcgrt);
    (doAll || owid, doAll || oxcgrt)
  }

  /**
   * The `--limit_countries` guard: with a non-zero limit, a record for a code
   * not yet seen is skipped once the seen set has reached the limit.
   */
  predicate CapSkips(limit: int, seen: set<string>, iso: string)
  {
    limit != 0 && iso !in seen && |seen| >= limit
  }

  // ---------------------------------------------------------------------
  // Country changes

  /** The fields one admitted record overwrites on its country (`None`: keep). */
  datatype CountryPatch = CountryPatch(name: Option<string>, population: Option<real>)

  /**
   * The country after a patch. `existing` is `None` when `get_or_create`
   * creates it; a created country without a patched name is named after its code.
   */
  function Patched(existing: Option<Country>, iso: string, p: CountryPatch): Country
  {
    Country(
      if p.name.Some? then p.name.value else if existing.Some? then existing.value.name else iso,
      if p.population.Some? then p.population else if existing.Some? then existing.value.population else None)
  }

  /** Patch `p` followed by patch `q`. */
  function Then(p: CountryPatch, q: CountryPatch): CountryPatch
  {
    CountryPatch(if q.name.Some? then q.name else p.name,
                 if q.population.Some? then q.population else p.population)
  }

  /** Applying `p` then `q` is applying their composition. */
  lemma ThenComposes(e: Option<Country>, iso: string, p: CountryPatch, q: CountryPatch)
    ensures Patched(Some(Patched(e, iso, p)), iso, q) == Patched(e, iso, Then(p, q))
  {
  }

  /** A patch applied twice is the patch applied once. */
  lemma PatchedIdempotent(e: Option<Country>, iso: string, p: CountryPatch)
    ensures Patched(Some(Patched(e, iso, p)), iso, p) == Patched(e, iso, p)
  {
  }

  /** Truthiness of a float: present and non-zero. */
  predicate NonZero(v: Option<real>)
  {
    v.Some? && v.value != 0.0
  }

  /** What a metrics record does to its country: a non-empty name and a non-zero population overwrite. */
  function OwidPatch(name: Option<string>, pop: Option<real>): CountryPatch
  {
    CountryPatch(if Truthy(name) then name else None, if NonZero(pop) then pop else None)
  }

  /**
   * The country handling of `import_owid`: `get_or_create` named `location`
   * or else the code, then the name refresh and the population refresh.
   * A name is replaced only by a non-empty one, a population only by a
   * present non-zero one.
   */
  function ResolveOwid(existing: Option<Country>, iso: string, name: Option<string>, pop: Option<real>): (c: Country)
    ensures c.name == (if Truthy(name) then name.value else if existing.Some? then existing.value.name else iso)
    ensures c.population == (if NonZero(pop) then pop else if existing.Some? then existing.value.population else None)
    ensures c == Patched(existing, iso, OwidPatch(name, pop))
  {
    var created := if existing.Some? then existing.value else Country(if Truthy(name) then name.value else iso, None);
    var named := if Truthy(name) && created.name != name.value then created.(name := name.value) else created;
    var storedTruthy := NonZero(named.population);
    if NonZero(pop) && (!storedTruthy || named.population.value != pop.value) then named.(population := pop)
    else named
  }

  /**
   * The country handling of `import_oxcgrt`: `get_or_create` named
   * `CountryName`, renamed when the name differs; the population is never
   * touched.
   */
  function ResolveOxcgrt(existing: Option<Country>, iso: string, name: string): (c: Country)
    ensures name != "" ==> c.name == name
    ensures c.population == (if existing.Some? then existing.value.population else None)
    ensures name != "" ==> c == Patched(existing, iso, CountryPatch(Some(name), None))
  {
    var created := if existing.Some? then existing.value else Country(name, None);
    if name != "" && created.name != name then created.(name := name) else created
  }

  // ---------------------------------------------------------------------
  // Per-day records

  /** The eight declared metric fields, coerced; an absent or blank cell becomes null. */
  function MetricOf(row: Row): DailyMetric
  {
    DailyMetric(
      ToFloat(Get(row, "new_cases_smoothed")),
      ToFloat(Get(row, "new_deaths_smoothed")),
      ToFloat(Get(row, "total_cases")),
      ToFloat(Get(row, "total_deaths")),
      ToFloat(Get(row, "new_cases_smoothed_per_million")),
      ToFloat(Get(row, "new_deaths_smoothed_per_million")),
      ToFloat(Get(row, "total_vaccinations_per_hundred")),
      ToFloat(Get(row, "people_fully_vaccinated_per_hundred")))
  }

  /** The policy fields, coerced; the ordinals through `int(float(x))`. */
  function PolicyOf(row: Row): PolicyDaily
  {
    PolicyDaily(
      ToFloat(Get(row, "StringencyIndex")),
      ToInt(Get(row, "C1_School closing")),
      ToInt(Get(row, "C2_Workplace closing")),
      ToInt(Get(row, "C6_Stay at home requirements")),
      ToInt(Get(row, "C8_International travel controls")),
      ToInt(Get(row, "H6_Facial Coverings")))
  }

  /**
   * `update_or_create` keyed on (country, date) with every field in
   * `defaults`: the record under `key` is replaced whole, whether or not it
   * existed, and no other record changes.
   */
  function Upsert<V>(rows: map<Key, V>, key: Key, v: V): (r: map<Key, V>)
    ensures r.Keys == rows.Keys + {key}
    ensures r[key] == v
    ensures forall k :: k in rows && k != key ==> r[k] == rows[k]
  {
    rows[key := v]
  }

  datatype ImportError =
    | MissingDate                         // `row["date"]` on a record without a date cell
    | BadDate(reason: DateError)          // `strptime` raised
    | InvalidFields(fields: set<string>)  // `update_or_create` named fields the model lacks

  /** Field names `import_owid` passes in `defaults`. */
  const OwidDefaults: set<string> := {
    "new_cases_smoothed", "new_deaths_smoothed", "total_cases", "total_deaths",
    "cases_per_million", "deaths_per_million", "total_vaccinations_per_hundred",
    "people_vaccinated_per_hundred", "people_fully_vaccinated_per_hundred",
    "new_vaccinations_smoothed_per_million"}

  /** Field names `DailyMetric` declares. */
  const MetricFields: set<string> := {
    "new_cases_smoothed", "new_deaths_smoothed", "total_cases", "total_deaths",
    "cases_per_million", "deaths_per_million", "total_vaccinations_per_hundred",
    "people_fully_vaccinated_per_hundred"}

  /**
   * The metric upsert as written. An existing record is updated (assigning
   * the two undeclared names on the instance is harmless), but creating a
   * record builds it from `defaults`, and a name the model does not declare
   * raises.
   */
  function UpsertMetricAsWritten(rows: map<Key, DailyMetric>, key: Key, row: Row): Result<map<Key, DailyMetric>, ImportError>
  {
    if key in rows then Ok(Upsert(rows, key, MetricOf(row)))
    else Err(InvalidFields(OwidDefaults - MetricFields))
  }

  /**
   * The as-written upsert can never create a metric record: on a key not yet
   * stored it raises, naming exactly the two undeclared fields. So an import
   * into a store without metrics aborts at its first admitted record.
   */
  lemma AsWrittenUpsertNeverCreates(rows: map<Key, DailyMetric>, key: Key, row: Row)
    ensures key !in rows ==>
      UpsertMetricAsWritten(rows, key, row)
        == Err(InvalidFields({"people_vaccinated_per_hundred", "new_vaccinations_smoothed_per_million"}))
    ensures key in rows ==> UpsertMetricAsWritten(rows, key, row) == Ok(Upsert(rows, key, MetricOf(row)))
  {
    assert OwidDefaults - MetricFields == {"people_vaccinated_per_hundred", "new_vaccinations_smoothed_per_million"};
  }

  // ---------------------------------------------------------------------
  // Decisions

  /** An admitted record: the code, the date, the country change and the per-day record. */
  datatype Admitted<V> = Admitted(iso: string, date: Date, patch: CountryPatch, value: V)

  /** `pseudo-code` characters: `str.upper()` on ASCII letters. */
  function UpperAscii(c: char): (u: char)
    ensures 'a' <= c <= 'z' ==> u as int == c as int - 32
    ensures !('a' <= c <= 'z') ==> u == c
  {
    if 'a' <= c <= 'z' then (c as int - 32) as char else c
  }

  /** `f"X_{name[:6].upper()}"`: the code of a policy record without a usable code. */
  function PseudoCode(name: string): (iso: string)
    ensures |iso| == 2 + (if |name| < 6 then |name| else 6)
    ensures |iso| <= 8 && |iso| <= IsoCodeMaxLength
    ensures iso[..2] == "X_"
    ensures forall i :: 2 <= i < |iso| ==> iso[i] == UpperAscii(name[i - 2])
  {
    var prefix := name[..if |name| < 6 then |name| else 6];
    "X_" + seq(|prefix|, i requires 0 <= i < |prefix| => UpperAscii(prefix[i]))
  }

  /** The code a policy record is filed under: its own unless absent or blank. */
  function PolicyCode(code: Option<string>, name: string): (iso: string)
    ensures Truthy(code) && Strip(StrBlanks, code.value) != "" ==> iso == code.value
    ensures !Truthy(code) || AllBlank(StrBlanks, code.value) ==> iso == PseudoCode(name)
  {
    StripEmptyIff(StrBlanks, if code.Some? then code.value else "");
    if !Truthy(code) || Strip(StrBlanks, code.value) == "" then PseudoCode(name) else code.value
  }

  /**
   * One record of the metrics feed. Records without a code, aggregates
   * (`OWID_` codes) and new codes past the cap are skipped; an admitted
   * record whose date is missing or malformed raises.
   */
  function DecideOwid(row: Row, seen: set<string>, limit: int): (r: Result<Option<Admitted<DailyMetric>>, ImportError>)
    ensures !Truthy(Get(row, "iso_code")) ==> r == Ok(None)
    ensures "iso_code" in row && StartsWith(row["iso_code"], "OWID_") ==> r == Ok(None)
    ensures "iso_code" in row && CapSkips(limit, seen, row["iso_code"]) ==> r == Ok(None)
    ensures r.Ok? && r.value.Some? ==>
      && "iso_code" in row && r.value.value.iso == row["iso_code"] && row["iso_code"] != ""
      && !StartsWith(row["iso_code"], "OWID_") && !CapSkips(limit, seen, row["iso_code"])
      && "date" in row && ParseOwidDate(row["date"]) == Ok(r.value.value.date)
      && r.value.value.patch == OwidPatch(Get(row, "location"), ToFloat(Get(row, "population")))
      && r.value.value.value == MetricOf(row)
    ensures (Truthy(Get(row, "iso_code")) && !StartsWith(row["iso_code"], "OWID_")
             && !CapSkips(limit, seen, row["iso_code"])
             && "date" in row && ParseOwidDate(row["date"]).Ok?)
            ==> r.Ok? && r.value.Some?
    ensures r.Err? <==>
      && Truthy(Get(row, "iso_code")) && !StartsWith(row["iso_code"], "OWID_")
      && !CapSkips(limit, seen, row["iso_code"])
      && ("date" !in row || ParseOwidDate(row["date"]).Err?)
  {
    var iso := Get(row, "iso_code");
    var name := Get(row, "location");
    if !Truthy(iso) || StartsWith(iso.value, "OWID_") then Ok(None)
    else if CapSkips(limit, seen, iso.value) then Ok(None)
    else
      var pop := ToFloat(Get(row, "population"));
      if "date" !in row then Err(MissingDate)
      else match ParseOwidDate(row["date"])
        case Err(e) => Err(BadDate(e))
        case Ok(d) => Ok(Some(Admitted(iso.value, d, OwidPatch(name, pop), MetricOf(row))))
  }

  /**
   * One record of the policy feed. Records without a name, new codes past
   * the cap and records without a date are skipped; a malformed date raises.
   */
  function DecideOxcgrt(row: Row, seen: set<string>, limit: int): (r: Result<Option<Admitted<PolicyDaily>>, ImportError>)
    ensures !Truthy(Get(row, "CountryName")) ==> r == Ok(None)
    ensures Truthy(Get(row, "CountryName")) && !Truthy(Get(row, "Date")) ==> r.Ok? && r.value == None
    ensures r.Ok? && r.value.Some? ==>
      && Truthy(Get(row, "CountryName"))
      && r.value.value.iso == PolicyCode(Get(row, "CountryCode"), row["CountryName"])
      && !CapSkips(limit, seen, r.value.value.iso)
      && r.value.value.patch == CountryPatch(Some(row["CountryName"]), None)
      && Truthy(Get(row, "Date")) && ParseOxcgrtDate(row["Date"]) == Ok(r.value.value.date)
      && r.value.value.value == PolicyOf(row)
    ensures r.Err? ==> Truthy(Get(row, "Date")) && ParseOxcgrtDate(row["Date"]).Err?
    ensures (Truthy(Get(row, "CountryName"))
             && CapSkips(limit, seen, PolicyCode(Get(row, "CountryCode"), row["CountryName"])))
            ==> r == Ok(None)
    ensures (Truthy(Get(row, "CountryName"))
             && !CapSkips(limit, seen, PolicyCode(Get(row, "CountryCode"), row["CountryName"]))
             && Truthy(Get(row, "Date")))
            ==> (r.Err? <==> ParseOxcgrtDate(row["Date"]).Err?)
    ensures (Truthy(Get(row, "CountryName"))
             && !CapSkips(limit, seen, PolicyCode(Get(row, "CountryCode"), row["CountryName"]))
             && Truthy(Get(row, "Date")) && ParseOxcgrtDate(row["Date"]).Ok?)
            ==> r.Ok? && r.value.Some?
  {
    var code := Get(row, "CountryCode");
    var name := Get(row, "CountryName");
    if !Truthy(name) then Ok(None)
    else
      var iso := PolicyCode(code, name.value);
      if CapSkips(limit, seen, iso) then Ok(None)
      else
        var dateRaw := Get(row, "Date");
        if !Truthy(dateRaw) then Ok(None)
        else match ParseOxcgrtDate(dateRaw.value)
          case Err(e) => Err(BadDate(e))
          case Ok(d) => Ok(Some(Admitted(iso, d, CountryPatch(Some(name.value), None), PolicyOf(row))))
  }

  // ---------------------------------------------------------------------
  // Scans

  /** The admitted records so far and `seen_countries`. */
  datatype Scan<V> = Scan(admitted: seq<Admitted<V>>, seen: set<string>)

  /** The codes of a sequence of admitted records. */
  function IsosOf<V>(adm: seq<Admitted<V>>): set<string>
  {
    set i | 0 <= i < |adm| :: adm[i].iso
  }

  /** Folding one decision into a scan: a raise ends it, an admission extends it. */
  function Step<V>(sc: Scan<V>, d: Result<Option<Admitted<V>>, ImportError>): Result<Scan<V>, ImportError>
  {
    match d
    case Err(e) => Err(e)
    case Ok(None) => Ok(sc)
    case Ok(Some(a)) => Ok(Scan(sc.admitted + [a], sc.seen + {a.iso}))
  }

  function ScanOwid(rows: seq<Row>, limit: int): Result<Scan<DailyMetric>, ImportError>
    decreases |rows|
  {
    if rows == [] then Ok(Scan([], {}))
    else match ScanOwid(rows[..|rows| - 1], limit)
      case Err(e) => Err(e)
      case Ok(sc) => Step(sc, DecideOwid(rows[|rows| - 1], sc.seen, limit))
  }

  function ScanOxcgrt(rows: seq<Row>, limit: int): Result<Scan<PolicyDaily>, ImportError>
    decreases |rows|
  {
    if rows == [] then Ok(Scan([], {}))
    else match ScanOxcgrt(rows[..|rows| - 1], limit)
      case Err(e) => Err(e)
      case Ok(sc) => Step(sc, DecideOxcgrt(rows[|rows| - 1], sc.seen, limit))
  }

  /** A scan in which `seen` is the set of admitted codes and holds at most `limit` of them. */
  predicate WellScanned<V>(sc: Scan<V>, limit: int)
  {
    sc.seen == IsosOf(sc.admitted) && (limit > 0 ==> |sc.seen| <= limit)
  }

  lemma StepKeepsWellScanned<V>(sc: Scan<V>, d: Result<Option<Admitted<V>>, ImportError>, limit: int)
    requires WellScanned(sc, limit)
    requires d.Ok? && d.value.Some? ==> !CapSkips(limit, sc.seen, d.value.value.iso)
    ensures Step(sc, d).Ok? ==> WellScanned(Step(sc, d).value, limit)
  {
    if d.Ok? && d.value.Some? {
      var a := d.value.value;
      var adm := sc.admitted + [a];
      assert IsosOf(adm) == IsosOf(sc.admitted) + {a.iso} by {
        forall x | x in IsosOf(adm) ensures x in IsosOf(sc.admitted) + {a.iso} {
          var i :| 0 <= i < |adm| && adm[i].iso == x;
          if i < |sc.admitted| { assert sc.admitted[i].iso == x; }
        }
        forall x | x in IsosOf(sc.admitted) ensures x in IsosOf(adm) {
          var i :| 0 <= i < |sc.admitted| && sc.admitted[i].iso == x;
          assert adm[i].iso == x;
        }
        assert adm[|sc.admitted|].iso == a.iso;
      }
      if a.iso !in sc.seen && limit > 0 {
        assert |sc.seen + {a.iso}| == |sc.seen| + 1;
      }
    }
  }

  /**
   * `seen_countries` is exactly the set of admitted codes, and a positive
   * `--limit_countries` bounds it.
   */
  lemma {:induction false} ScanOwidWellScanned(rows: seq<Row>, limit: int)
    ensures ScanOwid(rows, limit).Ok? ==> WellScanned(ScanOwid(rows, limit).value, limit)
    decreases |rows|
  {
    if rows != [] {
      ScanOwidWellScanned(rows[..|rows| - 1], limit);
      var prev := ScanOwid(rows[..|rows| - 1], limit);
      if prev.Ok? {
        StepKeepsWellScanned(prev.value, DecideOwid(rows[|rows| - 1], prev.value.seen, limit), limit);
      }
    }
  }

  lemma {:induction false} ScanOxcgrtWellScanned(rows: seq<Row>, limit: int)
    ensures ScanOxcgrt(rows, limit).Ok? ==> WellScanned(ScanOxcgrt(rows, limit).value, limit)
    decreases |rows|
  {
    if rows != [] {
      ScanOxcgrtWellScanned(rows[..|rows| - 1], limit);
      var prev := ScanOxcgrt(rows[..|rows| - 1], limit);
      if prev.Ok? {
        StepKeepsWellScanned(prev.value, DecideOxcgrt(rows[|rows| - 1], prev.value.seen, limit), limit);
      }
    }
  }

  /** The cap never stops a code already admitted: for it, a record is decided as without a cap. */
  lemma CapSparesSeenCodes(row: Row, seen: set<string>, limit: int)
    ensures "iso_code" in row && row["iso_code"] in seen ==> DecideOwid(row, seen, limit) == DecideOwid(row, seen, 0)
    ensures Truthy(Get(row, "CountryName")) && PolicyCode(Get(row, "CountryCode"), row["CountryName"]) in seen
      ==> DecideOxcgrt(row, seen, limit) == DecideOxcgrt(row, seen, 0)
  {
  }

  /** A negative `--limit_countries` is truthy and below every set size: nothing is admitted. */
  lemma {:induction false} NegativeLimitAdmitsNothing(rows: seq<Row>, limit: int)
    requires limit < 0
    ensures ScanOwid(rows, limit).Ok? ==> ScanOwid(rows, limit).value == Scan([], {})
    ensures ScanOxcgrt(rows, limit).Ok? ==> ScanOxcgrt(rows, limit).value == Scan([], {})
    decreases |rows|
  {
    if rows != [] {
      NegativeLimitAdmitsNothing(rows[..|rows| - 1], limit);
    }
  }

  /** One more record folds its decision into the scan of the records before it. */
  lemma ScanOwidStep(rows: seq<Row>, i: nat, limit: int)
    requires i < |rows| && ScanOwid(rows[..i], limit).Ok?
    ensures ScanOwid(rows[..i + 1], limit)
      == Step(ScanOwid(rows[..i], limit).value, DecideOwid(rows[i], ScanOwid(rows[..i], limit).value.seen, limit))
  {
    assert rows[..i + 1][..i] == rows[..i];
  }

  lemma ScanOxcgrtStep(rows: seq<Row>, i: nat, limit: int)
    requires i < |rows| && ScanOxcgrt(rows[..i], limit).Ok?
    ensures ScanOxcgrt(rows[..i + 1], limit)
      == Step(ScanOxcgrt(rows[..i], limit).value, DecideOxcgrt(rows[i], ScanOxcgrt(rows[..i], limit).value.seen, limit))
  {
    assert rows[..i + 1][..i] == rows[..i];
  }

  /** Once a prefix of the feed raises, the whole pass raises with that error. */
  lemma {:induction false} ScanOwidErrorPersists(rows: seq<Row>, k: nat, limit: int)
    requires k <= |rows| && ScanOwid(rows[..k], limit).Err?
    ensures ScanOwid(rows, limit) == ScanOwid(rows[..k], limit)
    decreases |rows|
  {
    if k < |rows| {
      assert rows[..|rows| - 1][..k] == rows[..k];
      ScanOwidErrorPersists(rows[..|rows| - 1], k, limit);
    } else {
      assert rows[..k] == rows;
    }
  }

  lemma {:induction false} ScanOxcgrtErrorPersists(rows: seq<Row>, k: nat, limit: int)
    requires k <= |rows| && ScanOxcgrt(rows[..k], limit).Err?
    ensures ScanOxcgrt(rows, limit) == ScanOxcgrt(rows[..k], limit)
    decreases |rows|
  {
    if k < |rows| {
      assert rows[..|rows| - 1][..k] == rows[..k];
      ScanOxcgrtErrorPersists(rows[..|rows| - 1], k, limit);
    } else {
      assert rows[..k] == rows;
    }
  }

  // ---------------------------------------------------------------------
  // Applying admitted records

  /** The two tables a pass writes: countries and its per-day table. */
  datatype Tables<V> = Tables(countries: map<string, Country>, rows: map<Key, V>)

  function KeyOf<V>(a: Admitted<V>): Key
  {
    (a.iso, a.date)
  }

  /** One admitted record: its country is resolved and saved, its per-day record upserted. */
  function Apply<V>(t: Tables<V>, a: Admitted<V>): Tables<V>
  {
    Tables(t.countries[a.iso := Patched(Lookup(t.countries, a.iso), a.iso, a.patch)],
           Upsert(t.rows, KeyOf(a), a.value))
  }

  function ApplyAll<V>(t: Tables<V>, adm: seq<Admitted<V>>): Tables<V>
    decreases |adm|
  {
    if adm == [] then t else Apply(ApplyAll(t, adm[..|adm| - 1]), adm[|adm| - 1])
  }

  /** The net change to each touched country: the admitted patches composed in order. */
  function Patches<V>(adm: seq<Admitted<V>>): (p: map<string, CountryPatch>)
    ensures p.Keys == IsosOf(adm)
    decreases |adm|
  {
    if adm == [] then map[]
    else
      var p := Patches(adm[..|adm| - 1]);
      var a := adm[|adm| - 1];
      assert IsosOf(adm) == IsosOf(adm[..|adm| - 1]) + {a.iso} by {
        forall x | x in IsosOf(adm) ensures x in IsosOf(adm[..|adm| - 1]) + {a.iso} {
          var i :| 0 <= i < |adm| && adm[i].iso == x;
          if i < |adm| - 1 { assert adm[..|adm| - 1][i].iso == x; }
        }
      }
      p[a.iso := if a.iso in p then Then(p[a.iso], a.patch) else a.patch]
  }

  /** The per-day records written, each key holding the value of its last admission. */
  function Writes<V>(adm: seq<Admitted<V>>): map<Key, V>
    decreases |adm|
  {
    if adm == [] then map[]
    else Writes(adm[..|adm| - 1])[KeyOf(adm[|adm| - 1]) := adm[|adm| - 1].value]
  }

  function ApplyPatches(countries: map<string, Country>, patches: map<string, CountryPatch>): map<string, Country>
  {
    map c | c in countries.Keys + patches.Keys ::
      if c in patches then Patched(Lookup(countries, c), c, patches[c]) else countries[c]
  }

  /** One more patch on top of the patched countries is one more composed patch. */
  lemma ApplyPatchesStep(c: map<string, Country>, p: map<string, CountryPatch>, iso: string, q: CountryPatch)
    ensures var c0 := ApplyPatches(c, p);
      c0[iso := Patched(Lookup(c0, iso), iso, q)]
        == ApplyPatches(c, p[iso := if iso in p then Then(p[iso], q) else q])
  {
    var c0 := ApplyPatches(c, p);
    var lhs := c0[iso := Patched(Lookup(c0, iso), iso, q)];
    var rhs := ApplyPatches(c, p[iso := if iso in p then Then(p[iso], q) else q]);
    if iso in p {
      ThenComposes(Lookup(c, iso), iso, p[iso], q);
    }
    assert lhs.Keys == rhs.Keys;
    forall k | k in lhs ensures lhs[k] == rhs[k] {
    }
  }

  /** A later write over the combined table is a later write in the overlay. */
  lemma OverlayStep<V>(r: map<Key, V>, w: map<Key, V>, k: Key, v: V)
    ensures Upsert(r + w, k, v) == r + w[k := v]
  {
  }

  /**
   * Applying admitted records one by one is one override of the tables:
   * each touched country gets the composition of its patches, and the
   * per-day table is overwritten by the last value written under each key.
   */
  lemma {:induction false} ApplyAllIsOverride<V>(t: Tables<V>, adm: seq<Admitted<V>>)
    ensures ApplyAll(t, adm) == Tables(ApplyPatches(t.countries, Patches(adm)), t.rows + Writes(adm))
    decreases |adm|
  {
    if adm == [] {
      assert ApplyPatches(t.countries, map[]) == t.countries;
      assert t.rows + map[] == t.rows;
    } else {
      var init, a := adm[..|adm| - 1], adm[|adm| - 1];
      ApplyAllIsOverride(t, init);
      ApplyPatchesStep(t.countries, Patches(init), a.iso, a.patch);
      OverlayStep(t.rows, Writes(init), KeyOf(a), a.value);
    }
  }

  /** Patching with the same patches twice is patching once. */
  lemma ApplyPatchesIdempotent(c: map<string, Country>, p: map<string, CountryPatch>)
    ensures ApplyPatches(ApplyPatches(c, p), p) == ApplyPatches(c, p)
  {
    var c1 := ApplyPatches(c, p);
    forall k | k in p
      ensures Patched(Lookup(c1, k), k, p[k]) == c1[k]
    {
      PatchedIdempotent(Lookup(c, k), k, p[k]);
    }
    assert ApplyPatches(c1, p).Keys == c1.Keys;
  }

  /** Applying the same admitted records twice changes nothing more. */
  lemma ApplyAllIdempotent<V>(t: Tables<V>, adm: seq<Admitted<V>>)
    ensures ApplyAll(ApplyAll(t, adm), adm) == ApplyAll(t, adm)
  {
    ApplyAllIsOverride(t, adm);
    ApplyAllIsOverride(ApplyAll(t, adm), adm);
    ApplyPatchesIdempotent(t.countries, Patches(adm));
    assert (t.rows + Writes(adm)) + Writes(adm) == t.rows + Writes(adm);
  }

  /** Every admitted code has a country afterwards, and every per-day key written belongs to an admitted code. */
  lemma {:induction false} ApplyAllKeys<V>(t: Tables<V>, adm: seq<Admitted<V>>)
    ensures ApplyAll(t, adm).countries.Keys == t.countries.Keys + IsosOf(adm)
    ensures forall k :: k in ApplyAll(t, adm).rows <==> k in t.rows || k in Writes(adm)
    ensures forall k :: k in Writes(adm) ==> k.0 in IsosOf(adm)
    decreases |adm|
  {
    if adm != [] {
      var init := adm[..|adm| - 1];
      ApplyAllKeys(t, init);
      assert Patches(adm).Keys == IsosOf(adm);
      assert Patches(init).Keys == IsosOf(init);
    }
  }

  /**
   * Last record wins: a key written by the pass holds the value of the last
   * admitted record with that key.
   */
  lemma {:induction false} WritesLast<V>(adm: seq<Admitted<V>>, i: nat)
    requires i < |adm|
    requires forall j :: i < j < |adm| ==> KeyOf(adm[j]) != KeyOf(adm[i])
    ensures KeyOf(adm[i]) in Writes(adm) && Writes(adm)[KeyOf(adm[i])] == adm[i].value
    decreases |adm|
  {
    if i < |adm| - 1 {
      var init := adm[..|adm| - 1];
      assert init[i] == adm[i];
      WritesLast(init, i);
    }
  }

  // ---------------------------------------------------------------------
  // Passes

  /**
   * The metrics pass on a store: on success the new store and
   * `seen_countries`; on a raise the error (the caller keeps its store).
   */
  function OwidPass(db: Db, rows: seq<Row>, limit: int): Result<(Db, set<string>), ImportError>
  {
    match ScanOwid(rows, limit)
    case Err(e) => Err(e)
    case Ok(sc) =>
      var t := ApplyAll(Tables(db.countries, db.metrics), sc.admitted);
      Ok((db.(countries := t.countries, metrics := t.rows), sc.seen))
  }

  /**
   * The record loop of `import_owid` as written: each record is decided and
   * then written with `UpsertMetricAsWritten`, so the first record that raises,
   * whether on its date or on creating its metric record, ends the loop.
   */
  function OwidRunAsWritten(db: Db, rows: seq<Row>, limit: int): Result<(Scan<DailyMetric>, Tables<DailyMetric>), ImportError>
    decreases |rows|
  {
    if rows == [] then Ok((Scan([], {}), Tables(db.countries, db.metrics)))
    else match OwidRunAsWritten(db, rows[..|rows| - 1], limit)
      case Err(e) => Err(e)
      case Ok(st) =>
        match DecideOwid(rows[|rows| - 1], st.0.seen, limit)
        case Err(e) => Err(e)
        case Ok(None) => Ok(st)
        case Ok(Some(a)) =>
          if KeyOf(a) in st.1.rows then Ok((Scan(st.0.admitted + [a], st.0.seen + {a.iso}), Apply(st.1, a)))
          else Err(InvalidFields(OwidDefaults - MetricFields))
  }

  /** The metrics pass as written, with the atomic block's rollback on a raise. */
  function OwidPassAsWritten(db: Db, rows: seq<Row>, limit: int): Result<(Db, set<string>), ImportError>
  {
    match OwidRunAsWritten(db, rows, limit)
    case Err(e) => Err(e)
    case Ok(st) => Ok((db.(countries := st.1.countries, metrics := st.1.rows), st.0.seen))
  }

  /** Every record the scan admits names a (country, date) key already stored. */
  predicate AllKeysStored(db: Db, rows: seq<Row>, limit: int)
    requires ScanOwid(rows, limit).Ok?
  {
    var adm := ScanOwid(rows, limit).value.admitted;
    forall i | 0 <= i < |adm| :: KeyOf(adm[i]) in db.metrics
  }

  lemma {:induction false} OwidRunAsWrittenScan(db: Db, rows: seq<Row>, limit: int)
    ensures OwidRunAsWritten(db, rows, limit).Ok? ==>
      && ScanOwid(rows, limit).Ok?
      && AllKeysStored(db, rows, limit)
      && OwidRunAsWritten(db, rows, limit).value.0 == ScanOwid(rows, limit).value
      && OwidRunAsWritten(db, rows, limit).value.1
         == ApplyAll(Tables(db.countries, db.metrics), ScanOwid(rows, limit).value.admitted)
      && OwidRunAsWritten(db, rows, limit).value.1.rows.Keys == db.metrics.Keys
    decreases |rows|
  {
    if rows != [] {
      var pre := rows[..|rows| - 1];
      OwidRunAsWrittenScan(db, pre, limit);
      var run := OwidRunAsWritten(db, pre, limit);
      if run.Ok? {
        var sc := ScanOwid(pre, limit).value;
        var d := DecideOwid(rows[|rows| - 1], sc.seen, limit);
        if d.Ok? && d.value.Some? && KeyOf(d.value.value) in run.value.1.rows {
          var a := d.value.value;
          var adm := sc.admitted + [a];
          assert ScanOwid(rows, limit) == Ok(Scan(adm, sc.seen + {a.iso}));
          assert forall i | 0 <= i < |sc.admitted| :: adm[i] == sc.admitted[i];
          assert adm[..|adm| - 1] == sc.admitted;
        }
      }
    }
  }

  /** The fields `import_owid` names that `DailyMetric` lacks. */
  lemma UndeclaredFields()
    ensures OwidDefaults - MetricFields == {"people_vaccinated_per_hundred", "new_vaccinations_smoothed_per_million"}
  {
  }

  lemma AllKeysStoredStep(db: Db, rows: seq<Row>, limit: int)
    requires rows != [] && ScanOwid(rows, limit).Ok?
    ensures ScanOwid(rows[..|rows| - 1], limit).Ok?
    ensures var d := DecideOwid(rows[|rows| - 1], ScanOwid(rows[..|rows| - 1], limit).value.seen, limit);
      && d.Ok?
      && (AllKeysStored(db, rows, limit) <==>
          (AllKeysStored(db, rows[..|rows| - 1], limit) && (d.value.Some? ==> KeyOf(d.value.value) in db.metrics)))
  {
    var sc := ScanOwid(rows[..|rows| - 1], limit).value;
    var d := DecideOwid(rows[|rows| - 1], sc.seen, limit);
    if d.value.Some? {
      var adm := sc.admitted + [d.value.value];
      assert ScanOwid(rows, limit).value.admitted == adm;
      assert forall i | 0 <= i < |sc.admitted| :: adm[i] == sc.admitted[i];
      if AllKeysStored(db, rows, limit) {
        assert KeyOf(adm[|adm| - 1]) in db.metrics;
      }
    }
  }

  lemma {:induction false} OwidRunAsWrittenFails(db: Db, rows: seq<Row>, limit: int)
    ensures (ScanOwid(rows, limit).Ok? && AllKeysStored(db, rows, limit)) ==> OwidRunAsWritten(db, rows, limit).Ok?
    ensures (ScanOwid(rows, limit).Ok? && !AllKeysStored(db, rows, limit)) ==>
      OwidRunAsWritten(db, rows, limit) == Err(InvalidFields(OwidDefaults - MetricFields))
    decreases |rows|
  {
    if rows != [] && ScanOwid(rows, limit).Ok? {
      var pre := rows[..|rows| - 1];
      OwidRunAsWrittenFails(db, pre, limit);
      OwidRunAsWrittenScan(db, pre, limit);
      AllKeysStoredStep(db, rows, limit);
    }
  }

  /**
   * The pass as written succeeds exactly when the corrected pass succeeds
   * and every admitted record updates a metric record already stored; it
   * then agrees with the corrected pass. When the scan succeeds but some
   * admitted record is new, it raises on the two undeclared fields.
   */
  lemma OwidPassAsWrittenVsCorrected(db: Db, rows: seq<Row>, limit: int)
    ensures OwidPassAsWritten(db, rows, limit).Ok? <==>
      (ScanOwid(rows, limit).Ok? && AllKeysStored(db, rows, limit))
    ensures OwidPassAsWritten(db, rows, limit).Ok? ==>
      OwidPassAsWritten(db, rows, limit) == OwidPass(db, rows, limit)
    ensures (ScanOwid(rows, limit).Ok? && !AllKeysStored(db, rows, limit)) ==>
      OwidPassAsWritten(db, rows, limit)
        == Err(InvalidFields({"people_vaccinated_per_hundred", "new_vaccinations_smoothed_per_million"}))
  {
    OwidRunAsWrittenScan(db, rows, limit);
    OwidRunAsWrittenFails(db, rows, limit);
    UndeclaredFields();
  }

  /**
   * Into a store without metric records, the pass as written fails as soon
   * as one record is admitted.
   */
  lemma OwidPassAsWrittenFailsOnEmpty(db: Db, rows: seq<Row>, limit: int)
    requires db.metrics == map[]
    requires ScanOwid(rows, limit).Ok? && ScanOwid(rows, limit).value.admitted != []
    ensures OwidPassAsWritten(db, rows, limit).Err?
  {
    OwidPassAsWrittenVsCorrected(db, rows, limit);
    assert KeyOf(ScanOwid(rows, limit).value.admitted[0]) !in db.metrics;
  }

  /** The table part of the policy pass; events are regenerated afterwards. */
  function OxcgrtTables(db: Db, rows: seq<Row>, limit: int): Result<(Db, set<string>), ImportError>
  {
    match ScanOxcgrt(rows, limit)
    case Err(e) => Err(e)
    case Ok(sc) =>
      var t := ApplyAll(Tables(db.countries, db.policies), sc.admitted);
      Ok((db.(countries := t.countries, policies := t.rows), sc.seen))
  }

  /** Re-running the metrics pass on its own result changes nothing. */
  lemma OwidPassIdempotent(db: Db, rows: seq<Row>, limit: int)
    requires OwidPass(db, rows, limit).Ok?
    ensures OwidPass(OwidPass(db, rows, limit).value.0, rows, limit) == OwidPass(db, rows, limit)
  {
    var sc := ScanOwid(rows, limit).value;
    ApplyAllIdempotent(Tables(db.countries, db.metrics), sc.admitted);
  }

  lemma OxcgrtTablesIdempotent(db: Db, rows: seq<Row>, limit: int)
    requires OxcgrtTables(db, rows, limit).Ok?
    ensures OxcgrtTables(OxcgrtTables(db, rows, limit).value.0, rows, limit) == OxcgrtTables(db, rows, limit)
  {
    var sc := ScanOxcgrt(rows, limit).value;
    ApplyAllIdempotent(Tables(db.countries, db.policies), sc.admitted);
  }

  /**
   * The metrics pass keeps referential integrity, touches only countries
   * and metrics, keeps every existing country, and reports at most
   * `limit` codes, each of which then has a country.
   */
  lemma OwidPassFacts(db: Db, rows: seq<Row>, limit: int)
    requires OwidPass(db, rows, limit).Ok?
    ensures var (db1, seen) := OwidPass(db, rows, limit).value;
      && (Valid(db) ==> Valid(db1))
      && db1.policies == db.policies && db1.events == db.events
      && db1.countries.Keys == db.countries.Keys + seen
      && (limit > 0 ==> |seen| <= limit)
  {
    var sc := ScanOwid(rows, limit).value;
    ScanOwidWellScanned(rows, limit);
    ApplyAllKeys(Tables(db.countries, db.metrics), sc.admitted);
  }

  /** The policy tables pass: the same facts, and no population ever changes. */
  lemma OxcgrtTablesFacts(db: Db, rows: seq<Row>, limit: int)
    requires OxcgrtTables(db, rows, limit).Ok?
    ensures var (db1, seen) := OxcgrtTables(db, rows, limit).value;
      && (Valid(db) ==> Valid(db1))
      && db1.metrics == db.metrics && db1.events == db.events
      && db1.countries.Keys == db.countries.Keys + seen
      && (limit > 0 ==> |seen| <= limit)
      && (forall c :: c in db1.countries ==>
            db1.countries[c].population == (if c in db.countries then db.countries[c].population else None))
  {
    var sc := ScanOxcgrt(rows, limit).value;
    var t := Tables(db.countries, db.policies);
    ScanOxcgrtWellScanned(rows, limit);
    ApplyAllKeys(t, sc.admitted);
    ScanOxcgrtPatches(rows, limit);
    PolicyPatchesKeepPopulation(t, sc.admitted);
  }

  lemma {:induction false} PolicyPatchesKeepPopulation(t: Tables<PolicyDaily>, adm: seq<Admitted<PolicyDaily>>)
    requires forall i :: 0 <= i < |adm| ==> adm[i].patch.population == None
    ensures t.countries.Keys <= ApplyAll(t, adm).countries.Keys
    ensures forall c :: c in ApplyAll(t, adm).countries ==>
      ApplyAll(t, adm).countries[c].population == (if c in t.countries then t.countries[c].population else None)
    decreases |adm|
  {
    if adm != [] {
      var init := adm[..|adm| - 1];
      assert forall i :: 0 <= i < |init| ==> init[i] == adm[i];
      PolicyPatchesKeepPopulation(t, init);
      var prev, a := ApplyAll(t, init), adm[|adm| - 1];
      assert a.patch.population == None;
      var next := Apply(prev, a).countries;
      forall c | c in next
        ensures next[c].population == (if c in t.countries then t.countries[c].population else None)
      {
        if c != a.iso {
          assert next[c] == prev.countries[c];
        }
      }
    }
  }

  /** Every record the policy scan admits leaves the population alone. */
  lemma {:induction false} ScanOxcgrtPatches(rows: seq<Row>, limit: int)
    requires ScanOxcgrt(rows, limit).Ok?
    ensures forall i :: 0 <= i < |ScanOxcgrt(rows, limit).value.admitted| ==>
      ScanOxcgrt(rows, limit).value.admitted[i].patch.population == None
    decreases |rows|
  {
    if rows != [] {
      ScanOxcgrtPatches(rows[..|rows| - 1], limit);
    }
  }
}
