# covid-policy-grapher in Dafny

This project models the data core of the COVID policy dashboard: the
`import_covid_data` management command, the four Django models it fills, and
the `api_timeseries` view.

- **Import command.** It reads the OWID metrics feed and the OxCGRT policy
  feed row by row. It creates or updates `Country`, `DailyMetric` and
  `PolicyDaily` records. Each pass runs inside one transaction. After the
  policy pass, it regenerates the `PolicyEvent` rows of every country that
  pass touched. Each regenerated row is a text summary of what changed
  between two consecutive policy records.
- **View.** `api_timeseries` returns, for one country:
  - the metric dates;
  - twelve series aligned to those dates;
  - the stored events per date;
  - a de-duplicated, date-sorted list of "highlights": policy shifts, case
    and death accelerations, and vaccination milestones.

## Modules

- `Wrappers`: `Option` and `Result`.
- `Dates`: calendar dates as a subset type.
  - `isoformat()` is the function `Iso`.
  - Python string order is the predicate `StrLess`.
  - `IsoOrder` proves that sorting by date string is sorting by date.
- `Coerce`: the command's parsing helpers.
  - `_to_float` and `_to_int`, over a model of Python's `float()` grammar.
  - `_to_date_owid` and `_to_date_oxcgrt`, over a model of `strptime`'s
    regular-expression matching.
- `Models`: the four record shapes and the store.
  - Uniqueness constraints become map keys.
  - `on_delete=CASCADE` becomes `WithoutCountry`.
  - The store is a class `Store` whose fields are the four tables.
- `ImportRows`: what one CSV row does, and what a whole pass does to the
  tables. It has three parts:
  - the decision to skip, admit or fail on a row;
  - the country resolution;
  - the upserts.
- `PolicyEvents`: the change texts and the event derivation for one
  country.
- `ImportCommand`: the command's methods on a `Store`.
  - `handle`, `import_owid`, `import_oxcgrt` and `generate_policy_events`.
  - Each is proved equal to a function of the old store.
- `Highlights`: the three detector loops of the view.
  - Each is a method proved equal to a specification function.
  - The detectors' promises are proved about those functions.
- `HighlightOrder`: the de-duplication loop and the stable sort by date
  string.
- `Timeseries`: the view, as the method `ApiTimeseries`, and the response
  it must return, as the function `Timeseries`.

Where the documented intent and the code disagree, the model follows the code:

- The event deriver compares the stringency index with plain `!=`. There is
  no 2.0-point noise threshold.
- A bad date in the OWID feed aborts the pass instead of skipping the row.
  So does a malformed `Date` in the OxCGRT feed. A missing OxCGRT `Date` is
  skipped, and a missing OWID `date` column raises.
- `%Y-%m-%d` also accepts one-digit months and days (`2020-1-5`).
  `%Y%m%d` accepts seven-digit forms (`2020111` is 2020-11-01).
- Each feed column has exactly one spelling. There are no fallback column
  names.

## Model

| member | source | states |
|---|---|---|
| Coerce.ToFloat | dashboard/management/commands/import_covid_data.py:15-21 | Missing, empty or all-whitespace text gives none. A number is returned only for text that contains a digit. |
| Coerce.ParseFloatFacts | dashboard/management/commands/import_covid_data.py:15-21 | `float()` accepts only text that contains a digit, and rejects whitespace-only text. |
| Coerce.Trunc | dashboard/management/commands/import_covid_data.py:27 | `int()` of a float truncates toward zero. |
| Coerce.ToInt | dashboard/management/commands/import_covid_data.py:23-29 | An integer exactly when the text parses as a float, and then that float truncated toward zero. |
| Coerce.DecimalRoundTrip | dashboard/management/commands/import_covid_data.py:15-21 | Whitespace that `float()` strips on either side of the text is ignored: `str.isspace()` characters other than the separators `\x1c`-`\x1f`. Text made of an optional `+` or `-`, integer digits, an optional point with fraction digits, and an optional exponent is read as its exact value. That value is the digits as one integer, scaled by ten to the exponent minus the number of fraction digits, and negated after a `-`. For example, `" 81.48\n"` is 8148 × 10^-2 and `"+5"` is 5. |
| Coerce.ToFloatRejects | dashboard/management/commands/import_covid_data.py:15-21 | After the whitespace `float()` strips is removed, text with a character outside the numeral alphabet, two points, or a last character that is neither a digit nor a point gives none. |
| Coerce.ScaleUp | dashboard/management/commands/import_covid_data.py:15-21 | A non-negative decimal exponent scales by the integer power of ten. |
| Coerce.ScaleDown | dashboard/management/commands/import_covid_data.py:15-21 | A negative decimal exponent divides by the integer power of ten. |
| Coerce.IntStrRoundTrip | dashboard/management/commands/import_covid_data.py:15-29 | The decimal text of any integer converts back to that integer, through both `_to_float` and `_to_int`. |
| Coerce.StripEmptyIff | dashboard/management/commands/import_covid_data.py:156 | `strip()` is empty exactly when the code is all whitespace. |
| Coerce.SeparatorStripped | dashboard/management/commands/import_covid_data.py:156 | `str.strip()` removes a leading separator `\x1c`-`\x1f` in front of any text with non-whitespace ends, so `"\x1c5".strip()` is `"5"`. |
| Coerce.SeparatorRejectedByFloat | dashboard/management/commands/import_covid_data.py:15-21 | `float()` does not strip a leading separator `\x1c`-`\x1f`, so text that starts with one and does not end in whitespace gives none; for example `_to_float("\x1c5")` gives none. |
| Coerce.OwidDateRoundTrip | dashboard/management/commands/import_covid_data.py:31-33 | `%Y-%m-%d` parses the `isoformat()` of every date back to that date. |
| Coerce.OxcgrtDateRoundTrip | dashboard/management/commands/import_covid_data.py:35-37 | `%Y%m%d` parses the eight-digit form of every date back to that date. |
| Coerce.FormatsAreDistinct | dashboard/management/commands/import_covid_data.py:31-37 | Neither feed's parser accepts the other feed's date form. |
| Coerce.RejectsImpossibleDay | dashboard/management/commands/import_covid_data.py:31-37 | For every year, month from 1 to 12 and day from 1 to 31, written with zero padding: when the year is 0 or the day is beyond that month's length in that year, both `%Y-%m-%d` and `%Y%m%d` give a range error on that text instead of a date. |
| Coerce.AcceptsShortFields | dashboard/management/commands/import_covid_data.py:31-37 | Both formats accept month and day fields shorter than two digits. |
| Dates.IsoOrder | dashboard/views.py:262 | Comparing `isoformat()` strings is comparing dates. |
| Dates.IsoInjective | dashboard/views.py:68-69 | Two dates have the same `isoformat()` string exactly when they are equal. |
| Models.RowsOf | dashboard/views.py:96-109 | `filter(country).order_by("date")` returns each of the country's rows once, in strictly increasing date order, with the stored values. |
| Models.WithoutCountry | dashboard/models.py:13-15 | Deleting a country removes it and exactly its metric, policy and event rows. Every other row is unchanged. |
| Models.CascadeKeepsIntegrity | dashboard/models.py:61-64 | After the cascade, every foreign key still names a stored country, and the deleted country has no rows left. |
| Models.Store.Delete | dashboard/models.py:13-15 | The store's new state is the cascade applied to its old state, and integrity is kept. |
| ImportRows.SelectFeeds | dashboard/management/commands/import_covid_data.py:50-52 | OWID runs unless only `--oxcgrt` is given, and OxCGRT runs unless only `--owid` is given. At least one feed always runs. |
| ImportRows.ResolveOwid | dashboard/management/commands/import_covid_data.py:89-95 | A non-empty `location` becomes the name. A new country is otherwise named by its code. A non-zero population replaces the stored one. |
| ImportRows.ResolveOxcgrt | dashboard/management/commands/import_covid_data.py:168-171 | The record's name becomes the country's name. The population is left as stored (none for a new country). |
| ImportRows.ThenComposes | dashboard/management/commands/import_covid_data.py:89-95 | Resolving a country twice equals resolving it once with the combined update. |
| ImportRows.PatchedIdempotent | dashboard/management/commands/import_covid_data.py:89-95 | Resolving a country a second time with the same row changes nothing. |
| ImportRows.PseudoCode | dashboard/management/commands/import_covid_data.py:156-158 | The fallback code is `X_` followed by the first six characters of the name, upper-cased. It is at most 8 characters, within the 10-character column. |
| ImportRows.PolicyCode | dashboard/management/commands/import_covid_data.py:150-158 | A present, non-blank `CountryCode` is used as is. A missing or blank one is replaced by the fallback code. |
| ImportRows.Upsert | dashboard/management/commands/import_covid_data.py:175-186 | `update_or_create` on (country, date): that key now holds the new values, and every other key is unchanged. |
| ImportRows.AsWrittenUpsertNeverCreates | dashboard/management/commands/import_covid_data.py:112-130 | The metric upsert as written fails with a field error on every key it would create, and acts as `Upsert` on existing keys. |
| ImportRows.OwidRunAsWrittenScan | dashboard/management/commands/import_covid_data.py:72-130 | When the as-written record loop succeeds, it has admitted what the scan admits, every admitted key was already stored, its tables are the corrected pass's tables, and it created no metric key. |
| ImportRows.OwidRunAsWrittenFails | dashboard/management/commands/import_covid_data.py:72-130 | When no record raises on its date, the as-written loop succeeds if every admitted key is stored, and otherwise raises the field error. |
| ImportRows.OwidPassAsWrittenVsCorrected | dashboard/management/commands/import_covid_data.py:64-130 | The OWID pass as written succeeds exactly when no record raises on its date and every admitted key is already stored. It then equals the corrected pass. When only the key condition fails, it raises naming the two undeclared fields. |
| ImportRows.OwidPassAsWrittenFailsOnEmpty | dashboard/management/commands/import_covid_data.py:64-130 | Into a store without metrics, the pass as written fails as soon as one row is admitted. |
| ImportRows.DecideOwid | dashboard/management/commands/import_covid_data.py:75-110 | A row is skipped (no error, no record) when its code is empty, starts with `OWID_`, or is a new code past the country cap. A row that is not skipped raises exactly when its `date` is missing or malformed, and is admitted exactly when its date parses. An admitted row carries its code, that date, the metric values, and the country change: the `location` as name and the parsed `population`. |
| ImportRows.DecideOxcgrt | dashboard/management/commands/import_covid_data.py:149-166 | A record without a name is skipped, and so is a named record whose code (given or fallback) is new past the cap. A named record within the cap with no `Date` is skipped. With a `Date`, it raises exactly when that date is malformed, and is admitted exactly when that date parses. An admitted record carries its code, its date, its policy values and its name, and never carries a population. A malformed date is the only error. |
| ImportRows.StepKeepsWellScanned | dashboard/management/commands/import_covid_data.py:83-97 | Admitting a row keeps the recorded codes equal to the admitted codes, within the cap. |
| ImportRows.ScanOwidWellScanned | dashboard/management/commands/import_covid_data.py:72-97 | After the OWID loop, `seen_countries` is exactly the set of admitted codes. With a positive cap it has at most that many codes. |
| ImportRows.ScanOxcgrtWellScanned | dashboard/management/commands/import_covid_data.py:146-173 | The same facts hold for the OxCGRT loop. |
| ImportRows.CapSparesSeenCodes | dashboard/management/commands/import_covid_data.py:83-84 | A code already seen is treated as if there were no cap. |
| ImportRows.NegativeLimitAdmitsNothing | dashboard/management/commands/import_covid_data.py:160-161 | A negative `--limit_countries` skips every row of both feeds. |
| ImportRows.ScanOwidErrorPersists | dashboard/management/commands/import_covid_data.py:64-87 | Once a row raises, the whole OWID pass fails with that error, whatever rows follow. |
| ImportRows.ScanOxcgrtErrorPersists | dashboard/management/commands/import_covid_data.py:138-166 | Once a record raises, the whole OxCGRT pass fails with that error, whatever records follow. |
| ImportRows.ApplyAllIsOverride | dashboard/management/commands/import_covid_data.py:89-130 | Applying the admitted rows one by one equals patching each touched country once and overlaying the last write of each key on the old rows. |
| ImportRows.ApplyAllIdempotent | dashboard/management/commands/import_covid_data.py:64-136 | Applying the same admitted rows twice equals applying them once. |
| ImportRows.ApplyAllKeys | dashboard/management/commands/import_covid_data.py:89-130 | The countries afterwards are the old ones plus the admitted codes. The rows afterwards are the old ones plus the written keys. |
| ImportRows.WritesLast | dashboard/management/commands/import_covid_data.py:112-130 | A key's final values are those of the last admitted row with that key. |
| ImportRows.OwidPassIdempotent | dashboard/management/commands/import_covid_data.py:64-136 | A second run of the OWID pass on the same rows leaves the store as the first run left it. |
| ImportRows.OwidPassFacts | dashboard/management/commands/import_covid_data.py:64-136 | The OWID pass keeps referential integrity. It leaves policies and events alone, adds exactly the seen codes to the countries, and respects a positive cap. |
| ImportRows.OxcgrtTablesIdempotent | dashboard/management/commands/import_covid_data.py:138-192 | A second run of the policy-table part of the OxCGRT pass changes nothing. |
| ImportRows.OxcgrtTablesFacts | dashboard/management/commands/import_covid_data.py:138-192 | The OWID pass's facts hold here too, with metrics left alone. In addition, no population changes, and new countries have none. |
| ImportRows.PolicyPatchesKeepPopulation | dashboard/management/commands/import_covid_data.py:168-171 | Patches that carry no population leave every stored population as it was. |
| ImportRows.ScanOxcgrtPatches | dashboard/management/commands/import_covid_data.py:168-171 | No admitted OxCGRT record carries a population. |
| PolicyEvents.Diff | dashboard/management/commands/import_covid_data.py:218-220 | A change line is produced exactly when the two values differ. |
| PolicyEvents.Changes | dashboard/management/commands/import_covid_data.py:216-227 | There are at most six change lines, and none exactly when the two policy records are equal. |
| PolicyEvents.EventTextOverflow | dashboard/management/commands/import_covid_data.py:231-234 | One change is the text itself, and two are joined by `; `. Three or more show the first three joined by `; `. Beyond three, ` (+n more)` follows, with n the number of changes left out. |
| PolicyEvents.EventTextFits | dashboard/management/commands/import_covid_data.py:231-234 | With at most six changes of at most 160 characters each, the text fits the 500-character column. |
| PolicyEvents.ChangesTextFits | dashboard/management/commands/import_covid_data.py:216-235 | When every value renders in at most 60 characters, the event text fits the column. |
| PolicyEvents.DeriveSound | dashboard/management/commands/import_covid_data.py:207-238 | Every derived event sits on the date of a record that differs from its predecessor, and carries that pair's text. |
| PolicyEvents.DeriveComplete | dashboard/management/commands/import_covid_data.py:207-238 | Every record that differs from its predecessor yields its event. |
| PolicyEvents.DeriveChronological | dashboard/management/commands/import_covid_data.py:207-238 | Events come in strictly increasing date order, all after the first record's date. |
| PolicyEvents.DeriveEvents | dashboard/management/commands/import_covid_data.py:207-238 | The `prev`/`p` loop produces exactly the derived events. |
| PolicyEvents.Regenerate | dashboard/management/commands/import_covid_data.py:197-205 | The events of touched, stored countries are replaced by the derivation from their policy rows. Everything else is unchanged, and integrity is kept. |
| PolicyEvents.RegenerateIdempotent | dashboard/management/commands/import_covid_data.py:197-240 | Regenerating twice equals regenerating once. |
| ImportCommand.RegeneratedSkips | dashboard/management/commands/import_covid_data.py:200-203 | A code with no stored country is skipped. |
| ImportCommand.RegenerateLoop | dashboard/management/commands/import_covid_data.py:197-205 | The `for iso in iso_codes` loop yields exactly the event table of `Regenerate`: touched stored countries get fresh events, all others keep theirs. |
| ImportCommand.GeneratePolicyEvents | dashboard/management/commands/import_covid_data.py:197-240 | The delete-and-recreate loop leaves the store equal to `Regenerate` of its old state. |
| ImportCommand.OxcgrtPassIdempotent | dashboard/management/commands/import_covid_data.py:138-195 | Running the whole OxCGRT pass, event regeneration included, twice equals running it once. |
| ImportCommand.OxcgrtPassKeepsValid | dashboard/management/commands/import_covid_data.py:138-195 | The OxCGRT pass keeps referential integrity and leaves the metrics alone. |
| ImportCommand.RunOwidPass | dashboard/management/commands/import_covid_data.py:72-130 | The row loop of `import_owid`, with the corrected upsert, returns exactly the OWID pass: the first error, or the new countries and metrics with the seen codes. |
| ImportCommand.RunOxcgrtTables | dashboard/management/commands/import_covid_data.py:146-192 | The row loop of `import_oxcgrt` returns exactly the policy-table part of the OxCGRT pass: the first error, or the new countries and policies with the seen codes. |
| ImportCommand.ImportOwid | dashboard/management/commands/import_covid_data.py:64-136 | On success, the store becomes the OWID pass's result. On an error, the store is unchanged (the atomic block rolls back). |
| ImportCommand.ImportOxcgrt | dashboard/management/commands/import_covid_data.py:138-195 | On success, the store becomes the OxCGRT pass's result, with events regenerated for the seen codes. On an error, the store is unchanged. |
| ImportCommand.HandleKeepsValid | dashboard/management/commands/import_covid_data.py:49-62 | The whole command keeps referential integrity. |
| ImportCommand.Handle | dashboard/management/commands/import_covid_data.py:49-62 | The command runs the selected passes in order and stops at the first error. Work committed by an earlier pass stays. |
| Highlights.StringencyHighlight | dashboard/views.py:177-189 | There is a stringency highlight exactly when both values exist and differ by at least 10. It is titled "tightened" exactly when the index rose. |
| Highlights.ChangedIndicatorsExact | dashboard/views.py:190-200 | A "changed" highlight is produced for an indicator exactly when its values differ between the two records, and carries that indicator's label and values. |
| Highlights.DifferingIndicatorsExact | dashboard/views.py:190-200 | The positions listed for a pair of records are exactly the indicators whose values differ. |
| Highlights.DifferingIndicatorsAscending | dashboard/views.py:190-192 | Those positions strictly ascend, so they follow label order and none is listed twice. |
| Highlights.ChangedIndicatorsInOrder | dashboard/views.py:190-200 | The "changed" highlights correspond one to one, in order, to the differing positions. |
| Highlights.IndicatorHighlights | dashboard/views.py:190-200 | The `POLICY_LABELS` loop for one date produces exactly the "changed" highlights of the differing indicators. |
| Highlights.PolicyShiftsExact | dashboard/views.py:170-202 | A policy highlight comes exactly from a metric date whose own and previous date both have policy rows. A date without a policy row breaks the chain. |
| Highlights.PolicyHighlights | dashboard/views.py:170-202 | The `prev_p` loop produces exactly those policy highlights. |
| Highlights.AccelAtIff | dashboard/views.py:209-219 | With a positive floor, a date is reported exactly when all of these hold: both 7-day windows have at least five values, the prior mean reaches the floor, and the current mean is at least 1.5 times the prior mean. |
| Highlights.AccelerationsExact | dashboard/views.py:205-227 | The acceleration highlights are exactly the reports of indices 14 onward, each on its own date. |
| Highlights.AddAccel | dashboard/views.py:205-227 | `_add_accel` produces exactly those highlights, titled "<prefix> accelerating". |
| Highlights.MilestonesExact | dashboard/views.py:233-252 | A milestone highlight exists exactly for a threshold at the first consecutive pair that crosses it, from below to at-or-above. |
| Highlights.MilestonesOnce | dashboard/views.py:233-252 | No threshold fires twice, and every fired threshold has been crossed. |
| Highlights.MilestonesAtDistinct | dashboard/views.py:240-252 | Within one date, the fired thresholds are distinct and each is that threshold's first crossing. |
| Highlights.NoMilestonesWithoutValues | dashboard/views.py:237-239 | A pair with a missing value fires nothing. |
| Highlights.CrossingsAt | dashboard/views.py:237-252 | One step of the `seen_thr` loop adds exactly that date's milestones and leaves `seen_thr` holding the thresholds crossed up to that date. |
| Highlights.VaxMilestones | dashboard/views.py:233-252 | The `seen_thr` loop produces exactly the milestones. |
| HighlightOrder.FirstByKeyFacts | dashboard/views.py:254-261 | After de-duplication, no two highlights share a (date, type, title) key, and each kept one is the first of its key, in generation order. |
| HighlightOrder.FirstByKeyCount | dashboard/views.py:254-261 | De-duplication loses no key and keeps as many highlights as there are keys. |
| HighlightOrder.KeysDistinct | dashboard/views.py:254-261 | A list with as many highlights as keys has no two highlights sharing a key. |
| HighlightOrder.Dedup | dashboard/views.py:254-261 | The `dedup` dictionary loop produces exactly the first highlight of each key, in order. |
| HighlightOrder.SortByDateSorted | dashboard/views.py:262 | After the sort, no highlight is dated after a later one. |
| HighlightOrder.SortByDatePermutes | dashboard/views.py:262 | The sort neither loses nor adds a highlight. |
| HighlightOrder.SortByDateStable | dashboard/views.py:262 | The highlights of each date keep their relative order. |
| HighlightOrder.SortedByDateString | dashboard/views.py:262 | Sorted by date means sorted by date string. |
| Timeseries.PolicyMapFacts | dashboard/views.py:138 | The policy dictionary maps each date of a policy row to one of that date's rows, and holds no other date. |
| Timeseries.GroupEvents | dashboard/views.py:159-162 | `events_by_date` maps each date to the texts of the events with that date, in stored order. |
| Timeseries.TextsOnFacts | dashboard/views.py:159-164 | A date's items are texts of events with that date, and every such event's text is among them. |
| Timeseries.PayloadOf | dashboard/views.py:95-164 | The body echoes the code and the country. It has one date per metric row, and every series and the event list are as long as the dates. |
| Timeseries.Timeseries | dashboard/views.py:89-93 | The view answers 404 exactly when no country has the code. |
| Timeseries.ApiTimeseries | dashboard/views.py:89-262 | The view's loops return exactly the specified response. |
| Timeseries.TimeseriesDates | dashboard/views.py:96-111 | `dates` ascend strictly as strings. A date string is present exactly when the country has a metric row on that date. |
| Timeseries.TimeseriesColumns | dashboard/views.py:113-156 | Position `i` of each metric series holds that date's metric value. Each policy series holds that date's policy value, or null when the date has no policy row. Policy rows on other dates appear nowhere. |
| Timeseries.TimeseriesEvents | dashboard/views.py:159-164 | Event entry `i` carries date `i` and that date's stored texts. |
| Timeseries.GeneratedDated | dashboard/views.py:166-252 | Every generated highlight is dated on a metric date. |
| Timeseries.OrderedFacts | dashboard/views.py:254-262 | The final highlights are chronological and hold one highlight per generated key, on metric dates. Within a date they keep the generation order: policy, cases, deaths, vaccination. |
| Timeseries.TimeseriesHighlights | dashboard/views.py:166-262 | The response's highlights are chronological, no two share a key, and each falls on a date where the country has a metric row. |
| Timeseries.EmptyCountry | dashboard/views.py:95-164 | A country without metric rows gets empty dates, series, events and highlights. |

## Left out

- Network and CSV: downloading the feeds, `raise_for_status`, the HTTP timeout and `csv.DictReader` are not modelled. A feed is given as a sequence of rows, each a map from column name to text.
- Console output (`self.stdout.write`, row counters, the final "Done.") is not modelled.
- `index`, `api_countries`, `POLICY_LEVELS`, `STRINGENCY_EXPLAINER` and the response's `meta` are not modelled. They are constant data or template rendering.
- Floating point: values are exact reals. IEEE rounding and overflow are not modelled.
- DecimalRoundTrip: does not cover numerals without integer digits, such as `.5`. `ToFloat` accepts them and computes their value, but no lemma states that value.
- Coerce.ToFloat: does not model `float()` accepting `inf`, `nan`, digit-group underscores or non-ASCII digits. Such text gives none here.
- `str(float)` in event texts is a parameter (`showReal`) of the event functions. Python's shortest round-trip float formatting is not modelled.
- Highlight `details` are structured values (`Detail`), not the formatted strings (`:.1f`, `:.2f`, `:+.1f`).
- `statistics.mean` is an exact mean over reals.
- `str.upper()` in the fallback code is modelled on ASCII letters only.
- The database's own enforcement of `max_length` is not modelled. `PseudoCode` and `EventTextFits` state that the values fit.
- OwidPass: models `import_owid` with the corrected upsert `Upsert`, which creates missing metric records. The code as written cannot create one (see Findings). `OwidPassAsWritten` models the code as written, and `OwidPassAsWrittenVsCorrected` states where the two differ.
- RunOwidPass: returns `OwidPass`, so it models the corrected upsert too.
- ImportOwid: commits `OwidPass`, so it models the corrected upsert too.
- HandleOutcome: runs `OwidPass`, so on a feed with new (country, date) keys it continues to the OxCGRT pass, where the code as written would stop.
- Handle: is proved equal to `HandleOutcome`, so it models the corrected upsert too.
- ParseOwidDate: accepts ASCII digits only. `strptime`'s `\d` and `int()` also accept other Unicode decimal digits.
- ParseOxcgrtDate: accepts ASCII digits only, for the same reason.
- Timeseries.TextsOn: `order_by("date")` does not fix the order of two events on the same date. The model takes the stored order, which is what `generate_policy_events` writes.
- Concurrency between command runs and view requests is not modelled. Each operation sees a consistent store.
- `Country.__str__` and the other `__str__` methods are display only.

## Findings

| source | as written | input that shows it | evidently intended | confidence | as-written member | corrected member |
|---|---|---|---|---|---|---|
| dashboard/management/commands/import_covid_data.py:112-130 | `update_or_create` gets `people_vaccinated_per_hundred` and `new_vaccinations_smoothed_per_million` in `defaults`, but `DailyMetric` declares neither field (dashboard/models.py:13-31). Creating a record with undeclared fields raises `FieldError`. | Any OWID row whose (country, date) has no stored metric, such as the first import into an empty database. The atomic block then rolls back the whole OWID pass. | Store the eight declared fields for new and existing keys alike. | medium, not executed | ImportRows.OwidPassAsWrittenVsCorrected | ImportRows.OwidPass |
