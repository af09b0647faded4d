# country-api, modelled in Dafny

A Dafny model of the country service: an Express handler set over a MySQL
`countries` table. The model covers four parts of the service:

- **Refresh.** It fetches the country list from restcountries.com and the USD
  rate table from open.er-api.com. It then turns each entry into a row, with
  an estimated GDP of population × random multiplier ÷ rate. Every row and
  the `last_refreshed_at` metadata are upserted inside one transaction.
- **List query.** `GET /countries` builds SQL from its optional `region`,
  `currency` and `sort` query parameters.
- **Lookup and delete.** These match by name, ignoring case.
- **Manual insert.** `POST /countries` validates the body field by field,
  then upserts a normalised row.

Files:

- `values.dfy`: the JavaScript values the handlers see (parsed JSON plus
  `undefined`) and the conversions they use: truthiness, `v || null`,
  `v?.key`, `String.prototype.trim` and `Number(...)`.
- `store.dfy`: the database as an abstract map from name to row, plus the
  `last_refreshed_at` entry. `Database` is the shared tables. `Connection`
  holds one transaction: begin, commit, rollback.
- `normalize.dfy`: `computeGDP` and the per-entry normalisation of the
  refresh loop, and the pricing invariant every written row satisfies.
- `refresh.dfy`: the refresh handler as a state machine over the store.
  - Each HTTP call is an input that either succeeds or fails.
  - The random multiplier of entry `i` is `pick(i)`, in [1000, 2000].
  - The clock is an argument.
  - A rejected `pool.getConnection()`, failing statements, commit, image
    generation and count query are the `Faults` argument.
- `queries.dfy`: the query building of `getCountries`, with the SQL text
  as its word sequence. It also holds `getCountryByName` and
  `deleteCountry`.
- `manual.dfy`: the `POST /countries` handler of routes/countryRoutes.js.

Three behaviours of the refresh are worth stating outright:

- The country list is fetched first and the rate table second. When the
  first fetch fails, the rate table is never requested.
- A refresh whose summary image or final count query fails after the
  commit returns 500, and the committed batch stays: the rollback in the
  catch block runs after the commit, and then it changes nothing.
- `pool.getConnection()` runs outside the handler's `try`. When it
  rejects, the handler's `catch` does not run, so the handler writes no
  response of its own and rolls nothing back; what the client receives
  is up to Express. The model calls this outcome `Escaped`.

## Model

| member | source | states |
|---|---|---|
| Values.OrNull | controllers/countryController.js:50-52 | `v \|\| null` keeps a truthy value and makes every falsy one null |
| Values.ToNumber | controllers/countryController.js:71 | `Number(v)`; stated by `Values.NumberOfNatString`, `ManualInsert.PopulationSign`, `ManualInsert.PopulationDigits` and `ManualInsert.PopulationBlank` |
| Values.TrimStart | routes/countryRoutes.js:36 | the leading white space removed is white space, and what is left does not start with it |
| Values.TrimEnd | routes/countryRoutes.js:36 | the trailing white space removed is white space, and what is left does not end with it |
| Values.TrimEmptyIffAllSpace | routes/countryRoutes.js:36 | `s.trim()` is empty exactly when `s` is white space only |
| Values.TrimShape | routes/countryRoutes.js:76 | a trimmed string has no edge white space, and trimming it again changes nothing |
| Values.Trim | routes/countryRoutes.js:36 | `String.prototype.trim` over the ECMAScript white-space set; stated by `Values.TrimEmptyIffAllSpace` and `Values.TrimShape` |
| Values.NumberOfNatString | routes/countryRoutes.js:43-44 | `Number` reads the decimal spelling of every natural number as that number |
| Store.Matching | controllers/countryController.js:176 | `LOWER(name) = LOWER(?)` selects exactly the rows whose name has the key's length and agrees with it character by character once ASCII letters are lower-cased |
| Store.WithoutName | controllers/countryController.js:265 | the delete removes exactly the matching rows and leaves every other row as it was |
| Store.SameNameIsEquivalence | controllers/countryController.js:176 | name matching is reflexive, symmetric and transitive |
| Store.Database.constructor | init.js:4-31 | the initial tables: no rows and a null `last_refreshed_at` |
| Store.Database.Upsert | controllers/countryController.js:85-108 | an upsert by name inserts the row or overwrites that name's row, and changes no other row |
| Store.Database.SetLastRefreshed | controllers/countryController.js:111-115 | the metadata upsert sets `last_refreshed_at` to the current time |
| Store.Database.DeleteByName | controllers/countryController.js:264-268 | the delete removes the matching rows, and its affected count is zero exactly when none matched |
| Store.Connection.constructor | controllers/countryController.js:44 | a connection taken from the pool acts on the shared tables and has no open transaction |
| Store.Connection.BeginTransaction | controllers/countryController.js:47 | the transaction snapshots both tables |
| Store.Connection.Commit | controllers/countryController.js:117 | the commit closes the transaction and keeps its writes |
| Store.Connection.Rollback | controllers/countryController.js:132-136 | inside a transaction, rollback restores the snapshot; after a commit, it changes nothing |
| Normalize.ComputeGdp | controllers/countryController.js:9-12 | the estimate times the rate equals population times the multiplier |
| Normalize.GdpRatioInRange | controllers/countryController.js:9-12 | estimate × rate ÷ population is the multiplier, so it lies in [1000, 2000] for a positive population; for a positive rate the estimate lies between P·1000/R and P·2000/R |
| Normalize.PopulationOf | controllers/countryController.js:53 | the entry's population when it is a number, otherwise 0; stated by `Normalize.EntryColumns` |
| Normalize.CurrenciesOf | controllers/countryController.js:54 | the entry's currency list when it is an array, otherwise empty; stated by `Normalize.NoCurrencies` |
| Normalize.Price | controllers/countryController.js:56-83 | a rate is stored only as the usable rate of the stored code, with estimate × rate = population × multiplier; an empty currency list always gives a null code, a null rate and an estimate of 0; otherwise a null rate goes with a null estimate, and the code is the first currency's `code \|\| null`; a string code with a usable rate in the table always gets that rate |
| Normalize.FirstCode | controllers/countryController.js:65 | `currencies[0]?.code \|\| null`; stated by `Normalize.Price` and `Normalize.UnknownCode` |
| Normalize.UsableRate | controllers/countryController.js:73 | the test `!exchange_rate \|\| exchange_rate === 0` negated on `Number(rate)`: finite and non-zero; stated by `Normalize.UnusableRate` and `Normalize.PricedByRate` |
| Normalize.NormalizeEntry | controllers/countryController.js:49-108 | an entry gives a row exactly when it is non-null with a non-empty string name, and the row carries that name |
| Normalize.EntryColumns | controllers/countryController.js:50-53 | the row's capital, region and flag are the entry's when truthy and null otherwise; its population is the entry's number, or 0 when it is not a number |
| Normalize.NormalizedIsPriced | controllers/countryController.js:53-83 | every written row satisfies the pricing invariant, which ties its rate to the rate table and its estimate to an admissible multiplier |
| Normalize.NoCurrencies | controllers/countryController.js:54-63 | an entry whose `currencies` is not an array, or is the empty array, gets no code, no rate and an estimate of exactly 0 |
| Normalize.UnknownCode | controllers/countryController.js:65-82 | a missing or unknown first code gives a null rate and a null estimate, and the code, if any, is kept |
| Normalize.UnusableRate | controllers/countryController.js:71-75 | a rate that converts to 0 or NaN gives a null rate and a null estimate |
| Normalize.PricedByRate | controllers/countryController.js:53-77 | a usable rate R is stored, and the estimate is P·m÷R with the ratio in [1000, 2000] for P > 0 |
| Refresh.Entries | controllers/countryController.js:49 | `for ... of` iterates over exactly arrays (their items) and strings (one-character strings), and nothing else |
| Refresh.RateTable | controllers/countryController.js:43 | `ratesRes.data?.rates \|\| {}` as a table of own properties; used by `Refresh.RefreshCountries` |
| Refresh.Staged | controllers/countryController.js:46-117 | the table a refresh leaves after the fetches; stated by `Refresh.StagedSucceedsIff`, `Refresh.StagedLastEntryWins`, `Refresh.StagedKeepsOtherRows` and `Refresh.StagedRowsPriced` |
| Refresh.Batch | controllers/countryController.js:49-109 | the loop writes every row exactly when no entry throws and no statement fails, one row per entry, in order |
| Refresh.ApplyAllLastWins | controllers/countryController.js:85-108 | after the upserts in loop order, a name holds the row of its last record |
| Refresh.ApplyAllFrame | controllers/countryController.js:85-108 | a name no record carries keeps its row, or stays absent |
| Refresh.ApplyAllKeys | controllers/countryController.js:85-108 | the upserts add exactly the batch's names to the table |
| Refresh.ApplyAll | controllers/countryController.js:85-108 | the table after the loop's upserts in order; stated by `Refresh.ApplyAllLastWins`, `Refresh.ApplyAllFrame` and `Refresh.ApplyAllKeys` |
| Refresh.ApplyAllKeyed | init.js:16 | the upserts keep every row filed under its own unique name |
| Refresh.AllPriced | controllers/countryController.js:49-109 | after the upserts every row is either a priced record or an old row left exactly as it was |
| Refresh.StagedSucceedsIff | controllers/countryController.js:46-117 | the transaction commits exactly when the data is iterable, every entry has a usable name, and no statement and not the commit fails |
| Refresh.StagedLastEntryWins | controllers/countryController.js:49-108 | after a commit, each name holds the normalised row of the last entry with that name |
| Refresh.StagedKeepsOtherRows | controllers/countryController.js:85-97 | rows whose names are not in the batch are unchanged, because upserts never delete |
| Refresh.StagedRowsPriced | controllers/countryController.js:49-109 | after a committed refresh every row either satisfies the pricing rules under the fetched rates or is an unwritten old row left exactly as it was |
| Refresh.BatchStep | controllers/countryController.js:49-108 | one more successful upsert extends the written batch by its row |
| Refresh.BatchFailsAt | controllers/countryController.js:49-108 | one entry that throws or fails fails the whole loop |
| Refresh.UpsertEntries | controllers/countryController.js:49-109 | the loop succeeds exactly when the batch does, and then the table equals the upserts applied in order |
| Refresh.RefreshCountries | controllers/countryController.js:14-141 | fetch failures give 503 naming the provider, with no store change and no later call; a rejected `pool.getConnection()` escapes the handler (`Escaped`: no response of its own, no change); a failure before commit rolls everything back with 500; a committed refresh sets the rows and `last_refreshed_at`, then answers 200 with the row count, or 500 if the image or count fails |
| Queries.ListQuery | controllers/countryController.js:145-162 | the query for the present filters and the sort; stated by `Queries.WhereClause`, `Queries.OrderClauseIff`, `Queries.PlaceholdersMatchParams` and `Queries.QueryWordsFixed` |
| Queries.BuildListQuery | controllers/countryController.js:143-162 | the query is the specified text for the truthy filters and the sort, and the params are the truthy values, region before currency |
| Queries.PlaceholdersAppend | controllers/countryController.js:159 | placeholder counts add up over concatenation |
| Queries.NoPlaceholders | controllers/countryController.js:146 | a fragment without `?` contributes no placeholder |
| Queries.PlaceholdersMatchParams | controllers/countryController.js:150-159 | the query holds exactly one `?` per parameter |
| Queries.QueryWordsFixed | controllers/countryController.js:145-162 | the query text uses only the handler's own words, so user values never enter it |
| Queries.WhereClause | controllers/countryController.js:159 | `WHERE` appears exactly when a filter is present, and region then currency are joined by `AND` |
| Queries.JoinAnd | controllers/countryController.js:159 | `filters.join(" AND ")` over token sequences; stated by `Queries.WhereClause` |
| Queries.OrderClauseIff | controllers/countryController.js:161-162 | `ORDER BY estimated_gdp DESC`/`ASC` ends the query exactly for `gdp_desc`/`gdp_asc`, and any other value adds no `ORDER` |
| Queries.TextAppend | controllers/countryController.js:159 | spelling out concatenated fragments puts one space between them |
| Queries.SelectText | controllers/countryController.js:146 | the base query reads `SELECT * FROM countries` |
| Queries.FilterTexts | controllers/countryController.js:151-155 | the filters read `region = ?` and `currency_code = ?` |
| Queries.GetCountryByName | controllers/countryController.js:172-186 | a failed query gives 500; otherwise the result is 404 exactly when no name matches up to ASCII case, and 200 with the matching rows |
| Queries.LookupIgnoresCase | controllers/countryController.js:175-181 | a lookup in any letter case finds the stored row |
| Queries.DeleteCountry | controllers/countryController.js:261-275 | a failed query gives 500 and no change; otherwise the matching rows are removed, and the result is 404 exactly when none matched |
| Queries.DeleteThenLookup | controllers/countryController.js:264-270 | after a delete no row matches the name, and every other row is unchanged |
| ManualInsert.ValidationErrors | routes/countryRoutes.js:34-55 | the error keys are exactly the failing fields, with their messages, and there are none exactly when all checks pass |
| ManualInsert.MissingText | routes/countryRoutes.js:36-38 | the `name`/`currency_code` test; stated by `ManualInsert.BlankTextRejected` and `ManualInsert.WellFormedRoundTrip` |
| ManualInsert.BadPopulation | routes/countryRoutes.js:40-47 | the `population` test; stated by `ManualInsert.PopulationSign`, `ManualInsert.PopulationDigits` and `ManualInsert.PopulationBlank` |
| ManualInsert.RecordOf | routes/countryRoutes.js:75-84 | the stored row of a valid body; stated by `ManualInsert.StoredRowWellFormed` and `ManualInsert.WellFormedRoundTrip` |
| ManualInsert.AddCountry | routes/countryRoutes.js:21-92 | a nullish body gives 500; failed checks give 400 with the errors and no write; a failed write gives 500 and no change; otherwise the trimmed-name row is upserted and 201 sent |
| ManualInsert.StoredRowWellFormed | routes/countryRoutes.js:75-84 | a stored row has a trimmed, non-empty name and code and a positive `Number(population)`, and falsy optional fields are null |
| ManualInsert.WellFormedRoundTrip | routes/countryRoutes.js:36-84 | a well-formed row sent as a body passes validation and is stored unchanged |
| ManualInsert.BlankTextRejected | routes/countryRoutes.js:36-38 | an empty, white-space-only or non-string `name`/`currency_code` fails |
| ManualInsert.PopulationSign | routes/countryRoutes.js:40-47 | numbers ≤ 0, null, `false` and `[]` fail, and positive numbers pass |
| ManualInsert.PopulationDigits | routes/countryRoutes.js:40-47 | a digit string such as "10" passes exactly when its value is positive, so "0" fails; a one-element array of it behaves the same |
| ManualInsert.PopulationBlank | routes/countryRoutes.js:40-47 | an empty or white-space-only population string reads as 0 and fails |
| ManualInsert.AddedIsFound | routes/countryRoutes.js:64-85 | after an insert, a lookup of the trimmed name in any case finds the stored row |

## Left out

- HTTP calls with axios, and their 15-second timeouts: each fetch is an input that either returns data or fails.
- `Math.random`: the multiplier of entry `i` is the argument `pick(i)`, constrained to [1000, 2000].
- Floating point: numbers are exact reals. IEEE rounding of `population * multiplier / rate` and of `Number(...)` is not modelled, and neither is `toFixed(2)`. A JSON number literal too large for a double, which `JSON.parse` reads as `Infinity`, is read as its exact real.
- Values.ToNumber: does not read `Infinity`, hexadecimal, octal or binary literals; the model gives NaN for them.
- Normalize.Price: a non-string truthy currency code (a number, say) is never found in the rate table. JavaScript would convert it to its string form first.
- Refresh.RateTable: a `rates` value that is not a plain object is treated as an empty table. For an array, JavaScript's `hasOwnProperty` would find its indices and `length`; no currency code has that form.
- Normalize.NormalizeEntry: a truthy number or boolean `name` is treated as a failing write, where MySQL would convert it to text. An object `name` makes the statement fail, as modelled, and an array would be expanded into its items by the driver, which the model does not follow.
- The `NOT NULL`, `BIGINT`, `VARCHAR` and `DOUBLE` column types: values are stored as the handler passed them, with no truncation or rounding.
- MySQL collation: names are unique as exact strings, and `LOWER` folds only ASCII letters.
- `NOW()` and the per-row `last_refreshed_at` column: the clock is the argument `now`, and the per-row column is not modelled.
- Queries.GetCountryByName: returns all matching rows. Which one `rows[0]` picks is not modelled.
- Executing the `getCountries` query: the SQL text and its parameters are modelled, but not the rows MySQL returns or a failure of that query (500).
- Queries.Text: only the base query and the two filters are proved to spell out as the handler's text. The order clauses are stated as word sequences.
- Summary image rendering, `getSummaryImage` and file I/O: only "image generation may fail after commit" is modelled.
- `getStatus`: a read of two values with date formatting.
- server.js, the router registration and init.js: framework wiring and bootstrap. init.js serves only for the unique, non-null `name` and the initial null timestamp.
- Refresh.RefreshCountries: a failing `conn.beginTransaction()` is not a separate fault. It takes the same path as a failing commit (`faults.commit`): the catch rolls back and answers 500, and no row changes.
- A failing rollback, and connection release: the model treats every rollback as successful.
- Concurrency: interleaved refreshes and requests, and the connection pool.
- ManualInsert.AddCountry: the key order of the `details` object is not modelled, since a map is unordered.
