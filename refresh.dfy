/** `refreshCountries` (controllers/countryController.js): fetch the
    country list, then the rate table, then upsert one row per entry and
    the refresh timestamp inside one transaction, commit, render the
    summary image and count the rows.

    The two HTTP calls are inputs (`Fetch`), the random multiplier of entry
    `i` is `pick(i)`, the wall clock is `now`, and the failures of the
    database and of the image renderer are `Faults`. */
module Refresh {
  import opened Values
  import opened Store
  import opened Normalize

  /** The outcome of one `axios.get`. */
  datatype Fetch = Fetched(data: Js) | FetchFailed

  datatype Provider = RestCountries | ExchangeRates

  /** Which steps fail: taking a connection from the pool, the
      statements of the transaction by position (the upsert of entry `i`
      is statement `i`, the metadata write is statement `|entries|`), the
      commit, the image generation and the final count query. */
  datatype Faults = Faults(connection: bool, statements: set<nat>, commit: bool, image: bool, count: bool)

  /** What the handler answers. `Escaped` is a rejection that escapes the
      handler: `pool.getConnection()` runs outside its `try`, so when it
      rejects the handler's `catch` does not run; the handler writes no
      response of its own and rolls nothing back, and what the client
      receives is up to Express. */
  datatype RefreshResponse =
    | Refreshed(total: nat)
    | SourceUnavailable(details: string)
    | RefreshFailed
    | Escaped
  {
    function Status(): int
      requires !Escaped?
    {
      match this
      case Refreshed(_) => 200
      case SourceUnavailable(_) => 503
      case RefreshFailed => 500
    }
  }

  const CountriesDown := "Could not fetch data from restcountries.com"
  const RatesDown := "Could not fetch data from open.er-api.com"

  /** What `for (const c of data)` iterates over: the items of an array,
      the code points of a string; anything else is not iterable and
      throws. */
  function Entries(data: Js): (r: Option<seq<Js>>)
    ensures r.Some? <==> data.Arr? || data.Str?
    ensures data.Arr? ==> r == Some(data.items)
    ensures data.Str? ==> |r.value| == |data.s| && forall i :: 0 <= i < |data.s| ==> r.value[i] == Str([data.s[i]])
  {
    match data
    case Arr(items) => Some(items)
    case Str(s) => Some(seq(|s|, i requires 0 <= i < |s| => Str([s[i]])))
    case _ => None
  }

  /** `ratesRes.data?.rates || {}`, as a table of own properties. */
  function RateTable(data: Js): map<string, Js> {
    var r := Prop(data, "rates");
    if r.Obj? then r.fields else map[]
  }

  ghost predicate ValidPick(pick: nat -> int) {
    forall i: nat :: ValidMultiplier(pick(i))
  }

  /** The rows the upsert loop writes, in loop order, or None when one of
      its statements fails. */
  function Batch(entries: seq<Js>, rates: map<string, Js>, pick: nat -> int, failing: set<nat>): (b: Option<seq<Country>>)
    requires ValidPick(pick)
    ensures b.Some? <==> forall i :: 0 <= i < |entries| ==>
      i !in failing && NormalizeEntry(entries[i], rates, pick(i)).Some?
    ensures b.Some? ==>
      && |b.value| == |entries|
      && forall i :: 0 <= i < |entries| ==> NormalizeEntry(entries[i], rates, pick(i)) == Some(b.value[i])
  {
    if |entries| == 0 then Some([])
    else
      var n := |entries| - 1;
      match Batch(entries[..n], rates, pick, failing)
      case None => None
      case Some(rows) =>
        var r := NormalizeEntry(entries[n], rates, pick(n));
        if r.None? || n in failing then None else Some(rows + [r.value])
  }

  /** The table after upserting `recs` one by one, in order. */
  function ApplyAll(rows: Rows, recs: seq<Country>): Rows {
    if recs == [] then rows
    else
      var last := recs[|recs| - 1];
      ApplyAll(rows, recs[..|recs| - 1])[last.name := last]
  }

  /** The table a refresh leaves once both fetches have succeeded, or None
      when the transaction is rolled back: the data is not iterable, an
      upsert or the metadata write fails, or the commit does. */
  function Staged(rows: Rows, data: Js, rates: map<string, Js>, pick: nat -> int, faults: Faults): Option<Rows>
    requires ValidPick(pick)
  {
    match Entries(data)
    case None => None
    case Some(entries) =>
      match Batch(entries, rates, pick, faults.statements)
      case None => None
      case Some(recs) =>
        if |entries| in faults.statements || faults.commit then None
        else Some(ApplyAll(rows, recs))
  }

  /** The upsert of a name overwrites the row written for that name
      before it: the row a name ends with is its last record in the batch. */
  lemma {:induction false} ApplyAllLastWins(rows: Rows, recs: seq<Country>, i: nat)
    requires i < |recs|
    requires forall j :: i < j < |recs| ==> recs[j].name != recs[i].name
    ensures recs[i].name in ApplyAll(rows, recs) && ApplyAll(rows, recs)[recs[i].name] == recs[i]
  {
    if i < |recs| - 1 {
      ApplyAllLastWins(rows, recs[..|recs| - 1], i);
    }
  }

  /** Upserts never delete: a name no record carries keeps its row, or
      its absence. */
  lemma {:induction false} ApplyAllFrame(rows: Rows, recs: seq<Country>, k: string)
    requires forall j :: 0 <= j < |recs| ==> recs[j].name != k
    ensures k in ApplyAll(rows, recs) <==> k in rows
    ensures k in rows ==> ApplyAll(rows, recs)[k] == rows[k]
  {
    if recs != [] {
      ApplyAllFrame(rows, recs[..|recs| - 1], k);
    }
  }

  /** The table's names are its old names and the batch's. */
  lemma {:induction false} ApplyAllKeys(rows: Rows, recs: seq<Country>)
    ensures ApplyAll(rows, recs).Keys == rows.Keys + set j | 0 <= j < |recs| :: recs[j].name
  {
    if recs != [] {
      var init := recs[..|recs| - 1];
      ApplyAllKeys(rows, init);
      var names := set j | 0 <= j < |recs| :: recs[j].name;
      var initNames := set j | 0 <= j < |init| :: init[j].name;
      assert names == initNames + {recs[|recs| - 1].name} by {
        forall x | x in names ensures x in initNames + {recs[|recs| - 1].name} {
          var j :| 0 <= j < |recs| && recs[j].name == x;
          if j < |init| {
            assert init[j].name == x;
          }
        }
      }
    }
  }

  /** The transaction commits exactly when the data is iterable, every
      entry is non-null with a non-empty string name, and neither an
      upsert, the metadata write nor the commit fails. */
  lemma StagedSucceedsIff(rows: Rows, data: Js, rates: map<string, Js>, pick: nat -> int, faults: Faults)
    requires ValidPick(pick)
    ensures Staged(rows, data, rates, pick, faults).Some? <==>
      && Entries(data).Some?
      && (forall i :: 0 <= i < |Entries(data).value| ==> UsableEntry(Entries(data).value[i]))
      && (forall i :: 0 <= i <= |Entries(data).value| ==> i !in faults.statements)
      && !faults.commit
  {
    match Entries(data)
    case None =>
    case Some(entries) =>
      var n := |entries|;
      var b := Batch(entries, rates, pick, faults.statements);
      assert b.Some? <==>
        (forall i :: 0 <= i < n ==> i !in faults.statements) && (forall i :: 0 <= i < n ==> UsableEntry(entries[i]));
      assert (forall i :: 0 <= i <= n ==> i !in faults.statements) <==>
        (forall i :: 0 <= i < n ==> i !in faults.statements) && n !in faults.statements;
  }

  /** A committed refresh leaves, under each name of the batch, the row
      normalised from the last entry with that name. */
  lemma StagedLastEntryWins(rows: Rows, data: Js, rates: map<string, Js>, pick: nat -> int, faults: Faults, i: nat)
    requires ValidPick(pick)
    requires Staged(rows, data, rates, pick, faults).Some?
    requires i < |Entries(data).value|
    requires forall j :: i < j < |Entries(data).value| ==>
      Prop(Entries(data).value[j], "name") != Prop(Entries(data).value[i], "name")
    ensures var entry := Entries(data).value[i];
      var after := Staged(rows, data, rates, pick, faults).value;
      && Prop(entry, "name").Str?
      && Prop(entry, "name").s in after
      && Some(after[Prop(entry, "name").s]) == NormalizeEntry(entry, rates, pick(i))
  {
    var entries := Entries(data).value;
    var recs := Batch(entries, rates, pick, faults.statements).value;
    forall j | i < j < |recs| ensures recs[j].name != recs[i].name {
      assert NormalizeEntry(entries[j], rates, pick(j)) == Some(recs[j]);
    }
    ApplyAllLastWins(rows, recs, i);
  }

  /** A committed refresh leaves the row of every name no entry carries as
      it was: upserts never delete. */
  lemma StagedKeepsOtherRows(rows: Rows, data: Js, rates: map<string, Js>, pick: nat -> int, faults: Faults, k: string)
    requires ValidPick(pick)
    requires Staged(rows, data, rates, pick, faults).Some?
    requires forall i :: 0 <= i < |Entries(data).value| ==> Prop(Entries(data).value[i], "name") != Str(k)
    ensures var after := Staged(rows, data, rates, pick, faults).value;
      && (k in after <==> k in rows)
      && (k in rows ==> after[k] == rows[k])
  {
    var entries := Entries(data).value;
    var recs := Batch(entries, rates, pick, faults.statements).value;
    forall j | 0 <= j < |recs| ensures recs[j].name != k {
      assert NormalizeEntry(entries[j], rates, pick(j)) == Some(recs[j]);
    }
    ApplyAllFrame(rows, recs, k);
  }

  /** After a committed refresh every row either satisfies the pricing
      rules under the rates just fetched or is a row the refresh did not
      write, left exactly as it was. */
  lemma StagedRowsPriced(rows: Rows, data: Js, rates: map<string, Js>, pick: nat -> int, faults: Faults)
    requires ValidPick(pick)
    requires Staged(rows, data, rates, pick, faults).Some?
    ensures var after := Staged(rows, data, rates, pick, faults).value;
      forall k :: k in after ==> PricedRecord(after[k], rates) || (k in rows && after[k] == rows[k])
  {
    var entries := Entries(data).value;
    var recs := Batch(entries, rates, pick, faults.statements).value;
    forall j | 0 <= j < |recs| ensures PricedRecord(recs[j], rates) {
      assert NormalizeEntry(entries[j], rates, pick(j)) == Some(recs[j]);
      NormalizedIsPriced(entries[j], rates, pick(j));
    }
    AllPriced(rows, recs, rates);
  }

  lemma {:induction false} AllPriced(rows: Rows, recs: seq<Country>, rates: map<string, Js>)
    requires forall j :: 0 <= j < |recs| ==> PricedRecord(recs[j], rates)
    ensures forall k :: k in ApplyAll(rows, recs) ==>
      PricedRecord(ApplyAll(rows, recs)[k], rates) || (k in rows && ApplyAll(rows, recs)[k] == rows[k])
  {
    if recs != [] {
      AllPriced(rows, recs[..|recs| - 1], rates);
    }
  }

  /** `ApplyAll` keeps every row filed under its own name. */
  lemma {:induction false} ApplyAllKeyed(rows: Rows, recs: seq<Country>)
    requires Keyed(rows)
    ensures Keyed(ApplyAll(rows, recs))
  {
    if recs != [] {
      ApplyAllKeyed(rows, recs[..|recs| - 1]);
    }
  }

  /** One more successful upsert extends the batch by its row. */
  lemma BatchStep(entries: seq<Js>, rates: map<string, Js>, pick: nat -> int, failing: set<nat>,
                  i: nat, written: seq<Country>, row: Country)
    requires ValidPick(pick)
    requires i < |entries|
    requires Batch(entries[..i], rates, pick, failing) == Some(written)
    requires NormalizeEntry(entries[i], rates, pick(i)) == Some(row) && i !in failing
    ensures Batch(entries[..i + 1], rates, pick, failing) == Some(written + [row])
  {
    assert entries[..i + 1][..i] == entries[..i];
  }

  /** One failing entry fails the whole batch. */
  lemma BatchFailsAt(entries: seq<Js>, rates: map<string, Js>, pick: nat -> int, failing: set<nat>, i: nat)
    requires ValidPick(pick)
    requires i < |entries|
    requires NormalizeEntry(entries[i], rates, pick(i)).None? || i in failing
    ensures Batch(entries, rates, pick, failing).None?
  {
  }

  /** The upsert loop of the refresh: one upsert per entry, in order,
      stopping at the first entry whose handling throws or whose statement
      fails. */
  method UpsertEntries(db: Database, entries: seq<Js>, rates: map<string, Js>,
                       pick: nat -> int, failing: set<nat>) returns (ok: bool)
    requires db.Valid() && ValidPick(pick)
    modifies db`countries
    ensures db.Valid()
    ensures ok <==> Batch(entries, rates, pick, failing).Some?
    ensures ok ==> db.countries == ApplyAll(old(db.countries), Batch(entries, rates, pick, failing).value)
  {
    ghost var written: seq<Country> := [];
    ok := true;
    var i := 0;
    while i < |entries| && ok
      invariant 0 <= i <= |entries|
      invariant db.Valid()
      invariant ok ==> Batch(entries[..i], rates, pick, failing) == Some(written)
      invariant ok ==> db.countries == ApplyAll(old(db.countries), written)
      invariant !ok ==> Batch(entries, rates, pick, failing).None?
    {
      var row := NormalizeEntry(entries[i], rates, pick(i));
      if row.None? || i in failing {
        BatchFailsAt(entries, rates, pick, failing, i);
        ok := false;
        i := i + 1;
      } else {
        ghost var next := written + [row.value];
        db.Upsert(row.value);
        assert next[..|written|] == written;
        assert db.countries == ApplyAll(old(db.countries), next);
        BatchStep(entries, rates, pick, failing, i, written, row.value);
        written := next;
        i := i + 1;
        assert Batch(entries[..i], rates, pick, failing) == Some(written);
      }
    }
    if ok {
      assert entries[..i] == entries;
    }
  }

  /** The refresh handler. `contacted` lists the providers called, in order. */
  method RefreshCountries(db: Database, countriesFetch: Fetch, ratesFetch: Fetch,
                          pick: nat -> int, faults: Faults, now: int)
    returns (res: RefreshResponse, contacted: seq<Provider>)
    requires db.Valid() && ValidPick(pick)
    modifies db
    ensures db.Valid()
    ensures countriesFetch.FetchFailed? ==>
      && contacted == [RestCountries]
      && res == SourceUnavailable(CountriesDown)
      && unchanged(db)
    ensures countriesFetch.Fetched? && ratesFetch.FetchFailed? ==>
      && contacted == [RestCountries, ExchangeRates]
      && res == SourceUnavailable(RatesDown)
      && unchanged(db)
    ensures countriesFetch.Fetched? && ratesFetch.Fetched? && faults.connection ==>
      && contacted == [RestCountries, ExchangeRates]
      && res == Escaped
      && unchanged(db)
    ensures countriesFetch.Fetched? && ratesFetch.Fetched? && !faults.connection ==>
      var staged := Staged(old(db.countries), countriesFetch.data, RateTable(ratesFetch.data), pick, faults);
      && contacted == [RestCountries, ExchangeRates]
      && (staged.None? ==>
            && res == RefreshFailed
            && db.countries == old(db.countries)
            && db.lastRefreshedAt == old(db.lastRefreshedAt))
      && (staged.Some? ==>
            && db.countries == staged.value
            && db.lastRefreshedAt == Some(now)
            && res == if faults.image || faults.count then RefreshFailed else Refreshed(|staged.value|))
  {
    contacted := [RestCountries];
    if countriesFetch.FetchFailed? {
      return SourceUnavailable(CountriesDown), contacted;
    }
    contacted := contacted + [ExchangeRates];
    if ratesFetch.FetchFailed? {
      return SourceUnavailable(RatesDown), contacted;
    }
    var rates := RateTable(ratesFetch.data);
    if faults.connection {
      return Escaped, contacted;
    }
    ghost var staged := Staged(db.countries, countriesFetch.data, rates, pick, faults);
    var conn := new Connection(db);

    conn.BeginTransaction();
    var failed := false;
    var entries := Entries(countriesFetch.data);
    if entries.None? {
      failed := true;
    } else {
      var ok := UpsertEntries(db, entries.value, rates, pick, faults.statements);
      failed := !ok;
      if !failed {
        if |entries.value| in faults.statements {
          failed := true;
        } else {
          db.SetLastRefreshed(now);
        }
      }
      if !failed {
        if faults.commit {
          failed := true;
        } else {
          conn.Commit();
        }
      }
    }
    assert failed <==> staged.None?;

    if failed {
      conn.Rollback();
      return RefreshFailed, contacted;
    }
    assert db.countries == staged.value;
    // Committed. The image and the count can still fail; the handler's
    // catch block then rolls back, which after the commit changes nothing.
    if faults.image || faults.count {
      conn.Rollback();
      return RefreshFailed, contacted;
    }
    res := Refreshed(|db.countries|);
  }
}
