/** The relational store behind the service, as an abstract map: the
    `countries` table keyed by its unique `name` column (init.js), the
    `last_refreshed_at` entry of the `metadata` table, and the one
    connection the refresh holds a transaction on. SQL text is not
    interpreted; each statement the handlers issue is the map operation it
    performs. */
module Store {
  import opened Values

  /** A row of `countries` without its `id` and `last_refreshed_at`
      columns. Nullable columns hold `Null` for SQL NULL, otherwise the
      value the handler passed. */
  datatype Country = Country(
    name: string,
    capital: Js,
    region: Js,
    population: real,
    currencyCode: Js,
    exchangeRate: Js,
    estimatedGdp: Js,
    flagUrl: Js)

  type Rows = map<string, Country>

  /** Every row is filed under its own name: the unique key `uq_name`. */
  ghost predicate Keyed(rows: Rows) {
    forall k :: k in rows ==> rows[k].name == k
  }

  // ---------------------------------------------------------------------
  // `LOWER(name) = LOWER(?)`, with case folding restricted to ASCII

  function LowerChar(c: char): char {
    if 'A' <= c <= 'Z' then (c as int + 32) as char else c
  }

  function Lower(s: string): (r: string)
    ensures |r| == |s|
    ensures forall i :: 0 <= i < |s| ==> r[i] == LowerChar(s[i])
  {
    seq(|s|, i requires 0 <= i < |s| => LowerChar(s[i]))
  }

  /** Whether a row named `name` matches the lookup key `key`. */
  predicate SameName(name: string, key: string) {
    Lower(name) == Lower(key)
  }

  /** The names of the rows `LOWER(name) = LOWER(key)` selects. */
  function Matching(rows: Rows, key: string): (ks: set<string>)
    ensures forall k :: k in ks <==> k in rows && SameName(k, key)
    ensures forall k :: k in ks <==>
      && k in rows
      && |k| == |key|
      && forall i :: 0 <= i < |k| ==> LowerChar(k[i]) == LowerChar(key[i])
  {
    var ks := set k | k in rows && SameName(k, key);
    forall k | k in rows && |k| == |key| && (forall i :: 0 <= i < |k| ==> LowerChar(k[i]) == LowerChar(key[i]))
      ensures k in ks
    {
      assert Lower(k) == Lower(key);
    }
    ks
  }

  /** The table after `DELETE ... WHERE LOWER(name) = LOWER(key)`. */
  function WithoutName(rows: Rows, key: string): (r: Rows)
    ensures forall k :: k in r <==> k in rows && !SameName(k, key)
    ensures forall k :: k in r ==> r[k] == rows[k]
  {
    rows - Matching(rows, key)
  }

  /** Lower-casing ASCII letters is idempotent, so `SameName` compares
      names as a case-insensitive equivalence. */
  lemma {:induction false} LowerIdempotent(s: string)
    ensures Lower(Lower(s)) == Lower(s)
  {
    forall i | 0 <= i < |s| ensures Lower(Lower(s))[i] == Lower(s)[i] {
      var c := s[i];
      if 'A' <= c <= 'Z' {
        assert LowerChar(c) == (c as int + 32) as char;
        assert 'a' <= LowerChar(c) <= 'z';
      }
    }
  }

  lemma SameNameIsEquivalence(a: string, b: string, c: string)
    ensures SameName(a, a)
    ensures SameName(a, b) ==> SameName(b, a)
    ensures SameName(a, b) && SameName(b, c) ==> SameName(a, c)
    ensures SameName(a, Lower(a))
  {
    LowerIdempotent(a);
  }

  /** The tables, as the pool's autocommitting statements see them. */
  class Database {
    var countries: Rows
    var lastRefreshedAt: Option<int>

    ghost predicate Valid()
      reads this
    {
      Keyed(countries)
    }

    /** The tables init.js creates: no countries and a null
        `last_refreshed_at`. */
    constructor ()
      ensures Valid()
      ensures countries == map[] && lastRefreshedAt == None
    {
      countries := map[];
      lastRefreshedAt := None;
    }

    /** `INSERT ... ON DUPLICATE KEY UPDATE` keyed on `name`: inserts the
        row, or overwrites every other column of the row with that name. */
    method Upsert(c: Country)
      requires Valid()
      modifies this`countries
      ensures Valid()
      ensures countries == old(countries)[c.name := c]
    {
      countries := countries[c.name := c];
    }

    /** The metadata upsert of `last_refreshed_at` to `NOW()`. */
    method SetLastRefreshed(now: int)
      modifies this`lastRefreshedAt
      ensures lastRefreshedAt == Some(now)
    {
      lastRefreshedAt := Some(now);
    }

    /** `DELETE FROM countries WHERE LOWER(name) = LOWER(key)`, giving
        the number of affected rows. */
    method DeleteByName(key: string) returns (affected: nat)
      requires Valid()
      modifies this`countries
      ensures Valid()
      ensures countries == WithoutName(old(countries), key)
      ensures affected == |Matching(old(countries), key)|
      ensures affected == 0 <==> forall k :: k in old(countries) ==> !SameName(k, key)
    {
      var hits := Matching(countries, key);
      countries := countries - hits;
      affected := |hits|;
      if affected == 0 {
        assert forall k :: k in old(countries) ==> k !in hits;
      } else {
        var k :| k in hits;
      }
    }
  }

  /** A pooled connection: its statements act on the shared tables, and
      `BeginTransaction` ... `Commit` / `Rollback` bracket them. */
  class Connection {
    const db: Database
    var inTransaction: bool
    var savedCountries: Rows
    var savedLastRefreshedAt: Option<int>

    ghost predicate Valid()
      reads this, db
    {
      db.Valid() && Keyed(savedCountries)
    }

    /** `pool.getConnection()`: no transaction is open on a fresh one. */
    constructor (db: Database)
      requires db.Valid()
      ensures Valid() && this.db == db && !inTransaction
    {
      this.db := db;
      inTransaction := false;
      savedCountries := map[];
      savedLastRefreshedAt := None;
    }

    method BeginTransaction()
      requires Valid()
      modifies this
      ensures Valid() && inTransaction
      ensures savedCountries == db.countries && savedLastRefreshedAt == db.lastRefreshedAt
    {
      inTransaction := true;
      savedCountries := db.countries;
      savedLastRefreshedAt := db.lastRefreshedAt;
    }

    /** Makes the open transaction's writes permanent. */
    method Commit()
      requires Valid()
      modifies this`inTransaction
      ensures Valid() && !inTransaction
    {
      inTransaction := false;
    }

    /** Undoes every write since `BeginTransaction`; with no transaction
        open (after a commit) it changes nothing. */
    method Rollback()
      requires Valid()
      modifies this`inTransaction, db
      ensures Valid() && !inTransaction
      ensures old(inTransaction) ==>
        db.countries == savedCountries && db.lastRefreshedAt == savedLastRefreshedAt
      ensures !old(inTransaction) ==>
        db.countries == old(db.countries) && db.lastRefreshedAt == old(db.lastRefreshedAt)
    {
      if inTransaction {
        db.countries := savedCountries;
        db.lastRefreshedAt := savedLastRefreshedAt;
      }
      inTransaction := false;
    }
  }
}
