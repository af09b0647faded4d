/** The read and delete handlers of controllers/countryController.js:
    the SQL text `getCountries` builds from its query parameters, and the
    case-insensitive lookup and delete by name. */
module Queries {
  import opened Values
  import opened Store

  // ---------------------------------------------------------------------
  // getCountries: the query text and its parameters
  //
  // Every fragment the handler appends is a run of words separated by
  // single spaces, so the query text is modelled as its word sequence:
  // the text is the words joined by " ", with "?" for a placeholder.

  datatype Sql = Word(w: string) | Placeholder

  const Select: seq<Sql> := [Word("SELECT"), Word("*"), Word("FROM"), Word("countries")]
  const RegionFilter: seq<Sql> := [Word("region"), Word("="), Placeholder]
  const CurrencyFilter: seq<Sql> := [Word("currency_code"), Word("="), Placeholder]
  const DescOrder: seq<Sql> := [Word("ORDER"), Word("BY"), Word("estimated_gdp"), Word("DESC")]
  const AscOrder: seq<Sql> := [Word("ORDER"), Word("BY"), Word("estimated_gdp"), Word("ASC")]

  /** Every word the handler can put into the query text. */
  const Vocabulary: set<string> :=
    {"SELECT", "*", "FROM", "countries", "WHERE", "AND", "region", "currency_code", "=",
     "ORDER", "BY", "estimated_gdp", "DESC", "ASC"}

  /** The query text, spelled out. */
  function Text(q: seq<Sql>): string {
    if q == [] then ""
    else if |q| == 1 then Spelling(q[0])
    else Spelling(q[0]) + " " + Text(q[1..])
  }

  function Spelling(t: Sql): string {
    if t.Word? then t.w else "?"
  }

  /** Consecutive fragments are separated by one space. */
  lemma {:induction false} TextAppend(a: seq<Sql>, b: seq<Sql>)
    requires a != [] && b != []
    ensures Text(a + b) == Text(a) + " " + Text(b)
  {
    var ab := a + b;
    assert ab[0] == a[0];
    if |a| == 1 {
      assert ab[1..] == b;
    } else {
      assert ab[1..] == a[1..] + b;
      TextAppend(a[1..], b);
      assert Text(ab) == Spelling(a[0]) + " " + (Text(a[1..]) + " " + Text(b));
    }
  }

  /** The text of the fixed fragments, as the handler writes them. */
  lemma SelectText()
    ensures Text(Select) == "SELECT * FROM countries"
  {
    assert Text([Word("countries")]) == "countries";
    assert Text([Word("FROM"), Word("countries")]) == "FROM countries";
    assert Text([Word("*"), Word("FROM"), Word("countries")]) == "* FROM countries";
  }

  lemma FilterTexts()
    ensures Text(RegionFilter) == "region = ?"
    ensures Text(CurrencyFilter) == "currency_code = ?"
  {
    assert Text([Placeholder]) == "?";
    assert Text([Word("="), Placeholder]) == "= ?";
  }

  datatype Sort = GdpDesc | GdpAsc | Unsorted

  /** `sort === "gdp_desc"` / `sort === "gdp_asc"`: strict equality, so
      only those two strings select an order. */
  function SortOf(sort: Js): (s: Sort)
    ensures s == GdpDesc <==> sort == Str("gdp_desc")
    ensures s == GdpAsc <==> sort == Str("gdp_asc")
  {
    if sort == Str("gdp_desc") then GdpDesc
    else if sort == Str("gdp_asc") then GdpAsc
    else Unsorted
  }

  function OrderClause(s: Sort): seq<Sql> {
    match s
    case GdpDesc => DescOrder
    case GdpAsc => AscOrder
    case Unsorted => []
  }

  /** `filters.join(" AND ")` */
  function JoinAnd(filters: seq<seq<Sql>>): seq<Sql> {
    if filters == [] then []
    else if |filters| == 1 then filters[0]
    else filters[0] + [Word("AND")] + JoinAnd(filters[1..])
  }

  /** The filters in the order the handler pushes them. */
  function Filters(byRegion: bool, byCurrency: bool): seq<seq<Sql>> {
    (if byRegion then [RegionFilter] else []) + (if byCurrency then [CurrencyFilter] else [])
  }

  /** The query for the given filters and order. Its arguments say which
      filters are present, not what they filter by: the values travel as
      parameters and never enter the text. */
  function ListQuery(byRegion: bool, byCurrency: bool, sort: Sort): seq<Sql> {
    var filters := Filters(byRegion, byCurrency);
    Select + (if filters != [] then [Word("WHERE")] + JoinAnd(filters) else []) + OrderClause(sort)
  }

  /** The query building of `getCountries`: a filter and a parameter for
      each truthy `region` / `currency`, then the order clause. */
  method BuildListQuery(region: Js, currency: Js, sort: Js) returns (query: seq<Sql>, params: seq<Js>)
    ensures query == ListQuery(Truthy(region), Truthy(currency), SortOf(sort))
    ensures params == (if Truthy(region) then [region] else []) + (if Truthy(currency) then [currency] else [])
  {
    query := Select;
    params := [];
    var filters: seq<seq<Sql>> := [];
    if Truthy(region) {
      filters := filters + [RegionFilter];
      params := params + [region];
    }
    if Truthy(currency) {
      filters := filters + [CurrencyFilter];
      params := params + [currency];
    }
    assert filters == Filters(Truthy(region), Truthy(currency));
    if |filters| > 0 {
      query := query + [Word("WHERE")] + JoinAnd(filters);
    }
    if sort == Str("gdp_desc") {
      query := query + DescOrder;
    } else if sort == Str("gdp_asc") {
      query := query + AscOrder;
    }
  }

  function Placeholders(q: seq<Sql>): nat {
    if q == [] then 0 else (if q[0] == Placeholder then 1 else 0) + Placeholders(q[1..])
  }

  lemma {:induction false} PlaceholdersAppend(a: seq<Sql>, b: seq<Sql>)
    ensures Placeholders(a + b) == Placeholders(a) + Placeholders(b)
  {
    if a == [] {
      assert a + b == b;
    } else {
      assert (a + b)[0] == a[0];
      assert (a + b)[1..] == a[1..] + b;
      PlaceholdersAppend(a[1..], b);
    }
  }

  lemma NoPlaceholders(a: seq<Sql>)
    requires Placeholder !in a
    ensures Placeholders(a) == 0
  {
    if a != [] {
      NoPlaceholders(a[1..]);
    }
  }

  /** The query holds one `?` per parameter, in the same order: the
      region's before the currency's. */
  lemma PlaceholdersMatchParams(byRegion: bool, byCurrency: bool, sort: Sort)
    ensures Placeholders(ListQuery(byRegion, byCurrency, sort)) ==
      (if byRegion then 1 else 0) + (if byCurrency then 1 else 0)
  {
    var filters := Filters(byRegion, byCurrency);
    var where := if filters != [] then [Word("WHERE")] + JoinAnd(filters) else [];
    NoPlaceholders(Select);
    NoPlaceholders(OrderClause(sort));
    NoPlaceholders([Word("WHERE")]);
    NoPlaceholders([Word("AND")]);
    assert Placeholders(RegionFilter) == 1 by {
      PlaceholdersAppend([Word("region"), Word("=")], [Placeholder]);
      NoPlaceholders([Word("region"), Word("=")]);
      assert RegionFilter == [Word("region"), Word("=")] + [Placeholder];
    }
    assert Placeholders(CurrencyFilter) == 1 by {
      PlaceholdersAppend([Word("currency_code"), Word("=")], [Placeholder]);
      NoPlaceholders([Word("currency_code"), Word("=")]);
      assert CurrencyFilter == [Word("currency_code"), Word("=")] + [Placeholder];
    }
    if byRegion && byCurrency {
      assert JoinAnd(filters) == RegionFilter + [Word("AND")] + CurrencyFilter;
      PlaceholdersAppend(RegionFilter, [Word("AND")]);
      PlaceholdersAppend(RegionFilter + [Word("AND")], CurrencyFilter);
    }
    if filters != [] {
      PlaceholdersAppend([Word("WHERE")], JoinAnd(filters));
    }
    PlaceholdersAppend(Select, where);
    PlaceholdersAppend(Select + where, OrderClause(sort));
  }

  /** Whatever the request, the query text uses only the handler's own
      words: no value from the request reaches it. */
  lemma QueryWordsFixed(byRegion: bool, byCurrency: bool, sort: Sort)
    ensures forall t :: t in ListQuery(byRegion, byCurrency, sort) ==> t.Placeholder? || t.w in Vocabulary
  {
    var filters := Filters(byRegion, byCurrency);
    forall t | t in JoinAnd(filters) ensures t.Placeholder? || t.w in Vocabulary {
      if byRegion && byCurrency {
        assert JoinAnd(filters) == RegionFilter + [Word("AND")] + CurrencyFilter;
      }
    }
  }

  /** `WHERE` follows the table name exactly when a filter is present;
      the region test comes before the currency test, joined by `AND`. */
  lemma WhereClause(byRegion: bool, byCurrency: bool, sort: Sort)
    ensures Word("WHERE") in ListQuery(byRegion, byCurrency, sort) <==> byRegion || byCurrency
    ensures byRegion && byCurrency ==>
      ListQuery(byRegion, byCurrency, sort) ==
        Select + [Word("WHERE")] + RegionFilter + [Word("AND")] + CurrencyFilter + OrderClause(sort)
    ensures byRegion && !byCurrency ==>
      ListQuery(byRegion, byCurrency, sort) == Select + [Word("WHERE")] + RegionFilter + OrderClause(sort)
    ensures !byRegion && byCurrency ==>
      ListQuery(byRegion, byCurrency, sort) == Select + [Word("WHERE")] + CurrencyFilter + OrderClause(sort)
  {
    if byRegion && byCurrency {
      assert JoinAnd(Filters(byRegion, byCurrency)) == RegionFilter + [Word("AND")] + CurrencyFilter;
    }
    if !byRegion && !byCurrency {
      assert ListQuery(byRegion, byCurrency, sort) == Select + OrderClause(sort);
    }
  }

  predicate EndsWith(q: seq<Sql>, suffix: seq<Sql>) {
    |suffix| <= |q| && q[|q| - |suffix|..] == suffix
  }

  /** `ORDER BY estimated_gdp DESC` ends the query exactly for `gdp_desc`,
      `... ASC` exactly for `gdp_asc`; any other value adds no `ORDER`. */
  lemma OrderClauseIff(byRegion: bool, byCurrency: bool, sort: Js)
    ensures EndsWith(ListQuery(byRegion, byCurrency, SortOf(sort)), DescOrder) <==> sort == Str("gdp_desc")
    ensures EndsWith(ListQuery(byRegion, byCurrency, SortOf(sort)), AscOrder) <==> sort == Str("gdp_asc")
    ensures Word("ORDER") in ListQuery(byRegion, byCurrency, SortOf(sort)) <==>
      sort == Str("gdp_desc") || sort == Str("gdp_asc")
  {
    var s := SortOf(sort);
    var filters := Filters(byRegion, byCurrency);
    var head := Select + (if filters != [] then [Word("WHERE")] + JoinAnd(filters) else []);
    var q := ListQuery(byRegion, byCurrency, s);
    assert q == head + OrderClause(s);
    var last := if byCurrency then Placeholder else if byRegion then Placeholder else Word("countries");
    if byRegion && byCurrency {
      assert JoinAnd(filters) == RegionFilter + [Word("AND")] + CurrencyFilter;
    }
    assert head[|head| - 1] == last;
    assert Word("ORDER") !in head;
    match s
    case GdpDesc =>
      assert q[|q| - 1] == Word("DESC");
    case GdpAsc =>
      assert q[|q| - 1] == Word("ASC");
    case Unsorted =>
      assert q == head;
  }

  // ---------------------------------------------------------------------
  // getCountryByName and deleteCountry

  datatype LookupResponse =
    | CountryFound(rows: set<Country>)
    | CountryNotFound
    | LookupFailed
  {
    function Status(): int {
      match this
      case CountryFound(_) => 200
      case CountryNotFound => 404
      case LookupFailed => 500
    }
  }

  /** `getCountryByName`: the rows whose name equals `name` up to ASCII
      case (the handler sends one of them), 404 when there is none, 500
      when the query fails. */
  function GetCountryByName(rows: Rows, name: string, queryFails: bool): (r: LookupResponse)
    ensures queryFails <==> r == LookupFailed
    ensures r == CountryNotFound <==> !queryFails && Matching(rows, name) == {}
    ensures r.CountryFound? ==>
      && r.rows != {}
      && forall c :: c in r.rows <==> exists k :: k in rows && SameName(k, name) && rows[k] == c
  {
    if queryFails then LookupFailed
    else
      var found := set k | k in Matching(rows, name) :: rows[k];
      assert found == {} <==> Matching(rows, name) == {} by {
        if Matching(rows, name) != {} {
          var k :| k in Matching(rows, name);
          assert rows[k] in found;
        }
      }
      if found == {} then
        CountryNotFound
      else
        CountryFound(found)
  }

  /** Whatever case a lookup is spelled in, it finds the row stored under
      a name equal to it up to ASCII case. */
  lemma LookupIgnoresCase(rows: Rows, stored: string, asked: string)
    requires stored in rows && Lower(stored) == Lower(asked)
    ensures GetCountryByName(rows, asked, false).CountryFound?
    ensures rows[stored] in GetCountryByName(rows, asked, false).rows
  {
    assert stored in Matching(rows, asked);
  }

  datatype DeleteResponse = CountryDeleted | DeleteNotFound | DeleteFailed {
    function Status(): int {
      match this
      case CountryDeleted => 200
      case DeleteNotFound => 404
      case DeleteFailed => 500
    }
  }

  /** `deleteCountry`: remove every row whose name equals `name` up to
      ASCII case; 404 when none did. A failing statement changes nothing. */
  method DeleteCountry(db: Database, name: string, queryFails: bool) returns (res: DeleteResponse)
    requires db.Valid()
    modifies db`countries
    ensures db.Valid()
    ensures queryFails ==> res == DeleteFailed && db.countries == old(db.countries)
    ensures !queryFails ==> db.countries == WithoutName(old(db.countries), name)
    ensures !queryFails ==> (res == DeleteNotFound <==> Matching(old(db.countries), name) == {})
    ensures !queryFails ==> (res == CountryDeleted <==> Matching(old(db.countries), name) != {})
  {
    if queryFails {
      return DeleteFailed;
    }
    var affected := db.DeleteByName(name);
    if affected == 0 {
      return DeleteNotFound;
    }
    res := CountryDeleted;
  }

  /** After a delete no row matches the name in any case, and every row
      that did not match is still there, unchanged. */
  lemma DeleteThenLookup(rows: Rows, name: string, other: string)
    ensures GetCountryByName(WithoutName(rows, name), name, false) == CountryNotFound
    ensures other in rows && !SameName(other, name) ==>
      other in WithoutName(rows, name) && WithoutName(rows, name)[other] == rows[other]
  {
    var after := WithoutName(rows, name);
    assert Matching(after, name) == {} by {
      forall k | k in after ensures !SameName(k, name) {
      }
    }
  }
}
