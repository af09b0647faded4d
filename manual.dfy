/** The manual insert of routes/countryRoutes.js (`POST /countries`): the
    request body is validated field by field, the failures are collected
    in an `errors` object, and a valid body is upserted by name. */
module ManualInsert {
  import opened Values
  import opened Store
  import Queries

  datatype AddResponse =
    | Added
    | ValidationFailed(details: map<string, string>)
    | AddFailed
  {
    function Status(): int {
      match this
      case Added => 201
      case ValidationFailed(_) => 400
      case AddFailed => 500
    }
  }

  const Required := "is required"
  const PositiveRequired := "is required and must be a positive number"

  /** `!v || typeof v !== "string" || !v.trim()`: the test applied to
      `name` and to `currency_code`. */
  predicate MissingText(v: Js) {
    !Truthy(v) || !v.Str? || Trim(v.s) == ""
  }

  /** `v === undefined || v === null || isNaN(v) || Number(v) <= 0`;
      `isNaN` converts its argument with `Number` first. */
  predicate BadPopulation(v: Js) {
    v.Undefined? || v.Null? || ToNumber(v).NaN? || ToNumber(v).value <= 0.0
  }

  /** The three checks all pass. */
  predicate Passes(body: Js) {
    && !MissingText(Prop(body, "name"))
    && !BadPopulation(Prop(body, "population"))
    && !MissingText(Prop(body, "currency_code"))
  }

  /** The `errors` object the handler collects: a message under each
      field that fails its check, and nothing else. */
  function ValidationErrors(body: Js): (errors: map<string, string>)
    ensures "name" in errors <==> MissingText(Prop(body, "name"))
    ensures "population" in errors <==> BadPopulation(Prop(body, "population"))
    ensures "currency_code" in errors <==> MissingText(Prop(body, "currency_code"))
    ensures forall k :: k in errors ==> k in {"name", "population", "currency_code"}
    ensures "name" in errors ==> errors["name"] == Required
    ensures "population" in errors ==> errors["population"] == PositiveRequired
    ensures "currency_code" in errors ==> errors["currency_code"] == Required
    ensures errors == map[] <==> Passes(body)
  {
    var e1: map<string, string> := if MissingText(Prop(body, "name")) then map["name" := Required] else map[];
    var e2 := if BadPopulation(Prop(body, "population")) then e1["population" := PositiveRequired] else e1;
    var e3 := if MissingText(Prop(body, "currency_code")) then e2["currency_code" := Required] else e2;
    assert "name" in e3 <==> "name" in e1;
    e3
  }

  /** The row a valid body is stored as: trimmed name and currency code,
      `Number(population)`, and every optional field `|| null`. */
  function RecordOf(body: Js): Country
    requires Passes(body)
  {
    var name := Prop(body, "name");
    var code := Prop(body, "currency_code");
    Country(Trim(name.s), OrNull(Prop(body, "capital")), OrNull(Prop(body, "region")),
            ToNumber(Prop(body, "population")).value, Str(Trim(code.s)),
            OrNull(Prop(body, "exchange_rate")), OrNull(Prop(body, "estimated_gdp")),
            OrNull(Prop(body, "flag_url")))
  }

  /** The handler. A nullish body makes the destructuring throw (500);
      a body failing a check gets 400 with the collected errors; a failing
      statement gets 500; otherwise the row is upserted and 201 sent. */
  method AddCountry(db: Database, body: Js, writeFails: bool) returns (res: AddResponse)
    requires db.Valid()
    modifies db`countries
    ensures db.Valid()
    ensures Nullish(body) ==> res == AddFailed && db.countries == old(db.countries)
    ensures !Nullish(body) && !Passes(body) ==>
      res == ValidationFailed(ValidationErrors(body)) && db.countries == old(db.countries)
    ensures !Nullish(body) && Passes(body) && writeFails ==>
      res == AddFailed && db.countries == old(db.countries)
    ensures !Nullish(body) && Passes(body) && !writeFails ==>
      res == Added && db.countries == old(db.countries)[RecordOf(body).name := RecordOf(body)]
  {
    if Nullish(body) {
      return AddFailed;
    }
    var name := Prop(body, "name");
    var population := Prop(body, "population");
    var code := Prop(body, "currency_code");
    var errors: map<string, string> := map[];
    if MissingText(name) {
      errors := errors["name" := Required];
    }
    ghost var e1 := errors;
    if BadPopulation(population) {
      errors := errors["population" := PositiveRequired];
    }
    ghost var e2 := errors;
    if MissingText(code) {
      errors := errors["currency_code" := Required];
    }
    assert errors == ValidationErrors(body) by {
      assert e1 == if MissingText(name) then map["name" := Required] else map[];
      assert e2 == if BadPopulation(population) then e1["population" := PositiveRequired] else e1;
      assert errors == if MissingText(code) then e2["currency_code" := Required] else e2;
    }
    if errors != map[] {
      return ValidationFailed(errors);
    }
    if writeFails {
      return AddFailed;
    }
    db.Upsert(RecordOf(body));
    res := Added;
  }

  /** A row as a well-formed manual insert leaves it: a non-empty name and
      currency code without surrounding white space, a positive population,
      and every optional column either a truthy value or null. */
  predicate WellFormed(c: Country) {
    && c.name != "" && Trim(c.name) == c.name
    && c.population > 0.0
    && c.currencyCode.Str? && c.currencyCode.s != "" && Trim(c.currencyCode.s) == c.currencyCode.s
    && (Truthy(c.capital) || c.capital == Null)
    && (Truthy(c.region) || c.region == Null)
    && (Truthy(c.exchangeRate) || c.exchangeRate == Null)
    && (Truthy(c.estimatedGdp) || c.estimatedGdp == Null)
    && (Truthy(c.flagUrl) || c.flagUrl == Null)
  }

  /** Every row stored from a valid body is well formed; name and code
      are the trimmed strings sent, and a falsy optional field (a `0` rate
      or estimate, an empty string) is stored as null. */
  lemma StoredRowWellFormed(body: Js)
    requires Passes(body)
    ensures WellFormed(RecordOf(body))
    ensures RecordOf(body).name == Trim(Prop(body, "name").s)
    ensures RecordOf(body).currencyCode == Str(Trim(Prop(body, "currency_code").s))
    ensures ToNumber(Prop(body, "population")) == Finite(RecordOf(body).population)
    ensures !Truthy(Prop(body, "exchange_rate")) ==> RecordOf(body).exchangeRate == Null
    ensures !Truthy(Prop(body, "estimated_gdp")) ==> RecordOf(body).estimatedGdp == Null
    ensures !Truthy(Prop(body, "capital")) ==> RecordOf(body).capital == Null
    ensures !Truthy(Prop(body, "region")) ==> RecordOf(body).region == Null
    ensures !Truthy(Prop(body, "flag_url")) ==> RecordOf(body).flagUrl == Null
  {
    TrimShape(Prop(body, "name").s);
    TrimShape(Prop(body, "currency_code").s);
  }

  /** The request body that carries a row's columns. */
  function BodyOf(c: Country): Js {
    Obj(map[
      "name" := Str(c.name),
      "capital" := c.capital,
      "region" := c.region,
      "population" := Num(c.population),
      "currency_code" := c.currencyCode,
      "exchange_rate" := c.exchangeRate,
      "estimated_gdp" := c.estimatedGdp,
      "flag_url" := c.flagUrl])
  }

  /** A well-formed row sent back as a body passes every check and is
      stored exactly as it was. */
  lemma WellFormedRoundTrip(c: Country)
    requires WellFormed(c)
    ensures Passes(BodyOf(c))
    ensures RecordOf(BodyOf(c)) == c
  {
    var body := BodyOf(c);
    assert Prop(body, "name") == Str(c.name);
    assert Prop(body, "population") == Num(c.population);
    assert Prop(body, "currency_code") == c.currencyCode;
    assert Prop(body, "capital") == c.capital;
    assert Prop(body, "region") == c.region;
    assert Prop(body, "exchange_rate") == c.exchangeRate;
    assert Prop(body, "estimated_gdp") == c.estimatedGdp;
    assert Prop(body, "flag_url") == c.flagUrl;
  }

  /** Blank text (empty or white space only) fails the `name` and
      `currency_code` checks; so does anything that is not a string. */
  lemma BlankTextRejected(s: string, v: Js)
    requires AllSpace(s)
    ensures MissingText(Str(s))
    ensures !v.Str? ==> MissingText(v)
  {
    TrimEmptyIffAllSpace(s);
  }

  /** `population` as `Number` reads it: zero, negatives, null, `false`
      and the empty array are rejected; a positive number is accepted. */
  lemma PopulationSign(x: real)
    ensures x <= 0.0 ==> BadPopulation(Num(x))
    ensures x > 0.0 ==> !BadPopulation(Num(x))
    ensures BadPopulation(Null) && BadPopulation(Bool(false)) && BadPopulation(Arr([]))
  {
  }

  /** The decimal spelling of a positive number is accepted, and so is a
      one-element array holding it; `"0"` is rejected. */
  lemma PopulationDigits(n: nat)
    ensures n > 0 <==> !BadPopulation(Str(NatToString(n)))
    ensures n > 0 <==> !BadPopulation(Arr([Str(NatToString(n))]))
  {
    NumberOfNatString(n);
  }

  /** The empty string and white space read as 0 and are rejected. */
  lemma PopulationBlank(blank: string)
    requires AllSpace(blank)
    ensures BadPopulation(Str(blank))
  {
    TrimEmptyIffAllSpace(blank);
  }

  /** A stored row is what a lookup by its trimmed name, in any case,
      finds. */
  lemma AddedIsFound(rows: Rows, body: Js, asked: string)
    requires Passes(body)
    requires Lower(asked) == Lower(Trim(Prop(body, "name").s))
    ensures var after := rows[RecordOf(body).name := RecordOf(body)];
      && Queries.GetCountryByName(after, asked, false).CountryFound?
      && RecordOf(body) in Queries.GetCountryByName(after, asked, false).rows
  {
    var after := rows[RecordOf(body).name := RecordOf(body)];
    Queries.LookupIgnoresCase(after, RecordOf(body).name, asked);
  }
}
