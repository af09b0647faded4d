/** How the refresh turns one entry of the restcountries.com list and the
    open.er-api.com rate table into a `countries` row
    (controllers/countryController.js, `computeGDP` and the body of the
    refresh loop). The random multiplier is an argument. */
module Normalize {
  import opened Values
  import opened Store

  /** `Math.floor(Math.random() * 1001) + 1000` lies in this range. */
  predicate ValidMultiplier(m: int) {
    1000 <= m <= 2000
  }

  /** `computeGDP`: population times the multiplier, per unit of the rate. */
  function ComputeGdp(population: real, exchangeRate: real, multiplier: int): (gdp: real)
    requires ValidMultiplier(multiplier)
    requires exchangeRate != 0.0
    ensures gdp * exchangeRate == population * multiplier as real
  {
    population * multiplier as real / exchangeRate
  }

  /** The estimate over the population, scaled by the rate, is the
      multiplier: for a positive population it lies in [1000, 2000], and
      for a positive rate the estimate lies between P*1000/R and P*2000/R. */
  lemma GdpRatioInRange(population: real, exchangeRate: real, multiplier: int)
    requires ValidMultiplier(multiplier)
    requires exchangeRate != 0.0
    ensures population != 0.0 ==>
      ComputeGdp(population, exchangeRate, multiplier) * exchangeRate / population == multiplier as real
    ensures population > 0.0 ==>
      1000.0 <= ComputeGdp(population, exchangeRate, multiplier) * exchangeRate / population <= 2000.0
    ensures population >= 0.0 && exchangeRate > 0.0 ==>
      population * 1000.0 / exchangeRate <= ComputeGdp(population, exchangeRate, multiplier)
        <= population * 2000.0 / exchangeRate
  {
    var m := multiplier as real;
    if population != 0.0 {
      CancelFactor(population, m);
    }
    if population >= 0.0 && exchangeRate > 0.0 {
      assert 1000.0 <= m <= 2000.0;
      GdpBetween(population, exchangeRate, m);
    }
  }

  lemma GdpBetween(p: real, r: real, m: real)
    requires p >= 0.0 && r > 0.0 && 1000.0 <= m <= 2000.0
    ensures p * 1000.0 / r <= p * m / r <= p * 2000.0 / r
  {
    ScaleMonotone(p, 1000.0, m);
    ScaleMonotone(p, m, 2000.0);
    DivideMonotone(p * 1000.0, p * m, r);
    DivideMonotone(p * m, p * 2000.0, r);
  }

  lemma CancelFactor(p: real, m: real)
    requires p != 0.0
    ensures p * m / p == m
  {
  }

  lemma ScaleMonotone(p: real, a: real, b: real)
    requires p >= 0.0 && a <= b
    ensures p * a <= p * b
  {
    assert p * b - p * a == p * (b - a);
  }

  lemma DivideMonotone(a: real, b: real, d: real)
    requires a <= b && d > 0.0
    ensures a / d <= b / d
  {
    assert b / d - a / d == (b - a) / d;
  }

  /** The `currency_code`, `exchange_rate` and `estimated_gdp` columns. */
  datatype Pricing = Pricing(code: Js, rate: Js, gdp: Js)

  /** `typeof c.population === "number" ? c.population : 0` */
  function PopulationOf(c: Js): real {
    var p := Prop(c, "population");
    if p.Num? then p.n else 0.0
  }

  /** `Array.isArray(c.currencies) ? c.currencies : []` */
  function CurrenciesOf(c: Js): seq<Js> {
    var l := Prop(c, "currencies");
    if l.Arr? then l.items else []
  }

  /** `currencies[0]?.code || null` */
  function FirstCode(currencies: seq<Js>): Js
    requires |currencies| > 0
  {
    OrNull(Prop(currencies[0], "code"))
  }

  /** Whether a rate entry is one the loop accepts: `Number(v)` neither
      NaN nor zero. */
  predicate UsableRate(v: Js) {
    ToNumber(v).Finite? && ToNumber(v).value != 0.0
  }

  /** The currency branch of the refresh loop, from the entry's currency
      list (an empty list when it is not an array). Only a string code can
      be found among the rates. A rate is stored only when it is a usable
      rate of the stored code, and then the estimate is population times
      the multiplier per unit of it; a null rate goes with a null
      estimate, except for an empty list, whose estimate is 0. */
  function Price(currencies: seq<Js>, population: real, rates: map<string, Js>, multiplier: int): (p: Pricing)
    requires ValidMultiplier(multiplier)
    ensures p.rate != Null ==>
      && p.code.Str? && p.code.s in rates && UsableRate(rates[p.code.s])
      && p.rate == Num(ToNumber(rates[p.code.s]).value)
      && p.gdp.Num? && p.gdp.n * p.rate.n == population * multiplier as real
    ensures p.rate == Null ==>
      if |currencies| == 0 then p.code == Null && p.gdp == Num(0.0) else p.gdp == Null
    ensures |currencies| == 0 ==> p == Pricing(Null, Null, Num(0.0))
    ensures |currencies| > 0 ==> p.code == FirstCode(currencies)
    ensures |currencies| > 0 ==>
      var code := FirstCode(currencies);
      code.Str? && code.s in rates && UsableRate(rates[code.s]) ==> p.rate != Null
  {
    if |currencies| == 0 then Pricing(Null, Null, Num(0.0))
    else
      var code := FirstCode(currencies);
      if code.Str? && code.s in rates && UsableRate(rates[code.s]) then
        var r := ToNumber(rates[code.s]).value;
        Pricing(code, Num(r), Num(ComputeGdp(population, r, multiplier)))
      else Pricing(code, Null, Null)
  }

  /** What every written row satisfies, whatever the entry: a null rate
      goes with a null estimate, or with an estimate of 0 and no currency
      code; a rate is a usable rate of the row's code, and the estimate is
      population * m / rate for an admissible multiplier m. */
  ghost predicate PricedRecord(c: Country, rates: map<string, Js>) {
    && (c.exchangeRate == Null ==>
          c.estimatedGdp == Null || (c.estimatedGdp == Num(0.0) && c.currencyCode == Null))
    && (c.exchangeRate != Null ==>
          && c.exchangeRate.Num? && c.exchangeRate.n != 0.0
          && c.currencyCode.Str? && c.currencyCode.s in rates
          && ToNumber(rates[c.currencyCode.s]) == Finite(c.exchangeRate.n)
          && c.estimatedGdp.Num?
          && exists m :: ValidMultiplier(m) &&
               c.estimatedGdp.n * c.exchangeRate.n == c.population * m as real)
  }

  /** An entry the loop can write: not null, with a non-empty string name. */
  predicate UsableEntry(c: Js) {
    !Nullish(c) && Prop(c, "name").Str? && Prop(c, "name").s != ""
  }

  /** The row the refresh loop writes for entry `c`, or None when handling
      the entry throws: `c` is null, so reading `c.name` is a TypeError, or
      its name is not a non-empty string, which the `NOT NULL` name column
      rejects. */
  function NormalizeEntry(c: Js, rates: map<string, Js>, multiplier: int): (r: Option<Country>)
    requires ValidMultiplier(multiplier)
    ensures r.Some? <==> UsableEntry(c)
    ensures r.Some? ==> r.value.name == Prop(c, "name").s
  {
    if Nullish(c) then None
    else
      var name := OrNull(Prop(c, "name"));
      if !name.Str? then None
      else
        var population := PopulationOf(c);
        var p := Price(CurrenciesOf(c), population, rates, multiplier);
        Some(Country(name.s, OrNull(Prop(c, "capital")), OrNull(Prop(c, "region")), population,
                     p.code, p.rate, p.gdp, OrNull(Prop(c, "flag"))))
  }

  /** The other columns of the row: a falsy capital, region or flag is
      stored as null and a truthy one as it is, and the population is the
      entry's number, or 0 when it has none. */
  lemma EntryColumns(c: Js, rates: map<string, Js>, multiplier: int)
    requires ValidMultiplier(multiplier)
    requires NormalizeEntry(c, rates, multiplier).Some?
    ensures var r := NormalizeEntry(c, rates, multiplier).value;
      && (Truthy(Prop(c, "capital")) ==> r.capital == Prop(c, "capital"))
      && (!Truthy(Prop(c, "capital")) ==> r.capital == Null)
      && (Truthy(Prop(c, "region")) ==> r.region == Prop(c, "region"))
      && (!Truthy(Prop(c, "region")) ==> r.region == Null)
      && (Truthy(Prop(c, "flag")) ==> r.flagUrl == Prop(c, "flag"))
      && (!Truthy(Prop(c, "flag")) ==> r.flagUrl == Null)
      && (Prop(c, "population").Num? ==> r.population == Prop(c, "population").n)
      && (!Prop(c, "population").Num? ==> r.population == 0.0)
  {
  }

  /** Every row the loop writes satisfies the pricing rules. */
  lemma NormalizedIsPriced(c: Js, rates: map<string, Js>, multiplier: int)
    requires ValidMultiplier(multiplier)
    requires NormalizeEntry(c, rates, multiplier).Some?
    ensures PricedRecord(NormalizeEntry(c, rates, multiplier).value, rates)
  {
    var population := PopulationOf(c);
    var p := Price(CurrenciesOf(c), population, rates, multiplier);
    if p.rate.Num? {
      assert ComputeGdp(population, p.rate.n, multiplier) * p.rate.n == population * multiplier as real;
    }
  }

  /** No currencies (an empty list, or no array at all): no code, no rate,
      and an estimate of exactly 0, whatever the population. */
  lemma NoCurrencies(c: Js, rates: map<string, Js>, multiplier: int)
    requires ValidMultiplier(multiplier)
    requires NormalizeEntry(c, rates, multiplier).Some?
    requires !Prop(c, "currencies").Arr? || Prop(c, "currencies").items == []
    ensures var r := NormalizeEntry(c, rates, multiplier).value;
      r.currencyCode == Null && r.exchangeRate == Null && r.estimatedGdp == Num(0.0)
  {
  }

  /** A first currency without a code, or with a code the rate table does
      not hold: null rate and null estimate; the code, if any, is kept. */
  lemma UnknownCode(c: Js, rates: map<string, Js>, multiplier: int)
    requires ValidMultiplier(multiplier)
    requires NormalizeEntry(c, rates, multiplier).Some?
    requires |CurrenciesOf(c)| > 0
    requires var code := FirstCode(CurrenciesOf(c)); !(code.Str? && code.s in rates)
    ensures var r := NormalizeEntry(c, rates, multiplier).value;
      r.currencyCode == FirstCode(CurrenciesOf(c)) && r.exchangeRate == Null && r.estimatedGdp == Null
  {
  }

  /** A code whose rate converts to 0 or NaN: null rate and null estimate,
      distinct from the 0 of the no-currency case. */
  lemma UnusableRate(c: Js, rates: map<string, Js>, multiplier: int)
    requires ValidMultiplier(multiplier)
    requires NormalizeEntry(c, rates, multiplier).Some?
    requires |CurrenciesOf(c)| > 0
    requires var code := FirstCode(CurrenciesOf(c)); code.Str? && code.s in rates && !UsableRate(rates[code.s])
    ensures var r := NormalizeEntry(c, rates, multiplier).value;
      r.currencyCode == FirstCode(CurrenciesOf(c)) && r.exchangeRate == Null && r.estimatedGdp == Null
  {
  }

  /** A usable rate R: it is stored, and the estimate is P * m / R with P
      the population (0 when it is not a number) and m the multiplier. */
  lemma PricedByRate(c: Js, rates: map<string, Js>, multiplier: int)
    requires ValidMultiplier(multiplier)
    requires NormalizeEntry(c, rates, multiplier).Some?
    requires |CurrenciesOf(c)| > 0
    requires var code := FirstCode(CurrenciesOf(c)); code.Str? && code.s in rates && UsableRate(rates[code.s])
    ensures var r := NormalizeEntry(c, rates, multiplier).value;
      var rate := ToNumber(rates[FirstCode(CurrenciesOf(c)).s]).value;
      && r.currencyCode == FirstCode(CurrenciesOf(c))
      && r.exchangeRate == Num(rate)
      && r.estimatedGdp.Num?
      && r.estimatedGdp.n * rate == PopulationOf(c) * multiplier as real
      && (PopulationOf(c) > 0.0 ==> 1000.0 <= r.estimatedGdp.n * rate / PopulationOf(c) <= 2000.0)
  {
    var rate := ToNumber(rates[FirstCode(CurrenciesOf(c)).s]).value;
    GdpRatioInRange(PopulationOf(c), rate, multiplier);
  }
}
