/** The forecast page: the training rows prepared from the monthly table and the
    daily quotes, the point forecast from fitted coefficients, the forecast date
    and the confidence band drawn back to the last real month, and the headline
    text with its Brazilian number format. The regression fit itself is an input:
    its coefficients and the standard deviation of its residuals. */
module Forecast {
  import opened Wrappers
  import Tables
  import Series
  import Dates
  import Text
  import Prices
  import opened Kpi

  const FirstYear: int := 2000
  const LastYear: int := 2024

  /** A row of the monthly table as this page reads it; a price may be missing. */
  datatype SourceMonth = SourceMonth(ano: int, anoMes: Dates.Date, estoque: real, prices: Prices.PriceRow<Option<real>>)

  /** A row of `df_saldo` once prepared: its month, the month-over-month stock
      change, the prices with gaps set to 0, and the month's exchange rate if any. */
  datatype TrainingRow = TrainingRow(periodo: Dates.Date, saldoEstoque: real, prices: Prices.PriceRow<real>, cambio: Option<real>)

  /** One month of `df_dolar_mensal`. */
  datatype MonthlyFx = MonthlyFx(periodo: Dates.Date, cambio: real)

  function SourceAno(r: SourceMonth): int { r.ano }
  function SourceStocks(rows: seq<SourceMonth>): seq<real>
  {
    seq(|rows|, i requires 0 <= i < |rows| => rows[i].estoque)
  }
  function TrainingPeriod(r: TrainingRow): Dates.Date { r.periodo }
  function FxPeriod(m: MonthlyFx): Dates.Date { m.periodo }
  function QuoteMonthIndex(q: Quote): int { Dates.MonthIndex(q.datetime) }

  /** `fillna(0)` on one cell. */
  function FillZero(x: Option<real>): real { x.GetOr(0.0) }

  predicate ValidQuotes(quotes: seq<Quote>) {
    forall q :: q in quotes ==> Dates.Valid(q.datetime)
  }

  // ---------------------------------------------------------------------------
  // Monthly exchange rate: resample("M").last(), re-keyed to day 1
  // ---------------------------------------------------------------------------

  /** Per calendar month, the quote with the latest date, keyed by the first day
      of that month. */
  function MonthlyFxTable(quotes: seq<Quote>): (r: seq<MonthlyFx>)
    requires ValidQuotes(quotes)
    ensures |r| == |Tables.GroupLast(Tables.SortBy(quotes, QuoteStamp), QuoteMonthIndex)|
  {
    var last := Tables.GroupLast(Tables.SortBy(quotes, QuoteStamp), QuoteMonthIndex);
    seq(|last|, i requires 0 <= i < |last| =>
      assert last[i] in Tables.SortBy(quotes, QuoteStamp) by { Tables.GroupLastIsLast(Tables.SortBy(quotes, QuoteStamp), QuoteMonthIndex, i); }
      assert last[i] in multiset(Tables.SortBy(quotes, QuoteStamp));
      MonthlyFx(Dates.FirstOfMonth(last[i].datetime), last[i].close))
  }

  lemma SortedQuotesAreQuotes(quotes: seq<Quote>, q: Quote)
    requires q in Tables.SortBy(quotes, QuoteStamp)
    ensures q in quotes
  {
    assert q in multiset(Tables.SortBy(quotes, QuoteStamp));
  }

  /** Each month's rate is the close of that month's latest quote, dated the
      first of the month. */
  lemma MonthlyFxIsLatestOfMonth(quotes: seq<Quote>, i: nat)
    requires ValidQuotes(quotes)
    requires i < |MonthlyFxTable(quotes)|
    ensures var m := MonthlyFxTable(quotes)[i];
            Dates.Valid(m.periodo) && m.periodo.day == 1
            && exists q :: q in quotes && Dates.MonthIndex(q.datetime) == Dates.MonthIndex(m.periodo) && q.close == m.cambio
                 && forall z :: z in quotes && Dates.MonthIndex(z.datetime) == Dates.MonthIndex(m.periodo) ==> QuoteStamp(z) <= QuoteStamp(q)
  {
    var sorted := Tables.SortBy(quotes, QuoteStamp);
    var last := Tables.GroupLast(sorted, QuoteMonthIndex);
    Tables.GroupLastIsLast(sorted, QuoteMonthIndex, i);
    Tables.GroupLastOfSortedIsLatest(sorted, QuoteMonthIndex, QuoteStamp, i);
    var q := last[i];
    assert q in sorted;
    SortedQuotesAreQuotes(quotes, q);
    forall z | z in quotes && Dates.MonthIndex(z.datetime) == Dates.MonthIndex(q.datetime)
      ensures QuoteStamp(z) <= QuoteStamp(q)
    {
      assert z in multiset(quotes);
      assert z in sorted;
    }
  }

  /** Every month that has a quote has a rate. */
  lemma MonthlyFxCoversQuotes(quotes: seq<Quote>, q: Quote)
    requires ValidQuotes(quotes) && q in quotes
    ensures exists i :: 0 <= i < |MonthlyFxTable(quotes)| && MonthlyFxTable(quotes)[i].periodo == Dates.FirstOfMonth(q.datetime)
  {
    var sorted := Tables.SortBy(quotes, QuoteStamp);
    var last := Tables.GroupLast(sorted, QuoteMonthIndex);
    assert q in multiset(quotes);
    assert q in sorted;
    Tables.GroupLastCoversKeys(sorted, QuoteMonthIndex, q);
    var i :| 0 <= i < |last| && QuoteMonthIndex(last[i]) == QuoteMonthIndex(q);
    Tables.GroupLastIsLast(sorted, QuoteMonthIndex, i);
    SortedQuotesAreQuotes(quotes, last[i]);
    var a := Dates.FirstOfMonth(last[i].datetime);
    var b := Dates.FirstOfMonth(q.datetime);
    Dates.SameMonthIndex(a, b);
    assert MonthlyFxTable(quotes)[i].periodo == a;
  }

  /** One rate per month, so the left merge below keeps the training rows. */
  lemma MonthlyFxUnique(quotes: seq<Quote>)
    requires ValidQuotes(quotes)
    ensures Tables.UniqueBy(MonthlyFxTable(quotes), FxPeriod)
  {
    var sorted := Tables.SortBy(quotes, QuoteStamp);
    var last := Tables.GroupLast(sorted, QuoteMonthIndex);
    var ks := Tables.GroupKeys(sorted, QuoteMonthIndex);
    var r := MonthlyFxTable(quotes);
    forall i, j | 0 <= i < j < |r| ensures FxPeriod(r[i]) != FxPeriod(r[j]) {
      assert Dates.MonthIndex(r[i].periodo) == ks[i];
      assert Dates.MonthIndex(r[j].periodo) == ks[j];
      assert ks[i] < ks[j];
    }
  }

  // ---------------------------------------------------------------------------
  // Training rows
  // ---------------------------------------------------------------------------

  /** The rows before the merge: 2000-2024, `saldo_estoque` as the stock's
      successive difference, and every missing cell set to 0. */
  function SaldoRows(df: seq<SourceMonth>): (r: seq<TrainingRow>)
    ensures var sel := Tables.FilterYears(df, SourceAno, FirstYear, LastYear);
            |r| == |sel|
            && (forall i :: 0 <= i < |r| ==> r[i].periodo == sel[i].anoMes && r[i].cambio.None?)
            && (forall i :: 0 <= i < |r| ==> r[i].prices == sel[i].prices.Map(FillZero))
            && (|r| > 0 ==> r[0].saldoEstoque == 0.0)
            && (forall i :: 0 < i < |r| ==> r[i].saldoEstoque == sel[i].estoque - sel[i - 1].estoque)
  {
    var sel := Tables.FilterYears(df, SourceAno, FirstYear, LastYear);
    var saldo := Series.DiffFillZero(SourceStocks(sel));
    seq(|sel|, i requires 0 <= i < |sel| => TrainingRow(sel[i].anoMes, saldo[i], sel[i].prices.Map(FillZero), None))
  }

  /** `c` is the rate `fx` holds for month `d`: present exactly when `fx` has that
      month, and then that month's value. */
  predicate RateOf(fx: seq<MonthlyFx>, d: Dates.Date, c: Option<real>) {
    (c.Some? <==> exists m :: m in fx && m.periodo == d)
    && (c.Some? ==> exists m :: m in fx && m.periodo == d && m.cambio == c.value)
  }

  /** `merge(df_dolar_mensal[["periodo", "cambio_usdbrl"]], on="periodo", how="left")`:
      against one rate per month, every row is kept in place and given its
      month's rate, or none. */
  function WithFx(rows: seq<TrainingRow>, fx: seq<MonthlyFx>): (r: seq<TrainingRow>)
    requires Tables.UniqueBy(fx, FxPeriod)
    requires forall i :: 0 <= i < |rows| ==> rows[i].cambio.None?
    ensures |r| == |rows|
    ensures forall i :: 0 <= i < |rows| ==>
              r[i] == rows[i].(cambio := r[i].cambio) && RateOf(fx, rows[i].periodo, r[i].cambio)
  {
    var merged := Tables.LeftJoin(rows, fx, TrainingPeriod, FxPeriod);
    Tables.LeftPartLookup(rows, fx, TrainingPeriod, FxPeriod);
    var r := seq(|merged|, i requires 0 <= i < |merged| =>
      if merged[i].Both? then merged[i].l.(cambio := Some(merged[i].r.cambio)) else merged[i].l);
    forall i | 0 <= i < |rows|
      ensures r[i] == rows[i].(cambio := r[i].cambio) && RateOf(fx, rows[i].periodo, r[i].cambio)
    {
      assert Tables.LooksUp(merged[i], rows[i], fx, TrainingPeriod, FxPeriod);
      if merged[i].Both? {
        assert merged[i].r in fx && merged[i].r.periodo == rows[i].periodo;
      }
    }
    r
  }

  /** `df_saldo`: the monthly rows of 2000-2024 with their balance and zero-filled
      prices, then left-merged with the monthly exchange rate by period. The rows
      and their order are those of the filtered table; a month without quotes gets
      no rate, and a month with quotes gets that month's latest close. */
  method PrepareTraining(df: seq<SourceMonth>, quotes: seq<Quote>) returns (rows: seq<TrainingRow>)
    requires ValidQuotes(quotes)
    ensures var sel := Tables.FilterYears(df, SourceAno, FirstYear, LastYear);
            |rows| == |sel|
            && (forall i :: 0 <= i < |sel| ==> FirstYear <= sel[i].ano <= LastYear)
            && (forall i :: 0 <= i < |sel| ==> rows[i].periodo == sel[i].anoMes)
            && (forall i :: 0 <= i < |sel| ==> rows[i].prices == sel[i].prices.Map(FillZero))
            && (|sel| > 0 ==> rows[0].saldoEstoque == 0.0)
            && (forall i :: 0 < i < |sel| ==> rows[i].saldoEstoque == sel[i].estoque - sel[i - 1].estoque)
            && (forall i :: 0 <= i < |sel| ==> RateOf(MonthlyFxTable(quotes), sel[i].anoMes, rows[i].cambio))
  {
    var sel := Tables.FilterYears(df, SourceAno, FirstYear, LastYear);
    rows := SaldoRows(df);
    var fx := MonthlyFxTable(quotes);
    MonthlyFxUnique(quotes);
    rows := WithFx(rows, fx);
    forall i | 0 <= i < |sel| ensures FirstYear <= sel[i].ano <= LastYear {
      assert sel[i] in sel;
    }
  }

  /** `df_modelo`: sorted by period, then `dropna` on the exchange rate. Prices
      were zero-filled before, so only months without a rate are dropped. */
  datatype ModelRow = ModelRow(periodo: Dates.Date, price: real, cambio: real)

  function TrainingStamp(r: TrainingRow): int { Dates.Stamp(r.periodo) }
  function ModelStamp(r: ModelRow): int { Dates.Stamp(r.periodo) }

  function ToModel(r: TrainingRow, s: Prices.PriceSeries): ModelRow
    requires r.cambio.Some?
  {
    ModelRow(r.periodo, r.prices.Get(s), r.cambio.value)
  }

  /** The number of rows that carry a rate. */
  function RatedCount(rows: seq<TrainingRow>): nat
  {
    if rows == [] then 0 else (if rows[0].cambio.Some? then 1 else 0) + RatedCount(rows[1..])
  }

  /** The model rows of the rows that carry a rate, counted with multiplicity. */
  function RatedModels(rows: seq<TrainingRow>, s: Prices.PriceSeries): multiset<ModelRow>
  {
    if rows == [] then multiset{}
    else (if rows[0].cambio.Some? then multiset{ToModel(rows[0], s)} else multiset{}) + RatedModels(rows[1..], s)
  }

  /** Counting the rated rows before position i of a non-empty frame: the head,
      then the rated rows before position i - 1 of the tail. */
  lemma RatedCountPrefix(rows: seq<TrainingRow>, i: nat)
    requires 0 < i <= |rows|
    ensures RatedCount(rows[..i]) == (if rows[0].cambio.Some? then 1 else 0) + RatedCount(rows[1..][..i - 1])
  {
    assert rows[..i][0] == rows[0];
    assert rows[..i][1..] == rows[1..][..i - 1];
  }

  /** `dropna(subset=["cambio"])`: the rows with a rate, in their order. The
      rated row at position i lands at its rank, the number of rated rows before
      it; as many rows are kept as carry a rate, so nothing else is kept and
      each kept row appears as often as in the input. */
  function DropMissingFx(rows: seq<TrainingRow>, s: Prices.PriceSeries): (m: seq<ModelRow>)
    ensures |m| == RatedCount(rows)
    ensures forall i :: 0 <= i < |rows| && rows[i].cambio.Some? ==>
              RatedCount(rows[..i]) < |m| && m[RatedCount(rows[..i])] == ToModel(rows[i], s)
    ensures multiset(m) == RatedModels(rows, s)
    ensures forall x :: x in m <==> exists r :: r in rows && r.cambio.Some? && x == ToModel(r, s)
    ensures Tables.SortedBy(rows, TrainingStamp) ==> Tables.SortedBy(m, ModelStamp)
  {
    RatedModelsMem(rows, s);
    if rows == [] then []
    else
      var rest := DropMissingFx(rows[1..], s);
      var head := if rows[0].cambio.Some? then [ToModel(rows[0], s)] else [];
      DropStep(rows, s, head, rest);
      DropKeeps(rows, s, head, rest);
      head + rest
  }

  /** A model row is among the rated model rows iff a row with a rate gives it. */
  lemma {:induction false} RatedModelsMem(rows: seq<TrainingRow>, s: Prices.PriceSeries)
    ensures forall x :: x in RatedModels(rows, s) <==> exists r :: r in rows && r.cambio.Some? && x == ToModel(r, s)
  {
    if rows != [] {
      RatedModelsMem(rows[1..], s);
      assert forall r :: r in rows <==> r == rows[0] || r in rows[1..];
    }
  }

  /** The rank of each rated row is kept when the head's model row, if any, is
      put in front of the tail's. */
  lemma DropStep(rows: seq<TrainingRow>, s: Prices.PriceSeries, head: seq<ModelRow>, rest: seq<ModelRow>)
    requires rows != []
    requires head == if rows[0].cambio.Some? then [ToModel(rows[0], s)] else []
    requires |rest| == RatedCount(rows[1..])
    requires forall i :: 0 <= i < |rows[1..]| && rows[1..][i].cambio.Some? ==>
               RatedCount(rows[1..][..i]) < |rest| && rest[RatedCount(rows[1..][..i])] == ToModel(rows[1..][i], s)
    ensures |head + rest| == RatedCount(rows)
    ensures forall i :: 0 <= i < |rows| && rows[i].cambio.Some? ==>
              RatedCount(rows[..i]) < |head + rest| && (head + rest)[RatedCount(rows[..i])] == ToModel(rows[i], s)
  {
    forall i | 0 <= i < |rows| && rows[i].cambio.Some?
      ensures RatedCount(rows[..i]) < |head + rest| && (head + rest)[RatedCount(rows[..i])] == ToModel(rows[i], s)
    {
      DropStepAt(rows, s, head, rest, i);
    }
  }

  lemma DropStepAt(rows: seq<TrainingRow>, s: Prices.PriceSeries, head: seq<ModelRow>, rest: seq<ModelRow>, i: nat)
    requires i < |rows| && rows[i].cambio.Some?
    requires head == if rows[0].cambio.Some? then [ToModel(rows[0], s)] else []
    requires |rest| == RatedCount(rows[1..])
    requires forall i :: 0 <= i < |rows[1..]| && rows[1..][i].cambio.Some? ==>
               RatedCount(rows[1..][..i]) < |rest| && rest[RatedCount(rows[1..][..i])] == ToModel(rows[1..][i], s)
    ensures RatedCount(rows[..i]) < |head + rest| && (head + rest)[RatedCount(rows[..i])] == ToModel(rows[i], s)
  {
    if i == 0 {
      assert rows[..0] == [];
    } else {
      RatedCountPrefix(rows, i);
      assert rows[1..][i - 1] == rows[i];
      var k := RatedCount(rows[1..][..i - 1]);
      assert (head + rest)[|head| + k] == rest[k];
    }
  }

  /** Putting the head's model row, if any, in front of the tail's keeps the
      rated model rows and the period order. */
  lemma DropKeeps(rows: seq<TrainingRow>, s: Prices.PriceSeries, head: seq<ModelRow>, rest: seq<ModelRow>)
    requires rows != []
    requires head == if rows[0].cambio.Some? then [ToModel(rows[0], s)] else []
    requires multiset(rest) == RatedModels(rows[1..], s)
    requires Tables.SortedBy(rows[1..], TrainingStamp) ==> Tables.SortedBy(rest, ModelStamp)
    ensures multiset(head + rest) == RatedModels(rows, s)
    ensures Tables.SortedBy(rows, TrainingStamp) ==> Tables.SortedBy(head + rest, ModelStamp)
  {
    if Tables.SortedBy(rows, TrainingStamp) && head != [] {
      RatedModelsMem(rows[1..], s);
      forall k | 0 <= k < |rest| ensures ModelStamp(head[0]) <= ModelStamp(rest[k]) {
        assert rest[k] in multiset(rest);
        var r :| r in rows[1..] && r.cambio.Some? && rest[k] == ToModel(r, s);
        var j :| 0 <= j < |rows[1..]| && rows[1..][j] == r;
        assert rows[j + 1] == r;
      }
      Tables.SortedCons(head[0], rest, ModelStamp);
      assert head + rest == [head[0]] + rest;
    }
  }

  lemma {:induction false} RatedModelsConcat(a: seq<TrainingRow>, b: seq<TrainingRow>, s: Prices.PriceSeries)
    ensures RatedModels(a + b, s) == RatedModels(a, s) + RatedModels(b, s)
  {
    if a == [] {
      assert a + b == b;
    } else {
      assert (a + b)[0] == a[0];
      assert (a + b)[1..] == a[1..] + b;
      RatedModelsConcat(a[1..], b, s);
    }
  }

  /** The rated model rows depend only on the rows present, not their order. */
  /** Taking the same row out of two permutations of each other leaves two
      permutations of each other. */
  lemma RemoveOne<T>(a: seq<T>, b: seq<T>, j: nat)
    requires multiset(a) == multiset(b) && a != [] && j < |b| && b[j] == a[0]
    ensures multiset(a[1..]) == multiset(b[..j] + b[j + 1..])
    ensures b == b[..j] + [b[j]] + b[j + 1..]
  {
    assert a == [a[0]] + a[1..];
    assert b == b[..j] + [b[j]] + b[j + 1..];
    calc {
      multiset(a[1..]);
      multiset(a) - multiset{a[0]};
      multiset(b) - multiset{b[j]};
      multiset(b[..j]) + multiset(b[j + 1..]);
      multiset(b[..j] + b[j + 1..]);
    }
  }

  lemma {:induction false} RatedModelsPermutation(a: seq<TrainingRow>, b: seq<TrainingRow>, s: Prices.PriceSeries)
    requires multiset(a) == multiset(b)
    ensures RatedModels(a, s) == RatedModels(b, s)
    decreases |a|
  {
    if a == [] {
      assert b == [] by { assert |multiset(b)| == 0; }
    } else {
      var x := a[0];
      assert a == [x] + a[1..];
      assert x in multiset(b);
      var j :| 0 <= j < |b| && b[j] == x;
      var rest := b[..j] + b[j + 1..];
      RemoveOne(a, b, j);
      RatedModelsPermutation(a[1..], rest, s);
      assert [x][1..] == [];
      calc {
        RatedModels(b, s);
        { RatedModelsConcat(b[..j] + [x], b[j + 1..], s); RatedModelsConcat(b[..j], [x], s); }
        RatedModels(b[..j], s) + RatedModels([x], s) + RatedModels(b[j + 1..], s);
        { RatedModelsConcat(b[..j], b[j + 1..], s); }
        RatedModels([x], s) + RatedModels(rest, s);
        RatedModels([x], s) + RatedModels(a[1..], s);
        { RatedModelsConcat([x], a[1..], s); }
        RatedModels(a, s);
      }
    }
  }

  /** `df_modelo`: `sort_values("periodo")`, then `dropna` on the rate. The
      result is sorted by period and is a permutation of the model rows of the
      rows that carry a rate. */
  function ModelFrame(rows: seq<TrainingRow>, s: Prices.PriceSeries): (m: seq<ModelRow>)
    ensures multiset(m) == RatedModels(rows, s)
    ensures |m| == RatedCount(Tables.SortBy(rows, TrainingStamp))
    ensures forall x :: x in m <==> exists r :: r in rows && r.cambio.Some? && x == ToModel(r, s)
    ensures Tables.SortedBy(m, ModelStamp)
  {
    var sorted := Tables.SortBy(rows, TrainingStamp);
    assert forall r :: r in sorted <==> r in rows by {
      assert multiset(sorted) == multiset(rows);
      forall r ensures r in sorted <==> r in rows {
        assert r in sorted <==> r in multiset(sorted);
        assert r in rows <==> r in multiset(rows);
      }
    }
    RatedModelsPermutation(sorted, rows, s);
    DropMissingFx(sorted, s)
  }

  // ---------------------------------------------------------------------------
  // Point forecast, forecast date and confidence band
  // ---------------------------------------------------------------------------

  const MinFx: real := 3.0
  const MaxFx: real := 10.0
  const MinHorizon: int := 1
  const MaxHorizon: int := 48
  const BandFactor: real := 1.5

  /** `model.predict`: intercept plus slope times the expected exchange rate. */
  function PointForecast(b0: real, b1: real, fx: real): real {
    b0 + b1 * fx
  }

  /** The forecast moves with the slope: the difference of two forecasts is the
      slope times the difference of their rates. */
  lemma PointForecastSlope(b0: real, b1: real, x: real, y: real)
    ensures PointForecast(b0, b1, x) - PointForecast(b0, b1, y) == b1 * (x - y)
  {
  }

  /** Over the input's range, a non-negative slope keeps the forecast between the
      forecasts at the two ends of the range. */
  lemma PointForecastInRange(b0: real, b1: real, fx: real)
    requires MinFx <= fx <= MaxFx && b1 >= 0.0
    ensures PointForecast(b0, b1, MinFx) <= PointForecast(b0, b1, fx) <= PointForecast(b0, b1, MaxFx)
  {
    PointForecastSlope(b0, b1, fx, MinFx);
    PointForecastSlope(b0, b1, MaxFx, fx);
  }

  datatype Band = Band(lastDate: Dates.Date, lastPrice: real, date: Dates.Date, forecast: real, upper: real, lower: real)

  /** `df_futuro[df_futuro["periodo"] == d][coluna].values[0]`: the first row of
      that period; None is the IndexError of an empty selection. */
  function FirstPriceAt(rows: seq<ModelRow>, d: Dates.Date): (r: Option<real>)
    ensures r.None? <==> forall i :: 0 <= i < |rows| ==> rows[i].periodo != d
    ensures r.Some? ==> exists i :: 0 <= i < |rows| && rows[i].periodo == d && rows[i].price == r.value
                           && forall j :: 0 <= j < i ==> rows[j].periodo != d
  {
    if rows == [] then None
    else if rows[0].periodo == d then Some(rows[0].price)
    else
      var r := FirstPriceAt(rows[1..], d);
      assert forall i :: 1 <= i < |rows| ==> rows[i] == rows[1..][i - 1];
      r
  }

  /** `df["periodo"].max()`. */
  function LatestPeriod(rows: seq<ModelRow>): (d: Dates.Date)
    requires |rows| > 0
    ensures exists i :: 0 <= i < |rows| && rows[i].periodo == d
    ensures forall i :: 0 <= i < |rows| ==> Dates.Stamp(rows[i].periodo) <= Dates.Stamp(d)
  {
    rows[Tables.LastMaxIndex(rows, ModelStamp)].periodo
  }

  predicate ValidPeriods(rows: seq<ModelRow>) {
    forall i :: 0 <= i < |rows| ==> Dates.Valid(rows[i].periodo)
  }

  /** Lines 120-151: the forecast date is the latest period plus the horizon; the
      forecast row is appended; the band runs from the month found by going back
      the horizon from the new latest period to the forecast date, at 1.5
      standard deviations either side. None when the training frame is empty or
      no row has the month found by going back. */
  function ForecastBand(m: seq<ModelRow>, b0: real, b1: real, sd: real, fx: real, h: int): (r: Option<Band>)
    requires ValidPeriods(m)
    requires MinHorizon <= h <= MaxHorizon
    ensures m == [] ==> r.None?
    ensures r.Some? ==> r.value.forecast == PointForecast(b0, b1, fx)
    ensures r.Some? ==> r.value.upper == r.value.forecast + BandFactor * sd
                        && r.value.lower == r.value.forecast - BandFactor * sd
    ensures r.Some? ==> r.value.date == Dates.AddMonths(LatestPeriod(m), h)
                        && r.value.lastDate == Dates.AddMonths(r.value.date, -h)
  {
    if m == [] then None
    else
      var date := Dates.AddMonths(LatestPeriod(m), h);
      var p := PointForecast(b0, b1, fx);
      var futuro := m + [ModelRow(date, p, fx)];
      LatestOfFuturo(m, date, p, fx, h);
      var ultima := Dates.AddMonths(LatestPeriod(futuro), -h);
      var lastPrice :- FirstPriceAt(futuro, ultima);
      Some(Band(ultima, lastPrice, date, p, p + BandFactor * sd, p - BandFactor * sd))
  }

  /** The appended forecast row is the latest period of the extended frame. */
  lemma LatestOfFuturo(m: seq<ModelRow>, date: Dates.Date, p: real, fx: real, h: int)
    requires ValidPeriods(m) && |m| > 0 && 1 <= h
    requires date == Dates.AddMonths(LatestPeriod(m), h)
    ensures LatestPeriod(m + [ModelRow(date, p, fx)]) == date
  {
    var futuro := m + [ModelRow(date, p, fx)];
    var last := LatestPeriod(m);
    var i :| 0 <= i < |m| && m[i].periodo == last;
    Dates.AddMonthsLater(last, h);
    var d := LatestPeriod(futuro);
    var k :| 0 <= k < |futuro| && futuro[k].periodo == d;
    assert Dates.Stamp(futuro[|m|].periodo) <= Dates.Stamp(d);
  }

  /** The band is ordered and symmetric around the forecast. */
  lemma BandOrdered(m: seq<ModelRow>, b0: real, b1: real, sd: real, fx: real, h: int)
    requires ValidPeriods(m) && MinHorizon <= h <= MaxHorizon && sd >= 0.0
    requires ForecastBand(m, b0, b1, sd, fx, h).Some?
    ensures var b := ForecastBand(m, b0, b1, sd, fx, h).value;
            b.lower <= b.forecast <= b.upper && b.upper - b.forecast == b.forecast - b.lower
  {
  }

  /** With every period on the first of its month, going back the horizon lands on
      the latest real month, so the band's left end is found: the price of the
      first training row of that month. */
  lemma ForecastBandFindsLastMonth(m: seq<ModelRow>, b0: real, b1: real, sd: real, fx: real, h: int)
    requires ValidPeriods(m) && MinHorizon <= h <= MaxHorizon && |m| > 0
    requires forall i :: 0 <= i < |m| ==> m[i].periodo.day == 1
    ensures ForecastBand(m, b0, b1, sd, fx, h).Some?
    ensures ForecastBand(m, b0, b1, sd, fx, h).value.lastDate == LatestPeriod(m)
    ensures FirstPriceAt(m, LatestPeriod(m)) == Some(ForecastBand(m, b0, b1, sd, fx, h).value.lastPrice)
  {
    var last := LatestPeriod(m);
    var date := Dates.AddMonths(last, h);
    var row := ModelRow(date, PointForecast(b0, b1, fx), fx);
    FuturoLastDate(m, row, h);
    FirstPriceInFuturo(m, row, last);
  }

  /** Going back the horizon from the appended row lands on the latest real period. */
  lemma FuturoLastDate(m: seq<ModelRow>, row: ModelRow, h: int)
    requires ValidPeriods(m) && MinHorizon <= h <= MaxHorizon && |m| > 0
    requires forall i :: 0 <= i < |m| ==> m[i].periodo.day == 1
    requires row.periodo == Dates.AddMonths(LatestPeriod(m), h)
    ensures Dates.AddMonths(LatestPeriod(m + [row]), -h) == LatestPeriod(m)
  {
    var last := LatestPeriod(m);
    var i :| 0 <= i < |m| && m[i].periodo == last;
    LatestOfFuturo(m, row.periodo, row.price, row.cambio, h);
    assert m + [row] == m + [ModelRow(row.periodo, row.price, row.cambio)];
    Dates.AddMonthsRoundTrip(last, h);
  }

  /** The latest real period has a price, unchanged by the appended row. */
  lemma FirstPriceInFuturo(m: seq<ModelRow>, row: ModelRow, d: Dates.Date)
    requires exists i :: 0 <= i < |m| && m[i].periodo == d
    ensures FirstPriceAt(m, d).Some? && FirstPriceAt(m + [row], d) == FirstPriceAt(m, d)
  {
    FirstPriceOfPrefix(m, [row], d);
  }

  lemma {:induction false} FirstPriceOfPrefix(a: seq<ModelRow>, b: seq<ModelRow>, d: Dates.Date)
    requires exists i :: 0 <= i < |a| && a[i].periodo == d
    ensures FirstPriceAt(a + b, d) == FirstPriceAt(a, d)
  {
    if a[0].periodo != d {
      assert (a + b)[1..] == a[1..] + b;
      var i :| 0 <= i < |a| && a[i].periodo == d;
      assert a[1..][i - 1].periodo == d;
      FirstPriceOfPrefix(a[1..], b, d);
    }
  }

  /** A period at the end of a month does not come back: 31 January plus one
      month is 28 February, and going back gives 28 January, which no row has. */
  lemma ForecastBandMissesMonthEnd()
    ensures ForecastBand([ModelRow(Dates.Date(2023, 1, 31), 100.0, 5.0)], 0.0, 1.0, 1.0, 5.0, 1).None?
  {
    var m := [ModelRow(Dates.Date(2023, 1, 31), 100.0, 5.0)];
    Dates.AddMonthsClampsAtMonthEnd();
    var date := Dates.AddMonths(LatestPeriod(m), 1);
    assert LatestPeriod(m) == Dates.Date(2023, 1, 31);
    LatestOfFuturo(m, date, PointForecast(0.0, 1.0, 5.0), 5.0, 1);
  }

  // ---------------------------------------------------------------------------
  // Headline text
  // ---------------------------------------------------------------------------

  /** `preco_selecionado.split("-")[1]`; None is the IndexError of a label
      without '-'. */
  function UnitText(text: string): (u: Option<string>)
    ensures u.Some? ==> '-' !in u.value
  {
    var parts := Text.Split(text, '-');
    if |parts| < 2 then None else Some(parts[1])
  }

  lemma UnitAfterOnlyDash(a: string, b: string)
    requires '-' !in a && '-' !in b
    ensures UnitText(a + "-" + b) == Some(b)
  {
    Text.SplitAtOnlySeparator(a, b, '-');
  }

  /** The unit of the label the selector opens on. */
  lemma UnitOfDefaultLabel()
    ensures UnitText(Prices.Options[Prices.DefaultIndex].Label()) == Some(" R$/saca (sem ICMS)")
  {
    assert Prices.Options[Prices.DefaultIndex].Label() == "Rondonopolis / MT " + "-" + " R$/saca (sem ICMS)";
    UnitAfterOnlyDash("Rondonopolis / MT ", " R$/saca (sem ICMS)");
  }

  /** Line 137: "Preço previsto para YYYY-MM em 1.234,56 <unit>", with the forecast
      given in whole cents; None is the IndexError of a label without '-'. */
  function Headline(date: Dates.Date, cents: int, s: Prices.PriceSeries): (t: Option<string>)
    requires Dates.Valid(date) && 1000 <= date.year <= 9999
    ensures t.Some? <==> UnitText(s.Label()).Some?
    ensures t.Some? ==> t.value == "Preço previsto para " + Dates.YearMonthText(date) + " em "
                                  + Text.SwapSeparators(Text.FormatCents(cents)) + " " + UnitText(s.Label()).value
    ensures t.Some? ==> |t.value| > 31 && t.value[20..27] == Dates.YearMonthText(date) && t.value[27..31] == " em "
  {
    var unit :- UnitText(s.Label());
    var head := "Preço previsto para ";
    var ym := Dates.YearMonthText(date);
    var tail := Text.SwapSeparators(Text.FormatCents(cents)) + " " + unit;
    assert |head| == 20;
    Text.ConcatSlices(head, ym, " em ", tail);
    Some(head + ym + " em " + tail)
  }
}
