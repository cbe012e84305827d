/** The computations of the `sojametrics` dashboard page: the three tables
    restricted to 2000-2024 and then to the slider's range, the KPI panel whose
    years come from the monthly table, the exchange-rate card read from the
    daily quotes, the merge of monthly prices with daily quotes, and the
    month-over-month stock balance of section 5. */
module SojaMetrics {
  import opened Wrappers
  import Tables
  import Series
  import Dates
  import Prices
  import opened Kpi

  /** The three tables of the page. */
  datatype Frames = Frames(monthly: seq<MonthRow>, annual: seq<AnnualRow>, quotes: seq<Quote>)

  /** Each of the three tables filtered on its own year column to one inclusive range. */
  function FilterFrames(f: Frames, lo: int, hi: int): (r: Frames)
    ensures forall x :: x in r.monthly <==> x in f.monthly && lo <= x.ano <= hi
    ensures forall x :: x in r.annual <==> x in f.annual && lo <= x.periodo <= hi
    ensures forall x :: x in r.quotes <==> x in f.quotes && lo <= x.ano <= hi
  {
    Frames(Tables.FilterYears(f.monthly, Ano, lo, hi),
           Tables.FilterYears(f.annual, Periodo, lo, hi),
           Tables.FilterYears(f.quotes, QuoteYear, lo, hi))
  }

  const FirstYear: int := 2000
  const LastYear: int := 2024

  /** What the page works on after loading: everything from 2000 to 2024. */
  function Loaded(f: Frames): Frames {
    FilterFrames(f, FirstYear, LastYear)
  }

  function Max(a: int, b: int): int { if a < b then b else a }
  function Min(a: int, b: int): int { if a < b then a else b }

  /** The slider's filter applied to the loaded tables is one filter by the
      intersection of 2000-2024 with the slider's range. */
  lemma SliderOnLoaded(f: Frames, lo: int, hi: int)
    ensures FilterFrames(Loaded(f), lo, hi) == FilterFrames(f, Max(FirstYear, lo), Min(LastYear, hi))
  {
    Tables.FilterTwice(f.monthly, Ano, FirstYear, LastYear, lo, hi);
    Tables.FilterTwice(f.annual, Periodo, FirstYear, LastYear, lo, hi);
    Tables.FilterTwice(f.quotes, QuoteYear, FirstYear, LastYear, lo, hi);
  }

  // ---------------------------------------------------------------------------
  // Exchange-rate card
  // ---------------------------------------------------------------------------

  predicate HasQuoteYear(quotes: seq<Quote>, y: int) {
    exists q :: q in quotes && q.ano == y
  }

  /** `df_dolar_kpi[df_dolar_kpi["ano"] == y].sort_values("datetime")["close"].iloc[-1]`:
      the year's quote with the latest date. */
  function LatestQuoteOfYear(quotes: seq<Quote>, y: int): (r: Option<Quote>)
    ensures r.None? <==> !HasQuoteYear(quotes, y)
    ensures r.Some? ==> r.value in quotes && r.value.ano == y
    ensures r.Some? ==> forall q :: q in quotes && q.ano == y ==> QuoteStamp(q) <= QuoteStamp(r.value)
  {
    var sel := Tables.RowsOfYear(quotes, QuoteYear, y);
    if sel == [] then None
    else
      Tables.SortedLastIsMax(sel, QuoteStamp);
      Some(Tables.SortBy(sel, QuoteStamp)[|sel| - 1])
  }

  /** `df_dolar_kpi[df_dolar_kpi["ano"] == y]["close"].iloc[-1]`: the year's
      last quote in the order of the table, whatever its date. */
  function LastQuoteOfYear(quotes: seq<Quote>, y: int): (r: Option<Quote>)
    ensures r.None? <==> !HasQuoteYear(quotes, y)
    ensures r.Some? ==> exists p :: 0 <= p < |quotes| && quotes[p] == r.value && r.value.ano == y
                          && forall j :: p < j < |quotes| ==> quotes[j].ano != y
  {
    if HasQuoteYear(quotes, y) then Some(quotes[Tables.LastIndexOf(quotes, QuoteYear, y)]) else None
  }

  /** The exchange-rate card: the current year is read after sorting by date,
      the previous year in table order. */
  function FxKpi(quotes: seq<Quote>, y: int): (k: Option<KpiCard>)
    ensures k.Some? <==> HasQuoteYear(quotes, y) && HasQuoteYear(quotes, y - 1)
    ensures k.Some? ==> k.value.change == YoY(k.value.current, k.value.previous)
    ensures k.Some? ==> exists q :: q in quotes && q.ano == y && q.close == k.value.current
                          && forall z :: z in quotes && z.ano == y ==> QuoteStamp(z) <= QuoteStamp(q)
    ensures k.Some? ==> exists p :: 0 <= p < |quotes| && quotes[p].ano == y - 1 && quotes[p].close == k.value.previous
                          && forall j :: p < j < |quotes| ==> quotes[j].ano != y - 1
  {
    var cur :- LatestQuoteOfYear(quotes, y);
    var prev :- LastQuoteOfYear(quotes, y - 1);
    Some(KpiCard(cur.close, prev.close, YoY(cur.close, prev.close)))
  }

  /** When the quotes are in date order, the previous year's value is also that
      year's latest quote, so the two reads agree. */
  lemma FxKpiOnSortedQuotes(quotes: seq<Quote>, y: int)
    requires Tables.SortedBy(quotes, QuoteStamp)
    requires FxKpi(quotes, y).Some?
    ensures exists q :: q in quotes && q.ano == y - 1 && q.close == FxKpi(quotes, y).value.previous
              && forall z :: z in quotes && z.ano == y - 1 ==> QuoteStamp(z) <= QuoteStamp(q)
  {
    var prev := FxKpi(quotes, y).value.previous;
    var p :| 0 <= p < |quotes| && quotes[p].ano == y - 1 && quotes[p].close == prev
             && forall j :: p < j < |quotes| ==> quotes[j].ano != y - 1;
    Tables.LastOfSorted(quotes, QuoteYear, QuoteStamp, p);
    assert quotes[p] in quotes;
  }

  /** Out of date order, the previous-year value is not the year's latest quote:
      here the card compares with 4.0 although the last 2023 quote is 5.0. */
  lemma FxKpiOutOfOrderExample()
    ensures var quotes := [Quote(2023, 12, Dates.Date(2023, 12, 29), 5.0),
                           Quote(2023, 1, Dates.Date(2023, 1, 2), 4.0),
                           Quote(2024, 1, Dates.Date(2024, 1, 2), 6.0)];
            FxKpi(quotes, 2024).Some? && FxKpi(quotes, 2024).value.previous == 4.0
  {
    var quotes := [Quote(2023, 12, Dates.Date(2023, 12, 29), 5.0),
                   Quote(2023, 1, Dates.Date(2023, 1, 2), 4.0),
                   Quote(2024, 1, Dates.Date(2024, 1, 2), 6.0)];
    assert quotes[2] in quotes && quotes[1] in quotes;
    assert Tables.LastIndexOf(quotes, QuoteYear, 2023) == 1;
  }

  // ---------------------------------------------------------------------------
  // Section 1: KPI panel
  // ---------------------------------------------------------------------------

  datatype SojaPanel = SojaPanel(
    year: int,
    saldo: Card, estoqueInicial: Card, producao: Card, importacao: Card,
    exportacao: Card, processamento: Card, dolar: Card, price: Card)

  /** The `close` column of the quotes. */
  function Closes(quotes: seq<Quote>): (c: seq<real>)
    ensures |c| == |quotes| && forall i :: 0 <= i < |quotes| ==> c[i] == quotes[i].close
  {
    seq(|quotes|, i requires 0 <= i < |quotes| => quotes[i].close)
  }

  /** The filtered monthly table has rows, and its latest `ano` and the year
      before it are present in all three tables. */
  predicate Renders(k: Frames) {
    k.monthly != [] && PanelYears(k, LatestAno(k.monthly).value)
  }

  /** Section 1. Every card compares the latest `ano` of the filtered monthly
      table with the year before it: the annual cards look those years up in
      the annual table, the exchange-rate card in the daily quotes. None stands
      for the IndexError raised when one of those years has no row. */
  function KpiSection(f: Frames, lo: int, hi: int, s: Prices.PriceSeries): (r: Option<SojaPanel>)
    ensures r.Some? <==> Renders(FilterFrames(f, lo, hi))
    ensures r.Some? ==> var k := FilterFrames(f, lo, hi);
                        r.value.year == LatestAno(k.monthly).value
                        && PanelYears(k, r.value.year) && r.value == Panel(k, r.value.year, s)
  {
    var k := FilterFrames(f, lo, hi);
    if !Renders(k) then None
    else Some(Panel(k, LatestAno(k.monthly).value, s))
  }

  /** Year `y` and the year before it are present in all three tables. */
  predicate PanelYears(k: Frames, y: int) {
    HasYear(k.annual, y) && HasYear(k.annual, y - 1)
    && HasQuoteYear(k.quotes, y) && HasQuoteYear(k.quotes, y - 1)
    && HasMonthYear(k.monthly, y) && HasMonthYear(k.monthly, y - 1)
  }

  /** The nine cards of section 1 for year `y`. */
  function Panel(k: Frames, y: int, s: Prices.PriceSeries): (p: SojaPanel)
    requires PanelYears(k, y)
    ensures p.year == y
  {
    SojaPanel(y,
              Card(SaldoKpi(k.annual, y).value, SparklineTrend(SaldoColumn(k.annual)).value),
              AnnualCard(k.annual, y, EstoqueInicial),
              AnnualCard(k.annual, y, Producao),
              AnnualCard(k.annual, y, Importacao),
              AnnualCard(k.annual, y, Exportacao),
              AnnualCard(k.annual, y, Processamento),
              Card(FxKpi(k.quotes, y).value, SparklineTrend(Closes(k.quotes)).value),
              Card(PriceKpi(k.monthly, y, s).value, SparklineTrend(PriceColumn(k.monthly, s)).value))
  }

  /** Each card of a panel: the balance card is the balance lookup with its
      sparkline's trend, the five annual cards compare `y` with `y - 1` in their
      own column, the exchange-rate card compares the quotes of those years and
      the price card the monthly prices. */
  lemma PanelCards(k: Frames, y: int, s: Prices.PriceSeries)
    requires PanelYears(k, y)
    ensures var p := Panel(k, y, s);
            p.saldo == Card(SaldoKpi(k.annual, y).value, SparklineTrend(SaldoColumn(k.annual)).value)
            && p.estoqueInicial == AnnualCard(k.annual, y, EstoqueInicial)
            && p.producao == AnnualCard(k.annual, y, Producao)
            && p.importacao == AnnualCard(k.annual, y, Importacao)
            && p.exportacao == AnnualCard(k.annual, y, Exportacao)
            && p.processamento == AnnualCard(k.annual, y, Processamento)
            && p.dolar == Card(FxKpi(k.quotes, y).value, SparklineTrend(Closes(k.quotes)).value)
            && p.price == Card(PriceKpi(k.monthly, y, s).value, SparklineTrend(PriceColumn(k.monthly, s)).value)
  {
  }

  /** A year that the filtered monthly table holds together with the year before
      it lies in the selected range with that year: so the panel's year is never
      the range's first year. */
  lemma PanelYearInRange(f: Frames, lo: int, hi: int, y: int)
    requires HasMonthYear(FilterFrames(f, lo, hi).monthly, y) && HasMonthYear(FilterFrames(f, lo, hi).monthly, y - 1)
    ensures lo <= y - 1 && y <= hi
    ensures exists x :: x in f.monthly && x.ano == y
  {
  }

  /** The page's year comes from the monthly table alone: the latest in-range
      `ano` of the monthly rows, whatever years the annual table holds. */
  lemma KpiYearIsMonthlyYear(f: Frames, lo: int, hi: int, s: Prices.PriceSeries, x: MonthRow)
    requires KpiSection(f, lo, hi, s).Some?
    requires x in f.monthly && lo <= x.ano <= hi
    requires forall z :: z in f.monthly && lo <= z.ano <= hi ==> z.ano <= x.ano
    ensures KpiSection(f, lo, hi, s).value.year == x.ano
  {
  }

  // ---------------------------------------------------------------------------
  // Section 2: monthly prices merged with daily quotes
  // ---------------------------------------------------------------------------

  /** A daily quote's `periodo`: the first day of its (ano, mes). */
  function QuoteMonth(q: Quote): Dates.Date {
    Dates.Date(q.ano, q.mes, 1)
  }

  function MonthPeriod(r: MonthRow): Dates.Date {
    r.anoMes
  }

  /** `pd.merge(monthly prices, daily quotes, on="periodo", how="outer")`. */
  function PricesWithQuotes(monthly: seq<MonthRow>, quotes: seq<Quote>): seq<Tables.Joined<MonthRow, Quote>>
  {
    Tables.OuterJoin(monthly, quotes, MonthPeriod, QuoteMonth)
  }

  /** Every month found on either side appears in the merge. */
  lemma MergeKeepsEveryPeriod(monthly: seq<MonthRow>, quotes: seq<Quote>)
    ensures Tables.KeySet(PricesWithQuotes(monthly, quotes), (j: Tables.Joined<MonthRow, Quote>) => Tables.JoinKey(j, MonthPeriod, QuoteMonth))
            == Tables.KeySet(monthly, MonthPeriod) + Tables.KeySet(quotes, QuoteMonth)
  {
    Tables.OuterJoinKeys(monthly, quotes, MonthPeriod, QuoteMonth);
  }

  /** With one monthly row and one quote per month, each month appears once. */
  lemma MergeOncePerMonth(monthly: seq<MonthRow>, quotes: seq<Quote>)
    requires Tables.UniqueBy(monthly, MonthPeriod) && Tables.UniqueBy(quotes, QuoteMonth)
    ensures Tables.UniqueBy(PricesWithQuotes(monthly, quotes), (j: Tables.Joined<MonthRow, Quote>) => Tables.JoinKey(j, MonthPeriod, QuoteMonth))
  {
    Tables.OuterJoinUnique(monthly, quotes, MonthPeriod, QuoteMonth);
  }

  function SampleMonth(): MonthRow {
    MonthRow(2020, Dates.Date(2020, 1, 1), 0.0, 0.0, 0.0, 0.0, 0.0,
             Prices.PriceRow(1.0, 1.0, 1.0, 1.0, 1.0, 1.0), 0.0)
  }

  /** But the quotes are daily: a month with two quotes comes out twice, once
      per quote, with the month's prices repeated. */
  lemma MergeRepeatsMonthPerQuote()
    ensures var m := PricesWithQuotes([SampleMonth()],
                                      [Quote(2020, 1, Dates.Date(2020, 1, 2), 4.0),
                                       Quote(2020, 1, Dates.Date(2020, 1, 3), 4.1)]);
            |m| == 2 && m[0].Both? && m[1].Both? && m[0].l == m[1].l && m[0].r.datetime != m[1].r.datetime
  {
    var qs := [Quote(2020, 1, Dates.Date(2020, 1, 2), 4.0), Quote(2020, 1, Dates.Date(2020, 1, 3), 4.1)];
    var ms := Tables.MatchesOf(qs, QuoteMonth, Dates.Date(2020, 1, 1));
    assert qs[0] in ms && qs[1] in ms;
    assert ms == qs;
    assert Tables.Unmatched(qs, QuoteMonth, Tables.KeySet([SampleMonth()], MonthPeriod)) == [] by {
      assert Dates.Date(2020, 1, 1) in Tables.KeySet([SampleMonth()], MonthPeriod) by {
        assert MonthPeriod([SampleMonth()][0]) == Dates.Date(2020, 1, 1);
      }
    }
  }

  /** The quotes whose `ano` lies in the selected range. */
  function QuotesInRange(quotes: seq<Quote>, lo: int, hi: int): (r: seq<Quote>)
    ensures forall q :: q in r <==> q in quotes && lo <= q.ano <= hi
  {
    Tables.FilterYears(quotes, QuoteYear, lo, hi)
  }

  /** Section 2's yearly annotations are attached to the last daily quote of each
      year in table order. */
  function YearEndQuotes(quotes: seq<Quote>, lo: int, hi: int): (ps: seq<Point>)
    ensures |ps| == |Tables.GroupLast(QuotesInRange(quotes, lo, hi), QuoteYear)|
  {
    var last := Tables.GroupLast(QuotesInRange(quotes, lo, hi), QuoteYear);
    seq(|last|, i requires 0 <= i < |last| => Point(last[i].datetime, last[i].close))
  }

  /** Row `p` of `rows` is the last one of its year. */
  predicate LastOfItsYear(rows: seq<Quote>, p: int) {
    0 <= p < |rows| && forall j :: p < j < |rows| ==> rows[j].ano != rows[p].ano
  }

  /** Each point is the last in-range quote of its year in table order (whatever
      its date), the years rise strictly from one point to the next, and all lie
      in the selected range. */
  lemma YearEndQuotesAreYearEnds(quotes: seq<Quote>, lo: int, hi: int, i: nat)
    requires i < |YearEndQuotes(quotes, lo, hi)|
    ensures var rows := QuotesInRange(quotes, lo, hi);
            exists p :: LastOfItsYear(rows, p) && lo <= rows[p].ano <= hi
                        && YearEndQuotes(quotes, lo, hi)[i] == Point(rows[p].datetime, rows[p].close)
    ensures var last := Tables.GroupLast(QuotesInRange(quotes, lo, hi), QuoteYear);
            forall j :: i < j < |last| ==> last[i].ano < last[j].ano
  {
    var rows := QuotesInRange(quotes, lo, hi);
    var last := Tables.GroupLast(rows, QuoteYear);
    var ks := Tables.GroupKeys(rows, QuoteYear);
    Tables.GroupLastIsLast(rows, QuoteYear, i);
    var p :| 0 <= p < |rows| && rows[p] == last[i]
             && forall j :: p < j < |rows| ==> QuoteYear(rows[j]) != QuoteYear(rows[p]);
    assert rows[p] in rows;
    assert YearEndQuotes(quotes, lo, hi)[i] == Point(rows[p].datetime, rows[p].close);
    forall j | p < j < |rows| ensures rows[j].ano != rows[p].ano {
      assert QuoteYear(rows[j]) != QuoteYear(rows[p]);
    }
    assert LastOfItsYear(rows, p);
    forall j | i < j < |last| ensures last[i].ano < last[j].ano {
      assert QuoteYear(last[i]) == ks[i] && QuoteYear(last[j]) == ks[j];
    }
  }

  method CambioAnnotations(quotes: seq<Quote>, lo: int, hi: int) returns (anns: seq<Annotation>)
    ensures var ps := YearEndQuotes(quotes, lo, hi);
            |anns| == (if ps == [] then 0 else |ps| - 1)
            && forall i :: 1 <= i < |ps| ==> anns[i - 1] == Annotate(ps[i], PctChange(Values(ps))[i])
  {
    anns := YearlyAnnotations(YearEndQuotes(quotes, lo, hi));
  }

  // ---------------------------------------------------------------------------
  // Section 5: stock balance
  // ---------------------------------------------------------------------------

  /** A row together with its DataFrame index label, which column assignment
      between two frames aligns on. */
  datatype Indexed = Indexed(idx: int, row: MonthRow)

  function IndexedAno(x: Indexed): int { x.row.ano }
  function IndexOf(x: Indexed): int { x.idx }

  function IndexedInRange(df: seq<Indexed>, lo: int, hi: int): (r: seq<Indexed>)
    ensures forall x :: x in r <==> x in df && lo <= x.row.ano <= hi
  {
    Tables.FilterYears(df, IndexedAno, lo, hi)
  }

  /** The month of the first row of `source` carrying index label `idx`; None is NaT. */
  function MonthAt(source: seq<Indexed>, idx: int): (r: Option<Dates.Date>)
    ensures r.None? <==> forall j :: 0 <= j < |source| ==> source[j].idx != idx
    ensures r.Some? ==> exists j :: 0 <= j < |source| && source[j].idx == idx && source[j].row.anoMes == r.value
  {
    if source == [] then None
    else if source[0].idx == idx then Some(source[0].row.anoMes)
    else
      var r := MonthAt(source[1..], idx);
      assert forall j :: 1 <= j < |source| ==> source[j] == source[1..][j - 1];
      r
  }

  /** As written, `df_saldo["periodo"] = pd.to_datetime(df_oferta["ano_mes"])`:
      each row receives the month of the row with the same index label in
      another section's frame, and NaT where that frame has no such row. */
  function PeriodsAlignedFrom(target: seq<Indexed>, source: seq<Indexed>): (r: seq<Option<Dates.Date>>)
    ensures |r| == |target|
    ensures forall i :: 0 <= i < |target| ==>
              (r[i].None? <==> forall j :: 0 <= j < |source| ==> source[j].idx != target[i].idx)
  {
    seq(|target|, i requires 0 <= i < |target| => MonthAt(source, target[i].idx))
  }

  /** Two rows, 2020 and 2021: with section 5 on 2020-2021 and section 3 on 2021
      only, the 2020 row gets no period. */
  lemma PeriodsAlignedFromLosesRows()
    ensures var df := [Indexed(0, SampleMonth()), Indexed(1, SampleMonth().(ano := 2021, anoMes := Dates.Date(2021, 1, 1)))];
            PeriodsAlignedFrom(IndexedInRange(df, 2020, 2021), IndexedInRange(df, 2021, 2021))[0].None?
  {
    var df := [Indexed(0, SampleMonth()), Indexed(1, SampleMonth().(ano := 2021, anoMes := Dates.Date(2021, 1, 1)))];
    var t := IndexedInRange(df, 2020, 2021);
    var s := IndexedInRange(df, 2021, 2021);
    assert t == df by {
      Tables.FilterKeepsAll(df, IndexedAno, 2020, 2021);
    }
    assert s == [df[1]] by {
      assert df == [df[0]] + [df[1]];
      Tables.FilterConcat([df[0]], [df[1]], IndexedAno, 2021, 2021);
    }
  }

  /** When the other section's range covers this one's, the aligned assignment
      happens to give every row its own month. */
  lemma PeriodsAlignedFromCoveringRange(df: seq<Indexed>, lo: int, hi: int, lo3: int, hi3: int, i: nat)
    requires Tables.UniqueBy(df, IndexOf)
    requires lo3 <= lo && hi <= hi3
    requires i < |IndexedInRange(df, lo, hi)|
    ensures PeriodsAlignedFrom(IndexedInRange(df, lo, hi), IndexedInRange(df, lo3, hi3))[i]
            == Some(IndexedInRange(df, lo, hi)[i].row.anoMes)
  {
    var t := IndexedInRange(df, lo, hi);
    var s := IndexedInRange(df, lo3, hi3);
    assert t[i] in t;
    assert t[i] in s;
    var k :| 0 <= k < |s| && s[k] == t[i];
    assert PeriodsAlignedFrom(t, s)[i] == MonthAt(s, t[i].idx);
    var r := MonthAt(s, t[i].idx);
    var j :| 0 <= j < |s| && s[j].idx == t[i].idx && s[j].row.anoMes == r.value;
    assert s[j] in s;
    SameIndexSameRow(df, s[j], t[i]);
  }

  /** Under unique index labels, a label names one row. */
  lemma SameIndexSameRow(df: seq<Indexed>, x: Indexed, y: Indexed)
    requires Tables.UniqueBy(df, IndexOf) && x in df && y in df && x.idx == y.idx
    ensures x == y
  {
    var a :| 0 <= a < |df| && df[a] == x;
    var b :| 0 <= b < |df| && df[b] == y;
    assert IndexOf(df[a]) == IndexOf(df[b]);
  }

  /** A row of the section-5 frame after its added columns. */
  datatype SaldoRow = SaldoRow(periodo: Dates.Date, estoque: real, saldoEstoque: real, prices: Prices.PriceRow<real>)

  /** Section 5 with each row dated by its own month: `saldo_estoque` is the change
      of the stock from the previous row, 0 on the first row. */
  function SaldoFrame(df: seq<MonthRow>, lo: int, hi: int): (r: seq<SaldoRow>)
    ensures var rows := Tables.FilterYears(df, Ano, lo, hi);
            |r| == |rows|
            && (forall i :: 0 <= i < |r| ==> r[i].periodo == rows[i].anoMes && r[i].estoque == rows[i].estoque && r[i].prices == rows[i].prices)
            && (|r| > 0 ==> r[0].saldoEstoque == 0.0)
            && (forall i :: 0 < i < |r| ==> r[i].saldoEstoque == rows[i].estoque - rows[i - 1].estoque)
  {
    var rows := Tables.FilterYears(df, Ano, lo, hi);
    var saldo := Series.DiffFillZero(Estoques(rows));
    seq(|rows|, i requires 0 <= i < |rows| => SaldoRow(rows[i].anoMes, rows[i].estoque, saldo[i], rows[i].prices))
  }

  function SaldoColumnOf(r: seq<SaldoRow>): (c: seq<real>)
    ensures |c| == |r| && forall i :: 0 <= i < |r| ==> c[i] == r[i].saldoEstoque
  {
    seq(|r|, i requires 0 <= i < |r| => r[i].saldoEstoque)
  }

  /** Adding the balances up to a month onto the first stock gives that month's
      stock: the balance column loses nothing but the first level. */
  lemma SaldoFrameTelescopes(df: seq<MonthRow>, lo: int, hi: int, k: nat)
    requires k < |SaldoFrame(df, lo, hi)|
    ensures var r := SaldoFrame(df, lo, hi);
            r[0].estoque + Series.Sum(SaldoColumnOf(r)[..k + 1]) == r[k].estoque
  {
    var rows := Tables.FilterYears(df, Ano, lo, hi);
    var r := SaldoFrame(df, lo, hi);
    var es := Estoques(rows);
    assert SaldoColumnOf(r) == Series.DiffFillZero(es);
    Series.DiffTelescopes(es, k);
  }

  /** The annual bars of section 5: `saldo_estoque` of each in-range year is its
      final minus its initial stock. */
  function AnnualSaldo(dfAno: seq<AnnualRow>, lo: int, hi: int): (c: seq<real>)
    ensures var rows := Tables.FilterYears(dfAno, Periodo, lo, hi);
            |c| == |rows| && forall i :: 0 <= i < |c| ==> c[i] == rows[i].estoqueFinal - rows[i].estoqueInicial
  {
    SaldoColumn(Tables.FilterYears(dfAno, Periodo, lo, hi))
  }

  /** The two columns section 5 correlates, row by row: the monthly stock balance
      and the price chosen in section 5 itself. */
  function SaldoCorrelationInputs(df: seq<MonthRow>, lo: int, hi: int, s: Prices.PriceSeries): (p: (seq<real>, seq<real>))
    ensures var rows := Tables.FilterYears(df, Ano, lo, hi);
            |p.0| == |rows| && |p.1| == |rows|
            && (forall i :: 0 <= i < |rows| ==> p.1[i] == rows[i].prices.Get(s))
            && (|rows| > 0 ==> p.0[0] == 0.0)
            && (forall i :: 0 < i < |rows| ==> p.0[i] == rows[i].estoque - rows[i - 1].estoque)
  {
    var r := SaldoFrame(df, lo, hi);
    (SaldoColumnOf(r), seq(|r|, i requires 0 <= i < |r| => r[i].prices.Get(s)))
  }
}
