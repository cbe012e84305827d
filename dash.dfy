/** The computations of the main dashboard page: the KPI panel (section 1), the
    exchange-rate section with its yearly annotations (section 2), and the
    supply and demand sections with their 12-month trend columns and the
    inputs of their correlation cards (sections 3 and 4). */
module Dash {
  import opened Wrappers
  import Tables
  import Series
  import Prices
  import opened Kpi

  /** The boolean-mask filter on `ano` that opens every section. */
  function MonthsInRange(df: seq<MonthRow>, lo: int, hi: int): (r: seq<MonthRow>)
    ensures forall x :: x in r <==> x in df && lo <= x.ano <= hi
  {
    Tables.FilterYears(df, Ano, lo, hi)
  }

  /** The same filter on the annual table's `periodo`. */
  function YearsInRange(dfAno: seq<AnnualRow>, lo: int, hi: int): (r: seq<AnnualRow>)
    ensures forall x :: x in r <==> x in dfAno && lo <= x.periodo <= hi
  {
    Tables.FilterYears(dfAno, Periodo, lo, hi)
  }

  // ---------------------------------------------------------------------------
  // Section 1: KPI panel
  // ---------------------------------------------------------------------------

  datatype KpiPanel = KpiPanel(
    year: int, monthYear: int,
    saldo: Card, dolar: Card, price: Card,
    estoqueInicial: Card, producao: Card, importacao: Card,
    exportacao: Card, processamento: Card)

  /** Both tables have rows in range, and each has its latest year and the year
      before it. */
  predicate Renders(kpi: seq<MonthRow>, ano: seq<AnnualRow>) {
    ano != [] && kpi != []
    && PanelYears(kpi, ano, LatestYear(ano).value, LatestAno(kpi).value)
  }

  /** `year` and the year before it are `periodo`s of the annual rows, and
      `monthYear` and the year before it are `ano`s of the monthly rows. */
  predicate PanelYears(kpi: seq<MonthRow>, ano: seq<AnnualRow>, year: int, monthYear: int) {
    HasYear(ano, year) && HasYear(ano, year - 1)
    && HasMonthYear(kpi, monthYear) && HasMonthYear(kpi, monthYear - 1)
  }

  /** Section 1. The annual cards compare the latest `periodo` of the filtered
      annual table with the year before it; the price card compares the latest
      `ano` of the filtered monthly table with the year before it. None stands
      for the IndexError raised when one of those years has no row. */
  function KpiSection(df: seq<MonthRow>, dfAno: seq<AnnualRow>, lo: int, hi: int, s: Prices.PriceSeries): (r: Option<KpiPanel>)
    ensures r.Some? <==> Renders(MonthsInRange(df, lo, hi), YearsInRange(dfAno, lo, hi))
    ensures r.Some? ==> var ano := YearsInRange(dfAno, lo, hi);
                        var kpi := MonthsInRange(df, lo, hi);
                        r.value.year == LatestYear(ano).value && r.value.monthYear == LatestAno(kpi).value
                        && PanelYears(kpi, ano, r.value.year, r.value.monthYear)
                        && r.value == Panel(kpi, ano, r.value.year, r.value.monthYear, s)
  {
    var kpi := MonthsInRange(df, lo, hi);
    var ano := YearsInRange(dfAno, lo, hi);
    if !Renders(kpi, ano) then None
    else Some(Panel(kpi, ano, LatestYear(ano).value, LatestAno(kpi).value, s))
  }

  /** A year that the filtered annual table holds together with the year before
      it lies in the selected range with that year, and both are `periodo`s of
      the whole table: so the panel's year, the latest in-range `periodo`, is
      never the range's first year. */
  lemma PanelYearInRange(dfAno: seq<AnnualRow>, lo: int, hi: int, y: int)
    requires HasYear(YearsInRange(dfAno, lo, hi), y) && HasYear(YearsInRange(dfAno, lo, hi), y - 1)
    ensures lo <= y - 1 && y <= hi
    ensures HasYear(dfAno, y) && HasYear(dfAno, y - 1)
  {
  }

  /** The ten cards of section 1 once both pairs of years are known to exist. */
  function Panel(kpi: seq<MonthRow>, ano: seq<AnnualRow>, year: int, monthYear: int, s: Prices.PriceSeries): (p: KpiPanel)
    requires PanelYears(kpi, ano, year, monthYear)
    ensures p.year == year && p.monthYear == monthYear
  {
    KpiPanel(
      year, monthYear,
      Card(SaldoKpi(ano, year).value, SparklineTrend(SaldoColumn(ano)).value),
      AnnualCard(ano, year, Usdbrl),
      Card(PriceKpi(kpi, monthYear, s).value, SparklineTrend(PriceColumn(kpi, s)).value),
      AnnualCard(ano, year, EstoqueInicial),
      AnnualCard(ano, year, Producao),
      AnnualCard(ano, year, Importacao),
      AnnualCard(ano, year, Exportacao),
      AnnualCard(ano, year, Processamento))
  }

  /** Each card of a panel: the balance card is the balance lookup with its
      sparkline's trend, the five annual cards compare `year` with `year - 1` in
      their own column, and the price card compares `monthYear` with the year
      before it. */
  lemma PanelCards(kpi: seq<MonthRow>, ano: seq<AnnualRow>, year: int, monthYear: int, s: Prices.PriceSeries)
    requires PanelYears(kpi, ano, year, monthYear)
    ensures var p := Panel(kpi, ano, year, monthYear, s);
            p.saldo == Card(SaldoKpi(ano, year).value, SparklineTrend(SaldoColumn(ano)).value)
            && p.dolar == AnnualCard(ano, year, Usdbrl)
            && p.estoqueInicial == AnnualCard(ano, year, EstoqueInicial)
            && p.producao == AnnualCard(ano, year, Producao)
            && p.importacao == AnnualCard(ano, year, Importacao)
            && p.exportacao == AnnualCard(ano, year, Exportacao)
            && p.processamento == AnnualCard(ano, year, Processamento)
            && p.price == Card(PriceKpi(kpi, monthYear, s).value, SparklineTrend(PriceColumn(kpi, s)).value)
  {
  }

  /** A one-year range on the slider always fails: the year before the selected
      one has been filtered out. */
  lemma KpiSectionSingleYearFails(df: seq<MonthRow>, dfAno: seq<AnnualRow>, y: int, s: Prices.PriceSeries)
    ensures KpiSection(df, dfAno, y, y, s).None?
  {
  }

  /** On a table with one row per year, the balance card shows the `saldo` column
      of the latest year's row. */
  lemma KpiSaldoIsSaldoColumn(df: seq<MonthRow>, dfAno: seq<AnnualRow>, lo: int, hi: int, s: Prices.PriceSeries, i: nat)
    requires Tables.UniqueBy(dfAno, Periodo) && i < |dfAno|
    requires KpiSection(df, dfAno, lo, hi, s).Some?
    requires dfAno[i].periodo == KpiSection(df, dfAno, lo, hi, s).value.year
    ensures KpiSection(df, dfAno, lo, hi, s).value.saldo.kpi.current == Saldo(dfAno[i])
  {
    var panel := KpiSection(df, dfAno, lo, hi, s).value;
    SaldoOfUniqueYear(dfAno, lo, hi, panel.year, i);
  }

  /** With one row per year, the balance of a year in range whose previous year is
      also in range is that row's balance. */
  lemma SaldoOfUniqueYear(dfAno: seq<AnnualRow>, lo: int, hi: int, y: int, i: nat)
    requires Tables.UniqueBy(dfAno, Periodo) && i < |dfAno| && dfAno[i].periodo == y
    requires lo <= y - 1 && y <= hi && HasYear(dfAno, y - 1)
    ensures SaldoKpi(YearsInRange(dfAno, lo, hi), y).Some?
    ensures SaldoKpi(YearsInRange(dfAno, lo, hi), y).value.current == Saldo(dfAno[i])
  {
    var ano := YearsInRange(dfAno, lo, hi);
    var w :| w in dfAno && w.periodo == y - 1;
    assert w in ano;
    assert dfAno[i] in ano;
    forall z | z in ano && z.periodo == y ensures z == dfAno[i] {
      var a :| 0 <= a < |dfAno| && dfAno[a] == z;
      assert Periodo(dfAno[a]) == Periodo(dfAno[i]);
    }
    SaldoKpiOfSingleRow(ano, y, dfAno[i]);
  }

  // ---------------------------------------------------------------------------
  // Section 2: exchange rate
  // ---------------------------------------------------------------------------

  /** `df_usdbrl.groupby("ano").last()`: the last monthly row of every year in
      range, as the point (period, USD/BRL) an annotation is attached to. */
  function YearEndPoints(df: seq<MonthRow>, lo: int, hi: int): (ps: seq<Point>)
    ensures |ps| == |Tables.GroupLast(MonthsInRange(df, lo, hi), Ano)|
  {
    var last := Tables.GroupLast(MonthsInRange(df, lo, hi), Ano);
    seq(|last|, i requires 0 <= i < |last| => Point(last[i].anoMes, last[i].usdbrl))
  }

  /** Each point is the last row of its year in frame order, the years rise
      strictly from one point to the next, and all lie in the selected range. */
  lemma YearEndPointsAreYearEnds(df: seq<MonthRow>, lo: int, hi: int, i: nat)
    requires i < |YearEndPoints(df, lo, hi)|
    ensures var rows := MonthsInRange(df, lo, hi);
            exists p :: 0 <= p < |rows| && YearEndPoints(df, lo, hi)[i] == Point(rows[p].anoMes, rows[p].usdbrl)
              && lo <= rows[p].ano <= hi
              && forall j :: p < j < |rows| ==> rows[j].ano != rows[p].ano
    ensures var last := Tables.GroupLast(MonthsInRange(df, lo, hi), Ano);
            forall j :: i < j < |last| ==> last[i].ano < last[j].ano
  {
    var rows := MonthsInRange(df, lo, hi);
    var last := Tables.GroupLast(rows, Ano);
    var ks := Tables.GroupKeys(rows, Ano);
    Tables.GroupLastIsLast(rows, Ano, i);
    var p :| 0 <= p < |rows| && rows[p] == last[i]
             && forall j :: p < j < |rows| ==> Ano(rows[j]) != Ano(rows[p]);
    assert rows[p] in rows;
    assert YearEndPoints(df, lo, hi)[i] == Point(rows[p].anoMes, rows[p].usdbrl);
    forall j | i < j < |last| ensures last[i].ano < last[j].ano {
      assert Ano(last[i]) == ks[i] && Ano(last[j]) == ks[j];
    }
  }

  /** Section 2's annotation loop over the yearly points. */
  method CambioAnnotations(df: seq<MonthRow>, lo: int, hi: int) returns (anns: seq<Annotation>)
    ensures var ps := YearEndPoints(df, lo, hi);
            |anns| == (if ps == [] then 0 else |ps| - 1)
            && forall i :: 1 <= i < |ps| ==> anns[i - 1] == Annotate(ps[i], PctChange(Values(ps))[i])
  {
    anns := YearlyAnnotations(YearEndPoints(df, lo, hi));
  }

  // ---------------------------------------------------------------------------
  // Sections 3 and 4: supply and demand
  // ---------------------------------------------------------------------------

  /** The supply frame after its three added columns. */
  datatype OfertaFrame = OfertaFrame(rows: seq<MonthRow>, tendenciaEstoque: seq<real>,
                                     producao12Meses: seq<real>, importacao12Meses: seq<real>)

  /** The demand frame after its two added columns. */
  datatype DemandaFrame = DemandaFrame(rows: seq<MonthRow>, exportacao12Meses: seq<real>,
                                       processamento12Meses: seq<real>)

  /** Section 3 filters the monthly table and adds, one after the other, the
      12-month moving average of the stock and the 12-month sums of production
      and imports. */
  method OfertaSection(df: seq<MonthRow>, lo: int, hi: int) returns (f: OfertaFrame)
    ensures f.rows == MonthsInRange(df, lo, hi)
    ensures |f.tendenciaEstoque| == |f.rows| && |f.producao12Meses| == |f.rows| && |f.importacao12Meses| == |f.rows|
    ensures f.tendenciaEstoque == Series.RollingMean(Estoques(f.rows))
    ensures f.producao12Meses == Series.RollingSum(Producoes(f.rows))
    ensures f.importacao12Meses == Series.RollingSum(Importacoes(f.rows))
  {
    var rows := MonthsInRange(df, lo, hi);
    f := OfertaFrame(rows, [], [], []);
    f := f.(tendenciaEstoque := Series.RollingMean(Estoques(rows)));
    f := f.(producao12Meses := Series.RollingSum(Producoes(rows)));
    f := f.(importacao12Meses := Series.RollingSum(Importacoes(rows)));
  }

  /** Section 4 filters the monthly table and adds the 12-month sums of exports
      and of crushing. */
  method DemandaSection(df: seq<MonthRow>, lo: int, hi: int) returns (f: DemandaFrame)
    ensures f.rows == MonthsInRange(df, lo, hi)
    ensures |f.exportacao12Meses| == |f.rows| && |f.processamento12Meses| == |f.rows|
    ensures f.exportacao12Meses == Series.RollingSum(Exportacoes(f.rows))
    ensures f.processamento12Meses == Series.RollingSum(Processamentos(f.rows))
  {
    var rows := MonthsInRange(df, lo, hi);
    f := DemandaFrame(rows, [], []);
    f := f.(exportacao12Meses := Series.RollingSum(Exportacoes(rows)));
    f := f.(processamento12Meses := Series.RollingSum(Processamentos(rows)));
  }

  /** The two columns handed to `.corr` for the stock card of section 3: the
      stock trend and the price column chosen in section 2. The section-3
      choice `priceOfSection3` is not used. */
  function StockCorrelationInputs(f: OfertaFrame, priceOfSection2: Prices.PriceSeries,
                                  priceOfSection3: Prices.PriceSeries): (xy: (seq<real>, seq<real>))
    ensures xy.0 == f.tendenciaEstoque
    ensures |xy.1| == |f.rows| && forall i :: 0 <= i < |f.rows| ==> xy.1[i] == f.rows[i].prices.Get(priceOfSection2)
  {
    (f.tendenciaEstoque, PriceColumn(f.rows, priceOfSection2))
  }

  /** The production and import cards of section 3 use the section-3 price. */
  function ProductionCorrelationInputs(f: OfertaFrame, priceOfSection3: Prices.PriceSeries): (xy: (seq<real>, seq<real>))
    ensures xy.0 == f.producao12Meses
    ensures |xy.1| == |f.rows| && forall i :: 0 <= i < |f.rows| ==> xy.1[i] == f.rows[i].prices.Get(priceOfSection3)
  {
    (f.producao12Meses, PriceColumn(f.rows, priceOfSection3))
  }

  /** Changing the section-3 drop-down does not change what the stock card
      correlates, while it does change what the production card correlates. */
  lemma StockCardIgnoresSection3Choice(f: OfertaFrame, p2: Prices.PriceSeries, p3: Prices.PriceSeries, q3: Prices.PriceSeries)
    ensures StockCorrelationInputs(f, p2, p3) == StockCorrelationInputs(f, p2, q3)
    ensures StockCorrelationInputs(f, p2, p3).1 == ProductionCorrelationInputs(f, p2).1
  {
  }

  /** On the first row every trend column equals the raw value it is built from,
      and every 12-month sum is the sum of the last twelve months once a year
      of data has accumulated. */
  lemma OfertaTrendColumns(f: OfertaFrame, i: nat)
    requires f.tendenciaEstoque == Series.RollingMean(Estoques(f.rows))
    requires f.producao12Meses == Series.RollingSum(Producoes(f.rows))
    requires Series.Window - 1 <= i < |f.rows|
    ensures f.producao12Meses[i] == Series.Sum(Producoes(f.rows)[i + 1 - Series.Window..i + 1])
    ensures f.tendenciaEstoque[i] == Series.Sum(Estoques(f.rows)[i + 1 - Series.Window..i + 1]) / (Series.Window as real)
  {
    Series.RollingMeanFull(Estoques(f.rows), i);
    Series.RollingMeanFull(Producoes(f.rows), i);
  }
}
