/** The KPI arithmetic shared by both dashboards: the year-over-year change,
    the sparkline colour rule, the correlation label, the "latest year versus
    the year before" lookups and the yearly FX annotations. */
module Kpi {
  import opened Wrappers
  import Tables
  import Dates
  import Prices

  // ---------------------------------------------------------------------------
  // Float results of a division
  // ---------------------------------------------------------------------------

  /** A float64 as numpy produces it from a division: finite, an infinity, or NaN. */
  datatype Float = Finite(v: real) | PlusInf | MinusInf | NaN
  {
    /** The comparison `x > 0`, which is false for NaN. */
    predicate Positive() {
      (Finite? && v > 0.0) || PlusInf?
    }
  }

  /** `((cur - prev) / prev) * 100`, with numpy's result for a zero divisor:
      an infinity of the numerator's sign, or NaN for 0/0. */
  function YoY(cur: real, prev: real): (r: Float)
    ensures prev != 0.0 ==> r.Finite? && r.v * prev == (cur - prev) * 100.0
    ensures prev == 0.0 ==> (r.PlusInf? <==> cur > 0.0) && (r.MinusInf? <==> cur < 0.0) && (r.NaN? <==> cur == 0.0)
  {
    if prev != 0.0 then Finite((cur - prev) / prev * 100.0)
    else if cur > 0.0 then PlusInf
    else if cur < 0.0 then MinusInf
    else NaN
  }

  /** Applying the change to the previous value gives back the current one. */
  lemma YoYRoundTrip(cur: real, prev: real)
    requires prev != 0.0
    ensures prev + prev * YoY(cur, prev).v / 100.0 == cur
  {
    var p := YoY(cur, prev).v;
    assert prev * p == (cur - prev) * 100.0;
  }

  /** The change is shown as a rise exactly when the value rose, provided the
      previous value is positive; a negative previous value inverts the sign. */
  lemma YoYPositiveIff(cur: real, prev: real)
    ensures prev > 0.0 ==> (YoY(cur, prev).Positive() <==> cur > prev)
    ensures prev < 0.0 ==> (YoY(cur, prev).Positive() <==> cur < prev)
    ensures prev == 0.0 ==> (YoY(cur, prev).Positive() <==> cur > 0.0)
  {
    if prev != 0.0 {
      var p := YoY(cur, prev).v;
      assert p * prev == (cur - prev) * 100.0;
      if prev > 0.0 {
        assert p > 0.0 ==> p * prev > 0.0;
        assert p <= 0.0 ==> p * prev <= 0.0;
      } else {
        assert p > 0.0 ==> p * prev < 0.0;
        assert p <= 0.0 ==> p * prev >= 0.0;
      }
    }
  }

  /** No change exactly when the two values are equal. */
  lemma YoYZeroIffEqual(cur: real, prev: real)
    requires prev != 0.0
    ensures YoY(cur, prev) == Finite(0.0) <==> cur == prev
  {
    var p := YoY(cur, prev).v;
    assert p * prev == (cur - prev) * 100.0;
  }

  // ---------------------------------------------------------------------------
  // Sparkline colour and correlation label
  // ---------------------------------------------------------------------------

  datatype Trend = Rising | Falling
  {
    function LineColor(): string {
      if Rising? then "#2ca02c" else "#d62728"
    }
    function FillColor(): string {
      if Rising? then "rgba(44, 200, 44, 0.3)" else "rgba(214, 39, 40, 0.3)"
    }
  }

  /** `plot_sparkline`: green when the column's last value is at least its first,
      red otherwise; None stands for the IndexError on an empty column. */
  function SparklineTrend(col: seq<real>): (t: Option<Trend>)
    ensures t.None? <==> col == []
    ensures t == Some(Rising) <==> col != [] && col[|col| - 1] >= col[0]
  {
    if col == [] then None
    else if col[|col| - 1] >= col[0] then Some(Rising)
    else Some(Falling)
  }

  function Reverse(s: seq<real>): (r: seq<real>)
    ensures |r| == |s| && forall i :: 0 <= i < |s| ==> r[i] == s[|s| - 1 - i]
  {
    seq(|s|, i requires 0 <= i < |s| => s[|s| - 1 - i])
  }

  /** Reading a series that moved backwards flips its colour. */
  lemma SparklineReversed(col: seq<real>)
    requires col != [] && col[|col| - 1] != col[0]
    ensures SparklineTrend(Reverse(col)) != SparklineTrend(col)
  {
  }

  /** Shifting every value by the same amount keeps the colour. */
  lemma SparklineShift(col: seq<real>, c: real)
    ensures SparklineTrend(seq(|col|, i requires 0 <= i < |col| => col[i] + c)) == SparklineTrend(col)
  {
  }

  /** A flat series is drawn green: the rule is `>=`, not `>`. */
  lemma SparklineFlatIsRising(col: seq<real>)
    requires col != [] && forall i :: 0 <= i < |col| ==> col[i] == col[0]
    ensures SparklineTrend(col) == Some(Rising)
  {
  }

  /** `"Positiva" if r > 0 else "Negativa"` on a Pearson coefficient, which is
      NaN for a constant column. */
  function CorrelationLabel(r: Float): (s: string)
    ensures s == "Positiva" <==> r.Positive()
    ensures s == "Negativa" <==> !r.Positive()
  {
    if r.Positive() then "Positiva" else "Negativa"
  }

  /** A zero or undefined correlation is labelled negative. */
  lemma CorrelationZeroIsNegativa()
    ensures CorrelationLabel(Finite(0.0)) == "Negativa"
    ensures CorrelationLabel(NaN) == "Negativa"
  {
  }

  // ---------------------------------------------------------------------------
  // The annual and monthly tables
  // ---------------------------------------------------------------------------

  /** A row of the annual balance table. */
  datatype AnnualRow = AnnualRow(periodo: int, estoqueInicial: real, producao: real, importacao: real,
                                 exportacao: real, processamento: real, estoqueFinal: real, usdbrl: real)

  /** A row of the monthly table. */
  datatype MonthRow = MonthRow(ano: int, anoMes: Dates.Date, estoque: real, exportacao: real,
                               processamento: real, importacao: real, producao: real,
                               prices: Prices.PriceRow<real>, usdbrl: real)

  /** A row of the daily USD/BRL quote table (`variacao_cambial.csv`). */
  datatype Quote = Quote(ano: int, mes: int, datetime: Dates.Date, close: real)

  function Periodo(r: AnnualRow): int { r.periodo }
  function Ano(r: MonthRow): int { r.ano }
  function MonthStamp(r: MonthRow): int { Dates.Stamp(r.anoMes) }
  function QuoteYear(q: Quote): int { q.ano }
  function QuoteStamp(q: Quote): int { Dates.Stamp(q.datetime) }

  /** The `saldo` column added to the annual table: final minus initial stock. */
  function Saldo(r: AnnualRow): real {
    r.estoqueFinal - r.estoqueInicial
  }

  function SaldoColumn(rows: seq<AnnualRow>): (c: seq<real>)
    ensures |c| == |rows| && forall i :: 0 <= i < |rows| ==> c[i] == rows[i].estoqueFinal - rows[i].estoqueInicial
  {
    seq(|rows|, i requires 0 <= i < |rows| => Saldo(rows[i]))
  }

  // ---------------------------------------------------------------------------
  // Columns of the monthly table
  // ---------------------------------------------------------------------------

  function PriceColumn(rows: seq<MonthRow>, s: Prices.PriceSeries): (col: seq<real>)
    ensures |col| == |rows| && forall i :: 0 <= i < |rows| ==> col[i] == rows[i].prices.Get(s)
  {
    seq(|rows|, i requires 0 <= i < |rows| => rows[i].prices.Get(s))
  }

  function Estoques(rows: seq<MonthRow>): (c: seq<real>)
    ensures |c| == |rows| && forall i :: 0 <= i < |rows| ==> c[i] == rows[i].estoque
  {
    seq(|rows|, i requires 0 <= i < |rows| => rows[i].estoque)
  }

  function Producoes(rows: seq<MonthRow>): (c: seq<real>)
    ensures |c| == |rows| && forall i :: 0 <= i < |rows| ==> c[i] == rows[i].producao
  {
    seq(|rows|, i requires 0 <= i < |rows| => rows[i].producao)
  }

  function Importacoes(rows: seq<MonthRow>): (c: seq<real>)
    ensures |c| == |rows| && forall i :: 0 <= i < |rows| ==> c[i] == rows[i].importacao
  {
    seq(|rows|, i requires 0 <= i < |rows| => rows[i].importacao)
  }

  function Exportacoes(rows: seq<MonthRow>): (c: seq<real>)
    ensures |c| == |rows| && forall i :: 0 <= i < |rows| ==> c[i] == rows[i].exportacao
  {
    seq(|rows|, i requires 0 <= i < |rows| => rows[i].exportacao)
  }

  function Processamentos(rows: seq<MonthRow>): (c: seq<real>)
    ensures |c| == |rows| && forall i :: 0 <= i < |rows| ==> c[i] == rows[i].processamento
  {
    seq(|rows|, i requires 0 <= i < |rows| => rows[i].processamento)
  }

  predicate HasYear(rows: seq<AnnualRow>, y: int) {
    exists x :: x in rows && x.periodo == y
  }

  // ---------------------------------------------------------------------------
  // Latest year versus the year before
  // ---------------------------------------------------------------------------

  /** `.iloc[0]` or `.iloc[-1]`. */
  datatype Pick = First | Last

  /** Row `i` is the one `.iloc[0]` (First) or `.iloc[-1]` (Last) reads from the
      rows of year `y`: a row of that year with no row of the year before it
      (First) or after it (Last) in frame order. */
  predicate Picked(rows: seq<AnnualRow>, y: int, pick: Pick, i: int) {
    0 <= i < |rows| && rows[i].periodo == y
    && (pick == First ==> forall j :: 0 <= j < i ==> rows[j].periodo != y)
    && (pick == Last ==> forall j :: i < j < |rows| ==> rows[j].periodo != y)
  }

  /** `df_ano_kpi[df_ano_kpi["periodo"] == y][col].iloc[...]` as a whole row;
      None stands for the IndexError on a year with no row. */
  function RowOfYear(rows: seq<AnnualRow>, y: int, pick: Pick): (r: Option<AnnualRow>)
    ensures r.None? <==> !HasYear(rows, y)
    ensures r.Some? ==> r.value in rows && r.value.periodo == y
    ensures r.Some? ==> exists i :: Picked(rows, y, pick, i) && rows[i] == r.value
  {
    if !HasYear(rows, y) then
      None
    else
      var i := if pick == First then Tables.FirstIndexOf(rows, Periodo, y) else Tables.LastIndexOf(rows, Periodo, y);
      assert Picked(rows, y, pick, i);
      Some(rows[i])
  }

  /** The annual columns that get a KPI card. */
  datatype Column = EstoqueInicial | Producao | Importacao | Exportacao | Processamento | Usdbrl
  {
    function Of(r: AnnualRow): real {
      match this
      case EstoqueInicial => r.estoqueInicial
      case Producao => r.producao
      case Importacao => r.importacao
      case Exportacao => r.exportacao
      case Processamento => r.processamento
      case Usdbrl => r.usdbrl
    }

    /** The initial stock is read with `.iloc[0]`, every other column with `.iloc[-1]`. */
    function Pick(): Pick {
      if EstoqueInicial? then First else Last
    }
  }

  datatype KpiCard = KpiCard(current: real, previous: real, change: Float)

  /** The value of `col` in year `y`, the value in year `y - 1`, and the change
      between them. The previous year is `y - 1`, not the latest year before
      `y` that has data: the card fails when that exact year is missing. */
  function AnnualKpi(rows: seq<AnnualRow>, y: int, col: Column): (k: Option<KpiCard>)
    ensures k.Some? <==> HasYear(rows, y) && HasYear(rows, y - 1)
    ensures k.Some? ==> k.value.change == YoY(k.value.current, k.value.previous)
    ensures k.Some? ==> exists i :: Picked(rows, y, col.Pick(), i) && col.Of(rows[i]) == k.value.current
    ensures k.Some? ==> exists i :: Picked(rows, y - 1, col.Pick(), i) && col.Of(rows[i]) == k.value.previous
  {
    var cur :- RowOfYear(rows, y, col.Pick());
    var prev :- RowOfYear(rows, y - 1, col.Pick());
    Some(KpiCard(col.Of(cur), col.Of(prev), YoY(col.Of(cur), col.Of(prev))))
  }

  /** The balance of year `y` as the card computes it: the final stock of the
      year's last row minus the initial stock of its first row. */
  predicate SaldoOfYear(rows: seq<AnnualRow>, y: int, v: real) {
    exists f, l :: 0 <= f < |rows| && 0 <= l < |rows| && Picked(rows, y, First, f) && Picked(rows, y, Last, l)
                   && v == rows[l].estoqueFinal - rows[f].estoqueInicial
  }

  /** The supply/demand balance card: the year's last final stock minus its first
      initial stock, for `y` and for `y - 1`. */
  function SaldoKpi(rows: seq<AnnualRow>, y: int): (k: Option<KpiCard>)
    ensures k.Some? <==> HasYear(rows, y) && HasYear(rows, y - 1)
    ensures k.Some? ==> k.value.change == YoY(k.value.current, k.value.previous)
    ensures k.Some? ==> SaldoOfYear(rows, y, k.value.current) && SaldoOfYear(rows, y - 1, k.value.previous)
  {
    var curFirst :- RowOfYear(rows, y, First);
    var prevFirst :- RowOfYear(rows, y - 1, First);
    var curLast := RowOfYear(rows, y, Last).value;
    var prevLast := RowOfYear(rows, y - 1, Last).value;
    var cur := curLast.estoqueFinal - curFirst.estoqueInicial;
    var prev := prevLast.estoqueFinal - prevFirst.estoqueInicial;
    Some(KpiCard(cur, prev, YoY(cur, prev)))
  }

  /** With one row per year, the year's row is the only one the lookups can pick. */
  lemma RowOfYearUnique(rows: seq<AnnualRow>, i: nat, pick: Pick)
    requires Tables.UniqueBy(rows, Periodo) && i < |rows|
    ensures RowOfYear(rows, rows[i].periodo, pick) == Some(rows[i])
  {
    var r := RowOfYear(rows, rows[i].periodo, pick);
    assert rows[i] in rows;
    var j :| 0 <= j < |rows| && rows[j] == r.value;
    assert Periodo(rows[j]) == Periodo(rows[i]);
  }

  /** On a table with one row per year, the balance card shows exactly the
      `saldo` column of the year's row and of the previous year's row. */
  lemma SaldoKpiIsSaldoColumn(rows: seq<AnnualRow>, i: nat, j: nat)
    requires Tables.UniqueBy(rows, Periodo) && i < |rows| && j < |rows|
    requires rows[j].periodo == rows[i].periodo - 1
    ensures SaldoKpi(rows, rows[i].periodo) == Some(KpiCard(SaldoColumn(rows)[i], SaldoColumn(rows)[j],
                                                            YoY(SaldoColumn(rows)[i], SaldoColumn(rows)[j])))
  {
    RowOfYearUnique(rows, i, First);
    RowOfYearUnique(rows, i, Last);
    RowOfYearUnique(rows, j, First);
    RowOfYearUnique(rows, j, Last);
  }

  /** When every row of year `y` is the same row `x`, the balance card's current
      value is that row's `saldo`. */
  lemma SaldoKpiOfSingleRow(rows: seq<AnnualRow>, y: int, x: AnnualRow)
    requires x in rows && x.periodo == y
    requires forall z :: z in rows && z.periodo == y ==> z == x
    requires HasYear(rows, y - 1)
    ensures SaldoKpi(rows, y).Some? && SaldoKpi(rows, y).value.current == Saldo(x)
  {
    var first := RowOfYear(rows, y, First).value;
    var last := RowOfYear(rows, y, Last).value;
    assert first == x && last == x;
  }

  function SampleYear(y: int): AnnualRow {
    AnnualRow(y, 1.0, 1.0, 1.0, 1.0, 1.0, 1.0, 1.0)
  }

  /** A gap in the years makes the cards fail even though an earlier year exists. */
  lemma PreviousYearIsYearMinusOne()
    ensures AnnualKpi([SampleYear(2020), SampleYear(2022)], 2022, Producao).None?
  {
    var rows := [SampleYear(2020), SampleYear(2022)];
    assert !HasYear(rows, 2021);
  }

  /** A KPI card and the colour of the sparkline drawn under it. */
  datatype Card = Card(kpi: KpiCard, trend: Trend)

  function AnnualColumn(rows: seq<AnnualRow>, c: Column): (col: seq<real>)
    ensures |col| == |rows| && forall i :: 0 <= i < |rows| ==> col[i] == c.Of(rows[i])
  {
    seq(|rows|, i requires 0 <= i < |rows| => c.Of(rows[i]))
  }

  /** One annual card: the KPI of column `c` for `y` against `y - 1`, and the
      sparkline of that column over the whole filtered table. */
  function AnnualCard(ano: seq<AnnualRow>, y: int, c: Column): (card: Card)
    requires HasYear(ano, y) && HasYear(ano, y - 1)
    ensures card.kpi.change == YoY(card.kpi.current, card.kpi.previous)
    ensures exists i :: Picked(ano, y, c.Pick(), i) && c.Of(ano[i]) == card.kpi.current
    ensures exists i :: Picked(ano, y - 1, c.Pick(), i) && c.Of(ano[i]) == card.kpi.previous
    ensures card.trend == Rising <==> c.Of(ano[|ano| - 1]) >= c.Of(ano[0])
  {
    Card(AnnualKpi(ano, y, c).value, SparklineTrend(AnnualColumn(ano, c)).value)
  }

  /** `df[...]["periodo"].max()` (or `["ano"].max()`): None on an empty table. */
  function LatestYear(rows: seq<AnnualRow>): (m: Option<int>)
    ensures m.None? <==> rows == []
    ensures m.Some? ==> HasYear(rows, m.value) && forall x :: x in rows ==> x.periodo <= m.value
  {
    Tables.MaxOf(rows, Periodo)
  }

  // ---------------------------------------------------------------------------
  // Monthly price card
  // ---------------------------------------------------------------------------

  predicate HasMonthYear(rows: seq<MonthRow>, y: int) {
    exists x :: x in rows && x.ano == y
  }

  /** `df_kpi["ano"].max()`: None on an empty table. */
  function LatestAno(rows: seq<MonthRow>): (m: Option<int>)
    ensures m.None? <==> rows == []
    ensures m.Some? ==> HasMonthYear(rows, m.value) && forall x :: x in rows ==> x.ano <= m.value
  {
    Tables.MaxOf(rows, Ano)
  }

  /** `df_kpi[df_kpi["ano"] == y].sort_values("ano_mes").iloc[-1]`: the year's
      row with the latest month. */
  function LatestMonthOfYear(rows: seq<MonthRow>, y: int): (r: Option<MonthRow>)
    ensures r.None? <==> !HasMonthYear(rows, y)
    ensures r.Some? ==> r.value in rows && r.value.ano == y
    ensures r.Some? ==> forall x :: x in rows && x.ano == y ==> Dates.Stamp(x.anoMes) <= Dates.Stamp(r.value.anoMes)
  {
    var sel := Tables.RowsOfYear(rows, Ano, y);
    if sel == [] then
      None
    else
      Tables.SortedLastIsMax(sel, MonthStamp);
      Some(Tables.SortBy(sel, MonthStamp)[|sel| - 1])
  }

  /** The price card for the selected series: the latest monthly price of year
      `y` against the latest monthly price of year `y - 1`. */
  function PriceKpi(rows: seq<MonthRow>, y: int, s: Prices.PriceSeries): (k: Option<KpiCard>)
    ensures k.Some? <==> HasMonthYear(rows, y) && HasMonthYear(rows, y - 1)
    ensures k.Some? ==> k.value.change == YoY(k.value.current, k.value.previous)
    ensures k.Some? ==> exists x :: x in rows && x.ano == y && x.prices.Get(s) == k.value.current
                                    && forall z :: z in rows && z.ano == y ==> Dates.Stamp(z.anoMes) <= Dates.Stamp(x.anoMes)
    ensures k.Some? ==> exists x :: x in rows && x.ano == y - 1 && x.prices.Get(s) == k.value.previous
                                    && forall z :: z in rows && z.ano == y - 1 ==> Dates.Stamp(z.anoMes) <= Dates.Stamp(x.anoMes)
  {
    var cur :- LatestMonthOfYear(rows, y);
    var prev :- LatestMonthOfYear(rows, y - 1);
    Some(KpiCard(cur.prices.Get(s), prev.prices.Get(s), YoY(cur.prices.Get(s), prev.prices.Get(s))))
  }

  // ---------------------------------------------------------------------------
  // Yearly FX annotations: groupby("ano").last(), pct_change()*100, fillna(0)
  // ---------------------------------------------------------------------------

  datatype Point = Point(period: Dates.Date, value: real)

  function FillNaN(x: Float): Float {
    if x.NaN? then Finite(0.0) else x
  }

  function Values(ps: seq<Point>): (vs: seq<real>)
    ensures |vs| == |ps| && forall i :: 0 <= i < |ps| ==> vs[i] == ps[i].value
  {
    seq(|ps|, i requires 0 <= i < |ps| => ps[i].value)
  }

  /** One entry of `pct_change() * 100` after `fillna(0)`. */
  function PctEntry(cur: real, prev: real): (r: Float)
    ensures prev != 0.0 ==> r == YoY(cur, prev)
    ensures prev == 0.0 && cur == 0.0 ==> r == Finite(0.0)
    ensures prev == 0.0 && cur > 0.0 ==> r == PlusInf
    ensures prev == 0.0 && cur < 0.0 ==> r == MinusInf
  {
    FillNaN(YoY(cur, prev))
  }

  /** `pct_change() * 100` followed by `fillna(0)`: the change of each value
      over the one before it, with the first entry and 0/0 shown as 0; a rise
      or fall from 0 stays an infinity, which `fillna` does not touch. */
  function PctChange(vs: seq<real>): (r: seq<Float>)
    ensures |r| == |vs|
    ensures |vs| > 0 ==> r[0] == Finite(0.0)
    ensures forall i {:trigger r[i]} :: 0 < i < |vs| && vs[i - 1] != 0.0 ==> r[i] == YoY(vs[i], vs[i - 1])
    ensures forall i {:trigger r[i]} :: 0 < i < |vs| && vs[i - 1] == 0.0 && vs[i] == 0.0 ==> r[i] == Finite(0.0)
    ensures forall i {:trigger r[i]} :: 0 < i < |vs| && vs[i - 1] == 0.0 && vs[i] > 0.0 ==> r[i] == PlusInf
    ensures forall i {:trigger r[i]} :: 0 < i < |vs| && vs[i - 1] == 0.0 && vs[i] < 0.0 ==> r[i] == MinusInf
  {
    seq(|vs|, i requires 0 <= i < |vs| => if i == 0 then Finite(0.0) else PctEntry(vs[i], vs[i - 1]))
  }

  /** An annotation is green exactly when the year's value rose over the previous
      year's, as long as that previous value is positive. */
  lemma PctChangeGreenIffRise(vs: seq<real>, i: nat)
    requires 0 < i < |vs| && vs[i - 1] > 0.0
    ensures PctChange(vs)[i].Positive() <==> vs[i] > vs[i - 1]
  {
    YoYPositiveIff(vs[i], vs[i - 1]);
  }

  /** The two font colours of an annotation, plotly's "green" and "red". */
  datatype Color = Green | Red

  datatype Annotation = Annotation(x: Dates.Date, y: real, change: Float, color: Color)

  /** The annotation drawn at a point: green text for a rise, red otherwise. */
  function Annotate(p: Point, change: Float): (a: Annotation)
    ensures a.color == Green <==> change.Positive()
  {
    Annotation(p.period, p.value, change, if change.Positive() then Green else Red)
  }

  /** The annotation loop: one annotation per year from the second one on, at the
      year's last point, carrying the change over the previous year. */
  method YearlyAnnotations(points: seq<Point>) returns (anns: seq<Annotation>)
    ensures |anns| == if points == [] then 0 else |points| - 1
    ensures forall i :: 1 <= i < |points| ==> anns[i - 1] == Annotate(points[i], PctChange(Values(points))[i])
  {
    anns := AnnotateFrom(points, PctChange(Values(points)));
  }

  /** The loop over the years from the second on, each annotated with its change. */
  method AnnotateFrom(points: seq<Point>, changes: seq<Float>) returns (anns: seq<Annotation>)
    requires |changes| == |points|
    ensures |anns| == if points == [] then 0 else |points| - 1
    ensures forall i :: 1 <= i < |points| ==> anns[i - 1] == Annotate(points[i], changes[i])
  {
    anns := [];
    if points == [] {
      return;
    }
    var i := 1;
    while i < |points|
      invariant 1 <= i <= |points|
      invariant |anns| == i - 1
      invariant forall k :: 0 <= k < |anns| ==> anns[k] == Annotate(points[k + 1], changes[k + 1])
    {
      anns := anns + [Annotate(points[i], changes[i])];
      i := i + 1;
    }
    forall j | 1 <= j < |points| ensures anns[j - 1] == Annotate(points[j], changes[j]) {
      var k := j - 1;
      assert anns[k] == Annotate(points[k + 1], changes[k + 1]);
    }
  }
}
