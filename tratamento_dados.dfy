/** The workbook ETL that writes the annual and monthly soybean tables: the
    annual balance is filtered to the grain product and pivoted to one row per
    date, the last exchange rate of each year is attached to it; the monthly
    sheets are outer-merged on their date, the stock balance is the month-on-month
    change of stocks, the annual production is spread over the months with fixed
    seasonal weights, and each month gets the exchange rate quoted closest to its
    first day. */
module TratamentoDados {
  import opened Wrappers
  import Tables
  import Series
  import Dates

  // ---------------------------------------------------------------------------
  // Long sheets: filter on the product, pivot on (date, label)
  // ---------------------------------------------------------------------------

  /** A row of a long sheet: product, date, label of the measure, value. */
  datatype Record = Record(produto: string, data: Dates.Date, disc: string, valor: real)

  function RecStamp(r: Record): int { Dates.Stamp(r.data) }

  predicate ValidRecords(rs: seq<Record>) {
    forall r :: r in rs ==> Dates.Valid(r.data)
  }

  /** `df[df['PRODUTO'] == produto]`. */
  function FilterProduto(rs: seq<Record>, produto: string): (r: seq<Record>)
    ensures forall x :: x in r <==> x in rs && x.produto == produto
    ensures |r| <= |rs|
  {
    if rs == [] then []
    else (if rs[0].produto == produto then [rs[0]] else []) + FilterProduto(rs[1..], produto)
  }

  /** Two rows fill the same cell of the pivot: `pivot` refuses the table. */
  predicate DuplicateCell(rs: seq<Record>) {
    exists i, j :: 0 <= i < j < |rs| && rs[i].data == rs[j].data && rs[i].disc == rs[j].disc
  }

  /** A pivoted row: the index date and one cell per label present on that date. */
  datatype PivotRow = PivotRow(data: Dates.Date, cells: map<string, real>)

  /** Rows sorted by date, grouped into one row per run of equal dates. */
  function Runs(s: seq<Record>): (r: seq<PivotRow>)
    ensures s == [] <==> r == []
    ensures s != [] ==> r[0].data == s[0].data
    decreases |s|
  {
    if s == [] then []
    else
      var rest := Runs(s[1..]);
      if rest != [] && rest[0].data == s[0].data
      then [PivotRow(s[0].data, rest[0].cells[s[0].disc := s[0].valor])] + rest[1..]
      else [PivotRow(s[0].data, map[s[0].disc := s[0].valor])] + rest
  }

  /** `pivot(index=date, columns=label, values=value)`, the index sorted; None is
      the ValueError raised on a duplicate (date, label) pair. */
  function Pivot(rs: seq<Record>): (r: Option<seq<PivotRow>>)
    ensures r.None? <==> DuplicateCell(rs)
  {
    if DuplicateCell(rs) then None else Some(Runs(Tables.SortBy(rs, RecStamp)))
  }

  predicate IncreasingDates(rows: seq<PivotRow>) {
    forall i, j :: 0 <= i < j < |rows| ==> Dates.Stamp(rows[i].data) < Dates.Stamp(rows[j].data)
  }

  lemma PrependIncreasing(row: PivotRow, rest: seq<PivotRow>)
    requires IncreasingDates(rest) && (rest != [] ==> Dates.Stamp(row.data) < Dates.Stamp(rest[0].data))
    ensures IncreasingDates([row] + rest)
  {
    var r := [row] + rest;
    forall i, j | 0 <= i < j < |r| ensures Dates.Stamp(r[i].data) < Dates.Stamp(r[j].data) {
      assert r[j] == rest[j - 1];
      if i > 0 {
        assert r[i] == rest[i - 1];
      }
    }
  }

  /** One row per date, in strictly increasing date order. */
  lemma {:induction false} RunsIncreasing(s: seq<Record>)
    requires Tables.SortedBy(s, RecStamp) && ValidRecords(s)
    ensures IncreasingDates(Runs(s))
    decreases |s|
  {
    if s != [] {
      var t := s[1..];
      assert Tables.SortedBy(t, RecStamp);
      assert ValidRecords(t);
      RunsIncreasing(t);
      var rest := Runs(t);
      if rest == [] {
        PrependIncreasing(Runs(s)[0], []);
        assert Runs(s) == [Runs(s)[0]];
      } else {
        assert rest[0].data == s[1].data;
        assert RecStamp(s[0]) <= RecStamp(s[1]);
        if rest[0].data == s[0].data {
          var tail := rest[1..];
          assert IncreasingDates(tail);
          if tail != [] {
            assert Dates.Stamp(rest[0].data) < Dates.Stamp(rest[1].data);
          }
          PrependIncreasing(PivotRow(s[0].data, rest[0].cells[s[0].disc := s[0].valor]), tail);
        } else {
          assert Dates.Stamp(s[0].data) != Dates.Stamp(rest[0].data) by {
            if Dates.Stamp(s[0].data) == Dates.Stamp(rest[0].data) {
              assert s[1] in s;
              Dates.StampInjective(s[0].data, rest[0].data);
            }
          }
          PrependIncreasing(PivotRow(s[0].data, map[s[0].disc := s[0].valor]), rest);
        }
      }
    }
  }

  /** Every pivoted row's date is the date of some record. */
  lemma {:induction false} RunsDates(s: seq<Record>)
    ensures forall row :: row in Runs(s) ==> exists x :: x in s && x.data == row.data
    decreases |s|
  {
    if s != [] {
      var t := s[1..];
      RunsDates(t);
      forall row | row in Runs(s) ensures exists x :: x in s && x.data == row.data {
        if row != Runs(s)[0] {
          assert row in Runs(t);
          var x :| x in t && x.data == row.data;
          assert x in s;
        }
      }
    }
  }

  /** Every record's label is a cell of the row of its date. */
  lemma {:induction false} RunsComplete(s: seq<Record>, x: Record)
    requires x in s
    ensures exists k :: 0 <= k < |Runs(s)| && Runs(s)[k].data == x.data && x.disc in Runs(s)[k].cells
    decreases |s|
  {
    var t := s[1..];
    var rest := Runs(t);
    if x == s[0] {
      assert Runs(s)[0].data == x.data && x.disc in Runs(s)[0].cells;
    } else {
      assert x in t;
      RunsComplete(t, x);
      var k :| 0 <= k < |rest| && rest[k].data == x.data && x.disc in rest[k].cells;
      if rest != [] && rest[0].data == s[0].data {
        if k == 0 {
          assert Runs(s)[0].data == x.data && x.disc in Runs(s)[0].cells;
        } else {
          assert Runs(s)[k] == rest[k];
        }
      } else {
        assert Runs(s)[k + 1] == rest[k];
      }
    }
  }

  /** Every cell holds the value of a record with that date and label. */
  lemma {:induction false} RunsSound(s: seq<Record>)
    ensures forall row, d :: row in Runs(s) && d in row.cells ==>
              exists x :: x in s && x.data == row.data && x.disc == d && x.valor == row.cells[d]
    decreases |s|
  {
    if s != [] {
      var t := s[1..];
      var rest := Runs(t);
      RunsSound(t);
      forall row, d | row in Runs(s) && d in row.cells
        ensures exists x :: x in s && x.data == row.data && x.disc == d && x.valor == row.cells[d]
      {
        if row == Runs(s)[0] {
          if d == s[0].disc {
            assert s[0] in s;
          } else {
            assert rest != [] && rest[0].data == s[0].data && d in rest[0].cells;
            assert rest[0] in rest;
            var x :| x in t && x.data == rest[0].data && x.disc == d && x.valor == rest[0].cells[d];
            assert x in s;
          }
        } else {
          assert row in rest;
          var x :| x in t && x.data == row.data && x.disc == d && x.valor == row.cells[d];
          assert x in s;
        }
      }
    }
  }

  /** The pivot of a table without duplicate cells: dates strictly increasing,
      every record's value at its (date, label) cell, and no cell that is not
      some record's. */
  lemma PivotSpec(rs: seq<Record>)
    requires ValidRecords(rs) && !DuplicateCell(rs)
    ensures IncreasingDates(Pivot(rs).value)
    ensures forall row :: row in Pivot(rs).value ==> exists x :: x in rs && x.data == row.data
    ensures forall row, d :: row in Pivot(rs).value && d in row.cells ==>
              exists x :: x in rs && x.data == row.data && x.disc == d && x.valor == row.cells[d]
  {
    var sorted := Tables.SortBy(rs, RecStamp);
    assert forall x :: x in sorted <==> x in rs by {
      forall x ensures x in sorted <==> x in rs {
        assert x in sorted <==> x in multiset(sorted);
        assert x in rs <==> x in multiset(rs);
      }
    }
    RunsIncreasing(sorted);
    RunsDates(sorted);
    RunsSound(sorted);
  }

  /** Every record's value sits in the row of its date, under its label. */
  lemma PivotHasRecord(rs: seq<Record>, x: Record)
    requires ValidRecords(rs) && !DuplicateCell(rs) && x in rs
    ensures exists k :: 0 <= k < |Pivot(rs).value| && Pivot(rs).value[k].data == x.data
              && x.disc in Pivot(rs).value[k].cells && Pivot(rs).value[k].cells[x.disc] == x.valor
  {
    var sorted := Tables.SortBy(rs, RecStamp);
    assert x in multiset(rs);
    RunsComplete(sorted, x);
    PivotSpec(rs);
    var rows := Pivot(rs).value;
    var k :| 0 <= k < |rows| && rows[k].data == x.data && x.disc in rows[k].cells;
    assert rows[k] in rows;
    var y :| y in rs && y.data == x.data && y.disc == x.disc && y.valor == rows[k].cells[x.disc];
    var i :| 0 <= i < |rs| && rs[i] == x;
    var j :| 0 <= j < |rs| && rs[j] == y;
    SameCellSameIndex(rs, i, j);
  }

  lemma SameCellSameIndex(rs: seq<Record>, i: nat, j: nat)
    requires !DuplicateCell(rs) && i < |rs| && j < |rs|
    requires rs[i].data == rs[j].data && rs[i].disc == rs[j].disc
    ensures i == j
  {
  }

  /** A valid date earlier than another is in the same year or an earlier one. */
  lemma StampYear(a: Dates.Date, b: Dates.Date)
    requires Dates.Valid(a) && Dates.Valid(b) && Dates.Stamp(a) < Dates.Stamp(b)
    ensures a.year <= b.year
  {
    assert Dates.MonthIndex(a) <= Dates.MonthIndex(b);
  }

  // ---------------------------------------------------------------------------
  // Lines 22-27: the annual balance of the grain product
  // ---------------------------------------------------------------------------

  const GraoBalanco := "1. Grão"
  const ProducaoLabel := "2.1.2. - Produção"

  /** A row of the annual table: the year of its date and the pivoted cells under
      the sheet's own labels. */
  datatype AnnualRow = AnnualRow(periodo: int, cells: map<string, real>)

  function AnnualOf(row: PivotRow): AnnualRow { AnnualRow(row.data.year, row.cells) }

  function BalancoAnual(rs: seq<Record>): (r: Option<seq<AnnualRow>>)
    ensures r.None? <==> DuplicateCell(FilterProduto(rs, GraoBalanco))
  {
    var p :- Pivot(FilterProduto(rs, GraoBalanco));
    Some(seq(|p|, i requires 0 <= i < |p| => AnnualOf(p[i])))
  }

  /** Each grain record's value is in the row of its year under its label. */
  lemma BalancoAnualHas(rs: seq<Record>, x: Record)
    requires ValidRecords(rs) && BalancoAnual(rs).Some?
    requires x in rs && x.produto == GraoBalanco
    ensures exists row :: row in BalancoAnual(rs).value && row.periodo == x.data.year
              && x.disc in row.cells && row.cells[x.disc] == x.valor
  {
    var g := FilterProduto(rs, GraoBalanco);
    var p := Pivot(g).value;
    var out := BalancoAnual(rs).value;
    assert ValidRecords(g);
    PivotHasRecord(g, x);
    var k :| 0 <= k < |p| && p[k].data == x.data && x.disc in p[k].cells && p[k].cells[x.disc] == x.valor;
    assert out[k] in out;
  }

  /** The cell under label d of annual row k is a grain record of that year. */
  lemma BalancoAnualCell(rs: seq<Record>, k: nat, d: string)
    requires BalancoAnual(rs).Some? && k < |BalancoAnual(rs).value| && d in BalancoAnual(rs).value[k].cells
    ensures exists y :: y in rs && y.produto == GraoBalanco && y.data.year == BalancoAnual(rs).value[k].periodo
              && y.disc == d && y.valor == BalancoAnual(rs).value[k].cells[d]
  {
    var g := FilterProduto(rs, GraoBalanco);
    PivotCellSound(g, k, d);
  }

  /** Every cell of the annual table is a grain record of that year, and the rows
      come in date order, so their years never decrease. */
  lemma BalancoAnualSpec(rs: seq<Record>)
    requires ValidRecords(rs) && BalancoAnual(rs).Some?
    ensures forall row, d :: row in BalancoAnual(rs).value && d in row.cells ==>
              exists y :: y in rs && y.produto == GraoBalanco && y.data.year == row.periodo && y.disc == d && y.valor == row.cells[d]
    ensures forall i, j :: 0 <= i < j < |BalancoAnual(rs).value| ==> BalancoAnual(rs).value[i].periodo <= BalancoAnual(rs).value[j].periodo
  {
    var g := FilterProduto(rs, GraoBalanco);
    var p := Pivot(g).value;
    var out := BalancoAnual(rs).value;
    assert ValidRecords(g);
    PivotSpec(g);
    forall row, d | row in out && d in row.cells
      ensures exists y :: y in rs && y.produto == GraoBalanco && y.data.year == row.periodo && y.disc == d && y.valor == row.cells[d]
    {
      var k :| 0 <= k < |out| && out[k] == row;
      assert p[k] in p;
    }
    forall i, j | 0 <= i < j < |out| ensures out[i].periodo <= out[j].periodo {
      assert Dates.Stamp(p[i].data) < Dates.Stamp(p[j].data);
      assert p[i] in p && p[j] in p;
      var a :| a in g && a.data == p[i].data;
      var b :| b in g && b.data == p[j].data;
      StampYear(p[i].data, p[j].data);
    }
  }

  // ---------------------------------------------------------------------------
  // Lines 37-46: the year's last exchange rate, left-merged on the year
  // ---------------------------------------------------------------------------

  datatype Quote = Quote(datetime: Dates.Date, close: real)

  function QStamp(q: Quote): int { Dates.Stamp(q.datetime) }
  function QYear(q: Quote): int { q.datetime.year }

  predicate ValidQuotes(qs: seq<Quote>) {
    forall q :: q in qs ==> Dates.Valid(q.datetime)
  }

  datatype YearFx = YearFx(ano: int, usdbrl: real)

  function FxYear(f: YearFx): int { f.ano }

  /** `sort_values(["ano", "ano_mes"])`, then `groupby("ano").last()`. */
  function AnnualFx(qs: seq<Quote>): (r: seq<YearFx>)
    ensures |r| == |Tables.GroupLast(Tables.SortBy(qs, QStamp), QYear)|
  {
    var last := Tables.GroupLast(Tables.SortBy(qs, QStamp), QYear);
    seq(|last|, i requires 0 <= i < |last| => YearFx(last[i].datetime.year, last[i].close))
  }

  lemma SortedQuotes(qs: seq<Quote>)
    ensures forall q :: q in Tables.SortBy(qs, QStamp) <==> q in qs
  {
    forall q ensures q in Tables.SortBy(qs, QStamp) <==> q in qs {
      assert q in Tables.SortBy(qs, QStamp) <==> q in multiset(Tables.SortBy(qs, QStamp));
      assert q in qs <==> q in multiset(qs);
    }
  }

  /** Each year's rate is the close of that year's latest quote. */
  lemma AnnualFxIsLatestOfYear(qs: seq<Quote>, i: nat)
    requires ValidQuotes(qs) && i < |AnnualFx(qs)|
    ensures exists q :: q in qs && q.datetime.year == AnnualFx(qs)[i].ano && q.close == AnnualFx(qs)[i].usdbrl
              && forall z :: z in qs && z.datetime.year == q.datetime.year ==> QStamp(z) <= QStamp(q)
  {
    var sorted := Tables.SortBy(qs, QStamp);
    SortedQuotes(qs);
    Tables.GroupLastIsLast(sorted, QYear, i);
    Tables.GroupLastOfSortedIsLatest(sorted, QYear, QStamp, i);
    var q := Tables.GroupLast(sorted, QYear)[i];
    assert q in sorted;
  }

  /** Every year with a quote has a rate, and a year has at most one. */
  lemma AnnualFxKeys(qs: seq<Quote>)
    ensures Tables.UniqueBy(AnnualFx(qs), FxYear)
    ensures forall q :: q in qs ==> exists f :: f in AnnualFx(qs) && f.ano == q.datetime.year
  {
    var sorted := Tables.SortBy(qs, QStamp);
    var ks := Tables.GroupKeys(sorted, QYear);
    var r := AnnualFx(qs);
    forall i, j | 0 <= i < j < |r| ensures FxYear(r[i]) != FxYear(r[j]) {
      assert ks[i] < ks[j];
    }
    SortedQuotes(qs);
    forall q | q in qs ensures exists f :: f in r && f.ano == q.datetime.year {
      Tables.GroupLastCoversKeys(sorted, QYear, q);
      var i :| 0 <= i < |r| && QYear(Tables.GroupLast(sorted, QYear)[i]) == QYear(q);
      assert r[i] in r;
    }
  }

  /** A balance row with its year's exchange rate, missing for a year with no quote. */
  datatype AnnualOut = AnnualOut(periodo: int, cells: map<string, real>, usdbrl: Option<real>)

  function AttachFx(j: Tables.Joined<AnnualRow, YearFx>): AnnualOut {
    match j
    case Both(a, f) => AnnualOut(a.periodo, a.cells, Some(f.usdbrl))
    case LeftOnly(a) => AnnualOut(a.periodo, a.cells, None)
    case RightOnly(f) => AnnualOut(f.ano, map[], Some(f.usdbrl))
  }

  function Periodo(a: AnnualRow): int { a.periodo }

  /** `pd.merge(df_balanco, df_dolar_ano, on="periodo", how="left")`. */
  function BalanceWithFx(rows: seq<AnnualRow>, qs: seq<Quote>): seq<AnnualOut> {
    var js := Tables.LeftJoin(rows, AnnualFx(qs), Periodo, FxYear);
    seq(|js|, i requires 0 <= i < |js| => AttachFx(js[i]))
  }

  /** The left merge keeps every balance row, in order and unchanged. */
  lemma BalanceWithFxKeeps(rows: seq<AnnualRow>, qs: seq<Quote>, i: nat)
    requires i < |rows|
    ensures |BalanceWithFx(rows, qs)| == |rows|
    ensures BalanceWithFx(rows, qs)[i].periodo == rows[i].periodo && BalanceWithFx(rows, qs)[i].cells == rows[i].cells
  {
    AnnualFxKeys(qs);
    Tables.LeftJoinLookup(rows, AnnualFx(qs), Periodo, FxYear, i);
  }

  /** The left merge keeps every balance row, in order, and gives it the rate of
      its year exactly when that year has a quote. */
  lemma BalanceWithFxSpec(rows: seq<AnnualRow>, qs: seq<Quote>, i: nat)
    requires i < |rows|
    ensures |BalanceWithFx(rows, qs)| == |rows|
    ensures BalanceWithFx(rows, qs)[i].periodo == rows[i].periodo && BalanceWithFx(rows, qs)[i].cells == rows[i].cells
    ensures BalanceWithFx(rows, qs)[i].usdbrl.Some? <==> exists q :: q in qs && q.datetime.year == rows[i].periodo
    ensures BalanceWithFx(rows, qs)[i].usdbrl.Some? ==>
              exists f :: f in AnnualFx(qs) && f.ano == rows[i].periodo && BalanceWithFx(rows, qs)[i].usdbrl.value == f.usdbrl
  {
    var fx := AnnualFx(qs);
    AnnualFxKeys(qs);
    Tables.LeftJoinLookup(rows, fx, Periodo, FxYear, i);
    var j := Tables.LeftJoin(rows, fx, Periodo, FxYear)[i];
    assert BalanceWithFx(rows, qs)[i] == AttachFx(j);
    if exists q :: q in qs && q.datetime.year == rows[i].periodo {
      var q :| q in qs && q.datetime.year == rows[i].periodo;
      var f :| f in fx && f.ano == q.datetime.year;
      assert FxYear(f) == Periodo(rows[i]);
    }
    if j.Both? {
      var f := j.r;
      var k :| 0 <= k < |fx| && fx[k] == f;
      var sorted := Tables.SortBy(qs, QStamp);
      Tables.GroupLastIsLast(sorted, QYear, k);
      SortedQuotes(qs);
      assert Tables.GroupLast(sorted, QYear)[k] in sorted;
    }
  }

  // ---------------------------------------------------------------------------
  // Lines 52-58: stock balance as the month-on-month change of stocks
  // ---------------------------------------------------------------------------

  datatype StockRow = StockRow(anoMes: Dates.Date, estoque: real)
  datatype StockSaldo = StockSaldo(anoMes: Dates.Date, estoque: real, saldo: real)

  function StockStamp(r: StockRow): int { Dates.Stamp(r.anoMes) }
  function SaldoStamp(r: StockSaldo): int { Dates.Stamp(r.anoMes) }
  function StockOf(r: StockSaldo): StockRow { StockRow(r.anoMes, r.estoque) }

  /** The rows in the opposite order, as the same multiset. */
  function Reversed<T>(s: seq<T>): (r: seq<T>)
    ensures |r| == |s| && forall i :: 0 <= i < |s| ==> r[i] == s[|s| - 1 - i]
    ensures multiset(r) == multiset(s)
  {
    if s == [] then []
    else
      assert s == [s[0]] + s[1..];
      Reversed(s[1..]) + [s[0]]
  }

  /** `diff()` then `fillna(0)` on the stocks of rows already in date order. */
  function WithDiff(asc: seq<StockRow>): (r: seq<StockSaldo>)
    ensures |r| == |asc|
    ensures forall i :: 0 <= i < |asc| ==> StockOf(r[i]) == asc[i]
    ensures |asc| > 0 ==> r[0].saldo == 0.0
    ensures forall i :: 0 < i < |asc| ==> r[i].saldo == asc[i].estoque - asc[i - 1].estoque
  {
    var saldo := Series.DiffFillZero(seq(|asc|, i requires 0 <= i < |asc| => asc[i].estoque));
    seq(|asc|, i requires 0 <= i < |asc| => StockSaldo(asc[i].anoMes, asc[i].estoque, saldo[i]))
  }

  lemma StripReversed(w: seq<StockSaldo>, asc: seq<StockRow>)
    requires |w| == |asc| && forall i :: 0 <= i < |asc| ==> StockOf(w[i]) == asc[i]
    ensures multiset(seq(|w|, i requires 0 <= i < |w| => StockOf(Reversed(w)[i]))) == multiset(asc)
  {
    var out := Reversed(w);
    var strip := seq(|out|, i requires 0 <= i < |out| => StockOf(out[i]));
    assert strip == Reversed(asc);
  }

  /** Read backwards, each balance is the stock minus the stock of the next row. */
  lemma ReversedDiffChain(asc: seq<StockRow>)
    ensures var out := Reversed(WithDiff(asc));
      forall i :: 0 <= i < |out| - 1 ==> out[i].saldo == out[i].estoque - out[i + 1].estoque
  {
    var w := WithDiff(asc);
    var out := Reversed(w);
    var n := |out|;
    forall i | 0 <= i < n - 1 ensures out[i].saldo == out[i].estoque - out[i + 1].estoque {
      assert out[i] == w[n - 1 - i] && out[i + 1] == w[n - 1 - i - 1];
    }
  }

  /** Taking the balances keeps the date order of the stocks. */
  lemma WithDiffSorted(asc: seq<StockRow>)
    requires Tables.SortedBy(asc, StockStamp)
    ensures Tables.SortedBy(WithDiff(asc), SaldoStamp)
  {
    var w := WithDiff(asc);
    forall i, j | 0 <= i < j < |w| ensures SaldoStamp(w[i]) <= SaldoStamp(w[j]) {
      assert StockOf(w[i]) == asc[i] && StockOf(w[j]) == asc[j];
      assert StockStamp(asc[i]) <= StockStamp(asc[j]);
    }
  }

  /** Rows sorted ascending by date, read backwards, are descending. */
  lemma ReversedDescending(w: seq<StockSaldo>)
    requires Tables.SortedBy(w, SaldoStamp)
    ensures var out := Reversed(w);
      forall i, j :: 0 <= i < j < |out| ==> SaldoStamp(out[j]) <= SaldoStamp(out[i])
  {
    var out := Reversed(w);
    var n := |out|;
    forall i, j | 0 <= i < j < n ensures SaldoStamp(out[j]) <= SaldoStamp(out[i]) {
      assert out[j] == w[n - 1 - j] && out[i] == w[n - 1 - i];
      assert SaldoStamp(w[n - 1 - j]) <= SaldoStamp(w[n - 1 - i]);
    }
  }

  /** Sorted ascending by date, `diff()` of the stocks, sorted descending,
      `fillna(0)`: every row's balance is its stock minus the stock of the row
      after it, which is the month before; the earliest row's balance is 0. */
  method StockBalance(rows: seq<StockRow>) returns (out: seq<StockSaldo>)
    ensures |out| == |rows|
    ensures forall i, j :: 0 <= i < j < |out| ==> SaldoStamp(out[j]) <= SaldoStamp(out[i])
    ensures multiset(seq(|out|, i requires 0 <= i < |out| => StockOf(out[i]))) == multiset(rows)
    ensures forall i :: 0 <= i < |out| - 1 ==> out[i].saldo == out[i].estoque - out[i + 1].estoque
    ensures |out| > 0 ==> out[|out| - 1].saldo == 0.0
    ensures multiset(out) == multiset(WithDiff(Tables.SortBy(rows, StockStamp)))
  {
    var stocks := Tables.SortBy(rows, StockStamp);
    var withSaldo := WithDiff(stocks);
    out := Reversed(withSaldo);
    StripReversed(withSaldo, stocks);
    ReversedDiffChain(stocks);
    WithDiffSorted(stocks);
    ReversedDescending(withSaldo);
  }

  /** The stocks read from the earliest row up, as the ascending series the
      balances were taken from. */
  function AscendingStocks(out: seq<StockSaldo>): (xs: seq<real>)
    ensures |xs| == |out|
    ensures forall k :: 0 <= k < |out| ==> xs[k] == out[|out| - 1 - k].estoque
  {
    seq(|out|, k requires 0 <= k < |out| => out[|out| - 1 - k].estoque)
  }

  /** The balances read from the earliest row up are `diff()` then `fillna(0)`
      of the ascending stocks. */
  lemma AscendingStocksDiff(out: seq<StockSaldo>, i: nat)
    requires |out| > 0 && i < |out|
    requires forall k :: 0 <= k < |out| - 1 ==> out[k].saldo == out[k].estoque - out[k + 1].estoque
    requires out[|out| - 1].saldo == 0.0
    ensures Series.DiffFillZero(AscendingStocks(out))[..|out| - i] == seq(|out| - i, k requires 0 <= k < |out| - i => out[|out| - 1 - k].saldo)
  {
    var n := |out|;
    var d := Series.DiffFillZero(AscendingStocks(out));
    forall k | 0 <= k < n - i ensures d[k] == out[n - 1 - k].saldo {
      if k > 0 {
        assert out[n - 1 - k].saldo == out[n - 1 - k].estoque - out[n - 1 - k + 1].estoque;
      }
    }
  }

  /** Summing the balances from the earliest row back up to row i recovers the
      stock of row i from the earliest stock. */
  lemma StockBalanceTelescopes(out: seq<StockSaldo>, i: nat)
    requires |out| > 0 && i < |out|
    requires forall k :: 0 <= k < |out| - 1 ==> out[k].saldo == out[k].estoque - out[k + 1].estoque
    requires out[|out| - 1].saldo == 0.0
    ensures out[|out| - 1].estoque + Series.Sum(seq(|out| - i, k requires 0 <= k < |out| - i => out[|out| - 1 - k].saldo)) == out[i].estoque
  {
    AscendingStocksDiff(out, i);
    Series.DiffTelescopes(AscendingStocks(out), |out| - 1 - i);
  }

  // ---------------------------------------------------------------------------
  // Lines 60-101: the monthly sheets outer-merged on their date
  // ---------------------------------------------------------------------------

  /** A row of the monthly frame: its date and the cells it has (a column missing
      from `values` is NaN). */
  datatype MonthRow = MonthRow(anoMes: Dates.Date, values: map<string, real>)

  function MonthKey(r: MonthRow): Dates.Date { r.anoMes }

  /** No row of the frame has a value in column c. */
  predicate Lacks(f: seq<MonthRow>, c: string) {
    forall r :: r in f ==> c !in r.values
  }

  /** The frame has value v in column c on date d. */
  predicate Holds(f: seq<MonthRow>, d: Dates.Date, c: string, v: real) {
    exists r :: r in f && r.anoMes == d && c in r.values && r.values[c] == v
  }

  function Combine(j: Tables.Joined<MonthRow, MonthRow>): MonthRow {
    match j
    case Both(x, y) => MonthRow(x.anoMes, x.values + y.values)
    case LeftOnly(x) => x
    case RightOnly(y) => y
  }

  /** `pd.merge(a, b, on="ano_mes", how="outer")` of frames with distinct columns. */
  function MergeMonthly(a: seq<MonthRow>, b: seq<MonthRow>): seq<MonthRow> {
    var js := Tables.OuterJoin(a, b, MonthKey, MonthKey);
    seq(|js|, i requires 0 <= i < |js| => Combine(js[i]))
  }

  /** The merged frame has exactly the dates of both frames. */
  lemma MergeMonthlyKeys(a: seq<MonthRow>, b: seq<MonthRow>)
    ensures Tables.KeySet(MergeMonthly(a, b), MonthKey) == Tables.KeySet(a, MonthKey) + Tables.KeySet(b, MonthKey)
  {
    var js := Tables.OuterJoin(a, b, MonthKey, MonthKey);
    var out := MergeMonthly(a, b);
    var jk := (j: Tables.Joined<MonthRow, MonthRow>) => Tables.JoinKey(j, MonthKey, MonthKey);
    forall i | 0 <= i < |js| ensures MonthKey(out[i]) == jk(js[i]) {
      assert out[i] == Combine(js[i]);
    }
    Tables.KeySetMapped(js, out, jk, MonthKey);
    Tables.OuterJoinKeys(a, b, MonthKey, MonthKey);
  }

  lemma CombineKeepsLeft(j: Tables.Joined<MonthRow, MonthRow>, b: seq<MonthRow>, c: string)
    requires !j.RightOnly? && c in j.l.values && (j.Both? ==> j.r in b) && Lacks(b, c)
    ensures Combine(j).anoMes == j.l.anoMes && c in Combine(j).values && Combine(j).values[c] == j.l.values[c]
  {
    if j.Both? {
      assert c !in j.r.values;
    }
  }

  lemma CombineKeepsRight(j: Tables.Joined<MonthRow, MonthRow>, c: string)
    requires !j.LeftOnly? && c in j.r.values && (j.Both? ==> j.l.anoMes == j.r.anoMes)
    ensures Combine(j).anoMes == j.r.anoMes && c in Combine(j).values && Combine(j).values[c] == j.r.values[c]
  {
  }

  /** A value of the left frame survives in a column the right frame does not have. */
  lemma MergeMonthlyKeepsLeft(a: seq<MonthRow>, b: seq<MonthRow>, d: Dates.Date, c: string, v: real)
    requires Holds(a, d, c, v) && Lacks(b, c)
    ensures Holds(MergeMonthly(a, b), d, c, v)
  {
    var js := Tables.OuterJoin(a, b, MonthKey, MonthKey);
    var out := MergeMonthly(a, b);
    var x :| x in a && x.anoMes == d && c in x.values && x.values[c] == v;
    Tables.OuterJoinLeftRow(a, b, MonthKey, MonthKey, x);
    var k :| 0 <= k < |js| && !js[k].RightOnly? && js[k].l == x && Tables.Provenance(js[k], a, b, MonthKey, MonthKey);
    var j := js[k];
    CombineKeepsLeft(j, b, c);
    assert out[k] == Combine(j);
    assert out[k] in out;
  }

  /** A value of the right frame always survives. */
  lemma MergeMonthlyKeepsRight(a: seq<MonthRow>, b: seq<MonthRow>, d: Dates.Date, c: string, v: real)
    requires Holds(b, d, c, v)
    ensures Holds(MergeMonthly(a, b), d, c, v)
  {
    var js := Tables.OuterJoin(a, b, MonthKey, MonthKey);
    var out := MergeMonthly(a, b);
    var y :| y in b && y.anoMes == d && c in y.values && y.values[c] == v;
    Tables.OuterJoinRightRow(a, b, MonthKey, MonthKey, y);
    var k :| 0 <= k < |js| && !js[k].LeftOnly? && js[k].r == y && Tables.Provenance(js[k], a, b, MonthKey, MonthKey);
    var j := js[k];
    CombineKeepsRight(j, c);
    assert out[k] == Combine(j);
    assert out[k] in out;
  }

  /** Every value of the merged frame comes from one of the two frames, on its date. */
  lemma MergeMonthlySound(a: seq<MonthRow>, b: seq<MonthRow>, d: Dates.Date, c: string, v: real)
    requires Holds(MergeMonthly(a, b), d, c, v)
    ensures Holds(a, d, c, v) || Holds(b, d, c, v)
  {
    var js := Tables.OuterJoin(a, b, MonthKey, MonthKey);
    var out := MergeMonthly(a, b);
    var r :| r in out && r.anoMes == d && c in r.values && r.values[c] == v;
    var k :| 0 <= k < |out| && out[k] == r;
    Tables.OuterJoinProvenance(a, b, MonthKey, MonthKey);
    assert js[k] in js;
    assert Tables.Provenance(js[k], a, b, MonthKey, MonthKey);
  }

  // Lines 52-93: each sheet as a monthly frame ------------------------------------

  const Estoque := "estoque"
  const Saldo := "saldo"
  const Exportacao := "exportacao"
  const Processamento := "processamento"
  const CompraLiquida := "compra_liquida"
  const Importacao := "importacao"

  /** The columns the monthly sheets bring, after their renames. */
  predicate SheetColumn(c: string) {
    c == Estoque || c == Saldo || c == Exportacao || c == Processamento || c == CompraLiquida || c == Importacao
  }

  /** The stock frame: `estoque` and `saldo` on each date. */
  function StockFrame(out: seq<StockSaldo>): seq<MonthRow> {
    seq(|out|, i requires 0 <= i < |out| => MonthRow(out[i].anoMes, map[Estoque := out[i].estoque, Saldo := out[i].saldo]))
  }

  lemma StockFrameSpec(out: seq<StockSaldo>)
    ensures forall x :: x in out ==> Holds(StockFrame(out), x.anoMes, Estoque, x.estoque) && Holds(StockFrame(out), x.anoMes, Saldo, x.saldo)
    ensures forall c :: c != Estoque && c != Saldo ==> Lacks(StockFrame(out), c)
    ensures Tables.KeySet(StockFrame(out), MonthKey) == Tables.KeySet(out, (x: StockSaldo) => x.anoMes)
  {
    var f := StockFrame(out);
    forall x | x in out ensures Holds(f, x.anoMes, Estoque, x.estoque) && Holds(f, x.anoMes, Saldo, x.saldo) {
      var i :| 0 <= i < |out| && out[i] == x;
      assert f[i] in f;
    }
    Tables.KeySetMapped(out, f, (x: StockSaldo) => x.anoMes, MonthKey);
  }

  /** A row of a one-value monthly sheet (exports, processing, purchases, imports). */
  datatype SheetRow = SheetRow(anoMes: Dates.Date, valor: real)

  function SheetKey(x: SheetRow): Dates.Date { x.anoMes }

  /** The sheet with its value column renamed to col. */
  function SheetFrame(rows: seq<SheetRow>, col: string): seq<MonthRow> {
    seq(|rows|, i requires 0 <= i < |rows| => MonthRow(rows[i].anoMes, map[col := rows[i].valor]))
  }

  lemma SheetFrameSpec(rows: seq<SheetRow>, col: string)
    ensures forall x :: x in rows ==> Holds(SheetFrame(rows, col), x.anoMes, col, x.valor)
    ensures forall c :: c != col ==> Lacks(SheetFrame(rows, col), c)
    ensures Tables.KeySet(SheetFrame(rows, col), MonthKey) == Tables.KeySet(rows, SheetKey)
  {
    var f := SheetFrame(rows, col);
    forall x | x in rows ensures Holds(f, x.anoMes, col, x.valor) {
      var i :| 0 <= i < |rows| && rows[i] == x;
      assert f[i] in f;
    }
    Tables.KeySetMapped(rows, f, SheetKey, MonthKey);
  }

  /** Every value of a sheet frame is one of the sheet's rows. */
  lemma SheetFrameSound(rows: seq<SheetRow>, col: string, d: Dates.Date, c: string, v: real)
    requires Holds(SheetFrame(rows, col), d, c, v)
    ensures c == col && exists x :: x in rows && x.anoMes == d && x.valor == v
  {
    var f := SheetFrame(rows, col);
    var r :| r in f && r.anoMes == d && c in r.values && r.values[c] == v;
    var i :| 0 <= i < |f| && f[i] == r;
    assert rows[i] in rows;
  }

  const GraoPrecos := "1 - Grão"
  const PremioLabel := "1.2 - Prêmio (US$/t)"

  predicate HasLabel(rs: seq<Record>, disc: string) {
    exists x :: x in rs && x.disc == disc
  }

  /** The six price labels that the renames of lines 88-93 turn into the price
      columns the final selection names. */
  const PriceLabels: seq<string> := [
    "1.1 - Chicago - CBOT (US$/t)",
    "1.3 - FOB Porto - Paranaguá (US$/t)",
    "1.4 - Mercado Interno - Maringá / PR - R$/saca (sem ICMS)",
    "1.5 - Mercado Interno - Mogiana / SP - R$/saca (sem ICMS)",
    "1.6 - Mercado Interno - Passo Fundo / RS - R$/saca (sem ICMS)",
    "1.7 - Mercado Interno - Rondonopolis / MT - R$/saca (sem ICMS)"]

  /** Every price column of the final selection exists, i.e. some grain price
      carries each of the six labels; otherwise the selection raises KeyError. */
  predicate PriceColumnsPresent(precos: seq<Record>) {
    forall l :: l in PriceLabels ==> HasLabel(FilterProduto(precos, GraoPrecos), l)
  }

  /** Grain prices pivoted to one row per date with the premium column dropped;
      None is the ValueError of `pivot` on a repeated (date, label) pair or the
      KeyError of `drop` when no grain price carries the premium label. */
  function PriceFrame(precos: seq<Record>): (r: Option<seq<MonthRow>>)
    ensures r.None? <==> DuplicateCell(FilterProduto(precos, GraoPrecos)) || !HasLabel(FilterProduto(precos, GraoPrecos), PremioLabel)
  {
    var g := FilterProduto(precos, GraoPrecos);
    var p :- Pivot(g);
    if !HasLabel(g, PremioLabel) then None else Some(DropPremio(p))
  }

  /** `drop(columns=[premium])` on the pivoted rows. */
  function DropPremio(p: seq<PivotRow>): (f: seq<MonthRow>)
    ensures |f| == |p|
    ensures forall k :: 0 <= k < |p| ==> f[k].anoMes == p[k].data && f[k].values == p[k].cells - {PremioLabel}
  {
    seq(|p|, i requires 0 <= i < |p| => MonthRow(p[i].data, p[i].cells - {PremioLabel}))
  }

  /** Every grain price other than the premium is in the frame on its date under
      its label. */
  lemma PriceFrameHas(precos: seq<Record>, x: Record)
    requires ValidRecords(precos) && PriceFrame(precos).Some?
    requires x in precos && x.produto == GraoPrecos && x.disc != PremioLabel
    ensures Holds(PriceFrame(precos).value, x.data, x.disc, x.valor)
  {
    var g := FilterProduto(precos, GraoPrecos);
    var p := Pivot(g).value;
    var f := PriceFrame(precos).value;
    assert ValidRecords(g);
    PivotHasRecord(g, x);
    var k :| 0 <= k < |p| && p[k].data == x.data && x.disc in p[k].cells && p[k].cells[x.disc] == x.valor;
    assert f == DropPremio(p);
    assert f[k] in f;
  }

  /** The cell under label c of pivoted row k is the value of a record with that
      date and label. */
  lemma PivotCellSound(rs: seq<Record>, k: nat, c: string)
    requires !DuplicateCell(rs) && k < |Pivot(rs).value| && c in Pivot(rs).value[k].cells
    ensures exists x :: x in rs && x.data == Pivot(rs).value[k].data && x.disc == c && x.valor == Pivot(rs).value[k].cells[c]
  {
    var sorted := Tables.SortBy(rs, RecStamp);
    var row := Pivot(rs).value[k];
    RunsSound(sorted);
    assert row in Runs(sorted);
    var x :| x in sorted && x.data == row.data && x.disc == c && x.valor == row.cells[c];
    assert x in multiset(sorted);
    assert x in rs;
  }

  /** The premium is gone, and every value is a grain price on its date under its label. */
  lemma PriceFrameSound(precos: seq<Record>, d: Dates.Date, c: string, v: real)
    requires PriceFrame(precos).Some?
    requires Holds(PriceFrame(precos).value, d, c, v)
    ensures c != PremioLabel
    ensures exists x :: x in precos && x.produto == GraoPrecos && x.data == d && x.disc == c && x.valor == v
  {
    var g := FilterProduto(precos, GraoPrecos);
    var p := Pivot(g).value;
    var f := PriceFrame(precos).value;
    assert f == DropPremio(p);
    var r :| r in f && r.anoMes == d && c in r.values && r.values[c] == v;
    var k :| 0 <= k < |f| && f[k] == r;
    PivotCellSound(g, k, c);
  }

  // Lines 96-101: the chain of outer merges -----------------------------------------

  /** The price frame brings none of the sheets' columns. */
  predicate PricesFree(prices: seq<MonthRow>) {
    forall r, c :: r in prices && c in r.values ==> !SheetColumn(c)
  }

  /** Stocks, then exports, processing, purchases, imports and prices, each
      outer-merged on `ano_mes`. */
  function MonthlyFrame(stock: seq<StockSaldo>, exp: seq<SheetRow>, proc: seq<SheetRow>, compra: seq<SheetRow>,
                        imp: seq<SheetRow>, prices: seq<MonthRow>): seq<MonthRow>
  {
    var m1 := MergeMonthly(StockFrame(stock), SheetFrame(exp, Exportacao));
    var m2 := MergeMonthly(m1, SheetFrame(proc, Processamento));
    var m3 := MergeMonthly(m2, SheetFrame(compra, CompraLiquida));
    var m4 := MergeMonthly(m3, SheetFrame(imp, Importacao));
    MergeMonthly(m4, prices)
  }

  /** The merged frame has a row for every date of every sheet and no other date. */
  lemma MonthlyFrameKeys(stock: seq<StockSaldo>, exp: seq<SheetRow>, proc: seq<SheetRow>, compra: seq<SheetRow>,
                         imp: seq<SheetRow>, prices: seq<MonthRow>)
    ensures Tables.KeySet(MonthlyFrame(stock, exp, proc, compra, imp, prices), MonthKey)
         == Tables.KeySet(stock, (x: StockSaldo) => x.anoMes) + Tables.KeySet(exp, SheetKey) + Tables.KeySet(proc, SheetKey)
          + Tables.KeySet(compra, SheetKey) + Tables.KeySet(imp, SheetKey) + Tables.KeySet(prices, MonthKey)
  {
    var m1 := MergeMonthly(StockFrame(stock), SheetFrame(exp, Exportacao));
    var m2 := MergeMonthly(m1, SheetFrame(proc, Processamento));
    var m3 := MergeMonthly(m2, SheetFrame(compra, CompraLiquida));
    var m4 := MergeMonthly(m3, SheetFrame(imp, Importacao));
    StockFrameSpec(stock);
    SheetFrameSpec(exp, Exportacao);
    SheetFrameSpec(proc, Processamento);
    SheetFrameSpec(compra, CompraLiquida);
    SheetFrameSpec(imp, Importacao);
    MergeMonthlyKeys(StockFrame(stock), SheetFrame(exp, Exportacao));
    MergeMonthlyKeys(m1, SheetFrame(proc, Processamento));
    MergeMonthlyKeys(m2, SheetFrame(compra, CompraLiquida));
    MergeMonthlyKeys(m3, SheetFrame(imp, Importacao));
    MergeMonthlyKeys(m4, prices);
  }

  /** A value in another column survives merging in a sheet. */
  lemma MergeSheetKeeps(a: seq<MonthRow>, rows: seq<SheetRow>, col: string, d: Dates.Date, c: string, v: real)
    requires Holds(a, d, c, v) && c != col
    ensures Holds(MergeMonthly(a, SheetFrame(rows, col)), d, c, v)
  {
    SheetFrameSpec(rows, col);
    MergeMonthlyKeepsLeft(a, SheetFrame(rows, col), d, c, v);
  }

  /** Every row of a sheet merged in is in the result under its column. */
  lemma MergeSheetAdds(a: seq<MonthRow>, rows: seq<SheetRow>, col: string, x: SheetRow)
    requires x in rows
    ensures Holds(MergeMonthly(a, SheetFrame(rows, col)), x.anoMes, col, x.valor)
  {
    SheetFrameSpec(rows, col);
    MergeMonthlyKeepsRight(a, SheetFrame(rows, col), x.anoMes, col, x.valor);
  }

  /** The last merge, with prices, keeps every sheet column. */
  lemma MergePricesKeeps(a: seq<MonthRow>, prices: seq<MonthRow>, d: Dates.Date, c: string, v: real)
    requires Holds(a, d, c, v) && SheetColumn(c) && PricesFree(prices)
    ensures Holds(MergeMonthly(a, prices), d, c, v)
  {
    MergeMonthlyKeepsLeft(a, prices, d, c, v);
  }

  /** Every stock and stock balance is in the merged frame on its date. */
  lemma MonthlyFrameHasStock(stock: seq<StockSaldo>, exp: seq<SheetRow>, proc: seq<SheetRow>, compra: seq<SheetRow>,
                             imp: seq<SheetRow>, prices: seq<MonthRow>, x: StockSaldo, c: string)
    requires PricesFree(prices) && x in stock && (c == Estoque || c == Saldo)
    ensures Holds(MonthlyFrame(stock, exp, proc, compra, imp, prices), x.anoMes, c, if c == Estoque then x.estoque else x.saldo)
  {
    var v := if c == Estoque then x.estoque else x.saldo;
    var s0 := StockFrame(stock);
    StockFrameSpec(stock);
    assert Holds(s0, x.anoMes, c, v);
    MergeSheetKeeps(s0, exp, Exportacao, x.anoMes, c, v);
    var m1 := MergeMonthly(s0, SheetFrame(exp, Exportacao));
    MergeSheetKeeps(m1, proc, Processamento, x.anoMes, c, v);
    var m2 := MergeMonthly(m1, SheetFrame(proc, Processamento));
    MergeSheetKeeps(m2, compra, CompraLiquida, x.anoMes, c, v);
    var m3 := MergeMonthly(m2, SheetFrame(compra, CompraLiquida));
    MergeSheetKeeps(m3, imp, Importacao, x.anoMes, c, v);
    MergePricesKeeps(MergeMonthly(m3, SheetFrame(imp, Importacao)), prices, x.anoMes, c, v);
  }

  /** Every export, processing, purchase and import figure is in the merged
      frame on its date under its column. */
  lemma MonthlyFrameHasSheets(stock: seq<StockSaldo>, exp: seq<SheetRow>, proc: seq<SheetRow>, compra: seq<SheetRow>,
                              imp: seq<SheetRow>, prices: seq<MonthRow>, x: SheetRow)
    requires PricesFree(prices)
    ensures x in exp ==> Holds(MonthlyFrame(stock, exp, proc, compra, imp, prices), x.anoMes, Exportacao, x.valor)
    ensures x in proc ==> Holds(MonthlyFrame(stock, exp, proc, compra, imp, prices), x.anoMes, Processamento, x.valor)
    ensures x in compra ==> Holds(MonthlyFrame(stock, exp, proc, compra, imp, prices), x.anoMes, CompraLiquida, x.valor)
    ensures x in imp ==> Holds(MonthlyFrame(stock, exp, proc, compra, imp, prices), x.anoMes, Importacao, x.valor)
  {
    var s0 := StockFrame(stock);
    var m1 := MergeMonthly(s0, SheetFrame(exp, Exportacao));
    var m2 := MergeMonthly(m1, SheetFrame(proc, Processamento));
    var m3 := MergeMonthly(m2, SheetFrame(compra, CompraLiquida));
    var m4 := MergeMonthly(m3, SheetFrame(imp, Importacao));
    var d, v := x.anoMes, x.valor;
    if x in exp {
      MergeSheetAdds(s0, exp, Exportacao, x);
      MergeSheetKeeps(m1, proc, Processamento, d, Exportacao, v);
      MergeSheetKeeps(m2, compra, CompraLiquida, d, Exportacao, v);
      MergeSheetKeeps(m3, imp, Importacao, d, Exportacao, v);
      MergePricesKeeps(m4, prices, d, Exportacao, v);
    }
    if x in proc {
      MergeSheetAdds(m1, proc, Processamento, x);
      MergeSheetKeeps(m2, compra, CompraLiquida, d, Processamento, v);
      MergeSheetKeeps(m3, imp, Importacao, d, Processamento, v);
      MergePricesKeeps(m4, prices, d, Processamento, v);
    }
    if x in compra {
      MergeSheetAdds(m2, compra, CompraLiquida, x);
      MergeSheetKeeps(m3, imp, Importacao, d, CompraLiquida, v);
      MergePricesKeeps(m4, prices, d, CompraLiquida, v);
    }
    if x in imp {
      MergeSheetAdds(m3, imp, Importacao, x);
      MergePricesKeeps(m4, prices, d, Importacao, v);
    }
  }

  /** Every price is in the merged frame, and every value of the merged frame
      comes from one of the sheets or the prices. */
  lemma MonthlyFramePrices(stock: seq<StockSaldo>, exp: seq<SheetRow>, proc: seq<SheetRow>, compra: seq<SheetRow>,
                           imp: seq<SheetRow>, prices: seq<MonthRow>, d: Dates.Date, c: string, v: real)
    ensures Holds(prices, d, c, v) ==> Holds(MonthlyFrame(stock, exp, proc, compra, imp, prices), d, c, v)
    ensures Holds(MonthlyFrame(stock, exp, proc, compra, imp, prices), d, c, v) ==>
              Holds(StockFrame(stock), d, c, v) || Holds(SheetFrame(exp, Exportacao), d, c, v)
              || Holds(SheetFrame(proc, Processamento), d, c, v) || Holds(SheetFrame(compra, CompraLiquida), d, c, v)
              || Holds(SheetFrame(imp, Importacao), d, c, v) || Holds(prices, d, c, v)
  {
    var s0 := StockFrame(stock);
    var m1 := MergeMonthly(s0, SheetFrame(exp, Exportacao));
    var m2 := MergeMonthly(m1, SheetFrame(proc, Processamento));
    var m3 := MergeMonthly(m2, SheetFrame(compra, CompraLiquida));
    var m4 := MergeMonthly(m3, SheetFrame(imp, Importacao));
    if Holds(prices, d, c, v) {
      MergeMonthlyKeepsRight(m4, prices, d, c, v);
    }
    if Holds(MergeMonthly(m4, prices), d, c, v) {
      MergeMonthlySound(m4, prices, d, c, v);
      if Holds(m4, d, c, v) {
        MergeMonthlySound(m3, SheetFrame(imp, Importacao), d, c, v);
        if Holds(m3, d, c, v) {
          MergeMonthlySound(m2, SheetFrame(compra, CompraLiquida), d, c, v);
          if Holds(m2, d, c, v) {
            MergeMonthlySound(m1, SheetFrame(proc, Processamento), d, c, v);
            if Holds(m1, d, c, v) {
              MergeMonthlySound(s0, SheetFrame(exp, Exportacao), d, c, v);
            }
          }
        }
      }
    }
  }

  // ---------------------------------------------------------------------------
  // Lines 102-124: year and month columns, production spread over the months
  // ---------------------------------------------------------------------------

  /** `pesos_mensais`: the share of the annual harvest given to each month. */
  const Weights: map<int, real> := map[1 := 0.10, 2 := 0.15, 3 := 0.25, 4 := 0.20, 5 := 0.10, 6 := 0.05,
                                       7 := 0.05, 8 := 0.05, 9 := 0.05, 10 := 0.05, 11 := 0.05, 12 := 0.05]

  /** The weight table covers exactly the months 1 to 12. */
  lemma WeightsKeys()
    ensures forall m :: m in Weights <==> 1 <= m <= 12
  {
  }

  /** The weights add up to 1.15, not to 1. */
  lemma WeightsSum()
    ensures Series.Sum(seq(12, i requires 0 <= i < 12 => Weights[i + 1])) == 1.15
  {
    var w := seq(12, i requires 0 <= i < 12 => Weights[i + 1]);
    assert w == [0.10, 0.15, 0.25, 0.20, 0.10, 0.05, 0.05, 0.05, 0.05, 0.05, 0.05, 0.05];
    assert Series.Sum(w[..1]) == 0.10;
    assert w[..2][..1] == w[..1];
    assert Series.Sum(w[..2]) == 0.25;
    assert w[..3][..2] == w[..2];
    assert Series.Sum(w[..3]) == 0.50;
    assert w[..4][..3] == w[..3];
    assert Series.Sum(w[..4]) == 0.70;
    assert w[..5][..4] == w[..4];
    assert Series.Sum(w[..5]) == 0.80;
    assert w[..6][..5] == w[..5];
    assert Series.Sum(w[..6]) == 0.85;
    assert w[..7][..6] == w[..6];
    assert Series.Sum(w[..7]) == 0.90;
    assert w[..8][..7] == w[..7];
    assert Series.Sum(w[..8]) == 0.95;
    assert w[..9][..8] == w[..8];
    assert Series.Sum(w[..9]) == 1.00;
    assert w[..10][..9] == w[..9];
    assert Series.Sum(w[..10]) == 1.05;
    assert w[..11][..10] == w[..10];
    assert Series.Sum(w[..11]) == 1.10;
    assert w[..11] == w[..11];
    assert Series.Sum(w) == 1.15;
  }

  /** `df_balanco[['periodo', 'producao']]`: None is the KeyError when no balance
      row has a production figure, so the column does not exist. */
  datatype ProdYear = ProdYear(ano: int, producao: Option<real>)

  function ProdAno(p: ProdYear): int { p.ano }

  function ProducaoTable(rows: seq<AnnualOut>): (r: Option<seq<ProdYear>>)
    ensures r.None? <==> forall x :: x in rows ==> ProducaoLabel !in x.cells
    ensures r.Some? ==> |r.value| == |rows|
  {
    if forall x :: x in rows ==> ProducaoLabel !in x.cells then None
    else Some(seq(|rows|, i requires 0 <= i < |rows| =>
      ProdYear(rows[i].periodo, if ProducaoLabel in rows[i].cells then Some(rows[i].cells[ProducaoLabel]) else None)))
  }

  /** A row of the monthly table after the production merge: a year with
      production and no monthly row has no date and no month. */
  datatype MensalRow = MensalRow(anoMes: Option<Dates.Date>, ano: int, mes: Option<int>,
                                 values: map<string, real>, producao: Option<real>)

  /** `producao * mes.map(pesos_mensais)`: missing when either factor is. */
  function Weighted(producao: Option<real>, mes: int): Option<real> {
    if producao.Some? && mes in Weights then Some(producao.value * Weights[mes]) else None
  }

  /** A month of the calendar with a production figure gets its weighted share. */
  lemma WeightedMonth(a: real, mes: int)
    requires 1 <= mes <= 12
    ensures Weighted(Some(a), mes).Some? && Weighted(Some(a), mes).value == a * Weights[mes]
  {
    WeightsKeys();
  }

  function MonthAno(r: MonthRow): int { r.anoMes.year }

  function Spread(j: Tables.Joined<MonthRow, ProdYear>): MensalRow {
    match j
    case Both(x, p) => MensalRow(Some(x.anoMes), x.anoMes.year, Some(x.anoMes.month), x.values, Weighted(p.producao, x.anoMes.month))
    case LeftOnly(x) => MensalRow(Some(x.anoMes), x.anoMes.year, Some(x.anoMes.month), x.values, None)
    case RightOnly(p) => MensalRow(None, p.ano, None, map[], None)
  }

  /** `ano`/`mes` from the date, outer merge with the production on `ano`, and the
      production weighted by the month. */
  function AddProducao(f: seq<MonthRow>, prod: seq<ProdYear>): seq<MensalRow> {
    var js := Tables.OuterJoin(f, prod, MonthAno, ProdAno);
    seq(|js|, i requires 0 <= i < |js| => Spread(js[i]))
  }

  /** Each row: year and month are those of its date; a dated row carries the
      cells of a monthly row of that date; an undated row is a production year no
      monthly row falls in, with no production; a production figure is the
      year's annual production times the month's weight. */
  lemma AddProducaoRow(f: seq<MonthRow>, prod: seq<ProdYear>, i: nat)
    requires i < |AddProducao(f, prod)|
    ensures var r := AddProducao(f, prod)[i];
      r.anoMes.Some? ==>
        (r.ano == r.anoMes.value.year && r.mes == Some(r.anoMes.value.month)
         && exists x :: x in f && x.anoMes == r.anoMes.value && x.values == r.values)
    ensures var r := AddProducao(f, prod)[i];
      r.anoMes.None? ==>
        (r.mes.None? && r.producao.None? && r.values == map[]
         && (exists p :: p in prod && p.ano == r.ano) && forall x :: x in f ==> x.anoMes.year != r.ano)
    ensures var r := AddProducao(f, prod)[i];
      r.producao.Some? ==>
        (r.mes.Some? && r.mes.value in Weights
         && exists p :: p in prod && p.ano == r.ano && p.producao.Some? && r.producao.value == p.producao.value * Weights[r.mes.value])
  {
    var js := Tables.OuterJoin(f, prod, MonthAno, ProdAno);
    Tables.OuterJoinProvenance(f, prod, MonthAno, ProdAno);
    assert js[i] in js;
    assert Tables.Provenance(js[i], f, prod, MonthAno, ProdAno);
  }

  /** Every cell of the monthly frame is still there on its date. */
  lemma AddProducaoKeeps(f: seq<MonthRow>, prod: seq<ProdYear>, x: MonthRow)
    requires x in f
    ensures exists r :: r in AddProducao(f, prod) && r.anoMes == Some(x.anoMes) && r.values == x.values
  {
    var js := Tables.OuterJoin(f, prod, MonthAno, ProdAno);
    var out := AddProducao(f, prod);
    Tables.OuterJoinKeepsRows(f, prod, MonthAno, ProdAno);
    var j :| j in js && !j.RightOnly? && j.l == x;
    var k :| 0 <= k < |js| && js[k] == j;
    assert out[k] in out;
  }

  /** A month of a year with production gets its weighted share of it. */
  lemma AddProducaoSpreads(f: seq<MonthRow>, prod: seq<ProdYear>, x: MonthRow, p: ProdYear)
    requires x in f && p in prod && x.anoMes.year == p.ano
    ensures exists r :: r in AddProducao(f, prod) && r.anoMes == Some(x.anoMes) && r.values == x.values
              && r.producao == Weighted(p.producao, x.anoMes.month)
  {
    var js := Tables.OuterJoin(f, prod, MonthAno, ProdAno);
    var out := AddProducao(f, prod);
    Tables.OuterJoinPairs(f, prod, MonthAno, ProdAno, x, p);
    var k :| 0 <= k < |js| && js[k] == Tables.Both(x, p);
    assert out[k] == Spread(Tables.Both(x, p));
    assert out[k] in out;
  }

  /** Over the twelve months of a year the spread production adds up to 1.15
      times the annual figure. */
  lemma SpreadYearTotal(a: real)
    ensures Series.Sum(seq(12, i requires 0 <= i < 12 => Weighted(Some(a), i + 1).value)) == 1.15 * a
  {
    var w := seq(12, i requires 0 <= i < 12 => Weights[i + 1]);
    var t := seq(12, i requires 0 <= i < 12 => Weighted(Some(a), i + 1).value);
    WeightsSum();
    forall i | 0 <= i < 12 ensures t[i] == a * w[i] {
      WeightedMonth(a, i + 1);
    }
    Series.SumScale(w, t, a);
  }

  // ---------------------------------------------------------------------------
  // Lines 128-147: the exchange rate quoted closest to the first of each month
  // ---------------------------------------------------------------------------

  function QMonth(q: Quote): int { Dates.MonthIndex(q.datetime) }

  function Abs(x: int): nat { if x < 0 then -x else x }

  /** `|ano_mes - ano_mes.strftime("%Y-%m-01")|`, in days. */
  function Offset(q: Quote): int {
    Abs(Dates.Stamp(q.datetime) - Dates.Stamp(Dates.Date(q.datetime.year, q.datetime.month, 1)))
  }

  /** The month's quotes, in date order, and the first with the smallest offset
      (`x.iloc[... .abs().argmin()]`). */
  function MonthPick(sorted: seq<Quote>, k: int): (q: Quote)
    requires exists x :: x in sorted && QMonth(x) == k
    ensures q in sorted && QMonth(q) == k
    ensures forall z :: z in sorted && QMonth(z) == k ==> Offset(q) <= Offset(z)
  {
    var x :| x in sorted && QMonth(x) == k;
    var g := Tables.RowsOfYear(sorted, QMonth, k);
    assert x in g;
    g[Tables.FirstMinIndex(g, Offset)]
  }

  /** A month's rate, keyed by the first day of the month. */
  datatype MonthFx = MonthFx(anoMes: Dates.Date, usdbrl: real)

  /** `sort_values(["ano", "mes", "ano_mes"])`, `groupby(["ano", "mes"])`, the
      pick of each group, its date moved to day 1, keeping `ano_mes` and `usdbrl`. */
  function NearestFx(qs: seq<Quote>): (r: seq<MonthFx>)
    ensures |r| == |Tables.GroupKeys(Tables.SortBy(qs, QStamp), QMonth)|
  {
    var sorted := Tables.SortBy(qs, QStamp);
    var ks := Tables.GroupKeys(sorted, QMonth);
    seq(|ks|, i requires 0 <= i < |ks| => MonthRate(sorted, ks[i]))
  }

  function MonthRate(sorted: seq<Quote>, k: int): (m: MonthFx)
    requires k in Tables.GroupKeys(sorted, QMonth)
  {
    var q := MonthPick(sorted, k);
    MonthFx(Dates.Date(q.datetime.year, q.datetime.month, 1), q.close)
  }

  /** On valid dates of one month, a smaller offset from day 1 is an earlier date. */
  lemma OffsetOrdersMonth(a: Quote, b: Quote)
    requires Dates.Valid(a.datetime) && Dates.Valid(b.datetime) && QMonth(a) == QMonth(b) && Offset(a) <= Offset(b)
    ensures QStamp(a) <= QStamp(b)
  {
    Dates.SameMonthIndex(a.datetime, b.datetime);
  }

  /** Each month's rate is the close of the earliest quote of that month, and its
      key is day 1 of that month. */
  lemma NearestFxIsEarliest(qs: seq<Quote>, i: nat)
    requires ValidQuotes(qs) && i < |NearestFx(qs)|
    ensures NearestFx(qs)[i].anoMes.day == 1
    ensures exists q :: q in qs && Dates.FirstOfMonth(q.datetime) == NearestFx(qs)[i].anoMes && q.close == NearestFx(qs)[i].usdbrl
              && forall z :: z in qs && QMonth(z) == QMonth(q) ==> QStamp(q) <= QStamp(z)
  {
    var sorted := Tables.SortBy(qs, QStamp);
    var ks := Tables.GroupKeys(sorted, QMonth);
    SortedQuotes(qs);
    assert ks[i] in ks;
    var q := MonthPick(sorted, ks[i]);
    assert NearestFx(qs)[i] == MonthRate(sorted, ks[i]);
    forall z | z in qs && QMonth(z) == QMonth(q) ensures QStamp(q) <= QStamp(z) {
      OffsetOrdersMonth(q, z);
    }
  }

  /** The merge key of a rate: its (always present) first-of-month date. */
  function FxKey(m: MonthFx): Option<Dates.Date> { Some(m.anoMes) }

  /** Rate i is keyed by day 1 of the i-th quoted month. */
  lemma NearestFxMonth(qs: seq<Quote>, i: nat)
    requires ValidQuotes(qs) && i < |NearestFx(qs)|
    ensures Dates.Valid(NearestFx(qs)[i].anoMes) && NearestFx(qs)[i].anoMes.day == 1
    ensures Dates.MonthIndex(NearestFx(qs)[i].anoMes) == Tables.GroupKeys(Tables.SortBy(qs, QStamp), QMonth)[i]
  {
    var sorted := Tables.SortBy(qs, QStamp);
    var ks := Tables.GroupKeys(sorted, QMonth);
    SortedQuotes(qs);
    assert ks[i] in ks;
    var q := MonthPick(sorted, ks[i]);
    assert NearestFx(qs)[i] == MonthRate(sorted, ks[i]);
    assert Dates.Valid(q.datetime);
  }

  /** No month has two rates ... */
  lemma NearestFxUnique(qs: seq<Quote>)
    requires ValidQuotes(qs)
    ensures Tables.UniqueBy(NearestFx(qs), FxKey)
  {
    var ks := Tables.GroupKeys(Tables.SortBy(qs, QStamp), QMonth);
    var r := NearestFx(qs);
    forall i, j | 0 <= i < j < |r| ensures FxKey(r[i]) != FxKey(r[j]) {
      NearestFxMonth(qs, i);
      NearestFxMonth(qs, j);
      assert ks[i] < ks[j];
    }
  }

  /** ... and every month with a quote has one. */
  lemma NearestFxCovers(qs: seq<Quote>, q: Quote)
    requires ValidQuotes(qs) && q in qs
    ensures exists m :: m in NearestFx(qs) && m.anoMes == Dates.FirstOfMonth(q.datetime)
  {
    var sorted := Tables.SortBy(qs, QStamp);
    var ks := Tables.GroupKeys(sorted, QMonth);
    var r := NearestFx(qs);
    SortedQuotes(qs);
    assert q in sorted;
    assert QMonth(q) in ks;
    var i :| 0 <= i < |ks| && ks[i] == QMonth(q);
    NearestFxMonth(qs, i);
    var m := r[i];
    assert Dates.Valid(q.datetime);
    Dates.SameMonthIndex(m.anoMes, q.datetime);
    assert m.anoMes == Dates.Date(q.datetime.year, q.datetime.month, 1);
    assert m in r;
  }

  /** A row of `soja_mensal` as written out: the monthly row and its month's rate. */
  datatype MensalOut = MensalOut(anoMes: Option<Dates.Date>, ano: int, mes: Option<int>, values: map<string, real>,
                                 producao: Option<real>, usdbrl: Option<real>)

  function MensalKey(r: MensalRow): Option<Dates.Date> { r.anoMes }

  function AttachMonthFx(j: Tables.Joined<MensalRow, MonthFx>): MensalOut {
    match j
    case Both(r, m) => MensalOut(r.anoMes, r.ano, r.mes, r.values, r.producao, Some(m.usdbrl))
    case LeftOnly(r) => MensalOut(r.anoMes, r.ano, r.mes, r.values, r.producao, None)
    case RightOnly(m) => MensalOut(Some(m.anoMes), m.anoMes.year, None, map[], None, Some(m.usdbrl))
  }

  /** `pd.merge(soja_mensal, df_dolar_proximo, on="ano_mes", how="left")`. */
  function WithMonthlyFx(rows: seq<MensalRow>, qs: seq<Quote>): seq<MensalOut> {
    var js := Tables.LeftJoin(rows, NearestFx(qs), MensalKey, FxKey);
    seq(|js|, i requires 0 <= i < |js| => AttachMonthFx(js[i]))
  }

  /** The left merge keeps every row, in order and unchanged, and gives it a rate
      exactly when its date is the first of a month with a quote; that rate is the
      close of the month's earliest quote. */
  lemma WithMonthlyFxSpec(rows: seq<MensalRow>, qs: seq<Quote>, i: nat)
    requires ValidQuotes(qs) && i < |rows|
    ensures |WithMonthlyFx(rows, qs)| == |rows|
    ensures var o := WithMonthlyFx(rows, qs)[i];
      o.anoMes == rows[i].anoMes && o.ano == rows[i].ano && o.mes == rows[i].mes
      && o.values == rows[i].values && o.producao == rows[i].producao
    ensures WithMonthlyFx(rows, qs)[i].usdbrl.Some? <==>
              rows[i].anoMes.Some? && exists q :: q in qs && Dates.FirstOfMonth(q.datetime) == rows[i].anoMes.value
    ensures WithMonthlyFx(rows, qs)[i].usdbrl.Some? ==>
              exists q :: q in qs && Some(Dates.FirstOfMonth(q.datetime)) == rows[i].anoMes
                && q.close == WithMonthlyFx(rows, qs)[i].usdbrl.value
                && forall z :: z in qs && QMonth(z) == QMonth(q) ==> QStamp(q) <= QStamp(z)
  {
    var fx := NearestFx(qs);
    NearestFxUnique(qs);
    Tables.LeftJoinLookup(rows, fx, MensalKey, FxKey, i);
    var j := Tables.LeftJoin(rows, fx, MensalKey, FxKey)[i];
    assert WithMonthlyFx(rows, qs)[i] == AttachMonthFx(j);
    if rows[i].anoMes.Some? && exists q :: q in qs && Dates.FirstOfMonth(q.datetime) == rows[i].anoMes.value {
      var q :| q in qs && Dates.FirstOfMonth(q.datetime) == rows[i].anoMes.value;
      NearestFxCovers(qs, q);
      var m :| m in fx && m.anoMes == Dates.FirstOfMonth(q.datetime);
      assert FxKey(m) == MensalKey(rows[i]);
    }
    if j.Both? {
      var k :| 0 <= k < |fx| && fx[k] == j.r;
      NearestFxIsEarliest(qs, k);
    }
  }

  // ---------------------------------------------------------------------------
  // The whole monthly table
  // ---------------------------------------------------------------------------

  /** The written table has value v in column c on date d. */
  predicate OutHolds(out: seq<MensalOut>, d: Dates.Date, c: string, v: real) {
    exists r :: r in out && r.anoMes == Some(d) && c in r.values && r.values[c] == v
  }

  /** A value of the merged monthly frame reaches the written table. */
  lemma PipelineKeeps(f: seq<MonthRow>, prod: seq<ProdYear>, qs: seq<Quote>, d: Dates.Date, c: string, v: real)
    requires ValidQuotes(qs) && Holds(f, d, c, v)
    ensures OutHolds(WithMonthlyFx(AddProducao(f, prod), qs), d, c, v)
  {
    var x :| x in f && x.anoMes == d && c in x.values && x.values[c] == v;
    var rows := AddProducao(f, prod);
    AddProducaoKeeps(f, prod, x);
    var r :| r in rows && r.anoMes == Some(x.anoMes) && r.values == x.values;
    var k :| 0 <= k < |rows| && rows[k] == r;
    WithMonthlyFxSpec(rows, qs, k);
    assert WithMonthlyFx(rows, qs)[k] in WithMonthlyFx(rows, qs);
  }

  /** A grain production record gives the balance a production column ... */
  lemma ProducaoColumnFromRecord(balanco: seq<Record>, qs: seq<Quote>, y: Record)
    requires ValidRecords(balanco) && BalancoAnual(balanco).Some?
    requires y in balanco && y.produto == GraoBalanco && y.disc == ProducaoLabel
    ensures exists x :: x in BalanceWithFx(BalancoAnual(balanco).value, qs) && ProducaoLabel in x.cells
  {
    var anual := BalancoAnual(balanco).value;
    var rows := BalanceWithFx(anual, qs);
    BalancoAnualHas(balanco, y);
    var a :| a in anual && a.periodo == y.data.year && ProducaoLabel in a.cells;
    var k :| 0 <= k < |anual| && anual[k] == a;
    BalanceWithFxKeeps(anual, qs, k);
    assert rows[k] in rows;
  }

  /** ... and only a grain production record does. */
  lemma ProducaoColumnHasRecord(balanco: seq<Record>, qs: seq<Quote>, x: AnnualOut)
    requires ValidRecords(balanco) && BalancoAnual(balanco).Some?
    requires x in BalanceWithFx(BalancoAnual(balanco).value, qs) && ProducaoLabel in x.cells
    ensures HasLabel(FilterProduto(balanco, GraoBalanco), ProducaoLabel)
  {
    var anual := BalancoAnual(balanco).value;
    var rows := BalanceWithFx(anual, qs);
    var k :| 0 <= k < |rows| && rows[k] == x;
    assert |rows| == |anual| by {
      if |anual| > 0 { BalanceWithFxKeeps(anual, qs, 0); }
    }
    BalanceWithFxKeeps(anual, qs, k);
    BalancoAnualCell(balanco, k, ProducaoLabel);
    var y :| y in balanco && y.produto == GraoBalanco && y.data.year == anual[k].periodo && y.disc == ProducaoLabel
               && y.valor == anual[k].cells[ProducaoLabel];
    assert y in FilterProduto(balanco, GraoBalanco);
  }

  /** The production column exists exactly when some grain balance record is a
      production figure. */
  lemma ProducaoColumn(balanco: seq<Record>, qs: seq<Quote>)
    requires ValidRecords(balanco) && BalancoAnual(balanco).Some?
    ensures ProducaoTable(BalanceWithFx(BalancoAnual(balanco).value, qs)).Some? <==>
              HasLabel(FilterProduto(balanco, GraoBalanco), ProducaoLabel)
  {
    var g := FilterProduto(balanco, GraoBalanco);
    var rows := BalanceWithFx(BalancoAnual(balanco).value, qs);
    if HasLabel(g, ProducaoLabel) {
      var y :| y in g && y.disc == ProducaoLabel;
      ProducaoColumnFromRecord(balanco, qs, y);
    }
    if exists x :: x in rows && ProducaoLabel in x.cells {
      var x :| x in rows && ProducaoLabel in x.cells;
      ProducaoColumnHasRecord(balanco, qs, x);
    }
  }



  /** Every production figure is a grain balance record of that year. */
  lemma ProducaoSound(balanco: seq<Record>, qs: seq<Quote>, p: ProdYear)
    requires ValidRecords(balanco) && BalancoAnual(balanco).Some?
    requires ProducaoTable(BalanceWithFx(BalancoAnual(balanco).value, qs)).Some?
    requires p in ProducaoTable(BalanceWithFx(BalancoAnual(balanco).value, qs)).value && p.producao.Some?
    ensures exists y :: y in balanco && y.produto == GraoBalanco && y.disc == ProducaoLabel
              && y.data.year == p.ano && y.valor == p.producao.value
  {
    var anual := BalancoAnual(balanco).value;
    var rows := BalanceWithFx(anual, qs);
    var prod := ProducaoTable(rows).value;
    var k :| 0 <= k < |prod| && prod[k] == p;
    assert |rows| == |anual| by {
      if |anual| > 0 { BalanceWithFxKeeps(anual, qs, 0); }
    }
    BalanceWithFxKeeps(anual, qs, k);
    BalancoAnualCell(balanco, k, ProducaoLabel);
  }


  /** Every production figure of `prod` is a grain production record of its year. */
  predicate ProdSound(prod: seq<ProdYear>, balanco: seq<Record>) {
    forall p :: p in prod && p.producao.Some? ==>
      exists y :: y in balanco && y.produto == GraoBalanco && y.disc == ProducaoLabel
        && y.data.year == p.ano && y.valor == p.producao.value
  }

  lemma ProducaoTableSound(balanco: seq<Record>, qs: seq<Quote>)
    requires ValidRecords(balanco) && BalancoAnual(balanco).Some?
    requires ProducaoTable(BalanceWithFx(BalancoAnual(balanco).value, qs)).Some?
    ensures ProdSound(ProducaoTable(BalanceWithFx(BalancoAnual(balanco).value, qs)).value, balanco)
  {
    forall p | p in ProducaoTable(BalanceWithFx(BalancoAnual(balanco).value, qs)).value && p.producao.Some? {
      ProducaoSound(balanco, qs, p);
    }
  }

  /** A written row's year and month are those of its date; an undated row (a
      production year without months) has no month, production or rate. */
  predicate RowDated(o: MensalOut) {
    && (o.anoMes.Some? ==> o.ano == o.anoMes.value.year && o.mes == Some(o.anoMes.value.month))
    && (o.anoMes.None? ==> o.mes.None? && o.producao.None? && o.usdbrl.None?)
  }

  /** A production figure is a grain production record of the row's year times
      the weight of the row's month. */
  predicate ProducaoFrom(producao: Option<real>, ano: int, mes: Option<int>, balanco: seq<Record>) {
    producao.Some? ==>
      (mes.Some? && mes.value in Weights
       && exists y :: y in balanco && y.produto == GraoBalanco && y.disc == ProducaoLabel
            && y.data.year == ano && producao.value == y.valor * Weights[mes.value])
  }

  predicate RowProducao(o: MensalOut, balanco: seq<Record>) {
    ProducaoFrom(o.producao, o.ano, o.mes, balanco)
  }

  /** A written rate is present exactly when the row's date is the first of a
      month with a quote, and is the close of that month's earliest quote. */
  predicate RowRate(o: MensalOut, quotes: seq<Quote>)
    requires ValidQuotes(quotes)
  {
    && (o.usdbrl.Some? <==> o.anoMes.Some? && exists q :: q in quotes && Dates.FirstOfMonth(q.datetime) == o.anoMes.value)
    && (o.usdbrl.Some? ==>
          exists q :: q in quotes && Some(Dates.FirstOfMonth(q.datetime)) == o.anoMes
            && q.close == o.usdbrl.value && forall z :: z in quotes && QMonth(z) == QMonth(q) ==> QStamp(q) <= QStamp(z))
  }

  /** Every row of the written table satisfies the three row properties. */
  predicate RowsSound(out: seq<MensalOut>, balanco: seq<Record>, quotes: seq<Quote>)
    requires ValidQuotes(quotes)
  {
    forall i :: 0 <= i < |out| ==> RowDated(out[i]) && RowProducao(out[i], balanco) && RowRate(out[i], quotes)
  }

  lemma PipelineRowDated(f: seq<MonthRow>, prod: seq<ProdYear>, quotes: seq<Quote>, i: nat)
    requires ValidQuotes(quotes) && i < |AddProducao(f, prod)|
    ensures |WithMonthlyFx(AddProducao(f, prod), quotes)| == |AddProducao(f, prod)|
    ensures RowDated(WithMonthlyFx(AddProducao(f, prod), quotes)[i])
    ensures RowRate(WithMonthlyFx(AddProducao(f, prod), quotes)[i], quotes)
  {
    var rows := AddProducao(f, prod);
    WithMonthlyFxSpec(rows, quotes, i);
    AddProducaoRow(f, prod, i);
  }

  /** The left merge with the rates neither adds nor drops rows. */
  lemma WithMonthlyFxLength(rows: seq<MensalRow>, qs: seq<Quote>)
    requires ValidQuotes(qs)
    ensures |WithMonthlyFx(rows, qs)| == |rows|
  {
    if |rows| > 0 {
      WithMonthlyFxSpec(rows, qs, 0);
    }
  }

  lemma SpreadSound(j: Tables.Joined<MonthRow, ProdYear>, prod: seq<ProdYear>, balanco: seq<Record>)
    requires ProdSound(prod, balanco) && (j.Both? ==> j.r in prod && MonthAno(j.l) == ProdAno(j.r))
    ensures ProducaoFrom(Spread(j).producao, Spread(j).ano, Spread(j).mes, balanco)
  {
    if j.Both? && Spread(j).producao.Some? {
      var y :| y in balanco && y.produto == GraoBalanco && y.disc == ProducaoLabel
               && y.data.year == j.r.ano && y.valor == j.r.producao.value;
      assert Spread(j).producao.value == y.valor * Weights[Spread(j).mes.value];
    }
  }

  lemma AddProducaoSound(f: seq<MonthRow>, prod: seq<ProdYear>, balanco: seq<Record>, i: nat)
    requires ProdSound(prod, balanco) && i < |AddProducao(f, prod)|
    ensures ProducaoFrom(AddProducao(f, prod)[i].producao, AddProducao(f, prod)[i].ano, AddProducao(f, prod)[i].mes, balanco)
  {
    var js := Tables.OuterJoin(f, prod, MonthAno, ProdAno);
    Tables.OuterJoinProvenance(f, prod, MonthAno, ProdAno);
    assert js[i] in js;
    assert Tables.Provenance(js[i], f, prod, MonthAno, ProdAno);
    SpreadSound(js[i], prod, balanco);
    assert AddProducao(f, prod)[i] == Spread(js[i]);
  }

  lemma PipelineRowProducao(f: seq<MonthRow>, prod: seq<ProdYear>, balanco: seq<Record>, quotes: seq<Quote>, i: nat)
    requires ValidQuotes(quotes) && ProdSound(prod, balanco) && i < |AddProducao(f, prod)|
    ensures |WithMonthlyFx(AddProducao(f, prod), quotes)| == |AddProducao(f, prod)|
    ensures RowProducao(WithMonthlyFx(AddProducao(f, prod), quotes)[i], balanco)
  {
    var rows := AddProducao(f, prod);
    WithMonthlyFxSpec(rows, quotes, i);
    AddProducaoSound(f, prod, balanco, i);
  }

  lemma PipelineRows(f: seq<MonthRow>, prod: seq<ProdYear>, balanco: seq<Record>, quotes: seq<Quote>)
    requires ValidQuotes(quotes) && ProdSound(prod, balanco)
    ensures RowsSound(WithMonthlyFx(AddProducao(f, prod), quotes), balanco, quotes)
  {
    var rows := AddProducao(f, prod);
    WithMonthlyFxLength(rows, quotes);
    forall i | 0 <= i < |WithMonthlyFx(rows, quotes)|
      ensures RowDated(WithMonthlyFx(rows, quotes)[i]) && RowProducao(WithMonthlyFx(rows, quotes)[i], balanco)
        && RowRate(WithMonthlyFx(rows, quotes)[i], quotes)
    {
      PipelineRowDated(f, prod, quotes, i);
      PipelineRowProducao(f, prod, balanco, quotes, i);
    }
  }

  /** Every figure of a sheet reaches the written table on its date. */
  predicate SheetReaches(out: seq<MensalOut>, rows: seq<SheetRow>, col: string) {
    forall x :: x in rows ==> OutHolds(out, x.anoMes, col, x.valor)
  }

  /** Every stock figure reaches the written table on its date. */
  predicate StockReaches(out: seq<MensalOut>, rows: seq<StockRow>) {
    forall x :: x in rows ==> OutHolds(out, x.anoMes, Estoque, x.estoque)
  }

  /** Every grain price other than the premium reaches the written table on its
      date under its label. */
  predicate PricesReach(out: seq<MensalOut>, precos: seq<Record>) {
    forall x :: x in precos && x.produto == GraoPrecos && x.disc != PremioLabel ==> OutHolds(out, x.data, x.disc, x.valor)
  }

  lemma SheetsReachOut(stock: seq<StockSaldo>, exp: seq<SheetRow>, proc: seq<SheetRow>, compra: seq<SheetRow>,
                       imp: seq<SheetRow>, prices: seq<MonthRow>, prod: seq<ProdYear>, qs: seq<Quote>)
    requires ValidQuotes(qs) && PricesFree(prices)
    ensures var out := WithMonthlyFx(AddProducao(MonthlyFrame(stock, exp, proc, compra, imp, prices), prod), qs);
      SheetReaches(out, exp, Exportacao) && SheetReaches(out, proc, Processamento)
      && SheetReaches(out, compra, CompraLiquida) && SheetReaches(out, imp, Importacao)
  {
    var m := MonthlyFrame(stock, exp, proc, compra, imp, prices);
    forall x | x in exp ensures OutHolds(WithMonthlyFx(AddProducao(m, prod), qs), x.anoMes, Exportacao, x.valor) {
      MonthlyFrameHasSheets(stock, exp, proc, compra, imp, prices, x);
      PipelineKeeps(m, prod, qs, x.anoMes, Exportacao, x.valor);
    }
    forall x | x in proc ensures OutHolds(WithMonthlyFx(AddProducao(m, prod), qs), x.anoMes, Processamento, x.valor) {
      MonthlyFrameHasSheets(stock, exp, proc, compra, imp, prices, x);
      PipelineKeeps(m, prod, qs, x.anoMes, Processamento, x.valor);
    }
    forall x | x in compra ensures OutHolds(WithMonthlyFx(AddProducao(m, prod), qs), x.anoMes, CompraLiquida, x.valor) {
      MonthlyFrameHasSheets(stock, exp, proc, compra, imp, prices, x);
      PipelineKeeps(m, prod, qs, x.anoMes, CompraLiquida, x.valor);
    }
    forall x | x in imp ensures OutHolds(WithMonthlyFx(AddProducao(m, prod), qs), x.anoMes, Importacao, x.valor) {
      MonthlyFrameHasSheets(stock, exp, proc, compra, imp, prices, x);
      PipelineKeeps(m, prod, qs, x.anoMes, Importacao, x.valor);
    }
  }

  lemma StocksReachOut(estoques: seq<StockRow>, stock: seq<StockSaldo>, exp: seq<SheetRow>, proc: seq<SheetRow>,
                       compra: seq<SheetRow>, imp: seq<SheetRow>, prices: seq<MonthRow>, prod: seq<ProdYear>, qs: seq<Quote>)
    requires ValidQuotes(qs) && PricesFree(prices)
    requires multiset(seq(|stock|, i requires 0 <= i < |stock| => StockOf(stock[i]))) == multiset(estoques)
    ensures StockReaches(WithMonthlyFx(AddProducao(MonthlyFrame(stock, exp, proc, compra, imp, prices), prod), qs), estoques)
  {
    var m := MonthlyFrame(stock, exp, proc, compra, imp, prices);
    var ofs := seq(|stock|, i requires 0 <= i < |stock| => StockOf(stock[i]));
    forall x | x in estoques ensures OutHolds(WithMonthlyFx(AddProducao(m, prod), qs), x.anoMes, Estoque, x.estoque) {
      assert x in multiset(ofs);
      var i :| 0 <= i < |ofs| && ofs[i] == x;
      MonthlyFrameHasStock(stock, exp, proc, compra, imp, prices, stock[i], Estoque);
      PipelineKeeps(m, prod, qs, x.anoMes, Estoque, x.estoque);
    }
  }

  lemma PricesReachOut(precos: seq<Record>, stock: seq<StockSaldo>, exp: seq<SheetRow>, proc: seq<SheetRow>,
                       compra: seq<SheetRow>, imp: seq<SheetRow>, prod: seq<ProdYear>, qs: seq<Quote>)
    requires ValidQuotes(qs) && ValidRecords(precos) && PriceFrame(precos).Some?
    ensures PricesReach(WithMonthlyFx(AddProducao(MonthlyFrame(stock, exp, proc, compra, imp, PriceFrame(precos).value), prod), qs), precos)
  {
    var prices := PriceFrame(precos).value;
    var m := MonthlyFrame(stock, exp, proc, compra, imp, prices);
    forall x | x in precos && x.produto == GraoPrecos && x.disc != PremioLabel
      ensures OutHolds(WithMonthlyFx(AddProducao(m, prod), qs), x.data, x.disc, x.valor)
    {
      PriceFrameHas(precos, x);
      MonthlyFramePrices(stock, exp, proc, compra, imp, prices, x.data, x.disc, x.valor);
      PipelineKeeps(m, prod, qs, x.data, x.disc, x.valor);
    }
  }

  /** Every stock balance, the `diff()` of the date-sorted stocks with 0 for the
      earliest, reaches the written table on its date. */
  predicate SaldoReaches(out: seq<MensalOut>, estoques: seq<StockRow>) {
    forall x :: x in WithDiff(Tables.SortBy(estoques, StockStamp)) ==> OutHolds(out, x.anoMes, Saldo, x.saldo)
  }

  lemma SaldosReachOut(estoques: seq<StockRow>, stock: seq<StockSaldo>, exp: seq<SheetRow>, proc: seq<SheetRow>,
                       compra: seq<SheetRow>, imp: seq<SheetRow>, prices: seq<MonthRow>, prod: seq<ProdYear>, qs: seq<Quote>)
    requires ValidQuotes(qs) && PricesFree(prices)
    requires multiset(stock) == multiset(WithDiff(Tables.SortBy(estoques, StockStamp)))
    ensures SaldoReaches(WithMonthlyFx(AddProducao(MonthlyFrame(stock, exp, proc, compra, imp, prices), prod), qs), estoques)
  {
    var m := MonthlyFrame(stock, exp, proc, compra, imp, prices);
    forall x | x in WithDiff(Tables.SortBy(estoques, StockStamp))
      ensures OutHolds(WithMonthlyFx(AddProducao(m, prod), qs), x.anoMes, Saldo, x.saldo)
    {
      assert x in multiset(stock);
      MonthlyFrameHasStock(stock, exp, proc, compra, imp, prices, x, Saldo);
      PipelineKeeps(m, prod, qs, x.anoMes, Saldo, x.saldo);
    }
  }

  /** A value of the written table is a value of the merged monthly frame: the
      production and rate merges bring their own fields and no cell. */
  lemma PipelineSound(f: seq<MonthRow>, prod: seq<ProdYear>, qs: seq<Quote>, d: Dates.Date, c: string, v: real)
    requires ValidQuotes(qs) && OutHolds(WithMonthlyFx(AddProducao(f, prod), qs), d, c, v)
    ensures Holds(f, d, c, v)
  {
    var rows := AddProducao(f, prod);
    var out := WithMonthlyFx(rows, qs);
    var r :| r in out && r.anoMes == Some(d) && c in r.values && r.values[c] == v;
    var k :| 0 <= k < |out| && out[k] == r;
    WithMonthlyFxLength(rows, qs);
    WithMonthlyFxSpec(rows, qs, k);
    AddProducaoRow(f, prod, k);
  }

  /** Every value of the stock frame is a stock or a stock balance of its date. */
  lemma StockFrameSound(stock: seq<StockSaldo>, d: Dates.Date, c: string, v: real)
    requires Holds(StockFrame(stock), d, c, v)
    ensures exists x :: x in stock && x.anoMes == d && ((c == Estoque && x.estoque == v) || (c == Saldo && x.saldo == v))
  {
    var f := StockFrame(stock);
    var r :| r in f && r.anoMes == d && c in r.values && r.values[c] == v;
    var i :| 0 <= i < |f| && f[i] == r;
    assert stock[i] in stock;
  }

  /** Value v in column c on date d comes from the inputs: a stock, a stock
      balance, a figure of a sheet under that sheet's column, or a grain price
      other than the premium under its label. */
  predicate FromInputs(d: Dates.Date, c: string, v: real, estoques: seq<StockRow>, exp: seq<SheetRow>,
                       proc: seq<SheetRow>, compra: seq<SheetRow>, imp: seq<SheetRow>, precos: seq<Record>) {
    || (c == Estoque && StockRow(d, v) in estoques)
    || (c == Saldo && exists x :: x in WithDiff(Tables.SortBy(estoques, StockStamp)) && x.anoMes == d && x.saldo == v)
    || (c == Exportacao && SheetRow(d, v) in exp)
    || (c == Processamento && SheetRow(d, v) in proc)
    || (c == CompraLiquida && SheetRow(d, v) in compra)
    || (c == Importacao && SheetRow(d, v) in imp)
    || (c != PremioLabel && exists x :: x in precos && x.produto == GraoPrecos && x.data == d && x.disc == c && x.valor == v)
  }

  /** Every value of the written table comes from the inputs. */
  ghost predicate ValuesSound(out: seq<MensalOut>, estoques: seq<StockRow>, exp: seq<SheetRow>, proc: seq<SheetRow>,
                        compra: seq<SheetRow>, imp: seq<SheetRow>, precos: seq<Record>) {
    forall d, c, v :: OutHolds(out, d, c, v) ==> FromInputs(d, c, v, estoques, exp, proc, compra, imp, precos)
  }

  /** One stock-frame value traced back to the stock sheet. */
  lemma StockValueFromInputs(estoques: seq<StockRow>, stock: seq<StockSaldo>, d: Dates.Date, c: string, v: real)
    requires multiset(stock) == multiset(WithDiff(Tables.SortBy(estoques, StockStamp)))
    requires Holds(StockFrame(stock), d, c, v)
    ensures (c == Estoque && StockRow(d, v) in estoques)
            || (c == Saldo && exists x :: x in WithDiff(Tables.SortBy(estoques, StockStamp)) && x.anoMes == d && x.saldo == v)
  {
    var asc := Tables.SortBy(estoques, StockStamp);
    var w := WithDiff(asc);
    StockFrameSound(stock, d, c, v);
    var x :| x in stock && x.anoMes == d && ((c == Estoque && x.estoque == v) || (c == Saldo && x.saldo == v));
    assert x in multiset(w);
    assert x in w;
    if c == Estoque {
      var i :| 0 <= i < |w| && w[i] == x;
      assert StockOf(w[i]) == asc[i];
      assert asc[i] in multiset(asc);
      assert StockRow(d, v) == asc[i];
    }
  }

  /** One value of the written table traced back to the inputs. */
  lemma OutValueFromInputs(estoques: seq<StockRow>, stock: seq<StockSaldo>, exp: seq<SheetRow>, proc: seq<SheetRow>,
                           compra: seq<SheetRow>, imp: seq<SheetRow>, precos: seq<Record>, prod: seq<ProdYear>,
                           qs: seq<Quote>, d: Dates.Date, c: string, v: real)
    requires ValidQuotes(qs) && PriceFrame(precos).Some?
    requires multiset(stock) == multiset(WithDiff(Tables.SortBy(estoques, StockStamp)))
    requires OutHolds(WithMonthlyFx(AddProducao(MonthlyFrame(stock, exp, proc, compra, imp, PriceFrame(precos).value), prod), qs), d, c, v)
    ensures FromInputs(d, c, v, estoques, exp, proc, compra, imp, precos)
  {
    var prices := PriceFrame(precos).value;
    PipelineSound(MonthlyFrame(stock, exp, proc, compra, imp, prices), prod, qs, d, c, v);
    MonthlyFramePrices(stock, exp, proc, compra, imp, prices, d, c, v);
    if Holds(StockFrame(stock), d, c, v) {
      StockValueFromInputs(estoques, stock, d, c, v);
    } else if Holds(SheetFrame(exp, Exportacao), d, c, v) {
      SheetFrameSound(exp, Exportacao, d, c, v);
    } else if Holds(SheetFrame(proc, Processamento), d, c, v) {
      SheetFrameSound(proc, Processamento, d, c, v);
    } else if Holds(SheetFrame(compra, CompraLiquida), d, c, v) {
      SheetFrameSound(compra, CompraLiquida, d, c, v);
    } else if Holds(SheetFrame(imp, Importacao), d, c, v) {
      SheetFrameSound(imp, Importacao, d, c, v);
    } else {
      PriceFrameSound(precos, d, c, v);
    }
  }

  lemma OutValuesFromInputs(estoques: seq<StockRow>, stock: seq<StockSaldo>, exp: seq<SheetRow>, proc: seq<SheetRow>,
                            compra: seq<SheetRow>, imp: seq<SheetRow>, precos: seq<Record>, prod: seq<ProdYear>, qs: seq<Quote>)
    requires ValidQuotes(qs) && PriceFrame(precos).Some?
    requires multiset(stock) == multiset(WithDiff(Tables.SortBy(estoques, StockStamp)))
    ensures ValuesSound(WithMonthlyFx(AddProducao(MonthlyFrame(stock, exp, proc, compra, imp, PriceFrame(precos).value), prod), qs),
                        estoques, exp, proc, compra, imp, precos)
  {
    var out := WithMonthlyFx(AddProducao(MonthlyFrame(stock, exp, proc, compra, imp, PriceFrame(precos).value), prod), qs);
    forall d, c, v | OutHolds(out, d, c, v) ensures FromInputs(d, c, v, estoques, exp, proc, compra, imp, precos) {
      OutValueFromInputs(estoques, stock, exp, proc, compra, imp, precos, prod, qs, d, c, v);
    }
  }

  /** With no price label among the sheets' columns, the price frame brings none
      of them. */
  lemma PriceFrameFree(precos: seq<Record>)
    requires PriceFrame(precos).Some?
    requires forall x :: x in precos && x.produto == GraoPrecos ==> !SheetColumn(x.disc)
    ensures PricesFree(PriceFrame(precos).value)
  {
    var f := PriceFrame(precos).value;
    forall r, c | r in f && c in r.values ensures !SheetColumn(c) {
      PriceFrameSound(precos, r.anoMes, c, r.values[c]);
    }
  }

  /** The monthly half of the script, `soja_mensal` rebound through each step:
      the stock balance, the outer merges of the sheets and prices, the year and
      month columns, the production spread over the months and the rate of each
      month. None is the script stopping: a repeated (date, label) pair in the
      grain balance or the grain prices, no premium column to drop, no
      production column to select, or one of the six price columns missing
      from the final column selection (line 151). */
  method SojaMensal(balanco: seq<Record>, quotes: seq<Quote>, estoques: seq<StockRow>, exp: seq<SheetRow>,
                    proc: seq<SheetRow>, compra: seq<SheetRow>, imp: seq<SheetRow>, precos: seq<Record>)
    returns (out: Option<seq<MensalOut>>)
    requires ValidRecords(balanco) && ValidRecords(precos) && ValidQuotes(quotes)
    requires forall x :: x in precos && x.produto == GraoPrecos ==> !SheetColumn(x.disc)
    ensures out.Some? <==>
              !DuplicateCell(FilterProduto(balanco, GraoBalanco)) && HasLabel(FilterProduto(balanco, GraoBalanco), ProducaoLabel)
              && !DuplicateCell(FilterProduto(precos, GraoPrecos)) && HasLabel(FilterProduto(precos, GraoPrecos), PremioLabel)
              && PriceColumnsPresent(precos)
    ensures out.Some? ==> StockReaches(out.value, estoques) && SaldoReaches(out.value, estoques)
    ensures out.Some? ==> SheetReaches(out.value, exp, Exportacao) && SheetReaches(out.value, proc, Processamento)
    ensures out.Some? ==> SheetReaches(out.value, compra, CompraLiquida) && SheetReaches(out.value, imp, Importacao)
    ensures out.Some? ==> PricesReach(out.value, precos)
    ensures out.Some? ==> ValuesSound(out.value, estoques, exp, proc, compra, imp, precos)
    ensures out.Some? ==> RowsSound(out.value, balanco, quotes)
  {
    var anual := BalancoAnual(balanco);
    if anual.None? {
      return None;
    }
    var dfBalanco := BalanceWithFx(anual.value, quotes);
    var stock := StockBalance(estoques);
    var precosFrame := PriceFrame(precos);
    if precosFrame.None? {
      return None;
    }
    var mensal := StockFrame(stock);
    mensal := MergeMonthly(mensal, SheetFrame(exp, Exportacao));
    mensal := MergeMonthly(mensal, SheetFrame(proc, Processamento));
    mensal := MergeMonthly(mensal, SheetFrame(compra, CompraLiquida));
    mensal := MergeMonthly(mensal, SheetFrame(imp, Importacao));
    mensal := MergeMonthly(mensal, precosFrame.value);
    ProducaoColumn(balanco, quotes);
    var producao := ProducaoTable(dfBalanco);
    if producao.None? {
      return None;
    }
    assert mensal == MonthlyFrame(stock, exp, proc, compra, imp, precosFrame.value);
    PriceFrameFree(precos);
    ProducaoTableSound(balanco, quotes);
    StocksReachOut(estoques, stock, exp, proc, compra, imp, precosFrame.value, producao.value, quotes);
    SaldosReachOut(estoques, stock, exp, proc, compra, imp, precosFrame.value, producao.value, quotes);
    OutValuesFromInputs(estoques, stock, exp, proc, compra, imp, precos, producao.value, quotes);
    SheetsReachOut(stock, exp, proc, compra, imp, precosFrame.value, producao.value, quotes);
    PricesReachOut(precos, stock, exp, proc, compra, imp, producao.value, quotes);
    PipelineRows(mensal, producao.value, balanco, quotes);
    if !PriceColumnsPresent(precos) {
      return None;
    }
    out := Some(WithMonthlyFx(AddProducao(mensal, producao.value), quotes));
  }
}
