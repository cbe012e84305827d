/** The ETL script that builds the monthly soybean table from the extracted
    sheets: each month-by-year sheet is zero-filled and melted into one row per
    (month, year) with a "YYYY-MM" key; the price sheet's "mmm/yy" periods are
    split into month and pivoted year; the tables are then joined by outer
    merges, with selected gaps filled with 0, the balance column is added, and
    every remaining gap is filled with 0. */
module TratarDados {
  import opened Wrappers
  import Tables
  import Text
  import Prices

  // ---------------------------------------------------------------------------
  // meses_dict and the "YYYY-MM" key
  // ---------------------------------------------------------------------------

  const MonthAbbrevs: seq<string> := ["Jan", "Fev", "Mar", "Abr", "Mai", "Jun", "Jul", "Ago", "Set", "Out", "Nov", "Dez"]

  const MonthMap: map<string, string> := map[
    "Jan" := "01", "Fev" := "02", "Mar" := "03", "Abr" := "04", "Mai" := "05", "Jun" := "06",
    "Jul" := "07", "Ago" := "08", "Set" := "09", "Out" := "10", "Nov" := "11", "Dez" := "12"]

  /** The map sends the i-th abbreviation to the zero-padded number i + 1, and
      knows no other key. */
  lemma MonthMapNumbers()
    ensures |MonthAbbrevs| == 12
    ensures forall i :: 0 <= i < 12 ==> MonthAbbrevs[i] in MonthMap && MonthMap[MonthAbbrevs[i]] == Text.TwoDigits(i + 1)
    ensures forall m :: m in MonthMap <==> m in MonthAbbrevs
  {
    forall i | 0 <= i < 12 ensures MonthAbbrevs[i] in MonthMap && MonthMap[MonthAbbrevs[i]] == Text.TwoDigits(i + 1) {
      assert Text.DigitChar(0) == '0' && Text.DigitChar(1) == '1' && Text.DigitChar(2) == '2';
      assert Text.DigitChar(3) == '3' && Text.DigitChar(4) == '4' && Text.DigitChar(5) == '5';
      assert Text.DigitChar(6) == '6' && Text.DigitChar(7) == '7' && Text.DigitChar(8) == '8' && Text.DigitChar(9) == '9';
    }
  }

  /** The map is one to one: different abbreviations get different numbers. */
  lemma MonthMapInjective()
    ensures forall a, b :: a in MonthMap && b in MonthMap && MonthMap[a] == MonthMap[b] ==> a == b
  {
    MonthMapNumbers();
    forall a, b | a in MonthMap && b in MonthMap && MonthMap[a] == MonthMap[b] ensures a == b {
      var i :| 0 <= i < 12 && MonthAbbrevs[i] == a;
      var j :| 0 <= j < 12 && MonthAbbrevs[j] == b;
      Text.TwoDigitsInjective(i + 1, j + 1);
    }
  }

  /** The map is onto "01".."12": every month number is the value of some
      abbreviation. */
  lemma MonthMapOnto()
    ensures forall n :: 1 <= n <= 12 ==> Text.TwoDigits(n) in MonthMap.Values
  {
    MonthMapNumbers();
    forall n | 1 <= n <= 12 ensures Text.TwoDigits(n) in MonthMap.Values {
      var m := MonthAbbrevs[n - 1];
      assert m in MonthMap && MonthMap[m] == Text.TwoDigits(n - 1 + 1);
      assert MonthMap[m] in MonthMap.Values;
    }
  }

  /** `ano.astype(str) + '-' + mes.map(meses_dict)`: None is the NaN of a month
      the map does not know. */
  function AnoMes(ano: string, mes: string): (k: Option<string>)
    ensures k.Some? <==> mes in MonthMap
  {
    if mes in MonthMap then Some(ano + "-" + MonthMap[mes]) else None
  }

  /** For a four-digit year the key is "YYYY-MM": seven characters, the year, a
      dash, and the month's two digits. */
  lemma AnoMesFormat(y: int, mes: string)
    requires 1000 <= y <= 9999 && mes in MonthMap
    ensures var k := AnoMes(Text.NatToString(y), mes).value;
            |k| == 7 && k[4] == '-' && k[..4] == Text.NatToString(y) && k[5..] == MonthMap[mes]
  {
    MonthMapNumbers();
    Text.NatToStringLength4(y);
    var i :| 0 <= i < 12 && MonthAbbrevs[i] == mes;
    assert |MonthMap[mes]| == 2;
  }

  /** Different (year, month) pairs get different keys. */
  lemma AnoMesInjective(y1: int, m1: string, y2: int, m2: string)
    requires 1000 <= y1 <= 9999 && m1 in MonthMap && 1000 <= y2 <= 9999 && m2 in MonthMap
    requires AnoMes(Text.NatToString(y1), m1) == AnoMes(Text.NatToString(y2), m2)
    ensures y1 == y2 && m1 == m2
  {
    AnoMesFormat(y1, m1);
    AnoMesFormat(y2, m2);
    Text.DigitsValueOfNat(y1);
    Text.DigitsValueOfNat(y2);
    MonthMapInjective();
  }

  // ---------------------------------------------------------------------------
  // fillna(0) then melt(id_vars=["ano"]): month rows x year columns to long form
  // ---------------------------------------------------------------------------

  /** A sheet as extracted: one row per month name, one column per year header,
      possibly empty cells. */
  datatype Wide = Wide(months: seq<string>, years: seq<string>, columns: seq<seq<Option<real>>>)

  predicate Rectangular(w: Wide) {
    |w.columns| == |w.years| && forall j :: 0 <= j < |w.columns| ==> |w.columns[j]| == |w.months|
  }

  /** A melted row: month name, year header, key, and the cell's value. */
  datatype LongRow = LongRow(mes: string, ano: string, anoMes: Option<string>, value: real)

  function FillZero(x: Option<real>): real { x.GetOr(0.0) }

  function MeltColumn(months: seq<string>, year: string, col: seq<Option<real>>): (r: seq<LongRow>)
    requires |col| == |months|
    ensures |r| == |months|
    ensures forall i :: 0 <= i < |months| ==> r[i] == LongRow(months[i], year, AnoMes(year, months[i]), FillZero(col[i]))
  {
    seq(|months|, i requires 0 <= i < |months| => LongRow(months[i], year, AnoMes(year, months[i]), FillZero(col[i])))
  }

  /** `melt` stacks the year columns one after the other. */
  function Melt(w: Wide): (r: seq<LongRow>)
    requires Rectangular(w)
    decreases |w.years|
  {
    if w.years == [] then []
    else MeltColumn(w.months, w.years[0], w.columns[0]) + Melt(Wide(w.months, w.years[1..], w.columns[1..]))
  }

  /** One row per (month, year) pair: the long table has months x years rows. */
  lemma {:induction false} MeltLength(w: Wide)
    requires Rectangular(w)
    ensures |Melt(w)| == |w.years| * |w.months|
    decreases |w.years|
  {
    if w.years != [] {
      MeltLength(Wide(w.months, w.years[1..], w.columns[1..]));
      assert |w.years| * |w.months| == |w.months| + (|w.years| - 1) * |w.months|;
    }
  }

  /** The row of month i in year column j sits at j * months + i and carries that
      cell, zero-filled, under that month's key for that year. */
  lemma {:induction false} MeltAt(w: Wide, i: nat, j: nat)
    requires Rectangular(w) && i < |w.months| && j < |w.years|
    ensures j * |w.months| + i < |Melt(w)|
    ensures Melt(w)[j * |w.months| + i]
            == LongRow(w.months[i], w.years[j], AnoMes(w.years[j], w.months[i]), FillZero(w.columns[j][i]))
    decreases |w.years|
  {
    var rest := Wide(w.months, w.years[1..], w.columns[1..]);
    var m := |w.months|;
    var head := MeltColumn(w.months, w.years[0], w.columns[0]);
    assert Melt(w) == head + Melt(rest);
    if j > 0 {
      MeltAt(rest, i, j - 1);
      var k := (j - 1) * m + i;
      assert j * m + i == m + k;
      assert Melt(w)[m + k] == Melt(rest)[k];
    }
  }

  // ---------------------------------------------------------------------------
  // Price sheet: "mmm/yy" periods
  // ---------------------------------------------------------------------------

  /** `lambda x: x + 2000 if x < 50 else x + 1900`. */
  function PivotYear(x: int): int {
    if x < 50 then x + 2000 else x + 1900
  }

  /** A two-digit year lands in 1950-2049 and keeps its last two digits. */
  lemma PivotYearRange(yy: int)
    requires 0 <= yy < 100
    ensures 1950 <= PivotYear(yy) <= 2049 && PivotYear(yy) % 100 == yy
  {
  }

  /** Every year of 1950-2049 is recovered from its last two digits. */
  lemma PivotYearRoundTrip(y: int)
    requires 1950 <= y <= 2049
    ensures PivotYear(y % 100) == y
  {
  }

  function Prefix3(s: string): string { if |s| <= 3 then s else s[..3] }
  function Last2(s: string): string { if |s| <= 2 then s else s[|s| - 2..] }

  /** `periodo.str[:3].str.capitalize()` and `periodo.str[-2:].astype(int)`
      pivoted: the month name and the year of a price period; None is the
      ValueError of a year that does not parse, which stops the script. */
  function PriceMonthYear(periodo: string): (r: Option<(string, int)>)
    ensures r.Some? ==> Text.ParseInt(Last2(periodo)).Some? && r.value.1 == PivotYear(Text.ParseInt(Last2(periodo)).value)
    ensures r.Some? ==> r.value.0 == Text.Capitalize(Prefix3(periodo))
    ensures r.None? <==> Text.ParseInt(Last2(periodo)).None?
  {
    var yy :- Text.ParseInt(Last2(periodo));
    Some((Text.Capitalize(Prefix3(periodo)), PivotYear(yy)))
  }

  /** Reading a period back: the text "mmm/yy" of a three-letter month and a year
      of 1950-2049 gives the capitalized month and that year. */
  lemma PriceMonthYearRoundTrip(m: string, y: int)
    requires |m| == 3 && 1950 <= y <= 2049
    ensures PriceMonthYear(m + "/" + Text.TwoDigits(y % 100)) == Some((Text.Capitalize(m), y))
  {
    var p := m + "/" + Text.TwoDigits(y % 100);
    assert Last2(p) == Text.TwoDigits(y % 100);
    assert Prefix3(p) == m;
    Text.DigitsValueTwoDigits(y % 100);
    PivotYearRoundTrip(y);
  }

  /** A price-sheet row: its period text and one cell per series. */
  datatype RawPrice = RawPrice(periodo: string, prices: Prices.PriceRow<Option<real>>)

  /** A price row ready to merge: its key and the zero-filled prices. */
  datatype PriceRecord = PriceRecord(anoMes: Option<string>, prices: Prices.PriceRow<real>)

  predicate PeriodsParse(raw: seq<RawPrice>) {
    forall i :: 0 <= i < |raw| ==> PriceMonthYear(raw[i].periodo).Some?
  }

  function PriceRecordOf(r: RawPrice): PriceRecord
    requires PriceMonthYear(r.periodo).Some?
  {
    var my := PriceMonthYear(r.periodo).value;
    PriceRecord(AnoMes(Text.IntToString(my.1), my.0), r.prices.Map(FillZero))
  }

  /** Lines 74-79: zero-fill, split the period, build the key; None when one
      period's year does not parse. */
  function PricesOf(raw: seq<RawPrice>): (r: Option<seq<PriceRecord>>)
    ensures r.Some? <==> PeriodsParse(raw)
    ensures r.Some? ==> |r.value| == |raw|
    ensures r.Some? ==> forall i :: 0 <= i < |raw| ==>
              r.value[i].prices == raw[i].prices.Map(FillZero)
              && var my := PriceMonthYear(raw[i].periodo).value;
                 r.value[i].anoMes == AnoMes(Text.IntToString(my.1), my.0)
  {
    if PeriodsParse(raw)
    then Some(seq(|raw|, i requires 0 <= i < |raw| && PeriodsParse(raw) => PriceRecordOf(raw[i])))
    else None
  }

  /** "jan/23" is January 2023. */
  lemma PricePeriodJanuary()
    ensures PriceMonthYear("jan/23") == Some(("Jan", 2023))
  {
    assert Last2("jan/23") == "23";
    assert Text.DigitsValue("23") == 23 by {
      assert "23"[..1] == "2";
    }
    assert Prefix3("jan/23") == "jan";
    assert Text.Capitalize("jan") == "Jan";
  }

  /** "dez/99" is December 1999: the pivot sends 99 to the last century. */
  lemma PricePeriodDecember()
    ensures PriceMonthYear("dez/99") == Some(("Dez", 1999))
  {
    assert Last2("dez/99") == "99";
    assert Text.DigitsValue("99") == 99 by {
      assert "99"[..1] == "9";
    }
    assert Prefix3("dez/99") == "dez";
    assert Text.Capitalize("dez") == "Dez";
  }

  /** January 2023 is keyed "2023-01". */
  lemma AnoMesExample()
    ensures AnoMes(Text.IntToString(2023), "Jan") == Some("2023-01")
  {
    assert Text.NatToString(2023) == "2023" by {
      assert Text.DigitChar(2) == '2' && Text.DigitChar(0) == '0' && Text.DigitChar(3) == '3';
      assert Text.NatToString(2) == "2";
      assert Text.NatToString(20) == "20";
      assert Text.NatToString(202) == "202";
    }
    assert Text.IntToString(2023) == "2023";
    assert MonthMap["Jan"] == "01";
    assert "2023" + "-" + "01" == "2023-01";
  }

  // ---------------------------------------------------------------------------
  // The merge chain
  // ---------------------------------------------------------------------------

  function LongKey(x: LongRow): Option<string> { x.anoMes }

  // Lines 93-99: stocks outer-merged with exports ---------------------------------

  datatype Stage1 = Stage1(mes: string, ano: string, anoMes: Option<string>, estoque: real, exportacao: Option<real>)

  function Stage1Key(s: Stage1): Option<string> { s.anoMes }

  /** `mes_x`/`ano_x` taken from the export row when the stock row is missing,
      stock filled with 0, exports left missing. */
  function Fill1(j: Tables.Joined<LongRow, LongRow>): Stage1 {
    match j
    case Both(x, y) => Stage1(x.mes, x.ano, x.anoMes, x.value, Some(y.value))
    case LeftOnly(x) => Stage1(x.mes, x.ano, x.anoMes, x.value, None)
    case RightOnly(y) => Stage1(y.mes, y.ano, y.anoMes, 0.0, Some(y.value))
  }

  function MergeExportacao(est: seq<LongRow>, exp: seq<LongRow>): seq<Stage1> {
    var js := Tables.OuterJoin(est, exp, LongKey, LongKey);
    seq(|js|, i requires 0 <= i < |js| => Fill1(js[i]))
  }

  /** Where a row of the first merge comes from: a stock row of its month (or, when
      there is none, an export row and a stock of 0), and an export row of its
      month exactly when exports are present. */
  ghost predicate Stage1From(s: Stage1, est: seq<LongRow>, exp: seq<LongRow>) {
    ((exists x :: x in est && x.anoMes == s.anoMes && x.mes == s.mes && x.ano == s.ano && x.value == s.estoque)
     || ((forall x :: x in est ==> x.anoMes != s.anoMes) && s.estoque == 0.0
         && exists y :: y in exp && y.anoMes == s.anoMes && y.mes == s.mes && y.ano == s.ano))
    && (s.exportacao.None? ==> forall y :: y in exp ==> y.anoMes != s.anoMes)
    && (s.exportacao.Some? ==> exists y :: y in exp && y.anoMes == s.anoMes && y.value == s.exportacao.value)
  }

  /** The merge keeps every month key of either side and invents none. */
  lemma MergeExportacaoKeys(est: seq<LongRow>, exp: seq<LongRow>)
    ensures Tables.KeySet(MergeExportacao(est, exp), Stage1Key) == Tables.KeySet(est, LongKey) + Tables.KeySet(exp, LongKey)
  {
    var js := Tables.OuterJoin(est, exp, LongKey, LongKey);
    Tables.OuterJoinKeys(est, exp, LongKey, LongKey);
    Tables.KeySetMapped(js, MergeExportacao(est, exp), (j: Tables.Joined<LongRow, LongRow>) => Tables.JoinKey(j, LongKey, LongKey), Stage1Key);
  }

  /** Every stock row survives with its value, every export row with its value. */
  lemma MergeExportacaoKeepsRows(est: seq<LongRow>, exp: seq<LongRow>)
    ensures forall x :: x in est ==> exists s :: s in MergeExportacao(est, exp) && s.anoMes == x.anoMes && s.estoque == x.value
    ensures forall y :: y in exp ==> exists s :: s in MergeExportacao(est, exp) && s.anoMes == y.anoMes && s.exportacao == Some(y.value)
  {
    var js := Tables.OuterJoin(est, exp, LongKey, LongKey);
    var out := MergeExportacao(est, exp);
    forall x | x in est ensures exists s :: s in out && s.anoMes == x.anoMes && s.estoque == x.value {
      Tables.OuterJoinLeftRow(est, exp, LongKey, LongKey, x);
      var k :| 0 <= k < |js| && !js[k].RightOnly? && js[k].l == x && Tables.Provenance(js[k], est, exp, LongKey, LongKey);
      assert out[k] == Fill1(js[k]);
      assert out[k] in out;
    }
    forall y | y in exp ensures exists s :: s in out && s.anoMes == y.anoMes && s.exportacao == Some(y.value) {
      Tables.OuterJoinRightRow(est, exp, LongKey, LongKey, y);
      var k :| 0 <= k < |js| && !js[k].LeftOnly? && js[k].r == y && Tables.Provenance(js[k], est, exp, LongKey, LongKey);
      assert out[k] == Fill1(js[k]);
      assert out[k] in out;
    }
  }

  /** Every row is made of a stock row and export row of its month as described by
      `Stage1From`. */
  lemma MergeExportacaoFill(est: seq<LongRow>, exp: seq<LongRow>)
    ensures forall s :: s in MergeExportacao(est, exp) ==> Stage1From(s, est, exp)
  {
    var js := Tables.OuterJoin(est, exp, LongKey, LongKey);
    var out := MergeExportacao(est, exp);
    Tables.OuterJoinProvenance(est, exp, LongKey, LongKey);
    forall s | s in out ensures Stage1From(s, est, exp) {
      var k :| 0 <= k < |out| && out[k] == s;
      assert Tables.Provenance(js[k], est, exp, LongKey, LongKey);
    }
  }

  // Lines 103-111: merged with crushing, every gap of the three measures filled --

  datatype Stage2 = Stage2(mes: string, ano: string, anoMes: Option<string>, estoque: real, exportacao: real, processamento: real)

  function Stage2Key(s: Stage2): Option<string> { s.anoMes }

  function Fill2(j: Tables.Joined<Stage1, LongRow>): Stage2 {
    match j
    case Both(s, p) => Stage2(s.mes, s.ano, s.anoMes, s.estoque, FillZero(s.exportacao), p.value)
    case LeftOnly(s) => Stage2(s.mes, s.ano, s.anoMes, s.estoque, FillZero(s.exportacao), 0.0)
    case RightOnly(p) => Stage2(p.mes, p.ano, p.anoMes, 0.0, 0.0, p.value)
  }

  function MergeProcessamento(s1: seq<Stage1>, proc: seq<LongRow>): seq<Stage2> {
    var js := Tables.OuterJoin(s1, proc, Stage1Key, LongKey);
    seq(|js|, i requires 0 <= i < |js| => Fill2(js[i]))
  }

  ghost predicate Stage2From(t: Stage2, s1: seq<Stage1>, proc: seq<LongRow>) {
    ((exists s :: s in s1 && s.anoMes == t.anoMes && s.mes == t.mes && s.ano == t.ano
                 && s.estoque == t.estoque && FillZero(s.exportacao) == t.exportacao)
     || ((forall s :: s in s1 ==> s.anoMes != t.anoMes) && t.estoque == 0.0 && t.exportacao == 0.0
         && exists p :: p in proc && p.anoMes == t.anoMes && p.mes == t.mes && p.ano == t.ano))
    && ((exists p :: p in proc && p.anoMes == t.anoMes && p.value == t.processamento)
        || ((forall p :: p in proc ==> p.anoMes != t.anoMes) && t.processamento == 0.0))
  }

  lemma MergeProcessamentoSpec(s1: seq<Stage1>, proc: seq<LongRow>)
    ensures Tables.KeySet(MergeProcessamento(s1, proc), Stage2Key) == Tables.KeySet(s1, Stage1Key) + Tables.KeySet(proc, LongKey)
    ensures forall p :: p in proc ==> exists t :: t in MergeProcessamento(s1, proc) && t.anoMes == p.anoMes && t.processamento == p.value
    ensures forall t :: t in MergeProcessamento(s1, proc) ==> Stage2From(t, s1, proc)
  {
    var js := Tables.OuterJoin(s1, proc, Stage1Key, LongKey);
    var out := MergeProcessamento(s1, proc);
    Tables.OuterJoinKeys(s1, proc, Stage1Key, LongKey);
    Tables.KeySetMapped(js, out, (j: Tables.Joined<Stage1, LongRow>) => Tables.JoinKey(j, Stage1Key, LongKey), Stage2Key);
    Tables.OuterJoinKeepsRows(s1, proc, Stage1Key, LongKey);
    Tables.OuterJoinProvenance(s1, proc, Stage1Key, LongKey);
    forall p | p in proc ensures exists t :: t in out && t.anoMes == p.anoMes && t.processamento == p.value {
      var j :| j in js && !j.LeftOnly? && j.r == p;
      var k :| 0 <= k < |js| && js[k] == j;
      assert out[k] == Fill2(j);
    }
    forall t | t in out ensures Stage2From(t, s1, proc) {
      var k :| 0 <= k < |out| && out[k] == t;
      assert Tables.Provenance(js[k], s1, proc, Stage1Key, LongKey);
    }
  }

  // Lines 115-121: merged with net purchases; only the purchases are filled -------

  datatype Stage3 = Stage3(mes: Option<string>, ano: Option<string>, anoMes: Option<string>,
                           estoque: Option<real>, exportacao: Option<real>, processamento: Option<real>, compra: real)

  function Stage3Key(s: Stage3): Option<string> { s.anoMes }

  /** A month that only the purchases sheet knows keeps empty month, year and
      measures: nothing fills them at this step. */
  function Fill3(j: Tables.Joined<Stage2, LongRow>): Stage3 {
    match j
    case Both(t, c) => Stage3(Some(t.mes), Some(t.ano), t.anoMes, Some(t.estoque), Some(t.exportacao), Some(t.processamento), c.value)
    case LeftOnly(t) => Stage3(Some(t.mes), Some(t.ano), t.anoMes, Some(t.estoque), Some(t.exportacao), Some(t.processamento), 0.0)
    case RightOnly(c) => Stage3(None, None, c.anoMes, None, None, None, c.value)
  }

  function MergeCompra(s2: seq<Stage2>, compra: seq<LongRow>): seq<Stage3> {
    var js := Tables.OuterJoin(s2, compra, Stage2Key, LongKey);
    seq(|js|, i requires 0 <= i < |js| => Fill3(js[i]))
  }

  ghost predicate Stage3From(u: Stage3, s2: seq<Stage2>, compra: seq<LongRow>) {
    ((exists t :: t in s2 && t.anoMes == u.anoMes && u.mes == Some(t.mes) && u.ano == Some(t.ano)
                 && u.estoque == Some(t.estoque) && u.exportacao == Some(t.exportacao) && u.processamento == Some(t.processamento))
     || ((forall t :: t in s2 ==> t.anoMes != u.anoMes)
         && u.mes.None? && u.ano.None? && u.estoque.None? && u.exportacao.None? && u.processamento.None?))
    && ((exists c :: c in compra && c.anoMes == u.anoMes && c.value == u.compra)
        || ((forall c :: c in compra ==> c.anoMes != u.anoMes) && u.compra == 0.0))
  }

  lemma MergeCompraSpec(s2: seq<Stage2>, compra: seq<LongRow>)
    ensures Tables.KeySet(MergeCompra(s2, compra), Stage3Key) == Tables.KeySet(s2, Stage2Key) + Tables.KeySet(compra, LongKey)
    ensures forall u :: u in MergeCompra(s2, compra) ==> Stage3From(u, s2, compra)
  {
    var js := Tables.OuterJoin(s2, compra, Stage2Key, LongKey);
    var out := MergeCompra(s2, compra);
    Tables.OuterJoinKeys(s2, compra, Stage2Key, LongKey);
    Tables.KeySetMapped(js, out, (j: Tables.Joined<Stage2, LongRow>) => Tables.JoinKey(j, Stage2Key, LongKey), Stage3Key);
    Tables.OuterJoinProvenance(s2, compra, Stage2Key, LongKey);
    forall u | u in out ensures Stage3From(u, s2, compra) {
      var k :| 0 <= k < |out| && out[k] == u;
      assert Tables.Provenance(js[k], s2, compra, Stage2Key, LongKey);
    }
  }

  // Lines 126-131: the balance column, then the year column cast to int ----------

  /** The row shape from here on: every column may be missing until the last fill. */
  datatype Cells = Cells(mes: Option<string>, ano: Option<int>, anoMes: Option<string>,
                         estoque: Option<real>, exportacao: Option<real>, processamento: Option<real>,
                         compra: Option<real>, saldo: Option<real>, producao: Option<real>,
                         prices: Prices.PriceRow<Option<real>>)

  const NoPrices: Prices.PriceRow<Option<real>> := Prices.PriceRow(None, None, None, None, None, None)

  /** `estoque + compra_liquida - exportacao - processamento`, missing as soon as
      one operand is. */
  function SaldoOf(u: Stage3): (r: Option<real>)
    ensures r.Some? <==> u.estoque.Some? && u.exportacao.Some? && u.processamento.Some?
  {
    if u.estoque.Some? && u.exportacao.Some? && u.processamento.Some?
    then Some(u.estoque.value + u.compra - u.exportacao.value - u.processamento.value)
    else None
  }

  /** The balance identity of a row: either the four measures and the balance are
      all present and the balance is stock plus purchases minus exports and
      crushing, or all five are missing. */
  predicate Balanced(c: Cells) {
    (c.estoque.Some? && c.exportacao.Some? && c.processamento.Some? && c.compra.Some?
     && c.saldo == Some(c.estoque.value + c.compra.value - c.exportacao.value - c.processamento.value))
    || (c.estoque.None? && c.exportacao.None? && c.processamento.None? && c.compra.None? && c.saldo.None?)
  }

  predicate AnosParse(s3: seq<Stage3>) {
    forall i :: 0 <= i < |s3| ==> s3[i].ano.Some? && Text.ParseInt(s3[i].ano.value).Some?
  }

  /** A row whose year is known came from the first three sheets, so its measures
      are known too. */
  predicate Measured(u: Stage3) {
    u.ano.Some? ==> u.estoque.Some? && u.exportacao.Some? && u.processamento.Some?
  }

  function CellsOf(u: Stage3, ano: int): Cells {
    Cells(u.mes, Some(ano), u.anoMes, u.estoque, u.exportacao, u.processamento, Some(u.compra), SaldoOf(u), None, NoPrices)
  }

  /** `df_merged["ano"].astype(int)`: fails (None) on a missing or non-numeric
      year; otherwise every row keeps its key and gets its balance. */
  function CastAno(s3: seq<Stage3>): (r: Option<seq<Cells>>)
    ensures r.Some? <==> AnosParse(s3)
    ensures r.Some? ==> |r.value| == |s3| && forall i :: 0 <= i < |s3| ==>
              r.value[i].anoMes == s3[i].anoMes && r.value[i].ano == Text.ParseInt(s3[i].ano.value)
              && r.value[i].saldo == SaldoOf(s3[i]) && r.value[i].producao.None? && r.value[i].prices == NoPrices
    ensures r.Some? ==> forall c :: c in r.value ==> c.prices == NoPrices
  {
    if AnosParse(s3)
    then Some(seq(|s3|, i requires 0 <= i < |s3| && AnosParse(s3) => CellsOf(s3[i], Text.ParseInt(s3[i].ano.value).value)))
    else None
  }

  /** Once the years are cast, a row built from measured rows satisfies the
      balance identity. */
  lemma CastAnoBalanced(s3: seq<Stage3>)
    requires forall u :: u in s3 ==> Measured(u)
    ensures CastAno(s3).Some? ==> forall c :: c in CastAno(s3).value ==> Balanced(c)
  {
    if AnosParse(s3) {
      forall c | c in CastAno(s3).value ensures Balanced(c) {
        var i :| 0 <= i < |s3| && CastAno(s3).value[i] == c;
        assert Measured(s3[i]);
      }
    }
  }

  /** Every row of the third merge is measured. */
  lemma MergeCompraMeasured(s2: seq<Stage2>, compra: seq<LongRow>)
    ensures forall u :: u in MergeCompra(s2, compra) ==> Measured(u)
  {
    MergeCompraSpec(s2, compra);
  }

  /** A month that only the purchases sheet knows reaches the cast with no year,
      and the script stops there. */
  lemma CompraOnlyMonthStops(s2: seq<Stage2>, compra: seq<LongRow>, c: LongRow)
    requires c in compra && c.anoMes !in Tables.KeySet(s2, Stage2Key)
    ensures CastAno(MergeCompra(s2, compra)).None?
  {
    var s3 := MergeCompra(s2, compra);
    MergeCompraSpec(s2, compra);
    Tables.KeySetMem(compra, LongKey);
    Tables.KeySetMem(s3, Stage3Key);
    Tables.KeySetMem(s2, Stage2Key);
    assert c.anoMes in Tables.KeySet(s3, Stage3Key);
    var u :| u in s3 && u.anoMes == c.anoMes;
    assert Stage3From(u, s2, compra);
    var i :| 0 <= i < |s3| && s3[i] == u;
    assert !AnosParse(s3);
  }

  // Lines 133-135: outer merge with annual production on the year -----------------

  datatype ProdRow = ProdRow(ano: int, producao: Option<real>)

  function CellsAno(c: Cells): Option<int> { c.ano }
  function CellsMonth(c: Cells): Option<string> { c.anoMes }
  function ProdKey(p: ProdRow): Option<int> { Some(p.ano) }

  function Fill4(j: Tables.Joined<Cells, ProdRow>): Cells {
    match j
    case Both(c, p) => c.(producao := Some(FillZero(p.producao)))
    case LeftOnly(c) => c.(producao := Some(0.0))
    case RightOnly(p) => Cells(None, Some(p.ano), None, None, None, None, None, None, Some(FillZero(p.producao)), NoPrices)
  }

  function MergeProducao(cs: seq<Cells>, prod: seq<ProdRow>): seq<Cells> {
    var js := Tables.OuterJoin(cs, prod, CellsAno, ProdKey);
    seq(|js|, i requires 0 <= i < |js| => Fill4(js[i]))
  }

  /** The merge keeps every year of either side and invents none. */
  lemma MergeProducaoKeys(cs: seq<Cells>, prod: seq<ProdRow>)
    ensures Tables.KeySet(MergeProducao(cs, prod), CellsAno) == Tables.KeySet(cs, CellsAno) + Tables.KeySet(prod, ProdKey)
  {
    var js := Tables.OuterJoin(cs, prod, CellsAno, ProdKey);
    Tables.OuterJoinKeys(cs, prod, CellsAno, ProdKey);
    Tables.KeySetMapped(js, MergeProducao(cs, prod), (j: Tables.Joined<Cells, ProdRow>) => Tables.JoinKey(j, CellsAno, ProdKey), CellsAno);
  }

  /** Every monthly row survives with only its production filled in. */
  lemma MergeProducaoKeepsMonths(cs: seq<Cells>, prod: seq<ProdRow>)
    ensures forall c :: c in cs ==> exists d :: d in MergeProducao(cs, prod) && d == c.(producao := d.producao)
  {
    var js := Tables.OuterJoin(cs, prod, CellsAno, ProdKey);
    var out := MergeProducao(cs, prod);
    Tables.OuterJoinKeepsRows(cs, prod, CellsAno, ProdKey);
    forall c | c in cs ensures exists d :: d in out && d == c.(producao := d.producao) {
      var j :| j in js && !j.RightOnly? && j.l == c;
      var k :| 0 <= k < |js| && js[k] == j;
      var d := out[k];
      assert d == Fill4(j);
      assert d == c.(producao := d.producao);
    }
  }

  /** Every production year appears with its zero-filled production. */
  lemma MergeProducaoKeepsYears(cs: seq<Cells>, prod: seq<ProdRow>)
    ensures forall p :: p in prod ==> exists d :: d in MergeProducao(cs, prod) && d.ano == Some(p.ano) && d.producao == Some(FillZero(p.producao))
  {
    var js := Tables.OuterJoin(cs, prod, CellsAno, ProdKey);
    var out := MergeProducao(cs, prod);
    Tables.OuterJoinKeepsRows(cs, prod, CellsAno, ProdKey);
    Tables.OuterJoinProvenance(cs, prod, CellsAno, ProdKey);
    forall p | p in prod ensures exists d :: d in out && d.ano == Some(p.ano) && d.producao == Some(FillZero(p.producao)) {
      var j :| j in js && !j.LeftOnly? && j.r == p;
      var k :| 0 <= k < |js| && js[k] == j;
      var d := out[k];
      assert d == Fill4(j);
      assert Tables.Provenance(j, cs, prod, CellsAno, ProdKey);
    }
  }

  /** Production is that of the row's year, or 0 for a year the production table
      does not know. */
  lemma MergeProducaoFill(cs: seq<Cells>, prod: seq<ProdRow>)
    ensures forall d :: d in MergeProducao(cs, prod) ==>
              ((exists p :: p in prod && Some(p.ano) == d.ano && d.producao == Some(FillZero(p.producao)))
               || ((forall p :: p in prod ==> Some(p.ano) != d.ano) && d.producao == Some(0.0)))
  {
    var js := Tables.OuterJoin(cs, prod, CellsAno, ProdKey);
    var out := MergeProducao(cs, prod);
    Tables.OuterJoinProvenance(cs, prod, CellsAno, ProdKey);
    forall d | d in out
      ensures (exists p :: p in prod && Some(p.ano) == d.ano && d.producao == Some(FillZero(p.producao)))
              || ((forall p :: p in prod ==> Some(p.ano) != d.ano) && d.producao == Some(0.0))
    {
      var k :| 0 <= k < |out| && out[k] == d;
      var j := js[k];
      assert d == Fill4(j);
      assert Tables.Provenance(j, cs, prod, CellsAno, ProdKey);
    }
  }

  lemma BalancedWithProducao(c: Cells, x: Option<real>)
    requires Balanced(c)
    ensures Balanced(c.(producao := x))
  {
  }

  /** The merge keeps the balance identity of every row. */
  lemma MergeProducaoBalanced(cs: seq<Cells>, prod: seq<ProdRow>)
    requires forall c :: c in cs ==> Balanced(c)
    ensures forall d :: d in MergeProducao(cs, prod) ==> Balanced(d)
  {
    var js := Tables.OuterJoin(cs, prod, CellsAno, ProdKey);
    var out := MergeProducao(cs, prod);
    Tables.OuterJoinProvenance(cs, prod, CellsAno, ProdKey);
    forall d | d in out ensures Balanced(d) {
      var k :| 0 <= k < |out| && out[k] == d;
      var j := js[k];
      assert Tables.Provenance(j, cs, prod, CellsAno, ProdKey);
      match j
      case Both(c, p) => BalancedWithProducao(c, Some(FillZero(p.producao)));
      case LeftOnly(c) => BalancedWithProducao(c, Some(0.0));
      case RightOnly(p) =>
    }
  }

  /** The merge adds no price. */
  lemma MergeProducaoNoPrices(cs: seq<Cells>, prod: seq<ProdRow>)
    requires forall c :: c in cs ==> c.prices == NoPrices
    ensures forall d :: d in MergeProducao(cs, prod) ==> d.prices == NoPrices
  {
    var js := Tables.OuterJoin(cs, prod, CellsAno, ProdKey);
    var out := MergeProducao(cs, prod);
    Tables.OuterJoinProvenance(cs, prod, CellsAno, ProdKey);
    forall d | d in out ensures d.prices == NoPrices {
      var k :| 0 <= k < |out| && out[k] == d;
      var j := js[k];
      assert d == Fill4(j);
      assert Tables.Provenance(j, cs, prod, CellsAno, ProdKey);
      if !j.RightOnly? {
        assert j.l in cs;
      }
    }
  }

  // Line 140: outer merge with the prices on the month key --------------------------

  function CellsPrices(x: real): Option<real> { Some(x) }
  function PriceKey(p: PriceRecord): Option<string> { p.anoMes }

  function Fill5(j: Tables.Joined<Cells, PriceRecord>): Cells {
    match j
    case Both(c, p) => c.(prices := p.prices.Map(CellsPrices))
    case LeftOnly(c) => c
    case RightOnly(p) => Cells(None, None, p.anoMes, None, None, None, None, None, None, p.prices.Map(CellsPrices))
  }

  function MergePrecos(cs: seq<Cells>, precos: seq<PriceRecord>): seq<Cells> {
    var js := Tables.OuterJoin(cs, precos, CellsMonth, PriceKey);
    seq(|js|, i requires 0 <= i < |js| => Fill5(js[i]))
  }

  /** The merge keeps every month key of either side and invents none. */
  lemma MergePrecosKeys(cs: seq<Cells>, precos: seq<PriceRecord>)
    ensures Tables.KeySet(MergePrecos(cs, precos), CellsMonth) == Tables.KeySet(cs, CellsMonth) + Tables.KeySet(precos, PriceKey)
  {
    var js := Tables.OuterJoin(cs, precos, CellsMonth, PriceKey);
    Tables.OuterJoinKeys(cs, precos, CellsMonth, PriceKey);
    Tables.KeySetMapped(js, MergePrecos(cs, precos), (j: Tables.Joined<Cells, PriceRecord>) => Tables.JoinKey(j, CellsMonth, PriceKey), CellsMonth);
  }

  /** Every row survives with only its prices filled in. */
  lemma MergePrecosKeepsMonths(cs: seq<Cells>, precos: seq<PriceRecord>)
    ensures forall c :: c in cs ==> exists d :: d in MergePrecos(cs, precos) && d == c.(prices := d.prices)
  {
    var js := Tables.OuterJoin(cs, precos, CellsMonth, PriceKey);
    var out := MergePrecos(cs, precos);
    Tables.OuterJoinKeepsRows(cs, precos, CellsMonth, PriceKey);
    forall c | c in cs ensures exists d :: d in out && d == c.(prices := d.prices) {
      var j :| j in js && !j.RightOnly? && j.l == c;
      var k :| 0 <= k < |js| && js[k] == j;
      var d := out[k];
      assert d == Fill5(j);
      assert d == c.(prices := d.prices);
    }
  }

  /** Every price row appears with its prices. */
  lemma MergePrecosKeepsPrices(cs: seq<Cells>, precos: seq<PriceRecord>)
    ensures forall p :: p in precos ==> exists d :: d in MergePrecos(cs, precos) && d.anoMes == p.anoMes && d.prices == p.prices.Map(CellsPrices)
  {
    var js := Tables.OuterJoin(cs, precos, CellsMonth, PriceKey);
    var out := MergePrecos(cs, precos);
    Tables.OuterJoinKeepsRows(cs, precos, CellsMonth, PriceKey);
    Tables.OuterJoinProvenance(cs, precos, CellsMonth, PriceKey);
    forall p | p in precos ensures exists d :: d in out && d.anoMes == p.anoMes && d.prices == p.prices.Map(CellsPrices) {
      var j :| j in js && !j.LeftOnly? && j.r == p;
      var k :| 0 <= k < |js| && js[k] == j;
      var d := out[k];
      assert d == Fill5(j);
      assert Tables.Provenance(j, cs, precos, CellsMonth, PriceKey);
    }
  }

  /** Prices are those of the row's month, or missing for a month the price sheet
      does not know; the balance identity is kept. */
  lemma MergePrecosFill(cs: seq<Cells>, precos: seq<PriceRecord>)
    ensures (forall c :: c in cs ==> c.prices == NoPrices) ==> forall d :: d in MergePrecos(cs, precos) ==>
              ((exists p :: p in precos && p.anoMes == d.anoMes && d.prices == p.prices.Map(CellsPrices))
               || ((forall p :: p in precos ==> p.anoMes != d.anoMes) && d.prices == NoPrices))
    ensures (forall c :: c in cs ==> Balanced(c)) ==> forall d :: d in MergePrecos(cs, precos) ==> Balanced(d)
  {
    var js := Tables.OuterJoin(cs, precos, CellsMonth, PriceKey);
    var out := MergePrecos(cs, precos);
    Tables.OuterJoinProvenance(cs, precos, CellsMonth, PriceKey);
    forall d | d in out
      ensures (forall c :: c in cs ==> c.prices == NoPrices) ==>
              (exists p :: p in precos && p.anoMes == d.anoMes && d.prices == p.prices.Map(CellsPrices))
              || ((forall p :: p in precos ==> p.anoMes != d.anoMes) && d.prices == NoPrices)
      ensures (forall c :: c in cs ==> Balanced(c)) ==> Balanced(d)
    {
      var k :| 0 <= k < |out| && out[k] == d;
      assert js[k] in js;
      Fill5Row(js[k], cs, precos);
      assert d == Fill5(js[k]);
    }
  }

  lemma Fill5Row(j: Tables.Joined<Cells, PriceRecord>, cs: seq<Cells>, precos: seq<PriceRecord>)
    requires Tables.Provenance(j, cs, precos, CellsMonth, PriceKey)
    ensures (forall c :: c in cs ==> c.prices == NoPrices) ==>
              (exists p :: p in precos && p.anoMes == Fill5(j).anoMes && Fill5(j).prices == p.prices.Map(CellsPrices))
              || ((forall p :: p in precos ==> p.anoMes != Fill5(j).anoMes) && Fill5(j).prices == NoPrices)
    ensures (forall c :: c in cs ==> Balanced(c)) ==> Balanced(Fill5(j))
  {
    if j.LeftOnly? {
      forall p | p in precos ensures p.anoMes != Fill5(j).anoMes {
        assert PriceKey(p) != CellsMonth(j.l);
      }
    }
  }

  // Lines 142-146: every remaining gap filled with 0 ------------------------------

  /** A row after the final `fillna(0)`: no cell is missing. A missing month
      name or key holds the placeholder "0" for the 0 that `fillna(0)` puts in a
      text column; a row whose key is that placeholder never reaches the file,
      because the date conversion of line 148 rejects it (`DatesParse`). */
  datatype Output = Output(mes: string, ano: int, anoMes: string,
                           estoque: real, exportacao: real, processamento: real,
                           compra: real, saldo: real, producao: real,
                           prices: Prices.PriceRow<real>)

  function FillAll(c: Cells): (o: Output)
    ensures c.anoMes.Some? ==> o.anoMes == c.anoMes.value
    ensures c.ano.Some? ==> o.ano == c.ano.value
    ensures forall s :: o.prices.Get(s) == FillZero(c.prices.Get(s))
    ensures Balanced(c) ==> o.saldo == o.estoque + o.compra - o.exportacao - o.processamento
  {
    Output(c.mes.GetOr("0"), c.ano.GetOr(0), c.anoMes.GetOr("0"),
           FillZero(c.estoque), FillZero(c.exportacao), FillZero(c.processamento),
           FillZero(c.compra), FillZero(c.saldo), FillZero(c.producao), c.prices.Map(FillZero))
  }

  // ---------------------------------------------------------------------------
  // The script body: `df_merged` rebound step by step
  // ---------------------------------------------------------------------------

  /** Every month key of the four monthly sheets is still a key after the years
      are cast. */
  lemma MonthlyKeysSurvive(est: seq<LongRow>, exp: seq<LongRow>, proc: seq<LongRow>, compra: seq<LongRow>, cs: seq<Cells>)
    requires CastAno(MergeCompra(MergeProcessamento(MergeExportacao(est, exp), proc), compra)) == Some(cs)
    ensures forall x :: x in est + exp + proc + compra ==> x.anoMes in Tables.KeySet(cs, CellsMonth)
  {
    var m1 := MergeExportacao(est, exp);
    var m2 := MergeProcessamento(m1, proc);
    var m3 := MergeCompra(m2, compra);
    MergeExportacaoKeys(est, exp);
    MergeProcessamentoSpec(m1, proc);
    MergeCompraSpec(m2, compra);
    Tables.KeySetMapped(m3, cs, Stage3Key, CellsMonth);
    Tables.KeySetMem(est, LongKey);
    Tables.KeySetMem(exp, LongKey);
    Tables.KeySetMem(proc, LongKey);
    Tables.KeySetMem(compra, LongKey);
    forall x | x in est + exp + proc + compra ensures x.anoMes in Tables.KeySet(cs, CellsMonth) {
      assert x in est || x in exp || x in proc || x in compra;
    }
  }

  /** The production merge loses no month key. */
  lemma ProducaoKeepsMonthKeys(cs: seq<Cells>, prod: seq<ProdRow>)
    ensures Tables.KeySet(cs, CellsMonth) <= Tables.KeySet(MergeProducao(cs, prod), CellsMonth)
  {
    MergeProducaoKeepsMonths(cs, prod);
    Tables.KeySetMem(cs, CellsMonth);
    Tables.KeySetMem(MergeProducao(cs, prod), CellsMonth);
    forall k | k in Tables.KeySet(cs, CellsMonth) ensures k in Tables.KeySet(MergeProducao(cs, prod), CellsMonth) {
      var c :| c in cs && c.anoMes == k;
      var d :| d in MergeProducao(cs, prod) && d == c.(producao := d.producao);
      assert CellsMonth(d) == k;
    }
  }

  /** The price merge loses no year and keeps each production value. */
  lemma PrecosKeepProducao(cs: seq<Cells>, precos: seq<PriceRecord>, p: ProdRow)
    requires exists c :: c in cs && c.ano == Some(p.ano) && c.producao == Some(FillZero(p.producao))
    ensures exists d :: d in MergePrecos(cs, precos) && d.ano == Some(p.ano) && d.producao == Some(FillZero(p.producao))
  {
    MergePrecosKeepsMonths(cs, precos);
    var c :| c in cs && c.ano == Some(p.ano) && c.producao == Some(FillZero(p.producao));
    var d :| d in MergePrecos(cs, precos) && d == c.(prices := d.prices);
  }

  /** Line 148: `pd.to_datetime(df_merged["ano_mes"], format="%Y-%m")` accepts the
      column only when no row had its key filled with 0 by `fillna(0)`, that is
      when every row of the last merge has a month key. */
  predicate DatesParse(m5: seq<Cells>) {
    forall d :: d in m5 ==> d.anoMes.Some?
  }

  /** A row without a month key before the last two merges stops the script at
      the date conversion: an unknown month abbreviation in a monthly sheet
      produces one. */
  lemma MissingMonthStops(cs: seq<Cells>, prod: seq<ProdRow>, precos: seq<PriceRecord>)
    requires exists c :: c in cs && c.anoMes.None?
    ensures !DatesParse(MergePrecos(MergeProducao(cs, prod), precos))
  {
    var m4 := MergeProducao(cs, prod);
    var m5 := MergePrecos(m4, precos);
    var c :| c in cs && c.anoMes.None?;
    Tables.KeySetMem(cs, CellsMonth);
    assert CellsMonth(c) == None;
    ProducaoKeepsMonthKeys(cs, prod);
    MergePrecosKeys(m4, precos);
    Tables.KeySetMem(m5, CellsMonth);
    assert None in Tables.KeySet(m5, CellsMonth);
    var d :| d in m5 && CellsMonth(d) == None;
  }

  /** A production year that no monthly row has enters the production merge as a
      row of its own with no month key, so the script stops at the date
      conversion. */
  lemma ProductionOnlyYearStops(cs: seq<Cells>, prod: seq<ProdRow>, precos: seq<PriceRecord>, p: ProdRow)
    requires p in prod && forall c :: c in cs ==> c.ano != Some(p.ano)
    ensures !DatesParse(MergePrecos(MergeProducao(cs, prod), precos))
  {
    var js := Tables.OuterJoin(cs, prod, CellsAno, ProdKey);
    var m4 := MergeProducao(cs, prod);
    Tables.OuterJoinKeepsRows(cs, prod, CellsAno, ProdKey);
    Tables.OuterJoinProvenance(cs, prod, CellsAno, ProdKey);
    var j :| j in js && !j.LeftOnly? && j.r == p;
    assert Tables.Provenance(j, cs, prod, CellsAno, ProdKey);
    if j.Both? {
      assert false;
    }
    var k :| 0 <= k < |js| && js[k] == j;
    assert m4[k] == Fill4(j);
    assert m4[k] in m4 && m4[k].anoMes.None?;
    MergePrecosKeepsMonths(m4, precos);
    var d :| d in MergePrecos(m4, precos) && d == m4[k].(prices := d.prices);
    assert d.anoMes.None?;
  }

  /** Lines 142-146 over a whole table. */
  function FillAllRows(cs: seq<Cells>): (os: seq<Output>)
    ensures |os| == |cs| && forall i :: 0 <= i < |cs| ==> os[i] == FillAll(cs[i])
  {
    seq(|cs|, i requires 0 <= i < |cs| => FillAll(cs[i]))
  }

  /** The last two merges and the fill keep the balance identity of every row. */
  lemma LastStepsBalanced(cs: seq<Cells>, prod: seq<ProdRow>, precos: seq<PriceRecord>)
    requires forall c :: c in cs ==> Balanced(c)
    ensures forall o :: o in FillAllRows(MergePrecos(MergeProducao(cs, prod), precos)) ==>
              o.saldo == o.estoque + o.compra - o.exportacao - o.processamento
  {
    var m4 := MergeProducao(cs, prod);
    var m5 := MergePrecos(m4, precos);
    MergeProducaoBalanced(cs, prod);
    MergePrecosFill(m4, precos);
    forall o | o in FillAllRows(m5) ensures o.saldo == o.estoque + o.compra - o.exportacao - o.processamento {
      var i :| 0 <= i < |m5| && FillAllRows(m5)[i] == o;
      assert Balanced(m5[i]);
    }
  }

  /** The last two merges and the fill lose no month key. */
  lemma LastStepsKeepMonths(cs: seq<Cells>, prod: seq<ProdRow>, precos: seq<PriceRecord>, k: Option<string>)
    requires k in Tables.KeySet(cs, CellsMonth)
    ensures exists o :: o in FillAllRows(MergePrecos(MergeProducao(cs, prod), precos)) && o.anoMes == k.GetOr("0")
  {
    var m4 := MergeProducao(cs, prod);
    var m5 := MergePrecos(m4, precos);
    ProducaoKeepsMonthKeys(cs, prod);
    MergePrecosKeys(m4, precos);
    Tables.KeySetMem(m5, CellsMonth);
    var d :| d in m5 && d.anoMes == k;
    var i :| 0 <= i < |m5| && m5[i] == d;
    assert FillAllRows(m5)[i].anoMes == k.GetOr("0");
  }

  /** Every price row reaches the saved table with its prices. */
  lemma LastStepsKeepPrices(cs: seq<Cells>, prod: seq<ProdRow>, precos: seq<PriceRecord>, p: PriceRecord)
    requires p in precos
    ensures exists o :: o in FillAllRows(MergePrecos(MergeProducao(cs, prod), precos)) && o.anoMes == p.anoMes.GetOr("0") && o.prices == p.prices
  {
    var m4 := MergeProducao(cs, prod);
    var m5 := MergePrecos(m4, precos);
    MergePrecosKeepsPrices(m4, precos);
    var d :| d in m5 && d.anoMes == p.anoMes && d.prices == p.prices.Map(CellsPrices);
    var i :| 0 <= i < |m5| && m5[i] == d;
    assert FillAllRows(m5)[i].prices == p.prices;
  }

  /** Every production year reaches the saved table with its production. */
  lemma LastStepsKeepProducao(cs: seq<Cells>, prod: seq<ProdRow>, precos: seq<PriceRecord>, p: ProdRow)
    requires p in prod
    ensures exists o :: o in FillAllRows(MergePrecos(MergeProducao(cs, prod), precos)) && o.ano == p.ano && o.producao == FillZero(p.producao)
  {
    var m4 := MergeProducao(cs, prod);
    var m5 := MergePrecos(m4, precos);
    MergeProducaoKeepsYears(cs, prod);
    PrecosKeepProducao(m4, precos, p);
    var d :| d in m5 && d.ano == Some(p.ano) && d.producao == Some(FillZero(p.producao));
    var i :| 0 <= i < |m5| && m5[i] == d;
    assert FillAllRows(m5)[i].ano == p.ano;
  }

  /** Lines 93-150. The result is None exactly where the script stops before
      writing the file: at `astype(int)` on a row of the third merge with no year,
      which is what a month known only to the purchases sheet produces, or at the
      date conversion of line 148 on a row of the last merge with no month key,
      which is what an unknown month abbreviation or a production year without
      monthly rows produces. Otherwise no cell is missing, every row satisfies
      the balance identity, every month key of the monthly sheets and of the
      price sheet is present, every price row appears with its prices and every
      production year with its production. */
  method BuildSoja(est: seq<LongRow>, exp: seq<LongRow>, proc: seq<LongRow>, compra: seq<LongRow>,
                   prod: seq<ProdRow>, precos: seq<PriceRecord>) returns (out: Option<seq<Output>>)
    ensures var m3 := MergeCompra(MergeProcessamento(MergeExportacao(est, exp), proc), compra);
            out.Some? <==> AnosParse(m3) && DatesParse(MergePrecos(MergeProducao(CastAno(m3).value, prod), precos))
    ensures (exists c :: c in compra && c.anoMes !in Tables.KeySet(est, LongKey) + Tables.KeySet(exp, LongKey) + Tables.KeySet(proc, LongKey))
            ==> out.None?
    ensures (exists x :: x in est + exp + proc + compra && x.anoMes.None?) ==> out.None?
    ensures var m3 := MergeCompra(MergeProcessamento(MergeExportacao(est, exp), proc), compra);
            AnosParse(m3) && (exists p :: p in prod && forall c :: c in CastAno(m3).value ==> c.ano != Some(p.ano))
            ==> out.None?
    ensures out.Some? ==> forall o :: o in out.value ==> o.saldo == o.estoque + o.compra - o.exportacao - o.processamento
    ensures out.Some? ==> forall x :: x in est + exp + proc + compra ==> exists o :: o in out.value && Some(o.anoMes) == x.anoMes
    ensures out.Some? ==> forall p :: p in precos ==>
              exists o :: o in out.value && o.anoMes == p.anoMes.GetOr("0") && o.prices == p.prices
    ensures out.Some? ==> forall p :: p in prod ==> exists o :: o in out.value && o.ano == p.ano && o.producao == FillZero(p.producao)
  {
    var merged := MergeExportacao(est, exp);
    MergeExportacaoKeys(est, exp);
    var merged2 := MergeProcessamento(merged, proc);
    MergeProcessamentoSpec(merged, proc);
    var merged3 := MergeCompra(merged2, compra);
    if c :| c in compra && c.anoMes !in Tables.KeySet(est, LongKey) + Tables.KeySet(exp, LongKey) + Tables.KeySet(proc, LongKey) {
      CompraOnlyMonthStops(merged2, compra, c);
    }
    var typed := CastAno(merged3);
    if typed.None? {
      return None;
    }
    var cs := typed.value;
    MergeCompraMeasured(merged2, compra);
    CastAnoBalanced(merged3);
    MonthlyKeysSurvive(est, exp, proc, compra, cs);
    var merged4 := MergeProducao(cs, prod);
    var merged5 := MergePrecos(merged4, precos);
    if x :| x in est + exp + proc + compra && x.anoMes.None? {
      Tables.KeySetMem(cs, CellsMonth);
      var c :| c in cs && CellsMonth(c) == x.anoMes;
      MissingMonthStops(cs, prod, precos);
    }
    if p :| p in prod && forall c :: c in cs ==> c.ano != Some(p.ano) {
      ProductionOnlyYearStops(cs, prod, precos, p);
    }
    if !DatesParse(merged5) {
      return None;
    }
    out := Some(FillAllRows(merged5));
    LastStepsBalanced(cs, prod, precos);
    forall x | x in est + exp + proc + compra ensures exists o :: o in out.value && Some(o.anoMes) == x.anoMes {
      LastStepsKeepMonths(cs, prod, precos, x.anoMes);
    }
    forall p | p in precos ensures exists o :: o in out.value && o.anoMes == p.anoMes.GetOr("0") && o.prices == p.prices {
      LastStepsKeepPrices(cs, prod, precos, p);
    }
    forall p | p in prod ensures exists o :: o in out.value && o.ano == p.ano && o.producao == FillZero(p.producao) {
      LastStepsKeepProducao(cs, prod, precos, p);
    }
  }
}
