/** The six soybean price series offered in every price drop-down, the
    `tabela_preco` dictionary from drop-down label to column name, and a row
    holding one value per series. */
module Prices {
  import opened Wrappers

  datatype PriceSeries = Chicago | FobParanagua | Maringa | Mogiana | PassoFundo | Rondonopolis
  {
    /** The text shown in the drop-down. */
    function Label(): string {
      match this
      case Chicago => "Chicago - CBOT (US$/t)"
      case FobParanagua => "FOB Porto - Paranaguá (US$/t)"
      case Maringa => "Maringá / PR - R$/saca (sem ICMS)"
      case Mogiana => "Mogiana / SP - R$/saca (sem ICMS)"
      case PassoFundo => "Passo Fundo / RS - R$/saca (sem ICMS)"
      case Rondonopolis => "Rondonopolis / MT - R$/saca (sem ICMS)"
    }

    /** The column of the monthly table that holds the series. */
    function Column(): string {
      match this
      case Chicago => "chicago_cbot_u$/t"
      case FobParanagua => "fob_porto_paranagua_u$/t"
      case Maringa => "maringa_r$/saca"
      case Mogiana => "mogiana_r$/saca"
      case PassoFundo => "passofundo_r$/saca"
      case Rondonopolis => "rondonopolis_r$/saca"
    }
  }

  /** The drop-down options, in display order. */
  const Options: seq<PriceSeries> := [Chicago, FobParanagua, Maringa, Mogiana, PassoFundo, Rondonopolis]

  /** Every drop-down opens on `index=5`. */
  const DefaultIndex: nat := 5

  /** The `tabela_preco` dictionary written out in every section. */
  const PriceTable: map<string, string> := map[
    "Chicago - CBOT (US$/t)" := "chicago_cbot_u$/t",
    "FOB Porto - Paranaguá (US$/t)" := "fob_porto_paranagua_u$/t",
    "Maringá / PR - R$/saca (sem ICMS)" := "maringa_r$/saca",
    "Mogiana / SP - R$/saca (sem ICMS)" := "mogiana_r$/saca",
    "Passo Fundo / RS - R$/saca (sem ICMS)" := "passofundo_r$/saca",
    "Rondonopolis / MT - R$/saca (sem ICMS)" := "rondonopolis_r$/saca"
  ]

  /** `tabela_preco[text]`; None stands for the KeyError raised on an unknown label. */
  function SelectColumn(text: string): (r: Option<string>)
    ensures r.Some? <==> exists s: PriceSeries :: s.Label() == text
    ensures r.Some? ==> exists s: PriceSeries :: s.Label() == text && s.Column() == r.value
  {
    if text in PriceTable then
      var s := SeriesOfLabel(text);
      Some(PriceTable[text])
    else
      assert forall s: PriceSeries :: s.Label() in PriceTable;
      None
  }

  function SeriesOfLabel(text: string): (s: PriceSeries)
    requires text in PriceTable
    ensures s.Label() == text && s.Column() == PriceTable[text]
  {
    if text == Chicago.Label() then Chicago
    else if text == FobParanagua.Label() then FobParanagua
    else if text == Maringa.Label() then Maringa
    else if text == Mogiana.Label() then Mogiana
    else if text == PassoFundo.Label() then PassoFundo
    else Rondonopolis
  }

  /** The table is exactly the text/column pairs of the six series. */
  lemma PriceTableIsSeriesTable()
    ensures |PriceTable| == 6
    ensures forall s: PriceSeries :: s.Label() in PriceTable && PriceTable[s.Label()] == s.Column()
    ensures forall text :: text in PriceTable ==> exists s: PriceSeries :: s.Label() == text
  {
    forall text | text in PriceTable
      ensures exists s: PriceSeries :: s.Label() == text
    {
      var s := SeriesOfLabel(text);
    }
  }

  /** Distinct series have distinct labels and distinct columns, so the table is
      a bijection between the six labels and six column names. */
  lemma SeriesDistinct(s: PriceSeries, t: PriceSeries)
    requires s != t
    ensures s.Label() != t.Label() && s.Column() != t.Column()
  {
  }

  /** Every option of the drop-down selects a column: the lookup never fails on
      a value the widget can return. */
  lemma OptionsSelectTheirColumn(i: nat)
    requires i < |Options|
    ensures SelectColumn(Options[i].Label()) == Some(Options[i].Column())
  {
    var s := Options[i];
    var text := s.Label();
    assert text in PriceTable;
    var t := SeriesOfLabel(text);
    if t != s {
      SeriesDistinct(t, s);
    }
  }

  /** The default selection is Rondonópolis. */
  lemma DefaultIsRondonopolis()
    ensures DefaultIndex < |Options| && Options[DefaultIndex] == Rondonopolis
  {
  }

  /** One value per series, as in the six price columns of a monthly row. */
  datatype PriceRow<T> = PriceRow(chicago: T, fob: T, maringa: T, mogiana: T, passoFundo: T, rondonopolis: T)
  {
    /** `row[coluna_preco]` for the column of the given series. */
    function Get(s: PriceSeries): T {
      match s
      case Chicago => chicago
      case FobParanagua => fob
      case Maringa => maringa
      case Mogiana => mogiana
      case PassoFundo => passoFundo
      case Rondonopolis => rondonopolis
    }

    function Map<U>(f: T -> U): (r: PriceRow<U>)
      ensures forall s :: r.Get(s) == f(Get(s))
    {
      PriceRow(f(chicago), f(fob), f(maringa), f(mogiana), f(passoFundo), f(rondonopolis))
    }
  }
}
