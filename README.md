# SojaMetrics core in Dafny

SojaMetrics is a Streamlit dashboard about the Brazilian soybean complex. It has three parts:

- **ETL scripts.** `tratar_dados.py` and `tratamento_dados.py` turn CONAB/ABIOVE spreadsheets, price series and a daily dollar series into two tables: a monthly one (`soja_mensal`) and an annual one (`soja_anual`).
- **Dashboards.** Two pages (`1_dash.py`, `sojametrics.py`) filter those tables by a year range. They show KPI cards with a year-over-year change, draw rolling 12-month trends, annotate the yearly dollar change, and label correlations.
- **Forecast page.** `pages/2_forecast.py` prepares a training frame, evaluates a fitted line at a chosen dollar rate and reports a ±1.5·sd band.

This project models the computations under the widgets and charts. It works on sequences of typed records: `int` years and months, `(year, month, day)` dates, exact `real` values and `Option` for a missing cell. It proves what those computations promise:

- which rows survive a filter;
- which keys an outer join keeps;
- which quote a "last" or "nearest" selection picks;
- how a rolling window or a `diff` relates to its input;
- what format the keys and labels have.

Modules:

| file | module | covers |
|---|---|---|
| wrappers.dfy | Wrappers | `Option` |
| text.dfy | Text | decimal rendering and parsing, `capitalize`, the `,`/`.` separator swap, thousands grouping, `split` |
| dates.dfy | Dates | calendar dates, month offsets (`DateOffset(months=n)`), `"%Y-%m"` rendering |
| series.dfy | Series | column sums, `rolling(12, min_periods=1)`, `diff().fillna(0)` |
| tables.dfy | Tables | the year filter, `sort_values`, `groupby().last()`, argmin/argmax, `merge(how="outer"/"left")` |
| prices.dfy | Prices | the six price series, their labels and their column names |
| kpi.dfy | Kpi | YoY percentage, sparkline colour, correlation label, KPI card lookups, `pct_change` annotations |
| dash.dfy | Dash | the page `1_dash.py` |
| sojametrics.dfy | SojaMetrics | the page `sojametrics.py` |
| forecast.dfy | Forecast | `pages/2_forecast.py` |
| tratar_dados.dfy | TratarDados | `tratar_dados.py` |
| tratamento_dados.dfy | TratamentoDados | `tratamento_dados.py` |

One loop of the source is a method with loop invariants: the annotation loop of the yearly dollar chart (`Kpi.AnnotateFrom`, driven by `Kpi.YearlyAnnotations`). The step-by-step scripts are methods without loops (`TratarDados.BuildSoja`, `TratamentoDados.SojaMensal`, `TratamentoDados.StockBalance`, `Forecast.PrepareTraining`): they rebind a local frame one statement at a time, as the scripts do, and return None where the script raises.

The pages add columns to a filtered copy, and the model returns that copy as a new value.

## Behaviour worth noting

- **Seasonal weights.** The monthly production weights sum to 1.15, not 1. A full year of spread production therefore totals 1.15 times the annual figure (`TratamentoDados.WeightsSum`, `TratamentoDados.SpreadYearTotal`).
- **Previous year.** The KPI "previous year" is the latest year minus one, not the second-latest year present. When that year is missing, the lookup fails (`Kpi.PreviousYearIsYearMinusOne`).
- **Monthly merge on `sojametrics.py`.** Prices are outer-merged with the dollar series on the month of each quote. With daily quotes, each month appears once per quote, not once (`SojaMetrics.MergeRepeatsMonthPerQuote`). Months appear once only when both sides have one row per month (`SojaMetrics.MergeOncePerMonth`).
- **Previous-year dollar close.** The FX KPI takes the previous year's close from the last row of that year in file order, not in date order (`SojaMetrics.FxKpiOutOfOrderExample`). On a date-sorted file the two agree (`SojaMetrics.FxKpiOnSortedQuotes`).
- **Production years without months.** In `tratar_dados.py`, a production year with no monthly row gets a row with no `ano_mes`; `fillna(0)` turns that key into 0, and the date conversion of line 148 then stops the script before the file is written (`TratarDados.ProductionOnlyYearStops`). An unknown month abbreviation does the same (`TratarDados.MissingMonthStops`).
- **Correlation label.** The label for a zero (or NaN) correlation is "Negativa" (`Kpi.CorrelationZeroIsNegativa`).

## Model

| member | source | states |
|---|---|---|
| Text.NatToString | tratar_dados.py:18 | the decimal text of a natural number is all digits, with no leading zero above 9 |
| Text.ParseIntToString | tratar_dados.py:77 | `int(str(n)) == n` for every integer: parsing inverts rendering |
| Text.DigitsValueOfNat | tratar_dados.py:79 | the digits of `str(n)` read back as n |
| Text.NatToStringLength4 | tratar_dados.py:79 | a four-digit year renders in exactly 4 characters |
| Text.TwoDigits | tratar_dados.py:4-7 | a month number renders as exactly two decimal digits |
| Text.TwoDigitsInjective | tratar_dados.py:4-7 | distinct month numbers render differently |
| Text.ParseInt | tratar_dados.py:77 | a parse of text without a minus sign is non-negative; None is the ValueError on text that is not an optional minus followed by digits |
| Text.Capitalize | tratar_dados.py:76 | `str.capitalize` keeps the length, upper-cases the first letter and lower-cases every other one |
| Text.CapitalizeIgnoresCase | tratar_dados.py:76 | two period names that differ only in letter case give the same month name |
| Text.CapitalizeIdempotent | tratar_dados.py:76 | capitalizing twice is capitalizing once |
| Text.SwapSeparatorsPointwise | pages/2_forecast.py:134 | without 'X' in the input, the three replaces turn every ',' into '.' and every '.' into ',' and keep everything else |
| Text.SwapSeparatorsInvolution | pages/2_forecast.py:134 | without 'X', swapping twice gives back the input |
| Text.SwapSeparatorsEatsPlaceholder | pages/2_forecast.py:134 | an 'X' already in the input comes out as '.', so the placeholder assumption matters |
| Text.GroupThousands | pages/2_forecast.py:134 | grouping digits yields only digits and ',' and is non-empty for a non-empty input |
| Text.GroupThousandsGroups | pages/2_forecast.py:134 | the ',' separators stand exactly at every fourth position from the right, so every group after the first holds three digits |
| Text.CommaPositionsAppend | pages/2_forecast.py:134 | a group of three digits appended after a ',' keeps the separators every fourth position from the right |
| Text.RemoveCommas | pages/2_forecast.py:134 | removing separators leaves no ',' and no longer text |
| Text.RemoveCommasAppend | pages/2_forecast.py:134 | removing separators distributes over concatenation |
| Text.RemoveCommasOfDigits | pages/2_forecast.py:134 | digits without separators are unchanged |
| Text.RemoveCommasGroupThousands | pages/2_forecast.py:134 | removing the separators of a grouped number gives back its digits |
| Text.FormatCents | pages/2_forecast.py:134 | `f"{x:,.2f}"` has exactly one '.', followed by two digits, and no 'X' |
| Text.DigitsValueTwoDigits | pages/2_forecast.py:134 | the two cent digits read back as the cents |
| Text.FormatCentsValue | pages/2_forecast.py:134 | `f"{x:,.2f}"` reads back as x: a '-' exactly for a negative amount, the whole units (separators removed) and the two cent digits of its absolute value |
| Text.ReadBack | pages/2_forecast.py:134 | a sign, the grouped digits of q, '.' and the two digits of m read back as q units and m cents |
| Text.BrazilianFormat | pages/2_forecast.py:134 | after the swap, the number has exactly one ',', followed by the two decimal digits |
| Text.BrazilianFormatValue | pages/2_forecast.py:134 | swapping the separators twice gives the same reading of the amount |
| Text.Split | pages/2_forecast.py:137 | `split(sep)` gives at least one part, and no part contains sep |
| Text.JoinSplit | pages/2_forecast.py:137 | joining the parts of a split with the separator gives back the text |
| Text.SplitWithoutSeparator | pages/2_forecast.py:137 | text without the separator splits into itself alone |
| Text.SplitAtOnlySeparator | pages/2_forecast.py:137 | text with exactly one separator splits into the text before it and the text after it |
| Dates.DaysInMonth | pages/2_forecast.py:126 | every calendar month has 28 to 31 days |
| Dates.AddMonths | pages/2_forecast.py:126 | adding n months moves the month index by exactly n and keeps the day, clamped to the target month's length |
| Dates.FirstOfMonth | pages/2_forecast.py:59 | re-keying to the period start gives day 1 of the same month |
| Dates.StampInjective | tratamento_dados.py:136 | the chronological stamp of valid dates is injective |
| Dates.StampOrdersMonths | tratamento_dados.py:136 | a date in an earlier month sorts before any date of a later month |
| Dates.AddMonthsLater | pages/2_forecast.py:126 | a forecast at least one month ahead is strictly later than the last period |
| Dates.AddMonthsRoundTrip | pages/2_forecast.py:145 | going forward n months and back n months returns the date, for days up to 28 (every period start) |
| Dates.AddMonthsClampsAtMonthEnd | pages/2_forecast.py:145 | a month-end date does not survive the round trip: 31 Jan + 1 month − 1 month is 28 Jan |
| Dates.YearMonthText | pages/2_forecast.py:131 | `strftime("%Y-%m")` has length 7 with '-' at position 4 |
| Dates.YearMonthTextInjective | pages/2_forecast.py:131 | distinct months render as distinct texts |
| Series.SumConcat | 1_dash.py:867 | the sum of two concatenated columns is the sum of their sums |
| Series.SumScale | tratamento_dados.py:124 | a constant factor comes out of a column sum |
| Series.RollingSum | 1_dash.py:867 | the rolling 12 sum has the same length as its input |
| Series.RollingMean | 1_dash.py:705-706 | the rolling 12 mean has the same length as its input |
| Series.RollingSumByPrefix | 1_dash.py:1018 | rolling sum i is the prefix sum up to i minus the prefix sum before the window start max(0, i−11) |
| Series.RollingSumStep | 1_dash.py:1210 | each rolling sum is the previous one plus the new input, minus the input that leaves the 12-month window |
| Series.RollingFirst | 1_dash.py:705-706 | with min_periods=1, the first rolling sum and the first rolling mean equal the first input |
| Series.RollingMeanFull | 1_dash.py:705-706 | from output 11 on, the window holds exactly the last 12 inputs and the mean is their sum over 12 |
| Series.RollingMeanTimesCount | 1_dash.py:706 | the rolling mean times the window size is the rolling sum |
| Series.RollingMeanBounded | 1_dash.py:705-706 | the rolling mean lies between any bounds of the inputs in its window |
| Series.DiffFillZero | sojametrics.py:842-843 | `diff().fillna(0)` keeps the length |
| Series.DiffTelescopes | sojametrics.py:842-843 | the first level plus the balances up to k is level k |
| Series.DiffTotal | sojametrics.py:842-843 | the balances sum to last level minus first level |
| Tables.FilterYears | 1_dash.py:125-126 | the year filter keeps exactly the rows with lo ≤ year ≤ hi |
| Tables.FilterConcat | 1_dash.py:369 | filtering distributes over concatenation, so the kept rows stay in input order |
| Tables.FilterKeepsAll | 1_dash.py:691 | when every row is in range, the filter returns the frame unchanged |
| Tables.FilterTwice | sojametrics.py:100-102 | two successive year filters are one filter by the intersection of the ranges |
| Tables.FilterWiderIsNoOp | sojametrics.py:51-53 | re-filtering by a wider range changes nothing |
| Tables.RowsOfYear | 1_dash.py:143-144 | `df[df.periodo == y]` keeps exactly the rows of year y |
| Tables.MaxOf | 1_dash.py:137 | `max()` of a key is attained by some row and bounds every row; it is None exactly on an empty frame |
| Tables.FirstMinIndex | tratamento_dados.py:139 | `argmin` returns the first index of a minimal key |
| Tables.LastMaxIndex | sojametrics.py:208 | the returned index has the maximal key, and no later row reaches it |
| Tables.Insert | 1_dash.py:208 | inserting into a sorted frame keeps it sorted and adds exactly that row |
| Tables.SortBy | 1_dash.py:208 | `sort_values` returns a sorted permutation of the rows |
| Tables.SortedLastIsMax | 1_dash.py:208 | after sorting, the last row has the largest key and is an input row |
| Tables.Dedup | 1_dash.py:401 | removing repeats from a sorted key column gives the same keys, strictly increasing |
| Tables.GroupKeys | 1_dash.py:401 | `groupby` keys are strictly increasing and are exactly the keys present |
| Tables.LastIndexOf | 1_dash.py:401 | the position found holds key k, and no later row holds k |
| Tables.FirstIndexOf | 1_dash.py:163 | the position found holds key k, and no earlier row holds k |
| Tables.GroupLast | 1_dash.py:401 | `groupby(key).last()` has one row per key, in increasing key order |
| Tables.GroupLastIsLast | 1_dash.py:401 | each group row is an input row with no later row of the same key |
| Tables.GroupLastCoversKeys | 1_dash.py:401 | every key present in the input has a group row |
| Tables.GroupLastOfSortedIsLatest | tratamento_dados.py:41-42 | on input sorted by date, each group's last row is its latest |
| Tables.LastOfSorted | tratamento_dados.py:41-42 | in a sorted frame, a row with no later row of its group is the latest of that group |
| Tables.KeySetConcat | tratar_dados.py:93 | the keys of two concatenated frames are the union of their keys |
| Tables.KeySetMapped | tratar_dados.py:95-97 | rewriting the rows of a frame while keeping each key keeps the key set |
| Tables.KeySetMem | tratar_dados.py:93 | a key is in a frame's key set exactly when some row carries it |
| Tables.MatchesOf | tratar_dados.py:93 | the right rows matching a key are exactly the right rows with that key |
| Tables.Unmatched | tratar_dados.py:93 | the unmatched right rows are exactly those whose key no left row has |
| Tables.LeftJoin | pages/2_forecast.py:62 | a left join produces no right-only rows |
| Tables.LeftJoinLookup | pages/2_forecast.py:62 | against a right side with distinct keys, a left join has one row per left row, in order, paired exactly when a right row shares its key |
| Tables.OuterJoinKeys | tratar_dados.py:93 | an outer join keeps every key of either side and adds none |
| Tables.OuterJoinProvenance | tratar_dados.py:93 | every joined row comes from the inputs: a left row, a right row, or a left and right row sharing a key |
| Tables.OuterJoinUnique | sojametrics.py:486 | with distinct keys on both sides, each key appears exactly once in the outer join |
| Tables.OuterJoinKeepsRows | tratar_dados.py:93 | every left row and every right row appears in the outer join |
| Tables.OuterJoinPairs | tratar_dados.py:93 | every left and right pair with equal keys appears as a matched row |
| Tables.OuterJoinLeftRow | tratar_dados.py:93 | each left row appears at some position of the outer join, with its provenance |
| Tables.OuterJoinRightRow | tratar_dados.py:93 | each right row appears at some position of the outer join, with its provenance |
| Prices.SelectColumn | pages/2_forecast.py:90-97 | a label selects a column exactly when it is one of the six labels, and then it selects that series' column |
| Prices.SeriesOfLabel | pages/2_forecast.py:90-97 | each key of the label→column table is the label of a series whose column it maps to |
| Prices.PriceTableIsSeriesTable | pages/2_forecast.py:90-97 | the table has exactly the six labels, each mapped to its series' column |
| Prices.SeriesDistinct | pages/2_forecast.py:90-97 | distinct series have distinct labels and distinct columns |
| Prices.OptionsSelectTheirColumn | pages/2_forecast.py:84-88 | every drop-down option selects its own column |
| Prices.DefaultIsRondonopolis | 1_dash.py:113-121 | the default option (index 5) is Rondonópolis |
| Prices.PriceRow.Map | tratar_dados.py:74 | filling a price row applies the fill to each of the six prices |
| Kpi.YoY | 1_dash.py:168 | YoY times the previous value is (current − previous)·100; for previous 0 it is +inf, −inf or NaN by the sign of current, as numpy gives |
| Kpi.YoYRoundTrip | 1_dash.py:184 | prev + prev·YoY/100 gives back the current value |
| Kpi.YoYPositiveIff | 1_dash.py:212 | the change is positive iff the value rose (for a positive base), fell (for a negative base), or is positive (for a zero base) |
| Kpi.YoYZeroIffEqual | 1_dash.py:236 | with a non-zero base, the change is 0 iff the value is unchanged |
| Kpi.SparklineTrend | 1_dash.py:16-21 | the sparkline is green (Rising) iff last ≥ first; an empty column draws none |
| Kpi.SparklineReversed | 1_dash.py:16-21 | reversing a column whose ends differ flips the colour |
| Kpi.SparklineShift | 1_dash.py:16-21 | adding a constant to a column keeps the colour |
| Kpi.SparklineFlatIsRising | sojametrics.py:13-18 | a flat column is green |
| Kpi.CorrelationLabel | 1_dash.py:640 | the label is "Positiva" iff r > 0, and "Negativa" otherwise |
| Kpi.CorrelationZeroIsNegativa | 1_dash.py:841 | r = 0 and NaN are labelled "Negativa" |
| Kpi.RowOfYear | 1_dash.py:143-144 | `.iloc[0]` gives the first row of year y in frame order and `.iloc[-1]` the last; it fails (None) exactly when no row has year y |
| Kpi.AnnualKpi | 1_dash.py:180-184 | a card exists iff years y and y−1 both exist; current and previous are the column's value in the row `.iloc[0]` (initial stock) or `.iloc[-1]` (every other column) reads for each year, and the change is their YoY |
| Kpi.SaldoKpi | 1_dash.py:163-168 | the saldo card exists iff years y and y−1 exist; each value is the final stock of its year's last row minus the initial stock of its first row, and the change is their YoY |
| Kpi.RowOfYearUnique | 1_dash.py:143-144 | with one row per year, the lookup returns that row |
| Kpi.SaldoKpiIsSaldoColumn | 1_dash.py:164-167 | the saldo card shows the `saldo` column of years y and y−1 and their YoY |
| Kpi.SaldoKpiOfSingleRow | 1_dash.py:164-167 | a year's single row gives the card value final minus initial stock |
| Kpi.PreviousYearIsYearMinusOne | 1_dash.py:137-144 | with years 2020 and 2022 only, the 2022 card fails: the previous year is 2021, not 2020 |
| Kpi.AnnualCard | 1_dash.py:180-236 | an annual card's change is the YoY of its values, which the `.iloc` rows of y and y−1 hold, and its sparkline is green iff the column's last value is at least its first |
| Kpi.LatestYear | 1_dash.py:137 | the last year is present and not below any year; it is None only for an empty frame |
| Kpi.LatestMonthOfYear | 1_dash.py:208-211 | the chosen month row is of year y and is the latest month of y |
| Kpi.PriceKpi | 1_dash.py:207-212 | the price card exists iff both years have months; current is the price of the latest month of y, previous that of the latest month of y−1, change the YoY |
| Kpi.PctChange | 1_dash.py:402-403 | `pct_change()*100` then `fillna(0)` keeps the length; entry 0 is 0; entry i is the YoY over entry i−1 for a non-zero base, 0 for 0/0, +inf for a rise from 0 and −inf for a fall from 0 |
| Kpi.PctChangeGreenIffRise | 1_dash.py:419 | with a positive base, annotation i is green iff the value rose |
| Kpi.Annotate | 1_dash.py:419 | an annotation is green iff its change is positive |
| Kpi.YearlyAnnotations | 1_dash.py:401-420 | the loop emits one annotation per point from index 1; annotation i−1 carries point i's change over point i−1 |
| Kpi.AnnotateFrom | 1_dash.py:405-419 | the loop over indices 1.. annotates every point but the first with its own change |
| Dash.MonthsInRange | 1_dash.py:125 | the monthly frame keeps exactly the rows in the slider range |
| Dash.YearsInRange | 1_dash.py:126 | the annual frame keeps exactly the years in the slider range |
| Dash.KpiSection | 1_dash.py:125-221 | the KPI row renders iff the filtered annual table has its latest year and the year before, and the filtered monthly table has its latest `ano` and the year before; it is then the panel of those two years |
| Dash.PanelYearInRange | 1_dash.py:125-144 | a year the filtered annual table holds with its previous year lies in the range with that year, so the panel year is never the range's first year |
| Dash.Panel | 1_dash.py:137-221 | the panel carries the annual year and the monthly year it was built for |
| Dash.PanelCards | 1_dash.py:143-236 | the saldo card is `SaldoKpi` with its sparkline, the dollar and five annual cards are `AnnualCard` of year against year−1, and the price card is `PriceKpi` of the monthly year with its sparkline |
| Dash.KpiSectionSingleYearFails | 1_dash.py:137-144 | a one-year range cannot show the KPI row |
| Dash.KpiSaldoIsSaldoColumn | 1_dash.py:130 | the saldo card of the rendered row is final minus initial stock of that year's row |
| Dash.SaldoOfUniqueYear | 1_dash.py:164-165 | with one row per year and year−1 in range, the saldo card shows final minus initial stock |
| Dash.YearEndPoints | 1_dash.py:401 | one point per year of the filtered frame |
| Dash.YearEndPointsAreYearEnds | 1_dash.py:401 | each point is the last in-range row of its year, and the points are in increasing year order |
| Dash.CambioAnnotations | 1_dash.py:401-420 | the dollar chart gets one annotation per year after the first, with the % change over the previous year-end |
| Dash.OfertaSection | 1_dash.py:691 | section 3 adds the rolling 12 stock mean and the rolling 12 production and import sums to the filtered frame |
| Dash.DemandaSection | 1_dash.py:1195 | section 4 adds the rolling 12 export and crushing sums to the filtered frame |
| Dash.StockCorrelationInputs | 1_dash.py:835 | the stock card correlates the stock trend with the price picked in section 2 |
| Dash.ProductionCorrelationInputs | 1_dash.py:986 | the production card correlates the 12-month production with the price picked in section 3 |
| Dash.StockCardIgnoresSection3Choice | 1_dash.py:795 | the stock correlation does not depend on section 3's price choice |
| Dash.OfertaTrendColumns | 1_dash.py:706 | once 12 months exist, the stock trend is the 12-month mean and the production total is the 12-month sum |
| SojaMetrics.FilterFrames | sojametrics.py:100-102 | the monthly, annual and dollar frames each keep exactly their rows in the slider range |
| SojaMetrics.SliderOnLoaded | sojametrics.py:51-53 | filtering the 2000-2024 load by the slider is one filter by the intersection of the ranges |
| SojaMetrics.LatestQuoteOfYear | sojametrics.py:211 | after sorting by datetime, the last quote of year y is its latest; None when y has no quote |
| SojaMetrics.LastQuoteOfYear | sojametrics.py:212 | in file order, the chosen quote of year y has no later quote of year y |
| SojaMetrics.FxKpi | sojametrics.py:207-213 | the dollar card exists iff both years have quotes; current is the latest close of y, previous the file-order last close of y−1, change the YoY |
| SojaMetrics.FxKpiOnSortedQuotes | sojametrics.py:209 | on a date-sorted file, the previous close is also the latest of its year |
| SojaMetrics.FxKpiOutOfOrderExample | sojametrics.py:209 | on an unsorted file, the previous close can be an earlier quote than the year's last |
| SojaMetrics.KpiSection | sojametrics.py:100-125 | the KPI row renders iff the filtered monthly table is non-empty and its latest `ano` and the year before are present in the annual, quote and monthly tables; it is then the panel of that year |
| SojaMetrics.PanelYearInRange | sojametrics.py:100-114 | a year the filtered monthly table holds with its previous year lies in the range with that year, and is a year of the unfiltered table |
| SojaMetrics.Panel | sojametrics.py:109-125 | the panel carries the year it was built for |
| SojaMetrics.PanelCards | sojametrics.py:109-287 | the saldo card is `SaldoKpi` with its sparkline, the five annual cards are `AnnualCard`, the dollar card is `FxKpi` of the quotes with the close sparkline, and the price card is `PriceKpi` |
| SojaMetrics.KpiYearIsMonthlyYear | sojametrics.py:109-114 | the KPI year is the monthly table's largest in-range year |
| SojaMetrics.MergeKeepsEveryPeriod | sojametrics.py:486 | `PricesWithQuotes`, the outer merge on the month, keeps every month found on either side |
| SojaMetrics.MergeOncePerMonth | sojametrics.py:486 | with one row per month on both sides, each month appears exactly once |
| SojaMetrics.MergeRepeatsMonthPerQuote | sojametrics.py:486 | two quotes in one month give two merged rows for that month |
| SojaMetrics.QuotesInRange | sojametrics.py:100-102 | the in-range quotes are exactly the quotes with lo ≤ ano ≤ hi |
| SojaMetrics.YearEndQuotes | sojametrics.py:306 | one year-end point per in-range year of the quotes |
| SojaMetrics.YearEndQuotesAreYearEnds | sojametrics.py:306 | each point is the last in-range quote of its year in table order, and the points' years rise strictly |
| SojaMetrics.CambioAnnotations | sojametrics.py:306-320 | one annotation per year after the first, each with the % change over the previous year-end close |
| SojaMetrics.IndexedInRange | sojametrics.py:841 | the section filter keeps exactly the in-range rows, index labels included |
| SojaMetrics.MonthAt | sojametrics.py:841 | alignment finds the month of the row with the same index label, or NaT when there is none |
| SojaMetrics.PeriodsAlignedFrom | sojametrics.py:841 | as written, a row gets NaT exactly when section 3's frame has no row with its index label |
| SojaMetrics.PeriodsAlignedFromLosesRows | sojametrics.py:841 | with section 5 on 2020-2021 and section 3 on 2021, the 2020 row gets no period |
| SojaMetrics.PeriodsAlignedFromCoveringRange | sojametrics.py:702 | when section 3's range covers section 5's, every row gets its own month |
| SojaMetrics.SameIndexSameRow | sojametrics.py:841 | with distinct index labels, the same label means the same row |
| SojaMetrics.SaldoFrame | sojametrics.py:840-843 | each row is dated by its own month; `saldo_estoque` is 0 on the first row and the change from the previous row after it |
| SojaMetrics.SaldoFrameTelescopes | sojametrics.py:842-843 | the first stock plus the balances up to month k is the stock of month k |
| SojaMetrics.AnnualSaldo | sojametrics.py:845-846 | each in-range year's annual saldo is final minus initial stock |
| SojaMetrics.SaldoCorrelationInputs | sojametrics.py:973 | section 5 correlates the monthly stock change with its own chosen price |
| Forecast.MonthlyFxTable | pages/2_forecast.py:56-59 | one monthly rate per quoted month |
| Forecast.SortedQuotesAreQuotes | pages/2_forecast.py:57 | sorting the quotes adds none |
| Forecast.MonthlyFxIsLatestOfMonth | pages/2_forecast.py:56-59 | each monthly rate is keyed to day 1 of its month and is the close of that month's latest quote |
| Forecast.MonthlyFxCoversQuotes | pages/2_forecast.py:56-59 | every quoted month has a rate |
| Forecast.MonthlyFxUnique | pages/2_forecast.py:56-59 | each month has one rate |
| Forecast.SaldoRows | pages/2_forecast.py:50-53 | the training rows are the 2000-2024 rows in order, with missing prices 0, no rate yet, and `saldo_estoque` the stock change (0 first) |
| Forecast.WithFx | pages/2_forecast.py:62 | the left merge keeps each row and attaches the rate of its month, or none |
| Forecast.PrepareTraining | pages/2_forecast.py:43-62 | the prepared frame is the 2000-2024 rows with filled prices, the stock diff and each month's rate |
| Forecast.DropMissingFx | pages/2_forecast.py:105 | `dropna` keeps as many rows as carry a rate; the rated row at position i becomes its `ToModel` row (period, chosen price, rate) at its rank among the rated rows, so order and multiplicity are kept, and the kept rows are the `RatedModels` multiset |
| Forecast.RatedModelsMem | pages/2_forecast.py:105 | a model row is among the rated model rows iff a row with a rate gives it |
| Forecast.DropKeeps | pages/2_forecast.py:104-105 | putting the head's model row before the tail's keeps the rated model rows and the period order |
| Forecast.DropStep | pages/2_forecast.py:105 | the rank of each rated row is kept when the head's model row is put before the tail's |
| Forecast.RatedModelsConcat | pages/2_forecast.py:105 | the rated model rows of a concatenation are the union of both sides' |
| Forecast.RatedModelsPermutation | pages/2_forecast.py:104-105 | a permutation of the rows has the same rated model rows, so sorting first does not change what `dropna` keeps |
| Forecast.ModelFrame | pages/2_forecast.py:103-105 | the model frame is sorted by period and is a permutation of the model rows of the rows with a rate (the `RatedModels` multiset) |
| Forecast.PointForecastSlope | pages/2_forecast.py:122 | the forecast changes by β1 per unit of the dollar rate |
| Forecast.PointForecastInRange | pages/2_forecast.py:76 | with a non-negative slope, the forecast lies between those at the input bounds 3.0 and 10.0 |
| Forecast.FirstPriceAt | pages/2_forecast.py:150 | `.iloc[0]` of the rows of a date is the first row of that date, and fails (None) when none has it |
| Forecast.LatestPeriod | pages/2_forecast.py:120 | the last period is a period of the frame and not before any other |
| Forecast.ForecastBand | pages/2_forecast.py:120-151 | the band is the point forecast ±1.5·sd, dated the last period plus h months; the last real date is that date minus h months |
| Forecast.LatestOfFuturo | pages/2_forecast.py:145 | after the forecast row is appended, the latest period is the forecast date |
| Forecast.BandOrdered | pages/2_forecast.py:140-142 | with sd ≥ 0, lower ≤ forecast ≤ upper, and the band is symmetric |
| Forecast.ForecastBandFindsLastMonth | pages/2_forecast.py:145-151 | for day-1 periods, the last real date is the last period, and its price lookup succeeds |
| Forecast.FuturoLastDate | pages/2_forecast.py:145 | the latest date of the extended frame minus h months is the last historical period |
| Forecast.FirstPriceInFuturo | pages/2_forecast.py:150 | appending the forecast row does not change the lookup of a historical date |
| Forecast.FirstPriceOfPrefix | pages/2_forecast.py:150 | a date found in a prefix is looked up in that prefix |
| Forecast.ForecastBandMissesMonthEnd | pages/2_forecast.py:145-151 | with a month-end period, the round trip misses and the lookup fails |
| Forecast.UnitText | pages/2_forecast.py:137 | the unit, the piece between the first '-' of a label and any second one, contains no '-'; None is the IndexError of a label without '-' |
| Forecast.UnitAfterOnlyDash | pages/2_forecast.py:137 | with one '-', the unit is the text after it |
| Forecast.UnitOfDefaultLabel | pages/2_forecast.py:137 | the Rondonópolis unit is " R$/saca (sem ICMS)" |
| Forecast.Headline | pages/2_forecast.py:131-137 | the headline exists iff the label has a unit, and it is "Preço previsto para ", the `"%Y-%m"` month, " em ", the price in the Brazilian format, a space and the unit |
| TratarDados.MonthMapNumbers | tratar_dados.py:4-7 | the map has the 12 abbreviations as keys, the i-th mapped to the two digits of i |
| TratarDados.MonthMapInjective | tratar_dados.py:4-7 | no two abbreviations share a month number |
| TratarDados.MonthMapOnto | tratar_dados.py:4-7 | every month number 01..12 is reached |
| TratarDados.AnoMes | tratar_dados.py:18 | a key exists exactly when the month abbreviation is in the map (otherwise NaN) |
| TratarDados.AnoMesFormat | tratar_dados.py:31 | for four-digit years, `ano_mes` is "YYYY-MM": length 7, '-' at 4, year digits, then the month's two digits |
| TratarDados.AnoMesInjective | tratar_dados.py:44 | distinct (year, month) pairs have distinct keys |
| TratarDados.MeltLength | tratar_dados.py:14-16 | the melt `Melt` of all year columns has months × year columns rows |
| TratarDados.MeltAt | tratar_dados.py:14-18 | row j·|months|+i of `Melt` is month i of year column j, with its key and zero-filled value |
| TratarDados.PivotYearRange | tratar_dados.py:78 | a two-digit year pivots into 1950..2049 and keeps its last two digits |
| TratarDados.PivotYearRoundTrip | tratar_dados.py:78 | every year in 1950..2049 is the pivot of its last two digits |
| TratarDados.PriceMonthYearRoundTrip | tratar_dados.py:76-78 | the period "mmm/yy" of a three-letter month and a year in 1950..2049 reads back as the capitalized month and that year |
| TratarDados.PricesOf | tratar_dados.py:74-79 | the price table parses exactly when every period parses, row for row, with filled prices and the key of its month and year |
| TratarDados.PricePeriodJanuary | tratar_dados.py:76-78 | "jan/23" is January 2023 |
| TratarDados.PricePeriodDecember | tratar_dados.py:76-78 | "dez/99" is December 1999 |
| TratarDados.AnoMesExample | tratar_dados.py:79 | year 2023 and "Jan" give "2023-01" |
| TratarDados.MergeExportacaoKeys | tratar_dados.py:93 | `MergeExportacao`, the stock/export merge, keeps every key of either sheet |
| TratarDados.MergeExportacaoKeepsRows | tratar_dados.py:93-97 | every stock value and every export value reaches the merged frame under its key |
| TratarDados.MergeExportacaoFill | tratar_dados.py:95-97 | each merged row takes month and year from a side that has them; a missing stock is 0 |
| TratarDados.MergeProcessamentoSpec | tratar_dados.py:103-111 | `MergeProcessamento` keeps every key; the crushing values arrive; stock, exports and crushing are filled with 0 |
| TratarDados.MergeCompraSpec | tratar_dados.py:115-121 | `MergeCompra` keeps every key; purchases are filled with 0; month and year are not filled |
| TratarDados.SaldoOf | tratar_dados.py:126 | saldo is defined exactly when stock, exports and crushing are |
| TratarDados.CastAno | tratar_dados.py:131 | `astype(int)` succeeds exactly when every year parses, and keeps every row and its saldo |
| TratarDados.CastAnoBalanced | tratar_dados.py:126 | after the cast, saldo = stock + purchases − exports − crushing on every row |
| TratarDados.MergeCompraMeasured | tratar_dados.py:117 | every row after the purchases merge has all four measures |
| TratarDados.CompraOnlyMonthStops | tratar_dados.py:131 | a month known only to the purchases sheet has no year, so the cast stops the script |
| TratarDados.MergeProducaoKeys | tratar_dados.py:133 | `MergeProducao` keeps every year of either side |
| TratarDados.MergeProducaoKeepsMonths | tratar_dados.py:133 | every monthly row survives the production merge, unchanged except for production |
| TratarDados.MergeProducaoKeepsYears | tratar_dados.py:133-135 | every production year reaches the frame with its value (missing → 0) |
| TratarDados.MergeProducaoFill | tratar_dados.py:135 | each row's production is its year's production, or 0 when no production row matches |
| TratarDados.MergeProducaoBalanced | tratar_dados.py:133 | the production merge keeps the balance identity |
| TratarDados.MergeProducaoNoPrices | tratar_dados.py:133 | the production merge adds no prices |
| TratarDados.MergePrecosKeys | tratar_dados.py:140 | `MergePrecos` keeps every month of either side |
| TratarDados.MergePrecosKeepsMonths | tratar_dados.py:140 | every row survives the price merge, unchanged except for prices |
| TratarDados.MergePrecosKeepsPrices | tratar_dados.py:140 | every price month reaches the frame with its six prices |
| TratarDados.MergePrecosFill | tratar_dados.py:140 | each row's prices are its month's prices or missing; the balance identity holds |
| TratarDados.Fill5Row | tratar_dados.py:140 | one joined row of the price merge has its month's prices or none |
| TratarDados.FillAll | tratar_dados.py:142 | the final `fillna(0)` keeps the key, the year and the prices (missing → 0), and on a balanced row keeps the balance identity |
| TratarDados.MonthlyKeysSurvive | tratar_dados.py:93-131 | every month of the four monthly sheets reaches the cast frame |
| TratarDados.ProducaoKeepsMonthKeys | tratar_dados.py:133 | the production merge loses no month key |
| TratarDados.PrecosKeepProducao | tratar_dados.py:140 | the price merge keeps every production row |
| TratarDados.MissingMonthStops | tratar_dados.py:133-148 | a row with no month key (an unknown month name) reaches the last merge with no key, and the date conversion stops the script |
| TratarDados.ProductionOnlyYearStops | tratar_dados.py:133-148 | a production year with no monthly row becomes a row with no month key, and the date conversion stops the script |
| TratarDados.LastStepsBalanced | tratar_dados.py:126-142 | after the last merges and the fill, saldo = stock + purchases − exports − crushing on every row |
| TratarDados.LastStepsKeepMonths | tratar_dados.py:133-142 | every month key reaches the output |
| TratarDados.LastStepsKeepPrices | tratar_dados.py:140-142 | every price row reaches the output with its prices |
| TratarDados.LastStepsKeepProducao | tratar_dados.py:133-142 | every production year reaches the output with its filled value |
| TratarDados.BuildSoja | tratar_dados.py:93-150 | the script writes its file iff the year cast succeeds and every row of the last merge has a month key (so not when purchases have an extra month, a sheet has an unknown month name, or a production year has no monthly row); the output has no missing cell, the saldo identity on every row, and every sheet's months, prices and production |
| TratamentoDados.FilterProduto | tratamento_dados.py:22 | the product filter keeps exactly the "1. Grão" rows |
| TratamentoDados.Runs | tratamento_dados.py:23 | grouping records by date is empty only for no records, and starts at the first date |
| TratamentoDados.Pivot | tratamento_dados.py:23 | `pivot` fails exactly when two records share date and column |
| TratamentoDados.RunsIncreasing | tratamento_dados.py:23 | on date-sorted records the pivot rows have strictly increasing dates |
| TratamentoDados.RunsDates | tratamento_dados.py:23 | every pivot row's date is a record's date |
| TratamentoDados.RunsComplete | tratamento_dados.py:23 | every record lands in the pivot row of its date |
| TratamentoDados.RunsSound | tratamento_dados.py:23 | every pivot cell is some record's value |
| TratamentoDados.PivotSpec | tratamento_dados.py:23-24 | the pivot rows are increasing in date, and every row and cell comes from a record |
| TratamentoDados.PivotHasRecord | tratamento_dados.py:23 | every record's value is in the pivot, under its date and column |
| TratamentoDados.SameCellSameIndex | tratamento_dados.py:23 | without duplicates, a (date, column) pair identifies one record |
| TratamentoDados.StampYear | tratamento_dados.py:26 | an earlier date is in the same or an earlier year |
| TratamentoDados.BalancoAnual | tratamento_dados.py:22-27 | the annual balance fails exactly on a duplicate (date, column) among the grain rows |
| TratamentoDados.BalancoAnualHas | tratamento_dados.py:22-27 | every grain record appears under its year and column |
| TratamentoDados.BalancoAnualCell | tratamento_dados.py:22-27 | every cell of row k is a grain record of that year |
| TratamentoDados.BalancoAnualSpec | tratamento_dados.py:22-27 | every cell comes from a grain record, and the years are in non-decreasing order |
| TratamentoDados.AnnualFx | tratamento_dados.py:37-44 | one rate per quoted year |
| TratamentoDados.SortedQuotes | tratamento_dados.py:41 | sorting keeps exactly the quotes |
| TratamentoDados.AnnualFxIsLatestOfYear | tratamento_dados.py:41-42 | each annual rate is the close of the year's latest quote |
| TratamentoDados.AnnualFxKeys | tratamento_dados.py:42 | one rate per year, for every quoted year |
| TratamentoDados.BalanceWithFxKeeps | tratamento_dados.py:46 | the left merge keeps every balance year and its cells, in order |
| TratamentoDados.BalanceWithFxSpec | tratamento_dados.py:46 | in `BalanceWithFx` a year gets a rate iff it has quotes, and the rate is that year's annual rate |
| TratamentoDados.Reversed | tratamento_dados.py:57 | the descending re-sort reverses the rows and keeps them as a multiset |
| TratamentoDados.WithDiff | tratamento_dados.py:56 | the ascending `diff` keeps the rows; saldo is 0 first and the stock change after |
| TratamentoDados.StripReversed | tratamento_dados.py:57 | stripping the saldo of the reversed frame gives back the stock rows as a multiset |
| TratamentoDados.ReversedDiffChain | tratamento_dados.py:56-58 | in descending order, each saldo is its stock minus the next (older) row's stock |
| TratamentoDados.WithDiffSorted | tratamento_dados.py:55-56 | the diff keeps the ascending order |
| TratamentoDados.ReversedDescending | tratamento_dados.py:57 | reversing an ascending frame gives a descending one |
| TratamentoDados.StockBalance | tratamento_dados.py:52-58 | the stock frame is a permutation of the input in descending date order; each saldo is the change from the previous month, and the oldest is 0; as a multiset it is `WithDiff` of the date-sorted stocks |
| TratamentoDados.AscendingStocksDiff | tratamento_dados.py:56-58 | the descending saldo column, read ascending, is `diff().fillna(0)` of the stocks |
| TratamentoDados.StockBalanceTelescopes | tratamento_dados.py:56-58 | the oldest stock plus the saldos up to a month is that month's stock |
| TratamentoDados.MergeMonthlyKeys | tratamento_dados.py:97-101 | `MergeMonthly`, each monthly outer merge, keeps every month of either side |
| TratamentoDados.CombineKeepsLeft | tratamento_dados.py:97 | a column only the left side has keeps its value |
| TratamentoDados.CombineKeepsRight | tratamento_dados.py:97 | a column of the right side takes its value |
| TratamentoDados.MergeMonthlyKeepsLeft | tratamento_dados.py:97-101 | a left value in a column the right side lacks survives the merge |
| TratamentoDados.MergeMonthlyKeepsRight | tratamento_dados.py:97-101 | every right value survives the merge |
| TratamentoDados.MergeMonthlySound | tratamento_dados.py:97-101 | every merged value comes from one side |
| TratamentoDados.StockFrameSpec | tratamento_dados.py:53-58 | `StockFrame` holds stock and saldo under each month, and no other column |
| TratamentoDados.SheetFrameSpec | tratamento_dados.py:60-76 | `SheetFrame`, a renamed sheet, holds its values under its column, and no other column |
| TratamentoDados.SheetFrameSound | tratamento_dados.py:60-76 | every value of a sheet frame is a sheet value |
| TratamentoDados.PriceFrame | tratamento_dados.py:79-93 | the price frame fails exactly on a duplicate cell or a missing premium column |
| TratamentoDados.PriceFrameHas | tratamento_dados.py:79-93 | every grain price except the premium is in the frame |
| TratamentoDados.PivotCellSound | tratamento_dados.py:82 | every pivot cell is a record's value |
| TratamentoDados.PriceFrameSound | tratamento_dados.py:79-93 | every price cell is a grain price record, never the premium |
| TratamentoDados.MonthlyFrameKeys | tratamento_dados.py:96-101 | `MonthlyFrame` (`soja_mensal` after the outer merges) has exactly the months of the six frames |
| TratamentoDados.MergeSheetKeeps | tratamento_dados.py:98-100 | merging a sheet keeps the values of other columns |
| TratamentoDados.MergeSheetAdds | tratamento_dados.py:98-100 | merging a sheet adds all its values |
| TratamentoDados.MergePricesKeeps | tratamento_dados.py:101 | merging prices keeps the sheet columns |
| TratamentoDados.MonthlyFrameHasStock | tratamento_dados.py:97 | every stock and saldo value is in `soja_mensal` |
| TratamentoDados.MonthlyFrameHasSheets | tratamento_dados.py:97-100 | every export, crushing, purchase and import value is in `soja_mensal` |
| TratamentoDados.MonthlyFramePrices | tratamento_dados.py:101 | every price is in `soja_mensal`, and every value there comes from one of the six frames |
| TratamentoDados.WeightsKeys | tratamento_dados.py:107-120 | the weight table has exactly the keys 1..12 |
| TratamentoDados.WeightsSum | tratamento_dados.py:107-120 | the weights sum to 1.15 |
| TratamentoDados.ProducaoTable | tratamento_dados.py:122 | the production table fails exactly when no year has a production column, and otherwise has one row per year |
| TratamentoDados.WeightedMonth | tratamento_dados.py:124 | a month's production is the annual figure times its weight |
| TratamentoDados.AddProducaoRow | tratamento_dados.py:102-124 | each row of `AddProducao` (rows built by `Spread`) has year and month of its key and a frame row's values; production only with a month, as the annual figure times the weight |
| TratamentoDados.AddProducaoKeeps | tratamento_dados.py:123 | every monthly row survives the production merge |
| TratamentoDados.AddProducaoSpreads | tratamento_dados.py:123-124 | a month of a production year receives the weighted production |
| TratamentoDados.SpreadYearTotal | tratamento_dados.py:124 | a full year of spread production totals 1.15 × annual |
| TratamentoDados.MonthPick | tratamento_dados.py:139 | the chosen quote of a month minimises the distance to day 1 |
| TratamentoDados.NearestFx | tratamento_dados.py:137-141 | one rate per quoted month |
| TratamentoDados.OffsetOrdersMonth | tratamento_dados.py:139 | within a month, a smaller distance to day 1 is an earlier date |
| TratamentoDados.NearestFxIsEarliest | tratamento_dados.py:137-144 | each monthly rate is keyed to day 1 and is the close of the month's earliest quote |
| TratamentoDados.NearestFxMonth | tratamento_dados.py:143-144 | rate i is keyed to day 1 of the i-th quoted month |
| TratamentoDados.NearestFxUnique | tratamento_dados.py:137-144 | one rate per month |
| TratamentoDados.NearestFxCovers | tratamento_dados.py:137-144 | every quoted month has a rate |
| TratamentoDados.WithMonthlyFxSpec | tratamento_dados.py:147 | `WithMonthlyFx`, the left merge, keeps each row; a row gets a rate iff its month is quoted, and it is the earliest close of that month |
| TratamentoDados.WithMonthlyFxLength | tratamento_dados.py:147 | the left merge does not change the row count |
| TratamentoDados.PipelineKeeps | tratamento_dados.py:123-147 | every monthly value survives the production and dollar merges |
| TratamentoDados.ProducaoColumn | tratamento_dados.py:122 | the production column exists iff some grain record is production |
| TratamentoDados.ProducaoSound | tratamento_dados.py:122 | every annual production value is a grain production record of that year |
| TratamentoDados.ProducaoTableSound | tratamento_dados.py:122 | the production table is sound against the balance records |
| TratamentoDados.PipelineRowDated | tratamento_dados.py:102-147 | each output row has year and month of its key, and a rate only from its month |
| TratamentoDados.AddProducaoSound | tratamento_dados.py:123-124 | each row's production is a weighted production record of its year |
| TratamentoDados.PipelineRows | tratamento_dados.py:102-147 | every output row is dated, weighted and rated soundly |
| TratamentoDados.SheetsReachOut | tratamento_dados.py:97-147 | every sheet value reaches the output |
| TratamentoDados.StocksReachOut | tratamento_dados.py:52-147 | every stock value reaches the output |
| TratamentoDados.PricesReachOut | tratamento_dados.py:79-147 | every grain price except the premium reaches the output |
| TratamentoDados.SaldosReachOut | tratamento_dados.py:55-147 | every stock balance (`WithDiff` of the date-sorted stocks) reaches the output on its date |
| TratamentoDados.PipelineSound | tratamento_dados.py:123-147 | the production and dollar merges add no cell: every output value is a value of the merged monthly frame |
| TratamentoDados.StockFrameSound | tratamento_dados.py:53-58 | every value of the stock frame is a stock or a saldo of its month |
| TratamentoDados.StockValueFromInputs | tratamento_dados.py:52-58 | a stock-frame value is an input stock, or a balance of the date-sorted stocks |
| TratamentoDados.OutValueFromInputs | tratamento_dados.py:52-147 | one output value comes from a stock, a stock balance, a sheet figure under its column or a non-premium grain price |
| TratamentoDados.OutValuesFromInputs | tratamento_dados.py:52-147 | every output value comes from the inputs (`ValuesSound`) |
| TratamentoDados.PriceFrameFree | tratamento_dados.py:79-93 | price columns are never sheet columns, given distinct labels |
| TratamentoDados.SojaMensal | tratamento_dados.py:52-154 | the script writes its file iff neither pivot has duplicates, the production and premium columns exist, and all six price columns of the final selection exist; then every stock, stock balance, sheet and price value reaches the output, every output value comes from one of those inputs, and every row is dated, weighted and rated soundly |

## Left out

- Streamlit widgets, containers, `st.metric` and all Plotly figure, trace, annotation-position and layout code. Only the decision rules (colour, label, which value a card shows) are modelled.
- File I/O: `read_csv`, `read_excel`, `to_csv`, `os.path.exists`, `df.info()`. The loaded tables are inputs.
- The statsmodels OLS fit, `rsquared`, `np.std`, Pearson `.corr` and `trendline="ols"`. β0, β1, sd and r are inputs, with sd ≥ 0.
- Floating point in general: values are exact reals, so `round(2)` (tratamento_dados.py:35) and float rounding of sums are not modelled.
- Forecast.Headline: takes the price as whole `cents`. The rounding of the float forecast to two decimals by `f"{previsao:,.2f}"` (pages/2_forecast.py:134) is left to the caller, and nothing ties `cents` to `Forecast.PointForecast`'s real value.
- `pd.to_datetime` parsing of free-form strings and `resample` internals. Dates are (year, month, day) integers, and the time of day is dropped.
- The hard-coded event lists and their vertical lines (1_dash.py:435-465, sojametrics.py:328-352), and the `:.1f` rendering of annotation text; these are presentation only.
- Column renames and column selections (tratamento_dados.py:27-34, 87-93; tratar_dados.py:81-90). Typed record fields replace column names, and prices are held as one six-price row. Of the final selection at tratamento_dados.py:151 the model keeps only what can fail: a missing price column (`TratamentoDados.PriceColumnsPresent`).
- The `astype(int)` of tratar_dados.py:146 runs after `fillna(0)` and cannot fail; the model's output year is already an integer.
- Text.ParseInt: Python's `int()` also accepts surrounding whitespace, a leading '+' and '_' between digits; the model returns None for those. The texts it parses (two-digit years and rendered integers) never contain them.
- The drop of NaN-labelled columns (tratamento_dados.py:83). Pivot labels are strings and are never NaN.
- Kpi.LatestMonthOfYear: a one-column `sort_values` uses quicksort, which is not stable, so among several rows of the same latest month pandas picks one it does not specify. The model promises a row of that latest month, not which one.
- Forecast.ModelFrame: the one-column `sort_values("periodo")` (pages/2_forecast.py:104) is quicksort, which is not stable, so pandas leaves the order of rows with the same period unspecified. The model sorts stably; its contract promises the sorted permutation, and the lookups built on it (`Forecast.FirstPriceAt` via `Forecast.ForecastBandFindsLastMonth`) assume tied periods keep their input order.
- TratamentoDados.StockBalance: the two one-column `sort_values("ano_mes")` (tratamento_dados.py:55 and :57) are not stable either. With two stock rows on the same date, pandas may difference them in either order; the model's stable sort fixes that order, so its saldo chain assumes it.
- Kpi.MonthRow, Kpi.AnnualRow and Forecast.SourceMonth: every cell is a real, so the model assumes the tables hold no missing cell. The source reads them without `dropna` (sojametrics.py:48-49, 1_dash.py:56) and fills what is missing with 0 in some places: the section 5 frames (sojametrics.py:843, 847) and the training rows (pages/2_forecast.py:53, after the stock `diff()`). The model leaves out those fills on a missing stock, price or annual rate. It also leaves out a NaN reaching a KPI card (sojametrics.py:240-242, 1_dash.py:182-183). Only the prices of `Forecast.SourceMonth` are optional, and they are filled with 0 as the source does.
- Pandas outer merges sort their keys. The model keeps left rows, then right-only rows: key sets, provenance and uniqueness are proved, not row order.
- TratamentoDados.SojaMensal: requires that no grain price label is also a sheet column name. Pandas would suffix such a clash (`_x`/`_y`), and the model does not.
- Forecast.PointForecast: the expression β0 + β1·x itself carries no contract. Its properties are `Forecast.PointForecastSlope` and `Forecast.PointForecastInRange`.
- The legacy page "1_dash v2.py" is not part of this model.
- The remaining chart sections of sojametrics.py (rolling trends, sparklines, correlation cards) repeat the 1_dash.py computations modelled in `Dash` and `Kpi`; they are not modelled a second time.

## Findings

| source | as written | input that shows it | evidently intended | confidence | as-written member | corrected member |
|---|---|---|---|---|---|---|
| sojametrics.py:841 | section 5 sets `periodo` from section 3's filtered frame (`df_oferta`), aligned on index labels; section 4 does the same at line 702 | monthly rows for 2020 and 2021, section 5 on 2020-2021, section 3 on 2021 only: the 2020 row gets no period | each row dated by its own `ano_mes` | not executed | SojaMetrics.PeriodsAlignedFromLosesRows | SojaMetrics.SaldoFrame |
