# Price normaliser of the brand-benchmarking dashboard

A Dafny model of the deterministic rules behind a Streamlit dashboard that
compares the product catalogues of competing brands (`app.py`):

- **`processar_valores_monetarios` with `limpar_nomes_colunas`** (module
  `ProductTable`, class `Table`; module `Prices`). Every column name of the
  uploaded table is trimmed. Then each of `Initial_Price` and `Final_Price`
  that is present is normalised in place, pass by pass:
  - `R$` and `r$` are removed wherever they occur, and the text is stripped;
  - a masked rewrite turns Brazilian `1.200,00` into `1200.00`;
  - a second mask, read after the first rewrite, turns a lone comma into a point;
  - the text is parsed, and a text that does not parse becomes a missing value;
  - a column-wide magnitude correction runs, with thresholds 10 and 100 and factor 1000.

  The table is a class whose columns are arrays. Every pass is a method that
  rewrites the array in place, and is proved equal to a specification function
  of the old contents.
- **`categorizar_faixa_preco`** (module `PriceBands`): the twenty bands, each
  50 wide, then `1000+`. A negative price or NaN gets no band. A text that
  `float()` rejects gets `0-50`.
- **`formatar_reais`** (module `Reais`): `f"R$ {v:,.2f}"` followed by the
  separator swap through the placeholder `X`. The output is proved to be the
  Brazilian spelling of the amount, and the normaliser's text steps are proved
  to read it back as the same amount.
- **The `Is_Launch` mapping** (module `LaunchFlag`): strip, lower-case, look
  the text up in the yes/no dictionary, and map anything unknown to `False`.

Supporting modules:
- `Strings`: Python's `strip`, `replace` and ASCII `lower`, and decimal spellings.
- `Decimal`: the decimal-literal reader that stands for `pd.to_numeric` and `float()`.
- `Wrappers`: `Option`.
- `WorkedCases`: facts proved about the model on concrete inputs.

Where the normaliser's docstring (app.py:81-84) leaves the behaviour open, or
suggests more than the code does, the model follows the code:
- The normaliser changes the table it is given (app.py:76, 93-127). It does not
  return an independent copy.
- The currency sign is removed anywhere in the text, not only as a prefix
  (app.py:96-97).
- A price column that occurs twice after trimming makes the call raise
  part-way (`df[col]` is then a frame without `.str`). The caller catches the
  exception at app.py:303. The model reports `raised` and stops the loop there.
- Running the normaliser twice on numeric data is not idempotent in general.
  For example, `[0.001]` becomes `[1]` and then `[1000]`
  (`Prices.CorrectMagnitudeNotIdempotent`). What holds is stated in
  `Prices.CorrectMagnitudeStable`: once no value below 10 remains, a second
  correction changes nothing.

## Model

| member | source | states |
|---|---|---|
| `Strings.Strip` | app.py:76 | Python `str.strip()`: the result is a slice of the input, only whitespace was cut from either end, and the result neither starts nor ends with whitespace |
| `Strings.StripIdempotent` | app.py:76 | stripping a stripped name again changes nothing |
| `Strings.Replace` | app.py:96-108 | Python `str.replace(old, new)` with a non-empty pattern: a replacement as long as the pattern keeps the length; which occurrences are replaced is stated by `Strings.ReplaceCharByChar`, `Strings.ReplaceCharByNothing` and `Strings.ReplaceCharDeletes` for one-character patterns and by `Strings.ReplaceAroundMark` and `Prices.CleanCurrencyAnywhere` for the two-character currency signs |
| `Strings.ReplaceNoSecond` | app.py:96-97 | a text lacking the pattern's second character holds no occurrence and is returned unchanged |
| `Strings.ReplaceAroundMark` | app.py:96-97 | a two-character mark ending in a character found nowhere else in the text is replaced exactly when it equals the pattern, and the text on both sides of it is kept |
| `Strings.ReplaceCharByChar` | app.py:104-108 | `str.replace` of one character by another keeps the length and rewrites exactly the occurrences of that character |
| `Strings.ReplaceCharByNothing` | app.py:103 | `str.replace('.', '')` leaves no period, and every other character occurs exactly as often as before |
| `Strings.ReplaceCharDeletes` | app.py:103 | deleting a character keeps the order of the rest: what stood before an occurrence stays before what stood after it |
| `Strings.Lower` | app.py:934 | `str.lower()` on ASCII: the length is kept, each capital becomes the small letter at the same place in the alphabet, no ASCII capital is left, and every other character stays in place |
| `Decimal.ParseDecimal` | app.py:111 | the parse succeeds exactly on decimal literals (optional sign, digits, at most one period, some digit); otherwise the result is `None` |
| `Decimal.ParseFixedPoint` | app.py:111 | the spelling `[-]whole.ff` reads back as the signed amount `whole + ff/100` |
| `Prices.CleanText` | app.py:96-98 | the result is stripped: it neither starts nor ends with whitespace; removal of `R$` and `r$` wherever they stand is `Prices.CleanCurrencyAnywhere` |
| `Prices.SeparatorRule` | app.py:100-108 | after the rule no comma remains, and a text without a comma is unchanged |
| `Prices.SeparatorRuleCases` | app.py:100-108 | comma without period: each comma becomes a period in place. Comma and period: the periods are deleted, with every other character kept as often as before, and in what remains each comma becomes a period at its position; no comma is left and the text is shorter. No comma: unchanged |
| `Prices.SeparatorPasses` | app.py:102-108 | the two masked rewrites on one cell: a text stays a text and keeps no comma, and a number or missing cell is untouched |
| `Prices.SeparatorPassesFollowRule` | app.py:102-108 | the two masked passes, with the second mask read after the first rewrite, equal the three-way rule; no cell is rewritten twice |
| `Prices.ToNumeric` | app.py:111 | `to_numeric(errors='coerce')` on one cell: the result is a number or missing, and a text becomes missing exactly when it is not a decimal literal |
| `Prices.CleanCurrencyPrefix` | app.py:96-98 | `R$ ` in front of a plain body is removed together with its space |
| `Prices.CleanCurrencyAnywhere` | app.py:96-98 | a currency sign `R$` or `r$` is removed wherever it stands, in front, in the middle or at the end, and only the ends of what is left are stripped |
| `Prices.ParsedText` | app.py:96-111 | the text pipeline is currency removal and strip, then the separator rule, then the parse |
| `Prices.ParsedTextAs` | app.py:96-111 | a text whose cleaned, separated form is a literal for `v` is read as `v` |
| `Prices.ParsedCellMissing` | app.py:111 | a cell is missing after parsing exactly when it was missing or its cleaned text is not a decimal literal |
| `Prices.CorrectMagnitude` | app.py:115-127 | the column-wide correction keeps the length, and every cell is either kept or multiplied by 1000 |
| `Prices.CorrectMagnitudeCell` | app.py:115-127 | the correction neither creates nor removes a missing value; a cell it changes was a number below 10, now multiplied by 1000 |
| `Prices.MixedColumnScalesSmallOnly` | app.py:118-124 | with a value below 10 and a value above 100, exactly the values below 10 (zero and negatives included) are multiplied by 1000 |
| `Prices.AllSmallColumnScalesAll` | app.py:125-127 | when there is a parsed value and all parsed values are below 10, every parsed value is multiplied by 1000 and missing cells stay missing |
| `Prices.CorrectMagnitudeKeeps` | app.py:115-127 | with no value below 10, no parsed value, or small values beside values in [10, 100] and none above 100, nothing changes |
| `Prices.CorrectMagnitudeStable` | app.py:115-127 | if one correction leaves no value below 10, a second correction changes nothing |
| `Prices.CorrectMagnitudeNotIdempotent` | app.py:125-127 | `[0.001]` is corrected to `[1]`, and a second correction gives `[1000]` |
| `Prices.NormalisedColumn` | app.py:93-127 | one price column through currency removal, the separator rule, the parse and the correction: the length is kept and every cell ends a number or missing |
| `Prices.NormalisedColumnMissing` | app.py:111-127 | after normalisation every cell is a number or missing, and the missing cells are exactly those that were missing or failed to parse |
| `Prices.RemoveCurrencyInPlace` | app.py:93-98 | each cell of the array is replaced by its currency-free, stripped form |
| `Prices.BrazilianMaskOf` | app.py:102 | the mask holds exactly at the text cells containing both a comma and a period |
| `Prices.CommaMaskOf` | app.py:107 | the mask holds exactly at the text cells containing a comma and no period |
| `Prices.RewriteWhere` | app.py:103-108 | the masked write rewrites the selected text cells with `replace` and leaves every other cell alone |
| `Prices.ToNumericInPlace` | app.py:111 | each cell of the array is replaced by its parse |
| `Prices.ScanValues` | app.py:115-125 | whether there is a parsed value, a value below 10, or a value above 100, and whether the maximum is below 10, each exactly as on the column |
| `Prices.CorrectMagnitudeInPlace` | app.py:115-127 | the array afterwards is the magnitude correction of its old contents |
| `Prices.NormaliseColumn` | app.py:93-127 | the array afterwards is the normalisation of its old contents, pass by pass |
| `ProductTable.Locate` | app.py:91 | a price column is absent exactly when no name equals it, unique when exactly one name does (at the given index), and ambiguous exactly when two names do |
| `ProductTable.PriceStep` | app.py:90-127 | one turn of the loop: the header and the number of columns are kept |
| `ProductTable.PriceStepEffect` | app.py:90-127 | one turn raises exactly when the table had raised or the price column occurs twice; otherwise only the column bearing that name is normalised |
| `ProductTable.Normalised` | app.py:74-129 | the whole call on a table value: the header is the trimmed one and the number of columns is kept |
| `ProductTable.RunPricesAfterRaise` | app.py:90-91 | once the call has raised, the remaining price columns are not touched |
| `ProductTable.NormalisedTable` | app.py:74-129 | names are trimmed; the call raises exactly when a price column is duplicated; otherwise a column whose trimmed name is a price column is normalised on its own contents, and every other column is unchanged |
| `ProductTable.Table.constructor` | app.py:80 | a table with the given header, each column in a fresh array |
| `ProductTable.Table.TrimNames` | app.py:74-77 | every column name is replaced by its stripped form |
| `ProductTable.Table.FindColumn` | app.py:91 | the lookup result equals `Locate` on the current header |
| `ProductTable.Table.NormaliseIfPresent` | app.py:90-127 | one turn of the loop: the table afterwards and the raise flag equal one `PriceStep` on the old table |
| `ProductTable.Table.Normalise` | app.py:80-129 | the table afterwards, and whether the call raised, are exactly `Normalised` of the old table |
| `PriceBands.FirstBand` | app.py:151-155 | the early-return scan: a label given is `1000+` for a price of at least 1000, or the label of a band holding the price; no answer means no band holds it and it is below 1000 |
| `PriceBands.PriceBand` | app.py:141-157 | `categorizar_faixa_preco` on a cell: every label it gives is one of the 21 chart labels |
| `PriceBands.BandsAreFiftyWide` | app.py:143-148 | band `i` is `[50i, 50i + 50)` for `i` below 20 |
| `PriceBands.LabelsAreListed` | app.py:638-642 | each band's label is the chart label at the same position |
| `PriceBands.FirstBandFrom` | app.py:151-155 | searching from band `i` on: below 1000 the price lands in band `floor(p/50)`, from 1000 on in `1000+` |
| `PriceBands.FirstBandNegative` | app.py:151-155 | a negative price passes every band and the `1000+` test |
| `PriceBands.BandOfPrice` | app.py:141-157 | for `0 <= p < 1000` the label is `low-high` with `low = 50*floor(p/50)` and `high = low + 50`; from 1000 on it is `1000+`; a negative price has none; every label is a listed one |
| `PriceBands.UnreadableTextInFirstBand` | app.py:149-157 | a text `float()` cannot read is put in `0-50` by the exception handler |
| `Reais.SwapSeparators` | app.py:163 | the three replacements through `X` exchange commas and periods in place on any text without `X`, and keep every other character |
| `Reais.FormatReais` | app.py:161-165 | `formatar_reais`: an amount comes out as `R$ `, the sign, the whole part with `.` between thousands, `,` and two decimals; NaN comes out as `R$ nan`; a value the format rejects is returned unchanged |
| `Reais.SwapKeeps` | app.py:163 | a text without comma, period or `X` passes the three replacements unchanged |
| `Reais.SwapGivesBrazilian` | app.py:163 | the three replacements through `X` turn `R$ ` plus the international spelling into the Brazilian one; no separator is swapped twice |
| `Reais.RegroupSeparator` | app.py:163 | swapping the thousands separator for another non-digit regroups the number with the new separator |
| `Reais.SeparatorRuleOnBrazilian` | app.py:100-108 | the normaliser's separator rule turns a Brazilian spelling into a plain decimal literal |
| `Reais.FixedPointReadsBack` | app.py:111 | the fixed-point text of an amount in cents parses to that amount |
| `Reais.BrazilianTextReadsBack` | app.py:96-111 | the Brazilian spelling of an amount, read by the normaliser's text steps, gives the amount |
| `Reais.FormatReaisRoundTrip` | app.py:161-165 | what the formatter writes for an amount, fed back through the normaliser, is that amount |
| `LaunchFlag.LookupLaunch` | app.py:532-535 | the dictionary lookup finds a text exactly when its stripped, lower-cased form is a yes or a no word, and answers yes exactly for a yes word |
| `LaunchFlag.IsLaunch` | app.py:934-939 | after `fillna(False)` the flag is set exactly when the stripped, lower-cased text is `true`, `sim`, `yes` or `1` |
| `LaunchFlag.LaunchWordsSplit` | app.py:533-536 | the dictionary's keys are the yes words and the no words, which are disjoint, and it says yes exactly on the yes words |
| `WorkedCases.BrazilianThousands` | app.py:83 | `1.200,00` reads as 1200 |
| `WorkedCases.CommaDecimal` | app.py:107-111 | `1200,00` reads as 1200 |
| `WorkedCases.PointDecimal` | app.py:83 | `1200.00` reads as 1200 |
| `WorkedCases.CurrencyPrefixed` | app.py:96-111 | `R$ 50,00` reads as 50 |
| `WorkedCases.EnglishMisread` | app.py:102-104 | `1,200.50` is taken for Brazilian and becomes `1.20050` |
| `WorkedCases.UnreadableSibling` | app.py:96-127 | in the column `[N/A, 1200,00]`, `N/A` becomes missing while the text beside it is still read as 1200, and the column is not scaled |
| `WorkedCases.MixedColumn` | app.py:118-124 | `[5, 5, 200, 300]` is corrected to `[5000, 5000, 200, 300]` |
| `WorkedCases.AllSmallColumn` | app.py:125-127 | `[1, 2, 3]` is corrected to `[1000, 2000, 3000]` |
| `WorkedCases.NoSmallColumn` | app.py:115-127 | `[150, 200, 300]` is left alone |
| `WorkedCases.MiddleColumn` | app.py:115-127 | `[5, 50]` is left alone |
| `WorkedCases.ThresholdEdges` | app.py:118-119 | 10 is not small and 100 is not large |
| `WorkedCases.TwoPriceColumns` | app.py:86-127 | with `Initial_Price = [5, 200]` and `Final_Price = [1, 2]`, each column is corrected on its own values, and the `Name` column is left unchanged |
| `WorkedCases.FormatterThousands` | app.py:161-165 | 1200.00 is written `R$ 1.200,00`, which reads back as 1200 |
| `WorkedCases.LaunchExamples` | app.py:934-939 | `TRUE ` and ` Sim` are launches, while `1.0` and `não` are not |
| `WorkedCases.BandExamples` | app.py:141-157 | 75 is in `50-100`, 1000 is in `1000+`, -1 has no band, and `abc` is in `0-50` |

## Left out

- The user interface, charts, CSS, tabs and widgets. These are presentation calls into libraries that are not part of this model.
- File upload and reading (`pd.read_csv`, `pd.read_excel`), and session-state storage and replacement. This is I/O and framework state.
- The descriptive aggregations: counts, means, minimum and maximum, group-by, pivot and merge, `calcular_metrica_por_categoria`, and discount percentages. These are library calls over floats.
- `Decimal.ParseDecimal`: the full `pd.to_numeric` and `float()` grammar is not modelled. Exponents, `inf`, `nan`, underscores and locale quirks are left out, and so is float64 rounding. Numbers are exact reals. A text such as `1e3` is therefore missing in the model, although the source reads it. Surrounding whitespace is not skipped either: the separator rule can leave a space at the end (`50,00 .` becomes `50.00 `), which the model reads as missing where pandas' parser would skip it and read 50.
- `Prices.ToNumeric`: `astype(str)` rendering of cells that are not text is not modelled. A number or a missing cell passes through the text steps unchanged. This stands for the source's round trip through `str(float)` and `"nan"`.
- `ProductTable.Table.Normalise`: when a price column occurs twice after trimming, the source has already turned those columns to text (app.py:93) before it raises. The model leaves their cells as they were.
- `ProductTable.TrimAll`: column names are taken as texts. A non-text name, which `.str.strip()` turns into NaN, is not modelled.
- `Reais.FormatReais`: amounts are whole cents, so the `.2f` rounding of a float is not modelled. Infinite values are left out too.
- `PriceBands.PriceBand`: `float()` applied to a text is the decimal reader on the stripped text. Texts such as `nan` or `1e3`, which `float()` accepts, go to `0-50` in the model.
- `Strings.Lower`: lower-casing covers ASCII only. An upper-case non-ASCII letter such as `Ã` is not folded. Every text it could affect maps to `False` either way.
- The write of the normalised `Is_Launch` column back into the session table (app.py:934-939). That is UI plumbing; the mapping itself is modelled.
