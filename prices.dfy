/**
 The monetary-value normaliser of one price column (`processar_valores_monetarios`,
 app.py:93-127): currency removal, the comma/period rule, parsing, and the
 column-wide magnitude correction. Cells are texts as read from the sheet,
 numbers, or missing values.
 */
module Prices {
  import opened Wrappers
  import opened Strings
  import opened Decimal

  /**
   A table cell. `Num` stands for a float and `Missing` for NaN; a `Num`
   or `Missing` cell already holds what `astype(str)` followed by
   `pd.to_numeric` gives back, so the text steps leave it alone.
   */
  datatype Cell = Text(text: string) | Num(value: real) | Missing

  /** Values strictly below this are "small" (app.py:118). */
  const SmallLimit: real := 10.0
  /** Values strictly above this are "large" (app.py:119). */
  const LargeLimit: real := 100.0
  /** The factor a value that lost three orders of magnitude is multiplied by (app.py:124, 127). */
  const LostScale: real := 1000.0

  // ---------------------------------------------------------------------------
  // Per-cell text steps
  // ---------------------------------------------------------------------------

  /** Removes `R$` and `r$` wherever they occur, then surrounding whitespace (app.py:96-98). */
  function CleanText(s: string): (r: string)
    ensures r == [] || (!IsSpace(r[0]) && !IsSpace(r[|r| - 1]))
  {
    Strip(Replace(Replace(s, "R$", ""), "r$", ""))
  }

  function RemoveCurrency(c: Cell): Cell
  {
    if c.Text? then Text(CleanText(c.text)) else c
  }

  /** `str.contains(',') & str.contains('\.')` (app.py:102). */
  predicate BrazilianMask(c: Cell)
  {
    c.Text? && ',' in c.text && '.' in c.text
  }

  /** `str.contains(',') & ~str.contains('\.')` (app.py:107). */
  predicate CommaMask(c: Cell)
  {
    c.Text? && ',' in c.text && '.' !in c.text
  }

  /** The masked write `df.loc[mask, col] = df.loc[mask, col].str.replace(pat, rep)` on one cell. */
  function RewriteCell(c: Cell, selected: bool, pat: string, rep: string): Cell
    requires pat != []
  {
    if selected && c.Text? then Text(Replace(c.text, pat, rep)) else c
  }

  /**
   The three-way separator rule as stated for one text: with both a comma and a
   period, periods are thousands separators and the comma is the decimal point;
   with a comma only, the comma is the decimal point; otherwise nothing changes.
   */
  function SeparatorRule(s: string): (r: string)
    ensures ',' !in r
    ensures ',' !in s ==> r == s
  {
    if ',' in s && '.' in s then
      ReplaceCharByNothing(s, '.');
      var t := Replace(s, ".", "");
      ReplaceCharByChar(t, ',', '.');
      Replace(t, ",", ".")
    else if ',' in s then
      ReplaceCharByChar(s, ',', '.');
      Replace(s, ",", ".")
    else s
  }

  /** `pd.to_numeric(errors='coerce')` on one cell: an unreadable text becomes missing (app.py:111). */
  function ToNumeric(c: Cell): (r: Cell)
    ensures r.Num? || r.Missing?
    ensures c.Text? ==> (r.Missing? <==> !IsDecimalLiteral(c.text))
  {
    match c
    case Text(s) => (match ParseDecimal(s) case Some(v) => Num(v) case None => Missing)
    case _ => c
  }

  /** Both masked passes of app.py:102-108, the second mask read after the first rewrite. */
  function SeparatorPasses(c: Cell): (r: Cell)
    ensures r.Text? <==> c.Text?
    ensures !c.Text? ==> r == c
    ensures c.Text? ==> ',' !in r.text
  {
    var s := if c.Text? then c.text else [];
    ReplaceCharByChar(s, ',', '.');
    ReplaceCharByChar(Replace(s, ".", ""), ',', '.');
    var br := BrazilianMask(c);
    var c1 := RewriteCell(RewriteCell(c, br, ".", ""), br, ",", ".");
    RewriteCell(c1, CommaMask(c1), ",", ".")
  }

  /** What the text steps and the parse make of one cell, before the column-wide correction. */
  function ParsedCell(c: Cell): Cell
  {
    ToNumeric(SeparatorPasses(RemoveCurrency(c)))
  }

  /**
   The two passes rewrite each text exactly as the three-way rule says: a text
   the first pass rewrote has no comma left, so the second pass skips it.
   */
  lemma {:induction false} SeparatorPassesFollowRule(s: string)
    ensures SeparatorPasses(Text(s)) == Text(SeparatorRule(s))
  {
    if ',' in s && '.' in s {
      ReplaceCharByNothing(s, '.');
      var t := Replace(s, ".", "");
      ReplaceCharByChar(t, ',', '.');
      var u := Replace(t, ",", ".");
      assert !CommaMask(Text(u));
    } else if ',' in s {
      ReplaceCharByChar(s, ',', '.');
    }
  }

  /** With a comma and a period, the rule drops the periods and then turns the commas into periods. */
  lemma SeparatorRuleOnBoth(s: string)
    requires ',' in s && '.' in s
    ensures SeparatorRule(s) == Replace(Replace(s, ".", ""), ",", ".")
  {
  }

  /** With a comma and no period, the rule turns the commas into periods. */
  lemma SeparatorRuleOnComma(s: string)
    requires ',' in s && '.' !in s
    ensures SeparatorRule(s) == Replace(s, ",", ".")
  {
  }

  /**
   The rule case by case. With a comma and no period, each comma becomes a
   period in place and nothing else moves. With both, the periods are deleted
   (every other character kept, as often as before and in order, see
   `ReplaceCharDeletes`), and in what remains each comma becomes a period in
   place; no comma is left and the text is shorter. Without a comma, nothing
   changes.
   */
  lemma SeparatorRuleCases(s: string)
    ensures ',' in s && '.' !in s ==>
              |SeparatorRule(s)| == |s|
              && forall k :: 0 <= k < |s| ==> SeparatorRule(s)[k] == if s[k] == ',' then '.' else s[k]
    ensures ',' in s && '.' in s ==>
              var t := Replace(s, ".", "");
              && multiset(t) == multiset(s)['.' := 0]
              && |SeparatorRule(s)| == |t| < |s|
              && (forall k :: 0 <= k < |t| ==> SeparatorRule(s)[k] == if t[k] == ',' then '.' else t[k])
              && '.' in SeparatorRule(s) && ',' !in SeparatorRule(s)
              && forall d :: d != ',' && d != '.' ==> (d in SeparatorRule(s) <==> d in s)
    ensures ',' !in s ==> SeparatorRule(s) == s
  {
    if ',' in s && '.' !in s {
      ReplaceCharByChar(s, ',', '.');
    } else if ',' in s {
      ReplaceCharByNothing(s, '.');
      var t := Replace(s, ".", "");
      ReplaceCharByChar(t, ',', '.');
      var k :| 0 <= k < |t| && t[k] == ',';
      assert SeparatorRule(s)[k] == '.';
      ReplaceShrinks(s, '.');
    }
  }

  /** A leading `R$ ` is removed with its space when the rest holds no `R`, `r` or surrounding whitespace. */
  lemma CleanCurrencyPrefix(body: string)
    requires 'R' !in body && 'r' !in body
    requires body == [] || (!IsSpace(body[0]) && !IsSpace(body[|body| - 1]))
    ensures CleanText("R$ " + body) == body
  {
    var s := "R$ " + body;
    assert s[..2] == "R$" && s[2..] == " " + body;
    ReplaceAbsent(body, "R$", "");
    if body != [] {
      assert (" " + body)[..2] != "R$";
      assert (" " + body)[1..] == body;
    }
    assert Replace(s, "R$", "") == " " + body;
    ReplaceAbsent(" " + body, "r$", "");
    StripSpacePrefix(" ", body);
  }

  /**
   A currency sign is removed wherever it stands, at the front, in the middle
   or at the end, in either spelling; only whitespace at the ends is trimmed
   afterwards.
   */
  lemma CleanCurrencyAnywhere(x: string, y: string)
    requires '$' !in x && '$' !in y
    ensures CleanText(x + "R$" + y) == Strip(x + y)
    ensures CleanText(x + "r$" + y) == Strip(x + y)
  {
    ReplaceAroundMark(x, y, 'R', 'R', '$', "");
    ReplaceAroundMark(x, y, 'R', 'r', '$', "");
    ReplaceAroundMark(x, y, 'r', 'r', '$', "");
    assert x + "R$" + y == x + ['R', '$'] + y;
    assert x + "r$" + y == x + ['r', '$'] + y;
    assert x + [] + y == x + y;
    ReplaceNoSecond(x + y, "r$", "");
  }

  /** The text pipeline applied to one text, as the rule states it. */
  lemma ParsedText(s: string)
    ensures ParsedCell(Text(s)) == ToNumeric(Text(SeparatorRule(CleanText(s))))
  {
    SeparatorPassesFollowRule(CleanText(s));
  }

  /** A text whose cleaned form, after the separator rule, is a literal for `v` is read as `v`. */
  lemma ParsedTextAs(s: string, v: real)
    requires ParseDecimal(SeparatorRule(CleanText(s))) == Some(v)
    ensures ParsedCell(Text(s)) == Num(v)
  {
    ParsedText(s);
  }

  /** The parse fails exactly on cells whose cleaned text is not a decimal literal. */
  lemma ParsedCellMissing(c: Cell)
    ensures ParsedCell(c).Missing? <==>
              (c.Missing? || (c.Text? && !IsDecimalLiteral(SeparatorRule(CleanText(c.text)))))
  {
    if c.Text? {
      ParsedText(c.text);
    }
  }

  // ---------------------------------------------------------------------------
  // Column-wide magnitude correction
  // ---------------------------------------------------------------------------

  /** Some parsed value of the column is below `t`. */
  predicate HasValueBelow(col: seq<Cell>, t: real)
  {
    exists k :: 0 <= k < |col| && col[k].Num? && col[k].value < t
  }

  /** Some parsed value of the column is above `t`. */
  predicate HasValueAbove(col: seq<Cell>, t: real)
  {
    exists k :: 0 <= k < |col| && col[k].Num? && col[k].value > t
  }

  /** The column has at least one parsed value (`len(valores_validos) > 0`). */
  predicate HasValue(col: seq<Cell>)
  {
    exists k :: 0 <= k < |col| && col[k].Num?
  }

  /** Every parsed value of the column is below `t`. */
  predicate AllValuesBelow(col: seq<Cell>, t: real)
  {
    forall k :: 0 <= k < |col| && col[k].Num? ==> col[k].value < t
  }

  function ScaleCell(c: Cell): Cell
  {
    if c.Num? then Num(c.value * LostScale) else c
  }

  function ScaleIfSmall(c: Cell): Cell
  {
    if c.Num? && c.value < SmallLimit then Num(c.value * LostScale) else c
  }

  /**
   The magnitude correction of app.py:115-127: with small and large values
   mixed, only the small ones are scaled; when every parsed value is small,
   all of them are; otherwise the column is kept.
   */
  function CorrectMagnitude(col: seq<Cell>): (r: seq<Cell>)
    ensures |r| == |col|
    ensures forall k :: 0 <= k < |col| ==> r[k] == col[k] || r[k] == ScaleCell(col[k])
  {
    if HasValueBelow(col, SmallLimit) && HasValueAbove(col, LargeLimit) then
      seq(|col|, k requires 0 <= k < |col| => ScaleIfSmall(col[k]))
    else if HasValue(col) && AllValuesBelow(col, SmallLimit) then
      seq(|col|, k requires 0 <= k < |col| => ScaleCell(col[k]))
    else col
  }

  /** What `processar_valores_monetarios` makes of one price column. */
  function NormalisedColumn(col: seq<Cell>): (r: seq<Cell>)
    ensures |r| == |col|
    ensures forall k :: 0 <= k < |col| ==> r[k].Num? || r[k].Missing?
  {
    CorrectMagnitude(seq(|col|, k requires 0 <= k < |col| => ParsedCell(col[k])))
  }

  /** The correction never creates or removes a missing value, and a cell it changes was a small number now multiplied by 1000. */
  lemma CorrectMagnitudeCell(col: seq<Cell>, k: nat)
    requires k < |col|
    ensures CorrectMagnitude(col)[k].Missing? <==> col[k].Missing?
    ensures CorrectMagnitude(col)[k].Num? <==> col[k].Num?
    ensures CorrectMagnitude(col)[k] != col[k] ==>
              col[k].Num? && col[k].value < SmallLimit && CorrectMagnitude(col)[k] == Num(col[k].value * LostScale)
  {
  }

  /** Mixed small and large values: exactly the values below 10 (zero and negatives included) are scaled. */
  lemma MixedColumnScalesSmallOnly(col: seq<Cell>)
    requires HasValueBelow(col, SmallLimit) && HasValueAbove(col, LargeLimit)
    ensures forall k :: 0 <= k < |col| ==>
              CorrectMagnitude(col)[k] == if col[k].Num? && col[k].value < SmallLimit
                                          then Num(col[k].value * LostScale) else col[k]
  {
  }

  /** Every parsed value small: every parsed value is scaled, missing cells stay missing. */
  lemma AllSmallColumnScalesAll(col: seq<Cell>)
    requires HasValue(col) && AllValuesBelow(col, SmallLimit)
    ensures forall k :: 0 <= k < |col| ==>
              CorrectMagnitude(col)[k] == if col[k].Num? then Num(col[k].value * LostScale) else col[k]
  {
    assert !HasValueAbove(col, LargeLimit);
  }

  /** No small value, no parsed value, or small values beside a value in [10, 100] and none above 100: nothing changes. */
  lemma CorrectMagnitudeKeeps(col: seq<Cell>)
    requires || !HasValueBelow(col, SmallLimit)
             || (!HasValueAbove(col, LargeLimit) && !AllValuesBelow(col, SmallLimit))
    ensures CorrectMagnitude(col) == col
  {
    if HasValueBelow(col, SmallLimit) {
      // some value is at least 10, so not every value is small
    } else if HasValue(col) {
      var k :| 0 <= k < |col| && col[k].Num?;
      assert !(col[k].value < SmallLimit);
    }
  }

  /** After a correction that leaves no value below 10, a second correction changes nothing. */
  lemma CorrectMagnitudeStable(col: seq<Cell>)
    requires !HasValueBelow(CorrectMagnitude(col), SmallLimit)
    ensures CorrectMagnitude(CorrectMagnitude(col)) == CorrectMagnitude(col)
  {
    CorrectMagnitudeKeeps(CorrectMagnitude(col));
  }

  /** The correction is not idempotent in general: a value below 0.01 stays small after one scaling. */
  lemma CorrectMagnitudeNotIdempotent()
    ensures CorrectMagnitude([Num(0.001)]) == [Num(1.0)]
    ensures CorrectMagnitude(CorrectMagnitude([Num(0.001)])) == [Num(1000.0)]
  {
    var c := [Num(0.001)];
    assert c[0].Num?;
    assert HasValue(c) && AllValuesBelow(c, SmallLimit);
    var d := CorrectMagnitude(c);
    assert d == [Num(1.0)];
    assert d[0].Num? && d[0].value < SmallLimit;
    assert HasValue(d) && AllValuesBelow(d, SmallLimit);
  }

  /** The missing cells after the call are exactly the cells whose text failed to parse (or were missing already). */
  lemma NormalisedColumnMissing(col: seq<Cell>, k: nat)
    requires k < |col|
    ensures NormalisedColumn(col)[k].Missing? <==>
              (col[k].Missing? || (col[k].Text? && !IsDecimalLiteral(SeparatorRule(CleanText(col[k].text)))))
    ensures NormalisedColumn(col)[k].Num? || NormalisedColumn(col)[k].Missing?
  {
    var parsed := seq(|col|, j requires 0 <= j < |col| => ParsedCell(col[j]));
    CorrectMagnitudeCell(parsed, k);
    ParsedCellMissing(col[k]);
  }

  // ---------------------------------------------------------------------------
  // The in-place passes over a column, as the source runs them
  // ---------------------------------------------------------------------------

  /** `astype(str)`, both currency replacements and `str.strip()` over the whole column (app.py:93-98). */
  method RemoveCurrencyInPlace(a: array<Cell>)
    modifies a
    ensures forall k :: 0 <= k < a.Length ==> a[k] == RemoveCurrency(old(a[k]))
  {
    for i := 0 to a.Length
      invariant forall k :: 0 <= k < i ==> a[k] == RemoveCurrency(old(a[k]))
      invariant forall k :: i <= k < a.Length ==> a[k] == old(a[k])
    {
      a[i] := RemoveCurrency(a[i]);
    }
  }

  /** The Brazilian-format mask of app.py:102, evaluated on the current column. */
  method BrazilianMaskOf(a: array<Cell>) returns (mask: seq<bool>)
    ensures |mask| == a.Length
    ensures forall k :: 0 <= k < a.Length ==> (mask[k] <==> a[k].Text? && ',' in a[k].text && '.' in a[k].text)
  {
    mask := [];
    for i := 0 to a.Length
      invariant |mask| == i
      invariant forall k :: 0 <= k < i ==> (mask[k] <==> BrazilianMask(a[k]))
    {
      mask := mask + [BrazilianMask(a[i])];
    }
  }

  /** The comma-only mask of app.py:107, evaluated on the current column. */
  method CommaMaskOf(a: array<Cell>) returns (mask: seq<bool>)
    ensures |mask| == a.Length
    ensures forall k :: 0 <= k < a.Length ==> (mask[k] <==> a[k].Text? && ',' in a[k].text && '.' !in a[k].text)
  {
    mask := [];
    for i := 0 to a.Length
      invariant |mask| == i
      invariant forall k :: 0 <= k < i ==> (mask[k] <==> CommaMask(a[k]))
    {
      mask := mask + [CommaMask(a[i])];
    }
  }

  /** `df.loc[mask, col] = df.loc[mask, col].str.replace(pat, rep, regex=False)`. */
  method RewriteWhere(a: array<Cell>, mask: seq<bool>, pat: string, rep: string)
    requires |mask| == a.Length && pat != []
    modifies a
    ensures forall k :: 0 <= k < a.Length ==> a[k] == RewriteCell(old(a[k]), mask[k], pat, rep)
  {
    for i := 0 to a.Length
      invariant forall k :: 0 <= k < i ==> a[k] == RewriteCell(old(a[k]), mask[k], pat, rep)
      invariant forall k :: i <= k < a.Length ==> a[k] == old(a[k])
    {
      a[i] := RewriteCell(a[i], mask[i], pat, rep);
    }
  }

  /** `df[col] = pd.to_numeric(df[col], errors='coerce')` (app.py:111). */
  method ToNumericInPlace(a: array<Cell>)
    modifies a
    ensures forall k :: 0 <= k < a.Length ==> a[k] == ToNumeric(old(a[k]))
  {
    for i := 0 to a.Length
      invariant forall k :: 0 <= k < i ==> a[k] == ToNumeric(old(a[k]))
      invariant forall k :: i <= k < a.Length ==> a[k] == old(a[k])
    {
      var parsed := ToNumeric(a[i]);
      a[i] := parsed;
    }
  }

  /**
   One pass over the parsed values (`dropna`, `len`, `(< 10).any()`,
   `(> 100).any()`, `max()`, app.py:115-125). `top` is meaningful only when
   `found` holds.
   */
  method ScanValues(a: array<Cell>) returns (found: bool, small: bool, large: bool, top: real)
    ensures found <==> HasValue(a[..])
    ensures small <==> HasValueBelow(a[..], SmallLimit)
    ensures large <==> HasValueAbove(a[..], LargeLimit)
    ensures found ==> (top < SmallLimit <==> AllValuesBelow(a[..], SmallLimit))
  {
    found, small, large, top := false, false, false, 0.0;
    for i := 0 to a.Length
      invariant found <==> HasValue(a[..i])
      invariant small <==> HasValueBelow(a[..i], SmallLimit)
      invariant large <==> HasValueAbove(a[..i], LargeLimit)
      invariant found ==> (exists k :: 0 <= k < i && a[k].Num? && a[k].value == top)
      invariant found ==> forall k :: 0 <= k < i && a[k].Num? ==> a[k].value <= top
    {
      assert a[..i + 1] == a[..i] + [a[i]];
      if a[i].Num? {
        var v := a[i].value;
        if !found || v > top {
          top := v;
        }
        found := true;
        small := small || v < SmallLimit;
        large := large || v > LargeLimit;
      }
    }
    assert a[..a.Length] == a[..];
    if found {
      var m :| 0 <= m < a.Length && a[m].Num? && a[m].value == top;
      assert a[..][m] == a[m];
    }
  }

  /** The magnitude correction written into the column (app.py:115-127). */
  method CorrectMagnitudeInPlace(a: array<Cell>)
    modifies a
    ensures a[..] == CorrectMagnitude(old(a[..]))
  {
    var found, small, large, top := ScanValues(a);
    if found {
      if small && large {
        for i := 0 to a.Length
          invariant forall k :: 0 <= k < i ==> a[k] == ScaleIfSmall(old(a[k]))
          invariant forall k :: i <= k < a.Length ==> a[k] == old(a[k])
        {
          a[i] := ScaleIfSmall(a[i]);
        }
      } else if top < SmallLimit {
        for i := 0 to a.Length
          invariant forall k :: 0 <= k < i ==> a[k] == ScaleCell(old(a[k]))
          invariant forall k :: i <= k < a.Length ==> a[k] == old(a[k])
        {
          a[i] := ScaleCell(a[i]);
        }
      }
    }
  }

  /** The whole per-column normalisation, pass by pass (app.py:93-127). */
  method NormaliseColumn(a: array<Cell>)
    modifies a
    ensures a[..] == NormalisedColumn(old(a[..]))
  {
    ghost var original := a[..];
    RemoveCurrencyInPlace(a);
    ghost var cleaned := a[..];
    var brazilian := BrazilianMaskOf(a);
    RewriteWhere(a, brazilian, ".", "");
    RewriteWhere(a, brazilian, ",", ".");
    var commaOnly := CommaMaskOf(a);
    RewriteWhere(a, commaOnly, ",", ".");
    ghost var separated := a[..];
    assert forall k :: 0 <= k < a.Length ==> separated[k] == SeparatorPasses(cleaned[k]);
    ToNumericInPlace(a);
    ghost var parsed := a[..];
    assert parsed == seq(|original|, k requires 0 <= k < |original| => ParsedCell(original[k]));
    CorrectMagnitudeInPlace(a);
  }
}
