/**
 The Brazilian-real formatter `formatar_reais` (app.py:161-165): Python's
 `f"R$ {valor:,.2f}"` followed by the separator swap through the placeholder
 `X`. Amounts are whole cents, so the two-decimal rounding is exact.
 */
module Reais {
  import opened Wrappers
  import opened Strings
  import opened Decimal
  import opened Prices

  /** What the dashboard hands to the formatter: an amount in cents, NaN (the mean of no rows), or a value that is not a number. */
  datatype Amount = Cents(cents: int) | NaN | NonNumeric(text: string)

  /** The formatter's result: a text, or the value itself when formatting raises. */
  datatype Display = Formatted(text: string) | Unchanged(original: Amount)

  /** The amount without its sign. */
  function Magnitude(c: int): (m: nat)
    ensures m == c || m == -c
  {
    if c < 0 then -c else c
  }

  /** The minus sign the format writes before a negative amount. */
  function SignText(c: int): (s: string)
    ensures s == "" || s == "-"
  {
    if c < 0 then "-" else ""
  }

  /** The two decimals of an amount in cents. */
  function CentsText(c: int): (r: string)
    ensures |r| == 2 && AllDigits(r)
  {
    TwoDigits(Magnitude(c) % 100)
  }

  /** The last three decimal digits of `n`, zero-padded. */
  function LastThree(n: nat): (r: string)
    ensures |r| == 3 && AllDigits(r)
  {
    [DigitChar(n / 100 % 10), DigitChar(n / 10 % 10), DigitChar(n % 10)]
  }

  /** `n` in decimal with `sep` between groups of three digits, as the `,` format option writes it. */
  function Grouped(n: nat, sep: char): (r: string)
    ensures r != [] && IsDigit(r[0])
    ensures forall k :: 0 <= k < |r| ==> IsDigit(r[k]) || r[k] == sep
  {
    if n < 1000 then NatToString(n) else Grouped(n / 1000, sep) + [sep] + LastThree(n)
  }

  /** `f"{c / 100:,.2f}"`: optional minus, grouped whole part, period, two decimals. */
  function FixedTwo(c: int): string
  {
    SignText(c) + Grouped(Magnitude(c) / 100, ',') + "." + CentsText(c)
  }

  /** `.replace(",", "X").replace(".", ",").replace("X", ".")` (app.py:163). */
  function SwapSeparators(s: string): (r: string)
    ensures 'X' !in s ==>
              |r| == |s|
              && forall k :: 0 <= k < |s| ==> r[k] == if s[k] == ',' then '.' else if s[k] == '.' then ',' else s[k]
  {
    var a := Replace(s, ",", "X");
    ReplaceCharByChar(s, ',', 'X');
    var b := Replace(a, ".", ",");
    ReplaceCharByChar(a, '.', ',');
    ReplaceCharByChar(b, 'X', '.');
    Replace(b, "X", ".")
  }

  /**
   `formatar_reais`: a number is formatted, and comes out as `R$ `, the sign,
   the whole part with `.` between thousands, `,` and two decimals; anything
   else makes the format raise and comes back unchanged.
   */
  function FormatReais(a: Amount): (d: Display)
    ensures a.Cents? ==> d == Formatted(BrazilianText(a.cents))
    ensures a.NaN? ==> d == Formatted("R$ nan")
    ensures a.NonNumeric? ==> d == Unchanged(a)
  {
    match a
    case Cents(c) => SwapGivesBrazilian(c); Formatted(SwapSeparators("R$ " + FixedTwo(c)))
    case NaN => SwapKeeps("R$ nan"); Formatted(SwapSeparators("R$ nan"))
    case NonNumeric(_) => Unchanged(a)
  }

  /** A text with no comma, period or `X` goes through the swap unchanged. */
  lemma SwapKeeps(s: string)
    requires ',' !in s && '.' !in s && 'X' !in s
    ensures SwapSeparators(s) == s
  {
    ReplaceAbsent(s, ",", "X");
    ReplaceAbsent(s, ".", ",");
    ReplaceAbsent(s, "X", ".");
  }

  /** The Brazilian spelling the formatter is meant to produce: `.` between thousands, `,` before the cents. */
  function BrazilianText(c: int): string
  {
    "R$ " + SignText(c) + Grouped(Magnitude(c) / 100, '.') + "," + CentsText(c)
  }

  lemma NatToStringThousands(n: nat)
    requires n >= 1000
    ensures NatToString(n) == NatToString(n / 1000) + LastThree(n)
  {
    var a, b := n / 10, n / 100;
    assert a / 10 == b && b / 10 == n / 1000;
    assert NatToString(n) == NatToString(a) + [DigitChar(n % 10)];
    assert NatToString(a) == NatToString(b) + [DigitChar(a % 10)];
    assert NatToString(b) == NatToString(b / 10) + [DigitChar(b % 10)];
  }

  /** Swapping the group separator for another non-digit regroups with the new one. */
  lemma {:induction false} RegroupSeparator(n: nat, a: char, b: char)
    requires !IsDigit(a)
    ensures Replace(Grouped(n, a), [a], [b]) == Grouped(n, b)
  {
    if n < 1000 {
      DigitsLack(NatToString(n), a);
      ReplaceAbsent(NatToString(n), [a], [b]);
    } else {
      RegroupSeparator(n / 1000, a, b);
      DigitsLack(LastThree(n), a);
      ReplaceAbsent(LastThree(n), [a], [b]);
      ReplaceCharConcat(Grouped(n / 1000, a) + [a], LastThree(n), a, [b]);
      ReplaceCharConcat(Grouped(n / 1000, a), [a], a, [b]);
    }
  }

  /** Deleting the group separators gives the plain decimal spelling. */
  lemma {:induction false} Ungroup(n: nat, a: char)
    requires !IsDigit(a)
    ensures Replace(Grouped(n, a), [a], []) == NatToString(n)
  {
    if n < 1000 {
      DigitsLack(NatToString(n), a);
      ReplaceAbsent(NatToString(n), [a], []);
    } else {
      Ungroup(n / 1000, a);
      DigitsLack(LastThree(n), a);
      ReplaceAbsent(LastThree(n), [a], []);
      ReplaceCharConcat(Grouped(n / 1000, a) + [a], LastThree(n), a, []);
      ReplaceCharConcat(Grouped(n / 1000, a), [a], a, []);
      NatToStringThousands(n);
    }
  }

  /** A grouped number holds its separator exactly when it has more than three digits. */
  lemma {:induction false} GroupedHasSeparator(n: nat, a: char)
    requires !IsDigit(a)
    ensures a in Grouped(n, a) <==> n >= 1000
  {
    if n < 1000 {
      DigitsLack(NatToString(n), a);
    } else {
      assert Grouped(n, a)[|Grouped(n / 1000, a)|] == a;
    }
  }

  /** A grouped number holds no non-digit other than its separator. */
  lemma GroupedLacks(n: nat, sep: char, c: char)
    requires !IsDigit(c) && c != sep
    ensures c !in Grouped(n, sep)
  {
  }

  /** Replacing a character that a piece does not hold leaves that piece alone. */
  lemma KeepPiece(s: string, c: char, rep: string)
    requires c !in s
    ensures Replace(s, [c], rep) == s
  {
    ReplaceAbsent(s, [c], rep);
  }

  /**
   The first and third passes: the group separator `a` becomes `b`, while the
   mark `m` before the cents, the prefix and the cents are kept.
   */
  lemma RegroupPass(prefix: string, n: nat, m: char, cents: string, a: char, b: char)
    requires a !in prefix && AllDigits(cents) && !IsDigit(a) && m != a
    ensures Replace(prefix + Grouped(n, a) + [m] + cents, [a], [b]) == prefix + Grouped(n, b) + [m] + cents
  {
    ReplaceCharConcat4(prefix, Grouped(n, a), [m], cents, a, [b]);
    DigitsLack(cents, a);
    KeepPiece(prefix, a, [b]); KeepPiece(cents, a, [b]);
    ReplaceOther(m, a, [b]);
    RegroupSeparator(n, a, b);
  }

  /** Second pass: the decimal period becomes `,`; the `X` groups hold no period. */
  lemma SwapSecondPass(prefix: string, n: nat, cents: string)
    requires '.' !in prefix && AllDigits(cents)
    ensures Replace(prefix + Grouped(n, 'X') + "." + cents, ".", ",") == prefix + Grouped(n, 'X') + "," + cents
  {
    ReplaceCharConcat4(prefix, Grouped(n, 'X'), ".", cents, '.', ",");
    DigitsLack(cents, '.');
    KeepPiece(prefix, '.', ","); KeepPiece(cents, '.', ",");
    GroupedLacks(n, 'X', '.');
    KeepPiece(Grouped(n, 'X'), '.', ",");
    ReplaceOwn('.', ",");
  }

  /** The swap through `X` turns the international spelling into the Brazilian one; no separator is swapped twice. */
  lemma SwapGivesBrazilian(c: int)
    ensures SwapSeparators("R$ " + FixedTwo(c)) == BrazilianText(c)
  {
    var n, cents := Magnitude(c) / 100, CentsText(c);
    var prefix := "R$ " + SignText(c);
    assert "R$ " + FixedTwo(c) == prefix + Grouped(n, ',') + "." + cents;
    assert BrazilianText(c) == prefix + Grouped(n, '.') + "," + cents;
    RegroupPass(prefix, n, '.', cents, ',', 'X');
    SwapSecondPass(prefix, n, cents);
    RegroupPass(prefix, n, ',', cents, 'X', '.');
  }

  /** Dropping the thousands periods of a Brazilian spelling. */
  lemma DropThousands(sign: string, n: nat, cents: string)
    requires sign == "" || sign == "-"
    requires AllDigits(cents)
    ensures Replace(sign + Grouped(n, '.') + "," + cents, ".", "") == sign + NatToString(n) + "," + cents
  {
    ReplaceCharConcat4(sign, Grouped(n, '.'), ",", cents, '.', "");
    DigitsLack(cents, '.');
    KeepPiece(sign, '.', ""); ReplaceOther(',', '.', ""); KeepPiece(cents, '.', "");
    Ungroup(n, '.');
  }

  /** Turning the decimal comma into a period, when the rest holds no comma. */
  lemma CommaToPoint(sign: string, digits: string, cents: string)
    requires sign == "" || sign == "-"
    requires ',' !in digits && AllDigits(cents)
    ensures Replace(sign + digits + "," + cents, ",", ".") == sign + digits + "." + cents
  {
    ReplaceCharConcat4(sign, digits, ",", cents, ',', ".");
    DigitsLack(cents, ',');
    KeepPiece(sign, ',', "."); KeepPiece(digits, ',', "."); KeepPiece(cents, ',', ".");
    ReplaceOwn(',', ".");
  }

  /** The normaliser's separator rule turns the Brazilian spelling back into a plain decimal literal. */
  lemma SeparatorRuleOnBrazilian(sign: string, n: nat, cents: string)
    requires sign == "" || sign == "-"
    requires AllDigits(cents)
    ensures SeparatorRule(sign + Grouped(n, '.') + "," + cents) == sign + NatToString(n) + "." + cents
  {
    var g := Grouped(n, '.');
    var body := sign + g + "," + cents;
    GroupedHasSeparator(n, '.');
    if n >= 1000 {
      assert ',' in body && '.' in body by {
        InConcat4(sign, g, ",", cents, ',');
        InConcat4(sign, g, ",", cents, '.');
      }
      SeparatorRuleOnBoth(body);
      DropThousands(sign, n, cents);
      DigitsLack(NatToString(n), ',');
      CommaToPoint(sign, NatToString(n), cents);
    } else {
      assert ',' in body && '.' !in body by {
        DigitsLack(cents, '.');
        InConcat4(sign, g, ",", cents, ',');
        InConcat4(sign, g, ",", cents, '.');
      }
      SeparatorRuleOnComma(body);
      assert g == NatToString(n);
      DigitsLack(g, ',');
      CommaToPoint(sign, g, cents);
    }
  }

  /** An amount in cents as the signed fixed-point number `whole.ff`. */
  lemma CentsAsFixedPoint(c: int)
    ensures var m := Magnitude(c);
            var v := (m / 100) as real + (m % 100) as real / 100.0;
            c as real / 100.0 == if c < 0 then -v else v
  {
    var m := Magnitude(c);
    assert m == 100 * (m / 100) + m % 100;
  }

  /** The plain fixed-point spelling `[-]whole.ff` of an amount in cents. */
  function FixedPointText(c: int): string
  {
    SignText(c) + NatToString(Magnitude(c) / 100) + "." + CentsText(c)
  }

  /** The plain fixed-point text of an amount reads as the amount. */
  lemma FixedPointReadsBack(c: int)
    ensures ParseDecimal(FixedPointText(c)) == Some(c as real / 100.0)
  {
    var m := Magnitude(c);
    ParseFixedPoint(c < 0, m / 100, m % 100);
    assert FixedPointText(c) == (if c < 0 then "-" else "") + NatToString(m / 100) + "." + TwoDigits(m % 100);
    CentsAsFixedPoint(c);
  }

  /** The text after `R$ ` holds no `R` or `r` and neither starts nor ends with whitespace. */
  lemma BrazilianBodyPlain(sign: string, n: nat, cents: string)
    requires sign == "" || sign == "-"
    requires AllDigits(cents) && |cents| == 2
    ensures var body := sign + Grouped(n, '.') + "," + cents;
            'R' !in body && 'r' !in body && !IsSpace(body[0]) && !IsSpace(body[|body| - 1])
  {
    var body := sign + Grouped(n, '.') + "," + cents;
    DigitsLack(cents, 'R'); DigitsLack(cents, 'r');
    assert forall k :: 0 <= k < |body| ==> IsDigit(body[k]) || body[k] in ".,-";
    assert !IsSpace(body[0]) by {
      if sign == "" { assert body[0] == Grouped(n, '.')[0]; }
    }
    assert IsDigit(body[|body| - 1]);
  }

  /** Currency removal strips `R$ ` from the Brazilian spelling. */
  lemma BrazilianTextCleans(c: int)
    ensures CleanText(BrazilianText(c)) == SignText(c) + Grouped(Magnitude(c) / 100, '.') + "," + CentsText(c)
  {
    var body := SignText(c) + Grouped(Magnitude(c) / 100, '.') + "," + CentsText(c);
    assert BrazilianText(c) == "R$ " + body;
    BrazilianBodyPlain(SignText(c), Magnitude(c) / 100, CentsText(c));
    CleanCurrencyPrefix(body);
  }

  /** The separator rule turns the cleaned Brazilian spelling into the fixed-point spelling. */
  lemma BrazilianTextSeparated(c: int)
    ensures SeparatorRule(CleanText(BrazilianText(c))) == FixedPointText(c)
  {
    BrazilianTextCleans(c);
    SeparatorRuleOnBrazilian(SignText(c), Magnitude(c) / 100, CentsText(c));
  }

  /** The Brazilian spelling of an amount, read by the normaliser's text steps, gives the amount back. */
  lemma BrazilianTextReadsBack(c: int)
    ensures ParsedCell(Text(BrazilianText(c))) == Num(c as real / 100.0)
  {
    BrazilianTextParsesAsFixedPoint(c);
    FixedPointNumeric(c);
  }

  /** The normaliser reads the Brazilian spelling as it reads the plain fixed-point spelling. */
  lemma BrazilianTextParsesAsFixedPoint(c: int)
    ensures ParsedCell(Text(BrazilianText(c))) == ToNumeric(Text(FixedPointText(c)))
  {
    BrazilianTextSeparated(c);
    ParsedText(BrazilianText(c));
  }

  /** The parse turns the fixed-point spelling into the amount. */
  lemma FixedPointNumeric(c: int)
    ensures ToNumeric(Text(FixedPointText(c))) == Num(c as real / 100.0)
  {
    FixedPointReadsBack(c);
  }

  /** What the formatter writes, fed back through the normaliser, is the amount it was given. */
  lemma FormatReaisRoundTrip(c: int)
    ensures FormatReais(Cents(c)).Formatted?
    ensures ParsedCell(Text(FormatReais(Cents(c)).text)) == Num(c as real / 100.0)
  {
    BrazilianTextReadsBack(c);
  }
}
