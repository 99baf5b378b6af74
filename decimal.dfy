/**
 The decimal-literal reader that stands for `pd.to_numeric(..., errors='coerce')`
 and for Python's `float(text)` on the texts the dashboard produces: an optional
 sign, then decimal digits with at most one period and at least one digit.
 A text outside that grammar gives `None`, which the callers turn into a
 missing value.
 */
module Decimal {
  import opened Wrappers
  import opened Strings

  function Pow10(n: nat): (p: nat)
    ensures p > 0
  {
    if n == 0 then 1 else 10 * Pow10(n - 1)
  }

  /** Position of the first `c` in `s`. */
  function IndexOf(s: string, c: char): (i: nat)
    requires c in s
    ensures i < |s| && s[i] == c && c !in s[..i]
  {
    if s[0] == c then 0
    else
      var i := 1 + IndexOf(s[1..], c);
      assert s[..i] == [s[0]] + s[1..][..i - 1];
      i
  }

  /** `s` without one leading sign character. */
  function Unsigned(s: string): (b: string)
    ensures |b| <= |s|
  {
    if s != [] && (s[0] == '-' || s[0] == '+') then s[1..] else s
  }

  /** The accepted grammar, stated on characters: `[+-]? (digit | '.')*` with at most one period and some digit. */
  predicate IsDecimalLiteral(s: string)
  {
    var b := Unsigned(s);
    && (forall k :: 0 <= k < |b| ==> IsDigit(b[k]) || b[k] == '.')
    && (exists k :: 0 <= k < |b| && IsDigit(b[k]))
    && (forall i, j :: 0 <= i < j < |b| && b[i] == '.' ==> b[j] != '.')
  }

  /** The number `whole.frac` where `frac` is written with `places` digits. */
  function PointValue(whole: nat, frac: nat, places: nat): real
  {
    whole as real + frac as real / Pow10(places) as real
  }

  /** The value of an unsigned literal: integer digits, and optionally a period and fraction digits. */
  function UnsignedValue(b: string): Option<real>
  {
    if '.' !in b then
      if b != [] && AllDigits(b) then Some(DigitsValue(b) as real) else None
    else
      var i := IndexOf(b, '.');
      var whole, frac := b[..i], b[i + 1..];
      if AllDigits(whole) && AllDigits(frac) && |whole| + |frac| > 0
      then Some(PointValue(DigitsValue(whole), DigitsValue(frac), |frac|))
      else None
  }

  /** Reads `s` as a decimal number; `None` exactly when `s` is not a decimal literal. */
  function ParseDecimal(s: string): (r: Option<real>)
    ensures r.Some? <==> IsDecimalLiteral(s)
  {
    var v := UnsignedValue(Unsigned(s));
    UnsignedAccepts(Unsigned(s));
    if s != [] && s[0] == '-' && v.Some? then Some(-v.value) else v
  }

  lemma UnsignedAccepts(b: string)
    ensures UnsignedValue(b).Some? <==>
              && (forall k :: 0 <= k < |b| ==> IsDigit(b[k]) || b[k] == '.')
              && (exists k :: 0 <= k < |b| && IsDigit(b[k]))
              && (forall i, j :: 0 <= i < j < |b| && b[i] == '.' ==> b[j] != '.')
  {
    if '.' !in b {
      if b != [] && AllDigits(b) {
        assert IsDigit(b[0]);
      }
    } else {
      var i := IndexOf(b, '.');
      var whole, frac := b[..i], b[i + 1..];
      assert forall k :: 0 <= k < i ==> b[k] == whole[k];
      assert forall k :: i < k < |b| ==> b[k] == frac[k - i - 1];
      if AllDigits(whole) && AllDigits(frac) && |whole| + |frac| > 0 {
        if |whole| > 0 {
          assert IsDigit(b[0]);
        } else {
          assert IsDigit(b[i + 1]);
        }
        forall i', j' | 0 <= i' < j' < |b| && b[i'] == '.'
          ensures b[j'] != '.'
        {
          assert i' == i;
        }
      }
    }
  }

  /** The spelling of a natural number reads back as that number. */
  lemma ParseNat(n: nat)
    ensures ParseDecimal(NatToString(n)) == Some(n as real)
  {
    var s := NatToString(n);
    assert '.' !in s by {
      forall k | 0 <= k < |s| ensures s[k] != '.' {
        assert IsDigit(s[k]);
      }
    }
    NatToStringValue(n);
  }

  /** `whole.frac` with digit strings on both sides reads as `whole + frac / 10^|frac|`. */
  lemma UnsignedPointValue(w: string, f: string)
    requires AllDigits(w) && AllDigits(f) && |w| > 0
    ensures UnsignedValue(w + "." + f)
            == Some(PointValue(DigitsValue(w), DigitsValue(f), |f|))
  {
    var b := w + "." + f;
    assert '.' !in w by {
      forall k | 0 <= k < |w| ensures w[k] != '.' {
        assert IsDigit(w[k]);
      }
    }
    assert b[|w|] == '.';
    var i := IndexOf(b, '.');
    assert i == |w|;
    assert b[..i] == w && b[i + 1..] == f;
  }

  /** A leading minus negates the reading of an unsigned literal that starts with a digit. */
  lemma ParseSign(negative: bool, b: string, m: real)
    requires b != [] && IsDigit(b[0]) && UnsignedValue(b) == Some(m)
    ensures ParseDecimal((if negative then "-" else "") + b) == Some(if negative then -m else m)
  {
    if negative {
      ParseNegated(b, m);
    } else {
      assert b[0] != '-' && b[0] != '+';
      assert "" + b == b && Unsigned(b) == b;
    }
  }

  lemma ParseNegated(b: string, m: real)
    requires b != [] && UnsignedValue(b) == Some(m)
    ensures ParseDecimal("-" + b) == Some(-m)
  {
    var s := "-" + b;
    assert s[0] == '-' && s[1..] == b;
  }

  /**
   A fixed-point spelling `[-]whole.ff` (two fraction digits) reads back as
   `whole + ff/100`, negated under the sign.
   */
  lemma ParseFixedPoint(negative: bool, whole: nat, cents: nat)
    requires cents < 100
    ensures ParseDecimal((if negative then "-" else "") + NatToString(whole) + "." + TwoDigits(cents))
            == Some(if negative then -(whole as real + cents as real / 100.0)
                    else whole as real + cents as real / 100.0)
  {
    var sign, b := if negative then "-" else "", NatToString(whole) + "." + TwoDigits(cents);
    assert sign + NatToString(whole) + "." + TwoDigits(cents) == sign + b;
    UnsignedFixedPoint(whole, cents);
    ParseSign(negative, b, whole as real + cents as real / 100.0);
  }

  /** The unsigned spelling `whole.ff` starts with a digit and reads as `whole + ff/100`. */
  lemma UnsignedFixedPoint(whole: nat, cents: nat)
    requires cents < 100
    ensures var b := NatToString(whole) + "." + TwoDigits(cents);
            b != [] && IsDigit(b[0]) && UnsignedValue(b) == Some(whole as real + cents as real / 100.0)
  {
    var w, f := NatToString(whole), TwoDigits(cents);
    UnsignedPointValue(w, f);
    NatToStringValue(whole);
    assert Pow10(2) == 100;
    assert (w + "." + f)[0] == w[0];
  }
}
