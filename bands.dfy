/**
 The price-band classifier `categorizar_faixa_preco` (app.py:141-157): twenty
 bands fifty wide from 0 to 1000, then `1000+`; a value that `float()` cannot
 read falls into `0-50` through the exception handler, and a value no band
 holds (a negative price, NaN) gets no band.
 */
module PriceBands {
  import opened Wrappers
  import opened Strings
  import opened Decimal
  import opened Prices

  /** The band table of app.py:143-148, as (low, high) bounds. */
  const Bands: seq<(nat, nat)> := [
    (0, 50), (50, 100), (100, 150), (150, 200), (200, 250),
    (250, 300), (300, 350), (350, 400), (400, 450), (450, 500),
    (500, 550), (550, 600), (600, 650), (650, 700), (700, 750),
    (750, 800), (800, 850), (850, 900), (900, 950), (950, 1000)
  ]

  /** The label order the charts use (app.py:638-642). */
  const BandOrder: seq<string> := [
    "0-50", "50-100", "100-150", "150-200", "200-250", "250-300", "300-350", "350-400", "400-450", "450-500",
    "500-550", "550-600", "600-650", "650-700", "700-750", "750-800", "800-850", "850-900", "900-950", "950-1000",
    "1000+"
  ]

  /** `f"{low}-{high}"`. */
  function Label(band: (nat, nat)): string
  {
    NatToString(band.0) + "-" + NatToString(band.1)
  }

  /**
   The loop with early return over `bands`, then the `>= 1000` test. A label
   given is that of a band holding `p` with no earlier band holding it, or
   `1000+`; no answer means no band holds `p` and `p` is below 1000.
   */
  function FirstBand(p: real, bands: seq<(nat, nat)>): (r: Option<string>)
    ensures r.Some? ==>
              || (r.value == "1000+" && p >= 1000.0)
              || exists i :: 0 <= i < |bands| && bands[i].0 as real <= p < bands[i].1 as real && r.value == Label(bands[i])
    ensures r == None ==>
              p < 1000.0 && forall i :: 0 <= i < |bands| ==> !(bands[i].0 as real <= p < bands[i].1 as real)
  {
    if bands == [] then (if p >= 1000.0 then Some("1000+") else None)
    else if bands[0].0 as real <= p < bands[0].1 as real then Some(Label(bands[0]))
    else
      var r := FirstBand(p, bands[1..]);
      assert forall i :: 1 <= i < |bands| ==> bands[i] == bands[1..][i - 1];
      r
  }

  /** The band of a price that `float()` has read. */
  function BandOf(p: real): Option<string>
  {
    FirstBand(p, Bands)
  }

  /**
   `categorizar_faixa_preco` on a cell: a number is classified, NaN matches
   nothing, and a text is first read by `float()`, whose failure lands in the
   handler that answers `0-50`.
   */
  function PriceBand(c: Cell): (r: Option<string>)
    ensures r.Some? ==> r.value in BandOrder
  {
    match c
    case Num(v) => BandOfPrice(v); BandOf(v)
    case Missing => None
    case Text(s) =>
      match ParseDecimal(Strip(s))
      case Some(v) => BandOfPrice(v); BandOf(v)
      case None => assert BandOrder[0] == "0-50"; Some("0-50")
  }

  lemma BandsAreFiftyWide()
    ensures |Bands| == 20
    ensures forall i :: 0 <= i < 20 ==> Bands[i] == (50 * i, 50 * i + 50)
  {
  }

  /** The label of each band is the one the charts list at the same position. */
  lemma LabelsAreListed()
    ensures forall i :: 0 <= i < 20 ==> Label(Bands[i]) == BandOrder[i]
  {
    forall i | 0 <= i < 20
      ensures Label(Bands[i]) == BandOrder[i]
    {
      if i == 0 { LabelListed0(); }
      else if i == 1 { LabelListed1(); }
      else if i == 2 { LabelListed2(); }
      else if i == 3 { LabelListed3(); }
      else if i == 4 { LabelListed4(); }
      else if i == 5 { LabelListed5(); }
      else if i == 6 { LabelListed6(); }
      else if i == 7 { LabelListed7(); }
      else if i == 8 { LabelListed8(); }
      else if i == 9 { LabelListed9(); }
      else if i == 10 { LabelListed10(); }
      else if i == 11 { LabelListed11(); }
      else if i == 12 { LabelListed12(); }
      else if i == 13 { LabelListed13(); }
      else if i == 14 { LabelListed14(); }
      else if i == 15 { LabelListed15(); }
      else if i == 16 { LabelListed16(); }
      else if i == 17 { LabelListed17(); }
      else if i == 18 { LabelListed18(); }
      else { LabelListed19(); }
    }
  }

  // One band per lemma: spelling a label and comparing it with the chart's is costly enough on its own.

  lemma LabelListed0() ensures Label(Bands[0]) == BandOrder[0] { }
  lemma LabelListed1() ensures Label(Bands[1]) == BandOrder[1] { }
  lemma LabelListed2() ensures Label(Bands[2]) == BandOrder[2] { }
  lemma LabelListed3() ensures Label(Bands[3]) == BandOrder[3] { }
  lemma LabelListed4() ensures Label(Bands[4]) == BandOrder[4] { }
  lemma LabelListed5() ensures Label(Bands[5]) == BandOrder[5] { }
  lemma LabelListed6() ensures Label(Bands[6]) == BandOrder[6] { }
  lemma LabelListed7() ensures Label(Bands[7]) == BandOrder[7] { }
  lemma LabelListed8() ensures Label(Bands[8]) == BandOrder[8] { }
  lemma LabelListed9() ensures Label(Bands[9]) == BandOrder[9] { }
  lemma LabelListed10() ensures Label(Bands[10]) == BandOrder[10] { }
  lemma LabelListed11() ensures Label(Bands[11]) == BandOrder[11] { }
  lemma LabelListed12() ensures Label(Bands[12]) == BandOrder[12] { }
  lemma LabelListed13() ensures Label(Bands[13]) == BandOrder[13] { }
  lemma LabelListed14() ensures Label(Bands[14]) == BandOrder[14] { }
  lemma LabelListed15() ensures Label(Bands[15]) == BandOrder[15] { }
  lemma LabelListed16() ensures Label(Bands[16]) == BandOrder[16] { }
  lemma LabelListed17() ensures Label(Bands[17]) == BandOrder[17] { }
  lemma LabelListed18() ensures Label(Bands[18]) == BandOrder[18] { }
  lemma LabelListed19() ensures Label(Bands[19]) == BandOrder[19] { }

  /** Searching from band `i` on, for a price at or above that band's lower bound. */
  lemma {:induction false} FirstBandFrom(p: real, i: nat)
    requires i <= 20 && p >= (50 * i) as real
    ensures p < 1000.0 ==> 0 <= (p / 50.0).Floor < 20 && FirstBand(p, Bands[i..]) == Some(Label(Bands[(p / 50.0).Floor]))
    ensures p >= 1000.0 ==> FirstBand(p, Bands[i..]) == Some("1000+")
    decreases 20 - i
  {
    BandsAreFiftyWide();
    if i == 20 {
      assert Bands[20..] == [];
    } else {
      assert Bands[i..][0] == Bands[i] && Bands[i..][1..] == Bands[i + 1..];
      if p < (50 * i + 50) as real {
        assert (i as real) <= p / 50.0 < (i + 1) as real;
        assert (p / 50.0).Floor == i;
      } else {
        FirstBandFrom(p, i + 1);
      }
    }
  }

  /** A negative price passes every band, whose bounds are natural numbers, and the `1000+` test. */
  lemma {:induction false} FirstBandNegative(p: real, bands: seq<(nat, nat)>)
    requires p < 0.0
    ensures FirstBand(p, bands) == None
    decreases |bands|
  {
    if bands != [] {
      FirstBandNegative(p, bands[1..]);
    }
  }

  /**
   The classifier on a number: for `0 <= p < 1000` the label is `low-high`
   with `low = 50 * floor(p / 50)` and `high = low + 50`; from 1000 on it is
   `1000+`; a negative price has no band; every label given is one the
   charts list.
   */
  lemma BandOfPrice(p: real)
    ensures 0.0 <= p < 1000.0 ==>
              var low := 50 * (p / 50.0).Floor;
              low >= 0 && BandOf(p) == Some(NatToString(low) + "-" + NatToString(low + 50))
    ensures p >= 1000.0 ==> BandOf(p) == Some("1000+")
    ensures p < 0.0 ==> BandOf(p) == None
    ensures BandOf(p).Some? ==> BandOf(p).value in BandOrder
  {
    BandsAreFiftyWide();
    LabelsAreListed();
    assert Bands[0..] == Bands;
    if p < 0.0 {
      FirstBandNegative(p, Bands);
    } else {
      FirstBandFrom(p, 0);
      if p >= 1000.0 {
        assert BandOrder[20] == "1000+";
      } else {
        var k := (p / 50.0).Floor;
        assert Label(Bands[k]) == BandOrder[k];
      }
    }
  }

  /** A text `float()` cannot read is put in the first band by the exception handler. */
  lemma UnreadableTextInFirstBand(s: string)
    requires !IsDecimalLiteral(Strip(s))
    ensures PriceBand(Text(s)) == Some("0-50")
  {
  }
}
