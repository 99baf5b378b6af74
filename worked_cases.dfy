/**
 Facts proved about the model on concrete inputs: the two formats named in the
 normaliser's docstring (app.py:81-84) and the comma-only one, the sharp edges
 of the magnitude thresholds, two price columns corrected independently, the
 formatter, the price bands and the launch flag.
 */
module WorkedCases {
  import opened Wrappers
  import opened Strings
  import opened Decimal
  import opened Prices
  import opened ProductTable
  import opened Reais
  import opened PriceBands
  import opened LaunchFlag

  // Spellings of the small numbers the examples use.

  lemma Spell1200()
    ensures NatToString(1200) == "1200" && Grouped(1200, '.') == "1.200" && TwoDigits(0) == "00"
  {
    assert DigitChar(0) == '0' && DigitChar(1) == '1' && DigitChar(2) == '2';
    assert NatToString(1) == "1";
    assert NatToString(12) == "12";
    assert NatToString(120) == "120";
    assert LastThree(1200) == "200";
  }

  lemma Spell50()
    ensures NatToString(50) == "50" && TwoDigits(0) == "00"
  {
    assert DigitChar(0) == '0' && DigitChar(5) == '5';
    assert NatToString(5) == "5";
  }

  /** A text without `R`, `r` or surrounding whitespace is already clean. */
  lemma CleanUnchanged(s: string)
    requires 'R' !in s && 'r' !in s
    requires s == [] || (!IsSpace(s[0]) && !IsSpace(s[|s| - 1]))
    ensures CleanText(s) == s
  {
    ReplaceAbsent(s, "R$", "");
    ReplaceAbsent(s, "r$", "");
    StripUnspaced(s);
  }

  lemma Reads1200()
    ensures ParseDecimal("1200.00") == Some(1200.0)
  {
    Spell1200();
    assert "1200.00" == (if false then "-" else "") + NatToString(1200) + "." + TwoDigits(0);
    ParseFixedPoint(false, 1200, 0);
  }

  lemma Reads50()
    ensures ParseDecimal("50.00") == Some(50.0)
  {
    Spell50();
    assert "50.00" == (if false then "-" else "") + NatToString(50) + "." + TwoDigits(0);
    ParseFixedPoint(false, 50, 0);
  }

  lemma CleanBrazilian()
    ensures CleanText("1.200,00") == "1.200,00"
  {
    var s := "1.200,00";
    assert 'R' !in s && 'r' !in s && !IsSpace(s[0]) && !IsSpace(s[|s| - 1]);
    CleanUnchanged(s);
  }

  lemma SeparatorsBrazilian()
    ensures SeparatorRule("1.200,00") == "1200.00"
  {
    Spell1200();
    assert "1.200,00" == "" + Grouped(1200, '.') + "," + "00";
    SeparatorRuleOnBrazilian("", 1200, "00");
    assert "" + NatToString(1200) + "." + "00" == "1200.00";
  }

  /** Brazilian `1.200,00`: the period is a thousands separator. */
  lemma BrazilianThousands()
    ensures ParsedCell(Text("1.200,00")) == Num(1200.0)
  {
    CleanBrazilian();
    SeparatorsBrazilian();
    Reads1200();
    ParsedText("1.200,00");
  }

  lemma CleanComma()
    ensures CleanText("1200,00") == "1200,00"
  {
    var s := "1200,00";
    assert 'R' !in s && 'r' !in s && !IsSpace(s[0]) && !IsSpace(s[|s| - 1]);
    CleanUnchanged(s);
  }

  lemma SeparatorsComma()
    ensures SeparatorRule("1200,00") == "1200.00"
  {
    var s := "1200,00";
    assert s[4] == ',' && '.' !in s;
    SeparatorRuleCases(s);
    assert forall k :: 0 <= k < |s| ==> SeparatorRule(s)[k] == "1200.00"[k];
  }

  /** `1200,00`: a lone comma is the decimal point. */
  lemma CommaDecimal()
    ensures ParsedCell(Text("1200,00")) == Num(1200.0)
  {
    CleanComma();
    SeparatorsComma();
    Reads1200();
    ParsedText("1200,00");
  }

  lemma CleanPoint()
    ensures CleanText("1200.00") == "1200.00"
    ensures SeparatorRule("1200.00") == "1200.00"
  {
    var s := "1200.00";
    assert 'R' !in s && 'r' !in s && !IsSpace(s[0]) && !IsSpace(s[|s| - 1]);
    CleanUnchanged(s);
    assert ',' !in s;
  }

  /** `1200.00`: a lone period is left as the decimal point. */
  lemma PointDecimal()
    ensures ParsedCell(Text("1200.00")) == Num(1200.0)
  {
    CleanPoint();
    Reads1200();
    ParsedText("1200.00");
  }

  lemma CleanPrefixed()
    ensures CleanText("R$ 50,00") == "50,00"
  {
    var body := "50,00";
    assert "R$ 50,00" == "R$ " + body;
    assert 'R' !in body && 'r' !in body && !IsSpace(body[0]) && !IsSpace(body[|body| - 1]);
    CleanCurrencyPrefix(body);
  }

  lemma SeparatorsPrefixed()
    ensures SeparatorRule("50,00") == "50.00"
  {
    var body := "50,00";
    Spell50();
    assert body == "" + NatToString(50) + "," + "00";
    assert ',' !in NatToString(50);
    CommaToPoint("", NatToString(50), "00");
    assert body[2] == ',' && '.' !in body;
    assert "" + NatToString(50) + "." + "00" == "50.00";
  }

  /** `R$ 50,00`: the currency sign and its space go, the comma is the decimal point. */
  lemma CurrencyPrefixed()
    ensures ParsedCell(Text("R$ 50,00")) == Num(50.0)
  {
    CleanPrefixed();
    SeparatorsPrefixed();
    Reads50();
    ParsedText("R$ 50,00");
  }

  lemma DropPeriodEnglish()
    ensures Replace("1,200.50", ".", "") == "1,20050"
  {
    assert "1,200.50" == "1,200" + "." + "50";
    ReplaceCharConcat("1,200" + ".", "50", '.', "");
    ReplaceCharConcat("1,200", ".", '.', "");
    ReplaceAbsent("1,200", ".", "");
    ReplaceAbsent("50", ".", "");
    assert "1,200" + "50" == "1,20050";
  }

  lemma CommaToPointEnglish()
    ensures Replace("1,20050", ",", ".") == "1.20050"
  {
    var s, r := "1,20050", Replace("1,20050", ",", ".");
    ReplaceCharByChar(s, ',', '.');
    assert forall k :: 0 <= k < |s| ==> r[k] == "1.20050"[k];
  }

  /** An English-style `1,200.50` is taken for Brazilian: the period goes and the comma becomes the point. */
  lemma EnglishMisread()
    ensures SeparatorRule("1,200.50") == "1.20050"
  {
    var s := "1,200.50";
    assert s[1] == ',' && s[5] == '.';
    DropPeriodEnglish();
    CommaToPointEnglish();
  }

  lemma CleanNotApplicable()
    ensures CleanText("N/A") == "N/A"
  {
    var s := "N/A";
    assert 'R' !in s && 'r' !in s && !IsSpace(s[0]) && !IsSpace(s[|s| - 1]);
    CleanUnchanged(s);
  }

  lemma NotApplicableUnreadable()
    ensures SeparatorRule("N/A") == "N/A"
    ensures !IsDecimalLiteral("N/A")
  {
    var s := "N/A";
    assert ',' !in s;
    assert Unsigned(s) == s && !IsDigit(s[0]) && s[0] != '.';
  }

  lemma NotApplicableMissing()
    ensures ParsedCell(Text("N/A")) == Missing
  {
    CleanNotApplicable();
    NotApplicableUnreadable();
    ParsedCellMissing(Text("N/A"));
  }

  /** A cell that fails to parse beside one read as a value of at least 10: the column is read and not scaled. */
  lemma MissingBesideValue(x: Cell, y: Cell, v: real)
    requires ParsedCell(x) == Missing && ParsedCell(y) == Num(v) && v >= SmallLimit
    ensures NormalisedColumn([x, y]) == [Missing, Num(v)]
  {
    ParsedPair(x, y, v);
    KeptPair(v);
  }

  lemma ParsedPair(x: Cell, y: Cell, v: real)
    requires ParsedCell(x) == Missing && ParsedCell(y) == Num(v)
    ensures var col := [x, y];
            seq(|col|, k requires 0 <= k < |col| => ParsedCell(col[k])) == [Missing, Num(v)]
  {
  }

  lemma KeptPair(v: real)
    requires v >= SmallLimit
    ensures CorrectMagnitude([Missing, Num(v)]) == [Missing, Num(v)]
  {
    assert !HasValueBelow([Missing, Num(v)], SmallLimit);
    CorrectMagnitudeKeeps([Missing, Num(v)]);
  }

  /** A text that is not a number becomes a missing value, and the text beside it is still read. */
  lemma UnreadableSibling()
    ensures NormalisedColumn([Text("N/A"), Text("1200,00")]) == [Missing, Num(1200.0)]
  {
    NotApplicableMissing();
    CommaDecimal();
    MissingBesideValue(Text("N/A"), Text("1200,00"), 1200.0);
  }

  /** Small values beside large ones: only the small ones are scaled. */
  lemma MixedColumn()
    ensures CorrectMagnitude([Num(5.0), Num(5.0), Num(200.0), Num(300.0)])
            == [Num(5000.0), Num(5000.0), Num(200.0), Num(300.0)]
  {
    var col := [Num(5.0), Num(5.0), Num(200.0), Num(300.0)];
    assert col[0].value < SmallLimit && col[2].value > LargeLimit;
    MixedColumnScalesSmallOnly(col);
  }

  /** Every value small: all of them are scaled. */
  lemma AllSmallColumn()
    ensures CorrectMagnitude([Num(1.0), Num(2.0), Num(3.0)]) == [Num(1000.0), Num(2000.0), Num(3000.0)]
  {
    var col := [Num(1.0), Num(2.0), Num(3.0)];
    assert col[0].Num?;
    AllSmallColumnScalesAll(col);
  }

  /** No small value: the column is kept. */
  lemma NoSmallColumn()
    ensures CorrectMagnitude([Num(150.0), Num(200.0), Num(300.0)]) == [Num(150.0), Num(200.0), Num(300.0)]
  {
    CorrectMagnitudeKeeps([Num(150.0), Num(200.0), Num(300.0)]);
  }

  /** `[5, 50]`: a small value, but none above 100 and not all small, so nothing changes. */
  lemma MiddleColumn()
    ensures CorrectMagnitude([Num(5.0), Num(50.0)]) == [Num(5.0), Num(50.0)]
  {
    var col := [Num(5.0), Num(50.0)];
    assert !(col[1].value < SmallLimit);
    CorrectMagnitudeKeeps(col);
  }

  /** 10 is not small and 100 is not large. */
  lemma ThresholdEdges()
    ensures CorrectMagnitude([Num(10.0)]) == [Num(10.0)]
    ensures CorrectMagnitude([Num(5.0), Num(100.0)]) == [Num(5.0), Num(100.0)]
  {
    CorrectMagnitudeKeeps([Num(10.0)]);
    var col := [Num(5.0), Num(100.0)];
    assert !(col[1].value < SmallLimit);
    CorrectMagnitudeKeeps(col);
  }

  lemma TrimFinal()
    ensures Strip("Final_Price ") == "Final_Price"
  {
    var s := "Final_Price ";
    assert LeadingSpace(s) == 0;
    assert s[0..] == s;
    assert s[..|s| - 1] == "Final_Price";
    assert TrailingSpace(s) == 1;
  }

  lemma TrimInitial()
    ensures Strip(" Initial_Price") == "Initial_Price"
  {
    assert " Initial_Price" == " " + "Initial_Price";
    StripSpacePrefix(" ", "Initial_Price");
  }

  lemma TrimExampleNames()
    ensures TrimAll([" Initial_Price", "Final_Price ", "Name"]) == ["Initial_Price", "Final_Price", "Name"]
  {
    TrimInitial();
    TrimFinal();
    StripUnspaced("Name");
    TrimThree(" Initial_Price", "Final_Price ", "Name");
  }

  lemma TrimThree(a: string, b: string, c: string)
    ensures TrimAll([a, b, c]) == [Strip(a), Strip(b), Strip(c)]
  {
  }

  lemma LocateExampleNames()
    ensures Locate(["Initial_Price", "Final_Price", "Name"], "Initial_Price") == Unique(0)
    ensures Locate(["Initial_Price", "Final_Price", "Name"], "Final_Price") == Unique(1)
  {
    var names := ["Initial_Price", "Final_Price", "Name"];
    assert names[1] != "Initial_Price" && names[2] != "Initial_Price";
    assert names[0] != "Final_Price" && names[2] != "Final_Price";
  }

  lemma ExampleColumns()
    ensures NormalisedColumn([Num(5.0), Num(200.0)]) == [Num(5000.0), Num(200.0)]
    ensures NormalisedColumn([Num(1.0), Num(2.0)]) == [Num(1000.0), Num(2000.0)]
  {
    ExampleMixedColumn();
    ExampleSmallColumn();
  }

  /** A column with a value below 10 and one above 100: only the small value is scaled. */
  lemma ExampleMixedColumn()
    ensures NormalisedColumn([Num(5.0), Num(200.0)]) == [Num(5000.0), Num(200.0)]
  {
    var first := [Num(5.0), Num(200.0)];
    assert seq(2, k requires 0 <= k < 2 => ParsedCell(first[k])) == first;
    assert first[0].value < SmallLimit && first[1].value > LargeLimit;
    MixedColumnScalesSmallOnly(first);
  }

  /** A column whose values all lie below 10: every value is scaled. */
  lemma ExampleSmallColumn()
    ensures NormalisedColumn([Num(1.0), Num(2.0)]) == [Num(1000.0), Num(2000.0)]
  {
    var second := [Num(1.0), Num(2.0)];
    assert seq(2, k requires 0 <= k < 2 => ParsedCell(second[k])) == second;
    assert second[0].Num?;
    AllSmallColumnScalesAll(second);
  }

  /** The header of the example table after trimming. */
  lemma ExampleTrimmed(columns: seq<seq<Cell>>)
    requires |columns| == 3
    ensures Snapshot(TrimAll([" Initial_Price", "Final_Price ", "Name"]), columns)
            == Snapshot(["Initial_Price", "Final_Price", "Name"], columns)
  {
    TrimExampleNames();
  }

  /** The first turn of the loop on the example table normalises `Initial_Price` only. */
  lemma ExampleFirstTurn()
    ensures PriceStep(Outcome(false, Snapshot(["Initial_Price", "Final_Price", "Name"],
                                              [[Num(5.0), Num(200.0)], [Num(1.0), Num(2.0)], [Text("a")]])),
                      "Initial_Price")
            == Outcome(false, Snapshot(["Initial_Price", "Final_Price", "Name"],
                                       [[Num(5000.0), Num(200.0)], [Num(1.0), Num(2.0)], [Text("a")]]))
  {
    var columns := [[Num(5.0), Num(200.0)], [Num(1.0), Num(2.0)], [Text("a")]];
    LocateExampleNames();
    PriceStepUnique(["Initial_Price", "Final_Price", "Name"], columns, "Initial_Price", 0);
    ExampleColumns();
    assert columns[0 := NormalisedColumn(columns[0])]
           == [[Num(5000.0), Num(200.0)], [Num(1.0), Num(2.0)], [Text("a")]];
  }

  /** The second turn of the loop normalises `Final_Price` only. */
  lemma ExampleSecondTurn()
    ensures PriceStep(Outcome(false, Snapshot(["Initial_Price", "Final_Price", "Name"],
                                              [[Num(5000.0), Num(200.0)], [Num(1.0), Num(2.0)], [Text("a")]])),
                      "Final_Price")
            == Outcome(false, Snapshot(["Initial_Price", "Final_Price", "Name"],
                                       [[Num(5000.0), Num(200.0)], [Num(1000.0), Num(2000.0)], [Text("a")]]))
  {
    var columns := [[Num(5000.0), Num(200.0)], [Num(1.0), Num(2.0)], [Text("a")]];
    LocateExampleNames();
    PriceStepUnique(["Initial_Price", "Final_Price", "Name"], columns, "Final_Price", 1);
    ExampleColumns();
    assert columns[1 := NormalisedColumn(columns[1])]
           == [[Num(5000.0), Num(200.0)], [Num(1000.0), Num(2000.0)], [Text("a")]];
  }

  /** Both price columns present: each is corrected on its own values, the name column is left unchanged. */
  lemma TwoPriceColumns()
    ensures var t := Snapshot([" Initial_Price", "Final_Price ", "Name"],
                              [[Num(5.0), Num(200.0)], [Num(1.0), Num(2.0)], [Text("a")]]);
            Normalised(t) == Outcome(false, Snapshot(["Initial_Price", "Final_Price", "Name"],
                              [[Num(5000.0), Num(200.0)], [Num(1000.0), Num(2000.0)], [Text("a")]]))
  {
    var columns := [[Num(5.0), Num(200.0)], [Num(1.0), Num(2.0)], [Text("a")]];
    var t := Snapshot([" Initial_Price", "Final_Price ", "Name"], columns);
    NormalisedUnrolled(t);
    ExampleTrimmed(columns);
    ExampleFirstTurn();
    ExampleSecondTurn();
  }

  /** The amount 1200.00 is written `R$ 1.200,00`, which the normaliser reads back as 1200. */
  lemma FormatterThousands()
    ensures FormatReais(Cents(120000)) == Formatted("R$ 1.200,00")
    ensures ParsedCell(Text("R$ 1.200,00")) == Num(1200.0)
  {
    Spell1200();
    assert BrazilianText(120000) == "R$ 1.200,00";
    BrazilianTextReadsBack(120000);
  }

  lemma KeyTrue()
    ensures LaunchKey("TRUE ") == "true"
  {
    var s := "TRUE ";
    assert LeadingSpace(s) == 0 && s[0..] == s;
    assert s[..|s| - 1] == "TRUE";
    assert TrailingSpace(s) == 1;
    LowerTrue();
  }

  lemma LowerTrue()
    ensures Lower("TRUE") == "true"
  {
    var r := Lower("TRUE");
    assert r[0] == LowerChar('T') == 't' && r[1] == LowerChar('R') == 'r';
    assert r[2] == LowerChar('U') == 'u' && r[3] == LowerChar('E') == 'e';
  }

  lemma KeySim()
    ensures LaunchKey(" Sim") == "sim"
  {
    assert " Sim" == " " + "Sim";
    StripSpacePrefix(" ", "Sim");
    LowerSim();
  }

  lemma LowerSim()
    ensures Lower("Sim") == "sim"
  {
    var r := Lower("Sim");
    assert r[0] == LowerChar('S') == 's' && r[1] == 'i' && r[2] == 'm';
  }

  lemma KeyOneDotZero()
    ensures LaunchKey("1.0") == "1.0"
  {
    StripUnspaced("1.0");
    LowerUnchanged("1.0");
  }

  lemma KeyNao()
    ensures LaunchKey("não") == "não"
  {
    StripUnspaced("não");
    LowerUnchanged("não");
  }

  lemma OneDotZeroNotYes()
    ensures "1.0" !in YesWords
  {
    assert "1.0" != "1" && "1.0"[0] != "sim"[0] && "1.0"[0] != "yes"[0];
  }

  lemma LaunchTrue()
    ensures IsLaunch("TRUE ")
  {
    KeyTrue();
  }

  lemma LaunchSim()
    ensures IsLaunch(" Sim")
  {
    KeySim();
  }

  lemma LaunchOneDotZero()
    ensures !IsLaunch("1.0")
  {
    KeyOneDotZero();
    OneDotZeroNotYes();
  }

  lemma LaunchNao()
    ensures !IsLaunch("não")
  {
    KeyNao();
  }

  /** The launch flag on a few texts: case and surrounding space do not matter, `1.0` is not a yes word. */
  lemma LaunchExamples()
    ensures IsLaunch("TRUE ")
    ensures IsLaunch(" Sim")
    ensures !IsLaunch("1.0")
    ensures !IsLaunch("não")
  {
    LaunchTrue();
    LaunchSim();
    LaunchOneDotZero();
    LaunchNao();
  }

  lemma BandOfSeventyFive()
    ensures BandOf(75.0) == Some("50-100")
  {
    SeventyFiveInSecondBand();
    SpellSecondBand();
  }

  lemma SeventyFiveInSecondBand()
    ensures BandOf(75.0) == Some(NatToString(50) + "-" + NatToString(100))
  {
    BandOfPrice(75.0);
    assert (75.0 / 50.0).Floor == 1;
  }

  lemma SpellSecondBand()
    ensures NatToString(50) + "-" + NatToString(100) == "50-100"
  {
    assert NatToString(5) == "5" && NatToString(1) == "1" && NatToString(10) == "10";
    assert NatToString(50) == "50" && NatToString(100) == "100";
  }

  lemma UnreadableBand()
    ensures PriceBand(Text("abc")) == Some("0-50")
  {
    StripUnspaced("abc");
    assert Unsigned("abc") == "abc" && !IsDigit("abc"[0]) && "abc"[0] != '.';
    UnreadableTextInFirstBand("abc");
  }

  /** Band examples: a price in the middle of a band, the 1000 edge, a negative price and an unreadable text. */
  lemma BandExamples()
    ensures PriceBand(Num(75.0)) == Some("50-100")
    ensures PriceBand(Num(1000.0)) == Some("1000+")
    ensures PriceBand(Num(-1.0)) == None
    ensures PriceBand(Text("abc")) == Some("0-50")
  {
    BandOfSeventyFive();
    BandOfPrice(1000.0);
    BandOfPrice(-1.0);
    UnreadableBand();
  }
}
