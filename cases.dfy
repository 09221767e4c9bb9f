/** The cases of money_test.go, stated about the model. The currency
    descriptors are the ones those cases assume: two-digit EUR and GBP, a
    three-digit test currency, and AED with the symbol after the digits. */
module Cases {
  import opened MoneyMath
  import opened Currencies
  import opened Distribution
  import Text
  import opened Monies

  const EUR := Currency("EUR", "€", "$1", ".", ",", 2, "978")
  const GBP := Currency("GBP", "£", "$1", ".", ",", 2, "826")
  const AED := Currency("AED", ".د.إ", "1 $", ".", ",", 2, "784")
  const Exponential := Currency("TEST_EXPONENTIAL", "*", "$1", ".", ",", 3, "0")

  /** Rounding to whole major units, half toward zero. */
  lemma RoundCases()
    ensures Monies.Round(Money(125, EUR)).amount == 100
    ensures Monies.Round(Money(175, EUR)).amount == 200
    ensures Monies.Round(Money(349, EUR)).amount == 300
    ensures Monies.Round(Money(351, EUR)).amount == 400
    ensures Monies.Round(Money(0, EUR)).amount == 0
    ensures Monies.Round(Money(-1, EUR)).amount == 0
    ensures Monies.Round(Money(-75, EUR)).amount == -100
  {
  }

  /** A currency with three minor digits rounds to a multiple of 1000. */
  lemma RoundThousandthsCase()
    ensures Monies.Round(Money(12555, Exponential)).amount == 13000
  {
  }

  lemma MultiplyCases()
    ensures Monies.Multiply(Money(100, EUR), 1) == Money(100, EUR)
    ensures Monies.Multiply(Money(100, EUR), 0) == Money(0, EUR)
    ensures Monies.Multiply(Money(100, EUR), 2) == Money(200, EUR)
  {
  }

  lemma SignCases()
    ensures IsZero(Money(0, EUR)) && !IsZero(Money(1, EUR))
    ensures IsNegative(Money(-1, EUR)) && !IsNegative(Money(1, EUR)) && !IsNegative(Money(0, EUR))
    ensures IsPositive(Money(1, EUR)) && !IsPositive(Money(-1, EUR)) && !IsPositive(Money(0, EUR))
  {
  }

  lemma SplitCases()
    ensures SplitAmounts(100, 3) == [34, 33, 33]
    ensures SplitAmounts(100, 4) == [25, 25, 25, 25]
    ensures SplitAmounts(5, 3) == [2, 2, 1]
    ensures SplitAmounts(-101, 4) == [-26, -25, -25, -25]
    ensures SplitAmounts(-2, 3) == [-1, -1, 0]
  {
  }

  lemma SumOfTwo(a: int, b: int)
    ensures Sum([a, b]) == a + b
  {
    assert [a, b][..1] == [a];
    assert [a][..0] == [];
    assert Sum([a]) == Sum([]) + a;
  }

  lemma SumOfThree(a: int, b: int, c: int)
    ensures Sum([a, b, c]) == a + b + c
  {
    assert [a, b, c][..2] == [a, b];
    SumOfTwo(a, b);
  }

  lemma AllocateEvenCase()
    ensures AllocateFits(100, [50, 50]) && AllocateAmounts(100, [50, 50]) == [50, 50]
  {
    var rs: seq<Int64> := [50, 50];
    SumOfTwo(50, 50);
    assert Sum(rs) == 100;
    var bs := AllocateBases(100, rs);
    assert bs[0] == 50 && bs[1] == 50;
    assert bs == [50, 50];
    assert Leftover(100, rs) == 0;
  }

  lemma AllocateThirdsCase()
    ensures AllocateFits(100, [30, 30, 30]) && AllocateAmounts(100, [30, 30, 30]) == [34, 33, 33]
  {
    var rs: seq<Int64> := [30, 30, 30];
    SumOfThree(30, 30, 30);
    assert Sum(rs) == 90;
    var bs := AllocateBases(100, rs);
    assert bs[0] == 33 && bs[1] == 33 && bs[2] == 33;
    assert bs == [33, 33, 33];
    SumOfThree(33, 33, 33);
    assert Leftover(100, rs) == 1;
  }

  lemma AllocateQuartersCase()
    ensures AllocateFits(200, [25, 25, 50]) && AllocateAmounts(200, [25, 25, 50]) == [50, 50, 100]
  {
    var rs: seq<Int64> := [25, 25, 50];
    SumOfThree(25, 25, 50);
    assert Sum(rs) == 100;
    var bs := AllocateBases(200, rs);
    assert bs[0] == 50 && bs[1] == 50 && bs[2] == 100;
    assert bs == [50, 50, 100];
    SumOfThree(50, 50, 100);
    assert Leftover(200, rs) == 0;
  }

  lemma AllocateSmallCase()
    ensures AllocateFits(5, [50, 25, 25]) && AllocateAmounts(5, [50, 25, 25]) == [3, 1, 1]
  {
    var rs: seq<Int64> := [50, 25, 25];
    SumOfThree(50, 25, 25);
    assert Sum(rs) == 100;
    var bs := AllocateBases(5, rs);
    assert bs[0] == 2 && bs[1] == 1 && bs[2] == 1;
    assert bs == [2, 1, 1];
    SumOfThree(2, 1, 1);
    assert Leftover(5, rs) == 1;
  }

  lemma AllocateNegativeCase()
    ensures AllocateFits(-101, [50, 50]) && AllocateAmounts(-101, [50, 50]) == [-51, -50]
  {
    var rs: seq<Int64> := [50, 50];
    SumOfTwo(50, 50);
    assert Sum(rs) == 100;
    var bs := AllocateBases(-101, rs);
    assert bs[0] == -50 && bs[1] == -50;
    assert bs == [-50, -50];
    SumOfTwo(-50, -50);
    assert Leftover(-101, rs) == -1;
  }

  /** The two-digit currencies of the cases share their separators. */
  predicate Decimal2(c: Currency) {
    c.fraction == 2 && c.decimal == "." && c.thousand == ","
  }

  lemma NumberOneHundred(c: Currency)
    requires Decimal2(c)
    ensures Text.FormatNumber(100, c) == "1.00"
  {
    assert Text.FormatDecimal(1) == "1";
    assert Text.FormatDecimal(10) == "10";
    assert Text.FormatDecimal(100) == "100";
    assert Text.PaddedDigits(100, 2) == "100";
    assert Text.MajorDigits(100, 2) == "1";
    assert Text.MinorDigits(100, 2) == "00";
    assert Text.GroupThousands("1", ",") == "1";
  }

  lemma DigitsTen()
    ensures Text.MajorDigits(10, 2) == "0" && Text.MinorDigits(10, 2) == "10"
  {
    assert Text.FormatDecimal(1) == "1";
    assert Text.FormatDecimal(10) == "10";
    assert Text.Repeat('0', 1) == "0";
    assert Text.PaddedDigits(10, 2) == "010";
  }

  lemma NumberTen(c: Currency)
    requires Decimal2(c)
    ensures Text.FormatNumber(10, c) == "0.10"
  {
    DigitsTen();
    assert Text.GroupThousands("0", ",") == "0";
    assert "0" + "." + "10" == "0.10";
  }

  lemma DigitsOneHundredThousand()
    ensures Text.FormatDecimal(100000) == "100000"
  {
    assert Text.FormatDecimal(1) == "1";
    assert Text.FormatDecimal(10) == "10";
    assert Text.FormatDecimal(100) == "100";
    assert Text.FormatDecimal(1000) == "1000";
    assert Text.FormatDecimal(10000) == "10000";
  }

  lemma NumberOneHundredThousand(c: Currency)
    requires Decimal2(c)
    ensures Text.FormatNumber(100000, c) == "1,000.00"
  {
    DigitsOneHundredThousand();
    assert Text.PaddedDigits(100000, 2) == "100000";
    assert Text.MajorDigits(100000, 2) == "1000";
    assert Text.MinorDigits(100000, 2) == "00";
    assert Text.LeadLength("1000") == 1;
    assert "1000"[1..] == "000" && "000"[3..] == [];
    assert Text.Triples("000", ",") == ",000";
    assert Text.GroupThousands("1000", ",") == "1,000";
  }

  /** A "$1" template puts the symbol in front of the number. */
  lemma FillSymbolFirst(c: Currency, x: string)
    requires c.template == "$1" && '$' !in c.grapheme
    ensures Text.Fill(c, x) == c.grapheme + x
  {
    Text.ReplaceFirstAfter("$", "1", '1', x);
    assert "$" + "1" == c.template;
    assert Text.ReplaceFirst("1", '1', x) == x + [];
    var y := "$" + x;
    assert y[1..] == x;
  }

  /** A "1 $" template puts the symbol after the number and a space. */
  lemma FillSymbolAfter(c: Currency, x: string)
    requires c.template == "1 $" && '$' !in x
    ensures Text.Fill(c, x) == x + " " + c.grapheme
  {
    assert c.template[1..] == " $";
    assert Text.ReplaceFirst(c.template, '1', x) == x + " $";
    Text.ReplaceFirstAfter(x + " ", "$", '$', c.grapheme);
    assert x + " $" == (x + " ") + "$";
    assert Text.ReplaceFirst("$", '$', c.grapheme) == c.grapheme + [];
  }

  /** A non-negative amount is shown as the filled template alone. */
  lemma ShownPlain(a: Int64, c: Currency, number: string)
    requires 0 <= a && Text.FormatNumber(a, c) == number
    ensures Text.Shown(a, c) == Text.Fill(c, number)
  {
  }

  /** With Text.ShownNegative this also gives the case -100, shown "-£1.00". */
  lemma DisplayPoundCase()
    ensures Text.Shown(100, GBP) == "£1.00"
  {
    NumberOneHundred(GBP);
    ShownPlain(100, GBP, "1.00");
    FillSymbolFirst(GBP, "1.00");
    PoundText("1.00", "£1.00");
  }

  /** A negative amount: -100 pence display as "-£1.00". */
  lemma DisplayNegativePoundCase()
    ensures Text.Shown(-100, GBP) == "-£1.00"
  {
    Text.ShownNegative(-100, GBP);
    DisplayPoundCase();
    MinusText("£1.00", "-£1.00");
  }

  /** A minus sign in front of a shown amount, as one literal. */
  lemma MinusText(x: string, shown: string)
    requires |shown| >= 1 && shown[..1] == "-" && shown[1..] == x
    ensures "-" + x == shown
  {
    assert shown == shown[..1] + shown[1..];
  }

  /** The pound sign in front of a number, as one literal. */
  lemma PoundText(x: string, shown: string)
    requires |shown| >= 1 && shown[..1] == "£" && shown[1..] == x
    ensures GBP.grapheme + x == shown
  {
    assert shown == shown[..1] + shown[1..];
  }

  lemma DisplaySymbolAfterCase()
    ensures Text.Shown(100, AED) == "1.00 .د.إ"
  {
    NumberOneHundred(AED);
    ShownPlain(100, AED, "1.00");
    FillSymbolAfter(AED, "1.00");
    SymbolAfterText();
  }

  lemma SymbolAfterText()
    ensures "1.00" + " " + AED.grapheme == "1.00 .د.إ"
  {
    var shown, g := "1.00 .د.إ", AED.grapheme;
    assert |shown| == 9 && |g| == 4;
    assert shown[..5] == "1.00 " && shown[5..] == g;
  }

  lemma DisplayPaddedCase()
    ensures Text.Shown(10, GBP) == "£0.10"
  {
    NumberTen(GBP);
    ShownPlain(10, GBP, "0.10");
    FillSymbolFirst(GBP, "0.10");
    PoundText("0.10", "£0.10");
  }

  lemma DisplayGroupedCase()
    ensures Text.Shown(100000, GBP) == "£1,000.00"
  {
    NumberOneHundredThousand(GBP);
    ShownPlain(100000, GBP, "1,000.00");
    FillSymbolFirst(GBP, "1,000.00");
    PoundText("1,000.00", "£1,000.00");
  }
}
