/** The Money value of money.go: a signed int64 count of minor units bound to
    a copy of a currency descriptor, with currency-guarded arithmetic and
    comparisons, rounding, remainder-safe Split and Allocate, and Display. */
module Monies {
  import opened MoneyMath
  import opened Currencies
  import opened Distribution
  import Text

  datatype Option<T> = None | Some(value: T)

  /** The errors money.go returns (ErrCurrencyNotFound comes from the registry). */
  datatype Error = CurrencyNotFound | CurrencyMismatch | NegativeSplit | NoRatios

  /** A Go `(value, err)` result pair; `err` is None where Go returns nil. */
  datatype Outcome<T> = Outcome(value: T, err: Option<Error>)

  datatype Money = Money(amount: Int64, currency: Currency)

  /** Go's zero Money, returned beside ErrCurrencyNotFound. */
  const ZeroMoney := Money(0, Currency("", "", "", "", "", 0, ""))

  /** The amounts of a list of Money values, in order. */
  function Amounts(ms: seq<Money>): (r: seq<int>)
    ensures |r| == |ms| && forall i :: 0 <= i < |ms| ==> r[i] == ms[i].amount
  {
    seq(|ms|, i requires 0 <= i < |ms| => ms[i].amount)
  }

  // ---------------------------------------------------------------------
  // Construction

  /** New: looks the code up in the registry; an unknown code is
      ErrCurrencyNotFound, otherwise the amount is kept verbatim with a copy
      of the registered descriptor. */
  function New(amount: Int64, code: string, registry: Registry): (r: Outcome<Money>)
    ensures r.err == None <==> code in registry
    ensures code !in registry ==> r == Outcome(ZeroMoney, Some(CurrencyNotFound))
    ensures code in registry ==> r.value.amount == amount && r.value.currency == registry[code]
    ensures code in registry && WellKeyed(registry) ==> r.value.currency.code == code
  {
    if code !in registry then Outcome(ZeroMoney, Some(CurrencyNotFound))
    else Outcome(Money(amount, registry[code]), None)
  }

  // ---------------------------------------------------------------------
  // Currency guard and comparisons

  /** Money values are combinable when their currency codes are equal. */
  predicate SameCurrency(m: Money, om: Money) {
    m.currency.code == om.currency.code
  }

  /** SameCurrency is an equivalence: every Money value is combinable with
      itself, and the relation is symmetric and transitive. */
  lemma SameCurrencyEquivalence(m: Money, om: Money, pm: Money)
    ensures SameCurrency(m, m)
    ensures SameCurrency(m, om) ==> SameCurrency(om, m)
    ensures SameCurrency(m, om) && SameCurrency(om, pm) ==> SameCurrency(m, pm)
  {
  }

  /** assertSameCurrency: ErrCurrencyMismatch exactly when the codes differ. */
  function AssertSameCurrency(m: Money, om: Money): (err: Option<Error>)
    ensures err == None <==> m.currency.code == om.currency.code
    ensures err != None ==> err == Some(CurrencyMismatch)
  {
    if !SameCurrency(m, om) then Some(CurrencyMismatch) else None
  }

  /** compare: 1, -1 or 0 as the first amount is greater, smaller or equal. */
  function Compare(m: Money, om: Money): (r: int)
    ensures r == 1 <==> m.amount > om.amount
    ensures r == -1 <==> m.amount < om.amount
    ensures r == 0 <==> m.amount == om.amount
  {
    if m.amount > om.amount then 1
    else if m.amount < om.amount then -1
    else 0
  }

  lemma CompareAntisymmetric(m: Money, om: Money)
    ensures Compare(m, om) == -Compare(om, m)
  {
  }

  function Equals(m: Money, om: Money): (r: Outcome<bool>)
    ensures !SameCurrency(m, om) ==> r == Outcome(false, Some(CurrencyMismatch))
    ensures SameCurrency(m, om) ==> r == Outcome(m.amount == om.amount, None)
  {
    var err := AssertSameCurrency(m, om);
    if err.Some? then Outcome(false, err) else Outcome(Compare(m, om) == 0, None)
  }

  function GreaterThan(m: Money, om: Money): (r: Outcome<bool>)
    ensures !SameCurrency(m, om) ==> r == Outcome(false, Some(CurrencyMismatch))
    ensures SameCurrency(m, om) ==> r == Outcome(m.amount > om.amount, None)
  {
    var err := AssertSameCurrency(m, om);
    if err.Some? then Outcome(false, err) else Outcome(Compare(m, om) == 1, None)
  }

  function GreaterThanOrEqual(m: Money, om: Money): (r: Outcome<bool>)
    ensures !SameCurrency(m, om) ==> r == Outcome(false, Some(CurrencyMismatch))
    ensures SameCurrency(m, om) ==> r == Outcome(m.amount >= om.amount, None)
  {
    var err := AssertSameCurrency(m, om);
    if err.Some? then Outcome(false, err) else Outcome(Compare(m, om) >= 0, None)
  }

  function LessThan(m: Money, om: Money): (r: Outcome<bool>)
    ensures !SameCurrency(m, om) ==> r == Outcome(false, Some(CurrencyMismatch))
    ensures SameCurrency(m, om) ==> r == Outcome(m.amount < om.amount, None)
  {
    var err := AssertSameCurrency(m, om);
    if err.Some? then Outcome(false, err) else Outcome(Compare(m, om) == -1, None)
  }

  function LessThanOrEqual(m: Money, om: Money): (r: Outcome<bool>)
    ensures !SameCurrency(m, om) ==> r == Outcome(false, Some(CurrencyMismatch))
    ensures SameCurrency(m, om) ==> r == Outcome(m.amount <= om.amount, None)
  {
    var err := AssertSameCurrency(m, om);
    if err.Some? then Outcome(false, err) else Outcome(Compare(m, om) <= 0, None)
  }

  /** The comparisons mirror each other: m > om is om < m, m >= om is the
      negation of m < om, and equality is symmetric. */
  lemma ComparisonsMirror(m: Money, om: Money)
    ensures GreaterThan(m, om) == LessThan(om, m)
    ensures GreaterThanOrEqual(m, om) == LessThanOrEqual(om, m)
    ensures Equals(m, om) == Equals(om, m)
    ensures SameCurrency(m, om) ==> GreaterThanOrEqual(m, om).value == !LessThan(m, om).value
  {
  }

  /** IsZero is comparing equal to zero in the same currency. */
  predicate IsZero(m: Money)
    ensures IsZero(m) <==> Equals(m, Money(0, m.currency)) == Outcome(true, None)
  {
    m.amount == 0
  }

  /** IsPositive is comparing greater than zero in the same currency. */
  predicate IsPositive(m: Money)
    ensures IsPositive(m) <==> GreaterThan(m, Money(0, m.currency)) == Outcome(true, None)
  {
    m.amount > 0
  }

  /** IsNegative is comparing less than zero in the same currency. */
  predicate IsNegative(m: Money)
    ensures IsNegative(m) <==> LessThan(m, Money(0, m.currency)) == Outcome(true, None)
  {
    m.amount < 0
  }

  /** Exactly one of IsZero, IsPositive and IsNegative holds. */
  lemma SignTrichotomy(m: Money)
    ensures IsZero(m) || IsPositive(m) || IsNegative(m)
    ensures !(IsZero(m) && IsPositive(m)) && !(IsZero(m) && IsNegative(m))
    ensures !(IsPositive(m) && IsNegative(m))
  {
  }

  // ---------------------------------------------------------------------
  // Arithmetic

  function Absolute(m: Money): (r: Money)
    requires m.amount != MinInt64
    ensures r.currency == m.currency
    ensures r.amount >= 0 && Abs(r.amount) == Abs(m.amount)
  {
    Money(MoneyMath.Absolute(m.amount), m.currency)
  }

  function Negative(m: Money): (r: Money)
    ensures r.currency == m.currency
    ensures r.amount <= 0 && Abs(r.amount) == Abs(m.amount)
  {
    Money(MoneyMath.Negative(m.amount), m.currency)
  }

  /** Add: on a currency mismatch, the second operand unchanged with
      ErrCurrencyMismatch; otherwise the sum in the receiver's currency. */
  function Add(m: Money, om: Money): (r: Outcome<Money>)
    requires SameCurrency(m, om) ==> InInt64(m.amount + om.amount)
    ensures !SameCurrency(m, om) ==> r == Outcome(om, Some(CurrencyMismatch))
    ensures SameCurrency(m, om) ==> r.err == None && r.value.currency == m.currency
    ensures SameCurrency(m, om) ==> r.value.amount == m.amount + om.amount
  {
    var err := AssertSameCurrency(m, om);
    if err.Some? then Outcome(om, err)
    else Outcome(Money(MoneyMath.Add(m.amount, om.amount), m.currency), None)
  }

  /** Subtract: like Add, with the difference. */
  function Subtract(m: Money, om: Money): (r: Outcome<Money>)
    requires SameCurrency(m, om) ==> InInt64(m.amount - om.amount)
    ensures !SameCurrency(m, om) ==> r == Outcome(om, Some(CurrencyMismatch))
    ensures SameCurrency(m, om) ==> r.err == None && r.value.currency == m.currency
    ensures SameCurrency(m, om) ==> r.value.amount == m.amount - om.amount
  {
    var err := AssertSameCurrency(m, om);
    if err.Some? then Outcome(om, err)
    else Outcome(Money(MoneyMath.Subtract(m.amount, om.amount), m.currency), None)
  }

  /** Subtracting what was added gives the receiver back. */
  lemma AddThenSubtract(m: Money, om: Money)
    requires SameCurrency(m, om) && InInt64(m.amount + om.amount)
    ensures SameCurrency(Add(m, om).value, om)
    ensures Subtract(Add(m, om).value, om) == Outcome(m, None)
  {
  }

  /** Multiply: the amount times the multiplier, in the same currency;
      dividing by a non-zero multiplier gives the original amount back. */
  function Multiply(m: Money, mul: Int64): (r: Money)
    requires InInt64(m.amount * mul)
    ensures r.currency == m.currency && r.amount == m.amount * mul
    ensures mul != 0 ==> r.amount / mul == m.amount
  {
    Money(MoneyMath.Multiply(m.amount, mul), m.currency)
  }

  /** Multiplying a sum is summing the multiplied operands. */
  lemma MultiplyDistributes(m: Money, om: Money, mul: Int64)
    requires SameCurrency(m, om) && InInt64(m.amount + om.amount)
    requires InInt64(m.amount * mul) && InInt64(om.amount * mul)
    requires InInt64((m.amount + om.amount) * mul)
    ensures Multiply(Add(m, om).value, mul) == Add(Multiply(m, mul), Multiply(om, mul)).value
  {
    assert (m.amount + om.amount) * mul == m.amount * mul + om.amount * mul;
  }

  /** Round: the amount rounded to a multiple of 10^fraction, ties toward
      zero, in the same currency. */
  function Round(m: Money): (r: Money)
    requires RoundFits(m.amount, m.currency.fraction)
    ensures r.currency == m.currency
    ensures r.amount % Pow10(m.currency.fraction) == 0
    ensures Abs(r.amount - m.amount) <= Pow10(m.currency.fraction) / 2
    ensures Abs(r.amount) > Abs(m.amount)
            <==> Abs(m.amount) % Pow10(m.currency.fraction) > Pow10(m.currency.fraction) / 2
    ensures r.amount == 0 || (r.amount > 0 <==> m.amount > 0)
  {
    Money(MoneyMath.Round(m.amount, m.currency.fraction), m.currency)
  }

  // ---------------------------------------------------------------------
  // Split and Allocate

  /** Split: n shares of the amount, the leftover units of a truncated
      division going one each to the first parties; ErrNegativeSplit when n
      is not positive. */
  method Split(m: Money, n: Int64) returns (r: Outcome<seq<Money>>)
    ensures n <= 0 ==> r == Outcome([], Some(NegativeSplit))
    ensures n > 0 ==> r.err == None && Amounts(r.value) == SplitAmounts(m.amount, n)
    ensures n > 0 ==> forall i :: 0 <= i < |r.value| ==> r.value[i].currency == m.currency
    ensures n > 0 ==> |r.value| == n && Sum(Amounts(r.value)) == m.amount
  {
    if n <= 0 {
      return Outcome([], Some(NegativeSplit));
    }
    var a := Divide(m.amount, n);
    var ms := EqualShares(a, m.currency, n);
    var rem := Modulus(m.amount, n);
    var l := MoneyMath.Absolute(rem);
    var v: Int64 := 1;
    if m.amount < 0 {
      v := -1;
    }
    SplitLayout(m.amount, n);
    AddLeftover(ms, l, v);
    r := Outcome(ms[..], None);
    assert Amounts(r.value) == SplitAmounts(m.amount, n);
    SplitConserves(m.amount, n);
  }

  /** Split's first loop: n fresh parties, each holding the quotient. */
  method EqualShares(a: Int64, c: Currency, n: Int64) returns (ms: array<Money>)
    requires n > 0
    ensures fresh(ms) && ms.Length == n
    ensures forall j :: 0 <= j < n ==> ms[j] == Money(a, c)
  {
    ms := new Money[n];
    for i := 0 to n
      invariant forall j :: 0 <= j < i ==> ms[j] == Money(a, c)
    {
      ms[i] := Money(a, c);
    }
  }

  /** Split's leftover loop: one unit `v` added to each of the first `l`
      parties, counting `l` down; the other parties are untouched. */
  method AddLeftover(ms: array<Money>, l: int, v: Int64)
    requires 0 <= l <= ms.Length
    requires forall j :: 0 <= j < l ==> InInt64(ms[j].amount + v)
    modifies ms
    ensures forall j :: 0 <= j < ms.Length ==> ms[j].currency == old(ms[j].currency)
    ensures forall j :: 0 <= j < ms.Length ==>
              ms[j].amount == old(ms[j].amount) + (if j < l then v else 0)
  {
    var left := l;
    var p := 0;
    while left != 0
      invariant 0 <= p <= l && left == l - p
      invariant forall j :: 0 <= j < ms.Length ==> ms[j].currency == old(ms[j].currency)
      invariant forall j :: 0 <= j < ms.Length ==>
                  ms[j].amount == old(ms[j].amount) + (if j < p then v else 0)
    {
      ms[p] := ms[p].(amount := MoneyMath.Add(ms[p].amount, v));
      left := left - 1;
      p := p + 1;
    }
  }

  /** Allocate: shares proportional to the ratios, truncated, with the
      leftover units going one each to the first parties; ErrNoRatios when
      there are no ratios. */
  method Allocate(m: Money, rs: seq<Int64>) returns (r: Outcome<seq<Money>>)
    requires |rs| > 0 ==> AllocateFits(m.amount, rs)
    ensures |rs| == 0 ==> r == Outcome([], Some(NoRatios))
    ensures |rs| > 0 ==> r.err == None && Amounts(r.value) == AllocateAmounts(m.amount, rs)
    ensures |rs| > 0 ==> forall i :: 0 <= i < |r.value| ==> r.value[i].currency == m.currency
    ensures |rs| > 0 ==> |r.value| == |rs| && Sum(Amounts(r.value)) == m.amount
  {
    if |rs| == 0 {
      return Outcome([], Some(NoRatios));
    }
    var sum := SumRatios(rs);
    var ms, total := BaseShares(m, rs, sum);
    var lo := m.amount - total;
    AllocateFitsEach(m.amount, rs);
    ghost var shares := AllocateAmounts(m.amount, rs);
    assert forall j :: 0 <= j < Abs(lo) ==> shares[j] == ms[j].amount + (if lo < 0 then -1 else 1);
    ms := HandOutLeftover(ms, lo);
    r := Outcome(ms, None);
    AllocateConserves(m.amount, rs);
  }

  /** Allocate's first loop: the total of the ratios. */
  method SumRatios(rs: seq<Int64>) returns (sum: int)
    ensures sum == Sum(rs)
  {
    sum := 0;
    for i := 0 to |rs|
      invariant sum == Sum(rs[..i])
    {
      SumStep(rs, i);
      sum := sum + rs[i];
    }
    assert rs[..|rs|] == rs;
  }

  /** Allocate's second loop: every party's truncated proportional share,
      in the amount's currency, and their total. */
  method BaseShares(m: Money, rs: seq<Int64>, sum: int) returns (ms: seq<Money>, total: int)
    requires AllocateFits(m.amount, rs) && sum == Sum(rs)
    ensures Amounts(ms) == AllocateBases(m.amount, rs) && total == Sum(Amounts(ms))
    ensures forall j :: 0 <= j < |ms| ==> ms[j].currency == m.currency
  {
    ghost var bases := AllocateBases(m.amount, rs);
    total := 0;
    ms := [];
    for i := 0 to |rs|
      invariant |ms| == i
      invariant forall j :: 0 <= j < i ==> ms[j] == Money(bases[j], m.currency)
      invariant total == Sum(bases[..i])
    {
      var party := Money(MoneyMath.Allocate(m.amount, rs[i], sum), m.currency);
      ms := ms + [party];
      SumStep(bases, i);
      total := total + party.amount;
    }
    assert bases[..|rs|] == bases;
    assert Amounts(ms) == bases;
  }

  /** Allocate's last loop: hands the leftover `lo` out one unit at a time,
      with its sign, from the first party on, until none is left. */
  method HandOutLeftover(ms: seq<Money>, lo: int) returns (r: seq<Money>)
    requires Abs(lo) <= |ms|
    requires forall j :: 0 <= j < Abs(lo) ==> InInt64(ms[j].amount + (if lo < 0 then -1 else 1))
    ensures |r| == |ms| && forall j :: 0 <= j < |ms| ==> r[j].currency == ms[j].currency
    ensures Amounts(r) == Distribute(Amounts(ms), Abs(lo), if lo < 0 then -1 else 1)
  {
    var sub := 1;
    if lo < 0 {
      sub := -sub;
    }
    r := ms;
    var left := lo;
    var p := 0;
    while left != 0
      invariant 0 <= p <= Abs(lo) && left == (if lo < 0 then lo + p else lo - p)
      invariant |r| == |ms|
      invariant forall j :: 0 <= j < |ms| ==> r[j].currency == ms[j].currency
      invariant forall j :: 0 <= j < |ms| ==> r[j].amount == ms[j].amount + (if j < p then sub else 0)
      decreases Abs(lo) - p
    {
      r := r[p := r[p].(amount := MoneyMath.Add(r[p].amount, sub))];
      left := left - sub;
      p := p + 1;
    }
  }

  // ---------------------------------------------------------------------
  // Display

  /** Display: the absolute amount's digits, zero-padded past the fraction,
      thousands separators inserted from the right of the integer part, the
      decimal separator, the template filled in, and a minus sign in front of
      a negative amount. */
  method Display(m: Money) returns (s: string)
    requires m.amount != MinInt64
    ensures s == Text.Shown(m.amount, m.currency)
  {
    var c := m.currency;
    var sa := NumberText(MoneyMath.Absolute(m.amount), c);
    sa := Text.ReplaceFirst(c.template, '1', sa);
    sa := Text.ReplaceFirst(sa, '$', c.grapheme);
    if m.amount < 0 {
      sa := "-" + sa;
    }
    s := sa;
  }

  /** Display's number, built in place: padded digits, then the separators
      spliced in, then the decimal separator before the minor units. */
  method NumberText(n: Int64, c: Currency) returns (sa: string)
    requires n >= 0
    ensures sa == Text.FormatNumber(n, c)
  {
    sa := Text.FormatDecimal(n);
    if |sa| <= c.fraction {
      sa := Text.Repeat('0', c.fraction - |sa| + 1) + sa;
    }
    assert sa == Text.PaddedDigits(n, c.fraction);
    var major, minor := sa[..|sa| - c.fraction], sa[|sa| - c.fraction..];
    assert sa == major + minor;
    if c.thousand != "" {
      sa := GroupDigits(major, minor, c.thousand);
    }
    ghost var grouped := if c.thousand != "" then Text.GroupThousands(major, c.thousand) else major;
    assert sa == grouped + minor;
    if c.fraction > 0 {
      assert sa[..|sa| - c.fraction] == grouped && sa[|sa| - c.fraction..] == minor;
      sa := sa[..|sa| - c.fraction] + c.decimal + sa[|sa| - c.fraction..];
    }
  }

  /** Display's grouping loop over the padded digits `major + minor`: from the
      right end of the integer digits towards the front, a separator is
      spliced in before every group of three. */
  method GroupDigits(major: string, minor: string, sep: string) returns (s: string)
    requires |major| >= 1
    ensures s == Text.GroupThousands(major, sep) + minor
  {
    s := major + minor;
    var k := |major|;
    var i := k - 3;
    assert major[k..] == [] && major[..k] == major;
    while i > 0
      invariant 1 <= i + 3 <= k && (k - (i + 3)) % 3 == 0
      invariant s == major[..i + 3] + Text.Triples(major[i + 3..], sep) + minor
    {
      GroupStep(major, minor, i, sep);
      s := s[..i] + sep + s[i..];
      i := i - 3;
    }
    Text.LeadLengthUnique(major, i + 3);
  }

  /** One splice of Display's grouping loop puts one more group of three
      behind a separator. */
  lemma GroupStep(d: string, minor: string, i: int, sep: string)
    requires 0 < i && i + 3 <= |d| && (|d| - (i + 3)) % 3 == 0
    ensures var s := d[..i + 3] + Text.Triples(d[i + 3..], sep) + minor;
            s[..i] + sep + s[i..] == d[..i] + Text.Triples(d[i..], sep) + minor
  {
    var rest := Text.Triples(d[i + 3..], sep);
    var s := d[..i + 3] + rest + minor;
    assert d[i..][..3] == d[i..i + 3];
    assert d[i..][3..] == d[i + 3..];
    assert Text.Triples(d[i..], sep) == sep + d[i..i + 3] + rest;
    assert s[..i] == d[..i];
    assert s[i..] == d[i..i + 3] + rest + minor;
  }
}
