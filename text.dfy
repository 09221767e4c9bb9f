/** What Money.Display (money.go) prints, as functions on strings: the
    digits of the absolute amount, zero-padded past the fraction, thousands
    separators between groups of three integer digits, the decimal separator
    before the last `fraction` digits, the currency template filled in, and a
    leading minus for negative amounts. The string library calls Display
    makes (strconv.FormatInt, strings.Repeat, strings.Replace) are modelled
    here too. Go strings are bytes; here they are sequences of characters,
    which changes nothing because every position Display computes falls
    between ASCII digits. */
module Text {
  import opened MoneyMath
  import opened Currencies

  predicate IsDigit(c: char) {
    '0' <= c <= '9'
  }

  predicate AllDigits(s: string) {
    forall i :: 0 <= i < |s| ==> IsDigit(s[i])
  }

  /** No superfluous leading zero. */
  predicate Canonical(s: string) {
    |s| == 1 || (|s| > 1 && s[0] != '0')
  }

  /** The number a string of decimal digits denotes. */
  function ValueOf(s: string): nat
    requires AllDigits(s)
  {
    if s == [] then 0 else ValueOf(s[..|s| - 1]) * 10 + (s[|s| - 1] as int - '0' as int)
  }

  function DigitChar(d: nat): (c: char)
    requires d < 10
    ensures IsDigit(c) && c as int - '0' as int == d
  {
    ('0' as int + d) as char
  }

  /** strconv.FormatInt(n, 10) for n >= 0: the canonical decimal digits of n. */
  function FormatDecimal(n: nat): (s: string)
    ensures AllDigits(s) && Canonical(s)
    ensures ValueOf(s) == n
  {
    if n < 10 then [DigitChar(n)]
    else
      var init := FormatDecimal(n / 10);
      var s := init + [DigitChar(n % 10)];
      assert s[..|s| - 1] == init;
      s
  }

  /** strings.Repeat of a one-character string. */
  function Repeat(c: char, k: nat): (s: string)
    ensures |s| == k && forall i :: 0 <= i < k ==> s[i] == c
  {
    seq(k, _ => c)
  }

  /** Reading p + q: the digits of p, shifted past those of q. */
  lemma {:induction false} ValueOfConcat(p: string, q: string)
    requires AllDigits(p) && AllDigits(q)
    ensures AllDigits(p + q)
    ensures ValueOf(p + q) == ValueOf(p) * Pow10(|q|) + ValueOf(q)
  {
    assert AllDigits(p + q) by {
      forall i | 0 <= i < |p + q|
        ensures IsDigit((p + q)[i])
      {
        if i >= |p| {
          assert (p + q)[i] == q[i - |p|];
        }
      }
    }
    if q != [] {
      var n := |q|;
      var q' := q[..n - 1];
      assert (p + q)[..|p + q| - 1] == p + q';
      ValueOfConcat(p, q');
      var d := q[n - 1] as int - '0' as int;
      assert ValueOf(p + q) == ValueOf(p + q') * 10 + d;
      assert ValueOf(q) == ValueOf(q') * 10 + d;
      ShiftDigit(ValueOf(p), Pow10(n - 1), ValueOf(q'), d);
    } else {
      assert p + q == p;
    }
  }

  lemma ShiftDigit(x: int, e: int, y: int, d: int)
    ensures (x * e + y) * 10 + d == x * (10 * e) + (y * 10 + d)
  {
  }

  /** k digits denote less than 10^k. */
  lemma {:induction false} ValueOfBelow(s: string)
    requires AllDigits(s)
    ensures ValueOf(s) < Pow10(|s|)
  {
    if s != [] {
      ValueOfBelow(s[..|s| - 1]);
    }
  }

  lemma {:induction false} ValueOfZeros(k: nat)
    ensures AllDigits(Repeat('0', k)) && ValueOf(Repeat('0', k)) == 0
  {
    if k > 0 {
      assert Repeat('0', k)[..k - 1] == Repeat('0', k - 1);
      ValueOfZeros(k - 1);
    }
  }

  // ---------------------------------------------------------------------
  // The number: padding, grouping, decimal separator

  /** Display's first step: the digits of n, left-padded with zeros until
      there are more digits than `fraction`. */
  function PaddedDigits(n: nat, fraction: nat): (s: string)
    ensures |s| > fraction && AllDigits(s) && ValueOf(s) == n
  {
    var sa := FormatDecimal(n);
    if |sa| <= fraction then
      var zeros := Repeat('0', fraction - |sa| + 1);
      ValueOfZeros(fraction - |sa| + 1);
      ValueOfConcat(zeros, sa);
      zeros + sa
    else sa
  }

  /** The digits before the decimal separator. */
  function MajorDigits(n: nat, fraction: nat): string {
    var s := PaddedDigits(n, fraction);
    s[..|s| - fraction]
  }

  /** The last `fraction` digits, after the decimal separator. */
  function MinorDigits(n: nat, fraction: nat): string {
    var s := PaddedDigits(n, fraction);
    s[|s| - fraction..]
  }

  /** The integer digits are the canonical digits of the major units, and the
      fraction digits are exactly `fraction` digits denoting the minor units. */
  lemma PaddedParts(n: nat, fraction: nat)
    ensures var major, minor := MajorDigits(n, fraction), MinorDigits(n, fraction);
            && AllDigits(major) && Canonical(major)
            && ValueOf(major) == n / Pow10(fraction)
            && |minor| == fraction && AllDigits(minor)
            && ValueOf(minor) == n % Pow10(fraction)
  {
    var s := PaddedDigits(n, fraction);
    var major, minor := MajorDigits(n, fraction), MinorDigits(n, fraction);
    assert s == major + minor;
    ValueOfConcat(major, minor);
    ValueOfBelow(minor);
    DivUnique(n, Pow10(fraction), ValueOf(major), ValueOf(minor));
    var sa := FormatDecimal(n);
    if |sa| > fraction {
      assert major == sa[..|sa| - fraction];
    }
  }

  /** `t`, a whole number of three-digit groups, each preceded by `sep`. */
  function Triples(t: string, sep: string): string
    requires |t| % 3 == 0
  {
    if t == [] then [] else sep + t[..3] + Triples(t[3..], sep)
  }

  /** How many digits stand before the first separator: one to three. */
  function LeadLength(d: string): nat
    requires |d| >= 1
  {
    (|d| - 1) % 3 + 1
  }

  lemma LeadLengthFacts(d: string)
    requires |d| >= 1
    ensures 1 <= LeadLength(d) <= 3 && LeadLength(d) <= |d|
    ensures (|d| - LeadLength(d)) % 3 == 0
  {
    var m := |d| - 1;
    assert m == (m / 3) * 3 + m % 3;
    MulDivCancel(m / 3, 3);
  }

  /** The lead group is the only one of one to three digits that leaves a
      whole number of triples behind it. */
  lemma LeadLengthUnique(d: string, j: int)
    requires 1 <= j <= 3 && j <= |d| && (|d| - j) % 3 == 0
    ensures j == LeadLength(d)
  {
    LeadLengthFacts(d);
    var l := LeadLength(d);
    var q, p := (|d| - j) / 3, (|d| - l) / 3;
    assert |d| - j == 3 * q && |d| - l == 3 * p;
    assert 3 * (p - q) == j - l;
  }

  /** Integer digits with `sep` between every group of three, counted from
      the right. No digit is lost or moved: after the lead group, the text is
      nothing but `sep` followed by three characters, repeated, and taking
      the separators out gives the digits back. */
  function GroupThousands(d: string, sep: string): (g: string)
    requires |d| >= 1
    ensures LeadLength(d) <= |g|
    ensures g[..LeadLength(d)] + UnTriples(g[LeadLength(d)..], sep) == d
  {
    var j := LeadLength(d);
    LeadLengthFacts(d);
    var t := Triples(d[j..], sep);
    TriplesRoundTrip(d[j..], sep);
    assert (d[..j] + t)[..j] == d[..j];
    assert (d[..j] + t)[j..] == t;
    assert d[..j] + d[j..] == d;
    d[..j] + t
  }

  /** Takes a grouped string apart again: each group must be `sep`
      followed by three characters, and the separator is dropped. Text of
      any other shape ends in a single "?", which leaves a result whose
      length is not a multiple of three, so no whole number of triples
      can come back from it. */
  function UnTriples(g: string, sep: string): string
    decreases |g|
  {
    if g == [] then []
    else if |g| < |sep| + 3 || g[..|sep|] != sep then "?"
    else g[|sep|..|sep| + 3] + UnTriples(g[|sep| + 3..], sep)
  }

  /** No digit is lost or moved by grouping: taking the separators out gives the digits back. */
  lemma {:induction false} TriplesRoundTrip(t: string, sep: string)
    requires |t| % 3 == 0
    ensures UnTriples(Triples(t, sep), sep) == t
  {
    if t != [] {
      var g := Triples(t, sep);
      assert g == sep + t[..3] + Triples(t[3..], sep);
      assert g[..|sep|] == sep;
      assert g[|sep|..|sep| + 3] == t[..3];
      assert g[|sep| + 3..] == Triples(t[3..], sep);
      TriplesRoundTrip(t[3..], sep);
    }
  }

  /** The integer digits of `n` minor units, grouped by the thousands
      separator when the currency has one; it starts with a digit. */
  function IntegerText(n: nat, c: Currency): (ip: string)
    ensures |ip| >= 1 && IsDigit(ip[0])
  {
    var major := MajorDigits(n, c.fraction);
    PaddedParts(n, c.fraction);
    LeadLengthFacts(major);
    if c.thousand != "" then
      var g := GroupThousands(major, c.thousand);
      assert g[0] == g[..LeadLength(major)][0];
      g
    else major
  }

  /** Display's number: grouped integer digits, then the decimal separator
      and the fraction digits when the currency has minor units. It starts
      with a digit, and when the currency has minor units it ends in the
      decimal separator followed by exactly `fraction` digits denoting the
      minor units. Everything before that is the integer digits, grouped by
      the thousands separator when the currency has one. */
  function FormatNumber(n: nat, c: Currency): (s: string)
    ensures |s| > 0 && IsDigit(s[0])
    ensures var ip := IntegerText(n, c);
            && |s| == |ip| + (if c.fraction > 0 then |c.decimal| + c.fraction else 0)
            && s[..|ip|] == ip
    ensures var f := c.fraction;
            f > 0 ==> var k := |s| - f;
                      && k > |c.decimal|
                      && s[k - |c.decimal|..k] == c.decimal
                      && AllDigits(s[k..]) && ValueOf(s[k..]) == n % Pow10(f)
  {
    var f := c.fraction;
    PaddedParts(n, f);
    var grouped, minor := IntegerText(n, c), MinorDigits(n, f);
    if f > 0 then
      var s := grouped + c.decimal + minor;
      var k := |s| - f;
      assert s[k..] == minor;
      assert s[k - |c.decimal|..k] == c.decimal;
      assert s[..|grouped|] == grouped;
      s
    else grouped
  }

  // ---------------------------------------------------------------------
  // Template

  /** Where c first occurs in s. */
  function FirstIndex(s: string, c: char): (k: nat)
    requires c in s
    ensures k < |s| && s[k] == c && c !in s[..k]
  {
    if s[0] == c then 0
    else
      var k := 1 + FirstIndex(s[1..], c);
      assert s[..k] == [s[0]] + s[1..][..k - 1];
      k
  }

  /** strings.Replace(s, string(pat), rep, 1): the first `pat` replaced by `rep`. */
  function ReplaceFirst(s: string, pat: char, rep: string): (r: string)
    ensures pat !in s ==> r == s
    ensures pat in s ==> var k := FirstIndex(s, pat); r == s[..k] + rep + s[k + 1..]
  {
    if s == [] then []
    else if s[0] == pat then rep + s[1..]
    else
      var tail := ReplaceFirst(s[1..], pat, rep);
      ReplaceStep(s, pat, rep, tail);
      [s[0]] + tail
  }

  /** ReplaceFirst past a first character that is not the pattern. */
  lemma ReplaceStep(s: string, pat: char, rep: string, tail: string)
    requires s != [] && s[0] != pat
    requires pat !in s[1..] ==> tail == s[1..]
    requires pat in s[1..] ==> var k := FirstIndex(s[1..], pat);
                               tail == s[1..][..k] + rep + s[1..][k + 1..]
    ensures pat !in s ==> [s[0]] + tail == s
    ensures pat in s ==> var k := FirstIndex(s, pat);
                         [s[0]] + tail == s[..k] + rep + s[k + 1..]
  {
    var t := s[1..];
    assert s == [s[0]] + t;
    if pat in s {
      assert pat in t;
      var j := FirstIndex(t, pat);
      SpliceAfter([s[0]], t, pat, j);
      Splice([s[0]], t, j, rep);
    }
  }

  /** The first occurrence is the one with no occurrence before it. */
  lemma FirstIndexUnique(s: string, c: char, k: nat)
    requires k < |s| && s[k] == c && c !in s[..k]
    ensures FirstIndex(s, c) == k
  {
  }

  /** A prefix without the pattern passes through unchanged. */
  lemma ReplaceFirstAfter(x: string, t: string, pat: char, rep: string)
    requires pat !in x
    ensures ReplaceFirst(x + t, pat, rep) == x + ReplaceFirst(t, pat, rep)
  {
    if pat in t {
      var j := FirstIndex(t, pat);
      SpliceAfter(x, t, pat, j);
      Splice(x, t, j, rep);
    } else {
      assert pat !in x + t;
    }
  }

  /** The first occurrence in x + t, for x without one. */
  lemma SpliceAfter(x: string, t: string, pat: char, j: nat)
    requires pat !in x && pat in t && j == FirstIndex(t, pat)
    ensures FirstIndex(x + t, pat) == |x| + j
  {
    var s := x + t;
    assert s[..|x| + j] == x + t[..j];
    FirstIndexUnique(s, pat, |x| + j);
  }

  lemma Splice(x: string, t: string, j: nat, rep: string)
    requires j < |t|
    ensures var s := x + t;
            s[..|x| + j] + rep + s[|x| + j + 1..] == x + (t[..j] + rep + t[j + 1..])
  {
    var s := x + t;
    assert s[..|x| + j] == x + t[..j];
    assert s[|x| + j + 1..] == t[j + 1..];
  }

  /** `t` with the character at i replaced by x and the one at k by y. */
  function PutTwo(t: string, i: nat, x: string, k: nat, y: string): string
    requires i < k < |t|
  {
    t[..i] + x + t[i + 1..k] + y + t[k + 1..]
  }

  /** The template with the digits put in for "1", then the symbol for the
      first "$". When the template holds both, each is replaced where it
      stands, whichever comes first (the symbol after the number needs a
      number without "$" in it). */
  function Fill(c: Currency, number: string): (r: string)
    ensures var t := c.template;
            '$' in t && '1' in t && FirstIndex(t, '$') < FirstIndex(t, '1') ==>
              r == PutTwo(t, FirstIndex(t, '$'), c.grapheme, FirstIndex(t, '1'), number)
    ensures var t := c.template;
            '$' in t && '1' in t && FirstIndex(t, '1') < FirstIndex(t, '$') && '$' !in number ==>
              r == PutTwo(t, FirstIndex(t, '1'), number, FirstIndex(t, '$'), c.grapheme)
  {
    var t := c.template;
    var r := ReplaceFirst(ReplaceFirst(t, '1', number), '$', c.grapheme);
    if '$' in t && '1' in t then
      var i, k := FirstIndex(t, '$'), FirstIndex(t, '1');
      if i < k then
        SymbolBeforeNumber(t, number, c.grapheme, i, k);
        r
      else if '$' !in number then
        SymbolAfterNumber(t, number, c.grapheme, i, k);
        r
      else r
    else r
  }

  /** A "$" before the "1" is still the first "$" once the digits are in. */
  lemma SymbolBeforeNumber(t: string, number: string, g: string, i: nat, k: nat)
    requires '$' in t && '1' in t
    requires i == FirstIndex(t, '$') && k == FirstIndex(t, '1') && i < k
    ensures ReplaceFirst(ReplaceFirst(t, '1', number), '$', g) == PutTwo(t, i, g, k, number)
  {
    var s := t[..k] + number + t[k + 1..];
    ReplaceAt(t, '1', number, k);
    SpliceBefore(t, number, g, i, k, s);
    ReplaceAt(s, '$', g, i);
  }

  /** A "$" after the "1" moves along by the digits' length, as long as the
      digits hold no "$" of their own. */
  lemma SymbolAfterNumber(t: string, number: string, g: string, i: nat, k: nat)
    requires '$' in t && '1' in t && '$' !in number
    requires i == FirstIndex(t, '$') && k == FirstIndex(t, '1') && k < i
    ensures ReplaceFirst(ReplaceFirst(t, '1', number), '$', g) == PutTwo(t, k, number, i, g)
  {
    var s, j := t[..k] + number + t[k + 1..], |number| + i - 1;
    ReplaceAt(t, '1', number, k);
    SpliceAfterNumber(t, number, g, i, k, s, j);
    ReplaceAt(s, '$', g, j);
  }

  /** Replacing the first `pat`, once its position is known. */
  lemma ReplaceAt(s: string, pat: char, rep: string, j: nat)
    requires j < |s| && s[j] == pat && pat !in s[..j]
    ensures ReplaceFirst(s, pat, rep) == s[..j] + rep + s[j + 1..]
  {
    FirstIndexUnique(s, pat, j);
  }

  /** The pieces of the template, with the digits in, around a "$" at i < k. */
  lemma SpliceBefore(t: string, number: string, g: string, i: nat, k: nat, s: string)
    requires i < k < |t| && '$' !in t[..i] && t[i] == '$'
    requires s == t[..k] + number + t[k + 1..]
    ensures i < |s| && s[i] == '$' && '$' !in s[..i]
    ensures s[..i] + g + s[i + 1..] == PutTwo(t, i, g, k, number)
  {
    assert s[..i] == t[..i];
    assert s[i + 1..] == t[i + 1..k] + number + t[k + 1..];
  }

  /** The pieces of the template, with the digits in, around a "$" at i > k. */
  lemma SpliceAfterNumber(t: string, number: string, g: string, i: nat, k: nat, s: string, j: nat)
    requires k < i < |t| && '$' !in t[..i] && t[i] == '$' && '$' !in number
    requires s == t[..k] + number + t[k + 1..] && j == |number| + i - 1
    ensures j < |s| && s[j] == '$' && '$' !in s[..j]
    ensures s[..j] + g + s[j + 1..] == PutTwo(t, k, number, i, g)
  {
    var v := t[..k] + number + t[k + 1..i];
    assert t[..i] == t[..k] + [t[k]] + t[k + 1..i];
    assert t[k + 1..] == t[k + 1..i] + t[i..];
    assert t[i..] == [t[i]] + t[i + 1..];
    assert s == v + [t[i]] + t[i + 1..];
    assert s[..j] == v && s[j + 1..] == t[i + 1..];
  }

  /** The whole text Display prints for an amount in a currency. It starts
      with a minus sign exactly for negative amounts, as long as the
      currency's template and symbol do not start with one themselves. */
  function Shown(amount: Int64, c: Currency): (s: string)
    requires amount != MinInt64
    ensures c.template != [] && c.template[0] != '-'
            && (c.template[0] == '$' ==> c.grapheme != [] && c.grapheme[0] != '-')
            ==> ((s != [] && s[0] == '-') <==> amount < 0)
  {
    var number := FormatNumber(Absolute(amount), c);
    var body := Fill(c, number);
    var t := c.template;
    if amount < 0 then "-" + body
    else if t != [] && t[0] != '-' && (t[0] == '$' ==> c.grapheme != [] && c.grapheme[0] != '-') then
      var t1 := ReplaceFirst(t, '1', number);
      ReplaceFirstHead(t, '1', number);
      assert t1 != [] && t1[0] != '-';
      assert t1[0] == '$' ==> t[0] == '$';
      ReplaceFirstHead(t1, '$', c.grapheme);
      body
    else body
  }

  /** ReplaceFirst leaves a first character other than the pattern in place. */
  lemma ReplaceFirstHead(s: string, pat: char, rep: string)
    requires s != []
    ensures s[0] != pat ==> var r := ReplaceFirst(s, pat, rep); r != [] && r[0] == s[0]
    ensures s[0] == pat ==> ReplaceFirst(s, pat, rep) == rep + s[1..]
  {
  }

  /** A negative amount is shown as a minus sign before its absolute value. */
  lemma ShownNegative(amount: Int64, c: Currency)
    requires amount < 0 && amount != MinInt64
    ensures Shown(amount, c) == "-" + Shown(-amount, c)
  {
  }
}
