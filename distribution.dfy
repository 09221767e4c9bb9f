/** The integer arithmetic behind Money.Split and Money.Allocate (money.go):
    every party first gets a truncated base share, then the units the
    truncation left over are handed out, one each, to the first parties in
    index order. Nothing is lost or created, and no party gets more than the
    whole amount. */
module Distribution {
  import opened MoneyMath

  /** Sum of a sequence, peeling off the last element (as a loop over a prefix does). */
  function Sum(xs: seq<int>): int {
    if xs == [] then 0 else Sum(xs[..|xs| - 1]) + xs[|xs| - 1]
  }

  lemma SumStep(xs: seq<int>, i: nat)
    requires i < |xs|
    ensures Sum(xs[..i + 1]) == Sum(xs[..i]) + xs[i]
  {
    assert xs[..i + 1][..i] == xs[..i];
  }

  lemma {:induction false} SumConstant(n: nat, b: int)
    ensures Sum(seq(n, _ => b)) == n * b
  {
    if n > 0 {
      assert seq(n, _ => b)[..n - 1] == seq(n - 1, _ => b);
      SumConstant(n - 1, b);
    }
  }

  /** Every element of a sequence of non-negative numbers is at most its sum. */
  lemma {:induction false} NonNegativeWithinSum(xs: seq<int>, i: nat)
    requires forall j :: 0 <= j < |xs| ==> xs[j] >= 0
    requires i < |xs|
    ensures 0 <= xs[i] <= Sum(xs)
  {
    var n := |xs|;
    var init := xs[..n - 1];
    if i < n - 1 {
      NonNegativeWithinSum(init, i);
    } else if n > 1 {
      NonNegativeWithinSum(init, 0);
    }
  }

  /** Every element of a sequence of non-positive numbers is at least its sum. */
  lemma {:induction false} NonPositiveWithinSum(xs: seq<int>, i: nat)
    requires forall j :: 0 <= j < |xs| ==> xs[j] <= 0
    requires i < |xs|
    ensures Sum(xs) <= xs[i] <= 0
  {
    var n := |xs|;
    var init := xs[..n - 1];
    if i < n - 1 {
      NonPositiveWithinSum(init, i);
    } else if n > 1 {
      NonPositiveWithinSum(init, 0);
    }
  }

  // ---------------------------------------------------------------------
  // Handing out the leftover

  /** `bases`, with one `unit` added to each of the first `count` entries. */
  function Distribute(bases: seq<int>, count: nat, unit: int): (r: seq<int>)
    requires count <= |bases|
    ensures |r| == |bases|
  {
    seq(|bases|, i requires 0 <= i < |bases| => bases[i] + (if i < count then unit else 0))
  }

  /** Handing out `count` units adds exactly `count * unit` to the total. */
  lemma {:induction false} SumDistribute(bases: seq<int>, count: nat, unit: int)
    requires count <= |bases|
    ensures Sum(Distribute(bases, count, unit)) == Sum(bases) + count * unit
  {
    var n := |bases|;
    if n > 0 {
      var d := Distribute(bases, count, unit);
      var init := bases[..n - 1];
      if count == n {
        assert d[n - 1] == bases[n - 1] + unit;
        assert d[..n - 1] == Distribute(init, n - 1, unit);
        SumDistribute(init, n - 1, unit);
        OneMore(n - 1, unit);
      } else {
        assert d[n - 1] == bases[n - 1];
        assert d[..n - 1] == Distribute(init, count, unit);
        SumDistribute(init, count, unit);
      }
    }
  }

  lemma OneMore(k: int, u: int)
    ensures k * u + u == (k + 1) * u
  {
  }

  // ---------------------------------------------------------------------
  // Split

  /** The amounts Split(n) hands out: the truncated quotient a / n to every
      party, plus one unit of the amount's sign to each of the first |a % n|. */
  function SplitAmounts(a: Int64, n: Int64): (r: seq<int>)
    requires n > 0
    ensures |r| == n
  {
    var v := if a < 0 then -1 else 1;
    Distribute(seq(n, _ => Divide(a, n)), Abs(Modulus(a, n)), v)
  }

  /** Split conserves the amount. */
  lemma SplitConserves(a: Int64, n: Int64)
    requires n > 0
    ensures Sum(SplitAmounts(a, n)) == a
  {
    var b, r := Divide(a, n), Modulus(a, n);
    var v := if a < 0 then -1 else 1;
    SumDistribute(seq(n, _ => b), Abs(r), v);
    SumConstant(n, b);
    assert a == 0 ==> r == 0;
    SplitTotal(a, n, b, r);
  }

  /** The arithmetic of SplitConserves: n quotients plus |r| units of a's
      sign give a back. */
  lemma SplitTotal(a: int, n: int, b: int, r: int)
    requires a == b * n + r && (a >= 0 ==> r >= 0) && (a < 0 ==> r <= 0)
    ensures n * b + Abs(r) * (if a < 0 then -1 else 1) == a
  {
    assert n * b == b * n;
    if a < 0 {
      assert Abs(r) * -1 == r;
    }
  }

  /** Share i is the truncated quotient, plus the sign of the amount for the
      first |a % n| shares. */
  lemma SplitShape(a: Int64, n: Int64, i: nat)
    requires n > 0 && i < n
    ensures SplitAmounts(a, n)[i]
            == Divide(a, n) + (if i < Abs(Modulus(a, n)) then Sign(a) else 0)
  {
  }

  /** The shares differ by at most one unit, earlier shares are never smaller
      in magnitude than later ones, and every share has the amount's sign and
      is no larger than the amount. */
  lemma SplitFair(a: Int64, n: Int64, i: nat, j: nat)
    requires n > 0 && i <= j < n
    ensures var s := SplitAmounts(a, n);
            && Abs(s[j]) <= Abs(s[i]) <= Abs(s[j]) + 1
            && (s[i] == 0 || (s[i] > 0 <==> a > 0))
            && Abs(s[i]) <= Abs(a)
  {
    SplitMagnitude(a, n, i);
    SplitMagnitude(a, n, j);
    TruncatedMagnitudes(a, n);
    MulAtLeast(Abs(Divide(a, n)), n);
  }

  /** A share's magnitude is that of the quotient, plus one for the first |a % n|. */
  lemma SplitMagnitude(a: Int64, n: Int64, i: nat)
    requires n > 0 && i < n
    ensures var s := SplitAmounts(a, n)[i];
            && Abs(s) == Abs(Divide(a, n)) + (if i < Abs(Modulus(a, n)) then 1 else 0)
            && (s == 0 || (s > 0 <==> a > 0))
  {
  }

  /** Truncated division splits |a| into |a / n| parts of n and |a % n|. */
  lemma TruncatedMagnitudes(a: Int64, n: Int64)
    requires n > 0
    ensures Abs(a) == Abs(Divide(a, n)) * n + Abs(Modulus(a, n))
  {
    var b, r := Divide(a, n), Modulus(a, n);
    if a < 0 {
      assert b <= 0 && r <= 0;
      assert Abs(b) * n == -(b * n);
    }
  }

  /** The layout the Split loops build: the quotient in every share, and one
      unit of the amount's sign in each of the first |a % n| shares, all of
      which fit an int64. */
  lemma SplitLayout(a: Int64, n: Int64)
    requires n > 0
    ensures Abs(Modulus(a, n)) < n
    ensures forall j :: 0 <= j < n ==>
              SplitAmounts(a, n)[j] == Divide(a, n) + (if j < Abs(Modulus(a, n)) then (if a < 0 then -1 else 1) else 0)
    ensures forall j :: 0 <= j < n ==> InInt64(SplitAmounts(a, n)[j])
  {
    SplitFits(a, n);
  }

  /** Every Split share fits an int64. */
  lemma SplitFits(a: Int64, n: Int64)
    requires n > 0
    ensures forall i :: 0 <= i < n ==> InInt64(SplitAmounts(a, n)[i])
  {
    forall i | 0 <= i < n
      ensures InInt64(SplitAmounts(a, n)[i])
    {
      SplitFair(a, n, i, i);
    }
  }

  // ---------------------------------------------------------------------
  // Allocate

  /** What Allocate needs of its ratios to compute without overflow or a
      division by zero: some ratios, none negative, a positive sum that fits,
      and every product amount * ratio fits. */
  predicate AllocateFits(a: Int64, rs: seq<Int64>) {
    && |rs| > 0
    && (forall i :: 0 <= i < |rs| ==> rs[i] >= 0)
    && 0 < Sum(rs) <= MaxInt64
    && (forall i :: 0 <= i < |rs| ==> InInt64(a * rs[i]))
  }

  /** The truncated proportional base shares, before the leftover is handed out. */
  function AllocateBases(a: Int64, rs: seq<Int64>): (bs: seq<int>)
    requires AllocateFits(a, rs)
    ensures |bs| == |rs|
  {
    seq(|rs|, i requires 0 <= i < |rs| => Allocate(a, rs[i], Sum(rs)))
  }

  /** What the truncation left over. It has the amount's sign and is smaller
      in magnitude than the number of parties, so handing it out one unit per
      party from the front never runs past the last party. */
  function Leftover(a: Int64, rs: seq<Int64>): (lo: int)
    requires AllocateFits(a, rs)
    ensures a >= 0 ==> 0 <= lo < |rs|
    ensures a < 0 ==> -|rs| < lo <= 0
  {
    var s, k := Sum(rs), |rs|;
    var bs := AllocateBases(a, rs);
    LeftoverPrefix(a, rs, k);
    assert rs[..k] == rs && bs[..k] == bs;
    LeftoverScaled(a, s, Sum(bs), k);
    a - Sum(bs)
  }

  /** The arithmetic of Leftover's bound: a gap of s * (a - b) below k * (s - 1)
      in magnitude leaves a - b below k in magnitude, with a's sign. */
  lemma LeftoverScaled(a: int, s: int, b: int, k: int)
    requires s > 0 && k > 0
    requires GapWithin(a, s, k, s, b)
    ensures a >= 0 ==> 0 <= a - b < k
    ensures a < 0 ==> -k < a - b <= 0
  {
    assert a * s - s * b == s * (a - b);
    if a >= 0 {
      ScaledBelow(s, a - b, k);
    } else {
      assert s * (b - a) == -(s * (a - b));
      ScaledBelow(s, b - a, k);
    }
  }

  /** If 0 <= s * x <= k * (s - 1) with s, k positive, then 0 <= x < k. */
  lemma ScaledBelow(s: int, x: int, k: int)
    requires s > 0 && k > 0
    requires 0 <= s * x <= k * (s - 1)
    ensures 0 <= x < k
  {
    if x >= k {
      MulMonotone(s, k, x);
    }
  }

  /** The gap between the exact total a * Sum(rs[..n]) and the scaled total of
      the first n truncated shares is below one unit per party. */
  lemma {:induction false} LeftoverPrefix(a: Int64, rs: seq<Int64>, n: nat)
    requires AllocateFits(a, rs)
    requires n <= |rs|
    ensures GapWithin(a, Sum(rs), n, Sum(rs[..n]), Sum(AllocateBases(a, rs)[..n]))
  {
    var s := Sum(rs);
    var bs := AllocateBases(a, rs);
    if n > 0 {
      LeftoverPrefix(a, rs, n - 1);
      SumStep(rs, n - 1);
      SumStep(bs, n - 1);
      var r, b := rs[n - 1], bs[n - 1];
      var r0, b0 := Sum(rs[..n - 1]), Sum(bs[..n - 1]);
      assert Sum(rs[..n]) == r0 + r && Sum(bs[..n]) == b0 + b;
      AllocateGap(a, r, s);
      GapStep(a, s, n, r0, r, b0, b);
    }
  }

  /** The scaled gap a * x - s * y between an exact total a * x / s and a
      total y of n truncated shares has a's sign and is below n * (s - 1). */
  predicate GapWithin(a: int, s: int, n: nat, x: int, y: int) {
    var d := a * x - s * y;
    && (a >= 0 ==> 0 <= d <= n * (s - 1))
    && (a < 0 ==> -(n * (s - 1)) <= d <= 0)
  }

  /** One party's truncated share falls short of its exact share by less than one unit. */
  lemma AllocateGap(a: Int64, r: Int64, s: Int64)
    requires r >= 0 && s > 0 && InInt64(a * r)
    ensures var b := Allocate(a, r, s);
            && (a >= 0 ==> 0 <= a * r - b * s <= s - 1)
            && (a < 0 ==> -(s - 1) <= a * r - b * s <= 0)
  {
    if a >= 0 {
      assert a * r >= 0;
    } else {
      assert a * r <= 0;
    }
  }

  /** One more party adds less than one unit of scaled gap. */
  lemma GapStep(a: int, s: int, n: nat, r0: int, r: int, b0: int, b: int)
    requires n > 0
    requires GapWithin(a, s, n - 1, r0, b0)
    requires a >= 0 ==> 0 <= a * r - b * s <= s - 1
    requires a < 0 ==> -(s - 1) <= a * r - b * s <= 0
    ensures GapWithin(a, s, n, r0 + r, b0 + b)
  {
    assert a * (r0 + r) - s * (b0 + b) == (a * r0 - s * b0) + (a * r - b * s);
    assert n * (s - 1) == (n - 1) * (s - 1) + (s - 1);
  }

  /** The amounts Allocate hands out: the base shares, plus one unit of the
      leftover's sign to each of the first |leftover| parties. */
  function AllocateAmounts(a: Int64, rs: seq<Int64>): (r: seq<int>)
    requires AllocateFits(a, rs)
    ensures |r| == |rs|
  {
    var lo := Leftover(a, rs);
    Distribute(AllocateBases(a, rs), Abs(lo), if lo < 0 then -1 else 1)
  }

  /** Allocate conserves the amount. */
  lemma AllocateConserves(a: Int64, rs: seq<Int64>)
    requires AllocateFits(a, rs)
    ensures Sum(AllocateAmounts(a, rs)) == a
  {
    var lo := Leftover(a, rs);
    SumDistribute(AllocateBases(a, rs), Abs(lo), if lo < 0 then -1 else 1);
  }

  /** Share i is the truncated proportional share a * rs[i] / Sum(rs), plus
      the leftover's sign for the first |leftover| shares. */
  lemma AllocateShape(a: Int64, rs: seq<Int64>, i: nat)
    requires AllocateFits(a, rs) && i < |rs|
    ensures AllocateAmounts(a, rs)[i]
            == Allocate(a, rs[i], Sum(rs)) + (if i < Abs(Leftover(a, rs)) then Sign(Leftover(a, rs)) else 0)
  {
  }

  /** Every share has the amount's sign and is no larger than the amount, so
      it fits an int64. */
  lemma AllocateBounded(a: Int64, rs: seq<Int64>, i: nat)
    requires AllocateFits(a, rs) && i < |rs|
    ensures var x := AllocateAmounts(a, rs)[i];
            && (x == 0 || (x > 0 <==> a > 0))
            && Abs(x) <= Abs(a)
  {
    var s := Sum(rs);
    var bs := AllocateBases(a, rs);
    var lo := Leftover(a, rs);
    NonNegativeWithinSum(rs, i);
    assert Abs(bs[i]) <= Abs(a);
    if a >= 0 {
      assert forall j :: 0 <= j < |bs| ==> bs[j] >= 0;
      NonNegativeWithinSum(bs, i);
    } else {
      assert forall j :: 0 <= j < |bs| ==> bs[j] <= 0;
      NonPositiveWithinSum(bs, i);
    }
  }

  lemma AllocateFitsEach(a: Int64, rs: seq<Int64>)
    requires AllocateFits(a, rs)
    ensures forall i :: 0 <= i < |rs| ==> InInt64(AllocateAmounts(a, rs)[i])
  {
    forall i | 0 <= i < |rs|
      ensures InInt64(AllocateAmounts(a, rs)[i])
    {
      AllocateBounded(a, rs, i);
    }
  }
}
