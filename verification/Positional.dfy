/** Positional numbers in any base, most significant digit first. */
module Positional {
  import opened Arith
  import Bytes

  function Val(d: seq<nat>, base: nat): nat {
    if d == [] then 0 else Val(d[..|d| - 1], base) * base + d[|d| - 1]
  }

  ghost predicate InBase(d: seq<nat>, base: nat) { forall i | 0 <= i < |d| :: d[i] < base }

  function Pow(base: nat, n: nat): nat { if n == 0 then 1 else Pow(base, n - 1) * base }

  // The digits of n without leading zeros; none for zero.
  function Digits(n: nat, base: nat): (r: seq<nat>)
    requires base >= 2
    ensures forall i | 0 <= i < |r| :: r[i] < base
    ensures r != [] ==> r[0] != 0
  {
    if n == 0 then []
    else
      DivShrinks(n, base);
      Digits(n / base, base) + [n % base]
  }

  lemma DivShrinks(n: nat, base: nat)
    requires base >= 2 && n > 0
    ensures n / base < n && (n / base == 0 ==> n % base == n)
  {
    var q := n / base;
    assert n == base * q + n % base;
    assert base * q >= 2 * q;
  }

  lemma DivModSum(n: nat, base: nat)
    requires base >= 1
    ensures n == (n / base) * base + n % base
  {
  }

  lemma Empty(base: nat)
    ensures Val([], base) == 0 && Pow(base, 0) == 1
  {
  }

  lemma ValSnoc(d: seq<nat>, x: nat, base: nat)
    ensures Val(d + [x], base) == Val(d, base) * base + x
  {
    assert (d + [x])[..|d|] == d;
  }

  lemma {:induction false} ValOfDigits(n: nat, base: nat)
    requires base >= 2
    ensures Val(Digits(n, base), base) == n
  {
    hide Val;
    Empty(base);
    if n > 0 {
      DivShrinks(n, base);
      var q := n / base;
      ValOfDigits(q, base);
      ValSnoc(Digits(q, base), n % base, base);
      DivModSum(n, base);
    }
  }

  lemma {:induction false} DigitsOfVal(d: seq<nat>, base: nat)
    requires base >= 2 && InBase(d, base) && (d != [] ==> d[0] != 0)
    ensures Digits(Val(d, base), base) == d
  {
    if d != [] {
      var init, last := d[..|d| - 1], d[|d| - 1];
      DigitsOfVal(init, base);
      if init != [] {
        ValPositive(init, base);
      }
      DigitsSnoc(Val(init, base), base, last);
    }
  }

  lemma DigitsSnoc(n: nat, base: nat, last: nat)
    requires base >= 2 && last < base && (n > 0 || last > 0)
    ensures Digits(n * base + last, base) == Digits(n, base) + [last]
  {
    DivModUnique(n, base, last);
    MulMonotone(1, if n > 0 then n else 1, base);
  }

  lemma {:induction false} ValPositive(d: seq<nat>, base: nat)
    requires base >= 1 && d != [] && d[0] != 0
    ensures Val(d, base) > 0
  {
    if |d| > 1 {
      ValPositive(d[..|d| - 1], base);
      MulMonotone(1, Val(d[..|d| - 1], base), base);
    }
  }

  // ---------------------------------------------------------------- leading zeros

  function Zeros(n: nat): seq<nat> { Bytes.Repeat<nat>(0, n) }

  function LeadingZeros(d: seq<nat>): (n: nat)
    ensures n <= |d| && d[..n] == Zeros(n) && (n < |d| ==> d[n] != 0)
  {
    if d == [] || d[0] != 0 then 0
    else
      var n := LeadingZeros(d[1..]);
      assert d[..n + 1] == [0] + d[1..][..n];
      n + 1
  }

  lemma {:induction false} LeadingZerosUnique(d: seq<nat>, n: nat)
    requires n <= |d| && (forall i | 0 <= i < n :: d[i] == 0) && (n < |d| ==> d[n] != 0)
    ensures LeadingZeros(d) == n
  {
    if n > 0 {
      LeadingZerosUnique(d[1..], n - 1);
    }
  }

  lemma {:induction false} ValOfLeadingZeros(n: nat, d: seq<nat>, base: nat)
    ensures Val(Zeros(n) + d, base) == Val(d, base)
  {
    if d == [] {
      assert Zeros(n) + d == Zeros(n);
      if n > 0 {
        assert Zeros(n)[..n - 1] == Zeros(n - 1) + [];
        ValOfLeadingZeros(n - 1, [], base);
      }
    } else {
      assert (Zeros(n) + d)[..n + |d| - 1] == Zeros(n) + d[..|d| - 1];
      ValOfLeadingZeros(n, d[..|d| - 1], base);
    }
  }

  // ---------------------------------------------------------------- change of base

  /** The number in the other base, one leading zero for each leading zero. */
  function Convert(d: seq<nat>, base: nat, other: nat): (r: seq<nat>)
    requires other >= 2
    ensures InBase(r, other)
  {
    Zeros(LeadingZeros(d)) + Digits(Val(d, base), other)
  }

  /** Converting there and back is the identity on every digit string, leading zeros included. */
  lemma ConvertBack(d: seq<nat>, base: nat, other: nat)
    requires base >= 2 && other >= 2 && InBase(d, base)
    ensures Convert(Convert(d, base, other), other, base) == d
  {
    var n := LeadingZeros(d);
    var w := d[n..];
    assert d == Zeros(n) + w;
    ValOfLeadingZeros(n, w, base);
    DigitsOfVal(w, base);
    var e := Digits(Val(d, base), other);
    ValOfDigits(Val(d, base), other);
    ValOfLeadingZeros(n, e, other);
    LeadingZerosUnique(Zeros(n) + e, n);
  }

  // ---------------------------------------------------------------- fixed length

  lemma {:induction false} ValBound(d: seq<nat>, base: nat)
    requires InBase(d, base)
    ensures Val(d, base) < Pow(base, |d|)
  {
    if d != [] {
      var init, last := d[..|d| - 1], d[|d| - 1];
      ValBound(init, base);
      BoundStep(Val(init, base), Pow(base, |init|), base, last);
    }
  }

  lemma PowStep(base: nat, n: nat)
    ensures Pow(base, n + 1) == Pow(base, n) * base
  {
  }

  lemma {:induction false} Pow2Positive(n: nat)
    ensures Pow(2, n) > 0
  {
    if n > 0 {
      Pow2Positive(n - 1);
    }
  }

  lemma BoundStep(v: nat, p: nat, base: nat, x: nat)
    requires v < p && x < base
    ensures v * base + x < p * base
  {
    MulMonotone(v + 1, p, base);
    assert (v + 1) * base == v * base + base;
  }

  lemma BoundBack(n: nat, p: nat, base: nat)
    requires base >= 1 && n < p * base
    ensures n / base < p
  {
    DivModSum(n, base);
    if p <= n / base {
      MulMonotone(p, n / base, base);
    }
  }

  /** Digit strings of one length are told apart by their values. */
  lemma {:induction false} ValInjective(a: seq<nat>, b: seq<nat>, base: nat)
    requires |a| == |b| && InBase(a, base) && InBase(b, base) && Val(a, base) == Val(b, base)
    ensures a == b
  {
    if a != [] {
      var n := |a| - 1;
      DivModUnique(Val(a[..n], base), base, a[n]);
      DivModUnique(Val(b[..n], base), base, b[n]);
      ValInjective(a[..n], b[..n], base);
      assert a == a[..n] + [a[n]] && b == b[..n] + [b[n]];
    }
  }

  function ToDigits(n: nat, len: nat, base: nat): (r: seq<nat>)
    requires base >= 1
    ensures |r| == len && InBase(r, base)
    decreases len
  {
    if len == 0 then [] else ToDigits(n / base, len - 1, base) + [n % base]
  }

  lemma ToDigitsStep(n: nat, len: nat, base: nat)
    requires base >= 1 && len > 0
    ensures ToDigits(n, len, base) == ToDigits(n / base, len - 1, base) + [n % base]
  {
  }

  lemma QuotientFits(n: nat, len: nat, base: nat)
    requires base >= 1 && len > 0 && n < Pow(base, len)
    ensures n / base < Pow(base, len - 1)
  {
    BoundBack(n, Pow(base, len - 1), base);
  }

  lemma LastDigit(d: seq<nat>, n: nat, base: nat)
    requires base >= 1 && Val(d, base) == n / base
    ensures Val(d + [n % base], base) == n
  {
    ValSnoc(d, n % base, base);
    DivModSum(n, base);
  }

  lemma {:induction false} ValOfToDigits(n: nat, len: nat, base: nat)
    requires base >= 1 && n < Pow(base, len)
    ensures Val(ToDigits(n, len, base), base) == n
    decreases len
  {
    if len == 0 {
      Empty(base);
    } else {
      hide *;
      QuotientFits(n, len, base);
      ValOfToDigits(n / base, len - 1, base);
      ToDigitsStep(n, len, base);
      LastDigit(ToDigits(n / base, len - 1, base), n, base);
    }
  }
}
