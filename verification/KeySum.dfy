/** Sums of finite sets of integers: what the completeness test of the QR parser relies on. */
module KeySum {

  lemma HasElement(s: set<int>)
    requires s != {}
    ensures exists x :: x in s
  {
    if forall x :: x !in s {
      assert false;
    }
  }

  ghost function Sum(s: set<int>): int {
    if s == {} then 0 else
    HasElement(s);
    var x :| x in s;
    x + Sum(s - {x})
  }

  lemma {:induction false} SumRemove(s: set<int>, x: int)
    requires x in s
    ensures Sum(s) == x + Sum(s - {x})
  {
    var y :| y in s && Sum(s) == y + Sum(s - {y});
    if y != x {
      SumRemove(s - {y}, x);
      SumRemove(s - {x}, y);
      assert s - {y} - {x} == s - {x} - {y};
    }
  }

  function SumRange(lo: int, n: int): int
    decreases n
  {
    if n <= 0 then 0 else SumRange(lo, n - 1) + lo + n - 1
  }

  ghost function Range(lo: int, n: int): (r: set<int>)
    ensures forall x :: x in r <==> lo <= x < lo + n
    decreases n
  {
    if n <= 0 then {} else Range(lo, n - 1) + {lo + n - 1}
  }

  lemma EmptySum()
    ensures Sum({}) == 0
  {
  }

  lemma SumAdd(s: set<int>, x: int)
    requires x !in s
    ensures Sum(s + {x}) == x + Sum(s)
  {
    hide Sum;
    SumRemove(s + {x}, x);
    assert s + {x} - {x} == s;
  }

  lemma {:induction false} RangeFacts(lo: int, n: nat)
    ensures |Range(lo, n)| == n && Sum(Range(lo, n)) == SumRange(lo, n)
  {
    hide Sum;
    EmptySum();
    if n > 0 {
      RangeFacts(lo, n - 1);
      SumAdd(Range(lo, n - 1), lo + n - 1);
    }
  }

  lemma {:induction false} SubsetSize(a: set<int>, b: set<int>)
    requires a <= b
    ensures |a| <= |b|
  {
    if a != {} {
      HasElement(a);
      var x :| x in a;
      SubsetSize(a - {x}, b - {x});
    }
  }

  lemma {:induction false} Maximum(s: set<int>) returns (m: int)
    requires s != {}
    ensures m in s && forall x | x in s :: x <= m
  {
    HasElement(s);
    m :| m in s;
    var rest := s - {m};
    assert forall x | x in s :: x == m || x in rest;
    if rest != {} {
      var k := Maximum(rest);
      if k > m {
        m := k;
      }
    }
  }

  /** Among sets of n numbers from lo up, only lo, lo + 1, ... reaches the least sum. */
  lemma {:induction false} LeastSum(s: set<int>, lo: int)
    requires forall x | x in s :: lo <= x
    ensures Sum(s) >= SumRange(lo, |s|)
    ensures Sum(s) == SumRange(lo, |s|) ==> s == Range(lo, |s|)
    decreases |s|
  {
    hide Sum;
    EmptySum();
    if s == {} {
      assert Range(lo, 0) == {};
    } else {
      var m := Maximum(s);
      MaximumBound(s, lo, m);
      var rest := s - {m};
      SumRemove(s, m);
      LeastSum(rest, lo);
      if Sum(s) == SumRange(lo, |s|) {
        assert s == rest + {m};
      }
    }
  }

  lemma MaximumBound(s: set<int>, lo: int, m: int)
    requires m in s && forall x | x in s :: lo <= x <= m
    ensures |s| <= m - lo + 1
  {
    RangeFacts(lo, m - lo + 1);
    SubsetSize(s, Range(lo, m - lo + 1));
  }

  /**
   The sum test is exact on keys from lo up: n keys with the sum of lo, lo + 1, ... are those keys.
   */
  lemma SumTestIsExact(keys: set<int>, lo: int, n: nat)
    requires forall x | x in keys :: lo <= x
    ensures |keys| == n && Sum(keys) == SumRange(lo, n) <==> keys == Range(lo, n)
  {
    RangeFacts(lo, n);
    if |keys| == n && Sum(keys) == SumRange(lo, n) {
      LeastSum(keys, lo);
    }
  }

  /** Below lo it is not: 0 and 3 pass for 1 and 2. */
  lemma SumTestNeedsPositiveKeys()
    ensures |{0, 3}| == 2 && Sum({0, 3}) == SumRange(1, 2) && {0, 3} != Range(1, 2)
  {
    SumRemove({0, 3}, 0);
    assert {0, 3} - {0} == {3};
    SumRemove({3}, 3);
    assert {3} - {3} == {};
    assert SumRange(1, 0) == 0 && SumRange(1, 1) == 1;
    assert 3 !in Range(1, 2);
  }
}
