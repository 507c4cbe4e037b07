/**
 What the substitution table is (section 5.1.1 of FIPS 197): the inverse in GF(2^8) followed by an affine map.
 Multiplication is defined from doubling alone, so nothing here refers to the table but the theorem.
 */
module SBoxField {
  import opened SBox
  import opened AesColumns

  // ---------------------------------------------------------------- multiplication

  function Term(y: bv8, x: bv8, bit: bv8): bv8 { if x & bit != 0 then y else 0 }

  // The terms of the product that the low bits of x give.
  function LowTerms(y: bv8, y2: bv8, y4: bv8, y8: bv8, x: bv8): bv8 {
    XorByte(XorByte(XorByte(Term(y, x, 1), Term(y2, x, 2)), Term(y4, x, 4)), Term(y8, x, 8))
  }

  function HighTerms(y: bv8, y2: bv8, y4: bv8, y8: bv8, x: bv8): bv8 {
    XorByte(XorByte(XorByte(Term(y, x, 16), Term(y2, x, 32)), Term(y4, x, 64)), Term(y8, x, 128))
  }

  /** The product of y and x in GF(2^8): the sum of y doubled k times, for every bit k of x. */
  function Mul(y: bv8, x: bv8): bv8 {
    var y2 := Xtime(y);
    var y4 := Xtime(y2);
    var y8 := Xtime(y4);
    var y16 := Xtime(y8);
    var y32 := Xtime(y16);
    var y64 := Xtime(y32);
    XorByte(LowTerms(y, y2, y4, y8, x), HighTerms(y16, y32, y64, Xtime(y64), x))
  }

  // Doubling without a branch.
  function ShiftedXtime(a: bv8): bv8 {
    var h := a >> 7;
    (a << 1) ^ h ^ (h << 1) ^ (h << 3) ^ (h << 4)
  }

  lemma XtimeIsShifted(a: bv8)
    ensures Xtime(a) == ShiftedXtime(a)
  {
  }

  lemma ShiftedIsLinear(a: bv8, b: bv8)
    ensures ShiftedXtime(XorByte(a, b)) == XorByte(ShiftedXtime(a), ShiftedXtime(b))
  {
  }

  lemma XtimeIsLinear(a: bv8, b: bv8)
    ensures Xtime(XorByte(a, b)) == XorByte(Xtime(a), Xtime(b))
  {
    hide *;
    XtimeIsShifted(a);
    XtimeIsShifted(b);
    XtimeIsShifted(XorByte(a, b));
    ShiftedIsLinear(a, b);
  }

  lemma Associative(a: bv8, b: bv8, c: bv8)
    ensures XorByte(XorByte(a, b), c) == XorByte(a, XorByte(b, c))
  {
  }

  lemma Commutative(a: bv8, b: bv8)
    ensures XorByte(a, b) == XorByte(b, a)
  {
  }

  lemma Regroup(a: bv8, b: bv8, c: bv8, d: bv8)
    ensures XorByte(XorByte(a, b), XorByte(c, d)) == XorByte(XorByte(a, c), XorByte(b, d))
  {
    hide *;
    Associative(a, b, XorByte(c, d));
    Associative(b, c, d);
    Commutative(b, c);
    Associative(c, b, d);
    Associative(a, c, XorByte(b, d));
  }

  lemma TermIsLinear(y: bv8, z: bv8, x: bv8, bit: bv8)
    ensures Term(XorByte(y, z), x, bit) == XorByte(Term(y, x, bit), Term(z, x, bit))
  {
    assert XorByte(0, 0) == 0;
  }

  lemma FourTerms(a: bv8, b: bv8, c: bv8, d: bv8, a': bv8, b': bv8, c': bv8, d': bv8)
    ensures XorByte(XorByte(XorByte(XorByte(a, a'), XorByte(b, b')), XorByte(c, c')), XorByte(d, d')) ==
            XorByte(XorByte(XorByte(XorByte(a, b), c), d), XorByte(XorByte(XorByte(a', b'), c'), d'))
  {
    hide *;
    Regroup(a, a', b, b');
    Regroup(XorByte(a, b), XorByte(a', b'), c, c');
    Regroup(XorByte(XorByte(a, b), c), XorByte(XorByte(a', b'), c'), d, d');
  }

  lemma LowIsLinear(y: bv8, y2: bv8, y4: bv8, y8: bv8, z: bv8, z2: bv8, z4: bv8, z8: bv8, x: bv8)
    ensures LowTerms(XorByte(y, z), XorByte(y2, z2), XorByte(y4, z4), XorByte(y8, z8), x) ==
            XorByte(LowTerms(y, y2, y4, y8, x), LowTerms(z, z2, z4, z8, x))
  {
    hide XorByte, Term;
    TermIsLinear(y, z, x, 1);
    TermIsLinear(y2, z2, x, 2);
    TermIsLinear(y4, z4, x, 4);
    TermIsLinear(y8, z8, x, 8);
    FourTerms(Term(y, x, 1), Term(y2, x, 2), Term(y4, x, 4), Term(y8, x, 8),
              Term(z, x, 1), Term(z2, x, 2), Term(z4, x, 4), Term(z8, x, 8));
  }

  lemma HighIsLinear(y: bv8, y2: bv8, y4: bv8, y8: bv8, z: bv8, z2: bv8, z4: bv8, z8: bv8, x: bv8)
    ensures HighTerms(XorByte(y, z), XorByte(y2, z2), XorByte(y4, z4), XorByte(y8, z8), x) ==
            XorByte(HighTerms(y, y2, y4, y8, x), HighTerms(z, z2, z4, z8, x))
  {
    hide XorByte, Term;
    TermIsLinear(y, z, x, 16);
    TermIsLinear(y2, z2, x, 32);
    TermIsLinear(y4, z4, x, 64);
    TermIsLinear(y8, z8, x, 128);
    FourTerms(Term(y, x, 16), Term(y2, x, 32), Term(y4, x, 64), Term(y8, x, 128),
              Term(z, x, 16), Term(z2, x, 32), Term(z4, x, 64), Term(z8, x, 128));
  }

  /** Multiplication distributes over addition. */
  lemma MulIsLinear(y: bv8, z: bv8, x: bv8)
    ensures Mul(XorByte(y, z), x) == XorByte(Mul(y, x), Mul(z, x))
  {
    hide XorByte, Xtime, LowTerms, HighTerms;
    var y2, z2 := Xtime(y), Xtime(z);
    var y4, z4 := Xtime(y2), Xtime(z2);
    var y8, z8 := Xtime(y4), Xtime(z4);
    var y16, z16 := Xtime(y8), Xtime(z8);
    var y32, z32 := Xtime(y16), Xtime(z16);
    var y64, z64 := Xtime(y32), Xtime(z32);
    var y128, z128 := Xtime(y64), Xtime(z64);
    XtimeIsLinear(y, z);
    XtimeIsLinear(y2, z2);
    XtimeIsLinear(y4, z4);
    XtimeIsLinear(y8, z8);
    XtimeIsLinear(y16, z16);
    XtimeIsLinear(y32, z32);
    XtimeIsLinear(y64, z64);
    LowIsLinear(y, y2, y4, y8, z, z2, z4, z8, x);
    HighIsLinear(y16, y32, y64, y128, z16, z32, z64, z128, x);
    Regroup(LowTerms(y, y2, y4, y8, x), LowTerms(z, z2, z4, z8, x),
            HighTerms(y16, y32, y64, y128, x), HighTerms(z16, z32, z64, z128, x));
  }

  // By the three high bits of y.
  lemma NoZeroDivisors0(y: bv8, x: bv8)
    requires Mul(y, x) == 0 && y >> 5 == 0
    ensures y == 0 || x == 0
  {
  }

  lemma NoZeroDivisors1(y: bv8, x: bv8)
    requires Mul(y, x) == 0 && y >> 5 == 1
    ensures y == 0 || x == 0
  {
  }

  lemma NoZeroDivisors2(y: bv8, x: bv8)
    requires Mul(y, x) == 0 && y >> 5 == 2
    ensures y == 0 || x == 0
  {
  }

  lemma NoZeroDivisors3(y: bv8, x: bv8)
    requires Mul(y, x) == 0 && y >> 5 == 3
    ensures y == 0 || x == 0
  {
  }

  lemma NoZeroDivisors4(y: bv8, x: bv8)
    requires Mul(y, x) == 0 && y >> 5 == 4
    ensures y == 0 || x == 0
  {
  }

  lemma NoZeroDivisors5(y: bv8, x: bv8)
    requires Mul(y, x) == 0 && y >> 5 == 5
    ensures y == 0 || x == 0
  {
  }

  lemma NoZeroDivisors6(y: bv8, x: bv8)
    requires Mul(y, x) == 0 && y >> 5 == 6
    ensures y == 0 || x == 0
  {
  }

  lemma NoZeroDivisors7(y: bv8, x: bv8)
    requires Mul(y, x) == 0 && y >> 5 == 7
    ensures y == 0 || x == 0
  {
  }

  /** GF(2^8) has no zero divisors. */
  lemma NoZeroDivisors(y: bv8, x: bv8)
    requires Mul(y, x) == 0
    ensures y == 0 || x == 0
  {
    assert y >> 5 < 8;
    hide *;
    match y >> 5
    case 0 => NoZeroDivisors0(y, x);
    case 1 => NoZeroDivisors1(y, x);
    case 2 => NoZeroDivisors2(y, x);
    case 3 => NoZeroDivisors3(y, x);
    case 4 => NoZeroDivisors4(y, x);
    case 5 => NoZeroDivisors5(y, x);
    case 6 => NoZeroDivisors6(y, x);
    case _ => NoZeroDivisors7(y, x);
  }

  lemma XorZero(a: bv8, b: bv8)
    ensures XorByte(a, b) == 0 <==> a == b
  {
  }

  lemma TimesZero(y: bv8)
    ensures Mul(y, 0) == 0
  {
  }

  /** Inverses are unique. */
  lemma InverseIsUnique(y: bv8, z: bv8, x: bv8)
    requires Mul(y, x) == 1 && Mul(z, x) == 1
    ensures y == z
  {
    hide *;
    MulIsLinear(y, z, x);
    XorZero(1, 1);
    XorZero(y, z);
    if x == 0 {
      TimesZero(y);
    } else {
      NoZeroDivisors(XorByte(y, z), x);
    }
  }

  // ---------------------------------------------------------------- the table

  // Equation 5.1 of FIPS 197: each bit is the sum of five bits, and the constant 0x63 is added.
  function Affine(y: bv8): bv8 {
    y ^ ((y << 1) | (y >> 7)) ^ ((y << 2) | (y >> 6)) ^ ((y << 3) | (y >> 5)) ^ ((y << 4) | (y >> 4)) ^ 0x63
  }

  function InvAffine(b: bv8): bv8 { ((b << 1) | (b >> 7)) ^ ((b << 3) | (b >> 5)) ^ ((b << 6) | (b >> 2)) ^ 0x05 }

  lemma AffineOfInverse(b: bv8)
    ensures Affine(InvAffine(b)) == b
  {
  }

  // The entries of the table, by the three high bits.
  lemma Entries0(x: bv8)
    requires x != 0 && x >> 5 == 0
    ensures Mul(InvAffine(S(x)), x) == 1
  {
  }

  lemma Entries1(x: bv8)
    requires x != 0 && x >> 5 == 1
    ensures Mul(InvAffine(S(x)), x) == 1
  {
  }

  lemma Entries2(x: bv8)
    requires x != 0 && x >> 5 == 2
    ensures Mul(InvAffine(S(x)), x) == 1
  {
  }

  lemma Entries3(x: bv8)
    requires x != 0 && x >> 5 == 3
    ensures Mul(InvAffine(S(x)), x) == 1
  {
  }

  lemma Entries4(x: bv8)
    requires x != 0 && x >> 5 == 4
    ensures Mul(InvAffine(S(x)), x) == 1
  {
  }

  lemma Entries5(x: bv8)
    requires x != 0 && x >> 5 == 5
    ensures Mul(InvAffine(S(x)), x) == 1
  {
  }

  lemma Entries6(x: bv8)
    requires x != 0 && x >> 5 == 6
    ensures Mul(InvAffine(S(x)), x) == 1
  {
  }

  lemma Entries7(x: bv8)
    requires x != 0 && x >> 5 == 7
    ensures Mul(InvAffine(S(x)), x) == 1
  {
  }

  lemma SomeInverse(x: bv8) returns (y: bv8)
    requires x != 0
    ensures Mul(y, x) == 1 && S(x) == Affine(y)
  {
    assert x >> 5 < 8;
    hide *;
    y := InvAffine(S(x));
    AffineOfInverse(S(x));
    match x >> 5
    case 0 => Entries0(x);
    case 1 => Entries1(x);
    case 2 => Entries2(x);
    case 3 => Entries3(x);
    case 4 => Entries4(x);
    case 5 => Entries5(x);
    case 6 => Entries6(x);
    case _ => Entries7(x);
  }

  /**
   The table is the S-box of FIPS 197: zero goes to 0x63, and every other byte has an inverse, exactly one, whose
   affine image is its entry.
   */
  lemma TableIsSBox(x: bv8)
    ensures x == 0 ==> S(x) == 0x63
    ensures x != 0 ==> exists y :: Mul(y, x) == 1
    ensures forall y | Mul(y, x) == 1 :: S(x) == Affine(y)
  {
    if x != 0 {
      hide S, Affine, Mul;
      var z := SomeInverse(x);
      forall y | Mul(y, x) == 1
        ensures S(x) == Affine(y)
      {
        InverseIsUnique(y, z, x);
      }
    } else {
      forall y
        ensures Mul(y, 0) != 1
      {
        TimesZero(y);
      }
    }
  }
}
