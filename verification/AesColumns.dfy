/**
 Arithmetic on the columns of the AES state, after FIPS 197.

 The proofs here are about fixed arrangements of exclusive-or and shifts.  They are
 stated with the definitions written out, and lifted to the named functions by
 hiding those functions, so that the solver never searches a matrix product.
 */
module AesColumns {

  type Column = bv32

  // Bytes of a column, most significant first, and the column made of four bytes.
  function B0(w: Column): bv8 { ((w >> 24) & 0xff) as bv8 }
  function B1(w: Column): bv8 { ((w >> 16) & 0xff) as bv8 }
  function B2(w: Column): bv8 { ((w >> 8) & 0xff) as bv8 }
  function B3(w: Column): bv8 { (w & 0xff) as bv8 }

  function Pack(a: bv8, b: bv8, c: bv8, d: bv8): Column {
    (a as bv32 << 24) | (b as bv32 << 16) | (c as bv32 << 8) | d as bv32
  }

  /** A column is its four bytes. */
  lemma PackBytes(a: bv8, b: bv8, c: bv8, d: bv8, w: Column)
    ensures B0(Pack(a, b, c, d)) == a && B1(Pack(a, b, c, d)) == b
    ensures B2(Pack(a, b, c, d)) == c && B3(Pack(a, b, c, d)) == d
    ensures Pack(B0(w), B1(w), B2(w), B3(w)) == w
  {
  }

  // Addition of columns, named so that the proofs below can treat it as a symbol.
  function Add(v: Column, w: Column): Column { v ^ w }

  function XorByte(x: bv8, y: bv8): bv8 { x ^ y }

  // MixColumns on one column (section 5.1.3): multiplication by {03}x^3 + {01}x^2 + {01}x + {02}
  // modulo x^4 + 1.  Multiplying by x is a rotation by one byte; x2 doubles every byte in GF(2^8).
  function MixColumn(w: Column): Column {
    var h := (w >> 7) & 0x0101_0101;
    var x2 := ((w & 0x7f7f_7f7f) << 1) ^ h ^ (h << 1) ^ (h << 3) ^ (h << 4);
    var x3 := x2 ^ w;
    x2 ^ ((x3 << 8) | (x3 >> 24)) ^ ((w << 16) | (w >> 16)) ^ ((w << 24) | (w >> 8))
  }

  // InvMixColumns on one column (section 5.3.3): the polynomial {0b}x^3 + {0d}x^2 + {09}x + {0e}.
  function InvMixColumn(w: Column): Column {
    var h := (w >> 7) & 0x0101_0101;
    var x2 := ((w & 0x7f7f_7f7f) << 1) ^ h ^ (h << 1) ^ (h << 3) ^ (h << 4);
    var h2 := (x2 >> 7) & 0x0101_0101;
    var x4 := ((x2 & 0x7f7f_7f7f) << 1) ^ h2 ^ (h2 << 1) ^ (h2 << 3) ^ (h2 << 4);
    var h4 := (x4 >> 7) & 0x0101_0101;
    var x8 := ((x4 & 0x7f7f_7f7f) << 1) ^ h4 ^ (h4 << 1) ^ (h4 << 3) ^ (h4 << 4);
    var x9, x11, x13 := x8 ^ w, x8 ^ x2 ^ w, x8 ^ x4 ^ w;
    (x8 ^ x4 ^ x2) ^ ((x11 << 8) | (x11 >> 24)) ^ ((x13 << 16) | (x13 >> 16)) ^ ((x9 << 24) | (x9 >> 8))
  }

  // Multiplication in GF(2^8) by x, and by the coefficients of the inverse polynomial.
  function Xtime(a: bv8): bv8 { (a << 1) ^ (if a & 0x80 != 0 then 0x1b else 0) }

  function Times9(a: bv8): bv8 { Xtime(Xtime(Xtime(a))) ^ a }
  function Times11(a: bv8): bv8 { Xtime(Xtime(Xtime(a))) ^ Xtime(a) ^ a }
  function Times13(a: bv8): bv8 { Xtime(Xtime(Xtime(a))) ^ Xtime(Xtime(a)) ^ a }
  function Times14(a: bv8): bv8 { Xtime(Xtime(Xtime(a))) ^ Xtime(Xtime(a)) ^ Xtime(a) }

  lemma MixOfByte0(a: bv8)
    ensures MixColumn(Pack(a, 0, 0, 0)) == Pack(Xtime(a), a, a, XorByte(Xtime(a), a))
  {
  }

  lemma MixOfByte1(a: bv8)
    ensures MixColumn(Pack(0, a, 0, 0)) == Pack(XorByte(Xtime(a), a), Xtime(a), a, a)
  {
  }

  lemma MixOfByte2(a: bv8)
    ensures MixColumn(Pack(0, 0, a, 0)) == Pack(a, XorByte(Xtime(a), a), Xtime(a), a)
  {
  }

  lemma MixOfByte3(a: bv8)
    ensures MixColumn(Pack(0, 0, 0, a)) == Pack(a, a, XorByte(Xtime(a), a), Xtime(a))
  {
  }

  /** MixColumns of a single byte: the columns of its matrix over GF(2^8). */
  lemma MixOfOneByte(a: bv8)
    ensures MixColumn(Pack(a, 0, 0, 0)) == Pack(Xtime(a), a, a, XorByte(Xtime(a), a))
    ensures MixColumn(Pack(0, a, 0, 0)) == Pack(XorByte(Xtime(a), a), Xtime(a), a, a)
    ensures MixColumn(Pack(0, 0, a, 0)) == Pack(a, XorByte(Xtime(a), a), Xtime(a), a)
    ensures MixColumn(Pack(0, 0, 0, a)) == Pack(a, a, XorByte(Xtime(a), a), Xtime(a))
  {
    hide *;
    MixOfByte0(a);
    MixOfByte1(a);
    MixOfByte2(a);
    MixOfByte3(a);
  }

  lemma InvMixOfByte0(a: bv8)
    ensures InvMixColumn(Pack(a, 0, 0, 0)) == Pack(Times14(a), Times9(a), Times13(a), Times11(a))
  {
  }

  lemma InvMixOfByte1(a: bv8)
    ensures InvMixColumn(Pack(0, a, 0, 0)) == Pack(Times11(a), Times14(a), Times9(a), Times13(a))
  {
  }

  lemma InvMixOfByte2(a: bv8)
    ensures InvMixColumn(Pack(0, 0, a, 0)) == Pack(Times13(a), Times11(a), Times14(a), Times9(a))
  {
  }

  lemma InvMixOfByte3(a: bv8)
    ensures InvMixColumn(Pack(0, 0, 0, a)) == Pack(Times9(a), Times13(a), Times11(a), Times14(a))
  {
  }

  /** And InvMixColumns of one. */
  lemma InvMixOfOneByte(a: bv8)
    ensures InvMixColumn(Pack(a, 0, 0, 0)) == Pack(Times14(a), Times9(a), Times13(a), Times11(a))
    ensures InvMixColumn(Pack(0, a, 0, 0)) == Pack(Times11(a), Times14(a), Times9(a), Times13(a))
    ensures InvMixColumn(Pack(0, 0, a, 0)) == Pack(Times13(a), Times11(a), Times14(a), Times9(a))
    ensures InvMixColumn(Pack(0, 0, 0, a)) == Pack(Times9(a), Times13(a), Times11(a), Times14(a))
  {
    hide *;
    InvMixOfByte0(a);
    InvMixOfByte1(a);
    InvMixOfByte2(a);
    InvMixOfByte3(a);
  }

  lemma InvMixOfMixBits(w: Column)
    ensures InvMixColumn(
              var h := (w >> 7) & 0x0101_0101;
              var x2 := ((w & 0x7f7f_7f7f) << 1) ^ h ^ (h << 1) ^ (h << 3) ^ (h << 4);
              var x3 := x2 ^ w;
              x2 ^ ((x3 << 8) | (x3 >> 24)) ^ ((w << 16) | (w >> 16)) ^ ((w << 24) | (w >> 8))) == w
  {
  }

  /** InvMixColumns undoes MixColumns. */
  lemma InvMixAfterMix(w: Column)
    ensures InvMixColumn(MixColumn(w)) == w
  {
    hide InvMixColumn;
    InvMixOfMixBits(w);
  }

  lemma AddCancels(v: Column, w: Column)
    ensures Add(Add(v, w), w) == v
  {
  }

  lemma MixBits(w: Column)
    ensures MixColumn(w) ==
            var h := (w >> 7) & 0x0101_0101;
            var x2 := ((w & 0x7f7f_7f7f) << 1) ^ h ^ (h << 1) ^ (h << 3) ^ (h << 4);
            var x3 := x2 ^ w;
            x2 ^ ((x3 << 8) | (x3 >> 24)) ^ ((w << 16) | (w >> 16)) ^ ((w << 24) | (w >> 8))
  {
  }

  lemma MixSumBits(v: Column, w: Column)
    ensures MixColumn(v ^ w) == Add(
                                  (var h := (v >> 7) & 0x0101_0101;
                                   var x2 := ((v & 0x7f7f_7f7f) << 1) ^ h ^ (h << 1) ^ (h << 3) ^ (h << 4);
                                   var x3 := x2 ^ v;
                                   x2 ^ ((x3 << 8) | (x3 >> 24)) ^ ((v << 16) | (v >> 16)) ^ ((v << 24) | (v >> 8))),
                                  (var h := (w >> 7) & 0x0101_0101;
                                   var x2 := ((w & 0x7f7f_7f7f) << 1) ^ h ^ (h << 1) ^ (h << 3) ^ (h << 4);
                                   var x3 := x2 ^ w;
                                   x2 ^ ((x3 << 8) | (x3 >> 24)) ^ ((w << 16) | (w >> 16)) ^ ((w << 24) | (w >> 8))))
  {
  }

  lemma MixSum(v: Column, w: Column)
    ensures MixColumn(v ^ w) == Add(MixColumn(v), MixColumn(w))
  {
    hide *;
    MixBits(v);
    MixBits(w);
    MixSumBits(v, w);
  }

  lemma InvMixBits(w: Column)
    ensures InvMixColumn(w) ==
            var h := (w >> 7) & 0x0101_0101;
            var x2 := ((w & 0x7f7f_7f7f) << 1) ^ h ^ (h << 1) ^ (h << 3) ^ (h << 4);
            var h2 := (x2 >> 7) & 0x0101_0101;
            var x4 := ((x2 & 0x7f7f_7f7f) << 1) ^ h2 ^ (h2 << 1) ^ (h2 << 3) ^ (h2 << 4);
            var h4 := (x4 >> 7) & 0x0101_0101;
            var x8 := ((x4 & 0x7f7f_7f7f) << 1) ^ h4 ^ (h4 << 1) ^ (h4 << 3) ^ (h4 << 4);
            var x9, x11, x13 := x8 ^ w, x8 ^ x2 ^ w, x8 ^ x4 ^ w;
            (x8 ^ x4 ^ x2) ^ ((x11 << 8) | (x11 >> 24)) ^ ((x13 << 16) | (x13 >> 16)) ^ ((x9 << 24) | (x9 >> 8))
  {
  }

  lemma InvMixSumBits(v: Column, w: Column)
    ensures InvMixColumn(v ^ w) == Add(
                                     (var h := (v >> 7) & 0x0101_0101;
                                      var x2 := ((v & 0x7f7f_7f7f) << 1) ^ h ^ (h << 1) ^ (h << 3) ^ (h << 4);
                                      var h2 := (x2 >> 7) & 0x0101_0101;
                                      var x4 := ((x2 & 0x7f7f_7f7f) << 1) ^ h2 ^ (h2 << 1) ^ (h2 << 3) ^ (h2 << 4);
                                      var h4 := (x4 >> 7) & 0x0101_0101;
                                      var x8 := ((x4 & 0x7f7f_7f7f) << 1) ^ h4 ^ (h4 << 1) ^ (h4 << 3) ^ (h4 << 4);
                                      var x9, x11, x13 := x8 ^ v, x8 ^ x2 ^ v, x8 ^ x4 ^ v;
                                      (x8 ^ x4 ^ x2) ^ ((x11 << 8) | (x11 >> 24)) ^ ((x13 << 16) | (x13 >> 16)) ^ ((x9 << 24) | (x9 >> 8))),
                                     (var h := (w >> 7) & 0x0101_0101;
                                      var x2 := ((w & 0x7f7f_7f7f) << 1) ^ h ^ (h << 1) ^ (h << 3) ^ (h << 4);
                                      var h2 := (x2 >> 7) & 0x0101_0101;
                                      var x4 := ((x2 & 0x7f7f_7f7f) << 1) ^ h2 ^ (h2 << 1) ^ (h2 << 3) ^ (h2 << 4);
                                      var h4 := (x4 >> 7) & 0x0101_0101;
                                      var x8 := ((x4 & 0x7f7f_7f7f) << 1) ^ h4 ^ (h4 << 1) ^ (h4 << 3) ^ (h4 << 4);
                                      var x9, x11, x13 := x8 ^ w, x8 ^ x2 ^ w, x8 ^ x4 ^ w;
                                      (x8 ^ x4 ^ x2) ^ ((x11 << 8) | (x11 >> 24)) ^ ((x13 << 16) | (x13 >> 16)) ^ ((x9 << 24) | (x9 >> 8))))
  {
  }

  lemma InvMixSum(v: Column, w: Column)
    ensures InvMixColumn(v ^ w) == Add(InvMixColumn(v), InvMixColumn(w))
  {
    hide *;
    InvMixBits(v);
    InvMixBits(w);
    InvMixSumBits(v, w);
  }

  /** InvMixColumn distributes over the sum of columns. */
  lemma InvMixIsLinear(v: Column, w: Column)
    ensures InvMixColumn(Add(v, w)) == Add(InvMixColumn(v), InvMixColumn(w))
  {
    hide InvMixColumn;
    InvMixSum(v, w);
  }

  lemma PackJoin2(a: bv8, b: bv8)
    ensures Pack(a, b, 0, 0) == Pack(a, 0, 0, 0) ^ Pack(0, b, 0, 0)
  {
  }

  lemma PackJoin3(a: bv8, b: bv8, c: bv8)
    ensures Pack(a, b, c, 0) == Pack(a, b, 0, 0) ^ Pack(0, 0, c, 0)
  {
  }

  lemma PackJoin4(a: bv8, b: bv8, c: bv8, d: bv8)
    ensures Pack(a, b, c, d) == Pack(a, b, c, 0) ^ Pack(0, 0, 0, d)
  {
  }

  /** A column may be mixed byte by byte: what makes the lookup tables of the flasher right. */
  lemma MixByBytes(a: bv8, b: bv8, c: bv8, d: bv8)
    ensures Add(Add(Add(MixColumn(Pack(a, 0, 0, 0)), MixColumn(Pack(0, b, 0, 0))),
                    MixColumn(Pack(0, 0, c, 0))), MixColumn(Pack(0, 0, 0, d))) == MixColumn(Pack(a, b, c, d))
  {
    hide *;
    PackJoin2(a, b);
    PackJoin3(a, b, c);
    PackJoin4(a, b, c, d);
    MixSum(Pack(a, b, c, 0), Pack(0, 0, 0, d));
    MixSum(Pack(a, b, 0, 0), Pack(0, 0, c, 0));
    MixSum(Pack(a, 0, 0, 0), Pack(0, b, 0, 0));
  }

  lemma InvMixByBytes(a: bv8, b: bv8, c: bv8, d: bv8)
    ensures Add(Add(Add(InvMixColumn(Pack(a, 0, 0, 0)), InvMixColumn(Pack(0, b, 0, 0))),
                    InvMixColumn(Pack(0, 0, c, 0))), InvMixColumn(Pack(0, 0, 0, d))) == InvMixColumn(Pack(a, b, c, d))
  {
    hide *;
    PackJoin2(a, b);
    PackJoin3(a, b, c);
    PackJoin4(a, b, c, d);
    InvMixSum(Pack(a, b, c, 0), Pack(0, 0, 0, d));
    InvMixSum(Pack(a, b, 0, 0), Pack(0, 0, c, 0));
    InvMixSum(Pack(a, 0, 0, 0), Pack(0, b, 0, 0));
  }
}
