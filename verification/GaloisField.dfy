/** The field GF(2^8) of section 4 of FIPS 197: bytes are polynomials over GF(2), reduced modulo
    x^8 + x^4 + x^3 + x + 1. */
module GaloisField {
  import opened MachineTypes

  /** Addition (section 4.1 of FIPS 197). */
  function Add(a: Byte, b: Byte): Byte {
    a ^ b
  }

  function Add4(a: Byte, b: Byte, c: Byte, d: Byte): Byte {
    Add(Add(a, b), Add(c, d))
  }

  /** Multiplication by x (section 4.2.1 of FIPS 197): the bit shifted out comes back as 0x1b. */
  function XTime(a: Byte): Byte {
    (a << 1) ^ ((a >> 7) * 0x1b)
  }

  /** `term` when the low bit of `k` is set, and 0 otherwise. */
  function Gate(k: Byte, term: Byte): Byte {
    term & (0 - (k & 1))
  }

  /** The product k * a: the sum of x^i * a over the bits i of k (section 4.2 of FIPS 197). */
  function Mul(k: Byte, a: Byte): Byte {
    var x1 := XTime(a);
    var x2 := XTime(x1);
    var x3 := XTime(x2);
    var x4 := XTime(x3);
    var x5 := XTime(x4);
    var x6 := XTime(x5);
    var x7 := XTime(x6);
    Gate(k, a) ^ Gate(k >> 1, x1) ^ Gate(k >> 2, x2) ^ Gate(k >> 3, x3) ^
    Gate(k >> 4, x4) ^ Gate(k >> 5, x5) ^ Gate(k >> 6, x6) ^ Gate(k >> 7, x7)
  }

  /** a * a, by the linear map that moves x^i to x^2i. */
  function Square(a: Byte): Byte {
    (a & 0x01) ^ ((a & 0x02) << 1) ^ ((a & 0x04) << 2) ^ ((a & 0x08) << 3) ^
    Gate(a >> 4, 0x1b) ^ Gate(a >> 5, 0x6c) ^ Gate(a >> 6, 0xab) ^ Gate(a >> 7, 0x9a)
  }

  /** a^254: the multiplicative inverse of a non-zero byte, and 0 for 0. */
  function Inverse(a: Byte): Byte {
    var a2 := Square(a);
    var a3 := Mul(a2, a);
    var a12 := Square(Square(a3));
    var a15 := Mul(a12, a3);
    var a240 := Square(Square(Square(Square(a15))));
    Mul(Mul(a240, a12), a2)
  }

  function Affine(b: Byte): Byte {
    b ^ ((b << 1) | (b >> 7)) ^ ((b << 2) | (b >> 6)) ^ ((b << 3) | (b >> 5)) ^
    ((b << 4) | (b >> 4)) ^ 0x63
  }

  function InvAffine(a: Byte): Byte {
    ((a << 1) | (a >> 7)) ^ ((a << 3) | (a >> 5)) ^ ((a << 6) | (a >> 2)) ^ 0x05
  }

  /** The S-box (section 5.1.1 of FIPS 197): inversion, then an affine map. */
  function SubByte(a: Byte): Byte {
    Affine(Inverse(a))
  }

  /** The inverse S-box (section 5.3.2 of FIPS 197). */
  function InvSubByte(a: Byte): Byte {
    Inverse(InvAffine(a))
  }

  /** The bit shifted out decides the reduction, as section 4.2.1 of FIPS 197 words it. */
  lemma XTimeReduces(a: Byte)
    ensures XTime(a) == if a & 0x80 == 0 then a << 1 else (a << 1) ^ 0x1b
  {}

  /** The linear map is squaring. */
  lemma SquareIsProduct(a: Byte)
    ensures Square(a) == Mul(a, a)
  {}

  /** The substitution example of section 5.1.1 of FIPS 197, and the first entry of its table. */
  lemma SubByteExample()
    ensures SubByte(0x53) == 0xed && SubByte(0x00) == 0x63
  {}

  /** Bit `i` of a byte, counted around its eight places. */
  function BitAt(b: Byte, i: Byte): Byte {
    (b >> (i & 7)) & 1
  }

  /** A byte is its eight bits. */
  lemma ByteOfBits(b: Byte)
    ensures b == BitAt(b, 0) | (BitAt(b, 1) << 1) | (BitAt(b, 2) << 2) | (BitAt(b, 3) << 3) |
                 (BitAt(b, 4) << 4) | (BitAt(b, 5) << 5) | (BitAt(b, 6) << 6) | (BitAt(b, 7) << 7)
  {}

  /** The affine map of section 5.1.1 of FIPS 197, bit by bit: each bit is the sum of five bits of the inverse
      and of the same bit of 0x63. */
  lemma AffineBits(b: Byte, i: Byte)
    ensures BitAt(Affine(b), i) ==
      BitAt(b, i) ^ BitAt(b, i + 4) ^ BitAt(b, i + 5) ^ BitAt(b, i + 6) ^ BitAt(b, i + 7) ^ BitAt(0x63, i)
  {}

  predicate InversionLaws(a: Byte) {
    && Inverse(Inverse(a)) == a
    && (a != 0 ==> Mul(a, Inverse(a)) == 1)
  }

  // The laws are decided byte by byte, an eighth of the field at a time.

  lemma InversionLaws0(a: Byte)
    requires a & 0xe0 == 0x00
    ensures InversionLaws(a)
  {}

  lemma InversionLaws1(a: Byte)
    requires a & 0xe0 == 0x20
    ensures InversionLaws(a)
  {}

  lemma InversionLaws2(a: Byte)
    requires a & 0xe0 == 0x40
    ensures InversionLaws(a)
  {}

  lemma InversionLaws3(a: Byte)
    requires a & 0xe0 == 0x60
    ensures InversionLaws(a)
  {}

  lemma InversionLaws4(a: Byte)
    requires a & 0xe0 == 0x80
    ensures InversionLaws(a)
  {}

  lemma InversionLaws5(a: Byte)
    requires a & 0xe0 == 0xa0
    ensures InversionLaws(a)
  {}

  lemma InversionLaws6(a: Byte)
    requires a & 0xe0 == 0xc0
    ensures InversionLaws(a)
  {}

  lemma InversionLaws7(a: Byte)
    requires a & 0xe0 == 0xe0
    ensures InversionLaws(a)
  {}

  lemma InverseIsInverse(a: Byte)
    ensures InversionLaws(a)
  {
    hide InversionLaws;
    if a & 0xe0 == 0x00 {
      InversionLaws0(a);
    } else if a & 0xe0 == 0x20 {
      InversionLaws1(a);
    } else if a & 0xe0 == 0x40 {
      InversionLaws2(a);
    } else if a & 0xe0 == 0x60 {
      InversionLaws3(a);
    } else if a & 0xe0 == 0x80 {
      InversionLaws4(a);
    } else if a & 0xe0 == 0xa0 {
      InversionLaws5(a);
    } else if a & 0xe0 == 0xc0 {
      InversionLaws6(a);
    } else {
      InversionLaws7(a);
    }
  }

  lemma AffineInverse(a: Byte)
    ensures InvAffine(Affine(a)) == a == Affine(InvAffine(a))
  {}

  /** The S-box is a permutation of the bytes, and the inverse S-box undoes it on either side. */
  lemma SubByteInverse(a: Byte)
    ensures InvSubByte(SubByte(a)) == a
    ensures SubByte(InvSubByte(a)) == a
  {
    hide Affine, InvAffine, Inverse, Mul;
    AffineInverse(Inverse(a));
    AffineInverse(a);
    InverseIsInverse(a);
    InverseIsInverse(InvAffine(a));
  }

  lemma AddLaws(a: Byte, b: Byte, c: Byte)
    ensures Add(a, b) == Add(b, a)
    ensures Add(Add(a, b), c) == Add(a, Add(b, c))
    ensures Add(a, 0) == a
    ensures Add(a, a) == 0
  {}

  lemma AddSwap(a: Byte, b: Byte, c: Byte, d: Byte)
    ensures Add(Add(a, b), Add(c, d)) == Add(Add(a, c), Add(b, d))
  {
    hide Add;
    AddLaws(a, b, Add(c, d));
    AddLaws(b, c, d);
    AddLaws(c, b, d);
    AddLaws(a, c, Add(b, d));
  }

  lemma Add4Sum(a: Byte, b: Byte, c: Byte, d: Byte, a': Byte, b': Byte, c': Byte, d': Byte)
    ensures Add4(Add(a, a'), Add(b, b'), Add(c, c'), Add(d, d')) ==
            Add(Add4(a, b, c, d), Add4(a', b', c', d'))
  {
    hide Add;
    AddSwap(a, a', b, b');
    AddSwap(c, c', d, d');
    AddSwap(Add(a, b), Add(a', b'), Add(c, d), Add(c', d'));
  }

  /** A square of summands has the same sum by rows and by columns. */
  lemma Add4Transpose(a: Byte, b: Byte, c: Byte, d: Byte, e: Byte, f: Byte, g: Byte, h: Byte,
                      i: Byte, j: Byte, k: Byte, l: Byte, m: Byte, n: Byte, o: Byte, p: Byte)
    ensures Add4(Add4(a, b, c, d), Add4(e, f, g, h), Add4(i, j, k, l), Add4(m, n, o, p)) ==
            Add4(Add4(a, e, i, m), Add4(b, f, j, n), Add4(c, g, k, o), Add4(d, h, l, p))
  {
    hide Add;
    var ab, cd, ef, gh := Add(a, b), Add(c, d), Add(e, f), Add(g, h);
    var ij, kl, mn, op := Add(i, j), Add(k, l), Add(m, n), Add(o, p);
    AddSwap(ab, cd, ef, gh);
    AddSwap(ij, kl, mn, op);
    AddSwap(Add(ab, ef), Add(cd, gh), Add(ij, mn), Add(kl, op));
    Add4Sum(a, e, i, m, b, f, j, n);
    Add4Sum(c, g, k, o, d, h, l, p);
  }

  lemma XTimeLinear(a: Byte, b: Byte)
    ensures XTime(Add(a, b)) == Add(XTime(a), XTime(b))
  {}

  // Multiplication by the coefficients of MixColumns and InvMixColumns, by repeated doubling.

  function Times3(a: Byte): Byte { Add(XTime(a), a) }

  function Times9(a: Byte): Byte { Add(XTime(XTime(XTime(a))), a) }

  function TimesB(a: Byte): Byte { Add(XTime(Add(XTime(XTime(a)), a)), a) }

  function TimesD(a: Byte): Byte { Add(XTime(XTime(Add(XTime(a), a))), a) }

  function TimesE(a: Byte): Byte { XTime(Add(XTime(Add(XTime(a), a)), a)) }

  /** The chains of doublings are the products by their coefficients. */
  lemma TimesIsMul(a: Byte)
    ensures XTime(a) == Mul(0x02, a) && Times3(a) == Mul(0x03, a)
    ensures Times9(a) == Mul(0x09, a) && TimesB(a) == Mul(0x0b, a)
    ensures TimesD(a) == Mul(0x0d, a) && TimesE(a) == Mul(0x0e, a)
  {
    hide XTime, Mul, Times3, Times9, TimesB, TimesD, TimesE;
    Doubled(a);
    Tripled(a);
    Nine(a);
    Eleven(a);
    Thirteen(a);
    Fourteen(a);
  }

  lemma Doubled(a: Byte)
    ensures XTime(a) == Mul(0x02, a)
  {}

  lemma Tripled(a: Byte)
    ensures Times3(a) == Mul(0x03, a)
  {}

  lemma Nine(a: Byte)
    ensures Times9(a) == Mul(0x09, a)
  {}

  lemma Eleven(a: Byte)
    ensures TimesB(a) == Mul(0x0b, a)
  {}

  lemma Thirteen(a: Byte)
    ensures TimesD(a) == Mul(0x0d, a)
  {}

  lemma Fourteen(a: Byte)
    ensures TimesE(a) == Mul(0x0e, a)
  {}

  lemma Times3Linear(a: Byte, b: Byte)
    ensures Times3(Add(a, b)) == Add(Times3(a), Times3(b))
  {
    hide Add, XTime;
    XTimeLinear(a, b);
    AddSwap(XTime(a), XTime(b), a, b);
  }

  lemma TimesLinear(a: Byte, b: Byte)
    ensures XTime(Add(a, b)) == Add(XTime(a), XTime(b))
    ensures Times3(Add(a, b)) == Add(Times3(a), Times3(b))
    ensures Times9(Add(a, b)) == Add(Times9(a), Times9(b))
    ensures TimesB(Add(a, b)) == Add(TimesB(a), TimesB(b))
    ensures TimesD(Add(a, b)) == Add(TimesD(a), TimesD(b))
    ensures TimesE(Add(a, b)) == Add(TimesE(a), TimesE(b))
  {
    hide Add, XTime, Times3, Times9, TimesB, TimesD, TimesE;
    XTimeLinear(a, b);
    Times3Linear(a, b);
    Times9Linear(a, b);
    TimesBLinear(a, b);
    TimesDLinear(a, b);
    TimesELinear(a, b);
  }

  lemma TimesELinear(a: Byte, b: Byte)
    ensures TimesE(Add(a, b)) == Add(TimesE(a), TimesE(b))
  {
    hide Add, XTime;
    Times3Linear(a, b);
    var a3, b3 := Times3(a), Times3(b);
    XTimeLinear(a3, b3);
    AddSwap(XTime(a3), XTime(b3), a, b);
    XTimeLinear(Add(XTime(a3), a), Add(XTime(b3), b));
  }

  lemma TimesDLinear(a: Byte, b: Byte)
    ensures TimesD(Add(a, b)) == Add(TimesD(a), TimesD(b))
  {
    hide Add, XTime;
    Times3Linear(a, b);
    var a3, b3 := Times3(a), Times3(b);
    XTimeLinear(a3, b3);
    XTimeLinear(XTime(a3), XTime(b3));
    AddSwap(XTime(XTime(a3)), XTime(XTime(b3)), a, b);
  }

  lemma Times9Linear(a: Byte, b: Byte)
    ensures Times9(Add(a, b)) == Add(Times9(a), Times9(b))
  {
    hide Add, XTime;
    XTimeLinear(a, b);
    XTimeLinear(XTime(a), XTime(b));
    XTimeLinear(XTime(XTime(a)), XTime(XTime(b)));
    AddSwap(XTime(XTime(XTime(a))), XTime(XTime(XTime(b))), a, b);
  }

  lemma TimesBLinear(a: Byte, b: Byte)
    ensures TimesB(Add(a, b)) == Add(TimesB(a), TimesB(b))
  {
    hide Add, XTime;
    XTimeLinear(a, b);
    XTimeLinear(XTime(a), XTime(b));
    var a5, b5 := Add(XTime(XTime(a)), a), Add(XTime(XTime(b)), b);
    AddSwap(XTime(XTime(a)), XTime(XTime(b)), a, b);
    XTimeLinear(a5, b5);
    AddSwap(XTime(a5), XTime(b5), a, b);
  }

  /** The circulant of InvMixColumns times the circulant of MixColumns is the identity. */
  lemma InvMixCoefficients(a: Byte)
    ensures Add4(TimesE(XTime(a)), TimesB(a), TimesD(a), Times9(Times3(a))) == a
    ensures Add4(TimesE(Times3(a)), TimesB(XTime(a)), TimesD(a), Times9(a)) == 0
    ensures Add4(TimesE(a), TimesB(Times3(a)), TimesD(XTime(a)), Times9(a)) == 0
    ensures Add4(TimesE(a), TimesB(a), TimesD(Times3(a)), Times9(XTime(a))) == 0
  {
    hide Add4, TimesE, TimesB, TimesD, Times9, Times3, XTime;
    InvMixCoefficients0(a);
    InvMixCoefficients1(a);
    InvMixCoefficients2(a);
    InvMixCoefficients3(a);
  }

  lemma InvMixCoefficients0(a: Byte)
    ensures Add4(TimesE(XTime(a)), TimesB(a), TimesD(a), Times9(Times3(a))) == a
  {}

  lemma InvMixCoefficients1(a: Byte)
    ensures Add4(TimesE(Times3(a)), TimesB(XTime(a)), TimesD(a), Times9(a)) == 0
  {}

  lemma InvMixCoefficients2(a: Byte)
    ensures Add4(TimesE(a), TimesB(Times3(a)), TimesD(XTime(a)), Times9(a)) == 0
  {}

  lemma InvMixCoefficients3(a: Byte)
    ensures Add4(TimesE(a), TimesB(a), TimesD(Times3(a)), Times9(XTime(a))) == 0
  {}

  /** The same product the other way round. */
  lemma MixCoefficients(a: Byte)
    ensures Add4(XTime(TimesE(a)), Times3(Times9(a)), TimesD(a), TimesB(a)) == a
    ensures Add4(XTime(TimesB(a)), Times3(TimesE(a)), Times9(a), TimesD(a)) == 0
    ensures Add4(XTime(TimesD(a)), Times3(TimesB(a)), TimesE(a), Times9(a)) == 0
    ensures Add4(XTime(Times9(a)), Times3(TimesD(a)), TimesB(a), TimesE(a)) == 0
  {
    hide Add4, TimesE, TimesB, TimesD, Times9, Times3, XTime;
    MixCoefficients0(a);
    MixCoefficients1(a);
    MixCoefficients2(a);
    MixCoefficients3(a);
  }

  lemma MixCoefficients0(a: Byte)
    ensures Add4(XTime(TimesE(a)), Times3(Times9(a)), TimesD(a), TimesB(a)) == a
  {}

  lemma MixCoefficients1(a: Byte)
    ensures Add4(XTime(TimesB(a)), Times3(TimesE(a)), Times9(a), TimesD(a)) == 0
  {}

  lemma MixCoefficients2(a: Byte)
    ensures Add4(XTime(TimesD(a)), Times3(TimesB(a)), TimesE(a), Times9(a)) == 0
  {}

  lemma MixCoefficients3(a: Byte)
    ensures Add4(XTime(Times9(a)), Times3(TimesD(a)), TimesB(a), TimesE(a)) == 0
  {}
}
