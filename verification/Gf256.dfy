/** The byte arithmetic of the program: GF(2^8), polynomials over bits modulo
    x^8 + x^6 + x^3 + x^2 + 1, the generator 0x14D that gf256 selects by default. */
module Gf256 {

  /** A polynomial of degree below 8, by its coefficients. */
  datatype Poly = Poly(c7: bool, c6: bool, c5: bool, c4: bool, c3: bool, c2: bool, c1: bool, c0: bool)

  const ZERO := Poly(false, false, false, false, false, false, false, false)
  const ONE := Poly(false, false, false, false, false, false, false, true)

  function Add(a: Poly, b: Poly): Poly {
    Poly(a.c7 != b.c7, a.c6 != b.c6, a.c5 != b.c5, a.c4 != b.c4, a.c3 != b.c3, a.c2 != b.c2, a.c1 != b.c1, a.c0 != b.c0)
  }

  /** Multiplication by x, which reduces the coefficient of x^8. */
  function X(a: Poly): Poly {
    Poly(a.c6, a.c5 != a.c7, a.c4, a.c3, a.c2 != a.c7, a.c1 != a.c7, a.c0, a.c7)
  }

  function Bit(c: bool, b: Poly): Poly { if c then b else ZERO }

  /** The product: the sum of the multiples of b by the powers of x that a contains. */
  function Mul(a: Poly, b: Poly): Poly {
    var b1 := X(b);
    var b2 := X(b1);
    var b3 := X(b2);
    var b4 := X(b3);
    var b5 := X(b4);
    var b6 := X(b5);
    var b7 := X(b6);
    Add(Bit(a.c0, b), Add(Bit(a.c1, b1), Add(Bit(a.c2, b2), Add(Bit(a.c3, b3),
    Add(Bit(a.c4, b4), Add(Bit(a.c5, b5), Add(Bit(a.c6, b6), Bit(a.c7, b7))))))))
  }

  // ----- bits

  lemma AddExchange(a: Poly, b: Poly, c: Poly, d: Poly)
    ensures Add(Add(a, b), Add(c, d)) == Add(Add(a, c), Add(b, d))
  {
  }

  lemma XAdd(a: Poly, b: Poly)
    ensures X(Add(a, b)) == Add(X(a), X(b))
  {
  }

  lemma XBit(c: bool, b: Poly)
    ensures X(Bit(c, b)) == Bit(c, X(b))
  {
  }

  lemma BitAdd(c: bool, b: Poly, b': Poly)
    ensures Bit(c, Add(b, b')) == Add(Bit(c, b), Bit(c, b'))
  {
  }

  // ----- the ring laws

  lemma MulAdds(a: Poly, b: Poly, c: Poly)
    ensures Mul(a, Add(b, c)) == Add(Mul(a, b), Mul(a, c))
  {
    hide Add, X, Bit;
    var b1, c1 := X(b), X(c);
    var b2, c2 := X(b1), X(c1);
    var b3, c3 := X(b2), X(c2);
    var b4, c4 := X(b3), X(c3);
    var b5, c5 := X(b4), X(c4);
    var b6, c6 := X(b5), X(c5);
    var b7, c7 := X(b6), X(c6);
    XAdd(b, c); XAdd(b1, c1); XAdd(b2, c2); XAdd(b3, c3); XAdd(b4, c4); XAdd(b5, c5); XAdd(b6, c6);
    BitAdd(a.c0, b, c);
    BitAdd(a.c1, b1, c1);
    BitAdd(a.c2, b2, c2);
    BitAdd(a.c3, b3, c3);
    BitAdd(a.c4, b4, c4);
    BitAdd(a.c5, b5, c5);
    BitAdd(a.c6, b6, c6);
    BitAdd(a.c7, b7, c7);
    var bs7, cs7 := Bit(a.c7, b7), Bit(a.c7, c7);
    var bs6, cs6 := Add(Bit(a.c6, b6), bs7), Add(Bit(a.c6, c6), cs7);
    var bs5, cs5 := Add(Bit(a.c5, b5), bs6), Add(Bit(a.c5, c5), cs6);
    var bs4, cs4 := Add(Bit(a.c4, b4), bs5), Add(Bit(a.c4, c4), cs5);
    var bs3, cs3 := Add(Bit(a.c3, b3), bs4), Add(Bit(a.c3, c3), cs4);
    var bs2, cs2 := Add(Bit(a.c2, b2), bs3), Add(Bit(a.c2, c2), cs3);
    var bs1, cs1 := Add(Bit(a.c1, b1), bs2), Add(Bit(a.c1, c1), cs2);
    AddExchange(Bit(a.c6, b6), Bit(a.c6, c6), bs7, cs7);
    AddExchange(Bit(a.c5, b5), Bit(a.c5, c5), bs6, cs6);
    AddExchange(Bit(a.c4, b4), Bit(a.c4, c4), bs5, cs5);
    AddExchange(Bit(a.c3, b3), Bit(a.c3, c3), bs4, cs4);
    AddExchange(Bit(a.c2, b2), Bit(a.c2, c2), bs3, cs3);
    AddExchange(Bit(a.c1, b1), Bit(a.c1, c1), bs2, cs2);
    AddExchange(Bit(a.c0, b), Bit(a.c0, c), bs1, cs1);
  }

  lemma MulX(a: Poly, b: Poly)
    ensures Mul(a, X(b)) == X(Mul(a, b))
  {
    hide Add, X, Bit;
    var b1 := X(b);
    var b2 := X(b1);
    var b3 := X(b2);
    var b4 := X(b3);
    var b5 := X(b4);
    var b6 := X(b5);
    var b7 := X(b6);
    var b8 := X(b7);
    XBit(a.c0, b);
    XBit(a.c1, b1);
    XBit(a.c2, b2);
    XBit(a.c3, b3);
    XBit(a.c4, b4);
    XBit(a.c5, b5);
    XBit(a.c6, b6);
    XBit(a.c7, b7);
    var s7 := Bit(a.c7, b7);
    var s6 := Add(Bit(a.c6, b6), s7);
    var s5 := Add(Bit(a.c5, b5), s6);
    var s4 := Add(Bit(a.c4, b4), s5);
    var s3 := Add(Bit(a.c3, b3), s4);
    var s2 := Add(Bit(a.c2, b2), s3);
    var s1 := Add(Bit(a.c1, b1), s2);
    XAdd(Bit(a.c0, b), s1);
    XAdd(Bit(a.c1, b1), s2);
    XAdd(Bit(a.c2, b2), s3);
    XAdd(Bit(a.c3, b3), s4);
    XAdd(Bit(a.c4, b4), s5);
    XAdd(Bit(a.c5, b5), s6);
    XAdd(Bit(a.c6, b6), s7);
  }

  lemma MulZero(a: Poly)
    ensures Mul(a, ZERO) == ZERO
  {
    assert X(ZERO) == ZERO;
  }

  lemma MulBit(b: Poly, d: bool, c: Poly)
    ensures Mul(b, Bit(d, c)) == Bit(d, Mul(b, c))
  {
    hide Mul;
    MulZero(b);
  }

  /** A sum of multiples of c can be multiplied term by term. */
  lemma PullFactor(b: Poly, a: Poly, c: Poly)
    ensures Mul(b, Mul(a, c)) == Mul(a, Mul(b, c))
  {
    hide Add, X, Bit;
    var c1 := X(c);
    var c2 := X(c1);
    var c3 := X(c2);
    var c4 := X(c3);
    var c5 := X(c4);
    var c6 := X(c5);
    var c7 := X(c6);
    var s7 := Bit(a.c7, c7);
    var s6 := Add(Bit(a.c6, c6), s7);
    var s5 := Add(Bit(a.c5, c5), s6);
    var s4 := Add(Bit(a.c4, c4), s5);
    var s3 := Add(Bit(a.c3, c3), s4);
    var s2 := Add(Bit(a.c2, c2), s3);
    var s1 := Add(Bit(a.c1, c1), s2);
    assert Mul(a, c) == Add(Bit(a.c0, c), s1);
    PullTerms(b, a, c, c1, c2, c3, c4, c5, c6, c7, s1, s2, s3, s4, s5, s6, s7);
    MulX(b, c);
    MulX(b, c1);
    MulX(b, c2);
    MulX(b, c3);
    MulX(b, c4);
    MulX(b, c5);
    MulX(b, c6);
  }

  lemma PullTerms(b: Poly, a: Poly, c: Poly, c1: Poly, c2: Poly, c3: Poly, c4: Poly, c5: Poly, c6: Poly, c7: Poly,
      s1: Poly, s2: Poly, s3: Poly, s4: Poly, s5: Poly, s6: Poly, s7: Poly)
    requires s7 == Bit(a.c7, c7) && s6 == Add(Bit(a.c6, c6), s7) && s5 == Add(Bit(a.c5, c5), s6)
    requires s4 == Add(Bit(a.c4, c4), s5) && s3 == Add(Bit(a.c3, c3), s4)
    requires s2 == Add(Bit(a.c2, c2), s3) && s1 == Add(Bit(a.c1, c1), s2)
    ensures Mul(b, Add(Bit(a.c0, c), s1)) ==
      Add(Bit(a.c0, Mul(b, c)), Add(Bit(a.c1, Mul(b, c1)), Add(Bit(a.c2, Mul(b, c2)), Add(Bit(a.c3, Mul(b, c3)),
      Add(Bit(a.c4, Mul(b, c4)), Add(Bit(a.c5, Mul(b, c5)), Add(Bit(a.c6, Mul(b, c6)), Bit(a.c7, Mul(b, c7)))))))))
  {
    hide Add, X, Bit, Mul;
    MulAdds(b, Bit(a.c0, c), s1);
    MulAdds(b, Bit(a.c1, c1), s2);
    MulAdds(b, Bit(a.c2, c2), s3);
    MulAdds(b, Bit(a.c3, c3), s4);
    MulAdds(b, Bit(a.c4, c4), s5);
    MulAdds(b, Bit(a.c5, c5), s6);
    MulAdds(b, Bit(a.c6, c6), s7);
    MulBit(b, a.c0, c);
    MulBit(b, a.c1, c1);
    MulBit(b, a.c2, c2);
    MulBit(b, a.c3, c3);
    MulBit(b, a.c4, c4);
    MulBit(b, a.c5, c5);
    MulBit(b, a.c6, c6);
    MulBit(b, a.c7, c7);
  }

  /** The powers of x below the degree of the modulus. */
  const X0 := Poly(false, false, false, false, false, false, false, true)
  const X1 := Poly(false, false, false, false, false, false, true, false)
  const X2 := Poly(false, false, false, false, false, true, false, false)
  const X3 := Poly(false, false, false, false, true, false, false, false)
  const X4 := Poly(false, false, false, true, false, false, false, false)
  const X5 := Poly(false, false, true, false, false, false, false, false)
  const X6 := Poly(false, true, false, false, false, false, false, false)
  const X7 := Poly(true, false, false, false, false, false, false, false)

  lemma Powers()
    ensures X0 == ONE
    ensures X(X0) == X1
    ensures X(X1) == X2
    ensures X(X2) == X3
    ensures X(X3) == X4
    ensures X(X4) == X5
    ensures X(X5) == X6
    ensures X(X6) == X7
  {
  }

  lemma MulByOne(a: Poly)
    ensures Mul(a, ONE) == a
  {
    Powers();
    MulByPowers(a);
    hide Add, X, Bit;
  }

  lemma AddPower6(a: Poly)
    ensures Add(Bit(a.c6, X6), Poly(a.c7, false, false, false, false, false, false, false))
            == Poly(a.c7, a.c6, false, false, false, false, false, false)
  {
  }

  lemma AddPower5(a: Poly)
    ensures Add(Bit(a.c5, X5), Poly(a.c7, a.c6, false, false, false, false, false, false))
            == Poly(a.c7, a.c6, a.c5, false, false, false, false, false)
  {
  }

  lemma AddPower4(a: Poly)
    ensures Add(Bit(a.c4, X4), Poly(a.c7, a.c6, a.c5, false, false, false, false, false))
            == Poly(a.c7, a.c6, a.c5, a.c4, false, false, false, false)
  {
  }

  lemma AddPower3(a: Poly)
    ensures Add(Bit(a.c3, X3), Poly(a.c7, a.c6, a.c5, a.c4, false, false, false, false))
            == Poly(a.c7, a.c6, a.c5, a.c4, a.c3, false, false, false)
  {
  }

  lemma AddPower2(a: Poly)
    ensures Add(Bit(a.c2, X2), Poly(a.c7, a.c6, a.c5, a.c4, a.c3, false, false, false))
            == Poly(a.c7, a.c6, a.c5, a.c4, a.c3, a.c2, false, false)
  {
  }

  lemma AddPower1(a: Poly)
    ensures Add(Bit(a.c1, X1), Poly(a.c7, a.c6, a.c5, a.c4, a.c3, a.c2, false, false))
            == Poly(a.c7, a.c6, a.c5, a.c4, a.c3, a.c2, a.c1, false)
  {
  }

  lemma AddPower0(a: Poly)
    ensures Add(Bit(a.c0, X0), Poly(a.c7, a.c6, a.c5, a.c4, a.c3, a.c2, a.c1, false))
            == Poly(a.c7, a.c6, a.c5, a.c4, a.c3, a.c2, a.c1, a.c0)
  {
  }

  lemma MulByPowers(a: Poly)
    ensures Add(Bit(a.c0, X0), Add(Bit(a.c1, X1), Add(Bit(a.c2, X2), Add(Bit(a.c3, X3),
      Add(Bit(a.c4, X4), Add(Bit(a.c5, X5), Add(Bit(a.c6, X6), Bit(a.c7, X7)))))))) == a
  {
    hide Add;
    assert Bit(a.c7, X7) == Poly(a.c7, false, false, false, false, false, false, false);
    hide Bit;
    AddPower6(a);
    AddPower5(a);
    AddPower4(a);
    AddPower3(a);
    AddPower2(a);
    AddPower1(a);
    AddPower0(a);
  }

  lemma MulCommutes(a: Poly, b: Poly)
    ensures Mul(a, b) == Mul(b, a)
  {
    hide Mul;
    PullFactor(b, a, ONE);
    MulByOne(a);
    MulByOne(b);
  }

  lemma MulAssociates(a: Poly, b: Poly, c: Poly)
    ensures Mul(Mul(a, b), c) == Mul(a, Mul(b, c))
  {
    hide Mul;
    PullFactor(c, a, b);
    MulCommutes(Mul(a, b), c);
    MulCommutes(c, b);
  }

  // ----- inverses

  /** Squaring is a linear map. */
  function Square(a: Poly): Poly {
    Poly(
      a.c6,
      (a.c5 != a.c4) != a.c3,
      (a.c7 != a.c6) != a.c5,
      (a.c7 != a.c5) != a.c2,
      ((a.c7 != a.c6) != a.c5) != a.c4,
      (a.c7 != a.c4) != a.c1,
      a.c7,
      ((a.c6 != a.c5) != a.c4) != a.c0)
  }

  lemma SquareOfSum(a: Poly, b: Poly)
    ensures Mul(Add(a, b), Add(a, b)) == Add(Add(Mul(a, a), Mul(a, b)), Add(Mul(a, b), Mul(b, b)))
  {
    hide Add, Mul;
    var s := Add(a, b);
    MulAdds(s, a, b);
    MulCommutes(s, a);
    MulCommutes(s, b);
    MulAdds(a, a, b);
    MulAdds(b, a, b);
    MulCommutes(b, a);
  }

  lemma AddCancels(a: Poly, m: Poly, b: Poly)
    ensures Add(Add(a, m), Add(m, b)) == Add(a, b)
  {
  }

  lemma SquareIsLinear(a: Poly, b: Poly)
    ensures Square(Add(a, b)) == Add(Square(a), Square(b))
  {
  }

  lemma SquareAdds(a: Poly, b: Poly)
    requires Mul(a, a) == Square(a) && Mul(b, b) == Square(b)
    ensures Mul(Add(a, b), Add(a, b)) == Square(Add(a, b))
  {
    hide Add, Mul, Square;
    SquareIsLinear(a, b);
    SquareOfSum(a, b);
    AddCancels(Square(a), Mul(a, b), Square(b));
  }

  lemma SquareOfX0(c: bool)
    ensures Mul(Bit(c, X0), Bit(c, X0)) == Square(Bit(c, X0))
  {
  }

  lemma SquareOfX1(c: bool)
    ensures Mul(Bit(c, X1), Bit(c, X1)) == Square(Bit(c, X1))
  {
  }

  lemma SquareOfX2(c: bool)
    ensures Mul(Bit(c, X2), Bit(c, X2)) == Square(Bit(c, X2))
  {
  }

  lemma SquareOfX3(c: bool)
    ensures Mul(Bit(c, X3), Bit(c, X3)) == Square(Bit(c, X3))
  {
  }

  lemma SquareOfX4(c: bool)
    ensures Mul(Bit(c, X4), Bit(c, X4)) == Square(Bit(c, X4))
  {
  }

  lemma SquareOfX5(c: bool)
    ensures Mul(Bit(c, X5), Bit(c, X5)) == Square(Bit(c, X5))
  {
  }

  lemma SquareOfX6(c: bool)
    ensures Mul(Bit(c, X6), Bit(c, X6)) == Square(Bit(c, X6))
  {
  }

  lemma SquareOfX7(c: bool)
    ensures Mul(Bit(c, X7), Bit(c, X7)) == Square(Bit(c, X7))
  {
  }

  lemma SquareIsMul(a: Poly)
    ensures Mul(a, a) == Square(a)
  {
    hide Add, X, Bit, Mul, Square;
    MulByPowers(a);
    SquareOfX0(a.c0);
    SquareOfX1(a.c1);
    SquareOfX2(a.c2);
    SquareOfX3(a.c3);
    SquareOfX4(a.c4);
    SquareOfX5(a.c5);
    SquareOfX6(a.c6);
    SquareOfX7(a.c7);
    var s7 := Bit(a.c7, X7);
    var s6 := Add(Bit(a.c6, X6), s7);
    var s5 := Add(Bit(a.c5, X5), s6);
    var s4 := Add(Bit(a.c4, X4), s5);
    var s3 := Add(Bit(a.c3, X3), s4);
    var s2 := Add(Bit(a.c2, X2), s3);
    var s1 := Add(Bit(a.c1, X1), s2);
    SquareAdds(Bit(a.c6, X6), s7);
    SquareAdds(Bit(a.c5, X5), s6);
    SquareAdds(Bit(a.c4, X4), s5);
    SquareAdds(Bit(a.c3, X3), s4);
    SquareAdds(Bit(a.c2, X2), s3);
    SquareAdds(Bit(a.c1, X1), s2);
    SquareAdds(Bit(a.c0, X0), s1);
  }

  lemma SquareOfProduct(a: Poly, b: Poly)
    ensures Square(Mul(a, b)) == Mul(Square(a), Square(b))
  {
    hide Square, Mul;
    var p := Mul(a, b);
    SquareIsMul(a);
    SquareIsMul(b);
    SquareIsMul(p);
    MulAssociates(a, b, p);
    PullFactor(b, a, b);
    MulAssociates(a, a, Mul(b, b));
  }

  /** The fourth power, again a linear map. */
  function Fourth(a: Poly): Poly {
    Poly(
      (a.c5 != a.c4) != a.c3,
      ((a.c7 != a.c5) != a.c4) != a.c2,
      (a.c7 != a.c4) != a.c3,
      (a.c5 != a.c4) != a.c1,
      ((a.c5 != a.c4) != a.c3) != a.c2,
      (a.c6 != a.c5) != a.c2,
      a.c6,
      (a.c3 != a.c2) != a.c0)
  }

  lemma FourthIsPower(a: Poly)
    ensures Square(Square(a)) == Fourth(a)
  {
  }

  lemma ConjugateIsFourth(a: Poly)
    ensures Fourth(Fourth(a)) == Conjugate(a)
  {
  }

  /** The 16th power, again a linear map. */
  function Conjugate(a: Poly): Poly {
    Poly(
      ((a.c7 != a.c4) != a.c2) != a.c1,
      ((((a.c7 != a.c6) != a.c5) != a.c4) != a.c2) != a.c1,
      ((a.c5 != a.c4) != a.c2) != a.c1,
      (((a.c7 != a.c6) != a.c5) != a.c3) != a.c1,
      (((a.c7 != a.c6) != a.c5) != a.c4) != a.c1,
      a.c6 != a.c3,
      ((a.c7 != a.c5) != a.c4) != a.c2,
      ((a.c6 != a.c4) != a.c2) != a.c0)
  }

  lemma ConjugateIsPower(a: Poly)
    ensures Square(Square(Square(Square(a)))) == Conjugate(a)
  {
    hide Square, Fourth, Conjugate;
    FourthIsPower(a);
    FourthIsPower(Square(Square(a)));
    ConjugateIsFourth(a);
  }

  lemma ConjugateTwice(a: Poly)
    ensures Conjugate(Conjugate(a)) == a
  {
  }

  lemma ConjugateOfProduct(a: Poly, b: Poly)
    ensures Conjugate(Mul(a, b)) == Mul(Conjugate(a), Conjugate(b))
  {
    hide Square, Mul, Conjugate;
    SquareOfProduct(a, b);
    SquareOfProduct(Square(a), Square(b));
    SquareOfProduct(Square(Square(a)), Square(Square(b)));
    SquareOfProduct(Square(Square(Square(a))), Square(Square(Square(b))));
    ConjugateIsPower(a);
    ConjugateIsPower(b);
    ConjugateIsPower(Mul(a, b));
  }

  // The elements of the subfield with 16 elements, other than 0 and 1.
  const S1C := Poly(false, false, false, true, true, true, false, false)
  const S1D := Poly(false, false, false, true, true, true, false, true)
  const S46 := Poly(false, true, false, false, false, true, true, false)
  const S47 := Poly(false, true, false, false, false, true, true, true)
  const S5A := Poly(false, true, false, true, true, false, true, false)
  const S5B := Poly(false, true, false, true, true, false, true, true)
  const SA0 := Poly(true, false, true, false, false, false, false, false)
  const SA1 := Poly(true, false, true, false, false, false, false, true)
  const SBC := Poly(true, false, true, true, true, true, false, false)
  const SBD := Poly(true, false, true, true, true, true, false, true)
  const SE6 := Poly(true, true, true, false, false, true, true, false)
  const SE7 := Poly(true, true, true, false, false, true, true, true)
  const SFA := Poly(true, true, true, true, true, false, true, false)
  const SFB := Poly(true, true, true, true, true, false, true, true)

  predicate InSubfield(n: Poly) {
    n == ONE || n == S1C || n == S1D || n == S46 || n == S47 || n == S5A || n == S5B || n == SA0 || n == SA1 || n == SBC
      || n == SBD || n == SE6 || n == SE7 || n == SFA || n == SFB
  }

  /** The elements that are their own 16th power form a subfield with 16 elements. */
  lemma FixedIsSubfield(n: Poly)
    requires Conjugate(n) == n && n != ZERO
    ensures InSubfield(n)
  {
  }

  /** Inverses in the subfield. */
  function SubfieldInverse(n: Poly): Poly {
    if n == ONE then ONE
    else if n == S1C then S1D
    else if n == S1D then S1C
    else if n == S46 then SE7
    else if n == S47 then S5A
    else if n == S5A then S47
    else if n == S5B then SE6
    else if n == SA0 then SBC
    else if n == SA1 then SFA
    else if n == SBC then SA0
    else if n == SBD then SFB
    else if n == SE6 then S5B
    else if n == SE7 then S46
    else if n == SFA then SA1
    else if n == SFB then SBD
    else ZERO
  }

  lemma SubfieldInvertsLow(n: Poly)
    requires n == ONE || n == S1C || n == S1D || n == S46 || n == S47 || n == S5A || n == S5B
    ensures Mul(n, SubfieldInverse(n)) == ONE
  {
  }

  lemma SubfieldInvertsHigh(n: Poly)
    requires n == SA0 || n == SA1 || n == SBC || n == SBD || n == SE6 || n == SE7 || n == SFA || n == SFB
    ensures Mul(n, SubfieldInverse(n)) == ONE
  {
  }

  lemma SubfieldInverts(n: Poly)
    requires InSubfield(n)
    ensures Mul(n, SubfieldInverse(n)) == ONE
  {
    hide Mul, SubfieldInverse;
    if !n.c7 { SubfieldInvertsLow(n); } else { SubfieldInvertsHigh(n); }
  }

  lemma NormNonzeroLow(a: Poly)
    requires a != ZERO && !a.c7
    ensures Mul(a, Conjugate(a)) != ZERO
  {
  }

  lemma NormNonzeroHigh(a: Poly)
    requires a.c7
    ensures Mul(a, Conjugate(a)) != ZERO
  {
  }

  function Inv(a: Poly): Poly {
    var c := Conjugate(a);
    Mul(c, SubfieldInverse(Mul(a, c)))
  }

  lemma InvInverts(a: Poly)
    requires a != ZERO
    ensures Mul(a, Inv(a)) == ONE
  {
    hide Conjugate, SubfieldInverse, InSubfield, Mul;
    var c := Conjugate(a);
    var n := Mul(a, c);
    if !a.c7 { NormNonzeroLow(a); } else { NormNonzeroHigh(a); }
    ConjugateOfProduct(a, c);
    ConjugateTwice(a);
    MulCommutes(a, c);
    FixedIsSubfield(n);
    MulAssociates(a, c, SubfieldInverse(n));
    SubfieldInverts(n);
  }
}
