/** Arithmetic in a field of characteristic two, as an explicit record of operations.

    The codec only ever combines bytes with the gf256 operations: sum, product and inverse.
    Every result about the solver and about the recovery packets is proved for every record of
    operations that satisfies `IsField`; `Bytes.dfy` shows that the byte arithmetic of the
    program is such a record. */
module Fields {

  datatype Field<!T> = Field(zero: T, one: T, add: (T, T) -> T, mul: (T, T) -> T, inv: T -> T)
  {
    function Div(x: T, y: T): T { mul(x, inv(y)) }
  }

  // The laws are grouped in predicates of their arguments, so that the verifier uses a law
  // exactly where a proof names the elements it is about.

  ghost predicate AddLaws<T>(F: Field<T>, x: T, y: T, z: T) {
    && F.add(x, y) == F.add(y, x)
    && F.add(F.add(x, y), z) == F.add(x, F.add(y, z))
    && F.add(x, F.zero) == x
    && F.add(x, x) == F.zero
  }

  ghost predicate MulLaws<T>(F: Field<T>, x: T, y: T, z: T) {
    && F.mul(x, y) == F.mul(y, x)
    && F.mul(F.mul(x, y), z) == F.mul(x, F.mul(y, z))
    && F.mul(x, F.one) == x
    && F.mul(x, F.add(y, z)) == F.add(F.mul(x, y), F.mul(x, z))
  }

  ghost predicate InvLaw<T>(F: Field<T>, x: T) {
    x != F.zero ==> F.mul(x, F.inv(x)) == F.one
  }

  /** A field in which every element is its own negative. */
  ghost predicate IsField<T(!new)>(F: Field<T>) {
    && F.one != F.zero
    && (forall x, y, z :: AddLaws(F, x, y, z))
    && (forall x, y, z :: MulLaws(F, x, y, z))
    && (forall x :: InvLaw(F, x))
  }

  lemma AddComm<T(!new)>(F: Field<T>, x: T, y: T)
    requires IsField(F)
    ensures F.add(x, y) == F.add(y, x)
  {
    assert AddLaws(F, x, y, y);
  }

  lemma AddAssoc<T(!new)>(F: Field<T>, x: T, y: T, z: T)
    requires IsField(F)
    ensures F.add(F.add(x, y), z) == F.add(x, F.add(y, z))
  {
    assert AddLaws(F, x, y, z);
  }

  lemma AddZero<T(!new)>(F: Field<T>, x: T)
    requires IsField(F)
    ensures F.add(x, F.zero) == x && F.add(F.zero, x) == x
  {
    assert AddLaws(F, x, F.zero, x);
  }

  lemma AddSelf<T(!new)>(F: Field<T>, x: T)
    requires IsField(F)
    ensures F.add(x, x) == F.zero
  {
    assert AddLaws(F, x, x, x);
  }

  /** Adding the same element twice cancels it. */
  lemma AddCancel<T(!new)>(F: Field<T>, x: T, y: T)
    requires IsField(F)
    ensures F.add(F.add(x, y), y) == x
    ensures F.add(y, F.add(y, x)) == x
  {
    AddAssoc(F, x, y, y);
    AddAssoc(F, y, y, x);
    AddSelf(F, y);
    AddZero(F, x);
  }

  /** (a + b) + (c + d) == (a + c) + (b + d) */
  lemma AddExchange<T(!new)>(F: Field<T>, a: T, b: T, c: T, d: T)
    requires IsField(F)
    ensures F.add(F.add(a, b), F.add(c, d)) == F.add(F.add(a, c), F.add(b, d))
  {
    AddAssoc(F, a, b, F.add(c, d));
    AddAssoc(F, b, c, d);
    AddComm(F, b, c);
    AddAssoc(F, c, b, d);
    AddAssoc(F, a, c, F.add(b, d));
  }

  lemma MulComm<T(!new)>(F: Field<T>, x: T, y: T)
    requires IsField(F)
    ensures F.mul(x, y) == F.mul(y, x)
  {
    assert MulLaws(F, x, y, y);
  }

  lemma MulAssoc<T(!new)>(F: Field<T>, x: T, y: T, z: T)
    requires IsField(F)
    ensures F.mul(F.mul(x, y), z) == F.mul(x, F.mul(y, z))
  {
    assert MulLaws(F, x, y, z);
  }

  lemma MulOne<T(!new)>(F: Field<T>, x: T)
    requires IsField(F)
    ensures F.mul(x, F.one) == x && F.mul(F.one, x) == x
  {
    assert MulLaws(F, x, F.one, x);
  }

  lemma Distribute<T(!new)>(F: Field<T>, x: T, y: T, z: T)
    requires IsField(F)
    ensures F.mul(x, F.add(y, z)) == F.add(F.mul(x, y), F.mul(x, z))
    ensures F.mul(F.add(y, z), x) == F.add(F.mul(y, x), F.mul(z, x))
  {
    assert MulLaws(F, x, y, z);
    MulComm(F, x, y);
    MulComm(F, x, z);
    MulComm(F, x, F.add(y, z));
  }

  lemma MulZero<T(!new)>(F: Field<T>, x: T)
    requires IsField(F)
    ensures F.mul(x, F.zero) == F.zero && F.mul(F.zero, x) == F.zero
  {
    AddSelf(F, F.zero);
    Distribute(F, x, F.zero, F.zero);
    AddSelf(F, F.mul(x, F.zero));
    MulComm(F, x, F.zero);
  }

  /** x / y * y == x */
  lemma DivMul<T(!new)>(F: Field<T>, x: T, y: T)
    requires IsField(F) && y != F.zero
    ensures F.mul(F.Div(x, y), y) == x
  {
    MulAssoc(F, x, F.inv(y), y);
    MulComm(F, F.inv(y), y);
    assert InvLaw(F, y);
    MulOne(F, x);
  }

  /** 1/y * (y * x) == x */
  lemma InvMul<T(!new)>(F: Field<T>, x: T, y: T)
    requires IsField(F) && y != F.zero
    ensures F.mul(F.inv(y), F.mul(y, x)) == x
  {
    MulAssoc(F, F.inv(y), y, x);
    MulComm(F, F.inv(y), y);
    assert InvLaw(F, y);
    MulOne(F, x);
  }
}
