/** Bytes as numbers, with the arithmetic of GF(2^8) on their bits. */
module Bytes {
  import opened Fields
  import opened Gf256

  type byte = x: int | 0 <= x < 256

  /** The bits of a number below 256, and the number with the given bits. */
  function Bits(x: byte): Poly {
    var r7 := if x >= 128 then x - 128 else x;
    var r6 := if r7 >= 64 then r7 - 64 else r7;
    var r5 := if r6 >= 32 then r6 - 32 else r6;
    var r4 := if r5 >= 16 then r5 - 16 else r5;
    var r3 := if r4 >= 8 then r4 - 8 else r4;
    var r2 := if r3 >= 4 then r3 - 4 else r3;
    var r1 := if r2 >= 2 then r2 - 2 else r2;
    Poly(x >= 128, r7 >= 64, r6 >= 32, r5 >= 16, r4 >= 8, r3 >= 4, r2 >= 2, r1 >= 1)
  }

  function Weight(b: bool, weight: nat): nat { if b then weight else 0 }

  function Byte(b: Poly): byte {
    Weight(b.c7, 128) + Weight(b.c6, 64) + Weight(b.c5, 32) + Weight(b.c4, 16)
    + Weight(b.c3, 8) + Weight(b.c2, 4) + Weight(b.c1, 2) + Weight(b.c0, 1)
  }

  lemma BitsOfByte(b: Poly)
    ensures Bits(Byte(b)) == b
  {
    var w0 := Weight(b.c0, 1);
    var w1 := Weight(b.c1, 2) + w0;
    var w2 := Weight(b.c2, 4) + w1;
    var w3 := Weight(b.c3, 8) + w2;
    var w4 := Weight(b.c4, 16) + w3;
    var w5 := Weight(b.c5, 32) + w4;
    var w6 := Weight(b.c6, 64) + w5;
    assert Byte(b) == Weight(b.c7, 128) + w6;
    assert w0 < 2 && w1 < 4 && w2 < 8 && w3 < 16 && w4 < 32 && w5 < 64 && w6 < 128;
    BitsOfSums(b, w0, w1, w2, w3, w4, w5, w6);
  }

  lemma BitsOfSums(b: Poly, w0: nat, w1: nat, w2: nat, w3: nat, w4: nat, w5: nat, w6: nat)
    requires w0 == Weight(b.c0, 1) && w1 == Weight(b.c1, 2) + w0 && w2 == Weight(b.c2, 4) + w1
    requires w3 == Weight(b.c3, 8) + w2 && w4 == Weight(b.c4, 16) + w3 && w5 == Weight(b.c5, 32) + w4
    requires w6 == Weight(b.c6, 64) + w5
    requires w0 < 2 && w1 < 4 && w2 < 8 && w3 < 16 && w4 < 32 && w5 < 64 && w6 < 128
    ensures Bits(Weight(b.c7, 128) + w6) == b
  {
    hide Byte;
  }

  lemma ByteOfBits(x: byte)
    ensures Byte(Bits(x)) == x
  {
  }

  function ByteAdd(x: byte, y: byte): byte { Byte(Add(Bits(x), Bits(y))) }

  function ByteMul(x: byte, y: byte): byte { Byte(Mul(Bits(x), Bits(y))) }

  function ByteInv(x: byte): byte { Byte(Inv(Bits(x))) }

  function BytesField(): Field<byte> {
    Field(0, 1, (x: byte, y: byte) => ByteAdd(x, y), (x: byte, y: byte) => ByteMul(x, y), (x: byte) => ByteInv(x))
  }

  lemma AddBits(a: Poly, b: Poly, c: Poly)
    ensures Add(Add(a, b), c) == Add(a, Add(b, c))
  {
  }

  lemma AddBitsTwice(a: Poly, b: Poly)
    ensures Add(a, b) == Add(b, a)
    ensures Add(a, ZERO) == a && Add(a, a) == ZERO
  {
  }

  lemma BytesAdd(x: byte, y: byte, z: byte)
    ensures AddLaws(BytesField(), x, y, z)
  {
    hide Add, Byte, Bits;
    AddBits(Bits(x), Bits(y), Bits(z));
    AddBitsTwice(Bits(x), Bits(y));
    BitsOfByte(Add(Bits(x), Bits(y)));
    BitsOfByte(Add(Bits(y), Bits(z)));
    ByteOfBits(x);
    BitsOfZero();
  }

  lemma BitsOfZero()
    ensures Bits(0) == ZERO && Bits(1) == ONE && Byte(ZERO) == 0 && Byte(ONE) == 1
  {
    ByteOfBits(0);
    ByteOfBits(1);
  }

  lemma BytesMul(x: byte, y: byte, z: byte)
    ensures MulLaws(BytesField(), x, y, z)
  {
    hide Add, Mul, Byte, Bits;
    var a, b, c := Bits(x), Bits(y), Bits(z);
    MulCommutes(a, b);
    MulAssociates(a, b, c);
    MulByOne(a);
    MulAdds(a, b, c);
    BitsOfByte(Mul(a, b));
    BitsOfByte(Mul(b, c));
    BitsOfByte(Mul(a, c));
    BitsOfByte(Add(b, c));
    ByteOfBits(x);
    BitsOfZero();
  }

  lemma BytesInv(x: byte)
    ensures InvLaw(BytesField(), x)
  {
    hide Mul, Inv, Byte, Bits;
    ByteOfBits(x);
    BitsOfZero();
    if x != 0 {
      InvInverts(Bits(x));
      BitsOfByte(Inv(Bits(x)));
    }
  }

  /** The bytes with the gf256 operations are a field of characteristic two. */
  lemma BytesAreAField()
    ensures IsField(BytesField())
  {
    forall x: byte, y: byte, z: byte ensures AddLaws(BytesField(), x, y, z) && MulLaws(BytesField(), x, y, z) {
      BytesAdd(x, y, z);
      BytesMul(x, y, z);
    }
    forall x: byte ensures InvLaw(BytesField(), x) {
      BytesInv(x);
    }
  }
}
