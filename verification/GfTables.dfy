/** The tables of gf256: logarithms to the base x, and the product, quotient, inverse and square
    tables made from them.  They hold the arithmetic of the polynomials. */
module GfTables {
  import opened Numbers
  import opened Fields
  import opened Gf256
  import opened Bytes

  /** The n-th power of x. */
  function Pow(n: nat): Poly { if n == 0 then ONE else X(Pow(n - 1)) }

  lemma {:induction false} PowAdds(a: nat, b: nat)
    ensures Mul(Pow(a), Pow(b)) == Pow(a + b)
  {
    hide Mul, X;
    if b == 0 {
      MulByOne(Pow(a));
    } else {
      PowAdds(a, b - 1);
      MulX(Pow(a), Pow(b - 1));
    }
  }

  lemma {:induction false} PowOfMultiple(k: nat, q: nat)
    requires Pow(k) == ONE
    ensures Pow(q * k) == ONE
  {
    if q > 0 {
      PowOfMultiple(k, q - 1);
      PowAdds((q - 1) * k, k);
      assert (q - 1) * k + k == q * k;
      MulByOne(ONE);
    }
  }

  lemma PowTwice(n: nat)
    ensures Pow(2 * n) == Square(Pow(n)) && Pow(2 * n + 1) == X(Square(Pow(n)))
  {
    hide Mul, X, Square;
    PowAdds(n, n);
    SquareIsMul(Pow(n));
  }

  /** The powers that decide the order of x. */
  lemma SomePowers()
    ensures Pow(255) == ONE && Pow(15) != ONE && Pow(51) != ONE && Pow(85) != ONE
  {
    assert Pow(1) == X1 by { assert Pow(0) == ONE; }
    PowerChain15();
    PowerChain51();
    PowerChain85();
  }

  lemma PowerChain15()
    requires Pow(1) == X1
    ensures Pow(255) == ONE && Pow(15) != ONE
  {
    hide Pow;
    PowTwice(1);
    PowTwice(3);
    PowTwice(7);
    PowTwice(15);
    PowTwice(31);
    PowTwice(63);
    PowTwice(127);
  }

  lemma PowerChain51()
    requires Pow(1) == X1
    ensures Pow(51) != ONE
  {
    hide Pow;
    PowTwice(1);
    PowTwice(3);
    PowTwice(6);
    PowTwice(12);
    PowTwice(25);
  }

  lemma PowerChain85()
    requires Pow(1) == X1
    ensures Pow(85) != ONE
  {
    hide Pow;
    PowTwice(1);
    PowTwice(2);
    PowTwice(5);
    PowTwice(10);
    PowTwice(21);
    PowTwice(42);
  }

  /** x generates the field: no smaller power than the 255th is one. */
  lemma {:induction false} OrderOfX(k: nat)
    requires 0 < k < 255
    ensures Pow(k) != ONE
  {
    hide Pow, Mul;
    SomePowers();
    if Pow(k) == ONE {
      var q, r := 255 / k, 255 % k;
      PowOfMultiple(k, q);
      PowAdds(q * k, r);
      MulByOne(Pow(r));
      MulCommutes(ONE, Pow(r));
      if r > 0 {
        OrderOfX(r);
      } else {
        ProperDivisor(k, q);
        PowOfMultiple(k, 15 / k);
        PowOfMultiple(k, 51 / k);
        PowOfMultiple(k, 85 / k);
      }
    }
  }

  /** A proper divisor of 255 divides 15, 51 or 85. */
  lemma ProperDivisor(k: nat, q: nat)
    requires q * k == 255 && 0 < k < 255
    ensures 15 / k * k == 15 || 51 / k * k == 51 || 85 / k * k == 85
  {
    if k < 16 {
      assert k == 1 || k == 2 || k == 3 || k == 4 || k == 5 || k == 6 || k == 7 || k == 8 || k == 9 || k == 10
             || k == 11 || k == 12 || k == 13 || k == 14 || k == 15;
    } else {
      assert q < 16;
      assert q == 2 || q == 3 || q == 4 || q == 5 || q == 6 || q == 7 || q == 8 || q == 9 || q == 10
             || q == 11 || q == 12 || q == 13 || q == 14 || q == 15;
    }
  }

  /** Different logarithms belong to different elements. */
  lemma PowDiffers(i: nat, j: nat)
    requires i < j < i + 255
    ensures Pow(i) != Pow(j) && Pow(i) != ZERO
  {
    hide Mul;
    PowIsNotZero(i);
    if Pow(i) == Pow(j) {
      PowAdds(i, j - i);
      Cancel(Pow(i), Pow(j - i));
      OrderOfX(j - i);
    }
  }

  lemma {:induction false} PowIsNotZero(i: nat)
    ensures Pow(i) != ZERO
  {
    if i > 0 {
      PowIsNotZero(i - 1);
    }
  }

  lemma Cancel(a: Poly, b: Poly)
    requires a != ZERO && Mul(a, b) == a
    ensures b == ONE
  {
    hide Mul, Inv;
    InvInverts(a);
    MulCommutes(a, Inv(a));
    MulAssociates(Inv(a), a, b);
    MulCommutes(ONE, b);
    MulByOne(b);
  }

  function PowByte(n: nat): byte { Byte(Pow(n)) }

  lemma BytesDiffer(i: nat, j: nat)
    requires i < j < i + 255
    ensures PowByte(i) != PowByte(j) && PowByte(i) != 0
  {
    hide Byte, Bits, Pow;
    PowDiffers(i, j);
    BitsOfByte(Pow(i));
    BitsOfByte(Pow(j));
    BitsOfZero();
  }

  lemma PowPeriod(n: nat)
    ensures PowByte(n + 255) == PowByte(n)
  {
    hide Mul;
    SomePowers();
    PowAdds(n, 255);
    MulByOne(Pow(n));
  }

  /** The first k powers as bytes. */
  ghost function PowersBelow(k: nat): set<nat> {
    if k == 0 then {} else PowersBelow(k - 1) + {PowByte(k - 1)}
  }

  lemma {:induction false} PowersAreDistinct(k: nat)
    requires k <= 255
    ensures |PowersBelow(k)| == k && PowersBelow(k) <= Below(256) - {0}
    ensures forall y :: y in PowersBelow(k) <==> exists i :: 0 <= i < k && PowByte(i) == y
  {
    hide PowByte, Below;
    if k > 0 {
      PowersAreDistinct(k - 1);
      BytesDiffer(k - 1, k);
      forall i | 0 <= i < k - 1 ensures PowByte(i) != PowByte(k - 1) {
        BytesDiffer(i, k - 1);
      }
    }
  }

  /** Every non-zero byte is a power of x. */
  lemma EveryByteIsPower(y: byte)
    requires y != 0
    ensures exists i :: 0 <= i < 255 && PowByte(i) == y
  {
    hide PowByte, PowersBelow, Below;
    PowersAreDistinct(255);
    if y !in PowersBelow(255) {
      SubsetSize(PowersBelow(255), Below(256) - {0, y});
    }
  }

  /** The generator without its leading term. */
  const GENERATOR := Poly(false, true, false, false, true, true, false, true)

  /** Doubling a byte as the code does: shift, and subtract the generator 0x14D when it overflows. */
  function Doubled(b: byte): byte {
    var next := b * 2;
    if next >= 256 then ByteAdd(next - 256, 0x14D - 256) else next
  }

  lemma DoubledIsX(p: Poly)
    ensures Doubled(Byte(p)) == Byte(X(p))
  {
    var shifted := Poly(p.c6, p.c5, p.c4, p.c3, p.c2, p.c1, p.c0, false);
    hide Byte, Bits, X, Add;
    ShiftedByte(p, shifted);
    BitsOfByte(shifted);
    BitsOfByte(GENERATOR);
    Reduced(p, shifted);
  }

  lemma ShiftedByte(p: Poly, shifted: Poly)
    requires shifted == Poly(p.c6, p.c5, p.c4, p.c3, p.c2, p.c1, p.c0, false)
    ensures Byte(GENERATOR) == 0x4D && 2 * Byte(p) == Byte(shifted) + Weight(p.c7, 256)
  {
  }

  lemma Reduced(p: Poly, shifted: Poly)
    requires shifted == Poly(p.c6, p.c5, p.c4, p.c3, p.c2, p.c1, p.c0, false)
    ensures X(p) == if p.c7 then Add(shifted, GENERATOR) else shifted
  {
  }

  lemma PowDoubles(n: nat)
    ensures PowByte(n + 1) == Doubled(PowByte(n)) && PowByte(0) == 1
  {
    hide Byte, Doubled, X;
    DoubledIsX(Pow(n));
    BitsOfZero();
  }

  /** Products and quotients are sums and differences of logarithms. */
  lemma LogsAdd(i: nat, j: nat)
    ensures ByteMul(PowByte(i), PowByte(j)) == PowByte(i + j)
    ensures j <= 255 ==> ByteMul(PowByte(i + 255 - j), PowByte(j)) == PowByte(i)
  {
    hide Mul, Pow, Byte, Bits;
    PowAdds(i, j);
    BitsOfByte(Pow(i));
    BitsOfByte(Pow(j));
    if j <= 255 {
      PowAdds(i + 255 - j, j);
      BitsOfByte(Pow(i + 255 - j));
      PowPeriod(i);
    }
  }

  // ----- the tables

  ghost predicate ExpOk(exp: array<byte>)
    reads exp
  {
    exp.Length == 1025 && forall i :: 0 <= i <= 510 ==> exp[i] == PowByte(i)
  }

  ghost predicate LogOk(log: array<nat>)
    reads log
  {
    log.Length == 256 && log[0] == 512 && forall y :: 1 <= y < 256 ==> 1 <= log[y] <= 255 && PowByte(log[y]) == y
  }

  /** The powers of x, and their logarithms from 1 to 255. */
  method ExpLogInit(exp: array<byte>, log: array<nat>)
    requires exp.Length == 1025 && log.Length == 256
    modifies exp, log
    ensures ExpOk(exp) && LogOk(log)
  {
    hide PowByte;
    PowDoubles(0);
    log[0] := 512;
    exp[0] := 1;
    for j := 1 to 255
      invariant log[0] == 512 && forall i :: 0 <= i < j ==> exp[i] == PowByte(i)
      invariant forall i :: 0 < i < j ==> log[PowByte(i)] == i
    {
      PowDoubles(j - 1);
      BytesDiffer(j, j + 1);
      forall i | 0 < i < j ensures PowByte(i) != PowByte(j) {
        BytesDiffer(i, j);
      }
      exp[j] := Doubled(exp[j - 1]);
      log[exp[j]] := j;
    }
    PowPeriod(0);
    forall i | 0 < i < 255 ensures PowByte(i) != PowByte(0) {
      BytesDiffer(0, i);
    }
    exp[255] := exp[0];
    log[exp[255]] := 255;
    AllLogged(log);
    for j := 256 to 510
      invariant LogOk(log)
      invariant forall i :: 0 <= i < j ==> exp[i] == PowByte(i)
    {
      PowPeriod(j - 255);
      exp[j] := exp[j % 255];
    }
    PowPeriod(255);
    exp[510] := 1;
    for j := 511 to 1020
      invariant LogOk(log)
      invariant forall i :: 0 <= i <= 510 ==> exp[i] == PowByte(i)
    {
      exp[j] := 0;
    }
  }

  lemma AllLogged(log: array<nat>)
    requires log.Length == 256 && log[0] == 512 && log[1] == 255 && PowByte(255) == 1
    requires PowByte(0) == 1 && forall i :: 0 < i < 255 ==> log[PowByte(i)] == i
    ensures LogOk(log)
  {
    hide PowByte;
    forall y | 1 <= y < 256 ensures 1 <= log[y] <= 255 && PowByte(log[y]) == y {
      EveryByteIsPower(y);
      var i :| 0 <= i < 255 && PowByte(i) == y;
    }
  }

  function ByteDiv(x: byte, y: byte): byte { BytesField().Div(x, y) }

  /** Where a table of pairs keeps the entry of x and y. */
  function At(y: nat, x: nat): nat { 256 * y + x }

  /** The entries before that of x and y. */
  ghost predicate Filled(m: array<byte>, d: array<byte>, y: nat, x: nat)
    requires m.Length == d.Length == 65536 && y <= 256
    reads m, d
  {
    forall b: byte, a: byte :: b < y || (b == y && a < x) ==>
        m[At(b, a)] == ByteMul(a, b) && d[At(b, a)] == ByteDiv(a, b)
  }

  /** The tables that multiply and divide. */
  ghost predicate MulDivOk(m: array<byte>, d: array<byte>)
    reads m, d
  {
    m.Length == d.Length == 65536 && Filled(m, d, 256, 0)
  }

  lemma ZeroTimes(x: byte)
    ensures ByteMul(x, 0) == 0 && ByteMul(0, x) == 0 && ByteDiv(x, 0) == 0 && ByteDiv(0, x) == 0
  {
    hide Mul, Byte, Bits, IsField, Inv;
    BytesAreAField();
    Fields.MulZero(BytesField(), x);
    Fields.MulZero(BytesField(), ByteInv(x));
    InverseOfZero();
  }

  lemma InverseOfZero()
    ensures ByteInv(0) == 0
  {
    hide Mul, Byte, Bits;
    BitsOfZero();
    Gf256.MulZero(SubfieldInverse(Mul(ZERO, Conjugate(ZERO))));
    MulCommutes(ZERO, SubfieldInverse(Mul(ZERO, Conjugate(ZERO))));
    assert Conjugate(ZERO) == ZERO;
  }

  /** The entries of two powers of x. */
  lemma EntryByLogs(x: byte, y: byte, i: nat, j: nat)
    requires x == PowByte(i) && y == PowByte(j) && j <= 255 && y != 0
    ensures PowByte(i + j) == ByteMul(x, y) && PowByte(i + 255 - j) == ByteDiv(x, y)
  {
    hide PowByte, IsField, ByteMul;
    BytesAreAField();
    LogsAdd(i, j);
    Quotient(PowByte(i + 255 - j), x, y);
  }

  lemma Quotient(q: byte, x: byte, y: byte)
    requires y != 0 && ByteMul(q, y) == x
    ensures q == ByteDiv(x, y)
  {
    hide IsField, ByteMul, ByteInv;
    BytesAreAField();
    var F := BytesField();
    MulAssoc(F, q, y, F.inv(y));
    assert InvLaw(F, y) by { BytesInv(y); }
    MulOne(F, q);
  }

  /** Sets one entry of both tables. */
  method SetEntry(m: array<byte>, d: array<byte>, y: byte, x: byte, product: byte, quotient: byte)
    requires m.Length == d.Length == 65536 && m != d && Filled(m, d, y, x)
    requires product == ByteMul(x, y) && quotient == ByteDiv(x, y)
    modifies m, d
    ensures Filled(m, d, y, x + 1)
    ensures forall i :: 0 <= i < 65536 && i != At(y, x) ==> m[i] == old(m[i]) && d[i] == old(d[i])
  {
    hide ByteMul, ByteDiv;
    m[At(y, x)] := product;
    d[At(y, x)] := quotient;
  }

  /** Fills both tables from the logarithms. */
  method MulDivInit(exp: array<byte>, log: array<nat>, m: array<byte>, d: array<byte>)
    requires ExpOk(exp) && LogOk(log) && m.Length == d.Length == 65536 && m != d && m != exp && d != exp
    modifies m, d
    ensures MulDivOk(m, d)
  {
    hide PowByte, ByteMul, ByteDiv;
    for x := 0 to 256
      invariant Filled(m, d, 0, x)
    {
      ZeroTimes(x);
      SetEntry(m, d, 0, x, 0, 0);
    }
    for y := 1 to 256
      invariant Filled(m, d, y, 0) && ExpOk(exp) && LogOk(log)
    {
      var logY := log[y] % 256;
      var logN := 255 - logY;
      ZeroTimes(y);
      SetEntry(m, d, y, 0, 0, 0);
      for x := 1 to 256
        invariant Filled(m, d, y, x) && ExpOk(exp) && LogOk(log)
      {
        var logX := log[x];
        EntryByLogs(x, y, logX, logY);
        SetEntry(m, d, y, x, exp[logX + logY], exp[logX + logN]);
      }
    }
  }

  /** Inverses and squares, read off the tables. */
  method InvSqrInit(m: array<byte>, d: array<byte>, inv: array<byte>, sqr: array<byte>)
    requires MulDivOk(m, d) && inv.Length == sqr.Length == 256
    requires inv != m && inv != d && sqr != m && sqr != d && inv != sqr
    modifies inv, sqr
    ensures MulDivOk(m, d)
    ensures forall x: byte :: inv[x] == BytesField().inv(x) && sqr[x] == BytesField().mul(x, x)
  {
    hide ByteMul, ByteInv;
    for x := 0 to 256
      invariant MulDivOk(m, d) && forall a: byte :: a < x ==> inv[a] == ByteInv(a)
    {
      OneOver(x);
      inv[x] := d[At(x, 1)];
    }
    for x := 0 to 256
      invariant MulDivOk(m, d) && forall a: byte :: inv[a] == ByteInv(a) && (a < x ==> sqr[a] == ByteMul(a, a))
    {
      sqr[x] := m[At(x, x)];
    }
  }

  lemma OneOver(x: byte)
    ensures ByteDiv(1, x) == ByteInv(x)
  {
    hide ByteMul, ByteInv, IsField;
    BytesAreAField();
    var F := BytesField();
    MulOne(F, F.inv(x));
    MulComm(F, F.inv(x), 1);
  }
}
