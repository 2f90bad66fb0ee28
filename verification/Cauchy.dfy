/** Short codes: parity rows and rows of a Cauchy matrix, of which as many as there are losses always
    suffice. */
module Cauchy {
  import opened Fields
  import opened LinearAlgebra
  import opened Factorization
  import opened Columns
  import opened Recovery
  import opened Rows
  import opened RecoveryLists
  import opened Decoding

  // ----- the inverse of a sum

  lemma NonzeroSum<T(!new)>(F: Field<T>, x: T, y: T)
    requires IsField(F) && x != y
    ensures F.add(x, y) != F.zero
  {
    AddCancel(F, x, y);
    AddZero(F, y);
  }

  lemma ProductZero<T(!new)>(F: Field<T>, x: T, y: T)
    requires IsField(F) && F.mul(x, y) == F.zero && x != F.zero
    ensures y == F.zero
  {
    InvMul(F, y, x);
    MulZero(F, F.inv(x));
  }

  /** The element of a point X and a point Y. */
  function Element<T>(F: Field<T>, x: T, y: T): T { F.inv(F.add(x, y)) }

  lemma ElementInverts<T(!new)>(F: Field<T>, x: T, y: T)
    requires IsField(F) && x != y
    ensures F.mul(Element(F, x, y), F.add(x, y)) == F.one && Element(F, x, y) != F.zero
  {
    NonzeroSum(F, x, y);
    assert InvLaw(F, F.add(x, y));
    MulComm(F, Element(F, x, y), F.add(x, y));
    MulZero(F, F.add(x, y));
  }

  // ----- sums over the first n columns

  /** v[0] / (x + ys[0]) + ... + v[n-1] / (x + ys[n-1]) */
  function Row<T>(F: Field<T>, x: T, ys: seq<T>, v: seq<T>, n: nat): T
    requires n <= |ys| && n <= |v|
  {
    if n == 0 then F.zero else F.add(Row(F, x, ys, v, n - 1), F.mul(v[n - 1], Element(F, x, ys[n - 1])))
  }

  /** v[0] + ... + v[n-1] */
  function Total<T>(F: Field<T>, v: seq<T>, n: nat): T
    requires n <= |v|
  {
    if n == 0 then F.zero else F.add(Total(F, v, n - 1), v[n - 1])
  }

  ghost predicate Distinct<T>(xs: seq<T>) {
    forall i, j :: 0 <= i < j < |xs| ==> xs[i] != xs[j]
  }

  ghost predicate Apart<T>(xs: seq<T>, ys: seq<T>) {
    forall i, j :: 0 <= i < |xs| && 0 <= j < |ys| ==> xs[i] != ys[j]
  }

  ghost predicate AllZero<T>(F: Field<T>, v: seq<T>, n: nat) {
    forall j :: 0 <= j < n && j < |v| ==> v[j] == F.zero
  }

  /** Clearing the denominator of the last column. */
  function Cleared<T>(F: Field<T>, ys: seq<T>, v: seq<T>, y: T): (z: seq<T>)
    requires |v| == |ys|
    ensures |z| == |v| && forall j :: 0 <= j < |v| ==> z[j] == F.mul(v[j], F.add(ys[j], y))
  {
    seq(|v|, j requires 0 <= j < |v| == |ys| => F.mul(v[j], F.add(ys[j], y)))
  }

  /** v / (x + yj) * (x + y) == v + v * (yj + y) / (x + yj) */
  lemma ClearOne<T(!new)>(F: Field<T>, x: T, yj: T, y: T, v: T)
    requires IsField(F) && x != yj
    ensures F.mul(F.mul(v, Element(F, x, yj)), F.add(x, y)) ==
              F.add(v, F.mul(F.mul(v, F.add(yj, y)), Element(F, x, yj)))
  {
    var e := Element(F, x, yj);
    ElementInverts(F, x, yj);
    AddCancel(F, x, yj);
    AddAssoc(F, F.add(x, yj), yj, y);
    assert F.add(x, y) == F.add(F.add(x, yj), F.add(yj, y));
    Distribute(F, e, F.add(x, yj), F.add(yj, y));
    MulAssoc(F, v, e, F.add(x, y));
    Distribute(F, v, F.one, F.mul(e, F.add(yj, y)));
    MulOne(F, v);
    MulAssoc(F, v, e, F.add(yj, y));
    MulComm(F, e, F.add(yj, y));
    MulAssoc(F, v, F.add(yj, y), e);
  }

  /** Clearing the denominator of column y in a whole row. */
  lemma {:induction false} ClearRow<T(!new)>(F: Field<T>, x: T, ys: seq<T>, v: seq<T>, y: T, n: nat)
    requires IsField(F) && n <= |ys| == |v| && x !in ys
    ensures F.mul(Row(F, x, ys, v, n), F.add(x, y)) == F.add(Total(F, v, n), Row(F, x, ys, Cleared(F, ys, v, y), n))
  {
    hide IsField;
    var z, f := Cleared(F, ys, v, y), F.add(x, y);
    if n == 0 {
      MulZero(F, f);
      AddZero(F, F.zero);
    } else {
      var e := Element(F, x, ys[n - 1]);
      ClearRow(F, x, ys, v, y, n - 1);
      ClearOne(F, x, ys[n - 1], y, v[n - 1]);
      Distribute(F, f, Row(F, x, ys, v, n - 1), F.mul(v[n - 1], e));
      AddExchange(F, Total(F, v, n - 1), Row(F, x, ys, z, n - 1), v[n - 1], F.mul(z[n - 1], e));
    }
  }

  /** The column that was cleared is gone. */
  lemma LastGone<T(!new)>(F: Field<T>, x: T, ys: seq<T>, v: seq<T>, n: nat)
    requires IsField(F) && 0 < n <= |ys| == |v|
    ensures var z := Cleared(F, ys, v, ys[n - 1]); Row(F, x, ys, z, n) == Row(F, x, ys, z, n - 1)
  {
    var z := Cleared(F, ys, v, ys[n - 1]);
    AddSelf(F, ys[n - 1]);
    MulZero(F, v[n - 1]);
    MulZero(F, Element(F, x, ys[n - 1]));
    AddZero(F, Row(F, x, ys, z, n - 1));
  }

  lemma {:induction false} ZeroRow<T(!new)>(F: Field<T>, x: T, ys: seq<T>, v: seq<T>, n: nat)
    requires IsField(F) && n <= |ys| && n <= |v| && AllZero(F, v, n)
    ensures Row(F, x, ys, v, n) == F.zero && Total(F, v, n) == F.zero
  {
    if n > 0 {
      ZeroRow(F, x, ys, v, n - 1);
      MulZero(F, Element(F, x, ys[n - 1]));
      AddZero(F, F.zero);
    }
  }

  /** What is left of v when the last column has been cleared and the rest is zero. */
  lemma OnlyLast<T(!new)>(F: Field<T>, ys: seq<T>, v: seq<T>, n: nat)
    requires IsField(F) && 0 < n <= |ys| == |v| && Distinct(ys) && AllZero(F, Cleared(F, ys, v, ys[n - 1]), n - 1)
    ensures AllZero(F, v, n - 1) && Total(F, v, n) == v[n - 1]
  {
    hide IsField;
    var y, z := ys[n - 1], Cleared(F, ys, v, ys[n - 1]);
    forall j | 0 <= j < n - 1 ensures v[j] == F.zero {
      assert z[j] == F.zero;
      NonzeroSum(F, ys[j], y);
      MulComm(F, v[j], F.add(ys[j], y));
      ProductZero(F, F.add(ys[j], y), v[j]);
    }
    ZeroRow(F, y, ys, v, n - 1);
    AddZero(F, v[n - 1]);
  }

  /** Dividing every entry by its distance from a point. */
  function Divided<T>(F: Field<T>, x: T, ys: seq<T>, v: seq<T>): (w: seq<T>)
    requires |v| == |ys|
    ensures |w| == |v| && forall j :: 0 <= j < |v| ==> w[j] == F.mul(v[j], Element(F, x, ys[j]))
  {
    seq(|v|, j requires 0 <= j < |v| == |ys| => F.mul(v[j], Element(F, x, ys[j])))
  }

  /** 1 / (x + y) + 1 / (x' + y) == (x + x') / ((x + y) (x' + y)) */
  lemma DifferenceOne<T(!new)>(F: Field<T>, x: T, x': T, y: T, v: T)
    requires IsField(F) && x != y && x' != y
    ensures F.add(F.mul(v, Element(F, x, y)), F.mul(v, Element(F, x', y))) ==
              F.mul(F.mul(F.mul(v, Element(F, x', y)), Element(F, x, y)), F.add(x, x'))
  {
    hide IsField;
    var w, e := F.mul(v, Element(F, x', y)), Element(F, x, y);
    ClearOne(F, x, y, x', w);
    AddComm(F, y, x');
    MulAssoc(F, v, Element(F, x', y), F.add(x', y));
    ElementInverts(F, x', y);
    MulOne(F, v);
    AddComm(F, w, F.mul(v, e));
  }

  lemma {:induction false} DifferenceRow<T(!new)>(F: Field<T>, x: T, x': T, ys: seq<T>, v: seq<T>, n: nat)
    requires IsField(F) && n <= |ys| == |v| && x !in ys && x' !in ys
    ensures F.add(Row(F, x, ys, v, n), Row(F, x', ys, v, n)) ==
              F.mul(Row(F, x, ys, Divided(F, x', ys, v), n), F.add(x, x'))
  {
    hide IsField;
    var w, f := Divided(F, x', ys, v), F.add(x, x');
    if n == 0 {
      MulZero(F, f);
      AddZero(F, F.zero);
    } else {
      var e, e' := Element(F, x, ys[n - 1]), Element(F, x', ys[n - 1]);
      DifferenceRow(F, x, x', ys, v, n - 1);
      DifferenceOne(F, x, x', ys[n - 1], v[n - 1]);
      AddExchange(F, Row(F, x, ys, v, n - 1), F.mul(v[n - 1], e), Row(F, x', ys, v, n - 1), F.mul(v[n - 1], e'));
      Distribute(F, f, Row(F, x, ys, w, n - 1), F.mul(w[n - 1], e));
    }
  }

  // ----- the matrix

  /** n Cauchy rows determine n unknowns. */
  lemma {:induction false} CauchyRows<T(!new)>(F: Field<T>, xs: seq<T>, ys: seq<T>, v: seq<T>, n: nat)
    requires IsField(F) && |xs| == n <= |ys| == |v| && Distinct(xs) && Distinct(ys) && Apart(xs, ys)
    requires forall i :: 0 <= i < n ==> Row(F, xs[i], ys, v, n) == F.zero
    ensures AllZero(F, v, n)
    decreases n, 0
  {
    hide IsField;
    if n > 0 {
      var z, c := Cleared(F, ys, v, ys[n - 1]), Total(F, v, n);
      forall i | 0 <= i < n ensures Row(F, xs[i], ys, z, n - 1) == c {
        ClearRow(F, xs[i], ys, v, ys[n - 1], n);
        LastGone(F, xs[i], ys, v, n);
        MulZero(F, F.add(xs[i], ys[n - 1]));
        SumIsZero(F, c, Row(F, xs[i], ys, z, n - 1));
      }
      EqualRows(F, xs, ys, z, n - 1, c);
      OnlyLast(F, ys, v, n);
    }
  }

  lemma SumIsZero<T(!new)>(F: Field<T>, x: T, y: T)
    requires IsField(F) && F.add(x, y) == F.zero
    ensures x == y
  {
    AddCancel(F, x, y);
    AddZero(F, y);
  }

  /** One more Cauchy row determines also a value that all rows share. */
  lemma {:induction false} EqualRows<T(!new)>(F: Field<T>, xs: seq<T>, ys: seq<T>, v: seq<T>, n: nat, c: T)
    requires IsField(F) && |xs| == n + 1 && n <= |ys| == |v| && Distinct(xs) && Distinct(ys) && Apart(xs, ys)
    requires forall i :: 0 <= i < n + 1 ==> Row(F, xs[i], ys, v, n) == c
    ensures AllZero(F, v, n) && c == F.zero
    decreases n, 1
  {
    hide IsField;
    var x' := xs[n];
    var w := Divided(F, x', ys, v);
    forall i | 0 <= i < n ensures Row(F, xs[i], ys, w, n) == F.zero {
      DifferenceRow(F, xs[i], x', ys, v, n);
      AddSelf(F, c);
      NonzeroSum(F, xs[i], x');
      MulComm(F, Row(F, xs[i], ys, w, n), F.add(xs[i], x'));
      ProductZero(F, F.add(xs[i], x'), Row(F, xs[i], ys, w, n));
    }
    CauchyRows(F, xs[..n], ys, w, n);
    forall j | 0 <= j < n ensures v[j] == F.zero {
      assert w[j] == F.zero;
      ElementInverts(F, x', ys[j]);
      MulComm(F, v[j], Element(F, x', ys[j]));
      ProductZero(F, Element(F, x', ys[j]), v[j]);
    }
    ZeroRow(F, x', ys, v, n);
  }

  /** A parity row and n - 1 Cauchy rows determine n unknowns. */
  lemma ParityAndCauchyRows<T(!new)>(F: Field<T>, xs: seq<T>, ys: seq<T>, v: seq<T>, n: nat)
    requires IsField(F) && |xs| + 1 == n <= |ys| == |v| && Distinct(xs) && Distinct(ys) && Apart(xs, ys)
    requires Total(F, v, n) == F.zero && forall i :: 0 <= i < n - 1 ==> Row(F, xs[i], ys, v, n) == F.zero
    ensures AllZero(F, v, n)
  {
    hide IsField;
    var z := Cleared(F, ys, v, ys[n - 1]);
    forall i | 0 <= i < n - 1 ensures Row(F, xs[i], ys, z, n - 1) == F.zero {
      ClearRow(F, xs[i], ys, v, ys[n - 1], n);
      LastGone(F, xs[i], ys, v, n);
      MulZero(F, F.add(xs[i], ys[n - 1]));
      AddZero(F, Row(F, xs[i], ys, z, n - 1));
    }
    CauchyRows(F, xs, ys, z, n - 1);
    OnlyLast(F, ys, v, n);
  }

  // ----- parity and Cauchy rows of the code

  /** The bytes stand for different points. */
  ghost predicate Points<T>(code: Code<T>) {
    forall i, j :: 0 <= i < j < 256 ==> code.elem(i) != code.elem(j)
  }

  /** A coefficient is the inverse of the sum of a row point and a column point. */
  lemma CoefficientInverts<T(!new)>(code: Code<T>, row: nat, column: nat)
    requires IsField(code.F) && Points(code) && row < CAUCHY_MAX_ROWS && column < CAUCHY_MAX_COLUMNS
    ensures code.F.mul(CauchyElement(code, row, column), code.F.add(code.elem(row + 64), code.elem(column)))
            == code.F.one
  {
    ElementInverts(code.F, code.elem(row + 64), code.elem(column));
  }

  /** The coefficients of a row differ from column to column. */
  lemma CoefficientsDiffer<T(!new)>(code: Code<T>, row: nat, a: nat, b: nat)
    requires IsField(code.F) && Points(code) && row < CAUCHY_MAX_ROWS && a < b < CAUCHY_MAX_COLUMNS
    ensures CauchyElement(code, row, a) != CauchyElement(code, row, b)
  {
    var F, x, e := code.F, code.elem(row + 64), CauchyElement(code, row, a);
    if e == CauchyElement(code, row, b) {
      CoefficientInverts(code, row, a);
      CoefficientInverts(code, row, b);
      ElementInverts(F, x, code.elem(a));
      InvMul(F, F.add(x, code.elem(a)), e);
      InvMul(F, F.add(x, code.elem(b)), e);
      AddComm(F, x, code.elem(a));
      AddComm(F, x, code.elem(b));
      AddCancel(F, code.elem(a), x);
      AddCancel(F, code.elem(b), x);
    }
  }

  /** A parity or Cauchy packet that covers all of some lost packets. */
  ghost predicate Reaches<T>(rec: RecoveryPacket<T>, lost: seq<nat>) {
    && MetadataOk(rec.meta, rec.end) && rec.meta.sumCount <= CAUCHY_THRESHOLD && rec.meta.row <= CAUCHY_MAX_ROWS
    && forall j :: 0 <= j < |lost| ==> rec.end - rec.meta.sumCount <= lost[j] < rec.end
  }

  function RowPoint<T>(code: Code<T>, rec: RecoveryPacket<T>): T {
    code.elem(rec.meta.row - 1 + CAUCHY_MAX_COLUMNS)
  }

  function RowPoints<T>(code: Code<T>, recs: seq<RecoveryPacket<T>>): (xs: seq<T>)
    requires forall i :: 0 <= i < |recs| ==> recs[i].meta.row > 0
    ensures |xs| == |recs| && forall i :: 0 <= i < |xs| ==> xs[i] == RowPoint(code, recs[i])
  {
    seq(|recs|, i requires 0 <= i < |recs| => RowPoint(code, recs[i]))
  }

  function ColumnPoints<T>(code: Code<T>, lost: seq<nat>): (ys: seq<T>)
    ensures |ys| == |lost| && forall j :: 0 <= j < |ys| ==> ys[j] == code.elem(lost[j] % CAUCHY_MAX_COLUMNS)
  {
    seq(|lost|, j requires 0 <= j < |lost| => code.elem(lost[j] % CAUCHY_MAX_COLUMNS))
  }

  /** What the matrix row of a packet makes of unknowns. */
  lemma {:induction false} DotOfShort<T(!new)>(code: Code<T>, rec: RecoveryPacket<T>, lost: seq<nat>, v: seq<T>, n: nat)
    requires IsField(code.F) && Reaches(rec, lost) && n <= |lost| == |v|
    ensures var dot := Dot(code.F, RowOf(code, rec.meta, rec.end, lost), v, 0, n);
            dot == if rec.meta.row == 0 then Total(code.F, v, n)
                   else Row(code.F, RowPoint(code, rec), ColumnPoints(code, lost), v, n)
  {
    hide IsField, Coefficient;
    HasLight(rec, lost);
    if n > 0 {
      DotOfShort(code, rec, lost, v, n - 1);
      EntryOfShort(code, rec, lost, n - 1);
      var entry := Rows.Entry(code, rec.meta, rec.end, lost[n - 1]);
      MulOne(code.F, v[n - 1]);
      MulComm(code.F, v[n - 1], entry);
    }
  }

  lemma EntryOfShort<T(!new)>(code: Code<T>, rec: RecoveryPacket<T>, lost: seq<nat>, j: nat)
    requires Reaches(rec, lost) && j < |lost|
    ensures rec.meta.ldpcCount > 0
    ensures Rows.Entry(code, rec.meta, rec.end, lost[j]) ==
              if rec.meta.row == 0 then code.F.one
              else Element(code.F, RowPoint(code, rec), code.elem(lost[j] % CAUCHY_MAX_COLUMNS))
  {
    hide Wrap;
    WrapLane(lost[j]);
  }

  /** Two Cauchy packets with different rows. */
  predicate CauchyPair<T>(a: RecoveryPacket<T>, b: RecoveryPacket<T>) {
    a.meta.row > 0 && b.meta.row > 0 && a.meta.row != b.meta.row
  }

  lemma PointsDiffer<T>(code: Code<T>, recs: seq<RecoveryPacket<T>>, lost: seq<nat>)
    requires Points(code) && Distinct(lost) && recs != [] && (forall i :: 0 <= i < |recs| ==> Reaches(recs[i], lost))
    ensures Distinct(ColumnPoints(code, lost))
    ensures forall i, j :: 0 <= i < |recs| && 0 <= j < |lost| && recs[i].meta.row > 0 ==>
              RowPoint(code, recs[i]) != ColumnPoints(code, lost)[j]
    ensures forall i, j :: 0 <= i < j < |recs| && CauchyPair(recs[i], recs[j]) ==>
              RowPoint(code, recs[i]) != RowPoint(code, recs[j])
  {
    hide Wrap;
    forall i, j | 0 <= i < j < |lost| ensures ColumnPoints(code, lost)[i] != ColumnPoints(code, lost)[j] {
      assert Reaches(recs[0], lost) && lost[i] != lost[j];
      NearDiffer(lost[i], lost[j]);
    }
    forall i, j | 0 <= i < j < |recs| && CauchyPair(recs[i], recs[j])
      ensures RowPoint(code, recs[i]) != RowPoint(code, recs[j])
    {
      assert Reaches(recs[i], lost) && Reaches(recs[j], lost);
    }
    forall i, j | 0 <= i < |recs| && 0 <= j < |lost| && recs[i].meta.row > 0
      ensures RowPoint(code, recs[i]) != ColumnPoints(code, lost)[j]
    {
      assert Reaches(recs[i], lost);
    }
  }

  lemma NearDiffer(a: nat, b: nat)
    requires a != b && a < b + CAUCHY_MAX_COLUMNS && b < a + CAUCHY_MAX_COLUMNS
    ensures a % CAUCHY_MAX_COLUMNS != b % CAUCHY_MAX_COLUMNS
  {
  }

  /** As many parity and Cauchy packets as there are losses determine them, whichever they are: all that is
      asked is that every packet covers all the lost ones and that no row is there twice. */
  lemma ShortRowsSuffice<T(!new)>(code: Code<T>, recs: seq<RecoveryPacket<T>>, lost: seq<nat>)
    requires IsField(code.F) && Points(code) && Distinct(lost) && |recs| == |lost|
    requires forall i :: 0 <= i < |recs| ==> Reaches(recs[i], lost)
    requires forall i, j :: 0 <= i < j < |recs| ==> recs[i].meta.row != recs[j].meta.row
    ensures Determined(code, recs, lost)
  {
    hide IsField, Reaches, Points, Vanishes;
    var gen := seq(|recs|, i requires 0 <= i < |recs| => RowOfShort(code, recs[i], lost));
    forall i | 0 <= i < |recs| ensures recs[i].meta.ldpcCount > 0 {
      HasLight(recs[i], lost);
    }
    GeneratedIsUnique(code, recs, lost, gen);
    forall v: seq<T> | |v| == |lost| && InKernel(code.F, gen, v)
      ensures forall j :: 0 <= j < |lost| ==> v[j] == code.F.zero
    {
      forall i | 0 <= i < |recs|
        ensures Dot(code.F, RowOf(code, recs[i].meta, recs[i].end, lost), v, 0, |v|) == code.F.zero
      {
        assert Dot(code.F, gen[i], v, 0, |v|) == code.F.zero;
      }
      KernelVanishes(code, recs, lost, v);
      if lost != [] {
        KernelIsZero(code, recs, lost, v);
      }
    }
  }

  lemma HasLight<T>(rec: RecoveryPacket<T>, lost: seq<nat>)
    requires Reaches(rec, lost)
    ensures rec.meta.ldpcCount > 0
  {
  }

  function RowOfShort<T>(code: Code<T>, rec: RecoveryPacket<T>, lost: seq<nat>): seq<T> {
    if rec.meta.ldpcCount > 0 then RowOf(code, rec.meta, rec.end, lost) else []
  }

  /** What every packet makes of v is zero. */
  ghost predicate Vanishes<T>(code: Code<T>, recs: seq<RecoveryPacket<T>>, lost: seq<nat>, v: seq<T>) {
    |v| == |lost| && forall i :: 0 <= i < |recs| ==>
      if recs[i].meta.row == 0 then Total(code.F, v, |v|) == code.F.zero
      else Row(code.F, RowPoint(code, recs[i]), ColumnPoints(code, lost), v, |v|) == code.F.zero
  }

  lemma KernelVanishes<T(!new)>(code: Code<T>, recs: seq<RecoveryPacket<T>>, lost: seq<nat>, v: seq<T>)
    requires IsField(code.F) && |lost| == |v|
    requires forall i :: 0 <= i < |recs| ==> Reaches(recs[i], lost) && recs[i].meta.ldpcCount > 0
    requires forall i :: 0 <= i < |recs| ==>
               Dot(code.F, RowOf(code, recs[i].meta, recs[i].end, lost), v, 0, |v|) == code.F.zero
    ensures Vanishes(code, recs, lost, v)
  {
    hide IsField, Reaches, Row, Total, Dot;
    forall i | 0 <= i < |recs|
      ensures if recs[i].meta.row == 0 then Total(code.F, v, |v|) == code.F.zero
              else Row(code.F, RowPoint(code, recs[i]), ColumnPoints(code, lost), v, |v|) == code.F.zero
    {
      DotOfShort(code, recs[i], lost, v, |v|);
    }
  }

  lemma KernelIsZero<T(!new)>(code: Code<T>, recs: seq<RecoveryPacket<T>>, lost: seq<nat>, v: seq<T>)
    requires IsField(code.F) && Points(code) && Distinct(lost) && |recs| == |lost| == |v| > 0
    requires Vanishes(code, recs, lost, v) && forall i :: 0 <= i < |recs| ==> Reaches(recs[i], lost)
    requires forall i, j :: 0 <= i < j < |recs| ==> recs[i].meta.row != recs[j].meta.row
    ensures AllZero(code.F, v, |v|)
  {
    hide IsField, Reaches, Points, Row, Total, AllZero, RowPoint;
    PointsDiffer(code, recs, lost);
    if p :| 0 <= p < |recs| && recs[p].meta.row == 0 {
      WithParity(code, recs, lost, v, p);
    } else {
      CauchyRows(code.F, RowPoints(code, recs), ColumnPoints(code, lost), v, |v|);
    }
  }

  lemma WithParity<T(!new)>(code: Code<T>, recs: seq<RecoveryPacket<T>>, lost: seq<nat>, v: seq<T>, p: nat)
    requires IsField(code.F) && Points(code) && Distinct(lost) && |recs| == |lost| == |v|
    requires Vanishes(code, recs, lost, v) && forall i :: 0 <= i < |recs| ==> Reaches(recs[i], lost)
    requires forall i, j :: 0 <= i < j < |recs| ==> recs[i].meta.row != recs[j].meta.row
    requires p < |recs| && recs[p].meta.row == 0
    ensures AllZero(code.F, v, |v|)
  {
    hide IsField, Reaches, Points, Row, Total, AllZero, RowPoint;
    PointsDiffer(code, recs, lost);
    var rest := recs[..p] + recs[p + 1..];
    assert forall i :: 0 <= i < |rest| ==> rest[i] == recs[if i < p then i else i + 1] && rest[i].meta.row > 0;
    var xs := RowPoints(code, rest);
    assert Distinct(xs);
    assert Apart(xs, ColumnPoints(code, lost));
    ParityAndCauchyRows(code.F, xs, ColumnPoints(code, lost), v, |v|);
  }
}
