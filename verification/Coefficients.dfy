/** What the coefficients of a sum row are: operation codes, column powers and draws spelled out. */
module Coefficients {
  import opened Numbers
  import opened Fields
  import opened Columns
  import opened Recovery

  /** Columns closer than 253 to each other have different values. */
  lemma ColumnValuesDiffer(a: nat, b: nat)
    requires a < b < a + 253
    ensures GetColumnValue(a) != GetColumnValue(b)
  {
    var qa, qb, r := a * 199 / 253, b * 199 / 253, a * 199 % 253;
    if GetColumnValue(a) == GetColumnValue(b) {
      MultipleOf253(b - a, qb - qa);
    }
  }

  /** 199 has an inverse modulo 253. */
  lemma MultipleOf253(d: int, q: int)
    requires 199 * d == 253 * q
    ensures d <= 0 || d >= 253
  {
    assert d == 253 * (89 * q - 70 * d);
  }

  /** Rows closer than 255 to each other have different values. */
  lemma RowValuesDiffer(a: nat, b: nat)
    requires a < b < a + 255
    ensures GetRowValue(a) != GetRowValue(b)
  {
  }

  function Shifted(x: nat, k: nat): nat { if k == 0 then x else Shifted(x, k - 1) / 2 }

  lemma {:induction false} ShiftedIs(x: nat, k: nat)
    ensures Shifted(x, k) == x / Pow2(k)
  {
    if k > 0 {
      ShiftedIs(x, k - 1);
      HalfQuotient(x, Pow2(k - 1), Shifted(x, k - 1));
    }
  }

  lemma HalfQuotient(x: nat, p: nat, y: nat)
    requires p > 0 && y == x / p
    ensures x / (2 * p) == y / 2
  {
    var r, h, b := x % p, y / 2, y % 2;
    Rest(x, p, y, r);
    assert y * p == h * (2 * p) + b * p;
    Quotient(x, 2 * p, h, b * p + r);
  }

  lemma Rest(x: nat, p: nat, y: nat, r: nat)
    requires p > 0 && y == x / p && r == x % p
    ensures x == y * p + r
  {
  }

  lemma HalfBit(x: nat, k: nat)
    ensures Shifted(x, k) == 2 * Shifted(x, k + 1) + if Bit(x, k) then 1 else 0
    ensures Shifted(x, 0) == x
  {
    ShiftedIs(x, k);
  }

  lemma Quotient(x: nat, d: nat, q: nat, r: nat)
    requires x == q * d + r && r < d
    ensures x / d == q
  {
    assert x == x / d * d + x % d;
    assert (x / d - q) * d == r - x % d;
    LargeMultiple(x / d - q, d);
  }

  /** A 6-bit number is the sum of its bits. */
  lemma BitsAddUp(opcode: nat)
    requires opcode < 64
    ensures opcode == (if Bit(opcode, 0) then 1 else 0) + (if Bit(opcode, 1) then 2 else 0)
                      + (if Bit(opcode, 2) then 4 else 0) + (if Bit(opcode, 3) then 8 else 0)
                      + (if Bit(opcode, 4) then 16 else 0) + (if Bit(opcode, 5) then 32 else 0)
  {
    hide Shifted, Bit;
    HalfBit(opcode, 0);
    HalfBit(opcode, 1);
    HalfBit(opcode, 2);
    HalfBit(opcode, 3);
    HalfBit(opcode, 4);
    HalfBit(opcode, 5);
  }

  /** One draw in 16 elements, rounded up. */
  lemma PairsPerElement(ldpcCount: nat)
    ensures 16 * (PairCount(ldpcCount) - 1) < ldpcCount <= 16 * PairCount(ldpcCount)
  {
  }

  /** How many of the first n draws hit an element. */
  function HitCount<T>(code: Code<T>, row: nat, ldpcCount: nat, n: nat, which: nat, element: int): nat
    requires ldpcCount > 0
  {
    |set i: nat | i < n && IsHit(code, row, ldpcCount, which, element, i)|
  }

  predicate IsHit<T>(code: Code<T>, row: nat, ldpcCount: nat, which: nat, element: int, i: nat)
    requires ldpcCount > 0
  {
    code.draw(row, ldpcCount, 2 * i + which) % ldpcCount == element
  }

  lemma HitIsDrawn<T>(code: Code<T>, row: nat, ldpcCount: nat, which: nat, element: int, i: nat)
    requires ldpcCount > 0
    ensures IsHit(code, row, ldpcCount, which, element, i) <==> Drawn(code, row, ldpcCount, i, which) == element
  {
  }

  lemma HitCountStep<T>(code: Code<T>, row: nat, ldpcCount: nat, n: nat, which: nat, element: int)
    requires ldpcCount > 0
    ensures n == 0 ==> HitCount(code, row, ldpcCount, n, which, element) == 0
    ensures HitCount(code, row, ldpcCount, n + 1, which, element) == HitCount(code, row, ldpcCount, n, which, element)
              + if Drawn(code, row, ldpcCount, n, which) == element then 1 else 0
  {
    hide IsHit, Drawn;
    var before := set i: nat | i < n && IsHit(code, row, ldpcCount, which, element, i);
    assert forall i :: i in before ==> 0 <= i < n;
    var hits := set i: nat | i < n + 1 && IsHit(code, row, ldpcCount, which, element, i);
    HitIsDrawn(code, row, ldpcCount, which, element, n);
    if IsHit(code, row, ldpcCount, which, element, n) {
      assert hits == before + {n};
    } else {
      assert hits == before;
    }
  }

  /** Hits cancel in pairs: what is left says whether their number is odd. */
  lemma {:induction false} HitsIsParity<T(!new)>(code: Code<T>, row: nat, ldpcCount: nat, n: nat, which: nat,
      element: int)
    requires IsField(code.F) && ldpcCount > 0
    ensures Hits(code, row, ldpcCount, n, which, element) ==
              if HitCount(code, row, ldpcCount, n, which, element) % 2 == 1 then code.F.one else code.F.zero
  {
    hide IsField, Drawn, HitCount;
    HitCountStep(code, row, ldpcCount, if n > 0 then n - 1 else n, which, element);
    if n > 0 {
      HitsIsParity(code, row, ldpcCount, n - 1, which, element);
      AddZero(code.F, code.F.one);
      AddComm(code.F, code.F.one, code.F.zero);
      AddSelf(code.F, code.F.one);
    }
  }

  /** b0 + b1 * x + b2 * x * x */
  function Quadratic<T>(F: Field<T>, b0: bool, b1: bool, b2: bool, x: T): T {
    F.add(F.add(if b0 then F.one else F.zero, if b1 then x else F.zero), if b2 then F.mul(x, x) else F.zero)
  }

  lemma SelectedIsQuadratic<T(!new)>(code: Code<T>, row: nat, column: nat, shift: nat)
    requires IsField(code.F)
    ensures var opcode := code.opcode(column % LANE_COUNT, row);
            Selected(code, row, column, shift, 3) ==
              Quadratic(code.F, Bit(opcode, shift), Bit(opcode, shift + 1), Bit(opcode, shift + 2),
                code.elem(GetColumnValue(column)))
  {
    hide IsField, Bit;
    var F, s0, s1, s2 := code.F, Selected(code, row, column, shift, 0), Selected(code, row, column, shift, 1),
      Selected(code, row, column, shift, 2);
    assert s0 == F.zero && ColumnPower(code, column, 0) == F.one;
    assert s1 == if Bit(code.opcode(column % LANE_COUNT, row), shift + 0) then F.add(F.zero, F.one) else F.zero;
    AddZero(F, F.one);
    AddComm(F, F.zero, F.one);
    AddZero(F, s1);
    AddZero(F, s2);
  }

  /** The coefficient of a sum row, from the six bits of the lane's operation code, the values of row and
      column, and how often the element was drawn. */
  lemma SumCoefficient<T(!new)>(code: Code<T>, meta: Metadata, end: int, c: int)
    requires IsField(code.F) && meta.ldpcCount > 0 && meta.sumCount > CAUCHY_THRESHOLD
    ensures var F, opcode := code.F, code.opcode(Wrap(c) % LANE_COUNT, meta.row);
            var CX := code.elem(GetColumnValue(Wrap(c)));
            var element, n := c - (end - meta.ldpcCount), PairCount(meta.ldpcCount);
            Coefficient(code, meta, end, c) == F.add(
              F.add(Quadratic(F, Bit(opcode, 0), Bit(opcode, 1), Bit(opcode, 2), CX),
                if HitCount(code, meta.row, meta.ldpcCount, n, 0, element) % 2 == 1 then F.one else F.zero),
              F.mul(code.elem(GetRowValue(meta.row)),
                F.add(Quadratic(F, Bit(opcode, 3), Bit(opcode, 4), Bit(opcode, 5), CX),
                  if HitCount(code, meta.row, meta.ldpcCount, n, 1, element) % 2 == 1 then F.one else F.zero)))
  {
    hide IsField, Wrap, Selected, Quadratic, Hits, HitCount;
    var element, n := c - (end - meta.ldpcCount), PairCount(meta.ldpcCount);
    SelectedIsQuadratic(code, meta.row, Wrap(c), 0);
    SelectedIsQuadratic(code, meta.row, Wrap(c), 3);
    HitsIsParity(code, meta.row, meta.ldpcCount, n, 0, element);
    HitsIsParity(code, meta.row, meta.ldpcCount, n, 1, element);
  }
}
