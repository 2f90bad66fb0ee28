/** What a recovery packet contains: the coefficients of the code, and the linear combination
    of the original packets that they describe. */
module Recovery {
  import opened Fields
  import opened Buffers
  import opened Columns

  /** The parts of the code that are fixed tables or hash functions in the program: the field
      element of a byte, the 6-bit operation code of a lane and row, and the k-th number drawn
      by the generator seeded with a row and a count. */
  datatype Code<!T> = Code(F: Field<T>, elem: nat -> T, opcode: (nat, nat) -> nat, draw: (nat, nat, nat) -> nat)

  datatype Metadata = Metadata(row: nat, columnStart: nat, sumCount: nat, ldpcCount: nat)

  function GetColumnValue(column: nat): (v: nat)
    ensures 3 <= v <= 255
  {
    3 + (column * 199) % 253
  }

  function GetRowValue(row: nat): (v: nat)
    ensures 1 <= v <= 255
  {
    1 + (row + 1) % 255
  }

  /** f(lo) + ... + f(hi-1) */
  function Sum<T>(F: Field<T>, f: int -> T, lo: int, hi: int): T
    decreases hi - lo
  {
    if hi <= lo then F.zero else F.add(Sum(F, f, lo, hi - 1), f(hi - 1))
  }

  lemma {:induction false} SumCong<T>(F: Field<T>, f: int -> T, g: int -> T, lo: int, hi: int)
    requires forall c :: lo <= c < hi ==> f(c) == g(c)
    ensures Sum(F, f, lo, hi) == Sum(F, g, lo, hi)
    decreases hi - lo
  {
    if lo < hi {
      SumCong(F, f, g, lo, hi - 1);
    }
  }

  lemma {:induction false} SumAdd<T(!new)>(F: Field<T>, f: int -> T, g: int -> T, h: int -> T, lo: int, hi: int)
    requires IsField(F)
    requires forall c :: lo <= c < hi ==> h(c) == F.add(f(c), g(c))
    ensures Sum(F, h, lo, hi) == F.add(Sum(F, f, lo, hi), Sum(F, g, lo, hi))
    decreases hi - lo
  {
    if hi <= lo {
      AddZero(F, F.zero);
    } else {
      SumAdd(F, f, g, h, lo, hi - 1);
      AddExchange(F, Sum(F, f, lo, hi - 1), Sum(F, g, lo, hi - 1), f(hi - 1), g(hi - 1));
    }
  }

  lemma {:induction false} SumScale<T(!new)>(F: Field<T>, f: int -> T, y: T, h: int -> T, lo: int, hi: int)
    requires IsField(F)
    requires forall c :: lo <= c < hi ==> h(c) == F.mul(y, f(c))
    ensures Sum(F, h, lo, hi) == F.mul(y, Sum(F, f, lo, hi))
    decreases hi - lo
  {
    if hi <= lo {
      MulZero(F, y);
    } else {
      SumScale(F, f, y, h, lo, hi - 1);
      Distribute(F, y, Sum(F, f, lo, hi - 1), f(hi - 1));
    }
  }

  /** Terms that are zero on a range contribute nothing there. */
  lemma {:induction false} SumZeroTail<T(!new)>(F: Field<T>, f: int -> T, lo: int, mid: int, hi: int)
    requires IsField(F) && lo <= mid <= hi
    requires forall c :: mid <= c < hi ==> f(c) == F.zero
    ensures Sum(F, f, lo, hi) == Sum(F, f, lo, mid)
    decreases hi - mid
  {
    if mid < hi {
      SumZeroTail(F, f, lo, mid, hi - 1);
      AddZero(F, Sum(F, f, lo, hi - 1));
    }
  }

  lemma SumZero<T(!new)>(F: Field<T>, f: int -> T, lo: int, hi: int)
    requires IsField(F)
    requires forall c :: lo <= c < hi ==> f(c) == F.zero
    ensures Sum(F, f, lo, hi) == F.zero
  {
    if lo <= hi {
      SumZeroTail(F, f, lo, lo, hi);
    }
  }

  /** A sum with one nonzero term. */
  lemma SumSingle<T(!new)>(F: Field<T>, f: int -> T, lo: int, hi: int, c: int)
    requires IsField(F) && lo <= c < hi
    requires forall i :: lo <= i < hi && i != c ==> f(i) == F.zero
    ensures Sum(F, f, lo, hi) == f(c)
  {
    SumZeroTail(F, f, lo, c + 1, hi);
    SumZero(F, f, lo, c);
    AddZero(F, f(c));
  }

  lemma {:induction false} SumPeelLeft<T(!new)>(F: Field<T>, f: int -> T, lo: int, hi: int)
    requires IsField(F) && lo < hi
    ensures Sum(F, f, lo, hi) == F.add(f(lo), Sum(F, f, lo + 1, hi))
    decreases hi - lo
  {
    if lo + 1 == hi {
      assert Sum(F, f, lo, lo) == F.zero;
      AddZero(F, f(lo));
    } else {
      SumPeelLeft(F, f, lo, hi - 1);
      AddAssoc(F, f(lo), Sum(F, f, lo + 1, hi - 1), f(hi - 1));
    }
  }

  // ----- coefficients

  predicate Bit(opcode: nat, k: nat)
  {
    opcode / Pow2(k) % 2 == 1
  }

  function Pow2(k: nat): (p: nat)
    ensures p > 0
  {
    if k == 0 then 1 else 2 * Pow2(k - 1)
  }

  /** The multiplier of a column in running sum s: 1, CX or CX squared. */
  function ColumnPower<T>(code: Code<T>, column: nat, s: nat): T {
    var CX := code.elem(GetColumnValue(column));
    if s == 0 then code.F.one else if s == 1 then CX else code.F.mul(CX, CX)
  }

  /** The sum of the column powers selected by k bits of the operation code, from bit `shift` on. */
  function Selected<T>(code: Code<T>, row: nat, column: nat, shift: nat, k: nat): T {
    if k == 0 then code.F.zero
    else
      var rest := Selected(code, row, column, shift, k - 1);
      if Bit(code.opcode(column % LANE_COUNT, row), shift + k - 1)
      then code.F.add(rest, ColumnPower(code, column, k - 1))
      else rest
  }

  function PairCount(ldpcCount: nat): nat { (ldpcCount + PAIR_ADD_RATE - 1) / PAIR_ADD_RATE }

  /** The element drawn for the plain (which == 0) or multiplied (which == 1) half of pair i. */
  function Drawn<T>(code: Code<T>, row: nat, ldpcCount: nat, i: nat, which: nat): (e: nat)
    requires ldpcCount > 0
    ensures e < ldpcCount
  {
    code.draw(row, ldpcCount, 2 * i + which) % ldpcCount
  }

  /** How often (over the field) an element is drawn by the first n pairs. */
  function Hits<T>(code: Code<T>, row: nat, ldpcCount: nat, n: nat, which: nat, element: int): T
    requires ldpcCount > 0
  {
    if n == 0 then code.F.zero
    else
      var rest := Hits(code, row, ldpcCount, n - 1, which, element);
      if Drawn(code, row, ldpcCount, n - 1, which) == element then code.F.add(rest, code.F.one) else rest
  }

  function CauchyElement<T>(code: Code<T>, row: nat, column: nat): T {
    code.F.inv(code.F.add(code.elem(row + CAUCHY_MAX_COLUMNS), code.elem(column)))
  }

  /** The coefficient of the c-th packet ever sent in a recovery packet that covers the packets
      up to (not including) the end-th. */
  function Coefficient<T>(code: Code<T>, meta: Metadata, end: int, c: int): T
    requires meta.ldpcCount > 0
  {
    var F, column := code.F, Wrap(c);
    if meta.sumCount <= CAUCHY_THRESHOLD then
      if meta.row == 0 then F.one else CauchyElement(code, meta.row - 1, column % CAUCHY_MAX_COLUMNS)
    else
      var element, n := c - (end - meta.ldpcCount), PairCount(meta.ldpcCount);
      F.add(
        F.add(Selected(code, meta.row, column, 0, 3), Hits(code, meta.row, meta.ldpcCount, n, 0, element)),
        F.mul(code.elem(GetRowValue(meta.row)),
          F.add(Selected(code, meta.row, column, 3, 3), Hits(code, meta.row, meta.ldpcCount, n, 1, element))))
  }

  /** The byte at one position of the c-th packet, zero if there is no such packet. */
  function Data<T>(F: Field<T>, hist: seq<seq<T>>, pos: nat, c: int): T {
    if 0 <= c < |hist| then At(F, hist[c], pos) else F.zero
  }

  function TermAt<T>(code: Code<T>, meta: Metadata, end: int, hist: seq<seq<T>>, pos: nat, c: int): T
    requires meta.ldpcCount > 0
  {
    code.F.mul(Coefficient(code, meta, end, c), Data(code.F, hist, pos, c))
  }

  function Term<T>(code: Code<T>, meta: Metadata, end: int, hist: seq<seq<T>>, pos: nat): int -> T
    requires meta.ldpcCount > 0
  {
    c => TermAt(code, meta, end, hist, pos, c)
  }

  /** One byte of the linear combination a recovery packet stands for. */
  function Combination<T>(code: Code<T>, meta: Metadata, start: int, end: int, hist: seq<seq<T>>, pos: nat): T
    requires meta.ldpcCount > 0
  {
    Sum(code.F, Term(code, meta, end, hist, pos), start, end)
  }

  // ----- the combination, as it is built up from running sums

  /** Running sum s of one lane. */
  function LaneAt<T>(code: Code<T>, hist: seq<seq<T>>, pos: nat, lane: nat, s: nat, c: int): T {
    if Wrap(c) % LANE_COUNT == lane
    then code.F.mul(ColumnPower(code, Wrap(c), s), Data(code.F, hist, pos, c))
    else code.F.zero
  }

  function LaneTerm<T>(code: Code<T>, hist: seq<seq<T>>, pos: nat, lane: nat, s: nat): int -> T {
    c => LaneAt(code, hist, pos, lane, s, c)
  }

  /** The dense part after all sums of the lanes before `lane` and k sums of `lane` itself. */
  function DenseAt<T>(code: Code<T>, row: nat, shift: nat, hist: seq<seq<T>>, pos: nat, lane: nat, k: nat, c: int): T {
    var l, d := Wrap(c) % LANE_COUNT, Data(code.F, hist, pos, c);
    if l < lane then code.F.mul(Selected(code, row, Wrap(c), shift, 3), d)
    else if l == lane then code.F.mul(Selected(code, row, Wrap(c), shift, k), d)
    else code.F.zero
  }

  function DenseTerm<T>(code: Code<T>, row: nat, shift: nat, hist: seq<seq<T>>, pos: nat, lane: nat, k: nat): int -> T {
    c => DenseAt(code, row, shift, hist, pos, lane, k, c)
  }

  lemma DenseStart<T(!new)>(code: Code<T>, row: nat, shift: nat, hist: seq<seq<T>>, pos: nat, lo: int, hi: int)
    requires IsField(code.F)
    ensures Sum(code.F, DenseTerm(code, row, shift, hist, pos, 0, 0), lo, hi) == code.F.zero
  {
    var f := DenseTerm(code, row, shift, hist, pos, 0, 0);
    forall c | lo <= c < hi ensures f(c) == code.F.zero {
      MulZero(code.F, Data(code.F, hist, pos, c));
    }
    SumZero(code.F, f, lo, hi);
  }

  lemma DenseStep<T(!new)>(code: Code<T>, row: nat, shift: nat, hist: seq<seq<T>>, pos: nat, lane: nat, k: nat, lo: int,
      hi: int)
    requires IsField(code.F) && lane < LANE_COUNT && k < 3
    ensures Sum(code.F, DenseTerm(code, row, shift, hist, pos, lane, k + 1), lo, hi) ==
              if Bit(code.opcode(lane, row), shift + k)
              then code.F.add(Sum(code.F, DenseTerm(code, row, shift, hist, pos, lane, k), lo, hi),
                              Sum(code.F, LaneTerm(code, hist, pos, lane, k), lo, hi))
              else Sum(code.F, DenseTerm(code, row, shift, hist, pos, lane, k), lo, hi)
  {
    var F := code.F;
    var f, g, h := DenseTerm(code, row, shift, hist, pos, lane, k), LaneTerm(code, hist, pos, lane, k),
      DenseTerm(code, row, shift, hist, pos, lane, k + 1);
    if Bit(code.opcode(lane, row), shift + k) {
      forall c | lo <= c < hi ensures h(c) == F.add(f(c), g(c)) {
        var d := Data(F, hist, pos, c);
        Distribute(F, d, Selected(code, row, Wrap(c), shift, k), ColumnPower(code, Wrap(c), k));
        AddZero(F, f(c));
        assert h(c) == DenseAt(code, row, shift, hist, pos, lane, k + 1, c);
      }
      SumAdd(F, f, g, h, lo, hi);
    } else {
      SumCong(F, f, h, lo, hi);
    }
  }

  lemma DenseNextLane<T(!new)>(code: Code<T>, row: nat, shift: nat, hist: seq<seq<T>>, pos: nat, lane: nat, lo: int,
      hi: int)
    requires IsField(code.F)
    ensures Sum(code.F, DenseTerm(code, row, shift, hist, pos, lane, 3), lo, hi) ==
            Sum(code.F, DenseTerm(code, row, shift, hist, pos, lane + 1, 0), lo, hi)
  {
    var f, h := DenseTerm(code, row, shift, hist, pos, lane, 3), DenseTerm(code, row, shift, hist, pos, lane + 1, 0);
    forall c | lo <= c < hi ensures f(c) == h(c) {
      MulZero(code.F, Data(code.F, hist, pos, c));
    }
    SumCong(code.F, f, h, lo, hi);
  }

  /** The light part after n pairs. */
  function LightTerm<T>(code: Code<T>, row: nat, ldpcCount: nat, first: int, n: nat, which: nat, hist: seq<seq<T>>,
      pos: nat): int -> T
    requires ldpcCount > 0
  {
    c => code.F.mul(Hits(code, row, ldpcCount, n, which, c - first), Data(code.F, hist, pos, c))
  }

  lemma LightStart<T(!new)>(code: Code<T>, row: nat, ldpcCount: nat, first: int, which: nat, hist: seq<seq<T>>,
      pos: nat, lo: int, hi: int)
    requires IsField(code.F) && ldpcCount > 0
    ensures Sum(code.F, LightTerm(code, row, ldpcCount, first, 0, which, hist, pos), lo, hi) == code.F.zero
  {
    var f := LightTerm(code, row, ldpcCount, first, 0, which, hist, pos);
    forall c | lo <= c < hi ensures f(c) == code.F.zero {
      MulZero(code.F, Data(code.F, hist, pos, c));
    }
    SumZero(code.F, f, lo, hi);
  }

  lemma LightStep<T(!new)>(code: Code<T>, row: nat, ldpcCount: nat, first: int, n: nat, which: nat, hist: seq<seq<T>>,
      pos: nat, lo: int, hi: int)
    requires IsField(code.F) && ldpcCount > 0 && lo <= first && first + ldpcCount <= hi
    ensures Sum(code.F, LightTerm(code, row, ldpcCount, first, n + 1, which, hist, pos), lo, hi) ==
              code.F.add(Sum(code.F, LightTerm(code, row, ldpcCount, first, n, which, hist, pos), lo, hi),
                         Data(code.F, hist, pos, first + Drawn(code, row, ldpcCount, n, which)))
  {
    var F, e := code.F, first + Drawn(code, row, ldpcCount, n, which);
    var f, h := LightTerm(code, row, ldpcCount, first, n, which, hist, pos),
      LightTerm(code, row, ldpcCount, first, n + 1, which, hist, pos);
    var g: int -> T := c => if c == e then Data(F, hist, pos, c) else F.zero;
    forall c | lo <= c < hi ensures h(c) == F.add(f(c), g(c)) {
      var d := Data(F, hist, pos, c);
      Distribute(F, d, Hits(code, row, ldpcCount, n, which, c - first), F.one);
      MulOne(F, d);
      AddZero(F, f(c));
    }
    SumAdd(F, f, g, h, lo, hi);
    SumSingle(F, g, lo, hi, e);
  }

  /** The byte that the dense and light parts add up to. */
  function Assembled<T>(code: Code<T>, meta: Metadata, start: int, end: int, hist: seq<seq<T>>, pos: nat): T
    requires meta.ldpcCount > 0
  {
    var F, row, first, n := code.F, meta.row, end - meta.ldpcCount, PairCount(meta.ldpcCount);
    F.add(
      F.add(Sum(F, DenseTerm(code, row, 0, hist, pos, LANE_COUNT, 0), start, end),
            Sum(F, LightTerm(code, row, meta.ldpcCount, first, n, 0, hist, pos), start, end)),
      F.mul(code.elem(GetRowValue(row)),
        F.add(Sum(F, DenseTerm(code, row, 3, hist, pos, LANE_COUNT, 0), start, end),
              Sum(F, LightTerm(code, row, meta.ldpcCount, first, n, 1, hist, pos), start, end))))
  }

  /** The running sums and the drawn pairs amount to the combination given by the coefficients. */
  lemma AssembledIsCombination<T(!new)>(code: Code<T>, meta: Metadata, start: int, end: int, hist: seq<seq<T>>,
      pos: nat)
    requires IsField(code.F) && meta.ldpcCount > 0 && meta.sumCount > CAUCHY_THRESHOLD
    ensures Assembled(code, meta, start, end, hist, pos) == Combination(code, meta, start, end, hist, pos)
  {
    hide IsField, Coefficient, Selected, Hits, DenseAt, TermAt, Wrap;
    var row, first, n := meta.row, end - meta.ldpcCount, PairCount(meta.ldpcCount);
    forall c | start <= c < end { TermSplits(code, meta, end, hist, pos, c); }
    SumFourParts(code.F, DenseTerm(code, row, 0, hist, pos, LANE_COUNT, 0),
        LightTerm(code, row, meta.ldpcCount, first, n, 0, hist, pos),
      code.elem(GetRowValue(row)),
      DenseTerm(code, row, 3, hist, pos, LANE_COUNT, 0), LightTerm(code, row, meta.ldpcCount, first, n, 1, hist, pos),
      Term(code, meta, end, hist, pos), start, end);
  }

  lemma SumFourParts<T(!new)>(F: Field<T>,
      d0: int -> T, l0: int -> T, y: T, d1: int -> T, l1: int -> T, t: int -> T, lo: int, hi: int)
    requires IsField(F)
    requires forall c :: lo <= c < hi ==> t(c) == F.add(F.add(d0(c), l0(c)), F.mul(y, F.add(d1(c), l1(c))))
    ensures Sum(F, t, lo, hi) ==
              F.add(F.add(Sum(F, d0, lo, hi), Sum(F, l0, lo, hi)),
                  F.mul(y, F.add(Sum(F, d1, lo, hi), Sum(F, l1, lo, hi))))
  {
    var plain: int -> T := c => F.add(d0(c), l0(c));
    var product: int -> T := c => F.add(d1(c), l1(c));
    var scaled: int -> T := c => F.mul(y, product(c));
    SumAdd(F, d0, l0, plain, lo, hi);
    SumAdd(F, d1, l1, product, lo, hi);
    SumScale(F, product, y, scaled, lo, hi);
    SumAdd(F, plain, scaled, t, lo, hi);
  }

  lemma TermSplits<T(!new)>(code: Code<T>, meta: Metadata, end: int, hist: seq<seq<T>>, pos: nat, c: int)
    requires IsField(code.F) && meta.ldpcCount > 0 && meta.sumCount > CAUCHY_THRESHOLD
    ensures var F, row, first, n := code.F, meta.row, end - meta.ldpcCount, PairCount(meta.ldpcCount);
            Term(code, meta, end, hist, pos)(c) == F.add(
              F.add(DenseTerm(code, row, 0, hist, pos, LANE_COUNT, 0)(c),
                  LightTerm(code, row, meta.ldpcCount, first, n, 0, hist, pos)(c)),
              F.mul(code.elem(GetRowValue(row)),
                F.add(DenseTerm(code, row, 3, hist, pos, LANE_COUNT, 0)(c),
                    LightTerm(code, row, meta.ldpcCount, first, n, 1, hist, pos)(c))))
  {
    var F, row, n, RX := code.F, meta.row, PairCount(meta.ldpcCount), code.elem(GetRowValue(meta.row));
    var element, column, d := c - (end - meta.ldpcCount), Wrap(c), Data(code.F, hist, pos, c);
    var s0, s1 := Selected(code, row, column, 0, 3), Selected(code, row, column, 3, 3);
    var h0, h1 := Hits(code, row, meta.ldpcCount, n, 0, element), Hits(code, row, meta.ldpcCount, n, 1, element);
    Distribute(F, d, F.add(s0, h0), F.mul(RX, F.add(s1, h1)));
    Distribute(F, d, s0, h0);
    Distribute(F, d, s1, h1);
    MulAssoc(F, RX, F.add(s1, h1), d);
    assert DenseAt(code, row, 0, hist, pos, LANE_COUNT, 0, c) == F.mul(s0, d);
    assert DenseAt(code, row, 3, hist, pos, LANE_COUNT, 0, c) == F.mul(s1, d);
    var coefficient := Coefficient(code, meta, end, c);
    assert coefficient == F.add(F.add(s0, h0), F.mul(RX, F.add(s1, h1)));
    assert Term(code, meta, end, hist, pos)(c) == F.mul(coefficient, d);
  }
}
