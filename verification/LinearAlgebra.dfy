/** Dot products, and what it means for a matrix to hold, in place, a partial LU factorization. */
module LinearAlgebra {
  import opened Fields

  /** a[lo]*x[lo] + ... + a[hi-1]*x[hi-1] */
  function Dot<T>(F: Field<T>, a: seq<T>, x: seq<T>, lo: nat, hi: nat): T
    requires hi <= |a| && hi <= |x|
    decreases hi
  {
    if hi <= lo then F.zero
    else F.add(Dot(F, a, x, lo, hi - 1), F.mul(a[hi - 1], x[hi - 1]))
  }

  lemma {:induction false} DotPeelLeft<T(!new)>(F: Field<T>, a: seq<T>, x: seq<T>, lo: nat, hi: nat)
    requires IsField(F) && lo < hi <= |a| && hi <= |x|
    ensures Dot(F, a, x, lo, hi) == F.add(F.mul(a[lo], x[lo]), Dot(F, a, x, lo + 1, hi))
    decreases hi
  {
    var first := F.mul(a[lo], x[lo]);
    if hi == lo + 1 {
      assert Dot(F, a, x, lo, lo) == F.zero;
      AddZero(F, first);
    } else {
      DotPeelLeft(F, a, x, lo, hi - 1);
      AddAssoc(F, first, Dot(F, a, x, lo + 1, hi - 1), F.mul(a[hi - 1], x[hi - 1]));
    }
  }

  lemma {:induction false} DotCong<T>(F: Field<T>, a: seq<T>, b: seq<T>, x: seq<T>, y: seq<T>, lo: nat, hi: nat)
    requires hi <= |a| && hi <= |b| && hi <= |x| && hi <= |y|
    requires forall j :: lo <= j < hi ==> a[j] == b[j] && x[j] == y[j]
    ensures Dot(F, a, x, lo, hi) == Dot(F, b, y, lo, hi)
    decreases hi
  {
    if lo < hi {
      DotCong(F, a, b, x, y, lo, hi - 1);
    }
  }

  /** The dot product is linear in its first argument. */
  lemma {:induction false} DotAxpy<T(!new)>(F: Field<T>, r: seq<T>, a: seq<T>, y: T, b: seq<T>, x: seq<T>, lo: nat,
      hi: nat)
    requires IsField(F)
    requires hi <= |r| && hi <= |a| && hi <= |b| && hi <= |x|
    requires forall j :: lo <= j < hi ==> r[j] == F.add(a[j], F.mul(y, b[j]))
    ensures Dot(F, r, x, lo, hi) == F.add(Dot(F, a, x, lo, hi), F.mul(y, Dot(F, b, x, lo, hi)))
    decreases hi
  {
    if hi <= lo {
      MulZero(F, y);
      AddZero(F, F.zero);
    } else {
      DotAxpy(F, r, a, y, b, x, lo, hi - 1);
      var aj, bj, xj := a[hi - 1], b[hi - 1], x[hi - 1];
      Distribute(F, xj, aj, F.mul(y, bj));
      MulAssoc(F, y, bj, xj);
      var da, db := Dot(F, a, x, lo, hi - 1), Dot(F, b, x, lo, hi - 1);
      AddExchange(F, da, F.mul(y, db), F.mul(aj, xj), F.mul(y, F.mul(bj, xj)));
      Distribute(F, y, db, F.mul(bj, xj));
    }
  }

  /** Positions where one of the factors is zero contribute nothing. */
  lemma {:induction false} DotZeroTail<T(!new)>(F: Field<T>, a: seq<T>, x: seq<T>, lo: nat, mid: nat, hi: nat)
    requires IsField(F) && lo <= mid <= hi <= |a| && hi <= |x|
    requires forall j :: mid <= j < hi ==> a[j] == F.zero || x[j] == F.zero
    ensures Dot(F, a, x, lo, hi) == Dot(F, a, x, lo, mid)
    decreases hi
  {
    if mid < hi {
      DotZeroTail(F, a, x, lo, mid, hi - 1);
      MulZero(F, a[hi - 1]);
      MulZero(F, x[hi - 1]);
      AddZero(F, Dot(F, a, x, lo, hi - 1));
    }
  }

  lemma DotZero<T(!new)>(F: Field<T>, a: seq<T>, x: seq<T>, lo: nat, hi: nat)
    requires IsField(F) && lo <= hi <= |a| && hi <= |x|
    requires forall j :: lo <= j < hi ==> a[j] == F.zero || x[j] == F.zero
    ensures Dot(F, a, x, lo, hi) == F.zero
  {
    DotZeroTail(F, a, x, lo, lo, hi);
  }

  /** The c-th unit vector of length n. */
  function Unit<T>(F: Field<T>, n: nat, c: nat): (e: seq<T>)
    ensures |e| == n
    ensures forall j :: 0 <= j < n ==> e[j] == if j == c then F.one else F.zero
  {
    seq(n, j => if j == c then F.one else F.zero)
  }

  /** A dot product with a unit vector reads off an entry. */
  lemma DotUnit<T(!new)>(F: Field<T>, a: seq<T>, c: nat, lo: nat)
    requires IsField(F) && lo <= |a| && c < |a|
    ensures Dot(F, a, Unit(F, |a|, c), lo, |a|) == if lo <= c then a[c] else F.zero
  {
    var e := Unit(F, |a|, c);
    if lo <= c {
      DotZeroTail(F, a, e, lo, c + 1, |a|);
      DotZero(F, a, e, lo, c);
      MulOne(F, a[c]);
      AddZero(F, a[c]);
    } else {
      DotZero(F, a, e, lo, |a|);
    }
  }

  ghost predicate IsMatrix<T>(m: seq<seq<T>>, rows: nat, cols: nat) {
    |m| == rows && forall r :: 0 <= r < rows ==> |m[r]| == cols
  }

  ghost predicate IsPivotList(piv: seq<nat>, rows: nat) {
    && (forall k :: 0 <= k < |piv| ==> piv[k] < rows)
    && (forall j, k :: 0 <= j < k < |piv| ==> piv[j] != piv[k])
  }

  /** The values of the pivot rows at x: pivot t is only read from column t on, since the
      columns before it hold the multipliers that were used to clear them. */
  function PivotValues<T>(F: Field<T>, m: seq<seq<T>>, piv: seq<nat>, x: seq<T>): (u: seq<T>)
    requires IsMatrix(m, |m|, |x|)
    requires forall k :: 0 <= k < |piv| ==> piv[k] < |m|
    ensures |u| == |piv|
    ensures forall t :: 0 <= t < |u| ==> u[t] == Dot(F, m[piv[t]], x, t, |x|)
  {
    seq(|piv|, t requires 0 <= t < |piv| => Dot(F, m[piv[t]], x, t, |x|))
  }

  /** Row r of the matrix m, whose first |piv| entries are multipliers for the pivot rows piv
      and whose other entries are what is left of the row, still stands for row r of A. */
  ghost predicate ReducedAt<T>(F: Field<T>, A: seq<seq<T>>, m: seq<seq<T>>, piv: seq<nat>, r: nat, x: seq<T>)
    requires IsMatrix(A, |m|, |x|) && IsMatrix(m, |m|, |x|) && r < |m|
    requires |piv| <= |x|
    requires forall k :: 0 <= k < |piv| ==> piv[k] < |m|
  {
    Dot(F, A[r], x, 0, |x|) ==
      F.add(Dot(F, m[r], PivotValues(F, m, piv, x), 0, |piv|), Dot(F, m[r], x, |piv|, |x|))
  }

  ghost predicate Reduced<T(!new)>(F: Field<T>, A: seq<seq<T>>, m: seq<seq<T>>, cols: nat, piv: seq<nat>, r: nat)
  {
    && IsMatrix(A, |m|, cols) && IsMatrix(m, |m|, cols) && r < |m| && |piv| <= cols
    && (forall k :: 0 <= k < |piv| ==> piv[k] < |m|)
    && forall x: seq<T> :: |x| == cols ==> ReducedAt(F, A, m, piv, r, x)
  }

  /** A row that no pivot has touched stands for itself. */
  lemma ReducedByNothing<T(!new)>(F: Field<T>, A: seq<seq<T>>, m: seq<seq<T>>, cols: nat, r: nat)
    requires IsField(F) && IsMatrix(A, |m|, cols) && IsMatrix(m, |m|, cols) && r < |m|
    requires m[r] == A[r]
    ensures Reduced(F, A, m, cols, [], r)
  {
    forall x: seq<T> | |x| == cols ensures ReducedAt(F, A, m, [], r, x) {
      AddZero(F, Dot(F, A[r], x, 0, |x|));
    }
  }

  /** Only row r and the pivot rows matter. */
  lemma ReducedFrame<T(!new)>(F: Field<T>, A: seq<seq<T>>, m: seq<seq<T>>, m': seq<seq<T>>, cols: nat, piv: seq<nat>,
      r: nat)
    requires Reduced(F, A, m, cols, piv, r)
    requires IsMatrix(m', |m|, cols)
    requires m'[r] == m[r] && forall k :: 0 <= k < |piv| ==> m'[piv[k]] == m[piv[k]]
    ensures Reduced(F, A, m', cols, piv, r)
  {
    forall x: seq<T> | |x| == cols ensures ReducedAt(F, A, m', piv, r, x) {
      assert ReducedAt(F, A, m, piv, r, x);
      assert PivotValues(F, m, piv, x) == PivotValues(F, m', piv, x);
    }
  }

  /** Where the pivot rows vanish, a reduced row takes the value of the row it stands for. */
  lemma ReducedWherePivotsVanish<T(!new)>(F: Field<T>, A: seq<seq<T>>, m: seq<seq<T>>, cols: nat, piv: seq<nat>, r: nat,
      x: seq<T>)
    requires IsField(F) && Reduced(F, A, m, cols, piv, r) && |x| == cols
    requires forall t :: 0 <= t < |piv| ==> Dot(F, m[piv[t]], x, t, cols) == F.zero
    ensures Dot(F, A[r], x, 0, cols) == Dot(F, m[r], x, |piv|, cols)
  {
    assert ReducedAt(F, A, m, piv, r, x);
    DotZero(F, m[r], PivotValues(F, m, piv, x), 0, |piv|);
    AddZero(F, Dot(F, m[r], x, |piv|, cols));
  }

  /** What EliminateRow makes of a row: the entry in the pivot column becomes the multiplier,
      and the entries to the right of it lose that multiple of the pivot row. */
  function EliminatedRow<T>(F: Field<T>, ge: seq<T>, rem: seq<T>, p: nat): (r: seq<T>)
    requires p < |ge| == |rem|
    ensures |r| == |rem|
  {
    var y := F.Div(rem[p], ge[p]);
    seq(|rem|, j requires 0 <= j < |rem| =>
      if j < p then rem[j] else if j == p then y else F.add(rem[j], F.mul(y, ge[j])))
  }

  /** A row that is already zero in the pivot column is left alone. */
  lemma EliminatedRowOfZero<T(!new)>(F: Field<T>, ge: seq<T>, rem: seq<T>, p: nat)
    requires IsField(F) && p < |ge| == |rem| && rem[p] == F.zero
    ensures EliminatedRow(F, ge, rem, p) == rem
  {
    MulZero(F, F.inv(ge[p]));
    forall j | p < j < |rem| ensures F.add(rem[j], F.mul(F.zero, ge[j])) == rem[j] {
      MulZero(F, ge[j]);
      AddZero(F, rem[j]);
    }
  }

  /** Eliminating with one more pivot keeps the row equal to the row of A it stands for. */
  lemma EliminateKeepsRow<T(!new)>(F: Field<T>, A: seq<seq<T>>, m: seq<seq<T>>, cols: nat, piv: seq<nat>, q: nat,
      r: nat)
    requires IsField(F) && Reduced(F, A, m, cols, piv, r)
    requires |piv| < cols && q < |m| && q != r && r !in piv
    requires m[q][|piv|] != F.zero
    ensures Reduced(F, A, m[r := EliminatedRow(F, m[q], m[r], |piv|)], cols, piv + [q], r)
  {
    var m' := m[r := EliminatedRow(F, m[q], m[r], |piv|)];
    forall x: seq<T> | |x| == cols ensures ReducedAt(F, A, m', piv + [q], r, x) {
      assert ReducedAt(F, A, m, piv, r, x);
      EliminateKeepsRowAt(F, A, m, m', piv, q, r, x);
    }
  }

  lemma EliminateKeepsRowAt<T(!new)>(F: Field<T>, A: seq<seq<T>>, m: seq<seq<T>>, m': seq<seq<T>>,
      piv: seq<nat>, q: nat, r: nat, x: seq<T>)
    requires IsField(F) && IsMatrix(A, |m|, |x|) && IsMatrix(m, |m|, |x|)
    requires |piv| < |x| && q < |m| && r < |m| && q != r && r !in piv
    requires forall k :: 0 <= k < |piv| ==> piv[k] < |m|
    requires m[q][|piv|] != F.zero
    requires m' == m[r := EliminatedRow(F, m[q], m[r], |piv|)]
    requires ReducedAt(F, A, m, piv, r, x)
    ensures ReducedAt(F, A, m', piv + [q], r, x)
  {
    var p, n := |piv|, |x|;
    var row := m'[r];
    var u, u' := PivotValues(F, m, piv, x), PivotValues(F, m', piv + [q], x);
    assert forall t :: 0 <= t < p ==> u'[t] == u[t] by {
      forall t | 0 <= t < p ensures u'[t] == u[t] {
        assert (piv + [q])[t] == piv[t] && piv[t] in piv;
      }
    }
    assert Dot(F, m[r], u, 0, p) == Dot(F, row, u', 0, p) by {
      DotCong(F, m[r], row, u, u', 0, p);
    }
    EliminateTail(F, m[q], m[r], p, x);
    assert u'[p] == Dot(F, m[q], x, p, n);
    AddAssoc(F, Dot(F, row, u', 0, p), F.mul(row[p], u'[p]), Dot(F, row, x, p + 1, n));
  }

  /** y times the pivot row plus what is left of the eliminated row is the row before. */
  lemma EliminateTail<T(!new)>(F: Field<T>, ge: seq<T>, rem: seq<T>, p: nat, x: seq<T>)
    requires IsField(F) && p < |ge| == |rem| == |x| && ge[p] != F.zero
    ensures var row := EliminatedRow(F, ge, rem, p);
            Dot(F, rem, x, p, |x|) ==
              F.add(F.mul(row[p], Dot(F, ge, x, p, |x|)), Dot(F, row, x, p + 1, |x|))
  {
    var n := |x|;
    var row := EliminatedRow(F, ge, rem, p);
    var y := row[p];
    DotAxpy(F, row, rem, y, ge, x, p + 1, n);
    DotPeelLeft(F, ge, x, p, n);
    DotPeelLeft(F, rem, x, p, n);
    var g, d := Dot(F, ge, x, p + 1, n), Dot(F, rem, x, p + 1, n);
    Distribute(F, y, F.mul(ge[p], x[p]), g);
    MulAssoc(F, y, ge[p], x[p]);
    DivMul(F, rem[p], ge[p]);
    var h := F.mul(rem[p], x[p]);
    // (h + y g) + (d + y g) == h + d
    AddExchange(F, h, F.mul(y, g), d, F.mul(y, g));
    AddSelf(F, F.mul(y, g));
    AddZero(F, F.add(h, d));
  }

  /** Columns in which a row and its pivots are zero may be appended. */
  lemma ReducedWiden<T(!new)>(F: Field<T>, A: seq<seq<T>>, m: seq<seq<T>>, cols: nat,
      A': seq<seq<T>>, m': seq<seq<T>>, cols': nat, piv: seq<nat>, r: nat)
    requires IsField(F) && Reduced(F, A, m, cols, piv, r)
    requires cols <= cols' && |m| <= |m'| && IsMatrix(A', |m'|, cols') && IsMatrix(m', |m'|, cols')
    requires forall s, j :: 0 <= s < |m| && 0 <= j < cols' ==>
               && A'[s][j] == (if j < cols then A[s][j] else F.zero)
               && m'[s][j] == (if j < cols then m[s][j] else F.zero)
    ensures Reduced(F, A', m', cols', piv, r)
  {
    forall x: seq<T> | |x| == cols' ensures ReducedAt(F, A', m', piv, r, x) {
      var z := x[..cols];
      assert ReducedAt(F, A, m, piv, r, z);
      forall s, lo: nat | 0 <= s < |m| && lo <= cols
        ensures Dot(F, m'[s], x, lo, cols') == Dot(F, m[s], z, lo, cols)
      {
        DotZeroTail(F, m'[s], x, lo, cols, cols');
        DotCong(F, m'[s], m[s], x, z, lo, cols);
      }
      DotZeroTail(F, A'[r], x, 0, cols, cols');
      DotCong(F, A'[r], A[r], x, z, 0, cols);
      assert PivotValues(F, m', piv, x) == PivotValues(F, m, piv, z);
      DotCong(F, m'[r], m[r], PivotValues(F, m', piv, x), PivotValues(F, m, piv, z), 0, |piv|);
    }
  }
}
