/** The in-place factorization that Gaussian elimination maintains, on matrices as values. */
module Factorization {
  import opened Numbers
  import opened Fields
  import opened LinearAlgebra

  /** How many pivots the row at position k of the pivot order has been reduced by, while the
      rows at positions p+1 .. kk-1 have already been reduced by pivot p. */
  function LevelAt(k: nat, p: nat, kk: nat): (e: nat)
    ensures e <= k && e <= p + 1
  {
    if k <= p then k else if k < kk then p + 1 else p
  }

  ghost predicate PartlyFactored<T(!new)>(F: Field<T>, A: seq<seq<T>>, m: seq<seq<T>>, cols: nat, P: seq<nat>, p: nat,
      kk: nat) {
    forall k :: 0 <= k < |P| ==> Reduced(F, A, m, cols, P[..LevelAt(k, p, kk)], P[k])
  }

  /** Every row has been reduced by the first p pivots, or by all pivots before its own. */
  ghost predicate Factored<T(!new)>(F: Field<T>, A: seq<seq<T>>, m: seq<seq<T>>, cols: nat, P: seq<nat>, p: nat) {
    forall k :: 0 <= k < |P| ==> Reduced(F, A, m, cols, P[..if k <= p then k else p], P[k])
  }

  /** The first p pivots are nonzero. */
  ghost predicate Diagonal<T>(F: Field<T>, m: seq<seq<T>>, cols: nat, P: seq<nat>, p: nat)
    requires IsMatrix(m, |m|, cols) && p <= |P| && p <= cols && IsPivotList(P, |m|)
  {
    forall k :: 0 <= k < p ==> m[P[k]][k] != F.zero
  }

  /** Row r is zero from column count[r] on. */
  ghost predicate ZeroPast<T>(F: Field<T>, m: seq<seq<T>>, cols: nat, count: seq<nat>) {
    && IsMatrix(m, |m|, cols) && |count| == |m|
    && (forall r :: 0 <= r < |m| ==> count[r] <= cols)
    && forall r, j :: 0 <= r < |m| && count[r] <= j < cols ==> m[r][j] == F.zero
  }

  ghost predicate Monotone(count: seq<nat>) {
    forall i, j :: 0 <= i <= j < |count| ==> count[i] <= count[j]
  }

  /** The columns of A are linearly independent. */
  ghost predicate FullColumnRank<T(!new)>(F: Field<T>, A: seq<seq<T>>, cols: nat)
    requires IsMatrix(A, |A|, cols)
  {
    forall x: seq<T> :: |x| == cols && InKernel(F, A, x) ==> forall j :: 0 <= j < cols ==> x[j] == F.zero
  }

  ghost predicate InKernel<T>(F: Field<T>, A: seq<seq<T>>, x: seq<T>)
    requires IsMatrix(A, |A|, |x|)
  {
    forall r :: 0 <= r < |A| ==> Dot(F, A[r], x, 0, |x|) == F.zero
  }

  /** The complete factorization: the first cols rows of the pivot order are triangular. */
  ghost predicate Solved<T(!new)>(F: Field<T>, A: seq<seq<T>>, m: seq<seq<T>>, cols: nat, P: seq<nat>) {
    && IsMatrix(m, |m|, cols) && IsPivotList(P, |m|) && cols <= |P|
    && Diagonal(F, m, cols, P, cols)
    && forall k :: 0 <= k < cols ==> Reduced(F, A, m, cols, P[..k], P[k])
  }

  // ----- the steps of the elimination

  lemma EliminateOne<T(!new)>(F: Field<T>, A: seq<seq<T>>, m: seq<seq<T>>, cols: nat, P: seq<nat>, p: nat, kk: nat)
    requires IsField(F) && IsPivotList(P, |m|) && PartlyFactored(F, A, m, cols, P, p, kk)
    requires p < kk < |P| && p < cols && IsMatrix(m, |m|, cols) && m[P[p]][p] != F.zero
    ensures PartlyFactored(F, A, m[P[kk] := EliminatedRow(F, m[P[p]], m[P[kk]], p)], cols, P, p, kk + 1)
  {
    hide Reduced, IsField, EliminatedRow;
    var m' := m[P[kk] := EliminatedRow(F, m[P[p]], m[P[kk]], p)];
    forall k | 0 <= k < |P| ensures Reduced(F, A, m', cols, P[..LevelAt(k, p, kk + 1)], P[k]) {
      assert Reduced(F, A, m, cols, P[..LevelAt(k, p, kk)], P[k]);
      if k == kk {
        assert P[..p] + [P[p]] == P[..p + 1];
        assert P[kk] !in P[..p];
        EliminateKeepsRow(F, A, m, cols, P[..p], P[p], P[kk]);
      } else {
        EliminateElsewhere(F, A, m, m', cols, P, LevelAt(k, p, kk), k, kk);
      }
    }
  }

  lemma EliminateElsewhere<T(!new)>(F: Field<T>, A: seq<seq<T>>, m: seq<seq<T>>, m': seq<seq<T>>, cols: nat,
      P: seq<nat>, e: nat, k: nat, kk: nat)
    requires IsPivotList(P, |m|) && k < |P| && kk < |P| && k != kk && e <= kk && e <= k
    requires |m'| == |m| && |m'[P[kk]]| == cols && m' == m[P[kk] := m'[P[kk]]]
    requires Reduced(F, A, m, cols, P[..e], P[k])
    ensures Reduced(F, A, m', cols, P[..e], P[k])
  {
    ReducedFrame(F, A, m, m', cols, P[..e], P[k]);
  }

  lemma StartPivot<T(!new)>(F: Field<T>, A: seq<seq<T>>, m: seq<seq<T>>, cols: nat, P: seq<nat>, p: nat)
    requires Factored(F, A, m, cols, P, p)
    ensures PartlyFactored(F, A, m, cols, P, p, p + 1)
  {
    forall k | 0 <= k < |P| ensures Reduced(F, A, m, cols, P[..LevelAt(k, p, p + 1)], P[k]) {
      assert LevelAt(k, p, p + 1) == if k <= p then k else p;
    }
  }

  lemma FinishPivot<T(!new)>(F: Field<T>, A: seq<seq<T>>, m: seq<seq<T>>, cols: nat, P: seq<nat>, p: nat)
    requires PartlyFactored(F, A, m, cols, P, p, |P|)
    ensures Factored(F, A, m, cols, P, p + 1)
  {
    forall k | 0 <= k < |P| ensures Reduced(F, A, m, cols, P[..if k <= p + 1 then k else p + 1], P[k]) {
      assert LevelAt(k, p, |P|) == if k <= p + 1 then k else p + 1;
    }
  }

  /** Exchanging two positions at or after p in the pivot order loses nothing. */
  lemma SwapPivots<T(!new)>(F: Field<T>, A: seq<seq<T>>, m: seq<seq<T>>, cols: nat, P: seq<nat>, p: nat, j: nat)
    requires IsMatrix(m, |m|, cols) && IsPivotList(P, |m|) && p <= j < |P| && p <= cols
    requires Factored(F, A, m, cols, P, p) && Diagonal(F, m, cols, P, p)
    ensures var P' := P[p := P[j]][j := P[p]];
            IsPivotList(P', |m|) && Factored(F, A, m, cols, P', p) && Diagonal(F, m, cols, P', p)
  {
    hide Reduced;
    var P' := P[p := P[j]][j := P[p]];
    forall k | 0 <= k < |P| ensures Reduced(F, A, m, cols, P'[..if k <= p then k else p], P'[k]) {
      var k0 := if k == p then j else if k == j then p else k;
      assert P'[k] == P[k0];
      assert Reduced(F, A, m, cols, P[..if k0 <= p then k0 else p], P[k0]);
      var e := if k <= p then k else p;
      assert P'[..e] == P[..e];
    }
  }

  /** Zeros to the right of the counts stay zeros when the counts are joined. */
  lemma EliminateZeroPast<T(!new)>(F: Field<T>, m: seq<seq<T>>, cols: nat, count: seq<nat>, q: nat, r: nat, p: nat)
    requires IsField(F) && ZeroPast(F, m, cols, count) && q < |m| && r < |m| && p < cols
    requires m[q][p] != F.zero && m[r][p] != F.zero
    ensures var c := if count[r] < count[q] then count[q] else count[r];
            ZeroPast(F, m[r := EliminatedRow(F, m[q], m[r], p)], cols, count[r := c])
  {
    var y := F.Div(m[r][p], m[q][p]);
    MulZero(F, y);
    AddZero(F, F.zero);
    assert p < count[q] && p < count[r];
  }

  lemma UntouchedIsFactored<T(!new)>(F: Field<T>, A: seq<seq<T>>, m: seq<seq<T>>, cols: nat, P: seq<nat>)
    requires IsField(F) && m == A && IsMatrix(A, |A|, cols) && IsPivotList(P, |m|)
    ensures Factored(F, A, m, cols, P, 0)
  {
    hide Reduced;
    forall k | 0 <= k < |P| ensures Reduced(F, A, m, cols, P[..if k <= 0 then k else 0], P[k]) {
      assert P[..0] == [];
      ReducedByNothing(F, A, m, cols, P[k]);
    }
  }

  // ----- resuming after rows and columns were added

  /** While the rows from position `n0` on catch up: those before kk have been reduced by the
      first i+1 pivots, the others by the first i. */
  function ResumeLevel(k: nat, p: nat, n0: nat, i: nat, kk: nat): nat {
    if k < n0 then (if k <= p then k else p) else if k < kk then i + 1 else i
  }

  ghost predicate Resuming<T(!new)>(F: Field<T>, A: seq<seq<T>>, m: seq<seq<T>>, cols: nat, P: seq<nat>, p: nat,
      n0: nat, i: nat, kk: nat) {
    && p <= n0 <= |P| && i <= p
    && forall k :: 0 <= k < |P| ==>
         Reduced(F, A, m, cols, P[..ResumeLevel(k, p, n0, i, kk)], P[k])
  }

  /** The n0 part of a grown matrix keeps its factorization, and the new rows start without one. */
  lemma StartResume<T(!new)>(F: Field<T>, A: seq<seq<T>>, m: seq<seq<T>>, cols: nat, P: seq<nat>, p: nat,
      A': seq<seq<T>>, m': seq<seq<T>>, cols': nat, P': seq<nat>)
    requires IsField(F) && Factored(F, A, m, cols, P, p) && |P| == |m| && p <= |P|
    requires cols <= cols' && |m| <= |m'| && IsMatrix(A', |m'|, cols') && IsMatrix(m', |m'|, cols')
    requires |P'| == |m'| && P <= P' && IsPivotList(P', |m'|)
    requires IsMatrix(A, |m|, cols) && IsMatrix(m, |m|, cols)
    requires forall s, j :: 0 <= s < |m| && 0 <= j < cols' ==>
               && A'[s][j] == (if j < cols then A[s][j] else F.zero)
               && m'[s][j] == (if j < cols then m[s][j] else F.zero)
    requires forall k :: |m| <= k < |m'| ==> P'[k] == k && m'[k] == A'[k]
    ensures Resuming(F, A', m', cols', P', p, |P|, 0, |P|)
  {
    hide Reduced;
    forall k | 0 <= k < |P'| ensures Reduced(F, A', m', cols', P'[..ResumeLevel(k, p, |P|, 0, |P|)], P'[k]) {
      if k < |P| {
        var e := if k <= p then k else p;
        assert Reduced(F, A, m, cols, P[..e], P[k]);
        assert P'[..e] == P[..e];
        ReducedWiden(F, A, m, cols, A', m', cols', P[..e], P[k]);
      } else {
        assert P'[..0] == [];
        ReducedByNothing(F, A', m', cols', P'[k]);
      }
    }
  }

  lemma ResumeOne<T(!new)>(F: Field<T>, A: seq<seq<T>>, m: seq<seq<T>>, cols: nat, P: seq<nat>, p: nat, n0: nat, i: nat,
      kk: nat)
    requires IsField(F) && IsPivotList(P, |m|) && IsMatrix(m, |m|, cols)
    requires Resuming(F, A, m, cols, P, p, n0, i, kk)
    requires i < p <= cols && n0 <= kk < |P| && m[P[i]][i] != F.zero
    ensures Resuming(F, A, m[P[kk] := EliminatedRow(F, m[P[i]], m[P[kk]], i)], cols, P, p, n0, i, kk + 1)
  {
    hide Reduced;
    var m' := m[P[kk] := EliminatedRow(F, m[P[i]], m[P[kk]], i)];
    forall k | 0 <= k < |P| ensures Reduced(F, A, m', cols, P[..ResumeLevel(k, p, n0, i, kk + 1)], P[k]) {
      assert Reduced(F, A, m, cols, P[..ResumeLevel(k, p, n0, i, kk)], P[k]);
      if k == kk {
        assert P[..i] + [P[i]] == P[..i + 1];
        assert P[kk] !in P[..i];
        EliminateKeepsRow(F, A, m, cols, P[..i], P[i], P[kk]);
      } else {
        EliminateElsewhere(F, A, m, m', cols, P, ResumeLevel(k, p, n0, i, kk), k, kk);
      }
    }
  }

  lemma NextResumePivot<T(!new)>(F: Field<T>, A: seq<seq<T>>, m: seq<seq<T>>, cols: nat, P: seq<nat>, p: nat, n0: nat,
      i: nat)
    requires Resuming(F, A, m, cols, P, p, n0, i, |P|) && i < p
    ensures Resuming(F, A, m, cols, P, p, n0, i + 1, n0)
  {
    hide Reduced;
    forall k | 0 <= k < |P| ensures Reduced(F, A, m, cols, P[..ResumeLevel(k, p, n0, i + 1, n0)], P[k]) {
      assert ResumeLevel(k, p, n0, i + 1, n0) == ResumeLevel(k, p, n0, i, |P|);
    }
  }

  lemma FinishResume<T(!new)>(F: Field<T>, A: seq<seq<T>>, m: seq<seq<T>>, cols: nat, P: seq<nat>, p: nat, n0: nat)
    requires Resuming(F, A, m, cols, P, p, n0, p, n0)
    ensures Factored(F, A, m, cols, P, p)
  {
    hide Reduced;
    forall k | 0 <= k < |P| ensures Reduced(F, A, m, cols, P[..if k <= p then k else p], P[k]) {
      assert ResumeLevel(k, p, n0, p, n0) == if k <= p then k else p;
    }
  }

  // ----- when elimination stops, the matrix is singular

  /** A list of n distinct numbers below n contains all of them. */
  lemma PermutationCovers(P: seq<nat>, n: nat, r: nat)
    requires IsPivotList(P, n) && |P| == n && r < n
    ensures r in P
  {
    var image := Image(P, n);
    if r !in P {
      SubsetSize(image, Below(n) - {r});
    }
  }

  ghost function Image(P: seq<nat>, k: nat): (s: set<nat>)
    requires k <= |P| && forall i, j :: 0 <= i < j < |P| ==> P[i] != P[j]
    ensures |s| == k && forall v: nat :: v in s <==> v in P[..k]
  {
    if k == 0 then {} else
      assert P[..k] == P[..k - 1] + [P[k - 1]];
      Image(P, k - 1) + {P[k - 1]}
  }

  /** Back-substitution below position p: x[p] is one, x is zero after p, and the pivot rows
      i .. p-1 vanish at x. */
  ghost predicate Vanishes<T>(F: Field<T>, m: seq<seq<T>>, P: seq<nat>, p: nat, i: nat, x: seq<T>)
    requires IsMatrix(m, |m|, |x|) && IsPivotList(P, |m|) && p < |x| && p <= |P|
  {
    && x[p] == F.one
    && (forall j :: p < j < |x| ==> x[j] == F.zero)
    && (forall k :: i <= k < p ==> Dot(F, m[P[k]], x, k, |x|) == F.zero)
  }

  lemma {:induction false} KernelVector<T(!new)>(F: Field<T>, m: seq<seq<T>>, cols: nat, P: seq<nat>, p: nat, i: nat)
    returns (x: seq<T>)
    requires IsField(F) && IsMatrix(m, |m|, cols) && IsPivotList(P, |m|) && i <= p < cols && p <= |P|
    requires Diagonal(F, m, cols, P, p)
    ensures |x| == cols && Vanishes(F, m, P, p, i, x)
    decreases p - i
  {
    if i == p {
      x := Unit(F, cols, p);
    } else {
      var z := KernelVector(F, m, cols, P, p, i + 1);
      var row := m[P[i]];
      var tail := Dot(F, row, z, i + 1, cols);
      var v := F.mul(F.inv(row[i]), tail);
      x := z[i := v];
      forall k | i <= k < p ensures Dot(F, m[P[k]], x, k, cols) == F.zero {
        if k == i {
          DotPeelLeft(F, row, x, i, cols);
          DotCong(F, row, row, x, z, i + 1, cols);
          MulAssoc(F, row[i], F.inv(row[i]), tail);
          assert InvLaw(F, row[i]);
          MulOne(F, tail);
          AddSelf(F, tail);
        } else {
          DotCong(F, m[P[k]], m[P[k]], x, z, k, cols);
        }
      }
    }
  }

  /** If no remaining row has a nonzero entry in column p, the columns of A are dependent. */
  lemma StuckIsSingular<T(!new)>(F: Field<T>, A: seq<seq<T>>, m: seq<seq<T>>, cols: nat, P: seq<nat>, p: nat)
    requires IsField(F) && IsMatrix(m, |m|, cols) && IsMatrix(A, |m|, cols)
    requires IsPivotList(P, |m|) && |P| == |m| && p < cols && p <= |P|
    requires Factored(F, A, m, cols, P, p) && Diagonal(F, m, cols, P, p)
    requires forall k :: p <= k < |P| ==> m[P[k]][p] == F.zero
    ensures !FullColumnRank(F, A, cols)
  {
    var x := KernelVector(F, m, cols, P, p, 0);
    forall r | 0 <= r < |A| ensures Dot(F, A[r], x, 0, cols) == F.zero {
      PermutationCovers(P, |m|, r);
      var k :| 0 <= k < |P| && P[k] == r;
      assert Reduced(F, A, m, cols, P[..if k <= p then k else p], P[k]);
      StuckRowVanishes(F, A, m, cols, P, p, k, x);
    }
    assert InKernel(F, A, x);
  }

  lemma StuckRowVanishes<T(!new)>(F: Field<T>, A: seq<seq<T>>, m: seq<seq<T>>, cols: nat, P: seq<nat>, p: nat, k: nat,
      x: seq<T>)
    requires IsField(F) && IsMatrix(m, |m|, cols) && IsPivotList(P, |m|) && p < cols && p <= |P| && k < |P|
    requires |x| == cols && Vanishes(F, m, P, p, 0, x)
    requires Reduced(F, A, m, cols, P[..if k <= p then k else p], P[k])
    requires p <= k ==> m[P[k]][p] == F.zero
    ensures Dot(F, A[P[k]], x, 0, cols) == F.zero
  {
    ReducedWherePivotsVanish(F, A, m, cols, P[..if k <= p then k else p], P[k], x);
    if p <= k {
      DotZero(F, m[P[k]], x, p, cols);
    }
  }

  // ----- a complete factorization determines the unknowns

  lemma {:induction false} SolvedValues<T(!new)>(F: Field<T>, A: seq<seq<T>>, m: seq<seq<T>>, cols: nat, P: seq<nat>,
      x: seq<T>, k: nat)
    requires IsField(F) && Solved(F, A, m, cols, P) && |x| == cols && k <= cols && IsMatrix(A, |m|, cols)
    requires forall j :: 0 <= j < cols ==> Dot(F, A[P[j]], x, 0, cols) == F.zero
    ensures forall j :: 0 <= j < k ==> Dot(F, m[P[j]], x, j, cols) == F.zero
  {
    if k > 0 {
      SolvedValues(F, A, m, cols, P, x, k - 1);
      assert Reduced(F, A, m, cols, P[..k - 1], P[k - 1]);
      ReducedWherePivotsVanish(F, A, m, cols, P[..k - 1], P[k - 1], x);
    }
  }

  lemma {:induction false} SolvedZeros<T(!new)>(F: Field<T>, m: seq<seq<T>>, cols: nat, P: seq<nat>, x: seq<T>, k: nat)
    requires IsField(F) && IsMatrix(m, |m|, cols) && IsPivotList(P, |m|) && cols <= |P| && |x| == cols && k <= cols
    requires Diagonal(F, m, cols, P, cols)
    requires forall j :: 0 <= j < cols ==> Dot(F, m[P[j]], x, j, cols) == F.zero
    ensures forall j :: k <= j < cols ==> x[j] == F.zero
    decreases cols - k
  {
    if k < cols {
      SolvedZeros(F, m, cols, P, x, k + 1);
      var row := m[P[k]];
      DotPeelLeft(F, row, x, k, cols);
      DotZero(F, row, x, k + 1, cols);
      AddZero(F, F.mul(row[k], x[k]));
      MulZero(F, F.inv(row[k]));
      InvMul(F, x[k], row[k]);
    }
  }

  lemma SolvedIsRegular<T(!new)>(F: Field<T>, A: seq<seq<T>>, m: seq<seq<T>>, cols: nat, P: seq<nat>)
    requires IsField(F) && Solved(F, A, m, cols, P) && IsMatrix(A, |m|, cols)
    ensures FullColumnRank(F, A, cols)
  {
    forall x: seq<T> | |x| == cols && InKernel(F, A, x)
      ensures forall j :: 0 <= j < cols ==> x[j] == F.zero
    {
      SolvedValues(F, A, m, cols, P, x, cols);
      SolvedZeros(F, m, cols, P, x, 0);
    }
  }

  /** The marked rows alone determine the unknowns. */
  ghost predicate MarkedRank<T(!new)>(F: Field<T>, A: seq<seq<T>>, marked: seq<bool>, cols: nat)
    requires IsMatrix(A, |A|, cols)
  {
    && |marked| == |A|
    && forall x: seq<T> :: |x| == cols && MarkedVanish(F, A, marked, x) ==> forall j :: 0 <= j < cols ==> x[j] == F.zero
  }

  ghost predicate MarkedVanish<T>(F: Field<T>, A: seq<seq<T>>, marked: seq<bool>, x: seq<T>)
    requires IsMatrix(A, |A|, |x|) && |marked| == |A|
  {
    forall r :: 0 <= r < |A| && marked[r] ==> Dot(F, A[r], x, 0, |x|) == F.zero
  }

  /** The pivot rows of a complete factorization do. */
  lemma PivotsAreRegular<T(!new)>(F: Field<T>, A: seq<seq<T>>, m: seq<seq<T>>, cols: nat, P: seq<nat>,
      marked: seq<bool>)
    requires IsField(F) && Solved(F, A, m, cols, P) && IsMatrix(A, |m|, cols)
    requires |marked| == |m| && forall k :: 0 <= k < cols ==> marked[P[k]]
    ensures MarkedRank(F, A, marked, cols)
  {
    forall x: seq<T> | |x| == cols && MarkedVanish(F, A, marked, x)
      ensures forall j :: 0 <= j < cols ==> x[j] == F.zero
    {
      SolvedValues(F, A, m, cols, P, x, cols);
      SolvedZeros(F, m, cols, P, x, 0);
    }
  }
}
