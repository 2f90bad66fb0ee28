/** The decoder's recovery matrix: one row per recovery packet, one column per lost packet.

    Gaussian elimination works in place.  An entry that has been cleared holds the multiplier
    that cleared it, rows are exchanged only through the list of pivots, and each row operation
    stops at the column count of the pivot row. */
module RecoveryMatrices {
  import opened Fields
  import opened LinearAlgebra
  import opened Factorization

  class RecoveryMatrix<T(==, 0, !new)> {
    const F: Field<T>

    var data: array2<T>
    var rows: nat
    var columns: nat

    /** Rows[i].MatrixColumnCount and Rows[i].UsedForSolution */
    var columnCount: seq<nat>
    var used: seq<bool>

    var pivots: seq<nat>
    var resumePivot: nat

    /** The contents of the used part of `data`. */
    ghost var m: seq<seq<T>>

    /** The coefficients the matrix was filled with, before any elimination. */
    ghost var A: seq<seq<T>>

    ghost predicate Stored()
      reads this, data
    {
      && rows <= data.Length0 && columns <= data.Length1
      && IsMatrix(m, rows, columns)
      && (forall i, j :: 0 <= i < rows && 0 <= j < columns ==> data[i, j] == m[i][j])
    }

    ghost predicate Shaped()
      reads this, data
    {
      && IsField(F) && Stored()
      && IsMatrix(A, rows, columns)
      && |pivots| == rows && IsPivotList(pivots, rows)
      && |used| == rows
      && ZeroPast(F, m, columns, columnCount)
    }

    /** Exactly the first p pivot rows are marked as used for the solution. */
    ghost predicate UsedExactly(p: nat)
      reads this
    {
      && |pivots| == |used| == rows && IsPivotList(pivots, rows)
      && forall k :: 0 <= k < rows ==> (used[pivots[k]] <==> k < p)
    }

    /** The first p pivots have been determined and applied to every other row. */
    ghost predicate Progress(p: nat)
      reads this, data
    {
      && Shaped() && p <= columns <= rows
      && Factored(F, A, m, columns, pivots, p)
      && Diagonal(F, m, columns, pivots, p)
    }

    /** No elimination has happened yet. */
    ghost predicate Untouched()
      reads this
    {
      && m == A && Monotone(columnCount)
      && |pivots| == rows && forall k :: 0 <= k < rows ==> pivots[k] == k
    }

    /** The state between two attempts to solve. */
    ghost predicate Valid()
      reads this, data
    {
      && Progress(resumePivot) && UsedExactly(resumePivot)
      && (resumePivot == 0 ==> Untouched())
      && (resumePivot > 0 ==> resumePivot < columns && m[pivots[resumePivot]][resumePivot] == F.zero)
    }

    /** The state after a successful attempt. */
    ghost predicate Complete()
      reads this, data
    {
      && Shaped() && columns <= rows
      && Solved(F, A, m, columns, pivots)
      && UsedExactly(columns)
    }

    constructor (F: Field<T>)
      requires IsField(F)
      ensures Valid() && this.F == F && rows == 0 && columns == 0 && A == [] && columnCount == []
      ensures fresh(data)
    {
      this.F := F;
      data := new T[0, 0];
      rows, columns, resumePivot := 0, 0, 0;
      columnCount, used, pivots := [], [], [];
      m, A := [], [];
    }

    /** Reset to the initial empty state. */
    method Reset()
      requires IsField(F)
      modifies this
      ensures Valid() && rows == 0 && columns == 0 && A == [] && columnCount == [] && resumePivot == 0
              && data == old(data)
    {
      rows, columns, resumePivot := 0, 0, 0;
      columnCount, used, pivots := [], [], [];
      m, A := [], [];
    }

    /** Clears one entry of the row `rem` with the pivot row `ge`. */
    method EliminateRow(ge: nat, rem: nat, p: nat, columnEnd: nat) returns (changed: bool)
      requires IsField(F) && Stored() && ge < rows && rem < rows && ge != rem && p < columns && columnEnd <= columns
      requires m[ge][p] != F.zero
      requires forall j :: columnEnd <= j < columns ==> m[ge][j] == F.zero
      modifies this`m, data
      ensures Stored()
      ensures changed == (old(m)[rem][p] != F.zero)
      ensures m == old(m)[rem := EliminatedRow(F, old(m)[ge], old(m)[rem], p)]
    {
      var valJ := data[rem, p];
      if valJ == F.zero {
        EliminatedRowOfZero(F, m[ge], m[rem], p);
        return false;
      }
      var y := F.Div(valJ, data[ge, p]);
      data[rem, p] := y;
      ghost var row := EliminatedRow(F, m[ge], m[rem], p);
      for j := p + 1 to columnEnd
        invariant m == old(m)
        invariant forall i, k :: 0 <= i < rows && 0 <= k < columns && i != rem ==> data[i, k] == m[i][k]
        invariant forall k :: 0 <= k < j ==> data[rem, k] == row[k]
        invariant forall k :: j <= k < columns ==> data[rem, k] == m[rem][k]
      {
        data[rem, j] := F.add(data[rem, j], F.mul(y, data[ge, j]));
      }
      forall k | columnEnd <= k < columns ensures row[k] == m[rem][k] {
        MulZero(F, y);
        AddZero(F, m[rem][k]);
      }
      m := m[rem := row];
      changed := true;
    }

    /** Eliminates pivot p from the row at position kk, and grows that row's column count if the
        pivot row reaches further to the right. */
    method EliminateAt(p: nat, kk: nat)
      requires Shaped() && p < kk < rows && p < columns && m[pivots[p]][p] != F.zero
      requires PartlyFactored(F, A, m, columns, pivots, p, kk)
      modifies this`m, this`columnCount, data
      ensures Shaped()
      ensures PartlyFactored(F, A, m, columns, pivots, p, kk + 1)
      ensures m == old(m)[pivots[kk] := m[pivots[kk]]]
    {
      hide Reduced, PartlyFactored;
      var q, r := pivots[p], pivots[kk];
      assert q != r;
      var pivotColumnCount := columnCount[q];
      ghost var before := m;
      EliminateOne(F, A, m, columns, pivots, p, kk);
      var changed := EliminateRow(q, r, p, pivotColumnCount);
      if changed {
        EliminateZeroPast(F, before, columns, columnCount, q, r, p);
        if columnCount[r] < pivotColumnCount {
          columnCount := columnCount[r := pivotColumnCount];
        } else {
          assert columnCount == columnCount[r := columnCount[r]];
        }
      } else {
        EliminatedRowOfZero(F, before[q], before[r], p);
        assert m == before;
      }
    }

    /** Looks for a row that can serve as pivot p, from position `start` on. */
    method FindPivot(p: nat, start: nat) returns (j: nat)
      requires Shaped() && p < columns && start <= rows
      ensures start <= j <= rows
      ensures forall k :: start <= k < j ==> m[pivots[k]][p] == F.zero
      ensures j < rows ==> m[pivots[j]][p] != F.zero
    {
      j := start;
      while j < rows && data[pivots[j], p] == F.zero
        invariant start <= j <= rows
        invariant forall k :: start <= k < j ==> m[pivots[k]][p] == F.zero
      {
        j := j + 1;
      }
    }

    /** Carries the elimination on with pivoting, from a pivot whose own row is known to be
        zero in the pivot column. */
    method PivotedGaussianElimination(start: nat) returns (ok: bool)
      requires Progress(start) && UsedExactly(start) && resumePivot <= start < columns
      requires m[pivots[start]][start] == F.zero
      requires start == 0 ==> Untouched()
      modifies this, data
      ensures data == old(data) && rows == old(rows) && columns == old(columns) && A == old(A)
      ensures ok ==> Complete()
      ensures !ok ==>
                Valid() && old(resumePivot) <= resumePivot < columns
                  && (resumePivot == 0 ==> columnCount == old(columnCount))
      ensures ok <==> FullColumnRank(F, A, columns)
    {
      hide Reduced, Factored, FullColumnRank, ZeroPast, Solved;
      var p := start;
      var from := start + 1;
      while true
        invariant data == old(data) && rows == old(rows) && columns == old(columns) && A == old(A)
        invariant resumePivot == old(resumePivot)
        invariant start <= p < columns && Progress(p) && UsedExactly(p)
        invariant p <= from <= p + 1
        invariant from == p + 1 ==> m[pivots[p]][p] == F.zero
        invariant p == start ==> from == p + 1
        invariant p == 0 ==> Untouched() && columnCount == old(columnCount)
        decreases columns - p
      {
        var j := FindPivot(p, from);
        if j == rows {
          resumePivot := p;
          StuckIsSingular(F, A, m, columns, pivots, p);
          return false;
        }
        ChoosePivot(p, j);
        if p == columns - 1 {
          SolvedAtLastPivot(p);
          SolvedIsRegular(F, A, m, columns, pivots);
          return true;
        }
        EliminateBelow(p);
        p := p + 1;
        from := p;
      }
    }

    /** Puts the row at position j in position p of the pivot order and marks it as used. */
    method ChoosePivot(p: nat, j: nat)
      requires Progress(p) && UsedExactly(p) && p < columns && p <= j < rows
      requires m[pivots[j]][p] != F.zero
      modifies this`pivots, this`used
      ensures Progress(p) && UsedExactly(p + 1)
      ensures m[pivots[p]][p] != F.zero
    {
      hide Reduced, Factored, ZeroPast;
      SwapPivots(F, A, m, columns, pivots, p, j);
      pivots := pivots[p := pivots[j]][j := pivots[p]];
      used := used[pivots[p] := true];
    }

    lemma SolvedAtLastPivot(p: nat)
      requires Progress(p) && UsedExactly(p + 1) && p + 1 == columns
      requires m[pivots[p]][p] != F.zero
      ensures Complete()
    {
      forall k | 0 <= k < columns ensures Reduced(F, A, m, columns, pivots[..k], pivots[k]) {
        assert (if k <= p then k else p) == k;
      }
    }

    /** Eliminates pivot p from every row after it. */
    method EliminateBelow(p: nat)
      requires Progress(p) && UsedExactly(p + 1) && p + 1 < columns
      requires m[pivots[p]][p] != F.zero
      modifies this`m, this`columnCount, data
      ensures Progress(p + 1) && UsedExactly(p + 1)
    {
      hide Reduced, Factored, PartlyFactored, ZeroPast;
      StartPivot(F, A, m, columns, pivots, p);
      for kk := p + 1 to rows
        invariant Shaped() && PartlyFactored(F, A, m, columns, pivots, p, kk)
        invariant Diagonal(F, m, columns, pivots, p) && m[pivots[p]][p] != F.zero
        invariant UsedExactly(p + 1)
      {
        EliminateAt(p, kk);
      }
      FinishPivot(F, A, m, columns, pivots, p);
    }

    /** Attempts to factor the matrix.  Succeeds exactly when the columns are independent. */
    method GaussianElimination() returns (ok: bool)
      requires Valid() && columns > 0
      modifies this, data
      ensures data == old(data) && rows == old(rows) && columns == old(columns) && A == old(A)
      ensures ok ==> Complete()
      ensures !ok ==>
                Valid() && old(resumePivot) <= resumePivot < columns
                  && (resumePivot == 0 ==> columnCount == old(columnCount))
      ensures ok <==> FullColumnRank(F, A, columns)
    {
      hide Reduced, Factored, FullColumnRank, ZeroPast, Solved;
      if resumePivot > 0 {
        ok := PivotedGaussianElimination(resumePivot);
        return;
      }
      var p := 0;
      while p < columns
        invariant data == old(data) && rows == old(rows) && columns == old(columns) && A == old(A) && resumePivot == 0
        invariant columnCount == old(columnCount) && pivots == old(pivots)
        invariant p <= columns && Progress(p) && UsedExactly(p)
        invariant p == 0 ==> m == A
        decreases columns - p
      {
        if data[p, p] == F.zero {
          ok := PivotedGaussianElimination(p);
          return;
        }
        used := used[p := true];
        EliminateInOrder(p);
        p := p + 1;
      }
      SolvedWhenFactored();
      SolvedIsRegular(F, A, m, columns, pivots);
      ok := true;
    }

    lemma SolvedWhenFactored()
      requires Progress(columns) && UsedExactly(columns)
      ensures Complete()
    {
      forall k | 0 <= k < columns ensures Reduced(F, A, m, columns, pivots[..k], pivots[k]) {
        assert (if k <= columns then k else columns) == k;
      }
    }

    /** The inner loop of the elimination without pivoting: the counts grow down the rows, so
        no count has to be updated. */
    method EliminateInOrder(p: nat)
      requires Progress(p) && p < columns && m[p][p] != F.zero
      requires Monotone(columnCount) && forall k :: 0 <= k < rows ==> pivots[k] == k
      requires UsedExactly(p + 1)
      modifies this`m, data
      ensures Progress(p + 1) && UsedExactly(p + 1)
    {
      hide Reduced, Factored, PartlyFactored;
      StartPivot(F, A, m, columns, pivots, p);
      for kk := p + 1 to rows
        invariant Shaped() && PartlyFactored(F, A, m, columns, pivots, p, kk)
        invariant Diagonal(F, m, columns, pivots, p) && m[p][p] != F.zero
      {
        ghost var before := m;
        EliminateOne(F, A, m, columns, pivots, p, kk);
        var changed := EliminateRow(p, kk, p, columnCount[p]);
        if changed {
          EliminateZeroPast(F, before, columns, columnCount, p, kk, p);
          assert columnCount == columnCount[kk := columnCount[kk]];
        } else {
          EliminatedRowOfZero(F, before[p], before[kk], p);
          assert m == before;
        }
      }
      FinishPivot(F, A, m, columns, pivots, p);
    }

    // ----- growing the matrix between two attempts

    /** Makes room for the given size and keeps the entries that are already there. */
    method Resize(newRows: nat, newColumns: nat)
      requires Stored() && rows <= newRows && columns <= newColumns
      modifies this`data
      ensures Stored() && newRows <= data.Length0 && newColumns <= data.Length1
      ensures data == old(data) || fresh(data)
    {
      if newRows <= data.Length0 && newColumns <= data.Length1 {
        return;
      }
      var buffer := new T[newRows + EXTRA_ROWS, NextAligned(newColumns + MIN_EXTRA_COLUMNS)];
      for i := 0 to rows
        invariant data == old(data)
        invariant forall r, j :: 0 <= r < i && 0 <= j < columns ==> buffer[r, j] == m[r][j]
      {
        for j := 0 to columns
          invariant data == old(data)
          invariant forall r, k :: 0 <= r < i && 0 <= k < columns ==> buffer[r, k] == m[r][k]
          invariant forall k :: 0 <= k < j ==> buffer[i, k] == m[i][k]
        {
          buffer[i, j] := data[i, j];
        }
      }
      data := buffer;
    }

    /** Writes the generated coefficients that are not in the matrix yet: whole new rows, and
        the new columns of the old rows. */
    method Fill(gen: seq<seq<T>>, newColumns: nat)
      requires Stored() && rows <= |gen| <= data.Length0 && columns <= newColumns <= data.Length1
      requires IsMatrix(gen, |gen|, newColumns)
      modifies data
      ensures forall i, j :: 0 <= i < |gen| && 0 <= j < newColumns ==> data[i, j] == Grown(m, gen, newColumns)[i][j]
    {
      ghost var want := Grown(m, gen, newColumns);
      var startRow := if newColumns <= columns then rows else 0;
      for i := startRow to |gen|
        invariant forall r, j :: 0 <= r < i && 0 <= j < newColumns ==> data[r, j] == want[r][j]
        invariant forall r, j :: i <= r < rows && 0 <= j < columns ==> data[r, j] == m[r][j]
      {
        var startColumn := if i < rows then columns else 0;
        for j := startColumn to newColumns
          invariant forall r, k :: 0 <= r < i && 0 <= k < newColumns ==> data[r, k] == want[r][k]
          invariant forall r, k :: i <= r < rows && 0 <= k < columns ==> data[r, k] == m[r][k]
          invariant forall k :: startColumn <= k < j ==> data[i, k] == want[i][k]
        {
          data[i, j] := gen[i][j];
        }
      }
    }

    /** Adds the generated rows and columns, without any elimination. */
    method Grow(gen: seq<seq<T>>, newColumns: nat, lost: seq<nat>)
      requires Shaped() && rows <= |gen| == |lost| && columns <= newColumns
      requires IsMatrix(gen, |gen|, newColumns) && ZeroPast(F, gen, newColumns, lost)
      requires forall s, j :: 0 <= s < rows && columns <= j < newColumns ==> gen[s][j] == F.zero
      modifies this, data
      ensures Shaped() && A == gen && rows == |gen| && columns == newColumns && resumePivot == old(resumePivot)
      ensures m == Grown(old(m), gen, newColumns)
      ensures columnCount == old(columnCount) + lost[old(rows)..]
      ensures used == old(used) + seq(rows - old(rows), i => false)
      ensures |pivots| == rows && old(pivots) <= pivots && forall k :: old(rows) <= k < rows ==> pivots[k] == k
      ensures data == old(data) || fresh(data)
    {
      hide ZeroPast, IsField, Grown;
      Resize(|gen|, newColumns);
      Fill(gen, newColumns);
      GrownZeroPast(F, m, columns, columnCount, gen, newColumns, lost);
      var added, first := |gen| - rows, rows;
      m := Grown(m, gen, newColumns);
      A, rows, columns := gen, |gen|, newColumns;
      columnCount := columnCount + lost[first..];
      used := used + seq(added, i => false);
      pivots := pivots + seq(added, i => first + i);
    }

    /** Extends the matrix to the generated coefficients `gen` of all rows; `lost[i]` is the
        number of lost packets that row i can refer to.  The rows that were already there keep
        what elimination has made of them, and the new rows catch up with it. */
    method GenerateMatrix(gen: seq<seq<T>>, newColumns: nat, lost: seq<nat>)
      requires Valid()
      requires IsMatrix(gen, |gen|, newColumns) && newColumns <= |gen| == |lost|
      requires ZeroPast(F, gen, newColumns, lost) && Monotone(lost)
      requires rows <= |gen| && columns <= newColumns ==> Extends(gen, newColumns, lost)
      modifies this, data
      ensures Valid() && A == gen && rows == |gen| && columns == newColumns
      ensures resumePivot == 0 ==> columnCount == lost
      ensures data == old(data) || fresh(data)
    {
      hide Reduced, Factored, ZeroPast, Grown, Solved, IsField;
      if |gen| < rows || newColumns < columns {
        Reset();
        assert columnCount == lost[..rows];
      }
      if resumePivot > 0 {
        GrowAndResume(gen, newColumns, lost);
      } else {
        GrowUntouched(gen, newColumns, lost);
      }
    }

    method GrowAndResume(gen: seq<seq<T>>, newColumns: nat, lost: seq<nat>)
      requires Valid() && resumePivot > 0 && rows <= |gen| == |lost| && columns <= newColumns <= |gen|
      requires IsMatrix(gen, |gen|, newColumns) && ZeroPast(F, gen, newColumns, lost)
      requires Extends(gen, newColumns, lost)
      modifies this, data
      ensures Valid() && A == gen && rows == |gen| && columns == newColumns
      ensures resumePivot == 0 ==> columnCount == lost
      ensures data == old(data) || fresh(data)
    {
      hide Reduced, Factored, ZeroPast, IsField;
      ghost var A0, m0, P0, cols0 := A, m, pivots, columns;
      var oldRows := rows;
      Grow(gen, newColumns, lost);
      assert forall k :: oldRows <= k < rows ==> m[k] == A[k];
      StartResume(F, A0, m0, cols0, P0, resumePivot, A, m, columns, pivots);
      ResumeGE(oldRows);
    }

    method GrowUntouched(gen: seq<seq<T>>, newColumns: nat, lost: seq<nat>)
      requires Valid() && resumePivot == 0 && rows <= |gen| == |lost| && columns <= newColumns <= |gen|
      requires IsMatrix(gen, |gen|, newColumns) && ZeroPast(F, gen, newColumns, lost)
      requires Extends(gen, newColumns, lost) && Monotone(lost)
      modifies this, data
      ensures Valid() && A == gen && rows == |gen| && columns == newColumns
      ensures resumePivot == 0 ==> columnCount == lost
      ensures data == old(data) || fresh(data)
    {
      hide Reduced, Factored, ZeroPast, IsField;
      assert lost == lost[..rows] + lost[rows..];
      Grow(gen, newColumns, lost);
      assert forall k :: 0 <= k < rows ==> m[k] == A[k];
      UntouchedIsFactored(F, A, m, columns, pivots);
    }

    /** The generated coefficients agree with those the matrix already holds, and the old rows do
        not refer to the new columns. */
    ghost predicate Extends(gen: seq<seq<T>>, newColumns: nat, lost: seq<nat>)
      requires IsMatrix(gen, |gen|, newColumns) && |lost| == |gen|
      requires rows <= |gen| && columns <= newColumns
      reads this
    {
      && IsMatrix(A, rows, columns)
      && (forall s, j :: 0 <= s < rows && 0 <= j < newColumns ==> gen[s][j] == if j < columns then A[s][j] else F.zero)
      && (resumePivot == 0 ==> columnCount == lost[..rows])
    }

    /** Lets the rows from `oldRows` on catch up with the pivots that are already determined. */
    method ResumeGE(oldRows: nat)
      requires Shaped() && 0 < resumePivot < columns <= rows && resumePivot < oldRows <= rows
      requires Resuming(F, A, m, columns, pivots, resumePivot, oldRows, 0, oldRows)
      requires Diagonal(F, m, columns, pivots, resumePivot)
      modifies this`m, this`columnCount, data
      ensures Progress(resumePivot)
      ensures m[pivots[resumePivot]] == old(m)[pivots[resumePivot]]
    {
      hide Reduced, Factored, Resuming, ZeroPast;
      for i := 0 to resumePivot
        invariant Shaped() && Resuming(F, A, m, columns, pivots, resumePivot, oldRows, i, oldRows)
        invariant Diagonal(F, m, columns, pivots, resumePivot)
        invariant m[pivots[resumePivot]] == old(m)[pivots[resumePivot]]
      {
        for kk := oldRows to rows
          invariant Shaped() && Resuming(F, A, m, columns, pivots, resumePivot, oldRows, i, kk)
          invariant Diagonal(F, m, columns, pivots, resumePivot)
          invariant m[pivots[resumePivot]] == old(m)[pivots[resumePivot]]
        {
          ResumeAt(i, oldRows, kk);
        }
        NextResumePivot(F, A, m, columns, pivots, resumePivot, oldRows, i);
      }
      FinishResume(F, A, m, columns, pivots, resumePivot, oldRows);
    }

    method ResumeAt(i: nat, oldRows: nat, kk: nat)
      requires Shaped() && i < resumePivot < columns <= rows && resumePivot < oldRows <= kk < rows
      requires m[pivots[i]][i] != F.zero
      requires Resuming(F, A, m, columns, pivots, resumePivot, oldRows, i, kk)
      modifies this`m, this`columnCount, data
      ensures Shaped()
      ensures Resuming(F, A, m, columns, pivots, resumePivot, oldRows, i, kk + 1)
      ensures m == old(m)[pivots[kk] := m[pivots[kk]]]
    {
      hide Reduced, Resuming;
      var q, r := pivots[i], pivots[kk];
      assert q != r;
      var pivotColumnCount := columnCount[q];
      ghost var before := m;
      ResumeOne(F, A, m, columns, pivots, resumePivot, oldRows, i, kk);
      var changed := EliminateRow(q, r, i, pivotColumnCount);
      if changed {
        EliminateZeroPast(F, before, columns, columnCount, q, r, i);
        if columnCount[r] < pivotColumnCount {
          columnCount := columnCount[r := pivotColumnCount];
        } else {
          assert columnCount == columnCount[r := columnCount[r]];
        }
      } else {
        EliminatedRowOfZero(F, before[q], before[r], i);
        assert m == before;
      }
    }
  }

  /** The matrix m inside a larger matrix of generated coefficients. */
  function Grown<T>(m: seq<seq<T>>, gen: seq<seq<T>>, columns: nat): (g: seq<seq<T>>)
    requires IsMatrix(gen, |gen|, columns)
    ensures IsMatrix(g, |gen|, columns)
    ensures forall i, j :: 0 <= i < |gen| && 0 <= j < columns ==>
              g[i][j] == if i < |m| && j < |m[i]| then m[i][j] else gen[i][j]
  {
    seq(|gen|, i requires 0 <= i < |gen| => seq(columns, j requires 0 <= j < columns =>
      if i < |m| && j < |m[i]| then m[i][j] else gen[i][j]))
  }

  lemma GrownZeroPast<T>(F: Field<T>, m: seq<seq<T>>, columns: nat, count: seq<nat>, gen: seq<seq<T>>, newColumns: nat,
      lost: seq<nat>)
    requires ZeroPast(F, m, columns, count) && ZeroPast(F, gen, newColumns, lost)
    requires |m| <= |gen| && columns <= newColumns
    requires forall s, j :: 0 <= s < |m| && columns <= j < newColumns ==> gen[s][j] == F.zero
    ensures ZeroPast(F, Grown(m, gen, newColumns), newColumns, count + lost[|m|..])
  {
    var g, c := Grown(m, gen, newColumns), count + lost[|m|..];
    forall r | 0 <= r < |g| ensures c[r] <= newColumns && c[r] == if r < |m| then count[r] else lost[r] {
    }
    forall r, j | 0 <= r < |g| && c[r] <= j < newColumns ensures g[r][j] == F.zero {
      if r < |m| && j < columns {
        assert m[r][j] == F.zero;
      } else if r >= |m| {
        assert gen[r][j] == F.zero;
      }
    }
  }

  /** Rows and columns that a newly allocated matrix has to spare, and the alignment of its rows. */
  const EXTRA_ROWS: nat := 4
  const MIN_EXTRA_COLUMNS: nat := 4
  const ALIGNMENT_BYTES: nat := 16

  function NextAligned(offset: nat): (r: nat)
    ensures offset <= r < offset + ALIGNMENT_BYTES && r % ALIGNMENT_BYTES == 0
  {
    (offset + ALIGNMENT_BYTES - 1) / ALIGNMENT_BYTES * ALIGNMENT_BYTES
  }
}
