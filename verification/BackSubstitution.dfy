/** Recovering the lost packets from a factored recovery matrix. */
module BackSubstitutions {
  import opened Fields
  import opened LinearAlgebra
  import opened Factorization
  import opened RecoveryMatrices
  import opened Options
  import opened Buffers

  // ----- the lower triangle

  /** What is left of row P[k] at x once the first i multipliers have been applied. */
  function Residual<T>(F: Field<T>, A: seq<seq<T>>, m: seq<seq<T>>, P: seq<nat>, k: nat, i: nat, x: seq<T>): T
    requires IsMatrix(A, |m|, |x|) && IsMatrix(m, |m|, |x|) && IsPivotList(P, |m|)
    requires k < |P| && i <= |P| && i <= |x|
  {
    F.add(Dot(F, A[P[k]], x, 0, |x|), Dot(F, m[P[k]], PivotValues(F, m, P[..i], x), 0, i))
  }

  lemma ResidualStart<T(!new)>(F: Field<T>, A: seq<seq<T>>, m: seq<seq<T>>, P: seq<nat>, k: nat, x: seq<T>)
    requires IsField(F) && IsMatrix(A, |m|, |x|) && IsMatrix(m, |m|, |x|) && IsPivotList(P, |m|) && k < |P|
    ensures Residual(F, A, m, P, k, 0, x) == Dot(F, A[P[k]], x, 0, |x|)
  {
    AddZero(F, Dot(F, A[P[k]], x, 0, |x|));
  }

  /** After all multipliers of a row only its part of the upper triangle is left. */
  lemma ResidualEnd<T(!new)>(F: Field<T>, A: seq<seq<T>>, m: seq<seq<T>>, P: seq<nat>, k: nat, x: seq<T>)
    requires IsField(F) && IsMatrix(A, |m|, |x|) && IsMatrix(m, |m|, |x|) && IsPivotList(P, |m|)
    requires k < |P| && k <= |x|
    requires Reduced(F, A, m, |x|, P[..k], P[k])
    ensures Residual(F, A, m, P, k, k, x) == Dot(F, m[P[k]], x, k, |x|)
  {
    assert ReducedAt(F, A, m, P[..k], P[k], x);
    var low, high := Dot(F, m[P[k]], PivotValues(F, m, P[..k], x), 0, k), Dot(F, m[P[k]], x, k, |x|);
    AddComm(F, low, high);
    AddCancel(F, high, low);
  }

  lemma ResidualStep<T(!new)>(F: Field<T>, A: seq<seq<T>>, m: seq<seq<T>>, P: seq<nat>, k: nat, i: nat, x: seq<T>)
    requires IsField(F) && IsMatrix(A, |m|, |x|) && IsMatrix(m, |m|, |x|) && IsPivotList(P, |m|)
    requires k < |P| && i < |P| && i < |x|
    requires Reduced(F, A, m, |x|, P[..i], P[i])
    ensures Residual(F, A, m, P, k, i + 1, x) ==
              F.add(Residual(F, A, m, P, k, i, x), F.mul(m[P[k]][i], Residual(F, A, m, P, i, i, x)))
  {
    ResidualEnd(F, A, m, P, i, x);
    var u, v := PivotValues(F, m, P[..i], x), PivotValues(F, m, P[..i + 1], x);
    assert forall t :: 0 <= t < i ==> u[t] == v[t];
    DotCong(F, m[P[k]], m[P[k]], u, v, 0, i);
    AddAssoc(F, Dot(F, A[P[k]], x, 0, |x|), Dot(F, m[P[k]], u, 0, i), F.mul(m[P[k]][i], v[i]));
  }

  /** The buffer holds the residual of row P[k] at every byte position, and is long enough for
      every packet that takes part in it. */
  ghost predicate Holds<T(!new)>(F: Field<T>, A: seq<seq<T>>, m: seq<seq<T>>, P: seq<nat>, xs: seq<seq<T>>, k: nat,
      i: nat, buf: seq<T>)
  {
    && IsMatrix(A, |m|, |xs|) && IsMatrix(m, |m|, |xs|) && IsPivotList(P, |m|)
    && k < |P| && i <= |P| && i <= |xs|
    && (forall pos: nat :: HoldsAt(F, A, m, P, xs, k, i, buf, pos))
    && (forall c: nat :: c < |xs| ==> LongEnough(F, A, m, P, xs, k, i, buf, c))
  }

  ghost predicate HoldsAt<T>(F: Field<T>, A: seq<seq<T>>, m: seq<seq<T>>, P: seq<nat>, xs: seq<seq<T>>, k: nat, i: nat,
      buf: seq<T>, pos: nat)
    requires IsMatrix(A, |m|, |xs|) && IsMatrix(m, |m|, |xs|) && IsPivotList(P, |m|)
    requires k < |P| && i <= |P| && i <= |xs|
  {
    At(F, buf, pos) == Residual(F, A, m, P, k, i, Slice(F, xs, pos))
  }

  ghost predicate LongEnough<T>(F: Field<T>, A: seq<seq<T>>, m: seq<seq<T>>, P: seq<nat>, xs: seq<seq<T>>, k: nat,
      i: nat, buf: seq<T>, c: nat)
    requires IsMatrix(A, |m|, |xs|) && IsMatrix(m, |m|, |xs|) && IsPivotList(P, |m|)
    requires k < |P| && i <= |P| && i <= |xs| && c < |xs|
  {
    Residual(F, A, m, P, k, i, Unit(F, |xs|, c)) != F.zero ==> |xs[c]| <= |buf|
  }

  /** One step of the lower-triangle product, for one row. */
  lemma HoldsStep<T(!new)>(F: Field<T>, A: seq<seq<T>>, m: seq<seq<T>>, P: seq<nat>, xs: seq<seq<T>>, k: nat, i: nat,
      buf: seq<T>, src: seq<T>)
    requires IsField(F) && i < |xs|
    requires Holds(F, A, m, P, xs, k, i, buf) && Holds(F, A, m, P, xs, i, i, src)
    requires Reduced(F, A, m, |xs|, P[..i], P[i])
    ensures var y := m[P[k]][i];
            Holds(F, A, m, P, xs, k, i + 1,
              if y == F.zero then buf else MulAddMem(F, GrowZeroPadded(F, buf, |src|), y, src, |src|))
  {
    hide Reduced;
    var y := m[P[k]][i];
    var grown := GrowZeroPadded(F, buf, |src|);
    var buf' := if y == F.zero then buf else MulAddMem(F, grown, y, src, |src|);
    var next := i + 1;
    forall pos: nat ensures HoldsAt(F, A, m, P, xs, k, next, buf', pos) {
      var x := Slice(F, xs, pos);
      assert HoldsAt(F, A, m, P, xs, k, i, buf, pos) && HoldsAt(F, A, m, P, xs, i, i, src, pos);
      ResidualStep(F, A, m, P, k, i, x);
      if y == F.zero {
        MulZero(F, At(F, src, pos));
        AddZero(F, At(F, buf, pos));
      } else {
        MulAddMemAt(F, grown, y, src, pos);
      }
    }
    forall c: nat | c < |xs| ensures LongEnough(F, A, m, P, xs, k, next, buf', c) {
      LongEnoughStep(F, A, m, P, xs, k, i, buf, src, buf', c);
    }
  }

  lemma LongEnoughStep<T(!new)>(F: Field<T>, A: seq<seq<T>>, m: seq<seq<T>>, P: seq<nat>, xs: seq<seq<T>>, k: nat,
      i: nat, buf: seq<T>, src: seq<T>, buf': seq<T>, c: nat)
    requires IsField(F) && c < |xs|
    requires Holds(F, A, m, P, xs, k, i, buf) && Holds(F, A, m, P, xs, i, i, src) && i < |xs|
    requires Reduced(F, A, m, |xs|, P[..i], P[i])
    requires |buf| <= |buf'| && (m[P[k]][i] != F.zero ==> |src| <= |buf'|)
    ensures LongEnough(F, A, m, P, xs, k, i + 1, buf', c)
  {
    hide Reduced;
    var e := Unit(F, |xs|, c);
    assert LongEnough(F, A, m, P, xs, k, i, buf, c) && LongEnough(F, A, m, P, xs, i, i, src, c);
    ResidualStep(F, A, m, P, k, i, e);
    var rk, ri, y := Residual(F, A, m, P, k, i, e), Residual(F, A, m, P, i, i, e), m[P[k]][i];
    if rk == F.zero && (y == F.zero || ri == F.zero) {
      MulZero(F, y);
      MulZero(F, ri);
      AddZero(F, F.zero);
    }
  }

  // ----- the upper triangle

  /** The buffer holds the part of row P[k] of the upper triangle in the columns k .. hi-1. */
  ghost predicate Triangular<T>(F: Field<T>, m: seq<seq<T>>, P: seq<nat>, xs: seq<seq<T>>, k: nat, hi: nat, buf: seq<T>)
  {
    && IsMatrix(m, |m|, |xs|) && IsPivotList(P, |m|) && k < |P| && hi <= |xs|
    && (forall pos: nat :: At(F, buf, pos) == Dot(F, m[P[k]], Slice(F, xs, pos), k, hi))
    && (forall c :: k <= c < |xs| && m[P[k]][c] != F.zero ==> |xs[c]| <= |buf|)
  }

  lemma TriangularStart<T(!new)>(F: Field<T>, A: seq<seq<T>>, m: seq<seq<T>>, P: seq<nat>, xs: seq<seq<T>>, k: nat,
      buf: seq<T>)
    requires IsField(F) && Holds(F, A, m, P, xs, k, k, buf) && Reduced(F, A, m, |xs|, P[..k], P[k])
    ensures Triangular(F, m, P, xs, k, |xs|, buf)
  {
    hide Reduced;
    forall pos: nat ensures At(F, buf, pos) == Dot(F, m[P[k]], Slice(F, xs, pos), k, |xs|) {
      assert HoldsAt(F, A, m, P, xs, k, k, buf, pos);
      ResidualEnd(F, A, m, P, k, Slice(F, xs, pos));
    }
    forall c | k <= c < |xs| && m[P[k]][c] != F.zero ensures |xs[c]| <= |buf| {
      assert LongEnough(F, A, m, P, xs, k, k, buf, c);
      ResidualEnd(F, A, m, P, k, Unit(F, |xs|, c));
      DotUnit(F, m[P[k]], c, k);
    }
  }

  /** Removing a recovered packet from a row above it. */
  lemma TriangularStep<T(!new)>(F: Field<T>, m: seq<seq<T>>, P: seq<nat>, xs: seq<seq<T>>, k: nat, i: nat, buf: seq<T>)
    requires IsField(F) && k < i < |xs| && Triangular(F, m, P, xs, k, i + 1, buf)
    ensures m[P[k]][i] != F.zero ==> |xs[i]| <= |buf|
    ensures var x := m[P[k]][i];
            Triangular(F, m, P, xs, k, i, if x == F.zero then buf else MulAddMem(F, buf, x, xs[i], |xs[i]|))
  {
    var x := m[P[k]][i];
    var buf' := if x == F.zero then buf else MulAddMem(F, buf, x, xs[i], |xs[i]|);
    forall pos: nat ensures At(F, buf', pos) == Dot(F, m[P[k]], Slice(F, xs, pos), k, i) {
      var d, t := Dot(F, m[P[k]], Slice(F, xs, pos), k, i), F.mul(x, At(F, xs[i], pos));
      assert At(F, buf, pos) == F.add(d, t);
      if x == F.zero {
        MulZero(F, At(F, xs[i], pos));
        AddZero(F, d);
      } else {
        MulAddMemAt(F, buf, x, xs[i], pos);
        AddCancel(F, d, t);
      }
    }
  }

  /** Once only the diagonal is left, dividing by it reveals the packet. */
  lemma TriangularReveal<T(!new)>(F: Field<T>, m: seq<seq<T>>, P: seq<nat>, xs: seq<seq<T>>, i: nat, buf: seq<T>)
    requires IsField(F) && i < |xs| && Triangular(F, m, P, xs, i, i + 1, buf) && m[P[i]][i] != F.zero
    ensures |xs[i]| <= |buf|
    ensures forall pos :: 0 <= pos < |buf| ==> F.mul(F.inv(m[P[i]][i]), buf[pos]) == At(F, xs[i], pos)
  {
    var y := m[P[i]][i];
    forall pos | 0 <= pos < |buf| ensures F.mul(F.inv(y), buf[pos]) == At(F, xs[i], pos) {
      assert At(F, buf, pos) == buf[pos];
      var x := Slice(F, xs, pos);
      assert Dot(F, m[P[i]], x, i, i) == F.zero;
      AddZero(F, F.mul(y, x[i]));
      InvMul(F, x[i], y);
    }
  }

  // ----- the two passes over the buffers of the recovery packets

  /** The prefix of a buffer that is decoded first, to find the embedded length. */
  const LENGTH_CHECK_BYTES: nat := ALIGNMENT_BYTES

  /** `parse` reads the length of a packet, with its length field, off the front of a buffer;
      the packet x says its own length, however many zeros follow it. */
  ghost predicate Framed<T>(F: Field<T>, parse: seq<T> -> Option<nat>, x: seq<T>) {
    forall n: nat :: n >= |x| ==> FramedIn(F, parse, x, n)
  }

  ghost predicate FramedIn<T>(F: Field<T>, parse: seq<T> -> Option<nat>, x: seq<T>, n: nat)
    requires n >= |x|
  {
    parse(GrowZeroPadded(F, x, n)[..Min(LENGTH_CHECK_BYTES, n)]) == Some(|x|)
  }

  method MultiplyLowerTriangle<T(==, 0, !new)>(matrix: RecoveryMatrix<T>, buffers: array<seq<T>>, ghost xs: seq<seq<T>>)
    requires matrix.Complete() && matrix.columns == |xs| > 0 && buffers.Length == matrix.rows
    requires forall k :: 0 <= k < |xs| ==>
               Holds(matrix.F, matrix.A, matrix.m, matrix.pivots, xs, k, 0, buffers[matrix.pivots[k]])
    modifies buffers
    ensures matrix.Complete()
    ensures forall k :: 0 <= k < |xs| ==>
              Triangular(matrix.F, matrix.m, matrix.pivots, xs, k, |xs|, buffers[matrix.pivots[k]])
  {
    hide Holds, Reduced, Triangular, ZeroPast, IsField;
    var columns, F := matrix.columns, matrix.F;
    ghost var A, m, P := matrix.A, matrix.m, matrix.pivots;
    for i := 0 to columns - 1
      invariant matrix.Complete()
      invariant forall k :: 0 <= k < columns ==> Holds(F, A, m, P, xs, k, Min(k, i), buffers[P[k]])
    {
      var src := buffers[matrix.pivots[i]];
      assert Holds(F, A, m, P, xs, i, Min(i, i), src);
      for j := i + 1 to columns
        invariant matrix.Complete() && buffers[P[i]] == src
        invariant forall k :: 0 <= k < columns ==>
                    Holds(F, A, m, P, xs, k, if k < j then Min(k, i + 1) else i, buffers[P[k]])
      {
        var row := matrix.pivots[j];
        var y := matrix.data[row, i];
        assert Holds(F, A, m, P, xs, j, i, buffers[P[j]]);
        HoldsStep(F, A, m, P, xs, j, i, buffers[row], src);
        if y != F.zero {
          buffers[row] := MulAddMem(F, GrowZeroPadded(F, buffers[row], |src|), y, src, |src|);
        }
      }
    }
    forall k | 0 <= k < columns ensures Triangular(F, m, P, xs, k, |xs|, buffers[P[k]]) {
      assert Holds(F, A, m, P, xs, k, Min(k, columns - 1), buffers[P[k]]);
      TriangularStart(F, A, m, P, xs, k, buffers[P[k]]);
    }
  }

  method BackSubstitution<T(==, 0, !new)>(matrix: RecoveryMatrix<T>, buffers: array<seq<T>>,
      parse: seq<T> -> Option<nat>, ghost xs: seq<seq<T>>)
    returns (ok: bool, recovered: array<seq<T>>)
    requires matrix.Complete() && matrix.columns == |xs| > 0 && buffers.Length == matrix.rows
    requires forall k :: 0 <= k < |xs| ==>
               Triangular(matrix.F, matrix.m, matrix.pivots, xs, k, |xs|, buffers[matrix.pivots[k]])
    requires forall j :: 0 <= j < |xs| ==> |xs[j]| > 0 && Framed(matrix.F, parse, xs[j])
    modifies buffers
    ensures ok && recovered[..] == xs
  {
    hide Framed, Triangular, ZeroPast, IsField, Solved;
    var columns, F := matrix.columns, matrix.F;
    ghost var m, P := matrix.m, matrix.pivots;
    SolvedShape(F, matrix.A, m, columns, P);
    recovered := new seq<T>[columns];
    var i := columns;
    while i > 0
      invariant 0 <= i <= columns && matrix.Complete()
      invariant fresh(recovered) && recovered.Length == columns
      invariant forall k :: 0 <= k < i ==> Triangular(F, m, P, xs, k, i, buffers[P[k]])
      invariant forall k :: i <= k < columns ==> recovered[k] == xs[k]
    {
      i := i - 1;
      var packet := RevealPacket(matrix, i, buffers[matrix.pivots[i]], parse, xs);
      if packet.None? {
        return false, recovered;
      }
      recovered[i] := packet.value;
      EliminateAbove(matrix, buffers, i, packet.value, xs);
    }
    ok := true;
    assert recovered[..] == xs;
  }

  /** Divides by the diagonal, first the front of the buffer and, once the length is known, the
      rest of the packet. */
  method RevealPacket<T(==, 0, !new)>(matrix: RecoveryMatrix<T>, i: nat, recovery: seq<T>,
      parse: seq<T> -> Option<nat>, ghost xs: seq<seq<T>>)
    returns (packet: Option<seq<T>>)
    requires matrix.Complete() && i < matrix.columns == |xs|
    requires Triangular(matrix.F, matrix.m, matrix.pivots, xs, i, i + 1, recovery)
    requires |xs[i]| > 0 && Framed(matrix.F, parse, xs[i])
    ensures packet == Some(xs[i])
  {
    hide Framed, Triangular, ZeroPast, IsField, Solved;
    var F, row := matrix.F, matrix.pivots[i];
    SolvedShape(F, matrix.A, matrix.m, matrix.columns, matrix.pivots);
    RevealInTwoParts(F, matrix.m, matrix.pivots, xs, i, recovery, parse);
    var inv := F.inv(matrix.data[row, i]);
    var check := Min(LENGTH_CHECK_BYTES, |recovery|);
    var buffer := MulMem(F, recovery, inv, 0, check);
    var length := parse(buffer[..check]);
    if length.None? || length.value == 0 || length.value > |buffer| {
      return None;
    }
    if length.value > check {
      buffer := MulMem(F, buffer, inv, check, length.value);
    }
    return Some(buffer[..length.value]);
  }

  /** Removes a recovered packet from the pivot rows above it. */
  method EliminateAbove<T(==, 0, !new)>(matrix: RecoveryMatrix<T>, buffers: array<seq<T>>, i: nat, packet: seq<T>,
      ghost xs: seq<seq<T>>)
    requires matrix.Complete() && i < matrix.columns == |xs| && buffers.Length == matrix.rows && packet == xs[i]
    requires forall k :: 0 <= k < i ==>
               Triangular(matrix.F, matrix.m, matrix.pivots, xs, k, i + 1, buffers[matrix.pivots[k]])
    modifies buffers
    ensures forall k :: 0 <= k < i ==>
              Triangular(matrix.F, matrix.m, matrix.pivots, xs, k, i, buffers[matrix.pivots[k]])
  {
    hide Triangular, ZeroPast, IsField, Solved;
    var F := matrix.F;
    ghost var m, P := matrix.m, matrix.pivots;
    for k := 0 to i
      invariant matrix.Complete()
      invariant forall h :: 0 <= h < k ==> Triangular(F, m, P, xs, h, i, buffers[P[h]])
      invariant forall h :: k <= h < i ==> Triangular(F, m, P, xs, h, i + 1, buffers[P[h]])
    {
      var pivot := matrix.pivots[k];
      var x := matrix.data[pivot, i];
      TriangularStep(F, m, P, xs, k, i, buffers[pivot]);
      if x != F.zero {
        buffers[pivot] := MulAddMem(F, buffers[pivot], x, packet, Min(|packet|, |buffers[pivot]|));
      }
    }
  }

  lemma SolvedShape<T(!new)>(F: Field<T>, A: seq<seq<T>>, m: seq<seq<T>>, cols: nat, P: seq<nat>)
    requires Solved(F, A, m, cols, P)
    ensures IsMatrix(m, |m|, cols) && IsPivotList(P, |m|) && cols <= |P|
    ensures Diagonal(F, m, cols, P, cols)
  {
  }

  /** Decoding the front of the buffer, reading the length, and decoding the rest up to it
      gives exactly the lost packet. */
  lemma RevealInTwoParts<T(!new)>(F: Field<T>, m: seq<seq<T>>, P: seq<nat>, xs: seq<seq<T>>, i: nat, buffer: seq<T>,
      parse: seq<T> -> Option<nat>)
    requires IsField(F) && i < |xs| && Triangular(F, m, P, xs, i, i + 1, buffer) && m[P[i]][i] != F.zero
    requires Framed(F, parse, xs[i])
    ensures var inv := F.inv(m[P[i]][i]);
            var check := Min(LENGTH_CHECK_BYTES, |buffer|);
            var front := MulMem(F, buffer, inv, 0, check);
            var whole := if |xs[i]| > check then MulMem(F, front, inv, check, |xs[i]|) else front;
            && |xs[i]| <= |buffer| && parse(front[..check]) == Some(|xs[i]|)
            && whole[..|xs[i]|] == xs[i]
  {
    TriangularReveal(F, m, P, xs, i, buffer);
    var inv := F.inv(m[P[i]][i]);
    var check := Min(LENGTH_CHECK_BYTES, |buffer|);
    var front := MulMem(F, buffer, inv, 0, check);
    assert FramedIn(F, parse, xs[i], |buffer|);
    var padded := GrowZeroPadded(F, xs[i], |buffer|);
    forall pos | 0 <= pos < check ensures front[pos] == padded[pos] {
      assert At(F, padded, pos) == At(F, xs[i], pos);
    }
    assert front[..check] == padded[..check];
  }
}
