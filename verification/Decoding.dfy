/** From recovery packets to lost packets: one attempt to solve the checked region. */
module Decoding {
  import opened Fields
  import opened LinearAlgebra
  import opened Factorization
  import opened RecoveryMatrices
  import opened Options
  import opened BackSubstitutions
  import opened Buffers
  import opened Columns
  import opened Recovery
  import opened Encoders
  import opened Rows
  import opened Elimination
  import BitSets

  /** A packet made by the encoder whose range, from the start of its light part on, covers or
      precedes every lost packet. */
  ghost predicate Usable<T>(code: Code<T>, hist: seq<seq<T>>, lost: seq<nat>, rec: RecoveryPacket<T>) {
    && rec.end <= |hist|
    && IsRecoveryOf(code, hist[..rec.end], rec.meta, rec.payload)
    && forall j :: 0 <= j < |lost| ==>
         rec.end - rec.meta.ldpcCount <= lost[j] < rec.end - rec.meta.sumCount + COLUMN_PERIOD
  }

  /** Everything in the packet's range that is not lost has been received. */
  ghost predicate Supported<T>(hist: seq<seq<T>>, received: seq<seq<T>>, lost: seq<nat>, rec: RecoveryPacket<T>) {
    && rec.end <= |hist| == |received| && rec.meta.sumCount <= rec.end
    && ReceivedAllBut(hist[..rec.end], received[..rec.end], lost, rec.end - rec.meta.sumCount)
  }

  /** The number of lost packets before the end of a recovery packet. */
  ghost predicate IsLostCount(lost: seq<nat>, end: nat, count: nat) {
    count <= |lost| && forall j :: 0 <= j < |lost| ==> (lost[j] < end <==> j < count)
  }

  /** The recovery packets, in the order of their ends, with the lost packets they face. */
  ghost predicate IsRegion<T>(code: Code<T>, hist: seq<seq<T>>, received: seq<seq<T>>, lost: seq<nat>,
      recs: seq<RecoveryPacket<T>>, counts: seq<nat>) {
    && Ascending(lost) && (forall j :: 0 <= j < |lost| ==> lost[j] < |hist|)
    && |counts| == |recs|
    && (forall i :: 0 <= i < |recs| ==>
          Usable(code, hist, lost, recs[i]) && Supported(hist, received, lost, recs[i])
            && IsLostCount(lost, recs[i].end, counts[i]))
    && (forall i, k :: 0 <= i <= k < |recs| ==> recs[i].end <= recs[k].end)
  }

  ghost predicate IsGenerated<T>(code: Code<T>, recs: seq<RecoveryPacket<T>>, lost: seq<nat>, gen: seq<seq<T>>) {
    && |gen| == |recs|
    && forall i :: 0 <= i < |recs| ==>
         recs[i].meta.ldpcCount > 0 && gen[i] == RowOf(code, recs[i].meta, recs[i].end, lost)
  }

  /** The recovery packets determine the lost ones: the columns of their matrix are independent. */
  ghost predicate Determined<T(!new)>(code: Code<T>, recs: seq<RecoveryPacket<T>>, lost: seq<nat>) {
    exists gen: seq<seq<T>> ::
        IsGenerated(code, recs, lost, gen) && IsMatrix(gen, |gen|, |lost|) && FullColumnRank(code.F, gen, |lost|)
  }

  /** As many rows are used as packets are lost, and they alone determine them. */
  ghost predicate IsBasis<T(!new)>(code: Code<T>, recs: seq<RecoveryPacket<T>>, used: seq<bool>, lost: seq<nat>) {
    && BitSets.PopCount(used) == |lost|
    && exists gen: seq<seq<T>> ::
         IsGenerated(code, recs, lost, gen) && IsMatrix(gen, |gen|, |lost|) && MarkedRank(code.F, gen, used, |lost|)
  }

  /** With no more packets than losses, every row is used. */
  lemma SquareUsesAll<T(!new)>(code: Code<T>, recs: seq<RecoveryPacket<T>>, used: seq<bool>, lost: seq<nat>)
    requires IsBasis(code, recs, used, lost) && |recs| == |lost|
    ensures |used| == |recs| && forall i :: 0 <= i < |used| ==> used[i]
  {
    hide MarkedVanish, BitSets.PopCount;
    BitSets.PopCountBound(used);
  }

  lemma GeneratedIsUnique<T(!new)>(code: Code<T>, recs: seq<RecoveryPacket<T>>, lost: seq<nat>, gen: seq<seq<T>>)
    requires IsGenerated(code, recs, lost, gen) && IsMatrix(gen, |gen|, |lost|)
    ensures Determined(code, recs, lost) <==> FullColumnRank(code.F, gen, |lost|)
  {
    hide FullColumnRank;
    forall other | IsGenerated(code, recs, lost, other) ensures other == gen {
    }
  }

  /** One row determines one lost packet exactly when its coefficient there is not zero. */
  lemma OneRowDetermines<T(!new)>(code: Code<T>, rec: RecoveryPacket<T>, n: nat)
    requires IsField(code.F) && rec.meta.ldpcCount > 0
    ensures Determined(code, [rec], [n]) <==> Entry(code, rec.meta, rec.end, n) != code.F.zero
  {
    var F, gen := code.F, [RowOf(code, rec.meta, rec.end, [n])];
    var a := Entry(code, rec.meta, rec.end, n);
    GeneratedIsUnique(code, [rec], [n], gen);
    hide IsField;
    forall x: seq<T> | |x| == 1 ensures Dot(F, gen[0], x, 0, 1) == F.mul(a, x[0]) {
      assert Dot(F, gen[0], x, 0, 0) == F.zero;
      AddZero(F, F.mul(a, x[0]));
    }
    if a == F.zero {
      MulZero(F, F.one);
      assert InKernel(F, gen, [F.one]);
      FieldHasTwo(F);
    } else {
      forall x: seq<T> | |x| == 1 && InKernel(F, gen, x) ensures x[0] == F.zero {
        assert Dot(F, gen[0], x, 0, 1) == F.zero;
        InvMul(F, x[0], a);
        MulZero(F, F.inv(a));
      }
    }
  }

  /** The same packet twice never determines two lost packets. */
  lemma RepeatedRow<T(!new)>(code: Code<T>, rec: RecoveryPacket<T>, n1: nat, n2: nat)
    requires IsField(code.F) && rec.meta.ldpcCount > 0
    ensures !Determined(code, [rec, rec], [n1, n2])
  {
    var F, row := code.F, RowOf(code, rec.meta, rec.end, [n1, n2]);
    GeneratedIsUnique(code, [rec, rec], [n1, n2], [row, row]);
    FieldHasTwo(F);
    hide IsField;
    var a, b := row[0], row[1];
    var x := if a == F.zero && b == F.zero then [F.one, F.one] else [b, a];
    DotOfTwo(F, row, x);
    MulComm(F, a, b);
    AddSelf(F, F.mul(a, b));
    MulZero(F, F.one);
    AddSelf(F, F.zero);
    assert InKernel(F, [row, row], x);
    assert |x| == 2 && (x[0] != F.zero || x[1] != F.zero);
  }

  lemma DotOfTwo<T(!new)>(F: Field<T>, row: seq<T>, x: seq<T>)
    requires IsField(F) && |row| == |x| == 2
    ensures Dot(F, row, x, 0, 2) == F.add(F.mul(row[0], x[0]), F.mul(row[1], x[1]))
  {
    hide IsField;
    assert Dot(F, row, x, 0, 0) == F.zero;
    AddZero(F, F.mul(row[0], x[0]));
    assert Dot(F, row, x, 0, 1) == F.mul(row[0], x[0]);
  }

  /** A parity packet and one whose coefficients differ determine two lost packets, also when the first one
      is there twice.  A decoder that finds the three together tries the first two and gives up: it does not
      look at the third before another packet arrives. */
  lemma ThirdRowHelps<T(!new)>(code: Code<T>, rec: RecoveryPacket<T>, other: RecoveryPacket<T>, n1: nat, n2: nat)
    requires IsField(code.F) && rec.meta.ldpcCount > 0 && other.meta.ldpcCount > 0
    requires Entry(code, rec.meta, rec.end, n1) == Entry(code, rec.meta, rec.end, n2) == code.F.one
    requires Entry(code, other.meta, other.end, n1) != Entry(code, other.meta, other.end, n2)
    ensures !Determined(code, [rec, rec], [n1, n2]) && Determined(code, [rec, rec, other], [n1, n2])
  {
    RepeatedRow(code, rec, n1, n2);
    var F, lost := code.F, [n1, n2];
    var row, row' := RowOf(code, rec.meta, rec.end, lost), RowOf(code, other.meta, other.end, lost);
    hide IsField, Entry, FullColumnRank;
    GeneratedIsUnique(code, [rec, rec, other], lost, [row, row, row']);
    hide Determined;
    ThreeRows(F, row, row');
  }

  lemma ThreeRows<T(!new)>(F: Field<T>, row: seq<T>, row': seq<T>)
    requires IsField(F) && |row| == |row'| == 2 && row[0] == row[1] == F.one && row'[0] != row'[1]
    ensures FullColumnRank(F, [row, row, row'], 2)
  {
    hide IsField;
    var gen := [row, row, row'];
    forall x: seq<T> | |x| == 2 && InKernel(F, gen, x) ensures x[0] == F.zero && x[1] == F.zero {
      assert Dot(F, gen[0], x, 0, 2) == F.zero && Dot(F, gen[2], x, 0, 2) == F.zero;
      DotOfTwo(F, row, x);
      DotOfTwo(F, row', x);
      OnlyZero(F, row'[0], row'[1], x[0], x[1]);
    }
  }

  lemma OnlyZero<T(!new)>(F: Field<T>, a: T, b: T, x: T, y: T)
    requires IsField(F) && a != b
    requires F.add(F.mul(F.one, x), F.mul(F.one, y)) == F.zero && F.add(F.mul(a, x), F.mul(b, y)) == F.zero
    ensures x == F.zero && y == F.zero
  {
    hide IsField;
    MulOne(F, x);
    MulOne(F, y);
    MulComm(F, F.one, x);
    MulComm(F, F.one, y);
    AddCancel(F, x, y);
    AddZero(F, y);
    assert x == y;
    Distribute(F, x, a, b);
    MulComm(F, a, x);
    MulComm(F, b, x);
    var c := F.add(a, b);
    AddCancel(F, a, b);
    AddZero(F, b);
    assert c != F.zero;
    MulComm(F, x, c);
    InvMul(F, x, c);
    MulZero(F, F.inv(c));
  }

  lemma FieldHasTwo<T(!new)>(F: Field<T>)
    requires IsField(F)
    ensures F.one != F.zero
  {
  }

  /** A matrix left over from an earlier attempt on the first packets of the region. */
  ghost predicate Continues<T(0, !new)>(code: Code<T>, matrix: RecoveryMatrix<T>, recs: seq<RecoveryPacket<T>>,
      lost: seq<nat>, counts: seq<nat>)
    reads matrix
  {
    && matrix.F == code.F && matrix.rows <= |recs| == |counts| && matrix.columns <= |lost|
    && IsGenerated(code, recs[..matrix.rows], lost[..matrix.columns], matrix.A)
    && (forall i, j :: 0 <= i < matrix.rows && matrix.columns <= j < |lost| ==> recs[i].end <= lost[j])
    && (matrix.resumePivot == 0 ==> matrix.columnCount == counts[..matrix.rows])
  }

  lemma GeneratedShape<T(!new)>(code: Code<T>, hist: seq<seq<T>>, received: seq<seq<T>>, lost: seq<nat>,
      recs: seq<RecoveryPacket<T>>, counts: seq<nat>, gen: seq<seq<T>>)
    requires IsRegion(code, hist, received, lost, recs, counts) && IsGenerated(code, recs, lost, gen)
    ensures IsMatrix(gen, |recs|, |lost|) && ZeroPast(code.F, gen, |lost|, counts) && Monotone(counts)
  {
    hide Usable, Supported;
    forall i, j | 0 <= i < |gen| && counts[i] <= j < |lost| ensures gen[i][j] == code.F.zero {
      assert IsLostCount(lost, recs[i].end, counts[i]);
    }
    forall i, k | 0 <= i <= k < |counts| ensures counts[i] <= counts[k] {
      assert IsLostCount(lost, recs[i].end, counts[i]) && IsLostCount(lost, recs[k].end, counts[k]);
      if counts[i] > 0 {
        assert lost[counts[i] - 1] < recs[i].end <= recs[k].end;
      }
    }
  }

  lemma GeneratedExtends<T(0, !new)>(code: Code<T>, matrix: RecoveryMatrix<T>, recs: seq<RecoveryPacket<T>>,
      lost: seq<nat>, counts: seq<nat>, gen: seq<seq<T>>)
    requires matrix.Valid() && Continues(code, matrix, recs, lost, counts)
    requires IsGenerated(code, recs, lost, gen) && IsMatrix(gen, |recs|, |lost|) && Monotone(counts)
    ensures matrix.Extends(gen, |lost|, counts)
  {
    hide Factored, ZeroPast, IsField;
    forall s, j | 0 <= s < matrix.rows && 0 <= j < |lost|
      ensures gen[s][j] == if j < matrix.columns then matrix.A[s][j] else code.F.zero
    {
      assert matrix.A[s]
        == RowOf(code, recs[..matrix.rows][s].meta, recs[..matrix.rows][s].end, lost[..matrix.columns]);
    }
  }

  /** The rows of the recovery matrix. */
  method GenerateRows<T(!new)>(code: Code<T>, recs: seq<RecoveryPacket<T>>, lost: seq<nat>, columnOf: map<nat, nat>,
      ghost hist: seq<seq<T>>) returns (gen: seq<seq<T>>)
    requires IsField(code.F) && Ascending(lost) && IsColumnIndex(lost, columnOf)
    requires forall i :: 0 <= i < |recs| ==> Usable(code, hist, lost, recs[i])
    ensures IsGenerated(code, recs, lost, gen)
  {
    hide IsField, Wrap;
    gen := [];
    for i := 0 to |recs|
      invariant |gen| == i
      invariant forall k :: 0 <= k < i ==>
                  recs[k].meta.ldpcCount > 0 && gen[k] == RowOf(code, recs[k].meta, recs[k].end, lost)
    {
      assert Usable(code, hist, lost, recs[i]);
      var row := GenerateRow(code, recs[i].meta, recs[i].end, lost, columnOf);
      gen := gen + [row];
    }
  }

  /** After eliminating the received packets, the buffer is the product of the matrix row with the
      lost packets, at every byte position. */
  lemma EliminatedIsDot<T(!new)>(code: Code<T>, hist: seq<seq<T>>, received: seq<seq<T>>, lost: seq<nat>,
      rec: RecoveryPacket<T>, count: nat, buffer: seq<T>, pos: nat)
    requires IsField(code.F) && Ascending(lost) && (forall j :: 0 <= j < |lost| ==> lost[j] < |hist|)
    requires Usable(code, hist, lost, rec) && Supported(hist, received, lost, rec) && IsLostCount(lost, rec.end, count)
    requires |buffer| == |rec.payload|
    requires pos < |buffer| ==>
               buffer[pos] == code.F.add(rec.payload[pos],
                   Combination(code, rec.meta, rec.end - rec.meta.sumCount, rec.end, received[..rec.end], pos))
    ensures At(code.F, buffer, pos)
            == Dot(code.F, RowOf(code, rec.meta, rec.end, lost), Slice(code.F, LostPackets(hist, lost), pos), 0, |lost|)
  {
    hide IsField, Wrap, Coefficient, Combination, ReceivedAllBut, Ascending;
    var F, h, xs := code.F, hist[..rec.end], LostPackets(hist, lost);
    var row, x := RowOf(code, rec.meta, rec.end, lost), Slice(F, xs, pos);
    var start := rec.end - rec.meta.sumCount;
    if pos < |buffer| {
      EliminationLeavesLost(code, rec.meta, h, received[..rec.end], lost, start, pos);
      LostTermPrefix(code, rec.meta, hist, rec.end, lost, pos, start);
      LostSumIsRow(code, hist, lost, rec, count, pos);
    } else {
      forall j | 0 <= j < |lost| ensures row[j] == F.zero || x[j] == F.zero {
        LostFits(code, hist, lost, rec, j);
      }
      DotZero(F, row, x, 0, |lost|);
    }
  }

  lemma LostSumIsRow<T(!new)>(code: Code<T>, hist: seq<seq<T>>, lost: seq<nat>, rec: RecoveryPacket<T>, count: nat,
      pos: nat)
    requires IsField(code.F) && Ascending(lost) && (forall j :: 0 <= j < |lost| ==> lost[j] < |hist|)
    requires Usable(code, hist, lost, rec) && IsLostCount(lost, rec.end, count)
    ensures Sum(code.F, LostTerm(code, rec.meta, rec.end, hist, lost, pos), rec.end - rec.meta.sumCount, rec.end) ==
            Dot(code.F, RowOf(code, rec.meta, rec.end, lost), Slice(code.F, LostPackets(hist, lost), pos), 0, |lost|)
  {
    hide IsField, Usable, IsLostCount, Ascending, Coefficient, RowOf, LostTerm, Slice, LostPackets, Rows.Entry, Sum;
    hide Dot, At;
    UsableShape(code, hist, lost, rec);
    LostCountSplits(lost, rec.end, count);
    var xs := LostPackets(hist, lost);
    LostSumIsDot(code, rec.meta, hist, rec.end, lost, xs, rec.end - rec.meta.sumCount, pos, rec.end, count);
    RowZeroPast(code, rec, lost, count);
    DotZeroTail(code.F, RowOf(code, rec.meta, rec.end, lost), Slice(code.F, xs, pos), 0, count, |lost|);
  }

  lemma LostCountSplits(lost: seq<nat>, end: nat, count: nat)
    requires IsLostCount(lost, end, count)
    ensures count <= |lost| && (forall j :: 0 <= j < count ==> lost[j] < end)
            && (forall j :: count <= j < |lost| ==> end <= lost[j])
  {
  }

  lemma UsableShape<T>(code: Code<T>, hist: seq<seq<T>>, lost: seq<nat>, rec: RecoveryPacket<T>)
    requires Usable(code, hist, lost, rec)
    ensures 0 < rec.meta.ldpcCount <= rec.meta.sumCount <= rec.end <= |hist|
    ensures forall j :: 0 <= j < |lost| ==> rec.end - rec.meta.sumCount <= lost[j]
  {
    hide Combination, Wrap;
  }

  /** The row is zero from the first lost packet past the end of its range on. */
  lemma RowZeroPast<T>(code: Code<T>, rec: RecoveryPacket<T>, lost: seq<nat>, count: nat)
    requires rec.meta.ldpcCount > 0 && IsLostCount(lost, rec.end, count)
    ensures forall j :: count <= j < |lost| ==> RowOf(code, rec.meta, rec.end, lost)[j] == code.F.zero
  {
    hide Coefficient;
  }

  /** A recovery packet is long enough for every lost packet it refers to. */
  lemma LostFits<T>(code: Code<T>, hist: seq<seq<T>>, lost: seq<nat>, rec: RecoveryPacket<T>, j: nat)
    requires Usable(code, hist, lost, rec) && j < |lost|
    ensures lost[j] < rec.end ==> lost[j] < |hist| && |hist[lost[j]]| <= |rec.payload|
  {
    hide Combination, Wrap;
    if lost[j] < rec.end {
      assert hist[..rec.end][lost[j]] == hist[lost[j]];
    }
  }

  lemma LostTermPrefix<T>(code: Code<T>, meta: Metadata, hist: seq<seq<T>>, end: nat, lost: seq<nat>, pos: nat,
      start: nat)
    requires meta.ldpcCount > 0 && end <= |hist|
    ensures Sum(code.F, LostTerm(code, meta, end, hist[..end], lost, pos), start, end) ==
            Sum(code.F, LostTerm(code, meta, end, hist, lost, pos), start, end)
  {
    hide Coefficient;
    var f, g := LostTerm(code, meta, end, hist[..end], lost, pos), LostTerm(code, meta, end, hist, lost, pos);
    forall c | start <= c < end ensures f(c) == g(c) {
      assert f(c) == LostTermAt(code, meta, end, hist[..end], lost, pos, c);
      assert g(c) == LostTermAt(code, meta, end, hist, lost, pos, c);
      assert hist[..end][c] == hist[c];
    }
    SumCong(code.F, f, g, start, end);
  }

  /** The buffers are ready for the lower-triangle product. */
  lemma EliminatedHolds<T(!new)>(code: Code<T>, hist: seq<seq<T>>, received: seq<seq<T>>, lost: seq<nat>,
      rec: RecoveryPacket<T>, count: nat, buffer: seq<T>,
      A: seq<seq<T>>, m: seq<seq<T>>, P: seq<nat>, k: nat)
    requires IsField(code.F) && Ascending(lost) && (forall j :: 0 <= j < |lost| ==> lost[j] < |hist|)
    requires Usable(code, hist, lost, rec) && Supported(hist, received, lost, rec) && IsLostCount(lost, rec.end, count)
    requires |buffer| == |rec.payload|
    requires forall pos :: 0 <= pos < |buffer| ==>
               buffer[pos] == code.F.add(rec.payload[pos],
                   Combination(code, rec.meta, rec.end - rec.meta.sumCount, rec.end, received[..rec.end], pos))
    requires IsMatrix(A, |m|, |lost|) && IsMatrix(m, |m|, |lost|) && IsPivotList(P, |m|) && k < |P|
    requires A[P[k]] == RowOf(code, rec.meta, rec.end, lost)
    ensures Holds(code.F, A, m, P, LostPackets(hist, lost), k, 0, buffer)
  {
    hide IsField, Wrap, Coefficient, Combination, Supported, Residual, Usable, IsLostCount, IsRecoveryOf;
    var F, xs := code.F, LostPackets(hist, lost);
    forall pos: nat ensures HoldsAt(F, A, m, P, xs, k, 0, buffer, pos) {
      EliminatedIsDot(code, hist, received, lost, rec, count, buffer, pos);
      ResidualStart(F, A, m, P, k, Slice(F, xs, pos));
    }
    forall c: nat | c < |xs| ensures LongEnough(F, A, m, P, xs, k, 0, buffer, c) {
      ResidualStart(F, A, m, P, k, Unit(F, |xs|, c));
      DotUnit(F, A[P[k]], c, 0);
      LostFits(code, hist, lost, rec, c);
    }
  }

  /** Eliminates the received packets from every recovery packet that the solution uses. */
  method EliminateFromUsed<T(==, 0, !new)>(code: Code<T>, matrix: RecoveryMatrix<T>, recs: seq<RecoveryPacket<T>>,
      received: seq<seq<T>>, ghost hist: seq<seq<T>>, ghost lost: seq<nat>, ghost counts: seq<nat>)
    returns (buffers: array<seq<T>>)
    requires matrix.Complete() && matrix.F == code.F && matrix.rows == |recs| && matrix.columns == |lost|
    requires IsRegion(code, hist, received, lost, recs, counts) && IsGenerated(code, recs, lost, matrix.A)
    ensures fresh(buffers) && buffers.Length == matrix.rows
    ensures forall k :: 0 <= k < |lost| ==>
              Holds(code.F, matrix.A, matrix.m, matrix.pivots, LostPackets(hist, lost), k, 0, buffers[matrix.pivots[k]])
  {
    hide IsField, Wrap, Holds, Combination, Solved, ZeroPast, IsRecoveryOf;
    buffers := new seq<T>[|recs|];
    for i := 0 to |recs|
      invariant matrix.Complete()
      invariant forall h :: 0 <= h < i && matrix.used[h] ==> IsEliminated(code, recs[h], received, buffers[h])
    {
      if matrix.used[i] {
        buffers[i] := EliminatePacket(code, hist, received, lost, recs[i]);
      }
    }
    forall k | 0 <= k < |lost|
      ensures Holds(code.F, matrix.A, matrix.m, matrix.pivots, LostPackets(hist, lost), k, 0, buffers[matrix.pivots[k]])
    {
      var r := matrix.pivots[k];
      assert matrix.used[r] && IsEliminated(code, recs[r], received, buffers[r]);
      EliminatedHolds(code, hist, received, lost, recs[r], counts[r], buffers[r], matrix.A, matrix.m, matrix.pivots, k);
    }
  }

  ghost predicate IsEliminated<T>(code: Code<T>, rec: RecoveryPacket<T>, received: seq<seq<T>>, buffer: seq<T>) {
    && rec.meta.ldpcCount > 0 && rec.end <= |received| && |buffer| == |rec.payload|
    && forall pos :: 0 <= pos < |buffer| ==>
         buffer[pos] == code.F.add(rec.payload[pos],
             Combination(code, rec.meta, rec.end - rec.meta.sumCount, rec.end, received[..rec.end], pos))
  }

  method EliminatePacket<T(!new)>(code: Code<T>, ghost hist: seq<seq<T>>, received: seq<seq<T>>, ghost lost: seq<nat>,
      rec: RecoveryPacket<T>) returns (buffer: seq<T>)
    requires IsField(code.F) && Usable(code, hist, lost, rec) && Supported(hist, received, lost, rec)
    ensures IsEliminated(code, rec, received, buffer)
  {
    hide IsField, Wrap, Combination;
    ghost var h := received[..rec.end];
    forall c | |h| - rec.meta.ldpcCount <= c < |h| ensures |h[c]| <= |rec.payload| {
      assert h[c] == if c in lost then [] else hist[..rec.end][c];
    }
    buffer := EliminateOriginalData(code, rec.meta, received[..rec.end], rec.payload);
  }

  /** As many rows are used as there are pivots. */
  lemma {:induction false} UsedCount(pivots: seq<nat>, used: seq<bool>, p: nat)
    requires IsPivotList(pivots, |used|) && |pivots| == |used| && p <= |pivots|
    requires forall k :: 0 <= k < |pivots| ==> (used[pivots[k]] <==> k < p)
    ensures BitSets.PopCount(used) == p
    decreases p
  {
    hide BitSets.PopCount;
    if p == 0 {
      forall r | 0 <= r < |used| ensures !used[r] {
        PermutationCovers(pivots, |used|, r);
      }
      BitSets.PopCountBound(used);
    } else {
      var r := pivots[p - 1];
      var fewer := used[r := false];
      UsedCount(pivots, fewer, p - 1);
      BitSets.PopCountSet(fewer, r);
      assert fewer[r := true] == used;
    }
  }

  /** One attempt to recover the lost packets.  It succeeds exactly when the columns of the
      recovery matrix are independent, and then it returns exactly the packets that were lost;
      when it fails, the matrix is left in a state from which a larger region can carry on. */
  method DecodeCheckedRegion<T(==, 0, !new)>(code: Code<T>, matrix: RecoveryMatrix<T>, recs: seq<RecoveryPacket<T>>,
      lost: seq<nat>, columnOf: map<nat, nat>, counts: seq<nat>, received: seq<seq<T>>, parse: seq<T> -> Option<nat>,
      ghost hist: seq<seq<T>>)
    returns (result: Option<seq<seq<T>>>)
    requires IsField(code.F) && matrix.Valid() && Continues(code, matrix, recs, lost, counts)
    requires IsRegion(code, hist, received, lost, recs, counts) && 0 < |lost| <= |recs| && IsColumnIndex(lost, columnOf)
    requires forall j :: 0 <= j < |lost| ==> |hist[lost[j]]| > 0 && Framed(code.F, parse, hist[lost[j]])
    modifies matrix, matrix.data
    ensures result.Some? ==> result.value == LostPackets(hist, lost)
    ensures result.None? ==> matrix.Valid() && Continues(code, matrix, recs, lost, counts)
    ensures IsGenerated(code, recs, lost, matrix.A) && IsMatrix(matrix.A, |matrix.A|, |lost|)
    ensures result.Some? <==> Determined(code, recs, lost)
    ensures result.Some? ==> IsBasis(code, recs, matrix.used, lost)
    ensures |matrix.used| == |recs| && (matrix.data == old(matrix.data) || fresh(matrix.data))
  {
    hide IsField, Wrap, Holds, Combination, Solved, ZeroPast, IsRecoveryOf, Factored, Diagonal, FullColumnRank;
    hide Triangular, Framed, Usable, Supported, MarkedRank, BitSets.PopCount;
    var gen := GenerateRows(code, recs, lost, columnOf, hist);
    GeneratedShape(code, hist, received, lost, recs, counts, gen);
    GeneratedExtends(code, matrix, recs, lost, counts, gen);
    GeneratedIsUnique(code, recs, lost, gen);
    hide Determined;
    matrix.GenerateMatrix(gen, |lost|, counts);
    var ok := matrix.GaussianElimination();
    if !ok {
      assert recs[..|recs|] == recs && lost[..|lost|] == lost && counts[..|recs|] == counts;
      return None;
    }
    UsedCount(matrix.pivots, matrix.used, |lost|);
    PivotsAreRegular(code.F, matrix.A, matrix.m, |lost|, matrix.pivots, matrix.used);
    var buffers := EliminateFromUsed(code, matrix, recs, received, hist, lost, counts);
    MultiplyLowerTriangle(matrix, buffers, LostPackets(hist, lost));
    var solved, recovered := BackSubstitution(matrix, buffers, parse, LostPackets(hist, lost));
    return Some(recovered[..]);
  }
}
