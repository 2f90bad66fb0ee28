/** Eliminating the received packets from a recovery packet, and what that leaves. */
module Elimination {
  import opened Options
  import opened Fields
  import opened LinearAlgebra
  import opened Buffers
  import opened Columns
  import opened Recovery
  import opened LaneSums
  import opened Encoders
  import opened Rows

  /** Sums up the received packets of one lane. */
  method SumLane<T(!new)>(code: Code<T>, received: seq<seq<T>>, lane: nat, s: nat, start: nat)
    returns (sum: seq<T>, next: nat)
    requires IsField(code.F) && lane < LANE_COUNT && s < SUM_COUNT && start <= |received|
    ensures IsLaneSum(code, received, lane, s, start, next, sum)
    ensures |received| <= next < |received| + LANE_COUNT && next % LANE_COUNT == lane
  {
    hide IsField, IsLaneSum, Wrap;
    next, sum := GetNextLaneElement(start, lane), [];
    EmptyLaneSum(code, received, lane, s, 0, start);
    while next < |received|
      invariant start <= next < |received| + LANE_COUNT && next % LANE_COUNT == lane
      invariant IsLaneSum(code, received, lane, s, start, next, sum)
    {
      var original := received[next];
      ghost var before := sum;
      sum := GrowZeroPadded(code.F, sum, |original|);
      if s == 0 {
        sum := AddMem(code.F, sum, original, |original|);
      } else {
        var CX := code.elem(GetColumnValue(Wrap(next)));
        if s == 2 {
          CX := code.F.mul(CX, CX);
        }
        sum := MulAddMem(code.F, sum, CX, original, |original|);
      }
      LaneSumStep(code, received, lane, s, start, next, before, sum);
      next := next + LANE_COUNT;
    }
  }

  /** The buffer is the payload plus a workspace. */
  ghost predicate IsPlus<T>(F: Field<T>, buffer: seq<T>, payload: seq<T>, workspace: seq<T>) {
    && |buffer| == |payload| == |workspace|
    && forall pos :: 0 <= pos < |buffer| ==> buffer[pos] == F.add(payload[pos], workspace[pos])
  }

  lemma PlusAddMem<T(!new)>(F: Field<T>, buffer: seq<T>, payload: seq<T>, workspace: seq<T>, x: seq<T>, bytes: nat)
    requires IsField(F) && IsPlus(F, buffer, payload, workspace) && bytes <= |buffer| && bytes <= |x|
    ensures IsPlus(F, AddMem(F, buffer, x, bytes), payload, AddMem(F, workspace, x, bytes))
  {
    forall pos | 0 <= pos < bytes
      ensures F.add(buffer[pos], x[pos]) == F.add(payload[pos], F.add(workspace[pos], x[pos]))
    {
      AddAssoc(F, payload[pos], workspace[pos], x[pos]);
    }
  }

  lemma PlusMulAddMem<T(!new)>(F: Field<T>, buffer: seq<T>, payload: seq<T>, workspace: seq<T>, y: T, x: seq<T>,
      bytes: nat)
    requires IsField(F) && IsPlus(F, buffer, payload, workspace) && bytes <= |buffer| && bytes <= |x|
    ensures IsPlus(F, MulAddMem(F, buffer, y, x, bytes), payload, MulAddMem(F, workspace, y, x, bytes))
  {
    forall pos | 0 <= pos < bytes
      ensures F.add(buffer[pos], F.mul(y, x[pos])) == F.add(payload[pos], F.add(workspace[pos], F.mul(y, x[pos])))
    {
      AddAssoc(F, payload[pos], workspace[pos], F.mul(y, x[pos]));
    }
  }

  lemma PlusZero<T(!new)>(F: Field<T>, payload: seq<T>)
    requires IsField(F)
    ensures IsPlus(F, payload, payload, GrowZeroPadded(F, [], |payload|))
  {
    forall pos | 0 <= pos < |payload|
      ensures payload[pos] == F.add(payload[pos], GrowZeroPadded(F, [], |payload|)[pos])
    {
      assert At(F, GrowZeroPadded(F, [], |payload|), pos) == At(F, [], pos);
      AddZero(F, payload[pos]);
    }
  }

  /** The dense part of the received packets, for three bits of the operation codes. */
  method EliminateDense<T(!new)>(code: Code<T>, row: nat, shift: nat, received: seq<seq<T>>, start: nat,
      payload: seq<T>)
    returns (buffer: seq<T>, ghost workspace: seq<T>)
    requires IsField(code.F) && start <= |received|
    ensures IsPlus(code.F, buffer, payload, workspace)
    ensures IsDense(code, row, shift, received, start, LANE_COUNT, 0, workspace)
  {
    hide IsField, IsLaneSum, Wrap, IsPlus, IsDense;
    buffer, workspace := payload, GrowZeroPadded(code.F, [], |payload|);
    PlusZero(code.F, payload);
    DenseEmpty(code, row, shift, received, start, |payload|);
    for lane := 0 to LANE_COUNT
      invariant IsPlus(code.F, buffer, payload, workspace)
      invariant IsDense(code, row, shift, received, start, lane, 0, workspace)
    {
      for s := 0 to SUM_COUNT
        invariant IsPlus(code.F, buffer, payload, workspace)
        invariant IsDense(code, row, shift, received, start, lane, s, workspace)
      {
        if Bit(code.opcode(lane, row), shift + s) {
          buffer, workspace := EliminateSum(code, row, shift, received, start, lane, s, payload, buffer, workspace);
        } else {
          DenseSkipSum(code, row, shift, received, start, lane, s, workspace);
        }
      }
      DenseNext(code, row, shift, received, start, lane, workspace);
    }
  }

  method EliminateSum<T(!new)>(code: Code<T>, row: nat, shift: nat, received: seq<seq<T>>, start: nat, lane: nat,
      s: nat, ghost payload: seq<T>, buffer0: seq<T>, ghost workspace0: seq<T>)
    returns (buffer: seq<T>, ghost workspace: seq<T>)
    requires IsField(code.F) && start <= |received| && lane < LANE_COUNT && s < SUM_COUNT
    requires Bit(code.opcode(lane, row), shift + s)
    requires IsPlus(code.F, buffer0, payload, workspace0)
             && IsDense(code, row, shift, received, start, lane, s, workspace0)
    ensures IsPlus(code.F, buffer, payload, workspace)
            && IsDense(code, row, shift, received, start, lane, s + 1, workspace)
  {
    hide IsField, IsLaneSum, Wrap, IsDense;
    var sum, next := SumLane(code, received, lane, s, start);
    var bytes := if |sum| > |buffer0| then |buffer0| else |sum|;
    DenseAddSum(code, row, shift, received, start, lane, s, workspace0, next, sum);
    PlusAddMem(code.F, buffer0, payload, workspace0, sum, bytes);
    buffer, workspace := AddMem(code.F, buffer0, sum, bytes), AddMem(code.F, workspace0, sum, bytes);
  }

  /** Adds the received packets of the drawn pairs. */
  method EliminateLight<T(!new)>(code: Code<T>, row: nat, which: nat, ldpcCount: nat, received: seq<seq<T>>, start: nat,
      ghost payload: seq<T>, buffer0: seq<T>, ghost workspace0: seq<T>)
    returns (buffer: seq<T>, ghost workspace: seq<T>)
    requires IsField(code.F) && 0 < ldpcCount && start + ldpcCount <= |received|
    requires forall c :: |received| - ldpcCount <= c < |received| ==> |received[c]| <= |payload|
    requires IsPlus(code.F, buffer0, payload, workspace0)
    requires IsDense(code, row, 3 * which, received, start, LANE_COUNT, 0, workspace0)
    ensures IsPlus(code.F, buffer, payload, workspace)
    ensures IsLight(code, row, which, ldpcCount, received, start, PairCount(ldpcCount), workspace)
  {
    hide IsField, Wrap, IsDense, IsLight;
    buffer, workspace := buffer0, workspace0;
    LightEmpty(code, row, which, ldpcCount, received, start, workspace);
    for i := 0 to PairCount(ldpcCount)
      invariant IsPlus(code.F, buffer, payload, workspace)
      invariant IsLight(code, row, which, ldpcCount, received, start, i, workspace)
    {
      var original := received[|received| - ldpcCount + Drawn(code, row, ldpcCount, i, which)];
      var bytes := Min(|original|, |buffer|);
      LightAddPacket(code, row, which, ldpcCount, received, start, i, workspace);
      PlusAddMem(code.F, buffer, payload, workspace, original, bytes);
      buffer, workspace := AddMem(code.F, buffer, original, bytes), AddMem(code.F, workspace, original, bytes);
    }
  }

  /** A Siamese row: the dense and light parts of the received packets, the multiplied half in a
      product workspace of its own. */
  method EliminateSiamese<T(!new)>(code: Code<T>, meta: Metadata, received: seq<seq<T>>, payload: seq<T>)
    returns (buffer: seq<T>)
    requires IsField(code.F) && 0 < meta.ldpcCount <= meta.sumCount <= |received| && meta.sumCount > CAUCHY_THRESHOLD
    requires forall c :: |received| - meta.ldpcCount <= c < |received| ==> |received[c]| <= |payload|
    ensures |buffer| == |payload|
    ensures forall pos :: 0 <= pos < |buffer| ==>
              buffer[pos] == code.F.add(payload[pos],
                  Combination(code, meta, |received| - meta.sumCount, |received|, received, pos))
  {
    hide IsField, Wrap, IsDense, IsLight, Combination;
    var F, start, row := code.F, |received| - meta.sumCount, meta.row;
    ghost var plain, workspace;
    buffer, plain := EliminateDense(code, row, 0, received, start, payload);
    buffer, plain := EliminateLight(code, row, 0, meta.ldpcCount, received, start, payload, buffer, plain);
    var zeros := GrowZeroPadded(F, [], |payload|);
    var product;
    product, workspace := EliminateDense(code, row, 3, received, start, zeros);
    product, workspace := EliminateLight(code, row, 1, meta.ldpcCount, received, start, zeros, product, workspace);
    PlusOfZeros(F, product, workspace);
    var RX := code.elem(GetRowValue(row));
    WorkspacesCombine(code, meta, received, start, plain, product);
    PlusMulAddMem(F, buffer, payload, plain, RX, product, |product|);
    buffer := MulAddMem(F, buffer, RX, product, |product|);
  }

  lemma PlusOfZeros<T(!new)>(F: Field<T>, buffer: seq<T>, workspace: seq<T>)
    requires IsField(F) && IsPlus(F, buffer, GrowZeroPadded(F, [], |buffer|), workspace)
    ensures buffer == workspace
  {
    forall pos | 0 <= pos < |buffer| ensures buffer[pos] == workspace[pos] {
      assert At(F, GrowZeroPadded(F, [], |buffer|), pos) == At(F, [], pos);
      AddZero(F, workspace[pos]);
    }
  }

  /** A parity or Cauchy row: each received packet times its coefficient. */
  method EliminateCauchy<T(!new)>(code: Code<T>, meta: Metadata, received: seq<seq<T>>, payload: seq<T>)
    returns (buffer: seq<T>)
    requires IsField(code.F) && 0 < meta.ldpcCount == meta.sumCount <= |received| && meta.sumCount <= CAUCHY_THRESHOLD
    requires forall c :: |received| - meta.ldpcCount <= c < |received| ==> |received[c]| <= |payload|
    ensures |buffer| == |payload|
    ensures forall pos :: 0 <= pos < |buffer| ==>
              buffer[pos] == code.F.add(payload[pos],
                  Combination(code, meta, |received| - meta.sumCount, |received|, received, pos))
  {
    hide IsField, Wrap, IsPartial, Combination;
    var F, start := code.F, |received| - meta.sumCount;
    buffer := payload;
    ghost var workspace := GrowZeroPadded(F, [], |payload|);
    PlusZero(F, payload);
    NoTerms(code, meta, received, start, |payload|);
    for c := start to |received|
      invariant IsPlus(F, buffer, payload, workspace)
      invariant IsPartial(code, meta, received, start, c, workspace)
    {
      var original := received[c];
      var bytes := Min(|original|, |buffer|);
      if meta.row == 0 {
        NextTerm(code, meta, received, start, c, workspace, AddMem(F, workspace, original, bytes));
        PlusAddMem(F, buffer, payload, workspace, original, bytes);
        buffer, workspace := AddMem(F, buffer, original, bytes), AddMem(F, workspace, original, bytes);
      } else {
        var y := CauchyElement(code, meta.row - 1, Wrap(c) % CAUCHY_MAX_COLUMNS);
        NextTerm(code, meta, received, start, c, workspace, MulAddMem(F, workspace, y, original, bytes));
        PlusMulAddMem(F, buffer, payload, workspace, y, original, bytes);
        buffer, workspace := MulAddMem(F, buffer, y, original, bytes), MulAddMem(F, workspace, y, original, bytes);
      }
    }
    PartialIsCombination(code, meta, received, start, workspace);
  }

  lemma NoTerms<T>(code: Code<T>, meta: Metadata, hist: seq<seq<T>>, start: int, n: nat)
    requires meta.ldpcCount > 0
    ensures IsPartial(code, meta, hist, start, start, GrowZeroPadded(code.F, [], n))
  {
    forall pos | 0 <= pos < n ensures GrowZeroPadded(code.F, [], n)[pos] == code.F.zero {
      assert At(code.F, GrowZeroPadded(code.F, [], n), pos) == At(code.F, [], pos);
    }
  }

  /** Eliminates the received packets from a recovery packet; lost packets are empty in `received`. */
  method EliminateOriginalData<T(!new)>(code: Code<T>, meta: Metadata, received: seq<seq<T>>, payload: seq<T>)
    returns (buffer: seq<T>)
    requires IsField(code.F) && 0 < meta.ldpcCount <= meta.sumCount <= |received|
    requires meta.sumCount <= CAUCHY_THRESHOLD ==> meta.ldpcCount == meta.sumCount
    requires forall c :: |received| - meta.ldpcCount <= c < |received| ==> |received[c]| <= |payload|
    ensures |buffer| == |payload|
    ensures forall pos :: 0 <= pos < |buffer| ==>
              buffer[pos] == code.F.add(payload[pos],
                  Combination(code, meta, |received| - meta.sumCount, |received|, received, pos))
  {
    if meta.sumCount <= CAUCHY_THRESHOLD {
      buffer := EliminateCauchy(code, meta, received, payload);
    } else {
      buffer := EliminateSiamese(code, meta, received, payload);
    }
  }

  // ----- what is left

  /** Which packets have been received: a lost packet is empty, any other is as it was sent. */
  ghost predicate ReceivedAllBut<T>(hist: seq<seq<T>>, received: seq<seq<T>>, lost: seq<nat>, start: nat) {
    && |received| == |hist| && start <= |hist|
    && forall c :: start <= c < |hist| ==> received[c] == if c in lost then [] else hist[c]
  }

  function LostPackets<T>(hist: seq<seq<T>>, lost: seq<nat>): (xs: seq<seq<T>>)
    requires forall j :: 0 <= j < |lost| ==> lost[j] < |hist|
    ensures |xs| == |lost| && forall j :: 0 <= j < |lost| ==> xs[j] == hist[lost[j]]
  {
    seq(|lost|, j requires 0 <= j < |lost| => hist[lost[j]])
  }

  /** The contribution of the lost packets alone. */
  function LostTermAt<T>(code: Code<T>, meta: Metadata, end: int, hist: seq<seq<T>>, lost: seq<nat>, pos: nat,
      c: int): T
    requires meta.ldpcCount > 0
  {
    if c in lost then TermAt(code, meta, end, hist, pos, c) else code.F.zero
  }

  function LostTerm<T>(code: Code<T>, meta: Metadata, end: int, hist: seq<seq<T>>, lost: seq<nat>, pos: nat): int -> T
    requires meta.ldpcCount > 0
  {
    c => LostTermAt(code, meta, end, hist, lost, pos, c)
  }

  /** Subtracting the received packets leaves the lost ones. */
  lemma EliminationLeavesLost<T(!new)>(code: Code<T>, meta: Metadata, hist: seq<seq<T>>, received: seq<seq<T>>,
      lost: seq<nat>, start: nat, pos: nat)
    requires IsField(code.F) && meta.ldpcCount > 0 && ReceivedAllBut(hist, received, lost, start)
    ensures code.F.add(Combination(code, meta, start, |hist|, hist, pos),
              Combination(code, meta, start, |hist|, received, pos)) ==
            Sum(code.F, LostTerm(code, meta, |hist|, hist, lost, pos), start, |hist|)
  {
    hide IsField, Coefficient;
    var F, end := code.F, |hist|;
    var f, g, h := Term(code, meta, end, hist, pos), Term(code, meta, end, received, pos),
      LostTerm(code, meta, end, hist, lost, pos);
    forall c | start <= c < end ensures h(c) == F.add(f(c), g(c)) {
      assert h(c) == LostTermAt(code, meta, end, hist, lost, pos, c);
      assert f(c) == TermAt(code, meta, end, hist, pos, c) && g(c) == TermAt(code, meta, end, received, pos, c);
      MulZero(F, Coefficient(code, meta, end, c));
      AddZero(F, f(c));
      AddSelf(F, f(c));
    }
    SumAdd(F, f, g, h, start, end);
  }

  /** The sum over the lost packets is the product of the matrix row with the lost packets. */
  lemma {:induction false} LostSumIsDot<T(!new)>(code: Code<T>, meta: Metadata, hist: seq<seq<T>>, end: nat,
      lost: seq<nat>, xs: seq<seq<T>>, start: nat, pos: nat, hi: nat, n: nat)
    requires IsField(code.F) && meta.ldpcCount > 0 && Ascending(lost) && end <= |hist|
    requires start <= hi <= end && n <= |lost|
    requires forall j :: 0 <= j < n ==> start <= lost[j] < hi
    requires forall j :: n <= j < |lost| ==> hi <= lost[j] < |hist|
    requires |xs| == |lost| && forall j :: 0 <= j < |lost| ==> xs[j] == hist[lost[j]]
    ensures Sum(code.F, LostTerm(code, meta, end, hist, lost, pos), start, hi) ==
            Dot(code.F, RowOf(code, meta, end, lost), Slice(code.F, xs, pos), 0, n)
    decreases hi
  {
    hide IsField, Coefficient;
    if start < hi {
      var c := hi - 1;
      var F, f := code.F, LostTerm(code, meta, end, hist, lost, pos);
      assert f(c) == LostTermAt(code, meta, end, hist, lost, pos, c);
      if n > 0 && lost[n - 1] == c {
        LostSumIsDot(code, meta, hist, end, lost, xs, start, pos, c, n - 1);
      } else {
        assert c !in lost;
        LostSumIsDot(code, meta, hist, end, lost, xs, start, pos, c, n);
        AddZero(F, Sum(F, f, start, c));
      }
    }
  }
}
