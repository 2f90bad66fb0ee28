/** The encoder: a sliding window of unacknowledged packets, and the running sums from which
    recovery packets are made.  The sums outlive the packets they were made from. */
module Encoders {
  import opened Options
  import opened Fields
  import opened Buffers
  import opened Numbers
  import opened Columns
  import opened Recovery
  import opened LaneSums
  import opened Emissions

  datatype EncodeResult<+T> = NeedMoreData | Packet(kind: RowKind, payload: seq<T>, meta: Metadata)

  /** A recovery packet made when exactly the packets in `hist` had been sent: its payload is the
      combination that its metadata describes, and it is long enough for every packet that had
      not been acknowledged. */
  ghost predicate IsRecoveryOf<T>(code: Code<T>, hist: seq<seq<T>>, meta: Metadata, payload: seq<T>) {
    && 1 <= meta.ldpcCount <= meta.sumCount <= MAX_PACKETS && meta.sumCount <= |hist|
    && meta.columnStart == Wrap(|hist| - meta.sumCount)
    && meta.row < ROW_PERIOD && (meta.sumCount == 1 ==> meta.row == 0 && payload == hist[|hist| - 1])
    && (meta.sumCount <= CAUCHY_THRESHOLD ==> meta.ldpcCount == meta.sumCount)
    && (forall pos :: 0 <= pos < |payload| ==>
          payload[pos] == Combination(code, meta, |hist| - meta.sumCount, |hist|, hist, pos))
    && (forall c :: |hist| - meta.ldpcCount <= c < |hist| ==> |hist[c]| <= |payload|)
  }

  /** Every byte of the buffer is the dense part of a row, up to k sums of a lane. */
  ghost predicate IsDense<T>(code: Code<T>, row: nat, shift: nat, hist: seq<seq<T>>, from: int, lane: nat, k: nat,
      buf: seq<T>) {
    forall pos :: 0 <= pos < |buf| ==>
        buf[pos] == Sum(code.F, DenseTerm(code, row, shift, hist, pos, lane, k), from, |hist|)
  }

  lemma DenseAddSum<T(!new)>(code: Code<T>, row: nat, shift: nat, hist: seq<seq<T>>, from: int, lane: nat, k: nat,
      buf: seq<T>, next: int, sum: seq<T>)
    requires IsField(code.F) && lane < LANE_COUNT && k < 3
    requires IsDense(code, row, shift, hist, from, lane, k, buf)
    requires IsLaneSum(code, hist, lane, k, from, next, sum) && from <= |hist| <= next
    requires next % LANE_COUNT == lane && next < |hist| + LANE_COUNT
    requires Bit(code.opcode(lane, row), shift + k)
    ensures var bytes := if |sum| > |buf| then |buf| else |sum|;
            IsDense(code, row, shift, hist, from, lane, k + 1, AddMem(code.F, buf, sum, bytes))
  {
    hide IsField, IsLaneSum;
    var bytes := if |sum| > |buf| then |buf| else |sum|;
    var buf' := AddMem(code.F, buf, sum, bytes);
    forall pos | 0 <= pos < |buf'|
      ensures buf'[pos] == Sum(code.F, DenseTerm(code, row, shift, hist, pos, lane, k + 1), from, |hist|)
    {
      DenseStep(code, row, shift, hist, pos, lane, k, from, |hist|);
      LaneSumTotal(code, hist, lane, k, from, next, sum, pos);
      AddMemAt(code.F, buf, sum, bytes, pos);
    }
  }

  lemma DenseSkipSum<T(!new)>(code: Code<T>, row: nat, shift: nat, hist: seq<seq<T>>, from: int, lane: nat, k: nat,
      buf: seq<T>)
    requires IsField(code.F) && lane < LANE_COUNT && k < 3
    requires IsDense(code, row, shift, hist, from, lane, k, buf)
    requires !Bit(code.opcode(lane, row), shift + k)
    ensures IsDense(code, row, shift, hist, from, lane, k + 1, buf)
  {
    forall pos | 0 <= pos < |buf|
      ensures buf[pos] == Sum(code.F, DenseTerm(code, row, shift, hist, pos, lane, k + 1), from, |hist|)
    {
      DenseStep(code, row, shift, hist, pos, lane, k, from, |hist|);
    }
  }

  lemma DenseNext<T(!new)>(code: Code<T>, row: nat, shift: nat, hist: seq<seq<T>>, from: int, lane: nat, buf: seq<T>)
    requires IsField(code.F) && IsDense(code, row, shift, hist, from, lane, 3, buf)
    ensures IsDense(code, row, shift, hist, from, lane + 1, 0, buf)
  {
    forall pos | 0 <= pos < |buf|
      ensures buf[pos] == Sum(code.F, DenseTerm(code, row, shift, hist, pos, lane + 1, 0), from, |hist|)
    {
      DenseNextLane(code, row, shift, hist, pos, lane, from, |hist|);
    }
  }

  lemma DenseEmpty<T(!new)>(code: Code<T>, row: nat, shift: nat, hist: seq<seq<T>>, from: int, n: nat)
    requires IsField(code.F)
    ensures IsDense(code, row, shift, hist, from, 0, 0, GrowZeroPadded(code.F, [], n))
  {
    var buf := GrowZeroPadded(code.F, [], n);
    forall pos | 0 <= pos < |buf|
      ensures buf[pos] == Sum(code.F, DenseTerm(code, row, shift, hist, pos, 0, 0), from, |hist|)
    {
      DenseStart(code, row, shift, hist, pos, from, |hist|);
      assert At(code.F, buf, pos) == At(code.F, [], pos);
    }
  }

  /** Every byte of the buffer is the dense part of a row plus the light part of n pairs. */
  ghost predicate IsLight<T>(code: Code<T>, row: nat, which: nat, ldpcCount: nat, hist: seq<seq<T>>, from: int, n: nat,
      buf: seq<T>)
    requires ldpcCount > 0
  {
    forall pos :: 0 <= pos < |buf| ==> buf[pos] == LightByte(code, row, which, ldpcCount, hist, from, n, pos)
  }

  function LightByte<T>(code: Code<T>, row: nat, which: nat, ldpcCount: nat, hist: seq<seq<T>>, from: int, n: nat,
      pos: nat): T
    requires ldpcCount > 0
  {
    code.F.add(Sum(code.F, DenseTerm(code, row, 3 * which, hist, pos, LANE_COUNT, 0), from, |hist|),
               Sum(code.F, LightTerm(code, row, ldpcCount, |hist| - ldpcCount, n, which, hist, pos), from, |hist|))
  }

  lemma LightEmpty<T(!new)>(code: Code<T>, row: nat, which: nat, ldpcCount: nat, hist: seq<seq<T>>, from: int,
      buf: seq<T>)
    requires IsField(code.F) && ldpcCount > 0
    requires IsDense(code, row, 3 * which, hist, from, LANE_COUNT, 0, buf)
    ensures IsLight(code, row, which, ldpcCount, hist, from, 0, buf)
  {
    forall pos | 0 <= pos < |buf| ensures buf[pos] == LightByte(code, row, which, ldpcCount, hist, from, 0, pos) {
      LightStart(code, row, ldpcCount, |hist| - ldpcCount, which, hist, pos, from, |hist|);
      AddZero(code.F, buf[pos]);
    }
  }

  lemma LightAddPacket<T(!new)>(code: Code<T>, row: nat, which: nat, ldpcCount: nat, hist: seq<seq<T>>, from: int,
      n: nat, buf: seq<T>)
    requires IsField(code.F) && 0 < ldpcCount && 0 <= from <= |hist| - ldpcCount
    requires IsLight(code, row, which, ldpcCount, hist, from, n, buf)
    requires |hist[|hist| - ldpcCount + Drawn(code, row, ldpcCount, n, which)]| <= |buf|
    ensures var packet := hist[|hist| - ldpcCount + Drawn(code, row, ldpcCount, n, which)];
            IsLight(code, row, which, ldpcCount, hist, from, n + 1, AddMem(code.F, buf, packet, |packet|))
  {
    var first := |hist| - ldpcCount;
    var packet := hist[first + Drawn(code, row, ldpcCount, n, which)];
    var buf' := AddMem(code.F, buf, packet, |packet|);
    forall pos | 0 <= pos < |buf'| ensures buf'[pos] == LightByte(code, row, which, ldpcCount, hist, from, n + 1, pos) {
      LightStep(code, row, ldpcCount, first, n, which, hist, pos, from, |hist|);
      AddMemAt(code.F, buf, packet, |packet|, pos);
      AddAssoc(code.F, Sum(code.F, DenseTerm(code, row, 3 * which, hist, pos, LANE_COUNT, 0), from, |hist|),
        Sum(code.F, LightTerm(code, row, ldpcCount, first, n, which, hist, pos), from, |hist|),
          At(code.F, packet, pos));
    }
  }

  /** The plain and the multiplied workspace together are the combination. */
  lemma WorkspacesCombine<T(!new)>(code: Code<T>, meta: Metadata, hist: seq<seq<T>>, from: int, plain: seq<T>,
      product: seq<T>)
    requires IsField(code.F) && meta.ldpcCount > 0 && meta.sumCount > CAUCHY_THRESHOLD && |plain| == |product|
    requires IsLight(code, meta.row, 0, meta.ldpcCount, hist, from, PairCount(meta.ldpcCount), plain)
    requires IsLight(code, meta.row, 1, meta.ldpcCount, hist, from, PairCount(meta.ldpcCount), product)
    ensures var payload := MulAddMem(code.F, plain, code.elem(GetRowValue(meta.row)), product, |product|);
            forall pos :: 0 <= pos < |payload| ==> payload[pos] == Combination(code, meta, from, |hist|, hist, pos)
  {
    hide IsField, Combination, DenseTerm, LightTerm, Sum, PairCount;
    var payload := MulAddMem(code.F, plain, code.elem(GetRowValue(meta.row)), product, |product|);
    forall pos | 0 <= pos < |payload| ensures payload[pos] == Combination(code, meta, from, |hist|, hist, pos) {
      AssembledIsCombination(code, meta, from, |hist|, hist, pos);
    }
  }

  class Encoder<T(!new)> {
    const code: Code<T>

    // EncoderPacketWindow
    var nextColumn: nat
    var count: nat
    var columnStart: nat
    var longestPacket: nat
    var firstUnremovedElement: nat
    var sumStartElement: nat
    var sumEndElement: nat
    var sumColumnStart: nat
    var sumErasedCount: nat
    var elements: seq<seq<T>>

    /** Lanes[lane].NextElement[sum] and Lanes[lane].Sum[sum] */
    const nextElement: array2<nat>
    const sums: array2<seq<T>>

    var nextRow: nat
    var nextParityColumn: nat
    var nextCauchyRow: nat

    /** All packets ever added, the true numbers of the first element of the window and of the
        first packet in the sums, and the first element of the window that holds a packet. */
    ghost var hist: seq<seq<T>>
    ghost var base: nat
    ghost var sumBase: nat
    ghost var dataStart: nat

    /** All recovery packets ever emitted. */
    ghost var emitted: seq<Emission>

    ghost predicate Valid()
      reads this, nextElement, sums
    {
      && IsField(code.F) && nextElement as object != sums
      && nextElement.Length0 == sums.Length0 == LANE_COUNT && nextElement.Length1 == sums.Length1 == SUM_COUNT
      && nextColumn == Wrap(|hist|) && count <= MAX_PACKETS && base <= |hist|
      && nextRow < ROW_PERIOD && nextCauchyRow < CAUCHY_MAX_ROWS
      && (count > 0 ==> WindowOk() && (sumEndElement > sumStartElement ==> SumsOk()))
    }

    ghost predicate WindowOk()
      reads this
    {
      && base % LANE_COUNT == 0 && columnStart == Wrap(base)
      && base + count == |hist| && |elements| == count
      && dataStart <= firstUnremovedElement < count
      && (forall i :: dataStart <= i < count ==> elements[i] == hist[base + i])
      && (forall i :: firstUnremovedElement <= i < count ==> |elements[i]| <= longestPacket)
    }

    ghost predicate SumsOk()
      reads this, nextElement, sums
    {
      && nextElement.Length0 == sums.Length0 == LANE_COUNT && nextElement.Length1 == sums.Length1 == SUM_COUNT
      && sumColumnStart == Wrap(sumBase)
      && sumBase + sumErasedCount == base + sumStartElement
      && sumStartElement <= sumEndElement <= count
      && sumBase <= base + firstUnremovedElement
      && forall l, s :: 0 <= l < LANE_COUNT && 0 <= s < SUM_COUNT ==> LaneOk(l, s)
    }

    ghost predicate LaneOk(l: nat, s: nat)
      requires l < nextElement.Length0 == sums.Length0 && s < nextElement.Length1 == sums.Length1
      reads this, nextElement, sums
    {
      var next := nextElement[l, s];
      && next % LANE_COUNT == l && dataStart <= next < count + LANE_COUNT
      && sumBase <= base + next
      && IsLaneSum(code, hist, l, s, sumBase, base + next, sums[l, s])
    }

    /** The true number of the first packet that has not been acknowledged. */
    ghost function FirstUnacked(): nat
      reads this
    {
      if count > 0 then base + firstUnremovedElement else |hist|
    }

    /** The packet that the running sum starts with, while it may still grow. */
    ghost function RunningSum(): Option<nat>
      reads this
    {
      if count > 0 && sumEndElement > sumStartElement && |hist| - sumBase < MAX_PACKETS then Some(sumBase) else None
    }

    /** The same once acknowledged packets have been removed: a sum over nothing else stops. */
    ghost function SumToGoOnWith(): Option<nat>
      reads this
    {
      if firstUnremovedElement >= REMOVE_THRESHOLD && sumEndElement <= firstUnremovedElement / 64 * 64 then None
      else RunningSum()
    }

    ghost function Counters(): (seq<Emission>, nat, nat, nat)
      reads this
    {
      (emitted, nextRow, nextParityColumn, nextCauchyRow)
    }

    /** The rows follow in turn, and what has been emitted refers to nothing that has been given up. */
    ghost predicate InTurn()
      reads this
    {
      && LogOk(emitted, |hist|, FirstUnacked(), RunningSum())
      && nextRow == CountOf(emitted, SiameseRow) % 255 && nextCauchyRow == CountOf(emitted, CauchyRow) % 192
      && nextParityColumn == Wrap(ParityEnd(emitted))
      && forall i :: 0 <= i < |emitted| && EndsAt(emitted[i], |hist|) && RunningSum().Some? ==> sumEndElement == count
    }

    constructor (code: Code<T>)
      requires IsField(code.F)
      ensures Valid() && hist == [] && FirstUnacked() == 0 && this.code == code
      ensures InTurn() && emitted == [] && RunningSum() == None
      ensures fresh(nextElement) && fresh(sums)
    {
      this.code := code;
      nextColumn, count, columnStart, longestPacket := 0, 0, 0, 0;
      firstUnremovedElement, sumStartElement, sumEndElement, sumColumnStart, sumErasedCount := 0, 0, 0, 0, 0;
      elements := [];
      nextElement := new nat[LANE_COUNT, SUM_COUNT]((l, s) => l);
      sums := new seq<T>[LANE_COUNT, SUM_COUNT]((l, s) => []);
      nextRow, nextParityColumn, nextCauchyRow := 0, 0, 0;
      hist, base, sumBase, dataStart, emitted := [], 0, 0, 0, [];
    }

    /** Appends a packet, unless the window is full. */
    method Add(packet: seq<T>) returns (ok: bool)
      requires Valid()
      modifies this
      ensures Valid()
      ensures ok == (old(count) < MAX_PACKETS)
      ensures hist == if ok then old(hist) + [packet] else old(hist)
      ensures FirstUnacked() == old(FirstUnacked()) && emitted == old(emitted)
      ensures old(InTurn()) ==> InTurn()
    {
      hide IsField, IsLaneSum, WindowOk, SumsOk, LogOk, CountOf, ParityEnd, Wrap;
      if count >= MAX_PACKETS {
        return false;
      }
      if count > 0 {
        AppendPacket(packet);
      } else {
        StartNewWindow(packet);
      }
      if old(InTurn()) {
        LogKept(emitted, |old(hist)|, FirstUnacked(), old(RunningSum()), |hist|, FirstUnacked(), RunningSum());
        LogEnds(emitted, |old(hist)|, FirstUnacked(), old(RunningSum()));
      }
      ok := true;
    }

    method AppendPacket(packet: seq<T>)
      requires Valid() && 0 < count < MAX_PACKETS
      modifies this`count, this`elements, this`hist, this`nextColumn, this`longestPacket
      ensures Valid() && hist == old(hist) + [packet] && count == old(count) + 1
    {
      hide IsField, IsLaneSum, Wrap;
      if sumEndElement > sumStartElement {
        SumsGrow(packet);
      }
      AddWrapped(|hist|, 1);
      nextColumn := AddColumns(nextColumn, 1);
      count := count + 1;
      elements := elements + [packet];
      hist := hist + [packet];
      if longestPacket < |packet| {
        longestPacket := |packet|;
      }
      if sumEndElement > sumStartElement {
        forall l, s | 0 <= l < LANE_COUNT && 0 <= s < SUM_COUNT ensures LaneOk(l, s) {
          assert old(LaneOk(l, s));
        }
      }
    }

    /** Starts a new window such that elements and columns have the same lane. */
    method StartNewWindow(packet: seq<T>)
      requires Valid() && count == 0
      modifies this
      ensures Valid() && hist == old(hist) + [packet] && count > 0 && FirstUnacked() == |old(hist)|
      ensures Counters() == old(Counters()) && RunningSum() == None
    {
      hide IsField, IsLaneSum, Wrap, SumsOk;
      WindowBase(|hist|);
      AddWrapped(|hist|, 1);
      PlaceFirstPacket(packet, nextColumn % LANE_COUNT);
      nextColumn := AddColumns(nextColumn, 1);
      hist := hist + [packet];
    }

    method PlaceFirstPacket(packet: seq<T>, element: nat)
      requires element <= nextColumn && element <= |hist|
      modifies this`columnStart, this`sumStartElement, this`sumEndElement, this`firstUnremovedElement, this`count,
        this`longestPacket, this`elements, this`base, this`dataStart
      ensures columnStart == nextColumn - element && base == |hist| - element && count == element + 1
      ensures sumStartElement == sumEndElement == firstUnremovedElement == dataStart == element
      ensures longestPacket == |packet| && |elements| == count && elements[element] == packet
    {
      columnStart := nextColumn - element;
      sumStartElement, sumEndElement, firstUnremovedElement := element, element, element;
      count := element + 1;
      longestPacket := |packet|;
      elements := seq(element, i => []) + [packet];
      base, dataStart := |hist| - element, element;
    }

    lemma SumsGrow(packet: seq<T>)
      requires Valid() && count > 0 && SumsOk()
      ensures forall l, s :: 0 <= l < LANE_COUNT && 0 <= s < SUM_COUNT ==>
                IsLaneSum(code, hist + [packet], l, s, sumBase, base + nextElement[l, s], sums[l, s])
    {
      hide IsField, IsLaneSum, Wrap;
      forall l, s | 0 <= l < LANE_COUNT && 0 <= s < SUM_COUNT
        ensures IsLaneSum(code, hist + [packet], l, s, sumBase, base + nextElement[l, s], sums[l, s])
      {
        assert LaneOk(l, s);
        LaneSumGrows(code, hist, packet, l, s, sumBase, base + nextElement[l, s], sums[l, s]);
      }
    }

    /** Marks the packets before an acknowledged column for removal. */
    method RemoveBefore(firstKeptColumn: nat)
      requires Valid()
      modifies this
      ensures Valid() && hist == old(hist) && base == old(base)
      ensures forall n: int ::
                n <= |hist| && Wrap(n) == firstKeptColumn && -(COLUMN_PERIOD / 2) <= n - base < COLUMN_PERIOD / 2 ==>
                FirstUnacked() == if n <= old(FirstUnacked()) then old(FirstUnacked()) else n
      ensures emitted == old(emitted) && (old(InTurn()) ==> InTurn())
    {
      hide IsField, IsLaneSum, LogOk, CountOf, ParityEnd;
      ghost var before, running := FirstUnacked(), RunningSum();
      var firstKeptElement := SubtractColumns(firstKeptColumn, columnStart);
      if firstKeptElement >= count {
        if !IsColumnDeltaNegative(firstKeptElement) {
          count := 0;
        }
      } else if firstUnremovedElement < firstKeptElement {
        firstUnremovedElement := firstKeptElement;
      }
      forall n: int | n <= |hist| && Wrap(n) == firstKeptColumn && -(COLUMN_PERIOD / 2) <= n - base < COLUMN_PERIOD / 2
        ensures FirstUnacked() == if n <= before then before else n
      {
        SubtractWrapped(n, base);
      }
      if count > 0 && sumEndElement > sumStartElement {
        forall l, s | 0 <= l < LANE_COUNT && 0 <= s < SUM_COUNT ensures LaneOk(l, s) {
          assert old(LaneOk(l, s));
        }
      }
      if old(InTurn()) {
        LogKept(emitted, |hist|, before, running, |hist|, FirstUnacked(), RunningSum());
      }
    }

    /** Starts all sums over at the given element. */
    method ResetSums(elementStart: nat)
      requires Valid() && count > 0 && elementStart == firstUnremovedElement
      modifies this`sumStartElement, this`sumEndElement, this`sumColumnStart, this`sumErasedCount, this`sumBase,
        nextElement, sums
      ensures Valid() && SumsOk() && sumBase == base + firstUnremovedElement && sumErasedCount == 0
      ensures sumStartElement == sumEndElement == elementStart
    {
      hide IsField, IsLaneSum, Wrap;
      ResetLanes(elementStart);
      sumStartElement, sumEndElement := elementStart, elementStart;
      sumColumnStart := AddColumns(elementStart, columnStart);
      sumErasedCount := 0;
      sumBase := base + elementStart;
      AddWrapped(base, elementStart);
      forall l, s | 0 <= l < LANE_COUNT && 0 <= s < SUM_COUNT ensures LaneOk(l, s) {
        EmptyLaneSum(code, hist, l, s, base, elementStart);
      }
    }

    method ResetLanes(elementStart: nat)
      requires nextElement.Length0 == sums.Length0 == LANE_COUNT && nextElement.Length1 == sums.Length1 == SUM_COUNT
      requires nextElement as object != sums
      modifies nextElement, sums
      ensures forall l, s :: 0 <= l < LANE_COUNT && 0 <= s < SUM_COUNT ==>
                nextElement[l, s] == GetNextLaneElement(elementStart, l) && sums[l, s] == []
    {
      for lane := 0 to LANE_COUNT
        invariant forall l, s :: 0 <= l < lane && 0 <= s < SUM_COUNT ==>
                    nextElement[l, s] == GetNextLaneElement(elementStart, l) && sums[l, s] == []
      {
        var next := GetNextLaneElement(elementStart, lane);
        for s := 0 to SUM_COUNT
          invariant forall l, t :: 0 <= l < lane && 0 <= t < SUM_COUNT ==>
                      nextElement[l, t] == GetNextLaneElement(elementStart, l) && sums[l, t] == []
          invariant forall t :: 0 <= t < s ==> nextElement[lane, t] == next && sums[lane, t] == []
        {
          nextElement[lane, s] := next;
          sums[lane, s] := [];
        }
      }
    }

    method StoreSum(lane: nat, s: nat, element: nat, sum: seq<T>)
      requires nextElement.Length0 == sums.Length0 == LANE_COUNT && nextElement.Length1 == sums.Length1 == SUM_COUNT
      requires nextElement as object != sums && lane < LANE_COUNT && s < SUM_COUNT
      modifies nextElement, sums
      ensures nextElement[lane, s] == element && sums[lane, s] == sum
      ensures forall l, t :: 0 <= l < LANE_COUNT && 0 <= t < SUM_COUNT && (l != lane || t != s) ==>
                nextElement[l, t] == old(nextElement[l, t]) && sums[l, t] == old(sums[l, t])
    {
      nextElement[lane, s] := element;
      sums[lane, s] := sum;
    }

    /** Accumulates one sum of one lane up to the given element. */
    method GetSum(lane: nat, s: nat, elementEnd: nat) returns (sum: seq<T>)
      requires Valid() && count > 0 && SumsOk() && lane < LANE_COUNT && s < SUM_COUNT && elementEnd <= count
      modifies nextElement, sums
      ensures Valid() && SumsOk() && sum == sums[lane, s]
      ensures elementEnd <= nextElement[lane, s]
      ensures forall l, t :: 0 <= l < LANE_COUNT && 0 <= t < SUM_COUNT && (l != lane || t != s) ==>
                nextElement[l, t] == old(nextElement[l, t]) && sums[l, t] == old(sums[l, t])
    {
      hide IsField, IsLaneSum;
      assert LaneOk(lane, s);
      var element;
      element, sum := Accumulate(lane, s, nextElement[lane, s], sums[lane, s], elementEnd);
      StoreSum(lane, s, element, sum);
      forall l, t | 0 <= l < LANE_COUNT && 0 <= t < SUM_COUNT ensures LaneOk(l, t) {
        if l != lane || t != s {
          assert old(LaneOk(l, t));
        }
      }
    }

    /** The loop of GetSum: adds the elements of the lane from `start` up to `elementEnd`. */
    method Accumulate(lane: nat, s: nat, start: nat, initial: seq<T>, elementEnd: nat)
      returns (element: nat, sum: seq<T>)
      requires IsField(code.F) && WindowOk() && lane < LANE_COUNT && s < SUM_COUNT && elementEnd <= count
      requires start % LANE_COUNT == lane && dataStart <= start < count + LANE_COUNT && sumBase <= base + start
      requires IsLaneSum(code, hist, lane, s, sumBase, base + start, initial)
      ensures element % LANE_COUNT == lane && dataStart <= element < count + LANE_COUNT && sumBase <= base + element
      ensures IsLaneSum(code, hist, lane, s, sumBase, base + element, sum)
      ensures elementEnd <= element
    {
      hide IsField, IsLaneSum, Wrap;
      element, sum := start, initial;
      while element < elementEnd
        invariant element % LANE_COUNT == lane && dataStart <= element < count + LANE_COUNT && sumBase <= base + element
        invariant IsLaneSum(code, hist, lane, s, sumBase, base + element, sum)
      {
        sum := AccumulateOne(lane, s, element, sum);
        element := element + LANE_COUNT;
      }
    }

    /** Adds one packet to a sum, times a power of its column value. */
    method AccumulateOne(lane: nat, s: nat, element: nat, before: seq<T>) returns (sum: seq<T>)
      requires IsField(code.F) && WindowOk() && lane < LANE_COUNT && s < SUM_COUNT
      requires element % LANE_COUNT == lane && dataStart <= element < count && sumBase <= base + element
      requires IsLaneSum(code, hist, lane, s, sumBase, base + element, before)
      ensures IsLaneSum(code, hist, lane, s, sumBase, base + element + LANE_COUNT, sum)
    {
      hide IsField, IsLaneSum, Wrap;
      var F := code.F;
      var original := elements[element];
      var column := AddColumns(element, columnStart);
      AddWrapped(base, element);
      sum := GrowZeroPadded(F, before, |original|);
      if s == 0 {
        sum := AddMem(F, sum, original, |original|);
      } else {
        var CX := code.elem(GetColumnValue(column));
        if s == 2 {
          CX := F.mul(CX, CX);
        }
        sum := MulAddMem(F, sum, CX, original, |original|);
      }
      LaneSumStep(code, hist, lane, s, sumBase, base + element, before, sum);
    }

    // ----- removing acknowledged packets from the front of the window

    /** Removes whole subwindows of acknowledged packets.  Sums that are running keep the removed
        packets; they stop running only when nothing in the window is summed any more. */
    method RemoveElements()
      requires Valid() && count > 0 && firstUnremovedElement >= REMOVE_THRESHOLD
      modifies this, nextElement, sums
      ensures Valid() && count > 0 && hist == old(hist) && FirstUnacked() == old(FirstUnacked())
      ensures firstUnremovedElement < SUBWINDOW_SIZE
      ensures Counters() == old(Counters()) && RunningSum() == old(SumToGoOnWith())
      ensures old(RunningSum()).Some? && old(sumEndElement == count) ==> sumEndElement == count
    {
      hide IsField, IsLaneSum, Wrap, WindowOk, SumsOk;
      var removed := firstUnremovedElement / SUBWINDOW_SIZE * SUBWINDOW_SIZE;
      RemovedIsAligned(firstUnremovedElement);
      if sumEndElement > sumStartElement {
        RollSums(removed);
      }
      ShiftWindow(removed);
      FindLongestPacket();
      if sumEndElement <= sumStartElement {
        ResetSums(firstUnremovedElement);
      }
    }

    lemma RemovedIsAligned(first: nat)
      ensures var removed := first / SUBWINDOW_SIZE * SUBWINDOW_SIZE;
              removed <= first < removed + SUBWINDOW_SIZE && removed % LANE_COUNT == 0
    {
      assert first / 64 * 64 == (first / 64 * 8) * 8;
    }

    /** Rolls all sums past the point of removal. */
    method RollSums(removed: nat)
      requires Valid() && count > 0 && sumEndElement > sumStartElement && removed <= firstUnremovedElement && WindowOk()
      modifies nextElement, sums
      ensures Valid()
      ensures forall l, s :: 0 <= l < LANE_COUNT && 0 <= s < SUM_COUNT ==> nextElement[l, s] >= removed
    {
      hide IsField, IsLaneSum, Wrap, SumsOk;
      for lane := 0 to LANE_COUNT
        invariant Valid()
        invariant forall l, s :: 0 <= l < lane && 0 <= s < SUM_COUNT ==> nextElement[l, s] >= removed
      {
        for s := 0 to SUM_COUNT
          invariant Valid()
          invariant forall l, t :: 0 <= l < lane && 0 <= t < SUM_COUNT ==> nextElement[l, t] >= removed
          invariant forall t :: 0 <= t < s ==> nextElement[lane, t] >= removed
        {
          var sum := GetSum(lane, s, removed);
        }
      }
    }

    /** Drops the first `removed` elements of the window and renumbers the rest. */
    method ShiftWindow(removed: nat)
      requires Valid() && count > 0 && WindowOk() && removed <= firstUnremovedElement && removed % LANE_COUNT == 0
      requires sumEndElement > sumStartElement ==>
                 forall l, s :: 0 <= l < LANE_COUNT && 0 <= s < SUM_COUNT ==> nextElement[l, s] >= removed
      modifies this, nextElement
      ensures Valid() && count > 0 && WindowOk() && hist == old(hist) && base == old(base) + removed
      ensures firstUnremovedElement == old(firstUnremovedElement) - removed
      ensures Counters() == old(Counters()) && sumBase == old(sumBase) && count == old(count) - removed
      ensures old(sumEndElement) > old(sumStartElement) && old(sumEndElement) > removed ==>
                sumEndElement == old(sumEndElement) - removed
      ensures sumEndElement > sumStartElement <==>
                old(sumEndElement) > old(sumStartElement) && old(sumEndElement) > removed
    {
      hide IsField, IsLaneSum, Wrap;
      if sumEndElement > sumStartElement {
        ShiftSums(removed);
      }
      ShiftElements(removed);
      if sumEndElement > sumStartElement {
        forall l, s | 0 <= l < LANE_COUNT && 0 <= s < SUM_COUNT ensures LaneOk(l, s) {
          assert old(LaneOk(l, s));
          ShiftLane(old(nextElement[l, s]), removed);
        }
      }
    }

    lemma ShiftLane(next: nat, removed: nat)
      requires removed <= next && removed % LANE_COUNT == 0
      ensures (next - removed) % LANE_COUNT == next % LANE_COUNT
    {
    }

    method ShiftElements(removed: nat)
      requires WindowOk() && removed <= firstUnremovedElement && removed % LANE_COUNT == 0
      modifies this`count, this`columnStart, this`firstUnremovedElement, this`elements, this`base, this`dataStart
      ensures WindowOk() && base == old(base) + removed && count == old(count) - removed
      ensures firstUnremovedElement == old(firstUnremovedElement) - removed
      ensures dataStart == if old(dataStart) > removed then old(dataStart) - removed else 0
    {
      hide Wrap;
      AddWrapped(base, removed);
      elements := elements[removed..];
      count := count - removed;
      columnStart := AddColumns(removed, columnStart);
      firstUnremovedElement := firstUnremovedElement - removed;
      base := base + removed;
      dataStart := if dataStart > removed then dataStart - removed else 0;
    }

    method ShiftSums(removed: nat)
      requires nextElement.Length0 == LANE_COUNT && nextElement.Length1 == SUM_COUNT
      requires forall l, s :: 0 <= l < LANE_COUNT && 0 <= s < SUM_COUNT ==> nextElement[l, s] >= removed
      modifies this`sumErasedCount, this`sumEndElement, this`sumStartElement, nextElement
      ensures forall l, s :: 0 <= l < LANE_COUNT && 0 <= s < SUM_COUNT ==>
                nextElement[l, s] == old(nextElement[l, s]) - removed
      ensures sumStartElement == if old(sumStartElement) > removed then old(sumStartElement) - removed else 0
      ensures sumEndElement == if old(sumEndElement) > removed then old(sumEndElement) - removed else 0
      ensures sumErasedCount == old(sumErasedCount) +
                if removed > old(sumStartElement) then removed - old(sumStartElement)
                else 0
    {
      for lane := 0 to LANE_COUNT
        invariant unchanged(this)
        invariant forall l, s :: 0 <= l < LANE_COUNT && 0 <= s < SUM_COUNT ==>
                    nextElement[l, s] == old(nextElement[l, s]) - if l < lane then removed else 0
      {
        for s := 0 to SUM_COUNT
          invariant unchanged(this)
          invariant forall l, t :: 0 <= l < LANE_COUNT && 0 <= t < SUM_COUNT ==>
                      nextElement[l, t] == old(nextElement[l, t]) - if l < lane
                        || (l == lane && t < s) then removed else 0
        {
          nextElement[lane, s] := nextElement[lane, s] - removed;
        }
      }
      if removed > sumStartElement {
        sumErasedCount := sumErasedCount + (removed - sumStartElement);
      }
      sumEndElement := if sumEndElement > removed then sumEndElement - removed else 0;
      sumStartElement := if sumStartElement > removed then sumStartElement - removed else 0;
    }

    /** Determines the longest packet that has not been acknowledged. */
    method FindLongestPacket()
      requires Valid() && count > 0
      modifies this`longestPacket
      ensures Valid()
    {
      hide IsField, IsLaneSum, Wrap;
      var longest: nat := 0;
      for i := firstUnremovedElement to count
        invariant forall j :: firstUnremovedElement <= j < i ==> |elements[j]| <= longest
      {
        if longest < |elements[i]| {
          longest := |elements[i]|;
        }
      }
      longestPacket := longest;
      if sumEndElement > sumStartElement {
        forall l, s | 0 <= l < LANE_COUNT && 0 <= s < SUM_COUNT ensures LaneOk(l, s) {
          assert old(LaneOk(l, s));
        }
      }
    }

    // ----- generating recovery packets

    /** Adds the sums selected by the row's operation codes to the two workspaces. */
    method AddDenseColumns(row: nat) returns (plain: seq<T>, product: seq<T>)
      requires Valid() && count > 0 && WindowOk() && SumsOk()
      modifies this`sumEndElement, nextElement, sums
      ensures SumsOk() && Valid() && sumEndElement == count
      ensures |plain| == |product| == longestPacket
      ensures IsDense(code, row, 0, hist, sumBase, LANE_COUNT, 0, plain)
      ensures IsDense(code, row, 3, hist, sumBase, LANE_COUNT, 0, product)
    {
      hide IsField, IsLaneSum, Wrap, IsDense, SumsOk, WindowOk;
      DenseEmpty(code, row, 0, hist, sumBase, longestPacket);
      DenseEmpty(code, row, 3, hist, sumBase, longestPacket);
      plain, product := GrowZeroPadded(code.F, [], longestPacket), GrowZeroPadded(code.F, [], longestPacket);
      for lane := 0 to LANE_COUNT
        invariant Valid() && SumsOk()
        invariant |plain| == |product| == longestPacket
        invariant IsDense(code, row, 0, hist, sumBase, lane, 0, plain)
        invariant IsDense(code, row, 3, hist, sumBase, lane, 0, product)
      {
        plain := AddSelectedSums(row, lane, 0, plain);
        product := AddSelectedSums(row, lane, 3, product);
        DenseNext(code, row, 0, hist, sumBase, lane, plain);
        DenseNext(code, row, 3, hist, sumBase, lane, product);
      }
      EndSums();
    }

    method EndSums()
      requires Valid() && count > 0 && SumsOk()
      modifies this`sumEndElement
      ensures Valid() && SumsOk() && sumEndElement == count
    {
      hide IsField, IsLaneSum, Wrap;
      sumEndElement := count;
      forall l, s | 0 <= l < LANE_COUNT && 0 <= s < SUM_COUNT ensures LaneOk(l, s) {
        assert old(LaneOk(l, s));
      }
    }

    /** Adds the sums of one lane that three bits of its operation code select. */
    method AddSelectedSums(row: nat, lane: nat, shift: nat, workspace: seq<T>) returns (r: seq<T>)
      requires Valid() && count > 0 && WindowOk() && SumsOk() && lane < LANE_COUNT
      requires IsDense(code, row, shift, hist, sumBase, lane, 0, workspace)
      modifies nextElement, sums
      ensures Valid() && SumsOk() && |r| == |workspace|
      ensures IsDense(code, row, shift, hist, sumBase, lane, 3, r)
    {
      hide IsField, IsLaneSum, Wrap, IsDense, WindowOk, SumsOk;
      r := workspace;
      for s := 0 to SUM_COUNT
        invariant Valid() && SumsOk() && |r| == |workspace|
        invariant IsDense(code, row, shift, hist, sumBase, lane, s, r)
      {
        if Bit(code.opcode(lane, row), shift + s) {
          var sum := GetSum(lane, s, count);
          SumReachesEnd(lane, s);
          DenseAddSum(code, row, shift, hist, sumBase, lane, s, r, base + nextElement[lane, s], sum);
          r := AddMem(code.F, r, sum, if |sum| > |r| then |r| else |sum|);
        } else {
          DenseSkipSum(code, row, shift, hist, sumBase, lane, s, r);
        }
      }
    }

    lemma SumReachesEnd(lane: nat, s: nat)
      requires Valid() && count > 0 && SumsOk() && lane < LANE_COUNT && s < SUM_COUNT && nextElement[lane, s] >= count
      ensures var next := base + nextElement[lane, s];
              && IsLaneSum(code, hist, lane, s, sumBase, next, sums[lane, s])
              && sumBase <= |hist| <= next < |hist| + LANE_COUNT && next % LANE_COUNT == lane
    {
      hide IsLaneSum, IsField, Wrap;
      assert LaneOk(lane, s);
    }

    /** Adds the randomly drawn pairs of unacknowledged packets to the two workspaces. */
    method AddLightColumns(row: nat, plain0: seq<T>, product0: seq<T>) returns (plain: seq<T>, product: seq<T>)
      requires Valid() && count > 0 && SumsOk() && WindowOk() && |plain0| == |product0| == longestPacket
      requires IsDense(code, row, 0, hist, sumBase, LANE_COUNT, 0, plain0)
      requires IsDense(code, row, 3, hist, sumBase, LANE_COUNT, 0, product0)
      ensures |plain| == |product| == longestPacket
      ensures var n := count - firstUnremovedElement;
              && IsLight(code, row, 0, n, hist, sumBase, PairCount(n), plain)
              && IsLight(code, row, 1, n, hist, sumBase, PairCount(n), product)
    {
      hide IsField, IsLaneSum, Wrap, IsDense, IsLight;
      var startElement := firstUnremovedElement;
      var n := count - startElement;
      plain, product := plain0, product0;
      LightEmpty(code, row, 0, n, hist, sumBase, plain);
      LightEmpty(code, row, 1, n, hist, sumBase, product);
      for i := 0 to PairCount(n)
        invariant |plain| == |product| == longestPacket
        invariant IsLight(code, row, 0, n, hist, sumBase, i, plain)
        invariant IsLight(code, row, 1, n, hist, sumBase, i, product)
      {
        var original1 := elements[startElement + Drawn(code, row, n, i, 0)];
        var originalRX := elements[startElement + Drawn(code, row, n, i, 1)];
        LightAddPacket(code, row, 0, n, hist, sumBase, i, plain);
        LightAddPacket(code, row, 1, n, hist, sumBase, i, product);
        plain := AddMem(code.F, plain, original1, |original1|);
        product := AddMem(code.F, product, originalRX, |originalRX|);
      }
    }

    /** Generates the next recovery packet.  A single packet is sent as it is; if more than 64 packets are
        not acknowledged the packet is a row of the sums, and so it is if more than 32 are not and a sum over
        more than 64 packets goes on; otherwise it is a parity or Cauchy row. */
    method Encode() returns (r: EncodeResult<T>)
      requires Valid() && InTurn()
      modifies this, nextElement, sums
      ensures Valid() && InTurn() && hist == old(hist) && FirstUnacked() == old(FirstUnacked())
      ensures r.NeedMoreData? <==> FirstUnacked() == |hist|
      ensures emitted == old(emitted) + if r.Packet? then [Emission(r.kind, r.meta, |hist|)] else []
      ensures r.Packet? ==>
                && IsRecoveryOf(code, hist, r.meta, r.payload)
                && r.meta.ldpcCount == |hist| - FirstUnacked()
                && (r.kind.SiameseRow? <==> r.meta.sumCount > CAUCHY_THRESHOLD)
                && (r.kind.SingleRow? <==> r.meta.sumCount == 1)
                && (r.kind.SingleRow? ==> r.payload == hist[|hist| - 1])
      ensures r.Packet? ==> RowInTurn(old(emitted), Emission(r.kind, r.meta, |hist|))
      ensures r.Packet? ==>
                var n, sum := |hist| - FirstUnacked(), old(SumToGoOnWith());
                && (r.kind.SingleRow? <==> n == 1)
                && (r.kind.SiameseRow? <==>
                      n > 1 && if sum.Some? then n > 32 && |hist| - sum.value > 64 else n > 64)
                && (r.kind.SiameseRow? ==> |hist| - r.meta.sumCount == if sum.Some? then sum.value else FirstUnacked())
    {
      hide IsField, IsLaneSum, Wrap, IsRecoveryOf, WindowOk, SumsOk, LogOk, RowInTurn, CountOf, ParityEnd, Counted;
      if count == 0 {
        return NeedMoreData;
      }
      ForgetAcknowledged();
      ghost var running, log := RunningSum(), emitted;
      LogEnds(log, |hist|, FirstUnacked(), running);
      r := EncodeWindow();
      TakesItsTurn(r, log);
      Note(r, running);
    }

    /** The packet for what is in the window. */
    method EncodeWindow() returns (r: EncodeResult<T>)
      requires Valid() && count > 0
      modifies this, nextElement, sums
      ensures Valid() && count > 0 && hist == old(hist) && FirstUnacked() == old(FirstUnacked()) < |hist|
      ensures r.Packet? && IsRecoveryOf(code, hist, r.meta, r.payload) && r.meta.ldpcCount == |hist| - FirstUnacked()
      ensures r.kind.SingleRow? <==> r.meta.sumCount == 1
      ensures r.kind.SingleRow? ==> r.payload == hist[|hist| - 1]
      ensures r.kind.SiameseRow? <==> r.meta.sumCount > CAUCHY_THRESHOLD
      ensures emitted == old(emitted) && Counted(r, old(Counters()))
      ensures r.meta.ldpcCount <= r.meta.sumCount <= MAX_PACKETS && r.meta.sumCount <= |hist|
      ensures r.kind.SiameseRow? ==> sumEndElement == count
      ensures r.kind.SingleRow? ==> sumEndElement == old(sumEndElement) && count == old(count)
      ensures RunningSum() ==
                if r.kind.SingleRow? then old(RunningSum())
                else if r.kind.SiameseRow? && r.meta.sumCount < MAX_PACKETS then Some(|hist| - r.meta.sumCount)
                else None
      ensures var n, sum := |hist| - FirstUnacked(), old(RunningSum());
              && (r.kind.SingleRow? <==> n == 1)
              && (r.kind.SiameseRow? <==> n > 1 && if sum.Some? then n > 32 && |hist| - sum.value > 64 else n > 64)
              && (r.kind.SiameseRow? ==> |hist| - r.meta.sumCount == if sum.Some? then sum.value else FirstUnacked())
    {
      hide IsField, IsLaneSum, Wrap, IsRecoveryOf, WindowOk, SumsOk;
      WindowCounts();
      if count - firstUnremovedElement == 1 {
        r := GenerateSinglePacket();
      } else {
        r := EncodeMany();
      }
    }

    lemma TakesItsTurn(r: EncodeResult<T>, log: seq<Emission>)
      requires Valid() && count > 0 && r.Packet? && r.meta.ldpcCount == |hist| - FirstUnacked()
      requires forall i :: 0 <= i < |log| ==> log[i].end <= |hist|
      requires Counted(r, (log, CountOf(log, SiameseRow) % 255, Wrap(ParityEnd(log)), CountOf(log, CauchyRow) % 192))
      ensures var e := Emission(r.kind, r.meta, |hist|);
              && RowInTurn(log, e)
              && nextRow == CountOf(log + [e], SiameseRow) % 255 && nextCauchyRow == CountOf(log + [e], CauchyRow) % 192
              && nextParityColumn == Wrap(ParityEnd(log + [e]))
    {
      hide IsField, IsLaneSum, Wrap, SumsOk, CountOf, ParityEnd, ParityIsDue, Valid;
      var e := Emission(r.kind, r.meta, |hist|);
      OneMoreEmission(log, e);
      ParityIsDueIff(log);
    }

    /** As long as the columns can tell, a parity row is due when no parity packet covers the first packet
        that is not acknowledged. */
    lemma ParityIsDueIff(log: seq<Emission>)
      requires Valid() && count > 0 && forall i :: 0 <= i < |log| ==> log[i].end <= |hist|
      ensures |hist| - ParityEnd(log) <= COLUMN_PERIOD / 2 ==>
                (ParityIsDue(Wrap(ParityEnd(log))) <==> ParityEnd(log) <= FirstUnacked())
    {
      hide IsField, IsLaneSum, Wrap, SumsOk, RowsInTurn, InOrder;
      ParityEndBound(log, |hist|);
      SubtractWrapped(ParityEnd(log), base);
    }

    /** Removes acknowledged packets when there are many. */
    method ForgetAcknowledged()
      requires Valid() && InTurn() && count > 0
      modifies this, nextElement, sums
      ensures Valid() && InTurn() && count > 0 && hist == old(hist) && FirstUnacked() == old(FirstUnacked())
      ensures emitted == old(emitted) && RunningSum() == old(SumToGoOnWith())
    {
      hide IsField, IsLaneSum, Wrap, WindowOk, SumsOk, LogOk, CountOf, ParityEnd;
      ghost var unacked, running := FirstUnacked(), RunningSum();
      SumGoesOn();
      if firstUnremovedElement >= REMOVE_THRESHOLD {
        RemoveElements();
      }
      LogKept(emitted, |hist|, unacked, running, |hist|, unacked, RunningSum());
    }

    /** When the last parity packet is more than half a period old, its end seems to lie ahead: no parity row is
        due, although no parity packet covers what is not acknowledged. */
    lemma ParityIsForgotten(log: seq<Emission>)
      requires Valid() && count > 0 && ParityEnd(log) < base - COLUMN_PERIOD / 2
      requires FirstUnacked() < ParityEnd(log) + COLUMN_PERIOD
      ensures !ParityIsDue(Wrap(ParityEnd(log)))
    {
      hide IsField, IsLaneSum, Wrap, SumsOk, ParityEnd;
      SubtractWrapped(ParityEnd(log), base);
    }

    /** A sum over the last packet goes on. */
    lemma SumGoesOn()
      requires Valid() && count > 0
      ensures RunningSum().Some? && sumEndElement == count ==> SumToGoOnWith() == RunningSum()
    {
      hide IsField, IsLaneSum, Wrap, SumsOk;
    }

    /** Puts the packet in the log. */
    ghost method Note(r: EncodeResult<T>, running: Option<nat>)
      requires Valid() && r.Packet? && r.meta.ldpcCount == |hist| - FirstUnacked()
      requires LogOk(emitted, |hist|, FirstUnacked(), running)
      requires RowInTurn(emitted, Emission(r.kind, r.meta, |hist|))
      requires var log := emitted + [Emission(r.kind, r.meta, |hist|)];
               && nextRow == CountOf(log, SiameseRow) % 255 && nextCauchyRow == CountOf(log, CauchyRow) % 192
               && nextParityColumn == Wrap(ParityEnd(log))
      requires r.kind.SingleRow? ==> RunningSum() == running && r.meta.sumCount == 1
      requires r.kind.ParityRow? || r.kind.CauchyRow? ==>
                 RunningSum().None? && r.meta.ldpcCount <= r.meta.sumCount <= CAUCHY_THRESHOLD
      requires r.kind.SiameseRow? ==>
                 && CAUCHY_THRESHOLD < r.meta.sumCount <= MAX_PACKETS && r.meta.sumCount <= |hist|
                 && (if running.Some? then |hist| - r.meta.sumCount == running.value
                     else |hist| - FirstUnacked() > CAUCHY_THRESHOLD && |hist| - r.meta.sumCount >= FirstUnacked())
                 && RunningSum() == if r.meta.sumCount < MAX_PACKETS then Some(|hist| - r.meta.sumCount) else None
      requires sumEndElement == count || r.kind.SingleRow? || RunningSum().None?
      requires r.kind.SingleRow? && RunningSum().Some? ==>
                 forall i :: 0 <= i < |emitted| && EndsAt(emitted[i], |hist|) ==> sumEndElement == count
      modifies this`emitted
      ensures Valid() && InTurn() && emitted == old(emitted) + [Emission(r.kind, r.meta, |hist|)]
    {
      hide IsField, IsLaneSum, Wrap, LogOk, RowInTurn, CountOf, ParityEnd;
      LogGrows(emitted, Emission(r.kind, r.meta, |hist|), FirstUnacked(), running, RunningSum());
      emitted := emitted + [Emission(r.kind, r.meta, |hist|)];
      if count > 0 && sumEndElement > sumStartElement {
        forall l, s | 0 <= l < LANE_COUNT && 0 <= s < SUM_COUNT ensures LaneOk(l, s) {
          assert old(LaneOk(l, s));
        }
      }
    }

    /** More than one unacknowledged packet: a parity or Cauchy row for a few, a sum row for many. */
    method EncodeMany() returns (r: EncodeResult<T>)
      requires Valid() && count > 0 && count - firstUnremovedElement > 1
      modifies this, nextElement, sums
      ensures Valid() && count > 0 && hist == old(hist) && FirstUnacked() == old(FirstUnacked())
      ensures r.Packet? && !r.kind.SingleRow? && IsRecoveryOf(code, hist, r.meta, r.payload)
      ensures r.meta.ldpcCount == |hist| - FirstUnacked() && r.meta.sumCount > 1
      ensures r.kind.SiameseRow? <==> r.meta.sumCount > CAUCHY_THRESHOLD
      ensures emitted == old(emitted) && Counted(r, old(Counters()))
      ensures r.meta.ldpcCount <= r.meta.sumCount <= MAX_PACKETS && r.meta.sumCount <= |hist|
      ensures r.kind.SiameseRow? ==> sumEndElement == count
      ensures RunningSum() ==
                if r.kind.SiameseRow? && r.meta.sumCount < MAX_PACKETS then Some(|hist| - r.meta.sumCount) else None
      ensures var n, sum := |hist| - FirstUnacked(), old(RunningSum());
              && (r.kind.SiameseRow? <==> if sum.Some? then n > 32 && |hist| - sum.value > 64 else n > 64)
              && (r.kind.SiameseRow? ==> |hist| - r.meta.sumCount == if sum.Some? then sum.value else FirstUnacked())
    {
      hide IsField, IsLaneSum, Wrap, IsRecoveryOf, WindowOk, SumsOk;
      WindowCounts();
      var unacknowledgedCount := count - firstUnremovedElement;
      if sumEndElement <= sumStartElement || count - sumStartElement + sumErasedCount >= MAX_PACKETS {
        if unacknowledgedCount <= CAUCHY_THRESHOLD {
          r := GenerateCauchyPacket();
          return;
        }
        ResetSums(firstUnremovedElement);
      } else {
        if unacknowledgedCount <= SUM_RESET_THRESHOLD || count - sumStartElement + sumErasedCount <= CAUCHY_THRESHOLD {
          StopSums();
          r := GenerateCauchyPacket();
          return;
        }
      }
      r := GenerateSiamesePacket();
    }

    /** How the counters go on with a packet. */
    ghost predicate Counted(r: EncodeResult<T>, before: (seq<Emission>, nat, nat, nat))
      requires r.Packet?
      reads this
    {
      match r.kind
      case SiameseRow =>
        r.meta.row == before.1 && nextRow == (before.1 + 1) % 255 && nextParityColumn == before.2
          && nextCauchyRow == before.3
      case CauchyRow =>
        r.meta.row == 1 + before.3 && nextRow == before.1 && nextParityColumn == before.2
          && nextCauchyRow == (before.3 + 1) % 192 && !ParityIsDue(before.2)
      case ParityRow =>
        r.meta.row == 0 && nextRow == before.1 && nextParityColumn == Wrap(|hist|) && nextCauchyRow == before.3
          && ParityIsDue(before.2)
      case SingleRow =>
        r.meta.row == 0 && nextRow == before.1 && nextParityColumn == before.2 && nextCauchyRow == before.3
    }

    /** As the columns tell, the packets from a column on are not all covered, or are too far off to tell. */
    ghost predicate ParityIsDue(parityColumn: nat)
      reads this
    {
      var element := SubtractColumns(parityColumn, columnStart);
      element <= firstUnremovedElement || IsColumnDeltaNegative(element)
    }

    lemma WindowCounts()
      requires Valid() && count > 0
      ensures base + count == |hist| && firstUnremovedElement < count == |elements|
      ensures sumEndElement > sumStartElement ==>
                && sumStartElement <= count && count - sumStartElement + sumErasedCount == |hist| - sumBase
                && sumBase <= base + firstUnremovedElement && SumsOk()
    {
    }

    /** Stops using sums. */
    method StopSums()
      requires Valid() && count > 0
      modifies this`sumEndElement
      ensures Valid() && sumEndElement == sumStartElement
    {
      hide IsField, IsLaneSum, Wrap, SumsOk;
      sumEndElement := sumStartElement;
    }

    method GenerateSinglePacket() returns (r: EncodeResult<T>)
      requires Valid() && count - firstUnremovedElement == 1 && count > 0
      ensures r.Packet? && r.kind.SingleRow? && IsRecoveryOf(code, hist, r.meta, r.payload) && r.meta.row == 0
      ensures r.meta.sumCount == r.meta.ldpcCount == 1 && r.payload == hist[|hist| - 1]
    {
      hide IsLaneSum, SumsOk;
      var original := elements[firstUnremovedElement];
      AddWrapped(base, firstUnremovedElement);
      var meta := Metadata(0, AddColumns(columnStart, firstUnremovedElement), 1, 1);
      SingleCombination(code, meta, hist);
      r := Packet(SingleRow, original, meta);
    }

    method GenerateSiamesePacket() returns (r: EncodeResult<T>)
      requires Valid() && count > 0 && SumsOk() && CAUCHY_THRESHOLD < |hist| - sumBase <= MAX_PACKETS
      modifies this`nextRow, this`sumEndElement, nextElement, sums
      ensures Valid()
      ensures r.Packet? && r.kind.SiameseRow? && IsRecoveryOf(code, hist, r.meta, r.payload)
      ensures r.meta.sumCount == |hist| - sumBase && r.meta.ldpcCount == count - firstUnremovedElement
      ensures sumEndElement == count && Counted(r, old(Counters()))
    {
      hide IsField, IsLaneSum, Wrap, IsDense, IsLight, Combination;
      var row := AdvanceRow();
      var plain, product := AddDenseColumns(row);
      plain, product := AddLightColumns(row, plain, product);
      var RX := code.elem(GetRowValue(row));
      var meta := Metadata(row, sumColumnStart, sumEndElement - sumStartElement + sumErasedCount,
          count - firstUnremovedElement);
      WorkspacesCombine(code, meta, hist, sumBase, plain, product);
      UnackedFit();
      r := Packet(SiameseRow, MulAddMem(code.F, plain, RX, product, longestPacket), meta);
    }

    lemma UnackedFit()
      requires count > 0 && WindowOk()
      ensures forall c :: base + firstUnremovedElement <= c < |hist| ==> |hist[c]| <= longestPacket
    {
      forall c | base + firstUnremovedElement <= c < |hist| ensures |hist[c]| <= longestPacket {
        assert elements[c - base] == hist[c];
      }
    }

    method AdvanceRow() returns (row: nat)
      requires Valid() && count > 0 && SumsOk()
      modifies this`nextRow
      ensures Valid() && SumsOk() && row < ROW_PERIOD
      ensures row == old(nextRow) && nextRow == (row + 1) % 255
    {
      hide IsField, IsLaneSum, Wrap;
      row := nextRow;
      nextRow := if nextRow + 1 >= ROW_PERIOD then 0 else nextRow + 1;
      forall l, s | 0 <= l < LANE_COUNT && 0 <= s < SUM_COUNT ensures LaneOk(l, s) {
        assert old(LaneOk(l, s));
      }
    }

    /** Generates a parity row, or a row of the Cauchy matrix. */
    method GenerateCauchyPacket() returns (r: EncodeResult<T>)
      requires Valid() && count > 0 && 2 <= count - firstUnremovedElement <= CAUCHY_THRESHOLD
      modifies this`nextParityColumn, this`nextCauchyRow
      ensures Valid()
      ensures r.Packet? && IsRecoveryOf(code, hist, r.meta, r.payload)
      ensures r.kind == if r.meta.row == 0 then ParityRow else CauchyRow
      ensures r.meta.sumCount == r.meta.ldpcCount == count - firstUnremovedElement
      ensures Counted(r, old(Counters()))
    {
      hide IsField, IsLaneSum, Wrap, SumsOk, Combination;
      var unacknowledgedCount := count - firstUnremovedElement;
      var start := AddColumns(columnStart, firstUnremovedElement);
      AddWrapped(base, firstUnremovedElement);
      var row := ChooseRow(start);
      var meta := Metadata(row, start, unacknowledgedCount, unacknowledgedCount);
      var payload := CombineUnacknowledged(meta);
      r := Packet(if row == 0 then ParityRow else CauchyRow, payload, meta);
    }

    /** Row 0 is a parity row, sent once for each stretch of packets; the others are Cauchy rows. */
    method ChooseRow(start: nat) returns (row: nat)
      requires Valid() && count > 0 && firstUnremovedElement < count && start == Wrap(base + firstUnremovedElement)
      modifies this`nextParityColumn, this`nextCauchyRow
      ensures Valid() && row <= CAUCHY_MAX_ROWS
      ensures row == 0 <==> old(ParityIsDue(nextParityColumn))
      ensures nextParityColumn == if row == 0 then Wrap(|hist|) else old(nextParityColumn)
      ensures row > 0 ==> row == 1 + old(nextCauchyRow)
      ensures nextCauchyRow == if row == 0 then old(nextCauchyRow) else (old(nextCauchyRow) + 1) % 192
    {
      hide IsField, IsLaneSum, Wrap;
      AddWrapped(base + firstUnremovedElement, count - firstUnremovedElement);
      var nextParityElement := SubtractColumns(nextParityColumn, columnStart);
      if nextParityElement <= firstUnremovedElement || IsColumnDeltaNegative(nextParityElement) {
        nextParityColumn := AddColumns(start, count - firstUnremovedElement);
        row := 0;
      } else {
        row := nextCauchyRow + 1;
        nextCauchyRow := if nextCauchyRow + 1 >= CAUCHY_MAX_ROWS then 0 else nextCauchyRow + 1;
      }
      if sumEndElement > sumStartElement {
        forall l, s | 0 <= l < LANE_COUNT && 0 <= s < SUM_COUNT ensures LaneOk(l, s) {
          assert old(LaneOk(l, s));
        }
      }
    }

    /** Adds up all unacknowledged packets, each times its parity or Cauchy coefficient. */
    method CombineUnacknowledged(meta: Metadata) returns (payload: seq<T>)
      requires Valid() && count > 0
               && meta.sumCount == meta.ldpcCount == count - firstUnremovedElement <= CAUCHY_THRESHOLD
      requires meta.columnStart == Wrap(base + firstUnremovedElement)
      ensures forall pos :: 0 <= pos < |payload| ==>
                payload[pos] == Combination(code, meta, base + firstUnremovedElement, |hist|, hist, pos)
      ensures forall c :: base + firstUnremovedElement <= c < |hist| ==> |hist[c]| <= |payload|
    {
      hide IsField, IsLaneSum, Wrap, SumsOk, Coefficient, IsPartial, Combination, WindowOk;
      WindowCounts();
      var packet, usedBytes := FirstUnacknowledged(meta);
      ghost var first := base + firstUnremovedElement;
      for element := firstUnremovedElement + 1 to count
        invariant |packet| == longestPacket && usedBytes <= longestPacket
        invariant forall c :: first <= c < base + element ==> |hist[c]| <= usedBytes
        invariant IsPartial(code, meta, hist, first, base + element, packet)
      {
        packet := AddUnacknowledged(meta, element, packet);
        ElementFits(element);
        if usedBytes < |elements[element]| {
          usedBytes := |elements[element]|;
        }
      }
      payload := packet[..usedBytes];
      PartialIsCombination(code, meta, hist, first, packet);
    }

    lemma ElementFits(i: nat)
      requires count > 0 && WindowOk() && firstUnremovedElement <= i < count
      ensures elements[i] == hist[base + i] && |elements[i]| <= longestPacket
    {
    }

    method FirstUnacknowledged(meta: Metadata) returns (packet: seq<T>, usedBytes: nat)
      requires Valid() && count > 0 && WindowOk() && 0 < meta.ldpcCount && meta.sumCount <= CAUCHY_THRESHOLD
      requires meta.columnStart == Wrap(base + firstUnremovedElement)
      ensures |packet| == longestPacket && usedBytes == |hist[base + firstUnremovedElement]| <= longestPacket
      ensures IsPartial(code, meta, hist, base + firstUnremovedElement, base + firstUnremovedElement + 1, packet)
    {
      hide IsField, IsLaneSum, Wrap, SumsOk, Coefficient, IsPartial;
      var original := elements[firstUnremovedElement];
      packet := original;
      if meta.row != 0 {
        var y := CauchyElement(code, meta.row - 1, meta.columnStart % CAUCHY_MAX_COLUMNS);
        packet := MulMem(code.F, original, y, 0, |original|);
      }
      packet := GrowZeroPadded(code.F, packet, longestPacket);
      usedBytes := |original|;
      FirstTerm(code, meta, hist, base + firstUnremovedElement, packet);
    }

    method AddUnacknowledged(meta: Metadata, element: nat, packet: seq<T>) returns (r: seq<T>)
      requires Valid() && count > 0 && WindowOk() && 0 < meta.ldpcCount && meta.sumCount <= CAUCHY_THRESHOLD
      requires firstUnremovedElement < element < count && |packet| == longestPacket
      requires meta.columnStart == Wrap(base + firstUnremovedElement)
      requires IsPartial(code, meta, hist, base + firstUnremovedElement, base + element, packet)
      ensures |r| == longestPacket
      ensures IsPartial(code, meta, hist, base + firstUnremovedElement, base + element + 1, r)
    {
      hide IsField, IsLaneSum, Wrap, SumsOk, Coefficient, IsPartial;
      var original := elements[element];
      if meta.row == 0 {
        r := AddMem(code.F, packet, original, |original|);
      } else {
        var steps := element - firstUnremovedElement;
        var cauchyColumn := (meta.columnStart % CAUCHY_MAX_COLUMNS + steps) % CAUCHY_MAX_COLUMNS;
        CauchyColumnAfter(base + firstUnremovedElement, element - firstUnremovedElement);
        r := MulAddMem(code.F, packet, CauchyElement(code, meta.row - 1, cauchyColumn), original, |original|);
      }
      NextTerm(code, meta, hist, base + firstUnremovedElement, base + element, packet, r);
    }
  }

  /** Stepping the Cauchy column modulo its period follows the column numbers. */
  lemma CauchyColumnAfter(n: nat, k: nat)
    ensures (Wrap(n) % CAUCHY_MAX_COLUMNS + k) % CAUCHY_MAX_COLUMNS == Wrap(n + k) % CAUCHY_MAX_COLUMNS
  {
    hide Wrap;
    WrapLane(n);
    WrapLane(n + k);
    assert n == n / 64 * 64 + n % 64;
    ModShift(n % 64 + k, n / 64, 64);
  }

  /** The buffer holds the part of the combination up to packet `upTo`. */
  ghost predicate IsPartial<T>(code: Code<T>, meta: Metadata, hist: seq<seq<T>>, start: int, upTo: int, buf: seq<T>)
    requires meta.ldpcCount > 0
  {
    forall pos :: 0 <= pos < |buf| ==> buf[pos] == Sum(code.F, Term(code, meta, |hist|, hist, pos), start, upTo)
  }

  lemma PartialIsCombination<T>(code: Code<T>, meta: Metadata, hist: seq<seq<T>>, start: int, buf: seq<T>)
    requires meta.ldpcCount > 0 && IsPartial(code, meta, hist, start, |hist|, buf)
    ensures forall pos :: 0 <= pos < |buf| ==> buf[pos] == Combination(code, meta, start, |hist|, hist, pos)
  {
  }

  lemma SingleCombination<T(!new)>(code: Code<T>, meta: Metadata, hist: seq<seq<T>>)
    requires IsField(code.F) && |hist| > 0 && meta.row == 0 && meta.sumCount == meta.ldpcCount == 1
    ensures var last := |hist| - 1;
            forall pos :: 0 <= pos < |hist[last]| ==>
                hist[last][pos] == Combination(code, meta, last, |hist|, hist, pos)
  {
    var last := |hist| - 1;
    forall pos | 0 <= pos < |hist[last]| ensures hist[last][pos] == Combination(code, meta, last, |hist|, hist, pos) {
      var f := Term(code, meta, |hist|, hist, pos);
      assert Sum(code.F, f, last, last) == code.F.zero;
      assert f(last) == TermAt(code, meta, |hist|, hist, pos, last);
      MulOne(code.F, hist[last][pos]);
      AddZero(code.F, f(last));
    }
  }

  lemma FirstTerm<T(!new)>(code: Code<T>, meta: Metadata, hist: seq<seq<T>>, start: nat, buf: seq<T>)
    requires IsField(code.F) && 0 < meta.ldpcCount && meta.sumCount <= CAUCHY_THRESHOLD && start < |hist|
    requires |hist[start]| <= |buf|
    requires var packet := hist[start];
             var y := if meta.row == 0 then code.F.one
                 else CauchyElement(code, meta.row - 1, Wrap(start) % CAUCHY_MAX_COLUMNS);
             buf == GrowZeroPadded(code.F, if meta.row == 0 then packet
                 else MulMem(code.F, packet, y, 0, |packet|), |buf|)
    ensures IsPartial(code, meta, hist, start, start + 1, buf)
  {
    var F, packet := code.F, hist[start];
    forall pos | 0 <= pos < |buf| ensures buf[pos] == Sum(F, Term(code, meta, |hist|, hist, pos), start, start + 1) {
      var f := Term(code, meta, |hist|, hist, pos);
      assert f(start) == TermAt(code, meta, |hist|, hist, pos, start);
      assert Sum(F, f, start, start) == F.zero;
      AddZero(F, f(start));
      MulOne(F, At(F, packet, pos));
      MulZero(F, Coefficient(code, meta, |hist|, start));
      assert At(F, buf, pos) == buf[pos];
    }
  }

  lemma NextTerm<T(!new)>(code: Code<T>, meta: Metadata, hist: seq<seq<T>>, start: int, c: nat, buf: seq<T>,
      buf': seq<T>)
    requires IsField(code.F) && 0 < meta.ldpcCount && meta.sumCount <= CAUCHY_THRESHOLD && start <= c < |hist|
    requires IsPartial(code, meta, hist, start, c, buf) && |hist[c]| <= |buf|
    requires buf' == if meta.row == 0 then AddMem(code.F, buf, hist[c], |hist[c]|)
                     else MulAddMem(code.F, buf, CauchyElement(code, meta.row - 1, Wrap(c) % CAUCHY_MAX_COLUMNS),
                         hist[c], |hist[c]|)
    ensures IsPartial(code, meta, hist, start, c + 1, buf')
  {
    var F := code.F;
    var y := if meta.row == 0 then F.one else CauchyElement(code, meta.row - 1, Wrap(c) % CAUCHY_MAX_COLUMNS);
    forall pos | 0 <= pos < |buf'| ensures buf'[pos] == Sum(F, Term(code, meta, |hist|, hist, pos), start, c + 1) {
      var f := Term(code, meta, |hist|, hist, pos);
      assert f(c) == TermAt(code, meta, |hist|, hist, pos, c);
      AddPacketAt(F, buf, y, meta.row == 0, hist[c], pos);
    }
  }
}
