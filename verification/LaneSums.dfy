/** The running sums of the encoder, one per lane and column power. */
module LaneSums {
  import opened Fields
  import opened Buffers
  import opened Columns
  import opened Recovery

  /** Running sum s of a lane covers the packets from `from` up to the next element to add. */
  ghost predicate IsLaneSum<T>(code: Code<T>, hist: seq<seq<T>>, lane: nat, s: nat, from: int, next: int, sum: seq<T>) {
    forall pos: nat :: LaneSumAt(code, hist, lane, s, from, next, sum, pos)
  }

  ghost predicate LaneSumAt<T>(code: Code<T>, hist: seq<seq<T>>, lane: nat, s: nat, from: int, next: int, sum: seq<T>,
      pos: nat) {
    At(code.F, sum, pos) == Sum(code.F, LaneTerm(code, hist, pos, lane, s), from, next)
  }

  function GetNextLaneElement(element: nat, lane: nat): (next: nat)
    requires lane < LANE_COUNT
    ensures element <= next < element + LANE_COUNT && next % LANE_COUNT == lane
  {
    var next := element - element % LANE_COUNT + lane;
    if next < element then next + LANE_COUNT else next
  }

  lemma SameLaneGap(a: int, b: int)
    requires a % LANE_COUNT == b % LANE_COUNT && a < b
    ensures a + LANE_COUNT <= b
  {
  }

  /** An empty buffer is the sum over a range without elements of the lane. */
  lemma EmptyLaneSum<T(!new)>(code: Code<T>, hist: seq<seq<T>>, lane: nat, s: nat, base: nat, element: nat)
    requires IsField(code.F) && base % LANE_COUNT == 0 && lane < LANE_COUNT
    ensures IsLaneSum(code, hist, lane, s, base + element, base + GetNextLaneElement(element, lane), [])
  {
    var from, next := base + element, base + GetNextLaneElement(element, lane);
    hide IsField;
    assert next % LANE_COUNT == lane && next < from + LANE_COUNT;
    forall pos: nat ensures LaneSumAt(code, hist, lane, s, from, next, [], pos) {
      GapIsZero(code, hist, lane, s, from, next, pos);
      SumZero(code.F, LaneTerm(code, hist, pos, lane, s), from, next);
    }
  }

  /** Before the first element of a lane there is nothing to sum. */
  lemma GapIsZero<T>(code: Code<T>, hist: seq<seq<T>>, lane: nat, s: nat, from: nat, next: nat, pos: nat)
    requires lane < LANE_COUNT && next % LANE_COUNT == lane && next < from + LANE_COUNT
    ensures forall c :: from <= c < next ==> LaneTerm(code, hist, pos, lane, s)(c) == code.F.zero
  {
    hide Wrap;
    var f := LaneTerm(code, hist, pos, lane, s);
    forall c | from <= c < next ensures f(c) == code.F.zero {
      assert f(c) == LaneAt(code, hist, pos, lane, s, c);
      WrapLane(c);
      if c % LANE_COUNT == lane {
        SameLaneGap(c, next);
      }
    }
  }

  /** Adding the next element of the lane. */
  lemma LaneSumStep<T(!new)>(code: Code<T>, hist: seq<seq<T>>, lane: nat, s: nat, from: int, next: int, sum: seq<T>,
      sum': seq<T>)
    requires IsField(code.F) && lane < LANE_COUNT && s < SUM_COUNT
    requires IsLaneSum(code, hist, lane, s, from, next, sum) && from <= next && 0 <= next < |hist|
             && next % LANE_COUNT == lane
    requires var packet := hist[next];
             var grown := GrowZeroPadded(code.F, sum, |packet|);
             sum' == if s == 0 then AddMem(code.F, grown, packet, |packet|)
                     else MulAddMem(code.F, grown, ColumnPower(code, Wrap(next), s), packet, |packet|)
    ensures IsLaneSum(code, hist, lane, s, from, next + LANE_COUNT, sum')
  {
    hide IsField;
    var next' := next + LANE_COUNT;
    forall pos: nat ensures LaneSumAt(code, hist, lane, s, from, next', sum', pos) {
      assert LaneSumAt(code, hist, lane, s, from, next, sum, pos);
      LaneSumStepAt(code, hist, lane, s, from, next, pos);
      var grown := GrowZeroPadded(code.F, sum, |hist[next]|);
      AddPacketAt(code.F, grown, ColumnPower(code, Wrap(next), s), s == 0, hist[next], pos);
    }
  }

  lemma LaneSumStepAt<T(!new)>(code: Code<T>, hist: seq<seq<T>>, lane: nat, s: nat, from: int, next: int, pos: nat)
    requires IsField(code.F) && lane < LANE_COUNT && from <= next && 0 <= next < |hist| && next % LANE_COUNT == lane
    ensures Sum(code.F, LaneTerm(code, hist, pos, lane, s), from, next + LANE_COUNT) ==
              code.F.add(Sum(code.F, LaneTerm(code, hist, pos, lane, s), from, next),
                         code.F.mul(ColumnPower(code, Wrap(next), s), At(code.F, hist[next], pos)))
  {
    var f, next' := LaneTerm(code, hist, pos, lane, s), next + LANE_COUNT;
    forall c | next + 1 <= c < next' ensures f(c) == code.F.zero {
      WrapLane(c);
      if c % LANE_COUNT == lane {
        SameLaneGap(next, c);
      }
    }
    SumZeroTail(code.F, f, from, next + 1, next');
    WrapLane(next);
    assert f(next) == LaneAt(code, hist, pos, lane, s, next);
  }

  lemma AddPacketAt<T(!new)>(F: Field<T>, z: seq<T>, y: T, plain: bool, x: seq<T>, pos: nat)
    requires IsField(F) && |x| <= |z| && (plain ==> y == F.one)
    ensures At(F, if plain then AddMem(F, z, x, |x|) else MulAddMem(F, z, y, x, |x|), pos) ==
              F.add(At(F, z, pos), F.mul(y, At(F, x, pos)))
  {
    MulAddMemAt(F, z, y, x, pos);
    MulOne(F, At(F, x, pos));
    AddZero(F, At(F, z, pos));
  }

  /** A new packet does not change the sums, which have not reached it yet. */
  lemma LaneSumGrows<T(!new)>(code: Code<T>, hist: seq<seq<T>>, packet: seq<T>, lane: nat, s: nat, from: int, next: int,
      sum: seq<T>)
    requires IsLaneSum(code, hist, lane, s, from, next, sum)
    requires next % LANE_COUNT == lane < LANE_COUNT && next < |hist| + LANE_COUNT && 0 <= from
    ensures IsLaneSum(code, hist + [packet], lane, s, from, next, sum)
  {
    var more := hist + [packet];
    forall pos: nat ensures LaneSumAt(code, more, lane, s, from, next, sum, pos) {
      var f, g := LaneTerm(code, hist, pos, lane, s), LaneTerm(code, more, pos, lane, s);
      forall c | from <= c < next ensures f(c) == g(c) {
        WrapLane(c);
        if c % LANE_COUNT == lane {
          SameLaneGap(c, next);
          assert more[c] == hist[c];
          assert Data(code.F, more, pos, c) == Data(code.F, hist, pos, c);
        }
        assert LaneAt(code, hist, pos, lane, s, c) == LaneAt(code, more, pos, lane, s, c);
      }
      SumCong(code.F, f, g, from, next);
      assert LaneSumAt(code, hist, lane, s, from, next, sum, pos);
    }
  }

  /** A sum that has passed the last packet is the sum over all packets. */
  lemma LaneSumTotal<T(!new)>(code: Code<T>, hist: seq<seq<T>>, lane: nat, s: nat, from: int, next: int, sum: seq<T>,
      pos: nat)
    requires IsField(code.F) && IsLaneSum(code, hist, lane, s, from, next, sum) && from <= |hist| <= next
    requires next % LANE_COUNT == lane < LANE_COUNT && next < |hist| + LANE_COUNT
    ensures At(code.F, sum, pos) == Sum(code.F, LaneTerm(code, hist, pos, lane, s), from, |hist|)
  {
    assert LaneSumAt(code, hist, lane, s, from, next, sum, pos);
    var f := LaneTerm(code, hist, pos, lane, s);
    forall c | |hist| <= c < next ensures f(c) == code.F.zero {
      WrapLane(c);
      if c % LANE_COUNT == lane {
        SameLaneGap(c, next);
      }
    }
    SumZeroTail(code.F, f, from, |hist|, next);
  }
}
