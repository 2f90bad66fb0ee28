/** The running sums of the decoder.  They outlive the packets they are made of: sums are rolled up
    over packets before these leave the window, over holes that are plugged once the packets have
    been recovered, and start over when a recovery packet tells of another sum. */
module DecoderSums {
  import opened Fields
  import opened Buffers
  import opened Columns
  import opened Recovery
  import opened LaneSums
  import opened DecoderWindows
  import opened Rows
  import opened RecoveryLists
  import opened Encoders
  import opened Elimination
  import opened Decoding
  import opened Removals
  import opened Options

  /** One sum of one lane: the elements it covers, and its value. */
  datatype DecoderSum<T> = DecoderSum(start: nat, end: nat, buffer: seq<T>)

  /** The first element of a lane in a sum that starts at a given number, in a window that starts at `base`. */
  function FirstElement(sumBase: nat, base: nat, lane: nat): nat
    requires lane < LANE_COUNT
  {
    GetNextLaneElement(if sumBase > base then sumBase - base else 0, lane)
  }

  /** A packet of a lane that a sum covers. */
  predicate Covers(lane: nat, from: nat, to: nat, c: nat) { from <= c < to && c % LANE_COUNT == lane }

  /** A sum over nothing but missing packets. */
  ghost predicate Blank<T>(hist: seq<seq<T>>, lane: nat, from: nat, to: nat) {
    forall c: nat :: Covers(lane, from, to, c) && c < |hist| ==> hist[c] == []
  }

  /** The sum of a lane is what it is meant to be: the weighted sum of the packets that it covers. */
  ghost predicate StandsFor<T>(code: Code<T>, hist: seq<seq<T>>, base: nat, sumBase: nat, lane: nat, s: nat,
      d: DecoderSum<T>)
  {
    && lane < LANE_COUNT && d.start == FirstElement(sumBase, base, lane) <= d.end && d.end % LANE_COUNT == lane
    && IsLaneSum(code, hist, lane, s, sumBase, base + d.end, d.buffer)
    && (d.buffer == [] ==> Blank(hist, lane, sumBase, base + d.end))
  }

  /** Adding a packet to a sum. */
  function Added<T>(code: Code<T>, buffer: seq<T>, column: nat, s: nat, packet: seq<T>): (r: seq<T>)
    ensures packet != [] ==> r != []
  {
    var grown := GrowZeroPadded(code.F, buffer, |packet|);
    if s == 0 then AddMem(code.F, grown, packet, |packet|)
    else MulAddMem(code.F, grown, ColumnPower(code, column, s), packet, |packet|)
  }

  lemma AddedNothing<T>(code: Code<T>, buffer: seq<T>, column: nat, s: nat)
    ensures Added(code, buffer, column, s, []) == buffer
  {
  }

  /** Where everything is missing, an empty buffer is the sum. */
  lemma BlankSum<T(!new)>(code: Code<T>, hist: seq<seq<T>>, lane: nat, s: nat, from: nat, to: nat)
    requires IsField(code.F) && Blank(hist, lane, from, to)
    ensures IsLaneSum(code, hist, lane, s, from, to, [])
  {
    hide IsField;
    forall pos: nat ensures LaneSumAt(code, hist, lane, s, from, to, [], pos) {
      var f := LaneTerm(code, hist, pos, lane, s);
      forall c | from <= c < to ensures f(c) == code.F.zero {
        WrapLane(c);
        if c % LANE_COUNT == lane {
          assert Covers(lane, from, to, c);
          MulZero(code.F, ColumnPower(code, Wrap(c), s));
        }
      }
      SumZero(code.F, f, from, to);
    }
  }

  lemma InLane(base: nat, element: nat)
    requires base % LANE_COUNT == 0
    ensures (base + element) % LANE_COUNT == element % LANE_COUNT
  {
  }

  /** A sum that starts over. */
  lemma FreshStands<T(!new)>(code: Code<T>, hist: seq<seq<T>>, base: nat, sumBase: nat, lane: nat, s: nat)
    requires IsField(code.F) && lane < LANE_COUNT && base % LANE_COUNT == 0
    requires Blank(hist, lane, sumBase, base + FirstElement(sumBase, base, lane))
    ensures var first := FirstElement(sumBase, base, lane);
            StandsFor(code, hist, base, sumBase, lane, s, DecoderSum(first, first, []))
  {
    hide IsLaneSum, IsField;
    BlankSum(code, hist, lane, s, sumBase, base + FirstElement(sumBase, base, lane));
  }

  /** Before the first element of a lane, a sum whose start is in the window covers nothing. */
  lemma NothingBefore<T>(hist: seq<seq<T>>, base: nat, sumBase: nat, lane: nat)
    requires base <= sumBase && lane < LANE_COUNT && base % LANE_COUNT == 0
    ensures Blank(hist, lane, sumBase, base + FirstElement(sumBase, base, lane))
  {
    hide GetNextLaneElement;
    var to := base + FirstElement(sumBase, base, lane);
    InLane(base, FirstElement(sumBase, base, lane));
    forall c: nat | Covers(lane, sumBase, to, c) ensures false {
      SameLaneGap(c, to);
    }
  }

  /** Adding the next element of the lane, missing or not. */
  lemma StepStands<T(!new)>(code: Code<T>, hist: seq<seq<T>>, base: nat, sumBase: nat, lane: nat, s: nat,
      d: DecoderSum<T>)
    requires IsField(code.F) && StandsFor(code, hist, base, sumBase, lane, s, d) && s < SUM_COUNT
    requires base % LANE_COUNT == 0 && base + d.end < |hist|
    ensures var buffer := Added(code, d.buffer, Wrap(base + d.end), s, hist[base + d.end]);
            StandsFor(code, hist, base, sumBase, lane, s, d.(end := d.end + LANE_COUNT, buffer := buffer))
  {
    hide IsField, IsLaneSum, Wrap;
    var next := base + d.end;
    var buffer := Added(code, d.buffer, Wrap(next), s, hist[next]);
    LaneSumStep(code, hist, lane, s, sumBase, next, d.buffer, buffer);
    if buffer == [] {
      forall c: nat | Covers(lane, sumBase, next + LANE_COUNT, c) && c < |hist| ensures hist[c] == [] {
        if c > next {
          SameLaneGap(next, c);
        } else if c < next {
          assert Covers(lane, sumBase, next, c);
          AddedLonger(code, d.buffer, Wrap(next), s, hist[next]);
        }
      }
    }
  }

  lemma AddedLonger<T>(code: Code<T>, buffer: seq<T>, column: nat, s: nat, packet: seq<T>)
    ensures |Added(code, buffer, column, s, packet)| >= |buffer|
  {
  }

  /** A packet that a sum does not cover does not matter to it. */
  lemma OtherStands<T(!new)>(code: Code<T>, hist: seq<seq<T>>, hist': seq<seq<T>>, base: nat, sumBase: nat, lane: nat,
      s: nat, d: DecoderSum<T>)
    requires StandsFor(code, hist, base, sumBase, lane, s, d)
    requires forall c: nat :: Covers(lane, sumBase, base + d.end, c) ==>
               (c < |hist| <==> c < |hist'|) && (c < |hist| && c < |hist'| ==> hist[c] == hist'[c])
    ensures StandsFor(code, hist', base, sumBase, lane, s, d)
  {
    var to := base + d.end;
    forall pos: nat ensures LaneSumAt(code, hist', lane, s, sumBase, to, d.buffer, pos) {
      assert LaneSumAt(code, hist, lane, s, sumBase, to, d.buffer, pos);
      var f, g := LaneTerm(code, hist, pos, lane, s), LaneTerm(code, hist', pos, lane, s);
      forall c | sumBase <= c < to ensures f(c) == g(c) {
        WrapLane(c);
        if c % LANE_COUNT == lane {
          assert Covers(lane, sumBase, to, c);
        }
      }
      SumCong(code.F, f, g, sumBase, to);
    }
  }

  /** Plugging a hole: the packet that was missing when the sum passed it is added. */
  lemma PlugStands<T(!new)>(code: Code<T>, hist: seq<seq<T>>, base: nat, sumBase: nat, lane: nat, s: nat,
      d: DecoderSum<T>, n: nat, packet: seq<T>)
    requires IsField(code.F) && StandsFor(code, hist, base, sumBase, lane, s, d)
    requires Covers(lane, sumBase, base + d.end, n) && n < |hist| && hist[n] == [] && packet != []
    ensures StandsFor(code, hist[n := packet], base, sumBase, lane, s,
                      d.(buffer := Added(code, d.buffer, Wrap(n), s, packet)))
  {
    hide IsField;
    var hist', to := hist[n := packet], base + d.end;
    var buffer := Added(code, d.buffer, Wrap(n), s, packet);
    forall pos: nat ensures LaneSumAt(code, hist', lane, s, sumBase, to, buffer, pos) {
      assert LaneSumAt(code, hist, lane, s, sumBase, to, d.buffer, pos);
      PlugAt(code, hist, lane, s, sumBase, to, n, packet, pos);
      var grown := GrowZeroPadded(code.F, d.buffer, |packet|);
      AddPacketAt(code.F, grown, ColumnPower(code, Wrap(n), s), s == 0, packet, pos);
    }
  }

  lemma PlugAt<T(!new)>(code: Code<T>, hist: seq<seq<T>>, lane: nat, s: nat, from: nat, to: nat, n: nat, packet: seq<T>,
      pos: nat)
    requires IsField(code.F) && Covers(lane, from, to, n) && n < |hist| && hist[n] == []
    ensures Sum(code.F, LaneTerm(code, hist[n := packet], pos, lane, s), from, to) ==
              code.F.add(Sum(code.F, LaneTerm(code, hist, pos, lane, s), from, to),
                         code.F.mul(ColumnPower(code, Wrap(n), s), At(code.F, packet, pos)))
  {
    hide IsField;
    var F, term := code.F, code.F.mul(ColumnPower(code, Wrap(n), s), At(code.F, packet, pos));
    var f, h := LaneTerm(code, hist, pos, lane, s), LaneTerm(code, hist[n := packet], pos, lane, s);
    var g := (c: int) => if c == n then term else F.zero;
    WrapLane(n);
    MulZero(F, ColumnPower(code, Wrap(n), s));
    AddZero(F, term);
    forall c | from <= c < to ensures h(c) == F.add(f(c), g(c)) {
      assert f(c) == LaneAt(code, hist, pos, lane, s, c) && h(c) == LaneAt(code, hist[n := packet], pos, lane, s, c);
      AddZero(F, f(c));
    }
    SumAdd(F, f, g, h, from, to);
    SumSingle(F, g, from, to, n);
  }

  /** Zeros behind a sum do not change it. */
  lemma GrownStands<T(!new)>(code: Code<T>, hist: seq<seq<T>>, base: nat, sumBase: nat, lane: nat, s: nat,
      d: DecoderSum<T>, bytes: nat)
    requires StandsFor(code, hist, base, sumBase, lane, s, d)
    ensures StandsFor(code, hist, base, sumBase, lane, s, d.(buffer := GrowZeroPadded(code.F, d.buffer, bytes)))
  {
    var to, grown := base + d.end, GrowZeroPadded(code.F, d.buffer, bytes);
    forall pos: nat ensures LaneSumAt(code, hist, lane, s, sumBase, to, grown, pos) {
      assert LaneSumAt(code, hist, lane, s, sumBase, to, d.buffer, pos);
      assert At(code.F, grown, pos) == At(code.F, d.buffer, pos);
    }
  }

  /** What StartSums makes of a sum: one without data, or with another start, starts over. */
  function Started<T>(F: Field<T>, d: DecoderSum<T>, first: nat, bytes: nat): DecoderSum<T> {
    if d.buffer == [] || d.start != first then DecoderSum(first, first, GrowZeroPadded(F, [], bytes))
    else d.(buffer := GrowZeroPadded(F, d.buffer, bytes))
  }

  /** A sum that goes on stays what it is, also when it has no data yet. */
  lemma StartedStands<T(!new)>(code: Code<T>, hist: seq<seq<T>>, base: nat, sumBase: nat, lane: nat, s: nat,
      d: DecoderSum<T>, bytes: nat)
    requires IsField(code.F) && base % LANE_COUNT == 0 && lane < LANE_COUNT
    requires StandsFor(code, hist, base, sumBase, lane, s, d)
             || (base <= sumBase && d.start != FirstElement(sumBase, base, lane))
             || (base <= sumBase && d.buffer == [])
    ensures StandsFor(code, hist, base, sumBase, lane, s, Started(code.F, d, FirstElement(sumBase, base, lane), bytes))
  {
    hide IsField, IsLaneSum;
    var first := FirstElement(sumBase, base, lane);
    if d.buffer == [] || d.start != first {
      if base <= sumBase {
        NothingBefore(hist, base, sumBase, lane);
      } else {
        forall c: nat | Covers(lane, sumBase, base + first, c) && c < |hist| ensures hist[c] == [] {
          assert Covers(lane, sumBase, base + d.end, c);
        }
      }
      FreshStands(code, hist, base, sumBase, lane, s);
      GrownStands(code, hist, base, sumBase, lane, s, DecoderSum(first, first, []), bytes);
    } else {
      GrownStands(code, hist, base, sumBase, lane, s, d, bytes);
    }
  }

  /** The window moves on behind a sum that covers everything before. */
  lemma ShiftedStands<T>(code: Code<T>, hist: seq<seq<T>>, base: nat, sumBase: nat, lane: nat, s: nat, d: DecoderSum<T>,
      removed: nat)
    requires StandsFor(code, hist, base, sumBase, lane, s, d) && removed <= d.end && removed % LANE_COUNT == 0
    ensures var start := if d.start >= removed then d.start - removed else lane;
            StandsFor(code, hist, base + removed, sumBase, lane, s, DecoderSum(start, d.end - removed, d.buffer))
  {
    hide IsLaneSum, Blank, GetNextLaneElement;
    ShiftedFirst(sumBase, base, lane, removed);
    assert base + removed + (d.end - removed) == base + d.end;
  }

  lemma ShiftedFirst(sumBase: nat, base: nat, lane: nat, removed: nat)
    requires lane < LANE_COUNT && removed % LANE_COUNT == 0
    ensures var first := FirstElement(sumBase, base, lane);
            FirstElement(sumBase, base + removed, lane) == if first >= removed then first - removed else lane
  {
    var e := if sumBase > base then sumBase - base else 0;
    if e >= removed {
      assert (e - removed) % LANE_COUNT == e % LANE_COUNT;
    }
  }

  /** The packets, without those whose holes have not been plugged. */
  ghost function Without<T>(received: seq<seq<T>>, waiting: seq<nat>): (r: seq<seq<T>>)
    ensures |r| == |received|
    ensures forall i :: 0 <= i < |r| ==> r[i] == if i in waiting then [] else received[i]
  {
    seq(|received|, i requires 0 <= i < |received| => if i in waiting then [] else received[i])
  }

  /** Everything that a sum covers has been received, but for the packets about to be recovered. */
  ghost predicate Settled<T>(received: seq<seq<T>>, lost: set<nat>, lane: nat, from: nat, to: nat) {
    forall c: nat :: Covers(lane, from, to, c) ==> c in lost || (c < |received| && received[c] != [])
  }

  /** The packets that a sum is over, and where everything stands. */
  datatype Ground<T> = Ground(received: seq<seq<T>>, waiting: seq<nat>, base: nat, sumBase: nat, limit: nat)

  /** A sum of a lane in its place: it stands for the packets it covers, does not go further than it is
      meant to, and covers no packet that may still arrive. */
  ghost predicate SumOk<T>(code: Code<T>, g: Ground<T>, lost: set<nat>, lane: nat, s: nat, d: DecoderSum<T>) {
    && StandsFor(code, Without(g.received, g.waiting), g.base, g.sumBase, lane, s, d)
    && g.base + d.end < g.limit + LANE_COUNT && Settled(g.received, lost, lane, g.sumBase, g.base + d.end)
  }

  class RunningSums<T(==, 0, !new)> {
    const code: Code<T>

    /** The packets in the window, the missing ones empty. */
    var window: seq<seq<T>>
    var columnStart: nat

    const lanes: array2<DecoderSum<T>>
    var sumColumnStart: nat
    var sumColumnCount: nat
    var recoveredColumns: seq<nat>

    /** The packets that have left the window. */
    ghost var gone: seq<seq<T>>

    /** The true numbers of the recovered columns, and of the packet that the sums start from. */
    ghost var waiting: seq<nat>
    ghost var sumBase: nat

    /** How far the sums may reach. */
    ghost var limit: nat

    /** Whether the sums are kept up, and if not, where the window was when that ended. */
    ghost var live: bool
    ghost var anchor: nat

    ghost function Received(): seq<seq<T>>
      reads this
    {
      gone + window
    }

    ghost function TheGround(): Ground<T>
      reads this
    {
      Ground(Received(), waiting, |gone|, sumBase, limit)
    }

    ghost function Sum(): Running
      reads this
    {
      Running(sumColumnStart, sumColumnCount)
    }

    ghost predicate Shape()
      reads this
    {
      && IsField(code.F) && lanes.Length0 == LANE_COUNT && lanes.Length1 == SUM_COUNT
      && columnStart == Wrap(|gone|) && |gone| % LANE_COUNT == 0 && |window| <= COLUMN_PERIOD / 2
      && (forall i :: 0 <= i < |gone| ==> gone[i] != []) && sumColumnStart == Wrap(sumBase)
      && WaitingOk(Received(), waiting, recoveredColumns)
    }

    static ghost predicate WaitingOk(received: seq<seq<T>>, waiting: seq<nat>, columns: seq<nat>) {
      && |waiting| == |columns|
      && (forall i :: 0 <= i < |waiting| ==>
            waiting[i] < |received| && received[waiting[i]] != [] && columns[i] == Wrap(waiting[i]))
      && forall i, j :: 0 <= i < j < |waiting| ==> waiting[i] != waiting[j]
    }

    /** Every sum is in its place, but for the packets about to be recovered. */
    ghost predicate Live(lost: set<nat>)
      requires lanes.Length0 == LANE_COUNT && lanes.Length1 == SUM_COUNT
      reads this, lanes
    {
      && sumBase <= limit && |gone| <= limit <= |Received()|
      && (forall i :: 0 <= i < |waiting| ==> |gone| <= waiting[i])
      && forall l, s :: 0 <= l < LANE_COUNT && 0 <= s < SUM_COUNT ==> SumOk(code, TheGround(), lost, l, s, lanes[l, s])
    }

    /** Sums that are not kept up start over when their start is asked for again. */
    ghost predicate Dormant()
      requires lanes.Length0 == LANE_COUNT && lanes.Length1 == SUM_COUNT
      reads this, lanes
    {
      forall l, s :: 0 <= l < LANE_COUNT && 0 <= s < SUM_COUNT ==> Resets(lanes[l, s], sumBase, |gone|, anchor, l)
    }

    static ghost predicate Resets(d: DecoderSum<T>, sumBase: nat, base: nat, anchor: nat, lane: nat)
      requires lane < LANE_COUNT
    {
      d.buffer == [] || sumBase < base
        || (anchor < base && anchor + d.start == base + FirstElement(sumBase, base, lane))
    }

    ghost predicate Sound(lost: set<nat>)
      reads this, lanes
    {
      Shape() && if live then Live(lost) else Dormant()
    }

    ghost predicate Valid()
      reads this, lanes
    {
      Sound({})
    }

    constructor (code: Code<T>)
      requires IsField(code.F)
      ensures Valid() && Received() == [] && Sum() == Running(0, 0) && this.code == code && fresh(lanes)
    {
      hide IsField;
      this.code := code;
      window, columnStart, gone := [], 0, [];
      lanes := new DecoderSum<T>[LANE_COUNT, SUM_COUNT]((l, s) => DecoderSum(0, 0, []));
      sumColumnStart, sumColumnCount, recoveredColumns, waiting, sumBase := 0, 0, [], [], 0;
      limit, live, anchor := 0, false, 0;
      new;
      WrapSmall(0);
    }

    /** More packets may be about to be recovered. */
    lemma SoundMore(lost: set<nat>, more: set<nat>)
      requires Sound(lost) && lost <= more
      ensures Sound(more)
    {
      hide IsField, StandsFor, Wrap;
      if live {
        forall l, s | 0 <= l < LANE_COUNT && 0 <= s < SUM_COUNT
          ensures SumOk(code, TheGround(), more, l, s, lanes[l, s]) {
          assert SumOk(code, TheGround(), lost, l, s, lanes[l, s]);
        }
      }
    }

    // ----- packets that arrive and packets that are recovered

    /** An original packet that was missing. */
    method AddOriginal(element: nat, packet: seq<T>)
      requires Valid() && packet != [] && element < COLUMN_PERIOD / 2 && (element < |window| ==> window[element] == [])
      modifies this`window
      ensures Valid() && gone == old(gone)
      ensures var n := |old(window)|;
              var grown := old(window) + Nothing(if element < n then 0 else element + 1 - n);
              window == grown[element := packet]
    {
      hide IsField, StandsFor;
      ghost var g := TheGround();
      if element >= |window| {
        window := window + Nothing(element + 1 - |window|);
      }
      window := window[element := packet];
      if live {
        forall l, s | 0 <= l < LANE_COUNT && 0 <= s < SUM_COUNT
          ensures SumOk(code, TheGround(), {}, l, s, lanes[l, s]) {
          assert SumOk(code, g, {}, l, s, lanes[l, s]);
          ArrivedOk(g, TheGround(), l, s, lanes[l, s], |gone| + element);
        }
      }
    }

    /** A packet that arrives is not one that a sum has passed. */
    lemma ArrivedOk(g: Ground<T>, g': Ground<T>, l: nat, s: nat, d: DecoderSum<T>, n: nat)
      requires SumOk(code, g, {}, l, s, d) && g' == g.(received := g'.received) && |g.received| <= |g'.received|
      requires g.limit <= |g.received| && (n < |g.received| ==> g.received[n] == [])
      requires forall i :: 0 <= i < |g.received| && i != n ==> g'.received[i] == g.received[i]
      ensures SumOk(code, g', {}, l, s, d)
    {
      hide StandsFor;
      var h, h' := Without(g.received, g.waiting), Without(g'.received, g'.waiting);
      forall c: nat | Covers(l, g.sumBase, g.base + d.end, c)
        ensures c < |h| && c < |h'| && h[c] == h'[c]
        ensures c < |g'.received| && g'.received[c] != []
      {
      }
      OtherStands(code, h, h', g.base, g.sumBase, l, s, d);
    }

    /** A packet is recovered: if a sum has passed it, it leaves a hole to be plugged. */
    method Recover(element: nat, packet: seq<T>, ghost lost: set<nat>)
      requires Sound(lost) && element < |window| && window[element] == [] && packet != []
      modifies this`window, this`recoveredColumns, this`waiting
      ensures Sound(lost - {|gone| + element}) && window == old(window)[element := packet] && gone == old(gone)
    {
      hide IsField, StandsFor, Wrap, SumOk, Without;
      ghost var g, n := TheGround(), |gone| + element;
      AddWrapped(|gone|, element);
      window := window[element := packet];
      recoveredColumns := recoveredColumns + [AddColumns(element, columnStart)];
      waiting := waiting + [n];
      assert Received() == g.received[n := packet] && g.received[n] == [];
      if live {
        forall l, s | 0 <= l < LANE_COUNT && 0 <= s < SUM_COUNT
          ensures SumOk(code, TheGround(), lost - {n}, l, s, lanes[l, s])
        {
          RecoveredOk(g, lost, l, s, lanes[l, s], n, packet);
        }
      }
    }

    /** A packet that waits to be plugged counts as missing, and is about to be recovered no more. */
    lemma RecoveredOk(g: Ground<T>, lost: set<nat>, l: nat, s: nat, d: DecoderSum<T>, n: nat, packet: seq<T>)
      requires SumOk(code, g, lost, l, s, d) && n < |g.received| && g.received[n] == [] && packet != []
      ensures SumOk(code, g.(received := g.received[n := packet], waiting := g.waiting + [n]), lost - {n}, l, s, d)
    {
      hide StandsFor;
      assert Without(g.received[n := packet], g.waiting + [n]) == Without(g.received, g.waiting);
    }

    // ----- starting, plugging and rolling

    /** The sums start over at an element of the window. */
    method ResetSums(elementStart: nat, column: nat, ghost lost: set<nat>)
      requires Shape() && elementStart < |window| && column == Wrap(|gone| + elementStart)
      modifies this`sumColumnStart, this`recoveredColumns, this`waiting, this`sumBase, this`limit, this`live, lanes
      ensures Sound(lost) && live && waiting == [] && sumBase == |gone| + elementStart && limit == sumBase
      ensures sumColumnStart == column
    {
      hide IsField, IsLaneSum;
      for lane := 0 to LANE_COUNT
        invariant forall l, s :: 0 <= l < lane && 0 <= s < SUM_COUNT ==>
                    lanes[l, s] == DecoderSum(GetNextLaneElement(elementStart, l), GetNextLaneElement(elementStart, l),
                        [])
      {
        var first := GetNextLaneElement(elementStart, lane);
        for sum := 0 to SUM_COUNT
          invariant forall l, s :: 0 <= l < lane && 0 <= s < SUM_COUNT ==>
                      lanes[l, s] == DecoderSum(GetNextLaneElement(elementStart, l),
                          GetNextLaneElement(elementStart, l), [])
          invariant forall s :: 0 <= s < sum ==> lanes[lane, s] == DecoderSum(first, first, [])
        {
          lanes[lane, sum] := DecoderSum(first, first, []);
        }
      }
      recoveredColumns, waiting := [], [];
      sumColumnStart, sumBase, live := column, |gone| + elementStart, true;
      limit := sumBase;
      forall l, s | 0 <= l < LANE_COUNT && 0 <= s < SUM_COUNT
        ensures SumOk(code, TheGround(), lost, l, s, lanes[l, s]) {
        FreshOk(TheGround(), lost, l, s);
      }
    }

    /** A sum that starts over covers nothing yet. */
    lemma FreshOk(g: Ground<T>, lost: set<nat>, l: nat, s: nat)
      requires IsField(code.F) && g.base % LANE_COUNT == 0 && g.base <= g.sumBase <= g.limit && l < LANE_COUNT
      ensures var first := FirstElement(g.sumBase, g.base, l); SumOk(code, g, lost, l, s, DecoderSum(first, first, []))
    {
      hide IsField, StandsFor, Without, GetNextLaneElement, Blank, Settled;
      var h := Without(g.received, g.waiting);
      NothingBefore(h, g.base, g.sumBase, l);
      FreshStands(code, h, g.base, g.sumBase, l, s);
      StartedSettled(g, lost, l, s, DecoderSum(0, 0, []));
    }

    /** A sum that goes on, or one that is not kept up and starts over. */
    lemma StartedOk(g: Ground<T>, lost: set<nat>, l: nat, s: nat, d: DecoderSum<T>, bytes: nat)
      requires IsField(code.F) && g.base % LANE_COUNT == 0 && g.sumBase <= g.limit && g.base <= g.limit
               && l < LANE_COUNT
      requires SumOk(code, g, lost, l, s, d)
               || (g.base <= g.sumBase && (d.buffer == [] || d.start != FirstElement(g.sumBase, g.base, l)))
      ensures SumOk(code, g, lost, l, s, Started(code.F, d, FirstElement(g.sumBase, g.base, l), bytes))
      ensures !SumOk(code, g, lost, l, s, d) ==>
                Started(code.F, d, FirstElement(g.sumBase, g.base, l), bytes).end == FirstElement(g.sumBase, g.base, l)
    {
      hide IsField, StandsFor, Without, Settled;
      StartedStands(code, Without(g.received, g.waiting), g.base, g.sumBase, l, s, d, bytes);
      hide GetNextLaneElement;
      StartedSettled(g, lost, l, s, d);
    }

    lemma StartedSettled(g: Ground<T>, lost: set<nat>, l: nat, s: nat, d: DecoderSum<T>)
      requires g.base % LANE_COUNT == 0 && l < LANE_COUNT && (g.base <= g.sumBase || SumOk(code, g, lost, l, s, d))
      ensures Settled(g.received, lost, l, g.sumBase, g.base + FirstElement(g.sumBase, g.base, l))
    {
      hide IsLaneSum, Without, GetNextLaneElement, Blank;
      var to := g.base + FirstElement(g.sumBase, g.base, l);
      forall c: nat | Covers(l, g.sumBase, to, c) ensures c in lost || (c < |g.received| && g.received[c] != []) {
        if g.base <= g.sumBase {
          InLane(g.base, FirstElement(g.sumBase, g.base, l));
          SameLaneGap(c, to);
        } else {
          assert Covers(l, g.sumBase, g.base + d.end, c);
        }
      }
    }

    /** Whether the sums are as they should be, whatever waits to be plugged. */
    ghost predicate InPlace(g: Ground<T>, lost: set<nat>)
      requires lanes.Length0 == LANE_COUNT && lanes.Length1 == SUM_COUNT
      reads this, lanes
    {
      forall l, s :: 0 <= l < LANE_COUNT && 0 <= s < SUM_COUNT ==> SumOk(code, g, lost, l, s, lanes[l, s])
    }

    /** Nothing is covered yet. */
    ghost predicate Empty()
      requires lanes.Length0 == LANE_COUNT && lanes.Length1 == SUM_COUNT
      reads this, lanes
    {
      |gone| <= sumBase
      && forall l, s :: 0 <= l < LANE_COUNT && 0 <= s < SUM_COUNT ==>
           lanes[l, s].end == FirstElement(sumBase, |gone|, l)
    }

    /** Gets the sums ready to go on, and plugs the holes that have been recovered. */
    method StartSums(elementStart: nat, bytes: nat, ghost lost: set<nat>)
      requires Sound(lost) && (live || |gone| <= sumBase) && sumBase <= |Received()|
      requires elementStart == if sumBase > |gone| then sumBase - |gone| else 0
      modifies this`recoveredColumns, this`waiting, this`limit, this`live, lanes
      ensures Sound(lost) && live && waiting == [] && limit == if old(live) then old(limit) else sumBase
    {
      hide IsField, SumOk, Without;
      for lane := 0 to LANE_COUNT
        invariant unchanged(this)
        invariant forall l, s :: 0 <= l < LANE_COUNT && 0 <= s < SUM_COUNT ==>
                    lanes[l, s] == if l < lane
                      then Started(code.F, old(lanes[l, s]), GetNextLaneElement(elementStart, l), bytes)
                                   else old(lanes[l, s])
      {
        var first := GetNextLaneElement(elementStart, lane);
        for sum := 0 to SUM_COUNT
          invariant unchanged(this)
          invariant forall l, s :: 0 <= l < LANE_COUNT && 0 <= s < SUM_COUNT ==>
                      lanes[l, s] == if l < lane || (l == lane && s < sum)
                                     then Started(code.F, old(lanes[l, s]), GetNextLaneElement(elementStart, l), bytes)
                                     else old(lanes[l, s])
        {
          lanes[lane, sum] := Started(code.F, lanes[lane, sum], first, bytes);
        }
      }
      ghost var wasLive := live;
      if !live {
        live, limit := true, sumBase;
      }
      forall l, s | 0 <= l < LANE_COUNT && 0 <= s < SUM_COUNT
        ensures SumOk(code, TheGround(), lost, l, s, lanes[l, s])
        ensures !wasLive ==> lanes[l, s].end == FirstElement(sumBase, |gone|, l)
      {
        if !wasLive {
          assert Resets(old(lanes[l, s]), sumBase, |gone|, anchor, l);
        }
        StartedOk(TheGround(), lost, l, s, old(lanes[l, s]), bytes);
      }
      if recoveredColumns != [] {
        PlugSumHoles(elementStart, lost);
      }
    }

    /** Adds the recovered packets to the sums that have passed them. */
    method PlugSumHoles(elementStart: nat, ghost lost: set<nat>)
      requires Shape() && live && InPlace(TheGround(), lost) && |gone| <= limit <= |Received()| && sumBase <= limit
      requires (forall i :: 0 <= i < |waiting| ==> |gone| <= waiting[i]) || Empty()
      requires elementStart == if sumBase > |gone| then sumBase - |gone| else 0
      modifies this`recoveredColumns, this`waiting, lanes
      ensures Sound(lost) && waiting == []
    {
      hide IsField, SumOk, Without, Wrap;
      assert waiting[0..] == waiting;
      for i := 0 to |recoveredColumns|
        invariant waiting == old(waiting) && recoveredColumns == old(recoveredColumns) && Shape()
        invariant InPlace(TheGround().(waiting := waiting[i..]), lost)
        invariant (forall i :: 0 <= i < |waiting| ==> |gone| <= waiting[i]) || Empty()
      {
        PlugColumn(i, elementStart, lost);
      }
      assert waiting[|recoveredColumns|..] == [];
      recoveredColumns, waiting := [], [];
    }

    /** The effect of one recovered column on one sum. */
    static function Plugged(code: Code<T>, d: DecoderSum<T>, s: nat, element: nat, first: nat, column: nat,
        packet: seq<T>): DecoderSum<T>
    {
      if first <= element < d.end then d.(buffer := Added(code, d.buffer, column, s, packet)) else d
    }

    method PlugColumn(i: nat, elementStart: nat, ghost lost: set<nat>)
      requires Shape() && i < |waiting| && InPlace(TheGround().(waiting := waiting[i..]), lost)
      requires |gone| <= limit <= |Received()| && sumBase <= limit
      requires (forall i :: 0 <= i < |waiting| ==> |gone| <= waiting[i]) || Empty()
      requires elementStart == if sumBase > |gone| then sumBase - |gone| else 0
      modifies lanes
      ensures InPlace(TheGround().(waiting := waiting[i + 1..]), lost)
      ensures old(Empty()) ==> Empty()
    {
      hide IsField, SumOk, Without, Wrap, Added;
      var column := recoveredColumns[i];
      ghost var n := waiting[i];
      var element := SubtractColumns(column, columnStart);
      SubtractWrapped(n, |gone|);
      if element >= |window| {
        forall l, s | 0 <= l < LANE_COUNT && 0 <= s < SUM_COUNT
          ensures SumOk(code, TheGround().(waiting := waiting[i + 1..]), lost, l, s, lanes[l, s])
        {
          NotCovered(n, element, l, s);
          UnpluggedOk(i, lost, l, s, lanes[l, s]);
        }
        return;
      }
      WrapLane(n);
      var lane := column % LANE_COUNT;
      var first := GetNextLaneElement(elementStart, lane);
      PlugLane(lane, first, element, column);
      forall l, s | 0 <= l < LANE_COUNT && 0 <= s < SUM_COUNT
        ensures SumOk(code, TheGround().(waiting := waiting[i + 1..]), lost, l, s, lanes[l, s])
      {
        PlugOk(i, lost, l, s, old(lanes[l, s]), element, first, old(Empty()));
      }
    }

    /** What plugging does to one sum. */
    lemma PlugOk(i: nat, lost: set<nat>, l: nat, s: nat, d: DecoderSum<T>, element: nat, first: nat, empty: bool)
      requires Shape() && i < |waiting| && SumOk(code, TheGround().(waiting := waiting[i..]), lost, l, s, d)
      requires element == SubtractColumns(recoveredColumns[i], columnStart) < |window| && l < LANE_COUNT
      requires |gone| <= waiting[i] || (empty && |gone| <= sumBase && d.end == FirstElement(sumBase, |gone|, l))
      requires l == recoveredColumns[i] % LANE_COUNT ==> first == FirstElement(sumBase, |gone|, l)
      ensures SumOk(code, TheGround().(waiting := waiting[i + 1..]), lost, l, s,
                    if l == recoveredColumns[i] % LANE_COUNT
                    then Plugged(code, d, s, element, first, recoveredColumns[i], window[element]) else d)
    {
      hide IsField, Wrap, Added, IsLaneSum, Without;
      var n := waiting[i];
      WrapLane(n);
      SubtractWrapped(n, |gone|);
      if |gone| <= n {
        assert n == |gone| + element && Received()[n] == window[element];
        if l == n % LANE_COUNT {
          FirstOrLater(n, l);
        }
        if Covers(l, sumBase, |gone| + d.end, n) {
          PluggedOk(i, lost, l, s, d);
        } else {
          UnpluggedOk(i, lost, l, s, d);
        }
      } else {
        UnpluggedOk(i, lost, l, s, d);
      }
    }

    /** A packet of the lane is in the sum exactly when its element is not before the first one. */
    lemma FirstOrLater(n: nat, l: nat)
      requires |gone| % LANE_COUNT == 0 && |gone| <= n && n % LANE_COUNT == l
      ensures sumBase <= n <==> FirstElement(sumBase, |gone|, l) <= n - |gone|
    {
      hide GetNextLaneElement;
      var first := FirstElement(sumBase, |gone|, l);
      if sumBase <= n && n - |gone| < first {
        SameLaneGap(n, |gone| + first);
      }
    }

    /** A recovered packet that has left the window, or one that the sums have not come to. */
    lemma NotCovered(n: nat, element: nat, l: nat, s: nat)
      requires Shape() && l < LANE_COUNT && s < SUM_COUNT && n < |Received()|
      requires element == SubtractColumns(Wrap(n), columnStart) >= |window|
      requires |gone| <= n || Empty()
      ensures !Covers(l, sumBase, |gone| + lanes[l, s].end, n)
    {
      hide IsField, Wrap;
      SubtractWrapped(n, |gone|);
    }

    method PlugLane(lane: nat, first: nat, element: nat, column: nat)
      requires lanes.Length0 == LANE_COUNT && lanes.Length1 == SUM_COUNT && lane < LANE_COUNT && element < |window|
      modifies lanes
      ensures forall l, s :: 0 <= l < LANE_COUNT && 0 <= s < SUM_COUNT ==>
                lanes[l, s] == if l == lane
                  then Plugged(code, old(lanes[l, s]), s, element, first, column, window[element])
                               else old(lanes[l, s])
    {
      hide Added;
      for sum := 0 to SUM_COUNT
        invariant forall l, s :: 0 <= l < LANE_COUNT && 0 <= s < SUM_COUNT ==>
                    lanes[l, s] == if l == lane && s < sum
                                   then Plugged(code, old(lanes[l, s]), s, element, first, column, window[element])
                                   else old(lanes[l, s])
      {
        lanes[lane, sum] := Plugged(code, lanes[lane, sum], sum, element, first, column, window[element]);
      }
    }

    /** The next packet is no longer taken for missing. */
    lemma NextWaiting(i: nat)
      requires Shape() && i < |waiting|
      ensures var h, n := Without(Received(), waiting[i..]), waiting[i];
              n < |h| && h[n] == [] && Received()[n] != []
              && Without(Received(), waiting[i + 1..]) == h[n := Received()[n]]
    {
      hide IsField, Wrap;
      var h, n := Without(Received(), waiting[i..]), waiting[i];
      assert waiting[i..] == [n] + waiting[i + 1..];
      assert n !in waiting[i + 1..];
    }

    /** A sum that does not cover the packet. */
    lemma UnpluggedOk(i: nat, lost: set<nat>, l: nat, s: nat, d: DecoderSum<T>)
      requires Shape() && i < |waiting| && SumOk(code, TheGround().(waiting := waiting[i..]), lost, l, s, d)
      requires !Covers(l, sumBase, |gone| + d.end, waiting[i])
      ensures SumOk(code, TheGround().(waiting := waiting[i + 1..]), lost, l, s, d)
    {
      hide IsField, Wrap, StandsFor;
      NextWaiting(i);
      OtherStands(code, Without(Received(), waiting[i..]), Without(Received(), waiting[i + 1..]), |gone|, sumBase, l, s,
          d);
    }

    /** A sum that does. */
    lemma PluggedOk(i: nat, lost: set<nat>, l: nat, s: nat, d: DecoderSum<T>)
      requires Shape() && i < |waiting| && SumOk(code, TheGround().(waiting := waiting[i..]), lost, l, s, d)
      requires Covers(l, sumBase, |gone| + d.end, waiting[i])
      ensures var n := waiting[i];
              SumOk(code, TheGround().(waiting := waiting[i + 1..]), lost, l, s,
                    d.(buffer := Added(code, d.buffer, Wrap(n), s, Received()[n])))
    {
      hide IsField, Wrap, StandsFor, Added;
      NextWaiting(i);
      PlugStands(code, Without(Received(), waiting[i..]), |gone|, sumBase, l, s, d, waiting[i], Received()[waiting[i]]);
    }

    /** Rolls one sum up to an element. */
    method GetSum(lane: nat, sum: nat, elementEnd: nat, ghost lost: set<nat>) returns (buffer: seq<T>)
      requires Sound(lost) && live && waiting == [] && lane < LANE_COUNT && sum < SUM_COUNT
      requires elementEnd <= |window| && |gone| + elementEnd <= limit
      requires forall c :: sumBase <= c < |gone| + elementEnd ==> c in lost || Received()[c] != []
      modifies lanes
      ensures Sound(lost) && buffer == lanes[lane, sum].buffer && elementEnd <= lanes[lane, sum].end
      ensures forall l, s :: 0 <= l < LANE_COUNT && 0 <= s < SUM_COUNT && (l != lane || s != sum) ==>
                lanes[l, s] == old(lanes[l, s])
    {
      hide IsField, StandsFor, Wrap;
      assert SumOk(code, TheGround(), lost, lane, sum, lanes[lane, sum]);
      var d := lanes[lane, sum];
      while d.end < elementEnd
        invariant unchanged(lanes) && SumOk(code, TheGround(), lost, lane, sum, d)
      {
        d := Accumulate(lane, sum, d, elementEnd, lost);
      }
      lanes[lane, sum] := d;
      buffer := d.buffer;
      forall l, s | 0 <= l < LANE_COUNT && 0 <= s < SUM_COUNT
        ensures SumOk(code, TheGround(), lost, l, s, lanes[l, s]) {
        if l != lane || s != sum {
          assert SumOk(code, TheGround(), lost, l, s, old(lanes[l, s]));
        }
      }
    }

    /** Adds one element of the lane, if it is there. */
    method Accumulate(lane: nat, sum: nat, d: DecoderSum<T>, elementEnd: nat, ghost lost: set<nat>)
      returns (d': DecoderSum<T>)
      requires Shape() && waiting == [] && SumOk(code, TheGround(), lost, lane, sum, d) && sum < SUM_COUNT
      requires d.end < elementEnd <= |window| && |gone| + elementEnd <= limit
      requires forall c :: sumBase <= c < |gone| + elementEnd ==> c in lost || Received()[c] != []
      ensures SumOk(code, TheGround(), lost, lane, sum, d') && d'.end == d.end + LANE_COUNT
    {
      hide IsField, StandsFor, Wrap, Added, Settled, Without;
      ghost var g := TheGround();
      NoneWaiting(g.received);
      var original, column := window[d.end], AddColumns(d.end, columnStart);
      AddWrapped(|gone|, d.end);
      assert Received()[|gone| + d.end] == original;
      StepStands(code, g.received, g.base, g.sumBase, lane, sum, d);
      AddedNothing(code, d.buffer, column, sum);
      d' := DecoderSum(d.start, d.end + LANE_COUNT,
                       if original == [] then d.buffer else Added(code, d.buffer, column, sum, original));
      LaneOf(g.received, g.base, g.sumBase, lane, sum, d);
      SettledStep(g.received, lost, lane, sumBase, |gone| + d.end);
    }

    lemma NoneWaiting(received: seq<seq<T>>)
      ensures Without(received, []) == received
    {
    }

    lemma LaneOf(received: seq<seq<T>>, base: nat, from: nat, lane: nat, sum: nat, d: DecoderSum<T>)
      requires StandsFor(code, received, base, from, lane, sum, d) && base % LANE_COUNT == 0
      ensures (base + d.end) % LANE_COUNT == lane
    {
      hide IsLaneSum, Blank;
    }

    /** One more packet of the lane, received or about to be recovered. */
    lemma SettledStep(received: seq<seq<T>>, lost: set<nat>, lane: nat, from: nat, n: nat)
      requires Settled(received, lost, lane, from, n) && n % LANE_COUNT == lane
      requires from <= n ==> n in lost || (n < |received| && received[n] != [])
      ensures Settled(received, lost, lane, from, n + LANE_COUNT)
    {
      forall c: nat | Covers(lane, from, n + LANE_COUNT, c) ensures c in lost || (c < |received| && received[c] != []) {
        if c > n {
          SameLaneGap(n, c);
        } else if c < n {
          assert Covers(lane, from, n, c);
        }
      }
    }

    // ----- eliminating received packets from recovery packets

    /** Whether two sums that start at the same column start at the same packet. */
    ghost predicate Tells(rec: RecoveryPacket<T>)
      reads this
    {
      && MetadataOk(rec.meta, rec.end) && |gone| + rec.meta.ldpcCount <= rec.end <= |Received()|
      && -COLUMN_PERIOD < rec.end - rec.meta.sumCount - sumBase < COLUMN_PERIOD
    }

    /** Follows the sum of a row: goes on with the one that is running, or starts over in the window. */
    method Prepare(rec: RecoveryPacket<T>, ghost lost: set<nat>) returns (ok: bool)
      requires Sound(lost) && Tells(rec) && (if live then limit <= rec.end else |gone| <= rec.end - rec.meta.sumCount)
      modifies this`sumColumnStart, this`sumColumnCount, this`recoveredColumns, this`waiting, this`sumBase, this`limit,
        this`live, lanes
      ensures ok <==> GoesOn(old(Sum()), rec.meta) || StartsInWindow(rec.meta, columnStart, |window|)
      ensures ok ==> Sound(lost) && live && waiting == [] && limit == rec.end
      ensures ok ==> sumBase == rec.end - rec.meta.sumCount && Sum() == Running(rec.meta.columnStart, rec.meta.sumCount)
    {
      hide IsField, Wrap, SumOk;
      var element := SubtractColumns(rec.meta.columnStart, columnStart);
      ghost var start := rec.end - rec.meta.sumCount;
      SubtractWrapped(start, |gone|);
      if rec.meta.columnStart != sumColumnStart || rec.meta.sumCount < sumColumnCount {
        if element >= |window| {
          return false;
        }
        ResetSums(element, rec.meta.columnStart, lost);
      } else {
        SameStart(start, sumBase);
        if element >= |window| {
          element := 0;
        }
        StartSums(element, |rec.payload|, lost);
      }
      sumColumnCount := rec.meta.sumCount;
      Farther(rec.end, lost);
      return true;
    }

    /** The column of a sum tells its start. */
    lemma SameStart(a: nat, b: nat)
      requires Wrap(a) == Wrap(b) && -COLUMN_PERIOD < a - b < COLUMN_PERIOD
      ensures a == b
    {
      SubtractWrapped(a, b);
      SubtractWrapped(b, b);
    }

    /** The sums may reach farther. */
    ghost method Farther(end: nat, lost: set<nat>)
      requires Sound(lost) && live && limit <= end <= |Received()|
      modifies this`limit
      ensures Sound(lost) && limit == end
    {
      hide IsField, StandsFor, Wrap;
      ghost var g := TheGround();
      limit := end;
      forall l, s | 0 <= l < LANE_COUNT && 0 <= s < SUM_COUNT
        ensures SumOk(code, TheGround(), lost, l, s, lanes[l, s]) {
        assert SumOk(code, g, lost, l, s, lanes[l, s]);
      }
    }

    /** The sums are ready for a row, and what is missing of it is about to be recovered. */
    ghost predicate Ready(rec: RecoveryPacket<T>, elementEnd: nat, lost: set<nat>)
      reads this, lanes
    {
      && Sound(lost) && live && waiting == [] && limit == rec.end == |gone| + elementEnd && elementEnd <= |window|
      && MetadataOk(rec.meta, rec.end) && sumBase == rec.end - rec.meta.sumCount && rec.meta.ldpcCount <= elementEnd
      && forall c :: sumBase <= c < rec.end ==> c in lost || Received()[c] != []
    }

    /** The dense part of the received packets, from the running sums. */
    method EliminateDense(rec: RecoveryPacket<T>, shift: nat, elementEnd: nat, payload: seq<T>, ghost lost: set<nat>)
      returns (buffer: seq<T>, ghost workspace: seq<T>)
      requires Ready(rec, elementEnd, lost)
      modifies lanes
      ensures Ready(rec, elementEnd, lost) && IsPlus(code.F, buffer, payload, workspace)
      ensures IsDense(code, rec.meta.row, shift, Received()[..rec.end], sumBase, LANE_COUNT, 0, workspace)
    {
      hide IsField, IsLaneSum, Wrap, IsPlus, IsDense, Live, Shape, MetadataOk;
      ghost var h, row := Received()[..rec.end], rec.meta.row;
      KnownField(lost);
      buffer, workspace := payload, GrowZeroPadded(code.F, [], |payload|);
      PlusZero(code.F, payload);
      DenseEmpty(code, row, shift, h, sumBase, |payload|);
      for lane := 0 to LANE_COUNT
        invariant Ready(rec, elementEnd, lost) && IsPlus(code.F, buffer, payload, workspace)
        invariant IsDense(code, row, shift, h, sumBase, lane, 0, workspace)
      {
        for sum := 0 to SUM_COUNT
          invariant Ready(rec, elementEnd, lost) && IsPlus(code.F, buffer, payload, workspace)
          invariant IsDense(code, row, shift, h, sumBase, lane, sum, workspace)
        {
          if Bit(code.opcode(lane, rec.meta.row), shift + sum) {
            buffer, workspace := EliminateSum(rec, shift, elementEnd, lane, sum, payload, buffer, workspace, lost);
          } else {
            DenseSkipSum(code, row, shift, h, sumBase, lane, sum, workspace);
          }
        }
        DenseNext(code, row, shift, h, sumBase, lane, workspace);
      }
    }

    lemma KnownField(lost: set<nat>)
      requires Sound(lost)
      ensures IsField(code.F)
    {
    }

    method EliminateSum(rec: RecoveryPacket<T>, shift: nat, elementEnd: nat, lane: nat, sum: nat, ghost payload: seq<T>,
        buffer0: seq<T>, ghost workspace0: seq<T>, ghost lost: set<nat>)
      returns (buffer: seq<T>, ghost workspace: seq<T>)
      requires Ready(rec, elementEnd, lost) && lane < LANE_COUNT && sum < SUM_COUNT
      requires Bit(code.opcode(lane, rec.meta.row), shift + sum) && IsPlus(code.F, buffer0, payload, workspace0)
      requires IsDense(code, rec.meta.row, shift, Received()[..rec.end], sumBase, lane, sum, workspace0)
      modifies lanes
      ensures Ready(rec, elementEnd, lost) && IsPlus(code.F, buffer, payload, workspace)
      ensures IsDense(code, rec.meta.row, shift, Received()[..rec.end], sumBase, lane, sum + 1, workspace)
    {
      hide IsField, IsLaneSum, Wrap, IsDense, MetadataOk;
      var value := GetSum(lane, sum, elementEnd, lost);
      var bytes := if |value| > |buffer0| then |buffer0| else |value|;
      ghost var next := |gone| + lanes[lane, sum].end;
      RolledSum(rec, elementEnd, lane, sum, lost);
      DenseAddSum(code, rec.meta.row, shift, Received()[..rec.end], sumBase, lane, sum, workspace0, next, value);
      PlusAddMem(code.F, buffer0, payload, workspace0, value, bytes);
      buffer, workspace := AddMem(code.F, buffer0, value, bytes), AddMem(code.F, workspace0, value, bytes);
    }

    /** A sum rolled up to the end of a row is the sum over the packets before that end. */
    lemma RolledSum(rec: RecoveryPacket<T>, elementEnd: nat, lane: nat, sum: nat, lost: set<nat>)
      requires Ready(rec, elementEnd, lost) && lane < LANE_COUNT && sum < SUM_COUNT
               && elementEnd <= lanes[lane, sum].end
      ensures var d, h := lanes[lane, sum], Received()[..rec.end];
              && IsLaneSum(code, h, lane, sum, sumBase, |gone| + d.end, d.buffer)
              && rec.end <= |gone| + d.end < rec.end + LANE_COUNT && (|gone| + d.end) % LANE_COUNT == lane
    {
      hide IsField, IsLaneSum, Wrap, MetadataOk, Blank;
      var d, h, g := lanes[lane, sum], Received()[..rec.end], TheGround();
      assert SumOk(code, g, lost, lane, sum, d);
      var to := |gone| + d.end;
      assert to % LANE_COUNT == lane;
      forall c: nat | Covers(lane, sumBase, to, c) ensures c < rec.end {
        SameLaneGap(c, to);
      }
      OtherStands(code, Without(g.received, g.waiting), h, g.base, g.sumBase, lane, sum, d);
    }

    /** Adds the received packets of the drawn pairs, from the window. */
    method EliminateLight(rec: RecoveryPacket<T>, which: nat, elementEnd: nat, ghost payload: seq<T>, buffer0: seq<T>,
        ghost workspace0: seq<T>)
      returns (buffer: seq<T>, ghost workspace: seq<T>)
      requires IsField(code.F) && MetadataOk(rec.meta, rec.end) && rec.meta.ldpcCount <= elementEnd <= |window|
      requires rec.end == |gone| + elementEnd && sumBase == rec.end - rec.meta.sumCount
      requires forall c :: rec.end - rec.meta.ldpcCount <= c < rec.end ==> |Received()[c]| <= |payload|
      requires IsPlus(code.F, buffer0, payload, workspace0)
      requires IsDense(code, rec.meta.row, 3 * which, Received()[..rec.end], sumBase, LANE_COUNT, 0, workspace0)
      ensures IsPlus(code.F, buffer, payload, workspace)
      ensures IsLight(code, rec.meta.row, which, rec.meta.ldpcCount, Received()[..rec.end], sumBase,
                      PairCount(rec.meta.ldpcCount), workspace)
    {
      hide IsField, Wrap, IsDense, IsLight;
      ghost var h := Received()[..rec.end];
      var row, ldpcCount := rec.meta.row, rec.meta.ldpcCount;
      buffer, workspace := buffer0, workspace0;
      LightEmpty(code, row, which, ldpcCount, h, sumBase, workspace);
      for i := 0 to PairCount(ldpcCount)
        invariant IsPlus(code.F, buffer, payload, workspace)
        invariant IsLight(code, row, which, ldpcCount, h, sumBase, i, workspace)
      {
        var original := window[elementEnd - ldpcCount + Drawn(code, row, ldpcCount, i, which)];
        assert original == h[|h| - ldpcCount + Drawn(code, row, ldpcCount, i, which)];
        var bytes := Min(|original|, |buffer|);
        LightAddPacket(code, row, which, ldpcCount, h, sumBase, i, workspace);
        PlusAddMem(code.F, buffer, payload, workspace, original, bytes);
        buffer, workspace := AddMem(code.F, buffer, original, bytes), AddMem(code.F, workspace, original, bytes);
      }
    }

    /** Eliminates what has been received from a sum row, without the packets that have left the window. */
    method EliminateRow(rec: RecoveryPacket<T>, elementEnd: nat, ghost lost: set<nat>) returns (buffer: seq<T>)
      requires Ready(rec, elementEnd, lost) && IsSum(rec.meta)
      requires forall c :: rec.end - rec.meta.ldpcCount <= c < rec.end ==> |Received()[c]| <= |rec.payload|
      modifies lanes
      ensures Ready(rec, elementEnd, lost) && IsEliminated(code, rec, Received(), buffer)
    {
      hide IsField, Wrap, IsDense, IsLight, Combination, Live;
      var F, row := code.F, rec.meta.row;
      ghost var plain, workspace;
      buffer, plain := EliminateDense(rec, 0, elementEnd, rec.payload, lost);
      buffer, plain := EliminateLight(rec, 0, elementEnd, rec.payload, buffer, plain);
      var zeros := GrowZeroPadded(F, [], |rec.payload|);
      var product;
      product, workspace := EliminateDense(rec, 3, elementEnd, zeros, lost);
      product, workspace := EliminateLight(rec, 1, elementEnd, zeros, product, workspace);
      PlusOfZeros(F, product, workspace);
      var RX := code.elem(GetRowValue(row));
      WorkspacesCombine(code, rec.meta, Received()[..rec.end], sumBase, plain, product);
      PlusMulAddMem(F, buffer, rec.payload, plain, RX, product, |product|);
      buffer := MulAddMem(F, buffer, RX, product, |product|);
    }

    /** A row that a solution uses, and whose sum is to be followed. */
    static predicate Follows(list: seq<Entry<T>>, used: seq<bool>, i: int)
      requires |used| == |list|
    {
      0 <= i < |list| && used[i] && IsSum(list[i].rec.meta)
    }

    /** What the checked region and the list promise of such rows. */
    ghost predicate RowsOk(list: seq<Entry<T>>, used: seq<bool>, from: nat, lost: set<nat>)
      requires |used| == |list|
      reads this
    {
      && (forall i :: from <= i && Follows(list, used, i) ==>
           Tells(list[i].rec) && RowOk(list[i], Received(), |gone|, lost))
      && (forall i :: from <= i && Follows(list, used, i) ==>
            if live then limit <= list[i].rec.end else |gone| <= list[i].rec.end - list[i].rec.meta.sumCount)
      && (forall i, j :: 0 <= i < j && Follows(list, used, i) && Follows(list, used, j) ==>
            list[i].rec.end <= list[j].rec.end && NearStarts(list[i].rec, list[j].rec))
    }

    static ghost predicate NearStarts(a: RecoveryPacket<T>, b: RecoveryPacket<T>) {
      -COLUMN_PERIOD < (b.end - b.meta.sumCount) - (a.end - a.meta.sumCount) < COLUMN_PERIOD
    }

    static ghost predicate RowOk(e: Entry<T>, received: seq<seq<T>>, base: nat, lost: set<nat>) {
      && base + e.elementEnd == e.rec.end <= |received|
      && (forall c :: 0 <= e.rec.end - e.rec.meta.sumCount <= c < e.rec.end ==> c in lost || received[c] != [])
      && forall c :: 0 <= e.rec.end - e.rec.meta.ldpcCount <= c < e.rec.end ==> |received[c]| <= |e.rec.payload|
    }

    /** Eliminates what has been received from the rows that a solution uses, in their order: it works
        exactly when their sums can be followed, and leaves of each row what the lost packets make of it. */
    method EliminateUsed(list: seq<Entry<T>>, used: seq<bool>, ghost lost: set<nat>)
      returns (ok: bool, buffers: seq<seq<T>>)
      requires Sound(lost) && |used| == |list| && RowsOk(list, used, 0, lost)
      modifies this`sumColumnStart, this`sumColumnCount, this`recoveredColumns, this`waiting, this`sumBase, this`limit,
        this`live, lanes
      ensures ok <==> Follow(RegionRecs(list, |list|), used, |list|, old(Sum()), columnStart, |window|).Some?
      ensures ok ==>
                Sound(lost) && Follow(RegionRecs(list, |list|), used, |list|, old(Sum()), columnStart, |window|)
                  == Some(Sum())
      ensures ok ==> |buffers| == |list|
      ensures ok ==> forall i :: Follows(list, used, i) ==> IsEliminated(code, list[i].rec, Received(), buffers[i])
    {
      hide IsField, Wrap, Sound, IsEliminated, MetadataOk, RowsOk, StartsInWindow, GoesOn, RegionRecs, IsSum;
      ghost var recs := RegionRecs(list, |list|);
      buffers := [];
      for i := 0 to |list|
        invariant Sound(lost) && RowsOk(list, used, i, lost)
        invariant Follow(recs, used, i, old(Sum()), columnStart, |window|) == Some(Sum())
        invariant |buffers| == i
        invariant forall h :: 0 <= h < i && Follows(list, used, h) ==>
                    IsEliminated(code, list[h].rec, Received(), buffers[h])
      {
        SkipRow(list, used, i, lost);
        var buffer := list[i].rec.payload;
        if used[i] && IsSum(list[i].rec.meta) {
          ok, buffer := EliminateOne(list, used, i, lost);
          if !ok {
            FollowFails(recs, used, i + 1, old(Sum()), columnStart, |window|);
            return false, [];
          }
        }
        buffers := buffers + [buffer];
      }
      ok := true;
    }

    method EliminateOne(list: seq<Entry<T>>, used: seq<bool>, i: nat, ghost lost: set<nat>)
      returns (ok: bool, buffer: seq<T>)
      requires Sound(lost) && |used| == |list| && RowsOk(list, used, i, lost) && Follows(list, used, i)
      modifies this`sumColumnStart, this`sumColumnCount, this`recoveredColumns, this`waiting, this`sumBase, this`limit,
        this`live, lanes
      ensures var meta := list[i].rec.meta;
              && (ok <==> GoesOn(old(Sum()), meta) || StartsInWindow(meta, columnStart, |window|))
              && (ok ==> Sum() == Running(meta.columnStart, meta.sumCount))
      ensures ok ==>
                Sound(lost) && RowsOk(list, used, i + 1, lost) && IsEliminated(code, list[i].rec, Received(), buffer)
    {
      hide IsField, Wrap, Live, Shape, Dormant, IsEliminated, MetadataOk, RowOk, StartsInWindow, GoesOn;
      buffer := [];
      ok := Prepare(list[i].rec, lost);
      if ok {
        RowReady(list[i], lost);
        buffer := EliminateRow(list[i].rec, list[i].elementEnd, lost);
        NextRows(list, used, i, lost);
      }
    }

    lemma SkipRow(list: seq<Entry<T>>, used: seq<bool>, i: nat, lost: set<nat>)
      requires |used| == |list| && RowsOk(list, used, i, lost) && i < |list|
      ensures !Follows(list, used, i) ==> RowsOk(list, used, i + 1, lost)
      ensures RegionRecs(list, |list|)[i] == list[i].rec
    {
      hide MetadataOk, RowOk;
    }

    lemma RowReady(e: Entry<T>, lost: set<nat>)
      requires Sound(lost) && live && waiting == [] && limit == e.rec.end && sumBase == e.rec.end - e.rec.meta.sumCount
      requires MetadataOk(e.rec.meta, e.rec.end) && RowOk(e, Received(), |gone|, lost)
      requires |gone| + e.rec.meta.ldpcCount <= e.rec.end
      ensures Ready(e.rec, e.elementEnd, lost)
      ensures forall c :: e.rec.end - e.rec.meta.ldpcCount <= c < e.rec.end ==> |Received()[c]| <= |e.rec.payload|
    {
      hide IsField, Wrap, Live, Dormant;
    }

    lemma NextRows(list: seq<Entry<T>>, used: seq<bool>, i: nat, lost: set<nat>)
      requires |used| == |list| && Follows(list, used, i) && live && limit == list[i].rec.end
      requires sumBase == list[i].rec.end - list[i].rec.meta.sumCount
      requires forall j :: i <= j && Follows(list, used, j) ==>
                 && MetadataOk(list[j].rec.meta, list[j].rec.end)
                 && |gone| + list[j].rec.meta.ldpcCount <= list[j].rec.end <= |Received()|
                 && RowOk(list[j], Received(), |gone|, lost)
      requires forall h, j :: 0 <= h < j && Follows(list, used, h) && Follows(list, used, j) ==>
                 list[h].rec.end <= list[j].rec.end && NearStarts(list[h].rec, list[j].rec)
      ensures RowsOk(list, used, i + 1, lost)
    {
      hide MetadataOk, RowOk;
    }

    // ----- packets that leave the window

    /** The part of RemoveElements that is about sums: the sum to keep is followed and rolled up past the
        packets that leave, or no sum is kept up any more. */
    method Roll(k: Keeping, removed: nat, bytes: nat, ghost target: nat) returns (ok: bool)
      requires Valid() && 0 < removed <= |window| && removed % LANE_COUNT == 0
      requires forall e :: 0 <= e < removed ==> window[e] != []
      requires k.seenSum ==>
                 && k.start == Wrap(target) && target < |Received()| && |gone| - target <= COLUMN_PERIOD / 2
                 && -COLUMN_PERIOD < target - sumBase < COLUMN_PERIOD && (live || |gone| <= target)
      modifies this, lanes
      ensures ok <==>
                || !k.seenSum || (old(sumColumnStart) == k.start && old(sumColumnCount) <= k.count)
                || SubtractColumns(k.start, old(columnStart)) < |old(window)|
      ensures ok ==> Valid() && Received() == old(Received()) && window == old(window)[removed..]
      ensures ok ==> Sum() == KeptSum(k, old(Sum())) && (k.seenSum <==> live) && (live ==> sumBase == target)
      ensures ok && live ==> limit <= Later(Later(if old(live) then old(limit) else 0, sumBase), |gone|)
    {
      hide IsField, Wrap, SumOk;
      if k.seenSum {
        ok := Keep(k, bytes, target);
        if !ok {
          return;
        }
        Farther(Later(limit, |gone| + removed), {});
        RollUp(removed);
        Shift(removed);
      } else {
        Abandon(removed);
      }
      ok := true;
    }

    static function Later(a: nat, b: nat): nat { if a < b then b else a }

    /** Follows the sum to keep. */
    method Keep(k: Keeping, bytes: nat, ghost target: nat) returns (ok: bool)
      requires Valid() && k.seenSum && k.start == Wrap(target) && target < |Received()|
      requires |gone| - target <= COLUMN_PERIOD / 2 && -COLUMN_PERIOD < target - sumBase < COLUMN_PERIOD
      requires live || |gone| <= target
      modifies this`sumColumnStart, this`sumColumnCount, this`recoveredColumns, this`waiting, this`sumBase, this`limit,
        this`live, lanes
      ensures ok <==>
                || (old(sumColumnStart) == k.start && old(sumColumnCount) <= k.count)
                || SubtractColumns(k.start, columnStart) < |window|
      ensures ok ==> Valid() && live && waiting == [] && sumBase == target && Sum() == KeptSum(k, old(Sum()))
      ensures ok ==> limit <= Later(if old(live) then old(limit) else 0, sumBase)
    {
      hide IsField, Wrap, SumOk;
      var element := SubtractColumns(k.start, columnStart);
      SubtractWrapped(target, |gone|);
      if sumColumnStart != k.start || sumColumnCount > k.count {
        if element >= |window| {
          return false;
        }
        ResetSums(element, k.start, {});
        sumColumnCount := k.count;
      } else {
        SameStart(target, sumBase);
        if element >= |window| {
          element := 0;
        }
        StartSums(element, bytes, {});
      }
      return true;
    }

    /** Rolls every sum up to an element. */
    method RollUp(removed: nat)
      requires Valid() && live && waiting == [] && removed <= |window| && |gone| + removed <= limit
      requires forall e :: 0 <= e < removed ==> window[e] != []
      modifies lanes
      ensures Valid()
      ensures forall l, s :: 0 <= l < LANE_COUNT && 0 <= s < SUM_COUNT ==> removed <= lanes[l, s].end
    {
      hide IsField, Wrap, SumOk;
      for lane := 0 to LANE_COUNT
        invariant Valid()
        invariant forall l, s :: 0 <= l < lane && 0 <= s < SUM_COUNT ==> removed <= lanes[l, s].end
      {
        for sum := 0 to SUM_COUNT
          invariant Valid()
          invariant forall l, s :: 0 <= l < LANE_COUNT && 0 <= s < SUM_COUNT && (l < lane || (l == lane && s < sum)) ==>
                      removed <= lanes[l, s].end
        {
          var ignored := GetSum(lane, sum, removed, {});
        }
      }
    }

    static function Shifted(d: DecoderSum<T>, removed: nat, lane: nat): DecoderSum<T>
      requires removed <= d.end
    {
      DecoderSum(if d.start >= removed then d.start - removed else lane, d.end - removed, d.buffer)
    }

    /** The window moves on, and the sums with it. */
    method Shift(removed: nat)
      requires Valid() && live && waiting == [] && removed <= |window| && removed % LANE_COUNT == 0
      requires |gone| + removed <= limit && forall e :: 0 <= e < removed ==> window[e] != []
      requires forall l, s :: 0 <= l < LANE_COUNT && 0 <= s < SUM_COUNT ==> removed <= lanes[l, s].end
      modifies this`window, this`columnStart, this`gone, lanes
      ensures Valid() && Received() == old(Received()) && window == old(window)[removed..]
              && |gone| == |old(gone)| + removed
    {
      hide IsField, Wrap, StandsFor;
      ghost var g := TheGround();
      for lane := 0 to LANE_COUNT
        invariant unchanged(this)
        invariant forall l, s :: 0 <= l < LANE_COUNT && 0 <= s < SUM_COUNT ==>
                    lanes[l, s] == if l < lane then Shifted(old(lanes[l, s]), removed, l) else old(lanes[l, s])
      {
        for sum := 0 to SUM_COUNT
          invariant unchanged(this)
          invariant forall l, s :: 0 <= l < LANE_COUNT && 0 <= s < SUM_COUNT ==>
                      lanes[l, s] == if l < lane || (l == lane && s < sum) then Shifted(old(lanes[l, s]), removed, l)
                                     else old(lanes[l, s])
        {
          lanes[lane, sum] := Shifted(lanes[lane, sum], removed, lane);
        }
      }
      MoveWindow(removed);
      forall l, s | 0 <= l < LANE_COUNT && 0 <= s < SUM_COUNT ensures SumOk(code, TheGround(), {}, l, s, lanes[l, s]) {
        assert SumOk(code, g, {}, l, s, old(lanes[l, s]));
        ShiftedStands(code, Without(g.received, g.waiting), g.base, g.sumBase, l, s, old(lanes[l, s]), removed);
      }
    }

    method MoveWindow(removed: nat)
      requires Shape() && removed <= |window| && removed % LANE_COUNT == 0
      requires forall e :: 0 <= e < removed ==> window[e] != []
      modifies this`window, this`columnStart, this`gone
      ensures Shape() && Received() == old(Received()) && window == old(window)[removed..]
              && |gone| == |old(gone)| + removed
    {
      hide IsField, Wrap;
      AddWrapped(|gone|, removed);
      gone := gone + window[..removed];
      window := window[removed..];
      columnStart := AddColumns(removed, columnStart);
      assert Received() == old(Received());
    }

    /** Only Cauchy rows are left: the sums are not kept up. */
    method Abandon(removed: nat)
      requires Valid() && 0 < removed <= |window| && removed % LANE_COUNT == 0
      requires forall e :: 0 <= e < removed ==> window[e] != []
      modifies this
      ensures Valid() && !live && Received() == old(Received()) && window == old(window)[removed..]
      ensures Sum() == Running(old(sumColumnStart), 0)
    {
      hide IsField, Wrap, IsLaneSum;
      ghost var base := |gone|;
      if live {
        anchor := |gone|;
      }
      forall l, s | 0 <= l < LANE_COUNT && 0 <= s < SUM_COUNT
        ensures Resets(lanes[l, s], sumBase, base + removed, anchor, l)
      {
        if old(live) {
          assert SumOk(code, old(TheGround()), {}, l, s, lanes[l, s]);
        } else {
          assert Resets(lanes[l, s], sumBase, base, anchor, l);
        }
        ShiftedFirst(sumBase, base, l, removed);
      }
      sumColumnCount, live := 0, false;
      MoveWindow(removed);
    }
  }
}
