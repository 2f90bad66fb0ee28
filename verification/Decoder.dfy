/** The decoder: what it has received, the recovery packets it holds, and how far it has checked
    whether they suffice. */
module Decoders {
  import opened Numbers
  import opened Options
  import opened Fields
  import opened RecoveryMatrices
  import opened BackSubstitutions
  import opened BitSets
  import opened Missing
  import opened Columns
  import opened Recovery
  import opened Encoders
  import opened Rows
  import opened Decoding
  import opened DecoderWindows
  import opened RecoveryLists
  import opened Removals

  /** `Overran`: the window has been moved past a missing element.  The code goes on with counters that
      have wrapped around; the model stops. */
  datatype Result = Disabled | DuplicateData | NeedMore | Success | Overran

  /** A recovered packet, with its true number. */
  datatype Original<T> = Original(number: nat, packet: seq<T>)

  const MAX_LOSSES: nat := 255

  /** The order test of a recovery packet.  The difference is taken in 32-bit unsigned arithmetic and
      is not reduced modulo the column period. */
  predicate OutOfOrder(meta: Metadata, latestColumn: nat) {
    var delta := (meta.columnStart + meta.sumCount - latestColumn) % UNSIGNED_PERIOD;
    IsColumnDeltaNegative(delta)
  }

  // ----- what has been received, by true number

  /** Nothing that has been received changes or goes away. */
  ghost predicate Keeps<T>(before: seq<seq<T>>, after: seq<seq<T>>) {
    |before| <= |after| && forall i :: 0 <= i < |before| && before[i] != [] ==> after[i] == before[i]
  }

  /** One more packet. */
  ghost function Placed<T>(received: seq<seq<T>>, n: nat, packet: seq<T>): (r: seq<seq<T>>)
    ensures |r| == if n < |received| then |received| else n + 1
    ensures forall i :: 0 <= i < |r| ==> r[i] == if i == n then packet else if i < |received| then received[i] else []
  {
    (if n < |received| then received else received + Nothing(n + 1 - |received|))[n := packet]
  }

  /** Everything received is what was sent. */
  ghost predicate Matches<T>(received: seq<seq<T>>, hist: seq<seq<T>>) {
    |received| <= |hist| && forall i :: 0 <= i < |received| && received[i] != [] ==> received[i] == hist[i]
  }

  ghost predicate Made<T>(code: Code<T>, hist: seq<seq<T>>, rec: RecoveryPacket<T>) {
    rec.end <= |hist| && IsRecoveryOf(code, hist[..rec.end], rec.meta, rec.payload)
  }

  ghost predicate SamePackets<T>(before: seq<Entry<T>>, after: seq<Entry<T>>) {
    |before| == |after| && forall i :: 0 <= i < |before| ==> after[i].rec == before[i].rec
  }

  ghost predicate IsSent<T>(hist: seq<seq<T>>, o: Original<T>) {
    o.number < |hist| && o.packet == hist[o.number]
  }

  /** Received packets, recovery packets and recovered packets all come from the packets sent. */
  ghost predicate Agreement<T>(code: Code<T>, received: seq<seq<T>>, list: seq<Entry<T>>, recovered: seq<Original<T>>,
      hist: seq<seq<T>>) {
    && Matches(received, hist)
    && (forall i :: 0 <= i < |list| ==> Made(code, hist, list[i].rec))
    && (forall i :: 0 <= i < |recovered| ==> IsSent(hist, recovered[i]))
  }

  lemma NothingYet<T>(code: Code<T>)
    ensures Agreement<T>(code, [], [], [], []) && ListOk<T>([], 0, 0, 0, 0)
  {
  }

  lemma AgreeInserted<T>(code: Code<T>, received: seq<seq<T>>, list: seq<Entry<T>>, k: nat, e: Entry<T>,
      recovered: seq<Original<T>>, hist: seq<seq<T>>)
    requires Agreement(code, received, list, recovered, hist) && k <= |list| && Made(code, hist, e.rec)
    ensures Agreement(code, received, Inserted(list, k, e), recovered, hist)
  {
    hide Made, Matches;
  }

  lemma AgreeSame<T>(code: Code<T>, received: seq<seq<T>>, list: seq<Entry<T>>, list': seq<Entry<T>>,
      recovered: seq<Original<T>>, hist: seq<seq<T>>)
    requires Agreement(code, received, list, recovered, hist) && SamePackets(list, list')
    ensures Agreement(code, received, list', recovered, hist)
  {
    hide Made, Matches;
  }

  /** More packets that are missing. */
  lemma AgreeGrown<T>(code: Code<T>, received: seq<seq<T>>, n: nat, list: seq<Entry<T>>, recovered: seq<Original<T>>,
      hist: seq<seq<T>>)
    requires Agreement(code, received, list, recovered, hist) && (n > 0 ==> |received| + n <= |hist|)
    ensures Agreement(code, received + Nothing(n), list, recovered, hist)
  {
    hide Made;
  }

  /** One more packet as it was sent, and perhaps fewer recovery packets. */
  lemma AgreePlaced<T>(code: Code<T>, received: seq<seq<T>>, list: seq<Entry<T>>, list': seq<Entry<T>>,
      recovered: seq<Original<T>>, hist: seq<seq<T>>, n: nat)
    requires Agreement(code, received, list, recovered, hist) && (forall e :: e in list' ==> e in list) && n < |hist|
    ensures Agreement(code, Placed(received, n, hist[n]), list', recovered, hist)
  {
    hide Made;
    forall i | 0 <= i < |list'| ensures Made(code, hist, list'[i].rec) {
      assert list'[i] in list;
    }
  }

  lemma AgreeRecovered<T>(code: Code<T>, received: seq<seq<T>>, list: seq<Entry<T>>, recovered: seq<Original<T>>,
      hist: seq<seq<T>>, o: Original<T>)
    requires Agreement(code, received, list, recovered, hist) && IsSent(hist, o)
    ensures Agreement(code, received, list, recovered + [o], hist) && Agreement(code, received, list, [o], hist)
  {
    hide Made, Matches;
  }

  lemma KeepsPlaced<T>(received: seq<seq<T>>, n: nat, packet: seq<T>)
    requires n < |received| ==> received[n] == []
    ensures Keeps(received, Placed(received, n, packet))
  {
  }

  lemma KeepsGrown<T>(received: seq<seq<T>>, n: nat)
    ensures Keeps(received, received + Nothing(n))
  {
  }

  lemma KeepsAgain<T>(a: seq<seq<T>>, b: seq<seq<T>>, c: seq<seq<T>>)
    requires Keeps(a, b) && Keeps(b, c)
    ensures Keeps(a, c)
  {
  }

  /** The same packets in the same places; only the numbers of losses they face may differ. */
  ghost predicate Recounted<T>(before: seq<Entry<T>>, after: seq<Entry<T>>) {
    |before| == |after| && forall i :: 0 <= i < |before| ==> after[i] == before[i].(lostCount := after[i].lostCount)
  }

  lemma RecountedSame<T>(l: seq<Entry<T>>)
    ensures Recounted(l, l)
  {
  }

  lemma RecountedAgain<T>(a: seq<Entry<T>>, b: seq<Entry<T>>, c: seq<Entry<T>>)
    requires Recounted(a, b) && Recounted(b, c)
    ensures Recounted(a, c)
  {
  }

  lemma RecountOk<T>(list: seq<Entry<T>>, k: nat, lostCount: nat, base: nat, next: nat, count: nat, nextId: nat)
    requires ListOk(list, base, next, count, nextId) && k < |list|
    ensures ListOk(list[k := list[k].(lostCount := lostCount)], base, next, count, nextId)
  {
    var r := list[k := list[k].(lostCount := lostCount)];
    forall i | 0 <= i < |r| ensures EntryOk(r[i], base, next, count) {
      assert EntryOk(list[i], base, next, count);
    }
    forall i, j | 0 <= i < j < |r| ensures Before(r[i], r[j]) && r[i].id != r[j].id {
      assert Before(list[i], list[j]);
    }
  }

  /** The lost packets in their places. */
  ghost function Filled<T>(received: seq<seq<T>>, lost: seq<nat>, hist: seq<seq<T>>): (r: seq<seq<T>>)
    ensures |r| == |received|
    ensures forall i :: 0 <= i < |r| ==> r[i] == if i in lost && i < |hist| then hist[i] else received[i]
  {
    seq(|received|, i requires 0 <= i < |received| => if i in lost && i < |hist| then hist[i] else received[i])
  }

  lemma FilledStep<T>(received: seq<seq<T>>, lost: seq<nat>, j: nat, hist: seq<seq<T>>)
    requires j < |lost| && Ascending(lost) && lost[j] < |received| && lost[j] < |hist|
    ensures Filled(received, lost[..j], hist)[lost[j]] == received[lost[j]]
    ensures Filled(received, lost[..j + 1], hist) == Filled(received, lost[..j], hist)[lost[j] := hist[lost[j]]]
  {
    assert lost[..j + 1] == lost[..j] + [lost[j]];
    assert lost[j] !in lost[..j];
  }

  /** The recovered packets, with their numbers. */
  ghost predicate Reports<T>(recovered: seq<Original<T>>, lost: seq<nat>, hist: seq<seq<T>>) {
    && |recovered| == |lost|
    && forall j :: 0 <= j < |lost| ==> lost[j] < |hist| && recovered[j] == Original(lost[j], hist[lost[j]])
  }

  lemma AgreeTail<T>(code: Code<T>, received: seq<seq<T>>, list: seq<Entry<T>>, d: nat, recovered: seq<Original<T>>,
      hist: seq<seq<T>>)
    requires Agreement(code, received, list, recovered, hist) && d <= |list|
    ensures Agreement(code, received, list[d..], recovered, hist)
  {
    hide Made, Matches;
  }

  lemma AgreeFilled<T>(code: Code<T>, received: seq<seq<T>>, list: seq<Entry<T>>, recovered: seq<Original<T>>,
      recovered': seq<Original<T>>, lost: seq<nat>, hist: seq<seq<T>>)
    requires Agreement(code, received, list, recovered, hist) && Reports(recovered', lost, hist)
    ensures Agreement(code, Filled(received, lost, hist), list, recovered', hist)
  {
    hide Made;
  }

  lemma KeepsFilled<T>(received: seq<seq<T>>, lost: seq<nat>, hist: seq<seq<T>>)
    requires Matches(received, hist)
    ensures Keeps(received, Filled(received, lost, hist))
  {
  }

  /** Every packet of the list starts its light part by then. */
  ghost predicate StartedBy<T>(list: seq<Entry<T>>, started: nat) {
    forall i :: 0 <= i < |list| ==> list[i].rec.end - list[i].rec.meta.ldpcCount <= started
  }

  lemma SameAgain<T>(a: seq<Entry<T>>, b: seq<Entry<T>>, c: seq<Entry<T>>)
    requires SamePackets(a, b) && SamePackets(b, c)
    ensures SamePackets(a, c)
  {
  }

  lemma SameRows<T>(a: seq<Entry<T>>, b: seq<Entry<T>>, n: nat)
    requires SamePackets(a, b)
    ensures RegionRecs(a, n) == RegionRecs(b, n)
  {
  }

  /** A larger region of the same packets continues the same matrix. */
  lemma ContinuesLarger<T(0, !new)>(code: Code<T>, matrix: RecoveryMatrix<T>, recs: seq<RecoveryPacket<T>>,
      lost: seq<nat>, counts: seq<nat>,
      recs': seq<RecoveryPacket<T>>, lost': seq<nat>, counts': seq<nat>)
    requires Continues(code, matrix, recs, lost, counts) && recs <= recs' && lost <= lost' && counts <= counts'
             && |recs'| == |counts'|
    requires forall i, j :: 0 <= i < |recs| && |lost| <= j < |lost'| ==> recs[i].end <= lost'[j]
    ensures Continues(code, matrix, recs', lost', counts')
  {
    assert recs'[..matrix.rows] == recs[..matrix.rows] && lost'[..matrix.columns] == lost[..matrix.columns];
    assert counts'[..matrix.rows] == counts[..matrix.rows];
  }

  lemma ContinuesFresh<T(0, !new)>(code: Code<T>, matrix: RecoveryMatrix<T>, recs: seq<RecoveryPacket<T>>,
      lost: seq<nat>, counts: seq<nat>)
    requires matrix.F == code.F && matrix.rows == 0 && matrix.columns == 0 && matrix.A == [] && matrix.columnCount == []
             && |recs| == |counts|
    ensures Continues(code, matrix, recs, lost, counts)
  {
  }

  /** What an attempt to decode a region comes to. */
  datatype Outcome = Unsolvable | SumLost | Solved(removal: Removal)

  /** The attempt fails when the packets of the region do not determine the missing ones, disables the
      decoder when the sum of a row it uses cannot be followed, and otherwise moves the next expected
      element to the next one missing past the region, deletes the packets that end before it, and
      may remove elements. */
  ghost function OutcomeOf<T(!new)>(code: Code<T>, list: seq<Entry<T>>, region: Region, used: seq<bool>, got: seq<bool>,
      base: nat, last: Metadata, sum: Running): Outcome
    requires region.recoveryCount <= |list| && |used| == region.recoveryCount && region.nextCheckStart <= |got|
  {
    var recs := RegionRecs(list, region.recoveryCount);
    if !Determined(code, recs, RegionLost(region, got, base)) then Unsolvable
    else
      match Follow(recs, used, |recs|, sum, Wrap(base), |got|)
      case None => SumLost
      case Some(s) =>
        var next := NextMissing(got, region.nextCheckStart);
        if region.nextCheckStart < REMOVE_THRESHOLD then Solved(Stays)
        else Solved(Plan(LeftAfter(list, next), last, s, next, Wrap(base), |got|))
  }

  /** What is left when a region has been filled: the packets that reach past it, the number of the next one
      expected, and the sum that is running. */
  datatype Left<T> = Left(list: seq<Entry<T>>, next: nat, sum: Running)

  ghost function LeftOf<T>(list: seq<Entry<T>>, region: Region, got: seq<bool>, base: nat, last: Metadata,
      sum: Running): Left<T>
    requires region.nextCheckStart <= |got|
  {
    var next := NextMissing(got, region.nextCheckStart);
    var left := LeftAfter(list, next);
    Left(left, base + next,
         if region.nextCheckStart < REMOVE_THRESHOLD then sum else SumLeft(left, last, sum, next, Wrap(base), |got|))
  }

  function ResultOf(o: Outcome): Result {
    match o
    case Unsolvable => NeedMore
    case SumLost => Disabled
    case Solved(removal) => if removal.Overruns? then Overran else Success
  }

  /** A call of Decode: the counted list, the region checked, whether it is tried, the rows it uses. */
  datatype Trial<T> = Trial(list: seq<Entry<T>>, region: Region, tried: bool, used: seq<bool>)

  /** As many packets as losses, and not known to fail. */
  predicate Enough(region: Region) {
    region.lastRecovery.Some? && region.lostCount <= region.recoveryCount && !region.solveFailed
  }

  /** The check goes on from the region it left off at, unless that is enough, to the first that is, or to
      the end of the list.  Only a region that it does not go on from can be one that has failed. */
  ghost predicate Furthers<T>(before: Region, region: Region, list: seq<Entry<T>>) {
    && before.recoveryCount <= region.recoveryCount <= |list|
    && (Enough(before) ==> region == before)
    && (forall i :: before.recoveryCount <= i < region.recoveryCount - 1 ==> i + 1 < list[i].lostCount)
    && (region.solveFailed ==> before.solveFailed && region.recoveryCount == before.recoveryCount)
    && (Enough(region) || region.recoveryCount == |list|)
  }

  /** What a call of Decode tries: the region that the check comes to. */
  ghost predicate IsTrial<T>(list: seq<Entry<T>>, region: Region, got: seq<bool>, t: Trial<T>) {
    && Recounted(list, t.list) && RegionOk(t.region, t.list, got) && Furthers(region, t.region, t.list)
    && (t.tried <==> Enough(t.region) && t.region.lostCount <= MAX_LOSSES)
    && (t.tried ==> |t.used| == t.region.recoveryCount)
  }

  /** What it comes to. */
  ghost function TrialOutcome<T(!new)>(code: Code<T>, t: Trial<T>, got: seq<bool>, base: nat, last: Metadata,
      sum: Running): Outcome
    requires RegionOk(t.region, t.list, got)
             && (t.tried ==> t.region.lastRecovery.Some? && |t.used| == t.region.recoveryCount)
  {
    if !t.tried then Unsolvable else OutcomeOf(code, t.list, t.region, t.used, got, base, last, sum)
  }

  /** What a decoder holds: its list, the region it has checked, which elements it has received, the first
      element's number, the last metadata and the running sum. */
  datatype Holding<T> = Holding(list: seq<Entry<T>>, region: Region, got: seq<bool>, base: nat, last: Metadata,
      sum: Running)

  /** A call of Decode that tries what it is to try, comes to what the packets call for, and uses as many rows
      as packets are lost. */
  ghost predicate Tries<T(!new)>(code: Code<T>, h: Holding<T>, t: Trial<T>, o: Outcome) {
    && IsTrial(h.list, h.region, h.got, t) && o == TrialOutcome(code, t, h.got, h.base, h.last, h.sum)
    && (!o.Unsolvable? ==>
          IsBasis(code, RegionRecs(t.list, t.region.recoveryCount), t.used, RegionLost(t.region, h.got, h.base)))
  }

  /** What a trial that succeeds leaves. */
  ghost function TrialLeft<T(!new)>(t: Trial<T>, got: seq<bool>, base: nat, last: Metadata, sum: Running): Left<T>
    requires RegionOk(t.region, t.list, got) && |t.used| == t.region.recoveryCount
    requires t.region.recoveryCount <= |t.list| && t.region.nextCheckStart <= |got|
  {
    var recs := RegionRecs(t.list, t.region.recoveryCount);
    match Follow(recs, t.used, |recs|, sum, Wrap(base), |got|)
    case None => LeftOf(t.list, t.region, got, base, last, sum)
    case Some(s) => LeftOf(t.list, t.region, got, base, last, s)
  }

  /** A decoder that disables itself although its packets determine what is missing.  All packets
      before 310 are there but 195 and 305, and the window starts at 128.  The row over 100..300
      determines packet 195; the attempt succeeds when the sum that is running ends at 300, and disables the
      decoder when it ends at 310, as it does when the row over 100..310 has overtaken that one
      (`Removals.SwappedRows`). */
  lemma SwappedOutcome<T(!new)>(code: Code<T>, row: nat, payload: seq<T>, id: nat, last: Metadata)
    requires IsField(code.F)
    requires Rows.Entry(code, Metadata(row, 100, 200, 110), 300, 195) != code.F.zero
    ensures var rec := RecoveryPacket(Metadata(row, 100, 200, 110), payload, 300);
            var list := [Entry(id, rec, 62, 172, 1)];
            var region := Region(62, Some(id), Some(id), 172, 1, 1, false);
            var got := seq(182, e => e != 67 && e != 177);
            && RegionOk(region, list, got) && RegionLost(region, got, 128) == [195]
            && Determined(code, RegionRecs(list, 1), [195])
            && OutcomeOf(code, list, region, [true], got, 128, last, Running(100, 210)) == SumLost
            && OutcomeOf(code, list, region, [true], got, 128, last, Running(100, 200)).Solved?
  {
    hide IsField, Determined, Plan, MissingIn, Follow, NextMissing, LeftAfter;
    var rec := RecoveryPacket(Metadata(row, 100, 200, 110), payload, 300);
    var got := seq(182, e => e != 67 && e != 177);
    OneRowDetermines(code, rec, 195);
    assert RegionRecs([Entry(id, rec, 62, 172, 1)], 1) == [rec];
    HoleOfSwapped(got);
    SwappedFollow(rec);
  }

  lemma HoleOfSwapped(got: seq<bool>)
    requires |got| == 182 && forall e :: 0 <= e < 182 ==> got[e] == (e != 67 && e != 177)
    ensures MissingIn(got, 62, 172) == [67]
  {
    hide MissingIn;
    OneInRange(got, 62, 67, 172);
  }

  lemma SwappedFollow<T>(rec: RecoveryPacket<T>)
    requires rec.meta.columnStart == 100 && rec.meta.sumCount == 200
    ensures Follow([rec], [true], 1, Running(100, 210), Wrap(128), 182) == None
    ensures Follow([rec], [true], 1, Running(100, 200), Wrap(128), 182) == Some(Running(100, 200))
  {
    assert SubtractColumns(100, Wrap(128)) == COLUMN_PERIOD - 28;
    assert Follow([rec], [true], 0, Running(100, 210), Wrap(128), 182) == Some(Running(100, 210));
    assert Follow([rec], [true], 0, Running(100, 200), Wrap(128), 182) == Some(Running(100, 200));
  }

  /** As soon as the first k rows of the list, for any k, are no fewer than the packets missing from their range,
      the next attempt tries the first such rows. */
  lemma FirstEnoughIsTried<T>(list: seq<Entry<T>>, got: seq<bool>, base: nat, next: nat, nextId: nat, t: Trial<T>,
      k: nat)
    requires ListOk(list, base, next, |got|, nextId) && IsTrial(list, EMPTY_REGION, got, t) && 0 < k <= |list|
    requires list[k - 1].elementEnd <= |got|
    requires |MissingIn(got, list[0].elementStart, list[k - 1].elementEnd)| <= k <= MAX_LOSSES
    ensures t.tried && 0 < t.region.recoveryCount <= k
    ensures forall i :: 0 <= i < t.region.recoveryCount - 1 ==>
              && list[i].elementEnd <= |got|
              && i + 1 < |MissingIn(got, list[0].elementStart, list[i].elementEnd)|
  {
    hide MissingIn, Sorted, Distinct, EntryOk;
    var r := t.region;
    assert Enough(r) || r.recoveryCount == |list|;
    assert r.lastRecovery.Some?;
    forall i | 0 <= i < r.recoveryCount
      ensures list[i].elementEnd <= |got|
      ensures t.list[i].lostCount == |MissingIn(got, list[0].elementStart, list[i].elementEnd)|
    {
      assert CountOk(t.list[i], r.elementStart, got);
      assert t.list[i] == list[i].(lostCount := t.list[i].lostCount);
      assert t.list[0] == list[0].(lostCount := t.list[0].lostCount);
    }
  }

  /** What an attempt that succeeds removes, when it reaches element 128 and there are rows left: by their columns
      and counts, nothing if one of them still needs an element before 128, and else all subwindows that
      none of them needs, or the decoder is disabled when the start of a sum they need is gone. */
  lemma SolvedRemoves<T(!new)>(code: Code<T>, list: seq<Entry<T>>, region: Region, used: seq<bool>, got: seq<bool>,
      base: nat, last: Metadata, sum: Running)
    requires region.recoveryCount <= |list| && |used| == region.recoveryCount && 128 <= region.nextCheckStart <= |got|
    requires OutcomeOf(code, list, region, used, got, base, last, sum).Solved?
    requires LeftAfter(list, NextMissing(got, region.nextCheckStart)) != []
    ensures var removal := OutcomeOf(code, list, region, used, got, base, last, sum).removal;
            var left := LeftAfter(list, NextMissing(got, region.nextCheckStart));
            var s := SumBefore(RegionRecs(list, region.recoveryCount), used, |used|, sum);
            var there := StartsAreThere(left, |left|, Wrap(base), |got|);
            var enough := NeedsFrom(left, |left|, Wrap(base), 128);
            && (removal.Stays? <==> there && !enough)
            && (removal.Disables? <==> !there || (enough && !FirstGoesOn(left, s, Wrap(base), |got|)))
            && (removal.Drops? ==>
                  && NeedsFrom(left, |left|, Wrap(base), 64 * removal.subwindows)
                  && !NeedsFrom(left, |left|, Wrap(base), 64 * removal.subwindows + 64))
  {
    hide Determined, Plan, Follow, SumBefore, LeftAfter, NextMissing, StartsAreThere, NeedsFrom, FirstGoesOn, Wrap;
    var recs := RegionRecs(list, region.recoveryCount);
    FollowIff(recs, used, |recs|, sum, Wrap(base), |got|);
    var next := NextMissing(got, region.nextCheckStart);
    PlanIff(LeftAfter(list, next), last, SumBefore(recs, used, |used|, sum), next, Wrap(base), |got|);
  }

  /** One packet is missing from the range of the first row of the list: the next attempt tries that row, and
      finds the packet unless its coefficient there is zero. */
  lemma OneLossIsTried<T(!new)>(code: Code<T>, list: seq<Entry<T>>, got: seq<bool>, base: nat, next: nat, nextId: nat,
      last: Metadata, sum: Running, t: Trial<T>)
    requires IsField(code.F) && list != [] && ListOk(list, base, next, |got|, nextId)
    requires IsTrial(list, EMPTY_REGION, got, t)
    requires forall e :: list[0].elementStart <= e < list[0].elementEnd && e < |got| ==> got[e] == (e != next)
    ensures t.tried && t.region.recoveryCount == 1 && RegionLost(t.region, got, base) == [base + next]
    ensures list[0].rec.meta.ldpcCount > 0
    ensures Rows.Entry(code, list[0].rec.meta, list[0].rec.end, base + next) != code.F.zero ==>
              !TrialOutcome(code, t, got, base, last, sum).Unsolvable?
  {
    hide IsField, Determined, Plan, MissingIn, Follow, NextMissing, LeftAfter, Wrap, Sorted, Distinct;
    assert EntryOk(list[0], base, next, |got|) && t.list[0] == list[0].(lostCount := t.list[0].lostCount);
    OneInRange(got, list[0].elementStart, next, list[0].elementEnd);
    assert Enough(t.region) || t.region.recoveryCount == |t.list|;
    assert t.region.lastRecovery.Some?;
    assert CountOk(t.list[0], t.region.elementStart, got);
    assert t.region.recoveryCount == 1;
    assert RegionRecs(t.list, 1) == [list[0].rec];
    OneRowDetermines(code, list[0].rec, base + next);
  }

  lemma OneInRange(got: seq<bool>, a: nat, next: nat, b: nat)
    requires a <= next < b <= |got| && forall e :: a <= e < b ==> got[e] == (e != next)
    ensures MissingIn(got, a, b) == [next]
  {
    hide MissingIn;
    MissingSplit(got, a, next, b);
    MissingSplit(got, next, next + 1, b);
    MissingNone(got, a, next);
    MissingNone(got, next + 1, b);
    OneMissing(got, next);
  }

  lemma OneMissing(got: seq<bool>, e: nat)
    requires e < |got| && !got[e]
    ensures MissingIn(got, e, e + 1) == [e]
  {
  }

  /** Points each lost packet to its matrix column. */
  method IndexColumns(lost: seq<nat>) returns (columnOf: map<nat, nat>)
    ensures IsColumnIndex(lost, columnOf)
  {
    columnOf := map[];
    for j := 0 to |lost|
      invariant forall c :: c in columnOf ==> columnOf[c] < |lost| && lost[columnOf[c]] == c
      invariant forall k :: 0 <= k < j ==> lost[k] in columnOf
    {
      columnOf := columnOf[lost[j] := j];
    }
  }

  /** Placing a packet in a window that has grown to hold it. */
  lemma PlacedInWindow<T>(front: seq<seq<T>>, contents: seq<seq<T>>, element: nat, packet: seq<T>)
    ensures var grown := contents + Nothing(if element + 1 > |contents| then element + 1 - |contents| else 0);
            front + grown[element := packet] == Placed(front + contents, |front| + element, packet)
  {
  }

  /** Whether a trial leaves these packets, next expected packet and sum. */
  ghost predicate Leaves<T(!new)>(t: Trial<T>, h: Holding<T>, now: Left<T>) {
    && RegionOk(t.region, t.list, h.got) && |t.used| == t.region.recoveryCount
    && t.region.recoveryCount <= |t.list| && t.region.nextCheckStart <= |h.got|
    && var left := TrialLeft(t, h.got, h.base, h.last, h.sum);
       SamePackets(left.list, now.list) && left.next == now.next && left.sum == now.sum
  }

  class Decoder<T(==, 0, !new)> {
    const code: Code<T>
    const parse: seq<T> -> Option<nat>
    const window: DecoderWindow<T>
    const matrix: RecoveryMatrix<T>

    /** Packets that have left the window; they stand for the running sums they were rolled into. */
    var removed: seq<seq<T>>
    var sumColumnStart: nat
    var sumColumnCount: nat

    // RecoveryPacketList
    var list: seq<Entry<T>>
    var nextId: nat
    var lastMeta: Metadata
    ghost var lastEnd: nat

    /** The latest start of the light part of any recovery packet that has arrived. */
    ghost var started: nat

    /** Elements have been removed by metadata more than half a period old. */
    ghost var stale: bool

    var region: Region
    var latestColumn: Column
    var hasRecovered: bool
    var recovered: seq<Original<T>>
    var disabled: bool

    /** Everything but the checked region: only received packets have left the window, the list is
        in order, and every recovery packet starts at or before the next expected packet. */
    ghost predicate Sound()
      reads this, window
    {
      && IsField(code.F) && matrix.F == code.F
      && window.Valid() && window.count <= COLUMN_PERIOD / 2 && (window.count == 0 ==> window.base == 0)
      && |removed| == window.base && (forall i :: 0 <= i < |removed| ==> removed[i] != [])
      && ListOk(list, window.base, window.nextExpected, window.count, nextId)
      && LastOk() && (stale || window.base <= started) && StartedBy(list, started)
    }

    /** The last metadata received in order, if any. */
    ghost predicate LastOk()
      reads this, window
    {
      if lastMeta.ldpcCount == 0 then lastMeta == Metadata(0, 0, 0, 0) && lastEnd == 0
      else
        && MetadataOk(lastMeta, lastEnd) && lastEnd <= window.base + window.count
        && lastEnd - lastMeta.ldpcCount <= window.base + window.nextExpected && lastEnd - lastMeta.ldpcCount <= started
    }

    ghost predicate MatrixOk()
      requires window.Sound()
      reads this, window, matrix, matrix.data
    {
      && matrix.Valid()
      && Continues(code, matrix, RegionRecs(list, region.recoveryCount), RegionLost(region, window.Got(), window.base),
                   RegionCounts(list, region.recoveryCount))
    }

    ghost predicate Checked()
      requires window.Sound()
      reads this, window, matrix, matrix.data
    {
      RegionOk(region, list, window.Got()) && MatrixOk()
    }

    ghost predicate Valid()
      reads this, window, matrix, matrix.data
    {
      Sound() && (!disabled ==> Checked())
    }

    /** Everything received so far, by true number; what is missing is empty. */
    ghost function Received(): seq<seq<T>>
      requires window.Sound()
      reads this, window
    {
      removed + window.Contents()
    }

    /** The true number of the first packet that is missing. */
    ghost function NextExpected(): nat
      reads this, window
    {
      window.base + window.nextExpected
    }

    /** The state agrees with what was sent. */
    ghost predicate Agrees(hist: seq<seq<T>>)
      requires window.Sound()
      reads this, window
    {
      Agreement(code, Received(), list, recovered, hist)
    }

    constructor (code: Code<T>, parse: seq<T> -> Option<nat>)
      requires IsField(code.F)
      ensures Valid() && !disabled && window.base == window.count == 0 && removed == [] && list == [] && recovered == []
              && started == 0
      ensures !stale && !hasRecovered
      ensures this.code == code && this.parse == parse && fresh(window) && fresh(matrix) && fresh(matrix.data)
    {
      hide IsField, Sound, Checked;
      this.code, this.parse := code, parse;
      window := new DecoderWindow();
      matrix := new RecoveryMatrix(code.F);
      removed, sumColumnStart, sumColumnCount := [], 0, 0;
      list, nextId, lastMeta, lastEnd, started, stale := [], 0, Metadata(0, 0, 0, 0), 0, 0, false;
      region, latestColumn, hasRecovered, recovered, disabled := EMPTY_REGION, 0, false, [], false;
      new;
      StartIsValid();
    }

    lemma StartIsValid()
      requires IsField(code.F) && matrix.F == code.F && window.Valid() && window.base == window.count == 0
               && removed == []
      requires list == [] && lastMeta == Metadata(0, 0, 0, 0) && lastEnd == 0 && started == 0 && region == EMPTY_REGION
      requires matrix.Valid() && matrix.rows == 0 && matrix.columns == 0 && matrix.columnCount == [] && matrix.A == []
      ensures Valid()
    {
      ContinuesFresh(code, matrix, [], RegionLost(region, window.Got(), window.base), []);
    }

    /** A new decoder agrees with an empty history. */
    lemma NewAgrees()
      requires Sound() && window.base == window.count == 0 && removed == [] && list == [] && recovered == []
      ensures Received() == [] && NextExpected() == 0 && Agrees([])
    {
      NothingYet(code);
      assert Received() == [];
    }

    // ----- the checked region

    method ResetRegion()
      requires Sound()
      modifies this`region, matrix
      ensures Valid() && region == EMPTY_REGION && matrix.data == old(matrix.data)
    {
      hide ListOk, IsField, Wrap, AllOk, Uniform, BitSets.Bits, Packets, StartedBy;
      region := EMPTY_REGION;
      matrix.Reset();
      ContinuesFresh(code, matrix, [], RegionLost(region, window.Got(), window.base), []);
    }

    // ----- packets that arrive

    /** Stores a packet that was missing, moves the next expected element past what is there, and
        forgets the recovery packets that are no longer needed. */
    method StorePacket(element: nat, packet: seq<T>)
      requires Sound() && element < window.count && !window.Got()[element] && packet != []
      modifies this`list, window`subwindows, window`nextExpected
      ensures Sound() && window.Got() == old(window.Got())[element := true]
      ensures window.Contents() == old(window.Contents())[element := packet]
              && window.nextExpected >= old(window.nextExpected)
      ensures element != old(window.nextExpected) ==> list == old(list)
      ensures list == LeftAfter(old(list), window.nextExpected)
      ensures forall e :: e in list ==> e in old(list)
    {
      hide EntryOk, Sorted, Distinct, IsField, BitSets.Bits, Packets, Wrap, AllOk;
      NothingToTrim();
      window.Store(element, packet);
      if element == window.nextExpected {
        ghost var next := window.nextExpected;
        window.IterateNextExpectedElement(element + 1);
        var d := TrimBefore(list, window.nextExpected);
        TrimOk(list, d, window.base, next, window.nextExpected, window.count, nextId);
        list := list[d..];
      }
    }

    /** Every packet of the list reaches past the next expected element. */
    lemma NothingToTrim()
      requires Sound()
      ensures LeftAfter(list, window.nextExpected) == list
    {
      hide IsField, Wrap, AllOk, Uniform, BitSets.Bits, Packets;
      if list != [] {
        assert EntryOk(list[0], window.base, window.nextExpected, window.count);
      }
    }

    /** Takes in a packet that was missing; the checked region starts over if the packet falls in it. */
    method AcceptPacket(element: nat, packet: seq<T>)
      requires Valid() && !disabled && element < window.count && !window.Got()[element] && packet != []
      modifies this`list, this`region, window`subwindows, window`nextExpected, matrix
      ensures Valid() && matrix.data == old(matrix.data)
      ensures window.Contents() == old(window.Contents())[element := packet]
              && window.nextExpected >= old(window.nextExpected)
      ensures list == LeftAfter(old(list), window.nextExpected) && forall e :: e in list ==> e in old(list)
      ensures region ==
                if old(region).elementStart <= element < old(region).nextCheckStart then EMPTY_REGION
                else old(region)
      ensures element == old(window.nextExpected) ==> region == EMPTY_REGION
    {
      hide EntryOk, Sorted, Distinct, IsField, BitSets.Bits, Packets, Wrap, AllOk, RegionOk, Continues;
      ghost var got := window.Got();
      RegionCoversNext(region, list, got, window.base, window.nextExpected, nextId);
      StorePacket(element, packet);
      if region.elementStart <= element < region.nextCheckStart {
        ResetRegion();
      } else {
        KeepRegion(old(list), got);
      }
    }

    /** Makes the window reach at least to an element. */
    method GrowTo(end: nat)
      requires Valid() && !disabled && end <= COLUMN_PERIOD / 2
      modifies window`subwindows, window`count
      ensures Valid() && window.count == if end > old(window.count) then end else old(window.count)
      ensures Received() == old(Received()) + Nothing(window.count - old(window.count))
      ensures window.Contents() == old(window.Contents()) + Nothing(window.count - old(window.count))
    {
      hide EntryOk, Sorted, Distinct, IsField, BitSets.Bits, Packets, Wrap, AllOk, RegionOk, Continues;
      hide RecoveryMatrix.Valid;
      ghost var got := window.Got();
      RegionCoversNext(region, list, got, window.base, window.nextExpected, nextId);
      window.GrowWindow(end);
      GrowOk(list, window.base, window.nextExpected, |got|, window.count, nextId);
      assert Received() == old(Received()) + Nothing(window.count - old(window.count));
      KeepRegion(list, got);
    }

    /** Takes in an original packet, unless it has been received before. */
    method AddOriginal(packetNum: nat, packet: seq<T>, ghost n: nat) returns (r: Result)
      requires Valid() && packet != []
      requires packetNum == Wrap(n) && -(COLUMN_PERIOD / 2) <= n - window.base < COLUMN_PERIOD / 2
      modifies this`list, this`region, window`subwindows, window`count, window`nextExpected, matrix
      ensures Valid() && matrix.data == old(matrix.data) && NextExpected() >= old(NextExpected())
      ensures r ==
                if old(disabled) then Disabled
                else if n < |old(Received())| && old(Received())[n] != [] then DuplicateData else Success
      ensures Received() == if r.Success? then Placed(old(Received()), n, packet) else old(Received())
      ensures list == LeftAfter(old(list), window.nextExpected) && forall e :: e in list ==> e in old(list)
      ensures region ==
                if r.Success? && window.base + old(region).elementStart <= n < window.base + old(region).nextCheckStart
                then EMPTY_REGION
                else old(region)
    {
      hide ListOk, LastOk, StartedBy, IsField, BitSets.Bits, Packets, Wrap, AllOk, RegionOk, Continues;
      hide RecoveryMatrix.Valid, Uniform;
      NothingToTrim();
      if disabled {
        return Disabled;
      }
      var element := SubtractColumns(packetNum, window.columnStart);
      SubtractWrapped(n, window.base);
      if IsColumnDeltaNegative(element) {
        return DuplicateData;
      }
      r := AddAt(element, packet);
      assert n == window.base + element;
    }

    /** Adds a packet at or past the start of the window. */
    method AddAt(element: nat, packet: seq<T>) returns (r: Result)
      requires Valid() && !disabled && packet != [] && element < COLUMN_PERIOD / 2
      modifies this`list, this`region, window`subwindows, window`count, window`nextExpected, matrix
      ensures Valid() && matrix.data == old(matrix.data) && window.nextExpected >= old(window.nextExpected)
      ensures r ==
                if element < old(window.count) && old(window.Contents())[element] != [] then DuplicateData
                else Success
      ensures Received() ==
                if r.Success? then Placed(old(Received()), window.base + element, packet)
                else old(Received())
      ensures list == LeftAfter(old(list), window.nextExpected) && forall e :: e in list ==> e in old(list)
      ensures region ==
                if r.Success? && old(region).elementStart <= element < old(region).nextCheckStart then EMPTY_REGION
                else old(region)
    {
      hide ListOk, LastOk, StartedBy, IsField, BitSets.Bits, Packets, Wrap, AllOk, RegionOk, Continues;
      hide RecoveryMatrix.Valid, Uniform, Checked, LeftAfter;
      NothingToTrim();
      GrowTo(element + 1);
      window.GotIsContents();
      var original := window.Load(element);
      if original != [] {
        return DuplicateData;
      }
      PlacedInWindow(removed, old(window.Contents()), element, packet);
      hide Placed;
      ghost var grown := window.Contents();
      AcceptPacket(element, packet);
      assert window.Contents() == grown[element := packet];
      return Success;
    }

    /** Puts a recovery packet in its place in the list.  The checked region starts over unless the
        packet goes to the end of a list that is not empty. */
    method Insert(rec: RecoveryPacket<T>, elementStart: nat, elementEnd: nat, outOfOrder: bool)
      requires Valid() && !disabled
               && EntryOk(Entry(nextId, rec, elementStart, elementEnd, 0), window.base, window.nextExpected,
                    window.count)
      requires rec.end - rec.meta.ldpcCount <= started
      modifies this`list, this`nextId, this`region, this`lastMeta, this`lastEnd, matrix
      ensures Valid() && matrix.data == old(matrix.data)
      ensures lastMeta == if outOfOrder then old(lastMeta) else rec.meta
      ensures lastEnd == if outOfOrder then old(lastEnd) else rec.end
      ensures var e := Entry(old(nextId), rec, elementStart, elementEnd, 0);
              var k := Place(old(list), e);
              && list == Inserted(old(list), k, e)
              && region == if k == |old(list)| && k > 0 then old(region) else EMPTY_REGION
    {
      hide EntryOk, Sorted, Distinct, IsField, BitSets.Bits, Packets, Wrap, AllOk, RegionOk, Continues;
      hide RecoveryMatrix.Valid, Uniform, Place, MetadataOk, StopsAt;
      ghost var next, count := window.nextExpected, window.count;
      var e := Entry(nextId, rec, elementStart, elementEnd, 0);
      RegionCoversNext(region, list, window.Got(), window.base, next, nextId);
      var k := FindPlace(list, e, window.base, next, count, nextId);
      InsertOk(list, k, e, window.base, next, count, nextId);
      var atEnd := k == |list| && k > 0;
      list := Inserted(list, k, e);
      nextId := nextId + 1;
      if !outOfOrder {
        lastMeta, lastEnd := rec.meta, rec.end;
        EntryIsLast(e);
      }
      if atEnd {
        KeepRegion(old(list), window.Got());
      } else {
        ResetRegion();
      }
    }

    lemma EntryIsLast(e: Entry<T>)
      requires EntryOk(e, window.base, window.nextExpected, window.count) && lastMeta == e.rec.meta
               && lastEnd == e.rec.end
      requires e.rec.end - e.rec.meta.ldpcCount <= started
      ensures LastOk()
    {
    }

    // ----- elements that leave

    ghost function Sum(): Running
      reads this
    {
      Running(sumColumnStart, sumColumnCount)
    }

    /** The first element that any recovery packet of the list needs, and the sum to keep running. */
    method FirstKeptInList() returns (k: Keeping)
      requires Sound() && list != []
      ensures k == Kept(list, |list|, window.columnStart, window.count)
              && Needs(list, |list|, window.columnStart, window.count, k)
      ensures AllFrom(list, k.first) && window.base + k.first <= started
    {
      hide Sorted, Distinct, IsField, Wrap, Needs, KeepStep, MetadataOk, AllOk, Uniform, BitSets.Bits, Packets;
      k := Keeping(true, list[0].elementStart, false, 0, 0);
      for i := 0 to |list|
        invariant k == Kept(list, i, window.columnStart, window.count)
      {
        k := KeepStep(k, list[i], window.columnStart, window.count);
      }
      KeptNeeds(list, |list|, window.columnStart, window.count);
      forall i | 0 <= i < |list| ensures k.first <= list[i].elementStart <= list[i].elementEnd {
        assert EntryOk(list[i], window.base, window.nextExpected, window.count);
      }
    }

    /** Follows the running sum of the encoder; fails when its first packet has left the window. */
    method FollowSum(k: Keeping) returns (ok: bool)
      requires Sound()
      modifies this`sumColumnStart, this`sumColumnCount
      ensures Sound() && (old(Valid()) ==> Valid())
      ensures ok == CanKeep(k, old(Sum()), window.columnStart, window.count)
      ensures Sum() == if ok then KeptSum(k, old(Sum())) else old(Sum())
    {
      hide ListOk, IsField, RegionOk, Continues, RecoveryMatrix.Valid, AllOk, Uniform, BitSets.Bits, Packets;
      if !k.seenSum {
        sumColumnCount := 0;
      } else if sumColumnStart != k.start || sumColumnCount > k.count {
        if SubtractColumns(k.start, window.columnStart) >= window.count {
          return false;
        }
        sumColumnStart, sumColumnCount := k.start, k.count;
      }
      return true;
    }

    method Disable()
      requires Sound()
      modifies this`disabled
      ensures Valid() && disabled
    {
      disabled := true;
    }

    ghost function ThePlan(): Removal
      reads this, window
    {
      Plan(list, lastMeta, Sum(), window.nextExpected, window.columnStart, window.count)
    }

    ghost function TheSum(): Running
      reads this, window
    {
      SumLeft(list, lastMeta, Sum(), window.nextExpected, window.columnStart, window.count)
    }

    /** Removes whole subwindows from the front, as planned.  Unless the plan overruns, only received
        packets leave. */
    method RemoveElements() returns (ok: bool)
      requires Sound()
      modifies this`removed, this`sumColumnStart, this`sumColumnCount, this`list, this`region, this`disabled,
        this`stale, window, matrix
      ensures ok <==> !old(ThePlan()).Overruns?
      ensures ok ==> Sound() && matrix.data == old(matrix.data)
      ensures ok ==>
                Received() == old(Received()) && NextExpected() == old(NextExpected()) && SamePackets(old(list), list)
      ensures ok && old(Valid()) ==> Valid()
      ensures ok ==> window.base == old(window.base) + Dropped(old(ThePlan()))
      ensures ok ==> disabled == (old(disabled) || old(ThePlan()).Disables?)
      ensures ok ==> Sum() == old(TheSum())
      ensures ok ==>
                stale == (old(stale)
                    || (old(ThePlan()).Drops? && old(list) == [] && old(window.base) - lastEnd > COLUMN_PERIOD / 2))
    {
      hide ListOk, IsField, BitSets.Bits, Packets, Wrap, AllOk, Checked, SamePackets, Needs, LastOk, StartedBy;
      hide Uniform, Kept, KeptByLast, CanKeep;
      SameAsBefore(list);
      if window.nextExpected < REMOVE_THRESHOLD {
        return true;
      }
      var k: Keeping;
      if list == [] {
        k := KeptByLast(lastMeta, window.columnStart);
      } else {
        k := FirstKeptInList();
      }
      if !k.ok {
        Disable();
        return true;
      }
      if k.first < REMOVE_THRESHOLD {
        return true;
      }
      var follows := FollowSum(k);
      if !follows {
        Disable();
        return true;
      }
      var n := k.first / SUBWINDOW_SIZE;
      if SUBWINDOW_SIZE * n > window.nextExpected || SUBWINDOW_SIZE * n >= window.count {
        return false;
      }
      if list == [] {
        MarkStale(k);
      }
      FromEarlier(k.first, SUBWINDOW_SIZE * n);
      Drop(n);
      return true;
    }

    /** Notes when the metadata that decides is too old for its columns to tell its true numbers. */
    ghost method MarkStale(k: Keeping)
      requires Sound() && list == [] && k == KeptByLast(lastMeta, window.columnStart) && k.ok
               && k.first >= REMOVE_THRESHOLD
      modifies this`stale
      ensures Sound() && (old(Valid()) ==> Valid()) && (stale || window.base + k.first <= started)
      ensures stale == (old(stale) || window.base - lastEnd > COLUMN_PERIOD / 2)
    {
      hide ListOk, IsField, RegionOk, Continues, RecoveryMatrix.Valid, AllOk, Uniform, BitSets.Bits, Packets, Wrap;
      if window.base - lastEnd > COLUMN_PERIOD / 2 {
        stale := true;
      } else {
        LastElement();
      }
    }

    lemma FromEarlier(n: nat, n': nat)
      requires n' <= n && AllFrom(list, n)
      ensures AllFrom(list, n')
    {
    }

    lemma SameAsBefore(l: seq<Entry<T>>)
      ensures SamePackets(l, l)
    {
    }

    lemma LastElement()
      requires Sound() && window.base - lastEnd <= COLUMN_PERIOD / 2
      ensures var elementEnd := EndElement(lastMeta, window.columnStart);
              !IsColumnDeltaNegative(elementEnd) ==> elementEnd == lastEnd - window.base
    {
      hide Wrap, ListOk, IsField, AllOk, Uniform, BitSets.Bits, Packets, StartedBy, EndElement;
      if lastMeta.ldpcCount > 0 {
        EndOfMetadata(lastMeta, lastEnd, window.base);
        SubtractWrapped(lastEnd, window.base);
      } else {
        NoMetadata(window.base);
        SubtractWrapped(0, window.base);
      }
    }

    lemma NoMetadata(base: nat)
      ensures EndElement(Metadata(0, 0, 0, 0), Wrap(base)) == SubtractColumns(Wrap(0), Wrap(base))
    {
      WrapSmall(0);
    }

    lemma SubtractOfSum(a: nat, base: nat, end: nat)
      requires Wrap(a) == Wrap(end) && -(COLUMN_PERIOD / 2) <= end - base <= COLUMN_PERIOD / 2
      ensures SubtractColumns(a, Wrap(base)) == SubtractColumns(Wrap(end), Wrap(base))
      ensures !IsColumnDeltaNegative(SubtractColumns(a, Wrap(base))) ==> SubtractColumns(a, Wrap(base)) == end - base
      ensures IsColumnDeltaNegative(SubtractColumns(a, Wrap(base))) ==> end < base || end == base + COLUMN_PERIOD / 2
    {
      SubtractWrapped(end, base);
    }

    /** Moves the window past its first k subwindows. */
    method Drop(k: nat)
      requires Sound() && SUBWINDOW_SIZE * k <= window.nextExpected && SUBWINDOW_SIZE * k < window.count
               && AllFrom(list, SUBWINDOW_SIZE * k)
      requires stale || window.base + SUBWINDOW_SIZE * k <= started
      modifies this`removed, this`list, this`region, window, matrix
      ensures Sound() && matrix.data == old(matrix.data)
      ensures Received() == old(Received()) && NextExpected() == old(NextExpected()) && window.base >= old(window.base)
      ensures window.base == old(window.base) + SUBWINDOW_SIZE * k
      ensures old(Valid()) ==> Valid()
      ensures SamePackets(old(list), list)
    {
      hide ListOk, Sorted, IsField, BitSets.Bits, Packets, Wrap, AllOk, RegionOk, Continues, SamePackets, RegionLost;
      hide RegionRecs, RegionCounts, AllFrom, LastOk;
      ghost var list0, got, base := list, window.Got(), window.base;
      ghost var valid := Valid() && !disabled;
      ListSorted();
      DropWindow(k);
      ShiftRegion(SUBWINDOW_SIZE * k, list0, got, base, valid);
    }

    lemma ListIsOk()
      requires Sound()
      ensures ListOk(list, window.base, window.nextExpected, window.count, nextId) && window.count <= COLUMN_PERIOD / 2
      ensures lastEnd <= window.base + window.count
    {
    }

    lemma ListSorted()
      requires Sound()
      ensures Sorted(list)
    {
    }

    /** Whether the region and the matrix fit a given list and window. */
    ghost predicate CheckedIn(region: Region, list: seq<Entry<T>>, got: seq<bool>, base: nat)
      reads matrix, matrix.data
    {
      && RegionOk(region, list, got) && matrix.Valid()
      && Continues(code, matrix, RegionRecs(list, region.recoveryCount), RegionLost(region, got, base),
           RegionCounts(list, region.recoveryCount))
    }

    method ShiftRegion(n: nat, ghost list0: seq<Entry<T>>, ghost got: seq<bool>, ghost base: nat, ghost valid: bool)
      requires Sound() && AllFrom(list0, n) && list == ShiftedList(list0, n) && Sorted(list0)
      requires n <= |got| && window.Got() == got[n..] && window.base == base + n
      requires valid ==> CheckedIn(region, list0, got, base)
      modifies this`region, matrix
      ensures Sound() && matrix.data == old(matrix.data) && (valid || disabled ==> Valid())
    {
      hide ListOk, Sorted, IsField, BitSets.Bits, Packets, Wrap, AllOk, RegionOk, Continues, RegionLost, RegionRecs;
      hide RegionCounts, AllFrom, Uniform, StartedBy, RecoveryMatrix.Valid, MetadataOk;
      if region.elementStart < n || region.nextCheckStart < n {
        ResetRegion();
      } else {
        if valid {
          ShiftChecked(region, n, list0, got, base);
        }
        region := region.(elementStart := region.elementStart - n, nextCheckStart := region.nextCheckStart - n);
      }
    }

    lemma ShiftChecked(region: Region, n: nat, list0: seq<Entry<T>>, got: seq<bool>, base: nat)
      requires AllFrom(list0, n) && n <= |got| && CheckedIn(region, list0, got, base) && Sorted(list0)
      requires n <= region.elementStart && n <= region.nextCheckStart
      ensures CheckedIn(region.(elementStart := region.elementStart - n, nextCheckStart := region.nextCheckStart - n),
                ShiftedList(list0, n), got[n..], base + n)
    {
      hide Continues;
      RegionEnd(region, list0, got);
      RegionShift(region, list0, got, n);
      LostShift(region, got, base, n);
      ShiftedRegion(list0, n, region.recoveryCount);
    }

    method DropWindow(k: nat)
      requires Sound() && SUBWINDOW_SIZE * k <= window.nextExpected && SUBWINDOW_SIZE * k < window.count
               && AllFrom(list, SUBWINDOW_SIZE * k)
      requires stale || window.base + SUBWINDOW_SIZE * k <= started
      modifies this`removed, this`list, window
      ensures Sound() && Received() == old(Received()) && NextExpected() == old(NextExpected())
      ensures window.base == old(window.base) + SUBWINDOW_SIZE * k
              && window.Got() == old(window.Got())[SUBWINDOW_SIZE * k..]
      ensures list == ShiftedList(old(list), SUBWINDOW_SIZE * k) && SamePackets(old(list), list)
    {
      hide EntryOk, Sorted, Distinct, IsField, BitSets.Bits, Packets, Wrap, AllOk;
      var n := SUBWINDOW_SIZE * k;
      var front := window.Front(n);
      window.GotIsContents();
      ShiftOk(list, n, window.base, window.nextExpected, window.count, nextId);
      window.DropSubwindows(k);
      removed := removed + front;
      list := ShiftedList(list, n);
      assert Received() == old(Received());
    }

    lemma ShiftedRegion(list0: seq<Entry<T>>, n: nat, count: nat)
      requires AllFrom(list0, n)
      ensures RegionRecs(ShiftedList(list0, n), count) == RegionRecs(list0, count)
      ensures RegionCounts(ShiftedList(list0, n), count) == RegionCounts(list0, count)
    {
    }

    // ----- recovery packets that arrive

    /** Whether a recovery packet can be used: it reaches past what has been received, its light part
        is still in the window, and so is its sum, unless that sum is being kept. */
    ghost predicate Takes(rec: RecoveryPacket<T>)
      reads this, window
    {
      && NextExpected() < rec.end && window.base + rec.meta.ldpcCount <= rec.end
      && (window.count == 0 ==> !OutOfOrder(rec.meta, latestColumn))
      && (window.count > 0 && rec.meta.sumCount > CAUCHY_THRESHOLD
           && (sumColumnCount == 0 || sumColumnStart != rec.meta.columnStart) ==>
            SubtractColumns(rec.meta.columnStart, window.columnStart) < window.count)
    }

    /** The list with a packet in its place. */
    ghost function ListWith(rec: RecoveryPacket<T>): seq<Entry<T>>
      requires window.base + rec.meta.ldpcCount <= rec.end
      reads this, window
    {
      JoinedList(list, nextId, window.base, rec)
    }

    /** Whether a packet holds nothing new and still counts. */
    ghost predicate Tells(rec: RecoveryPacket<T>)
      reads this, window
    {
      && rec.end <= NextExpected() && window.base + rec.meta.ldpcCount + REMOVE_THRESHOLD <= rec.end
      && !OutOfOrder(rec.meta, latestColumn)
    }

    /** The last metadata received in order, and the true number where it ends. */
    ghost function Last(): (Metadata, nat)
      reads this
    {
      (lastMeta, lastEnd)
    }

    /** The metadata to go by when a packet that counts has arrived. */
    ghost function LastWith(rec: RecoveryPacket<T>): (Metadata, nat)
      reads this
    {
      if OutOfOrder(rec.meta, latestColumn) then Last() else (rec.meta, rec.end)
    }

    /** What a recovery packet does when it arrives. */
    ghost function ArrivalOf(rec: RecoveryPacket<T>): Arrival
      reads this, window
    {
      if Takes(rec) then
        if rec.meta.sumCount == 1 then Single else Joins(PlanWith(rec, OutOfOrder(rec.meta, latestColumn)))
      else if Tells(rec) then
        Unneeded(Plan(list, rec.meta, Sum(), window.nextExpected, window.columnStart, window.count))
      else Ignored
    }

    ghost function CountWith(rec: RecoveryPacket<T>): nat
      reads window
    {
      if rec.end > window.base + window.count then rec.end - window.base else window.count
    }

    /** The running sum after that. */
    ghost function SumWith(rec: RecoveryPacket<T>): Running
      reads this, window
    {
      match ArrivalOf(rec)
      case Joins(_) => SumJoined(rec, OutOfOrder(rec.meta, latestColumn))
      case Unneeded(_) => SumLeft(list, rec.meta, Sum(), window.nextExpected, window.columnStart, window.count)
      case _ => Sum()
    }

    /** A packet over one missing column whose length field does not fit it. */
    ghost predicate Corrupt(rec: RecoveryPacket<T>)
      requires window.Sound()
      reads this, window
    {
      rec.meta.sumCount == 1 && Lacks(rec.end - 1) && Unreadable(rec.payload)
    }

    ghost predicate Lacks(n: int)
      requires window.Sound()
      reads this, window
    {
      0 <= n < |Received()| ==> Received()[n] == []
    }

    predicate Unreadable(payload: seq<T>) { payload == [] || parse(payload) != Some(|payload|) }

    /** Takes in a recovery packet whose light part starts at or before the next expected packet. */
    method AddRecovery(rec: RecoveryPacket<T>, ghost hist: seq<seq<T>>) returns (r: Result)
      requires Valid() && Agrees(hist) && Made(code, hist, rec)
      requires MetadataOk(rec.meta, rec.end) && rec.end - rec.meta.ldpcCount <= NextExpected()
      requires -(COLUMN_PERIOD / 2) <= rec.end - window.base < COLUMN_PERIOD / 2
      modifies this, window, matrix
      ensures Valid() && Agrees(hist) && matrix.data == old(matrix.data)
      ensures Keeps(old(Received()), Received()) && NextExpected() >= old(NextExpected())
      ensures r == if old(disabled) || (old(Takes(rec)) && old(Corrupt(rec))) then Disabled else Success
      ensures disabled <==> r.Disabled? || old(RemovalOf(ArrivalOf(rec))).Disables?
      ensures !old(disabled) ==> window.base == old(window.base) + Dropped(old(RemovalOf(ArrivalOf(rec))))
      ensures !old(disabled) ==> Sum() == old(SumWith(rec))
      ensures Last() ==
                if !old(disabled)
                  && (old(ArrivalOf(rec)).Unneeded? || old(ArrivalOf(rec)).Joins?) then old(LastWith(rec))
                else old(Last())
      ensures (NextExpected() == old(NextExpected()) && hasRecovered == old(hasRecovered)) || hasRecovered
      ensures !old(ArrivalOf(rec)).Single? ==>
                NextExpected() == old(NextExpected()) && hasRecovered == old(hasRecovered)
                  && recovered == old(recovered)
      ensures stale == old(stale)
      ensures latestColumn ==
                if old(disabled) || OutOfOrder(rec.meta, old(latestColumn)) then old(latestColumn)
                else (rec.meta.columnStart + rec.meta.sumCount) % COLUMN_PERIOD
      ensures started ==
                if old(disabled) || old(started) > rec.end - rec.meta.ldpcCount then old(started)
                else rec.end - rec.meta.ldpcCount
      ensures !old(disabled) && old(ArrivalOf(rec)).Single? ==>
                && rec.end <= |Received()| && (!disabled ==> Received()[rec.end - 1] != [])
                && list == LeftAfter(old(list), window.nextExpected)
      ensures !old(disabled) && old(ArrivalOf(rec)).Joins? ==>
                rec.end <= |Received()| && SamePackets(old(ListWith(rec)), list)
      ensures !old(Takes(rec)) ==> Received() == old(Received()) && SamePackets(old(list), list)
    {
      hide Sound, Checked, Agrees, IsField, Wrap, MetadataOk, Made, JoinPlan, JoinSum, JoinedList, SamePackets;
      hide LeftAfter, Plan, SumLeft, SubtractColumns, Unreadable, OutOfOrder;
      if disabled {
        SameAsBefore(list);
        return Disabled;
      }
      var outOfOrder := OutOfOrder(rec.meta, latestColumn);
      NoteColumn(rec, outOfOrder, hist);
      SameAsBefore(list);
      var elementEnd := rec.meta.sumCount;
      PlaceOf(rec);
      if window.count == 0 {
        if outOfOrder {
          return Success;
        }
        StartWindow(rec.meta.columnStart, rec, hist);
      } else {
        elementEnd := SubtractColumns(rec.meta.columnStart + rec.meta.sumCount, window.columnStart);
        if IsColumnDeltaNegative(elementEnd) || elementEnd < rec.meta.ldpcCount {
          return Success;
        }
        if elementEnd <= window.nextExpected {
          if !outOfOrder && elementEnd - rec.meta.ldpcCount >= REMOVE_THRESHOLD {
            FollowUnneeded(rec, hist);
          }
          return Success;
        }
        if rec.meta.sumCount > CAUCHY_THRESHOLD && (sumColumnCount == 0 || sumColumnStart != rec.meta.columnStart) {
          if SubtractColumns(rec.meta.columnStart, window.columnStart) >= window.count {
            return Success;
          }
        }
      }
      var ok := TakeRecovery(rec, elementEnd, outOfOrder, hist);
      return if ok then Success else Disabled;
    }

    /** A packet that joined a list is in it. */
    lemma JoinedIsThere(rec: RecoveryPacket<T>, list0: seq<Entry<T>>, id: nat, base: nat)
      requires base + rec.meta.ldpcCount <= rec.end && SamePackets(JoinedList(list0, id, base, rec), list)
      ensures exists i :: 0 <= i < |list| && list[i].rec == rec
    {
      var e := Entry(id, rec, rec.end - base - rec.meta.ldpcCount, rec.end - base, 0);
      var k := Place(list0, e);
      assert list[k].rec == JoinedList(list0, id, base, rec)[k].rec;
    }

    /** Which packets are taken in, by their true numbers: a packet that reaches past what has been received,
        whose light part is in the window, and which is a parity or Cauchy packet or whose sum starts at
        a packet of the window or where the running sum starts.  As long as nothing at all has arrived, it
        must also not end before the latest column. */
    lemma TakesIff(rec: RecoveryPacket<T>)
      requires Sound() && MetadataOk(rec.meta, rec.end) && rec.end - rec.meta.ldpcCount <= NextExpected()
      requires -(COLUMN_PERIOD / 2) <= rec.end - window.base < COLUMN_PERIOD / 2
      ensures Takes(rec) <==>
                && window.base <= rec.end - rec.meta.ldpcCount && NextExpected() < rec.end
                && (window.count == 0 ==> latestColumn <= rec.end)
                && (|| window.count == 0 || rec.meta.sumCount <= 64
                    || window.base <= rec.end - rec.meta.sumCount < window.base + window.count
                    || (sumColumnCount > 0 && sumColumnStart == rec.meta.columnStart))
    {
      hide ListOk, IsField, AllOk, Uniform, BitSets.Bits, Packets, StartedBy, LastOk, Wrap;
      SubtractWrapped(rec.end - rec.meta.sumCount, window.base);
      if window.count == 0 {
        WrapSmall(0);
      }
    }

    /** Which packets only tell what the encoder may still refer to. */
    lemma TellsIff(rec: RecoveryPacket<T>)
      requires MetadataOk(rec.meta, rec.end)
      ensures Tells(rec) <==>
                && rec.end <= NextExpected() && window.base + 128 <= rec.end - rec.meta.ldpcCount
                && latestColumn <= rec.meta.columnStart + rec.meta.sumCount < latestColumn + COLUMN_PERIOD / 2
    {
      hide Wrap;
    }

    /** What the arrival of a packet is, given that. */
    lemma ArrivalIff(rec: RecoveryPacket<T>)
      requires Sound() && MetadataOk(rec.meta, rec.end)
      ensures var a, start := ArrivalOf(rec), rec.end - rec.meta.ldpcCount - window.base;
              && (a.Single? <==> Takes(rec) && rec.meta.sumCount == 1)
              && (a.Joins? <==> Takes(rec) && rec.meta.sumCount > 1)
              && (a.Unneeded? <==> Tells(rec)) && (a.Unneeded? || a.Ignored? <==> !Takes(rec))
              && (a.Unneeded? ==>
                    a.removal
                      == Plan(list, rec.meta, Sum(), window.nextExpected, window.columnStart, window.count))
              && (a.Joins? ==>
                    && start >= 0 && ListWith(rec) == JoinedList(list, nextId, window.base, rec)
                    && a.removal ==
                         if start < 128 then Stays
                         else Plan(ListWith(rec), if OutOfOrder(rec.meta, latestColumn) then lastMeta else rec.meta,
                                   Sum(), window.nextExpected, window.columnStart,
                                   if rec.end > window.base + window.count then rec.end - window.base
                                   else window.count))
    {
      hide Plan, OutOfOrder, ListOk, IsField, AllOk, Uniform, BitSets.Bits, Packets, StartedBy, LastOk, Wrap;
      hide JoinedList;
    }

    /** A sum row that nothing but lost packets follows: everything before its first packet has been
        received and no sum is running, so its start is not in the window yet, and it is ignored. */
    lemma FreshSumIsIgnored(rec: RecoveryPacket<T>)
      requires Sound() && MetadataOk(rec.meta, rec.end) && 64 < rec.meta.sumCount
      requires window.count > 0 && rec.end - window.base < COLUMN_PERIOD / 2
      requires NextExpected() == window.base + window.count == rec.end - rec.meta.sumCount
               == rec.end - rec.meta.ldpcCount
      requires sumColumnCount == 0 || sumColumnStart != rec.meta.columnStart
      ensures ArrivalOf(rec) == Ignored
    {
      hide Plan, OutOfOrder, ListOk, IsField, AllOk, Uniform, BitSets.Bits, Packets, StartedBy, LastOk, Wrap;
      TakesIff(rec);
    }

    /** A packet that is taken in with success and disables the decoder: a sum over 100..310 is running and
        its start has left the window; the row over 100..300 is admitted because it starts there too,
        and the removal that it triggers cannot go on with a longer sum. */
    lemma TakenAndDisabled(rec: RecoveryPacket<T>, row: nat)
      requires Sound() && list == [] && Sum() == Running(100, 210) && window.base == 128 && window.count == 182
      requires 132 <= window.nextExpected < 172 && rec.meta == Metadata(row, 100, 200, 40) && rec.end == 300
      ensures ArrivalOf(rec) == Joins(Disables) && !Corrupt(rec)
    {
      hide IsField, AllOk, Uniform, BitSets.Bits, Packets, LastOk, StartedBy, ListOk;
      var e := Entry(nextId, rec, 132, 172, 0);
      assert ListWith(rec) == [e];
      assert Kept([e], 0, window.columnStart, 182) == Keeping(true, 132, false, 0, 0);
      assert Kept([e], 1, window.columnStart, 182) == Keeping(true, 132, true, 100, 200);
      assert SubtractColumns(100, window.columnStart) == COLUMN_PERIOD - 28;
    }

    /** Updates the latest received column. */
    method NoteColumn(rec: RecoveryPacket<T>, outOfOrder: bool, ghost hist: seq<seq<T>>)
      requires Valid() && Agrees(hist) && MetadataOk(rec.meta, rec.end)
      modifies this`latestColumn, this`started
      ensures Valid() && Agrees(hist)
      ensures latestColumn ==
                if outOfOrder then old(latestColumn)
                else (rec.meta.columnStart + rec.meta.sumCount) % COLUMN_PERIOD
      ensures started ==
                if old(started) > rec.end - rec.meta.ldpcCount then old(started)
                else rec.end - rec.meta.ldpcCount
    {
      hide ListOk, RegionOk, Continues, IsField, Agreement, Wrap, AllOk, Uniform, BitSets.Bits, Packets;
      hide RecoveryMatrix.Valid;
      if !outOfOrder {
        latestColumn := (rec.meta.columnStart + rec.meta.sumCount) % COLUMN_PERIOD;
      }
      if started < rec.end - rec.meta.ldpcCount {
        started := rec.end - rec.meta.ldpcCount;
      }
    }

    /** The end of a packet in the window, computed from column numbers. */
    lemma PlaceOf(rec: RecoveryPacket<T>)
      requires Sound() && MetadataOk(rec.meta, rec.end) && rec.end - rec.meta.ldpcCount <= NextExpected()
      requires -(COLUMN_PERIOD / 2) <= rec.end - window.base < COLUMN_PERIOD / 2
      ensures var elementEnd := SubtractColumns(rec.meta.columnStart + rec.meta.sumCount, window.columnStart);
              if rec.end < window.base then IsColumnDeltaNegative(elementEnd)
              else elementEnd == rec.end - window.base && !IsColumnDeltaNegative(elementEnd)
      ensures window.count == 0 ==>
                window.base == window.nextExpected == 0 && rec.meta.columnStart == 0
                  && rec.meta.sumCount == rec.meta.ldpcCount == rec.end
      ensures 1 <= rec.meta.ldpcCount <= rec.meta.sumCount
    {
      hide ListOk, Wrap, IsField;
      AddWrapped(rec.end - rec.meta.sumCount, rec.meta.sumCount);
      SubtractOfSum(rec.meta.columnStart + rec.meta.sumCount, window.base, rec.end);
      SubtractWrapped(rec.end, window.base);
      WrapSmall(0);
    }

    /** The first packet of all is a recovery packet: it tells the first column. */
    method StartWindow(column: nat, ghost rec: RecoveryPacket<T>, ghost hist: seq<seq<T>>)
      requires Valid() && Agrees(hist) && window.count == 0 && column == 0 && window.base == 0
      modifies window`columnStart
      ensures Valid() && Agrees(hist) && window.columnStart == old(window.columnStart)
    {
      hide ListOk, RegionOk, Continues, IsField, Wrap;
      WrapSmall(0);
      window.columnStart := column;
    }

    /** The packet holds nothing new, but it tells what the encoder may still refer to. */
    method FollowUnneeded(rec: RecoveryPacket<T>, ghost hist: seq<seq<T>>)
      requires Valid() && !disabled && Agrees(hist) && window.count > 0
      requires MetadataOk(rec.meta, rec.end) && window.base <= rec.end <= NextExpected()
               && rec.end - rec.meta.ldpcCount <= started
      modifies this, window, matrix
      ensures Valid() && started == old(started) && latestColumn == old(latestColumn) && Agrees(hist)
              && matrix.data == old(matrix.data)
      ensures hasRecovered == old(hasRecovered) && recovered == old(recovered) && stale == old(stale)
      ensures Last() == (rec.meta, rec.end)
      ensures Received() == old(Received()) && NextExpected() == old(NextExpected()) && SamePackets(old(list), list)
      ensures var plan := old(Plan(list, rec.meta, Sum(), window.nextExpected, window.columnStart, window.count));
              disabled == plan.Disables? && window.base == old(window.base) + Dropped(plan)
      ensures Sum() == old(SumLeft(list, rec.meta, Sum(), window.nextExpected, window.columnStart, window.count))
    {
      hide ListOk, RegionOk, Continues, IsField, Wrap, Matches, RecoveryMatrix.Valid, AllOk, Uniform, BitSets.Bits;
      hide Packets, StartedBy, Agreement;
      lastMeta, lastEnd := rec.meta, rec.end;
      CurrentNeverOverruns();
      var ok := RemoveElements();
      AgreeSame(code, Received(), old(list), list, recovered, hist);
    }

    /** Metadata that ends between the start of the window and the next expected element is safe to go by. */
    lemma CurrentNeverOverruns()
      requires Sound() && window.base <= lastEnd <= NextExpected() && lastMeta.ldpcCount > 0
      ensures !ThePlan().Overruns?
    {
      hide IsField, AllOk, Uniform, BitSets.Bits, Packets, CanKeep, Kept;
      if list == [] {
        LastElement();
      } else {
        ListNeverOverruns(list, lastMeta, Sum(), window.base, window.nextExpected, window.count, nextId,
            window.columnStart);
      }
    }

    /** Adds a usable packet: the only packet it covers, or another row of the linear system. */
    method TakeRecovery(rec: RecoveryPacket<T>, elementEnd: nat, outOfOrder: bool, ghost hist: seq<seq<T>>)
      returns (ok: bool)
      requires Valid() && !disabled && Agrees(hist) && Made(code, hist, rec) && MetadataOk(rec.meta, rec.end)
      requires window.base + elementEnd == rec.end && elementEnd <= COLUMN_PERIOD / 2
               && rec.end - rec.meta.ldpcCount <= started
      requires rec.meta.ldpcCount <= elementEnd && elementEnd - rec.meta.ldpcCount <= window.nextExpected < elementEnd
      modifies this, window, matrix
      ensures Valid() && Agrees(hist) && matrix.data == old(matrix.data)
      ensures started == old(started) && latestColumn == old(latestColumn) && stale == old(stale)
      ensures ok <==> !old(Corrupt(rec))
      ensures rec.meta.sumCount == 1 ==>
                && disabled == !ok && window.base == old(window.base) && Sum() == old(Sum())
                && Last() == old(Last()) && list == LeftAfter(old(list), window.nextExpected)
      ensures rec.meta.sumCount != 1 ==>
                && SamePackets(old(ListWith(rec)), list)
                && Last() == (if outOfOrder then old(Last()) else (rec.meta, rec.end))
                && disabled == old(PlanWith(rec, outOfOrder)).Disables?
                && window.base == old(window.base) + Dropped(old(PlanWith(rec, outOfOrder)))
      ensures rec.meta.sumCount != 1 ==> Sum() == old(SumJoined(rec, outOfOrder))
      ensures rec.meta.sumCount != 1 ==>
                NextExpected() == old(NextExpected()) && hasRecovered == old(hasRecovered)
                  && recovered == old(recovered)
      ensures (NextExpected() == old(NextExpected()) && hasRecovered == old(hasRecovered)) || hasRecovered
      ensures Keeps(old(Received()), Received()) && NextExpected() >= old(NextExpected()) && rec.end <= |Received()|
      ensures rec.meta.sumCount == 1 && ok ==> Received()[rec.end - 1] != []
    {
      hide ListOk, RegionOk, Continues, IsField, Wrap, IsRecoveryOf, RecoveryMatrix.Valid, LastOk, StartedBy;
      hide Agreement, MetadataOk, AllOk, Uniform, BitSets.Bits, Packets, Checked, Unreadable, JoinPlan, JoinSum;
      hide JoinedList, SamePackets, LeftAfter, Keeps, Corrupt, ListWith, PlanWith, SumJoined;
      GrowFor(rec, elementEnd, hist);
      ghost var grown := Received();
      if rec.meta.sumCount == 1 {
        ok := AddSingleRecovery(rec, elementEnd - 1, hist);
        KeepsAgain(old(Received()), grown, Received());
      } else {
        InsertRecovery(rec, elementEnd, outOfOrder, hist);
        ok := true;
      }
    }

    /** Makes the window reach to the end of a packet. */
    method GrowFor(rec: RecoveryPacket<T>, elementEnd: nat, ghost hist: seq<seq<T>>)
      requires Valid() && !disabled && Agrees(hist) && window.base + elementEnd == rec.end <= |hist|
      requires elementEnd <= COLUMN_PERIOD / 2
      modifies window`subwindows, window`count
      ensures Valid() && Agrees(hist) && window.count ==
                if elementEnd > old(window.count) then elementEnd
                else old(window.count)
      ensures Keeps(old(Received()), Received()) && rec.end <= |Received()| && Corrupt(rec) == old(Corrupt(rec))
      ensures rec.meta.sumCount != 1 ==> !Corrupt(rec)
      ensures rec.meta.ldpcCount <= elementEnd ==> ListWith(rec) == old(ListWith(rec))
      ensures rec.meta.ldpcCount <= elementEnd ==>
                forall late ::
                    PlanWith(rec, late) == old(PlanWith(rec, late)) && SumJoined(rec, late) == old(SumJoined(rec, late))
    {
      hide ListOk, RegionOk, Continues, IsField, Wrap, RecoveryMatrix.Valid, LastOk, StartedBy, Agreement, AllOk;
      hide Uniform, BitSets.Bits, Packets, Checked, Unreadable, JoinPlan, JoinSum, JoinedList;
      GrowTo(elementEnd);
      AgreeGrown(code, old(Received()), window.count - old(window.count), list, recovered, hist);
      KeepsGrown(old(Received()), window.count - old(window.count));
    }

    /** The removal that follows when a packet joins the list. */
    ghost function PlanWith(rec: RecoveryPacket<T>, outOfOrder: bool): Removal
      requires window.base + rec.meta.ldpcCount <= rec.end
      reads this, window
    {
      JoinPlan(ListWith(rec), rec.end - rec.meta.ldpcCount - window.base, if outOfOrder then lastMeta else rec.meta,
               Sum(), window.nextExpected, window.columnStart, CountWith(rec))
    }

    ghost function SumJoined(rec: RecoveryPacket<T>, outOfOrder: bool): Running
      requires window.base + rec.meta.ldpcCount <= rec.end
      reads this, window
    {
      JoinSum(ListWith(rec), rec.end - rec.meta.ldpcCount - window.base, if outOfOrder then lastMeta else rec.meta,
              Sum(), window.nextExpected, window.columnStart, CountWith(rec))
    }

    method InsertRecovery(rec: RecoveryPacket<T>, elementEnd: nat, outOfOrder: bool, ghost hist: seq<seq<T>>)
      requires Valid() && !disabled && Agrees(hist) && Made(code, hist, rec) && MetadataOk(rec.meta, rec.end)
      requires window.base + elementEnd == rec.end && elementEnd <= window.count
               && rec.end - rec.meta.ldpcCount <= started
      requires rec.meta.ldpcCount <= elementEnd && elementEnd - rec.meta.ldpcCount <= window.nextExpected < elementEnd
      modifies this`removed, this`sumColumnStart, this`sumColumnCount, this`list, this`nextId, this`region,
        this`lastMeta, this`lastEnd
      modifies this`disabled, this`stale, window, matrix
      ensures Valid() && Agrees(hist) && matrix.data == old(matrix.data) && stale == old(stale)
      ensures Received() == old(Received()) && NextExpected() == old(NextExpected())
      ensures SamePackets(old(ListWith(rec)), list)
      ensures Last() == if outOfOrder then old(Last()) else (rec.meta, rec.end)
      ensures var plan := old(PlanWith(rec, outOfOrder));
              disabled == plan.Disables? && window.base == old(window.base) + Dropped(plan)
      ensures Sum() == old(SumJoined(rec, outOfOrder))
    {
      hide ListOk, RegionOk, Continues, IsField, Wrap, Made, MetadataOk, Agreement, Checked, LastOk;
      hide RecoveryMatrix.Valid, AllOk, Uniform, BitSets.Bits, Packets, StartedBy, Plan, SumLeft, Place, SamePackets;
      var elementStart := elementEnd - rec.meta.ldpcCount;
      ghost var e := Entry(nextId, rec, elementStart, elementEnd, 0);
      Insert(rec, elementStart, elementEnd, outOfOrder);
      AgreeInserted(code, Received(), old(list), Place(old(list), e), e, recovered, hist);
      ghost var inserted := list;
      SameAsBefore(list);
      if elementStart >= REMOVE_THRESHOLD {
        ListSafe();
        var ok := RemoveElements();
        AgreeSame(code, Received(), inserted, list, recovered, hist);
      }
    }

    lemma ListSafe()
      requires Sound() && list != []
      ensures !ThePlan().Overruns?
    {
      hide Plan, ListOk;
      ListNeverOverruns(list, lastMeta, Sum(), window.base, window.nextExpected, window.count, nextId,
          window.columnStart);
    }

    /** A packet that covers one column is that column's packet, with its length in front. */
    method AddSingleRecovery(rec: RecoveryPacket<T>, element: nat, ghost hist: seq<seq<T>>) returns (ok: bool)
      requires Valid() && !disabled && Agrees(hist) && Made(code, hist, rec) && rec.meta.sumCount == 1
      requires window.base + element + 1 == rec.end && element < window.count
      modifies this`list, this`region, this`disabled, this`hasRecovered, this`recovered, window, matrix
      ensures Valid() && Agrees(hist) && matrix.data == old(matrix.data)
      ensures ok <==> !old(Corrupt(rec))
      ensures disabled == !ok && window.base == old(window.base) && list == LeftAfter(old(list), window.nextExpected)
      ensures recovered ==
                if disabled || !old(Lacks(rec.end - 1)) then old(recovered)
                else (if old(hasRecovered) then old(recovered) else []) + [Original(rec.end - 1, rec.payload)]
      ensures (NextExpected() == old(NextExpected()) && hasRecovered == old(hasRecovered)) || hasRecovered
      ensures Keeps(old(Received()), Received()) && NextExpected() >= old(NextExpected())
              && |Received()| == |old(Received())|
      ensures !disabled ==> Received()[rec.end - 1] != []
    {
      hide ListOk, RegionOk, Continues, IsField, Wrap, BitSets.Bits, Packets, AllOk, Agreement, IsRecoveryOf, Matches;
      hide RecoveryMatrix.Valid, LeftAfter, StartedBy, Uniform, Checked, LastOk;
      NothingToTrim();
      window.GotIsContents();
      var original := window.Load(element);
      assert Received()[rec.end - 1] == original;
      if original != [] {
        return true;
      }
      if Unreadable(rec.payload) {
        Disable();
        return false;
      }
      SingleIsPacket(rec, hist);
      AcceptPacket(element, rec.payload);
      assert Received() == Placed(old(Received()), rec.end - 1, rec.payload);
      AgreePlaced(code, old(Received()), old(list), list, recovered, hist, rec.end - 1);
      KeepsPlaced(old(Received()), rec.end - 1, rec.payload);
      Report(Original(rec.end - 1, rec.payload), hist);
      return true;
    }

    lemma SingleIsPacket(rec: RecoveryPacket<T>, hist: seq<seq<T>>)
      requires Made(code, hist, rec) && rec.meta.sumCount == 1
      ensures 0 < rec.end <= |hist| && rec.payload == hist[rec.end - 1]
    {
      hide Combination;
    }

    /** Keeps a recovered packet for the next call of Decode. */
    method Report(o: Original<T>, ghost hist: seq<seq<T>>)
      requires Valid() && Agrees(hist) && IsSent(hist, o)
      modifies this`hasRecovered, this`recovered
      ensures Valid() && Agrees(hist) && hasRecovered
      ensures recovered == (if old(hasRecovered) then old(recovered) else []) + [o]
    {
      hide ListOk, RegionOk, Continues, IsField, Agreement, RecoveryMatrix.Valid;
      AgreeRecovered(code, Received(), list, recovered, hist, o);
      if hasRecovered {
        recovered := recovered + [o];
      } else {
        hasRecovered, recovered := true, [o];
      }
    }

    // ----- checking whether the recovery packets suffice

    method Locate(id: nat) returns (i: nat)
      requires exists k :: 0 <= k < |list| && list[k].id == id
      ensures i < |list| && list[i].id == id
    {
      i := 0;
      while list[i].id != id
        invariant i < |list| && exists k :: i <= k < |list| && list[k].id == id
        decreases |list| - i
      {
        i := i + 1;
      }
    }

    /** Starts a region with the packet at the head of the list. */
    method StartRegion()
      requires Valid() && !disabled && region.lastRecovery.None? && list != []
      modifies this`list, this`region
      ensures Valid() && region.lastRecovery.Some? && region.recoveryCount == 1 && !region.solveFailed
              && Recounted(old(list), list)
    {
      hide EntryOk, Sorted, Distinct, IsField, Wrap, Continues, AllOk, Packets, MissingIn, RegionOk;
      hide RecoveryMatrix.Valid;
      HeadInWindow();
      var head := list[0];
      var lostCount := window.RangeLostPackets(head.elementStart, head.elementEnd);
      EmptyMatrix();
      RecountOk(list, 0, lostCount, window.base, window.nextExpected, window.count, nextId);
      list := list[0 := head.(lostCount := lostCount)];
      region := Region(head.elementStart, Some(head.id), Some(head.id), head.elementEnd, 1, lostCount, false);
      Started();
    }

    lemma Started()
      requires window.Sound() && matrix.Valid() && matrix.F == code.F && list != []
      requires matrix.rows == 0 && matrix.columns == 0 && matrix.A == [] && matrix.columnCount == []
      requires CountOk(list[0], list[0].elementStart, window.Got())
      requires var head := list[0];
               region == Region(head.elementStart, Some(head.id), Some(head.id), head.elementEnd, 1, head.lostCount,
                   false)
      ensures Checked()
    {
      hide Continues, MissingIn;
      ContinuesFresh(code, matrix, RegionRecs(list, 1), RegionLost(region, window.Got(), window.base),
          RegionCounts(list, 1));
    }

    lemma HeadInWindow()
      requires Sound() && list != []
      ensures list[0].elementStart <= window.nextExpected < list[0].elementEnd <= window.count
    {
    }

    lemma EmptyMatrix()
      requires Valid() && !disabled && region.lastRecovery.None?
      ensures matrix.rows == 0 && matrix.columns == 0 && matrix.A == [] && matrix.columnCount == []
    {
    }

    /** Takes the next packet of the list into the region. */
    method ExtendRegion()
      requires Valid() && !disabled && region.lastRecovery.Some? && region.recoveryCount < |list|
      modifies this`list, this`region
      ensures Valid() && region.lastRecovery.Some? && region.recoveryCount == old(region.recoveryCount) + 1
      ensures region.solveFailed == old(region.solveFailed) && Recounted(old(list), list)
      ensures forall i :: 0 <= i < old(region.recoveryCount) <= |list| ==> list[i] == old(list)[i]
    {
      hide EntryOk, Sorted, Distinct, IsField, Wrap, Continues, AllOk, Packets, MissingIn, RegionOk;
      hide RecoveryMatrix.Valid;
      ghost var got, base := window.Got(), window.base;
      RegionShape(region, list, got);
      var k := region.recoveryCount;
      NextInRegion(k);
      var e := list[k];
      var more := window.RangeLostPackets(region.nextCheckStart, e.elementEnd);
      var lostCount := region.lostCount + more;
      RecountOk(list, k, lostCount, base, window.nextExpected, window.count, nextId);
      list := list[k := e.(lostCount := lostCount)];
      region := region.(lastRecovery := Some(e.id), nextCheckStart := e.elementEnd, recoveryCount := k + 1,
          lostCount := lostCount);
      Extended(old(region), old(list), k, lostCount);
    }

    lemma NextInRegion(k: nat)
      requires Sound() && RegionOk(region, list, window.Got()) && region.lastRecovery.Some?
               && k == region.recoveryCount < |list|
      ensures region.nextCheckStart <= list[k].elementEnd <= window.count
      ensures region.lostCount + |MissingIn(window.Got(), region.nextCheckStart, list[k].elementEnd)|
              == |MissingIn(window.Got(), region.elementStart, list[k].elementEnd)|
    {
      assert EntryOk(list[k], window.base, window.nextExpected, window.count);
      RegionStep(list, window.Got(), region.elementStart, k, region.lostCount);
    }

    /** One more packet in the region: exact counts, and a larger system that continues the old one. */
    lemma Extended(region0: Region, list0: seq<Entry<T>>, k: nat, lostCount: nat)
      requires Sound() && region0.lastRecovery.Some? && k == region0.recoveryCount < |list0| && Sorted(list0)
      requires CheckedIn(region0, list0, window.Got(), window.base)
      requires list == list0[k := list0[k].(lostCount := lostCount)] && list0[k].elementEnd <= window.count
      requires lostCount == |MissingIn(window.Got(), region0.elementStart, list0[k].elementEnd)|
      requires region
               == region0.(lastRecovery := Some(list0[k].id), nextCheckStart := list0[k].elementEnd,
                   recoveryCount := k + 1, lostCount := lostCount)
      ensures Checked()
    {
      hide Continues, MissingIn, Distinct, IsField;
      var got, base := window.Got(), window.base;
      RegionEnds(region0, list0, got);
      assert EntryOk(list[0], base, window.nextExpected, window.count);
      assert Before(list0[k - 1], list0[k]);
      forall i | 0 <= i < k + 1 ensures CountOk(list[i], region.elementStart, got) {
        if i < k {
          assert CountOk(list0[i], region.elementStart, got);
        }
      }
      assert RegionOk(region, list, got);
      forall i | 0 <= i < k ensures list[i].rec.end == base + list[i].elementEnd {
        assert EntryOk(list[i], base, window.nextExpected, window.count);
      }
      LargerSystem(region0, list0, k);
    }

    lemma LargerSystem(region0: Region, list0: seq<Entry<T>>, k: nat)
      requires window.Sound() && RegionOk(region0, list0, window.Got()) && region0.lastRecovery.Some?
               && k == region0.recoveryCount <= |list0| && Sorted(list0)
      requires Continues(code, matrix, RegionRecs(list0, k), RegionLost(region0, window.Got(), window.base),
                 RegionCounts(list0, k))
      requires region.elementStart
               == region0.elementStart <= region0.nextCheckStart <= region.nextCheckStart <= window.count
      requires k <= region.recoveryCount <= |list| && (forall i :: 0 <= i < k ==> list[i] == list0[i])
      requires forall i :: 0 <= i < k ==> list[i].rec.end == window.base + list[i].elementEnd
      ensures Continues(code, matrix, RegionRecs(list, region.recoveryCount),
                RegionLost(region, window.Got(), window.base), RegionCounts(list, region.recoveryCount))
    {
      hide Continues, RegionLost, RegionOk, Sorted, Sound;
      var got, base := window.Got(), window.base;
      RegionEnds(region0, list0, got);
      var lost0, lost := RegionLost(region0, got, base), RegionLost(region, got, base);
      LostLarger(region0, region, got, base);
      RowsLarger(list0, k, list, region.recoveryCount);
      var recs0, recs := RegionRecs(list0, k), RegionRecs(list, region.recoveryCount);
      forall i, j | 0 <= i < |recs0| && |lost0| <= j < |lost| ensures recs0[i].end <= lost[j] {
        assert recs0[i] == list0[i].rec && list0[i].elementEnd <= region0.nextCheckStart;
      }
      ContinuesLarger(code, matrix, recs0, lost0, RegionCounts(list0, k), recs, lost,
          RegionCounts(list, region.recoveryCount));
    }

    /** Advances the checked region to the first one with as many packets as losses: no smaller one,
        among those it has not looked at before, would have been enough. */
    method CheckRecoveryPossible() returns (possible: bool)
      requires Valid() && !disabled
      modifies this`list, this`region
      ensures Valid() && Recounted(old(list), list)
      ensures Furthers(old(region), region, list)
      ensures possible <==> Enough(region) && region.lostCount <= MAX_LOSSES
    {
      hide Sound, Checked;
      RecountedSame(list);
      if region.lastRecovery.None? {
        NothingChecked();
        if list == [] {
          return false;
        }
        StartRegion();
      } else {
        CheckedShape();
        if region.recoveryCount >= region.lostCount && !region.solveFailed {
          return region.lostCount <= MAX_LOSSES;
        }
      }
      CheckedShape();
      var k := Locate(region.lastRecovery.value);
      UniqueId(k, region.recoveryCount - 1);
      while (region.recoveryCount < region.lostCount || region.solveFailed) && k + 1 < |list|
        invariant Valid() && region.lastRecovery.Some? && k + 1 == region.recoveryCount <= |list|
                  && Recounted(old(list), list)
        invariant old(region.recoveryCount) <= region.recoveryCount && !Enough(old(region))
        invariant region.solveFailed ==> region.recoveryCount == old(region.recoveryCount) && old(region.solveFailed)
        invariant region.lostCount == list[region.recoveryCount - 1].lostCount
        invariant forall i :: old(region.recoveryCount) <= i < k ==> i + 1 < list[i].lostCount
        decreases |list| - k
      {
        ghost var before := list;
        ExtendRegion();
        RecountedAgain(old(list), before, list);
        ClearFailed();
        k := k + 1;
        CheckedShape();
      }
      return region.lostCount <= MAX_LOSSES && region.recoveryCount >= region.lostCount && !region.solveFailed;
    }

    method ClearFailed()
      requires Valid() && !disabled && region.lastRecovery.Some?
      modifies this`region
      ensures Valid() && region == old(region).(solveFailed := false)
    {
      hide ListOk, IsField, Continues, MissingIn, CountOk, Wrap, AllOk, Uniform, BitSets.Bits, Packets, StartedBy;
      hide RecoveryMatrix.Valid;
      region := region.(solveFailed := false);
    }

    lemma CheckedShape()
      requires Valid() && !disabled && region.lastRecovery.Some?
      ensures 0 < region.recoveryCount <= |list| && region.lastRecovery == Some(list[region.recoveryCount - 1].id)
      ensures region.lostCount == list[region.recoveryCount - 1].lostCount
    {
      assert CountOk(list[region.recoveryCount - 1], region.elementStart, window.Got());
    }

    lemma NothingChecked()
      requires Valid() && !disabled && region.lastRecovery.None?
      ensures region == EMPTY_REGION
    {
    }

    lemma UniqueId(i: nat, j: nat)
      requires Sound() && i < |list| && j < |list| && list[i].id == list[j].id
      ensures i == j
    {
    }

    /** Whether Decode has something to report. */
    method IsReadyToDecode() returns (ready: bool)
      requires Valid()
      modifies this`list, this`region
      ensures Valid() && Recounted(old(list), list) && (!ready ==> !hasRecovered)
      ensures !disabled && !hasRecovered ==>
                && Furthers(old(region), region, list)
                && (ready <==> Enough(region) && region.lostCount <= MAX_LOSSES)
      ensures disabled ==> ready == hasRecovered
    {
      hide Sound, Checked, Recounted;
      RecountedSame(list);
      ready := hasRecovered;
      if !ready && !disabled {
        ready := CheckRecoveryPossible();
      }
    }

    /** The next expected packet is the first one that is missing. */
    lemma NextIsFirst(m: nat)
      requires Sound()
      ensures NextExpected() <= |Received()| && Lacks(NextExpected())
      ensures forall i :: 0 <= i < NextExpected() ==> Received()[i] != []
      ensures m <= |Received()| && Lacks(m) && (forall i :: 0 <= i < m ==> Received()[i] != []) ==> m == NextExpected()
    {
      hide ListOk, LastOk, IsField, AllOk, Wrap, BitSets.Bits, Packets, StartedBy;
      GotIsReceived();
      forall i | 0 <= i < NextExpected() ensures Received()[i] != [] {
        if i >= window.base {
          assert window.Got()[i - window.base];
        }
      }
      if window.nextExpected < window.count {
        assert !window.Got()[window.nextExpected];
      }
    }

    /** Looks up a packet by its column. */
    method Get(packetNum: nat) returns (r: Result, packet: seq<T>)
      requires Sound()
      ensures r == if disabled then Disabled else if Holds(packetNum) then Success else NeedMore
      ensures r.Success? ==> packet == window.Contents()[SubtractColumns(packetNum, window.columnStart)]
    {
      hide ListOk, LastOk, IsField, AllOk, Uniform, Wrap, BitSets.Bits, Packets, StartedBy;
      if disabled {
        return Disabled, [];
      }
      var element := SubtractColumns(packetNum, window.columnStart);
      if element >= window.count {
        return NeedMore, [];
      }
      packet := window.Load(element);
      r := if packet == [] then NeedMore else Success;
    }

    ghost predicate Holds(packetNum: nat)
      requires window.Sound()
      reads this, window
    {
      var element := SubtractColumns(packetNum, window.columnStart);
      element < window.count && window.Contents()[element] != []
    }

    /** Within reach, a column finds the packet with that number, unless it has left the window. */
    lemma HoldsNumber(n: nat)
      requires Sound() && -(COLUMN_PERIOD / 2) <= n - window.base <= COLUMN_PERIOD / 2
      ensures Holds(Wrap(n)) <==> window.base <= n < |Received()| && Received()[n] != []
      ensures Holds(Wrap(n)) ==> Received()[n] == window.Contents()[SubtractColumns(Wrap(n), window.columnStart)]
    {
      hide ListOk, LastOk, IsField, AllOk, Uniform, Wrap, BitSets.Bits, Packets, StartedBy;
      SubtractWrapped(n, window.base);
    }

    // ----- recovering

    /** Every packet says its own length, and is not empty. */
    ghost predicate Readable(hist: seq<seq<T>>) {
      forall i :: 0 <= i < |hist| ==> hist[i] != [] && Framed(code.F, parse, hist[i])
    }

    /** The region is a linear system for the missing packets it covers. */
    lemma RegionIsSystem(hist: seq<seq<T>>, received: seq<seq<T>>, lost: seq<nat>)
      requires Valid() && !disabled && Agrees(hist) && region.lastRecovery.Some?
      requires received == Received() && lost == RegionLost(region, window.Got(), window.base)
      ensures IsRegion(code, hist[..|received|], received, lost, RegionRecs(list, region.recoveryCount),
                RegionCounts(list, region.recoveryCount))
    {
      hide MetadataOk, IsField, Continues, MissingIn, Wrap, IsRecoveryOf, AllOk, Packets, BitSets.Bits;
      var got, base, h := window.Got(), window.base, hist[..|received|];
      var recs, counts := RegionRecs(list, region.recoveryCount), RegionCounts(list, region.recoveryCount);
      RegionEnds(region, list, got);
      forall i | 0 <= i < |recs|
        ensures Usable(code, h, lost, recs[i]) && Supported(h, received, lost, recs[i])
                && IsLostCount(lost, recs[i].end, counts[i])
      {
        RowIsUsable(hist, received, lost, i);
        RowIsSupported(hist, received, lost, i);
        RowCount(lost, i);
      }
      forall i, k | 0 <= i <= k < |recs| ensures recs[i].end <= recs[k].end {
        RowOrder(i, k);
      }
    }

    lemma RowOrder(i: nat, k: nat)
      requires Sound() && i <= k < |list|
      ensures list[i].rec.end <= list[k].rec.end
    {
      assert EntryOk(list[i], window.base, window.nextExpected, window.count);
      assert EntryOk(list[k], window.base, window.nextExpected, window.count);
      assert i < k ==> Before(list[i], list[k]);
    }

    lemma RowIsUsable(hist: seq<seq<T>>, received: seq<seq<T>>, lost: seq<nat>, i: nat)
      requires Valid() && !disabled && Agrees(hist) && region.lastRecovery.Some? && i < region.recoveryCount <= |list|
      requires received == Received() && lost == RegionLost(region, window.Got(), window.base)
      ensures Usable(code, hist[..|received|], lost, list[i].rec)
    {
      hide IsField, Continues, Wrap, IsRecoveryOf, AllOk, Packets, BitSets.Bits;
      var rec, h := list[i].rec, hist[..|received|];
      assert EntryOk(list[i], window.base, window.nextExpected, window.count) && Made(code, hist, rec);
      assert h[..rec.end] == hist[..rec.end];
      forall j | 0 <= j < |lost|
        ensures rec.end - rec.meta.ldpcCount <= lost[j] < rec.end - rec.meta.sumCount + COLUMN_PERIOD
      {
        LostIsMissing(j);
      }
    }

    /** A lost packet is at or past the next expected one. */
    lemma LostIsMissing(j: nat)
      requires Sound() && RegionOk(region, list, window.Got()) && region.lastRecovery.Some?
               && j < |RegionLost(region, window.Got(), window.base)|
      ensures var n := RegionLost(region, window.Got(), window.base)[j];
              && NextExpected() <= n && window.base + region.elementStart <= n < window.base + region.nextCheckStart
              && region.nextCheckStart <= window.count
              && !window.Got()[n - window.base]
    {
      hide IsField, Continues, Wrap, AllOk, Packets, BitSets.Bits, ListOk, LastOk, RegionOk, RegionLost, MissingIn;
      RegionEnd(region, list, window.Got());
      LostMember(region, window.Got(), window.base, j);
    }

    lemma RowIsSupported(hist: seq<seq<T>>, received: seq<seq<T>>, lost: seq<nat>, i: nat)
      requires Valid() && !disabled && Agrees(hist) && region.lastRecovery.Some? && i < region.recoveryCount <= |list|
      requires received == Received() && lost == RegionLost(region, window.Got(), window.base)
      ensures Supported(hist[..|received|], received, lost, list[i].rec)
    {
      hide IsField, Continues, Wrap, IsRecoveryOf, AllOk, Packets, BitSets.Bits, MissingIn;
      var rec, h := list[i].rec, hist[..|received|];
      assert EntryOk(list[i], window.base, window.nextExpected, window.count);
      RegionEnds(region, list, window.Got());
      forall c | rec.end - rec.meta.sumCount <= c < rec.end
        ensures received[..rec.end][c] == if c in lost then [] else h[..rec.end][c]
      {
        ReceivedOrLost(hist, c);
      }
    }

    /** Before the end of the region, a packet has been received or is listed as lost. */
    lemma ReceivedOrLost(hist: seq<seq<T>>, c: nat)
      requires Sound() && RegionOk(region, list, window.Got()) && Agrees(hist) && region.lastRecovery.Some?
               && c < window.base + region.nextCheckStart
      ensures c < |Received()| <= |hist|
      ensures Received()[c] == if c in RegionLost(region, window.Got(), window.base) then [] else hist[c]
    {
      hide IsField, Continues, Wrap, AllOk, Packets, BitSets.Bits, MissingIn, ListOk, LastOk;
      var lost, e := RegionLost(region, window.Got(), window.base), c - window.base;
      window.GotIsContents();
      if c in lost {
        var j :| 0 <= j < |lost| && lost[j] == c;
        LostIsMissing(j);
      } else if e >= 0 {
        if !window.Got()[e] {
          MissingIsLost(e);
          assert false;
        }
      }
    }

    lemma MissingIsLost(e: nat)
      requires Sound() && RegionOk(region, list, window.Got()) && region.lastRecovery.Some? && e < region.nextCheckStart
               && e < window.count && !window.Got()[e]
      ensures window.base + e in RegionLost(region, window.Got(), window.base)
    {
      hide IsField, Continues, Wrap, AllOk, Packets, BitSets.Bits, MissingIn;
      var got := window.Got();
      RegionCoversNext(region, list, got, window.base, window.nextExpected, nextId);
      RegionEnd(region, list, got);
      MissingHas(got, region.elementStart, region.nextCheckStart, e);
      var m := MissingIn(got, region.elementStart, region.nextCheckStart);
      var j :| 0 <= j < |m| && m[j] == e;
      assert RegionLost(region, got, window.base)[j] == window.base + e;
    }

    lemma RowCount(lost: seq<nat>, i: nat)
      requires Valid() && !disabled && region.lastRecovery.Some? && i < region.recoveryCount <= |list|
      requires lost == RegionLost(region, window.Got(), window.base)
      ensures IsLostCount(lost, list[i].rec.end, list[i].lostCount)
    {
      hide IsField, Continues, Wrap, AllOk, Packets, BitSets.Bits;
      var got, base, e := window.Got(), window.base, list[i];
      assert EntryOk(e, base, window.nextExpected, window.count) && CountOk(e, region.elementStart, got);
      assert EntryOk(list[0], base, window.nextExpected, window.count);
      RegionEnds(region, list, got);
      assert i > 0 ==> Before(list[0], e);
      hide MissingIn;
      MissingSplit(got, region.elementStart, e.elementEnd, region.nextCheckStart);
    }

    /** Compiled views of the region. */
    method RegionRows() returns (recs: seq<RecoveryPacket<T>>, counts: seq<nat>)
      requires region.recoveryCount <= |list|
      ensures recs == RegionRecs(list, region.recoveryCount) && counts == RegionCounts(list, region.recoveryCount)
    {
      recs := seq(region.recoveryCount, i requires 0 <= i < region.recoveryCount <= |list| reads this => list[i].rec);
      counts := seq(region.recoveryCount,
          i requires 0 <= i < region.recoveryCount <= |list| reads this => list[i].lostCount);
    }

    method RegionColumns() returns (lost: seq<nat>, columnOf: map<nat, nat>)
      requires Valid() && !disabled && region.lastRecovery.Some?
      ensures lost == RegionLost(region, window.Got(), window.base) && IsColumnIndex(lost, columnOf)
    {
      hide IsField, Continues, Wrap, AllOk, Packets, BitSets.Bits, MissingIn, RegionOk, ListOk;
      RegionCoversNext(region, list, window.Got(), window.base, window.nextExpected, nextId);
      RegionEnd(region, list, window.Got());
      var elements := window.LostElements(region.elementStart, region.nextCheckStart);
      lost := Shifted(elements, window.base);
      columnOf := IndexColumns(lost);
    }

    /** The sums that the elimination leaves behind.  It fails exactly when a used sum row neither goes
        on with the one before nor starts in the window. */
    method FollowSums(recs: seq<RecoveryPacket<T>>, used: seq<bool>) returns (ok: bool)
      requires Sound() && |used| == |recs|
      modifies this`sumColumnStart, this`sumColumnCount
      ensures Sound()
      ensures ok <==> Follow(recs, used, |recs|, old(Sum()), window.columnStart, window.count).Some?
      ensures ok ==> Some(Sum()) == Follow(recs, used, |recs|, old(Sum()), window.columnStart, window.count)
    {
      hide ListOk, IsField, MetadataOk, AllOk, Uniform, BitSets.Bits, Packets, Wrap, StartedBy, SubtractColumns;
      ghost var sum, column, count := Sum(), window.columnStart, window.count;
      for i := 0 to |recs|
        invariant Sound() && window.columnStart == column && window.count == count
        invariant Follow(recs, used, i, sum, column, count) == Some(Sum())
      {
        var meta := recs[i].meta;
        if used[i] && IsSum(meta) {
          if !GoesOn(Running(sumColumnStart, sumColumnCount), meta) {
            if !StartsInWindow(meta, window.columnStart, window.count) {
              FollowFails(recs, used, i + 1, sum, column, count);
              return false;
            }
            sumColumnStart := meta.columnStart;
          }
          sumColumnCount := meta.sumCount;
        }
      }
      return true;
    }

    /** Stores the recovered packets. */
    method StoreRecovered(lost: seq<nat>, values: seq<seq<T>>, ghost hist: seq<seq<T>>)
      requires window.Sound() && |removed| == window.base && |values| == |lost| && Ascending(lost)
      requires forall j :: 0 <= j < |lost| ==>
                 window.base <= lost[j] < |Received()| && Received()[lost[j]] == [] && lost[j] < |hist|
                   && values[j] == hist[lost[j]] != []
      modifies window`subwindows
      ensures window.Sound() && Received() == Filled(old(Received()), lost, hist)
    {
      hide Wrap, AllOk, Packets, BitSets.Bits, SubwindowOk, Uniform;
      ghost var received := Received();
      assert Received() == Filled(received, [], hist);
      assert lost[..|lost|] == lost;
      for j := 0 to |lost|
        invariant window.Sound() && Received() == Filled(received, lost[..j], hist)
      {
        window.GotIsContents();
        FilledStep(received, lost, j, hist);
        assert Received()[lost[j]] == window.Contents()[lost[j] - window.base];
        window.Store(lost[j] - window.base, values[j]);
      }
    }

    /** Moves the next expected packet past the region and forgets the packets of the region. */
    method PassRegion(ghost hist: seq<seq<T>>, ghost next: nat) returns (ok: bool)
      requires IsField(code.F) && matrix.F == code.F && window.Sound() && 0 < window.count <= COLUMN_PERIOD / 2
      requires |removed| == window.base && (forall i :: 0 <= i < |removed| ==> removed[i] != [])
      requires next == window.nextExpected < region.nextCheckStart <= window.count
      requires Uniform(window.Got(), 0, region.nextCheckStart, true)
      requires ListOk(list, window.base, next, window.count, nextId) && LastOk() && StartedBy(list, started)
      requires (stale || window.base <= started) && Agrees(hist)
      modifies this`removed, this`sumColumnStart, this`sumColumnCount, this`list, this`region, this`disabled,
        this`stale, window, matrix
      ensures ok <==> !old(PassPlan()).Overruns?
      ensures ok ==> Valid() && Agrees(hist) && matrix.data == old(matrix.data)
      ensures ok ==> Received() == old(Received()) && NextExpected() >= old(window.base + region.nextCheckStart)
      ensures ok ==> window.base == old(window.base) + Dropped(old(PassPlan()))
      ensures ok ==> disabled == (old(disabled) || old(PassPlan()).Disables?)
      ensures ok ==> stale == (old(stale) || (old(PassPlan()).Drops? && old(TooOld())))
      ensures ok ==> IsLeft(old(PassLeft(Sum())))
    {
      hide ListOk, LastOk, StartedBy, IsField, BitSets.Bits, Packets, Wrap, AllOk, Agreement, Plan, LeftAfter;
      hide RecoveryMatrix.Valid, Continues, RegionOk, NextMissing, SamePackets, Checked, SumLeft, Uniform;
      ghost var plan, left := PassPlan(), PassLeft(Sum());
      TrimRegion(hist, next);
      SameAsBefore(list);
      ok := true;
      if region.nextCheckStart >= REMOVE_THRESHOLD {
        ghost var trimmed := list;
        assert ThePlan() == plan && TheSum() == left.sum;
        ok := RemoveElements();
        if !ok {
          return;
        }
        AgreeSame(code, Received(), trimmed, list, recovered, hist);
      }
      ResetRegion();
    }

    /** Moves the next expected element past the region, and deletes the packets that end before it. */
    method TrimRegion(ghost hist: seq<seq<T>>, ghost next: nat)
      requires IsField(code.F) && matrix.F == code.F && window.Sound() && 0 < window.count <= COLUMN_PERIOD / 2
      requires |removed| == window.base && (forall i :: 0 <= i < |removed| ==> removed[i] != [])
      requires next == window.nextExpected < region.nextCheckStart <= window.count
      requires Uniform(window.Got(), 0, region.nextCheckStart, true)
      requires ListOk(list, window.base, next, window.count, nextId) && LastOk() && StartedBy(list, started)
      requires (stale || window.base <= started) && Agrees(hist)
      modifies this`list, window`nextExpected
      ensures Sound() && Agrees(hist) && Received() == old(Received()) && window.Got() == old(window.Got())
      ensures window.nextExpected == NextMissing(window.Got(), region.nextCheckStart)
      ensures list == LeftAfter(old(list), window.nextExpected)
    {
      hide EntryOk, Sorted, Distinct, IsField, BitSets.Bits, Packets, Wrap, AllOk, Agreement, LeftAfter, MetadataOk;
      window.IterateNextExpectedElement(region.nextCheckStart);
      var d := TrimBefore(list, window.nextExpected);
      TrimOk(list, d, window.base, next, window.nextExpected, window.count, nextId);
      AgreeTail(code, Received(), list, d, recovered, hist);
      list := list[d..];
    }

    /** The removal that follows when the region has been filled. */
    ghost function PassPlan(): Removal
      requires window.count <= SUBWINDOW_SIZE * |window.subwindows| && region.nextCheckStart <= window.count
      reads this, window
    {
      PassPlanWith(Sum())
    }

    /** What is left then. */
    ghost function PassLeft(sum: Running): Left<T>
      requires window.count <= SUBWINDOW_SIZE * |window.subwindows| && region.nextCheckStart <= window.count
      reads this, window
    {
      var next := NextMissing(window.Got(), region.nextCheckStart);
      var left := LeftAfter(list, next);
      Left(left, window.base + next,
           if region.nextCheckStart < REMOVE_THRESHOLD then sum
           else SumLeft(left, lastMeta, sum, next, window.columnStart, window.count))
    }

    ghost function Held(): Holding<T>
      requires window.Sound()
      reads this, window
    {
      Holding(list, region, window.Got(), window.base, lastMeta, Sum())
    }

    lemma TriesAndLeaves(h: Holding<T>, t: Trial<T>, o: Outcome)
      requires IsTrial(h.list, h.region, h.got, t) && o == TrialOutcome(code, t, h.got, h.base, h.last, h.sum)
      requires !o.Unsolvable? ==>
                 IsBasis(code, RegionRecs(t.list, t.region.recoveryCount), t.used, RegionLost(t.region, h.got, h.base))
      ensures Tries(code, h, t, o)
      ensures t.tried ==> |t.used| == t.region.recoveryCount <= |t.list| && t.region.nextCheckStart <= |h.got|
      ensures t.tried && IsLeft(TrialLeft(t, h.got, h.base, h.last, h.sum)) ==>
                Leaves(t, h, Now()) && region == EMPTY_REGION
    {
      hide SamePackets, TrialLeft, IsBasis, TrialOutcome, RegionLost;
    }

    /** What is there now. */
    ghost function Now(): Left<T>
      reads this, window
    {
      Left(list, NextExpected(), Sum())
    }

    ghost predicate IsLeft(left: Left<T>)
      reads this, window
    {
      region == EMPTY_REGION && SamePackets(left.list, list) && NextExpected() == left.next && Sum() == left.sum
    }

    ghost function PassPlanWith(sum: Running): Removal
      requires window.count <= SUBWINDOW_SIZE * |window.subwindows| && region.nextCheckStart <= window.count
      reads this, window
    {
      var next := NextMissing(window.Got(), region.nextCheckStart);
      if region.nextCheckStart < REMOVE_THRESHOLD then Stays
      else Plan(LeftAfter(list, next), lastMeta, sum, next, window.columnStart, window.count)
    }

    /** The parts of an outcome. */
    lemma OutcomeParts(used: seq<bool>)
      requires Sound() && RegionOk(region, list, window.Got()) && |used| == region.recoveryCount <= |list|
      ensures region.nextCheckStart <= window.count && |RegionRecs(list, region.recoveryCount)| == |used|
      ensures !Solvable() ==> OutcomeHere(used) == Unsolvable
      ensures Solvable() ==>
                var f := Follow(RegionRecs(list, region.recoveryCount), used, |used|, Sum(), window.columnStart,
                    window.count);
                && OutcomeHere(used) == (if f.None? then SumLost else Solved(PassPlanWith(f.value)))
                && (f.Some? ==> LeftHere(used) == PassLeft(f.value))
    {
      hide ListOk, LastOk, IsField, AllOk, Uniform, BitSets.Bits, Packets, StartedBy, Determined, Follow, Plan;
      hide NextMissing, LeftAfter, MissingIn, CountOk, SumLeft;
    }

    /** No recovery packet is left, and the last metadata is more than half a period old. */
    ghost predicate TooOld()
      requires window.count <= SUBWINDOW_SIZE * |window.subwindows| && region.nextCheckStart <= window.count
      reads this, window
    {
      LeftAfter(list, NextMissing(window.Got(), region.nextCheckStart)) == []
        && window.base - lastEnd > COLUMN_PERIOD / 2
    }

    /** The packets of the region determine the ones it misses. */
    ghost predicate Solvable()
      requires window.Sound()
      reads this, window
    {
      Determined(code, RegionRecs(list, region.recoveryCount), RegionLost(region, window.Got(), window.base))
    }

    /** What the decoder remembers of the recovery packets that are not in its list. */
    ghost function Memory(): (Metadata, nat, Column, Running)
      reads this
    {
      (lastMeta, lastEnd, latestColumn, Sum())
    }

    /** The rows used are as many as the region misses packets, and determine those. */
    ghost predicate BasisHere(used: seq<bool>)
      requires window.Sound()
      reads this, window
    {
      IsBasis(code, RegionRecs(list, region.recoveryCount), used, RegionLost(region, window.Got(), window.base))
    }

    /** What an attempt to solve the checked region comes to, given the rows that it uses. */
    ghost function OutcomeHere(used: seq<bool>): Outcome
      requires window.Sound() && RegionOk(region, list, window.Got()) && |used| == region.recoveryCount <= |list|
      reads this, window
    {
      OutcomeOf(code, list, region, used, window.Got(), window.base, lastMeta, Sum())
    }

    ghost function LeftHere(used: seq<bool>): Left<T>
      requires window.Sound() && RegionOk(region, list, window.Got()) && |used| == region.recoveryCount <= |list|
      requires region.nextCheckStart <= window.count
      reads this, window
    {
      TrialLeft(Trial(list, region, true, used), window.Got(), window.base, lastMeta, Sum())
    }

    /** One attempt to solve the checked region: when its packets determine the missing ones and the
        sums of the rows it uses can be followed, those are recovered exactly as they were sent. */
    method SolveRegion(ghost hist: seq<seq<T>>) returns (r: Result, ghost used: seq<bool>, ghost o: Outcome)
      requires Valid() && !disabled && Agrees(hist) && Readable(hist)
      requires region.lastRecovery.Some? && region.lostCount <= region.recoveryCount
      modifies this, window, matrix, matrix.data
      ensures |used| == old(region.recoveryCount) && o == old(OutcomeHere(used)) && r == ResultOf(o)
      ensures r.NeedMore? <==> !old(Solvable())
      ensures !o.Unsolvable? ==> old(BasisHere(used))
      ensures r.Success? ==>
                IsLeft(old(LeftHere(used))) && Last() == old(Last()) && latestColumn == old(latestColumn)
      ensures started == old(started) && hasRecovered == old(hasRecovered)
      ensures !r.Overran? ==> Valid() && Agrees(hist) && (matrix.data == old(matrix.data) || fresh(matrix.data))
      ensures !r.Overran? ==> (disabled <==> o.SumLost? || o == Solved(Disables))
      ensures r.Success? ==>
                var lost := old(RegionLost(region, window.Got(), window.base));
                && Received() == Filled(old(Received()), lost, hist) && Reports(recovered, lost, hist)
                && NextExpected() >= old(window.base + region.nextCheckStart)
                && window.base == old(window.base) + Dropped(o.removal)
                && stale == (old(stale) || (o.removal.Drops? && old(TooOld())))
      ensures r.NeedMore? || r.Disabled? ==> unchanged(window) && removed == old(removed) && stale == old(stale)
      ensures r.NeedMore? ==>
                && list == old(list) && Memory() == old(Memory())
                && region == old(region).(solveFailed := true)
    {
      hide ListOk, LastOk, StartedBy, AllOk, Uniform, Wrap, BitSets.Bits, Packets, Checked, IsField, Agreement;
      hide RegionLost, Readable, RegionOk, Determined, Follow, Plan, NextMissing, LeftAfter, IsBasis, Filled, Reports;
      hide OutcomeOf, PassPlanWith, RecoveryMatrix.Valid, Continues;
      CheckedShape();
      var result, recs, lost := Attempt(hist);
      used := matrix.used;
      OutcomeParts(used);
      o := OutcomeHere(used);
      if result.None? {
        MarkFailed(hist);
        return NeedMore, used, o;
      }
      ghost var plan;
      r, plan := UseSolution(recs, matrix.used, lost, result.value, hist);
    }

    /** Follows the sums of the rows used, and if that works, puts the recovered packets in place. */
    method UseSolution(recs: seq<RecoveryPacket<T>>, used: seq<bool>, lost: seq<nat>, values: seq<seq<T>>,
        ghost hist: seq<seq<T>>)
      returns (r: Result, ghost plan: Removal)
      requires Sound() && RegionOk(region, list, window.Got()) && region.lastRecovery.Some?
               && region.nextCheckStart <= window.count
      requires Agrees(hist) && Readable(hist) && |used| == |recs| && !disabled
      requires lost == RegionLost(region, window.Got(), window.base) && |lost| == |values|
      requires forall j :: 0 <= j < |lost| ==> lost[j] < |hist| && values[j] == hist[lost[j]]
      modifies this, window, matrix
      ensures var f := Follow(recs, used, |recs|, old(Sum()), old(window.columnStart), old(window.count));
              && (r.Disabled? <==> f.None?)
              && (f.Some? ==> plan == old(PassPlanWith(f.value)) && r == if plan.Overruns? then Overran else Success)
      ensures started == old(started) && hasRecovered == old(hasRecovered)
      ensures !r.Overran? ==> Valid() && Agrees(hist) && matrix.data == old(matrix.data)
      ensures r.Disabled? ==> disabled && unchanged(window) && removed == old(removed) && stale == old(stale)
      ensures r.Success? ==>
                && Received() == Filled(old(Received()), lost, hist) && Reports(recovered, lost, hist)
                && NextExpected() >= old(window.base + region.nextCheckStart)
                && window.base == old(window.base) + Dropped(plan)
                && stale == (old(stale) || (plan.Drops? && old(TooOld())))
                && disabled == plan.Disables?
                && Last() == old(Last()) && latestColumn == old(latestColumn)
      ensures var f := Follow(recs, used, |recs|, old(Sum()), old(window.columnStart), old(window.count));
              r.Success? && f.Some? ==> IsLeft(old(PassLeft(f.value)))
    {
      hide ListOk, LastOk, StartedBy, AllOk, Uniform, Wrap, BitSets.Bits, Packets, Checked, IsField, Agreement;
      hide RegionLost, Readable, RegionOk, Follow, Plan, NextMissing, LeftAfter, Filled, Reports, SumLeft;
      hide SamePackets;
      plan := Stays;
      var ok := FollowSums(recs, used);
      if !ok {
        Disable();
        return Disabled, plan;
      }
      plan := PassPlan();
      ok := Finish(lost, values, hist);
      r := if ok then Success else Overran;
    }

    /** Sets up the linear system and tries to solve it. */
    method Attempt(ghost hist: seq<seq<T>>)
      returns (result: Option<seq<seq<T>>>, recs: seq<RecoveryPacket<T>>, lost: seq<nat>)
      requires Valid() && !disabled && Agrees(hist) && Readable(hist)
      requires region.lastRecovery.Some? && region.lostCount <= region.recoveryCount
      modifies matrix, matrix.data
      ensures Sound() && RegionOk(region, list, window.Got()) && (matrix.data == old(matrix.data) || fresh(matrix.data))
      ensures recs == RegionRecs(list, region.recoveryCount)
      ensures lost == RegionLost(region, window.Got(), window.base) && |matrix.used| == |recs|
      ensures result.None? ==> MatrixOk()
      ensures result.Some? <==> Solvable()
      ensures result.Some? ==> IsBasis(code, recs, matrix.used, lost)
      ensures result.Some? ==> |result.value| == |lost| && forall j :: 0 <= j < |lost| ==>
                lost[j] < |hist| && result.value[j] == hist[lost[j]]
    {
      hide Sound, IsField, Agreement, IsRegion, RegionLost, Framed, Continues, Readable, RegionOk, Determined, IsBasis;
      var counts, columnOf, received;
      recs, counts, lost, columnOf, received := Gather();
      SystemIsReady(hist, received, lost);
      result := DecodeCheckedRegion(code, matrix, recs, lost, columnOf, counts, received, parse, hist[..|received|]);
    }

    method Gather()
      returns (recs: seq<RecoveryPacket<T>>, counts: seq<nat>, lost: seq<nat>, columnOf: map<nat, nat>,
          received: seq<seq<T>>)
      requires Valid() && !disabled && region.lastRecovery.Some?
      ensures recs == RegionRecs(list, region.recoveryCount) && counts == RegionCounts(list, region.recoveryCount)
      ensures lost == RegionLost(region, window.Got(), window.base) && IsColumnIndex(lost, columnOf)
      ensures received == Received()
    {
      hide IsField, Continues, Wrap, AllOk, Packets, BitSets.Bits, MissingIn, ListOk, RegionOk, LastOk;
      CheckedShape();
      recs, counts := RegionRows();
      lost, columnOf := RegionColumns();
      var front := window.Front(window.count);
      received := removed + front;
    }

    lemma SystemIsReady(hist: seq<seq<T>>, received: seq<seq<T>>, lost: seq<nat>)
      requires Valid() && !disabled && Agrees(hist) && Readable(hist) && region.lastRecovery.Some?
               && region.lostCount <= region.recoveryCount
      requires received == Received() && lost == RegionLost(region, window.Got(), window.base)
      ensures IsField(code.F) && matrix.Valid() && |received| <= |hist|
      ensures IsRegion(code, hist[..|received|], received, lost, RegionRecs(list, region.recoveryCount),
                RegionCounts(list, region.recoveryCount))
      ensures Continues(code, matrix, RegionRecs(list, region.recoveryCount), lost,
                RegionCounts(list, region.recoveryCount))
      ensures 0 < |lost| <= |RegionRecs(list, region.recoveryCount)|
      ensures forall j :: 0 <= j < |lost| ==>
                lost[j] < |received| && |hist[..|received|][lost[j]]| > 0
                  && Framed(code.F, parse, hist[..|received|][lost[j]])
    {
      hide IsField, Wrap, AllOk, Packets, BitSets.Bits, MissingIn, EntryOk, Sorted, Distinct, Continues, IsRegion;
      hide Framed, Agreement;
      RegionIsSystem(hist, received, lost);
      var got := window.Got();
      RegionCoversNext(region, list, got, window.base, window.nextExpected, nextId);
      CheckedShape();
      RegionEnd(region, list, got);
      MissingIsLost(window.nextExpected);
      AgreementFits(hist);
      forall j | 0 <= j < |lost| ensures lost[j] < |received| && hist[..|received|][lost[j]] == hist[lost[j]] {
        LostIsMissing(j);
      }
    }

    lemma AgreementFits(hist: seq<seq<T>>)
      requires window.Sound() && Agrees(hist)
      ensures |Received()| <= |hist|
    {
    }

    method MarkFailed(ghost hist: seq<seq<T>>)
      requires Sound() && RegionOk(region, list, window.Got()) && region.lastRecovery.Some? && Agrees(hist)
               && MatrixOk()
      modifies this`region
      ensures Valid() && Agrees(hist) && region == old(region).(solveFailed := true)
    {
      hide ListOk, IsField, Continues, Agreement, MissingIn, CountOk, Wrap, AllOk, Uniform, BitSets.Bits, Packets;
      hide StartedBy, RecoveryMatrix.Valid;
      region := region.(solveFailed := true);
    }

    /** Puts the recovered packets where they belong and starts over. */
    method Finish(lost: seq<nat>, values: seq<seq<T>>, ghost hist: seq<seq<T>>) returns (ok: bool)
      requires Sound() && RegionOk(region, list, window.Got()) && region.lastRecovery.Some? && Agrees(hist)
               && Readable(hist)
      requires lost == RegionLost(region, window.Got(), window.base) && |lost| == |values|
      requires forall j :: 0 <= j < |lost| ==> lost[j] < |hist| && values[j] == hist[lost[j]]
      modifies this, window, matrix
      ensures ok <==> !old(PassPlan()).Overruns?
      ensures started == old(started) && hasRecovered == old(hasRecovered)
      ensures ok ==> Valid() && Agrees(hist) && matrix.data == old(matrix.data)
      ensures ok ==>
                Received() == Filled(old(Received()), lost, hist)
                  && NextExpected() >= old(window.base + region.nextCheckStart)
      ensures ok ==> Reports(recovered, lost, hist) && window.base == old(window.base) + Dropped(old(PassPlan()))
      ensures ok ==> disabled == (old(disabled) || old(PassPlan()).Disables?)
      ensures ok ==> stale == (old(stale) || (old(PassPlan()).Drops? && old(TooOld())))
      ensures ok ==> IsLeft(old(PassLeft(Sum()))) && Last() == old(Last()) && latestColumn == old(latestColumn)
    {
      hide IsField, Wrap, AllOk, Packets, BitSets.Bits, ListOk, RegionOk, Framed, Agreement, Plan, LeftAfter;
      hide NextMissing, Uniform, StartedBy, Filled, RegionLost, SumLeft, SamePackets, MetadataOk, Checked, Matches;
      hide RecoveryMatrix.Valid, Continues;
      ghost var received := Received();
      Fill(lost, values, hist);
      recovered := seq(|lost|, j requires 0 <= j < |lost| && |lost| == |values| => Original(lost[j], values[j]));
      AgreeFilled(code, received, list, old(recovered), recovered, lost, hist);
      ok := PassRegion(hist, window.nextExpected);
    }

    /** Fills the holes of the region; what is planned for afterwards does not change. */
    method Fill(lost: seq<nat>, values: seq<seq<T>>, ghost hist: seq<seq<T>>)
      requires Sound() && RegionOk(region, list, window.Got()) && region.lastRecovery.Some? && Agrees(hist)
               && Readable(hist)
      requires lost == RegionLost(region, window.Got(), window.base) && |lost| == |values|
      requires forall j :: 0 <= j < |lost| ==> lost[j] < |hist| && values[j] == hist[lost[j]]
      modifies window`subwindows
      ensures window.Sound() && Received() == Filled(old(Received()), lost, hist)
      ensures window.nextExpected < region.nextCheckStart <= window.count
              && Uniform(window.Got(), 0, region.nextCheckStart, true)
      ensures forall sum :: PassPlanWith(sum) == old(PassPlanWith(sum)) && PassLeft(sum) == old(PassLeft(sum))
      ensures TooOld() == old(TooOld())
    {
      hide IsField, Wrap, AllOk, Packets, BitSets.Bits, MissingIn, ListOk, RegionOk, Framed, Agreement, Plan;
      hide LeftAfter, NextMissing;
      ghost var received := Received();
      LostAscends();
      FilledFits(lost, hist);
      RegionCoversNext(region, list, window.Got(), window.base, window.nextExpected, nextId);
      RegionEnd(region, list, window.Got());
      ghost var got := window.Got();
      GotIsReceived();
      forall j | 0 <= j < |lost| ensures lost[j] < window.base + region.nextCheckStart {
        LostIsMissing(j);
      }
      StoreRecovered(lost, values, hist);
      AllGot(region.nextCheckStart);
      LaterUnchanged(got, received, lost, hist);
    }

    lemma GotIsReceived()
      requires window.Sound() && |removed| == window.base
      ensures |Received()| == window.base + window.count
      ensures forall e :: 0 <= e < window.count ==> (window.Got()[e] <==> Received()[window.base + e] != [])
    {
      hide AllOk, Packets, BitSets.Bits;
      window.GotIsContents();
      forall e | 0 <= e < window.count ensures window.Got()[e] <==> Received()[window.base + e] != [] {
        assert Received()[window.base + e] == window.Contents()[e];
      }
    }

    /** Filling the region changes nothing past it. */
    lemma LaterUnchanged(got: seq<bool>, received: seq<seq<T>>, lost: seq<nat>, hist: seq<seq<T>>)
      requires window.Sound() && |removed| == window.base && |got| == window.count && region.nextCheckStart <= |got|
      requires Received() == Filled(received, lost, hist) && |received| == window.base + |got|
      requires (forall e :: 0 <= e < |got| ==> (got[e] <==> received[window.base + e] != []))
      requires forall j :: 0 <= j < |lost| ==> lost[j] < window.base + region.nextCheckStart
      ensures NextMissing(window.Got(), region.nextCheckStart) == NextMissing(got, region.nextCheckStart)
    {
      hide AllOk, Packets, BitSets.Bits, NextMissing;
      window.GotIsContents();
      forall e | region.nextCheckStart <= e < |got| ensures window.Got()[e] == got[e] {
        assert Received()[window.base + e] == window.Contents()[e];
      }
      NextMissingSame(window.Got(), got, region.nextCheckStart);
    }

    lemma LostAscends()
      requires window.Sound() && RegionOk(region, list, window.Got())
      ensures Ascending(RegionLost(region, window.Got(), window.base))
    {
      hide MissingIn, AllOk, Packets, BitSets.Bits;
    }

    /** The lost packets fill the holes of the region, and only those. */
    lemma FilledFits(lost: seq<nat>, hist: seq<seq<T>>)
      requires Sound() && RegionOk(region, list, window.Got()) && region.lastRecovery.Some? && Agrees(hist)
               && Readable(hist)
      requires lost == RegionLost(region, window.Got(), window.base)
               && (forall j :: 0 <= j < |lost| ==> lost[j] < |hist|)
      ensures forall j :: 0 <= j < |lost| ==>
                window.base <= lost[j] < |Received()| && Received()[lost[j]] == [] && hist[lost[j]] != []
      ensures forall c :: 0 <= c < window.base + region.nextCheckStart && c < |Received()| ==>
                Filled(Received(), lost, hist)[c] != []
    {
      hide IsField, Wrap, AllOk, Packets, BitSets.Bits, MissingIn, ListOk, RegionOk, Framed, Agreement;
      window.GotIsContents();
      forall j | 0 <= j < |lost| ensures window.base <= lost[j] < |Received()| && Received()[lost[j]] == [] {
        LostIsMissing(j);
      }
      forall c | 0 <= c < window.base + region.nextCheckStart && c < |Received()|
        ensures Filled(Received(), lost, hist)[c] != []
      {
        ReceivedOrLost(hist, c);
      }
    }

    lemma AllGot(n: nat)
      requires window.Sound() && n <= window.count && |removed| == window.base
      requires forall c :: 0 <= c < window.base + n && c < |Received()| ==> Received()[c] != []
      ensures Uniform(window.Got(), 0, n, true)
    {
      hide AllOk, Packets, BitSets.Bits;
      window.GotIsContents();
      forall e | 0 <= e < n ensures window.Got()[e] {
        assert Received()[window.base + e] == window.Contents()[e];
      }
    }

    /** Reports packets recovered earlier, or recovers more: every packet reported is as it was sent. */
    method Decode(ghost hist: seq<seq<T>>)
      returns (r: Result, packets: seq<Original<T>>, ghost t: Trial<T>, ghost o: Outcome)
      requires Valid() && Agrees(hist) && Readable(hist)
      modifies this, window, matrix, matrix.data
      ensures !r.Overran? ==> Valid() && Agrees(hist) && (matrix.data == old(matrix.data) || fresh(matrix.data))
      ensures old(disabled) ==> r.Disabled? && disabled && Received() == old(Received())
      ensures !old(disabled) && old(hasRecovered) ==>
                r.Success? && !disabled && Received() == old(Received()) && window.base == old(window.base)
      ensures old(disabled) || old(hasRecovered) ==>
                && NextExpected() == old(NextExpected()) && stale == old(stale) && list == old(list)
                && region == old(region) && Memory() == old(Memory())
      ensures !old(disabled) && old(hasRecovered) ==> packets == old(recovered)
      ensures !old(disabled) && !old(hasRecovered) ==>
                && IsTrial(old(list), old(region), old(window.Got()), t)
                && o == TrialOutcome(code, t, old(window.Got()), old(window.base), old(lastMeta), old(Sum()))
                && r == ResultOf(o)
                && (r.Success? ==>
                      && t.tried && Last() == old(Last()) && latestColumn == old(latestColumn)
                      && IsLeft(TrialLeft(t, old(window.Got()), old(window.base), old(lastMeta), old(Sum()))))
                && (r.NeedMore? ==> Memory() == old(Memory()) && Waits(t))
                && (!o.Unsolvable? ==>
                      IsBasis(code, RegionRecs(t.list, t.region.recoveryCount), t.used,
                              RegionLost(t.region, old(window.Got()), old(window.base))))
                && (!r.Overran? ==> (disabled <==> o.SumLost? || o == Solved(Disables)))
      ensures !old(disabled) && !old(hasRecovered) && r.Success? ==>
                var lost := RegionLost(t.region, old(window.Got()), old(window.base));
                && NextExpected() > old(NextExpected()) && window.base == old(window.base) + Dropped(o.removal)
                && Reports(packets, lost, hist) && Received() == Filled(old(Received()), lost, hist)
      ensures started == old(started) && hasRecovered == (old(disabled) && old(hasRecovered))
      ensures !r.Overran? ==> Keeps(old(Received()), Received()) && NextExpected() >= old(NextExpected())
      ensures !r.Overran? ==> |Received()| == |old(Received())|
      ensures !r.Overran? ==> forall i :: 0 <= i < |packets| ==> IsSent(hist, packets[i])
      ensures r.NeedMore? || r.Disabled? ==>
                packets == [] && Received() == old(Received()) && window.base == old(window.base)
                  && NextExpected() == old(NextExpected())
      ensures old(window.base) - old(lastEnd) <= COLUMN_PERIOD / 2 ==> !r.Overran? && stale == old(stale)
      ensures !r.Overran? && old(stale) ==> stale
    {
      hide ListOk, LastOk, IsField, AllOk, Uniform, Wrap, BitSets.Bits, Packets, Checked, Agreement, RegionLost;
      hide Readable, Reports, Filled, Matches, OutcomeOf, RegionOk, Recounted, IsTrial, TrialOutcome, ResultOf;
      hide StartedBy;
      t, o := Trial([], EMPTY_REGION, false, []), Unsolvable;
      if disabled {
        r, packets := Disabled, [];
      } else if hasRecovered {
        r := Success;
        packets := TakeReported(hist);
      } else {
        r, packets, t, o := DecodeMore(hist);
      }
    }

    /** After a trial in vain: it is not repeated before another packet arrives. */
    ghost predicate Waits(t: Trial<T>)
      reads this
    {
      if t.tried then SamePackets(t.list, list) && AllFailed() else list == t.list && region == t.region
    }

    /** Decode, when there is nothing left to report. */
    method DecodeMore(ghost hist: seq<seq<T>>)
      returns (r: Result, packets: seq<Original<T>>, ghost t: Trial<T>, ghost o: Outcome)
      requires Valid() && !disabled && !hasRecovered && Agrees(hist) && Readable(hist)
      modifies this, window, matrix, matrix.data
      ensures !r.Overran? ==> Valid() && Agrees(hist) && (matrix.data == old(matrix.data) || fresh(matrix.data))
      ensures IsTrial(old(list), old(region), old(window.Got()), t)
      ensures o == TrialOutcome(code, t, old(window.Got()), old(window.base), old(lastMeta), old(Sum()))
      ensures r == ResultOf(o)
      ensures r.Success? ==>
                && t.tried && Last() == old(Last()) && latestColumn == old(latestColumn)
                && IsLeft(TrialLeft(t, old(window.Got()), old(window.base), old(lastMeta), old(Sum())))
      ensures r.NeedMore? ==> Memory() == old(Memory()) && Waits(t)
      ensures !o.Unsolvable? ==>
                IsBasis(code, RegionRecs(t.list, t.region.recoveryCount), t.used,
                        RegionLost(t.region, old(window.Got()), old(window.base)))
      ensures !r.Overran? ==> (disabled <==> o.SumLost? || o == Solved(Disables))
      ensures r.Success? ==>
                var lost := RegionLost(t.region, old(window.Got()), old(window.base));
                && NextExpected() > old(NextExpected()) && window.base == old(window.base) + Dropped(o.removal)
                && Reports(packets, lost, hist) && Received() == Filled(old(Received()), lost, hist)
      ensures started == old(started) && !hasRecovered
      ensures !r.Overran? ==> Keeps(old(Received()), Received()) && NextExpected() >= old(NextExpected())
      ensures !r.Overran? ==> |Received()| == |old(Received())|
      ensures !r.Overran? ==> forall i :: 0 <= i < |packets| ==> IsSent(hist, packets[i])
      ensures r.NeedMore? || r.Disabled? ==>
                packets == [] && Received() == old(Received()) && window.base == old(window.base)
                  && NextExpected() == old(NextExpected())
      ensures old(window.base) - old(lastEnd) <= COLUMN_PERIOD / 2 ==> !r.Overran? && stale == old(stale)
      ensures !r.Overran? && old(stale) ==> stale
    {
      hide ListOk, LastOk, IsField, AllOk, Uniform, Wrap, BitSets.Bits, Packets, Checked, Agreement, RegionLost;
      hide Readable, Reports, Filled, Matches, OutcomeOf, RegionOk, Recounted, Furthers, StartedBy, NextMissing;
      hide LeftAfter;
      AgreesMatches(hist);
      var possible := CheckRecoveryPossible();
      RecountedAgrees(old(list), hist);
      RegionIsOk();
      CheckedCount();
      t, o, r, packets := Trial(list, region, possible, []), Unsolvable, NeedMore, [];
      if possible {
        ghost var used;
        r, packets, used, o := DecodeChecked(hist);
        t := t.(used := used);
      }
    }

    /** Tries the region that the check has come to, and reports what it recovers. */
    method DecodeChecked(ghost hist: seq<seq<T>>)
      returns (r: Result, packets: seq<Original<T>>, ghost used: seq<bool>, ghost o: Outcome)
      requires Valid() && !disabled && !hasRecovered && Agrees(hist) && Readable(hist)
      requires region.lastRecovery.Some? && region.lostCount <= region.recoveryCount
      modifies this, window, matrix, matrix.data
      ensures !r.Overran? ==> Valid() && Agrees(hist) && (matrix.data == old(matrix.data) || fresh(matrix.data))
      ensures |used| == old(region.recoveryCount) && o == old(OutcomeHere(used)) && r == ResultOf(o)
      ensures !o.Unsolvable? ==> old(BasisHere(used))
      ensures r.Success? ==>
                IsLeft(old(LeftHere(used))) && Last() == old(Last()) && latestColumn == old(latestColumn)
      ensures r.NeedMore? ==> SamePackets(old(list), list) && AllFailed() && Memory() == old(Memory())
      ensures !r.Overran? ==> (disabled <==> o.SumLost? || o == Solved(Disables))
      ensures r.Success? ==>
                var lost := old(RegionLost(region, window.Got(), window.base));
                && NextExpected() > old(NextExpected()) && window.base == old(window.base) + Dropped(o.removal)
                && Reports(packets, lost, hist) && Received() == Filled(old(Received()), lost, hist)
      ensures started == old(started) && !hasRecovered
      ensures !r.Overran? ==> Keeps(old(Received()), Received()) && NextExpected() >= old(NextExpected())
      ensures !r.Overran? ==> |Received()| == |old(Received())|
      ensures !r.Overran? ==> forall i :: 0 <= i < |packets| ==> IsSent(hist, packets[i])
      ensures r.NeedMore? || r.Disabled? ==>
                packets == [] && Received() == old(Received()) && window.base == old(window.base)
                  && NextExpected() == old(NextExpected())
      ensures old(window.base) - old(lastEnd) <= COLUMN_PERIOD / 2 ==> !r.Overran? && stale == old(stale)
      ensures !r.Overran? && old(stale) ==> stale
    {
      hide ListOk, LastOk, IsField, AllOk, Uniform, Wrap, BitSets.Bits, Packets, Checked, Agreement, RegionLost;
      hide Readable, Reports, Filled, Matches, OutcomeOf, RegionOk, StartedBy, NextMissing, LeftAfter;
      AgreesMatches(hist);
      PastNext();
      CheckedShape();
      RegionIsOk();
      if window.base - lastEnd <= COLUMN_PERIOD / 2 {
        RecentIsSafe();
      }
      ghost var lost := RegionLost(region, window.Got(), window.base);
      packets := [];
      r, used, o := SolveFrom(hist);
      if !r.Overran? {
        packets := if r.Success? then recovered else [];
        RecoveredAreSent(hist);
        KeepsFilled(old(Received()), lost, hist);
      }
    }

    /** Metadata at most half a period old never makes the decoder give up a missing element. */
    lemma RecentIsSafe()
      requires Valid() && !disabled && region.lastRecovery.Some? && window.base - lastEnd <= COLUMN_PERIOD / 2
      ensures RegionOk(region, list, window.Got())
      ensures forall used | |used| == region.recoveryCount <= |list| :: !ResultOf(OutcomeHere(used)).Overran?
    {
      hide LastOk, IsField, AllOk, Uniform, Wrap, BitSets.Bits, Packets, Checked, Determined, Follow, ListOk;
      hide StartedBy, RegionOk, MissingIn, Plan, LeftAfter, NextMissing, RegionLost;
      RegionIsOk();
      PastNext();
      CheckedCount();
      var next := NextMissing(window.Got(), region.nextCheckStart);
      RecentPlan(LeftAfter(list, next), next);
    }

    lemma RecentPlan(left: seq<Entry<T>>, next: nat)
      requires Sound() && window.base - lastEnd <= COLUMN_PERIOD / 2
      requires left == LeftAfter(list, next) && window.nextExpected <= next
      ensures forall sum :: !Plan(left, lastMeta, sum, next, window.columnStart, window.count).Overruns?
    {
      hide IsField, AllOk, Uniform, Wrap, BitSets.Bits, Packets, CanKeep, ListOk, EndElement;
      if left != [] {
        var d := LeftFrom(list, next);
        TrimOk(list, d, window.base, window.nextExpected, next, window.count, nextId);
        forall sum ensures !Plan(left, lastMeta, sum, next, window.columnStart, window.count).Overruns? {
          ListNeverOverruns(left, lastMeta, sum, window.base, next, window.count, nextId, window.columnStart);
        }
      } else {
        LastElement();
      }
    }

    lemma CheckedCount()
      requires Valid() && !disabled
      ensures region.recoveryCount <= |list| && region.nextCheckStart <= window.count
    {
    }

    lemma RegionIsOk()
      requires Valid() && !disabled
      ensures RegionOk(region, list, window.Got())
    {
    }

    lemma AgreesMatches(hist: seq<seq<T>>)
      requires window.Sound() && Agrees(hist)
      ensures Matches(Received(), hist)
    {
    }

    lemma PastNext()
      requires Valid() && !disabled && region.lastRecovery.Some?
      ensures window.nextExpected < region.nextCheckStart
    {
      hide ListOk, RegionOk, Continues;
      RegionCoversNext(region, list, window.Got(), window.base, window.nextExpected, nextId);
    }

    method TakeReported(ghost hist: seq<seq<T>>) returns (packets: seq<Original<T>>)
      requires Valid() && Agrees(hist)
      modifies this`hasRecovered
      ensures Valid() && Agrees(hist) && !hasRecovered && packets == recovered
      ensures forall i :: 0 <= i < |packets| ==> IsSent(hist, packets[i])
    {
      hide ListOk, IsField, Continues, RegionOk, Made, Matches, RecoveryMatrix.Valid;
      hasRecovered := false;
      packets := recovered;
    }

    lemma RecoveredAreSent(hist: seq<seq<T>>)
      requires window.Sound() && Agrees(hist)
      ensures forall i :: 0 <= i < |recovered| ==> IsSent(hist, recovered[i])
    {
    }

    lemma RecountedAgrees(before: seq<Entry<T>>, hist: seq<seq<T>>)
      requires window.Sound() && Recounted(before, list) && Agreement(code, Received(), before, recovered, hist)
      ensures Agrees(hist)
    {
      hide Agreement;
      AgreeSame(code, Received(), before, list, recovered, hist);
    }

    /** Everything up to the k-th packet of the list has been counted. */
    ghost predicate Walked(k: nat, next: nat, lostCount: nat)
      requires window.Sound()
      reads this, window
    {
      && region.lastRecovery.Some? && 0 < region.recoveryCount <= k + 1 <= |list|
      && next == list[k].elementEnd <= window.count
      && lostCount == |MissingIn(window.Got(), region.elementStart, next)|
      && forall i :: 0 <= i <= k ==> CountOk(list[i], region.elementStart, window.Got())
    }

    lemma StartWalk()
      requires Valid() && !disabled && region.lastRecovery.Some?
      ensures Walked(region.recoveryCount - 1, region.nextCheckStart, region.lostCount)
    {
      hide MissingIn, AllOk, Packets, BitSets.Bits, ListOk, Continues;
    }

    /** Counts the losses that the next packet of the list faces. */
    method WalkOn(k: nat, next: nat, lostCount: nat, ghost hist: seq<seq<T>>) returns (next': nat, lostCount': nat)
      requires Valid() && !disabled && Agrees(hist) && Walked(k, next, lostCount) && k + 1 < |list|
      modifies this`list
      ensures Valid() && Agrees(hist) && Walked(k + 1, next', lostCount') && SamePackets(old(list), list)
              && |list| == |old(list)|
    {
      hide EntryOk, Sorted, Distinct, IsField, Wrap, Continues, AllOk, Packets, MissingIn, RegionOk, Agreement;
      hide BitSets.Bits, RecoveryMatrix.Valid;
      ghost var got := window.Got();
      WalkStep(k, next, lostCount);
      var e := list[k + 1];
      var more := window.RangeLostPackets(next, e.elementEnd);
      next', lostCount' := e.elementEnd, lostCount + more;
      RecountOk(list, k + 1, lostCount', window.base, window.nextExpected, window.count, nextId);
      list := list[k + 1 := e.(lostCount := lostCount')];
      KeepRegion(old(list), got);
      RecountedAgrees(old(list), hist);
    }

    lemma WalkStep(k: nat, next: nat, lostCount: nat)
      requires Sound() && Walked(k, next, lostCount) && k + 1 < |list| && RegionOk(region, list, window.Got())
      ensures next <= list[k + 1].elementEnd <= window.count
      ensures lostCount + |MissingIn(window.Got(), next, list[k + 1].elementEnd)|
              == |MissingIn(window.Got(), region.elementStart, list[k + 1].elementEnd)|
    {
      hide MissingIn, Distinct, AllOk, Packets, BitSets.Bits;
      assert EntryOk(list[0], window.base, window.nextExpected, window.count);
      assert EntryOk(list[k + 1], window.base, window.nextExpected, window.count);
      RegionStep(list, window.Got(), region.elementStart, k + 1, lostCount);
    }

    /** Remembers how far the list has been counted. */
    method WidenRegion(k: nat, next: nat, lostCount: nat, ghost hist: seq<seq<T>>)
      requires Valid() && !disabled && Agrees(hist) && Walked(k, next, lostCount)
      modifies this`region
      ensures Valid() && Agrees(hist) && region.recoveryCount == k + 1 && region.solveFailed == old(region.solveFailed)
    {
      hide EntryOk, Sorted, Distinct, IsField, Wrap, Continues, AllOk, Packets, MissingIn, RegionOk, Agreement;
      hide BitSets.Bits, RecoveryMatrix.Valid;
      ghost var region0 := region;
      region := region.(lastRecovery := Some(list[k].id), nextCheckStart := next, recoveryCount := k + 1,
          lostCount := lostCount);
      Widened(region0, k);
    }

    lemma Widened(region0: Region, k: nat)
      requires Sound() && region0.lastRecovery.Some? && region0.recoveryCount <= k + 1 <= |list|
      requires CheckedIn(region0, list, window.Got(), window.base)
      requires list[k].elementEnd <= window.count
      requires region
               == region0.(lastRecovery := Some(list[k].id), nextCheckStart := list[k].elementEnd,
                   recoveryCount := k + 1,
                                  lostCount := |MissingIn(window.Got(), region0.elementStart, list[k].elementEnd)|)
      requires forall i :: 0 <= i <= k ==> CountOk(list[i], region0.elementStart, window.Got())
      ensures Checked()
    {
      hide Continues, MissingIn, Distinct, IsField, MetadataOk, AllOk, Uniform, Wrap, BitSets.Bits, Packets, LastOk;
      var base, k0 := window.base, region0.recoveryCount;
      forall i | 0 <= i < |list| ensures list[i].rec.end == base + list[i].elementEnd {
        assert EntryOk(list[i], base, window.nextExpected, window.count);
      }
      assert EntryOk(list[0], base, window.nextExpected, window.count);
      assert k0 - 1 < k ==> Before(list[k0 - 1], list[k]);
      assert k0 > 1 ==> Before(list[0], list[k0 - 1]);
      LargerSystem(region0, list, k0);
    }

    /** Tries the checked region, again for every further packet that makes enough of them, and
        leaves the region at the end of the list when nothing works. */
    method SolveFrom(ghost hist: seq<seq<T>>) returns (r: Result, ghost used: seq<bool>, ghost o: Outcome)
      requires Valid() && !disabled && Agrees(hist) && Readable(hist)
      requires region.lastRecovery.Some? && region.lostCount <= region.recoveryCount
      modifies this, window, matrix, matrix.data
      ensures |used| == old(region.recoveryCount) && o == old(OutcomeHere(used)) && r == ResultOf(o)
      ensures !o.Unsolvable? ==> old(BasisHere(used))
      ensures r.Success? ==>
                IsLeft(old(LeftHere(used))) && Last() == old(Last()) && latestColumn == old(latestColumn)
      ensures started == old(started) && hasRecovered == old(hasRecovered)
      ensures !r.Overran? ==> Valid() && Agrees(hist) && (matrix.data == old(matrix.data) || fresh(matrix.data))
      ensures !r.Overran? ==> (disabled <==> o.SumLost? || o == Solved(Disables))
      ensures r.Success? ==>
                var lost := old(RegionLost(region, window.Got(), window.base));
                && Received() == Filled(old(Received()), lost, hist) && Reports(recovered, lost, hist)
                && NextExpected() >= old(window.base + region.nextCheckStart)
                && window.base == old(window.base) + Dropped(o.removal)
                && stale == (old(stale) || (o.removal.Drops? && old(TooOld())))
      ensures r.NeedMore? || r.Disabled? ==> unchanged(window) && removed == old(removed) && stale == old(stale)
      ensures r.NeedMore? ==> SamePackets(old(list), list) && AllFailed() && Memory() == old(Memory())
    {
      hide ListOk, LastOk, IsField, AllOk, Uniform, Wrap, BitSets.Bits, Packets, Checked, Agreement, MissingIn;
      hide Readable, Reports, CountOk, Determined, SamePackets, OutcomeOf, NextMissing, LeftAfter, RegionOk;
      SameAsBefore(list);
      StartWalk();
      CheckedShape();
      RegionIsOk();
      var k: nat := Locate(region.lastRecovery.value);
      UniqueId(k, region.recoveryCount - 1);
      var next: nat, lostCount: nat := region.nextCheckStart, region.lostCount;
      r, used, o := SolveRegion(hist);
      if !r.NeedMore? {
        return;
      }
      SolvableSame(old(list));
      TryFurther(hist, k, next, lostCount);
    }

    /** The region is the whole list, and marked as failed. */
    ghost predicate AllFailed()
      reads this
    {
      region.solveFailed && region.recoveryCount == |list|
    }

    lemma SolvableSame(before: seq<Entry<T>>)
      requires window.Sound() && list == before
      ensures Solvable()
              == Determined(code, RegionRecs(before, region.recoveryCount),
                  RegionLost(region, window.Got(), window.base))
    {
    }

    /** The packets after a region that is not solvable: the same region is tried again, in vain, whenever
        there are enough of them. */
    method TryFurther(ghost hist: seq<seq<T>>, from: nat, next0: nat, lostCount0: nat)
      requires Valid() && !disabled && Agrees(hist) && Readable(hist) && !Solvable()
      requires region.lastRecovery.Some? && region.lostCount <= region.recoveryCount && region.solveFailed
      requires Walked(from, next0, lostCount0)
      modifies this, window, matrix, matrix.data
      ensures Valid() && !disabled && Agrees(hist) && (matrix.data == old(matrix.data) || fresh(matrix.data))
      ensures unchanged(window) && removed == old(removed) && started == old(started) && stale == old(stale)
      ensures hasRecovered == old(hasRecovered)
      ensures SamePackets(old(list), list) && AllFailed() && Memory() == old(Memory())
    {
      hide ListOk, LastOk, IsField, AllOk, Uniform, Wrap, BitSets.Bits, Packets, Checked, Agreement, MissingIn;
      hide Readable, Reports, CountOk, Determined, SamePackets, OutcomeOf, NextMissing, LeftAfter, RegionOk, IsBasis;
      SameAsBefore(list);
      var k, next, lostCount := from, next0, lostCount0;
      while k + 1 < |list|
        invariant Valid() && !disabled && Agrees(hist)
        invariant unchanged(window) && removed == old(removed) && started == old(started) && stale == old(stale)
        invariant hasRecovered == old(hasRecovered) && (matrix.data == old(matrix.data) || fresh(matrix.data))
        invariant region == old(region) && k < |list| == |old(list)| && Walked(k, next, lostCount)
        invariant SamePackets(old(list), list) && Memory() == old(Memory())
        decreases |list| - k
      {
        ghost var before := list;
        next, lostCount := WalkOn(k, next, lostCount, hist);
        SameAgain(old(list), before, list);
        k := k + 1;
        if k + 1 >= lostCount {
          SameRows(old(list), list, region.recoveryCount);
          var r;
          ghost var used, o;
          r, used, o := SolveRegion(hist);
        }
      }
      WidenRegion(k, next, lostCount, hist);
    }

    /** The region survives changes outside it. */
    lemma KeepRegion(list0: seq<Entry<T>>, got0: seq<bool>)
      requires window.Sound() && matrix.Valid() && RegionOk(region, list0, got0) && |got0| <= window.count
               && Sorted(list0)
      requires region.recoveryCount <= |list|
               && (forall i :: 0 <= i < region.recoveryCount <= |list0| ==> list[i] == list0[i])
      requires forall e :: region.elementStart <= e < region.nextCheckStart && e < |got0| ==> window.Got()[e] == got0[e]
      requires Continues(code, matrix, RegionRecs(list0, region.recoveryCount), RegionLost(region, got0, window.base),
                 RegionCounts(list0, region.recoveryCount))
      ensures Checked()
    {
      hide Continues;
      var got := window.Got();
      RegionKept(region, list0, list, got0, got);
      LostKept(region, list0, got0, got, window.base);
      assert RegionRecs(list, region.recoveryCount) == RegionRecs(list0, region.recoveryCount);
      assert RegionCounts(list, region.recoveryCount) == RegionCounts(list0, region.recoveryCount);
    }
  }
}
