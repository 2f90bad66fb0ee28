/** The running sums beside the decoder: what the decoder keeps packets for, they do without. */
module SumsBeside {
  import opened Fields
  import opened RecoveryMatrices
  import opened BitSets
  import opened Missing
  import opened Columns
  import opened Recovery
  import opened BackSubstitutions
  import opened Rows
  import opened Decoding
  import opened DecoderWindows
  import opened RecoveryLists
  import opened Removals
  import opened Decoders
  import opened DecoderSums

  /** Running sums that belong to a decoder: the same window, the same sum, and whatever they cover comes
      before the next expected packet.  As long as they are not kept up, the sums of the list start in
      the window, which is what the decoder asks of a packet that joins the list then. */
  ghost predicate Beside<T(0, !new)>(sums: RunningSums<T>, d: Decoder<T>)
    requires d.window.Sound()
    reads sums, sums.lanes, d, d.window
  {
    && sums.Valid() && sums.code == d.code && sums.gone == d.removed && sums.window == d.window.Contents()
    && sums.Sum() == d.Sum() && -(COLUMN_PERIOD / 2) < sums.sumBase - d.window.base < COLUMN_PERIOD / 2
    && (sums.live ==> sums.limit <= d.NextExpected())
    && (!sums.live ==> forall i :: 0 <= i < |d.list| && IsSumRow(d.list[i]) ==>
          d.window.base <= d.list[i].rec.end - d.list[i].rec.meta.sumCount)
  }

  ghost function Members(lost: seq<nat>): (m: set<nat>)
    ensures forall n :: n in m <==> n in lost
  {
    set n | n in lost
  }

  /** The packets that the checked region misses. */
  ghost function LostSet<T(0, !new)>(d: Decoder<T>): set<nat>
    requires d.window.Sound()
    reads d, d.window
  {
    Members(RegionLost(d.region, d.window.Got(), d.window.base))
  }

  /** In every reachable state the rows of the checked region are such that the running sums can eliminate
      what has been received from them. */
  lemma RegionIsReady<T(0, !new)>(sums: RunningSums<T>, d: Decoder<T>, hist: seq<seq<T>>, used: seq<bool>)
    requires d.Valid() && !d.disabled && d.Agrees(hist) && d.Readable(hist) && d.region.lastRecovery.Some?
             && Beside(sums, d)
    requires |used| == d.region.recoveryCount <= |d.list|
    ensures sums.RowsOk(d.list[..d.region.recoveryCount], used, 0, LostSet(d))
  {
    hide IsField, Wrap, SumOk, AllOk, Uniform, BitSets.Bits, Packets, Continues, RecoveryMatrix.Valid, MissingIn;
    hide RegionLost;
    var list, base := d.list[..d.region.recoveryCount], d.window.base;
    forall i | 0 <= i < |list| && RunningSums<T>.Follows(list, used, i)
      ensures sums.Tells(list[i].rec) && RunningSums<T>.RowOk(list[i], sums.Received(), base, LostSet(d))
      ensures if sums.live then sums.limit <= list[i].rec.end else base <= list[i].rec.end - list[i].rec.meta.sumCount
    {
      RowIsReady(sums, d, hist, i);
    }
    forall i, j | 0 <= i < j < |list| && RunningSums<T>.Follows(list, used, i) && RunningSums<T>.Follows(list, used, j)
      ensures list[i].rec.end <= list[j].rec.end && RunningSums<T>.NearStarts(list[i].rec, list[j].rec)
    {
      d.RowOrder(i, j);
      assert EntryOk(d.list[i], base, d.window.nextExpected, d.window.count);
      assert EntryOk(d.list[j], base, d.window.nextExpected, d.window.count);
    }
  }

  lemma RowIsReady<T(0, !new)>(sums: RunningSums<T>, d: Decoder<T>, hist: seq<seq<T>>, i: nat)
    requires d.Valid() && !d.disabled && d.Agrees(hist) && d.Readable(hist) && d.region.lastRecovery.Some?
             && Beside(sums, d)
    requires i < d.region.recoveryCount <= |d.list| && IsSumRow(d.list[i])
    ensures sums.Tells(d.list[i].rec) && RunningSums<T>.RowOk(d.list[i], sums.Received(), d.window.base, LostSet(d))
    ensures var rec := d.list[i].rec;
            if sums.live then sums.limit <= rec.end else d.window.base <= rec.end - rec.meta.sumCount
  {
    hide IsField, Wrap, SumOk, AllOk, Uniform, BitSets.Bits, Packets, Continues, RecoveryMatrix.Valid, MissingIn;
    hide RegionLost, Combination, Framed;
    var rec := d.list[i].rec;
    assert EntryOk(d.list[i], d.window.base, d.window.nextExpected, d.window.count) && Made(d.code, hist, rec);
    RegionEnds(d.region, d.list, d.window.Got());
    forall c | rec.end - rec.meta.sumCount <= c < rec.end ensures c in LostSet(d) || sums.Received()[c] != [] {
      d.ReceivedOrLost(hist, c);
    }
    forall c | rec.end - rec.meta.ldpcCount <= c < rec.end ensures |sums.Received()[c]| <= |rec.payload| {
      d.ReceivedOrLost(hist, c);
      assert hist[..rec.end][c] == hist[c];
    }
  }

  /** What an attempt to solve the checked region does to the running sums.  They fail exactly when the decoder
      does, leave of every sum row what the lost packets make of it, and stand for all packets of the
      window once those have been recovered. */
  method SolveBeside<T(==, 0, !new)>(sums: RunningSums<T>, d: Decoder<T>, list: seq<Entry<T>>, used: seq<bool>,
      lost: seq<nat>, ghost hist: seq<seq<T>>, values: seq<seq<T>>)
    returns (ok: bool, buffers: seq<seq<T>>)
    requires d.Valid() && !d.disabled && d.Agrees(hist) && d.Readable(hist) && d.region.lastRecovery.Some?
             && Beside(sums, d)
    requires |used| == d.region.recoveryCount <= |d.list| && list == d.list[..d.region.recoveryCount]
    requires lost == RegionLost(d.region, d.window.Got(), d.window.base) && |values| == |lost|
    requires forall j :: 0 <= j < |lost| ==> lost[j] < |hist| && values[j] == hist[lost[j]]
    modifies sums, sums.lanes
    ensures var recs := RegionRecs(d.list, d.region.recoveryCount);
            ok <==> Follow(recs, used, |recs|, d.Sum(), d.window.columnStart, d.window.count).Some?
    ensures ok ==> |buffers| == |list|
    ensures ok ==> forall i :: RunningSums<T>.Follows(list, used, i) ==>
              IsEliminated(d.code, list[i].rec, d.Received(), buffers[i])
    ensures ok ==> sums.Valid() && sums.gone == d.removed && sums.Received() == Filled(d.Received(), lost, hist)
  {
    hide IsField, Wrap, SumOk, AllOk, Uniform, BitSets.Bits, Packets, Continues, RecoveryMatrix.Valid, MissingIn;
    hide RegionLost, Combination, Framed, ListOk, IsEliminated, RegionOk, Agreement, Follow;
    RegionIsReady(sums, d, hist, used);
    SameRecs(d.list, d.region.recoveryCount);
    ghost var missing := LostSet(d);
    sums.SoundMore({}, missing);
    ok, buffers := sums.EliminateUsed(list, used, missing);
    if ok {
      d.LostAscends();
      d.FilledFits(lost, hist);
      FillHoles(sums, |d.removed|, lost, hist, values);
    }
  }

  lemma SameRecs<T>(list: seq<Entry<T>>, n: nat)
    requires n <= |list|
    ensures RegionRecs(list[..n], |list[..n]|) == RegionRecs(list, n)
  {
  }

  /** The recovered packets take their places. */
  method FillHoles<T(==, 0, !new)>(sums: RunningSums<T>, base: nat, lost: seq<nat>, ghost hist: seq<seq<T>>,
      values: seq<seq<T>>)
    requires sums.Sound(Members(lost)) && base == |sums.gone| && |values| == |lost| && Ascending(lost)
    requires forall j :: 0 <= j < |lost| ==>
               && base <= lost[j] < |sums.Received()| && sums.Received()[lost[j]] == []
               && lost[j] < |hist| && values[j] == hist[lost[j]] != []
    modifies sums`window, sums`recoveredColumns, sums`waiting
    ensures sums.Valid() && sums.gone == old(sums.gone) && sums.Received() == Filled(old(sums.Received()), lost, hist)
  {
    hide RunningSums<T>.Sound, RunningSums<T>.Live, RunningSums<T>.Dormant, RunningSums<T>.Shape, Ascending, Members;
    ghost var received := sums.Received();
    assert lost[..|lost|] == lost && lost[0..] == lost && Filled(received, [], hist) == received;
    for j := 0 to |lost|
      invariant sums.gone == old(sums.gone) && sums.Received() == Filled(received, lost[..j], hist)
      invariant sums.Sound(Members(lost[j..]))
    {
      FilledStep(received, lost, j, hist);
      LostRest(lost, j);
      var element := lost[j] - base;
      assert sums.Received()[lost[j]] == sums.window[element];
      sums.Recover(element, values[j], Members(lost[j..]));
      assert sums.Received() == Filled(received, lost[..j + 1], hist);
    }
    assert lost[|lost|..] == [];
    NoMembers();
  }

  lemma NoMembers()
    ensures Members([]) == {}
  {
  }

  lemma LostRest(lost: seq<nat>, j: nat)
    requires j < |lost| && Ascending(lost)
    ensures Members(lost[j..]) - {lost[j]} == Members(lost[j + 1..])
  {
    assert lost[j..] == [lost[j]] + lost[j + 1..];
    assert lost[j] !in lost[j + 1..];
  }

  /** The packet that the sum to keep starts from: that of the first sum row of the list. */
  lemma KeptStart<T(0, !new)>(d: Decoder<T>, k: Keeping) returns (target: nat)
    requires d.Sound() && d.list != [] && k == KeepFrom(d.list, d.lastMeta, d.window.columnStart, d.window.count)
    requires k.ok && k.seenSum
    ensures k.start == Wrap(target) && target < |d.Received()| && d.window.base - target <= MAX_PACKETS
    ensures exists i ::
              0 <= i < |d.list| && IsSumRow(d.list[i]) && target == d.list[i].rec.end - d.list[i].rec.meta.sumCount
  {
    hide IsField, Wrap, AllOk, Uniform, BitSets.Bits, Packets, Kept, SumElement;
    KeptNeeds(d.list, |d.list|, d.window.columnStart, d.window.count);
    var i :| 0 <= i < |d.list| && FirstSum(d.list, i, k);
    assert EntryOk(d.list[i], d.window.base, d.window.nextExpected, d.window.count);
    target := d.list[i].rec.end - d.list[i].rec.meta.sumCount;
  }

  /** What a removal does to the running sums, as long as there are recovery packets: they follow the same sum
      as the decoder, and stand for the packets that leave from then on. */
  method RemoveBeside<T(==, 0, !new)>(sums: RunningSums<T>, d: Decoder<T>, k: Keeping, removed: nat, bytes: nat)
    returns (ok: bool)
    requires d.Sound() && Beside(sums, d) && d.list != []
    requires k == KeepFrom(d.list, d.lastMeta, d.window.columnStart, d.window.count)
    requires d.ThePlan().Drops? && removed == Dropped(d.ThePlan())
    modifies sums, sums.lanes
    ensures ok && sums.Valid() && sums.Received() == d.Received() && |sums.gone| == d.window.base + removed
    ensures sums.Sum() == d.TheSum()
    ensures sums.live ==> sums.limit <= d.NextExpected()
  {
    hide IsField, Wrap, SumOk, AllOk, BitSets.Bits, Packets, Kept, RunningSums<T>.Live, RunningSums<T>.Dormant;
    d.NextIsFirst(0);
    ghost var target := 0;
    if k.seenSum {
      target := KeptStart(d, k);
    }
    forall e | 0 <= e < removed ensures sums.window[e] != [] {
      assert d.Received()[d.window.base + e] == d.window.Contents()[e];
    }
    ok := sums.Roll(k, removed, bytes, target);
  }
}
