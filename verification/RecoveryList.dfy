/** The decoder's list of recovery packets and its record of the part already checked. */
module RecoveryLists {
  import opened Options
  import opened Missing
  import opened Columns
  import opened Recovery
  import opened Rows

  /** A recovery packet in the list, with its place in the window; `id` is its identity. */
  datatype Entry<T> = Entry(id: nat, rec: RecoveryPacket<T>, elementStart: nat, elementEnd: nat, lostCount: nat)

  /** The checked region: the first `recoveryCount` packets of the list. */
  datatype Region = Region(elementStart: nat, firstRecovery: Option<nat>, lastRecovery: Option<nat>,
      nextCheckStart: nat, recoveryCount: nat, lostCount: nat, solveFailed: bool)

  const EMPTY_REGION := Region(0, None, None, 0, 0, 0, false)

  // ----- the list

  /** What the metadata of an encoder says: which columns, and where the light part starts. */
  ghost predicate MetadataOk(meta: Metadata, end: nat) {
    && 1 <= meta.ldpcCount <= meta.sumCount <= MAX_PACKETS && meta.sumCount <= end
    && meta.columnStart == Wrap(end - meta.sumCount)
  }

  /** The packet covers the next expected element, from its light part on. */
  ghost predicate EntryOk<T>(e: Entry<T>, base: nat, next: nat, count: nat) {
    && MetadataOk(e.rec.meta, e.rec.end)
    && base + e.elementEnd == e.rec.end && e.elementStart + e.rec.meta.ldpcCount == e.elementEnd
    && e.elementStart <= next < e.elementEnd <= count
  }

  /** By the end of the range; among those that end together, the later start first. */
  ghost predicate Before<T>(a: Entry<T>, b: Entry<T>) {
    a.elementEnd < b.elementEnd || (a.elementEnd == b.elementEnd && a.rec.meta.sumCount <= b.rec.meta.sumCount)
  }

  ghost predicate Sorted<T>(list: seq<Entry<T>>) {
    forall i, j :: 0 <= i < j < |list| ==> Before(list[i], list[j])
  }

  ghost predicate Distinct<T>(list: seq<Entry<T>>, nextId: nat) {
    && (forall i :: 0 <= i < |list| ==> list[i].id < nextId)
    && (forall i, j :: 0 <= i < j < |list| ==> list[i].id != list[j].id)
  }

  ghost predicate ListOk<T>(list: seq<Entry<T>>, base: nat, next: nat, count: nat, nextId: nat) {
    && (forall i :: 0 <= i < |list| ==> EntryOk(list[i], base, next, count))
    && Sorted(list) && Distinct(list, nextId)
  }

  function Inserted<T>(list: seq<Entry<T>>, k: nat, e: Entry<T>): (r: seq<Entry<T>>)
    requires k <= |list|
    ensures |r| == |list| + 1
    ensures forall i :: 0 <= i < |r| ==> r[i] == if i < k then list[i] else if i == k then e else list[i - 1]
  {
    list[..k] + [e] + list[k..]
  }

  /** Whether the scan from the tail stops at this packet. */
  predicate StopsAt<T>(prev: Entry<T>, e: Entry<T>) {
    || e.elementEnd > prev.elementEnd
    || (e.elementEnd == prev.elementEnd
         && IsColumnDeltaNegative(SubtractColumns(e.rec.meta.columnStart, prev.rec.meta.columnStart)))
  }

  lemma StopOrder<T>(prev: Entry<T>, e: Entry<T>, base: nat, next: nat, count: nat)
    requires EntryOk(prev, base, next, count) && EntryOk(e, base, next, count)
    ensures if StopsAt(prev, e) then Before(prev, e) else Before(e, prev)
  {
    hide Wrap;
    if e.elementEnd == prev.elementEnd {
      SubtractWrapped(e.rec.end - e.rec.meta.sumCount, prev.rec.end - prev.rec.meta.sumCount);
    }
  }

  lemma BeforeTransitive<T>(a: Entry<T>, b: Entry<T>, c: Entry<T>)
    requires Before(a, b) && Before(b, c)
    ensures Before(a, c)
  {
  }

  /** The place of a new packet: behind the first one, from the tail, that the scan stops at. */
  function Place<T>(list: seq<Entry<T>>, e: Entry<T>): (k: nat)
    ensures k <= |list|
  {
    if list == [] || StopsAt(list[|list| - 1], e) then |list| else Place(list[..|list| - 1], e)
  }

  /** Finds the place of a new packet, scanning from the tail. */
  method FindPlace<T>(list: seq<Entry<T>>, e: Entry<T>, ghost base: nat, ghost next: nat, ghost count: nat,
      ghost nextId: nat) returns (k: nat)
    requires ListOk(list, base, next, count, nextId) && EntryOk(e, base, next, count)
    ensures k == Place(list, e) && Sorted(Inserted(list, k, e))
  {
    hide EntryOk;
    k := |list|;
    assert list[..|list|] == list;
    while k > 0 && !StopsAt(list[k - 1], e)
      invariant k <= |list| && Place(list, e) == Place(list[..k], e)
      invariant forall i :: k <= i < |list| ==> Before(e, list[i])
    {
      assert list[..k][..k - 1] == list[..k - 1];
      k := k - 1;
      StopOrder(list[k], e, base, next, count);
    }
    if k > 0 {
      StopOrder(list[k - 1], e, base, next, count);
    }
    hide StopsAt;
    InsertSorted(list, k, e);
  }

  lemma InsertSorted<T>(list: seq<Entry<T>>, k: nat, e: Entry<T>)
    requires Sorted(list) && k <= |list|
    requires k > 0 ==> Before(list[k - 1], e)
    requires forall i :: k <= i < |list| ==> Before(e, list[i])
    ensures Sorted(Inserted(list, k, e))
  {
    hide Before;
    var r := Inserted(list, k, e);
    forall i | 0 <= i < k ensures Before(list[i], e) {
      if i < k - 1 {
        BeforeTransitive(list[i], list[k - 1], e);
      }
    }
    forall i, j | 0 <= i < j < |r| ensures Before(r[i], r[j]) {
    }
  }

  lemma InsertOk<T>(list: seq<Entry<T>>, k: nat, e: Entry<T>, base: nat, next: nat, count: nat, nextId: nat)
    requires ListOk(list, base, next, count, nextId) && EntryOk(e, base, next, count)
    requires k <= |list| && Sorted(Inserted(list, k, e)) && e.id == nextId
    ensures ListOk(Inserted(list, k, e), base, next, count, nextId + 1)
  {
    hide Sorted, EntryOk;
  }

  /** What is left when the packets that end at or before an element are deleted from the front. */
  function LeftAfter<T>(list: seq<Entry<T>>, element: nat): seq<Entry<T>> {
    if list == [] || list[0].elementEnd > element then list else LeftAfter(list[1..], element)
  }

  lemma {:induction false} LeftIsTail<T>(list: seq<Entry<T>>, d: nat, element: nat)
    requires d <= |list| && (forall i :: 0 <= i < d ==> list[i].elementEnd <= element)
    requires d < |list| ==> list[d].elementEnd > element
    ensures LeftAfter(list, element) == list[d..]
    decreases d
  {
    if d > 0 {
      assert list[1..][d - 1..] == list[d..];
      LeftIsTail(list[1..], d - 1, element);
    }
  }

  lemma {:induction false} LeftFrom<T>(list: seq<Entry<T>>, element: nat) returns (d: nat)
    ensures d <= |list| && LeftAfter(list, element) == list[d..]
    ensures d < |list| ==> list[d].elementEnd > element
    ensures forall i :: 0 <= i < d ==> list[i].elementEnd <= element
  {
    d := 0;
    if list != [] && list[0].elementEnd <= element {
      d := LeftFrom(list[1..], element);
      assert list[1..][d..] == list[d + 1..];
      assert forall i :: 1 <= i < d + 1 ==> list[i] == list[1..][i - 1];
      d := d + 1;
    }
  }

  /** Deletes the packets that end at or before an element. */
  method TrimBefore<T>(list: seq<Entry<T>>, element: nat) returns (d: nat)
    ensures d <= |list| && list[d..] == LeftAfter(list, element)
    ensures forall i :: 0 <= i < d ==> list[i].elementEnd <= element
    ensures d < |list| ==> list[d].elementEnd > element
  {
    d := 0;
    while d < |list| && list[d].elementEnd <= element
      invariant d <= |list| && forall i :: 0 <= i < d ==> list[i].elementEnd <= element
    {
      d := d + 1;
    }
    LeftIsTail(list, d, element);
  }

  /** The list is in order again for a later next expected element. */
  lemma TrimOk<T>(list: seq<Entry<T>>, d: nat, base: nat, next: nat, next': nat, count: nat, nextId: nat)
    requires ListOk(list, base, next, count, nextId) && d <= |list| && next <= next'
    requires d < |list| ==> list[d].elementEnd > next'
    ensures ListOk(list[d..], base, next', count, nextId)
  {
    var r := list[d..];
    forall i | 0 <= i < |r| ensures EntryOk(r[i], base, next', count) {
      assert r[i] == list[d + i];
      if i > 0 {
        assert Before(list[d], list[d + i]);
      }
    }
    forall i, j | 0 <= i < j < |r| ensures Before(r[i], r[j]) && r[i].id != r[j].id {
      assert Before(list[d + i], list[d + j]);
    }
  }

  lemma GrowOk<T>(list: seq<Entry<T>>, base: nat, next: nat, count: nat, count': nat, nextId: nat)
    requires ListOk(list, base, next, count, nextId) && count <= count'
    ensures ListOk(list, base, next, count', nextId)
  {
  }

  /** All counters go down by the number of elements removed from the window. */
  function ShiftedEntry<T>(e: Entry<T>, n: nat): Entry<T>
    requires n <= e.elementStart && n <= e.elementEnd
  {
    e.(elementStart := e.elementStart - n, elementEnd := e.elementEnd - n)
  }

  ghost predicate AllFrom<T>(list: seq<Entry<T>>, n: nat) {
    forall i :: 0 <= i < |list| ==> n <= list[i].elementStart <= list[i].elementEnd
  }

  function ShiftedList<T>(list: seq<Entry<T>>, n: nat): (r: seq<Entry<T>>)
    requires forall i :: 0 <= i < |list| ==> n <= list[i].elementStart <= list[i].elementEnd
    ensures |r| == |list| && forall i :: 0 <= i < |list| ==> r[i] == ShiftedEntry(list[i], n)
  {
    seq(|list|, i requires 0 <= i < |list| => ShiftedEntry(list[i], n))
  }

  lemma ShiftOk<T>(list: seq<Entry<T>>, n: nat, base: nat, next: nat, count: nat, nextId: nat)
    requires ListOk(list, base, next, count, nextId) && n <= next <= count && AllFrom(list, n)
    ensures ListOk(ShiftedList(list, n), base + n, next - n, count - n, nextId)
  {
    var r := ShiftedList(list, n);
    forall i | 0 <= i < |r| ensures EntryOk(r[i], base + n, next - n, count - n) {
      assert EntryOk(list[i], base, next, count);
    }
    forall i, j | 0 <= i < j < |r| ensures Before(r[i], r[j]) && r[i].id != r[j].id {
      assert Before(list[i], list[j]);
    }
  }

  // ----- the checked region

  ghost predicate CountOk<T>(e: Entry<T>, start: nat, got: seq<bool>) {
    e.elementEnd <= |got| && e.lostCount == |MissingIn(got, start, e.elementEnd)|
  }

  /** An empty region, or one that starts at the head of the list, with exact counts. */
  ghost predicate RegionOk<T>(region: Region, list: seq<Entry<T>>, got: seq<bool>) {
    if region.lastRecovery.None? then region == EMPTY_REGION
    else
      && 0 < region.recoveryCount <= |list|
      && region.firstRecovery == Some(list[0].id) && region.elementStart == list[0].elementStart
      && region.lastRecovery == Some(list[region.recoveryCount - 1].id)
      && region.nextCheckStart == list[region.recoveryCount - 1].elementEnd <= |got|
      && region.lostCount == |MissingIn(got, region.elementStart, region.nextCheckStart)|
      && forall i :: 0 <= i < region.recoveryCount ==> CountOk(list[i], region.elementStart, got)
  }

  /** A packet received outside the region, and elements added past its end, leave it as it was. */
  lemma RegionKept<T>(region: Region, list: seq<Entry<T>>, list': seq<Entry<T>>, got: seq<bool>, got': seq<bool>)
    requires RegionOk(region, list, got) && Sorted(list) && region.recoveryCount <= |list'| && |got| <= |got'|
    requires forall i :: 0 <= i < region.recoveryCount <= |list| ==> list'[i] == list[i]
    requires forall e :: region.elementStart <= e < region.nextCheckStart && e < |got| ==> got'[e] == got[e]
    ensures RegionOk(region, list', got')
  {
    RegionEnds(region, list, got);
    if region.lastRecovery.Some? {
      MissingSame(got, got', region.elementStart, region.nextCheckStart);
      forall i | 0 <= i < region.recoveryCount ensures CountOk(list'[i], region.elementStart, got') {
        assert CountOk(list[i], region.elementStart, got);
        MissingSame(got, got', region.elementStart, list[i].elementEnd);
      }
    }
  }

  lemma RegionEnd<T>(region: Region, list: seq<Entry<T>>, got: seq<bool>)
    requires RegionOk(region, list, got)
    ensures region.nextCheckStart <= |got|
    ensures region.lastRecovery.None? ==> region == EMPTY_REGION
  {
  }

  lemma RegionShape<T>(region: Region, list: seq<Entry<T>>, got: seq<bool>)
    requires RegionOk(region, list, got)
    ensures region.lastRecovery.Some? ==> 0 < region.recoveryCount <= |list|
  {
  }

  /** The packets of the region end within it. */
  lemma RegionEnds<T>(region: Region, list: seq<Entry<T>>, got: seq<bool>)
    requires RegionOk(region, list, got) && Sorted(list)
    ensures region.lastRecovery.Some? ==>
              forall i :: 0 <= i < region.recoveryCount <= |list| ==> list[i].elementEnd <= region.nextCheckStart
  {
    if region.lastRecovery.Some? {
      forall i | 0 <= i < region.recoveryCount ensures list[i].elementEnd <= region.nextCheckStart {
        if i < region.recoveryCount - 1 {
          assert Before(list[i], list[region.recoveryCount - 1]);
        }
      }
    }
  }

  /** A region covers the next expected element, so a packet that moves it on falls in the region. */
  lemma RegionCoversNext<T>(region: Region, list: seq<Entry<T>>, got: seq<bool>, base: nat, next: nat, nextId: nat)
    requires RegionOk(region, list, got) && ListOk(list, base, next, |got|, nextId)
    ensures region.lastRecovery.Some? ==>
              region.elementStart <= next < region.nextCheckStart && 0 < region.recoveryCount <= |list|
    ensures region.lastRecovery.None? ==> region == EMPTY_REGION
  {
    RegionEnds(region, list, got);
    if region.lastRecovery.Some? {
      assert EntryOk(list[0], base, next, |got|);
    }
  }

  lemma RegionShift<T>(region: Region, list: seq<Entry<T>>, got: seq<bool>, n: nat)
    requires RegionOk(region, list, got) && AllFrom(list, n) && n <= |got| && Sorted(list)
    ensures region.lastRecovery.Some? ==>
              && n <= region.elementStart && n <= region.nextCheckStart
              && RegionOk(region.(elementStart := region.elementStart - n, nextCheckStart := region.nextCheckStart - n),
                   ShiftedList(list, n), got[n..])
  {
    if region.lastRecovery.Some? {
      var got' := got[n..];
      var start := region.elementStart - n;
      MissingShift(got, got', n, start, region.nextCheckStart - n);
      forall i | 0 <= i < region.recoveryCount ensures CountOk(ShiftedList(list, n)[i], start, got') {
        assert CountOk(list[i], region.elementStart, got);
        MissingShift(got, got', n, start, list[i].elementEnd - n);
      }
    }
  }

  /** Taking the next packet of the list into the region. */
  lemma RegionStep<T>(list: seq<Entry<T>>, got: seq<bool>, start: nat, k: nat, lost: nat)
    requires 0 < k < |list| && Sorted(list) && start <= list[0].elementEnd
    requires list[k].elementEnd <= |got| && lost == |MissingIn(got, start, list[k - 1].elementEnd)|
    ensures list[k - 1].elementEnd <= list[k].elementEnd
    ensures lost + |MissingIn(got, list[k - 1].elementEnd, list[k].elementEnd)|
            == |MissingIn(got, start, list[k].elementEnd)|
  {
    assert Before(list[k - 1], list[k]);
    if k > 1 {
      assert Before(list[0], list[k - 1]);
    }
    MissingSplit(got, start, list[k - 1].elementEnd, list[k].elementEnd);
  }

  // ----- the linear system of a region

  ghost function RegionRecs<T>(list: seq<Entry<T>>, n: nat): (r: seq<RecoveryPacket<T>>)
    ensures |r| == if n <= |list| then n else 0
    ensures forall i :: 0 <= i < |r| ==> r[i] == list[i].rec
  {
    if n <= |list| then seq(n, i requires 0 <= i < n => list[i].rec) else []
  }

  ghost function RegionCounts<T>(list: seq<Entry<T>>, n: nat): (r: seq<nat>)
    ensures |r| == if n <= |list| then n else 0
    ensures forall i :: 0 <= i < |r| ==> r[i] == list[i].lostCount
  {
    if n <= |list| then seq(n, i requires 0 <= i < n => list[i].lostCount) else []
  }

  /** The true numbers of the packets that the region is missing. */
  ghost function RegionLost(region: Region, got: seq<bool>, base: nat): seq<nat> {
    if region.nextCheckStart <= |got| then Shifted(MissingIn(got, region.elementStart, region.nextCheckStart), base)
    else []
  }

  lemma LostKept<T>(region: Region, list: seq<Entry<T>>, got: seq<bool>, got': seq<bool>, base: nat)
    requires RegionOk(region, list, got) && |got| <= |got'|
    requires forall e :: region.elementStart <= e < region.nextCheckStart && e < |got| ==> got'[e] == got[e]
    ensures RegionLost(region, got', base) == RegionLost(region, got, base)
  {
    if region.nextCheckStart <= |got| {
      MissingSame(got, got', region.elementStart, region.nextCheckStart);
    }
  }

  lemma LostShift(region: Region, got: seq<bool>, base: nat, n: nat)
    requires n <= region.elementStart && n <= region.nextCheckStart <= |got|
    ensures RegionLost(region.(elementStart := region.elementStart - n, nextCheckStart := region.nextCheckStart - n),
              got[n..], base + n)
         == RegionLost(region, got, base)
  {
    hide MissingIn, Shifted;
    var start, end := region.elementStart - n, region.nextCheckStart - n;
    MissingShift(got, got[n..], n, start, end);
    ShiftTwice(MissingIn(got[n..], start, end), n, base);
  }

  lemma ShiftTwice(m: seq<nat>, n: nat, k: nat)
    ensures Shifted(Shifted(m, n), k) == Shifted(m, k + n)
  {
  }

  /** The lost packets of a larger region: those of the smaller one, then only later ones. */
  lemma LostLarger(region0: Region, region: Region, got: seq<bool>, base: nat)
    requires region0.elementStart == region.elementStart <= region0.nextCheckStart <= region.nextCheckStart <= |got|
    ensures RegionLost(region0, got, base) <= RegionLost(region, got, base)
    ensures forall j :: |RegionLost(region0, got, base)| <= j < |RegionLost(region, got, base)| ==>
              base + region0.nextCheckStart <= RegionLost(region, got, base)[j]
  {
    hide MissingIn;
    MissingSplit(got, region0.elementStart, region0.nextCheckStart, region.nextCheckStart);
    var early := MissingIn(got, region0.elementStart, region0.nextCheckStart);
    var late := MissingIn(got, region0.nextCheckStart, region.nextCheckStart);
    assert Shifted(early + late, base) == Shifted(early, base) + Shifted(late, base);
  }

  lemma RowsLarger<T>(list0: seq<Entry<T>>, k: nat, list: seq<Entry<T>>, n: nat)
    requires k <= n <= |list| && k <= |list0| && forall i :: 0 <= i < k ==> list[i] == list0[i]
    ensures RegionRecs(list0, k) <= RegionRecs(list, n) && RegionCounts(list0, k) <= RegionCounts(list, n)
  {
  }

  /** What a lost packet of a region is. */
  lemma LostMember(region: Region, got: seq<bool>, base: nat, j: nat)
    requires region.nextCheckStart <= |got| && j < |RegionLost(region, got, base)|
    ensures var n := RegionLost(region, got, base)[j];
            base + region.elementStart <= n < base + region.nextCheckStart && !got[n - base]
  {
    var m := MissingIn(got, region.elementStart, region.nextCheckStart);
    assert RegionLost(region, got, base)[j] == m[j] + base;
    assert region.elementStart <= m[j] < region.nextCheckStart;
  }
}
