/** Recovery packets that arrive in the order in which one encoder emitted them, any of them lost: what the
    decoder gives up is never something that they still refer to, and it never disables itself. */
module InOrderRuns {
  import opened Options
  import opened Missing
  import opened Columns
  import opened Recovery
  import opened Rows
  import opened Emissions
  import opened RecoveryLists
  import opened Removals
  import opened Fields
  import opened Decoding
  import opened BitSets
  import opened DecoderWindows
  import opened Decoders

  // ----- the list, the last metadata and the running sum

  /** What a sum row needs is there: its first packet is in the window, or it goes on with the running sum. */
  predicate Fits(meta: Metadata, end: int, base: nat, sum: Running) {
    meta.sumCount > CAUCHY_THRESHOLD ==>
      base <= end - meta.sumCount || (sum.start == meta.columnStart && sum.count <= meta.sumCount)
  }

  /** Two sum rows start together, or the one further back in the list starts at or past the light part of
      the other. */
  predicate Agree<T>(a: RecoveryPacket<T>, b: RecoveryPacket<T>) {
    a.meta.sumCount > CAUCHY_THRESHOLD && b.meta.sumCount > CAUCHY_THRESHOLD ==>
      a.end - a.meta.sumCount == b.end - b.meta.sumCount || a.end - a.meta.ldpcCount <= b.end - b.meta.sumCount
  }

  ghost predicate RowFits<T>(e: Entry<T>, last: Metadata, lastEnd: nat, sum: Running, base: nat) {
    && Fits(e.rec.meta, e.rec.end, base, sum) && Follows(e.rec.meta, e.rec.end, last, lastEnd)
    && e.rec.meta.sumCount < MAX_PACKETS
  }

  /** The last metadata is that of a row of the list, if there are any, and everything that it or a row of
      the list needs is there. */
  ghost predicate Aligned<T>(list: seq<Entry<T>>, last: Metadata, lastEnd: nat, sum: Running, base: nat) {
    && (list != [] ==> exists i :: 0 <= i < |list| && IsLast(list[i], last, lastEnd))
    && (forall i :: 0 <= i < |list| ==> RowFits(list[i], last, lastEnd, sum, base))
    && (forall i, j :: 0 <= i < j < |list| ==> Agree(list[i].rec, list[j].rec))
    && LastFits(last, lastEnd, sum, base)
  }

  ghost predicate IsLast<T>(e: Entry<T>, last: Metadata, lastEnd: nat) { e.rec.meta == last && e.rec.end == lastEnd }

  ghost predicate LastFits(last: Metadata, lastEnd: nat, sum: Running, base: nat) {
    if last.ldpcCount == 0 then base == 0 && last == Metadata(0, 0, 0, 0) && lastEnd == 0
    else
      && MetadataOk(last, lastEnd) && base <= lastEnd - last.ldpcCount && lastEnd - base < HALF
      && Fits(last, lastEnd, base, sum)
  }

  // ----- removing elements

  lemma StartInColumns<T>(e: Entry<T>, base: nat, next: nat, count: nat)
    requires EntryOk(e, base, next, count) && count <= HALF
    ensures var start := e.rec.end - e.rec.meta.sumCount;
            && (base <= start ==> SubtractColumns(e.rec.meta.columnStart, Wrap(base)) == start - base < count)
  {
    hide Wrap;
    SubtractWrapped(e.rec.end - e.rec.meta.sumCount, base);
  }

  /** A sum row that differs from the first one starts in the window. */
  lemma DifferingStarts<T>(list: seq<Entry<T>>, f: nat, j: nat, base: nat, next: nat, count: nat)
    requires f < j < |list| && EntryOk(list[f], base, next, count) && EntryOk(list[j], base, next, count)
    requires Before(list[f], list[j]) && Agree(list[f].rec, list[j].rec) && list[f].rec.meta.sumCount > 64
    requires Differs(list, f, j)
    ensures base <= list[j].rec.end - list[j].rec.meta.sumCount
  {
    hide Wrap;
  }

  lemma ListNeverDisables<T>(list: seq<Entry<T>>, last: Metadata, lastEnd: nat, sum: Running, base: nat, next: nat,
      count: nat, id: nat)
    requires list != [] && ListOk(list, base, next, count, id) && Aligned(list, last, lastEnd, sum, base)
             && count <= HALF
    ensures StartsAreThere(list, |list|, Wrap(base), count) && FirstGoesOn(list, sum, Wrap(base), count)
    ensures !Plan(list, last, sum, next, Wrap(base), count).Disables?
  {
    hide Wrap, SubtractColumns, Follows, LastFits, Plan;
    var f := FirstOver(list, |list|);
    forall j | f < j < |list| && Differs(list, f, j) ensures StartOf(list, j, Wrap(base)) < count {
      DifferingStarts(list, f, j, base, next, count);
      StartInColumns(list[j], base, next, count);
    }
    if f < |list| {
      assert RowFits(list[f], last, lastEnd, sum, base);
      StartInColumns(list[f], base, next, count);
    }
    PlanIff(list, last, sum, next, Wrap(base), count);
  }

  /** After a removal everything is still there. */
  lemma ListStaysAligned<T>(list: seq<Entry<T>>, last: Metadata, lastEnd: nat, sum: Running, base: nat, next: nat,
      count: nat, id: nat)
    requires list != [] && ListOk(list, base, next, count, id) && Aligned(list, last, lastEnd, sum, base)
             && count <= HALF
    ensures var plan := Plan(list, last, sum, next, Wrap(base), count);
            Aligned(list, last, lastEnd, SumLeft(list, last, sum, next, Wrap(base), count), base + Dropped(plan))
  {
    hide Wrap, SubtractColumns, Follows, Plan;
    var plan := Plan(list, last, sum, next, Wrap(base), count);
    if plan.Drops? {
      hide SumLeft, RowFits, Agree, Fits;
      var sum', base' := SumLeft(list, last, sum, next, Wrap(base), count), base + Dropped(plan);
      forall i | 0 <= i < |list| ensures RowFits(list[i], last, lastEnd, sum', base') {
        RowStays(list, last, lastEnd, sum, base, next, count, id, i);
      }
      var l :| 0 <= l < |list| && IsLast(list[l], last, lastEnd);
      LastStays(list, last, lastEnd, sum, base, next, count, id, l);
    }
  }

  lemma RowStays<T>(list: seq<Entry<T>>, last: Metadata, lastEnd: nat, sum: Running, base: nat, next: nat,
      count: nat, id: nat, i: nat)
    requires ListOk(list, base, next, count, id) && Aligned(list, last, lastEnd, sum, base) && count <= HALF
    requires Plan(list, last, sum, next, Wrap(base), count).Drops? && i < |list|
    ensures var plan := Plan(list, last, sum, next, Wrap(base), count);
            RowFits(list[i], last, lastEnd, SumLeft(list, last, sum, next, Wrap(base), count), base + Dropped(plan))
  {
    hide Wrap, SubtractColumns, Follows, Plan, SumLeft;
    PlanIff(list, last, sum, next, Wrap(base), count);
    SumLeftIff(list, last, sum, next, Wrap(base), count);
    var f := FirstOver(list, |list|);
    assert EntryOk(list[i], base, next, count);
    StartInColumns(list[i], base, next, count);
    if f < i && Differs(list, f, i) {
      DifferingStarts(list, f, i, base, next, count);
    }
  }

  lemma LastStays<T>(list: seq<Entry<T>>, last: Metadata, lastEnd: nat, sum: Running, base: nat, next: nat,
      count: nat, id: nat, l: nat)
    requires ListOk(list, base, next, count, id) && Aligned(list, last, lastEnd, sum, base) && count <= HALF
    requires Plan(list, last, sum, next, Wrap(base), count).Drops? && l < |list| && IsLast(list[l], last, lastEnd)
    ensures var plan := Plan(list, last, sum, next, Wrap(base), count);
            LastFits(last, lastEnd, SumLeft(list, last, sum, next, Wrap(base), count), base + Dropped(plan))
  {
    hide Wrap, SubtractColumns, Follows, Plan, SumLeft;
    RowStays(list, last, lastEnd, sum, base, next, count, id, l);
    PlanIff(list, last, sum, next, Wrap(base), count);
    assert EntryOk(list[l], base, next, count);
  }

  /** Without a list, the last metadata is safe to go by. */
  lemma LastNeverDisables<T>(last: Metadata, lastEnd: nat, sum: Running, base: nat, next: nat, count: nat)
    requires LastFits(last, lastEnd, sum, base) && lastEnd <= base + count && count <= HALF
    ensures var plan := Plan<T>([], last, sum, next, Wrap(base), count);
            && !plan.Disables?
            && LastFits(last, lastEnd, SumLeft<T>([], last, sum, next, Wrap(base), count), base + Dropped(plan))
  {
    hide Wrap, SubtractColumns, Plan, EndElement;
    FallbackIff<T>(last, sum, next, Wrap(base), count);
    if last.ldpcCount == 0 {
      WrapSmall(0);
      EmptyEnd(last);
    } else {
      FallbackByAge(last, lastEnd, base);
      SubtractWrapped(lastEnd - last.sumCount, base);
    }
  }

  lemma EmptyEnd(last: Metadata)
    requires last == Metadata(0, 0, 0, 0)
    ensures EndElement(last, Wrap(0)) == 0
  {
  }

  // ----- packets that arrive

  /** Only the packets matter, not their places in the window. */
  lemma SameAligned<T>(list: seq<Entry<T>>, list': seq<Entry<T>>, last: Metadata, lastEnd: nat, sum: Running, base: nat)
    requires Aligned(list, last, lastEnd, sum, base) && SamePackets(list, list')
    ensures Aligned(list', last, lastEnd, sum, base)
  {
    hide Follows, Fits, Agree;
    if list' != [] {
      var i :| 0 <= i < |list| && IsLast(list[i], last, lastEnd);
      assert IsLast(list'[i], last, lastEnd);
    }
    forall i | 0 <= i < |list'| ensures RowFits(list'[i], last, lastEnd, sum, base) {
      assert RowFits(list[i], last, lastEnd, sum, base);
    }
  }

  /** A row joins: it comes last, but behind or before the rows that end together with it. */
  lemma JoinedIsAligned<T>(list: seq<Entry<T>>, id: nat, base: nat, next: nat, count: nat, nextId: nat,
      rec: RecoveryPacket<T>, last: Metadata, lastEnd: nat, sum: Running)
    requires ListOk(list, base, next, count, nextId) && Aligned(list, last, lastEnd, sum, base)
    requires MetadataOk(rec.meta, rec.end) && base + rec.meta.ldpcCount <= rec.end < base + HALF
    requires last.ldpcCount > 0 ==> Follows(last, lastEnd, rec.meta, rec.end)
    requires forall i :: 0 <= i < |list| ==>
               Follows(list[i].rec.meta, list[i].rec.end, rec.meta, rec.end)
    requires rec.meta.sumCount < MAX_PACKETS
    ensures Aligned(JoinedList(list, id, base, rec), rec.meta, rec.end, sum, base)
  {
    hide Wrap, ListOk, LastFits, Follows, Agree, RowFits, Place, Fits;
    NewFits(rec, last, lastEnd, sum, base);
    var e := Entry(id, rec, rec.end - base - rec.meta.ldpcCount, rec.end - base, 0);
    var k, list' := Place(list, e), JoinedList(list, id, base, rec);
    assert IsLast(list'[k], rec.meta, rec.end);
    JoinedRowsFit(list, k, e, last, lastEnd, sum, base);
    JoinedRowsAgree(list, k, e, base, next, count, nextId, last, lastEnd, sum);
    LastIsJoined(rec, base, sum);
  }

  /** What a new row needs is there. */
  lemma NewFits<T>(rec: RecoveryPacket<T>, last: Metadata, lastEnd: nat, sum: Running, base: nat)
    requires LastFits(last, lastEnd, sum, base) && MetadataOk(rec.meta, rec.end)
    requires last.ldpcCount > 0 ==> Follows(last, lastEnd, rec.meta, rec.end)
    ensures Fits(rec.meta, rec.end, base, sum)
  {
    hide Wrap;
  }

  lemma LastIsJoined<T>(rec: RecoveryPacket<T>, base: nat, sum: Running)
    requires MetadataOk(rec.meta, rec.end) && base + rec.meta.ldpcCount <= rec.end < base + HALF
    requires Fits(rec.meta, rec.end, base, sum)
    ensures LastFits(rec.meta, rec.end, sum, base)
  {
  }

  lemma JoinedRowsFit<T>(list: seq<Entry<T>>, k: nat, e: Entry<T>, last: Metadata, lastEnd: nat, sum: Running,
      base: nat)
    requires k <= |list| && Fits(e.rec.meta, e.rec.end, base, sum) && e.rec.meta.ldpcCount <= e.rec.end
    requires e.rec.meta.sumCount < MAX_PACKETS
    requires forall i :: 0 <= i < |list| ==> RowFits(list[i], last, lastEnd, sum, base)
    requires forall i :: 0 <= i < |list| ==> Follows(list[i].rec.meta, list[i].rec.end, e.rec.meta, e.rec.end)
    ensures var list' := Inserted(list, k, e);
            forall i :: 0 <= i < |list'| ==> RowFits(list'[i], e.rec.meta, e.rec.end, sum, base)
  {
    hide Fits;
    var list' := Inserted(list, k, e);
    forall i | 0 <= i < |list'| ensures RowFits(list'[i], e.rec.meta, e.rec.end, sum, base) {
      if i != k {
        var l := if i < k then i else i - 1;
        assert list'[i] == list[l] && RowFits(list[l], last, lastEnd, sum, base);
      }
    }
  }

  lemma JoinedRowsAgree<T>(list: seq<Entry<T>>, k: nat, e: Entry<T>, base: nat, next: nat, count: nat, nextId: nat,
      last: Metadata, lastEnd: nat, sum: Running)
    requires ListOk(list, base, next, count, nextId) && k == Place(list, e) && base + e.elementEnd == e.rec.end
    requires forall i, j :: 0 <= i < j < |list| ==> Agree(list[i].rec, list[j].rec)
    requires forall i :: 0 <= i < |list| ==>
               Follows(list[i].rec.meta, list[i].rec.end, e.rec.meta, e.rec.end)
    requires forall i :: 0 <= i < |list| ==> RowFits(list[i], last, lastEnd, sum, base)
    ensures var list' := Inserted(list, k, e);
            forall i, j :: 0 <= i < j < |list'| ==> Agree(list'[i].rec, list'[j].rec)
  {
    hide StopsAt;
    PlacedBefore(list, e);
    var list' := Inserted(list, k, e);
    forall i, j | 0 <= i < j < |list'| ensures Agree(list'[i].rec, list'[j].rec) {
      if i != k && j != k {
        var a, b := if i < k then i else i - 1, if j < k then j else j - 1;
        assert Agree(list[a].rec, list[b].rec);
      } else if i == k {
        assert EntryOk(list[j - 1], base, next, count) && RowFits(list[j - 1], last, lastEnd, sum, base);
      }
    }
  }

  /** The rows behind the place of a packet do not end before it. */
  lemma {:induction false} PlacedBefore<T>(list: seq<Entry<T>>, e: Entry<T>)
    ensures forall i :: Place(list, e) <= i < |list| ==> e.elementEnd <= list[i].elementEnd
  {
    if list != [] && !StopsAt(list[|list| - 1], e) {
      PlacedBefore(list[..|list| - 1], e);
    }
  }

  /** Rows that are no longer needed leave the front; the last row is among those left. */
  lemma TrimmedIsAligned<T>(list: seq<Entry<T>>, element: nat, base: nat, next: nat, count: nat, nextId: nat,
      last: Metadata, lastEnd: nat, sum: Running)
    requires ListOk(list, base, next, count, nextId) && Aligned(list, last, lastEnd, sum, base)
    ensures Aligned(LeftAfter(list, element), last, lastEnd, sum, base)
  {
    hide Follows, Fits, Agree, LeftAfter, MetadataOk;
    var d := LeftFrom(list, element);
    var list' := list[d..];
    forall i | 0 <= i < |list'| ensures RowFits(list'[i], last, lastEnd, sum, base) {
      assert RowFits(list[d + i], last, lastEnd, sum, base);
    }
    forall i, j | 0 <= i < j < |list'| ensures Agree(list'[i].rec, list'[j].rec) {
      assert Agree(list[d + i].rec, list[d + j].rec);
    }
    if list' != [] {
      var l :| 0 <= l < |list| && IsLast(list[l], last, lastEnd);
      LastIsLeft(list, element, d, l, base, next, count, nextId, last, lastEnd, sum);
    }
  }

  lemma LastIsLeft<T>(list: seq<Entry<T>>, element: nat, d: nat, l: nat, base: nat, next: nat, count: nat, nextId: nat,
      last: Metadata, lastEnd: nat, sum: Running)
    requires ListOk(list, base, next, count, nextId) && Aligned(list, last, lastEnd, sum, base)
    requires d < |list| && l < |list| && IsLast(list[l], last, lastEnd) && list[d].elementEnd > element
    requires forall i :: 0 <= i < d ==> list[i].elementEnd <= element
    ensures exists i :: 0 <= i < |list[d..]| && IsLast(list[d..][i], last, lastEnd)
  {
    assert EntryOk(list[l], base, next, count) && EntryOk(list[d], base, next, count);
    assert RowFits(list[d], last, lastEnd, sum, base);
    assert list[d..][l - d] == list[l];
  }

  // ----- an attempt to decode

  /** The sum is the one that was running or that of one of the first k rows. */
  ghost predicate IsSumOf<T>(list: seq<Entry<T>>, k: nat, sum: Running, s: Running) {
    s == sum || exists u :: 0 <= u < k && u < |list| && IsSumAt(list[u], s)
  }

  ghost predicate IsSumAt<T>(e: Entry<T>, s: Running) {
    e.rec.meta.sumCount > CAUCHY_THRESHOLD && s == Running(e.rec.meta.columnStart, e.rec.meta.sumCount)
  }

  /** The rows further back in the list fit the sum of any row before them. */
  lemma LaterFits<T>(list: seq<Entry<T>>, k: nat, i: nat, s: Running, last: Metadata, lastEnd: nat, sum: Running,
      base: nat, next: nat, count: nat, nextId: nat)
    requires ListOk(list, base, next, count, nextId) && Aligned(list, last, lastEnd, sum, base)
    requires IsSumOf(list, k, sum, s) && k <= i < |list|
    ensures Fits(list[i].rec.meta, list[i].rec.end, base, s)
  {
    hide Follows, Wrap;
    assert RowFits(list[i], last, lastEnd, sum, base) && EntryOk(list[i], base, next, count);
    if s != sum {
      var u :| 0 <= u < k && u < |list| && IsSumAt(list[u], s);
      assert EntryOk(list[u], base, next, count) && Before(list[u], list[i]) && Agree(list[u].rec, list[i].rec);
    }
  }

  lemma LastStillFits<T>(list: seq<Entry<T>>, k: nat, s: Running, last: Metadata, lastEnd: nat, sum: Running,
      base: nat, next: nat, count: nat, nextId: nat)
    requires ListOk(list, base, next, count, nextId) && Aligned(list, last, lastEnd, sum, base)
    requires IsSumOf(list, k, sum, s)
    ensures LastFits(last, lastEnd, s, base)
  {
    hide Wrap;
    if s != sum {
      var u :| 0 <= u < k && u < |list| && IsSumAt(list[u], s);
      assert EntryOk(list[u], base, next, count) && RowFits(list[u], last, lastEnd, sum, base);
    }
  }

  /** The sums of the rows that a solution uses can always be followed. */
  lemma {:induction false} SumsCanBeFollowed<T>(list: seq<Entry<T>>, n: nat, used: seq<bool>, k: nat, last: Metadata,
      lastEnd: nat, sum: Running, base: nat, next: nat, count: nat, nextId: nat)
    requires ListOk(list, base, next, count, nextId) && Aligned(list, last, lastEnd, sum, base) && count <= HALF
    requires k <= n <= |list| && |used| == n
    ensures var f := Follow(RegionRecs(list, n), used, k, sum, Wrap(base), count);
            f.Some? && IsSumOf(list, k, sum, f.value)
  {
    hide ListOk, Aligned, Wrap, SubtractColumns;
    if k > 0 {
      SumsCanBeFollowed(list, n, used, k - 1, last, lastEnd, sum, base, next, count, nextId);
      var s := Follow(RegionRecs(list, n), used, k - 1, sum, Wrap(base), count).value;
      LaterFits(list, k - 1, k - 1, s, last, lastEnd, sum, base, next, count, nextId);
      EntryAt(list, k - 1, base, next, count, nextId);
      StartInColumns(list[k - 1], base, next, count);
      if used[k - 1] && list[k - 1].rec.meta.sumCount > CAUCHY_THRESHOLD {
        assert IsSumAt(list[k - 1], Running(list[k - 1].rec.meta.columnStart, list[k - 1].rec.meta.sumCount));
      } else if s != sum {
        var u :| 0 <= u < k - 1 && u < |list| && IsSumAt(list[u], s);
        assert u < k;
      }
    }
  }

  lemma EntryAt<T>(list: seq<Entry<T>>, i: nat, base: nat, next: nat, count: nat, nextId: nat)
    requires ListOk(list, base, next, count, nextId) && i < |list|
    ensures EntryOk(list[i], base, next, count)
  {
  }

  /** What is left when a region has been filled fits the sum that has been followed. */
  lemma LeftIsAligned<T>(list: seq<Entry<T>>, n: nat, s: Running, element: nat, last: Metadata, lastEnd: nat,
      sum: Running, base: nat, next: nat, count: nat, nextId: nat)
    requires ListOk(list, base, next, count, nextId) && Aligned(list, last, lastEnd, sum, base)
    requires IsSumOf(list, n, sum, s) && n <= |list| && next <= element
    requires forall i :: 0 <= i < n ==> list[i].elementEnd <= element
    ensures Aligned(LeftAfter(list, element), last, lastEnd, s, base)
    ensures ListOk(LeftAfter(list, element), base, element, count, nextId)
  {
    hide Follows, Fits, Agree, LeftAfter, MetadataOk, LastFits, IsSumOf, ListOk;
    TrimmedIsAligned(list, element, base, next, count, nextId, last, lastEnd, sum);
    var d := LeftFrom(list, element);
    TrimOk(list, d, base, next, element, count, nextId);
    var list' := list[d..];
    forall i | 0 <= i < |list'| ensures RowFits(list'[i], last, lastEnd, s, base) {
      assert RowFits(list[d + i], last, lastEnd, sum, base);
      LaterFits(list, n, d + i, s, last, lastEnd, sum, base, next, count, nextId);
    }
    LastStillFits(list, n, s, last, lastEnd, sum, base, next, count, nextId);
  }

  /** An attempt to decode never loses a sum and never disables the decoder, and leaves everything in place. */
  lemma OutcomeIsAligned<T(!new)>(code: Code<T>, list: seq<Entry<T>>, region: Region, used: seq<bool>, got: seq<bool>,
      last: Metadata, lastEnd: nat, sum: Running, base: nat, next: nat, nextId: nat)
    requires ListOk(list, base, next, |got|, nextId) && Aligned(list, last, lastEnd, sum, base) && |got| <= HALF
    requires RegionOk(region, list, got) && region.lastRecovery.Some? && |used| == region.recoveryCount
    requires lastEnd <= base + |got| && next <= region.nextCheckStart
    ensures region.recoveryCount <= |list| && region.nextCheckStart <= |got|
    ensures var o := OutcomeOf(code, list, region, used, got, base, last, sum);
            && !o.SumLost? && o != Solved(Disables)
            && (o.Solved? ==>
                  var left := TrialLeft(Trial(list, region, true, used), got, base, last, sum);
                  Aligned(left.list, last, lastEnd, left.sum, base + Dropped(o.removal)))
  {
    hide Determined, Plan, SumLeft, Follow, NextMissing, LeftAfter, Aligned, Wrap, IsSumOf, CountOk, MissingIn;
    RegionEnds(region, list, got);
    var n := region.recoveryCount;
    SumsCanBeFollowed(list, n, used, n, last, lastEnd, sum, base, next, |got|, nextId);
    var s := Follow(RegionRecs(list, n), used, n, sum, Wrap(base), |got|).value;
    var element := NextMissing(got, region.nextCheckStart);
    LeftIsAligned(list, n, s, element, last, lastEnd, sum, base, next, |got|, nextId);
    PlanIsAligned(LeftAfter(list, element), last, lastEnd, s, base, element, |got|, nextId);
  }

  /** The removal that follows. */
  lemma PlanIsAligned<T>(list: seq<Entry<T>>, last: Metadata, lastEnd: nat, sum: Running, base: nat, next: nat,
      count: nat, id: nat)
    requires ListOk(list, base, next, count, id) && Aligned(list, last, lastEnd, sum, base) && count <= HALF
    requires lastEnd <= base + count
    ensures var plan := Plan(list, last, sum, next, Wrap(base), count);
            && !plan.Disables?
            && Aligned(list, last, lastEnd, SumLeft(list, last, sum, next, Wrap(base), count), base + Dropped(plan))
  {
    hide ListOk, Wrap, Plan, SumLeft, LastFits;
    if list == [] {
      LastNeverDisables<T>(last, lastEnd, sum, base, next, count);
    } else {
      ListNeverDisables(list, last, lastEnd, sum, base, next, count, id);
      ListStaysAligned(list, last, lastEnd, sum, base, next, count, id);
    }
  }

  // ----- a packet that arrives

  lemma {:induction false} PlaceStops<T>(list: seq<Entry<T>>, e: Entry<T>)
    ensures var k := Place(list, e);
            && (k > 0 ==> StopsAt(list[k - 1], e))
            && forall i :: k <= i < |list| ==> !StopsAt(list[i], e)
  {
    if list != [] && !StopsAt(list[|list| - 1], e) {
      PlaceStops(list[..|list| - 1], e);
    }
  }

  lemma PlacedOk<T>(list: seq<Entry<T>>, e: Entry<T>, base: nat, next: nat, count: nat)
    requires ListOk(list, base, next, count, e.id) && EntryOk(e, base, next, count)
    ensures ListOk(Inserted(list, Place(list, e), e), base, next, count, e.id + 1)
  {
    hide StopsAt, EntryOk, Before;
    var k := Place(list, e);
    PlaceStops(list, e);
    forall i | 0 <= i < |list| ensures if StopsAt(list[i], e) then Before(list[i], e) else Before(e, list[i]) {
      StopOrder(list[i], e, base, next, count);
    }
    InsertSorted(list, k, e);
    InsertOk(list, k, e, base, next, count, e.id);
  }

  /** A packet that follows everything that the decoder holds and remembers. */
  ghost predicate Comes<T>(list: seq<Entry<T>>, last: Metadata, lastEnd: nat, rec: RecoveryPacket<T>) {
    && (last.ldpcCount > 0 ==> Follows(last, lastEnd, rec.meta, rec.end))
    && forall i :: 0 <= i < |list| ==> Follows(list[i].rec.meta, list[i].rec.end, rec.meta, rec.end)
  }

  ghost predicate DecoderAligned<T(0, !new)>(d: Decoder<T>)
    reads d, d.window
  {
    Aligned(d.list, d.lastMeta, d.lastEnd, d.Sum(), d.window.base)
  }

  lemma JoiningIsAligned<T(0, !new)>(d: Decoder<T>, rec: RecoveryPacket<T>)
    requires d.Sound() && DecoderAligned(d) && Comes(d.list, d.lastMeta, d.lastEnd, rec)
    requires MetadataOk(rec.meta, rec.end) && rec.end - rec.meta.ldpcCount <= d.NextExpected() < rec.end
    requires d.window.base + rec.meta.ldpcCount <= rec.end < d.window.base + HALF && rec.meta.sumCount < MAX_PACKETS
    ensures var plan := d.PlanWith(rec, false);
            && !plan.Disables?
            && Aligned(d.ListWith(rec), rec.meta, rec.end, d.SumJoined(rec, false), d.window.base + Dropped(plan))
  {
    hide Wrap, Plan, SumLeft, Aligned, Place, ListOk, IsField, AllOk, Uniform, BitSets.Bits, Packets, Decoder.LastOk;
    hide StartedBy, Follows;
    var base, next, count := d.window.base, d.window.nextExpected, d.CountWith(rec);
    var e := Entry(d.nextId, rec, rec.end - base - rec.meta.ldpcCount, rec.end - base, 0);
    GrowOk(d.list, base, next, d.window.count, count, d.nextId);
    assert EntryOk(e, base, next, count);
    PlacedOk(d.list, e, base, next, count);
    JoinedIsAligned(d.list, d.nextId, base, next, count, d.nextId, rec, d.lastMeta, d.lastEnd, d.Sum());
    PlanIsAligned(d.ListWith(rec), rec.meta, rec.end, d.Sum(), base, next, count, d.nextId + 1);
  }

  lemma NoneReaches<T>(list: seq<Entry<T>>, base: nat, next: nat, count: nat, nextId: nat, rec: RecoveryPacket<T>)
    requires ListOk(list, base, next, count, nextId) && rec.end <= base + next
    requires forall i :: 0 <= i < |list| ==> Follows(list[i].rec.meta, list[i].rec.end, rec.meta, rec.end)
    ensures list == []
  {
    hide ListOk;
    if list != [] {
      EntryAt(list, 0, base, next, count, nextId);
    }
  }

  lemma UnneededIsAligned<T(0, !new)>(d: Decoder<T>, rec: RecoveryPacket<T>)
    requires d.Sound() && DecoderAligned(d) && Comes(d.list, d.lastMeta, d.lastEnd, rec)
    requires MetadataOk(rec.meta, rec.end) && d.window.base + rec.meta.ldpcCount <= rec.end <= d.NextExpected()
    requires rec.end < d.window.base + HALF && rec.meta.sumCount < MAX_PACKETS
    ensures var plan := Plan(d.list, rec.meta, d.Sum(), d.window.nextExpected, d.window.columnStart, d.window.count);
            var sum := SumLeft(d.list, rec.meta, d.Sum(), d.window.nextExpected, d.window.columnStart, d.window.count);
            && d.list == [] && !plan.Disables?
            && Aligned(d.list, rec.meta, rec.end, sum, d.window.base + Dropped(plan))
  {
    hide Wrap, Plan, SumLeft, IsField, AllOk, Uniform, BitSets.Bits, Packets, StartedBy;
    NoneReaches(d.list, d.window.base, d.window.nextExpected, d.window.count, d.nextId, rec);
    NewFits(rec, d.lastMeta, d.lastEnd, d.Sum(), d.window.base);
    LastNeverDisables<T>(rec.meta, rec.end, d.Sum(), d.window.base, d.window.nextExpected, d.window.count);
  }

  /** A packet in order that arrives never disables the decoder, and everything is in place afterwards. */
  lemma ArrivalIsAligned<T(0, !new)>(d: Decoder<T>, rec: RecoveryPacket<T>)
    requires d.Sound() && DecoderAligned(d) && Comes(d.list, d.lastMeta, d.lastEnd, rec)
    requires MetadataOk(rec.meta, rec.end) && rec.end - rec.meta.ldpcCount <= d.NextExpected()
    requires rec.end < d.window.base + HALF && rec.meta.sumCount < MAX_PACKETS
    requires !OutOfOrder(rec.meta, d.latestColumn)
    ensures var a := d.ArrivalOf(rec);
            && !RemovalOf(a).Disables?
            && (a.Joins? ==>
                  && d.window.base + rec.meta.ldpcCount <= rec.end && d.LastWith(rec) == (rec.meta, rec.end)
                  && Aligned(d.ListWith(rec), rec.meta, rec.end, d.SumWith(rec), d.window.base + Dropped(RemovalOf(a))))
            && (a.Unneeded? ==>
                  && d.list == [] && d.LastWith(rec) == (rec.meta, rec.end)
                  && Aligned(d.list, rec.meta, rec.end, d.SumWith(rec), d.window.base + Dropped(RemovalOf(a))))
            && (a.Single? || a.Ignored? ==> d.SumWith(rec) == d.Sum() && Dropped(RemovalOf(a)) == 0)
  {
    hide Wrap, Plan, SumLeft, Aligned, ListOk, IsField, AllOk, Uniform, BitSets.Bits, Packets, OutOfOrder;
    hide Decoder.LastOk, StartedBy, Follows, Decoder.PlanWith, Decoder.SumJoined, Decoder.ListWith, MetadataOk;
    if d.Takes(rec) && rec.meta.sumCount != 1 {
      JoiningIsAligned(d, rec);
    } else if d.Tells(rec) {
      UnneededIsAligned(d, rec);
    }
  }

  // ----- what in order does not cover

  /** A packet that is sent again does not stop the encoder's sums, but it makes the decoder forget them.  A
      decoder has received everything, and none of the rows of the sum from 100 on has made it remove
      anything.  Packet 189 comes again and makes it drop the packets before 128; the row over 100..400 then
      needs packet 100 and disables it.  Had packet 189 not come again, the row would have made the decoder
      drop 256 packets. */
  lemma SingleRowDisables<T>(row: nat)
    ensures var single, meta, none := Metadata(0, 189, 1, 1), Metadata(row, 100, 300, 144), Running(0, 0);
            && Follows(Metadata(row, 100, 80, 80), 180, single, 190)
               && Follows(Metadata(row, 100, 80, 80), 180, meta, 400)
            && Plan<T>([], single, none, 190, 0, 190) == Drops(2)
            && SumLeft<T>([], single, none, 190, 0, 190) == none
            && Plan<T>([], meta, none, 272, 128, 272) == Disables
            && Plan<T>([], meta, none, 400, 0, 400) == Drops(4)
  {
    assert SubtractColumns(100, 128) == COLUMN_PERIOD - 28;
    assert SubtractColumns(400, 128) == 272 && SubtractColumns(400, 0) == 400 && SubtractColumns(190, 0) == 190;
    assert SubtractColumns(100, 0) == 100;
  }
}
