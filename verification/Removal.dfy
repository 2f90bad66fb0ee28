/** What the decoder gives up: which running sum it follows, which elements leave its window, and
    what goes wrong when the packets it goes by are not the latest ones. */
module Removals {
  import opened Options
  import opened Columns
  import opened Recovery
  import opened Rows
  import opened RecoveryLists

  /** The sum that is running: SumColumnStart and SumColumnCount. */
  datatype Running = Running(start: nat, count: nat)

  predicate IsSum(meta: Metadata) { meta.sumCount > CAUCHY_THRESHOLD }

  /** A row whose sum goes on with the running one. */
  predicate GoesOn(sum: Running, meta: Metadata) { meta.columnStart == sum.start && meta.sumCount >= sum.count }

  /** A row whose sum can be computed anew, from packets in the window. */
  predicate StartsInWindow(meta: Metadata, columnStart: nat, count: nat) {
    SubtractColumns(meta.columnStart, columnStart) < count
  }

  // ----- the sums of the rows that a solution uses

  /** The running sum after the first n rows, or nothing when one of them cannot be followed. */
  function Follow<T>(recs: seq<RecoveryPacket<T>>, used: seq<bool>, n: nat, sum: Running, columnStart: nat,
      count: nat): Option<Running>
    requires n <= |recs| == |used|
  {
    if n == 0 then Some(sum)
    else
      match Follow(recs, used, n - 1, sum, columnStart, count)
      case None => None
      case Some(s) =>
        var meta := recs[n - 1].meta;
        if !used[n - 1] || !IsSum(meta) then Some(s)
        else if GoesOn(s, meta)
          || StartsInWindow(meta, columnStart, count) then Some(Running(meta.columnStart, meta.sumCount))
        else None
  }

  /** The sum that row n finds running: that of the last used sum row before it. */
  function SumBefore<T>(recs: seq<RecoveryPacket<T>>, used: seq<bool>, n: nat, sum: Running): Running
    requires n <= |recs| == |used|
  {
    if n == 0 then sum
    else if used[n - 1] && IsSum(recs[n - 1].meta) then Running(recs[n - 1].meta.columnStart, recs[n - 1].meta.sumCount)
    else SumBefore(recs, used, n - 1, sum)
  }

  /** The rows can be followed exactly when each used sum row, over more than 64 columns, starts where the
      sum before it starts and covers no less, or starts in the window. */
  lemma {:induction false} FollowIff<T>(recs: seq<RecoveryPacket<T>>, used: seq<bool>, n: nat, sum: Running,
      columnStart: nat, count: nat)
    requires n <= |recs| == |used|
    ensures Follow(recs, used, n, sum, columnStart, count).Some? <==>
              forall i :: 0 <= i < n && used[i] && recs[i].meta.sumCount > 64 ==>
                var meta, before := recs[i].meta, SumBefore(recs, used, i, sum);
                || (meta.columnStart == before.start && meta.sumCount >= before.count)
                || SubtractColumns(meta.columnStart, columnStart) < count
    ensures var r := Follow(recs, used, n, sum, columnStart, count);
            r.Some? ==> r.value == SumBefore(recs, used, n, sum)
  {
    hide SubtractColumns;
    if n > 0 {
      FollowIff(recs, used, n - 1, sum, columnStart, count);
    }
  }

  /** The sum before a row is that of the last used sum row before it, if there is one. */
  lemma {:induction false} SumOfLastUsed<T>(recs: seq<RecoveryPacket<T>>, used: seq<bool>, n: nat, sum: Running, u: nat)
    requires u < n <= |recs| == |used|
    requires forall i :: u < i < n ==> !used[i] || recs[i].meta.sumCount <= 64
    ensures used[u] && recs[u].meta.sumCount > 64 ==>
              SumBefore(recs, used, n, sum) == Running(recs[u].meta.columnStart, recs[u].meta.sumCount)
    ensures (forall i :: 0 <= i < n ==> !used[i] || recs[i].meta.sumCount <= 64) ==>
              SumBefore(recs, used, n, sum) == sum
  {
    if n > u + 1 {
      SumOfLastUsed(recs, used, n - 1, sum, u);
    } else if u > 0 && forall i :: 0 <= i < n ==> !used[i] || recs[i].meta.sumCount <= 64 {
      SumOfLastUsed(recs, used, u, sum, u - 1);
    }
  }

  lemma {:induction false} FollowFails<T>(recs: seq<RecoveryPacket<T>>, used: seq<bool>, n: nat, sum: Running,
      columnStart: nat, count: nat)
    requires n <= |recs| == |used| && Follow(recs, used, n, sum, columnStart, count).None?
    ensures Follow(recs, used, |recs|, sum, columnStart, count).None?
    decreases |recs| - n
  {
    if n < |recs| {
      FollowFails(recs, used, n + 1, sum, columnStart, count);
    }
  }

  // ----- the first element that is still needed

  /** What RemoveElements finds out: whether everything needed is at hand, the first element needed,
      and the first sum of the list. */
  datatype Keeping = Keeping(ok: bool, first: nat, seenSum: bool, start: nat, count: nat)

  predicate IsSumRow<T>(e: Entry<T>) { IsSum(e.rec.meta) }

  /** A sum row that does not go on with the first sum, so its own start is needed. */
  predicate OtherSum<T>(e: Entry<T>, k: Keeping) {
    IsSumRow(e) && (e.rec.meta.columnStart != k.start || e.rec.meta.sumCount < k.count)
  }

  function SumElement<T>(e: Entry<T>, columnStart: nat): nat { SubtractColumns(e.rec.meta.columnStart, columnStart) }

  /** One packet of the scan. */
  function KeepStep<T>(k: Keeping, e: Entry<T>, columnStart: nat, count: nat): (r: Keeping)
    ensures r.first <= k.first && r.first <= e.elementStart
  {
    var k1 := if k.first > e.elementStart then k.(first := e.elementStart) else k;
    if !k1.ok || !IsSumRow(e) then k1
    else if !k1.seenSum then k1.(seenSum := true, start := e.rec.meta.columnStart, count := e.rec.meta.sumCount)
    else if !OtherSum(e, k1) then k1
    else if SumElement(e, columnStart) >= count then k1.(ok := false)
    else if k1.first > SumElement(e, columnStart) then k1.(first := SumElement(e, columnStart))
    else k1
  }

  /** The scan of the first n packets of a list. */
  function Kept<T>(list: seq<Entry<T>>, n: nat, columnStart: nat, count: nat): (k: Keeping)
    requires n <= |list| && list != []
    ensures k.first <= list[0].elementStart
    ensures forall i :: 0 <= i < n ==> k.first <= list[i].elementStart
  {
    if n == 0 then Keeping(true, list[0].elementStart, false, 0, 0)
    else KeepStep(Kept(list, n - 1, columnStart, count), list[n - 1], columnStart, count)
  }

  /** k.first is the least of what the first n packets need: their light parts, and the starts of all
      sums but the first. */
  ghost predicate Needs<T>(list: seq<Entry<T>>, n: nat, columnStart: nat, count: nat, k: Keeping) {
    && 0 < n <= |list|
    && (k.ok ==> (k.seenSum <==> exists i :: 0 <= i < n && IsSumRow(list[i])))
    && (k.ok && k.seenSum ==> exists i :: 0 <= i < n && FirstSum(list, i, k))
    && (k.ok <==> forall i :: 0 <= i < n && k.seenSum && OtherSum(list[i], k) ==>
         SumElement(list[i], columnStart) < count)
    && (forall i :: 0 <= i < n ==> k.first <= list[i].elementStart)
    && (k.ok && k.seenSum ==>
          forall i :: 0 <= i < n && OtherSum(list[i], k) ==> k.first <= SumElement(list[i], columnStart))
    && (k.ok ==> exists i :: 0 <= i < n && NeedsAt(list[i], columnStart, k))
  }

  ghost predicate FirstSum<T>(list: seq<Entry<T>>, i: nat, k: Keeping)
    requires i < |list|
  {
    && IsSumRow(list[i]) && k.start == list[i].rec.meta.columnStart && k.count == list[i].rec.meta.sumCount
    && forall j :: 0 <= j < i ==> !IsSumRow(list[j])
  }

  ghost predicate NeedsAt<T>(e: Entry<T>, columnStart: nat, k: Keeping) {
    k.first == e.elementStart || (k.seenSum && OtherSum(e, k) && k.first == SumElement(e, columnStart))
  }

  lemma NeedsStep<T>(list: seq<Entry<T>>, n: nat, columnStart: nat, count: nat, before: Keeping)
    requires n < |list|
    requires n == 0 ==> before == Keeping(true, list[0].elementStart, false, 0, 0)
    requires n > 0 ==> Needs(list, n, columnStart, count, before)
    ensures Needs(list, n + 1, columnStart, count, KeepStep(before, list[n], columnStart, count))
  {
    hide SumElement, IsSum;
    var k := KeepStep(before, list[n], columnStart, count);
    if k.ok && k.seenSum {
      if before.seenSum {
        var i :| 0 <= i < n && FirstSum(list, i, before);
        assert FirstSum(list, i, k);
      } else {
        assert FirstSum(list, n, k);
      }
    }
    if k.ok {
      if k.first == list[n].elementStart
        || (k.seenSum && OtherSum(list[n], k) && k.first == SumElement(list[n], columnStart)) {
        assert NeedsAt(list[n], columnStart, k);
      } else {
        var i :| 0 <= i < n && NeedsAt(list[i], columnStart, before);
        assert NeedsAt(list[i], columnStart, k);
      }
    }
  }

  /** The scan finds exactly what the packets of the list need. */
  lemma {:induction false} KeptNeeds<T>(list: seq<Entry<T>>, n: nat, columnStart: nat, count: nat)
    requires 0 < n <= |list|
    ensures Needs(list, n, columnStart, count, Kept(list, n, columnStart, count))
  {
    hide Needs, KeepStep;
    if n > 1 {
      KeptNeeds(list, n - 1, columnStart, count);
    }
    NeedsStep(list, n - 1, columnStart, count, Kept(list, n - 1, columnStart, count));
  }

  /** Where the range of a packet ends in the window, as the columns tell. */
  function EndElement(meta: Metadata, columnStart: nat): nat {
    SubtractColumns(meta.columnStart + meta.sumCount, columnStart)
  }

  /** Without a list, the last metadata tells what the encoder may still refer to. */
  function KeptByLast(last: Metadata, columnStart: nat): Keeping {
    var end := EndElement(last, columnStart);
    if IsColumnDeltaNegative(end) || end < last.ldpcCount then Keeping(false, 0, false, 0, 0)
    else Keeping(true, end - last.ldpcCount, IsSum(last), last.columnStart, last.sumCount)
  }

  // ----- what a removal does

  datatype Removal = Stays | Drops(subwindows: nat) | Disables | Overruns

  /** Whether the sum to keep goes on with the one that is running, or can be computed anew. */
  predicate CanKeep(k: Keeping, sum: Running, columnStart: nat, count: nat) {
    !k.seenSum || (sum.start == k.start && sum.count <= k.count) || SubtractColumns(k.start, columnStart) < count
  }

  function KeptSum(k: Keeping, sum: Running): Running {
    if !k.seenSum then Running(sum.start, 0)
    else if sum.start != k.start || sum.count > k.count then Running(k.start, k.count)
    else sum
  }

  function KeepFrom<T>(list: seq<Entry<T>>, last: Metadata, columnStart: nat, count: nat): Keeping {
    if list == [] then KeptByLast(last, columnStart) else Kept(list, |list|, columnStart, count)
  }

  /** What RemoveElements does, from the list, the last metadata, the running sum, the next expected
      element, the first column and the number of elements.  To overrun is to remove an element that
      is missing, or the whole window. */
  function Plan<T>(list: seq<Entry<T>>, last: Metadata, sum: Running, next: nat, columnStart: nat,
      count: nat): Removal {
    if next < REMOVE_THRESHOLD then Stays
    else
      var k := KeepFrom(list, last, columnStart, count);
      if !k.ok then Disables
      else if k.first < REMOVE_THRESHOLD then Stays
      else if !CanKeep(k, sum, columnStart, count) then Disables
      else
        var n := k.first / SUBWINDOW_SIZE;
        if SUBWINDOW_SIZE * n <= next && SUBWINDOW_SIZE * n < count then Drops(n) else Overruns
  }

  /** The running sum that is left. */
  function SumLeft<T>(list: seq<Entry<T>>, last: Metadata, sum: Running, next: nat, columnStart: nat,
      count: nat): Running
  {
    if Plan(list, last, sum, next, columnStart, count).Drops?
      then KeptSum(KeepFrom(list, last, columnStart, count), sum)
    else sum
  }

  /** The number of elements that leave. */
  function Dropped(r: Removal): nat { if r.Drops? then SUBWINDOW_SIZE * r.subwindows else 0 }

  /** As long as there are recovery packets, no missing element is removed, nor the whole window. */
  lemma ListNeverOverruns<T>(list: seq<Entry<T>>, last: Metadata, sum: Running, base: nat, next: nat, count: nat,
      nextId: nat, columnStart: nat)
    requires list != [] && ListOk(list, base, next, count, nextId)
    ensures !Plan(list, last, sum, next, columnStart, count).Overruns?
  {
    hide CanKeep;
    assert EntryOk(list[0], base, next, count);
  }

  /** Without recovery packets the columns of the last metadata decide, and nothing else: when the
      decoder disables itself, when it keeps every missing element, and when it removes one. */
  lemma FallbackIff<T>(last: Metadata, sum: Running, next: nat, columnStart: nat, count: nat)
    ensures var plan := Plan<T>([], last, sum, next, columnStart, count);
            var end := EndElement(last, columnStart);
            var first := end - last.ldpcCount;
            var removed := first / SUBWINDOW_SIZE * SUBWINDOW_SIZE;
            var decides := next >= REMOVE_THRESHOLD && last.ldpcCount <= end < COLUMN_PERIOD / 2;
            var follows := || last.sumCount <= 64
                           || (sum.start == last.columnStart && sum.count <= last.sumCount)
                           || SubtractColumns(last.columnStart, columnStart) < count;
            && (plan.Disables? <==>
                  next >= REMOVE_THRESHOLD && (!decides || (first >= REMOVE_THRESHOLD && !follows)))
            && (plan.Overruns? <==>
                  decides && first >= REMOVE_THRESHOLD && follows && (removed > next || removed >= count))
            && (plan.Drops? <==>
                  decides && first >= REMOVE_THRESHOLD && follows && removed <= next && removed < count)
            && (plan.Drops? ==> SUBWINDOW_SIZE * plan.subwindows == removed)
    ensures Plan<T>([], last, sum, next, columnStart, count).Drops? ==>
              SumLeft<T>([], last, sum, next, columnStart, count) ==
                if last.sumCount <= 64 then Running(sum.start, 0)
                else if sum.start == last.columnStart && sum.count <= last.sumCount then sum
                else Running(last.columnStart, last.sumCount)
  {
    hide EndElement, SubtractColumns;
  }

  // ----- with recovery packets: by the columns and counts of the list alone

  /** The first of the first n packets over more than 64 columns; n if there is none. */
  function FirstOver<T>(list: seq<Entry<T>>, n: nat): (f: nat)
    requires n <= |list|
    ensures f <= n && (f < n ==> list[f].rec.meta.sumCount > 64)
    ensures forall j :: 0 <= j < f ==> list[j].rec.meta.sumCount <= 64
  {
    if n == 0 then 0
    else
      var f := FirstOver(list, n - 1);
      if f == n - 1 && list[n - 1].rec.meta.sumCount <= 64 then n else f
  }

  /** A packet over more than 64 columns that starts elsewhere than the f-th, or covers less. */
  predicate Differs<T>(list: seq<Entry<T>>, f: nat, j: nat)
    requires f < |list| && j < |list|
  {
    && list[j].rec.meta.sumCount > 64
    && (list[j].rec.meta.columnStart != list[f].rec.meta.columnStart
        || list[j].rec.meta.sumCount < list[f].rec.meta.sumCount)
  }

  function StartOf<T>(list: seq<Entry<T>>, j: nat, columnStart: nat): nat
    requires j < |list|
  {
    SubtractColumns(list[j].rec.meta.columnStart, columnStart)
  }

  /** The starts of all sums that differ from the first one are in the window. */
  ghost predicate StartsAreThere<T>(list: seq<Entry<T>>, n: nat, columnStart: nat, count: nat)
    requires n <= |list|
  {
    var f := FirstOver(list, n);
    forall j :: f < j < n && Differs(list, f, j) ==> StartOf(list, j, columnStart) < count
  }

  /** The light parts of all packets, and the starts of all sums that differ from the first one, are at or
      past an element. */
  ghost predicate NeedsFrom<T>(list: seq<Entry<T>>, n: nat, columnStart: nat, element: nat)
    requires n <= |list|
  {
    var f := FirstOver(list, n);
    && (forall j :: 0 <= j < n ==> element <= list[j].elementStart)
    && (forall j :: f < j < n && Differs(list, f, j) ==> element <= StartOf(list, j, columnStart))
  }

  /** The first sum starts where the running one starts, and covers no less, or starts in the window. */
  predicate FirstGoesOn<T>(list: seq<Entry<T>>, sum: Running, columnStart: nat, count: nat) {
    var f := FirstOver(list, |list|);
    f < |list| ==>
      || (list[f].rec.meta.columnStart == sum.start && list[f].rec.meta.sumCount >= sum.count)
      || StartOf(list, f, columnStart) < count
  }

  ghost predicate InColumns<T>(list: seq<Entry<T>>, n: nat, columnStart: nat, count: nat, k: Keeping)
    requires n <= |list|
  {
    var f := FirstOver(list, n);
    && (k.ok <==> StartsAreThere(list, n, columnStart, count))
    && (k.ok ==> (k.seenSum <==> f < n))
    && (f < n ==> k.seenSum && k.start == list[f].rec.meta.columnStart && k.count == list[f].rec.meta.sumCount)
    && (k.ok && n > 0 ==> NeedsFrom(list, n, columnStart, k.first) && !NeedsFrom(list, n, columnStart, k.first + 1))
  }

  lemma InColumnsStart<T>(list: seq<Entry<T>>, columnStart: nat, count: nat)
    requires list != []
    ensures InColumns(list, 0, columnStart, count, Kept(list, 0, columnStart, count))
  {
  }

  /** What one more packet needs. */
  lemma NeedsFromStep<T>(list: seq<Entry<T>>, n: nat, columnStart: nat, element: nat)
    requires n < |list|
    ensures var f := FirstOver(list, n);
            NeedsFrom(list, n + 1, columnStart, element) <==>
              && NeedsFrom(list, n, columnStart, element) && element <= list[n].elementStart
              && (f < n && Differs(list, f, n) ==> element <= StartOf(list, n, columnStart))
  {
    hide StartOf;
    assert FirstOver(list, n) < n ==> FirstOver(list, n + 1) == FirstOver(list, n);
  }

  lemma StartsStep<T>(list: seq<Entry<T>>, n: nat, columnStart: nat, count: nat)
    requires n < |list|
    ensures var f := FirstOver(list, n);
            StartsAreThere(list, n + 1, columnStart, count) <==>
              && StartsAreThere(list, n, columnStart, count)
              && (f < n && Differs(list, f, n) ==> StartOf(list, n, columnStart) < count)
    ensures FirstOver(list, n) == n ==> StartsAreThere(list, n, columnStart, count)
  {
    hide StartOf;
    assert FirstOver(list, n) < n ==> FirstOver(list, n + 1) == FirstOver(list, n);
  }

  lemma InColumnsStep<T>(list: seq<Entry<T>>, n: nat, columnStart: nat, count: nat, before: Keeping)
    requires n < |list| && InColumns(list, n, columnStart, count, before)
    requires n == 0 ==> before == Keeping(true, list[0].elementStart, false, 0, 0)
    ensures InColumns(list, n + 1, columnStart, count, KeepStep(before, list[n], columnStart, count))
  {
    hide SubtractColumns, NeedsFrom, StartsAreThere;
    var k := KeepStep(before, list[n], columnStart, count);
    StartsStep(list, n, columnStart, count);
    NeedsFromStep(list, n, columnStart, k.first);
    NeedsFromStep(list, n, columnStart, k.first + 1);
    NeedsFromLess(list, n, columnStart, k.first, before.first);
    NeedsFromLess(list, n, columnStart, before.first + 1, k.first + 1);
    if n == 0 {
      NeedsNothing(list, columnStart, k.first);
    }
  }

  lemma NeedsNothing<T>(list: seq<Entry<T>>, columnStart: nat, element: nat)
    ensures NeedsFrom(list, 0, columnStart, element)
  {
  }

  lemma NeedsFromLess<T>(list: seq<Entry<T>>, n: nat, columnStart: nat, element: nat, larger: nat)
    requires n <= |list|
    ensures element <= larger && NeedsFrom(list, n, columnStart, larger) ==> NeedsFrom(list, n, columnStart, element)
  {
  }

  /** The scan of the list, by its columns and counts. */
  lemma {:induction false} KeptInColumns<T>(list: seq<Entry<T>>, n: nat, columnStart: nat, count: nat)
    requires list != [] && n <= |list|
    ensures InColumns(list, n, columnStart, count, Kept(list, n, columnStart, count))
  {
    hide InColumns, KeepStep;
    if n == 0 {
      InColumnsStart(list, columnStart, count);
    } else {
      KeptInColumns(list, n - 1, columnStart, count);
      InColumnsStep(list, n - 1, columnStart, count, Kept(list, n - 1, columnStart, count));
    }
  }

  /** What RemoveElements does while there are recovery packets: it disables the decoder exactly when the
      start of a sum it needs has left the window and is not the start of the running sum; otherwise it
      keeps everything that any packet needs, but for less than a subwindow. */
  lemma PlanIff<T>(list: seq<Entry<T>>, last: Metadata, sum: Running, next: nat, columnStart: nat, count: nat)
    requires list != []
    ensures var plan := Plan(list, last, sum, next, columnStart, count);
            var there := StartsAreThere(list, |list|, columnStart, count);
            var enough := NeedsFrom(list, |list|, columnStart, 128);
            && (plan.Disables? <==>
                  next >= 128 && (!there || (enough && !FirstGoesOn(list, sum, columnStart, count))))
            && (plan.Stays? <==> next < 128 || (there && !enough))
            && (plan.Drops? ==>
                  && NeedsFrom(list, |list|, columnStart, 64 * plan.subwindows)
                  && !NeedsFrom(list, |list|, columnStart, 64 * plan.subwindows + 64))
  {
    hide SubtractColumns, NeedsFrom, StartsAreThere, Kept;
    KeptInColumns(list, |list|, columnStart, count);
    var k := Kept(list, |list|, columnStart, count);
    NeedsFromLess(list, |list|, columnStart, 128, k.first);
    NeedsFromLess(list, |list|, columnStart, k.first + 1, 128);
    var n := k.first / 64;
    NeedsFromLess(list, |list|, columnStart, 64 * n, k.first);
    NeedsFromLess(list, |list|, columnStart, k.first + 1, 64 * n + 64);
  }

  /** The sum that runs after elements have left: none if the list has none, and otherwise the first one of
      the list, of which the part that ran before is kept. */
  lemma SumLeftIff<T>(list: seq<Entry<T>>, last: Metadata, sum: Running, next: nat, columnStart: nat, count: nat)
    requires list != [] && Plan(list, last, sum, next, columnStart, count).Drops?
    ensures var f := FirstOver(list, |list|);
            SumLeft(list, last, sum, next, columnStart, count) ==
              if f == |list| then Running(sum.start, 0)
              else
                var meta := list[f].rec.meta;
                if meta.columnStart == sum.start && meta.sumCount >= sum.count then sum
                else Running(meta.columnStart, meta.sumCount)
  {
    hide SubtractColumns, NeedsFrom, StartsAreThere, Kept;
    KeptInColumns(list, |list|, columnStart, count);
  }

  /** A list whose first sum is the running one, and all of whose sums start there and cover no less, never
      disables the decoder, wherever the window has moved to. */
  lemma SameSumNeverDisables<T>(list: seq<Entry<T>>, last: Metadata, sum: Running, next: nat, columnStart: nat,
      count: nat)
    requires forall j :: 0 <= j < |list| && list[j].rec.meta.sumCount > 64 ==>
               && list[j].rec.meta.columnStart == sum.start && list[j].rec.meta.sumCount >= sum.count
               && list[FirstOver(list, |list|)].rec.meta.sumCount <= list[j].rec.meta.sumCount
    requires list != []
    ensures !Plan(list, last, sum, next, columnStart, count).Disables?
  {
    hide SubtractColumns, NeedsFrom;
    PlanIff(list, last, sum, next, columnStart, count);
  }

  /** The same by true numbers.  Metadata that ends less than half a period before the window disables
      the decoder; older metadata is taken for metadata from the future. */
  lemma FallbackByAge(last: Metadata, end: nat, base: nat)
    requires MetadataOk(last, end) && -COLUMN_PERIOD < base - end < COLUMN_PERIOD
    ensures base <= end < base + COLUMN_PERIOD / 2 ==> EndElement(last, Wrap(base)) == end - base
    ensures 0 < base - end <= COLUMN_PERIOD / 2 ==> !KeptByLast(last, Wrap(base)).ok
    ensures base - end > COLUMN_PERIOD / 2 ==>
              EndElement(last, Wrap(base)) == COLUMN_PERIOD - (base - end) < COLUMN_PERIOD / 2
  {
    EndOfMetadata(last, end, base);
    SubtractWrapped(end, base);
  }

  lemma EndOfMetadata(last: Metadata, end: nat, base: nat)
    requires MetadataOk(last, end)
    ensures EndElement(last, Wrap(base)) == SubtractColumns(Wrap(end), Wrap(base))
  {
    var a := last.columnStart + last.sumCount;
    AddWrapped(end - last.sumCount, last.sumCount);
    assert Wrap(a) == Wrap(end);
    WrapDifference(a, base);
    WrapDifference(end, base);
    WrapDifference(Wrap(end), base);
  }

  /** Only the column of the first operand matters. */
  lemma WrapDifference(a: nat, base: nat)
    ensures SubtractColumns(a, Wrap(base)) == SubtractColumns(Wrap(a), Wrap(base))
  {
    var q := a / COLUMN_PERIOD;
    assert a - Wrap(base) == (Wrap(a) - Wrap(base)) + q * COLUMN_PERIOD;
    WrapShift(Wrap(a) - Wrap(base), q);
  }

  // ----- what a recovery packet does when it arrives

  /** It cannot be used, it only tells what the encoder may still refer to, it holds one packet, or it joins
      the list. */
  datatype Arrival = Ignored | Unneeded(removal: Removal) | Single | Joins(removal: Removal)

  /** The elements that leave when it does. */
  function RemovalOf(a: Arrival): Removal {
    match a
    case Unneeded(removal) => removal
    case Joins(removal) => removal
    case _ => Stays
  }

  /** The list with a packet in its place, in a window that starts at `base`. */
  function JoinedList<T>(list: seq<Entry<T>>, id: nat, base: nat, rec: RecoveryPacket<T>): seq<Entry<T>>
    requires base + rec.meta.ldpcCount <= rec.end
  {
    var e := Entry(id, rec, rec.end - base - rec.meta.ldpcCount, rec.end - base, 0);
    Inserted(list, Place(list, e), e)
  }

  /** The removal that follows when a packet that starts at an element has joined the list. */
  function JoinPlan<T>(list: seq<Entry<T>>, start: int, last: Metadata, sum: Running, next: nat, columnStart: nat,
      count: nat): Removal
  {
    if start < REMOVE_THRESHOLD then Stays else Plan(list, last, sum, next, columnStart, count)
  }

  function JoinSum<T>(list: seq<Entry<T>>, start: int, last: Metadata, sum: Running, next: nat, columnStart: nat,
      count: nat): Running
  {
    if start < REMOVE_THRESHOLD then sum else SumLeft(list, last, sum, next, columnStart, count)
  }

  // ----- inputs

  /** Two recovery packets that arrive in the wrong order.  A decoder with all packets before 310 but
      195 and 305 gets the sum rows over 100..310 and then over 100..300.  The first one makes it keep
      the sum over 100..310 and drop the packets before 128; the second one is admitted, since its
      sum starts at the same column, and cannot be followed, since it ends earlier.  In the other
      order both can be followed. */
  lemma SwappedRows<T>(row: nat, p1: seq<T>, p2: seq<T>, last: Metadata)
    ensures var m1, m2 := Metadata(row, 100, 200, 110), Metadata(row, 100, 210, 120);
            var r1, r2 := RecoveryPacket(m1, p1, 300), RecoveryPacket(m2, p2, 310);
            var e1, e2 := Entry(0, r1, 190, 300, 0), Entry(0, r2, 190, 310, 0);
            var none := Running(0, 0);
            && Plan([e2], last, none, 195, 0, 310) == Drops(2)
            && KeptSum(KeepFrom([e2], last, 0, 310), none) == Running(100, 210)
            && Follow([r1], [true], 1, Running(100, 210), 128, 182) == None
            && Plan([e1], last, none, 195, 0, 310) == Drops(2)
            && KeptSum(KeepFrom([e1], last, 0, 310), none) == Running(100, 200)
            && Follow([r1], [true], 1, Running(100, 200), 128, 182) == Some(Running(100, 200))
            && Follow([r2], [true], 1, Running(100, 200), 128, 182) == Some(Running(100, 210))
  {
    var m1, m2 := Metadata(row, 100, 200, 110), Metadata(row, 100, 210, 120);
    var e1 := Entry(0, RecoveryPacket(m1, p1, 300), 190, 300, 0);
    var e2 := Entry(0, RecoveryPacket(m2, p2, 310), 190, 310, 0);
    assert Kept([e1], 1, 0, 310) == KeepStep(Kept([e1], 0, 0, 310), e1, 0, 310);
    assert Kept([e2], 1, 0, 310) == KeepStep(Kept([e2], 0, 0, 310), e2, 0, 310);
    assert SubtractColumns(100, 128) == COLUMN_PERIOD - 28;
    assert Follow([e1.rec], [true], 0, Running(100, 210), 128, 182) == Some(Running(100, 210));
    assert Follow([e1.rec], [true], 0, Running(100, 200), 128, 182) == Some(Running(100, 200));
    assert Follow([e2.rec], [true], 0, Running(100, 200), 128, 182) == Some(Running(100, 200));
  }

  /** A long-lived sum.  After the first removal above the window starts at 128 and the sum over 100..300 is
      running.  With everything before 450 received, the row over 100..500 joins: the decoder goes on with
      the running sum, whose start has left the window, and drops four more subwindows. */
  lemma LongSumGoesOn<T>(row: nat, payload: seq<T>, id: nat, last: Metadata)
    ensures var e := Entry(id, RecoveryPacket(Metadata(row, 100, 400, 100), payload, 500), 272, 372, 0);
            && Plan([e], last, Running(100, 200), 322, 128, 372) == Drops(4)
            && SumLeft([e], last, Running(100, 200), 322, 128, 372) == Running(100, 200)
            && Plan([e], last, Running(99, 200), 322, 128, 372) == Disables
            && Plan([e], last, Running(100, 401), 322, 128, 372) == Disables
  {
    var e := Entry(id, RecoveryPacket(Metadata(row, 100, 400, 100), payload, 500), 272, 372, 0);
    assert Kept([e], 0, 128, 372) == Keeping(true, 272, false, 0, 0);
    assert Kept([e], 1, 128, 372) == Keeping(true, 272, true, 100, 400);
    assert SubtractColumns(100, 128) == COLUMN_PERIOD - 28;
  }

  /** Metadata from before a wrap-around.  The last packet taken in order ends at 2^22 - 1000.  Half a
      period later it disables a decoder without recovery packets; nearly a period later it makes
      the decoder drop 960 elements, missing ones among them. */
  lemma StaleMetadata<T>(sum: Running, next: nat, count: nat)
    requires REMOVE_THRESHOLD <= next <= count
    ensures var last := Metadata(0, COLUMN_PERIOD - 1100, 100, 10);
            && MetadataOk(last, COLUMN_PERIOD - 1000)
            && Plan<T>([], last, sum, next, Wrap(COLUMN_PERIOD + 1000), count) == Disables
            && EndElement(last, Wrap(2 * COLUMN_PERIOD - 2000)) == 1000
            && (count > 960 ==>
                  (next < 960 <==> Plan<T>([], last, sum, next, Wrap(2 * COLUMN_PERIOD - 2000), count) == Overruns))
  {
    var last := Metadata(0, COLUMN_PERIOD - 1100, 100, 10);
    FallbackByAge(last, COLUMN_PERIOD - 1000, COLUMN_PERIOD + 1000);
    FallbackByAge(last, COLUMN_PERIOD - 1000, 2 * COLUMN_PERIOD - 2000);
    assert Wrap(2 * COLUMN_PERIOD - 2000) == COLUMN_PERIOD - 2000;
    assert SubtractColumns(COLUMN_PERIOD - 1100, COLUMN_PERIOD - 2000) == 900;
    FallbackIff<T>(last, sum, next, COLUMN_PERIOD - 2000, count);
  }
}
