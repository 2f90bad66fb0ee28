/** Runs in which the network delivers recovery packets in the order in which they were emitted, and loses
    any of them: original packets may come in any order, acknowledgements late or not at all, and the decoder
    never disables itself and never gives up a missing packet. */
module InOrderSessions {
  import opened Fields
  import opened Missing
  import opened Decoding
  import opened Columns
  import opened Recovery
  import opened Rows
  import opened Emissions
  import opened Encoders
  import opened RecoveryLists
  import opened Removals
  import opened Decoders
  import opened Sessions
  import opened InOrderRuns

  /** A row over several packets that is among the first n recovery packets emitted. */
  ghost predicate AmongFirst(log: seq<Emission>, n: nat, meta: Metadata, end: nat) {
    meta.sumCount > 1 && exists k: nat :: k < n && k < |log| && log[k].meta == meta && log[k].end == end
  }

  /** All that the decoder holds and remembers is among the first n recovery packets emitted. */
  ghost predicate FromFirst<T>(log: seq<Emission>, n: nat, list: seq<Entry<T>>, last: Metadata, lastEnd: nat) {
    && (last.ldpcCount > 0 ==> AmongFirst(log, n, last, lastEnd))
    && forall i :: 0 <= i < |list| ==> AmongFirst(log, n, list[i].rec.meta, list[i].rec.end)
  }

  lemma FollowsItself(meta: Metadata, end: int)
    ensures Follows(meta, end, meta, end)
  {
  }

  lemma FirstIsFollowed(log: seq<Emission>, n: nat, meta: Metadata, end: nat, i: nat)
    requires InOrder(log) && AmongFirst(log, n, meta, end) && n <= i + 1 <= |log|
    ensures Follows(meta, end, log[i].meta, log[i].end)
  {
    hide Follows;
    var k: nat :| k < n && k < |log| && log[k].meta == meta && log[k].end == end;
    FollowsItself(meta, end);
  }

  /** The next packet, or the last one again, follows all that. */
  lemma NextComes<T>(log: seq<Emission>, n: nat, list: seq<Entry<T>>, last: Metadata, lastEnd: nat, i: nat,
      rec: RecoveryPacket<T>)
    requires InOrder(log) && FromFirst(log, n, list, last, lastEnd) && n <= i + 1 <= |log|
    requires rec.meta == log[i].meta && rec.end == log[i].end
    ensures Comes(list, last, lastEnd, rec)
  {
    hide Follows, AmongFirst, InOrder;
    if last.ldpcCount > 0 {
      FirstIsFollowed(log, n, last, lastEnd, i);
    }
    forall e | 0 <= e < |list| ensures Follows(list[e].rec.meta, list[e].rec.end, rec.meta, rec.end) {
      FirstIsFollowed(log, n, list[e].rec.meta, list[e].rec.end, i);
    }
  }

  lemma StillAmong(log: seq<Emission>, log': seq<Emission>, n: nat, n': nat, meta: Metadata, end: nat)
    requires AmongFirst(log, n, meta, end) && log <= log' && n <= n'
    ensures AmongFirst(log', n', meta, end)
  {
    var k: nat :| k < n && k < |log| && log[k].meta == meta && log[k].end == end;
    assert log'[k] == log[k];
  }

  ghost predicate Has<T>(list: seq<Entry<T>>, rec: RecoveryPacket<T>) {
    exists j :: 0 <= j < |list| && list[j].rec == rec
  }

  lemma StillFromFirst<T>(log: seq<Emission>, log': seq<Emission>, n: nat, n': nat, list: seq<Entry<T>>,
      list': seq<Entry<T>>, last: Metadata, lastEnd: nat)
    requires FromFirst(log, n, list, last, lastEnd) && log <= log' && n <= n'
    requires forall i :: 0 <= i < |list'| ==> Has(list, list'[i].rec)
    ensures FromFirst(log', n', list', last, lastEnd)
  {
    hide AmongFirst;
    if last.ldpcCount > 0 {
      StillAmong(log, log', n, n', last, lastEnd);
    }
    forall i | 0 <= i < |list'| ensures AmongFirst(log', n', list'[i].rec.meta, list'[i].rec.end) {
      assert Has(list, list'[i].rec);
      var j :| 0 <= j < |list| && list[j].rec == list'[i].rec;
      StillAmong(log, log', n, n', list[j].rec.meta, list[j].rec.end);
    }
  }

  lemma SameFromFirst<T>(log: seq<Emission>, n: nat, n': nat, list: seq<Entry<T>>, list': seq<Entry<T>>,
      last: Metadata, lastEnd: nat)
    requires FromFirst(log, n, list, last, lastEnd) && SamePackets(list, list') && n <= n'
    ensures FromFirst(log, n', list', last, lastEnd)
  {
    hide AmongFirst;
    forall i | 0 <= i < |list'| ensures Has(list, list'[i].rec) {
      assert list'[i].rec == list[i].rec;
    }
    StillFromFirst(log, log, n, n', list, list', last, lastEnd);
  }

  lemma LeftFromFirst<T>(log: seq<Emission>, n: nat, n': nat, list: seq<Entry<T>>, element: nat, last: Metadata,
      lastEnd: nat)
    requires FromFirst(log, n, list, last, lastEnd) && n <= n'
    ensures FromFirst(log, n', LeftAfter(list, element), last, lastEnd)
  {
    hide AmongFirst, LeftAfter;
    var d := LeftFrom(list, element);
    forall i | 0 <= i < |list[d..]| ensures Has(list, list[d..][i].rec) {
      assert list[d..][i] == list[d + i];
    }
    StillFromFirst(log, log, n, n', list, list[d..], last, lastEnd);
  }

  lemma JoinedFromFirst<T>(log: seq<Emission>, n: nat, list: seq<Entry<T>>, last: Metadata, lastEnd: nat, i: nat,
      id: nat, base: nat, rec: RecoveryPacket<T>, list': seq<Entry<T>>)
    requires FromFirst(log, n, list, last, lastEnd) && n <= i + 1 <= |log|
    requires rec.meta == log[i].meta && rec.end == log[i].end && rec.meta.sumCount > 1
    requires base + rec.meta.ldpcCount <= rec.end && SamePackets(JoinedList(list, id, base, rec), list')
    ensures FromFirst(log, i + 1, list', rec.meta, rec.end)
  {
    hide AmongFirst, Place;
    assert AmongFirst(log, i + 1, rec.meta, rec.end) by {
      TheLast(log, i, rec.meta, rec.end);
    }
    var e := Entry(id, rec, rec.end - base - rec.meta.ldpcCount, rec.end - base, 0);
    var k := Place(list, e);
    forall j | 0 <= j < |list'| ensures AmongFirst(log, i + 1, list'[j].rec.meta, list'[j].rec.end) {
      assert list'[j].rec == JoinedList(list, id, base, rec)[j].rec;
      if j != k {
        var l := if j < k then j else j - 1;
        StillAmong(log, log, n, i + 1, list[l].rec.meta, list[l].rec.end);
      }
    }
  }

  lemma TheLast(log: seq<Emission>, i: nat, meta: Metadata, end: nat)
    requires i < |log| && log[i].meta == meta && log[i].end == end && meta.sumCount > 1
    ensures AmongFirst(log, i + 1, meta, end)
  {
  }

  /** Where the n-th recovery packet ends. */
  function EndOf(log: seq<Emission>, n: nat): nat
    requires n <= |log|
  {
    if n == 0 then 0 else log[n - 1].end
  }

  /** Before columns wrap around, the order test takes no packet in order for an old one. */
  lemma NextIsNotOld(log: seq<Emission>, n: nat, i: nat, latest: Column)
    requires InOrder(log) && n <= i + 1 <= |log| && latest <= EndOf(log, n) && log[i].end < HALF
    requires MetadataOk(log[i].meta, log[i].end)
    ensures !OutOfOrder(log[i].meta, latest) && log[i].meta.columnStart + log[i].meta.sumCount == log[i].end
  {
    hide Follows;
    assert n > 0 && n - 1 < i ==> log[n - 1].end <= log[i].end;
    WrapSmall(log[i].end - log[i].meta.sumCount);
    OrderByColumns(log[i].meta, latest);
  }

  /** A decoder at work that has been given none but the first n recovery packets, in order. */
  ghost predicate Steady<T(0, !new)>(session: Session<T>, n: nat)
    reads session, session.encoder, session.encoder.nextElement, session.encoder.sums, session.losses
    reads session.decoder, session.decoder.window, session.decoder.matrix, session.decoder.matrix.data
  {
    && session.Valid() && !session.decoder.disabled && n <= |session.encoder.emitted|
    && (|session.encoder.hist| < HALF ==> session.decoder.latestColumn <= EndOf(session.encoder.emitted, n))
    && DecoderAligned(session.decoder)
    && FromFirst(session.encoder.emitted, n, session.decoder.list, session.decoder.lastMeta, session.decoder.lastEnd)
  }

  lemma EmittedInOrder<T(0, !new)>(session: Session<T>)
    requires session.Valid()
    ensures InOrder(session.encoder.emitted) && session.decoder.Sound() && session.decoder.window.Sound()
    ensures session.encoder.FirstUnacked() <= session.decoder.NextExpected()
  {
    hide IsField, Encoder.Valid, Decoder.Checked, InOrder, RowsInTurn;
  }

  lemma DeliveredIsSafe<T(0, !new)>(session: Session<T>, rec: RecoveryPacket<T>)
    requires session.Valid() && rec in session.recoveries
    ensures rec.meta.sumCount >= 1 && rec.end <= |session.encoder.hist|
    ensures MetadataOk(rec.meta, rec.end) && rec.end - rec.meta.ldpcCount <= session.decoder.NextExpected()
  {
    hide IsField, Encoder.Valid, Encoder.InTurn, Decoder.Checked, Decoder.Sound, IsRecoveryOf;
    assert session.RecoverySafe(rec, session.encoder.FirstUnacked());
  }

  /** A new session is steady. */
  lemma StartIsSteady<T(0, !new)>(session: Session<T>)
    requires session.Valid() && !session.decoder.disabled && session.decoder.list == []
             && session.decoder.latestColumn == 0
    requires session.decoder.window.base == 0 && session.decoder.Last() == (Metadata(0, 0, 0, 0), 0)
    ensures Steady(session, 0)
  {
    hide IsField, Session.Valid;
  }

  /** The next recovery packet, or any later one; in a run of fewer packets than half a period that is all it
      takes, but that a packet sent again holds one that is missing. */
  method DeliverInOrder<T(==, 0, !new)>(session: Session<T>, rec: RecoveryPacket<T>, ghost n: nat, ghost i: nat)
    requires Steady(session, n) && rec in session.recoveries && InReach(rec.end, session.decoder.window.base)
    requires n <= i + 1 <= |session.encoder.emitted| && session.encoder.emitted[i].meta == rec.meta
             && session.encoder.emitted[i].end == rec.end
    requires |session.encoder.hist| < HALF || !OutOfOrder(rec.meta, session.decoder.latestColumn)
    requires !session.decoder.Corrupt(rec)
    requires rec.meta.sumCount < MAX_PACKETS && (rec.meta.sumCount == 1 ==> rec.end > session.decoder.NextExpected())
    modifies session.decoder, session.decoder.window, session.decoder.matrix
    ensures Steady(session, i + 1)
  {
    hide IsField, Session.Valid, Decoder.Sound, Follows, InOrder, Decoder.ArrivalOf, Decoder.SumWith, AmongFirst;
    hide Decoder.ListWith, SamePackets, JoinedList, Aligned, LeftAfter, Decoder.Takes, Decoder.Corrupt, OutOfOrder;
    hide Wrap, MetadataOk, Decoder.Received, Keeps;
    EmittedInOrder(session);
    DeliveredIsSafe(session, rec);
    ghost var d, log := session.decoder, session.encoder.emitted;
    if |session.encoder.hist| < HALF {
      NextIsNotOld(log, n, i, d.latestColumn);
    }
    NextComes(log, n, d.list, d.lastMeta, d.lastEnd, i, rec);
    ArrivalIsAligned(d, rec);
    d.ArrivalIff(rec);
    ghost var a, list0, sum, base := d.ArrivalOf(rec), d.list, d.SumWith(rec), d.window.base;
    ghost var last0, joined, id := d.Last(), if a.Joins? then d.ListWith(rec) else [], d.nextId;
    d.ListIsOk();
    ghost var next, count := d.window.nextExpected, d.window.count;
    var r := session.DeliverRecovery(rec);
    if a.Joins? {
      SameAligned(joined, d.list, rec.meta, rec.end, sum, d.window.base);
      JoinedFromFirst(log, n, list0, last0.0, last0.1, i, id, base, rec, d.list);
    } else if a.Unneeded? {
      SameAligned(list0, d.list, rec.meta, rec.end, sum, d.window.base);
      NothingHeld(log, i, d.list, rec);
    } else if a.Single? {
      TrimmedIsAligned(list0, d.window.nextExpected, base, next, count, id, last0.0, last0.1, sum);
      LeftFromFirst(log, n, i + 1, list0, d.window.nextExpected, last0.0, last0.1);
    } else {
      SameAligned(list0, d.list, last0.0, last0.1, sum, base);
      SameFromFirst(log, n, i + 1, list0, d.list, last0.0, last0.1);
    }
  }

  lemma NothingHeld<T>(log: seq<Emission>, i: nat, list: seq<Entry<T>>, rec: RecoveryPacket<T>)
    requires i < |log| && log[i].meta == rec.meta && log[i].end == rec.end && rec.meta.sumCount > 1
    requires SamePackets([], list)
    ensures FromFirst(log, i + 1, list, rec.meta, rec.end)
  {
    TheLast(log, i, rec.meta, rec.end);
  }

  /** An original packet, early or late, once or again. */
  method OriginalAtAnyTime<T(==, 0, !new)>(session: Session<T>, packetNum: nat, packet: seq<T>, ghost k: nat,
      ghost n: nat) returns (r: Result)
    requires Steady(session, n) && k < |session.encoder.hist| && packet == session.encoder.hist[k]
    requires packetNum == Wrap(k) && InReach(k, session.decoder.window.base)
    modifies session.decoder`list, session.decoder`region, session.decoder.window, session.decoder.matrix
    ensures Steady(session, n) && !r.Disabled?
  {
    hide IsField, Session.Valid, Decoder.Sound, AmongFirst, Aligned, LeftAfter, Wrap, Decoder.Received, Keeps, Placed;
    EmittedInOrder(session);
    ghost var d, log, list0 := session.decoder, session.encoder.emitted, session.decoder.list;
    d.ListIsOk();
    ghost var next, count, id := d.window.nextExpected, d.window.count, d.nextId;
    r := session.DeliverOriginal(packetNum, packet, k);
    TrimmedIsAligned(list0, d.window.nextExpected, d.window.base, next, count, id, d.lastMeta, d.lastEnd, d.Sum());
    LeftFromFirst(log, n, n, list0, d.window.nextExpected, d.lastMeta, d.lastEnd);
  }

  lemma RecountedIsSame<T>(list: seq<Entry<T>>, list': seq<Entry<T>>, base: nat, next: nat, count: nat, nextId: nat)
    requires Recounted(list, list') && ListOk(list, base, next, count, nextId)
    ensures SamePackets(list, list') && ListOk(list', base, next, count, nextId)
  {
    forall i | 0 <= i < |list'| ensures EntryOk(list'[i], base, next, count) {
      assert EntryOk(list[i], base, next, count);
    }
    forall i, j | 0 <= i < j < |list'| ensures Before(list'[i], list'[j]) && list'[i].id != list'[j].id {
      assert Before(list[i], list[j]);
    }
  }

  /** An attempt to recover what is missing. */
  method RecoverAtAnyTime<T(==, 0, !new)>(session: Session<T>, ghost n: nat)
    returns (r: Result, packets: seq<Original<T>>)
    requires Steady(session, n)
    modifies session.decoder, session.decoder.window, session.decoder.matrix, session.decoder.matrix.data
    ensures Steady(session, n) && (r.Success? || r.NeedMore?)
    ensures forall i :: 0 <= i < |packets| ==> IsSent(session.encoder.hist, packets[i])
  {
    hide IsField, Session.Valid, Decoder.Sound, AmongFirst, Aligned, LeftAfter, Wrap, Decoder.Received, Keeps, ListOk;
    hide IsTrial, TrialOutcome, IsBasis, SamePackets, Recounted, TrialLeft, RegionOk, NextMissing, FromFirst;
    hide Decoder.Waits, RegionLost;
    EmittedInOrder(session);
    ghost var d, log, list0, region0 := session.decoder, session.encoder.emitted, session.decoder.list,
      session.decoder.region;
    d.ListIsOk();
    LastIsRecent(d.list, d.lastMeta, d.lastEnd, d.Sum(), d.window.base);
    ghost var got, base, next, id, tries := d.window.Got(), d.window.base, d.window.nextExpected, d.nextId,
      !d.hasRecovered;
    ghost var last, lastEnd, sum := d.lastMeta, d.lastEnd, d.Sum();
    ghost var t, o;
    r, packets, t, o := session.Recover();
    if tries {
      TrialIsAligned(d.code, list0, region0, got, t, last, lastEnd, sum, base, next, id);
      if r.Success? {
        LeftIsHeld(log, n, list0, t, got, base, last, lastEnd, sum, d.list);
        SameAligned(TrialLeft(t, got, base, last, sum).list, d.list, last, lastEnd, d.Sum(), d.window.base);
      } else {
        WaitsIsSame(d, t);
        SameAgain(list0, t.list, d.list);
        SameAligned(list0, d.list, last, lastEnd, sum, base);
        SameFromFirst(log, n, n, list0, d.list, last, lastEnd);
      }
    }
  }

  lemma LeftIsHeld<T(!new)>(log: seq<Emission>, n: nat, list0: seq<Entry<T>>, t: Trial<T>, got: seq<bool>, base: nat,
      last: Metadata, lastEnd: nat, sum: Running, list': seq<Entry<T>>)
    requires FromFirst(log, n, list0, last, lastEnd) && SamePackets(list0, t.list)
    requires RegionOk(t.region, t.list, got) && |t.used| == t.region.recoveryCount <= |t.list|
    requires t.region.nextCheckStart <= |got|
    requires var left := TrialLeft(t, got, base, last, sum);
             left.list == LeftAfter(t.list, NextMissing(got, t.region.nextCheckStart)) && SamePackets(left.list, list')
    ensures FromFirst(log, n, list', last, lastEnd)
  {
    hide FromFirst, SamePackets, LeftAfter, NextMissing, TrialLeft, RegionOk;
    SameFromFirst(log, n, n, list0, t.list, last, lastEnd);
    LeftFromFirst(log, n, n, t.list, NextMissing(got, t.region.nextCheckStart), last, lastEnd);
    SameFromFirst(log, n, n, LeftAfter(t.list, NextMissing(got, t.region.nextCheckStart)), list', last, lastEnd);
  }

  lemma LastIsRecent<T>(list: seq<Entry<T>>, last: Metadata, lastEnd: nat, sum: Running, base: nat)
    requires Aligned(list, last, lastEnd, sum, base)
    ensures base - lastEnd <= HALF
  {
  }

  lemma WaitsIsSame<T(0, !new)>(d: Decoder<T>, t: Trial<T>)
    requires d.Waits(t)
    ensures SamePackets(t.list, d.list)
  {
  }

  /** An attempt leaves everything in place. */
  lemma TrialIsAligned<T(!new)>(code: Code<T>, list0: seq<Entry<T>>, region0: Region, got: seq<bool>, t: Trial<T>,
      last: Metadata, lastEnd: nat, sum: Running, base: nat, next: nat, id: nat)
    requires ListOk(list0, base, next, |got|, id) && Aligned(list0, last, lastEnd, sum, base) && |got| <= HALF
    requires IsTrial(list0, region0, got, t) && lastEnd <= base + |got|
    ensures SamePackets(list0, t.list) && t.region.nextCheckStart <= |got| && RegionOk(t.region, t.list, got)
    ensures t.tried ==> |t.used| == t.region.recoveryCount
    ensures var o := TrialOutcome(code, t, got, base, last, sum);
            && !o.SumLost? && o != Solved(Disables)
            && (o.Solved? ==>
                  && t.tried && t.region.recoveryCount <= |t.list|
                  && var left := TrialLeft(t, got, base, last, sum);
                  && left.list == LeftAfter(t.list, NextMissing(got, t.region.nextCheckStart))
                  && Aligned(left.list, last, lastEnd, left.sum, base + Dropped(o.removal)))
  {
    hide ListOk, Aligned, Recounted, RegionOk, Furthers, OutcomeOf, SamePackets, LeftAfter, NextMissing, Follow;
    RecountedIsSame(list0, t.list, base, next, |got|, id);
    SameAligned(list0, t.list, last, lastEnd, sum, base);
    RegionCoversNext(t.region, t.list, got, base, next, id);
    RegionEnd(t.region, t.list, got);
    if t.tried {
      OutcomeIsAligned(code, t.list, t.region, t.used, got, last, lastEnd, sum, base, next, id);
    }
  }

  /** Asking whether something can be recovered. */
  method ReadyAtAnyTime<T(==, 0, !new)>(session: Session<T>, ghost n: nat) returns (ready: bool)
    requires Steady(session, n)
    modifies session.decoder`list, session.decoder`region
    ensures Steady(session, n)
  {
    hide IsField, Session.Valid, Decoder.Sound, AmongFirst, Aligned, ListOk, Recounted;
    EmittedInOrder(session);
    ghost var d, list0, log := session.decoder, session.decoder.list, session.encoder.emitted;
    d.ListIsOk();
    ready := session.Ready();
    RecountedIsSame(list0, d.list, d.window.base, d.window.nextExpected, d.window.count, d.nextId);
    SameAligned(list0, d.list, d.lastMeta, d.lastEnd, d.Sum(), d.window.base);
    SameFromFirst(log, n, n, list0, d.list, d.lastMeta, d.lastEnd);
  }

  /** The application sends, the encoder emits, an acknowledgement goes out or arrives: the decoder is as
      before, and the log only grows. */
  twostate lemma OtherEvent<T(0, !new)>(session: Session<T>, n: nat)
    requires old(Steady(session, n)) && session.Valid() && unchanged(session.decoder, session.decoder.window)
    requires old(session.encoder.emitted) <= session.encoder.emitted
             && |old(session.encoder.hist)| <= |session.encoder.hist|
    ensures Steady(session, n)
  {
    hide IsField, Session.Valid, Aligned, AmongFirst;
    forall i | 0 <= i < |session.decoder.list| ensures Has(session.decoder.list, session.decoder.list[i].rec) {
    }
    StillFromFirst(old(session.encoder.emitted), session.encoder.emitted, n, n, session.decoder.list,
        session.decoder.list, session.decoder.lastMeta, session.decoder.lastEnd);
  }
}
