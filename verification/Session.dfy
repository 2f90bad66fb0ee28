/** An encoder and a decoder joined by a network that may lose, repeat and reorder anything.

    Each method is one event: the application sends a packet, either side emits a message, or the
    network delivers a message that was emitted at any earlier time.  Keeping `Valid` in every
    event makes it hold after every run.  Numbers on the wire are columns, modulo the period; a
    message may be delivered while its true number is within half a period of the receiver. */
module Sessions {
  import opened Options
  import opened Bytes
  import opened Fields
  import opened BackSubstitutions
  import opened Missing
  import opened BitSets
  import opened Columns
  import opened Recovery
  import opened Emissions
  import opened Encoders
  import opened Rows
  import opened Serializers
  import opened DecoderWindows
  import opened RecoveryLists
  import opened Removals
  import opened Decoders
  import opened Acknowledgements

  /** Whether a column number tells the true number, seen from a given place. */
  predicate InReach(n: int, from: int) { -HALF <= n - from < HALF }

  // ----- the order of recovery packets

  /** When the order test of a recovery packet is right: always for a packet that is late, and for
      any other exactly when its first column and the latest column lie in the same period. */
  lemma OrderTest(meta: Metadata, end: nat, latest: nat)
    requires MetadataOk(meta, end) && -HALF < end - latest < HALF
    ensures (OutOfOrder(meta, Wrap(latest)) <==> end < latest) <==>
              (end < latest || (end - meta.sumCount) / COLUMN_PERIOD == latest / COLUMN_PERIOD)
  {
    var start := end - meta.sumCount;
    var q, r := start / COLUMN_PERIOD, latest / COLUMN_PERIOD;
    assert meta.columnStart == start - q * COLUMN_PERIOD && Wrap(latest) == latest - r * COLUMN_PERIOD;
    assert meta.columnStart + meta.sumCount - Wrap(latest) == (end - latest) - (q - r) * COLUMN_PERIOD;
    PeriodsNear(start, latest);
  }

  lemma PeriodsNear(a: nat, b: nat)
    requires -COLUMN_PERIOD < a - b < COLUMN_PERIOD
    ensures -1 <= a / COLUMN_PERIOD - b / COLUMN_PERIOD <= 1
  {
  }

  /** A packet that is newer than all before it, and that the order test takes for an old one. */
  lemma OrderTestFails()
    ensures var meta := Metadata(0, 2, 5, 5);
            && MetadataOk(meta, COLUMN_PERIOD + 7) && COLUMN_PERIOD + 7 > COLUMN_PERIOD - 5
            && OutOfOrder(meta, Wrap(COLUMN_PERIOD - 5))
  {
  }

  /** The order test in terms of the columns that it sees. */
  lemma OrderByColumns(meta: Metadata, latest: nat)
    requires meta.columnStart < COLUMN_PERIOD && meta.sumCount <= COLUMN_PERIOD && latest < COLUMN_PERIOD
    ensures OutOfOrder(meta, latest) <==>
              meta.columnStart + meta.sumCount < latest
                || meta.columnStart + meta.sumCount >= latest + COLUMN_PERIOD / 2
  {
  }

  /** Once the first column of a packet has wrapped around, the packet is taken for an old one exactly
      until its last column has come round to the latest one. */
  lemma OrderAfterWrap(meta: Metadata, end: nat, latest: nat)
    requires MetadataOk(meta, end) && (end - meta.sumCount) / COLUMN_PERIOD == latest / COLUMN_PERIOD + 1
    requires end < latest + COLUMN_PERIOD + HALF
    ensures OutOfOrder(meta, Wrap(latest)) <==> end < latest + COLUMN_PERIOD
  {
    var start := end - meta.sumCount;
    var q := latest / COLUMN_PERIOD;
    assert meta.columnStart == start - (q + 1) * COLUMN_PERIOD && Wrap(latest) == latest - q * COLUMN_PERIOD;
  }

  /** A recovery packet and the true number where it ends. */
  datatype Numbered = Numbered(meta: Metadata, end: nat)

  /** LatestColumn after a run of recovery packets. */
  function LatestAfter(run: seq<Numbered>, latest: nat): nat {
    if run == [] then latest
    else
      var before := LatestAfter(run[..|run| - 1], latest);
      var meta := run[|run| - 1].meta;
      if OutOfOrder(meta, before) then before else (meta.columnStart + meta.sumCount) % COLUMN_PERIOD
  }

  /** The packet of a run that the decoder would go by: the last one that is not out of order. */
  function LastAfter(run: seq<Numbered>, latest: nat, last: Numbered): Numbered {
    if run == [] then last
    else
      var before := run[..|run| - 1];
      if OutOfOrder(run[|run| - 1].meta, LatestAfter(before, latest)) then LastAfter(before, latest, last)
      else run[|run| - 1]
  }

  /** After a wrap-around the metadata is frozen: whatever arrives, and however many, until a packet
      comes round to the latest column, both the latest column and the last metadata stay. */
  lemma {:induction false} FrozenAfterWrap(run: seq<Numbered>, latest: nat, last: Numbered)
    requires forall i :: 0 <= i < |run| ==>
               && MetadataOk(run[i].meta, run[i].end) && run[i].end < latest + COLUMN_PERIOD
               && (run[i].end - run[i].meta.sumCount) / COLUMN_PERIOD == latest / COLUMN_PERIOD + 1
    ensures LatestAfter(run, Wrap(latest)) == Wrap(latest) && LastAfter(run, Wrap(latest), last) == last
  {
    hide OutOfOrder, MetadataOk, Wrap;
    if run != [] {
      var x := run[|run| - 1];
      FrozenAfterWrap(run[..|run| - 1], latest, last);
      OrderAfterWrap(x.meta, x.end, latest);
    }
  }

  /** So the metadata goes stale: with the latest column 1000 before the first wrap-around, rows over 100
      packets that end anywhere in the next period change nothing, and at its end the decoder goes
      by metadata that makes it drop 960 elements if nothing is in its list
      (`Removals.StaleMetadata`). */
  lemma FrozenThenStale(run: seq<Numbered>, last: Numbered)
    requires last.meta == Metadata(0, COLUMN_PERIOD - 1100, 100, 10) && last.end == COLUMN_PERIOD - 1000
    requires forall i :: 0 <= i < |run| ==>
               && MetadataOk(run[i].meta, run[i].end) && run[i].meta.sumCount == 100
               && COLUMN_PERIOD + 200 <= run[i].end < 2 * COLUMN_PERIOD - 1000
    ensures LastAfter(run, Wrap(last.end), last) == last
    ensures EndElement(LastAfter(run, Wrap(last.end), last).meta, Wrap(2 * COLUMN_PERIOD - 2000)) == 1000
  {
    hide OutOfOrder, MetadataOk;
    forall i | 0 <= i < |run|
      ensures (run[i].end - run[i].meta.sumCount) / COLUMN_PERIOD == last.end / COLUMN_PERIOD + 1
    {
    }
    FrozenAfterWrap(run, last.end, last);
    StaleMetadata<byte>(Running(0, 0), REMOVE_THRESHOLD, REMOVE_THRESHOLD);
  }

  // ----- growing histories

  lemma AgreeLonger<T>(code: Code<T>, received: seq<seq<T>>, list: seq<Entry<T>>, recovered: seq<Original<T>>,
      hist: seq<seq<T>>, hist': seq<seq<T>>)
    requires Agreement(code, received, list, recovered, hist) && hist <= hist'
    ensures Agreement(code, received, list, recovered, hist')
  {
    forall i | 0 <= i < |list| ensures Made(code, hist', list[i].rec) {
      MadeLonger(code, hist, hist', list[i].rec);
    }
  }

  lemma MadeLonger<T>(code: Code<T>, hist: seq<seq<T>>, hist': seq<seq<T>>, rec: RecoveryPacket<T>)
    requires Made(code, hist, rec) && hist <= hist'
    ensures Made(code, hist', rec)
  {
    hide IsRecoveryOf;
    assert hist'[..rec.end] == hist[..rec.end];
  }

  lemma AgreeFewer<T>(code: Code<T>, received: seq<seq<T>>, list: seq<Entry<T>>, list': seq<Entry<T>>,
      recovered: seq<Original<T>>, hist: seq<seq<T>>)
    requires Agreement(code, received, list, recovered, hist) && (forall e :: e in list' ==> e in list)
    ensures Agreement(code, received, list', recovered, hist)
  {
    hide Made;
    forall i | 0 <= i < |list'| ensures Made(code, hist, list'[i].rec) {
      assert list'[i] in list;
    }
  }

  lemma RecoveryMetadataOk<T>(code: Code<T>, hist: seq<seq<T>>, meta: Metadata, payload: seq<T>)
    requires IsRecoveryOf(code, hist, meta, payload)
    ensures MetadataOk(meta, |hist|) && Made(code, hist, RecoveryPacket(meta, payload, |hist|))
  {
    hide Combination;
    assert hist[..|hist|] == hist;
  }

  /** An acknowledgement on its way, with the true number it stands for. */
  datatype SentAck = SentAck(bytes: seq<byte>, next: nat)

  ghost predicate Announces(ack: SentAck) {
    var header := DeserializePacketNum(ack.bytes);
    header.Some? && header.value.value == Wrap(ack.next)
  }

  class Session<T(==, 0, !new)> {
    const encoder: Encoder<T>
    const losses: LossIterator
    const decoder: Decoder<T>

    /** Every recovery packet and every acknowledgement emitted so far. */
    ghost var recoveries: set<RecoveryPacket<T>>
    ghost var acks: set<SentAck>

    /** The true number of the last acknowledgement that the encoder accepted. */
    ghost var acknowledged: nat

    ghost predicate Separate()
      reads this, decoder.matrix
    {
      && decoder.matrix.data as object != encoder.nextElement
      && decoder.matrix.data as object != encoder.sums
    }

    ghost predicate Valid()
      reads this, encoder, encoder.nextElement, encoder.sums, losses, decoder, decoder.window, decoder.matrix,
        decoder.matrix.data
    {
      && Separate() && encoder.Valid() && encoder.InTurn() && losses.Valid() && decoder.Valid()
      && decoder.code == encoder.code
      && decoder.Agrees(encoder.hist) && decoder.Readable(encoder.hist)
      && losses.nextColumnExpected == Wrap(acknowledged)
      && Safe()
    }

    /** The encoder never gives up a packet that the decoder misses, the decoder never gives up one
        that the encoder may still refer to, and no message in flight refers to one that either has
        given up. */
    ghost predicate Safe()
      reads this, encoder, decoder, decoder.window
    {
      && decoder.started <= encoder.FirstUnacked() <= decoder.NextExpected() && acknowledged <= decoder.NextExpected()
      && (forall rec :: rec in recoveries ==>
           RecoverySafe(rec, encoder.FirstUnacked()) && Made(decoder.code, encoder.hist, rec))
      && (forall a :: a in acks ==> a.next <= decoder.NextExpected() && Announces(a))
    }

    /** ColumnStart <= the start of the light part <= the first packet that is not acknowledged. */
    static ghost predicate RecoverySafe(rec: RecoveryPacket<T>, unacked: nat) {
      MetadataOk(rec.meta, rec.end) && rec.end - rec.meta.sumCount <= rec.end - rec.meta.ldpcCount <= unacked
    }

    constructor (code: Code<T>, parse: seq<T> -> Option<nat>)
      requires IsField(code.F)
      ensures Valid() && encoder.hist == [] && fresh(encoder) && fresh(decoder) && fresh(losses)
      ensures decoder.code == code && decoder.parse == parse && decoder.NextExpected() == 0
      ensures !decoder.stale && !decoder.hasRecovered && !decoder.disabled
    {
      hide IsField, Encoder.Valid, Encoder.InTurn, Decoder.Sound, Decoder.Checked, LossIterator.Valid, Agreement;
      hide Framed;
      encoder := new Encoder(code);
      losses := new LossIterator();
      decoder := new Decoder(code, parse);
      recoveries, acks, acknowledged := {}, {}, 0;
      new;
      decoder.NewAgrees();
      WrapSmall(0);
    }

    // ----- the encoder's events

    /** The application sends a packet. */
    method Send(packet: seq<T>) returns (ok: bool)
      requires Valid() && packet != [] && Framed(decoder.code.F, decoder.parse, packet)
      modifies encoder
      ensures Valid() && encoder.hist == if ok then old(encoder.hist) + [packet] else old(encoder.hist)
      ensures encoder.emitted == old(encoder.emitted)
    {
      hide IsField, Encoder.Valid, Encoder.InTurn, Decoder.Sound, Decoder.Checked, LossIterator.Valid, Agreement;
      hide Framed, Made, RecoverySafe, Announces;
      ok := encoder.Add(packet);
      HistoryGrows(old(encoder.hist));
    }

    lemma HistoryGrows(hist: seq<seq<T>>)
      requires decoder.Sound() && decoder.Agrees(hist) && hist <= encoder.hist
      requires forall rec :: rec in recoveries ==> Made(decoder.code, hist, rec)
      ensures decoder.Agrees(encoder.hist)
      ensures forall rec :: rec in recoveries ==> Made(decoder.code, encoder.hist, rec)
    {
      hide Agreement, Made;
      AgreeLonger(decoder.code, decoder.Received(), decoder.list, decoder.recovered, hist, encoder.hist);
      forall rec | rec in recoveries ensures Made(decoder.code, encoder.hist, rec) {
        MadeLonger(decoder.code, hist, encoder.hist, rec);
      }
    }

    /** The encoder emits a recovery packet. */
    method Emit() returns (r: EncodeResult<T>)
      requires Valid()
      modifies this`recoveries, encoder, encoder.nextElement, encoder.sums
      ensures Valid() && encoder.hist == old(encoder.hist)
      ensures r.NeedMoreData? <==> old(encoder.FirstUnacked()) == |encoder.hist|
      ensures r.NeedMoreData? ==> recoveries == old(recoveries)
      ensures r.Packet? ==>
                && recoveries == old(recoveries) + {RecoveryPacket(r.meta, r.payload, |encoder.hist|)}
                && |encoder.hist| - r.meta.ldpcCount == old(encoder.FirstUnacked())
      ensures encoder.emitted ==
                old(encoder.emitted) + if r.Packet? then [Emission(r.kind, r.meta, |encoder.hist|)] else []
    {
      hide IsField, Encoder.Valid, Encoder.InTurn, Decoder.Sound, Decoder.Checked, LossIterator.Valid, Agreement;
      hide Framed, Made, Announces, IsRecoveryOf, Wrap;
      r := encoder.Encode();
      if r.Packet? {
        RecoveryMetadataOk(encoder.code, encoder.hist, r.meta, r.payload);
        ghost var rec := RecoveryPacket(r.meta, r.payload, |encoder.hist|);
        recoveries := recoveries + {rec};
        assert RecoverySafe(rec, encoder.FirstUnacked());
      }
    }

    /** An acknowledgement reaches the encoder, which forgets what has been received. */
    method DeliverAck(bytes: seq<byte>, ghost next: nat) returns (outcome: AckOutcome)
      requires Valid() && SentAck(bytes, next) in acks
      requires InReach(next, encoder.base) && InReach(next, acknowledged)
      modifies this`acknowledged, losses, encoder
      ensures Valid() && encoder.hist == old(encoder.hist) && encoder.emitted == old(encoder.emitted)
      ensures outcome == Stale <==> next < old(acknowledged)
      ensures outcome == Duplicate <==> old(losses.Repeats(bytes))
      ensures encoder.FirstUnacked() ==
                if outcome == Accepted && next > old(encoder.FirstUnacked()) then next
                else old(encoder.FirstUnacked())
    {
      hide IsField, Encoder.Valid, Encoder.InTurn, Decoder.Sound, Decoder.Checked, Framed, Made, RecoverySafe, Wrap;
      hide DeserializePacketNum, Listed;
      AgreesLength();
      SubtractWrapped(next, acknowledged);
      assert Announces(SentAck(bytes, next));
      outcome := losses.OnAcknowledgementData(encoder, bytes);
      if outcome == Accepted || outcome == Invalid {
        acknowledged := next;
      }
      SafeLater(old(encoder.FirstUnacked()));
    }

    lemma SafeLater(unacked: nat)
      requires unacked <= encoder.FirstUnacked() && forall rec :: rec in recoveries ==> RecoverySafe(rec, unacked)
      ensures forall rec :: rec in recoveries ==> RecoverySafe(rec, encoder.FirstUnacked())
    {
      hide MetadataOk;
    }

    /** The next expected packet is at most the next one to be sent. */
    lemma AgreesLength()
      requires Valid()
      ensures decoder.NextExpected() <= |encoder.hist|
    {
      hide IsField, Encoder.Valid, Encoder.InTurn, Decoder.Checked, ListOk, Framed, Made, Wrap;
    }

    // ----- the decoder's events

    /** An original packet reaches the decoder. */
    method DeliverOriginal(packetNum: nat, packet: seq<T>, ghost n: nat) returns (r: Result)
      requires Valid() && n < |encoder.hist| && packet == encoder.hist[n]
      requires packetNum == Wrap(n) && InReach(n, decoder.window.base)
      modifies decoder`list, decoder`region, decoder.window, decoder.matrix
      ensures Valid() && decoder.NextExpected() >= old(decoder.NextExpected())
      ensures r == if old(decoder.disabled) then Disabled else if old(decoder.Lacks(n)) then Success else DuplicateData
      ensures decoder.Received() ==
                if r.Success? then Placed(old(decoder.Received()), n, packet)
                else old(decoder.Received())
      ensures Keeps(old(decoder.Received()), decoder.Received()) && decoder.window.base == old(decoder.window.base)
      ensures decoder.matrix.data == old(decoder.matrix.data)
      ensures !r.Disabled? ==> n < |decoder.Received()| && decoder.Received()[n] == packet
      ensures decoder.list == LeftAfter(old(decoder.list), decoder.window.nextExpected)
    {
      hide IsField, Encoder.Valid, Encoder.InTurn, Decoder.Checked, LossIterator.Valid, ListOk, Decoder.LastOk, AllOk;
      hide Uniform, BitSets.Bits, Packets, Wrap, Framed, Made, RecoverySafe, Announces, Agreement;
      ghost var received, list0 := decoder.Received(), decoder.list;
      AgreesReceived(n);
      r := decoder.AddOriginal(packetNum, packet, n);
      if r.Success? {
        AgreePlaced(decoder.code, received, list0, decoder.list, decoder.recovered, encoder.hist, n);
        KeepsPlaced(received, n, packet);
      } else {
        AgreeFewer(decoder.code, received, list0, decoder.list, decoder.recovered, encoder.hist);
      }
      StillSafe(old(decoder.NextExpected()));
    }

    lemma AgreesReceived(n: nat)
      requires Valid() && n < |encoder.hist|
      ensures n < |decoder.Received()| && decoder.Received()[n] != [] ==> decoder.Received()[n] == encoder.hist[n]
      ensures encoder.hist[n] != []
    {
    }

    /** A later next expected packet is as safe. */
    lemma StillSafe(next: nat)
      requires decoder.started <= encoder.FirstUnacked() <= next <= decoder.NextExpected() && acknowledged <= next
      requires forall rec :: rec in recoveries ==>
                 RecoverySafe(rec, encoder.FirstUnacked()) && Made(decoder.code, encoder.hist, rec)
      requires forall a :: a in acks ==> a.next <= next && Announces(a)
      ensures Safe()
    {
      hide Made, Announces;
    }

    /** A recovery packet reaches the decoder. */
    method DeliverRecovery(rec: RecoveryPacket<T>) returns (r: Result)
      requires Valid() && rec in recoveries && InReach(rec.end, decoder.window.base)
      modifies decoder, decoder.window, decoder.matrix
      ensures Valid() && decoder.NextExpected() >= old(decoder.NextExpected())
      ensures Keeps(old(decoder.Received()), decoder.Received()) && decoder.stale == old(decoder.stale)
      ensures decoder.matrix.data == old(decoder.matrix.data)
      ensures r ==
                if old(decoder.disabled) || (old(decoder.Takes(rec)) && old(decoder.Corrupt(rec))) then Disabled
                else Success
      ensures decoder.disabled <==> r.Disabled? || old(RemovalOf(decoder.ArrivalOf(rec))).Disables?
      ensures !old(decoder.disabled) ==>
                && decoder.window.base == old(decoder.window.base) + Dropped(old(RemovalOf(decoder.ArrivalOf(rec))))
                && decoder.Sum() == old(decoder.SumWith(rec))
      ensures !old(decoder.disabled) && old(decoder.ArrivalOf(rec)).Joins? ==>
                SamePackets(old(decoder.ListWith(rec)), decoder.list)
      ensures !old(decoder.disabled) && old(decoder.ArrivalOf(rec)).Single? ==>
                decoder.list == LeftAfter(old(decoder.list), decoder.window.nextExpected)
      ensures !old(decoder.Takes(rec)) ==> SamePackets(old(decoder.list), decoder.list)
      ensures decoder.Last() ==
                if !old(decoder.disabled)
                  && (old(decoder.ArrivalOf(rec)).Unneeded? || old(decoder.ArrivalOf(rec)).Joins?)
                then old(decoder.LastWith(rec)) else old(decoder.Last())
      ensures !old(decoder.ArrivalOf(rec)).Single? ==> decoder.hasRecovered == old(decoder.hasRecovered)
      ensures (decoder.NextExpected() == old(decoder.NextExpected())
                && decoder.hasRecovered == old(decoder.hasRecovered))
              || decoder.hasRecovered
      ensures OutOfOrder(rec.meta, old(decoder.latestColumn)) ==>
                decoder.latestColumn == old(decoder.latestColumn) && decoder.lastMeta == old(decoder.lastMeta)
      ensures decoder.latestColumn ==
                if old(decoder.disabled) || OutOfOrder(rec.meta, old(decoder.latestColumn))
                then old(decoder.latestColumn)
                else (rec.meta.columnStart + rec.meta.sumCount) % COLUMN_PERIOD
      ensures !old(decoder.disabled) && old(decoder.NextExpected()) < rec.end
              && old(decoder.window.base) <= rec.end - rec.meta.ldpcCount
              && (old(decoder.window.count) == 0 ==> old(decoder.latestColumn) <= rec.end)
              && (|| old(decoder.window.count) == 0 || rec.meta.sumCount <= 64
                  || old(decoder.window.base) <= rec.end - rec.meta.sumCount
                       < old(decoder.window.base + decoder.window.count)
                  || (old(decoder.sumColumnCount) > 0 && old(decoder.sumColumnStart) == rec.meta.columnStart)) ==>
                if rec.meta.sumCount == 1
                then r.Disabled? || (rec.end <= |decoder.Received()| && decoder.Received()[rec.end - 1] != [])
                else exists i :: 0 <= i < |decoder.list| && decoder.list[i].rec == rec
    {
      hide IsField, Encoder.Valid, Encoder.InTurn, Decoder.Checked, LossIterator.Valid, ListOk, Decoder.LastOk, AllOk;
      hide Uniform, BitSets.Bits, Packets, Wrap, Framed, Made, MetadataOk, Announces, Agreement, Decoder.ArrivalOf;
      hide Decoder.SumWith, Decoder.ListWith, SamePackets;
      assert RecoverySafe(rec, encoder.FirstUnacked()) && Made(decoder.code, encoder.hist, rec);
      Admitted(rec);
      r := decoder.AddRecovery(rec, encoder.hist);
      hide RecoverySafe;
      if old(decoder.ArrivalOf(rec)).Joins? && !old(decoder.disabled) {
        decoder.JoinedIsThere(rec, old(decoder.list), old(decoder.nextId), old(decoder.window.base));
      }
      StillSafe(old(decoder.NextExpected()));
    }

    lemma Admitted(rec: RecoveryPacket<T>)
      requires Valid() && rec in recoveries && InReach(rec.end, decoder.window.base)
      ensures decoder.NextExpected() < rec.end && decoder.window.base <= rec.end - rec.meta.ldpcCount
              && (decoder.window.count == 0 ==> decoder.latestColumn <= rec.end)
              && (|| decoder.window.count == 0 || rec.meta.sumCount <= 64
                  || decoder.window.base <= rec.end - rec.meta.sumCount < decoder.window.base + decoder.window.count
                  || (decoder.sumColumnCount > 0 && decoder.sumColumnStart == rec.meta.columnStart)) ==>
                if rec.meta.sumCount == 1 then decoder.ArrivalOf(rec).Single?
                else decoder.ArrivalOf(rec).Joins?
      ensures decoder.ArrivalOf(rec).Joins? ==>
                && decoder.window.base + rec.meta.ldpcCount <= rec.end
                && decoder.ListWith(rec) == JoinedList(decoder.list, decoder.nextId, decoder.window.base, rec)
    {
      hide IsField, Encoder.Valid, Encoder.InTurn, Decoder.Checked, LossIterator.Valid, ListOk, Decoder.LastOk, AllOk;
      hide Uniform, BitSets.Bits, Packets, Wrap, Framed, Made, Announces, Agreement, Decoder.Takes;
      assert RecoverySafe(rec, encoder.FirstUnacked());
      decoder.TakesIff(rec);
      decoder.ArrivalIff(rec);
    }

    /** Bytes that are no recovery packet reach the decoder, which disables itself. */
    method Refuse()
      requires Valid()
      modifies decoder`disabled
      ensures Valid() && decoder.disabled
    {
      hide IsField, Encoder.Valid, Encoder.InTurn, Decoder.Checked, LossIterator.Valid, ListOk, Decoder.LastOk, AllOk;
      hide Uniform, BitSets.Bits, Packets, Wrap, Framed, Made, RecoverySafe, Announces, Agreement;
      decoder.Disable();
    }

    /** The decoder has recovered packets, or may recover some. */
    method Ready() returns (ready: bool)
      requires Valid()
      modifies decoder`list, decoder`region
      ensures Valid() && Recounted(old(decoder.list), decoder.list)
      ensures decoder.hasRecovered ==> ready
      ensures decoder.disabled ==> ready == decoder.hasRecovered
      ensures !decoder.disabled && !decoder.hasRecovered ==>
                && Furthers(old(decoder.region), decoder.region, decoder.list)
                && (ready <==> Enough(decoder.region) && decoder.region.lostCount <= MAX_LOSSES)
    {
      hide IsField, Encoder.Valid, Encoder.InTurn, Decoder.Checked, LossIterator.Valid, ListOk, Decoder.LastOk, AllOk;
      hide Uniform, BitSets.Bits, Packets, Wrap, Framed, Made, RecoverySafe, Announces, Agreement, Recounted;
      ready := decoder.IsReadyToDecode();
      decoder.RecountedAgrees(old(decoder.list), encoder.hist);
    }

    /** The decoder recovers what it can: every packet it reports is one that was sent.  It disables
        itself, and it gives up a missing packet, exactly when its outcome says so. */
    method Recover() returns (r: Result, packets: seq<Original<T>>, ghost t: Trial<T>, ghost o: Outcome)
      requires Valid()
      modifies decoder, decoder.window, decoder.matrix, decoder.matrix.data
      ensures !r.Overran? ==> Valid() && decoder.NextExpected() >= old(decoder.NextExpected())
      ensures !r.Overran? ==> Keeps(old(decoder.Received()), decoder.Received())
      ensures !r.Overran? ==> |decoder.Received()| == |old(decoder.Received())|
      ensures !r.Overran? ==> forall i :: 0 <= i < |packets| ==> IsSent(encoder.hist, packets[i])
      ensures old(decoder.disabled) ==> r.Disabled?
      ensures !old(decoder.disabled) && old(decoder.hasRecovered) ==>
                && r.Success? && !decoder.disabled && packets == old(decoder.recovered)
                && decoder.NextExpected() == old(decoder.NextExpected()) && decoder.list == old(decoder.list)
                && decoder.Memory() == old(decoder.Memory()) && decoder.window.base == old(decoder.window.base)
      ensures !old(decoder.disabled) && !old(decoder.hasRecovered) ==>
                && Tries(decoder.code, old(decoder.Held()), t, o) && r == ResultOf(o)
                && (r.NeedMore? ==>
                      && decoder.Memory() == old(decoder.Memory()) && decoder.Waits(t)
                      && decoder.window.base == old(decoder.window.base))
                && (!r.Overran? ==> (decoder.disabled <==> o.SumLost? || o == Solved(Disables)))
                && (r.Success? ==>
                      && decoder.NextExpected() > old(decoder.NextExpected()) && decoder.Last() == old(decoder.Last())
                      && decoder.window.base == old(decoder.window.base) + Dropped(o.removal)
                      && decoder.latestColumn == old(decoder.latestColumn)
                      && decoder.region == EMPTY_REGION
                      && Leaves(t, old(decoder.Held()), decoder.Now()))
                && (r.NeedMore? ==> decoder.NextExpected() == old(decoder.NextExpected()))
      ensures r.Disabled? ==> decoder.disabled
      ensures decoder.hasRecovered ==> old(decoder.disabled)
      ensures !r.Overran? ==> decoder.matrix.data == old(decoder.matrix.data) || fresh(decoder.matrix.data)
      ensures !r.Overran? && old(decoder.stale) ==> decoder.stale
      ensures old(decoder.window.base) - old(decoder.lastEnd) <= HALF || |encoder.hist| < HALF ==>
                !r.Overran? && decoder.stale == old(decoder.stale)
    {
      hide IsField, Encoder.Valid, Encoder.InTurn, Decoder.Checked, LossIterator.Valid, ListOk, Decoder.LastOk, AllOk;
      hide Uniform, BitSets.Bits, Packets, Wrap, Framed, Made, RecoverySafe, Announces, Agreement, Filled, Reports;
      hide IsTrial, TrialOutcome, Leaves, Tries;
      AgreesLength();
      ghost var held, tries := decoder.Held(), !decoder.disabled && !decoder.hasRecovered;
      r, packets, t, o := decoder.Decode(encoder.hist);
      if tries {
        decoder.TriesAndLeaves(held, t, o);
      }
      if !r.Overran? {
        StillSafe(old(decoder.NextExpected()));
      }
    }

    /** The decoder acknowledges what it has received and lists what it misses. */
    method Acknowledge(byteLimit: nat) returns (bytes: Option<seq<byte>>)
      requires Valid() && byteLimit >= MIN_ACK_BYTES
      modifies this`acks
      ensures Valid() && (bytes.Some? ==> acks == old(acks) + {SentAck(bytes.value, decoder.NextExpected())})
      ensures bytes.None? ==> acks == old(acks)
      ensures bytes.None? <==> decoder.disabled || decoder.window.count == 0
    {
      hide IsField, Encoder.Valid, Encoder.InTurn, Decoder.Checked, LossIterator.Valid, ListOk, Decoder.LastOk, AllOk;
      hide Uniform, BitSets.Bits, Packets, Wrap, Framed, Made, RecoverySafe, Announces, Agreement, IsAck;
      ghost var spans;
      bytes, spans := GenerateAcknowledgement(decoder.window, decoder.disabled, byteLimit);
      if bytes.Some? {
        Announced(byteLimit, bytes.value, spans);
        acks := acks + {SentAck(bytes.value, decoder.NextExpected())};
      }
    }

    lemma Announced(byteLimit: nat, bytes: seq<byte>, spans: seq<Span>)
      requires decoder.window.Valid()
      requires IsAck(decoder.window.Got(), decoder.window.columnStart, decoder.window.nextExpected, byteLimit, bytes,
                 spans)
      ensures Announces(SentAck(bytes, decoder.NextExpected()))
    {
      hide IsAck, AllOk, Uniform, BitSets.Bits, Packets, MissingIn, Listed, DeserializePacketNum;
      AcknowledgementRoundTrip(decoder.window.Got(), decoder.window.base, decoder.window.nextExpected, byteLimit, bytes,
          spans);
    }

    // ----- what the invariant means

    /** Where the two sides stand. */
    lemma Standing()
      requires Valid()
      ensures decoder.Sound() && decoder.window.Sound()
              && encoder.FirstUnacked() <= decoder.NextExpected() <= |encoder.hist|
      ensures !decoder.stale ==> decoder.window.base <= encoder.FirstUnacked()
      ensures Matches(decoder.Received(), encoder.hist) && |decoder.Received()| <= decoder.window.base + HALF
    {
      hide IsField, Encoder.Valid, Encoder.InTurn, Decoder.Checked, ListOk, Decoder.LastOk, AllOk, Uniform;
      hide BitSets.Bits, Packets, Wrap, Framed, Made;
      AgreesLength();
    }

    /** Nothing leaves the decoder's window before it has been received, and nothing leaves the
        encoder's window before the decoder has it.  Unless the decoder has gone by stale metadata,
        it keeps everything from the first packet that is not acknowledged. */
    lemma NothingIsLost(n: nat)
      requires Valid() && n < |encoder.hist|
      ensures decoder.window.base <= decoder.NextExpected() && encoder.FirstUnacked() <= decoder.NextExpected()
      ensures !decoder.stale ==> decoder.window.base <= encoder.FirstUnacked()
      ensures n < decoder.window.base ==> decoder.Received()[n] == encoder.hist[n]
      ensures n < encoder.FirstUnacked() ==> n < |decoder.Received()| && decoder.Received()[n] == encoder.hist[n]
      ensures n == decoder.NextExpected() < |decoder.Received()| ==> decoder.Received()[n] == []
    {
      hide IsField, Encoder.Valid, Encoder.InTurn, Decoder.Checked, ListOk, Decoder.LastOk, AllOk, BitSets.Bits;
      hide Packets, Wrap, Framed, Made, MetadataOk;
      decoder.window.GotIsContents();
      var e := n - decoder.window.base;
      if 0 <= e < decoder.window.count {
        assert decoder.Received()[n] == decoder.window.Contents()[e];
      }
    }

    /** In a run of fewer packets than half a period, every message may be delivered at any time. */
    lemma ShortRunsAreUnconditional()
      requires Valid() && |encoder.hist| < HALF
      ensures forall n: nat :: n < |encoder.hist| ==> InReach(n, decoder.window.base)
      ensures forall rec :: rec in recoveries ==> InReach(rec.end, decoder.window.base)
      ensures forall a :: a in acks ==> InReach(a.next, encoder.base) && InReach(a.next, acknowledged)
    {
      hide IsField, Decoder.Checked, ListOk, Decoder.LastOk, AllOk, BitSets.Bits, Packets, Wrap, Framed, IsRecoveryOf;
      hide MetadataOk;
      AgreesLength();
    }
  }
}
