/** The session over the program's own bytes, and the recovery packets as they are sent: the payload,
    and behind it the metadata. */
module ByteSessions {
  import opened Options
  import opened Fields
  import opened Bytes
  import opened Recovery
  import opened Rows
  import opened Decoding
  import opened Cauchy
  import opened Removals
  import opened BackSubstitutions
  import opened Serializers
  import opened Encoders
  import opened Decoders
  import opened Sessions

  /** The code over GF(2^8), for any opcodes and any sequence of random draws. */
  function ByteCode(opcode: (nat, nat) -> nat, draw: (nat, nat, nat) -> nat): Code<byte> {
    Code(BytesField(), (n: nat) => n % 256, opcode, draw)
  }

  // ----- parity and Cauchy rows over the bytes

  lemma BytesArePoints(opcode: (nat, nat) -> nat, draw: (nat, nat, nat) -> nat)
    ensures Points(ByteCode(opcode, draw)) && IsField(ByteCode(opcode, draw).F)
  {
    BytesAreAField();
    hide IsField;
  }

  /** An element of the Cauchy matrix is the inverse of the sum of two different bytes, 64 and more for the
      row and less than 64 for the column. */
  lemma ByteElement(opcode: (nat, nat) -> nat, draw: (nat, nat, nat) -> nat, row: nat, column: nat)
    requires row < 192 && column < 64
    ensures ByteMul(CauchyElement(ByteCode(opcode, draw), row, column), ByteAdd(row + 64, column)) == 1
  {
    hide IsField, Points, CauchyElement, ByteMul, ByteAdd;
    BytesArePoints(opcode, draw);
    CoefficientInverts(ByteCode(opcode, draw), row, column);
  }

  /** The elements of a row are different. */
  lemma ByteElementsDiffer(opcode: (nat, nat) -> nat, draw: (nat, nat, nat) -> nat, row: nat, a: nat, b: nat)
    requires row < 192 && a < b < 64
    ensures CauchyElement(ByteCode(opcode, draw), row, a) != CauchyElement(ByteCode(opcode, draw), row, b)
  {
    hide IsField, Points, CauchyElement;
    BytesArePoints(opcode, draw);
    CoefficientsDiffer(ByteCode(opcode, draw), row, a, b);
  }

  /** Over the bytes, any k parity and Cauchy packets with different rows recover any k losses they cover. */
  lemma AnyShortRowsSuffice(opcode: (nat, nat) -> nat, draw: (nat, nat, nat) -> nat,
      recs: seq<RecoveryPacket<byte>>, lost: seq<nat>)
    requires Distinct(lost) && |recs| == |lost|
    requires forall i :: 0 <= i < |recs| ==> Reaches(recs[i], lost)
    requires forall i, j :: 0 <= i < j < |recs| ==> recs[i].meta.row != recs[j].meta.row
    ensures Determined(ByteCode(opcode, draw), recs, lost)
  {
    hide IsField, Points;
    BytesArePoints(opcode, draw);
    ShortRowsSuffice(ByteCode(opcode, draw), recs, lost);
  }

  /** The first two packets lost, the parity packet and the first Cauchy packet received. */
  lemma TwoLostTwoReceived(opcode: (nat, nat) -> nat, draw: (nat, nat, nat) -> nat, a: seq<byte>, b: seq<byte>)
    ensures Determined(ByteCode(opcode, draw),
              [RecoveryPacket(Metadata(0, 0, 2, 2), a, 2), RecoveryPacket(Metadata(1, 0, 2, 2), b, 2)], [0, 1])
  {
    var recs := [RecoveryPacket(Metadata(0, 0, 2, 2), a, 2), RecoveryPacket(Metadata(1, 0, 2, 2), b, 2)];
    assert Reaches(recs[0], [0, 1]) && Reaches(recs[1], [0, 1]);
    AnyShortRowsSuffice(opcode, draw, recs, [0, 1]);
  }

  // ----- packets behind their length

  /** A packet behind its length. */
  ghost predicate IsInitialized(packet: seq<byte>) {
    0 < |PacketData(packet)| <= MAX_LENGTH && packet == InitializePacket(PacketData(packet))
  }

  ghost predicate AllInitialized(hist: seq<seq<byte>>) {
    forall i :: 0 <= i < |hist| ==> IsInitialized(hist[i])
  }

  /** A session over bytes in which every packet was sent behind its length. */
  ghost predicate Runs(session: Session<byte>)
    reads session, session.encoder, session.encoder.nextElement, session.encoder.sums, session.losses
    reads session.decoder, session.decoder.window, session.decoder.matrix, session.decoder.matrix.data
  {
    && session.Valid() && session.decoder.code.F == BytesField() && session.decoder.parse == PacketBytes
    && AllInitialized(session.encoder.hist)
  }

  /** A recovery packet on the wire. */
  ghost predicate OnWire(rec: RecoveryPacket<byte>, bytes: seq<byte>) {
    Emitted(rec.meta) && bytes == rec.payload + SerializeMetadata(rec.meta)
  }

  /** Bytes that were sent as a recovery packet when exactly `end` packets had been sent. */
  ghost predicate WasEmitted(session: Session<byte>, bytes: seq<byte>, end: nat)
    reads session
  {
    exists rec :: rec in session.recoveries && rec.end == end && OnWire(rec, bytes)
  }

  /** The packet that bytes stand for, when exactly `end` packets had been sent. */
  function ReadPacket(bytes: seq<byte>, end: nat): Option<RecoveryPacket<byte>> {
    match DeserializeMetadata(bytes)
    case None => None
    case Some(f) => Some(RecoveryPacket(f.value, bytes[..|bytes| - f.bytes], end))
  }

  /** What was emitted is read back as it was. */
  lemma WireRoundTrip(rec: RecoveryPacket<byte>, bytes: seq<byte>)
    requires OnWire(rec, bytes)
    ensures ReadPacket(bytes, rec.end) == Some(rec)
  {
    hide SerializeMetadata, DeserializeMetadata;
    MetadataRoundTrip(rec.payload, rec.meta);
  }

  /** A session can start over the program's bytes: they are a field, as every result requires. */
  method StartSession(opcode: (nat, nat) -> nat, draw: (nat, nat, nat) -> nat) returns (session: Session<byte>)
    ensures Runs(session) && session.encoder.hist == [] && fresh(session) && fresh(session.decoder)
    ensures session.decoder.code == ByteCode(opcode, draw) && session.decoder.NextExpected() == 0
    ensures !session.decoder.stale && !session.decoder.hasRecovered && !session.decoder.disabled
  {
    BytesAreAField();
    hide IsField;
    session := new Session(ByteCode(opcode, draw), PacketBytes);
  }

  /** Any data can be sent: behind its own length it says how long it is. */
  method SendData(session: Session<byte>, data: seq<byte>) returns (ok: bool)
    requires Runs(session) && 0 < |data| <= MAX_LENGTH
    modifies session.encoder
    ensures Runs(session)
    ensures session.encoder.hist ==
              if ok then old(session.encoder.hist) + [InitializePacket(data)]
              else old(session.encoder.hist)
  {
    hide Framed, Session.Valid, IsField, PacketData;
    InitializedIsFramed(data);
    PacketDataRoundTrip(data);
    ok := session.Send(InitializePacket(data));
  }

  /** The encoder emits a recovery packet: payload and metadata. */
  method EmitBytes(session: Session<byte>) returns (bytes: Option<seq<byte>>)
    requires Runs(session)
    modifies session`recoveries, session.encoder, session.encoder.nextElement, session.encoder.sums
    ensures Runs(session) && session.encoder.hist == old(session.encoder.hist)
    ensures bytes.None? <==> old(session.encoder.FirstUnacked()) == |session.encoder.hist|
    ensures bytes.Some? ==> WasEmitted(session, bytes.value, |session.encoder.hist|)
    ensures old(session.recoveries) <= session.recoveries
  {
    hide Session.Valid, IsField, SerializeMetadata, Emitted;
    var r := session.Emit();
    if r.NeedMoreData? {
      return None;
    }
    ghost var rec := RecoveryPacket(r.meta, r.payload, |session.encoder.hist|);
    MetadataFits(session, rec);
    bytes := Some(r.payload + SerializeMetadata(r.meta));
    assert OnWire(rec, bytes.value);
  }

  lemma MetadataFits(session: Session<byte>, rec: RecoveryPacket<byte>)
    requires session.Valid() && rec in session.recoveries
    ensures Emitted(rec.meta)
  {
    hide IsField, Encoder.Valid, Encoder.InTurn, Decoder.Valid, IsRecoveryOf, Emitted;
    assert Made(session.decoder.code, session.encoder.hist, rec);
    RecoveryIsEmitted(session.decoder.code, session.encoder.hist[..rec.end], rec.meta, rec.payload);
  }

  /** A recovery packet over one column holds a packet that says its own length. */
  lemma NeverCorrupt(session: Session<byte>, rec: RecoveryPacket<byte>)
    requires Runs(session) && rec in session.recoveries
    ensures !session.decoder.Corrupt(rec)
  {
    hide IsField, Encoder.Valid, Encoder.InTurn, IsRecoveryOf, PacketData, PacketBytes, InitializePacket;
    assert Made(session.decoder.code, session.encoder.hist, rec);
    if rec.meta.sumCount == 1 {
      session.decoder.SingleIsPacket(rec, session.encoder.hist);
      assert IsInitialized(rec.payload);
      PacketDataRoundTrip(PacketData(rec.payload));
    }
  }

  /** The elements that the packet makes the decoder remove cannot leave without something it needs. */
  ghost predicate DisabledBy(session: Session<byte>, bytes: seq<byte>, end: nat)
    reads session, session.decoder, session.decoder.window
  {
    var packet := ReadPacket(bytes, end);
    packet.Some? && RemovalOf(session.decoder.ArrivalOf(packet.value)).Disables?
  }

  /** The bytes of a recovery packet reach the decoder, which disables itself exactly when it cannot
      read them or what they tell makes it give up something it needs. */
  method DeliverBytes(session: Session<byte>, bytes: seq<byte>, end: nat) returns (r: Result)
    requires Runs(session)
    requires ReadPacket(bytes, end).Some? ==>
               WasEmitted(session, bytes, end) && InReach(end, session.decoder.window.base)
    modifies session.decoder, session.decoder.window, session.decoder.matrix
    ensures Runs(session) && session.decoder.NextExpected() >= old(session.decoder.NextExpected())
    ensures Keeps(old(session.decoder.Received()), session.decoder.Received())
    ensures r == if old(session.decoder.disabled) || ReadPacket(bytes, end).None? then Disabled else Success
    ensures session.decoder.disabled <==> r.Disabled? || old(DisabledBy(session, bytes, end))
    ensures old(DisabledBy(session, bytes, end)) ==> session.decoder.hasRecovered == old(session.decoder.hasRecovered)
    ensures session.decoder.stale == old(session.decoder.stale)
    ensures session.decoder.matrix.data == old(session.decoder.matrix.data)
    ensures (session.decoder.NextExpected() == old(session.decoder.NextExpected())
             && session.decoder.hasRecovered == old(session.decoder.hasRecovered))
            || session.decoder.hasRecovered
  {
    hide Session.Valid, IsField, DeserializeMetadata, ReadPacket, Decoder.ArrivalOf;
    if session.decoder.disabled {
      return Disabled;
    }
    var packet := ReadPacket(bytes, end);
    if packet.None? {
      session.Refuse();
      return Disabled;
    }
    var rec := packet.value;
    ghost var sent :| sent in session.recoveries && sent.end == end && OnWire(sent, bytes);
    WireRoundTrip(sent, bytes);
    NeverCorrupt(session, rec);
    r := session.DeliverRecovery(rec);
  }
}
