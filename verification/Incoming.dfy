/** The receiving side of a connection: reliable messages are handled in order, each once, whether
    they arrive in sequence, out of sequence, again, or are recovered by the decoder. */
module Incoming {
  import opened Options
  import opened Bytes
  import opened Columns
  import opened Serializers
  import opened DecoderWindows
  import opened Decoders
  import opened Acknowledgements
  import opened Sessions
  import opened ByteSessions
  import opened Frames
  import opened Delivery
  import opened DeliveryMeaning

  /** The calls that the first k reliable packets of the sender call for, in order. */
  ghost function OrderedLog(sent: seq<seq<byte>>, k: nat): seq<Event>
    requires k <= |sent|
  {
    if k == 0 then [] else OrderedLog(sent, k - 1) + Replayed(sent[k - 1])
  }

  /** The ordered messages of the first k packets, the bytes of their histories, and the compressed blocks
      with the history before each. */
  function OrderedCalls(sent: seq<seq<byte>>, k: nat): seq<Event>
    requires k <= |sent|
  {
    if k == 0 then [] else OrderedCalls(sent, k - 1) + Calls(Parse(sent[k - 1]).frames)
  }

  ghost function OrderedHistory(sent: seq<seq<byte>>, k: nat): seq<byte>
    requires k <= |sent|
  {
    if k == 0 then [] else OrderedHistory(sent, k - 1) + EncodeAll(History(Parse(sent[k - 1]).frames))
  }

  ghost function OrderedBlocks(sent: seq<seq<byte>>, k: nat): seq<Block>
    requires k <= |sent|
  {
    if k == 0 then []
    else OrderedBlocks(sent, k - 1) + Blocks(Parse(sent[k - 1]).frames, OrderedHistory(sent, k - 1))
  }

  /** What handling the first k packets in order comes to: the messages, and for every block all the history
      sent before it. */
  lemma {:induction false} OrderedLogMeans(sent: seq<seq<byte>>, k: nat)
    requires k <= |sent|
    ensures var events := OrderedLog(sent, k);
            && WithoutInserts(events) == OrderedCalls(sent, k)
            && Inserted(events) == OrderedHistory(sent, k)
            && Ledger(events, []) == OrderedBlocks(sent, k)
  {
    hide Replayed, Calls, Blocks, History, WithoutInserts, Inserted, Ledger, EncodeAll, Parse;
    if k == 0 {
      NoEvents();
    } else {
      OrderedLogMeans(sent, k - 1);
      ReplayedMeans(sent[k - 1], OrderedHistory(sent, k - 1));
      Appended(OrderedLog(sent, k - 1), Replayed(sent[k - 1]), []);
      assert [] + OrderedHistory(sent, k - 1) == OrderedHistory(sent, k - 1);
    }
  }

  lemma NoEvents()
    ensures WithoutInserts([]) == [] && Inserted([]) == [] && Ledger([], []) == []
  {
  }

  lemma {:induction false} LogOfPrefix(sent: seq<seq<byte>>, sent': seq<seq<byte>>, k: nat)
    requires k <= |sent| && sent <= sent'
    ensures OrderedLog(sent, k) == OrderedLog(sent', k)
  {
    if k > 0 {
      LogOfPrefix(sent, sent', k - 1);
    }
  }

  /** What the packets of a history hold. */
  ghost function Payloads(hist: seq<seq<byte>>): (r: seq<seq<byte>>)
    ensures |r| == |hist| && forall i :: 0 <= i < |r| ==> r[i] == PacketData(hist[i])
  {
    seq(|hist|, i requires 0 <= i < |hist| => PacketData(hist[i]))
  }

  /** A reliable packet of the sender: nothing but reliable frames. */
  ghost predicate IsPacket(packet: seq<byte>) {
    exists reliable :: IsLayout([], reliable, []) && reliable != [] && packet == EncodeAll(reliable)
  }

  ghost predicate AllPackets(sent: seq<seq<byte>>) {
    forall i :: 0 <= i < |sent| ==> IsPacket(sent[i])
  }

  /** A datagram that carries the n-th reliable packet of the sender. */
  ghost predicate Carries(payload: seq<byte>, n: nat, sent: seq<seq<byte>>) {
    && n < |sent|
    && exists front, reliable, padding ::
         IsLayout(front, reliable, padding) && reliable != [] && sent[n] == EncodeAll(reliable)
         && FramesOk(front + reliable + padding) && payload == EncodeAll(front + reliable + padding)
  }

  /** How a datagram fares: handled, refused as malformed or by a handler, or failed in the decoder. */
  datatype Status = Handled | InvalidData | Failed(result: Result)

  class SessionIncoming {
    /** The connection: this side's decoder, and the encoder at the other end. */
    const session: Session<byte>

    /** FECNextExpectedPacketNum, and the true number it stands for. */
    var nextColumn: nat
    ghost var next: nat

    /** FirstReliable, as an offset into the buffer being read. */
    var firstReliable: Option<nat>

    /** The calls made for ordered messages. */
    var log: seq<Event>

    /** The handlers of acknowledgements and of time synchronization. */
    const accepts: Frame -> bool

    /** LastAckAckSeq */
    var lastAckAck: nat

    /** What the other end has sent, packet by packet. */
    ghost function Sent(): seq<seq<byte>>
      reads session.encoder
    {
      Payloads(session.encoder.hist)
    }

    /** The connection is sound, and carries nothing but reliable packets. */
    ghost predicate Connected()
      reads session, session.encoder, session.encoder.nextElement, session.encoder.sums, session.losses
      reads session.decoder, session.decoder.window, session.decoder.matrix, session.decoder.matrix.data
    {
      Runs(session) && AllPackets(Sent())
    }

    /** Exactly the packets before `next` have been handled, in order and once, and those are all ones
        that the decoder has. */
    ghost predicate InStep()
      reads this, session.encoder, session.decoder, session.decoder.window
    {
      && next <= |Sent()| && nextColumn == Wrap(next) && log == OrderedLog(Sent(), next)
      && session.encoder.FirstUnacked() <= next <= session.decoder.NextExpected()
    }

    /** Between datagrams everything that can be handled has been: the decoder lacks the next packet. */
    ghost predicate Valid()
      reads this, session, session.encoder, session.encoder.nextElement, session.encoder.sums, session.losses
      reads session.decoder, session.decoder.window, session.decoder.matrix, session.decoder.matrix.data
    {
      && Connected() && InStep() && !session.decoder.stale && !session.decoder.hasRecovered
      && next == session.decoder.NextExpected()
    }

    constructor (opcode: (nat, nat) -> nat, draw: (nat, nat, nat) -> nat, accepts: Frame -> bool)
      ensures Valid() && next == 0 && Sent() == [] && fresh(session) && fresh(session.decoder)
    {
      hide Session.Valid, Runs, IsPacket, PacketData, Decoder.Sound, Wrap;
      var started := StartSession(opcode, draw);
      session := started;
      this.accepts, lastAckAck := accepts, 0x80_0000;
      nextColumn, next, firstReliable, log := 0, 0, None, [];
      new;
      WrapSmall(0);
      Stands();
    }

    // ----- frames

    /** The frames read so far, and how far the history goes back. */
    ghost predicate Tracks(data: seq<byte>, offset: nat, t: Track, log0: seq<Event>)
      reads this
    {
      && offset <= |data| && TrackOk(t) && log == log0 + t.events
      && (firstReliable.Some? <==> t.pending.Some?)
      && (firstReliable.Some? ==>
           firstReliable.value <= offset && data[firstReliable.value..offset] == EncodeAll(t.pending.value))
    }

    /** Hands the uncompressed bytes up to an offset to the decompressor. */
    method InsertUncompressedTo(data: seq<byte>, end: nat, ghost t: Track, ghost log0: seq<Event>)
      requires Tracks(data, end, t, log0)
      modifies this`firstReliable, this`log
      ensures Tracks(data, end, Flush(t), log0)
    {
      if firstReliable.None? {
        return;
      }
      log := log + [InsertUncompressed(data[firstReliable.value..end])];
      firstReliable := None;
    }

    method HandleReliableMessage(data: seq<byte>, start: nat, end: nat, kind: nat, body: seq<byte>, ghost t: Track,
        ghost log0: seq<Event>)
      requires Tracks(data, start, t, log0) && start <= end <= |data|
      requires FrameOk(Frame(kind, body)) && data[start..end] == Encode(Frame(kind, body))
      modifies this`firstReliable, this`log
      ensures Tracks(data, end, Handle(t, Frame(kind, body)), log0)
    {
      hide Encode;
      ghost var f := Frame(kind, body);
      if kind == COMPRESSED {
        InsertUncompressedTo(data, start, t, log0);
        if |body| > 0 {
          log := log + [Decompress(body)];
        }
        return;
      }
      if firstReliable.None? && kind < CONTROL {
        firstReliable := Some(start);
        OneFrame(f);
      } else if firstReliable.Some? {
        OneMoreFrame(data, firstReliable.value, start, end, t.pending.value, f);
      }
      log := log + [Deliver(kind, body)];
    }

    lemma OneFrame(f: Frame)
      requires FrameOk(f)
      ensures FramesOk([f]) && EncodeAll([f]) == Encode(f)
    {
      assert [f][..0] == [];
      assert EncodeAll([f]) == EncodeAll([]) + Encode(f);
    }

    lemma OneMoreFrame(data: seq<byte>, first: nat, start: nat, end: nat, fs: seq<Frame>, f: Frame)
      requires first <= start <= end <= |data| && FramesOk(fs) && FrameOk(f)
      requires data[first..start] == EncodeAll(fs) && data[start..end] == Encode(f)
      ensures FramesOk(fs + [f]) && data[first..end] == EncodeAll(fs + [f])
    {
      assert (fs + [f])[..|fs|] == fs;
      assert data[first..end] == data[first..start] + data[start..end];
    }

    /** A frame that is passed over. */
    lemma Passed(data: seq<byte>, start: nat, end: nat, f: Frame, t: Track, log0: seq<Event>)
      requires Tracks(data, start, t, log0) && start <= end <= |data| && FrameOk(f) && data[start..end] == Encode(f)
      ensures Tracks(data, end, Pass(t, f), log0)
    {
      hide Encode;
      if firstReliable.Some? {
        OneMoreFrame(data, firstReliable.value, start, end, t.pending.value, f);
      }
    }

    /** Where a buffer has been read up to. */
    ghost predicate ReadTo(data: seq<byte>, offset: nat, fs: seq<Frame>) {
      && offset <= |data| && FramesOk(fs)
      && Parse(data) == Parsing(fs + Parse(data[offset..]).frames, Parse(data[offset..]).rest)
    }

    lemma ReadStep(data: seq<byte>, offset: nat, fs: seq<Frame>)
      requires ReadTo(data, offset, fs)
      ensures HasFrame(data[offset..]) ==>
                var f := FirstFrame(data[offset..]);
                var end := offset + FRAME_BYTES + |f.body|;
                end <= |data| && ReadTo(data, end, fs + [f]) && data[offset..end] == Encode(f)
      ensures !HasFrame(data[offset..]) ==> Parse(data) == Parsing(fs, data[offset..])
    {
      hide Encode, HasFrame, FirstFrame, Parse;
      var b := data[offset..];
      ParseStep(b);
      if HasFrame(b) {
        var f := FirstFrame(b);
        var end := offset + FRAME_BYTES + |f.body|;
        FirstEncode(b);
        assert b[FRAME_BYTES + |f.body|..] == data[end..];
        assert data[offset..end] == b[..FRAME_BYTES + |f.body|];
        assert fs + ([f] + Parse(data[end..]).frames) == fs + [f] + Parse(data[end..]).frames;
      }
    }

    /** Replays the frames of a packet that the decoder has stored. */
    method ReplayPacket(data: seq<byte>) returns (ok: bool)
      modifies this`firstReliable, this`log
      ensures ok <==> Parse(data).rest == []
      ensures ok ==> log == old(log) + Replayed(data)
    {
      hide Encode, HasFrame, FirstFrame, Parse, EncodeAll, Replay;
      ghost var log0 := log;
      firstReliable := None;
      var offset := 0;
      ghost var fs: seq<Frame> := [];
      ReplayStart();
      ReadStart(data);
      while |data| - offset >= FRAME_BYTES
        invariant offset <= |data| && ReadTo(data, offset, fs) && Tracks(data, offset, Replay(fs), log0)
        decreases |data| - offset
      {
        ReadStep(data, offset, fs);
        FrameAt(data, offset);
        var header := Header(data[offset..]);
        var messageBytes := header % 2048;
        if |data| - offset - FRAME_BYTES < messageBytes {
          return false;
        }
        var kind := header / 2048;
        var end := offset + FRAME_BYTES + messageBytes;
        var body := data[offset + FRAME_BYTES..end];
        ghost var f := Frame(kind, body);
        ReplayNext(fs, f);
        if kind < START_OF_RELIABLES || kind == UNORDERED {
          Passed(data, offset, end, f, Replay(fs), log0);
        } else {
          HandleReliableMessage(data, offset, end, kind, body, Replay(fs), log0);
        }
        fs := fs + [f];
        offset := end;
      }
      ReadStep(data, offset, fs);
      FrameAt(data, offset);
      if offset < |data| {
        return false;
      }
      InsertUncompressedTo(data, offset, Replay(fs), log0);
      return true;
    }

    lemma ReplayStart()
      ensures Replay([]) == START
    {
    }

    lemma ReplayNext(fs: seq<Frame>, f: Frame)
      requires FramesOk(fs) && FrameOk(f)
      ensures FramesOk(fs + [f]) && Replay(fs + [f]) == ReplayStep(Replay(fs), f)
    {
      assert (fs + [f])[..|fs|] == fs;
    }

    lemma ReadStart(data: seq<byte>)
      ensures ReadTo(data, 0, [])
    {
      hide Parse;
      assert data[0..] == data;
      assert [] + Parse(data).frames == Parse(data).frames;
    }

    /** What the header at an offset says. */
    lemma FrameAt(data: seq<byte>, offset: nat)
      requires offset <= |data|
      ensures |data| - offset < FRAME_BYTES ==> !HasFrame(data[offset..])
      ensures |data| - offset >= FRAME_BYTES ==>
                var h := Header(data[offset..]);
                && (HasFrame(data[offset..]) <==> |data| - offset - FRAME_BYTES >= h % 2048)
                && (HasFrame(data[offset..]) ==>
                      FirstFrame(data[offset..])
                        == Frame(h / 2048, data[offset + FRAME_BYTES..offset + FRAME_BYTES + h % 2048]))
    {
      hide Header;
    }

    // ----- a datagram

    /** The reliable part of what has been read, by its offsets. */
    ghost predicate Cut(data: seq<byte>, offset: nat, start: nat, end: nat, c: Carving) {
      && offset <= |data| && FramesOk(c.region) && FramesOk(c.tail) && (end == 0 <==> c.region == [])
      && (c.region != [] ==>
           start < end <= offset && data[start..end] == EncodeAll(c.region) && data[end..offset] == EncodeAll(c.tail))
    }

    lemma CutStep(data: seq<byte>, offset: nat, start: nat, end: nat, fs: seq<Frame>, f: Frame, offset': nat)
      requires FramesOk(fs) && Cut(data, offset, start, end, Carve(fs)) && FrameOk(f)
      requires offset < offset' <= |data| && data[offset..offset'] == Encode(f)
      ensures FramesOk(fs + [f])
      ensures IsReliable(f) ==> Cut(data, offset', if end == 0 then offset else start, offset', Carve(fs + [f]))
      ensures !IsReliable(f) ==> Cut(data, offset', start, end, Carve(fs + [f]))
    {
      CarveStep(fs, f);
      hide Encode, EncodeAll, Carve;
      var c := Carve(fs);
      OneFrame(f);
      NoFrames();
      assert data[offset'..offset'] == [];
      if c.region == [] {
        assert [] + [] + [f] == [f];
      } else {
        EncodeAllConcat(c.region, c.tail);
        EncodeAllConcat(c.region + c.tail, [f]);
        EncodeAllConcat(c.tail, [f]);
        Joined(data, start, end, offset, offset');
      }
    }

    lemma NoFrames()
      ensures EncodeAll([]) == []
    {
    }

    lemma CarveStep(fs: seq<Frame>, f: Frame)
      requires FramesOk(fs) && FrameOk(f)
      ensures FramesOk(fs + [f])
      ensures var c := Carve(fs);
              Carve(fs + [f]) ==
                if IsReliable(f) then Carving(c.region + c.tail + [f], [])
                else if c.region == [] then c
                else c.(tail := c.tail + [f])
    {
      assert (fs + [f])[..|fs|] == fs;
    }

    lemma Joined(data: seq<byte>, a: nat, b: nat, c: nat, d: nat)
      requires a <= b <= c <= d <= |data|
      ensures data[a..d] == data[a..b] + data[b..c] + data[c..d] && data[b..d] == data[b..c] + data[c..d]
    {
    }

    /** Reads the frames of a datagram as it arrives, and finds its reliable part. */
    method ReadDatagram(data: seq<byte>, inSequence: bool) returns (ok: bool, start: nat, end: nat)
      modifies this`firstReliable, this`log, this`lastAckAck
      ensures ok <==> Parse(data).rest == [] && NoneRefused(Parse(data).frames, accepts)
      ensures ok ==> lastAckAck == AckAckAfter(Parse(data).frames, old(lastAckAck))
      ensures ok ==> log == old(log) + Flush(Fast(Parse(data).frames, inSequence)).events
      ensures ok ==> Cut(data, |data|, start, end, Carve(Parse(data).frames))
    {
      hide Encode, HasFrame, FirstFrame, Parse, EncodeAll, Fast, Carve, Cut, Refused, AckAckAfter;
      ghost var log0 := log;
      firstReliable := None;
      var offset := 0;
      start, end := 0, 0;
      ghost var fs: seq<Frame> := [];
      FastStart(data, inSequence);
      AckAckNext([], Frame(PADDING, []), lastAckAck);
      ReadStart(data);
      while |data| - offset >= FRAME_BYTES
        invariant offset <= |data| && ReadTo(data, offset, fs) && Tracks(data, offset, Fast(fs, inSequence), log0)
        invariant Cut(data, offset, start, end, Carve(fs))
        invariant NoneRefused(fs, accepts) && lastAckAck == AckAckAfter(fs, old(lastAckAck))
        decreases |data| - offset
      {
        ReadStep(data, offset, fs);
        FrameAt(data, offset);
        var header := Header(data[offset..]);
        var messageBytes := header % 2048;
        if |data| - offset - FRAME_BYTES < messageBytes {
          return false, 0, 0;
        }
        var kind := header / 2048;
        var frameEnd := offset + FRAME_BYTES + messageBytes;
        var body := data[offset + FRAME_BYTES..frameEnd];
        ghost var f, t := Frame(kind, body), Fast(fs, inSequence);
        FastNext(fs, f, inSequence);
        CutStep(data, offset, start, end, fs, f, frameEnd);
        AckAckNext(fs, f, old(lastAckAck));
        assert Parse(data).frames[|fs|] == f;
        if kind >= START_OF_RELIABLES {
          if kind != UNORDERED && inSequence {
            HandleReliableMessage(data, offset, frameEnd, kind, body, t, log0);
          } else {
            Passed(data, offset, frameEnd, f, t, log0);
          }
          if end == 0 {
            start := offset;
          }
          end := frameEnd;
        } else if kind < PADDING {
          if kind == ACK_ACK {
            if messageBytes != ACK_ACK_BYTES {
              return false, 0, 0;
            }
            lastAckAck := AckAckSeq(body);
          } else if kind != UNRELIABLE && !accepts(Frame(kind, body)) {
            return false, 0, 0;
          }
          Passed(data, offset, frameEnd, f, t, log0);
        } else {
          InsertUncompressedTo(data, offset, t, log0);
        }
        fs := fs + [f];
        offset := frameEnd;
      }
      ReadStep(data, offset, fs);
      FrameAt(data, offset);
      if offset < |data| {
        return false, 0, 0;
      }
      InsertUncompressedTo(data, offset, Fast(fs, inSequence), log0);
      ok := true;
    }

    /** What one more frame is for the connection itself. */
    lemma AckAckNext(fs: seq<Frame>, f: Frame, last: nat)
      requires FrameOk(f)
      ensures AckAckAfter(fs + [f], last) ==
                if f.kind == ACK_ACK && |f.body| == ACK_ACK_BYTES then AckAckSeq(f.body) else AckAckAfter(fs, last)
      ensures Refused(f, accepts) <==>
                || (f.kind == ACK_ACK && |f.body| != ACK_ACK_BYTES)
                || (f.kind < PADDING && f.kind != ACK_ACK && f.kind != UNRELIABLE && !accepts(f))
      ensures (fs + [f])[|fs|] == f && AckAckAfter([], last) == last
    {
      assert (fs + [f])[..|fs|] == fs;
    }

    lemma FastStart(data: seq<byte>, inSequence: bool)
      ensures Fast([], inSequence) == START && Cut(data, 0, 0, 0, Carve([]))
    {
    }

    lemma FastNext(fs: seq<Frame>, f: Frame, inSequence: bool)
      requires FramesOk(fs) && FrameOk(f)
      ensures FramesOk(fs + [f]) && Fast(fs + [f], inSequence) == FastStep(Fast(fs, inSequence), f, inSequence)
    {
      assert (fs + [f])[..|fs|] == fs;
    }

    // ----- the decoder

    /** A packet that the decoder holds at a column is one that was sent. */
    lemma HeldIsSent(packetNum: nat)
      requires Connected() && session.decoder.window.Sound() && session.decoder.Holds(packetNum)
      ensures Parse(PacketData(Found(packetNum))).rest == []
    {
      hide Session.Valid, IsPacket, SubtractColumns, AllInitialized, PacketData, Parse;
      session.Standing();
      var e := SubtractColumns(packetNum, session.decoder.window.columnStart);
      var n := session.decoder.window.base + e;
      assert session.decoder.Received()[n] == Found(packetNum);
      assert IsPacket(Sent()[n]);
      PacketParses(PacketData(Found(packetNum)));
    }

    ghost function Found(packetNum: nat): seq<byte>
      requires session.decoder.window.Sound() && session.decoder.Holds(packetNum)
      reads session.decoder, session.decoder.window
    {
      session.decoder.window.Contents()[SubtractColumns(packetNum, session.decoder.window.columnStart)]
    }

    lemma PacketParses(packet: seq<byte>)
      requires IsPacket(packet)
      ensures Parse(packet).rest == []
    {
      var reliable :| IsLayout([], reliable, []) && reliable != [] && packet == EncodeAll(reliable);
      ParseEncoded(reliable);
    }

    /** In step, the decoder holds the next packet exactly when it is not the next one expected, unless
        that packet has left the window; which it has not, as long as no metadata was stale. */
    lemma NextIsHeld()
      requires Connected() && InStep() && session.decoder.window.base - HALF <= next
      ensures session.decoder.window.Sound() && (!session.decoder.stale ==> session.decoder.window.base <= next)
      ensures session.decoder.Holds(nextColumn) <==>
                session.decoder.window.base <= next < session.decoder.NextExpected()
      ensures session.decoder.Holds(nextColumn) ==> PacketData(Found(nextColumn)) == Sent()[next]
    {
      hide Session.Valid, IsPacket, SubtractColumns, AllInitialized, PacketData, OrderedLog, Wrap;
      session.Standing();
      session.decoder.HoldsNumber(next);
      session.decoder.NextIsFirst(next);
    }

    lemma OneMore(n: nat)
      requires n < |Sent()|
      ensures OrderedLog(Sent(), n + 1) == OrderedLog(Sent(), n) + Replayed(Sent()[n])
      ensures AddColumns(Wrap(n), 1) == Wrap(n + 1)
    {
      AddWrapped(n, 1);
    }

    /** The column after one that the window holds. */
    lemma NextColumn(packetNum: nat)
      requires Connected() && session.decoder.window.Sound() && session.decoder.Holds(packetNum)
      ensures var column := session.decoder.window.columnStart;
              SubtractColumns(AddColumns(packetNum, 1), column) == SubtractColumns(packetNum, column) + 1
    {
      hide AllPackets, AllInitialized;
      session.Standing();
      hide Session.Valid;
      var column := session.decoder.window.columnStart;
      ColumnAfter(packetNum, column);
    }

    lemma ColumnAfter(a: nat, b: nat)
      requires b < COLUMN_PERIOD && SubtractColumns(a, b) + 1 < COLUMN_PERIOD
      ensures SubtractColumns(AddColumns(a, 1), b) == SubtractColumns(a, b) + 1
    {
    }

    /** Handles the packets that have become next in sequence. */
    method ResumeProcessing() returns (status: Status)
      requires Connected()
      modifies this`nextColumn, this`next, this`firstReliable, this`log
      ensures status == if session.decoder.disabled then Failed(Disabled) else Handled
      ensures old(InStep()) && session.decoder.window.base - HALF <= old(next) ==> InStep() && next >= old(next)
      ensures old(InStep()) && !session.decoder.stale && status.Handled? ==> next == session.decoder.NextExpected()
    {
      hide Replayed, IsPacket, Session.Valid, AllInitialized, SubtractColumns, AddColumns, Wrap, OrderedLog;
      hide PacketData, Parse, Decoder.Sound, Runs, AllPackets, Payloads, DecoderWindow.Sound, Decoder.Received;
      Stands();
      ghost var steady := InStep() && session.decoder.window.base - HALF <= next;
      var r, packet := session.decoder.Get(nextColumn);
      while r.Success?
        invariant Connected() && session.decoder.Sound() && session.decoder.window.Sound()
                  && (steady ==> InStep() && next >= old(next))
        invariant r ==
                    if session.decoder.disabled then Disabled
                    else if session.decoder.Holds(nextColumn) then Success else NeedMore
        invariant r.Success? ==> packet == Found(nextColumn)
        decreases session.decoder.window.count - SubtractColumns(nextColumn, session.decoder.window.columnStart)
      {
        HeldIsSent(nextColumn);
        NextColumn(nextColumn);
        if steady {
          NextIsHeld();
          OneMore(next);
        }
        nextColumn := AddColumns(nextColumn, 1);
        next := next + 1;
        var ok := ReplayPacket(PacketData(packet));
        r, packet := session.decoder.Get(nextColumn);
      }
      if steady {
        NextIsHeld();
      }
      status := if r.Disabled? then Failed(Disabled) else Handled;
    }

    lemma KeptAsIs(received: seq<seq<byte>>)
      ensures Keeps(received, received)
    {
    }

    /** Handling is in step with the decoder, or the decoder has something to report. */
    ghost predicate Following()
      reads this, session.encoder, session.decoder, session.decoder.window
    {
      InStep() && (next == session.decoder.NextExpected() || session.decoder.hasRecovered)
    }

    /** What is left to be recovered. */
    ghost function Outstanding(): int
      reads session.encoder, session.decoder, session.decoder.window
    {
      2 * (|session.encoder.hist| - session.decoder.NextExpected()) + if session.decoder.hasRecovered then 1 else 0
    }

    /** Everything the decoder has heard of is within half a period of the next packet. */
    ghost predicate Near()
      requires session.decoder.window.Sound()
      reads this, session.decoder, session.decoder.window
    {
      |session.decoder.Received()| <= next + HALF
    }

    /** One round of decoding: none when the decoder is not ready. */
    method DecodeOnce() returns (status: Status, more: bool)
      requires Connected() && InStep() && Near() && (!session.decoder.stale ==> Following())
      modifies this`nextColumn, this`next, this`firstReliable, this`log
      modifies session.decoder, session.decoder.window, session.decoder.matrix, session.decoder.matrix.data
      ensures status in {Handled, Failed(Disabled), Failed(Overran)} && (more ==> status.Handled?)
      ensures status != Failed(Overran) ==>
                Connected() && Keeps(old(session.decoder.Received()), session.decoder.Received())
      ensures status.Handled? ==> InStep() && Near() && next >= old(next)
      ensures status.Handled? && !session.decoder.stale ==> Following() && !old(session.decoder.stale)
      ensures status.Handled? && !more && !session.decoder.stale ==> !session.decoder.hasRecovered
      ensures status == Failed(Disabled) ==> session.decoder.disabled
      ensures status.Handled? ==> session.decoder.disabled == old(session.decoder.disabled)
      ensures old(session.decoder.disabled) && !old(session.decoder.hasRecovered) ==>
                status.Handled? && !session.decoder.hasRecovered
      ensures |Sent()| < HALF ==> status != Failed(Overran) && session.decoder.stale == old(session.decoder.stale)
      ensures more ==> 0 <= Outstanding() < old(Outstanding())
      ensures status != Failed(Overran) ==>
                session.decoder.matrix.data == old(session.decoder.matrix.data) || fresh(session.decoder.matrix.data)
    {
      hide Replayed, AllPackets, Session.Valid, AllInitialized, SubtractColumns, AddColumns, Wrap, OrderedLog;
      hide Decoder.Sound, Tries, Leaves, Keeps, Payloads, Furthers, Recounted, IsSent;
      session.Standing();
      KeptAsIs(session.decoder.Received());
      var ready := session.Ready();
      if !ready {
        return Handled, false;
      }
      var r, packets;
      ghost var t, o;
      r, packets, t, o := session.Recover();
      if !r.Success? {
        status, more := if r.NeedMore? then Handled else Failed(r), false;
        return;
      }
      Stands();
      status := ResumeProcessing();
      more := status.Handled?;
    }

    /** Decodes as long as the decoder is ready.  Unless the decoder goes by stale metadata, whatever it
        recovers is handled in order, and it ends up lacking the next packet. */
    method AttemptDecode() returns (status: Status)
      requires Connected() && Following() && !session.decoder.stale
      modifies this`nextColumn, this`next, this`firstReliable, this`log
      modifies session.decoder, session.decoder.window, session.decoder.matrix, session.decoder.matrix.data
      ensures status in {Handled, Failed(Disabled), Failed(Overran)}
      ensures status != Failed(Overran) ==>
                Connected() && Keeps(old(session.decoder.Received()), session.decoder.Received())
      ensures status.Handled? ==> InStep() && next >= old(next)
      ensures status.Handled? && !session.decoder.stale ==> Valid()
      ensures status == Failed(Disabled) ==> session.decoder.disabled
      ensures status.Handled? ==> session.decoder.disabled == old(session.decoder.disabled)
      ensures old(session.decoder.disabled) && !old(session.decoder.hasRecovered) ==> status.Handled?
      ensures |Sent()| < HALF ==> status != Failed(Overran) && !session.decoder.stale
    {
      hide Replayed, Runs, InStep, Keeps, Payloads, AllPackets;
      var more := true;
      status := Handled;
      Stands();
      NearAtFirst();
      ghost var received := session.decoder.Received();
      KeptAsIs(received);
      while more
        invariant status in {Handled, Failed(Disabled), Failed(Overran)} && (more ==> status.Handled?)
        invariant status != Failed(Overran) ==> Connected() && session.decoder.window.Sound()
        invariant status != Failed(Overran) ==> Keeps(received, session.decoder.Received())
        invariant status != Failed(Overran) ==>
                    session.decoder.matrix.data == old(session.decoder.matrix.data)
                      || fresh(session.decoder.matrix.data)
        invariant status.Handled? ==> InStep() && Near() && next >= old(next)
        invariant status.Handled? && !session.decoder.stale ==> Following() && (more || !session.decoder.hasRecovered)
        invariant status == Failed(Disabled) ==> session.decoder.disabled
        invariant status.Handled? ==> session.decoder.disabled == old(session.decoder.disabled)
        invariant old(session.decoder.disabled) && !old(session.decoder.hasRecovered) ==>
                    status.Handled? && !session.decoder.hasRecovered
        invariant |Sent()| < HALF ==> status != Failed(Overran) && !session.decoder.stale
        decreases more, Outstanding()
      {
        ghost var before := session.decoder.Received();
        status, more := DecodeOnce();
        if status != Failed(Overran) {
          Stands();
          KeepsAgain(received, before, session.decoder.Received());
        }
      }
    }

    lemma NearAtFirst()
      requires Connected() && InStep() && !session.decoder.stale
      ensures session.decoder.window.Sound() && Near()
    {
      hide Runs, OrderedLog, Payloads, AllPackets, DecoderWindow.Sound, Decoder.Sound, Decoder.Received;
      Stands();
    }

    lemma Stands()
      requires Connected()
      ensures session.decoder.Sound() && session.decoder.window.Sound()
      ensures session.encoder.FirstUnacked() <= session.decoder.NextExpected() <= |Sent()|
      ensures session.decoder.Lacks(session.decoder.NextExpected())
      ensures session.decoder.window.base <= session.decoder.NextExpected() <= |session.decoder.Received()|
      ensures |session.decoder.Received()| <= session.decoder.window.base + HALF
      ensures !session.decoder.stale ==> session.decoder.window.base <= session.encoder.FirstUnacked()
      ensures |Sent()| == |session.encoder.hist|
    {
      hide Session.Valid, Decoder.Sound;
      session.Standing();
      session.decoder.NextIsFirst(0);
    }

    /** Two packets within reach of each other are the same when their columns are. */
    lemma SameColumn(n: nat, m: nat)
      requires InReach(n, m)
      ensures Wrap(n) == Wrap(m) <==> n == m
    {
      SubtractWrapped(n, m);
      SubtractWrapped(m, m);
    }

    /** What another original packet changes: the next expected packet moves on exactly when it is that one. */
    lemma Expected(n: nat, before: seq<seq<byte>>, expected: nat)
      requires session.decoder.Sound() && session.decoder.window.Sound()
      requires expected <= |before| && (expected < |before| ==> before[expected] == [])
               && (forall i :: 0 <= i < expected ==> before[i] != [])
      requires session.decoder.Received() == before ||
               exists packet :: packet != [] && session.decoder.Received() == Placed(before, n, packet)
      ensures n != expected || session.decoder.Received() == before ==> session.decoder.NextExpected() == expected
      ensures n == expected && session.decoder.Received() != before ==> session.decoder.NextExpected() > expected
    {
      hide Decoder.Sound, DecoderWindow.Sound, Decoder.Received;
      session.decoder.NextIsFirst(expected);
    }

    /** An original packet reaches the decoder, which expects another one afterwards exactly when it lacked
        this one and expected it. */
    method AddOriginal(packetNum: nat, data: seq<byte>, ghost n: nat) returns (r: Result)
      requires Connected() && n < |Sent()| && data == Sent()[n]
      requires packetNum == Wrap(n) && InReach(n, session.decoder.window.base)
      modifies session.decoder`list, session.decoder`region, session.decoder.window, session.decoder.matrix
      ensures Connected() && Keeps(old(session.decoder.Received()), session.decoder.Received())
      ensures session.decoder.matrix.data == old(session.decoder.matrix.data)
      ensures r ==
                if old(session.decoder.disabled) then Disabled
                else if old(session.decoder.Lacks(n)) then Success else DuplicateData
      ensures !r.Disabled? ==> !session.decoder.Lacks(n)
      ensures r.DuplicateData? ==> n != old(session.decoder.NextExpected())
      ensures r.Success? && n == old(session.decoder.NextExpected()) ==>
                session.decoder.NextExpected() > old(session.decoder.NextExpected())
      ensures !r.Success? || n != old(session.decoder.NextExpected()) ==>
                session.decoder.NextExpected() == old(session.decoder.NextExpected())
    {
      hide AllPackets, Session.Valid, Decoder.Sound, PacketData, InitializePacket;
      session.Standing();
      session.decoder.NextIsFirst(session.decoder.NextExpected());
      ghost var before, expected := session.decoder.Received(), session.decoder.NextExpected();
      assert IsInitialized(session.encoder.hist[n]);
      session.AgreesReceived(n);
      r := session.DeliverOriginal(packetNum, InitializePacket(data), n);
      session.Standing();
      Expected(n, before, expected);
    }

    /** Gives the reliable part of a datagram to the decoder.  In sequence, its messages have just been
        handled. */
    method DecoderAddOriginal(packetNum: nat, data: seq<byte>, ghost n: nat) returns (status: Status)
      requires Connected() && !session.decoder.stale && !session.decoder.hasRecovered
      requires next == session.decoder.NextExpected() && nextColumn == Wrap(next) && next <= |Sent()|
      requires n < |Sent()| && data == Sent()[n] && packetNum == Wrap(n)
      requires InReach(n, session.decoder.window.base) && InReach(n, next)
      requires log == OrderedLog(Sent(), next) + if n == next then Replayed(data) else []
      modifies this`nextColumn, this`next, this`firstReliable, this`log
      modifies session.decoder, session.decoder.window, session.decoder.matrix, session.decoder.matrix.data
      ensures status in {Handled, Failed(Disabled), Failed(Overran)}
      ensures status != Failed(Overran) ==>
                Connected() && Keeps(old(session.decoder.Received()), session.decoder.Received())
      ensures status.Handled? ==> !session.decoder.Lacks(n)
      ensures status.Handled? ==> InStep() && next >= old(next)
      ensures status.Handled? && !session.decoder.stale ==> Valid()
      ensures status != Failed(Overran) ==> (status == Failed(Disabled) <==> session.decoder.disabled)
      ensures |Sent()| < HALF ==> status != Failed(Overran) && !session.decoder.stale
    {
      hide Replayed, Runs, OrderedLog, Keeps, Payloads, AllPackets, DecoderWindow.Sound, Decoder.Sound;
      hide Decoder.Received;
      Stands();
      ghost var before := session.decoder.Received();
      SameColumn(n, next);
      hide Wrap;
      var r := AddOriginal(packetNum, data, n);
      Stands();
      ghost var received := session.decoder.Received();
      if r.DuplicateData? {
        return Handled;
      }
      if !r.Success? {
        return Failed(r);
      }
      if packetNum == nextColumn {
        OneMore(next);
        nextColumn := AddColumns(nextColumn, 1);
        next := next + 1;
        status := ResumeProcessing();
      }
      status := AttemptDecode();
      if status != Failed(Overran) {
        Stands();
        KeepsAgain(before, received, session.decoder.Received());
        StillHeld(received, session.decoder.Received(), n);
      }
    }

    lemma StillHeld(before: seq<seq<byte>>, after: seq<seq<byte>>, n: nat)
      requires Keeps(before, after) && n < |before| && before[n] != []
      ensures n < |after| && after[n] != []
    {
    }

    /** A recovery packet arrives: payload and metadata.  It may itself hold a missing packet. */
    method OnRecovery(bytes: seq<byte>, end: nat) returns (status: Status)
      requires Valid()
      requires ReadPacket(bytes, end).Some? ==>
                 WasEmitted(session, bytes, end) && InReach(end, session.decoder.window.base)
      modifies this`nextColumn, this`next, this`firstReliable, this`log
      modifies session.decoder, session.decoder.window, session.decoder.matrix, session.decoder.matrix.data
      ensures status in {Handled, Failed(Disabled), Failed(Overran)}
      ensures status != Failed(Overran) ==>
                Connected() && Keeps(old(session.decoder.Received()), session.decoder.Received())
      ensures status.Handled? ==> InStep() && next >= old(next)
      ensures status.Handled? && !session.decoder.stale ==> Valid()
      ensures status == Failed(Disabled) ==> session.decoder.disabled
      ensures old(session.decoder.disabled) || ReadPacket(bytes, end).None? ==> status == Failed(Disabled)
      ensures status.Handled? ==> (session.decoder.disabled <==> old(DisabledBy(session, bytes, end)))
      ensures !old(session.decoder.disabled) && old(DisabledBy(session, bytes, end)) ==> status.Handled?
      ensures |Sent()| < HALF ==> status != Failed(Overran) && !session.decoder.stale
    {
      hide Replayed, Session.Valid, OrderedLog, Keeps, Payloads, AllPackets, AllInitialized, Wrap, ReadPacket;
      hide WasEmitted, Decoder.ArrivalOf;
      Stands();
      ghost var before := session.decoder.Received();
      var r := DeliverBytes(session, bytes, end);
      Stands();
      ghost var received := session.decoder.Received();
      if !r.Success? {
        return Failed(r);
      }
      status := AttemptDecode();
      if status != Failed(Overran) {
        Stands();
        KeepsAgain(before, received, session.decoder.Received());
      }
    }

    /** Processes a datagram: whatever it carries and whenever it arrives, the messages handled are those
        of the packets before `next`, in order and once, and the decoder lacks packet `next`. */
    method ProcessDatagram(payload: seq<byte>, packetNum: Option<nat>, ghost n: nat) returns (status: Status)
      requires Valid()
      requires packetNum.Some? && Parse(payload).rest == [] && Carve(Parse(payload).frames).region != [] ==>
                 && Carries(payload, n, Sent()) && packetNum.value == Wrap(n)
                 && InReach(n, session.decoder.window.base) && InReach(n, next)
      modifies this`nextColumn, this`next, this`firstReliable, this`log, this`lastAckAck
      modifies session.decoder, session.decoder.window, session.decoder.matrix, session.decoder.matrix.data
      ensures status.InvalidData? <==>
                || Parse(payload).rest != [] || !NoneRefused(Parse(payload).frames, accepts)
                || (packetNum.None? && Carve(Parse(payload).frames).region != [])
      ensures !status.InvalidData? ==> lastAckAck == AckAckAfter(Parse(payload).frames, old(lastAckAck))
      ensures !status.InvalidData? && Carve(Parse(payload).frames).region == [] ==>
                status.Handled? && Valid() && next == old(next) && log == old(log)
                && session.decoder.Received() == old(session.decoder.Received())
      ensures !status.InvalidData? && Carve(Parse(payload).frames).region != [] ==>
                && status in {Handled, Failed(Disabled), Failed(Overran)}
                && (status != Failed(Overran) ==>
                      && Connected() && Keeps(old(session.decoder.Received()), session.decoder.Received())
                      && (status == Failed(Disabled) <==> session.decoder.disabled))
                && (status.Handled? ==> !session.decoder.Lacks(n))
                && (status.Handled? ==> InStep() && next >= old(next))
                && (status.Handled? && !session.decoder.stale ==> Valid())
      ensures |Sent()| < HALF ==> status != Failed(Overran) && !session.decoder.stale
    {
      hide Replayed, IsPacket, Parse, Carve, Fast, EncodeAll, Encode, Runs, OrderedLog, Keeps, Wrap, AllPackets;
      hide NoneRefused, AckAckAfter;
      var inSequence := packetNum == Some(nextColumn);
      Stands();
      if packetNum.Some? && Parse(payload).rest == [] && Carve(Parse(payload).frames).region != [] {
        Carried(payload, n, inSequence, Sent());
        SameColumn(n, next);
      }
      if Parse(payload).rest == [] && Carve(Parse(payload).frames).region == [] {
        NothingCarried(Parse(payload).frames, inSequence);
      }
      var ok, start, end := ReadDatagram(payload, inSequence);
      if !ok {
        return InvalidData;
      }
      if end <= start {
        return Handled;
      }
      if packetNum.None? {
        return InvalidData;
      }
      status := DecoderAddOriginal(packetNum.value, payload[start..end], n);
    }

    lemma {:induction false} NothingCarried(fs: seq<Frame>, inSequence: bool)
      requires FramesOk(fs) && Carve(fs).region == []
      ensures Fast(fs, inSequence) == START
    {
      if fs != [] {
        NothingCarried(fs[..|fs| - 1], inSequence);
      }
    }

    lemma Carried(payload: seq<byte>, n: nat, inSequence: bool, sent: seq<seq<byte>>)
      requires Carries(payload, n, sent)
      ensures Parse(payload).rest == [] && FramesOk(Carve(Parse(payload).frames).region)
              && Carve(Parse(payload).frames).region != []
      ensures EncodeAll(Carve(Parse(payload).frames).region) == sent[n]
      ensures Flush(Fast(Parse(payload).frames, inSequence)).events == if inSequence then Replayed(sent[n]) else []
    {
      hide Replayed, Parse, EncodeAll, Fast, Carve;
      var front, reliable, padding :|
        IsLayout(front, reliable, padding) && reliable != [] && sent[n] == EncodeAll(reliable)
        && FramesOk(front + reliable + padding) && payload == EncodeAll(front + reliable + padding);
      var fs := front + reliable + padding;
      ParseEncoded(fs);
      PaddedPart(front, reliable, padding);
      FastIsReplay(front, reliable, padding);
      OutOfSequence(fs);
    }

    // ----- what else happens on the connection

    /** What does not touch this side's decoder leaves everything in step. */
    twostate lemma OtherEvent()
      requires old(Valid()) && Connected() && old(session.encoder.hist) <= session.encoder.hist
      requires unchanged(this) && unchanged(session.decoder) && unchanged(session.decoder.window)
      ensures Valid() && old(Sent()) <= Sent()
    {
      hide Runs, AllPackets, IsPacket, OrderedLog, Wrap, PacketData;
      Stands();
      assert old(Sent()) <= Sent();
      LogOfPrefix(old(Sent()), Sent(), next);
    }

    /** The other end sends a packet. */
    method PeerSends(data: seq<byte>) returns (ok: bool)
      requires Valid() && IsPacket(data) && 0 < |data| <= MAX_LENGTH
      modifies session.encoder
      ensures Valid() && Sent() == if ok then old(Sent()) + [data] else old(Sent())
    {
      hide Session.Valid, IsPacket, OrderedLog, Wrap, PacketData, InitializePacket, AllInitialized;
      ok := SendData(session, data);
      PacketDataRoundTrip(data);
      assert Sent() == if ok then old(Sent()) + [data] else old(Sent());
      OtherEvent();
    }

    /** The other end emits a recovery packet. */
    method PeerEmits() returns (bytes: Option<seq<byte>>)
      requires Valid()
      modifies session`recoveries, session.encoder, session.encoder.nextElement, session.encoder.sums
      ensures Valid() && Sent() == old(Sent()) && old(session.recoveries) <= session.recoveries
      ensures bytes.Some? ==> WasEmitted(session, bytes.value, |Sent()|)
    {
      hide Session.Valid, AllPackets, OrderedLog, Wrap, PacketData, AllInitialized, WasEmitted;
      bytes := EmitBytes(session);
      OtherEvent();
    }

    /** An acknowledgement reaches the other end. */
    method PeerHears(bytes: seq<byte>, ghost acknowledged: nat) returns (outcome: AckOutcome)
      requires Valid() && SentAck(bytes, acknowledged) in session.acks
      requires InReach(acknowledged, session.encoder.base) && InReach(acknowledged, session.acknowledged)
      modifies session`acknowledged, session.losses, session.encoder
      ensures Valid() && Sent() == old(Sent())
    {
      hide Session.Valid, AllPackets, OrderedLog, Wrap, PacketData, AllInitialized;
      outcome := session.DeliverAck(bytes, acknowledged);
      OtherEvent();
    }

    /** This side acknowledges what it has handled, exactly the packets before `next`, unless the other end is
        known to have heard that. */
    method PostAcknowledgements(byteLimit: nat) returns (bytes: Option<seq<byte>>)
      requires Valid() && byteLimit >= MIN_ACK_BYTES
      modifies session`acks
      ensures Valid() && (bytes.Some? ==> session.acks == old(session.acks) + {SentAck(bytes.value, next)})
      ensures bytes.None? ==> session.acks == old(session.acks)
      ensures bytes.None? <==> lastAckAck == nextColumn || session.decoder.disabled || session.decoder.window.count == 0
    {
      hide Session.Valid, AllPackets, OrderedLog, Wrap, PacketData, AllInitialized;
      if lastAckAck == nextColumn {
        return None;
      }
      bytes := session.Acknowledge(byteLimit);
      OtherEvent();
    }
  }
}
