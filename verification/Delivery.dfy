/** What the frames of a packet make the receiver do, on arrival and when replayed from the decoder. */
module Delivery {
  import opened Options
  import opened Bytes
  import opened Frames

  /** The calls made for ordered reliable messages. */
  datatype Event =
    | Deliver(kind: nat, body: seq<byte>)
    | Decompress(body: seq<byte>)
    | InsertUncompressed(data: seq<byte>)

  /** `pending`: the frames since the first one that belongs to the compression history. */
  datatype Track = Track(pending: Option<seq<Frame>>, events: seq<Event>)

  predicate TrackOk(t: Track) { t.pending.Some? ==> FramesOk(t.pending.value) }

  const START := Track(None, [])

  /** insertUncompressed */
  function Flush(t: Track): (r: Track)
    requires TrackOk(t)
    ensures TrackOk(r) && r.pending.None?
  {
    if t.pending.None? then t else Track(None, t.events + [InsertUncompressed(EncodeAll(t.pending.value))])
  }

  /** A frame that is passed over. */
  function Pass(t: Track, f: Frame): (r: Track)
    requires TrackOk(t) && FrameOk(f)
    ensures TrackOk(r)
  {
    if t.pending.None? then t else t.(pending := Some(t.pending.value + [f]))
  }

  /** handleReliableMessage */
  function Handle(t: Track, f: Frame): (r: Track)
    requires TrackOk(t) && FrameOk(f)
    ensures TrackOk(r)
  {
    if f.kind == COMPRESSED then
      var t1 := Flush(t);
      if f.body == [] then t1 else t1.(events := t1.events + [Decompress(f.body)])
    else
      var t1 := if t.pending.None? && f.kind < CONTROL then t.(pending := Some([f])) else Pass(t, f);
      t1.(events := t1.events + [Deliver(f.kind, f.body)])
  }

  predicate IsReliable(f: Frame) { f.kind >= START_OF_RELIABLES }

  // ----- replay

  function ReplayStep(t: Track, f: Frame): (r: Track)
    requires TrackOk(t) && FrameOk(f)
    ensures TrackOk(r)
  {
    if !IsReliable(f) || f.kind == UNORDERED then Pass(t, f) else Handle(t, f)
  }

  function Replay(fs: seq<Frame>): (t: Track)
    requires FramesOk(fs)
    ensures TrackOk(t)
  {
    if fs == [] then START else ReplayStep(Replay(fs[..|fs| - 1]), fs[|fs| - 1])
  }

  /** Everything that replaying a stored packet does. */
  function Replayed(packet: seq<byte>): seq<Event> { Flush(Replay(Parse(packet).frames)).events }

  // ----- frames for the connection itself

  /** Whether a frame ends the processing of its datagram: an acknowledgement of an acknowledgement of the
      wrong length, or one that its handler does not accept. */
  predicate Refused(f: Frame, accepts: Frame -> bool) {
    || (f.kind == ACK_ACK && |f.body| != ACK_ACK_BYTES)
    || ((f.kind == ACKNOWLEDGEMENTS || f.kind == TIME_SYNC) && !accepts(f))
  }

  predicate NoneRefused(fs: seq<Frame>, accepts: Frame -> bool) {
    forall i :: 0 <= i < |fs| ==> !Refused(fs[i], accepts)
  }

  /** The packet number of an acknowledged acknowledgement. */
  function AckAckSeq(body: seq<byte>): nat
    requires |body| == ACK_ACK_BYTES
  {
    var b0: nat, b1: nat, b2: nat := body[0], body[1], body[2];
    b0 + 256 * b1 + 65536 * b2
  }

  /** LastAckAckSeq after some frames: that of the last frame of its kind. */
  function AckAckAfter(fs: seq<Frame>, last: nat): nat {
    if fs == [] then last
    else if fs[|fs| - 1].kind == ACK_ACK && |fs[|fs| - 1].body| == ACK_ACK_BYTES then AckAckSeq(fs[|fs| - 1].body)
    else AckAckAfter(fs[..|fs| - 1], last)
  }

  /** That of the last one, least significant byte first, if there is one, and what it was before if not. */
  lemma {:induction false} LastAckAck(fs: seq<Frame>, last: nat, i: nat)
    requires i <= |fs| && forall j :: i < j < |fs| ==> fs[j].kind != ACK_ACK || |fs[j].body| != 3
    requires i < |fs| ==> fs[i].kind == ACK_ACK && |fs[i].body| == 3
    ensures i < |fs| ==>
              AckAckAfter(fs, last) == fs[i].body[0] as nat + 256 * fs[i].body[1] as nat + 65536 * fs[i].body[2] as nat
    ensures (forall j :: 0 <= j < |fs| ==> fs[j].kind != ACK_ACK || |fs[j].body| != 3) ==> AckAckAfter(fs, last) == last
  {
    if fs != [] && !(fs[|fs| - 1].kind == ACK_ACK && |fs[|fs| - 1].body| == 3) {
      LastAckAck(fs[..|fs| - 1], last, if i < |fs| then i else |fs| - 1);
    }
  }

  // ----- on arrival

  function FastStep(t: Track, f: Frame, inSequence: bool): (r: Track)
    requires TrackOk(t) && FrameOk(f)
    ensures TrackOk(r)
  {
    if IsReliable(f) then
      if f.kind == UNORDERED || !inSequence then Pass(t, f) else Handle(t, f)
    else if f.kind < PADDING then Pass(t, f)
    else Flush(t)
  }

  function Fast(fs: seq<Frame>, inSequence: bool): (t: Track)
    requires FramesOk(fs)
    ensures TrackOk(t)
  {
    if fs == [] then START else FastStep(Fast(fs[..|fs| - 1], inSequence), fs[|fs| - 1], inSequence)
  }

  /** The part of a datagram from the first reliable frame to the last, and what follows it. */
  datatype Carving = Carving(region: seq<Frame>, tail: seq<Frame>)

  function Carve(fs: seq<Frame>): (c: Carving)
    requires FramesOk(fs)
    ensures FramesOk(c.region) && FramesOk(c.tail) && (c.region == [] ==> c.tail == [])
  {
    if fs == [] then Carving([], [])
    else
      var c, f := Carve(fs[..|fs| - 1]), fs[|fs| - 1];
      if IsReliable(f) then Carving(c.region + c.tail + [f], [])
      else if c.region == [] then c
      else c.(tail := c.tail + [f])
  }

  // ----- the two ways agree

  /** Unreliable messages, then reliable ones, then padding. */
  predicate IsLayout(front: seq<Frame>, reliable: seq<Frame>, padding: seq<Frame>) {
    && FramesOk(front) && FramesOk(reliable) && FramesOk(padding)
    && (forall i :: 0 <= i < |front| ==> !IsReliable(front[i]))
    && (forall i :: 0 <= i < |reliable| ==> IsReliable(reliable[i]))
    && (forall i :: 0 <= i < |padding| ==> padding[i].kind == PADDING)
  }

  lemma {:induction false} NothingReliable(front: seq<Frame>, inSequence: bool)
    requires FramesOk(front) && forall i :: 0 <= i < |front| ==> !IsReliable(front[i])
    ensures Fast(front, inSequence) == START && Carve(front) == Carving([], [])
  {
    if front != [] {
      NothingReliable(front[..|front| - 1], inSequence);
    }
  }

  lemma {:induction false} OutOfSequence(fs: seq<Frame>)
    requires FramesOk(fs)
    ensures Fast(fs, false) == START
  {
    if fs != [] {
      OutOfSequence(fs[..|fs| - 1]);
    }
  }

  lemma {:induction false} ReliablePart(front: seq<Frame>, reliable: seq<Frame>)
    requires IsLayout(front, reliable, [])
    ensures FramesOk(front + reliable)
    ensures Fast(front + reliable, true) == Replay(reliable) && Carve(front + reliable) == Carving(reliable, [])
    decreases |reliable|
  {
    if reliable == [] {
      assert front + reliable == front;
      NothingReliable(front, true);
    } else {
      var init := reliable[..|reliable| - 1];
      ReliablePart(front, init);
      assert (front + reliable)[..|front + reliable| - 1] == front + init;
      assert init + [] + [reliable[|reliable| - 1]] == reliable;
    }
  }

  lemma {:induction false} PaddedPart(front: seq<Frame>, reliable: seq<Frame>, padding: seq<Frame>)
    requires IsLayout(front, reliable, padding)
    ensures FramesOk(front + reliable + padding)
    ensures Flush(Fast(front + reliable + padding, true)) == Flush(Replay(reliable))
    ensures Carve(front + reliable + padding).region == reliable
    decreases |padding|
  {
    if padding == [] {
      assert front + reliable + padding == front + reliable;
      ReliablePart(front, reliable);
    } else {
      var init := padding[..|padding| - 1];
      PaddedPart(front, reliable, init);
      assert (front + reliable + padding)[..|front + reliable + padding| - 1] == front + reliable + init;
    }
  }

  /** Processing a datagram on arrival, in sequence, makes the same calls as replaying its reliable part. */
  lemma FastIsReplay(front: seq<Frame>, reliable: seq<Frame>, padding: seq<Frame>)
    requires IsLayout(front, reliable, padding)
    ensures FramesOk(front + reliable + padding)
    ensures Flush(Fast(front + reliable + padding, true)).events == Replayed(EncodeAll(reliable))
    ensures EncodeAll(Carve(front + reliable + padding).region) == EncodeAll(reliable)
  {
    PaddedPart(front, reliable, padding);
    ParseEncoded(reliable);
  }

  /** An unreliable frame after a reliable one would make the two ways differ. */
  lemma LayoutMatters()
    ensures var reliable, late := Frame(6, [1]), Frame(UNRELIABLE, []);
            && FramesOk([reliable, late]) && Carve([reliable, late]).region == [reliable]
            && Flush(Fast([reliable, late], true)).events != Replayed(EncodeAll([reliable]))
  {
    var reliable, late := Frame(6, [1]), Frame(UNRELIABLE, []);
    var fs := [reliable, late];
    assert fs[..1] == [reliable] && [reliable][..0] == [];
    assert Fast([], true) == START;
    assert Fast([reliable], true) == Track(Some([reliable]), [Deliver(6, [1])]);
    assert Fast(fs, true) == Track(Some([reliable] + [late]), [Deliver(6, [1])]);
    assert Carve([]) == Carving([], []) && Carve([reliable]) == Carving([] + [] + [reliable], []);
    ParseEncoded([reliable]);
    assert Replay([]) == START;
    assert Replay([reliable]) == Track(Some([reliable]), [Deliver(6, [1])]);
    assert Flush(Fast(fs, true)).events[1] == InsertUncompressed(EncodeAll([reliable] + [late]));
    assert Replayed(EncodeAll([reliable]))[1] == InsertUncompressed(EncodeAll([reliable]));
    EncodeAllConcat([reliable], [late]);
    assert [late][..0] == [];
    assert EncodeAll([late]) == EncodeAll([]) + Encode(late);
    assert |EncodeAll([reliable] + [late])| == |EncodeAll([reliable])| + 2;
  }
}
