/** Message frames: a 16-bit header with five bits of type and eleven bits of length, then the message. */
module Frames {
  import opened Bytes

  const FRAME_BYTES: nat := 2
  const MAX_MESSAGE: nat := 2047

  const TIME_SYNC: nat := 0
  const ACKNOWLEDGEMENTS: nat := 1
  const ACK_ACK: nat := 2
  const ACK_ACK_BYTES: nat := 3
  const PADDING: nat := 4
  const START_OF_RELIABLES: nat := 5
  const COMPRESSED: nat := 5
  const CONTROL: nat := 30
  const UNORDERED: nat := 31
  const UNRELIABLE: nat := 3

  datatype Frame = Frame(kind: nat, body: seq<byte>)

  predicate FrameOk(f: Frame) { f.kind < 32 && |f.body| <= MAX_MESSAGE }

  predicate FramesOk(fs: seq<Frame>) { forall i :: 0 <= i < |fs| ==> FrameOk(fs[i]) }

  function Encode(f: Frame): (b: seq<byte>)
    requires FrameOk(f)
    ensures |b| == FRAME_BYTES + |f.body|
  {
    var header := f.kind * 2048 + |f.body|;
    [header % 256, header / 256] + f.body
  }

  /** Type 6 with one byte: six in the upper five bits, one in the lower eleven, the low byte first. */
  lemma FrameOnWire()
    ensures Encode(Frame(6, [9])) == [0x01, 0x30, 9]
  {
  }

  function EncodeAll(fs: seq<Frame>): (b: seq<byte>)
    requires FramesOk(fs)
  {
    if fs == [] then [] else EncodeAll(fs[..|fs| - 1]) + Encode(fs[|fs| - 1])
  }

  /** The header of the frame at the front of a buffer. */
  function Header(b: seq<byte>): (h: nat)
    requires |b| >= FRAME_BYTES
    ensures h < 65536
  {
    var low: nat, high: nat := b[0], b[1];
    low + 256 * high
  }

  /** Whether a whole frame is at the front. */
  predicate HasFrame(b: seq<byte>) {
    |b| >= FRAME_BYTES && |b| - FRAME_BYTES >= Header(b) % 2048
  }

  function FirstFrame(b: seq<byte>): (f: Frame)
    requires HasFrame(b)
    ensures FrameOk(f) && |Encode(f)| <= |b|
  {
    var h := Header(b);
    Frame(h / 2048, b[FRAME_BYTES..FRAME_BYTES + h % 2048])
  }

  datatype Parsing = Parsing(frames: seq<Frame>, rest: seq<byte>)

  /** Reads frames until no whole one is left. */
  function Parse(b: seq<byte>): (p: Parsing)
    ensures FramesOk(p.frames)
    decreases |b|
  {
    if !HasFrame(b) then Parsing([], b)
    else
      var f := FirstFrame(b);
      var p := Parse(b[FRAME_BYTES + |f.body|..]);
      Parsing([f] + p.frames, p.rest)
  }

  lemma EncodeFirst(f: Frame, rest: seq<byte>)
    requires FrameOk(f)
    ensures HasFrame(Encode(f) + rest) && FirstFrame(Encode(f) + rest) == f
  {
    var b := Encode(f) + rest;
    var header := f.kind * 2048 + |f.body|;
    assert Header(b) == header;
    assert header % 2048 == |f.body| && header / 2048 == f.kind;
    assert b[FRAME_BYTES..FRAME_BYTES + |f.body|] == f.body;
  }

  lemma FirstEncode(b: seq<byte>)
    requires HasFrame(b)
    ensures b == Encode(FirstFrame(b)) + b[FRAME_BYTES + |FirstFrame(b).body|..]
  {
    var h := Header(b);
    assert h / 2048 * 2048 + h % 2048 == h && h % 256 == b[0] && h / 256 == b[1];
  }

  lemma {:induction false} EncodeAllFirst(f: Frame, fs: seq<Frame>)
    requires FrameOk(f) && FramesOk(fs)
    ensures FramesOk([f] + fs) && EncodeAll([f] + fs) == Encode(f) + EncodeAll(fs)
    decreases |fs|
  {
    if fs == [] {
      assert ([f] + fs)[..0] == [];
      assert EncodeAll([f]) == EncodeAll([]) + Encode(f);
    } else {
      EncodeAllFirst(f, fs[..|fs| - 1]);
      assert ([f] + fs)[..|fs|] == [f] + fs[..|fs| - 1];
    }
  }

  lemma {:induction false} EncodeAllConcat(fs: seq<Frame>, gs: seq<Frame>)
    requires FramesOk(fs) && FramesOk(gs)
    ensures FramesOk(fs + gs) && EncodeAll(fs + gs) == EncodeAll(fs) + EncodeAll(gs)
    decreases |gs|
  {
    if gs == [] {
      assert fs + gs == fs;
    } else {
      hide Encode;
      var init, last := gs[..|gs| - 1], gs[|gs| - 1];
      EncodeAllConcat(fs, init);
      assert (fs + gs)[..|fs + gs| - 1] == fs + init && (fs + gs)[|fs + gs| - 1] == last;
      assert EncodeAll(fs + gs) == EncodeAll(fs + init) + Encode(last);
      assert EncodeAll(gs) == EncodeAll(init) + Encode(last);
    }
  }

  /** Reading back an encoding. */
  lemma {:induction false} ParseEncoded(fs: seq<Frame>)
    requires FramesOk(fs)
    ensures Parse(EncodeAll(fs)) == Parsing(fs, [])
    decreases |fs|
  {
    if fs != [] {
      var f, rest := fs[0], fs[1..];
      assert fs == [f] + rest;
      EncodeAllFirst(f, rest);
      var tail := EncodeAll(rest);
      EncodeFirst(f, tail);
      assert (Encode(f) + tail)[FRAME_BYTES + |f.body|..] == tail;
      ParseEncoded(rest);
    }
  }

  lemma ParseStep(b: seq<byte>)
    ensures !HasFrame(b) ==> Parse(b) == Parsing([], b)
    ensures HasFrame(b) ==>
              var f := FirstFrame(b);
              var p := Parse(b[FRAME_BYTES + |f.body|..]);
              Parse(b) == Parsing([f] + p.frames, p.rest)
    ensures EncodeAll([]) == []
  {
  }

  /** What has been read, written back. */
  lemma {:induction false} EncodeParsed(b: seq<byte>)
    ensures b == EncodeAll(Parse(b).frames) + Parse(b).rest
    decreases |b|
  {
    hide Parse, Encode, FirstFrame, HasFrame, EncodeAll;
    ParseStep(b);
    if HasFrame(b) {
      var f := FirstFrame(b);
      var tail := b[FRAME_BYTES + |f.body|..];
      var p := Parse(tail);
      FirstEncode(b);
      EncodeParsed(tail);
      EncodeAllFirst(f, p.frames);
      assert Encode(f) + EncodeAll(p.frames) + p.rest == Encode(f) + (EncodeAll(p.frames) + p.rest);
    }
  }
}
