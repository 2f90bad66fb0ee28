/** What the receiver does with the frames of a packet, said of the frames and the calls alone: which calls
    are made in which order, and which bytes the decompressor has been given when it gets a block. */
module DeliveryMeaning {
  import opened Options
  import opened Bytes
  import opened Frames
  import opened Delivery

  // ----- of the frames

  /** The call a frame is there for. */
  function CallOf(f: Frame): seq<Event> {
    if f.kind < START_OF_RELIABLES || f.kind == UNORDERED then []
    else if f.kind != COMPRESSED then [Deliver(f.kind, f.body)]
    else if f.body == [] then []
    else [Decompress(f.body)]
  }

  function Calls(fs: seq<Frame>): seq<Event> {
    if fs == [] then [] else CallOf(fs[0]) + Calls(fs[1..])
  }

  /** A frame with which a stretch of history begins. */
  predicate Opens(f: Frame) { START_OF_RELIABLES <= f.kind < CONTROL && f.kind != COMPRESSED }

  /** A frame belongs to the history if there is one that opens a stretch, at it or before it, and no
      compressed block since. */
  ghost predicate InHistory(fs: seq<Frame>, i: nat)
    requires i < |fs|
  {
    exists j: nat :: j <= i && Opens(fs[j]) && forall m :: j <= m <= i ==> fs[m].kind != COMPRESSED
  }

  /** The frames of the history, in order. */
  ghost function History(fs: seq<Frame>): (hs: seq<Frame>)
    requires FramesOk(fs)
    ensures FramesOk(hs)
  {
    if fs == [] then []
    else History(fs[..|fs| - 1]) + if InHistory(fs, |fs| - 1) then [fs[|fs| - 1]] else []
  }

  /** A compressed block, and all the bytes of history before it. */
  datatype Block = Block(body: seq<byte>, history: seq<byte>)

  /** The blocks among some frames when the given bytes came before them. */
  ghost function Blocks(fs: seq<Frame>, before: seq<byte>): seq<Block>
    requires FramesOk(fs)
  {
    if fs == [] then []
    else
      var init, f := fs[..|fs| - 1], fs[|fs| - 1];
      Blocks(init, before)
      + if f.kind == COMPRESSED && f.body != [] then [Block(f.body, before + EncodeAll(History(init)))] else []
  }

  // ----- of the calls

  function WithoutInserts(events: seq<Event>): seq<Event> {
    if events == [] then []
    else (if events[0].InsertUncompressed? then [] else [events[0]]) + WithoutInserts(events[1..])
  }

  function Inserted(events: seq<Event>): seq<byte> {
    if events == [] then []
    else (if events[0].InsertUncompressed? then events[0].data else []) + Inserted(events[1..])
  }

  /** The blocks handed to the decompressor, each with all the bytes it had been given by then. */
  function Ledger(events: seq<Event>, before: seq<byte>): seq<Block> {
    if events == [] then []
    else if events[0].InsertUncompressed? then Ledger(events[1..], before + events[0].data)
    else (if events[0].Decompress? then [Block(events[0].body, before)] else []) + Ledger(events[1..], before)
  }

  lemma {:induction false} CallsOf(a: seq<Event>, b: seq<Event>)
    ensures WithoutInserts(a + b) == WithoutInserts(a) + WithoutInserts(b)
  {
    if a == [] {
      assert a + b == b;
    } else {
      assert (a + b)[1..] == a[1..] + b;
      CallsOf(a[1..], b);
    }
  }

  lemma {:induction false} InsertedOf(a: seq<Event>, b: seq<Event>)
    ensures Inserted(a + b) == Inserted(a) + Inserted(b)
  {
    if a == [] {
      assert a + b == b;
    } else {
      assert (a + b)[1..] == a[1..] + b;
      InsertedOf(a[1..], b);
    }
  }

  lemma {:induction false} LedgerOf(a: seq<Event>, b: seq<Event>, before: seq<byte>)
    ensures Ledger(a + b, before) == Ledger(a, before) + Ledger(b, before + Inserted(a))
  {
    if a == [] {
      assert a + b == b && before + Inserted(a) == before;
    } else {
      assert (a + b)[1..] == a[1..] + b;
      var next := if a[0].InsertUncompressed? then before + a[0].data else before;
      LedgerOf(a[1..], b, next);
      assert next + Inserted(a[1..]) == before + Inserted(a);
    }
  }

  lemma Appended(a: seq<Event>, b: seq<Event>, before: seq<byte>)
    ensures WithoutInserts(a + b) == WithoutInserts(a) + WithoutInserts(b)
    ensures Inserted(a + b) == Inserted(a) + Inserted(b)
    ensures Ledger(a + b, before) == Ledger(a, before) + Ledger(b, before + Inserted(a))
  {
    CallsOf(a, b);
    InsertedOf(a, b);
    LedgerOf(a, b, before);
  }

  lemma {:induction false} CallsAppended(fs: seq<Frame>, gs: seq<Frame>)
    ensures Calls(fs + gs) == Calls(fs) + Calls(gs)
  {
    if fs == [] {
      assert fs + gs == gs;
    } else {
      assert (fs + gs)[1..] == fs[1..] + gs;
      CallsAppended(fs[1..], gs);
    }
  }

  // ----- replaying

  /** What has been done with some frames, and what waits to be inserted. */
  ghost predicate Means(t: Track, fs: seq<Frame>, before: seq<byte>)
    requires FramesOk(fs) && TrackOk(t)
  {
    && WithoutInserts(t.events) == Calls(fs)
    && Ledger(t.events, before) == Blocks(fs, before)
    && (t.pending.Some? <==> fs != [] && InHistory(fs, |fs| - 1))
    && EncodeAll(History(fs)) == Inserted(t.events) + if t.pending.Some? then EncodeAll(t.pending.value) else []
  }

  /** One more frame stays in an open stretch, or opens one, unless it is a compressed block. */
  lemma HistoryStep(fs: seq<Frame>, f: Frame)
    ensures InHistory(fs + [f], |fs|) <==>
              f.kind != COMPRESSED && (Opens(f) || (fs != [] && InHistory(fs, |fs| - 1)))
  {
    var all, n := fs + [f], |fs|;
    assert all[n] == f;
    if InHistory(all, n) {
      var j: nat :| j <= n && Opens(all[j]) && forall m :: j <= m <= n ==> all[m].kind != COMPRESSED;
      assert f.kind != COMPRESSED;
      if j < n {
        assert forall m :: j <= m <= n - 1 ==> fs[m] == all[m];
        assert Opens(fs[j]);
      }
    }
    if f.kind != COMPRESSED && n > 0 && InHistory(fs, n - 1) {
      StretchGoesOn(fs, f);
    }
    if Opens(f) {
      assert Opens(all[n]);
    }
  }

  lemma StretchGoesOn(fs: seq<Frame>, f: Frame)
    requires fs != [] && InHistory(fs, |fs| - 1) && f.kind != COMPRESSED
    ensures InHistory(fs + [f], |fs|)
  {
    var all, n := fs + [f], |fs|;
    var j: nat :| j <= n - 1 && Opens(fs[j]) && forall m :: j <= m <= n - 1 ==> fs[m].kind != COMPRESSED;
    assert Opens(all[j]);
  }

  lemma Unrolled(fs: seq<Frame>, f: Frame, before: seq<byte>)
    requires FramesOk(fs) && FrameOk(f)
    ensures FramesOk(fs + [f])
    ensures History(fs + [f]) == History(fs) + if InHistory(fs + [f], |fs|) then [f] else []
    ensures Blocks(fs + [f], before) == Blocks(fs, before)
              + if f.kind == COMPRESSED && f.body != [] then [Block(f.body, before + EncodeAll(History(fs)))] else []
    ensures Calls(fs + [f]) == Calls(fs) + CallOf(f)
  {
    assert (fs + [f])[..|fs|] == fs;
    CallsAppended(fs, [f]);
    assert Calls([f]) == CallOf(f) + Calls([]);
  }

  lemma OneCall(e: Event, before: seq<byte>)
    ensures WithoutInserts([e]) == if e.InsertUncompressed? then [] else [e]
    ensures Inserted([e]) == if e.InsertUncompressed? then e.data else []
    ensures Ledger([e], before) == if e.Decompress? then [Block(e.body, before)] else []
  {
    assert [e][1..] == [];
  }

  lemma FlushMeans(t: Track, before: seq<byte>)
    requires TrackOk(t)
    ensures WithoutInserts(Flush(t).events) == WithoutInserts(t.events)
    ensures Ledger(Flush(t).events, before) == Ledger(t.events, before)
    ensures Inserted(Flush(t).events) ==
              Inserted(t.events) + if t.pending.Some? then EncodeAll(t.pending.value) else []
  {
    if t.pending.Some? {
      var e := InsertUncompressed(EncodeAll(t.pending.value));
      Appended(t.events, [e], before);
      OneCall(e, before + Inserted(t.events));
    }
  }

  lemma BlockMeans(t: Track, fs: seq<Frame>, f: Frame, before: seq<byte>)
    requires FramesOk(fs) && FrameOk(f) && TrackOk(t) && Means(t, fs, before) && f.kind == COMPRESSED
    ensures FramesOk(fs + [f]) && Means(Handle(t, f), fs + [f], before)
  {
    hide InHistory, History, Blocks, Calls, WithoutInserts, Inserted, Ledger, EncodeAll, Flush;
    HistoryStep(fs, f);
    Unrolled(fs, f, before);
    assert History(fs + [f]) == History(fs);
    FlushMeans(t, before);
    var flushed := Flush(t).events;
    if f.body != [] {
      var e := Decompress(f.body);
      Appended(flushed, [e], before);
      OneCall(e, before + Inserted(flushed));
      assert Handle(t, f).events == flushed + [e];
      assert Inserted(flushed + [e]) == Inserted(flushed);
    } else {
      assert Calls(fs + [f]) == Calls(fs) && Blocks(fs + [f], before) == Blocks(fs, before);
      assert Handle(t, f).events == flushed;
    }
  }

  lemma MessageMeans(t: Track, fs: seq<Frame>, f: Frame, before: seq<byte>)
    requires FramesOk(fs) && FrameOk(f) && TrackOk(t) && Means(t, fs, before) && f.kind != COMPRESSED
    ensures FramesOk(fs + [f]) && Means(ReplayStep(t, f), fs + [f], before)
  {
    hide InHistory, History, Blocks, Calls, WithoutInserts, Inserted, Ledger, EncodeAll;
    HistoryStep(fs, f);
    Unrolled(fs, f, before);
    EncodeAllConcat(History(fs), [f]);
    var r := ReplayStep(t, f);
    if t.pending.Some? {
      EncodeAllConcat(t.pending.value, [f]);
      assert r.pending == Some(t.pending.value + [f]);
    } else if !Opens(f) {
      assert r.pending.None? && History(fs + [f]) == History(fs);
    }
    assert r.pending.Some? ==> EncodeAll(History(fs + [f])) == Inserted(t.events) + EncodeAll(r.pending.value);
    if f.kind >= START_OF_RELIABLES && f.kind != UNORDERED {
      var e := Deliver(f.kind, f.body);
      Appended(t.events, [e], before);
      OneCall(e, before + Inserted(t.events));
      assert r.events == t.events + [e] && Inserted(r.events) == Inserted(t.events);
    } else {
      assert r.events == t.events && Calls(fs + [f]) == Calls(fs);
    }
  }

  lemma StepMeans(t: Track, fs: seq<Frame>, f: Frame, before: seq<byte>)
    requires FramesOk(fs) && FrameOk(f) && TrackOk(t) && Means(t, fs, before)
    ensures FramesOk(fs + [f]) && Means(ReplayStep(t, f), fs + [f], before)
  {
    hide Means;
    if f.kind == COMPRESSED {
      BlockMeans(t, fs, f, before);
    } else {
      MessageMeans(t, fs, f, before);
    }
  }

  lemma {:induction false} ReplayMeans(fs: seq<Frame>, before: seq<byte>)
    requires FramesOk(fs)
    ensures Means(Replay(fs), fs, before)
  {
    if fs != [] {
      hide Means, ReplayStep;
      var init := fs[..|fs| - 1];
      ReplayMeans(init, before);
      StepMeans(Replay(init), init, fs[|fs| - 1], before);
      assert init + [fs[|fs| - 1]] == fs;
    }
  }

  /** All that replaying does: every ordered message is delivered, in order and with its body; every block
      that is not empty is handed to the decompressor; and the bytes the decompressor has been given by then
      are exactly the frames of the history before the block. */
  lemma ReplayedMeans(packet: seq<byte>, before: seq<byte>)
    ensures var fs, events := Parse(packet).frames, Replayed(packet);
            && WithoutInserts(events) == Calls(fs)
            && Ledger(events, before) == Blocks(fs, before)
            && Inserted(events) == EncodeAll(History(fs))
  {
    hide Calls, Blocks, WithoutInserts, Ledger, Inserted, Replay, Flush;
    var fs := Parse(packet).frames;
    ReplayMeans(fs, before);
    FlushMeans(Replay(fs), before);
  }

  /** A message before a compressed block: the call that gives its bytes to the decompressor comes first. */
  lemma HistoryFirst()
    ensures var message, block := Frame(6, [1]), Frame(COMPRESSED, [9]);
            && FramesOk([message, block])
            && Replayed(EncodeAll([message, block]))
                 == [Deliver(6, [1]), InsertUncompressed(Encode(message)), Decompress([9])]
  {
    var message, block := Frame(6, [1]), Frame(COMPRESSED, [9]);
    var fs := [message, block];
    ParseEncoded(fs);
    assert fs[..1] == [message] && [message][..0] == [];
    assert Replay([]) == START && EncodeAll([]) == [];
    assert Replay([message]) == Track(Some([message]), [Deliver(6, [1])]);
    assert EncodeAll([message]) == [] + Encode(message);
    var inserted := InsertUncompressed(EncodeAll([message]));
    assert Flush(Replay([message])) == Track(None, [Deliver(6, [1])] + [inserted]);
    assert Replay(fs) == ReplayStep(Replay([message]), block);
    assert Replay(fs) == Track(None, [Deliver(6, [1])] + [inserted] + [Decompress([9])]);
    assert EncodeAll([message]) == Encode(message);
    assert Replayed(EncodeAll(fs)) == Replay(fs).events;
  }
}
