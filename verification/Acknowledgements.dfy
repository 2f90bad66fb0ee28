/** Acknowledgements: the decoder lists the columns it misses, the encoder iterates over the list. */
module Acknowledgements {
  import opened Options
  import opened Bytes
  import opened BitSets
  import opened Missing
  import opened Columns
  import opened Serializers
  import opened Encoders
  import opened DecoderWindows

  /** A run of consecutive elements. */
  datatype Span = Span(start: nat, count: nat)

  function AfterSpan(s: Span): nat { s.start + s.count + 1 }

  /** Spans in ascending order, each past an element that is not in the list. */
  ghost predicate Spaced(pos: nat, spans: seq<Span>)
    decreases |spans|
  {
    spans == [] ||
    (pos <= spans[0].start && 1 <= spans[0].count && spans[0].start + spans[0].count <= COLUMN_PERIOD
        && Spaced(AfterSpan(spans[0]), spans[1..]))
  }

  /** The encoding of a list of spans, each relative to the end of the one before. */
  ghost function RangeBytes(pos: nat, spans: seq<Span>): seq<byte>
    requires Spaced(pos, spans)
    decreases |spans|
  {
    if spans == [] then []
    else SerializeRange(spans[0].start - pos, spans[0].count - 1) + RangeBytes(AfterSpan(spans[0]), spans[1..])
  }

  ghost function EndPosition(pos: nat, spans: seq<Span>): nat {
    if spans == [] then pos else AfterSpan(spans[|spans| - 1])
  }

  ghost function SpanElements(s: Span): seq<nat> { seq(s.count, i => s.start + i) }

  ghost function Elements(spans: seq<Span>): seq<nat> {
    if spans == [] then [] else SpanElements(spans[0]) + Elements(spans[1..])
  }

  lemma NoSpans(pos: nat)
    ensures Spaced(pos, []) && RangeBytes(pos, []) == [] && Elements([]) == []
  {
  }

  lemma {:induction false} AppendSpan(pos: nat, spans: seq<Span>, s: Span)
    requires Spaced(pos, spans) && EndPosition(pos, spans) <= s.start && 1 <= s.count
             && s.start + s.count <= COLUMN_PERIOD
    ensures Spaced(pos, spans + [s])
    ensures RangeBytes(pos, spans + [s])
            == RangeBytes(pos, spans) + SerializeRange(s.start - EndPosition(pos, spans), s.count - 1)
    ensures Elements(spans + [s]) == Elements(spans) + SpanElements(s)
    ensures EndPosition(pos, spans + [s]) == AfterSpan(s)
    decreases |spans|
  {
    hide SerializeRange, SpanElements;
    if spans == [] {
      assert [s][1..] == [];
      assert Elements([s]) == SpanElements(s) + Elements([]);
    } else {
      var rest := spans[1..];
      assert (spans + [s])[1..] == rest + [s];
      AppendSpan(AfterSpan(spans[0]), rest, s);
    }
  }

  // ----- the decoder's side

  /** The listed elements are the missing ones, from the front, and at most the one past the window. */
  ghost predicate ListsMissing(got: seq<bool>, next: nat, elements: seq<nat>, complete: bool)
    requires next <= |got|
  {
    var missing := MissingIn(got, next, |got|);
    elements == missing || elements == missing + [|got|] || (!complete && elements <= missing)
  }

  /** An acknowledgement that names the next expected element and lists the missing ones. */
  ghost predicate IsAck(got: seq<bool>, columnStart: nat, next: nat, byteLimit: nat, ack: seq<byte>, spans: seq<Span>)
    requires next <= |got|
  {
    && Spaced(next, spans)
    && ack == SerializePacketNum(AddColumns(next, columnStart)) + RangeBytes(next, spans)
    && |ack| <= byteLimit
    && ListsMissing(got, next, Elements(spans), |ack| + MAX_RANGE_BYTES <= byteLimit)
    && (spans != [] ==> spans[0].start == next)
    && (spans == [] ==> next == |got|)
  }

  const MIN_ACK_BYTES: nat := 16

  /** The missing elements up to the end of a span that starts with the next missing one. */
  lemma SpanIsMissing(got: seq<bool>, from: nat, offset: nat, start: nat, end: nat)
    requires from <= offset <= start < end <= |got|
    requires Uniform(got, offset, start, true) && Uniform(got, start, end, false)
    ensures MissingIn(got, from, end) == MissingIn(got, from, offset) + SpanElements(Span(start, end - start))
  {
    MissingSplit(got, from, offset, end);
    MissingSplit(got, offset, start, end);
    MissingNone(got, offset, start);
    AllMissing(got, start, end);
  }

  lemma {:induction false} AllMissing(got: seq<bool>, a: nat, b: nat)
    requires a <= b <= |got| && Uniform(got, a, b, false)
    ensures MissingIn(got, a, b) == SpanElements(Span(a, b - a))
    decreases b
  {
    if a < b {
      AllMissing(got, a, b - 1);
      assert SpanElements(Span(a, b - a)) == SpanElements(Span(a, b - 1 - a)) + [b - 1];
    }
  }

  /** Skipping a received element. */
  lemma MissingSkip(got: seq<bool>, from: nat, end: nat)
    requires from <= end < |got| && got[end]
    ensures MissingIn(got, from, end + 1) == MissingIn(got, from, end)
  {
  }

  lemma OneElement(e: nat)
    ensures SpanElements(Span(e, 1)) == [e]
  {
  }

  lemma NothingMissing(got: seq<bool>, a: nat)
    ensures a <= |got| ==> MissingIn(got, a, a) == []
  {
  }

  /** Lists the missing elements as loss ranges, as long as another longest range fits.  A disabled
      decoder, and one that has seen nothing yet, has nothing to say. */
  method GenerateAcknowledgement<T>(window: DecoderWindow<T>, disabled: bool, byteLimit: nat)
    returns (ack: Option<seq<byte>>, ghost spans: seq<Span>)
    requires window.Valid() && window.count < COLUMN_PERIOD && byteLimit >= MIN_ACK_BYTES
    ensures ack.None? <==> disabled || window.count == 0
    ensures ack.Some? ==> IsAck(window.Got(), window.columnStart, window.nextExpected, byteLimit, ack.value, spans)
  {
    hide BitSets.Bits, PopCount, SerializeRange, SerializePacketNum, Wrap, MissingIn, Spaced, RangeBytes, Elements;
    hide SpanElements;
    NoSpans(window.nextExpected);
    spans := [];
    if disabled {
      return None, [];
    }
    var windowCount := window.count;
    if windowCount == 0 {
      return None, [];
    }
    ghost var got := window.Got();
    var next := window.nextExpected;
    var buffer := SerializePacketNum(AddColumns(next, window.columnStart));
    ghost var header := buffer;
    if next >= windowCount {
      MissingNone(got, next, |got|);
      return Some(buffer), [];
    }
    var remaining: nat := byteLimit - |buffer|;
    var rangeOffset: nat := next;
    NothingMissing(got, next);
    var done := false;
    while !done && remaining >= MAX_RANGE_BYTES
      invariant Spaced(next, spans) && buffer == header + RangeBytes(next, spans)
      invariant !done ==> rangeOffset == EndPosition(next, spans) && |buffer| + remaining == byteLimit
      invariant !done ==> Elements(spans) == MissingIn(got, next, Min(rangeOffset, windowCount))
      invariant done ==> |buffer| <= byteLimit && ListsMissing(got, next, Elements(spans), true)
      invariant spans != [] ==> spans[0].start == next
      invariant next <= rangeOffset <= windowCount + 1
                && (spans == [] ==> !done && rangeOffset == next && remaining >= MAX_RANGE_BYTES)
      decreases !done, windowCount + 2 - rangeOffset
    {
      var rangeStart := window.FindNextLostElement(rangeOffset);
      if rangeStart >= windowCount {
        FinishList(got, next, rangeOffset, Elements(spans));
        if windowCount >= rangeOffset {
          var relativeStart := windowCount - rangeOffset;
          buffer := buffer + SerializeRange(relativeStart, 0);
          AppendSpan(next, spans, Span(windowCount, 1));
          OneElement(windowCount);
          spans := spans + [Span(windowCount, 1)];
        }
        done := true;
      } else {
        var rangeEnd := window.FindNextGotElement(rangeStart + 1);
        var relativeStart := rangeStart - rangeOffset;
        var encoded := SerializeRange(relativeStart, rangeEnd - rangeStart - 1);
        AppendSpan(next, spans, Span(rangeStart, rangeEnd - rangeStart));
        SpanIsMissing(got, next, rangeOffset, rangeStart, rangeEnd);
        if rangeEnd < windowCount {
          MissingSkip(got, next, rangeEnd);
        }
        spans := spans + [Span(rangeStart, rangeEnd - rangeStart)];
        rangeOffset := rangeEnd + 1;
        buffer := buffer + encoded;
        remaining := remaining - |encoded|;
      }
    }
    if !done {
      MissingPrefix(got, next, Min(rangeOffset, windowCount));
    }
    ack := Some(buffer);
  }

  lemma FinishList(got: seq<bool>, next: nat, offset: nat, elements: seq<nat>)
    requires next <= offset <= |got| + 1 && next <= |got| && IsNext(got, offset, false, |got|)
    requires elements == MissingIn(got, next, Min(offset, |got|))
    ensures elements == MissingIn(got, next, |got|)
  {
    if offset < |got| {
      MissingSplit(got, next, offset, |got|);
      MissingNone(got, offset, |got|);
    }
  }

  lemma MissingPrefix(got: seq<bool>, a: nat, b: nat)
    requires a <= b <= |got|
    ensures MissingIn(got, a, b) <= MissingIn(got, a, |got|)
  {
    MissingSplit(got, a, b, |got|);
  }

  // ----- the encoder's side

  /** The guard bytes behind the encoder's copy of the data. */
  function Padding(): seq<byte> { [0, 0, 0, 0, 0, 0, 0, 0] }

  /** The loss range at an offset of the data, if it lies within the data. */
  function RangeAt(data: seq<byte>, offset: nat): (r: Option<Parsed<LossRange>>)
    ensures r.Some? ==> r.value.bytes > 0 && offset + r.value.bytes <= |data|
  {
    if offset >= |data| then None
    else
      var range := DeserializeRange(data[offset..] + Padding());
      if range.None? || offset + range.value.bytes > |data| then None else range
  }

  function RangeColumns(column: nat, count: nat): seq<nat> { seq(count, i => AddColumns(column, i)) }

  /** The columns listed from an offset on, when the next range is relative to `column`. */
  function Listed(data: seq<byte>, offset: nat, column: nat): seq<nat>
    decreases |data| - offset
  {
    match RangeAt(data, offset)
    case None => []
    case Some(f) =>
      var start := AddColumns(column, f.value.start);
      var count := f.value.lossCountM1 + 1;
      RangeColumns(start, count) + Listed(data, offset + f.bytes, AddColumns(AddColumns(start, count), 1))
  }

  datatype AckOutcome = Invalid | Stale | Duplicate | Accepted

  class LossIterator {
    var hasData: bool
    var data: seq<byte>
    var offset: nat
    var lossColumn: nat
    var lossCount: nat
    var nextColumnExpected: nat

    ghost predicate Valid()
      reads this
    {
      lossColumn < COLUMN_PERIOD && nextColumnExpected < COLUMN_PERIOD
    }

    /** The columns that the iterator is still going to return. */
    ghost function Upcoming(): seq<nat>
      reads this
    {
      RangeColumns(lossColumn, lossCount) + Listed(data, offset, AddColumns(AddColumns(lossColumn, lossCount), 1))
    }

    constructor ()
      ensures Valid() && nextColumnExpected == 0 && Upcoming() == []
    {
      hasData, data, offset, lossColumn, lossCount, nextColumnExpected := false, [], 0, 0, 0, 0;
    }

    method DecodeNextRange() returns (ok: bool)
      requires Valid() && lossCount == 0
      modifies this`offset, this`lossColumn, this`lossCount
      ensures Valid() && ok == (old(Listed(data, offset, lossColumn)) != [])
      ensures Upcoming() == old(Listed(data, offset, lossColumn)) && (ok ==> lossCount > 0)
    {
      hide DeserializeRange, Wrap;
      if offset >= |data| {
        assert RangeColumns(lossColumn, 0) == [];
        return false;
      }
      var range := DeserializeRange(data[offset..] + Padding());
      if range.None? {
        assert RangeColumns(lossColumn, 0) == [];
        return false;
      }
      offset := offset + range.value.bytes;
      if offset > |data| {
        assert RangeColumns(lossColumn, 0) == [];
        return false;
      }
      lossColumn := AddColumns(lossColumn, range.value.value.start);
      lossCount := range.value.value.lossCountM1 + 1;
      return true;
    }

    /** Returns the next listed column, until there are no more. */
    method GetNextLossColumn() returns (column: Option<nat>)
      requires Valid()
      modifies this`offset, this`lossColumn, this`lossCount
      ensures Valid()
      ensures column == if old(Upcoming()) == [] then None else Some(old(Upcoming())[0])
      ensures Upcoming() == if old(Upcoming()) == [] then [] else old(Upcoming())[1..]
    {
      hide Listed, Wrap, AddColumns, RangeColumns;
      ghost var upcoming := Upcoming();
      if lossCount == 0 {
        NextOfNext(lossColumn);
        FirstColumn(lossColumn, 1);
        lossColumn := AddColumns(lossColumn, 1);
        var ok := DecodeNextRange();
        if !ok {
          return None;
        }
      }
      assert upcoming == Upcoming();
      FirstColumn(lossColumn, lossCount);
      column := Some(lossColumn);
      assert upcoming[0] == lossColumn;
      lossColumn := AddColumns(lossColumn, 1);
      lossCount := lossCount - 1;
    }

    lemma NextOfNext(c: nat)
      requires c < COLUMN_PERIOD
      ensures AddColumns(AddColumns(c, 0), 1) == AddColumns(c, 1) && RangeColumns(c, 0) == []
    {
    }

    lemma FirstColumn(c: nat, n: nat)
      requires c < COLUMN_PERIOD && n > 0
      ensures RangeColumns(c, n) == [c] + RangeColumns(AddColumns(c, 1), n - 1)
      ensures AddColumns(AddColumns(c, 1), n - 1) == AddColumns(c, n) && AddColumns(c, 1) < COLUMN_PERIOD
    {
      hide Wrap;
      WrapSmall(c);
      AddWrapped(c, 0);
      AddWrapped(c + 1, n - 1);
      var later := RangeColumns(AddColumns(c, 1), n - 1);
      forall i | 0 <= i < n - 1 ensures later[i] == AddColumns(c, i + 1) {
        AddWrapped(c + 1, i);
      }
    }

    /** Starts over from the first range. */
    method RestartLossIterator()
      requires Valid()
      modifies this`offset, this`lossColumn, this`lossCount
      ensures Valid() && Upcoming() == Listed(data, 0, nextColumnExpected)
    {
      offset, lossColumn, lossCount := 0, nextColumnExpected, 0;
      var ignored := DecodeNextRange();
    }

    /** The acknowledgement that is held, once more. */
    ghost predicate Repeats(ack: seq<byte>)
      reads this
    {
      var header := DeserializePacketNum(ack);
      header.Some? && nextColumnExpected == header.value.value && hasData && ack[header.value.bytes..] == data
    }

    /** Takes in an acknowledgement unless it is older than the last one, and lets the window
        forget what has been received. */
    method OnAcknowledgementData<T(!new)>(window: Encoder<T>, ack: seq<byte>) returns (outcome: AckOutcome)
      requires Valid() && window.Valid()
      modifies this, window
      ensures Valid() && window.Valid() && window.hist == old(window.hist)
      ensures window.emitted == old(window.emitted) && (old(window.InTurn()) ==> window.InTurn())
      ensures outcome != Accepted ==> window.FirstUnacked() == old(window.FirstUnacked())
      ensures outcome == Invalid <==>
                var header := DeserializePacketNum(ack);
                header.None? ||
                ( && !IsColumnDeltaNegative(SubtractColumns(header.value.value, old(nextColumnExpected)))
                  && ack[header.value.bytes..] != [] && Listed(ack[header.value.bytes..], 0, header.value.value) == []
                  && !old(Repeats(ack)))
      ensures outcome == Invalid && DeserializePacketNum(ack).Some? ==>
                nextColumnExpected == DeserializePacketNum(ack).value.value
      ensures outcome == Stale <==>
                var header := DeserializePacketNum(ack);
                header.Some? && IsColumnDeltaNegative(SubtractColumns(header.value.value, old(nextColumnExpected)))
      ensures outcome == Duplicate <==> old(Repeats(ack))
      ensures outcome == Stale || outcome == Duplicate ==>
                nextColumnExpected == old(nextColumnExpected) && data == old(data) && Upcoming() == old(Upcoming())
      ensures outcome == Accepted ==>
                var header := DeserializePacketNum(ack);
                && header.Some? && nextColumnExpected == header.value.value && data == ack[header.value.bytes..]
                && Upcoming() == Listed(data, 0, nextColumnExpected)
                && forall n: int ::
                     n <= |window.hist| && Wrap(n) == nextColumnExpected
                       && -(COLUMN_PERIOD / 2) <= n - old(window.base) < COLUMN_PERIOD / 2 ==>
                     window.FirstUnacked() == if n <= old(window.FirstUnacked()) then old(window.FirstUnacked()) else n
    {
      hide Wrap, window.Valid, window.InTurn, DeserializePacketNum;
      SubtractWrapped(nextColumnExpected, nextColumnExpected);
      var header := DeserializePacketNum(ack);
      if header.None? {
        return Invalid;
      }
      var next, rest := header.value.value, ack[header.value.bytes..];
      if IsColumnDeltaNegative(SubtractColumns(next, nextColumnExpected)) {
        return Stale;
      }
      if nextColumnExpected == next && hasData && rest == data {
        return Duplicate;
      }
      nextColumnExpected := next;
      offset, lossColumn, lossCount, data := 0, next, 0, rest;
      if |rest| > 0 {
        hasData := true;
        var ok := DecodeNextRange();
        if !ok {
          return Invalid;
        }
      } else {
        assert RangeColumns(lossColumn, 0) == [];
      }
      window.RemoveBefore(next);
      return Accepted;
    }
  }

  // ----- the round trip

  ghost function ColumnsOf(columnStart: int, elements: seq<nat>): seq<nat> {
    seq(|elements|, i requires 0 <= i < |elements| => Wrap(columnStart + elements[i]))
  }

  /** Reading back a list of spans gives the columns of its elements. */
  lemma {:induction false} ListedIsElements(data: seq<byte>, offset: nat, base: nat, pos: nat, spans: seq<Span>)
    requires Spaced(pos, spans) && offset <= |data| && data[offset..] == RangeBytes(pos, spans)
    ensures Listed(data, offset, Wrap(base + pos)) == ColumnsOf(base, Elements(spans))
    decreases |spans|
  {
    hide Wrap, SerializeRange, DeserializeRange;
    if spans != [] {
      var s, rest := spans[0], spans[1..];
      var encoded := SerializeRange(s.start - pos, s.count - 1);
      var tail := RangeBytes(AfterSpan(s), rest);
      assert data[offset..] + Padding() == encoded + (tail + Padding());
      RangeRoundTrip(s.start - pos, s.count - 1, tail + Padding());
      assert data[offset + |encoded|..] == data[offset..][|encoded|..] == tail;
      AddWrapped(base + pos, s.start - pos);
      AddWrapped(base + s.start, s.count);
      AddWrapped(base + s.start + s.count, 1);
      ListedIsElements(data, offset + |encoded|, base, AfterSpan(s), rest);
      forall i | 0 <= i < s.count
        ensures RangeColumns(Wrap(base + s.start), s.count)[i] == Wrap(base + SpanElements(s)[i])
      {
        AddWrapped(base + s.start, i);
      }
      assert RangeColumns(Wrap(base + s.start), s.count) == ColumnsOf(base, SpanElements(s));
      assert ColumnsOf(base, Elements(spans)) == ColumnsOf(base, SpanElements(s)) + ColumnsOf(base, Elements(rest));
    }
  }

  /** What the encoder reads off an acknowledgement: the next expected column, and, in order, the
      missing columns, or as many of them as there was room for, and at most one column more, the
      one just past the decoder's window. */
  lemma AcknowledgementRoundTrip(got: seq<bool>, base: nat, next: nat, byteLimit: nat, ack: seq<byte>, spans: seq<Span>)
    requires next <= |got| && IsAck(got, Wrap(base), next, byteLimit, ack, spans)
    ensures var header := DeserializePacketNum(ack);
            && header == Some(Parsed(Wrap(base + next), header.value.bytes)) && header.value.bytes <= |ack|
            && var columns := Listed(ack[header.value.bytes..], 0, Wrap(base + next));
               var missing := ColumnsOf(base, MissingIn(got, next, |got|));
               && (columns <= missing || columns == missing + [Wrap(base + |got|)])
               && (|ack| + MAX_RANGE_BYTES <= byteLimit ==> missing <= columns)
               && (columns == [] ==> missing == [] && ack[header.value.bytes..] == [])
  {
    hide Wrap, SerializeRange, MissingIn, SerializePacketNum, DeserializePacketNum, Listed;
    AddWrapped(base, next);
    var tail := RangeBytes(next, spans);
    var header := SerializePacketNum(Wrap(base + next));
    PacketNumRoundTrip(Wrap(base + next), tail);
    assert ack[|header|..] == tail && tail[0..] == tail;
    ListedIsElements(tail, 0, base, next, spans);
    var missing := MissingIn(got, next, |got|);
    if Elements(spans) == missing + [|got|] {
      assert ColumnsOf(base, missing + [|got|]) == ColumnsOf(base, missing) + [Wrap(base + |got|)];
    }
    if spans == [] {
      MissingNone(got, next, |got|);
    } else {
      assert Elements(spans)[0] == next;
    }
  }
}
