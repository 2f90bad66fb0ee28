/** The variable-length fields of the wire format: packet numbers, counts, lengths, the metadata
    footer of a recovery packet and the loss ranges of an acknowledgement.

    A header is parsed from the front of a buffer, a footer from its end. Shifts, masks and
    or-ed flag bits of the program are written as divisions, remainders and sums. */
module Serializers {
  import opened Options
  import opened Bytes
  import opened Buffers
  import opened Columns
  import opened Recovery
  import opened Encoders
  import opened BackSubstitutions

  /** What a parser returns: the value and the number of bytes it occupied. */
  datatype Parsed<+V> = Parsed(value: V, bytes: nat)

  const MAX_LENGTH: nat := 0x1fffffff
  const MAX_COUNT: nat := 0x7fff

  function Reversed(s: seq<byte>): (r: seq<byte>)
    ensures |r| == |s|
    ensures forall i :: 0 <= i < |s| ==> r[i] == s[|s| - 1 - i]
  {
    seq(|s|, i requires 0 <= i < |s| => s[|s| - 1 - i])
  }

  /** Two, three and four bytes as one number, the most significant first. */
  function Two(a: nat, b: nat): nat { a * 256 + b }

  function Three(a: nat, b: nat, c: nat): nat { Two(a, b) * 256 + c }

  function Four(a: nat, b: nat, c: nat, d: nat): nat { Three(a, b, c) * 256 + d }

  // ----- packet numbers: 1 to 3 bytes

  function SerializePacketNum(n: nat): (b: seq<byte>)
    requires n < COLUMN_PERIOD
    ensures 1 <= |b| <= 3
  {
    if n <= 0x7f then [n]
    else if n <= 0x3fff then [0x80 + n / 256, n % 256]
    else [0xC0 + n / 65536, n / 256 % 256, n % 256]
  }

  function DeserializePacketNum(b: seq<byte>): (r: Option<Parsed<nat>>)
    ensures r.Some? ==> r.value.bytes <= |b| && r.value.value < COLUMN_PERIOD
  {
    if |b| < 1 then None
    else
      var byteCount := b[0] / 64;
      if byteCount <= 1 then Some(Parsed(b[0], 1))
      else if |b| < byteCount then None
      else if byteCount == 2 then Some(Parsed(Two(b[0], b[1]) % 0x4000, 2))
      else Some(Parsed(Three(b[0], b[1], b[2]) % 0x400000, 3))
  }

  /** The footer form holds the bytes of the header form back to front. */
  function SerializeFooterPacketNum(n: nat): (b: seq<byte>)
    requires n < COLUMN_PERIOD
    ensures b == Reversed(SerializePacketNum(n))
  {
    if n <= 0x7f then [n]
    else if n <= 0x3fff then [n % 256, 0x80 + n / 256]
    else [n % 256, n / 256 % 256, 0xC0 + n / 65536]
  }

  function DeserializeFooterPacketNum(b: seq<byte>): (r: Option<Parsed<nat>>)
    ensures r == DeserializePacketNum(Reversed(b))
  {
    if |b| < 1 then None
    else
      var last := |b| - 1;
      var byteCount := b[last] / 64;
      if byteCount <= 1 then Some(Parsed(b[last], 1))
      else if |b| < byteCount then None
      else if byteCount == 2 then Some(Parsed(Two(b[last], b[last - 1]) % 0x4000, 2))
      else Some(Parsed(Three(b[last], b[last - 1], b[last - 2]) % 0x400000, 3))
  }

  lemma PacketNumRoundTrip(n: nat, rest: seq<byte>)
    requires n < COLUMN_PERIOD
    ensures DeserializePacketNum(SerializePacketNum(n) + rest) == Some(Parsed(n, |SerializePacketNum(n)|))
  {
  }

  lemma FooterPacketNumRoundTrip(payload: seq<byte>, n: nat)
    requires n < COLUMN_PERIOD
    ensures DeserializeFooterPacketNum(payload + SerializeFooterPacketNum(n))
            == Some(Parsed(n, |SerializeFooterPacketNum(n)|))
  {
    assert Reversed(payload + SerializeFooterPacketNum(n)) == SerializePacketNum(n) + Reversed(payload);
    PacketNumRoundTrip(n, Reversed(payload));
  }

  // ----- counts: 1 or 2 bytes

  function SerializeCount(n: nat): (b: seq<byte>)
    requires n <= MAX_COUNT
    ensures 1 <= |b| <= 2
  {
    if n <= 127 then [n] else [0x80 + n / 256, n % 256]
  }

  function DeserializeCount(b: seq<byte>): (r: Option<Parsed<nat>>)
    ensures r.Some? ==> r.value.bytes <= |b| && r.value.value <= MAX_COUNT
  {
    if |b| < 1 then None
    else if b[0] < 0x80 then Some(Parsed(b[0], 1))
    else if |b| < 2 then None
    else Some(Parsed(Two(b[0], b[1]) % 0x8000, 2))
  }

  function SerializeFooterCount(n: nat): (b: seq<byte>)
    requires n <= MAX_COUNT
    ensures b == Reversed(SerializeCount(n))
  {
    if n <= 127 then [n] else [n % 256, 0x80 + n / 256]
  }

  function DeserializeFooterCount(b: seq<byte>): (r: Option<Parsed<nat>>)
    ensures r == DeserializeCount(Reversed(b))
  {
    if |b| < 1 then None
    else
      var last := |b| - 1;
      if b[last] < 0x80 then Some(Parsed(b[last], 1))
      else if |b| < 2 then None
      else Some(Parsed(Two(b[last], b[last - 1]) % 0x8000, 2))
  }

  lemma CountRoundTrip(n: nat, rest: seq<byte>)
    requires n <= MAX_COUNT
    ensures DeserializeCount(SerializeCount(n) + rest) == Some(Parsed(n, |SerializeCount(n)|))
  {
  }

  lemma FooterCountRoundTrip(payload: seq<byte>, n: nat)
    requires n <= MAX_COUNT
    ensures DeserializeFooterCount(payload + SerializeFooterCount(n)) == Some(Parsed(n, |SerializeFooterCount(n)|))
  {
    assert Reversed(payload + SerializeFooterCount(n)) == SerializeCount(n) + Reversed(payload);
    CountRoundTrip(n, Reversed(payload));
  }

  // ----- lengths: 1 to 4 bytes

  function SerializeLength(n: nat): (b: seq<byte>)
    requires n <= MAX_LENGTH
    ensures 1 <= |b| <= 4
  {
    if n <= 0x7f then [n]
    else if n <= 0x3fff then [0x80 + n / 256, n % 256]
    else if n <= 0x1fffff then [0xC0 + n / 65536, n / 256 % 256, n % 256]
    else [0xE0 + n / 16777216, n / 65536 % 256, n / 256 % 256, n % 256]
  }

  function DeserializeLength(b: seq<byte>): (r: Option<Parsed<nat>>)
    ensures r.Some? ==> r.value.bytes <= |b| && r.value.value <= MAX_LENGTH
  {
    if |b| < 1 then None
    else
      var byteCount := b[0] / 64;
      if byteCount <= 1 then Some(Parsed(b[0], 1))
      else if byteCount == 2 then
        if |b| < 2 then None else Some(Parsed(Two(b[0], b[1]) % 0x4000, 2))
      else if b[0] / 32 == 6 then
        if |b| < 3 then None else Some(Parsed(Three(b[0], b[1], b[2]) % 0x200000, 3))
      else if |b| < 4 then None
      else Some(Parsed(Four(b[0], b[1], b[2], b[3]) % 0x20000000, 4))
  }

  lemma LengthRoundTrip(n: nat, rest: seq<byte>)
    requires n <= MAX_LENGTH
    ensures DeserializeLength(SerializeLength(n) + rest) == Some(Parsed(n, |SerializeLength(n)|))
  {
    hide Two, Three, Four;
    if n <= 0x7f {
    } else if n <= 0x3fff {
      SplitTwo(n);
    } else if n <= 0x1fffff {
      SplitThree(n);
    } else {
      SplitFour(n);
    }
  }

  lemma SplitTwo(n: nat)
    requires n <= 0x3fff
    ensures Two(0x80 + n / 256, n % 256) % 0x4000 == n
  {
  }

  lemma SplitThree(n: nat)
    requires n <= 0x1fffff
    ensures Three(0xC0 + n / 65536, n / 256 % 256, n % 256) % 0x200000 == n
  {
  }

  lemma SplitFour(n: nat)
    requires n <= MAX_LENGTH
    ensures Four(0xE0 + n / 16777216, n / 65536 % 256, n / 256 % 256, n % 256) % 0x20000000 == n
  {
    assert Four(0xE0 + n / 16777216, n / 65536 % 256, n / 256 % 256, n % 256) == 0xE0000000 + n;
  }

  /** OriginalPacket::Initialize: the packet as it enters the code, behind its own length. */
  function InitializePacket(data: seq<byte>): (buffer: seq<byte>)
    requires 0 < |data| <= MAX_LENGTH
  {
    SerializeLength(|data|) + data
  }

  /** The total length that back-substitution reads off the front of a revealed packet.  A packet
      is never empty. */
  function PacketBytes(b: seq<byte>): Option<nat> {
    match DeserializeLength(b)
    case None => None
    case Some(f) => if f.value == 0 then None else Some(f.bytes + f.value)
  }

  /** The packet behind its length, as Decoder::Get returns it. */
  function PacketData(b: seq<byte>): seq<byte> {
    match DeserializeLength(b)
    case None => []
    case Some(f) => b[f.bytes..]
  }

  /** What was put behind its length comes out, and the length is right. */
  lemma PacketDataRoundTrip(data: seq<byte>)
    requires 0 < |data| <= MAX_LENGTH
    ensures PacketData(InitializePacket(data)) == data
    ensures PacketBytes(InitializePacket(data)) == Some(|InitializePacket(data)|)
  {
    hide DeserializeLength, SerializeLength;
    LengthRoundTrip(|data|, data);
  }

  /** Every packet the encoder takes in says its own length, however many zeros the code pads it with. */
  lemma InitializedIsFramed(data: seq<byte>)
    requires 0 < |data| <= MAX_LENGTH
    ensures Framed(BytesField(), PacketBytes, InitializePacket(data))
  {
    var F, x, header := BytesField(), InitializePacket(data), SerializeLength(|data|);
    forall n: nat | n >= |x| ensures FramedIn(F, PacketBytes, x, n) {
      var padded := GrowZeroPadded(F, x, n);
      var check := Min(LENGTH_CHECK_BYTES, n);
      assert |header| <= check;
      assert padded[..check] == header + padded[|header|..check];
      LengthRoundTrip(|data|, padded[|header|..check]);
    }
  }

  // ----- the metadata footer of a recovery packet

  /** The metadata that an encoder emits. */
  predicate Emitted(m: Metadata) {
    && m.row <= 255 && m.columnStart < COLUMN_PERIOD
    && 1 <= m.ldpcCount <= m.sumCount <= MAX_COUNT
    && (m.sumCount == 1 ==> m.row == 0 && m.ldpcCount == 1)
  }

  lemma RecoveryIsEmitted<T>(code: Code<T>, hist: seq<seq<T>>, m: Metadata, payload: seq<T>)
    requires IsRecoveryOf(code, hist, m, payload)
    ensures Emitted(m)
  {
  }

  function SerializeMetadata(m: Metadata): (b: seq<byte>)
    requires Emitted(m)
    ensures 2 <= |b| <= 8
  {
    (if m.sumCount > 1 then [m.row] + SerializeFooterCount(m.ldpcCount) else [])
    + SerializeFooterPacketNum(m.columnStart) + SerializeFooterCount(m.sumCount - 1)
  }

  function DeserializeMetadata(b: seq<byte>): (r: Option<Parsed<Metadata>>)
    ensures r.Some? ==> r.value.bytes <= |b| && r.value.value.ldpcCount <= r.value.value.sumCount
  {
    match DeserializeFooterCount(b)
    case None => None
    case Some(sum) =>
      var b1 := b[..|b| - sum.bytes];
      match DeserializeFooterPacketNum(b1)
      case None => None
      case Some(column) =>
        var b2 := b1[..|b1| - column.bytes];
        var sumCount := sum.value + 1;
        if sumCount <= 1 then Some(Parsed(Metadata(0, column.value, sumCount, 1), |b| - |b2|))
        else
          match DeserializeFooterCount(b2)
          case None => None
          case Some(ldpc) =>
            var b3 := b2[..|b2| - ldpc.bytes];
            if sumCount < ldpc.value || |b3| < 1 then None
            else Some(Parsed(Metadata(b3[|b3| - 1], column.value, sumCount, ldpc.value), |b| - |b3| + 1))
  }

  /** Parsing from the end of payload + footer returns the metadata and splits off the footer exactly. */
  lemma MetadataRoundTrip(payload: seq<byte>, m: Metadata)
    requires Emitted(m)
    ensures DeserializeMetadata(payload + SerializeMetadata(m)) == Some(Parsed(m, |SerializeMetadata(m)|))
  {
    hide SerializeFooterCount, DeserializeFooterCount, SerializeFooterPacketNum, DeserializeFooterPacketNum, Reversed;
    hide DeserializeCount, SerializeCount, DeserializePacketNum, SerializePacketNum;
    var b := payload + SerializeMetadata(m);
    var sum, column := SerializeFooterCount(m.sumCount - 1), SerializeFooterPacketNum(m.columnStart);
    var front := if m.sumCount > 1 then [m.row] + SerializeFooterCount(m.ldpcCount) else [];
    assert b == (payload + front + column) + sum;
    FooterCountRoundTrip(payload + front + column, m.sumCount - 1);
    assert b[..|b| - |sum|] == (payload + front) + column;
    FooterPacketNumRoundTrip(payload + front, m.columnStart);
    var b2 := payload + front;
    assert (b2 + column)[..|b2|] == b2;
    if m.sumCount > 1 {
      var ldpc := SerializeFooterCount(m.ldpcCount);
      assert b2 == (payload + [m.row]) + ldpc;
      FooterCountRoundTrip(payload + [m.row], m.ldpcCount);
      assert b2[..|b2| - |ldpc|] == payload + [m.row];
    }
  }

  /** Bytes on the wire. */
  lemma WireExamples()
    ensures SerializePacketNum(100) == [100] && SerializePacketNum(0x1234) == [0x92, 0x34]
    ensures SerializePacketNum(0x123456) == [0xD2, 0x34, 0x56]
    ensures SerializeCount(127) == [127] && SerializeCount(300) == [0x81, 44]
    ensures SerializeLength(0x1234) == [0x92, 0x34] && SerializeLength(0x123456) == [0xD2, 0x34, 0x56]
    ensures SerializeLength(0x1234567) == [0xE1, 0x23, 0x45, 0x67]
    ensures SerializeMetadata(Metadata(3, 0x1234, 301, 70)) == [3, 70, 0x34, 0x92, 44, 0x81]
    ensures SerializeMetadata(Metadata(0, 5, 1, 1)) == [5, 0]
  {
  }

  // ----- loss ranges: 1 to 7 bytes

  const MAX_RANGE_BYTES: nat := 7

  function SerializeRangeStart(start: nat, countBits: nat): (b: seq<byte>)
    requires start < COLUMN_PERIOD && countBits <= 3
    ensures 1 <= |b| <= 4
  {
    var low := countBits + start % 32 * 8;
    if start < 0x20 then [low]
    else if start < 0x1000 then [low + 4, start / 0x20]
    else if start < 0x80000 then [low + 4, start / 0x20 % 128 + 128, start / 0x1000]
    else [low + 4, start / 0x20 % 128 + 128, start / 0x1000 % 128 + 128, start / 0x80000]
  }

  function SerializeRangeCount(count: nat): (b: seq<byte>)
    requires count < COLUMN_PERIOD
    ensures 1 <= |b| <= 3
  {
    if count < 0x80 then [count]
    else if count < 0x4000 then [count % 128 + 128, count / 0x80]
    else [count % 128 + 128, count / 0x80 % 128 + 128, count / 0x4000]
  }

  /** A range of lossCountM1 + 1 lost packets that starts `start` columns past the reader's position. */
  function SerializeRange(start: nat, lossCountM1: nat): (b: seq<byte>)
    requires start < COLUMN_PERIOD && lossCountM1 < COLUMN_PERIOD
    ensures 1 <= |b| <= MAX_RANGE_BYTES
  {
    if lossCountM1 <= 2 then SerializeRangeStart(start, lossCountM1)
    else SerializeRangeStart(start, 3) + SerializeRangeCount(lossCountM1 - 3)
  }

  datatype LossRange = LossRange(start: nat, lossCountM1: nat)

  function DeserializeRangeStart(b: seq<byte>): (f: Parsed<nat>)
    requires |b| >= MAX_RANGE_BYTES
    ensures 1 <= f.bytes <= 4
  {
    var b0: nat, b1: nat, b2: nat, b3: nat := b[0], b[1], b[2], b[3];
    var s0 := b0 / 8;
    if b0 / 4 % 2 == 0 then Parsed(s0, 1)
    else
      var s1 := s0 + b1 % 128 * 0x20;
      if b1 < 128 then Parsed(s1, 2)
      else
        var s2 := s1 + b2 % 128 * 0x1000;
        if b2 < 128 then Parsed(s2, 3) else Parsed(s2 + b3 * 0x80000, 4)
  }

  function DeserializeRangeCount(b: seq<byte>): (f: Parsed<nat>)
    requires |b| >= 3
    ensures 1 <= f.bytes <= 3
  {
    var b0: nat, b1: nat, b2: nat := b[0], b[1], b[2];
    var c1 := b0 % 128;
    if b0 < 128 then Parsed(c1, 1)
    else
      var c2 := c1 + b1 % 128 * 0x80;
      if b1 < 128 then Parsed(c2, 2) else Parsed(c2 + b2 * 0x4000, 3)
  }

  /** The reader insists on seeing the longest possible range, so it pads its copy of the data. */
  function DeserializeRange(b: seq<byte>): (r: Option<Parsed<LossRange>>)
    ensures r.Some? <==> |b| >= MAX_RANGE_BYTES
    ensures r.Some? ==> 1 <= r.value.bytes <= MAX_RANGE_BYTES
  {
    if |b| < MAX_RANGE_BYTES then None
    else
      var start := DeserializeRangeStart(b);
      var countBits := b[0] % 4;
      if countBits < 3 then Some(Parsed(LossRange(start.value, countBits), start.bytes))
      else
        var count := DeserializeRangeCount(b[start.bytes..]);
        Some(Parsed(LossRange(start.value, 3 + count.value), start.bytes + count.bytes))
  }

  lemma RangeStartRoundTrip(start: nat, countBits: nat, rest: seq<byte>)
    requires start < COLUMN_PERIOD && countBits <= 3
    ensures var b := SerializeRangeStart(start, countBits) + rest;
            |b| >= MAX_RANGE_BYTES ==>
              && DeserializeRangeStart(b) == Parsed(start, |SerializeRangeStart(start, countBits)|)
              && b[0] % 4 == countBits
  {
    FirstByte(start % 32, countBits);
    SplitRange(start);
  }

  lemma FirstByte(r: nat, countBits: nat)
    requires countBits <= 3
    ensures var low := countBits + r * 8;
            && low % 4 == countBits && low / 8 == r && low / 4 % 2 == 0
            && (low + 4) % 4 == countBits && (low + 4) / 8 == r && (low + 4) / 4 % 2 == 1
  {
  }

  lemma SplitRange(n: nat)
    ensures n / 0x20 / 128 == n / 0x1000 && n / 0x1000 / 128 == n / 0x80000
    ensures n == n % 32 + n / 0x20 * 0x20
    ensures n == n % 32 + n / 0x20 % 128 * 0x20 + n / 0x1000 * 0x1000
    ensures n == n % 32 + n / 0x20 % 128 * 0x20 + n / 0x1000 % 128 * 0x1000 + n / 0x80000 * 0x80000
  {
  }

  lemma RangeCountRoundTrip(count: nat, rest: seq<byte>)
    requires count < COLUMN_PERIOD
    ensures var b := SerializeRangeCount(count) + rest;
            |b| >= 3 ==> DeserializeRangeCount(b) == Parsed(count, |SerializeRangeCount(count)|)
  {
    assert count / 0x80 / 128 == count / 0x4000;
  }

  /** A loss range says its own length, whatever follows it, once enough bytes follow it. */
  lemma RangeRoundTrip(start: nat, lossCountM1: nat, rest: seq<byte>)
    requires start < COLUMN_PERIOD && lossCountM1 < COLUMN_PERIOD
    requires |SerializeRange(start, lossCountM1)| + |rest| >= MAX_RANGE_BYTES
    ensures DeserializeRange(SerializeRange(start, lossCountM1) + rest)
         == Some(Parsed(LossRange(start, lossCountM1), |SerializeRange(start, lossCountM1)|))
  {
    var b := SerializeRange(start, lossCountM1) + rest;
    if lossCountM1 <= 2 {
      RangeStartRoundTrip(start, lossCountM1, rest);
    } else {
      var first, count := SerializeRangeStart(start, 3), SerializeRangeCount(lossCountM1 - 3);
      assert b == first + (count + rest);
      RangeStartRoundTrip(start, 3, count + rest);
      assert b[|first|..] == count + rest;
      RangeCountRoundTrip(lossCountM1 - 3, rest);
    }
  }
}
