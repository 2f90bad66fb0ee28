/** The recovery packets that an encoder has emitted, in order: which row each one has, and what each one
    still refers to. */
module Emissions {
  import opened Options
  import opened Columns
  import opened Recovery
  import opened Coefficients
  import Numbers

  datatype RowKind = SingleRow | ParityRow | CauchyRow | SiameseRow

  /** A recovery packet emitted when exactly the packets before `end` had been sent. */
  datatype Emission = Emission(kind: RowKind, meta: Metadata, end: nat)

  // ----- rows in turn

  /** How many packets of a kind are in a log. */
  function CountOf(log: seq<Emission>, kind: RowKind): nat {
    if log == [] then 0
    else CountOf(log[..|log| - 1], kind) + if log[|log| - 1].kind == kind then 1 else 0
  }

  /** The number after the last packet that any parity packet covers. */
  function ParityEnd(log: seq<Emission>): nat {
    if log == [] then 0
    else if log[|log| - 1].kind.ParityRow? then log[|log| - 1].end
    else ParityEnd(log[..|log| - 1])
  }

  /** Sum rows are numbered modulo 255 and Cauchy rows run through 1..192 in turn.  While the last parity
      packet is less than half a period old, a parity row is sent for packets that no parity packet has
      covered, and a Cauchy row for any others. */
  ghost predicate RowInTurn(log: seq<Emission>, e: Emission) {
    match e.kind
    case SingleRow => e.meta.row == 0
    case SiameseRow => e.meta.row == CountOf(log, SiameseRow) % 255
    case CauchyRow =>
      && e.meta.row == 1 + CountOf(log, CauchyRow) % 192
      && (e.end - ParityEnd(log) <= COLUMN_PERIOD / 2 ==> e.end - e.meta.ldpcCount < ParityEnd(log))
    case ParityRow =>
      && e.meta.row == 0
      && (e.end - ParityEnd(log) <= COLUMN_PERIOD / 2 ==> ParityEnd(log) <= e.end - e.meta.ldpcCount)
  }

  ghost predicate RowsInTurn(log: seq<Emission>) {
    forall i :: 0 <= i < |log| ==> RowInTurn(log[..i], log[i])
  }

  lemma {:induction false} CountGrows(log: seq<Emission>, n: nat, kind: RowKind)
    requires n <= |log|
    ensures CountOf(log[..n], kind) <= CountOf(log, kind)
    decreases |log| - n
  {
    if n < |log| {
      assert log[..n + 1][..n] == log[..n];
      CountGrows(log, n + 1, kind);
    } else {
      assert log[..n] == log;
    }
  }

  lemma CountBetween(log: seq<Emission>, i: nat, j: nat, kind: RowKind)
    requires i < j <= |log| && log[i].kind == kind
    ensures CountOf(log[..i], kind) < CountOf(log[..j], kind)
  {
    assert log[..j][..i + 1] == log[..i + 1] && log[..i + 1][..i] == log[..i];
    CountGrows(log[..j], i + 1, kind);
  }

  /** Any 255 sum rows in succession have different rows, and different row values. */
  lemma SumRowsDiffer(log: seq<Emission>, i: nat, j: nat)
    requires RowsInTurn(log) && i < j < |log| && log[i].kind.SiameseRow? && log[j].kind.SiameseRow?
    requires CountOf(log[..j], SiameseRow) < CountOf(log[..i], SiameseRow) + 255
    ensures log[i].meta.row != log[j].meta.row
    ensures GetRowValue(log[i].meta.row) != GetRowValue(log[j].meta.row)
  {
    CountBetween(log, i, j, SiameseRow);
    var a, b := CountOf(log[..i], SiameseRow), CountOf(log[..j], SiameseRow);
    assert RowInTurn(log[..i], log[i]) && RowInTurn(log[..j], log[j]);
    NearDiffers(a, b, 255);
    if log[i].meta.row < log[j].meta.row {
      RowValuesDiffer(log[i].meta.row, log[j].meta.row);
    } else {
      RowValuesDiffer(log[j].meta.row, log[i].meta.row);
    }
  }

  lemma NearDiffers(a: nat, b: nat, d: nat)
    requires a < b < a + d
    ensures a % d != b % d
  {
    var qa, qb := a / d, b / d;
    assert a == qa * d + a % d && b == qb * d + b % d;
    if a % d == b % d {
      assert (qb - qa) * d == b - a;
      Numbers.LargeMultiple(qb - qa, d);
    }
  }

  /** Any 192 Cauchy rows in succession have different rows, and none of them has the row of a parity packet. */
  lemma CauchyRowsDiffer(log: seq<Emission>, i: nat, j: nat)
    requires RowsInTurn(log) && i < j < |log| && log[i].kind.CauchyRow? && log[j].kind.CauchyRow?
    requires CountOf(log[..j], CauchyRow) < CountOf(log[..i], CauchyRow) + 192
    ensures log[i].meta.row != log[j].meta.row && log[i].meta.row > 0 && log[j].meta.row > 0
  {
    CountBetween(log, i, j, CauchyRow);
    assert RowInTurn(log[..i], log[i]) && RowInTurn(log[..j], log[j]);
    NearDiffers(CountOf(log[..i], CauchyRow), CountOf(log[..j], CauchyRow), 192);
  }

  lemma {:induction false} ParityEndCovers(log: seq<Emission>, i: nat)
    requires i < |log| && log[i].kind.ParityRow? && forall k, l :: 0 <= k < l < |log| ==> log[k].end <= log[l].end
    ensures log[i].end <= ParityEnd(log)
  {
    if i < |log| - 1 {
      ParityEndCovers(log[..|log| - 1], i);
    }
  }

  lemma OneMoreEmission(log: seq<Emission>, e: Emission)
    ensures ParityEnd(log + [e]) == if e.kind.ParityRow? then e.end else ParityEnd(log)
    ensures CountOf(log + [e], SiameseRow) % 255 ==
              if e.kind.SiameseRow? then (CountOf(log, SiameseRow) % 255 + 1) % 255 else CountOf(log, SiameseRow) % 255
    ensures CountOf(log + [e], CauchyRow) % 192 ==
              if e.kind.CauchyRow? then (CountOf(log, CauchyRow) % 192 + 1) % 192 else CountOf(log, CauchyRow) % 192
  {
    assert (log + [e])[..|log|] == log;
  }

  lemma {:induction false} ParityEndBound(log: seq<Emission>, end: nat)
    requires forall i :: 0 <= i < |log| ==> log[i].end <= end
    ensures ParityEnd(log) <= end
  {
    if log != [] {
      ParityEndBound(log[..|log| - 1], end);
    }
  }

  /** No packet is in two parity packets that follow within half a period. */
  lemma ParityRowsAreApart(log: seq<Emission>, i: nat, j: nat)
    requires RowsInTurn(log) && i < j < |log| && log[i].kind.ParityRow? && log[j].kind.ParityRow?
    requires forall k, l :: 0 <= k < l < |log| ==> log[k].end <= log[l].end
    requires log[j].end - log[i].end <= COLUMN_PERIOD / 2
    ensures log[i].end <= log[j].end - log[j].meta.ldpcCount
  {
    ParityEndCovers(log[..j], i);
    assert RowInTurn(log[..j], log[j]);
  }

  // ----- what later packets still refer to

  /** The later packet covers no less, starts its light part no earlier, and if it is over a sum, that is the
      sum of the earlier packet or starts at or past the earlier packet's light part.  Two sums that end
      together, of which the earlier one is not over a full window, start together. */
  predicate Follows(a: Metadata, aEnd: int, b: Metadata, bEnd: int) {
    && aEnd <= bEnd && aEnd - a.ldpcCount <= bEnd - b.ldpcCount
    && (b.sumCount > CAUCHY_THRESHOLD ==>
          || (a.sumCount > CAUCHY_THRESHOLD && aEnd - a.sumCount == bEnd - b.sumCount)
          || aEnd - a.ldpcCount <= bEnd - b.sumCount)
    && (CAUCHY_THRESHOLD < a.sumCount < MAX_PACKETS && b.sumCount > CAUCHY_THRESHOLD && aEnd == bEnd ==>
          a.sumCount == b.sumCount)
  }

  /** Every packet follows all before it but those that are original packets sent again. */
  ghost predicate InOrder(log: seq<Emission>) {
    && (forall i, j :: 0 <= i < j < |log| ==> log[i].end <= log[j].end)
    && (forall i, j :: 0 <= i < j < |log| && log[i].meta.sumCount > 1 ==>
          Follows(log[i].meta, log[i].end, log[j].meta, log[j].end))
  }

  /** What has been emitted, seen from an encoder that has sent `end` packets, of which those before `unacked`
      are acknowledged, and whose sum, if one is running, starts at a given packet. */
  ghost predicate LogOk(log: seq<Emission>, end: nat, unacked: nat, running: Option<nat>) {
    && RowsInTurn(log) && InOrder(log)
    && (forall i :: 0 <= i < |log| ==> log[i].end <= end && log[i].end - log[i].meta.ldpcCount <= unacked)
    && (running.Some? ==>
          forall i :: 0 <= i < |log| && log[i].meta.sumCount > 1 ==>
            || (log[i].meta.sumCount > CAUCHY_THRESHOLD && log[i].end - log[i].meta.sumCount == running.value)
            || log[i].end - log[i].meta.ldpcCount <= running.value)
    && (forall i :: 0 <= i < |log| && EndsAt(log[i], end) && log[i].meta.sumCount < MAX_PACKETS ==>
          if running.Some? then running.value == end - log[i].meta.sumCount else end - unacked <= CAUCHY_THRESHOLD)
  }

  /** A sum row over everything that has been sent. */
  predicate EndsAt(e: Emission, end: nat) { e.meta.sumCount > CAUCHY_THRESHOLD && e.end == end }

  /** Packets sent and acknowledged, and a sum that goes on or stops, change nothing. */
  lemma LogKept(log: seq<Emission>, end: nat, unacked: nat, running: Option<nat>, end': nat, unacked': nat,
      running': Option<nat>)
    requires LogOk(log, end, unacked, running) && end <= end' && unacked <= unacked'
    requires running' == running || running'.None?
    requires running' == running || end < end' || end' - unacked' <= CAUCHY_THRESHOLD
             || forall i :: 0 <= i < |log| ==> !EndsAt(log[i], end)
    ensures LogOk(log, end', unacked', running')
  {
    hide RowsInTurn, InOrder;
  }

  lemma LogEnds(log: seq<Emission>, end: nat, unacked: nat, running: Option<nat>)
    requires LogOk(log, end, unacked, running)
    ensures forall i :: 0 <= i < |log| ==> log[i].end <= end
  {
  }

  /** One more packet. */
  lemma LogGrows(log: seq<Emission>, e: Emission, unacked: nat, running: Option<nat>, running': Option<nat>)
    requires LogOk(log, e.end, unacked, running) && RowInTurn(log, e) && e.end - e.meta.ldpcCount == unacked
    requires e.kind.SingleRow? ==> running' == running && e.meta.sumCount == 1
    requires e.kind.ParityRow? || e.kind.CauchyRow? ==>
               running'.None? && e.meta.ldpcCount <= e.meta.sumCount <= CAUCHY_THRESHOLD
    requires e.kind.SiameseRow? ==>
               && CAUCHY_THRESHOLD < e.meta.sumCount <= MAX_PACKETS
               && (if running.Some? then e.end - e.meta.sumCount == running.value
                   else e.end - unacked > CAUCHY_THRESHOLD && e.end - e.meta.sumCount >= unacked)
               && running' == if e.meta.sumCount < MAX_PACKETS then Some(e.end - e.meta.sumCount) else None
    requires e.kind.SiameseRow? ==> e.meta.sumCount <= e.end
    ensures LogOk(log + [e], e.end, unacked, running')
  {
    hide RowsInTurn, InOrder;
    RowsGrow(log, e);
    forall i | 0 <= i < |log| && log[i].meta.sumCount > 1 ensures Follows(log[i].meta, log[i].end, e.meta, e.end) {
      if e.meta.sumCount > CAUCHY_THRESHOLD && EndsAt(log[i], e.end) && log[i].meta.sumCount < MAX_PACKETS {
        assert running.Some? && running.value == e.end - log[i].meta.sumCount;
      }
    }
    OrderGrows(log, e);
    var log' := log + [e];
    assert forall i :: 0 <= i < |log'| ==> log'[i] == if i < |log| then log[i] else e;
  }

  lemma RowsGrow(log: seq<Emission>, e: Emission)
    requires RowsInTurn(log) && RowInTurn(log, e)
    ensures RowsInTurn(log + [e])
  {
    hide RowInTurn;
    var log' := log + [e];
    assert forall i :: 0 <= i < |log| ==> log'[..i] == log[..i];
    assert log'[..|log|] == log;
  }

  lemma OrderGrows(log: seq<Emission>, e: Emission)
    requires InOrder(log) && forall i :: 0 <= i < |log| ==> log[i].end <= e.end
    requires forall i :: 0 <= i < |log| && log[i].meta.sumCount > 1 ==> Follows(log[i].meta, log[i].end, e.meta, e.end)
    ensures InOrder(log + [e])
  {
    hide Follows;
  }
}
