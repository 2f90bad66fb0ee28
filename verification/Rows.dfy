/** The decoder's side of a recovery packet: the matrix row it stands for, and what is left of
    its payload once the received packets have been eliminated. */
module Rows {
  import opened Fields
  import opened Columns
  import opened Recovery

  /** A recovery packet in the decoder; `end` is the true number of the column after its last. */
  datatype RecoveryPacket<T> = RecoveryPacket(meta: Metadata, payload: seq<T>, end: nat)

  predicate Ascending(lost: seq<nat>) {
    forall i, j :: 0 <= i < j < |lost| ==> lost[i] < lost[j]
  }

  /** The entry of a row in the column of a lost packet. */
  function Entry<T>(code: Code<T>, meta: Metadata, end: int, c: int): T
    requires meta.ldpcCount > 0
  {
    if c < end then Coefficient(code, meta, end, c) else code.F.zero
  }

  function RowOf<T>(code: Code<T>, meta: Metadata, end: int, lost: seq<nat>): (row: seq<T>)
    requires meta.ldpcCount > 0
    ensures |row| == |lost|
    ensures forall j :: 0 <= j < |lost| ==> row[j] == Entry(code, meta, end, lost[j])
  {
    seq(|lost|, j requires 0 <= j < |lost| => Entry(code, meta, end, lost[j]))
  }

  /** The lost columns lie in or after the packet's range, no further than the wrap-around
      arithmetic can tell. */
  ghost predicate InRange(meta: Metadata, end: int, lost: seq<nat>) {
    && 0 < meta.ldpcCount <= meta.sumCount <= end && meta.sumCount < COLUMN_PERIOD
    && meta.columnStart == Wrap(end - meta.sumCount)
    && Ascending(lost)
    && forall j :: 0 <= j < |lost| ==> end - meta.sumCount <= lost[j] < end - meta.sumCount + COLUMN_PERIOD
  }

  // ----- parity and Cauchy rows

  /** Fills a row of a parity or Cauchy packet.  The first lost column past the end of the packet
      ends the row: all columns after it are zero. */
  method GenerateCauchyRow<T>(code: Code<T>, meta: Metadata, ghost end: int, lost: seq<nat>) returns (row: seq<T>)
    requires InRange(meta, end, lost) && meta.sumCount <= CAUCHY_THRESHOLD
    ensures row == RowOf(code, meta, end, lost)
  {
    row := [];
    for j := 0 to |lost|
      invariant |row| == j && forall i :: 0 <= i < j ==> row[i] == Entry(code, meta, end, lost[i])
    {
      var column := Wrap(lost[j]);
      var element := SubtractColumns(column, meta.columnStart);
      SubtractWrapped(lost[j], end - meta.sumCount);
      if element >= meta.sumCount {
        row := row + seq(|lost| - j, i => code.F.zero);
        return;
      }
      row := row + [if meta.row == 0 then code.F.one
          else CauchyElement(code, meta.row - 1, column % CAUCHY_MAX_COLUMNS)];
    }
  }

  // ----- Siamese rows

  /** The coefficient after n0 plain and n1 multiplied draws. */
  function PartialEntry<T>(code: Code<T>, meta: Metadata, end: int, c: int, n0: nat, n1: nat): T
    requires meta.ldpcCount > 0
  {
    var F, element := code.F, c - (end - meta.ldpcCount);
    F.add(
      F.add(Selected(code, meta.row, Wrap(c), 0, 3), Hits(code, meta.row, meta.ldpcCount, n0, 0, element)),
      F.mul(code.elem(GetRowValue(meta.row)),
        F.add(Selected(code, meta.row, Wrap(c), 3, 3), Hits(code, meta.row, meta.ldpcCount, n1, 1, element))))
  }

  /** Interprets the operation code of a column. */
  method DenseValue<T(!new)>(code: Code<T>, row: nat, column: nat) returns (value: T)
    requires IsField(code.F)
    ensures value
            == code.F.add(Selected(code, row, column, 0, 3),
                code.F.mul(code.elem(GetRowValue(row)), Selected(code, row, column, 3, 3)))
  {
    hide IsField, Bit;
    var F := code.F;
    var RX, CX := code.elem(GetRowValue(row)), code.elem(GetColumnValue(column));
    var CX2 := F.mul(CX, CX);
    var opcode := code.opcode(column % LANE_COUNT, row);
    value := F.zero;
    assert value == Selected(code, row, column, 0, 0);
    if Bit(opcode, 0) { value := F.add(value, F.one); }
    assert value == Selected(code, row, column, 0, 1);
    if Bit(opcode, 1) { value := F.add(value, CX); }
    assert value == Selected(code, row, column, 0, 2);
    if Bit(opcode, 2) { value := F.add(value, CX2); }
    ghost var low := value;
    assert low == Selected(code, row, column, 0, 3);
    HighBit(code, row, column, low, 0);
    if Bit(opcode, 3) { value := F.add(value, RX); }
    HighBit(code, row, column, low, 1);
    if Bit(opcode, 4) { value := F.add(value, F.mul(CX, RX)); }
    HighBit(code, row, column, low, 2);
    if Bit(opcode, 5) { value := F.add(value, F.mul(CX2, RX)); }
  }

  /** Adding a column power times RX is adding it inside the product. */
  lemma HighBit<T(!new)>(code: Code<T>, row: nat, column: nat, low: T, k: nat)
    requires IsField(code.F) && k < 3
    ensures var F, RX := code.F, code.elem(GetRowValue(row));
            var so := F.add(low, F.mul(RX, Selected(code, row, column, 3, k)));
            && (k == 0 ==> so == low && F.mul(ColumnPower(code, column, k), RX) == RX)
            && F.add(low, F.mul(RX, Selected(code, row, column, 3, k + 1))) ==
                 if Bit(code.opcode(column % LANE_COUNT, row), 3 + k)
                   then F.add(so, F.mul(ColumnPower(code, column, k), RX))
                 else so
  {
    var F, RX, p, w := code.F, code.elem(GetRowValue(row)), ColumnPower(code, column, k),
      Selected(code, row, column, 3, k);
    Distribute(F, RX, w, p);
    MulComm(F, p, RX);
    AddAssoc(F, low, F.mul(RX, w), F.mul(RX, p));
    MulZero(F, RX);
    AddZero(F, low);
    MulOne(F, RX);
  }

  /** One more plain draw adds one to the entry of the drawn column, and nothing elsewhere. */
  lemma PlainDraw<T(!new)>(code: Code<T>, meta: Metadata, end: int, c: int, n: nat)
    requires IsField(code.F) && meta.ldpcCount > 0
    ensures PartialEntry(code, meta, end, c, n + 1, n) ==
              if Drawn(code, meta.row, meta.ldpcCount, n, 0) == c - (end - meta.ldpcCount)
              then code.F.add(PartialEntry(code, meta, end, c, n, n), code.F.one)
              else PartialEntry(code, meta, end, c, n, n)
  {
    hide IsField, Wrap, Selected, Drawn;
    var F, element := code.F, c - (end - meta.ldpcCount);
    var s, h := Selected(code, meta.row, Wrap(c), 0, 3), Hits(code, meta.row, meta.ldpcCount, n, 0, element);
    var t := F.mul(code.elem(GetRowValue(meta.row)),
      F.add(Selected(code, meta.row, Wrap(c), 3, 3), Hits(code, meta.row, meta.ldpcCount, n, 1, element)));
    AddAssoc(F, s, h, F.one);
    AddAssoc(F, F.add(s, h), F.one, t);
    AddComm(F, F.one, t);
    AddAssoc(F, F.add(s, h), t, F.one);
  }

  /** One more multiplied draw adds RX to the entry of the drawn column, and nothing elsewhere. */
  lemma MultipliedDraw<T(!new)>(code: Code<T>, meta: Metadata, end: int, c: int, n: nat)
    requires IsField(code.F) && meta.ldpcCount > 0
    ensures PartialEntry(code, meta, end, c, n + 1, n + 1) ==
              if Drawn(code, meta.row, meta.ldpcCount, n, 1) == c - (end - meta.ldpcCount)
              then code.F.add(PartialEntry(code, meta, end, c, n + 1, n), code.elem(GetRowValue(meta.row)))
              else PartialEntry(code, meta, end, c, n + 1, n)
  {
    hide IsField, Wrap, Selected, Drawn;
    var F, element, RX := code.F, c - (end - meta.ldpcCount), code.elem(GetRowValue(meta.row));
    var low := F.add(Selected(code, meta.row, Wrap(c), 0, 3), Hits(code, meta.row, meta.ldpcCount, n + 1, 0, element));
    var s, h := Selected(code, meta.row, Wrap(c), 3, 3), Hits(code, meta.row, meta.ldpcCount, n, 1, element);
    AddAssoc(F, s, h, F.one);
    Distribute(F, RX, F.add(s, h), F.one);
    MulOne(F, RX);
    AddAssoc(F, low, F.mul(RX, F.add(s, h)), RX);
  }

  ghost predicate IsRow<T>(code: Code<T>, meta: Metadata, end: int, lost: seq<nat>, n0: nat, n1: nat, row: seq<T>)
    requires meta.ldpcCount > 0
  {
    && |row| == |lost|
    && forall j :: 0 <= j < |lost| ==>
         row[j] == if lost[j] < end then PartialEntry(code, meta, end, lost[j], n0, n1) else code.F.zero
  }

  /** The dense part of a Siamese row. */
  method GenerateDenseRow<T(!new)>(code: Code<T>, meta: Metadata, ghost end: int, lost: seq<nat>) returns (row: seq<T>)
    requires IsField(code.F) && InRange(meta, end, lost)
    ensures IsRow(code, meta, end, lost, 0, 0, row)
  {
    hide IsField, Wrap;
    row := [];
    for j := 0 to |lost|
      invariant |row| == j
      invariant forall i :: 0 <= i < j ==>
                  row[i] == if lost[i] < end then PartialEntry(code, meta, end, lost[i], 0, 0) else code.F.zero
    {
      var column := Wrap(lost[j]);
      var element := SubtractColumns(column, meta.columnStart);
      SubtractWrapped(lost[j], end - meta.sumCount);
      if element >= meta.sumCount {
        row := row + seq(|lost| - j, i => code.F.zero);
        return;
      }
      var value := DenseValue(code, meta.row, column);
      AddZero(code.F, Selected(code, meta.row, column, 0, 3));
      AddZero(code.F, Selected(code, meta.row, column, 3, 3));
      row := row + [value];
    }
  }

  /** The matrix column of a lost packet, as PopulateColumns has left it in the window. */
  ghost predicate IsColumnIndex(lost: seq<nat>, columnOf: map<nat, nat>) {
    && (forall c :: c in columnOf ==> columnOf[c] < |lost| && lost[columnOf[c]] == c)
    && (forall j :: 0 <= j < |lost| ==> lost[j] in columnOf)
  }

  method GenerateSiameseRow<T(!new)>(code: Code<T>, meta: Metadata, end: nat, lost: seq<nat>, columnOf: map<nat, nat>)
    returns (row: seq<T>)
    requires IsField(code.F) && InRange(meta, end, lost) && meta.sumCount > CAUCHY_THRESHOLD
             && IsColumnIndex(lost, columnOf)
    ensures row == RowOf(code, meta, end, lost)
  {
    hide IsField, Wrap, IsRow, PartialEntry;
    row := GenerateDenseRow(code, meta, end, lost);
    var first := end - meta.ldpcCount;
    for k := 0 to PairCount(meta.ldpcCount)
      invariant IsRow(code, meta, end, lost, k, k, row)
    {
      row := AddDraw(code, meta, end, lost, columnOf, k, 0, row);
      row := AddDraw(code, meta, end, lost, columnOf, k, 1, row);
    }
    RowIsComplete(code, meta, end, lost, row);
  }

  /** Adds one draw to the row, if the packet it hits is lost. */
  method AddDraw<T(!new)>(code: Code<T>, meta: Metadata, end: nat, lost: seq<nat>, columnOf: map<nat, nat>, k: nat,
      which: nat, row: seq<T>) returns (r: seq<T>)
    requires IsField(code.F) && 0 < meta.ldpcCount <= end && Ascending(lost) && IsColumnIndex(lost, columnOf)
             && which < 2
    requires IsRow(code, meta, end, lost, k + which, k, row)
    ensures IsRow(code, meta, end, lost, k + 1, k + which, r)
  {
    hide IsField, Wrap, PartialEntry;
    var c := end - meta.ldpcCount + Drawn(code, meta.row, meta.ldpcCount, k, which);
    var y := if which == 0 then code.F.one else code.elem(GetRowValue(meta.row));
    r := row;
    if c in columnOf {
      var j := columnOf[c];
      r := r[j := code.F.add(r[j], y)];
    }
    forall j | 0 <= j < |lost|
      ensures r[j] == if lost[j] < end then PartialEntry(code, meta, end, lost[j], k + 1, k + which) else code.F.zero
    {
      PlainDraw(code, meta, end, lost[j], k);
      MultipliedDraw(code, meta, end, lost[j], k);
      if lost[j] == c {
        assert columnOf[c] == j;
      }
    }
  }

  lemma RowIsComplete<T>(code: Code<T>, meta: Metadata, end: int, lost: seq<nat>, row: seq<T>)
    requires 0 < meta.ldpcCount && meta.sumCount > CAUCHY_THRESHOLD
    requires IsRow(code, meta, end, lost, PairCount(meta.ldpcCount), PairCount(meta.ldpcCount), row)
    ensures row == RowOf(code, meta, end, lost)
  {
  }

  /** Fills the matrix row of a recovery packet. */
  method GenerateRow<T(!new)>(code: Code<T>, meta: Metadata, end: nat, lost: seq<nat>, columnOf: map<nat, nat>)
    returns (row: seq<T>)
    requires IsField(code.F) && InRange(meta, end, lost) && IsColumnIndex(lost, columnOf)
    ensures row == RowOf(code, meta, end, lost)
  {
    if meta.sumCount <= CAUCHY_THRESHOLD {
      row := GenerateCauchyRow(code, meta, end, lost);
    } else {
      row := GenerateSiameseRow(code, meta, end, lost, columnOf);
    }
  }
}
