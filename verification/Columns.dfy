/** Column numbers: packet numbers that wrap around at a power of two. */
module Columns {
  import opened Numbers

  const COLUMN_PERIOD: int := 0x400000
  const HALF: int := COLUMN_PERIOD / 2
  const LANE_COUNT: nat := 8
  const SUM_COUNT: nat := 3
  const PAIR_ADD_RATE: nat := 16
  const SUBWINDOW_SIZE: nat := 64
  const MAX_PACKETS: nat := 16000
  const CAUCHY_THRESHOLD: nat := 64
  const SUM_RESET_THRESHOLD: nat := 32
  const CAUCHY_MAX_COLUMNS: nat := 64
  const CAUCHY_MAX_ROWS: nat := 192
  const ROW_PERIOD: nat := 255
  const REMOVE_THRESHOLD: nat := 128

  type Column = c: int | 0 <= c < COLUMN_PERIOD

  /** The column number of the n-th packet ever sent. */
  function Wrap(n: int): (c: nat)
    ensures c < COLUMN_PERIOD
  {
    n % COLUMN_PERIOD
  }

  function SubtractColumns(a: int, b: int): nat { Wrap(a - b) }

  function AddColumns(a: int, b: int): nat { Wrap(a + b) }

  predicate IsColumnDeltaNegative(delta: nat) { delta >= COLUMN_PERIOD / 2 }

  /** Differences of column numbers are the true differences, up to half a period either way. */
  lemma SubtractWrapped(a: int, b: int)
    ensures 0 <= a - b < COLUMN_PERIOD ==> SubtractColumns(Wrap(a), Wrap(b)) == a - b
    ensures -COLUMN_PERIOD <= a - b < 0 ==> SubtractColumns(Wrap(a), Wrap(b)) == a - b + COLUMN_PERIOD
    ensures -(COLUMN_PERIOD / 2) <= a - b < COLUMN_PERIOD / 2 ==>
              (IsColumnDeltaNegative(SubtractColumns(Wrap(a), Wrap(b))) <==> a < b)
  {
    var q, r := a / COLUMN_PERIOD, b / COLUMN_PERIOD;
    assert Wrap(a) - Wrap(b) == (a - b) - (q - r) * COLUMN_PERIOD;
    WrapShift(a - b, r - q);
    if 0 <= a - b < COLUMN_PERIOD {
      WrapSmall(a - b);
    } else if -COLUMN_PERIOD <= a - b < 0 {
      WrapShift(a - b, 1);
      WrapSmall(a - b + COLUMN_PERIOD);
    }
  }

  lemma WrapSmall(a: int)
    requires 0 <= a < COLUMN_PERIOD
    ensures Wrap(a) == a
  {
  }

  lemma {:induction false} WrapShift(a: int, k: int)
    ensures Wrap(a + k * COLUMN_PERIOD) == Wrap(a)
    decreases if k < 0 then -k else k
  {
    if k > 0 {
      WrapShift(a, k - 1);
    } else if k < 0 {
      WrapShift(a, k + 1);
    }
  }

  /** Sums of column numbers are the column numbers of the sums. */
  lemma AddWrapped(a: int, b: int)
    ensures AddColumns(Wrap(a), b) == Wrap(a + b) && AddColumns(b, Wrap(a)) == Wrap(a + b)
  {
    WrapShift(a + b, -(a / COLUMN_PERIOD));
    assert Wrap(a) + b == a + b - (a / COLUMN_PERIOD) * COLUMN_PERIOD;
  }

  /** The lane of a packet is the lane of its column number. */
  lemma WrapLane(n: nat)
    ensures Wrap(n) % LANE_COUNT == n % LANE_COUNT
    ensures Wrap(n) % CAUCHY_MAX_COLUMNS == n % CAUCHY_MAX_COLUMNS
  {
    var q := n / COLUMN_PERIOD;
    assert n == q * COLUMN_PERIOD + Wrap(n);
    assert n == (q * (COLUMN_PERIOD / 64)) * 64 + Wrap(n);
    ModShift(Wrap(n), q * (COLUMN_PERIOD / 64), 64);
    ModShift(Wrap(n), q * (COLUMN_PERIOD / 8), 8);
  }

  /** A window that starts at the beginning of a group of lanes. */
  lemma WindowBase(n: nat)
    ensures var e := Wrap(n) % LANE_COUNT;
            e <= n && (n - e) % LANE_COUNT == 0 && Wrap(n - e) == Wrap(n) - e
  {
    hide Wrap;
    WrapLane(n);
    var w := Wrap(n);
    assert n % LANE_COUNT <= n && (n - n % LANE_COUNT) % LANE_COUNT == 0;
    WrapDown(n, w % LANE_COUNT);
  }

  lemma WrapDown(n: nat, e: nat)
    requires e <= Wrap(n)
    ensures Wrap(n - e) == Wrap(n) - e
  {
    var w, q := Wrap(n), n / COLUMN_PERIOD;
    assert n == w + q * COLUMN_PERIOD;
    hide Wrap;
    WrapShift(w - e, q);
    WrapSmall(w - e);
  }
}
