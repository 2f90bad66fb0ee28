/** The missing elements of a window, as an ascending list. */
module Missing {
  import opened BitSets

  /** The elements in a range that have not been received, in order. */
  function MissingIn(got: seq<bool>, a: nat, b: nat): (m: seq<nat>)
    requires b <= |got|
    ensures forall j :: 0 <= j < |m| ==> a <= m[j] < b && !got[m[j]]
    ensures forall i, j :: 0 <= i < j < |m| ==> m[i] < m[j]
    decreases b
  {
    if b <= a then [] else MissingIn(got, a, b - 1) + if got[b - 1] then [] else [b - 1]
  }

  lemma {:induction false} MissingHas(got: seq<bool>, a: nat, b: nat, e: nat)
    requires b <= |got| && a <= e < b && !got[e]
    ensures e in MissingIn(got, a, b)
    decreases b
  {
    if e < b - 1 {
      MissingHas(got, a, b - 1, e);
    }
  }

  lemma {:induction false} MissingSplit(got: seq<bool>, a: nat, b: nat, c: nat)
    requires a <= b <= c <= |got|
    ensures MissingIn(got, a, c) == MissingIn(got, a, b) + MissingIn(got, b, c)
    decreases c
  {
    if b < c {
      MissingSplit(got, a, b, c - 1);
    }
  }

  lemma {:induction false} MissingNone(got: seq<bool>, a: nat, b: nat)
    requires b <= |got|
    ensures Uniform(got, a, b, true) ==> MissingIn(got, a, b) == []
    ensures MissingIn(got, a, b) == [] ==> Uniform(got, a, b, true)
    decreases b
  {
    if a < b {
      MissingNone(got, a, b - 1);
    }
  }

  /** Counting the received elements counts the missing ones. */
  lemma {:induction false} MissingCount(got: seq<bool>, a: nat, b: nat)
    requires a <= b <= |got|
    ensures |MissingIn(got, a, b)| == (b - a) - PopCount(got[a..b])
    decreases b
  {
    if a < b {
      MissingCount(got, a, b - 1);
      assert got[a..b] == got[a..b - 1] + [got[b - 1]];
      assert got[a..b][..b - 1 - a] == got[a..b - 1];
    }
  }

  /** Windows that agree on a range miss the same elements there. */
  lemma {:induction false} MissingSame(got: seq<bool>, got': seq<bool>, a: nat, b: nat)
    requires b <= |got| && b <= |got'|
    requires forall e :: a <= e < b ==> got[e] == got'[e]
    ensures MissingIn(got, a, b) == MissingIn(got', a, b)
    decreases b
  {
    if a < b {
      MissingSame(got, got', a, b - 1);
    }
  }

  /** Dropping the first n elements renumbers the missing ones. */
  function Shifted(m: seq<nat>, n: nat): (r: seq<nat>)
    ensures |r| == |m|
    ensures forall j :: 0 <= j < |m| ==> r[j] == m[j] + n
  {
    seq(|m|, j requires 0 <= j < |m| => m[j] + n)
  }

  lemma {:induction false} MissingShift(got: seq<bool>, got': seq<bool>, n: nat, a: nat, b: nat)
    requires b <= |got'| && n + b <= |got|
    requires forall e :: a <= e < b ==> got'[e] == got[n + e]
    ensures MissingIn(got, n + a, n + b) == Shifted(MissingIn(got', a, b), n)
    decreases b
  {
    if a < b {
      MissingShift(got, got', n, a, b - 1);
      var m, m' := MissingIn(got, n + a, n + b - 1), MissingIn(got', a, b - 1);
      assert m == Shifted(m', n);
      if !got'[b - 1] {
        assert Shifted(m' + [b - 1], n) == Shifted(m', n) + [n + b - 1];
      }
    }
  }

  /** The first missing element at or after a given one, or the end of the window. */
  function NextMissing(got: seq<bool>, from: nat): (e: nat)
    requires from <= |got|
    ensures from <= e <= |got| && Uniform(got, from, e, true) && (e < |got| ==> !got[e])
    decreases |got| - from
  {
    if from == |got| || !got[from] then from else NextMissing(got, from + 1)
  }

  lemma NextIsMissing(got: seq<bool>, from: nat, e: nat)
    requires from <= e <= |got| && Uniform(got, from, e, true) && (e < |got| ==> !got[e])
    ensures e == NextMissing(got, from)
  {
  }

  /** Windows that agree from an element on agree on the next one missing. */
  lemma NextMissingSame(got: seq<bool>, got': seq<bool>, from: nat)
    requires |got| == |got'| && from <= |got| && forall e :: from <= e < |got| ==> got[e] == got'[e]
    ensures NextMissing(got, from) == NextMissing(got', from)
  {
    NextIsMissing(got', from, NextMissing(got, from));
  }
}
