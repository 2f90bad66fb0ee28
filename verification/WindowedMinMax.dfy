/** A running minimum or maximum over a window of time, from three samples. */
module WindowedExtremum {

  datatype Sample = Sample(value: nat, timestamp: nat)

  /** WindowedMinCompare or WindowedMaxCompare: at least as good. */
  predicate Compare(minimum: bool, x: nat, y: nat) { if minimum then x <= y else x >= y }

  predicate TimeoutExpired(s: Sample, now: nat, timeout: nat)
    requires s.timestamp <= now
  {
    now - s.timestamp > timeout
  }

  /** A kept sample is the i-th one received, and every later one is worse. */
  ghost predicate Stands(minimum: bool, hist: seq<Sample>, s: Sample, i: nat) {
    && i < |hist| && hist[i] == s
    && forall j :: i < j < |hist| ==> !Compare(minimum, hist[j].value, s.value)
  }

  /** Three received samples, best and oldest first. */
  ghost predicate Kept(minimum: bool, hist: seq<Sample>, s: seq<Sample>, at: seq<nat>) {
    && |s| == 3 && |at| == 3 && at[0] <= at[1] <= at[2]
    && Stands(minimum, hist, s[0], at[0]) && Stands(minimum, hist, s[1], at[1]) && Stands(minimum, hist, s[2], at[2])
    && Compare(minimum, s[0].value, s[1].value) && Compare(minimum, s[1].value, s[2].value)
  }

  ghost predicate InOrder(hist: seq<Sample>) {
    forall i, j :: 0 <= i < j < |hist| ==> hist[i].timestamp <= hist[j].timestamp
  }

  /** A new sample that is worse than the kept ones leaves them in place. */
  lemma StandsOn(minimum: bool, hist: seq<Sample>, s: Sample, i: nat, sample: Sample)
    requires Stands(minimum, hist, s, i) && !Compare(minimum, sample.value, s.value)
    ensures Stands(minimum, hist + [sample], s, i)
  {
  }

  lemma StandsLast(minimum: bool, hist: seq<Sample>, sample: Sample)
    ensures Stands(minimum, hist + [sample], sample, |hist|)
  {
  }

  /** Any of the kept samples, followed by the last one received. */
  lemma Replaced(minimum: bool, hist: seq<Sample>, s: seq<Sample>, at: seq<nat>)
    requires Kept(minimum, hist, s, at)
    ensures var now := |hist| - 1;
            var last := hist[now];
            && Kept(minimum, hist, [s[0], last, last], [at[0], now, now])
            && Kept(minimum, hist, [s[0], s[1], last], [at[0], at[1], now])
            && Kept(minimum, hist, [s[1], s[2], last], [at[1], at[2], now])
            && Kept(minimum, hist, [s[2], last, last], [at[2], now, now])
  {
    var last := hist[|hist| - 1];
    forall k | 0 <= k < 3 ensures Compare(minimum, s[k].value, last.value) {
      assert Stands(minimum, hist, s[k], at[k]);
    }
  }

  predicate Within(s: Sample, now: nat, windowLength: nat) { now <= s.timestamp + windowLength }

  class WindowedMinMax {
    const minimum: bool
    const samples: array<Sample>

    /** Everything received, and which of it the three samples are. */
    ghost var hist: seq<Sample>
    ghost var at: seq<nat>

    ghost predicate Valid()
      reads this, samples
    {
      && samples.Length == 3
      && (if hist == [] then samples[0] == samples[1] == samples[2] == Sample(0, 0)
           else Kept(minimum, hist, samples[..], at))
      && InOrder(hist)
    }

    constructor (minimum: bool)
      ensures Valid() && hist == [] && fresh(samples) && this.minimum == minimum
    {
      this.minimum := minimum;
      samples := new Sample[3](_ => Sample(0, 0));
      hist, at := [], [0, 0, 0];
    }

    /** The best sample. */
    method GetBest() returns (value: nat)
      requires Valid() && hist != []
      ensures exists i :: 0 <= i < |hist| && hist[i].value == value && Stands(minimum, hist, hist[i], i)
    {
      value := samples[0].value;
      assert Stands(minimum, hist, hist[at[0]], at[0]);
    }

    method Reset(sample: Sample)
      requires samples.Length == 3
      modifies samples
      ensures samples[0] == samples[1] == samples[2] == sample
    {
      samples[0], samples[1], samples[2] := sample, sample, sample;
    }

    lemma Oldest(now: nat, windowLength: nat)
      requires Valid() && hist != []
      ensures forall k :: 0 <= k < 3 && Within(samples[k], now, windowLength) ==> Within(samples[2], now, windowLength)
    {
    }

    lemma BestFirst()
      requires Valid() && hist != []
      ensures Compare(minimum, samples[0].value, samples[1].value)
              && Compare(minimum, samples[1].value, samples[2].value)
    {
    }

    /** Takes in a sample.  The best sample is one received within the window, and nothing received
        since is as good; nor is any other sample that was kept and is still within the window better.
        The best one stays unless the new one is as good, or it is too old, or it is zero. */
    method Update(value: nat, timestamp: nat, windowLength: nat)
      requires Valid() && forall i :: 0 <= i < |hist| ==> hist[i].timestamp <= timestamp
      modifies this, samples
      ensures Valid() && hist == old(hist) + [Sample(value, timestamp)]
      ensures samples[0].timestamp <= timestamp <= samples[0].timestamp + windowLength
      ensures old(samples[0]).value == 0 || Compare(minimum, value, old(samples[0]).value) ==>
                samples[0] == Sample(value, timestamp)
      ensures old(samples[0]).value != 0 && !Compare(minimum, value, old(samples[0]).value) ==>
                Within(old(samples[0]), timestamp, windowLength) ==> samples[0] == old(samples[0])
      ensures old(samples[0]).value != 0 ==>
                forall k :: 0 <= k < 3 && Within(old(samples[k]), timestamp, windowLength) ==>
                  Compare(minimum, samples[0].value, old(samples[k]).value)
    {
      if hist != [] {
        Oldest(timestamp, windowLength);
      }
      var sample := Sample(value, timestamp);
      if samples[0].value == 0 || Compare(minimum, value, samples[0].value)
        || TimeoutExpired(samples[2], timestamp, windowLength) {
        StartOver(sample);
        return;
      }
      BestFirst();
      InsertWorse(sample);
      Replaced(minimum, hist, samples[..], at);
      Age(sample, windowLength);
    }

    /** Starts over with a sample. */
    method StartOver(sample: Sample)
      requires Valid() && forall i :: 0 <= i < |hist| ==> hist[i].timestamp <= sample.timestamp
      modifies this, samples
      ensures Valid() && hist == old(hist) + [sample]
      ensures samples[0] == samples[1] == samples[2] == sample
    {
      Reset(sample);
      StandsLast(minimum, hist, sample);
      at := [|hist|, |hist|, |hist|];
      hist := hist + [sample];
    }

    /** Inserts a sample that is worse than the best one. */
    method InsertWorse(sample: Sample)
      requires Valid() && hist != [] && !Compare(minimum, sample.value, samples[0].value)
      requires forall i :: 0 <= i < |hist| ==> hist[i].timestamp <= sample.timestamp
      modifies this, samples
      ensures Valid() && hist == old(hist) + [sample] && samples[0] == old(samples[0])
      ensures forall k :: 1 <= k < 3 ==>
                || samples[k] == old(samples[k])
                || (samples[k] == sample && Compare(minimum, sample.value, old(samples[k]).value))
    {
      var s1, s2 := samples[1].value, samples[2].value;
      StandsOn(minimum, hist, samples[0], at[0], sample);
      StandsLast(minimum, hist, sample);
      if Compare(minimum, sample.value, s1) {
        samples[2], samples[1] := sample, sample;
        at := [at[0], |hist|, |hist|];
      } else {
        StandsOn(minimum, hist, samples[1], at[1], sample);
        if Compare(minimum, sample.value, s2) {
          samples[2] := sample;
          at := at[2 := |hist|];
        } else {
          StandsOn(minimum, hist, samples[2], at[2], sample);
        }
      }
      hist := hist + [sample];
    }

    /** Lets samples go that have been kept for too long. */
    method Age(sample: Sample, windowLength: nat)
      requires samples.Length == 3 && hist != [] && sample == hist[|hist| - 1] && InOrder(hist)
      requires Kept(minimum, hist, samples[..], at) && |at| == 3
      requires Kept(minimum, hist, [samples[0], sample, sample], [at[0], |hist| - 1, |hist| - 1])
      requires Kept(minimum, hist, [samples[0], samples[1], sample], [at[0], at[1], |hist| - 1])
      requires Kept(minimum, hist, [samples[1], samples[2], sample], [at[1], at[2], |hist| - 1])
      requires Kept(minimum, hist, [samples[2], sample, sample], [at[2], |hist| - 1, |hist| - 1])
      requires forall k :: 0 <= k < 3 ==> samples[k].timestamp <= sample.timestamp
      requires sample.timestamp - samples[2].timestamp <= windowLength
      modifies this`at, samples
      ensures Kept(minimum, hist, samples[..], at)
      ensures samples[0].timestamp <= sample.timestamp <= samples[0].timestamp + windowLength
      ensures samples[0] ==
                if Within(old(samples[0]), sample.timestamp, windowLength) then old(samples[0])
                else if Within(old(samples[1]), sample.timestamp, windowLength) then old(samples[1])
                else old(samples[2])
    {
      hide Kept;
      var now := sample.timestamp;
      ghost var last := |hist| - 1;
      if TimeoutExpired(samples[0], now, windowLength) {
        if TimeoutExpired(samples[1], now, windowLength) {
          samples[0], samples[1] := samples[2], sample;
          at := [at[2], last, last];
        } else {
          samples[0], samples[1] := samples[1], samples[2];
          at := [at[1], at[2], last];
        }
        samples[2] := sample;
        assert samples[..] == [samples[0], samples[1], sample];
      } else if samples[1].value == samples[0].value && TimeoutExpired(samples[1], now, windowLength / 4) {
        samples[2], samples[1] := sample, sample;
        at := [at[0], last, last];
      } else if samples[2].value == samples[1].value && TimeoutExpired(samples[2], now, windowLength / 2) {
        samples[2] := sample;
        at := [at[0], at[1], last];
      }
      assert samples[..] == [samples[0], samples[1], samples[2]];
    }
  }
}
