/** The window of packets that the decoder has received or is waiting for.

    Packets live in subwindows of 64, each with a word of bits that says which ones are there. */
module DecoderWindows {
  import opened BitSets
  import opened Missing
  import opened Columns

  datatype Subwindow<T> = Subwindow(originals: seq<seq<T>>, got: Word, gotCount: nat)

  /** An empty buffer stands for a packet that has not been received. */
  ghost predicate SubwindowOk<T>(s: Subwindow<T>) {
    && |s.originals| == SUBWINDOW_SIZE
    && s.gotCount == PopCount(s.got)
    && forall i :: 0 <= i < SUBWINDOW_SIZE ==> (s.got[i] <==> s.originals[i] != [])
  }

  function Nothing<T>(n: nat): (s: seq<seq<T>>)
    ensures |s| == n && forall i :: 0 <= i < n ==> s[i] == []
  {
    seq(n, i => [])
  }

  function EmptySubwindow<T>(): Subwindow<T> { Subwindow(Nothing(SUBWINDOW_SIZE), Zeros(), 0) }

  lemma EmptyIsOk<T>()
    ensures SubwindowOk(EmptySubwindow<T>())
  {
    PopCountRun(SUBWINDOW_SIZE, false);
  }

  function EmptySubwindows<T>(n: nat): (s: seq<Subwindow<T>>)
    ensures |s| == n && forall i :: 0 <= i < n ==> s[i] == EmptySubwindow<T>()
  {
    seq(n, i => EmptySubwindow<T>())
  }

  // ----- subwindows as one sequence

  function GotWords<T>(subs: seq<Subwindow<T>>): (words: seq<Word>)
    ensures |words| == |subs| && forall i :: 0 <= i < |subs| ==> words[i] == subs[i].got
  {
    seq(|subs|, i requires 0 <= i < |subs| => subs[i].got)
  }

  ghost predicate AllOk<T>(subs: seq<Subwindow<T>>) {
    forall i :: 0 <= i < |subs| ==> SubwindowOk(subs[i])
  }

  ghost function Packets<T>(subs: seq<Subwindow<T>>): (s: seq<seq<T>>)
    requires AllOk(subs)
    ensures |s| == SUBWINDOW_SIZE * |subs|
  {
    seq(SUBWINDOW_SIZE * |subs|,
        i requires 0 <= i < SUBWINDOW_SIZE * |subs| => subs[i / SUBWINDOW_SIZE].originals[i % SUBWINDOW_SIZE])
  }

  lemma PacketAt<T>(subs: seq<Subwindow<T>>, k: nat, j: nat)
    requires AllOk(subs) && k < |subs| && j < SUBWINDOW_SIZE
    ensures Packets(subs)[SUBWINDOW_SIZE * k + j] == subs[k].originals[j]
    ensures Bits(GotWords(subs))[SUBWINDOW_SIZE * k + j] == subs[k].got[j]
  {
    BitAt(GotWords(subs), k, j);
    assert (SUBWINDOW_SIZE * k + j) / SUBWINDOW_SIZE == k && (SUBWINDOW_SIZE * k + j) % SUBWINDOW_SIZE == j;
  }

  lemma GotMeansPacket<T>(subs: seq<Subwindow<T>>)
    requires AllOk(subs)
    ensures forall e :: 0 <= e < SUBWINDOW_SIZE * |subs| ==> (Bits(GotWords(subs))[e] <==> Packets(subs)[e] != [])
  {
    hide Bits, Packets;
    forall e | 0 <= e < SUBWINDOW_SIZE * |subs| ensures Bits(GotWords(subs))[e] <==> Packets(subs)[e] != [] {
      PacketAt(subs, e / SUBWINDOW_SIZE, e % SUBWINDOW_SIZE);
      assert SubwindowOk(subs[e / SUBWINDOW_SIZE]);
    }
  }

  /** Dropping subwindows from the front and adding empty ones at the back. */
  lemma Rotated<T>(subs: seq<Subwindow<T>>, k: nat, n: nat)
    requires AllOk(subs) && k <= |subs|
    ensures var subs' := subs[k..] + EmptySubwindows(n);
            && AllOk(subs')
            && Packets(subs') == Packets(subs)[SUBWINDOW_SIZE * k..] + Nothing(SUBWINDOW_SIZE * n)
            && Bits(GotWords(subs')) == Bits(GotWords(subs))[SUBWINDOW_SIZE * k..] + Run(SUBWINDOW_SIZE * n, false)
  {
    hide Bits, Packets, SubwindowOk;
    var subs' := subs[k..] + EmptySubwindows(n);
    EmptyIsOk<T>();
    assert AllOk(subs') by {
      forall i | 0 <= i < |subs'| ensures SubwindowOk(subs'[i]) {
        if i < |subs| - k {
          assert subs'[i] == subs[k + i];
        } else {
          assert subs'[i] == EmptySubwindow();
        }
      }
    }
    RotatedPackets(subs, k, n, subs');
    var g, g' := Bits(GotWords(subs)), Bits(GotWords(subs'));
    var want := g[SUBWINDOW_SIZE * k..] + Run(SUBWINDOW_SIZE * n, false);
    forall e | 0 <= e < |g'| ensures g'[e] == want[e] {
      var q, r := e / SUBWINDOW_SIZE, e % SUBWINDOW_SIZE;
      PacketAt(subs', q, r);
      if q < |subs| - k {
        PacketAt(subs, k + q, r);
      } else {
        assert subs'[q] == EmptySubwindow();
      }
    }
  }

  lemma RotatedPackets<T>(subs: seq<Subwindow<T>>, k: nat, n: nat, subs': seq<Subwindow<T>>)
    requires AllOk(subs) && k <= |subs| && AllOk(subs') && subs' == subs[k..] + EmptySubwindows(n)
    ensures Packets(subs') == Packets(subs)[SUBWINDOW_SIZE * k..] + Nothing(SUBWINDOW_SIZE * n)
  {
    hide Bits, Packets, SubwindowOk;
    var p, p' := Packets(subs), Packets(subs');
    var want := p[SUBWINDOW_SIZE * k..] + Nothing(SUBWINDOW_SIZE * n);
    forall e | 0 <= e < |p'| ensures p'[e] == want[e] {
      var q, r := e / SUBWINDOW_SIZE, e % SUBWINDOW_SIZE;
      PacketAt(subs', q, r);
      if q < |subs| - k {
        PacketAt(subs, k + q, r);
      } else {
        assert subs'[q] == EmptySubwindow();
      }
    }
  }

  /** Storing one packet. */
  lemma Stored<T>(subs: seq<Subwindow<T>>, k: nat, j: nat, packet: seq<T>)
    requires AllOk(subs) && k < |subs| && j < SUBWINDOW_SIZE && !subs[k].got[j] && packet != []
    ensures var s := subs[k];
            var subs' := subs[k := Subwindow(s.originals[j := packet], s.got[j := true], s.gotCount + 1)];
            && AllOk(subs')
            && Packets(subs') == Packets(subs)[SUBWINDOW_SIZE * k + j := packet]
            && Bits(GotWords(subs')) == Bits(GotWords(subs))[SUBWINDOW_SIZE * k + j := true]
  {
    var s := subs[k];
    assert SubwindowOk(s);
    var s' := Subwindow(s.originals[j := packet], s.got[j := true], s.gotCount + 1);
    PopCountSet(s.got, j);
    assert SubwindowOk(s');
    var subs' := subs[k := s'];
    hide Bits, Packets, SubwindowOk;
    forall e | 0 <= e < SUBWINDOW_SIZE * |subs|
      ensures Packets(subs')[e] == Packets(subs)[SUBWINDOW_SIZE * k + j := packet][e]
      ensures Bits(GotWords(subs'))[e] == Bits(GotWords(subs))[SUBWINDOW_SIZE * k + j := true][e]
    {
      var q, r := e / SUBWINDOW_SIZE, e % SUBWINDOW_SIZE;
      PacketAt(subs, q, r);
      PacketAt(subs', q, r);
      if q == k && r == j {
        assert e == SUBWINDOW_SIZE * k + j;
      }
    }
  }

  // ----- scanning

  /** The first element at or after `from` with the given bit, or `count`. */
  ghost predicate IsNext(got: seq<bool>, from: nat, bit: bool, next: nat) {
    && next <= |got| && (from < |got| ==> from <= next) && (from >= |got| ==> next == |got|)
    && Uniform(got, from, next, !bit)
    && (next < |got| ==> got[next] == bit)
  }

  class DecoderWindow<T> {
    var count: nat
    var columnStart: nat
    var nextExpected: nat
    var subwindows: seq<Subwindow<T>>

    /** The true number of the first element. */
    var base: nat

    ghost predicate Valid()
      reads this
    {
      && Sound()
      && nextExpected <= count && Uniform(Got(), 0, nextExpected, true)
      && (nextExpected < count ==> !Got()[nextExpected])
    }

    /** Everything but the next expected element. */
    ghost predicate Sound()
      reads this
    {
      && columnStart == Wrap(base)
      && count <= SUBWINDOW_SIZE * |subwindows| && AllOk(subwindows)
      && Uniform(Bits(GotWords(subwindows)), count, SUBWINDOW_SIZE * |subwindows|, false)
    }

    ghost function Got(): (g: seq<bool>)
      requires count <= SUBWINDOW_SIZE * |subwindows|
      reads this
      ensures |g| == count
    {
      Bits(GotWords(subwindows))[..count]
    }

    ghost function Contents(): (c: seq<seq<T>>)
      requires AllOk(subwindows) && count <= SUBWINDOW_SIZE * |subwindows|
      reads this
      ensures |c| == count
    {
      Packets(subwindows)[..count]
    }

    constructor ()
      ensures Valid() && count == 0 && nextExpected == 0 && base == 0 && columnStart == 0
    {
      count, columnStart, nextExpected, base := 0, 0, 0, 0;
      subwindows := [];
    }

    lemma GotIsContents()
      requires Sound()
      ensures forall e :: 0 <= e < count ==> (Got()[e] <==> Contents()[e] != [])
    {
      GotMeansPacket(subwindows);
    }

    /** The missing elements of whole subwindows. */
    lemma CountOfSubwindow(k: nat)
      requires Sound() && SUBWINDOW_SIZE * (k + 1) <= count
      ensures k < |subwindows|
              && |MissingIn(Got(), SUBWINDOW_SIZE * k, SUBWINDOW_SIZE * (k + 1))|
                 == SUBWINDOW_SIZE - subwindows[k].gotCount
    {
      hide Bits, PopCount, MissingIn;
      MissingCount(Got(), SUBWINDOW_SIZE * k, SUBWINDOW_SIZE * (k + 1));
      BitsInWord(GotWords(subwindows), k, 0, SUBWINDOW_SIZE);
      var w := subwindows[k].got;
      assert w[0..SUBWINDOW_SIZE] == w;
      assert Got()[SUBWINDOW_SIZE * k..SUBWINDOW_SIZE * (k + 1)] == w;
      assert SubwindowOk(subwindows[k]);
    }

    /** The missing elements of part of a subwindow. */
    lemma CountInSubwindow(k: nat, a: nat, b: nat)
      requires Sound() && SUBWINDOW_SIZE * k + b <= count && a < b <= SUBWINDOW_SIZE
      ensures k < |subwindows| && CountIn([subwindows[k].got], a, b) <= b - a
      ensures |MissingIn(Got(), SUBWINDOW_SIZE * k + a, SUBWINDOW_SIZE * k + b)|
              == (b - a) - CountIn([subwindows[k].got], a, b)
    {
      hide Bits, PopCount, MissingIn;
      var w := subwindows[k].got;
      MissingCount(Got(), SUBWINDOW_SIZE * k + a, SUBWINDOW_SIZE * k + b);
      BitsInWord(GotWords(subwindows), k, a, b);
      BitsInWord([w], 0, a, b);
      assert Got()[SUBWINDOW_SIZE * k + a..SUBWINDOW_SIZE * k + b] == w[a..b];
      PopCountBound(w[a..b]);
    }

    method RangeLostPackets(elementStart: nat, elementEnd: nat) returns (lostCount: nat)
      requires Sound() && elementEnd <= count
      ensures lostCount == |MissingIn(Got(), elementStart, elementEnd)|
    {
      hide Bits, MissingIn, CountIn, Sound;
      if elementStart >= elementEnd {
        MissingEmpty(elementStart, elementEnd);
        return 0;
      }
      lostCount := 0;
      var subwindowStart := elementStart / SUBWINDOW_SIZE;
      var bitStart := elementStart % SUBWINDOW_SIZE;
      SubwindowsCover();
      ghost var done := elementStart;
      MissingEmpty(elementStart, elementStart);
      if bitStart > 0 {
        var bitEnd := bitStart + (elementEnd - elementStart);
        if bitEnd > SUBWINDOW_SIZE {
          bitEnd := SUBWINDOW_SIZE;
        }
        CountInSubwindow(subwindowStart, bitStart, bitEnd);
        var got := RangePopcount([subwindows[subwindowStart].got], bitStart, bitEnd);
        lostCount := lostCount + (bitEnd - bitStart) - got;
        done := elementStart + (bitEnd - bitStart);
        subwindowStart := subwindowStart + 1;
      }
      var subwindowEnd := elementEnd / SUBWINDOW_SIZE;
      var i := subwindowStart;
      while i < subwindowEnd
        invariant subwindowStart <= i && (i <= subwindowEnd || i == subwindowStart)
        invariant elementStart <= done <= elementEnd
                  && done == (if i <= subwindowEnd then SUBWINDOW_SIZE * i else elementEnd)
        invariant lostCount == |MissingIn(Got(), elementStart, done)|
      {
        CountOfSubwindow(i);
        MissingSplit(Got(), elementStart, SUBWINDOW_SIZE * i, SUBWINDOW_SIZE * (i + 1));
        lostCount := lostCount + (SUBWINDOW_SIZE - subwindows[i].gotCount);
        done := SUBWINDOW_SIZE * (i + 1);
        i := i + 1;
      }
      if subwindowEnd >= subwindowStart {
        var lastSubwindowBits := elementEnd - subwindowEnd * SUBWINDOW_SIZE;
        if lastSubwindowBits > 0 {
          CountInSubwindow(subwindowEnd, 0, lastSubwindowBits);
          MissingSplit(Got(), elementStart, SUBWINDOW_SIZE * subwindowEnd, elementEnd);
          var gotCount := RangePopcount([subwindows[subwindowEnd].got], 0, lastSubwindowBits);
          lostCount := lostCount + lastSubwindowBits - gotCount;
        }
      }
    }

    lemma MissingEmpty(a: nat, b: nat)
      requires Sound() && b <= a && b <= count
      ensures MissingIn(Got(), a, b) == []
    {
    }

    lemma SubwindowsCover()
      requires Sound()
      ensures count <= SUBWINDOW_SIZE * |subwindows|
      ensures forall k :: 0 <= k < |subwindows| ==> SubwindowOk(subwindows[k])
    {
    }

    /** A subwindow whose bits from `a` to `b` are all the same. */
    lemma UniformSubwindow(k: nat, a: nat, b: nat, bit: bool)
      requires Sound() && k < |subwindows| && a <= b <= SUBWINDOW_SIZE && Uniform(Bits([subwindows[k].got]), a, b, bit)
      ensures forall e :: SUBWINDOW_SIZE * k + a <= e < SUBWINDOW_SIZE * k + b && e < count ==> Got()[e] == bit
    {
      hide Bits;
      forall e | SUBWINDOW_SIZE * k + a <= e < SUBWINDOW_SIZE * k + b && e < count ensures Got()[e] == bit {
        var j := e - SUBWINDOW_SIZE * k;
        BitAt(GotWords(subwindows), k, j);
        BitAt([subwindows[k].got], 0, j);
      }
    }

    lemma BitOfSubwindow(k: nat, j: nat)
      requires Sound() && k < |subwindows| && j < SUBWINDOW_SIZE
      ensures SUBWINDOW_SIZE * k + j < count ==> Got()[SUBWINDOW_SIZE * k + j] == Bits([subwindows[k].got])[j]
      ensures SUBWINDOW_SIZE * k + j >= count ==> !Bits([subwindows[k].got])[j]
    {
      hide Bits;
      BitAt(GotWords(subwindows), k, j);
      BitAt([subwindows[k].got], 0, j);
    }

    /** A subwindow counted as full, or as empty. */
    lemma FullSubwindow(k: nat, a: nat)
      requires Sound() && k < |subwindows| && a <= SUBWINDOW_SIZE
      ensures subwindows[k].gotCount >= SUBWINDOW_SIZE ==> Uniform(Bits([subwindows[k].got]), a, SUBWINDOW_SIZE, true)
      ensures subwindows[k].gotCount == 0 ==> Uniform(Bits([subwindows[k].got]), a, SUBWINDOW_SIZE, false)
    {
      hide Bits, PopCount;
      var w := subwindows[k].got;
      assert SubwindowOk(subwindows[k]);
      PopCountBound(w);
      BitsInWord([w], 0, 0, SUBWINDOW_SIZE);
      assert Bits([w]) == w;
    }

    method FindNextLostElement(elementStart: nat) returns (element: nat)
      requires Sound()
      ensures IsNext(Got(), elementStart, false, element)
    {
      hide Bits, Sound;
      SubwindowsCover();
      if elementStart >= count {
        return count;
      }
      var subwindowEnd := (count + SUBWINDOW_SIZE - 1) / SUBWINDOW_SIZE;
      var subwindowIndex := elementStart / SUBWINDOW_SIZE;
      var bitIndex: nat := elementStart % SUBWINDOW_SIZE;
      assert SUBWINDOW_SIZE * subwindowEnd >= count;
      while subwindowIndex < subwindowEnd
        invariant subwindowIndex <= subwindowEnd <= |subwindows| && bitIndex < SUBWINDOW_SIZE
        invariant elementStart <= SUBWINDOW_SIZE * subwindowIndex + bitIndex
        invariant forall e :: elementStart <= e < SUBWINDOW_SIZE * subwindowIndex + bitIndex && e < count ==> Got()[e]
      {
        var start: nat := bitIndex;
        if subwindows[subwindowIndex].gotCount < SUBWINDOW_SIZE {
          bitIndex := FindFirstClear([subwindows[subwindowIndex].got], bitIndex);
          UniformSubwindow(subwindowIndex, start, bitIndex, true);
          if bitIndex < SUBWINDOW_SIZE {
            BitOfSubwindow(subwindowIndex, bitIndex);
            element := subwindowIndex * SUBWINDOW_SIZE + bitIndex;
            if element > count {
              element := count;
            }
            return;
          }
        } else {
          FullSubwindow(subwindowIndex, start);
          UniformSubwindow(subwindowIndex, start, SUBWINDOW_SIZE, true);
        }
        bitIndex := 0;
        subwindowIndex := subwindowIndex + 1;
      }
      return count;
    }

    method FindNextGotElement(elementStart: nat) returns (element: nat)
      requires Sound()
      ensures IsNext(Got(), elementStart, true, element)
    {
      hide Bits, Sound;
      SubwindowsCover();
      if elementStart >= count {
        return count;
      }
      var subwindowEnd := (count + SUBWINDOW_SIZE - 1) / SUBWINDOW_SIZE;
      var subwindowIndex := elementStart / SUBWINDOW_SIZE;
      var bitIndex: nat := elementStart % SUBWINDOW_SIZE;
      assert SUBWINDOW_SIZE * subwindowEnd >= count;
      while subwindowIndex < subwindowEnd
        invariant subwindowIndex <= subwindowEnd <= |subwindows| && bitIndex < SUBWINDOW_SIZE
        invariant elementStart <= SUBWINDOW_SIZE * subwindowIndex + bitIndex
        invariant forall e :: elementStart <= e < SUBWINDOW_SIZE * subwindowIndex + bitIndex && e < count ==> !Got()[e]
      {
        var start: nat := bitIndex;
        if subwindows[subwindowIndex].gotCount > 0 {
          bitIndex := FindFirstSet([subwindows[subwindowIndex].got], bitIndex, SUBWINDOW_SIZE);
          if bitIndex < SUBWINDOW_SIZE {
            UniformSubwindow(subwindowIndex, start, bitIndex, false);
            BitOfSubwindow(subwindowIndex, bitIndex);
            element := subwindowIndex * SUBWINDOW_SIZE + bitIndex;
            if element > count {
              element := count;
            }
            return;
          }
        } else {
          FullSubwindow(subwindowIndex, start);
        }
        UniformSubwindow(subwindowIndex, start, SUBWINDOW_SIZE, false);
        bitIndex := 0;
        subwindowIndex := subwindowIndex + 1;
      }
      return count;
    }

    /** The missing elements of a range. */
    method LostElements(elementStart: nat, elementEnd: nat) returns (lost: seq<nat>)
      requires Sound() && elementStart <= elementEnd <= count
      ensures lost == MissingIn(Got(), elementStart, elementEnd)
    {
      hide Bits, Sound, MissingIn;
      SubwindowsCover();
      lost := [];
      var element := elementStart;
      MissingEmpty(element, element);
      while element < elementEnd
        invariant elementStart <= element <= elementEnd && lost == MissingIn(Got(), elementStart, element)
      {
        var next := FindNextLostElement(element);
        if next >= elementEnd {
          MissingSplit(Got(), elementStart, element, elementEnd);
          MissingNone(Got(), element, elementEnd);
          return;
        }
        MissingSplit(Got(), elementStart, element, next);
        MissingNone(Got(), element, next);
        OneMore(elementStart, next);
        lost := lost + [next];
        element := next + 1;
      }
    }

    lemma OneMore(a: nat, e: nat)
      requires Sound() && a <= e < count && !Got()[e]
      ensures MissingIn(Got(), a, e + 1) == MissingIn(Got(), a, e) + [e]
    {
    }

    /** Moves past what has been received, when everything before elementStart has been. */
    method IterateNextExpectedElement(elementStart: nat)
      requires Sound() && nextExpected < elementStart <= count && Uniform(Got(), 0, elementStart, true)
      modifies this`nextExpected
      ensures Valid() && nextExpected == NextMissing(Got(), elementStart)
    {
      hide Bits;
      if nextExpected >= count {
        return;
      }
      nextExpected := FindNextLostElement(elementStart);
      NextIsMissing(Got(), elementStart, nextExpected);
    }

    /** Makes the window cover the given end element; new elements are missing. */
    method GrowWindow(windowElementEnd: nat)
      requires Sound()
      modifies this`subwindows, this`count
      ensures Sound() && count == (if windowElementEnd > old(count) then windowElementEnd else old(count))
      ensures Got() == old(Got()) + Run(count - old(count), false)
      ensures Contents() == old(Contents()) + Nothing(count - old(count))
      ensures old(Valid()) ==> Valid()
    {
      hide Bits, Packets;
      var subwindowsNeeded := (windowElementEnd + LANE_COUNT + SUBWINDOW_SIZE - 1) / SUBWINDOW_SIZE;
      if subwindowsNeeded > |subwindows| {
        var k := subwindowsNeeded - |subwindows|;
        Rotated(subwindows, 0, k);
        assert subwindows[0..] == subwindows;
        subwindows := subwindows + EmptySubwindows(k);
      }
      GrewBits(old(subwindows), subwindows, old(count), windowElementEnd);
      if windowElementEnd > count {
        count := windowElementEnd;
      }
      assert Got() == old(Got()) + Run(count - old(count), false);
      assert Contents() == old(Contents()) + Nothing(count - old(count));
    }

    /** Elements past the end of the window are empty. */
    lemma GrewBits(subs: seq<Subwindow<T>>, subs': seq<Subwindow<T>>, n: nat, end: nat)
      requires AllOk(subs) && n <= SUBWINDOW_SIZE * |subs|
               && Uniform(Bits(GotWords(subs)), n, SUBWINDOW_SIZE * |subs|, false)
      requires AllOk(subs') && SUBWINDOW_SIZE * |subs'| >= end && |subs| <= |subs'|
      requires var k := SUBWINDOW_SIZE * (|subs'| - |subs|);
               && Bits(GotWords(subs')) == Bits(GotWords(subs)) + Run(k, false)
               && Packets(subs') == Packets(subs) + Nothing(k)
      ensures forall e :: n <= e < SUBWINDOW_SIZE * |subs'| ==> !Bits(GotWords(subs'))[e] && Packets(subs')[e] == []
      ensures Bits(GotWords(subs'))[..n] == Bits(GotWords(subs))[..n] && Packets(subs')[..n] == Packets(subs)[..n]
    {
      GotMeansPacket(subs');
    }

    /** Stores a packet that was missing. */
    method Store(element: nat, packet: seq<T>)
      requires Sound() && element < count && !Got()[element] && packet != []
      modifies this`subwindows
      ensures Sound() && Got() == old(Got())[element := true] && Contents() == old(Contents())[element := packet]
    {
      hide Bits, Packets, SubwindowOk;
      var k, j := element / SUBWINDOW_SIZE, element % SUBWINDOW_SIZE;
      BitAt(GotWords(subwindows), k, j);
      Stored(subwindows, k, j, packet);
      var s := subwindows[k];
      StoredShape(k, j);
      subwindows := subwindows[k := Subwindow(s.originals[j := packet], s.got[j := true], s.gotCount + 1)];
    }

    lemma StoredShape(k: nat, j: nat)
      requires Sound() && k < |subwindows| && j < SUBWINDOW_SIZE
      ensures |subwindows[k].originals| == SUBWINDOW_SIZE
    {
      assert SubwindowOk(subwindows[k]);
    }

    method Load(element: nat) returns (packet: seq<T>)
      requires Sound() && element < count
      ensures packet == Contents()[element]
    {
      hide Bits, Packets, SubwindowOk;
      var k, j := element / SUBWINDOW_SIZE, element % SUBWINDOW_SIZE;
      PacketAt(subwindows, k, j);
      StoredShape(k, j);
      packet := subwindows[k].originals[j];
    }

    /** Copies the packets at the front of the window. */
    method Front(n: nat) returns (packets: seq<seq<T>>)
      requires Sound() && n <= count
      ensures packets == Contents()[..n]
    {
      hide Bits, Packets, SubwindowOk, Uniform;
      packets := [];
      for i := 0 to n
        invariant packets == Contents()[..i]
      {
        var packet := Load(i);
        packets := packets + [packet];
      }
    }

    /** Drops the first subwindows, all of them received, and keeps their storage for later. */
    method DropSubwindows(firstKept: nat)
      requires Valid() && SUBWINDOW_SIZE * firstKept <= nextExpected
      modifies this
      ensures Valid() && base == old(base) + SUBWINDOW_SIZE * firstKept
      ensures count == old(count) - SUBWINDOW_SIZE * firstKept
              && nextExpected == old(nextExpected) - SUBWINDOW_SIZE * firstKept
      ensures Got() == old(Got())[SUBWINDOW_SIZE * firstKept..]
              && Contents() == old(Contents())[SUBWINDOW_SIZE * firstKept..]
    {
      hide Bits, Packets, SubwindowOk, Wrap;
      var removed := firstKept * SUBWINDOW_SIZE;
      AddWrapped(base, removed);
      Rotated(subwindows, firstKept, firstKept);
      subwindows := subwindows[firstKept..] + EmptySubwindows(firstKept);
      count := count - removed;
      columnStart := AddColumns(removed, columnStart);
      base := base + removed;
      nextExpected := nextExpected - removed;
      assert Got() == old(Got())[removed..];
      assert Contents() == old(Contents())[removed..];
    }
  }
}
