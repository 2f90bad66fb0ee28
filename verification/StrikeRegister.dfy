/** Anti-replay protection: which sequence numbers have been accepted, in a window that rotates
    through a fixed buffer instead of shifting. */
module StrikeRegisters {
  import opened Numbers
  import opened BitSets

  const REGISTER_BITS: int := 4096
  const WORD_COUNT: nat := 64

  /** Sequence numbers stay below 2^63, so that counters compare as numbers. */
  const MAX_SEQUENCE: nat := 0x8000_0000_0000_0000

  /** The bit of a sequence number, when the buffer was last reset at `origin`. */
  function Place(s: int, origin: int): (bit: nat)
    ensures bit < REGISTER_BITS
  {
    (s - origin) % REGISTER_BITS
  }

  lemma SamePlace(a: int, b: int, origin: int)
    requires -REGISTER_BITS < a - b < REGISTER_BITS && a != b
    ensures Place(a, origin) != Place(b, origin)
  {
  }

  /** The code adds the rotation to the distance from the base. */
  lemma RotatedPlace(s: nat, base: nat, rotation: nat, origin: nat)
    requires base <= s && rotation < REGISTER_BITS && Place(base, origin) == rotation
    ensures (s - base + rotation) % REGISTER_BITS == Place(s, origin)
  {
    var q := (base - origin) / REGISTER_BITS;
    assert base - origin == q * REGISTER_BITS + rotation;
    assert s - origin == (s - base + rotation) + q * REGISTER_BITS;
    ModShift(s - base + rotation, q, REGISTER_BITS);
  }

  /** The number of words to slide, cast to 32 bits. */
  function SlideWords(distance: nat): nat
    requires distance >= REGISTER_BITS
  {
    ((distance - REGISTER_BITS) / WORD_BITS + 1) % UNSIGNED_PERIOD
  }

  /** The cast loses nothing exactly for distances below its own range. */
  lemma CastIsExact(distance: nat)
    requires distance >= REGISTER_BITS
    ensures SlideWords(distance) == (distance - REGISTER_BITS) / WORD_BITS + 1 <==>
              distance < REGISTER_BITS + WORD_BITS * (UNSIGNED_PERIOD - 1)
  {
    var n := (distance - REGISTER_BITS) / WORD_BITS + 1;
    assert WORD_BITS * (n - 1) <= distance - REGISTER_BITS < WORD_BITS * n;
  }

  /** Whether the window comes to cover a number: it does already, or the cast loses nothing, or what is
      left of the number of words still empties the window. */
  predicate Fits(windowBase: nat, sequence: nat) {
    || sequence < windowBase + REGISTER_BITS
    || sequence - windowBase < REGISTER_BITS + WORD_BITS * (UNSIGNED_PERIOD - 1)
    || SlideWords(sequence - windowBase) >= WORD_COUNT
  }

  /** The first number ahead of a new window that the cast gets wrong: no word is to slide. */
  lemma FirstMisfit()
    ensures var sequence := REGISTER_BITS + WORD_BITS * (UNSIGNED_PERIOD - 1);
            sequence < MAX_SEQUENCE && SlideWords(sequence) == 0 && !Fits(0, sequence) && Fits(0, sequence - 1)
  {
  }

  class StrikeRegister {
    const words: array<Word>
    var windowBase: nat
    var windowBitRotation: nat
    var largestSequence: nat

    /** Every number accepted since the start, and the number at bit 0 of the buffer. */
    ghost var accepted: set<nat>
    ghost var origin: nat

    ghost predicate Valid()
      reads this, words
    {
      && words.Length == WORD_COUNT
      && windowBitRotation % WORD_BITS == 0 && windowBitRotation < REGISTER_BITS
      && origin <= windowBase && Place(windowBase, origin) == windowBitRotation
      && windowBase <= largestSequence < windowBase + REGISTER_BITS && largestSequence < MAX_SEQUENCE
      && (forall s :: s in accepted ==> s <= largestSequence)
      && (forall s :: windowBase <= s < windowBase + REGISTER_BITS ==>
           (Bits(words[..])[Place(s, origin)] <==> s in accepted))
    }

    constructor ()
      ensures Valid() && accepted == {} && windowBase == 0
    {
      words := new Word[WORD_COUNT](_ => Zeros());
      windowBase, windowBitRotation, largestSequence := 0, 0, 0;
      accepted, origin := {}, 0;
      new;
      AllClear(words[..]);
    }

    lemma AllClear(ws: seq<Word>)
      requires |ws| == WORD_COUNT && forall i :: 0 <= i < |ws| ==> ws[i] == Zeros()
      ensures forall i :: 0 <= i < REGISTER_BITS ==> !Bits(ws)[i]
    {
    }

    /** True exactly for numbers before the window and for numbers accepted before. */
    method IsDuplicate(sequence: nat) returns (duplicate: bool)
      requires Valid() && sequence < MAX_SEQUENCE
      ensures duplicate <==> sequence < windowBase || sequence in accepted
    {
      hide Bits, Place;
      if sequence < windowBase {
        return true;
      }
      var distance := sequence - windowBase;
      if distance >= REGISTER_BITS {
        return false;
      }
      var bit := (distance + windowBitRotation) % REGISTER_BITS;
      RotatedPlace(sequence, windowBase, windowBitRotation, origin);
      BitAt(words[..], bit / WORD_BITS, bit % WORD_BITS);
      duplicate := words[bit / WORD_BITS][bit % WORD_BITS];
    }

    /** Empties the window and starts it at a number. */
    method Reset(newBase: nat)
      requires words.Length == WORD_COUNT && newBase < MAX_SEQUENCE
      modifies this`windowBase, this`largestSequence, this`windowBitRotation, this`origin, words
      ensures windowBase == largestSequence == origin == newBase && windowBitRotation == 0
      ensures forall i :: 0 <= i < WORD_COUNT ==> words[i] == Zeros()
    {
      windowBase, largestSequence, windowBitRotation := newBase, newBase, 0;
      origin := newBase;
      for i := 0 to WORD_COUNT
        invariant windowBase == largestSequence == origin == newBase && windowBitRotation == 0
        invariant forall j :: 0 <= j < i ==> words[j] == Zeros()
      {
        words[i] := Zeros();
      }
    }

    /** Accepts a number: a number before the window is left alone, any other is remembered, and
        whatever was a duplicate stays one.  The window covers the number exactly when it fits. */
    method Accept(sequence: nat)
      requires Valid() && sequence < MAX_SEQUENCE
      modifies this, words
      ensures Valid() <==> Fits(old(windowBase), sequence)
      ensures accepted == if sequence < old(windowBase) then old(accepted) else old(accepted) + {sequence}
      ensures windowBase >= old(windowBase)
      ensures largestSequence == if sequence > old(largestSequence) then sequence else old(largestSequence)
      ensures !Fits(old(windowBase), sequence) ==> sequence >= windowBase + REGISTER_BITS
    {
      hide Bits, Place;
      ghost var before := largestSequence;
      if largestSequence < sequence {
        largestSequence := sequence;
      }
      if sequence < windowBase {
        return;
      }
      var distance := sequence - windowBase;
      if distance >= REGISTER_BITS {
        var slideWords := SlideWords(distance);
        CastIsExact(distance);
        if slideWords >= WORD_COUNT {
          Reset(sequence);
          words[0] := Zeros()[0 := true];
          accepted := accepted + {sequence};
          OnlyFirst(sequence);
          return;
        }
        Slide(slideWords, before);
        distance := distance - slideWords * WORD_BITS;
      }
      var bit := (distance + windowBitRotation) % REGISTER_BITS;
      RotatedPlace(sequence, windowBase, windowBitRotation, origin);
      Strike(bit, sequence);
    }

    /** The window with a possibly larger largest number. */
    ghost predicate Ready(largest: nat)
      reads this, words
    {
      && words.Length == WORD_COUNT
      && windowBitRotation % WORD_BITS == 0 && windowBitRotation < REGISTER_BITS
      && origin <= windowBase && Place(windowBase, origin) == windowBitRotation
      && (forall s :: s in accepted ==> s <= largest) && largest < windowBase + REGISTER_BITS
      && (forall s :: windowBase <= s < windowBase + REGISTER_BITS ==>
           (Bits(words[..])[Place(s, origin)] <==> s in accepted))
    }

    lemma OnlyFirst(sequence: nat)
      requires words.Length == WORD_COUNT && windowBase == largestSequence == origin == sequence < MAX_SEQUENCE
               && windowBitRotation == 0
      requires words[0] == Zeros()[0 := true] && (forall i :: 1 <= i < WORD_COUNT ==> words[i] == Zeros())
      requires sequence in accepted && forall s :: s in accepted ==> s <= sequence
      ensures Valid()
    {
      forall s | sequence <= s < sequence + REGISTER_BITS ensures Bits(words[..])[Place(s, origin)] <==> s in accepted {
        var bit := s - sequence;
        assert Place(s, origin) == bit;
        BitAt(words[..], bit / WORD_BITS, bit % WORD_BITS);
      }
    }

    /** Moves the window ahead by whole words; the words it leaves become the words it enters. */
    method Slide(slideWords: nat, ghost largest: nat)
      requires Ready(largest) && slideWords < WORD_COUNT
      modifies this`windowBase, this`windowBitRotation, words
      ensures Ready(largest) && windowBase == old(windowBase) + slideWords * WORD_BITS
    {
      hide Bits, Place;
      var first := windowBitRotation / WORD_BITS;
      var word := first;
      for i := 0 to slideWords
        invariant windowBase == old(windowBase) && windowBitRotation == old(windowBitRotation)
        invariant word == (if first + i < WORD_COUNT then first + i else first + i - WORD_COUNT)
        invariant forall j :: 0 <= j < WORD_COUNT ==>
                    words[j] == if Cleared(j, first, i) then Zeros() else old(words[j])
      {
        words[word] := Zeros();
        word := word + 1;
        if word >= WORD_COUNT {
          word := 0;
        }
      }
      var slideBits := slideWords * WORD_BITS;
      windowBase := windowBase + slideBits;
      windowBitRotation := windowBitRotation + slideBits;
      if windowBitRotation >= REGISTER_BITS {
        windowBitRotation := windowBitRotation - REGISTER_BITS;
      }
      Slid(old(words[..]), words[..], old(windowBase), first, slideWords);
      RotatedPlace(windowBase, old(windowBase), old(windowBitRotation), origin);
    }

    /** Word j is among the n words from `first` on, cyclically. */
    static predicate Cleared(j: nat, first: nat, n: nat) {
      first <= j < first + n || j + WORD_COUNT < first + n
    }

    lemma Slid(before: seq<Word>, after: seq<Word>, base: nat, first: nat, n: nat)
      requires |before| == |after| == WORD_COUNT && n < WORD_COUNT && first < WORD_COUNT
               && Place(base, origin) == WORD_BITS * first && origin <= base
      requires forall j :: 0 <= j < WORD_COUNT ==> after[j] == if Cleared(j, first, n) then Zeros() else before[j]
      ensures forall s :: base + n * WORD_BITS <= s < base + REGISTER_BITS ==>
                Bits(after)[Place(s, origin)] == Bits(before)[Place(s, origin)]
      ensures forall s :: base + REGISTER_BITS <= s < base + REGISTER_BITS + n * WORD_BITS ==>
                !Bits(after)[Place(s, origin)]
    {
      hide Bits, Place;
      forall s: int | base + n * WORD_BITS <= s < base + REGISTER_BITS + n * WORD_BITS
        ensures Bits(after)[Place(s, origin)] == (s < base + REGISTER_BITS && Bits(before)[Place(s, origin)])
      {
        var d := s - base;
        RotatedPlace(s, base, WORD_BITS * first, origin);
        var bit := Place(s, origin);
        assert bit == (d + WORD_BITS * first) % REGISTER_BITS;
        BitAt(before, bit / WORD_BITS, bit % WORD_BITS);
        BitAt(after, bit / WORD_BITS, bit % WORD_BITS);
        WordOf(d, first, n);
      }
    }

    /** Which word a distance from the base falls in. */
    lemma WordOf(d: nat, first: nat, n: nat)
      requires first < WORD_COUNT && n < WORD_COUNT && n * WORD_BITS <= d < REGISTER_BITS + n * WORD_BITS
      ensures Cleared((d + WORD_BITS * first) % REGISTER_BITS / WORD_BITS, first, n) <==> d >= REGISTER_BITS
    {
      var k, r := d / WORD_BITS, d % WORD_BITS;
      var q := k + first;
      assert d + WORD_BITS * first == WORD_BITS * q + r;
      var word := if q < WORD_COUNT then q else if q < 2 * WORD_COUNT then q - WORD_COUNT else q - 2 * WORD_COUNT;
      assert (d + WORD_BITS * first) % REGISTER_BITS == WORD_BITS * word + r;
      assert (WORD_BITS * word + r) / WORD_BITS == word;
    }

    /** The window is ready to take a number that it covers. */
    ghost predicate Covers(bit: nat, sequence: nat)
      reads this, words
    {
      && windowBase <= sequence < windowBase + REGISTER_BITS && bit == Place(sequence, origin)
      && Ready(largestSequence)
      && windowBase <= largestSequence < windowBase + REGISTER_BITS && sequence <= largestSequence < MAX_SEQUENCE
    }

    /** Sets the bit of an accepted number. */
    method Strike(bit: nat, sequence: nat)
      requires words.Length == WORD_COUNT && bit < REGISTER_BITS
      modifies this`accepted, words
      ensures accepted == old(accepted) + {sequence}
      ensures old(Covers(bit, sequence)) ==> Valid()
    {
      hide Bits, Place;
      var k, j := bit / WORD_BITS, bit % WORD_BITS;
      ghost var before := words[..];
      words[k] := words[k][j := true];
      accepted := accepted + {sequence};
      assert words[..] == before[k := before[k][j := true]];
      if old(Covers(bit, sequence)) {
        Struck(before, old(accepted), bit, sequence);
      }
    }

    lemma Struck(before: seq<Word>, accepted0: set<nat>, bit: nat, sequence: nat)
      requires words.Length == |before| == WORD_COUNT && bit < REGISTER_BITS && bit == Place(sequence, origin)
      requires words[..] == before[bit / WORD_BITS := before[bit / WORD_BITS][bit % WORD_BITS := true]]
      requires accepted == accepted0 + {sequence} && windowBase <= sequence < windowBase + REGISTER_BITS
      requires forall s :: windowBase <= s < windowBase + REGISTER_BITS ==>
                 (Bits(before)[Place(s, origin)] <==> s in accepted0)
      ensures forall s :: windowBase <= s < windowBase + REGISTER_BITS ==>
                (Bits(words[..])[Place(s, origin)] <==> s in accepted)
    {
      hide Bits, Place;
      forall s | windowBase <= s < windowBase + REGISTER_BITS
        ensures Bits(words[..])[Place(s, origin)] <==> s in accepted
      {
        var p := Place(s, origin);
        BitAt(before, p / WORD_BITS, p % WORD_BITS);
        BitAt(words[..], p / WORD_BITS, p % WORD_BITS);
        if s != sequence {
          SamePlace(s, sequence, origin);
        }
      }
    }
  }
}
