/** Sets of small numbers, kept as the bits of 64-bit words and scanned a word at a time. */
module BitSets {
  const WORD_BITS: nat := 64

  // ----- words

  /** A 64-bit word, the least significant bit first. */
  type Word = w: seq<bool> | |w| == 64 witness seq(64, i => false)

  function Run(n: nat, b: bool): seq<bool> { seq(n, i => b) }

  function Zeros(): Word { Run(WORD_BITS, false) }

  function Ones(): Word { Run(WORD_BITS, true) }

  function ShiftRight(w: Word, n: nat): Word
    requires n < WORD_BITS
  {
    w[n..] + Run(n, false)
  }

  function ShiftLeft(w: Word, n: nat): Word
    requires n < WORD_BITS
  {
    Run(n, false) + w[..WORD_BITS - n]
  }

  function Not(w: Word): Word { seq(WORD_BITS, i requires 0 <= i < WORD_BITS => !w[i]) }

  function Or(v: Word, w: Word): Word { seq(WORD_BITS, i requires 0 <= i < WORD_BITS => v[i] || w[i]) }

  function And(v: Word, w: Word): Word { seq(WORD_BITS, i requires 0 <= i < WORD_BITS => v[i] && w[i]) }

  /** (1 << n) - 1 */
  function LowBits(n: nat): Word
    requires n < WORD_BITS
  {
    Run(n, true) + Run(WORD_BITS - n, false)
  }

  function PopCount(s: seq<bool>): nat {
    if s == [] then 0 else PopCount(s[..|s| - 1]) + if s[|s| - 1] then 1 else 0
  }

  function TrailingZeros(w: Word): (n: nat)
    requires w != Zeros()
    ensures n < WORD_BITS && w[n] && forall i :: 0 <= i < n ==> !w[i]
  {
    NonzeroHasBit(w);
    LeastSet(w, 0)
  }

  function LeastSet(w: Word, from: nat): (n: nat)
    requires exists i :: from <= i < WORD_BITS && w[i]
    ensures from <= n < WORD_BITS && w[n] && forall i :: from <= i < n ==> !w[i]
    decreases WORD_BITS - from
  {
    if w[from] then from else LeastSet(w, from + 1)
  }

  lemma NonzeroHasBit(w: Word)
    requires w != Zeros()
    ensures exists i :: 0 <= i < WORD_BITS && w[i]
  {
    var i :| 0 <= i < WORD_BITS && w[i] != Zeros()[i];
    assert w[i];
  }

  lemma {:induction false} PopCountConcat(s: seq<bool>, t: seq<bool>)
    ensures PopCount(s + t) == PopCount(s) + PopCount(t)
  {
    if t == [] {
      assert s + t == s;
    } else {
      assert (s + t)[..|s + t| - 1] == s + t[..|t| - 1];
      PopCountConcat(s, t[..|t| - 1]);
    }
  }

  lemma {:induction false} PopCountRun(n: nat, b: bool)
    ensures PopCount(Run(n, b)) == if b then n else 0
  {
    if n > 0 {
      assert Run(n, b)[..n - 1] == Run(n - 1, b);
      PopCountRun(n - 1, b);
    }
  }

  lemma {:induction false} PopCountBound(s: seq<bool>)
    ensures PopCount(s) <= |s|
    ensures PopCount(s) == |s| <==> forall i :: 0 <= i < |s| ==> s[i]
    ensures PopCount(s) == 0 <==> forall i :: 0 <= i < |s| ==> !s[i]
  {
    if s != [] {
      var t := s[..|s| - 1];
      PopCountBound(t);
      assert s == t + [s[|s| - 1]];
    }
  }

  /** Adding one element to the set. */
  lemma PopCountSet(s: seq<bool>, i: nat)
    requires i < |s| && !s[i]
    ensures PopCount(s[i := true]) == PopCount(s) + 1
  {
    var a, b := s[..i], s[i + 1..];
    assert s == a + [false] + b && s[i := true] == a + [true] + b;
    PopCountConcat(a + [false], b);
    PopCountConcat(a + [true], b);
    PopCountConcat(a, [false]);
    PopCountConcat(a, [true]);
    assert [true][..0] == [] && [false][..0] == [];
  }

  /** Shifting out the bits below and above a range leaves the bits of the range. */
  lemma PopCountOfShifts(w: Word, a: nat, b: nat)
    requires a < b <= WORD_BITS && b - a < WORD_BITS
    ensures PopCount(ShiftLeft(ShiftRight(w, a), WORD_BITS - (b - a))) == PopCount(w[a..b])
  {
    var n := WORD_BITS - (b - a);
    assert ShiftLeft(ShiftRight(w, a), n) == Run(n, false) + w[a..b];
    PopCountConcat(Run(n, false), w[a..b]);
    PopCountRun(n, false);
  }

  // ----- sets of bits

  function Bits(words: seq<Word>): (s: seq<bool>)
    ensures |s| == WORD_BITS * |words|
  {
    seq(WORD_BITS * |words|, i requires 0 <= i < WORD_BITS * |words| => words[i / WORD_BITS][i % WORD_BITS])
  }

  lemma BitAt(words: seq<Word>, k: nat, j: nat)
    requires k < |words| && j < WORD_BITS
    ensures Bits(words)[WORD_BITS * k + j] == words[k][j]
  {
    assert (WORD_BITS * k + j) / WORD_BITS == k && (WORD_BITS * k + j) % WORD_BITS == j;
  }

  /** Part of one word. */
  lemma BitsInWord(words: seq<Word>, k: nat, a: nat, b: nat)
    requires k < |words| && a <= b <= WORD_BITS
    ensures Bits(words)[WORD_BITS * k + a..WORD_BITS * k + b] == words[k][a..b]
  {
    hide Bits;
    var s := Bits(words)[WORD_BITS * k + a..WORD_BITS * k + b];
    forall i | 0 <= i < b - a ensures s[i] == words[k][a..b][i] {
      BitAt(words, k, a + i);
    }
  }

  lemma PopCountSplit(s: seq<bool>, a: nat, b: nat, c: nat)
    requires a <= b <= c <= |s|
    ensures PopCount(s[a..c]) == PopCount(s[a..b]) + PopCount(s[b..c])
  {
    assert s[a..c] == s[a..b] + s[b..c];
    PopCountConcat(s[a..b], s[b..c]);
  }

  /** The number of members in a range. */
  function CountIn(words: seq<Word>, a: nat, b: nat): nat
    requires a <= b <= WORD_BITS * |words|
  {
    PopCount(Bits(words)[a..b])
  }

  method RangePopcount(words: seq<Word>, bitStart: nat, bitEnd: nat) returns (count: nat)
    requires bitEnd <= WORD_BITS * |words|
    ensures count == if bitStart < bitEnd then CountIn(words, bitStart, bitEnd) else 0
  {
    if bitStart >= bitEnd {
      return 0;
    }
    hide PopCount, Bits, ShiftLeft, ShiftRight, CountIn;
    var wordIndex := bitStart / WORD_BITS;
    var wordEnd := bitEnd / WORD_BITS;
    var low := bitStart % WORD_BITS;
    var word := ShiftRight(words[wordIndex], low);
    if wordEnd == wordIndex {
      PopCountInWord(words, wordIndex, low, low + (bitEnd - bitStart));
      return PopCount(ShiftLeft(word, WORD_BITS - (bitEnd - bitStart)));
    }
    PopCountOfTail(words, wordIndex, low);
    count := PopcountRest(words, bitStart, wordIndex + 1, bitEnd, PopCount(word));
  }

  /** Counts on from a word boundary: whole words, then the front of the last one. */
  method PopcountRest(words: seq<Word>, bitStart: nat, firstWord: nat, bitEnd: nat, counted: nat) returns (count: nat)
    requires bitStart <= WORD_BITS * firstWord <= bitEnd <= WORD_BITS * |words|
    requires counted == CountIn(words, bitStart, WORD_BITS * firstWord)
    ensures count == CountIn(words, bitStart, bitEnd)
  {
    hide PopCount, Bits, ShiftLeft, CountIn;
    count := counted;
    var wordEnd := bitEnd / WORD_BITS;
    var wordIndex := firstWord;
    while wordIndex < wordEnd
      invariant wordIndex <= wordEnd && bitStart <= WORD_BITS * wordIndex
      invariant count == CountIn(words, bitStart, WORD_BITS * wordIndex)
    {
      count := count + PopCount(words[wordIndex]);
      PopCountAppend(words, bitStart, wordIndex, WORD_BITS);
      wordIndex := wordIndex + 1;
    }
    var lastWordBits := bitEnd - wordIndex * WORD_BITS;
    if lastWordBits > 0 {
      count := count + PopCount(ShiftLeft(words[wordIndex], WORD_BITS - lastWordBits));
      PopCountOfHead(words[wordIndex], lastWordBits);
      PopCountAppend(words, bitStart, wordIndex, lastWordBits);
    }
  }

  lemma PopCountInWord(words: seq<Word>, k: nat, a: nat, b: nat)
    requires k < |words| && a < b < WORD_BITS
    ensures PopCount(ShiftLeft(ShiftRight(words[k], a), WORD_BITS - (b - a)))
            == CountIn(words, WORD_BITS * k + a, WORD_BITS * k + b)
  {
    hide PopCount, Bits, ShiftLeft, ShiftRight;
    PopCountOfShifts(words[k], a, b);
    BitsInWord(words, k, a, b);
  }

  lemma PopCountOfHead(w: Word, n: nat)
    requires 0 < n < WORD_BITS
    ensures PopCount(ShiftLeft(w, WORD_BITS - n)) == PopCount(w[..n])
  {
    hide PopCount;
    assert ShiftRight(w, 0) == w;
    PopCountOfShifts(w, 0, n);
  }

  lemma PopCountOfTail(words: seq<Word>, k: nat, low: nat)
    requires k < |words| && low < WORD_BITS
    ensures PopCount(ShiftRight(words[k], low)) == CountIn(words, WORD_BITS * k + low, WORD_BITS * (k + 1))
  {
    hide PopCount, Bits;
    BitsInWord(words, k, low, WORD_BITS);
    assert words[k][low..WORD_BITS] == words[k][low..];
    PopCountConcat(words[k][low..], Run(low, false));
    PopCountRun(low, false);
  }

  lemma PopCountAppend(words: seq<Word>, a: nat, k: nat, n: nat)
    requires k < |words| && a <= WORD_BITS * k && n <= WORD_BITS
    ensures CountIn(words, a, WORD_BITS * k + n) == CountIn(words, a, WORD_BITS * k) + PopCount(words[k][..n])
    ensures n == WORD_BITS ==> words[k][..n] == words[k]
  {
    hide PopCount, Bits;
    BitsInWord(words, k, 0, n);
    PopCountSplit(Bits(words), a, WORD_BITS * k, WORD_BITS * k + n);
  }

  ghost predicate Uniform(s: seq<bool>, a: nat, b: nat, value: bool) {
    b <= |s| && forall i :: a <= i < b ==> s[i] == value
  }

  lemma UniformInWord(words: seq<Word>, k: nat, a: nat, b: nat, value: bool)
    requires k < |words| && a <= b <= WORD_BITS && Uniform(words[k], a, b, value)
    ensures Uniform(Bits(words), WORD_BITS * k + a, WORD_BITS * k + b, value)
  {
    hide Bits;
    forall i | WORD_BITS * k + a <= i < WORD_BITS * k + b ensures Bits(words)[i] == value {
      BitAt(words, k, i - WORD_BITS * k);
    }
  }

  lemma UniformNot(w: Word, a: nat, b: nat)
    requires Uniform(Not(w), a, b, false)
    ensures Uniform(w, a, b, true)
  {
    forall i | a <= i < b ensures w[i] {
      assert Not(w)[i] == !w[i];
    }
  }

  /** The least bit of a shifted word, if it has one, is the first one at or past `low`. */
  lemma FirstInWord(w: Word, low: nat)
    requires low < WORD_BITS
    ensures var v := ShiftRight(w, low);
            if v == Zeros() then Uniform(w, low, WORD_BITS, false)
            else
              var n := TrailingZeros(v);
              low + n < WORD_BITS && Uniform(w, low, low + n, false) && w[low + n]
  {
    var v := ShiftRight(w, low);
    if v == Zeros() {
      forall i | low <= i < WORD_BITS ensures !w[i] {
        assert w[i] == v[i - low] == Zeros()[i - low];
      }
    } else {
      var n := TrailingZeros(v);
      forall i | low <= i < low + n && i < WORD_BITS ensures !w[i] {
        assert w[i] == v[i - low];
      }
    }
  }

  /** The first clear bit at or after bitStart, or the size of the set. */
  method FindFirstClear(words: seq<Word>, bitStart: nat) returns (bit: nat)
    requires bitStart < WORD_BITS * |words|
    ensures bitStart <= bit <= WORD_BITS * |words|
    ensures Uniform(Bits(words), bitStart, bit, true)
    ensures bit < WORD_BITS * |words| ==> !Bits(words)[bit]
  {
    hide Bits, ShiftRight;
    var wordStart := bitStart / WORD_BITS;
    var low := bitStart % WORD_BITS;
    var word := ShiftRight(Not(words[wordStart]), low);
    FirstInWord(Not(words[wordStart]), low);
    if word != Zeros() {
      var offset := 0;
      if !word[0] {
        offset := TrailingZeros(word);
      }
      UniformNot(words[wordStart], low, low + TrailingZeros(word));
      UniformInWord(words, wordStart, low, low + TrailingZeros(word), true);
      BitAt(words, wordStart, low + TrailingZeros(word));
      return bitStart + offset;
    }
    UniformNot(words[wordStart], low, WORD_BITS);
    UniformInWord(words, wordStart, low, WORD_BITS, true);
    for i := wordStart + 1 to |words|
      invariant Uniform(Bits(words), bitStart, WORD_BITS * i, true)
    {
      word := Not(words[i]);
      FirstInWhole(word);
      if word != Zeros() {
        UniformNot(words[i], 0, TrailingZeros(word));
        UniformInWord(words, i, 0, TrailingZeros(word), true);
        BitAt(words, i, TrailingZeros(word));
        return i * WORD_BITS + TrailingZeros(word);
      }
      UniformNot(words[i], 0, WORD_BITS);
      UniformInWord(words, i, 0, WORD_BITS, true);
    }
    return WORD_BITS * |words|;
  }

  lemma FirstInWhole(w: Word)
    ensures w == Zeros() ==> Uniform(w, 0, WORD_BITS, false)
    ensures w != Zeros() ==> Uniform(w, 0, TrailingZeros(w), false)
  {
  }

  /** At or past bitEnd exactly when the range is clear; otherwise the first set bit of the range. */
  method FindFirstSet(words: seq<Word>, bitStart: nat, bitEnd: nat) returns (bit: nat)
    requires bitStart < WORD_BITS * |words| && bitEnd <= WORD_BITS * |words|
    ensures bit >= bitEnd <==> Uniform(Bits(words), bitStart, bitEnd, false)
    ensures bit < bitEnd ==> bitStart <= bit && Bits(words)[bit] && Uniform(Bits(words), bitStart, bit, false)
  {
    hide Bits, ShiftRight;
    var wordStart := bitStart / WORD_BITS;
    var low := bitStart % WORD_BITS;
    var word := ShiftRight(words[wordStart], low);
    FirstInWord(words[wordStart], low);
    if word != Zeros() {
      var offset := 0;
      if !word[0] {
        offset := TrailingZeros(word);
      }
      UniformInWord(words, wordStart, low, low + TrailingZeros(word), false);
      BitAt(words, wordStart, low + TrailingZeros(word));
      return bitStart + offset;
    }
    UniformInWord(words, wordStart, low, WORD_BITS, false);
    var wordEnd := (bitEnd + WORD_BITS - 1) / WORD_BITS;
    var i := wordStart + 1;
    while i < wordEnd
      invariant i <= |words| && (i <= wordEnd || i == wordStart + 1)
      invariant Uniform(Bits(words), bitStart, WORD_BITS * i, false)
    {
      word := words[i];
      FirstInWhole(word);
      if word != Zeros() {
        UniformInWord(words, i, 0, TrailingZeros(word), false);
        BitAt(words, i, TrailingZeros(word));
        return i * WORD_BITS + TrailingZeros(word);
      }
      UniformInWord(words, i, 0, WORD_BITS, false);
      i := i + 1;
    }
    return bitEnd;
  }

  /** Sets or clears the bits of a range. */
  function Painted(s: seq<bool>, a: nat, b: nat, value: bool): (r: seq<bool>)
    ensures |r| == |s|
    ensures forall i :: 0 <= i < |s| ==> r[i] == if a <= i < b then value else s[i]
  {
    seq(|s|, i requires 0 <= i < |s| => if a <= i < b then value else s[i])
  }

  /** Painting part of one word paints the same part of the set. */
  lemma PaintWord(words: seq<Word>, k: nat, a: nat, b: nat, value: bool, w: Word)
    requires k < |words| && a <= b <= WORD_BITS && w == Painted(words[k], a, b, value)
    ensures Bits(words[k := w]) == Painted(Bits(words), WORD_BITS * k + a, WORD_BITS * k + b, value)
  {
    hide Bits;
    var s, r := Bits(words), Bits(words[k := w]);
    forall i | 0 <= i < |s| ensures r[i] == if WORD_BITS * k + a <= i < WORD_BITS * k + b then value else s[i] {
      var k', j := i / WORD_BITS, i % WORD_BITS;
      BitAt(words, k', j);
      BitAt(words[k := w], k', j);
      if k' < k {
        assert WORD_BITS * k' + j < WORD_BITS * k;
      } else if k' > k {
        assert WORD_BITS * k' + j >= WORD_BITS * k + WORD_BITS;
      }
    }
  }

  lemma PaintOn(s: seq<bool>, a: nat, b: nat, c: nat, value: bool)
    requires a <= b <= c
    ensures Painted(Painted(s, a, b, value), b, c, value) == Painted(s, a, c, value)
  {
  }

  /** The masks of the three kinds of word. */
  lemma Masks(w: Word, a: nat, b: nat)
    requires a < WORD_BITS && 0 < b < WORD_BITS
    ensures Or(w, ShiftLeft(Ones(), a)) == Painted(w, a, WORD_BITS, true)
    ensures And(w, Not(ShiftLeft(Ones(), a))) == Painted(w, a, WORD_BITS, false)
    ensures Or(w, LowBits(b)) == Painted(w, 0, b, true)
    ensures And(w, Not(LowBits(b))) == Painted(w, 0, b, false)
    ensures Ones() == Painted(w, 0, WORD_BITS, true) && Zeros() == Painted(w, 0, WORD_BITS, false)
  {
  }

  lemma InnerMask(w: Word, a: nat, b: nat)
    requires a < b < WORD_BITS
    ensures Or(w, ShiftLeft(LowBits(b - a), a)) == Painted(w, a, b, true)
    ensures And(w, Not(ShiftLeft(LowBits(b - a), a))) == Painted(w, a, b, false)
  {
    var mask := ShiftLeft(LowBits(b - a), a);
    forall i | 0 <= i < WORD_BITS ensures mask[i] == (a <= i < b) {
    }
  }

  method SetRange(words: seq<Word>, bitStart: nat, bitEnd: nat) returns (r: seq<Word>)
    requires bitEnd <= WORD_BITS * |words|
    ensures |r| == |words| && Bits(r) == Painted(Bits(words), bitStart, bitEnd, true)
  {
    hide Bits, ShiftLeft, Or, And, Not, LowBits;
    if bitStart >= bitEnd {
      assert Bits(words) == Painted(Bits(words), bitStart, bitEnd, true);
      return words;
    }
    hide Painted;
    var wordStart := bitStart / WORD_BITS;
    var wordEnd := bitEnd / WORD_BITS;
    var low := bitStart % WORD_BITS;
    if wordEnd == wordStart {
      var mask := ShiftLeft(LowBits(bitEnd % WORD_BITS - low), low);
      InnerMask(words[wordStart], low, bitEnd % WORD_BITS);
      r := words[wordStart := Or(words[wordStart], mask)];
      PaintWord(words, wordStart, low, bitEnd % WORD_BITS, true, r[wordStart]);
      return;
    }
    Masks(words[wordStart], low, 1);
    r := words[wordStart := Or(words[wordStart], ShiftLeft(Ones(), low))];
    PaintWord(words, wordStart, low, WORD_BITS, true, r[wordStart]);
    for i := wordStart + 1 to wordEnd
      invariant |r| == |words| && Bits(r) == Painted(Bits(words), bitStart, WORD_BITS * i, true)
    {
      Masks(r[i], 0, 1);
      PaintWord(r, i, 0, WORD_BITS, true, Ones());
      PaintOn(Bits(words), bitStart, WORD_BITS * i, WORD_BITS * (i + 1), true);
      r := r[i := Ones()];
    }
    var lastWordBits := bitEnd - wordEnd * WORD_BITS;
    if lastWordBits > 0 {
      Masks(r[wordEnd], 0, lastWordBits);
      var last := Or(r[wordEnd], LowBits(lastWordBits));
      PaintWord(r, wordEnd, 0, lastWordBits, true, last);
      PaintOn(Bits(words), bitStart, WORD_BITS * wordEnd, bitEnd, true);
      r := r[wordEnd := last];
    }
  }

  method ClearRange(words: seq<Word>, bitStart: nat, bitEnd: nat) returns (r: seq<Word>)
    requires bitEnd <= WORD_BITS * |words|
    ensures |r| == |words| && Bits(r) == Painted(Bits(words), bitStart, bitEnd, false)
  {
    hide Bits, ShiftLeft, Or, And, Not, LowBits;
    if bitStart >= bitEnd {
      assert Bits(words) == Painted(Bits(words), bitStart, bitEnd, false);
      return words;
    }
    hide Painted;
    var wordStart := bitStart / WORD_BITS;
    var wordEnd := bitEnd / WORD_BITS;
    var low := bitStart % WORD_BITS;
    if wordEnd == wordStart {
      var mask := ShiftLeft(LowBits(bitEnd % WORD_BITS - low), low);
      InnerMask(words[wordStart], low, bitEnd % WORD_BITS);
      r := words[wordStart := And(words[wordStart], Not(mask))];
      PaintWord(words, wordStart, low, bitEnd % WORD_BITS, false, r[wordStart]);
      return;
    }
    Masks(words[wordStart], low, 1);
    r := words[wordStart := And(words[wordStart], Not(ShiftLeft(Ones(), low)))];
    PaintWord(words, wordStart, low, WORD_BITS, false, r[wordStart]);
    for i := wordStart + 1 to wordEnd
      invariant |r| == |words| && Bits(r) == Painted(Bits(words), bitStart, WORD_BITS * i, false)
    {
      Masks(r[i], 0, 1);
      PaintWord(r, i, 0, WORD_BITS, false, Zeros());
      PaintOn(Bits(words), bitStart, WORD_BITS * i, WORD_BITS * (i + 1), false);
      r := r[i := Zeros()];
    }
    var lastWordBits := bitEnd - wordEnd * WORD_BITS;
    if lastWordBits > 0 {
      Masks(r[wordEnd], 0, lastWordBits);
      var last := And(r[wordEnd], Not(LowBits(lastWordBits)));
      PaintWord(r, wordEnd, 0, lastWordBits, false, last);
      PaintOn(Bits(words), bitStart, WORD_BITS * wordEnd, bitEnd, false);
      r := r[wordEnd := last];
    }
  }
}
