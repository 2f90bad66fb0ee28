/** Memory for packets, carved out of windows of 2048 units that a bit mask each keeps track of. */
module PacketAllocators {
  import opened BitSets

  const UNIT_SIZE: nat := 16
  const WINDOW_UNITS: nat := 2048
  const WINDOW_WORDS: nat := 32
  const FALLBACK_UNITS: nat := 512
  const PREFERRED_UNITS: nat := 1536
  const PREALLOCATED: nat := 2
  const NOT_IN_FULL_LIST: int := -1

  datatype Window = Window(used: seq<Word>, freeUnitCount: nat, resumeScanOffset: nat, fullListIndex: int)

  /** The start of an allocated region: units of a window, or memory of its own. */
  datatype Ptr = Null | InWindow(window: nat, start: nat) | Fallback(id: nat)

  // ----- who owns what

  /** Unit u of window w belongs to a live region. */
  ghost predicate Owned(regions: map<Ptr, nat>, w: nat, u: nat) {
    exists s: nat :: InWindow(w, s) in regions && s <= u < s + regions[InWindow(w, s)]
  }

  /** Live regions lie within their windows and do not overlap. */
  ghost predicate RegionsOk(regions: map<Ptr, nat>, windowCount: nat) {
    && Null !in regions
    && (forall w: nat, s: nat :: InWindow(w, s) in regions ==>
         w < windowCount && regions[InWindow(w, s)] > 0 && s + regions[InWindow(w, s)] <= WINDOW_UNITS)
    && (forall w: nat, s: nat, t: nat :: InWindow(w, s) in regions && InWindow(w, t) in regions && s < t ==>
         s + regions[InWindow(w, s)] <= t)
  }

  ghost predicate UsedOk(used: seq<Word>, regions: map<Ptr, nat>, w: nat) {
    |used| == WINDOW_WORDS && forall u :: 0 <= u < WINDOW_UNITS ==> (Bits(used)[u] <==> Owned(regions, w, u))
  }

  /** A unit is marked exactly when a live region owns it, and the rest is counted as free. */
  ghost predicate WindowOk(win: Window, regions: map<Ptr, nat>, w: nat) {
    && UsedOk(win.used, regions, w)
    && win.freeUnitCount == WINDOW_UNITS - PopCount(Bits(win.used))
    && win.resumeScanOffset <= WINDOW_UNITS
  }

  /** Every window is in exactly one list, at the place it thinks it is. */
  ghost predicate ListsOk(windows: seq<Window>, preferred: seq<nat>, full: seq<nat>) {
    && (forall i :: 0 <= i < |preferred| ==>
         preferred[i] < |windows| && windows[preferred[i]].fullListIndex == NOT_IN_FULL_LIST)
    && (forall i, j :: 0 <= i < j < |preferred| ==> preferred[i] != preferred[j])
    && (forall i :: 0 <= i < |full| ==> full[i] < |windows| && windows[full[i]].fullListIndex == i)
    && (forall w :: 0 <= w < |windows| ==> Listed(windows, preferred, full, w))
  }

  ghost predicate Listed(windows: seq<Window>, preferred: seq<nat>, full: seq<nat>, w: nat)
    requires w < |windows|
  {
    var i := windows[w].fullListIndex;
    if i == NOT_IN_FULL_LIST then w in preferred else 0 <= i < |full| && full[i] == w
  }

  lemma PopCountPainted(s: seq<bool>, a: nat, b: nat, value: bool)
    requires a <= b <= |s| && Uniform(s, a, b, !value)
    ensures PopCount(Painted(s, a, b, value)) == if value then PopCount(s) + (b - a) else PopCount(s) - (b - a)
  {
    hide PopCount, Painted, Run;
    PaintedParts(s, a, b, value);
    PopCountThree(s[..a], Run(b - a, !value), s[b..]);
    PopCountThree(s[..a], Run(b - a, value), s[b..]);
    PopCountRun(b - a, value);
    PopCountRun(b - a, !value);
  }

  lemma PaintedParts(s: seq<bool>, a: nat, b: nat, value: bool)
    requires a <= b <= |s| && Uniform(s, a, b, !value)
    ensures s == s[..a] + Run(b - a, !value) + s[b..] && Painted(s, a, b, value) == s[..a] + Run(b - a, value) + s[b..]
  {
  }

  lemma PopCountThree(a: seq<bool>, b: seq<bool>, c: seq<bool>)
    ensures PopCount(a + b + c) == PopCount(a) + PopCount(b) + PopCount(c)
  {
    hide PopCount;
    PopCountConcat(a + b, c);
    PopCountConcat(a, b);
  }

  /** Regions in other windows do not matter. */
  lemma OtherWindow(used: seq<Word>, regions: map<Ptr, nat>, regions': map<Ptr, nat>, v: nat)
    requires UsedOk(used, regions, v)
    requires forall s: nat :: InWindow(v, s) in regions <==> InWindow(v, s) in regions'
    requires forall s: nat :: InWindow(v, s) in regions ==> regions[InWindow(v, s)] == regions'[InWindow(v, s)]
    ensures UsedOk(used, regions', v)
  {
    forall u: nat | u < WINDOW_UNITS ensures Owned(regions, v, u) <==> Owned(regions', v, u) {
      if Owned(regions, v, u) {
        var s: nat :| InWindow(v, s) in regions && s <= u < s + regions[InWindow(v, s)];
        assert InWindow(v, s) in regions';
      }
      if Owned(regions', v, u) {
        var s: nat :| InWindow(v, s) in regions' && s <= u < s + regions'[InWindow(v, s)];
        assert InWindow(v, s) in regions;
      }
    }
  }

  /** Taking clear units makes a new region that overlaps no other. */
  lemma CarveRegions(used: seq<Word>, regions: map<Ptr, nat>, windowCount: nat, w: nat, s: nat, n: nat)
    requires RegionsOk(regions, windowCount) && UsedOk(used, regions, w) && w < windowCount
    requires 0 < n && s + n <= WINDOW_UNITS && Uniform(Bits(used), s, s + n, false)
    ensures InWindow(w, s) !in regions && RegionsOk(regions[InWindow(w, s) := n], windowCount)
  {
    hide Bits;
    forall t: nat | InWindow(w, t) in regions ensures t + regions[InWindow(w, t)] <= s || s + n <= t {
      var u := if t < s then s else t;
      assert u < t + regions[InWindow(w, t)] ==> Owned(regions, w, u);
    }
  }

  lemma CarveUsed(used: seq<Word>, used': seq<Word>, regions: map<Ptr, nat>, w: nat, s: nat, n: nat)
    requires UsedOk(used, regions, w) && InWindow(w, s) !in regions && s + n <= WINDOW_UNITS
    requires |used'| == WINDOW_WORDS && Bits(used') == Painted(Bits(used), s, s + n, true)
    ensures UsedOk(used', regions[InWindow(w, s) := n], w)
  {
    hide Bits;
    var p, regions' := InWindow(w, s), regions[InWindow(w, s) := n];
    forall u: nat | u < WINDOW_UNITS ensures Owned(regions', w, u) <==> s <= u < s + n || Owned(regions, w, u) {
      if s <= u < s + n {
        assert p in regions' && s <= u < s + regions'[p];
      }
      if Owned(regions, w, u) {
        var t: nat :| InWindow(w, t) in regions && t <= u < t + regions[InWindow(w, t)];
        assert InWindow(w, t) in regions' && regions'[InWindow(w, t)] == regions[InWindow(w, t)];
      }
      if Owned(regions', w, u) {
        var t: nat :| InWindow(w, t) in regions' && t <= u < t + regions'[InWindow(w, t)];
        assert t == s || InWindow(w, t) in regions;
      }
    }
  }

  /** A region, with its last units or all of it given back. */
  ghost function Reduced(regions: map<Ptr, nat>, p: Ptr, keep: nat): map<Ptr, nat> {
    if keep == 0 then regions - {p} else regions[p := keep]
  }

  /** Giving back the last units of a region clears exactly their bits. */
  lemma ReduceUsed(used: seq<Word>, used': seq<Word>, regions: map<Ptr, nat>, windowCount: nat, w: nat, s: nat,
      keep: nat)
    requires RegionsOk(regions, windowCount) && UsedOk(used, regions, w) && InWindow(w, s) in regions
             && keep < regions[InWindow(w, s)]
    requires |used'| == WINDOW_WORDS && Bits(used') == Painted(Bits(used), s + keep, s + regions[InWindow(w, s)], false)
    ensures UsedOk(used', Reduced(regions, InWindow(w, s), keep), w)
    ensures Uniform(Bits(used), s + keep, s + regions[InWindow(w, s)], true)
  {
    hide Bits;
    var p := InWindow(w, s);
    var n, regions' := regions[p], Reduced(regions, p, keep);
    forall u: nat | s <= u < s + n ensures Owned(regions, w, u) {
      assert p in regions;
    }
    forall u: nat | u < WINDOW_UNITS
      ensures Owned(regions', w, u) <==> Owned(regions, w, u) && !(s + keep <= u < s + n)
    {
      if Owned(regions', w, u) {
        var t: nat :| InWindow(w, t) in regions' && t <= u < t + regions'[InWindow(w, t)];
        assert InWindow(w, t) in regions;
      }
      if Owned(regions, w, u) && !(s + keep <= u < s + n) {
        var t: nat :| InWindow(w, t) in regions && t <= u < t + regions[InWindow(w, t)];
        assert InWindow(w, t) in regions';
      }
    }
  }

  lemma ReduceRegions(regions: map<Ptr, nat>, windowCount: nat, p: Ptr, keep: nat)
    requires RegionsOk(regions, windowCount) && p in regions && keep < regions[p]
    ensures RegionsOk(Reduced(regions, p, keep), windowCount)
  {
  }

  // ----- searching

  ghost predicate IsHole(used: seq<Word>, s: nat, units: nat) {
    s + units <= WINDOW_UNITS && Uniform(Bits(used), s, s + units, false)
  }

  /** The first hole of the given size at or after an offset, if there is one. */
  method FindHole(used: seq<Word>, from: nat, units: nat) returns (found: bool, start: nat)
    requires |used| == WINDOW_WORDS && 2 <= units <= FALLBACK_UNITS
    ensures found ==> from <= start && IsHole(used, start, units)
    ensures forall s :: from <= s && (found ==> s < start) ==> !IsHole(used, s, units)
  {
    hide Bits;
    var regionStart := from;
    while regionStart < WINDOW_UNITS
      invariant from <= regionStart
      invariant forall s :: from <= s < regionStart ==> !IsHole(used, s, units)
    {
      var clear := FindFirstClear(used, regionStart);
      forall s | regionStart <= s < clear ensures !IsHole(used, s, units) {
        assert Bits(used)[s];
      }
      regionStart := clear;
      if regionStart + units > WINDOW_UNITS {
        return false, 0;
      }
      var regionEnd := FindFirstSet(used, regionStart + 1, regionStart + units);
      if regionEnd - regionStart >= units {
        return true, regionStart;
      }
      forall s | regionStart <= s <= regionEnd ensures !IsHole(used, s, units) {
        assert Bits(used)[regionEnd];
      }
      regionStart := regionEnd + 1;
    }
    return false, 0;
  }

  /** A window in which the scan finds a hole of the given size. */
  ghost predicate HasRoom(win: Window, units: nat) {
    win.freeUnitCount >= units && exists s: nat :: win.resumeScanOffset <= s && IsHole(win.used, s, units)
  }

  /** Some window of a list is one. */
  ghost predicate SomeHasRoom(windows: seq<Window>, preferred: seq<nat>, units: nat) {
    exists i :: 0 <= i < |preferred| && preferred[i] < |windows| && HasRoom(windows[preferred[i]], units)
  }

  function UnitsFor(bytes: nat): nat { (bytes + UNIT_SIZE - 1) / UNIT_SIZE + 1 }

  class Allocator {
    var windows: seq<Window>
    var preferred: seq<nat>
    var full: seq<nat>

    /** The live regions with their sizes in units, as their headers have them. */
    var regions: map<Ptr, nat>
    var nextFallback: nat

    ghost predicate Valid()
      reads this
    {
      && RegionsOk(regions, |windows|)
      && (forall w :: 0 <= w < |windows| ==> WindowOk(windows[w], regions, w))
      && ListsOk(windows, preferred, full)
      && (forall id: nat :: Fallback(id) in regions ==> id < nextFallback)
    }

    constructor ()
      ensures Valid() && regions == map[]
    {
      windows := seq(PREALLOCATED, i => EmptyWindow());
      preferred, full, regions, nextFallback := [0, 1], [], map[], 0;
      new;
      EmptyWindowOk(0);
      EmptyWindowOk(1);
    }

    static function EmptyWindow(): Window { Window(seq(WINDOW_WORDS, i => Zeros()), WINDOW_UNITS, 0, NOT_IN_FULL_LIST) }

    static lemma EmptyWindowOk(w: nat)
      ensures WindowOk(EmptyWindow(), map[], w)
    {
      var used := EmptyWindow().used;
      assert Bits(used) == Run(WINDOW_UNITS, false);
      PopCountRun(WINDOW_UNITS, false);
    }

    /** Marks a hole of a window as a new region. */
    method Carve(w: nat, start: nat, units: nat)
      requires Valid() && w < |windows| && IsHole(windows[w].used, start, units) && units > 0
      modifies this`windows, this`regions
      ensures Valid() && InWindow(w, start) !in old(regions) && regions == old(regions)[InWindow(w, start) := units]
      ensures |windows| == |old(windows)|
    {
      hide Bits, PopCount, Owned;
      var win := windows[w];
      var p := InWindow(w, start);
      CarveRegions(win.used, regions, |windows|, w, start, units);
      var used := SetRange(win.used, start, start + units);
      CarveUsed(win.used, used, regions, w, start, units);
      PopCountPainted(Bits(win.used), start, start + units, true);
      PopCountBound(Bits(used));
      windows := windows[w := win.(used := used, freeUnitCount := win.freeUnitCount - units,
          resumeScanOffset := start + units)];
      regions := regions[p := units];
      OthersStay(old(windows), old(regions), w);
      RelistedOk(old(windows), w);
    }

    /** The other windows after a change in one. */
    lemma OthersStay(before: seq<Window>, regions0: map<Ptr, nat>, w: nat)
      requires |windows| == |before| && w < |windows| && WindowOk(windows[w], regions, w)
      requires forall v :: 0 <= v < |windows| && v != w ==> windows[v] == before[v] && WindowOk(before[v], regions0, v)
      requires forall v: nat, s: nat :: v != w ==> (InWindow(v, s) in regions0 <==> InWindow(v, s) in regions)
      requires forall v: nat, s: nat :: v != w && InWindow(v, s) in regions0 ==>
                 regions[InWindow(v, s)] == regions0[InWindow(v, s)]
      ensures forall v :: 0 <= v < |windows| ==> WindowOk(windows[v], regions, v)
    {
      hide UsedOk, Bits;
      forall v: nat | v < |windows| ensures WindowOk(windows[v], regions, v) {
        if v != w {
          OtherWindow(before[v].used, regions0, regions, v);
        }
      }
    }

    /** The lists do not depend on what a window holds. */
    lemma RelistedOk(before: seq<Window>, w: nat)
      requires ListsOk(before, preferred, full) && |windows| == |before| && w < |windows|
      requires forall v :: 0 <= v < |windows| ==> windows[v].fullListIndex == before[v].fullListIndex
      ensures ListsOk(windows, preferred, full)
    {
      forall v: nat | v < |windows| ensures Listed(windows, preferred, full, v) {
        assert Listed(before, preferred, full, v);
      }
    }

    /** Allocates memory: a new region that overlaps no live one.  It lies in a preferred window if one of them
        has room for it, and otherwise at the front of a new window; a large one gets memory of its own. */
    method Allocate(bytes: nat) returns (p: Ptr)
      requires Valid()
      modifies this
      ensures Valid() && (p.Null? <==> bytes == 0)
      ensures p.Null? ==> regions == old(regions)
      ensures !p.Null? ==> p !in old(regions) && regions == old(regions)[p := UnitsFor(bytes)]
      ensures p.Fallback? <==> bytes > 0 && UnitsFor(bytes) > FALLBACK_UNITS
      ensures p.InWindow? ==>
                if SomeHasRoom(old(windows), old(preferred), UnitsFor(bytes))
                then |windows| == |old(windows)| && p.window in old(preferred)
                else |windows| == |old(windows)| + 1 && p == InWindow(|old(windows)|, 0)
    {
      hide WindowOk, ListsOk, IsHole, RegionsOk;
      if bytes == 0 {
        return Null;
      }
      var units := UnitsFor(bytes);
      if units > FALLBACK_UNITS {
        p := AllocateFallback(units);
        return;
      }
      var i := |preferred|;
      while i > 0
        invariant 0 <= i <= |preferred| && unchanged(this)
        invariant forall k :: i <= k < |preferred| ==>
                    preferred[k] < |windows| && !HasRoom(windows[preferred[k]], units)
      {
        i := i - 1;
        InPreferred(i);
        var w := preferred[i];
        if windows[w].freeUnitCount >= units {
          var found, start := FindHole(windows[w].used, windows[w].resumeScanOffset, units);
          if found {
            assert HasRoom(windows[w], units);
            Carve(w, start, units);
            var fullCount := |preferred| - 1 - i;
            if start + units * 2 > WINDOW_UNITS {
              fullCount := fullCount + 1;
            }
            MoveLastFewWindowsToFull(fullCount);
            return InWindow(w, start);
          }
        }
      }
      MoveLastFewWindowsToFull(|preferred|);
      p := AllocateFromNewWindow(units);
    }

    lemma InPreferred(i: nat)
      requires Valid() && i < |preferred|
      ensures preferred[i] < |windows| && |windows[preferred[i]].used| == WINDOW_WORDS
    {
      assert WindowOk(windows[preferred[i]], regions, preferred[i]);
    }

    method AllocateFallback(units: nat) returns (p: Ptr)
      requires Valid() && units > 0
      modifies this`regions, this`nextFallback
      ensures Valid() && p.Fallback? && p !in old(regions) && regions == old(regions)[p := units]
    {
      hide Bits, PopCount, Owned, ListsOk;
      p := Fallback(nextFallback);
      nextFallback := nextFallback + 1;
      ghost var before := regions;
      regions := regions[p := units];
      forall w: nat | w < |windows| ensures WindowOk(windows[w], regions, w) {
        assert WindowOk(windows[w], before, w);
        OtherWindow(windows[w].used, before, regions, w);
      }
    }

    /** Moves the last windows of the preferred list to the full list, the last one first. */
    method MoveLastFewWindowsToFull(count: nat)
      requires Valid() && count <= |preferred|
      modifies this`windows, this`preferred, this`full
      ensures Valid() && |windows| == |old(windows)| && |preferred| == |old(preferred)| - count
    {
      hide WindowOk, RegionsOk, ListsOk;
      for i := 0 to count
        invariant Valid() && |windows| == |old(windows)| && |preferred| == |old(preferred)| - i
      {
        MoveLast();
      }
    }

    method MoveLast()
      requires Valid() && preferred != []
      modifies this`windows, this`preferred, this`full
      ensures Valid() && |windows| == |old(windows)| && |preferred| == |old(preferred)| - 1
    {
      hide UsedOk, Bits, PopCount, RegionsOk;
      var w := preferred[|preferred| - 1];
      windows := windows[w := windows[w].(fullListIndex := |full|)];
      full := full + [w];
      preferred := preferred[..|preferred| - 1];
      forall v: nat | v < |windows| ensures WindowOk(windows[v], regions, v) {
        assert WindowOk(old(windows)[v], regions, v);
      }
      MovedLists(old(windows), old(preferred), old(full), w);
    }

    lemma MovedLists(windows0: seq<Window>, preferred0: seq<nat>, full0: seq<nat>, w: nat)
      requires ListsOk(windows0, preferred0, full0) && preferred0 != [] && w == preferred0[|preferred0| - 1]
      requires windows == windows0[w := windows0[w].(fullListIndex := |full0|)] && full == full0 + [w]
               && preferred == preferred0[..|preferred0| - 1]
      ensures ListsOk(windows, preferred, full)
    {
      forall v: nat | v < |windows| ensures Listed(windows, preferred, full, v) {
        assert Listed(windows0, preferred0, full0, v);
        if v != w && v in preferred0 {
          var i :| 0 <= i < |preferred0| && preferred0[i] == v;
          assert preferred[i] == v;
        }
      }
    }

    method AllocateFromNewWindow(units: nat) returns (p: Ptr)
      requires Valid() && 0 < units <= FALLBACK_UNITS
      modifies this`windows, this`preferred, this`regions
      ensures Valid() && p == InWindow(|old(windows)|, 0) && |windows| == |old(windows)| + 1
      ensures p !in old(regions) && regions == old(regions)[p := units]
    {
      hide UsedOk, Bits, PopCount, ListsOk;
      var w := |windows|;
      AddWindow();
      Carve(w, 0, units);
      p := InWindow(w, 0);
    }

    method AddWindow()
      requires Valid()
      modifies this`windows, this`preferred
      ensures Valid() && |windows| == |old(windows)| + 1 && IsHole(windows[|old(windows)|].used, 0, WINDOW_UNITS)
    {
      hide Bits, PopCount;
      var w := |windows|;
      windows := windows + [EmptyWindow()];
      preferred := preferred + [w];
      NewWindowOk(w);
      forall v: nat | v < |windows| ensures Listed(windows, preferred, full, v) {
        assert v < w ==> Listed(old(windows), old(preferred), full, v);
      }
    }

    lemma NewWindowOk(w: nat)
      requires RegionsOk(regions, w)
      ensures WindowOk(EmptyWindow(), regions, w) && IsHole(EmptyWindow().used, 0, WINDOW_UNITS)
    {
      EmptyWindowOk(w);
      OtherWindow(EmptyWindow().used, map[], regions, w);
      assert Bits(EmptyWindow().used) == Run(WINDOW_UNITS, false);
    }

    /** Gives back the units of a region past the first `keep`. */
    method GiveBack(w: nat, start: nat, keep: nat)
      requires Valid() && InWindow(w, start) in regions && keep < regions[InWindow(w, start)]
      modifies this`windows, this`regions
      ensures Valid() && regions == Reduced(old(regions), InWindow(w, start), keep)
      ensures |windows| == |old(windows)| && w < |windows| && windows[w].fullListIndex == old(windows)[w].fullListIndex
    {
      hide Bits, PopCount, Owned;
      var p := InWindow(w, start);
      var win, units := windows[w], regions[p];
      var from := start + keep;
      var resume := if win.resumeScanOffset > from then from else win.resumeScanOffset;
      var used := ClearRange(win.used, from, start + units);
      ReduceUsed(win.used, used, regions, |windows|, w, start, keep);
      ReduceRegions(regions, |windows|, p, keep);
      PopCountPainted(Bits(win.used), from, start + units, false);
      PopCountBound(Bits(win.used));
      windows := windows[w := win.(used := used, freeUnitCount := win.freeUnitCount + (units - keep),
          resumeScanOffset := resume)];
      regions := if keep == 0 then regions - {p} else regions[p := keep];
      OthersStay(old(windows), old(regions), w);
      RelistedOk(old(windows), w);
    }

    /** Frees a region; a window that becomes mostly free is preferred again. */
    method Free(p: Ptr)
      requires Valid() && (p.Null? || p in regions)
      modifies this
      ensures Valid() && regions == old(regions) - {p}
    {
      hide WindowOk, ListsOk, RegionsOk;
      match p
      case Null =>
        NullIsNoRegion();
      case Fallback(id) =>
        FreeFallback(p);
      case InWindow(w, start) =>
        HasUnits(p);
        GiveBack(w, start, 0);
        if windows[w].freeUnitCount >= PREFERRED_UNITS && windows[w].fullListIndex != NOT_IN_FULL_LIST {
          Promote(w);
        }
    }

    lemma NullIsNoRegion()
      requires Valid()
      ensures regions - {Null} == regions
    {
    }

    lemma HasUnits(p: Ptr)
      requires Valid() && p in regions && p.InWindow?
      ensures 0 < regions[p]
    {
      var InWindow(w, s) := p;
    }

    method FreeFallback(p: Ptr)
      requires Valid() && p.Fallback? && p in regions
      modifies this`regions
      ensures Valid() && regions == old(regions) - {p}
    {
      hide Bits, PopCount, Owned, ListsOk;
      ghost var before := regions;
      regions := regions - {p};
      forall w: nat | w < |windows| ensures WindowOk(windows[w], regions, w) {
        assert WindowOk(windows[w], before, w);
        OtherWindow(windows[w].used, before, regions, w);
      }
    }

    /** Moves a window from the full list to the preferred list; the last one of the full list takes
        its place. */
    method Promote(w: nat)
      requires Valid() && w < |windows| && windows[w].fullListIndex != NOT_IN_FULL_LIST
      modifies this`windows, this`preferred, this`full
      ensures Valid()
    {
      hide UsedOk, Bits, PopCount, RegionsOk;
      assert Listed(windows, preferred, full, w);
      var fullCount := |full|;
      var fullIndex := windows[w].fullListIndex;
      windows := windows[w := windows[w].(resumeScanOffset := 0)];
      if fullIndex < fullCount - 1 {
        var replacement := full[fullCount - 1];
        full := full[fullIndex := replacement];
        windows := windows[replacement := windows[replacement].(fullListIndex := fullIndex)];
      }
      full := full[..fullCount - 1];
      windows := windows[w := windows[w].(fullListIndex := NOT_IN_FULL_LIST)];
      preferred := preferred + [w];
      forall v: nat | v < |windows| ensures WindowOk(windows[v], regions, v) {
        assert WindowOk(old(windows)[v], regions, v);
      }
      PromotedLists(old(windows), old(preferred), old(full), w);
    }

    lemma PromotedLists(windows0: seq<Window>, preferred0: seq<nat>, full0: seq<nat>, w: nat)
      requires ListsOk(windows0, preferred0, full0) && w < |windows0| == |windows|
               && windows0[w].fullListIndex != NOT_IN_FULL_LIST
      requires preferred == preferred0 + [w] && |full| == |full0| - 1 && windows[w].fullListIndex == NOT_IN_FULL_LIST
      requires var i := windows0[w].fullListIndex;
               && (forall j :: 0 <= j < |full| ==> full[j] == if j == i then full0[|full0| - 1] else full0[j])
               && (forall v :: 0 <= v < |windows| && v != w ==>
                     windows[v].fullListIndex == if v == full0[|full0| - 1] then i else windows0[v].fullListIndex)
      ensures ListsOk(windows, preferred, full)
    {
      var i, last := windows0[w].fullListIndex, full0[|full0| - 1];
      assert Listed(windows0, preferred0, full0, w);
      forall v: nat | v < |windows| ensures Listed(windows, preferred, full, v) {
        assert Listed(windows0, preferred0, full0, v);
        if v == w {
          assert preferred[|preferred0|] == w;
        }
      }
      forall j | 0 <= j < |full| ensures full[j] < |windows| && windows[full[j]].fullListIndex == j {
        assert windows0[full0[j]].fullListIndex == j;
      }
    }

    /** Shrinks a region in place; memory of its own, and a region that is small enough, stay as they are. */
    method Shrink(p: Ptr, bytes: nat)
      requires Valid() && (p.Null? || p in regions)
      modifies this`windows, this`regions
      ensures Valid()
      ensures regions ==
                if p.InWindow? && UnitsFor(bytes) < old(regions)[p] then old(regions)[p := UnitsFor(bytes)]
                else old(regions)
    {
      hide WindowOk, ListsOk, RegionsOk;
      if p.Null? {
        return;
      }
      var unitsNeeded := UnitsFor(bytes);
      if unitsNeeded < regions[p] && p.InWindow? {
        GiveBack(p.window, p.start, unitsNeeded);
      }
    }

    /** Makes a region at least as large as asked for, moving it when it has to grow. */
    method Reallocate(p: Ptr, bytes: nat) returns (q: Ptr)
      requires Valid() && (p.Null? || p in regions)
      modifies this
      ensures Valid()
      ensures bytes == 0 ==> q.Null? && regions == old(regions) - {p}
      ensures bytes > 0 && p != Null && UnitsFor(bytes) <= old(regions)[p] ==> q == p && regions == old(regions)
      ensures bytes > 0 && (p == Null || UnitsFor(bytes) > old(regions)[p]) ==>
                !q.Null? && q !in old(regions) && regions == (old(regions) - {p})[q := UnitsFor(bytes)]
    {
      hide WindowOk, ListsOk, RegionsOk;
      if p.Null? {
        NullIsNoRegion();
        q := Allocate(bytes);
        return;
      }
      if bytes == 0 {
        Free(p);
        return Null;
      }
      if UnitsFor(bytes) <= regions[p] {
        return p;
      }
      q := Allocate(bytes);
      Free(p);
    }

    /** Two live regions never share a unit, and a free unit belongs to none. */
    lemma LiveRegionsAreDisjoint(w: nat, s: nat, t: nat, u: nat)
      requires Valid() && InWindow(w, s) in regions && InWindow(w, t) in regions
      requires s <= u < s + regions[InWindow(w, s)] && t <= u < t + regions[InWindow(w, t)]
      ensures s == t && w < |windows| && |windows[w].used| == WINDOW_WORDS && Bits(windows[w].used)[u]
    {
      hide Bits, PopCount, ListsOk;
      assert WindowOk(windows[w], regions, w);
      assert Owned(regions, w, u);
    }
  }
}
