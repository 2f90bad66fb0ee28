/** An open-addressing hash table that probes downward and deletes without tombstones. */
module LightHashMaps {
  import opened Numbers
  import opened Options

  datatype Slot<K, V> = Empty | Full(key: K, value: V)

  const MIN_HASH_SIZE: nat := 4
  const HASH_PERIOD: int := 0x1_0000_0000

  /** Fibonacci hashing: the high bits of the product, as many as the size of the table has. */
  function Home(hash: nat, size: nat): (h: nat)
    requires size > 0
    ensures h < size
  {
    var x := (2654435769 * hash) % HASH_PERIOD;
    HomeBound(x, size);
    x * size / HASH_PERIOD
  }

  lemma HomeBound(x: nat, size: nat)
    requires x < HASH_PERIOD && size > 0
    ensures 0 <= x * size / HASH_PERIOD < size
  {
    var p := x * size;
    assert p < HASH_PERIOD * size;
    assert 0 <= p;
    hide *;
    assert p / HASH_PERIOD < size;
  }

  /** For the sizes that occur, the product is a shift to the right. */
  lemma HomeIsShift(x: nat, size: nat, unit: nat)
    requires size > 0 && size * unit == HASH_PERIOD
    ensures x * size / HASH_PERIOD == x / unit
  {
    var q, r := x / unit, x % unit;
    assert x == q * unit + r;
    assert x * size == q * HASH_PERIOD + r * size by {
      assert x * size == q * unit * size + r * size;
      assert q * unit * size == q * (size * unit);
    }
    assert r * size < HASH_PERIOD by {
      assert r + 1 <= unit;
      assert (r + 1) * size <= unit * size;
    }
    assert (q * HASH_PERIOD + r * size) / HASH_PERIOD == q;
  }

  function Down(i: nat, size: nat): (d: nat)
    requires i < size
    ensures d < size
  {
    if i == 0 then size - 1 else i - 1
  }

  /** Whether p is on the way down from h to s, before s is reached. */
  predicate Between(p: nat, s: nat, h: nat) {
    if s <= h then s < p <= h else p <= h || p > s
  }

  /** The number of steps down from i to e. */
  function Steps(i: nat, e: nat, size: nat): nat
    requires i < size && e < size
  {
    if i >= e then i - e else i - e + size
  }

  // ----- tables

  /** The key in slot i can be found: every slot on the way from its home is full, or is the hole. */
  ghost predicate Reachable<K, V>(hasher: K -> nat, s: seq<Slot<K, V>>, i: nat, hole: int)
    requires i < |s| && s[i].Full?
  {
    forall p :: 0 <= p < |s| && Between(p, i, Home(hasher(s[i].key), |s|)) ==> s[p].Full? || p == hole
  }

  ghost predicate AllReachable<K(!new), V(!new)>(hasher: K -> nat, s: seq<Slot<K, V>>, hole: int) {
    forall i :: 0 <= i < |s| && s[i].Full? ==> Reachable(hasher, s, i, hole)
  }

  /** The table holds exactly the given map, each key once. */
  ghost predicate Holds<K(!new), V(!new)>(s: seq<Slot<K, V>>, m: map<K, V>) {
    && (forall i :: 0 <= i < |s| && s[i].Full? ==> s[i].key in m && m[s[i].key] == s[i].value)
    && (forall k :: k in m ==> HasKey(s, k))
    && (forall i, j :: 0 <= i < j < |s| && s[i].Full? && s[j].Full? ==> s[i].key != s[j].key)
  }

  ghost predicate HasKey<K, V>(s: seq<Slot<K, V>>, k: K) {
    exists i :: 0 <= i < |s| && s[i].Full? && s[i].key == k
  }

  ghost predicate HasEmpty<K, V>(s: seq<Slot<K, V>>) {
    exists i :: 0 <= i < |s| && s[i].Empty?
  }

  /** A table with fewer entries than slots has an empty slot. */
  lemma {:induction false} FewerHasEmpty<K(!new), V(!new)>(s: seq<Slot<K, V>>, m: map<K, V>)
    requires Holds(s, m) && |m| < |s|
    ensures HasEmpty(s)
    decreases |s|
  {
    var last := s[|s| - 1];
    if last.Full? {
      var t, m' := s[..|s| - 1], m - {last.key};
      WithoutLast(s, m);
      hide Holds;
      RemoveKey(m, last.key);
      FewerHasEmpty(t, m');
      var i :| 0 <= i < |t| && t[i].Empty?;
      assert s[i].Empty?;
    }
  }

  lemma WithoutLast<K(!new), V(!new)>(s: seq<Slot<K, V>>, m: map<K, V>)
    requires Holds(s, m) && s != [] && s[|s| - 1].Full?
    ensures s[|s| - 1].key in m && Holds(s[..|s| - 1], m - {s[|s| - 1].key})
  {
    var last := s[|s| - 1];
    var t, m' := s[..|s| - 1], m - {last.key};
    forall k | k in m' ensures HasKey(t, k) {
      assert HasKey(s, k);
      var i :| 0 <= i < |s| && s[i].Full? && s[i].key == k;
      assert t[i] == s[i];
    }
  }

  lemma RemoveKey<K, V>(m: map<K, V>, k: K)
    requires k in m
    ensures |m - {k}| == |m| - 1
  {
    assert (m - {k}).Keys == m.Keys - {k};
    assert |m| == |m.Keys| && |m - {k}| == |(m - {k}).Keys|;
  }

  /** A probe that came down from the home of k to an empty slot without meeting k proves that k is absent. */
  lemma NotFound<K(!new), V(!new)>(hasher: K -> nat, s: seq<Slot<K, V>>, m: map<K, V>, k: K, e: nat)
    requires Holds(s, m) && AllReachable(hasher, s, -1) && e < |s| && s[e].Empty?
    requires forall p :: 0 <= p < |s| && Between(p, e, Home(hasher(k), |s|)) ==> s[p].Full? && s[p].key != k
    ensures k !in m
  {
    hide Home;
    forall i | 0 <= i < |s| && s[i].Full? ensures s[i].key != k {
      assert Reachable(hasher, s, i, -1);
      Order(e, i, Home(hasher(s[i].key), |s|));
    }
    assert !HasKey(s, k);
  }

  /** Of two slots, one is met first on the way down. */
  lemma Order(a: nat, b: nat, h: nat)
    ensures a == b || Between(a, b, h) || Between(b, a, h)
  {
  }

  /** A key placed in an empty slot that ends its probe is reachable, and so is every other key. */
  lemma Placed<K(!new), V(!new)>(hasher: K -> nat, s: seq<Slot<K, V>>, m: map<K, V>, k: K, v: V, e: nat)
    requires Holds(s, m) && AllReachable(hasher, s, -1) && e < |s| && s[e].Empty? && k !in m
    requires forall p :: 0 <= p < |s| && Between(p, e, Home(hasher(k), |s|)) ==> s[p].Full?
    ensures Holds(s[e := Full(k, v)], m[k := v]) && AllReachable(hasher, s[e := Full(k, v)], -1)
  {
    hide Home, Between;
    var t := s[e := Full(k, v)];
    forall i | 0 <= i < |t| && t[i].Full? ensures Reachable(hasher, t, i, -1) {
      if i != e {
        assert Reachable(hasher, s, i, -1);
      }
    }
    forall k' | k' in m[k := v] ensures HasKey(t, k') {
      if k' == k {
        assert t[e].key == k;
      } else {
        assert HasKey(s, k');
        var i :| 0 <= i < |s| && s[i].Full? && s[i].key == k';
        assert t[i].key == k';
      }
    }
  }

  /** Emptying a slot leaves a hole. */
  lemma Erased<K(!new), V(!new)>(hasher: K -> nat, s: seq<Slot<K, V>>, m: map<K, V>, i: nat)
    requires Holds(s, m) && AllReachable(hasher, s, -1) && i < |s| && s[i].Full?
    ensures Holds(s[i := Empty], m - {s[i].key}) && AllReachable(hasher, s[i := Empty], i)
  {
    hide Home, Between;
    var t := s[i := Empty];
    forall j | 0 <= j < |t| && t[j].Full? ensures Reachable(hasher, t, j, i) {
      assert Reachable(hasher, s, j, -1);
    }
    forall k | k in m - {s[i].key} ensures HasKey(t, k) {
      assert HasKey(s, k);
      var j :| 0 <= j < |s| && s[j].Full? && s[j].key == k;
      assert t[j].key == k;
    }
  }

  /** Moving an entry whose way passes the hole into the hole moves the hole. */
  lemma Moved<K(!new), V(!new)>(hasher: K -> nat, s: seq<Slot<K, V>>, m: map<K, V>, hole: nat, i: nat)
    requires Holds(s, m) && AllReachable(hasher, s, hole) && hole < |s| && i < |s| && s[hole].Empty? && s[i].Full?
    requires Between(hole, i, Home(hasher(s[i].key), |s|))
    ensures var t := s[hole := s[i]][i := Empty]; Holds(t, m) && AllReachable(hasher, t, i)
  {
    hide Home;
    var t := s[hole := s[i]][i := Empty];
    var h := Home(hasher(s[i].key), |s|);
    assert Reachable(hasher, s, i, hole);
    forall j | 0 <= j < |t| && t[j].Full? ensures Reachable(hasher, t, j, i) {
      if j == hole {
        forall p | 0 <= p < |t| && Between(p, hole, h) ensures t[p].Full? || p == i {
          assert Between(p, i, h);
        }
      } else {
        assert Reachable(hasher, s, j, hole);
      }
    }
    MovedHolds(s, m, hole, i);
  }

  lemma MovedHolds<K(!new), V(!new)>(s: seq<Slot<K, V>>, m: map<K, V>, hole: nat, i: nat)
    requires Holds(s, m) && hole < |s| && i < |s| && s[hole].Empty? && s[i].Full?
    ensures Holds(s[hole := s[i]][i := Empty], m)
  {
    var t := s[hole := s[i]][i := Empty];
    forall k | k in m ensures HasKey(t, k) {
      assert HasKey(s, k);
      var j :| 0 <= j < |s| && s[j].Full? && s[j].key == k;
      assert t[if j == i then hole else j].key == k;
    }
  }

  /** When no entry between the hole and the next empty slot needs the hole, nothing does. */
  lemma HoleIsHarmless<K(!new), V(!new)>(hasher: K -> nat, s: seq<Slot<K, V>>, hole: nat, e: nat)
    requires AllReachable(hasher, s, hole) && hole < |s| && e < |s| && e != hole && s[e].Empty?
    requires forall i :: 0 <= i < |s| && Between(i, e, hole) && s[i].Full? ==>
               !Between(hole, i, Home(hasher(s[i].key), |s|))
    ensures AllReachable(hasher, s, -1)
  {
    hide Home;
    forall i | 0 <= i < |s| && s[i].Full? ensures Reachable(hasher, s, i, -1) {
      var h := Home(hasher(s[i].key), |s|);
      assert Reachable(hasher, s, i, hole);
      OrderFrom(i, e, hole, h);
    }
  }

  /** A slot past the hole lies before the next empty slot, or the empty slot is on the way too. */
  lemma OrderFrom(i: nat, e: nat, hole: nat, h: nat)
    requires e != hole && i != e
    ensures Between(hole, i, h) ==> Between(i, e, hole) || Between(e, i, h)
  {
  }

  /** No entry from the hole down to slot i needs the hole. */
  ghost predicate Scanned<K(!new), V(!new)>(hasher: K -> nat, s: seq<Slot<K, V>>, i: nat, hole: nat) {
    forall p :: 0 <= p < |s| && (p == i || Between(p, i, hole)) && s[p].Full? ==>
        !Between(hole, p, Home(hasher(s[p].key), |s|))
  }

  lemma NothingScanned<K(!new), V(!new)>(hasher: K -> nat, s: seq<Slot<K, V>>, hole: nat)
    requires hole < |s| && s[hole].Empty?
    ensures Scanned(hasher, s, hole, hole)
  {
  }

  lemma ScanStep<K(!new), V(!new)>(hasher: K -> nat, s: seq<Slot<K, V>>, i: nat, hole: nat)
    requires i < |s| && hole < |s| && Scanned(hasher, s, i, hole) && s[hole].Empty?
    requires var next := Down(i, |s|); s[next].Full? && !Between(hole, next, Home(hasher(s[next].key), |s|))
    ensures Scanned(hasher, s, Down(i, |s|), hole)
  {
    hide Home;
  }

  lemma ScanEnds<K(!new), V(!new)>(hasher: K -> nat, s: seq<Slot<K, V>>, i: nat, hole: nat)
    requires i < |s| && hole < |s| && Scanned(hasher, s, i, hole) && AllReachable(hasher, s, hole)
    requires Down(i, |s|) != hole && s[Down(i, |s|)].Empty?
    ensures AllReachable(hasher, s, -1)
  {
    hide Home, AllReachable;
    HoleIsHarmless(hasher, s, hole, Down(i, |s|));
  }

  /** One step down comes closer to the empty slot e, and does not reach the hole before it. */
  lemma StepDown(i: nat, e: nat, hole: nat, size: nat)
    requires i < size && e < size && hole < size && e != hole && i != e && (i == hole || Between(i, e, hole))
    ensures var next := Down(i, size);
            next != hole && (next == e || Between(next, e, hole)) && Steps(next, e, size) < Steps(i, e, size)
  {
  }

  /** The three orders in which an entry does not need the hole. */
  lemma Crossing(i: nat, r: nat, hole: nat)
    ensures i != hole ==> (Between(hole, i, r) <==> !((i <= r < hole) || (r < hole < i) || (hole < i <= r)))
  {
  }

  datatype InsertResult = Failed | Existing(index: nat) | Inserted(index: nat)

  class LightHashMap<K(==, !new), V(0, !new)> {
    const hasher: K -> nat
    var slots: array<Slot<K, V>>
    var numValid: nat
    var growThreshold: nat

    /** The map that the table stands for. */
    ghost var contents: map<K, V>

    ghost predicate Valid()
      reads this, slots
    {
      && Holds(slots[..], contents) && AllReachable(hasher, slots[..], -1)
      && numValid == |contents| && numValid <= growThreshold
      && (slots.Length == 0 || slots.Length >= MIN_HASH_SIZE)
         && growThreshold == (if slots.Length == 0 then 0 else (slots.Length + 1) / 2)
    }

    constructor (hasher: K -> nat)
      ensures Valid() && contents == map[] && fresh(slots) && this.hasher == hasher
    {
      this.hasher := hasher;
      slots := new Slot<K, V>[0];
      numValid, growThreshold, contents := 0, 0, map[];
    }

    /** The slot that holds a key, or nothing. */
    method FindIndex(k: K) returns (r: Option<nat>)
      requires Valid()
      ensures r.Some? <==> k in contents
      ensures r.Some? ==>
                r.value < slots.Length && slots[r.value].Full? && slots[r.value].key == k
                  && slots[r.value].value == contents[k]
    {
      hide Holds, AllReachable;
      if numValid == 0 {
        return None;
      }
      var found, index := Probe(k);
      r := if found then Some(index) else None;
    }

    /** Probes down from the home of a key: to the key, or to the empty slot that shows it is absent. */
    method Probe(k: K) returns (found: bool, index: nat)
      requires Valid() && slots.Length > 0
      ensures index < slots.Length && (found <==> k in contents)
      ensures found ==> slots[index].Full? && slots[index].key == k && slots[index].value == contents[k]
      ensures !found ==> slots[index].Empty?
      ensures !found ==> forall p :: 0 <= p < slots.Length && Between(p, index, Home(hasher(k), slots.Length)) ==>
                slots[p].Full?
    {
      hide Home, AllReachable;
      ghost var s := slots[..];
      FewerHasEmpty(s, contents);
      ghost var e :| 0 <= e < |s| && s[e].Empty?;
      var home := Home(hasher(k), slots.Length);
      index := home;
      while slots[index].Full? && slots[index].key != k
        invariant index < slots.Length
        invariant forall p :: 0 <= p < |s| && Between(p, index, home) ==> s[p].Full? && s[p].key != k
        decreases Steps(index, e, |s|)
      {
        index := Down(index, slots.Length);
      }
      if slots[index].Full? {
        found := true;
      } else {
        found := false;
        NotFound(hasher, s, contents, k, index);
      }
    }

    /** Inserts unless the key is there; fails when the table is too full for another key. */
    method InsertNoGrow(k: K, v: V) returns (r: InsertResult)
      requires Valid()
      modifies this`numValid, this`contents, slots
      ensures Valid()
      ensures k in old(contents) ==> r.Existing? && contents == old(contents)
      ensures k !in old(contents) ==>
                if old(numValid) < growThreshold then r.Inserted? && contents == old(contents)[k := v]
                else r.Failed? && contents == old(contents)
      ensures !r.Failed? ==> r.index < slots.Length && slots[r.index].Full? && slots[r.index].key == k
    {
      hide Home, Holds, AllReachable;
      if slots.Length == 0 {
        NoKeys();
        return Failed;
      }
      var found, index := Probe(k);
      if found {
        return Existing(index);
      }
      if numValid >= growThreshold {
        return Failed;
      }
      Placed(hasher, slots[..], contents, k, v, index);
      slots[index] := Full(k, v);
      assert slots[..] == old(slots[..])[index := Full(k, v)];
      numValid := numValid + 1;
      contents := contents[k := v];
      return Inserted(index);
    }

    lemma NoKeys()
      requires Valid() && slots.Length == 0
      ensures contents == map[]
    {
    }

    /** Moves an entry into a table that has room. */
    static method MoveInto(hasher: K -> nat, table: array<Slot<K, V>>, node: Slot<K, V>, ghost m: map<K, V>)
      requires node.Full? && node.key !in m && |m| < table.Length
      requires Holds(table[..], m) && AllReachable(hasher, table[..], -1)
      modifies table
      ensures Holds(table[..], m[node.key := node.value]) && AllReachable(hasher, table[..], -1)
    {
      hide Home, Holds, AllReachable;
      ghost var s := table[..];
      FewerHasEmpty(s, m);
      ghost var e :| 0 <= e < |s| && s[e].Empty?;
      var home := Home(hasher(node.key), table.Length);
      var index: nat := home;
      while table[index].Full?
        invariant index < table.Length
        invariant forall p :: 0 <= p < |s| && Between(p, index, home) ==> s[p].Full?
        decreases Steps(index, e, |s|)
      {
        index := Down(index, table.Length);
      }
      Placed(hasher, s, m, node.key, node.value, index);
      table[index] := node;
      assert table[..] == s[index := Full(node.key, node.value)];
    }

    /** The entries of the first slots of a table. */
    ghost predicate Copied(s: seq<Slot<K, V>>, n: nat, m: map<K, V>)
    {
      n <= |s| && Holds(s[..n], m)
    }

    lemma CopyStep(s: seq<Slot<K, V>>, all: map<K, V>, n: nat, m: map<K, V>)
      requires Holds(s, all) && n < |s| && Copied(s, n, m)
      ensures s[n].Empty? ==> Copied(s, n + 1, m)
      ensures s[n].Full? ==> s[n].key !in m && Copied(s, n + 1, m[s[n].key := s[n].value])
    {
      var t, t' := s[..n], s[..n + 1];
      assert t' == t + [s[n]];
      if s[n].Full? {
        assert !HasKey(t, s[n].key);
        var m' := m[s[n].key := s[n].value];
        forall k | k in m' ensures HasKey(t', k) {
          if k == s[n].key {
            assert t'[n].key == k;
          } else {
            assert HasKey(t, k);
            var i :| 0 <= i < |t| && t[i].Full? && t[i].key == k;
            assert t'[i].key == k;
          }
        }
      } else {
        forall k | k in m ensures HasKey(t', k) {
          assert HasKey(t, k);
          var i :| 0 <= i < |t| && t[i].Full? && t[i].key == k;
          assert t'[i].key == k;
        }
      }
    }

    /** Two maps held by the same table are the same. */
    lemma SameMap(s: seq<Slot<K, V>>, m: map<K, V>, m': map<K, V>)
      requires Holds(s, m) && Holds(s, m')
      ensures m == m'
    {
      forall k | k in m ensures k in m' && m'[k] == m[k] {
        assert HasKey(s, k);
      }
      forall k | k in m' ensures k in m {
        assert HasKey(s, k);
      }
    }

    /** Rebuilds the table with another size. */
    method Rehash(newSize: nat)
      requires Valid() && newSize >= MIN_HASH_SIZE && 2 * numValid <= newSize && newSize != slots.Length
      modifies this
      ensures Valid() && contents == old(contents) && slots.Length == newSize && fresh(slots)
    {
      hide Home, Holds, AllReachable;
      var table := new Slot<K, V>[newSize](_ => Empty);
      ghost var m: map<K, V> := map[];
      ghost var s := slots[..];
      EmptyTable(table[..]);
      assert Copied(s, 0, m) by {
        assert s[..0] == [];
        EmptyTable(s[..0]);
      }
      for i := 0 to slots.Length
        invariant unchanged(this) && slots[..] == s && Holds(s, contents)
        invariant Holds(table[..], m) && AllReachable(hasher, table[..], -1)
        invariant Copied(s, i, m) && |m| <= |contents|
      {
        CopyStep(s, contents, i, m);
        if slots[i].Full? {
          CopyFits(s, contents, i, m);
          MoveInto(hasher, table, slots[i], m);
          m := m[s[i].key := s[i].value];
        }
      }
      assert s[..slots.Length] == s;
      SameMap(s, contents, m);
      slots := table;
      growThreshold := (newSize + 1) / 2;
    }

    /** Part of the entries is fewer than all. */
    lemma CopyFits(s: seq<Slot<K, V>>, all: map<K, V>, n: nat, m: map<K, V>)
      requires Holds(s, all) && n < |s| && Copied(s, n, m) && s[n].Full? && s[n].key !in m
      ensures |m| + 1 <= |all|
    {
      var t := s[..n];
      forall k | k in m.Keys ensures k in all.Keys - {s[n].key} {
        assert HasKey(t, k);
        var i :| 0 <= i < |t| && t[i].Full? && t[i].key == k;
        assert s[i].Full? && s[i].key == k;
      }
      SubsetSize(m.Keys, all.Keys - {s[n].key});
      assert |all| == |all.Keys| && |m| == |m.Keys|;
    }

    lemma EmptyTable(s: seq<Slot<K, V>>)
      requires forall i :: 0 <= i < |s| ==> s[i].Empty?
      ensures Holds(s, map[]) && AllReachable(hasher, s, -1)
    {
    }

    /** Inserts a key with a value unless the key is there already. */
    method Insert(k: K, v: V) returns (index: nat, isNew: bool)
      requires Valid()
      modifies this, slots
      ensures Valid() && isNew == (k !in old(contents)) && (slots == old(slots) || fresh(slots))
      ensures contents == if isNew then old(contents)[k := v] else old(contents)
      ensures index < slots.Length && slots[index].Full? && slots[index].key == k
    {
      hide Home, Holds, AllReachable;
      var r := InsertNoGrow(k, v);
      if r.Failed? {
        var newSize := slots.Length * 2;
        if newSize < MIN_HASH_SIZE {
          newSize := MIN_HASH_SIZE;
        }
        Rehash(newSize);
        r := InsertNoGrow(k, v);
      }
      index, isNew := r.index, r.Inserted?;
    }

    /** Erases an entry: entries further down whose way passes the hole move up into it. */
    method EraseIndex(index: nat)
      requires Valid() && index < slots.Length && slots[index].Full?
      modifies this`numValid, this`contents, slots
      ensures Valid() && contents == old(contents) - {old(slots[index].key)}
    {
      hide Home, Holds, AllReachable;
      ghost var before := slots[..];
      FewerHasEmpty(before, contents);
      ghost var e :| 0 <= e < |before| && before[e].Empty?;
      KeyInMap(before, contents, index);
      RemoveKey(contents, before[index].key);
      Erased(hasher, before, contents, index);
      slots[index] := Empty;
      assert slots[..] == before[index := Empty];
      numValid := numValid - 1;
      contents := contents - {before[index].key};
      CloseHole(index, e);
    }

    /** Fills a hole from below until it harms nobody; e is some other empty slot. */
    method CloseHole(hole: nat, ghost e: nat)
      requires hole < slots.Length && e < slots.Length && e != hole && slots[hole].Empty? && slots[e].Empty?
      requires Holds(slots[..], contents) && AllReachable(hasher, slots[..], hole)
      modifies slots
      ensures Holds(slots[..], contents) && AllReachable(hasher, slots[..], -1)
    {
      hide Home, Holds, AllReachable, Between, Scanned;
      var dst: nat, i: nat := hole, hole;
      NothingScanned(hasher, slots[..], dst);
      while true
        invariant dst < slots.Length && i < slots.Length && i != e && dst != e && slots[dst].Empty? && slots[e].Empty?
        invariant i == dst || Between(i, e, dst)
        invariant Holds(slots[..], contents) && AllReachable(hasher, slots[..], dst)
        invariant Scanned(hasher, slots[..], i, dst)
        decreases Steps(i, e, slots.Length)
      {
        ghost var s := slots[..];
        StepDown(i, e, dst, |s|);
        ghost var prev := i;
        i := Down(i, slots.Length);
        if slots[i].Empty? {
          ScanEnds(hasher, s, prev, dst);
          return;
        }
        var r := Home(hasher(slots[i].key), slots.Length);
        Crossing(i, r, dst);
        if (i <= r < dst) || (r < dst < i) || (dst < i <= r) {
          ScanStep(hasher, s, prev, dst);
        } else {
          Moved(hasher, s, contents, dst, i);
          slots[dst], slots[i] := slots[i], Empty;
          assert slots[..] == s[dst := s[i]][i := Empty];
          dst := i;
          NothingScanned(hasher, slots[..], dst);
        }
      }
    }

    lemma KeyInMap(s: seq<Slot<K, V>>, m: map<K, V>, i: nat)
      requires Holds(s, m) && i < |s| && s[i].Full?
      ensures s[i].key in m && m[s[i].key] == s[i].value
    {
    }
  }
}
