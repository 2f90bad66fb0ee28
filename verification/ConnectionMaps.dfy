/** Maps from keys to connections, and the assignment of connection identifiers. */
module ConnectionMaps {
  import opened Numbers
  import opened Options
  import opened LightHashMaps

  class ConnectionMap<K(==, !new), C(==, 0, !new)> {
    const theMap: LightHashMap<K, C>

    ghost predicate Valid()
      reads theMap, theMap.slots
    {
      theMap.Valid()
    }

    ghost function Contents(): map<K, C>
      reads theMap
    {
      theMap.contents
    }

    constructor (hasher: K -> nat)
      ensures Valid() && Contents() == map[] && fresh(theMap) && fresh(theMap.slots)
    {
      theMap := new LightHashMap(hasher);
    }

    /** True if the key was unique. */
    method Insert(key: K, conn: C) returns (isNew: bool)
      requires Valid()
      modifies theMap, theMap.slots
      ensures Valid() && isNew == (key !in old(Contents()))
      ensures Contents() == if isNew then old(Contents())[key := conn] else old(Contents())
      ensures theMap.slots == old(theMap.slots) || fresh(theMap.slots)
    {
      var index;
      index, isNew := theMap.Insert(key, conn);
    }

    /** Removes the key if it is held by this connection. */
    method Remove(key: K, conn: C) returns (ok: bool)
      requires Valid()
      modifies theMap, theMap.slots
      ensures Valid() && ok == (key in old(Contents()) && old(Contents())[key] == conn)
      ensures Contents() == if ok then old(Contents()) - {key} else old(Contents())
      ensures theMap.slots == old(theMap.slots)
    {
      var index := theMap.FindIndex(key);
      if index.None? {
        return false;
      }
      if theMap.slots[index.value].value != conn {
        return false;
      }
      theMap.EraseIndex(index.value);
      return true;
    }

    method Find(key: K) returns (conn: Option<C>)
      requires Valid()
      ensures conn == if key in Contents() then Some(Contents()[key]) else None
    {
      var index := theMap.FindIndex(key);
      if index.None? {
        return None;
      }
      return Some(theMap.slots[index.value].value);
    }

    method GetCount() returns (n: nat)
      requires Valid()
      ensures n == |Contents()|
    {
      n := theMap.numValid;
    }
  }

  // ----- identifiers

  const ID_COUNT: nat := 0x1000000
  const BYTE_IDS: nat := 256
  const INVALID_ID: nat := 0xFFFF_FFFF

  /** The stack of unused one-byte identifiers and the ids of live connections make up 0..255, each once. */
  ghost predicate Partition<C>(unused: seq<nat>, live: map<nat, C>) {
    && (forall i, j :: 0 <= i < j < |unused| ==> unused[i] != unused[j])
    && (forall i :: 0 <= i < |unused| ==> unused[i] < BYTE_IDS && unused[i] !in live)
    && (forall id :: 0 <= id < BYTE_IDS ==> id in unused || id in live)
    && (forall id :: id in live ==> id < ID_COUNT)
  }

  /** A set that contains every number below n has at least n elements. */
  lemma {:induction false} Pigeonhole(s: set<nat>, n: nat)
    requires forall id :: 0 <= id < n ==> id in s
    ensures |s| >= n
  {
    if n > 0 {
      Pigeonhole(s - {n - 1}, n - 1);
    }
  }

  /** With all one-byte identifiers taken and room left, some longer identifier is free. */
  lemma SomeIdIsFree<C>(live: map<nat, C>)
    requires Partition([], live) && |live| < ID_COUNT
    ensures exists id :: BYTE_IDS <= id < ID_COUNT && id !in live
  {
    assert |live| == |live.Keys|;
    if forall id :: BYTE_IDS <= id < ID_COUNT ==> id in live {
      Pigeonhole(live.Keys, ID_COUNT);
      assert false;
    }
  }

  /** The stack starts from a different identifier in each process: 255 - i + offset as a byte. */
  function InitialId(i: nat, offset: nat): nat
    requires i < BYTE_IDS && offset < BYTE_IDS
  {
    if 255 - i + offset < BYTE_IDS then 255 - i + offset else 255 - i + offset - BYTE_IDS
  }

  lemma InitialPartition<C>(ids: seq<nat>, offset: nat)
    requires offset < BYTE_IDS && |ids| == BYTE_IDS && forall i :: 0 <= i < BYTE_IDS ==> ids[i] == InitialId(i, offset)
    ensures Partition<C>(ids, map[])
  {
    forall id | 0 <= id < BYTE_IDS ensures id in ids {
      var i := if id <= offset then offset - id else offset - id + BYTE_IDS;
      var j := if i > 0 then i - 1 else 255;
      assert ids[j] == InitialId(j, offset) == id;
    }
  }

  /** While a one-byte identifier is held, the stack has room for it. */
  lemma StackHasRoom<C>(unused: seq<nat>, live: map<nat, C>, id: nat)
    requires Partition(unused, live) && id < BYTE_IDS && id in live
    ensures |unused| < BYTE_IDS
  {
    DistinctSize(unused);
    forall x | x in Members(unused) ensures x in Below(BYTE_IDS) - {id} {
    }
    SubsetSize(Members(unused), Below(BYTE_IDS) - {id});
  }

  ghost function Members(s: seq<nat>): (m: set<nat>)
    ensures forall x :: x in m <==> x in s
  {
    if s == [] then {} else Members(s[..|s| - 1]) + {s[|s| - 1]}
  }

  lemma {:induction false} DistinctSize(s: seq<nat>)
    requires forall i, j :: 0 <= i < j < |s| ==> s[i] != s[j]
    ensures |Members(s)| == |s|
  {
    if s != [] {
      DistinctSize(s[..|s| - 1]);
    }
  }

  /** Steps of the search from one identifier to another. */
  function SearchSteps(from: nat, to: nat): nat {
    if from < to then to - from else to + ID_COUNT + 1 - (if from < ID_COUNT then from else ID_COUNT)
  }

  /** What pushing a one-byte identifier does to the partition. */
  lemma Released<C>(unused: seq<nat>, live: map<nat, C>, id: nat, ok: bool)
    requires Partition(unused, live) && id < BYTE_IDS && (ok ==> id in live)
    ensures ok ==> |unused| < BYTE_IDS && Partition(unused + [id], live - {id})
    ensures !ok ==> !Partition(unused + [id], live)
  {
    var pushed := unused + [id];
    assert pushed[|unused|] == id;
    if ok {
      StackHasRoom(unused, live, id);
      forall x | 0 <= x < BYTE_IDS ensures x in pushed || x in live - {id} {
        assert x in unused || x in live;
      }
    } else if id in unused {
      var i :| 0 <= i < |unused| && unused[i] == id;
      assert pushed[i] == pushed[|unused|];
    }
  }

  /** One connection lives under 255, and 0 is released although nobody holds it: the stack then lists 0
      twice. */
  lemma UnheldRelease<C>(connection: C)
    ensures var unused := seq(255, (i: nat) => i);
            var live := map[255 := connection];
            Partition(unused, live) && 0 !in live && !Partition(unused + [0], live)
  {
    var unused := seq(255, (i: nat) => i);
    var live := map[255 := connection];
    forall id | 0 <= id < BYTE_IDS ensures id in unused || id in live {
      if id < 255 {
        assert unused[id] == id;
      }
    }
    Released(unused, live, 0, false);
  }

  class ConnectionIdMap<C(==, 0, !new)> {
    const idMap: ConnectionMap<nat, C>

    /** BestUnusedIds[0..BestUnusedCount] */
    var bestUnusedIds: seq<nat>
    var nextId: nat

    ghost predicate Sound()
      reads this, idMap.theMap, idMap.theMap.slots
    {
      idMap.Valid() && (nextId == 0 || BYTE_IDS <= nextId < ID_COUNT) && |bestUnusedIds| <= BYTE_IDS
    }

    ghost predicate Valid()
      reads this, idMap.theMap, idMap.theMap.slots
    {
      Sound() && Partition(bestUnusedIds, idMap.Contents())
    }

    constructor (hasher: nat -> nat, offset: nat)
      requires offset < BYTE_IDS
      ensures Valid() && idMap.Contents() == map[]
    {
      idMap := new ConnectionMap(hasher);
      bestUnusedIds := seq(BYTE_IDS, i requires 0 <= i < BYTE_IDS => InitialId(i, offset));
      nextId := 0;
      new;
      InitialPartition<C>(bestUnusedIds, offset);
    }

    /** Assigns an identifier that no live connection has: a one-byte one as long as there are any. */
    method InsertAndAssignId(connection: C) returns (id: Option<nat>)
      requires Valid()
      modifies this, idMap.theMap, idMap.theMap.slots
      ensures Valid()
      ensures id.None? <==> old(bestUnusedIds) == [] && |old(idMap.Contents())| >= ID_COUNT
      ensures id.None? ==> idMap.Contents() == old(idMap.Contents())
      ensures id.Some? ==> id.value !in old(idMap.Contents()) && id.value < ID_COUNT
      ensures id.Some? ==> idMap.Contents() == old(idMap.Contents())[id.value := connection]
      ensures id.Some? ==> (id.value < BYTE_IDS <==> old(bestUnusedIds) != [])
    {
      hide LightHashMap.Valid;
      if |bestUnusedIds| > 0 {
        var top := bestUnusedIds[|bestUnusedIds| - 1];
        bestUnusedIds := bestUnusedIds[..|bestUnusedIds| - 1];
        var isNew := idMap.Insert(top, connection);
        return Some(top);
      }
      var count := idMap.GetCount();
      if count >= ID_COUNT {
        return None;
      }
      SomeIdIsFree(idMap.Contents());
      ghost var free :| BYTE_IDS <= free < ID_COUNT && free !in idMap.Contents();
      var isNew := false;
      while !isNew
        invariant Sound() && bestUnusedIds == []
        invariant idMap.theMap.slots == old(idMap.theMap.slots) || fresh(idMap.theMap.slots)
        invariant !isNew ==> idMap.Contents() == old(idMap.Contents())
        invariant isNew ==>
                    nextId >= BYTE_IDS && nextId !in old(idMap.Contents())
                      && idMap.Contents() == old(idMap.Contents())[nextId := connection]
        decreases !isNew, SearchSteps(nextId, free)
      {
        nextId := nextId + 1;
        if nextId < BYTE_IDS || nextId >= ID_COUNT {
          nextId := BYTE_IDS;
        }
        isNew := idMap.Insert(nextId, connection);
      }
      return Some(nextId);
    }

    /** Releases an identifier.  The one-byte identifiers stay a partition exactly when the identifier
        was held by this connection, is not a one-byte one, or cannot be put on the stack. */
    method RemoveAndUnassignId(id: nat, connection: C) returns (ok: bool)
      requires Valid()
      modifies this, idMap.theMap, idMap.theMap.slots
      ensures Sound()
              && ok == (id != INVALID_ID && id in old(idMap.Contents()) && old(idMap.Contents())[id] == connection)
      ensures idMap.Contents() == if ok then old(idMap.Contents()) - {id} else old(idMap.Contents())
      ensures Valid() <==> ok || id >= BYTE_IDS || |old(bestUnusedIds)| >= BYTE_IDS
    {
      hide LightHashMap.Valid;
      if id == INVALID_ID {
        return false;
      }
      ghost var unused, live := bestUnusedIds, idMap.Contents();
      if id < BYTE_IDS && |bestUnusedIds| < BYTE_IDS {
        bestUnusedIds := bestUnusedIds + [id];
      }
      ok := idMap.Remove(id, connection);
      if id < BYTE_IDS {
        Released(unused, live, id, ok);
      }
    }
  }
}
