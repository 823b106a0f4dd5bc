// Exactly when the probe loops of the hash map end, and two ways in which they come not to.

module ProbeTermination {
  import opened Wrappers
  import opened FiniteSets
  import opened ProbeOrbit
  import opened HashStorage
  import opened HashMaps

  ghost predicate UnusedOnOrbit<K, V>(cells: seq<Cell<K, V>>, h: nat)
    requires |cells| > 0
  {
    exists p :: p in Orbit(h, |cells|) && 0 <= p < |cells| && cells[p].slot == SLOT_UNUSED
  }

  /** The probe loop for a key ends exactly when the table has the key or the key's orbit an unused slot. */
  lemma ProbeStopsExactly<K, V>(hash: K -> Hash32, cells: seq<Cell<K, V>>, key: K)
    requires WellFormed(hash, cells)
    ensures ProbeStops(hash, cells, key) <==> key in Contents(cells) || UnusedOnOrbit(cells, HashWrapper(hash, key))
  {
    var h := HashWrapper(hash, key);
    if ProbeStops(hash, cells, key) {
      var i :| StopsAt(hash, cells, key, i);
      var j := ReachedWithinTable(h, |cells|, i);
      if Matches(At(cells, h, i), h, key) {
        FoundAt(hash, cells, key, Probe(h, |cells|, i));
      }
    }
    if key in Contents(cells) {
      var p := HeldBy(cells, key);
      var i :| PathTo(cells, cells[p].slot, p, i);
      assert StopsAt(hash, cells, key, i);
    } else if UnusedOnOrbit(cells, h) {
      var p :| p in Orbit(h, |cells|) && 0 <= p < |cells| && cells[p].slot == SLOT_UNUSED;
      var i: nat :| i < |cells| && p == Probe(h, |cells|, i);
      assert StopsAt(hash, cells, key, i);
    }
  }

  /**
    * The same for every size that a table takes which starts at a power of two. Before the first growth
    * any unused slot will do, and after it any that is not 2 modulo 3 from the hash on.
    */
  lemma NewKeyStopsExactly<K, V>(hash: K -> Hash32, cells: seq<Cell<K, V>>, key: K, k: nat, n: nat)
    requires WellFormed(hash, cells) && key !in Contents(cells) && |cells| == Smooth(k, n)
    ensures ProbeStops(hash, cells, key) <==>
              exists p :: 0 <= p < |cells| && cells[p].slot == SLOT_UNUSED && Triangular(n, p - HashWrapper(hash, key))
    ensures n == 0 ==>
              (ProbeStops(hash, cells, key) <==> exists p :: 0 <= p < |cells| && cells[p].slot == SLOT_UNUSED)
    ensures n == 1 ==>
              (ProbeStops(hash, cells, key) <==>
               exists p :: 0 <= p < |cells| && cells[p].slot == SLOT_UNUSED && (p - HashWrapper(hash, key)) % 3 != 2)
  {
    ProbeStopsExactly(hash, cells, key);
    forall p | 0 <= p < |cells|
      ensures p in Orbit(HashWrapper(hash, key), |cells|) <==> Triangular(n, p - HashWrapper(hash, key))
    {
      OrbitExactly(k, n, HashWrapper(hash, key), p);
    }
  }

  /** Keys with one hash all sit on its orbit: when they fill it, no other key with that hash can be looked up. */
  lemma FullOrbitTraps<K, V>(hash: K -> Hash32, cells: seq<Cell<K, V>>, h: Hash32, key: K)
    requires WellFormed(hash, cells) && key !in Contents(cells)
    requires forall k :: HashWrapper(hash, k) == h
    requires |LiveSet(cells)| >= |Orbit(h, |cells|)|
    ensures !ProbeStops(hash, cells, key)
  {
    forall p | p in LiveSet(cells) ensures p in Orbit(h, |cells|) {
      var i :| PathTo(cells, h, p, i);
      var j := ReachedWithinTable(h, |cells|, i);
    }
    SubsetCardinality(LiveSet(cells), Orbit(h, |cells|));
    ProbeStopsExactly(hash, cells, key);
  }

  /**
    * Tombstones are not counted as used, so they can fill a table of any size that never gets overloaded:
    * after one insertion and one erasure per slot, no probe loop for any key ends any more.
    */
  method TombstonesCanFillTable(tableCount: nat) returns (hm: HashMap<nat, bool>)
    requires 0 < tableCount <= MAX_TABLE_COUNT
    ensures hm.Valid() && hm.Map() == map[] && hm.tableCount == tableCount && !hm.NeedsRehash()
    ensures forall k :: !ProbeStops(hm.hash, hm.storage[..], k)
  {
    hm := new HashMap<nat, bool>.InitWithOptions((k: nat) => HomeHash(tableCount, k), tableCount);
    for i := 0 to tableCount
      invariant fresh(hm) && fresh(hm.storage) && hm.hash == ((k: nat) => HomeHash(tableCount, k))
      invariant hm.Valid() && hm.Map() == map[] && hm.tableCount == tableCount
      invariant MarkedUpTo(hm.storage[..], i)
    {
      HomeIsFirst(tableCount, i);
      BuryKey(hm, i);
    }
    NothingStops(hm.hash, hm.storage[..]);
  }

  lemma NothingStops<K, V>(hash: K -> Hash32, cells: seq<Cell<K, V>>)
    requires WellFormed(hash, cells) && Contents(cells) == map[]
    requires forall p :: 0 <= p < |cells| ==> cells[p].slot == SLOT_RIP
    ensures !Overloaded(|LiveSet(cells)|, |cells|)
    ensures forall k :: !ProbeStops(hash, cells, k)
  {
    CountIsMapSize(cells);
    EmptyNotOverloaded(|cells|);
    forall k ensures !ProbeStops(hash, cells, k) {
      ProbeStopsExactly(hash, cells, k);
    }
  }

  /** A hash value for which the probing of a table of `m` slots starts at slot `k`. */
  function HomeHash(m: nat, k: nat): Hash32 {
    if k >= m || m > MAX_TABLE_COUNT then 7 else if k >= 2 then k else if m >= 2 then k + m else 2
  }

  lemma HomeIsFirst(m: nat, k: nat)
    requires k < m <= MAX_TABLE_COUNT
    ensures !Reserved(HomeHash(m, k)) && HomeHash(m, k) % m == k
  {
    ModSelf(k, m);
    ModOfMultiple(k, 1, m);
  }

  /** Tombstones below `n`, unused slots from `n` on. */
  ghost predicate MarkedUpTo<K, V>(cells: seq<Cell<K, V>>, n: nat) {
    && (forall p :: 0 <= p < |cells| && p < n ==> cells[p].slot == SLOT_RIP)
    && (forall p :: 0 <= p < |cells| && p >= n ==> cells[p].slot == SLOT_UNUSED)
  }

  /** Inserts and erases the key whose first probe is the first unused slot. */
  method BuryKey(hm: HashMap<nat, bool>, i: nat)
    requires hm.Valid() && hm.Map() == map[] && i < hm.tableCount
    requires HashWrapper(hm.hash, i) % hm.tableCount == i
    requires MarkedUpTo(hm.storage[..], i)
    modifies hm, hm.storage
    ensures hm.Valid() && hm.Map() == map[] && hm.tableCount == old(hm.tableCount)
    ensures hm.storage == old(hm.storage)
    ensures MarkedUpTo(hm.storage[..], i + 1)
  {
    BuriedAcceptsNext(hm.hash, hm.storage[..], i);
    ghost var before := hm.storage[..];
    var status := hm.Insert(i, Some(true), true);
    OnlyNewcomer(hm.hash, before, hm.storage[..], i);
    EraseNewcomer(hm, i);
  }

  method EraseNewcomer(hm: HashMap<nat, bool>, i: nat)
    requires hm.Valid() && i < hm.tableCount && hm.Map().Keys == {i} && Newcomer(hm.storage[..], i)
    modifies hm`slotsUsed, hm.storage
    ensures hm.Valid() && hm.Map() == map[] && MarkedUpTo(hm.storage[..], i + 1)
  {
    ProbeStopsExactly(hm.hash, hm.storage[..], i);
    ghost var between := hm.storage[..];
    var pos := hm.Erase(i);
    NewcomerBuried(between, hm.storage[..], i);
  }

  lemma BuriedAcceptsNext(hash: nat -> Hash32, cells: seq<Cell<nat, bool>>, i: nat)
    requires WellFormed(hash, cells) && Contents(cells) == map[] && MarkedUpTo(cells, i)
    requires i < |cells| && HashWrapper(hash, i) % |cells| == i
    ensures !Overloaded(|LiveSet(cells)|, |cells|) && ProbeStops(hash, cells, i)
  {
    CountIsMapSize(cells);
    EmptyNotOverloaded(|cells|);
    assert Probe(HashWrapper(hash, i), |cells|, 0) == i;
    assert StopsAt(hash, cells, i, 0);
  }

  lemma EmptyNotOverloaded(m: nat)
    requires m > 0
    ensures !Overloaded(0, m)
  {
    ModSelf(0, m);
  }

  /** One live slot, with tombstones below it and unused slots above. */
  ghost predicate Newcomer<K, V>(cells: seq<Cell<K, V>>, i: nat)
    requires i < |cells|
  {
    && Live(cells[i])
    && (forall p :: 0 <= p < |cells| && p < i ==> cells[p].slot == SLOT_RIP)
    && (forall p :: 0 <= p < |cells| && p > i ==> cells[p].slot == SLOT_UNUSED)
  }

  /** A key inserted into such a table that starts at the first unused slot stays there. */
  lemma OnlyNewcomer(hash: nat -> Hash32, before: seq<Cell<nat, bool>>, after: seq<Cell<nat, bool>>, i: nat)
    requires WellFormed(hash, after) && Contents(after).Keys == {i} && i < |after|
    requires MarkedUpTo(before, i) && NoNewMarks(before, after) && HashWrapper(hash, i) % |after| == i
    ensures Newcomer(after, i)
  {
    var p := HeldBy(after, i);
    forall q | q in LiveSet(after) ensures q == p {
      assert after[q].key in Contents(after).Keys;
    }
    PathStartsUsed(after, HashWrapper(hash, i), p);
  }

  lemma PathStartsUsed<K, V>(cells: seq<Cell<K, V>>, h: nat, p: int)
    requires |cells| > 0 && OnPath(cells, h, p)
    ensures p == h % |cells| || cells[h % |cells|].slot != SLOT_UNUSED
  {
    var j :| PathTo(cells, h, p, j);
    assert Probe(h, |cells|, 0) == h % |cells|;
    assert j > 0 ==> At(cells, h, 0).slot != SLOT_UNUSED;
  }

  lemma NewcomerBuried(between: seq<Cell<nat, bool>>, after: seq<Cell<nat, bool>>, i: nat)
    requires |after| == |between| && i < |after| && Newcomer(between, i) && Distinct(after) && Contents(after) == map[]
    requires forall p :: 0 <= p < |after| ==> (after[p].slot == SLOT_UNUSED <==> between[p].slot == SLOT_UNUSED)
    ensures MarkedUpTo(after, i + 1)
  {
    CountIsMapSize(after);
    assert forall p :: 0 <= p < |after| ==> p !in LiveSet(after);
  }

  /**
    * Tombstones are not even needed. Keys with one hash fill their orbit when two thirds of the slots of a
    * grown table are used, below the load at which it would grow again: with the default 128 slots, 256 keys.
    */
  method GrownTableTraps(k: nat) returns (hm: HashMap<nat, bool>)
    requires 200 * Smooth(k, 0) < UINT32
    ensures hm.Valid() && hm.tableCount == 3 * Smooth(k, 0) && !hm.NeedsRehash()
    ensures KeysBelow(hm.Map(), 2 * Smooth(k, 0))
    ensures NoTombstones(hm.storage[..])
    ensures forall key :: key !in hm.Map() ==> !ProbeStops(hm.hash, hm.storage[..], key)
  {
    var m := Smooth(k, 0);
    hm := new HashMap<nat, bool>.InitWithOptions((key: nat) => 3, m);
    CountIsMapSize(hm.storage[..]);
    for i := 0 to 2 * m
      invariant fresh(hm) && fresh(hm.storage) && hm.hash == ((key: nat) => 3)
      invariant hm.Valid() && hm.slotsUsed == i && KeysBelow(hm.Map(), i)
      invariant NoTombstones(hm.storage[..])
      invariant hm.tableCount == m || hm.tableCount == 3 * m
    {
      RoomForNext(hm.hash, hm.storage[..], k, i, i);
      ghost var before := hm.Map();
      var status := hm.Insert(i, Some(true), true);
      NextKey(before, hm.Map(), i);
    }
    TwoThirdsTrap(hm.hash, hm.storage[..], k);
  }

  lemma TwoThirdsTrap<K, V>(hash: K -> Hash32, cells: seq<Cell<K, V>>, k: nat)
    requires WellFormed(hash, cells) && forall key :: HashWrapper(hash, key) == 3
    requires |cells| == Smooth(k, 0) || |cells| == 3 * Smooth(k, 0)
    requires |LiveSet(cells)| == 2 * Smooth(k, 0) && 200 * Smooth(k, 0) < UINT32
    ensures |cells| == 3 * Smooth(k, 0) && !Overloaded(|LiveSet(cells)|, |cells|)
    ensures forall key :: key !in Contents(cells) ==> !ProbeStops(hash, cells, key)
  {
    LiveBound(cells);
    NotOverloadedAtTwoThirds(2 * Smooth(k, 0), Smooth(k, 0));
    TwoThirdsReached(k, 3);
    forall key | key !in Contents(cells) ensures !ProbeStops(hash, cells, key) {
      FullOrbitTraps(hash, cells, 3, key);
    }
  }

  ghost predicate KeysBelow(m: map<nat, bool>, n: nat) {
    forall key: nat :: key in m <==> key < n
  }

  lemma NextKey(before: map<nat, bool>, after: map<nat, bool>, i: nat)
    requires KeysBelow(before, i) && i in after && after == before[i := after[i]]
    ensures KeysBelow(after, i + 1)
  {
  }

  lemma NotOverloadedAtTwoThirds(slotsUsed: nat, m: nat)
    requires 0 < m && slotsUsed <= 2 * m && 200 * m < UINT32
    ensures !Overloaded(slotsUsed, 3 * m)
  {
    QuotientBound(slotsUsed * 100 % UINT32, 3 * m, 70);
  }

  /** What the next insertion into a table of one hash needs. */
  lemma RoomForNext(hash: nat -> Hash32, cells: seq<Cell<nat, bool>>, k: nat, live: nat, key: nat)
    requires WellFormed(hash, cells) && NoTombstones(cells) && |LiveSet(cells)| == live < 2 * Smooth(k, 0)
    requires 200 * Smooth(k, 0) < UINT32 && (|cells| == Smooth(k, 0) || |cells| == 3 * Smooth(k, 0))
    ensures Overloaded(live, |cells|) ==>
              |cells| == Smooth(k, 0) && EXPAND_FACTOR * |cells| <= MAX_TABLE_COUNT && GrowthHasRoom(live, |cells|)
    ensures !Overloaded(live, |cells|) ==> ProbeStops(hash, cells, key)
  {
    var m := Smooth(k, 0);
    LiveBound(cells);
    if |cells| == 3 * m {
      NotOverloadedAtTwoThirds(live, m);
      TwoThirdsReached(k, HashWrapper(hash, key));
      RoomMeansStop(hash, cells, key);
    } else if Overloaded(live, m) {
      GrowthAlwaysHasRoom(k, 0, live);
    } else {
      OverloadedWhenFull(m);
      OrbitSize(k, 0, HashWrapper(hash, key));
      RoomMeansStop(hash, cells, key);
    }
  }

  lemma OverloadedWhenFull(m: nat)
    requires 0 < m && 200 * m < UINT32
    ensures Overloaded(m, m)
  {
    UniqueDivision(100, 0, m * 100 / m, m * 100 % m, m);
    Division(m * 100, m);
  }
}
