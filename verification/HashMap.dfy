// The open-addressing hash map: triangular probing, tombstones, growth by re-insertion.

/** One storage cell per slot, and what probing such a storage means. */
module HashStorage {
  import opened ProbeOrbit
  import opened FiniteSets

  const SLOT_UNUSED: nat := 0
  const SLOT_RIP: nat := 1
  const SLOT_INVALID: nat := 0xFFFF_FFFF
  const REHASH_AT_PERCENT: nat := 70
  const EXPAND_FACTOR: nat := 3
  const UINT32: nat := 0x1_0000_0000

  type Hash32 = h: nat | h < 0x1_0000_0000

  datatype Cell<K, V> = Cell(slot: nat, key: K, value: V)

  predicate Reserved(h: nat) {
    h == SLOT_UNUSED || h == SLOT_RIP || h == SLOT_INVALID
  }

  /** Keeps the user's hash function away from the values that mark a slot. */
  function HashWrapper<K>(hash: K -> Hash32, key: K): (h: Hash32)
    ensures !Reserved(h)
    ensures hash(key) != 0 && hash(key) != 1 && hash(key) != 0xFFFF_FFFF ==> h == hash(key)
    ensures hash(key) == 0 || hash(key) == 1 || hash(key) == 0xFFFF_FFFF ==> h == 2
  {
    if Reserved(hash(key)) then 2 else hash(key)
  }

  predicate Live<K, V>(c: Cell<K, V>) {
    c.slot != SLOT_UNUSED && c.slot != SLOT_RIP
  }

  /** Where the i-th probe for hash `h` looks. */
  ghost function At<K, V>(cells: seq<Cell<K, V>>, h: nat, i: nat): Cell<K, V>
    requires |cells| > 0
  {
    cells[Probe(h, |cells|, i)]
  }

  ghost predicate PathTo<K, V>(cells: seq<Cell<K, V>>, h: nat, p: int, i: nat)
    requires |cells| > 0
  {
    && Probe(h, |cells|, i) == p
    && forall j: nat :: j < i ==> At(cells, h, j).slot != SLOT_UNUSED
  }

  /** `p` is probed for `h` before any unused slot is. */
  ghost predicate OnPath<K, V>(cells: seq<Cell<K, V>>, h: nat, p: int)
    requires |cells| > 0
  {
    exists i: nat :: PathTo(cells, h, p, i)
  }

  ghost predicate Distinct<K, V>(cells: seq<Cell<K, V>>) {
    forall p, q :: p in LiveSet(cells) && q in LiveSet(cells) && cells[p].key == cells[q].key ==> p == q
  }

  ghost predicate WellFormed<K, V>(hash: K -> Hash32, cells: seq<Cell<K, V>>) {
    && |cells| > 0
    && Distinct(cells)
    && (forall p :: 0 <= p < |cells| && Live(cells[p]) ==> cells[p].slot == HashWrapper(hash, cells[p].key))
    && (forall p :: 0 <= p < |cells| && Live(cells[p]) ==> OnPath(cells, cells[p].slot, p))
  }

  ghost function LiveSet<K, V>(cells: seq<Cell<K, V>>): set<int> {
    set p | 0 <= p < |cells| && Live(cells[p])
  }

  /** The finite map a storage represents. */
  ghost function Contents<K, V>(cells: seq<Cell<K, V>>): map<K, V>
    requires Distinct(cells)
  {
    map p | p in LiveSet(cells) :: cells[p].key := cells[p].value
  }

  ghost predicate Matches<K, V>(c: Cell<K, V>, h: nat, key: K) {
    c.slot == h && c.key == key
  }

  /** The probe loop for `key` stops at step `i`: at the key itself or at an unused slot. */
  ghost predicate StopsAt<K, V>(hash: K -> Hash32, cells: seq<Cell<K, V>>, key: K, i: nat)
    requires |cells| > 0
  {
    var h := HashWrapper(hash, key);
    At(cells, h, i).slot == SLOT_UNUSED || Matches(At(cells, h, i), h, key)
  }

  ghost predicate ProbeStops<K, V>(hash: K -> Hash32, cells: seq<Cell<K, V>>, key: K)
    requires |cells| > 0
  {
    exists i: nat :: StopsAt(hash, cells, key, i)
  }

  /** A probe loop that stops at all stops within table_count probes. */
  lemma StopsWithinTable<K, V>(hash: K -> Hash32, cells: seq<Cell<K, V>>, key: K) returns (k: nat)
    requires |cells| > 0 && ProbeStops(hash, cells, key)
    ensures k < |cells| && StopsAt(hash, cells, key, k)
  {
    var i: nat :| StopsAt(hash, cells, key, i);
    k := ReachedWithinTable(HashWrapper(hash, key), |cells|, i);
  }

  /** Reaching an unused slot without meeting the key proves the key absent. */
  lemma AbsentAtUnused<K, V>(hash: K -> Hash32, cells: seq<Cell<K, V>>, key: K, k: nat)
    requires WellFormed(hash, cells)
    requires var h := HashWrapper(hash, key);
             At(cells, h, k).slot == SLOT_UNUSED && forall j: nat :: j < k ==> !Matches(At(cells, h, j), h, key)
    ensures key !in Contents(cells)
  {
    forall p | p in LiveSet(cells) ensures cells[p].key != key {
      assert OnPath(cells, cells[p].slot, p);
      var i: nat :| PathTo(cells, cells[p].slot, p, i);
      assert At(cells, cells[p].slot, i) == cells[p];
    }
  }

  lemma FoundAt<K, V>(hash: K -> Hash32, cells: seq<Cell<K, V>>, key: K, p: int)
    requires WellFormed(hash, cells) && 0 <= p < |cells|
    requires Matches(cells[p], HashWrapper(hash, key), key)
    ensures Live(cells[p]) && key in Contents(cells) && Contents(cells)[key] == cells[p].value
  {
    assert p in LiveSet(cells);
  }

  lemma HeldBy<K, V>(cells: seq<Cell<K, V>>, k: K) returns (p: int)
    requires Distinct(cells) && k in Contents(cells)
    ensures p in LiveSet(cells) && cells[p].key == k && Contents(cells)[k] == cells[p].value
  {
    p :| p in LiveSet(cells) && cells[p].key == k;
  }

  /** Paths survive any update that leaves every used slot used. */
  lemma PathSurvives<K, V>(cells: seq<Cell<K, V>>, after: seq<Cell<K, V>>, h: nat, p: int)
    requires |after| == |cells| > 0 && OnPath(cells, h, p)
    requires forall q :: 0 <= q < |cells| && cells[q].slot != SLOT_UNUSED ==> after[q].slot != SLOT_UNUSED
    ensures OnPath(after, h, p)
  {
    var i: nat :| PathTo(cells, h, p, i);
    forall j: nat | j < i ensures At(after, h, j).slot != SLOT_UNUSED {
      assert At(cells, h, j).slot != SLOT_UNUSED;
    }
    assert PathTo(after, h, p, i);
  }

  lemma WellFormedWithout<K, V>(hash: K -> Hash32, cells: seq<Cell<K, V>>, after: seq<Cell<K, V>>, p: int)
    requires WellFormed(hash, cells) && |after| == |cells| && 0 <= p < |cells|
    requires after[p].slot != SLOT_UNUSED
    requires forall q :: 0 <= q < |cells| && q != p ==> after[q] == cells[q]
    requires Live(after[p]) ==>
               && after[p].slot == HashWrapper(hash, after[p].key) && OnPath(cells, after[p].slot, p)
               && forall q :: q in LiveSet(cells) && q != p ==> cells[q].key != after[p].key
    ensures WellFormed(hash, after)
  {
    assert forall q :: q in LiveSet(after) && q != p ==> q in LiveSet(cells);
    forall q | 0 <= q < |after| && Live(after[q]) ensures OnPath(after, after[q].slot, q) {
      PathSurvives(cells, after, after[q].slot, q);
    }
  }

  /** Storing a new key in an unused slot or a tombstone on its own path. */
  lemma Stored<K, V>(hash: K -> Hash32, cells: seq<Cell<K, V>>, key: K, value: V, p: int)
    requires WellFormed(hash, cells) && key !in Contents(cells)
    requires 0 <= p < |cells| && !Live(cells[p]) && OnPath(cells, HashWrapper(hash, key), p)
    ensures var after := cells[p := Cell(HashWrapper(hash, key), key, value)];
            && WellFormed(hash, after)
            && Contents(after) == Contents(cells)[key := value]
            && LiveSet(after) == LiveSet(cells) + {p}
  {
    var after := cells[p := Cell(HashWrapper(hash, key), key, value)];
    forall q | q in LiveSet(cells) ensures cells[q].key != key {
      assert cells[q].key in Contents(cells);
    }
    WellFormedWithout(hash, cells, after, p);
    assert LiveSet(after) == LiveSet(cells) + {p};
    StoredContents(cells, after, key, value, p);
  }

  lemma StoredContents<K, V>(cells: seq<Cell<K, V>>, after: seq<Cell<K, V>>, key: K, value: V, p: int)
    requires Distinct(cells) && Distinct(after) && |cells| == |after| && key !in Contents(cells)
    requires LiveSet(after) == LiveSet(cells) + {p}
    requires forall q :: q in LiveSet(cells) ==> after[q] == cells[q]
    requires p in LiveSet(after) && after[p].key == key && after[p].value == value
    ensures Contents(after) == Contents(cells)[key := value]
  {
    var m := Contents(cells)[key := value];
    forall k | k in m ensures k in Contents(after) && Contents(after)[k] == m[k] {
      if k != key {
        var q := HeldBy(cells, k);
        assert q in LiveSet(after) && after[q].key == k;
      }
    }
    forall k | k in Contents(after) ensures k in m {
      var q := HeldBy(after, k);
      assert q != p ==> cells[q].key in Contents(cells);
    }
  }

  /** Turning a live slot into a tombstone. */
  lemma Erased<K, V>(hash: K -> Hash32, cells: seq<Cell<K, V>>, p: int)
    requires WellFormed(hash, cells) && 0 <= p < |cells| && Live(cells[p])
    ensures var after := cells[p := cells[p].(slot := SLOT_RIP)];
            && WellFormed(hash, after)
            && Contents(after) == Contents(cells) - {cells[p].key}
            && LiveSet(after) == LiveSet(cells) - {p}
  {
    var after := cells[p := cells[p].(slot := SLOT_RIP)];
    WellFormedWithout(hash, cells, after, p);
    assert LiveSet(after) == LiveSet(cells) - {p};
    var m := Contents(cells) - {cells[p].key};
    forall k | k in m ensures k in Contents(after) && Contents(after)[k] == m[k] {
      var q := HeldBy(cells, k);
      assert q in LiveSet(after) && after[q].key == k;
    }
    forall k | k in Contents(after) ensures k in m {
      var q := HeldBy(after, k);
      assert q in LiveSet(cells) && cells[q].key == k && p in LiveSet(cells);
    }
  }
}

module HashMaps {
  import opened Wrappers
  import opened FiniteSets
  import opened ProbeOrbit
  import opened HashStorage

  datatype Status = HM_EXISTS | HM_OK | HM_OOM

  /** No 32-bit position sum wraps around in a table of at most 2^31 slots. */
  const MAX_TABLE_COUNT: nat := 0x8000_0000

  /** The load check of hashmap_insert, in 32-bit arithmetic. */
  predicate Overloaded(slotsUsed: nat, tableCount: nat)
    requires tableCount > 0
  {
    slotsUsed * 100 % UINT32 / tableCount >= REHASH_AT_PERCENT
  }

  /**
    * Every probe sequence of a table three times as large reaches more slots than are in use. That is enough
    * for growth whatever the hashes are, and more than some tables need whose hashes spread well.
    */
  ghost predicate GrowthHasRoom(slotsUsed: nat, tableCount: nat)
    requires tableCount > 0
  {
    forall h: nat :: |Orbit(h, EXPAND_FACTOR * tableCount)| > slotsUsed
  }

  /** A table that starts at a power of two (or at any 2^k * 3^n) can always grow. */
  lemma GrowthAlwaysHasRoom(k: nat, n: nat, slotsUsed: nat)
    requires slotsUsed <= Smooth(k, n)
    ensures GrowthHasRoom(slotsUsed, Smooth(k, n))
    ensures EXPAND_FACTOR * Smooth(k, n) == Smooth(k, n + 1)
  {
    GrowthKeepsSmooth(k, n);
    forall h: nat ensures |Orbit(h, EXPAND_FACTOR * Smooth(k, n))| > slotsUsed {
      OrbitAfterGrowth(k, n, h);
    }
  }

  /** Without a wrap-around, the table is overloaded from seven tenths on. */
  lemma OverloadedFromSevenTenths(slotsUsed: nat, tableCount: nat)
    requires tableCount > 0 && slotsUsed * 100 < UINT32
    ensures Overloaded(slotsUsed, tableCount) <==> 10 * slotsUsed >= 7 * tableCount
  {
    var x := slotsUsed * 100;
    Division(x, tableCount);
    if x >= 70 * tableCount {
      if x / tableCount < 70 {
        MulMonotone(x / tableCount, 69, tableCount);
      }
    } else {
      QuotientBound(x, tableCount, 70);
    }
  }

  /** Fewer entries than the old table had slots never overload the new one. */
  lemma NotOverloadedAfterGrowth(slotsUsed: nat, tableCount: nat)
    requires slotsUsed < tableCount
    ensures !Overloaded(slotsUsed, EXPAND_FACTOR * tableCount)
  {
    var x := slotsUsed * 100 % UINT32;
    assert x <= 100 * tableCount;
    QuotientBound(x, EXPAND_FACTOR * tableCount, 34);
  }

  lemma QuotientBound(x: nat, m: nat, b: nat)
    requires m > 0 && x < b * m
    ensures x / m < b
  {
    Division(x, m);
    MulMonotone(b, x / m, m);
  }

  lemma MulMonotone(b: nat, d: nat, m: nat)
    ensures b <= d ==> b * m <= d * m
  {
  }

  /** In a storage without tombstones a probe sequence that reaches more slots than are live meets an unused one. */
  lemma RoomMeansStop<K, V>(hash: K -> Hash32, cells: seq<Cell<K, V>>, key: K)
    requires |cells| > 0 && NoTombstones(cells)
    requires |Orbit(HashWrapper(hash, key), |cells|)| > |LiveSet(cells)|
    ensures ProbeStops(hash, cells, key)
  {
    var h := HashWrapper(hash, key);
    var p := ElementOutside(Orbit(h, |cells|), LiveSet(cells));
    var i :| 0 <= i < |cells| && p == Probe(h, |cells|, i);
    assert StopsAt(hash, cells, key, i);
  }

  /** The part of a storage that the first `n` turns of a rehash have copied. */
  ghost function LiveBelow<K, V>(cells: seq<Cell<K, V>>, n: int): set<int> {
    set p | p in LiveSet(cells) && p < n
  }

  ghost function ContentsBelow<K, V>(cells: seq<Cell<K, V>>, n: int): map<K, V>
    requires Distinct(cells)
  {
    map p | p in LiveBelow(cells, n) :: cells[p].key := cells[p].value
  }

  lemma CopyOneMore<K, V>(cells: seq<Cell<K, V>>, n: int)
    requires Distinct(cells) && 0 <= n < |cells| && Live(cells[n])
    ensures cells[n].key !in ContentsBelow(cells, n)
    ensures ContentsBelow(cells, n + 1) == ContentsBelow(cells, n)[cells[n].key := cells[n].value]
    ensures |LiveBelow(cells, n + 1)| == |LiveBelow(cells, n)| + 1 <= |LiveSet(cells)|
  {
    OneMoreLive(cells, n);
    var m, m' := ContentsBelow(cells, n), ContentsBelow(cells, n + 1);
    forall k | k in m ensures k in m' && m'[k] == m[k] && k != cells[n].key {
      var q :| q in LiveBelow(cells, n) && cells[q].key == k;
      assert q in LiveBelow(cells, n + 1);
    }
    OnlyOneMore(cells, n);
  }

  lemma OneMoreLive<K, V>(cells: seq<Cell<K, V>>, n: int)
    requires 0 <= n < |cells| && Live(cells[n])
    ensures LiveBelow(cells, n + 1) == LiveBelow(cells, n) + {n}
    ensures |LiveBelow(cells, n + 1)| == |LiveBelow(cells, n)| + 1 <= |LiveSet(cells)|
    ensures n in LiveSet(cells)
  {
    assert n in LiveSet(cells);
    assert LiveBelow(cells, n + 1) == LiveBelow(cells, n) + {n};
    SubsetCardinality(LiveBelow(cells, n + 1), LiveSet(cells));
  }

  lemma OnlyOneMore<K, V>(cells: seq<Cell<K, V>>, n: int)
    requires Distinct(cells) && 0 <= n < |cells| && n in LiveSet(cells)
    ensures var m' := ContentsBelow(cells, n + 1);
            && cells[n].key in m' && m'[cells[n].key] == cells[n].value
            && forall k :: k in m' ==> k in ContentsBelow(cells, n) || k == cells[n].key
  {
    var m' := ContentsBelow(cells, n + 1);
    assert n in LiveBelow(cells, n + 1);
    forall k | k in m' ensures k in ContentsBelow(cells, n) || k == cells[n].key {
      var q :| q in LiveBelow(cells, n + 1) && cells[q].key == k;
      assert q != n ==> q in LiveBelow(cells, n);
    }
  }

  lemma CopySkips<K, V>(cells: seq<Cell<K, V>>, n: int)
    requires Distinct(cells) && 0 <= n < |cells| && !Live(cells[n])
    ensures ContentsBelow(cells, n + 1) == ContentsBelow(cells, n)
    ensures LiveBelow(cells, n + 1) == LiveBelow(cells, n)
  {
    assert LiveBelow(cells, n + 1) == LiveBelow(cells, n);
  }

  lemma CopiedAll<K, V>(cells: seq<Cell<K, V>>)
    requires Distinct(cells)
    ensures ContentsBelow(cells, |cells|) == Contents(cells)
    ensures LiveBelow(cells, |cells|) == LiveSet(cells)
  {
    assert LiveBelow(cells, |cells|) == LiveSet(cells);
  }

  /** One turn of a probe loop, in 32-bit arithmetic. */
  function NextPosition(pos: nat, i: nat, tableCount: nat): nat
    requires tableCount > 0
  {
    (pos + i) % UINT32 % tableCount
  }

  /** The probe loop for `key` has come to `pos` after `i` steps without a reason to stop. */
  ghost predicate Probed<K, V>(hash: K -> Hash32, cells: seq<Cell<K, V>>, key: K, i: nat, pos: nat)
    requires |cells| > 0
  {
    && pos == Probe(HashWrapper(hash, key), |cells|, i)
    && forall j: nat :: j < i ==> !StopsAt(hash, cells, key, j)
  }

  lemma ProbedFirst<K, V>(hash: K -> Hash32, cells: seq<Cell<K, V>>, key: K)
    requires |cells| > 0
    ensures Probed(hash, cells, key, 0, HashWrapper(hash, key) % |cells|)
  {
  }

  lemma ProbedNext<K, V>(hash: K -> Hash32, cells: seq<Cell<K, V>>, key: K, i: nat, pos: nat)
    requires 0 < |cells| <= MAX_TABLE_COUNT && i + 1 < |cells|
    requires Probed(hash, cells, key, i, pos) && !StopsAt(hash, cells, key, i)
    ensures Probed(hash, cells, key, i + 1, NextPosition(pos, i + 1, |cells|))
  {
    ProbeStep(HashWrapper(hash, key), |cells|, i);
    assert pos + (i + 1) < UINT32;
  }

  /** What a probe loop knows at `pos`: the slot is on the path, and it decides whether to stop. */
  lemma ProbedHere<K, V>(hash: K -> Hash32, cells: seq<Cell<K, V>>, key: K, i: nat, pos: nat)
    requires WellFormed(hash, cells) && Probed(hash, cells, key, i, pos)
    ensures pos < |cells| && OnPath(cells, HashWrapper(hash, key), pos)
    ensures StopsAt(hash, cells, key, i) <==>
              cells[pos].slot == SLOT_UNUSED || Matches(cells[pos], HashWrapper(hash, key), key)
    ensures cells[pos].slot == SLOT_UNUSED ==> key !in Contents(cells)
    ensures Matches(cells[pos], HashWrapper(hash, key), key) ==>
              && Live(cells[pos]) && key in Contents(cells) && Contents(cells)[key] == cells[pos].value
  {
    assert PathTo(cells, HashWrapper(hash, key), pos, i) by {
      forall j: nat | j < i ensures At(cells, HashWrapper(hash, key), j).slot != SLOT_UNUSED {
        assert !StopsAt(hash, cells, key, j);
      }
    }
    if cells[pos].slot == SLOT_UNUSED {
      forall j: nat | j < i ensures !Matches(At(cells, HashWrapper(hash, key), j), HashWrapper(hash, key), key) {
        assert !StopsAt(hash, cells, key, j);
      }
      AbsentAtUnused(hash, cells, key, i);
    }
    if Matches(cells[pos], HashWrapper(hash, key), key) {
      FoundAt(hash, cells, key, pos);
    }
  }

  /** A stop is never passed: while the loop goes on, it has not come to step `stop`. */
  lemma NothingUnusedBefore<K, V>(hash: K -> Hash32, cells: seq<Cell<K, V>>, key: K, i: nat, pos: nat)
    requires |cells| > 0 && Probed(hash, cells, key, i, pos)
    ensures forall j: nat :: j < i ==> At(cells, HashWrapper(hash, key), j).slot != SLOT_UNUSED
  {
    forall j: nat | j < i ensures At(cells, HashWrapper(hash, key), j).slot != SLOT_UNUSED {
      assert !StopsAt(hash, cells, key, j);
    }
  }

  lemma LiveBound<K, V>(cells: seq<Cell<K, V>>)
    ensures |LiveSet(cells)| <= |cells|
  {
    SubsetCardinality(LiveSet(cells), Range(|cells|));
  }

  /**
    * Where an insertion that meets its first unused slot after `stop` steps puts the entry: at the last
    * tombstone before that, or there if it met none.
    */
  ghost predicate InsertionPoint<K, V>(cells: seq<Cell<K, V>>, h: nat, stop: nat, pos: nat)
    requires |cells| > 0
  {
    && At(cells, h, stop).slot == SLOT_UNUSED && (forall j: nat :: j < stop ==> At(cells, h, j).slot != SLOT_UNUSED)
    && (LastTombstone(cells, h, stop, pos) || (NoTombstoneFrom(cells, h, 0, stop) && pos == Probe(h, |cells|, stop)))
  }

  ghost predicate NoTombstoneFrom<K, V>(cells: seq<Cell<K, V>>, h: nat, i: nat, stop: nat)
    requires |cells| > 0
  {
    forall j: nat :: i <= j < stop ==> At(cells, h, j).slot != SLOT_RIP
  }

  ghost predicate TombstoneAt<K, V>(cells: seq<Cell<K, V>>, h: nat, i: nat, stop: nat, pos: nat)
    requires |cells| > 0
  {
    i < stop && At(cells, h, i).slot == SLOT_RIP && pos == Probe(h, |cells|, i) && NoTombstoneFrom(cells, h, i + 1, stop)
  }

  ghost predicate LastTombstone<K, V>(cells: seq<Cell<K, V>>, h: nat, stop: nat, pos: nat)
    requires |cells| > 0
  {
    exists i: nat :: TombstoneAt(cells, h, i, stop, pos)
  }

  /** Nothing but the mark of slot `p` changes: its key and value stay, for the caller to read. */
  function Buried<K, V>(cells: seq<Cell<K, V>>, p: nat): seq<Cell<K, V>> {
    if p < |cells| then cells[p := Cell(1, cells[p].key, cells[p].value)] else cells
  }

  /** The only slot written is the insertion point of the key. */
  ghost predicate EntersAt<K, V>(before: seq<Cell<K, V>>, after: seq<Cell<K, V>>, h: nat, key: K, pos: nat)
    requires |before| > 0
  {
    && pos < |before| == |after| && after == before[pos := Cell(h, key, after[pos].value)]
    && HasInsertionPoint(before, h, pos)
  }

  ghost predicate HasInsertionPoint<K, V>(cells: seq<Cell<K, V>>, h: nat, pos: nat)
    requires |cells| > 0
  {
    exists stop: nat :: InsertionPoint(cells, h, stop, pos)
  }

  /** One turn of the probe loop, as far as tombstones go. `last` is SLOT_INVALID while none was met. */
  ghost predicate TombstonesSeen<K, V>(cells: seq<Cell<K, V>>, h: nat, i: nat, last: nat)
    requires |cells| > 0
  {
    if last == SLOT_INVALID then NoTombstoneFrom(cells, h, 0, i) else LastTombstone(cells, h, i, last)
  }

  lemma TombstonesNext<K, V>(cells: seq<Cell<K, V>>, h: nat, i: nat, last: nat, pos: nat)
    requires |cells| > 0 && TombstonesSeen(cells, h, i, last) && pos == Probe(h, |cells|, i) && pos != SLOT_INVALID
    ensures TombstonesSeen(cells, h, i + 1, if cells[pos].slot == SLOT_RIP then pos else last)
  {
    if cells[pos].slot == SLOT_RIP {
      assert TombstoneAt(cells, h, i, i + 1, pos);
    } else if last != SLOT_INVALID {
      var j: nat :| TombstoneAt(cells, h, j, i, last);
      assert TombstoneAt(cells, h, j, i + 1, last);
    }
  }

  ghost predicate NoTombstones<K, V>(cells: seq<Cell<K, V>>) {
    forall p :: 0 <= p < |cells| ==> cells[p].slot != SLOT_RIP
  }

  /** No slot has become unused or a tombstone. */
  ghost predicate NoNewMarks<K, V>(before: seq<Cell<K, V>>, after: seq<Cell<K, V>>) {
    && |before| == |after|
    && (forall p :: 0 <= p < |after| && after[p].slot == SLOT_UNUSED ==> before[p].slot == SLOT_UNUSED)
    && (forall p :: 0 <= p < |after| && after[p].slot == SLOT_RIP ==> before[p].slot == SLOT_RIP)
  }

  /** Every entry of the map once, and nothing else. */
  ghost predicate Visits<K, V>(visited: seq<(K, V)>, m: map<K, V>) {
    && (forall i :: 0 <= i < |visited| ==> visited[i].0 in m && m[visited[i].0] == visited[i].1)
    && (forall i, j :: 0 <= i < j < |visited| ==> visited[i].0 != visited[j].0)
    && (forall k :: k in m ==> exists i :: 0 <= i < |visited| && visited[i].0 == k)
  }

  lemma VisitsOneMore<K, V>(visited: seq<(K, V)>, m: map<K, V>, key: K, value: V)
    requires Visits(visited, m) && key !in m
    ensures Visits(visited + [(key, value)], m[key := value])
  {
    var more, m' := visited + [(key, value)], m[key := value];
    forall k | k in m' ensures exists i :: 0 <= i < |more| && more[i].0 == k {
      if k == key {
        assert more[|visited|].0 == k;
      } else {
        var i :| 0 <= i < |visited| && visited[i].0 == k;
        assert more[i].0 == k;
      }
    }
  }

  ghost predicate SeenBelow<K, V>(visited: seq<(K, V)>, cells: seq<Cell<K, V>>, n: int) {
    Distinct(cells) && Visits(visited, ContentsBelow(cells, n)) && |visited| == |LiveBelow(cells, n)|
  }

  lemma SeenNext<K, V>(visited: seq<(K, V)>, cells: seq<Cell<K, V>>, n: int)
    requires 0 <= n < |cells| && SeenBelow(visited, cells, n)
    ensures Live(cells[n]) ==> SeenBelow(visited + [(cells[n].key, cells[n].value)], cells, n + 1)
    ensures !Live(cells[n]) ==> SeenBelow(visited, cells, n + 1)
  {
    if Live(cells[n]) {
      CopyOneMore(cells, n);
      VisitsOneMore(visited, ContentsBelow(cells, n), cells[n].key, cells[n].value);
    } else {
      CopySkips(cells, n);
    }
  }

  lemma SeenNone<K, V>(cells: seq<Cell<K, V>>)
    requires Distinct(cells)
    ensures SeenBelow([], cells, 0)
  {
    assert LiveBelow(cells, 0) == {};
  }

  lemma StoredCounts<K, V>(hash: K -> Hash32, cells: seq<Cell<K, V>>, key: K, value: V, p: int)
    requires WellFormed(hash, cells) && key !in Contents(cells)
    requires 0 <= p < |cells| && !Live(cells[p]) && OnPath(cells, HashWrapper(hash, key), p)
    ensures var after := cells[p := Cell(HashWrapper(hash, key), key, value)];
            && WellFormed(hash, after) && Contents(after) == Contents(cells)[key := value]
            && |LiveSet(after)| == |LiveSet(cells)| + 1 && NoNewMarks(cells, after)
  {
    Stored(hash, cells, key, value, p);
    assert p !in LiveSet(cells);
  }

  class HashMap<K(==, 0), V(0)> {
    const hash: K -> Hash32
    var tableCount: nat
    var slotsUsed: nat
    var storage: array<Cell<K, V>>

    ghost predicate Valid()
      reads this, storage
    {
      && storage.Length == tableCount <= MAX_TABLE_COUNT
      && WellFormed(hash, storage[..])
      && slotsUsed == |LiveSet(storage[..])|
    }

    ghost function Map(): map<K, V>
      reads this, storage
      requires Valid()
    {
      Contents(storage[..])
    }

    predicate NeedsRehash()
      reads this
      requires tableCount > 0
    {
      Overloaded(slotsUsed, tableCount)
    }

    constructor InitWithOptions(hash: K -> Hash32, tableCount: nat)
      requires 0 < tableCount <= MAX_TABLE_COUNT
      ensures Valid() && fresh(storage) && Map() == map[]
      ensures this.hash == hash && this.tableCount == tableCount
      ensures forall p :: 0 <= p < tableCount ==> storage[p].slot == SLOT_UNUSED
    {
      this.hash := hash;
      this.tableCount := tableCount;
      slotsUsed := 0;
      var k: K := *;
      var v: V := *;
      storage := new Cell<K, V>[tableCount](_ => Cell(SLOT_UNUSED, k, v));
      new;
      assert LiveSet(storage[..]) == {};
    }

    /** The probe loop of an insertion: where the key is, or where a new entry for it goes. */
    method FindSlot(key: K) returns (found: bool, pos: nat)
      requires Valid() && ProbeStops(hash, storage[..], key)
      ensures pos < tableCount
      ensures found <==> key in Map()
      ensures !found ==> !Live(storage[pos]) && OnPath(storage[..], HashWrapper(hash, key), pos)
      ensures !found ==> HasInsertionPoint(storage[..], HashWrapper(hash, key), pos)
    {
      ghost var cells := storage[..];
      ghost var stop := StopsWithinTable(hash, cells, key);
      var h := HashWrapper(hash, key);
      pos := h % tableCount;
      var i: nat := 0;
      var lastTombstone: nat := SLOT_INVALID;
      ProbedFirst(hash, cells, key);
      ProbedHere(hash, cells, key, i, pos);
      while storage[pos].slot != SLOT_UNUSED
        invariant Probed(hash, cells, key, i, pos) && pos < tableCount && i <= stop
        invariant lastTombstone != SLOT_INVALID ==>
                    && lastTombstone < tableCount && cells[lastTombstone].slot == SLOT_RIP
                    && OnPath(cells, h, lastTombstone)
        invariant TombstonesSeen(cells, h, i, lastTombstone)
        decreases stop - i
      {
        ProbedHere(hash, cells, key, i, pos);
        TombstonesNext(cells, h, i, lastTombstone, pos);
        if storage[pos].slot == h {
          if storage[pos].key == key {
            return true, pos;
          }
        } else if storage[pos].slot == SLOT_RIP {
          lastTombstone := pos;
        }
        assert i != stop;
        ProbedNext(hash, cells, key, i, pos);
        i := i + 1;
        pos := NextPosition(pos, i, tableCount);
        ProbedHere(hash, cells, key, i, pos);
      }
      ProbedHere(hash, cells, key, i, pos);
      NothingUnusedBefore(hash, cells, key, i, pos);
      if lastTombstone != SLOT_INVALID {
        pos := lastTombstone;
      }
      assert InsertionPoint(cells, h, i, pos);
      return false, pos;
    }

    /** The part of hashmap_insert after the load check. */
    method Place(key: K, value: Option<V>) returns (status: Status)
      requires Valid() && ProbeStops(hash, storage[..], key)
      modifies this`slotsUsed, storage
      ensures Valid()
      ensures status == if key in old(Map()) then HM_EXISTS else HM_OK
      ensures status == HM_EXISTS ==> Map() == old(Map()) && slotsUsed == old(slotsUsed)
      ensures status == HM_OK ==> key in Map() && Map() == old(Map())[key := Map()[key]]
      ensures status == HM_OK && value.Some? ==> Map()[key] == value.value
      ensures status == HM_OK ==> slotsUsed == old(slotsUsed) + 1
      ensures NoNewMarks(old(storage[..]), storage[..])
      ensures status == HM_OK ==>
                exists pos :: EntersAt(old(storage[..]), storage[..], HashWrapper(hash, key), key, pos)
    {
      var found, pos := FindSlot(key);
      if found {
        return HM_EXISTS;
      }
      var v := if value.Some? then value.value else storage[pos].value;
      ghost var cells := storage[..];
      Store(pos, key, v);
      assert EntersAt(cells, storage[..], HashWrapper(hash, key), key, pos);
      return HM_OK;
    }

    /** Stores hash, key and value in a slot that holds no entry. */
    method Store(pos: nat, key: K, value: V)
      requires Valid() && pos < tableCount && key !in Map()
      requires !Live(storage[pos]) && OnPath(storage[..], HashWrapper(hash, key), pos)
      modifies this`slotsUsed, storage
      ensures Valid() && Map() == old(Map())[key := value]
      ensures slotsUsed == old(slotsUsed) + 1
      ensures NoNewMarks(old(storage[..]), storage[..])
      ensures storage[..] == old(storage[..])[pos := Cell(HashWrapper(hash, key), key, value)]
    {
      ghost var cells := storage[..];
      StoredCounts(hash, cells, key, value, pos);
      storage[pos] := Cell(HashWrapper(hash, key), key, value);
      assert storage[..] == cells[pos := Cell(HashWrapper(hash, key), key, value)];
      slotsUsed := slotsUsed + 1;
    }

    /** hashmap_insert. `value` is None for a NULL value pointer; `allocOk` is the allocator's answer. */
    method Insert(key: K, value: Option<V>, allocOk: bool) returns (status: Status)
      requires Valid()
      requires !NeedsRehash() ==> ProbeStops(hash, storage[..], key)
      requires NeedsRehash() && allocOk ==>
                 EXPAND_FACTOR * tableCount <= MAX_TABLE_COUNT && GrowthHasRoom(slotsUsed, tableCount)
      modifies this, storage
      ensures Valid()
      ensures status == HM_OOM <==> old(NeedsRehash()) && !allocOk
      ensures status == HM_EXISTS <==> status != HM_OOM && key in old(Map())
      ensures status != HM_OK ==> Map() == old(Map()) && slotsUsed == old(slotsUsed)
      ensures status == HM_OK ==> key in Map() && Map() == old(Map())[key := Map()[key]]
      ensures status == HM_OK && value.Some? ==> Map()[key] == value.value
      ensures status == HM_OK ==> slotsUsed == old(slotsUsed) + 1
      ensures tableCount == if old(NeedsRehash()) && allocOk then EXPAND_FACTOR * old(tableCount) else old(tableCount)
      ensures if old(NeedsRehash()) && allocOk then fresh(storage) else storage == old(storage)
      ensures if old(NeedsRehash()) && allocOk then NoTombstones(storage[..]) else NoNewMarks(old(storage[..]), storage[..])
      ensures !old(NeedsRehash()) && status == HM_OK ==>
                exists pos :: EntersAt(old(storage[..]), storage[..], HashWrapper(hash, key), key, pos)
      decreases if NeedsRehash() then 1 else 0, 0
    {
      if NeedsRehash() {
        var resized := ResizeRehash(EXPAND_FACTOR * tableCount, allocOk);
        if !resized {
          return HM_OOM;
        }
        RoomMeansStop(hash, storage[..], key);
      }
      status := Place(key, value);
    }

    /** resize_rehash: re-inserts every live entry into a new table. */
    method ResizeRehash(newTableCount: nat, allocOk: bool) returns (resized: bool)
      requires Valid() && NeedsRehash() && newTableCount == EXPAND_FACTOR * tableCount
      requires allocOk ==> newTableCount <= MAX_TABLE_COUNT && GrowthHasRoom(slotsUsed, tableCount)
      modifies this
      ensures Valid() && resized == allocOk
      ensures Map() == old(Map()) && slotsUsed == old(slotsUsed)
      ensures if resized then fresh(storage) && tableCount == newTableCount
              else storage == old(storage) && tableCount == old(tableCount)
      ensures resized ==> NoTombstones(storage[..])
      decreases 0, 2
    {
      if !allocOk {
        return false;
      }
      var newHm := new HashMap<K, V>.InitWithOptions(hash, newTableCount);
      assert LiveBelow(storage[..], 0) == {};
      for i := 0 to tableCount
        invariant unchanged(this) && unchanged(storage)
        invariant fresh(newHm) && fresh(newHm.storage) && newHm.hash == hash
        invariant newHm.tableCount == newTableCount && newHm.Holds(storage[..], i)
      {
        CopyEntry(newHm, i, allocOk);
      }
      CopiedAll(storage[..]);
      storage := newHm.storage;
      tableCount := newTableCount;
      return true;
    }

    /** This table holds exactly the entries in the first `n` slots of `cells`, and no tombstone. */
    ghost predicate Holds(cells: seq<Cell<K, V>>, n: int)
      reads this, storage
    {
      && Valid() && Distinct(cells)
      && Map() == ContentsBelow(cells, n)
      && slotsUsed == |LiveBelow(cells, n)|
      && NoTombstones(storage[..])
    }

    /** One turn of the rehash loop. The insertion it makes finds no overload and never fails. */
    method CopyEntry(newHm: HashMap<K, V>, i: nat, allocOk: bool)
      requires Valid() && GrowthHasRoom(slotsUsed, tableCount) && i < tableCount
      requires newHm != this && newHm.storage != storage && newHm.hash == hash
      requires newHm.tableCount == EXPAND_FACTOR * tableCount && newHm.Holds(storage[..], i)
      modifies newHm, newHm.storage
      ensures newHm.storage == old(newHm.storage) && newHm.tableCount == old(newHm.tableCount)
      ensures newHm.Holds(storage[..], i + 1)
      decreases 0, 1
    {
      ghost var cells := storage[..];
      if storage[i].slot == SLOT_UNUSED || storage[i].slot == SLOT_RIP {
        CopySkips(cells, i);
      } else {
        CopyOneMore(cells, i);
        LiveBound(cells);
        NotOverloadedAfterGrowth(newHm.slotsUsed, tableCount);
        RoomMeansStop(hash, newHm.storage[..], storage[i].key);
        assert !newHm.NeedsRehash();
        var status := newHm.Insert(storage[i].key, Some(storage[i].value), allocOk);
        assert status == HM_OK;
        assert storage[..] == cells;
      }
    }

    /** hashmap_erase: the position whose value is returned, or None when the key is absent. */
    method Erase(key: K) returns (pos: Option<nat>)
      requires Valid() && ProbeStops(hash, storage[..], key)
      modifies this`slotsUsed, storage
      ensures Valid()
      ensures pos.Some? <==> key in old(Map())
      ensures Map() == old(Map()) - {key}
      ensures pos.Some? ==> pos.value < tableCount && storage[pos.value].value == old(Map())[key]
      ensures slotsUsed == if pos.Some? then old(slotsUsed) - 1 else old(slotsUsed)
      ensures storage[..] == if pos.Some? then Buried(old(storage[..]), pos.value) else old(storage[..])
      ensures forall p :: 0 <= p < tableCount ==>
                (storage[p].slot == SLOT_UNUSED <==> old(storage[p].slot) == SLOT_UNUSED)
    {
      pos := Find(key);
      if pos.Some? {
        MakeTombstone(pos.value);
      }
    }

    method MakeTombstone(p: nat)
      requires Valid() && p < tableCount && Live(storage[p])
      modifies this`slotsUsed, storage
      ensures Valid() && Map() == old(Map()) - {old(storage[p].key)}
      ensures slotsUsed == old(slotsUsed) - 1
      ensures storage[..] == Buried(old(storage[..]), p)
    {
      ghost var cells := storage[..];
      Erased(hash, cells, p);
      slotsUsed := slotsUsed - 1;
      storage[p] := storage[p].(slot := SLOT_RIP);
      assert storage[..] == cells[p := cells[p].(slot := SLOT_RIP)];
    }

    /** hashmap_find: the position of the value of `key`, or None. The loop of hashmap_erase is the same. */
    method Find(key: K) returns (pos: Option<nat>)
      requires Valid() && ProbeStops(hash, storage[..], key)
      ensures pos.Some? <==> key in Map()
      ensures pos.Some? ==>
                && pos.value < tableCount && Live(storage[pos.value])
                && storage[pos.value].key == key && storage[pos.value].value == Map()[key]
    {
      ghost var cells := storage[..];
      ghost var stop := StopsWithinTable(hash, cells, key);
      var h := HashWrapper(hash, key);
      var p: nat := h % tableCount;
      var i: nat := 0;
      ProbedFirst(hash, cells, key);
      while true
        invariant Probed(hash, cells, key, i, p) && i <= stop
        decreases stop - i
      {
        ProbedHere(hash, cells, key, i, p);
        if storage[p].slot == h {
          if storage[p].key == key {
            return Some(p);
          }
        } else if storage[p].slot == SLOT_UNUSED {
          return None;
        }
        assert i != stop;
        ProbedNext(hash, cells, key, i, p);
        i := i + 1;
        p := NextPosition(p, i, tableCount);
      }
    }

    /** HASHMAP_FOR_EACH: the keys and values its body sees, in this order. */
    method ForEach() returns (visited: seq<(K, V)>)
      requires Valid()
      ensures Visits(visited, Map()) && |visited| == slotsUsed
    {
      visited := [];
      SeenNone(storage[..]);
      for i := 0 to tableCount
        invariant SeenBelow(visited, storage[..], i)
      {
        SeenNext(visited, storage[..], i);
        if storage[i].slot == SLOT_UNUSED || storage[i].slot == SLOT_RIP || storage[i].slot == SLOT_INVALID {
          continue;
        }
        visited := visited + [(storage[i].key, storage[i].value)];
      }
      CopiedAll(storage[..]);
    }
  }

  /** slots_used, which hashmap_count reports, is the number of keys. */
  lemma CountIsMapSize<K, V>(cells: seq<Cell<K, V>>)
    requires Distinct(cells)
    ensures |LiveSet(cells)| == |Contents(cells)|
  {
    var m := Contents(cells);
    var f := (p: int) => if 0 <= p < |cells| then Option.Some(cells[p].key) else None;
    InjectiveImageSize(LiveSet(cells), f);
    var g := (k: K) => Option.Some(k);
    InjectiveImageSize(m.Keys, g);
    forall k | k in m.Keys ensures g(k) in Image(LiveSet(cells), f) {
      var p := HeldBy(cells, k);
    }
    forall p | p in LiveSet(cells) ensures f(p) in Image(m.Keys, g) {
      assert cells[p].key in m.Keys && f(p) == g(cells[p].key);
    }
    assert Image(LiveSet(cells), f) == Image(m.Keys, g);
    assert |m| == |m.Keys|;
  }
}
