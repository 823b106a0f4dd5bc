// The allocation tracker: counters, bytes in use and a report of live blocks, kept in a hash map
// that allocates through the tracker itself.

module BlockSizes {

  type Address = nat

  /** The sum of the sizes of all blocks. */
  ghost function Total(blocks: map<Address, nat>): nat {
    if blocks == map[] then
      0
    else
      var p :| p in blocks;
      blocks[p] + Total(blocks - {p})
  }

  lemma {:induction false} TotalWithout(blocks: map<Address, nat>, p: Address)
    requires p in blocks
    ensures Total(blocks) == Total(blocks - {p}) + blocks[p]
    decreases |blocks|
  {
    var q :| q in blocks && Total(blocks) == blocks[q] + Total(blocks - {q});
    if q != p {
      assert blocks - {q} - {p} == blocks - {p} - {q};
      assert |blocks - {q}| < |blocks| && |blocks - {p}| < |blocks| by {
        Smaller(blocks, q);
        Smaller(blocks, p);
      }
      TotalWithout(blocks - {q}, p);
      TotalWithout(blocks - {p}, q);
    }
  }

  lemma Smaller(blocks: map<Address, nat>, p: Address)
    requires p in blocks
    ensures |blocks - {p}| == |blocks| - 1
  {
    assert blocks.Keys == (blocks - {p}).Keys + {p};
    assert |blocks.Keys| == |blocks| && |(blocks - {p}).Keys| == |blocks - {p}|;
  }

  lemma TotalWith(blocks: map<Address, nat>, p: Address, size: nat)
    requires p !in blocks
    ensures Total(blocks[p := size]) == Total(blocks) + size
    ensures |blocks[p := size]| == |blocks| + 1
  {
    assert blocks[p := size] - {p} == blocks;
    TotalWithout(blocks[p := size], p);
    Smaller(blocks[p := size], p);
  }
}

module AllocationTracker {
  import opened Wrappers
  import opened BlockSizes
  import FiniteSets
  import HashMaps
  import HashStorage

  const INITIAL_TABLE_COUNT: nat := 4096

  lemma MaximumOfTwo(history: seq<int>)
    requires history != []
    ensures MaximumOf(history) >= history[|history| - 1]
  {
  }

  lemma WithinWithout(part: map<Address, nat>, whole: map<Address, nat>, p: Address)
    requires Within(part, whole)
    ensures Within(part - {p}, whole - {p})
  {
  }

  lemma WithinGrows(part: map<Address, nat>, whole: map<Address, nat>, p: Address, size: nat)
    requires Within(part, whole) && p !in whole
    ensures Within(part, whole[p := size]) && Within(part[p := size], whole[p := size])
  {
  }

  ghost predicate Within(part: map<Address, nat>, whole: map<Address, nat>) {
    forall p :: p in part ==> p in whole && part[p] == whole[p]
  }

  lemma WithinCount(part: map<Address, nat>, whole: map<Address, nat>)
    requires Within(part, whole)
    ensures |part| <= |whole| && (|part| == |whole| <==> part == whole)
  {
    assert |part| == |part.Keys| && |whole| == |whole.Keys|;
    FiniteSets.SubsetCardinality(part.Keys, whole.Keys);
    if |part| == |whole| && part.Keys != whole.Keys {
      FiniteSets.SubsetCardinality(part.Keys, whole.Keys);
    }
  }

  /** The greatest value a history holds. */
  ghost function MaximumOf(history: seq<int>): int {
    if |history| <= 1 then
      if history == [] then 0 else history[0]
    else
      var rest, last := MaximumOf(history[..|history| - 1]), history[|history| - 1];
      if rest < last then last else rest
  }

  lemma {:induction false} MaximumIsGreatest(history: seq<int>)
    requires history != []
    ensures MaximumOf(history) in history
    ensures forall i :: 0 <= i < |history| ==> history[i] <= MaximumOf(history)
  {
    if |history| > 1 {
      MaximumIsGreatest(history[..|history| - 1]);
    }
  }

  lemma MaximumGrows(history: seq<int>, x: int)
    requires history != []
    ensures MaximumOf(history + [x]) == if MaximumOf(history) < x then x else MaximumOf(history)
    ensures (history + [x])[|history|] == x
  {
    assert (history + [x])[..|history|] == history;
  }

  /**
   * The globals of the tracker, the report as the finite map its hash map refines, and the blocks
   * the C allocator has handed out. `slotSize` is the size of one slot of the report.
   */
  class Tracker {
    const slotSize: nat
    var allocations: nat
    var deallocations: nat
    var ignoreHmMalloc: bool
    var bytesInUse: nat
    var bytesInUsePeak: nat
    var report: map<Address, nat>
    var tableCount: nat
    var storage: Address

    /** Every block allocated through the tracker and not freed yet. */
    ghost var heap: set<Address>
    /** Those of them the program asked for, with their sizes; the rest is the report's storage. */
    ghost var user: map<Address, nat>
    /** Bytes counted for blocks whose record was lost because the report could not grow. */
    ghost var uncollected: nat
    /** Every value bytesInUse has had. */
    ghost var history: seq<int>

    /** What holds between calls. */
    ghost predicate Valid()
      reads this
    {
      !ignoreHmMalloc && Consistent() && Balanced(user)
    }

    /** Blocks and counters agree, even while the report is being changed. */
    ghost predicate Consistent()
      reads this
    {
      tableCount > 0 && HeapIsKnown() && allocations == deallocations + |user| + 1
    }

    /** Between the C allocator's answer and its recording: one allocation has no block yet. */
    ghost predicate Awaiting()
      reads this
    {
      !ignoreHmMalloc && tableCount > 0 && HeapIsKnown() && Balanced(user)
      && allocations == deallocations + |user| + 2
    }

    ghost predicate HeapIsKnown()
      reads this
    {
      && storage !in user && storage in heap
      && (forall p :: p in user ==> p in heap)
      && (forall p :: p in heap ==> p in user || p == storage)
    }

    /** The report and the byte counts stand for the given user blocks. */
    ghost predicate Balanced(blocks: map<Address, nat>)
      reads this
    {
      && Within(report, blocks)
      && bytesInUse == Total(report) + uncollected
      && bytesInUsePeak == MaximumOf(history) && history != [] && history[|history| - 1] == bytesInUse
    }

    /** No record was ever lost: then the figures are exact. */
    ghost predicate Exact()
      reads this
    {
      report == user && uncollected == 0
    }

    /** Whether all records but that of `p` have been kept. */
    ghost predicate ExactWithout(p: Option<Address>)
      reads this
    {
      uncollected == 0 && forall q :: q in user && Some(q) != p ==> q in report
    }

    /** By how much the byte count exceeds the live blocks. */
    ghost function Excess(): int
      reads this
    {
      bytesInUse - Total(user)
    }

    /** The bytes that freeing `p` leaves counted: its size if its record was lost. */
    ghost function Stranded(p: Option<Address>): nat
      reads this
    {
      if p.Some? && p.value in user && p.value !in report then user[p.value] else 0
    }

    /** memory_init, when the report's first storage can be had. */
    constructor Init(slotSize: nat, initialStorage: Address)
      ensures Valid() && Exact()
      ensures user == map[] && report == map[] && history == [0]
      ensures allocations == 1 && deallocations == 0
      ensures tableCount == INITIAL_TABLE_COUNT && storage == initialStorage
    {
      this.slotSize := slotSize;
      allocations, deallocations := 0, 0;
      bytesInUse, bytesInUsePeak := 0, 0;
      ignoreHmMalloc := true;
      report, tableCount, storage := map[], INITIAL_TABLE_COUNT, initialStorage;
      heap, user, uncollected, history := {}, map[], 0, [0];
      new;
      var p := Malloc(slotSize * tableCount, Some(initialStorage), None);
      ignoreHmMalloc := false;
    }

    /** The load check of hashmap_insert for a number of records, without its division. */
    predicate Full(records: nat)
      reads this
      requires tableCount > 0
    {
      records * 100 % HashStorage.UINT32 >= HashStorage.REHASH_AT_PERCENT * tableCount
    }

    predicate ReportIsFull()
      reads this
      requires tableCount > 0
    {
      Full(|report|)
    }

    lemma FullIsOverloaded(records: nat)
      requires tableCount > 0
      ensures Full(records) <==> HashMaps.Overloaded(records, tableCount)
    {
    }

    /** The C allocator either fails or returns a block that nobody holds. */
    ghost predicate CanReturn(p: Option<Address>)
      reads this
    {
      p.Some? ==> p.value !in heap
    }

    /** If a report with so many records has to grow and can, the larger table is within bounds. */
    ghost predicate CanGrow(records: nat, forReport: Option<Address>)
      reads this
      requires tableCount > 0
    {
      Full(records) && forReport.Some? ==> HashStorage.EXPAND_FACTOR * tableCount <= HashMaps.MAX_TABLE_COUNT
    }

    twostate predicate RecordsUnchanged()
      reads this
    {
      && ignoreHmMalloc == old(ignoreHmMalloc)
      && report == old(report) && tableCount == old(tableCount) && storage == old(storage)
      && user == old(user) && BytesUnchanged()
    }

    twostate predicate BytesUnchanged()
      reads this
    {
      && bytesInUse == old(bytesInUse) && bytesInUsePeak == old(bytesInUsePeak)
      && uncollected == old(uncollected) && history == old(history)
    }

    /**
     * The figures after counting a block of the given size, of which the report keeps a record if
     * `recorded`.
     */
    twostate predicate Counted(size: nat, before: nat, recorded: bool)
      reads this
    {
      && bytesInUse == before + size
      && bytesInUsePeak == (if old(bytesInUsePeak) < bytesInUse then bytesInUse else old(bytesInUsePeak))
      && uncollected == old(uncollected) + (if recorded then 0 else size)
    }

    /** Growing frees the old storage of the report and takes a larger one. */
    twostate predicate Grew(grew: bool, forReport: Option<Address>)
      reads this
    {
      && deallocations == old(deallocations) + (if grew then 1 else 0)
      && tableCount == (if grew then HashStorage.EXPAND_FACTOR * old(tableCount) else old(tableCount))
      && (if grew then Some(storage) == forReport else storage == old(storage))
    }

    /**
     * `fromC` is what the C allocator returns, and `forReport` what it would return for new report
     * storage.
     */
    method Malloc(size: nat, fromC: Option<Address>, forReport: Option<Address>) returns (p: Option<Address>)
      requires CanReturn(fromC)
      requires !ignoreHmMalloc ==>
                 Valid() && CanReturn(forReport) && CanGrow(|report|, forReport) && (fromC.Some? ==> forReport != fromC)
      modifies this
      ensures p == fromC
      ensures p.None? ==> RecordsUnchanged() && heap == old(heap)
                          && allocations == old(allocations) && deallocations == old(deallocations)
      ensures old(ignoreHmMalloc) && p.Some? ==>
                RecordsUnchanged() && heap == old(heap) + {p.value}
                && allocations == old(allocations) + 1 && deallocations == old(deallocations)
      ensures !old(ignoreHmMalloc) ==> Valid()
      ensures !old(ignoreHmMalloc) && p.Some? ==>
                && user == old(user)[p.value := size]
                && Counted(size, old(bytesInUse), old(ReportIsFull()) ==> forReport.Some?)
                && report == (if old(ReportIsFull()) && forReport.None? then old(report) else old(report)[p.value := size])
                && Grew(old(ReportIsFull()) && forReport.Some?, forReport)
                && history == old(history) + [bytesInUse]
                && (Exact() <==> old(Exact()) && (old(ReportIsFull()) ==> forReport.Some?))
                && Excess() == old(Excess())
      decreases if ignoreHmMalloc then 0 else 3
    {
      p := fromC;
      if p.None? {
        return;
      }
      allocations := allocations + 1;
      if ignoreHmMalloc {
        heap := heap + {p.value};
      } else {
        Attach(p.value, size, forReport);
      }
    }

    /** The block enters the books. */
    method Attach(p: Address, size: nat, forReport: Option<Address>)
      requires Awaiting() && p !in heap
      requires CanReturn(forReport) && CanGrow(|report|, forReport) && forReport != Some(p)
      modifies this
      ensures Valid() && user == old(user)[p := size]
      ensures Counted(size, old(bytesInUse), old(ReportIsFull()) ==> forReport.Some?)
      ensures report == (if old(ReportIsFull()) && forReport.None? then old(report) else old(report)[p := size])
      ensures Grew(old(ReportIsFull()) && forReport.Some?, forReport)
      ensures history == old(history) + [bytesInUse]
      ensures Exact() <==> old(Exact()) && (old(ReportIsFull()) ==> forReport.Some?)
      ensures Excess() == old(Excess())
      decreases 2, 1
    {
      TotalWith(user, p, size);
      SameAfterRecord(report, user, p, size);
      ghost var before := user;
      heap := heap + {p};
      user := user[p := size];
      Record(p, size, forReport, before);
    }

    /** The tail that malloc and realloc share: count the bytes and insert the record. */
    method Record(p: Address, size: nat, forReport: Option<Address>, ghost before: map<Address, nat>)
      requires !ignoreHmMalloc && Consistent() && CanReturn(forReport) && CanGrow(|report|, forReport)
      requires Balanced(before) && p !in before && user == before[p := size]
      modifies this
      ensures Valid() && user == old(user)
      ensures Counted(size, old(bytesInUse), old(ReportIsFull()) ==> forReport.Some?)
      ensures report == (if old(ReportIsFull()) && forReport.None? then old(report) else old(report)[p := size])
      ensures Grew(old(ReportIsFull()) && forReport.Some?, forReport)
      ensures history == old(history) + [bytesInUse]
      decreases 2, 0
    {
      TotalWith(report, p, size);
      WithinGrows(report, before, p, size);
      CountBytes(size);
      var ok := InsertQuietly(p, size, forReport);
      if !ok {
        uncollected := uncollected + size;
      }
    }

    /** Ignores the allocations that recording a block makes. */
    method InsertQuietly(p: Address, size: nat, forReport: Option<Address>) returns (ok: bool)
      requires !ignoreHmMalloc && Consistent() && CanReturn(forReport) && CanGrow(|report|, forReport)
      requires p !in report
      modifies this
      ensures !ignoreHmMalloc && Consistent() && BytesUnchanged() && user == old(user)
      ensures ok <==> old(ReportIsFull()) ==> forReport.Some?
      ensures report == if ok then old(report)[p := size] else old(report)
      ensures Grew(old(ReportIsFull()) && ok, forReport)
      decreases 1, 1
    {
      ignoreHmMalloc := true;
      ok := InsertReport(p, size, forReport);
      ignoreHmMalloc := false;
    }

    method CountBytes(size: nat)
      requires history != [] && bytesInUsePeak == MaximumOf(history)
      modifies this`bytesInUse, this`bytesInUsePeak, this`history
      ensures Counted(size, old(bytesInUse), true)
      ensures history == old(history) + [bytesInUse] && bytesInUsePeak == MaximumOf(history)
    {
      bytesInUse := bytesInUse + size;
      if bytesInUsePeak < bytesInUse {
        bytesInUsePeak := bytesInUse;
      }
      MaximumGrows(history, bytesInUse);
      history := history + [bytesInUse];
    }

    /** Inserting a record; when the report grows it comes back to Malloc and Free. */
    method InsertReport(p: Address, size: nat, forReport: Option<Address>) returns (ok: bool)
      requires ignoreHmMalloc && Consistent() && CanReturn(forReport) && CanGrow(|report|, forReport)
      requires p !in report
      modifies this
      ensures ignoreHmMalloc && Consistent() && BytesUnchanged()
      ensures user == old(user)
      ensures ok <==> old(ReportIsFull()) ==> forReport.Some?
      ensures report == if ok then old(report)[p := size] else old(report)
      ensures Grew(old(ReportIsFull()) && ok, forReport)
      ensures allocations == old(allocations) + if old(ReportIsFull()) && ok then 1 else 0
      decreases 1, 0
    {
      FullIsOverloaded(|report|);
      if HashMaps.Overloaded(|report|, tableCount) {
        var larger := Malloc(slotSize * (HashStorage.EXPAND_FACTOR * tableCount), forReport, None);
        if larger.None? {
          return false;
        }
        Free(Some(storage));
        storage, tableCount := larger.value, HashStorage.EXPAND_FACTOR * tableCount;
      }
      report := report[p := size];
      return true;
    }

    /** `moved` is the block the C allocator gives in place of the old one, possibly the same. */
    method Realloc(oldP: Option<Address>, newSize: nat, moved: Address, forReport: Option<Address>)
      requires Valid() && (oldP.Some? ==> oldP.value in user)
      requires moved !in heap || Some(moved) == oldP
      requires CanReturn(forReport) && forReport != Some(moved)
      requires CanGrow(|ReportWithout(oldP)|, forReport)
      modifies this
      ensures Valid()
      ensures user == old(UserWithout(oldP))[moved := newSize]
      ensures Grew(old(Full(|ReportWithout(oldP)|)) && forReport.Some?, forReport)
      ensures history == old(HistoryAfterErase(oldP)) + [bytesInUse]
      ensures bytesInUse == old(BytesAfterErase(oldP)) + newSize
      ensures Exact() <==> old(ExactWithout(oldP) && (Full(|ReportWithout(oldP)|) ==> forReport.Some?))
      ensures Excess() == old(Excess()) + old(Stranded(oldP))
    {
      SameWithout(report, user, oldP);
      if oldP.None? {
        allocations := allocations + 1;
      } else {
        Detach(oldP);
      }
      Attach(moved, newSize, forReport);
    }

    /** Takes a live block out of the books; its allocation is still counted. */
    method Detach(oldP: Option<Address>)
      requires Valid() && oldP.Some? && oldP.value in user
      modifies this`report, this`bytesInUse, this`history, this`heap, this`user
      ensures Awaiting() && user == old(UserWithout(oldP))
      ensures heap == old(heap) - {oldP.value}
      ensures history == old(HistoryAfterErase(oldP)) && bytesInUse == old(BytesAfterErase(oldP))
      ensures report == old(ReportWithout(oldP)) && uncollected == old(uncollected)
      ensures Exact() <==> old(ExactWithout(oldP))
      ensures Excess() == old(Excess()) + old(Stranded(oldP))
    {
      EraseReport(oldP, user);
      DropBlock(oldP.value);
      ErasedFigures(oldP);
    }

    ghost method DropBlock(p: Address)
      requires !ignoreHmMalloc && Consistent() && p in user && Balanced(user - {p})
      modifies this`heap, this`user
      ensures Awaiting() && user == old(user) - {p} && heap == old(heap) - {p}
    {
      Smaller(user, p);
      user := user - {p};
      heap := heap - {p};
    }

    /** What taking a block out of the books does to the two measures of exactness. */
    twostate lemma ErasedFigures(p: Option<Address>)
      requires old(Within(report, user)) && p.Some? && p.value in old(user)
      requires user == old(UserWithout(p)) && report == old(ReportWithout(p))
      requires bytesInUse == old(BytesAfterErase(p)) && uncollected == old(uncollected)
      ensures Exact() <==> old(ExactWithout(p))
      ensures Excess() == old(Excess()) + old(Stranded(p))
    {
      SameWithout(old(report), old(user), p);
      TotalWithout(old(user), p.value);
    }

    ghost function UserWithout(p: Option<Address>): map<Address, nat>
      reads this
    {
      if p.Some? then user - {p.value} else user
    }

    ghost function ReportWithout(p: Option<Address>): map<Address, nat>
      reads this
    {
      if p.Some? then report - {p.value} else report
    }

    ghost function BytesAfterErase(p: Option<Address>): int
      reads this
    {
      if p.Some? && p.value in report then bytesInUse - report[p.value] else bytesInUse
    }

    ghost function HistoryAfterErase(p: Option<Address>): seq<int>
      reads this
    {
      if p.Some? && p.value in report then history + [BytesAfterErase(p)] else history
    }

    /** Takes a block out of the report and its bytes off the count; a lost record stays counted. */
    method EraseReport(p: Option<Address>, ghost blocks: map<Address, nat>)
      requires Balanced(blocks)
      modifies this`report, this`bytesInUse, this`history
      ensures Balanced(if p.Some? then blocks - {p.value} else blocks)
      ensures report == old(ReportWithout(p))
      ensures history == old(HistoryAfterErase(p)) && bytesInUse == old(BytesAfterErase(p))
    {
      if p.Some? {
        if p.value in report {
          TakeOff(p.value);
        } else {
          assert report == report - {p.value};
        }
        WithinWithout(old(report), blocks, p.value);
      }
    }

    method TakeOff(p: Address)
      requires p in report && bytesInUse == Total(report) + uncollected
      requires history != [] && bytesInUsePeak == MaximumOf(history) && history[|history| - 1] == bytesInUse
      modifies this`report, this`bytesInUse, this`history
      ensures report == old(report) - {p}
      ensures bytesInUse == Total(report) + uncollected == old(bytesInUse) - old(report)[p]
      ensures history == old(history) + [bytesInUse] && bytesInUsePeak == MaximumOf(history)
    {
      TotalWithout(report, p);
      MaximumOfTwo(history);
      bytesInUse := bytesInUse - report[p];
      report := report - {p};
      MaximumGrows(history, bytesInUse);
      history := history + [bytesInUse];
    }

    method Free(p: Option<Address>)
      requires p.Some? ==> p.value in heap
      requires !ignoreHmMalloc ==> Valid() && p != Some(storage)
      modifies this
      ensures heap == if p.Some? then old(heap) - {p.value} else old(heap)
      ensures allocations == old(allocations)
      ensures deallocations == old(deallocations) + if p.Some? then 1 else 0
      ensures old(ignoreHmMalloc) ==> RecordsUnchanged()
      ensures !old(ignoreHmMalloc) ==>
                && Valid()
                && user == old(UserWithout(p))
                && uncollected == old(uncollected) && bytesInUsePeak == old(bytesInUsePeak)
                && report == old(ReportWithout(p))
                && history == old(HistoryAfterErase(p)) && bytesInUse == old(BytesAfterErase(p))
                && (Exact() <==> old(ExactWithout(p)))
                && Excess() == old(Excess()) + old(Stranded(p))
      decreases 0, 1
    {
      if ignoreHmMalloc {
        heap := if p.Some? then heap - {p.value} else heap;
      } else if p.Some? {
        Detach(p);
      } else {
        SameWithout(report, user, p);
      }
      if p.Some? {
        deallocations := deallocations + 1;
      }
    }

    /** memory_deinit: the leaks it returns are the user blocks nobody freed. */
    method Deinit() returns (leaks: nat)
      requires Valid()
      modifies this
      ensures leaks == |old(user)|
      ensures heap == old(user).Keys
      ensures allocations == old(allocations) == deallocations + leaks
      ensures bytesInUsePeak == old(bytesInUsePeak) && report == old(report)
    {
      assert storage in heap;
      allocations := allocations - 1;
      leaks := if allocations > deallocations then allocations - deallocations else deallocations - allocations;
      allocations := allocations + 1;
      ignoreHmMalloc := true;
      Free(Some(storage));
      ignoreHmMalloc := false;
    }

    /** memory_get_num_allocs */
    method GetNumAllocs() returns (n: nat)
      requires Valid()
      ensures n <= |user| && (n == |user| <==> report == user)
    {
      n := |report|;
      WithinCount(report, user);
    }

    /** The byte count is right exactly when the bytes of lost records are all those of live blocks. */
    lemma CountIsRightExactly()
      requires Valid()
      ensures bytesInUse == Total(user) <==> uncollected == Total(user - report.Keys)
      ensures Exact() ==> bytesInUse == Total(user)
    {
      TotalSplit(report, user);
    }

    /** Once every block is freed, the count of bytes is back at zero exactly if no bytes were lost. */
    lemma BytesAfterLastFree()
      requires Valid() && user == map[]
      ensures bytesInUse == uncollected
    {
      assert report == map[];
    }
  }

  /** Recording a new block keeps the report complete, and leaving it out does not. */
  lemma SameAfterRecord(report: map<Address, nat>, user: map<Address, nat>, p: Address, size: nat)
    requires Within(report, user) && p !in user
    ensures report[p := size] == user[p := size] <==> report == user
    ensures report != user[p := size]
  {
    if report[p := size] == user[p := size] {
      forall q | q in user ensures q in report && report[q] == user[q] {
        assert q in report[p := size];
      }
      assert report == user;
    }
    assert p in user[p := size];
  }

  lemma SameWithout(report: map<Address, nat>, user: map<Address, nat>, p: Option<Address>)
    requires Within(report, user)
    ensures p.None? ==> (report == user <==> forall q :: q in user && Some(q) != p ==> q in report)
    ensures p.Some? ==>
              (report - {p.value} == user - {p.value} <==> forall q :: q in user && Some(q) != p ==> q in report)
  {
    if p.Some? {
      if report - {p.value} == user - {p.value} {
        forall q | q in user && q != p.value ensures q in report {
          assert q in user - {p.value};
        }
      }
    }
  }

  /** The blocks with a record and those without. */
  lemma {:induction false} TotalSplit(part: map<Address, nat>, whole: map<Address, nat>)
    requires Within(part, whole)
    ensures Total(whole) == Total(part) + Total(whole - part.Keys)
    decreases |part|
  {
    if part == map[] {
      assert whole - part.Keys == whole;
    } else {
      var p :| p in part;
      Smaller(part, p);
      TotalWithout(part, p);
      TotalWithout(whole, p);
      WithinWithout(part, whole, p);
      TotalSplit(part - {p}, whole - {p});
      assert whole - {p} - (part - {p}).Keys == whole - part.Keys;
    }
  }

  /** What a lost record does: the block is freed and its bytes stay. */
  method LoseRecord(t: Tracker, size: nat, p: Address)
    requires t.Valid() && t.Exact() && t.ReportIsFull() && p !in t.heap
    modifies t
    ensures t.Valid() && t.user == old(t.user) && t.report == t.user
    ensures t.bytesInUse == Total(t.user) + size
  {
    var q := t.Malloc(size, Some(p), None);
    t.Free(q);
    assert t.user == old(t.user);
  }

  /** From the start: a report of 4096 slots is full with 2868 blocks, and the next record is lost. */
  method CountCanStayWrong(slotSize: nat, size: nat) returns (t: Tracker)
    ensures t.Valid() && t.report == t.user && t.bytesInUse == Total(t.user) + size
  {
    t := new Tracker.Init(slotSize, 0);
    for i := 1 to 2869
      invariant fresh(t) && t.Valid() && HoldsFirst(t, i)
    {
      NextBlock(t, i);
    }
    LoseRecord(t, size, 2869);
  }

  /** An exact tracker of the blocks below `n`, before its report grows. */
  ghost predicate HoldsFirst(t: Tracker, n: nat)
    reads t
  {
    && t.Exact() && t.tableCount == INITIAL_TABLE_COUNT && t.storage == 0
    && |t.report| == n - 1 && forall p :: p in t.user ==> 0 < p < n
  }

  method NextBlock(t: Tracker, i: nat)
    requires t.Valid() && HoldsFirst(t, i) && 0 < i < 2869
    modifies t
    ensures t.Valid() && HoldsFirst(t, i + 1)
  {
    TotalWith(t.report, i, 1);
    var q := t.Malloc(1, Some(i), None);
  }
}
