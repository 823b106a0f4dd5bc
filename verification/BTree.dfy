// The flat sorted "btree": one buffer with a key region of `capacity` keys, followed by the values.

/** What a buffer represents, and what moving parts of it does. A key takes one unit, a value `vs` units. */
module FlatBuffer {

  datatype Entry = Entry(key: int, value: seq<int>)

  /** memmove: source and destination may overlap. */
  function MemMoved(b: seq<int>, dst: nat, src: nat, n: nat): (r: seq<int>)
    requires dst + n <= |b| && src + n <= |b|
    ensures |r| == |b|
    ensures forall k :: 0 <= k < |b| ==> r[k] == if dst <= k < dst + n then b[src + (k - dst)] else b[k]
  {
    seq(|b|, k requires 0 <= k < |b| => if dst <= k < dst + n then b[src + (k - dst)] else b[k])
  }

  lemma MovedSlice(b: seq<int>, dst: nat, src: nat, n: nat, p: nat, len: nat)
    requires dst + n <= |b| && src + n <= |b| && src <= p && p + len <= src + n
    ensures MemMoved(b, dst, src, n)[dst + (p - src)..dst + (p - src) + len] == b[p..p + len]
  {
  }

  lemma UnmovedSlice(b: seq<int>, dst: nat, src: nat, n: nat, p: nat, len: nat)
    requires dst + n <= |b| && src + n <= |b| && p + len <= |b| && (p + len <= dst || dst + n <= p)
    ensures MemMoved(b, dst, src, n)[p..p + len] == b[p..p + len]
  {
  }

  /** memcpy of a whole value. */
  function Copied(b: seq<int>, p: nat, v: seq<int>): (r: seq<int>)
    requires p + |v| <= |b|
    ensures |r| == |b|
    ensures forall k :: 0 <= k < |b| ==> r[k] == if p <= k < p + |v| then v[k - p] else b[k]
  {
    seq(|b|, k requires 0 <= k < |b| => if p <= k < p + |v| then v[k - p] else b[k])
  }

  lemma CopiedSlices(b: seq<int>, p: nat, v: seq<int>, q: nat, len: nat)
    requires p + |v| <= |b| && q + len <= |b|
    ensures Copied(b, p, v)[p..p + |v|] == v
    ensures q + len <= p || p + |v| <= q ==> Copied(b, p, v)[q..q + len] == b[q..q + len]
  {
  }

  /** Where the i-th value starts, by repeated addition; OffsetIsAffine gives the macro's formula. */
  function ValueOffset(cap: nat, vs: nat, i: nat): nat {
    if i == 0 then cap else ValueOffset(cap, vs, i - 1) + vs
  }

  lemma {:induction false} OffsetIsAffine(cap: nat, vs: nat, i: nat)
    ensures ValueOffset(cap, vs, i) == cap + vs * i
  {
    if i > 0 {
      OffsetIsAffine(cap, vs, i - 1);
      assert vs * i == vs * (i - 1) + vs;
    }
  }

  lemma {:induction false} OffsetOrder(cap: nat, vs: nat, i: nat, j: nat)
    ensures i < j ==> ValueOffset(cap, vs, i) + vs <= ValueOffset(cap, vs, j)
    ensures i <= j ==> ValueOffset(cap, vs, i) <= ValueOffset(cap, vs, j)
    ensures ValueOffset(cap, vs, i + 1) == ValueOffset(cap, vs, i) + vs
    ensures ValueOffset(cap, vs, i) == cap + ValueOffset(0, vs, i)
    ensures ValueOffset(cap, vs, j) == cap + ValueOffset(0, vs, j)
    decreases i + j
  {
    if j > 0 {
      OffsetOrder(cap, vs, i, j - 1);
    } else if i > 0 {
      OffsetOrder(cap, vs, i - 1, j);
    }
  }

  /** The units that `n` values take. */
  function ValueUnits(vs: nat, n: nat): nat {
    ValueOffset(0, vs, n)
  }

  ghost predicate Fits(len: nat, cap: nat, vs: nat, count: nat) {
    count <= cap <= len && ValueOffset(cap, vs, cap) <= len
  }

  /** The key at unit `k` with the value that starts at unit `o`. */
  ghost function Slot(b: seq<int>, k: nat, o: nat, vs: nat): Entry
    requires k < |b| && o + vs <= |b|
  {
    Entry(b[k], b[o..o + vs])
  }

  ghost function EntryAt(b: seq<int>, cap: nat, vs: nat, i: nat): (e: Entry)
    requires i < cap && Fits(|b|, cap, vs, i)
    ensures |e.value| == vs
  {
    OffsetOrder(cap, vs, i, cap);
    Slot(b, i, ValueOffset(cap, vs, i), vs)
  }

  lemma EntryIsSlot(b: seq<int>, cap: nat, vs: nat, i: nat, o: nat)
    requires i < cap && Fits(|b|, cap, vs, i) && o == ValueOffset(cap, vs, i) && o + vs <= |b|
    ensures EntryAt(b, cap, vs, i) == Slot(b, i, o, vs)
  {
  }

  ghost function Entries(b: seq<int>, cap: nat, vs: nat, count: nat): (es: seq<Entry>)
    requires Fits(|b|, cap, vs, count)
    ensures |es| == count
  {
    if count == 0 then [] else Entries(b, cap, vs, count - 1) + [EntryAt(b, cap, vs, count - 1)]
  }

  lemma {:induction false} EntriesIndex(b: seq<int>, cap: nat, vs: nat, count: nat, i: nat)
    requires Fits(|b|, cap, vs, count) && i < count
    ensures Entries(b, cap, vs, count)[i] == EntryAt(b, cap, vs, i)
  {
    if i < count - 1 {
      EntriesIndex(b, cap, vs, count - 1, i);
    }
  }

  lemma EntriesEqual(es: seq<Entry>, b: seq<int>, cap: nat, vs: nat, count: nat)
    requires Fits(|b|, cap, vs, count) && |es| == count
    requires forall i :: 0 <= i < count ==> es[i] == EntryAt(b, cap, vs, i)
    ensures Entries(b, cap, vs, count) == es
  {
    forall i | 0 <= i < count ensures Entries(b, cap, vs, count)[i] == es[i] {
      EntriesIndex(b, cap, vs, count, i);
    }
  }

  // ---- growing and shrinking --------------------------------------------------------------------

  /** Moving the value region to its place for another capacity keeps every entry. */
  lemma RelocationKeepsEntries(b: seq<int>, cap: nat, newCap: nat, vs: nat, count: nat)
    requires Fits(|b|, cap, vs, count) && count <= newCap
    requires newCap + ValueUnits(vs, cap) <= |b| && cap + ValueUnits(vs, cap) <= |b|
    requires Fits(|b|, newCap, vs, count)
    ensures Entries(MemMoved(b, newCap, cap, ValueUnits(vs, cap)), newCap, vs, count) == Entries(b, cap, vs, count)
  {
    var r := MemMoved(b, newCap, cap, ValueUnits(vs, cap));
    var es := Entries(b, cap, vs, count);
    forall i | 0 <= i < count ensures es[i] == EntryAt(r, newCap, vs, i) {
      EntriesIndex(b, cap, vs, count, i);
      OffsetOrder(cap, vs, i, cap);
      OffsetOrder(newCap, vs, i, newCap);
      SlotRelocated(b, newCap, cap, ValueUnits(vs, cap), i, ValueOffset(cap, vs, i), ValueOffset(newCap, vs, i), vs);
    }
    EntriesEqual(es, r, newCap, vs, count);
  }

  lemma SlotRelocated(b: seq<int>, dst: nat, src: nat, n: nat, k: nat, o: nat, o': nat, vs: nat)
    requires dst + n <= |b| && src + n <= |b| && src <= o && o + vs <= src + n
    requires k < dst && o' == dst + (o - src)
    ensures Slot(MemMoved(b, dst, src, n), k, o', vs) == Slot(b, k, o, vs)
  {
    MovedSlice(b, dst, src, n, o, vs);
  }

  /** Entries depend on the used part of the buffer only. */
  lemma CopyKeepsEntries(b: seq<int>, c: seq<int>, cap: nat, vs: nat, count: nat, used: nat)
    requires Fits(|b|, cap, vs, count) && Fits(|c|, cap, vs, count)
    requires used == ValueOffset(cap, vs, cap) && b[..used] == c[..used]
    ensures Entries(b, cap, vs, count) == Entries(c, cap, vs, count)
  {
    var es := Entries(b, cap, vs, count);
    forall i | 0 <= i < count ensures es[i] == EntryAt(c, cap, vs, i) {
      EntriesIndex(b, cap, vs, count, i);
      OffsetOrder(cap, vs, i, cap);
      SlotOfPrefix(b, c, used, i, ValueOffset(cap, vs, i), vs);
    }
    EntriesEqual(es, c, cap, vs, count);
  }

  lemma SlotOfPrefix(b: seq<int>, c: seq<int>, used: nat, k: nat, o: nat, vs: nat)
    requires used <= |b| && used <= |c| && b[..used] == c[..used]
    requires k < used && o + vs <= used
    ensures Slot(b, k, o, vs) == Slot(c, k, o, vs)
  {
    assert b[k] == b[..used][k] && c[k] == c[..used][k];
    var x, y := b[o..o + vs], c[o..o + vs];
    forall j | 0 <= j < vs ensures x[j] == y[j] {
      assert b[o + j] == b[..used][o + j] && c[o + j] == c[..used][o + j];
    }
  }

  // ---- making room, filling it, closing it ------------------------------------------------------

  function Inserted(es: seq<Entry>, i: nat, e: Entry): seq<Entry>
    requires i <= |es|
  {
    es[..i] + [e] + es[i..]
  }

  function Removed(es: seq<Entry>, i: nat): seq<Entry>
    requires i < |es|
  {
    es[..i] + es[i + 1..]
  }

  /** A memmove within the key region, then one within the value region. */
  function TwoMoves(b: seq<int>, kd: nat, ks: nat, kn: nat, vd: nat, vsrc: nat, vn: nat): (r: seq<int>)
    requires kd + kn <= |b| && ks + kn <= |b| && vd + vn <= |b| && vsrc + vn <= |b|
    ensures |r| == |b|
  {
    MemMoved(MemMoved(b, kd, ks, kn), vd, vsrc, vn)
  }

  lemma SlotMoved(b: seq<int>, cap: nat, kd: nat, ks: nat, kn: nat, vd: nat, vsrc: nat, vn: nat,
                  k: nat, o: nat, k': nat, o': nat, vs: nat)
    requires kd + kn <= cap && ks + kn <= cap && cap <= vd && cap <= vsrc && vd + vn <= |b| && vsrc + vn <= |b|
    requires ks <= k < ks + kn && vsrc <= o && o + vs <= vsrc + vn
    requires k' == kd + (k - ks) && o' == vd + (o - vsrc)
    ensures Slot(TwoMoves(b, kd, ks, kn, vd, vsrc, vn), k', o', vs) == Slot(b, k, o, vs)
  {
    UnmovedSlice(b, kd, ks, kn, o, vs);
    MovedSlice(MemMoved(b, kd, ks, kn), vd, vsrc, vn, o, vs);
  }

  lemma SlotUnmoved(b: seq<int>, cap: nat, kd: nat, ks: nat, kn: nat, vd: nat, vsrc: nat, vn: nat,
                    k: nat, o: nat, vs: nat)
    requires kd + kn <= cap && ks + kn <= cap && cap <= vd && cap <= vsrc && vd + vn <= |b| && vsrc + vn <= |b|
    requires k < cap <= o && o + vs <= |b|
    requires (k < kd || kd + kn <= k) && (o + vs <= vd || vd + vn <= o)
    ensures Slot(TwoMoves(b, kd, ks, kn, vd, vsrc, vn), k, o, vs) == Slot(b, k, o, vs)
  {
    UnmovedSlice(b, kd, ks, kn, o, vs);
    UnmovedSlice(MemMoved(b, kd, ks, kn), vd, vsrc, vn, o, vs);
  }

  /** The units that the values at indices from `lo` up to `hi` take. */
  function BlockUnits(vs: nat, lo: nat, hi: nat): nat
    requires lo <= hi
  {
    OffsetOrder(0, vs, lo, hi);
    ValueUnits(vs, hi) - ValueUnits(vs, lo)
  }

  lemma BlockIsProduct(vs: nat, lo: nat, hi: nat)
    requires lo <= hi
    ensures BlockUnits(vs, lo, hi) == (hi - lo) * vs
  {
    OffsetIsAffine(0, vs, lo);
    OffsetIsAffine(0, vs, hi);
    assert (hi - lo) * vs == vs * hi - vs * lo;
  }

  /** The two memmoves that make room at index `idx`: keys first, then values. */
  function Opened(b: seq<int>, cap: nat, vs: nat, count: nat, idx: nat): (r: seq<int>)
    requires Fits(|b|, cap, vs, count) && idx <= count < cap
    ensures |r| == |b|
  {
    OffsetOrder(cap, vs, count, cap);
    OffsetOrder(cap, vs, idx, count);
    TwoMoves(b, idx + 1, idx, count - idx,
             ValueOffset(cap, vs, idx + 1), ValueOffset(cap, vs, idx), BlockUnits(vs, idx, count))
  }

  /** An entry that both moves have carried from index `i` to index `j`. */
  lemma EntryMoved(b: seq<int>, r: seq<int>, cap: nat, vs: nat, kd: nat, ks: nat, kn: nat, vd: nat, vsrc: nat, vn: nat,
                   i: nat, o: nat, j: nat, o': nat)
    requires kd + kn <= cap && ks + kn <= cap && cap <= vd && cap <= vsrc && vd + vn <= |b| && vsrc + vn <= |b|
    requires r == TwoMoves(b, kd, ks, kn, vd, vsrc, vn)
    requires i < cap && j < cap && Fits(|b|, cap, vs, i) && Fits(|b|, cap, vs, j)
    requires o == ValueOffset(cap, vs, i) && o' == ValueOffset(cap, vs, j)
    requires ks <= i < ks + kn && vsrc <= o && o + vs <= vsrc + vn
    requires j == kd + (i - ks) && o' == vd + (o - vsrc)
    ensures Fits(|r|, cap, vs, j) && EntryAt(r, cap, vs, j) == EntryAt(b, cap, vs, i)
  {
    SlotMoved(b, cap, kd, ks, kn, vd, vsrc, vn, i, o, j, o', vs);
    EntryIsSlot(r, cap, vs, j, o');
    EntryIsSlot(b, cap, vs, i, o);
  }

  /** The block of values from `lo` to `hi`, among the offsets of the buffer. */
  lemma BlockOffsets(cap: nat, vs: nat, lo: nat, hi: nat)
    requires lo <= hi <= cap
    ensures cap <= ValueOffset(cap, vs, lo) <= ValueOffset(cap, vs, lo) + BlockUnits(vs, lo, hi)
    ensures ValueOffset(cap, vs, lo) + BlockUnits(vs, lo, hi) == ValueOffset(cap, vs, hi) <= ValueOffset(cap, vs, cap)
  {
    OffsetOrder(cap, vs, 0, lo);
    OffsetOrder(cap, vs, lo, hi);
    OffsetOrder(cap, vs, hi, cap);
  }

  /** Values keep their distance. */
  lemma OffsetDistance(cap: nat, vs: nat, i: nat, j: nat, k: nat, l: nat)
    requires i <= j && l == k + (j - i)
    ensures ValueOffset(cap, vs, l) == ValueOffset(cap, vs, k) + (ValueOffset(cap, vs, j) - ValueOffset(cap, vs, i))
  {
    OffsetIsAffine(cap, vs, i);
    OffsetIsAffine(cap, vs, j);
    OffsetIsAffine(cap, vs, k);
    OffsetIsAffine(cap, vs, l);
    Distances(vs, i, j, k, l);
  }

  lemma Distances(vs: nat, i: nat, j: nat, k: nat, l: nat)
    requires l == k + (j - i)
    ensures vs * l == vs * k + (vs * j - vs * i)
  {
    assert vs * (j - i) == vs * j - vs * i;
    assert vs * (k + (j - i)) == vs * k + vs * (j - i);
  }

  /** An entry that neither move touches. */
  lemma EntryStays(b: seq<int>, cap: nat, vs: nat, kd: nat, ks: nat, kn: nat, vd: nat, vsrc: nat, vn: nat, i: nat, o: nat)
    requires kd + kn <= cap && ks + kn <= cap && cap <= vd && cap <= vsrc && vd + vn <= |b| && vsrc + vn <= |b|
    requires i < cap && Fits(|b|, cap, vs, i) && o == ValueOffset(cap, vs, i)
    requires i < kd && cap <= o && o + vs <= vd
    ensures EntryAt(TwoMoves(b, kd, ks, kn, vd, vsrc, vn), cap, vs, i) == EntryAt(b, cap, vs, i)
  {
    SlotUnmoved(b, cap, kd, ks, kn, vd, vsrc, vn, i, o, vs);
    EntryIsSlot(TwoMoves(b, kd, ks, kn, vd, vsrc, vn), cap, vs, i, o);
    EntryIsSlot(b, cap, vs, i, o);
  }

  /** The numbers of a move of the values from `lo` up to `hi` to index `to`. */
  lemma BlockShift(cap: nat, vs: nat, lo: nat, to: nat, hi: nat) returns (vd: nat, vsrc: nat, vn: nat)
    requires lo <= hi <= cap && to + (hi - lo) <= cap
    ensures vd == ValueOffset(cap, vs, to) && vsrc == ValueOffset(cap, vs, lo) && vn == BlockUnits(vs, lo, hi)
    ensures cap <= vd && cap <= vsrc && vd + vn <= ValueOffset(cap, vs, cap) && vsrc + vn <= ValueOffset(cap, vs, cap)
  {
    vd, vsrc, vn := ValueOffset(cap, vs, to), ValueOffset(cap, vs, lo), BlockUnits(vs, lo, hi);
    BlockOffsets(cap, vs, lo, hi);
    BlockOffsets(cap, vs, to, to + (hi - lo));
    OffsetDistance(cap, vs, lo, hi, to, to + (hi - lo));
  }

  lemma OpenedBelow(b: seq<int>, cap: nat, vs: nat, count: nat, idx: nat, i: nat)
    requires Fits(|b|, cap, vs, count) && idx <= count < cap && i < idx
    ensures EntryAt(Opened(b, cap, vs, count, idx), cap, vs, i) == EntryAt(b, cap, vs, i)
  {
    var to, o := idx + 1, ValueOffset(cap, vs, i);
    var vd, vsrc, vn := BlockShift(cap, vs, idx, to, count);
    BlockOffsets(cap, vs, 0, i);
    OffsetOrder(cap, vs, i, to);
    EntryStays(b, cap, vs, to, idx, count - idx, vd, vsrc, vn, i, o);
    OpenedAsMoves(b, cap, vs, count, idx, to, vd, vsrc, vn);
  }

  lemma OpenedAbove(b: seq<int>, cap: nat, vs: nat, count: nat, idx: nat, i: nat, j: nat)
    requires Fits(|b|, cap, vs, count) && idx <= i < count < cap && j == i + 1
    ensures EntryAt(Opened(b, cap, vs, count, idx), cap, vs, j) == EntryAt(b, cap, vs, i)
  {
    var to := idx + 1;
    var vd, vsrc, vn, o, o' := ShiftedOffsets(cap, vs, idx, to, count, i, j);
    var r := TwoMoves(b, to, idx, count - idx, vd, vsrc, vn);
    assert Fits(|b|, cap, vs, i) && Fits(|b|, cap, vs, j);
    EntryMoved(b, r, cap, vs, to, idx, count - idx, vd, vsrc, vn, i, o, j, o');
    OpenedAsMoves(b, cap, vs, count, idx, to, vd, vsrc, vn);
  }

  lemma OpenedAsMoves(b: seq<int>, cap: nat, vs: nat, count: nat, idx: nat, to: nat, vd: nat, vsrc: nat, vn: nat)
    requires Fits(|b|, cap, vs, count) && idx <= count < cap && to == idx + 1
    requires vd == ValueOffset(cap, vs, to) && vsrc == ValueOffset(cap, vs, idx) && vn == BlockUnits(vs, idx, count)
    requires vd + vn <= |b| && vsrc + vn <= |b|
    ensures Opened(b, cap, vs, count, idx) == TwoMoves(b, to, idx, count - idx, vd, vsrc, vn)
  {
  }

  /** The numbers of a move of the values from `lo` up to `hi` to index `to`, and of the value `i` in it. */
  lemma ShiftedOffsets(cap: nat, vs: nat, lo: nat, to: nat, hi: nat, i: nat, j: nat)
    returns (vd: nat, vsrc: nat, vn: nat, o: nat, o': nat)
    requires lo <= i < hi <= cap && to + (hi - lo) <= cap && j == to + (i - lo)
    ensures vd == ValueOffset(cap, vs, to) && vsrc == ValueOffset(cap, vs, lo) && vn == BlockUnits(vs, lo, hi)
    ensures o == ValueOffset(cap, vs, i) && o' == ValueOffset(cap, vs, j)
    ensures cap <= vd && cap <= vsrc && vd + vn <= ValueOffset(cap, vs, cap) && vsrc + vn <= ValueOffset(cap, vs, cap)
    ensures vsrc <= o && o + vs <= vsrc + vn && o' == vd + (o - vsrc)
  {
    vd, vsrc, vn := BlockShift(cap, vs, lo, to, hi);
    o, o' := ValueOffset(cap, vs, i), ValueOffset(cap, vs, j);
    BlockOffsets(cap, vs, lo, hi);
    OffsetDistance(cap, vs, lo, i, to, j);
    OffsetOrder(cap, vs, lo, i);
    OffsetOrder(cap, vs, i, hi);
  }

  /** Making room and copying key and value in. */
  function Filled(b: seq<int>, cap: nat, vs: nat, count: nat, idx: nat, e: Entry): (r: seq<int>)
    requires Fits(|b|, cap, vs, count) && idx <= count < cap && |e.value| == vs
    ensures |r| == |b|
  {
    OffsetOrder(cap, vs, idx, cap);
    Copied(Opened(b, cap, vs, count, idx)[idx := e.key], ValueOffset(cap, vs, idx), e.value)
  }

  lemma FilledInserts(b: seq<int>, cap: nat, vs: nat, count: nat, idx: nat, e: Entry)
    requires Fits(|b|, cap, vs, count) && idx <= count < cap && |e.value| == vs
    ensures Entries(Filled(b, cap, vs, count, idx, e), cap, vs, count + 1)
         == Inserted(Entries(b, cap, vs, count), idx, e)
  {
    var es := Entries(b, cap, vs, count);
    var fs := Inserted(es, idx, e);
    forall i | 0 <= i < count + 1 ensures fs[i] == EntryAt(Filled(b, cap, vs, count, idx, e), cap, vs, i) {
      InsertedAt(es, idx, e, i);
      FilledAt(b, cap, vs, count, idx, e, i);
      if i != idx {
        EntriesIndex(b, cap, vs, count, if i < idx then i else i - 1);
      }
    }
    EntriesEqual(fs, Filled(b, cap, vs, count, idx, e), cap, vs, count + 1);
  }

  lemma FilledAt(b: seq<int>, cap: nat, vs: nat, count: nat, idx: nat, e: Entry, i: nat)
    requires Fits(|b|, cap, vs, count) && idx <= count < cap && |e.value| == vs && i <= count
    ensures EntryAt(Filled(b, cap, vs, count, idx, e), cap, vs, i)
         == if i < idx then EntryAt(b, cap, vs, i) else if i == idx then e else EntryAt(b, cap, vs, i - 1)
  {
    OffsetOrder(cap, vs, idx, cap);
    FilledEntry(Opened(b, cap, vs, count, idx), cap, vs, idx, e, i);
    if i < idx {
      OpenedBelow(b, cap, vs, count, idx, i);
    } else if i > idx {
      OpenedAbove(b, cap, vs, count, idx, i - 1, i);
    }
  }

  lemma InsertedAt(es: seq<Entry>, idx: nat, e: Entry, i: nat)
    requires idx <= |es| && i <= |es|
    ensures Inserted(es, idx, e)[i] == if i < idx then es[i] else if i == idx then e else es[i - 1]
  {
  }

  lemma FilledEntry(o: seq<int>, cap: nat, vs: nat, idx: nat, e: Entry, i: nat)
    requires Fits(|o|, cap, vs, i) && i < cap && idx < cap && |e.value| == vs
    requires idx < |o| && ValueOffset(cap, vs, idx) + vs <= |o|
    ensures EntryAt(Copied(o[idx := e.key], ValueOffset(cap, vs, idx), e.value), cap, vs, i)
         == if i == idx then e else EntryAt(o, cap, vs, i)
  {
    OffsetOrder(cap, vs, i, cap);
    OffsetOrder(cap, vs, idx, i);
    OffsetOrder(cap, vs, i, idx);
    FilledSlot(o, cap, vs, idx, ValueOffset(cap, vs, idx), e, i, ValueOffset(cap, vs, i));
  }

  lemma FilledSlot(o: seq<int>, cap: nat, vs: nat, idx: nat, p: nat, e: Entry, i: nat, q: nat)
    requires idx < cap <= p && p + vs <= |o| && i < cap <= q && q + vs <= |o| && |e.value| == vs
    requires (i == idx && p == q) || (i != idx && (q + vs <= p || p + vs <= q))
    ensures Slot(Copied(o[idx := e.key], p, e.value), i, q, vs) == if i == idx then e else Slot(o, i, q, vs)
  {
    CopiedSlices(o[idx := e.key], p, e.value, q, vs);
    assert o[idx := e.key][q..q + vs] == o[q..q + vs];
  }

  /** memcpy over the value at `idx`. */
  lemma OverwriteReplaces(b: seq<int>, cap: nat, vs: nat, count: nat, idx: nat, v: seq<int>)
    requires Fits(|b|, cap, vs, count) && idx < count && |v| == vs
    requires ValueOffset(cap, vs, idx) + vs <= |b|
    ensures var es := Entries(b, cap, vs, count);
            Entries(Copied(b, ValueOffset(cap, vs, idx), v), cap, vs, count) == es[idx := Entry(es[idx].key, v)]
  {
    assert b[idx := b[idx]] == b;
    var es := Entries(b, cap, vs, count);
    EntriesIndex(b, cap, vs, count, idx);
    var fs := es[idx := Entry(es[idx].key, v)];
    forall i | 0 <= i < count ensures fs[i] == EntryAt(Copied(b, ValueOffset(cap, vs, idx), v), cap, vs, i) {
      EntriesIndex(b, cap, vs, count, i);
      FilledEntry(b, cap, vs, idx, Entry(b[idx], v), i);
    }
    EntriesEqual(fs, Copied(b, ValueOffset(cap, vs, idx), v), cap, vs, count);
  }

  /** The two memmoves that carry the entries from `idx + 1` up to `last` down by one. */
  function Closed(b: seq<int>, cap: nat, vs: nat, last: nat, idx: nat): (r: seq<int>)
    requires Fits(|b|, cap, vs, last) && idx < last
    ensures |r| == |b|
  {
    OffsetOrder(cap, vs, last, cap);
    OffsetOrder(cap, vs, idx, last);
    OffsetOrder(cap, vs, idx + 1, last);
    var from := idx + 1;
    TwoMoves(b, idx, from, last - from, ValueOffset(cap, vs, idx), ValueOffset(cap, vs, from), BlockUnits(vs, from, last))
  }

  /** That removes the entry at `idx`, whether or not something behind the last entry is carried along. */
  lemma ClosedRemoves(b: seq<int>, cap: nat, vs: nat, count: nat, last: nat, idx: nat)
    requires Fits(|b|, cap, vs, last) && idx < count <= last
    ensures Entries(Closed(b, cap, vs, last, idx), cap, vs, count - 1) == Removed(Entries(b, cap, vs, count), idx)
  {
    var r := Closed(b, cap, vs, last, idx);
    var es := Entries(b, cap, vs, count);
    var fs := Removed(es, idx);
    forall i | 0 <= i < count - 1 ensures fs[i] == EntryAt(r, cap, vs, i) {
      RemovedAt(es, idx, i);
      if i < idx {
        EntriesIndex(b, cap, vs, count, i);
        ClosedBelow(b, cap, vs, last, idx, i);
      } else {
        EntriesIndex(b, cap, vs, count, i + 1);
        ClosedAbove(b, cap, vs, last, idx, i);
      }
    }
    EntriesEqual(fs, r, cap, vs, count - 1);
  }

  /**
    * btree_erase_index moves `count - idx` values, one more than there are. The last one it reads is inside
    * the buffer exactly when the tree is not full.
    */
  lemma ExtraValueIsInside(cap: nat, vs: nat, count: nat, idx: nat)
    requires idx < count <= cap && vs > 0
    ensures ValueOffset(cap, vs, idx + 1) + (count - idx) * vs <= ValueOffset(cap, vs, cap) <==> count < cap
  {
    OffsetIsAffine(cap, vs, idx + 1);
    OffsetIsAffine(cap, vs, cap);
    var end := vs * (count + 1);
    assert vs * (idx + 1) + (count - idx) * vs == end;
    if count < cap {
      ProductMonotone(vs, count + 1, cap);
    } else {
      assert end == vs * cap + vs;
    }
  }

  lemma ProductMonotone(vs: nat, i: nat, j: nat)
    requires i <= j
    ensures vs * i <= vs * j
  {
  }

  lemma RemovedAt(es: seq<Entry>, idx: nat, i: nat)
    requires idx < |es| && i < |es| - 1
    ensures Removed(es, idx)[i] == if i < idx then es[i] else es[i + 1]
  {
  }

  lemma ClosedBelow(b: seq<int>, cap: nat, vs: nat, last: nat, idx: nat, i: nat)
    requires Fits(|b|, cap, vs, last) && i < idx < last
    ensures EntryAt(Closed(b, cap, vs, last, idx), cap, vs, i) == EntryAt(b, cap, vs, i)
  {
    var from, o := idx + 1, ValueOffset(cap, vs, i);
    var vd, vsrc, vn := BlockShift(cap, vs, from, idx, last);
    BlockOffsets(cap, vs, 0, i);
    OffsetOrder(cap, vs, i, idx);
    OffsetOrder(cap, vs, idx, from);
    EntryStays(b, cap, vs, idx, from, last - from, vd, vsrc, vn, i, o);
    ClosedAsMoves(b, cap, vs, last, idx, from, vd, vsrc, vn);
  }

  lemma ClosedAbove(b: seq<int>, cap: nat, vs: nat, last: nat, idx: nat, j: nat)
    requires Fits(|b|, cap, vs, last) && idx <= j && j + 1 < last
    ensures EntryAt(Closed(b, cap, vs, last, idx), cap, vs, j) == EntryAt(b, cap, vs, j + 1)
  {
    var from, i := idx + 1, j + 1;
    var vd, vsrc, vn, o, o' := ShiftedOffsets(cap, vs, from, idx, last, i, j);
    var r := TwoMoves(b, idx, from, last - from, vd, vsrc, vn);
    assert Fits(|b|, cap, vs, i) && Fits(|b|, cap, vs, j);
    EntryMoved(b, r, cap, vs, idx, from, last - from, vd, vsrc, vn, i, o, j, o');
    ClosedAsMoves(b, cap, vs, last, idx, from, vd, vsrc, vn);
  }

  lemma ClosedAsMoves(b: seq<int>, cap: nat, vs: nat, last: nat, idx: nat, from: nat, vd: nat, vsrc: nat, vn: nat)
    requires Fits(|b|, cap, vs, last) && idx < last && from == idx + 1
    requires vd == ValueOffset(cap, vs, idx) && vsrc == ValueOffset(cap, vs, from) && vn == BlockUnits(vs, from, last)
    requires vd + vn <= |b| && vsrc + vn <= |b|
    ensures Closed(b, cap, vs, last, idx) == TwoMoves(b, idx, from, last - from, vd, vsrc, vn)
  {
    BlockOffsets(cap, vs, from, last);
  }
}

/** Strictly ascending entries and the finite map they stand for. */
module SortedEntries {
  import opened FlatBuffer

  ghost predicate Ascending(es: seq<Entry>) {
    forall i, j :: 0 <= i < j < |es| ==> es[i].key < es[j].key
  }

  ghost function ToMap(es: seq<Entry>): map<int, seq<int>>
    requires Ascending(es)
  {
    map i | 0 <= i < |es| :: es[i].key := es[i].value
  }

  /** `idx` is the first index whose key is not less than `key`. */
  ghost predicate LowerBound(es: seq<Entry>, key: int, idx: nat) {
    && idx <= |es|
    && (forall i :: 0 <= i < idx ==> es[i].key < key)
    && (forall i :: idx <= i < |es| ==> key <= es[i].key)
  }

  lemma EntryInMap(es: seq<Entry>, i: nat)
    requires Ascending(es) && i < |es|
    ensures es[i].key in ToMap(es) && ToMap(es)[es[i].key] == es[i].value
  {
  }

  lemma LowerBoundDecides(es: seq<Entry>, key: int, idx: nat)
    requires Ascending(es) && LowerBound(es, key, idx)
    ensures key in ToMap(es) <==> idx < |es| && es[idx].key == key
    ensures key in ToMap(es) ==> ToMap(es)[key] == es[idx].value
  {
    if idx < |es| && es[idx].key == key {
      EntryInMap(es, idx);
    }
  }

  /** A map is what `fs` stands for if it holds every entry and nothing else. */
  lemma IsToMap(fs: seq<Entry>, m: map<int, seq<int>>)
    requires Ascending(fs)
    requires forall i :: 0 <= i < |fs| ==> fs[i].key in m && m[fs[i].key] == fs[i].value
    requires forall k :: k in m ==> exists i :: 0 <= i < |fs| && fs[i].key == k
    ensures ToMap(fs) == m
  {
    forall k | k in m ensures k in ToMap(fs) && ToMap(fs)[k] == m[k] {
      var i :| 0 <= i < |fs| && fs[i].key == k;
      EntryInMap(fs, i);
    }
  }

  lemma InsertedAscends(es: seq<Entry>, idx: nat, e: Entry)
    requires Ascending(es) && LowerBound(es, e.key, idx) && (idx < |es| ==> es[idx].key != e.key)
    ensures Ascending(Inserted(es, idx, e))
  {
    var fs := Inserted(es, idx, e);
    forall i, j | 0 <= i < j < |fs| ensures fs[i].key < fs[j].key {
      InsertedAt(es, idx, e, i);
      InsertedAt(es, idx, e, j);
    }
  }

  lemma InsertedKeeps(es: seq<Entry>, idx: nat, e: Entry, i: nat) returns (j: nat)
    requires idx <= |es| && i < |es|
    ensures j < |Inserted(es, idx, e)| && Inserted(es, idx, e)[j] == es[i]
  {
    j := if i < idx then i else i + 1;
    InsertedAt(es, idx, e, j);
  }

  lemma InsertedIsOldOrNew(es: seq<Entry>, idx: nat, e: Entry, i: nat)
    requires Ascending(es) && idx <= |es| && i <= |es| && e.key !in ToMap(es)
    ensures var x := Inserted(es, idx, e)[i];
            x == e || (x.key != e.key && x.key in ToMap(es) && ToMap(es)[x.key] == x.value)
  {
    InsertedAt(es, idx, e, i);
    if i != idx {
      EntryInMap(es, if i < idx then i else i - 1);
    }
  }

  lemma InsertedIsMapUpdate(es: seq<Entry>, idx: nat, e: Entry)
    requires Ascending(es) && LowerBound(es, e.key, idx) && e.key !in ToMap(es)
    ensures Ascending(Inserted(es, idx, e))
    ensures ToMap(Inserted(es, idx, e)) == ToMap(es)[e.key := e.value]
  {
    var fs := Inserted(es, idx, e);
    LowerBoundDecides(es, e.key, idx);
    InsertedAscends(es, idx, e);
    var m := ToMap(es)[e.key := e.value];
    forall i | 0 <= i < |fs| ensures fs[i].key in m && m[fs[i].key] == fs[i].value {
      InsertedIsOldOrNew(es, idx, e, i);
    }
    forall k | k in m ensures exists i :: 0 <= i < |fs| && fs[i].key == k {
      if k == e.key {
        InsertedAt(es, idx, e, idx);
      } else {
        var i :| 0 <= i < |es| && es[i].key == k;
        var j := InsertedKeeps(es, idx, e, i);
      }
    }
    IsToMap(fs, m);
  }

  lemma RemovedAscends(es: seq<Entry>, idx: nat)
    requires Ascending(es) && idx < |es|
    ensures Ascending(Removed(es, idx))
  {
    var fs := Removed(es, idx);
    forall i, j | 0 <= i < j < |fs| ensures fs[i].key < fs[j].key {
      RemovedAt(es, idx, i);
      RemovedAt(es, idx, j);
    }
  }

  lemma RemovedKeeps(es: seq<Entry>, idx: nat, i: nat) returns (j: nat)
    requires Ascending(es) && idx < |es| && i < |es| && i != idx
    ensures j < |Removed(es, idx)| && Removed(es, idx)[j] == es[i]
  {
    j := if i < idx then i else i - 1;
    RemovedAt(es, idx, j);
  }

  lemma RemovedIsMapRemoval(es: seq<Entry>, idx: nat)
    requires Ascending(es) && idx < |es|
    ensures Ascending(Removed(es, idx))
    ensures ToMap(Removed(es, idx)) == ToMap(es) - {es[idx].key}
  {
    var fs := Removed(es, idx);
    var m := ToMap(es) - {es[idx].key};
    RemovedAscends(es, idx);
    forall i | 0 <= i < |fs| ensures fs[i].key in m && m[fs[i].key] == fs[i].value {
      RemovedAt(es, idx, i);
      EntryInMap(es, if i < idx then i else i + 1);
    }
    forall k | k in m ensures exists i :: 0 <= i < |fs| && fs[i].key == k {
      var i :| 0 <= i < |es| && es[i].key == k;
      var j := RemovedKeeps(es, idx, i);
    }
    IsToMap(fs, m);
  }

  lemma ReplacedIsMapUpdate(es: seq<Entry>, idx: nat, value: seq<int>)
    requires Ascending(es) && idx < |es|
    ensures var fs := es[idx := Entry(es[idx].key, value)];
            Ascending(fs) && ToMap(fs) == ToMap(es)[es[idx].key := value]
  {
    var fs := es[idx := Entry(es[idx].key, value)];
    var m := ToMap(es)[es[idx].key := value];
    forall i | 0 <= i < |fs| ensures fs[i].key in m && m[fs[i].key] == fs[i].value {
      EntryInMap(es, i);
    }
    forall k | k in m ensures exists i :: 0 <= i < |fs| && fs[i].key == k {
      EntryInMap(es, idx);
      var i :| 0 <= i < |es| && es[i].key == k;
      assert fs[i].key == k;
    }
    IsToMap(fs, m);
  }
}

module BTrees {
  import opened Wrappers
  import opened FlatBuffer
  import opened SortedEntries

  datatype Status = BTREE_NOT_FOUND | BTREE_EXISTS | BTREE_OK | BTREE_OOM

  const UINT32: nat := 0x1_0000_0000

  /** ++ and -- on a 32-bit index. */
  function Inc32(i: nat): nat { if i == UINT32 - 1 then 0 else i + 1 }

  function Dec32(i: nat): nat { if i == 0 then UINT32 - 1 else i - 1 }

  /** The entries that `keep` accepts, in order. */
  function Kept(es: seq<Entry>, keep: Entry -> bool): seq<Entry> {
    if es == [] then []
    else Kept(es[..|es| - 1], keep) + if keep(es[|es| - 1]) then [es[|es| - 1]] else []
  }

  /** After `n` turns of an erasing loop that started with the entries `all`, its index being `idx`. */
  ghost predicate Visited(items: seq<Entry>, all: seq<Entry>, keep: Entry -> bool, n: nat, idx: nat) {
    n <= |all| && items == Kept(all[..n], keep) + all[n..] && idx == |Kept(all[..n], keep)|
  }

  lemma KeptNext(all: seq<Entry>, keep: Entry -> bool, n: nat)
    requires n < |all|
    ensures Kept(all[..n + 1], keep) == Kept(all[..n], keep) + if keep(all[n]) then [all[n]] else []
  {
    assert all[..n + 1][..n] == all[..n];
  }

  /** One turn of the erasing loop: the current item is the next one, and either stays or goes. */
  lemma KeptStep(items: seq<Entry>, all: seq<Entry>, keep: Entry -> bool, n: nat, idx: nat)
    requires n < |all| && Visited(items, all, keep, n, idx)
    ensures idx < |items| && items[idx] == all[n]
    ensures keep(all[n]) ==> Visited(items, all, keep, n + 1, idx + 1)
    ensures !keep(all[n]) ==> Visited(Removed(items, idx), all, keep, n + 1, idx)
  {
    KeptNext(all, keep, n);
    assert all[n..] == [all[n]] + all[n + 1..];
  }

  lemma VisitedNone(all: seq<Entry>, keep: Entry -> bool)
    ensures Visited(all, all, keep, 0, 0)
  {
  }

  lemma VisitedCount(items: seq<Entry>, all: seq<Entry>, keep: Entry -> bool, n: nat, idx: nat)
    requires Visited(items, all, keep, n, idx) && idx != |items|
    ensures n < |all| && idx < |items|
  {
  }

  lemma PrefixGrows<T>(s: seq<T>, n: nat)
    requires n < |s|
    ensures s[..n + 1] == s[..n] + [s[n]]
  {
  }

  lemma VisitedAll(items: seq<Entry>, all: seq<Entry>, keep: Entry -> bool, n: nat, idx: nat)
    requires Visited(items, all, keep, n, idx) && idx == |items|
    ensures items == Kept(all, keep) && all[..n] == all
  {
    assert all[..|all|] == all;
  }

  /** `factor` times the capacity, by repeated addition. */
  function Scaled(capacity: nat, factor: nat): nat {
    if factor == 0 then 0 else Scaled(capacity, factor - 1) + capacity
  }

  lemma {:induction false} ScaledIsProduct(capacity: nat, factor: nat)
    ensures Scaled(capacity, factor) == capacity * factor
  {
    if factor > 0 {
      ScaledIsProduct(capacity, factor - 1);
      assert capacity * factor == capacity * (factor - 1) + capacity;
    }
  }

  lemma {:induction false} ExpansionGrows(capacity: nat, factor: nat)
    requires factor >= 2
    ensures Scaled(capacity, factor) >= 2 * capacity
  {
    if factor > 2 {
      ExpansionGrows(capacity, factor - 1);
    }
  }

  /** memmove on the buffer. */
  method MemMove(a: array<int>, dst: nat, src: nat, n: nat)
    requires dst + n <= a.Length && src + n <= a.Length
    modifies a
    ensures a[..] == MemMoved(old(a[..]), dst, src, n)
  {
    forall k | 0 <= k < n {
      a[dst + k] := a[src + k];
    }
  }

  /** memcpy of a value into the buffer. */
  method MemCopy(a: array<int>, dst: nat, v: seq<int>)
    requires dst + |v| <= a.Length
    modifies a
    ensures a[..] == Copied(old(a[..]), dst, v)
  {
    forall k | 0 <= k < |v| {
      a[dst + k] := v[k];
    }
  }

  /** A successful realloc: the common prefix survives. */
  method Reallocated(a: array<int>, newLength: nat) returns (b: array<int>)
    ensures fresh(b) && b.Length == newLength
    ensures forall k :: 0 <= k < a.Length && k < newLength ==> b[k] == a[k]
  {
    b := new int[newLength](k requires 0 <= k reads a => if k < a.Length then a[k] else 0);
  }

  class BTree {
    var data: array?<int>
    var count: nat
    var capacity: nat
    const valueSize: nat
    const minCapacity: nat
    const expandFactor: nat

    /** The entries, in key order. */
    ghost var items: seq<Entry>

    /** The buffer is long enough, and `items` is what it represents. */
    ghost predicate Laid()
      reads this, data
    {
      && minCapacity >= 1 && expandFactor >= 2
      && |items| == count <= capacity
      && (data == null ==> capacity == 0)
      && (data != null ==>
            && capacity > 0 && Fits(data.Length, capacity, valueSize, count)
            && items == Entries(data[..], capacity, valueSize, count))
    }

    ghost predicate Valid()
      reads this, data
    {
      Laid() && Ascending(items)
    }

    ghost function Map(): map<int, seq<int>>
      reads this, data
      requires Valid()
    {
      ToMap(items)
    }

    /** btree_init, for given configuration constants. */
    constructor (valueSize: nat, minCapacity: nat, expandFactor: nat)
      requires minCapacity >= 1 && expandFactor >= 2
      ensures Valid() && Map() == map[] && data == null && capacity == 0
      ensures this.valueSize == valueSize && this.minCapacity == minCapacity && this.expandFactor == expandFactor
    {
      data, count, capacity, items := null, 0, 0, [];
      this.valueSize, this.minCapacity, this.expandFactor := valueSize, minCapacity, expandFactor;
    }

    /** The least capacity that is neither below the one asked for nor below the configured minimum. */
    function Clamped(newCapacity: nat): (cap: nat)
      ensures cap >= newCapacity && cap >= minCapacity
      ensures cap == newCapacity || cap == minCapacity
    {
      if newCapacity < minCapacity then minCapacity else newCapacity
    }

    /** A full tree grows by the configured factor, if memory can be had. */
    function CapacityAfterRoom(allocOk: bool): nat
      reads this`capacity, this`count
    {
      if count == capacity && allocOk then Clamped(Scaled(capacity, expandFactor)) else capacity
    }

    /** A successful realloc of the buffer to a length that holds the current capacity. */
    method Resize(newLength: nat)
      requires Valid() && data != null && Fits(newLength, capacity, valueSize, count)
      modifies this`data
      ensures Valid()
      ensures data != null && fresh(data) && data.Length == newLength
    {
      ghost var used := ValueOffset(capacity, valueSize, capacity);
      var newData := Reallocated(data, newLength);
      assert data[..used] == newData[..used];
      assert data[..used] == data[..][..used] && newData[..used] == newData[..][..used];
      CopyKeepsEntries(data[..], newData[..], capacity, valueSize, count, used);
      data := newData;
    }

    /** Moves the values to where they belong for capacity `cap`, in a buffer long enough for both. */
    method Relocate(cap: nat)
      requires Valid() && data != null && count <= cap && cap > 0
      requires cap + ValueUnits(valueSize, capacity) <= data.Length
      requires capacity + ValueUnits(valueSize, capacity) <= data.Length
      requires Fits(data.Length, cap, valueSize, count)
      modifies this`capacity, data
      ensures Valid() && items == old(items) && capacity == cap
    {
      RelocationKeepsEntries(data[..], capacity, cap, valueSize, count);
      MemMove(data, cap, capacity, ValueUnits(valueSize, capacity));
      capacity := cap;
    }

    /** btree_realloc. `allocOk` is the allocator's answer; a failed shrink keeps the larger buffer. */
    method Realloc(newCapacity: nat, allocOk: bool) returns (status: Status)
      requires Valid() && count <= newCapacity
      modifies this`data, this`capacity, data
      ensures Valid()
      ensures status == BTREE_OOM <==> !allocOk && Clamped(newCapacity) >= old(capacity)
      ensures status == BTREE_OOM || status == BTREE_OK
      ensures status == BTREE_OOM ==> capacity == old(capacity) && data == old(data)
      ensures status == BTREE_OK ==> capacity == Clamped(newCapacity) && data != null
      ensures data == old(data) || fresh(data)
    {
      var cap := Clamped(newCapacity);
      var newLength := ValueOffset(cap, valueSize, cap);
      if data == null {
        if !allocOk {
          return BTREE_OOM;
        }
        OffsetOrder(cap, valueSize, 0, cap);
        data := new int[newLength];
        capacity := cap;
        return BTREE_OK;
      }
      var oldCapacity := capacity;
      OffsetOrder(cap, valueSize, 0, cap);
      OffsetOrder(cap, valueSize, cap, oldCapacity);
      OffsetOrder(cap, valueSize, oldCapacity, cap);
      OffsetOrder(oldCapacity, valueSize, cap, oldCapacity);
      if cap >= oldCapacity {
        if !allocOk {
          return BTREE_OOM;
        }
        Resize(newLength);
      }
      Relocate(cap);
      if cap < oldCapacity && allocOk {
        Resize(newLength);
      }
      return BTREE_OK;
    }

    lemma ItemAt(i: nat)
      requires Laid() && i < count
      ensures data != null && i < data.Length && items[i] == EntryAt(data[..], capacity, valueSize, i)
      ensures items[i].key == data[i]
    {
      EntriesIndex(data[..], capacity, valueSize, count, i);
    }

    /** btree_find_lower_bound, as an index. */
    method FindLowerBound(key: int) returns (found: nat)
      requires Valid()
      ensures LowerBound(items, key, found)
    {
      found := 0;
      var len := count;
      while len > 0
        invariant found + len <= count
        invariant forall i :: 0 <= i < found ==> items[i].key < key
        invariant forall i :: found + len <= i < count ==> key <= items[i].key
      {
        var half := len / 2;
        var middle := found + half;
        ItemAt(middle);
        if data[middle] < key {
          found := middle + 1;
          len := len - half - 1;
        } else {
          len := half;
        }
      }
    }

    /** The address of a value, as a unit index into the buffer, holds the value of `key`. */
    ghost predicate PointsAt(p: nat, key: int)
      reads this, data
      requires Valid()
    {
      key in Map() && data != null && p + valueSize <= data.Length && data[p..p + valueSize] == Map()[key]
    }

    /** btree_reserve. */
    method Reserve(size: nat, allocOk: bool) returns (status: Status)
      requires Valid()
      modifies this`data, this`capacity, data
      ensures Valid() && Map() == old(Map()) && count == old(count)
      ensures data == old(data) || fresh(data)
      ensures status == BTREE_OOM <==> old(capacity) < size && !allocOk
      ensures status == BTREE_OOM || status == BTREE_OK
      ensures status == BTREE_OK ==> size <= capacity
      ensures capacity == if old(capacity) < size && allocOk then Clamped(size) else old(capacity)
    {
      if capacity < size {
        status := Realloc(size, allocOk);
        return;
      }
      return BTREE_OK;
    }

    /** BTREE_NEEDS_REALLOC and the growth it triggers, at the head of both insertions. */
    method MakeRoom(allocOk: bool) returns (ok: bool)
      requires Valid()
      modifies this`data, this`capacity, data
      ensures Valid()
      ensures data == old(data) || fresh(data)
      ensures ok <==> old(count) < old(capacity) || allocOk
      ensures ok ==> count < capacity && data != null
      ensures capacity == old(CapacityAfterRoom(allocOk))
    {
      if count == capacity {
        ExpansionGrows(capacity, expandFactor);
        ScaledIsProduct(capacity, expandFactor);
        var newCapacity := capacity * expandFactor;
        var status := Realloc(newCapacity, allocOk);
        return status == BTREE_OK;
      }
      return true;
    }

    /** The two memmoves of an insertion at `idx`. */
    method OpenGap(idx: nat)
      requires data != null && Fits(data.Length, capacity, valueSize, count) && idx <= count < capacity
      modifies data
      ensures data[..] == Opened(old(data[..]), capacity, valueSize, count, idx)
    {
      OffsetOrder(capacity, valueSize, count, capacity);
      OffsetOrder(capacity, valueSize, idx, count);
      var entriesToMove := count - idx;
      MemMove(data, idx + 1, idx, entriesToMove);
      MemMove(data, ValueOffset(capacity, valueSize, idx + 1), ValueOffset(capacity, valueSize, idx),
              BlockUnits(valueSize, idx, count));
    }

    /** The memmoves and memcpys of an insertion. */
    method InsertAt(idx: nat, key: int, value: seq<int>)
      requires Valid() && data != null && count < capacity && |value| == valueSize
      requires LowerBound(items, key, idx) && key !in Map()
      modifies this`count, this`items, data
      ensures Valid() && Map() == old(Map())[key := value] && count == old(count) + 1
      ensures items == Inserted(old(items), idx, Entry(key, value))
    {
      InsertedIsMapUpdate(items, idx, Entry(key, value));
      PutEntry(idx, key, value);
    }

    method PutEntry(idx: nat, key: int, value: seq<int>)
      requires Laid() && data != null && idx <= count < capacity && |value| == valueSize
      modifies this`count, this`items, data
      ensures Laid() && items == Inserted(old(items), idx, Entry(key, value)) && count == old(count) + 1
    {
      FilledInserts(data[..], capacity, valueSize, count, idx, Entry(key, value));
      FillGap(idx, key, value);
      count := count + 1;
      items := Inserted(items, idx, Entry(key, value));
    }

    method FillGap(idx: nat, key: int, value: seq<int>)
      requires data != null && Fits(data.Length, capacity, valueSize, count)
      requires idx <= count < capacity && |value| == valueSize
      modifies data
      ensures data[..] == Filled(old(data[..]), capacity, valueSize, count, idx, Entry(key, value))
    {
      OffsetOrder(capacity, valueSize, idx, capacity);
      OpenGap(idx);
      ghost var gap := data[..];
      data[idx] := key;
      assert data[..] == gap[idx := key];
      MemCopy(data, ValueOffset(capacity, valueSize, idx), value);
    }

    /** The lookup at the head of most operations: the lower bound, and whether it is the key. */
    method Locate(key: int) returns (found: bool, lowerBound: nat)
      requires Valid()
      ensures LowerBound(items, key, lowerBound)
      ensures found <==> key in Map()
      ensures found ==> lowerBound < count && items[lowerBound].key == key
    {
      lowerBound := FindLowerBound(key);
      LowerBoundDecides(items, key, lowerBound);
      if lowerBound < count {
        ItemAt(lowerBound);
        found := data[lowerBound] == key;
      } else {
        found := false;
      }
    }

    /** btree_insert_new. */
    method InsertNew(key: int, value: seq<int>, allocOk: bool) returns (status: Status)
      requires Valid() && |value| == valueSize
      modifies this`data, this`capacity, this`count, this`items, data
      ensures Valid() && (data == old(data) || fresh(data))
      ensures status == BTREE_OOM <==> old(count) == old(capacity) && !allocOk
      ensures status != BTREE_OOM ==> status == if key in old(Map()) then BTREE_EXISTS else BTREE_OK
      ensures Map() == if status == BTREE_OK then old(Map())[key := value] else old(Map())
      ensures count == if status == BTREE_OK then old(count) + 1 else old(count)
      ensures capacity == old(CapacityAfterRoom(allocOk))
    {
      var ok := MakeRoom(allocOk);
      if !ok {
        return BTREE_OOM;
      }
      var found, lowerBound := Locate(key);
      if found {
        return BTREE_EXISTS;
      }
      InsertAt(lowerBound, key, value);
      return BTREE_OK;
    }

    lemma PointsAtEntry(idx: nat)
      requires Valid() && idx < count
      ensures data != null && PointsAt(ValueOffset(capacity, valueSize, idx), items[idx].key)
    {
      ItemAt(idx);
      EntryInMap(items, idx);
      OffsetOrder(capacity, valueSize, idx, capacity);
      var p := ValueOffset(capacity, valueSize, idx);
      assert data[..][p..p + valueSize] == data[p..p + valueSize];
    }

    /** btree_insert_or_get up to the address: the index of the entry of `key`. */
    method InsertOrLocate(key: int, value: seq<int>, allocOk: bool) returns (status: Status, idx: nat)
      requires Valid() && |value| == valueSize
      modifies this`data, this`capacity, this`count, this`items, data
      ensures Valid() && (data == old(data) || fresh(data))
      ensures status == BTREE_OOM <==> old(count) == old(capacity) && !allocOk
      ensures status != BTREE_OOM ==> status == if key in old(Map()) then BTREE_EXISTS else BTREE_NOT_FOUND
      ensures Map() == if status == BTREE_NOT_FOUND then old(Map())[key := value] else old(Map())
      ensures status != BTREE_OOM ==> idx < count && items[idx].key == key
      ensures capacity == old(CapacityAfterRoom(allocOk))
    {
      var ok := MakeRoom(allocOk);
      if !ok {
        return BTREE_OOM, 0;
      }
      var found, lowerBound := Locate(key);
      if found {
        return BTREE_EXISTS, lowerBound;
      }
      InsertAt(lowerBound, key, value);
      return BTREE_NOT_FOUND, lowerBound;
    }

    /** btree_insert_or_get; `insertedValue` is the address of the value stored under `key`. */
    method InsertOrGet(key: int, value: seq<int>, allocOk: bool) returns (status: Status, insertedValue: nat)
      requires Valid() && valueSize > 0 && |value| == valueSize
      modifies this`data, this`capacity, this`count, this`items, data
      ensures Valid() && (data == old(data) || fresh(data))
      ensures status == BTREE_OOM <==> old(count) == old(capacity) && !allocOk
      ensures status != BTREE_OOM ==> status == if key in old(Map()) then BTREE_EXISTS else BTREE_NOT_FOUND
      ensures Map() == if status == BTREE_NOT_FOUND then old(Map())[key := value] else old(Map())
      ensures status != BTREE_OOM ==> PointsAt(insertedValue, key)
      ensures capacity == old(CapacityAfterRoom(allocOk))
    {
      var idx;
      status, idx := InsertOrLocate(key, value, allocOk);
      insertedValue := ValueOffset(capacity, valueSize, idx);
      if status != BTREE_OOM {
        PointsAtEntry(idx);
      }
    }

    /** btree_find: the address of the value of `key`, or None. */
    method Find(key: int) returns (pos: Option<nat>)
      requires Valid()
      ensures pos.Some? <==> key in Map()
      ensures pos.Some? ==> PointsAt(pos.value, key)
      ensures pos.Some? ==> exists i :: 0 <= i < count && items[i].key == key
                                     && pos.value == ValueOffset(capacity, valueSize, i)
    {
      var found, lowerBound := Locate(key);
      if !found {
        return None;
      }
      PointsAtEntry(lowerBound);
      return Some(ValueOffset(capacity, valueSize, lowerBound));
    }

    /** btree_key_exists. */
    method KeyExists(key: int) returns (b: bool)
      requires Valid()
      ensures b <==> key in Map()
    {
      var found, lowerBound := Locate(key);
      return found;
    }

    /** btree_set_existing. */
    method SetExisting(key: int, value: seq<int>) returns (status: Status)
      requires Valid() && valueSize > 0 && |value| == valueSize
      modifies this`items, data
      ensures Valid()
      ensures status == if key in old(Map()) then BTREE_OK else BTREE_NOT_FOUND
      ensures Map() == if status == BTREE_OK then old(Map())[key := value] else old(Map())
    {
      var found := Find(key);
      if found.None? {
        return BTREE_NOT_FOUND;
      }
      ghost var i :| 0 <= i < count && items[i].key == key && found.value == ValueOffset(capacity, valueSize, i);
      ReplacedIsMapUpdate(items, i, value);
      OverwriteValue(found.value, value, i);
      return BTREE_OK;
    }

    method OverwriteValue(pos: nat, value: seq<int>, ghost i: nat)
      requires Laid() && |value| == valueSize && i < count && pos == ValueOffset(capacity, valueSize, i)
      modifies this`items, data
      ensures Laid() && items == old(items)[i := Entry(old(items)[i].key, value)]
    {
      OffsetOrder(capacity, valueSize, i, capacity);
      OverwriteReplaces(data[..], capacity, valueSize, count, i, value);
      MemCopy(data, pos, value);
      items := items[i := Entry(items[i].key, value)];
    }

    /** btree_erase_index, with the move of one entry too many as long as that stays inside the buffer. */
    method EraseIndex(idx: nat) returns (key: int)
      requires Valid() && idx < count
      modifies this`count, this`items, data
      ensures Valid() && count == old(count) - 1
      ensures key == old(items)[idx].key && items == Removed(old(items), idx)
      ensures Map() == old(Map()) - {key}
    {
      key := data[idx];
      ItemAt(idx);
      RemovedIsMapRemoval(items, idx);
      TakeEntry(idx);
    }

    method TakeEntry(idx: nat)
      requires Laid() && idx < count
      modifies this`count, this`items, data
      ensures Laid() && items == Removed(old(items), idx) && count == old(count) - 1
    {
      var last := if count < capacity then count + 1 else count;
      ClosedRemoves(data[..], capacity, valueSize, count, last, idx);
      CloseGap(idx, last);
      count := count - 1;
      items := Removed(items, idx);
      assert Entries(data[..], capacity, valueSize, count) == items;
    }

    /** The two memmoves of an erasure at `idx`. */
    method CloseGap(idx: nat, last: nat)
      requires data != null && Fits(data.Length, capacity, valueSize, last) && idx < last
      modifies data
      ensures data[..] == Closed(old(data[..]), capacity, valueSize, last, idx)
    {
      OffsetOrder(capacity, valueSize, last, capacity);
      OffsetOrder(capacity, valueSize, idx, last);
      OffsetOrder(capacity, valueSize, idx + 1, last);
      var entriesToMove := last - idx - 1;
      MemMove(data, idx, idx + 1, entriesToMove);
      MemMove(data, ValueOffset(capacity, valueSize, idx), ValueOffset(capacity, valueSize, idx + 1),
              BlockUnits(valueSize, idx + 1, last));
    }

    /** btree_erase. */
    method Erase(key: int) returns (status: Status)
      requires Valid()
      modifies this`count, this`items, data
      ensures Valid()
      ensures status == if key in old(Map()) then BTREE_OK else BTREE_NOT_FOUND
      ensures Map() == old(Map()) - {key}
    {
      var found, lowerBound := Locate(key);
      if !found {
        return BTREE_NOT_FOUND;
      }
      var erased := EraseIndex(lowerBound);
      return BTREE_OK;
    }

    /** btree_clear. */
    method Clear()
      requires Valid()
      modifies this`count, this`items
      ensures Valid() && Map() == map[] && capacity == old(capacity)
    {
      count := 0;
      items := [];
    }

    /** btree_compact: an empty tree gives its buffer back, any other shrinks to its count. */
    method Compact(allocOk: bool)
      requires Valid()
      modifies this`data, this`capacity, data
      ensures Valid() && Map() == old(Map()) && count == old(count)
      ensures data == old(data) || data == null || fresh(data)
      ensures count == 0 ==> data == null && capacity == 0
      ensures count > 0 ==> capacity == Clamped(count) || (!allocOk && capacity == old(capacity))
    {
      if count == 0 {
        data := null;
        capacity := 0;
      } else {
        var status := Realloc(count, allocOk);
      }
    }

    /**
      * BTREE_FOR_EACH with BTREE_ERASE_CURRENT_ITEM_IN_FOR_LOOP on every item that `keep` refuses. The
      * 32-bit loop index wraps below zero when item 0 is erased, and the loop increment wraps it back.
      */
    method ForEachErasing(keep: Entry -> bool) returns (visited: seq<Entry>)
      requires Valid() && count < UINT32
      modifies this`count, this`items, data
      ensures Valid() && items == Kept(old(items), keep)
      ensures visited == old(items)
    {
      ghost var all := items;
      VisitedNone(all, keep);
      visited := [];
      var idx: nat := 0;
      ghost var n: nat := 0;
      while idx != count
        invariant Valid() && count < UINT32 && data == old(data)
        invariant Visited(items, all, keep, n, idx) && visited == all[..n]
        decreases |all| - n
      {
        VisitedCount(items, all, keep, n, idx);
        var current, next := VisitCurrent(idx, keep, all, n);
        PrefixGrows(all, n);
        visited, idx, n := visited + [current], next, n + 1;
      }
      VisitedAll(items, all, keep, n, idx);
    }

    /** One turn of the loop: the body and the increment. */
    method VisitCurrent(idx: nat, keep: Entry -> bool, ghost all: seq<Entry>, ghost n: nat)
      returns (current: Entry, next: nat)
      requires Valid() && idx < count < UINT32 && n < |all| && Visited(items, all, keep, n, idx)
      modifies this`count, this`items, data
      ensures Valid() && count < UINT32 && current == all[n]
      ensures Visited(items, all, keep, n + 1, next)
    {
      KeptStep(items, all, keep, n, idx);
      current := CurrentEntry(idx);
      next := idx;
      if !keep(current) {
        next := EraseCurrent(idx);
      }
      next := Inc32(next);
    }

    /** BTREE_ERASE_CURRENT_ITEM_IN_FOR_LOOP: the new loop index, one less in 32-bit arithmetic. */
    method EraseCurrent(idx: nat) returns (next: nat)
      requires Valid() && idx < count < UINT32
      modifies this`count, this`items, data
      ensures Valid() && items == Removed(old(items), idx) && count == old(count) - 1
      ensures next == Dec32(idx)
    {
      var key := EraseIndex(idx);
      next := Dec32(idx);
    }

    /** The key and the value at a loop index. */
    method CurrentEntry(idx: nat) returns (e: Entry)
      requires Valid() && idx < count
      ensures e == items[idx]
    {
      ItemAt(idx);
      OffsetOrder(capacity, valueSize, idx, capacity);
      var p := ValueOffset(capacity, valueSize, idx);
      assert data[..][p..p + valueSize] == data[p..p + valueSize];
      e := Entry(data[idx], data[p..p + valueSize]);
    }
  }
}
