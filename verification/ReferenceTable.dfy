/** The table of mapped references, read as a flat array of slots: an index allocator
    (a counter and a stack of freed indices) over slots that grow one page at a time.
    Each function is the body that one lock protects, taken as one atomic step. */
module ReferenceTable {
  import opened Prelude

  datatype Table<V> = Table(
    pageSize: nat, high: nat,
    free: seq<nat>,              // the free stack, top first
    slots: seq<Option<V>>)       // page after page

  /** `num_pages_ * page_size_`, the number of slots, as 32 bits hold it. */
  function Limit<V>(t: Table<V>): nat {
    |t.slots| % UINT32
  }

  function NullPage<V>(size: nat): (page: seq<Option<V>>)
    ensures |page| == size && forall k :: 0 <= k < size ==> page[k].None?
  {
    seq(size, _ => None)
  }

  function Init<V>(pageSize: nat): Table<V> {
    Table(pageSize, 0, [], NullPage(pageSize))
  }

  function NextIndex<V>(t: Table<V>): (Table<V>, nat) {
    var (t1, index) :=
      if t.free != [] then (t.(free := t.free[1..]), t.free[0])
      else (t.(high := (t.high + 1) % UINT32), t.high);
    if index >= Limit(t1)
    then (t1.(slots := t1.slots + NullPage(t1.pageSize)), index)
    else (t1, index)
  }

  function Put<V>(t: Table<V>, i: nat, x: Option<V>): Table<V>
    requires i < |t.slots|
  {
    t.(slots := t.slots[i := x])
  }

  function Bind<V>(t: Table<V>, i: nat, v: V): (Table<V>, bool)
  {
    if i >= Limit(t) || t.slots[i].Some? then (t, false) else (Put(t, i, Some(v)), true)
  }

  function Rebind<V>(t: Table<V>, i: nat, v: V): (Table<V>, bool)
  {
    if i >= Limit(t) then (t, false) else (Put(t, i, Some(v)), true)
  }

  function Find<V>(t: Table<V>, i: nat): Option<V>
  {
    if i >= Limit(t) then None else t.slots[i]
  }

  /** Empties slot `i` and pushes `index` on the free stack. */
  function Clear<V>(t: Table<V>, i: nat, index: nat): Table<V>
    requires i < |t.slots|
  {
    Put(t, i, None).(free := [index] + t.free)
  }

  function Unbind<V>(t: Table<V>, i: nat): (Table<V>, Option<V>)
  {
    if Find(t, i).None? then (t, None) else (Clear(t, i, i), Find(t, i))
  }

  // ---- the partition of the indices below the counter ----

  /** `n` slots are a whole number of pages. */
  ghost predicate WholePages(n: nat, size: nat)
    requires size > 0
  {
    n == 0 || (n >= size && WholePages(n - size, size))
  }

  /** Every index below `high` is bound, free or reserved; free indices do not repeat;
      whole pages cover the counter with none to spare, and their number does not wrap. */
  ghost predicate WellFormed<V>(t: Table<V>) {
    && 0 < t.pageSize <= |t.slots| < UINT32
    && WholePages(|t.slots|, t.pageSize)
    && t.high <= |t.slots|
    && (|t.slots| == t.pageSize || |t.slots| - t.pageSize < t.high)
    && (forall k :: 0 <= k < |t.free| ==> t.free[k] < t.high && t.slots[t.free[k]].None?)
    && (forall j, k :: 0 <= j < k < |t.free| ==> t.free[j] != t.free[k])
    && (forall i :: t.high <= i < |t.slots| ==> t.slots[i].None?)
  }

  ghost function Bound<V>(t: Table<V>): set<nat> {
    set i: nat | i < |t.slots| && t.slots[i].Some?
  }

  /** Indices handed out and not bound yet. */
  ghost function Reserved<V>(t: Table<V>): set<nat>
    requires t.high <= |t.slots|
  {
    set i: nat | i < t.high && t.slots[i].None? && i !in t.free
  }

  /** The next issue keeps the 32-bit limit check exact. */
  ghost predicate Issuable<V>(t: Table<V>) {
    t.free != [] || t.high < |t.slots| || t.high + t.pageSize < UINT32
  }

  lemma InitWellFormed<V>(pageSize: nat)
    requires 0 < pageSize < UINT32
    ensures WellFormed(Init<V>(pageSize)) && Reserved(Init<V>(pageSize)) == {} && Bound(Init<V>(pageSize)) == {}
  {
  }

  /** The number of slots does not wrap, so a lookup reads the slot. */
  lemma FindIs<V>(t: Table<V>, i: nat)
    requires WellFormed(t)
    ensures Find(t, i) == (if i < |t.slots| then t.slots[i] else None) && |t.slots| < UINT32
  {
  }

  /** The three-way split: no index below `high` is in two parts or in none. */
  lemma Partition<V>(t: Table<V>, i: nat)
    requires WellFormed(t)
    ensures i < t.high <==> i in Bound(t) || i in Reserved(t) || i in t.free
    ensures !(i in Bound(t) && i in Reserved(t))
    ensures i in t.free ==> i !in Bound(t) && i !in Reserved(t)
  {
    if i in t.free {
      var k :| 0 <= k < |t.free| && t.free[k] == i;
    }
  }

  /** `num_pages_` is max(1, ceil(high_index_ / page_size_)). */
  lemma PageCount<V>(t: Table<V>)
    requires WellFormed(t)
    ensures |t.slots| == (|t.slots| / t.pageSize) * t.pageSize
    ensures |t.slots| / t.pageSize == if t.high == 0 then 1 else (t.high + t.pageSize - 1) / t.pageSize
  {
    var d := t.pageSize;
    var numPages := PagesOf(|t.slots|, d);
    if t.high == 0 {
      DivUnique(d, d, 1, 0);
    } else {
      DivUnique(t.high + d - 1, d, numPages, t.high + d - 1 - numPages * d);
    }
  }

  lemma {:induction false} PagesOf(n: nat, size: nat) returns (pages: nat)
    requires size > 0 && WholePages(n, size)
    ensures n == pages * size && n / size == pages
  {
    if n == 0 {
      pages := 0;
    } else {
      var before := PagesOf(n - size, size);
      pages := before + 1;
    }
    DivUnique(n, size, pages, 0);
  }

  /** Quotient and remainder are the only numbers that do their job. */
  lemma DivUnique(n: int, d: int, q: int, r: int)
    requires d > 0 && n == q * d + r && 0 <= r < d
    ensures n / d == q && n % d == r
  {
    assert n == (n / d) * d + n % d;
    MultipleAway(q - n / d, d);
  }

  lemma MultipleAway(k: int, d: int)
    requires d > 0
    ensures k == 0 || k * d >= d || k * d <= -d
  {
  }

  /** An issued index was held by nobody, is reserved afterwards, and `bind` on it succeeds;
      growth keeps every slot. */
  lemma NextIndexReserves<V>(t: Table<V>, v: V)
    requires WellFormed(t) && Issuable(t)
    ensures var (t', i) := NextIndex(t);
      && WellFormed(t')
      && i !in Bound(t) && i !in Reserved(t)
      && Reserved(t') == Reserved(t) + {i}
      && t.slots <= t'.slots && Bound(t') == Bound(t)
      && Bind(t', i, v).1
  {
    var (t', i) := NextIndex(t);
    if t.free != [] {
      PopKeeps(t);
      assert t'.slots == t.slots;
    } else {
      assert t'.slots[..|t.slots|] == t.slots;
    }
    assert Reserved(t') == Reserved(t) + {i};
  }

  lemma PopKeeps<V>(t: Table<V>)
    requires WellFormed(t) && t.free != []
    ensures var t' := t.(free := t.free[1..]);
      WellFormed(t') && t.free[0] !in t'.free && Reserved(t') == Reserved(t) + {t.free[0]}
  {
    var t' := t.(free := t.free[1..]);
    assert t.free == [t.free[0]] + t'.free;
    assert forall k :: 0 <= k < |t'.free| ==> t'.free[k] == t.free[k + 1];
  }

  /** Issuing keeps the number of slots inside 32 bits exactly when the issued index plus
      the page size stays inside, or no page has to be added. Past that point the index
      just issued cannot be bound. */
  lemma LimitExactIff<V>(t: Table<V>, v: V)
    requires WellFormed(t)
    ensures |NextIndex(t).0.slots| < UINT32 <==> Issuable(t)
    ensures Issuable(t) <==> Bind(NextIndex(t).0, NextIndex(t).1, v).1
  {
    if Issuable(t) {
      NextIndexReserves(t, v);
    }
  }

  lemma BindKeeps<V>(t: Table<V>, i: nat, v: V)
    requires WellFormed(t) && i in Reserved(t)
    ensures var (t', ok) := Bind(t, i, v);
      ok && WellFormed(t') && Reserved(t') == Reserved(t) - {i} && Bound(t') == Bound(t) + {i}
  {
  }

  /** `bind` does not ask where its index came from: it keeps the partition exactly when it
      is refused or the index is reserved. */
  lemma BindKeepsIff<V>(t: Table<V>, i: nat, v: V)
    requires WellFormed(t)
    ensures WellFormed(Bind(t, i, v).0) <==> i >= |t.slots| || i in Bound(t) || i in Reserved(t)
  {
    var t' := Bind(t, i, v).0;
    if i < |t.slots| && i !in Bound(t) && i !in Reserved(t) {
      if i in t.free {
        var k :| 0 <= k < |t.free| && t.free[k] == i;
        assert t'.slots[t'.free[k]].Some?;
      } else {
        assert t'.slots[i].Some? && i >= t'.high;
      }
    }
  }

  /** Clearing a bound slot with its own index moves it to the free stack and nothing else. */
  lemma ClearKeeps<V>(t: Table<V>, i: nat)
    requires WellFormed(t) && i in Bound(t)
    ensures var t' := Clear(t, i, i);
      && WellFormed(t') && Reserved(t') == Reserved(t) && Bound(t') == Bound(t) - {i}
      && t'.free == [i] + t.free && i !in t.free
  {
    var t' := Clear(t, i, i);
    assert forall k :: 0 < k < |t'.free| ==> t'.free[k] == t.free[k - 1];
    assert i in t'.free;
    forall j: nat | j in t.free ensures j in t'.free {
      var k :| 0 <= k < |t.free| && t.free[k] == j;
      assert t'.free[k + 1] == j;
    }
    assert Reserved(t') == Reserved(t);
  }

  /** What the operations do to a table whose limit is exact. A bound slot is never
      overwritten by `bind`, `unbind` hands out what was in the slot, and no operation touches
      another slot. */
  lemma OperationsExact<V>(t: Table<V>, i: nat, v: V)
    requires WellFormed(t)
    ensures var (t', ok) := Bind(t, i, v);
      && (ok <==> i < |t.slots| && i !in Bound(t)) && Changed(t, t', i, if ok then Some(v) else Find(t, i))
      && t'.free == t.free
    ensures var (t', ok) := Rebind(t, i, v);
      (ok <==> i < |t.slots|) && Changed(t, t', i, if ok then Some(v) else None) && t'.free == t.free
    ensures var (t', was) := Unbind(t, i);
      && (was.Some? <==> i in Bound(t)) && (i in Bound(t) ==> was == t.slots[i])
      && Changed(t, t', i, None) && t'.free == if i in Bound(t) then [i] + t.free else t.free
  {
    FindIs(t, i);
  }

  /** Slot `i` holds `x`; the other slots and the counter are as they were. */
  ghost predicate Changed<V>(t: Table<V>, t': Table<V>, i: nat, x: Option<V>) {
    && t'.pageSize == t.pageSize && t'.high == t.high && |t'.slots| == |t.slots|
    && (i < |t.slots| ==> t'.slots[i] == x)
    && forall k :: 0 <= k < |t.slots| && k != i ==> t'.slots[k] == t.slots[k]
  }

  lemma RebindKeeps<V>(t: Table<V>, i: nat, v: V)
    requires WellFormed(t) && (i in Bound(t) || i in Reserved(t))
    ensures var (t', ok) := Rebind(t, i, v);
      ok && WellFormed(t') && Reserved(t') == Reserved(t) - {i} && Bound(t') == Bound(t) + {i}
  {
  }

  /** `rebind` takes any index below the limit: it keeps the partition exactly when it is
      refused or the index is bound or reserved. */
  lemma RebindKeepsIff<V>(t: Table<V>, i: nat, v: V)
    requires WellFormed(t)
    ensures Rebind(t, i, v).1 <==> i < |t.slots|
    ensures WellFormed(Rebind(t, i, v).0) <==> i >= |t.slots| || i in Bound(t) || i in Reserved(t)
  {
    if i in Bound(t) || i in Reserved(t) {
      RebindKeeps(t, i, v);
    } else {
      assert Rebind(t, i, v).0 == Bind(t, i, v).0;
      BindKeepsIff(t, i, v);
    }
  }

  /** Issue and bind, as one thread does them: the index was free, its slot now holds the
      value, and every other bound slot is as it was. */
  lemma IssueAndBind<V>(t: Table<V>, v: V)
    requires WellFormed(t) && Issuable(t)
    ensures var (t1, i) := NextIndex(t); var t' := Bind(t1, i, v).0;
      && WellFormed(t') && i !in Bound(t) && i < UINT32 && Bound(t') == Bound(t) + {i}
      && Find(t', i) == Some(v)
      && (forall j :: j in Bound(t) ==> j in Bound(t') && t'.slots[j] == t.slots[j])
      && t'.high <= t.high + 1 && t'.pageSize == t.pageSize && t'.free == t1.free
  {
    var (t1, i) := NextIndex(t);
    NextIndexReserves(t, v);
    BindKeeps(t1, i, v);
    assert Bound(t1) == Bound(t);
  }

  /** What counter, stack and number of slots do, and which slot is taken, does not depend on
      what the slots hold. */
  lemma SameCourse<V, W>(t: Table<V>, u: Table<W>, v: V, w: W)
    requires WellFormed(t) && Issuable(t) && SameFrame(t, u)
    ensures var (t1, i) := NextIndex(t); var (u1, j) := NextIndex(u);
      && i == j && SameFrame(t1, u1) && t.slots <= t1.slots && u.slots <= u1.slots && i < |t1.slots|
      && (forall k :: |t.slots| <= k < |t1.slots| ==> t1.slots[k].None? && u1.slots[k].None?)
      && Bind(t1, i, v).0 == Put(t1, i, Some(v)) && Bind(u1, i, w).0 == Put(u1, i, Some(w))
  {
    NextIndexReserves(t, v);
    assert t.slots <= NextIndex(t).0.slots;
  }

  ghost predicate SameFrame<V, W>(t: Table<V>, u: Table<W>) {
    && u.pageSize == t.pageSize && u.high == t.high && u.free == t.free && |u.slots| == |t.slots|
    && forall k :: 0 <= k < |t.slots| ==> (t.slots[k].None? <==> u.slots[k].None?)
  }
}
