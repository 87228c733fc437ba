/** The table as the program stores it: pages of slots on the heap, a counter and a stack,
    updated in place. Each method does to the flat reading what the function of the same
    name in `ReferenceTable` does. */
module PagedTable {
  import opened Prelude
  import T = ReferenceTable

  class ReferenceMapValue {
    var origRef: ObjRef
    var mappedRef: ObjRef
    var iorTableName: string
    var requireSecure: bool
    var agent: ObjRef
    var refCount: int        // the value is deleted when this reaches 0

    constructor (orig: ObjRef, mapped: ObjRef, secure: bool)
      ensures origRef == orig && mappedRef == mapped && requireSecure == secure && refCount == 1
      ensures iorTableName == "" && agent == Nil
    {
      origRef, mappedRef, requireSecure, refCount := orig, mapped, secure, 1;
      iorTableName, agent := "", Nil;
    }

    predicate Live()
      reads this`refCount
    {
      refCount > 0
    }

    method IncrRefcount()
      requires refCount > 0
      modifies this`refCount
      ensures refCount == old(refCount) + 1
    {
      refCount := refCount + 1;
    }

    method DecrRefcount() returns (left: int)
      requires refCount > 0
      modifies this`refCount
      ensures refCount == old(refCount) - 1 == left && (Live() <==> old(refCount) > 1)
    {
      refCount := refCount - 1;
      left := refCount;
    }

    /** A second value, owned by the caller, that leads back the other way. */
    method Reverse() returns (r: ReferenceMapValue)
      requires refCount > 0
      ensures fresh(r) && r.refCount == 1 && r.origRef == mappedRef && r.mappedRef == origRef
      ensures r.requireSecure == requireSecure && r.iorTableName == "" && r.agent == Nil
    {
      r := new ReferenceMapValue(mappedRef, origRef, requireSecure);
    }
  }

  type Page = array<ReferenceMapValue?>

  function AsOption(v: ReferenceMapValue?): Option<ReferenceMapValue> {
    if v == null then None else Some(v)
  }

  /** Where slot `k` of page `p` stands in the flat reading: skip `p` pages, as `find_page`
      walks the list. */
  function Position(pageSize: nat, p: nat, k: nat): nat {
    if p == 0 then k else pageSize + Position(pageSize, p - 1, k)
  }

  lemma {:induction false} PositionIs(pageSize: nat, p: nat, k: nat)
    ensures Position(pageSize, p, k) == p * pageSize + k == Position(pageSize, p, 0) + k
  {
    if p > 0 {
      PositionIs(pageSize, p - 1, k);
      assert p * pageSize == (p - 1) * pageSize + pageSize;
    }
  }

  lemma {:induction false} PositionOrder(pageSize: nat, p: nat, k: nat, q: nat, j: nat)
    requires p < q && k < pageSize
    ensures Position(pageSize, p, k) < Position(pageSize, q, j)
  {
    if p > 0 { PositionOrder(pageSize, p - 1, k, q - 1, j); }
  }

  lemma {:induction false} PositionBelow(pageSize: nat, p: nat, k: nat, q: nat)
    requires pageSize > 0
    ensures q <= p ==> Position(pageSize, q, 0) <= Position(pageSize, p, k)
  {
    if q == p { PositionIs(pageSize, p, k); }
    if q < p { PositionOrder(pageSize, q, 0, p, k); }
  }

  /** Division finds the page and the slot of an index. */
  lemma {:induction false} PositionOf(pageSize: nat, numPages: nat, i: nat)
    requires pageSize > 0 && i < Position(pageSize, numPages, 0)
    ensures 0 <= i / pageSize < numPages && 0 <= i % pageSize < pageSize
    ensures Position(pageSize, i / pageSize, i % pageSize) == i
  {
    var p, k := QuotientAndRemainder(pageSize, i);
    PositionBelow(pageSize, p, k, numPages);
  }

  lemma QuotientAndRemainder(pageSize: nat, i: nat) returns (p: nat, k: nat)
    requires pageSize > 0
    ensures p == i / pageSize && k == i % pageSize && k < pageSize && Position(pageSize, p, k) == i
  {
    p, k := i / pageSize, i % pageSize;
    PositionIs(pageSize, p, k);
  }

  class RMVByMapped {
    const pageSize: nat
    var highIndex: nat
    var numPages: nat
    var freeStack: seq<nat>
    var pages: seq<Page>
    ghost var slots: seq<Option<ReferenceMapValue>>

    ghost predicate Valid()
      reads this, pages
    {
      && 0 < pageSize
      && numPages == |pages|
      && (forall p :: 0 <= p < |pages| ==> pages[p].Length == pageSize)
      && (forall p, q :: 0 <= p < q < |pages| ==> pages[p] != pages[q])
      && |slots| == Position(pageSize, |pages|, 0)
      && (forall p, k :: 0 <= p < |pages| && 0 <= k < pageSize ==> Stored(p, k) == AsOption(pages[p][k]))
    }

    /** The flat reading of slot `k` of page `p`. */
    ghost function Stored(p: nat, k: nat): Option<ReferenceMapValue>
      requires p < |pages| && k < pageSize && |slots| == Position(pageSize, |pages|, 0)
      reads this
    {
      PositionOrder(pageSize, p, k, |pages|, 0);
      slots[Position(pageSize, p, k)]
    }

    /** The flat reading. */
    ghost function Flat(): T.Table<ReferenceMapValue>
      reads this
    {
      T.Table(pageSize, highIndex, freeStack, slots)
    }

    constructor (size: nat)
      requires 0 < size < UINT32
      ensures Valid() && Flat() == T.Init(size) && fresh(pages)
    {
      pageSize := size;
      highIndex, numPages, freeStack := 0, 1, [];
      var page := new ReferenceMapValue?[size](_ => null);
      pages := [page];
      slots := T.NullPage(size);
      new;
      assert Position(pageSize, 1, 0) == pageSize;
    }

    method NextIndex() returns (index: nat)
      requires Valid()
      modifies this
      ensures Valid() && (Flat(), index) == T.NextIndex(old(Flat()))
      ensures old(pages) <= pages && fresh(pages[|old(pages)|..])
    {
      if freeStack != [] {
        index := freeStack[0];
        freeStack := freeStack[1..];
      } else {
        index := highIndex;
        highIndex := (highIndex + 1) % UINT32;
      }
      PositionIs(pageSize, numPages, 0);
      if index >= (numPages * pageSize) % UINT32 {
        AddPage();
      }
    }

    /** A page of empty slots after the last one. */
    method AddPage()
      requires Valid()
      modifies this`numPages, this`pages, this`slots
      ensures Valid() && slots == old(slots) + T.NullPage(pageSize)
      ensures old(pages) <= pages && fresh(pages[|old(pages)|..])
    {
      var n := |pages|;
      var page := new ReferenceMapValue?[pageSize](_ => null);
      numPages, pages, slots := numPages + 1, pages + [page], slots + T.NullPage(pageSize);
      assert forall p :: 0 <= p < n ==> pages[p] == old(pages)[p];
      forall p, k | 0 <= p < |pages| && 0 <= k < pageSize ensures Stored(p, k) == AsOption(pages[p][k]) {
        if p < n {
          PositionOrder(pageSize, p, k, n, 0);
          assert Stored(p, k) == old(Stored(p, k));
        } else {
          PositionIs(pageSize, n, k);
        }
      }
    }

    /** The value in a slot, if there is one. */
    ghost function At(index: nat): set<ReferenceMapValue>
      reads this
    {
      if index < |slots| && slots[index].Some? then {slots[index].value} else {}
    }

    /** The page and the slot that the code computes for an index. */
    ghost predicate Locates(index: nat, p: nat, k: nat)
      requires Valid()
      reads this, pages
    {
      p < |pages| && k < pageSize && index == Position(pageSize, p, k)
    }

    method Locate(index: nat) returns (p: nat, k: nat)
      requires Valid() && index < |slots|
      ensures Locates(index, p, k) && AsOption(pages[p][k]) == slots[index]
    {
      PositionOf(pageSize, numPages, index);
      p, k := index / pageSize, index % pageSize;
      assert Stored(p, k) == AsOption(pages[p][k]);
    }

    /** `page[ndx] = v`. */
    method Store(ghost index: nat, p: nat, k: nat, v: ReferenceMapValue?)
      requires Valid() && Locates(index, p, k)
      modifies pages[p], this`slots
      ensures index < |old(slots)|
      ensures Valid() && slots == old(slots)[index := AsOption(v)]
    {
      PositionOrder(pageSize, p, k, |pages|, 0);
      pages[p][k] := v;
      slots := slots[index := AsOption(v)];
      forall q, j | 0 <= q < |pages| && 0 <= j < pageSize ensures Stored(q, j) == AsOption(pages[q][j]) {
        assert old(Stored(q, j) == AsOption(pages[q][j]));
        PositionOrder(pageSize, q, j, |pages|, 0);
        if q < p {
          PositionOrder(pageSize, q, j, p, k);
        } else if p < q {
          PositionOrder(pageSize, p, k, q, j);
        } else {
          PositionIs(pageSize, p, j);
          PositionIs(pageSize, p, k);
        }
      }
    }

    method Bind(index: nat, value: ReferenceMapValue) returns (ok: bool)
      requires Valid() && value.refCount > 0
      modifies this`slots, pages, value`refCount
      ensures Valid() && (Flat(), ok) == T.Bind(old(Flat()), index, value)
      ensures value.refCount == old(value.refCount) + (if ok then 1 else 0)
    {
      PositionIs(pageSize, numPages, 0);
      if index >= (numPages * pageSize) % UINT32 { return false; }
      var p, k := Locate(index);
      if pages[p][k] != null { return false; }
      value.IncrRefcount();
      Store(index, p, k, value);
      ok := true;
    }

    /** Releases the old value first. A value put over itself that has no second owner is
        deleted on the way and then used. */
    method Rebind(index: nat, value: ReferenceMapValue) returns (r: Outcome<bool>)
      requires Valid() && value.Live() && forall v :: v in At(index) ==> v.Live()
      modifies this`slots, pages, value`refCount, At(index)`refCount
      ensures var (t, ok) := T.Rebind(old(Flat()), index, value); var same := value in old(At(index));
        && (r.Fault? <==> ok && same && old(value.refCount) == 1)
        && (r.Ok? ==> Valid() && (Flat(), r.value) == (t, ok))
        && (r.Ok? ==> value.refCount == old(value.refCount) + if ok && !same then 1 else 0)
        && forall v :: v in old(At(index)) && v != value ==> v.refCount == old(v.refCount) - if ok then 1 else 0
    {
      PositionIs(pageSize, numPages, 0);
      if index >= (numPages * pageSize) % UINT32 { return Ok(false); }
      var p, k := Locate(index);
      if pages[p][k] != null {
        var _ := pages[p][k].DecrRefcount();
      }
      if !value.Live() { return Fault; }
      value.IncrRefcount();
      Store(index, p, k, value);
      r := Ok(true);
    }

    method Find(index: nat) returns (value: ReferenceMapValue?)
      requires Valid() && forall v :: v in At(index) ==> v.refCount > 0
      modifies At(index)`refCount
      ensures AsOption(value) == T.Find(Flat(), index)
      ensures forall v :: v in At(index) ==> v.refCount == old(v.refCount) + (if value == v then 1 else 0)
    {
      PositionIs(pageSize, numPages, 0);
      if index >= (numPages * pageSize) % UINT32 { return null; }
      var p, k := Locate(index);
      value := pages[p][k];
      if value != null {
        value.IncrRefcount();
      }
    }

    /** Hands the table's own count over to the caller. */
    method Unbind(index: nat) returns (value: ReferenceMapValue?)
      requires Valid()
      modifies this`slots, this`freeStack, pages
      ensures Valid() && (Flat(), AsOption(value)) == T.Unbind(old(Flat()), index)
    {
      PositionIs(pageSize, numPages, 0);
      if index >= (numPages * pageSize) % UINT32 { return null; }
      var p, k := Locate(index);
      value := pages[p][k];
      if value != null {
        Store(index, p, k, null);
        freeStack := [index] + freeStack;
      }
    }

    /** The collector's first look at slot `k` of page `p`. */
    method Peek(p: nat, k: nat) returns (value: ReferenceMapValue?)
      requires Valid() && p < |pages| && k < pageSize
      ensures p * pageSize + k < |slots| && AsOption(value) == slots[p * pageSize + k]
    {
      PositionIs(pageSize, p, k);
      PositionOrder(pageSize, p, k, |pages|, 0);
      value := pages[p][k];
      assert Stored(p, k) == AsOption(pages[p][k]);
    }

    /** The collector's second look, after its ping: reap if the same value is still there.
        `offset` is the running sum of the sizes of the pages walked. */
    method Recheck(p: nat, k: nat, offset: nat, value: ReferenceMapValue, expired: bool) returns (reaped: bool)
      requires Valid() && p < |pages| && k < pageSize && offset == p * pageSize
      requires pages[p][k] == value ==> value.refCount > 0
      modifies this`slots, this`freeStack, pages, value`refCount
      ensures Valid() && reaped == (expired && old(pages[p][k]) == value)
      ensures offset + k < |old(slots)|
      ensures Flat() == if reaped then T.Clear(old(Flat()), offset + k, offset + k) else old(Flat())
      ensures value.refCount == old(value.refCount) - (if reaped then 1 else 0)
    {
      PositionIs(pageSize, p, k);
      PositionOrder(pageSize, p, k, |pages|, 0);
      reaped := expired && pages[p][k] == value;
      if reaped {
        var _ := pages[p][k].DecrRefcount();
        Store(offset + k, p, k, null);
        freeStack := [offset + k] + freeStack;
      }
    }
  }
}
