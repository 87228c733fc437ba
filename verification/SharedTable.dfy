/** Every run of the table shared by request threads and the garbage collector. A thread
    owns reference counts through handles; the collector walks the pages, drops its lock
    while it pings a value, and rechecks the slot before it reaps. Any step of any thread
    may come between any two steps of the collector. */
module SharedTable {
  import opened Prelude
  import T = ReferenceTable
  import M = Mapping
  import Id = ObjectId

  type Addr = nat

  /** A ReferenceMapValue on the heap. `serial` counts allocations, so that two values at
      one address, one after the other, can be told apart. */
  datatype Cell = Cell(serial: nat, orig: ObjRef, mapped: ObjRef, count: nat)

  /** The local variables of `svc`: `offset` is `page_offset`, `serial` remembers which
      value was pinged. */
  datatype Collector =
    | Resting
    | Scanning(page: nat, index: nat, offset: nat)
    | Pinging(page: nat, index: nat, offset: nat, value: Addr, serial: nat)

  /** The mapper that owns the table: what goes into the references it makes. */
  datatype Owner = Owner(self: M.Self, keys: M.Keys)

  function MakeRef(o: Owner, typeId: string, outFacing: bool, i: nat): ObjRef {
    M.MakeRef(o.self, o.keys, typeId, outFacing, i)
  }

  datatype State = State(
    owner: Owner,
    table: T.Table<Addr>,
    heap: map<Addr, Cell>,       // live values only
    clock: nat,                  // allocations so far
    handles: multiset<Addr>,     // owning handles held by threads
    pending: set<nat>,           // indices issued and not bound yet
    gc: Collector)

  /** `Issue`, `Create` and `Bind` are the parts of `add_native_unchecked`: it takes an index,
      makes a value with the reference for that index, and binds it there. */
  datatype Step =
    | Issue
    | Create(a: Addr, orig: ObjRef, i: nat, outFacing: bool)
    | Bind(i: nat, a: Addr)
    | Rebind(i: nat, a: Addr)
    | Find(i: nat)
    | Unbind(i: nat)
    | Copy(a: Addr)
    | Release(a: Addr)
    | Reverse(a: Addr, b: Addr)
    | GcWake
    | GcMove
    | GcPing
    | GcRecheck(expired: bool)

  function Initial(owner: Owner, pageSize: nat): State {
    State(owner, T.Init(pageSize), map[], 0, multiset{}, {}, Resting)
  }

  /** Same value, whatever its count. */
  ghost predicate Same(c: Cell, d: Cell) {
    c.serial == d.serial && c.orig == d.orig && c.mapped == d.mapped
  }

  function Incr(heap: map<Addr, Cell>, a: Addr): (r: map<Addr, Cell>)
    requires a in heap
    ensures forall b :: b in r ==> b in heap && Same(r[b], heap[b])
  {
    heap[a := heap[a].(count := heap[a].count + 1)]
  }

  /** Dropping the last count deletes the value. */
  function Decr(heap: map<Addr, Cell>, a: Addr): (r: map<Addr, Cell>)
    requires a in heap
    ensures forall b :: b in r ==> b in heap && Same(r[b], heap[b])
  {
    if heap[a].count > 1 then heap[a := heap[a].(count := heap[a].count - 1)] else heap - {a}
  }

  // ---- the invariant ----

  ghost function Holders(t: T.Table<Addr>, a: Addr): set<nat> {
    set i: nat | i < |t.slots| && t.slots[i] == Some(a)
  }

  /** Each live value is counted once for every slot and every handle that holds it, and
      slots and handles hold live values only. */
  ghost predicate Counted(t: T.Table<Addr>, heap: map<Addr, Cell>, handles: multiset<Addr>) {
    && (forall a :: a in heap ==> heap[a].count == |Holders(t, a)| + handles[a] && heap[a].count > 0)
    && (forall a :: a in handles ==> a in heap)
    && (forall i :: 0 <= i < |t.slots| && t.slots[i].Some? ==> t.slots[i].value in heap)
  }

  /** The collector stands on a slot of an existing page, or just past the last one, and
      its running offset is the global index of that page's first slot. */
  ghost predicate Placed(s: State) {
    match s.gc
    case Resting => true
    case Scanning(page, index, offset) => OnPage(s.table, page, offset) && index <= s.table.pageSize
    case Pinging(page, index, offset, _, serial) =>
      OnPage(s.table, page, offset) && index < s.table.pageSize && serial < s.clock
  }

  ghost predicate OnPage(t: T.Table<Addr>, page: nat, offset: nat) {
    offset == Spot(t, page, 0) && offset + t.pageSize <= |t.slots|
  }

  /** The value was made for index `i`, by `add_native_unchecked`. */
  ghost predicate CellFor(o: Owner, c: Cell, i: nat) {
    M.MadeFor(o.self, o.keys, c.orig, c.mapped, i)
  }

  /** Every bound slot holds a value whose mapped reference was made for that index. */
  ghost predicate Labelled(o: Owner, t: T.Table<Addr>, heap: map<Addr, Cell>) {
    forall i {:trigger SlotOk(o, t, heap, i)} :: SlotOk(o, t, heap, i)
  }

  ghost predicate SlotOk(o: Owner, t: T.Table<Addr>, heap: map<Addr, Cell>, i: nat) {
    i < |t.slots| && t.slots[i].Some? ==> t.slots[i].value in heap && CellFor(o, heap[t.slots[i].value], i)
  }

  ghost predicate Inv(s: State) {
    Core(s) && Labelled(s.owner, s.table, s.heap)
  }

  ghost predicate Core(s: State) {
    && Id.Valid(s.owner.self.me)
    && T.WellFormed(s.table)
    && s.pending == T.Reserved(s.table)
    && Counted(s.table, s.heap, s.handles)
    && (forall a :: a in s.heap ==> s.heap[a].serial < s.clock)
    && Placed(s)
  }

  // ---- the steps ----

  /** What a thread must own to take a step. An address may be allocated when nothing live
      has it; nothing says it was never used before. */
  ghost predicate Enabled(s: State, step: Step) {
    match step
    case Issue => T.Issuable(s.table)
    case Create(a, orig, i, _) => a !in s.heap && orig.Ref? && i in s.pending
    case Bind(i, a) => i in s.pending && Holds(s, a, i)
    case Rebind(i, a) => (i in s.pending || i in T.Bound(s.table)) && Holds(s, a, i)
    case Find(_) => true
    case Unbind(_) => true
    case Copy(a) => a in s.handles
    case Release(a) => a in s.handles
    case Reverse(a, b) => a in s.handles && b !in s.heap
    case GcWake => s.gc.Resting?
    case GcMove => s.gc.Scanning? && (s.gc.index < s.table.pageSize ==> Under(s).None?)
    case GcPing => s.gc.Scanning? && s.gc.index < s.table.pageSize && Under(s).Some?
    case GcRecheck(_) => s.gc.Pinging?
  }

  /** A thread holds a value made for index `i`. */
  ghost predicate Holds(s: State, a: Addr, i: nat) {
    a in s.handles && a in s.heap && CellFor(s.owner, s.heap[a], i)
  }

  /** The slot the collector stands on: `rmv[index]` on the page it walks. */
  function Under(s: State): Option<Addr> {
    if !s.gc.Resting? && Spot(s.table, s.gc.page, s.gc.index) < |s.table.slots|
    then s.table.slots[Spot(s.table, s.gc.page, s.gc.index)] else None
  }

  /** Where slot `index` of page `page` stands in the flat reading. */
  function Spot(t: T.Table<Addr>, page: nat, index: nat): nat {
    page * t.pageSize + index
  }

  /** `rebind`: the old value is released before the new one is counted. */
  function Replace(s: State, i: nat, a: Addr): (r: State)
    requires i < |s.table.slots| && a in s.heap
    requires s.table.slots[i].Some? ==> s.table.slots[i].value in s.heap
    requires s.table.slots[i] == Some(a) ==> s.heap[a].count > 1
    ensures forall b :: b in r.heap ==> b in s.heap && Same(r.heap[b], s.heap[b])
  {
    var was := s.table.slots[i];
    var heap := if was.Some? then Decr(s.heap, was.value) else s.heap;
    s.(table := T.Rebind(s.table, i, a).0, heap := Incr(heap, a), pending := s.pending - {i})
  }

  function Alloc(s: State, a: Addr, orig: ObjRef, mapped: ObjRef): State {
    s.(heap := s.heap[a := Cell(s.clock, orig, mapped, 1)], clock := s.clock + 1,
       handles := s.handles + multiset{a})
  }

  predicate OfCollector(step: Step) {
    step.GcWake? || step.GcMove? || step.GcPing? || step.GcRecheck?
  }

  function Next(s: State, step: Step): State
    requires Inv(s) && Enabled(s, step)
  {
    if OfCollector(step) then Sweep(s, step) else Act(s, step)
  }

  function Reseat(s: State, i: nat, a: Addr): State
    requires Inv(s) && Enabled(s, Rebind(i, a))
  {
    if s.table.slots[i] == Some(a) then RebindHasOwner(s, i, a); Replace(s, i, a) else Replace(s, i, a)
  }

  /** `find`: the caller gets a handle of its own. */
  function Share(s: State, i: nat): State
    requires Inv(s)
  {
    T.FindIs(s.table, i);
    var v := T.Find(s.table, i);
    if v.None? then s
    else s.(heap := Incr(s.heap, v.value), handles := s.handles + multiset{v.value})
  }

  /** One locked body run by a request thread. */
  function Act(s: State, step: Step): State
    requires Inv(s) && Enabled(s, step) && !OfCollector(step)
  {
    match step
    case Issue =>
      var (t, i) := T.NextIndex(s.table);
      s.(table := t, pending := s.pending + {i})
    case Create(a, orig, i, outFacing) => Alloc(s, a, orig, MakeRef(s.owner, orig.typeId, outFacing, i))
    case Bind(i, a) =>
      var (t, ok) := T.Bind(s.table, i, a);
      if ok then s.(table := t, heap := Incr(s.heap, a), pending := s.pending - {i}) else s
    case Rebind(i, a) => Reseat(s, i, a)
    case Find(i) => Share(s, i)
    case Unbind(i) =>
      var (t, v) := T.Unbind(s.table, i);
      if v.None? then s else s.(table := t, handles := s.handles + multiset{v.value})
    case Copy(a) => s.(heap := Incr(s.heap, a), handles := s.handles + multiset{a})
    case Release(a) => s.(heap := Decr(s.heap, a), handles := s.handles - multiset{a})
    case Reverse(a, b) => Alloc(s, b, s.heap[a].mapped, s.heap[a].orig)
  }

  function Reap(s: State): State
    requires s.gc.Pinging? && s.gc.value in s.heap && Under(s).Some?
  {
    s.(table := T.Clear(s.table, Spot(s.table, s.gc.page, s.gc.index), s.gc.offset + s.gc.index),
       heap := Decr(s.heap, s.gc.value))
  }

  /** One locked stretch of `svc`. */
  function Sweep(s: State, step: Step): State
    requires Inv(s) && Enabled(s, step) && OfCollector(step)
  {
    match step
    case GcWake => s.(gc := Scanning(0, 0, 0))
    case GcMove =>
      var Scanning(page, index, offset) := s.gc;
      if index < s.table.pageSize then s.(gc := Scanning(page, index + 1, offset))
      else if Spot(s.table, page + 2, 0) <= |s.table.slots|       // there is a next page
      then s.(gc := Scanning(page + 1, 0, offset + s.table.pageSize))
      else s.(gc := Resting)
    case GcPing =>
      var Scanning(page, index, offset) := s.gc;
      var value := Under(s).value;
      s.(gc := Pinging(page, index, offset, value, s.heap[value].serial))
    case GcRecheck(expired) =>
      var Pinging(page, index, offset, value, _) := s.gc;
      var s' := if expired && Under(s) == Some(value) then Reap(s) else s;
      s'.(gc := Scanning(page, index + 1, offset))
  }

  // ---- counting ----

  lemma HoldersPut(t: T.Table<Addr>, i: nat, x: Option<Addr>, a: Addr)
    requires i < |t.slots|
    ensures |Holders(T.Put(t, i, x), a)|
         == |Holders(t, a)| - (if t.slots[i] == Some(a) then 1 else 0) + (if x == Some(a) then 1 else 0)
  {
    var rest := Holders(t, a) - {i};
    assert Holders(T.Put(t, i, x), a) == rest + (if x == Some(a) then {i} else {});
  }

  lemma HoldersIssue(t: T.Table<Addr>, a: Addr)
    ensures Holders(T.NextIndex(t).0, a) == Holders(t, a)
  {
  }

  /** The thread that rebinds owns a count of its own, so a value put back over itself
      survives the decrement that comes first. */
  lemma RebindHasOwner(s: State, i: nat, a: Addr)
    requires Inv(s) && Enabled(s, Rebind(i, a))
    requires s.table.slots[i] == Some(a)
    ensures s.heap[a].count > 1
  {
    HoldersPut(s.table, i, None, a);
  }

  /** Decrement before increment is safe exactly when the new value is another one or has
      a second owner. */
  lemma RebindSafeIff(s: State, i: nat, a: Addr)
    requires Inv(s) && i in T.Bound(s.table) && a in s.heap
    ensures a in Decr(s.heap, s.table.slots[i].value)
       <==> s.table.slots[i] != Some(a) || s.heap[a].count >= 2
  {
  }

  lemma CountedPut(t: T.Table<Addr>, heap: map<Addr, Cell>, handles: multiset<Addr>, i: nat, x: Option<Addr>,
                   heap': map<Addr, Cell>, handles': multiset<Addr>)
    requires Counted(t, heap, handles) && i < |t.slots|
    requires forall a :: a in heap' ==> a in heap && heap'[a].count > 0
    requires forall a :: a in heap ==>
      var n := heap[a].count - handles[a] + handles'[a]
        - (if t.slots[i] == Some(a) then 1 else 0) + (if x == Some(a) then 1 else 0);
      if n == 0 then a !in heap' else a in heap' && heap'[a].count == n
    requires forall a :: a in handles' ==> a in heap
    requires x.Some? ==> x.value in heap
    ensures Counted(T.Put(t, i, x), heap', handles')
  {
    var t' := T.Put(t, i, x);
    forall a | a in heap
      ensures a in heap' ==> heap'[a].count == |Holders(t', a)| + handles'[a]
      ensures a !in heap' ==> |Holders(t', a)| == 0 && handles'[a] == 0
    {
      HoldersPut(t, i, x, a);
    }
    forall j | 0 <= j < |t'.slots| && t'.slots[j].Some? ensures t'.slots[j].value in heap' {
      assert j in Holders(t', t'.slots[j].value);
    }
  }

  lemma CountedDrop(t: T.Table<Addr>, heap: map<Addr, Cell>, handles: multiset<Addr>, i: nat)
    requires Counted(t, heap, handles) && i < |t.slots| && t.slots[i].Some?
    ensures Counted(T.Put(t, i, None), Decr(heap, t.slots[i].value), handles)
  {
    CountedPut(t, heap, handles, i, None, Decr(heap, t.slots[i].value), handles);
  }

  lemma CountedAdd(t: T.Table<Addr>, heap: map<Addr, Cell>, handles: multiset<Addr>, i: nat, a: Addr)
    requires Counted(t, heap, handles) && i < |t.slots| && t.slots[i].None? && a in heap
    ensures Counted(T.Put(t, i, Some(a)), Incr(heap, a), handles)
  {
    CountedPut(t, heap, handles, i, Some(a), Incr(heap, a), handles);
  }

  // ---- every step keeps the invariant ----

  lemma IssueKeeps(s: State)
    requires Inv(s) && Enabled(s, Issue)
    ensures Core(Next(s, Issue))
  {
    T.NextIndexReserves(s.table, 0);
    var t := T.NextIndex(s.table).0;
    forall a ensures Holders(t, a) == Holders(s.table, a) { HoldersIssue(s.table, a); }
  }

  lemma AllocKeeps(s: State, a: Addr, orig: ObjRef, mapped: ObjRef)
    requires Inv(s) && a !in s.heap
    ensures Core(Alloc(s, a, orig, mapped))
  {
    forall i | i in Holders(s.table, a) ensures false { }
    assert Holders(s.table, a) == {};
  }

  lemma BindKeeps(s: State, i: nat, a: Addr)
    requires Inv(s) && Enabled(s, Bind(i, a))
    ensures Core(Next(s, Bind(i, a)))
    ensures T.Find(Next(s, Bind(i, a)).table, i) == Some(a)
  {
    T.BindKeeps(s.table, i, a);
    CountedAdd(s.table, s.heap, s.handles, i, a);
  }

  lemma RebindKeeps(s: State, i: nat, a: Addr)
    requires Inv(s) && Enabled(s, Rebind(i, a))
    ensures Core(Next(s, Rebind(i, a)))
    ensures T.Find(Next(s, Rebind(i, a)).table, i) == Some(a)
  {
    T.RebindKeeps(s.table, i, a);
    if s.table.slots[i] == Some(a) { RebindHasOwner(s, i, a); }
    ReplaceCounted(s.table, s.heap, s.handles, i, a);
  }

  lemma ReplaceCounted(t: T.Table<Addr>, heap: map<Addr, Cell>, handles: multiset<Addr>, i: nat, a: Addr)
    requires Counted(t, heap, handles) && i < |t.slots| && a in handles
    ensures var h := if t.slots[i].Some? then Decr(heap, t.slots[i].value) else heap;
      a in h && Counted(T.Put(t, i, Some(a)), Incr(h, a), handles)
  {
    if t.slots[i].Some? {
      var empty := T.Put(t, i, None);
      CountedDrop(t, heap, handles, i);
      CountedAdd(empty, Decr(heap, t.slots[i].value), handles, i, a);
      assert T.Put(empty, i, Some(a)) == T.Put(t, i, Some(a));
    } else {
      CountedAdd(t, heap, handles, i, a);
    }
  }

  lemma UnbindKeeps(s: State, i: nat)
    requires Inv(s)
    ensures Core(Next(s, Unbind(i)))
  {
    if T.Find(s.table, i).Some? {
      T.ClearKeeps(s.table, i);
      CountedClear(s, i, s.heap, s.handles + multiset{s.table.slots[i].value});
    }
  }

  /** Counting looks at the slots alone. */
  lemma SlotsOnly(t: T.Table<Addr>, t': T.Table<Addr>, heap: map<Addr, Cell>, handles: multiset<Addr>)
    requires Counted(t, heap, handles) && t'.slots == t.slots
    ensures Counted(t', heap, handles)
  {
    forall a ensures Holders(t', a) == Holders(t, a) { }
  }

  lemma CopyKeeps(s: State, a: Addr)
    requires Inv(s) && a in s.heap
    ensures Core(s.(heap := Incr(s.heap, a), handles := s.handles + multiset{a}))
  {
  }

  lemma ReleaseKeeps(s: State, a: Addr)
    requires Inv(s) && a in s.handles
    ensures Core(s.(heap := Decr(s.heap, a), handles := s.handles - multiset{a}))
  {
    if s.heap[a].count == 1 {
      assert Holders(s.table, a) == {};
      forall i | 0 <= i < |s.table.slots| ensures s.table.slots[i] != Some(a) {
        assert i !in Holders(s.table, a);
      }
    }
  }

  lemma CollectorKeeps(s: State, step: Step)
    requires Inv(s) && Enabled(s, step) && (step.GcWake? || step.GcMove? || step.GcPing?)
    ensures Core(Next(s, step))
  {
    if step.GcMove? { NextPage(s.table, s.gc.page); }
  }

  lemma NextPage(t: T.Table<Addr>, page: nat)
    ensures Spot(t, page + 1, 0) == Spot(t, page, 0) + t.pageSize
    ensures Spot(t, page + 2, 0) == Spot(t, page + 1, 0) + t.pageSize
  {
  }

  /** A reap takes the slot that `find` uses for the index it frees: that index was bound,
      to the value pinged, and not on the free stack. */
  lemma ReapFreesItsIndex(s: State)
    requires Inv(s) && s.gc.Pinging?
    ensures var g := s.gc.offset + s.gc.index;
      && T.Find(s.table, g) == Under(s)
      && (Under(s) == Some(s.gc.value) ==>
            && g in T.Bound(s.table) && g !in s.table.free
            && Reap(s) == s.(table := T.Clear(s.table, g, g), heap := Decr(s.heap, s.gc.value)))
  {
    var g := s.gc.offset + s.gc.index;
    assert Spot(s.table, s.gc.page, s.gc.index) == g;
    T.FindIs(s.table, g);
    if Under(s) == Some(s.gc.value) {
      T.Partition(s.table, g);
    }
  }

  lemma ReapKeeps(s: State)
    requires Inv(s) && s.gc.Pinging? && Under(s) == Some(s.gc.value)
    ensures Core(Reap(s))
  {
    ReapFreesItsIndex(s);
    var g := s.gc.offset + s.gc.index;
    T.ClearKeeps(s.table, g);
    CountedClear(s, g, Decr(s.heap, s.gc.value), s.handles);
  }

  lemma RecheckKeeps(s: State, expired: bool)
    requires Inv(s) && s.gc.Pinging?
    ensures Core(Next(s, GcRecheck(expired)))
  {
    if expired && Under(s) == Some(s.gc.value) { ReapKeeps(s); }
  }

  lemma CountedClear(s: State, g: nat, heap: map<Addr, Cell>, handles: multiset<Addr>)
    requires Inv(s) && g < |s.table.slots| && s.table.slots[g].Some?
    requires (heap == Decr(s.heap, s.table.slots[g].value) && handles == s.handles)
          || (heap == s.heap && handles == s.handles + multiset{s.table.slots[g].value})
    ensures Counted(T.Clear(s.table, g, g), heap, handles)
  {
    if handles == s.handles {
      CountedDrop(s.table, s.heap, handles, g);
    } else {
      CountedPut(s.table, s.heap, s.handles, g, None, heap, handles);
    }
    SlotsOnly(T.Put(s.table, g, None), T.Clear(s.table, g, g), heap, handles);
  }

  lemma ActKeeps(s: State, step: Step)
    requires Inv(s) && Enabled(s, step) && !OfCollector(step)
    ensures Core(Next(s, step))
  {
    match step
    case Issue => IssueKeeps(s);
    case Create(a, orig, i, outFacing) => AllocKeeps(s, a, orig, MakeRef(s.owner, orig.typeId, outFacing, i));
    case Reverse(a, b) => AllocKeeps(s, b, s.heap[a].mapped, s.heap[a].orig);
    case Bind(i, a) => BindKeeps(s, i, a);
    case Rebind(i, a) => RebindKeeps(s, i, a);
    case Unbind(i) => UnbindKeeps(s, i);
    case Find(i) => if T.Find(s.table, i).Some? { CopyKeeps(s, T.Find(s.table, i).value); }
    case Copy(a) => CopyKeeps(s, a);
    case Release(a) => ReleaseKeeps(s, a);
  }

  lemma StepKeepsCore(s: State, step: Step)
    requires Inv(s) && Enabled(s, step)
    ensures Core(Next(s, step))
  {
    if !OfCollector(step) {
      ActKeeps(s, step);
    } else if step.GcRecheck? {
      RecheckKeeps(s, step.expired);
    } else {
      CollectorKeeps(s, step);
    }
  }

  /** A slot that is bound after a step was bound to the same value before, or this step put
      the value there. */
  lemma ActFillsSlot(s: State, step: Step, i: nat)
    requires Inv(s) && Enabled(s, step) && !OfCollector(step) && i in T.Bound(Act(s, step).table)
    ensures var x := Act(s, step).table.slots[i];
      || (i < |s.table.slots| && x == s.table.slots[i])
      || ((step.Bind? || step.Rebind?) && step.i == i && x == Some(step.a))
  {
    match step
    case Issue => T.NextIndexReserves(s.table, 0);
    case Unbind(j) => T.FindIs(s.table, j);
    case _ =>
  }

  lemma SweepFillsNone(s: State, step: Step, i: nat)
    requires Inv(s) && Enabled(s, step) && OfCollector(step) && i in T.Bound(Sweep(s, step).table)
    ensures i < |s.table.slots| && Sweep(s, step).table.slots[i] == s.table.slots[i]
  {
  }

  lemma StepKeepsLabels(s: State, step: Step)
    requires Inv(s) && Enabled(s, step) && Core(Next(s, step))
    ensures Labelled(s.owner, Next(s, step).table, Next(s, step).heap)
  {
    var s' := Next(s, step);
    forall i: nat ensures SlotOk(s.owner, s'.table, s'.heap, i) {
      if i in T.Bound(s'.table) { StepKeepsLabel(s, step, s', i); }
    }
  }

  lemma StepKeepsLabel(s: State, step: Step, s': State, i: nat)
    requires Inv(s) && Enabled(s, step) && s' == Next(s, step) && Core(s') && i in T.Bound(s'.table)
    ensures SlotOk(s.owner, s'.table, s'.heap, i)
  {
    assert SlotOk(s.owner, s.table, s.heap, i);
    StepKeepsCell(s, step, s'.table.slots[i].value);
    if OfCollector(step) { SweepFillsNone(s, step, i); } else { ActFillsSlot(s, step, i); }
  }

  /** The handles a step gives to its thread: on a new value, on the value found or unbound,
      or one more on a value it has. */
  ghost function Gained(s: State, step: Step): multiset<Addr>
    requires Inv(s)
  {
    match step
    case Create(a, _, _, _) => multiset{a}
    case Reverse(_, b) => multiset{b}
    case Copy(a) => multiset{a}
    case Find(i) => if i in T.Bound(s.table) then multiset{s.table.slots[i].value} else multiset{}
    case Unbind(i) => if i in T.Bound(s.table) then multiset{s.table.slots[i].value} else multiset{}
    case _ => multiset{}
  }

  /** No other step gives or takes a handle; with the invariant, every count follows. */
  lemma HandlesExact(s: State, step: Step)
    requires Inv(s) && Enabled(s, step)
    ensures Next(s, step).handles
         == if step.Release? then s.handles - multiset{step.a} else s.handles + Gained(s, step)
  {
    if OfCollector(step) { SweepKeepsHandles(s, step); } else { ActHandles(s, step); }
  }

  lemma SweepKeepsHandles(s: State, step: Step)
    requires Inv(s) && Enabled(s, step) && OfCollector(step)
    ensures Sweep(s, step).handles == s.handles
  {
  }

  lemma ActHandles(s: State, step: Step)
    requires Inv(s) && Enabled(s, step) && !OfCollector(step)
    ensures Act(s, step).handles
         == if step.Release? then s.handles - multiset{step.a} else s.handles + Gained(s, step)
  {
    match step
    case Find(i) => FoundHandle(s, i);
    case Unbind(i) => UnboundHandle(s, i);
    case _ =>
  }

  lemma FoundHandle(s: State, i: nat)
    requires Inv(s)
    ensures Act(s, Find(i)).handles == s.handles + Gained(s, Find(i))
  {
    T.FindIs(s.table, i);
  }

  lemma UnboundHandle(s: State, i: nat)
    requires Inv(s)
    ensures Act(s, Unbind(i)).handles == s.handles + Gained(s, Unbind(i))
  {
    T.FindIs(s.table, i);
  }

  /** A reversed value leads back the other way. */
  lemma ReverseSwaps(s: State, a: Addr, b: Addr)
    requires Inv(s) && Enabled(s, Reverse(a, b))
    ensures var c := Next(s, Reverse(a, b)).heap[b];
      M.Entry(c.orig, c.mapped) == M.Reverse(M.Entry(s.heap[a].orig, s.heap[a].mapped)) && c.count == 1
  {
  }

  lemma OwnerStays(s: State, step: Step)
    requires Inv(s) && Enabled(s, step)
    ensures Next(s, step).owner == s.owner
  {
  }

  lemma StepKeepsInv(s: State, step: Step)
    requires Inv(s) && Enabled(s, step)
    ensures Inv(Next(s, step))
  {
    StepKeepsCore(s, step);
    StepKeepsLabels(s, step);
    OwnerStays(s, step);
  }

  lemma InitialInv(owner: Owner, pageSize: nat)
    requires 0 < pageSize < UINT32 && Id.Valid(owner.self.me)
    ensures Inv(Initial(owner, pageSize))
  {
    T.InitWellFormed<Addr>(pageSize);
  }

  // ---- runs ----

  ghost predicate Runs(s: State, steps: seq<Step>)
    requires Inv(s)
    decreases |steps|
  {
    steps == [] ||
    (Enabled(s, steps[0]) && (StepKeepsInv(s, steps[0]); Runs(Next(s, steps[0]), steps[1..])))
  }

  /** The state a run ends in; the invariant holds there. */
  ghost function Exec(s: State, steps: seq<Step>): (r: State)
    requires Inv(s) && Runs(s, steps)
    ensures Inv(r) && s.clock <= r.clock && r.owner == s.owner
    decreases |steps|
  {
    if steps == [] then s
    else
      StepKeepsInv(s, steps[0]); ClockGrows(s, steps[0]); OwnerStays(s, steps[0]);
      Exec(Next(s, steps[0]), steps[1..])
  }

  lemma ClockGrows(s: State, step: Step)
    requires Inv(s) && Enabled(s, step)
    ensures s.clock <= Next(s, step).clock
  {
  }

  /** Every reachable state: the split of the indices, no index held twice, each count equal
      to its owners, a value live exactly as long as it has one, and every bound value made
      for the index it is bound at. */
  lemma {:induction false} ReachableStates(owner: Owner, pageSize: nat, steps: seq<Step>)
    requires 0 < pageSize < UINT32
    requires Inv(Initial(owner, pageSize)) && Runs(Initial(owner, pageSize), steps)
    ensures var s := Exec(Initial(owner, pageSize), steps);
      && (forall i: nat :: i < s.table.high <==> i in T.Bound(s.table) || i in s.pending || i in s.table.free)
      && (forall i :: i in s.pending ==> i !in T.Bound(s.table) && i !in s.table.free)
      && (forall i :: i in T.Bound(s.table) ==> i !in s.table.free)
      && (forall j, k :: 0 <= j < k < |s.table.free| ==> s.table.free[j] != s.table.free[k])
      && (forall a :: a in s.heap ==> s.heap[a].count == |Holders(s.table, a)| + s.handles[a])
      && (forall a :: a in s.heap <==> Holders(s.table, a) != {} || a in s.handles)
      && (forall i :: i in T.Bound(s.table) ==> CellFor(owner, s.heap[s.table.slots[i].value], i))
  {
    var s := Exec(Initial(owner, pageSize), steps);
    forall i: nat
      ensures i < s.table.high <==> i in T.Bound(s.table) || i in s.pending || i in s.table.free
      ensures i in s.table.free ==> i !in T.Bound(s.table) && i !in s.pending
    {
      T.Partition(s.table, i);
    }
    forall a ensures a in s.heap <==> Holders(s.table, a) != {} || a in s.handles { LiveIffOwned(s, a); }
    forall i | i in T.Bound(s.table) ensures CellFor(owner, s.heap[s.table.slots[i].value], i) {
      assert SlotOk(owner, s.table, s.heap, i);
    }
  }

  lemma LiveIffOwned(s: State, a: Addr)
    requires Inv(s)
    ensures a in s.heap <==> Holders(s.table, a) != {} || a in s.handles
  {
    if Holders(s.table, a) != {} {
      var i :| i in Holders(s.table, a);
    }
  }

  // ---- the collector's window ----

  ghost predicate Allocates(step: Step, a: Addr) {
    (step.Create? && step.a == a) || (step.Reverse? && step.b == a)
  }

  lemma StepKeepsCell(s: State, step: Step, a: Addr)
    requires Inv(s) && Enabled(s, step) && a in Next(s, step).heap
    ensures var c := Next(s, step).heap[a];
      if Allocates(step, a) then c.serial == s.clock else a in s.heap && Same(c, s.heap[a])
  {
    if OfCollector(step) { SweepKeepsCells(s, step); } else { ActKeepsCell(s, step, a); }
  }

  lemma ActKeepsCell(s: State, step: Step, a: Addr)
    requires Inv(s) && Enabled(s, step) && !OfCollector(step) && a in Act(s, step).heap
    ensures var c := Act(s, step).heap[a];
      if Allocates(step, a) then c.serial == s.clock else a in s.heap && Same(c, s.heap[a])
  {
    match step
    case Find(i) => T.FindIs(s.table, i);
    case Rebind(i, _) => ReseatKeepsCell(s, i, step.a, a);
    case _ =>
  }

  lemma ReseatKeepsCell(s: State, i: nat, v: Addr, a: Addr)
    requires Inv(s) && Enabled(s, Rebind(i, v)) && a in Reseat(s, i, v).heap
    ensures a in s.heap && Same(Reseat(s, i, v).heap[a], s.heap[a])
  {
  }

  lemma SweepKeepsCells(s: State, step: Step)
    requires Inv(s) && Enabled(s, step) && OfCollector(step)
    ensures var s' := Sweep(s, step); forall a :: a in s'.heap ==> a in s.heap && Same(s'.heap[a], s.heap[a])
  {
  }

  /** As long as nothing is allocated at an address, the value found there is the old one;
      after an allocation there it is a younger one. */
  lemma {:induction false} SameCell(s: State, steps: seq<Step>, a: Addr)
    requires Inv(s) && Runs(s, steps) && a in Exec(s, steps).heap
    ensures var c := Exec(s, steps).heap[a];
      if exists k :: 0 <= k < |steps| && Allocates(steps[k], a) then c.serial >= s.clock
      else a in s.heap && Same(c, s.heap[a])
    decreases |steps|
  {
    if steps != [] {
      StepKeepsInv(s, steps[0]);
      ClockGrows(s, steps[0]);
      var s1 := Next(s, steps[0]);
      SameCell(s1, steps[1..], a);
      if exists k :: 0 <= k < |steps[1..]| && Allocates(steps[1..][k], a) {
        var k :| 0 <= k < |steps[1..]| && Allocates(steps[1..][k], a);
        assert Allocates(steps[k + 1], a);
      } else {
        StepKeepsCell(s, steps[0], a);
        forall k | 0 < k < |steps| ensures !Allocates(steps[k], a) {
          assert steps[k] == steps[1..][k - 1];
        }
      }
    }
  }

  lemma PingRecords(s: State)
    requires Inv(s) && Enabled(s, GcPing)
    ensures var s' := Next(s, GcPing);
      && Some(s'.gc.value) == T.Find(s.table, s'.gc.offset + s'.gc.index)
      && s'.gc.serial == s.heap[s'.gc.value].serial && s'.heap == s.heap
  {
    assert Spot(s.table, s.gc.page, s.gc.index) == s.gc.offset + s.gc.index;
  }

  /** The collector has just pinged a value, and any threads run before it rechecks. When
      the recheck finds that value's address, the value there is the one pinged exactly
      when no value was allocated at the address in between. */
  lemma {:induction false} ReapsThePinged(s: State, window: seq<Step>)
    requires Inv(s) && s.gc.Pinging? && s.gc.value in s.heap && s.heap[s.gc.value].serial == s.gc.serial
    requires Runs(s, window) && forall k :: 0 <= k < |window| ==> !OfCollector(window[k])
    ensures var s1 := Exec(s, window); var v := s.gc.value;
      && s1.gc == s.gc
      && (Under(s1) == Some(v) ==>
            && v in s1.heap
            && (s1.heap[v].serial == s.gc.serial
                <==> forall k :: 0 <= k < |window| ==> !Allocates(window[k], v)))
  {
    ThreadsLeaveCollector(s, window);
    if Under(Exec(s, window)) == Some(s.gc.value) {
      SameCell(s, window, s.gc.value);
    }
  }

  lemma {:induction false} ThreadsLeaveCollector(s: State, steps: seq<Step>)
    requires Inv(s) && Runs(s, steps)
    requires forall k :: 0 <= k < |steps| ==> !OfCollector(steps[k])
    ensures Exec(s, steps).gc == s.gc
    decreases |steps|
  {
    if steps != [] {
      StepKeepsInv(s, steps[0]);
      assert Next(s, steps[0]).gc == s.gc;
      ThreadsLeaveCollector(Next(s, steps[0]), steps[1..]);
    }
  }

  // ---- what a mapped reference resolves to ----

  /** The native behind index `i`. */
  ghost function NativeAt(s: State, i: nat): Option<ObjRef>
    requires Inv(s)
  {
    var v := T.Find(s.table, i);
    if v.None? then None else Some(s.heap[v.value].orig)
  }

  /** `native_for_mapped`, for a reference on one of the two POAs: the index is read from the
      bytes of its object id, nothing else in them is looked at. */
  ghost function NativeFor(s: State, ref: ObjRef, outFacing: bool): Outcome<Option<ObjRef>>
    requires Inv(s)
  {
    var id := M.ReferenceToId(s.owner.keys, ref, outFacing);
    if id.None? then Ok(None) else
    var index :- M.IndexIn(s.owner.self, id.value);
    Ok(NativeAt(s, index))
  }

  /** Whatever its type and whenever it was made, a reference made for index `i` resolves to
      the native that is behind that index now. */
  lemma MadeResolves(s: State, typeId: string, outFacing: bool, i: nat)
    requires Inv(s) && i < UINT32
    ensures NativeFor(s, MakeRef(s.owner, typeId, outFacing, i), outFacing) == Ok(NativeAt(s, i))
  {
    M.IndexInMade(s.owner.self, s.owner.keys, typeId, outFacing, i);
  }

  /** The entry at index `i` leads from `ref` to `native`. */
  ghost predicate Leads(s: State, i: nat, native: ObjRef, ref: ObjRef)
    requires Inv(s)
  {
    && i in T.Bound(s.table) && s.heap[s.table.slots[i].value].orig == native
    && s.heap[s.table.slots[i].value].mapped == ref
  }

  /** The reference `ref` was made for `native` and its entry at `i` is bound. */
  ghost predicate Mapped(s: State, i: nat, native: ObjRef, ref: ObjRef, outFacing: bool)
    requires Inv(s)
  {
    native.Ref? && ref == MakeRef(s.owner, native.typeId, outFacing, i) && Leads(s, i, native, ref)
  }

  /** In every state of every run each bound entry is the entry of the reference made for its
      index, and that reference resolves to the native it was made from. */
  lemma BoundResolves(s: State, i: nat) returns (native: ObjRef, ref: ObjRef, outFacing: bool)
    requires Inv(s) && i in T.Bound(s.table)
    ensures Mapped(s, i, native, ref, outFacing) && NativeFor(s, ref, outFacing) == Ok(Some(native))
  {
    var c := s.heap[s.table.slots[i].value];
    assert SlotOk(s.owner, s.table, s.heap, i);
    native, ref := c.orig, c.mapped;
    outFacing := ref == MakeRef(s.owner, native.typeId, true, i);
    MappedResolves(s, i, native, ref, outFacing);
  }

  /** The steps that take the entry at `i` away. */
  ghost predicate Removes(s: State, step: Step, i: nat) {
    match step
    case Unbind(j) => j == i
    case Rebind(j, _) => j == i
    case GcRecheck(expired) => expired && s.gc.Pinging? && s.gc.offset + s.gc.index == i && Under(s) == Some(s.gc.value)
    case _ => false
  }

  ghost predicate Issues(s: State, step: Step, i: nat) {
    step.Issue? && T.NextIndex(s.table).1 == i
  }

  ghost predicate NeverRemoves(s: State, steps: seq<Step>, i: nat)
    requires Inv(s) && Runs(s, steps)
    decreases |steps|
  {
    steps == [] ||
    (!Removes(s, steps[0], i) && (StepKeepsInv(s, steps[0]); NeverRemoves(Next(s, steps[0]), steps[1..], i)))
  }

  ghost predicate NeverIssues(s: State, steps: seq<Step>, i: nat)
    requires Inv(s) && Runs(s, steps)
    decreases |steps|
  {
    steps == [] ||
    (!Issues(s, steps[0], i) && (StepKeepsInv(s, steps[0]); NeverIssues(Next(s, steps[0]), steps[1..], i)))
  }

  lemma StepKeepsSlot(s: State, step: Step, i: nat)
    requires Inv(s) && Enabled(s, step) && i in T.Bound(s.table) && !Removes(s, step, i)
    ensures i in T.Bound(Next(s, step).table) && Next(s, step).table.slots[i] == s.table.slots[i]
  {
    if !OfCollector(step) {
      ActKeepsSlot(s, step, i);
    } else if s.gc.Pinging? {
      ReapFreesItsIndex(s);
    }
  }

  lemma ActKeepsSlot(s: State, step: Step, i: nat)
    requires Inv(s) && Enabled(s, step) && !OfCollector(step) && i in T.Bound(s.table) && !Removes(s, step, i)
    ensures i < |Act(s, step).table.slots| && Act(s, step).table.slots[i] == s.table.slots[i]
  {
    match step
    case Issue => T.NextIndexReserves(s.table, 0);
    case Unbind(j) => T.FindIs(s.table, j);
    case _ =>
  }

  lemma {:induction false} LeadsWhileBound(s: State, steps: seq<Step>, i: nat, native: ObjRef, ref: ObjRef)
    requires Inv(s) && Runs(s, steps) && Leads(s, i, native, ref) && NeverRemoves(s, steps, i)
    ensures Leads(Exec(s, steps), i, native, ref)
    decreases |steps|
  {
    if steps != [] {
      StepKeepsInv(s, steps[0]);
      StepKeepsSlot(s, steps[0], i);
      StepKeepsCell(s, steps[0], s.table.slots[i].value);
      LeadsWhileBound(Next(s, steps[0]), steps[1..], i, native, ref);
    }
  }

  /** A mapped reference resolves to the native it was made from over any run that does not
      remove its entry. */
  lemma {:induction false} ResolvesWhileBound(s: State, steps: seq<Step>, i: nat, native: ObjRef, ref: ObjRef,
                                              outFacing: bool)
    requires Inv(s) && Runs(s, steps) && Mapped(s, i, native, ref, outFacing) && NeverRemoves(s, steps, i)
    ensures Mapped(Exec(s, steps), i, native, ref, outFacing)
    ensures NativeFor(Exec(s, steps), ref, outFacing) == Ok(Some(native))
  {
    LeadsWhileBound(s, steps, i, native, ref);
    MappedResolves(Exec(s, steps), i, native, ref, outFacing);
  }

  lemma MappedResolves(s: State, i: nat, native: ObjRef, ref: ObjRef, outFacing: bool)
    requires Inv(s) && Mapped(s, i, native, ref, outFacing)
    ensures NativeFor(s, ref, outFacing) == Ok(Some(native))
  {
    NativeAtBound(s, i);
    MadeResolves(s, native.typeId, outFacing, i);
  }

  lemma NativeAtBound(s: State, i: nat)
    requires Inv(s) && i in T.Bound(s.table)
    ensures i < UINT32 && NativeAt(s, i) == Some(s.heap[s.table.slots[i].value].orig)
  {
    T.FindIs(s.table, i);
  }

  /** Once its entry is removed, a mapped reference resolves to nothing over any run that does
      not issue its index again. */
  lemma {:induction false} NilUntilReissued(s: State, steps: seq<Step>, i: nat, typeId: string, outFacing: bool)
    requires Inv(s) && Runs(s, steps) && i in s.table.free && NeverIssues(s, steps, i)
    ensures i in Exec(s, steps).table.free
    ensures NativeFor(Exec(s, steps), MakeRef(s.owner, typeId, outFacing, i), outFacing) == Ok(None)
    decreases |steps|
  {
    if steps == [] {
      FreeIsNil(s, i, typeId, outFacing);
    } else {
      StepKeepsInv(s, steps[0]);
      OwnerStays(s, steps[0]);
      StepKeepsFree(s, steps[0], i);
      NilUntilReissued(Next(s, steps[0]), steps[1..], i, typeId, outFacing);
    }
  }

  lemma StepKeepsFree(s: State, step: Step, i: nat)
    requires Inv(s) && Enabled(s, step) && i in s.table.free && !Issues(s, step, i)
    ensures i in Next(s, step).table.free
  {
    if step.Issue? {
      assert s.table.free == [s.table.free[0]] + s.table.free[1..];
    } else if !OfCollector(step) {
      ActPushes(s, step);
    }
  }

  lemma ActPushes(s: State, step: Step)
    requires Inv(s) && Enabled(s, step) && !OfCollector(step) && !step.Issue?
    ensures var free := Act(s, step).table.free;
      free == s.table.free || (step.Unbind? && free == [step.i] + s.table.free)
  {
  }

  /** Unbinding and reaping put the index where the previous lemma starts from. */
  lemma RemovalFrees(s: State, step: Step, i: nat)
    requires Inv(s) && Enabled(s, step) && i in T.Bound(s.table) && Removes(s, step, i) && !step.Rebind?
    ensures i in Next(s, step).table.free
  {
  }

  // ---- mapping a native ----

  /** A step put before a run. */
  lemma {:induction false} Cons(s: State, step: Step, s1: State, steps: seq<Step>)
    requires Inv(s) && Enabled(s, step) && Next(s, step) == s1 && Inv(s1) && Runs(s1, steps)
    ensures Runs(s, [step] + steps) && Exec(s, [step] + steps) == Exec(s1, steps)
  {
    assert ([step] + steps)[0] == step && ([step] + steps)[1..] == steps;
  }

  lemma BindStep(s: State, g: nat, v: Addr) returns (s1: State)
    requires Inv(s) && g in s.pending && Holds(s, v, g)
    ensures Enabled(s, Bind(g, v)) && Next(s, Bind(g, v)) == s1 && Inv(s1)
    ensures s1.table == T.Bind(s.table, g, v).0 && g in T.Bound(s1.table) && s1.table.slots[g] == Some(v)
    ensures s1.owner == s.owner && Keeps(s.heap, s1.heap)
  {
    s1 := Next(s, Bind(g, v));
    StepKeepsInv(s, Bind(g, v));
    BindKeeps(s, g, v);
  }

  lemma IssueStep(s: State) returns (s1: State)
    requires Inv(s) && T.Issuable(s.table)
    ensures Enabled(s, Issue) && Next(s, Issue) == s1 && Inv(s1) && s1.heap == s.heap && s1.owner == s.owner
    ensures T.NextIndex(s.table) == (s1.table, T.NextIndex(s.table).1) && T.NextIndex(s.table).1 in s1.pending
  {
    s1 := Next(s, Issue);
    StepKeepsInv(s, Issue);
  }

  lemma CreateStep(s: State, v: Addr, native: ObjRef, g: nat, outFacing: bool) returns (s1: State)
    requires Inv(s) && v !in s.heap && native.Ref? && g in s.pending
    ensures var step := Create(v, native, g, outFacing);
      Enabled(s, step) && Next(s, step) == s1 && Inv(s1) && s1.table == s.table && s1.pending == s.pending
    ensures Holds(s1, v, g) && s1.owner == s.owner && Keeps(s.heap, s1.heap)
    ensures s1.heap[v].orig == native && s1.heap[v].mapped == MakeRef(s.owner, native.typeId, outFacing, g)
  {
    s1 := Next(s, Create(v, native, g, outFacing));
    StepKeepsInv(s, Create(v, native, g, outFacing));
  }

  lemma ReleaseStep(s: State, v: Addr) returns (s1: State)
    requires Inv(s) && v in s.handles && s.heap[v].count == 1
    ensures Enabled(s, Release(v)) && Next(s, Release(v)) == s1 && Inv(s1) && v !in s1.heap && s1.table == s.table
  {
    s1 := Next(s, Release(v));
    StepKeepsInv(s, Release(v));
  }

  lemma UnbindStep(s: State, g: nat, v: Addr) returns (s1: State)
    requires Inv(s) && T.Find(s.table, g) == Some(v)
    ensures Enabled(s, Unbind(g)) && Next(s, Unbind(g)) == s1 && Inv(s1) && v in s1.handles
    ensures s1.heap == s.heap && s1.table == T.Clear(s.table, g, g)
  {
    s1 := Next(s, Unbind(g));
    StepKeepsInv(s, Unbind(g));
  }

  /** `add_native_unchecked` for a native, its value allocated at `v`. */
  function AddNative(s: State, v: Addr, native: ObjRef, outFacing: bool): seq<Step> {
    var i := T.NextIndex(s.table).1;
    [Issue] + ([Create(v, native, i, outFacing)] + ([Bind(i, v)] + []))
  }

  /** From every state with room for an index it runs, its entry is bound and its reference
      resolves; the table is the one that issue and bind give, and other values stay. */
  lemma AddNativeMaps(s: State, v: Addr, native: ObjRef, outFacing: bool) returns (s': State)
    requires Inv(s) && T.Issuable(s.table) && v !in s.heap && native.Ref?
    ensures Runs(s, AddNative(s, v, native, outFacing)) && Exec(s, AddNative(s, v, native, outFacing)) == s'
    ensures Inv(s') && s'.owner == s.owner && Keeps(s.heap, s'.heap)
    ensures var (t, i) := T.NextIndex(s.table);
      && s'.table == T.Bind(t, i, v).0 && i in T.Bound(s'.table) && s'.table.slots[i] == Some(v)
      && Mapped(s', i, native, MakeRef(s.owner, native.typeId, outFacing, i), outFacing)
  {
    var i := T.NextIndex(s.table).1;
    var s1 := IssueStep(s);
    var s2 := CreateStep(s1, v, native, i, outFacing);
    s' := BindStep(s2, i, v);
    Cons3(s, Issue, s1, Create(v, native, i, outFacing), s2, Bind(i, v), s');
  }

  /** All values stay, whatever their counts. */
  ghost predicate Keeps(heap: map<Addr, Cell>, heap': map<Addr, Cell>) {
    forall a :: a in heap ==> a in heap' && Same(heap'[a], heap[a])
  }

  lemma {:induction false} Cons3(s: State, a: Step, s1: State, b: Step, s2: State, c: Step, s3: State)
    requires Inv(s) && Enabled(s, a) && Next(s, a) == s1 && Inv(s1) && Enabled(s1, b) && Next(s1, b) == s2
    requires Inv(s2) && Enabled(s2, c) && Next(s2, c) == s3 && Inv(s3)
    ensures Runs(s, [a] + ([b] + ([c] + []))) && Exec(s, [a] + ([b] + ([c] + []))) == s3
  {
    Cons(s2, c, s3, []);
    Cons(s1, b, s2, [c] + []);
    Cons(s, a, s1, [b] + ([c] + []));
  }

  /** A value made for an index can still be bound there after any run in which its thread
      keeps it and the index: what other threads and the collector do does not matter. */
  lemma {:induction false} BindableLater(s: State, steps: seq<Step>, a: Addr, i: nat)
    requires Inv(s) && Runs(s, steps) && Holds(s, a, i)
    requires forall k :: 0 <= k < |steps| ==> !Allocates(steps[k], a)
    requires a in Exec(s, steps).handles && i in Exec(s, steps).pending
    ensures Enabled(Exec(s, steps), Bind(i, a))
  {
    SameCell(s, steps, a);
  }

  /** The entries as the sequential model of the mapper sees them. */
  ghost function Entries(s: State): T.Table<M.Entry>
    requires Inv(s)
  {
    T.Table(s.table.pageSize, s.table.high, s.table.free,
            seq(|s.table.slots|, i requires 0 <= i < |s.table.slots| => EntryAt(s, i)))
  }

  ghost function EntryAt(s: State, i: nat): Option<M.Entry>
    requires Inv(s) && i < |s.table.slots|
  {
    if s.table.slots[i].None? then None else
    var c := s.heap[s.table.slots[i].value]; Some(M.Entry(c.orig, c.mapped))
  }

  /** In any state of any run the mapper is one that the sequential model starts from, and
      `add_native_unchecked`, run without interruption, does what that model says. */
  lemma AddNativeRefines(s: State, v: Addr, native: ObjRef, outFacing: bool, handler: M.Handler) returns (s': State)
    requires Inv(s) && T.Issuable(s.table) && v !in s.heap && native.Ref?
    ensures Runs(s, AddNative(s, v, native, outFacing)) && Exec(s, AddNative(s, v, native, outFacing)) == s'
    ensures Inv(s') && var m := M.Mapper(handler, s.owner.keys, Entries(s));
      M.MapperOk(s.owner.self, m) && M.AddUnchecked(s.owner.self, m, native, outFacing).0.table == Entries(s')
  {
    s' := AddNativeMaps(s, v, native, outFacing);
    EntriesSound(s, handler);
    var i := T.NextIndex(s.table).1;
    EntriesAfterBind(s, s', v, M.Entry(native, MakeRef(s.owner, native.typeId, outFacing, i)));
  }

  /** Issue and bind on addresses are issue and bind on the entries behind them. */
  lemma EntriesAfterBind(s: State, s': State, v: Addr, e: M.Entry)
    requires Inv(s) && Inv(s') && T.Issuable(s.table) && v in s'.heap
    requires s'.table == T.Bind(T.NextIndex(s.table).0, T.NextIndex(s.table).1, v).0
    requires Keeps(s.heap, s'.heap)
    requires e == M.Entry(s'.heap[v].orig, s'.heap[v].mapped)
    ensures T.NextIndex(Entries(s)).1 == T.NextIndex(s.table).1
    ensures Entries(s') == T.Bind(T.NextIndex(Entries(s)).0, T.NextIndex(s.table).1, e).0
  {
    T.NextIndexReserves(s.table, v);
    var (t, i) := T.NextIndex(s.table);
    var u := T.NextIndex(Entries(s)).0;
    T.SameCourse(s.table, Entries(s), v, e);
    forall k | 0 <= k < |t.slots| ensures EntryAt(s', k) == T.Put(u, i, Some(e)).slots[k] {
      if k != i && k < |s.table.slots| { EntryStays(s, s', k); }
    }
    assert Entries(s').slots == T.Put(u, i, Some(e)).slots;
  }

  lemma EntryStays(s: State, s': State, k: nat)
    requires Inv(s) && Inv(s') && Keeps(s.heap, s'.heap)
    requires k < |s.table.slots| && k < |s'.table.slots| && s'.table.slots[k] == s.table.slots[k]
    ensures EntryAt(s', k) == EntryAt(s, k)
  {
  }

  lemma EntriesSound(s: State, handler: M.Handler)
    requires Inv(s)
    ensures M.MapperOk(s.owner.self, M.Mapper(handler, s.owner.keys, Entries(s)))
  {
    var m := M.Mapper(handler, s.owner.keys, Entries(s));
    forall i | i in T.Bound(m.table) ensures M.Sound(s.owner.self, m, i) {
      assert SlotOk(s.owner, s.table, s.heap, i);
    }
  }

  /** Ids carry no generation. From every state with a freed index on top of the stack, one
      more native is enough for all references ever made for that index, whatever they stood
      for, to resolve to it. */
  lemma StaleResolvesToAnother(s: State, v: Addr, native: ObjRef, outFacing: bool, typeId: string, side: bool)
    returns (s': State)
    requires Inv(s) && s.table.free != [] && v !in s.heap && native.Ref?
    ensures Runs(s, AddNative(s, v, native, outFacing)) && Exec(s, AddNative(s, v, native, outFacing)) == s'
    ensures Inv(s') && var stale := MakeRef(s.owner, typeId, side, s.table.free[0]);
      NativeFor(s, stale, side) == Ok(None) && NativeFor(s', stale, side) == Ok(Some(native))
  {
    var g := s.table.free[0];
    FreeIsNil(s, g, typeId, side);
    s' := AddNativeMaps(s, v, native, outFacing);
    NativeAtBound(s', g);
    MadeResolves(s', typeId, side, g);
  }

  lemma FreeIsNil(s: State, i: nat, typeId: string, outFacing: bool)
    requires Inv(s) && i in s.table.free
    ensures NativeFor(s, MakeRef(s.owner, typeId, outFacing, i), outFacing) == Ok(None)
  {
    T.Partition(s.table, i);
    T.FindIs(s.table, i);
    MadeResolves(s, typeId, outFacing, i);
  }

  // ---- address reuse ----

  /** Unbind, delete, create at the same address, bind at the same index. */
  function Reuse(g: nat, v: Addr, native: ObjRef, outFacing: bool): seq<Step> {
    [Unbind(g)] + ([Release(v)] + ([Issue] + ([Create(v, native, g, outFacing)] + ([Bind(g, v)] + []))))
  }

  lemma ReuseOfThreads(g: nat, v: Addr, native: ObjRef, outFacing: bool)
    ensures var window := Reuse(g, v, native, outFacing);
      (forall k :: 0 <= k < |window| ==> !OfCollector(window[k])) && Allocates(window[3], v)
  {
    var window := Reuse(g, v, native, outFacing);
    assert window == [Unbind(g), Release(v), Issue, Create(v, native, g, outFacing), Bind(g, v)];
  }

  /** After that the table is the one it was before. */
  lemma AfterReuse(s: State, g: nat, v: Addr, native: ObjRef, outFacing: bool) returns (s': State)
    requires Inv(s) && T.Find(s.table, g) == Some(v) && s.heap[v].count == 1 && native.Ref?
    ensures Runs(s, Reuse(g, v, native, outFacing)) && Exec(s, Reuse(g, v, native, outFacing)) == s'
    ensures s'.table == s.table
  {
    var s1 := UnbindStep(s, g, v);
    var s2 := ReleaseStep(s1, v);
    s' := AddNativeMaps(s2, v, native, outFacing);
    var rest := AddNative(s2, v, native, outFacing);
    assert rest == [Issue] + ([Create(v, native, g, outFacing)] + ([Bind(g, v)] + []));
    Cons(s1, Release(v), s2, rest);
    Cons(s, Unbind(g), s1, [Release(v)] + rest);
    ClearThenBind(s.table, g, v);
  }

  lemma ClearThenBind(t: T.Table<Addr>, g: nat, v: Addr)
    requires T.WellFormed(t) && g < |t.slots| && t.slots[g] == Some(v)
    ensures var t' := T.Clear(t, g, g); T.NextIndex(t').1 == g && T.Bind(T.NextIndex(t').0, g, v).0 == t
  {
  }

  /** From every state in which the table is the pinged value's only owner, an allocator
      that hands a freed address out again makes the collector reap a value it never
      pinged. */
  lemma AddressReuseReapsAnother(s: State, native: ObjRef, outFacing: bool) returns (window: seq<Step>)
    requires Inv(s) && s.gc.Pinging? && Under(s) == Some(s.gc.value) && s.heap[s.gc.value].count == 1
    requires s.heap[s.gc.value].serial == s.gc.serial && native.Ref?
    ensures Runs(s, window) && forall k :: 0 <= k < |window| ==> !OfCollector(window[k])
    ensures var s1 := Exec(s, window); var v := s.gc.value;
      s1.gc == s.gc && Under(s1) == Some(v) && v in s1.heap && s1.heap[v].serial != s.gc.serial
  {
    ReapFreesItsIndex(s);
    var g, v := s.gc.offset + s.gc.index, s.gc.value;
    var s' := AfterReuse(s, g, v, native, outFacing);
    window := Reuse(g, v, native, outFacing);
    ReuseOfThreads(g, v, native, outFacing);
    ReapsThePinged(s, window);
  }
}
