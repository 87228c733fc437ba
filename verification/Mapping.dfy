/** The chain of mappers: which one takes a reference, what it maps it to, and how a mapped
    reference finds its way back. Reference caching is on, so every mapper has a table. */
module Mapping {
  import opened Prelude
  import T = ReferenceTable
  import Id = ObjectId

  /** A ReferenceMapValue, without its count. */
  datatype Entry = Entry(orig: ObjRef, mapped: ObjRef)

  function Reverse(e: Entry): Entry { Entry(e.mapped, e.orig) }

  /** How a mapper decides whether it has an evaluator for a type: a list of evaluators, the
      types of the interface repository, or the null mapper's list, where none means all. */
  datatype Handler = Evaluators(ids: seq<string>) | Generic(known: set<string>) | NullMapper(ids: seq<string>)

  predicate Handles(h: Handler, typeId: string) {
    match h
    case Evaluators(ids) => typeId in ids
    case Generic(known) => typeId in known
    case NullMapper(ids) => ids == [] || typeId in ids
  }

  /** Which types the three kinds of mappers take, on their own lists. */
  lemma HandlesIff(typeId: string, ids: seq<string>, known: set<string>)
    ensures Handles(Evaluators(ids), typeId) <==> exists n :: 0 <= n < |ids| && ids[n] == typeId
    ensures Handles(Generic(known), typeId) <==> typeId in known
    ensures !Handles(NullMapper(ids), typeId) <==> ids != [] && forall n :: 0 <= n < |ids| ==> ids[n] != typeId
  {
  }

  /** The key prefixes of a mapper's two POAs. */
  datatype Keys = Keys(inward: seq<byte>, outward: seq<byte>)

  function PoaKey(keys: Keys, outFacing: bool): seq<byte> {
    if outFacing then keys.outward else keys.inward
  }

  datatype Mapper = Mapper(handler: Handler, keys: Keys, table: T.Table<Entry>)

  /** What every mapper of the process shares: the identity in its ids and the address that
      its references carry. */
  datatype Self = Self(me: Id.Identity, host: string)

  /** `create_reference_with_id` on one of the mapper's POAs. */
  function MakeRef(self: Self, keys: Keys, typeId: string, outFacing: bool, index: nat): ObjRef {
    Ref(self.host, typeId, PoaKey(keys, outFacing) + Id.MakeId(self.me, outFacing, index))
  }

  function AddUnchecked(self: Self, m: Mapper, native: ObjRef, outFacing: bool): (Mapper, Entry)
    requires native.Ref?
  {
    var (t, index) := T.NextIndex(m.table);
    var e := Entry(native, MakeRef(self, m.keys, native.typeId, outFacing, index));
    (m.(table := T.Bind(t, index, e).0), e)
  }

  /** What the mapper that has an evaluator does. A key of the other side whose entry is gone
      dereferences an empty handle. */
  function AddHere(self: Self, m: Mapper, native: ObjRef, outFacing: bool): Outcome<(Mapper, Option<Entry>)>
    requires native.Ref?
  {
    match Id.Classify(self.me, native.key, outFacing)
    case AlreadyMapped(index) => Ok((m, T.Find(m.table, index)))
    case ReverseMapped(index) =>
      var e := T.Find(m.table, index);
      if e.None? then Fault else Ok((m, Some(Reverse(e.value))))
    case NotMapped =>
      var (m', e) := AddUnchecked(self, m, native, outFacing);
      Ok((m', Some(e)))
  }

  /** Down the chain to the first mapper with an evaluator for the type, which acts. */
  function Walk(chain: seq<Mapper>, typeId: string, act: Mapper -> Outcome<(Mapper, Option<Entry>)>)
    : Outcome<(seq<Mapper>, Option<Entry>)>
  {
    if chain == [] then Ok((chain, None))
    else if Handles(chain[0].handler, typeId) then
      var (m, e) :- act(chain[0]);
      Ok(([m] + chain[1..], e))
    else
      var (rest, e) :- Walk(chain[1..], typeId, act);
      Ok(([chain[0]] + rest, e))
  }

  function Adding(self: Self, native: ObjRef, outFacing: bool): Mapper -> Outcome<(Mapper, Option<Entry>)>
    requires native.Ref?
  {
    m => AddHere(self, m, native, outFacing)
  }

  function AddNative(self: Self, chain: seq<Mapper>, native: ObjRef, outFacing: bool)
    : Outcome<(seq<Mapper>, Option<Entry>)>
    requires native.Ref?
  {
    Walk(chain, native.typeId, Adding(self, native, outFacing))
  }

  /** `reference_to_id`: what follows the key of the POA; it fails on a reference of another
      POA. */
  function ReferenceToId(keys: Keys, ref: ObjRef, outFacing: bool): Option<seq<byte>> {
    var prefix := PoaKey(keys, outFacing);
    if ref.Nil? || !(prefix <= ref.key) then None else Some(ref.key[|prefix|..])
  }

  /** The bytes of an id, read as the struct, give its index; a shorter id is read past its
      end. */
  function IndexIn(self: Self, id: seq<byte>): Outcome<nat> {
    if |id| < Id.ID_LENGTH then Fault else Ok(Id.Load(self.me, id[8..12]))
  }

  /** The id of a reference of another POA is not there to be read. */
  function RemoveHere(self: Self, m: Mapper, mapped: ObjRef, outFacing: bool): Outcome<(Mapper, Option<Entry>)>
    requires mapped.Ref?
  {
    var id := ReferenceToId(m.keys, mapped, outFacing);
    if id.None? then Fault else
    var index :- IndexIn(self, id.value);
    var (t, e) := T.Unbind(m.table, index);
    Ok((m.(table := t), e))
  }

  /** The id of a reference made for an index holds that index. */
  lemma IndexInMade(self: Self, keys: Keys, typeId: string, outFacing: bool, index: nat)
    requires Id.Valid(self.me) && index < UINT32
    ensures var id := ReferenceToId(keys, MakeRef(self, keys, typeId, outFacing, index), outFacing);
      id == Some(Id.MakeId(self.me, outFacing, index)) && IndexIn(self, id.value) == Ok(index)
  {
    var id := Id.MakeId(self.me, outFacing, index);
    assert (PoaKey(keys, outFacing) + id)[|PoaKey(keys, outFacing)|..] == id;
    Id.IndexOf(self.me, outFacing, index);
  }

  function Removing(self: Self, mapped: ObjRef, outFacing: bool): Mapper -> Outcome<(Mapper, Option<Entry>)>
    requires mapped.Ref?
  {
    m => RemoveHere(self, m, mapped, outFacing)
  }

  function RemoveMapped(self: Self, chain: seq<Mapper>, mapped: ObjRef, outFacing: bool)
    : Outcome<(seq<Mapper>, Option<Entry>)>
    requires mapped.Ref?
  {
    Walk(chain, mapped.typeId, Removing(self, mapped, outFacing))
  }

  /** The proxy and the result of `mapped_for_native`: the reference to use from now on, and
      whether a mapping was found or made for it. */
  datatype Mapped = Mapped(chain: seq<Mapper>, ref: ObjRef, changed: bool)

  function MapRef(self: Self, chain: seq<Mapper>, ref: ObjRef, outFacing: bool): Outcome<Mapped> {
    if ref.Nil? then Ok(Mapped(chain, ref, false)) else Settle(ref, AddNative(self, chain, ref, outFacing))
  }

  /** The mapped reference of an entry takes the place of `ref`; without one it stays. */
  function Settle(ref: ObjRef, r: Outcome<(seq<Mapper>, Option<Entry>)>): Outcome<Mapped> {
    var (chain, e) :- r;
    if e.None? || e.value.mapped.Nil? then Ok(Mapped(chain, ref, false))
    else Ok(Mapped(chain, e.value.mapped, true))
  }

  datatype MappedAll = MappedAll(chain: seq<Mapper>, refs: seq<ObjRef>, changed: bool)

  /** One reference after the other. */
  function MapAll(self: Self, chain: seq<Mapper>, refs: seq<ObjRef>, outFacing: bool): Outcome<MappedAll>
    decreases |refs|
  {
    if refs == [] then Ok(MappedAll(chain, [], false)) else
    var first :- MapRef(self, chain, refs[0], outFacing);
    var rest :- MapAll(self, first.chain, refs[1..], outFacing);
    Ok(MappedAll(rest.chain, [first.ref] + rest.refs, first.changed || rest.changed))
  }

  // ---- which mapper ----

  /** The first mapper with an evaluator for the type; the length of the chain if none has. */
  function Pick(chain: seq<Mapper>, typeId: string): (k: nat)
    ensures k <= |chain|
    ensures forall j :: 0 <= j < k ==> !Handles(chain[j].handler, typeId)
    ensures k < |chain| ==> Handles(chain[k].handler, typeId)
  {
    if chain == [] || Handles(chain[0].handler, typeId) then 0 else 1 + Pick(chain[1..], typeId)
  }

  /** The chain after one of its mappers has acted. */
  function Acted(chain: seq<Mapper>, k: nat, r: Outcome<(Mapper, Option<Entry>)>): Outcome<(seq<Mapper>, Option<Entry>)>
    requires k < |chain|
  {
    if r.Fault? then Fault else Ok((chain[k := r.value.0], r.value.1))
  }

  lemma {:induction false} WalkActsAtPicked(chain: seq<Mapper>, typeId: string,
                                            act: Mapper -> Outcome<(Mapper, Option<Entry>)>)
    ensures var k := Pick(chain, typeId);
      Walk(chain, typeId, act) == if k == |chain| then Ok((chain, None)) else Acted(chain, k, act(chain[k]))
    decreases |chain|
  {
    var k := Pick(chain, typeId);
    if 0 < k {
      WalkActsAtPicked(chain[1..], typeId, act);
      assert chain == [chain[0]] + chain[1..];
    }
    if k < |chain| && act(chain[k]).Ok? {
      var m := act(chain[k]).value.0;
      if k == 0 {
        assert chain[k := m] == [m] + chain[1..];
      } else {
        assert chain[k := m] == [chain[0]] + chain[1..][k - 1 := m];
      }
    }
  }

  /** A picked mapper that finds an entry and does not change leaves the chain as it is. */
  lemma {:induction false} WalkFinds(chain: seq<Mapper>, typeId: string, act: Mapper -> Outcome<(Mapper,
                                     Option<Entry>)>, e: Entry)
    requires var k := Pick(chain, typeId); k < |chain| && act(chain[k]) == Ok((chain[k], Some(e)))
    ensures Walk(chain, typeId, act) == Ok((chain, Some(e)))
  {
    WalkActsAtPicked(chain, typeId, act);
    var k := Pick(chain, typeId);
    assert chain[k := chain[k]] == chain;
  }

  lemma {:induction false} WalkFaultsIff(chain: seq<Mapper>, typeId: string, act: Mapper -> Outcome<(Mapper,
                                         Option<Entry>)>)
    ensures var k := Pick(chain, typeId); Walk(chain, typeId, act).Fault? <==> k < |chain| && act(chain[k]).Fault?
  {
    WalkActsAtPicked(chain, typeId, act);
  }

  /** Adding acts on the picked mapper and leaves the others alone; removing does the same,
      on the same mapper as long as the types it handles stay. */
  lemma {:induction false} AddsAtPicked(self: Self, chain: seq<Mapper>, ref: ObjRef, outFacing: bool)
    requires ref.Ref?
    ensures var k := Pick(chain, ref.typeId);
      AddNative(self, chain, ref, outFacing)
      == if k == |chain| then Ok((chain, None)) else Acted(chain, k, AddHere(self, chain[k], ref, outFacing))
  {
    WalkActsAtPicked(chain, ref.typeId, Adding(self, ref, outFacing));
  }

  lemma {:induction false} RemovesAtPicked(self: Self, chain: seq<Mapper>, ref: ObjRef, outFacing: bool)
    requires ref.Ref?
    ensures var k := Pick(chain, ref.typeId);
      RemoveMapped(self, chain, ref, outFacing)
      == if k == |chain| then Ok((chain, None)) else Acted(chain, k, RemoveHere(self, chain[k], ref, outFacing))
  {
    WalkActsAtPicked(chain, ref.typeId, Removing(self, ref, outFacing));
  }

  lemma {:induction false} PickSame(chain: seq<Mapper>, chain': seq<Mapper>, typeId: string)
    requires |chain| == |chain'| && forall k :: 0 <= k < |chain| ==> chain'[k].handler == chain[k].handler
    ensures Pick(chain', typeId) == Pick(chain, typeId)
  {
    if chain != [] { PickSame(chain[1..], chain'[1..], typeId); }
  }

  // ---- invariant, capacity, growth ----

  /** `mapped` was made for index `i` and stands for `orig`. */
  ghost predicate MadeFor(self: Self, keys: Keys, orig: ObjRef, mapped: ObjRef, i: nat) {
    && orig.Ref?
    && (|| mapped == MakeRef(self, keys, orig.typeId, true, i)
        || mapped == MakeRef(self, keys, orig.typeId, false, i))
  }

  /** The entry at a bound index leads from the reference made for that index. */
  ghost predicate Sound(self: Self, m: Mapper, i: nat)
    requires i in T.Bound(m.table)
  {
    var e := m.table.slots[i].value;
    MadeFor(self, m.keys, e.orig, e.mapped, i)
  }

  ghost predicate MapperOk(self: Self, m: Mapper) {
    T.WellFormed(m.table) && forall i :: i in T.Bound(m.table) ==> Sound(self, m, i)
  }

  ghost predicate ChainOk(self: Self, chain: seq<Mapper>) {
    Id.Valid(self.me) && forall k :: 0 <= k < |chain| ==> MapperOk(self, chain[k])
  }

  /** Every table can issue `n` more indices within 32 bits. */
  ghost predicate Room(chain: seq<Mapper>, n: nat) {
    forall k :: 0 <= k < |chain| ==> chain[k].table.high + n + chain[k].table.pageSize <= UINT32
  }

  ghost predicate Grown(m: Mapper, m': Mapper) {
    && m'.handler == m.handler && m'.keys == m.keys
    && forall i :: i in T.Bound(m.table) ==> i in T.Bound(m'.table) && m'.table.slots[i] == m.table.slots[i]
  }

  /** Entries may have been added; none was taken away or replaced. */
  ghost predicate Extends(chain: seq<Mapper>, chain': seq<Mapper>) {
    |chain| == |chain'| && forall k :: 0 <= k < |chain| ==> Grown(chain[k], chain'[k])
  }

  lemma AddUncheckedBinds(self: Self, m: Mapper, native: ObjRef, outFacing: bool)
    requires native.Ref? && MapperOk(self, m) && T.Issuable(m.table)
    ensures var (m', e) := AddUnchecked(self, m, native, outFacing); var index := T.NextIndex(m.table).1;
      && MapperOk(self, m') && Grown(m, m')
      && index !in T.Bound(m.table) && T.Bound(m'.table) == T.Bound(m.table) + {index} && index < UINT32
      && T.Find(m'.table, index) == Some(e)
      && e == Entry(native, MakeRef(self, m.keys, native.typeId, outFacing, index))
      && m'.table.high <= m.table.high + 1 && m'.table.pageSize == m.table.pageSize
      && m'.table.free == T.NextIndex(m.table).0.free
  {
    var (m', e) := AddUnchecked(self, m, native, outFacing);
    T.IssueAndBind(m.table, e);
    SoundAfter(self, m, m', T.NextIndex(m.table).1);
  }

  lemma SoundAfter(self: Self, m: Mapper, m': Mapper, index: nat)
    requires MapperOk(self, m) && Grown(m, m') && T.WellFormed(m'.table)
    requires T.Bound(m'.table) == T.Bound(m.table) + {index} && Sound(self, m', index)
    ensures MapperOk(self, m')
  {
    forall i | i in T.Bound(m'.table) ensures Sound(self, m', i) {
      if i in T.Bound(m.table) { assert Sound(self, m, i); }
    }
  }

  lemma AddHereKeeps(self: Self, m: Mapper, native: ObjRef, outFacing: bool)
    requires native.Ref? && MapperOk(self, m) && T.Issuable(m.table)
    requires AddHere(self, m, native, outFacing).Ok?
    ensures var m' := AddHere(self, m, native, outFacing).value.0;
      && MapperOk(self, m') && Grown(m, m')
      && m'.table.high <= m.table.high + 1 && m'.table.pageSize == m.table.pageSize
      && T.Bound(m'.table) == T.Bound(m.table) + NewIndex(self, m, native, outFacing)
  {
    if Id.Classify(self.me, native.key, outFacing).NotMapped? {
      AddUncheckedBinds(self, m, native, outFacing);
    } else {
      assert AddHere(self, m, native, outFacing).value.0 == m;
    }
  }

  /** The index that a reference gets: none unless its key is native. */
  ghost function NewIndex(self: Self, m: Mapper, native: ObjRef, outFacing: bool): set<nat>
    requires native.Ref?
  {
    if Id.Classify(self.me, native.key, outFacing).NotMapped? then {T.NextIndex(m.table).1} else {}
  }

  /** Mapping a reference adds one entry to the picked table if its key is native and none if
      it is not, leaves the other tables alone, and takes no entry away. */
  lemma {:induction false} AddNativeKeeps(self: Self, chain: seq<Mapper>, native: ObjRef, outFacing: bool, n: nat)
    requires native.Ref? && ChainOk(self, chain) && Room(chain, n + 1)
    requires AddNative(self, chain, native, outFacing).Ok?
    ensures var chain' := AddNative(self, chain, native, outFacing).value.0; var k := Pick(chain, native.typeId);
      && ChainOk(self, chain') && Room(chain', n) && Extends(chain, chain')
      && (forall j :: 0 <= j < |chain| && j != k ==> chain'[j] == chain[j])
      && (k < |chain| ==>
            T.Bound(chain'[k].table) == T.Bound(chain[k].table) + NewIndex(self, chain[k], native, outFacing))
  {
    AddsAtPicked(self, chain, native, outFacing);
    var k := Pick(chain, native.typeId);
    if k < |chain| {
      AddHereKeeps(self, chain[k], native, outFacing);
      PutKeeps(self, chain, k, AddHere(self, chain[k], native, outFacing).value.0, n);
    }
  }

  /** A mapper that has grown by at most one index, put in its place. */
  lemma PutKeeps(self: Self, chain: seq<Mapper>, k: nat, m: Mapper, n: nat)
    requires ChainOk(self, chain) && Room(chain, n + 1) && k < |chain|
    requires MapperOk(self, m) && Grown(chain[k], m)
    requires m.table.high <= chain[k].table.high + 1 && m.table.pageSize == chain[k].table.pageSize
    ensures ChainOk(self, chain[k := m]) && Room(chain[k := m], n) && Extends(chain, chain[k := m])
  {
  }

  lemma MapRefKeeps(self: Self, chain: seq<Mapper>, ref: ObjRef, outFacing: bool, n: nat)
    requires ChainOk(self, chain) && Room(chain, n + 1) && MapRef(self, chain, ref, outFacing).Ok?
    ensures var chain' := MapRef(self, chain, ref, outFacing).value.chain;
      ChainOk(self, chain') && Room(chain', n) && Extends(chain, chain')
  {
    if ref.Ref? { AddNativeKeeps(self, chain, ref, outFacing, n); }
  }

  lemma ExtendsItself(chain: seq<Mapper>)
    ensures Extends(chain, chain)
  {
  }

  lemma ExtendsTransitive(a: seq<Mapper>, b: seq<Mapper>, c: seq<Mapper>)
    requires Extends(a, b) && Extends(b, c)
    ensures Extends(a, c)
  {
    forall k | 0 <= k < |a| ensures Grown(a[k], c[k]) { assert Grown(a[k], b[k]) && Grown(b[k], c[k]); }
  }

  lemma {:induction false} MapAllKeeps(self: Self, chain: seq<Mapper>, refs: seq<ObjRef>, outFacing: bool)
    requires ChainOk(self, chain) && Room(chain, |refs|) && MapAll(self, chain, refs, outFacing).Ok?
    ensures var chain' := MapAll(self, chain, refs, outFacing).value.chain;
      ChainOk(self, chain') && Extends(chain, chain')
    decreases |refs|
  {
    if refs != [] {
      var first := MapRef(self, chain, refs[0], outFacing).value;
      MapRefKeeps(self, chain, refs[0], outFacing, |refs| - 1);
      MapAllKeeps(self, first.chain, refs[1..], outFacing);
      ExtendsTransitive(chain, first.chain, MapAll(self, chain, refs, outFacing).value.chain);
    }
  }

  // ---- there and back ----

  /** A reference whose key no mapper takes for its own. */
  ghost predicate Native(self: Self, ref: ObjRef) {
    ref.Nil? || forall outFacing :: Id.Classify(self.me, ref.key, outFacing).NotMapped?
  }

  /** A reference made for a bound index is found under either side: as itself under its own
      and, reversed, under the other. */
  lemma MadeIsFound(self: Self, m: Mapper, e: Entry, outFacing: bool, index: nat, wanted: bool)
    requires Id.Valid(self.me) && Holds(self, m, e, outFacing, index)
    ensures AddHere(self, m, e.mapped, wanted) == Ok((m, Some(if wanted == outFacing then e else Reverse(e))))
  {
    Id.ClassifyMade(self.me, PoaKey(m.keys, outFacing), 1, Id.Side(outFacing), index, wanted);
  }

  /** The entry `e` sits at `index`, under the reference made for that index. */
  ghost predicate Holds(self: Self, m: Mapper, e: Entry, outFacing: bool, index: nat) {
    && index < UINT32 && T.Find(m.table, index) == Some(e)
    && e.orig.Ref? && e.mapped == MakeRef(self, m.keys, e.orig.typeId, outFacing, index)
  }

  lemma HoldsKept(self: Self, m: Mapper, m': Mapper, e: Entry, outFacing: bool, index: nat)
    requires Holds(self, m, e, outFacing, index) && Grown(m, m') && T.WellFormed(m'.table)
    ensures Holds(self, m', e, outFacing, index)
  {
    FindKept(m, m', e, index);
  }

  lemma FindKept(m: Mapper, m': Mapper, e: Entry, index: nat)
    requires T.Find(m.table, index) == Some(e) && Grown(m, m') && T.WellFormed(m'.table)
    ensures T.Find(m'.table, index) == Some(e)
  {
    assert index in T.Bound(m.table);
  }

  /** A native reference gets an entry of its own at a fresh index of the picked mapper, and
      a reference on that mapper's POA of the wanted side. */
  lemma NativeGetsEntry(self: Self, chain: seq<Mapper>, native: ObjRef, outFacing: bool) returns (index: nat)
    requires ChainOk(self, chain) && Room(chain, 1) && native.Ref? && Native(self, native)
    requires Pick(chain, native.typeId) < |chain|
    ensures MapRef(self, chain, native, outFacing).Ok?
    ensures var k := Pick(chain, native.typeId); var r := MapRef(self, chain, native, outFacing).value;
      && r.changed && |r.chain| == |chain| && r.chain == chain[k := r.chain[k]]
      && Pick(r.chain, native.typeId) == k
      && index == T.NextIndex(chain[k].table).1 && index !in T.Bound(chain[k].table)
      && Holds(self, r.chain[k], Entry(native, r.ref), outFacing, index)
      && r.ref == Ref(self.host, native.typeId, (if outFacing then chain[k].keys.outward else chain[k].keys.inward)
                                                + Id.MakeId(self.me, outFacing, index))
      && (r.chain[k], Entry(native, r.ref)) == AddUnchecked(self, chain[k], native, outFacing)
  {
    AddsAtPicked(self, chain, native, outFacing);
    var k := Pick(chain, native.typeId);
    AddUncheckedBinds(self, chain[k], native, outFacing);
    index := T.NextIndex(chain[k].table).1;
    PickSame(chain, chain[k := AddUnchecked(self, chain[k], native, outFacing).0], native.typeId);
  }

  lemma {:induction false} Unhandled(self: Self, chain: seq<Mapper>, ref: ObjRef, outFacing: bool)
    requires ref.Nil? || Pick(chain, ref.typeId) == |chain|
    ensures MapRef(self, chain, ref, outFacing) == Ok(Mapped(chain, ref, false))
  {
    if ref.Ref? { AddsAtPicked(self, chain, ref, outFacing); }
  }

  lemma {:induction false} FoundMaps(self: Self, chain: seq<Mapper>, k: nat, ref: ObjRef, outFacing: bool, e: Entry)
    requires ref.Ref? && k == Pick(chain, ref.typeId) < |chain| && e.mapped.Ref?
    requires AddHere(self, chain[k], ref, outFacing) == Ok((chain[k], Some(e)))
    ensures MapRef(self, chain, ref, outFacing) == Ok(Mapped(chain, e.mapped, true))
  {
    WalkFinds(chain, ref.typeId, Adding(self, ref, outFacing), e);
    SettleFound(ref, AddNative(self, chain, ref, outFacing), chain, e);
  }

  lemma SettleFound(ref: ObjRef, r: Outcome<(seq<Mapper>, Option<Entry>)>, chain: seq<Mapper>, e: Entry)
    requires r == Ok((chain, Some(e))) && e.mapped.Ref?
    ensures Settle(ref, r) == Ok(Mapped(chain, e.mapped, true))
  {
  }

  /** Mapping a reference fails exactly when the picked mapper takes its key for one of the
      other side and has no entry at its index: the entry was removed or reaped. */
  lemma {:induction false} MapRefFaultsIff(self: Self, chain: seq<Mapper>, ref: ObjRef, outFacing: bool)
    ensures MapRef(self, chain, ref, outFacing).Fault? <==>
      && ref.Ref? && Pick(chain, ref.typeId) < |chain|
      && Id.Classify(self.me, ref.key, outFacing).ReverseMapped?
      && T.Find(chain[Pick(chain, ref.typeId)].table, Id.Classify(self.me, ref.key, outFacing).index).None?
  {
    if ref.Ref? {
      WalkFaultsIff(chain, ref.typeId, Adding(self, ref, outFacing));
    }
  }

  /** Mapped for one side and then for the other, a native reference comes back, whatever
      entries were added in between; mapped for the same side again, it stays. Neither
      second mapping changes any table. */
  lemma RefRoundTrip(self: Self, chain: seq<Mapper>, native: ObjRef, outFacing: bool, later: seq<Mapper>, wanted: bool)
    requires ChainOk(self, chain) && Room(chain, 1) && Native(self, native)
    requires MapRef(self, chain, native, outFacing).Ok? ==>
      ChainOk(self, later) && Extends(MapRef(self, chain, native, outFacing).value.chain, later)
    ensures MapRef(self, chain, native, outFacing).Ok?
    ensures var r := MapRef(self, chain, native, outFacing).value;
      MapRef(self, later, r.ref, wanted) == Ok(Mapped(later, if wanted == outFacing then r.ref else native, r.changed))
  {
    NativeMaps(self, chain, native, outFacing);
    var r := MapRef(self, chain, native, outFacing).value;
    if native.Nil? || Pick(chain, native.typeId) == |chain| {
      Unhandled(self, chain, native, outFacing);
      if native.Ref? { PickExtended(chain, later, native.typeId); }
      Unhandled(self, later, native, wanted);
    } else {
      var index := NativeGetsEntry(self, chain, native, outFacing);
      PickExtended(r.chain, later, native.typeId);
      HeldMapsBack(self, r.chain, later, Entry(native, r.ref), outFacing, index, wanted);
    }
  }

  lemma {:induction false} HeldMapsBack(self: Self, chain: seq<Mapper>, later: seq<Mapper>, e: Entry,
                                        outFacing: bool, index: nat, wanted: bool)
    requires e.orig.Ref? && ChainOk(self, later) && Extends(chain, later)
    requires var k := Pick(later, e.orig.typeId); k < |later| && Holds(self, chain[k], e, outFacing, index)
    ensures MapRef(self, later, e.mapped, wanted)
         == Ok(Mapped(later, if wanted == outFacing then e.mapped else e.orig, true))
  {
    var k := Pick(later, e.orig.typeId);
    assert Grown(chain[k], later[k]) && MapperOk(self, later[k]);
    HoldsKept(self, chain[k], later[k], e, outFacing, index);
    MadeIsFound(self, later[k], e, outFacing, index, wanted);
    FoundMaps(self, later, k, e.mapped, wanted, if wanted == outFacing then e else Reverse(e));
  }

  lemma {:induction false} PickExtended(chain: seq<Mapper>, later: seq<Mapper>, typeId: string)
    requires Extends(chain, later)
    ensures Pick(later, typeId) == Pick(chain, typeId)
  {
    forall k | 0 <= k < |chain| ensures later[k].handler == chain[k].handler { assert Grown(chain[k], later[k]); }
    PickSame(chain, later, typeId);
  }

  /** The same for a list of references, mapped one after the other: the entries that later
      references add do not disturb those of earlier ones. */
  lemma {:induction false} AllRoundTrip(self: Self, chain: seq<Mapper>, refs: seq<ObjRef>, outFacing: bool,
                                        later: seq<Mapper>, wanted: bool)
    requires ChainOk(self, chain) && Room(chain, |refs|) && forall r :: r in refs ==> Native(self, r)
    requires MapAll(self, chain, refs, outFacing).Ok? ==>
      ChainOk(self, later) && Extends(MapAll(self, chain, refs, outFacing).value.chain, later)
    ensures MapAll(self, chain, refs, outFacing).Ok?
    ensures var r := MapAll(self, chain, refs, outFacing).value;
      MapAll(self, later, r.refs, wanted)
      == Ok(MappedAll(later, if wanted == outFacing then r.refs else refs, r.changed))
    decreases |refs|
  {
    if refs != [] {
      NativeMaps(self, chain, refs[0], outFacing);
      var first := MapRef(self, chain, refs[0], outFacing).value;
      MapRefKeeps(self, chain, refs[0], outFacing, |refs| - 1);
      AllRoundTrip(self, first.chain, refs[1..], outFacing, later, wanted);
      var rest := MapAll(self, first.chain, refs[1..], outFacing).value;
      assert Extends(first.chain, later) by {
        MapAllKeeps(self, first.chain, refs[1..], outFacing);
        ExtendsTransitive(first.chain, rest.chain, later);
      }
      RefRoundTrip(self, chain, refs[0], outFacing, later, wanted);
      assert ([first.ref] + rest.refs)[1..] == rest.refs;
      assert [refs[0]] + refs[1..] == refs;
    }
  }

  // ---- which references a mapping changes ----

  /** Some mapper has an evaluator for the type of a reference that is not nil. */
  predicate Handled(chain: seq<Mapper>, ref: ObjRef) {
    ref.Ref? && Pick(chain, ref.typeId) < |chain|
  }

  /** A native reference is mapped, to another reference, exactly when it is handled. */
  lemma NativeChangesIff(self: Self, chain: seq<Mapper>, native: ObjRef, outFacing: bool)
    requires ChainOk(self, chain) && Room(chain, 1) && Native(self, native)
    ensures MapRef(self, chain, native, outFacing).Ok?
    ensures var r := MapRef(self, chain, native, outFacing).value;
      (r.changed <==> Handled(chain, native)) && (r.ref != native <==> Handled(chain, native))
  {
    if Handled(chain, native) {
      var index := NativeGetsEntry(self, chain, native, outFacing);
      var m := chain[Pick(chain, native.typeId)];
      Id.ClassifyMade(self.me, PoaKey(m.keys, outFacing), 1, Id.Side(outFacing), index, outFacing);
    } else {
      Unhandled(self, chain, native, outFacing);
    }
  }

  /** A list of native references comes out as it went in exactly when none is handled. */
  lemma {:induction false} AllChangeIff(self: Self, chain: seq<Mapper>, refs: seq<ObjRef>, outFacing: bool)
    requires ChainOk(self, chain) && Room(chain, |refs|) && forall r :: r in refs ==> Native(self, r)
    ensures MapAll(self, chain, refs, outFacing).Ok?
    ensures MapAll(self, chain, refs, outFacing).value.refs == refs <==> forall r :: r in refs ==> !Handled(chain, r)
    decreases |refs|
  {
    if refs != [] {
      NativeChangesIff(self, chain, refs[0], outFacing);
      var first := MapRef(self, chain, refs[0], outFacing).value;
      MapRefKeeps(self, chain, refs[0], outFacing, |refs| - 1);
      AllChangeIff(self, first.chain, refs[1..], outFacing);
      HandledStays(chain, first.chain, refs);
      SameCons(first.ref, MapAll(self, first.chain, refs[1..], outFacing).value.refs, refs);
    }
  }

  lemma SameCons(x: ObjRef, rest: seq<ObjRef>, refs: seq<ObjRef>)
    requires refs != []
    ensures [x] + rest == refs <==> x == refs[0] && rest == refs[1..]
  {
    assert refs == [refs[0]] + refs[1..];
    assert ([x] + rest)[0] == x && ([x] + rest)[1..] == rest;
  }

  lemma HandledStays(chain: seq<Mapper>, later: seq<Mapper>, refs: seq<ObjRef>)
    requires Extends(chain, later) && refs != []
    ensures (forall r :: r in refs ==> !Handled(chain, r))
       <==> !Handled(chain, refs[0]) && forall r :: r in refs[1..] ==> !Handled(later, r)
  {
    assert refs == [refs[0]] + refs[1..];
    forall r ensures Handled(later, r) <==> Handled(chain, r) {
      if r.Ref? { PickExtended(chain, later, r.typeId); }
    }
  }

  lemma NativeMaps(self: Self, chain: seq<Mapper>, native: ObjRef, outFacing: bool)
    requires ChainOk(self, chain) && Room(chain, 1) && Native(self, native)
    ensures MapRef(self, chain, native, outFacing).Ok?
  {
    if native.Nil? || Pick(chain, native.typeId) == |chain| {
      Unhandled(self, chain, native, outFacing);
    } else {
      var _ := NativeGetsEntry(self, chain, native, outFacing);
    }
  }

  /** Removing the reference just made takes out the entry just added, from the same table:
      what is bound is what was bound before, and the index is free. */
  lemma {:induction false} RemoveUndoesAdd(self: Self, chain: seq<Mapper>, native: ObjRef, outFacing: bool)
    requires ChainOk(self, chain) && Room(chain, 1) && native.Ref? && Native(self, native)
    requires Pick(chain, native.typeId) < |chain|
    ensures var k := Pick(chain, native.typeId);
      && MapRef(self, chain, native, outFacing).Ok?
      && var r := MapRef(self, chain, native, outFacing).value;
      && r.ref.Ref? && RemoveMapped(self, r.chain, r.ref, outFacing).Ok?
      && var (chain', e) := RemoveMapped(self, r.chain, r.ref, outFacing).value;
      && e == Some(Entry(native, r.ref)) && |chain'| == |chain|
      && chain' == chain[k := chain'[k]] && SameBound(chain[k].table, chain'[k].table)
      && chain'[k].table.free == [T.NextIndex(chain[k].table).1] + T.NextIndex(chain[k].table).0.free
  {
    var index := NativeGetsEntry(self, chain, native, outFacing);
    var k := Pick(chain, native.typeId);
    var r := MapRef(self, chain, native, outFacing).value;
    assert MapperOk(self, chain[k]);
    RemoveHereUndoes(self, chain[k], native, outFacing);
    RemovesAfter(self, chain, k, r.chain[k], r.ref, outFacing);
  }

  /** Removing reads the id behind the key of the POA that the reference must be on: the
      inside one or the outside one, as asked. It takes out what is bound at the index in it. */
  lemma RemoveReads(self: Self, m: Mapper, mapped: ObjRef, outFacing: bool)
    requires mapped.Ref?
    ensures var prefix := if outFacing then m.keys.outward else m.keys.inward;
      var r := RemoveHere(self, m, mapped, outFacing);
      && (r.Ok? <==> |mapped.key| >= |prefix| + 16 && mapped.key[..|prefix|] == prefix)
      && (r.Ok? ==> r.value == (m.(table := T.Unbind(m.table, IndexAt(self, mapped.key, |prefix|)).0),
                                T.Find(m.table, IndexAt(self, mapped.key, |prefix|))))
  {
    var prefix := if outFacing then m.keys.outward else m.keys.inward;
    if |mapped.key| >= |prefix| + 16 && mapped.key[..|prefix|] == prefix {
      assert mapped.key[|prefix|..][8..12] == mapped.key[|prefix| + 8..|prefix| + 12];
    }
  }

  function IndexAt(self: Self, key: seq<byte>, start: nat): nat
    requires start + 12 <= |key|
  {
    Id.Load(self.me, key[start + 8..start + 12])
  }

  /** A reference of the same side whose entry is gone is left as it is, and unmapped. */
  lemma {:induction false} MissingStays(self: Self, chain: seq<Mapper>, ref: ObjRef, outFacing: bool)
    requires Handled(chain, ref) && Id.Classify(self.me, ref.key, outFacing).AlreadyMapped?
    requires T.Find(chain[Pick(chain, ref.typeId)].table, Id.Classify(self.me, ref.key, outFacing).index).None?
    ensures MapRef(self, chain, ref, outFacing) == Ok(Mapped(chain, ref, false))
  {
    AddsAtPicked(self, chain, ref, outFacing);
    var k := Pick(chain, ref.typeId);
    assert chain[k := chain[k]] == chain;
  }

  lemma RemovesAfter(self: Self, chain: seq<Mapper>, k: nat, m: Mapper, ref: ObjRef, outFacing: bool)
    requires ref.Ref? && k < |chain| && Pick(chain[k := m], ref.typeId) == k && RemoveHere(self, m, ref, outFacing).Ok?
    ensures var (m', e) := RemoveHere(self, m, ref, outFacing).value;
      RemoveMapped(self, chain[k := m], ref, outFacing) == Ok((chain[k := m'], e))
  {
    RemovesAtPicked(self, chain[k := m], ref, outFacing);
    var m' := RemoveHere(self, m, ref, outFacing).value.0;
    assert chain[k := m][k := m'] == chain[k := m'];
  }

  lemma RemoveHereUndoes(self: Self, m: Mapper, native: ObjRef, outFacing: bool)
    requires Id.Valid(self.me) && MapperOk(self, m) && T.Issuable(m.table) && native.Ref?
    ensures var (m1, e) := AddUnchecked(self, m, native, outFacing);
      && RemoveHere(self, m1, e.mapped, outFacing).Ok?
      && var (m2, e2) := RemoveHere(self, m1, e.mapped, outFacing).value;
      && e2 == Some(e) && SameBound(m.table, m2.table)
      && m2.table.free == [T.NextIndex(m.table).1] + T.NextIndex(m.table).0.free
  {
    AddUncheckedBinds(self, m, native, outFacing);
    var (m1, e) := AddUnchecked(self, m, native, outFacing);
    RemoveFindsIndex(self, m1, native.typeId, outFacing, T.NextIndex(m.table).1);
    T.ClearKeeps(m1.table, T.NextIndex(m.table).1);
  }

  ghost predicate SameBound(t: T.Table<Entry>, t': T.Table<Entry>) {
    && T.WellFormed(t') && T.Bound(t') == T.Bound(t)
    && forall i :: i in T.Bound(t) ==> t'.slots[i] == t.slots[i]
  }

  lemma RemoveFindsIndex(self: Self, m: Mapper, typeId: string, outFacing: bool, index: nat)
    requires Id.Valid(self.me) && index < UINT32
    ensures RemoveHere(self, m, MakeRef(self, m.keys, typeId, outFacing, index), outFacing)
         == Ok((m.(table := T.Unbind(m.table, index).0), T.Unbind(m.table, index).1))
  {
    IndexInMade(self, m.keys, typeId, outFacing, index);
  }
}
