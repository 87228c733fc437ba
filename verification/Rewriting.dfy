/** The rewriting of a typed value: every object reference inside it is mapped for the other
    side, guided by the types, so that parts without references are not looked at. */
module Rewriting {
  import opened Prelude
  import M = Mapping

  /** Type codes, without recursive types. `Basic` covers every kind that is not walked. */
  datatype TypeCode =
    | Void
    | Basic(kind: string)
    | Objref(id: string)
    | Struct(isException: bool, members: seq<TypeCode>)
    | Union(members: seq<TypeCode>)
    | Sequence(element: TypeCode)
    | Array(element: TypeCode)
    | Any
    | Alias(content: TypeCode)

  /** `has_objref`. */
  predicate HasObjref(tc: TypeCode) {
    match tc
    case Void => false
    case Basic(_) => false
    case Objref(_) => true
    case Struct(_, members) => SomeHasObjref(members)
    case Union(members) => SomeHasObjref(members)
    case Sequence(element) => HasObjref(element)
    case Array(element) => HasObjref(element)
    case Any => true
    case Alias(content) => HasObjref(content)
  }

  predicate SomeHasObjref(tcs: seq<TypeCode>) {
    tcs != [] && (HasObjref(tcs[0]) || SomeHasObjref(tcs[1..]))
  }

  /** A dynamic value and its type. */
  datatype DynAny =
    | BasicV(tc: TypeCode, data: string)
    | ObjrefV(id: string, ref: ObjRef)
    | StructV(isException: bool, fields: seq<DynAny>)
    | UnionV(members: seq<TypeCode>, arm: nat, content: DynAny)
    | EmptyUnionV(members: seq<TypeCode>)
    | SequenceV(element: TypeCode, items: seq<DynAny>)
    | ArrayV(element: TypeCode, items: seq<DynAny>)
    | AnyV(content: DynAny)
    | AliasV(content: DynAny)

  function TypeOf(v: DynAny): TypeCode {
    match v
    case BasicV(tc, _) => tc
    case ObjrefV(id, _) => Objref(id)
    case StructV(isException, fields) => Struct(isException, TypesOf(fields))
    case UnionV(members, _, _) => Union(members)
    case EmptyUnionV(members) => Union(members)
    case SequenceV(element, _) => Sequence(element)
    case ArrayV(element, _) => Array(element)
    case AnyV(_) => Any
    case AliasV(content) => Alias(TypeOf(content))
  }

  function TypesOf(vs: seq<DynAny>): (tcs: seq<TypeCode>) {
    if vs == [] then [] else [TypeOf(vs[0])] + TypesOf(vs[1..])
  }

  ghost predicate WellTyped(v: DynAny) {
    match v
    case BasicV(tc, _) => tc.Void? || tc.Basic?
    case ObjrefV(_, _) => true
    case StructV(_, fields) => AllWellTyped(fields)
    case UnionV(members, arm, content) => arm < |members| && TypeOf(content) == members[arm] && WellTyped(content)
    case EmptyUnionV(_) => true
    case SequenceV(element, items) => AllWellTyped(items) && AllOfType(items, element)
    case ArrayV(element, items) => AllWellTyped(items) && AllOfType(items, element)
    case AnyV(content) => WellTyped(content)
    case AliasV(content) => WellTyped(content)
  }

  ghost predicate AllWellTyped(vs: seq<DynAny>) {
    vs == [] || (WellTyped(vs[0]) && AllWellTyped(vs[1..]))
  }

  ghost predicate AllOfType(vs: seq<DynAny>, tc: TypeCode) {
    vs == [] || (TypeOf(vs[0]) == tc && AllOfType(vs[1..], tc))
  }

  // ---- the rewrite ----

  datatype Rewritten<T> = Rewritten(chain: seq<M.Mapper>, value: T, changed: bool)

  /** `proxify`. An array is narrowed to a sequence, which gives nil, and then used. */
  function Proxify(self: M.Self, chain: seq<M.Mapper>, v: DynAny, outFacing: bool): Outcome<Rewritten<DynAny>>
    decreases v, 1
  {
    match v
    case BasicV(_, _) => Ok(Rewritten(chain, v, false))
    case ObjrefV(id, ref) =>
      var r :- M.MapRef(self, chain, ref, outFacing);
      Ok(Rewritten(r.chain, ObjrefV(id, r.ref), r.changed))
    case StructV(isException, fields) =>
      var r :- ProxifyAll(self, chain, fields, outFacing, true);
      Ok(Rewritten(r.chain, StructV(isException, r.value), r.changed))
    case UnionV(members, arm, content) =>
      if !HasObjref(TypeOf(content)) then Ok(Rewritten(chain, v, false)) else
      var r :- Proxify(self, chain, content, outFacing);
      Ok(Rewritten(r.chain, UnionV(members, arm, r.value), r.changed))
    case EmptyUnionV(_) => Ok(Rewritten(chain, v, false))
    case SequenceV(element, items) =>
      if !HasObjref(element) then Ok(Rewritten(chain, v, false)) else
      var r :- ProxifyAll(self, chain, items, outFacing, false);
      Ok(Rewritten(r.chain, SequenceV(element, r.value), r.changed))
    case ArrayV(element, _) =>
      if !HasObjref(element) then Ok(Rewritten(chain, v, false)) else Fault
    case AnyV(content) =>
      if !HasObjref(TypeOf(content)) then Ok(Rewritten(chain, v, false)) else
      var r :- Proxify(self, chain, content, outFacing);
      Ok(Rewritten(r.chain, AnyV(r.value), r.changed))
    case AliasV(content) =>
      var r :- Proxify(self, chain, content, outFacing);
      Ok(Rewritten(r.chain, AliasV(r.value), r.changed))
  }

  /** The members of a struct, looked at only if their type asks for it, or the elements of a
      sequence, all looked at. */
  function ProxifyAll(self: M.Self, chain: seq<M.Mapper>, vs: seq<DynAny>, outFacing: bool, pruned: bool)
    : (r: Outcome<Rewritten<seq<DynAny>>>)
    decreases vs, 0
  {
    if vs == [] then Ok(Rewritten(chain, [], false)) else
    var first :- if pruned && !HasObjref(TypeOf(vs[0])) then Ok(Rewritten(chain, vs[0], false))
                 else Proxify(self, chain, vs[0], outFacing);
    var rest :- ProxifyAll(self, first.chain, vs[1..], outFacing, pruned);
    Ok(Rewritten(rest.chain, [first.value] + rest.value, first.changed || rest.changed))
  }

  // ---- references and shape ----

  /** The references inside a value, from left to right. */
  function Refs(v: DynAny): seq<ObjRef> {
    match v
    case ObjrefV(_, ref) => [ref]
    case StructV(_, fields) => AllRefs(fields)
    case UnionV(_, _, content) => Refs(content)
    case SequenceV(_, items) => AllRefs(items)
    case ArrayV(_, items) => AllRefs(items)
    case AnyV(content) => Refs(content)
    case AliasV(content) => Refs(content)
    case _ => []
  }

  function AllRefs(vs: seq<DynAny>): seq<ObjRef> {
    if vs == [] then [] else Refs(vs[0]) + AllRefs(vs[1..])
  }

  /** Everything but the references. */
  function Shape(v: DynAny): DynAny {
    match v
    case ObjrefV(id, _) => ObjrefV(id, Nil)
    case StructV(isException, fields) => StructV(isException, Shapes(fields))
    case UnionV(members, arm, content) => UnionV(members, arm, Shape(content))
    case SequenceV(element, items) => SequenceV(element, Shapes(items))
    case ArrayV(element, items) => ArrayV(element, Shapes(items))
    case AnyV(content) => AnyV(Shape(content))
    case AliasV(content) => AliasV(Shape(content))
    case _ => v
  }

  function Shapes(vs: seq<DynAny>): seq<DynAny> {
    if vs == [] then [] else [Shape(vs[0])] + Shapes(vs[1..])
  }

  /** Somewhere in the value there is an array whose elements have references. */
  predicate HasRefArray(v: DynAny) {
    match v
    case StructV(_, fields) => SomeHasRefArray(fields)
    case UnionV(_, _, content) => HasRefArray(content)
    case SequenceV(_, items) => SomeHasRefArray(items)
    case ArrayV(element, items) => HasObjref(element) || SomeHasRefArray(items)
    case AnyV(content) => HasRefArray(content)
    case AliasV(content) => HasRefArray(content)
    case _ => false
  }

  predicate SomeHasRefArray(vs: seq<DynAny>) {
    vs != [] && (HasRefArray(vs[0]) || SomeHasRefArray(vs[1..]))
  }

  /** The shape keeps all that is not a reference. */
  lemma {:induction false} ShapeKeeps(v: DynAny)
    ensures TypeOf(Shape(v)) == TypeOf(v) && (WellTyped(Shape(v)) <==> WellTyped(v))
    ensures (HasRefArray(Shape(v)) <==> HasRefArray(v)) && |Refs(Shape(v))| == |Refs(v)|
    decreases v, 1
  {
    match v
    case StructV(_, fields) => ShapesKeep(fields);
    case UnionV(_, _, content) => ShapeKeeps(content);
    case SequenceV(element, items) => ShapesKeep(items); ShapesOfType(items, element);
    case ArrayV(element, items) => ShapesKeep(items); ShapesOfType(items, element);
    case AnyV(content) => ShapeKeeps(content);
    case AliasV(content) => ShapeKeeps(content);
    case _ =>
  }

  lemma {:induction false} ShapesKeep(vs: seq<DynAny>)
    ensures TypesOf(Shapes(vs)) == TypesOf(vs) && (AllWellTyped(Shapes(vs)) <==> AllWellTyped(vs))
    ensures (SomeHasRefArray(Shapes(vs)) <==> SomeHasRefArray(vs)) && |AllRefs(Shapes(vs))| == |AllRefs(vs)|
    decreases vs, 0
  {
    if vs != [] {
      ShapeKeeps(vs[0]);
      ShapesKeep(vs[1..]);
    }
  }

  lemma {:induction false} ShapesOfType(vs: seq<DynAny>, tc: TypeCode)
    ensures AllOfType(Shapes(vs), tc) <==> AllOfType(vs, tc)
  {
    if vs != [] {
      ShapeKeeps(vs[0]);
      ShapesOfType(vs[1..], tc);
    }
  }

  /** Shape and references together are the value. */
  lemma {:induction false} ShapeAndRefs(a: DynAny, b: DynAny)
    requires Shape(a) == Shape(b) && Refs(a) == Refs(b)
    ensures a == b
    decreases a, 1
  {
    match a
    case StructV(_, fields) => ShapesAndRefs(fields, b.fields);
    case UnionV(_, _, content) => ShapeAndRefs(content, b.content);
    case SequenceV(_, items) => ShapesAndRefs(items, b.items);
    case ArrayV(_, items) => ShapesAndRefs(items, b.items);
    case AnyV(content) => ShapeAndRefs(content, b.content);
    case AliasV(content) => ShapeAndRefs(content, b.content);
    case ObjrefV(_, ref) => assert Refs(b)[0] == ref;
    case _ =>
  }

  lemma {:induction false} ShapesAndRefs(a: seq<DynAny>, b: seq<DynAny>)
    requires Shapes(a) == Shapes(b) && AllRefs(a) == AllRefs(b)
    ensures a == b
    decreases a, 0
  {
    if a != [] {
      assert b != [];
      assert Shape(a[0]) == Shapes(a)[0] == Shapes(b)[0] == Shape(b[0]);
      assert Shapes(a[1..]) == Shapes(a)[1..] == Shapes(b)[1..] == Shapes(b[1..]);
      ShapeKeeps(a[0]);
      ShapeKeeps(b[0]);
      var n := |Refs(a[0])|;
      assert Refs(a[0]) == AllRefs(a)[..n] && Refs(b[0]) == AllRefs(b)[..n];
      assert AllRefs(a[1..]) == AllRefs(a)[n..] && AllRefs(b[1..]) == AllRefs(b)[n..];
      ShapeAndRefs(a[0], b[0]);
      ShapesAndRefs(a[1..], b[1..]);
      assert a == [a[0]] + a[1..] && b == [b[0]] + b[1..];
    }
  }

  // ---- pruning loses nothing ----

  /** A well-typed value of a type without references holds none. */
  lemma {:induction false} PrunedHoldsNone(v: DynAny)
    requires WellTyped(v) && !HasObjref(TypeOf(v))
    ensures Refs(v) == [] && !HasRefArray(v)
    decreases v, 1
  {
    match v
    case StructV(_, fields) => PrunedHoldNone(fields);
    case UnionV(members, arm, content) => MemberHasNone(members, arm); PrunedHoldsNone(content);
    case SequenceV(element, items) => OfTypeHasNone(items, element); PrunedHoldNone(items);
    case ArrayV(element, items) => OfTypeHasNone(items, element); PrunedHoldNone(items);
    case AliasV(content) => PrunedHoldsNone(content);
    case _ =>
  }

  lemma {:induction false} PrunedHoldNone(vs: seq<DynAny>)
    requires AllWellTyped(vs) && !SomeHasObjref(TypesOf(vs))
    ensures AllRefs(vs) == [] && !SomeHasRefArray(vs)
    decreases vs, 0
  {
    if vs != [] {
      assert TypesOf(vs)[1..] == TypesOf(vs[1..]);
      PrunedHoldsNone(vs[0]);
      PrunedHoldNone(vs[1..]);
    }
  }

  lemma {:induction false} MemberHasNone(tcs: seq<TypeCode>, k: nat)
    requires !SomeHasObjref(tcs) && k < |tcs|
    ensures !HasObjref(tcs[k])
  {
    if k > 0 { MemberHasNone(tcs[1..], k - 1); }
  }

  lemma {:induction false} OfTypeHasNone(vs: seq<DynAny>, tc: TypeCode)
    requires AllOfType(vs, tc) && !HasObjref(tc)
    ensures !SomeHasObjref(TypesOf(vs))
  {
    if vs != [] {
      assert TypesOf(vs)[1..] == TypesOf(vs[1..]);
      OfTypeHasNone(vs[1..], tc);
    }
  }

  // ---- what the types say is no more than true ----

  const SAMPLE := Ref("", "", [])

  /** A value of a type, with a reference in it wherever the type has one to give. */
  function Sample(tc: TypeCode): DynAny {
    match tc
    case Void => BasicV(tc, "")
    case Basic(_) => BasicV(tc, "")
    case Objref(id) => ObjrefV(id, SAMPLE)
    case Struct(isException, members) => StructV(isException, Samples(members))
    case Union(members) =>
      if SomeHasObjref(members) then UnionV(members, FirstObjref(members), Sample(members[FirstObjref(members)]))
      else EmptyUnionV(members)
    case Sequence(element) => SequenceV(element, [Sample(element)])
    case Array(element) => ArrayV(element, [Sample(element)])
    case Any => AnyV(ObjrefV("", SAMPLE))
    case Alias(content) => AliasV(Sample(content))
  }

  function Samples(tcs: seq<TypeCode>): seq<DynAny> {
    if tcs == [] then [] else [Sample(tcs[0])] + Samples(tcs[1..])
  }

  function FirstObjref(tcs: seq<TypeCode>): (k: nat)
    requires SomeHasObjref(tcs)
    ensures k < |tcs| && HasObjref(tcs[k])
  {
    if HasObjref(tcs[0]) then 0 else 1 + FirstObjref(tcs[1..])
  }

  lemma {:induction false} SampleFits(tc: TypeCode)
    ensures WellTyped(Sample(tc)) && TypeOf(Sample(tc)) == tc
    ensures HasObjref(tc) ==> SAMPLE in Refs(Sample(tc))
    decreases tc, 1
  {
    match tc
    case Struct(_, members) => SamplesFit(members);
    case Union(members) => if SomeHasObjref(members) { SampleFits(members[FirstObjref(members)]); }
    case Sequence(element) => OneSample(element);
    case Array(element) => OneSample(element);
    case Alias(content) => SampleFits(content);
    case _ =>
  }

  lemma {:induction false} OneSample(tc: TypeCode)
    ensures AllWellTyped([Sample(tc)]) && AllOfType([Sample(tc)], tc)
    ensures HasObjref(tc) ==> SAMPLE in AllRefs([Sample(tc)])
    decreases tc, 2
  {
    SampleFits(tc);
    assert [Sample(tc)][1..] == [];
  }

  lemma {:induction false} SamplesFit(tcs: seq<TypeCode>)
    ensures AllWellTyped(Samples(tcs)) && TypesOf(Samples(tcs)) == tcs
    ensures SomeHasObjref(tcs) ==> SAMPLE in AllRefs(Samples(tcs))
    decreases tcs, 0
  {
    if tcs != [] {
      SampleFits(tcs[0]);
      SamplesFit(tcs[1..]);
      assert Samples(tcs)[1..] == Samples(tcs[1..]) && tcs == [tcs[0]] + tcs[1..];
    }
  }

  /** `has_objref` answers whether some value of the type holds a reference. */
  lemma {:induction false} HasObjrefIff(tc: TypeCode)
    ensures HasObjref(tc) <==> exists v :: TypeOf(v) == tc && WellTyped(v) && Refs(v) != []
  {
    SampleFits(tc);
    if v :| TypeOf(v) == tc && WellTyped(v) && Refs(v) != [] {
      if !HasObjref(tc) { PrunedHoldsNone(v); }
    }
  }

  // ---- the rewrite maps exactly the references ----

  /** Mapping a list of references in two parts. */
  lemma {:induction false} MapAllConcat(self: M.Self, chain: seq<M.Mapper>, a: seq<ObjRef>, b: seq<ObjRef>,
                                        outFacing: bool)
    ensures var first := M.MapAll(self, chain, a, outFacing); var both := M.MapAll(self, chain, a + b, outFacing);
      if first.Fault? then both.Fault? else
      var second := M.MapAll(self, first.value.chain, b, outFacing);
      if second.Fault? then both.Fault? else
      both == Ok(M.MappedAll(second.value.chain, first.value.refs + second.value.refs,
                             first.value.changed || second.value.changed))
      && |first.value.refs| == |a|
    decreases |a|
  {
    if a == [] {
      assert a + b == b;
      var second := M.MapAll(self, chain, b, outFacing);
      if second.Ok? { assert [] + second.value.refs == second.value.refs; }
    } else {
      assert (a + b)[0] == a[0] && (a + b)[1..] == a[1..] + b;
      var r := M.MapRef(self, chain, a[0], outFacing);
      if r.Ok? {
        MapAllConcat(self, r.value.chain, a[1..], b, outFacing);
        var rest := M.MapAll(self, r.value.chain, a[1..], outFacing);
        if rest.Ok? {
          var second := M.MapAll(self, rest.value.chain, b, outFacing);
          if second.Ok? {
            assert [r.value.ref] + (rest.value.refs + second.value.refs)
                == ([r.value.ref] + rest.value.refs) + second.value.refs;
          }
        }
      }
    }
  }

  /** The rewrite gives what mapping the references one by one gives, in the same state, with
      everything else in place. It fails exactly on an array with references, or where the
      mapping itself fails. */
  ghost predicate Exact(self: M.Self, chain: seq<M.Mapper>, v: DynAny, outFacing: bool, r: Outcome<Rewritten<DynAny>>) {
    var all := M.MapAll(self, chain, Refs(v), outFacing);
    && (r.Ok? <==> !HasRefArray(v) && all.Ok?)
    && (r.Ok? ==>
          && r.value.chain == all.value.chain && r.value.changed == all.value.changed
          && Refs(r.value.value) == all.value.refs && Shape(r.value.value) == Shape(v))
  }

  ghost predicate AllExact(self: M.Self, chain: seq<M.Mapper>, vs: seq<DynAny>, outFacing: bool,
                           r: Outcome<Rewritten<seq<DynAny>>>) {
    var all := M.MapAll(self, chain, AllRefs(vs), outFacing);
    && (r.Ok? <==> !SomeHasRefArray(vs) && all.Ok?)
    && (r.Ok? ==>
          && r.value.chain == all.value.chain && r.value.changed == all.value.changed
          && AllRefs(r.value.value) == all.value.refs && Shapes(r.value.value) == Shapes(vs))
  }

  lemma {:induction false} ProxifyExact(self: M.Self, chain: seq<M.Mapper>, v: DynAny, outFacing: bool)
    requires WellTyped(v)
    ensures Exact(self, chain, v, outFacing, Proxify(self, chain, v, outFacing))
    decreases v, 1
  {
    match v
    case ObjrefV(_, ref) => assert [ref][1..] == [];
    case StructV(_, fields) => ProxifyAllExact(self, chain, fields, outFacing, true);
    case UnionV(_, _, content) =>
      if !HasObjref(TypeOf(content)) { PrunedHoldsNone(content); }
      else { ProxifyExact(self, chain, content, outFacing); }
    case SequenceV(element, items) =>
      if HasObjref(element) { ProxifyAllExact(self, chain, items, outFacing, false); } else { PrunedHoldsNone(v); }
    case ArrayV(element, items) =>
      if !HasObjref(element) { PrunedHoldsNone(v); }
    case AnyV(content) =>
      if !HasObjref(TypeOf(content)) { PrunedHoldsNone(content); }
      else { ProxifyExact(self, chain, content, outFacing); }
    case AliasV(content) => ProxifyExact(self, chain, content, outFacing);
    case _ =>
  }

  lemma {:induction false} ProxifyAllExact(self: M.Self, chain: seq<M.Mapper>, vs: seq<DynAny>, outFacing: bool,
                                           pruned: bool)
    requires AllWellTyped(vs)
    ensures AllExact(self, chain, vs, outFacing, ProxifyAll(self, chain, vs, outFacing, pruned))
    decreases vs, 0
  {
    if vs != [] {
      var v := vs[0];
      var first := if pruned && !HasObjref(TypeOf(v)) then Ok(Rewritten(chain, v, false))
                   else Proxify(self, chain, v, outFacing);
      if pruned && !HasObjref(TypeOf(v)) { PrunedHoldsNone(v); } else { ProxifyExact(self, chain, v, outFacing); }
      assert Exact(self, chain, v, outFacing, first);
      MapAllConcat(self, chain, Refs(v), AllRefs(vs[1..]), outFacing);
      if first.Ok? {
        ProxifyAllExact(self, first.value.chain, vs[1..], outFacing, pruned);
      }
    }
  }

  /** Nothing mapped, nothing changed: leaving the value unwritten is right. */
  lemma {:induction false} UnchangedIsSame(self: M.Self, chain: seq<M.Mapper>, v: DynAny, outFacing: bool)
    requires WellTyped(v) && Proxify(self, chain, v, outFacing).Ok? && !Proxify(self, chain, v, outFacing).value.changed
    ensures Proxify(self, chain, v, outFacing).value.value == v
  {
    ProxifyExact(self, chain, v, outFacing);
    UnchangedRefs(self, chain, Refs(v), outFacing);
    ShapeAndRefs(Proxify(self, chain, v, outFacing).value.value, v);
  }

  lemma {:induction false} UnchangedRefs(self: M.Self, chain: seq<M.Mapper>, refs: seq<ObjRef>, outFacing: bool)
    requires M.MapAll(self, chain, refs, outFacing).Ok? && !M.MapAll(self, chain, refs, outFacing).value.changed
    ensures M.MapAll(self, chain, refs, outFacing).value.refs == refs
    decreases |refs|
  {
    if refs != [] {
      UnchangedRefs(self, M.MapRef(self, chain, refs[0], outFacing).value.chain, refs[1..], outFacing);
      assert refs == [refs[0]] + refs[1..];
    }
  }

  /** A value of native references, sent through the proxy to one side and later back, is the
      same value, whatever the first pass and others have added to the tables since; sent to
      the same side again it stays as mapped. The one thing that stops the first pass is an
      array with references. */
  lemma {:induction false} RoundTrip(self: M.Self, chain: seq<M.Mapper>, v: DynAny, outFacing: bool,
                                     later: seq<M.Mapper>, wanted: bool)
    requires WellTyped(v) && forall r :: r in Refs(v) ==> M.Native(self, r)
    requires M.ChainOk(self, chain) && M.Room(chain, |Refs(v)|)
    requires M.ChainOk(self, later)
    requires M.MapAll(self, chain, Refs(v), outFacing).Ok? ==>
      M.Extends(M.MapAll(self, chain, Refs(v), outFacing).value.chain, later)
    ensures Proxify(self, chain, v, outFacing).Ok? <==> !HasRefArray(v)
    ensures !HasRefArray(v) ==> var r := Proxify(self, chain, v, outFacing).value;
      Proxify(self, later, r.value, wanted)
      == Ok(Rewritten(later, if wanted == outFacing then r.value else v, r.changed))
  {
    ProxifyExact(self, chain, v, outFacing);
    M.AllRoundTrip(self, chain, Refs(v), outFacing, later, wanted);
    if !HasRefArray(v) {
      var r := Proxify(self, chain, v, outFacing).value;
      ShapeKeeps(v);
      ShapeKeeps(r.value);
      ProxifyExact(self, later, r.value, wanted);
      ShapeAndRefs(Proxify(self, later, r.value, wanted).value.value, if wanted == outFacing then r.value else v);
    }
  }
}
