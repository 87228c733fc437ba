/** The generic evaluator at work on requests and replies: which values of an argument list
    it rewrites, by which type, for which side. */
module Evaluation {
  import opened Prelude
  import opened Rewriting
  import M = Mapping
  import Id = ObjectId
  import T = ReferenceTable

  datatype Mode = ArgIn | ArgOut | ArgInOut

  datatype Param = Param(tc: TypeCode, mode: Mode)

  datatype NamedValue = NamedValue(flags: Mode, value: DynAny)

  /** `proxify_any`: the value is written back only when something was mapped. */
  function ProxifyAny(self: M.Self, chain: seq<M.Mapper>, v: DynAny, outFacing: bool): Outcome<Rewritten<DynAny>> {
    var r :- Proxify(self, chain, v, outFacing);
    Ok(Rewritten(r.chain, if r.changed then r.value else v, r.changed))
  }

  /** What the type of a parameter asks for, decided anew each time. */
  function RewriteAs(self: M.Self, chain: seq<M.Mapper>, tc: TypeCode, v: DynAny, outFacing: bool)
    : Outcome<Rewritten<DynAny>>
  {
    if HasObjref(tc) then ProxifyAny(self, chain, v, outFacing) else Ok(Rewritten(chain, v, false))
  }

  function RewriteResult(self: M.Self, chain: seq<M.Mapper>, tc: TypeCode, result: Option<DynAny>, outFacing: bool)
    : Outcome<Rewritten<Option<DynAny>>>
  {
    if result.None? then if HasObjref(tc) then Fault else Ok(Rewritten(chain, None, false)) else
    var r :- RewriteAs(self, chain, tc, result.value, outFacing);
    Ok(Rewritten(r.chain, Some(r.value), r.changed))
  }

  /** On a value of its own type this is the full rewrite. */
  lemma {:induction false} RewriteAsIsProxify(self: M.Self, chain: seq<M.Mapper>, v: DynAny, outFacing: bool)
    requires WellTyped(v)
    ensures RewriteAs(self, chain, TypeOf(v), v, outFacing) == Proxify(self, chain, v, outFacing)
  {
    ProxifyExact(self, chain, v, outFacing);
    var r := Proxify(self, chain, v, outFacing);
    if !HasObjref(TypeOf(v)) {
      PrunedHoldsNone(v);
    }
    if r.Ok? && !r.value.changed {
      UnchangedIsSame(self, chain, v, outFacing);
    }
  }

  /** `r` as the outcome for a result that exists. */
  function Existing(r: Outcome<Rewritten<DynAny>>): Outcome<Rewritten<Option<DynAny>>> {
    if r.Fault? then Fault else Ok(Rewritten(r.value.chain, Some(r.value.value), r.value.changed))
  }

  /** A result of its own type is rewritten in full; one that is not there is dereferenced
      exactly when the type has references, so never when nothing is returned. */
  lemma {:induction false} ResultExact(self: M.Self, chain: seq<M.Mapper>, v: DynAny, tc: TypeCode, outFacing: bool)
    ensures WellTyped(v) ==>
      RewriteResult(self, chain, TypeOf(v), Some(v), outFacing) == Existing(Proxify(self, chain, v, outFacing))
    ensures RewriteResult(self, chain, tc, None, outFacing).Fault? <==> HasObjref(tc)
    ensures RewriteResult(self, chain, Void, None, outFacing) == Ok(Rewritten(chain, None, false))
  {
    if WellTyped(v) { RewriteAsIsProxify(self, chain, v, outFacing); }
    HasObjrefIff(Void);
  }

  // ---- the alignment of a signature with an argument list ----

  /** `proxify_params`: the next value that is not of the excluded direction goes with the
      next parameter that is not. */
  function Align(self: M.Self, chain: seq<M.Mapper>, params: seq<Param>, items: seq<NamedValue>, exclude: Mode,
                 outFacing: bool)
    : Outcome<Rewritten<seq<NamedValue>>>
    decreases |params| + |items|
  {
    if params == [] then Ok(Rewritten(chain, items, false))
    else if params[0].mode == exclude then Align(self, chain, params[1..], items, exclude, outFacing)
    else if items == [] then Fault
    else if items[0].flags == exclude then
      var rest :- Align(self, chain, params, items[1..], exclude, outFacing);
      Ok(rest.(value := [items[0]] + rest.value))
    else
      var first :- RewriteAs(self, chain, params[0].tc, items[0].value, outFacing);
      var rest :- Align(self, first.chain, params[1..], items[1..], exclude, outFacing);
      Ok(Rewritten(rest.chain, [items[0].(value := first.value)] + rest.value, first.changed || rest.changed))
  }

  /** Each argument of the right direction, rewritten as its own parameter says. */
  function RewriteArgs(self: M.Self, chain: seq<M.Mapper>, params: seq<Param>, values: seq<DynAny>, exclude: Mode,
                       outFacing: bool)
    : (r: Outcome<Rewritten<seq<DynAny>>>)
    requires |params| == |values|
    ensures r.Ok? ==> |r.value.value| == |values|
    ensures r.Ok? ==> forall k :: 0 <= k < |params| && params[k].mode == exclude ==> r.value.value[k] == values[k]
    decreases |params|
  {
    if params == [] then Ok(Rewritten(chain, [], false)) else
    var first :- if params[0].mode == exclude then Ok(Rewritten(chain, values[0], false))
                 else RewriteAs(self, chain, params[0].tc, values[0], outFacing);
    var rest :- RewriteArgs(self, first.chain, params[1..], values[1..], exclude, outFacing);
    Ok(Rewritten(rest.chain, [first.value] + rest.value, first.changed || rest.changed))
  }

  /** The values fit the types of their parameters. */
  ghost predicate Typed(params: seq<Param>, values: seq<DynAny>) {
    |params| == |values|
    && forall k :: 0 <= k < |params| ==> WellTyped(values[k]) && TypeOf(values[k]) == params[k].tc
  }

  /** The values whose direction is not `exclude`. */
  function Wanted(params: seq<Param>, values: seq<DynAny>, exclude: Mode): seq<DynAny>
    requires |params| == |values|
  {
    if params == [] then []
    else if params[0].mode == exclude then Wanted(params[1..], values[1..], exclude)
    else [values[0]] + Wanted(params[1..], values[1..], exclude)
  }

  /** The rewriting of the arguments is the full rewriting of exactly those of the wanted
      directions, one after the other. */
  lemma {:induction false} ArgsExact(self: M.Self, chain: seq<M.Mapper>, params: seq<Param>, values: seq<DynAny>,
                                     exclude: Mode, outFacing: bool)
    requires Typed(params, values)
    ensures var s := RewriteArgs(self, chain, params, values, exclude, outFacing);
      var p := ProxifyAll(self, chain, Wanted(params, values, exclude), outFacing, false);
      && (s.Ok? <==> p.Ok?)
      && (s.Ok? ==> p.value == Rewritten(s.value.chain, Wanted(params, s.value.value, exclude), s.value.changed))
    decreases |params|
  {
    if params != [] {
      var head, params', values' := values[0], params[1..], values[1..];
      if params[0].mode == exclude {
        ArgsExact(self, chain, params', values', exclude, outFacing);
        var s := RewriteArgs(self, chain, params', values', exclude, outFacing);
        if s.Ok? { WantedCons(params, head, s.value.value, exclude); }
      } else {
        RewriteAsIsProxify(self, chain, head, outFacing);
        var first := Proxify(self, chain, head, outFacing);
        ProxifyAllCons(self, chain, head, Wanted(params', values', exclude), outFacing);
        if first.Ok? {
          ArgsExact(self, first.value.chain, params', values', exclude, outFacing);
          var s := RewriteArgs(self, first.value.chain, params', values', exclude, outFacing);
          if s.Ok? { WantedCons(params, first.value.value, s.value.value, exclude); }
        }
      }
    }
  }

  lemma {:induction false} ProxifyAllCons(self: M.Self, chain: seq<M.Mapper>, v: DynAny, vs: seq<DynAny>,
                                          outFacing: bool)
    ensures var first := Proxify(self, chain, v, outFacing);
      var all := ProxifyAll(self, chain, [v] + vs, outFacing, false);
      if first.Fault? then all.Fault? else
      var rest := ProxifyAll(self, first.value.chain, vs, outFacing, false);
      if rest.Fault? then all.Fault? else
      all == Ok(Rewritten(rest.value.chain, [first.value.value] + rest.value.value,
                          first.value.changed || rest.value.changed))
  {
    assert ([v] + vs)[1..] == vs;
  }

  lemma {:induction false} WantedCons(params: seq<Param>, v: DynAny, rest: seq<DynAny>, exclude: Mode)
    requires params != [] && |rest| == |params| - 1
    ensures var wanted := Wanted(params[1..], rest, exclude);
      Wanted(params, [v] + rest, exclude) == if params[0].mode == exclude then wanted else [v] + wanted
  {
    assert ([v] + rest)[1..] == rest;
  }

  /** The list `prepare_request` builds: one entry for every parameter. */
  function Full(params: seq<Param>, values: seq<DynAny>): (items: seq<NamedValue>)
    requires |params| == |values|
  {
    if params == [] then [] else [NamedValue(params[0].mode, values[0])] + Full(params[1..], values[1..])
  }

  /** The entries whose direction is not `exclude`. */
  function Without(items: seq<NamedValue>, exclude: Mode): seq<NamedValue> {
    if items == [] then []
    else if items[0].flags == exclude then Without(items[1..], exclude)
    else [items[0]] + Without(items[1..], exclude)
  }

  /** The alignment `r` is the rewriting `s` of the arguments, put back into a list. */
  ghost predicate Same(r: Outcome<Rewritten<seq<NamedValue>>>, s: Outcome<Rewritten<seq<DynAny>>>,
                       items: seq<NamedValue>)
  {
    (r.Ok? <==> s.Ok?) && (r.Ok? ==> r.value == Rewritten(s.value.chain, items, s.value.changed))
  }

  lemma {:induction false} FullCons(params: seq<Param>, v: DynAny, rest: seq<DynAny>)
    requires params != [] && |rest| == |params| - 1
    ensures Full(params, [v] + rest) == [NamedValue(params[0].mode, v)] + Full(params[1..], rest)
    ensures Full(params, [v] + rest)[1..] == Full(params[1..], rest)
  {
    assert ([v] + rest)[1..] == rest;
  }

  /** The list `r` with `lead` in front. */
  function Behind(lead: seq<NamedValue>, r: Outcome<Rewritten<seq<NamedValue>>>): Outcome<Rewritten<seq<NamedValue>>> {
    if r.Fault? then Fault else Ok(r.value.(value := lead + r.value.value))
  }

  /** Entries of the excluded direction in front are passed over and kept. */
  lemma {:induction false} AlignSkips(self: M.Self, chain: seq<M.Mapper>, lead: seq<NamedValue>, params: seq<Param>,
                                      items: seq<NamedValue>, exclude: Mode, outFacing: bool)
    requires forall k :: 0 <= k < |lead| ==> lead[k].flags == exclude
    ensures Align(self, chain, params, lead + items, exclude, outFacing)
         == Behind(lead, Align(self, chain, params, items, exclude, outFacing))
    decreases |params|, |lead|
  {
    if lead == [] {
      assert lead + items == items;
      var r := Align(self, chain, params, items, exclude, outFacing);
      if r.Ok? { assert [] + r.value.value == r.value.value; }
    } else if params != [] && params[0].mode == exclude {
      AlignSkips(self, chain, lead, params[1..], items, exclude, outFacing);
    } else if params != [] {
      assert (lead + items)[1..] == lead[1..] + items;
      AlignSkips(self, chain, lead[1..], params, items, exclude, outFacing);
      var r := Align(self, chain, params, items, exclude, outFacing);
      if r.Ok? { assert [lead[0]] + (lead[1..] + r.value.value) == lead + r.value.value; }
    }
  }

  /** On the full list every parameter meets its own value, and the list never runs out. */
  lemma {:induction false} AlignFull(self: M.Self, chain: seq<M.Mapper>, params: seq<Param>, values: seq<DynAny>,
                                     exclude: Mode, outFacing: bool)
    requires |params| == |values|
    ensures var s := RewriteArgs(self, chain, params, values, exclude, outFacing);
      Same(Align(self, chain, params, Full(params, values), exclude, outFacing), s,
           if s.Ok? then Full(params, s.value.value) else [])
    decreases |params|
  {
    if params != [] {
      var head := NamedValue(params[0].mode, values[0]);
      var items := Full(params[1..], values[1..]);
      assert Full(params, values)[1..] == items;
      var first := if params[0].mode == exclude then Ok(Rewritten(chain, values[0], false))
                   else RewriteAs(self, chain, params[0].tc, values[0], outFacing);
      if first.Ok? {
        AlignFull(self, first.value.chain, params[1..], values[1..], exclude, outFacing);
        var s := RewriteArgs(self, first.value.chain, params[1..], values[1..], exclude, outFacing);
        if s.Ok? { FullCons(params, first.value.value, s.value.value); }
        if params[0].mode == exclude { AlignSkips(self, chain, [head], params[1..], items, exclude, outFacing); }
      }
    }
  }

  /** On the list cut down to the wanted directions, as built for the reply, they meet too. */
  lemma {:induction false} AlignCut(self: M.Self, chain: seq<M.Mapper>, params: seq<Param>, values: seq<DynAny>,
                                    exclude: Mode, outFacing: bool)
    requires |params| == |values|
    ensures var s := RewriteArgs(self, chain, params, values, exclude, outFacing);
      Same(Align(self, chain, params, Without(Full(params, values), exclude), exclude, outFacing), s,
           if s.Ok? then Without(Full(params, s.value.value), exclude) else [])
    decreases |params|
  {
    if params != [] {
      assert Full(params, values)[1..] == Full(params[1..], values[1..]);
      var first := if params[0].mode == exclude then Ok(Rewritten(chain, values[0], false))
                   else RewriteAs(self, chain, params[0].tc, values[0], outFacing);
      if first.Ok? {
        AlignCut(self, first.value.chain, params[1..], values[1..], exclude, outFacing);
        var s := RewriteArgs(self, first.value.chain, params[1..], values[1..], exclude, outFacing);
        if s.Ok? {
          FullCons(params, first.value.value, s.value.value);
        }
        if params[0].mode != exclude {
          assert Without(Full(params, values), exclude)[1..] == Without(Full(params[1..], values[1..]), exclude);
        }
      }
    }
  }

  /** How many values the parameters ask for. */
  function Needed(params: seq<Param>, exclude: Mode): nat {
    if params == [] then 0 else (if params[0].mode == exclude then 0 else 1) + Needed(params[1..], exclude)
  }

  /** A list with too few entries of the wanted directions runs out. */
  lemma {:induction false} AlignRunsOut(self: M.Self, chain: seq<M.Mapper>, params: seq<Param>,
                                        items: seq<NamedValue>, exclude: Mode, outFacing: bool)
    requires |Without(items, exclude)| < Needed(params, exclude)
    ensures Align(self, chain, params, items, exclude, outFacing).Fault?
    decreases |params| + |items|
  {
    if params[0].mode == exclude {
      AlignRunsOut(self, chain, params[1..], items, exclude, outFacing);
    } else if items != [] && items[0].flags == exclude {
      AlignRunsOut(self, chain, params, items[1..], exclude, outFacing);
    } else if items != [] {
      var first := RewriteAs(self, chain, params[0].tc, items[0].value, outFacing);
      if first.Ok? { AlignRunsOut(self, first.value.chain, params[1..], items[1..], exclude, outFacing); }
    }
  }

  // ---- the loops ----

  /** A user exception that an operation may raise: its repository id and its type. */
  datatype UserException = UserException(id: string, tc: TypeCode)

  /** Types of parameters, result and user exceptions of an operation, with what has been
      found out about them so far: -1 for nothing, 0 for no references, 1 for references. */
  class ArgList {
    const params: seq<Param>
    const resultType: TypeCode
    const exceptions: seq<UserException>
    var mustProxy: seq<int>
    var resultMustProxy: int
    var exceptionMustProxy: seq<int>
    var refcount: int

    constructor (params: seq<Param>, resultType: TypeCode, exceptions: seq<UserException>)
      ensures this.params == params && this.resultType == resultType && this.exceptions == exceptions
      ensures refcount == 1 && MemoOk()
      ensures Unknown(mustProxy) && resultMustProxy == -1 && Unknown(exceptionMustProxy)
    {
      this.params, this.resultType, this.exceptions, refcount := params, resultType, exceptions, 1;
      mustProxy, resultMustProxy, exceptionMustProxy := seq(|params|, _ => -1), -1, seq(|exceptions|, _ => -1);
    }

    ghost predicate MemoOk()
      reads this`mustProxy, this`resultMustProxy, this`exceptionMustProxy
    {
      && |mustProxy| == |params|
      && (forall k :: 0 <= k < |params| ==> Remembers(mustProxy[k], params[k].tc))
      && Remembers(resultMustProxy, resultType)
      && |exceptionMustProxy| == |exceptions|
      && (forall k :: 0 <= k < |exceptions| ==> Remembers(exceptionMustProxy[k], exceptions[k].tc))
    }

    /** Whether parameter `i` must be walked, found out once. */
    method MustProxy(i: nat) returns (must: bool)
      requires MemoOk() && i < |params|
      modifies this`mustProxy
      ensures MemoOk() && must == HasObjref(params[i].tc)
    {
      if mustProxy[i] == -1 {
        mustProxy := mustProxy[i := if HasObjref(params[i].tc) then 1 else 0];
      }
      must := mustProxy[i] != 0;
    }

    method ResultMustProxy() returns (must: bool)
      requires MemoOk()
      modifies this`resultMustProxy
      ensures MemoOk() && must == HasObjref(resultType)
    {
      if resultMustProxy == -1 {
        resultMustProxy := if HasObjref(resultType) then 1 else 0;
      }
      must := resultMustProxy != 0;
    }

    method ExceptionMustProxy(i: nat) returns (must: bool)
      requires MemoOk() && i < |exceptions|
      modifies this`exceptionMustProxy
      ensures MemoOk() && must == HasObjref(exceptions[i].tc)
    {
      if exceptionMustProxy[i] == -1 {
        exceptionMustProxy := exceptionMustProxy[i := if HasObjref(exceptions[i].tc) then 1 else 0];
      }
      must := exceptionMustProxy[i] != 0;
    }

    /** `find_exception` looks at all of them: the last one with the id counts. */
    method FindException(id: string) returns (found: Option<nat>)
      ensures found.None? <==> forall k :: 0 <= k < |exceptions| ==> exceptions[k].id != id
      ensures found.Some? ==> found.value < |exceptions| && exceptions[found.value].id == id
      ensures found.Some? ==> forall k :: found.value < k < |exceptions| ==> exceptions[k].id != id
    {
      found := None;
      for i := 0 to |exceptions|
        invariant found.None? <==> forall k :: 0 <= k < i ==> exceptions[k].id != id
        invariant found.Some? ==> found.value < i && exceptions[found.value].id == id
        invariant found.Some? ==> forall k :: found.value < k < i ==> exceptions[k].id != id
      {
        if exceptions[i].id == id { found := Some(i); }
      }
    }
  }

  ghost predicate Unknown(flags: seq<int>) {
    forall k :: 0 <= k < |flags| ==> flags[k] == -1
  }

  ghost predicate Remembers(flag: int, tc: TypeCode) {
    flag == -1 || flag == Flag(tc)
  }

  function Flag(tc: TypeCode): int { if HasObjref(tc) then 1 else 0 }

  /** Where a loop stands: `done` is behind it and `r` is what the rest will give. */
  function Resume<T>(done: seq<T>, changed: bool, r: Outcome<Rewritten<seq<T>>>): Outcome<Rewritten<seq<T>>> {
    if r.Fault? then Fault else Ok(Rewritten(r.value.chain, done + r.value.value, changed || r.value.changed))
  }

  lemma ResumeStart<T>(r: Outcome<Rewritten<seq<T>>>)
    ensures Resume([], false, r) == r
  {
    if r.Ok? { assert [] + r.value.value == r.value.value; }
  }

  lemma ResumeBehind(done: seq<NamedValue>, changed: bool, lead: seq<NamedValue>,
                     r: Outcome<Rewritten<seq<NamedValue>>>)
    ensures Resume(done, changed, Behind(lead, r)) == Resume(done + lead, changed, r)
  {
    if r.Ok? { assert done + (lead + r.value.value) == (done + lead) + r.value.value; }
  }

  lemma ResumeStep<T>(done: seq<T>, changed: bool, x: T, c: bool, r: Outcome<Rewritten<seq<T>>>)
    requires r.Ok?
    ensures Resume(done, changed, Ok(Rewritten(r.value.chain, [x] + r.value.value, c || r.value.changed)))
         == Resume(done + [x], changed || c, r)
  {
    assert done + ([x] + r.value.value) == (done + [x]) + r.value.value;
  }

  class Evaluator {
    const self: M.Self
    var chain: seq<M.Mapper>

    constructor (self: M.Self, chain: seq<M.Mapper>)
      ensures this.self == self && this.chain == chain
    {
      this.self, this.chain := self, chain;
    }

    method ProxifyValue(v: DynAny, outFacing: bool) returns (r: Outcome<(DynAny, bool)>)
      modifies this`chain
      ensures var p := Proxify(self, old(chain), v, outFacing);
        (r.Ok? <==> p.Ok?) && (r.Ok? ==> p.value == Rewritten(chain, r.value.0, r.value.1))
      decreases v, 1
    {
      match v {
        case BasicV(_, _) => return Ok((v, false));
        case EmptyUnionV(_) => return Ok((v, false));
        case ObjrefV(id, ref) =>
          var m := M.MapRef(self, chain, ref, outFacing);
          if m.Fault? { return Fault; }
          chain := m.value.chain;
          return Ok((ObjrefV(id, m.value.ref), m.value.changed));
        case StructV(isException, fields) =>
          var c := ProxifyComponents(fields, outFacing, true);
          if c.Fault? { return Fault; }
          return Ok((StructV(isException, c.value.0), c.value.1));
        case SequenceV(element, items) =>
          if !HasObjref(element) { return Ok((v, false)); }
          var c := ProxifyComponents(items, outFacing, false);
          if c.Fault? { return Fault; }
          return Ok((SequenceV(element, c.value.0), c.value.1));
        case ArrayV(element, _) =>
          return if HasObjref(element) then Fault else Ok((v, false));
        case UnionV(members, arm, content) =>
          if !HasObjref(TypeOf(content)) { return Ok((v, false)); }
          var c := ProxifyValue(content, outFacing);
          if c.Fault? { return Fault; }
          return Ok((UnionV(members, arm, c.value.0), c.value.1));
        case AnyV(content) =>
          if !HasObjref(TypeOf(content)) { return Ok((v, false)); }
          var c := ProxifyValue(content, outFacing);
          if c.Fault? { return Fault; }
          return Ok((AnyV(c.value.0), c.value.1));
        case AliasV(content) =>
          var c := ProxifyValue(content, outFacing);
          if c.Fault? { return Fault; }
          return Ok((AliasV(c.value.0), c.value.1));
      }
    }

    /** The loop over struct members (`pruned`) or sequence elements. */
    method ProxifyComponents(vs: seq<DynAny>, outFacing: bool, pruned: bool) returns (r: Outcome<(seq<DynAny>, bool)>)
      modifies this`chain
      ensures var p := ProxifyAll(self, old(chain), vs, outFacing, pruned);
        (r.Ok? <==> p.Ok?) && (r.Ok? ==> p.value == Rewritten(chain, r.value.0, r.value.1))
      decreases vs, 0
    {
      var done, changed := [], false;
      assert vs[0..] == vs;
      ResumeStart(ProxifyAll(self, chain, vs, outFacing, pruned));
      for i := 0 to |vs|
        invariant ProxifyAll(self, old(chain), vs, outFacing, pruned)
               == Resume(done, changed, ProxifyAll(self, chain, vs[i..], outFacing, pruned))
      {
        assert vs[i..][0] == vs[i] && vs[i..][1..] == vs[i + 1..];
        var x, c := vs[i], false;
        if !pruned || HasObjref(TypeOf(vs[i])) {
          var p := ProxifyValue(vs[i], outFacing);
          if p.Fault? { return Fault; }
          x, c := p.value.0, p.value.1;
        }
        ghost var rest := ProxifyAll(self, chain, vs[i + 1..], outFacing, pruned);
        if rest.Ok? { ResumeStep(done, changed, x, c, rest); }
        done, changed := done + [x], changed || c;
      }
      assert vs[|vs|..] == [] && done + [] == done;
      return Ok((done, changed));
    }

    method RewriteValue(v: DynAny, outFacing: bool) returns (r: Outcome<(DynAny, bool)>)
      modifies this`chain
      ensures var p := ProxifyAny(self, old(chain), v, outFacing);
        (r.Ok? <==> p.Ok?) && (r.Ok? ==> p.value == Rewritten(chain, r.value.0, r.value.1))
    {
      r := ProxifyValue(v, outFacing);
      if r.Ok? && !r.value.1 {
        r := Ok((v, false));
      }
    }

    /** The first entry from `n` on that is not of the excluded direction. */
    static method NextItem(items: seq<NamedValue>, n: nat, exclude: Mode) returns (m: nat)
      requires n <= |items|
      ensures n <= m <= |items| && (m < |items| ==> items[m].flags != exclude)
      ensures forall k :: 0 <= k < m - n ==> items[n..m][k].flags == exclude
    {
      m := n;
      while m < |items| && items[m].flags == exclude
        invariant n <= m <= |items| && forall k :: n <= k < m ==> items[k].flags == exclude
      {
        m := m + 1;
      }
    }

    method RewriteItem(item: NamedValue, list: ArgList, i: nat, outFacing: bool)
      returns (r: Outcome<(NamedValue, bool)>)
      requires list.MemoOk() && i < |list.params|
      modifies this`chain, list`mustProxy
      ensures list.MemoOk()
      ensures var p := RewriteAs(self, old(chain), list.params[i].tc, item.value, outFacing);
        (r.Ok? <==> p.Ok?)
        && (r.Ok? ==> chain == p.value.chain && r.value == (item.(value := p.value.value), p.value.changed))
    {
      var must := list.MustProxy(i);
      if !must { return Ok((item, false)); }
      var p := RewriteValue(item.value, outFacing);
      return if p.Fault? then Fault else Ok((item.(value := p.value.0), p.value.1));
    }

    /** Walks parameters and list together; what it learns about a parameter it remembers. */
    method ProxifyParams(items: seq<NamedValue>, list: ArgList, exclude: Mode, outFacing: bool)
      returns (r: Outcome<seq<NamedValue>>)
      requires list.MemoOk()
      modifies this`chain, list`mustProxy
      ensures list.MemoOk()
      ensures var p := Align(self, old(chain), list.params, items, exclude, outFacing);
        (r.Ok? <==> p.Ok?) && (r.Ok? ==> chain == p.value.chain && r.value == p.value.value)
    {
      var done, changed := [], false;
      var n := 0;
      assert list.params[0..] == list.params && items[0..] == items;
      ResumeStart(Align(self, chain, list.params, items, exclude, outFacing));
      for i := 0 to |list.params|
        invariant n <= |items| && list.MemoOk()
        invariant Align(self, old(chain), list.params, items, exclude, outFacing)
               == Resume(done, changed, Align(self, chain, list.params[i..], items[n..], exclude, outFacing))
      {
        ghost var params := list.params[i..];
        assert params[0] == list.params[i] && params[1..] == list.params[i + 1..];
        if list.params[i].mode == exclude { continue; }
        var m := NextItem(items, n, exclude);
        assert items[n..] == items[n..m] + items[m..];
        AlignSkips(self, chain, items[n..m], params, items[m..], exclude, outFacing);
        ResumeBehind(done, changed, items[n..m], Align(self, chain, params, items[m..], exclude, outFacing));
        done, n := done + items[n..m], m;
        if n == |items| { return Fault; }
        assert items[n..][0] == items[n] && items[n..][1..] == items[n + 1..];
        var p := RewriteItem(items[n], list, i, outFacing);
        if p.Fault? { return Fault; }
        ghost var rest := Align(self, chain, params[1..], items[n + 1..], exclude, outFacing);
        if rest.Ok? { ResumeStep(done, changed, p.value.0, p.value.1, rest); }
        done, changed, n := done + [p.value.0], changed || p.value.1, n + 1;
      }
      return Ok(done + items[n..]);
    }

    /** A result that is not there is dereferenced exactly when its type has references, so
        never when the operation returns nothing. */
    method ProxifyResult(result: Option<DynAny>, list: ArgList, outFacing: bool) returns (r: Outcome<Option<DynAny>>)
      requires list.MemoOk()
      modifies this`chain, list`resultMustProxy
      ensures list.MemoOk()
      ensures var p := RewriteResult(self, old(chain), list.resultType, result, outFacing);
        (r.Ok? <==> p.Ok?) && (r.Ok? ==> chain == p.value.chain && r.value == p.value.value)
    {
      var must := list.ResultMustProxy();
      if !must { return Ok(result); }
      if result.None? { return Fault; }
      var p := RewriteValue(result.value, outFacing);
      return if p.Fault? then Fault else Ok(Some(p.value.0));
    }

    /** The value of a user exception, rewritten as the type at `i` asks. */
    method ProxifyException(value: DynAny, list: ArgList, i: nat, outFacing: bool) returns (r: Outcome<DynAny>)
      requires list.MemoOk() && i < |list.exceptions|
      modifies this`chain, list`exceptionMustProxy
      ensures list.MemoOk()
      ensures var p := RewriteAs(self, old(chain), list.exceptions[i].tc, value, outFacing);
        (r.Ok? <==> p.Ok?) && (r.Ok? ==> chain == p.value.chain && r.value == p.value.value)
    {
      var must := list.ExceptionMustProxy(i);
      if !must { return Ok(value); }
      var p := RewriteValue(value, outFacing);
      return if p.Fault? then Fault else Ok(p.value.0);
    }

    /** `evaluate_exception`: nothing is sent on for an id that the operation does not list;
        for one it does, the value is decoded by the type listed last and rewritten in full. */
    method EvaluateException(id: string, decode: TypeCode -> DynAny, list: ArgList, outFacing: bool)
      returns (r: Outcome<Option<DynAny>>)
      requires list.MemoOk() && forall k :: 0 <= k < |list.exceptions| ==> Decodes(decode, list.exceptions[k].tc)
      modifies this`chain, list`exceptionMustProxy
      ensures list.MemoOk()
      ensures LastType(list.exceptions, id).None? ==> r == Ok(None) && chain == old(chain)
      ensures LastType(list.exceptions, id).Some? ==>
        var p := Proxify(self, old(chain), decode(LastType(list.exceptions, id).value), outFacing);
        (r.Ok? <==> p.Ok?) && (r.Ok? ==> chain == p.value.chain && r.value == Some(p.value.value))
    {
      var found := list.FindException(id);
      LastTypeIs(list.exceptions, id, found);
      if found.None? { return Ok(None); }
      var value := decode(list.exceptions[found.value].tc);
      RewriteAsIsProxify(self, chain, value, outFacing);
      var p := ProxifyException(value, list, found.value, outFacing);
      return if p.Fault? then Fault else Ok(Some(p.value));
    }
  }

  /** What comes off the wire as a value of a type is one. */
  ghost predicate Decodes(decode: TypeCode -> DynAny, tc: TypeCode) {
    WellTyped(decode(tc)) && TypeOf(decode(tc)) == tc
  }

  /** The type of the last user exception with an id. */
  function LastType(exceptions: seq<UserException>, id: string): Option<TypeCode> {
    if exceptions == [] then None
    else if exceptions[|exceptions| - 1].id == id then Some(exceptions[|exceptions| - 1].tc)
    else LastType(exceptions[..|exceptions| - 1], id)
  }

  lemma {:induction false} LastTypeIs(exceptions: seq<UserException>, id: string, found: Option<nat>)
    requires found.None? <==> forall k :: 0 <= k < |exceptions| ==> exceptions[k].id != id
    requires found.Some? ==> found.value < |exceptions| && exceptions[found.value].id == id
    requires found.Some? ==> forall k :: found.value < k < |exceptions| ==> exceptions[k].id != id
    ensures LastType(exceptions, id) == if found.None? then None else Some(exceptions[found.value].tc)
  {
    if exceptions != [] && exceptions[|exceptions| - 1].id != id {
      LastTypeIs(exceptions[..|exceptions| - 1], id, found);
    }
  }

  // ---- sides ----

  /** The two POAs of the mapper that received a request. */
  datatype Poa = InFacing | OutFacing

  function OtherPoa(p: Poa): Poa { if p == InFacing then OutFacing else InFacing }

  /** `mapped_for_native` maps for the outside when it is given the inside POA. */
  function WantsOut(p: Poa): bool { p == InFacing }

  /** What each caller of `mapped_for_native` gives it for a request received on `p`. */
  datatype Event = RequestArgument | ReplyValue | LocationForward | UserExceptionValue

  function PoaPassed(event: Event, p: Poa): Poa {
    match event
    case RequestArgument => p
    case ReplyValue => OtherPoa(p)
    case LocationForward => OtherPoa(p)
    case UserExceptionValue => p
  }

  /** A reference newly mapped for a request lives on the other POA; one for a reply or a
      forward lives on the POA the request came in on. One inside a user exception travels
      with the reply and lives on the other POA all the same. */
  lemma SideOfNewReference(self: M.Self, chain: seq<M.Mapper>, native: ObjRef, event: Event, p: Poa)
    returns (index: nat)
    requires M.ChainOk(self, chain) && M.Room(chain, 1) && native.Ref? && M.Native(self, native)
    requires M.Pick(chain, native.typeId) < |chain|
    ensures var outFacing := WantsOut(PoaPassed(event, p));
      var home := if event.ReplyValue? || event.LocationForward? then p else OtherPoa(p);
      var m := chain[M.Pick(chain, native.typeId)];
      && M.MapRef(self, chain, native, outFacing).Ok? && index < UINT32
      && M.MapRef(self, chain, native, outFacing).value.ref
           == Ref(self.host, native.typeId, (if home == OutFacing then m.keys.outward else m.keys.inward)
                                            + Id.MakeId(self.me, home == OutFacing, index))
  {
    var outFacing := WantsOut(PoaPassed(event, p));
    index := M.NativeGetsEntry(self, chain, native, outFacing);
  }

  /** An argument that the server hands back in its reply reaches the client as the client
      sent it. Handed back in a user exception it does so exactly when no reference in it is
      handled by a mapper; those that are stay mapped. */
  lemma {:induction false} EchoedArgument(self: M.Self, chain: seq<M.Mapper>, v: DynAny, p: Poa,
                                          later: seq<M.Mapper>, event: Event)
    requires WellTyped(v) && !HasRefArray(v) && forall r :: r in Refs(v) ==> M.Native(self, r)
    requires M.ChainOk(self, chain) && M.Room(chain, |Refs(v)|) && M.ChainOk(self, later)
    requires event.ReplyValue? || event.UserExceptionValue?
    requires var r := Proxify(self, chain, v, WantsOut(PoaPassed(RequestArgument, p)));
      r.Ok? ==> M.Extends(r.value.chain, later)
    ensures Proxify(self, chain, v, WantsOut(PoaPassed(RequestArgument, p))).Ok?
    ensures var sent := Proxify(self, chain, v, WantsOut(PoaPassed(RequestArgument, p))).value;
      var back := if event.ReplyValue? then v else sent.value;
      && Proxify(self, later, sent.value, WantsOut(PoaPassed(event, p))) == Ok(Rewritten(later, back, sent.changed))
      && (back == v <==> event.ReplyValue? || forall r :: r in Refs(v) ==> !M.Handled(chain, r))
  {
    var outFacing := WantsOut(PoaPassed(RequestArgument, p));
    ProxifyExact(self, chain, v, outFacing);
    RoundTrip(self, chain, v, outFacing, later, WantsOut(PoaPassed(event, p)));
    SameIff(self, chain, v, outFacing);
  }

  /** The rewriting of a value of native references gives the value itself exactly when no
      reference in it is handled. */
  lemma {:induction false} SameIff(self: M.Self, chain: seq<M.Mapper>, v: DynAny, outFacing: bool)
    requires WellTyped(v) && !HasRefArray(v) && forall r :: r in Refs(v) ==> M.Native(self, r)
    requires M.ChainOk(self, chain) && M.Room(chain, |Refs(v)|)
    ensures Proxify(self, chain, v, outFacing).Ok?
    ensures Proxify(self, chain, v, outFacing).value.value == v <==> forall r :: r in Refs(v) ==> !M.Handled(chain, r)
  {
    ProxifyExact(self, chain, v, outFacing);
    M.AllChangeIff(self, chain, Refs(v), outFacing);
    if Refs(Proxify(self, chain, v, outFacing).value.value) == Refs(v) {
      ShapeAndRefs(Proxify(self, chain, v, outFacing).value.value, v);
    }
  }

  /** One reference, one mapper for all types: echoed in a user exception it is not the
      reference that was sent. */
  lemma EchoedInException() returns (self: M.Self, chain: seq<M.Mapper>, v: DynAny, later: seq<M.Mapper>)
    ensures WellTyped(v) && !HasRefArray(v) && forall r :: r in Refs(v) ==> M.Native(self, r)
    ensures M.ChainOk(self, chain) && M.Room(chain, |Refs(v)|) && M.ChainOk(self, later)
    ensures var sent := Proxify(self, chain, v, WantsOut(PoaPassed(RequestArgument, InFacing)));
      && sent.Ok? && sent.value.chain == later
      && var back := Proxify(self, later, sent.value.value, WantsOut(PoaPassed(UserExceptionValue, InFacing)));
      back.Ok? && back.value.value != v
  {
    self := M.Self(Id.Identity(0, 0, true), "proxy");
    chain := [M.Mapper(M.NullMapper([]), M.Keys([], []), T.Init(1))];
    var ref := Ref("server", "IDL:Account:1.0", []);
    v := ObjrefV("IDL:Account:1.0", ref);
    T.InitWellFormed<M.Entry>(1);
    assert M.Handled(chain, ref) && Refs(v) == [ref];
    ProxifyExact(self, chain, v, true);
    SameIff(self, chain, v, true);
    later := Proxify(self, chain, v, true).value.chain;
    M.MapAllKeeps(self, chain, Refs(v), true);
    M.ExtendsItself(later);
    EchoedArgument(self, chain, v, InFacing, later, UserExceptionValue);
  }
}
