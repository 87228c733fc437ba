/** How the chain of mappers comes about, and the evaluators that the generic mapper makes on
    demand. */
module Registration {
  import opened Prelude
  import M = Mapping

  datatype Registry = Registry(
    mappers: seq<M.Handler>, generic: Option<M.Handler>, nullTypes: Option<seq<string>>, ready: bool)

  datatype Call =
    | AddProxyMapper(mapper: M.Handler)
    | SetGenericMapper(mapper: M.Handler)
    | AddNullMapperType(typeId: string)
    | CreateDefaultNullMapper
    | InitMappers

  function Fresh(): Registry { Registry([], None, None, false) }

  function Listed<T>(o: Option<T>): seq<T> { if o.None? then [] else [o.value] }

  function NullHandlers(types: Option<seq<string>>): seq<M.Handler> {
    if types.None? then [] else [M.NullMapper(types.value)]
  }

  function Step(r: Registry, call: Call): Registry {
    match call
    case AddProxyMapper(m) => if r.ready then r else r.(mappers := r.mappers + [m])
    case SetGenericMapper(m) => if r.ready then r else r.(generic := Some(m))
    case AddNullMapperType(id) =>          // not stopped by `ready`
      r.(nullTypes := Some((if r.nullTypes.Some? then r.nullTypes.value else []) + [id]))
    case CreateDefaultNullMapper => if r.ready || r.nullTypes.Some? then r else r.(nullTypes := Some([]))
    case InitMappers =>
      if r.ready then r
      else Registry(r.mappers + Listed(r.generic) + NullHandlers(r.nullTypes), None, None, true)
  }

  function Run(r: Registry, calls: seq<Call>): Registry {
    if calls == [] then r else Step(Run(r, calls[..|calls| - 1]), calls[|calls| - 1])
  }

  /** The registry object: `mappers_` and the two kept apart until the end. */
  class MapperRegistry {
    var mappers: seq<M.Handler>
    var generic: Option<M.Handler>
    var nullTypes: Option<seq<string>>
    var ready: bool
    ghost var calls: seq<Call>         // all calls so far

    /** The fields are what the calls so far amount to. */
    ghost predicate Valid()
      reads this
    {
      Registry(mappers, generic, nullTypes, ready) == Run(Fresh(), calls)
    }

    constructor ()
      ensures Valid() && calls == []
    {
      mappers, generic, nullTypes, ready, calls := [], None, None, false, [];
    }

    ghost method Called(call: Call)
      requires Registry(mappers, generic, nullTypes, ready) == Step(Run(Fresh(), calls), call)
      modifies this`calls
      ensures Valid() && calls == old(calls) + [call]
    {
      calls := calls + [call];
      assert calls[..|calls| - 1] == old(calls);
    }

    method AddProxyMapper(m: M.Handler)
      requires Valid()
      modifies this
      ensures Valid() && calls == old(calls) + [Call.AddProxyMapper(m)]
    {
      if !ready { mappers := mappers + [m]; }
      Called(Call.AddProxyMapper(m));
    }

    method SetGenericMapper(m: M.Handler)
      requires Valid()
      modifies this
      ensures Valid() && calls == old(calls) + [Call.SetGenericMapper(m)]
    {
      if !ready { generic := Some(m); }
      Called(Call.SetGenericMapper(m));
    }

    method AddNullMapperType(id: string)
      requires Valid()
      modifies this
      ensures Valid() && calls == old(calls) + [Call.AddNullMapperType(id)]
    {
      if nullTypes.None? { nullTypes := Some([]); }
      nullTypes := Some(nullTypes.value + [id]);
      Called(Call.AddNullMapperType(id));
    }

    method CreateDefaultNullMapper()
      requires Valid()
      modifies this
      ensures Valid() && calls == old(calls) + [Call.CreateDefaultNullMapper]
    {
      if !ready && nullTypes.None? { nullTypes := Some([]); }
      Called(Call.CreateDefaultNullMapper);
    }

    /** After any calls the chain is the added mappers in order, the last generic one and the
        null one with all its types. */
    method InitMappers()
      requires Valid()
      modifies this
      ensures Valid() && calls == old(calls) + [Call.InitMappers] && ready
      ensures (forall k :: 0 <= k < |old(calls)| ==> !old(calls)[k].InitMappers?) ==> mappers == ChainOf(old(calls))
    {
      if !ready {
        if generic.Some? {
          mappers := mappers + [generic.value];
          generic := None;
        }
        if nullTypes.Some? {
          mappers := mappers + [M.NullMapper(nullTypes.value)];
          nullTypes := None;
        }
        ready := true;
      }
      Called(Call.InitMappers);
      ChainNow(old(calls));
    }
  }

  /** The null mapper: without a list it takes every type. */
  class NullProxyMapper {
    var typeIds: seq<string>

    constructor ()
      ensures typeIds == []
    {
      typeIds := [];
    }

    method AddTypeId(id: string)
      modifies this
      ensures typeIds == old(typeIds) + [id]
    {
      typeIds := typeIds + [id];
    }

    method Takes(id: string) returns (taken: bool)
      ensures taken <==> typeIds == [] || exists k :: 0 <= k < |typeIds| && typeIds[k] == id
      ensures taken <==> M.Handles(M.NullMapper(typeIds), id)
    {
      if |typeIds| == 0 { return true; }
      for k := 0 to |typeIds|
        invariant forall j :: 0 <= j < k ==> typeIds[j] != id
      {
        if typeIds[k] == id { return true; }
      }
      return false;
    }
  }

  // ---- what the calls amount to ----

  function Added(calls: seq<Call>): seq<M.Handler> {
    if calls == [] then [] else
    var last := calls[|calls| - 1];
    Added(calls[..|calls| - 1]) + if last.AddProxyMapper? then [last.mapper] else []
  }

  function LastGeneric(calls: seq<Call>): Option<M.Handler> {
    if calls == [] then None else
    var last := calls[|calls| - 1];
    if last.SetGenericMapper? then Some(last.mapper) else LastGeneric(calls[..|calls| - 1])
  }

  predicate WantsNull(calls: seq<Call>) {
    calls != [] && (calls[|calls| - 1].AddNullMapperType? || calls[|calls| - 1].CreateDefaultNullMapper?
                    || WantsNull(calls[..|calls| - 1]))
  }

  function NullTypes(calls: seq<Call>): seq<string> {
    if calls == [] then [] else
    var last := calls[|calls| - 1];
    NullTypes(calls[..|calls| - 1]) + if last.AddNullMapperType? then [last.typeId] else []
  }

  /** The added mappers in order, then the last generic one, then the null one. */
  function ChainOf(calls: seq<Call>): seq<M.Handler> {
    Added(calls) + Listed(LastGeneric(calls)) + if WantsNull(calls) then [M.NullMapper(NullTypes(calls))] else []
  }

  lemma {:induction false} BeforeInit(calls: seq<Call>)
    requires forall k :: 0 <= k < |calls| ==> !calls[k].InitMappers?
    ensures Run(Fresh(), calls)
         == Registry(Added(calls), LastGeneric(calls), if WantsNull(calls) then Some(NullTypes(calls)) else None, false)
    ensures !WantsNull(calls) ==> NullTypes(calls) == []
  {
    if calls != [] {
      var before := calls[..|calls| - 1];
      BeforeInit(before);
      assert Added(before) + [] == Added(before) && NullTypes(before) + [] == NullTypes(before);
    }
  }

  /** Whatever the order of the calls, the chain is the added mappers in order, then the last
      generic one, then the null one with all its types; calls that come later, null types
      among them, do not change it. */
  lemma {:induction false} ChainAfterInit(calls: seq<Call>, later: seq<Call>)
    requires forall k :: 0 <= k < |calls| ==> !calls[k].InitMappers?
    ensures Run(Fresh(), calls + [InitMappers] + later).ready
    ensures Run(Fresh(), calls + [InitMappers] + later).mappers == ChainOf(calls)
    decreases |later|
  {
    var all := calls + [InitMappers] + later;
    if later == [] {
      assert all[..|all| - 1] == calls;
      BeforeInit(calls);
    } else {
      assert all[..|all| - 1] == calls + [InitMappers] + later[..|later| - 1];
      ChainAfterInit(calls, later[..|later| - 1]);
    }
  }

  /** Who maps a type when the chain is ready: the first added mapper that has an evaluator
      for it, or else the generic one if the repository knows the type, or else the null one
      if it lists the type or lists nothing, or else nobody. */
  lemma {:induction false} WhoMaps(calls: seq<Call>, chain: seq<M.Mapper>, typeId: string)
    requires |chain| == |ChainOf(calls)|
    requires forall k :: 0 <= k < |chain| ==> chain[k].handler == ChainOf(calls)[k]
    ensures var k := M.Pick(chain, typeId); var n := |Added(calls)|; var generic := LastGeneric(calls);
      var g := if generic.Some? then 1 else 0;
      if exists j :: 0 <= j < n && M.Handles(Added(calls)[j], typeId) then
        && k < n && M.Handles(Added(calls)[k], typeId)
        && forall j :: 0 <= j < k ==> !M.Handles(Added(calls)[j], typeId)
      else if generic.Some? && M.Handles(generic.value, typeId) then k == n
      else if WantsNull(calls) && (NullTypes(calls) == [] || typeId in NullTypes(calls)) then k == n + g
      else k == |chain|
  {
    var k, n := M.Pick(chain, typeId), |Added(calls)|;
    assert forall j :: 0 <= j < n ==> ChainOf(calls)[j] == Added(calls)[j];
    if generic: M.Handler :| LastGeneric(calls) == Some(generic) {
      assert chain[n].handler == generic;
    }
    if WantsNull(calls) {
      assert chain[|chain| - 1].handler == M.NullMapper(NullTypes(calls));
    }
  }

  lemma {:induction false} ChainNow(calls: seq<Call>)
    ensures (forall k :: 0 <= k < |calls| ==> !calls[k].InitMappers?) ==>
      Run(Fresh(), calls + [InitMappers]).mappers == ChainOf(calls)
  {
    if forall k :: 0 <= k < |calls| ==> !calls[k].InitMappers? {
      ChainAfterInit(calls, []);
      assert calls + [InitMappers] + [] == calls + [InitMappers];
    }
  }

  // ---- evaluators on demand ----

  /** The generic mapper's list of evaluators, by type; `known` is the repository's answer. */
  function EvaluatorFor(evaluators: seq<string>, typeId: string, known: bool): (r: (seq<string>, bool)) {
    if typeId in evaluators then (evaluators, true)
    else if known then (evaluators + [typeId], true)
    else (evaluators, false)
  }

  ghost predicate NoTypeTwice(evaluators: seq<string>) {
    forall j, k :: 0 <= j < k < |evaluators| ==> evaluators[j] != evaluators[k]
  }

  class GenericMapper {
    var evaluators: seq<string>
    ghost var questions: seq<Question>     // all that was asked so far

    ghost predicate Valid()
      reads this
    {
      evaluators == Asked(questions)
    }

    constructor ()
      ensures Valid() && questions == []
    {
      evaluators, questions := [], [];
    }

    method FindEvaluator(typeId: string) returns (found: bool)
      ensures found <==> typeId in evaluators
    {
      for k := 0 to |evaluators|
        invariant typeId !in evaluators[..k]
      {
        if evaluators[k] == typeId { return true; }
      }
      return false;
    }

    /** Whatever was asked before: an evaluator is there afterwards exactly if one is found,
        none goes away, and no type has two. */
    method Evaluator(typeId: string, known: bool) returns (found: bool)
      requires Valid()
      modifies this
      ensures Valid() && questions == old(questions) + [Question(typeId, known)]
      ensures (found <==> typeId in evaluators) && (known ==> found)
      ensures old(evaluators) <= evaluators && NoTypeTwice(evaluators)
    {
      found := FindEvaluator(typeId);
      if !found && known {
        evaluators, found := evaluators + [typeId], true;
      }
      questions := questions + [Question(typeId, known)];
      assert questions[..|questions| - 1] == old(questions);
      OneEvaluatorPerType(questions);
    }
  }

  datatype Question = Question(typeId: string, known: bool)

  function Asked(questions: seq<Question>): seq<string> {
    if questions == [] then [] else
    var last := questions[|questions| - 1];
    EvaluatorFor(Asked(questions[..|questions| - 1]), last.typeId, last.known).0
  }

  /** No type ever gets two evaluators, even if the repository changes its answers; if it
      does not, the mapper answers as the repository does. */
  lemma {:induction false} OneEvaluatorPerType(questions: seq<Question>)
    ensures NoTypeTwice(Asked(questions))
    ensures forall known: set<string>, typeId: string ::
      (forall k :: 0 <= k < |questions| ==> (questions[k].known <==> questions[k].typeId in known)) ==>
      (EvaluatorFor(Asked(questions), typeId, typeId in known).1 <==> M.Handles(M.Generic(known), typeId))
  {
    if questions != [] { OneEvaluatorPerType(questions[..|questions| - 1]); }
    forall known: set<string>, typeId: string
      | forall k :: 0 <= k < |questions| ==> (questions[k].known <==> questions[k].typeId in known)
      ensures EvaluatorFor(Asked(questions), typeId, typeId in known).1 <==> typeId in known
    {
      OnlyKnown(questions, known);
    }
  }

  lemma {:induction false} OnlyKnown(questions: seq<Question>, known: set<string>)
    requires forall k :: 0 <= k < |questions| ==> (questions[k].known <==> questions[k].typeId in known)
    ensures forall t :: t in Asked(questions) ==> t in known
  {
    if questions != [] { OnlyKnown(questions[..|questions| - 1], known); }
  }
}
