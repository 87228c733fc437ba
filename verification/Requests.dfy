/** The generic evaluator over its operation table: a request looks its operation up, or adds
    the interface first, and rewrites the arguments; the reply looks it up again. */
module Requests {
  import opened Prelude
  import opened Rewriting
  import opened Evaluation
  import O = OperationTable
  import M = Mapping

  /** What the wire gives for the parameters of an operation: a value for each. */
  ghost predicate OneEach(decode: seq<Param> -> seq<DynAny>) {
    forall params :: |decode(params)| == |params|
  }

  /** The lookup of an operation in a table. */
  ghost function Listed(history: seq<O.Made>, op: string, id: string): Option<ArgList> {
    O.Lookup(O.RowsOf(history), op, id)
  }

  /** The operation was in the table before, or its first declaration in the interface and its
      direct bases is the only one of its kind. */
  ghost predicate Definite(history: seq<O.Made>, levels: seq<O.Interface>, op: string)
    requires levels != []
  {
    var ds := O.Decls(levels, |levels|);
    Listed(history, op, levels[0].id).Some? || (O.Occurs(ds, op) > 0 && O.Straight(ds, op))
  }

  /** What an evaluator learns about a list of the table leaves the table valid. */
  method RewriteParams(t: O.OperationTable, ev: Evaluator, list: ArgList, items: seq<NamedValue>, exclude: Mode,
                       outFacing: bool)
    returns (r: Outcome<seq<NamedValue>>)
    requires t.Valid() && list in t.Lists()
    modifies list`mustProxy, ev`chain
    ensures t.Valid()
    ensures var p := Align(ev.self, old(ev.chain), list.params, items, exclude, outFacing);
      (r.Ok? <==> p.Ok?) && (r.Ok? ==> ev.chain == p.value.chain && r.value == p.value.value)
  {
    t.ListIsSound(list);
    r := ev.ProxifyParams(items, list, exclude, outFacing);
    t.MemoKeeps(list);
  }

  method RewriteResult(t: O.OperationTable, ev: Evaluator, list: ArgList, result: Option<DynAny>, outFacing: bool)
    returns (r: Outcome<Option<DynAny>>)
    requires t.Valid() && list in t.Lists()
    modifies list`resultMustProxy, ev`chain
    ensures t.Valid()
    ensures var p := Evaluation.RewriteResult(ev.self, old(ev.chain), list.resultType, result, outFacing);
      (r.Ok? <==> p.Ok?) && (r.Ok? ==> ev.chain == p.value.chain && r.value == p.value.value)
  {
    t.ListIsSound(list);
    r := ev.ProxifyResult(result, list, outFacing);
    t.MemoKeeps(list);
  }

  /** The arguments of a request, each rewritten as its own parameter says. An operation that
      is in no list dereferences a null list. */
  method EvaluateRequest(t: O.OperationTable, ev: Evaluator, levels: seq<O.Interface>, op: string,
                         decode: seq<Param> -> seq<DynAny>, outFacing: bool)
    returns (r: Outcome<seq<NamedValue>>, list: ArgList?)
    requires t.Valid() && levels != [] && OneEach(decode)
    modifies t, t.nodes, t.Lists(), ev`chain
    ensures t.Valid() && fresh(t.nodes - old(t.nodes)) && fresh(t.Lists() - old(t.Lists()))
    ensures Definite(old(t.history), levels, op) ==>
      list != null && Listed(t.history, op, levels[0].id) == Some(list)
    ensures Listed(old(t.history), op, levels[0].id).None? && O.Sole(O.Decls(levels, |levels|), op) ==>
      list != null && O.SignedAs(levels, op, list)
    ensures list == null ==> r.Fault?
    ensures list != null ==>
      var s := RewriteArgs(ev.self, old(ev.chain), list.params, decode(list.params), ArgOut, outFacing);
      (r.Ok? <==> s.Ok?) && (r.Ok? ==> ev.chain == s.value.chain && r.value == Full(list.params, s.value.value))
  {
    list := t.ListBeforeReply(levels, op);
    if list == null { return Fault, list; }
    var values := decode(list.params);
    AlignFull(ev.self, ev.chain, list.params, values, ArgOut, outFacing);
    r := RewriteParams(t, ev, list, Full(list.params, values), ArgOut, outFacing);
  }

  datatype Reply = Reply(result: Option<DynAny>, items: seq<NamedValue>)

  /** The reply: its result first, then its INOUT and OUT values. */
  method EvaluateReply(t: O.OperationTable, ev: Evaluator, id: string, op: string, reply: Reply, outFacing: bool)
    returns (r: Outcome<Reply>)
    requires t.Valid()
    modifies t`history, t.Lists(), ev`chain
    ensures t.Valid() && t.Lists() == old(t.Lists())
    ensures var found := Listed(old(t.history), op, id);
      if found.None? then r.Fault? else
      var p := ReplySpec(ev.self, old(ev.chain), found.value, reply, outFacing);
      (r.Ok? <==> p.Ok?) && (r.Ok? ==> p.value == Rewritten(ev.chain, r.value, p.value.changed))
    ensures var found := Listed(old(t.history), op, id);
      found.Some? && Fits(reply.result, found.value.resultType) ==>
        ReplySpec(ev.self, old(ev.chain), found.value, reply, outFacing)
        == Replied(ev.self, old(ev.chain), found.value.params, reply, outFacing)
  {
    var list := t.ListForReply(op, id);
    if list == null { return Fault; }
    t.FoundIsListed(op, id);
    if Fits(reply.result, list.resultType) { RepliedInFull(ev.self, ev.chain, list, reply, outFacing); }
    var result := RewriteResult(t, ev, list, reply.result, outFacing);
    if result.Fault? { return Fault; }
    var items := RewriteParams(t, ev, list, reply.items, ArgIn, outFacing);
    return if items.Fault? then Fault else Ok(Reply(result.value, items.value));
  }

  function ReplySpec(self: M.Self, chain: seq<M.Mapper>, list: ArgList, reply: Reply, outFacing: bool)
    : Outcome<Rewritten<Reply>>
  {
    var result :- Evaluation.RewriteResult(self, chain, list.resultType, reply.result, outFacing);
    var items :- Align(self, result.chain, list.params, reply.items, ArgIn, outFacing);
    Ok(Rewritten(items.chain, Reply(result.value, items.value), result.changed || items.changed))
  }

  /** A result that exists is of its type, and none is there only if none is returned. */
  ghost predicate Fits(result: Option<DynAny>, tc: TypeCode) {
    if result.None? then tc.Void? else WellTyped(result.value) && TypeOf(result.value) == tc
  }

  /** The server's own result, rewritten in full, and then the values of the parameters. */
  function Replied(self: M.Self, chain: seq<M.Mapper>, params: seq<Param>, reply: Reply, outFacing: bool)
    : Outcome<Rewritten<Reply>>
  {
    var result :- if reply.result.None? then Ok(Rewritten(chain, None, false))
                  else Existing(Proxify(self, chain, reply.result.value, outFacing));
    var items :- Align(self, result.chain, params, reply.items, ArgIn, outFacing);
    Ok(Rewritten(items.chain, Reply(result.value, items.value), result.changed || items.changed))
  }

  lemma RepliedInFull(self: M.Self, chain: seq<M.Mapper>, list: ArgList, reply: Reply, outFacing: bool)
    requires Fits(reply.result, list.resultType)
    ensures ReplySpec(self, chain, list, reply, outFacing) == Replied(self, chain, list.params, reply, outFacing)
  {
    ResultExact(self, chain, if reply.result.None? then EmptyUnionV([]) else reply.result.value, Void, outFacing);
  }

  /** A user exception is rewritten in full by the type that its list gives last for its id. */
  method EvaluateException(t: O.OperationTable, ev: Evaluator, id: string, op: string, exception: string,
                           decode: TypeCode -> DynAny, outFacing: bool)
    returns (r: Outcome<Option<DynAny>>)
    requires t.Valid() && forall tc :: Decodes(decode, tc)
    modifies t`history, t.Lists(), ev`chain
    ensures t.Valid() && t.Lists() == old(t.Lists())
    ensures var found := Listed(old(t.history), op, id);
      if found.None? then r.Fault? else
      var tc := LastType(found.value.exceptions, exception);
      if tc.None? then r == Ok(None) else
      var p := Proxify(ev.self, old(ev.chain), decode(tc.value), outFacing);
      (r.Ok? <==> p.Ok?) && (r.Ok? ==> ev.chain == p.value.chain && r.value == Some(p.value.value))
  {
    var list := t.ListForReply(op, id);
    if list == null { return Fault; }
    t.FoundIsListed(op, id);
    t.ListIsSound(list);
    label before:
    r := ev.EvaluateException(exception, decode, list, outFacing);
    t.MemoKeeps@before(list);
  }

  /** What the server answers to an operation: a value for each parameter, and a result unless
      there is none to give. */
  datatype Answer = Answer(values: seq<Param> -> seq<DynAny>, result: TypeCode -> DynAny)

  function ReplyFor(answer: Answer, list: ArgList): Reply
    requires |answer.values(list.params)| == |list.params|
  {
    Reply(if list.resultType.Void? then None else Some(answer.result(list.resultType)),
          Without(Full(list.params, answer.values(list.params)), ArgIn))
  }

  /** The server's result rewritten in full, and each INOUT and OUT value by its own type. */
  function RewriteReply(self: M.Self, chain: seq<M.Mapper>, list: ArgList, answer: Answer, outFacing: bool)
    : Outcome<Rewritten<Reply>>
    requires |answer.values(list.params)| == |list.params|
  {
    var result :- if list.resultType.Void? then Ok(Rewritten(chain, None, false))
                  else Existing(Proxify(self, chain, answer.result(list.resultType), outFacing));
    var s :- RewriteArgs(self, result.chain, list.params, answer.values(list.params), ArgIn, outFacing);
    Ok(Rewritten(s.chain, Reply(result.value, Without(Full(list.params, s.value), ArgIn)), result.changed || s.changed))
  }

  lemma ReplyIsAligned(self: M.Self, chain: seq<M.Mapper>, list: ArgList, answer: Answer, outFacing: bool)
    requires |answer.values(list.params)| == |list.params| && Decodes(answer.result, list.resultType)
    ensures ReplySpec(self, chain, list, ReplyFor(answer, list), outFacing)
         == RewriteReply(self, chain, list, answer, outFacing)
  {
    RepliedInFull(self, chain, list, ReplyFor(answer, list), outFacing);
    var result := if list.resultType.Void? then Ok(Rewritten(chain, None, false))
                  else Existing(Proxify(self, chain, answer.result(list.resultType), outFacing));
    if result.Ok? {
      AlignCut(self, result.value.chain, list.params, answer.values(list.params), ArgIn, outFacing);
    }
  }

  /** By the types of one list: the arguments `sent` to the server, then its answer sent `back`. */
  ghost predicate Served(self: M.Self, chain: seq<M.Mapper>, list: ArgList, decode: seq<Param> -> seq<DynAny>,
                         answer: Answer, p: Poa, sent: Outcome<seq<NamedValue>>, back: Outcome<Reply>,
                         after: seq<M.Mapper>)
    requires OneEach(decode) && OneEach(answer.values)
  {
    var there, here := WantsOut(PoaPassed(RequestArgument, p)), WantsOut(PoaPassed(ReplyValue, p));
    var s := RewriteArgs(self, chain, list.params, decode(list.params), ArgOut, there);
    if s.Fault? then sent.Fault? else
    var r := RewriteReply(self, s.value.chain, list, answer, here);
    && sent == Ok(Full(list.params, s.value.value))
    && if r.Fault? then back.Fault? else back == Ok(r.value.value) && after == r.value.chain
  }

  /** A request received on POA `p` and the server's answer to it. If the operation is
      definite, both are rewritten by one list: every argument by its own parameter for the
      other side, then every value that comes back by its own parameter for this side. */
  method Serve(t: O.OperationTable, ev: Evaluator, levels: seq<O.Interface>, op: string,
               decode: seq<Param> -> seq<DynAny>, answer: Answer, p: Poa)
    returns (sent: Outcome<seq<NamedValue>>, back: Outcome<Reply>, list: ArgList?)
    requires t.Valid() && levels != [] && OneEach(decode) && OneEach(answer.values)
    requires forall tc :: Decodes(answer.result, tc)
    modifies t, t.nodes, t.Lists(), ev`chain
    ensures t.Valid() && fresh(t.nodes - old(t.nodes)) && fresh(t.Lists() - old(t.Lists()))
    ensures Listed(old(t.history), op, levels[0].id).None? && O.Sole(O.Decls(levels, |levels|), op) ==>
      list != null && O.SignedAs(levels, op, list)
    ensures Definite(old(t.history), levels, op) ==>
      list != null && Served(ev.self, old(ev.chain), list, decode, answer, p, sent, back, ev.chain)
  {
    sent, list := EvaluateRequest(t, ev, levels, op, decode, WantsOut(PoaPassed(RequestArgument, p)));
    if sent.Fault? { return sent, Fault, list; }
    ReplyIsAligned(ev.self, ev.chain, list, answer, WantsOut(PoaPassed(ReplyValue, p)));
    back := EvaluateReply(t, ev, levels[0].id, op, ReplyFor(answer, list), WantsOut(PoaPassed(ReplyValue, p)));
  }
}
