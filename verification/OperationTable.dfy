/** The table of operations: a search tree by operation name, each node with a list of
    argument lists by repository id, the first match counting. The tree is read as a log of
    the rows appended to it. */
module OperationTable {
  import opened Prelude
  import opened Rewriting
  import opened Evaluation

  // ---- the log ----

  /** `args` answers to operation `op` of the interface `id`. */
  datatype Row = Row(op: string, id: string, args: ArgList)

  function AsOption(args: ArgList?): Option<ArgList> {
    if args == null then None else Some(args)
  }

  datatype OpArgs = OpArgs(id: string, args: ArgList)

  /** The first row for an operation of an interface. */
  function Lookup(log: seq<Row>, op: string, id: string): Option<ArgList> {
    if log == [] then None
    else if log[0].op == op && log[0].id == id then Some(log[0].args)
    else Lookup(log[1..], op, id)
  }

  /** The rows for one operation, as its node lists them. */
  function Project(log: seq<Row>, op: string): seq<OpArgs> {
    if log == [] then []
    else (if log[0].op == op then [OpArgs(log[0].id, log[0].args)] else []) + Project(log[1..], op)
  }

  function FirstIn(list: seq<OpArgs>, id: string): Option<ArgList> {
    if list == [] then None else if list[0].id == id then Some(list[0].args) else FirstIn(list[1..], id)
  }

  /** How many rows share an argument list. */
  ghost function Rows(log: seq<Row>, args: ArgList): nat {
    if log == [] then 0 else (if log[0].args == args then 1 else 0) + Rows(log[1..], args)
  }

  lemma {:induction false} LookupInNode(log: seq<Row>, op: string, id: string)
    ensures FirstIn(Project(log, op), id) == Lookup(log, op, id)
  {
    if log != [] {
      LookupInNode(log[1..], op, id);
      if log[0].op == op {
        assert Project(log, op)[1..] == Project(log[1..], op);
      } else {
        assert Project(log, op) == Project(log[1..], op);
      }
    }
  }

  lemma {:induction false} ProjectAppend(log: seq<Row>, row: Row, op: string)
    ensures Project(log + [row], op) == Project(log, op) + (if row.op == op then [OpArgs(row.id, row.args)] else [])
  {
    var last := if row.op == op then [OpArgs(row.id, row.args)] else [];
    if log == [] {
      assert log + [row] == [row] && [row][1..] == [];
    } else {
      var first := if log[0].op == op then [OpArgs(log[0].id, log[0].args)] else [];
      assert (log + [row])[0] == log[0] && (log + [row])[1..] == log[1..] + [row];
      ProjectAppend(log[1..], row, op);
      assert first + (Project(log[1..], op) + last) == first + Project(log[1..], op) + last;
    }
  }

  lemma {:induction false} ProjectNone(log: seq<Row>, op: string)
    requires forall r :: r in log ==> r.op != op
    ensures Project(log, op) == []
  {
    if log != [] { ProjectNone(log[1..], op); }
  }

  /** Appending rows leaves every successful lookup as it was. */
  lemma {:induction false} LookupConcat(a: seq<Row>, b: seq<Row>, op: string, id: string)
    ensures Lookup(a + b, op, id) == if Lookup(a, op, id).Some? then Lookup(a, op, id) else Lookup(b, op, id)
  {
    if a == [] {
      assert a + b == b;
    } else {
      assert (a + b)[0] == a[0] && (a + b)[1..] == a[1..] + b;
      LookupConcat(a[1..], b, op, id);
    }
  }

  // ---- interfaces ----

  datatype Attribute = Attribute(name: string, tc: TypeCode, readonly: bool)

  datatype OperationDef = OperationDef(name: string, params: seq<Param>, result: TypeCode,
                                       exceptions: seq<UserException>)

  datatype Interface = Interface(id: string, attributes: seq<Attribute>, operations: seq<OperationDef>)

  /** An operation or accessor and the ids it is listed under. */
  datatype Decl = Decl(op: string, ids: seq<string>, isAccessor: bool, params: seq<Param>, result: TypeCode,
                       exceptions: seq<UserException>)

  function RowsFor(d: Decl, args: ArgList): (rows: seq<Row>)
    ensures |rows| == |d.ids|
  {
    seq(|d.ids|, k requires 0 <= k < |d.ids| => Row(d.op, d.ids[k], args))
  }

  /** Interface `i` of a list in which the interface asked about comes first and its direct
      bases follow: its own id, then those of all interfaces before it. */
  function Ids(levels: seq<Interface>, i: nat): (ids: seq<string>)
    requires i < |levels|
    ensures levels[0].id in ids
  {
    var ids := [levels[i].id] + seq(i, k requires 0 <= k < i => levels[k].id);
    assert if i == 0 then ids[0] == levels[0].id else ids[1] == levels[0].id;
    ids
  }

  function GetDecl(ids: seq<string>, a: Attribute): Decl {
    Decl("_get_" + a.name, ids, true, [], a.tc, [])
  }

  function SetDecl(ids: seq<string>, a: Attribute): Decl {
    Decl("_set_" + a.name, ids, true, [Param(a.tc, ArgIn)], Void, [])
  }

  function AccessorDecls(ids: seq<string>, a: Attribute): seq<Decl> {
    if a.readonly then [GetDecl(ids, a)] else [GetDecl(ids, a)] + [SetDecl(ids, a)]
  }

  function AttributeDecls(ids: seq<string>, attributes: seq<Attribute>): seq<Decl> {
    if attributes == [] then []
    else AttributeDecls(ids, attributes[..|attributes| - 1]) + AccessorDecls(ids, attributes[|attributes| - 1])
  }

  function OperationDecl(ids: seq<string>, op: OperationDef): Decl {
    Decl(op.name, ids, false, op.params, op.result, op.exceptions)
  }

  function OperationDecls(ids: seq<string>, operations: seq<OperationDef>): seq<Decl> {
    if operations == [] then []
    else OperationDecls(ids, operations[..|operations| - 1]) + [OperationDecl(ids, operations[|operations| - 1])]
  }

  function ImplicitDecls(id: string): seq<Decl> {
    [Decl("_is_a", [id], false, [Param(Basic("string"), ArgIn)], Basic("boolean"), []),
     Decl("_non_existent", [id], false, [], Basic("boolean"), [])]
  }

  /** All that `add_interface` declares for the first `n` interfaces, in order: the two
      operations of every object, and then those of one interface after the other. */
  function Decls(levels: seq<Interface>, n: nat): seq<Decl>
    requires levels != [] && n <= |levels|
  {
    if n == 0 then ImplicitDecls(levels[0].id) else
    Decls(levels, n - 1) + AttributeDecls(Ids(levels, n - 1), levels[n - 1].attributes)
    + OperationDecls(Ids(levels, n - 1), levels[n - 1].operations)
  }

  /** A desired name that looks like `_get_x` or `_set_x` is looked for among the accessors
      only, any other one among the operations only. */
  predicate WantsAccessor(desired: string) {
    |desired| >= 5 && desired[0] == '_' && desired[2..5] == "et_"
  }

  predicate Matches(d: Decl, desired: Option<string>) {
    desired.Some? && d.op == desired.value && d.isAccessor == WantsAccessor(desired.value)
  }

  /** A declaration, the list made for it, and how many counts of that list are held
      outside the table. */
  datatype Made = Made(decl: Decl, args: ArgList, handles: nat)

  function RowsOf(history: seq<Made>): seq<Row> {
    if history == [] then []
    else RowsOf(history[..|history| - 1]) + RowsFor(history[|history| - 1].decl, history[|history| - 1].args)
  }

  /** The list handed back: that of the last match. */
  function Chosen(history: seq<Made>, desired: Option<string>): Option<ArgList> {
    if history == [] then None
    else if Matches(history[|history| - 1].decl, desired) then Some(history[|history| - 1].args)
    else Chosen(history[..|history| - 1], desired)
  }

  function Mark(d: Decl, desired: Option<string>): nat { if Matches(d, desired) then 1 else 0 }

  function DeclsIn(history: seq<Made>): (ds: seq<Decl>)
    ensures |ds| == |history|
  {
    if history == [] then [] else DeclsIn(history[..|history| - 1]) + [history[|history| - 1].decl]
  }

  /** A count is out for every match and for nothing else. */
  ghost predicate Marked(history: seq<Made>, desired: Option<string>) {
    history == [] ||
    (&& history[|history| - 1].handles == Mark(history[|history| - 1].decl, desired)
     && Marked(history[..|history| - 1], desired))
  }

  /** What was declared since there were `n` declarations, and the list to hand back. */
  ghost predicate DeclaredSince(history: seq<Made>, n: nat, ds: seq<Decl>, desired: Option<string>,
                                result: Option<ArgList>)
  {
    && n <= |history| && DeclsIn(history[n..]) == ds
    && Marked(history[n..], desired) && result == Chosen(history[n..], desired)
  }

  /** The same told from the end: the last declarations of the history, back to the first
      `n`, are `ds`, each marked as the desired name asks. */
  ghost predicate Appended(history: seq<Made>, n: nat, ds: seq<Decl>, desired: Option<string>)
    decreases |ds|
  {
    if ds == [] then |history| == n else
    && |history| > n && history[|history| - 1].decl == ds[|ds| - 1]
    && history[|history| - 1].handles == Mark(ds[|ds| - 1], desired)
    && Appended(history[..|history| - 1], n, ds[..|ds| - 1], desired)
  }

  function ChosenSince(history: seq<Made>, n: nat, desired: Option<string>): Option<ArgList> {
    if |history| <= n then None
    else if Matches(history[|history| - 1].decl, desired) then Some(history[|history| - 1].args)
    else ChosenSince(history[..|history| - 1], n, desired)
  }

  lemma {:induction false} AppendOne(history: seq<Made>, n: nat, ds: seq<Decl>, desired: Option<string>, m: Made)
    requires Appended(history, n, ds, desired) && m.handles == Mark(m.decl, desired)
    ensures Appended(history + [m], n, ds + [m.decl], desired)
    ensures ChosenSince(history + [m], n, desired)
         == if Matches(m.decl, desired) then Some(m.args) else ChosenSince(history, n, desired)
  {
    AppendedLength(history, n, ds, desired);
    assert (history + [m])[..|history|] == history && (ds + [m.decl])[..|ds|] == ds;
  }

  lemma {:induction false} AppendedLength(history: seq<Made>, n: nat, ds: seq<Decl>, desired: Option<string>)
    requires Appended(history, n, ds, desired)
    ensures |history| == n + |ds|
    decreases |ds|
  {
    if ds != [] { AppendedLength(history[..|history| - 1], n, ds[..|ds| - 1], desired); }
  }

  lemma {:induction false} AppendedIsDeclared(history: seq<Made>, n: nat, ds: seq<Decl>, desired: Option<string>)
    requires Appended(history, n, ds, desired)
    ensures DeclaredSince(history, n, ds, desired, ChosenSince(history, n, desired))
    decreases |ds|
  {
    AppendedLength(history, n, ds, desired);
    if ds != [] {
      var h := history[..|history| - 1];
      AppendedIsDeclared(h, n, ds[..|ds| - 1], desired);
      assert history[n..][..|history[n..]| - 1] == h[n..];
      assert ds == ds[..|ds| - 1] + [ds[|ds| - 1]];
    }
  }

  // ---- what the lookups give ----

  lemma {:induction false} RowsOfConcat(a: seq<Made>, b: seq<Made>)
    ensures RowsOf(a + b) == RowsOf(a) + RowsOf(b)
  {
    if b == [] {
      assert a + b == a;
    } else {
      var b', m := b[..|b| - 1], b[|b| - 1];
      assert (a + b)[..|a + b| - 1] == a + b' && (a + b)[|a + b| - 1] == m;
      RowsOfConcat(a, b');
    }
  }

  lemma {:induction false} LookupRowsFor(d: Decl, args: ArgList, op: string, id: string)
    ensures Lookup(RowsFor(d, args), op, id) == if d.op == op && id in d.ids then Some(args) else None
    decreases |d.ids|
  {
    if d.ids != [] {
      var d' := d.(ids := d.ids[1..]);
      LookupRowsFor(d', args, op, id);
      assert RowsFor(d, args)[1..] == RowsFor(d', args);
    }
  }

  /** The history taken one declaration at a time. */
  lemma LookupLast(history: seq<Made>, op: string, id: string)
    requires history != []
    ensures var before := Lookup(RowsOf(history[..|history| - 1]), op, id); var m := history[|history| - 1];
      Lookup(RowsOf(history), op, id)
      == if before.Some? then before else if m.decl.op == op && id in m.decl.ids then Some(m.args) else None
  {
    var m := history[|history| - 1];
    LookupRowsFor(m.decl, m.args, op, id);
    LookupConcat(RowsOf(history[..|history| - 1]), RowsFor(m.decl, m.args), op, id);
  }

  /** Every declared operation is found under each of its ids. */
  lemma {:induction false} DeclaredIsFound(history: seq<Made>, k: nat, id: string)
    requires k < |history| && id in history[k].decl.ids
    ensures Lookup(RowsOf(history), history[k].decl.op, id).Some?
  {
    LookupLast(history, history[k].decl.op, id);
    if k < |history| - 1 { DeclaredIsFound(history[..|history| - 1], k, id); }
  }

  /** What was found before is found still, and is the same list: adding an interface appends
      rows and a lookup leaves them as they are. */
  lemma {:induction false} FoundStays(before: seq<Made>, history: seq<Made>, op: string, id: string)
    requires RowsOf(before) <= RowsOf(history) && Lookup(RowsOf(before), op, id).Some?
    ensures Lookup(RowsOf(history), op, id) == Lookup(RowsOf(before), op, id)
  {
    var a, b := RowsOf(before), RowsOf(history);
    assert b == a + b[|a|..];
    LookupConcat(a, b[|a|..], op, id);
  }

  lemma {:induction false} RowsGrow(before: seq<Made>, history: seq<Made>)
    requires before <= history
    ensures RowsOf(before) <= RowsOf(history)
  {
    assert history == before + history[|before|..];
    RowsOfConcat(before, history[|before|..]);
  }

  /** A list is counted once for every row and once for every count held outside, has the
      types of its declaration, and remembers nothing wrong about them. */
  ghost predicate Sound(m: Made)
    reads m.args
  {
    m.args.refcount == |m.decl.ids| + m.handles && m.args.MemoOk() && Signed(m)
  }

  ghost predicate Signed(m: Made) {
    Signature(m.args, m.decl.params, m.decl.result, m.decl.exceptions)
  }

  ghost predicate Signature(list: ArgList, params: seq<Param>, result: TypeCode, exceptions: seq<UserException>) {
    list.params == params && list.resultType == result && list.exceptions == exceptions
  }

  ghost predicate Distinct(history: seq<Made>) {
    forall j, k :: 0 <= j < k < |history| ==> history[j].args != history[k].args
  }

  lemma DistinctAppend(history: seq<Made>, m: Made)
    requires Distinct(history) && forall x :: x in history ==> x.args != m.args
    ensures Distinct(history + [m])
  {
  }

  function Occurs(ds: seq<Decl>, op: string): nat {
    if ds == [] then 0 else Occurs(ds[..|ds| - 1], op) + (if ds[|ds| - 1].op == op then 1 else 0)
  }

  /** How many declarations the desired name asks for: those of its own kind. */
  function MatchCount(ds: seq<Decl>, op: string): nat {
    if ds == [] then 0 else MatchCount(ds[..|ds| - 1], op) + Mark(ds[|ds| - 1], Some(op))
  }

  /** The first declaration of the name is of the kind that the name asks for. */
  predicate FirstMatches(ds: seq<Decl>, op: string) {
    if ds == [] then false
    else if Occurs(ds[..|ds| - 1], op) > 0 then FirstMatches(ds[..|ds| - 1], op)
    else Matches(ds[|ds| - 1], Some(op))
  }

  /** The name is not declared, or its first declaration is the only one of the kind it asks
      for. */
  predicate Straight(ds: seq<Decl>, op: string) {
    Occurs(ds, op) == 0 || (MatchCount(ds, op) == 1 && FirstMatches(ds, op))
  }

  lemma {:induction false} MatchBounds(ds: seq<Decl>, op: string)
    ensures MatchCount(ds, op) <= Occurs(ds, op)
    ensures FirstMatches(ds, op) ==> MatchCount(ds, op) > 0
  {
    if ds != [] { MatchBounds(ds[..|ds| - 1], op); }
  }

  /** There is one declaration of the name, and the name asks for it. */
  predicate Sole(ds: seq<Decl>, op: string) {
    Occurs(ds, op) == 1 && Straight(ds, op)
  }

  ghost predicate AllUnder(ds: seq<Decl>, id: string) {
    forall k :: 0 <= k < |ds| ==> id in ds[k].ids
  }

  /** The list found was made for a declaration of that name under that id. */
  ghost predicate Gives(m: Made, op: string, id: string, found: Option<ArgList>) {
    found == Some(m.args) && m.decl.op == op && id in m.decl.ids
  }

  lemma {:induction false} FoundIsMade(history: seq<Made>, op: string, id: string)
    requires Lookup(RowsOf(history), op, id).Some?
    ensures exists k :: 0 <= k < |history| && Gives(history[k], op, id, Lookup(RowsOf(history), op, id))
  {
    if history != [] {
      LookupLast(history, op, id);
      var h := history[..|history| - 1];
      if Lookup(RowsOf(h), op, id).Some? {
        FoundIsMade(h, op, id);
        var k :| 0 <= k < |h| && Gives(h[k], op, id, Lookup(RowsOf(h), op, id));
        assert history[k] == h[k];
      } else {
        assert Gives(history[|history| - 1], op, id, Lookup(RowsOf(history), op, id));
      }
    }
  }

  /** Handed back is the last list of the name's own kind; found is the first of the name. */
  lemma {:induction false} LastIsFirst(history: seq<Made>, op: string, id: string)
    requires Distinct(history) && AllUnder(DeclsIn(history), id)
    ensures var found, chosen := Lookup(RowsOf(history), op, id), Chosen(history, Some(op));
      var ds := DeclsIn(history);
      && (found == chosen <==> Straight(ds, op))
      && (found.Some? <==> Occurs(ds, op) > 0) && (chosen.Some? <==> MatchCount(ds, op) > 0)
  {
    if history != [] {
      var h, m := history[..|history| - 1], history[|history| - 1];
      var ds := DeclsIn(history);
      assert ds[..|ds| - 1] == DeclsIn(h) && ds[|ds| - 1] == m.decl;
      assert AllUnder(DeclsIn(h), id) by { assert forall k :: 0 <= k < |h| ==> DeclsIn(h)[k] == ds[k]; }
      LastIsFirst(h, op, id);
      MatchBounds(DeclsIn(h), op);
      LookupLast(history, op, id);
      if Lookup(RowsOf(h), op, id).Some? {
        FoundIsMade(h, op, id);
      }
    }
  }

  lemma {:induction false} RowsConcat(a: seq<Row>, b: seq<Row>, args: ArgList)
    ensures Rows(a + b, args) == Rows(a, args) + Rows(b, args)
  {
    if a == [] {
      assert a + b == b;
    } else {
      assert (a + b)[0] == a[0] && (a + b)[1..] == a[1..] + b;
      RowsConcat(a[1..], b, args);
    }
  }

  lemma {:induction false} RowsForCount(d: Decl, made: ArgList, args: ArgList)
    ensures Rows(RowsFor(d, made), args) == if made == args then |d.ids| else 0
    decreases |d.ids|
  {
    if d.ids != [] {
      var d' := d.(ids := d.ids[1..]);
      RowsForCount(d', made, args);
      assert RowsFor(d, made)[1..] == RowsFor(d', made);
    }
  }

  /** A list is shared by one row for every id of its declaration. */
  lemma {:induction false} RowsPerList(history: seq<Made>, k: nat)
    requires Distinct(history) && k < |history|
    ensures Rows(RowsOf(history), history[k].args) == |history[k].decl.ids|
  {
    OtherRows(history, history[k].args, |history|, k);
    assert history[..|history|] == history;
  }

  lemma {:induction false} OtherRows(history: seq<Made>, args: ArgList, n: nat, k: nat)
    requires Distinct(history) && k < |history| && history[k].args == args && n <= |history|
    ensures Rows(RowsOf(history[..n]), args) == if k < n then |history[k].decl.ids| else 0
  {
    if n > 0 {
      OtherRows(history, args, n - 1, k);
      assert history[..n][..n - 1] == history[..n - 1];
      var m := history[n - 1];
      RowsForCount(m.decl, m.args, args);
      RowsConcat(RowsOf(history[..n - 1]), RowsFor(m.decl, m.args), args);
    }
  }

  /** No operation of an interface has a name of the accessor form. */
  ghost predicate PlainNames(levels: seq<Interface>) {
    forall i, k :: 0 <= i < |levels| && 0 <= k < |levels[i].operations| ==> !WantsAccessor(levels[i].operations[k].name)
  }

  /** Then every declaration of a name is of the kind the name asks for, and what a caller has
      to know is how often the name is declared. */
  lemma {:induction false} PlainIsStraight(levels: seq<Interface>, op: string)
    requires levels != [] && PlainNames(levels)
    ensures var ds := Decls(levels, |levels|);
      MatchCount(ds, op) == Occurs(ds, op) && (Straight(ds, op) <==> Occurs(ds, op) <= 1)
  {
    var ds := Decls(levels, |levels|);
    forall d | d in ds ensures d.isAccessor == WantsAccessor(d.op) {
      NothingElseIsDeclared(levels, |levels|, d);
      PlainKind(levels, d);
    }
    AllMatch(ds, op);
  }

  lemma PlainKind(levels: seq<Interface>, d: Decl)
    requires levels != [] && PlainNames(levels)
    requires OfEveryObject(levels[0].id, d) || exists i :: 0 <= i < |levels| && ComesFrom(levels[i], Ids(levels, i), d)
    ensures d.isAccessor == WantsAccessor(d.op)
  {
    if OfEveryObject(levels[0].id, d) {
      assert "_is_a"[2..5] == "s_a" && "_non_existent"[2..5] == "on_";
    } else {
      var i :| 0 <= i < |levels| && ComesFrom(levels[i], Ids(levels, i), d);
      if op :| op in levels[i].operations
               && d == Decl(op.name, Ids(levels, i), false, op.params, op.result, op.exceptions) {
        assert !WantsAccessor(op.name);
      } else {
        assert d.op[..5] == "_get_" || d.op[..5] == "_set_";
        assert d.op[0] == d.op[..5][0] && d.op[2..5] == d.op[..5][2..5];
      }
    }
  }

  lemma {:induction false} AllMatch(ds: seq<Decl>, op: string)
    requires forall d :: d in ds ==> d.isAccessor == WantsAccessor(d.op)
    ensures MatchCount(ds, op) == Occurs(ds, op) && (FirstMatches(ds, op) <==> Occurs(ds, op) > 0)
  {
    if ds != [] {
      assert ds[|ds| - 1] in ds && forall d :: d in ds[..|ds| - 1] ==> d in ds;
      AllMatch(ds[..|ds| - 1], op);
    }
  }

  lemma {:induction false} DeclsAreUnder(levels: seq<Interface>)
    requires levels != []
    ensures AllUnder(Decls(levels, |levels|), levels[0].id)
  {
    var ds := Decls(levels, |levels|);
    forall k | 0 <= k < |ds| ensures levels[0].id in ds[k].ids { DeclIsUnder(levels, ds[k]); }
  }

  lemma {:induction false} DeclIsUnder(levels: seq<Interface>, d: Decl)
    requires levels != [] && d in Decls(levels, |levels|)
    ensures levels[0].id in d.ids
  {
    NothingElseIsDeclared(levels, |levels|, d);
    if !OfEveryObject(levels[0].id, d) {
      var i :| 0 <= i < |levels| && ComesFrom(levels[i], Ids(levels, i), d);
      assert d.ids == Ids(levels, i);
    }
  }

  /** A request that had to add the interface works with the list that its reply will find
      exactly when the first declaration of the name is the only one of its kind: with plain
      names, when the name is declared at most once. */
  lemma {:induction false} RequestAndReplyAgree(history: seq<Made>, n: nat, levels: seq<Interface>, desired: string,
                                                result: Option<ArgList>)
    requires levels != [] && Distinct(history)
    requires DeclaredSince(history, n, Decls(levels, |levels|), Some(desired), result)
    requires Lookup(RowsOf(history[..n]), desired, levels[0].id).None?
    ensures var found := Lookup(RowsOf(history), desired, levels[0].id); var ds := Decls(levels, |levels|);
      && (result == found <==> Straight(ds, desired))
      && (found.None? <==> Occurs(ds, desired) == 0) && (result.None? <==> MatchCount(ds, desired) == 0)
    ensures PlainNames(levels) ==>
      (result == Lookup(RowsOf(history), desired, levels[0].id) <==> Occurs(Decls(levels, |levels|), desired) <= 1)
  {
    DeclsAreUnder(levels);
    if PlainNames(levels) { PlainIsStraight(levels, desired); }
    AgreeSince(history, n, Decls(levels, |levels|), desired, levels[0].id, result);
  }

  lemma {:induction false} AgreeSince(history: seq<Made>, n: nat, ds: seq<Decl>, desired: string, id: string,
                                      result: Option<ArgList>)
    requires Distinct(history) && DeclaredSince(history, n, ds, Some(desired), result) && AllUnder(ds, id)
    requires Lookup(RowsOf(history[..n]), desired, id).None?
    ensures var found := Lookup(RowsOf(history), desired, id);
      && (result == found <==> Straight(ds, desired))
      && (found.None? <==> Occurs(ds, desired) == 0) && (result.None? <==> MatchCount(ds, desired) == 0)
  {
    DistinctSince(history, n);
    LastIsFirst(history[n..], desired, id);
    LookupSince(history, n, desired, id);
  }

  lemma {:induction false} DistinctSince(history: seq<Made>, n: nat)
    requires Distinct(history) && n <= |history|
    ensures Distinct(history[n..])
  {
  }

  /** What a request works with: found, or handed back by adding the interface. */
  ghost predicate ForRequest(before: seq<Made>, history: seq<Made>, levels: seq<Interface>, op: string,
                             result: Option<ArgList>)
    requires levels != []
  {
    var found := Lookup(RowsOf(before), op, levels[0].id);
    && RowsOf(before) <= RowsOf(history)
    && if found.Some? then result == found
       else before <= history && DeclaredSince(history, |before|, Decls(levels, |levels|), Some(op), result)
  }

  /** The reply finds the list of the request if that was found too; if it was handed back by
      `add_interface`, exactly when the declarations are straight. */
  ghost predicate Agree(before: seq<Row>, levels: seq<Interface>, op: string,
                        request: Option<ArgList>, reply: Option<ArgList>)
    requires levels != []
  {
    var found, ds := Lookup(before, op, levels[0].id), Decls(levels, |levels|);
    if found.Some? then request == reply == found else
    && (request == reply <==> Straight(ds, op))
    && (reply.None? <==> Occurs(ds, op) == 0) && (request.None? <==> MatchCount(ds, op) == 0)
  }

  lemma {:induction false} RequestListStays(before: seq<Made>, history: seq<Made>, levels: seq<Interface>, op: string,
                         result: Option<ArgList>)
    requires levels != [] && Distinct(history) && ForRequest(before, history, levels, op, result)
    ensures Agree(RowsOf(before), levels, op, result, Lookup(RowsOf(history), op, levels[0].id))
  {
    if Lookup(RowsOf(before), op, levels[0].id).Some? {
      FoundStays(before, history, op, levels[0].id);
    } else {
      assert history[..|before|] == before;
      RequestAndReplyAgree(history, |before|, levels, op, result);
    }
  }

  lemma {:induction false} DeclAt(history: seq<Made>, k: nat)
    requires k < |history|
    ensures DeclsIn(history)[k] == history[k].decl
  {
    if k < |history| - 1 { DeclAt(history[..|history| - 1], k); }
  }

  /** After an interface was added, each of its declarations is found under each of its ids. */
  lemma {:induction false} InterfaceIsFound(history: seq<Made>, n: nat, levels: seq<Interface>, desired: Option<string>,
                         result: Option<ArgList>, d: Decl, id: string)
    requires levels != [] && DeclaredSince(history, n, Decls(levels, |levels|), desired, result)
    requires d in Decls(levels, |levels|) && id in d.ids
    ensures Lookup(RowsOf(history), d.op, id).Some?
  {
    var k :| 0 <= k < |history[n..]| && DeclsIn(history[n..])[k] == d;
    DeclAt(history[n..], k);
    assert history[n + k] == history[n..][k];
    DeclaredIsFound(history, n + k, id);
  }

  /** Among them are the operations and accessors of the interface and its direct bases, all
      under the id of the interface. */
  lemma {:induction false} BasesAreDeclared(levels: seq<Interface>, n: nat, i: nat)
    requires levels != [] && i < n <= |levels|
    ensures levels[0].id in Ids(levels, i)
    ensures forall op :: op in levels[i].operations ==> OperationDecl(Ids(levels, i), op) in Decls(levels, n)
    ensures forall a :: a in levels[i].attributes ==>
      GetDecl(Ids(levels, i), a) in Decls(levels, n) && (!a.readonly ==> SetDecl(Ids(levels, i), a) in Decls(levels, n))
  {
    if i < n - 1 {
      BasesAreDeclared(levels, n - 1, i);
    } else {
      OperationsDeclared(Ids(levels, i), levels[i].operations);
      AttributesDeclared(Ids(levels, i), levels[i].attributes);
    }
  }

  lemma {:induction false} OperationsDeclared(ids: seq<string>, operations: seq<OperationDef>)
    ensures forall op :: op in operations ==> OperationDecl(ids, op) in OperationDecls(ids, operations)
  {
    if operations != [] {
      OperationsDeclared(ids, operations[..|operations| - 1]);
      assert operations == operations[..|operations| - 1] + [operations[|operations| - 1]];
    }
  }

  lemma {:induction false} AttributesDeclared(ids: seq<string>, attributes: seq<Attribute>)
    ensures forall a :: a in attributes ==>
      && GetDecl(ids, a) in AttributeDecls(ids, attributes)
      && (!a.readonly ==> SetDecl(ids, a) in AttributeDecls(ids, attributes))
  {
    if attributes != [] {
      AttributesDeclared(ids, attributes[..|attributes| - 1]);
      assert attributes == attributes[..|attributes| - 1] + [attributes[|attributes| - 1]];
    }
  }

  // ---- in the terms of the interfaces ----

  /** The ids of interface `i`: its own, and those of all interfaces before it. */
  lemma IdsExact(levels: seq<Interface>, i: nat)
    requires i < |levels|
    ensures |Ids(levels, i)| == i + 1 && Ids(levels, i)[0] == levels[i].id
    ensures forall k :: 0 <= k < i ==> Ids(levels, i)[k + 1] == levels[k].id
    ensures forall k :: 0 <= k <= i ==> levels[k].id in Ids(levels, i)
  {
    assert forall k :: 0 <= k < i ==> Ids(levels, i)[k + 1] == levels[k].id;
  }

  /** An accessor name has `et_` after an underscore and one more character. */
  lemma WantsAccessorIff(desired: string)
    ensures WantsAccessor(desired) <==> exists c: char, rest: string :: desired == ['_', c] + "et_" + rest
  {
    if WantsAccessor(desired) {
      assert desired == ['_', desired[1]] + "et_" + desired[5..];
    }
    if c: char, rest: string :| desired == ['_', c] + "et_" + rest {
      assert desired[2..5] == "et_";
    }
  }

  /** A desired name of that form is never answered by an operation, and any other one never
      by an accessor. */
  lemma MatchesIff(d: Decl, desired: string)
    ensures var accessor := exists c: char, rest: string :: desired == ['_', c] + "et_" + rest;
      Matches(d, Some(desired)) <==> d.op == desired && (d.isAccessor <==> accessor)
    ensures !Matches(d, None)
  {
    WantsAccessorIff(desired);
  }

  lemma {:induction false} RowIn(history: seq<Made>, k: nat, id: string)
    requires k < |history| && id in history[k].decl.ids
    ensures Row(history[k].decl.op, id, history[k].args) in RowsOf(history)
  {
    var m := history[|history| - 1];
    if k < |history| - 1 {
      RowIn(history[..|history| - 1], k, id);
    } else {
      var j :| 0 <= j < |m.decl.ids| && m.decl.ids[j] == id;
      assert RowsFor(m.decl, m.args)[j] == Row(m.decl.op, id, m.args);
    }
  }

  lemma {:induction false} OccursBoth(ds: seq<Decl>, j: nat, k: nat)
    requires j < k < |ds| && ds[j].op == ds[k].op
    ensures Occurs(ds, ds[k].op) >= 2
  {
    if k < |ds| - 1 {
      OccursBoth(ds[..|ds| - 1], j, k);
    } else {
      OccursOnce(ds[..k], j);
    }
  }

  lemma {:induction false} OccursOnce(ds: seq<Decl>, j: nat)
    requires j < |ds|
    ensures Occurs(ds, ds[j].op) >= 1
  {
    if j < |ds| - 1 { OccursOnce(ds[..|ds| - 1], j); }
  }

  /** The list `args` is listed for a name under an id, and is the one a lookup gives if the
      name was not there under that id and is among `ds` no more than once. */
  ghost predicate Offered(history: seq<Made>, n: nat, ds: seq<Decl>, op: string, id: string, args: ArgList)
    requires n <= |history|
  {
    && Row(op, id, args) in RowsOf(history)
    && (Lookup(RowsOf(history[..n]), op, id).None? && Occurs(ds, op) <= 1 ==>
          Lookup(RowsOf(history), op, id) == Some(args))
  }

  lemma {:induction false} DeclIsOffered(history: seq<Made>, n: nat, ds: seq<Decl>, desired: Option<string>,
                                         result: Option<ArgList>, d: Decl) returns (at: nat)
    requires DeclaredSince(history, n, ds, desired, result) && d in ds && forall m :: m in history ==> Signed(m)
    ensures n <= at < |history| && Signature(history[at].args, d.params, d.result, d.exceptions)
    ensures forall id :: id in d.ids ==> Offered(history, n, ds, d.op, id, history[at].args)
  {
    var since := history[n..];
    var k :| 0 <= k < |ds| && ds[k] == d;
    DeclAt(since, k);
    at := n + k;
    assert history[at] == since[k] && history[at] in history;
    forall id | id in d.ids ensures Offered(history, n, ds, d.op, id, history[at].args) {
      RowIn(history, at, id);
      if Lookup(RowsOf(history[..n]), d.op, id).None? && Occurs(ds, d.op) <= 1 {
        OnlyOneFound(history, n, ds, k, id);
      }
    }
  }

  lemma {:induction false} OnlyOneFound(history: seq<Made>, n: nat, ds: seq<Decl>, k: nat, id: string)
    requires n <= |history| && DeclsIn(history[n..]) == ds && k < |ds| && id in ds[k].ids
    requires Lookup(RowsOf(history[..n]), ds[k].op, id).None? && Occurs(ds, ds[k].op) <= 1
    ensures Lookup(RowsOf(history), ds[k].op, id) == Some(history[n + k].args)
  {
    var since, op := history[n..], ds[k].op;
    DeclAt(since, k);
    DeclaredIsFound(since, k, id);
    FoundIsMade(since, op, id);
    var j :| 0 <= j < |since| && Gives(since[j], op, id, Lookup(RowsOf(since), op, id));
    DeclAt(since, j);
    SameSpot(ds, j, k);
    LookupSince(history, n, op, id);
  }

  lemma {:induction false} SameSpot(ds: seq<Decl>, j: nat, k: nat)
    requires j < |ds| && k < |ds| && ds[j].op == ds[k].op && Occurs(ds, ds[k].op) <= 1
    ensures j == k
  {
    if j < k { OccursBoth(ds, j, k); }
    if k < j { OccursBoth(ds, k, j); }
  }

  lemma {:induction false} LookupSince(history: seq<Made>, n: nat, op: string, id: string)
    requires n <= |history| && Lookup(RowsOf(history[..n]), op, id).None?
    ensures Lookup(RowsOf(history), op, id) == Lookup(RowsOf(history[n..]), op, id)
  {
    assert history == history[..n] + history[n..];
    RowsOfConcat(history[..n], history[n..]);
    LookupConcat(RowsOf(history[..n]), RowsOf(history[n..]), op, id);
  }

  /** List `k` of the history has a signature and is offered under a name and the ids of all
      interfaces up to `i`. */
  ghost predicate OfferedAs(history: seq<Made>, n: nat, levels: seq<Interface>, i: nat, k: nat, name: string,
                            params: seq<Param>, result: TypeCode, exceptions: seq<UserException>)
    requires i < |levels| && n <= |history| && k < |history|
  {
    && Signature(history[k].args, params, result, exceptions)
    && forall j :: 0 <= j <= i ==>
         Offered(history, n, Decls(levels, |levels|), name, levels[j].id, history[k].args)
  }

  /** After `add_interface`: for every operation of the interface or a direct base there is a
      list with exactly its parameters, result and exceptions, offered under its name and the
      id of its own interface and of every interface before that. */
  lemma {:induction false} OperationIsOffered(history: seq<Made>, n: nat, levels: seq<Interface>,
                                              desired: Option<string>, result: Option<ArgList>, i: nat,
                                              op: OperationDef)
    requires levels != [] && DeclaredSince(history, n, Decls(levels, |levels|), desired, result)
    requires (forall m :: m in history ==> Signed(m)) && i < |levels| && op in levels[i].operations
    ensures exists k :: n <= k < |history|
              && OfferedAs(history, n, levels, i, k, op.name, op.params, op.result, op.exceptions)
  {
    BasesAreDeclared(levels, |levels|, i);
    IdsExact(levels, i);
    var k := DeclIsOffered(history, n, Decls(levels, |levels|), desired, result, OperationDecl(Ids(levels, i), op));
    assert OfferedAs(history, n, levels, i, k, op.name, op.params, op.result, op.exceptions);
  }

  /** The list has the signature that an interface gives to an operation of that name. */
  ghost predicate SignedAs(levels: seq<Interface>, name: string, args: ArgList) {
    forall i, op :: 0 <= i < |levels| && op in levels[i].operations && op.name == name ==>
      Signature(args, op.params, op.result, op.exceptions)
  }

  /** A request for an operation that is declared once works with its own signature. */
  lemma {:induction false} RequestListSigned(before: seq<Made>, history: seq<Made>, levels: seq<Interface>,
                                             op: string, args: ArgList)
    requires levels != [] && ForRequest(before, history, levels, op, Some(args))
    requires Lookup(RowsOf(before), op, levels[0].id).None? && Lookup(RowsOf(history), op, levels[0].id) == Some(args)
    requires Sole(Decls(levels, |levels|), op) && forall m :: m in history ==> Signed(m)
    ensures SignedAs(levels, op, args)
  {
    assert history[..|before|] == before;
    forall i, o | 0 <= i < |levels| && o in levels[i].operations && o.name == op
      ensures Signature(args, o.params, o.result, o.exceptions)
    {
      OperationIsOffered(history, |before|, levels, Some(op), Some(args), i, o);
      var k :| |before| <= k < |history|
               && OfferedAs(history, |before|, levels, i, k, o.name, o.params, o.result, o.exceptions);
      assert Offered(history, |before|, Decls(levels, |levels|), op, levels[0].id, history[k].args);
    }
  }

  /** For every attribute a list without parameters that gives the attribute, as `_get_`, and
      unless it is read-only one that takes it and gives nothing, as `_set_`. */
  lemma {:induction false} AccessorsAreOffered(history: seq<Made>, n: nat, levels: seq<Interface>,
                                               desired: Option<string>, result: Option<ArgList>, i: nat, a: Attribute)
    requires levels != [] && DeclaredSince(history, n, Decls(levels, |levels|), desired, result)
    requires (forall m :: m in history ==> Signed(m)) && i < |levels| && a in levels[i].attributes
    ensures exists k :: n <= k < |history|
              && OfferedAs(history, n, levels, i, k, "_get_" + a.name, [], a.tc, [])
    ensures !a.readonly ==>
      (exists k :: n <= k < |history|
         && OfferedAs(history, n, levels, i, k, "_set_" + a.name, [Param(a.tc, ArgIn)], Void, []))
  {
    BasesAreDeclared(levels, |levels|, i);
    IdsExact(levels, i);
    var ds := Decls(levels, |levels|);
    var k := DeclIsOffered(history, n, ds, desired, result, GetDecl(Ids(levels, i), a));
    assert OfferedAs(history, n, levels, i, k, "_get_" + a.name, [], a.tc, []);
    if !a.readonly {
      k := DeclIsOffered(history, n, ds, desired, result, SetDecl(Ids(levels, i), a));
      assert OfferedAs(history, n, levels, i, k, "_set_" + a.name, [Param(a.tc, ArgIn)], Void, []);
    }
  }

  /** A declaration under the ids of interface `i` comes from that interface. */
  ghost predicate ComesFrom(level: Interface, ids: seq<string>, d: Decl) {
    || (exists op :: op in level.operations && d == Decl(op.name, ids, false, op.params, op.result, op.exceptions))
    || (exists a :: a in level.attributes && d == Decl("_get_" + a.name, ids, true, [], a.tc, []))
    || (exists a :: a in level.attributes && !a.readonly
                    && d == Decl("_set_" + a.name, ids, true, [Param(a.tc, ArgIn)], Void, []))
  }

  ghost predicate OfEveryObject(id: string, d: Decl) {
    || d == Decl("_is_a", [id], false, [Param(Basic("string"), ArgIn)], Basic("boolean"), [])
    || d == Decl("_non_existent", [id], false, [], Basic("boolean"), [])
  }

  /** Nothing else is declared: no setter for a read-only attribute, nothing of other
      interfaces, nothing under other ids; and the two operations of every object always are. */
  lemma {:induction false} NothingElseIsDeclared(levels: seq<Interface>, n: nat, d: Decl)
    requires levels != [] && n <= |levels| && d in Decls(levels, n)
    ensures OfEveryObject(levels[0].id, d) || exists i :: 0 <= i < n && ComesFrom(levels[i], Ids(levels, i), d)
  {
    if n > 0 {
      var level, ids := levels[n - 1], Ids(levels, n - 1);
      if d in Decls(levels, n - 1) {
        NothingElseIsDeclared(levels, n - 1, d);
      } else if d in AttributeDecls(ids, level.attributes) {
        FromAttributes(ids, level.attributes, d);
      } else {
        FromOperations(ids, level.operations, d);
      }
    }
  }

  lemma {:induction false} ImplicitIsDeclared(levels: seq<Interface>, n: nat, d: Decl)
    requires levels != [] && n <= |levels| && OfEveryObject(levels[0].id, d)
    ensures d in Decls(levels, n)
  {
    if n > 0 { ImplicitIsDeclared(levels, n - 1, d); }
  }

  lemma {:induction false} FromAttributes(ids: seq<string>, attributes: seq<Attribute>, d: Decl)
    requires d in AttributeDecls(ids, attributes)
    ensures (exists a :: a in attributes && d == Decl("_get_" + a.name, ids, true, [], a.tc, []))
      || (exists a :: a in attributes && !a.readonly
                      && d == Decl("_set_" + a.name, ids, true, [Param(a.tc, ArgIn)], Void, []))
  {
    var before, last := attributes[..|attributes| - 1], attributes[|attributes| - 1];
    if d in AttributeDecls(ids, before) {
      FromAttributes(ids, before, d);
    } else {
      assert last in attributes && d in AccessorDecls(ids, last);
    }
  }

  lemma {:induction false} FromOperations(ids: seq<string>, operations: seq<OperationDef>, d: Decl)
    requires d in OperationDecls(ids, operations)
    ensures exists op :: op in operations && d == Decl(op.name, ids, false, op.params, op.result, op.exceptions)
  {
    var before, last := operations[..|operations| - 1], operations[|operations| - 1];
    if d in OperationDecls(ids, before) {
      FromOperations(ids, before, d);
    } else {
      assert last in operations;
    }
  }

  /** Nothing is declared twice over. */
  function Size(level: Interface): nat {
    |level.operations| + |level.attributes| + Writable(level.attributes)
  }

  function Writable(attributes: seq<Attribute>): nat {
    if attributes == [] then 0
    else Writable(attributes[..|attributes| - 1]) + if attributes[|attributes| - 1].readonly then 0 else 1
  }

  function Sizes(levels: seq<Interface>): nat {
    if levels == [] then 0 else Sizes(levels[..|levels| - 1]) + Size(levels[|levels| - 1])
  }

  lemma {:induction false} DeclsCount(levels: seq<Interface>, n: nat)
    requires levels != [] && n <= |levels|
    ensures |Decls(levels, n)| == 2 + Sizes(levels[..n])
  {
    if n > 0 {
      DeclsCount(levels, n - 1);
      assert levels[..n][..n - 1] == levels[..n - 1];
      AttributesCount(Ids(levels, n - 1), levels[n - 1].attributes);
      OperationsCount(Ids(levels, n - 1), levels[n - 1].operations);
    }
  }

  lemma {:induction false} AttributesCount(ids: seq<string>, attributes: seq<Attribute>)
    ensures |AttributeDecls(ids, attributes)| == |attributes| + Writable(attributes)
  {
    if attributes != [] { AttributesCount(ids, attributes[..|attributes| - 1]); }
  }

  lemma {:induction false} OperationsCount(ids: seq<string>, operations: seq<OperationDef>)
    ensures |OperationDecls(ids, operations)| == |operations|
  {
    if operations != [] { OperationsCount(ids, operations[..|operations| - 1]); }
  }

  /** Counts given out by one call: one for every declaration of the desired name. */
  function Given(history: seq<Made>): nat {
    if history == [] then 0 else Given(history[..|history| - 1]) + history[|history| - 1].handles
  }

  lemma {:induction false} GivenPerMatch(history: seq<Made>, op: string)
    requires Marked(history, Some(op))
    ensures Given(history) == MatchCount(DeclsIn(history), op)
  {
    if history != [] {
      var ds := DeclsIn(history);
      assert ds[..|ds| - 1] == DeclsIn(history[..|history| - 1]);
      GivenPerMatch(history[..|history| - 1], op);
    }
  }

  // ---- the tree ----

  /** A turn of the search: `true` is right, taken when the comparison gives exactly 1. */
  type Path = seq<bool>

  /** A comparison of names that is 0 on equal names and on no others. Nothing else is asked
      of it: it need not be an order. */
  ghost predicate Separates(compare: (string, string) -> int) {
    forall a, b :: compare(a, b) == 0 <==> a == b
  }

  class Operation {
    const name: string
    var left: Operation?
    var right: Operation?
    var argSet: seq<OpArgs>

    constructor (name: string)
      ensures this.name == name && left == null && right == null && argSet == []
    {
      this.name, left, right, argSet := name, null, null, [];
    }

    method AddSet(args: OpArgs)
      modifies this`argSet
      ensures argSet == old(argSet) + [args]
    {
      argSet := argSet + [args];
    }

    method Args(id: string) returns (args: ArgList?)
      ensures AsOption(args) == FirstIn(argSet, id)
    {
      for k := 0 to |argSet|
        invariant FirstIn(argSet, id) == FirstIn(argSet[k..], id)
      {
        assert argSet[k..][0] == argSet[k] && argSet[k..][1..] == argSet[k + 1..];
        if argSet[k].id == id { return argSet[k].args; }
      }
      return null;
    }
  }

  /** The search for `name` goes along `p`: at every node before its end the names differ and
      the turn is the one taken. */
  ghost predicate Follows(tree: map<Path, Operation>, compare: (string, string) -> int, name: string, p: Path) {
    forall k :: 0 <= k < |p| ==>
      && p[..k] in tree
      && compare(name, tree[p[..k]].name) != 0
      && p[k] == (compare(name, tree[p[..k]].name) == 1)
  }

  /** There is one path to follow for a name. */
  lemma {:induction false} FollowsAgree(tree: map<Path, Operation>, compare: (string, string) -> int, name: string,
                                        p: Path, q: Path, n: nat)
    requires Follows(tree, compare, name, p) && Follows(tree, compare, name, q) && n <= |p| && n <= |q|
    ensures p[..n] == q[..n]
  {
    if n > 0 {
      FollowsAgree(tree, compare, name, p, q, n - 1);
      assert p[..n] == p[..n - 1] + [p[n - 1]] && q[..n] == q[..n - 1] + [q[n - 1]];
    }
  }

  /** The search for the name of a node never leaves the way to that node. */
  lemma SearchLeadsTo(tree: map<Path, Operation>, compare: (string, string) -> int, p: Path, q: Path)
    requires Separates(compare) && q in tree && Follows(tree, compare, tree[q].name, q)
    requires Follows(tree, compare, tree[q].name, p)
    ensures |p| <= |q| && p == q[..|p|] && p in tree
  {
    FollowsAgree(tree, compare, tree[q].name, p, q, if |p| <= |q| then |p| else |q|);
    assert p[..|p|] == p && q[..|q|] == q;
  }

  /** Every node stands where the search for its own name leads. */
  ghost predicate Placed(tree: map<Path, Operation>, compare: (string, string) -> int, height: nat) {
    && (forall p :: p in tree ==> |p| < height)
    && (forall p {:trigger Follows(tree, compare, tree[p].name, p)} ::
          p in tree ==> Follows(tree, compare, tree[p].name, p))
  }

  lemma PrefixIn(tree: map<Path, Operation>, compare: (string, string) -> int, height: nat, p: Path, k: nat)
    requires Placed(tree, compare, height) && k <= |p|
    ensures p in tree ==> p[..k] in tree
  {
    assert p[..|p|] == p;
    assert p in tree ==> Follows(tree, compare, tree[p].name, p);
  }

  /** Nothing hangs below a free place, and no node stands in two places. */
  lemma PlacedInsert(tree: map<Path, Operation>, compare: (string, string) -> int, height: nat, q: Path)
    requires Separates(compare) && Placed(tree, compare, height) && q !in tree
    ensures forall b :: q + [b] !in tree
    ensures forall p, r :: p in tree && r in tree && tree[p] == tree[r] ==> p == r
  {
    forall b ensures q + [b] !in tree {
      PrefixIn(tree, compare, height, q + [b], |q|);
      assert (q + [b])[..|q|] == q;
    }
    forall p, r | p in tree && r in tree && tree[p] == tree[r] ensures p == r {
      UniqueNames(tree, compare, p, r);
    }
  }

  lemma LastStep(r: Path, b: bool, p: Path, c: bool)
    ensures r + [b] == p + [c] <==> r == p && b == c
  {
    if |r| == |p| {
      assert (r + [b])[..|r|] == r && (p + [c])[..|p|] == p;
      assert (r + [b])[|r|] == b && (p + [c])[|p|] == c;
    }
  }

  lemma RootlessIsEmpty(tree: map<Path, Operation>, compare: (string, string) -> int, height: nat)
    requires Placed(tree, compare, height) && [] !in tree
    ensures tree == map[]
  {
    forall p: Path ensures p !in tree {
      PrefixIn(tree, compare, height, p, 0);
    }
  }

  class OperationTable {
    const compare: (string, string) -> int
    var head: Operation?
    ghost var tree: map<Path, Operation>
    ghost var nodes: set<Operation>
    ghost var height: nat
    ghost var log: seq<Row>
    ghost var history: seq<Made>       // all that was ever declared

    ghost predicate Valid()
      reads this, nodes, Lists()
    {
      ValidTree() && Kept()
    }

    ghost function Lists(): set<ArgList>
      reads this`history
    {
      set m | m in history :: m.args
    }

    /** The log holds the rows of all declarations, and no list was made for two of them. */
    ghost predicate Kept()
      reads this`log, this`history, Lists()
    {
      log == RowsOf(history) && Distinct(history) && AllSound()
    }

    ghost predicate AllSound()
      reads this`history, Lists()
    {
      forall m :: m in history ==> Sound(m)
    }

    /** Nodes and links agree with `tree`; every node stands where the search for its name
        leads, and lists the rows of its name. */
    ghost predicate ValidTree()
      reads this`head, this`tree, this`nodes, this`height, this`log, nodes
    {
      Linked() && Listed()
    }

    ghost predicate Linked()
      reads this`head, this`tree, this`nodes, this`height, nodes`left, nodes`right
    {
      && Separates(compare) && Placed(tree, compare, height)
      && (forall p :: p in tree ==> tree[p] in nodes)
      && Child([], head)
      && (forall p {:trigger tree[p].left} :: p in tree ==> Child(p + [false], tree[p].left))
      && (forall p {:trigger tree[p].right} :: p in tree ==> Child(p + [true], tree[p].right))
    }

    ghost predicate Listed()
      reads this`tree, this`nodes, this`log, nodes`argSet
    {
      && (forall p :: p in tree ==> tree[p] in nodes)
      && (forall p {:trigger tree[p].argSet} :: p in tree ==> tree[p].argSet == Project(log, tree[p].name))
      && (forall r {:trigger Named(r.op)} :: r in log ==> Named(r.op))
    }

    ghost predicate Child(p: Path, node: Operation?)
      reads this`tree
    {
      if p in tree then node == tree[p] else node == null
    }

    ghost predicate Named(name: string)
      reads this`tree
    {
      exists p :: p in tree && tree[p].name == name
    }

    constructor Empty(compare: (string, string) -> int)
      requires Separates(compare)
      ensures Valid() && history == [] && this.compare == compare
    {
      this.compare, head, tree, nodes, height, log, history := compare, null, map[], {}, 0, [], [];
    }

    /** `find`, without the reference count of what it returns. */
    method Search(op: string, id: string) returns (args: ArgList?)
      requires ValidTree()
      ensures AsOption(args) == Lookup(log, op, id)
    {
      var node := head;
      ghost var p: Path := [];
      while node != null
        invariant Follows(tree, compare, op, p) && Child(p, node)
        decreases height - |p|
      {
        var match_ := compare(op, node.name);
        if match_ == 0 {
          LookupInNode(log, op, id);
          args := node.Args(id);
          return;
        }
        FollowsStep(tree, compare, op, p);
        node := if match_ == 1 then node.right else node.left;
        p := p + [match_ == 1];
      }
      Missed(op, p);
      return null;
    }

    lemma {:induction false} Missed(op: string, p: Path)
      requires ValidTree() && Follows(tree, compare, op, p) && p !in tree
      ensures !Named(op) && Project(log, op) == [] && forall id :: Lookup(log, op, id) == None
    {
      forall q | q in tree ensures tree[q].name != op {
        if tree[q].name == op {
          SearchLeadsTo(tree, compare, p, q);
        }
      }
      forall r | r in log ensures r.op != op { assert Named(r.op); }
      ProjectNone(log, op);
      forall id ensures Lookup(log, op, id) == None { LookupInNode(log, op, id); }
    }

    /** Where the search for a name ends: at the node of that name, or at the last node
        before it runs off the tree. */
    method Descend(op: string) returns (node: Operation, ghost p: Path)
      requires ValidTree() && head != null
      ensures p in tree && tree[p] == node && Follows(tree, compare, op, p)
      ensures node.name != op ==> (if compare(op, node.name) == 1 then node.right else node.left) == null
    {
      p, node := [], head;
      while true
        invariant Follows(tree, compare, op, p) && p in tree && tree[p] == node
        decreases height - |p|
      {
        var match_ := compare(op, node.name);
        if match_ == 0 { return; }
        var next := if match_ == 1 then node.right else node.left;
        if next == null { return; }
        FollowsStep(tree, compare, op, p);
        node, p := next, p + [match_ == 1];
      }
    }

    lemma NothingNamed()
      requires Listed() && tree == map[]
      ensures forall r :: r !in log
    {
      forall r ensures r !in log { assert r in log ==> Named(r.op); }
    }

    method Plant(op: string) returns (node: Operation)
      requires ValidTree() && head == null
      modifies this`head, this`tree, this`nodes, this`height
      ensures ValidTree() && log == old(log) && fresh(node) && node.name == op
      ensures [] !in old(tree) && tree == old(tree)[[] := node] && nodes == old(nodes) + {node}
    {
      RootlessIsEmpty(tree, compare, height);
      Missed(op, []);
      NothingNamed();
      node := new Operation(op);
      head, tree, nodes, height := node, map[[] := node], nodes + {node}, 1;
      assert [] + [false] != [] && [] + [true] != [];
    }

    /** Links a new node in under `parent`, at the end of the search path for its name. */
    method Link(parent: Operation, op: string, right: bool, ghost p: Path) returns (node: Operation)
      requires ValidTree() && p in tree && tree[p] == parent && p + [right] !in tree
      requires Follows(tree, compare, op, p + [right])
      modifies this`tree, this`nodes, this`height, parent
      ensures ValidTree() && log == old(log) && fresh(node) && node.name == op
      ensures tree == old(tree)[p + [right] := node] && nodes == old(nodes) + {node}
    {
      Missed(op, p + [right]);
      node := new Operation(op);
      Attach(parent, node, right, p);
      forall r | r in tree ensures tree[r].argSet == Project(log, tree[r].name) {
        if r != p + [right] { assert old(tree[r].argSet == Project(log, tree[r].name)); }
      }
      forall r | r in log ensures Named(r.op) {
        assert old(Named(r.op));
        ghost var q :| q in old(tree) && old(tree)[q].name == r.op;
        assert q in tree && tree[q].name == r.op;
      }
    }

    method Attach(parent: Operation, node: Operation, right: bool, ghost p: Path)
      requires Linked() && p in tree && tree[p] == parent && p + [right] !in tree
      requires Follows(tree, compare, node.name, p + [right])
      requires node !in nodes && node.left == null && node.right == null
      modifies this`tree, this`nodes, this`height, parent`left, parent`right
      ensures Linked() && tree == old(tree)[p + [right] := node] && nodes == old(nodes) + {node}
    {
      ghost var q := p + [right];
      PlacedInsert(tree, compare, height, q);
      if right { parent.right := node; } else { parent.left := node; }
      Extend(q, node);
      forall r | r in tree ensures Child(r + [false], tree[r].left) && Child(r + [true], tree[r].right) {
        LastStep(r, false, p, right);
        LastStep(r, true, p, right);
        if r == q {
          assert |q + [false]| > |q|;
        } else {
          assert old(Child(r + [false], tree[r].left) && Child(r + [true], tree[r].right));
          assert r != p ==> tree[r] != parent;
        }
      }
    }

    ghost method Extend(q: Path, node: Operation)
      requires Separates(compare) && Placed(tree, compare, height) && q !in tree && Follows(tree, compare, node.name, q)
      modifies this`tree, this`nodes, this`height
      ensures tree == old(tree)[q := node] && nodes == old(nodes) + {node} && Placed(tree, compare, height)
    {
      forall r | r in tree ensures Follows(tree[q := node], compare, tree[r].name, r) {
        FollowsKept(tree, compare, tree[r].name, r, q, node);
      }
      FollowsKept(tree, compare, node.name, q, q, node);
      tree, nodes, height := tree[q := node], nodes + {node}, height + |q| + 1;
    }

    /** The node for a name, made if there was none. No lookup changes. */
    method FindOrAdd(op: string) returns (node: Operation, ghost p: Path)
      requires ValidTree()
      modifies this`head, this`tree, this`nodes, this`height, nodes
      ensures ValidTree() && log == old(log)
      ensures p in tree && tree[p] == node && node.name == op
      ensures old(nodes) <= nodes && forall x :: x in nodes ==> x in old(nodes) || fresh(x)
      ensures old(tree) == tree || (p !in old(tree) && tree == old(tree)[p := node])
    {
      if head == null {
        node := Plant(op);
        p := [];
      } else {
        node, p := Descend(op);
        var match_ := compare(op, node.name);
        if match_ != 0 {
          FollowsStep(tree, compare, op, p);
          node := Link(node, op, match_ == 1, p);
          p := p + [match_ == 1];
        }
      }
    }

    /** `add_set` of a new row, which counts the argument list once more. */
    method AddRow(node: Operation, id: string, args: ArgList, ghost p: Path)
      requires ValidTree() && p in tree && tree[p] == node
      modifies node`argSet, this`log, args`refcount
      ensures ValidTree() && log == old(log) + [Row(node.name, id, args)]
      ensures args.refcount == old(args.refcount) + 1
    {
      args.refcount := args.refcount + 1;
      node.AddSet(OpArgs(id, args));
      log := log + [Row(node.name, id, args)];
      forall r | r in tree ensures tree[r].argSet == Project(log, tree[r].name) {
        ProjectAppend(old(log), Row(node.name, id, args), tree[r].name);
        assert old(tree[r].argSet == Project(log, tree[r].name));
        if r != p && tree[r].name == node.name { UniqueNames(tree, compare, r, p); }
      }
    }

    /** A row for every id; then the count that the list was made with is given back. */
    method AddRows(node: Operation, d: Decl, args: ArgList, ghost p: Path)
      requires ValidTree() && p in tree && tree[p] == node && node.name == d.op
      modifies node`argSet, this`log, args`refcount
      ensures ValidTree() && log == old(log) + RowsFor(d, args)
      ensures args.refcount == old(args.refcount) + |d.ids| - 1
    {
      ghost var rows := RowsFor(d, args);
      for k := 0 to |d.ids|
        invariant ValidTree() && log == old(log) + rows[..k] && args.refcount == old(args.refcount) + k
      {
        AddRow(node, d.ids[k], args, p);
        assert rows[..k + 1] == rows[..k] + [Row(d.op, d.ids[k], args)];
      }
      assert rows[..|d.ids|] == rows;
      args.refcount := args.refcount - 1;
    }

    method AddList(d: Decl, keep: bool) returns (args: ArgList)
      requires ValidTree()
      modifies this`head, this`tree, this`nodes, this`height, this`log, nodes
      ensures ValidTree() && fresh(args) && forall x :: x in nodes ==> x in old(nodes) || fresh(x)
      ensures log == old(log) + RowsFor(d, args) && args.refcount == |d.ids| + (if keep then 1 else 0)
      ensures args.params == d.params && args.resultType == d.result && args.exceptions == d.exceptions
      ensures args.MemoOk()
    {
      ghost var p;
      var node;
      node, p := FindOrAdd(d.op);
      args := new ArgList(d.params, d.result, d.exceptions);
      if keep { args.refcount := args.refcount + 1; }
      AddRows(node, d, args, p);
    }

    /** One operation or accessor: a new argument list, listed under each id. `keep` leaves
        one more count, for the caller. */
    method AddDecl(d: Decl, keep: bool) returns (args: ArgList)
      requires Valid()
      modifies this, nodes
      ensures Valid() && fresh(args) && forall x :: x in nodes ==> x in old(nodes) || fresh(x)
      ensures history == old(history) + [Made(d, args, if keep then 1 else 0)]
      ensures args.params == d.params && args.resultType == d.result && args.exceptions == d.exceptions
      ensures args.MemoOk()
    {
      args := AddList(d, keep);
      Record(Made(d, args, if keep then 1 else 0));
    }

    ghost method Record(m: Made)
      requires log == RowsOf(history) + RowsFor(m.decl, m.args) && m.args !in Lists()
      requires Distinct(history) && AllSound() && Sound(m)
      modifies this`history
      ensures Kept() && history == old(history) + [m]
    {
      forall x | x in history ensures x.args != m.args { assert x.args in Lists(); }
      DistinctAppend(history, m);
      assert (history + [m])[..|history|] == history;
      history := history + [m];
    }

    ghost predicate Since(n: nat, ds: seq<Decl>, desired: Option<string>, result: ArgList?)
      reads this`history
    {
      Appended(history, n, ds, desired) && AsOption(result) == ChosenSince(history, n, desired)
    }

    /** The history has been added to; nodes and lists that were not there are new. */
    twostate predicate Grew()
      reads this`history, this`nodes
    {
      && old(history) <= history
      && (forall x :: x in nodes ==> x in old(nodes) || fresh(x))
      && (forall k :: |old(history)| <= k < |history| ==> fresh(history[k].args))
    }

    /** One declaration more; `before` is the list to hand back so far. */
    method AddNext(d: Decl, desired: Option<string>, before: ArgList?, ghost n: nat, ghost ds: seq<Decl>)
      returns (result: ArgList?)
      requires Valid() && Since(n, ds, desired, before)
      modifies this, nodes
      ensures Valid() && Since(n, ds + [d], desired, result) && Grew()
    {
      var args := AddDecl(d, Matches(d, desired));
      result := if Matches(d, desired) then args else before;
      AppendOne(old(history), n, ds, desired, Made(d, args, Mark(d, desired)));
    }

    method AddAccessors(a: Attribute, ids: seq<string>, desired: Option<string>, before: ArgList?,
                        ghost n: nat, ghost ds: seq<Decl>)
      returns (result: ArgList?)
      requires Valid() && Since(n, ds, desired, before)
      modifies this, nodes
      ensures Valid() && Since(n, ds + AccessorDecls(ids, a), desired, result) && Grew()
    {
      result := AddNext(GetDecl(ids, a), desired, before, n, ds);
      if !a.readonly {
        result := AddNext(SetDecl(ids, a), desired, result, n, ds + [GetDecl(ids, a)]);
        TwoMore(ds, GetDecl(ids, a), SetDecl(ids, a));
      }
    }

    method AddAttribute(attributes: seq<Attribute>, at: nat, ids: seq<string>, desired: Option<string>,
                        before: ArgList?, ghost n: nat, ghost ds: seq<Decl>)
      returns (result: ArgList?)
      requires at < |attributes| && Valid() && Since(n, ds + AttributeDecls(ids, attributes[..at]), desired, before)
      modifies this, nodes
      ensures Valid() && Since(n, ds + AttributeDecls(ids, attributes[..at + 1]), desired, result) && Grew()
    {
      NextAttribute(ids, attributes, at, ds);
      result := AddAccessors(attributes[at], ids, desired, before, n, ds + AttributeDecls(ids, attributes[..at]));
    }

    method AddAttributes(attributes: seq<Attribute>, ids: seq<string>, desired: Option<string>, before: ArgList?,
                         ghost n: nat, ghost ds: seq<Decl>)
      returns (result: ArgList?)
      requires Valid() && Since(n, ds, desired, before)
      modifies this, nodes
      ensures Valid() && Since(n, ds + AttributeDecls(ids, attributes), desired, result) && Grew()
    {
      result := before;
      assert ds + [] == ds;
      for at := 0 to |attributes|
        invariant Valid() && Since(n, ds + AttributeDecls(ids, attributes[..at]), desired, result) && Grew()
      {
        result := AddAttribute(attributes, at, ids, desired, result, n, ds);
      }
      assert attributes[..|attributes|] == attributes;
    }

    method AddOperation(operations: seq<OperationDef>, op: nat, ids: seq<string>, desired: Option<string>,
                        before: ArgList?, ghost n: nat, ghost ds: seq<Decl>)
      returns (result: ArgList?)
      requires op < |operations| && Valid() && Since(n, ds + OperationDecls(ids, operations[..op]), desired, before)
      modifies this, nodes
      ensures Valid() && Since(n, ds + OperationDecls(ids, operations[..op + 1]), desired, result) && Grew()
    {
      NextOperation(ids, operations, op, ds);
      ghost var before_ := ds + OperationDecls(ids, operations[..op]);
      result := AddNext(OperationDecl(ids, operations[op]), desired, before, n, before_);
    }

    method AddOperations(operations: seq<OperationDef>, ids: seq<string>, desired: Option<string>, before: ArgList?,
                         ghost n: nat, ghost ds: seq<Decl>)
      returns (result: ArgList?)
      requires Valid() && Since(n, ds, desired, before)
      modifies this, nodes
      ensures Valid() && Since(n, ds + OperationDecls(ids, operations), desired, result) && Grew()
    {
      result := before;
      assert ds + [] == ds;
      for op := 0 to |operations|
        invariant Valid() && Since(n, ds + OperationDecls(ids, operations[..op]), desired, result) && Grew()
      {
        result := AddOperation(operations, op, ids, desired, result, n, ds);
      }
      assert operations[..|operations|] == operations;
    }

    method AddImplicit(id: string, desired: Option<string>, ghost n: nat) returns (result: ArgList?)
      requires Valid() && n == |history|
      modifies this, nodes
      ensures Valid() && Since(n, ImplicitDecls(id), desired, result) && Grew()
    {
      var implicit := ImplicitDecls(id);
      result := AddNext(implicit[0], desired, null, n, []);
      result := AddNext(implicit[1], desired, result, n, [] + [implicit[0]]);
      TwoMore([], implicit[0], implicit[1]);
    }

    /** Interface `i` of the list: its attributes, then its operations. */
    method AddLevel(levels: seq<Interface>, i: nat, desired: Option<string>, before: ArgList?, ghost n: nat)
      returns (result: ArgList?)
      requires i < |levels| && Valid() && Since(n, Decls(levels, i), desired, before)
      modifies this, nodes
      ensures Valid() && Since(n, Decls(levels, i + 1), desired, result) && Grew()
    {
      var ids := Ids(levels, i);
      ghost var ds := Decls(levels, i);
      result := AddAttributes(levels[i].attributes, ids, desired, before, n, ds);
      ds := ds + AttributeDecls(ids, levels[i].attributes);
      result := AddOperations(levels[i].operations, ids, desired, result, n, ds);
    }

    /** One interface after the other, once the implicit operations are there. */
    method AddLevels(levels: seq<Interface>, desired: Option<string>, before: ArgList?, ghost n: nat)
      returns (result: ArgList?)
      requires levels != [] && Valid() && Since(n, Decls(levels, 0), desired, before)
      modifies this, nodes
      ensures Valid() && Since(n, Decls(levels, |levels|), desired, result) && Grew()
    {
      result := before;
      for i := 0 to |levels|
        invariant Valid() && Since(n, Decls(levels, i), desired, result) && Grew()
      {
        result := AddLevel(levels, i, desired, result, n);
      }
    }

    /** `add_interface`: the interface first, then its direct bases. */
    method AddInterface(levels: seq<Interface>, desired: Option<string>) returns (result: ArgList?)
      requires Valid() && levels != []
      modifies this, nodes
      ensures Valid() && Grew() && fresh(nodes - old(nodes)) && fresh(Lists() - old(Lists()))
      ensures DeclaredSince(history, |old(history)|, Decls(levels, |levels|), desired, AsOption(result))
    {
      result := AddImplicit(levels[0].id, desired, |history|);
      result := AddLevels(levels, desired, result, |old(history)|);
      AppendedIsDeclared(history, |old(history)|, Decls(levels, |levels|), desired);
      NewOrOld();
    }

    /** The interface, for the sake of one of its operations. */
    method AddWanted(levels: seq<Interface>, op: string) returns (args: ArgList?)
      requires Valid() && levels != []
      modifies this, nodes
      ensures Valid() && old(history) <= history && RowsOf(old(history)) <= RowsOf(history)
      ensures fresh(nodes - old(nodes)) && fresh(Lists() - old(Lists()))
      ensures DeclaredSince(history, |old(history)|, Decls(levels, |levels|), Some(op), AsOption(args))
      ensures args != null ==> args in Lists()
    {
      args := AddInterface(levels, Some(op));
      RowsGrow(old(history), history);
      if args != null { ChosenIsMade(history, |old(history)|, Some(op)); }
    }

    /** The list a request works with: found, or handed back by adding the interface. */
    method ListForRequest(levels: seq<Interface>, op: string) returns (args: ArgList?)
      requires Valid() && levels != []
      modifies this, nodes, Lists()`refcount
      ensures Valid() && ForRequest(old(history), history, levels, op, AsOption(args))
      ensures fresh(nodes - old(nodes)) && fresh(Lists() - old(Lists()))
      ensures args != null ==> args in Lists()
    {
      args := Find(op, levels[0].id);
      if args == null {
        args := AddWanted(levels, op);
      } else {
        SameLists(old(history), history, args);
      }
    }

    twostate lemma NewOrOld()
      requires Grew()
      ensures forall a :: a in Lists() ==> a in old(Lists()) || fresh(a)
    {
      forall a | a in Lists() ensures a in old(Lists()) || fresh(a) {
        var k :| 0 <= k < |history| && history[k].args == a;
        if k < |old(history)| { assert old(history)[k] in old(history); }
      }
    }

    lemma {:induction false} FoundIsListed(op: string, id: string)
      requires Lookup(RowsOf(history), op, id).Some?
      ensures Lookup(RowsOf(history), op, id).value in Lists()
    {
      FoundIsMade(history, op, id);
      var k :| 0 <= k < |history| && Gives(history[k], op, id, Lookup(RowsOf(history), op, id));
      assert history[k] in history;
    }

    lemma ListIsSound(list: ArgList)
      requires Kept() && list in Lists()
      ensures list.MemoOk()
    {
      var m :| m in history && m.args == list;
      assert Sound(m);
    }

    /** The lists of a table have the signatures they were declared with. */
    lemma AllSigned()
      requires Kept()
      ensures forall m :: m in history ==> Signed(m)
    {
      forall m | m in history ensures Signed(m) { assert Sound(m); }
    }

    /** A table stays valid when one of its lists has learned something right. */
    twostate lemma MemoKeeps(list: ArgList)
      requires old(Valid()) && unchanged(this) && unchanged(nodes) && unchanged(Lists() - {list})
      requires unchanged(list`refcount) && list.MemoOk()
      ensures Valid()
    {
      assert Linked() && Listed();
      forall m | m in history ensures Sound(m) {
        assert old(Sound(m)) && m.args in Lists();
      }
    }

    /** The list of a request, which its reply will or will not find. */
    method ListBeforeReply(levels: seq<Interface>, op: string) returns (args: ArgList?)
      requires Valid() && levels != []
      modifies this, nodes, Lists()`refcount
      ensures Valid() && RowsOf(old(history)) <= RowsOf(history)
      ensures fresh(nodes - old(nodes)) && fresh(Lists() - old(Lists())) && (args != null ==> args in Lists())
      ensures Agree(RowsOf(old(history)), levels, op, AsOption(args), Lookup(RowsOf(history), op, levels[0].id))
      ensures Lookup(RowsOf(old(history)), op, levels[0].id).None? && Sole(Decls(levels, |levels|), op) ==>
        args != null && SignedAs(levels, op, args)
    {
      args := ListForRequest(levels, op);
      RequestListStays(old(history), history, levels, op, AsOption(args));
      if Lookup(RowsOf(old(history)), op, levels[0].id).None? && Sole(Decls(levels, |levels|), op) {
        MatchBounds(Decls(levels, |levels|), op);
        AllSigned();
        RequestListSigned(old(history), history, levels, op, args);
      }
    }

    /** A request and its reply look the operation up one after the other. */
    method RequestThenReply(levels: seq<Interface>, op: string) returns (request: ArgList?, reply: ArgList?)
      requires Valid() && levels != []
      modifies this, nodes, Lists()`refcount
      ensures Valid() && RowsOf(old(history)) <= RowsOf(history)
      ensures forall x :: x in nodes ==> x in old(nodes) || fresh(x)
      ensures forall a :: a in Lists() ==> a in old(Lists()) || fresh(a)
      ensures Agree(RowsOf(old(history)), levels, op, AsOption(request), AsOption(reply))
    {
      request := ListBeforeReply(levels, op);
      reply := ListForReply(op, levels[0].id);
    }

    method ListForReply(op: string, id: string) returns (args: ArgList?)
      requires Valid()
      modifies this`history, Lists()`refcount
      ensures Valid() && RowsOf(history) == RowsOf(old(history)) && Lists() == old(Lists())
      ensures AsOption(args) == Lookup(RowsOf(history), op, id)
    {
      args := Find(op, id);
    }

    /** `find`: the caller gets a count of its own. */
    method Find(op: string, id: string) returns (args: ArgList?)
      requires Valid()
      modifies this`history, Lists()`refcount
      ensures Valid() && RowsOf(history) == RowsOf(old(history))
      ensures AsOption(args) == Lookup(RowsOf(history), op, id)
      ensures if args == null then history == old(history) else CountedOnce(old(history), history, args)
      ensures Lists() == old(Lists())
    {
      args := Search(op, id);
      if args != null {
        FoundIsMade(history, op, id);
        ghost var k :| 0 <= k < |history| && history[k].args == args;
        AddRef(args, k);
      }
    }

    method AddRef(args: ArgList, ghost k: nat)
      requires Kept() && k < |history| && history[k].args == args
      modifies this`history, args`refcount
      ensures Kept() && RowsOf(history) == RowsOf(old(history)) && Lists() == old(Lists())
      ensures CountedOnce(old(history), history, args)
    {
      SameDecls(history, k, More(history[k]));
      assert CountedOnce(history, history[k := More(history[k])], args);
      SameLists(history, history[k := More(history[k])], args);
      assert history[k] in history && Sound(history[k]);
      args.refcount := args.refcount + 1;
      history := history[k := More(history[k])];
      forall m | m in history ensures Sound(m) {
        ghost var j :| 0 <= j < |history| && history[j] == m;
        if j != k { assert old(history)[j] in old(history) && old(Sound(m)); }
      }
    }
  }

  /** Nothing but the number of counts held outside has changed, and that for one list. */
  ghost predicate CountedOnce(before: seq<Made>, history: seq<Made>, args: ArgList) {
    exists k :: 0 <= k < |before| && before[k].args == args && history == before[k := More(before[k])]
  }

  lemma {:induction false} ChosenIsMade(history: seq<Made>, n: nat, desired: Option<string>)
    requires n <= |history| && Chosen(history[n..], desired).Some?
    ensures exists m :: m in history && Some(m.args) == Chosen(history[n..], desired)
    decreases |history|
  {
    var h := history[n..];
    assert history[|history| - 1] in history;
    if !Matches(h[|h| - 1].decl, desired) {
      assert history[..|history| - 1][n..] == h[..|h| - 1];
      ChosenIsMade(history[..|history| - 1], n, desired);
    }
  }

  lemma SameLists(before: seq<Made>, history: seq<Made>, args: ArgList)
    requires CountedOnce(before, history, args)
    ensures (set m | m in history :: m.args) == (set m | m in before :: m.args)
    ensures exists m :: m in history && m.args == args
  {
    var k :| 0 <= k < |before| && before[k].args == args && history == before[k := More(before[k])];
    assert history[k] in history && history[k].args == args;
    ListsWithin(before, history);
    ListsWithin(history, before);
  }

  lemma ListsWithin(a: seq<Made>, b: seq<Made>)
    requires |a| == |b| && forall j :: 0 <= j < |a| ==> a[j].args == b[j].args
    ensures (set m | m in a :: m.args) <= (set m | m in b :: m.args)
  {
    forall m | m in a ensures exists x :: x in b && x.args == m.args {
      var j :| 0 <= j < |a| && a[j] == m;
      assert b[j] in b;
    }
  }

  /** One more count held outside. */
  function More(m: Made): Made { m.(handles := m.handles + 1) }

  lemma {:induction false} SameDecls(history: seq<Made>, k: nat, m: Made)
    requires k < |history| && m.decl == history[k].decl && m.args == history[k].args
    ensures DeclsIn(history[k := m]) == DeclsIn(history) && RowsOf(history[k := m]) == RowsOf(history)
  {
    var h := history[k := m];
    if k == |history| - 1 {
      assert h[..k] == history[..k];
    } else {
      assert h[..|h| - 1] == history[..|h| - 1][k := m];
      SameDecls(history[..|h| - 1], k, m);
    }
  }

  lemma {:induction false} NextAttribute(ids: seq<string>, attributes: seq<Attribute>, at: nat, ds: seq<Decl>)
    requires at < |attributes|
    ensures ds + AttributeDecls(ids, attributes[..at + 1])
         == ds + AttributeDecls(ids, attributes[..at]) + AccessorDecls(ids, attributes[at])
  {
    assert attributes[..at + 1][..at] == attributes[..at];
  }

  lemma TwoMore(ds: seq<Decl>, d: Decl, e: Decl)
    ensures ds + [d] + [e] == ds + ([d] + [e]) && [] + [d] + [e] == [d, e]
  {
  }

  lemma {:induction false} NextOperation(ids: seq<string>, operations: seq<OperationDef>, op: nat, ds: seq<Decl>)
    requires op < |operations|
    ensures ds + OperationDecls(ids, operations[..op + 1])
         == ds + OperationDecls(ids, operations[..op]) + [OperationDecl(ids, operations[op])]
  {
    assert operations[..op + 1][..op] == operations[..op];
  }

  /** Two nodes are one if they have one name. */
  lemma UniqueNames(tree: map<Path, Operation>, compare: (string, string) -> int, p: Path, q: Path)
    requires Separates(compare) && p in tree && q in tree && tree[p].name == tree[q].name
    requires Follows(tree, compare, tree[p].name, p) && Follows(tree, compare, tree[q].name, q)
    ensures p == q
  {
    SearchLeadsTo(tree, compare, p, q);
    SearchLeadsTo(tree, compare, q, p);
  }

  lemma FollowsKept(tree: map<Path, Operation>, compare: (string, string) -> int, name: string, p: Path,
                    q: Path, node: Operation)
    requires Follows(tree, compare, name, p) && q !in tree
    ensures Follows(tree[q := node], compare, name, p)
  {
  }

  lemma FollowsStep(tree: map<Path, Operation>, compare: (string, string) -> int, name: string, p: Path)
    requires Follows(tree, compare, name, p) && p in tree && compare(name, tree[p].name) != 0
    ensures Follows(tree, compare, name, p + [compare(name, tree[p].name) == 1])
  {
    var p' := p + [compare(name, tree[p].name) == 1];
    forall k | 0 <= k < |p'|
      ensures p'[..k] in tree && compare(name, tree[p'[..k]].name) != 0
      ensures p'[k] == (compare(name, tree[p'[..k]].name) == 1)
    {
      assert p'[..k] == p[..k];
      if k == |p| { assert p[..k] == p; }
    }
  }
}
