/** Whole sweeps of the garbage collector: no bound entry is passed over, and each sweep ends. */
module Sweeping {
  import opened Prelude
  import opened SharedTable
  import T = ReferenceTable

  /** The index that `find` uses for the slot the collector stands on, or is about to. */
  function Place(s: State): nat
    requires !s.gc.Resting?
  {
    s.gc.offset + s.gc.index
  }

  /** This run ends while the value at index `i` is being pinged. */
  ghost predicate EndsPinging(s: State, run: seq<Step>, i: nat)
    requires Inv(s)
  {
    Runs(s, run) && Exec(s, run).gc.Pinging? && Place(Exec(s, run)) == i
  }

  /** Index `i` lies ahead of the collector in the sweep under way. */
  ghost predicate Ahead(s: State, i: nat) {
    match s.gc
    case Resting => false
    case Scanning(_, index, offset) => offset + index <= i
    case Pinging(_, index, offset, _, _) => offset + index < i
  }

  /** Where slots come in whole pages, an index past the end of one page lies on another. */
  lemma {:induction false} PageFits(n: nat, size: nat, page: nat)
    requires size > 0 && T.WholePages(n, size) && page * size < n
    ensures page * size + size <= n
    decreases n
  {
    if page > 0 {
      assert (page - 1) * size == page * size - size;
      PageFits(n - size, size, page - 1);
    }
  }

  /** The collector rests only after the last page. */
  lemma RestsAtLastPage(s: State)
    requires Inv(s) && Enabled(s, GcMove) && Next(s, GcMove).gc.Resting?
    ensures s.gc.index == s.table.pageSize && Place(s) == |s.table.slots|
  {
    var t, page := s.table, s.gc.page;
    NextPage(t, page);
    if Place(s) < |t.slots| {
      PageFits(|t.slots|, t.pageSize, page + 1);
    }
  }

  /** A move passes over nothing that is bound. */
  lemma MovePassesNone(s: State, i: nat)
    requires Inv(s) && Enabled(s, GcMove) && i in T.Bound(s.table) && Ahead(s, i)
    ensures Ahead(Next(s, GcMove), i)
  {
    if s.gc.index < s.table.pageSize {
      assert Spot(s.table, s.gc.page, s.gc.index) == Place(s);
    } else if Next(s, GcMove).gc.Resting? {
      RestsAtLastPage(s);
    }
  }

  /** A step that neither unbinds an index nor pings it leaves it bound and ahead. */
  lemma StepStaysAhead(s: State, step: Step, i: nat)
    requires Inv(s) && Enabled(s, step) && i in T.Bound(s.table) && Ahead(s, i)
    requires step != Unbind(i) && !(step.GcPing? && Place(s) == i)
    ensures i in T.Bound(Next(s, step).table) && Ahead(Next(s, step), i)
  {
    if step.GcMove? {
      MovePassesNone(s, i);
    } else if OfCollector(step) {
      StepKeepsSlot(s, step, i);
    } else {
      ActStaysAhead(s, step, i);
    }
  }

  lemma ActStaysAhead(s: State, step: Step, i: nat)
    requires Inv(s) && Enabled(s, step) && !OfCollector(step) && i in T.Bound(s.table) && Ahead(s, i)
    requires step != Unbind(i)
    ensures i in T.Bound(Next(s, step).table) && Ahead(Next(s, step), i)
  {
    if step.Rebind? && step.i == i {
      T.RebindKeeps(s.table, i, step.a);
    } else {
      StepKeepsSlot(s, step, i);
    }
  }

  /** Every entry that lies ahead of the collector and is not unbound is being pinged after
      some first part of any run at whose end the collector rests, whatever the threads do. */
  lemma {:induction false} SweepPingsAll(s: State, steps: seq<Step>, i: nat) returns (part: seq<Step>)
    requires Inv(s) && Runs(s, steps) && i in T.Bound(s.table) && Ahead(s, i)
    requires forall k :: 0 <= k < |steps| ==> steps[k] != Unbind(i)
    requires Exec(s, steps).gc.Resting?
    ensures part <= steps && EndsPinging(s, part, i)
    decreases |steps|
  {
    var step := steps[0];
    StepKeepsInv(s, step);
    var s1, rest := Next(s, step), [];
    if step.GcPing? && Place(s) == i {
      PingUnderWay(s, s1);
    } else {
      StepStaysAhead(s, step, i);
      rest := SweepPingsAll(s1, steps[1..], i);
    }
    EndsPingingCons(s, step, s1, rest, i);
    part := [step] + rest;
  }

  lemma PingUnderWay(s: State, s1: State)
    requires Inv(s) && Enabled(s, GcPing) && s1 == Next(s, GcPing) && Inv(s1)
    ensures EndsPinging(s1, [], Place(s))
  {
  }

  lemma EndsPingingCons(s: State, step: Step, s1: State, rest: seq<Step>, i: nat)
    requires Inv(s) && Enabled(s, step) && Next(s, step) == s1 && Inv(s1) && EndsPinging(s1, rest, i)
    ensures EndsPinging(s, [step] + rest, i)
  {
    Cons(s, step, s1, rest);
  }

  /** Steps of the collector within one sweep. */
  ghost predicate OneSweep(steps: seq<Step>) {
    forall k :: 0 <= k < |steps| ==> OfCollector(steps[k]) && !steps[k].GcWake?
  }

  /** The entries that are left when those ahead whose natives are dead have been reaped. */
  ghost function Left(s: State, dead: set<nat>): set<nat>
    requires !s.gc.Resting?
  {
    set i | i in T.Bound(s.table) && (i < Place(s) || i !in dead)
  }

  /** One step put before a sweep. */
  lemma SweepCons(s: State, step: Step, s1: State, rest: seq<Step>) returns (run: seq<Step>)
    requires Inv(s) && Enabled(s, step) && Next(s, step) == s1 && Inv(s1) && Runs(s1, rest)
    requires OfCollector(step) && !step.GcWake? && OneSweep(rest)
    ensures Runs(s, run) && Exec(s, run) == Exec(s1, rest) && OneSweep(run)
  {
    Cons(s, step, s1, rest);
    run := [step] + rest;
  }

  /** From every state of a sweep the collector alone can finish it: it comes to rest, and of
      the entries ahead exactly those whose natives are dead are gone. */
  lemma SweepReapsTheDead(s: State, dead: set<nat>) returns (run: seq<Step>)
    requires Inv(s) && s.gc.Scanning? && Place(s) <= |s.table.slots|
    ensures Runs(s, run) && OneSweep(run)
    ensures Exec(s, run).gc.Resting? && T.Bound(Exec(s, run).table) == Left(s, dead)
    decreases |s.table.slots| - Place(s), s.gc.index
  {
    if s.gc.index < s.table.pageSize && Under(s).Some? {
      run := PingAndRecheck(s, dead);
    } else {
      StepKeepsInv(s, GcMove);
      var s1 := Next(s, GcMove);
      var rest := [];
      if s1.gc.Resting? {
        RestsAtLastPage(s);
      } else {
        MoveInside(s);
        rest := SweepReapsTheDead(s1, dead);
        MoveLeaves(s, dead);
      }
      run := SweepCons(s, GcMove, s1, rest);
    }
  }

  lemma MoveInside(s: State)
    requires Inv(s) && Enabled(s, GcMove) && Next(s, GcMove).gc.Scanning? && Place(s) <= |s.table.slots|
    ensures var s1 := Next(s, GcMove); s1.table == s.table && Place(s1) <= |s.table.slots|
    ensures var s1 := Next(s, GcMove);
      Place(s1) == Place(s) + 1 || (Place(s1) == Place(s) && s1.gc.index < s.gc.index)
  {
    NextPage(s.table, s.gc.page);
  }

  lemma MoveLeaves(s: State, dead: set<nat>)
    requires Inv(s) && Enabled(s, GcMove) && Next(s, GcMove).gc.Scanning?
    ensures Left(Next(s, GcMove), dead) == Left(s, dead)
  {
    assert s.gc.index < s.table.pageSize ==> Spot(s.table, s.gc.page, s.gc.index) == Place(s);
    assert Next(s, GcMove).table == s.table;
  }

  lemma PingAndRecheck(s: State, dead: set<nat>) returns (run: seq<Step>)
    requires Inv(s) && s.gc.Scanning? && s.gc.index < s.table.pageSize && Under(s).Some?
    requires Place(s) <= |s.table.slots|
    ensures Runs(s, run) && OneSweep(run)
    ensures Exec(s, run).gc.Resting? && T.Bound(Exec(s, run).table) == Left(s, dead)
    decreases |s.table.slots| - Place(s), s.gc.index, 0
  {
    StepKeepsInv(s, GcPing);
    var s1 := Next(s, GcPing);
    var recheck := GcRecheck(Place(s) in dead);
    StepKeepsInv(s1, recheck);
    var s2 := Next(s1, recheck);
    RecheckLeaves(s, s1, s2, dead);
    var rest := SweepReapsTheDead(s2, dead);
    rest := SweepCons(s1, recheck, s2, rest);
    run := SweepCons(s, GcPing, s1, rest);
  }

  lemma RecheckLeaves(s: State, s1: State, s2: State, dead: set<nat>)
    requires Inv(s) && Enabled(s, GcPing) && s1 == Next(s, GcPing) && Inv(s1)
    requires s2 == Next(s1, GcRecheck(Place(s) in dead))
    ensures s2.gc.Scanning? && Place(s2) == Place(s) + 1 <= |s.table.slots| == |s2.table.slots|
    ensures Left(s2, dead) == Left(s, dead)
  {
    PingStays(s, s1);
    RecheckTakes(s1, Place(s) in dead);
    LeftOver(s, s2, dead);
  }

  lemma LeftOver(s: State, s': State, dead: set<nat>)
    requires !s.gc.Resting? && !s'.gc.Resting? && Place(s') == Place(s) + 1
    requires T.Bound(s'.table) == if Place(s) in dead then T.Bound(s.table) - {Place(s)} else T.Bound(s.table)
    ensures Left(s', dead) == Left(s, dead)
  {
  }

  lemma PingStays(s: State, s1: State)
    requires Inv(s) && Enabled(s, GcPing) && s1 == Next(s, GcPing)
    ensures s1.gc.Pinging? && s1.table == s.table && Place(s1) == Place(s) && Under(s1) == Some(s1.gc.value)
    ensures Place(s) < |s.table.slots|
  {
    assert Spot(s.table, s.gc.page, s.gc.index) == Place(s);
  }

  /** A recheck that finds its value takes the entry away exactly if the ping found it dead. */
  lemma RecheckTakes(s: State, expired: bool)
    requires Inv(s) && s.gc.Pinging? && Under(s) == Some(s.gc.value)
    ensures var s' := Next(s, GcRecheck(expired));
      && s'.gc.Scanning? && Place(s') == Place(s) + 1 && |s'.table.slots| == |s.table.slots|
      && T.Bound(s'.table) == if expired then T.Bound(s.table) - {Place(s)} else T.Bound(s.table)
  {
    ReapFreesItsIndex(s);
    T.ClearKeeps(s.table, Place(s));
  }

  /** A part of `steps` after which the value at index `i` is being pinged. */
  ghost predicate PingedOnTheWay(s: State, steps: seq<Step>, i: nat)
    requires Inv(s)
  {
    exists part :: part <= steps && EndsPinging(s, part, i)
  }

  lemma {:induction false} PingedAfterWaking(s: State, s1: State, sweep: seq<Step>, i: nat)
    requires Inv(s) && s.gc.Resting? && s1 == Next(s, GcWake) && Inv(s1) && i in T.Bound(s.table)
    requires Runs(s1, sweep) && OneSweep(sweep) && Exec(s1, sweep).gc.Resting?
    ensures PingedOnTheWay(s, [GcWake] + sweep, i)
  {
    var part := SweepPingsAll(s1, sweep, i);
    EndsPingingCons(s, GcWake, s1, part, i);
    assert [GcWake] + part <= [GcWake] + sweep;
  }

  /** Woken up, the collector alone runs to the end of a sweep: it has pinged every bound
      entry, and has taken away exactly those whose natives are dead. */
  lemma FullSweep(s: State, dead: set<nat>) returns (sweep: seq<Step>, s': State)
    requires Inv(s) && s.gc.Resting?
    ensures OneSweep(sweep) && Runs(s, [GcWake] + sweep) && Exec(s, [GcWake] + sweep) == s'
    ensures s'.gc.Resting? && T.Bound(s'.table) == T.Bound(s.table) - dead
    ensures forall i :: i in T.Bound(s.table) ==> PingedOnTheWay(s, [GcWake] + sweep, i)
  {
    StepKeepsInv(s, GcWake);
    var s1 := Next(s, GcWake);
    sweep := SweepReapsTheDead(s1, dead);
    s' := Exec(s1, sweep);
    Cons(s, GcWake, s1, sweep);
    assert Left(s1, dead) == T.Bound(s.table) - dead;
    forall i | i in T.Bound(s.table) ensures PingedOnTheWay(s, [GcWake] + sweep, i) {
      PingedAfterWaking(s, s1, sweep, i);
    }
  }
}
