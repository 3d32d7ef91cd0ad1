/** What the program does with chapter 7 itself between two scheduling calls: generate
    and call objects, enter systems of their own, resume among their components. */
module Excursions {
  import opened Prelude
  import Chapter7
  import Chapter7Runs
  import opened SequencingSet
  import opened SimulationRuns

  // ------------------------------------------------------------- coming back

  /** Old objects keep their names, their coroutines, their systems and their generators. */
  ghost predicate SameObjects(t: Chapter7.State, t': Chapter7.State) {
    && |t.comps| <= |t'.comps|
    && forall i :: 0 <= i < |t.comps| ==>
         var c, c' := t.comps[i], t'.comps[i];
         c'.ref == c.ref && c'.head == c.head && c'.system == c.system && c'.origin == c.origin
  }

  lemma LeaveSameObjects(t: Chapter7.State, i: nat, next: Chapter7.Status)
    requires i < |t.comps| && Chapter7.DoLeave(t, i, next).Ok?
    ensures SameObjects(t, Chapter7.DoLeave(t, i, next).value)
  {
  }

  lemma ResumeSameObjects(t: Chapter7.State, i: nat)
    requires i < |t.comps| && Chapter7.DoResume(t, i).Ok?
    ensures SameObjects(t, Chapter7.DoResume(t, i).value)
  {
  }

  lemma HandOverSameObjects(t: Chapter7.State, i: nat, n: nat)
    requires i < |t.comps| && n < |t.comps| && Chapter7.DoTerminateResuming(t, i, n).Ok?
    ensures SameObjects(t, Chapter7.DoTerminateResuming(t, i, n).value)
  {
  }

  lemma StepSameObjects(t: Chapter7.State, op: Chapter7.Op)
    requires Chapter7.Named(t, op) && Chapter7.Step(t, op).Ok?
    ensures SameObjects(t, Chapter7.Step(t, op).value)
  {
    hide Chapter7.DoLeave, Chapter7.DoResume, Chapter7.DoTerminateResuming;
    match op
    case Detach(i) => if t.comps[i].head.Some? { LeaveSameObjects(t, i, Chapter7.Detached); }
    case Terminate(i) => LeaveSameObjects(t, i, Chapter7.Terminated);
    case Resume(i) => ResumeSameObjects(t, i);
    case TerminateResuming(i, n) => HandOverSameObjects(t, i, n);
    case _ =>
  }

  /** A new object has a new address. */
  ghost predicate NewName(t: Chapter7.State, op: Chapter7.Op) {
    match op
    case Create(ref, _) => ref > MAIN && Find(t.comps, ref).None?
    case MarkBlock(ref) => ref > MAIN && Find(t.comps, ref).None?
    case _ => true
  }

  ghost predicate NewNames(t: Chapter7.State, ops: seq<Chapter7.Op>)
    requires Chapter7Runs.Lawful(t, ops)
    decreases |ops|
  {
    ops != [] ==> NewName(t, ops[0]) && NewNames(Chapter7.Step(t, ops[0]).value, ops[1..])
  }

  lemma StepNamed(t: Chapter7.State, op: Chapter7.Op)
    requires Chapter7.WellFormed(t) && Named(t.comps) && NewName(t, op)
    requires Chapter7.Named(t, op) && Chapter7.Step(t, op).Ok?
    ensures Named(Chapter7.Step(t, op).value.comps)
  {
    hide Chapter7.WellFormed;
    var t' := Chapter7.Step(t, op).value;
    StepSameObjects(t, op);
    Chapter7Runs.HeadsStay(t, op);
    if op.Create? || op.MarkBlock? {
      Chapter7Runs.NewHead(t, op);
      NewestIs(t, op);
    }
    hide Chapter7.Step, Find;
  }

  lemma NewestIs(t: Chapter7.State, op: Chapter7.Op)
    requires Chapter7.Named(t, op) && Chapter7.Step(t, op).Ok? && NewName(t, op) && (op.Create? || op.MarkBlock?)
    ensures var t' := Chapter7.Step(t, op).value;
            && |t'.comps| == |t.comps| + 1 && t'.comps[|t.comps|].ref > MAIN
            && forall i :: 0 <= i < |t.comps| ==> t.comps[i].ref != t'.comps[|t.comps|].ref
  {
  }

  lemma {:induction false} RunNamed(t: Chapter7.State, ops: seq<Chapter7.Op>)
    requires Chapter7.Inv(t) && Named(t.comps) && Chapter7Runs.Lawful(t, ops) && NewNames(t, ops)
    ensures Chapter7.Inv(Chapter7Runs.After(t, ops)) && Named(Chapter7Runs.After(t, ops).comps)
    ensures SameObjects(t, Chapter7Runs.After(t, ops))
    decreases |ops|
  {
    hide Chapter7.Linear, Chapter7.OperativeIffResumed, Chapter7.WellFormed, Chapter7.Named, Chapter7.Step;
    hide Chapter7Runs.Harmless, Named, NewName;
    if ops != [] {
      var next := Chapter7.Step(t, ops[0]).value;
      Chapter7Runs.StepInvIff(t, ops[0]);
      StepNamed(t, ops[0]);
      StepSameObjects(t, ops[0]);
      RunNamed(next, ops[1..]);
    }
  }

  /** Control is back where it was: the same coroutine runs, the SIMULATION system is
      open and has the operative component it had, parked MAIN included, and no object
      is parked as MAIN's coroutine. */
  ghost predicate Back(s: Sim, t: Chapter7.State) {
    && t.current == s.ch7.current
    && s.sys < |t.systems| && s.sys < |s.ch7.systems| && t.systems[s.sys].open
    && t.systems[s.sys].operative == s.ch7.systems[s.sys].operative
    && (t.systems[s.sys].operative.Some? ==> t.systems[s.sys].mainPark == s.ch7.systems[s.sys].mainPark)
    && Untouched(t.comps, s.main)
  }

  /** Whatever the program does with chapter 7, however long and whomever it names,
      scheduling stands where it stood if and only if control is back. */
  lemma ExcursionIff(s: Sim, ops: seq<Chapter7.Op>)
    requires SimInv(s) && Chapter7Runs.Lawful(s.ch7, ops) && NewNames(s.ch7, ops)
    ensures SimInv(s.(ch7 := Chapter7Runs.After(s.ch7, ops))) <==> Back(s, Chapter7Runs.After(s.ch7, ops))
  {
    hide SetOk, Chapter7.Inv;
    RunNamed(s.ch7, ops);
    var t := Chapter7Runs.After(s.ch7, ops);
    hide Chapter7Runs.After, Chapter7Runs.Lawful, NewNames;
    BackIff(s, t);
  }

  lemma BackIff(s: Sim, t: Chapter7.State)
    requires SimInv(s) && Chapter7.Inv(t) && Named(t.comps) && SameObjects(s.ch7, t)
    ensures SimInv(s.(ch7 := t)) <==> Back(s, t)
  {
    hide SetOk, Chapter7.Inv;
    assert InControl(s);
    if s.ch7.systems[s.sys].operative.Some? {
      var i := s.ch7.systems[s.sys].operative.value;
      assert t.comps[i].ref == s.running && t.comps[i].head == s.ch7.comps[i].head;
    }
    if InControl(s.(ch7 := t)) {
      SameRunner(s, t);
    }
    hide Named, Untouched;
  }

  lemma SameRunner(s: Sim, t: Chapter7.State)
    requires InControl(s) && InControl(s.(ch7 := t)) && Named(s.ch7.comps) && Named(t.comps) && SameObjects(s.ch7, t)
    ensures t.systems[s.sys].operative == s.ch7.systems[s.sys].operative && t.current == s.ch7.current
    ensures t.systems[s.sys].operative.Some? ==> t.systems[s.sys].mainPark == s.ch7.systems[s.sys].mainPark
  {
  }

  // ------------------------------------------------------------- other objects only

  /** Component `i` is a process of the SIMULATION system that is scheduled, or the one
      in control. */
  ghost predicate Bound(s: Sim, i: nat) {
    && i < |s.ch7.comps| && s.sys < |s.ch7.systems|
    && ((s.ch7.comps[i].system == Some(s.sys) && Scheduled(s.notices, s.ch7.comps[i].ref))
        || s.ch7.systems[s.sys].operative == Some(i))
  }

  ghost predicate Free(s: Sim, t: Chapter7.State, i: nat) {
    i < |t.comps| && !Bound(s, i)
  }

  /** MAIN is in control, or the statement resumes in another system than its own. */
  ghost predicate MayResume(s: Sim, t: Chapter7.State, n: nat) {
    && Free(s, t, n)
    && (t.comps[n].system == Some(s.sys) ==> s.sys < |s.ch7.systems| && s.ch7.systems[s.sys].operative.None?)
  }

  /** A statement on objects that are neither scheduled nor in control; a component of
      the SIMULATION system is resumed from MAIN only. */
  ghost predicate Outside(s: Sim, t: Chapter7.State, op: Chapter7.Op) {
    match op
    case Create(_, _) => NewName(t, op)
    case MarkBlock(_) => NewName(t, op)
    case Start(i) => Free(s, t, i)
    case Detach(i) => Free(s, t, i)
    case Terminate(i) => Free(s, t, i)
    case Call(i) => Free(s, t, i)
    case Resume(i) => MayResume(s, t, i)
    case TerminateResuming(i, n) => Free(s, t, i) && MayResume(s, t, n)
    case Enter => true
    case Exit(k) => k != s.sys
  }

  ghost predicate AllOutside(s: Sim, t: Chapter7.State, ops: seq<Chapter7.Op>)
    requires Chapter7Runs.Lawful(t, ops)
    decreases |ops|
  {
    ops != [] ==> Outside(s, t, ops[0]) && AllOutside(s, Chapter7.Step(t, ops[0]).value, ops[1..])
  }

  /** The record of the SIMULATION system while the program is away: as it was, if a
      process is in control; else none of the scheduled processes is operative. */
  ghost predicate SystemAside(s: Sim, t: Chapter7.State) {
    && s.sys < |t.systems| && s.sys < |s.ch7.systems| && t.systems[s.sys].open
    && match s.ch7.systems[s.sys].operative
       case Some(j) => Bound(s, j) && t.systems[s.sys] == s.ch7.systems[s.sys]
       case None => t.systems[s.sys].operative.Some? ==> !Bound(s, t.systems[s.sys].operative.value)
  }

  /** The scheduled processes and the one in control stand in `t` as they do in `s`. */
  ghost predicate Aside(s: Sim, t: Chapter7.State) {
    && |s.ch7.comps| <= |t.comps| && SystemAside(s, t)
    && forall i :: 0 <= i < |s.ch7.comps| && Bound(s, i) ==> t.comps[i] == s.ch7.comps[i]
  }

  /** Of the components there were none but `i` and `j` may be rewritten. */
  ghost predicate Rewritten(t: Chapter7.State, t': Chapter7.State, i: nat, j: nat) {
    |t.comps| <= |t'.comps| && forall n :: 0 <= n < |t.comps| && n != i && n != j ==> t'.comps[n] == t.comps[n]
  }

  lemma RewrittenAside(s: Sim, t: Chapter7.State, t': Chapter7.State, i: nat, j: nat)
    requires Aside(s, t) && Rewritten(t, t', i, j) && Free(s, t, i) && Free(s, t, j) && SystemAside(s, t')
    ensures Aside(s, t')
  {
    hide Bound, SystemAside;
  }

  lemma LeaveAside(s: Sim, t: Chapter7.State, i: nat, next: Chapter7.Status)
    requires Chapter7.OperativeIffResumed(t) && Aside(s, t) && Free(s, t, i)
    requires next in {Chapter7.Detached, Chapter7.Terminated} && Chapter7.DoLeave(t, i, next).Ok?
    ensures Aside(s, Chapter7.DoLeave(t, i, next).value)
  {
    hide Bound;
    RewrittenAside(s, t, Chapter7.DoLeave(t, i, next).value, i, i);
  }

  lemma EntersAside(s: Sim, t: Chapter7.State, i: nat)
    requires Aside(s, t) && Free(s, t, i)
    ensures Chapter7.DoStart(t, i).Ok? ==> Aside(s, Chapter7.DoStart(t, i).value)
    ensures Chapter7.DoCall(t, i).Ok? ==> Aside(s, Chapter7.DoCall(t, i).value)
  {
    hide Bound;
    if Chapter7.DoStart(t, i).Ok? { RewrittenAside(s, t, Chapter7.DoStart(t, i).value, i, i); }
    if Chapter7.DoCall(t, i).Ok? { RewrittenAside(s, t, Chapter7.DoCall(t, i).value, i, i); }
  }

  /** The operative component of a system that the program may resume in. */
  lemma OperativeFree(s: Sim, t: Chapter7.State, i: nat, j: nat)
    requires Chapter7.OperativeIffResumed(t) && Aside(s, t) && MayResume(s, t, i)
    requires t.comps[i].system.Some? && t.comps[i].system.value < |t.systems|
    requires t.systems[t.comps[i].system.value].operative == Some(j)
    ensures Free(s, t, j)
  {
  }

  lemma ResumeAside(s: Sim, t: Chapter7.State, i: nat)
    requires Chapter7.OperativeIffResumed(t) && Aside(s, t) && MayResume(s, t, i) && Chapter7.DoResume(t, i).Ok?
    ensures Aside(s, Chapter7.DoResume(t, i).value)
  {
    var t' := Chapter7.DoResume(t, i).value;
    if t' != t {
      var k := t.comps[i].system.value;
      var j := if t.systems[k].operative.Some? then t.systems[k].operative.value else i;
      if t.systems[k].operative.Some? { OperativeFree(s, t, i, j); }
      hide Bound, Chapter7.OperativeIffResumed;
      RewrittenAside(s, t, t', i, j);
    }
  }

  lemma HandOverAside(s: Sim, t: Chapter7.State, i: nat, n: nat)
    requires Aside(s, t) && Free(s, t, i) && MayResume(s, t, n) && Chapter7.DoTerminateResuming(t, i, n).Ok?
    ensures Aside(s, Chapter7.DoTerminateResuming(t, i, n).value)
  {
    hide Bound;
    RewrittenAside(s, t, Chapter7.DoTerminateResuming(t, i, n).value, i, n);
  }

  /** A statement on other objects leaves the scheduled processes and the one in control
      as they are. */
  lemma StepAside(s: Sim, t: Chapter7.State, op: Chapter7.Op)
    requires Chapter7.OperativeIffResumed(t) && Aside(s, t) && Outside(s, t, op)
    requires Chapter7.Named(t, op) && Chapter7.Step(t, op).Ok?
    ensures Aside(s, Chapter7.Step(t, op).value)
  {
    hide Bound, Aside, MayResume, Chapter7.OperativeIffResumed;
    match op
    case Create(_, _) => RecordsAside(s, t, Chapter7.Step(t, op).value);
    case MarkBlock(_) => RecordsAside(s, t, Chapter7.Step(t, op).value);
    case Start(i) => EntersAside(s, t, i);
    case Detach(i) => if t.comps[i].head.Some? { LeaveAside(s, t, i, Chapter7.Detached); }
    case Terminate(i) => LeaveAside(s, t, i, Chapter7.Terminated);
    case Call(i) => EntersAside(s, t, i);
    case Resume(i) => ResumeAside(s, t, i);
    case TerminateResuming(i, n) => HandOverAside(s, t, i, n);
    case Enter => RecordsAside(s, t, Chapter7.Step(t, op).value);
    case Exit(k) => RecordsAside(s, t, Chapter7.Step(t, op).value);
  }

  /** More components, more systems, or another system closed. */
  lemma RecordsAside(s: Sim, t: Chapter7.State, t': Chapter7.State)
    requires Aside(s, t) && t.comps <= t'.comps && |t.systems| <= |t'.systems|
    requires s.sys < |t.systems| ==> t'.systems[s.sys] == t.systems[s.sys]
    ensures Aside(s, t')
  {
    hide Bound;
  }

  /** So do any number of them. */
  lemma {:induction false} RunAside(s: Sim, t: Chapter7.State, ops: seq<Chapter7.Op>)
    requires Chapter7.Inv(t) && Aside(s, t) && Chapter7Runs.Lawful(t, ops) && AllOutside(s, t, ops)
    ensures Aside(s, Chapter7Runs.After(t, ops))
    decreases |ops|
  {
    hide Chapter7.Linear, Chapter7.OperativeIffResumed, Chapter7.WellFormed, Chapter7.Named, Chapter7.Step;
    hide Chapter7Runs.Harmless, Aside, Outside;
    if ops != [] {
      StepAside(s, t, ops[0]);
      Chapter7Runs.StepInvIff(t, ops[0]);
      RunAside(s, Chapter7.Step(t, ops[0]).value, ops[1..]);
    }
  }

  lemma {:induction false} OutsideNames(s: Sim, t: Chapter7.State, ops: seq<Chapter7.Op>)
    requires Chapter7Runs.Lawful(t, ops) && AllOutside(s, t, ops)
    ensures NewNames(t, ops)
    decreases |ops|
  {
    hide Chapter7.Named, Chapter7.Step, Chapter7Runs.Harmless, Free, MayResume;
    if ops != [] {
      OutsideNames(s, Chapter7.Step(t, ops[0]).value, ops[1..]);
    }
  }

  /** Whatever the program does with objects that are neither scheduled nor in control,
      scheduling stands where it stood if and only if the coroutine runs again that ran,
      the SIMULATION system has the operative component it had, and no object is parked
      as MAIN's coroutine; and whoever was scheduled and ready still is. */
  lemma OutsideIff(s: Sim, ops: seq<Chapter7.Op>)
    requires SimInv(s) && Chapter7Runs.Lawful(s.ch7, ops) && AllOutside(s, s.ch7, ops)
    ensures var t := Chapter7Runs.After(s.ch7, ops);
            && s.sys < |t.systems|
            && (SimInv(s.(ch7 := t))
                <==> && t.current == s.ch7.current
                     && t.systems[s.sys].operative == s.ch7.systems[s.sys].operative
                     && Untouched(t.comps, s.main))
            && (AllReady(s) ==> AllReady(s.(ch7 := t)))
  {
    OutsideNames(s, s.ch7, ops);
    ExcursionIff(s, ops);
    AsideItself(s);
    var t := Chapter7Runs.After(s.ch7, ops);
    hide SetOk, Chapter7.Linear, Chapter7.OperativeIffResumed, Chapter7.WellFormed;
    RunAside(s, s.ch7, ops);
    hide Chapter7Runs.After, Chapter7Runs.Lawful, AllOutside, Bound;
    if AllReady(s) { StillReady(s, t); }
    hide Untouched, AllReady, SimInv;
  }

  lemma AsideItself(s: Sim)
    requires SimInv(s)
    ensures Aside(s, s.ch7)
  {
    hide Chapter7.Inv, Named, Untouched, SetOk, Scheduled;
  }

  lemma StillReady(s: Sim, t: Chapter7.State)
    requires AllReady(s) && Aside(s, t)
    ensures AllReady(s.(ch7 := t))
  {
    var s' := s.(ch7 := t);
    hide ReadyAt;
    forall n | n in s'.notices && n.process != MAIN ensures Ready(s', n.process) {
      var i :| 0 <= i < |s.ch7.comps| && s.ch7.comps[i].ref == n.process && ReadyAt(s, i);
      ReadyStays(s, t, i, n);
    }
  }

  lemma ReadyStays(s: Sim, t: Chapter7.State, i: nat, n: Notice)
    requires Aside(s, t) && i < |s.ch7.comps| && ReadyAt(s, i) && n in s.notices && s.ch7.comps[i].ref == n.process
    ensures i < |t.comps| && t.comps[i].ref == n.process && ReadyAt(s.(ch7 := t), i)
  {
    assert Bound(s, i);
  }

  // ------------------------------------------------------------- whole runs

  /** A scheduling call, or what the program does between two of them. */
  datatype Leg = Scheduling(op: Op) | Elsewhere(ops: seq<Chapter7.Op>)

  ghost predicate LegRuns(s: Sim, leg: Leg) {
    leg.Elsewhere? ==> Chapter7Runs.Lawful(s.ch7, leg.ops)
  }

  ghost function AfterLeg(s: Sim, leg: Leg): Outcome
    requires LegRuns(s, leg)
  {
    match leg
    case Scheduling(op) => Step(s, op)
    case Elsewhere(ops) => Ok(s.(ch7 := Chapter7Runs.After(s.ch7, ops)))
  }

  /** What the compiler sees to. */
  ghost predicate LegAsked(s: Sim, leg: Leg)
    ensures LegAsked(s, leg) ==> LegRuns(s, leg)
  {
    match leg
    case Scheduling(op) => Permitted(s, op)
    case Elsewhere(ops) => Chapter7Runs.Lawful(s.ch7, ops) && NewNames(s.ch7, ops)
  }

  ghost predicate FairLeg(s: Sim, leg: Leg)
    requires LegRuns(s, leg)
  {
    match leg
    case Scheduling(op) => Fair(s, op)
    case Elsewhere(ops) => Back(s, Chapter7Runs.After(s.ch7, ops))
  }

  /** The leg went well, and another one starts. */
  ghost predicate GoesOn(s: Sim, leg: Leg)
    requires LegRuns(s, leg)
  {
    AfterLeg(s, leg).Ok? && SimInv(AfterLeg(s, leg).value)
  }

  /** As long as the correspondence holds, each leg is one that programs can bring about. */
  ghost predicate Asked(s: Sim, legs: seq<Leg>)
    decreases |legs|
  {
    legs != [] ==>
      LegAsked(s, legs[0]) && (GoesOn(s, legs[0]) ==> Asked(AfterLeg(s, legs[0]).value, legs[1..]))
  }

  /** The correspondence holds at the end of every leg, until the set is full. */
  ghost predicate HoldsThroughout(s: Sim, legs: seq<Leg>)
    requires Asked(s, legs)
    decreases |legs|
  {
    legs != [] ==>
      if GoesOn(s, legs[0]) then HoldsThroughout(AfterLeg(s, legs[0]).value, legs[1..])
      else AfterLeg(s, legs[0]) == Err(LimitExceeded)
  }

  ghost predicate FairThroughout(s: Sim, legs: seq<Leg>)
    requires Asked(s, legs)
    decreases |legs|
  {
    legs != [] ==>
      && FairLeg(s, legs[0])
      && (GoesOn(s, legs[0]) ==> FairThroughout(AfterLeg(s, legs[0]).value, legs[1..]))
  }

  lemma LegIff(s: Sim, leg: Leg)
    requires SimInv(s) && LegAsked(s, leg)
    ensures GoesOn(s, leg) || AfterLeg(s, leg) == Err(LimitExceeded) <==> FairLeg(s, leg)
  {
    hide SimInv, Fair, Step, Back, Chapter7Runs.After, Chapter7Runs.Lawful, NewNames, Permitted;
    match leg
    case Scheduling(op) => StepIff(s, op);
    case Elsewhere(ops) => ExcursionIff(s, ops);
  }

  /** Over every run that mixes scheduling with anything chapter 7 allows, the
      correspondence holds throughout if and only if each time control is transferred
      the one whose turn comes can be put in control, and each time the program turns
      to scheduling again control is back. */
  lemma {:induction false} ReachIff(s: Sim, legs: seq<Leg>)
    requires SimInv(s) && Asked(s, legs)
    ensures HoldsThroughout(s, legs) <==> FairThroughout(s, legs)
    decreases |legs|
  {
    hide SimInv, LegAsked, FairLeg, AfterLeg, LegRuns;
    if legs != [] {
      LegIff(s, legs[0]);
      if GoesOn(s, legs[0]) {
        ReachIff(AfterLeg(s, legs[0]).value, legs[1..]);
      }
    }
  }

  // ------------------------------------------------------------- safe from here on

  /** Only those who are ready are activated, and between scheduling calls control comes
      back and the scheduled ones are left as ready as they were. */
  ghost predicate Considerate(s: Sim, legs: seq<Leg>)
    requires Asked(s, legs)
    decreases |legs|
  {
    legs != [] ==>
      && (match legs[0]
          case Scheduling(op) => ActivatesReady(s, op)
          case Elsewhere(ops) =>
            var t := Chapter7Runs.After(s.ch7, ops);
            Back(s, t) && (AllReady(s) ==> AllReady(s.(ch7 := t))))
      && (GoesOn(s, legs[0]) ==> Considerate(AfterLeg(s, legs[0]).value, legs[1..]))
  }

  lemma ConsiderateLeg(s: Sim, leg: Leg)
    requires SimInv(s) && AllReady(s) && Asked(s, [leg]) && Considerate(s, [leg])
    ensures FairLeg(s, leg) && (AfterLeg(s, leg).Ok? ==> AllReady(AfterLeg(s, leg).value))
  {
    hide AllReady, Ready, Back, Step, Fair, Permitted, Chapter7Runs.After, Chapter7Runs.Lawful, NewNames;
    match leg
    case Scheduling(op) =>
      AllReadyFair(s, op);
      if Step(s, op).Ok? { StepReady(s, op); }
    case Elsewhere(ops) =>
  }

  lemma {:induction false} ReadyRun(s: Sim, legs: seq<Leg>)
    requires SimInv(s) && AllReady(s) && Asked(s, legs) && Considerate(s, legs)
    ensures HoldsThroughout(s, legs)
    decreases |legs|
  {
    if legs != [] {
      OneLeg(s, legs);
      hide SimInv, AllReady, LegAsked, FairLeg, AfterLeg, LegRuns, ActivatesReady, Back;
      ConsiderateLeg(s, legs[0]);
      LegIff(s, legs[0]);
      if GoesOn(s, legs[0]) {
        ReadyRun(AfterLeg(s, legs[0]).value, legs[1..]);
      }
    }
  }

  lemma OneLeg(s: Sim, legs: seq<Leg>)
    requires legs != [] && Asked(s, legs) && Considerate(s, legs)
    ensures Asked(s, [legs[0]]) && Considerate(s, [legs[0]])
  {
    hide SimInv, AllReady, LegAsked, AfterLeg, LegRuns, ActivatesReady, Back;
    assert [legs[0]][1..] == [];
  }

  lemma FirstLeaves(s: Sim)
    requires SetOk(s.notices) && !AllReady(s) && TurnOk(s, s.notices)
    ensures var head := Head(s.notices);
            head != 0 && !AllReady(DoCancel(s, head)) && |DoCancel(s, head).notices| < |s.notices|
  {
    HeadIsSomeone(s.notices);
    var head := Head(s.notices);
    var s' := DoCancel(s, head);
    WithoutMembers(s.notices, head);
    WithoutNext(s.notices, 0, head);
    WithoutMembers(s.notices[1..], head);
    SameReady(s, s');
    hide Ready, SetOk;
    var n :| n in s.notices && n.process != MAIN && !Ready(s, n.process);
    assert n in s'.notices;
  }

  /** A leg that goes well in front of a run. */
  lemma OneMoreLeg(s: Sim, leg: Leg, rest: seq<Leg>)
    requires LegAsked(s, leg) && GoesOn(s, leg) && leg.Scheduling? && ActivatesReady(s, leg.op)
    requires Asked(AfterLeg(s, leg).value, rest) && Considerate(AfterLeg(s, leg).value, rest)
    requires !HoldsThroughout(AfterLeg(s, leg).value, rest)
    ensures Asked(s, [leg] + rest) && Considerate(s, [leg] + rest) && !HoldsThroughout(s, [leg] + rest)
  {
    hide LegAsked, GoesOn, AfterLeg, LegRuns, ActivatesReady, Back, AllReady;
    assert ([leg] + rest)[1..] == rest;
  }

  lemma CancelIs(s: Sim, p: Addr)
    ensures Step(s, Cancel(p)) == Ok(DoCancel(s, p))
  {
    hide DoCancel;
  }

  lemma CancelGoesOn(s: Sim, p: Addr)
    requires SimInv(s)
    ensures var leg := Scheduling(Cancel(p));
            LegAsked(s, leg) && GoesOn(s, leg) && ActivatesReady(s, Cancel(p)) && AfterLeg(s, leg) == Ok(DoCancel(s, p))
  {
    CancelKeepsInv(s, p);
    CancelIs(s, p);
    hide SimInv, DoCancel, Step;
  }

  lemma WrongTurn(s: Sim)
    requires SimInv(s) && !TurnOk(s, s.notices)
    ensures var legs := [Scheduling(TransferToHead)];
            Asked(s, legs) && Considerate(s, legs) && !HoldsThroughout(s, legs)
  {
    hide SimInv, TurnOk, Step;
    var leg := Scheduling(TransferToHead);
    LegIff(s, leg);
    assert [leg][1..] == [];
  }

  /** Someone who cannot be put in control is scheduled: once those in front of him are
      cancelled, the transfer goes wrong. */
  lemma Doomed(s: Sim) returns (legs: seq<Leg>)
    requires SimInv(s) && !AllReady(s)
    ensures Asked(s, legs) && Considerate(s, legs) && !HoldsThroughout(s, legs)
    decreases |s.notices|
  {
    if TurnOk(s, s.notices) {
      var head := Head(s.notices);
      FirstLeaves(s);
      CancelGoesOn(s, head);
      hide SimInv, DoCancel, AllReady, Asked, Considerate, HoldsThroughout;
      hide LegAsked, GoesOn, AfterLeg, LegRuns, ActivatesReady;
      var rest := Doomed(DoCancel(s, head));
      OneMoreLeg(s, Scheduling(Cancel(head)), rest);
      legs := [Scheduling(Cancel(head))] + rest;
    } else {
      WrongTurn(s);
      hide *;
      legs := [Scheduling(TransferToHead)];
    }
  }

  /** Every run from here on keeps the correspondence throughout, as long as it activates
      only processes that are ready and control comes back, if and only if everyone
      scheduled now is ready. */
  lemma SafeIff(s: Sim)
    requires SimInv(s)
    ensures AllReady(s)
            <==> forall legs :: Asked(s, legs) && Considerate(s, legs) ==> HoldsThroughout(s, legs)
  {
    hide SimInv, AllReady;
    if AllReady(s) {
      forall legs | Asked(s, legs) && Considerate(s, legs) ensures HoldsThroughout(s, legs) {
        ReadyRun(s, legs);
      }
    } else {
      var legs := Doomed(s);
    }
  }

  // ------------------------------------------------------------- simulated time

  /** The simulations that a program can bring about from `s`. */
  ghost predicate Reaches(s: Sim, legs: seq<Leg>, s': Sim)
    decreases |legs|
  {
    if legs == [] then s' == s
    else
      && LegRuns(s, legs[0]) && AfterLeg(s, legs[0]).Ok?
      && Reaches(AfterLeg(s, legs[0]).value, legs[1..], s')
  }

  ghost predicate NeverEmptiedOn(s: Sim, legs: seq<Leg>, s': Sim)
    requires Reaches(s, legs, s')
    decreases |legs|
  {
    legs != [] ==>
      && (legs[0].Scheduling? && EmptiesSet(s, legs[0].op) ==> Time(s.notices) == 0.0)
      && NeverEmptiedOn(AfterLeg(s, legs[0]).value, legs[1..], s')
  }

  ghost predicate ClockForwardOn(s: Sim, legs: seq<Leg>, s': Sim)
    requires Reaches(s, legs, s')
    decreases |legs|
  {
    legs != [] ==>
      && Time(s.notices) <= Time(AfterLeg(s, legs[0]).value.notices)
      && ClockForwardOn(AfterLeg(s, legs[0]).value, legs[1..], s')
  }

  /** Nor does the clock go backwards over any such run, on the same condition. */
  lemma {:induction false} ReachClock(s: Sim, legs: seq<Leg>, s': Sim)
    requires SetOk(s.notices) && NoEarlier(s.notices, 0.0) && Reaches(s, legs, s')
    ensures ClockForwardOn(s, legs, s') <==> NeverEmptiedOn(s, legs, s')
    ensures NeverEmptiedOn(s, legs, s') ==> Time(s'.notices) >= Time(s.notices)
    decreases |legs|
  {
    hide SetOk, NoEarlier, Step, Time, EmptiesSet, Chapter7Runs.Lawful, Chapter7Runs.After;
    if legs != [] {
      if legs[0].Scheduling? {
        ClockStep(s, legs[0].op);
      }
      ReachClock(AfterLeg(s, legs[0]).value, legs[1..], s');
    }
  }
}
