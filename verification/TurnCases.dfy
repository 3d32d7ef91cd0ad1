/** Programs of a few statements that activate an object whose turn the scheduler cannot
    give it: one of a class declared in an inner block, one of a class without a system,
    and one that has ended. */
module TurnCases {
  import opened Prelude
  import Chapter7
  import Chapter7Runs
  import Chapter7Cases
  import opened SequencingSet
  import opened SimulationRuns
  import Scheduling
  import opened Excursions

  lemma {:induction false} OneLegMore(s: Sim, legs: seq<Leg>, t: Sim, leg: Leg, u: Sim)
    requires Reaches(s, legs, t) && LegRuns(t, leg) && AfterLeg(t, leg) == Ok(u)
    ensures Reaches(s, legs + [leg], u)
    decreases |legs|
  {
    hide LegRuns, AfterLeg;
    var all := legs + [leg];
    if legs == [] {
      assert all[1..] == [];
    } else {
      assert all[1..] == legs[1..] + [leg];
      OneLegMore(AfterLeg(s, legs[0]).value, legs[1..], t, leg, u);
    }
  }

  /** A scheduling call behind a run that kept the correspondence. */
  lemma Calls(s: Sim, legs: seq<Leg>, t: Sim, op: Op) returns (u: Sim)
    requires Reaches(s, legs, t) && SimInv(t) && Permitted(t, op) && Fair(t, op) && Step(t, op).Ok?
    ensures u == Step(t, op).value && Reaches(s, legs + [Scheduling(op)], u) && SimInv(u)
  {
    hide SimInv, Permitted, Fair, Step, Reaches;
    StepIff(t, op);
    u := Step(t, op).value;
    OneLegMore(s, legs, t, Scheduling(op), u);
  }

  /** The outermost program enters a SIMULATION block. */
  function Start(): Sim {
    Begin(Chapter7.DoEnter(Chapter7.Initial()), 1)
  }

  // ------------------------------------------------------------- the set

  /** Filing behind everyone else. */
  lemma FiledLast(s: seq<Notice>, rest: seq<Notice>, n: Notice)
    requires Without(s, n.process) == rest && forall m :: m in rest ==> m.evtime <= n.evtime
    ensures Filed(s, n, false) == rest + [n]
  {
    assert forall k :: 0 <= k < |rest| ==> rest[k] in rest;
  }

  lemma WithoutCons(n: Notice, s: seq<Notice>, p: Addr)
    ensures Without([n] + s, p) == if n.process == p then Without(s, p) else [n] + Without(s, p)
  {
    assert ([n] + s)[1..] == s;
  }

  /** Activating an idle process for a time behind everyone else. */
  lemma TimedLast(t: Sim, p: Addr, delay: real)
    requires p != 0 && !Scheduled(t.notices, p) && delay >= 0.0 && |t.notices| < MAX_LEN
    requires forall m :: m in t.notices ==> m.evtime <= Time(t.notices) + delay
    ensures Step(t, ActivateTimed(p, delay, true, false, false))
            == Ok(t.(notices := t.notices + [Notice(Time(t.notices) + delay, p, t.nextSeq)],
                     nextSeq := t.nextSeq + 1))
  {
    WithoutAbsent(t.notices, p);
    FiledLast(t.notices, t.notices, Notice(Time(t.notices) + delay, p, t.nextSeq));
    hide Filed, Without;
  }

  /** Holding until behind everyone else. */
  lemma HoldLast(t: Sim, dt: real, rest: seq<Notice>)
    requires rest == Without(t.notices, Self(t)) && dt >= 0.0 && |rest| < MAX_LEN
    requires forall m :: m in rest ==> m.evtime <= Time(t.notices) + dt
    ensures Step(t, Hold(dt))
            == Ok(t.(notices := rest + [Notice(Time(t.notices) + dt, Self(t), t.nextSeq)],
                     nextSeq := t.nextSeq + 1))
  {
    FiledLast(t.notices, rest, Notice(Time(t.notices) + dt, Self(t), t.nextSeq));
    hide Filed, Without, Self;
  }

  // ------------------------------------------------------------- an object generated

  /** A component at its first detach. */
  function Waiting(ref: Addr, own: Coro, generator: Coro, system: Option<nat>): Chapter7.Comp {
    Chapter7.Comp(ref, Some(own), Some(own), Some(generator), system, Chapter7.Detached, generator)
  }

  function Opened(ch7: Chapter7.State, enter: bool): Chapter7.State {
    if enter then Chapter7.DoEnter(ch7) else ch7
  }

  /** The program enters an inner block, or does not, and generates an object there. */
  lemma Away(ch7: Chapter7.State, enter: bool, ref: Addr, system: Option<nat>) returns (ops: seq<Chapter7.Op>)
    requires Chapter7.Inv(ch7) && (system.Some? ==> system.value < |Opened(ch7, enter).systems|)
    ensures var i := |ch7.comps|;
            ops == (if enter then [Chapter7.Enter] else [])
                   + [Chapter7.Create(ref, system), Chapter7.Start(i), Chapter7.Detach(i)]
    ensures Chapter7Runs.Lawful(ch7, ops)
    ensures Chapter7Runs.After(ch7, ops)
            == Opened(ch7, enter).(coros := ch7.coros + 1,
                                   comps := ch7.comps + [Waiting(ref, ch7.coros, ch7.current, system)])
  {
    hide Chapter7.Inv, Chapter7Runs.Lawful, Chapter7Runs.After;
    var base: seq<Chapter7.Op> := if enter then [Chapter7.Enter] else [];
    Outset(ch7, enter);
    var i := |ch7.comps|;
    var t, more := Chapter7Cases.Generates(ch7, base, ref, system);
    Chapter7Cases.OneMoreStep(ch7, more, Chapter7.Detach(i));
    ops := more + [Chapter7.Detach(i)];
    assert ops == base + [Chapter7.Create(ref, system), Chapter7.Start(i), Chapter7.Detach(i)];
  }

  lemma Outset(ch7: Chapter7.State, enter: bool)
    requires Chapter7.Inv(ch7)
    ensures var base: seq<Chapter7.Op> := if enter then [Chapter7.Enter] else [];
            && Chapter7Runs.Lawful(ch7, base) && Chapter7Runs.After(ch7, base) == Opened(ch7, enter)
            && Chapter7.Inv(Opened(ch7, enter))
  {
    hide Chapter7.Inv;
    assert Chapter7Runs.Lawful(ch7, []);
    if enter {
      Chapter7Cases.OneMoreStep(ch7, [], Chapter7.Enter);
      assert [] + [Chapter7.Enter] == [Chapter7.Enter];
      Chapter7Runs.RunInv(ch7, [Chapter7.Enter]);
    }
  }

  /** The simulation after that. */
  function WithObject(s: Sim, enter: bool, ref: Addr, system: Option<nat>): Sim {
    s.(ch7 := Opened(s.ch7, enter).(coros := s.ch7.coros + 1,
                                    comps := s.ch7.comps + [Waiting(ref, s.ch7.coros, s.ch7.current, system)]))
  }

  lemma GeneratesAway(s: Sim, legs: seq<Leg>, t: Sim, enter: bool, ref: Addr, system: Option<nat>)
    returns (ops: seq<Chapter7.Op>)
    requires Reaches(s, legs, t) && SimInv(t) && ref > MAIN && Find(t.ch7.comps, ref).None?
    requires system.Some? ==> system.value < |Opened(t.ch7, enter).systems|
    ensures var i := |t.ch7.comps|;
            ops == (if enter then [Chapter7.Enter] else [])
                   + [Chapter7.Create(ref, system), Chapter7.Start(i), Chapter7.Detach(i)]
    ensures Reaches(s, legs + [Elsewhere(ops)], WithObject(t, enter, ref, system))
    ensures SimInv(WithObject(t, enter, ref, system))
  {
    hide SetOk, Chapter7.Inv, Reaches, Chapter7Runs.Lawful, Chapter7Runs.After;
    ops := Away(t.ch7, enter, ref, system);
    var u := WithObject(t, enter, ref, system);
    OneLegMore(s, legs, t, Elsewhere(ops), u);
    Chapter7Runs.RunInv(t.ch7, ops);
    MainOlder(t);
    GrownNamed(t.ch7.comps, u.ch7.comps[|t.ch7.comps|]);
    hide Named;
    BackWithObject(t, u);
    BackIff(t, u.ch7);
  }

  lemma BackWithObject(t: Sim, u: Sim)
    requires InControl(t) && Untouched(t.ch7.comps, t.main) && t.main < t.ch7.coros
    requires |t.ch7.systems| <= |u.ch7.systems| && u.ch7.current == t.ch7.current
    requires forall k :: 0 <= k < |t.ch7.systems| ==> u.ch7.systems[k] == t.ch7.systems[k]
    requires exists ref, system ::
               u.ch7.comps == t.ch7.comps + [Waiting(ref, t.ch7.coros, t.ch7.current, system)]
    ensures Back(t, u.ch7) && SameObjects(t.ch7, u.ch7)
  {
  }

  // ------------------------------------------------------------- the three programs

  lemma Starts() returns (s: Sim)
    ensures s == Start() && SimInv(s) && s.notices == [Notice(0.0, MAIN, 1)] && s.ch7.comps == []
    ensures s.running == MAIN && s.ch7.coros == 1 && s.ch7.current == 0 && s.nextSeq == 2 && s.sys == 1 && s.main == 0
    ensures s.ch7.systems == [Chapter7.Sys(0, None, true), Chapter7.Sys(0, None, true)] && s.ch7.gone == {}
    ensures Reaches(s, [], s)
  {
    s := FirstBlock();
  }

  lemma Idle(s: seq<Notice>, p: Addr)
    requires forall n :: n in s ==> n.process != p
    ensures IndexOf(s, p).None? && !Scheduled(s, p) && Without(s, p) == s
  {
    WithoutAbsent(s, p);
  }

  /** A class of a procedure body has no system: its object is activated, and the
      transfer to it is an error. */
  lemma NoSystemOfItsOwn() returns (legs: seq<Leg>, s: Sim)
    ensures legs == [Elsewhere([Chapter7.Create(10, None), Chapter7.Start(0), Chapter7.Detach(0)]),
                     Scheduling(ActivateDirect(10))]
    ensures Reaches(Start(), legs, s) && SimInv(s)
    ensures DoTransfer(s) == Err(Sequencing(Chapter7.NoSystem))
  {
    hide SimInv, Reaches, Begin;
    var s0 := Starts();
    var ops := GeneratesAway(s0, [], s0, false, 10, None);
    var s1 := WithObject(s0, false, 10, None);
    legs := [] + [Elsewhere(ops)];
    Idle(s1.notices, 10);
    s := Calls(s0, legs, s1, ActivateDirect(10));
    Scheduling.DirectGoesFirst(s1, 10);
    legs := legs + [Scheduling(ActivateDirect(10))];
    assert ops == [Chapter7.Create(10, None), Chapter7.Start(0), Chapter7.Detach(0)];
    assert !Ready(s, 10);
    TransferToOther(s);
  }

  /** A process of the SIMULATION block and one of an inner block, both due at time 1. */
  ghost predicate BothDue(s: Sim) {
    && s.notices == [Notice(1.0, 10, 2), Notice(1.0, 11, 3)] && s.nextSeq == 4 && s.running == MAIN
    && s.sys == 1 && s.main == 0
    && s.ch7 == Chapter7.State(0, 3, [Waiting(10, 1, 0, Some(1)), Waiting(11, 2, 0, Some(2))],
                               [Chapter7.Sys(0, None, true), Chapter7.Sys(0, None, true),
                                Chapter7.Sys(0, None, true)], {})
  }

  /** The first process generated. */
  lemma GeneratesFirst(s: Sim)
    requires SimInv(s) && s.ch7.comps == [] && s.ch7.current == 0 && s.ch7.coros == 1 && s.sys == 1
    ensures Permitted(s, Generate(10)) && Step(s, Generate(10)).Ok?
    ensures Step(s, Generate(10)).value == s.(ch7 := s.ch7.(coros := 2, comps := [Waiting(10, 1, 0, Some(1))]))
  {
    assert Stage(s) by { hide Stage; }
    GenerateShape(s, 10);
    hide Stage;
  }

  lemma MainLeaves(s: Sim)
    requires |s.notices| == 3 && s.notices[0].process == MAIN
    requires s.notices[1].process != MAIN && s.notices[2].process != MAIN && Self(s) == MAIN
    ensures Step(s, Passivate) == Ok(s.(notices := s.notices[1..]))
  {
    assert forall n :: n in s.notices[1..] ==> n.process != MAIN;
    Idle(s.notices[1..], MAIN);
    hide Self;
  }

  /** The processes of both blocks have been generated. */
  ghost predicate BothWait(s: Sim) {
    && s.notices == [Notice(0.0, MAIN, 1)] && s.nextSeq == 2 && s.running == MAIN && s.sys == 1 && s.main == 0
    && s.ch7 == Chapter7.State(0, 3, [Waiting(10, 1, 0, Some(1)), Waiting(11, 2, 0, Some(2))],
                               [Chapter7.Sys(0, None, true), Chapter7.Sys(0, None, true),
                                Chapter7.Sys(0, None, true)], {})
  }

  lemma GetsBoth() returns (legs: seq<Leg>, s: Sim)
    ensures legs == [Scheduling(Generate(10)),
                     Elsewhere([Chapter7.Enter, Chapter7.Create(11, Some(2)), Chapter7.Start(1), Chapter7.Detach(1)])]
    ensures Reaches(Start(), legs, s) && SimInv(s) && BothWait(s)
  {
    hide SimInv, Reaches, Begin;
    var s0 := Starts();
    GeneratesFirst(s0);
    var s1 := Calls(s0, [], s0, Generate(10));
    legs := [] + [Scheduling(Generate(10))];
    hide Step;
    var ops := GeneratesAway(s0, legs, s1, true, 11, Some(2));
    assert ops == [Chapter7.Enter, Chapter7.Create(11, Some(2)), Chapter7.Start(1), Chapter7.Detach(1)];
    s := WithObject(s1, true, 11, Some(2));
    legs := legs + [Elsewhere(ops)];
  }

  /** One more of them becomes due. */
  lemma DueAtOne(s: Sim, legs: seq<Leg>, t: Sim, p: Addr) returns (u: Sim)
    requires Reaches(s, legs, t) && SimInv(t) && p != 0 && |t.notices| < 3 && Time(t.notices) == 0.0
    requires forall m :: m in t.notices ==> m.evtime <= 1.0 && m.process != p
    ensures Reaches(s, legs + [Scheduling(ActivateTimed(p, 1.0, true, false, false))], u) && SimInv(u)
    ensures u == t.(notices := t.notices + [Notice(1.0, p, t.nextSeq)], nextSeq := t.nextSeq + 1)
  {
    hide SimInv, Reaches, Step;
    Idle(t.notices, p);
    TimedLast(t, p, 1.0);
    u := Calls(s, legs, t, ActivateTimed(p, 1.0, true, false, false));
  }

  lemma GetsBothDue() returns (legs: seq<Leg>, s: Sim)
    ensures legs == [Scheduling(Generate(10)),
                     Elsewhere([Chapter7.Enter, Chapter7.Create(11, Some(2)), Chapter7.Start(1), Chapter7.Detach(1)]),
                     Scheduling(ActivateTimed(10, 1.0, true, false, false)),
                     Scheduling(ActivateTimed(11, 1.0, true, false, false)), Scheduling(Passivate)]
    ensures Reaches(Start(), legs, s) && SimInv(s) && BothDue(s)
  {
    hide SimInv, Reaches, Step, Start, Self;
    var s2, s3, s4;
    legs, s2 := GetsBoth();
    s3 := DueAtOne(Start(), legs, s2, 10);
    legs := legs + [Scheduling(ActivateTimed(10, 1.0, true, false, false))];
    s4 := DueAtOne(Start(), legs, s3, 11);
    legs := legs + [Scheduling(ActivateTimed(11, 1.0, true, false, false))];
    SelfIsRunning(s4);
    MainLeaves(s4);
    s := Calls(Start(), legs, s4, Passivate);
    legs := legs + [Scheduling(Passivate)];
  }

  /** The first of them runs, and holds 1. */
  ghost predicate FirstHeld(s: Sim) {
    && s.notices == [Notice(1.0, 11, 3), Notice(2.0, 10, 4)] && s.nextSeq == 5 && s.running == 10
    && s.sys == 1 && s.main == 0
    && s.ch7 == Chapter7.State(1, 3, [Waiting(10, 1, 0, Some(1)).(status := Chapter7.Resumed),
                                      Waiting(11, 2, 0, Some(2))],
                               [Chapter7.Sys(0, None, true), Chapter7.Sys(0, Some(0), true),
                                Chapter7.Sys(0, None, true)], {})
  }

  lemma FirstRuns(s: Sim)
    requires BothDue(s)
    ensures DoTransfer(s).Ok? && DoTransfer(s).value.ch7.current == 1 && TurnOk(s, s.notices)
    ensures DoTransfer(s).value
            == s.(running := 10,
                  ch7 := s.ch7.(current := 1,
                                comps := [Waiting(10, 1, 0, Some(1)).(status := Chapter7.Resumed),
                                          Waiting(11, 2, 0, Some(2))],
                                systems := [Chapter7.Sys(0, None, true), Chapter7.Sys(0, Some(0), true),
                                            Chapter7.Sys(0, None, true)]))
  {
    assert ReadyAt(s, 0);
    TwoFound(s.ch7.comps);
  }

  lemma TwoFound(comps: seq<Chapter7.Comp>)
    requires |comps| == 2 && comps[0].ref == 10 && comps[1].ref == 11
    ensures Find(comps, 10) == Some(0) && Find(comps, 11) == Some(1)
  {
    assert comps[..1][|comps[..1]| - 1] == comps[0];
  }

  lemma GetsFirstHeld() returns (legs: seq<Leg>, s: Sim)
    ensures legs == [Scheduling(Generate(10)),
                     Elsewhere([Chapter7.Enter, Chapter7.Create(11, Some(2)), Chapter7.Start(1), Chapter7.Detach(1)]),
                     Scheduling(ActivateTimed(10, 1.0, true, false, false)),
                     Scheduling(ActivateTimed(11, 1.0, true, false, false)), Scheduling(Passivate),
                     Scheduling(TransferToHead), Scheduling(Hold(1.0))]
    ensures Reaches(Start(), legs, s) && SimInv(s) && FirstHeld(s)
  {
    hide SimInv, Reaches, Start, Self;
    var s5;
    legs, s5 := GetsBothDue();
    FirstRuns(s5);
    hide DoTransfer, TurnOk;
    var s6 := Calls(Start(), legs, s5, TransferToHead);
    legs := legs + [Scheduling(TransferToHead)];
    SelfIsRunning(s6);
    TakesOneOut(s6.notices[0], s6.notices[1]);
    HoldLast(s6, 1.0, [s6.notices[1]]);
    hide Step;
    s := Calls(Start(), legs, s6, Hold(1.0));
    legs := legs + [Scheduling(Hold(1.0))];
  }

  lemma TakesOneOut(n: Notice, m: Notice)
    requires n.process != m.process
    ensures Without([n, m], n.process) == [m]
  {
    WithoutCons(n, [m], n.process);
    Idle([m], n.process);
    assert [n, m] == [n] + [m];
  }

  /** The process of the inner block takes over, in its own system. */
  ghost predicate Crossed(ch7: Chapter7.State) {
    ch7 == Chapter7.State(2, 3, [Waiting(10, 1, 0, Some(1)).(status := Chapter7.Resumed),
                                 Waiting(11, 2, 0, Some(2)).(status := Chapter7.Resumed)],
                          [Chapter7.Sys(0, None, true), Chapter7.Sys(0, Some(0), true),
                           Chapter7.Sys(1, Some(1), true)], {})
  }

  lemma NotReady(s: Sim)
    requires FirstHeld(s)
    ensures !TurnOk(s, s.notices)
  {
  }

  lemma SecondRuns(s: Sim) returns (b: Sim)
    requires FirstHeld(s)
    ensures Step(s, TransferToHead) == Ok(b) && b == s.(ch7 := b.ch7, running := 11) && Crossed(b.ch7)
  {
    TwoFound(s.ch7.comps);
    b := DoTransfer(s).value;
  }

  lemma AsksFor(s: Sim)
    requires Crossed(s.ch7)
    ensures Self(s) == 11
  {
    assert s.ch7.comps[1].head == Some(s.ch7.current);
  }

  lemma SecondHolds(b: Sim) returns (c: Sim)
    requires b.notices == [Notice(1.0, 11, 3), Notice(2.0, 10, 4)] && b.nextSeq == 5 && Crossed(b.ch7)
    ensures Step(b, Hold(3.0)) == Ok(c) && c == b.(notices := c.notices, nextSeq := 6)
    ensures c.notices == [Notice(2.0, 10, 4), Notice(4.0, 11, 5)]
  {
    AsksFor(b);
    TakesOneOut(b.notices[0], b.notices[1]);
    HoldLast(b, 3.0, [b.notices[1]]);
    hide Step;
    c := Step(b, Hold(3.0)).value;
  }

  lemma FirstsTurn(c: Sim) returns (t: Sim)
    requires c.notices == [Notice(2.0, 10, 4), Notice(4.0, 11, 5)] && Crossed(c.ch7) && c.running == 11
    ensures Step(c, TransferToHead) == Ok(t) && t == c.(running := 10) && Self(t) == 11
  {
    TwoFound(c.ch7.comps);
    t := c.(running := 10);
    AsksFor(t);
    hide Self, Filed, Without;
  }

  lemma ThreeSteps(s: Sim, x: Op, b: Sim, y: Op, c: Sim, z: Op, t: Sim)
    requires Step(s, x) == Ok(b) && Step(b, y) == Ok(c) && Step(c, z) == Ok(t)
    ensures Run(s, [x, y, z]) && Final(s, [x, y, z]) == t
  {
    hide Step;
    assert [x, y, z][1..] == [y, z] && [y, z][1..] == [z] && [z][1..] == [];
    assert Run(t, []) && Run(c, [z]) && Run(b, [y, z]);
    assert Final(c, [z]) == t && Final(b, [y, z]) == t;
  }

  lemma TakeTurns(s: Sim) returns (t: Sim)
    requires FirstHeld(s)
    ensures Run(s, [TransferToHead, Hold(3.0), TransferToHead])
            && t == Final(s, [TransferToHead, Hold(3.0), TransferToHead])
    ensures t.notices == [Notice(2.0, 10, 4), Notice(4.0, 11, 5)] && t.running == 10 && Self(t) == 11
    ensures |t.ch7.comps| == 2 && t.ch7.comps[1].ref == 11 && t.ch7.comps[1].head == Some(t.ch7.current)
  {
    hide Step, Self, Run, Final;
    var b := SecondRuns(s);
    var c := SecondHolds(b);
    t := FirstsTurn(c);
    ThreeSteps(s, TransferToHead, b, Hold(3.0), c, TransferToHead, t);
  }

  /** A process of the SIMULATION block and one of a class declared in an inner block,
      which is of another system, take turns. The second one's turn is a resume in that
      system, which leaves the first one resumed in its own; when the first one's turn
      comes again the resume therefore changes nothing, and the second one goes on at
      time 2 although it held until time 4. */
  lemma ClassOfInnerBlock() returns (legs: seq<Leg>, s: Sim, t: Sim)
    ensures legs == [Scheduling(Generate(10)),
                     Elsewhere([Chapter7.Enter, Chapter7.Create(11, Some(2)), Chapter7.Start(1), Chapter7.Detach(1)]),
                     Scheduling(ActivateTimed(10, 1.0, true, false, false)),
                     Scheduling(ActivateTimed(11, 1.0, true, false, false)), Scheduling(Passivate),
                     Scheduling(TransferToHead), Scheduling(Hold(1.0))]
    ensures Reaches(Start(), legs, s) && SimInv(s) && !TurnOk(s, s.notices)
    ensures Run(s, [TransferToHead, Hold(3.0), TransferToHead])
            && t == Final(s, [TransferToHead, Hold(3.0), TransferToHead])
    ensures t.notices == [Notice(2.0, 10, 4), Notice(4.0, 11, 5)] && t.running == 10 && Self(t) == 11
    ensures |t.ch7.comps| == 2 && t.ch7.comps[1].ref == 11 && t.ch7.comps[1].head == Some(t.ch7.current)
  {
    hide SimInv, Reaches, Start, Self, TurnOk, Run, Final, FirstHeld;
    legs, s := GetsFirstHeld();
    NotReady(s);
    t := TakeTurns(s);
  }

  /** The SIMULATION block has one process. */
  ghost predicate OnlyProcess(s: Sim, c: Chapter7.Comp) {
    && s.ch7.comps == [c] && c.ref == 10 && c.system == Some(1) && s.sys == 1 && s.main == 0
    && |s.ch7.systems| == 2 && s.ch7.systems[1].open
  }

  lemma OneFound(c: Chapter7.Comp)
    requires c.ref == 10
    ensures Find([c], 10) == Some(0)
  {
  }

  lemma HisTurn(s: Sim)
    requires OnlyProcess(s, Waiting(10, 1, 0, Some(1))) && Head(s.notices) == 10 && s.running == MAIN
    requires s.ch7.systems[1] == Chapter7.Sys(0, None, true) && s.ch7.current == 0
    ensures TurnOk(s, s.notices) && DoTransfer(s).Ok?
    ensures DoTransfer(s).value
            == s.(running := 10,
                  ch7 := s.ch7.(current := 1, comps := [Waiting(10, 1, 0, Some(1)).(status := Chapter7.Resumed)],
                                systems := s.ch7.systems[1 := Chapter7.Sys(0, Some(0), true)]))
  {
    OneFound(s.ch7.comps[0]);
    assert ReadyAt(s, 0);
  }

  lemma HisEnd(s: Sim)
    requires OnlyProcess(s, Waiting(10, 1, 0, Some(1)).(status := Chapter7.Resumed)) && s.running == 10
    requires s.ch7.systems[1] == Chapter7.Sys(0, Some(0), true) && s.ch7.current == 1
    requires s.notices == [Notice(0.0, 10, 2), Notice(0.0, MAIN, 1)]
    ensures Fair(s, TerminateCurrent(10)) && DoTerminateCurrent(s, 10).Ok?
    ensures var t := DoTerminateCurrent(s, 10).value;
            && t == s.(notices := [Notice(0.0, MAIN, 1)], running := MAIN, ch7 := t.ch7)
            && t.ch7.comps == [Waiting(10, 1, 0, Some(1)).(status := Chapter7.Terminated, park := None)]
  {
    OneFound(s.ch7.comps[0]);
    TakesOneOut(s.notices[0], s.notices[1]);
  }

  lemma Activates(s: Sim, legs: seq<Leg>, t: Sim) returns (u: Sim)
    requires Reaches(s, legs, t) && SimInv(t) && t.notices == [Notice(0.0, MAIN, 1)]
    ensures Reaches(s, legs + [Scheduling(ActivateDirect(10))], u) && SimInv(u)
    ensures u == t.(notices := [Notice(0.0, 10, t.nextSeq), Notice(0.0, MAIN, 1)], nextSeq := t.nextSeq + 1)
  {
    hide SimInv, Reaches;
    Idle(t.notices, 10);
    Scheduling.DirectGoesFirst(t, 10);
    assert [Notice(0.0, 10, t.nextSeq)] + t.notices == [Notice(0.0, 10, t.nextSeq), Notice(0.0, MAIN, 1)];
    u := Calls(s, legs, t, ActivateDirect(10));
  }

  /** A process that has ended is activated, and the transfer to it is an error. */
  lemma EndedActivated() returns (legs: seq<Leg>, s: Sim)
    ensures legs == [Scheduling(Generate(10)), Scheduling(ActivateDirect(10)), Scheduling(TransferToHead),
                     Scheduling(TerminateCurrent(10)), Scheduling(ActivateDirect(10))]
    ensures Reaches(Start(), legs, s) && SimInv(s)
    ensures DoTransfer(s) == Err(Sequencing(Chapter7.NotDetached(Chapter7.Terminated)))
  {
    hide SimInv, Reaches, Begin, TurnOk, DoTransfer, DoTerminateCurrent;
    var s0 := Starts();
    GeneratesFirst(s0);
    var s1 := Calls(s0, [], s0, Generate(10));
    legs := [] + [Scheduling(Generate(10))];
    var s2 := Activates(s0, legs, s1);
    legs := legs + [Scheduling(ActivateDirect(10))];
    HisTurn(s2);
    var s3 := Calls(s0, legs, s2, TransferToHead);
    legs := legs + [Scheduling(TransferToHead)];
    HisEnd(s3);
    var s4 := Calls(s0, legs, s3, TerminateCurrent(10));
    legs := legs + [Scheduling(TerminateCurrent(10))];
    s := Activates(s0, legs, s4);
    legs := legs + [Scheduling(ActivateDirect(10))];
    OneFound(s.ch7.comps[0]);
    FindReady(s, 10);
    EndedTurn(s);
  }

  lemma EndedTurn(s: Sim)
    requires SimInv(s) && Head(s.notices) == 10 && Find(s.ch7.comps, 10) == Some(0)
    requires s.ch7.comps[0].system.Some? && s.ch7.comps[0].status == Chapter7.Terminated
    ensures DoTransfer(s) == Err(Sequencing(Chapter7.NotDetached(Chapter7.Terminated)))
  {
    FindReady(s, 10);
    TransferToOther(s);
  }
}
