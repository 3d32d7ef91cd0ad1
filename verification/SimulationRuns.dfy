/** Scheduling (chapter 12) on top of sequencing (chapter 7), as sim.c does it: the
    sequencing set decides, and transfers are resumes and detaches in the system of
    the SIMULATION block. */
module SimulationRuns {
  import opened Prelude
  import Chapter7
  import opened SequencingSet
  import Sequencer

  type Coro = Chapter7.Coro

  /** `main` is the coroutine that entered the SIMULATION block, whose system is `sys`. */
  datatype Sim = Sim(notices: seq<Notice>, nextSeq: int, running: Addr, ch7: Chapter7.State, sys: nat, main: Coro)

  datatype Stop = LimitExceeded | NotAComponent | Sequencing(error: Chapter7.Error)

  datatype Op =
    | Hold(dt: real)
    | ActivateDirect(process: Addr)
    | ActivateTimed(process: Addr, t: real, delay: bool, prior: bool, reac: bool)
    | ActivateRelative(process: Addr, other: Addr, before: bool)
    | Passivate
    | Cancel(process: Addr)
    | FinishMain
    | TransferToHead
    | TerminateCurrent(process: Addr)
    | Generate(process: Addr)

  type Outcome = Result<Sim, Stop>

  /** The component registered for an object. */
  function Find(comps: seq<Chapter7.Comp>, ref: Addr): (r: Option<nat>)
    ensures r.Some? ==> r.value < |comps| && comps[r.value].ref == ref
    ensures r.None? ==> forall i :: 0 <= i < |comps| ==> comps[i].ref != ref
  {
    if comps == [] then None
    else if comps[|comps| - 1].ref == ref then Some(|comps| - 1)
    else Find(comps[..|comps| - 1], ref)
  }

  /** Who is asking: the object whose stack is executing, else the recorded one. */
  function Self(s: Sim): Addr {
    if Sequencer.CurrentRef(s.ch7) != 0 then Sequencer.CurrentRef(s.ch7)
    else if s.running == 0 then MAIN else s.running
  }

  // ------------------------------------------------------------- the set

  function FileAt(s: Sim, t: real, p: Addr, prior: bool): Outcome {
    if |Without(s.notices, p)| >= MAX_LEN then Err(LimitExceeded)
    else Ok(s.(notices := Filed(s.notices, Notice(t, p, s.nextSeq), prior), nextSeq := s.nextSeq + 1))
  }

  function DoHold(s: Sim, dt: real): Outcome {
    FileAt(s, Time(s.notices) + (if dt < 0.0 then 0.0 else dt), Self(s), false)
  }

  function DoActivateDirect(s: Sim, p: Addr): Outcome {
    if p == 0 || IndexOf(s.notices, p).Some? then Ok(s) else FileAt(s, Time(s.notices), p, true)
  }

  /** The time of a timed activation, never before now. */
  function TimedAt(now: real, t: real, delay: bool): real {
    if delay then now + (if t < 0.0 then 0.0 else t) else if t < now then now else t
  }

  function DoActivateTimed(s: Sim, p: Addr, t: real, delay: bool, prior: bool, reac: bool): Outcome {
    if p == 0 || (!reac && IndexOf(s.notices, p).Some?) then Ok(s)
    else FileAt(s, TimedAt(Time(s.notices), t, delay), p, prior)
  }

  function DoActivateRelative(s: Sim, p: Addr, other: Addr, before: bool): Outcome {
    if p == 0 || other == 0 || p == other || IndexOf(s.notices, other).None? then Ok(s)
    else if |Without(s.notices, p)| >= MAX_LEN then Err(LimitExceeded)
    else Ok(s.(notices := FiledNextTo(s.notices, p, other, before, s.nextSeq), nextSeq := s.nextSeq + 1))
  }

  function DoCancel(s: Sim, p: Addr): Sim {
    if p == 0 then s else s.(notices := Without(s.notices, p))
  }

  // ------------------------------------------------------------- transfers

  function After(s: Sim, o: Chapter7.Outcome): Outcome {
    match o
    case Ok(ch7) => Ok(s.(ch7 := ch7))
    case Err(e) => Err(Sequencing(e))
  }

  /** Makes the process at the head of the set the one in control. */
  function DoTransfer(s: Sim): Outcome {
    var head := Head(s.notices);
    var running := if s.running == 0 then MAIN else s.running;
    if head == running then Ok(s)
    else
      var s1 := s.(running := if head == 0 then MAIN else head);
      if head == 0 || head == MAIN then
        if running == MAIN then Ok(s1)
        else
          match Find(s.ch7.comps, running)
          case None => Err(NotAComponent)
          case Some(i) => After(s1, Chapter7.DoDetach(s.ch7, i))
      else
        match Find(s.ch7.comps, head)
        case None => Err(NotAComponent)
        case Some(i) => After(s1, Chapter7.DoResume(s.ch7, i))
  }

  /** The active process reaches its final end and the next one takes over. */
  function DoTerminateCurrent(s: Sim, p: Addr): Outcome {
    var notices := Without(s.notices, p);
    var head := Head(notices);
    var s1 := s.(notices := notices, running := if head == 0 then MAIN else head);
    match Find(s.ch7.comps, p)
    case None => Err(NotAComponent)
    case Some(i) =>
      if head == 0 || head == MAIN then After(s1, Chapter7.DoLeave(s.ch7, i, Chapter7.Terminated))
      else
        match Find(s.ch7.comps, head)
        case None => Err(NotAComponent)
        case Some(n) => After(s1, Chapter7.DoTerminateResuming(s.ch7, i, n))
  }

  /** Generating a process: its body runs just far enough to detach. */
  function DoGenerate(s: Sim, p: Addr): Outcome {
    var i := |s.ch7.comps|;
    match Chapter7.DoStart(Chapter7.DoCreate(s.ch7, p, Some(s.sys)), i)
    case Err(e) => Err(Sequencing(e))
    case Ok(started) =>
      if i < |started.comps| then After(s, Chapter7.DoDetach(started, i)) else Err(NotAComponent)
  }

  function Step(s: Sim, op: Op): Outcome {
    match op
    case Hold(dt) => DoHold(s, dt)
    case ActivateDirect(p) => DoActivateDirect(s, p)
    case ActivateTimed(p, t, delay, prior, reac) => DoActivateTimed(s, p, t, delay, prior, reac)
    case ActivateRelative(p, other, before) => DoActivateRelative(s, p, other, before)
    case Passivate => Ok(DoCancel(s, Self(s)))
    case Cancel(p) => Ok(DoCancel(s, p))
    case FinishMain => Ok(DoCancel(s, MAIN))
    case TransferToHead => DoTransfer(s)
    case TerminateCurrent(p) => DoTerminateCurrent(s, p)
    case Generate(p) => DoGenerate(s, p)
  }

  // ------------------------------------------------------------- invariant

  /** Objects are told apart by address, and none is NULL or MAIN. */
  ghost predicate Named(comps: seq<Chapter7.Comp>) {
    && (forall i :: 0 <= i < |comps| ==> comps[i].ref > MAIN)
    && (forall i, j :: 0 <= i < j < |comps| ==> comps[i].ref != comps[j].ref)
    && (forall i, j :: 0 <= i < j < |comps| && comps[i].head.Some? ==> comps[i].head != comps[j].head)
  }

  /** A coroutine that is no object's own and no object's reactivation point. */
  ghost predicate Untouched(comps: seq<Chapter7.Comp>, coro: Coro) {
    forall i :: 0 <= i < |comps| && comps[i].head.Some? ==>
      comps[i].head != Some(coro) && comps[i].park != Some(coro)
  }

  /** The record of who runs agrees with chapter 7: `running` is the operative
      component of the SIMULATION system, and MAIN iff there is none. */
  ghost predicate InControl(s: Sim) {
    && s.sys < |s.ch7.systems| && s.ch7.systems[s.sys].open
    && match s.ch7.systems[s.sys].operative
       case None => s.running == MAIN && s.ch7.current == s.main
       case Some(i) =>
         && i < |s.ch7.comps| && s.running == s.ch7.comps[i].ref
         && s.ch7.comps[i].head == Some(s.ch7.current) && s.ch7.systems[s.sys].mainPark == s.main
  }

  /** What sequencing has to hold for scheduling. */
  ghost predicate Stage(s: Sim) {
    Chapter7.Inv(s.ch7) && Named(s.ch7.comps) && Untouched(s.ch7.comps, s.main) && InControl(s)
  }

  ghost predicate SimInv(s: Sim) {
    Stage(s) && SetOk(s.notices) && |s.notices| <= MAX_LEN
  }

  /** Component `i` can be put in control: it is of the SIMULATION system, and is the
      operative one or detached on its own stack. */
  ghost predicate ReadyAt(s: Sim, i: nat) {
    && i < |s.ch7.comps| && s.ch7.comps[i].system == Some(s.sys)
    && (s.ch7.comps[i].status == Chapter7.Resumed
        || (s.ch7.comps[i].status == Chapter7.Detached && s.ch7.comps[i].park == s.ch7.comps[i].head))
  }

  ghost predicate Ready(s: Sim, p: Addr) {
    exists i :: 0 <= i < |s.ch7.comps| && s.ch7.comps[i].ref == p && ReadyAt(s, i)
  }

  /** Nobody's turn, MAIN's, or that of a process that can be put in control. */
  ghost predicate TurnOk(s: Sim, notices: seq<Notice>) {
    Head(notices) in {0, MAIN} || Ready(s, Head(notices))
  }

  /** What the compiler sees to: a process ends itself, and a generated object is new. */
  ghost predicate Permitted(s: Sim, op: Op) {
    match op
    case TerminateCurrent(p) => p == s.running && p != MAIN
    case Generate(p) => p > MAIN && Find(s.ch7.comps, p).None?
    case _ => true
  }

  // ------------------------------------------------------------- who is asking

  lemma FindIs(comps: seq<Chapter7.Comp>, i: nat)
    requires Named(comps) && i < |comps|
    ensures Find(comps, comps[i].ref) == Some(i)
  {
  }

  /** While MAIN is the recorded process, a scheduling statement speaks for it exactly
      when the running coroutine is no object's own and no object's reactivation point:
      otherwise it speaks for that object. */
  lemma MainAsksIff(s: Sim)
    requires Named(s.ch7.comps) && s.running == MAIN
    ensures Self(s) == MAIN <==> Untouched(s.ch7.comps, s.ch7.current)
  {
    hide Sequencer.TouchedBy, Sequencer.RunningOn;
  }

  /** While process `i` is, exactly when it runs on its own coroutine, or the running
      coroutine is no object's own and, if it is some object's reactivation point at
      all, the newest such object is the process. */
  lemma ProcessAsksIff(s: Sim, i: nat)
    requires Named(s.ch7.comps) && i < |s.ch7.comps| && s.running == s.ch7.comps[i].ref
    ensures Self(s) == s.running <==>
            || s.ch7.comps[i].head == Some(s.ch7.current)
            || ((forall j :: 0 <= j < |s.ch7.comps| ==> s.ch7.comps[j].head != Some(s.ch7.current))
                && Sequencer.TouchedBy(s.ch7.comps, s.ch7.current) in {None, Some(i)})
  {
    hide Sequencer.TouchedBy, Sequencer.RunningOn;
  }

  /** The process a scheduling statement speaks for is the recorded one: the look at
      stacks agrees with it. */
  lemma SelfIsRunning(s: Sim)
    requires SimInv(s)
    ensures Self(s) == s.running
  {
    hide Chapter7.Inv, SetOk;
    match s.ch7.systems[s.sys].operative
    case None =>
    case Some(i) =>
      assert s.ch7.comps[i].head == Some(s.ch7.current);
  }

  lemma SelfIsSomeone(s: Sim)
    ensures Self(s) != 0
  {
  }

  // ------------------------------------------------------------- set steps

  /** Statements on the set alone leave the rest of the correspondence. */
  lemma SetOnly(s: Sim, s': Sim)
    requires SimInv(s) && s' == s.(notices := s'.notices, nextSeq := s'.nextSeq)
    requires SetOk(s'.notices) && |s'.notices| <= MAX_LEN
    ensures SimInv(s')
  {
    hide Chapter7.Inv, SetOk, Named, Untouched;
  }

  lemma FileKeepsInv(s: Sim, t: real, p: Addr, prior: bool)
    requires SimInv(s) && p != 0 && FileAt(s, t, p, prior).Ok?
    ensures SimInv(FileAt(s, t, p, prior).value)
  {
    var n := Notice(t, p, s.nextSeq);
    FiledOk(s.notices, n, prior);
    InsertedAt(Without(s.notices, p), PlaceFor(Without(s.notices, p), t, prior), n);
    hide SetOk, Stage, Filed, Without;
    SetOnly(s, FileAt(s, t, p, prior).value);
  }

  lemma FileNextToKeepsInv(s: Sim, p: Addr, other: Addr, before: bool)
    requires SimInv(s) && DoActivateRelative(s, p, other, before).Ok?
    ensures SimInv(DoActivateRelative(s, p, other, before).value)
  {
    if p != 0 && other != 0 && p != other && IndexOf(s.notices, other).Some? {
      FiledNextToOk(s.notices, p, other, before, s.nextSeq);
      FiledNextToLength(s.notices, p, other, before, s.nextSeq);
      hide SetOk, Stage, FiledNextTo, Without;
      SetOnly(s, DoActivateRelative(s, p, other, before).value);
    }
  }

  lemma CancelKeepsInv(s: Sim, p: Addr)
    requires SimInv(s)
    ensures SimInv(DoCancel(s, p))
  {
    WithoutOk(s.notices, p);
    WithoutMembers(s.notices, p);
    hide SetOk, Stage;
    SetOnly(s, DoCancel(s, p));
  }

  // ------------------------------------------------------------- transfer steps

  /** The records a transfer may rewrite keep their identity, and all processes that
      were ready still are, except that `ended` has terminated. */
  ghost predicate SameProcesses(s: Sim, s': Sim, ended: Option<nat>) {
    && s'.sys == s.sys && s'.main == s.main && |s'.ch7.comps| == |s.ch7.comps|
    && forall i :: 0 <= i < |s.ch7.comps| ==>
         var c, c' := s.ch7.comps[i], s'.ch7.comps[i];
         && c'.ref == c.ref && c'.head == c.head && c'.system == c.system
         && (ended != Some(i) && ReadyAt(s, i) ==> ReadyAt(s', i))
         && (ended == Some(i) || c.status == Chapter7.Terminated ==> c'.status == Chapter7.Terminated)
  }

  lemma SameProcessesNamed(s: Sim, s': Sim, ended: Option<nat>)
    requires Named(s.ch7.comps) && SameProcesses(s, s', ended)
    ensures Named(s'.ch7.comps)
  {
  }

  /** Resuming a detached process from MAIN or from the operative process. */
  lemma ResumeOnStage(s: Sim, i: nat)
    requires Stage(s) && ReadyAt(s, i) && s.ch7.systems[s.sys].operative != Some(i)
    ensures Chapter7.DoResume(s.ch7, i).Ok?
    ensures var s' := s.(ch7 := Chapter7.DoResume(s.ch7, i).value, running := s.ch7.comps[i].ref);
            Stage(s') && SameProcesses(s, s', None) && s'.ch7.systems[s.sys].operative == Some(i)
  {
    assert s.ch7.comps[i].status == Chapter7.Detached by { hide Chapter7.Linear, Named; }
    ResumeShape(s, i);
    Chapter7.StepInv(s.ch7, Chapter7.Resume(i));
    hide Chapter7.Inv, Untouched, InControl;
    var s' := s.(ch7 := Chapter7.DoResume(s.ch7, i).value, running := s.ch7.comps[i].ref);
    SameProcessesNamed(s, s', None);
  }

  lemma ResumeShape(s: Sim, i: nat)
    requires Stage(s) && ReadyAt(s, i) && s.ch7.comps[i].status == Chapter7.Detached
    ensures Chapter7.Permitted(s.ch7, Chapter7.Resume(i))
    ensures Chapter7.DoResume(s.ch7, i).Ok?
    ensures var s' := s.(ch7 := Chapter7.DoResume(s.ch7, i).value, running := s.ch7.comps[i].ref);
            Untouched(s'.ch7.comps, s.main) && InControl(s') && SameProcesses(s, s', None)
            && s'.ch7.systems[s.sys].operative == Some(i)
  {
    assert s.ch7.comps[i].park.Some? by { hide Chapter7.Linear, Named; }
    assert s.ch7.systems[s.sys].operative.Some? ==>
        s.ch7.comps[s.ch7.systems[s.sys].operative.value].status == Chapter7.Resumed by {
      hide Chapter7.Linear, Named;
    }
    hide Chapter7.Inv, Named;
    match s.ch7.systems[s.sys].operative
    case None => ResumeFromMain(s, i);
    case Some(j) => ResumeFromProcess(s, i, j);
  }

  lemma ResumeFromMain(s: Sim, i: nat)
    requires Untouched(s.ch7.comps, s.main) && InControl(s) && s.ch7.systems[s.sys].operative.None?
    requires ReadyAt(s, i) && s.ch7.comps[i].status == Chapter7.Detached && s.ch7.comps[i].park.Some?
    ensures Chapter7.DoResume(s.ch7, i).Ok?
    ensures var s' := s.(ch7 := Chapter7.DoResume(s.ch7, i).value, running := s.ch7.comps[i].ref);
            Untouched(s'.ch7.comps, s.main) && InControl(s') && SameProcesses(s, s', None)
            && s'.ch7.systems[s.sys].operative == Some(i)
  {
    var s' := s.(ch7 := Chapter7.DoResume(s.ch7, i).value, running := s.ch7.comps[i].ref);
    assert forall m :: 0 <= m < |s.ch7.comps| && m != i ==> s'.ch7.comps[m] == s.ch7.comps[m];
  }

  lemma ResumeFromProcess(s: Sim, i: nat, j: nat)
    requires Untouched(s.ch7.comps, s.main) && InControl(s) && s.ch7.systems[s.sys].operative == Some(j)
    requires ReadyAt(s, i) && s.ch7.comps[i].status == Chapter7.Detached && s.ch7.comps[i].park.Some?
    requires s.ch7.comps[j].status == Chapter7.Resumed
    ensures Chapter7.DoResume(s.ch7, i).Ok?
    ensures var s' := s.(ch7 := Chapter7.DoResume(s.ch7, i).value, running := s.ch7.comps[i].ref);
            Untouched(s'.ch7.comps, s.main) && InControl(s') && SameProcesses(s, s', None)
            && s'.ch7.systems[s.sys].operative == Some(i)
  {
    var s' := s.(ch7 := Chapter7.DoResume(s.ch7, i).value, running := s.ch7.comps[i].ref);
    assert forall m :: 0 <= m < |s.ch7.comps| && m != i && m != j ==> s'.ch7.comps[m] == s.ch7.comps[m];
    assert s'.ch7.comps[j] == s.ch7.comps[j].(status := Chapter7.Detached, park := Some(s.ch7.current));
  }

  lemma OperativeIs(s: Sim, i: nat)
    requires Stage(s) && s.ch7.systems[s.sys].operative == Some(i)
    ensures i < |s.ch7.comps| && s.ch7.comps[i].system == Some(s.sys) && s.ch7.comps[i].status == Chapter7.Resumed
    ensures s.ch7.comps[i].head == Some(s.ch7.current) && s.main != s.ch7.current
  {
    hide Named, Chapter7.Linear;
  }

  /** The running process stops and MAIN takes over. */
  lemma YieldOnStage(s: Sim, i: nat, next: Chapter7.Status)
    requires Stage(s) && s.ch7.systems[s.sys].operative == Some(i)
    requires next == Chapter7.Detached || next == Chapter7.Terminated
    ensures Chapter7.DoLeave(s.ch7, i, next).Ok?
    ensures var s' := s.(ch7 := Chapter7.DoLeave(s.ch7, i, next).value, running := MAIN);
            && Stage(s') && s'.ch7.systems[s.sys].operative == None
            && SameProcesses(s, s', if next == Chapter7.Terminated then Some(i) else None)
  {
    OperativeIs(s, i);
    YieldShape(s, i, next);
    hide Chapter7.Inv, Untouched, InControl;
    Chapter7.StepInv(s.ch7, if next == Chapter7.Terminated then Chapter7.Terminate(i) else Chapter7.Detach(i));
    var s' := s.(ch7 := Chapter7.DoLeave(s.ch7, i, next).value, running := MAIN);
    SameProcessesNamed(s, s', if next == Chapter7.Terminated then Some(i) else None);
  }

  lemma YieldShape(s: Sim, i: nat, next: Chapter7.Status)
    requires Untouched(s.ch7.comps, s.main) && InControl(s) && s.ch7.systems[s.sys].operative == Some(i)
    requires s.ch7.comps[i].system == Some(s.sys) && s.ch7.comps[i].status == Chapter7.Resumed
    requires next == Chapter7.Detached || next == Chapter7.Terminated
    requires s.main != s.ch7.current
    ensures Chapter7.DoLeave(s.ch7, i, next).Ok?
    ensures var s' := s.(ch7 := Chapter7.DoLeave(s.ch7, i, next).value, running := MAIN);
            && Untouched(s'.ch7.comps, s.main) && InControl(s') && s'.ch7.systems[s.sys].operative == None
            && SameProcesses(s, s', if next == Chapter7.Terminated then Some(i) else None)
  {
    var s' := s.(ch7 := Chapter7.DoLeave(s.ch7, i, next).value, running := MAIN);
    assert forall m :: 0 <= m < |s.ch7.comps| && m != i ==> s'.ch7.comps[m] == s.ch7.comps[m];
  }

  lemma NextWaits(s: Sim, i: nat, n: nat)
    requires Stage(s) && s.ch7.systems[s.sys].operative == Some(i) && ReadyAt(s, n) && n != i
    ensures s.ch7.comps[i].system == Some(s.sys) && s.ch7.comps[i].status == Chapter7.Resumed
    ensures s.ch7.comps[n].status == Chapter7.Detached && s.ch7.comps[n].park.Some?
    ensures s.ch7.comps[n].park != Some(s.ch7.current)
    ensures Chapter7.Permitted(s.ch7, Chapter7.TerminateResuming(i, n))
  {
    hide Named, Untouched;
    assert Chapter7.Holder(s.ch7, Chapter7.Park(n)) == s.ch7.comps[n].park;
  }

  /** The running process ends and another takes over. */
  lemma HandOverOnStage(s: Sim, i: nat, n: nat)
    requires Stage(s) && s.ch7.systems[s.sys].operative == Some(i) && ReadyAt(s, n) && n != i
    ensures Chapter7.DoTerminateResuming(s.ch7, i, n).Ok?
    ensures var s' := s.(ch7 := Chapter7.DoTerminateResuming(s.ch7, i, n).value, running := s.ch7.comps[n].ref);
            Stage(s') && s'.ch7.systems[s.sys].operative == Some(n) && SameProcesses(s, s', Some(i))
  {
    NextWaits(s, i, n);
    HandOverShape(s, i, n);
    Chapter7.StepInv(s.ch7, Chapter7.TerminateResuming(i, n));
    hide Chapter7.Inv, Untouched, InControl;
    var s' := s.(ch7 := Chapter7.DoTerminateResuming(s.ch7, i, n).value, running := s.ch7.comps[n].ref);
    SameProcessesNamed(s, s', Some(i));
  }

  lemma HandOverShape(s: Sim, i: nat, n: nat)
    requires Untouched(s.ch7.comps, s.main) && InControl(s) && s.ch7.systems[s.sys].operative == Some(i)
    requires ReadyAt(s, n) && n != i && s.ch7.comps[n].status == Chapter7.Detached
    requires s.ch7.comps[n].park.Some? && s.ch7.comps[n].park != Some(s.ch7.current)
    requires s.ch7.comps[i].system == Some(s.sys) && s.ch7.comps[i].status == Chapter7.Resumed
    ensures Chapter7.DoTerminateResuming(s.ch7, i, n).Ok?
    ensures var s' := s.(ch7 := Chapter7.DoTerminateResuming(s.ch7, i, n).value, running := s.ch7.comps[n].ref);
            && Untouched(s'.ch7.comps, s.main) && InControl(s') && s'.ch7.systems[s.sys].operative == Some(n)
            && SameProcesses(s, s', Some(i))
  {
    var s' := s.(ch7 := Chapter7.DoTerminateResuming(s.ch7, i, n).value, running := s.ch7.comps[n].ref);
    assert forall m :: 0 <= m < |s.ch7.comps| && m != i && m != n ==> s'.ch7.comps[m] == s.ch7.comps[m];
  }

  lemma FindReady(s: Sim, p: Addr)
    requires Named(s.ch7.comps)
    ensures Ready(s, p) <==> Find(s.ch7.comps, p).Some? && ReadyAt(s, Find(s.ch7.comps, p).value)
  {
    if Ready(s, p) {
      var i :| 0 <= i < |s.ch7.comps| && s.ch7.comps[i].ref == p && ReadyAt(s, i);
      FindIs(s.ch7.comps, i);
    }
  }

  lemma RunningReady(s: Sim)
    requires Stage(s)
    ensures s.running != 0 && (s.running == MAIN || Ready(s, s.running))
  {
    if s.ch7.systems[s.sys].operative.Some? {
      var i := s.ch7.systems[s.sys].operative.value;
      assert s.ch7.comps[i].status == Chapter7.Resumed && s.ch7.comps[i].system == Some(s.sys);
      assert ReadyAt(s, i);
    }
  }

  /** MAIN's turn, or nobody's, comes while a process runs. */
  lemma TransferToMain(s: Sim)
    requires SimInv(s) && s.running != MAIN && Head(s.notices) in {0, MAIN}
    ensures DoTransfer(s).Ok? && SimInv(DoTransfer(s).value) && SameProcesses(s, DoTransfer(s).value, None)
    ensures DoTransfer(s).value.running == MAIN
  {
    hide Chapter7.Inv, SetOk, SameProcesses, Untouched;
    var i := s.ch7.systems[s.sys].operative.value;
    FindIs(s.ch7.comps, i);
    YieldOnStage(s, i, Chapter7.Detached);
    var t := s.(ch7 := Chapter7.DoLeave(s.ch7, i, Chapter7.Detached).value, running := MAIN);
    assert DoTransfer(s) == Ok(t);
  }

  lemma TransferToReady(s: Sim)
    requires SimInv(s) && Head(s.notices) !in {0, MAIN, s.running} && Ready(s, Head(s.notices))
    ensures DoTransfer(s).Ok? && SimInv(DoTransfer(s).value) && SameProcesses(s, DoTransfer(s).value, None)
    ensures DoTransfer(s).value.running == Head(s.notices)
  {
    hide Chapter7.Inv, SetOk, SameProcesses, Untouched, Ready, ReadyAt;
    var head := Head(s.notices);
    FindReady(s, head);
    var i := Find(s.ch7.comps, head).value;
    ResumeOnStage(s, i);
    var t := s.(ch7 := Chapter7.DoResume(s.ch7, i).value, running := head);
    RunningReady(s);
    assert DoTransfer(s) == Ok(t);
  }

  /** The turn of an object that cannot be put in control: the transfer stops with an
      error, or `running` names it while another is the operative component. */
  lemma TransferToOther(s: Sim)
    requires SimInv(s) && !TurnOk(s, s.notices)
    ensures var head := Head(s.notices);
            match Find(s.ch7.comps, head)
            case None => DoTransfer(s) == Err(NotAComponent)
            case Some(i) =>
              var c := s.ch7.comps[i];
              if c.system.None? then DoTransfer(s) == Err(Sequencing(Chapter7.NoSystem))
              else if c.status in {Chapter7.Attached, Chapter7.Terminated} then
                DoTransfer(s) == Err(Sequencing(Chapter7.NotDetached(c.status)))
              else
                && DoTransfer(s).Ok? && DoTransfer(s).value.running == head
                && (c.status == Chapter7.Resumed ==> DoTransfer(s).value.ch7 == s.ch7)
    ensures DoTransfer(s).Ok? ==> !InControl(DoTransfer(s).value)
  {
    var head := Head(s.notices);
    RunningReady(s);
    FindReady(s, head);
    hide SetOk, Ready;
    if Find(s.ch7.comps, head).Some? {
      ResumeOfOther(s, Find(s.ch7.comps, head).value);
    }
    hide Chapter7.Inv, Untouched, Named, ReadyAt, InControl;
  }

  lemma ResumeOfOther(s: Sim, i: nat)
    requires Stage(s) && i < |s.ch7.comps| && s.ch7.comps[i].ref != s.running && !ReadyAt(s, i)
    ensures var c, r := s.ch7.comps[i], Chapter7.DoResume(s.ch7, i);
            if c.system.None? then r == Err(Chapter7.NoSystem)
            else if c.status in {Chapter7.Attached, Chapter7.Terminated} then r == Err(Chapter7.NotDetached(c.status))
            else r.Ok? && (c.status == Chapter7.Resumed ==> r.value == s.ch7)
    ensures Chapter7.DoResume(s.ch7, i).Ok? ==>
              !InControl(s.(ch7 := Chapter7.DoResume(s.ch7, i).value, running := s.ch7.comps[i].ref))
  {
    var c := s.ch7.comps[i];
    hide Chapter7.Linear, Untouched;
    if c.system.Some? && c.status in {Chapter7.Resumed, Chapter7.Detached} {
      if c.system == Some(s.sys) {
        ResumeElsewhere(s, i);
      } else {
        ResumeAbroad(s, i);
      }
    }
  }

  /** It is of the SIMULATION system, but waits on another stack than its own. */
  lemma ResumeElsewhere(s: Sim, i: nat)
    requires Chapter7.Records(s.ch7) && InControl(s) && i < |s.ch7.comps| && s.ch7.comps[i].system == Some(s.sys)
    requires s.ch7.comps[i].status == Chapter7.Detached && s.ch7.comps[i].park != s.ch7.comps[i].head
    ensures Chapter7.DoResume(s.ch7, i).Ok?
    ensures !InControl(s.(ch7 := Chapter7.DoResume(s.ch7, i).value, running := s.ch7.comps[i].ref))
  {
    assert Chapter7.Suspend(s.ch7, s.sys).comps[i] == s.ch7.comps[i];
  }

  /** A resume in one system leaves the others as they are, and all objects their names. */
  lemma ResumeStaysIn(ch7: Chapter7.State, i: nat, sys: nat)
    requires i < |ch7.comps| && ch7.comps[i].system != Some(sys) && sys < |ch7.systems|
    requires Chapter7.DoResume(ch7, i).Ok?
    ensures var t := Chapter7.DoResume(ch7, i).value;
            && |t.systems| == |ch7.systems| && t.systems[sys] == ch7.systems[sys] && |t.comps| == |ch7.comps|
            && forall m :: 0 <= m < |ch7.comps| ==> t.comps[m].ref == ch7.comps[m].ref
  {
  }

  /** It is of another system. */
  lemma ResumeAbroad(s: Sim, i: nat)
    requires Chapter7.Records(s.ch7) && Named(s.ch7.comps) && InControl(s) && i < |s.ch7.comps|
    requires s.ch7.comps[i].system.Some? && s.ch7.comps[i].system != Some(s.sys)
    requires s.ch7.comps[i].status in {Chapter7.Resumed, Chapter7.Detached} && s.ch7.comps[i].ref != s.running
    ensures var r := Chapter7.DoResume(s.ch7, i);
            r.Ok? && (s.ch7.comps[i].status == Chapter7.Resumed ==> r.value == s.ch7)
    ensures !InControl(s.(ch7 := Chapter7.DoResume(s.ch7, i).value, running := s.ch7.comps[i].ref))
  {
    if s.ch7.comps[i].status == Chapter7.Detached { ResumeGoesOn(s.ch7, i, s.ch7.comps[i].system.value); }
    ResumeStaysIn(s.ch7, i, s.sys);
    hide Chapter7.DoResume, Chapter7.Records;
    var t := Chapter7.DoResume(s.ch7, i).value;
    if s.ch7.systems[s.sys].operative.Some? {
      assert t.comps[s.ch7.systems[s.sys].operative.value].ref == s.running;
    }
  }

  lemma ResumeGoesOn(ch7: Chapter7.State, i: nat, k: nat)
    requires Chapter7.Records(ch7) && i < |ch7.comps| && ch7.comps[i].status == Chapter7.Detached
    requires ch7.comps[i].system == Some(k)
    ensures Chapter7.DoResume(ch7, i).Ok?
  {
    assert Chapter7.Suspend(ch7, k).comps[i] == ch7.comps[i];
  }

  /** A transfer succeeds and keeps the correspondence if and only if it is nobody's
      turn, MAIN's, or that of a process that can be put in control; the head of the set
      then is the one in control. */
  lemma TransferIff(s: Sim)
    requires SimInv(s)
    ensures DoTransfer(s).Ok? && SimInv(DoTransfer(s).value) <==> TurnOk(s, s.notices)
    ensures DoTransfer(s).Ok? && InControl(DoTransfer(s).value) <==> TurnOk(s, s.notices)
    ensures TurnOk(s, s.notices) ==>
              && DoTransfer(s).value.running == (if s.notices == [] then MAIN else s.notices[0].process)
              && SameProcesses(s, DoTransfer(s).value, None)
  {
    var head := Head(s.notices);
    RunningReady(s);
    HeadIsSomeone(s.notices);
    if !TurnOk(s, s.notices) {
      TransferToOther(s);
    } else if head in {0, MAIN} && s.running != MAIN {
      TransferToMain(s);
    } else if head !in {0, MAIN, s.running} {
      TransferToReady(s);
    }
    hide Chapter7.Inv, Untouched, Named, ReadyAt, InControl, SetOk, Ready;
  }

  lemma HeadIsSomeone(notices: seq<Notice>)
    requires SetOk(notices)
    ensures Head(notices) == 0 <==> notices == []
  {
    if notices != [] {
      assert notices[0] in notices;
    }
  }

  /** A stage holds whatever the set. */
  lemma ShorterSet(s: Sim, t: Sim, notices: seq<Notice>, ended: Option<nat>)
    requires Stage(t) && SameProcesses(s, t, ended) && SetOk(notices) && |notices| <= MAX_LEN
    ensures SimInv(t.(notices := notices)) && SameProcesses(s, t.(notices := notices), ended)
  {
    hide Chapter7.Inv, SetOk, Named, Untouched;
  }

  /** A process ends and MAIN takes over. */
  lemma TerminateToMain(s: Sim, p: Addr, i: nat)
    requires SimInv(s) && s.ch7.systems[s.sys].operative == Some(i) && s.ch7.comps[i].ref == p
    requires Head(Without(s.notices, p)) in {0, MAIN}
    ensures DoTerminateCurrent(s, p).Ok? && SimInv(DoTerminateCurrent(s, p).value)
    ensures SameProcesses(s, DoTerminateCurrent(s, p).value, Some(i))
    ensures DoTerminateCurrent(s, p).value.running == MAIN
  {
    WithoutOk(s.notices, p);
    WithoutMembers(s.notices, p);
    FindIs(s.ch7.comps, i);
    YieldOnStage(s, i, Chapter7.Terminated);
    hide Chapter7.Inv, SetOk, Untouched, InControl, Without, SameProcesses, Chapter7.DoLeave;
    var t := s.(ch7 := Chapter7.DoLeave(s.ch7, i, Chapter7.Terminated).value, running := MAIN);
    assert DoTerminateCurrent(s, p) == Ok(t.(notices := Without(s.notices, p)));
    ShorterSet(s, t, Without(s.notices, p), Some(i));
  }

  lemma TerminateToReady(s: Sim, p: Addr, i: nat, n: nat)
    requires SimInv(s) && s.ch7.systems[s.sys].operative == Some(i) && s.ch7.comps[i].ref == p
    requires Head(Without(s.notices, p)) !in {0, MAIN} && Find(s.ch7.comps, Head(Without(s.notices, p))) == Some(n)
    requires ReadyAt(s, n) && n != i
    ensures DoTerminateCurrent(s, p).Ok? && SimInv(DoTerminateCurrent(s, p).value)
    ensures SameProcesses(s, DoTerminateCurrent(s, p).value, Some(i))
    ensures DoTerminateCurrent(s, p).value.running == Head(Without(s.notices, p))
  {
    WithoutOk(s.notices, p);
    WithoutMembers(s.notices, p);
    FindIs(s.ch7.comps, i);
    HandOverOnStage(s, i, n);
    hide Chapter7.Inv, SetOk, Untouched, InControl, Without, SameProcesses, ReadyAt, Chapter7.DoTerminateResuming;
    var t := s.(ch7 := Chapter7.DoTerminateResuming(s.ch7, i, n).value, running := s.ch7.comps[n].ref);
    assert DoTerminateCurrent(s, p) == Ok(t.(notices := Without(s.notices, p)));
    ShorterSet(s, t, Without(s.notices, p), Some(i));
  }

  /** The process that ends hands over to one that cannot be put in control. */
  lemma TerminateToOther(s: Sim, p: Addr, i: nat, n: nat)
    requires SimInv(s) && s.ch7.systems[s.sys].operative == Some(i) && s.ch7.comps[i].ref == p
    requires Head(Without(s.notices, p)) !in {0, MAIN} && Find(s.ch7.comps, Head(Without(s.notices, p))) == Some(n)
    requires !ReadyAt(s, n) && n != i
    ensures DoTerminateCurrent(s, p).Ok? ==> !InControl(DoTerminateCurrent(s, p).value)
    ensures DoTerminateCurrent(s, p).Ok? && s.ch7.comps[n].system != Some(s.sys) ==>
              !Chapter7.Inv(DoTerminateCurrent(s, p).value.ch7)
  {
    FindIs(s.ch7.comps, i);
    hide SetOk, Untouched, Without, Named;
    var r := Chapter7.DoTerminateResuming(s.ch7, i, n);
    if r.Ok? {
      assert s.ch7.comps[i].status == Chapter7.Resumed && s.ch7.comps[i].system == Some(s.sys);
      Chapter7.HandoverWrites(s.ch7, i, n);
      hide Chapter7.DoTerminateResuming, Chapter7.Linear;
      assert r.value.comps[i].ref == p && r.value.comps[i].status == Chapter7.Terminated;
      assert s.ch7.comps[n].system != Some(s.sys) ==> r.value.systems[s.sys].operative == Some(i);
    }
  }

  lemma TerminateToNobody(s: Sim, p: Addr)
    requires Head(Without(s.notices, p)) !in {0, MAIN} && Find(s.ch7.comps, Head(Without(s.notices, p))).None?
    ensures DoTerminateCurrent(s, p).Err?
  {
    hide Without, Find;
  }

  lemma TerminateTakesOut(s: Sim, p: Addr)
    requires DoTerminateCurrent(s, p).Ok?
    ensures DoTerminateCurrent(s, p).value.notices == Without(s.notices, p)
  {
    hide Without, Find, Chapter7.DoLeave, Chapter7.DoTerminateResuming;
  }

  /** A final end succeeds and keeps the correspondence under the same condition on
      whose turn is next. */
  lemma TerminateIff(s: Sim, p: Addr)
    requires SimInv(s) && Permitted(s, TerminateCurrent(p))
    ensures var o := DoTerminateCurrent(s, p);
            && (o.Ok? && SimInv(o.value) <==> TurnOk(s, Without(s.notices, p)))
            && (o.Ok? && InControl(o.value) <==> TurnOk(s, Without(s.notices, p)))
            && (o.Ok? ==> o.value.notices == Without(s.notices, p))
    ensures TurnOk(s, Without(s.notices, p)) ==>
              var s' := DoTerminateCurrent(s, p).value;
              && s'.running == (if s'.notices == [] then MAIN else s'.notices[0].process)
              && SameProcesses(s, s', Find(s.ch7.comps, p))
  {
    var i := s.ch7.systems[s.sys].operative.value;
    var notices := Without(s.notices, p);
    var head := Head(notices);
    FindIs(s.ch7.comps, i);
    WithoutOk(s.notices, p);
    WithoutMembers(s.notices, p);
    HeadIsSomeone(notices);
    FindReady(s, head);
    hide DoTerminateCurrent, Ready, ReadyAt, Without, SameProcesses, Chapter7.Inv, Untouched, SetOk, Named;
    if DoTerminateCurrent(s, p).Ok? { TerminateTakesOut(s, p); }
    if head in {0, MAIN} {
      TerminateToMain(s, p, i);
    } else if Find(s.ch7.comps, head).Some? {
      assert notices[0] in notices;
      var n := Find(s.ch7.comps, head).value;
      if ReadyAt(s, n) { TerminateToReady(s, p, i, n); } else { TerminateToOther(s, p, i, n); }
    } else {
      TerminateToNobody(s, p);
    }
  }

  /** A generated process is one more detached component; nothing else changes. */
  lemma GenerateShape(s: Sim, p: Addr)
    requires Stage(s)
    ensures DoGenerate(s, p).Ok?
    ensures var h := s.ch7.coros;
            DoGenerate(s, p).value.ch7 == s.ch7.(
              coros := h + 1,
              comps := s.ch7.comps + [Chapter7.Comp(p, Some(h), Some(h), Some(s.ch7.current), Some(s.sys),
                                                    Chapter7.Detached, s.ch7.current)])
    ensures Chapter7.Inv(DoGenerate(s, p).value.ch7)
  {
    hide Chapter7.Inv, Untouched, Named;
    var i := |s.ch7.comps|;
    var s1 := Chapter7.DoCreate(s.ch7, p, Some(s.sys));
    Chapter7.CreateInv(s.ch7, p, Some(s.sys));
    var s2 := Chapter7.DoStart(s1, i).value;
    Chapter7.StepInv(s1, Chapter7.Start(i));
    Chapter7.StepInv(s2, Chapter7.Detach(i));
    assert Chapter7.DoDetach(s2, i).value.comps == s.ch7.comps + [Chapter7.DoDetach(s2, i).value.comps[i]];
  }

  lemma GenerateKeepsInv(s: Sim, p: Addr)
    requires SimInv(s) && Permitted(s, Generate(p))
    ensures DoGenerate(s, p).Ok? && SimInv(DoGenerate(s, p).value)
    ensures DoGenerate(s, p).value.notices == s.notices && DoGenerate(s, p).value.running == s.running
    ensures Ready(DoGenerate(s, p).value, p) && forall q :: Ready(s, q) ==> Ready(DoGenerate(s, p).value, q)
  {
    GenerateShape(s, p);
    var s' := DoGenerate(s, p).value;
    MainOlder(s);
    hide Chapter7.Inv, SetOk, Ready;
    var c := s'.ch7.comps[|s.ch7.comps|];
    GrownNamed(s.ch7.comps, c);
    hide Named;
    GrownStage(s, s', c);
    hide Untouched, InControl;
    GrownReady(s, s', c);
  }

  lemma GrownNamed(comps: seq<Chapter7.Comp>, c: Chapter7.Comp)
    requires Named(comps) && c.ref > MAIN && Find(comps, c.ref).None?
    requires c.head.Some? && forall i :: 0 <= i < |comps| ==> comps[i].head != c.head
    ensures Named(comps + [c])
  {
    var all := comps + [c];
    assert forall i :: 0 <= i < |comps| ==> all[i] == comps[i] && comps[i].ref != c.ref;
    forall i, j | 0 <= i < j < |all|
      ensures all[i].ref != all[j].ref && (all[i].head.Some? ==> all[i].head != all[j].head)
    {
      assert all[i] == comps[i];
    }
  }

  lemma GrownStage(s: Sim, s': Sim, c: Chapter7.Comp)
    requires Untouched(s.ch7.comps, s.main) && InControl(s)
    requires s'.sys == s.sys && s'.main == s.main && s'.running == s.running
    requires s'.ch7.comps == s.ch7.comps + [c] && s'.ch7.systems == s.ch7.systems && s'.ch7.current == s.ch7.current
    requires c.park == c.head && c.head != Some(s.main)
    ensures Untouched(s'.ch7.comps, s.main) && InControl(s')
  {
    assert forall i :: 0 <= i < |s.ch7.comps| ==> s'.ch7.comps[i] == s.ch7.comps[i];
  }

  lemma GrownReady(s: Sim, s': Sim, c: Chapter7.Comp)
    requires s'.sys == s.sys && s'.ch7.comps == s.ch7.comps + [c]
    requires c.system == Some(s.sys) && c.status == Chapter7.Detached && c.park == c.head
    ensures Ready(s', c.ref) && forall q :: Ready(s, q) ==> Ready(s', q)
  {
    assert ReadyAt(s', |s.ch7.comps|);
    forall q | Ready(s, q) ensures Ready(s', q) {
      var i :| 0 <= i < |s.ch7.comps| && s.ch7.comps[i].ref == q && ReadyAt(s, i);
      assert s'.ch7.comps[i] == s.ch7.comps[i] && ReadyAt(s', i);
    }
  }

  /** MAIN's coroutine and every head already exist, so a new head is new. */
  lemma MainOlder(s: Sim)
    requires Stage(s)
    ensures s.main < s.ch7.coros
    ensures forall i :: 0 <= i < |s.ch7.comps| && s.ch7.comps[i].head.Some? ==>
              s.ch7.comps[i].head.value < s.ch7.coros
  {
    if s.ch7.systems[s.sys].operative.Some? {
      assert Chapter7.Holder(s.ch7, Chapter7.MainPark(s.sys)) == Some(s.main);
    }
  }

  // ------------------------------------------------------------- every statement

  /** The condition of a scheduling call: where control is transferred, the one whose
      turn comes can be put in control. */
  ghost predicate Fair(s: Sim, op: Op) {
    match op
    case TransferToHead => TurnOk(s, s.notices)
    case TerminateCurrent(p) => TurnOk(s, Without(s.notices, p))
    case _ => true
  }

  /** The call kept the correspondence, or failed for want of room in the set. */
  ghost predicate Kept(outcome: Outcome) {
    match outcome
    case Ok(s) => SimInv(s)
    case Err(e) => e == LimitExceeded
  }

  /** A scheduling call keeps the correspondence between the sequencing set and chapter
      7, and fails in no other way than by outgrowing the set, if and only if it is
      fair. */
  lemma StepIff(s: Sim, op: Op)
    requires SimInv(s) && Permitted(s, op)
    ensures Kept(Step(s, op)) <==> Fair(s, op)
  {
    SelfIsSomeone(s);
    hide SimInv, Ready, TurnOk, Self;
    match op
    case Hold(dt) =>
      if Step(s, op).Ok? { FileKeepsInv(s, Time(s.notices) + (if dt < 0.0 then 0.0 else dt), Self(s), false); }
    case ActivateDirect(p) =>
      if p != 0 && IndexOf(s.notices, p).None? && Step(s, op).Ok? { FileKeepsInv(s, Time(s.notices), p, true); }
    case ActivateTimed(p, t, delay, prior, reac) =>
      if p != 0 && (reac || IndexOf(s.notices, p).None?) && Step(s, op).Ok? {
        FileKeepsInv(s, TimedAt(Time(s.notices), t, delay), p, prior);
      }
    case ActivateRelative(p, other, before) =>
      if Step(s, op).Ok? { FileNextToKeepsInv(s, p, other, before); }
    case Passivate => CancelKeepsInv(s, Self(s));
    case Cancel(p) => CancelKeepsInv(s, p);
    case FinishMain => CancelKeepsInv(s, MAIN);
    case TransferToHead =>
      TransferIff(s);
      NoRoomNeeded(s, op);
    case TerminateCurrent(p) =>
      TerminateIff(s, p);
      NoRoomNeeded(s, op);
    case Generate(p) => GenerateKeepsInv(s, p);
  }

  lemma NoRoomNeeded(s: Sim, op: Op)
    requires op.TransferToHead? || op.TerminateCurrent?
    ensures Step(s, op) != Err(LimitExceeded)
  {
    hide Without, Find, Chapter7.DoDetach, Chapter7.DoResume, Chapter7.DoLeave, Chapter7.DoTerminateResuming;
  }

  // ------------------------------------------------------------- who may be activated

  /** Everyone scheduled can be put in control. */
  ghost predicate AllReady(s: Sim) {
    forall n :: n in s.notices ==> n.process == MAIN || Ready(s, n.process)
  }

  /** The process a statement activates can be put in control, if it is one. */
  ghost predicate ActivatesReady(s: Sim, op: Op) {
    match op
    case ActivateDirect(p) => p in {0, MAIN} || Ready(s, p)
    case ActivateTimed(p, _, _, _, _) => p in {0, MAIN} || Ready(s, p)
    case ActivateRelative(p, _, _) => p in {0, MAIN} || Ready(s, p)
    case _ => true
  }

  lemma AllReadyFair(s: Sim, op: Op)
    requires AllReady(s) && SetOk(s.notices)
    ensures Fair(s, op)
  {
    if op.TransferToHead? && s.notices != [] {
      assert s.notices[0] in s.notices;
    }
    if op.TerminateCurrent? {
      var left := Without(s.notices, op.process);
      WithoutMembers(s.notices, op.process);
      if left != [] { assert left[0] in left; }
    }
  }

  /** A set that differs from an all-ready one in `p` only is all-ready if and only if
      `p`, if scheduled, is ready. */
  lemma AllReadyBut(s: Sim, s': Sim, p: Addr)
    requires AllReady(s) && s'.ch7 == s.ch7 && s'.sys == s.sys && Without(s'.notices, p) == Without(s.notices, p)
    ensures AllReady(s') <==> (Scheduled(s'.notices, p) ==> p == MAIN || Ready(s, p))
  {
    WithoutMembers(s.notices, p);
    WithoutMembers(s'.notices, p);
    assert forall q :: Ready(s', q) <==> Ready(s, q) by { SameReady(s, s'); }
    hide Ready;
    if i :| 0 <= i < |s'.notices| && s'.notices[i].process == p {
      assert s'.notices[i] in s'.notices;
    }
    forall n | n in s'.notices && n.process != p ensures n in s.notices {
      assert n in Without(s'.notices, p);
    }
    forall n | n in s'.notices && n.process == p ensures Scheduled(s'.notices, p) {
      var i :| 0 <= i < |s'.notices| && s'.notices[i] == n;
    }
  }

  lemma SameReady(s: Sim, s': Sim)
    requires s'.ch7 == s.ch7 && s'.sys == s.sys
    ensures forall q :: Ready(s', q) <==> Ready(s, q)
  {
    forall q | Ready(s, q) ensures Ready(s', q) {
      var i :| 0 <= i < |s.ch7.comps| && s.ch7.comps[i].ref == q && ReadyAt(s, i);
      assert ReadyAt(s', i);
    }
    forall q | Ready(s', q) ensures Ready(s, q) {
      var i :| 0 <= i < |s.ch7.comps| && s'.ch7.comps[i].ref == q && ReadyAt(s', i);
      assert ReadyAt(s, i);
    }
  }

  /** An activation that has an effect leaves everyone scheduled ready if and only if
      the one it activates is ready. */
  lemma ActivationIff(s: Sim, op: Op)
    requires SetOk(s.notices) && AllReady(s) && Step(s, op).Ok?
    requires op.ActivateDirect? || op.ActivateTimed? || op.ActivateRelative?
    ensures AllReady(Step(s, op).value) <==> Step(s, op).value == s || ActivatesReady(s, op)
  {
    var s' := Step(s, op).value;
    if s' != s {
      Activated(s, op);
      AllReadyBut(s, s', op.process);
      hide AllReady, Ready;
    }
  }

  lemma Activated(s: Sim, op: Op)
    requires SetOk(s.notices) && Step(s, op).Ok? && Step(s, op).value != s
    requires op.ActivateDirect? || op.ActivateTimed? || op.ActivateRelative?
    ensures var s', p := Step(s, op).value, op.process;
            && p != 0 && s'.ch7 == s.ch7 && s'.sys == s.sys
            && Without(s'.notices, p) == Without(s.notices, p) && Scheduled(s'.notices, p)
  {
    match op
    case ActivateDirect(p) => FiledOk(s.notices, Notice(Time(s.notices), p, s.nextSeq), true);
    case ActivateTimed(p, t, delay, prior, _) =>
      FiledOk(s.notices, Notice(TimedAt(Time(s.notices), t, delay), p, s.nextSeq), prior);
    case ActivateRelative(p, other, before) => FiledNextToOk(s.notices, p, other, before, s.nextSeq);
  }

  lemma SameProcessesReady(s: Sim, s': Sim, ended: Option<nat>)
    requires Named(s.ch7.comps) && AllReady(s) && SameProcesses(s, s', ended)
    requires forall n :: n in s'.notices ==> n in s.notices
    requires ended.Some? && ended.value < |s.ch7.comps| ==>
               forall n :: n in s'.notices ==> n.process != s.ch7.comps[ended.value].ref
    ensures AllReady(s')
  {
    hide ReadyAt;
    forall n | n in s'.notices && n.process != MAIN
      ensures Ready(s', n.process)
    {
      assert Ready(s, n.process);
      var i :| 0 <= i < |s.ch7.comps| && s.ch7.comps[i].ref == n.process && ReadyAt(s, i);
      assert s'.ch7.comps[i].ref == n.process && ReadyAt(s', i);
    }
  }

  /** A set that lost notices only. */
  lemma FewerReady(s: Sim, s': Sim)
    requires AllReady(s) && s'.ch7 == s.ch7 && s'.sys == s.sys && forall n :: n in s'.notices ==> n in s.notices
    ensures AllReady(s')
  {
    SameReady(s, s');
    hide Ready;
  }

  lemma HoldReady(s: Sim, dt: real)
    requires SimInv(s) && AllReady(s) && DoHold(s, dt).Ok?
    ensures AllReady(DoHold(s, dt).value)
  {
    hide Stage, AllReady, Ready, SetOk, Self, FileAt;
    SelfIsRunning(s);
    RunningReady(s);
    FileReady(s, Time(s.notices) + (if dt < 0.0 then 0.0 else dt), s.running, false);
  }

  lemma FileReady(s: Sim, t: real, p: Addr, prior: bool)
    requires SetOk(s.notices) && AllReady(s) && p != 0 && (p == MAIN || Ready(s, p)) && FileAt(s, t, p, prior).Ok?
    ensures AllReady(FileAt(s, t, p, prior).value)
  {
    FiledOk(s.notices, Notice(t, p, s.nextSeq), prior);
    hide AllReady, Ready, SetOk, Filed, Without;
    AllReadyBut(s, FileAt(s, t, p, prior).value, p);
  }

  lemma TransferLeavesSet(s: Sim)
    requires DoTransfer(s).Ok?
    ensures DoTransfer(s).value.notices == s.notices
  {
    hide Chapter7.DoDetach, Chapter7.DoResume;
  }

  lemma TransferReady(s: Sim)
    requires SimInv(s) && AllReady(s)
    ensures DoTransfer(s).Ok? && AllReady(DoTransfer(s).value)
  {
    AllReadyFair(s, TransferToHead);
    TransferIff(s);
    TransferLeavesSet(s);
    hide Chapter7.Inv, SetOk, AllReady, DoTransfer, SameProcesses;
    SameProcessesReady(s, DoTransfer(s).value, None);
  }

  lemma TerminateReady(s: Sim, p: Addr)
    requires SimInv(s) && AllReady(s) && Permitted(s, TerminateCurrent(p))
    ensures DoTerminateCurrent(s, p).Ok? && AllReady(DoTerminateCurrent(s, p).value)
  {
    AllReadyFair(s, TerminateCurrent(p));
    TerminateIff(s, p);
    WithoutMembers(s.notices, p);
    hide Chapter7.Inv, SetOk, AllReady, DoTerminateCurrent, SameProcesses, Without;
    SameProcessesReady(s, DoTerminateCurrent(s, p).value, Find(s.ch7.comps, p));
  }

  lemma GenerateReady(s: Sim, p: Addr)
    requires SimInv(s) && AllReady(s) && Permitted(s, Generate(p))
    ensures DoGenerate(s, p).Ok? && AllReady(DoGenerate(s, p).value)
  {
    GenerateKeepsInv(s, p);
    hide SimInv, DoGenerate, Ready;
  }

  /** While everyone scheduled is ready and only those that are get activated, everyone
      scheduled stays ready. */
  lemma StepReady(s: Sim, op: Op)
    requires SimInv(s) && AllReady(s) && Permitted(s, op) && ActivatesReady(s, op) && Step(s, op).Ok?
    ensures AllReady(Step(s, op).value)
  {
    match op
    case Hold(dt) => HoldReady(s, dt);
    case TransferToHead => TransferReady(s);
    case TerminateCurrent(p) => TerminateReady(s, p);
    case Generate(p) => GenerateReady(s, p);
    case Passivate => LeavesReady(s, Self(s));
    case Cancel(p) => LeavesReady(s, p);
    case FinishMain => LeavesReady(s, MAIN);
    case _ => ActivationIff(s, op);
  }

  lemma LeavesReady(s: Sim, p: Addr)
    requires AllReady(s)
    ensures AllReady(DoCancel(s, p))
  {
    WithoutMembers(s.notices, p);
    FewerReady(s, DoCancel(s, p));
  }

  // ------------------------------------------------------------- whole runs

  /** As long as the correspondence holds, each call is one that the compiler emits. */
  ghost predicate Asks(s: Sim, ops: seq<Op>)
    decreases |ops|
  {
    ops != [] ==>
      && Permitted(s, ops[0])
      && (Step(s, ops[0]).Ok? && SimInv(Step(s, ops[0]).value) ==> Asks(Step(s, ops[0]).value, ops[1..]))
  }

  /** The correspondence holds at every point of the run, until the set is full. */
  ghost predicate Throughout(s: Sim, ops: seq<Op>)
    decreases |ops|
  {
    && SimInv(s)
    && (ops != [] ==>
          match Step(s, ops[0])
          case Ok(s') => Throughout(s', ops[1..])
          case Err(e) => e == LimitExceeded)
  }

  ghost predicate AllFair(s: Sim, ops: seq<Op>)
    decreases |ops|
  {
    ops != [] ==> Fair(s, ops[0]) && (Step(s, ops[0]).Ok? ==> AllFair(Step(s, ops[0]).value, ops[1..]))
  }

  /** Over any run the correspondence holds throughout if and only if each time control
      is transferred the one whose turn comes can be put in control. */
  lemma {:induction false} RunIff(s: Sim, ops: seq<Op>)
    requires SimInv(s) && Asks(s, ops)
    ensures Throughout(s, ops) <==> AllFair(s, ops)
    decreases |ops|
  {
    hide SimInv, Permitted, Step, Fair;
    if ops != [] {
      StepIff(s, ops[0]);
      if Fair(s, ops[0]) && Step(s, ops[0]).Ok? {
        RunIff(Step(s, ops[0]).value, ops[1..]);
      }
    }
  }

  /** Every statement of the run succeeds. */
  ghost predicate Run(s: Sim, ops: seq<Op>)
    decreases |ops|
  {
    ops == [] || (Step(s, ops[0]).Ok? && Run(Step(s, ops[0]).value, ops[1..]))
  }

  ghost function Final(s: Sim, ops: seq<Op>): Sim
    requires Run(s, ops)
    decreases |ops|
  {
    if ops == [] then s else Final(Step(s, ops[0]).value, ops[1..])
  }

  // ------------------------------------------------------------- live is ready

  /** The components of the SIMULATION system have terminated or are ready. */
  ghost predicate OwnStacks(s: Sim) {
    forall i :: 0 <= i < |s.ch7.comps| && s.ch7.comps[i].system == Some(s.sys) ==>
      s.ch7.comps[i].status == Chapter7.Terminated || ReadyAt(s, i)
  }

  /** An object of the SIMULATION system that has not terminated. */
  ghost predicate Live(s: Sim, p: Addr) {
    exists i :: && 0 <= i < |s.ch7.comps| && s.ch7.comps[i].ref == p
                && s.ch7.comps[i].system == Some(s.sys) && s.ch7.comps[i].status != Chapter7.Terminated
  }

  lemma LiveIsReady(s: Sim)
    requires OwnStacks(s)
    ensures forall p :: Ready(s, p) <==> Live(s, p)
  {
    forall p | Live(s, p) ensures Ready(s, p) {
      var i :| && 0 <= i < |s.ch7.comps| && s.ch7.comps[i].ref == p
               && s.ch7.comps[i].system == Some(s.sys) && s.ch7.comps[i].status != Chapter7.Terminated;
      assert ReadyAt(s, i);
    }
    forall p | Ready(s, p) ensures Live(s, p) {
      var i :| 0 <= i < |s.ch7.comps| && s.ch7.comps[i].ref == p && ReadyAt(s, i);
      assert s.ch7.comps[i].status != Chapter7.Terminated;
    }
  }

  lemma SameOwnStacks(s: Sim, s': Sim, ended: Option<nat>)
    requires OwnStacks(s) && SameProcesses(s, s', ended)
    ensures OwnStacks(s')
  {
    hide ReadyAt;
  }

  lemma GrownOwnStacks(s: Sim, s': Sim, c: Chapter7.Comp)
    requires OwnStacks(s) && s'.sys == s.sys && s'.ch7.comps == s.ch7.comps + [c]
    requires c.status == Chapter7.Detached && c.park == c.head
    ensures OwnStacks(s')
  {
    forall i | 0 <= i < |s'.ch7.comps| && s'.ch7.comps[i].system == Some(s'.sys)
      ensures s'.ch7.comps[i].status == Chapter7.Terminated || ReadyAt(s', i)
    {
      if i < |s.ch7.comps| { assert s'.ch7.comps[i] == s.ch7.comps[i]; }
    }
  }

  /** The statements on the set alone do not touch the records. */
  lemma RecordsKept(s: Sim, op: Op)
    requires Step(s, op).Ok? && !op.TransferToHead? && !op.TerminateCurrent? && !op.Generate?
    ensures Step(s, op).value.ch7 == s.ch7 && Step(s, op).value.sys == s.sys
  {
    hide Filed, FiledNextTo, Without, Self;
  }

  lemma StepOwnStacks(s: Sim, op: Op)
    requires SimInv(s) && OwnStacks(s) && Permitted(s, op) && Fair(s, op) && Step(s, op).Ok?
    ensures OwnStacks(Step(s, op).value)
  {
    hide SimInv, TurnOk, OwnStacks, SameProcesses;
    match op
    case TransferToHead =>
      TransferIff(s);
      SameOwnStacks(s, DoTransfer(s).value, None);
    case TerminateCurrent(p) =>
      TerminateIff(s, p);
      SameOwnStacks(s, DoTerminateCurrent(s, p).value, Find(s.ch7.comps, p));
    case Generate(p) =>
      InvIsStage(s);
      GenerateShape(s, p);
      GrownOwnStacks(s, DoGenerate(s, p).value, DoGenerate(s, p).value.ch7.comps[|s.ch7.comps|]);
    case _ =>
      RecordsKept(s, op);
      hide Step;
      SameRecords(s, Step(s, op).value);
  }

  lemma InvIsStage(s: Sim)
    requires SimInv(s)
    ensures Stage(s)
  {
  }

  lemma SameRecords(s: Sim, s': Sim)
    requires OwnStacks(s) && s'.ch7 == s.ch7 && s'.sys == s.sys
    ensures OwnStacks(s')
  {
  }

  /** Over runs of scheduling calls alone that keep the correspondence, a process can be
      put in control if and only if it is of the SIMULATION system and not terminated. */
  lemma {:induction false} RunLive(s: Sim, ops: seq<Op>)
    requires SimInv(s) && OwnStacks(s) && Asks(s, ops) && Throughout(s, ops) && Run(s, ops)
    ensures SimInv(Final(s, ops)) && OwnStacks(Final(s, ops))
    ensures forall p :: Ready(Final(s, ops), p) <==> Live(Final(s, ops), p)
    decreases |ops|
  {
    hide SimInv, OwnStacks, Permitted, Step, Fair, Ready, Live;
    if ops == [] {
      LiveIsReady(s);
    } else {
      StepIff(s, ops[0]);
      StepOwnStacks(s, ops[0]);
      RunLive(Step(s, ops[0]).value, ops[1..]);
    }
  }

  // ------------------------------------------------------------- the block begins

  /** The SIMULATION block has just been entered: its system is new, nothing is
      generated in it, and only MAIN is scheduled. */
  function Begin(ch7: Chapter7.State, sys: nat): Sim {
    Sim([Notice(0.0, MAIN, 1)], 2, MAIN, ch7, sys, ch7.current)
  }

  /** The block has just been entered: its system is the running coroutine's. */
  ghost predicate JustEntered(ch7: Chapter7.State, sys: nat) {
    sys < |ch7.systems| && ch7.systems[sys] == Chapter7.Sys(ch7.current, None, true)
  }

  /** Scheduling starts out right exactly when the coroutine that enters the block is no
      object's own and no object's reactivation point. */
  lemma BeginIff(ch7: Chapter7.State, sys: nat)
    requires Chapter7.Inv(ch7) && Named(ch7.comps) && JustEntered(ch7, sys)
    ensures SimInv(Begin(ch7, sys)) <==> Untouched(ch7.comps, ch7.current)
    ensures AllReady(Begin(ch7, sys))
    ensures (forall i :: 0 <= i < |ch7.comps| ==> ch7.comps[i].system != Some(sys)) ==> OwnStacks(Begin(ch7, sys))
  {
    hide Chapter7.Inv;
    var s := Begin(ch7, sys);
    assert forall n :: n in s.notices ==> n == Notice(0.0, MAIN, 1);
  }

  /** Whenever the correspondence holds, `running` names the operative component of
      the SIMULATION system, whose own coroutine executes, or MAIN when there is
      none, and every other scheduled process that is ready is detached. */
  lemma OthersWait(s: Sim)
    requires SimInv(s)
    ensures s.running == MAIN ==>
              s.ch7.systems[s.sys].operative == None && s.ch7.current == s.main
    ensures s.running != MAIN ==>
              var i := Find(s.ch7.comps, s.running);
              i.Some? && s.ch7.systems[s.sys].operative == i && s.ch7.comps[i.value].head == Some(s.ch7.current)
              && s.ch7.comps[i.value].status == Chapter7.Resumed
    ensures forall n :: n in s.notices && n.process != s.running && Ready(s, n.process) ==>
              var i := Find(s.ch7.comps, n.process);
              i.Some? && s.ch7.comps[i.value].status == Chapter7.Detached
              && s.ch7.comps[i.value].park == s.ch7.comps[i.value].head
  {
    if s.ch7.systems[s.sys].operative.Some? {
      FindIs(s.ch7.comps, s.ch7.systems[s.sys].operative.value);
    }
    forall n | n in s.notices && n.process != s.running && Ready(s, n.process)
      ensures var i := Find(s.ch7.comps, n.process);
              i.Some? && s.ch7.comps[i.value].status == Chapter7.Detached
              && s.ch7.comps[i.value].park == s.ch7.comps[i.value].head
    {
      FindReady(s, n.process);
      DetachedUnlessRunning(s, Find(s.ch7.comps, n.process).value);
    }
  }

  lemma DetachedUnlessRunning(s: Sim, i: nat)
    requires Stage(s) && ReadyAt(s, i) && s.ch7.comps[i].ref != s.running
    ensures s.ch7.comps[i].status == Chapter7.Detached
  {
    hide Named, Untouched, Chapter7.Linear;
  }

  // ------------------------------------------------------------- simulated time

  ghost predicate NoEarlier(s: seq<Notice>, t: real) {
    forall n :: n in s ==> n.evtime >= t
  }

  lemma HeadIsNow(s: seq<Notice>)
    requires SetOk(s)
    ensures NoEarlier(s, Time(s)) || s == []
  {
    forall n | n in s
      ensures n.evtime >= Time(s)
    {
      var i :| 0 <= i < |s| && s[i] == n;
    }
  }

  lemma NoEarlierWithout(s: seq<Notice>, r: seq<Notice>, p: Addr, t: real)
    requires NoEarlier(s, t) && Without(r, p) == Without(s, p)
    requires forall n :: n in r && n.process == p ==> n.evtime >= t
    ensures NoEarlier(r, t)
  {
    WithoutMembers(s, p);
    WithoutMembers(r, p);
    forall n | n in r
      ensures n.evtime >= t
    {
      if n.process != p {
        assert n in Without(r, p);
      }
    }
  }

  /** Nothing is ever filed before now. */
  lemma StepNoEarlier(s: Sim, op: Op, t: real)
    requires SetOk(s.notices) && NoEarlier(s.notices, t) && t <= Time(s.notices) && Step(s, op).Ok?
    ensures NoEarlier(Step(s, op).value.notices, t)
  {
    SelfIsSomeone(s);
    hide Chapter7.DoStart, Chapter7.DoDetach, Chapter7.DoResume, Chapter7.DoLeave, Chapter7.DoTerminateResuming;
    hide SetOk, Without, Filed, FiledNextTo, Self;
    match op
    case Hold(dt) => FileNoEarlier(s, Time(s.notices) + (if dt < 0.0 then 0.0 else dt), Self(s), false, t);
    case ActivateDirect(p) =>
      if p != 0 && IndexOf(s.notices, p).None? { FileNoEarlier(s, Time(s.notices), p, true, t); }
    case ActivateTimed(p, at, delay, prior, reac) =>
      if p != 0 && (reac || IndexOf(s.notices, p).None?) {
        FileNoEarlier(s, TimedAt(Time(s.notices), at, delay), p, prior, t);
      }
    case ActivateRelative(p, other, before) => NextToNoEarlier(s, p, other, before, t);
    case Passivate => WithoutMembers(s.notices, Self(s));
    case Cancel(p) => WithoutMembers(s.notices, p);
    case FinishMain => WithoutMembers(s.notices, MAIN);
    case TransferToHead =>
    case TerminateCurrent(p) => WithoutMembers(s.notices, p);
    case Generate(p) =>
  }

  lemma FileNoEarlier(s: Sim, at: real, p: Addr, prior: bool, t: real)
    requires SetOk(s.notices) && NoEarlier(s.notices, t) && t <= at && p != 0 && FileAt(s, at, p, prior).Ok?
    ensures NoEarlier(FileAt(s, at, p, prior).value.notices, t)
  {
    var n := Notice(at, p, s.nextSeq);
    FiledOk(s.notices, n, prior);
    var r := Filed(s.notices, n, prior);
    forall m | m in r && m.process == p
      ensures m == n
    {
      var i :| 0 <= i < |r| && r[i] == m;
      FirstIndex(r, p, i);
    }
    NoEarlierWithout(s.notices, r, p, t);
  }

  lemma NextToNoEarlier(s: Sim, p: Addr, other: Addr, before: bool, t: real)
    requires SetOk(s.notices) && NoEarlier(s.notices, t) && DoActivateRelative(s, p, other, before).Ok?
    ensures NoEarlier(DoActivateRelative(s, p, other, before).value.notices, t)
  {
    if p != 0 && other != 0 && p != other && IndexOf(s.notices, other).Some? {
      FiledNextToOk(s.notices, p, other, before, s.nextSeq);
      hide *;
      BesideNoEarlier(s.notices, FiledNextTo(s.notices, p, other, before, s.nextSeq), p, other, t);
    }
  }

  /** A set that differs only in `p`, filed at the time of another process. */
  lemma BesideNoEarlier(s: seq<Notice>, r: seq<Notice>, p: Addr, other: Addr, t: real)
    requires NoEarlier(s, t) && SetOk(r) && Without(r, p) == Without(s, p) && p != other
    requires IndexOf(r, p).Some? && IndexOf(r, other).Some?
    requires r[IndexOf(r, p).value].evtime == r[IndexOf(r, other).value].evtime
    ensures NoEarlier(r, t)
  {
    var other' := r[IndexOf(r, other).value];
    WithoutMembers(s, p);
    WithoutMembers(r, p);
    assert other' in r && other' in Without(r, p) && other' in s;
    forall m | m in r && m.process == p
      ensures m.evtime >= t
    {
      var k :| 0 <= k < |r| && r[k] == m;
      FirstIndex(r, p, k);
    }
    NoEarlierWithout(s, r, p, t);
  }

  /** The process a statement takes out of the set without filing it again, or NULL. */
  function Removed(s: Sim, op: Op): Addr {
    match op
    case Passivate => Self(s)
    case Cancel(p) => p
    case FinishMain => MAIN
    case TerminateCurrent(p) => p
    case _ => 0
  }

  /** The statement takes out the only process scheduled. */
  predicate EmptiesSet(s: Sim, op: Op) {
    |s.notices| == 1 && s.notices[0].process == Removed(s, op)
  }

  lemma StaysFiled(s: Sim, t: real, p: Addr, prior: bool)
    requires SetOk(s.notices) && p != 0 && FileAt(s, t, p, prior).Ok?
    ensures FileAt(s, t, p, prior).value.notices != [] && SetOk(FileAt(s, t, p, prior).value.notices)
  {
    FiledOk(s.notices, Notice(t, p, s.nextSeq), prior);
  }

  lemma StaysBeside(s: Sim, p: Addr, other: Addr, before: bool)
    requires SetOk(s.notices) && p != 0 && p != other && Scheduled(s.notices, other)
    ensures FiledNextTo(s.notices, p, other, before, s.nextSeq) != []
    ensures SetOk(FiledNextTo(s.notices, p, other, before, s.nextSeq))
  {
    FiledNextToOk(s.notices, p, other, before, s.nextSeq);
  }

  /** The statements that file a notice leave one. */
  lemma FilesOne(s: Sim, op: Op)
    requires SetOk(s.notices) && Step(s, op).Ok?
    requires op.Hold? || op.ActivateDirect? || op.ActivateTimed? || op.ActivateRelative?
    ensures SetOk(Step(s, op).value.notices) && (s.notices != [] ==> Step(s, op).value.notices != [])
  {
    SelfIsSomeone(s);
    hide Self, SetOk;
    match op {
      case Hold(dt) => StaysFiled(s, Time(s.notices) + (if dt < 0.0 then 0.0 else dt), Self(s), false);
      case ActivateDirect(p) =>
        if p != 0 && IndexOf(s.notices, p).None? { StaysFiled(s, Time(s.notices), p, true); }
      case ActivateTimed(p, at, delay, prior, reac) =>
        if p != 0 && (reac || IndexOf(s.notices, p).None?) {
          StaysFiled(s, TimedAt(Time(s.notices), at, delay), p, prior);
        }
      case ActivateRelative(p, other, before) =>
        if Step(s, op).value.notices != s.notices { StaysBeside(s, p, other, before); }
    }
  }

  lemma WithoutEmpty(s: seq<Notice>, p: Addr)
    requires SetOk(s) && s != []
    ensures Without(s, p) == [] <==> |s| == 1 && s[0].process == p
  {
    WithoutOk(s, p);
  }

  lemma OthersLeaveSet(s: Sim, op: Op)
    requires Step(s, op).Ok? && (op.TransferToHead? || op.TerminateCurrent? || op.Generate?)
    ensures Step(s, op).value.notices
            == if op.TerminateCurrent? then Without(s.notices, op.process) else s.notices
  {
    hide Without, Find, Chapter7.DoDetach, Chapter7.DoResume, Chapter7.DoLeave, Chapter7.DoTerminateResuming;
    hide Chapter7.DoStart, Chapter7.DoCreate;
  }

  /** A set stays in order; with something in it, it runs empty exactly when the
      statement takes out the only process scheduled. */
  lemma EmptiesIff(s: Sim, op: Op)
    requires SetOk(s.notices) && Step(s, op).Ok?
    ensures SetOk(Step(s, op).value.notices)
    ensures s.notices != [] ==> (Step(s, op).value.notices == [] <==> EmptiesSet(s, op))
  {
    HeadIsSomeone(s.notices);
    WithoutOk(s.notices, Removed(s, op));
    if s.notices != [] { WithoutEmpty(s.notices, Removed(s, op)); }
    if op.Hold? || op.ActivateDirect? || op.ActivateTimed? || op.ActivateRelative? {
      FilesOne(s, op);
    } else if op.TransferToHead? || op.TerminateCurrent? || op.Generate? {
      OthersLeaveSet(s, op);
      hide Step;
    }
    hide Self, SetOk;
  }

  /** Simulated time moves backwards in exactly one way: a statement takes out the only
      process scheduled, at a time other than 0, after which the clock reads 0. */
  lemma ClockStep(s: Sim, op: Op)
    requires SetOk(s.notices) && NoEarlier(s.notices, 0.0) && Step(s, op).Ok?
    ensures SetOk(Step(s, op).value.notices) && NoEarlier(Step(s, op).value.notices, 0.0)
    ensures Time(Step(s, op).value.notices) >= Time(s.notices)
            <==> !EmptiesSet(s, op) || Time(s.notices) == 0.0
    ensures EmptiesSet(s, op) ==> Time(Step(s, op).value.notices) == 0.0
  {
    var s' := Step(s, op).value;
    EmptiesIff(s, op);
    HeadIsNow(s.notices);
    assert s.notices != [] ==> s.notices[0] in s.notices;
    StepNoEarlier(s, op, 0.0);
    StepNoEarlier(s, op, Time(s.notices));
    hide Step, Removed, SetOk;
    assert s'.notices != [] ==> s'.notices[0] in s'.notices;
  }

  /** No statement of the run empties the set at a time other than 0. */
  ghost predicate NeverEmptied(s: Sim, ops: seq<Op>)
    requires Run(s, ops)
    decreases |ops|
  {
    ops != [] ==>
      && (EmptiesSet(s, ops[0]) ==> Time(s.notices) == 0.0)
      && NeverEmptied(Step(s, ops[0]).value, ops[1..])
  }

  /** The clock goes back at no statement of the run. */
  ghost predicate ClockForward(s: Sim, ops: seq<Op>)
    requires Run(s, ops)
    decreases |ops|
  {
    ops != [] ==>
      && Time(s.notices) <= Time(Step(s, ops[0]).value.notices)
      && ClockForward(Step(s, ops[0]).value, ops[1..])
  }

  /** Over any run whatever, simulated time never goes backwards if and only if no statement
      empties the sequencing set at a time other than 0. */
  lemma {:induction false} ClockRun(s: Sim, ops: seq<Op>)
    requires SetOk(s.notices) && NoEarlier(s.notices, 0.0) && Run(s, ops)
    ensures ClockForward(s, ops) <==> NeverEmptied(s, ops)
    ensures NeverEmptied(s, ops) ==> Time(Final(s, ops).notices) >= Time(s.notices)
    decreases |ops|
  {
    hide SetOk, NoEarlier, Step, Time, EmptiesSet;
    if ops != [] {
      ClockStep(s, ops[0]);
      ClockRun(Step(s, ops[0]).value, ops[1..]);
    }
  }

  /** MAIN alone holds 5, passivates and holds 1: the clock reads 5 and then 1. */
  lemma ClockCanRestart()
    ensures var s := Begin(Chapter7.DoEnter(Chapter7.Initial()), 1);
            var ops := [Hold(5.0), Passivate, TransferToHead, Hold(1.0)];
            && Asks(s, ops) && Throughout(s, ops) && Run(s, ops) && Run(s, [ops[0]])
            && Time(Final(s, [ops[0]]).notices) == 5.0 && Time(Final(s, ops).notices) == 1.0
  {
    hide SimInv, Begin, Step, Permitted;
    var s := FirstBlock();
    var held := AloneHolds(s, 5.0);
    var empty := AlonePassivates(held);
    var again := AloneHolds(empty, 1.0);
    FourSteps(s, Hold(5.0), held, Passivate, empty, TransferToHead, empty, Hold(1.0), again);
  }

  /** MAIN runs, and is alone in the set if it is in it. */
  ghost predicate Alone(s: Sim) {
    SimInv(s) && s.running == MAIN && (s.notices == [] || (|s.notices| == 1 && s.notices[0].process == MAIN))
  }

  /** The outermost program enters a SIMULATION block. */
  lemma FirstBlock() returns (s: Sim)
    ensures s == Begin(Chapter7.DoEnter(Chapter7.Initial()), 1) && Alone(s) && Time(s.notices) == 0.0
  {
    hide Chapter7.Inv;
    s := Begin(Chapter7.DoEnter(Chapter7.Initial()), 1);
    Chapter7.InitialInv();
    Chapter7.StepInv(Chapter7.Initial(), Chapter7.Enter);
    BeginIff(Chapter7.DoEnter(Chapter7.Initial()), 1);
  }

  lemma AloneHolds(s: Sim, dt: real) returns (s': Sim)
    requires Alone(s) && dt > 0.0
    ensures Permitted(s, Hold(dt)) && Step(s, Hold(dt)) == Ok(s') && Alone(s')
    ensures s'.notices != [] && Time(s'.notices) == Time(s.notices) + dt
  {
    SelfIsRunning(s);
    StepIff(s, Hold(dt));
    hide SimInv;
    var n := Notice(Time(s.notices) + dt, MAIN, s.nextSeq);
    WithoutAlone(s.notices);
    assert Filed(s.notices, n, false) == [n];
    s' := Step(s, Hold(dt)).value;
  }

  lemma WithoutAlone(s: seq<Notice>)
    requires s == [] || (|s| == 1 && s[0].process == MAIN)
    ensures Without(s, MAIN) == []
  {
    if s != [] {
      assert Without(s[1..], MAIN) == [];
    }
  }

  lemma AlonePassivates(s: Sim) returns (s': Sim)
    requires Alone(s)
    ensures Permitted(s, Passivate) && Step(s, Passivate) == Ok(s') && Alone(s') && s'.notices == []
    ensures Permitted(s', TransferToHead) && Step(s', TransferToHead) == Ok(s')
  {
    SelfIsRunning(s);
    WithoutAlone(s.notices);
    CancelKeepsInv(s, MAIN);
    hide SimInv, Self, Without;
    s' := Step(s, Passivate).value;
    hide Step;
    NobodysTurn(s');
  }

  /** With nobody scheduled a transfer from MAIN changes nothing. */
  lemma NobodysTurn(s: Sim)
    requires s.notices == [] && s.running == MAIN
    ensures Step(s, TransferToHead) == Ok(s)
  {
  }

  lemma {:induction false} OneStepMore(s: Sim, op: Op, s': Sim, ops: seq<Op>)
    requires SimInv(s) && Permitted(s, op) && Step(s, op) == Ok(s')
    requires Asks(s', ops) && Throughout(s', ops) && Run(s', ops)
    ensures Asks(s, [op] + ops) && Throughout(s, [op] + ops) && Run(s, [op] + ops)
    ensures Final(s, [op] + ops) == Final(s', ops)
  {
    hide Step, Permitted, SimInv;
    assert ([op] + ops)[1..] == ops;
  }

  lemma FourSteps(s: Sim, a: Op, s1: Sim, b: Op, s2: Sim, c: Op, s3: Sim, d: Op, s4: Sim)
    requires SimInv(s) && SimInv(s1) && SimInv(s2) && SimInv(s3) && SimInv(s4)
    requires Permitted(s, a) && Step(s, a) == Ok(s1) && Permitted(s1, b) && Step(s1, b) == Ok(s2)
    requires Permitted(s2, c) && Step(s2, c) == Ok(s3) && Permitted(s3, d) && Step(s3, d) == Ok(s4)
    ensures var ops := [a, b, c, d]; Asks(s, ops) && Throughout(s, ops) && Run(s, ops) && Final(s, ops) == s4
    ensures Run(s, [a]) && Final(s, [a]) == s1
  {
    hide Step, Permitted, SimInv;
    OneStepMore(s3, d, s4, []);
    OneStepMore(s2, c, s3, [d]);
    OneStepMore(s1, b, s2, [c, d]);
    OneStepMore(s, a, s1, [b, c, d]);
    OneStepMore(s, a, s1, []);
    assert [d] == [d] + [] && [c, d] == [c] + [d] && [b, c, d] == [b] + [c, d];
    assert [a, b, c, d] == [a] + [b, c, d] && [a] == [a] + [];
  }
}
