/** The scheduling calls of sim.c over their two data structures: the array of event
    notices and the sequencing records. */
module Simulation {
  import opened Prelude
  import Chapter7
  import opened SequencingSet
  import opened EventSet
  import Sequencer
  import opened SimulationRuns

  datatype Failure = NotActive | Nested | OfSet(error: SimError) | OfSequencing(failure: Sequencer.Failure)

  class Simulation {
    const sequencing: Sequencer.Sequencing
    const events: Events
    var active: bool
    var current: Addr
    var running: Addr
    /** The system the SIMULATION block heads and the coroutine that entered it. */
    ghost var sys: nat
    ghost var main: Coro

    /** CURRENT is the process at the head of the set. */
    ghost predicate Valid()
      reads this, events, events.sqs, sequencing, sequencing.all, sequencing.systems
    {
      && events.Valid() && sequencing.Linked()
      && (active ==> current == Head(events.Notices()))
    }

    ghost function View(): Sim
      reads this, events, events.sqs, sequencing, sequencing.all, sequencing.systems
      requires Valid()
    {
      Sim(events.Notices(), events.nextSeq, running, sequencing.View(), sys, main)
    }

    constructor (sequencing: Sequencer.Sequencing)
      requires sequencing.Linked()
      ensures Valid() && fresh(events) && fresh(events.sqs) && this.sequencing == sequencing
      ensures !active && events.Notices() == [] && events.nextSeq == 1
    {
      this.sequencing := sequencing;
      active, current, running, sys, main := false, 0, 0, 0, 0;
      events := new Events();
    }

    /** What every scheduling call may change: the set, and who runs. */
    ghost predicate SetMoved(outcome: Outcome, failure: Option<Failure>)
      reads this, events, events.sqs, sequencing, sequencing.all, sequencing.systems
    {
      && (failure == None ==> outcome.Ok? && Valid() && View() == outcome.value)
      && (failure == Some(OfSet(SimError.LimitExceeded)) <==> outcome.Err?)
      && (failure.Some? ==> failure.value.OfSet?)
    }

    /** The SIMULATION block begins: MAIN is active and alone in the set, whatever an
        earlier simulation left. One block inside another is an error. */
    method Start(ghost system: nat) returns (failure: Option<Failure>)
      requires Valid()
      modifies this, events, events.sqs
      ensures events.sqs == old(events.sqs) || fresh(events.sqs)
      ensures old(active) ==> failure == Some(Nested) && unchanged(this) && unchanged(events)
      ensures !old(active) ==> failure == None || failure == Some(OfSet(SimError.OutOfMemory))
      ensures failure == None ==> Valid() && active && View() == Begin(sequencing.View(), system)
      ensures failure == None ==>
                && running == current == MAIN && |events.Notices()| == 1
                && events.Notices()[0].evtime == 0.0 && events.Notices()[0].process == MAIN
    {
      hide Sequencer.Sequencing.Linked, SetOk;
      if active { return Some(Nested); }
      events.Reset();
      active, current, running := true, MAIN, MAIN;
      sys, main := system, sequencing.current;
      assert events.Notices() == [] && Without([], MAIN) == [];
      assert Filed([], Notice(0.0, MAIN, 1), true) == [Notice(0.0, MAIN, 1)];
      var error := events.InsertEvent(0.0, MAIN, true);
      assert error != None ==> error.value.OutOfMemory?;
      failure := if error == None then None else Some(OfSet(error.value));
    }

    /** The SIMULATION block ends. */
    method Finish()
      requires Valid()
      modifies this, events
      ensures Valid() && !active && current == 0 && running == 0 && events.Notices() == []
      ensures fresh(events.sqs) && sequencing.View() == old(sequencing.View())
    {
      events.Reset();
      active, current, running := false, 0, 0;
    }

    /** 0 when the set is empty. */
    method Now() returns (t: real)
      requires Valid()
      ensures t == Time(events.Notices())
    {
      t := if events.len == 0 then 0.0 else events.sqs[0].evtime;
    }

    method AdvanceCurrent()
      requires events.Valid() && sequencing.Linked()
      modifies this`current
      ensures Valid() && current == Head(events.Notices())
    {
      current := if events.len == 0 then 0 else events.sqs[0].process;
    }

    /** The process a scheduling statement speaks for. */
    method WhoAsks() returns (p: Addr)
      requires Valid()
      ensures p == Self(View()) != 0
    {
      p := sequencing.CurrentObject();
      if p == 0 { p := if running == 0 then MAIN else running; }
    }

    method File(t: real, p: Addr, prior: bool) returns (failure: Option<Failure>)
      requires Valid() && p != 0
      modifies this`current, events, events.sqs
      ensures events.sqs == old(events.sqs) || fresh(events.sqs)
      ensures SetMoved(FileAt(old(View()), t, p, prior), failure)
    {
      hide SetOk, Without, Filed, FiledNextTo, Sequencer.Sequencing.Linked, Sequencer.Sequencing.View;
      var error := events.InsertEvent(t, p, prior);
      if error != None { return Some(OfSet(error.value)); }
      AdvanceCurrent();
      failure := None;
    }

    method Hold(dt: real) returns (failure: Option<Failure>)
      requires Valid()
      modifies this`current, events, events.sqs
      ensures events.sqs == old(events.sqs) || fresh(events.sqs)
      ensures !active ==> failure == Some(NotActive) && unchanged(this) && unchanged(events)
      ensures active ==> SetMoved(DoHold(old(View()), dt), failure)
    {
      hide SetOk, Without, Filed, FiledNextTo, Sequencer.Sequencing.Linked, Sequencer.Sequencing.View;
      if !active { return Some(NotActive); }
      var self := WhoAsks();
      var now := Now();
      failure := File(now + if dt < 0.0 then 0.0 else dt, self, false);
    }

    method ActivateDirect(p: Addr) returns (failure: Option<Failure>)
      requires Valid()
      modifies this`current, events, events.sqs
      ensures events.sqs == old(events.sqs) || fresh(events.sqs)
      ensures !active ==> failure == Some(NotActive) && unchanged(this) && unchanged(events)
      ensures active ==> SetMoved(DoActivateDirect(old(View()), p), failure)
    {
      hide SetOk, Without, Filed, FiledNextTo, Sequencer.Sequencing.Linked, Sequencer.Sequencing.View;
      if !active { return Some(NotActive); }
      if p == 0 { return None; }
      var scheduled := events.IsScheduled(p);
      if scheduled { return None; }
      var now := Now();
      failure := File(now, p, true);
    }

    /** `delay` asks for a time after now, otherwise `t` is the time itself. */
    method ActivateTimed(p: Addr, t: real, delay: bool, prior: bool, reac: bool) returns (failure: Option<Failure>)
      requires Valid()
      modifies this`current, events, events.sqs
      ensures events.sqs == old(events.sqs) || fresh(events.sqs)
      ensures !active ==> failure == Some(NotActive) && unchanged(this) && unchanged(events)
      ensures active ==> SetMoved(DoActivateTimed(old(View()), p, t, delay, prior, reac), failure)
    {
      hide SetOk, Without, Filed, FiledNextTo, Sequencer.Sequencing.Linked, Sequencer.Sequencing.View;
      if !active { return Some(NotActive); }
      if p == 0 { return None; }
      var scheduled := events.IsScheduled(p);
      if !reac && scheduled { return None; }
      var now := Now();
      var at := if delay then now + (if t < 0.0 then 0.0 else t) else if t < now then now else t;
      if at < now || (at <= now && prior) { at := now; }
      failure := File(at, p, prior);
    }

    method ActivateRelative(p: Addr, other: Addr, before: bool) returns (failure: Option<Failure>)
      requires Valid()
      modifies this`current, events, events.sqs
      ensures events.sqs == old(events.sqs) || fresh(events.sqs)
      ensures !active ==> failure == Some(NotActive) && unchanged(this) && unchanged(events)
      ensures active ==> SetMoved(DoActivateRelative(old(View()), p, other, before), failure)
    {
      hide SetOk, Without, Filed, FiledNextTo, Sequencer.Sequencing.Linked, Sequencer.Sequencing.View;
      if !active { return Some(NotActive); }
      if p == 0 || other == 0 || p == other { return None; }
      var scheduled := events.IsScheduled(other);
      if !scheduled { return None; }
      var error := events.InsertNextTo(p, other, before);
      if error != None { return Some(OfSet(error.value)); }
      AdvanceCurrent();
      failure := None;
    }

    method Passivate() returns (failure: Option<Failure>)
      requires Valid()
      modifies this`current, events, events.sqs
      ensures events.sqs == old(events.sqs)
      ensures !active ==> failure == Some(NotActive) && unchanged(this) && unchanged(events)
      ensures active ==> failure == None && Valid() && View() == DoCancel(old(View()), Self(old(View())))
    {
      hide SetOk, Without, Filed, FiledNextTo, Sequencer.Sequencing.Linked, Sequencer.Sequencing.View;
      if !active { return Some(NotActive); }
      var self := WhoAsks();
      events.CancelUnlocked(self);
      AdvanceCurrent();
      failure := None;
    }

    method Cancel(p: Addr) returns (failure: Option<Failure>)
      requires Valid()
      modifies this`current, events, events.sqs
      ensures events.sqs == old(events.sqs)
      ensures !active ==> failure == Some(NotActive) && unchanged(this) && unchanged(events)
      ensures active ==> failure == None && Valid() && View() == DoCancel(old(View()), p)
    {
      hide SetOk, Without, Filed, FiledNextTo, Sequencer.Sequencing.Linked, Sequencer.Sequencing.View;
      if !active { return Some(NotActive); }
      if p == 0 { return None; }
      events.CancelUnlocked(p);
      AdvanceCurrent();
      failure := None;
    }

    /** The refs of the records are those of the view. */
    lemma NamesFound(p: Addr)
      requires Valid() && p != 0
      ensures match Find(sequencing.View().comps, p)
              case Some(i) => Sequencer.Sequencing.Names(sequencing.all, p, i)
              case None => forall i :: !Sequencer.Sequencing.Names(sequencing.all, p, i)
    {
    }

    /** Whether a call on the records went as chapter 7 says; `None` when an object it
        names is no component. */
    ghost predicate Told(outcome: Option<Chapter7.Outcome>, refused: Option<Sequencer.Failure>)
      reads sequencing, sequencing.all, sequencing.systems
    {
      if outcome.Some? && outcome.value.Ok?
      then refused == None && sequencing.Linked() && sequencing.View() == outcome.value.value
      else refused.Some?
    }

    /** What `p` yielding, `p` being entered and `p` ending mean to the records. */
    static ghost function Yielding(s: Chapter7.State, p: Addr): Option<Chapter7.Outcome> {
      match Find(s.comps, p)
      case Some(i) => Some(Chapter7.DoDetach(s, i))
      case None => None
    }

    static ghost function Entering(s: Chapter7.State, p: Addr): Option<Chapter7.Outcome> {
      match Find(s.comps, p)
      case Some(i) => Some(Chapter7.DoResume(s, i))
      case None => None
    }

    static ghost function Ending(s: Chapter7.State, p: Addr, next: Addr): Option<Chapter7.Outcome> {
      match Find(s.comps, p)
      case None => None
      case Some(i) =>
        if next == 0 || next == MAIN then Some(Chapter7.DoLeave(s, i, Chapter7.Terminated))
        else
          match Find(s.comps, next)
          case None => None
          case Some(n) => Some(Chapter7.DoTerminateResuming(s, i, n))
    }

    method Yield(p: Addr) returns (refused: Option<Sequencer.Failure>)
      requires Valid() && p != 0
      modifies sequencing, sequencing.all, sequencing.systems
      ensures Told(Yielding(old(sequencing.View()), p), refused)
    {
      hide Sequencer.Sequencing.Linked, Chapter7.DoDetach;
      NamesFound(p);
      refused := sequencing.Detach(p);
    }

    method Enter(p: Addr) returns (refused: Option<Sequencer.Failure>)
      requires Valid() && p != 0
      modifies sequencing, sequencing.all, sequencing.systems
      ensures Told(Entering(old(sequencing.View()), p), refused)
    {
      hide Sequencer.Sequencing.Linked, Chapter7.DoResume;
      NamesFound(p);
      refused := sequencing.Resume(p);
    }

    /** The final end of `p`, with `next` to take over unless that is MAIN or nobody. */
    method End(p: Addr, next: Addr) returns (refused: Option<Sequencer.Failure>)
      requires Valid() && p != 0
      modifies sequencing, sequencing.all, sequencing.systems
      ensures Told(Ending(old(sequencing.View()), p, next), refused)
    {
      hide Sequencer.Sequencing.Linked, Chapter7.DoLeave, Chapter7.DoTerminateResuming;
      NamesFound(p);
      if next == 0 || next == MAIN {
        refused := sequencing.Terminate(p);
      } else {
        NamesFound(next);
        refused := sequencing.TerminateResuming(p, next);
      }
    }

    /** Whether a transfer went as the scheduling rules say. */
    ghost predicate Switched(outcome: Outcome, failure: Option<Failure>)
      reads this, events, events.sqs, sequencing, sequencing.all, sequencing.systems
    {
      match outcome
      case Ok(s) => failure == None && Valid() && View() == s
      case Err(_) => failure.Some?
    }

    /** Makes the process at the head of the set the one in control. */
    method TransferToHead() returns (failure: Option<Failure>)
      requires Valid()
      modifies this`current, this`running, sequencing, sequencing.all, sequencing.systems
      ensures !active ==> failure == Some(NotActive)
      ensures active ==> Switched(DoTransfer(old(View())), failure)
    {
      hide SetOk, Sequencer.Sequencing.Linked, Sequencer.Sequencing.View;
      hide Chapter7.DoDetach, Chapter7.DoResume;
      if !active { return Some(NotActive); }
      var head := if events.len == 0 then 0 else events.sqs[0].process;
      var was := if running == 0 then MAIN else running;
      current := head;
      if head == was { return None; }
      running := if head == 0 then MAIN else head;
      var refused: Option<Sequencer.Failure> := None;
      if head == 0 || head == MAIN {
        if was == MAIN { return None; }
        refused := Yield(was);
      } else {
        refused := Enter(head);
      }
      failure := if refused == None then None else Some(OfSequencing(refused.value));
    }

    /** The active process reaches its final end and the next one takes over. */
    method TerminateCurrent(p: Addr) returns (failure: Option<Failure>)
      requires Valid() && p != 0
      modifies this`current, this`running, events, events.sqs
      modifies sequencing, sequencing.all, sequencing.systems
      ensures !active ==> failure == Some(NotActive)
      ensures active ==> Switched(DoTerminateCurrent(old(View()), p), failure)
    {
      hide SetOk, Without, Sequencer.Sequencing.Linked, Sequencer.Sequencing.View;
      hide Chapter7.DoLeave, Chapter7.DoTerminateResuming;
      if !active { return Some(NotActive); }
      events.CancelUnlocked(p);
      var head := if events.len == 0 then 0 else events.sqs[0].process;
      current := head;
      running := if head == 0 then MAIN else head;
      var refused := End(p, head);
      failure := if refused == None then None else Some(OfSequencing(refused.value));
    }

    /** The process after `p`, or none if it is idle or last; MAIN, when idle, is taken
        to be just in front of the set. */
    method NextEv(p: Addr) returns (next: Addr)
      requires Valid()
      ensures next == NextEvOf(events.Notices(), p)
    {
      if p == 0 { return 0; }
      var i := events.Find(p);
      if i < events.len { return if i + 1 < events.len then events.sqs[i + 1].process else 0; }
      next := if p == MAIN && events.len > 0 then events.sqs[0].process else 0;
    }
  }

  /** Who comes after `p`: whoever stands one place behind it in the set, none if it is
      last; whoever is first, if it is MAIN and idle; none for anyone else. */
  lemma NextEvIs(s: seq<Notice>, p: Addr)
    requires SetOk(s)
    ensures forall i :: 0 <= i < |s| && s[i].process == p ==>
              NextEvOf(s, p) == if i + 1 < |s| then s[i + 1].process else 0
    ensures (forall i :: 0 <= i < |s| ==> s[i].process != p) ==>
              NextEvOf(s, p) == if p == MAIN && s != [] then s[0].process else 0
  {
    forall i | 0 <= i < |s| && s[i].process == p
      ensures NextEvOf(s, p) == if i + 1 < |s| then s[i + 1].process else 0
    {
      assert s[i] in s;
      FirstIndex(s, p, i);
    }
  }

  function NextEvOf(s: seq<Notice>, p: Addr): Addr {
    if p == 0 then 0
    else
      match IndexOf(s, p)
      case Some(i) => if i + 1 < |s| then s[i + 1].process else 0
      case None => if p == MAIN && s != [] then s[0].process else 0
  }
}
