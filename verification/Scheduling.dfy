/** What chapter 12 of the Simula Standard says of each scheduling statement, in terms
    of places and times in the sequencing set. */
module Scheduling {
  import opened Prelude
  import Chapter7
  import opened SequencingSet
  import opened SimulationRuns

  /** The notice of `p` in `r` has time `t`; it comes before all of that time iff `prior`
      and behind them otherwise, and apart from `p` the set is what `s` was. */
  ghost predicate FiledFor(s: seq<Notice>, r: seq<Notice>, p: Addr, t: real, prior: bool) {
    && Without(r, p) == Without(s, p)
    && exists i :: && 0 <= i < |r| && r[i].process == p && r[i].evtime == t
                   && (forall k :: 0 <= k < i ==> r[k].evtime < t || (r[k].evtime == t && !prior))
                   && (forall k :: i < k < |r| ==> r[k].evtime > t || (r[k].evtime == t && prior))
  }

  lemma FileAtFiles(s: Sim, t: real, p: Addr, prior: bool)
    requires SetOk(s.notices) && p != 0 && FileAt(s, t, p, prior).Ok?
    ensures FiledFor(s.notices, FileAt(s, t, p, prior).value.notices, p, t, prior)
  {
    FiledOk(s.notices, Notice(t, p, s.nextSeq), prior);
  }

  /** HOLD(dt): the caller becomes due dt from now, at once for a negative dt, behind
      whatever else is due then. */
  lemma HoldPlaces(s: Sim, dt: real)
    requires SimInv(s) && DoHold(s, dt).Ok?
    ensures var due := if dt > 0.0 then Time(s.notices) + dt else Time(s.notices);
            FiledFor(s.notices, DoHold(s, dt).value.notices, s.running, due, false)
    ensures DoHold(s, dt).value.ch7 == s.ch7 && DoHold(s, dt).value.running == s.running
  {
    hide Chapter7.Inv, FiledFor;
    SelfIsRunning(s);
    RunningReady(s);
    FileAtFiles(s, Time(s.notices) + (if dt < 0.0 then 0.0 else dt), s.running, false);
  }

  lemma FirstPlace(s: seq<Notice>)
    ensures PlaceFor(s, Time(s), true) == 0
  {
  }

  /** ACTIVATE X, and any other prior activation for now: X, idle until then, goes in
      front of the whole set, so that it is active after the transfer. */
  lemma DirectGoesFirst(s: Sim, p: Addr)
    requires p != 0 && IndexOf(s.notices, p).None? && DoActivateDirect(s, p).Ok?
    ensures DoActivateDirect(s, p).value.notices == [Notice(Time(s.notices), p, s.nextSeq)] + s.notices
  {
    assert !Scheduled(s.notices, p);
    WithoutAbsent(s.notices, p);
    FirstPlace(s.notices);
  }

  /** After that the transfer makes X the operative component and keeps the
      correspondence, if and only if X can be put in control. */
  lemma DirectRunsNext(s: Sim, p: Addr)
    requires SimInv(s) && p != 0 && IndexOf(s.notices, p).None? && DoActivateDirect(s, p).Ok?
    ensures var o := DoTransfer(DoActivateDirect(s, p).value);
            && (o.Ok? && SimInv(o.value) <==> p == MAIN || Ready(s, p))
            && (p == MAIN || Ready(s, p) ==> o.value.running == p)
  {
    var a := DoActivateDirect(s, p).value;
    assert SimInv(a) by { StepIff(s, ActivateDirect(p)); }
    DirectGoesFirst(s, p);
    SameReady(s, a);
    TransferIff(a);
    hide SimInv, Ready, DoTransfer, SameProcesses;
  }

  /** ACTIVATE and REACTIVATE with AT or DELAY: X becomes due at the time asked for but
      never before now, before its ties iff PRIOR; a scheduled X is moved only by
      REACTIVATE. */
  lemma TimedPlaces(s: Sim, p: Addr, t: real, delay: bool, prior: bool, reac: bool)
    requires SetOk(s.notices) && DoActivateTimed(s, p, t, delay, prior, reac).Ok?
    ensures var now, r := Time(s.notices), DoActivateTimed(s, p, t, delay, prior, reac).value.notices;
            if p == 0 || (Scheduled(s.notices, p) && !reac) then r == s.notices
            else
              exists due :: && FiledFor(s.notices, r, p, due, prior) && due >= now
                            && (due == now || due == if delay then now + t else t)
                            && (due == now ==> (if delay then t else t - now) <= 0.0)
  {
    if p != 0 && (reac || !Scheduled(s.notices, p)) {
      var due := TimedAt(Time(s.notices), t, delay);
      FileAtFiles(s, due, p, prior);
    }
  }

  /** ACTIVATE of none or of a scheduled process changes nothing, nor does CANCEL of none. */
  lemma DirectLeaves(s: Sim, p: Addr)
    requires p == 0 || Scheduled(s.notices, p)
    ensures DoActivateDirect(s, p) == Ok(s)
    ensures p == 0 ==> DoCancel(s, p) == s
  {
  }

  /** `p` has the time of `other` and stands immediately in front of it or behind it,
      MAIN behind everyone due at that time. */
  ghost predicate Beside(r: seq<Notice>, p: Addr, other: Addr, before: bool) {
    exists i: nat, y: nat :: BesideAt(r, i, y, p, other, before)
  }

  ghost predicate BesideAt(r: seq<Notice>, i: nat, y: nat, p: Addr, other: Addr, before: bool) {
    && i < |r| && y < |r| && r[i].process == p && r[y].process == other && r[i].evtime == r[y].evtime
    && (before ==> i + 1 == y)
    && (!before && p != MAIN ==> i == y + 1)
    && (!before && p == MAIN ==> y < i && (i + 1 < |r| ==> r[i + 1].evtime > r[i].evtime))
  }

  lemma FiledBeside(s: seq<Notice>, p: Addr, other: Addr, before: bool, seqno: int)
    requires SetOk(s) && p != 0 && p != other && Scheduled(s, other)
    ensures Beside(FiledNextTo(s, p, other, before, seqno), p, other, before)
    ensures Without(FiledNextTo(s, p, other, before, seqno), p) == Without(s, p)
  {
    hide FiledNextTo, SetOk, Scheduled, Without;
    FiledNextToOk(s, p, other, before, seqno);
    var r := FiledNextTo(s, p, other, before, seqno);
    assert BesideAt(r, IndexOf(r, p).value, IndexOf(r, other).value, p, other, before);
  }

  /** ACTIVATE X BEFORE Y and AFTER Y: X goes beside Y and nobody else moves. Without an
      X, without a Y in the set, or with the same for both it changes nothing. */
  lemma RelativePlaces(s: Sim, p: Addr, other: Addr, before: bool)
    requires SetOk(s.notices) && DoActivateRelative(s, p, other, before).Ok?
    ensures var r := DoActivateRelative(s, p, other, before).value;
            if p == 0 || other == 0 || p == other || !Scheduled(s.notices, other) then r == s
            else Beside(r.notices, p, other, before) && Without(r.notices, p) == Without(s.notices, p)
  {
    if p != 0 && other != 0 && p != other && Scheduled(s.notices, other) {
      FiledBeside(s.notices, p, other, before, s.nextSeq);
      hide FiledNextTo, Beside, SetOk;
    }
  }

  /** A call that files a notice fails exactly when the set is full without the process it
      is filed for; there is room for 65536. */
  lemma FailsWhenFull(s: Sim, op: Op, p: Addr)
    requires match op
             case Hold(_) => p == Self(s)
             case ActivateDirect(q) => p == q && p != 0 && !Scheduled(s.notices, p)
             case ActivateTimed(q, _, _, _, reac) => p == q && p != 0 && (reac || !Scheduled(s.notices, p))
             case ActivateRelative(q, other, _) =>
               p == q && p != 0 && other != 0 && p != other && Scheduled(s.notices, other)
             case _ => false
    ensures SimulationRuns.Step(s, op).Err? <==> |Without(s.notices, p)| >= 65536
    ensures SimulationRuns.Step(s, op).Err? ==> SimulationRuns.Step(s, op) == Err(LimitExceeded)
  {
    hide Without, Filed, FiledNextTo, Scheduled, Self;
  }

  /** PASSIVATE, CANCEL and the end of MAIN: the process is idle and the others stand as
      they stood. */
  lemma CancelLeaves(s: Sim, p: Addr)
    requires SetOk(s.notices) && p != 0
    ensures !Scheduled(DoCancel(s, p).notices, p) && SetOk(DoCancel(s, p).notices)
    ensures |DoCancel(s, p).notices| == |s.notices| - if Scheduled(s.notices, p) then 1 else 0
    ensures forall n :: n in DoCancel(s, p).notices <==> n in s.notices && n.process != p
  {
    WithoutOk(s.notices, p);
    WithoutMembers(s.notices, p);
    WithoutUnscheduled(s.notices, p);
  }
}
