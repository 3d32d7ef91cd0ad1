/** The sequencing set of chapter 12: event notices in time order, and what each
    scheduling statement of sim.c makes of it. Event times are reals. */
module SequencingSet {
  import opened Prelude

  /** The stand-in process for the SIMULATION block itself. */
  const MAIN: Addr := 1
  const MAX_LEN: nat := 65536

  datatype Notice = Notice(evtime: real, process: Addr, seqno: int)

  /** Notices never come before one with an earlier event time. */
  ghost predicate InOrder(s: seq<Notice>) {
    forall i, j :: 0 <= i < j < |s| ==> s[i].evtime <= s[j].evtime
  }

  ghost predicate OncePerProcess(s: seq<Notice>) {
    forall i, j :: 0 <= i < j < |s| ==> s[i].process != s[j].process
  }

  ghost predicate Scheduled(s: seq<Notice>, p: Addr) {
    exists i :: 0 <= i < |s| && s[i].process == p
  }

  /** Simulated time: the event time of the head, and 0 when the set is empty. */
  function Time(s: seq<Notice>): real {
    if s == [] then 0.0 else s[0].evtime
  }

  function Head(s: seq<Notice>): Addr {
    if s == [] then 0 else s[0].process
  }

  /** The set without process `p`. */
  function Without(s: seq<Notice>, p: Addr): seq<Notice> {
    if s == [] then []
    else if s[0].process == p then Without(s[1..], p)
    else [s[0]] + Without(s[1..], p)
  }

  lemma {:induction false} WithoutNext(s: seq<Notice>, i: nat, p: Addr)
    requires i < |s|
    ensures Without(s[..i + 1], p) == Without(s[..i], p) + if s[i].process == p then [] else [s[i]]
  {
    if i == 0 {
      assert s[..1] == [s[0]];
    } else {
      assert s[..i + 1][1..] == s[1..][..i] && s[..i][1..] == s[1..][..i - 1];
      WithoutNext(s[1..], i - 1, p);
    }
  }

  lemma {:induction false} WithoutAppend(s: seq<Notice>, t: seq<Notice>, p: Addr)
    ensures Without(s + t, p) == Without(s, p) + Without(t, p)
  {
    if s == [] {
      assert s + t == t;
    } else {
      assert (s + t)[1..] == s[1..] + t;
      WithoutAppend(s[1..], t, p);
    }
  }

  /** What is left is what was there, minus `p`. */
  lemma {:induction false} WithoutMembers(s: seq<Notice>, p: Addr)
    ensures |Without(s, p)| <= |s|
    ensures forall n :: n in Without(s, p) <==> n in s && n.process != p
  {
    if s != [] {
      WithoutMembers(s[1..], p);
      assert s == [s[0]] + s[1..];
    }
  }

  lemma {:induction false} WithoutAbsent(s: seq<Notice>, p: Addr)
    requires forall i :: 0 <= i < |s| ==> s[i].process != p
    ensures Without(s, p) == s
  {
    if s != [] {
      WithoutAbsent(s[1..], p);
    }
  }

  ghost predicate SetOk(s: seq<Notice>) {
    InOrder(s) && OncePerProcess(s) && forall n :: n in s ==> n.process != 0
  }

  lemma ScheduledTail(s: seq<Notice>, p: Addr)
    requires s != []
    ensures Scheduled(s, p) <==> s[0].process == p || Scheduled(s[1..], p)
  {
    if Scheduled(s[1..], p) {
      var i :| 0 <= i < |s[1..]| && s[1..][i].process == p;
      assert s[i + 1].process == p;
    }
    if Scheduled(s, p) && s[0].process != p {
      var i :| 0 <= i < |s| && s[i].process == p;
      assert s[1..][i - 1].process == p;
    }
  }

  lemma SetOkTail(s: seq<Notice>)
    requires SetOk(s) && s != []
    ensures SetOk(s[1..]) && !Scheduled(s[1..], s[0].process)
    ensures forall n :: n in s[1..] ==> n in s && s[0].evtime <= n.evtime
  {
    assert s == [s[0]] + s[1..];
  }

  lemma SetOkCons(n: Notice, s: seq<Notice>)
    requires SetOk(s) && n.process != 0 && forall m :: m in s ==> n.evtime <= m.evtime && m.process != n.process
    ensures SetOk([n] + s)
  {
    var r := [n] + s;
    assert forall i :: 1 <= i < |r| ==> r[i] == s[i - 1] && s[i - 1] in s;
  }

  lemma {:induction false} WithoutOk(s: seq<Notice>, p: Addr)
    requires SetOk(s)
    ensures SetOk(Without(s, p))
    ensures |Without(s, p)| == |s| - if Scheduled(s, p) then 1 else 0
  {
    if s != [] {
      hide SetOk, Scheduled;
      ScheduledTail(s, p);
      SetOkTail(s);
      WithoutOk(s[1..], p);
      WithoutMembers(s[1..], p);
      if s[0].process != p {
        assert s[0] in s && s[0].process != 0 by { SetOkHead(s); }
        assert forall m :: m in Without(s[1..], p) ==> m.process != s[0].process by {
          UnscheduledMembers(s[1..], s[0].process);
        }
        SetOkCons(s[0], Without(s[1..], p));
      }
    }
  }

  lemma SetOkHead(s: seq<Notice>)
    requires SetOk(s) && s != []
    ensures s[0].process != 0
  {
    assert s[0] in s;
  }

  lemma UnscheduledMembers(s: seq<Notice>, p: Addr)
    ensures !Scheduled(s, p) <==> forall n :: n in s ==> n.process != p
  {
    if !Scheduled(s, p) {
      forall n | n in s
        ensures n.process != p
      {
        var i :| 0 <= i < |s| && s[i] == n;
      }
    }
    assert forall i :: 0 <= i < |s| ==> s[i] in s;
  }

  // ------------------------------------------------------------- insertion

  function Inserted(s: seq<Notice>, at: nat, n: Notice): seq<Notice>
    requires at <= |s|
  {
    s[..at] + [n] + s[at..]
  }

  /** The first position a notice for time `t` may take: in front of its ties when it
      has priority, behind them otherwise. */
  function PlaceFor(s: seq<Notice>, t: real, prior: bool): (i: nat)
    ensures i <= |s|
    ensures forall k :: 0 <= k < i ==> s[k].evtime < t || (s[k].evtime == t && !prior)
    ensures i < |s| ==> s[i].evtime > t || (s[i].evtime == t && prior)
  {
    if s == [] || s[0].evtime > t || (prior && s[0].evtime == t) then 0
    else 1 + PlaceFor(s[1..], t, prior)
  }

  /** Filing a notice replaces any its process already has. */
  function Filed(s: seq<Notice>, n: Notice, prior: bool): seq<Notice> {
    var rest := Without(s, n.process);
    Inserted(rest, PlaceFor(rest, n.evtime, prior), n)
  }

  function IndexOf(s: seq<Notice>, p: Addr): (r: Option<nat>)
    ensures r.Some? ==> r.value < |s| && s[r.value].process == p
    ensures r.Some? <==> Scheduled(s, p)
    ensures r.Some? ==> forall k :: 0 <= k < r.value ==> s[k].process != p
  {
    if s == [] then None
    else if s[0].process == p then Some(0)
    else
      assert forall i :: 1 <= i < |s| ==> s[i] == s[1..][i - 1];
      match IndexOf(s[1..], p)
      case None => None
      case Some(i) => assert s[i + 1].process == p; Some(i + 1)
  }

  /** The end of the run of notices for time `t` that starts at `at`. */
  function PastTies(s: seq<Notice>, at: nat, t: real): (i: nat)
    requires at <= |s|
    ensures at <= i <= |s|
    ensures forall k :: at <= k < i ==> s[k].evtime == t
    ensures i < |s| ==> s[i].evtime != t
    decreases |s| - at
  {
    if at < |s| && s[at].evtime == t then PastTies(s, at + 1, t) else at
  }

  /** Filing `p` next to `other`, at the other's event time; MAIN filed after a
      process goes behind all of that time's notices. */
  function FiledNextTo(s: seq<Notice>, p: Addr, other: Addr, before: bool, seqno: int): seq<Notice> {
    var rest := Without(s, p);
    match IndexOf(rest, other)
    case None => s
    case Some(y) =>
      Inserted(rest, NextTo(rest, y, before, p == MAIN), Notice(rest[y].evtime, p, seqno))
  }

  lemma InsertedAt(s: seq<Notice>, at: nat, n: Notice)
    requires at <= |s|
    ensures |Inserted(s, at, n)| == |s| + 1
    ensures forall i :: 0 <= i < |s| + 1 ==>
              Inserted(s, at, n)[i] == if i < at then s[i] else if i == at then n else s[i - 1]
  {
  }

  lemma WithoutIts(n: Notice)
    ensures Without([n], n.process) == []
  {
  }

  lemma InsertedWithout(s: seq<Notice>, at: nat, n: Notice)
    requires at <= |s| && !Scheduled(s, n.process)
    ensures Without(Inserted(s, at, n), n.process) == s
  {
    hide Without;
    var front, back := s[..at], s[at..];
    assert front + back == s;
    assert forall i :: 0 <= i < |s| ==> s[i].process != n.process;
    hide Scheduled;
    WithoutAppend(front + [n], back, n.process);
    WithoutAppend(front, [n], n.process);
    WithoutAbsent(front, n.process);
    WithoutAbsent(back, n.process);
    WithoutIts(n);
  }

  /** Inserting between notices no later and notices no earlier keeps the set in
      order, adds one process, and moves nothing else. */
  lemma InsertedOk(s: seq<Notice>, at: nat, n: Notice)
    requires SetOk(s) && at <= |s| && n.process != 0 && !Scheduled(s, n.process)
    requires forall k :: 0 <= k < at ==> s[k].evtime <= n.evtime
    requires forall k :: at <= k < |s| ==> n.evtime <= s[k].evtime
    ensures SetOk(Inserted(s, at, n))
    ensures Without(Inserted(s, at, n), n.process) == s
  {
    var r := Inserted(s, at, n);
    InsertedWithout(s, at, n);
    InsertedAt(s, at, n);
    hide Inserted, Without;
    assert InOrder(r);
    assert OncePerProcess(r);
    assert forall i :: 0 <= i < |s| ==> s[i] in s;
    assert forall i :: 0 <= i < |r| ==> r[i].process != 0;
  }

  lemma WithoutUnscheduled(s: seq<Notice>, p: Addr)
    ensures !Scheduled(Without(s, p), p)
  {
    WithoutMembers(s, p);
    assert forall i :: 0 <= i < |Without(s, p)| ==> Without(s, p)[i] in Without(s, p);
  }

  /** Filing a notice keeps the set in order with one notice a process, leaves every
      other notice where it was relative to the rest, and puts the new one among
      its ties exactly where priority says. */
  lemma FiledOk(s: seq<Notice>, n: Notice, prior: bool)
    requires SetOk(s) && n.process != 0
    ensures SetOk(Filed(s, n, prior))
    ensures Without(Filed(s, n, prior), n.process) == Without(s, n.process)
    ensures IndexOf(Filed(s, n, prior), n.process).Some?
    ensures var r, i := Filed(s, n, prior), IndexOf(Filed(s, n, prior), n.process).value;
            && r[i] == n
            && (forall k :: 0 <= k < i ==> r[k].evtime < n.evtime || (r[k].evtime == n.evtime && !prior))
            && (forall k :: i < k < |r| ==> r[k].evtime > n.evtime || (r[k].evtime == n.evtime && prior))
  {
    hide Without, Scheduled, IndexOf;
    var rest := Without(s, n.process);
    var at := PlaceFor(rest, n.evtime, prior);
    WithoutOk(s, n.process);
    WithoutUnscheduled(s, n.process);
    OrderedAround(rest, at, n, prior);
    InsertedOk(rest, at, n);
    var r := Filed(s, n, prior);
    assert r == Inserted(rest, at, n);
    hide Inserted, Filed, SetOk, PlaceFor;
    InsertedAt(rest, at, n);
    FirstIndex(r, n.process, at);
  }

  /** In an ordered set the place found has only earlier notices in front and later ones
      behind. */
  lemma OrderedAround(s: seq<Notice>, at: nat, n: Notice, prior: bool)
    requires InOrder(s) && at == PlaceFor(s, n.evtime, prior)
    ensures at <= |s|
    ensures forall k :: 0 <= k < at ==> s[k].evtime < n.evtime || (s[k].evtime == n.evtime && !prior)
    ensures forall k :: at <= k < |s| ==> s[k].evtime > n.evtime || (s[k].evtime == n.evtime && prior)
  {
  }

  /** Filing next to a scheduled process puts the notice immediately before or after
      it, at its time, MAIN behind the ties instead; the rest stays as it was. */
  lemma FiledNextToOk(s: seq<Notice>, p: Addr, other: Addr, before: bool, seqno: int)
    requires SetOk(s) && p != 0 && p != other && Scheduled(s, other)
    ensures var r := FiledNextTo(s, p, other, before, seqno);
            && SetOk(r) && Without(r, p) == Without(s, p)
            && IndexOf(r, p).Some? && IndexOf(r, other).Some?
            && var i, y := IndexOf(r, p).value, IndexOf(r, other).value;
            && r[i].evtime == r[y].evtime
            && (before ==> i + 1 == y)
            && (!before && p != MAIN ==> i == y + 1)
            && (!before && p == MAIN ==>
                  y < i && (forall k :: y <= k < i ==> r[k].evtime == r[y].evtime)
                  && (i + 1 < |r| ==> r[i + 1].evtime > r[y].evtime))
  {
    var rest := Without(s, p);
    WithoutOk(s, p);
    WithoutUnscheduled(s, p);
    StillScheduled(s, p, other);
    var y := IndexOf(rest, other).value;
    hide Without, Scheduled;
    NextToPlace(rest, y, before, p == MAIN);
    var at := NextTo(rest, y, before, p == MAIN);
    var n := Notice(rest[y].evtime, p, seqno);
    var r := FiledNextTo(s, p, other, before, seqno);
    assert r == Inserted(rest, at, n);
    hide Inserted, NextTo, FiledNextTo, InOrder, OncePerProcess;
    InsertedOk(rest, at, n);
    InsertedAt(rest, at, n);
    hide SetOk;
    FirstIndex(r, p, at);
    FirstIndex(r, other, if before then y + 1 else y);
  }

  lemma FiledNextToLength(s: seq<Notice>, p: Addr, other: Addr, before: bool, seqno: int)
    requires SetOk(s) && p != 0 && p != other && Scheduled(s, other)
    ensures var r := FiledNextTo(s, p, other, before, seqno);
            SetOk(r) && Without(r, p) == Without(s, p) && |r| == |Without(s, p)| + 1
  {
    hide SetOk, Without, FiledNextTo;
    FiledNextToOk(s, p, other, before, seqno);
    WithoutOk(FiledNextTo(s, p, other, before, seqno), p);
  }

  /** Where a notice goes next to the one at `y`. */
  function NextTo(s: seq<Notice>, y: nat, before: bool, main: bool): nat
    requires y < |s|
  {
    if before then y else if main then PastTies(s, y + 1, s[y].evtime) else y + 1
  }

  lemma NextToPlace(s: seq<Notice>, y: nat, before: bool, main: bool)
    requires InOrder(s) && y < |s|
    ensures var at := NextTo(s, y, before, main);
            && at <= |s| && (before ==> at == y) && (!before && !main ==> at == y + 1)
            && (!before && main ==> at > y && (forall k :: y <= k < at ==> s[k].evtime == s[y].evtime)
                                    && (at < |s| ==> s[at].evtime > s[y].evtime))
            && (forall k :: 0 <= k < at ==> s[k].evtime <= s[y].evtime)
            && (forall k :: at <= k < |s| ==> s[y].evtime <= s[k].evtime)
  {
  }

  lemma StillScheduled(s: seq<Notice>, p: Addr, other: Addr)
    requires p != other && Scheduled(s, other)
    ensures Scheduled(Without(s, p), other)
  {
    WithoutMembers(s, p);
    UnscheduledMembers(s, other);
    UnscheduledMembers(Without(s, p), other);
  }

  lemma FirstIndex(s: seq<Notice>, p: Addr, i: nat)
    requires SetOk(s) && i < |s| && s[i].process == p
    ensures IndexOf(s, p) == Some(i)
  {
  }
}
