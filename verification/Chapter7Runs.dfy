/** What chapter 7 promises over whole runs of the sequencing runtime. */
module Chapter7Runs {
  import opened Prelude
  import opened Chapter7

  // ------------------------------------------------------------- errors

  lemma LeavesForAnother(s: State, i: nat)
    requires Inv(s) && i < |s.comps|
    ensures DoLeave(s, i, Terminated) != Err(ControlReturned)
  {
    var slot := LeaveSource(s, i);
    if slot.Some? {
      assert Holder(s, slot.value) != Some(s.current);
    }
  }

  lemma HandsToAnother(s: State, i: nat, n: nat)
    requires Inv(s) && i < |s.comps| && n < |s.comps|
    ensures DoTerminateResuming(s, i, n) != Err(ControlReturned)
  {
    assert Holder(s, Park(n)) != Some(s.current);
  }

  /** The slot a statement switches to is never one that keeps the running
      coroutine, so the fall-through of a switch to oneself is dead. */
  lemma NeverIntoSelf(s: State, op: Op)
    requires Inv(s) && Named(s, op)
    ensures Step(s, op) != Err(ControlReturned)
  {
    match op
    case Terminate(i) => LeavesForAnother(s, i);
    case TerminateResuming(i, n) => HandsToAnother(s, i, n);
    case _ => hide Inv;
  }

  /** What the Standard calls an error, statement by statement. */
  ghost predicate Refused(s: State, op: Op) {
    match op
    case Detach(i) =>
      i < |s.comps| && s.comps[i].head.Some?
      && (s.comps[i].status in {Detached, Terminated} || Holder(s, Unentered(i)).Some?)
    case Terminate(i) =>
      i < |s.comps|
      && (s.comps[i].status in {Detached, Terminated}
          || (s.comps[i].status == Attached && s.comps[i].attachedTo.None?))
    case Call(i) => i < |s.comps| && s.comps[i].status != Detached
    case Resume(i) => i < |s.comps| && (s.comps[i].system.None? || s.comps[i].status in {Attached, Terminated})
    case TerminateResuming(_, n) => n < |s.comps| && (s.comps[n].system.None? || s.comps[n].status != Detached)
    case _ => false
  }

  lemma LeaveFailsIff(s: State, i: nat, next: Status)
    requires Records(s) && i < |s.comps| && next in {Detached, Terminated}
    requires DoLeave(s, i, next) != Err(ControlReturned)
    ensures DoLeave(s, i, next).Err?
            <==> s.comps[i].status in {Detached, Terminated}
                 || (s.comps[i].status == Attached && s.comps[i].attachedTo.None?)
  {
  }

  lemma ResumeFailsIff(s: State, i: nat)
    requires Records(s) && i < |s.comps|
    ensures DoResume(s, i).Err?
            <==> s.comps[i].system.None? || s.comps[i].status in {Attached, Terminated}
  {
    if s.comps[i].system.Some? && s.comps[i].status == Detached {
      assert Suspend(s, s.comps[i].system.value).comps[i] == s.comps[i];
    }
  }

  /** A statement fails exactly when the Standard says it must, or when an object is to
      hand over to itself: no other error path of the runtime can be taken. */
  lemma FailsIffRefused(s: State, op: Op)
    requires Inv(s) && Named(s, op)
    ensures Step(s, op).Err? <==> Refused(s, op) || (op.TerminateResuming? && op.obj == op.next)
  {
    NeverIntoSelf(s, op);
    hide Linear;
    match op
    case Create(_, _) =>
    case MarkBlock(_) =>
    case Start(i) => assert s.comps[i].head.Some?;
    case Detach(i) => LeaveFailsIff(s, i, Detached);
    case Terminate(i) => LeaveFailsIff(s, i, Terminated);
    case Call(i) =>
    case Resume(i) => ResumeFailsIff(s, i);
    case TerminateResuming(i, n) => assert s.comps[n].status == Detached ==> s.comps[n].park.Some?;
    case Enter =>
    case Exit(_) =>
  }

  /** Which error it is: the state of the object in the way, or, before that, that it has
      no system to resume in. */
  lemma ErrorIs(s: State, op: Op)
    requires Inv(s) && Named(s, op) && Step(s, op).Err?
    ensures match op
            case Detach(i) => Step(s, op).error == LeaveError(s.comps[i].status)
            case Terminate(i) => Step(s, op).error == LeaveError(s.comps[i].status)
            case Call(i) => Step(s, op).error == NotDetached(s.comps[i].status)
            case Resume(i) =>
              Step(s, op).error == if s.comps[i].system.None? then NoSystem else NotDetached(s.comps[i].status)
            case TerminateResuming(_, n) =>
              Step(s, op).error == if s.comps[n].system.None? then NoSystem
                                   else if s.comps[n].status != Detached then NotDetached(s.comps[n].status)
                                   else SwitchNowhere
            case _ => false
  {
    FailsIffRefused(s, op);
    NeverIntoSelf(s, op);
    hide Linear;
    match op
    case Resume(i) => ResumeFailsIff(s, i);
    case TerminateResuming(i, n) => assert s.comps[n].status == Detached ==> s.comps[n].park.Some?;
    case _ =>
  }

  function LeaveError(status: Status): Error {
    match status
    case Detached => AlreadyDetached
    case Terminated => AlreadyTerminated
    case _ => SwitchNowhere
  }

  /** New records stand behind the old ones, which stay as they are: an object attached
      to nobody yet, parked in front of its body on a coroutine of its own; a prefixed
      block without a coroutine; an open system with the running coroutine for its main
      component. */
  lemma NewRecords(s: State, op: Op)
    requires Named(s, op)
    ensures match op
            case Create(ref, system) =>
              && Step(s, op).value.comps == s.comps + [Comp(ref, Some(s.coros), Some(s.coros), None, system,
                                                            Attached, s.current)]
              && Step(s, op).value.systems == s.systems
            case MarkBlock(ref) =>
              && Step(s, op).value.comps == s.comps + [Comp(ref, None, None, None, None, Attached, s.current)]
              && Step(s, op).value.systems == s.systems
            case Enter =>
              && Step(s, op).value.systems == s.systems + [Sys(s.current, None, true)]
              && Step(s, op).value.comps == s.comps
            case Exit(k) =>
              && Step(s, op).value.systems == s.systems[k := s.systems[k].(open := false)]
              && Step(s, op).value.comps == s.comps
            case _ => Step(s, op).Ok? ==> |Step(s, op).value.comps| == |s.comps|
                                           && |Step(s, op).value.systems| == |s.systems|
  {
  }

  /** A detach in a prefixed block and a resume of what is resumed already do nothing. */
  lemma NothingDone(s: State, op: Op)
    requires Records(s) && Named(s, op)
    requires match op
             case Detach(i) => s.comps[i].head.None?
             case Resume(i) => s.comps[i].status == Resumed
             case _ => false
    ensures Step(s, op) == Ok(s)
  {
  }

  // ------------------------------------------------------------- the handover

  /** The coroutine component `i` keeps, whatever state it is in. */
  function Keeps(s: State, i: nat): Option<Coro> {
    if Holder(s, Park(i)).Some? then Holder(s, Park(i))
    else if Holder(s, AttachedTo(i)).Some? then Holder(s, AttachedTo(i))
    else Holder(s, Unentered(i))
  }

  /** Object `i` may reach its final end in favour of `n`: it is the operative
      component of n's system, or that system's main component is the operative
      one and the coroutine it is parked as is the very one `i` keeps. */
  ghost predicate MayHandOver(s: State, i: nat, n: nat)
    requires n < |s.comps| && s.comps[n].system.Some? && s.comps[n].system.value < |s.systems|
  {
    var sys := s.systems[s.comps[n].system.value];
    i != n && (sys.operative == Some(i) || (sys.operative.None? && Keeps(s, i) == Some(sys.mainPark)))
  }

  /** A closed system with an operative component is against the invariant. */
  lemma ClosedBreaks(s: State, i: nat, k: nat)
    requires k < |s.systems| && !s.systems[k].open && s.systems[k].operative == Some(i)
    ensures !OperativeIffResumed(s) && !Records(s) && !Inv(s)
  {
  }

  /** What a handover does to the slots when the object is not the operative one. */
  lemma HandoverSlots(s: State, i: nat, n: nat, k: nat)
    requires Records(s) && i < |s.comps| && n < |s.comps| && i != n
    requires s.comps[n].status == Detached && s.comps[n].system == Some(k) && k < |s.systems|
    requires DoTerminateResuming(s, i, n).Ok?
    ensures var s' := DoTerminateResuming(s, i, n).value;
            && Holder(s, Park(n)) == Some(s'.current)
            && s'.coros == s.coros && s'.gone == s.gone + {s.current}
            && Holder(s', Park(n)).None? && Holder(s', MainPark(k)) == Some(s.systems[k].mainPark)
            && Keeps(s', i).None?
            && forall x :: x !in {Park(n), MainPark(k), Park(i), AttachedTo(i), Unentered(i)} ==>
                 Holder(s', x) == Holder(s, x)
  {
    HandoverWrites(s, i, n);
    var s' := DoTerminateResuming(s, i, n).value;
    forall x | x !in {Park(n), MainPark(k), Park(i), AttachedTo(i), Unentered(i)}
      ensures Holder(s', x) == Holder(s, x)
    {
      HandoverElsewhere(s, i, n, x);
    }
    hide DoTerminateResuming, Records;
  }

  /** An object keeps a coroutine in one of its slots at most. */
  lemma OneKept(s: State, i: nat, own: Slot)
    requires own == if Holder(s, Park(i)).Some? then Park(i)
                    else if Holder(s, AttachedTo(i)).Some? then AttachedTo(i) else Unentered(i)
    ensures forall x :: x in {Park(i), AttachedTo(i), Unentered(i)} && x != own ==> Holder(s, x).None?
    ensures Keeps(s, i) == Holder(s, own)
  {
  }

  lemma KeepsNone(s: State, i: nat)
    requires Keeps(s, i).None?
    ensures Holder(s, Park(i)).None? && Holder(s, AttachedTo(i)).None? && Holder(s, Unentered(i)).None?
  {
  }

  lemma HandoverRecords(s: State, i: nat, n: nat, k: nat)
    requires Records(s) && i < |s.comps| && n < |s.comps| && SystemOpen(s, n)
    requires s.comps[n].status == Detached && s.comps[n].system == Some(k)
    requires i != n && s.systems[k].operative.None? && s.comps[i].status != Resumed && s.comps[i].head.Some?
    requires DoTerminateResuming(s, i, n).Ok?
    ensures Records(DoTerminateResuming(s, i, n).value)
  {
    var s1 := Left(s, i, Terminated);
    LeftKeepsRecords(s, i, Terminated);
    ActivateKeepsRecords(s1, n, k);
  }

  /** Control leaves slot `x`, the running coroutine is gone, and the coroutine of
      slot `y` moves to the empty slot `z`. */
  lemma RelocatedLinear(s: State, s': State, x: Slot, y: Slot, z: Slot)
    requires Linear(s) && x != y && x != z && y != z
    requires Holder(s, x) == Some(s'.current) && Holder(s, z).None? && Holder(s, y).Some?
    requires s'.coros == s.coros && s'.gone == s.gone + {s.current}
    requires Holder(s', x).None? && Holder(s', y).None? && Holder(s', z) == Holder(s, y)
    requires forall w :: w !in {x, y, z} ==> Holder(s', w) == Holder(s, w)
    ensures Linear(s')
  {
    hide Holder;
    forall c | 0 <= c < s'.coros && c != s'.current && c !in s'.gone
      ensures exists w :: Holder(s', w) == Some(c)
    {
      var w :| Holder(s, w) == Some(c);
      assert Holder(s', if w == y then z else w) == Some(c);
    }
  }

  /** An object that keeps the coroutine MAIN was parked as can hand over. */
  lemma HandsOver(s: State, i: nat, n: nat)
    requires Inv(s) && i < |s.comps| && n < |s.comps| && s.comps[n].status == Detached && SystemOpen(s, n)
    requires s.comps[n].system.Some? && MayHandOver(s, i, n)
    requires s.systems[s.comps[n].system.value].operative.None?
    ensures DoTerminateResuming(s, i, n).Ok? && s.comps[i].status != Resumed && s.comps[i].head.Some?
  {
    assert Holder(s, Park(n)).Some? && Holder(s, Park(n)) != Some(s.current);
  }

  /** All slots but the three between which the handover moves coroutines. */
  lemma OtherSlots(s: State, s': State, i: nat, n: nat, k: nat, own: Slot)
    requires forall x :: x !in {Park(n), MainPark(k), Park(i), AttachedTo(i), Unentered(i)} ==>
               Holder(s', x) == Holder(s, x)
    requires forall x :: x in {Park(i), AttachedTo(i), Unentered(i)} && x != own ==> Holder(s, x).None?
    requires Holder(s', Park(i)).None? && Holder(s', AttachedTo(i)).None? && Holder(s', Unentered(i)).None?
    ensures forall w :: w !in {Park(n), own, MainPark(k)} ==> Holder(s', w) == Holder(s, w)
  {
    hide Holder;
  }

  lemma HandoverFromMain(s: State, i: nat, n: nat, k: nat)
    requires Inv(s) && i < |s.comps| && n < |s.comps| && SystemOpen(s, n)
    requires s.comps[n].status == Detached && s.comps[n].system == Some(k)
    requires MayHandOver(s, i, n) && s.systems[k].operative.None?
    ensures DoTerminateResuming(s, i, n).Ok? && Inv(DoTerminateResuming(s, i, n).value)
  {
    HandsOver(s, i, n);
    hide Linear, OperativeIffResumed, WellFormed, DoTerminateResuming;
    var s' := DoTerminateResuming(s, i, n).value;
    var own := if Holder(s, Park(i)).Some? then Park(i)
               else if Holder(s, AttachedTo(i)).Some? then AttachedTo(i) else Unentered(i);
    HandoverRecords(s, i, n, k);
    HandoverSlots(s, i, n, k);
    OneKept(s, i, own);
    KeepsNone(s', i);
    MainSlotFree(s, k);
    hide Holder, Keeps;
    OtherSlots(s, s', i, n, k, own);
    RelocatedLinear(s, s', Park(n), own, MainPark(k));
  }

  lemma MainSlotFree(s: State, k: nat)
    requires k < |s.systems| && s.systems[k].operative.None?
    ensures Holder(s, MainPark(k)).None?
  {
  }

  lemma StaleIsDouble(s: State, s': State, i: nat, n: nat, k: nat)
    requires Linear(s) && k < |s.systems|
    requires s'.coros == s.coros && s'.gone == s.gone + {s.current}
    requires Holder(s, MainPark(k)).None? && Holder(s', MainPark(k)) == Some(s.systems[k].mainPark)
    requires Holder(s, Park(n)) == Some(s'.current)
    requires Keeps(s, i) != Some(s.systems[k].mainPark)
    requires forall x :: x !in {Park(n), MainPark(k), Park(i), AttachedTo(i), Unentered(i)} ==>
               Holder(s', x) == Holder(s, x)
    ensures !Linear(s')
  {
    var stale := s.systems[k].mainPark;
    if stale < s.coros && stale != s.current && stale !in s.gone {
      var x :| Holder(s, x) == Some(stale);
      assert x != MainPark(k) && x !in {Park(i), AttachedTo(i), Unentered(i)};
      assert stale == s'.current || Holder(s', x) == Some(stale);
    }
  }

  lemma HandoverBreaks(s: State, i: nat, n: nat, k: nat)
    requires Inv(s) && i < |s.comps| && n < |s.comps| && SystemOpen(s, n) && i != n
    requires s.comps[n].status == Detached && s.comps[n].system == Some(k)
    requires !MayHandOver(s, i, n) && DoTerminateResuming(s, i, n).Ok?
    ensures !Inv(DoTerminateResuming(s, i, n).value)
  {
    var s' := DoTerminateResuming(s, i, n).value;
    HandoverWrites(s, i, n);
    hide DoTerminateResuming;
    match s.systems[k].operative
    case Some(z) =>
      assert s'.comps[z].status == Resumed && s'.systems[k].operative == Some(n);
    case None =>
      HandoverSlots(s, i, n, k);
      StaleIsDouble(s, s', i, n, k);
  }

  /** A handover at a final end keeps the invariants if and only if the next process's
      system is still open and the object may hand over. Nothing in the code checks it:
      otherwise the old operative component stays resumed, or a stale main reactivation
      point comes alive. */
  lemma HandoverExactly(s: State, i: nat, n: nat)
    requires Inv(s) && i < |s.comps| && n < |s.comps|
    requires s.comps[n].status == Detached && s.comps[n].system.Some?
    ensures (DoTerminateResuming(s, i, n).Ok? && Inv(DoTerminateResuming(s, i, n).value))
            <==> SystemOpen(s, n) && MayHandOver(s, i, n)
  {
    hide Linear, OperativeIffResumed;
    var k := s.comps[n].system.value;
    if !s.systems[k].open {
      if DoTerminateResuming(s, i, n).Ok? { ClosedBreaks(DoTerminateResuming(s, i, n).value, n, k); }
    } else if i == n {
    } else if s.systems[k].operative == Some(i) {
      FailsIffRefused(s, TerminateResuming(i, n));
      StepInv(s, TerminateResuming(i, n));
    } else if MayHandOver(s, i, n) {
      HandoverFromMain(s, i, n, k);
    } else if DoTerminateResuming(s, i, n).Ok? {
      HandoverBreaks(s, i, n, k);
    }
  }

  /** Without a closed system in the way, resuming is safe, and only then. */
  lemma ResumeExactly(s: State, i: nat)
    requires Inv(s) && i < |s.comps| && DoResume(s, i).Ok?
    ensures Inv(DoResume(s, i).value) <==> SystemOpen(s, i)
  {
    hide Linear, WellFormed;
    var k := s.comps[i].system.value;
    if s.systems[k].open {
      StepInv(s, Resume(i));
    } else {
      assert s.comps[i].status == Detached;
      ClosedBreaks(DoResume(s, i).value, i, k);
    }
  }

  // ------------------------------------------------------------- every run

  /** A statement whose success leaves the invariants intact. */
  ghost predicate Harmless(s: State, op: Op)
    requires Named(s, op)
  {
    match op
    case Resume(i) => SystemOpen(s, i)
    case TerminateResuming(i, n) =>
      && SystemOpen(s, n)
      && (s.comps[n].system.Some? && s.comps[n].system.value < |s.systems| ==> MayHandOver(s, i, n))
    case Exit(k) => s.systems[k].operative.None?
    case _ => true
  }

  /** Linear ownership, and "resumed iff operative", survive a statement that succeeds
      if and only if it resumes into an open system, leaves a system without an
      operative component, and hands over as it may. */
  lemma StepInvIff(s: State, op: Op)
    requires Inv(s) && Named(s, op) && Step(s, op).Ok?
    ensures Inv(Step(s, op).value) <==> Harmless(s, op)
  {
    match op
    case Resume(i) => ResumeExactly(s, i);
    case TerminateResuming(i, n) => HandoverExactly(s, i, n);
    case Exit(k) =>
      if s.systems[k].operative.Some? {
        ClosedBreaks(DoExit(s, k), s.systems[k].operative.value, k);
      } else {
        StepInv(s, op);
      }
    case Create(ref, k) => CreateInv(s, ref, k);
    case _ => StepInv(s, op);
  }

  /** A run all of whose statements name what exists and succeed. */
  ghost predicate Run(s: State, ops: seq<Op>)
    decreases |ops|
  {
    ops == [] || (Named(s, ops[0]) && Step(s, ops[0]).Ok? && Run(Step(s, ops[0]).value, ops[1..]))
  }

  /** Every statement of the run is harmless where it is executed, and succeeds. */
  ghost predicate Lawful(s: State, ops: seq<Op>)
    decreases |ops|
  {
    ops == []
    || (Named(s, ops[0]) && Harmless(s, ops[0]) && Step(s, ops[0]).Ok? && Lawful(Step(s, ops[0]).value, ops[1..]))
  }

  ghost function After(s: State, ops: seq<Op>): State
    requires Lawful(s, ops)
    decreases |ops|
  {
    if ops == [] then s else After(Step(s, ops[0]).value, ops[1..])
  }

  lemma {:induction false} LawfulPrefix(s: State, ops: seq<Op>, i: nat)
    requires Lawful(s, ops) && i <= |ops|
    ensures Lawful(s, ops[..i])
    decreases |ops|
  {
    if i > 0 {
      LawfulPrefix(Step(s, ops[0]).value, ops[1..], i - 1);
      assert ops[..i][1..] == ops[1..][..i - 1];
    }
  }

  /** In every reachable state each coroutine is running, gone, or in exactly one
      slot, and a component is resumed iff it is its system's operative one. */
  lemma {:induction false} RunInv(s: State, ops: seq<Op>)
    requires Inv(s) && Lawful(s, ops)
    ensures Inv(After(s, ops))
    decreases |ops|
  {
    hide Inv, Named, Harmless, Step;
    if ops != [] {
      StepInvIff(s, ops[0]);
      RunInv(Step(s, ops[0]).value, ops[1..]);
    }
  }

  /** The invariants hold at every point of the run. */
  ghost predicate InvThroughout(s: State, ops: seq<Op>)
    requires Run(s, ops)
    decreases |ops|
  {
    Inv(s) && (ops != [] ==> InvThroughout(Step(s, ops[0]).value, ops[1..]))
  }

  /** Over any run whatever, the invariants hold throughout if and only if every
      statement is harmless where it is executed. */
  lemma {:induction false} RunInvIff(s: State, ops: seq<Op>)
    requires Inv(s) && Run(s, ops)
    ensures InvThroughout(s, ops) <==> Lawful(s, ops)
    decreases |ops|
  {
    hide Inv, Named, Step, Harmless;
    if ops != [] {
      var next := Step(s, ops[0]).value;
      StepInvIff(s, ops[0]);
      if Harmless(s, ops[0]) {
        RunInvIff(next, ops[1..]);
      } else {
        assert !InvThroughout(next, ops[1..]);
      }
    }
  }

  // ------------------------------------------------------------- the records

  /** A handover that leaves the records in order: the object is the operative component
      of the other one's system, or that system has none and the object is no other's. */
  ghost predicate TidyHandOver(s: State, i: nat, n: nat)
    requires i < |s.comps| && n < |s.comps| && s.comps[n].system.Some? && s.comps[n].system.value < |s.systems|
  {
    var operative := s.systems[s.comps[n].system.value].operative;
    i != n && (operative == Some(i) || (operative.None? && s.comps[i].status != Resumed && s.comps[i].head.Some?))
  }

  lemma UntidyHandOver(s: State, i: nat, n: nat, k: nat)
    requires Records(s) && i < |s.comps| && n < |s.comps| && i != n && k < |s.systems|
    requires s.comps[n].system == Some(k) && DoTerminateResuming(s, i, n).Ok? && !TidyHandOver(s, i, n)
    ensures !Records(DoTerminateResuming(s, i, n).value)
  {
    var s' := DoTerminateResuming(s, i, n).value;
    HandoverWrites(s, i, n);
    hide DoTerminateResuming;
    match s.systems[k].operative
    case Some(z) => assert s'.comps[z].status == Resumed && s'.systems[k].operative == Some(n);
    case None =>
      assert s'.comps[i].status == Terminated && s'.comps[i].head == s.comps[i].head;
      if s.comps[i].status == Resumed {
        assert s'.systems[s.comps[i].system.value].operative == Some(i);
      }
  }

  lemma HandoverRecordsIff(s: State, i: nat, n: nat)
    requires Records(s) && i < |s.comps| && n < |s.comps| && i != n && DoTerminateResuming(s, i, n).Ok?
    ensures s.comps[n].system.Some? && s.comps[n].system.value < |s.systems|
    ensures Records(DoTerminateResuming(s, i, n).value) <==> SystemOpen(s, n) && TidyHandOver(s, i, n)
  {
    var k := s.comps[n].system.value;
    HandoverWrites(s, i, n);
    hide DoTerminateResuming, Records;
    if !s.systems[k].open {
      ClosedBreaks(DoTerminateResuming(s, i, n).value, n, k);
    } else if !TidyHandOver(s, i, n) {
      UntidyHandOver(s, i, n, k);
    } else if s.systems[k].operative == Some(i) {
      TerminateResumingKeepsRecords(s, i, n);
    } else {
      HandoverRecords(s, i, n, k);
    }
  }

  /** Resumed components are the operative ones and the records are well formed after
      a statement that succeeds if and only if it resumes into an open system, leaves
      none operative in a system it closes, and hands over tidily. */
  lemma StepRecordsIff(s: State, op: Op)
    requires Inv(s) && Named(s, op) && Step(s, op).Ok?
    ensures Records(Step(s, op).value)
            <==> match op
                 case Resume(i) => SystemOpen(s, i)
                 case TerminateResuming(i, n) =>
                   SystemOpen(s, n) && s.comps[n].system.Some? && s.comps[n].system.value < |s.systems|
                   && TidyHandOver(s, i, n)
                 case Exit(k) => s.systems[k].operative.None?
                 case _ => true
  {
    hide Linear, TidyHandOver;
    match op
    case TerminateResuming(i, n) =>
      FailsIffRefused(s, op);
      HandoverRecordsIff(s, i, n);
    case Create(ref, k) => CreateInv(s, ref, k);
    case Resume(i) =>
      ResumeExactly(s, i);
      if !SystemOpen(s, i) { ClosedBreaks(DoResume(s, i).value, i, s.comps[i].system.value); }
    case Exit(k) =>
      if s.systems[k].operative.Some? {
        ClosedBreaks(DoExit(s, k), s.systems[k].operative.value, k);
      } else {
        StepKeepsRecords(s, op);
      }
    case _ => StepKeepsRecords(s, op);
  }

  // ------------------------------------------------------------- where control goes

  /** The one harmless statement that moves two coroutines. */
  lemma HandsOverFromMain(s: State, op: Op)
    requires Inv(s) && Named(s, op) && Harmless(s, op) && Step(s, op).Ok? && !Permitted(s, op)
    ensures op.TerminateResuming? && s.comps[op.obj].status != Resumed && op.obj != op.next
    ensures s.comps[op.next].system.Some? && s.comps[op.next].system.value < |s.systems|
    ensures s.comps[op.next].status == Detached
    ensures Holder(s, Park(op.next)) == Some(Step(s, op).value.current)
    ensures var k := s.comps[op.next].system.value;
            forall x :: x !in {Park(op.next), MainPark(k), Park(op.obj), AttachedTo(op.obj), Unentered(op.obj)} ==>
              Holder(Step(s, op).value, x) == Holder(s, x)
  {
    hide Linear;
    HandoverSlots(s, op.obj, op.next, s.comps[op.next].system.value);
  }

  /** A switch only ever enters a coroutine that exactly one slot was keeping: never
      the running one, never one a terminated object left behind. So control
      never returns into a terminated object. */
  lemma SwitchEntersKept(s: State, op: Op)
    requires Inv(s) && Named(s, op) && Harmless(s, op)
    ensures Step(s, op) != Err(ControlReturned)
    ensures Step(s, op).Ok? && Step(s, op).value.current != s.current ==>
              var t := Step(s, op).value.current;
              && Source(s, op).Some? && Holder(s, Source(s, op).value) == Some(t)
              && t !in s.gone
              && forall x :: Holder(s, x) == Some(t) ==> x == Source(s, op).value
  {
    NeverIntoSelf(s, op);
    if Step(s, op).Ok? {
      if Permitted(s, op) {
        StepMoves(s, op);
      } else {
        HandsOverFromMain(s, op);
      }
    }
  }

  /** Left for good is left for good. */
  lemma GoneGrows(s: State, op: Op)
    requires Named(s, op) && Step(s, op).Ok?
    ensures s.gone <= Step(s, op).value.gone
  {
  }

  lemma {:induction false} GoneForGood(s: State, ops: seq<Op>, c: Coro)
    requires Inv(s) && Lawful(s, ops) && c in s.gone
    ensures c in After(s, ops).gone && After(s, ops).current != c
    decreases |ops|
  {
    hide Named, Harmless, Step;
    if ops != [] {
      GoneGrows(s, ops[0]);
      StepInvIff(s, ops[0]);
      GoneForGood(Step(s, ops[0]).value, ops[1..], c);
    }
  }

  // ------------------------------------------------------------- bracketing

  ghost predicate Leaves(op: Op, y: nat) {
    op == Detach(y) || op == Terminate(y)
  }

  /** The statements with which Y stops or ends. */
  ghost predicate Ends(op: Op, y: nat) {
    Leaves(op, y) || (op.TerminateResuming? && op.obj == y)
  }

  /** Generating or calling Y puts the executing coroutine into Y's return point. */
  lemma BracketOpens(s: State, op: Op, y: nat)
    requires Inv(s) && Named(s, op) && Step(s, op).Ok? && (op == Call(y) || op == Start(y))
    ensures Holder(Step(s, op).value, AttachedTo(y)) == Some(s.current)
  {
    StepMoves(s, op);
  }

  /** Nothing but Y stopping or ending empties Y's return point or overwrites it. */
  lemma BracketHolds(s: State, op: Op, y: nat, k: Coro)
    requires Inv(s) && Named(s, op) && Harmless(s, op) && Step(s, op).Ok?
    requires Holder(s, AttachedTo(y)) == Some(k) && !Ends(op, y)
    ensures Holder(Step(s, op).value, AttachedTo(y)) == Some(k)
  {
    if Permitted(s, op) {
      hide Linear, OperativeIffResumed, Harmless;
      if Source(s, op).Some? {
        StepMoves(s, op);
        assert Source(s, op) != Some(AttachedTo(y));
      }
    } else {
      HandsOverFromMain(s, op);
      hide *;
    }
  }

  lemma BracketCloses(s: State, op: Op, y: nat, k: Coro)
    requires Inv(s) && Named(s, op) && Step(s, op).Ok?
    requires Holder(s, AttachedTo(y)) == Some(k) && Leaves(op, y)
    ensures Step(s, op).value.current == k
  {
    StepMoves(s, op);
  }

  lemma {:induction false} BracketKeeps(s: State, ops: seq<Op>, y: nat, k: Coro)
    requires Inv(s) && Lawful(s, ops) && Holder(s, AttachedTo(y)) == Some(k)
    requires forall op :: op in ops ==> !Ends(op, y)
    ensures Holder(After(s, ops), AttachedTo(y)) == Some(k) && After(s, ops).current != k
    decreases |ops|
  {
    hide Named, Harmless, Step, Ends, Holder;
    if ops != [] {
      assert !Ends(ops[0], y) && forall op :: op in ops[1..] ==> op in ops;
      StepInvIff(s, ops[0]);
      BracketHolds(s, ops[0], y, k);
      BracketKeeps(Step(s, ops[0]).value, ops[1..], y, k);
    }
  }

  /** Once coroutine k generates or calls Y, k does not execute again until Y next
      detaches, terminates or hands over, and if Y detaches or terminates control then
      returns to k itself, whatever ran in between. */
  lemma Bracketing(s: State, open: Op, ops: seq<Op>, close: Op, y: nat)
    requires Inv(s) && Named(s, open) && Step(s, open).Ok? && (open == Call(y) || open == Start(y))
    requires Lawful(Step(s, open).value, ops) && forall op :: op in ops ==> !Ends(op, y)
    requires Leaves(close, y)
    requires var s2 := After(Step(s, open).value, ops); Named(s2, close) && Step(s2, close).Ok?
    ensures forall i :: 0 <= i <= |ops| ==>
              && Lawful(Step(s, open).value, ops[..i])
              && After(Step(s, open).value, ops[..i]).current != s.current
    ensures Step(After(Step(s, open).value, ops), close).value.current == s.current
  {
    BracketOpens(s, open, y);
    StepInv(s, open);
    hide Named, Harmless, Step, Ends, Leaves, Holder, Inv;
    var s1 := Step(s, open).value;
    forall i | 0 <= i <= |ops|
      ensures Lawful(s1, ops[..i]) && After(s1, ops[..i]).current != s.current
    {
      LawfulPrefix(s1, ops, i);
      assert forall op :: op in ops[..i] ==> op in ops;
      BracketKeeps(s1, ops[..i], y, s.current);
    }
    BracketKeeps(s1, ops, y, s.current);
    RunInv(s1, ops);
    BracketCloses(After(s1, ops), close, y, s.current);
  }

  // ------------------------------------------------------------- own coroutines

  /** No two objects have the same coroutine for their own. */
  ghost predicate HeadsApart(s: State) {
    forall i, j :: 0 <= i < j < |s.comps| && s.comps[i].head.Some? ==> s.comps[i].head != s.comps[j].head
  }

  /** Objects keep their coroutines. */
  lemma HeadsStay(s: State, op: Op)
    requires Named(s, op) && Step(s, op).Ok?
    ensures var t := Step(s, op).value;
            && |s.comps| <= |t.comps| && (!op.Create? && !op.MarkBlock? ==> |t.comps| == |s.comps|)
            && forall i :: 0 <= i < |s.comps| ==> t.comps[i].head == s.comps[i].head
  {
  }

  /** Only a generated object has a new one. */
  lemma NewHead(s: State, op: Op)
    requires WellFormed(s) && Named(s, op) && Step(s, op).Ok? && (op.Create? || op.MarkBlock?)
    ensures var t := Step(s, op).value;
            && |t.comps| == |s.comps| + 1
            && forall i :: 0 <= i < |s.comps| && s.comps[i].head.Some? ==> s.comps[i].head != t.comps[|s.comps|].head
  {
  }

  lemma StepHeadsApart(s: State, op: Op)
    requires WellFormed(s) && HeadsApart(s) && Named(s, op) && Step(s, op).Ok?
    ensures HeadsApart(Step(s, op).value)
  {
    hide WellFormed;
    HeadsStay(s, op);
    if op.Create? || op.MarkBlock? { NewHead(s, op); }
    hide Step;
  }

  lemma {:induction false} RunHeadsApart(s: State, ops: seq<Op>)
    requires Inv(s) && HeadsApart(s) && Lawful(s, ops)
    ensures HeadsApart(After(s, ops))
    decreases |ops|
  {
    hide HeadsApart, Named, Harmless, Step, Linear, OperativeIffResumed, WellFormed;
    if ops != [] {
      StepInvIff(s, ops[0]);
      StepHeadsApart(s, ops[0]);
      RunHeadsApart(Step(s, ops[0]).value, ops[1..]);
    }
  }
}
