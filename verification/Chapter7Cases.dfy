/** Programs of a few statements that the sequencing runtime carries out and that lose
    its invariants. */
module Chapter7Cases {
  import opened Prelude
  import opened Chapter7
  import opened Chapter7Runs

  lemma {:induction false} OneMoreStep(s: State, ops: seq<Op>, op: Op)
    requires Lawful(s, ops) && Named(After(s, ops), op) && Harmless(After(s, ops), op)
    requires Step(After(s, ops), op).Ok?
    ensures Lawful(s, ops + [op]) && After(s, ops + [op]) == Step(After(s, ops), op).value
    decreases |ops|
  {
    hide Named, Harmless, Step;
    var all := ops + [op];
    if ops == [] {
      assert all[1..] == [];
    } else {
      assert all[1..] == ops[1..] + [op];
      OneMoreStep(Step(s, ops[0]).value, ops[1..], op);
    }
  }

  /** Generates an object, which runs to a first detach. */
  lemma Generates(s: State, ops: seq<Op>, ref: Addr, system: Option<nat>) returns (t: State, more: seq<Op>)
    requires Lawful(s, ops) && Inv(After(s, ops))
    requires system.Some? ==> system.value < |After(s, ops).systems|
    ensures var i, r := |After(s, ops).comps|, After(s, ops);
            && more == ops + [Create(ref, system)] + [Start(i)] && Lawful(s, more) && After(s, more) == t
            && t.current == r.coros && t.coros == r.coros + 1 && t.systems == r.systems && t.gone == r.gone
            && t.comps == r.comps
                 + [Comp(ref, Some(r.coros), Some(r.coros), Some(r.current), system, Attached, r.current)]
  {
    var r := After(s, ops);
    OneMoreStep(s, ops, Create(ref, system));
    OneMoreStep(s, ops + [Create(ref, system)], Start(|r.comps|));
    more := ops + [Create(ref, system)] + [Start(|r.comps|)];
    t := After(s, more);
  }

  /** A system is entered first of all. */
  lemma EntersFirst() returns (ops: seq<Op>)
    ensures ops == [Enter] && Lawful(Initial(), ops) && After(Initial(), ops) == DoEnter(Initial())
    ensures Inv(After(Initial(), ops))
  {
    InitialInv();
    OneMoreStep(Initial(), [], Enter);
    ops := [] + [Enter];
    RunInv(Initial(), ops);
  }

  /** An object outlives the block its class is of: resuming it goes through a system
      that has been left, and the invariants are lost. */
  lemma ResumedAfterExit() returns (ops: seq<Op>, s: State)
    ensures ops == [Enter, Create(10, Some(1)), Start(0), Detach(0), Exit(1)]
    ensures Lawful(Initial(), ops) && s == After(Initial(), ops) && Inv(s)
    ensures Named(s, Resume(0)) && !SystemOpen(s, 0)
    ensures DoResume(s, 0).Ok? && !Inv(DoResume(s, 0).value)
  {
    hide Inv, Lawful, After;
    ops := EntersFirst();
    s, ops := Generates(Initial(), ops, 10, Some(1));
    OneMoreStep(Initial(), ops, Detach(0));
    ops := ops + [Detach(0)];
    OneMoreStep(Initial(), ops, Exit(1));
    ops := ops + [Exit(1)];
    s := After(Initial(), ops);
    InitialInv();
    RunInv(Initial(), ops);
    ResumeExactly(s, 0);
  }

  /** The main component is operative, and an object two levels down from it hands over
      although it keeps another coroutine than the one the main component was parked
      as: that stale reactivation point comes alive. */
  lemma HandedOverFromOutside() returns (ops: seq<Op>, s: State)
    ensures ops == [Enter, Create(10, Some(1)), Start(0), Detach(0),
                    Create(11, Some(1)), Start(1), Create(12, Some(1)), Start(2)]
    ensures Lawful(Initial(), ops) && s == After(Initial(), ops) && Inv(s)
    ensures |s.comps| == 3 && s.comps[0].system == Some(1) && |s.systems| == 2
    ensures SystemOpen(s, 0) && !MayHandOver(s, 2, 0)
    ensures DoTerminateResuming(s, 2, 0).Ok? && !Inv(DoTerminateResuming(s, 2, 0).value)
  {
    hide Inv, Lawful, After;
    InitialInv();
    ops := EntersFirst();
    s, ops := Generates(Initial(), ops, 10, Some(1));
    OneMoreStep(Initial(), ops, Detach(0));
    ops := ops + [Detach(0)];
    RunInv(Initial(), ops);
    s, ops := Generates(Initial(), ops, 11, Some(1));
    RunInv(Initial(), ops);
    s, ops := Generates(Initial(), ops, 12, Some(1));
    RunInv(Initial(), ops);
    HandoverExactly(s, 2, 0);
  }
}
