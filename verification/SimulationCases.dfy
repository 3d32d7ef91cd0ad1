/** A SIMULATION block inside an object's body, which runs on the object's own coroutine:
    scheduling statements of the block then speak for the object and not for MAIN. */
module SimulationCases {
  import opened Prelude
  import Chapter7
  import Chapter7Runs
  import Chapter7Cases
  import opened SequencingSet
  import opened SimulationRuns

  /** MAIN's first HOLD for a positive time takes that time exactly when the coroutine
      that entered the block is no object's own and no object's reactivation point. */
  lemma FirstHoldIff(ch7: Chapter7.State, sys: nat, dt: real)
    requires Named(ch7.comps) && dt > 0.0
    ensures var s := Begin(ch7, sys);
            && DoHold(s, dt).Ok?
            && (Time(DoHold(s, dt).value.notices) == dt <==> Untouched(ch7.comps, ch7.current))
            && (!Untouched(ch7.comps, ch7.current) ==>
                  && DoHold(s, dt).value.notices == [Notice(0.0, MAIN, 1), Notice(dt, Self(s), 2)]
                  && DoTransfer(DoHold(s, dt).value) == DoHold(s, dt))
  {
    var s := Begin(ch7, sys);
    MainAsksIff(s);
    FiledBeside(Self(s), dt);
  }

  /** A notice filed beside MAIN's at time 0, or in its place. */
  lemma FiledBeside(p: Addr, dt: real)
    requires dt > 0.0
    ensures var main, n := Notice(0.0, MAIN, 1), Notice(dt, p, 2);
            && Filed([main], n, false) == (if p == MAIN then [n] else [main, n])
            && |Without([main], p)| <= 1
  {
    var main, n := Notice(0.0, MAIN, 1), Notice(dt, p, 2);
    assert [main][1..] == [];
    if p == MAIN {
      assert Without([main], p) == [];
    } else {
      assert Without([main], p) == [main];
      assert PlaceFor([main], dt, false) == 1;
    }
  }

  /** An object generated by the program enters the block: MAIN is on record, the object
      is who asks. */
  lemma EnteredByObject() returns (ops: seq<Chapter7.Op>, t: Chapter7.State)
    ensures ops == [Chapter7.Create(10, None), Chapter7.Start(0), Chapter7.Enter]
    ensures Chapter7Runs.Lawful(Chapter7.Initial(), ops) && t == Chapter7Runs.After(Chapter7.Initial(), ops)
    ensures Chapter7.Inv(t) && Named(t.comps) && JustEntered(t, 1)
    ensures var s := Begin(t, 1); s.running == MAIN && Self(s) == 10 && !SimInv(s)
  {
    hide Chapter7.Inv, Chapter7Runs.Lawful, Chapter7Runs.After, SimInv;
    Chapter7.InitialInv();
    Nothing();
    t, ops := Chapter7Cases.Generates(Chapter7.Initial(), [], 10, None);
    Chapter7Cases.OneMoreStep(Chapter7.Initial(), ops, Chapter7.Enter);
    ops := ops + [Chapter7.Enter];
    t := Chapter7Runs.After(Chapter7.Initial(), ops);
    Chapter7Runs.RunInv(Chapter7.Initial(), ops);
    assert t.comps[0].head == Some(t.current);
    BeginIff(t, 1);
  }

  lemma Nothing()
    ensures var s := Chapter7.Initial();
            Chapter7Runs.Lawful(s, []) && Chapter7Runs.After(s, []) == s
  {
  }
}
