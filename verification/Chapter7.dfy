/** Quasi-parallel sequencing (chapter 7 of the Simula Standard) as sequencing.c
    carries it out: every statement is at most one switch between coroutines.

    A coroutine that is not running is kept in a slot: the reactivation point of
    a detached component, the return point of an attached one, the parked main
    component of a system, or an object generated and not yet entered. */
module Chapter7 {
  import opened Prelude

  type Coro = nat

  datatype Status = Attached | Detached | Resumed | Terminated

  /** A component record. A prefixed block instance has one too, but no coroutine. */
  datatype Comp = Comp(
    ref: Addr, head: Option<Coro>, park: Option<Coro>, attachedTo: Option<Coro>,
    system: Option<nat>, status: Status, origin: Coro)

  datatype Sys = Sys(mainPark: Coro, operative: Option<nat>, open: bool)

  /** Coroutines are numbered in creation order, 0 being the main program's; `gone`
      are those left for good by an object's final end. */
  datatype State = State(current: Coro, coros: nat, comps: seq<Comp>, systems: seq<Sys>, gone: set<Coro>)

  datatype Error =
    | SwitchNowhere
    | AlreadyDetached
    | AlreadyTerminated
    | NoSystem
    | NotDetached(status: Status)
    | ControlReturned

  datatype Op =
    | Create(ref: Addr, system: Option<nat>)
    | MarkBlock(ref: Addr)
    | Start(obj: nat)
    | Detach(obj: nat)
    | Terminate(obj: nat)
    | Call(obj: nat)
    | Resume(obj: nat)
    | TerminateResuming(obj: nat, next: nat)
    | Enter
    | Exit(sys: nat)

  type Outcome = Result<State, Error>

  function Initial(): State {
    State(0, 1, [], [Sys(0, None, true)], {})
  }

  // ------------------------------------------------------------- statements

  /** The switch that ends every statement. Switching to oneself falls through, which
      a statement that ends its object's life must never do. */
  function SwitchTo(s: State, target: Option<Coro>, final: bool): Outcome {
    match target
    case None => Err(SwitchNowhere)
    case Some(t) =>
      if t == s.current && final then Err(ControlReturned) else Ok(s.(current := t))
  }

  function WithComp(s: State, i: nat, c: Comp): State
    requires i < |s.comps|
  {
    s.(comps := s.comps[i := c])
  }

  function WithOperative(s: State, k: nat, op: Option<nat>): State
    requires k < |s.systems|
  {
    s.(systems := s.systems[k := s.systems[k].(operative := op)])
  }

  function DoCreate(s: State, ref: Addr, system: Option<nat>): State {
    s.(coros := s.coros + 1,
       comps := s.comps + [Comp(ref, Some(s.coros), Some(s.coros), None, system, Attached, s.current)])
  }

  function DoMarkBlock(s: State, ref: Addr): State {
    s.(comps := s.comps + [Comp(ref, None, None, None, None, Attached, s.current)])
  }

  function DoStart(s: State, i: nat): Outcome
    requires i < |s.comps|
  {
    SwitchTo(WithComp(s, i, s.comps[i].(attachedTo := Some(s.current))), s.comps[i].head, false)
  }

  /** What leaving does to the component: a terminated object keeps no reactivation
      point, and the coroutine that ran its final end is never continued. */
  function Left(s: State, i: nat, next: Status): State
    requires i < |s.comps|
  {
    var park := if next == Terminated then None else Some(s.current);
    WithComp(s, i, s.comps[i].(status := next, park := park))
      .(gone := if next == Terminated then s.gone + {s.current} else s.gone)
  }

  /** Detach, and the final end of an object, which differs only in the state the
      object is left in. */
  function DoLeave(s: State, i: nat, next: Status): Outcome
    requires i < |s.comps|
  {
    var c := s.comps[i];
    match c.status
    case Attached => SwitchTo(Left(s, i, next), c.attachedTo, next == Terminated)
    case Resumed =>
      if c.system.None? || c.system.value >= |s.systems| then Err(NoSystem)
      else
        var k := c.system.value;
        SwitchTo(Left(WithOperative(s, k, None), i, next), Some(s.systems[k].mainPark), next == Terminated)
    case Detached => Err(AlreadyDetached)
    case Terminated => Err(AlreadyTerminated)
  }

  function DoDetach(s: State, i: nat): Outcome
    requires i < |s.comps|
  {
    if s.comps[i].head.None? then Ok(s) else DoLeave(s, i, Detached)
  }

  function DoCall(s: State, i: nat): Outcome
    requires i < |s.comps|
  {
    var c := s.comps[i];
    if c.status != Detached then Err(NotDetached(c.status))
    else SwitchTo(WithComp(s, i, c.(status := Attached, attachedTo := Some(s.current))), c.park, false)
  }

  /** The operative component of system `k` stops here, where the statement runs. */
  function Suspend(s: State, k: nat): State
    requires k < |s.systems|
  {
    match s.systems[k].operative
    case None => s.(systems := s.systems[k := s.systems[k].(mainPark := s.current)])
    case Some(j) =>
      if j >= |s.comps| then s
      else WithComp(s, j, s.comps[j].(status := Detached, park := Some(s.current)))
  }

  /** Component `i` becomes the operative one of system `k`. */
  function Activate(s: State, i: nat, k: nat): State
    requires i < |s.comps| && k < |s.systems|
  {
    WithComp(WithOperative(s, k, Some(i)), i, s.comps[i].(status := Resumed))
  }

  function DoResume(s: State, i: nat): Outcome
    requires i < |s.comps|
  {
    var c := s.comps[i];
    if c.system.None? || c.system.value >= |s.systems| then Err(NoSystem)
    else if c.status == Resumed then Ok(s)
    else if c.status != Detached then Err(NotDetached(c.status))
    else
      var s1 := Suspend(s, c.system.value);
      SwitchTo(Activate(s1, i, c.system.value), s1.comps[i].park, false)
  }

  function DoTerminateResuming(s: State, i: nat, n: nat): Outcome
    requires i < |s.comps| && n < |s.comps|
  {
    var c := s.comps[n];
    if c.system.None? || c.system.value >= |s.systems| then Err(NoSystem)
    else if c.status != Detached then Err(NotDetached(c.status))
    else
      var s1 := Left(s, i, Terminated);
      SwitchTo(Activate(s1, n, c.system.value), s1.comps[n].park, true)
  }

  function DoEnter(s: State): State {
    s.(systems := s.systems + [Sys(s.current, None, true)])
  }

  function DoExit(s: State, k: nat): State
    requires k < |s.systems|
  {
    s.(systems := s.systems[k := s.systems[k].(open := false)])
  }

  // ------------------------------------------------------------- slots

  datatype Slot = Park(comp: nat) | AttachedTo(comp: nat) | Unentered(comp: nat) | MainPark(sys: nat)

  /** The coroutine a slot keeps, if it is a live slot. */
  function Holder(s: State, slot: Slot): Option<Coro> {
    match slot
    case Park(i) =>
      if i < |s.comps| && s.comps[i].status == Detached then s.comps[i].park else None
    case AttachedTo(i) =>
      if i < |s.comps| && s.comps[i].status == Attached then s.comps[i].attachedTo else None
    case Unentered(i) =>
      if i < |s.comps| && s.comps[i].status == Attached && s.comps[i].attachedTo.None?
      then s.comps[i].head else None
    case MainPark(k) =>
      if k < |s.systems| && s.systems[k].operative.Some? then Some(s.systems[k].mainPark) else None
  }

  /** Every coroutine is in exactly one place: running, gone, or in one slot. */
  ghost predicate Linear(s: State) {
    && s.current < s.coros && s.current !in s.gone
    && (forall c :: c in s.gone ==> c < s.coros)
    && (forall x :: Holder(s, x).Some? ==>
          Holder(s, x).value < s.coros && Holder(s, x).value != s.current && Holder(s, x).value !in s.gone)
    && (forall x, y :: Holder(s, x).Some? && Holder(s, y).Some? && x != y ==>
          Holder(s, x).value != Holder(s, y).value)
    && (forall c :: 0 <= c < s.coros ==>
          c == s.current || c in s.gone || exists x :: Holder(s, x) == Some(c))
  }

  /** A component is resumed exactly when it is its system's operative one. */
  ghost predicate OperativeIffResumed(s: State) {
    && (forall i :: 0 <= i < |s.comps| && s.comps[i].status == Resumed ==>
          && s.comps[i].system.Some? && s.comps[i].system.value < |s.systems|
          && s.systems[s.comps[i].system.value].operative == Some(i))
    && (forall k :: 0 <= k < |s.systems| && s.systems[k].operative.Some? ==>
          var i := s.systems[k].operative.value;
          && s.systems[k].open && i < |s.comps|
          && s.comps[i].status == Resumed && s.comps[i].system == Some(k))
  }

  ghost predicate WellFormed(s: State) {
    && (forall i :: 0 <= i < |s.comps| ==>
          var c := s.comps[i];
          && (c.status == Detached ==> c.park.Some?)
          && (c.status == Terminated ==> c.park.None?)
          && (c.system.Some? ==> c.system.value < |s.systems|)
          && (c.head.None? ==> c.status == Attached && c.attachedTo.None?)
          && (c.head.Some? ==> c.origin < c.head.value < s.coros))
  }

  ghost predicate Inv(s: State) {
    Linear(s) && OperativeIffResumed(s) && WellFormed(s)
  }

  lemma InitialInv()
    ensures Inv(Initial())
  {
  }

  // ------------------------------------------------------------- one switch

  /** `s'` is `s` after control moved from slot `x` to the running side and the
      coroutine that was running went to slot `y`, or nowhere if `y` is None. */
  ghost predicate Moved(s: State, s': State, x: Slot, y: Option<Slot>) {
    && Holder(s, x).Some? && s'.current == Holder(s, x).value && s'.coros == s.coros
    && (y == Some(x) || Holder(s', x).None?)
    && (forall z :: z != x && y != Some(z) ==> Holder(s', z) == Holder(s, z))
    && match y
       case Some(z) =>
         && (z == x || Holder(s, z).None?)
         && Holder(s', z) == Some(s.current) && s'.gone == s.gone
       case None => s'.gone == s.gone + {s.current}
  }

  lemma MovedLinear(s: State, s': State, x: Slot, y: Option<Slot>)
    requires Linear(s) && Moved(s, s', x, y)
    ensures Linear(s')
  {
    forall c | 0 <= c < s'.coros && c != s'.current && c !in s'.gone
      ensures exists z :: Holder(s', z) == Some(c)
    {
      if c == s.current {
        assert Holder(s', y.value) == Some(c);
      } else {
        var z :| Holder(s, z) == Some(c);
        assert Holder(s', z) == Some(c);
      }
    }
  }

  // ------------------------------------------------------------- each statement

  /** What every statement of a generated program satisfies: it names records that
      exist, an object is entered once, and a system is left by its own block. */
  ghost predicate Named(s: State, op: Op) {
    match op
    case Create(_, system) => system.Some? ==> system.value < |s.systems|
    case MarkBlock(_) => true
    case Start(i) => Holder(s, Unentered(i)).Some?
    case Detach(i) => i < |s.comps|
    case Terminate(i) => i < |s.comps|
    case Call(i) => i < |s.comps|
    case Resume(i) => i < |s.comps|
    case TerminateResuming(i, n) => i < |s.comps| && n < |s.comps|
    case Enter => true
    case Exit(k) => 0 < k < |s.systems|
  }

  /** What the statements of well-behaved programs satisfy besides, though nothing in
      the runtime makes sure of it: a system in use is still open, none is left with
      a component operative, and a process hands over only as its system's operative
      component. */
  ghost predicate Permitted(s: State, op: Op)
    ensures Permitted(s, op) ==> Named(s, op)
  {
    match op
    case Resume(i) => i < |s.comps| && SystemOpen(s, i)
    case TerminateResuming(i, n) =>
      && i < |s.comps| && n < |s.comps| && SystemOpen(s, n)
      && (s.comps[n].system.Some? ==> s.systems[s.comps[n].system.value].operative == Some(i))
    case Exit(k) => 0 < k < |s.systems| && s.systems[k].operative.None?
    case _ => Named(s, op)
  }

  ghost predicate SystemOpen(s: State, i: nat)
    requires i < |s.comps|
  {
    s.comps[i].system.Some? ==>
      s.comps[i].system.value < |s.systems| && s.systems[s.comps[i].system.value].open
  }

  function Step(s: State, op: Op): Outcome
    requires Named(s, op)
  {
    match op
    case Create(ref, system) => Ok(DoCreate(s, ref, system))
    case MarkBlock(ref) => Ok(DoMarkBlock(s, ref))
    case Start(i) => DoStart(s, i)
    case Detach(i) => DoDetach(s, i)
    case Terminate(i) => DoLeave(s, i, Terminated)
    case Call(i) => DoCall(s, i)
    case Resume(i) => DoResume(s, i)
    case TerminateResuming(i, n) => DoTerminateResuming(s, i, n)
    case Enter => Ok(DoEnter(s))
    case Exit(k) => Ok(DoExit(s, k))
  }

  /** The slot whose coroutine continues, and the one the stopped coroutine goes to. */
  function Source(s: State, op: Op): Option<Slot> {
    match op
    case Start(i) => Some(Unentered(i))
    case Detach(i) => if i < |s.comps| && s.comps[i].head.Some? then LeaveSource(s, i) else None
    case Terminate(i) => LeaveSource(s, i)
    case Call(i) => Some(Park(i))
    case Resume(i) => if i < |s.comps| && s.comps[i].status == Resumed then None else Some(Park(i))
    case TerminateResuming(_, n) => Some(Park(n))
    case _ => None
  }

  function LeaveSource(s: State, i: nat): Option<Slot> {
    if i >= |s.comps| then None
    else if s.comps[i].status == Attached then Some(AttachedTo(i))
    else if s.comps[i].status == Resumed && s.comps[i].system.Some? then Some(MainPark(s.comps[i].system.value))
    else None
  }

  function Sink(s: State, op: Op): Option<Slot> {
    match op
    case Start(i) => Some(AttachedTo(i))
    case Detach(i) => Some(Park(i))
    case Call(i) => Some(AttachedTo(i))
    case Resume(i) => ResumeSink(s, i)
    case _ => None
  }

  function ResumeSink(s: State, i: nat): Option<Slot> {
    if i < |s.comps| && s.comps[i].system.Some? && s.comps[i].system.value < |s.systems| then
      match s.systems[s.comps[i].system.value].operative
      case None => Some(MainPark(s.comps[i].system.value))
      case Some(j) => Some(Park(j))
    else None
  }

  lemma StartMoves(s: State, i: nat)
    requires Inv(s) && Permitted(s, Start(i)) && DoStart(s, i).Ok?
    ensures Moved(s, DoStart(s, i).value, Unentered(i), Some(AttachedTo(i)))
  {
    hide Linear;
  }

  lemma LeaveMoves(s: State, i: nat, next: Status)
    requires Inv(s) && i < |s.comps| && next in {Detached, Terminated} && DoLeave(s, i, next).Ok?
    ensures LeaveSource(s, i).Some?
    ensures Moved(s, DoLeave(s, i, next).value, LeaveSource(s, i).value,
                  if next == Terminated then None else Some(Park(i)))
  {
    hide Linear;
    if s.comps[i].status == Attached {
      LeaveAttachedMoves(s, i, next);
    } else {
      LeaveResumedMoves(s, i, next);
    }
  }

  lemma LeaveAttachedMoves(s: State, i: nat, next: Status)
    requires Inv(s) && i < |s.comps| && next in {Detached, Terminated} && DoLeave(s, i, next).Ok?
    requires s.comps[i].status == Attached
    ensures Moved(s, DoLeave(s, i, next).value, AttachedTo(i),
                  if next == Terminated then None else Some(Park(i)))
  {
    hide Linear;
    forall x | x !in {AttachedTo(i), Park(i)} ensures Holder(DoLeave(s, i, next).value, x) == Holder(s, x) {
      EndsElsewhere(s, i, next, x);
    }
  }

  lemma EndsElsewhere(s: State, i: nat, next: Status, x: Slot)
    requires i < |s.comps| && next in {Detached, Terminated} && DoLeave(s, i, next).Ok?
    requires s.comps[i].status == Attached && x !in {AttachedTo(i), Park(i)}
    ensures Holder(DoLeave(s, i, next).value, x) == Holder(s, x)
  {
  }

  lemma LeaveResumedMoves(s: State, i: nat, next: Status)
    requires Inv(s) && i < |s.comps| && next in {Detached, Terminated} && DoLeave(s, i, next).Ok?
    requires s.comps[i].status == Resumed
    ensures s.comps[i].system.Some?
    ensures Moved(s, DoLeave(s, i, next).value, MainPark(s.comps[i].system.value),
                  if next == Terminated then None else Some(Park(i)))
  {
    hide Linear;
    var k := s.comps[i].system.value;
    forall x | x != MainPark(k) && x != Park(i) ensures Holder(DoLeave(s, i, next).value, x) == Holder(s, x) {
      LeaveElsewhere(s, i, next, k, x);
    }
  }

  lemma LeaveElsewhere(s: State, i: nat, next: Status, k: nat, x: Slot)
    requires i < |s.comps| && next in {Detached, Terminated} && DoLeave(s, i, next).Ok?
    requires s.comps[i].status == Resumed && s.comps[i].system == Some(k)
    requires x != MainPark(k) && x != Park(i)
    ensures Holder(DoLeave(s, i, next).value, x) == Holder(s, x)
  {
  }

  lemma CallMoves(s: State, i: nat)
    requires Inv(s) && i < |s.comps| && DoCall(s, i).Ok?
    ensures Moved(s, DoCall(s, i).value, Park(i), Some(AttachedTo(i)))
  {
    hide Linear;
  }

  lemma ResumeFromMainMoves(s: State, i: nat, k: nat)
    requires Records(s) && i < |s.comps| && s.comps[i].status == Detached && s.comps[i].system == Some(k)
    requires s.systems[k].operative.None? && DoResume(s, i).Ok?
    ensures Moved(s, DoResume(s, i).value, Park(i), Some(MainPark(k)))
  {
  }

  lemma ResumeFromPeerMoves(s: State, i: nat, k: nat, j: nat)
    requires Records(s) && i < |s.comps| && s.comps[i].status == Detached && s.comps[i].system == Some(k)
    requires s.systems[k].operative == Some(j) && DoResume(s, i).Ok?
    ensures Moved(s, DoResume(s, i).value, Park(i), Some(Park(j)))
  {
    var s' := DoResume(s, i).value;
    assert j != i && j < |s.comps| && s.comps[j].status == Resumed;
    forall x | x !in {Park(i), Park(j)} ensures Holder(s', x) == Holder(s, x) {
      ResumeElsewhere(s, i, k, j, x);
    }
  }

  lemma ResumeElsewhere(s: State, i: nat, k: nat, j: nat, x: Slot)
    requires i < |s.comps| && j < |s.comps| && s.comps[i].status == Detached && s.comps[i].system == Some(k)
    requires k < |s.systems| && s.systems[k].operative == Some(j) && s.comps[j].status == Resumed && i != j
    requires DoResume(s, i).Ok? && x !in {Park(i), Park(j)}
    ensures Holder(DoResume(s, i).value, x) == Holder(s, x)
  {
  }

  lemma ResumeMoves(s: State, i: nat)
    requires Inv(s) && i < |s.comps| && DoResume(s, i).Ok? && s.comps[i].status != Resumed
    ensures ResumeSink(s, i).Some? && Moved(s, DoResume(s, i).value, Park(i), ResumeSink(s, i))
  {
    hide Linear, Moved;
    var k := s.comps[i].system.value;
    match s.systems[k].operative
    case None => ResumeFromMainMoves(s, i, k);
    case Some(j) => ResumeFromPeerMoves(s, i, k, j);
  }

  /** What a handover writes: the two objects' states and the operative component. */
  lemma HandoverWrites(s: State, i: nat, n: nat)
    requires i < |s.comps| && n < |s.comps| && i != n && DoTerminateResuming(s, i, n).Ok?
    ensures s.comps[n].system.Some? && s.comps[n].system.value < |s.systems| && s.comps[n].status == Detached
    ensures var s', k := DoTerminateResuming(s, i, n).value, s.comps[n].system.value;
            && s.comps[n].park == Some(s'.current) && s'.coros == s.coros && s'.gone == s.gone + {s.current}
            && s'.systems == s.systems[k := s.systems[k].(operative := Some(n))]
            && s'.comps == s.comps[i := s.comps[i].(status := Terminated, park := None)]
                                  [n := s.comps[n].(status := Resumed)]
  {
  }

  lemma HandoverElsewhere(s: State, i: nat, n: nat, x: Slot)
    requires i < |s.comps| && n < |s.comps| && i != n && DoTerminateResuming(s, i, n).Ok?
    requires s.comps[n].system.Some? && x != MainPark(s.comps[n].system.value)
    requires x !in {Park(n), Park(i), AttachedTo(i), Unentered(i)}
    ensures Holder(DoTerminateResuming(s, i, n).value, x) == Holder(s, x)
  {
    HandoverWrites(s, i, n);
    hide DoTerminateResuming;
  }

  lemma TerminateResumingMoves(s: State, i: nat, n: nat)
    requires Inv(s) && Permitted(s, TerminateResuming(i, n)) && DoTerminateResuming(s, i, n).Ok?
    ensures Moved(s, DoTerminateResuming(s, i, n).value, Park(n), None)
  {
    var s', k := DoTerminateResuming(s, i, n).value, s.comps[n].system.value;
    HandoverWrites(s, i, n);
    forall x | x != Park(n) ensures Holder(s', x) == Holder(s, x) {
      if x !in {MainPark(k), Park(i), AttachedTo(i), Unentered(i)} { HandoverElsewhere(s, i, n, x); }
    }
    hide Linear, DoTerminateResuming;
  }

  /** A statement moves control out of its source slot and the stopped coroutine into
      its sink, or does not switch at all. */
  lemma StepMoves(s: State, op: Op)
    requires Inv(s) && Permitted(s, op) && Step(s, op).Ok?
    ensures Source(s, op).Some? ==> Moved(s, Step(s, op).value, Source(s, op).value, Sink(s, op))
    ensures Source(s, op).None? ==> Step(s, op).value.current == s.current && Step(s, op).value.gone == s.gone
  {
    hide Inv, Moved, Holder;
    match op
    case Start(i) => StartMoves(s, i);
    case Detach(i) => if s.comps[i].head.Some? { LeaveMoves(s, i, Detached); }
    case Terminate(i) => LeaveMoves(s, i, Terminated);
    case Call(i) => CallMoves(s, i);
    case Resume(i) => if s.comps[i].status != Resumed { ResumeMoves(s, i); }
    case TerminateResuming(i, n) => TerminateResumingMoves(s, i, n);
    case _ =>
  }

  /** The two record invariants together. */
  ghost predicate Records(s: State) {
    OperativeIffResumed(s) && WellFormed(s)
  }

  lemma RecordsIgnoreCurrent(s: State, s': State)
    requires Records(s) && s'.comps == s.comps && s'.systems == s.systems && s'.coros == s.coros
    ensures Records(s')
  {
  }

  lemma LeftKeepsRecords(s: State, i: nat, next: Status)
    requires WellFormed(s) && OperativeIffResumed(s) && i < |s.comps| && next in {Detached, Terminated}
    requires s.comps[i].head.Some? && s.comps[i].status != Resumed
    ensures Records(Left(s, i, next))
  {
    var s' := Left(s, i, next);
    assert forall j :: 0 <= j < |s.comps| && j != i ==> s'.comps[j] == s.comps[j];
  }

  lemma LeaveResumedKeepsRecords(s: State, i: nat, next: Status)
    requires Records(s) && i < |s.comps| && next in {Detached, Terminated}
    requires s.comps[i].head.Some? && s.comps[i].status == Resumed
    ensures s.comps[i].system.Some?
    ensures Records(Left(WithOperative(s, s.comps[i].system.value, None), i, next))
  {
    var k := s.comps[i].system.value;
    var s1 := Left(WithOperative(s, k, None), i, next);
    assert forall j :: 0 <= j < |s.comps| && j != i ==> s1.comps[j] == s.comps[j];
    assert forall m :: 0 <= m < |s.systems| && m != k ==> s1.systems[m] == s.systems[m];
  }

  lemma LeaveKeepsRecords(s: State, i: nat, next: Status)
    requires Records(s) && i < |s.comps| && next in {Detached, Terminated} && DoLeave(s, i, next).Ok?
    requires s.comps[i].head.Some?
    ensures Records(DoLeave(s, i, next).value)
  {
    hide OperativeIffResumed, WellFormed;
    if s.comps[i].status == Attached {
      assert OperativeIffResumed(s) && WellFormed(s);
      LeftKeepsRecords(s, i, next);
      RecordsIgnoreCurrent(Left(s, i, next), DoLeave(s, i, next).value);
    } else {
      LeaveResumedKeepsRecords(s, i, next);
      RecordsIgnoreCurrent(Left(WithOperative(s, s.comps[i].system.value, None), i, next), DoLeave(s, i, next).value);
    }
  }

  lemma CallKeepsRecords(s: State, i: nat)
    requires Records(s) && i < |s.comps| && DoCall(s, i).Ok?
    ensures Records(DoCall(s, i).value)
  {
  }

  lemma SuspendKeepsRecords(s: State, k: nat)
    requires Records(s) && k < |s.systems| && s.systems[k].open
    ensures var s1 := Suspend(s, k);
            && WellFormed(s1) && |s1.comps| == |s.comps| && |s1.systems| == |s.systems|
            && (forall j :: 0 <= j < |s.comps| && Some(j) != s.systems[k].operative ==> s1.comps[j] == s.comps[j])
            && OperativeIffResumed(WithOperative(s1, k, None)) && s1.systems[k].open
  {
    var s1 := Suspend(s, k);
    match s.systems[k].operative
    case None =>
      assert s1.comps == s.comps;
      assert forall m :: 0 <= m < |s.systems| && m != k ==> s1.systems[m] == s.systems[m];
    case Some(j) =>
      assert s1.systems == s.systems;
      assert forall n :: 0 <= n < |s.comps| && n != j ==> s1.comps[n] == s.comps[n];
  }

  lemma ActivateKeepsRecords(s: State, i: nat, k: nat)
    requires i < |s.comps| && k < |s.systems| && s.systems[k].open
    requires WellFormed(s) && OperativeIffResumed(WithOperative(s, k, None))
    requires s.comps[i].system == Some(k) && s.comps[i].status == Detached
    ensures Records(Activate(s, i, k))
  {
    var s0, s' := WithOperative(s, k, None), Activate(s, i, k);
    assert forall j :: 0 <= j < |s.comps| && j != i ==> s'.comps[j] == s0.comps[j];
    assert forall m :: 0 <= m < |s.systems| && m != k ==> s'.systems[m] == s0.systems[m];
  }

  lemma ResumeKeepsRecords(s: State, i: nat)
    requires Records(s) && i < |s.comps| && SystemOpen(s, i) && DoResume(s, i).Ok?
    ensures Records(DoResume(s, i).value)
  {
    if s.comps[i].status != Resumed {
      var k := s.comps[i].system.value;
      SuspendKeepsRecords(s, k);
      ActivateKeepsRecords(Suspend(s, k), i, k);
    }
  }

  lemma TerminateResumingKeepsRecords(s: State, i: nat, n: nat)
    requires Records(s) && Permitted(s, TerminateResuming(i, n)) && DoTerminateResuming(s, i, n).Ok?
    ensures Records(DoTerminateResuming(s, i, n).value)
  {
    var k := s.comps[n].system.value;
    var s1 := Left(s, i, Terminated);
    EndedKeepsRecords(s, i, k);
    hide OperativeIffResumed, WellFormed;
    ActivateKeepsRecords(s1, n, k);
    RecordsIgnoreCurrent(Activate(s1, n, k), DoTerminateResuming(s, i, n).value);
  }

  /** The operative component of a system has ended. */
  lemma EndedKeepsRecords(s: State, i: nat, k: nat)
    requires Records(s) && i < |s.comps| && k < |s.systems| && s.systems[k].operative == Some(i)
    ensures var s1 := Left(s, i, Terminated);
            WellFormed(s1) && OperativeIffResumed(WithOperative(s1, k, None))
  {
    var s1 := Left(s, i, Terminated);
    assert forall j :: 0 <= j < |s.comps| && j != i ==> s1.comps[j] == s.comps[j];
  }

  lemma StepKeepsRecords(s: State, op: Op)
    requires Inv(s) && Permitted(s, op) && Step(s, op).Ok?
    ensures Records(Step(s, op).value)
  {
    assert s.current < s.coros;
    hide Linear, OperativeIffResumed, SystemOpen;
    assert Records(s);
    match op
    case Create(ref, k) => GrowKeepsRecords(s, DoCreate(s, ref, k), DoCreate(s, ref, k).comps[|s.comps|]);
    case MarkBlock(ref) => GrowKeepsRecords(s, DoMarkBlock(s, ref), DoMarkBlock(s, ref).comps[|s.comps|]);
    case Start(i) => StartKeepsRecords(s, i);
    case Enter => EnterKeepsRecords(s);
    case Exit(k) => ExitKeepsRecords(s, k);
    case Detach(i) =>
      if s.comps[i].head.Some? { LeaveKeepsRecords(s, i, Detached); }
    case Terminate(i) => LeaveKeepsRecords(s, i, Terminated);
    case Call(i) => CallKeepsRecords(s, i);
    case Resume(i) => ResumeKeepsRecords(s, i);
    case TerminateResuming(i, n) => TerminateResumingKeepsRecords(s, i, n);
  }

  lemma GrowKeepsRecords(s: State, s': State, c: Comp)
    requires Records(s) && s'.comps == s.comps + [c] && s'.systems == s.systems
    requires c.status == Attached && c.attachedTo.None? && s.coros <= s'.coros
    requires c.system.Some? ==> c.system.value < |s.systems|
    requires c.head.Some? ==> c.origin < c.head.value < s'.coros
    ensures Records(s')
  {
    assert forall j :: 0 <= j < |s.comps| ==> s'.comps[j] == s.comps[j];
  }

  lemma EnterKeepsRecords(s: State)
    requires Records(s)
    ensures Records(DoEnter(s))
  {
    var s' := DoEnter(s);
    assert forall m :: 0 <= m < |s.systems| ==> s'.systems[m] == s.systems[m];
  }

  lemma ExitKeepsRecords(s: State, k: nat)
    requires Records(s) && k < |s.systems| && s.systems[k].operative.None?
    ensures Records(DoExit(s, k))
  {
    var s' := DoExit(s, k);
    assert forall m :: 0 <= m < |s.systems| && m != k ==> s'.systems[m] == s.systems[m];
  }

  lemma StartKeepsRecords(s: State, i: nat)
    requires Records(s) && Permitted(s, Start(i)) && DoStart(s, i).Ok?
    ensures Records(DoStart(s, i).value)
  {
    var s' := DoStart(s, i).value;
    assert forall j :: 0 <= j < |s.comps| && j != i ==> s'.comps[j] == s.comps[j];
  }

  lemma SameSlotsLinear(s: State, s': State)
    requires Linear(s) && s'.current == s.current && s'.coros == s.coros && s'.gone == s.gone
    requires forall z :: Holder(s', z) == Holder(s, z)
    ensures Linear(s')
  {
    hide Holder;
    forall c | 0 <= c < s'.coros && c != s'.current && c !in s'.gone
      ensures exists z :: Holder(s', z) == Some(c)
    {
      var z :| Holder(s, z) == Some(c);
      assert Holder(s', z) == Some(c);
    }
  }

  lemma CreateSlots(s: State, ref: Addr, system: Option<nat>)
    requires OperativeIffResumed(s)
    ensures var s', slot := DoCreate(s, ref, system), Unentered(|s.comps|);
            && Holder(s', slot) == Some(s.coros) && Holder(s, slot) == None
            && forall z :: z != slot ==> Holder(s', z) == Holder(s, z)
  {
  }

  lemma CreateLinear(s: State, ref: Addr, system: Option<nat>)
    requires Inv(s)
    ensures Linear(DoCreate(s, ref, system))
  {
    var s' := DoCreate(s, ref, system);
    CreateSlots(s, ref, system);
    hide Holder, OperativeIffResumed, WellFormed;
    forall c | 0 <= c < s'.coros && c != s'.current && c !in s'.gone
      ensures exists z :: Holder(s', z) == Some(c)
    {
      if c < s.coros {
        var z :| Holder(s, z) == Some(c);
        assert Holder(s', z) == Some(c);
      }
    }
  }

  /** Statements that do not switch keep every coroutine where it is, a generated
      one excepted, which is new. */
  lemma IdleStepLinear(s: State, op: Op)
    requires Inv(s) && Permitted(s, op) && Step(s, op).Ok? && Source(s, op).None?
    ensures Linear(Step(s, op).value)
  {
    hide Linear;
    if op.Create? {
      CreateLinear(s, op.ref, op.system);
    } else {
      IdleStepSlots(s, op);
      hide Holder, Step, Permitted;
      SameSlotsLinear(s, Step(s, op).value);
    }
  }

  lemma IdleStepSlots(s: State, op: Op)
    requires Inv(s) && Permitted(s, op) && Step(s, op).Ok? && Source(s, op).None? && !op.Create?
    ensures var t := Step(s, op).value;
            && t.current == s.current && t.coros == s.coros && t.gone == s.gone
            && forall z :: Holder(t, z) == Holder(s, z)
  {
    hide Linear, WellFormed;
    match op
    case MarkBlock(_) =>
    case Detach(_) =>
    case Resume(_) =>
    case Enter =>
    case Exit(_) =>
    case _ =>
  }

  /** Linear ownership, and "resumed iff operative", survive every statement. */
  lemma StepInv(s: State, op: Op)
    requires Inv(s) && Permitted(s, op) && Step(s, op).Ok?
    ensures Inv(Step(s, op).value)
  {
    hide Step, Linear, OperativeIffResumed, WellFormed, Moved, Permitted;
    StepKeepsRecords(s, op);
    if Source(s, op).Some? {
      StepMoves(s, op);
      MovedLinear(s, Step(s, op).value, Source(s, op).value, Sink(s, op));
    } else {
      IdleStepLinear(s, op);
    }
  }

  /** Generating an object keeps the invariants, whatever becomes of its system. */
  lemma CreateInv(s: State, ref: Addr, system: Option<nat>)
    requires Inv(s) && (system.Some? ==> system.value < |s.systems|)
    ensures Inv(DoCreate(s, ref, system))
  {
    assert s.current < s.coros;
    CreateLinear(s, ref, system);
    GrowKeepsRecords(s, DoCreate(s, ref, system), DoCreate(s, ref, system).comps[|s.comps|]);
    hide Linear, OperativeIffResumed, WellFormed;
  }
}
