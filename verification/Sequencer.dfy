/** The records and operations of sequencing.c as they stand in memory. Each operation
    updates component and system records in place; `View` reads them back as the
    state that chapter 7 is stated over. */
module Sequencer {
  import opened Prelude
  import opened Chapter7

  const MAX_SYSTEMS: nat := 256

  class Component {
    const id: nat
    const ref: Addr
    const head: Option<Coro>
    const origin: Coro
    var park: Option<Coro>
    var attachedTo: Option<Coro>
    var system: System?
    var state: Status

    constructor (id: nat, ref: Addr, head: Option<Coro>, origin: Coro, system: System?)
      ensures this.id == id && this.ref == ref && this.head == head && this.origin == origin
      ensures park == head && attachedTo == None && this.system == system && state == Attached
    {
      this.id, this.ref, this.head, this.origin := id, ref, head, origin;
      park, attachedTo, this.system, state := head, None, system, Attached;
    }

    ghost function Record(): Comp
      reads this
    {
      Comp(ref, head, park, attachedTo, if system == null then None else Some(system.id), state, origin)
    }
  }

  class System {
    const id: nat
    var mainPark: Coro
    var operative: Component?
    var open: bool

    constructor (id: nat, mainPark: Coro)
      ensures this.id == id && this.mainPark == mainPark && operative == null && open
    {
      this.id, this.mainPark, operative, open := id, mainPark, null, true;
    }

    ghost function Record(): Sys
      reads this
    {
      Sys(mainPark, if operative == null then None else Some(operative.id), open)
    }
  }

  /** An active system head block instance and the coroutine that entered it. */
  datatype Frame = Frame(block: int, system: nat, owner: Coro)

  // ------------------------------------------------------------- systems by block

  /** The system of the newest instance of `block` that `coro` entered. */
  function FrameOf(frames: seq<Frame>, block: int, coro: Coro): Option<nat> {
    if frames == [] then None
    else
      var f := frames[|frames| - 1];
      if f.block == block && f.owner == coro then Some(f.system)
      else FrameOf(frames[..|frames| - 1], block, coro)
  }

  lemma {:induction false} FrameOfIsNewest(frames: seq<Frame>, block: int, coro: Coro)
    ensures match FrameOf(frames, block, coro)
            case None => forall i :: 0 <= i < |frames| ==> frames[i].block != block || frames[i].owner != coro
            case Some(k) =>
              exists i :: && 0 <= i < |frames| && frames[i] == Frame(block, k, coro)
                          && forall j :: i < j < |frames| ==> frames[j].block != block || frames[j].owner != coro
  {
    if frames != [] {
      var last := |frames| - 1;
      var f := frames[last];
      if f.block == block && f.owner == coro {
        assert frames[last] == Frame(block, f.system, coro);
      } else {
        var init, k := frames[..last], FrameOf(frames, block, coro);
        FrameOfIsNewest(init, block, coro);
        hide FrameOf;
        if k.Some? {
          var i :| && 0 <= i < last && init[i] == Frame(block, k.value, coro)
                   && forall j :: i < j < last ==> init[j].block != block || init[j].owner != coro;
          assert frames[i] == Frame(block, k.value, coro);
          assert forall j :: i < j < last ==> frames[j] == init[j];
        } else {
          assert forall j :: 0 <= j < last ==> frames[j] == init[j];
        }
      }
    }
  }

  /** The newest component whose head is `coro`. */
  function RunningOn(comps: seq<Comp>, coro: Coro): (r: Option<nat>)
    ensures r.Some? ==> r.value < |comps| && comps[r.value].head == Some(coro)
                        && forall i :: r.value < i < |comps| ==> comps[i].head != Some(coro)
    ensures r.None? ==> forall i :: 0 <= i < |comps| ==> comps[i].head != Some(coro)
  {
    if comps == [] then None
    else if comps[|comps| - 1].head == Some(coro) then Some(|comps| - 1)
    else RunningOn(comps[..|comps| - 1], coro)
  }

  /** The newest object that has the running coroutine for its head or for its
      reactivation point, live or not. */
  function TouchedBy(comps: seq<Comp>, coro: Coro): (r: Option<nat>)
    ensures r.Some? ==> r.value < |comps| && comps[r.value].head.Some?
                        && (comps[r.value].head == Some(coro) || comps[r.value].park == Some(coro))
                        && forall i :: r.value < i < |comps| && comps[i].head.Some? ==>
                             comps[i].head != Some(coro) && comps[i].park != Some(coro)
    ensures r.None? ==> forall i :: 0 <= i < |comps| && comps[i].head.Some? ==>
                          comps[i].head != Some(coro) && comps[i].park != Some(coro)
  {
    if comps == [] then None
    else
      var c := comps[|comps| - 1];
      if c.head.Some? && (c.head == Some(coro) || c.park == Some(coro)) then Some(|comps| - 1)
      else TouchedBy(comps[..|comps| - 1], coro)
  }

  /** The object a scheduling statement executes in, or NULL. */
  function CurrentRef(s: State): Addr {
    match RunningOn(s.comps, s.current)
    case Some(i) => s.comps[i].ref
    case None =>
      match TouchedBy(s.comps, s.current)
      case Some(i) => s.comps[i].ref
      case None => 0
  }

  /** It is the newest object whose own coroutine runs; failing that, the newest one that
      the running coroutine is the reactivation point of; failing that, NULL. */
  lemma CurrentRefIs(s: State, i: nat)
    ensures i < |s.comps| && s.comps[i].head == Some(s.current)
            && (forall j :: i < j < |s.comps| ==> s.comps[j].head != Some(s.current)) ==>
              CurrentRef(s) == s.comps[i].ref
    ensures (forall j :: 0 <= j < |s.comps| ==> s.comps[j].head != Some(s.current))
            && i < |s.comps| && s.comps[i].head.Some? && s.comps[i].park == Some(s.current)
            && (forall j :: i < j < |s.comps| && s.comps[j].head.Some? ==> s.comps[j].park != Some(s.current)) ==>
              CurrentRef(s) == s.comps[i].ref
    ensures (forall j :: 0 <= j < |s.comps| && s.comps[j].head.Some? ==>
               s.comps[j].head != Some(s.current) && s.comps[j].park != Some(s.current)) ==>
              CurrentRef(s) == 0
  {
  }

  /** The system a generator for a class declared in `block` reports to: that of the
      instance it executes inside, looking outwards along who generated whom. */
  ghost function Resolve(s: State, frames: seq<Frame>, block: int, coro: Coro): nat
    requires WellFormed(s)
  {
    match FrameOf(frames, block, coro)
    case Some(k) => k
    case None =>
      match RunningOn(s.comps, coro)
      case None => 0
      case Some(i) => Resolve(s, frames, block, s.comps[i].origin)
  }

  /** Coroutines from `chain[0]` outwards, each running an object generated by the next. */
  ghost predicate GenerationChain(s: State, chain: seq<Coro>) {
    && |chain| > 0
    && forall i :: 0 <= i < |chain| - 1 ==>
         && RunningOn(s.comps, chain[i]).Some?
         && s.comps[RunningOn(s.comps, chain[i]).value].origin == chain[i + 1]
  }

  /** The system found is that of the nearest coroutine on the generation chain that
      is inside an instance of the block, and the outermost system if none is:
      instances entered by coroutines off the chain never interfere. */
  lemma {:induction false} ResolveNearest(s: State, frames: seq<Frame>, block: int, coro: Coro)
    returns (chain: seq<Coro>)
    requires WellFormed(s)
    ensures GenerationChain(s, chain) && chain[0] == coro
    ensures forall i :: 0 <= i < |chain| - 1 ==> FrameOf(frames, block, chain[i]).None?
    ensures var last := chain[|chain| - 1];
            match FrameOf(frames, block, last)
            case Some(k) => Resolve(s, frames, block, coro) == k
            case None => Resolve(s, frames, block, coro) == 0 && RunningOn(s.comps, last).None?
    decreases coro
  {
    chain := [coro];
    if FrameOf(frames, block, coro).None? && RunningOn(s.comps, coro).Some? {
      var rest := ResolveNearest(s, frames, block, s.comps[RunningOn(s.comps, coro).value].origin);
      chain := [coro] + rest;
      assert forall i :: 1 <= i < |chain| ==> chain[i] == rest[i - 1];
    }
  }

  lemma ResolveHere(s: State, frames: seq<Frame>, block: int, coro: Coro)
    requires WellFormed(s) && FrameOf(frames, block, coro).Some?
    ensures Some(Resolve(s, frames, block, coro)) == FrameOf(frames, block, coro)
  {
  }

  lemma ResolveOutwards(s: State, frames: seq<Frame>, block: int, coro: Coro)
    requires WellFormed(s) && FrameOf(frames, block, coro).None?
    ensures match RunningOn(s.comps, coro)
            case None => Resolve(s, frames, block, coro) == 0
            case Some(i) =>
              && s.comps[i].origin < coro
              && Resolve(s, frames, block, coro) == Resolve(s, frames, block, s.comps[i].origin)
  {
  }

  /** The system found exists and is open. */
  lemma {:induction false} ResolveOpen(s: State, frames: seq<Frame>, block: int, coro: Coro)
    requires WellFormed(s) && FramesOpen(s, frames)
    ensures var k := Resolve(s, frames, block, coro); k < |s.systems| && s.systems[k].open
    decreases coro
  {
    FrameOfIsNewest(frames, block, coro);
    if FrameOf(frames, block, coro).None? && RunningOn(s.comps, coro).Some? {
      ResolveOpen(s, frames, block, s.comps[RunningOn(s.comps, coro).value].origin);
    }
  }

  /** The frames after the newest one of system `k` is dropped, if there is one. */
  function WithoutNewest(frames: seq<Frame>, k: nat): seq<Frame> {
    if frames == [] then []
    else
      var init, last := frames[..|frames| - 1], frames[|frames| - 1];
      if last.system == k then init else WithoutNewest(init, k) + [last]
  }

  lemma {:induction false} WithoutNewestCut(frames: seq<Frame>, k: nat, i: nat)
    requires i <= |frames| && forall j :: i <= j < |frames| ==> frames[j].system != k
    ensures WithoutNewest(frames, k) == WithoutNewest(frames[..i], k) + frames[i..]
  {
    if i == |frames| {
      assert frames[..i] == frames;
    } else {
      var init := frames[..|frames| - 1];
      WithoutNewestCut(init, k, i);
      assert init[..i] == frames[..i] && frames[i..] == init[i..] + [frames[|frames| - 1]];
    }
  }

  lemma {:induction false} WithoutNewestDrops(frames: seq<Frame>, k: nat)
    requires EachOnce(frames)
    ensures EachOnce(WithoutNewest(frames, k))
    ensures forall f :: f in WithoutNewest(frames, k) <==> f in frames && f.system != k
  {
    if frames != [] {
      var init, last := frames[..|frames| - 1], frames[|frames| - 1];
      assert frames == init + [last];
      WithoutNewestDrops(init, k);
      if last.system != k {
        var rest := WithoutNewest(init, k);
        assert forall i :: 0 <= i < |rest| ==> rest[i] in init && rest[i].system != last.system;
      }
    }
  }

  /** No system is entered twice. */
  ghost predicate EachOnce(frames: seq<Frame>) {
    forall i, j :: 0 <= i < j < |frames| ==> frames[i].system != frames[j].system
  }

  /** Every active frame names an open system, each at most once; the outermost system
      is open for good. */
  ghost predicate FramesOpen(s: State, frames: seq<Frame>) {
    && |frames| <= MAX_SYSTEMS && EachOnce(frames)
    && (forall f :: f in frames ==> 0 < f.system < |s.systems| && s.systems[f.system].open)
    && |s.systems| > 0 && s.systems[0].open
  }

  /** Only leaving a block closes a system, so no other statement disturbs the frames. */
  lemma StepKeepsFrames(s: State, frames: seq<Frame>, op: Op)
    requires Inv(s) && Named(s, op) && !op.Exit? && FramesOpen(s, frames) && Step(s, op).Ok?
    ensures FramesOpen(Step(s, op).value, frames)
  {
    hide Inv, EachOnce;
    StepKeepsOpen(s, op);
  }

  lemma StepKeepsOpen(s: State, op: Op)
    requires Named(s, op) && !op.Exit? && Step(s, op).Ok?
    ensures var t := Step(s, op).value;
            |s.systems| <= |t.systems| && forall k :: 0 <= k < |s.systems| ==> t.systems[k].open == s.systems[k].open
  {
  }

  lemma ExitKeepsFrames(s: State, frames: seq<Frame>, k: nat)
    requires FramesOpen(s, frames) && 0 < k < |s.systems|
    ensures FramesOpen(DoExit(s, k), WithoutNewest(frames, k))
    ensures forall f :: f in WithoutNewest(frames, k) ==> f.system != k
  {
    WithoutNewestDrops(frames, k);
    WithoutNewestLength(frames, k);
  }

  lemma {:induction false} WithoutNewestLength(frames: seq<Frame>, k: nat)
    ensures |WithoutNewest(frames, k)| <= |frames|
  {
    if frames != [] {
      WithoutNewestLength(frames[..|frames| - 1], k);
    }
  }

  lemma EnterKeepsFrames(s: State, frames: seq<Frame>, block: int)
    requires FramesOpen(s, frames) && |frames| < MAX_SYSTEMS
    ensures FramesOpen(DoEnter(s), frames + [Frame(block, |s.systems|, s.current)])
  {
    var all := frames + [Frame(block, |s.systems|, s.current)];
    forall i, j | 0 <= i < j < |all| ensures all[i].system != all[j].system {
      assert all[i] in frames;
      assert j < |frames| ==> frames[i].system != frames[j].system;
    }
  }

  lemma SameFrames(s: State, t: State, frames: seq<Frame>)
    requires FramesOpen(s, frames) && t.systems == s.systems
    ensures FramesOpen(t, frames)
  {
  }

  datatype Failure = NoObject | NeverComponent | TooManySystems | Refusal(error: Error)

  class Sequencing {
    var current: Coro
    var coros: nat
    /** Every component and system record, in the order they were made. */
    var all: seq<Component>
    var systems: seq<System>
    var frames: seq<Frame>
    ghost var gone: set<Coro>

    /** Records refer to one another by identity, and no object has two. */
    ghost predicate Linked()
      reads this`all, this`systems, all, systems
    {
      && (forall i :: 0 <= i < |all| ==> all[i].id == i)
      && (forall k :: 0 <= k < |systems| ==> systems[k].id == k)
      && (forall i :: 0 <= i < |all| && all[i].system != null ==>
            all[i].system.id < |systems| && systems[all[i].system.id] == all[i].system)
      && (forall k :: 0 <= k < |systems| && systems[k].operative != null ==>
            systems[k].operative.id < |all| && all[systems[k].operative.id] == systems[k].operative)
      && (forall i, j :: 0 <= i < j < |all| ==> all[i].ref != all[j].ref)
      && (forall i :: 0 <= i < |all| ==> all[i].ref != 0)
      && |systems| > 0
    }

    ghost function View(): State
      reads this, all, systems
    {
      State(current, coros, Comps(all), Systems(systems), gone)
    }

    static ghost function Comps(s: seq<Component>): (r: seq<Comp>)
      reads s
      ensures |r| == |s| && forall i :: 0 <= i < |s| ==> r[i] == s[i].Record()
    {
      seq(|s|, i requires 0 <= i < |s| reads s => s[i].Record())
    }

    static ghost function Systems(s: seq<System>): (r: seq<Sys>)
      reads s
      ensures |r| == |s| && forall k :: 0 <= k < |s| ==> r[k] == s[k].Record()
    {
      seq(|s|, k requires 0 <= k < |s| reads s => s[k].Record())
    }

    /** The program's start: the main coroutine runs and the outermost block is the
        only system. */
    constructor ()
      ensures Linked() && View() == Initial() && frames == [] && FramesOk()
    {
      var outermost := new System(0, 0);
      current, coros, all, systems, frames, gone := 0, 1, [], [outermost], [], {};
      new;
      assert View() == Initial();
    }

    /** The component registered for an object, if any. */
    method ComponentOf(ref: Addr) returns (r: Component?)
      requires Linked()
      ensures r == null ==> ref == 0 || forall i :: 0 <= i < |all| ==> all[i].ref != ref
      ensures r != null ==> r in all && r.ref == ref && r.id < |all| && all[r.id] == r
    {
      if ref == 0 { return null; }
      var i := |all|;
      while i > 0
        invariant 0 <= i <= |all|
        invariant forall j :: i <= j < |all| ==> all[j].ref != ref
      {
        i := i - 1;
        if all[i].ref == ref { return all[i]; }
      }
      return null;
    }

    method Require(ref: Addr) returns (r: Component?, failure: Option<Failure>)
      requires Linked()
      ensures r == null <==> failure.Some?
      ensures r == null ==> failure == Some(if ref == 0 then NoObject else NeverComponent)
      ensures r == null <==> ref == 0 || forall i :: 0 <= i < |all| ==> all[i].ref != ref
      ensures r != null ==> r.ref == ref && r.id < |all| && all[r.id] == r
    {
      r := ComponentOf(ref);
      failure := if r != null then None else Some(if ref == 0 then NoObject else NeverComponent);
    }

    /** The record an object names, as an index into the view. */
    static ghost predicate Names(all: seq<Component>, ref: Addr, i: nat) {
      ref != 0 && i < |all| && all[i].ref == ref
    }

    /** How an outcome of chapter 7 shows: the new state, or the error. */
    ghost predicate Follows(outcome: Outcome, failure: Option<Failure>)
      reads this, all, systems
    {
      match outcome
      case Ok(s) => failure == None && Linked() && View() == s
      case Err(e) => failure == Some(Refusal(e))
    }

    /** The switch that ends every statement. */
    method Switch(to: Option<Coro>, final: bool) returns (failure: Option<Failure>)
      requires Linked()
      modifies this`current
      ensures all == old(all) && systems == old(systems) && Follows(SwitchTo(old(View()), to, final), failure)
    {
      if to == None { return Some(Refusal(SwitchNowhere)); }
      if to.value == current && final { return Some(Refusal(ControlReturned)); }
      current := to.value;
      return None;
    }

    /** Runs the body of a generated object attached to the running coroutine. */
    method ObjectStart(c: Component) returns (failure: Option<Failure>)
      requires Linked() && c.id < |all| && all[c.id] == c
      modifies this`current, c
      ensures all == old(all) && systems == old(systems) && Follows(DoStart(old(View()), c.id), failure)
    {
      ghost var s := View();
      c.attachedTo := Some(current);
      assert View() == WithComp(s, c.id, s.comps[c.id].(attachedTo := Some(current)));
      failure := Switch(c.head, false);
    }

    /** The record of an object that detaches or ends here. */
    method Vacate(self: Component, next: Status)
      requires Linked() && self.id < |all| && all[self.id] == self
      modifies this`gone, self
      ensures Linked() && self.id < |all| && View() == Left(old(View()), self.id, next)
    {
      self.state := next;
      self.park := if next == Terminated then None else Some(current);
      gone := if next == Terminated then gone + {current} else gone;
      assert View().comps == Left(old(View()), self.id, next).comps;
    }

    method SetOperative(system: System, c: Component?)
      requires Linked() && system.id < |systems| && systems[system.id] == system
      requires c != null ==> c.id < |all| && all[c.id] == c
      modifies system
      ensures Linked() && system.id < |systems| && system.operative == c && system.mainPark == old(system.mainPark)
      ensures View() == WithOperative(old(View()), system.id, if c == null then None else Some(c.id))
    {
      system.operative := c;
      assert View().systems
        == WithOperative(old(View()), system.id, if c == null then None else Some(c.id)).systems;
    }

    /** Shared by a detach and an object's final end. */
    method Leave(self: Component, next: Status) returns (failure: Option<Failure>)
      requires Linked() && self.id < |all| && all[self.id] == self
      requires next == Detached || next == Terminated
      modifies this`current, this`gone, self, systems
      ensures all == old(all) && systems == old(systems) && Follows(DoLeave(old(View()), self.id, next), failure)
    {
      hide Linked;
      assert View().comps[self.id] == self.Record();
      if self.state == Attached {
        var target := self.attachedTo;
        Vacate(self, next);
        failure := Switch(target, next == Terminated);
      } else if self.state == Resumed {
        var system := self.system;
        if system == null { return Some(Refusal(NoSystem)); }
        SystemListed(self);
        assert View().systems[system.id] == system.Record();
        SetOperative(system, null);
        var target := Some(system.mainPark);
        Vacate(self, next);
        failure := Switch(target, next == Terminated);
      } else if self.state == Detached {
        failure := Some(Refusal(AlreadyDetached));
      } else {
        failure := Some(Refusal(AlreadyTerminated));
      }
    }

    lemma SystemListed(c: Component)
      requires Linked() && c.id < |all| && all[c.id] == c && c.system != null
      ensures c.system.id < |systems| && systems[c.system.id] == c.system && c.system in systems
    {
    }

    method Detach(ref: Addr) returns (failure: Option<Failure>)
      requires Linked()
      modifies this`current, this`gone, all, systems
      ensures all == old(all) && systems == old(systems)
      ensures (forall i :: !Names(all, ref, i)) ==> failure == Some(if ref == 0 then NoObject else NeverComponent)
      ensures forall i :: Names(all, ref, i) ==> Follows(DoDetach(old(View()), i), failure)
    {
      var self: Component?;
      self, failure := Require(ref);
      if failure != None { return; }
      OneName(self);
      assert View().comps[self.id] == self.Record();
      if self.head == None { return; }
      failure := Leave(self, Detached);
    }

    lemma OneName(c: Component)
      requires Linked() && c.id < |all| && all[c.id] == c
      ensures Names(all, c.ref, c.id) && forall i :: Names(all, c.ref, i) <==> i == c.id
    {
    }

    method Terminate(ref: Addr) returns (failure: Option<Failure>)
      requires Linked()
      modifies this`current, this`gone, all, systems
      ensures all == old(all) && systems == old(systems)
      ensures (forall i :: !Names(all, ref, i)) ==> failure == Some(if ref == 0 then NoObject else NeverComponent)
      ensures forall i :: Names(all, ref, i) ==> Follows(DoLeave(old(View()), i, Terminated), failure)
    {
      var self: Component?;
      self, failure := Require(ref);
      if failure != None { return; }
      OneName(self);
      failure := Leave(self, Terminated);
    }

    method Attach(c: Component)
      requires Linked() && c.id < |all| && all[c.id] == c
      modifies c
      ensures Linked() && c.id < |all| && c.park == old(c.park)
      ensures var s := old(View());
              View() == WithComp(s, c.id, s.comps[c.id].(status := Attached, attachedTo := Some(s.current)))
    {
      c.state := Attached;
      c.attachedTo := Some(current);
      ghost var s := old(View());
      assert View().comps == WithComp(s, c.id, s.comps[c.id].(status := Attached, attachedTo := Some(s.current))).comps;
    }

    method Call(ref: Addr) returns (failure: Option<Failure>)
      requires Linked()
      modifies this`current, all
      ensures all == old(all) && systems == old(systems)
      ensures (forall i :: !Names(all, ref, i)) ==> failure == Some(if ref == 0 then NoObject else NeverComponent)
      ensures forall i :: Names(all, ref, i) ==> Follows(DoCall(old(View()), i), failure)
    {
      var c: Component?;
      c, failure := Require(ref);
      if failure != None { return; }
      OneName(c);
      assert View().comps[c.id] == c.Record();
      hide Linked;
      if c.state != Detached { return Some(Refusal(NotDetached(c.state))); }
      Attach(c);
      failure := Switch(c.park, false);
    }

    /** The operative component of the system stops here. */
    method Stop(system: System)
      requires Linked() && system.id < |systems| && systems[system.id] == system
      modifies all, system
      ensures Linked() && system.id < |systems|
      ensures View() == Suspend(old(View()), system.id)
    {
      ghost var s, k := View(), system.id;
      assert s.systems[k] == system.Record();
      if system.operative == null {
        system.mainPark := current;
        assert View().systems == Suspend(s, k).systems;
      } else {
        Park(system.operative);
      }
    }

    /** A component stops where the program is. */
    method Park(c: Component)
      requires Linked() && c.id < |all| && all[c.id] == c
      modifies c
      ensures Linked() && c.id < |all|
      ensures View() == WithComp(old(View()), c.id,
                          old(View()).comps[c.id].(status := Detached, park := Some(current)))
    {
      ghost var s := View();
      assert s.comps[c.id] == c.Record();
      c.state := Detached;
      c.park := Some(current);
      assert View().comps == s.comps[c.id := s.comps[c.id].(status := Detached, park := Some(current))];
    }

    method SetResumed(c: Component)
      requires Linked() && c.id < |all| && all[c.id] == c
      modifies c
      ensures Linked() && c.id < |all| && c.park == old(c.park)
      ensures View() == WithComp(old(View()), c.id, old(View()).comps[c.id].(status := Resumed))
    {
      c.state := Resumed;
      ghost var s := old(View());
      assert View().comps == WithComp(s, c.id, s.comps[c.id].(status := Resumed)).comps;
    }

    /** The component becomes its system's operative one. */
    method Promote(c: Component, system: System)
      requires Linked() && c.id < |all| && all[c.id] == c
      requires system.id < |systems| && systems[system.id] == system
      modifies c, system
      ensures Linked() && c.id < |all| && system.id < |systems| && c.park == old(c.park)
      ensures View() == Activate(old(View()), c.id, system.id)
    {
      hide Linked;
      SetOperative(system, c);
      SetResumed(c);
    }

    method ResumeComponent(c: Component) returns (failure: Option<Failure>)
      requires Linked() && c.id < |all| && all[c.id] == c
      modifies this`current, all, systems
      ensures all == old(all) && systems == old(systems) && Follows(DoResume(old(View()), c.id), failure)
    {
      hide Linked;
      assert View().comps[c.id] == c.Record();
      if c.system == null { return Some(Refusal(NoSystem)); }
      SystemListed(c);
      if c.state == Resumed { return None; }
      if c.state != Detached { return Some(Refusal(NotDetached(c.state))); }
      var system := c.system;
      Stop(system);
      assert View().comps[c.id] == c.Record();
      Promote(c, system);
      failure := Switch(c.park, false);
    }

    method Resume(ref: Addr) returns (failure: Option<Failure>)
      requires Linked()
      modifies this`current, all, systems
      ensures all == old(all) && systems == old(systems)
      ensures (forall i :: !Names(all, ref, i)) ==> failure == Some(if ref == 0 then NoObject else NeverComponent)
      ensures forall i :: Names(all, ref, i) ==> Follows(DoResume(old(View()), i), failure)
    {
      var c: Component?;
      c, failure := Require(ref);
      if failure != None { return; }
      OneName(c);
      failure := ResumeComponent(c);
    }

    method HandOver(self: Component, target: Component) returns (failure: Option<Failure>)
      requires Linked() && self.id < |all| && all[self.id] == self && target.id < |all| && all[target.id] == target
      modifies this`current, this`gone, all, systems
      ensures all == old(all) && systems == old(systems)
      ensures Follows(DoTerminateResuming(old(View()), self.id, target.id), failure)
    {
      hide Linked;
      assert View().comps[target.id] == target.Record();
      var system := target.system;
      if system == null { return Some(Refusal(NoSystem)); }
      SystemListed(target);
      if target.state != Detached { return Some(Refusal(NotDetached(target.state))); }
      Vacate(self, Terminated);
      assert View().comps[target.id] == target.Record();
      Promote(target, system);
      failure := Switch(target.park, true);
    }

    /** The active process ends and the next one takes over, as one switch. */
    method TerminateResuming(ref: Addr, next: Addr) returns (failure: Option<Failure>)
      requires Linked()
      modifies this`current, this`gone, all, systems
      ensures all == old(all) && systems == old(systems)
      ensures forall i, n :: Names(all, ref, i) && Names(all, next, n) ==>
                Follows(DoTerminateResuming(old(View()), i, n), failure)
      ensures (forall i :: !Names(all, ref, i)) ==> failure == Some(if ref == 0 then NoObject else NeverComponent)
      ensures (exists i :: Names(all, ref, i)) && (forall n :: !Names(all, next, n)) ==>
                failure == Some(if next == 0 then NoObject else NeverComponent)
    {
      hide Linked, Follows, DoTerminateResuming, View;
      var self: Component?, target: Component?;
      self, failure := Require(ref);
      if failure != None { return; }
      target, failure := Require(next);
      OneName(self);
      if failure != None { return; }
      OneName(target);
      failure := HandOver(self, target);
    }

    method ComponentRunningOn(coro: Coro) returns (r: Component?)
      requires Linked()
      ensures match RunningOn(View().comps, coro)
              case None => r == null
              case Some(i) => r == all[i] && r.origin == View().comps[i].origin && r.ref == View().comps[i].ref
    {
      ghost var comps := View().comps;
      var i := |all|;
      assert comps[..i] == comps;
      while i > 0
        invariant 0 <= i <= |all| && comps == View().comps
        invariant RunningOn(comps[..i], coro) == RunningOn(comps, coro)
      {
        assert comps[..i][..i - 1] == comps[..i - 1];
        assert comps[i - 1] == all[i - 1].Record();
        i := i - 1;
        if all[i].head == Some(coro) { return all[i]; }
      }
      return null;
    }

    /** The object whose stack is executing; failing that, the newest object that has
        the running coroutine for its reactivation point. */
    method CurrentObject() returns (ref: Addr)
      requires Linked()
      ensures ref == CurrentRef(View())
    {
      var c := ComponentRunningOn(current);
      if c != null { return c.ref; }
      ref := TouchedObject();
    }

    method TouchedObject() returns (ref: Addr)
      requires Linked()
      ensures match TouchedBy(View().comps, current)
              case None => ref == 0
              case Some(i) => ref == View().comps[i].ref
    {
      ghost var comps := View().comps;
      var i := |all|;
      assert comps[..i] == comps;
      while i > 0
        invariant 0 <= i <= |all| && comps == View().comps
        invariant TouchedBy(comps[..i], current) == TouchedBy(comps, current)
      {
        assert comps[..i][..i - 1] == comps[..i - 1];
        assert comps[i - 1] == all[i - 1].Record();
        i := i - 1;
        if all[i].head != None && (all[i].head == Some(current) || all[i].park == Some(current)) {
          return all[i].ref;
        }
      }
      ref := 0;
    }

    method NewestFrame(block: int, coro: Coro) returns (system: Option<nat>)
      ensures system == FrameOf(frames, block, coro)
    {
      var i := |frames|;
      assert frames[..i] == frames;
      while i > 0
        invariant 0 <= i <= |frames| && FrameOf(frames[..i], block, coro) == FrameOf(frames, block, coro)
      {
        assert frames[..i][..i - 1] == frames[..i - 1];
        i := i - 1;
        if frames[i].block == block && frames[i].owner == coro { return Some(frames[i].system); }
      }
      return None;
    }

    /** One step outwards: the system entered by `coro` itself, or where to look next. */
    method LookFrom(block: int, coro: Coro) returns (found: Option<nat>, next: Coro)
      requires Linked() && WellFormed(View())
      ensures found.Some? ==> Resolve(View(), frames, block, coro) == found.value
      ensures found.None? ==>
                next < coro && Resolve(View(), frames, block, coro) == Resolve(View(), frames, block, next)
    {
      hide Linked, WellFormed, Resolve;
      next := coro;
      found := NewestFrame(block, coro);
      if found != None {
        ResolveHere(View(), frames, block, coro);
        return;
      }
      ResolveOutwards(View(), frames, block, coro);
      var c := ComponentRunningOn(coro);
      if c == null { return Some(0), coro; }
      next := c.origin;
    }

    /** Block 0 stands for a class body or procedure body, which heads no system. */
    method SystemForBlock(block: int) returns (system: Option<nat>)
      requires Linked() && WellFormed(View())
      ensures system == if block == 0 then None else Some(Resolve(View(), frames, block, current))
    {
      if block == 0 { return None; }
      hide Linked, WellFormed, Resolve, View;
      var coro := current;
      system := None;
      while system == None
        invariant match system
                  case None => Resolve(View(), frames, block, coro) == Resolve(View(), frames, block, current)
                  case Some(k) => k == Resolve(View(), frames, block, current)
        decreases if system == None then coro + 1 else 0
      {
        system, coro := LookFrom(block, coro);
      }
    }

    /** The frames of the blocks that have been entered and not left. */
    ghost predicate FramesOk()
      reads this, all, systems
    {
      FramesOpen(View(), frames)
    }

    /** Enters a new record in the list of all components. */
    method Enlist(c: Component)
      requires Linked() && c.id == |all| && c.ref != 0
      requires forall i :: 0 <= i < |all| ==> all[i].ref != c.ref
      requires c.system != null ==> c.system.id < |systems| && systems[c.system.id] == c.system
      modifies this`all
      ensures Linked() && all == old(all) + [c]
      ensures View() == old(View()).(comps := old(View()).comps + [c.Record()])
    {
      all := all + [c];
      assert View().comps == old(View()).comps + [c.Record()];
    }

    /** The system an object of a class declared in `block` reports to, which is open. */
    method OwningSystem(block: int) returns (system: System?)
      requires Linked() && WellFormed(View()) && FramesOk()
      ensures block == 0 ==> system == null
      ensures block != 0 ==>
                && system != null && system.id == Resolve(View(), frames, block, current) < |systems|
                && systems[system.id] == system && system.open && View().systems[system.id].open
    {
      hide FramesOpen, Resolve;
      var k := SystemForBlock(block);
      ResolveOpen(View(), frames, block, current);
      if k == None { return null; }
      system := systems[k.value];
      assert View().systems[k.value] == system.Record();
    }

    /** Prepares an object's component without running it. */
    method ObjectCreate(block: int, ref: Addr) returns (c: Component)
      requires Linked() && WellFormed(View()) && FramesOk()
      requires ref != 0 && forall i :: 0 <= i < |all| ==> all[i].ref != ref
      modifies this`coros, this`all
      ensures Linked() && c.id < |all| && all[c.id] == c && c.ref == ref && fresh(c)
      ensures all == old(all) + [c]
      ensures var system := if block == 0 then None else Some(Resolve(old(View()), frames, block, current));
              && View() == DoCreate(old(View()), ref, system)
              && Permitted(old(View()), Create(ref, system))
              && (system.Some? ==> old(View()).systems[system.value].open)
      ensures FramesOk()
    {
      hide WellFormed, Resolve, FramesOpen, Linked;
      ghost var s := View();
      var system := OwningSystem(block);
      InList(system);
      c := new Component(|all|, ref, Some(coros), current, system);
      coros := coros + 1;
      Enlist(c);
      SameFrames(s, View(), frames);
    }

    lemma InList(system: System?)
      requires Linked()
      ensures system != null && system.id < |systems| && systems[system.id] == system ==> system in systems
    {
    }

    /** Notes a prefixed block instance, which has a detach attribute but is no object. */
    method BlockInstance(ref: Addr)
      requires Linked()
      requires ref != 0 && forall i :: 0 <= i < |all| ==> all[i].ref != ref
      modifies this`all
      ensures Linked() && |all| == |old(all)| + 1 && all[..|old(all)|] == old(all)
      ensures View() == DoMarkBlock(old(View()), ref)
    {
      var c := new Component(|all|, ref, None, current, null);
      Enlist(c);
    }

    method SystemEnter(block: int) returns (failure: Option<Failure>)
      requires Linked() && FramesOk()
      modifies this`systems, this`frames
      ensures failure == if |old(frames)| == MAX_SYSTEMS then Some(TooManySystems) else None
      ensures failure != None ==> frames == old(frames) && View() == old(View())
      ensures failure == None ==>
                && Linked() && FramesOk() && View() == DoEnter(old(View()))
                && frames == old(frames) + [Frame(block, |old(systems)|, current)]
    {
      if |frames| == MAX_SYSTEMS { return Some(TooManySystems); }
      ghost var s := View();
      EnterKeepsFrames(s, frames, block);
      hide FramesOpen;
      var system := new System(|systems|, current);
      systems := systems + [system];
      frames := frames + [Frame(block, system.id, current)];
      assert View().systems == DoEnter(s).systems;
      return None;
    }

    /** Drops the newest frame of a system, which need not be the newest frame. */
    method DropFrame(k: nat)
      modifies this`frames
      ensures frames == WithoutNewest(old(frames), k)
    {
      var i := |frames|;
      while i > 0
        invariant 0 <= i <= |frames| && frames == old(frames)
        invariant forall j :: i <= j < |frames| ==> frames[j].system != k
      {
        if frames[i - 1].system == k {
          WithoutNewestCut(frames, k, i);
          assert frames[..i][..i - 1] == frames[..i - 1];
          frames := frames[..i - 1] + frames[i..];
          return;
        }
        i := i - 1;
      }
      WithoutNewestCut(frames, k, 0);
    }

    /** Leaves a system head block. */
    method SystemExit(system: System)
      requires Linked() && FramesOk() && 0 < system.id < |systems| && systems[system.id] == system
      modifies this`frames, system
      ensures Linked() && FramesOk() && View() == DoExit(old(View()), system.id)
      ensures frames == WithoutNewest(old(frames), system.id)
      ensures forall f :: f in frames ==> f.system != system.id
    {
      hide FramesOpen, EachOnce;
      ghost var s, was := View(), frames;
      DropFrame(system.id);
      system.open := false;
      assert View().systems == DoExit(s, system.id).systems;
      ExitKeepsFrames(s, was, system.id);
    }
  }
}
