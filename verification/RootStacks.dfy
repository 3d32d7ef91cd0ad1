/** Precise root frames and their hand-over between coroutines: the root list of
    gc.c and the bookkeeping half of a stack switch in coro.c.

    The running coroutine's frame list starts at `roots`; every other registered
    coroutine keeps the head of its own list in `gcRoots`. */
module RootStacks {
  import opened Prelude

  type Coro = nat       // 0 is NULL

  const UINT32_MAX: int := 0xffff_ffff

  datatype Frame = Frame(prev: Addr, slots: seq<nat>)

  /** The frame list starting at `head` is exactly `s`, newest first. */
  ghost predicate Chain(frames: map<Addr, Frame>, head: Addr, s: seq<Addr>)
    decreases |s|
  {
    if s == [] then head == 0
    else head == s[0] != 0 && head in frames && Chain(frames, frames[head].prev, s[1..])
  }

  lemma {:induction false} ChainPresent(frames: map<Addr, Frame>, head: Addr, s: seq<Addr>)
    requires Chain(frames, head, s)
    ensures forall f :: f in s ==> f != 0 && f in frames
    decreases |s|
  {
    if s != [] {
      ChainPresent(frames, frames[head].prev, s[1..]);
      assert s == [s[0]] + s[1..];
    }
  }

  lemma {:induction false} ChainUntouched(
    frames: map<Addr, Frame>, head: Addr, s: seq<Addr>, frame: Addr, f: Frame)
    requires Chain(frames, head, s)
    requires frame !in s || (frame in frames && f.prev == frames[frame].prev)
    ensures Chain(frames[frame := f], head, s)
    decreases |s|
  {
    if s != [] {
      ChainUntouched(frames, frames[head].prev, s[1..], frame, f);
    }
  }

  /** A list address determines its list: following `prev` has one outcome. */
  lemma {:induction false} ChainUnique(frames: map<Addr, Frame>, head: Addr, s: seq<Addr>, t: seq<Addr>)
    requires Chain(frames, head, s) && Chain(frames, head, t)
    ensures s == t
    decreases |s|
  {
    if s != [] && t != [] {
      ChainUnique(frames, frames[head].prev, s[1..], t[1..]);
      assert s == [head] + s[1..] && t == [head] + t[1..];
    }
  }

  lemma {:induction false} ChainSuffix(frames: map<Addr, Frame>, head: Addr, s: seq<Addr>, i: nat)
    requires Chain(frames, head, s) && i <= |s|
    ensures Chain(frames, if i < |s| then s[i] else 0, s[i..])
    decreases i
  {
    if i > 0 {
      ChainSuffix(frames, frames[head].prev, s[1..], i - 1);
      assert s[1..][i - 1..] == s[i..];
    }
  }

  /** A list that ends has no frame twice. */
  lemma ChainAcyclic(frames: map<Addr, Frame>, head: Addr, s: seq<Addr>)
    requires Chain(frames, head, s)
    ensures Unique(s)
  {
    forall i, j | 0 <= i < j < |s|
      ensures s[i] != s[j]
    {
      ChainSuffix(frames, head, s, i);
      ChainSuffix(frames, head, s, j);
      if s[i] == s[j] {
        ChainUnique(frames, s[i], s[i..], s[j..]);
      }
    }
  }

  /** The words held by the slots of a list of frames, in visiting order. */
  ghost function ChainWords(frames: map<Addr, Frame>, s: seq<Addr>): seq<nat> {
    if s == [] then []
    else (if s[0] in frames then frames[s[0]].slots else []) + ChainWords(frames, s[1..])
  }

  lemma {:induction false} ChainWordsMember(frames: map<Addr, Frame>, s: seq<Addr>, w: nat)
    ensures w in ChainWords(frames, s) <==> exists f :: f in s && f in frames && w in frames[f].slots
  {
    if s != [] {
      ChainWordsMember(frames, s[1..], w);
      assert s == [s[0]] + s[1..];
    }
  }

  lemma {:induction false} ChainWordsAppend(frames: map<Addr, Frame>, s: seq<Addr>, t: seq<Addr>)
    ensures ChainWords(frames, s + t) == ChainWords(frames, s) + ChainWords(frames, t)
  {
    if s == [] {
      assert s + t == t;
    } else {
      assert (s + t)[1..] == s[1..] + t;
      ChainWordsAppend(frames, s[1..], t);
    }
  }

  /** The frame lists of the coroutines in `order`, one after another. */
  ghost function ListedFrames(stacks: map<Coro, seq<Addr>>, order: seq<Coro>): seq<Addr>
    requires forall c :: c in order ==> c in stacks
  {
    if order == [] then [] else stacks[order[0]] + ListedFrames(stacks, order[1..])
  }

  /** The frame is in no list. */
  ghost predicate Unlinked(stacks: map<Coro, seq<Addr>>, frame: Addr) {
    forall c :: c in stacks ==> frame !in stacks[c]
  }

  /** No frame is linked into two lists. */
  ghost predicate Disjoint(stacks: map<Coro, seq<Addr>>) {
    forall c, d, f :: c in stacks && d in stacks && f in stacks[c] && f in stacks[d] ==> c == d
  }

  lemma {:induction false} ListedFramesNext(stacks: map<Coro, seq<Addr>>, order: seq<Coro>, i: nat)
    requires (forall c :: c in order ==> c in stacks) && i < |order|
    ensures ListedFrames(stacks, order[..i + 1]) == ListedFrames(stacks, order[..i]) + stacks[order[i]]
  {
    if i == 0 {
      assert order[..1] == [order[0]];
    } else {
      ListedFramesNext(stacks, order[1..], i - 1);
      assert order[..i + 1][1..] == order[1..][..i] && order[..i][1..] == order[1..][..i - 1];
    }
  }

  lemma {:induction false} ListedFramesMember(stacks: map<Coro, seq<Addr>>, order: seq<Coro>, f: Addr)
    requires forall c :: c in order ==> c in stacks
    ensures f in ListedFrames(stacks, order) <==> exists c :: c in order && f in stacks[c]
  {
    if order != [] {
      ListedFramesMember(stacks, order[1..], f);
      assert order == [order[0]] + order[1..];
    }
  }

  lemma {:induction false} ListedFramesUnique(stacks: map<Coro, seq<Addr>>, order: seq<Coro>)
    requires forall c :: c in order ==> c in stacks && Unique(stacks[c])
    requires Unique(order) && Disjoint(stacks)
    ensures Unique(ListedFrames(stacks, order))
  {
    if order != [] {
      ListedFramesUnique(stacks, order[1..]);
      var first, rest := stacks[order[0]], ListedFrames(stacks, order[1..]);
      forall i, j | 0 <= i < |first| && 0 <= j < |rest|
        ensures first[i] != rest[j]
      {
        ListedFramesMember(stacks, order[1..], rest[j]);
      }
    }
  }

  /** Every step a program can take on root lists, for the record of a run. */
  datatype Event =
    | Register(coro: Coro)
    | Push(frame: Addr)
    | Pop
    | SwitchTo(coro: Coro)

  /** What a run leaves: who is running, and what each coroutine has pushed and not
      yet popped, newest first. Coroutine 0 stands for a thread not yet adopted. */
  datatype Pending = Pending(running: Coro, stacks: map<Coro, seq<Addr>>)

  ghost function Apply(p: Pending, e: Event): Pending
    requires p.running in p.stacks
  {
    var own := p.stacks[p.running];
    match e
    case Register(c) =>
      if p.running == 0 then Pending(c, map[c := own])
      else p.(stacks := p.stacks[c := []])
    case Push(f) => p.(stacks := p.stacks[p.running := [f] + own])
    case Pop => p.(stacks := p.stacks[p.running := if own == [] then [] else own[1..]])
    case SwitchTo(c) => if c in p.stacks then p.(running := c) else p
  }

  /** The record of a whole run, oldest event first. */
  ghost function Replay(events: seq<Event>): (p: Pending)
    ensures p.running in p.stacks
  {
    if events == [] then Pending(0, map[0 := []])
    else Apply(Replay(events[..|events| - 1]), events[|events| - 1])
  }

  /** Callers only push a frame that is not linked, and only register a coroutine
      once. */
  ghost predicate Lawful(events: seq<Event>) {
    events == []
    || (var before := Replay(events[..|events| - 1]);
        && Lawful(events[..|events| - 1])
        && match events[|events| - 1]
           case Push(f) => Unlinked(before.stacks, f)
           case Register(c) => c !in before.stacks
           case _ => true)
  }

  /** In a lawful run no frame is ever pending on two coroutines. */
  lemma {:induction false} LawfulDisjoint(events: seq<Event>)
    requires Lawful(events)
    ensures Disjoint(Replay(events).stacks)
  {
    if events != [] {
      LawfulDisjoint(events[..|events| - 1]);
    }
  }

  lemma ReplayNext(events: seq<Event>, e: Event)
    ensures Replay(events + [e]) == Apply(Replay(events), e)
    ensures Lawful(events + [e]) ==
            (Lawful(events)
             && match e
                case Push(f) => Unlinked(Replay(events).stacks, f)
                case Register(c) => c !in Replay(events).stacks
                case _ => true)
  {
    assert (events + [e])[..|events|] == events;
  }

  /** The root lists as they stand in memory hold exactly `stacks`. */
  ghost predicate Linked(
    frames: map<Addr, Frame>, roots: Addr, current: Coro,
    gcRoots: map<Coro, Addr>, stacks: map<Coro, seq<Addr>>)
  {
    && 0 !in gcRoots
    && (current != 0 ==> current in gcRoots)
    && (current == 0 ==> forall c :: c !in gcRoots)
    && (forall c :: c in stacks <==> c in gcRoots || c == current)
    && Chain(frames, roots, stacks[current])
    && (forall c :: c in gcRoots && c != current ==> Chain(frames, gcRoots[c], stacks[c]))
  }

  lemma LinkedRegister(
    frames: map<Addr, Frame>, roots: Addr, current: Coro,
    gcRoots: map<Coro, Addr>, stacks: map<Coro, seq<Addr>>, coro: Coro)
    requires Linked(frames, roots, current, gcRoots, stacks)
    requires coro != 0 && coro !in gcRoots && current != 0
    ensures Linked(frames, roots, current, gcRoots[coro := 0], stacks[coro := []])
  {
  }

  lemma LinkedSwitch(
    frames: map<Addr, Frame>, roots: Addr, current: Coro,
    gcRoots: map<Coro, Addr>, stacks: map<Coro, seq<Addr>>, to: Coro)
    requires Linked(frames, roots, current, gcRoots, stacks)
    requires to in gcRoots && current != to && current != 0
    ensures Linked(frames, gcRoots[to], to, gcRoots[current := roots], stacks)
  {
  }

  lemma LinkedPush(
    frames: map<Addr, Frame>, roots: Addr, current: Coro,
    gcRoots: map<Coro, Addr>, stacks: map<Coro, seq<Addr>>, frame: Addr, slots: seq<nat>)
    requires Linked(frames, roots, current, gcRoots, stacks)
    requires frame != 0 && Unlinked(stacks, frame)
    ensures Linked(frames[frame := Frame(roots, slots)], frame, current, gcRoots,
                   stacks[current := [frame] + stacks[current]])
  {
    ChainUntouched(frames, roots, stacks[current], frame, Frame(roots, slots));
    assert ([frame] + stacks[current])[1..] == stacks[current];
    forall c | c in gcRoots && c != current
      ensures Chain(frames[frame := Frame(roots, slots)], gcRoots[c], stacks[c])
    {
      ChainUntouched(frames, gcRoots[c], stacks[c], frame, Frame(roots, slots));
    }
  }

  lemma LinkedPop(
    frames: map<Addr, Frame>, roots: Addr, current: Coro,
    gcRoots: map<Coro, Addr>, stacks: map<Coro, seq<Addr>>)
    requires Linked(frames, roots, current, gcRoots, stacks)
    requires stacks[current] != []
    ensures Linked(frames, frames[roots].prev, current, gcRoots,
                   stacks[current := stacks[current][1..]])
  {
  }

  /** `NullFrame` is a pop from an empty list that names no frame, which reads through NULL. */
  datatype Status = Done | Panic | NullFrame

  class Stacks {
    var frames: map<Addr, Frame>
    var roots: Addr
    var all: seq<Coro>
    var main: Coro
    var current: Coro
    var gcRoots: map<Coro, Addr>
    /** The run so far, and what it leaves pushed and not yet popped. */
    ghost var history: seq<Event>
    ghost var pending: Pending

    ghost predicate Valid()
      reads this
    {
      && Linked(frames, roots, current, gcRoots, Pushed())
      && Unique(all) && (forall c :: c in gcRoots <==> c in all)
      && (if current == 0 then main == 0 else main in gcRoots)
      && pending == Replay(history) && pending.running == current && Lawful(history)
    }

    /** What every coroutine has pushed and not yet popped, newest first. */
    ghost function Pushed(): map<Coro, seq<Addr>>
      reads this
    {
      pending.stacks
    }

    constructor ()
      ensures Valid() && history == [] && current == 0
    {
      frames, roots, all, main, current := map[], 0, [], 0, 0;
      gcRoots := map[];
      history, pending := [], Pending(0, map[0 := []]);
    }

    /** The coroutine standing for the thread, adopted on first use. */
    method MainCoroutine(adopted: Coro) returns (coro: Coro)
      requires Valid()
      requires adopted != 0
      modifies this
      ensures Valid() && coro == main && main != 0 && current != 0
      ensures old(current) != 0 ==> unchanged(this)
      ensures old(current) == 0 ==>
                && current == adopted && all == [adopted] && Pushed() == map[adopted := old(Pushed())[0]]
                && history == old(history) + [Event.Register(adopted)]
      ensures frames == old(frames)
    {
      if main == 0 {
        ReplayNext(history, Event.Register(adopted));
        history, pending := history + [Event.Register(adopted)], Apply(pending, Event.Register(adopted));
        all, gcRoots := [adopted], map[adopted := 0];
        main, current := adopted, adopted;
      }
      coro := main;
    }

    /** Enters a coroutine in the list of all, its own root list empty. */
    method Register(coro: Coro)
      requires Valid()
      requires coro != 0 && current != 0 && coro !in gcRoots
      modifies this
      ensures Valid() && all == [coro] + old(all)
      ensures Pushed() == old(Pushed())[coro := []] && history == old(history) + [Event.Register(coro)]
      ensures current == old(current) && frames == old(frames)
    {
      hide Chain, Replay, Lawful, Unlinked;
      LinkedRegister(frames, roots, current, gcRoots, Pushed(), coro);
      ReplayNext(history, Event.Register(coro));
      history, pending := history + [Event.Register(coro)], Apply(pending, Event.Register(coro));
      all, gcRoots := [coro] + all, gcRoots[coro := 0];
    }

    /** A new coroutine, not yet entered; the thread is adopted first. */
    method Create(coro: Coro, adopted: Coro)
      requires Valid()
      requires coro != 0 && adopted != 0 && coro != adopted && coro !in gcRoots
      modifies this
      ensures Valid() && coro in all
      ensures current == (if old(current) == 0 then adopted else old(current)) != coro
      ensures Pushed() == (if old(current) == 0 then map[adopted := old(Pushed())[0]] else old(Pushed()))[coro := []]
      ensures history == old(history) + (if old(current) == 0 then [Event.Register(adopted)] else [])
                         + [Event.Register(coro)]
      ensures frames == old(frames)
    {
      var _ := MainCoroutine(adopted);
      assert all[0] in all;
      Register(coro);
    }

    /** Suspends the running coroutine and continues `to`. */
    method Switch(to: Coro) returns (status: Status)
      requires Valid() && current != 0
      requires to == 0 || to in gcRoots
      modifies this
      ensures Valid()
      ensures frames == old(frames) && all == old(all)
      ensures status == Panic <==> to == 0
      ensures status == Panic ==> unchanged(this)
      ensures status == Done ==> current == to && Pushed() == old(Pushed())
      ensures status == Done && to != old(current) ==>
                && gcRoots[old(current)] == old(roots) && roots == old(gcRoots)[to]
                && history == old(history) + [SwitchTo(to)]
      ensures to == old(current) ==> unchanged(this)
    {
      if to == 0 { return Panic; }
      if current == to { return Done; }
      hide Chain, Replay, Lawful, Unlinked;
      LinkedSwitch(frames, roots, current, gcRoots, Pushed(), to);
      ReplayNext(history, SwitchTo(to));
      history, pending := history + [SwitchTo(to)], Apply(pending, SwitchTo(to));
      gcRoots := gcRoots[current := roots];
      current := to;
      roots := gcRoots[to];
      return Done;
    }

    /** Links a frame of `nslots` cleared slots; a malformed request is ignored. */
    method RootPush(frame: Addr, nslots: int)
      requires Valid()
      requires Unlinked(Pushed(), frame)
      modifies this
      ensures Valid()
      ensures current == old(current) && all == old(all)
      ensures frame == 0 || nslots < 0 || nslots > UINT32_MAX ==> unchanged(this)
      ensures frame != 0 && 0 <= nslots <= UINT32_MAX ==>
                && Pushed() == old(Pushed())[current := [frame] + old(Pushed())[current]]
                && history == old(history) + [Push(frame)] && frames == old(frames)[frame := frames[frame]]
                && |frames[frame].slots| == nslots
                && (forall w :: w in frames[frame].slots ==> w == 0)
    {
      if frame == 0 || nslots < 0 || nslots > UINT32_MAX { return; }
      LinkFrame(frame, seq(nslots, _ => 0));
    }

    method LinkFrame(frame: Addr, cleared: seq<nat>)
      requires Valid() && frame != 0 && Unlinked(Pushed(), frame)
      modifies this`frames, this`roots, this`history, this`pending
      ensures Valid() && frames == old(frames)[frame := Frame(old(roots), cleared)]
      ensures Pushed() == old(Pushed())[current := [frame] + old(Pushed())[current]]
      ensures history == old(history) + [Push(frame)]
    {
      hide Linked, Chain, Replay, Lawful, Unlinked, Unique;
      LinkedPush(frames, roots, current, gcRoots, Pushed(), frame, cleared);
      frames := frames[frame := Frame(roots, cleared)];
      roots := frame;
      ReplayNext(history, Push(frame));
      history, pending := history + [Push(frame)], Apply(pending, Push(frame));
    }

    /** Unlinks the newest frame of the running coroutine; any other is fatal. */
    method RootPop(frame: Addr) returns (status: Status)
      requires Valid()
      modifies this
      ensures Valid()
      ensures frames == old(frames) && current == old(current) && all == old(all)
      ensures status == Done <==> old(Pushed())[current] != [] && old(Pushed())[current][0] == frame
      ensures status == NullFrame <==> old(Pushed())[current] == [] && frame == 0
      ensures status != Done ==> unchanged(this)
      ensures status == Done ==>
                Pushed() == old(Pushed())[current := old(Pushed())[current][1..]] && history == old(history) + [Pop]
    {
      if roots != frame { return Panic; }
      if frame == 0 { return NullFrame; }
      LinkedPop(frames, roots, current, gcRoots, Pushed());
      roots := frames[frame].prev;
      ReplayNext(history, Pop);
      history, pending := history + [Pop], Apply(pending, Pop);
      return Done;
    }

    /** Generated code storing a pointer into a slot of a linked frame. */
    method StoreSlot(frame: Addr, slot: nat, word: nat)
      requires Valid()
      requires frame in frames && slot < |frames[frame].slots|
      modifies this`frames
      ensures Valid()
      ensures frames == old(frames)[frame := Frame(old(frames)[frame].prev, old(frames)[frame].slots[slot := word])]
    {
      var f := frames[frame];
      forall c | c in Pushed()
        ensures Chain(frames[frame := f.(slots := f.slots[slot := word])], if c == current then roots else gcRoots[c], Pushed()[c])
      {
        assert c == current || c in all;
        ChainUntouched(frames, if c == current then roots else gcRoots[c], Pushed()[c], frame,
                       f.(slots := f.slots[slot := word]));
      }
      frames := frames[frame := f.(slots := f.slots[slot := word])];
    }

    /** The coroutines whose lists are parked, newest registration first. */
    ghost function ParkedOrder(): (r: seq<Coro>)
      reads this
      ensures forall c :: c in r <==> c in all && c != current
      ensures Unique(all) ==> Unique(r)
    {
      var r := Keep(all, Elems(all) - {current});
      assert forall c :: c in r <==> c in Elems(r);
      r
    }

    /** The heads the collector is shown: every registered coroutine's but the
        running one's. */
    method VisitParkedHeads() returns (heads: seq<Addr>)
      requires Valid()
      ensures |heads| == |ParkedOrder()|
      ensures forall i :: 0 <= i < |heads| ==>
                && ParkedOrder()[i] in Pushed()
                && Chain(frames, heads[i], Pushed()[ParkedOrder()[i]])
    {
      hide Replay, Lawful, Chain;
      heads := [];
      ghost var owners: seq<Coro> := [];
      var i := 0;
      while i < |all|
        invariant 0 <= i <= |all|
        invariant |heads| == |owners|
        invariant owners == Keep(all[..i], Elems(all) - {current})
        invariant forall k :: 0 <= k < |heads| ==>
                    && owners[k] in Pushed()
                    && Chain(frames, heads[k], Pushed()[owners[k]])
      {
        KeepNext(all, i, Elems(all) - {current});
        if all[i] != current {
          heads, owners := heads + [gcRoots[all[i]]], owners + [all[i]];
        }
        i := i + 1;
      }
      assert all[..i] == all;
    }

    /** The frames a collection walks: the running list, then each parked one. */
    ghost function VisitedFrames(): seq<Addr>
      reads this
      requires Valid()
    {
      Pushed()[current] + ListedFrames(Pushed(), ParkedOrder())
    }

    /** The root words a collection reads from those frames. */
    ghost function VisitedWords(): seq<nat>
      reads this
      requires Valid()
    {
      ChainWords(frames, VisitedFrames())
    }

    lemma Heads()
      requires Valid()
      ensures current in Pushed() && Chain(frames, roots, Pushed()[current])
      ensures forall c :: c in ParkedOrder() ==> c in Pushed()
    {
    }

    /** Whatever interleaving of pushes, pops and switches led here, the frames
        visited are exactly those pushed and not yet popped by some registered
        coroutine (or the thread not yet adopted), each once. */
    lemma VisitedExactly()
      requires Valid()
      ensures Unique(VisitedFrames())
      ensures forall f :: f in VisitedFrames() <==>
                exists c :: c in Replay(history).stacks && f in Replay(history).stacks[c]
      ensures forall f :: f in VisitedFrames() ==> f in frames
    {
      var own, parked := Pushed()[current], ListedFrames(Pushed(), ParkedOrder());
      forall c | c in Pushed()
        ensures Unique(Pushed()[c])
        ensures forall f :: f in Pushed()[c] ==> f in frames
        ensures c == current || c in ParkedOrder()
      {
        ChainAcyclic(frames, if c == current then roots else gcRoots[c], Pushed()[c]);
        ChainPresent(frames, if c == current then roots else gcRoots[c], Pushed()[c]);
      }
      LawfulDisjoint(history);
      ListedFramesUnique(Pushed(), ParkedOrder());
      forall f
        ensures f in VisitedFrames() <==> exists c :: c in Pushed() && f in Pushed()[c]
        ensures f in parked ==> f !in own
        ensures f in VisitedFrames() ==> f in frames
      {
        ListedFramesMember(Pushed(), ParkedOrder(), f);
      }
      forall i, j | 0 <= i < |own| && 0 <= j < |parked|
        ensures own[i] != parked[j]
      {
        assert parked[j] in parked;
      }
    }
  }
}
