/** A stack that each step pushes on at most once and then pops from: which pushes are
    still there at the end, by counting alone. */
module Brackets {
  import opened Prelude

  datatype Event = Event(pushes: bool, pops: nat)

  /** The stack without its last `n` entries. */
  function Popped<T>(s: seq<T>, n: nat): (r: seq<T>)
    ensures |r| == if n < |s| then |s| - n else 0
    ensures r <= s
  {
    if n < |s| then s[..|s| - n] else []
  }

  /** Which pushes are on the stack after every event, outermost first. */
  function Standing(events: seq<Event>): seq<nat> {
    if events == [] then []
    else
      var last := |events| - 1;
      var before := Standing(events[..last]);
      Popped(if events[last].pushes then before + [last] else before, events[last].pops)
  }

  lemma StandingNext(events: seq<Event>)
    requires events != []
    ensures var last := |events| - 1;
            var before := Standing(events[..last]);
            Standing(events) == Popped(if events[last].pushes then before + [last] else before, events[last].pops)
  {
  }

  /** Pushes less pops over the events from `from` on. */
  function Balance(events: seq<Event>, from: nat): int
    requires from <= |events|
    decreases |events|
  {
    if from == |events| then 0
    else
      var last := |events| - 1;
      Balance(events[..last], from) + (if events[last].pushes then 1 else 0) - events[last].pops
  }

  /** The push of event `i` is never paid for: from then on there are, at every moment,
      more pushes, its own among them, than pops. */
  ghost predicate Unpaid(events: seq<Event>, i: nat) {
    i < |events| && events[i].pushes && forall m :: i < m <= |events| ==> Balance(events[..m], i) >= 1
  }

  /** Standing pushes come in order, and the pushes and pops from one on are balanced by
      those that stand from it on. */
  lemma {:induction false} StandingOrder(events: seq<Event>)
    ensures Ordered(Standing(events), events)
  {
    if events != [] {
      var last := |events| - 1;
      var init, pops := events[..last], events[last].pops;
      StandingOrder(init);
      var before, s := Standing(init), Standing(events);
      var pushed := if events[last].pushes then before + [last] else before;
      assert s == Popped(pushed, pops);
      forall q | 0 <= q < |s| ensures s[q] <= last && Balance(events, s[q]) == |s| - q {
        assert s[q] == pushed[q];
        if q < |before| {
          assert before[q] < last;
        } else {
          assert Balance(init, last) == 0;
        }
      }
    }
  }

  ghost predicate Ordered(s: seq<nat>, events: seq<Event>) {
    && (forall q :: 0 <= q < |s| ==> s[q] < |events| && Balance(events, s[q]) == |s| - q)
    && (forall p, q :: 0 <= p < q < |s| ==> s[p] < s[q])
  }

  /** A push stands at the end iff it is never paid for. */
  lemma {:induction false} StandsIff(events: seq<Event>, i: nat)
    ensures i in Standing(events) <==> Unpaid(events, i)
  {
    if events != [] {
      StandsIff(events[..|events| - 1], i);
      if i in Standing(events) { StillUnpaid(events, i); }
      if Unpaid(events, i) { StillStands(events, i); }
    }
  }

  /** To be unpaid now is to have been so before and to have a balance left. */
  lemma UnpaidNext(events: seq<Event>, i: nat)
    requires events != [] && i < |events| - 1
    ensures Unpaid(events, i) <==> Unpaid(events[..|events| - 1], i) && Balance(events, i) >= 1
  {
    hide Balance;
    var init := events[..|events| - 1];
    assert events[..|events|] == events;
    forall m | i < m <= |init| ensures Balance(events[..m], i) == Balance(init[..m], i) {
      assert events[..m] == init[..m];
    }
    assert Unpaid(events, i) ==> Balance(events[..|events|], i) >= 1;
  }

  lemma StillUnpaid(events: seq<Event>, i: nat)
    requires events != [] && i in Standing(events)
    requires i in Standing(events[..|events| - 1]) ==> Unpaid(events[..|events| - 1], i)
    ensures Unpaid(events, i)
  {
    hide *;
    StandingStood(events, i);
    if i < |events| - 1 {
      UnpaidNext(events, i);
    } else {
      UnpaidAtOnce(events);
    }
  }

  /** A standing push is the last event's or stood before it. */
  lemma StandingStood(events: seq<Event>, i: nat)
    requires events != [] && i in Standing(events)
    ensures i < |events| && Balance(events, i) >= 1
    ensures if i == |events| - 1 then events[i].pushes else i in Standing(events[..|events| - 1])
  {
    var last := |events| - 1;
    var before, s := Standing(events[..last]), Standing(events);
    StandingOrder(events);
    StandingOrder(events[..last]);
    hide Balance;
    var pushed := if events[last].pushes then before + [last] else before;
    var q :| 0 <= q < |s| && s[q] == i;
    assert s == Popped(pushed, events[last].pops);
    assert pushed[q] == i;
    if q < |before| {
      assert before[q] == i;
    }
  }

  lemma UnpaidAtOnce(events: seq<Event>)
    requires events != [] && events[|events| - 1].pushes && Balance(events, |events| - 1) >= 1
    ensures Unpaid(events, |events| - 1)
  {
    assert events[..|events|] == events;
  }

  lemma StillStands(events: seq<Event>, i: nat)
    requires events != [] && Unpaid(events, i)
    requires Unpaid(events[..|events| - 1], i) ==> i in Standing(events[..|events| - 1])
    ensures i in Standing(events)
  {
    var last := |events| - 1;
    var init := events[..last];
    var before, s := Standing(init), Standing(events);
    StandingOrder(init);
    if i < last {
      UnpaidNext(events, i);
      var q :| 0 <= q < |before| && before[q] == i;
      assert Balance(init, i) == |before| - q;
      assert s[q] == i;
    } else {
      assert events[..|events|] == events && Balance(init, last) == 0;
      assert events[last].pops == 0;
      assert s == before + [last];
    }
  }

  /** The top is the innermost push that is never paid for. */
  lemma TopIs(events: seq<Event>)
    ensures var s := Standing(events);
            if s == [] then forall i :: !Unpaid(events, i)
            else
              var top := s[|s| - 1];
              Unpaid(events, top) && forall i :: Unpaid(events, i) ==> i <= top
  {
    var s := Standing(events);
    StandingOrder(events);
    forall i | Unpaid(events, i) ensures i in s { StandsIff(events, i); }
    if s != [] {
      var top := s[|s| - 1];
      assert top in s;
      StandsIff(events, top);
    }
  }
}
