/** What SIMSET's operations mean: sets as sequences of members, and sequence editing. */
module Members {
  import opened Prelude

  // ------------------------------------------------------------- one sequence

  /** The sequence after `x` leaves it. */
  function Drop<T(==)>(m: seq<T>, x: T): seq<T> {
    if m == [] then [] else if m[0] == x then Drop(m[1..], x) else [m[0]] + Drop(m[1..], x)
  }

  /** `x` immediately before `ptr`; nothing if `ptr` is no member. */
  function InsertBefore<T(==)>(m: seq<T>, x: T, ptr: T): seq<T> {
    if m == [] then [] else if m[0] == ptr then [x] + m else [m[0]] + InsertBefore(m[1..], x, ptr)
  }

  /** `x` immediately after `ptr`; nothing if `ptr` is no member. */
  function InsertAfter<T(==)>(m: seq<T>, x: T, ptr: T): seq<T> {
    if m == [] then [] else if m[0] == ptr then [ptr, x] + m[1..] else [m[0]] + InsertAfter(m[1..], x, ptr)
  }

  lemma {:induction false} DropAbsent<T>(m: seq<T>, x: T)
    requires x !in m
    ensures Drop(m, x) == m
  {
    if m != [] {
      DropAbsent(m[1..], x);
    }
  }

  lemma {:induction false} DropAppend<T>(m: seq<T>, n: seq<T>, x: T)
    ensures Drop(m + n, x) == Drop(m, x) + Drop(n, x)
  {
    if m == [] {
      assert m + n == n;
    } else {
      assert (m + n)[1..] == m[1..] + n;
      DropAppend(m[1..], n, x);
    }
  }

  lemma {:induction false} Dropped<T>(m: seq<T>, x: T)
    ensures x !in Drop(m, x)
    ensures forall y :: y in Drop(m, x) <==> y in m && y != x
  {
    if m != [] {
      Dropped(m[1..], x);
      assert m == [m[0]] + m[1..];
    }
  }

  lemma {:induction false} InDrop<T>(m: seq<T>, x: T, y: T)
    ensures y in Drop(m, x) <==> y in m && y != x
  {
    if m != [] {
      InDrop(m[1..], x, y);
      assert m == [m[0]] + m[1..];
    }
  }

  /** A cut, seen from behind the first member. */
  lemma TailAt<T>(m: seq<T>, i: nat)
    requires 0 < i <= |m|
    ensures [m[0]] + m[1..][..i - 1] == m[..i] && m[1..][i - 1..] == m[i..]
  {
  }

  lemma {:induction false} DropAt<T>(m: seq<T>, i: nat)
    requires Unique(m) && i < |m|
    ensures Drop(m, m[i]) == m[..i] + m[i + 1..]
  {
    if i == 0 {
      DropAbsent(m[1..], m[0]);
    } else {
      DropAt(m[1..], i - 1);
      TailAt(m, i);
      TailAt(m, i + 1);
    }
  }

  lemma {:induction false} InsertAbsent<T>(m: seq<T>, x: T, ptr: T)
    requires ptr !in m
    ensures InsertBefore(m, x, ptr) == m && InsertAfter(m, x, ptr) == m
  {
    if m != [] {
      InsertAbsent(m[1..], x, ptr);
    }
  }

  lemma {:induction false} InsertAt<T>(m: seq<T>, i: nat, x: T)
    requires Unique(m) && i < |m|
    ensures InsertBefore(m, x, m[i]) == m[..i] + [x] + m[i..]
    ensures InsertAfter(m, x, m[i]) == m[..i + 1] + [x] + m[i + 1..]
  {
    if i > 0 {
      InsertAt(m[1..], i - 1, x);
      TailAt(m, i);
      TailAt(m, i + 1);
    }
  }

  /** The other members and their order are what they were. */
  lemma {:induction false} InsertKeepsOthers<T>(m: seq<T>, x: T, ptr: T)
    requires x != ptr
    ensures Drop(InsertBefore(m, x, ptr), x) == Drop(m, x)
    ensures Drop(InsertAfter(m, x, ptr), x) == Drop(m, x)
  {
    if m != [] {
      InsertKeepsOthers(m[1..], x, ptr);
    }
  }

  // ------------------------------------------------------------- all sets

  /** Every set, by its head. No member is in two sets or twice in one, and heads are
      not members. */
  ghost predicate Apart<T>(sets: map<T, seq<T>>) {
    && (forall h :: h in sets ==> Unique(sets[h]))
    && (forall h, x :: h in sets && x in sets[h] ==> x !in sets)
    && (forall h, k, x :: h in sets && k in sets && x in sets[h] && x in sets[k] ==> h == k)
  }

  ghost predicate InSomeSet<T>(sets: map<T, seq<T>>, p: T) {
    p in sets || exists h :: h in sets && p in sets[h]
  }

  ghost function Out<T>(sets: map<T, seq<T>>, x: T): map<T, seq<T>> {
    map h | h in sets :: Drop(sets[h], x)
  }

  /** Of sets apart only the one that `x` is in changes, by the place of `x`. */
  lemma LeavesAt<T>(sets: map<T, seq<T>>, x: T, h: T, i: nat)
    requires Apart(sets) && h in sets && i < |sets[h]| && sets[h][i] == x
    ensures Out(sets, x).Keys == sets.Keys && Out(sets, x)[h] == sets[h][..i] + sets[h][i + 1..]
    ensures forall k :: k in sets && k != h ==> Out(sets, x)[k] == sets[k]
  {
    hide Drop, Unique;
    DropAt(sets[h], i);
    assert x in sets[h];
    forall k | k in sets && k != h ensures Out(sets, x)[k] == sets[k] {
      DropAbsent(sets[k], x);
    }
  }

  ghost function PutBefore<T>(sets: map<T, seq<T>>, x: T, ptr: T): map<T, seq<T>> {
    map h | h in sets :: if h == ptr then sets[h] + [x] else InsertBefore(sets[h], x, ptr)
  }

  ghost function PutAfter<T>(sets: map<T, seq<T>>, x: T, ptr: T): map<T, seq<T>> {
    map h | h in sets :: if h == ptr then [x] + sets[h] else InsertAfter(sets[h], x, ptr)
  }

  /** `x` leaves its set and goes immediately before `ptr`, last if `ptr` is a head,
      nowhere if `ptr` is then in no set. */
  ghost function Precede<T>(sets: map<T, seq<T>>, x: T, ptr: T): map<T, seq<T>> {
    PutBefore(Out(sets, x), x, ptr)
  }

  /** As above, immediately after `ptr` and first if that is a head. */
  ghost function Follow<T>(sets: map<T, seq<T>>, x: T, ptr: T): map<T, seq<T>> {
    PutAfter(Out(sets, x), x, ptr)
  }

  /** Whatever `ptr` is, the other members keep their sets and their order, so that
      leaving again undoes any move. */
  lemma OthersUnmoved<T>(sets: map<T, seq<T>>, x: T, ptr: T)
    requires Apart(sets) && x !in sets
    ensures Out(Precede(sets, x, ptr), x) == Out(sets, x)
    ensures Out(Follow(sets, x, ptr), x) == Out(sets, x)
  {
    forall h | h in sets
      ensures Drop(Precede(sets, x, ptr)[h], x) == Drop(sets[h], x)
      ensures Drop(Follow(sets, x, ptr)[h], x) == Drop(sets[h], x)
    {
      var rest := Drop(sets[h], x);
      Dropped(sets[h], x);
      DropAbsent(rest, x);
      if h == ptr {
        DropAppend(rest, [x], x);
        DropAppend([x], rest, x);
      } else if x == ptr {
        InsertAbsent(rest, x, x);
      } else {
        InsertKeepsOthers(rest, x, ptr);
      }
    }
  }

  /** A set as a ring: its head, its members, and its head again. */
  function Cycle<T>(h: T, m: seq<T>): (c: seq<T>)
    ensures |c| == |m| + 2 && c[0] == h && c[|m| + 1] == h
    ensures forall i :: 0 <= i < |m| ==> c[i + 1] == m[i]
    ensures forall i :: 0 < i <= |m| ==> c[i] == m[i - 1]
  {
    [h] + m + [h]
  }

  ghost predicate Adjacent<T>(h: T, m: seq<T>, a: T, b: T) {
    exists i :: 0 <= i <= |m| && Cycle(h, m)[i] == a && Cycle(h, m)[i + 1] == b
  }

  /** Moved next to a head or to another member, `x` is exactly there. */
  lemma PlacedNextTo<T>(sets: map<T, seq<T>>, h: T, x: T, ptr: T)
    requires Apart(sets) && h in sets && x !in sets && x != ptr && (ptr == h || ptr in sets[h])
    ensures Adjacent(h, Precede(sets, x, ptr)[h], x, ptr)
    ensures Adjacent(h, Follow(sets, x, ptr)[h], ptr, x)
  {
    var rest := Drop(sets[h], x);
    Dropped(sets[h], x);
    DropUnique(sets[h], x);
    if ptr == h {
      assert Cycle(h, rest + [x])[|rest| + 1] == x;
      assert Cycle(h, [x] + rest)[0] == h && Cycle(h, [x] + rest)[1] == x;
    } else {
      InsertedNextTo(h, rest, x, ptr);
    }
  }

  lemma InsertedNextTo<T>(h: T, m: seq<T>, x: T, ptr: T)
    requires Unique(m) && ptr in m
    ensures Adjacent(h, InsertBefore(m, x, ptr), x, ptr) && Adjacent(h, InsertAfter(m, x, ptr), ptr, x)
  {
    hide Adjacent, Unique, InsertBefore, InsertAfter;
    var i :| 0 <= i < |m| && m[i] == ptr;
    InsertAt(m, i, x);
    assert m[..i] + [x] + m[i..] == m[..i] + [x, ptr] + m[i + 1..];
    assert m[..i + 1] + [x] + m[i + 1..] == m[..i] + [ptr, x] + m[i + 1..];
    AdjacentIn(h, m[..i], x, ptr, m[i + 1..]);
    AdjacentIn(h, m[..i], ptr, x, m[i + 1..]);
  }

  lemma AdjacentIn<T>(h: T, before: seq<T>, a: T, b: T, behind: seq<T>)
    ensures Adjacent(h, before + [a, b] + behind, a, b)
  {
    var m := before + [a, b] + behind;
    var i := |before|;
    assert Cycle(h, m)[i + 1] == m[i] && Cycle(h, m)[i + 2] == m[i + 1];
  }

  lemma {:induction false} DropUnique<T>(m: seq<T>, x: T)
    requires Unique(m)
    ensures Unique(Drop(m, x)) && |Drop(m, x)| <= |m|
  {
    if m != [] {
      DropUnique(m[1..], x);
      Dropped(m[1..], x);
      var rest := Drop(m[1..], x);
      assert m[0] !in m[1..] && m[0] !in rest;
      assert Unique([m[0]] + rest);
    }
  }

  /** Putting next to `ptr` changes the one set that has it. */
  lemma PutInOne<T>(sets: map<T, seq<T>>, x: T, ptr: T, h: T)
    requires h in sets && forall k :: k in sets && k != h ==> k != ptr && ptr !in sets[k]
    ensures PutBefore(sets, x, ptr) == sets[h := if h == ptr then sets[h] + [x] else InsertBefore(sets[h], x, ptr)]
    ensures PutAfter(sets, x, ptr) == sets[h := if h == ptr then [x] + sets[h] else InsertAfter(sets[h], x, ptr)]
  {
    forall k | k in sets && k != h
      ensures InsertBefore(sets[k], x, ptr) == sets[k] && InsertAfter(sets[k], x, ptr) == sets[k]
    {
      InsertAbsent(sets[k], x, ptr);
    }
  }

  lemma PutBeforeAt<T>(sets: map<T, seq<T>>, x: T, ptr: T, h: T, i: nat)
    requires h in sets && Unique(sets[h]) && i <= |sets[h]|
    requires forall k :: k in sets && k != h ==> k != ptr && ptr !in sets[k]
    requires if h == ptr then i == |sets[h]| else i < |sets[h]| && sets[h][i] == ptr
    ensures PutBefore(sets, x, ptr) == sets[h := sets[h][..i] + [x] + sets[h][i..]]
  {
    PutInOne(sets, x, ptr, h);
    hide PutBefore, InsertBefore;
    if h == ptr {
      assert sets[h][..i] + [x] + sets[h][i..] == sets[h] + [x];
    } else {
      InsertAt(sets[h], i, x);
    }
  }

  lemma PutAfterAt<T>(sets: map<T, seq<T>>, x: T, ptr: T, h: T, i: nat)
    requires h in sets && Unique(sets[h]) && i <= |sets[h]|
    requires forall k :: k in sets && k != h ==> k != ptr && ptr !in sets[k]
    requires if h == ptr then i == 0 else 0 < i && sets[h][i - 1] == ptr
    ensures PutAfter(sets, x, ptr) == sets[h := sets[h][..i] + [x] + sets[h][i..]]
  {
    PutInOne(sets, x, ptr, h);
    hide PutAfter, InsertAfter;
    if h == ptr {
      assert sets[h][..i] + [x] + sets[h][i..] == [x] + sets[h];
    } else {
      InsertAt(sets[h], i - 1, x);
    }
  }

  lemma PutNowhere<T>(sets: map<T, seq<T>>, x: T, ptr: T)
    requires !InSomeSet(sets, ptr)
    ensures PutBefore(sets, x, ptr) == sets && PutAfter(sets, x, ptr) == sets
  {
    forall h | h in sets
      ensures InsertBefore(sets[h], x, ptr) == sets[h] && InsertAfter(sets[h], x, ptr) == sets[h]
    {
      InsertAbsent(sets[h], x, ptr);
    }
  }

  /** Next to itself, or next to something in no set, `x` just leaves. */
  lemma NowhereToGo<T>(sets: map<T, seq<T>>, x: T, ptr: T)
    requires x !in sets && (x == ptr || !InSomeSet(sets, ptr))
    ensures Precede(sets, x, ptr) == Out(sets, x) == Follow(sets, x, ptr)
  {
    forall h | h in sets ensures ptr !in Out(sets, x)[h] { InDrop(sets[h], x, ptr); }
    PutNowhere(Out(sets, x), x, ptr);
  }

  /** Sets stay apart. */
  lemma MovedApart<T>(sets: map<T, seq<T>>, x: T, ptr: T)
    requires Apart(sets) && x !in sets
    ensures Apart(Out(sets, x)) && Apart(Precede(sets, x, ptr)) && Apart(Follow(sets, x, ptr))
  {
    OutApart(sets, x);
    var rest := Out(sets, x);
    forall h | h in sets ensures x !in rest[h] { Dropped(sets[h], x); }
    PlacedApart(rest, Precede(sets, x, ptr), x, ptr);
    PlacedApart(rest, Follow(sets, x, ptr), x, ptr);
  }

  lemma OutApart<T>(sets: map<T, seq<T>>, x: T)
    requires Apart(sets)
    ensures Apart(Out(sets, x))
  {
    forall h | h in sets
      ensures Unique(Drop(sets[h], x))
    {
      DropUnique(sets[h], x);
    }
    forall h, y | h in sets && y in Drop(sets[h], x)
      ensures y in sets[h]
    {
      InDrop(sets[h], x, y);
    }
  }

  lemma {:induction false} InsertedMembers<T>(m: seq<T>, x: T, ptr: T)
    requires Unique(m) && x !in m
    ensures Unique(InsertBefore(m, x, ptr)) && Unique(InsertAfter(m, x, ptr))
    ensures forall y :: y in InsertBefore(m, x, ptr) <==> y in m || (y == x && ptr in m)
    ensures forall y :: y in InsertAfter(m, x, ptr) <==> y in m || (y == x && ptr in m)
  {
    if ptr in m {
      var i :| 0 <= i < |m| && m[i] == ptr;
      InsertAt(m, i, x);
      OneMore(m, i, x);
      OneMore(m, i + 1, x);
    } else {
      InsertAbsent(m, x, ptr);
    }
  }

  lemma OneMore<T>(m: seq<T>, i: nat, x: T)
    requires Unique(m) && x !in m && i <= |m|
    ensures Unique(m[..i] + [x] + m[i..])
    ensures forall y :: y in m[..i] + [x] + m[i..] <==> y in m || y == x
  {
    var s := m[..i] + [x] + m[i..];
    assert forall k :: 0 <= k < |m| ==> m[k] == s[if k < i then k else k + 1];
  }

  lemma PlacedApart<T>(rest: map<T, seq<T>>, sets: map<T, seq<T>>, x: T, ptr: T)
    requires Apart(rest) && x !in rest && forall h :: h in rest ==> x !in rest[h]
    requires sets.Keys == rest.Keys
    requires (forall h :: h in rest ==> sets[h] == if h == ptr then rest[h] + [x] else InsertBefore(rest[h], x, ptr))
          || (forall h :: h in rest ==> sets[h] == if h == ptr then [x] + rest[h] else InsertAfter(rest[h], x, ptr))
    ensures Apart(sets)
  {
    forall h | h in rest
      ensures Unique(sets[h])
      ensures forall y :: y in sets[h] <==> y in rest[h] || (y == x && (ptr == h || ptr in rest[h]))
    {
      InsertedMembers(rest[h], x, ptr);
    }
  }

  // ------------------------------------------------------------- skipping busy members

  /** The first member from place `from` on that is not busy. */
  function NextIdle<T(==)>(m: seq<T>, from: nat, busy: set<T>): Option<T>
    requires from <= |m|
    decreases |m| - from
  {
    if from == |m| then None else if m[from] !in busy then Some(m[from]) else NextIdle(m, from + 1, busy)
  }

  /** The last member before place `to` that is not busy. */
  function PrevIdle<T(==)>(m: seq<T>, to: nat, busy: set<T>): Option<T>
    requires to <= |m|
  {
    if to == 0 then None else if m[to - 1] !in busy then Some(m[to - 1]) else PrevIdle(m, to - 1, busy)
  }

  function Idle<T(==)>(m: seq<T>, busy: set<T>): seq<T> {
    if m == [] then [] else (if m[0] in busy then [] else [m[0]]) + Idle(m[1..], busy)
  }

  lemma {:induction false} IdleAppend<T>(m: seq<T>, n: seq<T>, busy: set<T>)
    ensures Idle(m + n, busy) == Idle(m, busy) + Idle(n, busy)
  {
    if m == [] {
      assert m + n == n;
    } else {
      assert (m + n)[1..] == m[1..] + n;
      IdleAppend(m[1..], n, busy);
    }
  }

  /** Successors from any place are the idle members from there, one by one. */
  lemma {:induction false} NextIdleIs<T>(m: seq<T>, from: nat, busy: set<T>)
    requires from <= |m|
    ensures NextIdle(m, from, busy) == if Idle(m[from..], busy) == [] then None else Some(Idle(m[from..], busy)[0])
    ensures NextIdle(m, from, busy) == None || NextIdle(m, from, busy).value in m[from..]
    decreases |m| - from
  {
    if from < |m| {
      NextIdleIs(m, from + 1, busy);
      assert m[from..][1..] == m[from + 1..];
    }
  }

  lemma {:induction false} PrevIdleIs<T>(m: seq<T>, to: nat, busy: set<T>)
    requires to <= |m|
    ensures var idle := Idle(m[..to], busy);
            PrevIdle(m, to, busy) == if idle == [] then None else Some(idle[|idle| - 1])
  {
    hide Idle;
    if to > 0 {
      PrevIdleIs(m, to - 1, busy);
      assert m[..to] == m[..to - 1] + [m[to - 1]];
      IdleAppend(m[..to - 1], [m[to - 1]], busy);
      IdleOne(m[to - 1], busy);
    } else {
      NoneIdle(m, busy);
    }
  }

  lemma NoneIdle<T>(m: seq<T>, busy: set<T>)
    ensures Idle(m[..0], busy) == []
  {
  }

  lemma IdleOne<T>(x: T, busy: set<T>)
    ensures Idle([x], busy) == if x in busy then [] else [x]
    ensures Idle([], busy) == []
  {
    assert [x][1..] == [];
  }

  /** The k-th idle member has k idle ones in front of it. */
  lemma {:induction false} IdlePlace<T>(m: seq<T>, k: nat, busy: set<T>) returns (i: nat)
    requires k < |Idle(m, busy)|
    ensures i < |m| && m[i] !in busy && |Idle(m[..i], busy)| == k
    decreases |m|
  {
    var last := |m| - 1;
    IdleAppend(m[..last], [m[last]], busy);
    assert m == m[..last] + [m[last]];
    IdleOne(m[last], busy);
    if k < |Idle(m[..last], busy)| {
      i := IdlePlace(m[..last], k, busy);
      assert m[..last][..i] == m[..i];
    } else {
      i := last;
    }
  }

  lemma IdleAround<T>(m: seq<T>, i: nat, busy: set<T>)
    requires i < |m| && m[i] !in busy
    ensures Idle(m, busy) == Idle(m[..i], busy) + [m[i]] + Idle(m[i + 1..], busy)
  {
    hide Idle;
    assert m == m[..i] + [m[i]] + m[i + 1..];
    IdleAppend(m[..i] + [m[i]], m[i + 1..], busy);
    IdleAppend(m[..i], [m[i]], busy);
    IdleOne(m[i], busy);
  }

  /** Where the k-th idle member stands, the idle members before and after it. */
  lemma IdleSplit<T>(m: seq<T>, k: nat, busy: set<T>) returns (i: nat)
    requires k < |Idle(m, busy)|
    ensures i < |m| && m[i] == Idle(m, busy)[k]
    ensures Idle(m[..i], busy) == Idle(m, busy)[..k] && Idle(m[i + 1..], busy) == Idle(m, busy)[k + 1..]
  {
    hide Idle;
    i := IdlePlace(m, k, busy);
    IdleAround(m, i, busy);
  }

  /** Walking a set by successors visits exactly its idle members in order, and by
      predecessors the same backwards. */
  lemma WalkVisitsIdle<T>(m: seq<T>, k: nat, busy: set<T>) returns (i: nat)
    requires k < |Idle(m, busy)|
    ensures i < |m| && m[i] == Idle(m, busy)[k]
    ensures NextIdle(m, i + 1, busy) == if k + 1 == |Idle(m, busy)| then None else Some(Idle(m, busy)[k + 1])
    ensures PrevIdle(m, i, busy) == if k == 0 then None else Some(Idle(m, busy)[k - 1])
    ensures NextIdle(m, 0, busy) == Some(Idle(m, busy)[0])
    ensures PrevIdle(m, |m|, busy) == Some(Idle(m, busy)[|Idle(m, busy)| - 1])
  {
    hide Idle, NextIdle, PrevIdle;
    i := IdleSplit(m, k, busy);
    NextIdleIs(m, i + 1, busy);
    PrevIdleIs(m, i, busy);
    NextIdleIs(m, 0, busy);
    PrevIdleIs(m, |m|, busy);
    assert m[0..] == m && m[..|m|] == m;
  }

  /** No idle member is left iff every member is busy: the set may then have members
      and yet the cardinal 0 and no first or last. */
  lemma {:induction false} NoneIdleIff<T>(m: seq<T>, busy: set<T>)
    ensures Idle(m, busy) == [] <==> forall x :: x in m ==> x in busy
    ensures NextIdle(m, 0, busy) == None <==> Idle(m, busy) == []
    ensures PrevIdle(m, |m|, busy) == None <==> Idle(m, busy) == []
  {
    NextIdleIs(m, 0, busy);
    PrevIdleIs(m, |m|, busy);
    assert m[0..] == m && m[..|m|] == m;
    IdleAre(m, busy);
    if Idle(m, busy) != [] {
      assert Idle(m, busy)[0] in Idle(m, busy);
    }
  }

  lemma {:induction false} IdleAre<T>(m: seq<T>, busy: set<T>)
    ensures forall x :: x in Idle(m, busy) <==> x in m && x !in busy
  {
    if m != [] {
      IdleAre(m[1..], busy);
      assert m == [m[0]] + m[1..];
    }
  }
}
