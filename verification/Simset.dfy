/** SIMSET's circular two-way lists in sim.c: each linkage holds its successor and its
    predecessor, and a head closes the ring. */
module Simset {
  import opened Prelude
  import opened Members
  import SequencingSet
  import EventSet
  import Simulation

  /** The number of links a walk may skip. */
  const WALK_LIMIT: nat := 65536

  class Linkage {
    const isHead: bool
    const addr: Addr
    var suc: Linkage?
    var pred: Linkage?

    constructor (isHead: bool, addr: Addr)
      ensures this.isHead == isHead && this.addr == addr && suc == null && pred == null
    {
      this.isHead, this.addr := isHead, addr;
      suc, pred := null, null;
    }
  }

  ghost predicate Linked(c: seq<Linkage>)
    reads c
  {
    forall i :: 0 <= i < |c| - 1 ==> c[i].suc == c[i + 1] && c[i + 1].pred == c[i]
  }

  ghost predicate Distinct(h: Linkage, m: seq<Linkage>) {
    h.isHead && h !in m && Unique(m) && forall i :: 0 <= i < |m| ==> !m[i].isHead
  }

  /** The ring of head `h` with the members `m`. */
  ghost predicate Ring(h: Linkage, m: seq<Linkage>)
    reads Cycle(h, m)
  {
    Distinct(h, m) && Linked(Cycle(h, m))
  }

  /** A head tied to itself closes a ring without members. */
  lemma EmptyRing(head: Linkage)
    requires head.isHead && head.suc == head && head.pred == head
    ensures Ring(head, [])
  {
    assert Cycle(head, []) == [head, head];
  }

  /** Every linkage of a ring but `a` and `b` has its successor right. */
  ghost predicate SucKept(c: seq<Linkage>, a: Linkage, b: Linkage)
    reads c
  {
    forall k :: 0 <= k < |c| - 1 && c[k] != a && c[k] != b ==> c[k].suc == c[k + 1]
  }

  ghost predicate PredKept(c: seq<Linkage>, a: Linkage, b: Linkage)
    reads c
  {
    forall k :: 0 < k < |c| && c[k] != a && c[k] != b ==> c[k].pred == c[k - 1]
  }

  /** A ring meets each of its linkages once, its head at both ends. */
  lemma CycleInjective(h: Linkage, m: seq<Linkage>, a: nat, b: nat)
    requires Distinct(h, m) && a < b <= |m| + 1 && (a > 0 || b <= |m|)
    ensures Cycle(h, m)[a] != Cycle(h, m)[b]
  {
  }

  lemma InCycle(h: Linkage, m: seq<Linkage>, y: Linkage)
    ensures y in Cycle(h, m) <==> y == h || y in m
  {
  }

  /** The linkages of a ring are tied to their neighbours, and none is `x`. */
  lemma Tied(h: Linkage, m: seq<Linkage>, i: nat, x: Linkage)
    requires Ring(h, m) && i <= |m| && x !in m && x != h
    ensures Distinct(h, m) && |Cycle(h, m)| == |m| + 2
    ensures forall k :: 0 <= k < |m| + 1 ==>
              Cycle(h, m)[k].suc == Cycle(h, m)[k + 1] && Cycle(h, m)[k + 1].pred == Cycle(h, m)[k]
    ensures forall k :: 0 <= k < |m| + 2 ==> Cycle(h, m)[k] != x
  {
    InCycle(h, m, x);
  }

  lemma CycleWithout(h: Linkage, m: seq<Linkage>, i: nat, k: nat)
    requires i < |m| && k <= |m|
    ensures |Cycle(h, m[..i] + m[i + 1..])| == |m| + 1
    ensures Cycle(h, m[..i] + m[i + 1..])[k] == Cycle(h, m)[if k <= i then k else k + 1]
  {
  }

  lemma CycleWith(h: Linkage, m: seq<Linkage>, i: nat, x: Linkage, k: nat)
    requires i <= |m| && k <= |m| + 2
    ensures |Cycle(h, m[..i] + [x] + m[i..])| == |m| + 3
    ensures Cycle(h, m[..i] + [x] + m[i..])[k]
            == if k <= i then Cycle(h, m)[k] else if k == i + 1 then x else Cycle(h, m)[k - 1]
  {
  }

  lemma LeftUnique(h: Linkage, m: seq<Linkage>, i: nat)
    requires i < |m| && Distinct(h, m)
    ensures Distinct(h, m[..i] + m[i + 1..])
  {
  }

  lemma StillTied(h: Linkage, m: seq<Linkage>, i: nat, j: nat)
    requires i < |m| && Distinct(h, m) && j <= |m| && j != i && j != i + 1
    requires SucKept(Cycle(h, m), Cycle(h, m)[i], m[i]) && PredKept(Cycle(h, m), Cycle(h, m)[i + 2], m[i])
    ensures Cycle(h, m)[j].suc == Cycle(h, m)[j + 1] && Cycle(h, m)[j + 1].pred == Cycle(h, m)[j]
  {
    hide Distinct, Cycle;
    var a, b := if j < i then j else i, if j < i then i else j;
    CycleInjective(h, m, a, b);
    CycleInjective(h, m, if j < i then j else i + 1, if j < i then i + 1 else j);
    CycleInjective(h, m, if j < i then j + 1 else i + 1, if j < i then i + 1 else j + 1);
    CycleInjective(h, m, if j < i then j + 1 else i + 2, if j < i then i + 2 else j + 1);
  }

  /** The neighbours of the i-th member have been tied to each other. */
  lemma Unlinked(h: Linkage, m: seq<Linkage>, i: nat)
    requires i < |m| && Distinct(h, m)
    requires Cycle(h, m)[i].suc == Cycle(h, m)[i + 2] && Cycle(h, m)[i + 2].pred == Cycle(h, m)[i]
    requires SucKept(Cycle(h, m), Cycle(h, m)[i], m[i]) && PredKept(Cycle(h, m), Cycle(h, m)[i + 2], m[i])
    ensures Ring(h, m[..i] + m[i + 1..])
  {
    hide SucKept, PredKept, Distinct, Cycle;
    var c, d := Cycle(h, m), Cycle(h, m[..i] + m[i + 1..]);
    forall k | 0 <= k < |d| - 1
      ensures d[k].suc == d[k + 1] && d[k + 1].pred == d[k]
    {
      CycleWithout(h, m, i, k);
      CycleWithout(h, m, i, k + 1);
      if k != i { StillTied(h, m, i, if k < i then k else k + 1); }
    }
    LeftUnique(h, m, i);
  }

  lemma JoinedUnique(h: Linkage, m: seq<Linkage>, i: nat, x: Linkage)
    requires i <= |m| && Distinct(h, m) && x !in m && x != h && !x.isHead
    ensures Distinct(h, m[..i] + [x] + m[i..])
  {
    OneMore(m, i, x);
  }

  lemma TiedBeside(h: Linkage, m: seq<Linkage>, i: nat, x: Linkage, j: nat)
    requires i <= |m| && Distinct(h, m) && j <= |m| && j != i
    requires x !in m && x != h
    requires SucKept(Cycle(h, m), Cycle(h, m)[i], x) && PredKept(Cycle(h, m), Cycle(h, m)[i + 1], x)
    ensures Cycle(h, m)[j].suc == Cycle(h, m)[j + 1] && Cycle(h, m)[j + 1].pred == Cycle(h, m)[j]
  {
    hide Distinct, Cycle;
    CycleInjective(h, m, if j < i then j else i, if j < i then i else j);
    CycleInjective(h, m, if j < i then j + 1 else i + 1, if j < i then i + 1 else j + 1);
  }

  /** `x`, which was in no ring, has been tied in between two neighbours. */
  lemma Spliced(h: Linkage, m: seq<Linkage>, i: nat, x: Linkage)
    requires i <= |m| && Distinct(h, m) && x !in m && x != h && !x.isHead
    requires Cycle(h, m)[i].suc == x && x.pred == Cycle(h, m)[i]
    requires x.suc == Cycle(h, m)[i + 1] && Cycle(h, m)[i + 1].pred == x
    requires SucKept(Cycle(h, m), Cycle(h, m)[i], x) && PredKept(Cycle(h, m), Cycle(h, m)[i + 1], x)
    ensures Ring(h, m[..i] + [x] + m[i..])
  {
    hide SucKept, PredKept, Distinct, Cycle;
    var c, d := Cycle(h, m), Cycle(h, m[..i] + [x] + m[i..]);
    forall k | 0 <= k < |d| - 1
      ensures d[k].suc == d[k + 1] && d[k + 1].pred == d[k]
    {
      CycleWith(h, m, i, x, k);
      CycleWith(h, m, i, x, k + 1);
      if k != i && k != i + 1 { TiedBeside(h, m, i, x, if k < i then k else k - 1); }
    }
    JoinedUnique(h, m, i, x);
  }

  /** A linkage and its neighbours, which is all an operation on it writes. */
  ghost function Near(x: Linkage?): set<Linkage?>
    reads x
  {
    if x == null then {} else {x, x.suc, x.pred}
  }

  /** Neighbours of `x` got no new neighbours but one another. */
  twostate predicate TiedUp(near: set<Linkage?>, x: Linkage, suc: Linkage?, pred: Linkage?)
    reads near
  {
    forall y :: y in near && y != null && y != x ==>
      (y.suc == old(y.suc) || y.suc == suc) && (y.pred == old(y.pred) || y.pred == pred)
  }

  /** Ties the neighbours of the i-th member to each other. */
  method Unlink(x: Linkage, ghost h: Linkage, ghost m: seq<Linkage>, ghost i: nat)
    requires Ring(h, m) && i < |m| && m[i] == x
    modifies Near(x)
    ensures Ring(h, m[..i] + m[i + 1..]) && x.suc == null && x.pred == null
    ensures TiedUp(old(Near(x)), x, old(x.suc), old(x.pred))
  {
    ghost var c := Cycle(h, m);
    assert c[i + 1] == x;
    var suc, pred := x.suc, x.pred;
    CycleInjective(h, m, i, i + 1);
    CycleInjective(h, m, i + 1, i + 2);
    if suc != null { suc.pred := pred; }
    if pred != null { pred.suc := suc; }
    x.suc, x.pred := null, null;
    Unlinked(h, m, i);
  }

  /** Ties `x` in immediately before `ptr`. */
  method LinkBefore(x: Linkage, ptr: Linkage, ghost h: Linkage, ghost m: seq<Linkage>, ghost i: nat)
    requires Ring(h, m) && i <= |m| && Cycle(h, m)[i + 1] == ptr && x !in m && x != h && !x.isHead
    modifies x, ptr, ptr.pred
    ensures Ring(h, m[..i] + [x] + m[i..])
  {
    Tied(h, m, i, x);
    hide Ring, Distinct, Cycle, Linked;
    var pred := ptr.pred;
    x.suc, x.pred := ptr, pred;
    if pred != null { pred.suc := x; }
    ptr.pred := x;
    Spliced(h, m, i, x);
  }

  /** Ties `x` in immediately after `ptr`. */
  method LinkAfter(x: Linkage, ptr: Linkage, ghost h: Linkage, ghost m: seq<Linkage>, ghost i: nat)
    requires Ring(h, m) && i <= |m| && Cycle(h, m)[i] == ptr && x !in m && x != h && !x.isHead
    modifies x, ptr, ptr.suc
    ensures Ring(h, m[..i] + [x] + m[i..])
  {
    Tied(h, m, i, x);
    hide Ring, Distinct, Cycle, Linked;
    var suc := ptr.suc;
    x.pred, x.suc := ptr, suc;
    if suc != null { suc.pred := x; }
    ptr.suc := x;
    assert suc == Cycle(h, m)[i + 1];
    Spliced(h, m, i, x);
  }

  /** `home` names the set of every member. */
  ghost predicate Housed(sets: map<Linkage, seq<Linkage>>, home: map<Linkage, Linkage>) {
    && (forall h, y :: h in sets && y in sets[h] ==> y in home && home[y] == h)
    && (forall y :: y in home ==> home[y] in sets && y in sets[home[y]])
  }

  lemma HousedWithout(sets: map<Linkage, seq<Linkage>>, home: map<Linkage, Linkage>, x: Linkage, h: Linkage)
    requires Housed(sets, home) && x in home && home[x] == h
    ensures Housed(sets[h := Drop(sets[h], x)], home - {x})
  {
    var rest, left := sets[h := Drop(sets[h], x)], home - {x};
    forall k, y | k in rest && y in rest[k]
      ensures y in left && left[y] == k
    {
      InDrop(sets[h], x, y);
      assert home[y] == k;
    }
    forall y | y in left
      ensures left[y] in rest && y in rest[left[y]]
    {
      InDrop(sets[h], x, y);
    }
  }

  lemma HousedEmpty(sets: map<Linkage, seq<Linkage>>, home: map<Linkage, Linkage>, head: Linkage)
    requires Housed(sets, home) && forall y :: y in home ==> home[y] != head
    ensures Housed(sets[head := []], home)
  {
  }

  lemma HousedWith(sets: map<Linkage, seq<Linkage>>, home: map<Linkage, Linkage>, x: Linkage, h: Linkage, m: seq<Linkage>)
    requires Housed(sets, home) && x !in home && h in sets
    requires forall y :: y in m <==> y in sets[h] || y == x
    ensures Housed(sets[h := m], home[x := h])
  {
  }

  function OrNull(x: Option<Linkage>): Linkage? {
    match x
    case None => null
    case Some(y) => y
  }

  /** The place of the next idle member, and how many are left behind it. */
  lemma {:induction false} NextPlace(m: seq<Linkage>, from: nat, busy: set<Linkage>) returns (i: nat)
    requires from <= |m| && NextIdle(m, from, busy).Some?
    ensures from <= i < |m| && NextIdle(m, from, busy) == Some(m[i])
    ensures |Idle(m[from..], busy)| == 1 + |Idle(m[i + 1..], busy)|
    decreases |m| - from
  {
    assert m[from..][1..] == m[from + 1..];
    i := from;
    if m[from] in busy {
      i := NextPlace(m, from + 1, busy);
    }
  }

  class Sets {
    const sim: Simulation.Simulation
    /** The members of every set, and the set each member is in. */
    ghost var sets: map<Linkage, seq<Linkage>>
    ghost var home: map<Linkage, Linkage>

    ghost predicate Valid()
      reads *
    {
      && (forall h :: h in sets ==> Ring(h, sets[h]))
      && Housed(sets, home)
    }

    /** A member, a head, or a link in no set. */
    ghost predicate Known(x: Linkage)
      reads this, x
    {
      x in home || x in sets || (!x.isHead && x.suc == null && x.pred == null)
    }

    constructor (sim: Simulation.Simulation)
      ensures Valid() && this.sim == sim && sets == map[]
    {
      this.sim := sim;
      sets, home := map[], map[];
    }

    /** No linkage is on two rings. */
    lemma RingsApart(h: Linkage, k: Linkage, y: Linkage)
      requires Valid() && h in sets && k in sets && h != k && y in Cycle(h, sets[h])
      ensures y !in Cycle(k, sets[k])
    {
      InCycle(h, sets[h], y);
      InCycle(k, sets[k], y);
      assert y in sets[h] ==> home[y] == h;
    }

    /** A head that has no set is on no ring. */
    lemma HeadApart(head: Linkage)
      requires Valid() && head.isHead && head !in sets
      ensures forall k :: k in sets ==> head !in Cycle(k, sets[k])
      ensures forall y :: y in home ==> home[y] != head
    {
      forall k | k in sets ensures head !in Cycle(k, sets[k]) {
        InCycle(k, sets[k], head);
      }
    }

    lemma ApartNow()
      requires Valid()
      ensures Apart(sets)
    {
      forall h, k, y | h in sets && k in sets && y in sets[h] && y in sets[k]
        ensures h == k
      {
        assert home[y] == h;
      }
    }

    /** What a move leaves as it was and what it brings about: the others keep their sets
        and their order, no member is in two sets, and next to a member or a head the
        linkage is exactly there. */
    lemma Moves(x: Linkage, ptr: Linkage)
      requires Valid() && !x.isHead
      ensures Out(Members.Precede(sets, x, ptr), x) == Out(sets, x) == Out(Members.Follow(sets, x, ptr), x)
      ensures Apart(Members.Precede(sets, x, ptr)) && Apart(Members.Follow(sets, x, ptr)) && Apart(Out(sets, x))
      ensures forall h :: h in sets && x != ptr && (ptr == h || ptr in sets[h]) ==>
                && Adjacent(h, Members.Precede(sets, x, ptr)[h], x, ptr)
                && Adjacent(h, Members.Follow(sets, x, ptr)[h], ptr, x)
    {
      ApartNow();
      OthersUnmoved(sets, x, ptr);
      MovedApart(sets, x, ptr);
      forall h | h in sets && x != ptr && (ptr == h || ptr in sets[h])
        ensures Adjacent(h, Members.Precede(sets, x, ptr)[h], x, ptr)
        ensures Adjacent(h, Members.Follow(sets, x, ptr)[h], ptr, x)
      {
        PlacedNextTo(sets, h, x, ptr);
      }
    }

    lemma PlaceOf(x: Linkage) returns (h: Linkage, i: nat)
      requires Valid() && x in home
      ensures h == home[x] && h in sets && i < |sets[h]| && sets[h][i] == x && Ring(h, sets[h])
      ensures x.pred == Cycle(h, sets[h])[i] && x.suc == Cycle(h, sets[h])[i + 2]
      ensures Drop(sets[h], x) == sets[h][..i] + sets[h][i + 1..]
    {
      h := home[x];
      i :| 0 <= i < |sets[h]| && sets[h][i] == x;
      assert Cycle(h, sets[h])[i + 1] == x;
      DropAt(sets[h], i);
    }

    lemma OnRing(p: Linkage, h: Linkage, i: nat)
      requires Valid() && h in sets && i < |Cycle(h, sets[h])| && Cycle(h, sets[h])[i] == p
      ensures p == h || (p in home && h == home[p])
    {
      InCycle(h, sets[h], p);
      assert p in sets[h] ==> p in home && home[p] == h;
    }

    lemma OnNoRing(x: Linkage)
      requires Valid() && x !in home && !x.isHead
      ensures forall k :: k in sets ==> x !in sets[k] && x !in Cycle(k, sets[k])
    {
      forall k | k in sets ensures x !in sets[k] && x !in Cycle(k, sets[k]) {
        InCycle(k, sets[k], x);
      }
    }

    /** What an operation on a linkage of a ring writes is on no other ring. */
    lemma NearApart(p: Linkage, h: Linkage)
      requires Valid() && h in sets && (p == h || (p in home && h == home[p]))
      ensures forall k :: k in sets && k != h ==>
                var c := Cycle(k, sets[k]); p !in c && p.suc !in c && p.pred !in c
    {
      var c := Cycle(h, sets[h]);
      InCycle(h, sets[h], p);
      var i :| 0 <= i < |c| && c[i] == p;
      var a, b := if p == h then 0 else i, if p == h then |c| - 1 else i;
      assert p.suc == c[a + 1] && p.pred == c[b - 1];
      forall k | k in sets && k != h
        ensures p !in Cycle(k, sets[k]) && p.suc !in Cycle(k, sets[k]) && p.pred !in Cycle(k, sets[k])
      {
        RingsApart(h, k, p);
        RingsApart(h, k, p.suc);
        RingsApart(h, k, p.pred);
      }
    }

    lemma OutIs(x: Linkage, h: Linkage)
      requires Valid() && x in home && h == home[x]
      ensures Out(sets, x) == sets[h := Drop(sets[h], x)]
    {
      forall k | k in sets && k != h ensures Drop(sets[k], x) == sets[k] { DropAbsent(sets[k], x); }
    }

    lemma LooseIs(x: Linkage)
      requires Valid() && Known(x) && !x.isHead && x.suc == null
      ensures x !in home && x.pred == null && Out(sets, x) == sets
    {
      if x in home {
        var h, i := PlaceOf(x);
      }
      forall k | k in sets ensures Drop(sets[k], x) == sets[k] { DropAbsent(sets[k], x); }
    }

    lemma NotThere(ptr: Linkage, h: Linkage, k: Linkage)
      requires Valid() && h in sets && k in sets && k != h && (ptr == h || ptr in sets[h])
      ensures ptr !in sets[k] && ptr != k
    {
      InCycle(h, sets[h], ptr);
      RingsApart(h, k, ptr);
      InCycle(k, sets[k], ptr);
    }

    lemma OnlyThere(ptr: Linkage, h: Linkage)
      requires Valid() && h in sets && (ptr == h || ptr in sets[h])
      ensures forall k :: k in sets && k != h ==> k != ptr && ptr !in sets[k]
    {
      forall k | k in sets && k != h ensures k != ptr && ptr !in sets[k] {
        NotThere(ptr, h, k);
      }
    }

    /** The set of `ptr`, and the place in front of it or behind it. */
    lemma SpotOf(ptr: Linkage, before: bool) returns (h: Linkage, i: nat)
      requires Valid() && (ptr in sets || ptr in home)
      ensures h in sets && i <= |sets[h]| && Ring(h, sets[h]) && Unique(sets[h])
      ensures Cycle(h, sets[h])[if before then i + 1 else i] == ptr
      ensures if h == ptr then i == (if before then |sets[h]| else 0)
              else
                var at := if before then i else i - 1;
                0 <= at < |sets[h]| && sets[h][at] == ptr
    {
      if ptr in sets {
        h, i := ptr, if before then |sets[ptr]| else 0;
      } else {
        h, i := PlaceOf(ptr);
        NotHead(ptr, h);
        i := if before then i else i + 1;
      }
    }

    lemma NotHead(ptr: Linkage, h: Linkage)
      requires Valid() && h in sets && ptr in sets[h]
      ensures ptr != h
    {
    }

    /** Where `ptr` stands: before which place of which set something goes that
        precedes it. */
    lemma SpotBefore(x: Linkage, ptr: Linkage) returns (h: Linkage, i: nat)
      requires Valid() && (ptr in sets || ptr in home)
      ensures h in sets && i <= |sets[h]| && Ring(h, sets[h]) && Cycle(h, sets[h])[i + 1] == ptr
      ensures PutBefore(sets, x, ptr) == sets[h := sets[h][..i] + [x] + sets[h][i..]]
    {
      h, i := SpotOf(ptr, true);
      OnlyThere(ptr, h);
      hide Ring, Housed;
      PutBeforeAt(sets, x, ptr, h, i);
    }

    lemma SpotAfter(x: Linkage, ptr: Linkage) returns (h: Linkage, i: nat)
      requires Valid() && (ptr in sets || ptr in home)
      ensures h in sets && i <= |sets[h]| && Ring(h, sets[h]) && Cycle(h, sets[h])[i] == ptr
      ensures PutAfter(sets, x, ptr) == sets[h := sets[h][..i] + [x] + sets[h][i..]]
    {
      h, i := SpotOf(ptr, false);
      OnlyThere(ptr, h);
      hide Ring, Housed;
      PutAfterAt(sets, x, ptr, h, i);
    }

    lemma OneMoreHoused(x: Linkage, h: Linkage, i: nat)
      requires Valid() && x !in home && !x.isHead && h in sets && i <= |sets[h]|
      ensures Housed(sets[h := sets[h][..i] + [x] + sets[h][i..]], home[x := h])
    {
      OnNoRing(x);
      OneMore(sets[h], i, x);
      HousedWith(sets, home, x, h, sets[h][..i] + [x] + sets[h][i..]);
    }

    /** A linkage that is on no ring is not anybody's neighbour either. */
    lemma NotNear(x: Linkage, p: Linkage)
      requires Valid() && Known(x) && !x.isHead && p !in home && !p.isHead && p != x
      ensures p !in Near(x)
    {
      OnNoRing(p);
      if x in home { var h, i := PlaceOf(x); }
    }

    lemma HasNeighbours(p: Linkage)
      requires Valid() && (p in home || p in sets)
      ensures p.suc != null && p.pred != null
    {
      if p in home {
        var h, i := PlaceOf(p);
      } else {
        var c := Cycle(p, sets[p]);
        assert c[0].suc == c[1] && c[|c| - 1].pred == c[|c| - 2];
      }
    }

    /** Next to something in no set there is nowhere to go. */
    lemma Nowhere(x: Linkage, ptr: Linkage)
      requires Valid() && ptr !in home && ptr !in sets
      ensures PutBefore(sets, x, ptr) == sets && PutAfter(sets, x, ptr) == sets
    {
      forall k | k in sets ensures ptr !in sets[k] {
        assert ptr in sets[k] ==> ptr in home;
      }
      PutNowhere(sets, x, ptr);
    }

    lemma LastIs(x: Linkage, head: Linkage)
      requires Valid() && head in sets && !x.isHead
      ensures Members.Precede(sets, x, head) == Out(sets, x)[head := Drop(sets[head], x) + [x]]
    {
      var rest := Out(sets, x);
      forall k | k in sets && k != head ensures InsertBefore(rest[k], x, head) == rest[k] {
        InDrop(sets[k], x, head);
        InCycle(k, sets[k], head);
        RingsApart(head, k, head);
        InsertAbsent(rest[k], x, head);
      }
    }

    /** Makes a new head an empty set. */
    method InitHead(head: Linkage?)
      requires Valid() && (head != null ==> head.isHead && head !in sets)
      modifies this`sets, head
      ensures Valid()
      ensures sets == if head == null then old(sets) else old(sets)[head := []]
    {
      if head == null { return; }
      HeadApart(head);
      HousedEmpty(sets, home, head);
      hide Ring, Housed, Cycle;
      sets := sets[head := []];
      head.suc, head.pred := head, head;
      EmptyRing(head);
    }

    method Leave(x: Linkage)
      requires Valid() && x in home
      modifies this`sets, this`home, Near(x)
      ensures Valid()
      ensures sets == Out(old(sets), x) && home == old(home) - {x}
      ensures x.suc == null && x.pred == null && TiedUp(old(Near(x)), x, old(x.suc), old(x.pred))
    {
      hide Housed, Linked, Distinct, Drop, Cycle;
      ghost var h, i := PlaceOf(x);
      OutIs(x, h);
      HousedWithout(sets, home, x, h);
      NearApart(x, h);
      ghost var m := sets[h];
      sets, home := sets[h := Drop(m, x)], home - {x};
      Unlink(x, h, m, i);
    }

    /** `x` leaves its set, if it is in one. */
    method TakeOut(x: Linkage?)
      requires Valid() && (x != null ==> !x.isHead && Known(x))
      modifies this`sets, this`home, Near(x)
      ensures Valid()
      ensures x == null ==> sets == old(sets) && home == old(home)
      ensures x != null ==>
                && sets == Out<Linkage>(old(sets), x) && sets.Keys == old(sets.Keys) && home == old(home) - {x}
                && x.suc == null && x.pred == null && TiedUp(old(Near(x)), x, old(x.suc), old(x.pred))
    {
      if x == null { return; }
      var suc := x.suc;
      if suc == null {
        LooseIs(x);
        assert home - {x} == home;
        return;
      }
      Leave(x);
    }

    /** Ties a link that is in no set in before `ptr`. */
    method PutIn(x: Linkage, ptr: Linkage)
      requires Valid() && x !in home && !x.isHead && (ptr in sets || ptr in home)
      modifies this`sets, this`home, x, ptr, ptr.pred
      ensures Valid() && sets == PutBefore(old(sets), x, ptr) && home.Keys == old(home.Keys) + {x}
    {
      hide Housed, Linked, Distinct, PutBefore, Cycle;
      ghost var h, i := SpotBefore(x, ptr);
      ghost var m := sets[h];
      OnRing(ptr, h, i + 1);
      OnNoRing(x);
      NearApart(ptr, h);
      OneMoreHoused(x, h, i);
      sets, home := PutBefore(sets, x, ptr), home[x := h];
      LinkBefore(x, ptr, h, m, i);
    }

    method PutInAfter(x: Linkage, ptr: Linkage)
      requires Valid() && x !in home && !x.isHead && (ptr in sets || ptr in home)
      modifies this`sets, this`home, x, ptr, ptr.suc
      ensures Valid() && sets == PutAfter(old(sets), x, ptr) && home.Keys == old(home.Keys) + {x}
    {
      hide Housed, Linked, Distinct, PutAfter, Cycle;
      ghost var h, i := SpotAfter(x, ptr);
      ghost var m := sets[h];
      OnRing(ptr, h, i);
      OnNoRing(x);
      NearApart(ptr, h);
      OneMoreHoused(x, h, i);
      sets, home := PutAfter(sets, x, ptr), home[x := h];
      LinkAfter(x, ptr, h, m, i);
    }

    /** `x` leaves its set, and goes in front of `ptr` if that is then in one. */
    method Precede(x: Linkage?, ptr: Linkage?)
      requires Valid() && (x != null ==> !x.isHead && Known(x)) && (ptr != null ==> Known(ptr))
      modifies this`sets, this`home, Near(x), Near(ptr)
      ensures Valid()
      ensures x == null ==> sets == old(sets)
      ensures x != null ==>
                sets == if ptr == null then Out<Linkage>(old(sets), x)
                        else Members.Precede<Linkage>(old(sets), x, ptr)
    {
      hide Housed, Linked, Distinct, PutBefore, Out, Cycle, Ring;
      if x == null { return; }
      ghost var loose := ptr != null && ptr !in home && !ptr.isHead && ptr != x;
      if loose { NotNear(x, ptr); }
      TakeOut(x);
      if ptr == null { return; }
      if ptr.suc == null && !ptr.isHead {
        if ptr in home || ptr in sets { HasNeighbours(ptr); }
        Nowhere(x, ptr);
        return;
      }
      PutIn(x, ptr);
    }

    method Follow(x: Linkage?, ptr: Linkage?)
      requires Valid() && (x != null ==> !x.isHead && Known(x)) && (ptr != null ==> Known(ptr))
      modifies this`sets, this`home, Near(x), Near(ptr)
      ensures Valid()
      ensures x == null ==> sets == old(sets)
      ensures x != null ==>
                sets == if ptr == null then Out<Linkage>(old(sets), x)
                        else Members.Follow<Linkage>(old(sets), x, ptr)
    {
      hide Housed, Linked, Distinct, PutAfter, Out, Cycle, Ring;
      if x == null { return; }
      ghost var loose := ptr != null && ptr !in home && !ptr.isHead && ptr != x;
      if loose { NotNear(x, ptr); }
      TakeOut(x);
      if ptr == null { return; }
      if ptr.suc == null && !ptr.isHead {
        if ptr in home || ptr in sets { HasNeighbours(ptr); }
        Nowhere(x, ptr);
        return;
      }
      PutInAfter(x, ptr);
    }

    /** `x` becomes the last member of a set. */
    method Into(x: Linkage?, head: Linkage?)
      requires Valid() && (x != null ==> !x.isHead && Known(x)) && (head != null ==> head in sets)
      modifies this`sets, this`home, Near(x), Near(head)
      ensures Valid()
      ensures x == null ==> sets == old(sets)
      ensures x != null ==>
                sets == if head == null then Out<Linkage>(old(sets), x)
                        else Out<Linkage>(old(sets), x)[head := Drop<Linkage>(old(sets)[head], x) + [x]]
    {
      hide Housed, Linked, Distinct, Out, Cycle, Ring;
      ghost var was := sets;
      if x != null && head != null { LastIs(x, head); }
      Precede(x, head);
    }

    // ----------------------------------------------------------- walking

    /** The members that are scheduled in the sequencing set while a simulation runs. */
    ghost function Busy(m: seq<Linkage>): set<Linkage>
      reads sim, sim.events, sim.events.sqs
      requires sim.events.Valid()
    {
      set y | y in m && sim.active && SequencingSet.Scheduled(sim.events.Notices(), y.addr)
    }

    /** Linkages at different addresses. */
    ghost predicate Addressed(m: seq<Linkage>) {
      forall i, j :: 0 <= i < j < |m| ==> m[i].addr != m[j].addr
    }

    /** No run of busy members is longer than the sequencing set may grow. */
    lemma BusyRunFits(m: seq<Linkage>, from: nat, to: nat)
      requires sim.events.Valid() && from <= to <= |m| && Addressed(m)
      requires forall i :: from <= i < to ==> m[i] in Busy(m)
      ensures to - from <= WALK_LIMIT
    {
      var notices := sim.events.Notices();
      var processes := seq(|notices|, i requires 0 <= i < |notices| => notices[i].process);
      var run := seq(to - from, i requires 0 <= i < to - from => m[from + i].addr);
      UniqueCard(run);
      forall p | p in run ensures p in processes {
        var i :| 0 <= i < |run| && run[i] == p;
        assert m[from + i] in Busy(m);
        var j :| 0 <= j < |notices| && notices[j].process == p;
        assert processes[j] == p;
      }
      SubsetCard(Elems(run), Elems(processes));
      ElemsCard(processes);
    }

    lemma BusyAt(m: seq<Linkage>, q: nat)
      requires sim.events.Valid() && q < |m|
      ensures m[q] in Busy(m) <==> sim.active && SequencingSet.Scheduled(sim.events.Notices(), m[q].addr)
    {
    }

    method BusyProcess(x: Linkage?) returns (busy: bool)
      requires sim.events.Valid()
      ensures busy <==> x != null && sim.active && SequencingSet.Scheduled(sim.events.Notices(), x.addr)
    {
      if !sim.active || x == null { return false; }
      busy := sim.events.IsScheduled(x.addr);
    }

    /** Where a walk forwards starts: behind `x`, or at the first member of head `x`. */
    lemma SucStart(x: Linkage) returns (h: Linkage, p: nat)
      requires Valid() && Known(x) && x.suc != null
      ensures h in sets && p <= |sets[h]| && x.suc == Cycle(h, sets[h])[p + 1]
      ensures x in sets ==> h == x && p == 0
      ensures x in home ==> h == home[x] && forall i :: 0 <= i < |sets[h]| && sets[h][i] == x ==> p == i + 1
      ensures x in sets || x in home
    {
      if x in home {
        h, p := PlaceOf(x);
        p := p + 1;
      } else {
        h, p := x, 0;
        assert Cycle(h, sets[h])[0] == x;
      }
    }

    /** What a walk forwards finds at place `q`. */
    lemma SucStep(h: Linkage, q: nat, busy: set<Linkage>)
      requires Valid() && h in sets && q <= |sets[h]|
      ensures var m, at := sets[h], Cycle(h, sets[h])[q + 1];
              if q == |m| then at.isHead && NextIdle(m, q, busy) == None
              else
                && !at.isHead && at == m[q] && at.suc == Cycle(h, m)[q + 2]
                && NextIdle(m, q, busy) == if at in busy then NextIdle(m, q + 1, busy) else Some(at)
    {
    }

    /** The idle member behind `x`, the first one if `x` is a head. */
    method Suc(x: Linkage?) returns (next: Linkage?)
      requires Valid() && sim.events.Valid() && (x != null ==> Known(x))
      requires forall h :: h in sets ==> Addressed(sets[h])
      ensures x == null || (x !in sets && x !in home) ==> next == null
      ensures x != null && x in sets ==> next == OrNull(NextIdle(sets[x], 0, Busy(sets[x])))
      ensures x != null && x in home ==>
                var m := sets[home[x]];
                forall i :: 0 <= i < |m| && m[i] == x ==> next == OrNull(NextIdle(m, i + 1, Busy(m)))
    {
      hide Ring, Cycle, NextIdle, Busy, Housed, Addressed, SequencingSet.SetOk, SequencingSet.Scheduled;
      if x == null { return null; }
      var suc := x.suc;
      if suc == null {
        if x in home || x in sets { HasNeighbours(x); }
        return null;
      }
      ghost var h, p := SucStart(x);
      ghost var m := sets[h];
      ghost var q := p;
      var guard := 0;
      SucStep(h, q, Busy(m));
      var busy := BusyProcess(suc);
      while !suc.isHead && busy
        invariant p <= q <= |m| && suc == Cycle(h, m)[q + 1] && guard == q - p
        invariant NextIdle(m, p, Busy(m)) == NextIdle(m, q, Busy(m))
        invariant forall i :: p <= i < q ==> m[i] in Busy(m)
        invariant busy <==> sim.active && SequencingSet.Scheduled(sim.events.Notices(), suc.addr)
        decreases |m| - q
      {
        SucStep(h, q, Busy(m));
        BusyAt(m, q);
        suc := suc.suc;
        q := q + 1;
        guard := guard + 1;
        BusyRunFits(m, p, q);
        if guard > WALK_LIMIT { assert false; }
        busy := BusyProcess(suc);
      }
      SucStep(h, q, Busy(m));
      if !suc.isHead { BusyAt(m, q); }
      next := if !suc.isHead then suc else null;
    }

    lemma PredStart(x: Linkage) returns (h: Linkage, p: nat)
      requires Valid() && Known(x) && x.pred != null
      ensures h in sets && p <= |sets[h]| && x.pred == Cycle(h, sets[h])[p]
      ensures x in sets ==> h == x && p == |sets[x]|
      ensures x in home ==> h == home[x] && forall i :: 0 <= i < |sets[h]| && sets[h][i] == x ==> p == i
      ensures x in sets || x in home
    {
      if x in home {
        h, p := PlaceOf(x);
      } else {
        h, p := x, |sets[x]|;
        assert Cycle(h, sets[h])[p + 1] == x;
      }
    }

    lemma PredStep(h: Linkage, q: nat, busy: set<Linkage>)
      requires Valid() && h in sets && q <= |sets[h]|
      ensures var m, at := sets[h], Cycle(h, sets[h])[q];
              if q == 0 then at.isHead && PrevIdle(m, q, busy) == None
              else
                && !at.isHead && at == m[q - 1] && at.pred == Cycle(h, m)[q - 1]
                && PrevIdle(m, q, busy) == if at in busy then PrevIdle(m, q - 1, busy) else Some(at)
    {
    }

    /** The idle member in front of `x`, the last one if `x` is a head. */
    method Pred(x: Linkage?) returns (prev: Linkage?)
      requires Valid() && sim.events.Valid() && (x != null ==> Known(x))
      requires forall h :: h in sets ==> Addressed(sets[h])
      ensures x == null || (x !in sets && x !in home) ==> prev == null
      ensures x != null && x in sets ==> prev == OrNull(PrevIdle(sets[x], |sets[x]|, Busy(sets[x])))
      ensures x != null && x in home ==>
                var m := sets[home[x]];
                forall i :: 0 <= i < |m| && m[i] == x ==> prev == OrNull(PrevIdle(m, i, Busy(m)))
    {
      hide Ring, Cycle, PrevIdle, Busy, Housed, Addressed, SequencingSet.SetOk, SequencingSet.Scheduled;
      if x == null { return null; }
      var pred := x.pred;
      if pred == null {
        if x in home || x in sets { HasNeighbours(x); }
        return null;
      }
      ghost var h, p := PredStart(x);
      ghost var m := sets[h];
      ghost var q := p;
      var guard := 0;
      PredStep(h, q, Busy(m));
      var busy := BusyProcess(pred);
      while !pred.isHead && busy
        invariant 0 <= q <= p <= |m| && pred == Cycle(h, m)[q] && guard == p - q
        invariant PrevIdle(m, p, Busy(m)) == PrevIdle(m, q, Busy(m))
        invariant forall i :: q <= i < p ==> m[i] in Busy(m)
        invariant busy <==> sim.active && SequencingSet.Scheduled(sim.events.Notices(), pred.addr)
        decreases q
      {
        PredStep(h, q, Busy(m));
        BusyAt(m, q - 1);
        pred := pred.pred;
        q := q - 1;
        guard := guard + 1;
        BusyRunFits(m, q, p);
        if guard > WALK_LIMIT { assert false; }
        busy := BusyProcess(pred);
      }
      PredStep(h, q, Busy(m));
      if !pred.isHead { BusyAt(m, q - 1); }
      prev := if !pred.isHead then pred else null;
    }

    /** Whether a set has no members at all, busy or not. */
    method Empty(head: Linkage?) returns (empty: bool)
      requires Valid() && (head != null ==> head in sets)
      ensures empty <==> head == null || sets[head] == []
    {
      if head == null { return true; }
      assert Cycle(head, sets[head])[0].suc == Cycle(head, sets[head])[1];
      empty := head.suc == null || head.suc == head;
    }

    lemma MemberOf(head: Linkage, i: nat)
      requires Valid() && head in sets && i < |sets[head]|
      ensures sets[head][i] in home && home[sets[head][i]] == head && !sets[head][i].isHead
    {
      assert sets[head][i] in sets[head];
    }

    /** The number of idle members. */
    method Cardinal(head: Linkage?) returns (count: int)
      requires Valid() && sim.events.Valid() && (head != null ==> head in sets)
      requires forall h :: h in sets ==> Addressed(sets[h])
      ensures count == if head == null then 0 else |Idle(sets[head], Busy(sets[head]))|
    {
      hide Ring, Cycle, NextIdle, Idle, Busy, Addressed, SequencingSet.SetOk, SequencingSet.Scheduled;
      count := 0;
      var ptr := Suc(head);
      if head == null { return; }
      ghost var m, busy, from := sets[head], Busy(sets[head]), 0;
      assert m[0..] == m;
      while ptr != null && !ptr.isHead
        invariant 0 <= from <= |m| && ptr == OrNull(NextIdle(m, from, busy))
        invariant count + |Idle(m[from..], busy)| == |Idle(m, busy)|
        decreases |m| - from
      {
        ghost var i := NextPlace(m, from, busy);
        MemberOf(head, i);
        count := count + 1;
        from := i + 1;
        ptr := Suc(ptr);
      }
      if ptr != null {
        ghost var i := NextPlace(m, from, busy);
        MemberOf(head, i);
      }
      NextIdleIs(m, from, busy);
    }
  }
}
