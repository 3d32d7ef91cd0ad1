/** Values and sequence facts shared by the models of the runtime's C files. */
module Prelude {

  datatype Option<+T> = None | Some(value: T)

  datatype Result<+T, +E> = Ok(value: T) | Err(error: E)

  const INT64_MIN: int := -0x8000_0000_0000_0000
  const INT64_MAX: int := 0x7fff_ffff_ffff_ffff
  const SIZE_MAX: int := 0xffff_ffff_ffff_ffff

  /** A C pointer: 0 is NULL. */
  type Addr = nat

  predicate InInt64(x: int) {
    INT64_MIN <= x <= INT64_MAX
  }

  /** The members of a sequence. */
  function Elems<T(==)>(s: seq<T>): set<T> {
    set x | x in s
  }

  predicate Unique<T(==)>(s: seq<T>) {
    forall i, j :: 0 <= i < j < |s| ==> s[i] != s[j]
  }

  lemma {:induction false} UniqueCounts<T>(s: seq<T>)
    ensures Unique(s) <==> forall x :: multiset(s)[x] <= 1
  {
    if s != [] {
      var init, last := s[..|s| - 1], s[|s| - 1];
      UniqueCounts(init);
      assert s == init + [last];
      assert forall x :: multiset(s)[x] == multiset(init)[x] + if x == last then 1 else 0;
      UniqueInit(s);
      assert last in init <==> multiset(init)[last] > 0;
      if forall x :: multiset(s)[x] <= 1 {
        assert multiset(s)[last] <= 1;
        assert forall x :: multiset(init)[x] <= multiset(s)[x];
      }
    }
  }

  lemma UniqueInit<T>(s: seq<T>)
    requires s != []
    ensures Unique(s) <==> Unique(s[..|s| - 1]) && s[|s| - 1] !in s[..|s| - 1]
  {
    var init := s[..|s| - 1];
    assert forall i :: 0 <= i < |init| ==> init[i] == s[i];
  }

  /** A rearrangement keeps the members and their being different. */
  lemma Rearranged<T>(s: seq<T>, t: seq<T>)
    requires Unique(s) && multiset(t) == multiset(s)
    ensures Unique(t) && forall x :: x in t <==> x in s
  {
    UniqueCounts(s);
    UniqueCounts(t);
    assert forall x :: x in t <==> x in multiset(t);
    assert forall x :: x in s <==> x in multiset(s);
  }

  /** Leaving one member out keeps the others and their being different. */
  lemma LeftOut<T>(s: seq<T>, t: seq<T>, a: T)
    requires Unique(s) && multiset(s) == multiset(t) + multiset{a}
    ensures Unique(t) && forall x :: x in t <==> x in s && x != a
  {
    UniqueCounts(s);
    UniqueCounts(t);
    assert forall x :: x in t <==> x in multiset(t);
    assert forall x :: x in s <==> x in multiset(s);
    assert forall x :: multiset(s)[x] == multiset(t)[x] + if x == a then 1 else 0;
    assert multiset(s)[a] <= 1;
    assert forall x :: multiset(t)[x] <= multiset(s)[x];
  }

  /** The subsequence of the members that lie in `keep`, order preserved. */
  function Keep<T(==)>(s: seq<T>, keep: set<T>): (r: seq<T>)
    ensures Elems(r) == Elems(s) * keep
    ensures |r| <= |s|
    ensures Unique(s) ==> Unique(r)
  {
    if s == [] then []
    else
      assert Elems(s) == {s[0]} + Elems(s[1..]);
      var rest := Keep(s[1..], keep);
      assert forall i :: 0 <= i < |rest| ==> rest[i] in Elems(rest);
      if s[0] in keep then
        assert Elems([s[0]] + rest) == {s[0]} + Elems(rest);
        [s[0]] + rest
      else rest
  }

  lemma KeepHas<T>(s: seq<T>, keep: set<T>)
    ensures forall x :: x in Keep(s, keep) <==> x in s && x in keep
  {
    forall x ensures x in Keep(s, keep) <==> x in s && x in keep {
      assert x in Keep(s, keep) <==> x in Elems(Keep(s, keep));
    }
  }

  lemma {:induction false} KeepAppend<T>(s: seq<T>, t: seq<T>, keep: set<T>)
    ensures Keep(s + t, keep) == Keep(s, keep) + Keep(t, keep)
  {
    if s == [] {
      assert s + t == t;
    } else {
      assert (s + t)[1..] == s[1..] + t;
      KeepAppend(s[1..], t, keep);
    }
  }

  lemma KeepNext<T>(s: seq<T>, i: nat, keep: set<T>)
    requires i < |s|
    ensures Keep(s[..i + 1], keep) == Keep(s[..i], keep) + if s[i] in keep then [s[i]] else []
  {
    KeepAppend(s[..i], [s[i]], keep);
    assert s[..i + 1] == s[..i] + [s[i]];
  }

  lemma {:induction false} KeepAll<T>(s: seq<T>, keep: set<T>)
    requires forall x :: x in s ==> x in keep
    ensures Keep(s, keep) == s
  {
    if s != [] {
      KeepAll(s[1..], keep);
    }
  }

  lemma {:induction false} KeepAgrees<T>(s: seq<T>, a: set<T>, b: set<T>)
    requires forall x :: x in s ==> (x in a <==> x in b)
    ensures Keep(s, a) == Keep(s, b)
  {
    if s != [] {
      KeepAgrees(s[1..], a, b);
    }
  }

  lemma {:induction false} UniqueCard<T>(s: seq<T>)
    requires Unique(s)
    ensures |Elems(s)| == |s|
  {
    if s == [] {
      assert Elems(s) == {};
    } else {
      var last := |s| - 1;
      UniqueCard(s[..last]);
      assert Elems(s) == Elems(s[..last]) + {s[last]};
    }
  }

  lemma {:induction false} ElemsCard<T>(s: seq<T>)
    ensures |Elems(s)| <= |s|
  {
    if s == [] {
      assert Elems(s) == {};
    } else {
      var last := |s| - 1;
      ElemsCard(s[..last]);
      assert Elems(s) == Elems(s[..last]) + {s[last]};
    }
  }

  lemma SubsetCard<T>(a: set<T>, b: set<T>)
    requires a <= b
    ensures |a| <= |b|
  {
    assert b == a + (b - a);
  }

  function Abs(x: int): nat {
    if x < 0 then -x else x
  }

  /** Whether the host grants a request for memory. */
  method HostGrants() returns (granted: bool)
  {
    granted := *;
  }
}
