/** Attribute visibility along a prefix chain (sections 5.5.3, 5.5.4 and 4.10.1 of the
    Simula Standard), as concatenate.rs decides it. Names are taken as case-folded. */
module Visibility {
  import opened Prelude
  import opened Brackets

  type Name = string

  datatype Kind = Virtual | Procedure | Variable

  /** One specification of a protection part. */
  datatype Spec = Spec(names: seq<Name>, protect: bool, hidden: bool)

  /** The parts of a class declaration that visibility looks at; `variables` gathers the
      parameters, specifications, simple declarations, arrays and switches. */
  datatype Class = Class(name: Name, prefix: Option<Name>, virtuals: seq<seq<Name>>,
                         procedures: seq<Name>, variables: seq<Name>, protection: seq<Spec>)

  type Classes = map<Name, Class>

  datatype Binding = Binding(level: Name, kind: Kind)
  datatype Entry = Entry(binding: Binding, blocked: bool)

  /** The text an attribute is accessed from: the innermost class around it, and whether
      it is a block prefixed by that class rather than its body. */
  datatype Access = Access(text: Option<Name>, prefixedBlock: bool)

  // ------------------------------------------------------------- prefix chains

  ghost predicate WellNamed(classes: Classes) {
    forall n :: n in classes ==> classes[n].name == n
  }

  /** No class is its own prefix, directly or not: prefixes have lower ranks. */
  ghost predicate Acyclic(classes: Classes, rank: map<Name, nat>) {
    forall n :: n in classes ==>
      n in rank && (classes[n].prefix.Some? && classes[n].prefix.value in classes ==>
        classes[n].prefix.value in rank && rank[classes[n].prefix.value] < rank[n])
  }

  /** The prefix levels of a class, outermost first, itself last. */
  ghost function Chain(classes: Classes, rank: map<Name, nat>, name: Name): (chain: seq<Name>)
    requires Acyclic(classes, rank)
    ensures |chain| > 0 && chain[|chain| - 1] == name
    decreases if name in classes then rank[name] + 1 else 0
  {
    if name !in classes || classes[name].prefix == None then [name]
    else Chain(classes, rank, classes[name].prefix.value) + [name]
  }

  /** Levels of a chain other than its last are classes of lower rank, or unknown. */
  lemma {:induction false} ChainLower(classes: Classes, rank: map<Name, nat>, name: Name, i: nat)
    requires Acyclic(classes, rank) && i + 1 < |Chain(classes, rank, name)|
    ensures name in classes
    ensures var level := Chain(classes, rank, name)[i]; level in classes ==> rank[level] < rank[name]
    decreases if name in classes then rank[name] + 1 else 0
  {
    var outer := Chain(classes, rank, classes[name].prefix.value);
    if i + 1 < |outer| {
      ChainLower(classes, rank, classes[name].prefix.value, i);
    }
  }

  /** A class is not among its own prefixes. */
  lemma NotOwnPrefix(classes: Classes, rank: map<Name, nat>, name: Name)
    requires Acyclic(classes, rank) && name in classes && classes[name].prefix.Some?
    ensures name !in Chain(classes, rank, classes[name].prefix.value)
  {
    var chain := Chain(classes, rank, name);
    var outer := Chain(classes, rank, classes[name].prefix.value);
    if i :| 0 <= i < |outer| && outer[i] == name {
      assert chain[i] == name;
      ChainLower(classes, rank, name, i);
    }
  }

  /** The chain of a level on a chain is the chain up to there. */
  lemma {:induction false} ChainOfLevel(classes: Classes, rank: map<Name, nat>, name: Name, i: nat)
    requires Acyclic(classes, rank) && i < |Chain(classes, rank, name)|
    ensures Chain(classes, rank, Chain(classes, rank, name)[i]) == Chain(classes, rank, name)[..i + 1]
    decreases if name in classes then rank[name] + 1 else 0
  {
    var chain := Chain(classes, rank, name);
    if i + 1 == |chain| {
      assert chain[..i + 1] == chain;
    } else {
      ChainOfLevel(classes, rank, classes[name].prefix.value, i);
    }
  }

  /** The prefix levels of a class as far as they can be followed: outermost first, each
      level the prefix of the next, none twice, ending at a level without a prefix, one
      that is no class, or one whose prefix is already in the chain. */
  ghost predicate Followed(classes: Classes, name: Name, chain: seq<Name>) {
    && |chain| > 0 && chain[|chain| - 1] == name && Unique(chain)
    && (forall i :: 0 < i < |chain| ==> chain[i] in classes && classes[chain[i]].prefix == Some(chain[i - 1]))
    && (chain[0] in classes && classes[chain[0]].prefix.Some? ==> classes[chain[0]].prefix.value in chain)
  }

  /** That determines the chain. */
  lemma {:induction false} FollowedAlike(classes: Classes, name: Name, a: seq<Name>, b: seq<Name>, i: nat)
    requires Followed(classes, name, a) && Followed(classes, name, b) && i < |a|
    ensures i < |b| && a[|a| - 1 - i] == b[|b| - 1 - i]
  {
    if i > 0 {
      FollowedAlike(classes, name, a, b, i - 1);
      var x, y := |a| - 1 - i, |b| - i;
      assert a[x + 1] == b[y] && classes[a[x + 1]].prefix == Some(a[x]);
      if y == 0 {
        assert a[x] in b;
        var k :| 0 <= k < |b| && b[k] == a[x];
        FollowedAlike(classes, name, a, b, |b| - 1 - k);
      }
    }
  }

  lemma FollowedOnce(classes: Classes, name: Name, a: seq<Name>, b: seq<Name>)
    requires Followed(classes, name, a) && Followed(classes, name, b)
    ensures a == b
  {
    FollowedAlike(classes, name, a, b, |a| - 1);
    FollowedAlike(classes, name, b, a, |b| - 1);
    forall k | 0 <= k < |a| ensures a[k] == b[k] {
      FollowedAlike(classes, name, a, b, |a| - 1 - k);
    }
  }

  /** Without cycles it is the whole prefix chain. */
  lemma {:induction false} ChainFollowed(classes: Classes, rank: map<Name, nat>, name: Name)
    requires Acyclic(classes, rank)
    ensures Followed(classes, name, Chain(classes, rank, name))
    decreases if name in classes then rank[name] + 1 else 0
  {
    if name in classes && classes[name].prefix.Some? {
      var outer := Chain(classes, rank, classes[name].prefix.value);
      ChainFollowed(classes, rank, classes[name].prefix.value);
      NotOwnPrefix(classes, rank, name);
    }
  }

  method RawPrefixChain(name: Name, classes: Classes) returns (chain: seq<Name>)
    requires WellNamed(classes)
    ensures Followed(classes, name, chain)
  {
    chain := [];
    var current := Some(name);
    while current.Some?
      invariant |chain| > 0 ==> chain[|chain| - 1] == name
      invariant Unique(chain) && forall n :: n in chain ==> n in classes
      invariant forall i :: 0 < i < |chain| ==> classes[chain[i]].prefix == Some(chain[i - 1])
      invariant if chain == [] then current == Some(name) else classes[chain[0]].prefix == current
      decreases |classes| + 1 - |chain|, current.Some?
    {
      var n := current.value;
      if n in chain { return; }
      if n !in classes {
        chain := [n] + chain;
        return;
      }
      chain := [n] + chain;
      ChainInClasses(chain, classes);
      current := classes[n].prefix;
    }
  }

  lemma ChainInClasses(chain: seq<Name>, classes: Classes)
    requires Unique(chain) && forall n :: n in chain ==> n in classes
    ensures |chain| <= |classes|
  {
    UniqueCard(chain);
    SubsetCard(Elems(chain), classes.Keys);
  }

  /** Follows the prefixes of a class. */
  method IsSubclassOf(name: Name, ancestor: Name, classes: Classes, ghost rank: map<Name, nat>) returns (r: bool)
    requires Acyclic(classes, rank)
    ensures r <==> name in classes && classes[name].prefix.Some?
                   && ancestor in Chain(classes, rank, classes[name].prefix.value)
  {
    var current := if name in classes then classes[name].prefix else None;
    ghost var start := current;
    while current.Some?
      invariant start.Some? && ancestor in Chain(classes, rank, start.value) <==>
                current.Some? && ancestor in Chain(classes, rank, current.value)
      decreases if current.None? then 0 else if current.value in classes then rank[current.value] + 2 else 1
    {
      var n := current.value;
      if n == ancestor { return true; }
      current := if n in classes then classes[n].prefix else None;
    }
    return false;
  }

  // ------------------------------------------------------------- one level

  /** What a level declares for a name; a virtual specification goes before the
      procedure that matches it. */
  function DeclaredKind(c: Class, name: Name): Option<Kind> {
    if exists i :: 0 <= i < |c.virtuals| && name in c.virtuals[i] then Some(Virtual)
    else if name in c.procedures then Some(Procedure)
    else if name in c.variables then Some(Variable)
    else None
  }

  predicate ProtectedAt(c: Class, name: Name) {
    exists i :: 0 <= i < |c.protection| && c.protection[i].protect && name in c.protection[i].names
  }

  function HiddenIn(specs: seq<Spec>, name: Name): nat {
    if specs == [] then 0
    else
      var last := |specs| - 1;
      HiddenIn(specs[..last], name) + if specs[last].hidden && name in specs[last].names then 1 else 0
  }

  /** A level that specifies a virtual quantity of the name declares that; without one it
      declares a procedure of the name, and without either a variable. */
  lemma DeclaredKindIs(c: Class, name: Name)
    ensures DeclaredKind(c, name) == Some(Virtual) <==> exists i :: 0 <= i < |c.virtuals| && name in c.virtuals[i]
    ensures DeclaredKind(c, name) == Some(Procedure)
            <==> name in c.procedures && forall i :: 0 <= i < |c.virtuals| ==> name !in c.virtuals[i]
    ensures DeclaredKind(c, name) == Some(Variable)
            <==> && name in c.variables && name !in c.procedures
                 && forall i :: 0 <= i < |c.virtuals| ==> name !in c.virtuals[i]
    ensures DeclaredKind(c, name) == None
            <==> && name !in c.variables && name !in c.procedures
                 && forall i :: 0 <= i < |c.virtuals| ==> name !in c.virtuals[i]
  {
  }

  function HiddenPlaces(specs: seq<Spec>, name: Name): set<int> {
    set k | 0 <= k < |specs| && specs[k].hidden && name in specs[k].names
  }

  /** A protection part hides a name as often as it has hidden specifications of it. */
  lemma {:induction false} HiddenInIs(specs: seq<Spec>, name: Name)
    ensures HiddenIn(specs, name) == |HiddenPlaces(specs, name)|
  {
    if specs == [] {
      assert HiddenPlaces(specs, name) == {};
    } else {
      HiddenInIs(specs[..|specs| - 1], name);
      HiddenLast(specs, name);
    }
  }

  lemma HiddenLast(specs: seq<Spec>, name: Name)
    requires specs != []
    ensures var last := |specs| - 1;
            var before := HiddenPlaces(specs[..last], name);
            HiddenPlaces(specs, name)
            == before + (if specs[last].hidden && name in specs[last].names then {last} else {}) && last !in before
  {
  }

  function HiddenCountAt(c: Class, name: Name): nat {
    HiddenIn(c.protection, name)
  }

  /** The text is within the body of `level` or of a subclass of it. */
  ghost predicate Inside(classes: Classes, rank: map<Name, nat>, access: Access, level: Name)
    requires Acyclic(classes, rank)
  {
    access.text.Some? && level in Chain(classes, rank, access.text.value)
  }

  method AccessAtOrInside(access: Access, level: Name, classes: Classes, ghost rank: map<Name, nat>) returns (r: bool)
    requires Acyclic(classes, rank)
    ensures r <==> access.text.Some? && level in Chain(classes, rank, access.text.value)
  {
    if access.text == None { return false; }
    if access.text.value == level { return true; }
    r := IsSubclassOf(access.text.value, level, classes, rank);
  }

  /** A class body sees what its own class hides; everything else inside does not. */
  predicate HidesApplyAt(access: Access, level: Name) {
    access.text != Some(level) || access.prefixedBlock
  }

  // ------------------------------------------------------------- the stack

  predicate VirtualOnTop(st: seq<Entry>) {
    st != [] && st[|st| - 1].binding.kind == Virtual
  }

  /** A declaration where a virtual quantity of the name is visible only matches it. */
  predicate Introduces(c: Class, name: Name, st: seq<Entry>) {
    DeclaredKind(c, name).Some? && !(DeclaredKind(c, name) != Some(Virtual) && VirtualOnTop(st))
  }

  function TopBlocked(st: seq<Entry>): seq<Entry> {
    if st == [] then []
    else st[..|st| - 1] + [st[|st| - 1].(blocked := true)]
  }

  /** The bindings of a name after one more level, before hiding. */
  ghost function Declare(classes: Classes, rank: map<Name, nat>, level: Name, name: Name, access: Access,
                         st: seq<Entry>): seq<Entry>
    requires Acyclic(classes, rank) && level in classes
  {
    var c := classes[level];
    var shut := ProtectedAt(c, name) && !Inside(classes, rank, access, level);
    if Introduces(c, name, st) then st + [Entry(Binding(c.name, DeclaredKind(c, name).value), shut)]
    else if DeclaredKind(c, name) == None && shut then TopBlocked(st)
    else st
  }

  function Hides(c: Class, name: Name, access: Access, level: Name): nat {
    if HidesApplyAt(access, level) then HiddenCountAt(c, name) else 0
  }

  /** The bindings of a name along a walk from the outermost level. */
  ghost function Stack(classes: Classes, rank: map<Name, nat>, walk: seq<Name>, name: Name, access: Access): seq<Entry>
    requires Acyclic(classes, rank)
  {
    if walk == [] then []
    else
      var init, level := walk[..|walk| - 1], walk[|walk| - 1];
      var st := Stack(classes, rank, init, name, access);
      if level !in classes then st
      else Popped(Declare(classes, rank, level, name, access, st), Hides(classes[level], name, access, level))
  }

  method BindingStack(walk: seq<Name>, name: Name, access: Access, classes: Classes, ghost rank: map<Name, nat>)
    returns (st: seq<Entry>)
    requires Acyclic(classes, rank)
    ensures st == Stack(classes, rank, walk, name, access)
  {
    st := [];
    for i := 0 to |walk|
      invariant st == Stack(classes, rank, walk[..i], name, access)
    {
      assert walk[..i + 1][..i] == walk[..i];
      var level := walk[i];
      if level in classes {
        st := OneLevel(level, name, access, classes, rank, st);
      }
    }
    assert walk[..|walk|] == walk;
  }

  method OneLevel(level: Name, name: Name, access: Access, classes: Classes, ghost rank: map<Name, nat>,
                  before: seq<Entry>) returns (st: seq<Entry>)
    requires Acyclic(classes, rank) && level in classes
    ensures st == Popped(Declare(classes, rank, level, name, access, before),
                         Hides(classes[level], name, access, level))
  {
    st := before;
    var c := classes[level];
    var declared := DeclaredKind(c, name);
    var shut := ProtectedAt(c, name);
    if shut {
      var inside := AccessAtOrInside(access, level, classes, rank);
      shut := !inside;
    }
    if declared.Some? {
      var matches := declared.value != Virtual && VirtualOnTop(st);
      if !matches {
        st := st + [Entry(Binding(c.name, declared.value), shut)];
      }
    } else if shut && st != [] {
      st := TopBlocked(st);
    }
    if HidesApplyAt(access, level) {
      ghost var full := st;
      assert Popped(full, 0) == full;
      for k := 0 to HiddenCountAt(c, name)
        invariant st == Popped(full, k)
      {
        if st != [] { st := st[..|st| - 1]; }
      }
    }
  }

  // ------------------------------------------------------------- what is visible

  /** The innermost binding that is not blocked and stands at a level of `chain`. */
  function LastVisible(st: seq<Entry>, chain: seq<Name>): Option<Binding> {
    if st == [] then None
    else
      var top := st[|st| - 1];
      if !top.blocked && top.binding.level in chain then Some(top.binding)
      else LastVisible(st[..|st| - 1], chain)
  }

  /** The levels in scope: those of the accessing text if it belongs to the family of
      the qualification, else the qualification's own. */
  ghost function Walk(classes: Classes, rank: map<Name, nat>, access: Access, qual: Name): seq<Name>
    requires Acyclic(classes, rank)
  {
    var chain := Chain(classes, rank, qual);
    if && access.text.Some?
       && (access.text.value in chain || qual in Chain(classes, rank, access.text.value))
    then Chain(classes, rank, access.text.value)
    else chain
  }

  ghost function Visible(classes: Classes, rank: map<Name, nat>, access: Access, qual: Name, name: Name): Option<Binding>
    requires Acyclic(classes, rank)
  {
    LastVisible(Stack(classes, rank, Walk(classes, rank, access, qual), name, access), Chain(classes, rank, qual))
  }

  method PrefixChain(name: Name, classes: Classes, ghost rank: map<Name, nat>) returns (chain: seq<Name>)
    requires Acyclic(classes, rank) && WellNamed(classes)
    ensures chain == Chain(classes, rank, name)
  {
    chain := RawPrefixChain(name, classes);
    ChainFollowed(classes, rank, name);
    FollowedOnce(classes, name, chain, Chain(classes, rank, name));
  }

  method VisibleAttributeBinding(access: Access, qual: Name, name: Name, classes: Classes, ghost rank: map<Name, nat>)
    returns (r: Option<Binding>)
    requires Acyclic(classes, rank) && WellNamed(classes)
    ensures r == Visible(classes, rank, access, qual, name)
    ensures var chain := Chain(classes, rank, qual);
            if access.text.Some? && (access.text.value in chain || qual in Chain(classes, rank, access.text.value))
            then Sees(classes, rank, Chain(classes, rank, access.text.value), name, access, chain, r)
            else Sees(classes, rank, chain, name, access, chain, r)
  {
    hide Acyclic, WellNamed, Chain, Stack, LastVisible, Sees;
    var qualChain := PrefixChain(qual, classes, rank);
    var walk := qualChain;
    if access.text.Some? {
      var textChain := PrefixChain(access.text.value, classes, rank);
      if access.text.value in qualChain || qual in textChain {
        walk := textChain;
      }
    }
    var st := BindingStack(walk, name, access, classes, rank);
    r := FindLast(st, qualChain);
    SeesLast(classes, rank, walk, name, access, qualChain);
  }

  method FindLast(st: seq<Entry>, chain: seq<Name>) returns (r: Option<Binding>)
    ensures r == LastVisible(st, chain)
  {
    var i := |st|;
    assert st[..i] == st;
    while i > 0
      invariant 0 <= i <= |st| && LastVisible(st[..i], chain) == LastVisible(st, chain)
    {
      i := i - 1;
      assert st[..i + 1][..i] == st[..i];
      if !st[i].blocked && st[i].binding.level in chain {
        return Some(st[i].binding);
      }
    }
    return None;
  }

  // ------------------------------------------------------------- the own text of a class

  /** Every entry is a declaration of the name at a level of the walk, and one that its
      level keeps to itself is blocked for texts outside. */
  lemma {:induction false} StackEntries(classes: Classes, rank: map<Name, nat>, walk: seq<Name>, name: Name, access: Access)
    requires Acyclic(classes, rank) && WellNamed(classes)
    ensures forall e :: e in Stack(classes, rank, walk, name, access) ==>
              && e.binding.level in walk && e.binding.level in classes
              && DeclaredKind(classes[e.binding.level], name) == Some(e.binding.kind)
              && (ProtectedAt(classes[e.binding.level], name) && !Inside(classes, rank, access, e.binding.level) ==>
                    e.blocked)
    ensures (forall level :: level in walk ==> Inside(classes, rank, access, level)) ==>
              forall e :: e in Stack(classes, rank, walk, name, access) ==> !e.blocked
  {
    hide ProtectedAt, DeclaredKind, Inside, Hides;
    if walk != [] {
      var init, level := walk[..|walk| - 1], walk[|walk| - 1];
      assert walk == init + [level];
      StackEntries(classes, rank, init, name, access);
      if level in classes {
        var st := Stack(classes, rank, init, name, access);
        DeclareEntries(classes, rank, level, name, access, st);
        var all := Declare(classes, rank, level, name, access, st);
        var n := Hides(classes[level], name, access, level);
        forall e | e in Popped(all, n) ensures e in all { PoppedMembers(all, n, e); }
      }
    }
  }

  lemma PoppedMembers<T>(s: seq<T>, n: nat, x: T)
    requires x in Popped(s, n)
    ensures x in s
  {
  }

  lemma DeclareEntries(classes: Classes, rank: map<Name, nat>, level: Name, name: Name, access: Access, st: seq<Entry>)
    requires Acyclic(classes, rank) && WellNamed(classes) && level in classes
    ensures forall e :: e in Declare(classes, rank, level, name, access, st) ==>
              || e in st
              || (!Inside(classes, rank, access, level) && e.blocked && e.(blocked := false) in st)
              || (e.binding.level == level && DeclaredKind(classes[level], name) == Some(e.binding.kind)
                  && e.blocked == (ProtectedAt(classes[level], name) && !Inside(classes, rank, access, level)))
  {
    hide ProtectedAt, DeclaredKind, Inside;
    if st != [] {
      var top := st[|st| - 1];
      assert top in st && top.(blocked := true) == if top.blocked then top else top.(blocked := true);
      assert !top.blocked ==> top.(blocked := true).(blocked := false) == top;
    }
  }

  /** A protected attribute is never visible to a text outside the classes that may see
      it; what is visible is declared as found, at a level of the qualification. */
  lemma ProtectedStaysInside(classes: Classes, rank: map<Name, nat>, access: Access, qual: Name, name: Name)
    requires Acyclic(classes, rank) && WellNamed(classes)
    ensures var b := Visible(classes, rank, access, qual, name);
            b.Some? ==>
              var Binding(level, kind) := b.value;
              && level in Chain(classes, rank, qual) && level in classes
              && DeclaredKind(classes[level], name) == Some(kind)
              && (ProtectedAt(classes[level], name) ==> Inside(classes, rank, access, level))
  {
    var walk := Walk(classes, rank, access, qual);
    StackEntries(classes, rank, walk, name, access);
    FoundThere(Stack(classes, rank, walk, name, access), Chain(classes, rank, qual));
  }

  lemma {:induction false} FoundThere(st: seq<Entry>, chain: seq<Name>)
    ensures LastVisible(st, chain).Some? ==>
              && LastVisible(st, chain).value.level in chain
              && Entry(LastVisible(st, chain).value, false) in st
  {
    if st != [] {
      FoundThere(st[..|st| - 1], chain);
      var top := st[|st| - 1];
      assert top in st && (!top.blocked ==> top == Entry(top.binding, false));
    }
  }

  /** A class that protects an attribute it does not declare takes away, for texts
      outside it, what hiding the attribute once would take away. */
  lemma ProtectionHidesOutside(classes: Classes, rank: map<Name, nat>, walk: seq<Name>, name: Name, access: Access,
                               chain: seq<Name>)
    requires Acyclic(classes, rank) && walk != [] && walk[|walk| - 1] in classes
    requires var d := walk[|walk| - 1];
             && DeclaredKind(classes[d], name) == None && ProtectedAt(classes[d], name)
             && !Inside(classes, rank, access, d)
    ensures var d, below := walk[|walk| - 1], Stack(classes, rank, walk[..|walk| - 1], name, access);
            var hides := Hides(classes[d], name, access, d);
            LastVisible(Stack(classes, rank, walk, name, access), chain)
            == LastVisible(Popped(below, if hides == 0 then 1 else hides), chain)
  {
    hide DeclaredKind, ProtectedAt, Inside, Hides;
    var d, below := walk[|walk| - 1], Stack(classes, rank, walk[..|walk| - 1], name, access);
    var n := Hides(classes[d], name, access, d);
    assert Declare(classes, rank, d, name, access, below) == TopBlocked(below);
    if n == 0 {
      assert Popped(TopBlocked(below), 0) == TopBlocked(below);
      if below != [] {
        assert TopBlocked(below)[..|below| - 1] == below[..|below| - 1];
      }
    } else {
      assert Popped(TopBlocked(below), n) == Popped(below, n);
    }
  }

  /** Two texts that are both inside every level of a walk, and to which the same hiding
      applies, find the same bindings. */
  lemma {:induction false} StackAgrees(classes: Classes, rank: map<Name, nat>, walk: seq<Name>, name: Name, a: Access, b: Access)
    requires Acyclic(classes, rank)
    requires forall level :: level in walk ==>
               Inside(classes, rank, a, level) && Inside(classes, rank, b, level)
               && HidesApplyAt(a, level) == HidesApplyAt(b, level)
    ensures Stack(classes, rank, walk, name, a) == Stack(classes, rank, walk, name, b)
  {
    if walk != [] {
      assert walk == walk[..|walk| - 1] + [walk[|walk| - 1]];
      StackAgrees(classes, rank, walk[..|walk| - 1], name, a, b);
    }
  }

  function TopOf(st: seq<Entry>): Option<Binding> {
    if st == [] then None else Some(st[|st| - 1].binding)
  }

  /** Seen from inside, the innermost binding left is the visible one. */
  lemma InsideSeesTop(classes: Classes, rank: map<Name, nat>, walk: seq<Name>, name: Name, access: Access, chain: seq<Name>)
    requires Acyclic(classes, rank) && WellNamed(classes)
    requires forall level :: level in walk ==> Inside(classes, rank, access, level) && level in chain
    ensures var st := Stack(classes, rank, walk, name, access); LastVisible(st, chain) == TopOf(st)
  {
    StackEntries(classes, rank, walk, name, access);
    var st := Stack(classes, rank, walk, name, access);
    if st != [] {
      assert st[|st| - 1] in st;
    }
  }

  /** What the own text of class `d` sees. */
  ghost function OwnView(classes: Classes, rank: map<Name, nat>, d: Name, name: Name): Option<Binding>
    requires Acyclic(classes, rank)
  {
    Visible(classes, rank, Access(Some(d), false), d, name)
  }

  /** What a block prefixed by `c` sees; nothing if there is no `c`. */
  ghost function BlockView(classes: Classes, rank: map<Name, nat>, c: Option<Name>, name: Name): Option<Binding>
    requires Acyclic(classes, rank)
  {
    match c
    case None => None
    case Some(n) => Visible(classes, rank, Access(c, true), n, name)
  }

  lemma BlockSees(classes: Classes, rank: map<Name, nat>, c: Name, name: Name)
    requires Acyclic(classes, rank) && WellNamed(classes)
    ensures BlockView(classes, rank, Some(c), name)
            == TopOf(Stack(classes, rank, Chain(classes, rank, c), name, Access(Some(c), true)))
  {
    InsideSeesTop(classes, rank, Chain(classes, rank, c), name, Access(Some(c), true), Chain(classes, rank, c));
  }

  /** The bindings that the own text of `d` and a block prefixed by its prefix start
      from. */
  lemma SameBelow(classes: Classes, rank: map<Name, nat>, d: Name, c: Name, name: Name)
    requires Acyclic(classes, rank) && d in classes && classes[d].prefix == Some(c)
    ensures Stack(classes, rank, Chain(classes, rank, c), name, Access(Some(d), false))
            == Stack(classes, rank, Chain(classes, rank, c), name, Access(Some(c), true))
  {
    NotOwnPrefix(classes, rank, d);
    StackAgrees(classes, rank, Chain(classes, rank, c), name, Access(Some(d), false), Access(Some(c), true));
  }

  /** The own text of a class sees its declaration, unless it declares nothing or only
      matches a virtual quantity visible there; then it sees exactly what a block
      prefixed by its prefix sees. */
  lemma OwnText(classes: Classes, rank: map<Name, nat>, d: Name, name: Name)
    requires Acyclic(classes, rank) && WellNamed(classes) && d in classes
    ensures var kind := DeclaredKind(classes[d], name);
            var below := BlockView(classes, rank, classes[d].prefix, name);
            var matches := kind.Some? && kind.value != Virtual && below.Some? && below.value.kind == Virtual;
            OwnView(classes, rank, d, name)
            == if kind.Some? && !matches then Some(Binding(d, kind.value)) else below
  {
    var own := Access(Some(d), false);
    var chain := Chain(classes, rank, d);
    var init := chain[..|chain| - 1];
    InsideSeesTop(classes, rank, chain, name, own, chain);
    var st := Stack(classes, rank, init, name, own);
    if classes[d].prefix.Some? {
      var c := classes[d].prefix.value;
      assert init == Chain(classes, rank, c);
      SameBelow(classes, rank, d, c, name);
      BlockSees(classes, rank, c, name);
    }
    assert BlockView(classes, rank, classes[d].prefix, name) == TopOf(st);
    assert Inside(classes, rank, own, d) && !HidesApplyAt(own, d);
    hide Stack, Visible, DeclaredKind, ProtectedAt;
    OneOwnLevel(classes, rank, chain, name, own);
  }

  /** The last level of a walk, seen from its own text. */
  lemma OneOwnLevel(classes: Classes, rank: map<Name, nat>, walk: seq<Name>, name: Name, access: Access)
    requires Acyclic(classes, rank) && walk != [] && walk[|walk| - 1] in classes
    requires Inside(classes, rank, access, walk[|walk| - 1]) && !HidesApplyAt(access, walk[|walk| - 1])
    ensures var d, st := walk[|walk| - 1], Stack(classes, rank, walk[..|walk| - 1], name, access);
            Stack(classes, rank, walk, name, access)
            == if Introduces(classes[d], name, st)
               then st + [Entry(Binding(classes[d].name, DeclaredKind(classes[d], name).value), false)]
               else st
  {
  }

  // ------------------------------------------------------------- hiding by counting

  /** What each level of a walk does to the bindings of a name. */
  ghost function Events(classes: Classes, rank: map<Name, nat>, walk: seq<Name>, name: Name, access: Access): (r: seq<Event>)
    requires Acyclic(classes, rank)
    ensures |r| == |walk|
  {
    if walk == [] then []
    else
      var init, level := walk[..|walk| - 1], walk[|walk| - 1];
      var st := Stack(classes, rank, init, name, access);
      Events(classes, rank, init, name, access)
      + [if level !in classes then Event(false, 0)
         else Event(Introduces(classes[level], name, st), Hides(classes[level], name, access, level))]
  }

  /** The entries of a stack and the walk's levels that introduced them. */
  ghost predicate Parallel(st: seq<Entry>, at: seq<nat>, walk: seq<Name>) {
    |st| == |at| && forall q :: 0 <= q < |at| ==> at[q] < |walk| && st[q].binding.level == walk[at[q]]
  }

  lemma ParallelPushed(st: seq<Entry>, at: seq<nat>, walk: seq<Name>, e: Entry)
    requires walk != [] && Parallel(st, at, walk) && e.binding.level == walk[|walk| - 1]
    ensures Parallel(st + [e], at + [|walk| - 1], walk)
  {
  }

  lemma ParallelBlocked(st: seq<Entry>, at: seq<nat>, walk: seq<Name>)
    requires Parallel(st, at, walk)
    ensures Parallel(TopBlocked(st), at, walk)
  {
  }

  lemma DeclareParallel(classes: Classes, rank: map<Name, nat>, walk: seq<Name>, name: Name, access: Access,
                        st: seq<Entry>, at: seq<nat>)
    requires Acyclic(classes, rank) && WellNamed(classes) && walk != [] && walk[|walk| - 1] in classes
    requires Parallel(st, at, walk[..|walk| - 1])
    ensures var level := walk[|walk| - 1];
            Parallel(Declare(classes, rank, level, name, access, st),
                     if Introduces(classes[level], name, st) then at + [|walk| - 1] else at, walk)
  {
    hide ProtectedAt, Inside, DeclaredKind, Acyclic, Parallel, TopBlocked, VirtualOnTop;
    var level := walk[|walk| - 1];
    var c := classes[level];
    ParallelWider(st, at, walk);
    ParallelBlocked(st, at, walk);
    if Introduces(c, name, st) {
      var shut := ProtectedAt(c, name) && !Inside(classes, rank, access, level);
      ParallelPushed(st, at, walk, Entry(Binding(c.name, DeclaredKind(c, name).value), shut));
    }
  }

  lemma EventsNext(classes: Classes, rank: map<Name, nat>, walk: seq<Name>, name: Name, access: Access)
    requires Acyclic(classes, rank) && walk != []
    ensures var init, level := walk[..|walk| - 1], walk[|walk| - 1];
            var events := Events(classes, rank, walk, name, access);
            && events[..|walk| - 1] == Events(classes, rank, init, name, access)
            && events[|walk| - 1]
               == if level !in classes then Event(false, 0)
                  else Event(Introduces(classes[level], name, Stack(classes, rank, init, name, access)),
                             Hides(classes[level], name, access, level))
  {
  }

  lemma StackNext(classes: Classes, rank: map<Name, nat>, walk: seq<Name>, name: Name, access: Access)
    requires Acyclic(classes, rank) && walk != []
    ensures var init, level := walk[..|walk| - 1], walk[|walk| - 1];
            var st := Stack(classes, rank, init, name, access);
            Stack(classes, rank, walk, name, access)
            == if level !in classes then st
               else Popped(Declare(classes, rank, level, name, access, st), Hides(classes[level], name, access, level))
  {
  }

  lemma ParallelPopped(st: seq<Entry>, at: seq<nat>, walk: seq<Name>, n: nat)
    requires Parallel(st, at, walk)
    ensures Parallel(Popped(st, n), Popped(at, n), walk)
  {
  }

  lemma ParallelWider(st: seq<Entry>, at: seq<nat>, walk: seq<Name>)
    requires walk != [] && Parallel(st, at, walk[..|walk| - 1])
    ensures Parallel(st, at, walk)
  {
  }

  /** One level more. */
  lemma ParallelStep(classes: Classes, rank: map<Name, nat>, walk: seq<Name>, name: Name, access: Access,
                     st: seq<Entry>, at: seq<nat>)
    requires Acyclic(classes, rank) && WellNamed(classes) && walk != [] && Parallel(st, at, walk[..|walk| - 1])
    ensures var level := walk[|walk| - 1];
            if level !in classes then Parallel(st, Popped(at, 0), walk)
            else
              var all := if Introduces(classes[level], name, st) then at + [|walk| - 1] else at;
              var hides := Hides(classes[level], name, access, level);
              Parallel(Popped(Declare(classes, rank, level, name, access, st), hides), Popped(all, hides), walk)
  {
    hide Declare, Introduces, Hides, Parallel, Acyclic, WellNamed;
    var level := walk[|walk| - 1];
    if level in classes {
      DeclareParallel(classes, rank, walk, name, access, st, at);
      ParallelPopped(Declare(classes, rank, level, name, access, st),
                     if Introduces(classes[level], name, st) then at + [|walk| - 1] else at, walk,
                     Hides(classes[level], name, access, level));
    } else {
      ParallelWider(st, at, walk);
      assert Popped(at, 0) == at;
    }
  }

  /** The bindings are those whose introduction stands when every hidden specification
      takes away the innermost one left. */
  lemma {:induction false} StackStands(classes: Classes, rank: map<Name, nat>, walk: seq<Name>, name: Name, access: Access)
    requires Acyclic(classes, rank) && WellNamed(classes)
    ensures Parallel(Stack(classes, rank, walk, name, access),
                     Standing(Events(classes, rank, walk, name, access)), walk)
  {
    if walk != [] {
      hide Stack, Events, Standing, Parallel, Acyclic, WellNamed;
      var init := walk[..|walk| - 1];
      var events := Events(classes, rank, walk, name, access);
      StackStands(classes, rank, init, name, access);
      EventsNext(classes, rank, walk, name, access);
      StandingNext(events);
      StackNext(classes, rank, walk, name, access);
      ParallelStep(classes, rank, walk, name, access, Stack(classes, rank, init, name, access),
                   Standing(events[..|walk| - 1]));
    } else {
      assert Events(classes, rank, [], name, access) == [];
    }
  }

  /** What a block prefixed by `c` sees is introduced at the innermost level from which
      on there are never as many hidden specifications of the name as introductions,
      that level's own counted; it sees nothing iff there is no such level. */
  lemma BlockSeesUnpaid(classes: Classes, rank: map<Name, nat>, c: Name, name: Name)
    requires Acyclic(classes, rank) && WellNamed(classes)
    ensures var chain := Chain(classes, rank, c);
            var events := Events(classes, rank, chain, name, Access(Some(c), true));
            match BlockView(classes, rank, Some(c), name)
            case None => forall i :: !Unpaid(events, i)
            case Some(b) => exists i: nat :: Innermost(events, i) && b.level == chain[i]
  {
    hide Stack, Standing, Events, BlockView;
    var chain, access := Chain(classes, rank, c), Access(Some(c), true);
    var events := Events(classes, rank, chain, name, access);
    BlockSees(classes, rank, c, name);
    StackStands(classes, rank, chain, name, access);
    TopIs(events);
    var at := Standing(events);
    if at != [] {
      assert Innermost(events, at[|at| - 1]);
    }
  }

  ghost predicate Innermost(events: seq<Event>, i: nat) {
    Unpaid(events, i) && forall j: nat :: Unpaid(events, j) ==> j <= i
  }

  // ------------------------------------------------------------- visibility by counting

  lemma {:induction false} EventsPrefix(classes: Classes, rank: map<Name, nat>, walk: seq<Name>, name: Name,
                                        access: Access, i: nat)
    requires Acyclic(classes, rank) && i <= |walk|
    ensures Events(classes, rank, walk, name, access)[..i] == Events(classes, rank, walk[..i], name, access)
    decreases |walk|
  {
    hide Events;
    if i < |walk| {
      EventsNext(classes, rank, walk, name, access);
      EventsPrefix(classes, rank, walk[..|walk| - 1], name, access, i);
      assert walk[..|walk| - 1][..i] == walk[..i];
      var events := Events(classes, rank, walk, name, access);
      assert events[..|walk| - 1][..i] == events[..i];
    } else {
      assert walk[..i] == walk;
    }
  }

  /** Whether a virtual quantity is the innermost left, by counting. */
  lemma TopVirtual(classes: Classes, rank: map<Name, nat>, walk: seq<Name>, name: Name, access: Access)
    requires Acyclic(classes, rank) && WellNamed(classes)
    ensures VirtualOnTop(Stack(classes, rank, walk, name, access))
            <==> exists j: nat :: Innermost(Events(classes, rank, walk, name, access), j) && walk[j] in classes
                                  && DeclaredKind(classes[walk[j]], name) == Some(Virtual)
  {
    hide Stack, Events, DeclaredKind, Unpaid, Standing;
    var st, events := Stack(classes, rank, walk, name, access), Events(classes, rank, walk, name, access);
    StackStands(classes, rank, walk, name, access);
    StackEntries(classes, rank, walk, name, access);
    TopIs(events);
    if st != [] {
      assert st[|st| - 1] in st;
      assert Innermost(events, Standing(events)[|st| - 1]);
    }
  }

  /** What a level does to a name, by counting: it introduces the name if it declares it,
      unless that matches a virtual quantity, the innermost introduction left; and it
      takes away as many as it has hidden specifications, except for its own text. */
  lemma EventsAre(classes: Classes, rank: map<Name, nat>, walk: seq<Name>, name: Name, access: Access, i: nat)
    requires Acyclic(classes, rank) && WellNamed(classes) && i < |walk|
    ensures var events, level := Events(classes, rank, walk, name, access), walk[i];
            if level !in classes then events[i] == Event(false, 0)
            else
              var c := classes[level];
              && events[i].pops == (if access.text == Some(level) && !access.prefixedBlock then 0
                                    else |HiddenPlaces(c.protection, name)|)
              && (events[i].pushes
                  <==> match DeclaredKind(c, name)
                       case None => false
                       case Some(Virtual) => true
                       case Some(_) =>
                         forall j: nat :: Innermost(events[..i], j) && walk[j] in classes ==>
                           DeclaredKind(classes[walk[j]], name) != Some(Virtual))
  {
    hide Events, Stack, DeclaredKind, Innermost, HiddenIn;
    var events, upTo := Events(classes, rank, walk, name, access), walk[..i + 1];
    EventsPrefix(classes, rank, walk, name, access, i);
    EventsPrefix(classes, rank, walk, name, access, i + 1);
    EventsNext(classes, rank, upTo, name, access);
    assert upTo[..i] == walk[..i] && events[i] == events[..i + 1][i];
    TopVirtual(classes, rank, walk[..i], name, access);
    if walk[i] in classes {
      HiddenInIs(classes[walk[i]].protection, name);
    }
    InnermostBelow(events[..i]);
  }

  lemma InnermostBelow(events: seq<Event>)
    ensures forall j: nat :: Innermost(events, j) ==> j < |events|
  {
  }

  /** The level protects the name and the text is neither in it nor in a subclass. */
  ghost predicate ShutOut(classes: Classes, rank: map<Name, nat>, level: Name, name: Name, access: Access)
    requires Acyclic(classes, rank) && level in classes
  {
    && (exists i :: 0 <= i < |classes[level].protection|
                    && classes[level].protection[i].protect && name in classes[level].protection[i].names)
    && !(access.text.Some? && level in Chain(classes, rank, access.text.value))
  }

  /** The level that introduces the name shuts the text out, or one further in does that
      declares nothing while this is the innermost introduction left. */
  ghost predicate Barred(classes: Classes, rank: map<Name, nat>, walk: seq<Name>, name: Name, access: Access, i: nat)
    requires Acyclic(classes, rank) && i < |walk|
  {
    || (walk[i] in classes && ShutOut(classes, rank, walk[i], name, access))
    || exists m :: i < m < |walk| && BarredBy(classes, rank, walk, name, access, i, m)
  }

  ghost predicate BarredBy(classes: Classes, rank: map<Name, nat>, walk: seq<Name>, name: Name, access: Access,
                           i: nat, m: nat)
    requires Acyclic(classes, rank) && m < |walk|
  {
    && walk[m] in classes && ShutOut(classes, rank, walk[m], name, access)
    && DeclaredKind(classes[walk[m]], name) == None
    && Innermost(Events(classes, rank, walk, name, access)[..m], i)
  }

  lemma BarredNext(classes: Classes, rank: map<Name, nat>, walk: seq<Name>, name: Name, access: Access, i: nat)
    requires Acyclic(classes, rank) && i < |walk| - 1
    ensures Barred(classes, rank, walk, name, access, i)
            <==> || Barred(classes, rank, walk[..|walk| - 1], name, access, i)
                 || BarredBy(classes, rank, walk, name, access, i, |walk| - 1)
  {
    hide ShutOut, Events, DeclaredKind, Innermost, Acyclic;
    var init := walk[..|walk| - 1];
    forall m | i < m < |init|
      ensures BarredBy(classes, rank, walk, name, access, i, m) <==> BarredBy(classes, rank, init, name, access, i, m)
    {
      EventsPrefix(classes, rank, walk, name, access, m);
      EventsPrefix(classes, rank, init, name, access, m);
      assert init[..m] == walk[..m] && init[m] == walk[m];
    }
  }

  lemma StandingTop(events: seq<Event>, q: nat)
    requires q < |Standing(events)|
    ensures Innermost(events, Standing(events)[q]) <==> q == |Standing(events)| - 1
  {
    hide Standing, Unpaid;
    TopIs(events);
    StandingOrder(events);
  }

  /** The blocked bindings are those barred. */
  ghost predicate BlockedAsBarred(classes: Classes, rank: map<Name, nat>, walk: seq<Name>, name: Name, access: Access,
                                  st: seq<Entry>, at: seq<nat>)
    requires Acyclic(classes, rank)
  {
    |st| == |at| && forall q :: 0 <= q < |st| ==>
      at[q] < |walk| && (st[q].blocked <==> Barred(classes, rank, walk, name, access, at[q]))
  }

  lemma ShutOutIs(classes: Classes, rank: map<Name, nat>, level: Name, name: Name, access: Access)
    requires Acyclic(classes, rank) && level in classes
    ensures ShutOut(classes, rank, level, name, access)
            <==> ProtectedAt(classes[level], name) && !Inside(classes, rank, access, level)
  {
  }

  lemma BarredLast(classes: Classes, rank: map<Name, nat>, walk: seq<Name>, name: Name, access: Access)
    requires Acyclic(classes, rank) && walk != [] && walk[|walk| - 1] in classes
    ensures Barred(classes, rank, walk, name, access, |walk| - 1)
            <==> ShutOut(classes, rank, walk[|walk| - 1], name, access)
  {
    hide ShutOut;
  }

  /** Whether the innermost level bars the introduction behind a place of the stack. */
  lemma BarredByLast(classes: Classes, rank: map<Name, nat>, walk: seq<Name>, name: Name, access: Access, q: nat)
    requires Acyclic(classes, rank) && walk != [] && walk[|walk| - 1] in classes
    requires q < |Standing(Events(classes, rank, walk[..|walk| - 1], name, access))|
    ensures var level, at := walk[|walk| - 1], Standing(Events(classes, rank, walk[..|walk| - 1], name, access));
            BarredBy(classes, rank, walk, name, access, at[q], |walk| - 1)
            <==> && ShutOut(classes, rank, level, name, access) && DeclaredKind(classes[level], name) == None
                 && q == |at| - 1
  {
    hide ShutOut, Standing, Events, DeclaredKind, Innermost;
    EventsPrefix(classes, rank, walk, name, access, |walk| - 1);
    StandingTop(Events(classes, rank, walk[..|walk| - 1], name, access), q);
  }

  /** What one more level does to the blocked bindings. */
  lemma BlockedDeclared(classes: Classes, rank: map<Name, nat>, walk: seq<Name>, name: Name, access: Access,
                        st: seq<Entry>)
    requires Acyclic(classes, rank) && walk != [] && walk[|walk| - 1] in classes
    requires var init := walk[..|walk| - 1];
             BlockedAsBarred(classes, rank, init, name, access, st, Standing(Events(classes, rank, init, name, access)))
    ensures var level := walk[|walk| - 1];
            var at := Standing(Events(classes, rank, walk[..|walk| - 1], name, access));
            BlockedAsBarred(classes, rank, walk, name, access, Declare(classes, rank, level, name, access, st),
                            if Introduces(classes[level], name, st) then at + [|walk| - 1] else at)
  {
    hide Standing, Events, DeclaredKind, Barred, BarredBy, ProtectedAt, Inside, Acyclic, ShutOut;
    var level, init := walk[|walk| - 1], walk[..|walk| - 1];
    var at := Standing(Events(classes, rank, init, name, access));
    ShutOutIs(classes, rank, level, name, access);
    BarredLast(classes, rank, walk, name, access);
    forall q | 0 <= q < |st|
      ensures var shut := ShutOut(classes, rank, level, name, access) && DeclaredKind(classes[level], name) == None;
              at[q] < |walk| && (Barred(classes, rank, walk, name, access, at[q])
                                 <==> st[q].blocked || (shut && q == |st| - 1))
    {
      BarredNext(classes, rank, walk, name, access, at[q]);
      BarredByLast(classes, rank, walk, name, access, q);
    }
  }

  lemma BlockedUnknown(classes: Classes, rank: map<Name, nat>, walk: seq<Name>, name: Name, access: Access,
                       st: seq<Entry>, at: seq<nat>)
    requires Acyclic(classes, rank) && walk != [] && walk[|walk| - 1] !in classes
    requires BlockedAsBarred(classes, rank, walk[..|walk| - 1], name, access, st, at)
    ensures BlockedAsBarred(classes, rank, walk, name, access, st, at)
  {
    hide Barred;
    forall q | 0 <= q < |st|
      ensures Barred(classes, rank, walk, name, access, at[q])
              <==> Barred(classes, rank, walk[..|walk| - 1], name, access, at[q])
    {
      BarredNext(classes, rank, walk, name, access, at[q]);
    }
  }

  lemma BlockedPopped(classes: Classes, rank: map<Name, nat>, walk: seq<Name>, name: Name, access: Access,
                      st: seq<Entry>, at: seq<nat>, n: nat)
    requires Acyclic(classes, rank) && BlockedAsBarred(classes, rank, walk, name, access, st, at)
    ensures BlockedAsBarred(classes, rank, walk, name, access, Popped(st, n), Popped(at, n))
  {
    hide Barred;
  }

  /** One level more. */
  lemma BlockedStep(classes: Classes, rank: map<Name, nat>, walk: seq<Name>, name: Name, access: Access,
                    st: seq<Entry>)
    requires Acyclic(classes, rank) && walk != []
    requires var init := walk[..|walk| - 1];
             BlockedAsBarred(classes, rank, init, name, access, st, Standing(Events(classes, rank, init, name, access)))
    ensures var init, level := walk[..|walk| - 1], walk[|walk| - 1];
            var at := Standing(Events(classes, rank, init, name, access));
            if level !in classes then BlockedAsBarred(classes, rank, walk, name, access, st, Popped(at, 0))
            else
              var hides := Hides(classes[level], name, access, level);
              BlockedAsBarred(classes, rank, walk, name, access,
                              Popped(Declare(classes, rank, level, name, access, st), hides),
                              Popped(if Introduces(classes[level], name, st) then at + [|walk| - 1] else at, hides))
  {
    hide Stack, Events, Standing, BlockedAsBarred, Declare, Introduces, Hides, Acyclic;
    var level := walk[|walk| - 1];
    var at := Standing(Events(classes, rank, walk[..|walk| - 1], name, access));
    if level in classes {
      BlockedDeclared(classes, rank, walk, name, access, st);
      BlockedPopped(classes, rank, walk, name, access, Declare(classes, rank, level, name, access, st),
                    if Introduces(classes[level], name, st) then at + [|walk| - 1] else at,
                    Hides(classes[level], name, access, level));
    } else {
      BlockedUnknown(classes, rank, walk, name, access, st, at);
      assert Popped(at, 0) == at;
    }
  }

  lemma BlockedNext(classes: Classes, rank: map<Name, nat>, walk: seq<Name>, name: Name, access: Access)
    requires Acyclic(classes, rank) && walk != []
    requires var init := walk[..|walk| - 1];
             BlockedAsBarred(classes, rank, init, name, access, Stack(classes, rank, init, name, access),
                             Standing(Events(classes, rank, init, name, access)))
    ensures BlockedAsBarred(classes, rank, walk, name, access, Stack(classes, rank, walk, name, access),
                            Standing(Events(classes, rank, walk, name, access)))
  {
    hide Stack, Events, Standing, BlockedAsBarred, Declare, Introduces, Hides, Acyclic;
    EventsNext(classes, rank, walk, name, access);
    StandingNext(Events(classes, rank, walk, name, access));
    StackNext(classes, rank, walk, name, access);
    BlockedStep(classes, rank, walk, name, access, Stack(classes, rank, walk[..|walk| - 1], name, access));
  }

  lemma {:induction false} BlockedIff(classes: Classes, rank: map<Name, nat>, walk: seq<Name>, name: Name, access: Access)
    requires Acyclic(classes, rank)
    ensures BlockedAsBarred(classes, rank, walk, name, access, Stack(classes, rank, walk, name, access),
                            Standing(Events(classes, rank, walk, name, access)))
  {
    if walk != [] {
      hide *;
      BlockedIff(classes, rank, walk[..|walk| - 1], name, access);
      BlockedNext(classes, rank, walk, name, access);
    } else {
      assert Events(classes, rank, [], name, access) == [];
    }
  }

  // ------------------------------------------------------------- the binding found

  /** Level `i` of the walk introduces the name for good, nothing bars the text from it,
      and it is one of the levels in `within`. */
  ghost predicate Open(classes: Classes, rank: map<Name, nat>, walk: seq<Name>, name: Name, access: Access,
                       within: seq<Name>, i: nat)
    requires Acyclic(classes, rank)
  {
    && i < |walk| && Unpaid(Events(classes, rank, walk, name, access), i)
    && walk[i] in within && !Barred(classes, rank, walk, name, access, i)
  }

  /** `r` is the innermost such level with what it declares, or none if there is none. */
  ghost predicate Sees(classes: Classes, rank: map<Name, nat>, walk: seq<Name>, name: Name, access: Access,
                       within: seq<Name>, r: Option<Binding>)
    requires Acyclic(classes, rank)
  {
    match r
    case None => forall i: nat :: !Open(classes, rank, walk, name, access, within, i)
    case Some(b) =>
      exists i: nat :: && Open(classes, rank, walk, name, access, within, i)
                       && (forall j: nat :: Open(classes, rank, walk, name, access, within, j) ==> j <= i)
                       && b.level == walk[i] && walk[i] in classes
                       && DeclaredKind(classes[walk[i]], name) == Some(b.kind)
  }

  /** That leaves one answer only. */
  lemma SeesOnce(classes: Classes, rank: map<Name, nat>, walk: seq<Name>, name: Name, access: Access,
                 within: seq<Name>, r: Option<Binding>, r': Option<Binding>)
    requires Acyclic(classes, rank)
    requires Sees(classes, rank, walk, name, access, within, r) && Sees(classes, rank, walk, name, access, within, r')
    ensures r == r'
  {
    hide Open, DeclaredKind;
  }

  /** Where the search from the top of the stack ends. */
  ghost predicate LastAt(st: seq<Entry>, chain: seq<Name>, r: Option<Binding>, q: int) {
    && -1 <= q < |st| && r.Some? == (q >= 0)
    && (q >= 0 ==> !st[q].blocked && st[q].binding.level in chain && r == Some(st[q].binding))
    && forall p :: q < p < |st| ==> st[p].blocked || st[p].binding.level !in chain
  }

  lemma {:induction false} LastVisibleAt(st: seq<Entry>, chain: seq<Name>) returns (q: int)
    ensures LastAt(st, chain, LastVisible(st, chain), q)
  {
    if st == [] { return -1; }
    var top := st[|st| - 1];
    if !top.blocked && top.binding.level in chain { return |st| - 1; }
    q := LastVisibleAt(st[..|st| - 1], chain);
  }

  lemma OpenAt(classes: Classes, rank: map<Name, nat>, walk: seq<Name>, name: Name, access: Access,
               within: seq<Name>, st: seq<Entry>, at: seq<nat>, q: nat)
    requires Acyclic(classes, rank) && BlockedAsBarred(classes, rank, walk, name, access, st, at)
    requires Parallel(st, at, walk) && at == Standing(Events(classes, rank, walk, name, access)) && q < |st|
    ensures Open(classes, rank, walk, name, access, within, at[q])
            <==> !st[q].blocked && st[q].binding.level in within
  {
    hide Standing, Unpaid, Barred, Events;
    assert at[q] in at;
    StandsIff(Events(classes, rank, walk, name, access), at[q]);
  }

  /** What is open stands on the stack and is not blocked there. */
  lemma OpenStands(classes: Classes, rank: map<Name, nat>, walk: seq<Name>, name: Name, access: Access,
                   within: seq<Name>, st: seq<Entry>, at: seq<nat>, j: nat) returns (p: nat)
    requires Acyclic(classes, rank) && BlockedAsBarred(classes, rank, walk, name, access, st, at)
    requires Parallel(st, at, walk) && at == Standing(Events(classes, rank, walk, name, access))
    requires Open(classes, rank, walk, name, access, within, j)
    ensures p < |st| == |at| && at[p] == j && !st[p].blocked && st[p].binding.level in within
  {
    hide Standing, Unpaid, Events, Barred, BlockedAsBarred;
    StandsIff(Events(classes, rank, walk, name, access), j);
    p :| 0 <= p < |at| && at[p] == j;
    OpenAt(classes, rank, walk, name, access, within, st, at, p);
  }

  lemma SeesAt(classes: Classes, rank: map<Name, nat>, walk: seq<Name>, name: Name, access: Access,
               within: seq<Name>, st: seq<Entry>, at: seq<nat>, r: Option<Binding>, q: int)
    requires Acyclic(classes, rank) && BlockedAsBarred(classes, rank, walk, name, access, st, at)
    requires Parallel(st, at, walk) && at == Standing(Events(classes, rank, walk, name, access))
    requires LastAt(st, within, r, q) && forall p, p' :: 0 <= p < p' < |at| ==> at[p] < at[p']
    requires q >= 0 ==>
               var b := st[q].binding; b.level in classes && DeclaredKind(classes[b.level], name) == Some(b.kind)
    ensures Sees(classes, rank, walk, name, access, within, r)
  {
    hide Standing, Events, Open, BlockedAsBarred, DeclaredKind, Acyclic;
    forall j: nat | Open(classes, rank, walk, name, access, within, j) ensures q >= 0 && j <= at[q] {
      var p := OpenStands(classes, rank, walk, name, access, within, st, at, j);
    }
    if q >= 0 {
      OpenAt(classes, rank, walk, name, access, within, st, at, q);
    }
  }

  /** The last visible binding of the stack is what is seen. */
  lemma SeesLast(classes: Classes, rank: map<Name, nat>, walk: seq<Name>, name: Name, access: Access, within: seq<Name>)
    requires Acyclic(classes, rank) && WellNamed(classes)
    ensures Sees(classes, rank, walk, name, access, within,
                 LastVisible(Stack(classes, rank, walk, name, access), within))
  {
    hide Stack, Standing, Events, Sees, DeclaredKind, BlockedAsBarred, Parallel, ProtectedAt, Inside, LastAt, Acyclic,
         WellNamed, LastVisible;
    var st, at := Stack(classes, rank, walk, name, access), Standing(Events(classes, rank, walk, name, access));
    StackStands(classes, rank, walk, name, access);
    BlockedIff(classes, rank, walk, name, access);
    StandingOrder(Events(classes, rank, walk, name, access));
    var q := LastVisibleAt(st, within);
    LastDeclared(classes, rank, walk, name, access, within, q);
    SeesAt(classes, rank, walk, name, access, within, st, at, LastVisible(st, within), q);
  }

  lemma LastDeclared(classes: Classes, rank: map<Name, nat>, walk: seq<Name>, name: Name, access: Access,
                     within: seq<Name>, q: int)
    requires Acyclic(classes, rank) && WellNamed(classes)
    requires var st := Stack(classes, rank, walk, name, access); LastAt(st, within, LastVisible(st, within), q)
    ensures var st := Stack(classes, rank, walk, name, access);
            q < |st| && (q >= 0 ==>
              var b := st[q].binding; b.level in classes && DeclaredKind(classes[b.level], name) == Some(b.kind))
  {
    hide Stack, DeclaredKind, ProtectedAt, Inside;
    StackEntries(classes, rank, walk, name, access);
    var st := Stack(classes, rank, walk, name, access);
    assert q >= 0 ==> st[q] in st;
  }

  /** Nothing bars a text from the levels of its own chain. */
  lemma NeverBarred(classes: Classes, rank: map<Name, nat>, t: Name, block: bool, name: Name, i: nat)
    requires Acyclic(classes, rank) && i < |Chain(classes, rank, t)|
    ensures !Barred(classes, rank, Chain(classes, rank, t), name, Access(Some(t), block), i)
  {
  }

  /** `r` is the innermost of the first `n` levels of the walk that introduces the name for
      good, with what it declares, or none if there is none. */
  ghost predicate SeesUnpaid(classes: Classes, rank: map<Name, nat>, walk: seq<Name>, name: Name, access: Access,
                             n: nat, r: Option<Binding>)
    requires Acyclic(classes, rank) && n <= |walk|
  {
    var events := Events(classes, rank, walk, name, access);
    match r
    case None => forall i: nat :: Unpaid(events, i) ==> n <= i
    case Some(b) =>
      exists i: nat :: && i < n && Unpaid(events, i) && (forall j: nat :: Unpaid(events, j) ==> j <= i || n <= j)
                       && b.level == walk[i] && walk[i] in classes
                       && DeclaredKind(classes[walk[i]], name) == Some(b.kind)
  }

  lemma SeesPrefix(classes: Classes, rank: map<Name, nat>, walk: seq<Name>, name: Name, access: Access,
                   within: seq<Name>, n: nat, r: Option<Binding>)
    requires Acyclic(classes, rank) && Sees(classes, rank, walk, name, access, within, r) && n <= |walk|
    requires forall i :: 0 <= i < |walk| ==>
               (walk[i] in within <==> i < n) && !Barred(classes, rank, walk, name, access, i)
    ensures SeesUnpaid(classes, rank, walk, name, access, n, r)
  {
    hide Events, Unpaid, Barred, DeclaredKind, Acyclic, Open;
    var events := Events(classes, rank, walk, name, access);
    forall i: nat ensures Open(classes, rank, walk, name, access, within, i) <==> Unpaid(events, i) && i < n {
      OpenInPrefix(classes, rank, walk, name, access, within, n, i);
    }
  }

  lemma OpenInPrefix(classes: Classes, rank: map<Name, nat>, walk: seq<Name>, name: Name, access: Access,
                     within: seq<Name>, n: nat, i: nat)
    requires Acyclic(classes, rank) && n <= |walk|
    requires i < |walk| ==> (walk[i] in within <==> i < n) && !Barred(classes, rank, walk, name, access, i)
    ensures Open(classes, rank, walk, name, access, within, i)
            <==> Unpaid(Events(classes, rank, walk, name, access), i) && i < n
  {
    hide Events, Barred, Acyclic, Unpaid;
  }

  /** Asked through a prefix of its own class, or through the class itself, a text sees
      the innermost introduction left at a level of the qualification, after all that the
      levels of its own chain hide from it; protection does not matter. */
  lemma SeenFromSubclass(classes: Classes, rank: map<Name, nat>, t: Name, block: bool, qual: Name, name: Name,
                         r: Option<Binding>)
    requires Acyclic(classes, rank) && qual in Chain(classes, rank, t)
    requires Sees(classes, rank, Chain(classes, rank, t), name, Access(Some(t), block), Chain(classes, rank, qual), r)
    ensures var walk, n := Chain(classes, rank, t), |Chain(classes, rank, qual)|;
            && n <= |walk| && Chain(classes, rank, qual) == walk[..n]
            && SeesUnpaid(classes, rank, walk, name, Access(Some(t), block), n, r)
  {
    hide Sees, SeesUnpaid, Barred;
    var walk, within := Chain(classes, rank, t), Chain(classes, rank, qual);
    ChainFollowed(classes, rank, t);
    var q :| 0 <= q < |walk| && walk[q] == qual;
    ChainOfLevel(classes, rank, t, q);
    forall i | 0 <= i < |walk|
      ensures (walk[i] in within <==> i < q + 1)
              && !Barred(classes, rank, walk, name, Access(Some(t), block), i)
    {
      NeverBarred(classes, rank, t, block, name, i);
      if i < q + 1 { assert within[i] == walk[i]; }
    }
    SeesPrefix(classes, rank, walk, name, Access(Some(t), block), within, q + 1, r);
  }

  /** Asked through a subclass of its own class, a text sees what it sees itself: the
      innermost introduction left at a level of its own chain; levels further in take no
      part. */
  lemma SeenFromPrefix(classes: Classes, rank: map<Name, nat>, t: Name, block: bool, qual: Name, name: Name,
                       r: Option<Binding>)
    requires Acyclic(classes, rank) && t in Chain(classes, rank, qual)
    requires Sees(classes, rank, Chain(classes, rank, t), name, Access(Some(t), block), Chain(classes, rank, qual), r)
    ensures var walk := Chain(classes, rank, t);
            SeesUnpaid(classes, rank, walk, name, Access(Some(t), block), |walk|, r)
  {
    hide Sees, SeesUnpaid, Barred;
    var walk, within := Chain(classes, rank, t), Chain(classes, rank, qual);
    var q :| 0 <= q < |within| && within[q] == t;
    ChainOfLevel(classes, rank, qual, q);
    forall i | 0 <= i < |walk|
      ensures walk[i] in within && !Barred(classes, rank, walk, name, Access(Some(t), block), i)
    {
      NeverBarred(classes, rank, t, block, name, i);
      assert within[i] == walk[i];
    }
    SeesPrefix(classes, rank, walk, name, Access(Some(t), block), within, |walk|, r);
  }

  // ------------------------------------------------------------- a hidden virtual quantity

  /** `a` specifies a virtual quantity, its subclass `b` hides it and declares no virtual
      quantity of the name itself, and `c` is a subclass of `b`. */
  ghost predicate HiddenVirtual(classes: Classes, a: Name, b: Name, c: Name, name: Name) {
    && a in classes && classes[a].prefix == None && DeclaredKind(classes[a], name) == Some(Virtual)
    && HiddenPlaces(classes[a].protection, name) == {}
    && b in classes && classes[b].prefix == Some(a) && DeclaredKind(classes[b], name) != Some(Virtual)
    && HiddenPlaces(classes[b].protection, name) != {}
    && c in classes && classes[c].prefix == Some(b)
  }

  lemma ThreeLevels(classes: Classes, rank: map<Name, nat>, a: Name, b: Name, c: Name, name: Name)
    requires Acyclic(classes, rank) && HiddenVirtual(classes, a, b, c, name)
    ensures Chain(classes, rank, a) == [a] && Chain(classes, rank, b) == [a, b] && Chain(classes, rank, c) == [a, b, c]
  {
    hide DeclaredKind, HiddenPlaces, Acyclic;
    assert Chain(classes, rank, a) == [a];
    assert Chain(classes, rank, b) == Chain(classes, rank, a) + [b];
    assert Chain(classes, rank, c) == Chain(classes, rank, b) + [c];
  }

  /** The innermost introduction of a single level that introduces. */
  lemma OnePush(events: seq<Event>)
    requires |events| == 1 && events[0].pushes && events[0].pops == 0
    ensures Innermost(events, 0)
  {
    assert events[..1] == events && events[..0] == [] && Balance(events[..0], 0) == 0;
  }

  lemma PushedAndPopped(events: seq<Event>)
    requires |events| >= 2 && events[0].pushes && events[0].pops == 0 && !events[1].pushes
    ensures Unpaid(events[..2], 0) <==> events[1].pops == 0
    ensures events[1].pops > 0 ==> !Unpaid(events, 0)
  {
    var two := events[..2];
    assert two[..0] == [] && two[..1][..0] == [] && two[..2] == two && two[..2][..1] == two[..1] == events[..1];
    assert Balance(two[..1], 0) == 1;
    assert Balance(two, 0) == 1 - events[1].pops;
  }

  lemma TwoEvents(classes: Classes, rank: map<Name, nat>, walk: seq<Name>, a: Name, b: Name, c: Name, name: Name,
                  access: Access)
    requires Acyclic(classes, rank) && WellNamed(classes) && HiddenVirtual(classes, a, b, c, name)
    requires |walk| >= 2 && walk[0] == a && walk[1] == b
    ensures var events := Events(classes, rank, walk, name, access);
            && events[0].pushes && events[0].pops == 0 && !events[1].pushes
            && (events[1].pops == 0 <==> access == Access(Some(b), false))
  {
    hide Events, DeclaredKind, Unpaid, Acyclic, WellNamed, Innermost, HiddenPlaces;
    var events := Events(classes, rank, walk, name, access);
    EventsAre(classes, rank, walk, name, access, 0);
    EventsAre(classes, rank, walk, name, access, 1);
    OnePush(events[..1]);
    assert |HiddenPlaces(classes[a].protection, name)| == 0;
  }

  /** The text of `c` no longer sees the virtual quantity when it asks through `a`,
      whatever the classes declare besides; the text of `b`, which hides it, does. */
  lemma HiddenFurtherIn(classes: Classes, rank: map<Name, nat>, a: Name, b: Name, c: Name, name: Name,
                        asC: Option<Binding>, asB: Option<Binding>)
    requires Acyclic(classes, rank) && WellNamed(classes) && HiddenVirtual(classes, a, b, c, name)
    requires Sees(classes, rank, Chain(classes, rank, c), name, Access(Some(c), false), Chain(classes, rank, a), asC)
    requires Sees(classes, rank, Chain(classes, rank, b), name, Access(Some(b), false), Chain(classes, rank, a), asB)
    ensures asC == None
    ensures asB == Some(Binding(a, Virtual))
  {
    hide Sees, Chain, Events, DeclaredKind, Unpaid, Acyclic, WellNamed;
    ThreeLevels(classes, rank, a, b, c, name);
    assert b != c by { NotOwnPrefix(classes, rank, c); assert [a, b][1] == b; }
    SeenFromSubclass(classes, rank, c, false, a, name, asC);
    TwoEvents(classes, rank, [a, b, c], a, b, c, name, Access(Some(c), false));
    PushedAndPopped(Events(classes, rank, [a, b, c], name, Access(Some(c), false)));
    assert [a, b][0] == a;
    SeenFromSubclass(classes, rank, b, false, a, name, asB);
    var events := Events(classes, rank, [a, b], name, Access(Some(b), false));
    TwoEvents(classes, rank, [a, b], a, b, c, name, Access(Some(b), false));
    PushedAndPopped(events);
    assert events[..2] == events;
  }
}
