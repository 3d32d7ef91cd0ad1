/** How the collector's two block lists share out managed memory, and how that
    survives each list operation. Every list the C code threads through block
    headers is a sequence of payload addresses. */
module HeapLayout {
  import opened Prelude
  import opened HeapGraph

  const POISON_WORD: nat := 0xdddd_dddd_dddd_dddd
  const POISON_WORDS: nat := 16

  // ---------------------------------------------------------------- lists

  ghost predicate Ascending(s: seq<Addr>) {
    forall i, j :: 0 <= i < j < |s| ==> s[i] < s[j]
  }

  lemma AscendingCons(x: Addr, s: seq<Addr>)
    requires Ascending(s) && forall y :: y in s ==> x < y
    ensures Ascending([x] + s)
  {
    var r := [x] + s;
    assert forall j :: 1 <= j < |r| ==> r[j] == s[j - 1] && s[j - 1] in s;
  }

  lemma AscendingTail(s: seq<Addr>)
    requires Ascending(s) && s != []
    ensures Ascending(s[1..]) && forall y :: y in s[1..] ==> s[0] < y
    ensures forall y :: y in s <==> y == s[0] || y in s[1..]
  {
    assert s == [s[0]] + s[1..];
  }

  /** Address order, as the library sort leaves it. */
  function SortedInsert(s: seq<Addr>, a: Addr): seq<Addr> {
    if s == [] then [a]
    else if a < s[0] then [a] + s
    else [s[0]] + SortedInsert(s[1..], a)
  }

  lemma {:induction false} SortedInsertOk(s: seq<Addr>, a: Addr)
    requires Ascending(s) && a !in s
    ensures Ascending(SortedInsert(s, a)) && |SortedInsert(s, a)| == |s| + 1
    ensures forall y :: y in SortedInsert(s, a) <==> y in s || y == a
  {
    if s != [] {
      AscendingTail(s);
      if a < s[0] {
        AscendingCons(a, s);
      } else {
        SortedInsertOk(s[1..], a);
        AscendingCons(s[0], SortedInsert(s[1..], a));
      }
    }
  }

  function Sorted(s: seq<Addr>): seq<Addr> {
    if s == [] then [] else SortedInsert(Sorted(s[1..]), s[0])
  }

  lemma {:induction false} SortedOk(s: seq<Addr>)
    requires Unique(s)
    ensures Ascending(Sorted(s)) && |Sorted(s)| == |s|
    ensures forall y :: y in Sorted(s) <==> y in s
  {
    if s != [] {
      SortedOk(s[1..]);
      assert s == [s[0]] + s[1..];
      SortedInsertOk(Sorted(s[1..]), s[0]);
    }
  }

  /** Payload bytes of the listed blocks. */
  ghost function SumSizes(mem: Memory, s: seq<Addr>): nat {
    if s == [] then 0
    else (if s[0] in mem then mem[s[0]].size else 0) + SumSizes(mem, s[1..])
  }

  lemma {:induction false} SumSizesAgrees(mem: Memory, mem': Memory, s: seq<Addr>)
    requires forall a :: a in s ==> a in mem && a in mem' && mem'[a].size == mem[a].size
    ensures SumSizes(mem', s) == SumSizes(mem, s)
  {
    if s != [] {
      SumSizesAgrees(mem, mem', s[1..]);
    }
  }

  lemma {:induction false} SumSizesSplit(mem: Memory, pre: seq<Addr>, a: Addr, post: seq<Addr>)
    requires a in mem
    ensures SumSizes(mem, pre + [a] + post) == mem[a].size + SumSizes(mem, pre + post)
  {
    if pre == [] {
      assert pre + [a] + post == [a] + post && pre + post == post;
    } else {
      assert (pre + [a] + post)[1..] == pre[1..] + [a] + post;
      assert (pre + post)[1..] == pre[1..] + post;
      SumSizesSplit(mem, pre[1..], a, post);
    }
  }

  // ---------------------------------------------------------------- layout

  /** The block list and the free list share out all of managed memory. */
  ghost predicate HeapOk(mem: Memory, blocks: seq<Addr>, freeList: seq<Addr>) {
    && Separated(mem)
    && Unique(blocks + freeList)
    && (forall a :: a in mem <==> a in blocks + freeList)
  }

  /** Payloads lie inside the range that lets a foreign word be rejected. */
  ghost predicate Within(mem: Memory, lo: nat, hi: nat) {
    forall a :: a in mem ==> lo <= a && a + Extent(mem[a]) <= hi
  }

  /** The blocks of a later list were all listed before and kept their contents. */
  ghost predicate Untouched(was: seq<Addr>, mem: Memory, blocks: seq<Addr>, mem': Memory) {
    forall a :: a in blocks ==> a in was && a in mem && a in mem' && mem'[a] == mem[a]
  }

  lemma UntouchedTwice(
    b0: seq<Addr>, m0: Memory, b1: seq<Addr>, m1: Memory, b2: seq<Addr>, m2: Memory)
    requires Untouched(b0, m0, b1, m1) && Untouched(b1, m1, b2, m2)
    ensures Untouched(b0, m0, b2, m2)
  {
  }

  /** Every other member of a list is left when one is taken out. */
  lemma SplitMembers(pre: seq<Addr>, a: Addr, post: seq<Addr>)
    requires Unique(pre + [a] + post)
    ensures forall x :: x in pre + post ==> x in pre + [a] + post && x != a
  {
    LeftOut(pre + [a] + post, pre + post, a);
  }

  /** Unlinking `a` from the block list, and giving it up or keeping it with the
      same size, leaves the other listed blocks as they were. */
  lemma WithoutBlock(
    mem: Memory, pre: seq<Addr>, a: Addr, post: seq<Addr>, free: seq<Addr>, mem': Memory, lo: nat, hi: nat)
    requires HeapOk(mem, pre + [a] + post, free) && Within(mem, lo, hi)
    requires forall x :: x in mem' ==> x in mem && mem'[x].size == mem[x].size
    requires forall x :: x in mem && x != a ==> x in mem' && mem'[x] == mem[x]
    ensures Within(mem', lo, hi)
    ensures a !in pre + post && Untouched(pre + [a] + post, mem, pre + post, mem')
    ensures a in mem && SumSizes(mem', pre + post) + mem[a].size == SumSizes(mem, pre + [a] + post)
  {
    hide HeapOk, Separated, Unique, WellSized, SumSizes;
    HeapOkParts(mem, pre + [a] + post, free);
    SplitMembers(pre, a, post);
    assert (pre + [a] + post)[|pre|] == a;
    assert a !in pre + post && forall x :: x in pre + post ==> x in mem;
    SumSizesSplit(mem, pre, a, post);
    SumSizesAgrees(mem, mem', pre + post);
  }

  /** The leading words a sweep overwrites. */
  function Poisoned(b: Block, all: bool): (r: Block)
    ensures r.kind == b.kind && r.size == b.size
    ensures WellSized(b) ==> WellSized(r)
  {
    var limit := if all || |b.words| <= POISON_WORDS then |b.words| else POISON_WORDS;
    var words := seq(|b.words|, i requires 0 <= i < |b.words| => if i < limit then POISON_WORD else b.words[i]);
    var tail := if limit == |b.words| && (all || b.size <= POISON_WORDS * WORD_BYTES)
                then seq(|b.tail|, _ => 0xdd) else b.tail;
    Block(b.kind, b.size, words, tail)
  }

  /** They are the first 128 bytes, or all of the payload if it is shorter or `all` is
      asked for; what lies behind stays as it was. */
  lemma PoisonedIs(b: Block, all: bool)
    requires WellSized(b)
    ensures var r, limit := Poisoned(b, all), if all || b.size <= 128 then b.size else 128;
            && |r.words| == |b.words| && |r.tail| == |b.tail|
            && (forall i :: 0 <= i < |b.words| ==>
                  r.words[i] == if 8 * i + 8 <= limit then 0xdddd_dddd_dddd_dddd else b.words[i])
            && (forall i :: 0 <= i < |b.tail| ==>
                  r.tail[i] == if 8 * |b.words| + i < limit then 0xdd else b.tail[i])
  {
    assert b.size == 8 * |b.words| + |b.tail| && |b.tail| < 8;
    if all {
    } else if b.size <= 128 {
      assert |b.words| <= POISON_WORDS;
    } else {
      assert |b.words| >= POISON_WORDS;
    }
  }

  /** A block rewritten in its place. */
  lemma Rewritten(mem: Memory, a: Addr, b: Block)
    requires Separated(mem) && a in mem && b.size == mem[a].size && WellSized(b)
    ensures Separated(mem[a := b]) && mem[a := b].Keys == mem.Keys
  {
  }

  /** The two lists hold the same blocks in another order. */
  lemma Reshared(mem: Memory, blocks: seq<Addr>, free: seq<Addr>, blocks': seq<Addr>, free': seq<Addr>, a: Addr, b: Block)
    requires HeapOk(mem, blocks, free) && a in mem && b.size == mem[a].size && WellSized(b)
    requires multiset(blocks' + free') == multiset(blocks + free)
    ensures HeapOk(mem[a := b], blocks', free')
  {
    Rewritten(mem, a, b);
    Rearranged(blocks + free, blocks' + free');
    hide Separated, Unique, WellSized;
  }

  lemma MovedOver(pre: seq<Addr>, a: Addr, post: seq<Addr>, rest: seq<Addr>)
    ensures multiset(pre + [a] + post + rest) == multiset(pre + post + ([a] + rest))
    ensures multiset(rest + (pre + [a] + post)) == multiset([a] + rest + (pre + post))
  {
  }

  lemma HeapOkToFree(mem: Memory, pre: seq<Addr>, a: Addr, post: seq<Addr>, free: seq<Addr>, b: Block)
    requires HeapOk(mem, pre + [a] + post, free) && a in mem
    requires b.size == mem[a].size && WellSized(b)
    ensures HeapOk(mem[a := b], pre + post, [a] + free)
  {
    hide HeapOk;
    MovedOver(pre, a, post, free);
    Reshared(mem, pre + [a] + post, free, pre + post, [a] + free, a, b);
  }

  lemma HeapOkToHost(mem: Memory, pre: seq<Addr>, a: Addr, post: seq<Addr>, free: seq<Addr>)
    requires HeapOk(mem, pre + [a] + post, free)
    ensures HeapOk(mem - {a}, pre + post, free)
  {
    LeftOut(pre + [a] + post + free, pre + post + free, a);
  }

  lemma HeapOkFromFree(mem: Memory, blocks: seq<Addr>, pre: seq<Addr>, a: Addr, post: seq<Addr>, b: Block)
    requires HeapOk(mem, blocks, pre + [a] + post) && a in mem
    requires b.size == mem[a].size && WellSized(b)
    ensures HeapOk(mem[a := b], [a] + blocks, pre + post)
  {
    hide HeapOk;
    MovedOver(pre, a, post, blocks);
    Reshared(mem, blocks, pre + [a] + post, [a] + blocks, pre + post, a, b);
  }

  /** Taking block number `pos` off the list, to the free list or to the host. */
  lemma ReclaimOk(
    mem: Memory, blocks: seq<Addr>, free: seq<Addr>, pos: nat, all: bool, held: bool,
    rest: seq<Addr>, mem': Memory, lo: nat, hi: nat)
    requires HeapOk(mem, blocks, free) && Within(mem, lo, hi) && pos < |blocks|
    requires blocks[pos] in mem && rest == blocks[..pos] + blocks[pos + 1..]
    requires mem' == if held then mem[blocks[pos] := Poisoned(mem[blocks[pos]], all)]
                     else mem - {blocks[pos]}
    ensures HeapOk(mem', rest, if held then [blocks[pos]] + free else free)
    ensures Within(mem', lo, hi)
    ensures SumSizes(mem', rest) + mem[blocks[pos]].size == SumSizes(mem, blocks)
    ensures blocks[pos] !in rest && Untouched(blocks, mem, rest, mem')
  {
    hide HeapOk, Within, SumSizes, Poisoned, WellSized, Untouched;
    var pre, a, post := blocks[..pos], blocks[pos], blocks[pos + 1..];
    assert blocks == pre + [a] + post;
    HeapOkParts(mem, blocks, free);
    if held {
      HeapOkToFree(mem, pre, a, post, free, Poisoned(mem[a], all));
    } else {
      HeapOkToHost(mem, pre, a, post, free);
    }
    WithoutBlock(mem, pre, a, post, free, mem', lo, hi);
  }

  /** A range the host may hand out: inside the address space, clear of every
      managed block. */
  predicate FitsAt(mem: Memory, a: Addr, size: nat) {
    && HEADER_BYTES < a && a % WORD_BYTES == 0
    && a + (if size > 0 then size else 1) < ADDRESS_LIMIT
    && (forall b :: b in mem ==>
          && (a < b ==> a + size + HEADER_BYTES <= b)
          && (b < a ==> b + mem[b].size + HEADER_BYTES <= a)
          && a != b)
  }

  lemma HeapOkFromHost(mem: Memory, blocks: seq<Addr>, free: seq<Addr>, a: Addr, b: Block)
    requires HeapOk(mem, blocks, free) && FitsAt(mem, a, b.size) && WellSized(b)
    ensures HeapOk(mem[a := b], [a] + blocks, free)
  {
    var s, t := blocks + free, [a] + blocks + free;
    assert t == [a] + s;
    assert forall i :: 0 <= i < |s| ==> s[i] in s && s[i] in mem;
    assert Unique(t);
    assert Separated(mem[a := b]);
  }

  lemma HeapOkParts(mem: Memory, blocks: seq<Addr>, free: seq<Addr>)
    requires HeapOk(mem, blocks, free)
    ensures Separated(mem) && Unique(blocks) && Unique(free)
    ensures forall a :: a in blocks ==> a in mem && a !in free && WellSized(mem[a])
    ensures forall a :: a in free ==> a in mem && a !in blocks && WellSized(mem[a])
  {
    var all := blocks + free;
    assert forall i :: 0 <= i < |blocks| ==> all[i] == blocks[i];
    assert forall i :: 0 <= i < |free| ==> all[|blocks| + i] == free[i];
  }

  /** The envelope after a block at `a` with extent `e` joins the heap. */
  function LowerBound(lo: nat, hi: nat, a: Addr): nat {
    if hi == 0 || a < lo then a else lo
  }

  function UpperBound(hi: nat, a: Addr, e: nat): nat {
    if a + e > hi then a + e else hi
  }

  /** Putting a block at the head of the list, out of the free list or straight
      from the host. */
  lemma AllocOk(
    mem: Memory, blocks: seq<Addr>, free: seq<Addr>, free': seq<Addr>, at: Option<nat>,
    a: Addr, kind: Kind, size: nat, lo: nat, hi: nat)
    requires HeapOk(mem, blocks, free) && Within(mem, lo, hi)
    requires match at
             case Some(i) =>
               && i < |free| && free[i] == a && free' == free[..i] + free[i + 1..]
               && a in mem && mem[a].size == size
             case None => free' == free && FitsAt(mem, a, size)
    ensures a != 0 && a !in blocks && a !in free'
    ensures HeapOk(mem[a := Zeroed(kind, size)], [a] + blocks, free')
    ensures Within(mem[a := Zeroed(kind, size)], LowerBound(lo, hi, a),
                   UpperBound(hi, a, if size > 0 then size else 1))
    ensures SumSizes(mem[a := Zeroed(kind, size)], [a] + blocks) == size + SumSizes(mem, blocks)
    ensures forall x :: x in blocks ==> x in mem && x != a
  {
    hide HeapOk, Zeroed, Within, SumSizes, Separated, WellSized, FitsAt;
    var b := Zeroed(kind, size);
    HeapOkParts(mem, blocks, free);
    ZeroedIs(kind, size);
    match at {
      case Some(i) =>
        assert free == free[..i] + [a] + free[i + 1..];
        HeapOkFromFree(mem, blocks, free[..i], a, free[i + 1..], b);
      case None =>
        HeapOkFromHost(mem, blocks, free, a, b);
    }
    HeapOkParts(mem[a := b], [a] + blocks, free');
    UniqueHead(a, blocks);
    WidenedFor(mem, a, b, lo, hi);
    SumSizesCons(mem, blocks, a, b);
  }

  lemma ZeroedIs(kind: Kind, size: nat)
    ensures Zeroed(kind, size).size == size && WellSized(Zeroed(kind, size))
  {
  }

  lemma WidenedFor(mem: Memory, a: Addr, b: Block, lo: nat, hi: nat)
    requires Within(mem, lo, hi)
    ensures Within(mem[a := b], LowerBound(lo, hi, a), UpperBound(hi, a, if b.size > 0 then b.size else 1))
  {
  }

  lemma SumSizesCons(mem: Memory, blocks: seq<Addr>, a: Addr, b: Block)
    requires a !in blocks && forall x :: x in blocks ==> x in mem
    ensures SumSizes(mem[a := b], [a] + blocks) == b.size + SumSizes(mem, blocks)
  {
    SumSizesAgrees(mem, mem[a := b], blocks);
    assert ([a] + blocks)[1..] == blocks;
  }

  /** Writing one word into a payload. */
  lemma StoreOk(mem: Memory, blocks: seq<Addr>, free: seq<Addr>, a: Addr, i: nat, w: nat, lo: nat, hi: nat)
    requires HeapOk(mem, blocks, free) && Within(mem, lo, hi) && a in mem
    requires i < |mem[a].words| && w < ADDRESS_LIMIT
    ensures var mem' := mem[a := mem[a].(words := mem[a].words[i := w])];
            && HeapOk(mem', blocks, free) && Within(mem', lo, hi)
            && SumSizes(mem', blocks) == SumSizes(mem, blocks)
  {
    var b := mem[a].(words := mem[a].words[i := w]);
    HeapOkParts(mem, blocks, free);
    assert mem[a] == mem[a] && (forall x :: x in mem ==> WellSized(mem[x]));
    assert WellSized(b);
    SameShapes(mem, mem[a := b], blocks, free, lo, hi);
    SumSizesAgrees(mem, mem[a := b], blocks);
  }

  /** Only where blocks lie and how long they are matters to the layout. */
  lemma SameShapes(mem: Memory, mem': Memory, blocks: seq<Addr>, free: seq<Addr>, lo: nat, hi: nat)
    requires HeapOk(mem, blocks, free) && Within(mem, lo, hi) && mem'.Keys == mem.Keys
    requires forall x :: x in mem ==> mem'[x].size == mem[x].size && WellSized(mem'[x])
    ensures HeapOk(mem', blocks, free) && Within(mem', lo, hi)
  {
    hide WellSized;
  }

  lemma UniqueHead(a: Addr, s: seq<Addr>)
    requires Unique([a] + s)
    ensures a !in s
  {
    assert forall i :: 0 <= i < |s| ==> ([a] + s)[i + 1] == s[i] && ([a] + s)[0] != ([a] + s)[i + 1];
  }

  // ---------------------------------------------------------------- sweep

  /** A sweep of the list `was` in place: the first `i` blocks are behind it, `pos`
      of them still listed, and their mark bits are down. */
  ghost predicate Sweeping(
    was: seq<Addr>, i: nat, keep: set<Addr>, marks: set<Addr>, blocks: seq<Addr>, pos: nat, marked: set<Addr>)
  {
    && i <= |was| && Unique(was) && marks <= keep
    && blocks == Keep(was[..i], keep) + was[i..]
    && pos == |Keep(was[..i], keep)|
    && marked == marks - Elems(was[..i])
  }

  lemma SweepStarts(was: seq<Addr>, keep: set<Addr>, marks: set<Addr>)
    requires Unique(was) && marks <= keep
    ensures Sweeping(was, 0, keep, marks, was, 0, marks)
  {
    assert was[..0] == [] && was[0..] == was;
  }

  lemma SweepSees(
    was: seq<Addr>, i: nat, keep: set<Addr>, marks: set<Addr>, blocks: seq<Addr>, pos: nat, marked: set<Addr>)
    requires Sweeping(was, i, keep, marks, blocks, pos, marked) && pos < |blocks|
    ensures i < |was| && blocks[pos] == was[i]
    ensures blocks[pos] in marked <==> blocks[pos] in marks
  {
    assert was[..i + 1] == was[..i] + [was[i]];
  }

  lemma SweepKeeps(
    was: seq<Addr>, i: nat, keep: set<Addr>, marks: set<Addr>, blocks: seq<Addr>, pos: nat, marked: set<Addr>)
    requires Sweeping(was, i, keep, marks, blocks, pos, marked) && pos < |blocks|
    requires blocks[pos] in keep
    ensures Sweeping(was, i + 1, keep, marks, blocks, pos + 1, marked - {blocks[pos]})
  {
    SweepSees(was, i, keep, marks, blocks, pos, marked);
    KeepNext(was, i, keep);
    assert was[i..] == [was[i]] + was[i + 1..];
  }

  lemma SweepCuts(
    was: seq<Addr>, i: nat, keep: set<Addr>, marks: set<Addr>, blocks: seq<Addr>, pos: nat, marked: set<Addr>)
    requires Sweeping(was, i, keep, marks, blocks, pos, marked) && pos < |blocks|
    requires blocks[pos] !in keep
    ensures Sweeping(was, i + 1, keep, marks, blocks[..pos] + blocks[pos + 1..], pos, marked)
  {
    SweepSees(was, i, keep, marks, blocks, pos, marked);
    KeepNext(was, i, keep);
    assert was[i..] == [was[i]] + was[i + 1..];
  }

  lemma SweepEnds(
    was: seq<Addr>, i: nat, keep: set<Addr>, marks: set<Addr>, blocks: seq<Addr>, pos: nat, marked: set<Addr>)
    requires Sweeping(was, i, keep, marks, blocks, pos, marked) && pos >= |blocks|
    requires marks <= Elems(was)
    ensures blocks == Keep(was, keep) && marked == {}
  {
    assert i == |was| && was[..i] == was && was[i..] == [];
  }

  // ---------------------------------------------------------------- gray

  /** How marking moved the gray stack from one moment to a later one: old entries
      stay, each new entry is a newly marked block, and a newly marked block is
      missing from the stack only if the overflow flag is up. */
  ghost predicate GrayGrew(
    marked: set<Addr>, gray: seq<Addr>, overflow: bool,
    marked': set<Addr>, gray': seq<Addr>, overflow': bool)
  {
    && marked <= marked'
    && |gray| <= |gray'| && gray'[..|gray|] == gray
    && (forall i :: |gray| <= i < |gray'| ==> gray'[i] in marked' - marked)
    && (overflow ==> overflow')
    && (overflow' || forall a :: a in marked' - marked ==> a in gray'[|gray|..])
    && (marked' == marked ==> overflow' == overflow && gray' == gray)
  }

  lemma GrayGrewIdle(m: set<Addr>, g: seq<Addr>, o: bool)
    ensures GrayGrew(m, g, o, m, g, o)
  {
  }

  lemma GrayGrewTwice(
    m0: set<Addr>, g0: seq<Addr>, o0: bool, m1: set<Addr>, g1: seq<Addr>, o1: bool,
    m2: set<Addr>, g2: seq<Addr>, o2: bool)
    requires GrayGrew(m0, g0, o0, m1, g1, o1) && GrayGrew(m1, g1, o1, m2, g2, o2)
    ensures GrayGrew(m0, g0, o0, m2, g2, o2)
  {
    assert g2[..|g0|] == g2[..|g1|][..|g0|];
    assert g2[|g0|..] == g1[|g0|..] + g2[|g1|..];
    forall i | |g0| <= i < |g2|
      ensures g2[i] in m2 - m0
    {
      if i < |g1| {
        assert g2[i] == g2[..|g1|][i];
      }
    }
  }

  /** Every marked block is waiting to be traced or has all it points into marked,
      unless the overflow flag says some were lost. */
  ghost predicate Settled(mem: Memory, live: set<Addr>, marked: set<Addr>, waiting: seq<Addr>, overflow: bool)
    requires live <= mem.Keys && marked <= live
  {
    overflow
    || forall a :: a in marked ==> a in waiting || Hits(mem, live, Slots(mem[a])) <= marked
  }

  /** Popping a block and tracing it keeps every marked block accounted for. */
  lemma SettledAfterTrace(
    mem: Memory, live: set<Addr>, a: Addr,
    m: set<Addr>, stack: seq<Addr>, o: bool, m': set<Addr>, gray': seq<Addr>, o': bool)
    requires live <= mem.Keys && m <= live && m' <= live && a in live
    requires Settled(mem, live, m, stack + [a], o)
    requires GrayGrew(m, stack, o, m', gray', o')
    requires m' == m + Hits(mem, live, Slots(mem[a]))
    ensures Settled(mem, live, m', gray', o')
    ensures m' != m ==> live - m' < live - m
    ensures |stack| == |gray'| || m' != m
  {
    assert gray' == stack + gray'[|stack|..];
    if |gray'| > |stack| {
      assert gray'[|stack|] in m' - m;
    }
  }

  /** The rescan of the list up to position `i`: what it passed is traced, or was
      marked later and is waiting. */
  ghost predicate Passed(
    mem: Memory, blocks: seq<Addr>, i: nat, marked: set<Addr>, waiting: seq<Addr>, overflow: bool)
    requires (forall a :: a in blocks ==> a in mem) && i <= |blocks|
  {
    overflow
    || forall k :: 0 <= k < i && blocks[k] in marked ==>
         blocks[k] in waiting || Hits(mem, Elems(blocks), Slots(mem[blocks[k]])) <= marked
  }

  lemma PassedNext(
    mem: Memory, blocks: seq<Addr>, i: nat,
    m: set<Addr>, g: seq<Addr>, o: bool, m': set<Addr>, g': seq<Addr>, o': bool)
    requires (forall a :: a in blocks ==> a in mem) && i < |blocks|
    requires Passed(mem, blocks, i, m, g, o) && GrayGrew(m, g, o, m', g', o')
    requires m' == m + Hits(mem, Elems(blocks), Slots(mem[blocks[i]]))
    ensures Passed(mem, blocks, i + 1, m', g', o')
  {
    assert g' == g + g'[|g|..];
  }

  lemma PassedAll(mem: Memory, blocks: seq<Addr>, marked: set<Addr>, waiting: seq<Addr>, overflow: bool)
    requires (forall a :: a in blocks ==> a in mem) && marked <= Elems(blocks)
    requires Passed(mem, blocks, |blocks|, marked, waiting, overflow)
    ensures Settled(mem, Elems(blocks), marked, waiting, overflow)
  {
  }
}
