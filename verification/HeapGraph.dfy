/** The managed heap as a graph: what a block is, which words a trace of it
    follows, and which blocks are reachable from a list of root words.

    A pointer is its address and memory is a map from payload addresses to
    blocks; address 0 is NULL. A block owns the bytes from its 24-byte header
    up to the end of its payload. */
module HeapGraph {
  import opened Prelude

  const HEADER_BYTES: nat := 24
  const WORD_BYTES: nat := 8
  const ADDRESS_LIMIT: nat := 0x1_0000_0000_0000_0000

  datatype Kind =
    | ObjectKind | ArrayI64 | ArrayF64 | ArrayText | TextFrame | TextObject | OpaqueKind

  /** `words` are the payload's whole machine words, `tail` the bytes after them. */
  datatype Block = Block(kind: Kind, size: nat, words: seq<nat>, tail: seq<nat>)

  type Memory = map<Addr, Block>

  predicate WellSized(b: Block) {
    && |b.words| == b.size / WORD_BYTES
    && |b.tail| == b.size % WORD_BYTES
    && (forall i :: 0 <= i < |b.words| ==> b.words[i] < ADDRESS_LIMIT)
  }

  /** A payload of `size` zero bytes. */
  function Zeroed(kind: Kind, size: nat): (b: Block)
    ensures WellSized(b) && b.kind == kind && b.size == size
    ensures (forall w :: w in b.words ==> w == 0) && forall t :: t in b.tail ==> t == 0
  {
    Block(kind, size, seq(size / WORD_BYTES, _ => 0), seq(size % WORD_BYTES, _ => 0))
  }

  /** A word read back as int64. */
  function Signed(w: nat): int {
    if w < 0x8000_0000_0000_0000 then w else w - ADDRESS_LIMIT
  }

  /** The words a trace of `b` hands to the marker, in the order it does. */
  function Slots(b: Block): (r: seq<nat>)
    ensures forall w :: w in r ==> w in b.words
  {
    match b.kind
    case ArrayF64 => []
    case TextObject => []
    case TextFrame => if |b.words| >= 1 then [b.words[0]] else []
    case ArrayText =>
      if |b.words| < 1 then []
      else
        var ndims := Signed(b.words[0]);
        if ndims < 0 || ndims > |b.words| || 1 + 2 * ndims > |b.words| then []
        else b.words[1 + 2 * ndims..]
    case _ => b.words
  }

  /** Which words those are: all words of an object, of a numeric array, whose bounds and
      elements cannot be told from pointers, and of a block of unknown layout; the first
      word of a text frame; of a text array those right behind the two bounds of each of
      its dimensions; of a real array and of a text's characters none. */
  lemma SlotsAre(b: Block)
    ensures b.kind in {ObjectKind, ArrayI64, OpaqueKind} ==> Slots(b) == b.words
    ensures b.kind in {ArrayF64, TextObject} ==> Slots(b) == []
    ensures b.kind == TextFrame ==> Slots(b) == if b.words == [] then [] else [b.words[0]]
    ensures b.kind == ArrayText ==>
              forall n: nat :: b.words != [] && b.words[0] == n && n < 0x8000_0000_0000_0000 ==>
                && |Slots(b)| == (if 1 + 2 * n < |b.words| then |b.words| - 1 - 2 * n else 0)
                && forall k :: 0 <= k < |Slots(b)| ==> Slots(b)[k] == b.words[1 + 2 * n + k]
    ensures b.kind == ArrayText && (b.words == [] || b.words[0] >= 0x8000_0000_0000_0000) ==>
              WellSized(b) ==> Slots(b) == []
  {
  }

  /** An empty payload still answers for one address. */
  function Extent(b: Block): nat {
    if b.size > 0 then b.size else 1
  }

  predicate Covers(mem: Memory, a: Addr, p: nat)
    requires a in mem
  {
    a <= p < a + Extent(mem[a])
  }

  /** A block answers for the addresses of its payload bytes, and for its own address. */
  lemma CoversIs(mem: Memory, a: Addr, p: nat)
    requires a in mem
    ensures Covers(mem, a, p) <==> p == a || a < p < a + mem[a].size
  {
  }

  /** Every block lies in the address space and no two overlap, headers included. */
  ghost predicate Separated(mem: Memory) {
    && (forall a :: a in mem ==>
          && HEADER_BYTES < a && a % WORD_BYTES == 0
          && a + Extent(mem[a]) < ADDRESS_LIMIT && WellSized(mem[a]))
    && (forall a, b :: a in mem && b in mem && a < b ==> a + mem[a].size + HEADER_BYTES <= b)
  }

  lemma CoverUnique(mem: Memory, a: Addr, b: Addr, p: nat)
    requires Separated(mem) && a in mem && b in mem
    requires Covers(mem, a, p) && Covers(mem, b, p)
    ensures a == b
  {
  }

  /** The first block of the list whose payload contains `p`, or NULL: the search
      a collector without an index would make. */
  function Lookup(mem: Memory, list: seq<Addr>, p: nat): (r: Addr)
    requires forall a :: a in list ==> a in mem
    ensures r != 0 ==> r in list && Covers(mem, r, p)
    ensures r == 0 && 0 !in list ==> forall a :: a in list ==> !Covers(mem, a, p)
  {
    if list == [] then 0
    else if Covers(mem, list[0], p) then list[0]
    else Lookup(mem, list[1..], p)
  }

  /** The live blocks that some word of `ws` points into. */
  ghost function Hits(mem: Memory, live: set<Addr>, ws: seq<nat>): (r: set<Addr>)
    requires live <= mem.Keys
    ensures r <= live
  {
    set a | a in live && exists w :: w in ws && Covers(mem, a, w)
  }

  lemma HitsAppend(mem: Memory, live: set<Addr>, s: seq<nat>, t: seq<nat>)
    requires live <= mem.Keys
    ensures Hits(mem, live, s + t) == Hits(mem, live, s) + Hits(mem, live, t)
  {
    forall a | a in live
      ensures a in Hits(mem, live, s + t) <==> a in Hits(mem, live, s) + Hits(mem, live, t)
    {
      if w :| w in s && Covers(mem, a, w) {
        assert w in s + t;
      }
      if w :| w in t && Covers(mem, a, w) {
        assert w in s + t;
      }
    }
  }

  lemma HitsNone(mem: Memory, live: set<Addr>)
    requires live <= mem.Keys
    ensures Hits(mem, live, []) == {}
  {
  }

  /** One word points into the block a linear search would find, and no other. */
  lemma HitsLookup(mem: Memory, list: seq<Addr>, p: nat)
    requires Separated(mem) && forall a :: a in list ==> a in mem
    ensures Hits(mem, Elems(list), [p])
            == if Lookup(mem, list, p) == 0 then {} else {Lookup(mem, list, p)}
    ensures p == 0 ==> Lookup(mem, list, p) == 0
  {
    assert p in [p];
    assert 0 !in list;
    var found := Lookup(mem, list, p);
    forall a | a in Elems(list) && Covers(mem, a, p)
      ensures a == found
    {
      CoverUnique(mem, a, found, p);
    }
  }

  /** A chain of blocks, the first pointed into by a root word and each later one
      by a traced word of its predecessor. */
  ghost predicate IsPath(mem: Memory, live: set<Addr>, roots: seq<nat>, path: seq<Addr>)
    requires live <= mem.Keys
  {
    && |path| > 0
    && path[0] in Hits(mem, live, roots)
    && (forall i :: 0 <= i < |path| ==> path[i] in live)
    && (forall i :: 1 <= i < |path| ==> path[i] in Hits(mem, live, Slots(mem[path[i - 1]])))
  }

  ghost predicate Reachable(mem: Memory, live: set<Addr>, roots: seq<nat>, a: Addr)
    requires live <= mem.Keys
  {
    exists path :: IsPath(mem, live, roots, path) && path[|path| - 1] == a
  }

  ghost function ReachSet(mem: Memory, live: set<Addr>, roots: seq<nat>): (r: set<Addr>)
    requires live <= mem.Keys
    ensures r <= live
  {
    set a | a in live && Reachable(mem, live, roots, a)
  }

  /** Everything a member's trace points into is a member too. */
  ghost predicate Closed(mem: Memory, live: set<Addr>, s: set<Addr>)
    requires live <= mem.Keys && s <= live
  {
    forall a :: a in s ==> Hits(mem, live, Slots(mem[a])) <= s
  }

  lemma ReachSetHasRoots(mem: Memory, live: set<Addr>, roots: seq<nat>)
    requires live <= mem.Keys
    ensures Hits(mem, live, roots) <= ReachSet(mem, live, roots)
  {
    forall a | a in Hits(mem, live, roots)
      ensures a in ReachSet(mem, live, roots)
    {
      assert IsPath(mem, live, roots, [a]);
      assert [a][|[a]| - 1] == a;
    }
  }

  lemma ReachedNext(mem: Memory, live: set<Addr>, roots: seq<nat>, a: Addr, b: Addr)
    requires live <= mem.Keys && a in live && Reachable(mem, live, roots, a)
    requires b in Hits(mem, live, Slots(mem[a]))
    ensures b in live && Reachable(mem, live, roots, b)
  {
    hide Hits, Slots;
    var path :| IsPath(mem, live, roots, path) && path[|path| - 1] == a;
    var longer := path + [b];
    assert IsPath(mem, live, roots, longer);
    assert longer[|longer| - 1] == b;
  }

  lemma ReachSetClosed(mem: Memory, live: set<Addr>, roots: seq<nat>)
    requires live <= mem.Keys
    ensures Closed(mem, live, ReachSet(mem, live, roots))
  {
    var reach := ReachSet(mem, live, roots);
    forall a, b | a in reach && b in Hits(mem, live, Slots(mem[a]))
      ensures b in reach
    {
      ReachedNext(mem, live, roots, a, b);
    }
  }

  lemma {:induction false} PathStaysInside(
    mem: Memory, live: set<Addr>, roots: seq<nat>, s: set<Addr>, path: seq<Addr>, i: nat)
    requires live <= mem.Keys && s <= live
    requires Hits(mem, live, roots) <= s && Closed(mem, live, s)
    requires IsPath(mem, live, roots, path) && i < |path|
    ensures path[i] in s
  {
    if i > 0 {
      PathStaysInside(mem, live, roots, s, path, i - 1);
    }
  }

  /** The reachable blocks are the least closed set that contains the root hits:
      a marker that has marked only reachable blocks, all root hits, and is
      closed, has marked exactly the reachable blocks. */
  lemma ReachSetIsLeast(mem: Memory, live: set<Addr>, roots: seq<nat>, s: set<Addr>)
    requires live <= mem.Keys && s <= live
    requires Hits(mem, live, roots) <= s && Closed(mem, live, s)
    ensures ReachSet(mem, live, roots) <= s
  {
    forall a | a in ReachSet(mem, live, roots)
      ensures a in s
    {
      var path :| IsPath(mem, live, roots, path) && path[|path| - 1] == a;
      PathStaysInside(mem, live, roots, s, path, |path| - 1);
    }
  }
}
