/** The mark-sweep collector of gc.c. Each header flag bit is the set of addresses
    whose header has it. Whether the host grants memory is arbitrary at every
    request. */
module Collector {
  import opened Prelude
  import opened HeapGraph
  import opened HeapLayout
  import opened RootStacks

  const FREE_SCAN: nat := 64
  const FREE_MAX: nat := 4096
  const INITIAL_CAP: nat := 64
  const PIN_MAX: nat := 256

  class Heap {
    /** The running coroutine's root list and the parked ones. */
    const chains: Stacks
    /** Words enumerated by io.c and sim.c, objects enumerated by sequencing.c, and
        the embedder's pin table, whose slot 0 is never used. */
    var runtimeRoots: seq<nat>
    var componentRoots: seq<nat>
    var pins: seq<Addr>

    var mem: Memory
    /** Every managed block, newest first, and the swept ones held for reuse. */
    var blocks: seq<Addr>
    var freeList: seq<Addr>
    var blockCount: nat
    var liveBytes: nat
    var freeCount: nat

    var heapLo: nat
    var heapHi: nat
    var index: seq<Addr>
    var indexCap: nat

    var gray: seq<Addr>
    var grayCap: nat
    var grayOverflow: bool
    var marked: set<Addr>
    var pinned: set<Addr>
    var unswept: set<Addr>

    /** Allocations between automatic collections; 0 disables them. */
    var threshold: nat
    var sinceCollect: nat
    var disabled: bool
    var collecting: bool
    var deferCollect: nat
    var poisonAll: bool

    var collections: nat
    var blocksFreed: nat
    var bytesFreed: nat
    var allocations: nat
    var slotsReused: nat
    /** Blocks handed back to the host, and payload bytes ever handed out. */
    ghost var hostFreed: nat
    ghost var bytesAllocated: nat

    constructor (chains: Stacks)
      requires chains.Valid()
      ensures Valid() && this.chains == chains && blocks == [] && freeList == []
    {
      this.chains := chains;
      runtimeRoots, componentRoots, pins := [], [], seq(PIN_MAX, _ => 0);
      mem, blocks, freeList, index, gray := map[], [], [], [], [];
      blockCount, liveBytes, freeCount, heapLo, heapHi := 0, 0, 0, 0, 0;
      indexCap, grayCap, grayOverflow := 0, 0, false;
      marked, pinned, unswept := {}, {}, {};
      threshold, sinceCollect, disabled, collecting, deferCollect := 1024, 0, false, false, 0;
      poisonAll := false;
      collections, blocksFreed, bytesFreed, allocations, slotsReused := 0, 0, 0, 0, 0;
      hostFreed, bytesAllocated := 0, 0;
    }

    /** The counters agree with the lists and with each other. */
    ghost predicate Books()
      reads this`mem, this`blocks, this`freeList, this`blockCount, this`liveBytes, this`freeCount
      reads this`blocksFreed, this`bytesFreed, this`allocations, this`slotsReused
      reads this`hostFreed, this`bytesAllocated
    {
      && blockCount == |blocks| && freeCount == |freeList| <= FREE_MAX
      && liveBytes == SumSizes(mem, blocks)
      && allocations == |blocks| + blocksFreed
      && bytesAllocated == liveBytes + bytesFreed
      && blocksFreed == slotsReused + |freeList| + hostFreed
    }

    /** Memory is laid out as the lists say and the counters agree with it. */
    ghost predicate Sound()
      reads this`mem, this`blocks, this`freeList, this`blockCount, this`liveBytes, this`freeCount
      reads this`blocksFreed, this`bytesFreed, this`allocations, this`slotsReused
      reads this`hostFreed, this`bytesAllocated, this`heapLo, this`heapHi
    {
      HeapOk(mem, blocks, freeList) && Books() && Within(mem, heapLo, heapHi)
    }

    ghost function Live(): set<Addr>
      reads this`blocks
    {
      Elems(blocks)
    }

    /** What every marking step relies on and keeps. */
    ghost predicate Marking()
      reads this`mem, this`blocks, this`heapLo, this`heapHi, this`index
      reads this`gray, this`marked
    {
      && Separated(mem) && Within(mem, heapLo, heapHi)
      && (forall a :: a in blocks ==> a in mem)
      && Ascending(index) && (forall a :: a in index <==> a in blocks)
      && marked <= Live()
      && (forall a :: a in gray ==> a in marked)
    }

    /** The place of an address in the index tells its block: only the one in front of
        the place can cover it. */
    lemma BesidePlace(low: nat, address: nat)
      requires Marking() && low <= |index|
      requires forall i :: 0 <= i < low ==> index[i] <= address
      requires forall i :: low <= i < |index| ==> address < index[i]
      ensures low == 0 ==> Lookup(mem, blocks, address) == 0
      ensures low > 0 ==>
                var a := index[low - 1];
                a in mem && Lookup(mem, blocks, address) == if address < a + Extent(mem[a]) then a else 0
    {
      forall a | a in blocks && Covers(mem, a, address)
        ensures low > 0 && a == index[low - 1]
      {
        assert a in index;
        NoGapCovered(a, low, address);
      }
      if low > 0 { assert index[low - 1] in index; }
    }

    /** A block in front of another ends before it starts. */
    lemma NoGapCovered(a: Addr, low: nat, address: nat)
      requires Marking() && a in index && a in mem && Covers(mem, a, address) && low <= |index|
      requires forall i :: 0 <= i < low ==> index[i] <= address
      requires forall i :: low <= i < |index| ==> address < index[i]
      ensures low > 0 && a == index[low - 1]
    {
      var i :| 0 <= i < |index| && index[i] == a;
      assert i < low;
      assert index[low - 1] in index && index[low - 1] in mem;
    }

    /** The block whose payload contains `address`, or NULL, by binary search. */
    method BlockAt(address: nat) returns (r: Addr)
      requires Marking()
      ensures r == Lookup(mem, blocks, address)
      ensures r != 0 ==> r in blocks && r in mem && (address == r || r < address < r + mem[r].size)
      ensures r == 0 ==> forall a :: a in blocks && a in mem ==> address < a || (a < address && a + mem[a].size <= address)
    {
      if address < heapLo || address >= heapHi { return 0; }
      var low, high := 0, |index|;
      while low < high
        invariant 0 <= low <= high <= |index|
        invariant forall i :: 0 <= i < low ==> index[i] <= address
        invariant forall i :: high <= i < |index| ==> address < index[i]
      {
        var mid := low + (high - low) / 2;
        if index[mid] <= address { low := mid + 1; } else { high := mid; }
      }
      BesidePlace(low, address);
      if low == 0 { return 0; }
      var candidate: Addr := index[low - 1];
      r := if address < candidate + Extent(mem[candidate]) then candidate else 0;
    }

    /** Pushes a newly marked block, or raises the overflow flag when the host
        will not grow the stack. */
    method PushGray(a: Addr)
      requires |gray| <= grayCap
      modifies this`gray, this`grayCap, this`grayOverflow
      ensures |gray| <= grayCap
      ensures || (gray == old(gray) + [a] && grayOverflow == old(grayOverflow))
              || (gray == old(gray) && grayOverflow)
      ensures old(|gray| < grayCap) ==> gray == old(gray) + [a]
    {
      if |gray| == grayCap {
        if grayCap > SIZE_MAX / 2 {
          grayOverflow := true;
          return;
        }
        var cap := if grayCap == 0 then INITIAL_CAP else grayCap * 2;
        var granted := HostGrants();
        if !granted {
          grayOverflow := true;
          return;
        }
        grayCap := cap;
      }
      gray := gray + [a];
    }

    method Mark(pointer: nat)
      requires Marking() && |gray| <= grayCap
      modifies this`gray, this`grayCap, this`grayOverflow, this`marked
      ensures Marking() && |gray| <= grayCap
      ensures marked == old(marked) + Hits(mem, Live(), [pointer])
      ensures GrayGrew(old(marked), old(gray), old(grayOverflow), marked, gray, grayOverflow)
    {
      HitsLookup(mem, blocks, pointer);
      if pointer == 0 { return; }
      var a := BlockAt(pointer);
      if a == 0 || a in marked { return; }
      marked := marked + {a};
      PushGray(a);
    }

    lemma MarkingParts()
      requires Marking()
      ensures Live() <= mem.Keys
    {
    }

    method MarkAll(ws: seq<nat>)
      requires Marking() && |gray| <= grayCap
      modifies this`gray, this`grayCap, this`grayOverflow, this`marked
      ensures Marking() && |gray| <= grayCap
      ensures marked == old(marked) + Hits(mem, Live(), ws)
      ensures GrayGrew(old(marked), old(gray), old(grayOverflow), marked, gray, grayOverflow)
    {
      hide Marking, Hits, GrayGrew, Live;
      MarkingParts();
      HitsNone(mem, Live());
      GrayGrewIdle(marked, gray, grayOverflow);
      for i := 0 to |ws|
        invariant Marking() && |gray| <= grayCap && Live() <= mem.Keys
        invariant marked == old(marked) + Hits(mem, Live(), ws[..i])
        invariant GrayGrew(old(marked), old(gray), old(grayOverflow), marked, gray, grayOverflow)
      {
        assert ws[..i + 1] == ws[..i] + [ws[i]];
        HitsAppend(mem, Live(), ws[..i], [ws[i]]);
        ghost var m, g, o := marked, gray, grayOverflow;
        Mark(ws[i]);
        GrayGrewTwice(old(marked), old(gray), old(grayOverflow), m, g, o, marked, gray, grayOverflow);
      }
      assert ws[..|ws|] == ws;
    }

    /** Marks what the words of a block that may be references point into. */
    method Trace(a: Addr)
      requires Marking() && |gray| <= grayCap && a in blocks
      modifies this`gray, this`grayCap, this`grayOverflow, this`marked
      ensures Marking() && |gray| <= grayCap
      ensures marked == old(marked) + Hits(mem, Live(), Slots(mem[a]))
      ensures GrayGrew(old(marked), old(gray), old(grayOverflow), marked, gray, grayOverflow)
    {
      var b := mem[a];
      match b.kind
      case ArrayF64 =>
      case TextObject =>
      case TextFrame =>
        if |b.words| >= 1 {
          Mark(b.words[0]);
        }
      case ArrayText =>
        if |b.words| >= 1 {
          var ndims := Signed(b.words[0]);
          if 0 <= ndims <= |b.words| {
            var first := 1 + ndims * 2;
            if first <= |b.words| {
              MarkAll(b.words[first..]);
            }
          }
        }
      case _ =>
        MarkAll(b.words);
    }

    /** Traces gray blocks until none is left. */
    method DrainGray(ghost reach: set<Addr>)
      requires Marking() && |gray| <= grayCap && Settled(mem, Live(), marked, gray, grayOverflow)
      requires reach <= Live() && Closed(mem, Live(), reach) && marked <= reach
      modifies this`gray, this`grayCap, this`grayOverflow, this`marked
      ensures Marking() && gray == [] && |gray| <= grayCap && Settled(mem, Live(), marked, [], grayOverflow)
      ensures old(marked) <= marked <= reach
    {
      hide Separated, Ascending, Within;
      while |gray| > 0
        invariant Marking() && |gray| <= grayCap && Settled(mem, Live(), marked, gray, grayOverflow)
        invariant old(marked) <= marked <= reach
        decreases Live() - marked, |gray|
      {
        var last := |gray| - 1;
        var a := gray[last];
        assert a in gray && gray == gray[..last] + [a];
        gray := gray[..last];
        ghost var m, g, o := marked, gray, grayOverflow;
        Trace(a);
        SettledAfterTrace(mem, Live(), a, m, g, o, marked, gray, grayOverflow);
      }
    }

    /** Re-traces every marked block, in list order, after the gray stack lost some. */
    method Rescan(ghost reach: set<Addr>)
      requires Marking() && |gray| <= grayCap && gray == [] && !grayOverflow
      requires reach <= Live() && Closed(mem, Live(), reach) && marked <= reach
      modifies this`gray, this`grayCap, this`grayOverflow, this`marked
      ensures Marking() && |gray| <= grayCap && Settled(mem, Live(), marked, gray, grayOverflow)
      ensures old(marked) <= marked <= reach
      ensures marked == old(marked) ==> gray == [] && !grayOverflow
    {
      hide Separated, Ascending, Within;
      ghost var m0 := marked;
      for i := 0 to |blocks|
        invariant Marking() && |gray| <= grayCap
        invariant marked <= reach
        invariant GrayGrew(m0, [], false, marked, gray, grayOverflow)
        invariant Passed(mem, blocks, i, marked, gray, grayOverflow)
      {
        if blocks[i] in marked {
          ghost var m, g, o := marked, gray, grayOverflow;
          Trace(blocks[i]);
          GrayGrewTwice(m0, [], false, m, g, o, marked, gray, grayOverflow);
          PassedNext(mem, blocks, i, m, g, o, marked, gray, grayOverflow);
        }
      }
      PassedAll(mem, blocks, marked, gray, grayOverflow);
    }

    /** Traces until everything a marked block points into is marked, whatever
        pattern of growth failures the gray stack meets. */
    method Drain(ghost reach: set<Addr>)
      requires Marking() && |gray| <= grayCap && Settled(mem, Live(), marked, gray, grayOverflow)
      requires reach <= Live() && Closed(mem, Live(), reach) && marked <= reach
      modifies this`gray, this`grayCap, this`grayOverflow, this`marked
      ensures Marking() && gray == [] && !grayOverflow
      ensures old(marked) <= marked <= reach && Closed(mem, Live(), marked)
    {
      while true
        invariant Marking() && |gray| <= grayCap && Settled(mem, Live(), marked, gray, grayOverflow)
        invariant old(marked) <= marked <= reach
        decreases Live() - marked
      {
        ghost var m := marked;
        DrainGray(reach);
        if !grayOverflow { return; }
        grayOverflow := false;
        ghost var m' := marked;
        Rescan(reach);
        if |gray| == 0 && !grayOverflow { return; }
        assert m <= m' < marked;
        assert Live() - marked < Live() - m;
      }
    }

    /** Marks from every slot of a frame list. */
    method MarkRootChain(head: Addr, ghost list: seq<Addr>)
      requires Marking() && |gray| <= grayCap
      requires Chain(chains.frames, head, list)
      modifies this`gray, this`grayCap, this`grayOverflow, this`marked
      ensures Marking() && |gray| <= grayCap
      ensures marked == old(marked) + Hits(mem, Live(), ChainWords(chains.frames, list))
      ensures GrayGrew(old(marked), old(gray), old(grayOverflow), marked, gray, grayOverflow)
    {
      hide Separated, Ascending, Within, GrayGrew, Hits;
      var frame := head;
      ghost var done, rest := [], list;
      HitsNone(mem, Live());
      GrayGrewIdle(marked, gray, grayOverflow);
      while frame != 0
        invariant list == done + rest && Chain(chains.frames, frame, rest)
        invariant Marking() && |gray| <= grayCap
        invariant marked == old(marked) + Hits(mem, Live(), ChainWords(chains.frames, done))
        invariant GrayGrew(old(marked), old(gray), old(grayOverflow), marked, gray, grayOverflow)
        decreases |rest|
      {
        ghost var m, g, o := marked, gray, grayOverflow;
        MarkAll(chains.frames[frame].slots);
        GrayGrewTwice(old(marked), old(gray), old(grayOverflow), m, g, o, marked, gray, grayOverflow);
        ChainWordsAppend(chains.frames, done, [frame]);
        assert ChainWords(chains.frames, [frame]) == chains.frames[frame].slots;
        HitsAppend(mem, Live(), ChainWords(chains.frames, done), chains.frames[frame].slots);
        done, rest := done + [frame], rest[1..];
        frame := chains.frames[frame].prev;
      }
      assert done == list;
    }

    /** The blocks never swept, which root every collection. */
    ghost function Permanent(): seq<nat>
      reads this`blocks, this`pinned, this`unswept
    {
      Keep(blocks, pinned + unswept)
    }

    /** Every word a collection starts from, in the order it visits them. */
    ghost function RootWords(): seq<nat>
      reads this`blocks, this`pinned, this`unswept, this`runtimeRoots, this`componentRoots, this`pins
      reads chains
      requires chains.Valid()
    {
      Permanent() + runtimeRoots + componentRoots + pins + chains.VisitedWords()
    }

    /** The marks so far are exactly the blocks hit by the words visited so far. */
    ghost predicate Visited(ws: seq<nat>)
      reads this`mem, this`blocks, this`heapLo, this`heapHi, this`index
      reads this`gray, this`grayCap, this`grayOverflow, this`marked
    {
      && Marking() && |gray| <= grayCap
      && marked == Hits(mem, Live(), ws)
      && GrayGrew({}, [], false, marked, gray, grayOverflow)
    }

    method Visit(ws: seq<nat>, ghost before: seq<nat>)
      requires Visited(before)
      modifies this`gray, this`grayCap, this`grayOverflow, this`marked
      ensures Visited(before + ws)
    {
      hide Separated, Ascending, Within, GrayGrew, Hits;
      ghost var m, g, o := marked, gray, grayOverflow;
      MarkAll(ws);
      GrayGrewTwice({}, [], false, m, g, o, marked, gray, grayOverflow);
      HitsAppend(mem, Live(), before, ws);
    }

    method VisitChain(head: Addr, ghost list: seq<Addr>, ghost before: seq<nat>)
      requires Visited(before) && Chain(chains.frames, head, list)
      modifies this`gray, this`grayCap, this`grayOverflow, this`marked
      ensures Visited(before + ChainWords(chains.frames, list))
    {
      hide Separated, Ascending, Within, GrayGrew, Hits;
      ghost var m, g, o := marked, gray, grayOverflow;
      MarkRootChain(head, list);
      GrayGrewTwice({}, [], false, m, g, o, marked, gray, grayOverflow);
      HitsAppend(mem, Live(), before, ChainWords(chains.frames, list));
    }

    method VisitPermanent()
      requires Visited([])
      modifies this`gray, this`grayCap, this`grayOverflow, this`marked
      ensures Visited(Permanent())
    {
      hide Separated, Ascending, Within, GrayGrew, Hits;
      ghost var keep := pinned + unswept;
      for i := 0 to |blocks|
        invariant Visited(Keep(blocks[..i], keep))
      {
        KeepNext(blocks, i, keep);
        assert Keep(blocks[..i], keep) + [] == Keep(blocks[..i], keep);
        if blocks[i] in unswept || blocks[i] in pinned {
          Visit([blocks[i]], Keep(blocks[..i], keep));
        }
      }
      assert blocks[..|blocks|] == blocks;
    }

    method VisitParked(ghost before: seq<nat>)
      requires Visited(before) && chains.Valid()
      modifies this`gray, this`grayCap, this`grayOverflow, this`marked
      ensures Visited(before + ChainWords(chains.frames, ListedFrames(chains.Pushed(), chains.ParkedOrder())))
    {
      hide Visited, Stacks.Valid, Chain;
      var heads := chains.VisitParkedHeads();
      ghost var stacks, order := chains.Pushed(), chains.ParkedOrder();
      assert ListedFrames(stacks, order[..0]) == [] && ChainWords(chains.frames, []) == [];
      assert before + [] == before;
      hide ListedFrames, ChainWords;
      for i := 0 to |heads|
        invariant chains.Valid() && chains.Pushed() == stacks && chains.ParkedOrder() == order
        invariant Visited(before + ChainWords(chains.frames, ListedFrames(stacks, order[..i])))
      {
        ghost var done := ListedFrames(stacks, order[..i]);
        ListedFramesNext(stacks, order, i);
        ChainWordsAppend(chains.frames, done, stacks[order[i]]);
        VisitChain(heads[i], stacks[order[i]], before + ChainWords(chains.frames, done));
        assert before + ChainWords(chains.frames, done) + ChainWords(chains.frames, stacks[order[i]])
            == before + (ChainWords(chains.frames, done) + ChainWords(chains.frames, stacks[order[i]]));
      }
      assert order[..|heads|] == order;
    }

    method VisitAllRoots()
      requires Visited([]) && chains.Valid()
      modifies this`gray, this`grayCap, this`grayOverflow, this`marked
      ensures Visited(RootWords())
    {
      hide Visited, Permanent, Stacks.Valid, ChainWords, ListedFrames, Chain;
      VisitPermanent();
      ghost var words := Permanent();
      Visit(runtimeRoots, words);
      words := words + runtimeRoots;
      Visit(componentRoots, words);
      words := words + componentRoots;
      Visit(pins, words);
      words := words + pins;
      chains.Heads();
      ghost var own := chains.Pushed()[chains.current];
      ghost var parked := ListedFrames(chains.Pushed(), chains.ParkedOrder());
      VisitChain(chains.roots, own, words);
      VisitParked(words + ChainWords(chains.frames, own));
      ChainWordsAppend(chains.frames, own, parked);
      assert words + ChainWords(chains.frames, own) + ChainWords(chains.frames, parked)
          == words + chains.VisitedWords();
    }

    method CountFreed(size: nat)
      requires blockCount > 0 && liveBytes >= size
      modifies this`blockCount, this`liveBytes, this`blocksFreed, this`bytesFreed
      ensures blockCount == old(blockCount) - 1 && liveBytes == old(liveBytes) - size
      ensures blocksFreed == old(blocksFreed) + 1 && bytesFreed == old(bytesFreed) + size
    {
      blockCount := blockCount - 1;
      liveBytes := liveBytes - size;
      blocksFreed := blocksFreed + 1;
      bytesFreed := bytesFreed + size;
    }

    lemma SoundParts()
      requires Sound()
      ensures Unique(blocks)
      ensures forall a :: a in blocks ==> a in mem
    {
      HeapOkParts(mem, blocks, freeList);
    }

    /** Unlinks a dead block: it goes on the free list while that has room, and back
        to the host otherwise. */
    method Reclaim(pos: nat)
      requires pos < |blocks| && Sound()
      modifies this`mem, this`blocks, this`freeList, this`blockCount, this`liveBytes, this`freeCount
      modifies this`blocksFreed, this`bytesFreed, this`hostFreed
      ensures Sound()
      ensures blocks == old(blocks)[..pos] + old(blocks)[pos + 1..]
      ensures Untouched(old(blocks), old(mem), blocks, mem)
      ensures old(blocks)[pos] !in blocks
      ensures old(blocks[pos] in mem)
      ensures var a := old(blocks)[pos];
              if old(|freeList|) < FREE_MAX
              then freeList == [a] + old(freeList) && mem == old(mem)[a := Poisoned(old(mem)[a], poisonAll)]
              else freeList == old(freeList) && mem == old(mem) - {a}
    {
      hide HeapOk, Within, Poisoned, SumSizes, Untouched;
      var a := blocks[pos];
      assert a in mem by { HeapOkParts(mem, blocks, freeList); }
      var b := mem[a];
      var held := freeCount < FREE_MAX;
      var rest := blocks[..pos] + blocks[pos + 1..];
      var mem' := if held then mem[a := Poisoned(b, poisonAll)] else mem - {a};
      ReclaimOk(mem, blocks, freeList, pos, poisonAll, held, rest, mem', heapLo, heapHi);
      mem, blocks := mem', rest;
      CountFreed(b.size);
      if held {
        freeList, freeCount := [a] + freeList, freeCount + 1;
      } else {
        hostFreed := hostFreed + 1;
      }
    }

    /** Reclaims every block that is neither marked nor permanent and clears the
        marks of the rest. */
    method Sweep()
      requires Sound()
      requires marked <= Live()
      modifies this`mem, this`blocks, this`freeList, this`blockCount, this`liveBytes, this`freeCount
      modifies this`blocksFreed, this`bytesFreed, this`hostFreed, this`marked
      ensures Sound()
      ensures marked == {}
      ensures blocks == Keep(old(blocks), old(marked + pinned + unswept))
      ensures Untouched(old(blocks), old(mem), blocks, mem)
    {
      hide Sound, Sweeping, Keep, Unique;
      SoundParts();
      assert Untouched(blocks, mem, blocks, mem);
      hide Untouched;
      ghost var was, marks, keep := blocks, marked, marked + pinned + unswept;
      var pos := 0;
      ghost var i := 0;
      SweepStarts(was, keep, marks);
      while pos < |blocks|
        invariant Sweeping(was, i, keep, marks, blocks, pos, marked) && Sound()
        invariant Untouched(was, old(mem), blocks, mem)
        decreases |blocks| - pos
      {
        SweepSees(was, i, keep, marks, blocks, pos, marked);
        var a := blocks[pos];
        if a in marked || a in pinned || a in unswept {
          SweepKeeps(was, i, keep, marks, blocks, pos, marked);
          marked := marked - {a};
          pos := pos + 1;
        } else {
          SweepCuts(was, i, keep, marks, blocks, pos, marked);
          ghost var b, m := blocks, mem;
          Reclaim(pos);
          UntouchedTwice(was, old(mem), b, m, blocks, mem);
        }
        i := i + 1;
      }
      SweepEnds(was, i, keep, marks, blocks, pos, marked);
    }

    /** Lists every block in address order, growing the index first if it must. */
    method IndexBuild() returns (ok: bool)
      requires Sound() && |index| <= indexCap
      modifies this`index, this`indexCap
      ensures |index| <= indexCap
      ensures ok ==> Ascending(index) && forall a :: a in index <==> a in blocks
      ensures old(blockCount <= indexCap) ==> ok
    {
      SoundParts();
      if blockCount > indexCap {
        var cap := if indexCap == 0 then INITIAL_CAP else indexCap;
        while cap < blockCount
          invariant cap > 0
          decreases blockCount - cap
        {
          if cap > SIZE_MAX / 2 { return false; }
          cap := cap * 2;
        }
        var granted := HostGrants();
        if !granted { return false; }
        indexCap := cap;
      }
      SortedOk(blocks);
      index := Sorted(blocks);
      return true;
    }

    /** A root holds the block: it is pinned or never swept, or a word of the runtime's
        roots, of the objects enumerated by sequencing, of the pin table, or of a slot of
        a frame that some coroutine has pushed and not popped lies in its payload. */
    ghost predicate Rooted(a: Addr)
      reads this`mem, this`pinned, this`unswept, this`runtimeRoots, this`componentRoots, this`pins, chains
    {
      && a in mem
      && (|| a in pinned || a in unswept
          || (exists w :: w in runtimeRoots && Covers(mem, a, w))
          || (exists w :: w in componentRoots && Covers(mem, a, w))
          || (exists w :: w in pins && Covers(mem, a, w))
          || PendingHolds(a))
    }

    /** A slot of a pending frame, whoever's, does. */
    ghost predicate PendingHolds(a: Addr)
      requires a in mem
      reads this`mem, chains
    {
      exists c, f, w :: && c in Replay(chains.history).stacks && f in Replay(chains.history).stacks[c]
                        && f in chains.frames && w in chains.frames[f].slots && Covers(mem, a, w)
    }

    /** Blocks each of which has a traced word that points into the next one, the first
        held by a root. */
    ghost predicate HoldingPath(path: seq<Addr>)
      requires Live() <= mem.Keys
      reads this`mem, this`blocks, this`pinned, this`unswept
      reads this`runtimeRoots, this`componentRoots, this`pins, chains
    {
      && |path| > 0 && Rooted(path[0])
      && (forall i :: 0 <= i < |path| ==> path[i] in Live())
      && (forall i :: 1 <= i < |path| ==> path[i] in Hits(mem, Live(), Slots(mem[path[i - 1]])))
    }

    /** What a collection starting now has to keep: the blocks that roots hold, directly or
        through others. */
    ghost function Reached(): (r: set<Addr>)
      reads this`mem, this`blocks, this`pinned, this`unswept
      reads this`runtimeRoots, this`componentRoots, this`pins, chains
      requires chains.Valid() && Live() <= mem.Keys
      ensures r <= Live()
    {
      set a | a in Live() && exists path :: HoldingPath(path) && path[|path| - 1] == a
    }

    lemma SlotWords(w: nat)
      requires chains.Valid()
      ensures w in chains.VisitedWords() <==>
                exists c, f :: && c in Replay(chains.history).stacks && f in Replay(chains.history).stacks[c]
                               && f in chains.frames && w in chains.frames[f].slots
    {
      chains.VisitedExactly();
      hide Stacks.Valid, Replay;
      var frames, visited := chains.frames, chains.VisitedFrames();
      ChainWordsMember(frames, visited, w);
      if w in chains.VisitedWords() {
        var f :| f in visited && f in frames && w in frames[f].slots;
        assert exists c :: c in Replay(chains.history).stacks && f in Replay(chains.history).stacks[c];
      }
      if c, f :| && c in Replay(chains.history).stacks && f in Replay(chains.history).stacks[c]
                 && f in frames && w in frames[f].slots {
        assert f in visited;
      }
    }

    /** Every word that is visited makes some block one that a root holds, and no other
        word does. */
    lemma RootWordsAre(w: nat)
      requires chains.Valid()
      ensures w in RootWords() <==>
                || w in Permanent() || w in runtimeRoots || w in componentRoots || w in pins
                || w in chains.VisitedWords()
    {
    }

    lemma PermanentIs(w: nat)
      ensures w in Permanent() <==> w in blocks && (w in pinned || w in unswept)
    {
      assert w in Permanent() <==> w in Elems(Permanent());
    }

    /** Visiting the root words hits exactly the blocks that roots hold. */
    lemma RootedIff(a: Addr)
      requires chains.Valid() && Sound() && pinned + unswept <= Live() && a in blocks
      ensures Live() <= mem.Keys
      ensures a in Hits(mem, Live(), RootWords()) <==> Rooted(a)
    {
      SoundParts();
      if a in Hits(mem, Live(), RootWords()) {
        var w :| w in RootWords() && Covers(mem, a, w);
        HitIsRooted(a, w);
      }
      if Rooted(a) {
        var w := RootedHas(a);
        assert w in RootWords() && Covers(mem, a, w);
      }
    }

    lemma HitIsRooted(a: Addr, w: nat)
      requires chains.Valid() && Sound() && a in blocks && a in mem && w in RootWords() && Covers(mem, a, w)
      ensures Rooted(a)
    {
      RootWordsAre(w);
      PermanentIs(w);
      SlotWords(w);
      hide Stacks.Valid, RootWords, Permanent, Replay, HeapOk, Books;
      if w in Permanent() {
        SoundParts();
        HeapOkParts(mem, blocks, freeList);
        CoverUnique(mem, a, w, w);
      }
    }

    lemma PendingHas(a: Addr) returns (w: nat)
      requires chains.Valid() && a in mem && PendingHolds(a)
      ensures w in chains.VisitedWords() && Covers(mem, a, w)
    {
      hide Stacks.Valid, Replay;
      var c, f, v :| && c in Replay(chains.history).stacks && f in Replay(chains.history).stacks[c]
                     && f in chains.frames && v in chains.frames[f].slots && Covers(mem, a, v);
      w := v;
      assert exists d, g :: && d in Replay(chains.history).stacks && g in Replay(chains.history).stacks[d]
                            && g in chains.frames && w in chains.frames[g].slots;
      SlotWords(w);
    }

    lemma RootedHas(a: Addr) returns (w: nat)
      requires chains.Valid() && a in blocks && Rooted(a)
      ensures a in mem && w in RootWords() && Covers(mem, a, w)
    {
      hide Stacks.Valid, RootWords, Permanent, Replay, PendingHolds;
      PermanentIs(a);
      if a in pinned || a in unswept {
        w := a;
      } else if v :| v in runtimeRoots && Covers(mem, a, v) {
        w := v;
      } else if v :| v in componentRoots && Covers(mem, a, v) {
        w := v;
      } else if v :| v in pins && Covers(mem, a, v) {
        w := v;
      } else {
        w := PendingHas(a);
      }
      RootWordsAre(w);
    }

    /** What the marker finds from the root words is what roots hold. */
    lemma ReachedIs()
      requires chains.Valid() && Sound() && pinned + unswept <= Live()
      ensures Live() <= mem.Keys && Reached() == ReachSet(mem, Live(), RootWords())
    {
      SoundParts();
      forall path
        ensures HoldingPath(path) <==> IsPath(mem, Live(), RootWords(), path)
      {
        if |path| > 0 && path[0] in Live() { RootedIff(path[0]); }
      }
      hide HoldingPath, IsPath;
    }

    lemma LongerPath(a: Addr, b: Addr)
      requires chains.Valid() && Live() <= mem.Keys && a in Reached() && b in Hits(mem, Live(), Slots(mem[a]))
      ensures b in Reached()
    {
      hide Hits, Slots, Rooted;
      var path :| HoldingPath(path) && path[|path| - 1] == a;
      var longer := path + [b];
      assert HoldingPath(longer) && longer[|longer| - 1] == b;
    }

    lemma {:induction false} PathKept(keep: set<Addr>, path: seq<Addr>, i: nat)
      requires Live() <= mem.Keys && HoldingPath(path) && i < |path|
      requires forall a :: a in blocks && Rooted(a) ==> a in keep
      requires forall a, b :: a in keep && a in blocks && b in Hits(mem, Live(), Slots(mem[a])) ==> b in keep
      ensures path[i] in keep
    {
      if i > 0 {
        PathKept(keep, path, i - 1);
      }
    }

    /** What a root holds is kept, and so is what a traced word of a kept block points
        into. */
    lemma ReachedHolds()
      requires chains.Valid() && Live() <= mem.Keys
      ensures forall a :: a in blocks && Rooted(a) ==> a in Reached()
      ensures forall a, b :: a in Reached() && b in Hits(mem, Live(), Slots(mem[a])) ==> b in Reached()
    {
      hide Hits, Slots, Rooted;
      forall a | a in blocks && Rooted(a) ensures a in Reached() {
        assert HoldingPath([a]) && [a][|[a]| - 1] == a;
      }
      forall a, b | a in Reached() && b in Hits(mem, Live(), Slots(mem[a])) ensures b in Reached() {
        LongerPath(a, b);
      }
    }

    /** Nothing else is: it lies in every set with these two properties. */
    lemma ReachedLeast(keep: set<Addr>)
      requires chains.Valid() && Live() <= mem.Keys
      requires forall a :: a in blocks && Rooted(a) ==> a in keep
      requires forall a, b :: a in keep && a in blocks && b in Hits(mem, Live(), Slots(mem[a])) ==> b in keep
      ensures Reached() <= keep
    {
      hide Hits, Slots, Rooted;
      forall a | a in Reached() ensures a in keep {
        var path :| HoldingPath(path) && path[|path| - 1] == a;
        PathKept(keep, path, |path| - 1);
      }
    }

    /** Blocks that are never swept are roots, so they are kept. */
    lemma PermanentReached()
      requires chains.Valid() && Sound() && pinned + unswept <= Live()
      ensures Live() <= mem.Keys
      ensures pinned + unswept <= Reached()
    {
      SoundParts();
      forall a | a in pinned + unswept ensures a in Reached() {
        assert Rooted(a);
        assert HoldingPath([a]) && [a][|[a]| - 1] == a;
      }
    }

    method ClearMarks()
      requires marked <= Live()
      modifies this`marked
      ensures marked == {}
    {
      for i := 0 to |blocks|
        invariant forall a :: a in marked ==> a in blocks[i..]
      {
        assert blocks[i..] == [blocks[i]] + blocks[i + 1..];
        marked := marked - {blocks[i]};
      }
    }

    method StartMarking()
      requires Sound() && |gray| <= grayCap && marked <= Live()
      requires Ascending(index) && forall a :: a in index <==> a in blocks
      modifies this`gray, this`grayOverflow, this`marked
      ensures Visited([])
    {
      hide HeapOk, Separated, Within, Books, Hits, Ascending;
      gray, grayOverflow := [], false;
      ClearMarks();
      SoundParts();
      HeapOkParts(mem, blocks, freeList);
      HitsNone(mem, Live());
    }

    lemma VisitedSettled(ws: seq<nat>)
      requires Visited(ws)
      ensures Marking() && Settled(mem, Live(), marked, gray, grayOverflow)
    {
      assert grayOverflow || forall a :: a in marked ==> a in gray[0..];
      assert gray[0..] == gray;
    }

    /** Marks exactly what is reachable, whatever scratch memory the host refuses. */
    method MarkReachable()
      requires Visited([]) && chains.Valid() && Sound() && pinned + unswept <= Live()
      modifies this`gray, this`grayCap, this`grayOverflow, this`marked
      ensures Live() <= mem.Keys && marked == Reached() && |gray| <= grayCap
    {
      hide HeapOk, Books, Separated, Ascending, Within, RootWords, ReachSet, Closed, Stacks.Valid, Settled;
      hide GrayGrew, Hits, Reached;
      ReachedIs();
      VisitAllRoots();
      VisitedSettled(RootWords());
      ghost var reach := ReachSet(mem, Live(), RootWords());
      ReachSetHasRoots(mem, Live(), RootWords());
      ReachSetClosed(mem, Live(), RootWords());
      Drain(reach);
      ReachSetIsLeast(mem, Live(), RootWords(), marked);
    }

    /** The lists and the header bits between two operations. */
    ghost predicate Quiet()
      reads this`blocks, this`pinned, this`unswept, this`marked, this`gray, this`grayCap
    {
      marked == {} && pinned + unswept <= Live() && |gray| <= grayCap
    }

    ghost predicate Valid()
      reads this, chains
    {
      Sound() && Quiet() && chains.Valid() && !collecting && |index| <= indexCap && |pins| == PIN_MAX
    }

    /** Mark, then sweep. */
    method MarkAndSweep()
      requires Sound() && Quiet() && chains.Valid()
      requires Ascending(index) && forall a :: a in index <==> a in blocks
      modifies this`mem, this`blocks, this`freeList, this`blockCount, this`liveBytes, this`freeCount
      modifies this`blocksFreed, this`bytesFreed, this`hostFreed, this`marked
      modifies this`gray, this`grayCap, this`grayOverflow
      ensures Sound() && Quiet() && old(Live() <= mem.Keys)
      ensures blocks == Keep(old(blocks), old(Reached()))
      ensures Untouched(old(blocks), old(mem), blocks, mem)
    {
      hide Sound, Stacks.Valid, Reached, Ascending, Visited, Keep;
      PermanentReached();
      ghost var reached := Reached();
      StartMarking();
      MarkReachable();
      assert marked + pinned + unswept == reached;
      Sweep();
    }

    method Cycle()
      requires Sound() && Quiet() && chains.Valid()
      requires Ascending(index) && forall a :: a in index <==> a in blocks
      modifies this`mem, this`blocks, this`freeList, this`blockCount, this`liveBytes, this`freeCount
      modifies this`blocksFreed, this`bytesFreed, this`hostFreed, this`marked
      modifies this`gray, this`grayCap, this`grayOverflow
      modifies this`sinceCollect, this`collecting, this`collections
      ensures Sound() && Quiet() && !collecting && collections == old(collections) + 1 && sinceCollect == 0
      ensures old(Live() <= mem.Keys)
      ensures blocks == Keep(old(blocks), old(Reached()))
      ensures Untouched(old(blocks), old(mem), blocks, mem)
    {
      hide *;
      collecting := true;
      MarkAndSweep();
      collecting := false;
      sinceCollect := 0;
      collections := collections + 1;
    }

    /** Either no collection ran and the heap is as it was, or one did and exactly
        the reachable blocks are left, payloads untouched. */
    twostate predicate Survived()
      requires old(chains.Valid() && Live() <= mem.Keys)
      reads this`mem, this`blocks, this`freeList, this`collections
    {
      if collections == old(collections)
      then blocks == old(blocks) && mem == old(mem) && freeList == old(freeList)
      else
        && collections == old(collections) + 1
        && blocks == Keep(old(blocks), old(Reached()))
        && Untouched(old(blocks), old(mem), blocks, mem)
    }

    /** One full mark-sweep: afterwards the block list holds exactly the blocks that
        were reachable, in their old order and with their payloads untouched. It
        does nothing when disabled or empty, and disables itself when the host
        will not grow the index. */
    method Collect()
      requires Valid()
      modifies this`mem, this`blocks, this`freeList, this`blockCount, this`liveBytes, this`freeCount
      modifies this`blocksFreed, this`bytesFreed, this`hostFreed, this`marked
      modifies this`gray, this`grayCap, this`grayOverflow, this`index, this`indexCap
      modifies this`sinceCollect, this`disabled, this`collecting, this`collections
      ensures Valid() && old(Live() <= mem.Keys)
      ensures Survived()
      ensures forall a :: a in old(blocks) && old(Rooted(a)) ==> a in blocks && a in mem && mem[a] == old(mem[a])
      ensures old(!disabled && blocks != [] && blockCount <= indexCap) ==> collections != old(collections)
      ensures old(!disabled) ==> sinceCollect == 0
      ensures old(!disabled) && collections == old(collections) ==> old(blocks) == [] || disabled
    {
      hide Sound, Quiet, Stacks.Valid, Reached, Rooted, Ascending, Keep;
      SoundParts();
      ReachedHolds();
      KeepHas(blocks, Reached());
      if disabled || collecting { return; }
      sinceCollect := 0;
      if blocks == [] { return; }
      var ok := IndexBuild();
      if !ok {
        disabled := true;
        return;
      }
      Cycle();
    }

    /** Unlinks the first of the leading free blocks whose payload is exactly
        `size` bytes, or finds none. */
    method TakeFree(size: nat) returns (a: Addr, ghost at: Option<nat>)
      requires Sound()
      modifies this`freeList, this`freeCount
      ensures match at
              case None =>
                && a == 0 && freeList == old(freeList) && freeCount == old(freeCount)
                && forall k :: 0 <= k < |freeList| && k < FREE_SCAN ==> mem[freeList[k]].size != size
              case Some(i) =>
                && i < |old(freeList)| && i < FREE_SCAN
                && a == old(freeList)[i] != 0 && a in mem && mem[a].size == size
                && freeList == old(freeList)[..i] + old(freeList)[i + 1..]
                && freeCount == old(freeCount) - 1
      ensures forall k :: 0 <= k < |old(freeList)| ==> old(freeList)[k] in mem
    {
      hide Within, Extent;
      HeapOkParts(mem, blocks, freeList);
      var scanned := 0;
      while scanned < |freeList| && scanned < FREE_SCAN
        invariant freeList == old(freeList) && freeCount == old(freeCount) && scanned <= |freeList|
        invariant forall k :: 0 <= k < scanned ==> mem[freeList[k]].size != size
      {
        if mem[freeList[scanned]].size == size {
          a, at := freeList[scanned], Some(scanned);
          freeList := freeList[..scanned] + freeList[scanned + 1..];
          freeCount := freeCount - 1;
          return;
        }
        scanned := scanned + 1;
      }
      a, at := 0, None;
    }

    /** A fresh range from the host, or NULL. */
    method HostCalloc(size: nat) returns (a: Addr)
      ensures a != 0 ==> FitsAt(mem, a, size)
    {
      a := *;
      if !FitsAt(mem, a, size) { a := 0; }
    }

    method CountAllocated(size: nat, reused: bool)
      modifies this`blockCount, this`liveBytes, this`allocations, this`slotsReused, this`bytesAllocated
      ensures blockCount == old(blockCount) + 1 && liveBytes == old(liveBytes) + size
      ensures allocations == old(allocations) + 1 && bytesAllocated == old(bytesAllocated) + size
      ensures slotsReused == old(slotsReused) + if reused then 1 else 0
    {
      blockCount, liveBytes := blockCount + 1, liveBytes + size;
      allocations, bytesAllocated := allocations + 1, bytesAllocated + size;
      if reused { slotsReused := slotsReused + 1; }
    }

    /** Heads the block list with the zeroed block at `a`, just taken off `free` or
        obtained from the host. */
    method ListBlock(a: Addr, kind: Kind, size: nat, reused: bool, ghost free: seq<Addr>, ghost at: Option<nat>)
      requires HeapOk(mem, blocks, free) && Within(mem, heapLo, heapHi)
      requires reused == at.Some?
      requires match at
               case Some(i) =>
                 && i < |free| && free[i] == a && freeList == free[..i] + free[i + 1..]
                 && a in mem && mem[a].size == size
               case None => freeList == free && FitsAt(mem, a, size)
      requires freeCount == |freeList| <= FREE_MAX
      requires blockCount == |blocks| && liveBytes == SumSizes(mem, blocks)
      requires allocations == |blocks| + blocksFreed && bytesAllocated == liveBytes + bytesFreed
      requires blocksFreed == slotsReused + |free| + hostFreed
      modifies this`mem, this`blocks, this`blockCount, this`liveBytes
      modifies this`allocations, this`slotsReused, this`bytesAllocated, this`heapLo, this`heapHi
      ensures Sound()
      ensures a != 0 && a !in old(blocks) && blocks == [a] + old(blocks)
      ensures mem == old(mem)[a := Zeroed(kind, size)] && forall x :: x in old(blocks) ==> x in old(mem)
      ensures slotsReused == old(slotsReused) + if reused then 1 else 0
    {
      hide HeapOk, Within, SumSizes, Extent, FitsAt, Zeroed, LowerBound, UpperBound;
      AllocOk(mem, blocks, free, freeList, at, a, kind, size, heapLo, heapHi);
      mem := mem[a := Zeroed(kind, size)];
      blocks := [a] + blocks;
      CountAllocated(size, reused);
      var extent := if size > 0 then size else 1;
      heapLo, heapHi := LowerBound(heapLo, heapHi, a), UpperBound(heapHi, a, extent);
    }

    /** The block itself: a swept one of the same size if one is near the head of
        the free list, else a new one, zeroed either way. */
    method TakeBlock(kind: Kind, size: nat) returns (a: Addr)
      requires Sound()
      modifies this`mem, this`blocks, this`freeList, this`blockCount, this`liveBytes, this`freeCount
      modifies this`allocations, this`slotsReused, this`bytesAllocated, this`heapLo, this`heapHi
      ensures Sound()
      ensures a == 0 ==> blocks == old(blocks) && mem == old(mem) && freeList == old(freeList)
      ensures a != 0 ==>
                && a !in old(blocks) && blocks == [a] + old(blocks)
                && mem == old(mem)[a := Zeroed(kind, size)]
                && (forall x :: x in old(blocks) ==> x in old(mem))
      ensures a != 0 ==>
                if slotsReused == old(slotsReused) then FitsAt(old(mem), a, size) && freeList == old(freeList)
                else a in old(freeList)
    {
      hide HeapOk, Within, SumSizes, FitsAt, Zeroed;
      ghost var free := freeList;
      ghost var at;
      a, at := TakeFree(size);
      var reused := a != 0;
      if !reused {
        a := HostCalloc(size);
        if a == 0 { return; }
        ListBlock(a, kind, size, false, free, None);
      } else {
        ListBlock(a, kind, size, true, free, at);
      }
    }

    /** The automatic collection in front of every allocation, once `threshold`
        allocations have passed. Inside a deferred region it is skipped. */
    method MaybeAutoCollect()
      requires Valid()
      modifies this`mem, this`blocks, this`freeList, this`blockCount, this`liveBytes, this`freeCount
      modifies this`blocksFreed, this`bytesFreed, this`hostFreed, this`marked
      modifies this`gray, this`grayCap, this`grayOverflow, this`index, this`indexCap
      modifies this`sinceCollect, this`disabled, this`collecting, this`collections
      ensures Valid() && old(Live() <= mem.Keys) && Survived()
      ensures old(deferCollect != 0 || threshold == 0 || disabled) ==> unchanged(this)
      ensures old(sinceCollect + 1 < threshold) ==> collections == old(collections)
      ensures old(deferCollect == 0 && 0 < threshold <= sinceCollect + 1 && !disabled) ==>
                sinceCollect == 0
                && (old(blocks != [] && blockCount <= indexCap) ==> collections == old(collections) + 1)
                && (collections == old(collections) ==> old(blocks) == [] || disabled)
      ensures old(deferCollect == 0 && sinceCollect + 1 < threshold && !disabled) ==>
                sinceCollect == old(sinceCollect) + 1
    {
      hide Sound, Quiet, Stacks.Valid, Reached, Keep;
      SoundParts();
      if threshold == 0 || disabled || collecting || deferCollect != 0 { return; }
      sinceCollect := sinceCollect + 1;
      if sinceCollect >= threshold {
        Collect();
      }
    }

    /** Takes a block and sets its header flags. */
    method TakeFlagged(kind: Kind, size: nat, pin: bool, keep: bool) returns (a: Addr)
      requires Sound() && Quiet()
      modifies this`mem, this`blocks, this`freeList, this`blockCount, this`liveBytes, this`freeCount
      modifies this`allocations, this`slotsReused, this`bytesAllocated, this`heapLo, this`heapHi
      modifies this`pinned, this`unswept
      ensures Sound() && Quiet()
      ensures a == 0 ==> blocks == old(blocks) && mem == old(mem) && freeList == old(freeList)
      ensures a == 0 ==> pinned == old(pinned) && unswept == old(unswept)
      ensures a != 0 ==>
                && blocks == [a] + old(blocks) && a !in old(blocks)
                && mem == old(mem)[a := Zeroed(kind, size)]
                && (a in pinned <==> pin) && (a in unswept <==> keep)
                && pinned - {a} == old(pinned) && unswept - {a} == old(unswept)
      ensures forall x :: x in old(blocks) ==> x in old(mem)
    {
      hide Sound, Zeroed, FitsAt;
      SoundParts();
      a := TakeBlock(kind, size);
      if a == 0 { return; }
      assert a !in pinned && a !in unswept;
      if pin { pinned := pinned + {a}; }
      if keep { unswept := unswept + {a}; }
    }

    /** A zeroed block that nothing else uses, or NULL when the request is negative
        or the host is out of memory. The collection it may start comes first,
        so it never sees the new block. */
    method AllocFlagged(kind: Kind, size: int, pin: bool, keep: bool) returns (a: Addr)
      requires Valid()
      modifies this
      ensures Valid() && old(Live() <= mem.Keys)
      ensures size < 0 || size > SIZE_MAX - HEADER_BYTES ==> a == 0 && unchanged(this)
      ensures old(deferCollect) != 0 ==> collections == old(collections)
      ensures a == 0 && 0 <= size <= SIZE_MAX - HEADER_BYTES ==> Survived()
      ensures a != 0 ==>
                && size >= 0 && blocks != [] && blocks[0] == a && a !in blocks[1..]
                && a in mem && mem[a] == Zeroed(kind, size)
                && (a in pinned <==> pin) && (a in unswept <==> keep)
                && blocks[1..] == (if collections == old(collections) then old(blocks)
                                   else Keep(old(blocks), old(Reached())))
                && forall x :: x in blocks[1..] ==> x in mem && x in old(mem) && mem[x] == old(mem)[x]
    {
      hide Sound, Quiet, Stacks.Valid, Reached, Keep, Zeroed;
      SoundParts();
      if size < 0 || size > SIZE_MAX - HEADER_BYTES { return 0; }
      MaybeAutoCollect();
      a := TakeFlagged(kind, size, pin, keep);
    }

    /** Entering a helper that allocates more than once: one safepoint, and none
        again until it leaves. */
    method DeferCollect()
      requires Valid()
      modifies this
      ensures Valid() && old(Live() <= mem.Keys) && Survived()
      ensures deferCollect == old(deferCollect) + 1
      ensures old(deferCollect) != 0 ==> collections == old(collections)
    {
      hide Sound, Quiet, Stacks.Valid, Reached, Keep;
      SoundParts();
      if deferCollect == 0 {
        MaybeAutoCollect();
      }
      deferCollect := deferCollect + 1;
    }

    method AllowCollect()
      requires Valid()
      modifies this`deferCollect
      ensures Valid()
      ensures deferCollect == if old(deferCollect) > 0 then old(deferCollect) - 1 else 0
    {
      if deferCollect > 0 { deferCollect := deferCollect - 1; }
    }

    /** The program writes a word of a live payload. */
    method StoreWord(a: Addr, i: nat, w: nat)
      requires Valid() && a in blocks && a in mem && i < |mem[a].words| && w < ADDRESS_LIMIT
      modifies this`mem
      ensures Valid() && mem == old(mem)[a := old(mem)[a].(words := old(mem)[a].words[i := w])]
    {
      hide HeapOk, Within, SumSizes, Stacks.Valid;
      StoreOk(mem, blocks, freeList, a, i, w, heapLo, heapHi);
      mem := mem[a := mem[a].(words := mem[a].words[i := w])];
    }

    /** The embedder's handle on an object: a free slot of the pin table, which
        then roots it. None means the table is full, which is fatal. */
    method RefPin(ref: Addr) returns (id: Option<nat>)
      requires Valid()
      modifies this`pins
      ensures Valid()
      ensures ref == 0 ==> id == Some(0) && pins == old(pins)
      ensures ref != 0 ==>
                match id
                case Some(i) => 0 < i < PIN_MAX && old(pins)[i] == 0 && pins == old(pins)[i := ref]
                case None => pins == old(pins) && forall i :: 0 < i < PIN_MAX ==> pins[i] != 0
    {
      if ref == 0 { return Some(0); }
      for i := 1 to PIN_MAX
        invariant pins == old(pins) && |pins| == PIN_MAX
        invariant forall k :: 0 < k < i ==> pins[k] != 0
      {
        if pins[i] == 0 {
          pins := pins[i := ref];
          return Some(i);
        }
      }
      id := None;
    }

    method RefUnpin(id: int)
      requires Valid()
      modifies this`pins
      ensures Valid()
      ensures pins == if 0 < id < PIN_MAX then old(pins)[id := 0] else old(pins)
    {
      if id <= 0 || id >= PIN_MAX { return; }
      pins := pins[id := 0];
    }
  }
}
