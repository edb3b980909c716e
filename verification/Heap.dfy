/** heap_4 and heap_5: the allocator's static variables and the headers it keeps in the memory it manages. */
module HeapImplementation {
  import opened HeapTheory
  import opened HeapMemory
  import opened HeapSpec
  import opened HeapSteps
  import opened HeapStart

  class Heap {
    var mem: Memory
    var pxEnd: nat
    var freeBytes: nat
    var minimumEver: nat
    var allocations: nat
    var frees: nat
    ghost var cells: seq<Cell>
    ghost var regions: seq<Region>
    ghost var history: seq<int>

    constructor ()
      ensures pxEnd == 0 && freeBytes == 0 && minimumEver == 0 && allocations == 0 && frees == 0
    {
      mem, pxEnd, freeBytes, minimumEver, allocations, frees := map[], 0, 0, 0, 0, 0;
    }

    ghost function S(): State
      reads this
    {
      State(mem, cells, regions, pxEnd, freeBytes, minimumEver, allocations, frees, history)
    }

    ghost predicate Valid()
      reads this
    {
      Consistent(S())
    }

    /** The loop of prvInsertBlockIntoFreeList: the last entry of the list below the block. */
    method Walk(block: nat, ghost i: nat, ghost x: set<nat>) returns (it: nat)
      requires Inserting(S(), i, x, block)
      ensures it == Before(cells, i) && it in mem && it < block && mem[it].next in mem && block in mem
    {
      it := XSTART;
      ghost var k := 0;
      WalkStep(mem, cells, regions, i, k, x + {block});
      while mem[it].next < block
        invariant k <= |Listing(cells[..i])| && it == ([XSTART] + Listing(cells[..i]))[k] && it in mem
        invariant mem[it].next < block <==> k < |Listing(cells[..i])|
        invariant mem[it].next < block ==> mem[it].next == ([XSTART] + Listing(cells[..i]))[k + 1]
        invariant k == |Listing(cells[..i])| ==> it == Before(cells, i)
        decreases |Listing(cells[..i])| - k
      {
        it := mem[it].next;
        k := k + 1;
        WalkStep(mem, cells, regions, i, k, x + {block});
      }
      BeforeDistinct(cells, regions, i);
      RightTest(mem, cells, regions, i);
    }

    /** The part of prvInsertBlockIntoFreeList behind its loop. */
    method Splice(it: nat, toInsert: nat)
      requires it in mem && toInsert in mem && it != toInsert && (mem[it].next == pxEnd || mem[it].next in mem)
      modifies this`mem
      ensures mem == Spliced(old(mem), it, toInsert, pxEnd)
    {
      var block := toInsert;
      if it + mem[it].size == block {
        mem := mem[it := mem[it].(size := mem[it].size + mem[block].size)];
        block := it;
      }
      var n := mem[it].next;
      if block + mem[block].size == n {
        if n != pxEnd {
          mem := mem[block := mem[block].(size := mem[block].size + mem[n].size)];
          mem := mem[block := mem[block].(next := mem[n].next)];
        } else {
          mem := mem[block := mem[block].(next := pxEnd)];
        }
      } else {
        mem := mem[block := mem[block].(next := n)];
      }
      if it != block {
        mem := mem[it := mem[it].(next := block)];
      }
    }

    /** prvInsertBlockIntoFreeList. */
    method InsertBlock(block: nat, ghost i: nat, ghost x: set<nat>)
      requires Inserting(S(), i, x, block)
      modifies this`mem, this`cells
      ensures InsertedState(old(S()), i, x, S())
    {
      ghost var s := S();
      var it := Walk(block, i, x);
      hide Inserting, Before, Inserted, InsertedState;
      Splice(it, block);
      hide Spliced;
      cells := Inserted(cells, i);
      InsertDone(s, i, x, block, S());
    }

    /** xWantedSize with the header added and rounded up, in 32-bit arithmetic; 0 when refused. */
    static method Enlarge(request: nat) returns (w: nat)
      requires request < WORD
      ensures w == Rounded(request) && Aligned(w)
    {
      w := 0;
      if request < ALLOCATED_BIT {
        if request > 0 && (request + STRUCT_SIZE) % WORD > request {
          w := (request + STRUCT_SIZE) % WORD;
          if w % 8 != 0 {
            w := Align(w);
          }
        }
      }
    }

    /** The rounding up to the alignment, 0 when it overflows. */
    static method Align(size: nat) returns (w: nat)
      requires size < WORD && size % 8 != 0
      ensures w == if size + 7 < WORD then (size + 7) / 8 * 8 else 0
    {
      var up := (size + (8 - size % 8)) % WORD;
      w := 0;
      if up > size { w := up; }
    }

    /** The walk of pvPortMalloc from the lowest address to a block of adequate size. */
    method Search(w: nat) returns (prev: nat, blk: nat)
      requires Valid() && w > 0 && Aligned(w)
      ensures blk == pxEnd <==> FirstFit(cells, w) == |cells|
      ensures blk != pxEnd ==> Found(S(), FirstFit(cells, w), w, prev, blk)
    {
      prev := XSTART;
      blk := mem[XSTART].next;
      ghost var k := 0;
      SearchStart(mem, cells, regions, w);
      SearchNext(mem, cells, regions, w, k, prev, blk);
      while mem[blk].size < w && mem[blk].next != 0
        invariant Searching(mem, cells, w, k, prev, blk) && blk in mem
        decreases |Listing(cells)| - k
      {
        SearchNext(mem, cells, regions, w, k, prev, blk);
        prev := blk;
        blk := mem[blk].next;
        k := k + 1;
        SearchNext(mem, cells, regions, w, k, prev, blk);
      }
      SearchEnd(mem, cells, regions, w, k, prev, blk);
    }

    /** Block blk leaves the list. */
    method Unlink(prev: nat, blk: nat, w: nat, ghost i: nat)
      requires Valid() && Found(S(), i, w, prev, blk)
      modifies this`mem, this`cells
      ensures UnlinkedState(old(S()), i, S())
    {
      ghost var s := S();
      hide Consistent, UnlinkedState;
      mem := mem[prev := mem[prev].(next := mem[blk].next)];
      cells := As(cells, i, Used);
      UnlinkDone(s, i, w, prev, blk, S());
    }

    /** The header of the part of block blk behind w bytes is written, with whatever link is there. */
    method Divide(blk: nat, w: nat, ghost i: nat) returns (rest: nat)
      requires Tiled(cells, regions) && pxEnd == cells[|cells| - 1].addr && i + 1 < |cells| && cells[i].kind.Used? && blk == cells[i].addr
      requires Represents(mem, cells, {blk}) && mem[blk].size == cells[i].size && 0 < w < cells[i].size && Aligned(w)
      modifies this`mem, this`cells
      ensures rest == blk + w && DividedState(old(S()), i, w, S())
    {
      ghost var s := S();
      assert blk in mem;
      hide Tiled, Represents, DividedState, Aligned;
      rest := blk + w;
      var stale: nat := *;
      mem := mem[rest := Header(stale, mem[blk].size - w)];
      mem := mem[blk := mem[blk].(size := w)];
      cells := Cut(cells, i, w);
      DivideDone(s, i, w, stale, S());
    }

    /** Block blk leaves the list; what is left of it behind w bytes goes back when it is more than a minimum block. */
    method Carve(prev: nat, blk: nat, w: nat, ghost i: nat)
      requires Valid() && Found(S(), i, w, prev, blk)
      modifies this`mem, this`cells
      ensures CarvedState(old(S()), i, w, S())
    {
      hide Consistent, Inserted, InsertedState, UnlinkedState, DividedState;
      ghost var s := S();
      Unlink(prev, blk, w, i);
      ghost var t := S();
      UnlinkGives(s, i, w, prev, blk, t);
      if mem[blk].size - w > MINIMUM_BLOCK {
        var rest := Divide(blk, w, i);
        ghost var u := S();
        DivideGives(t, i, w, u);
        InsertBlock(rest, i + 1, {blk});
        CarveDone(s, i, w, t, u, S());
      }
    }

    /** The accounting of pvPortMalloc and the mark in the block's header. */
    method Account(blk: nat)
      requires blk in mem && mem[blk].size <= freeBytes
      modifies this`mem, this`freeBytes, this`minimumEver, this`allocations, this`history
      ensures AccountedState(old(S()), blk, S())
    {
      freeBytes := freeBytes - mem[blk].size;
      if freeBytes < minimumEver {
        minimumEver := freeBytes;
      }
      mem := mem[blk := Header(0, mem[blk].size + ALLOCATED_BIT)];
      allocations := Counted(allocations);
      history := history + [freeBytes];
    }

    /** The found block is taken out, carved and accounted for. */
    method Grant(prev: nat, blk: nat, w: nat, ghost i: nat)
      requires Valid() && Found(S(), i, w, prev, blk)
      modifies this
      ensures Valid() && GrantedState(old(S()), i, w, S())
    {
      hide Consistent, AccountedState, GrantedState;
      ghost var s := S();
      GrantStart(s, i, w);
      Carve(prev, blk, w, i);
      ghost var t := S();
      Account(blk);
      GrantDone(s, i, w, t, S());
    }

    /** A call that changes nothing still counts in the history. */
    ghost method Record()
      requires Valid()
      modifies this`history
      ensures Valid() && S() == old(S()).(history := old(history) + [freeBytes])
    {
      hide Consistent;
      Recorded(S());
      history := history + [freeBytes];
    }

    /** The search and, when it found a block, the allocation. */
    method Allocate(w: nat) returns (p: nat)
      requires Valid() && 0 < w && Aligned(w)
      modifies this
      ensures Valid() && AllocatedState(old(S()), w, p, S())
    {
      hide Consistent, GrantedState;
      ghost var s := S();
      p := 0;
      var prev, blk := Search(w);
      if blk != pxEnd {
        p := mem[prev].next + STRUCT_SIZE;
        Grant(prev, blk, w, FirstFit(cells, w));
      }
    }

    /** pvPortMalloc of heap_5: the lowest free block of adequate size, split when more than a minimum
        block is left, or 0. */
    method Malloc(request: nat) returns (p: nat)
      requires Valid() && request < WORD
      modifies this
      ensures Valid() && p == Pointer(old(cells), request) && MallocState(old(S()), request, S())
    {
      hide Consistent, GrantedState, Rounded, Taken, Aligned;
      ghost var s := S();
      p := 0;
      var w := Enlarge(request);
      Affordable(s, w);
      if w > 0 && w <= freeBytes {
        p := Allocate(w);
      }
      if p == 0 { Record(); }
      MallocDone(s, request, p, S());
    }

    /** vPortFree: a live block goes back to the list; NULL and a block already free are left alone. */
    method Free(p: nat)
      requires Valid() && (p != 0 ==> exists i {:trigger cells[i]} :: 0 <= i < |cells| && !cells[i].kind.End? && cells[i].addr + STRUCT_SIZE == p)
      modifies this
      ensures Valid() && FreeState(old(S()), p, S())
    {
      hide FreedState, LiveAt, Tiled, Coalesced, Represents, FreeSum;
      if p == 0 { NoLiveNull(cells, regions); } else { HeaderTells(mem, cells, regions, p); }
      hide Consistent;
      var live := false;
      if p != 0 {
        var link := p - STRUCT_SIZE;
        live := mem[link].size >= ALLOCATED_BIT && mem[link].next == 0;
        if live { Release(link, LiveAt(cells, p)); }
      }
      if !live { Record(); }
    }

    /** The body of vPortFree for an allocated block. */
    method Release(link: nat, ghost i: nat)
      requires Valid() && i < |cells| && cells[i].kind.Used? && cells[i].addr == link
      modifies this
      ensures Valid() && FreedState(old(S()), i, S())
    {
      hide Consistent, Inserting, InsertedState, FreedState, Counted;
      ghost var s := S();
      FreeStart(s, i);
      mem := mem[link := mem[link].(size := mem[link].size - ALLOCATED_BIT)];
      ghost var unmarked := S();
      freeBytes := freeBytes + mem[link].size;
      ghost var t := S();
      InsertingAlike(unmarked, t, i, {}, link);
      InsertBlock(link, i, {});
      ghost var u := S();
      frees := Counted(frees);
      history := history + [freeBytes];
      FreeDone(s, i, t, u, S());
    }

    /** The headers of one region, as vPortDefineHeapRegions writes them. */
    method DefineRegion(r: Region, ghost rs: seq<Region>, ghost d: nat)
      requires d < |rs| && r == rs[d] && r.lo < r.hi && (d == 0 <==> pxEnd == 0) && (d > 0 ==> pxEnd == rs[d - 1].hi && pxEnd in mem)
      modifies this`mem, this`pxEnd
      ensures mem == Defined(old(mem), rs, d) && pxEnd == r.hi
    {
      if pxEnd == 0 {
        mem := mem[XSTART := Header(r.lo, 0)];
      }
      var previous := pxEnd;
      pxEnd := r.hi;
      mem := mem[pxEnd := Header(0, 0)];
      mem := mem[r.lo := Header(pxEnd, pxEnd - r.lo)];
      if previous != 0 {
        mem := mem[previous := mem[previous].(next := r.lo)];
      }
    }

    /** vPortDefineHeapRegions of heap_5. */
    method DefineRegions(raw: seq<Raw>)
      requires pxEnd == 0 && 0 < Count(raw) < |raw|
      requires forall i {:trigger raw[i]} | 0 <= i < Count(raw) :: raw[i].size >= STRUCT_SIZE
      requires Ordered(Regions(raw[..Count(raw)]))
      modifies this
      ensures Valid() && StartState(S(), Regions(raw[..Count(raw)]))
      ensures allocations == old(allocations) && frees == old(frees)
    {
      hide Initial, Represents, Defined, Consistent, Ordered, Regions, RegionOf, Count, StartState, Capacity;
      ghost var rs := Regions(raw[..Count(raw)]);
      RegionsAt(raw, 0);
      var total: nat := 0;
      var d := 0;
      RegionFacts(rs);
      while raw[d].size > 0
        invariant d <= |rs| == Count(raw) && (d == 0 <==> pxEnd == 0) && total == Capacity(rs, d)
        invariant d > 0 ==> Represents(mem, Initial(rs, d), {}) && pxEnd == rs[d - 1].hi && pxEnd in mem
        invariant allocations == old(allocations) && frees == old(frees)
        invariant raw[d].size > 0 <==> d < |rs|
        decreases |rs| - d
      {
        RegionsAt(raw, d);
        RegionsAt(raw, d + 1);
        var r := AlignedRegion(raw[d]);
        DefineStep(mem, rs, d);
        DefineRegion(r, rs, d);
        total := total + (r.hi - r.lo);
        d := d + 1;
      }
      minimumEver, freeBytes := total, total;
      cells, regions, history := Initial(rs, |rs|), rs, [total];
      StartIs(S(), rs);
      StartConsistent(S(), rs);
    }

    /** The start rounded up, the end marker rounded down below the end. */
    static method AlignedRegion(raw: Raw) returns (r: Region)
      requires raw.size >= STRUCT_SIZE && RegionOf(raw).lo < RegionOf(raw).hi
      ensures r == RegionOf(raw)
    {
      var address, size := raw.start, raw.size;
      if address % 8 != 0 {
        address := (address + 7) / 8 * 8;
        size := size - (address - raw.start);
      }
      var end := (address + size - STRUCT_SIZE) / 8 * 8;
      r := Region(address, end);
    }

    /** prvHeapInit of heap_4: the one region is ucHeap. */
    method HeapInit(heap: Raw)
      requires pxEnd == 0 && heap.size >= STRUCT_SIZE && Ordered([RegionOf(heap)])
      modifies this
      ensures Valid() && StartState(S(), [RegionOf(heap)])
      ensures allocations == old(allocations) && frees == old(frees)
    {
      hide Initial, Represents, Consistent, RegionOf;
      ghost var rs := [RegionOf(heap)];
      DefineStep(mem, rs, 0);
      var r := AlignedRegion(heap);
      hide Ordered;
      mem := mem[XSTART := Header(r.lo, 0)];
      pxEnd := r.hi;
      mem := mem[pxEnd := Header(0, 0)];
      mem := mem[r.lo := Header(pxEnd, pxEnd - r.lo)];
      minimumEver, freeBytes := mem[r.lo].size, mem[r.lo].size;
      cells, regions, history := Initial(rs, 1), rs, [freeBytes];
      StartConsistent(S(), rs);
    }

    /** pvPortMalloc of heap_4, which initialises the heap on the first call. */
    method MallocSingle(heap: Raw, request: nat) returns (p: nat)
      requires heap.size >= STRUCT_SIZE && Ordered([RegionOf(heap)]) && request < WORD
      requires pxEnd != 0 ==> Valid() && regions == [RegionOf(heap)]
      modifies this
      ensures Valid() && regions == [RegionOf(heap)]
      ensures old(pxEnd) != 0 ==> p == Pointer(old(cells), request) && MallocState(old(S()), request, S())
      ensures old(pxEnd) == 0 ==> var cs := Initial([RegionOf(heap)], 1); p == Pointer(cs, request) && cells == Granted(cs, request)
    {
      hide Initial, Represents, Consistent, RegionOf, Ordered, Pointer, Granted;
      if pxEnd == 0 {
        HeapInit(heap);
      }
      p := Malloc(request);
    }
  }
}
