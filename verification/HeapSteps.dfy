/** What the header writes of pvPortMalloc, vPortFree and the initialisations do to the list in memory. */
module HeapSteps {
  import opened HeapTheory
  import opened HeapMemory
  import opened HeapSpec

  /** The headers represent the cells, but for the marks of the blocks in x. */
  predicate Represents(mem: Memory, cs: seq<Cell>, x: set<nat>) {
    && Sized(mem, cs) && Linked(mem, Path(cs))
    && forall i {:trigger cs[i]} | 0 <= i < |cs| && cs[i].kind.Used? && cs[i].addr !in x ::
         mem[cs[i].addr] == Header(0, cs[i].size + ALLOCATED_BIT)
  }

  // ---------------------------------------------------------------- the search

  /** prev and blk are neighbours on the path, and the entries up to prev are smaller than w. */
  predicate Searching(mem: Memory, cs: seq<Cell>, w: nat, k: nat, prev: nat, blk: nat) {
    && Represents(mem, cs, {}) && k < |Listing(cs)| && prev == Path(cs)[k] && blk == Listing(cs)[k]
    && (forall l {:trigger Listing(cs)[l]} | 0 <= l < k :: Listing(cs)[l] in mem && mem[Listing(cs)[l]].size < w)
  }

  lemma {:induction false} SearchStart(mem: Memory, cs: seq<Cell>, rs: seq<Region>, w: nat)
    requires Tiled(cs, rs) && Represents(mem, cs, {})
    ensures Searching(mem, cs, w, 0, XSTART, mem[XSTART].next)
  {
    ListingAt(cs, |cs| - 1);
    assert LinkAt(mem, Path(cs), 0);
  }

  lemma {:induction false} SearchNext(mem: Memory, cs: seq<Cell>, rs: seq<Region>, w: nat, k: nat, prev: nat, blk: nat)
    requires Tiled(cs, rs) && Searching(mem, cs, w, k, prev, blk)
    ensures blk in mem && (mem[blk].next == 0 <==> k == |Listing(cs)| - 1)
    ensures mem[blk].next != 0 && mem[blk].size < w ==> Searching(mem, cs, w, k + 1, blk, mem[blk].next)
    ensures blk == cs[|cs| - 1].addr <==> k == |Listing(cs)| - 1
  {
    assert LinkAt(mem, Path(cs), k + 1);
    var l := Listing(cs);
    if k < |l| - 1 {
      var j := Locate(cs, k + 1);
      assert CellOk(cs[j], rs);
      ListAscends(cs, rs, k, |l| - 1);
    }
    LastListed(cs, rs);
  }

  lemma {:induction false} LastListed(cs: seq<Cell>, rs: seq<Region>)
    requires Tiled(cs, rs)
    ensures |Listing(cs)| > 0 && Listing(cs)[|Listing(cs)| - 1] == cs[|cs| - 1].addr
  {
    ListingAt(cs, |cs| - 1);
    assert cs[|cs| - 1 + 1..] == [];
  }

  /** Where the walk stops is the first free block that fits, or the end of the list when none does. */
  lemma {:induction false} SearchEnd(mem: Memory, cs: seq<Cell>, rs: seq<Region>, w: nat, k: nat, prev: nat, blk: nat)
    requires Tiled(cs, rs) && Searching(mem, cs, w, k, prev, blk) && w > 0
    requires blk in mem && (mem[blk].size >= w || mem[blk].next == 0)
    ensures var i := FirstFit(cs, w);
            && (blk == cs[|cs| - 1].addr <==> i == |cs|)
            && (i < |cs| ==> blk == cs[i].addr && prev == Before(cs, i) && prev in mem && mem[prev].next == blk && mem[blk].size == cs[i].size)
  {
    assert LinkAt(mem, Path(cs), k);
    SearchNext(mem, cs, rs, w, k, prev, blk);
    var i := Locate(cs, k);
    assert CellOk(cs[i], rs) && mem[cs[i].addr].size == cs[i].size;
    forall j | 0 <= j < i ensures !Fits(cs[j], w) { Unfit(mem, cs, w, k, i, j); }
    if i < |cs| - 1 { Increasing(cs, rs, i, |cs| - 1); }
    assert i < |cs| - 1 ==> Fits(cs[i], w);
    assert i == |cs| - 1 ==> FirstFit(cs, w) == |cs| by { hide Searching, Represents; }
  }

  lemma {:induction false} Unfit(mem: Memory, cs: seq<Cell>, w: nat, k: nat, i: nat, j: nat)
    requires Sized(mem, cs) && k <= |Listing(cs)| && i <= |cs| && j < i && Listing(cs[..i]) == Listing(cs)[..k]
    requires forall l {:trigger Listing(cs)[l]} | 0 <= l < k :: Listing(cs)[l] in mem && mem[Listing(cs)[l]].size < w
    ensures !Fits(cs[j], w)
  {
    ListingAt(cs[..i], j);
    var l := |Listing(cs[..i][..j])|;
    if cs[j].kind.Free? {
      assert Listing(cs[..i])[l] == cs[..i][j].addr;
      assert Listing(cs)[l] == cs[j].addr;
    }
  }

  // ---------------------------------------------------------------- allocation

  /** Taking block i out of the list. */
  lemma {:induction false} Unlinked(mem: Memory, cs: seq<Cell>, rs: seq<Region>, i: nat, mem': Memory)
    requires Tiled(cs, rs) && Represents(mem, cs, {}) && i < |cs| && cs[i].kind.Free? && Before(cs, i) in mem
    requires mem' == mem[Before(cs, i) := mem[Before(cs, i)].(next := mem[cs[i].addr].next)]
    ensures Represents(mem', As(cs, i, Used), {cs[i].addr}) && mem'[cs[i].addr].size == cs[i].size
  {
    hide Linked, Listing, Tiled, Path, Before;
    var p, q := [XSTART] + Listing(cs[..i]), Listing(cs[i + 1..]) + [0];
    PathsAround(cs, i);
    assert cs[i].addr in mem;
    BeforeDistinct(cs, rs, i);
    UnlinkChain(mem, p, cs[i].addr, q, mem');
  }

  /** The list with a free block, and without it. */
  lemma {:induction false} PathsAround(cs: seq<Cell>, i: nat)
    requires i < |cs| && cs[i].kind.Free?
    ensures var p, q := [XSTART] + Listing(cs[..i]), Listing(cs[i + 1..]) + [0];
            Path(cs) == p + ([cs[i].addr] + q) && Path(As(cs, i, Used)) == p + q
  {
    hide Listing;
    var u := As(cs, i, Used);
    ListingAt(cs, i);
    ListingAt(u, i);
    assert u[..i] == cs[..i] && u[i + 1..] == cs[i + 1..];
    var a, b := Listing(cs[..i]), Listing(cs[i + 1..]);
    assert [XSTART] + (a + [cs[i].addr] + b) + [0] == [XSTART] + a + ([cs[i].addr] + (b + [0]));
    assert [XSTART] + (a + [] + b) + [0] == [XSTART] + a + (b + [0]);
  }

  lemma {:induction false} BeforeDistinct(cs: seq<Cell>, rs: seq<Region>, i: nat)
    requires Tiled(cs, rs) && i < |cs|
    ensures Before(cs, i) < cs[i].addr && cs[i].addr != XSTART
    ensures forall s {:trigger cs[s]} | 0 <= s < |cs| && cs[s].kind.Used? :: cs[s].addr != Before(cs, i)
    ensures var p, q := [XSTART] + Listing(cs[..i]), Listing(cs[i + 1..]);
            && (forall k {:trigger p[k]} | 0 <= k < |p| - 1 :: p[k] < Before(cs, i)) && p[|p| - 1] == Before(cs, i)
            && (forall k {:trigger q[k]} | 0 <= k < |q| :: q[k] > cs[i].addr)
  {
    var l := Listing(cs[..i]);
    assert CellOk(cs[i], rs);
    AddrBound(cs, rs);
    forall s | 0 <= s < |cs| && cs[s].kind.Used? ensures cs[s].addr != Before(cs, i) {
      if |l| > 0 { UsedNotListed(cs, rs, i, |l| - 1, s); }
    }
    if |l| > 0 {
      var j := Locate(cs[..i], |l| - 1);
      Increasing(cs, rs, j, i);
    }
    PathApart(cs, rs, i);
  }

  lemma {:induction false} UsedNotListed(cs: seq<Cell>, rs: seq<Region>, i: nat, k: nat, s: nat)
    requires Tiled(cs, rs) && i <= |cs| && k < |Listing(cs[..i])| && s < |cs| && cs[s].kind.Used?
    ensures Listing(cs[..i])[k] != cs[s].addr
  {
    var j := Locate(cs[..i], k);
    if j < s { Increasing(cs, rs, j, s); } else { Increasing(cs, rs, s, j); }
  }

  /** An entry a between p and q dropped from a chain. */
  lemma {:induction false} UnlinkChain(mem: Memory, p: seq<nat>, a: nat, q: seq<nat>, mem': Memory)
    requires |p| > 0 && |q| > 0 && Linked(mem, p + ([a] + q)) && a in mem && p[|p| - 1] in mem
    requires mem' == mem[p[|p| - 1] := mem[p[|p| - 1]].(next := mem[a].next)]
    requires forall k {:trigger p[k]} | 0 <= k < |p| - 1 :: p[k] != p[|p| - 1]
    requires forall k {:trigger q[k]} | 0 <= k < |q| - 1 :: q[k] != p[|p| - 1]
    ensures Linked(mem', p + q)
  {
    LinkApart(mem, p, [a] + q);
    LinkApart(mem, [a], q);
    LinkFrame(mem, mem', p);
    LinkFrame(mem, mem', q);
    LinkTogether(mem', p, q);
  }

  /** Writing the headers of cells that are not in the list leaves the links alone. */
  lemma {:induction false} LinkedElsewhere(mem: Memory, cs: seq<Cell>, mem': Memory)
    requires Linked(mem, Path(cs)) && XSTART in mem && XSTART in mem' && mem'[XSTART] == mem[XSTART]
    requires forall i {:trigger cs[i]} | 0 <= i < |cs| && IsListed(cs[i]) ::
               cs[i].addr in mem && cs[i].addr in mem' && mem'[cs[i].addr] == mem[cs[i].addr]
    ensures Linked(mem', Path(cs))
  {
    forall k | 0 <= k < |Path(cs)| - 1 ensures Path(cs)[k] in mem && Path(cs)[k] in mem' && mem'[Path(cs)[k]] == mem[Path(cs)[k]] {
      if k > 0 { var i := Locate(cs, k - 1); }
    }
    LinkFrame(mem, mem', Path(cs));
  }

  /** Distinct cells have distinct addresses; none ends where another begins inside it. */
  lemma {:induction false} AddrDistinct(cs: seq<Cell>, rs: seq<Region>, i: nat)
    requires Tiled(cs, rs) && i < |cs|
    ensures forall j {:trigger cs[j]} | 0 <= j < |cs| && j != i :: !(cs[i].addr <= cs[j].addr < cs[i].addr + cs[i].size) && cs[j].addr != cs[i].addr
    ensures cs[i].addr >= ALIGNMENT
  {
    AddrBound(cs, rs);
    forall j | 0 <= j < |cs| && j != i
      ensures !(cs[i].addr <= cs[j].addr < cs[i].addr + cs[i].size) && cs[j].addr != cs[i].addr
    {
      if j < i { Increasing(cs, rs, j, i); } else { Increasing(cs, rs, i, j); }
    }
  }

  /** Rewriting the header of a block in use. */
  lemma {:induction false} Rewritten(mem: Memory, cs: seq<Cell>, rs: seq<Region>, i: nat, h: Header, x: set<nat>)
    requires Tiled(cs, rs) && i < |cs| && cs[i].kind.Used? && Represents(mem, cs, x + {cs[i].addr})
    ensures Represents(mem[cs[i].addr := h], cs, x + {cs[i].addr})
    ensures h == Header(0, cs[i].size + ALLOCATED_BIT) ==> Represents(mem[cs[i].addr := h], cs, x)
  {
    AddrDistinct(cs, rs, i);
    hide Tiled;
    LinkedElsewhere(mem, cs, mem[cs[i].addr := h]);
  }

  /** Cutting block i: a header is written for the rest, with any link, and the first part is resized. */
  lemma {:induction false} CutWrites(mem: Memory, cs: seq<Cell>, rs: seq<Region>, i: nat, w: nat, junk: nat, mem': Memory)
    requires Tiled(cs, rs) && i < |cs| && cs[i].kind.Used? && Represents(mem, cs, {cs[i].addr}) && 0 < w < cs[i].size
    requires mem[cs[i].addr].size == cs[i].size
    requires mem' == mem[cs[i].addr + w := Header(junk, cs[i].size - w)][cs[i].addr := mem[cs[i].addr].(size := w)]
    ensures Represents(mem', Cut(cs, i, w), {cs[i].addr, cs[i].addr + w})
  {
    AddrDistinct(cs, rs, i);
    CutListing(cs, i, w);
    hide Tiled, Listing;
    LinkedElsewhere(mem, cs, mem');
    var ds := Cut(cs, i, w);
    hide Linked;
    forall j | 0 <= j < |ds| && j != i && j != i + 1
      ensures ds[j].addr in mem' && (IsListed(ds[j]) ==> mem'[ds[j].addr].size == ds[j].size)
      ensures ds[j].kind.Used? ==> mem'[ds[j].addr] == Header(0, ds[j].size + ALLOCATED_BIT)
    {
      assert ds[j] == cs[if j < i then j else j - 1];
    }
  }

  lemma {:induction false} CutListing(cs: seq<Cell>, i: nat, w: nat)
    requires i < |cs| && cs[i].kind.Used? && w <= cs[i].size
    ensures Path(Cut(cs, i, w)) == Path(cs)
  {
    var ds := Cut(cs, i, w);
    ListingAt(cs, i);
    ListingAt(ds, i);
    ListingAt(ds[i + 1..], 0);
    assert ds[i + 1..][1..] == cs[i + 1..] && ds[..i] == cs[..i] && ds[i + 1..][..0] == [];
  }

  /** The writes of an insertion leave a representation of the cells after it. */
  lemma {:induction false} InsertWrites(mem: Memory, cs: seq<Cell>, rs: seq<Region>, i: nat, mem': Memory, x: set<nat>)
    requires Tiled(cs, rs) && i < |cs| && cs[i].kind.Used? && Represents(mem, cs, x + {cs[i].addr}) && mem[cs[i].addr].size == cs[i].size
    requires Before(cs, i) in mem && mem' == Spliced(mem, Before(cs, i), cs[i].addr, cs[|cs| - 1].addr)
    ensures Represents(mem', Inserted(cs, i), x)
  {
    SplicedLinked(mem, cs, rs, i, mem');
    SplicedSized(mem, cs, rs, i, mem');
    var ds := Inserted(cs, i);
    forall j | 0 <= j < |ds| && ds[j].kind.Used? && ds[j].addr !in x
      ensures mem'[ds[j].addr] == Header(0, ds[j].size + ALLOCATED_BIT)
    {
      InsertedMark(mem, cs, rs, i, mem', x, j);
    }
  }

  /** An insertion writes no header of another block in use. */
  lemma {:induction false} OthersKept(mem: Memory, cs: seq<Cell>, rs: seq<Region>, i: nat, mem': Memory, s: nat)
    requires Insertable(mem, cs, rs, i) && Before(cs, i) in mem
    requires mem' == Spliced(mem, Before(cs, i), cs[i].addr, cs[|cs| - 1].addr)
    requires s < |cs| && s != i && cs[s].kind.Used?
    ensures cs[s].addr in mem && cs[s].addr in mem' && mem'[cs[s].addr] == mem[cs[s].addr]
  {
    SplicedAt(mem, cs, rs, i);
    BeforeDistinct(cs, rs, i);
    AddrDistinct(cs, rs, i);
  }

  lemma {:induction false} InsertedMark(mem: Memory, cs: seq<Cell>, rs: seq<Region>, i: nat, mem': Memory, x: set<nat>, j: nat)
    requires Tiled(cs, rs) && i < |cs| && cs[i].kind.Used? && Represents(mem, cs, x + {cs[i].addr}) && mem[cs[i].addr].size == cs[i].size
    requires Before(cs, i) in mem && mem' == Spliced(mem, Before(cs, i), cs[i].addr, cs[|cs| - 1].addr)
    requires j < |Inserted(cs, i)| && Inserted(cs, i)[j].kind.Used? && Inserted(cs, i)[j].addr !in x
    ensures var d := Inserted(cs, i)[j]; d.addr in mem' && mem'[d.addr] == Header(0, d.size + ALLOCATED_BIT)
  {
    var s := StillUsed(cs, rs, i, j);
    hide Inserted, Spliced, Before, Linked, Sized, Tiled;
    OthersKept(mem, cs, rs, i, mem', s);
  }

  /** The blocks in use after an insertion were cells before it. */
  lemma {:induction false} StillUsed(cs: seq<Cell>, rs: seq<Region>, i: nat, j: nat) returns (s: nat)
    requires Tiled(cs, rs) && i < |cs| && cs[i].kind.Used? && j < |Inserted(cs, i)| && Inserted(cs, i)[j].kind.Used?
    ensures s < |cs| && s != i && Inserted(cs, i)[j] == cs[s] && cs[s].addr != cs[i].addr
  {
    AddrDistinct(cs, rs, i);
    InsertedShape(cs, i) by { assert i + 1 < |cs|; }
    hide Rest, Tiled;
    assert Inserted(cs, i)[if i > 0 && cs[i - 1].kind.Free? then i - 1 else i] == Merged(cs, i);
    hide Inserted;
    s := InsertedCell(cs, i, j);
  }

  /** The insertion's walk is at entry k of the list and goes on while the next entry is below the block. */
  lemma {:induction false} WalkStep(mem: Memory, cs: seq<Cell>, rs: seq<Region>, i: nat, k: nat, x: set<nat>)
    requires Tiled(cs, rs) && i < |cs| && cs[i].kind.Used? && Represents(mem, cs, x) && k <= |Listing(cs[..i])|
    ensures var a := [XSTART] + Listing(cs[..i]);
            && a[k] in mem && (mem[a[k]].next < cs[i].addr <==> k < |Listing(cs[..i])|)
            && (k < |Listing(cs[..i])| ==> mem[a[k]].next == a[k + 1])
            && (k == |Listing(cs[..i])| ==> a[k] == Before(cs, i))
  {
    BeforeDistinct(cs, rs, i);
    RightTest(mem, cs, rs, i);
    BeforeLinks(mem, cs, i);
    var a, l := [XSTART] + Listing(cs[..i]), |Listing(cs[..i])|;
    if k < l { assert LinkAt(mem, a, k); assert k + 1 < l ==> a[k + 1] < Before(cs, i); }
  }

  /** An insertion leaves the end of the list where it is. */
  lemma {:induction false} InsertedLast(cs: seq<Cell>, rs: seq<Region>, i: nat)
    requires Tiled(cs, rs) && i < |cs| && cs[i].kind.Used?
    ensures |Inserted(cs, i)| > 0 && Inserted(cs, i)[|Inserted(cs, i)| - 1] == cs[|cs| - 1]
  {
    assert i + 1 < |cs| && (i + 2 == |cs| ==> cs[i + 1].kind == End(true));
    hide Tiled;
    RestLast(cs, i);
    InsertedShape(cs, i);
    hide Inserted, Merged, Rest;
  }

  lemma {:induction false} RestLast(cs: seq<Cell>, i: nat)
    requires i + 1 < |cs| && (i + 2 == |cs| ==> !cs[i + 1].kind.Free?)
    ensures |Rest(cs, i)| > 0 && Rest(cs, i)[|Rest(cs, i)| - 1] == cs[|cs| - 1]
  {
  }

  lemma {:induction false} NoLiveNull(cs: seq<Cell>, rs: seq<Region>)
    requires Tiled(cs, rs)
    ensures LiveAt(cs, 0) == |cs|
  {
  }

  /** The header before a payload tells whether its block is live. */
  lemma {:induction false} HeaderTells(mem: Memory, cs: seq<Cell>, rs: seq<Region>, p: nat)
    requires Tiled(cs, rs) && Represents(mem, cs, {})
    requires exists i {:trigger cs[i]} :: 0 <= i < |cs| && !cs[i].kind.End? && cs[i].addr + STRUCT_SIZE == p
    ensures p >= STRUCT_SIZE && p - STRUCT_SIZE in mem
    ensures var h := mem[p - STRUCT_SIZE]; h.size >= ALLOCATED_BIT && h.next == 0 <==> LiveAt(cs, p) < |cs|
  {
    var i :| 0 <= i < |cs| && !cs[i].kind.End? && cs[i].addr + STRUCT_SIZE == p;
    assert CellOk(cs[i], rs);
    AddrDistinct(cs, rs, i);
  }

  /** m is the least of the recorded amounts of free bytes. */
  predicate IsLeast(m: nat, history: seq<int>) {
    m in history && forall i {:trigger history[i]} | 0 <= i < |history| :: m <= history[i]
  }

  lemma {:induction false} LeastAgain(m: nat, history: seq<int>, f: nat)
    requires IsLeast(m, history) && m <= f
    ensures IsLeast(m, history + [f])
  {
    var i :| 0 <= i < |history| && history[i] == m;
    assert (history + [f])[i] == m;
  }

  lemma {:induction false} LeastNew(m: nat, history: seq<int>, f: nat)
    requires IsLeast(m, history) && f <= m
    ensures IsLeast(f, history + [f])
  {
    assert (history + [f])[|history|] == f;
  }

  lemma {:induction false} LeastLast(m: nat, history: seq<int>)
    requires IsLeast(m, history)
    ensures |history| > 0 && m <= history[|history| - 1]
  {
  }

  /** The static variables, the headers in memory and the cells they stand for; history holds the
      amounts of free bytes after initialisation and after each call. */
  datatype State = State(mem: Memory, cs: seq<Cell>, rs: seq<Region>, pxEnd: nat, free: nat, least: nat,
                         allocations: nat, frees: nat, history: seq<int>)

  /** The variables and headers represent a sound heap. */
  predicate Consistent(s: State) {
    && Tiled(s.cs, s.rs) && Coalesced(s.cs) && Represents(s.mem, s.cs, {})
    && s.pxEnd == s.cs[|s.cs| - 1].addr && s.free == FreeSum(s.cs)
    && IsLeast(s.least, s.history) && s.history[|s.history| - 1] == s.free
  }

  /** A 32-bit counter one further. */
  function Counted(n: nat): nat { (n + 1) % 0x1_0000_0000 }

  predicate SameEnd(a: seq<Cell>, b: seq<Cell>) { |a| > 0 && |b| > 0 && a[|a| - 1] == b[|b| - 1] }

  // ---------------------------------------------------------------- the steps of the two calls

  /** Block i is in use, its header holds its plain size; the blocks in x have unmarked headers too. */
  predicate Inserting(s: State, i: nat, x: set<nat>, block: nat) {
    && Tiled(s.cs, s.rs) && s.pxEnd == s.cs[|s.cs| - 1].addr
    && i < |s.cs| && s.cs[i].kind.Used? && s.cs[i].addr == block
    && Represents(s.mem, s.cs, x + {block}) && s.mem[block].size == s.cs[i].size
  }

  predicate InsertedState(s: State, i: nat, x: set<nat>, s': State)
    requires i < |s.cs|
  {
    && s' == s.(mem := s'.mem, cs := Inserted(s.cs, i)) && Represents(s'.mem, s'.cs, x) && SameEnd(s.cs, s'.cs)
    && forall j {:trigger s.cs[j]} | 0 <= j < |s.cs| && j != i && s.cs[j].kind.Used? ::
         s.cs[j].addr in s.mem && s.cs[j].addr in s'.mem && s'.mem[s.cs[j].addr] == s.mem[s.cs[j].addr]
  }

  lemma {:induction false} InsertDone(s: State, i: nat, x: set<nat>, block: nat, s': State)
    requires Inserting(s, i, x, block) && Before(s.cs, i) in s.mem
    requires s' == s.(mem := Spliced(s.mem, Before(s.cs, i), block, s.pxEnd), cs := Inserted(s.cs, i))
    ensures InsertedState(s, i, x, s')
  {
    hide Inserted, Before, Spliced, Tiled, Linked;
    InsertWrites(s.mem, s.cs, s.rs, i, s'.mem, x);
    InsertedLast(s.cs, s.rs, i);
    forall j | 0 <= j < |s.cs| && j != i && s.cs[j].kind.Used?
      ensures s.cs[j].addr in s.mem && s.cs[j].addr in s'.mem && s'.mem[s.cs[j].addr] == s.mem[s.cs[j].addr]
    {
      OthersKept(s.mem, s.cs, s.rs, i, s'.mem, j);
    }
  }

  /** Free block i fits and is found behind prev. */
  predicate Found(s: State, i: nat, w: nat, prev: nat, blk: nat) {
    && i < |s.cs| && Fits(s.cs[i], w) && 0 < w && Aligned(w) && blk == s.cs[i].addr && prev == Before(s.cs, i)
    && prev in s.mem && blk in s.mem && s.mem[prev].next == blk && s.mem[blk].size == s.cs[i].size
  }

  /** Block i is taken out of the list, not yet marked. */
  predicate UnlinkedState(s: State, i: nat, s': State)
    requires i < |s.cs|
  {
    var blk := s.cs[i].addr;
    && s' == s.(mem := s'.mem, cs := As(s.cs, i, Used)) && Tiled(s'.cs, s.rs) && SameEnd(s.cs, s'.cs)
    && Represents(s'.mem, s'.cs, {blk}) && blk in s'.mem && s'.mem[blk].size == s.cs[i].size
  }

  lemma {:induction false} UnlinkDone(s: State, i: nat, w: nat, prev: nat, blk: nat, s': State)
    requires Consistent(s) && Found(s, i, w, prev, blk)
    requires s' == s.(mem := s.mem[prev := s.mem[prev].(next := s.mem[blk].next)], cs := As(s.cs, i, Used))
    ensures UnlinkedState(s, i, s')
  {
    Unlinked(s.mem, s.cs, s.rs, i, s'.mem);
    UsedKeeps(s.cs, s.rs, i);
    hide Before, Represents, Tiled, Coalesced, FreeSum, IsLeast;
  }

  /** Block i, in use but unmarked, is cut behind w bytes; the rest is ready to go back to the list. */
  predicate DividedState(s: State, i: nat, w: nat, s': State)
    requires i < |s.cs| && w <= s.cs[i].size
  {
    var blk := s.cs[i].addr;
    && s' == s.(mem := s'.mem, cs := Cut(s.cs, i, w)) && SameEnd(s.cs, s'.cs)
    && blk in s'.mem && s'.mem[blk].size == w && Inserting(s', i + 1, {blk}, blk + w)
  }

  lemma {:induction false} DivideDone(s: State, i: nat, w: nat, junk: nat, s': State)
    requires Tiled(s.cs, s.rs) && s.pxEnd == s.cs[|s.cs| - 1].addr && i + 1 < |s.cs| && s.cs[i].kind.Used?
    requires Represents(s.mem, s.cs, {s.cs[i].addr}) && s.mem[s.cs[i].addr].size == s.cs[i].size && 0 < w < s.cs[i].size && Aligned(w)
    requires var blk := s.cs[i].addr;
             s' == s.(mem := s.mem[blk + w := Header(junk, s.cs[i].size - w)][blk := s.mem[blk].(size := w)], cs := Cut(s.cs, i, w))
    ensures DividedState(s, i, w, s')
  {
    CutWrites(s.mem, s.cs, s.rs, i, w, junk, s'.mem);
    CutTiled(s.cs, s.rs, i, w);
    assert {s.cs[i].addr} + {s.cs[i].addr + w} == {s.cs[i].addr, s.cs[i].addr + w};
    hide Tiled, Represents;
  }

  /** Free block i has been carved for w bytes; its header holds its plain size. */
  predicate CarvedState(s: State, i: nat, w: nat, s': State)
    requires i < |s.cs| && w <= s.cs[i].size
  {
    var blk := s.cs[i].addr;
    && s' == s.(mem := s'.mem, cs := Taken(s.cs, i, w)) && SameEnd(s.cs, s'.cs)
    && Represents(s'.mem, s'.cs, {blk}) && blk in s'.mem && s'.mem[blk].size == TakenSize(s.cs[i], w)
  }

  /** s' differs from s as allocating w bytes from free block i makes it. */
  predicate GrantedState(s: State, i: nat, w: nat, s': State)
    requires i < |s.cs| && w <= s.cs[i].size
  {
    var free := s.free - TakenSize(s.cs[i], w);
    && s' == s.(mem := s'.mem, cs := Taken(s.cs, i, w), free := s'.free, least := s'.least,
                allocations := Counted(s.allocations), history := s.history + [free])
    && s'.free == free
  }

  /** The accounting and the mark, on top of a carved block. */
  predicate AccountedState(s: State, blk: nat, s': State)
    requires blk in s.mem
  {
    && s' == s.(mem := s.mem[blk := Header(0, s.mem[blk].size + ALLOCATED_BIT)], free := s'.free, least := s'.least,
                allocations := Counted(s.allocations), history := s.history + [s'.free])
    && s'.free == s.free - s.mem[blk].size && s'.least == (if s'.free < s.least then s'.free else s.least)
  }

  lemma {:induction false} GrantStart(s: State, i: nat, w: nat)
    requires Consistent(s) && i < |s.cs| && Fits(s.cs[i], w) && 0 < w && Aligned(w)
    ensures TakenSize(s.cs[i], w) <= s.free
  {
    hide Tiled, Coalesced, Represents, FreeSum, Taken, IsLeast;
    TakenKeeps(s.cs, s.rs, i, w);
  }

  lemma {:induction false} GrantDone(s: State, i: nat, w: nat, t: State, s': State)
    requires Consistent(s) && i < |s.cs| && Fits(s.cs[i], w) && 0 < w && Aligned(w)
    requires CarvedState(s, i, w, t) && AccountedState(t, s.cs[i].addr, s')
    ensures GrantedState(s, i, w, s') && Consistent(s')
  {
    hide Coalesced, FreeSum, Taken, Represents, Tiled;
    TakenKeeps(s.cs, s.rs, i, w);
    if s'.free < s.least { LeastNew(s.least, s.history, s'.free); } else { LeastAgain(s.least, s.history, s'.free); }
    assert {} + {s.cs[i].addr} == {s.cs[i].addr};
    hide IsLeast;
    Rewritten(t.mem, t.cs, t.rs, i, Header(0, t.cs[i].size + ALLOCATED_BIT), {});
  }

  /** s' differs from s as freeing block i makes it. */
  predicate FreedState(s: State, i: nat, s': State)
    requires i < |s.cs|
  {
    s' == s.(mem := s'.mem, cs := Inserted(s.cs, i), free := s.free + s.cs[i].size, frees := Counted(s.frees),
             history := s.history + [s.free + s.cs[i].size])
  }

  lemma {:induction false} FreeStart(s: State, i: nat)
    requires Consistent(s) && i < |s.cs| && s.cs[i].kind.Used?
    ensures s.cs[i].addr in s.mem && s.mem[s.cs[i].addr] == Header(0, s.cs[i].size + ALLOCATED_BIT)
    ensures Inserting(s.(mem := s.mem[s.cs[i].addr := Header(0, s.cs[i].size)]), i, {}, s.cs[i].addr)
  {
    Rewritten(s.mem, s.cs, s.rs, i, Header(0, s.cs[i].size), {});
    hide Tiled, Coalesced, Linked, FreeSum, IsLeast;
  }

  lemma {:induction false} FreeDone(s: State, i: nat, t: State, u: State, s': State)
    requires Consistent(s) && i < |s.cs| && s.cs[i].kind.Used?
    requires t == s.(mem := t.mem, free := s.free + s.cs[i].size) && InsertedState(t, i, {}, u)
    requires s' == u.(frees := Counted(u.frees), history := u.history + [u.free])
    ensures FreedState(s, i, s') && Consistent(s')
  {
    hide Tiled, Coalesced, Represents, FreeSum, Inserted, IsLeast;
    InsertedKeeps(s.cs, s.rs, i);
    InsertedCoalesced(s.cs, i);
    LeastLast(s.least, s.history);
    LeastAgain(s.least, s.history, s'.free);
  }

  lemma {:induction false} Recorded(s: State)
    requires Consistent(s)
    ensures Consistent(s.(history := s.history + [s.free]))
  {
    hide Tiled, Coalesced, Represents, FreeSum, IsLeast;
    LeastLast(s.least, s.history);
    LeastAgain(s.least, s.history, s.free);
  }

  /** A request that some block satisfies passes the test against the free bytes. */
  lemma {:induction false} Affordable(s: State, w: nat)
    requires Consistent(s)
    ensures FirstFit(s.cs, w) < |s.cs| ==> w <= s.free
  {
    FitBound(s.cs, w);
  }

  lemma {:induction false} UnlinkGives(s: State, i: nat, w: nat, prev: nat, blk: nat, t: State)
    requires Consistent(s) && Found(s, i, w, prev, blk) && UnlinkedState(s, i, t)
    ensures Tiled(t.cs, t.rs) && t.pxEnd == t.cs[|t.cs| - 1].addr && i + 1 < |t.cs| && t.cs[i].kind.Used? && blk == t.cs[i].addr
    ensures Represents(t.mem, t.cs, {blk}) && t.mem[blk].size == t.cs[i].size && t.cs[i].size == s.cs[i].size
    ensures s.cs[i].size - w <= MINIMUM_BLOCK ==> CarvedState(s, i, w, t)
  {
    hide Tiled, Coalesced, Represents, FreeSum, IsLeast, Before, Aligned;
    UsedKeeps(s.cs, s.rs, i);
  }

  lemma {:induction false} DivideGives(t: State, i: nat, w: nat, u: State)
    requires i < |t.cs| && w <= t.cs[i].size && DividedState(t, i, w, u)
    ensures Inserting(u, i + 1, {t.cs[i].addr}, t.cs[i].addr + w)
  {
  }

  lemma {:induction false} CarveDone(s: State, i: nat, w: nat, t: State, u: State, s': State)
    requires i < |s.cs| && Fits(s.cs[i], w) && s.cs[i].size - w > MINIMUM_BLOCK
    requires UnlinkedState(s, i, t) && DividedState(t, i, w, u) && i + 1 < |u.cs| && InsertedState(u, i + 1, {s.cs[i].addr}, s')
    ensures CarvedState(s, i, w, s')
  {
    hide Tiled, Represents, Inserted, Inserting;
    assert u.cs[i].addr == s.cs[i].addr && u.cs[i].kind.Used?;
  }

  /** What the search and allocation of w bytes do: nothing without a block that fits. */
  predicate AllocatedState(s: State, w: nat, p: nat, s': State) {
    var i := FirstFit(s.cs, w);
    if i == |s.cs| then p == 0 && s' == s else p == s.cs[i].addr + STRUCT_SIZE && GrantedState(s, i, w, s')
  }

  /** What pvPortMalloc does to the whole state. */
  predicate MallocState(s: State, request: nat, s': State) {
    && s' == s.(mem := s'.mem, cs := Granted(s.cs, request), free := s'.free, least := s'.least,
                allocations := if Pointer(s.cs, request) == 0 then s.allocations else Counted(s.allocations),
                history := s.history + [s'.free])
    && (Pointer(s.cs, request) == 0 ==> s'.mem == s.mem && s'.free == s.free && s'.least == s.least)
  }

  lemma {:induction false} MallocDone(s: State, request: nat, p: nat, s': State)
    requires var w := Rounded(request);
             if w == 0 || w > s.free || FirstFit(s.cs, w) == |s.cs| then p == 0 && s' == s.(history := s.history + [s.free])
             else AllocatedState(s, w, p, s')
    requires FirstFit(s.cs, Rounded(request)) < |s.cs| ==> Rounded(request) <= s.free
    ensures p == Pointer(s.cs, request) && MallocState(s, request, s')
  {
    hide Rounded, Taken;
  }

  lemma {:induction false} InsertingAlike(s: State, t: State, i: nat, x: set<nat>, block: nat)
    requires Inserting(s, i, x, block) && t == s.(free := t.free)
    ensures Inserting(t, i, x, block)
  {
    hide Tiled, Represents;
  }

  /** What vPortFree does to the whole state. */
  predicate FreeState(s: State, p: nat, s': State) {
    var i := LiveAt(s.cs, p);
    if i < |s.cs| then FreedState(s, i, s') else s' == s.(history := s.history + [s.free])
  }
}
