/** The heap right after initialisation: one free block and one end marker for each region. */
module HeapStart {
  import opened HeapTheory
  import opened HeapMemory
  import opened HeapSpec
  import opened HeapSteps

  /** One entry of the table of regions, or ucHeap and its size. */
  datatype Raw = Raw(start: nat, size: nat)

  function AlignUp(n: nat): nat { (n + 7) / 8 * 8 }

  /** The aligned region inside a raw one, its end marker at hi. */
  function RegionOf(r: Raw): Region
    requires r.size >= STRUCT_SIZE
  {
    Region(AlignUp(r.start), (r.start + r.size - STRUCT_SIZE) / 8 * 8)
  }

  /** Entries in front of the one of size 0. */
  function Count(raw: seq<Raw>): (n: nat)
    ensures n <= |raw| && (n < |raw| ==> raw[n].size == 0)
    ensures forall i {:trigger raw[i]} | 0 <= i < n :: raw[i].size > 0
  {
    if |raw| == 0 || raw[0].size == 0 then 0
    else
      assert forall i {:trigger raw[i]} | 1 <= i < |raw| :: raw[i] == raw[1..][i - 1];
      1 + Count(raw[1..])
  }

  function Regions(raw: seq<Raw>): (rs: seq<Region>)
    requires forall i {:trigger raw[i]} | 0 <= i < |raw| :: raw[i].size >= STRUCT_SIZE
    ensures |rs| == |raw| && forall i {:trigger rs[i]} | 0 <= i < |raw| :: rs[i] == RegionOf(raw[i])
  {
    seq(|raw|, i requires 0 <= i < |raw| => RegionOf(raw[i]))
  }

  /** The cells of the first n regions. */
  function Initial(rs: seq<Region>, n: nat): (cs: seq<Cell>)
    requires n <= |rs| && forall i {:trigger rs[i]} | 0 <= i < |rs| :: rs[i].lo <= rs[i].hi
    ensures |cs| == 2 * n
  {
    if n == 0 then []
    else Initial(rs, n - 1) + [Cell(rs[n - 1].lo, rs[n - 1].hi - rs[n - 1].lo, Kind.Free, n - 1), Cell(rs[n - 1].hi, 0, End(true), n - 1)]
  }

  lemma {:induction false} InitialAt(rs: seq<Region>, n: nat, k: nat)
    requires Ordered(rs) && k < n <= |rs|
    ensures Initial(rs, n)[2 * k] == Cell(rs[k].lo, rs[k].hi - rs[k].lo, Kind.Free, k)
    ensures Initial(rs, n)[2 * k + 1] == Cell(rs[k].hi, 0, End(true), k)
  {
    if k < n - 1 { InitialAt(rs, n - 1, k); }
  }

  lemma {:induction false} CellHalves(rs: seq<Region>, n: nat, j: nat)
    requires Ordered(rs) && n <= |rs| && j < 2 * n
    ensures Initial(rs, n)[j] ==
            if j % 2 == 0 then Cell(rs[j / 2].lo, rs[j / 2].hi - rs[j / 2].lo, Kind.Free, j / 2) else Cell(rs[j / 2].hi, 0, End(true), j / 2)
  {
    InitialAt(rs, n, j / 2);
  }

  /** Right after initialisation the free blocks tile the regions and hold all their bytes. */
  lemma {:induction false} InitialSound(rs: seq<Region>, n: nat)
    requires Ordered(rs) && 0 < n <= |rs|
    ensures Tiled(Initial(rs, n), rs[..n]) && Coalesced(Initial(rs, n))
    ensures Initial(rs, n)[2 * n - 1] == Cell(rs[n - 1].hi, 0, End(true), n - 1)
    ensures FreeSum(Initial(rs, n)) == Capacity(rs, n)
  {
    var cs := Initial(rs, n);
    hide Initial, Capacity, FreeSum;
    OrderedPrefix(rs, n);
    forall j | 0 <= j < |cs| ensures CellOk(cs[j], rs[..n]) { CellHalves(rs, n, j); }
    forall j | 0 <= j < |cs| - 1 ensures Step(cs, j, rs[..n]) && !Touching(cs, j) {
      CellHalves(rs, n, j);
      CellHalves(rs, n, j + 1);
    }
    InitialAt(rs, n, 0);
    InitialAt(rs, n, n - 1);
    InitialSum(rs, n);
  }

  lemma {:induction false} OrderedPrefix(rs: seq<Region>, n: nat)
    requires Ordered(rs) && 0 < n <= |rs|
    ensures Ordered(rs[..n])
  {
    forall i | 1 <= i < n ensures Apart(rs[..n], i) { assert Apart(rs, i); }
  }

  lemma {:induction false} PairListing(f: Cell, e: Cell)
    requires f.kind.Free? && e.kind == End(true)
    ensures Listing([f, e]) == [f.addr, e.addr] && FreeSum([f, e]) == f.size
  {
    var p := [f, e];
    assert p[1..] == [e] && [e][1..] == [];
    assert Listing([e]) == [e.addr] + Listing([e][1..]) && FreeSum([e]) == FreeSum([e][1..]);
  }

  lemma {:induction false} InitialSum(rs: seq<Region>, n: nat)
    requires Ordered(rs) && n <= |rs|
    ensures FreeSum(Initial(rs, n)) == Capacity(rs, n)
  {
    if n > 0 {
      InitialSum(rs, n - 1);
      var f, e := Cell(rs[n - 1].lo, rs[n - 1].hi - rs[n - 1].lo, Kind.Free, n - 1), Cell(rs[n - 1].hi, 0, End(true), n - 1);
      Concat(Initial(rs, n - 1), [f, e]);
      PairListing(f, e);
    }
  }

  /** The headers written for region d, linked behind the region before it. */
  function Defined(mem: Memory, rs: seq<Region>, d: nat): Memory
    requires d < |rs| && rs[d].lo <= rs[d].hi && (d > 0 ==> rs[d - 1].hi in mem)
  {
    var r := rs[d];
    var m := (if d == 0 then mem[XSTART := Header(r.lo, 0)] else mem)[r.hi := Header(0, 0)][r.lo := Header(r.hi, r.hi - r.lo)];
    if d == 0 then m else m[rs[d - 1].hi := m[rs[d - 1].hi].(next := r.lo)]
  }

  lemma {:induction false} DefineFirst(mem: Memory, rs: seq<Region>)
    requires Ordered(rs)
    ensures Represents(Defined(mem, rs, 0), Initial(rs, 1), {})
  {
    var cs := Initial(rs, 1);
    InitialAt(rs, 1, 0);
    assert cs == [cs[0], cs[1]];
    PairListing(cs[0], cs[1]);
  }

  /** The cells of the first d regions end with that region's end marker, below the next region. */
  lemma {:induction false} InitialList(rs: seq<Region>, d: nat)
    requires Ordered(rs) && 0 < d < |rs|
    ensures var l, cs := Listing(Initial(rs, d)), Initial(rs, d);
            && |l| > 0 && l[|l| - 1] == rs[d - 1].hi
            && (forall k {:trigger l[k]} | 0 <= k < |l| :: ALIGNMENT <= l[k] < rs[d].lo)
            && (forall k {:trigger l[k]} | 0 <= k < |l| - 1 :: l[k] < rs[d - 1].hi)
            && (forall j {:trigger cs[j]} | 0 <= j < |cs| :: ALIGNMENT <= cs[j].addr < rs[d].lo)
    ensures Listing(Initial(rs, d + 1)) == Listing(Initial(rs, d)) + [rs[d].lo, rs[d].hi]
  {
    var cs, l := Initial(rs, d), Listing(Initial(rs, d));
    InitialSound(rs, d);
    LastListed(cs, rs[..d]);
    assert Apart(rs, d);
    AddrBound(cs, rs[..d]);
    forall j | 0 <= j < |cs| ensures ALIGNMENT <= cs[j].addr < rs[d].lo {
      if j < |cs| - 1 { Increasing(cs, rs[..d], j, |cs| - 1); }
    }
    ListingBounds(cs, ALIGNMENT, rs[d].lo);
    forall k | 0 <= k < |l| - 1 ensures l[k] < rs[d - 1].hi { ListAscends(cs, rs[..d], k, |l| - 1); }
    var f, e := Cell(rs[d].lo, rs[d].hi - rs[d].lo, Kind.Free, d), Cell(rs[d].hi, 0, End(true), d);
    Concat(cs, [f, e]);
    PairListing(f, e);
  }

  lemma {:induction false} DefineNext(mem: Memory, rs: seq<Region>, d: nat)
    requires Ordered(rs) && 0 < d < |rs| && Represents(mem, Initial(rs, d), {}) && rs[d - 1].hi in mem
    ensures Represents(Defined(mem, rs, d), Initial(rs, d + 1), {})
  {
    hide Linked, Sized, Tiled, Listing;
    var cs, ds, mem' := Initial(rs, d), Initial(rs, d + 1), Defined(mem, rs, d);
    InitialList(rs, d);
    DefineLinks(mem, rs, d);
    DefineSizes(mem, rs, d);
    forall j | 0 <= j < |ds| ensures !ds[j].kind.Used? { CellHalves(rs, d + 1, j); }
  }

  lemma {:induction false} DefineLinks(mem: Memory, rs: seq<Region>, d: nat)
    requires Ordered(rs) && 0 < d < |rs| && Linked(mem, Path(Initial(rs, d))) && rs[d - 1].hi in mem
    ensures Linked(Defined(mem, rs, d), Path(Initial(rs, d + 1)))
  {
    hide Listing, Initial;
    InitialList(rs, d);
    var a, b, mem' := [XSTART] + Listing(Initial(rs, d)), [rs[d].lo, rs[d].hi, 0], Defined(mem, rs, d);
    LinkApart(mem, a, [0]);
    LinkFrame(mem, mem', a);
    LinkTogether(mem', a, b);
    assert Path(Initial(rs, d + 1)) == a + b;
  }

  lemma {:induction false} DefineSizes(mem: Memory, rs: seq<Region>, d: nat)
    requires Ordered(rs) && 0 < d < |rs| && Sized(mem, Initial(rs, d)) && rs[d - 1].hi in mem
    ensures Sized(Defined(mem, rs, d), Initial(rs, d + 1))
  {
    hide Listing;
    InitialList(rs, d);
  }

  lemma {:induction false} RegionsAt(raw: seq<Raw>, d: nat)
    requires d <= Count(raw) < |raw|
    requires forall i {:trigger raw[i]} | 0 <= i < Count(raw) :: raw[i].size >= STRUCT_SIZE
    requires Ordered(Regions(raw[..Count(raw)]))
    ensures raw[d].size > 0 <==> d < Count(raw)
    ensures d < Count(raw) ==> var r := RegionOf(raw[d]); Regions(raw[..Count(raw)])[d] == r && r.lo < r.hi
  {
    if d < Count(raw) { assert raw[..Count(raw)][d] == raw[d]; }
  }

  lemma {:induction false} DefineStep(mem: Memory, rs: seq<Region>, d: nat)
    requires Ordered(rs) && d < |rs| && (d > 0 ==> Represents(mem, Initial(rs, d), {}) && rs[d - 1].hi in mem)
    ensures rs[d].lo < rs[d].hi && rs[d].hi > 0
    ensures Represents(Defined(mem, rs, d), Initial(rs, d + 1), {}) && rs[d].hi in Defined(mem, rs, d)
    ensures Capacity(rs, d + 1) == Capacity(rs, d) + rs[d].hi - rs[d].lo
  {
    hide Represents;
    if d == 0 { DefineFirst(mem, rs); } else { DefineNext(mem, rs, d); }
  }

  /** What initialisation leaves behind. */
  predicate StartState(s: State, rs: seq<Region>) {
    && Ordered(rs) && s.cs == Initial(rs, |rs|) && s.rs == rs && Represents(s.mem, s.cs, {}) && s.pxEnd == rs[|rs| - 1].hi
    && s.free == Capacity(rs, |rs|) && s.least == s.free && s.history == [s.free]
  }

  lemma {:induction false} StartConsistent(s: State, rs: seq<Region>)
    requires StartState(s, rs)
    ensures Consistent(s)
  {
    InitialSound(rs, |rs|);
    assert rs[..|rs|] == rs;
    assert s.history[0] == s.least;
  }

  lemma {:induction false} StartIs(s: State, rs: seq<Region>)
    requires Ordered(rs) && s.cs == Initial(rs, |rs|) && s.rs == rs && Represents(s.mem, Initial(rs, |rs|), {}) && s.pxEnd == rs[|rs| - 1].hi
    requires s.free == Capacity(rs, |rs|) && s.least == s.free && s.history == [s.free]
    ensures StartState(s, rs)
  {
    hide Ordered, Represents, Initial, Capacity;
  }

  lemma {:induction false} RegionFacts(rs: seq<Region>)
    requires Ordered(rs)
    ensures Capacity(rs, 0) == 0 && forall i {:trigger rs[i]} | 0 <= i < |rs| :: rs[i].lo <= rs[i].hi
  {
  }
}
