/** The managed memory of heap_4 and heap_5 as a value: the blocks and end markers of all
    regions in address order, and what cutting, merging and inserting blocks do to them. */
module HeapTheory {
  const ALIGNMENT: nat := 8
  const STRUCT_SIZE: nat := 8
  const MINIMUM_BLOCK: nat := 16
  const ALLOCATED_BIT: nat := 0x8000_0000
  const WORD: nat := 0x1_0000_0000

  predicate Aligned(n: nat) { n % 8 == 0 }

  /** Usable memory from lo up to the end marker at hi. */
  datatype Region = Region(lo: nat, hi: nat)

  /** A region's end marker may sit in the free list or have been absorbed by the block before it. */
  datatype Kind = Free | Used | End(listed: bool)

  /** One block, header included, or one end marker of size zero. */
  datatype Cell = Cell(addr: nat, size: nat, kind: Kind, region: nat)

  /** Aligned regions in address order, each with room for a block, short enough for the
      allocated bit to be free, with an end marker between any two. */
  predicate Ordered(rs: seq<Region>) {
    && |rs| > 0
    && (forall i {:trigger rs[i]} | 0 <= i < |rs| ::
          && ALIGNMENT <= rs[i].lo < rs[i].hi < rs[i].lo + ALLOCATED_BIT
          && Aligned(rs[i].lo) && Aligned(rs[i].hi) && rs[i].hi + STRUCT_SIZE <= WORD)
    && (forall i {:trigger Apart(rs, i)} | 1 <= i < |rs| :: Apart(rs, i))
  }

  predicate Apart(rs: seq<Region>, i: nat)
    requires 1 <= i < |rs|
  {
    rs[i - 1].hi + STRUCT_SIZE <= rs[i].lo
  }

  predicate CellOk(c: Cell, rs: seq<Region>) {
    && c.region < |rs| && rs[c.region].lo <= c.addr && Aligned(c.addr) && Aligned(c.size)
    && c.addr + c.size <= rs[c.region].hi
    && if c.kind.End? then c.size == 0 && c.addr == rs[c.region].hi else c.size > 0
  }

  /** d is right behind c, in c's region or at the start of the next one. */
  predicate Follows(c: Cell, d: Cell, rs: seq<Region>) {
    if c.kind.End? then d.region == c.region + 1 && d.region < |rs| && d.addr == rs[d.region].lo
    else d.region == c.region && d.addr == c.addr + c.size
  }

  predicate Step(cs: seq<Cell>, i: nat, rs: seq<Region>)
    requires i < |cs| - 1
  {
    Follows(cs[i], cs[i + 1], rs)
  }

  /** The cells tile the regions without gap or overlap; the last one is the end of the list. */
  predicate Tiled(cs: seq<Cell>, rs: seq<Region>) {
    && Ordered(rs) && |cs| > 0
    && (forall i {:trigger cs[i]} | 0 <= i < |cs| :: CellOk(cs[i], rs))
    && (forall i {:trigger Step(cs, i, rs)} | 0 <= i < |cs| - 1 :: Step(cs, i, rs))
    && cs[0].region == 0 && cs[0].addr == rs[0].lo
    && cs[|cs| - 1].region == |rs| - 1 && cs[|cs| - 1].kind == End(true)
  }

  /** No two free blocks touch. */
  predicate Coalesced(cs: seq<Cell>) {
    forall i {:trigger Touching(cs, i)} | 0 <= i < |cs| - 1 :: !Touching(cs, i)
  }

  predicate Touching(cs: seq<Cell>, i: nat)
    requires i < |cs| - 1
  {
    cs[i].kind.Free? && cs[i + 1].kind.Free?
  }

  /** Cells lie in strictly ascending order without overlap. */
  lemma {:induction false} Increasing(cs: seq<Cell>, rs: seq<Region>, i: nat, j: nat)
    requires Tiled(cs, rs) && i < j < |cs|
    ensures cs[i].addr < cs[j].addr && cs[i].addr + cs[i].size <= cs[j].addr && cs[i].region <= cs[j].region
    decreases j - i
  {
    if j > i + 1 { Increasing(cs, rs, i + 1, j); }
    assert Step(cs, i, rs) && CellOk(cs[i], rs) && CellOk(cs[i + 1], rs);
    assert cs[i].kind.End? ==> Apart(rs, cs[i + 1].region);
  }

  /** Every byte of every region belongs to exactly one block. */
  lemma {:induction false} Covered(cs: seq<Cell>, rs: seq<Region>, r: nat, p: nat) returns (k: nat)
    requires Tiled(cs, rs) && r < |rs| && rs[r].lo <= p < rs[r].hi
    ensures k < |cs| && cs[k].region == r && cs[k].addr <= p < cs[k].addr + cs[k].size
    ensures forall j {:trigger cs[j]} | 0 <= j < |cs| && cs[j].addr <= p < cs[j].addr + cs[j].size :: j == k
  {
    k := 0;
    assert cs[0].region < r || (cs[0].region == r && cs[0].addr <= p);
    while !(cs[k].region == r && p < cs[k].addr + cs[k].size)
      invariant k < |cs| && (cs[k].region < r || (cs[k].region == r && cs[k].addr <= p))
      decreases |cs| - k
    {
      CoveredStep(cs, rs, r, p, k);
      k := k + 1;
    }
    forall j | 0 <= j < |cs| && cs[j].addr <= p < cs[j].addr + cs[j].size ensures j == k {
      if j < k { Increasing(cs, rs, j, k); } else if j > k { Increasing(cs, rs, k, j); }
    }
  }

  lemma {:induction false} CoveredStep(cs: seq<Cell>, rs: seq<Region>, r: nat, p: nat, k: nat)
    requires Tiled(cs, rs) && r < |rs| && rs[r].lo <= p < rs[r].hi && k < |cs|
    requires cs[k].region < r || (cs[k].region == r && cs[k].addr + cs[k].size <= p)
    ensures k + 1 < |cs| && (cs[k + 1].region < r || (cs[k + 1].region == r && cs[k + 1].addr <= p))
  {
    assert CellOk(cs[k], rs);
    if k + 1 < |cs| { assert Step(cs, k, rs); }
  }

  // ---------------------------------------------------------------- the free list and the free bytes

  predicate IsListed(c: Cell) { c.kind.Free? || c.kind == End(true) }

  /** The free list: the addresses of the free blocks and of the end markers not absorbed, in order. */
  function Listing(cs: seq<Cell>): seq<nat> {
    if |cs| == 0 then [] else (if IsListed(cs[0]) then [cs[0].addr] else []) + Listing(cs[1..])
  }

  /** Bytes in free blocks. */
  function FreeSum(cs: seq<Cell>): nat {
    if |cs| == 0 then 0 else (if cs[0].kind.Free? then cs[0].size else 0) + FreeSum(cs[1..])
  }

  lemma {:induction false} Concat(a: seq<Cell>, b: seq<Cell>)
    ensures Listing(a + b) == Listing(a) + Listing(b)
    ensures FreeSum(a + b) == FreeSum(a) + FreeSum(b)
  {
    hide Listing, FreeSum;
    if |a| == 0 {
      assert a + b == b;
      CountFirst(a);
    } else {
      Concat(a[1..], b);
      assert (a + b)[1..] == a[1..] + b;
      CountFirst(a);
      CountFirst(a + b);
      var first := if IsListed(a[0]) then [a[0].addr] else [];
      assert first + (Listing(a[1..]) + Listing(b)) == first + Listing(a[1..]) + Listing(b);
    }
  }

  lemma {:induction false} CountFirst(cs: seq<Cell>)
    ensures |cs| == 0 ==> Listing(cs) == [] && FreeSum(cs) == 0
    ensures |cs| > 0 ==> Listing(cs) == (if IsListed(cs[0]) then [cs[0].addr] else []) + Listing(cs[1..])
    ensures |cs| > 0 ==> FreeSum(cs) == (if cs[0].kind.Free? then cs[0].size else 0) + FreeSum(cs[1..])
  {
  }

  /** The k-th entry of the list belongs to one cell, with the entries before it in the cells before that. */
  lemma {:induction false} Locate(cs: seq<Cell>, k: nat) returns (i: nat)
    requires k < |Listing(cs)|
    ensures i < |cs| && IsListed(cs[i]) && cs[i].addr == Listing(cs)[k]
    ensures Listing(cs[..i]) == Listing(cs)[..k]
  {
    if IsListed(cs[0]) && k == 0 {
      i := 0;
      assert cs[..0] == [];
    } else {
      var m := if IsListed(cs[0]) then 1 else 0;
      var j := Locate(cs[1..], k - m);
      i := j + 1;
      assert cs[..i] == [cs[0]] + cs[1..][..j];
      Concat([cs[0]], cs[1..][..j]);
      assert Listing([cs[0]]) == (if IsListed(cs[0]) then [cs[0].addr] else []) + Listing([]);
      assert Listing(cs)[..k] == Listing([cs[0]]) + Listing(cs[1..])[..k - m];
    }
  }

  /** A listed cell's address stands in the list behind those of the listed cells before it. */
  lemma {:induction false} ListingAt(cs: seq<Cell>, i: nat)
    requires i < |cs|
    ensures Listing(cs) == Listing(cs[..i]) + (if IsListed(cs[i]) then [cs[i].addr] else []) + Listing(cs[i + 1..])
    ensures FreeSum(cs) == FreeSum(cs[..i]) + (if cs[i].kind.Free? then cs[i].size else 0) + FreeSum(cs[i + 1..])
  {
    assert cs == cs[..i] + cs[i..] && cs[i..][1..] == cs[i + 1..];
    Concat(cs[..i], cs[i..]);
  }

  /** Entries of the list lie below or above any address the cells do. */
  lemma {:induction false} ListingBounds(cs: seq<Cell>, lo: nat, hi: nat)
    requires forall i {:trigger cs[i]} | 0 <= i < |cs| :: lo <= cs[i].addr < hi
    ensures forall k {:trigger Listing(cs)[k]} | 0 <= k < |Listing(cs)| :: lo <= Listing(cs)[k] < hi
  {
    forall k | 0 <= k < |Listing(cs)| ensures lo <= Listing(cs)[k] < hi {
      var i := Locate(cs, k);
    }
  }

  /** The list is in strictly ascending address order. */
  lemma {:induction false} ListAscends(cs: seq<Cell>, rs: seq<Region>, k: nat, l: nat)
    requires Tiled(cs, rs) && k < l < |Listing(cs)|
    ensures Listing(cs)[k] < Listing(cs)[l]
  {
    var j := Locate(cs, l);
    assert Listing(cs[..j])[k] == Listing(cs)[k];
    var i := Locate(cs[..j], k);
    Increasing(cs, rs, i, j);
  }

  // ---------------------------------------------------------------- cutting and merging

  /** Cells a..b replaced by cells that cover the same memory. */
  lemma {:induction false} Replaced(cs: seq<Cell>, rs: seq<Region>, a: nat, b: nat, m: seq<Cell>)
    requires Tiled(cs, rs) && a < b <= |cs| && |m| > 0
    requires forall j {:trigger m[j]} | 0 <= j < |m| :: CellOk(m[j], rs)
    requires forall j {:trigger Step(m, j, rs)} | 0 <= j < |m| - 1 :: Step(m, j, rs)
    requires m[0].addr == cs[a].addr && m[0].region == cs[a].region
    requires forall d {:trigger Follows(m[|m| - 1], d, rs)} :: Follows(cs[b - 1], d, rs) ==> Follows(m[|m| - 1], d, rs)
    requires b == |cs| ==> m[|m| - 1].kind == End(true) && m[|m| - 1].region == |rs| - 1
    ensures Tiled(cs[..a] + m + cs[b..], rs)
  {
    var ds := cs[..a] + m + cs[b..];
    var s := |m| - (b - a);
    forall j | 0 <= j < |ds| ensures CellOk(ds[j], rs) {
      if j < a { assert CellOk(cs[j], rs); } else if j >= a + |m| { assert ds[j] == cs[j - s] && CellOk(cs[j - s], rs); }
    }
    forall j | 0 <= j < |ds| - 1 ensures Step(ds, j, rs) {
      hide CellOk;
      if j < a { assert Step(cs, j, rs); }
      else if j < a + |m| - 1 { assert Step(m, j - a, rs) && ds[j] == m[j - a] && ds[j + 1] == m[j - a + 1]; }
      else if j == a + |m| - 1 { assert Step(cs, b - 1, rs) && Follows(m[|m| - 1], cs[b], rs) && ds[j + 1] == cs[b]; }
      else { assert ds[j + 1] == cs[j - s + 1] && Step(cs, j - s, rs); }
    }
  }

  /** Cell i with another kind. */
  function As(cs: seq<Cell>, i: nat, kind: Kind): seq<Cell>
    requires i < |cs|
  {
    cs[i := cs[i].(kind := kind)]
  }

  lemma {:induction false} AsTiled(cs: seq<Cell>, rs: seq<Region>, i: nat, kind: Kind)
    requires Tiled(cs, rs) && i < |cs| && cs[i].kind.End? == kind.End? && (i == |cs| - 1 ==> kind == End(true))
    ensures Tiled(As(cs, i, kind), rs)
  {
    var ds := As(cs, i, kind);
    forall j | 0 <= j < |ds| ensures CellOk(ds[j], rs) { assert CellOk(cs[j], rs); }
    forall j | 0 <= j < |ds| - 1 ensures Step(ds, j, rs) { assert Step(cs, j, rs); }
  }

  /** Block i cut in two, the first part w bytes. */
  function Cut(cs: seq<Cell>, i: nat, w: nat): seq<Cell>
    requires i < |cs| && w <= cs[i].size
  {
    cs[..i] + [cs[i].(size := w), cs[i].(addr := cs[i].addr + w, size := cs[i].size - w)] + cs[i + 1..]
  }

  lemma {:induction false} CutTiled(cs: seq<Cell>, rs: seq<Region>, i: nat, w: nat)
    requires Tiled(cs, rs) && i < |cs| && 0 < w < cs[i].size && Aligned(w)
    ensures Tiled(Cut(cs, i, w), rs)
  {
    hide Ordered, CellOk, Aligned, Follows;
    var m := [cs[i].(size := w), cs[i].(addr := cs[i].addr + w, size := cs[i].size - w)];
    assert CellOk(cs[i], rs);
    CutCell(cs[i], rs, w);
    Replaced(cs, rs, i, i + 1, m);
  }

  /** Both halves of a cell are cells. */
  lemma {:induction false} CutCell(c: Cell, rs: seq<Region>, w: nat)
    requires CellOk(c, rs) && 0 < w < c.size && Aligned(w)
    ensures var p, q := c.(size := w), c.(addr := c.addr + w, size := c.size - w); CellOk(p, rs) && CellOk(q, rs) && Follows(p, q, rs)
    ensures !c.kind.End? && forall d {:trigger Follows(c.(addr := c.addr + w, size := c.size - w), d, rs)} :: Follows(c, d, rs) ==> Follows(c.(addr := c.addr + w, size := c.size - w), d, rs)
  {
  }

  /** Blocks i and i + 1 merged into one. */
  function Join(cs: seq<Cell>, i: nat): seq<Cell>
    requires i + 1 < |cs|
  {
    cs[..i] + [cs[i].(size := cs[i].size + cs[i + 1].size)] + cs[i + 2..]
  }

  lemma {:induction false} JoinTiled(cs: seq<Cell>, rs: seq<Region>, i: nat)
    requires Tiled(cs, rs) && i + 1 < |cs| && !cs[i].kind.End? && !cs[i + 1].kind.End?
    ensures Tiled(Join(cs, i), rs) && cs[i].region == cs[i + 1].region
  {
    assert CellOk(cs[i], rs) && CellOk(cs[i + 1], rs) && Step(cs, i, rs);
    var m := [cs[i].(size := cs[i].size + cs[i + 1].size)];
    assert CellOk(m[0], rs);
    Replaced(cs, rs, i, i + 2, m);
  }

  /** Free block i merged with what follows it: a free block, or an end marker in the list other than the last. */
  function MergeRight(cs: seq<Cell>, i: nat): seq<Cell>
    requires i < |cs|
  {
    if i + 1 < |cs| && cs[i + 1].kind.Free? then Join(cs, i)
    else if i + 2 < |cs| && cs[i + 1].kind == End(true) then As(cs, i + 1, End(false))
    else cs
  }

  /** Free block i merged with a free block before it. */
  function MergeLeft(cs: seq<Cell>, i: nat): seq<Cell>
    requires i < |cs|
  {
    if i > 0 && cs[i - 1].kind.Free? then Join(cs, i - 1) else cs
  }

  /** Block i turned free and merged with its neighbours. */
  function Inserted(cs: seq<Cell>, i: nat): seq<Cell>
    requires i < |cs|
  {
    MergeLeft(MergeRight(As(cs, i, Free), i), i)
  }

  lemma {:induction false} MergeRightKeeps(cs: seq<Cell>, rs: seq<Region>, i: nat)
    requires Tiled(cs, rs) && i < |cs| && cs[i].kind.Free?
    ensures var m := MergeRight(cs, i); i < |m| && Tiled(m, rs) && m[..i] == cs[..i] && m[i].kind.Free?
    ensures FreeSum(MergeRight(cs, i)) == FreeSum(cs)
  {
    hide Tiled, FreeSum, As;
    if i + 1 < |cs| && cs[i + 1].kind.Free? {
      JoinTiled(cs, rs, i);
      JoinFree(cs, i);
    } else if i + 2 < |cs| && cs[i + 1].kind == End(true) {
      AsTiled(cs, rs, i + 1, End(false));
      AsParts(cs, i + 1, End(false));
      EndFree(cs, i + 1);
      assert As(cs, i + 1, End(false))[..i] == As(cs, i + 1, End(false))[..i + 1][..i] == cs[..i];
      assert As(cs, i + 1, End(false))[i] == As(cs, i + 1, End(false))[..i + 1][i];
    }
  }

  /** An absorbed end marker holds no free byte. */
  lemma {:induction false} EndFree(cs: seq<Cell>, k: nat)
    requires k < |cs| && cs[k].kind.End?
    ensures FreeSum(As(cs, k, End(false))) == FreeSum(cs)
  {
    hide FreeSum, Listing, As;
    AsParts(cs, k, End(false));
    ListingAt(cs, k);
    ListingAt(As(cs, k, End(false)), k);
  }

  lemma {:induction false} JoinFree(cs: seq<Cell>, i: nat)
    requires i + 1 < |cs| && cs[i].kind.Free? && cs[i + 1].kind.Free?
    ensures FreeSum(Join(cs, i)) == FreeSum(cs)
  {
    hide Listing;
    ListingAt(cs, i);
    assert cs[i + 1..][1..] == cs[i + 2..];
    ListingAt(Join(cs, i), i);
    assert Join(cs, i)[..i] == cs[..i] && Join(cs, i)[i + 1..] == cs[i + 2..];
  }

  lemma {:induction false} MergeLeftKeeps(cs: seq<Cell>, rs: seq<Region>, i: nat)
    requires Tiled(cs, rs) && i < |cs| && cs[i].kind.Free?
    ensures Tiled(MergeLeft(cs, i), rs)
    ensures FreeSum(MergeLeft(cs, i)) == FreeSum(cs)
  {
    hide Tiled, FreeSum;
    if i > 0 && cs[i - 1].kind.Free? {
      JoinTiled(cs, rs, i - 1);
      JoinFree(cs, i - 1);
    }
  }

  /** Inserting a block keeps the tiling and adds exactly its size to the free bytes. */
  lemma {:induction false} InsertedKeeps(cs: seq<Cell>, rs: seq<Region>, i: nat)
    requires Tiled(cs, rs) && i < |cs| && cs[i].kind.Used?
    ensures Tiled(Inserted(cs, i), rs)
    ensures FreeSum(Inserted(cs, i)) == FreeSum(cs) + cs[i].size
  {
    var a := As(cs, i, Free);
    assert i < |cs| - 1 by { assert cs[|cs| - 1].kind == End(true); }
    AsTiled(cs, rs, i, Free);
    hide Tiled, MergeRight, MergeLeft, FreeSum, Listing;
    ListingAt(cs, i);
    ListingAt(a, i);
    assert a[..i] == cs[..i] && a[i + 1..] == cs[i + 1..];
    MergeRightKeeps(a, rs, i);
    MergeLeftKeeps(MergeRight(a, i), rs, i);
  }

  /** Inserting a block leaves no two free blocks touching. */
  lemma {:induction false} InsertedCoalesced(cs: seq<Cell>, i: nat)
    requires Coalesced(cs) && i < |cs| && cs[i].kind.Used?
    ensures Coalesced(Inserted(cs, i))
  {
    var m := MergeRight(As(cs, i, Free), i);
    RightApart(cs, i);
    hide As, MergeRight;
    LeftApart(m, i);
  }

  /** After merging with the block behind, only the block before may touch. */
  lemma {:induction false} RightApart(cs: seq<Cell>, i: nat)
    requires Coalesced(cs) && i < |cs| && cs[i].kind.Used?
    ensures var m := MergeRight(As(cs, i, Free), i);
            i < |m| && m[i].kind.Free? && forall j {:trigger Touching(m, j)} | 0 <= j < |m| - 1 && j != i - 1 :: !Touching(m, j)
  {
    var m := MergeRight(As(cs, i, Free), i);
    var s := |cs| - |m|;
    forall j | 0 <= j < |m| - 1 && j != i - 1 ensures !Touching(m, j) {
      if j < i { assert !Touching(cs, j); }
      else if j + s + 1 < |cs| { assert !Touching(cs, j + s); assert m[j + 1].kind.Free? ==> cs[j + s + 1].kind.Free?; }
    }
  }

  lemma {:induction false} LeftApart(m: seq<Cell>, i: nat)
    requires i < |m| && m[i].kind.Free? && forall j {:trigger Touching(m, j)} | 0 <= j < |m| - 1 && j != i - 1 :: !Touching(m, j)
    ensures Coalesced(MergeLeft(m, i))
  {
    var n := MergeLeft(m, i);
    var t := |m| - |n|;
    forall j | 0 <= j < |n| - 1 ensures !Touching(n, j) {
      if t == 0 {
        assert j != i - 1 ==> !Touching(m, j);
      } else {
        if j < i - 1 { assert !Touching(m, j) && n[j] == m[j] && (n[j + 1].kind == m[j + 1].kind); }
        else { assert !Touching(m, j + 1) && n[j + 1] == m[j + 2] && (n[j].kind.Free? ==> m[j + 1].kind.Free?); }
      }
    }
  }

  lemma {:induction false} MergeRightListing(cs: seq<Cell>, i: nat)
    requires i + 1 < |cs| && cs[i].kind.Free?
    ensures var m, after := MergeRight(cs, i), Listing(cs[i + 1..]);
            && i < |m| && m[..i] == cs[..i] && m[i].kind.Free? && m[i].addr == cs[i].addr
            && (IsListed(cs[i + 1]) ==> |after| > 0)
            && Listing(m[i + 1..]) == if Absorbs(cs, i) then after[1..] else after
  {
    var m := MergeRight(cs, i);
    assert cs[i + 1..][1..] == cs[i + 2..];
    if cs[i + 1].kind.Free? { assert m[i + 1..] == cs[i + 2..]; }
    else if i + 2 < |cs| && cs[i + 1].kind == End(true) { assert m[i + 1..] == [cs[i + 1].(kind := End(false))] + cs[i + 2..]; }
    else { assert m[i + 1..] == cs[i + 1..]; }
  }

  lemma {:induction false} MergeLeftListing(cs: seq<Cell>, i: nat)
    requires i < |cs| && cs[i].kind.Free?
    ensures Listing(MergeLeft(cs, i)) ==
            Listing(cs[..i]) + (if i > 0 && cs[i - 1].kind.Free? then [] else [cs[i].addr]) + Listing(cs[i + 1..])
  {
    hide Listing, FreeSum;
    ListingAt(cs, i);
    if i > 0 && cs[i - 1].kind.Free? {
      var n := Join(cs, i - 1);
      ListingAt(n, i - 1);
      assert n[..i - 1] == cs[..i - 1] && n[i..] == cs[i + 1..];
      ListingAt(cs[..i], i - 1);
      assert cs[..i][..i - 1] == cs[..i - 1] && cs[..i][i..] == [];
      assert Listing([]) == [] by { NoListing(); }
    }
  }

  lemma {:induction false} NoListing()
    ensures Listing([]) == [] && FreeSum([]) == 0
  {
  }

  /** The cell behind block i is in the list and leaves it when block i is freed. */
  predicate Absorbs(cs: seq<Cell>, i: nat)
    requires i + 1 < |cs|
  {
    cs[i + 1].kind.Free? || (i + 2 < |cs| && cs[i + 1].kind == End(true))
  }

  /** The free list after an insertion: the block's address goes between the addresses below and
      above it, unless it grew the block before it, and the address it absorbed disappears. */
  lemma {:induction false} InsertedListing(cs: seq<Cell>, i: nat)
    requires i + 1 < |cs| && cs[i].kind.Used?
    ensures var before, after := Listing(cs[..i]), Listing(cs[i + 1..]);
            && Listing(cs) == before + after
            && (IsListed(cs[i + 1]) ==> |after| > 0)
            && Listing(Inserted(cs, i)) == before + (if i > 0 && cs[i - 1].kind.Free? then [] else [cs[i].addr])
                + (if Absorbs(cs, i) then after[1..] else after)
  {
    hide Listing, FreeSum, MergeRight, MergeLeft;
    var a := As(cs, i, Free);
    ListingAt(cs, i);
    assert a[..i] == cs[..i] && a[i + 1..] == cs[i + 1..];
    MergeRightListing(a, i);
    var m := MergeRight(a, i);
    MergeLeftListing(m, i);
    assert i > 0 ==> m[..i][i - 1] == cs[..i][i - 1];
  }

  /** The cell an insertion of block i leaves in its place. */
  function Merged(cs: seq<Cell>, i: nat): Cell
    requires i + 1 < |cs|
  {
    var right := if cs[i + 1].kind.Free? then cs[i].size + cs[i + 1].size else cs[i].size;
    if i > 0 && cs[i - 1].kind.Free? then cs[i - 1].(size := cs[i - 1].size + right) else cs[i].(kind := Free, size := right)
  }

  /** The cells behind the inserted block. */
  function Rest(cs: seq<Cell>, i: nat): seq<Cell>
    requires i + 1 < |cs|
  {
    if cs[i + 1].kind.Free? then cs[i + 2..] else if Absorbs(cs, i) then [cs[i + 1].(kind := End(false))] + cs[i + 2..] else cs[i + 1..]
  }

  lemma {:induction false} InsertedShape(cs: seq<Cell>, i: nat)
    requires i + 1 < |cs| && cs[i].kind.Used?
    ensures Inserted(cs, i) == (if i > 0 && cs[i - 1].kind.Free? then cs[..i - 1] else cs[..i]) + [Merged(cs, i)] + Rest(cs, i)
  {
    hide MergeRight, MergeLeft, Rest;
    var a := As(cs, i, Free);
    var c := if cs[i + 1].kind.Free? then a[i].(size := cs[i].size + cs[i + 1].size) else a[i];
    RightShape(cs, i);
    LeftShape(cs[..i], c, Rest(cs, i));
    if i > 0 { assert cs[..i][..i - 1] == cs[..i - 1]; }
  }

  lemma {:induction false} LeftShape(p: seq<Cell>, c: Cell, r: seq<Cell>)
    ensures MergeLeft(p + [c] + r, |p|) ==
            if |p| > 0 && p[|p| - 1].kind.Free? then p[..|p| - 1] + [p[|p| - 1].(size := p[|p| - 1].size + c.size)] + r else p + [c] + r
  {
    var m := p + [c] + r;
    if |p| > 0 { assert m[..|p| - 1] == p[..|p| - 1] && m[|p| - 1] == p[|p| - 1] && m[|p|] == c && m[|p| + 1..] == r; }
  }

  lemma {:induction false} RightShape(cs: seq<Cell>, i: nat)
    requires i + 1 < |cs| && cs[i].kind.Used?
    ensures var a := As(cs, i, Free);
            i < |a| && MergeRight(a, i) == cs[..i] + [if cs[i + 1].kind.Free? then a[i].(size := cs[i].size + cs[i + 1].size) else a[i]] + Rest(cs, i)
  {
    hide As;
    var a := As(cs, i, Free);
    AsParts(cs, i, Free);
    if cs[i + 1].kind.Free? {
    } else if i + 2 < |cs| && cs[i + 1].kind == End(true) {
      AsParts(a, i + 1, End(false));
      assert a[..i + 1] == cs[..i] + [a[i]];
      assert cs[..i] + [a[i]] + [a[i + 1].(kind := End(false))] + a[i + 2..] == cs[..i] + [a[i]] + ([a[i + 1].(kind := End(false))] + a[i + 2..]);
    } else {
      assert a == a[..i] + [a[i]] + a[i + 1..];
    }
  }

  lemma {:induction false} AsParts(cs: seq<Cell>, i: nat, kind: Kind)
    requires i < |cs|
    ensures var a := As(cs, i, kind);
            && |a| == |cs| && a[..i] == cs[..i] && a[i] == cs[i].(kind := kind) && a[i + 1..] == cs[i + 1..]
            && a == cs[..i] + [cs[i].(kind := kind)] + cs[i + 1..]
            && (i + 1 < |cs| ==> a[i + 1] == cs[i + 1] && a[i + 2..] == cs[i + 2..])
  {
  }

  /** Apart from the merged block, an insertion leaves every cell in place; it only marks an absorbed end marker. */
  lemma {:induction false} InsertedCell(cs: seq<Cell>, i: nat, j: nat) returns (s: nat)
    requires i + 1 < |cs| && cs[i].kind.Used? && j < |Inserted(cs, i)|
    requires j != if i > 0 && cs[i - 1].kind.Free? then i - 1 else i
    ensures s < |cs| && s != i && (i > 0 && cs[i - 1].kind.Free? ==> s != i - 1) && (cs[i + 1].kind.Free? ==> s != i + 1)
    ensures Inserted(cs, i)[j] == cs[s] || (s == i + 1 && cs[s].kind == End(true) && Inserted(cs, i)[j] == cs[s].(kind := End(false)))
  {
    hide Inserted;
    InsertedShape(cs, i);
    var ds := Inserted(cs, i);
    var l := if i > 0 && cs[i - 1].kind.Free? then i - 1 else i;
    var rest := Rest(cs, i);
    s := if j < l then j else j + |cs| - |ds|;
    assert j > l ==> ds[j] == rest[j - l - 1];
  }
}
