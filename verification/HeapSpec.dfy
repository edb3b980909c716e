/** What pvPortMalloc and vPortFree do to the cells, and what holds over every run of them. */
module HeapSpec {
  import opened HeapTheory

  /** Bytes a request takes, header and alignment included; 0 for a request that is refused. */
  function Rounded(n: nat): nat {
    if n == 0 || n >= ALLOCATED_BIT then 0 else (n + STRUCT_SIZE + 7) / 8 * 8
  }

  predicate Fits(c: Cell, w: nat) { c.kind.Free? && c.size >= w }

  /** The lowest-addressed free block of at least w bytes, or |cs|. */
  function FirstFit(cs: seq<Cell>, w: nat): (i: nat)
    ensures i <= |cs|
    ensures forall j {:trigger cs[j]} | 0 <= j < i :: !Fits(cs[j], w)
    ensures i < |cs| ==> Fits(cs[i], w)
  {
    if |cs| == 0 || Fits(cs[0], w) then 0
    else
      assert forall j {:trigger cs[j]} | 1 <= j < |cs| :: cs[j] == cs[1..][j - 1];
      1 + FirstFit(cs[1..], w)
  }

  /** Free block i handed out for w bytes; more than a minimum block left over goes back to the list. */
  function Taken(cs: seq<Cell>, i: nat, w: nat): seq<Cell>
    requires i < |cs| && w <= cs[i].size
  {
    if cs[i].size - w > MINIMUM_BLOCK then Inserted(Cut(As(cs, i, Used), i, w), i + 1) else As(cs, i, Used)
  }

  /** The cells after a request of n bytes. */
  function Granted(cs: seq<Cell>, n: nat): seq<Cell> {
    var w := Rounded(n);
    var i := FirstFit(cs, w);
    if w == 0 || i == |cs| then cs else Taken(cs, i, w)
  }

  /** The address a request of n bytes gets, 0 when it fails. */
  function Pointer(cs: seq<Cell>, n: nat): nat {
    var w := Rounded(n);
    var i := FirstFit(cs, w);
    if w == 0 || i == |cs| then 0 else cs[i].addr + STRUCT_SIZE
  }

  /** Size of the block a taken block becomes. */
  function TakenSize(c: Cell, w: nat): nat { if c.size - w > MINIMUM_BLOCK then w else c.size }

  lemma {:induction false} RoundedIs(n: nat)
    ensures Aligned(Rounded(n))
    ensures Rounded(n) == 0 <==> n == 0 || n >= ALLOCATED_BIT
    ensures Rounded(n) != 0 ==> Rounded(n) - 8 < n + STRUCT_SIZE <= Rounded(n)
  {
  }

  // ---------------------------------------------------------------- what an allocation keeps

  lemma {:induction false} CutCoalesced(cs: seq<Cell>, i: nat, w: nat)
    requires Coalesced(cs) && i < |cs| && w <= cs[i].size && !cs[i].kind.Free?
    ensures Coalesced(Cut(cs, i, w)) && FreeSum(Cut(cs, i, w)) == FreeSum(cs)
  {
    var ds := Cut(cs, i, w);
    forall j | 0 <= j < |ds| - 1 ensures !Touching(ds, j) {
      if j < i { assert !Touching(cs, j); } else if j > i + 1 { assert !Touching(cs, j - 1); }
    }
    ListingAt(cs, i);
    ListingAt(ds, i);
    ListingAt(ds[i + 1..], 0);
    assert ds[i + 1..][1..] == cs[i + 1..] && ds[..i] == cs[..i] && ds[i + 1..][..0] == [];
  }

  lemma {:induction false} UsedKeeps(cs: seq<Cell>, rs: seq<Region>, i: nat)
    requires Tiled(cs, rs) && Coalesced(cs) && i < |cs| && cs[i].kind.Free?
    ensures var u := As(cs, i, Used); Tiled(u, rs) && Coalesced(u) && FreeSum(u) == FreeSum(cs) - cs[i].size && i < |cs| - 1
  {
    var u := As(cs, i, Used);
    AsTiled(cs, rs, i, Used);
    forall j | 0 <= j < |u| - 1 ensures !Touching(u, j) { assert !Touching(cs, j); }
    ListingAt(cs, i);
    ListingAt(u, i);
    assert u[..i] == cs[..i] && u[i + 1..] == cs[i + 1..];
  }

  /** An allocation keeps the tiling and the coalescing, takes exactly its block's size from the
      free bytes, and the block is where the free one was. */
  lemma {:induction false} TakenKeeps(cs: seq<Cell>, rs: seq<Region>, i: nat, w: nat)
    requires Tiled(cs, rs) && Coalesced(cs) && i < |cs| && Fits(cs[i], w) && w > 0 && Aligned(w)
    ensures var t := Taken(cs, i, w);
            && Tiled(t, rs) && Coalesced(t) && FreeSum(t) == FreeSum(cs) - TakenSize(cs[i], w)
            && i < |t| && t[i] == cs[i].(kind := Used, size := TakenSize(cs[i], w)) && t[..i] == cs[..i]
  {
    hide Tiled, Coalesced, FreeSum, Inserted;
    UsedKeeps(cs, rs, i);
    var u := As(cs, i, Used);
    if cs[i].size - w > MINIMUM_BLOCK {
      CutTiled(u, rs, i, w);
      CutCoalesced(u, i, w);
      var c := Cut(u, i, w);
      InsertedKeeps(c, rs, i + 1);
      InsertedCoalesced(c, i + 1);
      InsertedShape(c, i + 1) by { assert i + 2 < |c|; }
    }
  }

  /** A block that fits is part of the free bytes, so asking for no more than those loses nothing. */
  lemma {:induction false} FitBound(cs: seq<Cell>, w: nat)
    ensures FirstFit(cs, w) < |cs| ==> w <= FreeSum(cs)
  {
    var i := FirstFit(cs, w);
    if i < |cs| { ListingAt(cs, i); }
  }

  /** pvPortMalloc fails exactly when no free block is as large as the rounded request; otherwise it
      uses the lowest-addressed one that is, and the block holds the bytes asked for. */
  lemma {:induction false} MallocAnswer(cs: seq<Cell>, rs: seq<Region>, n: nat)
    requires Tiled(cs, rs) && Coalesced(cs)
    ensures Tiled(Granted(cs, n), rs) && Coalesced(Granted(cs, n))
    ensures Pointer(cs, n) == 0 <==> Rounded(n) == 0 || forall j {:trigger cs[j]} | 0 <= j < |cs| :: !Fits(cs[j], Rounded(n))
    ensures Pointer(cs, n) == 0 ==> Granted(cs, n) == cs
    ensures Pointer(cs, n) != 0 ==>
              var i, w := FirstFit(cs, Rounded(n)), Rounded(n);
              && i < |cs| && Pointer(cs, n) == cs[i].addr + STRUCT_SIZE && Aligned(Pointer(cs, n))
              && (forall j {:trigger cs[j]} | 0 <= j < i :: !Fits(cs[j], w))
              && i < |Granted(cs, n)| && Granted(cs, n)[i] == Cell(cs[i].addr, TakenSize(cs[i], w), Used, cs[i].region)
              && n + STRUCT_SIZE <= TakenSize(cs[i], w) <= w + MINIMUM_BLOCK
              && FreeSum(Granted(cs, n)) == FreeSum(cs) - TakenSize(cs[i], w)
  {
    hide Tiled, Coalesced, FreeSum, Taken, Rounded;
    RoundedIs(n);
    var i := FirstFit(cs, Rounded(n));
    if Rounded(n) != 0 && i < |cs| {
      TakenKeeps(cs, rs, i, Rounded(n));
      assert CellOk(cs[i], rs) by { CellAt(cs, rs, i); }
    }
  }

  lemma {:induction false} CellAt(cs: seq<Cell>, rs: seq<Region>, i: nat)
    requires Tiled(cs, rs) && i < |cs|
    ensures CellOk(cs[i], rs) && Ordered(rs)
  {
  }

  // ---------------------------------------------------------------- allocation and release undo each other

  /** The cells behind block i, an end marker right behind it absorbed. */
  function Tail(cs: seq<Cell>, i: nat): seq<Cell>
    requires i + 1 < |cs|
  {
    if i + 2 < |cs| && cs[i + 1].kind == End(true) then [cs[i + 1].(kind := End(false))] + cs[i + 2..] else cs[i + 1..]
  }

  lemma {:induction false} TakenSplit(cs: seq<Cell>, i: nat, w: nat)
    requires i + 1 < |cs| && Fits(cs[i], w) && cs[i].size - w > MINIMUM_BLOCK && !cs[i + 1].kind.Free?
    ensures Taken(cs, i, w) ==
            cs[..i] + [cs[i].(kind := Used, size := w), cs[i].(addr := cs[i].addr + w, size := cs[i].size - w)] + Tail(cs, i)
  {
    hide Inserted, Cut, Merged, Rest, Tail;
    var c := Cut(As(cs, i, Used), i, w);
    CutParts(cs, i, w);
    InsertedShape(c, i + 1);
    SplitTail(cs, i, w);
  }

  /** A free block split into a used and a free part. */
  lemma {:induction false} CutParts(cs: seq<Cell>, i: nat, w: nat)
    requires i + 1 < |cs| && w <= cs[i].size
    ensures var c := Cut(As(cs, i, Used), i, w);
            && |c| == |cs| + 1 && c[i].kind.Used? && c[i + 1] == cs[i].(kind := Used, addr := cs[i].addr + w, size := cs[i].size - w)
            && c[..i + 1] == cs[..i] + [cs[i].(kind := Used, size := w)] && c[i + 2..] == cs[i + 1..] && c[i + 2] == cs[i + 1]
            && (i + 2 < |cs| ==> c[i + 3..] == cs[i + 2..])
  {
  }

  lemma {:induction false} SplitTail(cs: seq<Cell>, i: nat, w: nat)
    requires i + 1 < |cs| && w <= cs[i].size && !cs[i + 1].kind.Free?
    ensures var c := Cut(As(cs, i, Used), i, w);
            && i + 2 < |c| && Rest(c, i + 1) == Tail(cs, i)
            && c[i].kind.Used? && Merged(c, i + 1) == cs[i].(kind := Free, addr := cs[i].addr + w, size := cs[i].size - w)
  {
    hide Cut;
    CutParts(cs, i, w);
    assert Cut(As(cs, i, Used), i, w)[i + 1..][1..] == cs[i + 1..];
  }

  /** A used block with free space or the tail behind it, freed. */
  lemma {:induction false} FreedWhole(cs: seq<Cell>, i: nat, w: nat)
    requires i + 1 < |cs| && Fits(cs[i], w) && !cs[i + 1].kind.Free? && (i > 0 ==> !cs[i - 1].kind.Free?)
    ensures i < |Taken(cs, i, w)| && Inserted(Taken(cs, i, w), i) == cs[..i] + [cs[i]] + Tail(cs, i)
  {
    var t := Taken(cs, i, w);
    if cs[i].size - w > MINIMUM_BLOCK {
      TakenSplit(cs, i, w);
      hide Taken, Inserted, Tail;
      InsertedShape(t, i) by { assert i + 1 < |t|; }
      assert t[i + 2..] == Tail(cs, i);
      assert t[..i] == cs[..i];
      assert Merged(t, i) == cs[i];
    } else {
      InsertedShape(t, i);
      hide Inserted;
      assert Merged(t, i) == cs[i];
    }
  }

  /** Freeing what was just allocated gives the free list back; only an end marker between two
      regions, right behind the block, is absorbed. */
  lemma {:induction false} MallocThenFree(cs: seq<Cell>, rs: seq<Region>, i: nat, w: nat)
    requires Tiled(cs, rs) && Coalesced(cs) && i < |cs| && Fits(cs[i], w)
    ensures i + 1 < |cs| && i < |Taken(cs, i, w)|
    ensures Inserted(Taken(cs, i, w), i) == if i + 2 < |cs| && cs[i + 1].kind == End(true) then As(cs, i + 1, End(false)) else cs
  {
    Neighbours(cs, rs, i);
    hide Tiled, Coalesced, Taken, Inserted;
    FreedWhole(cs, i, w);
    TailIs(cs, i);
  }

  lemma {:induction false} TailIs(cs: seq<Cell>, i: nat)
    requires i + 1 < |cs|
    ensures cs[..i] + [cs[i]] + Tail(cs, i) == if i + 2 < |cs| && cs[i + 1].kind == End(true) then As(cs, i + 1, End(false)) else cs
  {
  }

  /** A free block is not the last cell and its neighbours are not free. */
  lemma {:induction false} Neighbours(cs: seq<Cell>, rs: seq<Region>, i: nat)
    requires Tiled(cs, rs) && Coalesced(cs) && i < |cs| && cs[i].kind.Free?
    ensures i + 1 < |cs| && !cs[i + 1].kind.Free? && (i > 0 ==> !cs[i - 1].kind.Free?)
  {
    assert i + 1 < |cs|;
    assert !Touching(cs, i) && (i > 0 ==> !Touching(cs, i - 1));
  }

  /** heap_4: malloc followed at once by free of that pointer restores every block and the free list. */
  lemma {:induction false} MallocThenFreeRestores(cs: seq<Cell>, rs: seq<Region>, i: nat, w: nat)
    requires Tiled(cs, rs) && Coalesced(cs) && i < |cs| && Fits(cs[i], w) && |rs| == 1
    ensures i < |Taken(cs, i, w)| && Inserted(Taken(cs, i, w), i) == cs
  {
    MallocThenFree(cs, rs, i, w);
    if i + 2 < |cs| { InnerEnd(cs, rs, i + 1); }
  }

  /** Only the last region's end marker has nothing behind it. */
  lemma {:induction false} InnerEnd(cs: seq<Cell>, rs: seq<Region>, k: nat)
    requires Tiled(cs, rs) && k + 1 < |cs|
    ensures cs[k].kind.End? ==> |rs| > 1
  {
    assert CellOk(cs[k], rs) && Step(cs, k, rs);
  }

  // ---------------------------------------------------------------- live blocks

  /** The blocks the application holds. */
  function Live(cs: seq<Cell>): set<Cell> { set c | c in cs && c.kind.Used? }

  /** An allocation adds one block and leaves every live block as it is. */
  lemma {:induction false} TakenLive(cs: seq<Cell>, i: nat, w: nat)
    requires i + 1 < |cs| && Fits(cs[i], w) && !cs[i + 1].kind.Free?
    ensures Live(Taken(cs, i, w)) == Live(cs) + {cs[i].(kind := Used, size := TakenSize(cs[i], w))}
  {
    var u, f := cs[i].(kind := Used, size := TakenSize(cs[i], w)), cs[i].(addr := cs[i].addr + w, size := cs[i].size - w);
    LiveConcat(cs[..i], cs[i], cs[i + 1..]);
    assert cs == cs[..i] + [cs[i]] + cs[i + 1..];
    if cs[i].size - w > MINIMUM_BLOCK {
      TakenSplit(cs, i, w);
      TailLive(cs, i);
      LiveConcat2(cs[..i], u, f, Tail(cs, i));
    } else {
      LiveConcat(cs[..i], u, cs[i + 1..]);
      assert Taken(cs, i, w) == cs[..i] + [u] + cs[i + 1..];
    }
  }

  lemma {:induction false} LiveConcat2(a: seq<Cell>, u: Cell, f: Cell, b: seq<Cell>)
    requires u.kind.Used? && f.kind.Free?
    ensures Live(a + [u, f] + b) == Live(a) + Live(b) + {u}
  {
  }

  lemma {:induction false} LiveConcat(a: seq<Cell>, c: Cell, b: seq<Cell>)
    ensures Live(a + [c] + b) == Live(a) + Live(b) + (if c.kind.Used? then {c} else {})
  {
  }

  lemma {:induction false} TailLive(cs: seq<Cell>, i: nat)
    requires i + 1 < |cs|
    ensures Live(Tail(cs, i)) == Live(cs[i + 1..])
  {
    if i + 2 < |cs| && cs[i + 1].kind == End(true) {
      var t, e := cs[i + 2..], cs[i + 1];
      assert cs[i + 1..] == [] + [e] + t && Tail(cs, i) == [] + [e.(kind := End(false))] + t;
      LiveConcat([], e, t);
      LiveConcat([], e.(kind := End(false)), t);
    }
  }

  /** A release removes that block from the live ones and leaves the others as they are. */
  lemma {:induction false} FreedLive(cs: seq<Cell>, rs: seq<Region>, i: nat)
    requires Tiled(cs, rs) && i < |cs| && cs[i].kind.Used?
    ensures Live(Inserted(cs, i)) == Live(cs) - {cs[i]}
  {
    OnlyOnce(cs, rs, i);
    assert i + 1 < |cs|;
    hide Tiled, Inserted, Live;
    InsertedLive(cs, i);
    LiveParts(cs, i);
  }

  lemma {:induction false} LiveParts(cs: seq<Cell>, i: nat)
    requires i < |cs| && cs[i].kind.Used?
    ensures Live(cs) == Live(cs[..i]) + Live(cs[i + 1..]) + {cs[i]}
  {
    assert cs == cs[..i] + [cs[i]] + cs[i + 1..];
    LiveConcat(cs[..i], cs[i], cs[i + 1..]);
  }

  lemma {:induction false} OnlyOnce(cs: seq<Cell>, rs: seq<Region>, i: nat)
    requires Tiled(cs, rs) && i < |cs|
    ensures cs[i] !in Live(cs[..i]) && cs[i] !in Live(cs[i + 1..])
  {
    forall j | 0 <= j < |cs| && j != i ensures cs[j] != cs[i] {
      if j < i { Increasing(cs, rs, j, i); } else { Increasing(cs, rs, i, j); }
    }
    hide Tiled;
    assert cs[i] !in cs[..i] && cs[i] !in cs[i + 1..];
  }

  lemma {:induction false} InsertedLive(cs: seq<Cell>, i: nat)
    requires i + 1 < |cs| && cs[i].kind.Used?
    ensures Live(Inserted(cs, i)) == Live(cs[..i]) + Live(cs[i + 1..])
  {
    var pre := if i > 0 && cs[i - 1].kind.Free? then cs[..i - 1] else cs[..i];
    InsertedShape(cs, i);
    RestLive(cs, i);
    assert Live(pre) == Live(cs[..i]) by {
      if i > 0 && cs[i - 1].kind.Free? { LiveBefore(cs, i); }
    }
    LiveConcat(pre, Merged(cs, i), Rest(cs, i));
    hide Inserted, Live, Rest;
  }

  lemma {:induction false} LiveBefore(cs: seq<Cell>, i: nat)
    requires 0 < i <= |cs| && cs[i - 1].kind.Free?
    ensures Live(cs[..i - 1]) == Live(cs[..i])
  {
    LiveConcat(cs[..i - 1], cs[i - 1], []);
    assert cs[..i] == cs[..i - 1] + [cs[i - 1]] + [];
  }

  lemma {:induction false} RestLive(cs: seq<Cell>, i: nat)
    requires i + 1 < |cs|
    ensures Live(Rest(cs, i)) == Live(cs[i + 1..])
  {
    if cs[i + 1].kind.Free? {
      LiveConcat([], cs[i + 1], cs[i + 2..]);
      assert cs[i + 1..] == [] + [cs[i + 1]] + cs[i + 2..];
    } else {
      TailLive(cs, i);
    }
  }

  /** Two live blocks never share a byte. */
  lemma {:induction false} LiveDisjoint(cs: seq<Cell>, rs: seq<Region>, c: Cell, d: Cell)
    requires Tiled(cs, rs) && c in Live(cs) && d in Live(cs) && c != d
    ensures c.addr + c.size <= d.addr || d.addr + d.size <= c.addr
    ensures c.region < |rs| && rs[c.region].lo <= c.addr && c.addr + c.size <= rs[c.region].hi
  {
    var i :| 0 <= i < |cs| && cs[i] == c;
    var j :| 0 <= j < |cs| && cs[j] == d;
    assert CellOk(cs[i], rs);
    if i < j { Increasing(cs, rs, i, j); } else { Increasing(cs, rs, j, i); }
  }

  // ---------------------------------------------------------------- conservation

  function UsedSum(cs: seq<Cell>): nat {
    if |cs| == 0 then 0 else (if cs[0].kind.Used? then cs[0].size else 0) + UsedSum(cs[1..])
  }

  /** Usable bytes of the first n regions. */
  function Capacity(rs: seq<Region>, n: nat): int
    requires n <= |rs|
  {
    if n == 0 then 0 else Capacity(rs, n - 1) + rs[n - 1].hi - rs[n - 1].lo
  }

  lemma {:induction false} UsedConcat(a: seq<Cell>, b: seq<Cell>)
    ensures UsedSum(a + b) == UsedSum(a) + UsedSum(b)
  {
    if |a| == 0 {
      assert a + b == b;
    } else {
      UsedConcat(a[1..], b);
      assert (a + b)[1..] == a[1..] + b;
    }
  }

  /** Free and allocated bytes together are always the usable bytes of the regions. */
  lemma {:induction false} Conserved(cs: seq<Cell>, rs: seq<Region>)
    requires Tiled(cs, rs)
    ensures FreeSum(cs) + UsedSum(cs) == Capacity(rs, |rs|)
  {
    ConservedUpTo(cs, rs, |cs| - 1);
    ListingAt(cs, |cs| - 1);
    var t := cs[|cs| - 1];
    assert cs == cs[..|cs| - 1] + [t];
    UsedConcat(cs[..|cs| - 1], [t]);
    assert CellOk(t, rs);
  }

  lemma {:induction false} ConservedUpTo(cs: seq<Cell>, rs: seq<Region>, k: nat)
    requires Tiled(cs, rs) && k < |cs|
    ensures cs[k].region < |rs|
    ensures FreeSum(cs[..k]) + UsedSum(cs[..k]) == Capacity(rs, cs[k].region) + cs[k].addr - rs[cs[k].region].lo
  {
    assert CellOk(cs[k], rs);
    if k > 0 {
      ConservedUpTo(cs, rs, k - 1);
      assert CellOk(cs[k - 1], rs) && Step(cs, k - 1, rs);
      assert cs[..k] == cs[..k - 1] + [cs[k - 1]];
      hide Tiled;
      Concat(cs[..k - 1], [cs[k - 1]]);
      UsedConcat(cs[..k - 1], [cs[k - 1]]);
    }
  }

  // ---------------------------------------------------------------- runs

  datatype Call = MallocCall(n: nat) | FreeCall(p: nat)

  /** The index of the live block with payload p, or |cs|. */
  function LiveAt(cs: seq<Cell>, p: nat): (i: nat)
    ensures i <= |cs|
    ensures i < |cs| ==> cs[i].kind.Used? && cs[i].addr + STRUCT_SIZE == p
    ensures i == |cs| ==> forall j {:trigger cs[j]} | 0 <= j < |cs| :: !(cs[j].kind.Used? && cs[j].addr + STRUCT_SIZE == p)
  {
    if |cs| == 0 || (cs[0].kind.Used? && cs[0].addr + STRUCT_SIZE == p) then 0
    else
      assert forall j {:trigger cs[j]} | 1 <= j < |cs| :: cs[j] == cs[1..][j - 1];
      1 + LiveAt(cs[1..], p)
  }

  /** One call; freeing what is not a live block does nothing. */
  function After(cs: seq<Cell>, c: Call): seq<Cell> {
    match c
    case MallocCall(n) => Granted(cs, n)
    case FreeCall(p) => var i := LiveAt(cs, p); if i < |cs| then Inserted(cs, i) else cs
  }

  function Run(cs: seq<Cell>, calls: seq<Call>): seq<Cell> {
    if |calls| == 0 then cs else After(Run(cs, calls[..|calls| - 1]), calls[|calls| - 1])
  }

  /** Over every run of malloc and free the blocks tile the regions and no two free ones touch. */
  lemma {:induction false} RunKeeps(cs: seq<Cell>, rs: seq<Region>, calls: seq<Call>)
    requires Tiled(cs, rs) && Coalesced(cs)
    ensures Tiled(Run(cs, calls), rs) && Coalesced(Run(cs, calls))
    ensures FreeSum(Run(cs, calls)) + UsedSum(Run(cs, calls)) == Capacity(rs, |rs|)
  {
    if |calls| > 0 {
      RunKeeps(cs, rs, calls[..|calls| - 1]);
      AfterKeeps(Run(cs, calls[..|calls| - 1]), rs, calls[|calls| - 1]);
    }
    Conserved(Run(cs, calls), rs);
  }

  lemma {:induction false} AfterKeeps(cs: seq<Cell>, rs: seq<Region>, c: Call)
    requires Tiled(cs, rs) && Coalesced(cs)
    ensures Tiled(After(cs, c), rs) && Coalesced(After(cs, c))
  {
    match c
    case MallocCall(n) => MallocAnswer(cs, rs, n);
    case FreeCall(p) =>
      var i := LiveAt(cs, p);
      if i < |cs| {
        InsertedKeeps(cs, rs, i);
        InsertedCoalesced(cs, i);
      }
  }
}