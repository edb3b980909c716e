/** When a seek leaves an open file in good order. A clean buffer may be out of date when its sector has left the
    file and another one has written there; a seek past the end can bring the sector back. */
module SeekOrder {
  import opened Arith
  import opened Volume
  import opened Clusters
  import opened ChainTheory
  import opened Chain
  import opened FileTheory
  import opened SeekTheory

  /** The buffer's sector is sector q of the file, or would be if the file's next cluster were the one it lies in. */
  ghost predicate CouldBe(a: FileState, q: nat)
    requires a.Guarded()
  {
    if q < Capacity(a.g, a.chain) then SectorOf(a.g, a.chain, q) == a.sect
    else q / a.g.csize == |a.chain| && exists c: nat {:trigger ClusterTop(a.g, c)} :: IsFree(a, c) && a.sect == ClusterTop(a.g, c) + q % a.g.csize
  }

  predicate IsFree(a: FileState, c: nat) { 2 <= c < a.g.nFatent && c < |a.f| && a.f[c] == 0 }

  /** No seek can make the buffer wrong: the file is only read, the buffer is up to date, or its sector lies
      neither in a cluster of the file nor in a free one where a byte of the file could come to lie. */
  ghost predicate Harmless(a: FileState)
    requires a.Guarded()
  {
    !a.writable || a.UpToDate() || forall q: nat {:trigger CouldBe(a, q)} | q * SECTOR_SIZE + 1 < POW32 :: !CouldBe(a, q)
  }

  /** Sector q of the file after a seek, when the buffer names it, could be that sector before. */
  lemma {:induction false} CouldBeBefore(a: FileState, b: FileState, q: nat) returns (p: nat)
    requires a.Whole() && SeekDone(a, b) && q < Capacity(b.g, b.chain) && SectorOf(b.g, b.chain, q) == a.sect
    ensures p <= q && CouldBe(a, p) && (q < Capacity(a.g, a.chain) ==> p == q)
  {
    hide Geometry.Sound, OnChain, Shows, Located, SectorOf, Capacity, FileState.Cached, BufferKept;
    p := q;
    if q < Capacity(a.g, a.chain) {
      assert b.chain == a.chain + b.chain[|a.chain|..];
      SectorOfPrefix(a.g, a.chain, b.chain[|a.chain|..], q, |a.v|);
    } else {
      p := NewPlace(a, b, q);
    }
  }

  /** A sector of a new cluster: the cluster was free, and could have been the first one taken. */
  lemma {:induction false} NewPlace(a: FileState, b: FileState, q: nat) returns (p: nat)
    requires a.Whole() && SeekDone(a, b) && Capacity(a.g, a.chain) <= q < Capacity(b.g, b.chain) && SectorOf(b.g, b.chain, q) == a.sect
    ensures p <= q && CouldBe(a, p)
  {
    hide Geometry.Sound, OnChain, Shows, Located, FileState.Cached, BufferKept, IsChain;
    var csize, n := a.g.csize, |a.chain|;
    SectorIndex(b.g, b.chain, q);
    BehindIndex(q, n, csize);
    var c := b.chain[q / csize];
    NewIsFree(a, b, q / csize);
    p := n * csize + q % csize;
    DivModUnique(n, q % csize, csize);
    MulMono(n, q / csize, csize);
    assert IsFree(a, c) && a.sect == ClusterTop(a.g, c) + p % csize;
  }

  lemma {:induction false} BehindIndex(q: nat, n: nat, c: nat)
    requires c > 0 && n * c <= q
    ensures n <= q / c
  {
    DivMono(n * c, q, c);
    DivModUnique(n, 0, c);
  }

  /** The clusters a seek adds were free. */
  lemma {:induction false} NewIsFree(a: FileState, b: FileState, i: nat)
    requires SeekDone(a, b) && |a.chain| <= i < |b.chain|
    ensures IsFree(a, b.chain[i])
  {
    hide OnChain, Shows, Located, SectorOf, Capacity, FileState.Cached, BufferKept, IsChain, SoughtBuffer;
    var c := b.chain[i];
    assert c in b.chain;
    assert c !in a.chain by {
      forall k | 0 <= k < |a.chain| ensures a.chain[k] != c { assert b.chain[k] == a.chain[k]; }
    }
    assert Available(a.f, a.chain, c);
  }

  /** A seek leaves the file in good order when the buffer was harmless, or when it did not raise the size. */
  lemma {:induction false} SeekKeepsOrder(a: FileState, b: FileState)
    requires a.Whole() && SeekDone(a, b) && (Harmless(a) || b.size == a.size)
    ensures b.Whole()
  {
    hide OnChain, Located, IsChain, SectorOf, Isolated, Capacity, SameData, Shows, Harmless, CouldBe;
    BufferArea(a, b);
    if !b.dirty && b.sect != 0 && b.b != b.v[b.sect] && Shows(b.g, b.chain, b.size, b.sect) {
      ShownIsThreat(a, b);
    }
  }

  /** The buffer names a data sector, and one that was kept is as much up to date as before. */
  lemma {:induction false} BufferArea(a: FileState, b: FileState)
    requires a.Whole() && SeekDone(a, b)
    ensures b.sect != 0 ==> b.g.database <= b.sect < b.g.End() && b.sect < |b.v|
    ensures b.sect != 0 && !b.dirty && b.b != b.v[b.sect] ==> b.sect == a.sect && b.b == a.b && !a.dirty && !a.UpToDate()
  {
    hide OnChain, Located, IsChain, Isolated, SameData, Shows, Distinct;
    if b.fptr % SECTOR_SIZE != 0 {
      SectorOnChain(b.g, b.chain, b.fptr / SECTOR_SIZE, |b.v|);
    }
    if b.sect == a.sect && SameData(a.v, b.v, a.g) { SameDataSector(a.v, b.v, a.g, a.sect); }
  }

  lemma {:induction false} ShownIsThreat(a: FileState, b: FileState)
    requires a.Whole() && SeekDone(a, b) && b.sect == a.sect && !a.dirty && !a.UpToDate()
    requires Shows(b.g, b.chain, b.size, b.sect)
    ensures !Harmless(a) && b.size != a.size
  {
    hide OnChain, Located, IsChain, SectorOf, Isolated, SameData, Geometry.Sound, CouldBe, BufferKept;
    var q: nat :| q < Capacity(b.g, b.chain) && q * SECTOR_SIZE < b.size && SectorOf(b.g, b.chain, q) == b.sect;
    var p := CouldBeBefore(a, b, q);
    NotShownBefore(a, b, q);
  }

  /** A clean buffer that is out of date was not shown before. */
  lemma {:induction false} NotShownBefore(a: FileState, b: FileState, q: nat)
    requires a.Whole() && SeekDone(a, b) && !a.UpToDate() && q < Capacity(b.g, b.chain) && SectorOf(b.g, b.chain, q) == a.sect
    ensures a.size <= q * SECTOR_SIZE
  {
    hide OnChain, Located, IsChain, Isolated, SameData, Geometry.Sound, SectorOf, BufferKept, Shows, Capacity;
    ShownBySize(a, b, q);
  }

  lemma {:induction false} ShownBySize(a: FileState, b: FileState, q: nat)
    requires a.Whole() && SeekDone(a, b) && q < Capacity(b.g, b.chain) && SectorOf(b.g, b.chain, q) == a.sect
    ensures Placed(a.g, a.chain, |a.v|) && (q * SECTOR_SIZE < a.size ==> Shows(a.g, a.chain, a.size, a.sect))
  {
    hide OnChain, Located, IsChain, Isolated, SameData, Geometry.Sound, SectorOf, BufferKept;
    if q * SECTOR_SIZE < a.size {
      assert q < Capacity(a.g, a.chain);
      assert b.chain == a.chain + b.chain[|a.chain|..];
      SectorOfPrefix(a.g, a.chain, b.chain[|a.chain|..], q, |a.v|);
    }
  }

  /** A seek that ends in, or at the end of, the sector an outdated buffer names shows the buffer. */
  lemma {:induction false} SeekStale(a: FileState, b: FileState, q: nat)
    requires a.Whole() && !a.UpToDate() && SeekDone(a, b)
    requires q < Capacity(b.g, b.chain) && SectorOf(b.g, b.chain, q) == a.sect && q * SECTOR_SIZE < b.fptr <= (q + 1) * SECTOR_SIZE
    ensures !b.Cached()
  {
    hide OnChain, Located, IsChain, Isolated, SameData, Distinct, SectorOf;
    if b.fptr % SECTOR_SIZE != 0 { assert b.fptr / SECTOR_SIZE == q; }
    SameDataSector(a.v, b.v, a.g, a.sect);
    assert Shows(b.g, b.chain, b.size, b.sect);
  }

  // ---------------------------------------------------------------- exactly

  /** The table with c, a free cluster, made the last one of the file. */
  function Extending(a: FileState, c: nat): seq<nat>
    requires a.Guarded() && IsFree(a, c)
  {
    var f := a.f[c := a.g.Truncated(EOC)];
    if a.chain == [] then f else f[a.chain[|a.chain| - 1] := c]
  }

  /** The file after a seek to the first byte of one of its sectors. */
  function Within(a: FileState, q: nat): FileState
    requires a.Guarded() && q < Capacity(a.g, a.chain)
  {
    SectorIndex(a.g, a.chain, q);
    a.(fptr := q * SECTOR_SIZE + 1, size := Max(a.size, q * SECTOR_SIZE + 1), clust := a.chain[q / a.g.csize])
  }

  /** The file after a seek to the first byte of a sector of the cluster it takes. */
  function Behind(a: FileState, q: nat, c: nat): FileState
    requires a.Guarded() && IsFree(a, c)
  {
    a.(fptr := q * SECTOR_SIZE + 1, size := Max(a.size, q * SECTOR_SIZE + 1), f := Extending(a, c), w := a.g.fatbase,
       chain := a.chain + [c], clust := c, sclust := if a.chain == [] then c else a.sclust)
  }

  lemma {:induction false} WithinSought(a: FileState, q: nat)
    requires a.Whole() && a.writable && !a.dirty && q < Capacity(a.g, a.chain) && q * SECTOR_SIZE + 1 < POW32 && SectorOf(a.g, a.chain, q) == a.sect
    ensures SeekDone(a, Within(a, q))
  {
    hide OnChain, IsChain, SectorOf, Shows;
    var b := Within(a, q);
    FirstByte(q);
    SectorIndex(a.g, a.chain, q);
    LongerFile(a.v, a.g, a.chain, a.size, b.size);
    IsolatedReflexive(a);
    assert Isolated(a, b) by { IsolatedSame(a, a, b); }
  }

  lemma {:induction false} FirstByte(q: nat)
    ensures (q * SECTOR_SIZE + 1) / SECTOR_SIZE == q && (q * SECTOR_SIZE + 1) % SECTOR_SIZE == 1 && q * SECTOR_SIZE / SECTOR_SIZE == q
  {
  }

  lemma {:induction false} ExtendingChain(a: FileState, c: nat)
    requires a.Whole() && IsFree(a, c)
    ensures var h := Extending(a, c);
            && |h| == |a.f| && IsChain(h, a.chain + [c]) && Distinct(a.chain + [c]) && Placed(a.g, a.chain + [c], |a.v|)
            && forall d {:trigger h[d]} | 0 <= d < |a.f| && !Available(a.f, a.chain, d) :: h[d] == a.f[d]
  {
    hide OnChain, Shows, Located, FileState.Cached, IsClusterSize;
    assert a.g.Truncated(EOC) >= |a.f|;
    var last := if |a.chain| == 0 then 0 else a.chain[|a.chain| - 1];
    if a.chain != [] { ChainUsed(a.f, a.chain); assert InUse(a.f, last) && last in a.chain; }
    assert Allocated(a.f, Extending(a, c), last, c);
    Extended(a.f, Extending(a, c), a.chain, c);
  }

  lemma {:induction false} BehindSought(a: FileState, q: nat, c: nat)
    requires a.Whole() && a.writable && !a.dirty && IsFree(a, c) && q / a.g.csize == |a.chain| && q * SECTOR_SIZE + 1 < POW32
    requires a.sect == ClusterTop(a.g, c) + q % a.g.csize
    ensures SeekDone(a, Behind(a, q, c)) && q < Capacity(a.g, a.chain + [c]) && SectorOf(a.g, a.chain + [c], q) == a.sect
  {
    hide OnChain, IsChain, Shows, Isolated, SameData, Geometry.Sound;
    var b := Behind(a, q, c);
    FirstByte(q);
    ExtendingChain(a, c);
    PlaceBehind(a, q, c);
    BehindGuarded(a, b, c);
    PrefixContents(a.v, a.g, a.chain, [c], a.size);
    LongerFile(a.v, a.g, b.chain, a.size, b.size);
    SameDataRefl(a.v, a.g);
  }

  lemma {:induction false} PlaceBehind(a: FileState, q: nat, c: nat)
    requires a.Whole() && IsFree(a, c) && q / a.g.csize == |a.chain| && Placed(a.g, a.chain + [c], |a.v|)
    ensures q < Capacity(a.g, a.chain + [c]) && SectorOf(a.g, a.chain + [c], q) == ClusterTop(a.g, c) + q % a.g.csize
    ensures Located(a.g, a.chain + [c], q * SECTOR_SIZE, c) && a.size <= Capacity(a.g, a.chain + [c]) * SECTOR_SIZE
    ensures q * SECTOR_SIZE + 1 <= Capacity(a.g, a.chain + [c]) * SECTOR_SIZE
  {
    hide OnChain, IsChain, Shows, FileState.Cached, FileState.Positioned;
    var n, csize := |a.chain|, a.g.csize;
    SlotInside(n, q % csize, csize, n + 1);
    assert q == n * csize + q % csize;
    MulMono(n, n + 1, csize);
    FirstByte(q);
  }

  lemma {:induction false} BehindGuarded(a: FileState, b: FileState, c: nat)
    requires a.Whole() && !a.dirty && IsFree(a, c) && Placed(a.g, a.chain + [c], |a.v|)
    requires b == a.(f := Extending(a, c), w := a.g.fatbase, chain := a.chain + [c], clust := b.clust, sclust := b.sclust, fptr := b.fptr, size := b.size)
    requires |b.f| == |a.f| && forall d {:trigger b.f[d]} | 0 <= d < |a.f| && !Available(a.f, a.chain, d) :: b.f[d] == a.f[d]
    ensures b.Guarded() && Isolated(a, b)
  {
    hide OnChain, IsChain, Shows, Located, Distinct, FileState.Cached, IsClusterSize;
    assert a.g.InFat1(a.g.fatbase);
    WindowOff(a.g, b.chain, a.w, b.w, |a.v|);
    forall d: nat | d in b.chain ensures Available(a.f, a.chain, d) && 2 <= d < |a.f| {
      if d in a.chain { assert Available(a.f, a.chain, d); }
    }
  }

  /** Whatever its offset and whichever free clusters it takes, a seek leaves the file in good order exactly when
      the buffer was harmless. */
  lemma {:induction false} SeekSafe(a: FileState)
    requires a.Whole()
    ensures Harmless(a) <==> forall b {:trigger SeekDone(a, b)} | SeekDone(a, b) :: b.Whole()
  {
    hide FileState.Whole, SeekDone, FileState.UpToDate, CouldBe;
    WholeGuards(a);
    if Harmless(a) {
      forall b | SeekDone(a, b) ensures b.Whole() {
        SeekKeepsOrder(a, b);
      }
    } else {
      var q: nat :| q * SECTOR_SIZE + 1 < POW32 && CouldBe(a, q);
      var b := SeekGoesWrong(a, q);
    }
  }

  lemma {:induction false} WholeGuards(a: FileState)
    requires a.Whole()
    ensures a.Guarded()
  {
  }

  /** A seek that brings an outdated buffer's sector back. */
  lemma {:induction false} SeekGoesWrong(a: FileState, q: nat) returns (b: FileState)
    requires a.Whole() && a.writable && !a.UpToDate() && q * SECTOR_SIZE + 1 < POW32 && CouldBe(a, q)
    ensures SeekDone(a, b) && !b.Whole()
  {
    hide OnChain, IsChain, Shows, Isolated, SameData, Located, SeekDone, SectorOf, FileState.Cached, FileState.Listed;
    if q < Capacity(a.g, a.chain) {
      b := Within(a, q);
      WithinSought(a, q);
      SeekStale(a, b, q);
    } else {
      var c: nat :| IsFree(a, c) && a.sect == ClusterTop(a.g, c) + q % a.g.csize;
      b := Behind(a, q, c);
      BehindSought(a, q, c);
      SeekStale(a, b, q);
    }
  }

  // ---------------------------------------------------------------- in a caller's terms

  /** A buffer whose sector is in somebody else's cluster is harmless. */
  lemma {:induction false} ElsewhereHarmless(a: FileState)
    requires a.Whole() && !OwnSector(a.g, a.f, a.chain, a.sect)
    ensures Harmless(a)
  {
    hide Shows, Located, IsChain, FileState.Cached, OnChain;
    forall q: nat | q * SECTOR_SIZE + 1 < POW32 ensures !CouldBe(a, q) {
      CouldBeOwn(a, q);
    }
  }

  lemma {:induction false} CouldBeOwn(a: FileState, q: nat)
    requires a.Whole()
    ensures CouldBe(a, q) ==> OwnSector(a.g, a.f, a.chain, a.sect)
  {
    hide Shows, Located, IsChain, FileState.Cached, OnChain, Distinct;
    if CouldBe(a, q) {
      if q < Capacity(a.g, a.chain) {
        SectorOnChain(a.g, a.chain, q, |a.v|);
        SectorIndex(a.g, a.chain, q);
        assert Available(a.f, a.chain, a.chain[q / a.g.csize]);
      } else {
        var c: nat :| IsFree(a, c) && a.sect == ClusterTop(a.g, c) + q % a.g.csize;
        assert Available(a.f, a.chain, c) && a.g.InCluster(a.sect, c);
      }
    }
  }

  /** The other way round when the file can grow by a cluster. */
  lemma {:induction false} OwnHarms(a: FileState)
    requires a.Whole() && OwnSector(a.g, a.f, a.chain, a.sect) && (|a.chain| + 1) * a.g.csize * SECTOR_SIZE < POW32
    ensures Harmless(a) <==> !a.writable || a.UpToDate()
  {
    hide Shows, Located, IsChain, FileState.Cached, OnChain, Distinct;
    var q := OwnPlace(a);
  }

  lemma {:induction false} OwnPlace(a: FileState) returns (q: nat)
    requires a.Whole() && OwnSector(a.g, a.f, a.chain, a.sect) && (|a.chain| + 1) * a.g.csize * SECTOR_SIZE < POW32
    ensures q * SECTOR_SIZE + 1 < POW32 && CouldBe(a, q)
  {
    hide Shows, Located, IsChain, FileState.Cached, OnChain, Distinct;
    var c: nat :| a.g.InCluster(a.sect, c) && Available(a.f, a.chain, c);
    var csize, r := a.g.csize, a.sect - ClusterTop(a.g, c);
    var i := |a.chain|;
    if c in a.chain { i :| 0 <= i < |a.chain| && a.chain[i] == c; }
    q := i * csize + r;
    DivModUnique(i, r, csize);
    SlotInside(i, r, csize, |a.chain| + 1);
    MulMono(|a.chain|, |a.chain| + 1, csize);
    if i < |a.chain| {
      SlotInside(i, r, csize, |a.chain|);
    } else {
      assert IsFree(a, c) && a.sect == ClusterTop(a.g, c) + q % csize;
    }
  }

  // ---------------------------------------------------------------- one seek

  /** A seek to this offset, if it gets there, must bring the outdated buffer's sector back: it is a sector of
      the file's own clusters, or of the only free cluster. */
  ghost predicate Doomed(a: FileState, to: nat)
    requires a.Guarded()
  {
    && !a.UpToDate() && to > 0
    && var q := (to - 1) / SECTOR_SIZE;
       CouldBe(a, q) && (q < Capacity(a.g, a.chain) || forall c, d {:trigger IsFree(a, c), IsFree(a, d)} | IsFree(a, c) && IsFree(a, d) :: c == d)
  }

  lemma {:induction false} DoomedSeek(a: FileState, b: FileState, to: nat)
    requires a.Whole() && SeekDone(a, b) && Doomed(a, to) && b.fptr == to
    ensures !b.Cached()
  {
    hide OnChain, IsChain, Shows, Isolated, SameData, Geometry.Sound, SeekDone, SectorOf, FileState.Cached, CouldBe, FileState.UpToDate;
    var q := (to - 1) / SECTOR_SIZE;
    DoomedPlace(a, b, q);
    SeekStale(a, b, q);
  }

  /** What is known of the file after a seek. */
  lemma {:induction false} SeekOutcome(a: FileState, b: FileState, to: nat)
    requires a.Whole() && SeekDone(a, b)
    ensures b.Settled() && (b.Whole() <==> b.Cached()) && BufferKept(a, b) && b.Guarded() && b.Listed()
    ensures a.Guarded() && a.Listed() && a.Held() <= b.Held() && b.size == Max(a.size, b.fptr) && a.chain <= b.chain
    ensures Harmless(a) || b.size == a.size ==> b.Whole()
    ensures Doomed(a, to) && b.fptr == to ==> !b.Cached()
  {
    hide FileState.Whole, SeekDone, Harmless, Doomed, FileState.Cached;
    SeekDoneWhole(a, b);
    if Harmless(a) || b.size == a.size { SeekKeepsOrder(a, b); }
    if Doomed(a, to) && b.fptr == to { DoomedSeek(a, b, to); }
  }

  lemma {:induction false} DoomedPlace(a: FileState, b: FileState, q: nat)
    requires a.Whole() && SeekDone(a, b) && b.fptr > 0 && q == (b.fptr - 1) / SECTOR_SIZE && CouldBe(a, q)
    requires q < Capacity(a.g, a.chain) || forall c, d {:trigger IsFree(a, c), IsFree(a, d)} | IsFree(a, c) && IsFree(a, d) :: c == d
    ensures q < Capacity(b.g, b.chain) && SectorOf(b.g, b.chain, q) == a.sect
  {
    hide OnChain, IsChain, Shows, SameData, Geometry.Sound, FileState.Cached, BufferKept, SoughtBuffer;
    if q < Capacity(a.g, a.chain) {
      assert b.chain == a.chain + b.chain[|a.chain|..];
      SectorOfPrefix(a.g, a.chain, b.chain[|a.chain|..], q, |a.v|);
    } else {
      SectorIndex(b.g, b.chain, q);
      NewIsFree(a, b, |a.chain|);
    }
  }
}
