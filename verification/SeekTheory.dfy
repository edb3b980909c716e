/** What the steps of f_lseek and f_truncate do to an open file seen as a value. */
module SeekTheory {
  import opened Arith
  import opened Volume
  import opened Clusters
  import opened ChainTheory
  import opened Chain
  import opened FileTheory
  import opened ReadTheory

  /** Bytes per cluster. */
  function ClusterBytes(g: Geometry): nat { g.csize * SECTOR_SIZE }

  lemma {:induction false} ClusterIndexOf(g: Geometry, k: nat)
    requires g.csize > 0
    ensures ClusterIndex(g, k) == k / ClusterBytes(g)
  {
    var q, r := k / SECTOR_SIZE, k % SECTOR_SIZE;
    var d, e := q / g.csize, q % g.csize;
    assert q == d * g.csize + e;
    assert k == d * (g.csize * SECTOR_SIZE) + (e * SECTOR_SIZE + r) by {
      assert d * (g.csize * SECTOR_SIZE) == d * g.csize * SECTOR_SIZE;
    }
    DivModUnique(d, e * SECTOR_SIZE + r, g.csize * SECTOR_SIZE);
  }

  /** The cursor stands at the start of cluster number i of the chain, and clust is that cluster. */
  ghost predicate Walking(m: FileState, i: nat) {
    m.Sound() && m.Rooted() && i < |m.chain| && m.clust == m.chain[i] && m.fptr == i * ClusterBytes(m.g)
  }

  /** The walk's result: the same file, with the chain followed or lengthened. */
  ghost predicate SameFile(a: FileState, m: FileState) {
    && a.Sound() && m.Sound() && a.chain <= m.chain && Isolated(a, m) && m.Held() == a.Held() && (a.UpToDate() ==> m.UpToDate())
    && SameData(a.v, m.v, a.g)
    && m == a.(v := m.v, f := m.f, w := m.w, chain := m.chain, clust := m.clust, sclust := m.sclust, fptr := m.fptr)
  }

  lemma {:induction false} SameFileTwice(a: FileState, m: FileState, b: FileState)
    requires SameFile(a, m) && SameFile(m, b)
    ensures SameFile(a, b)
  {
    hide FileState.Sound, FileState.Held, Isolated, SameData;
    IsolatedTransitive(a, m, b);
    SameDataTransitive(a.v, m.v, b.v, a.g);
  }

  lemma {:induction false} SameFileStart(a: FileState)
    requires a.Sound()
    ensures SameFile(a, a)
  {
    IsolatedReflexive(a);
  }

  /** Moving the cursor fields only. */
  lemma {:induction false} SameFileCursor(a: FileState, m: FileState)
    requires a.Sound() && m == a.(clust := m.clust, sclust := m.sclust, fptr := m.fptr)
    ensures SameFile(a, m)
  {
    IsolatedReflexive(a);
    assert Isolated(a, m) by { IsolatedSame(a, a, m); }
    assert m.FileView() == a.FileView();
  }

  // ---------------------------------------------------------------- where the walk starts

  /** The cursor put back to the start of its cluster. */
  function CursorBack(a: FileState): FileState
    requires a.fptr > 0 && a.g.csize > 0
  {
    MulMono(0, (a.fptr - 1) / ClusterBytes(a.g), ClusterBytes(a.g));
    a.(fptr := (a.fptr - 1) / ClusterBytes(a.g) * ClusterBytes(a.g))
  }

  /** Seeking forward starts from the cluster the cursor is in. */
  lemma {:induction false} StartHere(a: FileState)
    requires a.Whole() && a.fptr > 0
    ensures ClusterBytes(a.g) > 0 && (a.fptr - 1) / ClusterBytes(a.g) < |a.chain|
    ensures Walking(CursorBack(a), (a.fptr - 1) / ClusterBytes(a.g)) && SameFile(a, CursorBack(a))
  {
    ClusterIndexOf(a.g, a.fptr - 1);
    SectorIndex(a.g, a.chain, (a.fptr - 1) / SECTOR_SIZE);
    SameFileCursor(a, CursorBack(a));
  }

  /** Seeking backward starts from the first cluster. */
  lemma {:induction false} StartFirst(a: FileState, m: FileState)
    requires a.Sound() && |a.chain| > 0 && m == a.(fptr := 0, clust := a.chain[0], sclust := a.chain[0])
    ensures Walking(m, 0) && SameFile(a, m)
  {
    SameFileCursor(a, m);
  }

  // ---------------------------------------------------------------- one step of the walk

  lemma {:induction false} WalkStretch(a: FileState, m: FileState, x: FileState, i: nat, clst: nat)
    requires SameFile(a, m) && Walking(m, i) && StretchResult(m, x, i, clst) && clst >= 2 && clst != DISK_ERROR
    ensures var b := x.(clust := clst, fptr := m.fptr + ClusterBytes(m.g)); Walking(b, i + 1) && SameFile(a, b) && b.Guarded()
  {
    hide FileState.Held, Isolated, StretchResult, ClusterBytes, FileState.Guarded, FileState.Listed, FileState.Cached, SameFile;
    var b := x.(clust := clst, fptr := m.fptr + ClusterBytes(m.g));
    BytesStep(m.g, i);
    StretchSame(m, x, i, clst);
    assert SameFile(m, x) && x.Sound() by { SameFileSound(m, x); }
    SameFileCursor(x, b);
    SameFileTwice(m, x, b);
    SameFileTwice(a, m, b);
  }

  lemma {:induction false} BytesStep(g: Geometry, i: nat)
    ensures (i + 1) * ClusterBytes(g) == i * ClusterBytes(g) + ClusterBytes(g)
  {
  }

  lemma {:induction false} WholeClusters(g: Geometry, i: nat)
    ensures (i * ClusterBytes(g) + ClusterBytes(g)) % SECTOR_SIZE == 0
  {
    var n := i * g.csize + g.csize;
    assert i * ClusterBytes(g) == i * g.csize * SECTOR_SIZE;
    assert i * ClusterBytes(g) + ClusterBytes(g) == n * SECTOR_SIZE;
  }

  lemma {:induction false} SameFileSound(a: FileState, m: FileState)
    requires SameFile(a, m)
    ensures a.Sound() && m.Sound() && m.Guarded()
    ensures m == a.(v := m.v, f := m.f, w := m.w, chain := m.chain, clust := m.clust, sclust := m.sclust, fptr := m.fptr)
  {
  }

  lemma {:induction false} StretchSame(m: FileState, x: FileState, i: nat, clst: nat)
    requires StretchResult(m, x, i, clst) && clst != DISK_ERROR && m.Rooted() && |m.chain| > 0
    ensures SameFile(m, x) && x.Rooted() && x.Guarded()
    ensures clst >= 2 ==> i + 1 < |x.chain| && x.chain[i + 1] == clst
    ensures x == m.(v := x.v, f := x.f, w := x.w, chain := x.chain) && (clst < 2 ==> x.chain == m.chain)
  {
    hide Isolated, SameData, Salvaged, FileState.Held, FileState.Cached, FileState.UpToDate;
  }

  lemma {:induction false} SomeBytes(m: FileState, i: nat)
    requires Walking(m, i)
    ensures ClusterBytes(m.g) > 0 && |m.chain| > 0
  {
    hide FileState.Held, FileState.Listed, FileState.Cached;
  }

  /** No cluster could be had: the cursor stays behind the last one. */
  lemma {:induction false} WalkFull(a: FileState, m: FileState, x: FileState, i: nat)
    requires SameFile(a, m) && Walking(m, i) && StretchResult(m, x, i, 0)
    ensures var b := x.(fptr := m.fptr + ClusterBytes(m.g)); SameFile(a, b) && Arrived(b) && b.Rooted() && b.Guarded() && b.fptr % SECTOR_SIZE == 0
  {
    hide FileState.Held, Isolated, StretchResult, FileState.Guarded, FileState.Listed, FileState.Cached, SameFile, Salvaged, SameData, Arrived;
    var b := x.(fptr := m.fptr + ClusterBytes(m.g));
    WholeClusters(m.g, i);
    SomeBytes(m, i);
    Arrive(m, i, ClusterBytes(m.g));
    StretchSame(m, x, i, 0);
    assert SameFile(m, x) && x.Sound() by { SameFileSound(m, x); }
    SameFileCursor(x, b);
    assert b.Guarded() by { SameFileSound(x, b); }
    assert Arrived(b) by { ArrivedToo(m.(fptr := b.fptr), b); }
    SameFileTwice(m, x, b);
    SameFileTwice(a, m, b);
  }

  /** The cursor has been set; clust is the cluster of the byte before it. */
  ghost predicate Arrived(b: FileState) {
    b.Guarded() && (b.fptr > 0 ==> Located(b.g, b.chain, b.fptr - 1, b.clust)) && b.fptr <= Capacity(b.g, b.chain) * SECTOR_SIZE
  }

  lemma {:induction false} ArrivedToo(m: FileState, b: FileState)
    requires Arrived(m) && b.Guarded() && b.g == m.g && b.chain == m.chain && b.clust == m.clust && b.fptr == m.fptr
    ensures Arrived(b)
  {
    hide FileState.Guarded, Located, Capacity;
  }

  /** Adding what is left of the offset, at most a cluster. */
  lemma {:induction false} Arrive(m: FileState, i: nat, rem: nat)
    requires Walking(m, i) && 0 < rem <= ClusterBytes(m.g)
    ensures Arrived(m.(fptr := m.fptr + rem))
  {
    var g, q := m.g, (rem - 1) / SECTOR_SIZE;
    assert q < g.csize;
    var k := m.fptr + rem - 1;
    assert k == (i * g.csize + q) * SECTOR_SIZE + (rem - 1) % SECTOR_SIZE by {
      assert i * ClusterBytes(g) == i * g.csize * SECTOR_SIZE;
    }
    MulMono(0, i, g.csize);
    assert k / SECTOR_SIZE == i * g.csize + q;
    DivModUnique(i, q, g.csize);
    SlotInside(i, q, g.csize, |m.chain|);
    assert m.fptr + rem <= (i * g.csize + q + 1) * SECTOR_SIZE;
  }

  /** The sector rem bytes behind the start of cluster number i. */
  lemma {:induction false} SectorAhead(i: nat, csize: nat, rem: nat)
    ensures (i * (csize * SECTOR_SIZE) + rem) / SECTOR_SIZE == i * csize + rem / SECTOR_SIZE
    ensures (i * (csize * SECTOR_SIZE) + rem) % SECTOR_SIZE == rem % SECTOR_SIZE
  {
    assert i * (csize * SECTOR_SIZE) == (i * csize) * SECTOR_SIZE;
    DivModUnique(i * csize + rem / SECTOR_SIZE, rem % SECTOR_SIZE, SECTOR_SIZE);
  }

  /** The sector of the new cursor, as f_lseek computes it. */
  lemma {:induction false} ArriveSector(m: FileState, i: nat, rem: nat)
    requires Walking(m, i) && 0 < rem <= ClusterBytes(m.g) && rem % SECTOR_SIZE != 0
    ensures (m.fptr + rem) % SECTOR_SIZE == rem % SECTOR_SIZE
    ensures (m.fptr + rem) / SECTOR_SIZE < Capacity(m.g, m.chain)
    ensures Clst2Sect(m.g, m.clust) != 0
    ensures Clst2Sect(m.g, m.clust) + rem / SECTOR_SIZE == SectorOf(m.g, m.chain, (m.fptr + rem) / SECTOR_SIZE)
    ensures 0 < m.g.database <= SectorOf(m.g, m.chain, (m.fptr + rem) / SECTOR_SIZE) < m.g.End() <= |m.v|
    ensures OnChain(m.g, m.chain, SectorOf(m.g, m.chain, (m.fptr + rem) / SECTOR_SIZE))
  {
    hide IsChain, Distinct, Shows, ByteAt;
    var g, q := m.g, rem / SECTOR_SIZE;
    assert q < g.csize;
    MulMono(0, i, g.csize);
    SectorAhead(i, g.csize, rem);
    DivModUnique(i, q, g.csize);
    SlotInside(i, q, g.csize, |m.chain|);
    Clst2SectOf(g, m.chain, i * g.csize + q, m.clust, |m.v|);
    SectorOnChain(g, m.chain, i * g.csize + q, |m.v|);
    AreasOrdered(g);
  }

  // ---------------------------------------------------------------- the end of the seek

  /** The buffer after a seek: the sector under the new cursor, or what it was when that is on a sector
      boundary or is the sector the buffer names; then only the tables have changed on the disk. */
  ghost predicate SoughtBuffer(a: FileState, b: FileState)
    requires b.Settled()
  {
    if b.fptr % SECTOR_SIZE != 0 && a.sect != SectorOf(b.g, b.chain, b.fptr / SECTOR_SIZE)
    then b.sect == SectorOf(b.g, b.chain, b.fptr / SECTOR_SIZE) && !b.dirty && b.sect < |b.v| && b.b == b.v[b.sect]
    else b.sect == a.sect && b.dirty == a.dirty && b.b == a.b && SameData(a.v, b.v, a.g)
  }

  /** The same bytes, with more behind them when the file was extended, which takes a writable one. A clean
      buffer that was not the sector it names may be shown by the extended file. */
  ghost predicate SeekDone(a: FileState, b: FileState) {
    && a.Sound() && b.Settled() && a.chain <= b.chain && Isolated(a, b) && BufferKept(a, b) && SoughtBuffer(a, b)
    && b.fptr < POW32 && (!a.writable ==> b.fptr <= a.size)
    && b == a.(v := b.v, f := b.f, w := b.w, chain := b.chain, clust := b.clust, sclust := b.sclust,
               dirty := b.dirty, sect := b.sect, b := b.b, fptr := b.fptr, size := Max(a.size, b.fptr))
    && a.Held() <= b.Held()
  }

  lemma {:induction false} LongerFile(v: seq<Sector>, g: Geometry, ch: seq<nat>, size: nat, more: nat)
    requires Placed(g, ch, |v|) && size <= more <= Capacity(g, ch) * SECTOR_SIZE
    ensures Contents(v, g, ch, size) <= Contents(v, g, ch, more)
  {
  }

  /** The size is raised to the cursor when it was passed, and the buffer made the sector under the cursor
      unless the cursor is on a sector boundary. */
  lemma {:induction false} SeekEnd(a: FileState, m: FileState, b: FileState)
    requires SameFile(a, m) && Arrived(m) && m.Rooted() && SeekLoaded(Grown(m), b)
    requires m.fptr < POW32 && (!a.writable ==> m.fptr <= a.size)
    ensures SeekDone(a, b)
  {
    hide Isolated, OnChain, IsChain, SectorOf, BufferKept, Shows, SameData;
    LongerFile(m.FileView(), m.g, m.chain, m.size, Max(m.size, m.fptr));
    SeekEndSettled(m, b);
    SeekEndBuffer(m, b);
    assert b.FileView() == m.FileView();
    SeekIsolated(a, m, b);
    SameFileBuffer(a, m);
    BufferKeptTwice(a, m, b);
  }

  /** The sector under the cursor could not be loaded, or the buffer not written back. */
  lemma {:induction false} SeekFailed(a: FileState, m: FileState, b: FileState)
    requires SameFile(a, m) && b.Guarded() && b.g == m.g && b.f == m.f && b.chain == m.chain && b.FileView() == m.FileView()
    ensures Salvaged(a, b, a.size)
  {
    hide Salvaged, Isolated, SameData, FileState.Held;
    ViewSalvaged(m, b);
    SameFileSalvaged(a, m, b);
  }

  lemma {:induction false} SameFileBuffer(a: FileState, m: FileState)
    requires SameFile(a, m)
    ensures BufferKept(a, m) && (a.UpToDate() ==> m.UpToDate())
  {
  }

  /** The file made to reach to its cursor. */
  function Grown(m: FileState): FileState { m.(size := Max(m.size, m.fptr)) }

  lemma {:induction false} SeekEndSettled(m: FileState, b: FileState)
    requires m.Sound() && m.Rooted() && Arrived(m) && SeekLoaded(Grown(m), b)
    ensures b.Settled()
  {
    hide OnChain, IsChain, SectorOf, Shows, Located;
  }

  /** The buffer after the seek: it was loaded, or it is the one from before. */
  lemma {:induction false} SeekEndBuffer(m: FileState, b: FileState)
    requires m.Sound() && Arrived(m) && SeekLoaded(Grown(m), b) && b.Guarded()
    ensures BufferKept(m, b)
  {
    hide IsChain, SectorOf, Shows, Located;
    if m.fptr / SECTOR_SIZE < Capacity(m.g, m.chain) {
      SectorOnChain(m.g, m.chain, m.fptr / SECTOR_SIZE, |m.v|);
    }
  }

  lemma {:induction false} SeekIsolated(a: FileState, m: FileState, b: FileState)
    requires Isolated(a, m) && m.Guarded() && b.g == m.g && b.f == m.f && b.w == m.w && b.chain == m.chain
    requires b.v == m.v || b.v == m.FileView()
    ensures Isolated(a, b)
  {
    OwnChange(m, b);
    IsolatedTransitive(a, m, b);
  }

  /** Without stretching, inside the file, the walk follows the links. */
  lemma {:induction false} FollowLink(m: FileState, i: nat, rem: nat)
    requires Walking(m, i) && rem > ClusterBytes(m.g) && m.fptr + rem <= m.size
    ensures i + 1 < |m.chain| && 2 <= m.chain[i + 1] < m.g.nFatent < DISK_ERROR
    ensures 2 <= m.clust < m.g.nFatent && m.f[m.clust] == m.chain[i + 1]
  {
    assert |m.chain| * m.g.csize * SECTOR_SIZE == |m.chain| * ClusterBytes(m.g);
    BytesStep(m.g, i);
    if i + 1 >= |m.chain| {
      MulMono(|m.chain|, i + 1, ClusterBytes(m.g));
    }
    ChainLink(m.f, m.chain, i);
  }

  lemma {:induction false} WalkFollow(a: FileState, m: FileState, x: FileState, i: nat, clst: nat)
    requires SameFile(a, m) && Walking(m, i) && i + 1 < |m.chain| && clst == m.chain[i + 1]
    requires x == m.(v := x.v, w := x.w) && SameData(m.v, x.v, m.g) && m.g.Drifted(m.w, x.w)
    ensures var b := x.(clust := clst, fptr := m.fptr + ClusterBytes(m.g)); Walking(b, i + 1) && SameFile(a, b) && b.Guarded()
  {
    hide FileState.Held, Isolated, ClusterBytes;
    var b := x.(clust := clst, fptr := m.fptr + ClusterBytes(m.g));
    TableAccess(m, x);
    BytesStep(m.g, i);
    SameFileCursor(x, b);
    assert SameFile(m, x);
    SameFileTwice(m, x, b);
    SameFileTwice(a, m, b);
  }

  lemma {:induction false} WalkFailed(a: FileState, m: FileState, x: FileState, i: nat)
    requires SameFile(a, m) && Walking(m, i)
    requires (exists clst :: StretchResult(m, x, i, clst)) || (x == m.(v := x.v, w := x.w) && SameData(m.v, x.v, m.g) && m.g.Drifted(m.w, x.w))
    ensures x.Guarded() && Isolated(a, x)
    ensures x.(fptr := m.fptr + ClusterBytes(m.g)).Guarded() && Isolated(a, x.(fptr := m.fptr + ClusterBytes(m.g)))
    ensures Salvaged(a, x.(fptr := m.fptr + ClusterBytes(m.g)), a.size)
  {
    hide Salvaged, SameData, ClusterBytes;
    var b := x.(fptr := m.fptr + ClusterBytes(m.g));
    if clst :| StretchResult(m, x, i, clst) {
    } else {
      TableAccess(m, x);
      SoundSalvaged(m, x, m.size);
    }
    IsolatedTransitive(a, m, x);
    IsolatedSame(a, x, b);
    SameFileSalvaged(a, m, x);
    SalvagedSame(a, x, b, a.size);
  }

  /** A failure after the cursor's way over the chain has begun. */
  lemma {:induction false} SameFileSalvaged(a: FileState, m: FileState, b: FileState)
    requires SameFile(a, m) && Salvaged(m, b, m.size)
    ensures Salvaged(a, b, a.size)
  {
    hide Salvaged, Isolated, SameData, FileState.Held;
    assert |m.v| == |a.v| by { SameFileSizes(a, m); }
    SalvagedFrom(a, m, b, a.size, m.size);
  }

  lemma {:induction false} SameFileSizes(a: FileState, m: FileState)
    requires SameFile(a, m)
    ensures |m.v| == |a.v|
  {
  }

  /** The state of the walk. */
  ghost predicate OnTheWay(a: FileState, m: FileState, i: nat, rem: nat, target: nat) {
    SameFile(a, m) && Walking(m, i) && 0 < rem && m.fptr + rem == target && m.Guarded()
  }

  /** The walk has ended: with the rest of the offset inside the cluster, or for want of a cluster. */
  ghost predicate WalkEnd(a: FileState, m: FileState, i: nat, rem: nat, full: bool, target: nat) {
    if full then SameFile(a, m) && Arrived(m) && m.Rooted() && rem == 0 && m.fptr < target && m.fptr % SECTOR_SIZE == 0
    else OnTheWay(a, m, i, rem, target) && rem <= ClusterBytes(m.g)
  }

  lemma {:induction false} WayIsolated(a: FileState, m: FileState, i: nat, rem: nat, target: nat)
    requires OnTheWay(a, m, i, rem, target)
    ensures Isolated(a, m) && m.Guarded() && Walking(m, i) && m.fptr + rem == target && 0 < rem && m.g == a.g && m.g.csize > 0
    ensures m.size == a.size && m.writable == a.writable && ClusterBytes(m.g) > 0 && i < |m.chain| && SameFile(a, m)
  {
  }

  lemma {:induction false} ClustFree(a: FileState, b: FileState, clst: nat)
    requires b.Guarded() && Isolated(a, b)
    ensures b.(clust := clst).Guarded() && Isolated(a, b.(clust := clst))
  {
    IsolatedSame(a, b, b.(clust := clst));
  }

  /** One step of the walk in the three cases of its outcome. */
  lemma {:induction false} WayStep(a: FileState, m: FileState, x: FileState, i: nat, rem: nat, target: nat, clst: nat)
    requires OnTheWay(a, m, i, rem, target) && rem > ClusterBytes(m.g)
    requires if m.writable then StretchResult(m, x, i, clst)
             else x == m.(v := x.v, w := x.w) && SameData(m.v, x.v, m.g) && m.g.Drifted(m.w, x.w)
                  && (clst == DISK_ERROR || (i + 1 < |m.chain| && clst == m.chain[i + 1] >= 2))
    ensures var b := x.(fptr := m.fptr + ClusterBytes(m.g));
            && b.Guarded() && Isolated(a, b) && Salvaged(a, b, a.size)
            && b.(clust := clst).Guarded() && Isolated(a, b.(clust := clst))
            && (clst == 0 ==> WalkEnd(a, b, i, 0, true, target))
            && (clst >= 2 && clst != DISK_ERROR ==> OnTheWay(a, b.(clust := clst), i + 1, rem - ClusterBytes(m.g), target))
  {
    hide Walking, StretchResult, SameFile, Isolated, FileState.Guarded, Arrived, SameData, Salvaged;
    WayIsolated(a, m, i, rem, target);
    WalkFailed(a, m, x, i);
    ClustFree(a, x.(fptr := m.fptr + ClusterBytes(m.g)), clst);
    if clst == 0 { WalkFull(a, m, x, i); }
    if clst >= 2 && clst != DISK_ERROR {
      if m.writable { WalkStretch(a, m, x, i, clst); } else { WalkFollow(a, m, x, i, clst); }
    }
  }

  lemma {:induction false} WayStart(a: FileState, i: nat, rem: nat)
    requires Walking(a, i) && rem > 0
    ensures OnTheWay(a, a, i, rem, a.fptr + rem)
  {
    SameFileStart(a);
  }

  /** Where f_lseek's walk starts when the file has a cluster, or has just been given its first one. */
  ghost predicate SeekStarted(a: FileState, m: FileState, i: nat, rem: nat, full: bool, ofs: nat) {
    if full then SameFile(a, m) && m.Rooted() && m.fptr == 0
    else SameFile(a, m) && Walking(m, i) && 0 < rem && m.fptr + rem == ofs
  }

  lemma {:induction false} SeekStartHere(a: FileState, ofs: nat)
    requires a.Whole() && a.fptr > 0 && ofs > 0
    requires (ofs - 1) / ClusterBytes(a.g) >= (a.fptr - 1) / ClusterBytes(a.g)
    ensures var i := (a.fptr - 1) / ClusterBytes(a.g);
            CursorBack(a).fptr < ofs && SeekStarted(a, CursorBack(a), i, ofs - CursorBack(a).fptr, false, ofs)
  {
    hide FileState.Whole, FileState.Sound, SameFile, Walking, ClusterBytes;
    StartHere(a);
    BlockBefore(ofs - 1, a.fptr - 1, ClusterBytes(a.g));
  }

  /** The start of the block of p, when k is in it or in a later one. */
  lemma {:induction false} BlockBefore(k: nat, p: nat, n: nat)
    requires n > 0 && k / n >= p / n
    ensures p / n * n <= k
  {
    MulMono(p / n, k / n, n);
    assert k == n * (k / n) + k % n;
  }

  lemma {:induction false} SeekStartFirst(a: FileState, ofs: nat)
    requires a.Whole() && ofs > 0 && a.sclust != 0
    ensures SeekStarted(a, a.(fptr := 0, clust := a.sclust), 0, ofs, false, ofs)
  {
    StartFirst(a, a.(fptr := 0, clust := a.sclust));
  }

  lemma {:induction false} SeekStartNew(a: FileState, x: FileState, clst: nat, ofs: nat)
    requires a.Whole() && ofs > 0 && a.sclust == 0
    requires StretchResult(a.(fptr := 0), x, 0, clst)
    ensures x.Guarded() && Isolated(a, x) && x.(sclust := clst, clust := clst).Guarded() && Isolated(a, x.(sclust := clst, clust := clst))
    ensures Salvaged(a, x, a.size)
    ensures clst == 0 ==> SeekStarted(a, x.(sclust := 0, clust := 0), 0, 0, true, ofs)
    ensures clst >= 2 && clst != DISK_ERROR ==> SeekStarted(a, x.(sclust := clst, clust := clst), 0, ofs, false, ofs)
  {
    var a0 := a.(fptr := 0);
    var b := x.(sclust := clst, clust := clst);
    hide Salvaged;
    SameFileCursor(a, a0);
    SameFileSalvaged(a, a0, x);
    IsolatedTransitive(a, a0, x);
    IsolatedSame(a, x, b);
    if clst != DISK_ERROR {
      assert SameFile(a0, x);
      SameFileCursor(x, b);
      SameFileTwice(a, a0, x);
      SameFileTwice(a, x, b);
    }
  }

  lemma {:induction false} WholeBasics(a: FileState)
    requires a.Whole()
    ensures a.g.csize > 0 && ClusterBytes(a.g) > 0 && ClusterBytes(a.g) == a.g.csize * SECTOR_SIZE <= 0x1_0000 && a.fptr <= a.size && Isolated(a, a)
  {
    IsolatedReflexive(a);
  }

  lemma {:induction false} StartedIsolated(a: FileState, m: FileState, i: nat, rem: nat, full: bool, ofs: nat)
    requires SeekStarted(a, m, i, rem, full, ofs)
    ensures Isolated(a, m) && m.Guarded()
  {
  }

  lemma {:induction false} StartedFull(a: FileState, m: FileState, i: nat, ofs: nat)
    requires SeekStarted(a, m, i, 0, true, ofs) && ofs > 0
    ensures WalkEnd(a, m, i, 0, true, ofs)
  {
  }

  /** What f_lseek knows when it has set the cursor: the sector under it, unless it is on a boundary. */
  lemma {:induction false} SeekArrived(a: FileState, m: FileState, i: nat, rem: nat, full: bool, target: nat)
    requires WalkEnd(a, m, i, rem, full, target)
    ensures var b := m.(fptr := m.fptr + rem);
            && SameFile(a, b) && Arrived(b) && b.Rooted() && b.Guarded() && Grown(b).Guarded() && Isolated(a, Grown(b)) && b.g.csize > 0
            && (b.fptr % SECTOR_SIZE != 0 ==>
                  && !full && rem % SECTOR_SIZE != 0 && b.fptr / SECTOR_SIZE < Capacity(b.g, b.chain)
                  && Clst2Sect(b.g, b.clust) != 0
                  && Clst2Sect(b.g, b.clust) + rem / SECTOR_SIZE == SectorOf(b.g, b.chain, b.fptr / SECTOR_SIZE)
                  && SectorOf(b.g, b.chain, b.fptr / SECTOR_SIZE) < b.g.End() <= |b.v| <= NO_SECTOR
                  && SectorOf(b.g, b.chain, b.fptr / SECTOR_SIZE) != b.w)
            && (rem % SECTOR_SIZE != 0 ==> b.fptr % SECTOR_SIZE != 0)
            && b.fptr == if full then m.fptr else target
  {
    IsolatedSame(a, m, Grown(m.(fptr := m.fptr + rem)));
    if !full {
      Arrive(m, i, rem);
      SameFileCursor(m, m.(fptr := m.fptr + rem));
      SameFileTwice(a, m, m.(fptr := m.fptr + rem));
      if rem % SECTOR_SIZE != 0 {
        ArriveSector(m, i, rem);
      } else {
        RemainderWhole(m, i, rem);
      }
    }
  }

  lemma {:induction false} RemainderWhole(m: FileState, i: nat, rem: nat)
    requires Walking(m, i) && rem % SECTOR_SIZE == 0
    ensures (m.fptr + rem) % SECTOR_SIZE == 0
  {
    hide FileState.Sound, FileState.Rooted;
    SectorAhead(i, m.g.csize, rem);
  }

  /** What loading the sector under the new cursor does. */
  ghost predicate SeekLoaded(m: FileState, b: FileState) {
    && m.Guarded()
    && b == m.(v := b.v, dirty := b.dirty, sect := b.sect, b := b.b)
    && if m.fptr % SECTOR_SIZE == 0 then b == m
       else m.fptr / SECTOR_SIZE < Capacity(m.g, m.chain)
            && b.sect == SectorOf(m.g, m.chain, m.fptr / SECTOR_SIZE)
            && if m.sect == b.sect then b == m
               else b.v == m.FileView() && !b.dirty && b.sect < |b.v| && b.b == b.v[b.sect]
  }

  lemma {:induction false} SeekZero(a: FileState)
    requires a.Whole()
    ensures SeekDone(a, a.(fptr := 0)) && Isolated(a, a.(fptr := 0)) && a.(fptr := 0).Guarded()
  {
    SameFileCursor(a, a.(fptr := 0));
    assert Max(a.size, 0) == a.size;
  }

  lemma {:induction false} StartedWalking(a: FileState, m: FileState, i: nat, rem: nat, ofs: nat)
    requires SeekStarted(a, m, i, rem, false, ofs)
    ensures Walking(m, i) && 0 < rem && m.fptr + rem == ofs && m.size == a.size && m.writable == a.writable && SameFile(a, m)
  {
  }

  lemma {:induction false} WalkEndFrom(a: FileState, m: FileState, b: FileState, i: nat, rem: nat, full: bool, target: nat)
    requires SameFile(a, m) && WalkEnd(m, b, i, rem, full, target)
    ensures WalkEnd(a, b, i, rem, full, target)
  {
    hide SameFile, Walking;
    SameFileTwice(a, m, b);
  }

  lemma {:induction false} WalkEndSize(a: FileState, b: FileState, i: nat, rem: nat, full: bool, target: nat)
    requires WalkEnd(a, b, i, rem, full, target)
    ensures b.size == a.size && b.Guarded() && Isolated(a, b) && (full ==> b.fptr < target)
  {
  }

  lemma {:induction false} SeekDoneWhole(a: FileState, b: FileState)
    requires SeekDone(a, b)
    ensures b.Settled() && (b.Whole() <==> b.Cached()) && BufferKept(a, b)
    ensures b.Guarded() && b.Listed() && a.Guarded() && a.Listed() && a.Held() <= b.Held() && b.size == Max(a.size, b.fptr) && a.chain <= b.chain
  {
  }

  lemma {:induction false} StartedZero(a: FileState, m: FileState, i: nat, ofs: nat)
    requires exists rem: nat :: SeekStarted(a, m, i, rem, true, ofs)
    ensures SeekStarted(a, m, i, 0, true, ofs)
  {
  }
}
