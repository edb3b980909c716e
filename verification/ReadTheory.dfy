/** What the steps of f_read do to an open file seen as a value. */
module ReadTheory {
  import opened Arith
  import opened Volume
  import opened Clusters
  import opened ChainTheory
  import opened FileTheory

  /** The bytes from the cursor on have been read, and the file is the same. */
  ghost predicate ReadDone(a: FileState, b: FileState, data: seq<Byte>) {
    && a.Sound() && b.Whole() && a.fptr + |data| <= a.size && BufferKept(a, b)
    && b == a.(v := b.v, w := b.w, clust := b.clust, dirty := b.dirty, sect := b.sect, b := b.b, fptr := a.fptr + |data|)
    && b.Held() == a.Held() && data == a.Held()[a.fptr..a.fptr + |data|]
  }

  lemma {:induction false} ReadWhole(a: FileState, b: FileState, data: seq<Byte>)
    requires ReadDone(a, b, data)
    ensures b.Whole() && b.Guarded() && b.fptr == a.fptr + |data| <= b.size == a.size && b.g == a.g && b.writable == a.writable
    ensures b.f == a.f && b.chain == a.chain && b.sclust == a.sclust && BufferKept(a, b)
    ensures a.Guarded() && a.Listed() && b.Held() == a.Held() && data == a.Held()[a.fptr..a.fptr + |data|]
  {
  }

  lemma {:induction false} ReadTwice(a: FileState, m: FileState, b: FileState, x: seq<Byte>, y: seq<Byte>)
    requires ReadDone(a, m, x) && ReadDone(m, b, y)
    ensures ReadDone(a, b, x + y)
  {
    hide FileState.Whole, FileState.Sound, FileState.Held, FileState.Guarded, FileState.Listed, BufferKept;
    ReadWhole(a, m, x);
    ReadWhole(m, b, y);
    BufferKeptTwice(a, m, b);
    SliceJoin(a.Held(), a.fptr, x, y);
    assert b == a.(v := b.v, w := b.w, clust := b.clust, dirty := b.dirty, sect := b.sect, b := b.b, fptr := a.fptr + |x + y|);
  }

  lemma {:induction false} SliceJoin(h: seq<Byte>, p: nat, x: seq<Byte>, y: seq<Byte>)
    requires p + |x| + |y| <= |h| && x == h[p..p + |x|] && y == h[p + |x|..p + |x| + |y|]
    ensures x + y == h[p..p + |x + y|]
  {
  }

  lemma {:induction false} ReadNothing(a: FileState)
    requires a.Whole()
    ensures ReadDone(a, a, [])
  {
  }

  // ---------------------------------------------------------------- following the chain

  /** At a cluster boundary inside the file the next cluster is the linked one. */
  lemma {:induction false} FollowBefore(a: FileState)
    requires a.Whole() && OnBoundary(a.g, a.fptr) && a.fptr < a.size
    ensures ClusterIndex(a.g, a.fptr) < |a.chain| && 2 <= a.chain[ClusterIndex(a.g, a.fptr)] < a.g.nFatent
    ensures a.fptr == 0 ==> a.sclust == a.chain[ClusterIndex(a.g, a.fptr)]
    ensures a.fptr > 0 ==> 2 <= a.clust < a.g.nFatent && a.f[a.clust] == a.chain[ClusterIndex(a.g, a.fptr)]
  {
    SectorIndex(a.g, a.chain, a.fptr / SECTOR_SIZE);
    if a.fptr > 0 {
      LocatedBefore(a.g, a.chain, a.fptr, a.clust);
      ChainLink(a.f, a.chain, ClusterIndex(a.g, a.fptr) - 1);
    }
  }

  /** A table access leaves the file as it was. */
  lemma {:induction false} TableAccess(a: FileState, m: FileState)
    requires a.Sound() && m == a.(v := m.v, w := m.w) && SameData(a.v, m.v, a.g) && a.g.Drifted(a.w, m.w)
    ensures m.Sound() && m.Held() == a.Held() && Isolated(a, m) && BufferKept(a, m)
  {
    hide Isolated;
    WindowOff(a.g, a.chain, a.w, m.w, |a.v|);
    TableChangeKeepsFile(a.v, m.v, a.g, a.chain, a.size, a.dirty, a.sect, a.b);
    SameDataSector(a.v, m.v, a.g, a.sect);
    TableIsolated(a, m);
  }

  lemma {:induction false} TableIsolated(a: FileState, m: FileState)
    requires a.Guarded() && m == a.(v := m.v, w := m.w) && SameData(a.v, m.v, a.g) && a.g.Drifted(a.w, m.w)
    ensures Isolated(a, m)
  {
    forall c: nat | c in m.chain ensures Available(a.f, a.chain, c) && 2 <= c < |a.f| { }
  }

  /** After the step onto the next cluster, when there was one, the cursor's byte has its cluster. */
  lemma {:induction false} FollowReady(a: FileState, m: FileState)
    requires a.Whole() && a.fptr < a.size
    requires if OnBoundary(a.g, a.fptr)
             then m == a.(v := m.v, w := m.w, clust := m.clust) && ClusterIndex(a.g, a.fptr) < |a.chain|
                  && m.clust == a.chain[ClusterIndex(a.g, a.fptr)] && SameData(a.v, m.v, a.g) && a.g.Drifted(a.w, m.w)
             else m == a
    ensures Ready(m) && m.Held() == a.Held() && Isolated(a, m) && BufferKept(a, m) && |m.v| == |a.v|
    ensures m.fptr % SECTOR_SIZE != 0 ==> m == a
  {
    hide Isolated;
    if OnBoundary(a.g, a.fptr) {
      LocatedHere(a.g, a.chain, a.fptr, m.clust);
      TableAccess(a, a.(v := m.v, w := m.w));
      assert Isolated(a, m) by { IsolatedSame(a, a.(v := m.v, w := m.w), m); }
      SameHeld(a.(v := m.v, w := m.w), m);
    } else {
      ReadyOffBoundary(a);
      IsolatedReflexive(a);
    }
  }

  // ---------------------------------------------------------------- direct transfers

  /** data with chunk i replaced by b. */
  function Replace(data: seq<Byte>, i: nat, b: seq<Byte>): (r: seq<Byte>)
    requires (i + 1) * SECTOR_SIZE <= |data| && |b| == SECTOR_SIZE
    ensures |r| == |data|
    ensures forall k {:trigger r[k]} | 0 <= k < |r| :: r[k] == if i * SECTOR_SIZE <= k < (i + 1) * SECTOR_SIZE then b[k - i * SECTOR_SIZE] else data[k]
  {
    data[..i * SECTOR_SIZE] + b + data[(i + 1) * SECTOR_SIZE..]
  }

  lemma {:induction false} ReplaceChunk(data: seq<Byte>, i: nat, b: seq<Byte>, j: nat)
    requires (i + 1) * SECTOR_SIZE <= |data| && |b| == SECTOR_SIZE && (j + 1) * SECTOR_SIZE <= |data|
    ensures Chunk(Replace(data, i, b), j) == if j == i then b else Chunk(data, j)
  {
    var r := Replace(data, i, b);
    forall k | 0 <= k < SECTOR_SIZE
      ensures Chunk(r, j)[k] == if j == i then b[k] else Chunk(data, j)[k]
    {
      assert Chunk(r, j)[k] == r[j * SECTOR_SIZE + k];
      assert i * SECTOR_SIZE <= j * SECTOR_SIZE + k < (i + 1) * SECTOR_SIZE <==> j == i;
    }
    if j == i { assert Chunk(r, j) == b; } else { assert Chunk(r, j) == Chunk(data, j); }
  }

  /** What f_read leaves in the caller's memory: the sectors read, one replaced by the dirty buffer. */
  function Patched(m: FileState, s: nat, cc: nat, raw: seq<Byte>): (data: seq<Byte>)
    requires |raw| == cc * SECTOR_SIZE && |m.b| == SECTOR_SIZE
    ensures |data| == |raw|
  {
    if m.dirty && s <= m.sect < s + cc then Replace(raw, m.sect - s, m.b) else raw
  }

  /** A transfer patched with the dirty buffer holds what the file's view holds. */
  lemma {:induction false} PatchedHolds(m: FileState, s: nat, cc: nat, raw: seq<Byte>)
    requires m.Guarded() && |raw| == cc * SECTOR_SIZE && Holds(m.v, s, cc, raw)
    ensures Holds(m.FileView(), s, cc, Patched(m, s, cc, raw))
  {
    hide Placed, OnChain, Chunk, Replace;
    var data := Patched(m, s, cc, raw);
    assert |data| == |raw| == cc * SECTOR_SIZE && |m.FileView()| == |m.v|;
    forall x: nat | s <= x < s + cc ensures x < |m.v| && m.FileView()[x] == Chunk(data, x - s) {
      assert x < |m.v| && m.v[x] == Chunk(raw, x - s);
      assert (x - s + 1) * SECTOR_SIZE <= |raw|;
      if m.dirty && s <= m.sect < s + cc { ReplaceChunk(raw, m.sect - s, m.b, x - s); }
    }
  }

  /** Whole sectors read from consecutive sectors of one cluster are the bytes of the file there. */
  lemma {:induction false} TransferRead(v: seq<Sector>, g: Geometry, ch: seq<nat>, size: nat, q0: nat, data: seq<Byte>, n: nat)
    requires Placed(g, ch, |v|) && |data| == n * SECTOR_SIZE
    requires q0 * SECTOR_SIZE + |data| <= size <= Capacity(g, ch) * SECTOR_SIZE && q0 % g.csize + n <= g.csize && q0 < Capacity(g, ch)
    requires Holds(v, SectorOf(g, ch, q0), n, data)
    ensures data == Contents(v, g, ch, size)[q0 * SECTOR_SIZE..q0 * SECTOR_SIZE + |data|]
  {
    hide Placed, SectorOf, Holds, ByteAt, Capacity;
    var c := Contents(v, g, ch, size);
    forall k | 0 <= k < |data| ensures data[k] == c[q0 * SECTOR_SIZE + k] {
      TransferByte(v, g, ch, q0, data, n, k);
      assert c[q0 * SECTOR_SIZE + k] == ByteAt(v, g, ch, q0 * SECTOR_SIZE + k);
    }
  }

  lemma {:induction false} ByteAhead(q: nat, k: nat)
    ensures (q * SECTOR_SIZE + k) / SECTOR_SIZE == q + k / SECTOR_SIZE && (q * SECTOR_SIZE + k) % SECTOR_SIZE == k % SECTOR_SIZE
  {
    assert q * SECTOR_SIZE + k == (q + k / SECTOR_SIZE) * SECTOR_SIZE + k % SECTOR_SIZE;
    DivModUnique(q + k / SECTOR_SIZE, k % SECTOR_SIZE, SECTOR_SIZE);
  }

  lemma {:induction false} ChunkAt(data: seq<Byte>, n: nat, k: nat)
    requires |data| == n * SECTOR_SIZE && k < |data|
    ensures k / SECTOR_SIZE < n && (k / SECTOR_SIZE + 1) * SECTOR_SIZE <= |data| && Chunk(data, k / SECTOR_SIZE)[k % SECTOR_SIZE] == data[k]
  {
  }

  lemma {:induction false} TransferByte(v: seq<Sector>, g: Geometry, ch: seq<nat>, q0: nat, data: seq<Byte>, n: nat, k: nat)
    requires Placed(g, ch, |v|) && |data| == n * SECTOR_SIZE && k < |data|
    requires q0 * SECTOR_SIZE + |data| <= Capacity(g, ch) * SECTOR_SIZE && q0 % g.csize + n <= g.csize && q0 < Capacity(g, ch)
    requires Holds(v, SectorOf(g, ch, q0), n, data)
    ensures q0 * SECTOR_SIZE + k < Capacity(g, ch) * SECTOR_SIZE && ByteAt(v, g, ch, q0 * SECTOR_SIZE + k) == data[k]
  {
    hide Capacity, SectorOf, Geometry.End, IsClusterSize, Chunk;
    var i := k / SECTOR_SIZE;
    ByteAhead(q0, k);
    ChunkAt(data, n, k);
    Consecutive(g, ch, q0, i, |v|);
    SectorOnChain(g, ch, q0 + i, |v|);
    assert v[SectorOf(g, ch, q0 + i)] == Chunk(data, i);
  }

  /** cc sectors from s, the sector of the cursor, on lie in the file and in one cluster. */
  ghost predicate ReadRun(m: FileState, s: nat, cc: nat) {
    && Ready(m) && m.fptr % SECTOR_SIZE == 0 && cc > 0 && m.fptr + cc * SECTOR_SIZE <= m.size && m.sect < POW32
    && m.fptr / SECTOR_SIZE % m.g.csize + cc <= m.g.csize
    && m.fptr / SECTOR_SIZE < Capacity(m.g, m.chain) && s == SectorOf(m.g, m.chain, m.fptr / SECTOR_SIZE)
  }

  lemma {:induction false} DirectRead(m: FileState, s: nat, raw: seq<Byte>, cc: nat)
    requires ReadRun(m, s, cc) && |raw| == cc * SECTOR_SIZE && Holds(m.v, s, cc, raw)
    ensures |m.b| == SECTOR_SIZE && ReadDone(m, m.(fptr := m.fptr + |raw|), Patched(m, s, cc, raw))
  {
    hide Located, SectorOf, Holds, Patched, Contents, OnChain, Placed;
    CursorSector(m);
    PatchedHolds(m, s, cc, raw);
    TransferRead(m.FileView(), m.g, m.chain, m.size, m.fptr / SECTOR_SIZE, Patched(m, s, cc, raw), cc);
    TransferLocated(m, cc);
  }

  // ---------------------------------------------------------------- through the buffer

  /** The buffer holds the sector under the cursor as the file means it. */
  ghost predicate Loaded(n: FileState) {
    Ready(n) && n.fptr / SECTOR_SIZE < Capacity(n.g, n.chain) && n.sect == SectorOf(n.g, n.chain, n.fptr / SECTOR_SIZE)
  }

  lemma {:induction false} LoadedInside(a: FileState)
    requires a.Whole() && Ready(a) && a.fptr % SECTOR_SIZE != 0
    ensures Loaded(a)
  {
  }

  /** Bytes taken from the buffer at the cursor are the bytes of the file there. */
  lemma {:induction false} BufferRead(n: FileState, data: seq<Byte>)
    requires Loaded(n) && 0 < |data| <= SECTOR_SIZE - n.fptr % SECTOR_SIZE && n.fptr + |data| <= n.size
    requires data == n.b[n.fptr % SECTOR_SIZE..n.fptr % SECTOR_SIZE + |data|]
    ensures ReadDone(n, n.(fptr := n.fptr + |data|), data)
  {
    hide Placed, OnChain, IsChain, SectorOf, Distinct, Loaded;
    BufferWhole(n, |data|);
    forall k | 0 <= k < |data| ensures data[k] == n.Held()[n.fptr + k] {
      BufferByte(n, k);
    }
  }

  lemma {:induction false} BufferByte(n: FileState, k: nat)
    requires Loaded(n) && k < SECTOR_SIZE - n.fptr % SECTOR_SIZE && n.fptr + k < n.size
    ensures n.Held()[n.fptr + k] == n.b[n.fptr % SECTOR_SIZE + k]
  {
    hide Placed, OnChain, IsChain, Distinct;
    CursorSector(n);
    assert n.FileView()[n.sect] == n.b;
    var q := n.fptr / SECTOR_SIZE;
    assert (n.fptr + k) / SECTOR_SIZE == q && (n.fptr + k) % SECTOR_SIZE == n.fptr % SECTOR_SIZE + k;
    assert n.Held()[n.fptr + k] == ByteAt(n.FileView(), n.g, n.chain, n.fptr + k);
  }

  lemma {:induction false} BufferWhole(n: FileState, k: nat)
    requires Loaded(n) && 0 < k <= SECTOR_SIZE - n.fptr % SECTOR_SIZE && n.fptr + k <= n.size
    ensures n.(fptr := n.fptr + k).Whole() && n.(fptr := n.fptr + k).Held() == n.Held()
  {
    var m := n.fptr + k;
    assert (m - 1) / SECTOR_SIZE == n.fptr / SECTOR_SIZE;
    assert m % SECTOR_SIZE != 0 ==> m / SECTOR_SIZE == n.fptr / SECTOR_SIZE;
  }

  /** The buffer, written back when dirty, loaded with the sector under the cursor. */
  lemma {:induction false} LoadStep(m: FileState, n: FileState)
    requires Ready(m) && n == m.(v := n.v, dirty := n.dirty, sect := n.sect, b := n.b)
    requires m.fptr / SECTOR_SIZE < Capacity(m.g, m.chain) && n.sect == SectorOf(m.g, m.chain, m.fptr / SECTOR_SIZE) < |m.v|
    requires if m.sect == n.sect then n == m else n.v == m.FileView() && !n.dirty && n.b == n.v[n.sect]
    ensures Loaded(n) && n.Guarded() && n.Held() == m.Held() && Isolated(m, n) && BufferKept(m, n)
  {
    hide Isolated;
    CursorSector(m);
    if m.sect == n.sect {
      IsolatedReflexive(m);
    } else {
      FlushKeeps(m);
      assert Isolated(m, n) by { OwnChange(m, n); }
    }
  }

  lemma {:induction false} ReadFrom(a: FileState, m: FileState, b: FileState, data: seq<Byte>)
    requires a.Sound() && ReadDone(m, b, data) && m.Held() == a.Held() && BufferKept(a, m)
    requires m == a.(v := m.v, w := m.w, clust := m.clust, dirty := m.dirty, sect := m.sect, b := m.b)
    ensures ReadDone(a, b, data)
  {
    hide FileState.UpToDate;
    BufferKeptTwice(a, m, b);
  }

  lemma {:induction false} GeometrySize(a: FileState)
    requires a.Whole()
    ensures a.g.nFatent < DISK_ERROR && a.g.Sound() && a.Guarded() && |a.v| <= NO_SECTOR
  {
  }

  lemma {:induction false} CursorOffWindow(a: FileState)
    requires Ready(a)
    ensures a.fptr / SECTOR_SIZE < Capacity(a.g, a.chain) && SectorOf(a.g, a.chain, a.fptr / SECTOR_SIZE) != a.w
  {
    CursorSector(a);
  }

  /** Neither the cursor nor the buffer matters for isolation and for the guard of a clean file. */
  lemma {:induction false} BufferIsolated(a: FileState, m: FileState, n: FileState)
    requires Isolated(a, m) && Ready(a) && m == a.(v := m.v, dirty := false) && |m.v| == |a.v|
    requires n == m.(b := n.b, sect := n.sect) && |n.b| == SECTOR_SIZE
    ensures Isolated(a, n) && n.Guarded()
  {
    IsolatedSame(a, m, n);
  }

  /** The table could not be read. */
  lemma {:induction false} FollowFailed(a: FileState, m: FileState)
    requires a.Whole() && m == a.(v := m.v, w := m.w, clust := m.clust) && SameData(a.v, m.v, a.g) && a.g.Drifted(a.w, m.w)
    ensures Salvaged(a, m, a.size)
  {
    hide Salvaged, BufferKept;
    var x := a.(v := m.v, w := m.w);
    TableAccess(a, x);
    SoundSalvaged(a, x, a.size);
    FollowGuarded(a, m);
    SalvagedSame(a, x, m, a.size);
  }

  /** The sector could not be read, or the buffer not written back. */
  lemma {:induction false} ReadFailed(a: FileState, m: FileState, b: FileState)
    requires a.Guarded() && a.Listed() && Ready(m) && m == a.(v := m.v, w := m.w, clust := m.clust) && m.Held() == a.Held() && |m.v| == |a.v|
    requires b == m.(v := b.v, dirty := b.dirty, sect := b.sect, b := b.b) && b.Guarded() && b.FileView() == m.FileView()
    ensures Salvaged(a, b, a.size)
  {
    hide Salvaged, FileState.Held;
    ViewSalvaged(m, b);
    SalvagedFrom(a, m, b, a.size, a.size);
  }

  lemma {:induction false} DoneSalvaged(a: FileState, m: FileState, b: FileState, data: seq<Byte>)
    requires ReadDone(a, m, data) && Isolated(a, m) && Salvaged(m, b, m.size)
    ensures Salvaged(a, b, a.size)
  {
    hide Salvaged, FileState.Held, BufferKept;
    SalvagedFrom(a, m, b, a.size, m.size);
  }

  /** A round of f_read from state a, with the chain followed in m. */
  lemma {:induction false} ReadJoin(a: FileState, m: FileState, n: FileState, data: seq<Byte>)
    requires a.Sound() && m == a.(v := m.v, w := m.w, clust := m.clust) && m.Guarded() && m.Held() == a.Held()
    requires n == m.(v := n.v, dirty := n.dirty, sect := n.sect, b := n.b) && n.Guarded() && n.Listed() && n.Held() == m.Held()
    requires ReadDone(n, n.(fptr := n.fptr + |data|), data) && BufferKept(a, m) && BufferKept(m, n)
    ensures ReadDone(a, n.(fptr := n.fptr + |data|), data)
  {
    hide FileState.UpToDate;
    BufferKeptTwice(a, m, n);
    ReadFrom(a, n, n.(fptr := n.fptr + |data|), data);
  }

  lemma {:induction false} FollowGuarded(a: FileState, m: FileState)
    requires a.Whole() && m == a.(v := m.v, w := m.w, clust := m.clust)
    requires SameData(a.v, m.v, a.g) && a.g.Drifted(a.w, m.w)
    ensures m.Guarded() && Isolated(a, m)
  {
    hide Isolated;
    var x := a.(v := m.v, w := m.w);
    TableAccess(a, x);
    IsolatedSame(a, x, m);
  }

  lemma {:induction false} WholeSound(a: FileState)
    requires a.Whole()
    ensures a.Sound() && a.Guarded() && a.Listed() && Isolated(a, a) && SameData(a.v, a.v, a.g) && a.fptr <= a.size
  {
    IsolatedReflexive(a);
  }

  lemma {:induction false} ReadyHeld(n: FileState)
    requires Ready(n)
    ensures n.Guarded() && n.Listed() && Isolated(n, n) && BufferKept(n, n)
  {
    IsolatedReflexive(n);
  }

  lemma {:induction false} LoadedReady(n: FileState)
    requires Loaded(n)
    ensures Ready(n)
  {
  }

  /** A run of the chain from the cursor on: off the window, and tested with the unsigned difference. */
  lemma {:induction false} RunInside(m: FileState, s: nat, cc: nat)
    requires ReadRun(m, s, cc)
    ensures !(s <= m.w < s + cc) && |m.b| == SECTOR_SIZE && s < POW32
    ensures Sub32(m.sect, s) < cc <==> s <= m.sect < s + cc
  {
    RunOnChain(m, cc);
    CursorSector(m);
    RunOffWindow(m, s, cc);
    Sub32IsRangeTest(m.sect, s, cc);
  }
}
