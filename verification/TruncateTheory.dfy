/** What f_truncate does to an open file seen as a value. */
module TruncateTheory {
  import opened Arith
  import opened Volume
  import opened Clusters
  import opened ChainTheory
  import opened Chain
  import opened FileTheory
  import opened SeekTheory

  // ---------------------------------------------------------------- cutting a chain

  lemma {:induction false} SuffixChain(f: seq<nat>, ch: seq<nat>, k: nat)
    requires IsChain(f, ch) && k < |ch|
    ensures IsChain(f, ch[k..])
  {
    var t := ch[k..];
    forall i | 0 <= i < |t| - 1 ensures f[t[i]] == t[i + 1] {
      assert f[ch[k + i]] == ch[k + i + 1];
    }
  }

  /** The tail is a chain of the table in which the cluster before it has become the end of its own. */
  lemma {:induction false} CutTail(f: seq<nat>, ch: seq<nat>, k: nat, e: nat)
    requires IsChain(f, ch) && 0 < k < |ch|
    ensures IsChain(f[ch[k - 1] := e], ch[k..])
  {
    SuffixChain(f, ch, k);
    var t := ch[k..];
    forall i | 0 <= i < |t| ensures t[i] != ch[k - 1] {
      ChainDistinct(f, ch, k - 1, k + i);
    }
    forall i | 0 <= i < |t| - 1 ensures f[ch[k - 1] := e][t[i]] == t[i + 1] {
      assert f[t[i]] == t[i + 1];
    }
  }

  /** Removing the tail of a chain behind number k - 1 leaves the chain's first k clusters. */
  lemma {:induction false} CutChain(g: Geometry, f: seq<nat>, ch: seq<nat>, k: nat)
    requires IsChain(f, ch) && 0 < k < |ch| && g.Truncated(EOC) >= |f|
    ensures var h := Freed(Cut(g, f, ch[k - 1]), ch[k]); IsChain(h, ch[..k]) && Removed(f, h, ch[k..], ch[k - 1])
    ensures Trail(Cut(g, f, ch[k - 1]), ch[k]) == set c | c in ch[k..]
  {
    var cut := f[ch[k - 1] := g.Truncated(EOC)];
    var h := Freed(cut, ch[k]);
    CutTail(f, ch, k, g.Truncated(EOC));
    assert ch[k..][0] == ch[k];
    FreedChain(cut, ch[k..]);
    TrailOfChain(cut, ch[k..]);
    SuffixChain(f, ch, k);
    ChainLink(f, ch, k - 1);
    forall i | 0 <= i < k ensures ch[i] !in ch[k..] {
      forall j | 0 <= j < |ch[k..]| ensures ch[k..][j] != ch[i] {
        ChainDistinct(f, ch, i, k + j);
      }
    }
    var t := ch[..k];
    forall i | 0 <= i < |t| - 1 ensures h[t[i]] == t[i + 1] {
      ChainDistinct(f, ch, i, k - 1);
      assert f[ch[i]] == ch[i + 1];
    }
    hide IsChain;
    assert h[ch[k - 1]] == g.Truncated(EOC);
    PrefixIsChain(f, h, ch, k);
  }

  lemma {:induction false} PrefixIsChain(f: seq<nat>, h: seq<nat>, ch: seq<nat>, k: nat)
    requires IsChain(f, ch) && 0 < k < |ch| && |h| == |f| && h[ch[k - 1]] >= |h|
    requires forall i {:trigger h[ch[i]]} | 0 <= i < k - 1 :: h[ch[i]] == ch[i + 1]
    ensures IsChain(h, ch[..k])
  {
    var t := ch[..k];
    forall i | 0 <= i < |t| - 1 ensures h[t[i]] == t[i + 1] {
      assert h[ch[i]] == ch[i + 1];
    }
  }

  // ---------------------------------------------------------------- the file

  /** Clusters kept by a file that ends at the cursor. */
  function Kept(a: FileState): nat
    requires a.g.csize > 0
  {
    if a.fptr == 0 then 0 else ClusterIndex(a.g, a.fptr - 1) + 1
  }

  lemma {:induction false} KeptBounds(a: FileState)
    requires a.Whole()
    ensures Kept(a) <= |a.chain| && (a.fptr > 0 ==> a.clust == a.chain[Kept(a) - 1] && 2 <= a.clust < a.g.nFatent)
    ensures a.fptr <= Capacity(a.g, a.chain[..Kept(a)]) * SECTOR_SIZE
    ensures a.fptr < a.size ==> |a.chain| > 0 && 2 <= a.sclust < a.g.nFatent && a.sclust == a.chain[0]
    ensures a.g.nFatent < DISK_ERROR && a.Guarded() && a.g.csize > 0
  {
    hide FileState.Cached, IsChain, Distinct, OnChain, Geometry.End, IsClusterSize;
    if a.fptr > 0 {
      SectorIndex(a.g, a.chain, (a.fptr - 1) / SECTOR_SIZE);
      EnoughKept(a.fptr, a.g.csize);
    }
  }

  /** The clusters up to the one of byte n - 1 hold n bytes. */
  lemma {:induction false} EnoughKept(n: nat, c: nat)
    requires n > 0 && c > 0
    ensures n <= ((n - 1) / SECTOR_SIZE / c + 1) * c * SECTOR_SIZE
  {
    var q := (n - 1) / SECTOR_SIZE;
    assert q == c * (q / c) + q % c;
    assert (q / c + 1) * c == c * (q / c) + c;
    assert n <= (q + 1) * SECTOR_SIZE;
  }

  /** The file has been cut at its cursor. */
  ghost predicate Truncated(a: FileState, b: FileState) {
    && a.Sound() && b.Whole() && a.fptr <= a.size && a.g.csize > 0 && Kept(a) <= |a.chain|
    && b.chain == a.chain[..Kept(a)] && b.size == a.fptr && b.fptr == a.fptr && b.clust == a.clust
    && b.Held() == a.Held()[..a.fptr] && b.sect == a.sect && (a.UpToDate() ==> b.UpToDate())
  }

  /** The table change of a truncation that needs one. */
  ghost predicate CutTable(a: FileState, m: FileState) {
    && a.g.csize > 0 && Kept(a) < |a.chain|
    && m == a.(v := m.v, f := m.f, w := m.w) && SameData(a.v, m.v, a.g) && a.g.InFat1(m.w)
    && if Kept(a) == 0 then m.f == Freed(a.f, a.chain[0])
       else m.f == Freed(Cut(a.g, a.f, a.chain[Kept(a) - 1]), a.chain[Kept(a)])
  }

  /** The chain after the table change, and isolation of it. */
  lemma {:induction false} CutTableChain(a: FileState, m: FileState)
    requires a.Whole() && CutTable(a, m) && a.g.Truncated(EOC) >= a.g.nFatent
    ensures Distinct(a.chain[..Kept(a)]) && (Kept(a) > 0 ==> IsChain(m.f, a.chain[..Kept(a)])) && |m.f| == |a.f|
    ensures forall c {:trigger m.f[c]} | 0 <= c < |a.f| && c !in a.chain :: m.f[c] == a.f[c]
  {
    hide FileState.Whole, SameData, Freed, Cut;
    WholeChain(a);
    CutLinks(a.g, a.f, a.chain, Kept(a), m.f);
  }

  lemma {:induction false} WholeChain(a: FileState)
    requires a.Whole() && |a.chain| > 0
    ensures IsChain(a.f, a.chain) && Distinct(a.chain) && |a.f| == a.g.nFatent
  {
    hide FileState.Held, FileState.Cached, Placed, IsChain, Distinct;
  }

  lemma {:induction false} CutLinks(g: Geometry, f: seq<nat>, ch: seq<nat>, k: nat, h: seq<nat>)
    requires IsChain(f, ch) && Distinct(ch) && k < |ch| && g.Truncated(EOC) >= |f|
    requires h == if k == 0 then Freed(f, ch[0]) else Freed(Cut(g, f, ch[k - 1]), ch[k])
    ensures Distinct(ch[..k]) && (k > 0 ==> IsChain(h, ch[..k])) && |h| == |f|
    ensures forall c {:trigger h[c]} | 0 <= c < |f| && c !in ch :: h[c] == f[c]
  {
    hide Freed, Cut, IsChain;
    if k == 0 {
      FreedChain(f, ch);
    } else {
      CutChain(g, f, ch, k);
      assert Removed(f, h, ch[k..], ch[k - 1]);
    }
  }

  lemma {:induction false} CutIsolated(a: FileState, m: FileState, ch: seq<nat>)
    requires a.Guarded() && m == a.(v := m.v, f := m.f, w := m.w, chain := ch, sclust := m.sclust, size := m.size)
    requires SameData(a.v, m.v, a.g) && |m.f| == |a.f| && a.g.Drifted(a.w, m.w) && (forall c | c in ch :: c in a.chain)
    requires forall c {:trigger m.f[c]} | 2 <= c < |a.f| && c !in a.chain :: m.f[c] == a.f[c]
    ensures Isolated(a, m)
  {
    forall c: nat | c in m.chain ensures Available(a.f, a.chain, c) && 2 <= c < |a.f| { }
  }

  /** The file object after the cut: its buffer written back, its chain and size those of the part before the cursor. */
  function CutFile(a: FileState, m: FileState): FileState
    requires a.g.csize > 0 && Kept(a) <= |a.chain| && (a.dirty ==> a.sect < |m.v| && |a.b| == SECTOR_SIZE)
  {
    m.(v := Overlay(m.v, a.dirty, a.sect, a.b), dirty := false, chain := a.chain[..Kept(a)], size := a.fptr,
       sclust := if Kept(a) == 0 then 0 else a.sclust)
  }

  /** After the table change, or none, and with the buffer written back, the file is cut. */
  lemma {:induction false} TruncateEnd(a: FileState, m: FileState)
    requires a.Whole() && a.g.csize > 0 && Kept(a) <= |a.chain| && |m.v| == |a.v|
    requires if Kept(a) < |a.chain| then CutTable(a, m) && a.g.Truncated(EOC) >= a.g.nFatent else m == a.(v := m.v, w := m.w) && SameData(a.v, m.v, a.g) && a.g.Drifted(a.w, m.w)
    ensures Truncated(a, CutFile(a, m)) && Isolated(a, CutFile(a, m))
  {
    var b := CutFile(a, m);
    KeptBounds(a);
    if Kept(a) < |a.chain| {
      CutTableChain(a, m);
    } else {
      assert b.chain == a.chain;
    }
    assert forall c | c in b.chain :: c in a.chain;
    hide Isolated, CutTable, OnChain, Placed, Overlay, Capacity, Located, SectorOf;
    TruncateGuarded(a, m, b);
    TruncateCached(a, m, b);
    TruncateHeld(a, m, b);
    TruncateWhere(a, b);
    var x := m.(chain := b.chain, size := a.fptr, sclust := b.sclust);
    CutIsolated(a, x, b.chain);
    FlushIsolated(a, x, b);
  }

  lemma {:induction false} TruncateWhere(a: FileState, b: FileState)
    requires a.Whole() && a.g.csize > 0 && Kept(a) <= |a.chain| && b.g == a.g && b.Guarded()
    requires b.chain == a.chain[..Kept(a)] && b.fptr == a.fptr && b.size == a.fptr && b.clust == a.clust && b.sect == a.sect
    ensures b.Positioned()
  {
    hide SectorOf, Located, Capacity, Kept, Placed;
    KeptBounds(a);
    PrefixPosition(a.g, b.chain, a.chain[Kept(a)..], a.fptr, a.clust, |a.v|) by {
      assert b.chain + a.chain[Kept(a)..] == a.chain;
      assert Placed(a.g, a.chain, |a.v|);
    }
    assert b.chain + a.chain[Kept(a)..] == a.chain;
  }

  /** A position in the first clusters of a chain is the same in the chain made of them. */
  lemma {:induction false} PrefixPosition(g: Geometry, ch: seq<nat>, ext: seq<nat>, k: nat, clst: nat, n: nat)
    requires Placed(g, ch + ext, n) && k <= Capacity(g, ch) * SECTOR_SIZE
    requires k > 0 ==> Located(g, ch + ext, k - 1, clst)
    ensures Placed(g, ch, n)
    ensures k > 0 ==> Located(g, ch, k - 1, clst)
    ensures k % SECTOR_SIZE != 0 ==> k / SECTOR_SIZE < Capacity(g, ch) && k / SECTOR_SIZE < Capacity(g, ch + ext)
    ensures k % SECTOR_SIZE != 0 ==> SectorOf(g, ch, k / SECTOR_SIZE) == SectorOf(g, ch + ext, k / SECTOR_SIZE)
  {
    assert Placed(g, ch, n) by {
      assert forall i | 0 <= i < |ch| :: (ch + ext)[i] == ch[i];
    }
    if k > 0 {
      LocatedPrefix(g, ch, ext, k - 1, clst);
    }
    if k % SECTOR_SIZE != 0 {
      SectorOfPrefix(g, ch, ext, k / SECTOR_SIZE, n);
    }
  }

  lemma {:induction false} LocatedPrefix(g: Geometry, ch: seq<nat>, ext: seq<nat>, k: nat, clst: nat)
    requires g.csize > 0 && Located(g, ch + ext, k, clst) && k < Capacity(g, ch) * SECTOR_SIZE
    ensures Located(g, ch, k, clst)
  {
    SectorIndex(g, ch, k / SECTOR_SIZE);
  }

  lemma {:induction false} FlushIsolated(a: FileState, x: FileState, b: FileState)
    requires a.Guarded() && Isolated(a, x) && |x.v| == |a.v|
    requires b.g == x.g && b.f == x.f && b.w == x.w && b.chain == x.chain && b.v == Overlay(x.v, a.dirty, a.sect, a.b)
    ensures Isolated(a, b)
  {
    if a.dirty {
      assert OwnSector(a.g, a.f, a.chain, a.sect) by {
        var c: nat :| c in a.chain && a.g.InCluster(a.sect, c);
        assert Available(a.f, a.chain, c);
      }
    }
  }

  lemma {:induction false} TruncateGuarded(a: FileState, m: FileState, b: FileState)
    requires a.Whole() && a.g.csize > 0 && Kept(a) <= |a.chain|
    requires m == a.(v := m.v, f := m.f, w := m.w) && SameData(a.v, m.v, a.g) && |m.f| == |a.f|
    requires a.g.InFat1(m.w) || a.g.Drifted(a.w, m.w)
    requires b == m.(v := Overlay(m.v, a.dirty, a.sect, a.b), dirty := false, chain := a.chain[..Kept(a)], size := b.size, sclust := b.sclust)
    ensures b.Guarded()
  {
    hide OnChain, SameData, Kept, Overlay, IsChain, Distinct, FileState.Cached, FileState.Positioned, Geometry.Sound, Geometry.End, Capacity;
    SameDataSector(a.v, m.v, a.g, 0);
    var ch := a.chain[..Kept(a)];
    OnChainLonger(a.g, ch, a.chain[Kept(a)..], a.w);
    assert ch + a.chain[Kept(a)..] == a.chain;
    WindowOff(a.g, ch, a.w, m.w, |a.v|);
  }

  lemma {:induction false} TruncateCached(a: FileState, m: FileState, b: FileState)
    requires a.Whole() && a.g.csize > 0 && Kept(a) <= |a.chain|
    requires m == a.(v := m.v, f := m.f, w := m.w) && SameData(a.v, m.v, a.g)
    requires b == m.(v := Overlay(m.v, a.dirty, a.sect, a.b), dirty := false, chain := a.chain[..Kept(a)], size := a.fptr, sclust := b.sclust)
    requires b.Guarded() && a.fptr <= Capacity(a.g, b.chain) * SECTOR_SIZE
    ensures b.Cached() && (a.UpToDate() ==> b.UpToDate())
  {
    hide SectorOf, OnChain, Located, IsChain, Distinct, Geometry.Sound, Capacity, Shows, Kept, SameData;
    SameDataSector(a.v, m.v, a.g, a.sect);
    if Shows(a.g, b.chain, b.size, a.sect) {
      assert b.chain + a.chain[Kept(a)..] == a.chain;
      ShowsPrefix(a.g, b.chain, a.chain[Kept(a)..], b.size, a.sect, |a.v|);
      ShowsMore(a.g, a.chain, b.size, a.size, a.sect, |a.v|);
    }
  }

  lemma {:induction false} TruncateHeld(a: FileState, m: FileState, b: FileState)
    requires a.Whole() && a.g.csize > 0 && Kept(a) <= |a.chain|
    requires m == a.(v := m.v, f := m.f, w := m.w) && SameData(a.v, m.v, a.g)
    requires b == m.(v := Overlay(m.v, a.dirty, a.sect, a.b), dirty := false, chain := a.chain[..Kept(a)], size := a.fptr, sclust := b.sclust)
    requires b.Guarded() && a.fptr <= Capacity(a.g, b.chain) * SECTOR_SIZE
    ensures Contents(b.v, b.g, b.chain, a.fptr) == a.Held()[..a.fptr]
  {
    hide SectorOf, Located, OnChain, Shows, IsChain, ByteAt, Kept, Capacity, Geometry.Sound, FileState.Cached;
    var ch, ext := a.chain[..Kept(a)], a.chain[Kept(a)..];
    assert ch + ext == a.chain;
    TableChangeKeepsFile(a.v, m.v, a.g, a.chain, a.size, a.dirty, a.sect, a.b);
    PrefixContents(b.v, a.g, ch, ext, a.fptr);
    LongerFile(b.v, a.g, a.chain, a.fptr, a.size);
  }

  /** The entries a truncation may change are those of the file's own clusters. */
  lemma {:induction false} RemovalInChain(a: FileState)
    requires a.Whole() && a.g.csize > 0 && Kept(a) < |a.chain| && a.g.Truncated(EOC) >= a.g.nFatent
    ensures Kept(a) == 0 ==> Removal(a.g, a.f, a.chain[0], 0) <= set c | c in a.chain
    ensures Kept(a) > 0 ==> Removal(a.g, a.f, a.chain[Kept(a)], a.chain[Kept(a) - 1]) <= set c | c in a.chain
  {
    hide Freed, Trail, Kept, Geometry.Sound, Geometry.Truncated, FileState.Positioned, FileState.Cached, OnChain;
    var k := Kept(a);
    if k == 0 {
      TrailOfChain(a.f, a.chain);
      assert Cut(a.g, a.f, 0) == a.f;
    } else {
      RemovalOfTail(a.g, a.f, a.chain, k);
    }
  }

  lemma {:induction false} RemovalOfTail(g: Geometry, f: seq<nat>, ch: seq<nat>, k: nat)
    requires IsChain(f, ch) && 0 < k < |ch| && g.Truncated(EOC) >= |f|
    ensures Removal(g, f, ch[k], ch[k - 1]) <= set c | c in ch
  {
    hide Freed, Trail, Geometry.Truncated;
    CutChain(g, f, ch, k);
    assert forall c | c in ch[k..] :: c in ch;
  }

  /** A table change confined to the file's own clusters, finished or not. */
  lemma {:induction false} OwnTableChange(a: FileState, m: FileState, except: set<nat>)
    requires a.Guarded() && m == a.(v := m.v, f := m.f, w := m.w) && SameData(a.v, m.v, a.g) && a.g.Drifted(a.w, m.w)
    requires KeepsOthers(a.f, m.f, except) && except <= set c | c in a.chain
    ensures m.Guarded() && Isolated(a, m)
  {
    WindowOff(a.g, a.chain, a.w, m.w, |a.v|);
    CutIsolated(a, m, a.chain);
  }

  /** What the table says about the cluster of the cursor. */
  lemma {:induction false} LinkBehind(a: FileState)
    requires a.Whole() && a.fptr > 0 && a.g.csize > 0
    ensures 1 <= Kept(a) <= |a.chain| && 2 <= a.clust < |a.f| && InUse(a.f, a.clust)
    ensures if Kept(a) < |a.chain| then a.f[a.clust] == a.chain[Kept(a)] && 2 <= a.f[a.clust] < a.g.nFatent else a.f[a.clust] >= a.g.nFatent
  {
    KeptBounds(a);
    ChainUsed(a.f, a.chain);
    if Kept(a) < |a.chain| { ChainLink(a.f, a.chain, Kept(a) - 1); }
  }

  lemma {:induction false} SameKeeps(f: seq<nat>)
    ensures KeepsOthers(f, f, {})
  {
  }

  /** The links between the clusters kept are in the table. */
  ghost predicate LinksKept(a: FileState, f: seq<nat>)
    requires a.g.csize > 0 && Kept(a) <= |a.chain|
  {
    forall i {:trigger a.chain[i]} | 0 <= i < Kept(a) - 1 :: a.chain[i] < |f| && f[a.chain[i]] == a.chain[i + 1]
  }

  /** What a truncation that failed leaves: the bytes before the cursor and the way to them. */
  ghost predicate CutShort(a: FileState, b: FileState) {
    && a.Sound() && b.Guarded() && b.g == a.g && b.chain == a.chain && a.fptr <= a.size && a.g.csize > 0 && Kept(a) <= |a.chain|
    && LinksKept(a, b.f) && Contents(b.FileView(), b.g, b.chain, a.fptr) == a.Held()[..a.fptr]
  }

  /** Removing the clusters behind the cursor's, finished or not, leaves the links before it. */
  lemma {:induction false} LinksStay(a: FileState, f: seq<nat>)
    requires a.Whole() && a.g.csize > 0 && 0 < Kept(a) < |a.chain| && a.g.Truncated(EOC) >= a.g.nFatent
    requires KeepsOthers(a.f, f, Removal(a.g, a.f, a.chain[Kept(a)], a.chain[Kept(a) - 1]))
    ensures LinksKept(a, f)
  {
    hide Freed, Trail, Geometry.Sound, Geometry.Truncated, Kept;
    var k := Kept(a);
    CutChain(a.g, a.f, a.chain, k);
    forall i | 0 <= i < k - 1 ensures a.chain[i] < |f| && f[a.chain[i]] == a.chain[i + 1] {
      ChainLink(a.f, a.chain, i);
      NotBehind(a.f, a.chain, i, k - 1);
    }
  }

  lemma {:induction false} NotBehind(f: seq<nat>, ch: seq<nat>, i: nat, k: nat)
    requires IsChain(f, ch) && i < k < |ch|
    ensures ch[i] != ch[k] && ch[i] !in ch[k + 1..]
  {
    ChainDistinct(f, ch, i, k);
    var t := ch[k + 1..];
    forall j | 0 <= j < |t| ensures t[j] != ch[i] {
      ChainDistinct(f, ch, i, k + 1 + j);
    }
  }

  lemma {:induction false} LinksOwn(a: FileState)
    requires a.Whole() && a.g.csize > 0 && Kept(a) <= |a.chain|
    ensures LinksKept(a, a.f)
  {
    hide Geometry.Sound, Kept;
    forall i | 0 <= i < Kept(a) - 1 ensures a.chain[i] < |a.f| && a.f[a.chain[i]] == a.chain[i + 1] { ChainLink(a.f, a.chain, i); }
  }

  /** The table work, done or failed, and a buffer that could not be written back. */
  lemma {:induction false} FailedCut(a: FileState, m: FileState, b: FileState, res: FResult)
    requires a.Whole() && a.fptr < a.size && TableCut(a, m, res)
    requires b == m.(v := b.v, sclust := b.sclust, size := b.size) && b.Guarded() && b.FileView() == m.FileView()
    ensures CutShort(a, b)
  {
    hide Isolated, CutTable, OnChain, LinksKept, Kept, IsChain, Located, SectorOf, Shows;
    TableChangeKeepsFile(a.v, m.v, a.g, a.chain, a.size, a.dirty, a.sect, a.b);
    LongerFile(m.FileView(), a.g, a.chain, a.fptr, a.size);
  }

  /** The state after f_truncate's work on the table, done or failed. */
  ghost predicate TableCut(a: FileState, m: FileState, res: FResult) {
    && m == a.(v := m.v, f := m.f, w := m.w) && m.Guarded() && Isolated(a, m) && SameData(a.v, m.v, a.g)
    && a.g.csize > 0 && Kept(a) <= |a.chain| && |m.v| == |a.v| && a.g.Truncated(EOC) >= a.g.nFatent && LinksKept(a, m.f)
    && (res == Ok ==>
          if Kept(a) < |a.chain| then CutTable(a, m)
          else m.f == a.f && SameData(a.v, m.v, a.g) && a.g.Drifted(a.w, m.w))
  }

  lemma {:induction false} TableCutFacts(a: FileState, m: FileState, res: FResult)
    requires TableCut(a, m, res)
    ensures m == a.(v := m.v, f := m.f, w := m.w) && m.Guarded() && Isolated(a, m)
    ensures a.g.csize > 0 && Kept(a) <= |a.chain| && |m.v| == |a.v| && a.g.Truncated(EOC) >= a.g.nFatent
    ensures a.dirty ==> a.sect < |m.v| && |a.b| == SECTOR_SIZE
  {
  }

  lemma {:induction false} TableCutDone(a: FileState, m: FileState)
    requires TableCut(a, m, Ok)
    ensures a.g.csize > 0 && Kept(a) <= |a.chain|
    ensures if Kept(a) < |a.chain| then CutTable(a, m) && a.g.Truncated(EOC) >= a.g.nFatent else m == a.(v := m.v, w := m.w) && SameData(a.v, m.v, a.g) && a.g.Drifted(a.w, m.w)
  {
  }

  /** The truncation has come to its end: the buffer is on the disk too. */
  lemma {:induction false} CutDone(a: FileState, m: FileState)
    requires a.Whole() && TableCut(a, m, Ok)
    ensures a.g.csize > 0 && Kept(a) <= |a.chain| && (a.dirty ==> a.sect < |m.v| && |a.b| == SECTOR_SIZE)
    ensures Truncated(a, CutFile(a, m)) && Isolated(a, CutFile(a, m)) && CutFile(a, m).Guarded()
  {
    hide CutTable, SameData, Isolated, Truncated, CutFile, FileState.Whole, FileState.Guarded, LinksKept;
    TableCutFacts(a, m, Ok);
    TableCutDone(a, m);
    TruncateEnd(a, m);
    TruncatedGuarded(a, CutFile(a, m));
  }

  lemma {:induction false} FieldsIsolated(a: FileState, m: FileState, x: FileState)
    requires m.Guarded() && Isolated(a, m) && x == m.(sclust := x.sclust, size := x.size)
    ensures x.Guarded() && Isolated(a, x) && x.FileView() == m.FileView()
  {
    IsolatedSame(a, m, x);
  }

  lemma {:induction false} TruncatedGuarded(a: FileState, b: FileState)
    requires Truncated(a, b)
    ensures b.Guarded() && b.Whole() && b.Held() == a.Held()[..a.fptr] && b.sect == a.sect && (a.UpToDate() ==> b.UpToDate())
  {
  }

  lemma {:induction false} WholeHeld(a: FileState)
    requires a.Whole() && a.fptr >= a.size
    ensures a.Held()[..a.fptr] == a.Held()
  {
  }
}
