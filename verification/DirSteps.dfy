/** What the steps of the directory object do to its state. */
module DirSteps {
  import opened Arith
  import opened Volume
  import opened Clusters
  import opened ChainTheory
  import opened Chain
  import opened LfnTheory
  import opened LfnFiller
  import opened DirTheory
  import opened DirPlaceTheory

  // ---------------------------------------------------------------- following the chain

  /** i clusters have been left behind on the way to byte ofs. */
  ghost predicate Following(s: DirState, ofs: nat, i: nat, clst: nat, rest: nat) {
    && Sane(s) && i < |s.ch| && clst == s.ch[i] && rest + i * (s.g.csize * SECTOR_SIZE) == ofs
  }

  lemma {:induction false} FollowStart(s: DirState, ofs: nat)
    requires Sane(s) && s.ch != []
    ensures Following(s, ofs, 0, s.ch[0], ofs) && 1 <= s.g.csize <= 128
  {
    hide Geometry.End, Rooted;
  }

  lemma {:induction false} FollowFacts(s: DirState, ofs: nat, i: nat, clst: nat, rest: nat)
    requires Following(s, ofs, i, clst, rest) && rest >= s.g.csize * SECTOR_SIZE
    ensures 2 <= clst < s.g.nFatent == |s.f| && s.f[clst] >= 2 && 1 <= s.g.csize <= 128
    ensures i + 1 < |s.ch| ==> s.f[clst] == s.ch[i + 1] < |s.f|
    ensures i + 1 == |s.ch| ==> s.f[clst] >= |s.f| && ofs / ENTRY_SIZE >= 16 * SecCount(s.g, s.ch)
  {
    hide Geometry.End;
    if i + 1 < |s.ch| {
      ChainLink(s.f, s.ch, i);
    } else {
      PastChain(ofs, i, s.g.csize, rest);
    }
  }

  lemma {:induction false} PastChain(ofs: nat, i: nat, c: nat, rest: nat)
    requires rest + i * (c * SECTOR_SIZE) == ofs && rest >= c * SECTOR_SIZE
    ensures ofs / ENTRY_SIZE >= 16 * ((i + 1) * c)
  {
    assert (i + 1) * (c * SECTOR_SIZE) == 512 * ((i + 1) * c) by { assert (i + 1) * (c * 512) == ((i + 1) * c) * 512; }
    assert (i + 1) * (c * SECTOR_SIZE) == i * (c * SECTOR_SIZE) + c * SECTOR_SIZE;
  }

  lemma {:induction false} FollowNext(s: DirState, ofs: nat, i: nat, clst: nat, rest: nat)
    requires Sane(s) && i + 1 < |s.ch| && clst == s.ch[i + 1] && rest + s.g.csize * SECTOR_SIZE + i * (s.g.csize * SECTOR_SIZE) == ofs
    ensures Following(s, ofs, i + 1, clst, rest)
  {
    var c := s.g.csize * SECTOR_SIZE;
    assert (i + 1) * c == i * c + c;
  }

  /** The cluster of byte ofs of the directory and the offset in it. */
  predicate FollowedTo(s: DirState, ofs: nat, clst: nat, rest: nat) {
    && s.g.csize > 0 && rest < s.g.csize * SECTOR_SIZE && ofs / SECTOR_SIZE / s.g.csize < |s.ch| && clst == s.ch[ofs / SECTOR_SIZE / s.g.csize]
    && ofs / SECTOR_SIZE % s.g.csize == rest / SECTOR_SIZE && ofs % SECTOR_SIZE == rest % SECTOR_SIZE
  }

  lemma {:induction false} FollowEnd(s: DirState, t: DirState, ofs: nat, i: nat, clst: nat, rest: nat)
    requires Following(s, ofs, i, clst, rest) && Kept(s, t) && rest < s.g.csize * SECTOR_SIZE
    ensures FollowedTo(t, ofs, clst, rest)
  {
    hide Geometry.End, Geometry.Sound;
    FollowQuotients(ofs, i, s.g.csize, rest);
  }

  lemma {:induction false} FollowQuotients(ofs: nat, i: nat, c: nat, rest: nat)
    requires c > 0 && rest < c * 512 && rest + i * (c * 512) == ofs
    ensures ofs / 512 / c == i && ofs / 512 % c == rest / 512 && ofs % 512 == rest % 512
  {
    var q, r := rest / 512, rest % 512;
    assert i * (c * 512) == (i * c) * 512;
    assert ofs == (i * c + q) * 512 + r;
    DivModUnique(i * c + q, r, 512);
    assert q < c;
    DivModUnique(i, q, c);
  }

  lemma {:induction false} TableWindow(s: DirState, t: DirState)
    requires Sane(s) && |s.v| <= NO_SECTOR && s.g.Drifted(s.w, t.w)
    ensures WindowKept(s, t)
  {
    hide Foreign, Rooted, PlacedDir;
    DriftedKept(s, t);
  }

  /** The window over the cursor's sector, or nowhere after a failure. */
  lemma {:induction false} LoadWindow(s: DirState, t: DirState, j: nat)
    requires Sane(s) && Points(s, j) && |s.v| <= NO_SECTOR && t.w in {s.w, s.sect, NO_SECTOR}
    ensures WindowKept(s, t)
  {
    hide Foreign, Rooted, SecAt;
    OwnNotForeign(s, j / 16);
    if t.w == NO_SECTOR && Foreign(s, t.w) { ForeignInData(s, t.w); }
  }

  /** A table lookup moves nothing but the window. */
  lemma {:induction false} KeptByGet(s: DirState, t: DirState)
    requires Sane(s) && t == s.(v := t.v, w := t.w) && Agree(s.v, t.v, s.g) && WindowKept(s, t)
    ensures Kept(s, t) && Sane(t)
  {
    AgreeThenSame(s.v, t.v, t.v, s.g) by { SameDataRefl(t.v, s.g); }
    KeptSane(s, t);
  }

  // ---------------------------------------------------------------- setting and moving the cursor

  const MAX_DIR: nat := 0x20_0000

  /** The offset lies on an entry of the directory. */
  predicate OnEntry(s: DirState, ofs: nat) { ofs % ENTRY_SIZE == 0 && ofs < MAX_DIR && ofs / ENTRY_SIZE < 16 * SecCount(s.g, s.ch) }

  /** Moving the cursor alone keeps everything else. */
  lemma {:induction false} KeptMoved(s: DirState, t: DirState)
    requires Sane(s) && t == s.(dptr := t.dptr, sect := t.sect, clust := t.clust)
    ensures Kept(s, t) && Sane(t)
  {
    SameDataRefl(s.v, s.g);
  }

  /** The fixed root is the directory without a chain; other directories start at a cluster. */
  lemma {:induction false} RootKnown(s: DirState)
    requires Sane(s)
    ensures s.ch == [] <==> s.sclust == 0 && s.g.fsType != FAT32
    ensures s.ch != [] ==> s.ch[0] == (if s.sclust == 0 then s.g.dirbase else s.sclust) && 2 <= s.ch[0] < s.g.nFatent
    ensures s.g.nFatent >= 2 && s.g.csize > 0 && (s.sclust == 0 ==> s.g.dirbase < POW32)
  {
    hide IsClusterSize, Geometry.End;
    RootStarts(s);
    AreasOrdered(s.g);
  }

  lemma {:induction false} RootStarts(s: DirState)
    requires Sane(s)
    ensures s.ch != [] ==> 2 <= s.ch[0] < s.g.nFatent <= 0x1000_0000
  {
    hide Geometry.End, IsClusterSize;
  }

  lemma {:induction false} SdiStatic(s: DirState, ofs: nat)
    requires Sane(s) && s.ch == [] && ofs % ENTRY_SIZE == 0 && ofs < MAX_DIR
    ensures ofs / ENTRY_SIZE < s.g.nRootdir <==> OnEntry(s, ofs)
    ensures ofs / ENTRY_SIZE < s.g.nRootdir ==> Points(s.(dptr := ofs, clust := 0, sect := s.g.dirbase + ofs / SECTOR_SIZE), ofs / ENTRY_SIZE)
  {
    hide Geometry.End, Rooted, IsClusterSize;
    assert ofs / 512 == ofs / 32 / 16;
  }

  lemma {:induction false} SdiDynamic(s: DirState, ofs: nat, clst: nat, rest: nat)
    requires Sane(s) && s.ch != [] && ofs % ENTRY_SIZE == 0 && ofs < MAX_DIR && FollowedTo(s, ofs, clst, rest)
    ensures 2 <= clst < s.g.nFatent && OnEntry(s, ofs) && s.g.csize > 0 && rest < s.g.csize * SECTOR_SIZE
    ensures Points(s.(dptr := ofs, clust := clst, sect := ClusterTop(s.g, clst) + rest / SECTOR_SIZE), ofs / ENTRY_SIZE)
  {
    hide Geometry.End, Geometry.Sound, IsClusterSize, Rooted, Flat;
    var k := ofs / 512;
    assert ofs / 32 / 16 == k;
    QuotientInside(k, |s.ch|, s.g.csize);
    assert SecAt(s.g, s.ch, k) == ClusterTop(s.g, clst) + rest / SECTOR_SIZE;
    hide SecAt, ClusterTop;
  }

  /** For a cluster of the volume it is its first sector, never 0; its sectors are 32-bit numbers. */
  lemma {:induction false} Clst2SectIs(g: Geometry, c: Word32, r: nat)
    requires g.Sound() && 2 <= c < g.nFatent && r < g.csize
    ensures Clst2Sect(g, c) == ClusterTop(g, c) && 0 < ClusterTop(g, c) && ClusterTop(g, c) + r < POW32
  {
    hide IsClusterSize;
    AreasOrdered(g);
    TopBounds(g, c, r);
    hide Geometry.Sound, Geometry.End;
  }

  lemma {:induction false} TopBounds(g: Geometry, c: Word32, r: nat)
    requires g.Sound() && 2 <= c < g.nFatent && r < g.csize
    ensures 0 < g.database <= ClusterTop(g, c) && ClusterTop(g, c) + r < g.End()
  {
    hide IsClusterSize, Geometry.End;
    ClusterBounds(g, c, r);
    MulMono(0, c - 2, g.csize);
  }

  lemma {:induction false} SdiStaticBound(s: DirState, ofs: nat)
    requires Sane(s) && s.ch == [] && ofs < MAX_DIR
    ensures s.g.dirbase + ofs / SECTOR_SIZE < POW32 || ofs / ENTRY_SIZE >= s.g.nRootdir
  {
    hide IsClusterSize, Geometry.End;
    AreasOrdered(s.g);
    assert ofs / 512 == ofs / 32 / 16;
  }

  lemma {:induction false} SdiSector(s: DirState, clst: Word32, rest: nat)
    requires Sane(s) && 2 <= clst < s.g.nFatent && s.g.csize > 0 && rest < s.g.csize * SECTOR_SIZE
    ensures Clst2Sect(s.g, clst) == ClusterTop(s.g, clst) && 0 < ClusterTop(s.g, clst)
    ensures ClusterTop(s.g, clst) + rest / SECTOR_SIZE < POW32
  {
    Clst2SectIs(s.g, clst, rest / SECTOR_SIZE);
  }

  // ---------------------------------------------------------------- stretching

  predicate Blank(b: seq<Byte>) { forall i {:trigger b[i]} | 0 <= i < |b| :: b[i] == 0 }

  /** w is v with the sectors of cluster c zero, but for the mirror of the table. */
  ghost predicate Cleared(v: seq<Sector>, w: seq<Sector>, g: Geometry, c: nat) {
    |w| == |v| && forall s {:trigger w[s]} {:trigger v[s]} | 0 <= s < |v| && !g.InFat2(s) :: if g.InCluster(s, c) then Blank(w[s]) else w[s] == v[s]
  }

  /** The directory has got cluster c, zeroed, at its end; nothing else outside the tables has changed. */
  ghost predicate Stretched(s: DirState, t: DirState, c: nat) {
    && s.ch != [] && t == s.(v := t.v, f := t.f, ch := s.ch + [c], dptr := t.dptr, sect := t.sect, clust := t.clust, w := t.w) && WindowKept(s, t)
    && Allocated(s.f, t.f, s.ch[|s.ch| - 1], c) && |t.v| == |s.v|
    && (forall k {:trigger t.v[k]} | 0 <= k < |t.v| && s.g.InCluster(k, c) :: Blank(t.v[k]))
    && (forall k {:trigger t.v[k]} {:trigger s.v[k]} | 0 <= k < |t.v| && !s.g.InCluster(k, c) && !s.g.InFat1(k) && !s.g.InFat2(k) :: t.v[k] == s.v[k])
  }

  lemma {:induction false} StretchedBy(s: DirState, m: DirState, t: DirState, c: nat)
    requires Sane(s) && s.ch != [] && m == s.(v := m.v, f := m.f, w := m.w) && SameData(s.v, m.v, s.g) && Allocated(s.f, m.f, s.ch[|s.ch| - 1], c)
    requires t == m.(v := t.v, ch := s.ch + [c], dptr := t.dptr, sect := t.sect, clust := t.clust, w := t.w) && Cleared(m.v, t.v, s.g, c) && WindowKept(s, t)
    ensures Stretched(s, t, c)
  {
    hide Geometry.Sound, Geometry.End, Rooted, PlacedDir;
    forall k | 0 <= k < |t.v| && s.g.InCluster(k, c) ensures Blank(t.v[k]) { ClusterInArea(s.g, k, c) by { SoundOf(s); } }
  }

  lemma {:induction false} SoundOf(s: DirState)
    requires Sane(s)
    ensures s.g.Sound() && s.g.End() <= |s.v|
  {
  }

  /** A stretched directory is sound and its table has only grown, by unused entries. */
  lemma {:induction false} StretchedSane(s: DirState, t: DirState, c: nat)
    requires Sane(s) && Stretched(s, t, c)
    ensures Sane(t) && Extends(Entries(s), Entries(t)) && SecCount(t.g, t.ch) == SecCount(s.g, s.ch) + s.g.csize && s.g.csize > 0
  {
    StretchedChain(s, t, c);
    hide Geometry.Sound, Geometry.End, Rooted, PlacedDir, Flat, Stretched;
    StretchedFlat(s, t, c);
    FlatLength(s.v, s.g, s.ch);
    FlatLength(t.v, t.g, t.ch);
  }

  lemma {:induction false} StretchedChain(s: DirState, t: DirState, c: nat)
    requires Sane(s) && Stretched(s, t, c)
    ensures Sane(t) && SecCount(t.g, t.ch) == SecCount(s.g, s.ch) + s.g.csize && s.g.csize > 0 && 2 <= c < s.g.nFatent
  {
    hide Geometry.End, IsClusterSize;
    AppendChain(s.f, t.f, s.ch, c);
    assert (|s.ch| + 1) * s.g.csize == |s.ch| * s.g.csize + s.g.csize;
  }

  /** u is t followed by unused entries. */
  predicate Extends(t: seq<Entry>, u: seq<Entry>) {
    |t| <= |u| && (forall j {:trigger u[j]} | 0 <= j < |t| :: u[j] == t[j]) && forall j {:trigger u[j]} | |t| <= j < |u| :: Blank(u[j])
  }

  lemma {:induction false} StretchedFlat(s: DirState, t: DirState, c: nat)
    requires Sane(s) && Stretched(s, t, c) && Sane(t)
    ensures Extends(Flat(s.v, s.g, s.ch), Flat(t.v, t.g, t.ch))
  {
    hide Geometry.Sound, Geometry.End, Rooted, Flat, IsClusterSize, Stretched;
    StretchedChain(s, t, c);
    var n := 16 * SecCount(s.g, s.ch);
    FlatLength(s.v, s.g, s.ch);
    FlatLength(t.v, t.g, t.ch);
    forall j | 0 <= j < n ensures Flat(t.v, t.g, t.ch)[j] == Flat(s.v, s.g, s.ch)[j] { StretchedOld(s, t, c, j); }
    forall j | n <= j < 16 * SecCount(t.g, t.ch) ensures Blank(Flat(t.v, t.g, t.ch)[j]) { StretchedNew(s, t, c, j); }
  }

  lemma {:induction false} StretchedOld(s: DirState, t: DirState, c: nat, j: nat)
    requires Sane(s) && Stretched(s, t, c) && Sane(t) && j < 16 * SecCount(s.g, s.ch) <= 16 * SecCount(t.g, t.ch)
    ensures Flat(t.v, t.g, t.ch)[j] == Flat(s.v, s.g, s.ch)[j]
  {
    hide Geometry.End, Geometry.Sound, Rooted, Flat, IsClusterSize, Slot, SecAt;
    FlatAt(s.v, s.g, s.ch, j);
    FlatAt(t.v, t.g, t.ch, j);
    StretchedSector(s, t, c, j / 16);
  }

  lemma {:induction false} StretchedSector(s: DirState, t: DirState, c: nat, k: nat)
    requires Sane(s) && Stretched(s, t, c) && Sane(t) && k < SecCount(s.g, s.ch) <= SecCount(t.g, t.ch)
    ensures var x := SecAt(s.g, s.ch, k); x == SecAt(t.g, t.ch, k) && x < |s.v| == |t.v| && t.v[x] == s.v[x]
  {
    SecBounds(s.g, s.ch, k);
    IndexInChain(s.g, s.ch, k);
    hide Geometry.Sound, Geometry.End, Rooted, IsClusterSize;
    var i := k / s.g.csize;
    assert t.ch[i] == s.ch[i];
    NewCluster(s, t, c, i);
    var x := SecAt(s.g, s.ch, k);
    if s.g.InCluster(x, c) { ClusterUnique(s.g, x, s.ch[i], c); }
  }

  lemma {:induction false} NewCluster(s: DirState, t: DirState, c: nat, i: nat)
    requires Sane(s) && Stretched(s, t, c) && i < |s.ch|
    ensures s.ch[i] != c
  {
    IsChainOf(s);
    ChainUsed(s.f, s.ch);
    assert InUse(s.f, s.ch[i]);
  }

  lemma {:induction false} IsChainOf(s: DirState)
    requires Sane(s) && s.ch != []
    ensures IsChain(s.f, s.ch)
  {
  }

  lemma {:induction false} StretchedNew(s: DirState, t: DirState, c: nat, j: nat)
    requires Sane(s) && Stretched(s, t, c) && Sane(t) && 16 * SecCount(s.g, s.ch) <= j < 16 * SecCount(t.g, t.ch)
    ensures Blank(Flat(t.v, t.g, t.ch)[j])
  {
    hide Geometry.End, Rooted, Flat, IsClusterSize;
    FlatAt(t.v, t.g, t.ch, j);
    var k, n := j / 16, |s.ch|;
    SecBounds(t.g, t.ch, k);
    IndexInChain(t.g, t.ch, k);
    LastQuotient(k, n, s.g.csize);
    assert t.ch[n] == c;
    assert s.g.InCluster(SecAt(t.g, t.ch, k), c);
  }

  lemma {:induction false} LastQuotient(k: nat, n: nat, c: nat)
    requires c > 0 && n * c <= k && k / c < n + 1
    ensures k / c == n
  {
    DivMono(n * c, k, c);
    DivModUnique(n, 0, c);
  }

  /** Sector k belongs to a free cluster. */
  ghost predicate Spare(g: Geometry, f: seq<nat>, k: nat) {
    exists c: nat {:trigger g.InCluster(k, c)} :: g.InCluster(k, c) && c < |f| && f[c] == 0
  }

  /** Outside the tables only sectors of clusters that were free may differ. */
  ghost predicate OthersKept(s: DirState, t: DirState) {
    |t.v| == |s.v| && forall k {:trigger t.v[k]} {:trigger s.v[k]} | 0 <= k < |s.v| && !s.g.InFat1(k) && !s.g.InFat2(k) :: t.v[k] == s.v[k] || Spare(s.g, s.f, k)
  }

  /** Chains other than the directory's are still chains, and a well-formed table is still one. */
  ghost predicate ChainsKept(s: DirState, t: DirState) {
    && |t.f| == |s.f| && (WellFormed(s.f) ==> WellFormed(t.f))
    && (forall c {:trigger t.f[c]} | 0 <= c < |s.f| && t.f[c] == 0 :: s.f[c] == 0)
    && forall o: seq<nat> {:trigger IsChain(t.f, o)} | IsChain(s.f, o) && (s.ch == [] || o[|o| - 1] != s.ch[|s.ch| - 1]) ::
         IsChain(t.f, o) && (t.ch == [] || o[|o| - 1] != t.ch[|t.ch| - 1])
  }

  /** The directory is as it was or has grown by unused entries; nothing else in use has changed. */
  ghost predicate Grown(s: DirState, t: DirState) {
    && t == s.(v := t.v, f := t.f, ch := t.ch, dptr := t.dptr, sect := t.sect, clust := t.clust, w := t.w) && StrangersKept(s, t)
    && Sane(s) && Sane(t) && Extends(Entries(s), Entries(t)) && OthersKept(s, t) && ChainsKept(s, t)
  }

  lemma {:induction false} KeptGrown(s: DirState, t: DirState)
    requires Sane(s) && Kept(s, t)
    ensures Grown(s, t) && Entries(t) == Entries(s)
  {
    hide Entries, Rooted, PlacedDir, Geometry.Sound, Geometry.End, WellFormed;
    KeptSane(s, t);
    KeptStrangers(s, t);
  }

  lemma {:induction false} StretchedStrangers(s: DirState, t: DirState, c: nat)
    requires Sane(s) && Stretched(s, t, c)
    ensures StrangersKept(s, t)
  {
    hide Geometry.Sound, Geometry.End, Rooted, Foreign, Blank;
    assert s.ch[|s.ch| - 1] in s.ch;
    forall k: nat | k < |s.v| && Foreign(s, k) ensures t.v[k] == s.v[k] {
      ForeignInData(s, k) by { SoundOf(s); }
      if s.g.InCluster(k, c) { SpareNotForeign(s, k, c); }
    }
  }

  lemma {:induction false} StretchedGrown(s: DirState, t: DirState, c: nat)
    requires Sane(s) && Stretched(s, t, c)
    ensures Grown(s, t)
  {
    hide Entries, Extends, WellFormed, StrangersKept, WindowKept;
    StretchedStrangers(s, t, c);
    StretchedSane(s, t, c);
    assert OthersKept(s, t) by {
      forall k | 0 <= k < |s.v| && !s.g.InFat1(k) && !s.g.InFat2(k) ensures t.v[k] == s.v[k] || Spare(s.g, s.f, k) {
        hide Sane;
        if s.g.InCluster(k, c) { assert Spare(s.g, s.f, k); }
      }
    }
    StretchedChains(s, t, c);
    hide Sane, OthersKept, ChainsKept;
  }

  lemma {:induction false} StretchedChains(s: DirState, t: DirState, c: nat)
    requires Sane(s) && Stretched(s, t, c)
    ensures ChainsKept(s, t)
  {
    hide Entries, Extends, WellFormed, Sane;
    var last := s.ch[|s.ch| - 1];
    IsChainOf(s);
    if WellFormed(s.f) { AllocateKeepsWellFormed(s.f, t.f, last, c); }
    forall o: seq<nat> | IsChain(s.f, o) && o[|o| - 1] != last ensures IsChain(t.f, o) && o[|o| - 1] != c {
      AllocateKeepsChain(s.f, t.f, last, c, o);
      ChainUsed(s.f, o);
      assert InUse(s.f, o[|o| - 1]);
    }
  }

  lemma {:induction false} GrownTransitive(s: DirState, t: DirState, u: DirState)
    requires Grown(s, t) && Grown(t, u)
    ensures Grown(s, u)
  {
    hide Entries, WellFormed, Rooted, PlacedDir, Geometry.Sound, Geometry.End, StrangersKept;
    StrangersTransitive(s, t, u);
    assert OthersKept(s, u) by {
      hide ChainsKept, Extends;
      forall k | 0 <= k < |s.v| && !s.g.InFat1(k) && !s.g.InFat2(k) ensures u.v[k] == s.v[k] || Spare(s.g, s.f, k) {
        SpareBack(s, t, k);
        assert t.v[k] == s.v[k] || Spare(s.g, s.f, k);
        assert u.v[k] == t.v[k] || Spare(t.g, t.f, k);
      }
    }
    hide OthersKept;
    ExtendsTransitive(Entries(s), Entries(t), Entries(u)) by { hide ChainsKept; }
  }

  lemma {:induction false} SpareBack(s: DirState, t: DirState, k: nat)
    requires ChainsKept(s, t) && t.g == s.g
    ensures Spare(t.g, t.f, k) ==> Spare(s.g, s.f, k)
  {
    if Spare(t.g, t.f, k) {
      var c: nat :| t.g.InCluster(k, c) && c < |t.f| && t.f[c] == 0;
      assert s.f[c] == 0;
    }
  }

  lemma {:induction false} ExtendsTransitive(t: seq<Entry>, u: seq<Entry>, w: seq<Entry>)
    requires Extends(t, u) && Extends(u, w)
    ensures Extends(t, w)
  {
    forall j | 0 <= j < |w| ensures if j < |t| then w[j] == t[j] else Blank(w[j]) {
      if j < |u| { assert w[j] == u[j]; }
    }
  }

  // ---------------------------------------------------------------- one entry on

  /** What moving from entry j may come to. */
  ghost predicate Advanced(s: DirState, j: nat, stretch: bool, res: FResult, t: DirState)
    requires Sane(s)
  {
    match res
    case Ok => Grown(s, t) && Points(t, j + 1) && (!stretch ==> Kept(s, t))
    case NoFile => Kept(s, t) && j + 1 == |Entries(s)|
    case Denied => stretch && Kept(s, t)
    case DiskErr => !stretch ==> Kept(s, t)
    case _ => stretch && res == IntErr && Kept(s, t)
  }

  /** The arithmetic of the next offset. */
  lemma {:induction false} NextOffset(s: DirState, j: nat)
    requires Sane(s) && Points(s, j)
    ensures s.dptr + ENTRY_SIZE == 32 * (j + 1) && (s.dptr + ENTRY_SIZE >= MAX_DIR <==> j + 1 == MAX_ENTRIES)
    ensures (s.dptr + ENTRY_SIZE) % SECTOR_SIZE == 0 <==> (j + 1) % 16 == 0
    ensures (s.dptr + ENTRY_SIZE) / ENTRY_SIZE == j + 1 && (s.dptr + ENTRY_SIZE) / SECTOR_SIZE == (j + 1) / 16
    ensures (s.clust == 0 <==> s.ch == []) && 1 <= s.g.csize && s.g.nFatent >= 2
    ensures 0 < s.sect && s.sect + 1 < POW32 + 1
  {
    hide Geometry.End, Geometry.Sound, Rooted, IsClusterSize, SecAt, SecCount;
    CursorFacts(s, j);
  }

  lemma {:induction false} CursorFacts(s: DirState, j: nat)
    requires Sane(s) && Points(s, j)
    ensures 1 <= s.g.csize && s.g.nFatent >= 2 && 0 < s.sect < POW32 && (s.ch != [] ==> s.clust >= 2)
  {
    hide Geometry.End, Rooted, IsClusterSize, SecAt;
    EntryHere(s, j);
    AreasOrdered(s.g);
  }

  /** No entry is left behind the last one. */
  lemma {:induction false} NextEnds(s: DirState, j: nat)
    requires Sane(s) && Points(s, j)
    ensures j + 1 == MAX_ENTRIES || j + 1 == 16 * SecCount(s.g, s.ch) ==> j + 1 == |Entries(s)|
  {
    hide Geometry.End, Geometry.Sound, Rooted, Flat, SecAt;
    FlatLength(s.v, s.g, s.ch);
  }

  lemma {:induction false} GrownMoved(s: DirState, t: DirState, u: DirState)
    requires Grown(s, t) && u == t.(dptr := u.dptr, sect := u.sect, clust := u.clust)
    ensures Grown(s, u)
  {
    hide Rooted, PlacedDir, Geometry.Sound, Geometry.End, WellFormed, Flat, Extends, StrangersKept;
    StrangersMoved(s, t, u);
  }

  lemma {:induction false} StrangersMoved(s: DirState, t: DirState, u: DirState)
    requires StrangersKept(s, t) && u == t.(dptr := u.dptr, sect := u.sect, clust := u.clust)
    ensures StrangersKept(s, u)
  {
    hide Foreign, Others;
  }

  lemma {:induction false} ClearPlace(g: Geometry, c: Word32)
    requires g.Sound() && 2 <= c < g.nFatent
    ensures var top := Clst2Sect(g, c);
            && g.database <= top && top + g.csize <= g.End() <= POW32 && 1 <= g.csize && top < POW32
            && (forall s: nat {:trigger g.InCluster(s, c)} :: g.InCluster(s, c) <==> top <= s < top + g.csize)
            && g.fatbase + g.TableArea() <= g.database
  {
    hide IsClusterSize, Geometry.End;
    AreasOrdered(g);
    Clst2SectIs(g, c, 0);
    TopBounds(g, c, g.csize - 1);
  }

  lemma {:induction false} BlankEqual(a: seq<Byte>, b: seq<Byte>)
    requires Blank(a) && Blank(b) && |a| == |b|
    ensures a == b
  {
  }

  lemma {:induction false} AgreeCleared(u: seq<Sector>, v: seq<Sector>, w: seq<Sector>, g: Geometry, c: nat)
    requires Agree(u, v, g) && Cleared(v, w, g, c)
    ensures Cleared(u, w, g, c)
  {
    hide Blank;
  }

  lemma {:induction false} AllocateRefused(s: DirState, m: DirState)
    requires Sane(s) && m == s.(v := m.v, w := m.w) && SameData(s.v, m.v, s.g) && WindowKept(s, m)
    ensures Kept(s, m) && Sane(m)
  {
    hide Sane;
    KeptSane(s, m);
  }

  lemma {:induction false} AllocateBounds(s: DirState, m: DirState, c: nat)
    requires Sane(s) && s.ch != [] && Allocated(s.f, m.f, s.ch[|s.ch| - 1], c)
    ensures 2 <= c < s.g.nFatent
  {
    RootStarts(s);
  }

  /** The cursor on the entry after j of a directory that has just been stretched behind j. */
  lemma {:induction false} FarStretched(s: DirState, j: nat, s1: DirState, x: DirState, c: nat)
    requires Sane(s) && AtClusterEnd(s, j) && CursorCluster(s, j) + 1 == |s.ch| && j + 1 < MAX_ENTRIES
    requires s1 == s.(v := s1.v, sect := s1.sect, w := s1.w) && Kept(s, s1) && Stretched(s1, x, c) && x.dptr == s.dptr && x.clust == s.clust
    ensures var y := x.(dptr := 32 * (j + 1), clust := c, sect := ClusterTop(s.g, c)); Grown(s, y) && Points(y, j + 1)
  {
    hide Sane, Stretched, AtClusterEnd, Grown, Points, Geometry.Sound;
    KeptGrown(s, s1);
    StretchedGrown(s1, x, c) by { KeptSane(s, s1); }
    GrownTransitive(s, s1, x);
    StretchedLink(s, j, s1, x, c);
    var y := x.(dptr := 32 * (j + 1), clust := c, sect := ClusterTop(s.g, c));
    GrownMoved(s, x, y);
  }

  lemma {:induction false} StretchedLink(s: DirState, j: nat, s1: DirState, x: DirState, c: nat)
    requires Sane(s) && AtClusterEnd(s, j) && CursorCluster(s, j) + 1 == |s.ch| && j + 1 < MAX_ENTRIES
    requires s1 == s.(v := s1.v, sect := s1.sect, w := s1.w) && Kept(s, s1) && Stretched(s1, x, c) && x.dptr == s.dptr && x.clust == s.clust
    ensures Points(x.(dptr := 32 * (j + 1), clust := c, sect := ClusterTop(s.g, c)), j + 1)
  {
    hide Geometry.Sound, Geometry.End, Rooted, IsClusterSize, SecAt, Flat, PlacedDir;
    KeptSane(s, s1);
    AdvanceEnd(s, j);
    FarIndex(s, j);
    StretchedSane(s1, x, c);
    StretchedSector(s1, x, c, j / 16);
    SameSector(s, s1, j / 16);
    var z := x.(sect := s.sect);
    assert Points(z, j);
    AdvanceLink(z, j);
  }

  lemma {:induction false} SameSector(s: DirState, t: DirState, k: nat)
    requires Sane(s) && Sane(t) && s.g == t.g && s.ch == t.ch && k < SecCount(s.g, s.ch)
    ensures SecAt(s.g, s.ch, k) == SecAt(t.g, t.ch, k)
  {
  }

  /** A disk error while the table was to be stretched leaves the window in doubt. */
  predicate Lost(stretch: bool, res: FResult) { stretch && res == DiskErr }

  lemma {:induction false} SaneMoved(s: DirState, t: DirState)
    requires Sane(s) && t == s.(dptr := t.dptr, sect := t.sect, clust := t.clust)
    ensures Sane(t)
  {
  }

  lemma {:induction false} FarFacts(s: DirState, j: nat)
    requires Sane(s) && AtClusterEnd(s, j) && j + 1 < MAX_ENTRIES
    ensures 2 <= s.clust < |s.f| == s.g.nFatent <= 0x1000_0000 && s.f[s.clust] >= 2 && s.ch != []
    ensures s.f[s.clust] < |s.f| <==> CursorCluster(s, j) + 1 < |s.ch|
  {
    hide Geometry.End, IsClusterSize, AtClusterEnd, Points;
    FarIndex(s, j);
    if CursorCluster(s, j) + 1 < |s.ch| { AdvanceLink(s, j); } else { AdvanceEnd(s, j); }
  }

  lemma {:induction false} FarGot(s: DirState, s1: DirState, s2: DirState)
    requires Sane(s) && s1 == s.(sect := s1.sect) && s2 == s1.(v := s2.v, w := s2.w) && Agree(s1.v, s2.v, s.g) && WindowKept(s, s2)
    ensures Kept(s, s2) && Sane(s2)
  {
    hide Rooted, PlacedDir, Geometry.Sound, Geometry.End;
    assert s.g.Sound() by { SoundOf(s); }
    AgreeThenSame(s1.v, s2.v, s2.v, s.g) by { SameDataRefl(s2.v, s.g); }
    KeptSane(s, s2);
  }

  lemma {:induction false} FarFailed(s: DirState, j: nat, stretch: bool, res: FResult, t: DirState)
    requires Sane(s) && AtClusterEnd(s, j) && j + 1 < MAX_ENTRIES && Kept(s, t.(sect := s.sect))
    requires res == DiskErr || (res == NoFile && s.clust < |s.f| && s.f[s.clust] >= |s.f|)
    ensures Advanced(s, j, stretch, res, t) && Sane(t)
  {
    hide Sane, AtClusterEnd, Points;
    KeptSane(s, t);
    if res == NoFile {
      FarFacts(s, j);
      FarIndex(s, j);
      AdvanceEnd(s, j);
      NextEnds(s, j) by { PointsOf(s, j); }
    }
  }

  lemma {:induction false} PointsOf(s: DirState, j: nat)
    requires AtClusterEnd(s, j)
    ensures Points(s, j)
  {
  }

  lemma {:induction false} FarLinked(s: DirState, j: nat, stretch: bool, s2: DirState)
    requires Sane(s) && AtClusterEnd(s, j) && j + 1 < MAX_ENTRIES && s2 == s.(v := s2.v, sect := s2.sect, w := s2.w) && Kept(s, s2)
    requires s.clust < |s.f| && s.f[s.clust] < |s.f|
    ensures var c := s.f[s.clust];
            && 2 <= c < s.g.nFatent <= 0x1000_0000 && Clst2Sect(s.g, c) == ClusterTop(s.g, c) < POW32
            && var t := s2.(dptr := 32 * (j + 1), clust := c, sect := ClusterTop(s.g, c)); Advanced(s, j, stretch, Ok, t) && Sane(t) && Sane(t.(dptr := s.dptr))
  {
    hide Sane, AtClusterEnd, Geometry.Sound;
    FarFacts(s, j);
    AdvanceLink(s, j);
    SoundOf(s);
    RootKnown(s);
    var c := s.f[s.clust];
    Clst2SectIs(s.g, c, 0);
    var t := s2.(dptr := 32 * (j + 1), clust := c, sect := ClusterTop(s.g, c));
    KeptGrown(s, t);
    SaneMoved(t, t.(dptr := s.dptr)) by { KeptSane(s, t); }
  }

  lemma {:induction false} FarEnd(s: DirState, j: nat, s2: DirState)
    requires Sane(s) && AtClusterEnd(s, j) && j + 1 < MAX_ENTRIES && s2 == s.(v := s2.v, sect := s2.sect, w := s2.w) && Kept(s, s2)
    requires s.clust < |s.f| && s.f[s.clust] >= |s.f|
    ensures s.clust == s.ch[|s.ch| - 1]
  {
    hide Sane, AtClusterEnd;
    FarFacts(s, j);
    FarIndex(s, j);
    AdvanceEnd(s, j);
  }

  lemma {:induction false} FarGrown(s: DirState, j: nat, s2: DirState, x: DirState, c: Word32)
    requires Sane(s) && AtClusterEnd(s, j) && j + 1 < MAX_ENTRIES && s2 == s.(v := s2.v, sect := s2.sect, w := s2.w) && Kept(s, s2)
    requires s.clust < |s.f| && s.f[s.clust] >= |s.f| && Stretched(s2, x, c) && x.dptr == s.dptr && x.clust == s.clust
    ensures 2 <= c < s.g.nFatent && Clst2Sect(s.g, c) == ClusterTop(s.g, c) < POW32
    ensures var t := x.(dptr := 32 * (j + 1), clust := c, sect := ClusterTop(s.g, c)); Advanced(s, j, true, Ok, t) && Sane(t) && Sane(t.(dptr := s.dptr))
  {
    hide Sane, AtClusterEnd, Stretched, Points, Geometry.Sound;
    FarFacts(s, j);
    FarIndex(s, j);
    FarStretched(s, j, s2, x, c);
    StretchedChain(s2, x, c) by { KeptSane(s, s2); }
    SoundOf(s);
    Clst2SectIs(s.g, c, 0);
    SaneMoved(x, x.(clust := c, sect := ClusterTop(s.g, c)));
  }

  lemma {:induction false} FarRefused(s: DirState, j: nat, s2: DirState, x: DirState, res: FResult)
    requires Sane(s) && Kept(s, s2) && Kept(s2, x) && (res == Denied || res == IntErr)
    ensures Advanced(s, j, true, res, x) && Sane(x)
  {
    KeptTransitive(s, s2, x);
    KeptSane(s, x);
  }

  lemma {:induction false} SectorFacts(s: DirState, j: nat)
    requires Sane(s) && Points(s, j) && |s.v| <= 0xFFFF_FFFF
    ensures 0 < s.sect && s.sect + 1 < POW32 && (s.clust == 0 <==> s.ch == []) && 1 <= s.g.csize && 32 * (j + 1) / SECTOR_SIZE == (j + 1) / 16
  {
    hide Geometry.Sound;
    EntryHere(s, j);
    CursorFacts(s, j);
  }

  lemma {:induction false} RootAdvanced(s: DirState, j: nat, stretch: bool, res: FResult, t: DirState)
    requires Sane(s) && Points(s, j) && j + 1 < MAX_ENTRIES && (j + 1) % 16 == 0 && s.ch == []
    requires if j + 1 >= s.g.nRootdir then res == NoFile && t == s.(sect := 0) else res == Ok && t == s.(sect := s.sect + 1)
    ensures Advanced(s, j, stretch, res, if res == Ok then t.(dptr := 32 * (j + 1)) else t) && Sane(t)
  {
    hide Sane, Points;
    AdvanceNear(s, j);
    KeptMoved(s, t);
    if res == Ok {
      KeptMoved(s, t.(dptr := 32 * (j + 1)));
      KeptGrown(s, t.(dptr := 32 * (j + 1)));
    } else {
      PointsInside(s, j);
      NextEnds(s, j);
    }
  }

  lemma {:induction false} PointsInside(s: DirState, j: nat)
    requires Points(s, j)
    ensures j < 16 * SecCount(s.g, s.ch) && j < MAX_ENTRIES
  {
  }

  lemma {:induction false} InnerAdvanced(s: DirState, j: nat, stretch: bool, t: DirState)
    requires Sane(s) && Points(s, j) && j + 1 < MAX_ENTRIES && (j + 1) % 16 == 0 && s.ch != []
    requires s.g.csize > 0 && (j + 1) / 16 % s.g.csize != 0 && t == s.(sect := s.sect + 1)
    ensures Advanced(s, j, stretch, Ok, t.(dptr := 32 * (j + 1))) && Sane(t)
  {
    hide Sane, Points;
    AdvanceNear(s, j);
    KeptMoved(s, t);
    KeptMoved(s, t.(dptr := 32 * (j + 1)));
    KeptGrown(s, t.(dptr := 32 * (j + 1)));
  }

  lemma {:induction false} NearAdvanced(s: DirState, j: nat, stretch: bool)
    requires Sane(s) && Points(s, j) && j + 1 < MAX_ENTRIES && (j + 1) % 16 != 0
    ensures Advanced(s, j, stretch, Ok, s.(dptr := 32 * (j + 1)))
  {
    hide Sane, Points;
    AdvanceNear(s, j);
    KeptMoved(s, s.(dptr := 32 * (j + 1)));
    KeptGrown(s, s.(dptr := 32 * (j + 1)));
  }

  lemma {:induction false} EndAdvanced(s: DirState, j: nat, stretch: bool, t: DirState)
    requires Sane(s) && Points(s, j) && j + 1 == MAX_ENTRIES && t == s.(sect := 0)
    ensures Advanced(s, j, stretch, NoFile, t) && Sane(t)
  {
    hide Sane, Points;
    NextEnds(s, j);
    KeptMoved(s, t);
  }

  lemma {:induction false} AtEnd(s: DirState, j: nat)
    requires Sane(s) && Points(s, j) && s.ch != [] && s.g.csize > 0 && (j + 1) % 16 == 0 && (j + 1) / 16 % s.g.csize == 0
    ensures AtClusterEnd(s, j)
  {
  }

  // ---------------------------------------------------------------- searching

  lemma {:induction false} PointsKept(s: DirState, t: DirState, j: nat)
    requires Points(s, j) && t == s.(v := t.v, w := t.w)
    ensures Points(t, j)
  {
  }

  lemma {:induction false} OnEntrySame(s: DirState, t: DirState, ofs: nat)
    requires Kept(s, t)
    ensures OnEntry(s, ofs) <==> OnEntry(t, ofs)
  {
  }

  lemma {:induction false} NonEmpty(s: DirState)
    requires Sane(s)
    ensures OnEntry(s, 0)
  {
    hide Geometry.End, IsClusterSize;
    assert s.ch == [] ==> s.g.RootSectors() * 16 == s.g.nRootdir && s.g.fsType != FAT32;
    if s.ch != [] { MulMono(1, |s.ch|, s.g.csize); }
  }

  lemma {:induction false} OrderPositive(up: Folding, lfn: LfnBuf, e: Entry)
    ensures CmpLfn(up, lfn, e) ==> WithoutLast(Order(e)) > 0
    ensures HasLast(e[0]) ==> e[0] >= LAST_LONG
  {
  }

  /** A search has passed the entries before j, where the cursor is, with state sc. */
  ghost predicate Searches(t: DirState, up: Folding, key: Key, j: nat, sc: Scan) {
    Sane(t) && Points(t, j) && j < |Entries(t)| && Passes(up, key, Entries(t), j) && ScanAt(up, key, Entries(t), j) == sc
  }

  /** The cursor is at the entry a search stops at, and block is where its name begins. */
  ghost predicate FoundHere(t: DirState, up: Folding, key: Key, block: nat) {
    var j := t.dptr / ENTRY_SIZE;
    Sane(t) && Points(t, j) && FoundAt(up, key, Entries(t), j) && At(up, key, Entries(t), j).scan.block == block
  }

  lemma {:induction false} SearchBegin(up: Folding, key: Key, t: DirState)
    requires Sane(t) && Points(t, 0)
    ensures Searches(t, up, key, 0, FRESH)
  {
    hide Sane, Points, Entries;
    EntryHere(t, 0);
  }

  lemma {:induction false} SearchPoints(t: DirState, up: Folding, key: Key, j: nat, sc: Scan)
    requires Searches(t, up, key, j, sc)
    ensures Points(t, j) && Sane(t)
  {
    hide Sane, Points;
  }

  lemma {:induction false} SearchKept(s: DirState, u: DirState, w: DirState, up: Folding, key: Key, j: nat, sc: Scan)
    requires Sane(s) && Kept(s, u) && Kept(u, w) && Searches(u, up, key, j, sc) && Points(w, j)
    ensures Kept(s, w) && Searches(w, up, key, j, sc) && j < |Entries(s)| && w.dptr == 32 * j
  {
    hide Sane, Entries, ScanAt, Passes;
    KeptTransitive(s, u, w);
    KeptSane(s, w);
    KeptSane(u, w);
  }

  /** What the treatment of entry j settles. */
  lemma {:induction false} SearchExamined(t: DirState, up: Folding, key: Key, j: nat, sc: Scan, e: Entry, o: Outcome)
    requires Searches(t, up, key, j, sc) && e == Entries(t)[j] && o == FindStep(up, key, sc, e, t.dptr)
    ensures o.End? ==> Absent(up, key, Entries(t))
    ensures o.Hit? ==> FoundHere(t, up, key, o.scan.block)
    ensures o.Go? ==> Passes(up, key, Entries(t), j + 1) && ScanAt(up, key, Entries(t), j + 1) == o.scan
  {
    hide Rooted, PlacedDir, Geometry.Sound, Geometry.End, Entries, FindStep, SecAt, SecCount;
    var tab := Entries(t);
    assert t.dptr == 32 * j;
    assert At(up, key, tab, j) == o;
    if o.Go? { FindGo(up, key, tab, j); }
    if o.End? { FindNone(up, key, tab, j); }
  }

  lemma {:induction false} SearchGoes(s: DirState, u: DirState, w: DirState, up: Folding, key: Key, j: nat, sc: Scan, res: FResult)
    requires Sane(s) && Kept(s, u) && Sane(u) && Advanced(u, j, false, res, w) && j < |Entries(u)|
    requires Passes(up, key, Entries(u), j + 1) && ScanAt(up, key, Entries(u), j + 1) == sc
    ensures Kept(s, w) && res in {Ok, NoFile, DiskErr}
    ensures res == Ok ==> Searches(w, up, key, j + 1, sc)
    ensures res == NoFile ==> Absent(up, key, Entries(w))
  {
    hide Rooted, PlacedDir, Geometry.Sound, Geometry.End, Entries, Points, ScanAt, Passes, Absent, Grown;
    assert Kept(u, w);
    KeptTransitive(s, u, w);
    KeptSane(u, w);
    if res == Ok { EntryHere(w, j + 1); }
    if res == NoFile { FindNone(up, key, Entries(w), j + 1); }
  }

  // ---------------------------------------------------------------- storing an entry

  /** Entry j has got bs at offset ofs; no other sector has changed. */
  ghost predicate EntryStored(s: DirState, j: nat, ofs: nat, bs: seq<Byte>, t: DirState)
    requires ofs + |bs| <= ENTRY_SIZE
  {
    && Sane(s) && Sane(t) && t == s.(v := t.v) && |t.v| == |s.v| && j < |Entries(s)|
    && Entries(t) == Entries(s)[j := Overwritten(Entries(s)[j], ofs, bs)]
    && forall k {:trigger t.v[k]} {:trigger s.v[k]} | 0 <= k < |s.v| && k != s.sect :: t.v[k] == s.v[k]
  }

  function Overwritten(e: Entry, ofs: nat, bs: seq<Byte>): (r: Entry)
    requires ofs + |bs| <= ENTRY_SIZE
  {
    e[..ofs] + bs + e[ofs + |bs|..]
  }

  lemma {:induction false} StoreDone(s: DirState, t: DirState, j: nat, ofs: nat, bs: seq<Byte>)
    requires Sane(s) && Points(s, j) && ofs + |bs| <= ENTRY_SIZE && s.sect < |s.v| && t == s.(v := t.v)
    requires t.v == s.v[s.sect := Patch(s.v[s.sect], 32 * (j % 16) + ofs, bs)]
    ensures EntryStored(s, j, ofs, bs, t) && Points(t, j)
  {
    hide Geometry.Sound, Geometry.End, Rooted, Flat, SecAt;
    DistinctChain(s);
    EntryHere(s, j);
    FlatLength(s.v, s.g, s.ch);
    FlatStored(s.v, s.g, s.ch, j, ofs, bs, t.v);
  }

  lemma {:induction false} DistinctChain(s: DirState)
    requires Sane(s)
    ensures forall i, k {:trigger s.ch[i], s.ch[k]} | 0 <= i < k < |s.ch| :: s.ch[i] != s.ch[k]
  {
    hide Geometry.Sound, Geometry.End;
    if s.ch != [] {
      IsChainOf(s);
      forall i, k | 0 <= i < k < |s.ch| ensures s.ch[i] != s.ch[k] { ChainDistinct(s.f, s.ch, i, k); }
    }
  }

  // ---------------------------------------------------------------- reserving entries

  /** The last c entries before j are free, the one before those is not, and no n in a row were met. */
  predicate FreeTail(t: seq<Entry>, j: nat, c: nat, n: nat) {
    && c <= j <= |t| && c < n && FreeRun(t, j - c, c) && (j - c > 0 ==> !IsFree(t[j - c - 1]))
    && forall i {:trigger FreeRun(t, i, n)} | 0 <= i < j - c :: !FreeRun(t, i, n)
  }

  ghost predicate AllocScan(t: DirState, j: nat, c: nat, n: nat) {
    Sane(t) && Points(t, j) && j < |Entries(t)| && FreeTail(Entries(t), j, c, n)
  }

  /** The cursor is at the last entry of the first run of n free ones. */
  ghost predicate AllocatedHere(t: DirState, n: nat) {
    var j := t.dptr / ENTRY_SIZE;
    Sane(t) && Points(t, j) && n <= j + 1 && FirstRun(Entries(t), j + 1 - n, n)
  }

  lemma {:induction false} FreeTailGrown(t: seq<Entry>, u: seq<Entry>, j: nat, c: nat, n: nat)
    requires FreeTail(t, j, c, n) && Extends(t, u)
    ensures FreeTail(u, j, c, n)
  {
    assert FreeRun(u, j - c, c) by { forall i | j - c <= i < j ensures IsFree(u[i]) { assert u[i] == t[i]; } }
    assert j - c > 0 ==> u[j - c - 1] == t[j - c - 1];
    forall i | 0 <= i < j - c ensures !FreeRun(u, i, n) {
      if i + n <= |t| {
        assert !FreeRun(t, i, n);
        var k :| i <= k < i + n && !IsFree(t[k]);
        assert u[k] == t[k];
      }
    }
  }

  lemma {:induction false} FreeTailNext(t: seq<Entry>, j: nat, c: nat, n: nat)
    requires FreeTail(t, j, c, n) && j < |t|
    ensures IsFree(t[j]) && c + 1 < n ==> FreeTail(t, j + 1, c + 1, n)
    ensures IsFree(t[j]) && c + 1 == n ==> FirstRun(t, j + 1 - n, n)
    ensures !IsFree(t[j]) ==> FreeTail(t, j + 1, 0, n)
  {
    if !IsFree(t[j]) {
      forall i | 0 <= i < j + 1 ensures !FreeRun(t, i, n) {
        if i >= j - c { assert i <= j < i + n; }
      }
    }
  }

  lemma {:induction false} AllocBegin(t: DirState, n: nat)
    requires Sane(t) && Points(t, 0) && n > 0
    ensures AllocScan(t, 0, 0, n)
  {
    hide Rooted, PlacedDir, Points, Entries;
    EntryHere(t, 0);
  }

  lemma {:induction false} AllocPoints(t: DirState, j: nat, c: nat, n: nat)
    requires AllocScan(t, j, c, n)
    ensures Sane(t) && Points(t, j) && j < MAX_ENTRIES
  {
    hide Rooted, PlacedDir;
  }

  lemma {:induction false} AllocKept(s: DirState, u: DirState, w: DirState, j: nat, c: nat, n: nat)
    requires Grown(s, u) && Kept(u, w) && AllocScan(u, j, c, n) && Points(w, j)
    ensures Grown(s, w) && AllocScan(w, j, c, n)
  {
    hide Rooted, PlacedDir, Points, Entries, OthersKept, ChainsKept, Extends, FreeTail;
    KeptGrown(u, w);
    GrownTransitive(s, u, w);
  }

  lemma {:induction false} AllocEntryOf(t: DirState, j: nat, c: nat, n: nat)
    requires AllocScan(t, j, c, n)
    ensures Sane(t) && j < |Entries(t)| && FreeTail(Entries(t), j, c, n)
  {
    hide Rooted, PlacedDir, Points, Entries, FreeTail;
  }

  lemma {:induction false} AllocFound(t: DirState, j: nat, c: nat, n: nat)
    requires AllocScan(t, j, c, n) && c + 1 == n && IsFree(Entries(t)[j])
    ensures AllocatedHere(t, n)
  {
    hide Rooted, PlacedDir, Entries, FirstRun, FreeRun;
    FreeTailNext(Entries(t), j, c, n);
  }

  lemma {:induction false} AllocGoes(t: DirState, j: nat, c: nat, n: nat)
    requires AllocScan(t, j, c, n)
    ensures IsFree(Entries(t)[j]) && c + 1 < n ==> FreeTail(Entries(t), j + 1, c + 1, n)
    ensures !IsFree(Entries(t)[j]) ==> FreeTail(Entries(t), j + 1, 0, n)
  {
    hide Rooted, PlacedDir, Entries, FreeTail, Points;
    FreeTailNext(Entries(t), j, c, n);
  }

  lemma {:induction false} AllocNext(s: DirState, u: DirState, w: DirState, j: nat, c: nat, n: nat, res: FResult)
    requires Grown(s, u) && Sane(u) && Advanced(u, j, true, res, w) && res != DiskErr && FreeTail(Entries(u), j + 1, c, n)
    ensures Grown(s, w) && (res == Ok ==> AllocScan(w, j + 1, c, n))
  {
    hide Rooted, PlacedDir, Entries, OthersKept, ChainsKept, Points, FreeTail;
    if res == Ok {
      GrownTransitive(s, u, w);
      FreeTailGrown(Entries(u), Entries(w), j + 1, c, n);
      EntryHere(w, j + 1);
    } else {
      KeptGrown(u, w);
      GrownTransitive(s, u, w);
    }
  }

  // ---------------------------------------------------------------- writing a block of entries

  /** Sector x is one of the directory's. */
  ghost predicate InDir(g: Geometry, ch: seq<nat>, x: nat) {
    PlacedDir(g, ch) && exists q {:trigger SecAt(g, ch, q)} :: 0 <= q < SecCount(g, ch) && x == SecAt(g, ch, q)
  }

  /** Outside the tables only the directory's own sectors may differ. */
  ghost predicate OnlyDir(m: DirState, t: DirState) {
    |t.v| == |m.v| && forall x {:trigger t.v[x]} {:trigger m.v[x]} | 0 <= x < |m.v| && !m.g.InFat1(x) && !m.g.InFat2(x) :: t.v[x] == m.v[x] || InDir(m.g, m.ch, x)
  }

  /** The first k entries of b have been written from entry i on. */
  ghost predicate Writing(m: DirState, t: DirState, i: nat, b: seq<Entry>, k: nat) {
    && Sane(m) && Sane(t) && t == m.(v := t.v, dptr := t.dptr, sect := t.sect, clust := t.clust, w := t.w) && OnlyDir(m, t) && WindowKept(m, t)
    && k <= |b| && i + |b| <= |Entries(m)| && Entries(t) == Written(Entries(m), i, b[..k])
  }

  lemma {:induction false} WritingStart(m: DirState, i: nat, b: seq<Entry>)
    requires Sane(m) && i + |b| <= |Entries(m)|
    ensures Writing(m, m, i, b, 0)
  {
    hide Rooted, PlacedDir, Entries, Geometry.Sound, Geometry.End;
  }

  lemma {:induction false} WritingKept(m: DirState, t: DirState, u: DirState, i: nat, b: seq<Entry>, k: nat)
    requires Writing(m, t, i, b, k) && Kept(t, u)
    ensures Writing(m, u, i, b, k)
  {
    hide Rooted, PlacedDir, Entries, Geometry.Sound, Geometry.End, InDir;
    KeptSane(t, u);
  }

  lemma {:induction false} WritingStored(m: DirState, t: DirState, u: DirState, i: nat, b: seq<Entry>, k: nat)
    requires Writing(m, t, i, b, k) && k < |b| && Points(t, i + k) && EntryStored(t, i + k, 0, b[k], u)
    ensures Writing(m, u, i, b, k + 1)
  {
    hide Rooted, PlacedDir, Entries, Geometry.Sound, Geometry.End, InDir, Points;
    var e := Entries(t)[i + k];
    assert Overwritten(e, 0, b[k]) == b[k];
    WrittenNext(Entries(m), i, b, k);
    SectInDir(t, i + k);
  }

  lemma {:induction false} WrittenNext(t: seq<Entry>, i: nat, b: seq<Entry>, k: nat)
    requires k < |b| && i + |b| <= |t|
    ensures Written(t, i, b[..k])[i + k := b[k]] == Written(t, i, b[..k + 1])
  {
  }

  lemma {:induction false} SectInDir(t: DirState, j: nat)
    requires Points(t, j)
    ensures InDir(t.g, t.ch, t.sect)
  {
    hide SecAt, Geometry.Sound;
  }

  // ---------------------------------------------------------------- what a failure leaves

  /** Outside the mirror only cluster c may differ. */
  ghost predicate OnlyCluster(v: seq<Sector>, w: seq<Sector>, g: Geometry, c: nat) {
    |w| == |v| && forall s {:trigger w[s]} {:trigger v[s]} | 0 <= s < |v| && !g.InFat2(s) && !g.InCluster(s, c) :: w[s] == v[s]
  }

  /** What a stretch that failed halfway leaves: a directory of the same clusters, and changes in the tables
      and in free clusters. */
  ghost predicate Halted(s: DirState, t: DirState) {
    t == s.(v := t.v, f := t.f, dptr := t.dptr, sect := t.sect, clust := t.clust, w := t.w) && OthersKept(s, t) && StrangersKept(s, t)
  }

  /** Every entry in use is as before. The directory may have grown to m, and from there on only it and free
      clusters were written. */
  ghost predicate LiveKept(s: DirState, m: DirState, t: DirState) {
    && Grown(s, m) && t == m.(v := t.v, f := t.f, dptr := t.dptr, sect := t.sect, clust := t.clust, w := t.w) && |t.v| == |m.v| && StrangersKept(s, t)
    && (forall x {:trigger t.v[x]} {:trigger m.v[x]} | 0 <= x < |m.v| && !m.g.InFat1(x) && !m.g.InFat2(x) ::
          t.v[x] == m.v[x] || InDir(m.g, m.ch, x) || Spare(m.g, m.f, x))
    && |Entries(s)| <= |Entries(t)|
    && forall j {:trigger Entries(s)[j]} {:trigger Entries(t)[j]} | 0 <= j < |Entries(s)| && !IsFree(Entries(s)[j]) :: Entries(t)[j] == Entries(s)[j]
  }

  /** No sector of the directory belongs to a free cluster. */
  lemma {:induction false} DirNotSpare(s: DirState, k: nat)
    requires Sane(s) && k < SecCount(s.g, s.ch)
    ensures !Spare(s.g, s.f, SecAt(s.g, s.ch, k))
  {
    hide IsClusterSize, Geometry.End;
    var x := SecAt(s.g, s.ch, k);
    SecBounds(s.g, s.ch, k);
    if Spare(s.g, s.f, x) {
      var c: nat :| s.g.InCluster(x, c) && c < |s.f| && s.f[c] == 0;
      SpareElsewhere(s, k, c);
    }
  }

  lemma {:induction false} SpareElsewhere(s: DirState, k: nat, c: nat)
    requires Sane(s) && k < SecCount(s.g, s.ch) && c < |s.f| && s.f[c] == 0
    ensures !s.g.InCluster(SecAt(s.g, s.ch, k), c)
  {
    var x := SecAt(s.g, s.ch, k);
    SecBounds(s.g, s.ch, k);
    if s.ch == [] {
      RootNotData(s.g, x, c);
    } else {
      hide Geometry.Sound, Geometry.End, SecAt;
      var i := k / s.g.csize;
      IsChainOf(s);
      ChainUsed(s.f, s.ch);
      assert InUse(s.f, s.ch[i]);
      if s.g.InCluster(x, c) { ClusterUnique(s.g, x, s.ch[i], c); }
    }
  }

  lemma {:induction false} HaltedEntries(s: DirState, t: DirState)
    requires Sane(s) && Halted(s, t)
    ensures PlacedDir(t.g, t.ch) && t.g.End() <= |t.v| && Entries(t) == Entries(s)
  {
    hide Geometry.Sound, Geometry.End, Rooted, Flat, SecAt, Spare;
    FlatLength(s.v, s.g, s.ch);
    FlatLength(t.v, t.g, t.ch);
    forall j | 0 <= j < 16 * SecCount(s.g, s.ch) ensures Flat(t.v, t.g, t.ch)[j] == Flat(s.v, s.g, s.ch)[j] {
      SecBounds(s.g, s.ch, j / 16);
      DirNotSpare(s, j / 16);
      FlatAt(s.v, s.g, s.ch, j);
      FlatAt(t.v, t.g, t.ch, j);
    }
  }

  lemma {:induction false} HaltedKept(s: DirState, m: DirState, t: DirState)
    requires Grown(s, m) && Halted(m, t)
    ensures LiveKept(s, m, t)
  {
    hide Rooted, PlacedDir, Geometry.Sound, Geometry.End, Entries, Spare, ChainsKept, InDir, StrangersKept;
    HaltedEntries(m, t);
    StrangersTransitive(s, m, t);
  }

  lemma {:induction false} HaltedSelf(s: DirState, t: DirState)
    requires Sane(s) && Kept(s, t)
    ensures Halted(s, t)
  {
    hide Sane, Spare, StrangersKept;
    KeptStrangers(s, t);
  }

  lemma {:induction false} GrownKept(s: DirState, m: DirState)
    requires Grown(s, m)
    ensures LiveKept(s, m, m)
  {
    hide Rooted, PlacedDir, Geometry.Sound, Geometry.End, Entries, Spare, ChainsKept, OthersKept, InDir;
  }

  lemma {:induction false} KeptLive(s: DirState, s1: DirState, m: DirState, t: DirState)
    requires Sane(s) && Kept(s, s1) && LiveKept(s1, m, t)
    ensures LiveKept(s, m, t)
  {
    hide Rooted, PlacedDir, Geometry.Sound, Geometry.End, Entries, Spare, ChainsKept, OthersKept, InDir, Extends;
    hide StrangersKept;
    KeptGrown(s, s1);
    GrownTransitive(s, s1, m);
    StrangersTransitive(s, s1, t);
  }

  lemma {:induction false} WritingStrangers(m: DirState, t: DirState, i: nat, b: seq<Entry>, k: nat)
    requires Writing(m, t, i, b, k)
    ensures StrangersKept(m, t)
  {
    hide Rooted, Geometry.Sound, Geometry.End, Entries, Foreign, WindowKept;
    OnlyDirStrangers(m, t);
  }

  /** Changes in the directory's own sectors are none in foreign ones. */
  lemma {:induction false} OnlyDirStrangers(m: DirState, t: DirState)
    requires Sane(m) && t == m.(v := t.v, dptr := t.dptr, sect := t.sect, clust := t.clust, w := t.w) && OnlyDir(m, t) && WindowKept(m, t)
    ensures StrangersKept(m, t)
  {
    hide Geometry.Sound, Geometry.End, Rooted, Foreign, WindowKept, SecAt;
    forall k: nat | k < |m.v| && Foreign(m, k) ensures t.v[k] == m.v[k] {
      ForeignInData(m, k) by { SoundOf(m); }
      if InDir(m.g, m.ch, k) {
        var q: nat :| q < SecCount(m.g, m.ch) && k == SecAt(m.g, m.ch, q);
        OwnNotForeign(m, q);
      }
    }
  }

  /** A block partly written over free entries. */
  lemma {:induction false} WritingKeepsLive(s: DirState, m: DirState, t: DirState, i: nat, b: seq<Entry>, k: nat)
    requires Grown(s, m) && FirstRun(Entries(m), i, |b|) && Writing(m, t, i, b, k)
    ensures LiveKept(s, m, t)
  {
    hide Rooted, PlacedDir, Geometry.Sound, Geometry.End, Entries, Spare, ChainsKept, OthersKept, InDir, StrangersKept, WindowKept;
    WritingStrangers(m, t, i, b, k);
    StrangersTransitive(s, m, t);
    forall j | 0 <= j < |Entries(s)| && !IsFree(Entries(s)[j]) ensures Entries(t)[j] == Entries(s)[j] {
      assert Entries(m)[j] == Entries(s)[j];
    }
  }

  lemma {:induction false} TableHalted(s: DirState, t: DirState)
    requires Sane(s) && s.ch != [] && t == s.(v := t.v, f := t.f, w := t.w) && SameData(s.v, t.v, s.g)
    requires KeepsUsed(s.f, t.f, s.ch[|s.ch| - 1]) && WindowKept(s, t)
    ensures Halted(s, t)
  {
    hide Spare, Foreign, Geometry.Sound, Geometry.End, Rooted;
    assert s.ch[|s.ch| - 1] in s.ch;
    forall k: nat | k < |s.v| && Foreign(s, k) ensures t.v[k] == s.v[k] { ForeignInData(s, k) by { SoundOf(s); } }
  }

  lemma {:induction false} HaltedFrom(s: DirState, s1: DirState, t: DirState)
    requires Sane(s) && Kept(s, s1) && Halted(s1, t)
    ensures Halted(s, t)
  {
    hide Spare, StrangersKept, WindowKept;
    KeptStrangers(s, s1);
    StrangersTransitive(s, s1, t);
  }

  lemma {:induction false} AgreeOnly(u: seq<Sector>, v: seq<Sector>, g: Geometry, c: nat)
    requires Agree(u, v, g)
    ensures OnlyCluster(u, v, g, c)
  {
  }

  lemma {:induction false} OnlyClusterTable(u: seq<Sector>, w: seq<Sector>, g: Geometry, c: nat)
    requires g.Sound() && g.End() <= |u| && OnlyCluster(u, w, g, c)
    ensures Table(w, g) == Table(u, g)
  {
    hide Geometry.InCluster, IsClusterSize, Table;
    AreasOrdered(g);
    forall s: nat | s < |u| && g.InFat1(s) ensures w[s] == u[s] { if g.InCluster(s, c) { ClusterInArea(g, s, c); } }
    SameFat1(w, u, g);
  }

  lemma {:induction false} OnlyClusterSince(u: seq<Sector>, v: seq<Sector>, w: seq<Sector>, g: Geometry, c: Word32, top: nat)
    requires g.Sound() && 2 <= c < g.nFatent && top == Clst2Sect(g, c) && Agree(u, v, g) && |w| == |v|
    requires forall s {:trigger w[s]} | 0 <= s < |v| && !(top <= s < top + g.csize) :: w[s] == v[s]
    ensures OnlyCluster(u, w, g, c)
  {
    hide Geometry.Sound;
    ClearPlace(g, c);
  }

  /** A failed clearing of a cluster that was free. */
  lemma {:induction false} ClearingHalted(s: DirState, m: DirState, t: DirState, c: nat)
    requires Sane(s) && s.ch != [] && m == s.(v := m.v, f := m.f, w := m.w) && SameData(s.v, m.v, s.g)
    requires Allocated(s.f, m.f, s.ch[|s.ch| - 1], c) && WindowKept(s, m)
    requires t == m.(v := t.v, f := t.f, w := t.w) && t.f == m.f && OnlyCluster(m.v, t.v, s.g, c) && (t.w == m.w || s.g.InCluster(t.w, c))
    ensures Halted(s, t)
  {
    hide Sane, Foreign;
    ClearingStrangers(s, m, t, c);
    forall k | 0 <= k < |s.v| && !s.g.InFat1(k) && !s.g.InFat2(k) ensures t.v[k] == s.v[k] || Spare(s.g, s.f, k) {
      if s.g.InCluster(k, c) { assert Spare(s.g, s.f, k); }
    }
  }

  /** The window over the cluster that was taken. */
  lemma {:induction false} TakenWindow(s: DirState, m: DirState, t: DirState, c: nat)
    requires Sane(s) && s.ch != [] && WindowKept(s, m) && Allocated(s.f, m.f, s.ch[|s.ch| - 1], c) && (t.w == m.w || s.g.InCluster(t.w, c))
    ensures WindowKept(s, t)
  {
    hide Foreign, Geometry.InCluster, Geometry.End, Rooted;
    if s.g.InCluster(t.w, c) { SpareNotForeign(s, t.w, c); }
  }

  lemma {:induction false} ClearingStrangers(s: DirState, m: DirState, t: DirState, c: nat)
    requires Sane(s) && s.ch != [] && m == s.(v := m.v, f := m.f, w := m.w) && SameData(s.v, m.v, s.g)
    requires Allocated(s.f, m.f, s.ch[|s.ch| - 1], c) && WindowKept(s, m)
    requires t == m.(v := t.v, w := t.w) && OnlyCluster(m.v, t.v, s.g, c) && (t.w == m.w || s.g.InCluster(t.w, c))
    ensures StrangersKept(s, t)
  {
    hide Geometry.Sound, Geometry.End, Rooted, Foreign;
    assert s.ch[|s.ch| - 1] in s.ch;
    TakenWindow(s, m, t, c);
    forall k: nat | k < |s.v| && Foreign(s, k) ensures t.v[k] == s.v[k] {
      ForeignInData(s, k) by { SoundOf(s); }
      if s.g.InCluster(k, c) { SpareNotForeign(s, k, c); }
    }
  }

  // ---------------------------------------------------------------- what registering comes to

  /** A longer table searches like the shorter one. */
  lemma {:induction false} ExtendedAbsent(up: Folding, key: Key, t: seq<Entry>, u: seq<Entry>)
    requires Absent(up, key, t) && Extends(t, u)
    ensures Absent(up, key, u)
  {
    hide FindStep;
    forall k | 0 <= k < |u| ensures !FoundAt(up, key, u, k) {
      if k < |t| {
        if Passes(up, key, u, k) {
          PrefixPasses(up, key, t, u, k);
          assert t[..k] == u[..k] && u[k] == t[k];
          ScanSame(up, key, t, u, k);
          assert !FoundAt(up, key, t, k);
        }
      } else {
        BlankEnds(up, key, u, k);
      }
    }
  }

  lemma {:induction false} PrefixPasses(up: Folding, key: Key, t: seq<Entry>, u: seq<Entry>, k: nat)
    requires Extends(t, u) && k <= |t| && Passes(up, key, u, k)
    ensures Passes(up, key, t, k)
  {
    hide FindStep;
    forall j | 0 <= j < k ensures At(up, key, t, j).Go? {
      assert t[..j] == u[..j] && u[j] == t[j] && At(up, key, u, j).Go?;
      ScanSame(up, key, t, u, j);
    }
  }

  lemma {:induction false} BlankEnds(up: Folding, key: Key, u: seq<Entry>, k: nat)
    requires k < |u| && Blank(u[k])
    ensures At(up, key, u, k).End?
  {
    assert u[k][0] == 0;
  }

  lemma {:induction false} ExtendedShaped(t: seq<Entry>, u: seq<Entry>)
    requires Shaped(t) && Extends(t, u)
    ensures Shaped(u)
  {
    forall j, k | 0 <= j < k < |u| && u[j][0] == 0 ensures IsFree(u[k]) {
      if k < |t| { assert u[j] == t[j] && u[k] == t[k]; } else { assert u[k][0] == 0; }
    }
  }

  /** t is the directory s, possibly grown to m, with the block of a name written into its first free run. */
  ghost predicate RegisteredState(s: DirState, m: DirState, t: DirState, b: seq<Entry>) {
    var i := t.dptr / ENTRY_SIZE + 1 - |b|;
    && Grown(s, m) && |b| <= t.dptr / ENTRY_SIZE + 1 && Points(t, t.dptr / ENTRY_SIZE)
    && FirstRun(Entries(m), i, |b|) && Writing(m, t, i, b, |b|)
  }

  /** Registering an absent name in a directory with nothing in use behind its end marker: a search for
      it then stops at its new short entry, every entry in use is still there, and the shape is kept. */
  lemma {:induction false} RegisteredThenFound(s: DirState, m: DirState, t: DirState, up: Folding, key: Key,
                                               name: seq<Unit>, pieces: nat, fn: ShortName, flags: Byte)
    requires pieces <= 20 && RegisteredState(s, m, t, Block(name, pieces, fn, flags)) && Registers(up, key, name, pieces, fn)
    requires Shaped(Entries(s)) && Absent(up, key, Entries(s))
    ensures Sane(t) && FoundAt(up, key, Entries(t), t.dptr / ENTRY_SIZE) && Shaped(Entries(t))
    ensures pieces > 0 ==> t.dptr / ENTRY_SIZE >= pieces && FoundHere(t, up, key, 32 * (t.dptr / ENTRY_SIZE - pieces))
    ensures |Entries(s)| <= |Entries(t)| && forall j {:trigger Entries(t)[j]} | 0 <= j < |Entries(s)| && !IsFree(Entries(s)[j]) :: Entries(t)[j] == Entries(s)[j]
  {
    hide Rooted, PlacedDir, Geometry.Sound, Geometry.End, Entries, RegisteredState, Registers, Points, Block, Extends, FirstRun, Shaped, Absent, FoundAt, IsFree, Written, At;
    BlockLength(name, pieces, fn, flags);
    RegisteredTable(s, m, t, Block(name, pieces, fn, flags));
    TableRegistered(Entries(s), Entries(m), t.dptr / ENTRY_SIZE - pieces, up, key, name, pieces, fn, flags);
  }

  lemma {:induction false} RegisteredTable(s: DirState, m: DirState, t: DirState, b: seq<Entry>)
    requires RegisteredState(s, m, t, b)
    ensures Sane(s) && Sane(m) && Sane(t) && Points(t, t.dptr / ENTRY_SIZE) && Extends(Entries(s), Entries(m))
    ensures |b| <= t.dptr / ENTRY_SIZE + 1
    ensures var i := t.dptr / ENTRY_SIZE + 1 - |b|; FirstRun(Entries(m), i, |b|) && Entries(t) == Written(Entries(m), i, b)
  {
    hide Rooted, PlacedDir, Entries, Geometry.Sound, Geometry.End, OthersKept, ChainsKept, OnlyDir, Points, Extends, FreeRun;
    assert b[..|b|] == b;
  }

  lemma {:induction false} TableRegistered(ts: seq<Entry>, w: seq<Entry>, i: nat, up: Folding, key: Key,
                                           name: seq<Unit>, pieces: nat, fn: ShortName, flags: Byte)
    requires pieces <= 20 && Extends(ts, w) && FirstRun(w, i, pieces + 1) && Registers(up, key, name, pieces, fn)
    requires Shaped(ts) && Absent(up, key, ts)
    ensures var u := Written(w, i, Block(name, pieces, fn, flags));
            && FoundAt(up, key, u, i + pieces) && (pieces > 0 ==> At(up, key, u, i + pieces).scan.block == 32 * i) && Shaped(u)
            && |ts| <= |u| && (forall j {:trigger u[j]} | 0 <= j < |ts| && !IsFree(ts[j]) :: u[j] == ts[j])
  {
    hide Registers, Block, FindStep, Passes;
    var b := Block(name, pieces, fn, flags);
    BlockLength(name, pieces, fn, flags);
    ExtendedAbsent(up, key, ts, w);
    ExtendedShaped(ts, w);
    RegisteredIsFound(up, key, w, i, name, pieces, fn, flags);
    assert Storable(fn) by { RegistersStorable(up, key, name, pieces, fn); }
    BlockUsed(name, pieces, fn, flags);
    forall k | 0 <= k < i ensures w[k][0] != 0 { RunBeforeEnd(w, i, |b|, k); }
    RegisteringKeeps(w, i, b);
    forall k | 0 <= k < |ts| && !IsFree(ts[k]) ensures Written(w, i, b)[k] == ts[k] { assert w[k] == ts[k]; }
  }

  lemma {:induction false} BlockLength(name: seq<Unit>, pieces: nat, fn: ShortName, flags: Byte)
    requires pieces <= 20
    ensures |Block(name, pieces, fn, flags)| == pieces + 1
  {
  }

  lemma {:induction false} RegistersStorable(up: Folding, key: Key, name: seq<Unit>, pieces: nat, fn: ShortName)
    requires Registers(up, key, name, pieces, fn)
    ensures Storable(fn)
  {
  }

  /** NS_LFN: a long name must be written. */
  predicate HasLongFlag(status: nat) { status / 2 % 2 == 1 }

  /** The case flags NS_BODY and NS_EXT. */
  function CaseFlags(status: Byte): Byte { status as int / 8 % 4 * 8 }

  /** Where the reserved run begins. */
  ghost function BlockStart(t: DirState, n: nat): (i: nat)
    requires AllocatedHere(t, n)
    ensures Sane(t) && t.dptr == 32 * (i + n - 1) && i + n <= |Entries(t)| && FirstRun(Entries(t), i, n) && Points(t, i + n - 1)
  {
    t.dptr / ENTRY_SIZE + 1 - n
  }

  /** The long entries, last piece first. */
  function PutPieces(name: seq<Unit>, pieces: nat, sum: Byte): (b: seq<Entry>)
    requires pieces <= 20
    ensures |b| == pieces
    ensures forall m {:trigger b[m]} | 0 <= m < pieces :: b[m] == PutEntry(name, pieces - m, sum)
  {
    hide PutEntry;
    seq<Entry>(pieces, m requires 0 <= m < pieces => PutEntry(name, pieces - m, sum))
  }

  /** The entries as dir_register writes them for any text; a block of the name when its fillers do no harm. */
  function PutBlock(name: seq<Unit>, pieces: nat, fn: ShortName, flags: Byte): (b: seq<Entry>)
    requires pieces <= 20
    ensures |b| == pieces + 1 && b[pieces] == ShortEntry(fn, flags)
    ensures forall m {:trigger b[m]} | 0 <= m < pieces :: b[m] == PutEntry(name, pieces - m, SfnSum(fn))
  {
    hide PutEntry, PutPieces, SfnSum, ShortEntry;
    PutPieces(name, pieces, SfnSum(fn)) + [ShortEntry(fn, flags)]
  }

  lemma {:induction false} PutBlockIs(name: seq<Unit>, pieces: nat, fn: ShortName, flags: Byte)
    requires pieces <= 20 && (pieces == 0 || (IsText(name) && pieces == Pieces(|name|)))
    ensures |PutBlock(name, pieces, fn, flags)| == pieces + 1
    ensures pieces == 0 || FillerLast(name) ==> PutBlock(name, pieces, fn, flags) == Block(name, pieces, fn, flags)
  {
    hide NameEntry, PutEntry, SfnSum, FillerLast, ShortEntry;
    if pieces > 0 && FillerLast(name) {
      forall ord | 1 <= ord <= pieces ensures PutEntry(name, ord, SfnSum(fn)) == NameEntry(name, ord, SfnSum(fn)) {
        PutName(name, ord, SfnSum(fn));
      }
    }
  }

  lemma {:induction false} BlockPieces(name: seq<Unit>, pieces: nat, fn: ShortName, flags: Byte, e: Entry)
    requires pieces <= 20 && e[..11] == fn
    ensures var b := PutBlock(name, pieces, fn, flags);
            forall k {:trigger b[k]} | 0 <= k < pieces :: 1 <= pieces - k <= 20 && b[k] == PutEntry(name, pieces - k, SfnSum(e[..11]))
  {
    hide PutEntry, SfnSum;
  }

  lemma {:induction false} RegisteredDone(s: DirState, m: DirState, t: DirState, i: nat, b: seq<Entry>)
    requires |b| > 0 && Grown(s, m) && Points(t, i + |b| - 1) && FirstRun(Entries(m), i, |b|) && Writing(m, t, i, b, |b|)
    ensures RegisteredState(s, m, t, b)
  {
    hide Rooted, PlacedDir, Entries, Grown, Writing, FirstRun, SecAt;
    assert t.dptr == 32 * (i + |b| - 1);
  }

  lemma {:induction false} RegisteredSince(s: DirState, s1: DirState, m: DirState, t: DirState, b: seq<Entry>)
    requires Sane(s) && Kept(s, s1) && RegisteredState(s1, m, t, b)
    ensures RegisteredState(s, m, t, b)
  {
    hide Sane, Entries, Writing, FirstRun, Points, OthersKept, ChainsKept, Extends;
    KeptGrown(s, s1);
    GrownTransitive(s, s1, m);
  }

  lemma {:induction false} RegisterFinds(s: DirState, m: DirState, t: DirState, up: Folding, key: Key,
                                         name: seq<Unit>, pieces: nat, fn: ShortName, flags: Byte)
    requires Sane(s) && pieces <= 20 && RegisteredState(s, m, t, Block(name, pieces, fn, flags)) && Storable(fn)
    requires HoldsName(key.lfn, name) && IsName(name) && !key.noLfn && (if pieces == 0 then !key.loss && key.fn == fn else pieces == Pieces(|name|))
    ensures Sane(t)
    ensures Shaped(Entries(s)) && Absent(up, key, Entries(s)) ==> Shaped(Entries(t)) && FoundAt(up, key, Entries(t), t.dptr / ENTRY_SIZE)
  {
    hide Rooted, PlacedDir, Entries, Points, Block, FoundAt, Absent, Shaped;
    assert SameName(up, name, name);
    assert Sane(t);
    assert Registers(up, key, name, pieces, fn);
    if Shaped(Entries(s)) && Absent(up, key, Entries(s)) {
      RegisteredThenFound(s, m, t, up, key, name, pieces, fn, flags);
    }
  }

  // ---------------------------------------------------------------- reading

  /** A read that began at entry first with r has passed the entries before j, where the cursor is. */
  ghost predicate Reads(t: DirState, r: Reader, first: nat, j: nat, q: Reader) {
    && Sane(t) && Points(t, j) && first <= j < |Entries(t)|
    && ReadPasses(r, Entries(t), first, j) && ReadAt(r, Entries(t), first, j) == q
  }

  /** The cursor is at the entry a read stops at; q is what it has collected. */
  ghost predicate ReadHere(t: DirState, r: Reader, first: nat, q: Reader) {
    var j := t.dptr / ENTRY_SIZE;
    Sane(t) && Points(t, j) && ReadFoundAt(r, Entries(t), first, j) && ReadOf(r, Entries(t), first, j).r == q
  }

  lemma {:induction false} ReadBegin(t: DirState, r: Reader, first: nat)
    requires Sane(t) && Points(t, first)
    ensures Reads(t, r, first, first, r)
  {
    hide Sane, Points, Entries;
    EntryHere(t, first);
  }

  lemma {:induction false} ReadPoints(t: DirState, r: Reader, first: nat, j: nat, q: Reader)
    requires Reads(t, r, first, j, q)
    ensures Points(t, j) && Sane(t) && first <= j
  {
    hide Sane, Points;
  }

  lemma {:induction false} ReadKept(s: DirState, u: DirState, w: DirState, r: Reader, first: nat, j: nat, q: Reader)
    requires Sane(s) && Kept(s, u) && Kept(u, w) && Reads(u, r, first, j, q) && Points(w, j)
    ensures Kept(s, w) && Reads(w, r, first, j, q) && j < |Entries(s)| && w.dptr == 32 * j
  {
    hide Sane, Entries, ReadAt, ReadPasses;
    KeptTransitive(s, u, w);
    KeptSane(s, w);
    KeptSane(u, w);
  }

  /** What the treatment of entry j settles. */
  lemma {:induction false} ReadExamined(t: DirState, r: Reader, first: nat, j: nat, q: Reader, e: Entry, o: ReadOutcome)
    requires Reads(t, r, first, j, q) && e == Entries(t)[j] && o == ReadStep(q, e, t.dptr)
    ensures o.ReadEnd? ==> NoMore(r, Entries(t), first)
    ensures o.ReadHit? ==> ReadHere(t, r, first, o.r)
    ensures o.ReadGo? ==> ReadPasses(r, Entries(t), first, j + 1) && ReadAt(r, Entries(t), first, j + 1) == o.r
  {
    hide Rooted, PlacedDir, Geometry.Sound, Geometry.End, Entries, ReadStep, SecAt, SecCount;
    var tab := Entries(t);
    assert t.dptr == 32 * j;
    assert ReadOf(r, tab, first, j) == o;
    if o.ReadGo? { ReadGoOn(r, tab, first, j); }
    if o.ReadEnd? { ReadNone(r, tab, first, j); }
  }

  lemma {:induction false} ReadGoes(s: DirState, u: DirState, w: DirState, r: Reader, first: nat, j: nat, q: Reader, res: FResult)
    requires Sane(s) && Kept(s, u) && Sane(u) && Advanced(u, j, false, res, w) && first <= j < |Entries(u)|
    requires ReadPasses(r, Entries(u), first, j + 1) && ReadAt(r, Entries(u), first, j + 1) == q
    ensures Kept(s, w) && res in {Ok, NoFile, DiskErr}
    ensures res == Ok ==> Reads(w, r, first, j + 1, q)
    ensures res == NoFile ==> NoMore(r, Entries(w), first)
  {
    hide Rooted, PlacedDir, Geometry.Sound, Geometry.End, Entries, Points, ReadAt, ReadPasses, NoMore, Grown;
    assert Kept(u, w);
    KeptTransitive(s, u, w);
    KeptSane(u, w);
    if res == Ok { EntryHere(w, j + 1); }
    if res == NoFile { ReadNone(r, Entries(w), first, j + 1); }
  }

  // ---------------------------------------------------------------- removing

  /** Entries i up to j, j excluded, have been marked deleted. */
  ghost predicate Erasing(m: DirState, t: DirState, i: nat, j: nat) {
    && Sane(m) && Sane(t) && t == m.(v := t.v, dptr := t.dptr, sect := t.sect, clust := t.clust, w := t.w) && OnlyDir(m, t) && WindowKept(m, t)
    && i <= j <= |Entries(m)| == |Entries(t)|
    && forall k {:trigger Entries(t)[k]} | 0 <= k < |Entries(m)| :: Entries(t)[k] == if i <= k < j then Entries(m)[k][0 := DELETED] else Entries(m)[k]
  }

  /** Deleting entries touches nothing of others. */
  lemma {:induction false} ErasingStrangers(m: DirState, t: DirState, i: nat, j: nat)
    requires Erasing(m, t, i, j)
    ensures StrangersKept(m, t)
  {
    hide Rooted, Geometry.Sound, Geometry.End, Entries, Foreign, WindowKept;
    OnlyDirStrangers(m, t);
  }

  lemma {:induction false} ErasingStart(m: DirState, t: DirState, i: nat)
    requires Sane(m) && Kept(m, t) && i <= |Entries(m)|
    ensures Erasing(m, t, i, i)
  {
    hide Rooted, PlacedDir, Entries, Geometry.Sound, Geometry.End, InDir;
    KeptSane(m, t);
  }

  lemma {:induction false} ErasingKept(m: DirState, t: DirState, u: DirState, i: nat, j: nat)
    requires Erasing(m, t, i, j) && Kept(t, u)
    ensures Erasing(m, u, i, j)
  {
    hide Rooted, PlacedDir, Entries, Geometry.Sound, Geometry.End, InDir;
    KeptSane(t, u);
  }

  lemma {:induction false} ErasingStored(m: DirState, t: DirState, u: DirState, i: nat, j: nat)
    requires Erasing(m, t, i, j) && Points(t, j) && EntryStored(t, j, 0, [DELETED], u)
    ensures Erasing(m, u, i, j + 1)
  {
    hide Rooted, PlacedDir, Entries, Geometry.Sound, Geometry.End, InDir, Points;
    var e := Entries(t)[j];
    assert Overwritten(e, 0, [DELETED]) == e[0 := DELETED];
    SectInDir(t, j);
  }

  lemma {:induction false} ErasingDone(m: DirState, t: DirState, i: nat, k: nat)
    requires Erasing(m, t, i, k + 1) && i <= k
    ensures Entries(t) == Erased(Entries(m), i, k)
  {
    hide Rooted, PlacedDir, Entries, Geometry.Sound, Geometry.End, InDir;
  }

  lemma {:induction false} RemoveStart(m: DirState, k: nat)
    requires Sane(m) && Points(m, k)
    ensures m.dptr == 32 * k && k < |Entries(m)|
  {
    hide Rooted, PlacedDir, Entries, Geometry.Sound, Geometry.End;
    EntryHere(m, k);
  }

  lemma {:induction false} AtOffset(t: DirState, j: nat)
    requires Points(t, j)
    ensures t.dptr == 32 * j
  {
  }

  lemma {:induction false} ErasingFat(m: DirState, t: DirState, i: nat, k: nat)
    requires Erasing(m, t, i, k + 1)
    ensures t.f == m.f && OnlyDir(m, t)
  {
    hide Sane, Entries;
  }

  lemma {:induction false} PickPositive(lfn: LfnBuf, e: Entry)
    ensures PickLfn(lfn, e).1 ==> WithoutLast(Order(e)) > 0
  {
    hide Picked, HasLast;
  }
}
