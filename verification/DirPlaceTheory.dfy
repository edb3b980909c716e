/** Where a directory's entries are: the fixed root area or a cluster chain, seen as one flat table. */
module DirPlaceTheory {
  import opened Arith
  import opened Volume
  import opened Clusters
  import opened ChainTheory
  import opened LfnTheory
  import opened DirTheory

  const MAX_ENTRIES: nat := 0x1_0000

  /** The chain of a directory that starts at sclust; none for the fixed root. */
  ghost predicate Rooted(g: Geometry, f: seq<nat>, sclust: nat, ch: seq<nat>) {
    if sclust == 0 && g.fsType != FAT32 then ch == []
    else IsChain(f, ch) && ch[0] == (if sclust == 0 then g.dirbase else sclust) && |f| == g.nFatent
  }

  /** The directory is in the root area, where there is one, or in clusters of the volume. */
  predicate PlacedDir(g: Geometry, ch: seq<nat>) { InVolume(g, ch) && (ch == [] ==> g.fsType != FAT32) }

  /** Sectors of the directory. */
  function SecCount(g: Geometry, ch: seq<nat>): nat { if ch == [] then g.RootSectors() else |ch| * g.csize }

  /** Its k-th sector. */
  function SecAt(g: Geometry, ch: seq<nat>, k: nat): nat
    requires PlacedDir(g, ch) && k < SecCount(g, ch)
  {
    if ch == [] then g.dirbase + k
    else
      MulMono(1, 1, g.csize);
      IndexInChain(g, ch, k);
      ClusterTop(g, ch[k / g.csize]) + k % g.csize
  }

  lemma {:induction false} IndexInChain(g: Geometry, ch: seq<nat>, k: nat)
    requires PlacedDir(g, ch) && ch != [] && k < |ch| * g.csize
    ensures g.csize > 0 && k / g.csize < |ch|
  {
    QuotientBelow(k, |ch|, g.csize);
  }

  /** Directory sectors lie behind the tables and inside the volume. */
  lemma {:induction false} SecBounds(g: Geometry, ch: seq<nat>, k: nat)
    requires PlacedDir(g, ch) && k < SecCount(g, ch)
    ensures g.fatbase + g.TableArea() <= SecAt(g, ch, k) < g.End()
    ensures 0 < SecAt(g, ch, k) && !g.InFat1(SecAt(g, ch, k)) && !g.InFat2(SecAt(g, ch, k))
    ensures ch != [] ==> k / g.csize < |ch| && g.InCluster(SecAt(g, ch, k), ch[k / g.csize])
  {
    hide IsClusterSize, Geometry.End;
    AreasOrdered(g);
    if ch != [] {
      IndexInChain(g, ch, k);
      hide Geometry.Sound;
      ClusterBounds(g, ch[k / g.csize], k % g.csize);
    } else {
      assert g.dirbase + g.RootSectors() == g.database;
    }
  }

  /** Distinct sectors of a directory are distinct. */
  lemma {:induction false} SecInjective(g: Geometry, ch: seq<nat>, k: nat, l: nat)
    requires PlacedDir(g, ch) && k < l < SecCount(g, ch)
    requires forall i, j {:trigger ch[i], ch[j]} | 0 <= i < j < |ch| :: ch[i] != ch[j]
    ensures SecAt(g, ch, k) != SecAt(g, ch, l)
  {
    hide Geometry.Sound, Geometry.End, Geometry.InCluster, SecAt, IsClusterSize;
    if ch == [] {
      RootApart(g, ch, k, l);
    } else {
      SecBounds(g, ch, k);
      SecBounds(g, ch, l);
      DivMono(k, l, g.csize);
      if k / g.csize == l / g.csize {
        SameClusterApart(g, ch, k, l);
      } else {
        if SecAt(g, ch, k) == SecAt(g, ch, l) { ClusterUnique(g, SecAt(g, ch, k), ch[k / g.csize], ch[l / g.csize]); }
      }
    }
  }

  lemma {:induction false} RootApart(g: Geometry, ch: seq<nat>, k: nat, l: nat)
    requires PlacedDir(g, ch) && k < l < SecCount(g, ch) && ch == []
    ensures SecAt(g, ch, k) != SecAt(g, ch, l)
  {
    hide Geometry.Sound;
  }

  lemma {:induction false} SameClusterApart(g: Geometry, ch: seq<nat>, k: nat, l: nat)
    requires PlacedDir(g, ch) && k < l < SecCount(g, ch) && ch != [] && g.csize > 0 && k / g.csize == l / g.csize
    ensures SecAt(g, ch, k) != SecAt(g, ch, l)
  {
    hide Geometry.Sound, ClusterTop;
    SameQuotient(k, l, g.csize);
  }

  /** Entry i of a sector. */
  function Slot(s: Sector, i: nat): (e: Entry)
    requires i < 16
  {
    s[32 * i..32 * i + 32]
  }

  /** The directory as a table of entries. */
  function Flat(v: seq<Sector>, g: Geometry, ch: seq<nat>): (t: seq<Entry>)
    requires PlacedDir(g, ch) && g.End() <= |v|
    ensures |t| == 16 * SecCount(g, ch)
  {
    seq<Entry>(16 * SecCount(g, ch), j requires 0 <= j < 16 * SecCount(g, ch) =>
      SecBounds(g, ch, j / 16);
      Slot(v[SecAt(g, ch, j / 16)], j % 16))
  }

  lemma {:induction false} FlatAt(v: seq<Sector>, g: Geometry, ch: seq<nat>, j: nat)
    requires PlacedDir(g, ch) && g.End() <= |v| && j < 16 * SecCount(g, ch)
    ensures SecAt(g, ch, j / 16) < |v| && Flat(v, g, ch)[j] == Slot(v[SecAt(g, ch, j / 16)], j % 16)
  {
    SecBounds(g, ch, j / 16);
  }

  /** Views that agree outside the tables show the same directory. */
  lemma {:induction false} FlatSame(v: seq<Sector>, w: seq<Sector>, g: Geometry, ch: seq<nat>)
    requires PlacedDir(g, ch) && g.End() <= |v| && (Agree(v, w, g) || SameData(v, w, g))
    ensures |v| == |w| && Flat(v, g, ch) == Flat(w, g, ch)
  {
    hide Flat;
    forall j | 0 <= j < 16 * SecCount(g, ch) ensures Flat(v, g, ch)[j] == Flat(w, g, ch)[j] {
      SecBounds(g, ch, j / 16);
      FlatAt(v, g, ch, j);
      FlatAt(w, g, ch, j);
    }
    FlatLength(v, g, ch);
    FlatLength(w, g, ch);
  }

  lemma {:induction false} FlatLength(v: seq<Sector>, g: Geometry, ch: seq<nat>)
    requires PlacedDir(g, ch) && g.End() <= |v|
    ensures |Flat(v, g, ch)| == 16 * SecCount(g, ch)
  {
  }

  /** Entry j replaced in its sector is entry j replaced in the table, and no table of clusters changes. */
  lemma {:induction false} FlatStored(v: seq<Sector>, g: Geometry, ch: seq<nat>, j: nat, ofs: nat, bs: seq<Byte>, w: seq<Sector>)
    requires PlacedDir(g, ch) && g.End() <= |v| && j < 16 * SecCount(g, ch) && ofs + |bs| <= 32
    requires forall i, k {:trigger ch[i], ch[k]} | 0 <= i < k < |ch| :: ch[i] != ch[k]
    requires var s := SecAt(g, ch, j / 16); s < |v| && w == v[s := Patch(v[s], 32 * (j % 16) + ofs, bs)]
    ensures var e := Flat(v, g, ch)[j]; Flat(w, g, ch) == Flat(v, g, ch)[j := e[..ofs] + bs + e[ofs + |bs|..]]
  {
    hide Flat;
    var s := SecAt(g, ch, j / 16);
    FlatLength(v, g, ch);
    FlatLength(w, g, ch);
    FlatAt(v, g, ch, j);
    forall k | 0 <= k < 16 * SecCount(g, ch) && k != j ensures Flat(w, g, ch)[k] == Flat(v, g, ch)[k] {
      FlatAt(v, g, ch, k);
      FlatAt(w, g, ch, k);
      if k / 16 == j / 16 {
        SlotElsewhere(v[s], j % 16, k % 16, ofs, bs);
      } else {
        if k / 16 < j / 16 { SecInjective(g, ch, k / 16, j / 16); } else { SecInjective(g, ch, j / 16, k / 16); }
      }
    }
    FlatAt(w, g, ch, j);
    SlotHere(v[s], j % 16, ofs, bs);
  }

  lemma {:induction false} SlotElsewhere(s: Sector, i: nat, k: nat, ofs: nat, bs: seq<Byte>)
    requires i < 16 && k < 16 && i != k && ofs + |bs| <= 32
    ensures Slot(Patch(s, 32 * i + ofs, bs), k) == Slot(s, k)
  {
    hide Patch;
    var p := Patch(s, 32 * i + ofs, bs);
    forall j | 0 <= j < 32 ensures Slot(p, k)[j] == Slot(s, k)[j] { assert Slot(p, k)[j] == p[32 * k + j] && Slot(s, k)[j] == s[32 * k + j]; }
  }

  lemma {:induction false} SlotHere(s: Sector, i: nat, ofs: nat, bs: seq<Byte>)
    requires i < 16 && ofs + |bs| <= 32
    ensures Slot(Patch(s, 32 * i + ofs, bs), i) == Slot(s, i)[..ofs] + bs + Slot(s, i)[ofs + |bs|..]
  {
    hide Patch;
    var p := Patch(s, 32 * i + ofs, bs);
    var e := Slot(s, i)[..ofs] + bs + Slot(s, i)[ofs + |bs|..];
    forall k | 0 <= k < 32 ensures Slot(p, i)[k] == e[k] { assert Slot(p, i)[k] == p[32 * i + k] && Slot(s, i)[k] == s[32 * i + k]; }
    assert Slot(p, i) == e;
  }

  // ---------------------------------------------------------------- the cursor

  /** The volume as the directory object sees it, the directory's chain, the object's cursor, and where the
      volume's window is. */
  datatype DirState = DirState(v: seq<Sector>, f: seq<nat>, g: Geometry, sclust: nat, ch: seq<nat>, dptr: nat, sect: nat, clust: nat, w: nat)

  ghost predicate Sane(s: DirState) {
    && s.g.Sound() && s.g.End() <= |s.v| && Rooted(s.g, s.f, s.sclust, s.ch) && PlacedDir(s.g, s.ch)
  }

  /** The part of the directory the source can reach. */
  function Entries(s: DirState): (t: seq<Entry>)
    requires PlacedDir(s.g, s.ch) && s.g.End() <= |s.v|
    ensures |t| <= MAX_ENTRIES
  {
    var t := Flat(s.v, s.g, s.ch);
    if |t| <= MAX_ENTRIES then t else t[..MAX_ENTRIES]
  }

  /** The cursor is at entry j. */
  predicate Points(s: DirState, j: nat) {
    && PlacedDir(s.g, s.ch) && j < 16 * SecCount(s.g, s.ch) && j < MAX_ENTRIES && s.dptr == 32 * j && s.sect == SecAt(s.g, s.ch, j / 16)
    && (if s.ch == [] then s.clust == 0 else j / 16 / s.g.csize < |s.ch| && s.clust == s.ch[j / 16 / s.g.csize])
  }

  /** Sector k belongs to a cluster in use that is not the directory's, or to the root area, which is not the
      directory's when that is in clusters. */
  ghost predicate Foreign(s: DirState, k: nat) {
    !s.g.InFat1(k) && !s.g.InFat2(k) && if k < s.g.database then s.ch != [] else ForeignCluster(s, k)
  }

  ghost predicate ForeignCluster(s: DirState, k: nat) {
    exists c: nat {:trigger s.g.InCluster(k, c)} :: s.g.InCluster(k, c) && Others(s, c)
  }

  predicate Others(s: DirState, c: nat) { c < |s.f| && s.f[c] != 0 && c !in s.ch }

  /** The window has not gone to a sector of others. */
  ghost predicate WindowKept(s: DirState, t: DirState) { t.w == s.w || !Foreign(s, t.w) }

  /** Nothing has changed but the cursor, the window, and the disk inside the tables, which mean the same. */
  ghost predicate Kept(s: DirState, t: DirState) {
    t == s.(v := t.v, dptr := t.dptr, sect := t.sect, clust := t.clust, w := t.w) && SameData(s.v, t.v, s.g) && WindowKept(s, t)
  }

  /** What belongs to others, entries and sectors, is as before, the window has not gone there, and clusters
      that were taken were free. */
  ghost predicate StrangersKept(s: DirState, t: DirState) {
    && t.g == s.g && |t.v| == |s.v| && |t.f| == |s.f| && WindowKept(s, t) && (t.ch == [] <==> s.ch == [])
    && (forall c: nat {:trigger t.f[c]} | 2 <= c < |s.f| && Others(s, c) :: t.f[c] == s.f[c])
    && (forall k: nat {:trigger t.v[k]} | k < |s.v| && Foreign(s, k) :: t.v[k] == s.v[k])
    && (forall c: nat {:trigger c in t.ch} | c in t.ch :: c in s.ch || (2 <= c < |s.f| && s.f[c] == 0))
  }

  lemma {:induction false} StrangersStay(s: DirState, t: DirState, c: nat)
    requires StrangersKept(s, t) && 2 <= c && Others(s, c)
    ensures Others(t, c)
  {
  }

  lemma {:induction false} ForeignStays(s: DirState, t: DirState, k: nat)
    requires StrangersKept(s, t) && Foreign(s, k)
    ensures Foreign(t, k)
  {
    hide WindowKept, Others;
    if k >= s.g.database {
      var c: nat :| s.g.InCluster(k, c) && Others(s, c);
      StrangersStay(s, t, c);
    }
  }

  lemma {:induction false} StrangersTransitive(s: DirState, t: DirState, u: DirState)
    requires StrangersKept(s, t) && StrangersKept(t, u)
    ensures StrangersKept(s, u)
  {
    hide Foreign;
    forall c: nat | 2 <= c < |s.f| && Others(s, c) ensures u.f[c] == s.f[c] { StrangersStay(s, t, c); }
    forall k: nat | k < |s.v| && Foreign(s, k) ensures u.v[k] == s.v[k] { ForeignStays(s, t, k); }
    if Foreign(s, u.w) { ForeignStays(s, t, u.w); }
    forall c: nat | c in u.ch ensures c in s.ch || (2 <= c < |s.f| && s.f[c] == 0) {
      if c !in t.ch && Others(s, c) { StrangersStay(s, t, c); }
    }
  }

  lemma {:induction false} ForeignInData(s: DirState, k: nat)
    requires s.g.Sound() && Foreign(s, k)
    ensures k < s.g.End() && !s.g.InFat1(k) && !s.g.InFat2(k)
  {
    hide Geometry.Sound, Geometry.InCluster;
    AreasOrdered(s.g);
    if k >= s.g.database {
      var c: nat :| s.g.InCluster(k, c) && Others(s, c);
      ClusterInArea(s.g, k, c);
    }
  }

  lemma {:induction false} KeptStrangers(s: DirState, t: DirState)
    requires Sane(s) && Kept(s, t)
    ensures StrangersKept(s, t)
  {
    hide Foreign, Geometry.Sound, Geometry.End, Rooted;
    forall k: nat | k < |s.v| && Foreign(s, k) ensures t.v[k] == s.v[k] { ForeignInData(s, k); }
  }

  /** A table access leaves the window where it was or puts it into the table. */
  lemma {:induction false} DriftedKept(s: DirState, t: DirState)
    requires s.g.Sound() && s.g.End() <= NO_SECTOR && s.g.Drifted(s.w, t.w)
    ensures WindowKept(s, t)
  {
    hide Foreign;
    if Foreign(s, t.w) { ForeignInData(s, t.w); }
  }

  /** Nor are the sectors of a free cluster foreign. */
  lemma {:induction false} SpareNotForeign(s: DirState, k: nat, c: nat)
    requires s.g.Sound() && s.g.InCluster(k, c) && c < |s.f| && s.f[c] == 0
    ensures !Foreign(s, k)
  {
    hide Geometry.InCluster, Geometry.Sound;
    ClusterInArea(s.g, k, c);
    if Foreign(s, k) {
      var d: nat :| s.g.InCluster(k, d) && Others(s, d);
      ClusterUnique(s.g, k, c, d);
    }
  }

  /** The directory's own sectors are not foreign. */
  lemma {:induction false} OwnNotForeign(s: DirState, k: nat)
    requires Sane(s) && k < SecCount(s.g, s.ch)
    ensures !Foreign(s, SecAt(s.g, s.ch, k))
  {
    hide Geometry.End, IsClusterSize, Rooted;
    var x := SecAt(s.g, s.ch, k);
    SecBounds(s.g, s.ch, k);
    OwnArea(s, k);
    if ForeignCluster(s, x) {
      var c: nat :| s.g.InCluster(x, c) && Others(s, c);
      OwnElsewhere(s, k, c);
    }
  }

  /** Clusters are behind the root area. */
  lemma {:induction false} OwnArea(s: DirState, k: nat)
    requires Sane(s) && k < SecCount(s.g, s.ch)
    ensures s.ch != [] ==> SecAt(s.g, s.ch, k) >= s.g.database
  {
    hide Geometry.Sound, Geometry.End, SecAt, Rooted;
    SecBounds(s.g, s.ch, k);
    if s.ch != [] { ClusterInArea(s.g, SecAt(s.g, s.ch, k), s.ch[k / s.g.csize]); }
  }

  lemma {:induction false} OwnElsewhere(s: DirState, k: nat, c: nat)
    requires Sane(s) && k < SecCount(s.g, s.ch) && c !in s.ch
    ensures !s.g.InCluster(SecAt(s.g, s.ch, k), c)
  {
    var x := SecAt(s.g, s.ch, k);
    SecBounds(s.g, s.ch, k);
    if s.ch == [] {
      RootNotData(s.g, x, c);
    } else {
      hide Geometry.Sound, Geometry.End, SecAt;
      if s.g.InCluster(x, c) { ClusterUnique(s.g, x, s.ch[k / s.g.csize], c); }
    }
  }

  lemma {:induction false} RootNotData(g: Geometry, x: nat, c: nat)
    requires x < g.database
    ensures !g.InCluster(x, c)
  {
    if c >= 2 { MulMono(0, c - 2, g.csize); }
  }

  lemma {:induction false} KeptSane(s: DirState, t: DirState)
    requires Sane(s) && Kept(s, t)
    ensures Sane(t) && Entries(t) == Entries(s)
  {
    hide Geometry.Sound, Geometry.End, Flat, Rooted, PlacedDir;
    FlatSame(s.v, t.v, s.g, s.ch);
  }

  lemma {:induction false} KeptTransitive(s: DirState, t: DirState, u: DirState)
    requires Kept(s, t) && Kept(t, u)
    ensures Kept(s, u)
  {
    SameDataTransitive(s.v, t.v, u.v, s.g);
  }

  /** The window over the cursor's sector holds its entry. */
  lemma {:induction false} EntryHere(s: DirState, j: nat)
    requires Sane(s) && Points(s, j)
    ensures j < |Entries(s)| && s.sect < |s.v| && Entries(s)[j] == Slot(s.v[s.sect], j % 16)
    ensures 0 < s.sect < s.g.End() && !s.g.InFat1(s.sect) && !s.g.InFat2(s.sect)
    ensures s.dptr % SECTOR_SIZE == 32 * (j % 16)
  {
    hide Geometry.Sound, Geometry.End, Flat, Rooted, SecAt, Slot, IsClusterSize, SecCount;
    DivModUnique(j / 16, 32 * (j % 16), SECTOR_SIZE) by { assert 32 * j == j / 16 * SECTOR_SIZE + 32 * (j % 16); }
    SecBounds(s.g, s.ch, j / 16);
    FlatAt(s.v, s.g, s.ch, j);
    FlatLength(s.v, s.g, s.ch);
  }

  /** Moving on inside a sector or a cluster. */
  lemma {:induction false} AdvanceNear(s: DirState, j: nat)
    requires Sane(s) && Points(s, j) && j + 1 < MAX_ENTRIES
    ensures (j + 1) % 16 != 0 ==> Points(s.(dptr := 32 * (j + 1)), j + 1)
    ensures (j + 1) % 16 == 0 && s.ch == [] ==>
              (j + 1 < s.g.nRootdir <==> j + 1 < 16 * SecCount(s.g, s.ch))
              && (j + 1 < s.g.nRootdir ==> Points(s.(dptr := 32 * (j + 1), sect := s.sect + 1), j + 1))
    ensures (j + 1) % 16 == 0 && s.ch != [] && (j + 1) / 16 % s.g.csize != 0 ==> Points(s.(dptr := 32 * (j + 1), sect := s.sect + 1), j + 1)
  {
    hide Points, SecCount, PlacedDir, Rooted, Geometry.End, IsClusterSize;
    if (j + 1) % 16 != 0 {
      AdvanceInSector(s, j);
    } else if s.ch == [] {
      AdvanceInRoot(s, j);
    } else if (j + 1) / 16 % s.g.csize != 0 {
      AdvanceInCluster(s, j);
    }
  }

  lemma {:induction false} AdvanceInSector(s: DirState, j: nat)
    requires Points(s, j) && j + 1 < MAX_ENTRIES && (j + 1) % 16 != 0
    ensures Points(s.(dptr := 32 * (j + 1)), j + 1)
  {
    hide PlacedDir, SecAt, SecCount;
    assert (j + 1) / 16 == j / 16;
  }

  lemma {:induction false} AdvanceInRoot(s: DirState, j: nat)
    requires Sane(s) && Points(s, j) && j + 1 < MAX_ENTRIES && (j + 1) % 16 == 0 && s.ch == []
    ensures j + 1 < s.g.nRootdir <==> j + 1 < 16 * SecCount(s.g, s.ch)
    ensures j + 1 < s.g.nRootdir ==> Points(s.(dptr := 32 * (j + 1), sect := s.sect + 1), j + 1)
  {
    hide Geometry.End, Rooted, IsClusterSize;
    assert (j + 1) / 16 == j / 16 + 1;
  }

  lemma {:induction false} AdvanceInCluster(s: DirState, j: nat)
    requires Points(s, j) && j + 1 < MAX_ENTRIES && (j + 1) % 16 == 0 && s.ch != [] && s.g.csize > 0 && (j + 1) / 16 % s.g.csize != 0
    ensures Points(s.(dptr := 32 * (j + 1), sect := s.sect + 1), j + 1)
  {
    hide PlacedDir;
    var k := j / 16;
    assert (j + 1) / 16 == k + 1;
    QuotientStays(k, s.g.csize);
    QuotientInside(k + 1, |s.ch|, s.g.csize);
  }

  lemma {:induction false} QuotientInside(k: nat, n: nat, c: nat)
    requires c > 0 && k / c < n
    ensures k < n * c
  {
    MulMono(k / c + 1, n, c);
    assert k == c * (k / c) + k % c && (k / c + 1) * c == c * (k / c) + c;
  }

  /** The cursor is at the last entry of a cluster. */
  predicate AtClusterEnd(s: DirState, j: nat) {
    && Points(s, j) && s.ch != [] && s.g.csize > 0 && (j + 1) % 16 == 0 && (j + 1) / 16 % s.g.csize == 0
  }

  /** Index of the cursor's cluster in the chain. */
  function CursorCluster(s: DirState, j: nat): nat { if s.g.csize == 0 then 0 else j / 16 / s.g.csize }

  lemma {:induction false} FarIndex(s: DirState, j: nat)
    requires AtClusterEnd(s, j)
    ensures var i := CursorCluster(s, j);
            && i < |s.ch| && s.clust == s.ch[i] && 2 <= s.clust < s.g.nFatent
            && (j + 1) / 16 / s.g.csize == i + 1
            && (i + 1 == |s.ch| <==> j + 1 == 16 * (|s.ch| * s.g.csize))
            && (i + 1 < |s.ch| ==> (j + 1) / 16 < |s.ch| * s.g.csize)
  {
    hide Geometry.End, Geometry.Sound, IsClusterSize, SecAt;
    var k, c := j / 16, s.g.csize;
    assert (j + 1) / 16 == k + 1;
    QuotientSteps(k, c);
    assert k + 1 == c * ((k + 1) / c) + (k + 1) % c;
    var i := k / c;
    assert c * (i + 1) == k + 1;
    if i + 1 < |s.ch| { QuotientInside(k + 1, |s.ch|, c); }
  }

  /** Moving on to the next cluster: the table tells where it is. */
  lemma {:induction false} AdvanceLink(s: DirState, j: nat)
    requires Sane(s) && AtClusterEnd(s, j) && j + 1 < MAX_ENTRIES && CursorCluster(s, j) + 1 < |s.ch|
    ensures s.clust < |s.f| && 2 <= s.f[s.clust] < |s.f| == s.g.nFatent
    ensures var c := s.f[s.clust]; Points(s.(dptr := 32 * (j + 1), clust := c, sect := ClusterTop(s.g, c)), j + 1)
  {
    hide Geometry.End, Geometry.Sound, IsClusterSize;
    FarIndex(s, j);
    ChainLink(s.f, s.ch, CursorCluster(s, j));
  }

  /** Behind the last cluster the table marks the end. */
  lemma {:induction false} AdvanceEnd(s: DirState, j: nat)
    requires Sane(s) && AtClusterEnd(s, j) && CursorCluster(s, j) + 1 == |s.ch|
    ensures s.clust == s.ch[|s.ch| - 1] && s.clust < |s.f| == s.g.nFatent && s.f[s.clust] >= |s.f|
    ensures j + 1 == 16 * SecCount(s.g, s.ch)
  {
    hide Geometry.End, Geometry.Sound, IsClusterSize;
    FarIndex(s, j);
  }
}
