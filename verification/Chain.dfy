/** Allocating and freeing clusters through the window. */
module Chain {
  import opened Arith
  import opened Volume
  import opened ChainTheory

  /** The free-cluster counter is unknown or right. */
  ghost predicate FreeExact(fs: FatFs)
    requires fs.Valid()
    reads fs`freeClst, fs`winsect, fs`wflag, fs`mirrorStale, fs.win, fs.disk
  {
    fs.freeClst <= fs.geo.nFatent - 2 ==> fs.freeClst == FreeCount(fs.Fat())
  }

  /** Some entry holds 1, which no table should. */
  ghost predicate HasInvalidLink(f: seq<nat>) {
    exists c: nat {:trigger f[c]} :: 2 <= c < |f| && f[c] == 1
  }

  /** create_chain follows the chain instead of stretching it. */
  predicate Follows(f: seq<nat>, clst: nat) {
    clst != 0 && clst < |f| && 2 <= f[clst] < |f|
  }

  /** create_chain refuses the cluster it is asked to stretch from. */
  predicate Insane(f: seq<nat>, clst: nat) {
    clst != 0 && (clst < 2 || clst >= |f| || f[clst] < 2)
  }

  /** Used entries other than clst are as before. */
  ghost predicate KeepsUsed(f: seq<nat>, h: seq<nat>, clst: nat) {
    |h| == |f| && forall c {:trigger h[c]} | 2 <= c < |f| && c != clst && f[c] != 0 :: h[c] == f[c]
  }

  /** Stretches the chain that ends in clst, or starts a new one when clst is 0.
      Returns the next cluster, or 0: no free cluster, 1: internal error, DISK_ERROR. */
  method CreateChain(fs: FatFs, clst: Word32) returns (ncl: Word32)
    requires fs.Valid()
    modifies fs, fs.win, fs.disk
    ensures fs.Valid() && SameData(old(fs.View()), fs.View(), fs.geo) && fs.geo.Drifted(old(fs.winsect), fs.winsect)
    ensures ncl < 2 ==> fs.Fat() == old(fs.Fat()) && fs.freeClst == old(fs.freeClst)
    ensures ncl == 0 ==> old(fs.freeClst) == 0 || FreeCount(fs.Fat()) == 0
    ensures ncl == 1 ==> Insane(old(fs.Fat()), clst) || HasInvalidLink(old(fs.Fat()))
    ensures KeepsUsed(old(fs.Fat()), fs.Fat(), clst) && (Follows(old(fs.Fat()), clst) ==> fs.Fat() == old(fs.Fat()))
    ensures ncl >= 2 && ncl != DISK_ERROR && Follows(old(fs.Fat()), clst) ==>
              fs.Fat() == old(fs.Fat()) && ncl == fs.Fat()[clst] && fs.freeClst == old(fs.freeClst)
    ensures ncl >= 2 && ncl != DISK_ERROR && !Follows(old(fs.Fat()), clst) ==>
              Allocated(old(fs.Fat()), fs.Fat(), clst, ncl) && fs.lastClst == ncl
    ensures ncl >= 2 && ncl != DISK_ERROR ==> fs.geo.InFat1(fs.winsect)
    ensures ncl != DISK_ERROR && old(FreeExact(fs)) ==> FreeExact(fs)
  {
    hide FatFs.Valid, FatFs.View, FatFs.Fat, Geometry.Sound, Allocated;
    fs.GeometryFacts();
    var scl: Word32;
    if clst == 0 {
      scl := fs.lastClst;
      if scl == 0 || scl >= fs.geo.nFatent { scl := 1; }
    } else {
      var cs := fs.GetFat(clst);
      if cs < 2 { return 1; }
      if cs == DISK_ERROR { return cs; }
      if cs < fs.geo.nFatent { return cs; }
      scl := clst;
    }
    if fs.freeClst == 0 { return 0; }
    ncl := 0;
    if scl == clst {
      ncl := scl + 1;
      if ncl >= fs.geo.nFatent { ncl := 2; }
      var cs := fs.GetFat(ncl);
      if cs == 1 || cs == DISK_ERROR { return cs; }
      if cs != 0 {
        cs := fs.lastClst;
        if 2 <= cs < fs.geo.nFatent { scl := cs; }
        ncl := 0;
      }
    }
    if ncl == 0 {
      ncl := FindFree(fs, scl);
      if ncl < 2 || ncl == DISK_ERROR { return; }
    }
    ncl := TakeCluster(fs, clst, ncl);
  }

  /** The wrapping search: starts behind scl and looks at no cluster twice. */
  method FindFree(fs: FatFs, scl: Word32) returns (ncl: Word32)
    requires fs.Valid() && 1 <= scl < fs.geo.nFatent
    modifies fs`winsect, fs`wflag, fs`mirrorStale, fs.win, fs.disk
    ensures fs.Valid() && Agree(old(fs.View()), fs.View(), fs.geo) && fs.Fat() == old(fs.Fat())
    ensures fs.geo.Drifted(old(fs.winsect), fs.winsect)
    ensures ncl == 0 ==> FreeCount(fs.Fat()) == 0
    ensures ncl == 1 ==> HasInvalidLink(fs.Fat())
    ensures ncl >= 2 && ncl != DISK_ERROR ==> ncl < fs.geo.nFatent && fs.Fat()[ncl] == 0
  {
    hide FatFs.Valid, FatFs.View, FatFs.Fat, Geometry.Sound, Agree;
    fs.GeometryFacts();
    ncl := scl;
    var n := fs.geo.nFatent;
    ghost var f, v := fs.Fat(), fs.View();
    AgreeReflexive(v, fs.geo);
    while true
      invariant fs.Valid() && Agree(v, fs.View(), fs.geo) && fs.Fat() == f && fs.geo.Drifted(old(fs.winsect), fs.winsect)
      invariant 1 <= ncl < n && (ncl < scl ==> 2 <= ncl)
      invariant ncl >= scl ==> forall c {:trigger f[c]} | scl < c <= ncl :: f[c] != 0
      invariant ncl < scl ==> forall c {:trigger f[c]} | scl < c < n || 2 <= c <= ncl :: f[c] != 0
      decreases if ncl < scl then scl - ncl else n - ncl + scl
    {
      ncl := ncl + 1;
      if ncl >= n {
        ncl := 2;
        if ncl > scl {
          NoneFree(f, n);
          return 0;
        }
      }
      ghost var before := fs.View();
      var cs := fs.GetFat(ncl);
      AgreeTransitive(v, before, fs.View(), fs.geo);
      if cs == 0 { return; }
      if cs == 1 || cs == DISK_ERROR { return cs; }
      if ncl == scl {
        NoneFree(f, n);
        return 0;
      }
    }
  }

  /** A free cluster marked as the end of a chain, or the store of the mark failed. */
  lemma {:induction false} TakenAlone(f: seq<nat>, h: seq<nat>, free: nat, end: nat, clst: nat)
    requires 2 <= free < |f| && f[free] == 0 && (h == f[free := end] || OnlyEntry(f, h, free))
    ensures KeepsUsed(f, h, clst)
    ensures h == f[free := end] && end >= |f| ==> Allocated(f, h, 0, free) && FreeCount(h) + 1 == FreeCount(f)
  {
    hide FreeCount;
    FreeCountUpdate(f, free, end);
  }

  /** And then linked behind the last cluster of a chain, or the store of the link failed. */
  lemma {:induction false} TakenLinked(f: seq<nat>, h: seq<nat>, x: seq<nat>, free: nat, end: nat, clst: nat)
    requires 2 <= free < |f| && f[free] == 0 && h == f[free := end] && end >= |f| && 2 <= clst < |f| && f[clst] >= |f|
    requires x == h[clst := free] || OnlyEntry(h, x, clst)
    ensures KeepsUsed(f, x, clst)
    ensures x == h[clst := free] ==> Allocated(f, x, clst, free) && FreeCount(x) + 1 == FreeCount(f)
  {
    hide FreeCount;
    FreeCountUpdate(f, free, end);
    FreeCountUpdate(h, clst, free);
  }

  /** Marks a free cluster as the end of a chain, links it and updates the allocation hints. */
  method TakeCluster(fs: FatFs, clst: Word32, free: Word32) returns (ncl: Word32)
    requires fs.Valid() && 2 <= free < fs.geo.nFatent && fs.Fat()[free] == 0
    requires clst != 0 ==> 2 <= clst < fs.geo.nFatent && fs.Fat()[clst] >= fs.geo.nFatent
    requires fs.freeClst != 0
    modifies fs, fs.win, fs.disk
    ensures fs.Valid() && SameData(old(fs.View()), fs.View(), fs.geo) && fs.geo.Drifted(old(fs.winsect), fs.winsect)
    ensures ncl == DISK_ERROR || ncl == free
    ensures KeepsUsed(old(fs.Fat()), fs.Fat(), clst)
    ensures ncl == free ==> Allocated(old(fs.Fat()), fs.Fat(), clst, ncl) && fs.lastClst == ncl && fs.geo.InFat1(fs.winsect)
    ensures ncl == free && old(FreeExact(fs)) ==> FreeExact(fs)
  {
    hide FatFs.Valid, FatFs.View, FatFs.Fat, Geometry.Sound, Geometry.Truncated, SameData, FreeCount, KeepsUsed, Allocated, OnlyEntry;
    fs.GeometryFacts();
    ghost var f, v := fs.Fat(), fs.View();
    ncl := free;
    var res := fs.PutFat(ncl, EOC);
    ghost var h, w := fs.Fat(), fs.View();
    TakenAlone(f, h, ncl, fs.geo.Truncated(EOC), clst);
    if res == Ok && clst != 0 {
      res := fs.PutFat(clst, ncl);
      SameDataTransitive(v, w, fs.View(), fs.geo);
      TakenLinked(f, h, fs.Fat(), ncl, fs.geo.Truncated(EOC), clst);
    }
    if res == Ok {
      fs.lastClst := ncl;
      if fs.freeClst <= fs.geo.nFatent - 2 { fs.freeClst := fs.freeClst - 1; }
      fs.fsiDirty := true;
    } else {
      ncl := DISK_ERROR;
    }
  }

  /** The table with pclst made the end of its chain, when there is a pclst. */
  function Cut(g: Geometry, f: seq<nat>, pclst: nat): seq<nat> {
    if 2 <= pclst < |f| then f[pclst := g.Truncated(EOC)] else f
  }

  /** Entries outside a set are as before. */
  ghost predicate KeepsOthers(f: seq<nat>, h: seq<nat>, except: set<nat>) {
    |h| == |f| && forall c {:trigger h[c]} | 0 <= c < |f| && c !in except :: h[c] == f[c]
  }

  /** The entries remove_chain may change. */
  ghost function Removal(g: Geometry, f: seq<nat>, clst: nat, pclst: nat): set<nat> {
    Trail(Cut(g, f, pclst), clst) + if pclst == 0 then {} else {pclst}
  }

  /** Frees the clusters from clst on; pclst, when not 0, becomes the end of its chain. */
  method RemoveChain(fs: FatFs, clst: Word32, pclst: Word32) returns (res: FResult)
    requires fs.Valid()
    modifies fs, fs.win, fs.disk
    ensures fs.Valid() && SameData(old(fs.View()), fs.View(), fs.geo) && fs.geo.Drifted(old(fs.winsect), fs.winsect)
    ensures fs.lastClst == old(fs.lastClst)
    ensures !(2 <= clst < fs.geo.nFatent) ==> res == IntErr && fs.Fat() == old(fs.Fat())
    ensures res == Ok ==> fs.Fat() == Freed(Cut(fs.geo, old(fs.Fat()), pclst), clst) && fs.geo.InFat1(fs.winsect)
    ensures KeepsOthers(old(fs.Fat()), fs.Fat(), Removal(fs.geo, old(fs.Fat()), clst, pclst))
    ensures res == Ok && old(FreeExact(fs)) && (pclst == 0 || InUse(old(fs.Fat()), pclst)) ==> FreeExact(fs)
  {
    hide FatFs.Valid, FatFs.View, FatFs.Fat, Geometry.Sound, Geometry.Truncated, SameData, FreeCount, Freed, Trail;
    hide KeepsOthers, OnlyEntry;
    fs.GeometryFacts();
    ghost var f0, v0 := fs.Fat(), fs.View();
    ghost var cut := Cut(fs.geo, f0, pclst);
    SameDataRefl(v0, fs.geo);
    OnlyEntryKeeps(f0, f0, Removal(fs.geo, f0, clst, pclst), pclst);
    if clst < 2 || clst >= fs.geo.nFatent { return IntErr; }
    res := Ok;
    if pclst != 0 {
      res := fs.PutFat(pclst, EOC);
      if res != Ok {
        OnlyEntryKeeps(f0, fs.Fat(), Removal(fs.geo, f0, clst, pclst), pclst);
        return;
      }
      FreeCountUpdate(f0, pclst, fs.geo.Truncated(EOC));
    }
    ghost var w := fs.View();
    assert fs.Fat() == cut;
    assert old(FreeExact(fs)) && (pclst == 0 || InUse(f0, pclst)) ==> FreeExact(fs);
    res := FreeTrail(fs, clst);
    SameDataTransitive(v0, w, fs.View(), fs.geo);
    CutKeeps(fs.geo, f0, fs.Fat(), clst, pclst);
  }

  lemma {:induction false} OnlyEntryKeeps(f: seq<nat>, h: seq<nat>, except: set<nat>, c: nat)
    requires f == h || (OnlyEntry(f, h, c) && c in except)
    ensures KeepsOthers(f, h, except)
  {
  }

  lemma {:induction false} CutKeeps(g: Geometry, f: seq<nat>, h: seq<nat>, clst: Word32, pclst: Word32)
    requires KeepsOthers(Cut(g, f, pclst), h, Trail(Cut(g, f, pclst), clst))
    ensures KeepsOthers(f, h, Removal(g, f, clst, pclst))
  {
    hide Trail;
  }

  /** What RemoveChain does to the table, called with the start of a chain nobody links to or with a tail and
      the cluster before it, is the removal of that chain. */
  lemma {:induction false} RemovesChain(g: Geometry, f: seq<nat>, ch: seq<nat>, pclst: nat)
    requires IsChain(f, ch) && g.Truncated(EOC) >= |f|
    requires if pclst == 0 then IsHead(f, ch[0]) else Linked(f, pclst) && f[pclst] == ch[0]
    ensures Removed(f, Freed(Cut(g, f, pclst), ch[0]), ch, pclst)
    ensures WellFormed(f) ==> WellFormed(Freed(Cut(g, f, pclst), ch[0]))
  {
    hide Freed, WellFormed, Geometry.Truncated;
    var cut := Cut(g, f, pclst);
    forall i | 0 <= i < |ch| ensures ch[i] != pclst {
      if pclst != 0 { CycleImpossible(f, ch, i); }
    }
    assert IsChain(cut, ch) by {
      forall i | 0 <= i < |ch| - 1 ensures cut[ch[i]] == ch[i + 1] { assert f[ch[i]] == ch[i + 1]; }
    }
    FreedChain(cut, ch);
    if WellFormed(f) { RemoveKeepsWellFormed(f, Freed(cut, ch[0]), ch, pclst); }
  }

  /** From f, whose trail from first on is being freed, h has been reached, with the trail from clst on to go. */
  ghost predicate Freeing(f: seq<nat>, first: nat, h: seq<nat>, clst: nat) {
    Freed(h, clst) == Freed(f, first) && Trail(h, clst) <= Trail(f, first) && KeepsOthers(f, h, Trail(f, first))
  }

  lemma {:induction false} FreeingStart(f: seq<nat>, first: nat)
    ensures Freeing(f, first, f, first)
  {
    hide Freed, Trail;
  }

  lemma {:induction false} FreeingKeeps(f: seq<nat>, first: nat, h: seq<nat>, clst: nat)
    requires Freeing(f, first, h, clst)
    ensures KeepsOthers(f, h, Trail(f, first)) && (Stops(h, clst) ==> h == Freed(f, first))
  {
    hide KeepsOthers;
  }

  /** One entry freed, or its writing failed. */
  lemma {:induction false} FreeingMore(f: seq<nat>, first: nat, h: seq<nat>, clst: nat, t: seq<nat>)
    requires Freeing(f, first, h, clst) && !Stops(h, clst) && OnlyEntry(h, t, clst)
    ensures KeepsOthers(f, t, Trail(f, first))
    ensures t == h[clst := 0] ==> Freeing(f, first, t, h[clst]) && (h[clst] >= |h| ==> t == Freed(f, first))
  {
    hide FreeCount;
    assert clst in Trail(h, clst);
  }

  method FreeTrail(fs: FatFs, first: Word32) returns (res: FResult)
    requires fs.Valid() && 2 <= first < fs.geo.nFatent
    modifies fs, fs.win, fs.disk
    ensures fs.Valid() && SameData(old(fs.View()), fs.View(), fs.geo) && fs.geo.Drifted(old(fs.winsect), fs.winsect)
    ensures fs.lastClst == old(fs.lastClst)
    ensures res == Ok ==> fs.Fat() == Freed(old(fs.Fat()), first) && fs.geo.InFat1(fs.winsect)
    ensures KeepsOthers(old(fs.Fat()), fs.Fat(), Trail(old(fs.Fat()), first))
    ensures res == Ok && old(FreeExact(fs)) ==> FreeExact(fs)
  {
    hide FatFs.Valid, FatFs.View, FatFs.Fat, Geometry.Sound, Geometry.Truncated, SameData, FreeCount, Freed, Trail, KeepsOthers, Freeing;
    fs.GeometryFacts();
    var clst := first;
    var n := fs.geo.nFatent;
    ghost var f, v := fs.Fat(), fs.View();
    FreeingStart(f, first);
    ghost var exact := FreeExact(fs);
    SameDataRefl(v, fs.geo);
    while true
      invariant fs.Valid() && SameData(v, fs.View(), fs.geo) && 2 <= clst < n
      invariant fs.geo.Drifted(old(fs.winsect), fs.winsect)
      invariant Freeing(f, first, fs.Fat(), clst)
      invariant exact ==> FreeExact(fs)
      invariant fs.lastClst == old(fs.lastClst)
      decreases |fs.Fat()| - FreeCount(fs.Fat())
    {
      ghost var h, w := fs.Fat(), fs.View();
      var nxt := fs.GetFat(clst);
      AgreeThenSame(w, fs.View(), fs.View(), fs.geo) by { SameDataRefl(fs.View(), fs.geo); }
      SameDataTransitive(v, w, fs.View(), fs.geo);
      w := fs.View();
      FreeingKeeps(f, first, h, clst);
      if nxt == 0 { return Ok; }
      if nxt == 1 { return IntErr; }
      if nxt == DISK_ERROR { return DiskErr; }
      res := fs.PutFat(clst, 0);
      SameDataTransitive(v, w, fs.View(), fs.geo);
      FreeingMore(f, first, h, clst, fs.Fat());
      if res != Ok { return; }
      FreeCountUpdate(h, clst, 0);
      UsedBounds(h, clst);
      if fs.freeClst < n - 2 {
        fs.freeClst := fs.freeClst + 1;
        fs.fsiDirty := true;
      }
      clst := nxt;
      if clst >= n { return Ok; }
    }
  }
}
