/** The directory object: a cursor over a directory's entries, and searching, reading, registering
    and removing names with it. */
module Directory {
  import opened Arith
  import opened Volume
  import opened Clusters
  import opened ChainTheory
  import opened Chain
  import opened LfnTheory
  import opened LfnFiller
  import opened DirTheory
  import opened DirPlaceTheory
  import opened DirSteps
  import opened DirFiles
  import opened Lfn
  import opened NumName

  class Dir {
    const fs: FatFs
    /** The long-name working buffer of the volume. */
    var lfn: LfnBuf
    var sclust: Word32
    var dptr: Word32
    var sect: Word32
    var clust: Word32
    var blkOfs: nat
    var fn: ShortName
    var status: Byte
    /** The directory's chain; empty for the fixed root. */
    ghost var ch: seq<nat>

    ghost function S(): DirState
      requires fs.Valid()
      reads this, fs, fs.win, fs.disk
    {
      DirState(fs.View(), fs.Fat(), fs.geo, sclust, ch, dptr, sect, clust, fs.winsect)
    }

    ghost predicate Valid()
      reads this, fs, fs.win, fs.disk
    {
      fs.Valid() && Sane(S())
    }

    /** A directory object for the directory that starts at sclust, 0 for the root. */
    constructor (fs: FatFs, sclust: Word32, ghost ch: seq<nat>)
      requires fs.Valid() && Rooted(fs.geo, fs.Fat(), sclust, ch) && PlacedDir(fs.geo, ch)
      ensures Valid() && this.fs == fs && this.sclust == sclust && this.ch == ch && sect == 0
    {
      this.fs, this.sclust, this.ch := fs, sclust, ch;
      dptr, sect, clust, blkOfs, status := 0, 0, 0, NO_BLOCK, 0;
      lfn, fn := seq<Unit>(MAX_LFN + 1, _ => 0), seq<Byte>(11, _ => 0x20);
    }

    /** The cluster walk of dir_sdi. */
    method Follow(start: Word32, ofs: Word32) returns (res: FResult, clst: Word32, rest: Word32)
      requires Valid() && ch != [] && start == ch[0]
      modifies fs`winsect, fs`wflag, fs`mirrorStale, fs.win, fs.disk
      ensures Valid() && Kept(old(S()), S()) && res in {Ok, IntErr, DiskErr}
      ensures res == Ok ==> FollowedTo(S(), ofs, clst, rest)
      ensures res == IntErr ==> ofs / ENTRY_SIZE >= 16 * SecCount(fs.geo, ch)
    {
      hide FatFs.Valid, FatFs.View, FatFs.Fat, Geometry.Sound, Geometry.End, Table, PlacedDir;
      ghost var s := S();
      ghost var i := 0;
      clst, rest, res := start, ofs, Ok;
      FollowStart(s, ofs);
      var csz := fs.geo.csize * SECTOR_SIZE;
      while rest >= csz
        invariant Valid() && Kept(s, S()) && res == Ok
        invariant Following(s, ofs, i, clst, rest)
        decreases rest
      {
        FollowFacts(s, ofs, i, clst, rest);
        ghost var t := S();
        clst := fs.GetFat(clst);
        TableWindow(t, S());
        KeptByGet(t, S());
        KeptTransitive(s, t, S());
        if clst == DISK_ERROR { res := DiskErr; break; }
        if clst < 2 || clst >= fs.geo.nFatent { res := IntErr; break; }
        rest := rest - csz;
        FollowNext(s, ofs, i, clst, rest);
        i := i + 1;
      }
      if res == Ok { FollowEnd(s, S(), ofs, i, clst, rest); }
    }

    /** dir_sdi over the fixed root area. */
    method SdiRoot(ofs: Word32) returns (res: FResult)
      requires Valid() && ch == [] && ofs % ENTRY_SIZE == 0 && ofs < MAX_DIR
      modifies this`dptr, this`sect, this`clust
      ensures Valid() && Kept(old(S()), S()) && res == (if OnEntry(S(), ofs) then Ok else IntErr)
      ensures res == Ok ==> Points(S(), ofs / ENTRY_SIZE)
    {
      hide FatFs.Valid, FatFs.View, FatFs.Fat, Geometry.End, Geometry.Sound, Table, Sane, Points, SecCount;
      ghost var s := S();
      res := IntErr;
      SdiStatic(s, ofs);
      SdiStaticBound(s, ofs);
      dptr := ofs;
      if ofs / ENTRY_SIZE < fs.geo.nRootdir {
        clust := 0;
        sect := fs.geo.dirbase + ofs / SECTOR_SIZE;
        res := Ok;
      }
      KeptMoved(s, S());
    }

    /** dir_sdi over a cluster chain. */
    method SdiChain(start: Word32, ofs: Word32) returns (res: FResult)
      requires Valid() && ch != [] && start == ch[0] && ofs % ENTRY_SIZE == 0 && ofs < MAX_DIR
      modifies this`dptr, this`sect, this`clust, fs`winsect, fs`wflag, fs`mirrorStale, fs.win, fs.disk
      ensures Valid() && Kept(old(S()), S()) && res in {Ok, IntErr, DiskErr}
      ensures res == Ok ==> Points(S(), ofs / ENTRY_SIZE)
      ensures res == IntErr ==> !OnEntry(S(), ofs)
    {
      hide FatFs.Valid, FatFs.View, FatFs.Fat, Geometry.End, Geometry.Sound, Table, Sane, Points, FollowedTo, SecCount;
      ghost var s := S();
      var clst, rest;
      res, clst, rest := Follow(start, ofs);
      ghost var t := S();
      dptr := ofs;
      if res == Ok {
        SdiDynamic(t, ofs, clst, rest);
        SdiSector(t, clst, rest);
        clust := clst;
        sect := Clst2Sect(fs.geo, clst) + rest / SECTOR_SIZE;
      }
      KeptMoved(t, S());
      KeptTransitive(s, t, S());
    }

    /** dir_sdi. */
    method Sdi(ofs: Word32) returns (res: FResult)
      requires Valid()
      modifies this`dptr, this`sect, this`clust, fs`winsect, fs`wflag, fs`mirrorStale, fs.win, fs.disk
      ensures Valid() && Kept(old(S()), S()) && res in {Ok, IntErr, DiskErr}
      ensures res == Ok ==> ofs % ENTRY_SIZE == 0 && Points(S(), ofs / ENTRY_SIZE)
      ensures res == IntErr ==> !OnEntry(S(), ofs)
    {
      hide FatFs.Valid, FatFs.View, FatFs.Fat, Geometry.End, Geometry.Sound, Table, Sane, Points;
      RootKnown(S());
      KeptMoved(S(), S());
      if ofs >= MAX_DIR || ofs % ENTRY_SIZE != 0 {
        res := IntErr;
      } else {
        var clst := sclust;
        if clst == 0 && fs.geo.fsType == FAT32 { clst := fs.geo.dirbase; }
        if clst == 0 {
          res := SdiRoot(ofs);
        } else {
          res := SdiChain(clst, ofs);
        }
      }
    }

    /** dir_clear: the window and then every sector of the cluster are zeroed. */
    method Clear(clst: Word32) returns (res: FResult)
      requires fs.Valid() && 2 <= clst < fs.geo.nFatent
      modifies fs`winsect, fs`wflag, fs`mirrorStale, fs.win, fs.disk
      ensures res in {Ok, DiskErr}
      ensures res == Ok ==> fs.Valid() && Cleared(old(fs.View()), fs.View(), fs.geo, clst) && fs.Fat() == old(fs.Fat())
      ensures fs.Valid() ==> OnlyCluster(old(fs.View()), fs.View(), fs.geo, clst) && fs.Fat() == old(fs.Fat())
      ensures fs.winsect == old(fs.winsect) || fs.geo.InCluster(fs.winsect, clst)
    {
      hide FatFs.View, Geometry.Sound, Geometry.End, Cleared, Agree, Table, OnlyCluster;
      ghost var u := fs.View();
      res := fs.SyncWindow();
      AgreeOnly(u, fs.View(), fs.geo, clst);
      AgreeTable(u, fs.View(), fs.geo);
      if res == Ok {
        ghost var v := fs.disk.sectors;
        var top := Clst2Sect(fs.geo, clst);
        ClearPlace(fs.geo, clst);
        CleanView();
        fs.winsect := top;
        forall i | 0 <= i < SECTOR_SIZE { fs.win[i] := 0; }
        res := ZeroSectors(top);
        if res == Ok {
          Rejoin(v, clst, top);
          AgreeCleared(u, v, fs.View(), fs.geo, clst);
        }
        if fs.Valid() {
          CleanView();
          OnlyClusterSince(u, v, fs.View(), fs.geo, clst, top);
          OnlyClusterTable(u, fs.View(), fs.geo, clst);
        }
      }
    }

    lemma {:induction false} CleanView()
      requires fs.Valid() && !fs.wflag
      ensures fs.View() == fs.disk.sectors && (fs.geo.nFats == 2 && !fs.mirrorStale ==> CopiesAgree(fs.disk.sectors, fs.geo, -1))
    {
    }

    /** The zeroed buffer written over the sectors of a cluster, up to the first failure. */
    method ZeroSectors(top: nat) returns (res: FResult)
      modifies fs.disk
      ensures res in {Ok, DiskErr} && |fs.disk.sectors| == old(|fs.disk.sectors|)
      ensures forall s {:trigger fs.disk.sectors[s]} | 0 <= s < |fs.disk.sectors| && !(top <= s < top + fs.geo.csize) ::
                fs.disk.sectors[s] == old(fs.disk.sectors[s])
      ensures res == Ok ==> forall s {:trigger fs.disk.sectors[s]} | top <= s < top + fs.geo.csize :: s < |fs.disk.sectors| && Blank(fs.disk.sectors[s])
    {
      var zeros := seq<Byte>(SECTOR_SIZE, _ => 0);
      assert Blank(zeros);
      hide Blank;
      ghost var v := fs.disk.sectors;
      var n := 0;
      var ok := true;
      while n < fs.geo.csize && ok
        invariant 0 <= n <= fs.geo.csize && |fs.disk.sectors| == |v|
        invariant forall s {:trigger fs.disk.sectors[s]} | 0 <= s < |v| && !(top <= s < top + fs.geo.csize) :: fs.disk.sectors[s] == v[s]
        invariant n > 0 ==> top + n <= |v|
        invariant forall s {:trigger fs.disk.sectors[s]} | top <= s < top + n :: Blank(fs.disk.sectors[s])
        decreases fs.geo.csize - n, ok
      {
        ghost var before := fs.disk.sectors;
        ok := fs.disk.Write(zeros, top + n);
        forall s | top <= s < top + n ensures Blank(fs.disk.sectors[s]) {
          assert Blank(before[s]) && fs.disk.sectors[s] == before[s];
        }
        if ok { n := n + 1; }
      }
      res := if n == fs.geo.csize then Ok else DiskErr;
    }

    /** Once all its sectors are zero on the disk, the zeroed window over the cluster is right again. */
    lemma {:induction false} Rejoin(v: seq<Sector>, clst: Word32, top: Word32)
      requires fs.win.Length == SECTOR_SIZE && fs.geo.Sound() && fs.geo.End() <= |v| == |fs.disk.sectors| <= 0xFFFF_FFFF
      requires 2 <= clst < fs.geo.nFatent && top == Clst2Sect(fs.geo, clst) && fs.winsect == top && !fs.wflag && Blank(fs.win[..])
      requires fs.geo.nFats == 2 && !fs.mirrorStale ==> CopiesAgree(v, fs.geo, -1)
      requires forall s {:trigger fs.disk.sectors[s]} | 0 <= s < |v| && !(top <= s < top + fs.geo.csize) :: fs.disk.sectors[s] == v[s]
      requires forall s {:trigger fs.disk.sectors[s]} | top <= s < top + fs.geo.csize && s < |v| :: Blank(fs.disk.sectors[s])
      ensures fs.Valid() && Cleared(v, fs.View(), fs.geo, clst) && fs.Fat() == Table(v, fs.geo)
    {
      hide Geometry.Sound, Geometry.End, Table, Blank;
      ClearPlace(fs.geo, clst);
      AreasOrdered(fs.geo);
      BlankEqual(fs.win[..], fs.disk.sectors[top]);
      SameDataTable(v, fs.disk.sectors, fs.geo);
    }

    /** The stretching branch of dir_next: a zeroed cluster is appended to the chain. */
    method Stretch() returns (res: FResult, clst: Word32)
      requires Valid() && ch != [] && clust == ch[|ch| - 1] && clust < |fs.Fat()| && fs.Fat()[clust] >= |fs.Fat()|
      modifies this`ch, fs, fs.win, fs.disk
      ensures res in {Ok, Denied, IntErr, DiskErr}
      ensures res == Ok ==> Valid() && Stretched(old(S()), S(), clst) && dptr == old(dptr) && clust == old(clust) && sect == old(sect)
      ensures res == Denied || res == IntErr ==> Valid() && Kept(old(S()), S())
      ensures res == Ok ==> 2 <= clst < fs.geo.nFatent
      ensures res == DiskErr && fs.Valid() ==> Halted(old(S()), S())
    {
      hide FatFs.Valid, FatFs.View, FatFs.Fat, Geometry.Sound, Geometry.End, Sane, Stretched, Cleared, Agree, OnlyCluster, Halted, Foreign, WindowKept, KeepsUsed, Allocated, Geometry.InCluster;
      ghost var s := S();
      fs.GeometryFacts();
      clst := CreateChain(fs, clust);
      ghost var m := S();
      TableWindow(s, m);
      if clst == 0 || clst == 1 {
        res := if clst == 0 then Denied else IntErr;
        AllocateRefused(s, m);
      } else if clst == DISK_ERROR {
        res := DiskErr;
        TableHalted(s, m);
      } else {
        AllocateBounds(s, m, clst);
        res := Clear(clst);
        if res == DiskErr && fs.Valid() { ClearingHalted(s, m, S(), clst); }
        if res == Ok {
          ch := ch + [clst];
          TakenWindow(s, m, S(), clst);
          StretchedBy(s, m, S(), clst);
          StretchedSane(s, S(), clst);
        }
      }
    }

    /** Where the next sector lies in another cluster of the chain. */
    method NextCluster(ofs: Word32, stretch: bool, ghost s: DirState, ghost j: nat) returns (res: FResult)
      requires Valid() && Sane(s) && S() == s.(sect := s.sect + 1) && AtClusterEnd(s, j) && j + 1 < MAX_ENTRIES && ofs == 32 * (j + 1)
      modifies this`sect, this`clust, this`ch, fs, fs.win, fs.disk
      ensures Lost(stretch, res) || (Valid() && Advanced(s, j, stretch, res, if res == Ok then S().(dptr := ofs) else S()))
      ensures res == DiskErr && fs.Valid() ==> Halted(s, S())
    {
      hide FatFs.Valid, FatFs.View, FatFs.Fat, Geometry.Sound, Geometry.End, Sane, Stretched, Agree, Advanced, AtClusterEnd, Halted;
      ghost var s1 := S();
      FarFacts(s, j);
      var clst := fs.GetFat(clust);
      ghost var s2 := S();
      TableWindow(s1, s2);
      FarGot(s, s1, s2);
      if clst == DISK_ERROR {
        res := DiskErr;
        FarFailed(s, j, stretch, res, s2);
        HaltedSelf(s, s2);
      } else if clst < fs.geo.nFatent {
        FarLinked(s, j, stretch, s2);
        clust := clst;
        sect := Clst2Sect(fs.geo, clst);
        res := Ok;
      } else if !stretch {
        sect := 0;
        res := NoFile;
        FarFailed(s, j, stretch, res, S());
      } else {
        FarEnd(s, j, s2);
        res, clst := Stretch();
        if res == Ok {
          FarGrown(s, j, s2, S(), clst);
          clust := clst;
          sect := Clst2Sect(fs.geo, clst);
        } else if res != DiskErr {
          FarRefused(s, j, s2, S(), res);
        } else if fs.Valid() {
          HaltedFrom(s, s2, S());
        }
      }
    }

    /** The next entry begins another sector. */
    method NextSector(ofs: Word32, stretch: bool, ghost j: nat) returns (res: FResult)
      requires Valid() && Points(S(), j) && j + 1 < MAX_ENTRIES && ofs == 32 * (j + 1) && (j + 1) % 16 == 0
      modifies this`sect, this`clust, this`ch, fs, fs.win, fs.disk
      ensures Lost(stretch, res) || (Valid() && Advanced(old(S()), j, stretch, res, if res == Ok then S().(dptr := ofs) else S()))
      ensures res == DiskErr && fs.Valid() ==> Halted(old(S()), S())
    {
      hide FatFs.Valid, FatFs.View, FatFs.Fat, Geometry.Sound, Geometry.End, Sane, Advanced, AtClusterEnd, Points, Halted;
      ghost var s := S();
      fs.GeometryFacts();
      SectorFacts(s, j);
      sect := sect + 1;
      SaneMoved(s, S());
      if clust == 0 {
        if ofs / ENTRY_SIZE >= fs.geo.nRootdir {
          sect := 0;
          res := NoFile;
        } else {
          res := Ok;
        }
        RootAdvanced(s, j, stretch, res, S());
      } else if ofs / SECTOR_SIZE % fs.geo.csize == 0 {
        AtEnd(s, j);
        res := NextCluster(ofs, stretch, s, j);
      } else {
        res := Ok;
        InnerAdvanced(s, j, stretch, S());
      }
    }

    /** dir_next. */
    method Next(stretch: bool, ghost j: nat) returns (res: FResult)
      requires Valid() && Points(S(), j)
      modifies this`dptr, this`sect, this`clust, this`ch, fs, fs.win, fs.disk
      ensures Lost(stretch, res) || (Valid() && Advanced(old(S()), j, stretch, res, S()))
      ensures res == DiskErr && fs.Valid() ==> Halted(old(S()), S())
    {
      hide FatFs.Valid, FatFs.View, FatFs.Fat, Geometry.Sound, Geometry.End, Sane, Advanced, Points, Halted;
      ghost var s := S();
      NextOffset(s, j);
      var ofs := dptr + ENTRY_SIZE;
      if ofs >= MAX_DIR { sect := 0; }
      if sect == 0 {
        res := NoFile;
        EndAdvanced(s, j, stretch, S());
      } else {
        res := Ok;
        if ofs % SECTOR_SIZE == 0 {
          res := NextSector(ofs, stretch, j);
        } else {
          NearAdvanced(s, j, stretch);
        }
        if res == Ok {
          ghost var t := S();
          dptr := ofs;
          SaneMoved(t, S());
        }
      }
    }

    /** What a search with this object looks for. */
    ghost function K(): Key
      reads this`lfn, this`fn, this`status
    {
      Key(lfn, fn, status % 2 == 1, status / 0x40 % 2 == 1)
    }

    /** The sector of the current entry is brought into the window and the entry read. */
    method Load(ghost j: nat) returns (res: FResult, e: Entry)
      requires Valid() && Points(S(), j)
      modifies fs`winsect, fs`wflag, fs`mirrorStale, fs.win, fs.disk
      ensures Valid() && Kept(old(S()), S()) && Points(S(), j) && res in {Ok, DiskErr}
      ensures res == Ok ==> j < |Entries(S())| && e == Entries(S())[j] && fs.winsect == sect
    {
      hide FatFs.Valid, FatFs.View, Geometry.Sound, Geometry.End, Sane, Points, Entries, Agree, Table, Kept;
      ghost var s := S();
      fs.GeometryFacts();
      EntryHere(s, j);
      e := seq<Byte>(ENTRY_SIZE, _ => 0);
      res := fs.MoveWindow(sect);
      AgreeTable(s.v, fs.View(), fs.geo);
      LoadWindow(s, S(), j);
      KeptByGet(s, S());
      PointsKept(s, S(), j);
      if res == Ok {
        EntryHere(S(), j);
        var o := dptr % SECTOR_SIZE;
        e := fs.win[o..o + ENTRY_SIZE];
      }
    }

    /** dir_find's treatment of one entry. */
    method Examine(up: Folding, e: Entry, ord: Byte, sum: Byte) returns (o: Outcome)
      modifies this`blkOfs
      ensures o == FindStep(up, K(), Scan(ord, sum, old(blkOfs)), e, dptr)
      ensures o.Go? || o.Hit? ==> blkOfs == o.scan.block && o.scan.ord <= 0xFF && o.scan.sum <= 0xFF
    {
      hide HasLast, WithoutLast, CmpLfn, SfnSum;
      var c, a := e[0], Attr(e);
      if c == 0 {
        o := End;
      } else if c == DELETED || (a / ATTR_VOLUME % 2 == 1 && a != ATTR_LONG) {
        blkOfs := NO_BLOCK;
        o := Go(Scan(0xFF, sum, blkOfs));
      } else if a == ATTR_LONG {
        if status / 0x40 % 2 == 0 {
          o := ExamineLong(up, e, ord, sum);
        } else {
          o := Go(Scan(ord, sum, blkOfs));
        }
      } else {
        var s := SumSfn(e);
        if ord == 0 && sum == s {
          o := Hit(Scan(ord, sum, blkOfs));
        } else if status % 2 == 0 && e[..11] == fn {
          o := Hit(Scan(ord, sum, blkOfs));
        } else {
          blkOfs := NO_BLOCK;
          o := Go(Scan(0xFF, sum, blkOfs));
        }
      }
    }

    method ExamineLong(up: Folding, e: Entry, ord0: Byte, sum0: Byte) returns (o: Outcome)
      modifies this`blkOfs
      ensures o == Go(FindLong(up, K(), Scan(ord0, sum0, old(blkOfs)), e, dptr))
      ensures blkOfs == o.scan.block && o.scan.ord <= 0xFF && o.scan.sum <= 0xFF
    {
      hide CmpLfn;
      var ord, sum: nat, c := ord0 as nat, sum0, Order(e);
      if HasLast(c) {
        sum := e[13];
        c := c - LAST_LONG;
        ord := c;
        blkOfs := dptr;
      }
      var same := false;
      if c == ord && sum == e[13] {
        same := CompareLfn(up, lfn, e);
      }
      OrderPositive(up, lfn, e);
      o := Go(Scan(if same then ord - 1 else 0xFF, sum, blkOfs));
    }

    /** dir_find. */
    method Find(up: Folding) returns (res: FResult)
      requires Valid()
      modifies this`dptr, this`sect, this`clust, this`ch, this`blkOfs, fs, fs.win, fs.disk
      ensures Valid() && Kept(old(S()), S()) && K() == old(K()) && res in {Ok, NoFile, DiskErr}
      ensures res == Ok ==> FoundHere(S(), up, K(), blkOfs)
      ensures res == NoFile ==> Absent(up, K(), Entries(S()))
      ensures FindMeans(S(), up, K(), res)
    {
      hide FatFs.Valid, FatFs.View, FatFs.Fat, Geometry.Sound, Geometry.End, Rooted, PlacedDir, Searches, FoundHere, Points, Entries, Kept, Advanced, FindStep, Passes, Absent, FindMeans;
      ghost var s, key := S(), K();
      NonEmpty(s);
      res := Sdi(0);
      OnEntrySame(s, S(), 0);
      if res == Ok {
        var ord: nat, sum: nat := 0xFF, 0xFF;
        blkOfs := NO_BLOCK;
        ghost var j := 0;
        SearchBegin(up, key, S());
        var going := true;
        while going
          invariant Valid() && Kept(s, S()) && K() == key && ord <= 0xFF && sum <= 0xFF && res in {Ok, NoFile, DiskErr}
          invariant going ==> Searches(S(), up, key, j, Scan(ord, sum, blkOfs))
          invariant !going && res == Ok ==> FoundHere(S(), up, key, blkOfs)
          invariant !going && res == NoFile ==> Absent(up, key, Entries(S()))
          decreases |Entries(s)| - j, going
        {
          going, res, ord, sum := FindEntry(up, ord, sum, s, key, j);
          j := j + 1;
        }
      }
      FindMeant(S(), up, key, res, blkOfs);
    }

    /** One round of dir_find's loop. */
    method FindEntry(up: Folding, ord0: Byte, sum0: Byte, ghost s: DirState, ghost key: Key, ghost j: nat) returns (going: bool, res: FResult, ord: Byte, sum: Byte)
      requires Valid() && Sane(s) && Kept(s, S()) && K() == key && Searches(S(), up, key, j, Scan(ord0, sum0, blkOfs))
      modifies this`dptr, this`sect, this`clust, this`ch, this`blkOfs, fs, fs.win, fs.disk
      ensures Valid() && Kept(s, S()) && K() == key && res in {Ok, NoFile, DiskErr} && j < |Entries(s)|
      ensures going ==> Searches(S(), up, key, j + 1, Scan(ord, sum, blkOfs))
      ensures !going && res == Ok ==> FoundHere(S(), up, key, blkOfs)
      ensures !going && res == NoFile ==> Absent(up, key, Entries(S()))
    {
      hide FatFs.Valid, FatFs.View, FatFs.Fat, Geometry.Sound, Geometry.End, Rooted, PlacedDir, Points, Entries, Kept, Advanced, FindStep, Absent, Searches, FoundHere;
      going, ord, sum := false, ord0, sum0;
      ghost var u, blk := S(), blkOfs;
      SearchPoints(u, up, key, j, Scan(ord, sum, blk));
      var e;
      res, e := Load(j);
      ghost var w := S();
      SearchKept(s, u, w, up, key, j, Scan(ord, sum, blk));
      if res == Ok {
        var o := Examine(up, e, ord, sum);
        SearchExamined(w, up, key, j, Scan(ord, sum, blk), e, o);
        match o
        case End => res := NoFile;
        case Hit(sc) =>
        case Go(sc) =>
          ord, sum := sc.ord, sc.sum;
          res := Next(false, j);
          going := res == Ok;
          SearchGoes(s, w, S(), up, key, j, sc, res);
      }
    }

    /** Bytes of the current entry are changed in the window. */
    method Store(ofs: nat, bs: seq<Byte>, ghost j: nat)
      requires Valid() && Points(S(), j) && fs.winsect == sect && ofs + |bs| <= ENTRY_SIZE
      modifies fs`wflag, fs.win
      ensures Valid() && Points(S(), j) && EntryStored(old(S()), j, ofs, bs, S())
    {
      hide FatFs.Valid, FatFs.View, Geometry.Sound, Geometry.End, Rooted, PlacedDir, Points, Entries, Table;
      ghost var s := S();
      EntryHere(s, j);
      fs.GeometryFacts();
      fs.StoreWindow(dptr % SECTOR_SIZE + ofs, bs);
      SameFat1(s.v, fs.View(), s.g);
      StoreDone(s, S(), j, ofs, bs);
    }

    /** dir_alloc. */
    method Alloc(n: nat) returns (res: FResult, ghost m: DirState)
      requires Valid() && n > 0
      modifies this`dptr, this`sect, this`clust, this`ch, fs, fs.win, fs.disk
      ensures res != DiskErr ==> Valid() && Grown(old(S()), S())
      ensures res == Ok ==> AllocatedHere(S(), n)
      ensures fs.Valid() ==> LiveKept(old(S()), m, S())
    {
      hide FatFs.Valid, FatFs.View, FatFs.Fat, Geometry.Sound, Geometry.End, Sane, Points, Entries, Kept, Advanced, Grown, AllocScan, AllocatedHere, LiveKept;
      ghost var s := S();
      res := Sdi(0);
      KeptGrown(s, S());
      m := S();
      GrownKept(s, m);
      if res == Ok {
        var c := 0;
        ghost var j := 0;
        AllocBegin(S(), n);
        var going := true;
        while going
          invariant res != DiskErr ==> Valid() && Grown(s, S())
          invariant going ==> res == Ok && AllocScan(S(), j, c, n)
          invariant !going && res == Ok ==> AllocatedHere(S(), n)
          invariant j <= MAX_ENTRIES && (fs.Valid() ==> LiveKept(s, m, S()))
          decreases MAX_ENTRIES - j, going
        {
          going, res, c, m := AllocEntry(n, c, s, j);
          j := j + 1;
        }
      }
      if res == NoFile { res := Denied; }
    }

    /** One round of dir_alloc's loop. */
    method AllocEntry(n: nat, c0: nat, ghost s: DirState, ghost j: nat) returns (going: bool, res: FResult, c: nat, ghost m: DirState)
      requires Valid() && Grown(s, S()) && n > 0 && AllocScan(S(), j, c0, n)
      modifies this`dptr, this`sect, this`clust, this`ch, fs, fs.win, fs.disk
      ensures res != DiskErr ==> Valid() && Grown(s, S())
      ensures going ==> res == Ok && AllocScan(S(), j + 1, c, n)
      ensures !going && res == Ok ==> AllocatedHere(S(), n)
      ensures j < MAX_ENTRIES && (fs.Valid() ==> LiveKept(s, m, S()))
    {
      hide FatFs.Valid, FatFs.View, FatFs.Fat, Geometry.Sound, Geometry.End, Rooted, PlacedDir, Points, Entries, Kept, Advanced, Grown, AllocScan, AllocatedHere, Halted, LiveKept;
      going, c := false, c0;
      ghost var u := S();
      AllocPoints(u, j, c, n);
      var e;
      res, e := Load(j);
      ghost var w := S();
      AllocKept(s, u, w, j, c, n);
      m := w;
      GrownKept(s, w);
      if res == Ok {
        AllocEntryOf(w, j, c, n);
        var free := e[0] == DELETED || e[0] == 0;
        if free && c + 1 == n {
          AllocFound(w, j, c, n);
        } else {
          AllocGoes(w, j, c, n);
          c := if free then c + 1 else 0;
          res := Next(true, j);
          going := res == Ok;
          if res != DiskErr {
            AllocNext(s, w, S(), j, c, n, res);
            m := S();
            GrownKept(s, m);
          } else if fs.Valid() {
            HaltedKept(s, w, S());
          }
        }
      }
    }

    /** The loop of dir_register over numbered short names: the first one no entry has. */
    method ChooseNumber(up: Folding) returns (res: FResult)
      requires Valid() && Storable(fn)
      modifies this`dptr, this`sect, this`clust, this`ch, this`blkOfs, this`fn, this`status, fs, fs.win, fs.disk
      ensures Valid() && Kept(old(S()), S()) && Storable(fn) && lfn == old(lfn) && res in {Ok, Denied, DiskErr}
      ensures res == Ok ==> Absent(up, Key(lfn, fn, false, true), Entries(S()))
      ensures res == Ok ==> exists n {:trigger Number(lfn, n)} :: 1 <= n < 100 && fn == Numbered(old(fn), Number(lfn, n))
    {
      hide FatFs.Valid, FatFs.View, FatFs.Fat, Geometry.Sound, Geometry.End, Rooted, PlacedDir, Points, Entries, Kept, Absent, FoundHere, Numbered, Number, Storable;
      ghost var s := S();
      var sn := fn;
      status := 0x40;
      KeptMoved(s, S());
      var n := 1;
      res := Ok;
      while n < 100 && res == Ok
        invariant Valid() && Kept(s, S()) && 1 <= n <= 100 && Storable(fn) && lfn == old(lfn) && status == 0x40 && res in {Ok, NoFile, DiskErr}
        invariant res == NoFile ==> Absent(up, Key(lfn, fn, false, true), Entries(S()))
        invariant res == NoFile ==> n < 100 && fn == Numbered(sn, Number(lfn, n))
        decreases 100 - n, res == Ok
      {
        fn := GenNumname(sn, lfn, n);
        NumberedStorable(sn, Number(lfn, n));
        ghost var t := S();
        res := Find(up);
        KeptTransitive(s, t, S());
        if res == Ok { n := n + 1; }
      }
      if n == 100 {
        res := Denied;
      } else if res == NoFile {
        res := Ok;
      }
    }

    /** The loop of dir_register over the pieces of the long name, last piece first. */
    method WriteName(name: seq<Unit>, pieces: nat, sum: Byte, ghost m: DirState, ghost i: nat, ghost b: seq<Entry>) returns (res: FResult, ghost done: nat)
      requires Valid() && HoldsName(lfn, name) && IsText(name) && 1 <= pieces == Pieces(|name|) && |b| == pieces + 1
      requires forall k {:trigger b[k]} | 0 <= k < pieces :: k <= pieces && 1 <= pieces - k <= 20 && b[k] == PutEntry(name, pieces - k, sum)
      requires Writing(m, S(), i, b, 0) && Points(S(), i)
      modifies this`dptr, this`sect, this`clust, this`ch, fs, fs.win, fs.disk
      ensures Valid() && res in {Ok, NoFile, DiskErr} && done <= pieces && Writing(m, S(), i, b, done)
      ensures res == Ok ==> done == pieces && Points(S(), i + pieces)
    {
      hide FatFs.Valid, FatFs.View, FatFs.Fat, Geometry.Sound, Geometry.End, Rooted, PlacedDir, Points, Entries, Kept, Writing, PutEntry, NameEntry, HoldsName, IsText, FillerLast;
      var n := pieces;
      res, done := Ok, 0;
      while n > 0 && res == Ok
        invariant Valid() && 0 <= n <= pieces && res in {Ok, NoFile, DiskErr} && done <= pieces && Writing(m, S(), i, b, done)
        invariant res == Ok ==> done == pieces - n && Points(S(), i + pieces - n)
        decreases n, res == Ok
      {
        var e := BuildLfn(lfn, name, n, sum);
        res, done := WritePiece(e, m, i, b, pieces - n);
        n := n - 1;
      }
    }

    /** One entry of the block is written and the cursor moved on. */
    method WritePiece(e: Entry, ghost m: DirState, ghost i: nat, ghost b: seq<Entry>, ghost k: nat) returns (res: FResult, ghost done: nat)
      requires Valid() && k < |b| && e == b[k] && Writing(m, S(), i, b, k) && Points(S(), i + k)
      modifies this`dptr, this`sect, this`clust, this`ch, fs, fs.win, fs.disk
      ensures Valid() && res in {Ok, NoFile, DiskErr} && k <= done <= k + 1 && Writing(m, S(), i, b, done)
      ensures res == Ok ==> done == k + 1 && Points(S(), i + k + 1)
    {
      hide FatFs.Valid, FatFs.View, FatFs.Fat, Geometry.Sound, Geometry.End, Rooted, PlacedDir, Points, Entries, Kept, Writing, EntryStored, Grown;
      res := WriteHere(e, m, i, b, k);
      done := k;
      if res == Ok {
        ghost var t := S();
        res := Next(false, i + k);
        done := k + 1;
        WritingKept(m, t, S(), i, b, k + 1);
      }
    }

    /** The current entry is overwritten in the window. */
    method WriteHere(e: Entry, ghost m: DirState, ghost i: nat, ghost b: seq<Entry>, ghost k: nat) returns (res: FResult)
      requires Valid() && k < |b| && e == b[k] && Writing(m, S(), i, b, k) && Points(S(), i + k)
      modifies fs`winsect, fs`wflag, fs`mirrorStale, fs.win, fs.disk
      ensures Valid() && res in {Ok, DiskErr} && Writing(m, S(), i, b, if res == Ok then k + 1 else k)
      ensures res == Ok ==> Points(S(), i + k)
    {
      hide FatFs.Valid, FatFs.View, FatFs.Fat, Geometry.Sound, Geometry.End, Rooted, PlacedDir, Points, Entries, Kept, Writing, EntryStored;
      ghost var t := S();
      var before;
      res, before := Load(i + k);
      ghost var u := S();
      WritingKept(m, t, u, i, b, k);
      if res == Ok {
        Store(0, e, i + k);
        WritingStored(m, u, S(), i, b, k);
      }
    }

    /** Length of the terminated name in the buffer. */
    method NameLength(ghost name: seq<Unit>) returns (len: nat)
      requires HoldsName(lfn, name) && IsText(name)
      ensures len == |name|
    {
      NameUnits(lfn, name);
      len := 0;
      while lfn[len] != 0
        invariant 0 <= len <= |name|
        decreases |name| - len
      {
        len := len + 1;
      }
    }

    /** dir_register behind the choice of the short name: entries are reserved and written. */
    method WriteBlock(name: seq<Unit>, pieces: nat, flags: Byte) returns (res: FResult, ghost m: DirState)
      requires Valid() && HoldsName(lfn, name) && IsText(name) && (pieces == 0 || pieces == Pieces(|name|))
      modifies this`dptr, this`sect, this`clust, this`ch, fs, fs.win, fs.disk
      ensures res != DiskErr ==> Valid()
      ensures res == Ok ==> pieces <= 20 && RegisteredState(old(S()), m, S(), PutBlock(name, pieces, fn, flags))
      ensures fs.Valid() ==> LiveKept(old(S()), m, S())
    {
      hide FatFs.Valid, FatFs.View, FatFs.Fat, Sane, Points, Entries, Kept, Writing, Grown, PutBlock, AllocatedHere, FirstRun, RegisteredState, ShortEntry, PutEntry, NameEntry, HoldsName, LiveKept, IsText, SfnSum, Pieces;
      ghost var s := S();
      SmallPieces(name);
      res, m := Alloc(pieces + 1);
      if res == Ok {
        ghost var u := S();
        ghost var i := BlockStart(u, pieces + 1);
        ghost var b := PutBlock(name, pieces, fn, flags);
        PutBlockIs(name, pieces, fn, flags);
        m := u;
        WritingStart(m, i, b);
        ghost var done := 0;
        if pieces > 0 {
          res := Sdi(dptr - pieces * ENTRY_SIZE);
          WritingKept(m, u, S(), i, b, 0);
          if res == Ok {
            var sum := SumSfn(fn + seq<Byte>(21, _ => 0));
            BlockPieces(name, pieces, fn, flags, fn + seq<Byte>(21, _ => 0));
            res, done := WriteName(name, pieces, sum, m, i, b);
          }
        }
        if res == Ok {
          res := WriteHere(MakeShort(flags), m, i, b, pieces);
          done := if res == Ok then pieces + 1 else pieces;
          if res == Ok { RegisteredDone(s, m, S(), i, b); }
        }
        WritingKeepsLive(s, m, S(), i, b, done);
      }
    }

    /** The short entry: all zero but the name and the case flags. */
    function MakeShort(flags: Byte): (e: Entry)
      reads this`fn
      ensures e == ShortEntry(fn, flags)
    {
      fn + [0, flags] + seq(19, _ => 0)
    }

    /** A short name that lost characters is numbered until no entry has it. */
    method SettleShort(up: Folding) returns (res: FResult)
      requires Valid() && Storable(fn)
      modifies this`dptr, this`sect, this`clust, this`ch, this`blkOfs, this`fn, this`status, fs, fs.win, fs.disk
      ensures Valid() && Kept(old(S()), S()) && Storable(fn) && lfn == old(lfn) && res in {Ok, Denied, DiskErr}
      ensures res == Ok ==> status == old(status) && if old(K()).loss then Absent(up, Key(lfn, fn, false, true), Entries(S())) else fn == old(fn)
    {
      hide FatFs.Valid, FatFs.View, FatFs.Fat, Geometry.Sound, Geometry.End, Rooted, PlacedDir, Points, Entries, Kept, Storable, Absent;
      KeptMoved(S(), S());
      var sn := status;
      res := Ok;
      if sn % 2 == 1 {
        res := ChooseNumber(up);
        if res == Ok { status := sn; }
      }
    }

    /** dir_register. */
    method Register(up: Folding, ghost name: seq<Unit>) returns (res: FResult, ghost m: DirState)
      requires Valid() && HoldsName(lfn, name) && IsText(name) && Storable(fn) && (K().loss ==> HasLongFlag(status)) && !K().noLfn
      modifies this, fs, fs.win, fs.disk
      ensures lfn == old(lfn) && (res != DiskErr ==> Valid()) && (res == Ok ==> status == old(status))
      ensures fs.Valid() ==> LiveKept(old(S()), m, S())
      ensures res == Ok ==> var p := if HasLongFlag(status) then Pieces(|name|) else 0;
                p <= 20 && Storable(fn) && RegisteredState(old(S()), m, S(), PutBlock(name, p, fn, CaseFlags(status)))
                && (p == 0 || FillerLast(name) ==> PutBlock(name, p, fn, CaseFlags(status)) == Block(name, p, fn, CaseFlags(status)))
      ensures res == Ok && !old(K()).loss ==> fn == old(fn)
      ensures res == Ok && old(K()).loss ==> Absent(up, Key(lfn, fn, false, true), old(Entries(S())))
      ensures res == Ok && FillerLast(name) && Shaped(old(Entries(S()))) && Absent(up, old(K()), old(Entries(S()))) ==>
                Shaped(Entries(S())) && FoundAt(up, old(K()), Entries(S()), dptr / ENTRY_SIZE)
    {
      hide FatFs.Valid, FatFs.View, FatFs.Fat, Geometry.Sound, Geometry.End, Rooted, PlacedDir, Points, Entries, Kept, RegisteredState, Block, PutBlock, HoldsName, FillerLast, Storable, Absent, FoundAt, Shaped, LiveKept, Grown;
      ghost var s, key := S(), K();
      m := s;
      KeptGrown(s, s) by { KeptMoved(s, s); }
      GrownKept(s, s);
      if status / 0x20 % 2 == 1 || status / 0x80 % 2 == 1 {
        res := InvalidName;
      } else {
        SmallPieces(name);
        var len := NameLength(name);
        var pieces := if HasLongFlag(status) then (len + 12) / 13 else 0;
        res := SettleShort(up);
        ghost var t := S();
        KeptSane(s, t);
        m := t;
        KeptGrown(s, t);
        GrownKept(s, t);
        if res == Ok {
          var str := NameOf(len, name);
          res, m := WriteBlock(str, pieces, CaseFlags(status));
          if fs.Valid() { KeptLive(s, t, m, S()); }
          if res == Ok {
            RegisteredSince(s, t, m, S(), PutBlock(name, pieces, fn, CaseFlags(status)));
            PutBlockIs(name, pieces, fn, CaseFlags(status));
            if FillerLast(name) { RegisterFinds(s, m, S(), up, key, name, pieces, fn, CaseFlags(status)); }
          }
        }
      }
    }

    /** The name in the buffer as a sequence. */
    method NameOf(len: nat, ghost name: seq<Unit>) returns (str: seq<Unit>)
      requires HoldsName(lfn, name) && len == |name|
      ensures str == name
    {
      str := lfn[..len];
    }

    /** dir_read's treatment of one entry. */
    method Receive(e: Entry, ord: Byte, sum: Byte) returns (o: ReadOutcome)
      modifies this`blkOfs, this`lfn
      ensures o == ReadStep(Reader(Scan(ord, sum, old(blkOfs)), old(lfn)), e, dptr)
      ensures o.ReadGo? || o.ReadHit? ==> lfn == o.r.lfn && blkOfs == o.r.scan.block && o.r.scan.ord <= 0xFF && o.r.scan.sum <= 0xFF
    {
      hide HasLast, WithoutLast, PickLfn, SfnSum;
      var b, a := e[0], Attr(e);
      if b == 0 {
        o := ReadEnd;
      } else if b == DELETED || b == 0x2E || IsLabel(a) {
        o := ReadGo(Reader(Scan(0xFF, sum, blkOfs), lfn));
      } else if a == ATTR_LONG {
        o := ReceiveLong(e, ord, sum);
      } else {
        var s := SumSfn(e);
        if ord != 0 || sum != s { blkOfs := NO_BLOCK; }
        o := ReadHit(Reader(Scan(ord, sum, blkOfs), lfn));
      }
    }

    method ReceiveLong(e: Entry, ord0: Byte, sum0: Byte) returns (o: ReadOutcome)
      modifies this`blkOfs, this`lfn
      ensures o == ReadGo(ReadLong(Reader(Scan(ord0, sum0, old(blkOfs)), old(lfn)), e, dptr))
      ensures lfn == o.r.lfn && blkOfs == o.r.scan.block && o.r.scan.ord <= 0xFF && o.r.scan.sum <= 0xFF
    {
      hide PickLfn;
      var ord, sum: nat, c := ord0 as nat, sum0, Order(e);
      OrderPositive([], lfn, e);
      if HasLast(c) {
        sum := e[13];
        c := c - LAST_LONG;
        ord := c;
        blkOfs := dptr;
      }
      var valid := false;
      PickPositive(lfn, e);
      if c == ord && sum == e[13] {
        lfn, valid := CollectLfn(lfn, e);
      }
      o := ReadGo(Reader(Scan(if valid then ord - 1 else 0xFF, sum, blkOfs), lfn));
    }

    /** dir_read, filtered for files and directories. */
    method Read(ghost first: nat) returns (res: FResult)
      requires Valid() && (sect != 0 ==> Points(S(), first))
      modifies this`dptr, this`sect, this`clust, this`ch, this`blkOfs, this`lfn, fs, fs.win, fs.disk
      ensures Valid() && Kept(old(S()), S()) && res in {Ok, NoFile, DiskErr} && (res != Ok ==> sect == 0)
      ensures res == Ok ==> exists o, s {:trigger Scan(o, s, blkOfs)} ::
                ReadHere(S(), Reader(Scan(0xFF, 0xFF, old(blkOfs)), old(lfn)), first, Reader(Scan(o, s, blkOfs), lfn))
      ensures res == NoFile && old(sect) != 0 ==> NoMore(Reader(Scan(0xFF, 0xFF, old(blkOfs)), old(lfn)), Entries(S()), first)
    {
      hide FatFs.Valid, FatFs.View, FatFs.Fat, Geometry.Sound, Geometry.End, Rooted, PlacedDir, Reads, ReadHere, Points, Entries, Kept, Advanced, ReadStep, ReadPasses, NoMore;
      ghost var s, r := S(), Reader(Scan(0xFF, 0xFF, blkOfs), lfn);
      KeptMoved(s, s);
      res := NoFile;
      var ord: nat, sum: nat := 0xFF, 0xFF;
      ghost var j := first;
      var going := sect != 0;
      ghost var began := going;
      if going { ReadBegin(s, r, first); }
      while going
        invariant Valid() && Kept(s, S()) && ord <= 0xFF && sum <= 0xFF && res in {Ok, NoFile, DiskErr}
        invariant going ==> Reads(S(), r, first, j, Reader(Scan(ord, sum, blkOfs), lfn))
        invariant !going && res == Ok ==> ReadHere(S(), r, first, Reader(Scan(ord, sum, blkOfs), lfn))
        invariant !going && began && res == NoFile ==> NoMore(r, Entries(S()), first)
        decreases |Entries(s)| - j, going
      {
        going, res, ord, sum := ReadEntry(ord, sum, s, r, first, j);
        j := j + 1;
      }
      if res != Ok {
        ghost var t := S();
        sect := 0;
        KeptMoved(t, S());
        KeptTransitive(s, t, S());
        KeptSane(t, S());
      } else {
        assert ReadHere(S(), r, first, Reader(Scan(ord, sum, blkOfs), lfn));
      }
    }

    /** One round of dir_read's loop. */
    method ReadEntry(ord0: Byte, sum0: Byte, ghost s: DirState, ghost r: Reader, ghost first: nat, ghost j: nat)
      returns (going: bool, res: FResult, ord: Byte, sum: Byte)
      requires Valid() && Sane(s) && Kept(s, S()) && Reads(S(), r, first, j, Reader(Scan(ord0, sum0, blkOfs), lfn))
      modifies this`dptr, this`sect, this`clust, this`ch, this`blkOfs, this`lfn, fs, fs.win, fs.disk
      ensures Valid() && Kept(s, S()) && res in {Ok, NoFile, DiskErr} && j < |Entries(s)|
      ensures going ==> Reads(S(), r, first, j + 1, Reader(Scan(ord, sum, blkOfs), lfn))
      ensures !going && res == Ok ==> ReadHere(S(), r, first, Reader(Scan(ord, sum, blkOfs), lfn))
      ensures !going && res == NoFile ==> NoMore(r, Entries(S()), first)
    {
      hide FatFs.Valid, FatFs.View, FatFs.Fat, Geometry.Sound, Geometry.End, Rooted, PlacedDir, Points, Entries, Kept, Advanced, ReadStep, NoMore, Reads, ReadHere;
      going, ord, sum := false, ord0, sum0;
      ghost var u, q := S(), Reader(Scan(ord0, sum0, blkOfs), lfn);
      ReadPoints(u, r, first, j, q);
      var e;
      res, e := Load(j);
      ghost var w := S();
      ReadKept(s, u, w, r, first, j, q);
      if res == Ok {
        var o := Receive(e, ord, sum);
        ReadExamined(w, r, first, j, q, e, o);
        match o
        case ReadEnd => res := NoFile;
        case ReadHit(p) => ord, sum := p.scan.ord, p.scan.sum;
        case ReadGo(p) =>
          ord, sum := p.scan.ord, p.scan.sum;
          res := Next(false, j);
          going := res == Ok;
          ReadGoes(s, w, S(), r, first, j, p, res);
      }
    }

    /** dir_remove: the entries from the start of the block to the current one are marked deleted. */
    method Remove(ghost k: nat) returns (res: FResult, ghost done: nat)
      requires Valid() && Points(S(), k) && (blkOfs != NO_BLOCK ==> blkOfs % ENTRY_SIZE == 0 && blkOfs <= dptr)
      modifies this`dptr, this`sect, this`clust, this`ch, fs, fs.win, fs.disk
      ensures Valid() && res in {Ok, IntErr, DiskErr} && (res == Ok ==> done == k + 1)
      ensures var i := if blkOfs == NO_BLOCK then k else blkOfs / ENTRY_SIZE; i <= done <= k + 1 && Erasing(old(S()), S(), i, done)
      ensures res == Ok ==> var i := if blkOfs == NO_BLOCK then k else blkOfs / ENTRY_SIZE;
                i <= k < |old(Entries(S()))| && Entries(S()) == Erased(old(Entries(S())), i, k) && OnlyDir(old(S()), S()) && fs.Fat() == old(fs.Fat())
    {
      hide FatFs.Valid, FatFs.View, FatFs.Fat, Geometry.Sound, Geometry.End, Rooted, PlacedDir, Points, Entries, Kept, Erasing, OnlyDir;
      ghost var m := S();
      var last := dptr;
      RemoveStart(m, k);
      KeptMoved(m, m);
      ghost var i := if blkOfs == NO_BLOCK then k else blkOfs / ENTRY_SIZE;
      res := Ok;
      if blkOfs != NO_BLOCK { res := Sdi(blkOfs); }
      done := i;
      ErasingStart(m, S(), i);
      if res == Ok {
        ghost var j := i;
        var going := true;
        while going
          invariant Valid() && res in {Ok, NoFile, DiskErr} && i <= j <= k + 1
          invariant i <= done <= k + 1 && Erasing(m, S(), i, done) && (!going && res == Ok ==> done == k + 1)
          invariant going ==> res == Ok && j <= k && Erasing(m, S(), i, j) && Points(S(), j)
          invariant !going && res == Ok ==> j == k + 1 && Erasing(m, S(), i, j)
          decreases k + 1 - j, going
        {
          going, res, done := EraseEntry(last, m, i, j, k);
          j := if j <= k then j + 1 else j;
        }
        if res == Ok { ErasingDone(m, S(), i, k); ErasingFat(m, S(), i, k); }
      }
      if res == NoFile { res := IntErr; }
    }

    /** One round of dir_remove's loop. */
    method EraseEntry(last: Word32, ghost m: DirState, ghost i: nat, ghost j: nat, ghost k: nat) returns (going: bool, res: FResult, ghost done: nat)
      requires Valid() && Erasing(m, S(), i, j) && Points(S(), j) && j <= k && last == 32 * k
      modifies this`dptr, this`sect, this`clust, this`ch, fs, fs.win, fs.disk
      ensures Valid() && res in {Ok, NoFile, DiskErr} && j <= done <= j + 1 && Erasing(m, S(), i, done)
      ensures going ==> res == Ok && j < k && done == j + 1 && Points(S(), j + 1)
      ensures !going && res == Ok ==> j == k && done == j + 1
    {
      hide FatFs.Valid, FatFs.View, FatFs.Fat, Geometry.Sound, Geometry.End, Rooted, PlacedDir, Points, Entries, Kept, Erasing, EntryStored, Grown;
      going := false;
      ghost var t := S();
      var e;
      res, e := Load(j);
      ErasingKept(m, t, S(), i, j);
      done := j;
      if res == Ok {
        ghost var u := S();
        Store(0, [DELETED], j);
        ErasingStored(m, u, S(), i, j);
        done := j + 1;
        AtOffset(S(), j);
        if dptr < last {
          ghost var w := S();
          res := Next(false, j);
          going := res == Ok;
          ErasingKept(m, w, S(), i, j + 1);
        }
      }
    }
  }
}
