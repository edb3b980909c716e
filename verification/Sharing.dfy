/** Several open files and directories on one volume: whatever operation one of them goes through, the others keep
    their clusters, their bytes or entries, and the use of their objects. */
module Sharing {
  import opened Arith
  import opened Volume
  import opened Clusters
  import opened ChainTheory
  import opened FileTheory
  import opened File
  import D = DirPlaceTheory
  import DirSteps
  import Directory
  import DirTheory
  import LfnTheory

  predicate Disjoint(a: seq<nat>, b: seq<nat>) { forall c {:trigger c in a} | c in a :: c !in b }

  // ---------------------------------------------------------------- one operation, one other file

  /** A cluster of another file is none the operation may touch. */
  lemma {:induction false} OtherCluster(a: FileState, other: seq<nat>, c: nat)
    requires (other == [] || IsChain(a.f, other)) && Disjoint(other, a.chain) && c in other
    ensures 2 <= c < |a.f| && !Available(a.f, a.chain, c)
  {
    ChainUsed(a.f, other);
    var i :| 0 <= i < |other| && other[i] == c;
    assert InUse(a.f, other[i]);
  }

  /** Nor does it change a sector of another file. */
  lemma {:induction false} OtherSector(a: FileState, b: FileState, other: seq<nat>, s: nat)
    requires Isolated(a, b) && Placed(a.g, other, |a.v|) && OnChain(a.g, other, s)
    requires (other == [] || IsChain(a.f, other)) && Disjoint(other, a.chain)
    ensures s < |a.v| == |b.v| && b.v[s] == a.v[s]
  {
    hide Geometry.Sound, Geometry.InCluster, Available, IsChain, Disjoint;
    var c: nat :| c in other && a.g.InCluster(s, c);
    OnChainArea(a.g, other, s, |a.v|);
    OtherCluster(a, other, c);
    if OwnSector(a.g, a.f, a.chain, s) {
      var x: nat :| a.g.InCluster(s, x) && Available(a.f, a.chain, x);
      ClusterUnique(a.g, s, x, c);
    }
  }

  /** A file that shares no cluster with the one operated on keeps its chain and its bytes on the disk,
      whether or not the operation succeeded. */
  lemma {:induction false} OtherFileUntouched(a: FileState, b: FileState, other: seq<nat>, size: nat)
    requires Isolated(a, b) && a.g.Sound() && a.g.End() <= |a.v| && |a.f| == a.g.nFatent
    requires IsChain(a.f, other) && Disjoint(other, a.chain) && size <= Capacity(a.g, other) * SECTOR_SIZE
    ensures IsChain(b.f, other) && Placed(a.g, other, |a.v|) && Contents(b.v, a.g, other, size) == Contents(a.v, a.g, other, size)
  {
    hide Geometry.Sound, OnChain, Disjoint;
    OtherChain(a, b, other);
    forall s: nat | s < |a.v| && OnChain(a.g, other, s) ensures b.v[s] == a.v[s] {
      OtherSector(a, b, other, s);
    }
    SameSectorsSameContents(b.v, a.v, a.g, other, size);
  }

  lemma {:induction false} OtherChain(a: FileState, b: FileState, other: seq<nat>)
    requires Isolated(a, b) && IsChain(a.f, other) && Disjoint(other, a.chain)
    ensures IsChain(b.f, other)
  {
    hide Available, Disjoint;
    forall i | 0 <= i < |other| ensures b.f[other[i]] == a.f[other[i]] {
      OtherCluster(a, other, other[i]);
    }
    forall i | 0 <= i < |other| - 1 ensures b.f[other[i]] == other[i + 1] { assert a.f[other[i]] == other[i + 1]; }
  }

  /** The file only took free clusters, so its chain is still apart from the others. */
  lemma {:induction false} ChainsStayApart(a: FileState, b: FileState, other: seq<nat>)
    requires Isolated(a, b) && (other == [] || IsChain(a.f, other)) && Disjoint(other, a.chain)
    ensures Disjoint(other, b.chain) && Disjoint(b.chain, other)
  {
    hide Available;
    forall c | c in other ensures c !in b.chain {
      OtherCluster(a, other, c);
    }
  }

  /** What is on the volume, and where its window is. */
  datatype Disk = Disk(v: seq<Sector>, f: seq<nat>, w: nat)

  function DiskOf(a: FileState): Disk { Disk(a.v, a.f, a.w) }

  /** o with the volume as d has it. */
  function On(o: FileState, d: Disk): FileState { o.(v := d.v, f := d.f, w := d.w) }

  predicate SameVolume(a: FileState, o: FileState) { o.g == a.g && DiskOf(o) == DiskOf(a) }

  /** The buffer is a sector of the file. */
  ghost predicate Current(o: FileState) { o.UpToDate() && OnChain(o.g, o.chain, o.sect) }

  /** d has the file's entries and sectors as they were, and the window elsewhere. */
  ghost predicate Spares(o: FileState, d: Disk) {
    && |d.v| == |o.v| && |d.f| == |o.f| && !OnChain(o.g, o.chain, d.w)
    && (forall c {:trigger c in o.chain} | c in o.chain :: c < |o.f| && d.f[c] == o.f[c])
    && (forall s: nat {:trigger d.v[s]} | s < |o.v| && OnChain(o.g, o.chain, s) :: d.v[s] == o.v[s])
  }

  /** Then a file in good order is in good order and stands for the same bytes, those in its dirty buffer
      included, and a buffer that is a sector of the file stays one. */
  lemma {:induction false} SparedStays(o: FileState, d: Disk)
    requires o.Whole() && Spares(o, d)
    ensures On(o, d).Whole() && On(o, d).Held() == o.Held() && (Current(o) ==> Current(On(o, d)))
  {
    hide Located, SectorOf, Shows, OnChain, Geometry.Sound, Spares, IsChain;
    SparedChain(o, d);
    SparedBuffer(o, d);
    SparedSectors(o, d);
    SameSectorsSameContents(On(o, d).FileView(), o.FileView(), o.g, o.chain, o.size);
  }

  lemma {:induction false} SparedChain(o: FileState, d: Disk)
    requires o.Whole() && Spares(o, d)
    ensures (o.chain != [] ==> IsChain(d.f, o.chain)) && On(o, d).Guarded() && |d.v| == |o.v|
  {
    hide OnChain, Located, Shows, SectorOf, Geometry.Sound;
    forall i | 0 <= i < |o.chain| ensures d.f[o.chain[i]] == o.f[o.chain[i]] { assert o.chain[i] in o.chain; }
    forall i | 0 <= i < |o.chain| - 1 ensures d.f[o.chain[i]] == o.chain[i + 1] { assert o.f[o.chain[i]] == o.chain[i + 1]; }
  }

  lemma {:induction false} SparedSectors(o: FileState, d: Disk)
    requires o.Whole() && Spares(o, d) && On(o, d).Guarded()
    ensures forall s: nat {:trigger On(o, d).FileView()[s]} {:trigger o.FileView()[s]} | s < |o.v| && OnChain(o.g, o.chain, s) ::
              On(o, d).FileView()[s] == o.FileView()[s]
  {
    hide OnChain, Located, Shows, SectorOf, Geometry.Sound, IsChain;
  }

  lemma {:induction false} SparedBuffer(o: FileState, d: Disk)
    requires o.Whole() && Spares(o, d)
    ensures On(o, d).Cached() && (Current(o) ==> Current(On(o, d)))
  {
    hide IsChain, Located, SectorOf, Shows, OnChain;
    if Shows(o.g, o.chain, o.size, o.sect) { ShownOnChain(o.g, o.chain, o.size, o.sect, |o.v|); }
  }

  // ---------------------------------------------------------------- one file operation

  /** An operation on a file spares every file whose chain is apart from its own. */
  lemma {:induction false} FileSpares(a: FileState, b: FileState, o: FileState)
    requires Isolated(a, b) && SameVolume(a, o) && o.Whole() && Disjoint(o.chain, a.chain)
    ensures Spares(o, DiskOf(b)) && Disjoint(o.chain, b.chain) && Disjoint(b.chain, o.chain)
  {
    hide IsChain, Located, SectorOf, Disjoint, Shows, OnChain, Geometry.Sound, Available;
    ChainsStayApart(a, b, o.chain);
    WindowOff(o.g, o.chain, o.w, b.w, |o.v|);
    forall c | c in o.chain ensures c < |o.f| && b.f[c] == o.f[c] { OtherCluster(a, o.chain, c); }
    forall s: nat | s < |o.v| && OnChain(o.g, o.chain, s) ensures b.v[s] == o.v[s] { OtherSector(a, b, o.chain, s); }
  }

  /** Another open file in good order is in good order afterwards and stands for the same bytes, those in its
      dirty buffer included. */
  lemma {:induction false} OtherStays(a: FileState, b: FileState, o: FileState)
    requires Isolated(a, b) && SameVolume(a, o) && o.Whole() && Disjoint(o.chain, a.chain)
    ensures On(o, DiskOf(b)).Whole() && On(o, DiskOf(b)).Held() == o.Held()
    ensures Disjoint(o.chain, b.chain) && Disjoint(b.chain, o.chain)
  {
    hide Spares, Isolated, FileState.Whole, Disjoint;
    FileSpares(a, b, o);
    SparedStays(o, DiskOf(b));
  }

  /** The guard of any other file stays, of one that has failed too. */
  lemma {:induction false} OtherGuarded(a: FileState, b: FileState, o: FileState)
    requires Isolated(a, b) && SameVolume(a, o) && o.Guarded()
    ensures On(o, DiskOf(b)).Guarded() && |b.v| == |a.v| && |b.f| == |a.f|
  {
    hide OnChain, Geometry.Sound;
    WindowOff(o.g, o.chain, o.w, b.w, |o.v|);
  }

  /** A buffer that is the sector it names stays so when that sector is one of its file. */
  lemma {:induction false} OtherUpToDate(a: FileState, b: FileState, o: FileState)
    requires Isolated(a, b) && SameVolume(a, o) && o.Whole() && Disjoint(o.chain, a.chain) && Current(o)
    ensures Current(On(o, DiskOf(b)))
  {
    hide Spares, Isolated, FileState.Whole, Disjoint, Current;
    FileSpares(a, b, o);
    SparedStays(o, DiskOf(b));
  }

  /** A directory on the volume of a file. */
  predicate SameDisk(a: FileState, s: D.DirState) { s.g == a.g && Disk(s.v, s.f, s.w) == DiskOf(a) }

  function FolderOn(s: D.DirState, d: Disk): D.DirState { s.(v := d.v, f := d.f, w := d.w) }

  /** An operation on a file leaves every directory whose chain is apart from the file's in good order, with the
      same entries. */
  lemma {:induction false} FolderStays(a: FileState, b: FileState, s: D.DirState)
    requires Isolated(a, b) && SameDisk(a, s) && D.Sane(s) && |s.f| == s.g.nFatent && Disjoint(s.ch, a.chain)
    ensures D.Sane(FolderOn(s, DiskOf(b))) && D.Entries(FolderOn(s, DiskOf(b))) == D.Entries(s)
    ensures Disjoint(s.ch, b.chain) && Disjoint(b.chain, s.ch)
  {
    hide IsChain, Disjoint, Geometry.Sound, Geometry.End, D.Flat, Isolated;
    FolderChain(s);
    ChainsStayApart(a, b, s.ch);
    IsolatedSizes(a, b);
    if s.ch != [] { OtherChain(a, b, s.ch); }
    FolderFlat(a, b, s);
  }

  lemma {:induction false} IsolatedSizes(a: FileState, b: FileState)
    requires Isolated(a, b)
    ensures |b.v| == |a.v| && |b.f| == |a.f| && b.g == a.g
  {
  }

  lemma {:induction false} FolderChain(s: D.DirState)
    requires D.Sane(s)
    ensures if s.ch == [] then s.sclust == 0 && s.g.fsType != FAT32 else IsChain(s.f, s.ch)
  {
    hide Geometry.Sound, Geometry.End;
  }

  lemma {:induction false} FolderFlat(a: FileState, b: FileState, s: D.DirState)
    requires Isolated(a, b) && SameDisk(a, s) && D.Sane(s) && Disjoint(s.ch, a.chain) && |b.v| == |s.v|
    ensures D.Flat(b.v, s.g, s.ch) == D.Flat(s.v, s.g, s.ch)
  {
    hide IsChain, Disjoint, Geometry.Sound, Geometry.End, D.Flat, D.SecAt, D.Slot, Isolated, D.Rooted;
    D.FlatLength(s.v, s.g, s.ch);
    D.FlatLength(b.v, s.g, s.ch);
    forall j | 0 <= j < 16 * D.SecCount(s.g, s.ch) ensures D.Flat(b.v, s.g, s.ch)[j] == D.Flat(s.v, s.g, s.ch)[j] {
      D.FlatAt(s.v, s.g, s.ch, j);
      D.FlatAt(b.v, s.g, s.ch, j);
      FolderSector(a, b, s, j / 16);
    }
  }

  lemma {:induction false} FolderSector(a: FileState, b: FileState, s: D.DirState, k: nat)
    requires Isolated(a, b) && SameDisk(a, s) && D.Sane(s) && Disjoint(s.ch, a.chain) && k < D.SecCount(s.g, s.ch)
    ensures D.SecAt(s.g, s.ch, k) < |s.v| == |b.v| && b.v[D.SecAt(s.g, s.ch, k)] == s.v[D.SecAt(s.g, s.ch, k)]
  {
    hide IsChain, Disjoint, Geometry.Sound, Geometry.End, Geometry.InCluster, Available, D.Rooted, D.SecAt;
    var x := D.SecAt(s.g, s.ch, k);
    D.SecBounds(s.g, s.ch, k);
    FolderChain(s);
    if OwnSector(a.g, a.f, a.chain, x) {
      var c: nat :| a.g.InCluster(x, c) && Available(a.f, a.chain, c);
      assert c !in s.ch by { if c in s.ch { OtherCluster(a, s.ch, c); } }
      D.OwnElsewhere(s, k, c);
    }
  }

  // ---------------------------------------------------------------- the objects

  /** What f_read finds in one open file after f_write on another is what was there before. */
  method WriteThenRead(a: Fil, b: Fil, data: seq<Byte>, btr: Word32) returns (written: FResult, bw: nat, res: FResult, got: seq<Byte>)
    requires a.Valid() && b.Valid() && a.fs == b.fs && a != b && a.buf != b.buf && a.err == Ok && b.err == Ok
    requires Disjoint(b.chain, a.chain) && |data| < POW32
    modifies a, a.buf, b, b.buf, a.fs, a.fs.win, a.fs.disk
    ensures bw <= |data| && b.Valid()
    ensures res == Ok ==> b.err == Ok && old(b.fptr) + |got| <= old(b.objsize) && got == old(b.Bytes())[old(b.fptr)..old(b.fptr) + |got|]
    ensures written == Ok ==> a.Valid() && a.err == Ok && a.Bytes() == Splice(old(a.Bytes()), old(a.fptr), data[..bw])
  {
    hide FatFs.Valid, FatFs.View, FatFs.Fat, Current, Isolated, BufferKept, FileState.Whole, FileState.Held, FileState.Guarded, Disjoint;
    ghost var a0, b0 := a.S(), b.S();
    written, bw := a.Write(data);
    ghost var a1, b1 := a.S(), b.S();
    assert b1 == On(b0, DiskOf(a1));
    OtherStays(a0, a1, b0);
    OtherGuarded(a0, a1, b0) by { WholeGuarded(b0); }
    res, got := b.Read(btr);
    if written == Ok {
      assert a.S() == On(a1, DiskOf(b.S()));
      OtherStays(b1, b.S(), a1);
      OtherGuarded(b1, b.S(), a1) by { WholeGuarded(a1); }
    }
  }

  lemma {:induction false} WholeGuarded(a: FileState)
    requires a.Whole()
    ensures a.Guarded() && a.Listed()
  {
  }

  // ---------------------------------------------------------------- one directory operation

  /** An operation on a directory spares every file whose chain is apart from the directory's. */
  lemma {:induction false} FolderSpares(s: D.DirState, t: D.DirState, o: FileState)
    requires D.Sane(s) && D.StrangersKept(s, t) && SameDisk(o, s) && o.Whole() && Disjoint(o.chain, s.ch)
    ensures Spares(o, Disk(t.v, t.f, t.w)) && Disjoint(o.chain, t.ch) && Disjoint(t.ch, o.chain)
  {
    hide IsChain, Located, SectorOf, Shows, Geometry.Sound, Geometry.InCluster, D.Foreign, D.Rooted, OnChain;
    forall c | c in o.chain ensures c < |o.f| && t.f[c] == o.f[c] && c !in t.ch { FileClusterOther(s, o, c); }
    forall x: nat | OnChain(o.g, o.chain, x) ensures D.Foreign(s, x) && x < |o.v| { FileSectorForeign(s, o, x); }
  }

  /** The file's clusters are others to the directory. */
  lemma {:induction false} FileClusterOther(s: D.DirState, o: FileState, c: nat)
    requires SameDisk(o, s) && o.Whole() && Disjoint(o.chain, s.ch) && c in o.chain
    ensures 2 <= c < |s.f| && D.Others(s, c)
  {
    hide Located, SectorOf, Shows, Geometry.Sound, OnChain;
    ChainUsed(o.f, o.chain);
    var i :| 0 <= i < |o.chain| && o.chain[i] == c;
    assert InUse(o.f, o.chain[i]);
  }

  lemma {:induction false} FileSectorForeign(s: D.DirState, o: FileState, x: nat)
    requires SameDisk(o, s) && o.Whole() && Disjoint(o.chain, s.ch) && OnChain(o.g, o.chain, x)
    ensures D.Foreign(s, x) && x < |o.v|
  {
    hide IsChain, Located, SectorOf, Shows, Geometry.Sound, Geometry.InCluster, D.Others;
    OnChainArea(o.g, o.chain, x, |o.v|);
    var c: nat :| c in o.chain && o.g.InCluster(x, c);
    FileClusterOther(s, o, c);
    assert D.ForeignCluster(s, x);
  }

  /** Another open file in good order is in good order afterwards and stands for the same bytes. */
  lemma {:induction false} FileStays(s: D.DirState, t: D.DirState, o: FileState)
    requires D.Sane(s) && D.StrangersKept(s, t) && SameDisk(o, s) && o.Whole() && Disjoint(o.chain, s.ch)
    ensures var p := On(o, Disk(t.v, t.f, t.w)); p.Whole() && p.Held() == o.Held() && (Current(o) ==> Current(p))
    ensures Disjoint(o.chain, t.ch) && Disjoint(t.ch, o.chain)
  {
    hide D.Sane, D.StrangersKept, Spares, Current, FileState.Whole, FileState.Held, Disjoint;
    FolderSpares(s, t, o);
    SparedStays(o, Disk(t.v, t.f, t.w));
  }

  /** Another directory, in other clusters or in the root area, has the same entries. */
  lemma {:induction false} OtherFolderStays(s: D.DirState, t: D.DirState, u: D.DirState)
    requires D.Sane(s) && D.StrangersKept(s, t) && D.Sane(u) && u.g == s.g && Disk(u.v, u.f, u.w) == Disk(s.v, s.f, s.w)
    requires |u.f| == u.g.nFatent && Disjoint(u.ch, s.ch) && (u.ch == [] ==> s.ch != [])
    ensures var p := FolderOn(u, Disk(t.v, t.f, t.w)); D.Sane(p) && D.Entries(p) == D.Entries(u)
    ensures Disjoint(u.ch, t.ch) && Disjoint(t.ch, u.ch)
  {
    hide IsChain, Geometry.Sound, Geometry.End, D.Flat, D.Foreign, D.SecAt;
    FolderChain(u);
    forall c | c in u.ch ensures 2 <= c < |u.f| && t.f[c] == u.f[c] && c !in t.ch { FolderClusterOther(s, u, c); }
    if u.ch != [] { SameEntriesChain(u.f, t.f, u.ch); }
    OtherFolderFlat(s, t, u);
  }

  lemma {:induction false} FolderClusterOther(s: D.DirState, u: D.DirState, c: nat)
    requires D.Sane(u) && u.f == s.f && Disjoint(u.ch, s.ch) && c in u.ch
    ensures 2 <= c < |s.f| && D.Others(s, c)
  {
    hide Geometry.Sound, Geometry.End;
    FolderChain(u);
    ChainUsed(u.f, u.ch);
    var i :| 0 <= i < |u.ch| && u.ch[i] == c;
    assert InUse(u.f, u.ch[i]);
  }

  lemma {:induction false} SameEntriesChain(f: seq<nat>, h: seq<nat>, ch: seq<nat>)
    requires IsChain(f, ch) && |h| == |f| && forall c {:trigger c in ch} | c in ch :: c < |f| && h[c] == f[c]
    ensures IsChain(h, ch)
  {
    forall i | 0 <= i < |ch| ensures h[ch[i]] == f[ch[i]] { assert ch[i] in ch; }
    forall i | 0 <= i < |ch| - 1 ensures h[ch[i]] == ch[i + 1] { assert f[ch[i]] == ch[i + 1]; }
  }

  lemma {:induction false} OtherFolderFlat(s: D.DirState, t: D.DirState, u: D.DirState)
    requires D.Sane(s) && D.StrangersKept(s, t) && D.Sane(u) && u.g == s.g && Disk(u.v, u.f, u.w) == Disk(s.v, s.f, s.w)
    requires Disjoint(u.ch, s.ch) && (u.ch == [] ==> s.ch != [])
    ensures |t.v| == |u.v| && D.Flat(t.v, u.g, u.ch) == D.Flat(u.v, u.g, u.ch)
  {
    hide IsChain, Disjoint, Geometry.Sound, Geometry.End, D.Flat, D.SecAt, D.Slot, D.Rooted, D.Foreign;
    D.FlatLength(u.v, u.g, u.ch);
    D.FlatLength(t.v, u.g, u.ch);
    forall j | 0 <= j < 16 * D.SecCount(u.g, u.ch) ensures D.Flat(t.v, u.g, u.ch)[j] == D.Flat(u.v, u.g, u.ch)[j] {
      D.FlatAt(u.v, u.g, u.ch, j);
      D.FlatAt(t.v, u.g, u.ch, j);
      FolderSectorForeign(s, u, j / 16);
    }
  }

  lemma {:induction false} FolderSectorForeign(s: D.DirState, u: D.DirState, k: nat)
    requires D.Sane(u) && u.g == s.g && u.f == s.f && Disjoint(u.ch, s.ch) && (u.ch == [] ==> s.ch != []) && k < D.SecCount(u.g, u.ch)
    ensures D.Foreign(s, D.SecAt(u.g, u.ch, k))
  {
    hide IsChain, Geometry.Sound, Geometry.End, Geometry.InCluster, D.Rooted, D.Others;
    var x := D.SecAt(u.g, u.ch, k);
    D.SecBounds(u.g, u.ch, k);
    if u.ch == [] {
      RootArea(u, k);
    } else {
      var c := u.ch[k / u.g.csize];
      FolderClusterOther(s, u, c);
      ClusterInArea(u.g, x, c);
      assert D.ForeignCluster(s, x);
    }
  }

  lemma {:induction false} RootArea(u: D.DirState, k: nat)
    requires D.Sane(u) && u.ch == [] && k < D.SecCount(u.g, u.ch)
    ensures D.SecAt(u.g, u.ch, k) < u.g.database
  {
    hide IsClusterSize, Geometry.End;
  }

  /** What f_read finds in an open file after dir_register on a directory is what was there before. */
  method RegisterThenRead(dir: Directory.Dir, up: LfnTheory.Folding, ghost name: seq<LfnTheory.Unit>, b: Fil, btr: Word32)
    returns (registered: FResult, res: FResult, got: seq<Byte>)
    requires dir.Valid() && b.Valid() && b.err == Ok && b.fs == dir.fs && Disjoint(b.chain, dir.ch)
    requires LfnTheory.HoldsName(dir.lfn, name) && LfnTheory.IsText(name) && DirTheory.Storable(dir.fn)
    requires (dir.K().loss ==> DirSteps.HasLongFlag(dir.status)) && !dir.K().noLfn
    modifies dir, dir.fs, dir.fs.win, dir.fs.disk, b, b.buf
    ensures registered != DiskErr ==> b.Valid() && Disjoint(b.chain, dir.ch)
    ensures registered != DiskErr && res == Ok ==> b.err == Ok && old(b.fptr) + |got| <= old(b.objsize) && got == old(b.Bytes())[old(b.fptr)..old(b.fptr) + |got|]
  {
    hide FatFs.Valid, FatFs.View, FatFs.Fat, Current, BufferKept, FileState.Whole, FileState.Held, FileState.Guarded, Disjoint, D.Sane, D.StrangersKept, Isolated, Salvaged;
    hide D.Entries, DirSteps.LiveKept, DirSteps.RegisteredState, DirSteps.PutBlock, DirTheory.Block, DirTheory.Shaped, DirTheory.FoundAt, DirTheory.Absent, LfnTheory.HoldsName, LfnTheory.FillerLast;
    ghost var s, o := dir.S(), b.S();
    ghost var m;
    registered, m := dir.Register(up, name);
    res, got := DiskErr, [];
    if registered != DiskErr {
      LiveStrangers(s, m, dir.S());
      FileStays(s, dir.S(), o);
      assert b.S() == On(o, Disk(dir.S().v, dir.S().f, dir.S().w));
      WholeGuarded(b.S());
      res, got := b.Read(btr);
    }
  }

  lemma {:induction false} LiveStrangers(s: D.DirState, m: D.DirState, t: D.DirState)
    requires DirSteps.LiveKept(s, m, t)
    ensures D.StrangersKept(s, t)
  {
    hide DirSteps.Grown, D.StrangersKept, D.Entries;
  }

  // ---------------------------------------------------------------- all of them

  /** An open file, and whether its object may still be used: not after an error. */
  datatype Open = Open(s: FileState, good: bool)

  /** A directory: where it starts, its clusters, and whether it may still be used: not after a stretch that
      failed halfway. */
  datatype Folder = Folder(sclust: nat, ch: seq<nat>, good: bool)

  /** A volume with its open files and its directories. */
  datatype World = World(g: Geometry, disk: Disk, files: seq<Open>, folders: seq<Folder>) {
    function FolderState(d: nat): D.DirState
      requires d < |folders|
    {
      D.DirState(disk.v, disk.f, g, folders[d].sclust, folders[d].ch, 0, 0, 0, disk.w)
    }

    predicate GoodFile(i: nat) { i < |files| && files[i].good }

    predicate GoodFolder(d: nat) { d < |folders| && folders[d].good }
  }

  /** All files are on the volume; the files and directories in use are in good order. */
  ghost predicate InOrder(x: World) {
    && |x.disk.f| == x.g.nFatent
    && (forall i: nat {:trigger x.files[i]} | i < |x.files| :: x.files[i].s.g == x.g && DiskOf(x.files[i].s) == x.disk)
    && (forall i: nat {:trigger x.GoodFile(i)} | x.GoodFile(i) :: x.files[i].s.Whole())
    && (forall d: nat {:trigger x.GoodFolder(d)} | x.GoodFolder(d) :: D.Sane(x.FolderState(d)))
  }

  ghost predicate FilesApart(x: World) {
    forall i: nat, j: nat {:trigger x.GoodFile(i), x.GoodFile(j)} | x.GoodFile(i) && x.GoodFile(j) && i != j :: Disjoint(x.files[i].s.chain, x.files[j].s.chain)
  }

  /** One directory at most is in the root area. */
  ghost predicate FoldersApart(x: World) {
    forall d: nat, e: nat {:trigger x.GoodFolder(d), x.GoodFolder(e)} | x.GoodFolder(d) && x.GoodFolder(e) && d != e ::
      Disjoint(x.folders[d].ch, x.folders[e].ch) && (x.folders[d].ch == [] ==> x.folders[e].ch != [])
  }

  ghost predicate FilesOffFolders(x: World) {
    forall i: nat, d: nat {:trigger x.GoodFile(i), x.GoodFolder(d)} | x.GoodFile(i) && x.GoodFolder(d) ::
      Disjoint(x.files[i].s.chain, x.folders[d].ch) && Disjoint(x.folders[d].ch, x.files[i].s.chain)
  }

  /** The files and directories in use are in good order and share no cluster. */
  ghost predicate Apart(x: World) { InOrder(x) && FilesApart(x) && FoldersApart(x) && FilesOffFolders(x) }

  datatype Turn = OfFile(k: nat) | OfFolder(d: nat)

  /** An operation on file k or on directory d, as every one of them promises it. For the others only what is on
      the volume changes. */
  ghost predicate Takes(x: World, y: World, t: Turn) {
    && y.g == x.g && |y.files| == |x.files| && |y.folders| == |x.folders|
    && (forall i: nat {:trigger y.files[i]} | i < |x.files| && t != OfFile(i) :: y.files[i] == x.files[i].(s := On(x.files[i].s, y.disk)))
    && (forall e: nat {:trigger y.folders[e]} | e < |x.folders| && t != OfFolder(e) :: y.folders[e] == x.folders[e])
    && match t
       case OfFile(k) => x.GoodFile(k) && Isolated(x.files[k].s, y.files[k].s) && DiskOf(y.files[k].s) == y.disk && (y.files[k].good ==> y.files[k].s.Whole())
       case OfFolder(d) => x.GoodFolder(d) && D.StrangersKept(x.FolderState(d), y.FolderState(d)) && (y.folders[d].good ==> D.Sane(y.FolderState(d)))
  }

  /** File i is the same object standing for the same bytes. */
  ghost predicate SameFile(x: World, y: World, i: nat)
    requires i < |x.files| && i < |y.files|
  {
    && y.files[i] == x.files[i].(s := On(x.files[i].s, y.disk))
    && (x.files[i].good ==>
          var o, p := x.files[i].s, y.files[i].s;
          o.Whole() && p.Whole() && p.Held() == o.Held() && (Current(o) ==> Current(p)))
  }

  /** Directory d has the same entries. */
  ghost predicate SameFolder(x: World, y: World, d: nat)
    requires d < |x.folders| && d < |y.folders|
  {
    && y.folders[d] == x.folders[d] && y.g == x.g
    && (x.folders[d].good ==> D.Sane(x.FolderState(d)) && D.Sane(y.FolderState(d)) && D.Entries(y.FolderState(d)) == D.Entries(x.FolderState(d)))
  }

  /** What a turn does to a file in use that it is not about. */
  lemma {:induction false} TurnFile(x: World, y: World, t: Turn, i: nat)
    requires Apart(x) && Takes(x, y, t) && x.GoodFile(i) && t != OfFile(i)
    ensures y.GoodFile(i) && SameFile(x, y, i) && y.files[i].s.g == y.g && DiskOf(y.files[i].s) == y.disk
    ensures t.OfFile? ==> Disjoint(x.files[i].s.chain, y.files[t.k].s.chain) && Disjoint(y.files[t.k].s.chain, x.files[i].s.chain)
    ensures t.OfFolder? ==> Disjoint(x.files[i].s.chain, y.folders[t.d].ch) && Disjoint(y.folders[t.d].ch, x.files[i].s.chain)
  {
    hide FileState.Whole, FileState.Held, Current, Isolated, Disjoint, D.Sane, D.StrangersKept, Spares;
    var o := x.files[i].s;
    match t
    case OfFile(k) =>
      FileSpares(x.files[k].s, y.files[k].s, o);
      SparedStays(o, y.disk);
    case OfFolder(d) =>
      assert x.GoodFolder(d);
      FileStays(x.FolderState(d), y.FolderState(d), o);
  }

  /** And to a directory in use that it is not about. */
  lemma {:induction false} TurnFolder(x: World, y: World, t: Turn, e: nat)
    requires Apart(x) && Takes(x, y, t) && x.GoodFolder(e) && t != OfFolder(e)
    ensures y.GoodFolder(e) && SameFolder(x, y, e)
    ensures t.OfFile? ==> Disjoint(x.folders[e].ch, y.files[t.k].s.chain) && Disjoint(y.files[t.k].s.chain, x.folders[e].ch)
    ensures t.OfFolder? ==> Disjoint(x.folders[e].ch, y.folders[t.d].ch) && Disjoint(y.folders[t.d].ch, x.folders[e].ch)
  {
    hide FileState.Whole, FileState.Held, Current, Isolated, Disjoint, D.Sane, D.StrangersKept, Spares, D.Entries;
    assert D.Sane(x.FolderState(e));
    match t
    case OfFile(k) =>
      assert x.GoodFile(k);
      FolderStays(x.files[k].s, y.files[k].s, x.FolderState(e));
    case OfFolder(d) =>
      assert x.GoodFolder(d);
      OtherFolderStays(x.FolderState(d), y.FolderState(d), x.FolderState(e));
  }

  lemma {:induction false} TurnSizes(x: World, y: World, t: Turn)
    requires Apart(x) && Takes(x, y, t)
    ensures |y.disk.f| == |x.disk.f| && y.g == x.g && (t.OfFile? ==> y.files[t.k].s.g == y.g)
  {
    hide FileState.Whole, D.Sane, Disjoint;
  }

  /** A turn leaves everything in use in good order and apart, and whatever it is not about as it was. */
  lemma {:induction false} TurnKeeps(x: World, y: World, t: Turn)
    requires Apart(x) && Takes(x, y, t)
    ensures Apart(y)
    ensures |y.files| == |x.files| && |y.folders| == |x.folders|
    ensures forall i: nat {:trigger SameFile(x, y, i)} | i < |x.files| && t != OfFile(i) :: SameFile(x, y, i)
    ensures forall e: nat {:trigger SameFolder(x, y, e)} | e < |x.folders| && t != OfFolder(e) :: SameFolder(x, y, e)
  {
    hide FileState.Whole, FileState.Held, Current, Isolated, Disjoint, D.Sane, D.StrangersKept, D.Entries, Apart, InOrder, FilesApart, FoldersApart, FilesOffFolders;
    assert Apart(y) by { TurnOrder(x, y, t); TurnApart(x, y, t); ApartIs(y); }
    forall i: nat | i < |x.files| && t != OfFile(i) ensures SameFile(x, y, i) { if x.files[i].good { assert x.GoodFile(i); TurnFile(x, y, t, i); } }
    forall e: nat | e < |x.folders| && t != OfFolder(e) ensures SameFolder(x, y, e) { if x.folders[e].good { assert x.GoodFolder(e); TurnFolder(x, y, t, e); } }
  }

  lemma {:induction false} ApartIs(y: World)
    requires InOrder(y) && FilesApart(y) && FoldersApart(y) && FilesOffFolders(y)
    ensures Apart(y)
  {
  }

  lemma {:induction false} TurnOrder(x: World, y: World, t: Turn)
    requires Apart(x) && Takes(x, y, t)
    ensures InOrder(y)
  {
    hide FileState.Whole, FileState.Held, Current, Isolated, Disjoint, D.Sane, D.StrangersKept, D.Entries, FilesApart, FoldersApart, FilesOffFolders;
    TurnSizes(x, y, t);
    forall i: nat | y.GoodFile(i) ensures y.files[i].s.Whole() {
      if t != OfFile(i) { assert x.GoodFile(i); TurnFile(x, y, t, i); }
    }
    forall e: nat | y.GoodFolder(e) ensures D.Sane(y.FolderState(e)) {
      if t != OfFolder(e) { assert x.GoodFolder(e); TurnFolder(x, y, t, e); }
    }
  }

  lemma {:induction false} TurnApart(x: World, y: World, t: Turn)
    requires Apart(x) && Takes(x, y, t)
    ensures FilesApart(y) && FoldersApart(y) && FilesOffFolders(y)
  {
    hide FileState.Whole, FileState.Held, Current, Isolated, Disjoint, D.Sane, D.StrangersKept, D.Entries, InOrder, FilesApart, FoldersApart, FilesOffFolders, SameFile, SameFolder;
    forall i: nat, j: nat | y.GoodFile(i) && y.GoodFile(j) && i != j ensures Disjoint(y.files[i].s.chain, y.files[j].s.chain) { TurnFiles(x, y, t, i, j); }
    forall d: nat, e: nat | y.GoodFolder(d) && y.GoodFolder(e) && d != e
      ensures Disjoint(y.folders[d].ch, y.folders[e].ch) && (y.folders[d].ch == [] ==> y.folders[e].ch != [])
    {
      TurnFolders(x, y, t, d, e);
    }
    forall i: nat, d: nat | y.GoodFile(i) && y.GoodFolder(d) ensures Disjoint(y.files[i].s.chain, y.folders[d].ch) && Disjoint(y.folders[d].ch, y.files[i].s.chain) {
      TurnBoth(x, y, t, i, d);
    }
    ApartParts(y);
  }

  lemma {:induction false} ApartParts(y: World)
    requires forall i: nat, j: nat {:trigger y.GoodFile(i), y.GoodFile(j)} | y.GoodFile(i) && y.GoodFile(j) && i != j :: Disjoint(y.files[i].s.chain, y.files[j].s.chain)
    requires forall d: nat, e: nat {:trigger y.GoodFolder(d), y.GoodFolder(e)} | y.GoodFolder(d) && y.GoodFolder(e) && d != e ::
               Disjoint(y.folders[d].ch, y.folders[e].ch) && (y.folders[d].ch == [] ==> y.folders[e].ch != [])
    requires forall i: nat, d: nat {:trigger y.GoodFile(i), y.GoodFolder(d)} | y.GoodFile(i) && y.GoodFolder(d) ::
               Disjoint(y.files[i].s.chain, y.folders[d].ch) && Disjoint(y.folders[d].ch, y.files[i].s.chain)
    ensures FilesApart(y) && FoldersApart(y) && FilesOffFolders(y)
  {
  }

  lemma {:induction false} TurnFiles(x: World, y: World, t: Turn, i: nat, j: nat)
    requires Apart(x) && Takes(x, y, t) && y.GoodFile(i) && y.GoodFile(j) && i != j
    ensures Disjoint(y.files[i].s.chain, y.files[j].s.chain)
  {
    hide FileState.Whole, Isolated, Disjoint, D.Sane, D.StrangersKept, InOrder, FoldersApart, FilesOffFolders;
    assert x.GoodFile(i) && x.GoodFile(j);
    if t == OfFile(i) { TurnFile(x, y, t, j); } else { TurnFile(x, y, t, i); }
  }

  lemma {:induction false} TurnFolders(x: World, y: World, t: Turn, d: nat, e: nat)
    requires Apart(x) && Takes(x, y, t) && y.GoodFolder(d) && y.GoodFolder(e) && d != e
    ensures Disjoint(y.folders[d].ch, y.folders[e].ch) && (y.folders[d].ch == [] ==> y.folders[e].ch != [])
  {
    hide FileState.Whole, Isolated, Disjoint, D.Sane, InOrder, FilesApart, FilesOffFolders;
    assert x.GoodFolder(d) && x.GoodFolder(e);
    if t == OfFolder(d) { TurnFolder(x, y, t, e); } else { TurnFolder(x, y, t, d); }
    TurnRoots(x, y, t);
  }

  lemma {:induction false} TurnBoth(x: World, y: World, t: Turn, i: nat, d: nat)
    requires Apart(x) && Takes(x, y, t) && y.GoodFile(i) && y.GoodFolder(d)
    ensures Disjoint(y.files[i].s.chain, y.folders[d].ch) && Disjoint(y.folders[d].ch, y.files[i].s.chain)
  {
    hide FileState.Whole, Isolated, Disjoint, D.Sane, D.StrangersKept, InOrder, FilesApart, FoldersApart;
    assert x.GoodFile(i) && x.GoodFolder(d);
    if t == OfFile(i) { TurnFolder(x, y, t, d); } else { TurnFile(x, y, t, i); }
  }

  /** The root area stays with the one directory that has it. */
  lemma {:induction false} TurnRoots(x: World, y: World, t: Turn)
    requires Apart(x) && Takes(x, y, t)
    ensures forall e: nat {:trigger y.folders[e]} | e < |y.folders| :: y.folders[e].ch == [] <==> x.folders[e].ch == []
  {
    hide FileState.Whole, Disjoint, D.Sane, Isolated, Apart;
  }

  /** The turns of a run: ts[i] leads from worlds[i] to worlds[i + 1]. */
  ghost predicate Turns(worlds: seq<World>, ts: seq<Turn>) {
    && |worlds| == |ts| + 1
    && forall i {:trigger ts[i]} | 0 <= i < |ts| :: Takes(worlds[i], worlds[i + 1], ts[i])
  }

  /** Over any run of operations on open files and on directories, some failing, everything in use stays in good
      order and apart; a file that had no turn stands for the bytes it stood for, and a directory that had none
      has the entries it had. */
  lemma {:induction false} RunKeepsOthers(worlds: seq<World>, ts: seq<Turn>)
    requires Turns(worlds, ts) && Apart(worlds[0])
    ensures var x, y := worlds[0], worlds[|ts|];
            && Apart(y) && |y.files| == |x.files| && |y.folders| == |x.folders|
            && (forall i: nat {:trigger OfFile(i)} | i < |x.files| && OfFile(i) !in ts :: SameFile(x, y, i))
            && (forall e: nat {:trigger OfFolder(e)} | e < |x.folders| && OfFolder(e) !in ts :: SameFolder(x, y, e))
    decreases |ts|
  {
    hide Apart, Takes, SameFile, SameFolder;
    var x := worlds[0];
    if |ts| > 0 {
      var n := |ts| - 1;
      var front, fronts := ts[..n], worlds[..n + 1];
      assert Turns(fronts, front) by {
        forall i | 0 <= i < n ensures Takes(fronts[i], fronts[i + 1], front[i]) { assert ts[i] == front[i]; }
      }
      RunKeepsOthers(fronts, front);
      var m, y := worlds[n], worlds[n + 1];
      assert Takes(m, y, ts[n]);
      TurnKeeps(m, y, ts[n]);
      TurnCounts(m, y, ts[n]);
      forall i: nat | i < |x.files| && OfFile(i) !in ts ensures SameFile(x, y, i) {
        assert ts[n] in ts && OfFile(i) !in front;
        SameFileTwice(x, m, y, i);
      }
      forall e: nat | e < |x.folders| && OfFolder(e) !in ts ensures SameFolder(x, y, e) {
        assert ts[n] in ts && OfFolder(e) !in front;
        SameFolderTwice(x, m, y, e);
      }
    } else {
      forall i: nat | i < |x.files| ensures SameFile(x, x, i) { SameFileStart(x, i); }
      forall e: nat | e < |x.folders| ensures SameFolder(x, x, e) { SameFolderStart(x, e); }
    }
  }

  lemma {:induction false} TurnCounts(x: World, y: World, t: Turn)
    requires Takes(x, y, t)
    ensures |y.files| == |x.files| && |y.folders| == |x.folders|
  {
  }

  lemma {:induction false} SameFileTwice(x: World, m: World, y: World, i: nat)
    requires i < |x.files| == |m.files| == |y.files| && SameFile(x, m, i) && SameFile(m, y, i)
    ensures SameFile(x, y, i)
  {
    hide FileState.Whole, FileState.Guarded, FileState.Held, Current;
  }

  lemma {:induction false} SameFolderTwice(x: World, m: World, y: World, e: nat)
    requires e < |x.folders| == |m.folders| == |y.folders| && SameFolder(x, m, e) && SameFolder(m, y, e)
    ensures SameFolder(x, y, e)
  {
    hide D.Sane, D.Entries;
  }

  lemma {:induction false} SameFileStart(x: World, i: nat)
    requires Apart(x) && i < |x.files|
    ensures SameFile(x, x, i)
  {
    hide FileState.Whole, FileState.Guarded, FileState.Held, Current, D.Sane, Disjoint;
    if x.files[i].good { assert x.GoodFile(i); }
  }

  lemma {:induction false} SameFolderStart(x: World, e: nat)
    requires Apart(x) && e < |x.folders|
    ensures SameFolder(x, x, e)
  {
    hide FileState.Whole, D.Sane, D.Entries, Disjoint;
    if x.folders[e].good { assert x.GoodFolder(e); }
  }
}
