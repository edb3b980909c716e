/** From the boot sector to the geometry of a volume. */
module Mount {
  import opened Arith
  import opened Options
  import opened Volume

  const MAX_FAT12 := 0xFF5
  const MAX_FAT16 := 0xFFF5
  const MAX_FAT32 := 0xFFF_FFF5

  type Half = w: int | 0 <= w < 0x1_0000

  /** The fields of the boot sector that lay out a FAT volume. */
  datatype Bpb = Bpb(bytsPerSec: Half, secPerClus: Byte, rsvdSecCnt: Half, numFats: Byte, rootEntCnt: Half,
                     totSec16: Half, fatSz16: Half, totSec32: Word32, fatSz32: Word32, fsVer32: Half, rootClus32: Word32)
  {
    function FatSize(): Word32 { if fatSz16 == 0 then fatSz32 else fatSz16 }

    function TotalSectors(): Word32 { if totSec16 == 0 then totSec32 else totSec16 }

    /** Reserved sectors, tables and fixed root directory, as unbounded numbers. */
    function SystemArea(): nat { rsvdSecCnt + FatSize() * numFats + rootEntCnt / 16 }

    /** Laid out from sector bsect with unbounded numbers, system area and whole clusters end within the
        32-bit sector numbers. */
    predicate EndsInWords(bsect: nat) {
      && secPerClus > 0 && SystemArea() < POW32
      && bsect + SystemArea() + (TotalSectors() - SystemArea()) / secPerClus * secPerClus <= POW32
    }
  }

  function Load16(win: Sector, k: nat): Half
    requires k + 1 < SECTOR_SIZE
  {
    Le16(win[k], win[k + 1])
  }

  function Load32(win: Sector, k: nat): Word32
    requires k + 3 < SECTOR_SIZE
  {
    Le32(win[k], win[k + 1], win[k + 2], win[k + 3])
  }

  function BpbOf(win: Sector): Bpb {
    Bpb(Load16(win, 11), win[13], Load16(win, 14), win[16], Load16(win, 17),
        Load16(win, 19), Load16(win, 22), Load32(win, 32), Load32(win, 36), Load16(win, 42), Load32(win, 44))
  }

  /** The sub-type is decided by the number of clusters alone. */
  function TypeOf(nclst: nat): Option<FatType> {
    if nclst <= MAX_FAT12 then Some(FAT12)
    else if nclst <= MAX_FAT16 then Some(FAT16)
    else if nclst <= MAX_FAT32 then Some(FAT32)
    else None
  }

  /** A sum of sectors as the 32-bit words of the source hold it. */
  function Wrap(n: nat): Word32 { n % 0x1_0000_0000 }

  lemma {:induction false} WrapIs(n: nat)
    ensures n < POW32 ==> Wrap(n) == n
    ensures n >= POW32 ==> Wrap(n) <= n - POW32
  {
  }

  lemma {:induction false} ClusterSizeRange(n: nat)
    requires IsClusterSize(n)
    ensures 1 <= n <= 128
  {
  }

  /** Whole clusters in the sectors behind the system area. */
  function Clusters(total: nat, system: nat, csize: nat): nat
    requires system <= total && csize > 0
  {
    (total - system) / csize
  }

  /** The geometry read from a boot sector, with 32-bit arithmetic. */
  function GeometryOf(b: Bpb, bsect: Word32): Option<Geometry> {
    if b.bytsPerSec != SECTOR_SIZE || (b.numFats != 1 && b.numFats != 2) || !IsClusterSize(b.secPerClus)
       || b.rootEntCnt % 16 != 0 || b.rsvdSecCnt == 0 then None
    else
      var fasize := Wrap(b.FatSize() * b.numFats);
      var sysect := Wrap(b.rsvdSecCnt + fasize + b.rootEntCnt / 16);
      if b.TotalSectors() < sysect then None
      else Bounded(b, bsect, fasize, sysect, Clusters(b.TotalSectors(), sysect, b.secPerClus))
  }

  /** The second half: sub-type, boundaries and the size the table needs. */
  function Bounded(b: Bpb, bsect: Word32, fasize: nat, sysect: nat, nclst: nat): Option<Geometry> {
    if nclst == 0 || TypeOf(nclst) == None then None
    else
      var fmt := TypeOf(nclst).value;
      if fmt == FAT32 && (b.fsVer32 != 0 || b.rootEntCnt != 0) then None
      else if fmt != FAT32 && b.rootEntCnt == 0 then None
      else
        var fatbase: nat := Wrap(bsect + b.rsvdSecCnt);
        var g := Geometry(fmt, b.numFats, b.secPerClus, b.rootEntCnt, nclst + 2, b.FatSize(), bsect, fatbase,
                          if fmt == FAT32 then b.rootClus32 else Wrap(fatbase + fasize), Wrap(bsect + sysect));
        if b.FatSize() < (g.TableBytes() + SECTOR_SIZE - 1) / SECTOR_SIZE then None else Some(g)
  }

  /** What the checks of an accepted boot sector leave open: only whether the sums wrapped. */
  lemma {:induction false} Accepted(b: Bpb, bsect: Word32)
    requires GeometryOf(b, bsect) != None
    ensures var g := GeometryOf(b, bsect).value;
            var system := Wrap(b.rsvdSecCnt + Wrap(b.FatSize() * b.numFats) + b.rootEntCnt / 16);
            && 3 <= g.nFatent <= g.EntryRange() - 9 && g.TableBytes() <= g.fsize * SECTOR_SIZE && 1 <= g.nFats <= 2 && IsClusterSize(g.csize)
            && g.nRootdir % 16 == 0 && (g.fsType == FAT32 <==> g.nRootdir == 0) && b.rsvdSecCnt > 0
            && g.fsize == b.FatSize() && g.nFats == b.numFats && g.nRootdir == b.rootEntCnt
            && g.volbase == bsect && g.fatbase == Wrap(bsect + b.rsvdSecCnt) && g.database == Wrap(bsect + system)
            && (g.fsType != FAT32 ==> g.dirbase == Wrap(g.fatbase + Wrap(b.FatSize() * b.numFats)))
  {
    hide Wrap, IsClusterSize, Clusters;
  }

  lemma {:induction false} SoundLaidOut(b: Bpb, bsect: Word32)
    requires GeometryOf(b, bsect) != None
    ensures var g := GeometryOf(b, bsect).value;
            g.Sound() <==> bsect + b.SystemArea() + g.csize * (g.nFatent - 2) <= POW32
  {
    hide IsClusterSize, Wrap, GeometryOf, Geometry.TableBytes, Geometry.EntryRange, Bpb.FatSize, Sectors;
    var g := GeometryOf(b, bsect).value;
    Accepted(b, bsect);
    ClusterSizeRange(g.csize);
    MulMono(1, g.csize, g.nFatent - 2);
    SectorsIs(g.nFatent - 2, g.csize);
    assert b.FatSize() * b.numFats == g.TableArea();
    SumsWrap(b.rsvdSecCnt, g.TableArea(), g.RootSectors(), bsect, g.csize * (g.nFatent - 2));
  }

  /** The boundaries as 32-bit sums are the plain sums exactly when the volume ends within the sector numbers. */
  lemma {:induction false} SumsWrap(rsvd: nat, area: nat, roots: nat, bsect: nat, size: nat)
    requires 0 < rsvd < POW32 && size > 0 && bsect < POW32
    ensures var fatbase, database := Wrap(bsect + rsvd), Wrap(bsect + Wrap(rsvd + Wrap(area) + roots));
            && (bsect < fatbase && database == fatbase + area + roots && database + size <= POW32 <==> bsect + rsvd + area + roots + size <= POW32)
            && (bsect + rsvd + area + roots + size <= POW32 ==> Wrap(fatbase + Wrap(area)) == fatbase + area)
  {
    hide Wrap;
    WrapIs(area);
    WrapIs(rsvd + Wrap(area) + roots);
    WrapIs(bsect + rsvd);
    WrapIs(bsect + Wrap(rsvd + Wrap(area) + roots));
    WrapIs(Wrap(bsect + rsvd) + Wrap(area));
  }

  /** The cluster count the mount computes, when the system area did not wrap. */
  lemma {:induction false} CountOf(b: Bpb, bsect: Word32)
    requires GeometryOf(b, bsect) != None && b.SystemArea() < POW32
    ensures var g := GeometryOf(b, bsect).value;
            b.secPerClus > 0 && g.csize == b.secPerClus && g.nFatent - 2 == (b.TotalSectors() - b.SystemArea()) / b.secPerClus
  {
    hide IsClusterSize, Wrap, Bpb.FatSize, Bpb.TotalSectors, TypeOf;
    ClusterSizeRange(b.secPerClus);
    var area := b.FatSize() * b.numFats;
    WrapIs(area);
    WrapIs(b.rsvdSecCnt + Wrap(area) + b.rootEntCnt / 16);
  }

  /** An accepted geometry is sound exactly when the volume the boot sector describes ends within the
      32-bit sector numbers. */
  lemma {:induction false} SoundUnlessWrapped(b: Bpb, bsect: Word32)
    requires GeometryOf(b, bsect) != None
    ensures GeometryOf(b, bsect).value.Sound() <==> b.EndsInWords(bsect)
  {
    hide IsClusterSize, Geometry.Sound, Bpb.FatSize, Bpb.TotalSectors, GeometryOf, Bpb.SystemArea, Bpb.EndsInWords;
    var g := GeometryOf(b, bsect).value;
    SoundLaidOut(b, bsect);
    Accepted(b, bsect);
    ClusterSizeRange(g.csize);
    MulMono(1, g.csize, g.nFatent - 2);
    if b.SystemArea() < POW32 { CountOf(b, bsect); }
    EndsIs(b, bsect, g.csize, if g.nFatent >= 2 then g.nFatent - 2 else 0);
  }

  lemma {:induction false} EndsIs(b: Bpb, bsect: Word32, c: nat, n: nat)
    requires b.SystemArea() < POW32 ==> b.secPerClus == c > 0 && n == (b.TotalSectors() - b.SystemArea()) / b.secPerClus
    ensures b.EndsInWords(bsect) <==> bsect + b.SystemArea() + c * n <= POW32 && b.SystemArea() < POW32
    ensures b.SystemArea() >= POW32 && c * n > 0 ==> bsect + b.SystemArea() + c * n > POW32
  {
    hide Bpb.SystemArea, Bpb.TotalSectors;
    Commute(n, c);
  }

  /** A volume that wraps can be accepted: two tables of 2^31 sectors each count as none. */
  lemma {:induction false} WrappedAccepted(b: Bpb, bsect: Word32)
    requires b == Bpb(512, 1, 1, 2, 16, 0, 0, 0x100, 0x8000_0000, 0, 0) && bsect == 63
    ensures GeometryOf(b, bsect) != None && !GeometryOf(b, bsect).value.Sound()
    ensures var g := GeometryOf(b, bsect).value; g.database < g.fatbase + g.fsize
  {
    assert Wrap(0x8000_0000 * 2) == 0;
    assert (0x100 - 2) / 1 == 254;
  }

  /** The boot sector of a geometry, with slack sectors behind the last cluster. */
  function BootOf(g: Geometry, slack: nat): Bpb
    requires g.Sound() && Bootable(g, slack)
  {
    Bpb(512, g.csize, g.fatbase - g.volbase, g.nFats, g.nRootdir, 0, 0, g.End() - g.volbase + slack, g.fsize, 0,
        if g.fsType == FAT32 then g.dirbase else 0)
  }

  /** The numbers of the geometry fit the boot sector's fields, and the sub-type is the one its size calls for. */
  predicate Bootable(g: Geometry, slack: nat) {
    && TypeOf(if g.nFatent >= 2 then g.nFatent - 2 else 0) == Some(g.fsType)
    && g.volbase <= g.fatbase <= g.volbase + 0xFFFF && g.nRootdir < 0x1_0000 && g.fsize < POW32 && g.volbase < POW32 && g.csize < 0x100
    && 0 <= g.End() - g.volbase + slack < POW32 && slack < g.csize && (g.fsType == FAT32 ==> g.dirbase < POW32)
  }

  /** Mounting reads back every sound geometry from its boot sector. */
  lemma {:induction false} MountsWhatBootSays(g: Geometry, slack: nat)
    requires g.Sound() && Bootable(g, slack)
    ensures g.volbase < POW32 && GeometryOf(BootOf(g, slack), g.volbase) == Some(g)
  {
    hide GeometryOf, Bounded, Geometry.Sound;
    BootFirst(g, slack);
    BootSecond(g, slack);
  }

  /** The sums of the boot sector do not wrap and give back the cluster count. */
  lemma {:induction false} BootFirst(g: Geometry, slack: nat)
    requires g.Sound() && Bootable(g, slack)
    ensures g.volbase < g.database &&
            GeometryOf(BootOf(g, slack), g.volbase) == Bounded(BootOf(g, slack), g.volbase, g.TableArea(), g.database - g.volbase, g.nFatent - 2)
  {
    hide Wrap, IsClusterSize, Bounded, Geometry.TableBytes, Geometry.EntryRange, TypeOf;
    var b, n := BootOf(g, slack), g.nFatent - 2;
    BootSums(g, slack);
    DivModUnique(n, slack, g.csize);
    MulMono(0, n, g.csize);
    WrapIs(b.FatSize() * b.numFats);
    WrapIs(b.rsvdSecCnt + g.TableArea() + b.rootEntCnt / 16);
  }

  lemma {:induction false} BootSecond(g: Geometry, slack: nat)
    requires g.Sound() && Bootable(g, slack)
    ensures g.volbase < g.database && Bounded(BootOf(g, slack), g.volbase, g.TableArea(), g.database - g.volbase, g.nFatent - 2) == Some(g)
  {
    hide Wrap, IsClusterSize, TypeOf, Sectors, Geometry.TableBytes, Geometry.EntryRange;
    RoundedUp(g.TableBytes(), g.fsize);
    BootPlaces(g);
    WrapIs(g.fatbase);
    if g.fsType != FAT32 { WrapIs(g.dirbase); }
    WrapIs(g.database);
  }

  /** The places of the areas are 32-bit numbers, as the last cluster begins below the end. */
  lemma {:induction false} BootPlaces(g: Geometry)
    requires g.Sound()
    ensures g.database < POW32 && g.fatbase < POW32 && g.fatbase + g.TableArea() < POW32
  {
    hide IsClusterSize, Sectors, Geometry.TableBytes, Geometry.EntryRange;
    SectorsIs(g.nFatent - 2, g.csize);
    MulMono(1, g.nFatent - 2, g.csize);
  }

  lemma {:induction false} RoundedUp(n: nat, sectors: nat)
    requires n <= sectors * SECTOR_SIZE
    ensures (n + SECTOR_SIZE - 1) / SECTOR_SIZE <= sectors
  {
  }

  lemma {:induction false} BootSums(g: Geometry, slack: nat)
    requires g.Sound() && Bootable(g, slack)
    ensures var b := BootOf(g, slack);
            && b.FatSize() * b.numFats == g.TableArea() && b.SystemArea() == g.database - g.volbase
            && b.TotalSectors() - b.SystemArea() == (g.nFatent - 2) * g.csize + slack
  {
    hide IsClusterSize, Geometry.TableBytes, Geometry.EntryRange, TypeOf;
    Commute(g.nFatent - 2, g.csize);
    SectorsIs(g.nFatent - 2, g.csize);
    assert g.fsize * g.nFats == if g.nFats == 2 then 2 * g.fsize else g.fsize;
  }

  lemma {:induction false} Commute(a: nat, b: nat)
    ensures a * b == b * a
  {
  }

  /** Every sound geometry keeps apart what lies in the volume: reserved area, tables, root directory and
      clusters follow one another, a sector belongs to one cluster at most, and every entry of the table is
      inside the first table. */
  lemma {:induction false} AreasApart(g: Geometry, c: nat, d: nat, s: nat)
    requires g.Sound() && g.InCluster(s, c)
    ensures g.volbase < g.fatbase && g.fatbase + g.fsize * g.nFats + g.nRootdir / 16 == g.database
    ensures g.fsType != FAT32 ==> g.dirbase == g.fatbase + g.fsize * g.nFats
    ensures g.database <= s < g.End() <= POW32 && (g.InCluster(s, d) ==> c == d)
    ensures Offset(g, c) + Width(g) <= g.fsize * SECTOR_SIZE
  {
    hide IsClusterSize, Offset, Width, Geometry.TableBytes;
    TableFits(g, c);
    StartsApart(g.csize, 0, c - 2);
    StartsApart(g.csize, c - 2, g.nFatent - 2);
    SectorsIs(g.nFatent - 2, g.csize);
    if g.InCluster(s, d) {
      StartsApart(g.csize, c - 2, d - 2);
      StartsApart(g.csize, d - 2, c - 2);
    }
  }

  lemma {:induction false} StartsApart(m: nat, a: nat, b: nat)
    ensures a <= b ==> m * a <= m * b
    ensures a < b ==> m * a + m <= m * b
  {
    if a <= b { MulMono(a, b, m); }
    if a < b {
      MulMono(a + 1, b, m);
      assert (a + 1) * m == m * a + m;
    }
  }

  /** The end mark, cut to the width of an entry, is no cluster number. */
  lemma {:induction false} EndMarkIsNoCluster(g: Geometry)
    requires g.Sound()
    ensures g.Truncated(EOC) >= g.nFatent && g.Truncated(EOC) == g.EntryRange() - 1
  {
  }

  /** The part of mount_volume that reads the boot sector in the window: sizes first, then the bounds. */
  method MountGeometry(win: Sector, bsect: Word32) returns (r: Option<Geometry>)
    ensures r == GeometryOf(BpbOf(win), bsect)
    ensures r != None ==> (r.value.Sound() <==> BpbOf(win).EndsInWords(bsect))
  {
    hide Geometry.Sound, Wrap, IsClusterSize, Load16, Load32, Bounded, Clusters, Bpb.EndsInWords;
    ghost var b := BpbOf(win);
    if GeometryOf(b, bsect) != None { SoundUnlessWrapped(b, bsect); }
    if Load16(win, 11) != SECTOR_SIZE { return None; }
    var fsize: nat := Load16(win, 22);
    if fsize == 0 { fsize := Load32(win, 36); }
    var nFats: nat := win[16];
    if nFats != 1 && nFats != 2 { return None; }
    var fasize: nat := Wrap(fsize * nFats);
    var csize: nat := win[13];
    if !IsClusterSize(csize) { return None; }
    ClusterSizeRange(csize);
    var nRootdir: nat := Load16(win, 17);
    if nRootdir % 16 != 0 { return None; }
    var tsect: nat := Load16(win, 19);
    if tsect == 0 { tsect := Load32(win, 32); }
    var nrsv: nat := Load16(win, 14);
    if nrsv == 0 { return None; }
    var sysect: nat := Wrap(nrsv + fasize + nRootdir / 16);
    if tsect < sysect { return None; }
    r := MountBounds(win, bsect, fsize, nFats, fasize, csize, nRootdir, nrsv, sysect, Clusters(tsect, sysect, csize));
  }

  method MountBounds(win: Sector, bsect: Word32, fsize: nat, nFats: nat, fasize: nat, csize: nat, nRootdir: nat, nrsv: nat, sysect: nat,
                     nclst: nat) returns (r: Option<Geometry>)
    requires var b := BpbOf(win); fsize == b.FatSize() && nFats == b.numFats && csize == b.secPerClus && nRootdir == b.rootEntCnt && nrsv == b.rsvdSecCnt
    ensures r == Bounded(BpbOf(win), bsect, fasize, sysect, nclst)
  {
    hide Wrap, Load16, Load32;
    if nclst == 0 { return None; }
    var fmt: Option<FatType> := None;
    if nclst <= MAX_FAT32 { fmt := Some(FAT32); }
    if nclst <= MAX_FAT16 { fmt := Some(FAT16); }
    if nclst <= MAX_FAT12 { fmt := Some(FAT12); }
    if fmt == None { return None; }
    var nFatent := nclst + 2;
    var fatbase: nat, database: nat := Wrap(bsect + nrsv), Wrap(bsect + sysect);
    var dirbase: nat, szbfat: nat := 0, 0;
    if fmt == Some(FAT32) {
      if Load16(win, 42) != 0 || nRootdir != 0 { return None; }
      dirbase := Load32(win, 44);
      szbfat := nFatent * 4;
    } else {
      if nRootdir == 0 { return None; }
      dirbase := Wrap(fatbase + fasize);
      szbfat := if fmt == Some(FAT16) then nFatent * 2 else nFatent * 3 / 2 + nFatent % 2;
    }
    if fsize < (szbfat + (SECTOR_SIZE - 1)) / SECTOR_SIZE { return None; }
    r := Some(Geometry(fmt.value, nFats, csize, nRootdir, nFatent, fsize, bsect, fatbase, dirbase, database));
  }
}
