/** Counting the free clusters of a volume. */
module FreeSpace {
  import opened Arith
  import opened Volume
  import opened ChainTheory
  import opened Chain

  /** Number of zeros among the first k entries, the two reserved ones included. */
  function ZerosBelow(f: seq<nat>, k: nat): nat
    requires k <= |f|
  {
    if k == 0 then 0 else ZerosBelow(f, k - 1) + if f[k - 1] == 0 then 1 else 0
  }

  /** The reserved entries that look free. */
  function ReservedZeros(f: seq<nat>): nat
    requires |f| >= 2
  {
    (if f[0] == 0 then 1 else 0) + (if f[1] == 0 then 1 else 0)
  }

  lemma {:induction false} ZerosAreFree(f: seq<nat>, k: nat)
    requires 2 <= k <= |f|
    ensures ZerosBelow(f, k) == FreeBelow(f, k) + ReservedZeros(f)
  {
    if k > 2 {
      ZerosAreFree(f, k - 1);
    } else {
      assert ZerosBelow(f, 1) == if f[0] == 0 then 1 else 0;
    }
  }

  // ---------------------------------------------------------------- the raw scan

  /** Entries in a sector of the table. */
  function PerSector(g: Geometry): nat { if g.fsType == FAT16 then 256 else 128 }

  /** The scan's place in front of entry c: the offset in the sector, and the next sector to load. */
  predicate At(g: Geometry, c: nat, sect: nat, i: nat) {
    && i == c % PerSector(g) * Width(g)
    && sect == g.fatbase + c / PerSector(g) + if i == 0 then 0 else 1
  }

  lemma {:induction false} ScanStarts(g: Geometry)
    ensures At(g, 0, g.fatbase, 0)
  {
  }

  lemma {:induction false} NextAt(g: Geometry, c: nat, sect: nat, i: nat)
    requires g.fsType != FAT12 && At(g, c, sect, i)
    ensures At(g, c + 1, if i == 0 then sect + 1 else sect, (i + Width(g)) % SECTOR_SIZE)
  {
    NextWord(c, PerSector(g), Width(g));
  }

  lemma {:induction false} NextWord(c: nat, n: nat, w: nat)
    requires (n == 256 && w == 2) || (n == 128 && w == 4)
    ensures (c % n * w + w) % SECTOR_SIZE == (c + 1) % n * w
    ensures (c + 1) % n == 0 ==> c % n != 0 && (c + 1) / n == c / n + 1
    ensures (c + 1) % n != 0 ==> (c + 1) / n == c / n
  {
    if (c + 1) % n == 0 {
      QuotientSteps(c, n);
      assert c == n * (c / n) + c % n && c + 1 == n * ((c + 1) / n);
    } else {
      QuotientStays(c, n);
    }
  }

  /** The bytes at the scan's place are those of entry c. */
  lemma {:induction false} BytesAt(v: seq<Sector>, g: Geometry, c: nat, sect: nat, i: nat)
    requires g.Sound() && g.End() <= |v| && g.fsType != FAT12 && c < g.nFatent && At(g, c, sect, i)
    ensures var s := g.fatbase + c / PerSector(g);
            && s < |v| && g.InFat1(s) && i + Width(g) <= SECTOR_SIZE && sect == (if i == 0 then s else s + 1)
            && (g.fsType == FAT16 ==> Le16(v[s][i], v[s][i + 1]) == Entry(v, g, c))
            && (g.fsType == FAT32 ==> Le32(v[s][i], v[s][i + 1], v[s][i + 2], v[s][i + 3]) % 0x1000_0000 == Entry(v, g, c))
  {
    hide Geometry.Sound, Geometry.End, Le16, Le32, FatByte, Entry, RawWord, Offset;
    Offsets(c);
    if g.fsType == FAT16 {
      LoadedHalf(v, g, c);
    } else {
      LoadedWord(v, g, c);
      RawEntry(v, g, c);
    }
  }

  lemma {:induction false} Offsets(c: nat)
    ensures c % 256 * 2 == c * 2 % 512 && c % 128 * 4 == c * 4 % 512
  {
    RowOffset(c, 256, 2);
    RowOffset(c, 128, 4);
  }

  /** Entries of w bytes, n to a sector. */
  lemma {:induction false} RowOffset(c: nat, n: nat, w: nat)
    requires (n == 256 && w == 2) || (n == 128 && w == 4)
    ensures c % n * w == c * w % 512
  {
    var q, r := c / n, c % n;
    assert c == n * q + r;
    assert c * w == q * 512 + r * w;
    DivModUnique(q, r * w, 512);
  }

  lemma {:induction false} RawEntry(v: seq<Sector>, g: Geometry, c: nat)
    requires g.Sound() && g.End() <= |v| && g.fsType == FAT32 && c < g.nFatent
    ensures Entry(v, g, c) == RawWord(v, g, c) % 0x1000_0000
  {
    hide Geometry.Sound, Geometry.End, RawWord;
  }

  /** One round of the scan: loads a sector when a new one begins, and looks at entry c. */
  method ScanEntry(fs: FatFs, sect: nat, i: nat, ghost c: nat) returns (res: FResult, zero: bool)
    requires fs.Valid() && fs.geo.fsType != FAT12 && c < fs.geo.nFatent && At(fs.geo, c, sect, i)
    requires i != 0 ==> fs.winsect == sect - 1
    modifies fs`winsect, fs`wflag, fs`mirrorStale, fs.win, fs.disk
    ensures fs.Valid() && Agree(old(fs.View()), fs.View(), fs.geo) && fs.Fat() == old(fs.Fat()) && res in {Ok, DiskErr}
    ensures res == Ok ==> zero == (fs.Fat()[c] == 0) && fs.winsect == if i == 0 then sect else sect - 1
  {
    hide FatFs.Mirrored, Geometry.Sound, Geometry.End, Le16, Le32, Entry;
    ghost var v := fs.View();
    fs.GeometryFacts();
    BytesAt(v, fs.geo, c, sect, i);
    AgreeReflexive(v, fs.geo);
    res, zero := Ok, false;
    if i == 0 {
      res := fs.MoveWindow(sect);
      AgreeTable(v, fs.View(), fs.geo);
      BytesAt(fs.View(), fs.geo, c, sect, i);
    }
    if res == Ok {
      if fs.geo.fsType == FAT16 {
        zero := Le16(fs.win[i], fs.win[i + 1]) == 0;
      } else {
        zero := Le32(fs.win[i], fs.win[i + 1], fs.win[i + 2], fs.win[i + 3]) % 0x1000_0000 == 0;
      }
    }
  }

  /** The scan of whole words: all entries, the reserved ones included. */
  method CountWords(fs: FatFs) returns (res: FResult, nfree: nat)
    requires fs.Valid() && fs.geo.fsType != FAT12
    modifies fs`winsect, fs`wflag, fs`mirrorStale, fs.win, fs.disk
    ensures fs.Valid() && Agree(old(fs.View()), fs.View(), fs.geo) && fs.Fat() == old(fs.Fat()) && res in {Ok, DiskErr}
    ensures res == Ok ==> nfree == FreeCount(fs.Fat()) + ReservedZeros(fs.Fat())
  {
    hide FatFs.Valid, FatFs.View, FatFs.Fat, Geometry.Sound, Agree, At;
    fs.GeometryFacts();
    ghost var f, v, n := fs.Fat(), fs.View(), fs.geo.nFatent;
    AgreeReflexive(v, fs.geo);
    var clst: nat, sect: nat, i: nat := fs.geo.nFatent, fs.geo.fatbase, 0;
    ScanStarts(fs.geo);
    nfree := 0;
    while clst > 0
      invariant clst <= n && fs.Valid() && Agree(v, fs.View(), fs.geo) && fs.Fat() == f
      invariant At(fs.geo, n - clst, sect, i) && (i != 0 ==> fs.winsect == sect - 1) && nfree == ZerosBelow(f, n - clst)
    {
      ghost var before := fs.View();
      var zero;
      res, zero := ScanEntry(fs, sect, i, n - clst);
      AgreeTransitive(v, before, fs.View(), fs.geo);
      if res != Ok { return; }
      NextAt(fs.geo, n - clst, sect, i);
      if zero { nfree := nfree + 1; }
      if i == 0 { sect := sect + 1; }
      i := (i + Width(fs.geo)) % SECTOR_SIZE;
      clst := clst - 1;
    }
    ZerosAreFree(f, n);
    res := Ok;
  }

  /** The scan of packed entries, one by one. */
  method CountEntries(fs: FatFs) returns (res: FResult, nfree: nat)
    requires fs.Valid()
    modifies fs`winsect, fs`wflag, fs`mirrorStale, fs.win, fs.disk
    ensures fs.Valid() && Agree(old(fs.View()), fs.View(), fs.geo) && fs.Fat() == old(fs.Fat()) && res in {Ok, DiskErr, IntErr}
    ensures res == Ok ==> nfree == FreeCount(fs.Fat())
    ensures res == IntErr ==> HasInvalidLink(fs.Fat())
  {
    hide FatFs.Valid, FatFs.View, FatFs.Fat, Geometry.Sound, Agree;
    fs.GeometryFacts();
    ghost var f, v := fs.Fat(), fs.View();
    AgreeReflexive(v, fs.geo);
    var clst: nat := 2;
    nfree := 0;
    while clst < fs.geo.nFatent
      invariant 2 <= clst <= fs.geo.nFatent && fs.Valid() && Agree(v, fs.View(), fs.geo) && fs.Fat() == f && nfree == FreeBelow(f, clst)
    {
      ghost var before := fs.View();
      var stat := fs.GetFat(clst);
      AgreeTransitive(v, before, fs.View(), fs.geo);
      if stat == DISK_ERROR { return DiskErr, nfree; }
      if stat == 1 { return IntErr, nfree; }
      if stat == 0 { nfree := nfree + 1; }
      clst := clst + 1;
    }
    res := Ok;
  }

  /** f_getfree: the counter when it is known, else a scan that makes it known. On FAT16 and FAT32 the scan
      counts the reserved entries too, so it is right exactly when neither of them is zero. */
  method GetFree(fs: FatFs) returns (res: FResult, nclst: nat)
    requires fs.Valid()
    modifies fs, fs.win, fs.disk
    ensures fs.Valid() && Agree(old(fs.View()), fs.View(), fs.geo) && fs.Fat() == old(fs.Fat()) && res in {Ok, DiskErr, IntErr}
    ensures res == Ok ==> nclst == fs.freeClst
    ensures res != Ok ==> fs.freeClst == old(fs.freeClst) && fs.freeClst > fs.geo.nFatent - 2
    ensures res == IntErr ==> fs.geo.fsType == FAT12 && HasInvalidLink(fs.Fat())
    ensures var f := fs.Fat();
            res == Ok && old(fs.freeClst) > fs.geo.nFatent - 2 ==>
              && fs.fsiDirty && nclst == FreeCount(f) + (if fs.geo.fsType == FAT12 then 0 else ReservedZeros(f))
              && (nclst == FreeCount(f) <==> fs.geo.fsType == FAT12 || (f[0] != 0 && f[1] != 0))
    ensures old(fs.freeClst) <= fs.geo.nFatent - 2 ==> res == Ok && nclst == old(fs.freeClst)
    ensures old(FreeExact(fs)) && (var f := fs.Fat(); fs.geo.fsType == FAT12 || (f[0] != 0 && f[1] != 0)) ==> FreeExact(fs)
  {
    hide FatFs.View, FatFs.Mirrored, Geometry.Sound, Geometry.End, Agree, FreeCount;
    fs.GeometryFacts();
    AgreeReflexive(fs.View(), fs.geo);
    if fs.freeClst <= fs.geo.nFatent - 2 {
      return Ok, fs.freeClst;
    }
    var nfree;
    if fs.geo.fsType == FAT12 {
      res, nfree := CountEntries(fs);
    } else {
      res, nfree := CountWords(fs);
    }
    nclst := nfree;
    if res == Ok {
      CountFits(fs.Fat());
      fs.freeClst := nfree;
      fs.fsiDirty := true;
    }
  }

  lemma {:induction false} CountFits(f: seq<nat>)
    requires |f| >= 2
    ensures FreeCount(f) + 2 <= |f| && ReservedZeros(f) <= 2
  {
  }
}
