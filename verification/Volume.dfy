/** The mounted volume: a disk whose operations may fail, the one-sector write-back
    window in front of it, and the file allocation table read and written through that window. */
module Volume {
  import opened Arith

  const SECTOR_SIZE: nat := 512
  const NO_SECTOR: Word32 := 0xFFFF_FFFF
  const DISK_ERROR: Word32 := 0xFFFF_FFFF
  const EOC: Word32 := 0xFFFF_FFFF

  type Sector = s: seq<Byte> | |s| == SECTOR_SIZE witness seq(SECTOR_SIZE, _ => 0)

  datatype FatType = FAT12 | FAT16 | FAT32

  datatype FResult = Ok | DiskErr | IntErr | NoFile | InvalidName | Denied | Locked | TooManyOpenFiles

  /** The cluster sizes in sectors that fit the one-byte field: the powers of two up to 128. */
  predicate IsClusterSize(n: nat) {
    n == 1 || n == 2 || n == 4 || n == 8 || n == 16 || n == 32 || n == 64 || n == 128
  }

  /** Sectors of n clusters. */
  function Sectors(n: nat, csize: nat): nat { if n == 0 then 0 else Sectors(n - 1, csize) + csize }

  lemma {:induction false} SectorsIs(n: nat, csize: nat)
    ensures Sectors(n, csize) == csize * n
  {
    if n > 0 {
      SectorsIs(n - 1, csize);
      assert csize * n == csize * (n - 1) + csize;
    }
  }

  /** What mount_volume stores in the filesystem object. dirbase is a sector on FAT12/16 and a cluster on FAT32. */
  datatype Geometry = Geometry(
    fsType: FatType, nFats: nat, csize: nat, nRootdir: nat, nFatent: nat,
    fsize: nat, volbase: nat, fatbase: nat, dirbase: nat, database: nat)
  {
    /** First sector after the data area. */
    function End(): nat {
      database + Sectors(if nFatent >= 2 then nFatent - 2 else 0, csize)
    }

    /** Bytes the table itself needs. */
    function TableBytes(): nat {
      match fsType
      case FAT12 => nFatent * 3 / 2 + nFatent % 2
      case FAT16 => nFatent * 2
      case FAT32 => nFatent * 4
    }

    /** Number of distinct values a stored entry can have. */
    function EntryRange(): nat {
      match fsType
      case FAT12 => 0x1000
      case FAT16 => 0x1_0000
      case FAT32 => 0x1000_0000
    }

    /** A value truncated to the width of an entry. */
    function Truncated(val: Word32): nat { val % EntryRange() }

    /** Sectors of the fixed root directory (none on FAT32). */
    function RootSectors(): nat { nRootdir / 16 }

    /** Sectors of all copies of the table. */
    function TableArea(): nat { if nFats == 2 then 2 * fsize else fsize }

    predicate Sound() {
      && 3 <= nFatent <= EntryRange() - 9
      && TableBytes() <= fsize * SECTOR_SIZE
      && 1 <= nFats <= 2
      && 0 < csize && IsClusterSize(csize)
      && nRootdir % 16 == 0
      && (fsType == FAT32 <==> nRootdir == 0)
      && volbase < fatbase
      && database == fatbase + TableArea() + RootSectors()
      && (fsType != FAT32 ==> dirbase == fatbase + TableArea())
      && End() <= POW32
    }

    /** s is a sector of the first table */
    predicate InFat1(s: nat) { fatbase <= s < fatbase + fsize }

    /** s is a sector of the mirror of the table */
    predicate InFat2(s: nat) { nFats == 2 && fatbase + fsize <= s < fatbase + 2 * fsize }

    /** Where the window can be after table accesses that started with it over w. */
    predicate Drifted(w: nat, x: nat) { x == w || InFat1(x) || x == NO_SECTOR }

    /** s is a sector of cluster c */
    predicate InCluster(s: nat, c: nat) {
      2 <= c < nFatent && database + csize * (c - 2) <= s < database + csize * (c - 2) + csize
    }
  }

  /** Sector i of a transfer of whole sectors. */
  function Chunk(data: seq<Byte>, i: nat): (s: Sector)
    requires (i + 1) * SECTOR_SIZE <= |data|
  {
    data[i * SECTOR_SIZE..(i + 1) * SECTOR_SIZE]
  }

  /** v holds data, sector by sector, from sector lba on. */
  ghost predicate Holds(v: seq<Sector>, lba: nat, n: nat, data: seq<Byte>)
    requires |data| == n * SECTOR_SIZE
  {
    && (n > 0 ==> lba + n <= |v|)
    && forall s {:trigger v[s]} | lba <= s < lba + n :: v[s] == Chunk(data, s - lba)
  }

  /** A block device: either operation may fail, a failed read leaves junk in the
      buffer and a failed write may leave junk in the sectors it was given. */
  class Disk {
    var sectors: seq<Sector>

    /** some sector-sized contents */
    static method AnySector() returns (junk: seq<Byte>)
      ensures |junk| == SECTOR_SIZE
    {
      assert |seq(SECTOR_SIZE, _ => 0 as Byte)| == SECTOR_SIZE;
      junk :| |junk| == SECTOR_SIZE;
    }

    method Read(buf: array<Byte>, lba: nat) returns (ok: bool)
      requires buf.Length == SECTOR_SIZE
      modifies buf
      ensures ok ==> lba < |sectors| && buf[..] == sectors[lba]
    {
      var junk: seq<Byte> := AnySector();
      ok := *;
      ok := ok && lba < |sectors|;
      var data := if ok then sectors[lba] else junk;
      forall i | 0 <= i < SECTOR_SIZE { buf[i] := data[i]; }
      assert buf[..] == data;
    }

    /** Reads n sectors in one transfer. */
    method ReadMany(lba: nat, n: nat) returns (ok: bool, data: seq<Byte>)
      ensures |data| == n * SECTOR_SIZE
      ensures ok ==> lba + n <= |sectors| && Holds(sectors, lba, n, data)
    {
      ok := *;
      ok := ok && lba + n <= |sectors|;
      data := [];
      for i := 0 to n
        invariant |data| == i * SECTOR_SIZE
        invariant ok ==> Holds(sectors, lba, i, data)
      {
        var junk := AnySector();
        ghost var before := data;
        data := data + if ok then sectors[lba + i] else junk;
        if ok {
          forall s | lba <= s < lba + i + 1 ensures sectors[s] == Chunk(data, s - lba) {
            if s < lba + i { assert sectors[s] == Chunk(before, s - lba); }
          }
        }
      }
    }

    /** Writes n sectors in one transfer. */
    method WriteMany(data: seq<Byte>, lba: nat, n: nat) returns (ok: bool)
      requires |data| == n * SECTOR_SIZE
      modifies this
      ensures |sectors| == old(|sectors|)
      ensures forall s {:trigger sectors[s]} | 0 <= s < |sectors| && !(lba <= s < lba + n) :: sectors[s] == old(sectors[s])
      ensures ok ==> Holds(sectors, lba, n, data)
    {
      ok := true;
      for i := 0 to n
        invariant |sectors| == old(|sectors|)
        invariant forall s {:trigger sectors[s]} | 0 <= s < |sectors| && !(lba <= s < lba + n) :: sectors[s] == old(sectors[s])
        invariant ok && i > 0 ==> lba + i <= |sectors|
        invariant ok ==> forall s {:trigger sectors[s]} | lba <= s < lba + i :: sectors[s] == Chunk(data, s - lba)
      {
        var one := Write(Chunk(data, i), lba + i);
        ok := ok && one;
      }
    }

    method Write(data: Sector, lba: nat) returns (ok: bool)
      modifies this
      ensures |sectors| == old(|sectors|)
      ensures forall s | 0 <= s < |sectors| && s != lba :: sectors[s] == old(sectors[s])
      ensures ok ==> lba < |sectors| && sectors[lba] == data
    {
      var junk: seq<Byte> := AnySector();
      ok := *;
      ok := ok && lba < |sectors|;
      if lba < |sectors| {
        sectors := sectors[lba := if ok then data else junk];
      }
    }
  }

  // ---------------------------------------------------------------- the table as bytes and entries

  /** The table lies below the data area, and both inside the volume. */
  lemma {:induction false} AreasOrdered(g: Geometry)
    requires g.Sound()
    ensures g.fatbase + g.TableArea() <= g.database <= g.End()
    ensures g.nFats == 2 ==> g.TableArea() == 2 * g.fsize
    ensures g.fsize <= g.TableArea()
    ensures g.End() <= POW32
  {
    hide IsClusterSize;
  }

  /** Byte k of the first table. */
  function FatByte(v: seq<Sector>, g: Geometry, k: nat): Byte
    requires g.Sound() && g.End() <= |v| && k < g.fsize * SECTOR_SIZE
  {
    AreasOrdered(g);
    v[g.fatbase + k / SECTOR_SIZE][k % SECTOR_SIZE]
  }

  /** Offset of the first byte of entry c. */
  function Offset(g: Geometry, c: nat): nat {
    match g.fsType
    case FAT12 => c + c / 2
    case FAT16 => c * 2
    case FAT32 => c * 4
  }

  /** Bytes an entry touches. */
  function Width(g: Geometry): nat {
    if g.fsType == FAT32 then 4 else 2
  }

  /** Every byte of every entry lies in the first table. */
  lemma {:induction false} TableFits(g: Geometry, c: nat)
    requires g.Sound() && c < g.nFatent
    ensures Offset(g, c) + Width(g) <= g.fsize * SECTOR_SIZE
  {
    assert Offset(g, c) + Width(g) <= g.TableBytes();
  }

  /** Little-endian words. */
  function Le16(b0: Byte, b1: Byte): (w: nat)
    ensures w < 0x1_0000
  {
    var hi: int := b1;
    b0 + 0x100 * hi
  }

  function Le32(b0: Byte, b1: Byte, b2: Byte, b3: Byte): Word32 {
    Le16(b0, b1) + 0x1_0000 * Le16(b2, b3)
  }

  /** The 32-bit little-endian word stored for entry c on FAT32. */
  function RawWord(v: seq<Sector>, g: Geometry, c: nat): Word32
    requires g.Sound() && c < g.nFatent && g.End() <= |v| && g.fsType == FAT32
  {
    TableFits(g, c);
    var k := Offset(g, c);
    Le32(FatByte(v, g, k), FatByte(v, g, k + 1), FatByte(v, g, k + 2), FatByte(v, g, k + 3))
  }

  /** The 12-bit entry of cluster c: one of its two bytes and a nibble of the other. */
  function Unpack12(c: nat, b0: Byte, b1: Byte): (x: Word32) {
    if c % 2 == 1 then b0 / 0x10 + 0x10 * b1 else b0 + 0x100 * (b1 % 0x10)
  }

  /** It is the upper or the lower twelve bits of the word the bytes make. */
  lemma {:induction false} Unpack12Is(c: nat, b0: Byte, b1: Byte)
    ensures Unpack12(c, b0, b1) == if c % 2 == 1 then Le16(b0, b1) / 0x10 else Le16(b0, b1) % 0x1000
  {
    DivModUnique(0x10 * b1 + b0 / 0x10, b0 % 0x10, 0x10);
    DivModUnique(b1 / 0x10, b0 + 0x100 * (b1 % 0x10), 0x1000);
  }

  /** The value stored in the table for cluster c. */
  function Entry(v: seq<Sector>, g: Geometry, c: nat): nat
    requires g.Sound() && c < g.nFatent && g.End() <= |v|
  {
    TableFits(g, c);
    var k := Offset(g, c);
    match g.fsType
    case FAT12 => Unpack12(c, FatByte(v, g, k), FatByte(v, g, k + 1))
    case FAT16 => Le16(FatByte(v, g, k), FatByte(v, g, k + 1))
    case FAT32 => RawWord(v, g, c) % 0x1000_0000
  }

  /** The abstract table: one number for each cluster. */
  function Table(v: seq<Sector>, g: Geometry): (f: seq<nat>)
    requires g.Sound() && g.End() <= |v|
    ensures |f| == g.nFatent
    ensures forall c {:trigger f[c]} | 0 <= c < |f| :: f[c] == Entry(v, g, c)
  {
    seq(g.nFatent, c requires 0 <= c < g.nFatent => Entry(v, g, c))
  }

  /** Equality of two views of the disk everywhere except in the mirror of the table. */
  ghost predicate Agree(v: seq<Sector>, w: seq<Sector>, g: Geometry) {
    |v| == |w| && forall s: nat {:trigger v[s]} {:trigger w[s]} | s < |v| && !g.InFat2(s) :: v[s] == w[s]
  }

  lemma {:induction false} AgreeTable(v: seq<Sector>, w: seq<Sector>, g: Geometry)
    requires g.Sound() && g.End() <= |v| && Agree(v, w, g)
    ensures Table(v, g) == Table(w, g)
  {
    forall c | 0 <= c < g.nFatent ensures Entry(v, g, c) == Entry(w, g, c) {
      SameBytesSameEntry(v, w, g, c) by {
        AreasOrdered(g);
      }
    }
  }

  lemma {:induction false} SameDataTable(v: seq<Sector>, w: seq<Sector>, g: Geometry)
    requires g.Sound() && g.End() <= |v| && |v| == |w|
    requires forall s: nat {:trigger v[s]} {:trigger w[s]} | s < g.database :: v[s] == w[s]
    ensures Table(v, g) == Table(w, g)
  {
    AreasOrdered(g);
    forall c | 0 <= c < g.nFatent ensures Entry(v, g, c) == Entry(w, g, c) {
      SameBytesSameEntry(v, w, g, c);
    }
  }

  /** The table depends on the sectors of its first copy only. */
  lemma {:induction false} SameFat1(v: seq<Sector>, w: seq<Sector>, g: Geometry)
    requires g.Sound() && g.End() <= |v| == |w| && forall s: nat {:trigger v[s]} {:trigger w[s]} | s < |v| && g.InFat1(s) :: v[s] == w[s]
    ensures Table(v, g) == Table(w, g)
  {
    hide IsClusterSize;
    AreasOrdered(g);
    forall c | 0 <= c < g.nFatent ensures Entry(v, g, c) == Entry(w, g, c) {
      SameBytesSameEntry(v, w, g, c);
    }
  }

  lemma {:induction false} AgreeByte(v: seq<Sector>, w: seq<Sector>, g: Geometry, k: nat)
    requires g.Sound() && g.End() <= |v| && Agree(v, w, g) && k < g.fsize * SECTOR_SIZE
    ensures FatByte(v, g, k) == FatByte(w, g, k)
  {
    AreasOrdered(g);
  }

  lemma {:induction false} SameBytesSameEntry(v: seq<Sector>, w: seq<Sector>, g: Geometry, c: nat)
    requires g.Sound() && c < g.nFatent && g.End() <= |v| && |v| == |w|
    requires forall k | Offset(g, c) <= k < Offset(g, c) + Width(g) && k < g.fsize * SECTOR_SIZE ::
               FatByte(v, g, k) == FatByte(w, g, k)
    ensures Entry(v, g, c) == Entry(w, g, c)
    ensures g.fsType == FAT32 ==> RawWord(v, g, c) == RawWord(w, g, c)
  {
    TableFits(g, c);
    var k := Offset(g, c);
    assert FatByte(v, g, k) == FatByte(w, g, k) && FatByte(v, g, k + 1) == FatByte(w, g, k + 1);
    if g.fsType == FAT32 {
      assert FatByte(v, g, k + 2) == FatByte(w, g, k + 2) && FatByte(v, g, k + 3) == FatByte(w, g, k + 3);
    }
  }

  /** Equality of two views outside the table and its mirror. */
  ghost predicate SameData(v: seq<Sector>, w: seq<Sector>, g: Geometry) {
    |v| == |w| && forall s: nat {:trigger v[s]} {:trigger w[s]} | s < |v| && !g.InFat1(s) && !g.InFat2(s) :: v[s] == w[s]
  }

  /** Sector s with bs stored at offset i. */
  function Patch(s: Sector, i: nat, bs: seq<Byte>): (r: Sector)
    requires i + |bs| <= SECTOR_SIZE
    ensures forall j {:trigger r[j]} | 0 <= j < SECTOR_SIZE :: r[j] == if i <= j < i + |bs| then bs[j - i] else s[j]
  {
    s[..i] + bs + s[i + |bs|..]
  }

  lemma {:induction false} AgreeTransitive(v: seq<Sector>, w: seq<Sector>, x: seq<Sector>, g: Geometry)
    requires Agree(v, w, g) && Agree(w, x, g)
    ensures Agree(v, x, g)
  {
  }

  lemma {:induction false} AgreeReflexive(v: seq<Sector>, g: Geometry)
    ensures Agree(v, v, g)
  {
  }

  lemma {:induction false} SameDataTransitive(v: seq<Sector>, w: seq<Sector>, x: seq<Sector>, g: Geometry)
    requires SameData(v, w, g) && SameData(w, x, g)
    ensures SameData(v, x, g)
  {
  }

  lemma {:induction false} AgreeThenSame(v: seq<Sector>, w: seq<Sector>, x: seq<Sector>, g: Geometry)
    requires g.Sound() && Agree(v, w, g) && SameData(w, x, g)
    ensures SameData(v, x, g)
  {
  }

  lemma {:induction false} SameDataRefl(v: seq<Sector>, g: Geometry)
    ensures SameData(v, v, g)
  {
  }

  /** Storing bs at byte k of the table changes exactly bytes [k, k + |bs|). */
  lemma {:induction false} PatchTable(v: seq<Sector>, w: seq<Sector>, g: Geometry, k: nat, bs: seq<Byte>)
    requires g.Sound() && g.End() <= |v|
    requires k + |bs| <= g.fsize * SECTOR_SIZE && 0 < |bs| && k % SECTOR_SIZE + |bs| <= SECTOR_SIZE
    requires g.fatbase + k / SECTOR_SIZE < |v|
    requires w == v[g.fatbase + k / SECTOR_SIZE := Patch(v[g.fatbase + k / SECTOR_SIZE], k % SECTOR_SIZE, bs)]
    ensures forall j: nat {:trigger FatByte(w, g, j)} | j < g.fsize * SECTOR_SIZE ::
              FatByte(w, g, j) == if k <= j < k + |bs| then bs[j - k] else FatByte(v, g, j)
    ensures SameData(v, w, g)
  {
    AreasOrdered(g);
    forall j: nat | j < g.fsize * SECTOR_SIZE
      ensures FatByte(w, g, j) == if k <= j < k + |bs| then bs[j - k] else FatByte(v, g, j)
    {
      if j / SECTOR_SIZE == k / SECTOR_SIZE {
        assert j - k == j % SECTOR_SIZE - k % SECTOR_SIZE;
      }
    }
  }

  /** Bytes a FAT12 entry is built from, when value x is stored for cluster c over the bytes b0 and b1. */
  function LowByte12(c: nat, b0: Byte, x: Word32): Byte {
    if c % 2 == 1 then b0 % 0x10 + x % 0x10 * 0x10 else x % 0x100
  }

  function HighByte12(c: nat, b1: Byte, x: Word32): Byte {
    if c % 2 == 1 then x / 0x10 % 0x100 else b1 / 0x10 * 0x10 + x / 0x100 % 0x10
  }

  /** x % (m * n) in terms of x % m and x / m */
  lemma {:induction false} ModSplit(x: nat, m: nat, n: nat)
    requires m > 0 && n > 0
    ensures m * n > 0 && x % (m * n) == x % m + m * (x / m % n)
  {
    var q := x / m;
    var r := x % m + m * (q % n);
    assert x == q * m + x % m;
    assert q == q / n * n + q % n;
    assert x == (q / n * n + q % n) * m + x % m;
    assert (q / n * n + q % n) * m == q / n * n * m + q % n * m;
    assert q / n * n * m == q / n * (m * n);
    MulMono(q % n, n - 1, m);
    assert (n - 1) * m == m * n - m;
    DivModUnique(q / n, r, m * n);
  }

  /** The two bytes together read back as the value. */
  lemma {:induction false} Packed12(c: nat, b0: Byte, b1: Byte, x: Word32)
    ensures Unpack12(c, LowByte12(c, b0, x), HighByte12(c, b1, x)) == x % 0x1000
  {
    if c % 2 == 1 {
      ModSplit(x, 0x10, 0x100);
      DivModUnique(x % 0x10, b0 % 0x10, 0x10);
    } else {
      ModSplit(x, 0x100, 0x10);
      DivModUnique(b1 / 0x10, x / 0x100 % 0x10, 0x10);
    }
  }

  /** The entries sharing a byte with a FAT12 entry only see the nibble that is kept. */
  lemma {:induction false} KeptLow12(c: nat, b0: Byte, x: Word32, other: Byte)
    requires c % 2 == 1
    ensures Unpack12(c - 1, other, LowByte12(c, b0, x)) == Unpack12(c - 1, other, b0)
  {
    DivModUnique(x % 0x10, b0 % 0x10, 0x10);
  }

  lemma {:induction false} KeptHigh12(c: nat, b1: Byte, x: Word32, other: Byte)
    requires c % 2 == 0
    ensures Unpack12(c + 1, HighByte12(c, b1, x), other) == Unpack12(c + 1, b1, other)
  {
    DivModUnique(b1 / 0x10, x / 0x100 % 0x10, 0x10);
  }

  /** Every entry whose bytes are unchanged is unchanged. */
  lemma {:induction false} Untouched(v: seq<Sector>, w: seq<Sector>, g: Geometry, k: nat, n: nat, d: nat)
    requires g.Sound() && g.End() <= |v| && |v| == |w| && d < g.nFatent
    requires forall j: nat {:trigger FatByte(w, g, j)} | j < g.fsize * SECTOR_SIZE && !(k <= j < k + n) ::
               FatByte(w, g, j) == FatByte(v, g, j)
    requires Offset(g, d) + Width(g) <= k || k + n <= Offset(g, d)
    ensures Entry(w, g, d) == Entry(v, g, d)
    ensures g.fsType == FAT32 ==> RawWord(w, g, d) == RawWord(v, g, d)
  {
    SameBytesSameEntry(v, w, g, d);
  }

  /** Replacing one FAT12 byte of entry c by its new form leaves every other entry alone. */
  lemma {:induction false} Neighbour12(v: seq<Sector>, w: seq<Sector>, g: Geometry, c: nat, x: Word32, second: bool, d: nat)
    requires g.Sound() && g.End() <= |v| && |v| == |w| && g.fsType == FAT12
    requires c < g.nFatent && d < g.nFatent && c != d
    requires Offset(g, c) + 2 <= g.fsize * SECTOR_SIZE
    requires var k := Offset(g, c) + if second then 1 else 0;
             forall j: nat {:trigger FatByte(w, g, j)} | j < g.fsize * SECTOR_SIZE ::
               FatByte(w, g, j) == if j != k then FatByte(v, g, j)
                                   else if second then HighByte12(c, FatByte(v, g, j), x) else LowByte12(c, FatByte(v, g, j), x)
    ensures Entry(w, g, d) == Entry(v, g, d)
  {
    hide Geometry.Sound, Geometry.End, FatByte, Unpack12, LowByte12, HighByte12;
    TableFits(g, d);
    var k := Offset(g, c) + if second then 1 else 0;
    var e := Offset(g, d);
    if c % 2 == 1 && d == c - 1 && !second {
      assert e + 1 == k;
      KeptLow12(c, FatByte(v, g, k), x, FatByte(v, g, e));
    } else if c % 2 == 0 && d == c + 1 && second {
      assert e == k;
      KeptHigh12(c, FatByte(v, g, k), x, FatByte(v, g, e + 1));
    } else {
      assert e + 1 < k || k + 1 <= e by {
        assert c / 2 * 2 <= c <= c / 2 * 2 + 1 && d / 2 * 2 <= d <= d / 2 * 2 + 1;
      }
      Untouched(v, w, g, k, 1, d);
    }
  }

  /** One byte of a FAT12 entry stored: only that byte and that entry change. */
  lemma {:induction false} Stored12(v: seq<Sector>, w: seq<Sector>, g: Geometry, c: nat, x: Word32, second: bool)
    requires g.Sound() && g.End() <= |v| && g.fsType == FAT12 && c < g.nFatent
    requires Offset(g, c) + 2 <= g.fsize * SECTOR_SIZE
    requires var k := Offset(g, c) + if second then 1 else 0;
             var s := g.fatbase + k / SECTOR_SIZE;
             s < |v| &&
             var b := if second then HighByte12(c, FatByte(v, g, k), x) else LowByte12(c, FatByte(v, g, k), x);
             w == v[s := Patch(v[s], k % SECTOR_SIZE, [b])]
    ensures SameData(v, w, g) && OnlyEntry(Table(v, g), Table(w, g), c)
    ensures forall j: nat {:trigger FatByte(w, g, j)} | j < g.fsize * SECTOR_SIZE ::
              FatByte(w, g, j) == if j != Offset(g, c) + (if second then 1 else 0) then FatByte(v, g, j)
                                  else if second then HighByte12(c, FatByte(v, g, j), x) else LowByte12(c, FatByte(v, g, j), x)
  {
    hide Geometry.Sound, Geometry.End, FatByte, SameData, Patch, Entry, Offset, LowByte12, HighByte12;
    var k := Offset(g, c) + if second then 1 else 0;
    var s := g.fatbase + k / SECTOR_SIZE;
    var b := if second then HighByte12(c, FatByte(v, g, k), x) else LowByte12(c, FatByte(v, g, k), x);
    PatchTable(v, w, g, k, [b]);
    forall d | 0 <= d < g.nFatent && d != c ensures Entry(w, g, d) == Entry(v, g, d) {
      Neighbour12(v, w, g, c, x, second, d);
    }
  }

  /** Two tables that differ in entry c at most. */
  ghost predicate OnlyEntry(f: seq<nat>, h: seq<nat>, c: nat) {
    |f| == |h| && forall d {:trigger h[d]} | 0 <= d < |f| && d != c :: h[d] == f[d]
  }

  /** The window over the sector of entry c holds its word. */
  lemma {:induction false} LoadedWord(v: seq<Sector>, g: Geometry, c: nat)
    requires g.Sound() && g.End() <= |v| && g.fsType == FAT32 && c < g.nFatent
    ensures g.fatbase + c / (SECTOR_SIZE / 4) == g.fatbase + Offset(g, c) / SECTOR_SIZE < g.database <= |v|
    ensures g.InFat1(g.fatbase + c / (SECTOR_SIZE / 4)) && g.database <= POW32
    ensures c * 4 % SECTOR_SIZE == Offset(g, c) % SECTOR_SIZE <= SECTOR_SIZE - 4
    ensures var s, i := v[g.fatbase + c / (SECTOR_SIZE / 4)], c * 4 % SECTOR_SIZE;
            Le32(s[i], s[i + 1], s[i + 2], s[i + 3]) == RawWord(v, g, c)
  {
    hide Geometry.Sound, Geometry.End, Le32;
    AreasOrdered(g);
    TableFits(g, c);
    var k, q, r := Offset(g, c), c / 128, c % 128;
    assert k == q * SECTOR_SIZE + 4 * r && g.fatbase + q < g.database;
    DivModUnique(q, 4 * r, SECTOR_SIZE);
    ByteOfRow(v, g, k, q, 4 * r);
    ByteOfRow(v, g, k + 1, q, 4 * r + 1);
    ByteOfRow(v, g, k + 2, q, 4 * r + 2);
    ByteOfRow(v, g, k + 3, q, 4 * r + 3);
  }

  /** Byte r of the table's sector number q. */
  lemma {:induction false} ByteOfRow(v: seq<Sector>, g: Geometry, k: nat, q: nat, r: nat)
    requires g.Sound() && g.End() <= |v| && k < g.fsize * SECTOR_SIZE && k == q * SECTOR_SIZE + r && r < SECTOR_SIZE
    ensures g.fatbase + q < |v| && FatByte(v, g, k) == v[g.fatbase + q][r]
  {
    DivModUnique(q, r, SECTOR_SIZE);
    AreasOrdered(g);
    hide Geometry.Sound, Geometry.End;
  }

  /** The window over the sector of entry c holds its two bytes. */
  lemma {:induction false} LoadedHalf(v: seq<Sector>, g: Geometry, c: nat)
    requires g.Sound() && g.End() <= |v| && g.fsType == FAT16 && c < g.nFatent
    ensures g.fatbase + c / (SECTOR_SIZE / 2) == g.fatbase + Offset(g, c) / SECTOR_SIZE < g.database <= |v|
    ensures g.InFat1(g.fatbase + c / (SECTOR_SIZE / 2)) && g.database <= POW32
    ensures c * 2 % SECTOR_SIZE == Offset(g, c) % SECTOR_SIZE <= SECTOR_SIZE - 2
    ensures var s, i := v[g.fatbase + c / (SECTOR_SIZE / 2)], c * 2 % SECTOR_SIZE;
            Le16(s[i], s[i + 1]) == Entry(v, g, c)
  {
    hide Geometry.Sound, Geometry.End;
    AreasOrdered(g);
    TableFits(g, c);
    var k, q, r := Offset(g, c), c / 256, c % 256;
    assert k == 512 * q + 2 * r;
    assert FatByte(v, g, k) == v[g.fatbase + q][2 * r];
    assert FatByte(v, g, k + 1) == v[g.fatbase + q][2 * r + 1];
  }

  lemma {:induction false} SameEntries(f: seq<nat>, c: nat)
    ensures OnlyEntry(f, f, c)
  {
  }

  lemma {:induction false} AgreeRaw(v: seq<Sector>, w: seq<Sector>, g: Geometry, c: nat)
    requires g.Sound() && g.End() <= |v| && Agree(v, w, g) && g.fsType == FAT32 && c < g.nFatent
    ensures RawWord(v, g, c) == RawWord(w, g, c)
  {
    AreasOrdered(g);
    SameBytesSameEntry(v, w, g, c);
  }

  function Word16(x: Word32): (bs: seq<Byte>)
    ensures |bs| == 2
  {
    [x % 0x100, x / 0x100 % 0x100]
  }

  function Word32Bytes(x: Word32): (bs: seq<Byte>)
    ensures |bs| == 4
    ensures Le32(bs[0], bs[1], bs[2], bs[3]) == x
  {
    var q1 := x / 0x100;
    var q2 := q1 / 0x100;
    [x % 0x100, q1 % 0x100, q2 % 0x100, q2 / 0x100]
  }

  /** Storing x as two little-endian bytes is storing entry c on FAT16. */
  lemma {:induction false} Stored16(v: seq<Sector>, w: seq<Sector>, g: Geometry, c: nat, x: Word32)
    requires g.Sound() && g.End() <= |v| && |v| == |w| && g.fsType == FAT16 && c < g.nFatent
    requires Offset(g, c) + 2 <= g.fsize * SECTOR_SIZE
    requires forall j: nat {:trigger FatByte(w, g, j)} | j < g.fsize * SECTOR_SIZE ::
               FatByte(w, g, j) == if Offset(g, c) <= j < Offset(g, c) + 2 then Word16(x)[j - Offset(g, c)] else FatByte(v, g, j)
    ensures Table(w, g) == Table(v, g)[c := g.Truncated(x)]
  {
    var k := Offset(g, c);
    assert Entry(w, g, c) == x % 0x1_0000 by {
      assert FatByte(w, g, k) == Word16(x)[0] && FatByte(w, g, k + 1) == Word16(x)[1];
      ModSplit(x, 0x100, 0x100);
    }
    forall d | 0 <= d < g.nFatent && d != c ensures Entry(w, g, d) == Entry(v, g, d) {
      Untouched(v, w, g, k, 2, d);
    }
  }

  /** Storing x under the old top four bits is storing entry c on FAT32. */
  lemma {:induction false} Stored32(v: seq<Sector>, w: seq<Sector>, g: Geometry, c: nat, x: Word32, y: Word32)
    requires g.Sound() && g.End() <= |v| && |v| == |w| && g.fsType == FAT32 && c < g.nFatent
    requires Offset(g, c) + 4 <= g.fsize * SECTOR_SIZE
    requires y == x % 0x1000_0000 + RawWord(v, g, c) / 0x1000_0000 * 0x1000_0000
    requires forall j: nat {:trigger FatByte(w, g, j)} | j < g.fsize * SECTOR_SIZE ::
               FatByte(w, g, j) == if Offset(g, c) <= j < Offset(g, c) + 4 then Word32Bytes(y)[j - Offset(g, c)] else FatByte(v, g, j)
    ensures Table(w, g) == Table(v, g)[c := g.Truncated(x)]
    ensures RawWord(w, g, c) / 0x1000_0000 == RawWord(v, g, c) / 0x1000_0000
  {
    var k := Offset(g, c);
    DivModUnique(RawWord(v, g, c) / 0x1000_0000, x % 0x1000_0000, 0x1000_0000);
    assert RawWord(w, g, c) == y by {
      assert forall i | 0 <= i < 4 :: FatByte(w, g, k + i) == Word32Bytes(y)[i];
      assert FatByte(w, g, k + 0) == FatByte(w, g, k);
    }
    forall d | 0 <= d < g.nFatent && d != c ensures Entry(w, g, d) == Entry(v, g, d) {
      Untouched(v, w, g, k, 4, d);
    }
  }

  /** The two copies of the table agree except in one sector of the first. */
  ghost predicate CopiesAgree(d: seq<Sector>, g: Geometry, except: int)
    requires g.Sound() && g.End() <= |d| && g.nFats == 2
  {
    AreasOrdered(g);
    forall s: nat {:trigger g.InFat1(s)} | g.InFat1(s) && s != except :: d[s] == d[s + g.fsize]
  }

  lemma {:induction false} TablePlaces(g: Geometry)
    requires g.Sound()
    ensures g.fatbase + g.fsize <= g.database <= g.End() <= POW32 && 1 <= g.nFats <= 2
  {
    AreasOrdered(g);
    hide Geometry.End, IsClusterSize;
  }

  lemma {:induction false} MirrorPlaces(g: Geometry)
    requires g.Sound() && g.nFats == 2
    ensures g.fatbase + 2 * g.fsize <= g.database <= g.End()
  {
    AreasOrdered(g);
    hide Geometry.End, IsClusterSize;
  }

  /** The sector s of the window written to its place. */
  lemma {:induction false} WrittenBack(d: seq<Sector>, m: seq<Sector>, g: Geometry, s: nat, data: Sector)
    requires g.Sound() && g.End() <= |d| && s < |d| && |m| == |d| && !g.InFat2(s)
    requires forall t {:trigger m[t]} | 0 <= t < |d| && t != s :: m[t] == d[t]
    ensures m[s] == data ==> m == d[s := data]
    ensures g.nFats == 2 && CopiesAgree(d, g, s) ==> CopiesAgree(m, g, s)
    ensures g.nFats == 2 && !g.InFat1(s) && CopiesAgree(d, g, s) ==> CopiesAgree(m, g, -1)
  {
    AreasOrdered(g);
    hide Geometry.Sound, Geometry.End;
  }

  /** And to its place in the mirror. */
  lemma {:induction false} MirrorWritten(m: seq<Sector>, x: seq<Sector>, g: Geometry, s: nat)
    requires g.Sound() && g.End() <= |m| && g.nFats == 2 && |x| == |m| && g.InFat1(s)
    requires forall t {:trigger x[t]} | 0 <= t < |m| && t != s + g.fsize :: x[t] == m[t]
    ensures s + g.fsize < |m| && Agree(m, x, g)
    ensures CopiesAgree(m, g, s) ==> CopiesAgree(x, g, s)
    ensures CopiesAgree(m, g, s) && x[s + g.fsize] == m[s] ==> CopiesAgree(x, g, -1)
  {
    hide Geometry.Sound, Geometry.End;
    MirrorPlaces(g);
    forall t: nat | g.InFat1(t) && t != s ensures x[t] == m[t] && x[t + g.fsize] == m[t + g.fsize] {
    }
    assert x[s] == m[s];
  }

  // ---------------------------------------------------------------- the filesystem object

  class FatFs {
    const geo: Geometry
    const disk: Disk
    const win: array<Byte>
    var winsect: Word32
    var wflag: bool
    var lastClst: Word32
    var freeClst: Word32
    /** the FSInfo sector may be rewritten, and needs to be */
    const fsiEnabled: bool
    var fsiDirty: bool
    /** set once the mirror of the table may differ: sync_window ignores a failed write to it */
    ghost var mirrorStale: bool

    /** A freshly mounted volume: no sector in the window, allocation hints as read from FSInfo. */
    constructor (disk: Disk, geo: Geometry, freeClst: Word32, lastClst: Word32, fsiEnabled: bool)
      requires geo.Sound() && geo.End() <= |disk.sectors| <= 0xFFFF_FFFF
      ensures Valid() && fresh(win) && this.disk == disk && this.geo == geo && View() == disk.sectors
      ensures this.freeClst == freeClst && this.lastClst == lastClst && this.fsiEnabled == fsiEnabled && !fsiDirty
      ensures mirrorStale <==> geo.nFats == 2 && !CopiesAgree(disk.sectors, geo, -1)
    {
      AreasOrdered(geo);
      this.disk, this.geo := disk, geo;
      this.freeClst, this.lastClst, this.fsiEnabled, fsiDirty := freeClst, lastClst, fsiEnabled, false;
      win := new Byte[SECTOR_SIZE](_ => 0);
      winsect, wflag := NO_SECTOR, false;
      mirrorStale := geo.nFats == 2 && !CopiesAgree(disk.sectors, geo, -1);
    }

    ghost predicate Valid()
      reads this`winsect, this`wflag, this`mirrorStale, win, disk
    {
      && win.Length == SECTOR_SIZE
      && geo.Sound()
      && geo.End() <= |disk.sectors| <= 0xFFFF_FFFF
      && (wflag ==> winsect < |disk.sectors| && !geo.InFat2(winsect))
      && (!wflag && winsect < |disk.sectors| ==> win[..] == disk.sectors[winsect])
      && (winsect < |disk.sectors| || winsect == NO_SECTOR)
      && Mirrored()
    }

    /** Every sector of the first table other than a dirty window equals its copy. */
    ghost predicate Mirrored()
      requires geo.Sound() && geo.End() <= |disk.sectors|
      reads this`winsect, this`wflag, this`mirrorStale, disk
    {
      geo.nFats == 2 && !mirrorStale ==> CopiesAgree(disk.sectors, geo, if wflag then winsect else -1)
    }

    /** The disk as the filesystem means it: the window in front of the sectors. */
    ghost function View(): (v: seq<Sector>)
      requires Valid()
      reads this`winsect, this`wflag, this`mirrorStale, win, disk
      ensures |v| == |disk.sectors|
    {
      if wflag then disk.sectors[winsect := win[..]] else disk.sectors
    }

    ghost function Fat(): (f: seq<nat>)
      requires Valid()
      reads this`winsect, this`wflag, this`mirrorStale, win, disk
      ensures |f| == geo.nFatent
    {
      Table(View(), geo)
    }

    /** What callers need of a valid volume. */
    lemma {:induction false} GeometryFacts()
      requires Valid()
      ensures 3 <= geo.nFatent <= 0x1000_0000 && 1 <= geo.csize <= 128
      ensures geo.Truncated(EOC) >= geo.nFatent
      ensures forall c {:trigger geo.Truncated(c)} | 0 <= c < geo.nFatent :: geo.Truncated(c) == c
      ensures geo.Sound() && geo.End() <= |View()| <= 0xFFFF_FFFF
    {
    }

    method SyncWindow() returns (res: FResult)
      requires Valid()
      modifies this`wflag, this`mirrorStale, disk
      ensures Valid() && Agree(old(View()), View(), geo)
      ensures res in {Ok, DiskErr}
      ensures res == Ok ==> !wflag
    {
      hide CopiesAgree, Geometry.Sound, Geometry.End;
      res := Ok;
      if wflag {
        ghost var d := disk.sectors;
        var ok := disk.Write(win[..], winsect);
        WrittenBack(d, disk.sectors, geo, winsect, win[..]);
        if ok {
          wflag := false;
          TablePlaces(geo);
          Sub32IsRangeTest(winsect, geo.fatbase, geo.fsize);
          if Sub32(winsect, geo.fatbase) < geo.fsize {
            if geo.nFats == 2 {
              ghost var m := disk.sectors;
              var mirrored := disk.Write(win[..], winsect + geo.fsize);
              MirrorWritten(m, disk.sectors, geo, winsect);
              if !mirrored { mirrorStale := true; }
            }
          }
        } else {
          res := DiskErr;
        }
      }
    }

    method MoveWindow(sect: Word32) returns (res: FResult)
      requires Valid()
      modifies this`winsect, this`wflag, this`mirrorStale, win, disk
      ensures Valid() && Agree(old(View()), View(), geo)
      ensures res in {Ok, DiskErr}
      ensures res == Ok ==> winsect == sect
      ensures winsect in {old(winsect), sect, NO_SECTOR}
      ensures res == Ok && sect != NO_SECTOR ==> sect < |disk.sectors| && win[..] == View()[sect]
    {
      res := Ok;
      if sect != winsect {
        res := SyncWindow();
        if res == Ok {
          var s := sect;
          var ok := disk.Read(win, sect);
          if !ok {
            s := NO_SECTOR;
            res := DiskErr;
          }
          winsect := s;
        }
      }
    }

    /** Stores bytes into the window and marks it dirty. */
    method StoreWindow(i: nat, bs: seq<Byte>)
      requires Valid() && winsect < |disk.sectors| && !geo.InFat2(winsect)
      requires i + |bs| <= SECTOR_SIZE
      modifies this`wflag, win
      ensures Valid() && wflag
      ensures View() == old(View())[winsect := Patch(old(View())[winsect], i, bs)]
    {
      hide Geometry.Sound, Geometry.End;
      ghost var before: Sector := View()[winsect];
      assert win[..] == before;
      forall j | 0 <= j < |bs| { win[i + j] := bs[j]; }
      wflag := true;
      assert win[..] == Patch(before, i, bs);
    }

    /** Data sectors written past the window. */
    method WriteThrough(data: seq<Byte>, lba: nat, n: nat) returns (ok: bool)
      requires Valid() && |data| == n * SECTOR_SIZE
      requires geo.database <= lba && lba + n <= geo.End() && !(lba <= winsect < lba + n)
      modifies disk
      ensures Valid() && Fat() == old(Fat())
      ensures |View()| == old(|View()|)
      ensures forall s {:trigger View()[s]} | 0 <= s < |View()| && !(lba <= s < lba + n) :: View()[s] == old(View()[s])
      ensures ok ==> Holds(View(), lba, n, data)
    {
      AreasOrdered(geo);
      ok := disk.WriteMany(data, lba, n);
      SameDataTable(old(View()), View(), geo);
    }

    /** One data sector loaded into another buffer, past the window. */
    method LoadThrough(buf: array<Byte>, s: nat) returns (ok: bool)
      requires Valid() && buf.Length == SECTOR_SIZE && buf != win && s != winsect
      modifies buf
      ensures Valid() && View() == old(View())
      ensures ok ==> s < |View()| && buf[..] == View()[s]
    {
      ok := disk.Read(buf, s);
    }

    /** Data sectors read past the window. */
    method ReadThrough(lba: nat, n: nat) returns (ok: bool, data: seq<Byte>)
      requires Valid() && !(lba <= winsect < lba + n)
      ensures |data| == n * SECTOR_SIZE
      ensures ok ==> lba + n <= |View()| && Holds(View(), lba, n, data)
    {
      ok, data := disk.ReadMany(lba, n);
    }

    /** Reads the table: an entry, 1 for a number that is no cluster, DISK_ERROR when a disk operation failed. */
    method GetFat(clst: Word32) returns (val: Word32)
      requires Valid()
      modifies this`winsect, this`wflag, this`mirrorStale, win, disk
      ensures Valid() && Agree(old(View()), View(), geo) && Fat() == old(Fat())
      ensures !(2 <= clst < geo.nFatent) ==> val == 1 && unchanged(this, win, disk)
      ensures 2 <= clst < geo.nFatent ==> val == DISK_ERROR || (val == Fat()[clst] && geo.InFat1(winsect))
      ensures geo.Drifted(old(winsect), winsect)
    {
      if clst < 2 || clst >= geo.nFatent {
        return 1;
      }
      match geo.fsType {
        case FAT12 => val := GetFat12(clst);
        case FAT16 => val := GetFat16(clst);
        case FAT32 => val := GetFat32(clst);
      }
      AgreeTable(old(View()), View(), geo);
    }

    method GetFat12(clst: Word32) returns (val: Word32)
      requires Valid() && 2 <= clst < geo.nFatent && geo.fsType == FAT12
      modifies this`winsect, this`wflag, this`mirrorStale, win, disk
      ensures Valid() && Agree(old(View()), View(), geo)
      ensures val == DISK_ERROR || (val == Entry(View(), geo, clst) && geo.InFat1(winsect))
      ensures geo.Drifted(old(winsect), winsect)
    {
      hide FatFs.View, FatFs.Mirrored, Geometry.Sound, Geometry.End, FatByte, Unpack12, Le16;
      TableFits(geo, clst);
      val := DISK_ERROR;
      var bc := clst + clst / 2;
      var res, wc := LoadFatByte(bc);
      if res == Ok {
        var high;
        ghost var v := View();
        bc := bc + 1;
        res, high := LoadFatByte(bc);
        if res == Ok {
          AgreeByte(v, View(), geo, bc - 1);
          Unpack12Is(clst, wc, high);
          val := if clst % 2 == 1 then Le16(wc, high) / 0x10 else Le16(wc, high) % 0x1000;
        }
      }
    }

    /** Brings byte k of the table into the window and reads it. */
    method LoadFatByte(k: nat) returns (res: FResult, b: Byte)
      requires Valid() && k < geo.fsize * SECTOR_SIZE
      modifies this`winsect, this`wflag, this`mirrorStale, win, disk
      ensures Valid() && Agree(old(View()), View(), geo) && res in {Ok, DiskErr}
      ensures res == Ok ==> b == FatByte(View(), geo, k)
      ensures geo.Drifted(old(winsect), winsect)
      ensures res == Ok ==> winsect == geo.fatbase + k / SECTOR_SIZE && win[..] == View()[winsect] && geo.InFat1(winsect)
    {
      hide FatFs.View, FatFs.Mirrored, Geometry.Sound, Geometry.End;
      AreasOrdered(geo);
      b := 0;
      res := MoveWindow(geo.fatbase + k / SECTOR_SIZE);
      if res == Ok {
        b := win[k % SECTOR_SIZE];
      }
    }

    method GetFat16(clst: Word32) returns (val: Word32)
      requires Valid() && 2 <= clst < geo.nFatent && geo.fsType == FAT16
      modifies this`winsect, this`wflag, this`mirrorStale, win, disk
      ensures Valid() && Agree(old(View()), View(), geo)
      ensures val == DISK_ERROR || (val == Entry(View(), geo, clst) && geo.InFat1(winsect))
      ensures geo.Drifted(old(winsect), winsect)
    {
      hide FatFs.View, FatFs.Mirrored, Geometry.Sound, Geometry.End, Entry, Offset, Le16;
      AreasOrdered(geo);
      LoadedHalf(View(), geo, clst);
      val := DISK_ERROR;
      var res := MoveWindow(geo.fatbase + clst / (SECTOR_SIZE / 2));
      if res == Ok {
        var i := clst * 2 % SECTOR_SIZE;
        LoadedHalf(View(), geo, clst);
        val := Le16(win[i], win[i + 1]);
      }
    }

    method GetFat32(clst: Word32) returns (val: Word32)
      requires Valid() && 2 <= clst < geo.nFatent && geo.fsType == FAT32
      modifies this`winsect, this`wflag, this`mirrorStale, win, disk
      ensures Valid() && Agree(old(View()), View(), geo)
      ensures val == DISK_ERROR || (val == Entry(View(), geo, clst) && geo.InFat1(winsect))
      ensures geo.Drifted(old(winsect), winsect)
    {
      hide FatFs.View, FatFs.Mirrored, Geometry.Sound, Geometry.End, RawWord, FatByte, Offset, Le32;
      AreasOrdered(geo);
      TableFits(geo, clst);
      val := DISK_ERROR;
      LoadedWord(View(), geo, clst);
      var res := MoveWindow(geo.fatbase + clst / (SECTOR_SIZE / 4));
      if res == Ok {
        var i := clst * 4 % SECTOR_SIZE;
        LoadedWord(View(), geo, clst);
        val := Le32(win[i], win[i + 1], win[i + 2], win[i + 3]) % 0x1000_0000;
      }
    }

    /** Changes entry clst of the table. When a disk operation fails, at most that entry has changed. */
    method PutFat(clst: Word32, val: Word32) returns (res: FResult)
      requires Valid()
      modifies this`winsect, this`wflag, this`mirrorStale, win, disk
      ensures Valid() && SameData(old(View()), View(), geo) && geo.Drifted(old(winsect), winsect)
      ensures !(2 <= clst < geo.nFatent) ==> res == IntErr && unchanged(this, win, disk)
      ensures 2 <= clst < geo.nFatent ==> res in {Ok, DiskErr}
      ensures res == Ok ==> Fat() == old(Fat())[clst := geo.Truncated(val)] && geo.InFat1(winsect)
      ensures res != Ok ==> OnlyEntry(old(Fat()), Fat(), clst)
      ensures 2 <= clst < geo.nFatent && geo.fsType == FAT32 ==>
                RawWord(View(), geo, clst) / 0x1000_0000 == old(RawWord(View(), geo, clst)) / 0x1000_0000
    {
      res := IntErr;
      if 2 <= clst < geo.nFatent {
        match geo.fsType {
          case FAT12 => res := PutFat12(clst, val);
          case FAT16 => res := PutFat16(clst, val);
          case FAT32 => res := PutFat32(clst, val);
        }
      }
    }

    method PutFat16(clst: Word32, val: Word32) returns (res: FResult)
      requires Valid() && 2 <= clst < geo.nFatent && geo.fsType == FAT16
      modifies this`winsect, this`wflag, this`mirrorStale, win, disk
      ensures Valid() && SameData(old(View()), View(), geo) && geo.Drifted(old(winsect), winsect) && res in {Ok, DiskErr}
      ensures res == Ok ==> Fat() == old(Fat())[clst := geo.Truncated(val)] && geo.InFat1(winsect)
      ensures res != Ok ==> Fat() == old(Fat())
    {
      hide FatFs.View, FatFs.Mirrored, Geometry.Sound, Geometry.End, Entry, Offset, Le16, Table, Agree, SameData, Patch, Word16;
      AreasOrdered(geo);
      TableFits(geo, clst);
      LoadedHalf(View(), geo, clst);
      res := MoveWindow(geo.fatbase + clst / (SECTOR_SIZE / 2));
      ghost var v := View();
      AgreeTable(old(View()), v, geo);
      AgreeThenSame(old(View()), v, v, geo) by { SameDataRefl(v, geo); }
      if res == Ok {
        LoadedHalf(v, geo, clst);
        StoreWindow(clst * 2 % SECTOR_SIZE, Word16(val));
        PatchTable(v, View(), geo, Offset(geo, clst), Word16(val));
        Stored16(v, View(), geo, clst, val);
        AgreeThenSame(old(View()), v, View(), geo);
      }
    }

    method PutFat32(clst: Word32, val: Word32) returns (res: FResult)
      requires Valid() && 2 <= clst < geo.nFatent && geo.fsType == FAT32
      modifies this`winsect, this`wflag, this`mirrorStale, win, disk
      ensures Valid() && SameData(old(View()), View(), geo) && geo.Drifted(old(winsect), winsect) && res in {Ok, DiskErr}
      ensures res == Ok ==> Fat() == old(Fat())[clst := geo.Truncated(val)] && geo.InFat1(winsect)
      ensures res != Ok ==> Fat() == old(Fat())
      ensures RawWord(View(), geo, clst) / 0x1000_0000 == old(RawWord(View(), geo, clst)) / 0x1000_0000
    {
      hide FatFs.View, FatFs.Mirrored, Geometry.Sound, Geometry.End, RawWord, FatByte, Offset, Le32, Table, Entry, Agree, SameData, Patch, Word32Bytes;
      AreasOrdered(geo);
      TableFits(geo, clst);
      LoadedWord(View(), geo, clst);
      res := MoveWindow(geo.fatbase + clst / (SECTOR_SIZE / 4));
      ghost var v := View();
      AgreeTable(old(View()), v, geo);
      AgreeRaw(old(View()), v, geo, clst);
      AgreeThenSame(old(View()), v, v, geo) by { SameDataRefl(v, geo); }
      if res == Ok {
        var i := clst * 4 % SECTOR_SIZE;
        var word := Le32(win[i], win[i + 1], win[i + 2], win[i + 3]);
        LoadedWord(v, geo, clst);
        var x := val % 0x1000_0000 + word / 0x1000_0000 * 0x1000_0000;
        StoreWindow(i, Word32Bytes(x));
        PatchTable(v, View(), geo, Offset(geo, clst), Word32Bytes(x));
        Stored32(v, View(), geo, clst, val, x);
        AgreeThenSame(old(View()), v, View(), geo);
      }
    }

    /** One half of the FAT12 store: load the sector, change one byte. */
    method PutByte12(clst: Word32, val: Word32, second: bool) returns (res: FResult)
      requires Valid() && 2 <= clst < geo.nFatent && geo.fsType == FAT12
      modifies this`winsect, this`wflag, this`mirrorStale, win, disk
      ensures Valid() && SameData(old(View()), View(), geo) && geo.Drifted(old(winsect), winsect) && res in {Ok, DiskErr}
      ensures OnlyEntry(old(Fat()), Fat(), clst)
      ensures res != Ok ==> Fat() == old(Fat())
      ensures forall j: nat {:trigger FatByte(View(), geo, j)} | j < geo.fsize * SECTOR_SIZE ::
                var b := old(FatByte(View(), geo, j));
                FatByte(View(), geo, j) == if res != Ok || j != Offset(geo, clst) + (if second then 1 else 0) then b
                                           else if second then HighByte12(clst, b, val) else LowByte12(clst, b, val)
      ensures res == Ok ==> geo.InFat1(winsect)
    {
      hide FatFs.View, FatFs.Mirrored, Geometry.Sound, Geometry.End, Unpack12, LowByte12, HighByte12, Table, Entry, FatByte, Offset, Agree, SameData, OnlyEntry, Patch;
      AreasOrdered(geo);
      TableFits(geo, clst);
      var bc, b := Offset(geo, clst) + if second then 1 else 0, 0;
      res, b := LoadFatByte(bc);
      ghost var v := View();
      AgreeTable(old(View()), v, geo);
      forall j: nat | j < geo.fsize * SECTOR_SIZE ensures FatByte(v, geo, j) == old(FatByte(View(), geo, j)) {
        AgreeByte(old(View()), v, geo, j);
      }
      AgreeThenSame(old(View()), v, v, geo) by { SameDataRefl(v, geo); }
      SameEntries(Fat(), clst);
      if res == Ok {
        StoreWindow(bc % SECTOR_SIZE, [if second then HighByte12(clst, b, val) else LowByte12(clst, b, val)]);
        Stored12(v, View(), geo, clst, val, second);
        AgreeThenSame(old(View()), v, View(), geo);
      }
    }

    method PutFat12(clst: Word32, val: Word32) returns (res: FResult)
      requires Valid() && 2 <= clst < geo.nFatent && geo.fsType == FAT12
      modifies this`winsect, this`wflag, this`mirrorStale, win, disk
      ensures Valid() && SameData(old(View()), View(), geo) && geo.Drifted(old(winsect), winsect) && res in {Ok, DiskErr}
      ensures res == Ok ==> Fat() == old(Fat())[clst := geo.Truncated(val)] && geo.InFat1(winsect)
      ensures res != Ok ==> OnlyEntry(old(Fat()), Fat(), clst)
    {
      hide FatFs.View, FatFs.Mirrored, Geometry.Sound, Geometry.End, Unpack12, LowByte12, HighByte12, FatByte;
      TableFits(geo, clst);
      ghost var v := View();
      ghost var k := Offset(geo, clst);
      res := PutByte12(clst, val, false);
      if res == Ok {
        ghost var w := View();
        res := PutByte12(clst, val, true);
        if res == Ok {
          assert FatByte(View(), geo, k) == FatByte(w, geo, k) == LowByte12(clst, FatByte(v, geo, k), val);
          assert FatByte(View(), geo, k + 1) == HighByte12(clst, FatByte(w, geo, k + 1), val);
          Packed12(clst, FatByte(v, geo, k), FatByte(w, geo, k + 1), val);
        }
      }
    }
  }
}
