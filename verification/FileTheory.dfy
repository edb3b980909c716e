/** Where the bytes of a chain lie on the disk, and what changing sectors does to them. */
module FileTheory {
  import opened Arith
  import opened Volume
  import opened Clusters
  import opened ChainTheory
  import opened Chain

  /** The clusters of ch exist on a disk of n sectors. */
  predicate Placed(g: Geometry, ch: seq<nat>, n: nat) {
    InVolume(g, ch) && g.End() <= n
  }

  predicate Distinct(ch: seq<nat>) {
    forall i, j {:trigger ch[i], ch[j]} | 0 <= i < j < |ch| :: ch[i] != ch[j]
  }

  /** Sectors in the chain. */
  function Capacity(g: Geometry, ch: seq<nat>): nat { |ch| * g.csize }

  lemma {:induction false} SectorIndex(g: Geometry, ch: seq<nat>, q: nat)
    requires g.csize > 0 && q < Capacity(g, ch)
    ensures 0 <= q / g.csize < |ch|
    ensures q == q / g.csize * g.csize + q % g.csize
  {
    QuotientBelow(q, |ch|, g.csize);
    assert q == g.csize * (q / g.csize) + q % g.csize;
  }

  /** Sector number of sector q of the chain. */
  function SectorOf(g: Geometry, ch: seq<nat>, q: nat): (s: nat)
    requires g.csize > 0 && q < Capacity(g, ch)
    requires forall i {:trigger ch[i]} | 0 <= i < |ch| :: 2 <= ch[i]
  {
    SectorIndex(g, ch, q);
    ClusterTop(g, ch[q / g.csize]) + q % g.csize
  }

  /** s is a sector of the chain. */
  ghost predicate OnChain(g: Geometry, ch: seq<nat>, s: nat) {
    exists c: nat {:trigger g.InCluster(s, c)} :: c in ch && g.InCluster(s, c)
  }

  /** Sector s holds a byte of the file of that size. */
  ghost predicate Shows(g: Geometry, ch: seq<nat>, size: nat, s: nat)
    requires g.csize > 0 && forall i {:trigger ch[i]} | 0 <= i < |ch| :: 2 <= ch[i]
  {
    exists q: nat {:trigger SectorOf(g, ch, q)} :: q < Capacity(g, ch) && q * SECTOR_SIZE < size && SectorOf(g, ch, q) == s
  }

  lemma {:induction false} SectorOnChain(g: Geometry, ch: seq<nat>, q: nat, n: nat)
    requires Placed(g, ch, n) && q < Capacity(g, ch)
    ensures OnChain(g, ch, SectorOf(g, ch, q))
    ensures g.InCluster(SectorOf(g, ch, q), ch[q / g.csize])
    ensures g.database <= SectorOf(g, ch, q) < g.End() <= n
  {
    hide Geometry.End, Capacity, IsClusterSize;
    assert g.csize > 0;
    SectorIndex(g, ch, q);
    var c, s := ch[q / g.csize], SectorOf(g, ch, q);
    assert c in ch && g.InCluster(s, c);
    ClusterInArea(g, s, c);
  }

  lemma {:induction false} SectorInjective(g: Geometry, ch: seq<nat>, p: nat, q: nat, n: nat)
    requires Placed(g, ch, n) && Distinct(ch) && p < Capacity(g, ch) && q < Capacity(g, ch)
    requires SectorOf(g, ch, p) == SectorOf(g, ch, q)
    ensures p == q
  {
    hide Geometry.Sound, Geometry.InCluster;
    SectorOnChain(g, ch, p, n);
    SectorOnChain(g, ch, q, n);
    SectorIndex(g, ch, p);
    SectorIndex(g, ch, q);
    var i, j := p / g.csize, q / g.csize;
    ClusterUnique(g, SectorOf(g, ch, p), ch[i], ch[j]);
    assert i == j;
  }

  /** Stretching a chain leaves its sectors where they were. */
  lemma {:induction false} SectorOfPrefix(g: Geometry, ch: seq<nat>, ext: seq<nat>, q: nat, n: nat)
    requires Placed(g, ch + ext, n) && q < Capacity(g, ch)
    ensures Placed(g, ch, n) && q < Capacity(g, ch + ext)
    ensures SectorOf(g, ch + ext, q) == SectorOf(g, ch, q)
  {
    MulMono(|ch|, |ch + ext|, g.csize);
    assert forall i | 0 <= i < |ch| :: (ch + ext)[i] == ch[i];
    SectorIndex(g, ch, q);
  }

  /** A longer chain holds the file in the same sectors. */
  lemma {:induction false} ShowsPrefix(g: Geometry, ch: seq<nat>, ext: seq<nat>, size: nat, s: nat, n: nat)
    requires Placed(g, ch + ext, n) && size <= Capacity(g, ch) * SECTOR_SIZE
    ensures Placed(g, ch, n) && (Shows(g, ch + ext, size, s) <==> Shows(g, ch, size, s))
  {
    hide SectorOf;
    assert Placed(g, ch, n) by { forall i | 0 <= i < |ch| ensures 2 <= ch[i] < g.nFatent { assert (ch + ext)[i] == ch[i]; } }
    if Shows(g, ch + ext, size, s) {
      var q: nat :| q < Capacity(g, ch + ext) && q * SECTOR_SIZE < size && SectorOf(g, ch + ext, q) == s;
      SectorOfPrefix(g, ch, ext, q, n);
    }
    if Shows(g, ch, size, s) {
      var q: nat :| q < Capacity(g, ch) && q * SECTOR_SIZE < size && SectorOf(g, ch, q) == s;
      SectorOfPrefix(g, ch, ext, q, n);
    }
  }

  /** A longer file shows at least as much. */
  lemma {:induction false} ShowsMore(g: Geometry, ch: seq<nat>, size: nat, more: nat, s: nat, n: nat)
    requires Placed(g, ch, n) && size <= more && Shows(g, ch, size, s)
    ensures Shows(g, ch, more, s)
  {
    hide SectorOf, Geometry.Sound;
    var q: nat :| q < Capacity(g, ch) && q * SECTOR_SIZE < size && SectorOf(g, ch, q) == s;
  }

  /** A sector the file shows is on its chain. */
  lemma {:induction false} ShownOnChain(g: Geometry, ch: seq<nat>, size: nat, s: nat, n: nat)
    requires Placed(g, ch, n) && Shows(g, ch, size, s)
    ensures OnChain(g, ch, s) && g.database <= s < g.End() <= n
  {
    hide SectorOf, Geometry.Sound, OnChain;
    var q: nat :| q < Capacity(g, ch) && q * SECTOR_SIZE < size && SectorOf(g, ch, q) == s;
    SectorOnChain(g, ch, q, n);
  }

  // ---------------------------------------------------------------- bytes

  /** Byte k of the chain. */
  function ByteAt(v: seq<Sector>, g: Geometry, ch: seq<nat>, k: nat): Byte
    requires Placed(g, ch, |v|) && k < Capacity(g, ch) * SECTOR_SIZE
  {
    SectorOnChain(g, ch, k / SECTOR_SIZE, |v|);
    v[SectorOf(g, ch, k / SECTOR_SIZE)][k % SECTOR_SIZE]
  }

  /** The file: the first size bytes of its chain. */
  function Contents(v: seq<Sector>, g: Geometry, ch: seq<nat>, size: nat): (b: seq<Byte>)
    requires Placed(g, ch, |v|) && size <= Capacity(g, ch) * SECTOR_SIZE
    ensures |b| == size
    ensures forall k {:trigger b[k]} | 0 <= k < size :: b[k] == ByteAt(v, g, ch, k)
  {
    seq(size, k requires 0 <= k < size => ByteAt(v, g, ch, k))
  }

  /** old with data in place of its bytes from pos on. */
  function Splice(old_: seq<Byte>, pos: nat, data: seq<Byte>): (r: seq<Byte>)
    requires pos <= |old_|
    ensures |r| == if pos + |data| > |old_| then pos + |data| else |old_|
    ensures forall k {:trigger r[k]} | 0 <= k < |r| :: r[k] == if pos <= k < pos + |data| then data[k - pos] else old_[k]
  {
    old_[..pos] + data + if pos + |data| < |old_| then old_[pos + |data|..] else []
  }

  lemma {:induction false} SpliceTwice(old_: seq<Byte>, pos: nat, a: seq<Byte>, b: seq<Byte>)
    requires pos <= |old_|
    ensures Splice(Splice(old_, pos, a), pos + |a|, b) == Splice(old_, pos, a + b)
  {
  }

  /** Views that agree on the sectors of a chain hold the same file. */
  lemma {:induction false} SameSectorsSameContents(v: seq<Sector>, w: seq<Sector>, g: Geometry, ch: seq<nat>, size: nat)
    requires Placed(g, ch, |v|) && |v| == |w| && size <= Capacity(g, ch) * SECTOR_SIZE
    requires forall s: nat {:trigger v[s]} {:trigger w[s]} | s < |v| && OnChain(g, ch, s) :: v[s] == w[s]
    ensures Contents(v, g, ch, size) == Contents(w, g, ch, size)
  {
    forall k | 0 <= k < size ensures ByteAt(v, g, ch, k) == ByteAt(w, g, ch, k) {
      SectorOnChain(g, ch, k / SECTOR_SIZE, |v|);
    }
  }

  /** Bytes stored into one sector of the chain appear in the file at their place and nowhere else. */
  lemma {:induction false} PatchContents(v: seq<Sector>, w: seq<Sector>, g: Geometry, ch: seq<nat>, size: nat, pos: nat, bs: seq<Byte>)
    requires Placed(g, ch, |v|) && Distinct(ch)
    requires pos <= size <= Capacity(g, ch) * SECTOR_SIZE && pos + |bs| <= Capacity(g, ch) * SECTOR_SIZE
    requires pos / SECTOR_SIZE < Capacity(g, ch)
    requires pos % SECTOR_SIZE + |bs| <= SECTOR_SIZE
    requires SectorOf(g, ch, pos / SECTOR_SIZE) < |v|
    requires w == v[SectorOf(g, ch, pos / SECTOR_SIZE) := Patch(v[SectorOf(g, ch, pos / SECTOR_SIZE)], pos % SECTOR_SIZE, bs)]
    ensures Contents(w, g, ch, if pos + |bs| > size then pos + |bs| else size) == Splice(Contents(v, g, ch, size), pos, bs)
  {
    var m := if pos + |bs| > size then pos + |bs| else size;
    forall k | 0 <= k < m
      ensures ByteAt(w, g, ch, k) == if pos <= k < pos + |bs| then bs[k - pos] else ByteAt(v, g, ch, k)
    {
      PatchByte(v, w, g, ch, pos, bs, k);
    }
  }

  lemma {:induction false} PatchByte(v: seq<Sector>, w: seq<Sector>, g: Geometry, ch: seq<nat>, pos: nat, bs: seq<Byte>, k: nat)
    requires Placed(g, ch, |v|) && Distinct(ch)
    requires k < Capacity(g, ch) * SECTOR_SIZE && pos / SECTOR_SIZE < Capacity(g, ch)
    requires pos % SECTOR_SIZE + |bs| <= SECTOR_SIZE
    requires SectorOf(g, ch, pos / SECTOR_SIZE) < |v|
    requires w == v[SectorOf(g, ch, pos / SECTOR_SIZE) := Patch(v[SectorOf(g, ch, pos / SECTOR_SIZE)], pos % SECTOR_SIZE, bs)]
    ensures ByteAt(w, g, ch, k) == if pos <= k < pos + |bs| then bs[k - pos] else ByteAt(v, g, ch, k)
  {
    var p, q := pos / SECTOR_SIZE, k / SECTOR_SIZE;
    SectorOnChain(g, ch, q, |v|);
    if p == q {
      assert k - pos == k % SECTOR_SIZE - pos % SECTOR_SIZE;
    } else if SectorOf(g, ch, p) == SectorOf(g, ch, q) {
      SectorInjective(g, ch, p, q, |v|);
    }
  }

  /** Whole sectors stored at consecutive sectors of one cluster appear in the file at their place and nowhere else. */
  lemma {:induction false} TransferContents(v: seq<Sector>, w: seq<Sector>, g: Geometry, ch: seq<nat>, size: nat, q0: nat, data: seq<Byte>, n: nat)
    requires Placed(g, ch, |v|) && Distinct(ch) && |w| == |v| && |data| == n * SECTOR_SIZE && n > 0
    requires q0 * SECTOR_SIZE <= size <= Capacity(g, ch) * SECTOR_SIZE && q0 + n <= Capacity(g, ch)
    requires q0 % g.csize + n <= g.csize
    requires Holds(w, SectorOf(g, ch, q0), n, data)
    requires forall s: nat {:trigger w[s]} | s < |v| && !(SectorOf(g, ch, q0) <= s < SectorOf(g, ch, q0) + n) :: w[s] == v[s]
    ensures var pos := q0 * SECTOR_SIZE;
            Contents(w, g, ch, if pos + |data| > size then pos + |data| else size) == Splice(Contents(v, g, ch, size), pos, data)
  {
    var pos := q0 * SECTOR_SIZE;
    var m := if pos + |data| > size then pos + |data| else size;
    forall k | 0 <= k < m
      ensures ByteAt(w, g, ch, k) == if pos <= k < pos + |data| then data[k - pos] else ByteAt(v, g, ch, k)
    {
      var q := k / SECTOR_SIZE;
      SectorOnChain(g, ch, q, |v|);
      if q0 <= q < q0 + n {
        Consecutive(g, ch, q0, q - q0, |v|);
        var i := q - q0;
        assert w[SectorOf(g, ch, q)] == Chunk(data, i);
        assert k - pos == i * SECTOR_SIZE + k % SECTOR_SIZE;
      } else {
        OutsideRun(g, ch, q0, n, q, |v|);
      }
    }
  }

  /** Within a cluster consecutive file sectors are consecutive on the disk. */
  lemma {:induction false} Consecutive(g: Geometry, ch: seq<nat>, q0: nat, i: nat, n: nat)
    requires Placed(g, ch, n) && q0 + i < Capacity(g, ch) && q0 % g.csize + i < g.csize
    ensures SectorOf(g, ch, q0 + i) == SectorOf(g, ch, q0) + i
    ensures (q0 + i) / g.csize == q0 / g.csize
  {
    SectorIndex(g, ch, q0);
    DivModUnique(q0 / g.csize, q0 % g.csize + i, g.csize);
    SectorIndex(g, ch, q0 + i);
  }

  lemma {:induction false} OutsideRun(g: Geometry, ch: seq<nat>, q0: nat, n: nat, q: nat, total: nat)
    requires Placed(g, ch, total) && Distinct(ch) && q0 + n <= Capacity(g, ch) && q < Capacity(g, ch)
    requires n > 0 && q0 % g.csize + n <= g.csize && !(q0 <= q < q0 + n)
    ensures !(SectorOf(g, ch, q0) <= SectorOf(g, ch, q) < SectorOf(g, ch, q0) + n)
  {
    var d := SectorOf(g, ch, q) - SectorOf(g, ch, q0);
    if 0 <= d < n {
      Consecutive(g, ch, q0, d, total);
      SectorInjective(g, ch, q, q0 + d, total);
    }
  }

  /** A sector at or beyond the end of the file does not show in it. */
  lemma {:induction false} BeyondEnd(v: seq<Sector>, g: Geometry, ch: seq<nat>, size: nat, q: nat, x: Sector)
    requires Placed(g, ch, |v|) && Distinct(ch) && q < Capacity(g, ch)
    requires size <= q * SECTOR_SIZE && size <= Capacity(g, ch) * SECTOR_SIZE
    requires SectorOf(g, ch, q) < |v|
    ensures Contents(v[SectorOf(g, ch, q) := x], g, ch, size) == Contents(v, g, ch, size)
  {
    var w := v[SectorOf(g, ch, q) := x];
    forall k | 0 <= k < size ensures ByteAt(v, g, ch, k) == ByteAt(w, g, ch, k) {
      SectorOnChain(g, ch, k / SECTOR_SIZE, |v|);
      if SectorOf(g, ch, k / SECTOR_SIZE) == SectorOf(g, ch, q) {
        SectorInjective(g, ch, k / SECTOR_SIZE, q, |v|);
      }
    }
  }

  /** A longer chain holds the same file in its first clusters. */
  lemma {:induction false} PrefixContents(v: seq<Sector>, g: Geometry, ch: seq<nat>, ext: seq<nat>, size: nat)
    requires Placed(g, ch + ext, |v|) && size <= Capacity(g, ch) * SECTOR_SIZE
    ensures Placed(g, ch, |v|) && Capacity(g, ch) <= Capacity(g, ch + ext)
    ensures Contents(v, g, ch + ext, size) == Contents(v, g, ch, size)
  {
    MulMono(|ch|, |ch + ext|, g.csize);
    assert forall i | 0 <= i < |ch| :: (ch + ext)[i] == ch[i];
    forall k | 0 <= k < size ensures ByteAt(v, g, ch + ext, k) == ByteAt(v, g, ch, k) {
      SectorOfPrefix(g, ch, ext, k / SECTOR_SIZE, |v|);
    }
  }

  /** In the middle of a cluster the byte before a sector boundary lies in the same cluster. */
  lemma {:induction false} SameCluster(k: nat, csize: nat)
    requires csize > 0 && k > 0 && k % SECTOR_SIZE == 0 && k / SECTOR_SIZE % csize != 0
    ensures (k - 1) / SECTOR_SIZE / csize == k / SECTOR_SIZE / csize
  {
    var q := k / SECTOR_SIZE;
    assert (k - 1) / SECTOR_SIZE == q - 1;
    DivModUnique(q / csize, q % csize - 1, csize);
    assert q == q / csize * csize + q % csize;
  }

  /** The clusters before a cluster boundary are the ones up to it. */
  lemma {:induction false} BoundaryIndex(k: nat, csize: nat)
    requires csize > 0 && k > 0 && k % SECTOR_SIZE == 0 && k / SECTOR_SIZE % csize == 0
    ensures (k - 1) / SECTOR_SIZE / csize == k / SECTOR_SIZE / csize - 1
  {
    var q := k / SECTOR_SIZE;
    assert (k - 1) / SECTOR_SIZE == q - 1;
    assert q == q / csize * csize + q % csize;
    DivModUnique(q / csize - 1, csize - 1, csize);
    assert (q / csize - 1) * csize == q / csize * csize - csize;
  }

  // ---------------------------------------------------------------- what a file operation may touch

  /** Cluster c belongs to the chain or to nobody. */
  predicate Available(f: seq<nat>, ch: seq<nat>, c: nat) {
    c in ch || (c < |f| && f[c] == 0)
  }

  /** s is a sector of an available cluster. */
  ghost predicate OwnSector(g: Geometry, f: seq<nat>, ch: seq<nat>, s: nat) {
    exists c: nat {:trigger g.InCluster(s, c)} :: g.InCluster(s, c) && Available(f, ch, c)
  }

  /** From a to b no entry of a cluster of another chain and no sector outside the table and the
      file's own or free clusters has changed, the file only took clusters that were free, and the
      window went nowhere but into the table. */
  ghost predicate Isolated(a: FileState, b: FileState) {
    && b.g == a.g && |b.f| == |a.f| && |b.v| == |a.v| && a.g.Drifted(a.w, b.w)
    && (forall c: nat {:trigger b.f[c]} | 2 <= c < |a.f| && !Available(a.f, a.chain, c) :: b.f[c] == a.f[c])
    && (forall s: nat {:trigger b.v[s]} | s < |a.v| && !a.g.InFat1(s) && !a.g.InFat2(s) && !OwnSector(a.g, a.f, a.chain, s) :: b.v[s] == a.v[s])
    && (forall c: nat {:trigger c in b.chain} | c in b.chain :: Available(a.f, a.chain, c) && 2 <= c < |a.f|)
  }

  lemma {:induction false} IsolatedTransitive(a: FileState, b: FileState, c: FileState)
    requires Isolated(a, b) && Isolated(b, c)
    ensures Isolated(a, c)
  {
    forall x: nat | Available(b.f, b.chain, x) && 2 <= x < |a.f| ensures Available(a.f, a.chain, x) {
    }
    forall s: nat | OwnSector(a.g, b.f, b.chain, s) ensures OwnSector(a.g, a.f, a.chain, s) {
      var x: nat :| a.g.InCluster(s, x) && Available(b.f, b.chain, x);
      assert Available(a.f, a.chain, x);
    }
  }

  /** Changing only sectors of the file's own chain is isolated. */
  lemma {:induction false} OwnChange(a: FileState, b: FileState)
    requires (a.Guarded() || Ready(a)) && b.g == a.g && b.f == a.f && b.w == a.w && b.chain == a.chain && |b.v| == |a.v|
    requires forall s: nat {:trigger b.v[s]} | s < |a.v| && !OnChain(a.g, a.chain, s) :: b.v[s] == a.v[s]
    ensures Isolated(a, b)
  {
    forall s: nat | OnChain(a.g, a.chain, s) ensures OwnSector(a.g, a.f, a.chain, s) {
      var c: nat :| c in a.chain && a.g.InCluster(s, c);
      assert Available(a.f, a.chain, c);
    }
    forall c: nat | c in b.chain ensures Available(a.f, a.chain, c) && 2 <= c < |a.f| { }
  }

  // ---------------------------------------------------------------- an open file as a value

  /** Everything a file operation works on: the volume's view v, table f and window position w,
      and the fields of the file object with its buffer contents b. */
  datatype FileState = FileState(
    g: Geometry, v: seq<Sector>, f: seq<nat>, w: nat,
    chain: seq<nat>, sclust: nat, clust: nat, fptr: nat, size: nat,
    dirty: bool, sect: nat, b: seq<Byte>, writable: bool)
  {
    /** Holds also after an operation has failed. */
    ghost predicate Guarded() {
      && Placed(g, chain, |v|) && |f| == g.nFatent && |v| <= NO_SECTOR && |b| == SECTOR_SIZE
      && !OnChain(g, chain, w)
      && (dirty ==> writable && sect < |v| && OnChain(g, chain, sect))
    }

    /** The chain is in the table and long enough. */
    ghost predicate Listed() {
      && Distinct(chain) && (|chain| > 0 ==> IsChain(f, chain))
      && size <= Capacity(g, chain) * SECTOR_SIZE
    }

    /** A clean buffer holds the sector it names, when a byte of the file is in that sector. A buffer of
        a sector that has left the file may be out of date. */
    ghost predicate Cached()
      requires Placed(g, chain, |v|)
    {
      && (sect != 0 ==> g.database <= sect < g.End() && sect < |v|)
      && (sect != 0 && !dirty && Shows(g, chain, size, sect) ==> b == v[sect])
    }

    /** The buffer is the sector it names, whether the file has a byte there or not. */
    ghost predicate UpToDate() {
      sect != 0 && !dirty ==> sect < |v| && b == v[sect]
    }

    /** The start cluster is the first of the chain. */
    ghost predicate Rooted() {
      if |chain| == 0 then sclust == 0 else sclust == chain[0]
    }

    /** The cursor is inside the file, and clust is the cluster of the byte before it. */
    ghost predicate Positioned()
      requires Guarded()
    {
      && fptr <= size
      && (fptr > 0 ==> Located(g, chain, fptr - 1, clust))
      && (fptr % SECTOR_SIZE != 0 ==> fptr / SECTOR_SIZE < Capacity(g, chain) && sect == SectorOf(g, chain, fptr / SECTOR_SIZE))
    }

    ghost predicate Sound() {
      Guarded() && Listed() && Cached()
    }

    /** Whole but for a clean buffer that may be out of date. */
    ghost predicate Settled() {
      Guarded() && Listed() && Rooted() && Positioned()
    }

    ghost predicate Whole() {
      Sound() && Rooted() && Positioned()
    }

    /** The disk as the file means it: its dirty buffer in front of the volume. */
    ghost function FileView(): (u: seq<Sector>)
      requires Guarded()
      ensures |u| == |v|
    {
      Overlay(v, dirty, sect, b)
    }

    /** The byte array the file stands for. */
    ghost function Held(): (h: seq<Byte>)
      requires Guarded() && Listed()
      ensures |h| == size
    {
      Contents(FileView(), g, chain, size)
    }
  }

  lemma {:induction false} OnChainArea(g: Geometry, ch: seq<nat>, s: nat, n: nat)
    requires Placed(g, ch, n) && OnChain(g, ch, s)
    ensures 0 < g.database <= s < g.End() <= n
    ensures !g.InFat1(s) && !g.InFat2(s)
  {
    var c: nat :| c in ch && g.InCluster(s, c);
    ClusterInArea(g, s, c);
    AreasOrdered(g);
  }

  /** The window cannot drift onto the chain. */
  lemma {:induction false} WindowOff(g: Geometry, ch: seq<nat>, w: nat, x: nat, n: nat)
    requires Placed(g, ch, n) && n <= NO_SECTOR
    requires g.Drifted(w, x) && (!OnChain(g, ch, w) || g.InFat1(x))
    ensures !OnChain(g, ch, x)
  {
    if OnChain(g, ch, x) {
      OnChainArea(g, ch, x, n);
    }
  }

  /** v seen through a sector buffer. */
  function Overlay(v: seq<Sector>, dirty: bool, sect: nat, b: seq<Byte>): (w: seq<Sector>)
    requires dirty ==> sect < |v| && |b| == SECTOR_SIZE
    ensures |w| == |v|
  {
    if dirty then v[sect := b] else v
  }

  /** Changes confined to the table do not show in a file. */
  lemma {:induction false} TableChangeKeepsFile(v: seq<Sector>, w: seq<Sector>, g: Geometry, ch: seq<nat>, size: nat, dirty: bool, sect: nat, b: seq<Byte>)
    requires Placed(g, ch, |v|) && SameData(v, w, g) && size <= Capacity(g, ch) * SECTOR_SIZE
    requires dirty ==> sect < |v| && |b| == SECTOR_SIZE
    ensures Contents(Overlay(v, dirty, sect, b), g, ch, size) == Contents(Overlay(w, dirty, sect, b), g, ch, size)
  {
    forall s: nat | OnChain(g, ch, s) ensures !g.InFat1(s) && !g.InFat2(s) {
      OnChainArea(g, ch, s, |v|);
    }
    SameSectorsSameContents(Overlay(v, dirty, sect, b), Overlay(w, dirty, sect, b), g, ch, size);
  }

  /** create_chain called for the file is isolated. */
  lemma {:induction false} CreateIsolated(a: FileState, b: FileState, clst: nat)
    requires a.Guarded() && b.g == a.g && a.g.Drifted(a.w, b.w)
    requires KeepsUsed(a.f, b.f, clst) && SameData(a.v, b.v, a.g)
    requires clst == 0 || clst in a.chain
    requires b.chain == a.chain || exists x: nat :: 2 <= x < |a.f| && a.f[x] == 0 && b.chain == a.chain + [x]
    ensures Isolated(a, b)
  {
    forall c: nat | c in b.chain ensures Available(a.f, a.chain, c) && 2 <= c < |a.f| { }
  }

  /** When create_chain, asked for the cluster behind number i of a chain, stretches it. */
  lemma {:induction false} StretchCase(f: seq<nat>, ch: seq<nat>, i: nat, from: nat)
    requires if |ch| == 0 then from == 0 else IsChain(f, ch) && i < |ch| && from == ch[i]
    ensures !Insane(f, from) && (|ch| > 0 ==> from != 0)
    ensures Follows(f, from) <==> |ch| > 0 && i + 1 < |ch|
    ensures |ch| > 0 && i + 1 < |ch| ==> from < |f| && f[from] == ch[i + 1]
  {
    if |ch| > 0 && i + 1 < |ch| { ChainLink(f, ch, i); }
  }

  lemma {:induction false} ChainIsDistinct(f: seq<nat>, ch: seq<nat>)
    requires IsChain(f, ch)
    ensures Distinct(ch)
  {
    forall i, j | 0 <= i < j < |ch| ensures ch[i] != ch[j] {
      ChainDistinct(f, ch, i, j);
    }
  }

  /** The chain after create_chain has taken cluster x for it. */
  lemma {:induction false} Extended(f: seq<nat>, h: seq<nat>, ch: seq<nat>, x: nat)
    requires |ch| > 0 ==> IsChain(f, ch)
    requires Allocated(f, h, if |ch| == 0 then 0 else ch[|ch| - 1], x)
    ensures IsChain(h, ch + [x]) && Distinct(ch + [x])
    ensures 2 <= x < |f| && f[x] == 0
  {
    if |ch| > 0 {
      AppendChain(f, h, ch, x);
    }
    ChainIsDistinct(h, ch + [x]);
  }

  lemma {:induction false} SameDataSector(v: seq<Sector>, w: seq<Sector>, g: Geometry, s: nat)
    requires g.Sound() && SameData(v, w, g)
    ensures |w| == |v|
    ensures g.database <= s < |v| ==> w[s] == v[s]
  {
    AreasOrdered(g);
  }

  lemma {:induction false} OnChainLonger(g: Geometry, ch: seq<nat>, ext: seq<nat>, s: nat)
    ensures OnChain(g, ch, s) ==> OnChain(g, ch + ext, s)
  {
    if OnChain(g, ch, s) {
      var c: nat :| c in ch && g.InCluster(s, c);
      assert c in ch + ext;
    }
  }

  lemma {:induction false} SlotInside(i: nat, r: nat, csize: nat, n: nat)
    requires i < n && r < csize
    ensures 0 <= i * csize + r < n * csize
  {
    MulMono(i + 1, n, csize);
    MulMono(0, i, csize);
    assert (i + 1) * csize == i * csize + csize;
  }

  /** clst2sect plus the sector offset in the cluster is the sector of the chain. */
  lemma {:induction false} Clst2SectOf(g: Geometry, ch: seq<nat>, q: nat, clst: Word32, n: nat)
    requires Placed(g, ch, n) && q < Capacity(g, ch) && 0 <= q / g.csize < |ch| && clst == ch[q / g.csize]
    ensures Clst2Sect(g, clst) != 0
    ensures Clst2Sect(g, clst) + q % g.csize == SectorOf(g, ch, q)
  {
    hide Geometry.Sound, Geometry.End, Geometry.InCluster, Capacity;
    SectorOnChain(g, ch, q, n);
    TablePlaces(g);
    SmallTable(g);
    SmallSub(clst, 2);
    assert Clst2Sect(g, clst) == ClusterTop(g, clst) && clst < g.nFatent;
    MulMono(0, clst - 2, g.csize);
  }

  lemma {:induction false} SmallTable(g: Geometry)
    requires g.Sound()
    ensures 3 <= g.nFatent < POW32 && 0 < g.fatbase
  {
    hide IsClusterSize, Geometry.End;
  }

  lemma {:induction false} SmallSub(a: Word32, b: Word32)
    requires b <= a
    ensures Sub32(a, b) == a - b
  {
  }

  lemma {:induction false} IsolatedReflexive(a: FileState)
    requires a.Guarded()
    ensures Isolated(a, a)
  {
    forall c: nat | c in a.chain ensures Available(a.f, a.chain, c) && 2 <= c < |a.f| { }
  }

  /** clst is the cluster of byte k of the chain. */
  predicate Located(g: Geometry, ch: seq<nat>, k: nat, clst: nat)
    requires g.csize > 0
  {
    k / SECTOR_SIZE < Capacity(g, ch) &&
    (SectorIndex(g, ch, k / SECTOR_SIZE); clst == ch[k / SECTOR_SIZE / g.csize])
  }

  /** k is a cluster boundary. */
  predicate OnBoundary(g: Geometry, k: nat) {
    g.csize > 0 && k % SECTOR_SIZE == 0 && k / SECTOR_SIZE % g.csize == 0
  }

  /** Number of the cluster byte k lies in. */
  function ClusterIndex(g: Geometry, k: nat): nat
    requires g.csize > 0
  {
    k / SECTOR_SIZE / g.csize
  }

  lemma {:induction false} LocatedBefore(g: Geometry, ch: seq<nat>, k: nat, clst: nat)
    requires g.csize > 0 && OnBoundary(g, k) && k > 0 && Located(g, ch, k - 1, clst)
    ensures 1 <= ClusterIndex(g, k) <= |ch| && clst == ch[ClusterIndex(g, k) - 1]
  {
    BoundaryIndex(k, g.csize);
    SectorIndex(g, ch, (k - 1) / SECTOR_SIZE);
  }

  lemma {:induction false} LocatedHere(g: Geometry, ch: seq<nat>, k: nat, clst: nat)
    requires g.csize > 0 && OnBoundary(g, k) && ClusterIndex(g, k) < |ch| && clst == ch[ClusterIndex(g, k)]
    ensures Located(g, ch, k, clst)
  {
    SlotInside(ClusterIndex(g, k), 0, g.csize, |ch|);
  }

  /** Off a cluster boundary the byte before lies in the same cluster. */
  lemma {:induction false} LocatedSame(g: Geometry, ch: seq<nat>, k: nat, clst: nat)
    requires g.csize > 0 && !OnBoundary(g, k) && Located(g, ch, k - 1, clst)
    ensures Located(g, ch, k, clst)
  {
    var q := k / SECTOR_SIZE;
    SectorIndex(g, ch, (k - 1) / SECTOR_SIZE);
    if k % SECTOR_SIZE == 0 {
      SameCluster(k, g.csize);
      SlotInside(q / g.csize, q % g.csize, g.csize, |ch|);
    } else {
      assert (k - 1) / SECTOR_SIZE == q;
    }
  }

  // ---------------------------------------------------------------- what a failure leaves

  /** The links between the clusters of ch are in the table. */
  ghost predicate LinksIn(f: seq<nat>, ch: seq<nat>) {
    forall i {:trigger ch[i]} | 0 <= i < |ch| - 1 :: ch[i] < |f| && f[ch[i]] == ch[i + 1]
  }

  /** The file's clusters are still linked and hold its first n bytes. */
  ghost predicate Salvaged(a: FileState, b: FileState, n: nat) {
    && a.Guarded() && a.Listed() && b.Guarded() && b.g == a.g && |b.v| == |a.v| && a.chain <= b.chain && n <= a.size
    && LinksIn(b.f, a.chain) && Contents(b.FileView(), a.g, a.chain, n) == a.Held()[..n]
  }

  /** Nothing of the file is lost when it is still in order. */
  lemma {:induction false} SoundSalvaged(a: FileState, b: FileState, n: nat)
    requires a.Guarded() && a.Listed() && b.Guarded() && b.Listed() && b.g == a.g && |b.v| == |a.v| && a.chain <= b.chain && n <= a.size && n <= b.size
    requires b.Held()[..n] == a.Held()[..n]
    ensures Salvaged(a, b, n)
  {
    hide OnChain, IsChain;
    var ext := b.chain[|a.chain|..];
    assert a.chain + ext == b.chain;
    PrefixLinks(b.f, a.chain, ext);
    PrefixContents(b.FileView(), a.g, a.chain, ext, n);
    FirstBytes(b.FileView(), a.g, b.chain, n, b.size);
  }

  lemma {:induction false} PrefixLinks(f: seq<nat>, ch: seq<nat>, ext: seq<nat>)
    requires |ch + ext| > 0 ==> IsChain(f, ch + ext)
    ensures LinksIn(f, ch)
  {
    forall i | 0 <= i < |ch| - 1 ensures ch[i] < |f| && f[ch[i]] == ch[i + 1] {
      ChainLink(f, ch + ext, i);
    }
  }

  lemma {:induction false} FirstBytes(v: seq<Sector>, g: Geometry, ch: seq<nat>, n: nat, size: nat)
    requires Placed(g, ch, |v|) && n <= size <= Capacity(g, ch) * SECTOR_SIZE
    ensures Contents(v, g, ch, n) == Contents(v, g, ch, size)[..n]
  {
    hide ByteAt;
  }

  /** Later losses are none to the bytes before. */
  lemma {:induction false} SalvagedFrom(a: FileState, m: FileState, b: FileState, n: nat, k: nat)
    requires a.Guarded() && a.Listed() && m.g == a.g && |m.v| == |a.v| && a.chain <= m.chain && n <= k && n <= a.size
    requires Salvaged(m, b, k) && m.Held()[..n] == a.Held()[..n]
    ensures Salvaged(a, b, n)
  {
    hide OnChain, IsChain, ByteAt;
    var ext := m.chain[|a.chain|..];
    assert a.chain + ext == m.chain;
    forall i | 0 <= i < |a.chain| - 1 ensures a.chain[i] < |b.f| && b.f[a.chain[i]] == a.chain[i + 1] {
      assert m.chain[i] == a.chain[i] && m.chain[i + 1] == a.chain[i + 1];
    }
    PrefixContents(b.FileView(), a.g, a.chain, ext, n);
    FirstBytes(b.FileView(), a.g, m.chain, n, k);
    assert m.Held()[..k][..n] == m.Held()[..n];
  }

  /** The disk as the file means it has stayed, and so has the table. */
  lemma {:induction false} ViewSalvaged(a: FileState, b: FileState)
    requires a.Guarded() && a.Listed() && b.Guarded() && b.g == a.g && b.f == a.f && b.chain == a.chain && b.FileView() == a.FileView()
    ensures Salvaged(a, b, a.size)
  {
    assert a.chain + [] == a.chain;
    PrefixLinks(a.f, a.chain, []);
    assert a.Held()[..a.size] == a.Held();
  }

  /** Salvage does not look at the cursor or the size. */
  lemma {:induction false} SalvagedSame(a: FileState, m: FileState, b: FileState, n: nat)
    requires Salvaged(a, m, n) && b.Guarded() && b.g == m.g && b.v == m.v && b.f == m.f && b.chain == m.chain && b.FileView() == m.FileView()
    ensures Salvaged(a, b, n)
  {
  }

  /** A change confined to the table that keeps the links. */
  lemma {:induction false} TableSalvaged(a: FileState, m: FileState, from: nat)
    requires a.Guarded() && a.Listed() && m.Guarded() && m == a.(v := m.v, f := m.f, w := m.w) && SameData(a.v, m.v, a.g)
    requires KeepsUsed(a.f, m.f, from) && (m.f == a.f || a.chain == [] || from == a.chain[|a.chain| - 1])
    ensures Salvaged(a, m, a.size)
  {
    hide OnChain, ByteAt, IsChain;
    TableChangeKeepsFile(a.v, m.v, a.g, a.chain, a.size, a.dirty, a.sect, a.b);
    TableLinks(a.f, m.f, a.chain, from);
    assert a.Held()[..a.size] == a.Held();
  }

  lemma {:induction false} TableLinks(f: seq<nat>, h: seq<nat>, ch: seq<nat>, from: nat)
    requires |ch| > 0 ==> IsChain(f, ch)
    requires KeepsUsed(f, h, from) && (h == f || ch == [] || from == ch[|ch| - 1])
    ensures LinksIn(h, ch)
  {
    forall i | 0 <= i < |ch| - 1 ensures ch[i] < |h| && h[ch[i]] == ch[i + 1] {
      ChainLink(f, ch, i);
      ChainDistinct(f, ch, i, |ch| - 1);
    }
  }

  // ---------------------------------------------------------------- stretching

  /** What asking create_chain for the cluster behind number i of the file's chain leaves behind. */
  ghost predicate StretchResult(a: FileState, b: FileState, i: nat, clst: nat) {
    && b == a.(v := b.v, f := b.f, w := b.w, chain := b.chain)
    && Isolated(a, b) && a.chain <= b.chain && b.Guarded() && SameData(a.v, b.v, a.g) && Salvaged(a, b, a.size)
    && (clst != DISK_ERROR ==> a.Sound() && b.Sound() && b.Held() == a.Held() && (a.UpToDate() ==> b.UpToDate()))
    && (clst < 2 ==> b.chain == a.chain && b.f == a.f)
    && (clst >= 2 && clst != DISK_ERROR ==>
          var k := if |a.chain| == 0 then 0 else i + 1;
          k < |b.chain| && clst == b.chain[k])
  }

  /** The state after create_chain, with the file's record of its chain not yet lengthened. */
  lemma {:induction false} StretchStep(a: FileState, m: FileState, from: nat, i: nat, clst: nat)
    requires a.Sound() && m == a.(v := m.v, f := m.f, w := m.w)
    requires if |a.chain| == 0 then from == 0 else i < |a.chain| && from == a.chain[i]
    requires SameData(a.v, m.v, a.g) && a.g.Drifted(a.w, m.w) && KeepsUsed(a.f, m.f, from)
    requires (clst < 2 ==> m.f == a.f) && (Follows(a.f, from) ==> m.f == a.f)
    requires clst >= 2 && clst != DISK_ERROR && Follows(a.f, from) ==> m.f == a.f && clst == a.f[from]
    requires clst >= 2 && clst != DISK_ERROR && !Follows(a.f, from) ==> Allocated(a.f, m.f, from, clst)
    requires clst >= 2 && clst != DISK_ERROR ==> a.g.InFat1(m.w)
    ensures var longer := clst >= 2 && clst != DISK_ERROR && (|a.chain| == 0 || i + 1 == |a.chain|);
            StretchResult(a, if longer then m.(chain := a.chain + [clst]) else m, i, clst)
  {
    hide Isolated, FileState.Held, FileState.Guarded, FileState.Cached, FileState.UpToDate, Salvaged, SameData, KeepsUsed, Allocated, IsChain, Distinct;
    StretchCase(a.f, a.chain, i, from);
    StretchKept(a, m, from);
    if clst >= 2 && clst != DISK_ERROR && (|a.chain| == 0 || i + 1 == |a.chain|) {
      StretchLonger(a, m, from, clst);
    } else if clst != DISK_ERROR {
      StretchSame(a, m);
    }
  }

  /** The table accesses of create_chain leave the file as it was, as far as the file reaches. */
  lemma {:induction false} StretchKept(a: FileState, m: FileState, from: nat)
    requires a.Sound() && m == a.(v := m.v, f := m.f, w := m.w) && SameData(a.v, m.v, a.g) && a.g.Drifted(a.w, m.w)
    requires KeepsUsed(a.f, m.f, from) && (from == 0 || from in a.chain) && (m.f == a.f || a.chain == [] || from == a.chain[|a.chain| - 1])
    ensures m.Guarded() && Isolated(a, m) && Salvaged(a, m, a.size)
    ensures m.FileView() == Overlay(m.v, a.dirty, a.sect, a.b) && Contents(m.FileView(), a.g, a.chain, a.size) == a.Held()
  {
    hide OnChain, Isolated, Salvaged, IsChain, Distinct, ByteAt, Shows;
    WindowOff(a.g, a.chain, a.w, m.w, |a.v|);
    TableChangeKeepsFile(a.v, m.v, a.g, a.chain, a.size, a.dirty, a.sect, a.b);
    TableSalvaged(a, m, from);
    CreateIsolated(a, m, from);
  }

  lemma {:induction false} StretchSame(a: FileState, m: FileState)
    requires a.Sound() && m == a.(v := m.v, f := a.f, w := m.w) && SameData(a.v, m.v, a.g) && m.Guarded()
    requires Contents(m.FileView(), a.g, a.chain, a.size) == a.Held()
    ensures m.Sound() && m.Held() == a.Held() && (a.UpToDate() ==> m.UpToDate())
  {
    hide OnChain, IsChain, Distinct, Shows, Contents;
    SameDataSector(a.v, m.v, a.g, a.sect);
  }

  /** The chain with the cluster create_chain has taken for it. */
  lemma {:induction false} StretchLonger(a: FileState, m: FileState, from: nat, clst: nat)
    requires a.Sound() && m == a.(v := m.v, f := m.f, w := m.w) && SameData(a.v, m.v, a.g) && m.Guarded() && a.g.InFat1(m.w)
    requires KeepsUsed(a.f, m.f, from) && from == (if |a.chain| == 0 then 0 else a.chain[|a.chain| - 1]) && Allocated(a.f, m.f, from, clst)
    requires Contents(m.FileView(), a.g, a.chain, a.size) == a.Held()
    ensures var b := m.(chain := a.chain + [clst]);
            b.Sound() && b.Held() == a.Held() && Isolated(a, b) && Salvaged(a, b, a.size) && (a.UpToDate() ==> b.UpToDate())
  {
    hide Isolated, IsChain, Distinct, Shows, SectorOf, ByteAt, KeepsUsed, Salvaged;
    var b := m.(chain := a.chain + [clst]);
    Extended(a.f, m.f, a.chain, clst);
    SameDataSector(a.v, m.v, a.g, a.sect);
    assert Placed(a.g, b.chain, |m.v|);
    PrefixContents(m.FileView(), a.g, a.chain, [clst], a.size);
    OnChainLonger(a.g, a.chain, [clst], a.sect);
    ShowsPrefix(a.g, a.chain, [clst], a.size, a.sect, |m.v|);
    assert !OnChain(a.g, b.chain, b.w) by { WindowInTable(a.g, b.chain, b.w, |a.v|); }
    CreateIsolated(a, b, from);
    SoundSalvaged(a, b, a.size);
  }

  lemma {:induction false} WindowInTable(g: Geometry, ch: seq<nat>, w: nat, n: nat)
    requires Placed(g, ch, n) && g.InFat1(w)
    ensures !OnChain(g, ch, w)
  {
    hide Geometry.InCluster;
    if OnChain(g, ch, w) { OnChainArea(g, ch, w, n); }
  }

  /** f_write's step onto the next cluster. */
  ghost predicate NextResult(a: FileState, b: FileState, res: FResult, full: bool) {
    && b == a.(v := b.v, f := b.f, w := b.w, chain := b.chain, clust := b.clust, sclust := b.sclust)
    && Isolated(a, b) && a.chain <= b.chain && b.Guarded() && Salvaged(a, b, a.size)
    && (res == Ok ==> a.Sound() && b.Sound() && b.Rooted() && b.Held() == a.Held() && (a.UpToDate() ==> b.UpToDate()))
    && (res == Ok && !full ==> b.g.csize > 0 && Located(b.g, b.chain, b.fptr, b.clust))
    && (res == Ok && full ==> b.chain == a.chain && b.clust == a.clust)
  }

  /** What f_write asks create_chain for at a cluster boundary. */
  lemma {:induction false} NextBefore(a: FileState)
    requires a.Whole() && OnBoundary(a.g, a.fptr)
    ensures a.Sound()
    ensures a.fptr > 0 ==> 1 <= ClusterIndex(a.g, a.fptr) <= |a.chain| && a.clust == a.chain[ClusterIndex(a.g, a.fptr) - 1]
    ensures a.fptr == 0 ==> ClusterIndex(a.g, a.fptr) == 0 && (a.sclust == 0 <==> |a.chain| == 0)
    ensures |a.chain| == 0 ==> a.fptr == 0
    ensures |a.chain| > 0 ==> 2 <= a.sclust < DISK_ERROR
  {
    if a.fptr > 0 {
      LocatedBefore(a.g, a.chain, a.fptr, a.clust);
    }
  }

  lemma {:induction false} NextAfter(a: FileState, m: FileState, i: nat, clst: nat)
    requires a.Whole() && OnBoundary(a.g, a.fptr)
    requires i == if a.fptr > 0 then ClusterIndex(a.g, a.fptr) - 1 else 0
    requires if a.fptr > 0 || a.sclust == 0 then StretchResult(a, m, i, clst) else m == a && clst == a.sclust
    ensures clst == 0 ==> NextResult(a, m, Ok, true)
    ensures clst == 1 ==> NextResult(a, m, IntErr, false)
    ensures clst == DISK_ERROR ==> NextResult(a, m, DiskErr, false)
    ensures clst >= 2 && clst != DISK_ERROR ==>
              NextResult(a, m.(clust := clst, sclust := if a.sclust == 0 then clst else a.sclust), Ok, false)
  {
    hide Isolated, FileState.Held, FileState.Guarded, Located, Salvaged;
    NextBefore(a);
    IsolatedReflexive(a);
    SoundSalvaged(a, a, a.size);
    if clst >= 2 && clst != DISK_ERROR {
      LocatedHere(a.g, m.chain, a.fptr, clst);
      var b := m.(clust := clst, sclust := if a.sclust == 0 then clst else a.sclust);
      assert Isolated(a, b) by { IsolatedSame(a, m, b); }
      SameHeld(m, b);
      SoundSalvaged(a, b, a.size);
    }
  }

  /** Isolation does not look at the cursor. */
  lemma {:induction false} IsolatedSame(a: FileState, m: FileState, b: FileState)
    requires Isolated(a, m) && b.g == m.g && b.v == m.v && b.f == m.f && b.w == m.w && b.chain == m.chain
    ensures Isolated(a, b)
  {
  }

  lemma {:induction false} SameHeld(m: FileState, b: FileState)
    requires m.Sound() && b == m.(clust := b.clust, sclust := b.sclust)
    ensures b.Sound() && b.Held() == m.Held()
  {
  }

  // ---------------------------------------------------------------- writing

  function Max(a: nat, b: nat): nat { if a > b then a else b }

  /** The cursor's byte is in cluster clust; the buffer may be of any sector. */
  ghost predicate Ready(m: FileState) {
    m.Sound() && m.Rooted() && m.fptr <= m.size && Located(m.g, m.chain, m.fptr, m.clust)
  }

  lemma {:induction false} ReadyOffBoundary(a: FileState)
    requires a.Whole() && !OnBoundary(a.g, a.fptr)
    ensures Ready(a)
  {
    LocatedSame(a.g, a.chain, a.fptr, a.clust);
  }

  /** The sector under the cursor, as f_read and f_write compute it. */
  lemma {:induction false} CursorSector(m: FileState)
    requires Ready(m)
    ensures m.fptr / SECTOR_SIZE < Capacity(m.g, m.chain)
    ensures Clst2Sect(m.g, m.clust) != 0
    ensures Clst2Sect(m.g, m.clust) + m.fptr / SECTOR_SIZE % m.g.csize == SectorOf(m.g, m.chain, m.fptr / SECTOR_SIZE)
    ensures OnChain(m.g, m.chain, SectorOf(m.g, m.chain, m.fptr / SECTOR_SIZE))
    ensures m.g.database <= SectorOf(m.g, m.chain, m.fptr / SECTOR_SIZE) < m.g.End() <= |m.v| <= NO_SECTOR
  {
    SectorIndex(m.g, m.chain, m.fptr / SECTOR_SIZE);
    Clst2SectOf(m.g, m.chain, m.fptr / SECTOR_SIZE, m.clust, |m.v|);
    SectorOnChain(m.g, m.chain, m.fptr / SECTOR_SIZE, |m.v|);
  }

  /** A run of sectors from the cursor to inside its cluster lies on the chain. */
  lemma {:induction false} RunOnChain(m: FileState, cc: nat)
    requires Ready(m) && cc > 0 && m.fptr / SECTOR_SIZE % m.g.csize + cc <= m.g.csize
    ensures m.fptr / SECTOR_SIZE + cc <= Capacity(m.g, m.chain)
    ensures forall s {:trigger OnChain(m.g, m.chain, s)} | SectorOf(m.g, m.chain, m.fptr / SECTOR_SIZE) <= s < SectorOf(m.g, m.chain, m.fptr / SECTOR_SIZE) + cc ::
              OnChain(m.g, m.chain, s)
    ensures SectorOf(m.g, m.chain, m.fptr / SECTOR_SIZE) + cc <= m.g.End()
    ensures (m.fptr / SECTOR_SIZE + cc - 1) / m.g.csize == m.fptr / SECTOR_SIZE / m.g.csize
  {
    hide OnChain, SectorOf, Geometry.Sound, IsChain, Distinct;
    var g, ch, q := m.g, m.chain, m.fptr / SECTOR_SIZE;
    SectorIndex(g, ch, q);
    SlotInside(q / g.csize, q % g.csize + cc - 1, g.csize, |ch|);
    Consecutive(g, ch, q, cc - 1, |m.v|);
    SectorOnChain(g, ch, q + cc - 1, |m.v|);
    forall s | SectorOf(g, ch, q) <= s < SectorOf(g, ch, q) + cc ensures OnChain(g, ch, s) {
      var i := s - SectorOf(g, ch, q);
      SlotInside(q / g.csize, q % g.csize + i, g.csize, |ch|);
      Consecutive(g, ch, q, i, |m.v|);
      SectorOnChain(g, ch, q + i, |m.v|);
    }
  }

  /** The cursor moved over n bytes, and the end of the file with it when it was passed. */
  function Advanced(x: FileState, n: nat): FileState {
    x.(fptr := x.fptr + n, size := Max(x.size, x.fptr + n))
  }

  /** The buffer is still the sector it names if it was, and it names the sector it named or one of the file. */
  ghost predicate BufferKept(a: FileState, b: FileState) {
    && (a.UpToDate() ==> b.UpToDate())
    && (b.sect == a.sect || OnChain(b.g, b.chain, b.sect))
  }

  lemma {:induction false} BufferKeptTwice(a: FileState, m: FileState, b: FileState)
    requires BufferKept(a, m) && BufferKept(m, b) && b.g == m.g && m.chain <= b.chain
    ensures BufferKept(a, b)
  {
    OnChainLonger(m.g, m.chain, b.chain[|m.chain|..], m.sect);
    assert m.chain + b.chain[|m.chain|..] == b.chain;
  }

  /** data has been written at the cursor. */
  ghost predicate Written(a: FileState, b: FileState, data: seq<Byte>) {
    && a.Sound() && a.fptr <= a.size && b.Whole() && a.chain <= b.chain && BufferKept(a, b)
    && b == a.(v := b.v, f := b.f, w := b.w, chain := b.chain, clust := b.clust, sclust := b.sclust,
               dirty := b.dirty, sect := b.sect, b := b.b, fptr := a.fptr + |data|, size := Max(a.size, a.fptr + |data|))
    && b.Held() == Splice(a.Held(), a.fptr, data)
  }

  /** The volume and the buffer after cc whole sectors have been written from the cursor on. */
  ghost predicate Transferred(m: FileState, b: FileState, data: seq<Byte>, cc: nat)
    requires Ready(m) && |data| == cc * SECTOR_SIZE
  {
    var s := SectorOf(m.g, m.chain, m.fptr / SECTOR_SIZE);
    && b == m.(v := b.v, b := b.b)
    && |b.v| == |m.v| && Holds(b.v, s, cc, data)
    && (forall x: nat {:trigger b.v[x]} | x < |m.v| && !(s <= x < s + cc) :: b.v[x] == m.v[x])
    && b.b == if s <= m.sect < s + cc then Chunk(data, m.sect - s) else m.b
  }

  lemma {:induction false} TransferStep(m: FileState, x: FileState, data: seq<Byte>, cc: nat)
    requires Ready(m) && !m.dirty && m.fptr % SECTOR_SIZE == 0
    requires cc > 0 && |data| == cc * SECTOR_SIZE && m.fptr / SECTOR_SIZE % m.g.csize + cc <= m.g.csize
    requires Transferred(m, x, data, cc)
    ensures Written(m, Advanced(x, |data|), data) && Isolated(m, Advanced(x, |data|)) && x.f == m.f
  {
    hide Isolated, Contents, OnChain, Placed, SectorOf, Located, Capacity, Holds, Splice, BufferKept;
    var b := Advanced(x, |data|);
    TransferCached(m, x, data, cc);
    TransferLocated(m, cc);
    TransferHeld(m, x, data, cc);
    OwnTransfer(m, x, data, cc);
    IsolatedSame(m, x, b);
  }

  lemma {:induction false} OwnTransfer(m: FileState, x: FileState, data: seq<Byte>, cc: nat)
    requires Ready(m) && cc > 0 && |data| == cc * SECTOR_SIZE && m.fptr / SECTOR_SIZE % m.g.csize + cc <= m.g.csize
    requires Transferred(m, x, data, cc)
    ensures Isolated(m, x)
  {
    hide Isolated, OnChain, Placed, SectorOf, Located, Capacity, Holds;
    RunOnChain(m, cc);
    OwnChange(m, x);
  }

  lemma {:induction false} TransferHeld(m: FileState, x: FileState, data: seq<Byte>, cc: nat)
    requires Ready(m) && !m.dirty && m.fptr % SECTOR_SIZE == 0
    requires cc > 0 && |data| == cc * SECTOR_SIZE && m.fptr / SECTOR_SIZE % m.g.csize + cc <= m.g.csize
    requires Transferred(m, x, data, cc)
    ensures Max(m.size, m.fptr + |data|) <= Capacity(m.g, m.chain) * SECTOR_SIZE
    ensures Contents(x.v, m.g, m.chain, Max(m.size, m.fptr + |data|)) == Splice(m.Held(), m.fptr, data)
  {
    hide OnChain, Placed, SectorOf, Located, Holds, Splice;
    RunOnChain(m, cc);
    CursorSector(m);
    TransferContents(m.v, x.v, m.g, m.chain, m.size, m.fptr / SECTOR_SIZE, data, cc);
  }

  lemma {:induction false} TransferCached(m: FileState, x: FileState, data: seq<Byte>, cc: nat)
    requires Ready(m) && !m.dirty && m.fptr % SECTOR_SIZE == 0
    requires cc > 0 && |data| == cc * SECTOR_SIZE && m.fptr / SECTOR_SIZE % m.g.csize + cc <= m.g.csize
    requires Transferred(m, x, data, cc)
    ensures Placed(x.g, x.chain, |x.v|) && Advanced(x, |data|).Cached() && BufferKept(m, Advanced(x, |data|))
  {
    hide SectorOf, OnChain;
    CursorSector(m);
    var q, s := m.fptr / SECTOR_SIZE, SectorOf(m.g, m.chain, m.fptr / SECTOR_SIZE);
    if !(s <= m.sect < s + cc) && Shows(m.g, m.chain, Max(m.size, m.fptr + |data|), m.sect) {
      ShownBefore(m, cc);
    }
  }

  /** A sector shown after a transfer but not written by it was shown before. */
  lemma {:induction false} ShownBefore(m: FileState, cc: nat)
    requires Ready(m) && m.fptr % SECTOR_SIZE == 0
    requires cc > 0 && m.fptr / SECTOR_SIZE % m.g.csize + cc <= m.g.csize
    requires Shows(m.g, m.chain, Max(m.size, m.fptr + cc * SECTOR_SIZE), m.sect)
    requires var s := SectorOf(m.g, m.chain, m.fptr / SECTOR_SIZE); !(s <= m.sect < s + cc)
    ensures Shows(m.g, m.chain, m.size, m.sect)
  {
    hide SectorOf, Located, OnChain, Geometry.Sound;
    var q := m.fptr / SECTOR_SIZE;
    var p: nat :| p < Capacity(m.g, m.chain) && p * SECTOR_SIZE < Max(m.size, m.fptr + cc * SECTOR_SIZE) && SectorOf(m.g, m.chain, p) == m.sect;
    if p * SECTOR_SIZE >= m.size {
      assert q <= p < q + cc;
      SectorIndex(m.g, m.chain, q);
      Consecutive(m.g, m.chain, q, p - q, |m.v|);
    }
  }

  lemma {:induction false} TransferLocated(m: FileState, cc: nat)
    requires Ready(m) && m.fptr % SECTOR_SIZE == 0
    requires cc > 0 && m.fptr / SECTOR_SIZE % m.g.csize + cc <= m.g.csize
    ensures Located(m.g, m.chain, m.fptr + cc * SECTOR_SIZE - 1, m.clust)
    ensures m.fptr + cc * SECTOR_SIZE <= Capacity(m.g, m.chain) * SECTOR_SIZE
    ensures (m.fptr + cc * SECTOR_SIZE) % SECTOR_SIZE == 0
  {
    RunOnChain(m, cc);
    var q := m.fptr / SECTOR_SIZE;
    assert (m.fptr + cc * SECTOR_SIZE - 1) / SECTOR_SIZE == q + cc - 1;
  }

  /** The bytes with the buffer taken for sector sect. */
  ghost function Filled(n: FileState): (h: seq<Byte>)
    requires n.Guarded() && n.Listed() && n.sect < |n.v|
    ensures |h| == n.size
  {
    Contents(Overlay(n.v, true, n.sect, n.b), n.g, n.chain, n.size)
  }

  /** The buffer taken over for the sector under the cursor: it was there, it was loaded, or nothing of the file is in it yet. */
  lemma {:induction false} FillStep(m: FileState, n: FileState)
    requires Ready(m) && !m.dirty && m.fptr % SECTOR_SIZE == 0
    requires n == m.(sect := SectorOf(m.g, m.chain, m.fptr / SECTOR_SIZE), b := n.b) && |n.b| == SECTOR_SIZE
    requires n.sect < |m.v|
    requires if m.sect == n.sect then n.b == m.b else m.fptr < m.size ==> n.b == m.v[n.sect]
    ensures n.Guarded() && n.Listed() && Filled(n) == m.Held()
  {
    CursorSector(m);
    if n.b == m.v[n.sect] {
      assert m.v[n.sect := n.b] == m.v;
    } else {
      BeyondEnd(m.v, m.g, m.chain, m.size, m.fptr / SECTOR_SIZE, n.b);
    }
  }

  /** Inside a sector the buffer already is the sector under the cursor. */
  lemma {:induction false} FilledInside(m: FileState)
    requires m.Whole() && m.fptr % SECTOR_SIZE != 0
    ensures m.sect < |m.v| && Filled(m) == m.Held() && m.sect == SectorOf(m.g, m.chain, m.fptr / SECTOR_SIZE)
  {
    SectorOnChain(m.g, m.chain, m.fptr / SECTOR_SIZE, |m.v|);
    AreasOrdered(m.g);
    if !m.dirty {
      assert m.v[m.sect := m.b] == m.v;
    }
  }

  /** Bytes stored into the buffer at the cursor. */
  lemma {:induction false} StoreStep(n: FileState, x: FileState, bs: seq<Byte>)
    requires n.Guarded() && n.Listed() && n.Rooted() && n.writable && n.fptr <= n.size && Located(n.g, n.chain, n.fptr, n.clust)
    requires n.fptr / SECTOR_SIZE < Capacity(n.g, n.chain) && n.sect == SectorOf(n.g, n.chain, n.fptr / SECTOR_SIZE) < |n.v|
    requires 0 < |bs| <= SECTOR_SIZE - n.fptr % SECTOR_SIZE
    requires x == n.(b := Patch(n.b, n.fptr % SECTOR_SIZE, bs), dirty := true)
    ensures var b := Advanced(x, |bs|);
            b.Whole() && b.Held() == Splice(Filled(n), n.fptr, bs) && Isolated(n, b)
  {
    var b := Advanced(x, |bs|);
    var g, ch, q := n.g, n.chain, n.fptr / SECTOR_SIZE;
    SectorOnChain(g, ch, q, |n.v|);
    SectorIndex(g, ch, q);
    AreasOrdered(g);
    assert (b.fptr - 1) / SECTOR_SIZE == q;
    assert b.fptr % SECTOR_SIZE != 0 ==> b.fptr / SECTOR_SIZE == q;
    var u := Overlay(n.v, true, n.sect, n.b);
    assert b.FileView() == u[n.sect := Patch(u[n.sect], n.fptr % SECTOR_SIZE, bs)];
    PatchContents(u, b.FileView(), g, ch, n.size, n.fptr, bs);
    IsolatedReflexive(n);
    IsolatedSame(n, n, b);
  }

  lemma {:induction false} SameGuarded(m: FileState, b: FileState)
    requires (m.Guarded() || Ready(m)) && b == m.(v := b.v) && |b.v| == |m.v|
    ensures b.Guarded()
  {
  }

  /** The window is never over a run of the chain. */
  lemma {:induction false} RunOffWindow(m: FileState, s: nat, cc: nat)
    requires Ready(m)
    requires forall x {:trigger OnChain(m.g, m.chain, x)} | s <= x < s + cc :: OnChain(m.g, m.chain, x)
    ensures !(s <= m.w < s + cc)
  {
  }

  /** Writing the buffer back changes nothing the file shows. */
  lemma {:induction false} FlushKeeps(m: FileState)
    requires Ready(m)
    ensures var b := m.(v := m.FileView(), dirty := false); Ready(b) && b.Held() == m.Held() && BufferKept(m, b)
  {
    AreasOrdered(m.g);
  }

  lemma {:induction false} NextReady(a: FileState, m: FileState)
    requires a.Whole() && NextResult(a, m, Ok, false)
    ensures Ready(m)
  {
  }

  /** A write from m on is a write from a on, when m is a with the chain followed or lengthened. */
  lemma {:induction false} WrittenFrom(a: FileState, m: FileState, b: FileState, data: seq<Byte>)
    requires Written(m, b, data) && a.Sound() && a.chain <= m.chain && BufferKept(a, m)
    requires m == a.(v := m.v, f := m.f, w := m.w, chain := m.chain, clust := m.clust, sclust := m.sclust, dirty := m.dirty, sect := m.sect, b := m.b)
    requires m.Held() == a.Held()
    ensures Written(a, b, data)
  {
    hide FileState.UpToDate;
    BufferKeptTwice(a, m, b);
  }

  lemma {:induction false} WrittenNothing(a: FileState, b: FileState)
    requires a.Whole() && NextResult(a, b, Ok, true)
    ensures Written(a, b, [])
  {
    hide Salvaged, Isolated;
  }

  /** A sector boundary reached in state a, flushed to m, then cc sectors transferred, giving x. */
  lemma {:induction false} AlignedTransfer(a: FileState, m: FileState, x: FileState, data: seq<Byte>, cc: nat)
    requires Ready(a) && m == a.(v := a.FileView(), dirty := false) && Isolated(a, m)
    requires m.fptr % SECTOR_SIZE == 0
    requires cc > 0 && |data| == cc * SECTOR_SIZE && m.fptr / SECTOR_SIZE % m.g.csize + cc <= m.g.csize
    requires Ready(m) && Transferred(m, x, data, cc)
    ensures x.f == a.f
    ensures Written(a, Advanced(x, |data|), data) && Isolated(a, Advanced(x, |data|))
  {
    hide Ready, Transferred;
    FlushKeeps(a);
    TransferStep(m, x, data, cc);
    FlushedWritten(a, m, Advanced(x, |data|), data);
  }

  lemma {:induction false} FlushedWritten(a: FileState, m: FileState, b: FileState, data: seq<Byte>)
    requires Ready(a) && m == a.(v := a.FileView(), dirty := false) && Isolated(a, m)
    requires Written(m, b, data) && Isolated(m, b)
    ensures Written(a, b, data) && Isolated(a, b)
  {
    hide Isolated;
    FlushKeeps(a);
    WrittenFrom(a, m, b, data);
    IsolatedTransitive(a, m, b);
  }

  /** A sector boundary reached in state a, flushed to m, the buffer taken over in n, then bytes stored, giving x. */
  lemma {:induction false} AlignedStore(a: FileState, m: FileState, n: FileState, x: FileState, bs: seq<Byte>)
    requires Ready(a) && a.writable && m == a.(v := a.FileView(), dirty := false) && Isolated(a, m)
    requires m.fptr % SECTOR_SIZE == 0 && 0 < |bs| <= SECTOR_SIZE
    requires Ready(m) && n == m.(b := n.b, sect := SectorOf(m.g, m.chain, m.fptr / SECTOR_SIZE)) && n.sect < |n.v|
    requires n.Guarded() && n.Listed() && Filled(n) == m.Held()
    requires x == n.(b := Patch(n.b, 0, bs), dirty := true)
    ensures x.f == a.f
    ensures Written(a, Advanced(x, |bs|), bs) && Isolated(a, Advanced(x, |bs|))
  {
    hide Isolated, Filled, Contents;
    CursorSector(m);
    StoreStep(n, x, bs);
    IsolatedSame(n, n, m) by { IsolatedReflexive(n); }
    assert Isolated(m, Advanced(x, |bs|)) by { IsolatedFrom(n, m, Advanced(x, |bs|)); }
    FlushedWritten(a, m, Advanced(x, |bs|), bs);
  }

  lemma {:induction false} IsolatedFrom(n: FileState, m: FileState, b: FileState)
    requires Isolated(n, b) && m.g == n.g && m.v == n.v && m.f == n.f && m.w == n.w && m.chain == n.chain
    ensures Isolated(m, b)
  {
  }

  lemma {:induction false} ReadyGuarded(a: FileState)
    requires Ready(a)
    ensures a.Guarded()
  {
  }

  lemma {:induction false} FilledIsolated(m: FileState, n: FileState)
    requires Ready(m) && n == m.(b := n.b, sect := n.sect)
    ensures Isolated(m, n)
  {
    IsolatedReflexive(m);
    IsolatedSame(m, m, n);
  }

  lemma {:induction false} WholeIsolated(a: FileState)
    requires a.Whole()
    ensures Isolated(a, a) && a.Guarded()
  {
    IsolatedReflexive(a);
  }

  /** After the step onto the next cluster, or none, the byte under the cursor has its cluster. */
  lemma {:induction false} StepReady(a: FileState, m: FileState, res: FResult, full: bool)
    requires a.Whole()
    requires if OnBoundary(a.g, a.fptr) then NextResult(a, m, res, full) else m == a && res == Ok && !full
    ensures m.Guarded() && Isolated(a, m)
    ensures m == a.(v := m.v, f := m.f, w := m.w, chain := m.chain, clust := m.clust, sclust := m.sclust)
    ensures res == Ok && !full ==> Ready(m) && a.chain <= m.chain && m.Held() == a.Held() && a.Sound() && BufferKept(a, m) && |m.v| == |a.v| && m.Listed()
    ensures a.fptr <= a.size && (res != Ok ==> Salvaged(a, m, a.fptr))
    ensures res == Ok && !full && m.fptr % SECTOR_SIZE != 0 ==> m == a
    ensures res == Ok && full ==> Written(a, m, [])
  {
    hide Salvaged;
    IsolatedReflexive(a);
    if OnBoundary(a.g, a.fptr) {
      SalvagedLess(a, m, a.fptr, a.size);
      if res == Ok && full { WrittenNothing(a, m); }
      if res == Ok && !full { NextReady(a, m); }
    } else {
      ReadyOffBoundary(a);
    }
  }

  /** A transfer past the buffer that failed: the sectors from the cursor on may hold anything. */
  lemma {:induction false} DirectSalvaged(m: FileState, b: FileState, cc: nat)
    requires Ready(m) && !m.dirty && m.fptr % SECTOR_SIZE == 0 && cc > 0 && m.fptr / SECTOR_SIZE % m.g.csize + cc <= m.g.csize
    requires b == m.(v := b.v) && |b.v| == |m.v| && m.fptr / SECTOR_SIZE < Capacity(m.g, m.chain)
    requires var s := SectorOf(m.g, m.chain, m.fptr / SECTOR_SIZE);
             forall x: nat {:trigger b.v[x]} | x < |m.v| && !(s <= x < s + cc) :: b.v[x] == m.v[x]
    ensures Salvaged(m, b, m.fptr)
  {
    hide OnChain, IsChain, Shows, Located, Geometry.Sound;
    RunOnChain(m, cc);
    forall k | 0 <= k < m.fptr ensures ByteAt(b.v, m.g, m.chain, k) == ByteAt(m.v, m.g, m.chain, k) {
      SectorOnChain(m.g, m.chain, k / SECTOR_SIZE, |m.v|);
      OutsideRun(m.g, m.chain, m.fptr / SECTOR_SIZE, cc, k / SECTOR_SIZE, |m.v|);
    }
    FirstBytes(m.v, m.g, m.chain, m.fptr, m.size);
    assert m.chain + [] == m.chain;
    PrefixLinks(m.f, m.chain, []);
  }

  /** A failure after the buffer has been written back. */
  lemma {:induction false} FlushedSalvaged(a: FileState, m: FileState, b: FileState, n: nat)
    requires Ready(a) && m == a.(v := a.FileView(), dirty := false) && n <= a.fptr && Salvaged(m, b, n)
    ensures Salvaged(a, b, n)
  {
    hide Salvaged, FileState.Held;
    FlushKeeps(a);
    SalvagedFrom(a, m, b, n, n);
  }

  lemma {:induction false} FlushFailed(a: FileState, b: FileState)
    requires Ready(a) && b == a.(v := b.v) && b.Guarded() && b.FileView() == a.FileView()
    ensures Salvaged(a, b, a.fptr)
  {
    hide Salvaged;
    ViewSalvaged(a, b);
    SalvagedLess(a, b, a.fptr, a.size);
  }

  lemma {:induction false} FillFailed(m: FileState, n: FileState)
    requires Ready(m) && Salvaged(m, n, m.size)
    ensures Salvaged(m, n, m.fptr)
  {
    hide Salvaged;
    SalvagedLess(m, n, m.fptr, m.size);
  }

  lemma {:induction false} SalvagedLess(a: FileState, b: FileState, n: nat, k: nat)
    requires Salvaged(a, b, k) && n <= k
    ensures Salvaged(a, b, n)
  {
    hide OnChain, IsChain, ByteAt;
    SalvagedFrom(a, a, b, n, k) by { assert a.chain + [] == a.chain; }
  }

  /** A failure after a step onto the next cluster. */
  lemma {:induction false} StepSalvaged(a: FileState, m: FileState, b: FileState)
    requires a.Sound() && a.fptr <= a.size && m.g == a.g && |m.v| == |a.v| && m.fptr == a.fptr && a.chain <= m.chain
    requires m.Guarded() && m.Listed() && m.Held() == a.Held() && Salvaged(m, b, m.fptr)
    ensures Salvaged(a, b, a.fptr)
  {
    hide Salvaged, FileState.Held;
    SalvagedFrom(a, m, b, a.fptr, m.fptr);
  }

  /** A failure after some of the data has been written. */
  lemma {:induction false} WrittenSalvaged(a: FileState, m: FileState, b: FileState, data: seq<Byte>)
    requires Written(a, m, data) && Isolated(a, m) && Salvaged(m, b, m.fptr)
    ensures Salvaged(a, b, a.fptr)
  {
    hide Salvaged, FileState.Held, FileState.Whole, Written, Isolated, FileState.Guarded, FileState.Listed;
    WrittenWhole(a, m, data);
    WrittenSizes(a, m, b, data);
    assert m.Held()[..a.fptr] == a.Held()[..a.fptr];
    SalvagedFrom(a, m, b, a.fptr, m.fptr);
  }

  lemma {:induction false} WrittenSizes(a: FileState, m: FileState, b: FileState, data: seq<Byte>)
    requires Written(a, m, data) && Isolated(a, m) && Salvaged(m, b, m.fptr)
    ensures m.Guarded() && m.Listed() && |m.v| == |a.v| && m.g == a.g
  {
  }

  /** Inside a sector the bytes go straight into the buffer. */
  lemma {:induction false} InsideStore(m: FileState, x: FileState, bs: seq<Byte>)
    requires m.Whole() && Ready(m) && m.writable && m.fptr % SECTOR_SIZE != 0
    requires 0 < |bs| <= SECTOR_SIZE - m.fptr % SECTOR_SIZE
    requires x == m.(b := Patch(m.b, m.fptr % SECTOR_SIZE, bs), dirty := true)
    ensures Written(m, Advanced(x, |bs|), bs) && Isolated(m, Advanced(x, |bs|))
  {
    hide Isolated, Filled, Contents;
    CursorSector(m);
    FilledInside(m);
    StoreStep(m, x, bs);
  }

  lemma {:induction false} StepWritten(a: FileState, m: FileState, b: FileState, data: seq<Byte>)
    requires Isolated(a, m) && Isolated(m, b) && Written(m, b, data) && a.Sound() && a.chain <= m.chain && m.Held() == a.Held()
    requires BufferKept(a, m)
    requires m == a.(v := m.v, f := m.f, w := m.w, chain := m.chain, clust := m.clust, sclust := m.sclust)
    ensures Written(a, b, data) && Isolated(a, b) && b.Guarded()
  {
    hide Isolated;
    WrittenFrom(a, m, b, data);
    IsolatedTransitive(a, m, b);
  }

  lemma {:induction false} WrittenTwice(a: FileState, m: FileState, b: FileState, x: seq<Byte>, y: seq<Byte>)
    requires Written(a, m, x) && Written(m, b, y)
    ensures Written(a, b, x + y)
  {
    BufferKeptTwice(a, m, b);
    SpliceTwice(a.Held(), a.fptr, x, y);
  }

  lemma {:induction false} WrittenStart(a: FileState)
    requires a.Whole()
    ensures Written(a, a, [])
  {
  }

  lemma {:induction false} WrittenWhole(a: FileState, b: FileState, data: seq<Byte>)
    requires Written(a, b, data)
    ensures BufferKept(a, b) && a.fptr <= b.fptr
    ensures b.Whole() && b.fptr == a.fptr + |data| && a.chain <= b.chain && b.writable == a.writable && b.g == a.g
    ensures a.Guarded() && a.Listed() && a.fptr <= a.size && b.Held() == Splice(a.Held(), a.fptr, data)
  {
  }

  lemma {:induction false} GuardedIsolated(a: FileState)
    requires a.Guarded()
    ensures Isolated(a, a)
  {
    IsolatedReflexive(a);
  }
}
