/** Where clusters lie on the disk. */
module Clusters {
  import opened Arith
  import opened Volume

  /** First sector of cluster c. */
  function ClusterTop(g: Geometry, c: nat): nat { g.database + g.csize * (if c >= 2 then c - 2 else 0) }

  lemma {:induction false} ClusterOrder(g: Geometry, a: nat, b: nat)
    requires 2 <= a < b
    ensures ClusterTop(g, a) + g.csize <= ClusterTop(g, b)
  {
    MulMono(a - 1, b - 2, g.csize);
    assert g.csize * (a - 1) == g.csize * (a - 2) + g.csize;
  }

  /** Distinct clusters occupy disjoint sectors. */
  lemma {:induction false} ClusterUnique(g: Geometry, s: nat, a: nat, b: nat)
    requires g.InCluster(s, a) && g.InCluster(s, b)
    ensures a == b
  {
    if a < b { ClusterOrder(g, a, b); }
    if b < a { ClusterOrder(g, b, a); }
  }

  /** Clusters lie in the data area. */
  lemma {:induction false} ClusterInArea(g: Geometry, s: nat, c: nat)
    requires g.Sound() && g.InCluster(s, c)
    ensures g.database <= s < g.End()
    ensures !g.InFat1(s) && !g.InFat2(s)
  {
    hide Geometry.Sound, Sectors;
    TablePlaces(g);
    if g.nFats == 2 { MirrorPlaces(g); }
    RowInside(c - 2, g.nFatent - 2, g.csize);
  }

  /** Row number i of n rows of size sectors. */
  lemma {:induction false} RowInside(i: nat, n: nat, size: nat)
    requires i < n
    ensures 0 <= size * i <= size * i + size <= Sectors(n, size)
  {
    hide Sectors;
    MulMono(0, i, size);
    MulMono(i + 1, n, size);
    SectorsIs(n, size);
    assert size * (i + 1) == size * i + size;
  }

  /** Its r-th sector is one of them. */
  lemma {:induction false} ClusterBounds(g: Geometry, c: nat, r: nat)
    requires g.Sound() && 2 <= c < g.nFatent && r < g.csize
    ensures var s := ClusterTop(g, c) + r; g.database <= s < g.End() && g.InCluster(s, c)
  {
    hide Geometry.Sound, Sectors;
    RowInside(c - 2, g.nFatent - 2, g.csize);
  }

  /** The clusters of ch are clusters of the volume. */
  predicate InVolume(g: Geometry, ch: seq<nat>) {
    g.Sound() && forall i {:trigger ch[i]} | 0 <= i < |ch| :: 2 <= ch[i] < g.nFatent
  }

  /** clst2sect: 0 for a number that is no cluster */
  function Clst2Sect(g: Geometry, clst: Word32): (s: nat) {
    var c := Sub32(clst, 2);
    if c >= g.nFatent - 2 then 0 else g.database + g.csize * c
  }
}
