/** The table as a set of linked lists: what cluster chains are, when a table holds nothing
    but disjoint acyclic chains, and what allocating and freeing do to them. */
module ChainTheory {
  /** Cluster c is marked as used. */
  predicate InUse(f: seq<nat>, c: nat) {
    2 <= c < |f| && f[c] != 0
  }

  /** c is used and linked to a further cluster. */
  predicate Linked(f: seq<nat>, c: nat) {
    InUse(f, c) && f[c] < |f|
  }

  /** ch lists the clusters from ch[0] up to an end-of-chain mark. */
  ghost predicate IsChain(f: seq<nat>, ch: seq<nat>) {
    && |ch| > 0
    && (forall i {:trigger ch[i]} | 0 <= i < |ch| :: 2 <= ch[i] < |f|)
    && (forall i {:trigger f[ch[i]]} | 0 <= i < |ch| - 1 :: f[ch[i]] == ch[i + 1])
    && f[ch[|ch| - 1]] >= |f|
  }

  ghost predicate ChainFrom(f: seq<nat>, c: nat, ch: seq<nat>) {
    IsChain(f, ch) && ch[0] == c
  }

  /** Every used cluster starts a chain that ends, and no two used clusters link to the same one. */
  ghost predicate WellFormed(f: seq<nat>) {
    && (forall c: nat {:trigger InUse(f, c)} | InUse(f, c) :: exists ch :: ChainFrom(f, c, ch))
    && NoMerge(f)
  }

  ghost predicate NoMerge(f: seq<nat>) {
    forall a: nat, b: nat {:trigger Linked(f, a), Linked(f, b)} | Linked(f, a) && Linked(f, b) && f[a] == f[b] :: a == b
  }

  // ---------------------------------------------------------------- chains are acyclic, unique and disjoint

  lemma {:induction false} ChainDistinct(f: seq<nat>, ch: seq<nat>, i: nat, j: nat)
    requires IsChain(f, ch) && i < j < |ch|
    ensures ch[i] != ch[j]
    decreases |ch| - j
  {
    if ch[i] == ch[j] {
      assert f[ch[i]] == ch[i + 1];
      if j < |ch| - 1 {
        ChainDistinct(f, ch, i + 1, j + 1);
      }
    }
  }

  lemma {:induction false} ChainUnique(f: seq<nat>, a: seq<nat>, b: seq<nat>)
    requires IsChain(f, a) && IsChain(f, b) && a[0] == b[0]
    ensures a == b
  {
    assert |a| > 1 ==> f[a[0]] == a[1];
    assert |b| > 1 ==> f[b[0]] == b[1];
    if |a| > 1 && |b| > 1 {
      ChainTail(f, a);
      ChainTail(f, b);
      ChainUnique(f, a[1..], b[1..]);
      assert a == [a[0]] + a[1..] && b == [b[0]] + b[1..];
    }
  }

  lemma {:induction false} ChainTail(f: seq<nat>, ch: seq<nat>)
    requires IsChain(f, ch) && |ch| > 1
    ensures IsChain(f, ch[1..])
  {
    var t := ch[1..];
    forall i | 0 <= i < |t| - 1 ensures f[t[i]] == t[i + 1] {
      assert f[ch[i + 1]] == ch[i + 2];
    }
  }

  lemma {:induction false} ChainUsed(f: seq<nat>, ch: seq<nat>)
    requires IsChain(f, ch)
    ensures forall i {:trigger ch[i]} | 0 <= i < |ch| :: InUse(f, ch[i])
    ensures forall i {:trigger ch[i]} | 0 <= i < |ch| - 1 :: Linked(f, ch[i])
  {
    forall i | 0 <= i < |ch| ensures InUse(f, ch[i]) && (i < |ch| - 1 ==> Linked(f, ch[i])) {
      if i < |ch| - 1 {
        assert f[ch[i]] == ch[i + 1];
      }
    }
  }

  lemma {:induction false} ChainLink(f: seq<nat>, ch: seq<nat>, i: nat)
    requires IsChain(f, ch) && i + 1 < |ch|
    ensures Linked(f, ch[i]) && f[ch[i]] == ch[i + 1]
  {
    assert f[ch[i]] == ch[i + 1];
  }

  /** Nothing links to x. */
  ghost predicate IsHead(f: seq<nat>, x: nat) {
    forall c: nat {:trigger Linked(f, c)} | Linked(f, c) :: f[c] != x
  }

  /** Two chains whose heads nothing links to are the same chain or share no cluster. */
  lemma {:induction false} ChainsDisjoint(f: seq<nat>, a: seq<nat>, b: seq<nat>, i: nat, j: nat)
    requires NoMerge(f) && IsChain(f, a) && IsChain(f, b) && a[0] != b[0]
    requires IsHead(f, a[0]) && IsHead(f, b[0])
    requires i < |a| && j < |b|
    ensures a[i] != b[j]
  {
    if i > 0 {
      ChainLink(f, a, i - 1);
    }
    if j > 0 {
      ChainLink(f, b, j - 1);
    }
    if i > 0 && j > 0 {
      ChainsDisjoint(f, a, b, i - 1, j - 1);
    }
  }

  // ---------------------------------------------------------------- a measure that proves chains end

  /** r falls along every link. */
  ghost predicate Ranked(f: seq<nat>, r: seq<nat>) {
    |r| == |f| && forall c: nat {:trigger Linked(f, c)} | Linked(f, c) :: InUse(f, f[c]) && r[f[c]] < r[c]
  }

  lemma {:induction false} RankedChain(f: seq<nat>, r: seq<nat>, c: nat) returns (ch: seq<nat>)
    requires Ranked(f, r) && InUse(f, c)
    ensures ChainFrom(f, c, ch)
    decreases r[c]
  {
    if f[c] >= |f| {
      ch := [c];
    } else {
      assert Linked(f, c);
      var t := RankedChain(f, r, f[c]);
      ch := [c] + t;
      forall i | 0 <= i < |ch| - 1 ensures f[ch[i]] == ch[i + 1] {
        if i > 0 { assert f[t[i - 1]] == t[i]; }
      }
    }
  }

  ghost function TheChain(f: seq<nat>, c: nat): (ch: seq<nat>)
    requires exists ch :: ChainFrom(f, c, ch)
    ensures ChainFrom(f, c, ch)
  {
    var ch :| ChainFrom(f, c, ch);
    ch
  }

  /** Length of the chain from c. */
  ghost function Length(f: seq<nat>, c: nat): nat {
    if exists ch :: ChainFrom(f, c, ch) then |TheChain(f, c)| else 0
  }

  lemma {:induction false} LengthStep(f: seq<nat>, c: nat)
    requires Linked(f, c) && exists ch :: ChainFrom(f, c, ch)
    ensures InUse(f, f[c]) && Length(f, f[c]) < Length(f, c)
  {
    var ch := TheChain(f, c);
    assert |ch| > 1;
    ChainLink(f, ch, 0);
    ChainTail(f, ch);
    ChainUsed(f, ch);
    assert ChainFrom(f, f[c], ch[1..]);
    ChainUnique(f, TheChain(f, f[c]), ch[1..]);
  }

  lemma {:induction false} WellFormedRank(f: seq<nat>) returns (r: seq<nat>)
    requires WellFormed(f)
    ensures Ranked(f, r)
  {
    r := seq(|f|, c requires 0 <= c < |f| => Length(f, c));
    forall c: nat | Linked(f, c) ensures InUse(f, f[c]) && r[f[c]] < r[c] {
      assert InUse(f, c);
      LengthStep(f, c);
    }
  }

  lemma {:induction false} RankWellFormed(f: seq<nat>, r: seq<nat>)
    requires Ranked(f, r) && NoMerge(f)
    ensures WellFormed(f)
  {
    forall c: nat | InUse(f, c) ensures exists ch :: ChainFrom(f, c, ch) {
      var ch := RankedChain(f, r, c);
    }
  }

  // ---------------------------------------------------------------- allocating

  /** h is f with the free cluster ncl taken as the end of a chain, linked from clst unless that is 0. */
  ghost predicate Allocated(f: seq<nat>, h: seq<nat>, clst: nat, ncl: nat) {
    && |h| == |f| && 2 <= ncl < |f| && f[ncl] == 0 && h[ncl] >= |f|
    && (clst != 0 ==> 2 <= clst < |f| && f[clst] >= |f| && h[clst] == ncl)
    && forall c {:trigger h[c]} | 0 <= c < |f| && c != ncl && c != clst :: h[c] == f[c]
  }

  /** Appending extends exactly the chain that ended in clst. */
  lemma {:induction false} AppendChain(f: seq<nat>, h: seq<nat>, ch: seq<nat>, ncl: nat)
    requires IsChain(f, ch) && Allocated(f, h, ch[|ch| - 1], ncl)
    ensures IsChain(h, ch + [ncl])
  {
    ChainUsed(f, ch);
    var t := ch + [ncl];
    forall i | 0 <= i < |t| - 1 ensures h[t[i]] == t[i + 1] {
      if i < |ch| - 1 {
        ChainDistinct(f, ch, i, |ch| - 1);
        assert f[ch[i]] == ch[i + 1];
      }
    }
  }

  /** Every chain that does not end in clst stays as it was. */
  lemma {:induction false} AllocateKeepsChain(f: seq<nat>, h: seq<nat>, clst: nat, ncl: nat, ch: seq<nat>)
    requires Allocated(f, h, clst, ncl) && IsChain(f, ch) && ch[|ch| - 1] != clst
    ensures IsChain(h, ch)
  {
    ChainUsed(f, ch);
    forall i | 0 <= i < |ch| ensures h[ch[i]] == f[ch[i]] {
      if i < |ch| - 1 { assert f[ch[i]] == ch[i + 1]; }
    }
  }

  lemma {:induction false} AllocateKeepsWellFormed(f: seq<nat>, h: seq<nat>, clst: nat, ncl: nat)
    requires WellFormed(f) && Allocated(f, h, clst, ncl)
    ensures WellFormed(h)
  {
    var r := WellFormedRank(f);
    var s := seq(|f|, c requires 0 <= c < |f| => if c == ncl then 0 else r[c] + 1);
    forall c: nat | Linked(h, c) ensures InUse(h, h[c]) && s[h[c]] < s[c] {
      if c != clst {
        assert Linked(f, c);
      }
    }
    assert IsHead(f, ncl);
    forall a: nat, b: nat | Linked(h, a) && Linked(h, b) && h[a] == h[b] ensures a == b {
      assert a == clst || Linked(f, a);
      assert b == clst || Linked(f, b);
    }
    RankWellFormed(h, s);
  }

  // ---------------------------------------------------------------- freeing

  /** Number of free clusters below i. */
  function FreeBelow(f: seq<nat>, i: nat): (n: nat)
    requires i <= |f|
    ensures n <= if i < 2 then 0 else i - 2
  {
    if i <= 2 then 0 else FreeBelow(f, i - 1) + if f[i - 1] == 0 then 1 else 0
  }

  /** Number of free clusters. */
  function FreeCount(f: seq<nat>): nat { FreeBelow(f, |f|) }

  lemma {:induction false} FreeBelowUpdate(f: seq<nat>, c: nat, x: nat, i: nat)
    requires 2 <= c < |f| && i <= |f|
    ensures FreeBelow(f[c := x], i) + (if c < i && f[c] == 0 then 1 else 0)
         == FreeBelow(f, i) + (if c < i && x == 0 then 1 else 0)
  {
    if i > 2 {
      FreeBelowUpdate(f, c, x, i - 1);
    }
  }

  /** Taking a free cluster lowers the count by one, freeing a used one raises it by one. */
  lemma {:induction false} FreeCountUpdate(f: seq<nat>, c: nat, x: nat)
    requires 2 <= c < |f|
    ensures FreeCount(f[c := x]) + (if f[c] == 0 then 1 else 0) == FreeCount(f) + (if x == 0 then 1 else 0)
  {
    FreeBelowUpdate(f, c, x, |f|);
  }

  lemma {:induction false} UsedBelow(f: seq<nat>, c: nat, i: nat)
    requires 2 <= c < i <= |f| && f[c] != 0
    ensures FreeBelow(f, i) < i - 2
  {
    if c < i - 1 {
      UsedBelow(f, c, i - 1);
    }
  }

  /** A table with a used cluster has fewer free clusters than clusters. */
  lemma {:induction false} UsedBounds(f: seq<nat>, c: nat)
    requires InUse(f, c)
    ensures FreeCount(f) < |f| - 2
  {
    UsedBelow(f, c, |f|);
  }

  lemma {:induction false} NoneFree(f: seq<nat>, i: nat)
    requires i <= |f|
    ensures FreeBelow(f, i) == 0 <==> forall c {:trigger f[c]} | 2 <= c < i :: f[c] != 0
  {
    if i > 2 {
      NoneFree(f, i - 1);
    }
  }

  /** The walk over a chain stops at a number that is no cluster, a free cluster or the invalid link 1. */
  predicate Stops(f: seq<nat>, c: nat) {
    c < 2 || c >= |f| || f[c] < 2
  }

  /** The table after the clusters met from c on are freed, on any table, cyclic ones included. */
  ghost function Freed(f: seq<nat>, c: nat): (h: seq<nat>)
    ensures |h| == |f|
    decreases |f| - FreeCount(f)
  {
    if Stops(f, c) then f
    else
      FreeCountUpdate(f, c, 0);
      Freed(f[c := 0], f[c])
  }

  /** The clusters met from c on. */
  ghost function Trail(f: seq<nat>, c: nat): set<nat>
    decreases |f| - FreeCount(f)
  {
    if Stops(f, c) then {}
    else
      FreeCountUpdate(f, c, 0);
      {c} + Trail(f[c := 0], f[c])
  }

  /** Freeing touches the trail and nothing else. */
  lemma {:induction false} FreedOnTrail(f: seq<nat>, c: nat)
    ensures forall d {:trigger Freed(f, c)[d]} | 0 <= d < |f| :: Freed(f, c)[d] == if d in Trail(f, c) then 0 else f[d]
    decreases |f| - FreeCount(f)
  {
    if !Stops(f, c) {
      FreeCountUpdate(f, c, 0);
      FreedOnTrail(f[c := 0], f[c]);
    }
  }

  /** Along a chain the trail is exactly the chain. */
  lemma {:induction false} TrailOfChain(f: seq<nat>, ch: seq<nat>)
    requires IsChain(f, ch)
    ensures Trail(f, ch[0]) == set c | c in ch
    decreases |ch|
  {
    ChainUsed(f, ch);
    var h := f[ch[0] := 0];
    if |ch| > 1 {
      assert f[ch[0]] == ch[1];
      ChainTail(f, ch);
      var t := ch[1..];
      forall i | 0 <= i < |t| ensures h[t[i]] == f[t[i]] {
        ChainDistinct(f, ch, 0, i + 1);
      }
      assert IsChain(h, t) by {
        forall i | 0 <= i < |t| - 1 ensures h[t[i]] == t[i + 1] { assert f[t[i]] == t[i + 1]; }
      }
      TrailOfChain(h, t);
      assert (set c | c in ch) == {ch[0]} + set c | c in t by {
        assert ch == [ch[0]] + t;
      }
    } else {
      assert Trail(h, f[ch[0]]) == {};
    }
  }

  /** remove_chain on a chain frees exactly its clusters. */
  lemma {:induction false} FreedChain(f: seq<nat>, ch: seq<nat>)
    requires IsChain(f, ch)
    ensures forall d {:trigger Freed(f, ch[0])[d]} | 0 <= d < |f| :: Freed(f, ch[0])[d] == if d in ch then 0 else f[d]
  {
    FreedOnTrail(f, ch[0]);
    TrailOfChain(f, ch);
  }

  /** h is f after the chain ch has been cut off behind pclst (0: it was a whole chain) and freed. */
  ghost predicate Removed(f: seq<nat>, h: seq<nat>, ch: seq<nat>, pclst: nat) {
    && |h| == |f| && IsChain(f, ch)
    && (if pclst == 0 then IsHead(f, ch[0])
        else Linked(f, pclst) && f[pclst] == ch[0] && h[pclst] >= |f|)
    && forall d {:trigger h[d]} | 0 <= d < |f| && d != pclst :: h[d] == if d in ch then 0 else f[d]
  }

  /** Only the chain itself and the cluster before it link into it. */
  lemma {:induction false} LinksInto(f: seq<nat>, ch: seq<nat>, pclst: nat, c: nat)
    requires NoMerge(f) && IsChain(f, ch) && Linked(f, c) && f[c] in ch
    requires if pclst == 0 then IsHead(f, ch[0]) else Linked(f, pclst) && f[pclst] == ch[0]
    ensures c in ch || (pclst != 0 && c == pclst)
  {
    var k :| 0 <= k < |ch| && ch[k] == f[c];
    if k > 0 {
      ChainLink(f, ch, k - 1);
    }
  }

  lemma {:induction false} RemoveKeepsWellFormed(f: seq<nat>, h: seq<nat>, ch: seq<nat>, pclst: nat)
    requires WellFormed(f) && Removed(f, h, ch, pclst)
    ensures WellFormed(h)
  {
    var r := WellFormedRank(f);
    assert pclst != 0 ==> pclst !in ch by {
      forall k | 0 <= k < |ch| ensures f[ch[k]] != ch[0] {
        CycleImpossible(f, ch, k);
      }
    }
    forall c: nat | Linked(h, c) ensures Linked(f, c) && InUse(h, h[c]) && r[h[c]] < r[c] {
      assert c != pclst && c !in ch;
      assert Linked(f, c) && InUse(f, f[c]);
      assert f[c] !in ch by {
        if f[c] in ch { LinksInto(f, ch, pclst, c); }
      }
    }
    RankWellFormed(h, r);
  }

  /** A cluster of a chain never links to its head. */
  lemma {:induction false} CycleImpossible(f: seq<nat>, ch: seq<nat>, k: nat)
    requires IsChain(f, ch) && k < |ch|
    ensures f[ch[k]] != ch[0]
  {
    if f[ch[k]] == ch[0] {
      assert k < |ch| - 1;
      assert f[ch[k]] == ch[k + 1];
      ChainDistinct(f, ch, 0, k + 1);
    }
  }

  /** Freeing a chain cut off behind pclst leaves every chain that shares nothing with it alone. */
  lemma {:induction false} RemoveKeepsChain(f: seq<nat>, h: seq<nat>, ch: seq<nat>, pclst: nat, other: seq<nat>)
    requires Removed(f, h, ch, pclst) && IsChain(f, other)
    requires pclst !in other && forall c | c in other :: c !in ch
    ensures IsChain(h, other)
  {
    forall i | 0 <= i < |other| ensures h[other[i]] == f[other[i]] {
      assert other[i] in other;
    }
    forall i | 0 <= i < |other| - 1 ensures h[other[i]] == other[i + 1] {
      assert f[other[i]] == other[i + 1];
    }
  }

  // ---------------------------------------------------------------- runs

  /** One successful call on a table: allocate behind a used cluster or as a new chain, or free a tail or a whole chain. */
  ghost predicate Step(f: seq<nat>, h: seq<nat>) {
    || (exists clst: nat, ncl: nat :: Allocated(f, h, clst, ncl))
    || (exists ch: seq<nat>, pclst: nat :: Removed(f, h, ch, pclst))
  }

  /** Over any run of such calls the table stays a set of disjoint acyclic chains. */
  lemma {:induction false} RunKeepsWellFormed(trace: seq<seq<nat>>)
    requires |trace| > 0 && WellFormed(trace[0])
    requires forall i {:trigger trace[i]} | 0 <= i < |trace| - 1 :: Step(trace[i], trace[i + 1])
    ensures WellFormed(trace[|trace| - 1])
  {
    if |trace| > 1 {
      var t := trace[..|trace| - 1];
      forall i | 0 <= i < |t| - 1 ensures Step(t[i], t[i + 1]) {
        assert Step(trace[i], trace[i + 1]);
      }
      RunKeepsWellFormed(t);
      var f, h := trace[|trace| - 2], trace[|trace| - 1];
      assert Step(f, h);
      if clst: nat, ncl: nat :| Allocated(f, h, clst, ncl) {
        AllocateKeepsWellFormed(f, h, clst, ncl);
      } else {
        var ch: seq<nat>, pclst: nat :| Removed(f, h, ch, pclst);
        RemoveKeepsWellFormed(f, h, ch, pclst);
      }
    }
  }
}
