/** The headers in memory: the free list as a chain of links, and an insertion into it. */
module HeapMemory {
  import opened HeapTheory

  datatype Header = Header(next: nat, size: nat)
  type Memory = map<nat, Header>

  /** Address of xStart, outside every region; NULL is 0. */
  const XSTART: nat := 1

  /** The addresses met when following the links from xStart, NULL last. */
  function Path(cs: seq<Cell>): seq<nat> { [XSTART] + Listing(cs) + [0] }

  predicate LinkAt(mem: Memory, p: seq<nat>, k: nat)
    requires k < |p| - 1
  {
    p[k] in mem && mem[p[k]].next == p[k + 1]
  }

  predicate Linked(mem: Memory, p: seq<nat>) {
    forall k {:trigger LinkAt(mem, p, k)} | 0 <= k < |p| - 1 :: LinkAt(mem, p, k)
  }

  /** Each cell has its header, and the headers in the list hold the cells' sizes. */
  predicate Sized(mem: Memory, cs: seq<Cell>) {
    && XSTART in mem && mem[XSTART].size == 0
    && forall i {:trigger cs[i]} | 0 <= i < |cs| :: cs[i].addr in mem && (IsListed(cs[i]) ==> mem[cs[i].addr].size == cs[i].size)
  }

  // ---------------------------------------------------------------- chains of links

  lemma {:induction false} LinkApart(mem: Memory, a: seq<nat>, b: seq<nat>)
    requires |a| > 0 && |b| > 0 && Linked(mem, a + b)
    ensures Linked(mem, a) && Linked(mem, b) && a[|a| - 1] in mem && mem[a[|a| - 1]].next == b[0]
  {
    forall k | 0 <= k < |a| - 1 ensures LinkAt(mem, a, k) { assert LinkAt(mem, a + b, k); }
    forall k | 0 <= k < |b| - 1 ensures LinkAt(mem, b, k) { assert LinkAt(mem, a + b, |a| + k); }
    assert LinkAt(mem, a + b, |a| - 1);
  }

  lemma {:induction false} LinkTogether(mem: Memory, a: seq<nat>, b: seq<nat>)
    requires |a| > 0 && |b| > 0 && Linked(mem, a) && Linked(mem, b)
    requires a[|a| - 1] in mem && mem[a[|a| - 1]].next == b[0]
    ensures Linked(mem, a + b)
  {
    forall k | 0 <= k < |a + b| - 1 ensures LinkAt(mem, a + b, k) {
      if k < |a| - 1 { assert LinkAt(mem, a, k); } else if k >= |a| { assert LinkAt(mem, b, k - |a|); }
    }
  }

  lemma {:induction false} LinkFrame(mem: Memory, mem': Memory, p: seq<nat>)
    requires Linked(mem, p)
    requires forall k {:trigger p[k]} | 0 <= k < |p| - 1 :: p[k] in mem ==> p[k] in mem' && mem'[p[k]].next == mem[p[k]].next
    ensures Linked(mem', p)
  {
    forall k | 0 <= k < |p| - 1 ensures LinkAt(mem', p, k) { assert LinkAt(mem, p, k); }
  }

  // ---------------------------------------------------------------- insertion

  /** What the tail of prvInsertBlockIntoFreeList writes for block b behind list entry it. */
  function Spliced(mem: Memory, it: nat, b: nat, last: nat): Memory
    requires it in mem && b in mem
  {
    var n := mem[it].next;
    var left := it + mem[it].size == b;
    var c := if left then it else b;
    var size := if left then mem[it].size + mem[b].size else mem[b].size;
    var grow := c + size == n && n != last && n in mem;
    var m := mem[c := if grow then Header(mem[n].next, size + mem[n].size) else Header(n, size)];
    if left then m else m[it := m[it].(next := c)]
  }

  /** The list entry an insertion of block i goes behind. */
  function Before(cs: seq<Cell>, i: nat): nat
    requires i < |cs|
  {
    if |Listing(cs[..i])| == 0 then XSTART else Listing(cs[..i])[|Listing(cs[..i])| - 1]
  }

  /** The entry touches the block exactly when the block is preceded by a free one. */
  lemma {:induction false} LeftTest(mem: Memory, cs: seq<Cell>, rs: seq<Region>, i: nat)
    requires Tiled(cs, rs) && Sized(mem, cs) && i < |cs| && cs[i].kind.Used?
    ensures var it := Before(cs, i);
            && it in mem && it < cs[i].addr
            && (it + mem[it].size == cs[i].addr <==> i > 0 && cs[i - 1].kind.Free?)
            && (i > 0 && cs[i - 1].kind.Free? ==> it == cs[i - 1].addr && mem[it].size == cs[i - 1].size)
  {
    hide Listing, Before;
    if i > 0 && cs[i - 1].kind.Free? {
      BeforeFree(cs, i);
      Increasing(cs, rs, i - 1, i);
      assert Step(cs, i - 1, rs) && CellOk(cs[i - 1], rs);
    } else {
      BeforeAway(mem, cs, rs, i);
    }
  }

  /** The cell right before is the last one listed before, when it is free. */
  lemma {:induction false} BeforeFree(cs: seq<Cell>, i: nat)
    requires 0 < i < |cs| && cs[i - 1].kind.Free?
    ensures Before(cs, i) == cs[i - 1].addr
  {
    hide Listing;
    assert cs[..i][..i - 1] == cs[..i - 1] && cs[..i][i..] == [];
    ListingAt(cs[..i], i - 1);
    assert Listing([]) == [] by { CountFirst([]); }
  }

  /** Otherwise the last one listed before ends before the cell begins. */
  lemma {:induction false} BeforeAway(mem: Memory, cs: seq<Cell>, rs: seq<Region>, i: nat)
    requires Tiled(cs, rs) && Sized(mem, cs) && i < |cs| && cs[i].kind.Used? && !(i > 0 && cs[i - 1].kind.Free?)
    ensures Before(cs, i) in mem && Before(cs, i) < cs[i].addr && Before(cs, i) + mem[Before(cs, i)].size != cs[i].addr
  {
    hide Listing;
    var l := Listing(cs[..i]);
    assert CellOk(cs[i], rs);
    if |l| > 0 {
      var j := Locate(cs[..i], |l| - 1);
      assert cs[..i][j] == cs[j];
      Increasing(cs, rs, j, i);
      assert CellOk(cs[j], rs);
      if j < i - 1 { Increasing(cs, rs, j, i - 1); Increasing(cs, rs, i - 1, i); assert CellOk(cs[i - 1], rs); }
    }
  }

  /** The first entry of the list behind block i belongs to the first listed cell there. */
  lemma {:induction false} NextEntry(cs: seq<Cell>, rs: seq<Region>, i: nat)
    requires Tiled(cs, rs) && i < |cs| && cs[i].kind.Used?
    ensures i + 1 < |cs| && |Listing(cs[i + 1..])| > 0 && cs[i + 1].addr == cs[i].addr + cs[i].size
    ensures var n := Listing(cs[i + 1..])[0];
            && n >= cs[i + 1].addr && (n == cs[i + 1].addr <==> IsListed(cs[i + 1]))
            && exists d {:trigger cs[d]} :: i < d < |cs| && IsListed(cs[d]) && cs[d].addr == n
  {
    hide Listing;
    assert cs[|cs| - 1].kind == End(true);
    assert cs[i + 1..][|cs| - i - 2] == cs[|cs| - 1];
    ListingAt(cs[i + 1..], |cs| - i - 2);
    var d := Locate(cs[i + 1..], 0);
    assert cs[i + 1..][d] == cs[i + 1 + d];
    assert Step(cs, i, rs);
    if d > 0 {
      Increasing(cs, rs, i + 1, i + 1 + d);
      ListingAt(cs[i + 1..][..d], 0);
      assert cs[i + 1..][..d][0] == cs[i + 1];
    }
  }

  /** The list entry behind touches the block exactly when it is the cell right behind it. */
  lemma {:induction false} RightTest(mem: Memory, cs: seq<Cell>, rs: seq<Region>, i: nat)
    requires Tiled(cs, rs) && Sized(mem, cs) && Linked(mem, Path(cs)) && i < |cs| && cs[i].kind.Used?
    ensures i + 1 < |cs| && |Listing(cs[i + 1..])| > 0
    ensures var n, e := Listing(cs[i + 1..])[0], cs[i].addr + cs[i].size;
            && Before(cs, i) in mem && mem[Before(cs, i)].next == n && n in mem && n >= e
            && (n == e <==> IsListed(cs[i + 1]))
            && (n == e ==> n == cs[i + 1].addr && mem[n].size == cs[i + 1].size)
            && (n == e && n != cs[|cs| - 1].addr <==> Absorbs(cs, i))
  {
    hide Listing, Before, Linked, Path;
    NextEntry(cs, rs, i);
    assert cs[|cs| - 1].kind == End(true);
    if i + 2 < |cs| { Increasing(cs, rs, i + 1, |cs| - 1); }
    BeforeLinks(mem, cs, i);
  }

  lemma {:induction false} BeforeLinks(mem: Memory, cs: seq<Cell>, i: nat)
    requires Linked(mem, Path(cs)) && i < |cs| && cs[i].kind.Used? && |Listing(cs[i + 1..])| > 0
    ensures var a, b := [XSTART] + Listing(cs[..i]), Listing(cs[i + 1..]) + [0];
            && Path(cs) == a + b && a[|a| - 1] == Before(cs, i) && Linked(mem, a) && Linked(mem, b)
            && Before(cs, i) in mem && mem[Before(cs, i)].next == b[0]
            && b[0] in mem && mem[b[0]].next == b[1]
  {
    var a, b := [XSTART] + Listing(cs[..i]), Listing(cs[i + 1..]) + [0];
    ListingAt(cs, i);
    assert Path(cs) == a + b;
    LinkApart(mem, a, b);
    assert LinkAt(mem, b, 0);
  }

  /** What LeftTest and RightTest say of the headers an insertion writes. */
  lemma {:induction false} SplicedAt(mem: Memory, cs: seq<Cell>, rs: seq<Region>, i: nat)
    requires Tiled(cs, rs) && Sized(mem, cs) && Linked(mem, Path(cs)) && i < |cs| && cs[i].kind.Used? && mem[cs[i].addr].size == cs[i].size
    ensures i + 1 < |cs| && Before(cs, i) in mem && (mem[Before(cs, i)].next in mem || mem[Before(cs, i)].next == 0)
    ensures var it, b, after := Before(cs, i), cs[i].addr, Listing(cs[i + 1..]) + [0];
            var mem' := Spliced(mem, it, b, cs[|cs| - 1].addr);
            && it < b && (forall a | a in mem && a != it && a != b :: a in mem' && mem'[a] == mem[a])
            && it in mem' && Merged(cs, i).addr in mem' && mem'[Merged(cs, i).addr].size == Merged(cs, i).size
            && |after| > 1 && mem'[Merged(cs, i).addr].next == (if Absorbs(cs, i) then after[1] else after[0])
            && Merged(cs, i).addr == (if i > 0 && cs[i - 1].kind.Free? then it else b)
            && (Merged(cs, i).addr == b ==> mem'[it] == mem[it].(next := b))
  {
    hide Listing, Before;
    LeftTest(mem, cs, rs, i);
    RightTest(mem, cs, rs, i);
    BeforeLinks(mem, cs, i);
  }

  /** The path's entries before the insertion point are below it, those behind it above the block. */
  lemma {:induction false} PathApart(cs: seq<Cell>, rs: seq<Region>, i: nat)
    requires Tiled(cs, rs) && i < |cs|
    ensures var a, b := [XSTART] + Listing(cs[..i]), Listing(cs[i + 1..]);
            && (forall k {:trigger a[k]} | 0 <= k < |a| - 1 :: a[k] < Before(cs, i))
            && (forall k {:trigger b[k]} | 0 <= k < |b| :: b[k] > cs[i].addr)
  {
    var a, b, l := [XSTART] + Listing(cs[..i]), Listing(cs[i + 1..]), Listing(cs[..i]);
    ListingAt(cs, i);
    var low, high := cs[..i], cs[i + 1..];
    forall j | 0 <= j < |high| ensures cs[i].addr < high[j].addr < WORD { Increasing(cs, rs, i, i + 1 + j); assert CellOk(cs[i + 1 + j], rs); }
    ListingBounds(high, cs[i].addr + 1, WORD);
    forall j | 0 <= j < |low| ensures ALIGNMENT <= low[j].addr < WORD { assert CellOk(cs[j], rs); }
    ListingBounds(low, ALIGNMENT, WORD);
    forall k | 0 <= k < |a| - 1 ensures a[k] < Before(cs, i) {
      if k == 0 { assert l[|l| - 1] >= ALIGNMENT; }
      else { ListAscends(cs, rs, k - 1, |l| - 1); assert Listing(cs)[k - 1] == l[k - 1] && Listing(cs)[|l| - 1] == l[|l| - 1]; }
    }
  }

  /** Block i, taken out of the list, has its size in its header. */
  predicate Insertable(mem: Memory, cs: seq<Cell>, rs: seq<Region>, i: nat) {
    && Tiled(cs, rs) && Sized(mem, cs) && Linked(mem, Path(cs))
    && i < |cs| && cs[i].kind.Used? && cs[i].addr in mem && mem[cs[i].addr].size == cs[i].size
  }

  /** The two halves of the path survive the insertion. */
  lemma {:induction false} SplicedHalves(mem: Memory, cs: seq<Cell>, rs: seq<Region>, i: nat, mem': Memory)
    requires Insertable(mem, cs, rs, i) && Before(cs, i) in mem
    requires mem' == Spliced(mem, Before(cs, i), cs[i].addr, cs[|cs| - 1].addr)
    ensures Linked(mem', [XSTART] + Listing(cs[..i])) && Linked(mem', Listing(cs[i + 1..]) + [0])
  {
    SplicedAt(mem, cs, rs, i);
    hide Tiled, Sized, Listing, Spliced, Inserted, Merged, Absorbs, Linked;
    BeforeLinks(mem, cs, i);
    PathApart(cs, rs, i);
    hide Before;
    var p, q := [XSTART] + Listing(cs[..i]), Listing(cs[i + 1..]) + [0];
    LinkFrame(mem, mem', p);
    assert forall k | 0 <= k < |q| - 1 :: q[k] == Listing(cs[i + 1..])[k];
    LinkFrame(mem, mem', q);
  }

  lemma {:induction false} InsertedPath(cs: seq<Cell>, i: nat)
    requires i + 1 < |cs| && cs[i].kind.Used?
    ensures var p, q := [XSTART] + Listing(cs[..i]), Listing(cs[i + 1..]) + [0];
            && |q| > 0
            && Path(Inserted(cs, i)) ==
                (if i > 0 && cs[i - 1].kind.Free? then p else p + [cs[i].addr]) + (if Absorbs(cs, i) then q[1..] else q)
  {
    hide Inserted, Listing;
    InsertedListing(cs, i);
    var b, a, mid := Listing(cs[..i]), Listing(cs[i + 1..]), if i > 0 && cs[i - 1].kind.Free? then [] else [cs[i].addr];
    assert [XSTART] + (b + mid + a) + [0] == ([XSTART] + b + mid) + (a + [0]);
    if Absorbs(cs, i) {
      assert (a + [0])[1..] == a[1..] + [0];
      assert [XSTART] + (b + mid + a[1..]) + [0] == ([XSTART] + b + mid) + (a[1..] + [0]);
    }
    if i > 0 && cs[i - 1].kind.Free? { assert [XSTART] + b + mid == [XSTART] + b; }
  }

  /** An insertion leaves the headers linked along the new free list. */
  lemma {:induction false} SplicedLinked(mem: Memory, cs: seq<Cell>, rs: seq<Region>, i: nat, mem': Memory)
    requires Insertable(mem, cs, rs, i) && Before(cs, i) in mem
    requires mem' == Spliced(mem, Before(cs, i), cs[i].addr, cs[|cs| - 1].addr)
    ensures Linked(mem', Path(Inserted(cs, i)))
  {
    SplicedHalves(mem, cs, rs, i, mem');
    SplicedAt(mem, cs, rs, i);
    BeforeLinks(mem, cs, i);
    InsertedPath(cs, i);
    hide Tiled, Sized, Listing, Spliced, Inserted, Absorbs, Linked, Before, Path, CellOk;
    var p, q := [XSTART] + Listing(cs[..i]), Listing(cs[i + 1..]) + [0];
    LinkInsert(mem', p, q, cs[i].addr, i > 0 && cs[i - 1].kind.Free?, Absorbs(cs, i));
  }

  /** Two chains joined directly or over a new entry b, the second with or without its first entry. */
  lemma {:induction false} LinkInsert(mem: Memory, p: seq<nat>, q: seq<nat>, b: nat, left: bool, grow: bool)
    requires |p| > 0 && |q| > 1 && Linked(mem, p) && Linked(mem, q) && p[|p| - 1] in mem
    requires var c := if left then p[|p| - 1] else b; c in mem && mem[c].next == if grow then q[1] else q[0]
    requires !left ==> mem[p[|p| - 1]].next == b
    ensures Linked(mem, (if left then p else p + [b]) + (if grow then q[1..] else q))
  {
    if grow { LinkApart(mem, [q[0]], q[1..]) by { assert [q[0]] + q[1..] == q; } }
    if !left { LinkTogether(mem, p, [b]); }
    LinkTogether(mem, if left then p else p + [b], if grow then q[1..] else q);
  }

  lemma {:induction false} SizedAway(mem: Memory, mem': Memory, cs: seq<Cell>, rs: seq<Region>, i: nat, s: nat)
    requires Tiled(cs, rs) && Sized(mem, cs) && i < |cs| && s < |cs| && s != i
    requires var left := i > 0 && cs[i - 1].kind.Free?; var it := Before(cs, i);
             && it in mem && (left ==> it == cs[i - 1].addr && s != i - 1)
             && (forall a | a in mem && a != it && a != cs[i].addr :: a in mem' && mem'[a] == mem[a])
             && (!left ==> it in mem' && mem'[it].size == mem[it].size)
    ensures cs[s].addr in mem' && mem'[cs[s].addr].size == mem[cs[s].addr].size
  {
    if s < i { Increasing(cs, rs, s, i); } else { Increasing(cs, rs, i, s); }
    if i > 0 && cs[i - 1].kind.Free? && s < i - 1 { Increasing(cs, rs, s, i - 1); }
    if i > 0 && cs[i - 1].kind.Free? && s > i - 1 { Increasing(cs, rs, i - 1, s); }
  }

  lemma {:induction false} AddrBound(cs: seq<Cell>, rs: seq<Region>)
    requires Tiled(cs, rs)
    ensures forall j {:trigger cs[j]} | 0 <= j < |cs| :: ALIGNMENT <= cs[j].addr < WORD
  {
    forall j | 0 <= j < |cs| ensures ALIGNMENT <= cs[j].addr < WORD { assert CellOk(cs[j], rs); }
  }

  /** Away from the merged block the headers still hold the sizes. */
  lemma {:induction false} SplicedElsewhere(mem: Memory, cs: seq<Cell>, rs: seq<Region>, i: nat, mem': Memory, j: nat)
    requires Insertable(mem, cs, rs, i) && Before(cs, i) in mem && i + 1 < |cs|
    requires mem' == Spliced(mem, Before(cs, i), cs[i].addr, cs[|cs| - 1].addr)
    requires j < |Inserted(cs, i)| && j != if i > 0 && cs[i - 1].kind.Free? then i - 1 else i
    ensures var d := Inserted(cs, i)[j]; d.addr in mem' && (IsListed(d) ==> mem'[d.addr].size == d.size)
  {
    SplicedAt(mem, cs, rs, i);
    hide Spliced, Linked, Listing, Path, Before, Absorbs, Rest, Inserted;
    var s := InsertedCell(cs, i, j);
    SizedAway(mem, mem', cs, rs, i, s);
  }

  /** An insertion leaves every header in the list with its cell's size. */
  lemma {:induction false} SplicedSized(mem: Memory, cs: seq<Cell>, rs: seq<Region>, i: nat, mem': Memory)
    requires Insertable(mem, cs, rs, i) && Before(cs, i) in mem
    requires mem' == Spliced(mem, Before(cs, i), cs[i].addr, cs[|cs| - 1].addr)
    ensures Sized(mem', Inserted(cs, i))
  {
    hide Insertable, Spliced, Before, Inserted;
    SplicedStart(mem, cs, rs, i, mem');
    var ds := Inserted(cs, i);
    var l := if i > 0 && cs[i - 1].kind.Free? then i - 1 else i;
    forall j | 0 <= j < |ds| ensures ds[j].addr in mem' && (IsListed(ds[j]) ==> mem'[ds[j].addr].size == ds[j].size) {
      if j != l { SplicedElsewhere(mem, cs, rs, i, mem', j); }
    }
  }

  /** The list's start has no size, and the merged block its new one. */
  lemma {:induction false} SplicedStart(mem: Memory, cs: seq<Cell>, rs: seq<Region>, i: nat, mem': Memory)
    requires Insertable(mem, cs, rs, i) && Before(cs, i) in mem
    requires mem' == Spliced(mem, Before(cs, i), cs[i].addr, cs[|cs| - 1].addr)
    ensures i + 1 < |cs| && XSTART in mem' && mem'[XSTART].size == 0
    ensures var ds, l := Inserted(cs, i), if i > 0 && cs[i - 1].kind.Free? then i - 1 else i;
            l < |ds| && ds[l].addr in mem' && mem'[ds[l].addr].size == ds[l].size
  {
    hide Spliced, Linked, Listing, Path, Absorbs, Rest, Tiled, Inserted;
    SplicedAt(mem, cs, rs, i);
    AddrBound(cs, rs);
    InsertedShape(cs, i);
  }
}