/** The loops over a long or a short name in one directory entry. */
module Lfn {
  import opened Arith
  import opened LfnFiller
  import opened LfnTheory

  /** sum_sfn. */
  method SumSfn(e: Entry) returns (sum: Byte)
    ensures sum == SfnSum(e[..11])
  {
    sum := 0;
    for n := 0 to 11
      invariant sum == SfnSum(e[..n])
    {
      assert e[..n + 1][..n] == e[..n];
      sum := (sum as int / 2 + sum as int % 2 * 0x80 + e[n] as int) % 0x100;
    }
  }

  /** cmp_lfn. */
  method CompareLfn(up: Folding, lfn: LfnBuf, e: Entry) returns (same: bool)
    ensures same == CmpLfn(up, lfn, e)
  {
    hide Up, UnitOf, HasLast;
    if ClusterField(e) != 0 { return false; }
    var ord := Order(e) % 0x40;
    if ord == 0 { return false; }
    var i, wc, s := (ord - 1) * 13, 1, 0;
    while s < 13
      invariant 0 <= s <= 13 && 0 <= i
      invariant wc != 0 ==> i == (ord - 1) * 13 + s && forall r {:trigger UnitOf(e, r)} | 0 <= r < s :: UnitOf(e, r) != 0
      invariant wc == 0 ==> exists r {:trigger UnitOf(e, r)} :: 0 <= r < s && UnitOf(e, r) == 0
      invariant Matches(up, lfn, e, (ord - 1) * 13, 0) == if wc != 0 then Matches(up, lfn, e, i, s) else AllFiller(e, s)
    {
      var uc := UnitOf(e, s);
      if wc != 0 {
        if i >= MAX_LFN + 1 || Up(up, uc) != Up(up, lfn[i]) { return false; }
        i := i + 1;
        wc := uc;
      } else {
        if uc != FILLER {
          assert UnitOf(e, s) != FILLER;
          return false;
        }
      }
      s := s + 1;
    }
    assert wc != 0 ==> i <= MAX_LFN + 1 && Unterminated(e);
    if HasLast(Order(e)) && wc != 0 {
      same := i <= MAX_LFN && lfn[i] == 0;
    } else {
      same := true;
    }
  }

  /** pick_lfn. */
  method CollectLfn(buf: LfnBuf, e: Entry) returns (lfn: LfnBuf, ok: bool)
    ensures (lfn, ok) == PickLfn(buf, e)
  {
    hide UnitOf, HasLast, WithoutLast;
    lfn := buf;
    if ClusterField(e) != 0 { return lfn, false; }
    var ord := WithoutLast(Order(e));
    if ord == 0 { return lfn, false; }
    var i, wc, s := (ord - 1) * 13, 1, 0;
    ghost var target := Picked(buf, e, i, 0);
    while s < 13
      invariant 0 <= s <= 13 && 0 <= i
      invariant wc != 0 ==> i == (ord - 1) * 13 + s && forall r {:trigger UnitOf(e, r)} | 0 <= r < s :: UnitOf(e, r) != 0
      invariant wc == 0 ==> exists r {:trigger UnitOf(e, r)} :: 0 <= r < s && UnitOf(e, r) == 0
      invariant target == if wc != 0 then Picked(lfn, e, i, s) else (lfn, AllFiller(e, s))
    {
      var uc := UnitOf(e, s);
      if wc != 0 {
        if i >= MAX_LFN + 1 { return lfn, false; }
        wc := uc;
        lfn := lfn[i := uc];
        i := i + 1;
      } else {
        if uc != FILLER {
          assert UnitOf(e, s) != FILLER;
          return lfn, false;
        }
      }
      s := s + 1;
    }
    ok := true;
    assert wc != 0 <==> Unterminated(e);
    if HasLast(Order(e)) && wc != 0 {
      if i >= MAX_LFN + 1 { return lfn, false; }
      lfn := lfn[i := 0];
    }
  }

  /** put_lfn: the entry written for piece ord of the name in the buffer. */
  method BuildLfn(lfn: LfnBuf, name: seq<Unit>, ord: nat, sum: Byte) returns (e: Entry)
    requires HoldsName(lfn, name) && IsText(name) && 1 <= ord <= Pieces(|name|)
    ensures 1 <= ord <= 20 && e == PutEntry(name, ord, sum)
    ensures FillerLast(name) ==> e == NameEntry(name, ord, sum)
  {
    hide HoldsName, FillerLast, NameEntry, Cut, Ending;
    if FillerLast(name) { PutName(name, ord, sum); }
    var units: seq<Unit> := [];
    var i: nat, wc: Unit := (ord - 1) * 13, 0;
    ghost var base := i;
    CutNone(name, base);
    while |units| < 13
      invariant |units| <= 13 && (wc == FILLER <==> Cut(name, base, |units|))
      invariant i <= |name| + 1 && (!Cut(name, base, |units|) ==> i == base + |units| <= |name|)
      invariant forall s {:trigger units[s]} | 0 <= s < |units| :: units[s] == PutUnit(name, base, s)
      decreases 13 - |units|
    {
      CutNext(name, base, |units|);
      if wc != FILLER {
        BufferAt(lfn, name, i);
        wc := lfn[i];
        i := i + 1;
      }
      units := units + [wc];
      if wc == 0 { wc := FILLER; }
    }
    assert units == PutUnits(name, ord);
    var order := ord;
    if wc != FILLER { BufferAt(lfn, name, i); }
    if wc == FILLER || lfn[i] == 0 { order := order + LAST_LONG; }
    e := LongEntry(units, order, sum);
  }

  lemma {:induction false} CutNone(name: seq<Unit>, base: nat)
    ensures !Cut(name, base, 0)
  {
  }

  lemma {:induction false} CutNext(name: seq<Unit>, base: nat, s: nat)
    ensures Cut(name, base, s + 1) <==> Cut(name, base, s) || Stored(name, base + s) == 0 || Stored(name, base + s) == FILLER
  {
    assert Ending(name, base, s) <==> Stored(name, base + s) == 0 || Stored(name, base + s) == FILLER;
  }

  lemma {:induction false} BufferAt(lfn: LfnBuf, name: seq<Unit>, j: nat)
    requires HoldsName(lfn, name) && IsText(name) && j <= |name|
    ensures lfn[j] == Stored(name, j) && (lfn[j] == 0 <==> j == |name|)
  {
    if j < |name| { assert lfn[j] == lfn[..|name|][j]; }
  }

  lemma {:induction false} NameUnits(lfn: LfnBuf, name: seq<Unit>)
    requires HoldsName(lfn, name) && IsText(name)
    ensures 0 < |name| <= MAX_LFN && lfn[|name|] == 0 && forall j {:trigger lfn[j]} {:trigger name[j]} | 0 <= j < |name| :: lfn[j] == name[j] && name[j] != 0
  {
    forall j | 0 <= j < |name| ensures lfn[j] == name[j] { assert lfn[..|name|][j] == name[j]; }
  }
}
