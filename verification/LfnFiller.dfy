/** What the entries of a long name hold when the name contains the filler 0xFFFF, and exactly when that
    does no harm. */
module LfnFiller {
  import opened Arith
  import opened LfnTheory

  /** Unit r of the piece from base on ends what is stored: the terminator, or a filler taken for what
      follows it. */
  predicate Ending(name: seq<Unit>, base: nat, r: nat) { Stored(name, base + r) == 0 || Stored(name, base + r) == FILLER }

  /** One of the first s units does. */
  predicate Cut(name: seq<Unit>, base: nat, s: nat) {
    exists r {:trigger Ending(name, base, r)} :: 0 <= r < s && Ending(name, base, r)
  }

  /** Unit s as put_lfn stores it. */
  function PutUnit(name: seq<Unit>, base: nat, s: nat): Unit { if Cut(name, base, s) then FILLER else Stored(name, base + s) }

  function PutUnits(name: seq<Unit>, ord: nat): (u: seq<Unit>)
    requires ord >= 1
    ensures |u| == 13 && forall s {:trigger u[s]} | 0 <= s < 13 :: u[s] == PutUnit(name, (ord - 1) * 13, s)
  {
    seq<Unit>(13, s requires 0 <= s < 13 => PutUnit(name, (ord - 1) * 13, s))
  }

  /** put_lfn marks a piece as the last one when something ended it, or when the name ends with it. */
  predicate PutLast(name: seq<Unit>, ord: nat)
    requires ord >= 1
  {
    Cut(name, (ord - 1) * 13, 13) || ord * 13 >= |name|
  }

  /** Entry ord as put_lfn writes it, for any text. */
  function PutEntry(name: seq<Unit>, ord: nat, sum: Byte): Entry
    requires 1 <= ord <= 20
  {
    LongEntry(PutUnits(name, ord), if PutLast(name, ord) then ord + LAST_LONG else ord, sum)
  }

  /** The pieces from the last one down to ord collected, as a read meets them. */
  function Collected(b: LfnBuf, name: seq<Unit>, ord: nat, sum: Byte): (LfnBuf, bool)
    requires 1 <= ord <= 20 && Pieces(|name|) <= 20
    decreases 20 - ord
  {
    if ord >= Pieces(|name|) then PickLfn(b, PutEntry(name, ord, sum))
    else
      var (c, ok) := Collected(b, name, ord + 1, sum);
      if ok then PickLfn(c, PutEntry(name, ord, sum)) else (c, false)
  }

  /** A harmless text is written as its entries say. */
  lemma {:induction false} PutName(name: seq<Unit>, ord: nat, sum: Byte)
    requires IsName(name) && 1 <= ord <= Pieces(|name|)
    ensures 1 <= ord <= 20 && PutEntry(name, ord, sum) == NameEntry(name, ord, sum)
  {
    var base := (ord - 1) * 13;
    forall s | 0 <= s < 13 ensures PutUnit(name, base, s) == Stored(name, base + s) {
      if Cut(name, base, s) {
        var r: nat :| r < s && Ending(name, base, r);
        assert base + r < |name| ==> name[base + r] == FILLER && |name| == base + 13;
        assert base + s < |name| ==> Stored(name, base + s) == name[base + s];
      }
    }
    assert PutUnits(name, ord) == StoredUnits(name, ord);
    assert PutLast(name, ord) <==> ord * 13 >= |name| by {
      if Cut(name, base, 13) {
        var r: nat :| r < 13 && Ending(name, base, r);
        assert base + r < |name| ==> name[base + r] == FILLER;
      }
    }
  }

  // ---------------------------------------------------------------- harmless texts

  /** Collecting the entries of a harmless text rebuilds it. */
  lemma {:induction false} CollectedName(b: LfnBuf, name: seq<Unit>, ord: nat, sum: Byte)
    requires IsName(name) && 1 <= ord <= Pieces(|name|)
    ensures ord <= Pieces(|name|) <= 20 && Collected(b, name, ord, sum).1 && HoldsFrom(Collected(b, name, ord, sum).0, name, (ord - 1) * 13)
    decreases 20 - ord
  {
    hide PickLfn, NameEntry, PutEntry, HoldsFrom, FillerLast;
    PutName(name, ord, sum);
    if ord < Pieces(|name|) { CollectedName(b, name, ord + 1, sum); }
    PickWritten(if ord < Pieces(|name|) then Collected(b, name, ord + 1, sum).0 else b, name, ord, sum);
  }

  lemma {:induction false} HoldsAll(b: LfnBuf, name: seq<Unit>)
    requires |name| <= MAX_LFN && HoldsFrom(b, name, 0)
    ensures HoldsName(b, name)
  {
    forall j | 0 <= j <= |name| ensures b[j] == Stored(name, j) {}
    assert b[..|name|] == name;
  }

  // ---------------------------------------------------------------- harmful ones

  /** The filler at i does harm. */
  predicate Harms(name: seq<Unit>, i: nat) {
    i < |name| && name[i] == FILLER && !(|name| % 13 == 0 && i >= |name| - 13 && forall j {:trigger name[j]} | i <= j < |name| :: name[j] == FILLER)
  }

  lemma {:induction false} SomeHarm(name: seq<Unit>) returns (i: nat)
    requires !FillerLast(name)
    ensures Harms(name, i)
  {
    i :| i < |name| && name[i] == FILLER
      && !(|name| % 13 == 0 && i >= |name| - 13 && forall j {:trigger name[j]} | i <= j < |name| :: name[j] == FILLER);
  }

  /** The piece of a harmful filler holds no terminator, is marked as the last, and shows a place behind the
      filler where it or its mark is not the name's. */
  lemma {:induction false} HarmAt(name: seq<Unit>, i: nat, sum: Byte) returns (ord: nat, w: nat)
    requires IsText(name) && Harms(name, i)
    ensures ord == i / 13 + 1 && 1 <= ord <= Pieces(|name|) <= 20
    ensures var e := PutEntry(name, ord, sum);
            Unterminated(e) && WithoutLast(Order(e)) == ord && HasLast(Order(e)) && Order(e) % 0x40 == ord && ClusterField(e) == 0
    ensures (ord - 1) * 13 < w <= |name| && w <= ord * 13
    ensures if w == ord * 13 then w < |name| else UnitOf(PutEntry(name, ord, sum), w - (ord - 1) * 13) == FILLER && (w < |name| ==> name[w] != FILLER)
  {
    hide UnitOf, ClusterField;
    ord := i / 13 + 1;
    var base := (ord - 1) * 13;
    var units := PutUnits(name, ord);
    assert Ending(name, base, i - base);
    assert PutLast(name, ord);
    forall s | 0 <= s < 13 ensures units[s] != 0 && (s > i - base ==> units[s] == FILLER) {
      assert Stored(name, base + s) == 0 ==> base + s > i;
    }
    var e := PutEntry(name, ord, sum);
    forall s | 0 <= s < 13 ensures UnitOf(e, s) == units[s] { LongEntryUnit(units, ord + LAST_LONG, sum, s); }
    if ord < Pieces(|name|) {
      w := ord * 13;
    } else if |name| < ord * 13 {
      w := |name|;
    } else {
      w :| i <= w < |name| && name[w] != FILLER;
    }
  }

  /** An entry without terminator is stored whole, or refused when it does not fit. */
  lemma {:induction false} PickedWhole(b: LfnBuf, e: Entry, i: nat, s: nat)
    requires Unterminated(e) && s <= 13
    ensures Picked(b, e, i, s).1 ==> forall j {:trigger Picked(b, e, i, s).0[j]} | 0 <= j <= MAX_LFN ::
              Picked(b, e, i, s).0[j] == if i <= j < i + 13 - s then UnitOf(e, j - i + s) else b[j]
    decreases 13 - s
  {
    hide UnitOf;
    if s < 13 && i <= MAX_LFN {
      assert UnitOf(e, s) != 0;
      PickedWhole(b[i := UnitOf(e, s)], e, i + 1, s + 1);
    }
  }

  /** Collecting a piece changes nothing behind it but the terminator. */
  lemma {:induction false} PickKeeps(b: LfnBuf, e: Entry, i: nat, s: nat)
    requires s <= 13
    ensures forall j {:trigger Picked(b, e, i, s).0[j]} | 0 <= j <= MAX_LFN && (j < i || j >= i + 13 - s) :: Picked(b, e, i, s).0[j] == b[j]
    decreases 13 - s
  {
    hide UnitOf;
    if s < 13 && i <= MAX_LFN && UnitOf(e, s) != 0 { PickKeeps(b[i := UnitOf(e, s)], e, i + 1, s + 1); }
  }

  lemma {:induction false} PieceKeeps(b: LfnBuf, name: seq<Unit>, ord: nat, sum: Byte, j: nat)
    requires 1 <= ord <= 20 && ord * 13 < j <= MAX_LFN
    ensures PickLfn(b, PutEntry(name, ord, sum)).0[j] == b[j]
  {
    hide UnitOf, ClusterField, PickLfn;
    var e := PutEntry(name, ord, sum);
    assert WithoutLast(Order(e)) == ord;
    PickLfnKeeps(b, e, j);
  }

  lemma {:induction false} PickLfnKeeps(b: LfnBuf, e: Entry, j: nat)
    requires WithoutLast(Order(e)) * 13 < j <= MAX_LFN
    ensures PickLfn(b, e).0[j] == b[j]
  {
    hide UnitOf, Picked, ClusterField, WithoutLast, HasLast, Unterminated;
    var ord := WithoutLast(Order(e));
    if ord > 0 {
      PickKeeps(b, e, (ord - 1) * 13, 0);
      assert Picked(b, e, (ord - 1) * 13, 0).0[j] == b[j];
    }
  }

  lemma {:induction false} CollectedKeeps(b: LfnBuf, name: seq<Unit>, ord: nat, k: nat, sum: Byte, j: nat)
    requires 1 <= k <= ord <= Pieces(|name|) <= 20 && (ord - 1) * 13 < j <= MAX_LFN
    ensures Collected(b, name, k, sum).1 ==> Collected(b, name, ord, sum).1 && Collected(b, name, k, sum).0[j] == Collected(b, name, ord, sum).0[j]
    decreases ord - k
  {
    hide PickLfn, PutEntry;
    if k < ord {
      CollectedKeeps(b, name, ord, k + 1, sum, j);
      PieceKeeps(Collected(b, name, k + 1, sum).0, name, k, sum, j);
    }
  }

  /** What a harmful piece leaves in the buffer at the place that shows it. */
  lemma {:induction false} HarmCollected(b: LfnBuf, name: seq<Unit>, ord: nat, w: nat, sum: Byte)
    requires 1 <= ord <= 20 && (ord - 1) * 13 < w <= ord * 13 && w <= MAX_LFN
    requires var e := PutEntry(name, ord, sum); Unterminated(e) && WithoutLast(Order(e)) == ord && HasLast(Order(e)) && ClusterField(e) == 0
    ensures var e := PutEntry(name, ord, sum);
            PickLfn(b, e).1 ==> PickLfn(b, e).0[w] == if w == ord * 13 then 0 else UnitOf(e, w - (ord - 1) * 13)
  {
    hide UnitOf, PutEntry, Picked, HasLast, WithoutLast, Unterminated, ClusterField;
    var e, base := PutEntry(name, ord, sum), (ord - 1) * 13;
    PickedWhole(b, e, base, 0);
    var (c, ok) := Picked(b, e, base, 0);
    assert ok && w < ord * 13 ==> c[w] == UnitOf(e, w - base);
  }

  /** The collected entries are the name again exactly when its fillers do no harm. */
  lemma {:induction false} ComesBack(b: LfnBuf, name: seq<Unit>, sum: Byte)
    requires IsText(name)
    ensures Pieces(|name|) <= 20
    ensures Collected(b, name, 1, sum).1 && HoldsName(Collected(b, name, 1, sum).0, name) <==> FillerLast(name)
  {
    hide PickLfn, PutEntry, HoldsName, Unterminated;
    if FillerLast(name) {
      CollectedName(b, name, 1, sum);
      HoldsAll(Collected(b, name, 1, sum).0, name);
    } else {
      var i := SomeHarm(name);
      var ord, w := HarmAt(name, i, sum);
      CollectedKeeps(b, name, ord, 1, sum, w);
      HarmCollected(if ord < Pieces(|name|) then Collected(b, name, ord + 1, sum).0 else b, name, ord, w, sum);
      var c := Collected(b, name, 1, sum).0;
      if HoldsName(c, name) { HeldAt(c, name, w); }
    }
  }

  lemma {:induction false} HeldAt(b: LfnBuf, name: seq<Unit>, j: nat)
    requires HoldsName(b, name) && j <= |name|
    ensures b[j] == Stored(name, j)
  {
    if j < |name| { assert b[j] == b[..|name|][j]; }
  }

  /** The folding tells the filler from every other unit. */
  ghost predicate FillerAlone(up: Folding) { forall u: Unit {:trigger Up(up, u)} | u != FILLER :: Up(up, u) != Up(up, FILLER) }

  lemma {:induction false} MatchesWhole(up: Folding, lfn: LfnBuf, e: Entry, base: nat, s: nat)
    requires Unterminated(e) && s <= 13 && Matches(up, lfn, e, base + s, s)
    ensures forall r {:trigger UnitOf(e, r)} | s <= r < 13 :: base + r <= MAX_LFN && Up(up, UnitOf(e, r)) == Up(up, lfn[base + r])
    decreases 13 - s
  {
    hide UnitOf, Up;
    if s < 13 {
      assert UnitOf(e, s) != 0;
      MatchesWhole(up, lfn, e, base, s + 1);
    }
  }

  /** A search for the very name matches all its entries exactly when its fillers do no harm. */
  lemma {:induction false} MatchedAgain(up: Folding, lfn: LfnBuf, name: seq<Unit>, sum: Byte)
    requires IsText(name) && HoldsName(lfn, name) && FillerAlone(up)
    ensures Pieces(|name|) <= 20
    ensures (forall ord: nat {:trigger PutEntry(name, ord, sum)} | 1 <= ord <= Pieces(|name|) :: CmpLfn(up, lfn, PutEntry(name, ord, sum))) <==> FillerLast(name)
  {
    hide PutEntry, HoldsName, CmpLfn, NameEntry, Unterminated, Up;
    if FillerLast(name) {
      forall ord: nat | 1 <= ord <= Pieces(|name|) ensures CmpLfn(up, lfn, PutEntry(name, ord, sum)) {
        PutName(name, ord, sum);
        WrittenMatches(up, lfn, name, name, ord, sum);
      }
    } else {
      var i := SomeHarm(name);
      var ord, w := HarmAt(name, i, sum);
      HarmMismatched(up, lfn, name, ord, w, sum);
    }
  }

  lemma {:induction false} HarmMismatched(up: Folding, lfn: LfnBuf, name: seq<Unit>, ord: nat, w: nat, sum: Byte)
    requires IsText(name) && HoldsName(lfn, name) && FillerAlone(up) && 1 <= ord <= 20 && (ord - 1) * 13 < w <= |name| && w <= ord * 13
    requires var e := PutEntry(name, ord, sum); Unterminated(e) && HasLast(Order(e)) && Order(e) % 0x40 == ord
    requires if w == ord * 13 then w < |name| else UnitOf(PutEntry(name, ord, sum), w - (ord - 1) * 13) == FILLER && (w < |name| ==> name[w] != FILLER)
    ensures !CmpLfn(up, lfn, PutEntry(name, ord, sum))
  {
    hide PutEntry, UnitOf, Unterminated, Up, HasLast, CmpLfn;
    HeldAt(lfn, name, w);
    ComparedAt(up, lfn, PutEntry(name, ord, sum), ord, w - (ord - 1) * 13);
  }

  lemma {:induction false} ComparedAt(up: Folding, lfn: LfnBuf, e: Entry, ord: nat, r: nat)
    requires Unterminated(e) && HasLast(Order(e)) && Order(e) % 0x40 == ord && 1 <= ord && r <= 13
    ensures CmpLfn(up, lfn, e) ==> (ord - 1) * 13 + r <= MAX_LFN
    ensures CmpLfn(up, lfn, e) ==> if r == 13 then lfn[ord * 13] == 0 else Up(up, UnitOf(e, r)) == Up(up, lfn[(ord - 1) * 13 + r])
  {
    hide UnitOf, Up;
    if CmpLfn(up, lfn, e) { MatchesWhole(up, lfn, e, (ord - 1) * 13, 0); }
  }

  /** For one: with a filler in front of a letter, the letter is lost. */
  lemma {:induction false} FillerLosesLetter(b: LfnBuf, sum: Byte)
    ensures var (c, ok) := Collected(b, [FILLER, 0x41], 1, sum); !(ok && HoldsName(c, [FILLER, 0x41]))
    ensures PutUnits([FILLER, 0x41], 1)[1] == FILLER
  {
    var name: seq<Unit> := [FILLER, 0x41];
    assert name[0] == FILLER && name[1] != FILLER;
    ComesBack(b, name, sum);
    assert Ending(name, 0, 0);
  }
}
