/** Directory entries: short names and their checksum, long names cut into entries of thirteen
    units, and the comparison and the collection of those (FAT Long Directory Entries in the
    FAT32 File System Specification 1.03). */
module LfnTheory {
  import opened Arith

  const ENTRY_SIZE: nat := 32
  const MAX_LFN: nat := 255
  const DELETED: Byte := 0xE5
  const REPLACED: Byte := 0x05
  const LAST_LONG: nat := 0x40
  const ATTR_VOLUME: nat := 0x08
  const ATTR_LONG: nat := 0x0F
  const FILLER: nat := 0xFFFF

  type Entry = e: seq<Byte> | |e| == ENTRY_SIZE witness seq(ENTRY_SIZE, _ => 0)

  /** A UTF-16 code unit. */
  type Unit = u: nat | u < 0x1_0000

  /** The working buffer: a name, its terminating zero and whatever else is there. */
  type LfnBuf = b: seq<Unit> | |b| == MAX_LFN + 1 witness seq(MAX_LFN + 1, _ => 0)

  /** The case folding of ff_wtoupper, as a table over the code units. */
  type Folding = seq<Unit>

  function Up(up: Folding, u: Unit): Unit { if u < |up| then up[u] else u }

  /** Where unit s of an entry is stored. */
  function UnitOffset(s: nat): (o: nat)
    requires s < 13
    ensures 1 <= o <= 30
  {
    if s < 5 then 1 + 2 * s else if s < 11 then 14 + 2 * (s - 5) else 28 + 2 * (s - 11)
  }

  function UnitOf(e: Entry, s: nat): Unit
    requires s < 13
  {
    e[UnitOffset(s)] as int + 0x100 * e[UnitOffset(s) + 1] as int
  }

  function Order(e: Entry): nat { e[0] }

  function Attr(e: Entry): nat { e[11] % 0x40 }

  predicate HasLast(c: nat) { c / 0x40 % 2 == 1 }

  function WithoutLast(c: nat): nat { if HasLast(c) then c - 0x40 else c }

  /** The first-cluster field, zero in every entry of a long name. */
  function ClusterField(e: Entry): nat { e[26] as int + 0x100 * e[27] as int }

  /** sum_sfn over the first bytes of a short name: a rotated sum. */
  function SfnSum(b: seq<Byte>): Byte {
    if |b| == 0 then 0
    else
      var s := SfnSum(b[..|b| - 1]);
      (s as int / 2 + s as int % 2 * 0x80 + b[|b| - 1] as int) % 0x100
  }

  // ---------------------------------------------------------------- the working buffer

  /** b holds name, terminated. */
  predicate HoldsName(b: LfnBuf, name: seq<Unit>) {
    |name| <= MAX_LFN && b[..|name|] == name && b[|name|] == 0
  }

  /** A name as create_name leaves it in the buffer: no unit is the terminator. */
  predicate IsText(name: seq<Unit>) {
    0 < |name| <= MAX_LFN && forall i {:trigger name[i]} | 0 <= i < |name| :: name[i] != 0
  }

  /** The filler occurs only where it does no harm: at the end of a name that fills its last entry. */
  predicate FillerLast(name: seq<Unit>) {
    forall i {:trigger name[i]} | 0 <= i < |name| && name[i] == FILLER ::
      |name| % 13 == 0 && i >= |name| - 13 && forall j {:trigger name[j]} | i <= j < |name| :: name[j] == FILLER
  }

  /** A long name the entries can hold. */
  predicate IsName(name: seq<Unit>) { IsText(name) && FillerLast(name) }

  /** Entries a name takes. */
  function Pieces(n: nat): nat { (n + 12) / 13 }

  /** Unit j of a name as it is stored: the name, one terminator, fillers. */
  function Stored(name: seq<Unit>, j: nat): Unit {
    if j < |name| then name[j] else if j == |name| then 0 else FILLER
  }

  // ---------------------------------------------------------------- writing an entry

  /** An entry with the given units, order byte and checksum. */
  function LongEntry(units: seq<Unit>, ord: Byte, sum: Byte): (e: Entry)
    requires |units| == 13
    ensures e[0] == ord && e[13] == sum && Attr(e) == ATTR_LONG && ClusterField(e) == 0
  {
    [ord] + Words(units[..5]) + [ATTR_LONG, 0, sum] + Words(units[5..11]) + [0, 0] + Words(units[11..])
  }

  function Words(u: seq<Unit>): (b: seq<Byte>)
    ensures |b| == 2 * |u|
    ensures forall s {:trigger u[s]} | 0 <= s < |u| :: b[2 * s] as int + 0x100 * b[2 * s + 1] as int == u[s]
  {
    if |u| == 0 then [] else Words(u[..|u| - 1]) + [u[|u| - 1] % 0x100, u[|u| - 1] / 0x100]
  }

  lemma {:induction false} LongEntryUnit(units: seq<Unit>, ord: Byte, sum: Byte, s: nat)
    requires |units| == 13 && s < 13
    ensures UnitOf(LongEntry(units, ord, sum), s) == units[s]
  {
    var a, b, c := Words(units[..5]), Words(units[5..11]), Words(units[11..]);
    var e := LongEntry(units, ord, sum);
    if s < 5 {
      assert e[1 + 2 * s] == a[2 * s] && e[2 + 2 * s] == a[2 * s + 1] && units[..5][s] == units[s];
    } else if s < 11 {
      var t := s - 5;
      assert e[14 + 2 * t] == b[2 * t] && e[15 + 2 * t] == b[2 * t + 1] && units[5..11][t] == units[s];
    } else {
      var t := s - 11;
      assert e[28 + 2 * t] == c[2 * t] && e[29 + 2 * t] == c[2 * t + 1] && units[11..][t] == units[s];
    }
  }

  /** The thirteen units entry ord holds. */
  function StoredUnits(name: seq<Unit>, ord: nat): (u: seq<Unit>)
    requires ord >= 1
    ensures |u| == 13 && forall s {:trigger u[s]} | 0 <= s < 13 :: u[s] == Stored(name, (ord - 1) * 13 + s)
  {
    seq<Unit>(13, s requires 0 <= s < 13 => Stored(name, (ord - 1) * 13 + s))
  }

  /** Entry ord of a name. */
  function NameEntry(name: seq<Unit>, ord: nat, sum: Byte): (e: Entry)
    requires 1 <= ord <= 20
  {
    LongEntry(StoredUnits(name, ord), if ord * 13 >= |name| then ord + LAST_LONG else ord, sum)
  }

  lemma {:induction false} NameEntryUnit(name: seq<Unit>, ord: nat, sum: Byte, s: nat)
    requires 1 <= ord <= 20 && s < 13
    ensures UnitOf(NameEntry(name, ord, sum), s) == Stored(name, (ord - 1) * 13 + s)
  {
    LongEntryUnit(StoredUnits(name, ord), if ord * 13 >= |name| then ord + LAST_LONG else ord, sum, s);
  }

  // ---------------------------------------------------------------- comparing and collecting

  /** The units of entry e from s on equal those of the buffer from i on up to the terminator;
      behind it there are only fillers. */
  predicate Matches(up: Folding, lfn: LfnBuf, e: Entry, i: nat, s: nat)
    requires s <= 13
    decreases 13 - s
  {
    s == 13 ||
    (i <= MAX_LFN && Up(up, UnitOf(e, s)) == Up(up, lfn[i]) &&
     if UnitOf(e, s) == 0 then AllFiller(e, s + 1) else Matches(up, lfn, e, i + 1, s + 1))
  }

  predicate AllFiller(e: Entry, s: nat)
    requires s <= 13
  {
    forall r {:trigger UnitOf(e, r)} | s <= r < 13 :: UnitOf(e, r) == FILLER
  }

  /** Entry e holds no terminator. */
  predicate Unterminated(e: Entry) {
    forall s {:trigger UnitOf(e, s)} | 0 <= s < 13 :: UnitOf(e, s) != 0
  }

  /** cmp_lfn. */
  predicate CmpLfn(up: Folding, lfn: LfnBuf, e: Entry) {
    var ord := Order(e) % 0x40;
    && ClusterField(e) == 0 && ord > 0 && Matches(up, lfn, e, (ord - 1) * 13, 0)
    && (HasLast(Order(e)) && Unterminated(e) ==> ord * 13 <= MAX_LFN && lfn[ord * 13] == 0)
  }

  /** The buffer after the units of entry e from s on have been stored from i on, and whether the
      entry was valid. */
  function Picked(lfn: LfnBuf, e: Entry, i: nat, s: nat): (LfnBuf, bool)
    requires s <= 13
    decreases 13 - s
  {
    if s == 13 then (lfn, true)
    else if i > MAX_LFN then (lfn, false)
    else if UnitOf(e, s) == 0 then (lfn[i := 0], AllFiller(e, s + 1))
    else Picked(lfn[i := UnitOf(e, s)], e, i + 1, s + 1)
  }

  /** pick_lfn: the buffer afterwards and whether the entry was valid. */
  function PickLfn(lfn: LfnBuf, e: Entry): (LfnBuf, bool) {
    var ord := WithoutLast(Order(e));
    if ClusterField(e) != 0 || ord == 0 then (lfn, false)
    else
      var (b, ok) := Picked(lfn, e, (ord - 1) * 13, 0);
      if !ok || !HasLast(Order(e)) || !Unterminated(e) then (b, ok)
      else if ord * 13 > MAX_LFN then (b, false)
      else (b[ord * 13 := 0], true)
  }

  // ---------------------------------------------------------------- what was written is found and read

  /** Two names equal under the case folding. */
  predicate SameName(up: Folding, a: seq<Unit>, b: seq<Unit>) {
    |a| == |b| && forall i {:trigger a[i]} {:trigger b[i]} | 0 <= i < |a| :: Up(up, a[i]) == Up(up, b[i])
  }

  /** Every entry of a name matches a buffer that holds the same name up to case. */
  lemma {:induction false} WrittenMatches(up: Folding, lfn: LfnBuf, name: seq<Unit>, other: seq<Unit>, ord: nat, sum: Byte)
    requires IsName(name) && HoldsName(lfn, other) && SameName(up, name, other) && 1 <= ord <= Pieces(|name|)
    ensures 1 <= ord <= 20 && CmpLfn(up, lfn, NameEntry(name, ord, sum))
  {
    hide UnitOf, Up;
    var e := NameEntry(name, ord, sum);
    forall s | 0 <= s < 13 ensures UnitOf(e, s) == Stored(name, (ord - 1) * 13 + s) { NameEntryUnit(name, ord, sum, s); }
    MatchesFrom(up, lfn, name, other, e, (ord - 1) * 13, 0);
    if HasLast(Order(e)) && Unterminated(e) {
      assert Stored(name, (ord - 1) * 13 + 12) == UnitOf(e, 12);
      EndsAt(name, ord, e);
    }
  }

  /** An unterminated last entry ends exactly where the name does. */
  lemma {:induction false} EndsAt(name: seq<Unit>, ord: nat, e: Entry)
    requires 1 <= ord && ord * 13 >= |name| && (ord - 1) * 13 < |name|
    requires forall s {:trigger UnitOf(e, s)} | 0 <= s < 13 :: UnitOf(e, s) == Stored(name, (ord - 1) * 13 + s)
    requires Unterminated(e)
    ensures ord * 13 == |name|
  {
    var s := |name| - (ord - 1) * 13;
    assert s < 13 ==> UnitOf(e, s) == Stored(name, |name|);
  }

  lemma {:induction false} MatchesFrom(up: Folding, lfn: LfnBuf, name: seq<Unit>, other: seq<Unit>, e: Entry, base: nat, s: nat)
    requires IsName(name) && HoldsName(lfn, other) && SameName(up, name, other) && s <= 13 && base + s <= |name|
    requires forall r {:trigger UnitOf(e, r)} | 0 <= r < 13 :: UnitOf(e, r) == Stored(name, base + r)
    ensures Matches(up, lfn, e, base + s, s)
    decreases 13 - s
  {
    hide UnitOf, Up;
    if s < 13 {
      assert UnitOf(e, s) == Stored(name, base + s);
      if base + s < |name| {
        assert lfn[base + s] == lfn[..|other|][base + s] == other[base + s];
        MatchesFrom(up, lfn, name, other, e, base, s + 1);
      }
    }
  }

  /** b holds the units of name from unit i on, terminator included. */
  predicate HoldsFrom(b: LfnBuf, name: seq<Unit>, i: nat) {
    forall j {:trigger b[j]} | i <= j <= |name| && j <= MAX_LFN :: b[j] == Stored(name, j)
  }

  /** Collecting entry ord on top of the entries behind it. */
  lemma {:induction false} PickWritten(b: LfnBuf, name: seq<Unit>, ord: nat, sum: Byte)
    requires IsName(name) && 1 <= ord <= Pieces(|name|)
    requires ord < Pieces(|name|) ==> HoldsFrom(b, name, ord * 13)
    ensures 1 <= ord <= 20 && PickLfn(b, NameEntry(name, ord, sum)).1 && HoldsFrom(PickLfn(b, NameEntry(name, ord, sum)).0, name, (ord - 1) * 13)
  {
    hide UnitOf;
    var e := NameEntry(name, ord, sum);
    forall s | 0 <= s < 13 ensures UnitOf(e, s) == Stored(name, (ord - 1) * 13 + s) { NameEntryUnit(name, ord, sum, s); }
    PickedFrom(b, name, e, (ord - 1) * 13, 0);
    LastPiece(name, ord, e);
    OrderByte(name, ord, sum);
    hide NameEntry, Picked, HasLast, WithoutLast, Unterminated;
    var (c, ok) := PickLfn(b, e);
    var (d, _) := Picked(b, e, (ord - 1) * 13, 0);
    assert c == if ord == Pieces(|name|) && ord * 13 == |name| then d[ord * 13 := 0] else d;
    forall j | (ord - 1) * 13 <= j <= |name| && j <= MAX_LFN ensures c[j] == Stored(name, j) {
      assert ord < Pieces(|name|) && j >= ord * 13 ==> b[j] == Stored(name, j);
      assert j < ord * 13 ==> d[j] == Stored(name, j);
    }
  }

  lemma {:induction false} OrderByte(name: seq<Unit>, ord: nat, sum: Byte)
    requires 1 <= ord <= 20
    ensures var e := NameEntry(name, ord, sum);
            && WithoutLast(Order(e)) == ord && (HasLast(Order(e)) <==> ord * 13 >= |name|) && Order(e) % 0x40 == ord
            && Attr(e) == ATTR_LONG && e[13] == sum && ClusterField(e) == 0 && e[0] != 0 && e[0] != DELETED
  {
  }

  lemma {:induction false} LastPiece(name: seq<Unit>, ord: nat, e: Entry)
    requires IsName(name) && 1 <= ord <= Pieces(|name|)
    requires forall s {:trigger UnitOf(e, s)} | 0 <= s < 13 :: UnitOf(e, s) == Stored(name, (ord - 1) * 13 + s)
    ensures ord * 13 >= |name| <==> ord == Pieces(|name|)
    ensures Unterminated(e) <==> ord * 13 <= |name|
  {
    hide UnitOf;
    var s := |name| - (ord - 1) * 13;
    assert s < 13 ==> UnitOf(e, s) == Stored(name, |name|);
  }

  lemma {:induction false} PickedFrom(b: LfnBuf, name: seq<Unit>, e: Entry, base: nat, s: nat)
    requires IsName(name) && s <= 13 && base + s <= |name|
    requires forall r {:trigger UnitOf(e, r)} | 0 <= r < 13 :: UnitOf(e, r) == Stored(name, base + r)
    ensures var (c, ok) := Picked(b, e, base + s, s);
            && ok && (forall j {:trigger c[j]} | 0 <= j <= MAX_LFN :: c[j] == if base + s <= j < base + 13 && j <= |name| then Stored(name, j) else b[j])
    decreases 13 - s
  {
    hide UnitOf;
    if s < 13 {
      assert UnitOf(e, s) == Stored(name, base + s);
      if base + s < |name| { PickedFrom(b[base + s := UnitOf(e, s)], name, e, base, s + 1); }
    }
  }
}
