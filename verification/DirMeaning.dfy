/** What a directory's entries mean: files with long or short names, labels and free entries, and that a
    search finds a name exactly when a file has it. */
module DirMeaning {
  import opened Arith
  import opened LfnTheory
  import opened DirTheory

  /** A file's entries: its long name in pieces, none when the name is empty, and its short entry. */
  datatype Item = Free(e: Entry) | Label(e: Entry) | File(name: seq<Unit>, e: Entry)

  /** A short entry of a file or directory. */
  predicate IsShort(e: Entry) { !IsFree(e) && !IsVolume(Attr(e)) && Attr(e) != ATTR_LONG }

  predicate IsItem(it: Item) {
    match it
    case Free(e) => IsFree(e)
    case Label(e) => !IsFree(e) && IsVolume(Attr(e))
    case File(name, e) => IsShort(e) && (name == [] || IsName(name))
  }

  predicate AreItems(items: seq<Item>) { forall i {:trigger items[i]} | 0 <= i < |items| :: IsItem(items[i]) }

  /** The pieces of a long name, last one first. */
  function NamePieces(name: seq<Unit>, sum: Byte): (b: seq<Entry>)
    requires Pieces(|name|) <= 20
    ensures |b| == Pieces(|name|) && forall m {:trigger b[m]} | 0 <= m < |b| :: b[m] == NameEntry(name, |b| - m, sum)
  {
    var n := Pieces(|name|);
    seq<Entry>(n, m requires 0 <= m < n => NameEntry(name, n - m, sum))
  }

  /** Pieces of the item's long name. */
  function PiecesOf(it: Item): (n: nat)
    requires IsItem(it)
    ensures n <= 20
  {
    if it.File? then Pieces(|it.name|) else 0
  }

  /** The entries of an item. */
  function Entries(it: Item): (b: seq<Entry>)
    requires IsItem(it)
    ensures |b| == PiecesOf(it) + 1 && b[|b| - 1] == it.e
  {
    if it.File? then NamePieces(it.name, SfnSum(it.e[..11])) + [it.e] else [it.e]
  }

  /** The table of a list of items. */
  function Flat(items: seq<Item>): seq<Entry>
    requires AreItems(items)
  {
    if |items| == 0 then [] else Flat(items[..|items| - 1]) + Entries(items[|items| - 1])
  }

  /** The table is made of the items, with nothing in use behind its end. */
  predicate Made(t: seq<Entry>, items: seq<Item>) { AreItems(items) && t == Flat(items) && Shaped(t) }

  // ---------------------------------------------------------------- what a search is for

  /** The folding tells the terminator from every other unit. */
  ghost predicate ZeroAlone(up: Folding) { forall u: Unit {:trigger Up(up, u)} | u != 0 :: Up(up, u) != Up(up, 0) }

  /** The key asks for the name, unless it asks for a short name only. */
  predicate AsksFor(key: Key, name: seq<Unit>) { key.noLfn || (HoldsName(key.lfn, name) && IsText(name)) }

  /** The item is a file that has the name, up to case, or the short name asked for. */
  predicate Has(up: Folding, key: Key, name: seq<Unit>, it: Item) {
    it.File? && ((it.name != [] && !key.noLfn && SameName(up, it.name, name)) || (!key.loss && it.e[..11] == key.fn))
  }

  // ---------------------------------------------------------------- all pieces match only the same name

  lemma {:induction false} MatchesUnit(up: Folding, lfn: LfnBuf, name: seq<Unit>, e: Entry, base: nat, s: nat, r: nat)
    requires IsText(name) && s <= r < 13 && base + r <= |name| && base + s <= |name|
    requires forall q {:trigger UnitOf(e, q)} | 0 <= q < 13 :: UnitOf(e, q) == Stored(name, base + q)
    requires Matches(up, lfn, e, base + s, s)
    ensures base + r <= MAX_LFN && Up(up, Stored(name, base + r)) == Up(up, lfn[base + r])
    decreases 13 - s
  {
    hide UnitOf, Up;
    assert UnitOf(e, s) == Stored(name, base + s);
    if s < r { MatchesUnit(up, lfn, name, e, base, s + 1, r); }
  }

  /** A matched piece agrees with the buffer at every place of the name it holds. */
  lemma {:induction false} PieceAgrees(up: Folding, lfn: LfnBuf, name: seq<Unit>, ord: nat, sum: Byte, j: nat)
    requires IsName(name) && 1 <= ord <= Pieces(|name|) && (ord - 1) * 13 <= j <= |name| && j <= ord * 13
    requires 1 <= ord <= 20 && CmpLfn(up, lfn, NameEntry(name, ord, sum))
    ensures j < ord * 13 ==> j <= MAX_LFN && Up(up, Stored(name, j)) == Up(up, lfn[j])
    ensures j == |name| == ord * 13 ==> j <= MAX_LFN && lfn[j] == 0
  {
    hide UnitOf, Up;
    var e, base := NameEntry(name, ord, sum), (ord - 1) * 13;
    forall s | 0 <= s < 13 ensures UnitOf(e, s) == Stored(name, base + s) { NameEntryUnit(name, ord, sum, s); }
    OrderByte(name, ord, sum);
    LastPiece(name, ord, e);
    hide NameEntry, HasLast, WithoutLast, Unterminated;
    if j < ord * 13 { MatchesUnit(up, lfn, name, e, base, 0, j - base); }
  }

  /** Every piece of the name matches the buffer. */
  predicate AllMatch(up: Folding, lfn: LfnBuf, name: seq<Unit>, sum: Byte)
    requires Pieces(|name|) <= 20
  {
    forall ord {:trigger NameEntry(name, ord, sum)} | 1 <= ord <= Pieces(|name|) :: CmpLfn(up, lfn, NameEntry(name, ord, sum))
  }

  /** All pieces of a name match a search exactly for the same name, up to case. */
  lemma {:induction false} AllMatchSame(up: Folding, lfn: LfnBuf, name: seq<Unit>, other: seq<Unit>, sum: Byte)
    requires IsName(name) && HoldsName(lfn, other) && IsText(other) && ZeroAlone(up) && Pieces(|name|) <= 20
    ensures AllMatch(up, lfn, name, sum) <==> SameName(up, name, other)
  {
    hide CmpLfn, NameEntry, Up, FillerLast;
    if SameName(up, name, other) {
      forall ord | 1 <= ord <= Pieces(|name|) ensures CmpLfn(up, lfn, NameEntry(name, ord, sum)) { WrittenMatches(up, lfn, name, other, ord, sum); }
    }
    if AllMatch(up, lfn, name, sum) {
      forall j | 0 <= j <= |name| ensures j <= MAX_LFN && Up(up, Stored(name, j)) == Up(up, lfn[j]) { AgreesAt(up, lfn, name, sum, j); }
      forall j | 0 <= j <= |other| ensures lfn[j] == Stored(other, j) { if j < |other| { assert lfn[j] == lfn[..|other|][j]; } }
      SameLength(up, lfn, name, other);
    }
  }

  lemma {:induction false} AgreesAt(up: Folding, lfn: LfnBuf, name: seq<Unit>, sum: Byte, j: nat)
    requires IsName(name) && Pieces(|name|) <= 20 && AllMatch(up, lfn, name, sum) && j <= |name|
    ensures j <= MAX_LFN && Up(up, Stored(name, j)) == Up(up, lfn[j])
  {
    hide CmpLfn, NameEntry, Up;
    var ord := if j < |name| || j % 13 != 0 then j / 13 + 1 else j / 13;
    assert CmpLfn(up, lfn, NameEntry(name, ord, sum));
    PieceAgrees(up, lfn, name, ord, sum, j);
  }

  lemma {:induction false} FoldsToZero(up: Folding, u: Unit)
    requires ZeroAlone(up)
    ensures Up(up, u) == Up(up, 0) <==> u == 0
  {
  }

  lemma {:induction false} SameLength(up: Folding, lfn: LfnBuf, name: seq<Unit>, other: seq<Unit>)
    requires IsText(name) && IsText(other) && ZeroAlone(up)
    requires forall j {:trigger Stored(name, j)} | 0 <= j <= |name| :: Up(up, Stored(name, j)) == Up(up, lfn[j])
    requires forall j {:trigger Stored(other, j)} | 0 <= j <= |other| :: lfn[j] == Stored(other, j)
    ensures SameName(up, name, other)
  {
    hide Up;
    var k := if |name| <= |other| then |name| else |other|;
    assert Up(up, Stored(name, k)) == Up(up, lfn[k]) && lfn[k] == Stored(other, k);
    FoldsToZero(up, Stored(name, k));
    FoldsToZero(up, Stored(other, k));
    forall i | 0 <= i < |name| ensures Up(up, name[i]) == Up(up, other[i]) {
      assert Up(up, Stored(name, i)) == Up(up, lfn[i]) && lfn[i] == Stored(other, i);
    }
  }

  // ---------------------------------------------------------------- one item under the search

  /** The entries of the item stand in the table from p on. */
  predicate Stands(t: seq<Entry>, p: nat, it: Item)
    requires IsItem(it)
  {
    p + |Entries(it)| <= |t| && t[p..p + |Entries(it)|] == Entries(it)
  }

  /** The first m pieces of the name match. */
  predicate FirstMatch(up: Folding, lfn: LfnBuf, name: seq<Unit>, sum: Byte, m: nat)
    requires m <= Pieces(|name|) <= 20
  {
    forall ord {:trigger NameEntry(name, ord, sum)} | Pieces(|name|) - m < ord <= Pieces(|name|) :: CmpLfn(up, lfn, NameEntry(name, ord, sum))
  }

  /** The search outside any long name. */
  predicate Outside(s: Scan) { s.ord == 0xFF && s.block == NO_BLOCK }

  /** Where the search remembers a block that begins at entry p to begin, m pieces into it. */
  function BlockOf(key: Key, m: nat, p: nat): nat { if m > 0 && !key.noLfn then 32 * p else NO_BLOCK }

  /** The search inside a long name that begins at entry p: it counts down as long as all pieces match. */
  predicate Counting(up: Folding, key: Key, name: seq<Unit>, sum: Byte, m: nat, p: nat, s: Scan)
    requires m <= Pieces(|name|) <= 20
  {
    && s.block == BlockOf(key, m, p)
    && if m > 0 && !key.noLfn && FirstMatch(up, key.lfn, name, sum, m) then s.ord == Pieces(|name|) - m && s.sum == sum else s.ord == 0xFF
  }

  lemma {:induction false} PieceCounted(up: Folding, key: Key, name: seq<Unit>, sum: Byte, m: nat, p: nat, s: Scan)
    requires IsName(name) && m < Pieces(|name|) <= 20 && Counting(up, key, name, sum, m, p, s)
    ensures var o := FindStep(up, key, s, NameEntry(name, Pieces(|name|) - m, sum), 32 * (p + m));
            o.Go? && Counting(up, key, name, sum, m + 1, p, o.scan)
  {
    hide CmpLfn, FillerLast, NameEntry, FirstMatch, Pieces;
    var n := Pieces(|name|);
    var ord := n - m;
    SmallPieces(name);
    OrderByte(name, ord, sum);
    LastOrder(|name|, m);
    NextMatch(up, key.lfn, name, sum, m);
  }

  /** The first piece written is the last one of the name. */
  lemma {:induction false} LastOrder(n: nat, m: nat)
    requires m < Pieces(n)
    ensures (Pieces(n) - m) * 13 >= n <==> m == 0
  {
  }

  lemma {:induction false} NextMatch(up: Folding, lfn: LfnBuf, name: seq<Unit>, sum: Byte, m: nat)
    requires m < Pieces(|name|) <= 20
    ensures FirstMatch(up, lfn, name, sum, m + 1) <==> FirstMatch(up, lfn, name, sum, m) && CmpLfn(up, lfn, NameEntry(name, Pieces(|name|) - m, sum))
    ensures FirstMatch(up, lfn, name, sum, 0)
  {
    hide CmpLfn, NameEntry;
    var n := Pieces(|name|);
    forall ord | n - (m + 1) < ord <= n && FirstMatch(up, lfn, name, sum, m) && CmpLfn(up, lfn, NameEntry(name, n - m, sum))
      ensures CmpLfn(up, lfn, NameEntry(name, ord, sum))
    {
      if ord != n - m { assert CmpLfn(up, lfn, NameEntry(name, ord, sum)); }
    }
    if FirstMatch(up, lfn, name, sum, m + 1) {
      assert CmpLfn(up, lfn, NameEntry(name, n - m, sum));
      forall ord | n - m < ord <= n ensures CmpLfn(up, lfn, NameEntry(name, ord, sum)) {}
    }
  }

  lemma {:induction false} EntryAt(t: seq<Entry>, p: nat, it: Item, m: nat)
    requires IsItem(it) && Stands(t, p, it) && m < |Entries(it)|
    ensures p + m < |t| && t[p + m] == Entries(it)[m]
  {
    hide Entries;
    assert t[p..p + |Entries(it)|][m] == t[p + m];
  }

  /** Inside a long name the search goes on, counting. */
  lemma {:induction false} PiecesSearched(up: Folding, key: Key, t: seq<Entry>, p: nat, it: Item, m: nat)
    requires IsItem(it) && it.File? && Stands(t, p, it) && m <= PiecesOf(it) && Outside(ScanAt(up, key, t, p))
    ensures forall j {:trigger At(up, key, t, j)} | p <= j < p + m :: At(up, key, t, j).Go?
    ensures Counting(up, key, it.name, SfnSum(it.e[..11]), m, p, ScanAt(up, key, t, p + m))
  {
    hide FindStep, NameEntry, CmpLfn, Counting, FillerLast;
    var sum := SfnSum(it.e[..11]);
    if m == 0 {
      CountingStarts(up, key, it.name, sum, p, ScanAt(up, key, t, p));
    } else {
      PiecesSearched(up, key, t, p, it, m - 1);
      EntryAt(t, p, it, m - 1);
      PieceCounted(up, key, it.name, sum, m - 1, p, ScanAt(up, key, t, p + m - 1));
    }
  }

  lemma {:induction false} CountingStarts(up: Folding, key: Key, name: seq<Unit>, sum: Byte, p: nat, s: Scan)
    requires Outside(s) && Pieces(|name|) <= 20
    ensures Counting(up, key, name, sum, 0, p, s)
  {
  }

  /** The short entry of a file ends the search exactly when the file has what is asked for. */
  lemma {:induction false} ShortSearched(up: Folding, key: Key, other: seq<Unit>, it: Item, p: nat, s: Scan, ofs: nat)
    requires IsItem(it) && it.File? && AsksFor(key, other) && ZeroAlone(up)
    requires Counting(up, key, it.name, SfnSum(it.e[..11]), PiecesOf(it), p, s)
    ensures var o := FindStep(up, key, s, it.e, ofs);
            if Has(up, key, other, it) then o.Hit? && o.scan.block == BlockOf(key, PiecesOf(it), p) else o.Go? && Outside(o.scan)
  {
    hide CmpLfn, NameEntry, SfnSum, FillerLast, Attr;
    if it.name != [] && !key.noLfn { AllMatchSame(up, key.lfn, it.name, other, SfnSum(it.e[..11])); }
    hide SameName;
  }

  /** An item that is not the end marker under the search, met outside any long name. */
  lemma {:induction false} ItemSearched(up: Folding, key: Key, other: seq<Unit>, t: seq<Entry>, p: nat, it: Item)
    requires IsItem(it) && Stands(t, p, it) && Outside(ScanAt(up, key, t, p)) && it.e[0] != 0 && AsksFor(key, other) && ZeroAlone(up)
    ensures var q := p + |Entries(it)| - 1;
            && q < |t| && (forall j {:trigger At(up, key, t, j)} | p <= j < q :: At(up, key, t, j).Go?)
            && if Has(up, key, other, it) then At(up, key, t, q).Hit? && At(up, key, t, q).scan.block == BlockOf(key, PiecesOf(it), p)
               else At(up, key, t, q).Go? && Outside(ScanAt(up, key, t, q + 1))
  {
    hide Entries, Has, Counting, FindStep, IsItem, Stands, BlockOf, AsksFor, ZeroAlone;
    var n := |Entries(it)| - 1;
    EntryAt(t, p, it, n);
    if it.File? {
      PiecesSearched(up, key, t, p, it, n);
      ShortSearched(up, key, other, it, p, ScanAt(up, key, t, p + n), 32 * (p + n));
    } else {
      OtherSearched(up, key, it, ScanAt(up, key, t, p), 32 * p);
      assert !Has(up, key, other, it) by { NotFile(up, key, other, it); }
    }
  }

  lemma {:induction false} OtherSearched(up: Folding, key: Key, it: Item, s: Scan, ofs: nat)
    requires IsItem(it) && !it.File? && it.e[0] != 0
    ensures PiecesOf(it) == 0 && var o := FindStep(up, key, s, it.e, ofs); o.Go? && Outside(o.scan)
  {
    hide Attr;
  }

  lemma {:induction false} HasIsFile(up: Folding, key: Key, name: seq<Unit>, it: Item)
    requires Has(up, key, name, it)
    ensures it.File?
  {
  }

  lemma {:induction false} NotFile(up: Folding, key: Key, other: seq<Unit>, it: Item)
    requires !it.File?
    ensures !Has(up, key, other, it)
  {
  }

  // ---------------------------------------------------------------- the whole table

  /** Where item i begins. */
  function Start(items: seq<Item>, i: nat): nat
    requires AreItems(items) && i <= |items|
  {
    |Flat(items[..i])|
  }

  /** Where item i has its short entry, or its only one. */
  function Place(items: seq<Item>, i: nat): nat
    requires AreItems(items) && i < |items|
  {
    Start(items, i) + |Entries(items[i])| - 1
  }

  /** The items up to i are the front of the table. */
  lemma {:induction false} FlatFront(items: seq<Item>, i: nat)
    requires AreItems(items) && i <= |items|
    ensures Flat(items[..i]) <= Flat(items)
    ensures i < |items| ==> Flat(items[..i + 1]) == Flat(items[..i]) + Entries(items[i]) && Flat(items[..i + 1]) <= Flat(items)
    decreases |items| - i
  {
    hide Entries, IsItem;
    if i < |items| {
      FlatFront(items, i + 1);
      assert items[..i + 1][..i] == items[..i];
    } else {
      assert items[..i] == items;
    }
  }

  lemma {:induction false} ItemStands(items: seq<Item>, i: nat)
    requires AreItems(items) && i < |items|
    ensures Stands(Flat(items), Start(items, i), items[i]) && Start(items, i + 1) == Start(items, i) + |Entries(items[i])|
    ensures Place(items, i) < |Flat(items)| && Flat(items)[Place(items, i)] == items[i].e
  {
    hide Entries, IsItem, Flat;
    FlatFront(items, i);
    FlatFront(items, i + 1);
    var f, b := Flat(items[..i]), Entries(items[i]);
    assert Flat(items)[..|f + b|] == f + b;
    assert Flat(items)[|f|..|f| + |b|] == b;
    EntryAt(Flat(items), |f|, items[i], |b| - 1);
  }

  /** None of the first i items has what is asked for. */
  predicate NoneHas(up: Folding, key: Key, name: seq<Unit>, items: seq<Item>, i: nat)
    requires i <= |items|
  {
    forall j {:trigger items[j]} | 0 <= j < i :: !Has(up, key, name, items[j])
  }

  /** Item i is the first that has it. */
  predicate FirstHas(up: Folding, key: Key, name: seq<Unit>, items: seq<Item>, i: nat) {
    i < |items| && Has(up, key, name, items[i]) && NoneHas(up, key, name, items, i)
  }

  /** No end marker stands among the first i items. */
  predicate NoEnd(items: seq<Item>, i: nat)
    requires i <= |items|
  {
    forall j {:trigger items[j]} | 0 <= j < i :: items[j].e[0] != 0
  }

  lemma {:induction false} StartOrder(items: seq<Item>, j: nat, i: nat)
    requires AreItems(items) && j < i <= |items|
    ensures Place(items, j) < Start(items, j + 1) <= Start(items, i)
    decreases i
  {
    hide Entries, IsItem, Flat, Start, Place;
    ItemStands(items, i - 1);
    if j < i - 1 { StartOrder(items, j, i - 1); }
    ItemPlace(items, j);
  }

  lemma {:induction false} ItemPlace(items: seq<Item>, i: nat)
    requires AreItems(items) && i < |items|
    ensures Start(items, i) <= Place(items, i) == Start(items, i + 1) - 1 && Place(items, i) == Start(items, i) + PiecesOf(items[i])
  {
    hide Entries, IsItem, Flat, Start;
    ItemStands(items, i);
  }

  /** The search passes items that have not what is asked for, up to the end marker. */
  lemma {:induction false} PassesItems(up: Folding, key: Key, name: seq<Unit>, t: seq<Entry>, items: seq<Item>, i: nat)
    requires Made(t, items) && AsksFor(key, name) && ZeroAlone(up) && i <= |items| && NoneHas(up, key, name, items, i) && NoEnd(items, i)
    ensures Start(items, i) <= |t| && Passes(up, key, t, Start(items, i)) && Outside(ScanAt(up, key, t, Start(items, i)))
  {
    hide Entries, IsItem, Flat, Has, FindStep, Shaped, AsksFor, ZeroAlone;
    if i == 0 {
      StartZero(items);
    } else {
      PassesItems(up, key, name, t, items, i - 1);
      ItemStands(items, i - 1);
      ItemSearched(up, key, name, t, Start(items, i - 1), items[i - 1]);
    }
  }

  lemma {:induction false} StartZero(items: seq<Item>)
    requires AreItems(items)
    ensures Start(items, 0) == 0
  {
  }

  /** A search that has passed the first i items met neither what is asked for nor the end marker. */
  lemma {:induction false} PassedItems(up: Folding, key: Key, name: seq<Unit>, t: seq<Entry>, items: seq<Item>, i: nat)
    requires Made(t, items) && AsksFor(key, name) && ZeroAlone(up) && i <= |items|
    requires Start(items, i) <= |t| && Passes(up, key, t, Start(items, i))
    ensures NoneHas(up, key, name, items, i) && NoEnd(items, i)
  {
    hide Entries, IsItem, Flat, Has, FindStep, Shaped, AsksFor, ZeroAlone, Start, Place;
    if i > 0 {
      ItemStands(items, i - 1);
      ItemPlace(items, i - 1);
      PassedItems(up, key, name, t, items, i - 1);
      PassesItems(up, key, name, t, items, i - 1);
      assert At(up, key, t, Place(items, i - 1)).Go?;
      GoNotEnd(up, key, t, Place(items, i - 1));
      ItemSearched(up, key, name, t, Start(items, i - 1), items[i - 1]);
    }
  }

  lemma {:induction false} GoNotEnd(up: Folding, key: Key, t: seq<Entry>, k: nat)
    requires k < |t| && !At(up, key, t, k).End?
    ensures t[k][0] != 0
  {
  }

  /** A file's place has no end marker before it. */
  lemma {:induction false} NoEndBefore(t: seq<Entry>, items: seq<Item>, i: nat)
    requires Made(t, items) && i < |items| && items[i].File?
    ensures NoEnd(items, i)
  {
    hide Entries, Flat, Attr;
    ItemStands(items, i);
    forall j | 0 <= j < i ensures items[j].e[0] != 0 {
      ItemStands(items, j);
      StartOrder(items, j, i);
      ItemPlace(items, i);
    }
  }

  /** The item that holds entry k. */
  lemma {:induction false} ItemOf(items: seq<Item>, k: nat, n: nat) returns (i: nat)
    requires AreItems(items) && n <= |items| && k < Start(items, n)
    ensures i < n && Start(items, i) <= k <= Place(items, i)
  {
    hide Entries, IsItem, Flat, Start, Place;
    StartZero(items);
    i := n - 1;
    ItemPlace(items, i);
    if k < Start(items, i) { i := ItemOf(items, k, i); }
  }

  /** What a search finds: the short entry of the first file that has the long name asked for, up to case,
      or the short name. */
  lemma {:induction false} FoundMeans(up: Folding, key: Key, name: seq<Unit>, t: seq<Entry>, items: seq<Item>, k: nat)
    requires Made(t, items) && AsksFor(key, name) && ZeroAlone(up)
    ensures FoundAt(up, key, t, k) <==> exists i {:trigger FirstHas(up, key, name, items, i)} :: FirstHas(up, key, name, items, i) && k == Place(items, i)
  {
    hide Entries, IsItem, Flat, Has, FindStep, Shaped, AsksFor, ZeroAlone, Start, Place, Passes, NoneHas, NoEnd;
    forall i | FirstHas(up, key, name, items, i) && k == Place(items, i) ensures FoundAt(up, key, t, k) {
      HasIsFound(up, key, name, t, items, i);
    }
    if FoundAt(up, key, t, k) {
      assert items[..|items|] == items;
      StartAll(items);
      var i := ItemOf(items, k, |items|);
      FoundIsItem(up, key, name, t, items, i, k);
    }
  }

  /** Where the search says the found file's block begins: at its first piece, unless the file has no long
      name or none was looked at. */
  lemma {:induction false} FoundFile(up: Folding, key: Key, name: seq<Unit>, t: seq<Entry>, items: seq<Item>, k: nat) returns (i: nat)
    requires Made(t, items) && AsksFor(key, name) && ZeroAlone(up) && FoundAt(up, key, t, k)
    ensures FirstHas(up, key, name, items, i) && k == Place(items, i) && At(up, key, t, k).scan.block == BlockOf(key, PiecesOf(items[i]), Start(items, i))
  {
    hide Entries, IsItem, Flat, Has, FindStep, Shaped, AsksFor, ZeroAlone, Start, Place, Passes, NoneHas, NoEnd;
    StartAll(items);
    i := ItemOf(items, k, |items|);
    FoundIsItem(up, key, name, t, items, i, k);
  }

  lemma {:induction false} StartAll(items: seq<Item>)
    requires AreItems(items)
    ensures Start(items, |items|) == |Flat(items)|
  {
    assert items[..|items|] == items;
  }

  lemma {:induction false} HasIsFound(up: Folding, key: Key, name: seq<Unit>, t: seq<Entry>, items: seq<Item>, i: nat)
    requires Made(t, items) && AsksFor(key, name) && ZeroAlone(up) && FirstHas(up, key, name, items, i)
    ensures FoundAt(up, key, t, Place(items, i))
  {
    hide Entries, Flat, FindStep, Shaped, AsksFor, ZeroAlone, Start, NoneHas, NoEnd, Attr, IsFree;
    NoEndBefore(t, items, i);
    PassesItems(up, key, name, t, items, i);
    ItemStands(items, i);
    LiveShort(items[i]);
    ItemSearched(up, key, name, t, Start(items, i), items[i]);
  }

  lemma {:induction false} LiveShort(it: Item)
    requires IsItem(it) && it.File?
    ensures it.e[0] != 0
  {
  }

  lemma {:induction false} FoundIsItem(up: Folding, key: Key, name: seq<Unit>, t: seq<Entry>, items: seq<Item>, i: nat, k: nat)
    requires Made(t, items) && AsksFor(key, name) && ZeroAlone(up) && i < |items| && Start(items, i) <= k <= Place(items, i) && FoundAt(up, key, t, k)
    ensures FirstHas(up, key, name, items, i) && k == Place(items, i) && At(up, key, t, k).scan.block == BlockOf(key, PiecesOf(items[i]), Start(items, i))
  {
    hide Entries, IsItem, Flat, Has, FindStep, Shaped, AsksFor, ZeroAlone, Start, NoneHas, NoEnd;
    ItemStands(items, i);
    PassedItems(up, key, name, t, items, i);
    PassesItems(up, key, name, t, items, i);
    ItemPlace(items, i);
    if items[i].e[0] == 0 { EndIsOne(items[i]); GoNotEnd(up, key, t, k); }
    ItemSearched(up, key, name, t, Start(items, i), items[i]);
  }

  lemma {:induction false} EndIsOne(it: Item)
    requires IsItem(it) && it.e[0] == 0
    ensures PiecesOf(it) == 0 && !it.File?
  {
  }

  /** What absence means: no file has the name asked for, nor the short name. */
  lemma {:induction false} AbsentMeans(up: Folding, key: Key, name: seq<Unit>, t: seq<Entry>, items: seq<Item>)
    requires Made(t, items) && AsksFor(key, name) && ZeroAlone(up)
    ensures Absent(up, key, t) <==> NoneHas(up, key, name, items, |items|)
  {
    hide Entries, IsItem, Flat, Has, FoundAt, Shaped, AsksFor, ZeroAlone, Start, Place;
    if Absent(up, key, t) {
      forall i | 0 <= i < |items| ensures !Has(up, key, name, items[i]) { AbsentItem(up, key, name, t, items, i); }
    }
    if NoneHas(up, key, name, items, |items|) {
      forall k | 0 <= k < |t| ensures !FoundAt(up, key, t, k) { FoundMeans(up, key, name, t, items, k); }
    }
  }

  lemma {:induction false} AbsentItem(up: Folding, key: Key, name: seq<Unit>, t: seq<Entry>, items: seq<Item>, i: nat)
    requires Made(t, items) && AsksFor(key, name) && ZeroAlone(up) && Absent(up, key, t) && i < |items|
    ensures !Has(up, key, name, items[i])
  {
    hide Entries, IsItem, Flat, Has, FoundAt, Shaped, AsksFor, ZeroAlone, Start;
    forall j | 0 <= j < i ensures !Has(up, key, name, items[j]) { AbsentItem(up, key, name, t, items, j); }
    if Has(up, key, name, items[i]) {
      HasIsFound(up, key, name, t, items, i);
      ItemStands(items, i);
    }
  }

  // ---------------------------------------------------------------- one file comes or goes

  lemma {:induction false} FlatConcat(a: seq<Item>, b: seq<Item>)
    requires AreItems(a) && AreItems(b)
    ensures AreItems(a + b) && Flat(a + b) == Flat(a) + Flat(b)
  {
    hide Entries, IsItem, Flat;
    if |b| == 0 {
      assert a + b == a && Flat(b) == [] by { FlatNone(); }
    } else {
      var n := |b| - 1;
      FlatConcat(a, b[..n]);
      assert (a + b)[..|a| + n] == a + b[..n] && (a + b)[|a| + n] == b[n];
      FlatLast(a + b);
      FlatLast(b);
      assert Flat(a) + (Flat(b[..n]) + Entries(b[n])) == Flat(a) + Flat(b[..n]) + Entries(b[n]);
    }
  }

  lemma {:induction false} FlatNone()
    ensures Flat([]) == []
  {
  }

  lemma {:induction false} FlatLast(items: seq<Item>)
    requires AreItems(items) && |items| > 0
    ensures Flat(items) == Flat(items[..|items| - 1]) + Entries(items[|items| - 1])
  {
    hide Entries, IsItem;
  }

  /** Places in front of b and behind it, in a list a + x + b. */
  lemma {:induction false} PlaceParts(a: seq<Item>, x: seq<Item>, b: seq<Item>, i: nat)
    requires AreItems(a) && AreItems(x) && AreItems(b) && i < |a| + |x| + |b|
    ensures AreItems(a + x + b)
    ensures i < |a| ==> (a + x + b)[i] == a[i] && Place(a + x + b, i) == Place(a, i)
    ensures i >= |a| + |x| ==> (a + x + b)[i] == b[i - |a| - |x|] && Place(a + x + b, i) == |Flat(a)| + |Flat(x)| + Place(b, i - |a| - |x|)
  {
    hide Entries, IsItem, Flat;
    FlatConcat(a, x);
    FlatConcat(a + x, b);
    var items := a + x + b;
    if i < |a| {
      assert items[..i] == a[..i];
    } else if i >= |a| + |x| {
      var j := i - |a| - |x|;
      assert items[..i] == (a + x) + b[..j];
      FlatConcat(a + x, b[..j]);
    }
  }

  predicate NoneOf(up: Folding, key: Key, name: seq<Unit>, x: seq<Item>) { NoneHas(up, key, name, x, |x|) }

  /** The first item that has it, in a list of three parts of which the middle one has it not. */
  lemma {:induction false} FirstHasParts(up: Folding, key: Key, name: seq<Unit>, a: seq<Item>, x: seq<Item>, b: seq<Item>, i: nat)
    requires NoneOf(up, key, name, x)
    ensures i < |a| ==> (FirstHas(up, key, name, a + x + b, i) <==> FirstHas(up, key, name, a, i))
    ensures |a| <= i < |a| + |x| ==> !FirstHas(up, key, name, a + x + b, i)
    ensures i >= |a| + |x| ==> (FirstHas(up, key, name, a + x + b, i) <==> NoneOf(up, key, name, a) && FirstHas(up, key, name, b, i - |a| - |x|))
  {
    hide Has;
    var items := a + x + b;
    forall j | 0 <= j < |items| ensures items[j] == if j < |a| then a[j] else if j < |a| + |x| then x[j - |a|] else b[j - |a| - |x|] {}
    forall j | 0 <= j < |a| ensures items[j] == a[j] {}
    forall j | 0 <= j < |b| ensures items[|a| + |x| + j] == b[j] {}
    if i >= |a| + |x| && FirstHas(up, key, name, items, i) {
      forall j | 0 <= j < |a| ensures !Has(up, key, name, a[j]) { assert items[j] == a[j]; }
      forall j | 0 <= j < i - |a| - |x| ensures !Has(up, key, name, b[j]) { assert items[|a| + |x| + j] == b[j]; }
    }
  }

  /** Exchanging items that have not what is asked for, for others that have it not either, of the
      same length unless they are the last, leaves every search for it where it was. */
  lemma {:induction false} SwapKeepsFound(up: Folding, key: Key, name: seq<Unit>, t: seq<Entry>, u: seq<Entry>,
                                          a: seq<Item>, x: seq<Item>, y: seq<Item>, b: seq<Item>, k: nat)
    requires AreItems(a) && AreItems(b) && AreItems(x) && AreItems(y) && Made(t, a + x + b) && Made(u, a + y + b) && AsksFor(key, name) && ZeroAlone(up)
    requires (b != [] ==> |Flat(x)| == |Flat(y)|) && NoneOf(up, key, name, x) && NoneOf(up, key, name, y)
    ensures FoundAt(up, key, t, k) <==> FoundAt(up, key, u, k)
  {
    hide Entries, IsItem, Flat, FoundAt, Made, AsksFor, ZeroAlone, FirstHas, NoneHas, Place;
    FoundMeans(up, key, name, t, a + x + b, k) by { hide *; }
    FoundMeans(up, key, name, u, a + y + b, k) by { hide *; }
    if FoundAt(up, key, t, k) { SwapOne(up, key, name, a, x, y, b, k); }
    if FoundAt(up, key, u, k) { SwapOne(up, key, name, a, y, x, b, k); }
  }

  lemma {:induction false} SwapOne(up: Folding, key: Key, name: seq<Unit>, a: seq<Item>, x: seq<Item>, y: seq<Item>, b: seq<Item>, k: nat)
    requires AreItems(a) && AreItems(b) && AreItems(x) && AreItems(y) && AreItems(a + x + b) && AreItems(a + y + b)
    requires (b != [] ==> |Flat(x)| == |Flat(y)|) && NoneOf(up, key, name, x) && NoneOf(up, key, name, y)
    requires exists i {:trigger FirstHas(up, key, name, a + x + b, i)} :: FirstHas(up, key, name, a + x + b, i) && k == Place(a + x + b, i)
    ensures exists i {:trigger FirstHas(up, key, name, a + y + b, i)} :: FirstHas(up, key, name, a + y + b, i) && k == Place(a + y + b, i)
  {
    hide Entries, IsItem, Flat, NoneHas, Place;
    var i: nat :| FirstHas(up, key, name, a + x + b, i) && k == Place(a + x + b, i);
    hide FirstHas;
    FirstHasParts(up, key, name, a, x, b, i);
    var j := if i < |a| then i else i - |x| + |y|;
    FirstHasBound(up, key, name, a + x + b, i);
    FirstHasParts(up, key, name, a, y, b, j);
    PlaceParts(a, x, b, i);
    PlaceParts(a, y, b, j);
    assert FirstHas(up, key, name, a + y + b, j);
  }

  lemma {:induction false} FirstHasBound(up: Folding, key: Key, name: seq<Unit>, items: seq<Item>, i: nat)
    requires FirstHas(up, key, name, items, i)
    ensures i < |items|
  {
  }

  /** The entries of a run as free items. */
  function Frees(run: seq<Entry>): (x: seq<Item>)
    ensures |x| == |run| && forall m {:trigger x[m]} | 0 <= m < |x| :: x[m] == Free(run[m])
  {
    seq(|run|, m requires 0 <= m < |run| => Free(run[m]))
  }

  lemma {:induction false} FreesAre(run: seq<Entry>)
    requires forall m {:trigger run[m]} | 0 <= m < |run| :: IsFree(run[m])
    ensures AreItems(Frees(run)) && Flat(Frees(run)) == run
  {
    hide IsFree;
    if |run| > 0 {
      var n := |run| - 1;
      FreesAre(run[..n]);
      assert Frees(run)[..n] == Frees(run[..n]);
      assert run[..n] + [run[n]] == run;
    }
  }

  /** No entry of a file is free. */
  lemma {:induction false} FileLive(f: Item)
    requires IsItem(f) && f.File?
    ensures forall m {:trigger Entries(f)[m]} | 0 <= m < |Entries(f)| :: !IsFree(Entries(f)[m])
  {
    hide NameEntry, FillerLast, Attr;
    var sum := SfnSum(f.e[..11]);
    forall m | 0 <= m < |Entries(f)| ensures !IsFree(Entries(f)[m]) {
      if m < PiecesOf(f) { OrderByte(f.name, PiecesOf(f) - m, sum); }
    }
  }

  /** A free entry is an item of its own. */
  lemma {:induction false} FreeItem(t: seq<Entry>, items: seq<Item>, i: nat) returns (a: nat)
    requires Made(t, items) && i < |t| && IsFree(t[i])
    ensures a < |items| && Start(items, a) == i && items[a] == Free(t[i])
  {
    hide Entries, Start, Place, Flat, Attr, IsFree;
    StartAll(items);
    a := ItemOf(items, i, |items|);
    ItemPlace(items, a);
    ItemStands(items, a);
    var m := i - Start(items, a);
    EntryAt(t, Start(items, a), items[a], m);
    if items[a].File? { FileLive(items[a]); }
  }

  /** A run of free entries is a run of free items. */
  lemma {:induction false} FreeItems(t: seq<Entry>, items: seq<Item>, i: nat, n: nat) returns (a: nat)
    requires Made(t, items) && FreeRun(t, i, n) && n > 0
    ensures a + n <= |items| && Start(items, a) == i && forall q {:trigger items[q]} | a <= q < a + n :: items[q] == Free(t[i + q - a])
  {
    hide Entries, Start, Place, Flat, Attr, IsFree, Made;
    if n == 1 {
      a := FreeItem(t, items, i);
    } else {
      a := FreeItems(t, items, i, n - 1);
      var c := FreeItem(t, items, i + n - 1);
      MadeOf(t, items);
      StartRun(items, a, n - 1);
      SameStart(items, c, a + n - 1);
    }
  }

  lemma {:induction false} MadeOf(t: seq<Entry>, items: seq<Item>)
    requires Made(t, items)
    ensures AreItems(items)
  {
  }

  lemma {:induction false} StartRun(items: seq<Item>, a: nat, n: nat)
    requires AreItems(items) && a + n <= |items| && forall q {:trigger items[q]} | a <= q < a + n :: items[q].Free?
    ensures Start(items, a + n) == Start(items, a) + n
  {
    hide Entries, Start, Place, Flat, IsItem;
    if n > 0 {
      StartRun(items, a, n - 1);
      FreeIsOne(items[a + n - 1]);
      ItemPlace(items, a + n - 1);
    }
  }

  lemma {:induction false} FreeIsOne(it: Item)
    requires IsItem(it) && it.Free?
    ensures PiecesOf(it) == 0
  {
  }

  lemma {:induction false} SameStart(items: seq<Item>, a: nat, b: nat)
    requires AreItems(items) && a < |items| && b <= |items| && Start(items, a) == Start(items, b)
    ensures a == b
  {
    hide Entries, Start, Place, Flat, IsItem;
    if a < b { StartOrder(items, a, b); ItemPlace(items, a); }
    if b < a { StartOrder(items, b, a); ItemPlace(items, b); }
  }

  /** A table with the entries of y in place of those of x is made of the items with y for x. */
  lemma {:induction false} SwappedMade(t: seq<Entry>, u: seq<Entry>, a: seq<Item>, x: seq<Item>, y: seq<Item>, b: seq<Item>)
    requires AreItems(a) && AreItems(b) && AreItems(x) && AreItems(y) && Made(t, a + x + b) && Shaped(u) && |u| == |t| && |Flat(x)| == |Flat(y)|
    requires forall j {:trigger u[j]} | 0 <= j < |u| :: u[j] == if |Flat(a)| <= j < |Flat(a)| + |Flat(y)| && j - |Flat(a)| < |Flat(y)| then Flat(y)[j - |Flat(a)|] else t[j]
    ensures Made(u, a + y + b)
  {
    hide Entries, IsItem, Flat, Shaped;
    FlatConcat(a, x);
    FlatConcat(a + x, b);
    FlatConcat(a, y);
    FlatConcat(a + y, b);
    assert u == Flat(a) + Flat(y) + Flat(b);
  }

  /** Registering a file keeps the table made of items, and leaves every other name's search where it was. */
  lemma {:induction false} RegisteringMeans(up: Folding, t: seq<Entry>, items: seq<Item>, i: nat, f: Item) returns (a: seq<Item>, x: seq<Item>, b: seq<Item>)
    requires Made(t, items) && IsItem(f) && f.File? && FirstRun(t, i, |Entries(f)|)
    ensures AreItems(a) && AreItems(x) && AreItems(b) && items == a + x + b && |Flat(a)| == i && |x| == |Flat(x)| == |Entries(f)|
    ensures forall m {:trigger x[m]} | 0 <= m < |x| :: x[m].Free?
    ensures Made(Written(t, i, Entries(f)), a + [f] + b)
  {
    hide Entries, Flat, IsFree, Attr, Written;
    var n := |Entries(f)|;
    var c := FreeItems(t, items, i, n);
    a, x, b := items[..c], items[c..c + n], items[c + n..];
    forall m | 0 <= m < n ensures x[m] == Free(t[i + m]) { assert x[m] == items[c + m]; }
    assert items == a + x + b;
    FreesFlat(t, i, x);
    OneFlat(f);
    RunShaped(t, i, f);
    hide IsItem, Made, Shaped;
    assert |Flat(a)| == i by { StartIs(items, c); }
    SwappedMade(t, Written(t, i, Entries(f)), a, x, [f], b);
  }

  lemma {:induction false} StartIs(items: seq<Item>, c: nat)
    requires AreItems(items) && c <= |items|
    ensures Start(items, c) == |Flat(items[..c])|
  {
  }

  lemma {:induction false} FreesFlat(t: seq<Entry>, i: nat, x: seq<Item>)
    requires i + |x| <= |t| && (forall m {:trigger x[m]} | 0 <= m < |x| :: x[m] == Free(t[i + m])) && AreItems(x)
    ensures |Flat(x)| == |x|
  {
    if |x| > 0 { FreesFlat(t, i, x[..|x| - 1]); }
  }

  lemma {:induction false} OneFlat(f: Item)
    requires IsItem(f)
    ensures AreItems([f]) && Flat([f]) == Entries(f)
  {
    assert [f][..0] == [];
    assert Flat([]) == [];
  }

  lemma {:induction false} RunShaped(t: seq<Entry>, i: nat, f: Item)
    requires IsItem(f) && f.File? && Shaped(t) && FirstRun(t, i, |Entries(f)|)
    ensures Shaped(Written(t, i, Entries(f)))
  {
    hide Entries, IsFree, Written;
    FileLive(f);
    forall j | 0 <= j < i ensures t[j][0] != 0 { RunBeforeEnd(t, i, |Entries(f)|, j); }
    RegisteringKeeps(t, i, Entries(f));
  }

  lemma {:induction false} FreesHaveNot(up: Folding, key: Key, name: seq<Unit>, x: seq<Item>)
    requires forall m {:trigger x[m]} | 0 <= m < |x| :: x[m].Free?
    ensures NoneOf(up, key, name, x)
  {
  }

  /** After registering, a search for any other name stops where it did, and a name that was absent is
      found at the new short entry. */
  lemma {:induction false} RegisteringKeepsOthers(up: Folding, key: Key, name: seq<Unit>, t: seq<Entry>, items: seq<Item>, i: nat, f: Item, k: nat)
    requires Made(t, items) && IsItem(f) && f.File? && FirstRun(t, i, |Entries(f)|) && AsksFor(key, name) && ZeroAlone(up)
    ensures var u := Written(t, i, Entries(f));
            && (!Has(up, key, name, f) ==> (FoundAt(up, key, u, k) <==> FoundAt(up, key, t, k)))
            && (Has(up, key, name, f) && Absent(up, key, t) ==> FoundAt(up, key, u, i + |Entries(f)| - 1))
            && (FoundAt(up, key, t, k) ==> u[k] == t[k])
  {
    hide Entries, Flat, IsFree, FoundAt, Has, Absent, AsksFor, ZeroAlone, Attr;
    var u := Written(t, i, Entries(f));
    var a, x, b := RegisteringMeans(up, t, items, i, f);
    FreesHaveNot(up, key, name, x);
    OneFlat(f);
    if !Has(up, key, name, f) {
      SwapKeepsFound(up, key, name, t, u, a, x, [f], b, k);
    } else if Absent(up, key, t) {
      AbsentMeans(up, key, name, t, items);
      assert (a + [f] + b)[|a|] == f;
      forall j | 0 <= j < |a| ensures !Has(up, key, name, (a + [f] + b)[j]) { assert items[j] == a[j]; }
      HasIsFound(up, key, name, u, a + [f] + b, |a|);
      assert (a + [f] + b)[..|a|] == a;
    }
    if FoundAt(up, key, t, k) { FoundLive(up, key, t, k); }
    hide Written;
  }

  lemma {:induction false} FoundLive(up: Folding, key: Key, t: seq<Entry>, k: nat)
    requires FoundAt(up, key, t, k)
    ensures k < |t| && !IsFree(t[k])
  {
    hide SfnSum, Attr;
  }

  /** The table is made of the items a, of n others and of the items b. */
  ghost predicate MadeWithout(t: seq<Entry>, a: seq<Item>, n: nat, b: seq<Item>) {
    exists x {:trigger Made(t, a + x + b)} :: AreItems(x) && |x| == n && Made(t, a + x + b)
  }

  lemma {:induction false} Without(t: seq<Entry>, a: seq<Item>, x: seq<Item>, b: seq<Item>)
    requires AreItems(x) && Made(t, a + x + b)
    ensures MadeWithout(t, a, |x|, b)
  {
    hide AreItems, Made;
  }

  /** Removing a file keeps the table made of items, with every other name's search where it was. */
  lemma {:induction false} RemovingKeepsOthers(up: Folding, key: Key, name: seq<Unit>, t: seq<Entry>, a: seq<Item>, f: Item, b: seq<Item>, k: nat)
    requires AreItems(a) && AreItems(b) && Made(t, a + [f] + b) && IsItem(f) && f.File? && AsksFor(key, name) && ZeroAlone(up)
    ensures var i := |Flat(a)|; i + |Entries(f)| <= |t|
    ensures var w := Erased(t, |Flat(a)|, |Flat(a)| + |Entries(f)| - 1);
            && MadeWithout(w, a, |Entries(f)|, b)
            && (!Has(up, key, name, f) ==> (FoundAt(up, key, w, k) <==> FoundAt(up, key, t, k)))
            && (NoneOf(up, key, name, a + b) ==> Absent(up, key, w))
  {
    hide Entries, Flat, FoundAt, Has, Absent, AsksFor, ZeroAlone, Attr, SfnSum, MadeWithout;
    OneFlat(f);
    FlatConcat(a, [f]);
    FlatConcat(a + [f], b);
    var i, n := |Flat(a)|, |Entries(f)|;
    var w := Erased(t, i, i + n - 1);
    var run := w[i..i + n];
    var x := Frees(run);
    EraseShaped(t, i, f);
    FreesAre(run);
    hide IsItem, IsFree;
    SwappedMade(t, w, a, [f], x, b);
    FreesHaveNot(up, key, name, x);
    if !Has(up, key, name, f) { SwapKeepsFound(up, key, name, t, w, a, [f], x, b, k); }
    if NoneOf(up, key, name, a + b) {
      AbsentMeans(up, key, name, w, a + x + b);
      NoneParts(up, key, name, a, x, b);
    }
    Without(w, a, x, b);
    hide Erased;
  }

  lemma {:induction false} NoneParts(up: Folding, key: Key, name: seq<Unit>, a: seq<Item>, x: seq<Item>, b: seq<Item>)
    requires NoneOf(up, key, name, a + b) && NoneOf(up, key, name, x)
    ensures NoneOf(up, key, name, a + x + b)
  {
    hide Has;
    forall j | 0 <= j < |a + x + b| ensures !Has(up, key, name, (a + x + b)[j]) {
      if j < |a| { assert (a + b)[j] == a[j]; }
      if j >= |a| + |x| { assert (a + b)[j - |x|] == b[j - |a| - |x|]; }
    }
  }

  lemma {:induction false} EraseShaped(t: seq<Entry>, i: nat, f: Item)
    requires IsItem(f) && f.File? && Shaped(t) && i + |Entries(f)| <= |t| && t[i..i + |Entries(f)|] == Entries(f)
    ensures Shaped(Erased(t, i, i + |Entries(f)| - 1))
    ensures forall j {:trigger Erased(t, i, i + |Entries(f)| - 1)[j]} | i <= j < i + |Entries(f)| :: IsFree(Erased(t, i, i + |Entries(f)| - 1)[j])
  {
    hide Entries, Attr;
    FileLive(f);
    var w := Erased(t, i, i + |Entries(f)| - 1);
    forall j | i <= j < i + |Entries(f)| ensures t[j][0] != 0 && w[j][0] == DELETED { assert t[j] == t[i..i + |Entries(f)|][j - i]; }
    forall j, k | 0 <= j < k < |w| && w[j][0] == 0 ensures IsFree(w[k]) {
      assert w[j] == t[j];
    }
  }
}
