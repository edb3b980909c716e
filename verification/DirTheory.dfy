/** A directory as a flat table of entries: how it is searched and read entry by entry, and what
    registering and removing a name do to it. */
module DirTheory {
  import opened Arith
  import opened LfnTheory

  type ShortName = b: seq<Byte> | |b| == 11 witness seq(11, _ => 0x20)

  const NO_BLOCK: nat := 0xFFFF_FFFF

  /** What a search looks for: the long name in the working buffer and the short name with its status. */
  datatype Key = Key(lfn: LfnBuf, fn: ShortName, loss: bool, noLfn: bool)

  /** The state a search or a read carries from entry to entry. */
  datatype Scan = Scan(ord: nat, sum: nat, block: nat)

  datatype Outcome = End | Hit(scan: Scan) | Go(scan: Scan)

  const FRESH: Scan := Scan(0xFF, 0xFF, NO_BLOCK)

  predicate IsFree(e: Entry) { e[0] == 0 || e[0] == DELETED }

  predicate IsVolume(a: nat) { a / 8 % 2 == 1 && a != ATTR_LONG }

  // ---------------------------------------------------------------- searching

  /** What dir_find does with the entry at offset ofs. */
  function FindStep(up: Folding, key: Key, s: Scan, e: Entry, ofs: nat): Outcome {
    var a := Attr(e);
    if e[0] == 0 then End
    else if e[0] == DELETED || IsVolume(a) then Go(Scan(0xFF, s.sum, NO_BLOCK))
    else if a == ATTR_LONG then Go(if key.noLfn then s else FindLong(up, key, s, e, ofs))
    else if s.ord == 0 && s.sum == SfnSum(e[..11]) then Hit(s)
    else if !key.loss && e[..11] == key.fn then Hit(s)
    else Go(Scan(0xFF, s.sum, NO_BLOCK))
  }

  /** An entry of a long name continues, restarts or breaks the sequence. */
  function FindLong(up: Folding, key: Key, s: Scan, e: Entry, ofs: nat): Scan {
    var c := WithoutLast(Order(e));
    var t := if HasLast(Order(e)) then Scan(c, e[13], ofs) else s;
    t.(ord := if c == t.ord && t.sum == e[13] && c > 0 && CmpLfn(up, key.lfn, e) then t.ord - 1 else 0xFF)
  }

  /** The state before entry k, when the search has come that far. */
  function ScanAt(up: Folding, key: Key, t: seq<Entry>, k: nat): Scan
    requires k <= |t|
  {
    if k == 0 then FRESH
    else
      var o := FindStep(up, key, ScanAt(up, key, t, k - 1), t[k - 1], 32 * (k - 1));
      if o.Go? then o.scan else FRESH
  }

  function At(up: Folding, key: Key, t: seq<Entry>, k: nat): Outcome
    requires k < |t|
  {
    FindStep(up, key, ScanAt(up, key, t, k), t[k], 32 * k)
  }

  /** The search passes the first k entries. */
  predicate Passes(up: Folding, key: Key, t: seq<Entry>, k: nat)
    requires k <= |t|
  {
    forall j {:trigger At(up, key, t, j)} | 0 <= j < k :: At(up, key, t, j).Go?
  }

  /** The search stops at entry k with a match. */
  predicate FoundAt(up: Folding, key: Key, t: seq<Entry>, k: nat) {
    k < |t| && Passes(up, key, t, k) && At(up, key, t, k).Hit?
  }

  predicate Absent(up: Folding, key: Key, t: seq<Entry>) {
    forall k {:trigger FoundAt(up, key, t, k)} | 0 <= k < |t| :: !FoundAt(up, key, t, k)
  }

  // ---------------------------------------------------------------- reading

  /** The attributes of a volume label, archived or not. */
  predicate IsLabel(a: nat) { a == ATTR_VOLUME || a == ATTR_VOLUME + 0x20 }

  datatype Reader = Reader(scan: Scan, lfn: LfnBuf)

  datatype ReadOutcome = ReadEnd | ReadHit(r: Reader) | ReadGo(r: Reader)

  /** What dir_read does with the entry at offset ofs. */
  function ReadStep(r: Reader, e: Entry, ofs: nat): ReadOutcome {
    var a := Attr(e);
    if e[0] == 0 then ReadEnd
    else if e[0] == DELETED || e[0] == 0x2E || IsLabel(a) then ReadGo(r.(scan := r.scan.(ord := 0xFF)))
    else if a == ATTR_LONG then ReadGo(ReadLong(r, e, ofs))
    else if r.scan.ord != 0 || r.scan.sum != SfnSum(e[..11]) then ReadHit(r.(scan := r.scan.(block := NO_BLOCK)))
    else ReadHit(r)
  }

  function ReadLong(r: Reader, e: Entry, ofs: nat): Reader {
    var c := WithoutLast(Order(e));
    var t := if HasLast(Order(e)) then Scan(c, e[13], ofs) else r.scan;
    if c == t.ord && t.sum == e[13] then
      var (b, ok) := PickLfn(r.lfn, e);
      Reader(t.(ord := if ok && c > 0 then t.ord - 1 else 0xFF), b)
    else Reader(t.(ord := 0xFF), r.lfn)
  }

  /** The state before entry k of a read that began at entry first with r. */
  function ReadAt(r: Reader, t: seq<Entry>, first: nat, k: nat): Reader
    requires first <= k <= |t|
  {
    if k == first then r
    else
      var o := ReadStep(ReadAt(r, t, first, k - 1), t[k - 1], 32 * (k - 1));
      if o.ReadGo? then o.r else r
  }

  function ReadOf(r: Reader, t: seq<Entry>, first: nat, k: nat): ReadOutcome
    requires first <= k < |t|
  {
    ReadStep(ReadAt(r, t, first, k), t[k], 32 * k)
  }

  predicate ReadPasses(r: Reader, t: seq<Entry>, first: nat, k: nat)
    requires first <= k <= |t|
  {
    forall j {:trigger ReadOf(r, t, first, j)} | first <= j < k :: ReadOf(r, t, first, j).ReadGo?
  }

  predicate ReadFoundAt(r: Reader, t: seq<Entry>, first: nat, k: nat) {
    first <= k < |t| && ReadPasses(r, t, first, k) && ReadOf(r, t, first, k).ReadHit?
  }

  // ---------------------------------------------------------------- registering

  /** n entries from i on are free. */
  predicate FreeRun(t: seq<Entry>, i: nat, n: nat) {
    i + n <= |t| && forall j {:trigger t[j]} | i <= j < i + n :: IsFree(t[j])
  }

  /** i is the first place with n free entries in a row. */
  predicate FirstRun(t: seq<Entry>, i: nat, n: nat) {
    FreeRun(t, i, n) && forall j {:trigger FreeRun(t, j, n)} | 0 <= j < i :: !FreeRun(t, j, n)
  }

  /** Nothing is in use behind the end marker. */
  predicate Shaped(t: seq<Entry>) {
    forall j, k {:trigger t[j], t[k]} | 0 <= j < k < |t| && t[j][0] == 0 :: IsFree(t[k])
  }

  /** The short entry dir_register writes: the name and the case flags, all else zero. */
  function ShortEntry(fn: ShortName, flags: Byte): (e: Entry)
    ensures e[..11] == fn && Attr(e) == 0 && e[12] == flags && e[0] == fn[0]
  {
    fn + [0, flags] + seq(19, _ => 0)
  }

  /** The entries of a name: the pieces of the long name, last one first, and the short entry. */
  function Block(name: seq<Unit>, pieces: nat, fn: ShortName, flags: Byte): (b: seq<Entry>)
    requires pieces <= 20
    ensures |b| == pieces + 1 && b[pieces] == ShortEntry(fn, flags)
    ensures forall m {:trigger b[m]} | 0 <= m < pieces :: b[m] == NameEntry(name, pieces - m, SfnSum(fn))
  {
    seq<Entry>(pieces, m requires 0 <= m < pieces => NameEntry(name, pieces - m, SfnSum(fn))) + [ShortEntry(fn, flags)]
  }

  /** Table t with b written from entry i on. */
  function Written(t: seq<Entry>, i: nat, b: seq<Entry>): (r: seq<Entry>)
    requires i + |b| <= |t|
    ensures |r| == |t|
    ensures forall j {:trigger r[j]} | 0 <= j < |t| :: r[j] == if i <= j < i + |b| then b[j - i] else t[j]
  {
    t[..i] + b + t[i + |b|..]
  }

  /** Before the first free run nothing marks the end of the table. */
  lemma {:induction false} RunBeforeEnd(t: seq<Entry>, i: nat, n: nat, j: nat)
    requires Shaped(t) && FirstRun(t, i, n) && j < i && n > 0
    ensures t[j][0] != 0
  {
    if t[j][0] == 0 {
      assert FreeRun(t, j, n);
    }
  }

  lemma {:induction false} ScanSame(up: Folding, key: Key, t: seq<Entry>, u: seq<Entry>, k: nat)
    requires k <= |t| && k <= |u| && t[..k] == u[..k]
    ensures ScanAt(up, key, t, k) == ScanAt(up, key, u, k)
  {
    if k > 0 {
      assert t[..k - 1] == t[..k][..k - 1] && u[..k - 1] == u[..k][..k - 1];
      assert t[k - 1] == t[..k][k - 1] && u[k - 1] == u[..k][k - 1];
      ScanSame(up, key, t, u, k - 1);
    }
  }

  /** The search of a name that is absent passes every entry before the first that ends the table. */
  lemma {:induction false} AbsentPasses(up: Folding, key: Key, t: seq<Entry>, k: nat)
    requires Absent(up, key, t) && k <= |t| && forall j {:trigger t[j]} | 0 <= j < k :: t[j][0] != 0
    ensures Passes(up, key, t, k)
  {
    if k > 0 {
      AbsentPasses(up, key, t, k - 1);
      assert t[k - 1][0] != 0 && !FoundAt(up, key, t, k - 1);
    }
  }

  /** Writing into the first free run leaves the search before it as it was. */
  lemma {:induction false} PassesBefore(up: Folding, key: Key, t: seq<Entry>, i: nat, b: seq<Entry>)
    requires Shaped(t) && |b| > 0 && FirstRun(t, i, |b|) && Absent(up, key, t)
    ensures Passes(up, key, Written(t, i, b), i)
  {
    var u := Written(t, i, b);
    forall j | 0 <= j < i ensures t[j][0] != 0 { RunBeforeEnd(t, i, |b|, j); }
    AbsentPasses(up, key, t, i);
    forall j | 0 <= j < i ensures At(up, key, u, j).Go? {
      assert t[..j] == u[..j];
      ScanSame(up, key, t, u, j);
      assert At(up, key, t, j).Go?;
    }
  }

  /** A short name that can stand in an entry. */
  predicate Storable(fn: ShortName) { fn[0] != 0 && fn[0] != DELETED }

  /** A name is registered under key: with its long form, or as a short name only. */
  ghost predicate Registers(up: Folding, key: Key, name: seq<Unit>, pieces: nat, fn: ShortName) {
    && Storable(fn)
    && if pieces == 0 then !key.loss && key.fn == fn
       else !key.noLfn && IsName(name) && pieces == Pieces(|name|) && exists other {:trigger HoldsName(key.lfn, other)} ::
              HoldsName(key.lfn, other) && SameName(up, name, other)
  }

  /** Inside the block the search counts the pieces down. */
  lemma {:induction false} BlockScan(up: Folding, key: Key, t: seq<Entry>, i: nat, name: seq<Unit>, pieces: nat, fn: ShortName, flags: Byte, m: nat)
    requires 0 < pieces && Registers(up, key, name, pieces, fn) && pieces <= 20 && i + pieces + 1 <= |t| && 0 < m <= pieces
    requires Passes(up, key, t, i) && forall j {:trigger t[j]} | i <= j < i + pieces + 1 :: t[j] == Block(name, pieces, fn, flags)[j - i]
    ensures Passes(up, key, t, i + m) && ScanAt(up, key, t, i + m) == Scan(pieces - m, SfnSum(fn), 32 * i)
  {
    hide NameEntry, CmpLfn, HasLast, WithoutLast, IsName, HoldsName, SameName, SfnSum;
    if m > 1 { BlockScan(up, key, t, i, name, pieces, fn, flags, m - 1); }
    var ord, sum := pieces - (m - 1), SfnSum(fn);
    var e := t[i + m - 1];
    assert e == NameEntry(name, ord, sum);
    var other :| HoldsName(key.lfn, other) && SameName(up, name, other);
    PieceStep(up, key, name, other, ord, sum);
    assert At(up, key, t, i + m - 1).Go?;
  }

  /** One piece of the name, met in turn. */
  lemma {:induction false} PieceStep(up: Folding, key: Key, name: seq<Unit>, other: seq<Unit>, ord: nat, sum: Byte)
    requires IsName(name) && 1 <= ord <= Pieces(|name|) && HoldsName(key.lfn, other) && SameName(up, name, other) && !key.noLfn
    ensures ord <= 20
    ensures forall s: Scan, ofs: nat {:trigger FindStep(up, key, s, NameEntry(name, ord, sum), ofs)} ::
              (ord == Pieces(|name|) || (s.ord == ord && s.sum == sum)) ==>
                FindStep(up, key, s, NameEntry(name, ord, sum), ofs)
                == Go(Scan(ord - 1, sum, if ord == Pieces(|name|) then ofs else s.block))
  {
    WrittenMatches(up, key.lfn, name, other, ord, sum);
    OrderByte(name, ord, sum);
    hide NameEntry, CmpLfn, HasLast, WithoutLast, IsName, HoldsName, SameName;
  }

  /** A registered name is found: the search stops at the new short entry and knows where its block starts. */
  lemma {:induction false} RegisteredIsFound(up: Folding, key: Key, t: seq<Entry>, i: nat, name: seq<Unit>, pieces: nat, fn: ShortName, flags: Byte)
    requires pieces <= 20 && Registers(up, key, name, pieces, fn) && Shaped(t) && FirstRun(t, i, pieces + 1) && Absent(up, key, t)
    ensures var u := Written(t, i, Block(name, pieces, fn, flags));
            FoundAt(up, key, u, i + pieces) && (pieces > 0 ==> At(up, key, u, i + pieces).scan.block == 32 * i)
  {
    hide NameEntry, FindLong, IsName, SameName, SfnSum;
    var b := Block(name, pieces, fn, flags);
    var u := Written(t, i, b);
    PassesBefore(up, key, t, i, b);
    if pieces > 0 { BlockScan(up, key, u, i, name, pieces, fn, flags, pieces); }
    assert u[i + pieces] == b[pieces];
  }

  /** Registering writes only into free entries and keeps the rest, the shape included. */
  lemma {:induction false} RegisteringKeeps(t: seq<Entry>, i: nat, b: seq<Entry>)
    requires Shaped(t) && FreeRun(t, i, |b|) && forall m {:trigger b[m]} | 0 <= m < |b| :: !IsFree(b[m])
    ensures forall j {:trigger t[j]} | 0 <= j < |t| && !IsFree(t[j]) :: Written(t, i, b)[j] == t[j]
    requires forall j {:trigger t[j]} | 0 <= j < i :: t[j][0] != 0
    ensures Shaped(Written(t, i, b))
  {
    var u := Written(t, i, b);
    forall j, k | 0 <= j < k < |u| && u[j][0] == 0 ensures IsFree(u[k]) {
      assert j >= i + |b| && u[j] == t[j] && u[k] == t[k];
    }
  }

  lemma {:induction false} BlockUsed(name: seq<Unit>, pieces: nat, fn: ShortName, flags: Byte)
    requires pieces <= 20 && Storable(fn)
    ensures forall m {:trigger Block(name, pieces, fn, flags)[m]} | 0 <= m <= pieces :: !IsFree(Block(name, pieces, fn, flags)[m])
  {
    hide NameEntry;
    var b := Block(name, pieces, fn, flags);
    forall m | 0 <= m <= pieces ensures !IsFree(b[m]) {
      if m < pieces { OrderByte(name, pieces - m, SfnSum(fn)); }
    }
  }

  // ---------------------------------------------------------------- reading a registered name back

  /** One piece of the name, met in turn by a read. */
  lemma {:induction false} PieceRead(r: Reader, name: seq<Unit>, ord: nat, sum: Byte, ofs: nat)
    requires IsName(name) && 1 <= ord <= Pieces(|name|)
    requires ord < Pieces(|name|) ==> r.scan.ord == ord && r.scan.sum == sum && HoldsFrom(r.lfn, name, ord * 13)
    ensures ord <= 20
    ensures var o := ReadStep(r, NameEntry(name, ord, sum), ofs);
            && o.ReadGo? && o.r.scan == Scan(ord - 1, sum, if ord == Pieces(|name|) then ofs else r.scan.block)
            && HoldsFrom(o.r.lfn, name, (ord - 1) * 13)
  {
    hide HoldsFrom, HasLast, WithoutLast, IsText, FillerLast, PickLfn, NameEntry;
    assert ord <= 20 by { SmallPieces(name); }
    PickWritten(r.lfn, name, ord, sum);
    OrderByte(name, ord, sum);
    NotDot(name, ord, sum);
  }

  lemma {:induction false} SmallPieces(name: seq<Unit>)
    requires IsText(name)
    ensures 1 <= Pieces(|name|) <= 20
  {
  }

  lemma {:induction false} NotDot(name: seq<Unit>, ord: nat, sum: Byte)
    requires 1 <= ord <= 20
    ensures NameEntry(name, ord, sum)[0] != 0x2E
  {
  }

  lemma {:induction false} BlockRead(r: Reader, t: seq<Entry>, first: nat, i: nat, name: seq<Unit>, fn: ShortName, flags: Byte, m: nat)
    requires IsName(name) && Pieces(|name|) <= 20 && i + Pieces(|name|) + 1 <= |t| && 0 < m <= Pieces(|name|) && first <= i
    requires ReadPasses(r, t, first, i)
    requires forall j {:trigger t[j]} | i <= j < i + Pieces(|name|) + 1 :: t[j] == Block(name, Pieces(|name|), fn, flags)[j - i]
    ensures ReadPasses(r, t, first, i + m)
    ensures var s := ReadAt(r, t, first, i + m);
            s.scan == Scan(Pieces(|name|) - m, SfnSum(fn), 32 * i) && HoldsFrom(s.lfn, name, (Pieces(|name|) - m) * 13)
  {
    hide NameEntry, PickLfn, HasLast, WithoutLast, IsName, HoldsFrom, SfnSum;
    if m > 1 { BlockRead(r, t, first, i, name, fn, flags, m - 1); }
    var ord := Pieces(|name|) - (m - 1);
    assert t[i + m - 1] == NameEntry(name, ord, SfnSum(fn));
    PieceRead(ReadAt(r, t, first, i + m - 1), name, ord, SfnSum(fn), 32 * (i + m - 1));
    assert ReadOf(r, t, first, i + m - 1).ReadGo?;
  }

  /** A read that reaches the block of a registered name stops at its short entry with exactly the name. */
  lemma {:induction false} RegisteredIsRead(r: Reader, t: seq<Entry>, first: nat, i: nat, name: seq<Unit>, fn: ShortName, flags: Byte)
    requires IsName(name) && Storable(fn) && fn[0] != 0x2E && first <= i && FreeRun(t, i, Pieces(|name|) + 1) && Pieces(|name|) <= 20
    requires ReadPasses(r, Written(t, i, Block(name, Pieces(|name|), fn, flags)), first, i)
    ensures var u, p := Written(t, i, Block(name, Pieces(|name|), fn, flags)), Pieces(|name|);
            && ReadFoundAt(r, u, first, i + p)
            && var s := ReadOf(r, u, first, i + p).r; HoldsName(s.lfn, name) && s.scan.block == 32 * i
  {
    hide NameEntry, ReadLong, SfnSum, HoldsFrom, HoldsName, IsLabel, ShortEntry;
    var p := Pieces(|name|);
    var b := Block(name, p, fn, flags);
    var u := Written(t, i, b);
    BlockRead(r, u, first, i, name, fn, flags, p);
    assert u[i + p] == b[p];
    HoldsWhole(ReadAt(r, u, first, i + p).lfn, name);
    ReadShort(ReadAt(r, u, first, i + p), fn, flags, 32 * (i + p));
  }

  /** A read whose sequence is complete stops at the short entry it belongs to. */
  lemma {:induction false} ReadShort(r: Reader, fn: ShortName, flags: Byte, ofs: nat)
    requires Storable(fn) && fn[0] != 0x2E && r.scan.ord == 0 && r.scan.sum == SfnSum(fn)
    ensures ReadStep(r, ShortEntry(fn, flags), ofs) == ReadHit(r)
  {
  }

  lemma {:induction false} HoldsWhole(b: LfnBuf, name: seq<Unit>)
    requires HoldsFrom(b, name, 0) && IsName(name)
    ensures HoldsName(b, name)
  {
    assert b[|name|] == Stored(name, |name|);
    forall j | 0 <= j < |name| ensures b[j] == name[j] { assert b[j] == Stored(name, j); }
  }

  // ---------------------------------------------------------------- removing

  /** Entries from..to marked deleted. */
  function Erased(t: seq<Entry>, from: nat, to: nat): (r: seq<Entry>)
    requires from <= to < |t|
    ensures |r| == |t|
    ensures forall j {:trigger r[j]} | 0 <= j < |t| :: r[j] == if from <= j <= to then t[j][0 := DELETED] else t[j]
  {
    seq<Entry>(|t|, j requires 0 <= j < |t| => if from <= j <= to then t[j][0 := DELETED] else t[j])
  }

  /** The search of t and of u behind entry k, given that it is in an equivalent state there. */
  lemma {:induction false} AbsentFrom(up: Folding, key: Key, t: seq<Entry>, u: seq<Entry>, k: nat, l: nat)
    requires |t| == |u| && k <= l < |t| && (forall j {:trigger t[j]} | k <= j < |t| :: u[j] == t[j])
    requires Absent(up, key, t) && Passes(up, key, t, k) && Passes(up, key, u, l) && ScanAt(up, key, t, k) == ScanAt(up, key, u, k)
    ensures Passes(up, key, t, l) && ScanAt(up, key, t, l) == ScanAt(up, key, u, l) && !FoundAt(up, key, u, l)
    decreases l
  {
    hide FindStep;
    if l > k {
      AbsentFrom(up, key, t, u, k, l - 1);
      assert At(up, key, u, l - 1).Go? && At(up, key, t, l - 1) == At(up, key, u, l - 1);
    }
    assert !FoundAt(up, key, t, l) && At(up, key, t, l) == At(up, key, u, l);
  }

  /** Deleted entries leave a search with nothing but its last checksum. */
  lemma {:induction false} DeletedScan(up: Folding, key: Key, t: seq<Entry>, i: nat, m: nat)
    requires 0 < m && i + m <= |t| && Passes(up, key, t, i) && forall j {:trigger t[j]} | i <= j < i + m :: t[j][0] == DELETED
    ensures Passes(up, key, t, i + m) && ScanAt(up, key, t, i + m) == Scan(0xFF, ScanAt(up, key, t, i).sum, NO_BLOCK)
  {
    if m > 1 { DeletedScan(up, key, t, i, m - 1); }
    assert t[i + m - 1][0] == DELETED && At(up, key, t, i + m - 1).Go?;
  }

  /** w is t with n free entries from i on marked deleted. */
  predicate Reclaimed(t: seq<Entry>, i: nat, n: nat, w: seq<Entry>) {
    && FreeRun(t, i, n) && |w| == |t|
    && forall j {:trigger w[j]} {:trigger t[j]} | 0 <= j < |t| :: if i <= j < i + n then w[j][0] == DELETED else w[j] == t[j]
  }

  /** Deleting again what was registered undoes it: the same entries are free, the others untouched. */
  lemma {:induction false} RemovalReclaims(t: seq<Entry>, i: nat, b: seq<Entry>)
    requires |b| > 0 && FreeRun(t, i, |b|)
    ensures Reclaimed(t, i, |b|, Erased(Written(t, i, b), i, i + |b| - 1))
  {
  }

  /** After that the name is absent again. */
  lemma {:induction false} ReclaimedIsAbsent(up: Folding, key: Key, t: seq<Entry>, i: nat, n: nat, w: seq<Entry>)
    requires n > 0 && Shaped(t) && FirstRun(t, i, n) && Absent(up, key, t) && Reclaimed(t, i, n, w)
    ensures Absent(up, key, w) && Shaped(w) && forall j {:trigger w[j]} | 0 <= j < |t| :: IsFree(w[j]) <==> IsFree(t[j])
  {
    forall k | 0 <= k < |w| ensures !FoundAt(up, key, w, k) { ReclaimedNotFound(up, key, t, i, n, w, k); }
    forall j, k | 0 <= j < k < |w| && w[j][0] == 0 ensures IsFree(w[k]) { assert t[j][0] == 0 && IsFree(t[k]); }
  }

  lemma {:induction false} ReclaimedNotFound(up: Folding, key: Key, t: seq<Entry>, i: nat, n: nat, w: seq<Entry>, k: nat)
    requires n > 0 && Shaped(t) && FirstRun(t, i, n) && Absent(up, key, t) && Reclaimed(t, i, n, w) && k < |t|
    ensures !FoundAt(up, key, w, k)
  {
    if k < i {
      assert t[..k] == w[..k] && w[k] == t[k];
      ScanSame(up, key, t, w, k);
      if Passes(up, key, w, k) {
        forall j | 0 <= j < k ensures At(up, key, t, j).Go? {
          assert t[..j] == w[..j] && w[j] == t[j] && At(up, key, w, j).Go?;
          ScanSame(up, key, t, w, j);
        }
        assert !FoundAt(up, key, t, k);
      }
    } else if k < i + n || (exists j {:trigger t[j]} :: i <= j < i + n && t[j][0] == 0) {
      if k >= i + n {
        var j :| i <= j < i + n && t[j][0] == 0;
        assert IsFree(t[k]) && w[k] == t[k];
      }
      assert IsFree(w[k]);
    } else if Passes(up, key, w, k) {
      ReclaimedBehind(up, key, t, i, n, w, k);
    }
  }

  lemma {:induction false} ReclaimedBehind(up: Folding, key: Key, t: seq<Entry>, i: nat, n: nat, w: seq<Entry>, k: nat)
    requires n > 0 && Shaped(t) && FirstRun(t, i, n) && Absent(up, key, t) && Reclaimed(t, i, n, w) && i + n <= k < |t|
    requires Passes(up, key, w, k) && forall j {:trigger t[j]} | i <= j < i + n :: t[j][0] == DELETED
    ensures !FoundAt(up, key, w, k)
  {
    hide FindStep;
    forall j | 0 <= j < i + n ensures t[j][0] != 0 { if j < i { RunBeforeEnd(t, i, n, j); } }
    AbsentPasses(up, key, t, i + n);
    DeletedScan(up, key, t, i, n);
    forall j | i <= j < i + n ensures w[j][0] == DELETED { assert t[j][0] == DELETED; }
    DeletedScan(up, key, w, i, n);
    assert t[..i] == w[..i] by { forall j | 0 <= j < i ensures t[j] == w[j] { assert i <= |t|; } }
    ScanSame(up, key, t, w, i);
    AbsentFrom(up, key, t, w, i + n, k);
  }

  // ---------------------------------------------------------------- the loops of search and read

  lemma {:induction false} FindGo(up: Folding, key: Key, t: seq<Entry>, j: nat)
    requires j < |t| && Passes(up, key, t, j) && At(up, key, t, j).Go?
    ensures Passes(up, key, t, j + 1) && ScanAt(up, key, t, j + 1) == At(up, key, t, j).scan
  {
    hide FindStep;
  }

  /** A search that passes everything, or everything up to the end marker, finds nothing. */
  lemma {:induction false} FindNone(up: Folding, key: Key, t: seq<Entry>, j: nat)
    requires j <= |t| && Passes(up, key, t, j) && (j == |t| || At(up, key, t, j).End?)
    ensures Absent(up, key, t)
  {
    hide FindStep;
    forall k | 0 <= k < |t| ensures !FoundAt(up, key, t, k) {
      if k < j { assert At(up, key, t, k).Go?; } else if k > j { assert !At(up, key, t, j).Go?; }
    }
  }

  lemma {:induction false} ReadGoOn(r: Reader, t: seq<Entry>, first: nat, j: nat)
    requires first <= j < |t| && ReadPasses(r, t, first, j) && ReadOf(r, t, first, j).ReadGo?
    ensures ReadPasses(r, t, first, j + 1) && ReadAt(r, t, first, j + 1) == ReadOf(r, t, first, j).r
  {
    hide ReadStep;
  }

  /** Nothing is left to read from entry first on. */
  predicate NoMore(r: Reader, t: seq<Entry>, first: nat) {
    forall k {:trigger ReadFoundAt(r, t, first, k)} | first <= k < |t| :: !ReadFoundAt(r, t, first, k)
  }

  lemma {:induction false} ReadNone(r: Reader, t: seq<Entry>, first: nat, j: nat)
    requires first <= j <= |t| && ReadPasses(r, t, first, j) && (j == |t| || ReadOf(r, t, first, j).ReadEnd?)
    ensures NoMore(r, t, first)
  {
    hide ReadStep;
    forall k | first <= k < |t| ensures !ReadFoundAt(r, t, first, k) {
      if k < j { assert ReadOf(r, t, first, k).ReadGo?; } else if k > j { assert !ReadOf(r, t, first, j).ReadGo?; }
    }
  }
}
