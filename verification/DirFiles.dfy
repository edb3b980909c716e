/** A directory on disk as a list of files: what searching, registering and removing mean for it. */
module DirFiles {
  import opened Arith
  import opened Volume
  import opened Clusters
  import opened LfnTheory
  import opened DirTheory
  import opened DirPlaceTheory
  import opened DirSteps
  import M = DirMeaning

  /** The file that registering a name makes: with its long form when it was asked for. */
  function Registered(name: seq<Unit>, pieces: nat, fn: ShortName, flags: Byte): M.Item {
    M.File(if pieces > 0 then name else [], ShortEntry(fn, flags))
  }

  /** The block dir_register writes is that file's entries. */
  lemma {:induction false} BlockIsFile(name: seq<Unit>, pieces: nat, fn: ShortName, flags: Byte)
    requires IsName(name) && (pieces == 0 || pieces == Pieces(|name|)) && pieces <= 20 && Storable(fn)
    ensures var f := Registered(name, pieces, fn, flags);
            M.IsItem(f) && M.Entries(f) == Block(name, pieces, fn, flags)
  {
    hide NameEntry, SfnSum, FillerLast;
    var f := Registered(name, pieces, fn, flags);
    assert M.IsItem(f);
    var b, c := M.Entries(f), Block(name, pieces, fn, flags);
    assert |b| == |c|;
    forall m | 0 <= m < |b| ensures b[m] == c[m] {}
  }

  /** A table grown by blank entries is made of the same items and free ones. */
  lemma {:induction false} ExtendedMade(t: seq<Entry>, u: seq<Entry>, items: seq<M.Item>)
    requires Extends(t, u) && M.Made(t, items)
    ensures M.Made(u, items + M.Frees(u[|t|..]))
  {
    hide M.Flat, M.IsItem;
    var tail := u[|t|..];
    forall m | 0 <= m < |tail| ensures IsFree(tail[m]) { assert tail[m] == u[|t| + m]; }
    M.FreesAre(tail);
    M.FlatConcat(items, M.Frees(tail));
    assert u == t + tail;
    forall j, k | 0 <= j < k < |u| && u[j][0] == 0 ensures IsFree(u[k]) {
      if k < |t| { assert t[j] == u[j] && t[k] == u[k]; } else { assert u[k] == tail[k - |t|]; }
    }
  }

  /** No search notices the blank entries. */
  lemma {:induction false} ExtendedFound(up: Folding, key: Key, name: seq<Unit>, t: seq<Entry>, u: seq<Entry>, items: seq<M.Item>, k: nat)
    requires Extends(t, u) && M.Made(t, items) && M.AsksFor(key, name) && M.ZeroAlone(up)
    ensures FoundAt(up, key, u, k) <==> FoundAt(up, key, t, k)
  {
    hide M.Flat, M.IsItem, M.Has, M.AsksFor, M.ZeroAlone, FoundAt, M.Place, M.Made;
    var x: seq<M.Item>, none: seq<M.Item> := M.Frees(u[|t|..]), [];
    ExtendedMade(t, u, items);
    assert items + none + none == items && items + x + none == items + x;
    M.FreesHaveNot(up, key, name, x);
    M.FreesHaveNot(up, key, name, none);
    ItemsOf(t, items);
    ItemsOf(u, items + x);
    assert M.AreItems(x) by { forall m | 0 <= m < |x| ensures M.IsItem(x[m]) { assert (items + x)[|items| + m] == x[m]; } }
    M.SwapKeepsFound(up, key, name, t, u, items, none, x, none, k);
  }

  lemma {:induction false} ItemsOf(t: seq<Entry>, items: seq<M.Item>)
    requires M.Made(t, items)
    ensures M.AreItems(items)
  {
  }

  // ---------------------------------------------------------------- registering and removing on disk

  /** Registering a file in a directory made of files leaves one made of files, in which every search for
      another name stops where it did, at the same entry, and an absent name is found at its new entry. */
  lemma {:induction false} RegisteredFiles(s: DirState, m: DirState, t: DirState, up: Folding, key: Key, sought: seq<Unit>, items: seq<M.Item>,
                                           name: seq<Unit>, pieces: nat, fn: ShortName, flags: Byte, k: nat)
    requires pieces <= 20 && RegisteredState(s, m, t, Block(name, pieces, fn, flags)) && M.Made(Entries(s), items)
    requires IsName(name) && (pieces == 0 || pieces == Pieces(|name|)) && Storable(fn) && M.AsksFor(key, sought) && M.ZeroAlone(up)
    ensures Sane(s) && Sane(t) && exists made {:trigger M.Made(Entries(t), made)} :: M.Made(Entries(t), made)
    ensures var f, u, w := Registered(name, pieces, fn, flags), Entries(s), Entries(t);
            && (!M.Has(up, key, sought, f) ==> (FoundAt(up, key, w, k) <==> FoundAt(up, key, u, k)))
            && (FoundAt(up, key, u, k) ==> w[k] == u[k])
            && (M.Has(up, key, sought, f) && Absent(up, key, u) ==> FoundAt(up, key, w, t.dptr / ENTRY_SIZE))
  {
    hide M.Flat, M.IsItem, M.Has, M.AsksFor, M.ZeroAlone, FoundAt, M.Place, Geometry.Sound, Geometry.End, Rooted, PlacedDir, Points, Flat, Absent, Block, IsName, M.Made, RegisteredState, Writing, Grown, FirstRun, Written, Shaped;
    var f, b := Registered(name, pieces, fn, flags), Block(name, pieces, fn, flags);
    RegisteredTable(s, m, t, b);
    var u, v, w := Entries(s), Entries(m), Entries(t);
    BlockIsFile(name, pieces, fn, flags);
    BlockLength(name, pieces, fn, flags);
    var i := t.dptr / ENTRY_SIZE + 1 - |b|;
    ExtendedMade(u, v, items);
    var grown := items + M.Frees(v[|u|..]);
    ExtendedFound(up, key, sought, u, v, items, k);
    M.RegisteringKeepsOthers(up, key, sought, v, grown, i, f, k);
    var x, y, z := M.RegisteringMeans(up, v, grown, i, f);
    if Absent(up, key, u) { ExtendedAbsent(up, key, u, v); }
    if FoundAt(up, key, u, k) { FoundInside(up, key, u, k); }
  }

  lemma {:induction false} FoundInside(up: Folding, key: Key, t: seq<Entry>, k: nat)
    requires FoundAt(up, key, t, k)
    ensures k < |t|
  {
  }

  /** Finding a long name and removing what was found removes exactly that file: the entries erased are
      the file's own, and every search for another name stops where it did. */
  lemma {:induction false} FoundThenRemoved(up: Folding, key: Key, sought: seq<Unit>, items: seq<M.Item>, t: DirState, block: nat,
                                            other: Key, asked: seq<Unit>, k: nat) returns (i: nat)
    requires FoundHere(t, up, key, block) && M.Made(Entries(t), items) && M.AsksFor(key, sought) && !key.noLfn && M.AsksFor(other, asked) && M.ZeroAlone(up)
    ensures M.FirstHas(up, key, sought, items, i) && M.AreItems(items)
    ensures var from, last := (if block == NO_BLOCK then t.dptr / ENTRY_SIZE else block / ENTRY_SIZE), t.dptr / ENTRY_SIZE;
            && from == M.Start(items, i) && last == M.Place(items, i) && from <= last < |Entries(t)|
            && var w := Erased(Entries(t), from, last);
               && (!M.Has(up, other, asked, items[i]) ==> (FoundAt(up, other, w, k) <==> FoundAt(up, other, Entries(t), k)))
               && (M.NoneOf(up, other, asked, items[..i] + items[i + 1..]) ==> Absent(up, other, w))
  {
    hide M.Flat, M.IsItem, M.Has, M.AsksFor, M.ZeroAlone, M.MadeWithout, FoundAt, M.Place, M.Start, Geometry.Sound, Geometry.End, Rooted, PlacedDir, Points, Flat, Absent;
    var u, last := Entries(t), t.dptr / ENTRY_SIZE;
    i := M.FoundFile(up, key, sought, u, items, last);
    ItemsOf(u, items);
    M.ItemPlace(items, i);
    assert items == items[..i] + [items[i]] + items[i + 1..];
    M.StartIs(items, i);
    M.HasIsFile(up, key, sought, items[i]);
    M.RemovingKeepsOthers(up, other, asked, u, items[..i], items[i], items[i + 1..], k);
    M.ItemStands(items, i);
  }

  /** What the answer of a search means in a directory made of files: success is the short entry of the first
      file that has the name asked for, no-file that none has it. */
  ghost predicate FindMeans(t: DirState, up: Folding, key: Key, res: FResult)
    requires Sane(t)
  {
    forall items: seq<M.Item>, name: seq<Unit> {:trigger M.Made(Entries(t), items), M.AsksFor(key, name)} |
      M.Made(Entries(t), items) && M.AsksFor(key, name) && M.ZeroAlone(up) ::
        && (res == Ok ==> exists i {:trigger M.FirstHas(up, key, name, items, i)} :: M.FirstHas(up, key, name, items, i) && t.dptr / ENTRY_SIZE == M.Place(items, i))
        && (res == NoFile ==> M.NoneHas(up, key, name, items, |items|))
  }

  lemma {:induction false} FindMeant(t: DirState, up: Folding, key: Key, res: FResult, block: nat)
    requires Sane(t) && (res == Ok ==> FoundHere(t, up, key, block)) && (res == NoFile ==> Absent(up, key, Entries(t)))
    ensures FindMeans(t, up, key, res)
  {
    hide M.Flat, M.IsItem, M.Has, M.AsksFor, M.ZeroAlone, FoundHere, M.Place, M.NoneHas, Rooted, PlacedDir, Points, Flat, Absent, Shaped;
    forall items: seq<M.Item>, name: seq<Unit> | M.Made(Entries(t), items) && M.AsksFor(key, name) && M.ZeroAlone(up)
      ensures res == Ok ==> exists i {:trigger M.FirstHas(up, key, name, items, i)} :: M.FirstHas(up, key, name, items, i) && t.dptr / ENTRY_SIZE == M.Place(items, i)
      ensures res == NoFile ==> M.NoneHas(up, key, name, items, |items|)
    {
      FindMeantFor(t, up, key, res, block, items, name);
    }
  }

  lemma {:induction false} FindMeantFor(t: DirState, up: Folding, key: Key, res: FResult, block: nat, items: seq<M.Item>, name: seq<Unit>)
    requires Sane(t) && (res == Ok ==> FoundHere(t, up, key, block)) && (res == NoFile ==> Absent(up, key, Entries(t)))
    requires M.Made(Entries(t), items) && M.AsksFor(key, name) && M.ZeroAlone(up)
    ensures res == Ok ==> exists i {:trigger M.FirstHas(up, key, name, items, i)} :: M.FirstHas(up, key, name, items, i) && t.dptr / ENTRY_SIZE == M.Place(items, i)
    ensures res == NoFile ==> M.NoneHas(up, key, name, items, |items|)
  {
    hide M.Flat, M.IsItem, M.Has, M.AsksFor, M.ZeroAlone, FoundAt, M.Place, M.NoneHas, Rooted, PlacedDir, Points, Flat, Absent, Shaped;
    M.AbsentMeans(up, key, name, Entries(t), items);
    M.FoundMeans(up, key, name, Entries(t), items, t.dptr / ENTRY_SIZE);
  }
}
