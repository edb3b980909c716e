/** The table of open objects that keeps writers apart from everybody else. */
module LockTheory {
  const FF_FS_LOCK := 32

  /** The counter of an object open for writing. */
  const WRITER := 0x100

  /** An object by its volume (zero is none), its directory's start cluster and its entry's offset. */
  datatype Object = Object(fs: nat, clu: nat, ofs: nat)

  datatype Slot = Slot(obj: Object, ctr: nat)

  type Table = seq<Slot>

  /** An open file or directory: the object, how it is open, and its lock number, counted from one. */
  datatype Handle = Handle(obj: Object, write: bool, id: nat)

  predicate Used(t: Table, i: nat) { i < |t| && t[i].obj.fs != 0 }

  /** The slot of an object, or the table's length. */
  function SlotOf(t: Table, obj: Object): (i: nat)
    ensures i <= |t| && (i < |t| ==> t[i].obj == obj) && forall j {:trigger t[j]} | 0 <= j < i :: t[j].obj != obj
  {
    if |t| == 0 || t[0].obj == obj then 0 else 1 + SlotOf(t[1..], obj)
  }

  /** The first blank slot, or the table's length. */
  function BlankOf(t: Table): (i: nat)
    ensures i <= |t| && (i < |t| ==> t[i].obj.fs == 0) && forall j {:trigger t[j]} | 0 <= j < i :: t[j].obj.fs != 0
  {
    if |t| == 0 || t[0].obj.fs == 0 then 0 else 1 + BlankOf(t[1..])
  }

  // ---------------------------------------------------------------- handles and the table

  /** How many handles an object has, for reading or for writing. */
  function Count(hs: seq<Handle>, obj: Object, write: bool): nat {
    if |hs| == 0 then 0 else Count(hs[1..], obj, write) + if hs[0].obj == obj && hs[0].write == write then 1 else 0
  }

  lemma {:induction false} CountMore(hs: seq<Handle>, h: Handle, obj: Object, write: bool)
    ensures Count(hs + [h], obj, write) == Count(hs, obj, write) + if h.obj == obj && h.write == write then 1 else 0
  {
    if |hs| > 0 {
      assert (hs + [h])[1..] == hs[1..] + [h];
      CountMore(hs[1..], h, obj, write);
    }
  }

  lemma {:induction false} CountLess(hs: seq<Handle>, k: nat, obj: Object, write: bool)
    requires k < |hs|
    ensures Count(hs, obj, write) == Count(hs[..k] + hs[k + 1..], obj, write) + if hs[k].obj == obj && hs[k].write == write then 1 else 0
  {
    if k == 0 {
      assert hs[..0] + hs[1..] == hs[1..];
    } else {
      CountLess(hs[1..], k - 1, obj, write);
      assert (hs[..k] + hs[k + 1..])[1..] == hs[1..][..k - 1] + hs[1..][k..];
    }
  }

  lemma {:induction false} CountSome(hs: seq<Handle>, obj: Object, write: bool)
    ensures Count(hs, obj, write) > 0 <==> exists k {:trigger hs[k]} :: 0 <= k < |hs| && hs[k].obj == obj && hs[k].write == write
  {
    if |hs| > 0 {
      CountSome(hs[1..], obj, write);
      forall k | 0 < k < |hs| ensures hs[k] == hs[1..][k - 1] {}
      if j :| 0 <= j < |hs[1..]| && hs[1..][j].obj == obj && hs[1..][j].write == write { assert hs[j + 1] == hs[1..][j]; }
    }
  }

  /** The counter of slot i tells the object's handles: one writer alone, or that many readers. */
  predicate Counts(t: Table, hs: seq<Handle>, i: nat)
    requires i < |t|
  {
    var r, w := Count(hs, t[i].obj, false), Count(hs, t[i].obj, true);
    if t[i].ctr == WRITER then w == 1 && r == 0 else w == 0 && r == t[i].ctr && 0 < t[i].ctr < WRITER
  }

  /** Every object has at most one slot. */
  predicate OneSlot(t: Table) {
    forall i, j {:trigger t[i], t[j]} | 0 <= i < j < |t| && t[i].obj == t[j].obj :: t[i].obj.fs == 0
  }

  /** The table tells exactly which handles are open. */
  ghost predicate Sound(t: Table, hs: seq<Handle>) {
    && |t| == FF_FS_LOCK && OneSlot(t)
    && (forall i {:trigger Counts(t, hs, i)} | 0 <= i < |t| && Used(t, i) :: Counts(t, hs, i))
    && (forall k {:trigger hs[k]} | 0 <= k < |hs| :: Holds(t, hs[k]))
  }

  /** The handle's lock number names its object's slot. */
  predicate Holds(t: Table, h: Handle) {
    h.obj.fs != 0 && 0 < h.id <= |t| && t[h.id - 1].obj == h.obj
  }

  /** No object that is open for writing is open a second time. */
  ghost predicate Exclusive(hs: seq<Handle>) {
    forall j, k {:trigger hs[j], hs[k]} | 0 <= j < |hs| && 0 <= k < |hs| && j != k && hs[j].write :: hs[k].obj != hs[j].obj
  }

  lemma {:induction false} SoundIsExclusive(t: Table, hs: seq<Handle>)
    requires Sound(t, hs)
    ensures Exclusive(hs)
  {
    forall j, k | 0 <= j < |hs| && 0 <= k < |hs| && j != k && hs[j].write ensures hs[k].obj != hs[j].obj {
      if hs[k].obj == hs[j].obj {
        var o, rest := hs[j].obj, hs[..j] + hs[j + 1..];
        assert rest[if k < j then k else k - 1] == hs[k];
        assert Holds(t, hs[j]) && Counts(t, hs, hs[j].id - 1);
        CountSome(rest, o, hs[k].write);
        CountLess(hs, j, o, true);
        CountLess(hs, j, o, false);
      }
    }
  }

  /** The slot of an object is used exactly when the object has a handle. */
  lemma {:induction false} SlotTells(t: Table, hs: seq<Handle>, obj: Object)
    requires Sound(t, hs) && obj.fs != 0
    ensures SlotOf(t, obj) < |t| <==> Count(hs, obj, false) + Count(hs, obj, true) > 0
    ensures SlotOf(t, obj) < |t| ==> Counts(t, hs, SlotOf(t, obj))
  {
    var i := SlotOf(t, obj);
    if i < |t| {
      assert Used(t, i) && Counts(t, hs, i);
    } else {
      CountSome(hs, obj, false);
      CountSome(hs, obj, true);
      forall k | 0 <= k < |hs| ensures hs[k].obj != obj { assert Holds(t, hs[k]); }
    }
  }

  // ---------------------------------------------------------------- opening and closing

  /** inc_share will find or make a slot for the object. */
  predicate Admits(t: Table, obj: Object, write: bool) {
    if SlotOf(t, obj) < |t| then !write && t[SlotOf(t, obj)].ctr < WRITER else BlankOf(t) < |t|
  }

  /** inc_share registers the open, admitted before or not: every one but a writer beside another handle or
      an object without a slot to be had. The counter has sixteen bits. */
  predicate Opens(t: Table, obj: Object, write: bool)
    ensures Admits(t, obj, write) ==> Opens(t, obj, write)
  {
    if SlotOf(t, obj) < |t| then (if write then t[SlotOf(t, obj)].ctr == 0 else t[SlotOf(t, obj)].ctr < 0xFFFF) else BlankOf(t) < |t|
  }

  /** The table after an object has been opened in slot i. */
  function OpenedAt(t: Table, i: nat, obj: Object, write: bool): Table
    requires i < |t|
  {
    t[i := Slot(obj, if write then WRITER else if t[i].obj == obj then t[i].ctr + 1 else 1)]
  }

  /** The slot an object is opened in. */
  function Place(t: Table, obj: Object): nat { if SlotOf(t, obj) < |t| then SlotOf(t, obj) else BlankOf(t) }

  /** An admitted open keeps the table telling the handles, unless it is the 256th reader. */
  lemma {:induction false} OpenKeeps(t: Table, hs: seq<Handle>, obj: Object, write: bool)
    requires Sound(t, hs) && obj.fs != 0 && Admits(t, obj, write)
    ensures Place(t, obj) < |t|
    ensures Sound(OpenedAt(t, Place(t, obj), obj, write), hs + [Handle(obj, write, Place(t, obj) + 1)]) <==> Count(hs, obj, false) < WRITER - 1
  {
    hide Counts;
    var i := Place(t, obj);
    var h := Handle(obj, write, i + 1);
    var u, gs := OpenedAt(t, i, obj, write), hs + [h];
    SlotTells(t, hs, obj);
    OpenCounts(t, hs, obj, write);
    assert OneSlot(u);
    forall j | 0 <= j < |u| && Used(u, j) && j != i ensures Counts(u, gs, j) {
      assert Counts(t, hs, j) && u[j] == t[j];
      OtherCounts(t, u, hs, gs, h, j);
    }
    forall k | 0 <= k < |gs| ensures Holds(u, gs[k]) {
      if k < |hs| { assert gs[k] == hs[k] && Holds(t, hs[k]); }
    }
  }

  lemma {:induction false} OpenCounts(t: Table, hs: seq<Handle>, obj: Object, write: bool)
    requires Sound(t, hs) && obj.fs != 0 && Admits(t, obj, write)
    ensures var i := Place(t, obj);
            i < |t| && (Counts(OpenedAt(t, i, obj, write), hs + [Handle(obj, write, i + 1)], i) <==> Count(hs, obj, false) < WRITER - 1)
  {
    var h := Handle(obj, write, Place(t, obj) + 1);
    SlotTells(t, hs, obj);
    CountMore(hs, h, obj, true);
    CountMore(hs, h, obj, false);
  }

  lemma {:induction false} OtherCounts(t: Table, u: Table, hs: seq<Handle>, gs: seq<Handle>, h: Handle, j: nat)
    requires j < |t| && j < |u| && u[j] == t[j] && Counts(t, hs, j) && gs == hs + [h] && h.obj != t[j].obj
    ensures Counts(u, gs, j)
  {
    CountMore(hs, h, t[j].obj, true);
    CountMore(hs, h, t[j].obj, false);
  }

  /** The table after one handle of slot i has been closed. */
  function ClosedAt(t: Table, i: nat): Table
    requires i < |t|
  {
    var n := if t[i].ctr == WRITER || t[i].ctr == 0 then 0 else t[i].ctr - 1;
    t[i := Slot(if n == 0 then t[i].obj.(fs := 0) else t[i].obj, n)]
  }

  /** Closing a handle keeps the table telling the rest. */
  lemma {:induction false} CloseKeeps(t: Table, hs: seq<Handle>, k: nat)
    requires Sound(t, hs) && k < |hs|
    ensures 0 < hs[k].id <= |t| && Sound(ClosedAt(t, hs[k].id - 1), hs[..k] + hs[k + 1..])
  {
    hide Counts;
    var h := hs[k];
    assert Holds(t, h);
    var i, gs := h.id - 1, hs[..k] + hs[k + 1..];
    var u := ClosedAt(t, i);
    assert OneSlot(u);
    CloseCounts(t, hs, k);
    forall j | 0 <= j < |u| && Used(u, j) && j != i ensures Counts(u, gs, j) {
      assert Counts(t, hs, j) && u[j] == t[j] && t[j].obj != h.obj;
      OtherCloses(t, u, hs, gs, k, j);
    }
    forall l | 0 <= l < |gs| ensures Holds(u, gs[l]) {
      var l' := if l < k then l else l + 1;
      assert gs[l] == hs[l'] && Holds(t, hs[l']);
      if gs[l].id == h.id { CountSome(gs, h.obj, gs[l].write); }
    }
  }

  lemma {:induction false} CloseCounts(t: Table, hs: seq<Handle>, k: nat)
    requires Sound(t, hs) && k < |hs|
    ensures var i, gs := hs[k].id - 1, hs[..k] + hs[k + 1..];
            && 0 <= i < |t| && (Used(ClosedAt(t, i), i) ==> Counts(ClosedAt(t, i), gs, i))
            && (!Used(ClosedAt(t, i), i) ==> Count(gs, hs[k].obj, true) == Count(gs, hs[k].obj, false) == 0)
  {
    assert Holds(t, hs[k]) && Counts(t, hs, hs[k].id - 1);
    CountLess(hs, k, hs[k].obj, true);
    CountLess(hs, k, hs[k].obj, false);
  }

  lemma {:induction false} OtherCloses(t: Table, u: Table, hs: seq<Handle>, gs: seq<Handle>, k: nat, j: nat)
    requires k < |hs| && j < |t| && j < |u| && u[j] == t[j] && Counts(t, hs, j) && gs == hs[..k] + hs[k + 1..] && hs[k].obj != t[j].obj
    ensures Counts(u, gs, j)
  {
    CountLess(hs, k, t[j].obj, true);
    CountLess(hs, k, t[j].obj, false);
  }

  /** The table without a volume's objects. */
  function Cleared(t: Table, fs: nat): Table {
    seq(|t|, i requires 0 <= i < |t| => if t[i].obj.fs == fs then t[i].(obj := t[i].obj.(fs := 0)) else t[i])
  }

  /** The handles of the other volumes. */
  function Others(hs: seq<Handle>, fs: nat): (gs: seq<Handle>)
    ensures forall k {:trigger gs[k]} | 0 <= k < |gs| :: gs[k].obj.fs != fs && gs[k] in hs
  {
    if |hs| == 0 then [] else (if hs[0].obj.fs == fs then [] else [hs[0]]) + Others(hs[1..], fs)
  }

  lemma {:induction false} OthersCount(hs: seq<Handle>, fs: nat, obj: Object, write: bool)
    requires obj.fs != fs
    ensures Count(Others(hs, fs), obj, write) == Count(hs, obj, write)
  {
    if |hs| > 0 {
      OthersCount(hs[1..], fs, obj, write);
      if hs[0].obj.fs != fs { assert Others(hs, fs)[1..] == Others(hs[1..], fs); } else { assert Others(hs, fs) == Others(hs[1..], fs); }
    }
  }

  /** Unmounting a volume keeps the table telling the others' handles. */
  lemma {:induction false} ClearKeeps(t: Table, hs: seq<Handle>, fs: nat)
    requires Sound(t, hs) && fs != 0
    ensures Sound(Cleared(t, fs), Others(hs, fs))
  {
    hide Counts;
    var u, gs := Cleared(t, fs), Others(hs, fs);
    forall i | 0 <= i < |u| && Used(u, i) ensures Counts(u, gs, i) {
      assert Counts(t, hs, i);
      ClearCounts(t, hs, fs, i);
    }
    forall k | 0 <= k < |gs| ensures Holds(u, gs[k]) {
      var l :| 0 <= l < |hs| && hs[l] == gs[k];
      assert Holds(t, hs[l]);
    }
  }

  lemma {:induction false} ClearCounts(t: Table, hs: seq<Handle>, fs: nat, i: nat)
    requires i < |t| && Counts(t, hs, i) && Used(Cleared(t, fs), i) && fs != 0
    ensures Counts(Cleared(t, fs), Others(hs, fs), i)
  {
    OthersCount(hs, fs, t[i].obj, true);
    OthersCount(hs, fs, t[i].obj, false);
  }

  // ---------------------------------------------------------------- runs

  datatype Step = OpenStep(obj: Object, write: bool) | CreateStep(obj: Object, write: bool) | CloseStep(k: nat) | UnmountStep(fs: nat)

  datatype World = World(t: Table, hs: seq<Handle>)

  function Opened(w: World, obj: Object, write: bool): World {
    var i := Place(w.t, obj);
    if i < |w.t| then World(OpenedAt(w.t, i, obj, write), w.hs + [Handle(obj, write, i + 1)]) else w
  }

  /** A step as the file functions take it: opens ask first and leave things as they are when refused. */
  function Do(w: World, step: Step): World {
    match step
    case OpenStep(obj, write) => if Admits(w.t, obj, write) then Opened(w, obj, write) else w
    case CreateStep(obj, write) => if BlankOf(w.t) < |w.t| then Opened(w, obj, write) else w
    case CloseStep(k) => if k < |w.hs| && 0 < w.hs[k].id <= |w.t| then World(ClosedAt(w.t, w.hs[k].id - 1), w.hs[..k] + w.hs[k + 1..]) else w
    case UnmountStep(fs) => World(Cleared(w.t, fs), Others(w.hs, fs))
  }

  /** The steps of the file functions: no 256th reader, and new entries are not open yet. */
  predicate Takes(w: World, step: Step) {
    match step
    case OpenStep(obj, write) => obj.fs != 0 && (!write ==> Count(w.hs, obj, false) < WRITER - 1)
    case CreateStep(obj, write) => obj.fs != 0 && SlotOf(w.t, obj) == |w.t|
    case CloseStep(k) => true
    case UnmountStep(fs) => fs != 0
  }

  predicate TakesAll(w: World, steps: seq<Step>)
    decreases |steps|
  {
    |steps| == 0 || (Takes(w, steps[0]) && TakesAll(Do(w, steps[0]), steps[1..]))
  }

  function DoAll(w: World, steps: seq<Step>): World
    decreases |steps|
  {
    if |steps| == 0 then w else DoAll(Do(w, steps[0]), steps[1..])
  }

  /** Over every run the table tells the handles, and a writer is alone with its object. */
  lemma {:induction false} RunKeeps(w: World, steps: seq<Step>)
    requires Sound(w.t, w.hs) && TakesAll(w, steps)
    ensures Sound(DoAll(w, steps).t, DoAll(w, steps).hs) && Exclusive(DoAll(w, steps).hs)
    decreases |steps|
  {
    hide Sound, Exclusive;
    if |steps| == 0 {
      SoundIsExclusive(w.t, w.hs);
    } else {
      StepKeeps(w, steps[0]);
      RunKeeps(Do(w, steps[0]), steps[1..]);
    }
  }

  lemma {:induction false} StepKeeps(w: World, step: Step)
    requires Sound(w.t, w.hs) && Takes(w, step)
    ensures Sound(Do(w, step).t, Do(w, step).hs)
  {
    hide Sound;
    match step
    case OpenStep(obj, write) =>
      if Admits(w.t, obj, write) {
        if write { NoReaders(w.t, w.hs, obj); }
        OpenKeeps(w.t, w.hs, obj, write);
      }
    case CreateStep(obj, write) =>
      if BlankOf(w.t) < |w.t| {
        NoReaders(w.t, w.hs, obj);
        OpenKeeps(w.t, w.hs, obj, write);
      }
    case CloseStep(k) => if k < |w.hs| { CloseKeeps(w.t, w.hs, k); }
    case UnmountStep(fs) => ClearKeeps(w.t, w.hs, fs);
  }

  lemma {:induction false} NoReaders(t: Table, hs: seq<Handle>, obj: Object)
    requires Sound(t, hs) && obj.fs != 0
    ensures SlotOf(t, obj) == |t| ==> Count(hs, obj, false) == 0
  {
    SlotTells(t, hs, obj);
  }

  /** The 256th reader looks like a writer: once any reader closes, the object counts as closed and is
      open to a writer while 255 readers are left. */
  lemma {:induction false} ReadersOverflow(w: World, obj: Object, k: nat)
    requires Sound(w.t, w.hs) && obj.fs != 0 && Count(w.hs, obj, false) == WRITER - 1 && Admits(w.t, obj, false)
    requires var v := Do(w, OpenStep(obj, false)); k < |v.hs| && v.hs[k].obj == obj
    ensures var v := Do(Do(w, OpenStep(obj, false)), CloseStep(k));
            SlotOf(v.t, obj) == |v.t| && Admits(v.t, obj, true) && Count(v.hs, obj, false) == WRITER - 1
  {
    var v := Do(w, OpenStep(obj, false));
    SlotTells(w.t, w.hs, obj);
    SoundIsExclusive(w.t, w.hs);
    var i := SlotOf(w.t, obj);
    assert Counts(w.t, w.hs, i);
    CountMore(w.hs, Handle(obj, false, i + 1), obj, false);
    CountLess(v.hs, k, obj, false);
    CountSome(w.hs, obj, true);
    if k < |w.hs| { assert Holds(w.t, w.hs[k]); }
    assert Do(v, CloseStep(k)).t[i].obj.fs == 0;
  }
}

module Lock {
  import opened LockTheory
  import opened Volume

  /** What an open or a removal wants: to read, to write, or to delete or rename. */
  datatype Access = Reading | Writing | Deleting

  class Locks {
    const files: array<Slot>

    constructor ()
      ensures fresh(files) && files.Length == FF_FS_LOCK && Sound(files[..], [])
    {
      files := new Slot[FF_FS_LOCK](i => Slot(Object(0, 0, 0), 0));
    }

    /** chk_share: refuses what the open handles do not allow. */
    method ChkShare(obj: Object, acc: Access, ghost hs: seq<Handle>) returns (res: FResult)
      requires Sound(files[..], hs) && obj.fs != 0
      ensures res == Locked <==> Count(hs, obj, true) > 0 || (acc != Reading && Count(hs, obj, false) > 0)
      ensures res == TooManyOpenFiles <==>
              && Count(hs, obj, true) + Count(hs, obj, false) == 0 && acc != Deleting
              && forall i {:trigger files[i]} | 0 <= i < files.Length :: files[i].obj.fs != 0
      ensures res == Ok || res == Locked || res == TooManyOpenFiles
      ensures res == Ok && acc != Deleting ==> Admits(files[..], obj, acc == Writing)
    {
      ghost var t := files[..];
      SlotTells(t, hs, obj);
      var be, i := false, 0;
      while i < FF_FS_LOCK
        invariant 0 <= i <= FF_FS_LOCK && be == exists j {:trigger files[j]} :: 0 <= j < i && files[j].obj.fs == 0
        invariant forall j {:trigger t[j]} | 0 <= j < i :: t[j].obj != obj
      {
        assert t[i] == files[i];
        if files[i].obj.fs != 0 {
          if files[i].obj == obj { break; }
        } else {
          be := true;
        }
        i := i + 1;
      }
      if i == FF_FS_LOCK {
        assert forall j | 0 <= j < FF_FS_LOCK :: t[j] == files[j];
        return if !be && acc != Deleting then TooManyOpenFiles else Ok;
      }
      assert SlotOf(t, obj) == i && Counts(t, hs, i);
      res := if acc != Reading || files[i].ctr == WRITER then Locked else Ok;
    }

    /** enq_share: whether a new object can be registered. */
    method EnqShare() returns (free: bool)
      requires files.Length == FF_FS_LOCK
      ensures free <==> BlankOf(files[..]) < FF_FS_LOCK
    {
      ghost var t := files[..];
      var i := 0;
      while i < FF_FS_LOCK && files[i].obj.fs != 0
        invariant 0 <= i <= FF_FS_LOCK && forall j {:trigger t[j]} | 0 <= j < i :: t[j].obj.fs != 0
      {
        assert t[i] == files[i];
        i := i + 1;
      }
      free := i != FF_FS_LOCK;
    }

    /** inc_share: registers one more open; never fails when the open was admitted. A reader of an object
        open for writing, which the check before it refuses, would be counted on top of the writer. */
    method IncShare(obj: Object, write: bool) returns (id: nat)
      requires files.Length == FF_FS_LOCK && obj.fs != 0
      modifies files
      ensures Opens(old(files[..]), obj, write) ==>
                id == Place(old(files[..]), obj) + 1 && files[..] == OpenedAt(old(files[..]), Place(old(files[..]), obj), obj, write)
      ensures (var t := old(files[..]); var i := SlotOf(t, obj); if i < |t| then write && t[i].ctr > 0 else BlankOf(t) == |t|) ==>
                id == 0 && files[..] == old(files[..])
    {
      ghost var t := files[..];
      var i := 0;
      while i < FF_FS_LOCK && files[i].obj != obj
        invariant 0 <= i <= FF_FS_LOCK && forall j {:trigger t[j]} | 0 <= j < i :: t[j].obj != obj
      {
        assert t[i] == files[i];
        i := i + 1;
      }
      assert SlotOf(t, obj) == i;
      if i == FF_FS_LOCK {
        i := 0;
        while i < FF_FS_LOCK && files[i].obj.fs != 0
          invariant 0 <= i <= FF_FS_LOCK && forall j {:trigger t[j]} | 0 <= j < i :: t[j].obj.fs != 0
        {
          assert t[i] == files[i];
          i := i + 1;
        }
        assert BlankOf(t) == i;
        if i == FF_FS_LOCK { return 0; }
        files[i] := Slot(obj, 0);
      }
      if write && files[i].ctr > 0 { return 0; }
      files[i] := files[i].(ctr := if write then WRITER else files[i].ctr + 1);
      id := i + 1;
    }

    /** dec_share: unregisters one open by its lock number. */
    method DecShare(id: nat) returns (res: FResult)
      requires files.Length == FF_FS_LOCK
      modifies files
      ensures if 0 < id <= FF_FS_LOCK then res == Ok && files[..] == ClosedAt(old(files[..]), id - 1)
              else res == IntErr && files[..] == old(files[..])
    {
      if id == 0 || id > FF_FS_LOCK { return IntErr; }
      var i := id - 1;
      var n := files[i].ctr;
      if n == WRITER { n := 0; }
      if n > 0 { n := n - 1; }
      files[i] := files[i].(ctr := n);
      if n == 0 { files[i] := files[i].(obj := files[i].obj.(fs := 0)); }
      res := Ok;
    }

    /** clear_share: forgets a volume's objects. */
    method ClearShare(fs: nat)
      requires files.Length == FF_FS_LOCK
      modifies files
      ensures files[..] == Cleared(old(files[..]), fs)
    {
      ghost var t := files[..];
      var i := 0;
      while i < FF_FS_LOCK
        invariant 0 <= i <= FF_FS_LOCK
        invariant forall j {:trigger files[j]} | 0 <= j < FF_FS_LOCK :: files[j] == if j < i then Cleared(t, fs)[j] else t[j]
      {
        if files[i].obj.fs == fs { files[i] := files[i].(obj := files[i].obj.(fs := 0)); }
        i := i + 1;
      }
    }
  }
}
