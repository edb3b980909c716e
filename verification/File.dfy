/** An open file: a byte array with a cursor, kept on a cluster chain behind a private sector buffer. */
module File {
  import opened Arith
  import opened Volume
  import opened Clusters
  import opened ChainTheory
  import opened Chain
  import opened FileTheory
  import opened ReadTheory
  import opened SeekTheory
  import opened SeekOrder
  import opened TruncateTheory

  class Fil {
    const fs: FatFs
    const buf: array<Byte>
    const readable: bool
    const writable: bool
    var modified: bool
    var dirty: bool
    var err: FResult
    var fptr: Word32
    var objsize: Word32
    var sclust: Word32
    var clust: Word32
    var sect: Word32
    /** the clusters of the file, in order */
    ghost var chain: seq<nat>

    /** The file object f_open leaves behind for a directory entry with this start cluster and size. */
    constructor (fs: FatFs, sclust: Word32, objsize: Word32, readable: bool, writable: bool, ghost chain: seq<nat>)
      requires fs.Valid() && Placed(fs.geo, chain, |fs.View()|)
      requires if |chain| == 0 then sclust == 0 else sclust == chain[0] && IsChain(fs.Fat(), chain)
      requires objsize <= Capacity(fs.geo, chain) * SECTOR_SIZE && !OnChain(fs.geo, chain, fs.winsect)
      ensures Valid() && fresh(buf) && err == Ok && fptr == 0 && this.objsize == objsize && !modified
      ensures S().UpToDate() && sect == 0
      ensures this.fs == fs && this.chain == chain && this.readable == readable && this.writable == writable
      ensures Bytes() == Contents(fs.View(), fs.geo, chain, objsize)
    {
      this.fs, this.sclust, this.objsize, this.chain := fs, sclust, objsize, chain;
      this.readable, this.writable := readable, writable;
      modified, dirty, err, fptr, clust, sect := false, false, Ok, 0, 0, 0;
      buf := new Byte[SECTOR_SIZE](_ => 0);
      new;
      if |chain| > 0 { ChainIsDistinct(fs.Fat(), chain); }
    }

    ghost predicate Wired()
      reads fs`winsect, fs`wflag, fs`mirrorStale, fs.win, fs.disk
    {
      fs.Valid() && buf.Length == SECTOR_SIZE && buf != fs.win
    }

    /** The state of the file as a value. */
    ghost function S(): FileState
      requires Wired()
      reads this, buf, fs`winsect, fs`wflag, fs`mirrorStale, fs.win, fs.disk
    {
      FileState(fs.geo, fs.View(), fs.Fat(), fs.winsect,
                chain, sclust, clust, fptr, objsize, dirty, sect, buf[..], writable)
    }

    ghost predicate Valid()
      reads this, buf, fs`winsect, fs`wflag, fs`mirrorStale, fs.win, fs.disk
    {
      Wired() && S().Guarded() && (err == Ok ==> S().Whole())
    }

    /** The byte array the file stands for. */
    ghost function Bytes(): (b: seq<Byte>)
      requires Valid() && err == Ok
      reads this, buf, fs`winsect, fs`wflag, fs`mirrorStale, fs.win, fs.disk
      ensures |b| == objsize
    {
      S().Held()
    }

    /** Writes a dirty buffer back. */
    method Flush() returns (res: FResult)
      requires Wired() && S().Guarded()
      modifies this`dirty, fs.disk
      ensures Wired() && res in {Ok, DiskErr}
      ensures res == Ok ==> S() == old(S()).(v := old(S()).FileView(), dirty := false)
      ensures res != Ok ==> S() == old(S()).(v := S().v) && S().Guarded() && S().FileView() == old(S()).FileView()
      ensures Isolated(old(S()), S())
    {
      hide FatFs.Valid, FatFs.View, FatFs.Fat, Geometry.Sound, Geometry.End, Isolated, Placed, OnChain;
      ghost var a := S();
      res := Ok;
      if dirty {
        OnChainArea(fs.geo, chain, sect, |fs.View()|);
        var ok := fs.WriteThrough(buf[..], sect, 1);
        if ok {
          dirty := false;
          assert fs.View()[sect] == Chunk(buf[..], 0) == buf[..];
          assert fs.View() == a.FileView();
        } else {
          res := DiskErr;
        }
      }
      OwnChange(a, S());
    }

    /** create_chain for this file: the cluster behind number i of the chain, or its first one. */
    method Stretch(from: Word32, ghost i: nat) returns (clst: Word32)
      requires Wired() && S().Sound() && if |chain| == 0 then from == 0 else i < |chain| && from == chain[i]
      modifies this`chain, fs, fs.win, fs.disk
      ensures Wired() && StretchResult(old(S()), S(), i, clst)
      ensures clst == 0 ==> fs.freeClst == 0 || FreeCount(fs.Fat()) == 0
      ensures clst != DISK_ERROR && old(FreeExact(fs)) ==> FreeExact(fs)
    {
      hide FatFs.Valid, FatFs.View, FatFs.Fat, Geometry.Sound, Isolated, FreeCount, FreeExact, StretchResult;
      hide Insane, Follows, Allocated, KeepsUsed, SameData;
      fs.GeometryFacts();
      ghost var a := S();
      StretchCase(a.f, chain, i, from);
      clst := CreateChain(fs, from);
      StretchStep(a, S(), from, i, clst);
      if clst >= 2 && clst != DISK_ERROR && (|chain| == 0 || i + 1 == |chain|) {
        chain := chain + [clst];
      }
    }

    /** f_write at a cluster boundary: follows the chain or stretches it. */
    method NextCluster() returns (res: FResult, full: bool)
      requires Wired() && S().Whole() && OnBoundary(fs.geo, fptr)
      modifies this`clust, this`sclust, this`chain, fs, fs.win, fs.disk
      ensures Wired() && NextResult(old(S()), S(), res, full) && res in {Ok, IntErr, DiskErr} && (full ==> res == Ok)
      ensures res == Ok && full ==> fs.freeClst == 0 || FreeCount(fs.Fat()) == 0
      ensures res == Ok && old(FreeExact(fs)) ==> FreeExact(fs)
    {
      hide FatFs.Valid, FatFs.View, FatFs.Fat, FileState.Whole, StretchResult, NextResult, OnBoundary, FreeExact, FreeCount;
      ghost var a := S();
      NextBefore(a);
      res, full := Ok, false;
      var clst := sclust;
      ghost var i := if fptr > 0 then ClusterIndex(fs.geo, fptr) - 1 else 0;
      if fptr > 0 || sclust == 0 {
        clst := Stretch(if fptr > 0 then clust else 0, i);
      }
      NextAfter(a, S(), i, clst);
      if clst == 0 {
        full := true;
      } else if clst == 1 {
        res := IntErr;
      } else if clst == DISK_ERROR {
        res := DiskErr;
      } else {
        clust := clst;
        if sclust == 0 { sclust := clst; }
      }
    }

    /** f_write's direct transfer: whole sectors past the buffer, which is refilled when it names one of them. */
    method WriteDirect(data: seq<Byte>, s: Word32, cc: nat) returns (res: FResult)
      requires Wired() && Ready(S()) && |data| == cc * SECTOR_SIZE && cc > 0 && !dirty && fptr % SECTOR_SIZE == 0
      requires s == SectorOf(fs.geo, chain, fptr / SECTOR_SIZE) && fptr / SECTOR_SIZE % fs.geo.csize + cc <= fs.geo.csize
      modifies buf, fs.disk
      ensures Wired() && res in {Ok, DiskErr}
      ensures res == Ok ==> Transferred(old(S()), S(), data, cc)
      ensures res != Ok ==> S().Guarded() && Isolated(old(S()), S()) && Salvaged(old(S()), S(), fptr)
    {
      hide FatFs.Valid, FatFs.View, FatFs.Fat, Geometry.Sound, Placed, OnChain, SectorOf, Isolated, Ready, FileState.Guarded, Salvaged;
      ghost var m := S();
      CursorSector(m);
      RunOnChain(m, cc);
      RunOffWindow(m, s, cc);
      var ok := fs.WriteThrough(data, s, cc);
      res := if ok then Ok else DiskErr;
      ghost var m1 := S();
      assert m1 == m.(v := m1.v);
      OwnChange(m, m1);
      SameGuarded(m, m1);
      DirectSalvaged(m, m1, cc);
      if ok { Refill(data, s, cc); }
    }

    /** Refills the buffer from a direct transfer that covers the sector it names. */
    method Refill(data: seq<Byte>, s: Word32, cc: nat)
      requires Wired() && |data| == cc * SECTOR_SIZE && s + cc <= POW32
      modifies buf
      ensures Wired() && S() == old(S()).(b := if s <= sect < s + cc then Chunk(data, sect - s) else old(S()).b)
    {
      hide FatFs.Valid, FatFs.View, FatFs.Fat;
      Sub32IsRangeTest(sect, s, cc);
      if Sub32(sect, s) < cc {
        var chunk := Chunk(data, sect - s);
        forall j | 0 <= j < SECTOR_SIZE { buf[j] := chunk[j]; }
        assert buf[..] == chunk;
      }
    }

    /** The buffer taken over for the sector under the cursor. */
    method FillBuffer(s: Word32) returns (res: FResult)
      requires Wired() && Ready(S()) && !dirty && fptr % SECTOR_SIZE == 0
      requires s == SectorOf(fs.geo, chain, fptr / SECTOR_SIZE)
      modifies buf, this`sect
      ensures Wired() && S().Guarded() && res in {Ok, DiskErr}
      ensures S() == old(S()).(b := S().b, sect := S().sect) && Salvaged(old(S()), S(), objsize)
      ensures res == Ok ==> sect == s && S().Listed() && sect < |S().v| && Filled(S()) == old(S()).Held()
    {
      hide FatFs.Valid, FatFs.View, FatFs.Fat, Geometry.Sound, Placed, OnChain, SectorOf, Filled, Salvaged;
      ghost var m := S();
      CursorSector(m);
      res := Ok;
      if sect != s && fptr < objsize {
        var ok := fs.LoadThrough(buf, s);
        if !ok { res := DiskErr; }
      }
      if res == Ok {
        sect := s;
        FillStep(m, S());
      }
      ViewSalvaged(m, S());
    }

    /** Bytes copied into the buffer at the cursor. */
    method StoreBuffer(bs: seq<Byte>)
      requires Wired() && fptr % SECTOR_SIZE + |bs| <= SECTOR_SIZE
      modifies buf, this`dirty
      ensures Wired() && S() == old(S()).(b := Patch(old(S()).b, fptr % SECTOR_SIZE, bs), dirty := true)
    {
      hide FatFs.Valid, FatFs.View, FatFs.Fat;
      ghost var b: Sector := buf[..];
      var i := fptr % SECTOR_SIZE;
      forall j | 0 <= j < |bs| { buf[i + j] := bs[j]; }
      assert buf[..] == Patch(b, i, bs);
      dirty := true;
    }

    /** f_write at a sector boundary, the cluster being known: a direct transfer, or the first bytes of a sector. */
    method WriteAligned(rest: seq<Byte>) returns (res: FResult, wcnt: nat)
      requires Wired() && Ready(S()) && writable && fptr % SECTOR_SIZE == 0 && |rest| > 0
      modifies buf, this`sect, this`dirty, fs.disk
      ensures Wired() && res in {Ok, DiskErr} && wcnt <= |rest|
      ensures res == Ok ==> 0 < wcnt && S().f == old(S()).f && Written(old(S()), Advanced(S(), wcnt), rest[..wcnt]) && Isolated(old(S()), Advanced(S(), wcnt))
      ensures res != Ok ==> S().Guarded() && Isolated(old(S()), S()) && Salvaged(old(S()), S(), fptr)
    {
      hide FatFs.Valid, FatFs.View, FatFs.Fat, Placed, OnChain, SectorOf, Filled, Isolated, Written, Ready, FileState.Guarded, Transferred, Clst2Sect, Salvaged;
      ghost var a := S();
      FlushKeeps(a);
      ReadyGuarded(a);
      wcnt := 0;
      res := Flush();
      if res == Ok {
        ghost var m := S();
        CursorSector(m);
        var csect := fptr / SECTOR_SIZE % fs.geo.csize;
        var s := Clst2Sect(fs.geo, clust) + csect;
        var cc := |rest| / SECTOR_SIZE;
        if cc > 0 {
          if csect + cc > fs.geo.csize { cc := fs.geo.csize - csect; }
          wcnt := cc * SECTOR_SIZE;
          res := WriteDirect(rest[..wcnt], s, cc);
          if res == Ok { AlignedTransfer(a, m, S(), rest[..wcnt], cc); }
        } else {
          res := FillBuffer(s);
          ghost var n := S();
          if res == Ok {
            wcnt := |rest|;
            assert rest[..wcnt] == rest;
            StoreBuffer(rest);
            AlignedStore(a, m, n, S(), rest);
          }
          FilledIsolated(m, n);
          if res != Ok { FillFailed(m, n); }
        }
        if res != Ok {
          IsolatedTransitive(a, m, S());
          FlushedSalvaged(a, m, S(), fptr);
        }
      } else {
        FlushFailed(a, S());
      }
    }

    /** The loop's increment. */
    method Advance(n: nat)
      requires Wired() && fptr + n <= 0xFFFF_FFFF
      modifies this`fptr, this`objsize
      ensures Wired() && S() == Advanced(old(S()), n)
    {
      hide FatFs.Valid, FatFs.View, FatFs.Fat;
      fptr := fptr + n;
      objsize := if fptr > objsize then fptr else objsize;
    }

    /** One round of f_write's loop. */
    method WriteStep(rest: seq<Byte>) returns (res: FResult, full: bool, wcnt: nat)
      requires Wired() && S().Whole() && writable && |rest| > 0 && fptr + |rest| <= 0xFFFF_FFFF
      modifies this, buf, fs, fs.win, fs.disk
      ensures Wired() && S().Guarded() && Isolated(old(S()), S()) && res in {Ok, IntErr, DiskErr}
      ensures wcnt <= |rest| && (full ==> res == Ok && wcnt == 0) && (res != Ok ==> Salvaged(old(S()), S(), old(fptr)))
      ensures res == Ok ==> Written(old(S()), S(), rest[..wcnt]) && (!full ==> wcnt > 0)
      ensures full ==> fs.freeClst == 0 || FreeCount(fs.Fat()) == 0
      ensures res == Ok && old(FreeExact(fs)) ==> FreeExact(fs)
      ensures err == old(err) && modified == old(modified)
    {
      hide FatFs.Valid, FatFs.View, FatFs.Fat, Isolated, Written, Ready, FileState.Guarded, FileState.Listed, FileState.Held, FileState.Whole, NextResult, OnBoundary, FreeCount, Salvaged;
      ghost var a := S();
      WholeIsolated(a);
      res, full, wcnt := Ok, false, 0;
      if OnBoundary(fs.geo, fptr) {
        res, full := NextCluster();
      }
      ghost var m := S();
      StepReady(a, m, res, full);
      if res == Ok && !full {
        if fptr % SECTOR_SIZE == 0 {
          res, wcnt := WriteAligned(rest);
        } else {
          wcnt := SECTOR_SIZE - fptr % SECTOR_SIZE;
          if wcnt > |rest| { wcnt := |rest|; }
          StoreBuffer(rest[..wcnt]);
          InsideStore(m, S(), rest[..wcnt]);
        }
        ghost var x := S();
        if res == Ok {
          StepWritten(a, m, Advanced(x, wcnt), rest[..wcnt]);
          Advance(wcnt);
        } else {
          IsolatedTransitive(a, m, x);
          StepSalvaged(a, m, x);
        }
      }
    }

    /** Bytes f_write will try to write: the size of a file stays below 4 GiB. */
    static function Clip(fptr: Word32, btw: Word32): (n: Word32)
      ensures n == if fptr + btw >= POW32 then POW32 - 1 - fptr else btw
      ensures n <= btw && fptr + n < POW32
    {
      if (fptr + btw) % POW32 < fptr then 0xFFFF_FFFF - fptr else btw
    }

    /** f_write on a file open for writing and without error. */
    method WriteLoop(data: seq<Byte>) returns (res: FResult, bw: nat)
      requires Wired() && S().Whole() && writable && fptr + |data| < POW32
      modifies this, buf, fs, fs.win, fs.disk
      ensures Wired() && S().Guarded() && Isolated(old(S()), S()) && bw <= |data| && (res != Ok ==> Salvaged(old(S()), S(), old(fptr)))
      ensures res == Ok ==> Written(old(S()), S(), data[..bw])
      ensures res == Ok && bw < |data| ==> fs.freeClst == 0 || FreeCount(fs.Fat()) == 0
      ensures res == Ok && old(FreeExact(fs)) ==> FreeExact(fs)
      ensures err == old(err) && modified == old(modified)
    {
      hide FatFs.Valid, FatFs.View, FatFs.Fat, Isolated, Written, FreeCount, FreeExact, FileState.Guarded, FileState.Whole, Salvaged;
      ghost var a := S();
      WholeIsolated(a);
      WrittenStart(a);
      bw, res := 0, Ok;
      var full := false;
      while bw < |data| && res == Ok && !full
        invariant Wired() && bw <= |data| && err == old(err) && modified == old(modified)
        invariant S().Guarded() && Isolated(a, S())
        invariant if res == Ok then Written(a, S(), data[..bw]) else Salvaged(a, S(), a.fptr)
        invariant full ==> fs.freeClst == 0 || FreeCount(fs.Fat()) == 0
        invariant res == Ok && old(FreeExact(fs)) ==> FreeExact(fs)
        decreases |data| - bw, if res == Ok then 1 else 0, if full then 0 else 1
      {
        ghost var m := S();
        WrittenWhole(a, m, data[..bw]);
        var wcnt;
        res, full, wcnt := WriteStep(data[bw..]);
        IsolatedTransitive(a, m, S());
        if res == Ok {
          WrittenTwice(a, m, S(), data[..bw], data[bw..][..wcnt]);
          assert data[..bw + wcnt] == data[..bw] + data[bw..][..wcnt];
          bw := bw + wcnt;
        } else {
          WrittenSalvaged(a, m, S(), data[..bw]);
        }
      }
    }

    /** f_write */
    method Write(data: seq<Byte>) returns (res: FResult, bw: nat)
      requires Valid() && |data| < POW32
      modifies this, buf, fs, fs.win, fs.disk
      ensures Valid() && Isolated(old(S()), S()) && bw <= Clip(old(fptr), |data|)
      ensures old(err) != Ok ==> res == old(err) && bw == 0 && S() == old(S()) && err == old(err)
      ensures old(err) == Ok && !writable ==> res == Denied && bw == 0 && S() == old(S()) && err == Ok
      ensures old(err) == Ok && writable && res != Ok ==> err == res && Salvaged(old(S()), S(), old(fptr))
      ensures res == Ok ==> err == Ok && modified && old(chain) <= chain && fptr == old(fptr) + bw
      ensures res == Ok ==> Bytes() == Splice(old(S()).Held(), old(fptr), data[..bw]) && BufferKept(old(S()), S())
      ensures res == Ok && bw < Clip(old(fptr), |data|) ==> fs.freeClst == 0 || FreeCount(fs.Fat()) == 0
      ensures res == Ok && old(FreeExact(fs)) ==> FreeExact(fs)
    {
      hide FatFs.Valid, FatFs.View, FatFs.Fat, Isolated, Written, FreeCount, FreeExact, FileState.Whole, FileState.Held, FileState.Guarded, Salvaged;
      ghost var a := S();
      GuardedIsolated(a);
      bw, res := 0, err;
      if res == Ok && !writable { res := Denied; }
      if res == Ok {
        var btw := Clip(fptr, |data|);
        res, bw := WriteLoop(data[..btw]);
        assert data[..btw][..bw] == data[..bw];
        if res == Ok {
          modified := true;
          WrittenWhole(a, S(), data[..bw]);
        } else {
          err := res;
        }
      }
    }

    // ------------------------------------------------------------ reading

    /** f_read at a cluster boundary: follows the chain. */
    method FollowCluster() returns (res: FResult)
      requires Wired() && S().Whole() && OnBoundary(fs.geo, fptr) && fptr < objsize
      modifies this`clust, fs`winsect, fs`wflag, fs`mirrorStale, fs.win, fs.disk
      ensures Wired() && res in {Ok, DiskErr}
      ensures S() == old(S()).(v := S().v, w := S().w, clust := S().clust)
      ensures SameData(old(S()).v, S().v, fs.geo) && fs.geo.Drifted(old(fs.winsect), fs.winsect)
      ensures res == Ok ==> ClusterIndex(fs.geo, fptr) < |chain| && clust == chain[ClusterIndex(fs.geo, fptr)]
    {
      hide FatFs.Valid, FatFs.View, FatFs.Fat, FileState.Whole, OnBoundary, ClusterIndex, SameData, Agree;
      ghost var a := S();
      FollowBefore(a);
      GeometrySize(a);
      SameDataRefl(a.v, fs.geo);
      res := Ok;
      var clst := sclust;
      if fptr != 0 {
        clst := fs.GetFat(clust);
        SameDataRefl(fs.View(), fs.geo);
        AgreeThenSame(a.v, fs.View(), fs.View(), fs.geo);
      }
      if clst == DISK_ERROR {
        res := DiskErr;
      } else {
        clust := clst;
      }
    }

    /** f_read's direct transfer, with the dirty buffer put over the sector it names. */
    method ReadDirect(s: Word32, cc: nat) returns (res: FResult, data: seq<Byte>)
      requires Wired() && ReadRun(S(), s, cc)
      ensures res in {Ok, DiskErr} && |data| == cc * SECTOR_SIZE
      ensures res == Ok ==> ReadDone(S(), S().(fptr := fptr + |data|), data)
    {
      hide FatFs.Valid, FatFs.View, FatFs.Fat, ReadRun, Holds, ReadDone, Patched;
      ghost var m := S();
      RunInside(m, s, cc);
      var ok;
      ok, data := fs.ReadThrough(s, cc);
      res := DiskErr;
      if ok {
        res := Ok;
        DirectRead(m, s, data, cc);
        data := PatchDirty(data, s, cc);
      }
    }

    /** Puts the dirty buffer over the sector it names in a transfer. */
    method PatchDirty(raw: seq<Byte>, s: Word32, cc: nat) returns (data: seq<Byte>)
      requires Wired() && |raw| == cc * SECTOR_SIZE
      requires Sub32(sect, s) < cc <==> s <= sect < s + cc
      ensures data == Patched(S(), s, cc, raw)
    {
      hide FatFs.Valid, FatFs.View, FatFs.Fat, Replace;
      data := raw;
      if dirty && Sub32(sect, s) < cc {
        data := Replace(raw, sect - s, buf[..]);
      }
    }

    /** Brings the sector under the cursor into the buffer, writing a dirty one back first. */
    method LoadBuffer(s: Word32) returns (res: FResult)
      requires Wired() && Ready(S()) && fptr / SECTOR_SIZE < Capacity(fs.geo, chain) && s == SectorOf(fs.geo, chain, fptr / SECTOR_SIZE)
      modifies this`sect, this`dirty, buf, fs.disk
      ensures Wired() && res in {Ok, DiskErr} && S().Guarded() && Isolated(old(S()), S())
      ensures S() == old(S()).(v := S().v, dirty := S().dirty, sect := S().sect, b := S().b)
      ensures res == Ok ==> Loaded(S()) && S().Held() == old(S()).Held() && BufferKept(old(S()), S())
      ensures res != Ok ==> S().FileView() == old(S()).FileView()
    {
      hide FatFs.Valid, FatFs.View, FatFs.Fat, Ready, SectorOf, Isolated, Loaded, FileState.Held;
      ghost var a := S();
      ReadyGuarded(a);
      GuardedIsolated(a);
      CursorSector(a);
      CursorOffWindow(a);
      res := Ok;
      if sect != s {
        res := Flush();
        if res == Ok {
          ghost var m := S();
          var ok := fs.LoadThrough(buf, s);
          if !ok { res := DiskErr; }
          BufferIsolated(a, m, S());
        }
      }
      if res == Ok {
        sect := s;
        LoadStep(a, S());
      }
    }

    /** One round of f_read's loop; the caller moves the cursor. */
    method ReadStep(btr: nat) returns (res: FResult, data: seq<Byte>)
      requires Wired() && S().Whole() && 0 < btr && fptr + btr <= objsize
      modifies this`clust, this`sect, this`dirty, buf, fs`winsect, fs`wflag, fs`mirrorStale, fs.win, fs.disk
      ensures Wired() && S().Guarded() && Isolated(old(S()), S()) && res in {Ok, IntErr, DiskErr}
      ensures res != Ok ==> Salvaged(old(S()), S(), objsize)
      ensures res == Ok ==> 0 < |data| <= btr && ReadDone(old(S()), S().(fptr := fptr + |data|), data)
    {
      hide FatFs.Valid, FatFs.View, FatFs.Fat, Ready, SectorOf, Isolated, Loaded, FileState.Held, FileState.Whole, FileState.Guarded;
      hide OnBoundary, SameData, ReadDone, FileState.Sound, FileState.Listed, Salvaged;
      ghost var a := S();
      WholeSound(a);
      res, data := Ok, [];
      if OnBoundary(fs.geo, fptr) {
        res := FollowCluster();
      }
      ghost var m := S();
      FollowGuarded(a, m);
      if res == Ok {
        FollowReady(a, m);
        res, data := ReadReady(btr);
        IsolatedTransitive(a, m, S());
        if res == Ok { ReadJoin(a, m, S(), data); } else { ReadFailed(a, m, S()); }
      } else {
        FollowFailed(a, m);
      }
    }

    /** The round once the cluster is known. */
    method ReadReady(btr: nat) returns (res: FResult, data: seq<Byte>)
      requires Wired() && Ready(S()) && 0 < btr && fptr + btr <= objsize
      requires fptr % SECTOR_SIZE != 0 ==> S().Whole()
      modifies this`sect, this`dirty, buf, fs.disk
      ensures Wired() && S().Guarded() && Isolated(old(S()), S()) && res in {Ok, DiskErr}
      ensures S() == old(S()).(v := S().v, dirty := S().dirty, sect := S().sect, b := S().b)
      ensures res != Ok ==> S().FileView() == old(S()).FileView()
      ensures res == Ok ==> 0 < |data| <= btr && S().Listed() && S().Held() == old(S()).Held() && Ready(S()) && BufferKept(old(S()), S())
      ensures res == Ok ==> ReadDone(S(), S().(fptr := fptr + |data|), data)
    {
      hide FatFs.Valid, FatFs.View, FatFs.Fat, Ready, SectorOf, Isolated, Loaded, FileState.Held, FileState.Whole, FileState.Guarded;
      hide ReadDone, FileState.Listed, Clst2Sect;
      ghost var m := S();
      ReadyHeld(m);
      CursorSector(m);
      res, data := Ok, [];
      var csect := fptr / SECTOR_SIZE % fs.geo.csize;
      var s := Clst2Sect(fs.geo, clust) + csect;
      var cc := btr / SECTOR_SIZE;
      if fptr % SECTOR_SIZE == 0 && cc > 0 {
        if csect + cc > fs.geo.csize { cc := fs.geo.csize - csect; }
        res, data := ReadDirect(s, cc);
      } else {
        if fptr % SECTOR_SIZE == 0 {
          res := LoadBuffer(s);
        } else {
          LoadedInside(m);
        }
        if res == Ok {
          var i, rcnt := fptr % SECTOR_SIZE, SECTOR_SIZE - fptr % SECTOR_SIZE;
          if rcnt > btr { rcnt := btr; }
          data := buf[i..i + rcnt];
          BufferRead(S(), data);
          LoadedReady(S());
          ReadyHeld(S());
        }
      }
    }

    method ReadLoop(n: nat) returns (res: FResult, data: seq<Byte>)
      requires Wired() && S().Whole() && fptr + n <= objsize
      modifies this`clust, this`sect, this`dirty, this`fptr, buf, fs`winsect, fs`wflag, fs`mirrorStale, fs.win, fs.disk
      ensures Wired() && S().Guarded() && Isolated(old(S()), S()) && res in {Ok, IntErr, DiskErr}
      ensures res != Ok ==> Salvaged(old(S()), S(), objsize)
      ensures res == Ok ==> |data| == n && ReadDone(old(S()), S(), data)
    {
      hide FatFs.Valid, FatFs.View, FatFs.Fat, Isolated, ReadDone, FileState.Whole, FileState.Guarded, Salvaged;
      ghost var a := S();
      WholeSound(a);
      ReadNothing(a);
      res, data := Ok, [];
      while |data| < n && res == Ok
        invariant Wired() && |data| <= n && res in {Ok, IntErr, DiskErr}
        invariant S().Guarded() && Isolated(a, S())
        invariant if res == Ok then ReadDone(a, S(), data) else Salvaged(a, S(), a.size)
        invariant res != Ok || fptr == old(fptr) + |data|
        decreases n - |data|, if res == Ok then 1 else 0
      {
        ghost var m := S();
        ReadWhole(a, m, data);
        var part;
        res, part := ReadStep(n - |data|);
        ghost var x := S();
        IsolatedTransitive(a, m, x);
        if res == Ok {
          ReadTwice(a, m, x.(fptr := m.fptr + |part|), data, part);
          ReadWhole(m, x.(fptr := m.fptr + |part|), part);
          IsolatedSame(a, x, x.(fptr := m.fptr + |part|));
          fptr := fptr + |part|;
          data := data + part;
        } else {
          DoneSalvaged(a, m, x, data);
        }
      }
    }

    /** f_read */
    method Read(btr: Word32) returns (res: FResult, data: seq<Byte>)
      requires Valid()
      modifies this`clust, this`sect, this`dirty, this`fptr, this`err, buf, fs`winsect, fs`wflag, fs`mirrorStale, fs.win, fs.disk
      ensures Valid() && Isolated(old(S()), S())
      ensures old(err) != Ok ==> res == old(err) && data == [] && S() == old(S()) && err == old(err)
      ensures old(err) == Ok && !readable ==> res == Denied && data == [] && S() == old(S()) && err == Ok
      ensures old(err) == Ok && readable && res != Ok ==> err == res && Salvaged(old(S()), S(), old(objsize))
      ensures res == Ok ==> err == Ok && objsize == old(objsize) && Bytes() == old(S()).Held() && fptr == old(fptr) + |data|
      ensures res == Ok ==> |data| == (if btr > objsize - old(fptr) then objsize - old(fptr) else btr)
      ensures res == Ok ==> data == old(S()).Held()[old(fptr)..old(fptr) + |data|]
      ensures res == Ok ==> fs.Fat() == old(fs.Fat()) && chain == old(chain) && BufferKept(old(S()), S())
    {
      hide FatFs.Valid, FatFs.View, FatFs.Fat, Isolated, ReadDone, FileState.Whole, FileState.Held, FileState.Guarded, Salvaged;
      ghost var a := S();
      GuardedIsolated(a);
      data, res := [], err;
      if res == Ok && !readable { res := Denied; }
      if res == Ok {
        WholeSound(a);
        var remain := objsize - fptr;
        var n := if btr > remain then remain else btr;
        res, data := ReadLoop(n);
        if res == Ok {
          ReadWhole(a, S(), data);
        } else {
          err := res;
        }
      }
    }

    // ------------------------------------------------------------ seeking

    /** The next cluster on f_lseek's way: stretched for when writing, followed when only reading. */
    method WalkStep(ghost i: nat, ghost rem: nat) returns (clst: Word32)
      requires Wired() && Walking(S(), i) && rem > ClusterBytes(fs.geo) && (writable || fptr + rem <= objsize)
      modifies this`chain, fs, fs.win, fs.disk
      ensures Wired()
      ensures writable ==> StretchResult(old(S()), S(), i, clst)
      ensures writable && clst == 0 ==> fs.freeClst == 0 || FreeCount(fs.Fat()) == 0
      ensures !writable ==> S() == old(S()).(v := S().v, w := S().w) && SameData(old(S()).v, S().v, fs.geo) && fs.geo.Drifted(old(fs.winsect), fs.winsect)
      ensures !writable ==> clst == DISK_ERROR || (i + 1 < |chain| && clst == chain[i + 1] >= 2)
      ensures clst != DISK_ERROR && old(FreeExact(fs)) ==> FreeExact(fs)
    {
      hide FatFs.Valid, FatFs.View, FatFs.Fat, StretchResult, FreeCount, SameData, Agree;
      ghost var m := S();
      if writable {
        clst := Stretch(clust, i);
      } else {
        FollowLink(m, i, rem);
        clst := fs.GetFat(clust);
        SameDataRefl(fs.View(), fs.geo);
        AgreeThenSame(m.v, fs.View(), fs.View(), fs.geo);
      }
    }

    /** One round of f_lseek's loop over the clusters. */
    method WalkOn(ghost a: FileState, ghost i: nat, rem: Word32, ghost target: nat) returns (res: FResult, full: bool)
      requires Wired() && OnTheWay(a, S(), i, rem, target) && rem > ClusterBytes(fs.geo) && target < POW32 && (writable || target <= objsize)
      modifies this`chain, this`clust, this`fptr, fs, fs.win, fs.disk
      ensures Wired() && res in {Ok, IntErr, DiskErr} && S().Guarded() && Isolated(a, S()) && (full ==> res == Ok)
      ensures res != Ok ==> Salvaged(a, S(), a.size)
      ensures res == Ok ==> if full then WalkEnd(a, S(), i, 0, true, target)
                            else OnTheWay(a, S(), i + 1, rem - ClusterBytes(fs.geo), target)
      ensures full ==> fs.freeClst == 0 || FreeCount(fs.Fat()) == 0
      ensures res == Ok && old(FreeExact(fs)) ==> FreeExact(fs)
    {
      hide FatFs.Valid, FatFs.View, FatFs.Fat, StretchResult, FreeCount, FreeExact, SameData, OnTheWay, Walking, Isolated, FileState.Guarded, WalkEnd, Salvaged;
      ghost var m := S();
      WayIsolated(a, m, i, rem, target);
      var clst := WalkStep(i, rem);
      WayStep(a, m, S(), i, rem, target, clst);
      res, full := Ok, clst == 0;
      fptr := fptr + fs.geo.csize * SECTOR_SIZE;
      if clst == DISK_ERROR {
        res := DiskErr;
      } else if clst == 1 {
        res := IntErr;
      } else if clst != 0 {
        clust := clst;
      }
    }

    /** f_lseek's loop over the clusters. */
    method SeekWalk(ofs: Word32, ghost first: nat) returns (res: FResult, rem: Word32, full: bool, ghost i: nat)
      requires Wired() && Walking(S(), first) && 0 < ofs && fptr + ofs < POW32 && (writable || fptr + ofs <= objsize)
      modifies this`chain, this`clust, this`fptr, fs, fs.win, fs.disk
      ensures Wired() && res in {Ok, IntErr, DiskErr} && S().Guarded() && Isolated(old(S()), S())
      ensures res != Ok ==> Salvaged(old(S()), S(), old(objsize))
      ensures res == Ok ==> WalkEnd(old(S()), S(), i, rem, full, old(fptr) + ofs)
      ensures res == Ok && full ==> fs.freeClst == 0 || FreeCount(fs.Fat()) == 0
      ensures res == Ok && old(FreeExact(fs)) ==> FreeExact(fs)
    {
      hide FatFs.Valid, FatFs.View, FatFs.Fat, FreeCount, FreeExact, OnTheWay, Walking, Isolated, FileState.Guarded, Salvaged;
      ghost var a := S();
      ghost var target := fptr + ofs;
      var bcs := fs.geo.csize * SECTOR_SIZE;
      res, rem, full, i := Ok, ofs, false, first;
      WayStart(a, first, ofs);
      WayIsolated(a, a, i, rem, target);
      while res == Ok && !full && rem > bcs
        invariant Wired() && res in {Ok, IntErr, DiskErr} && S().Guarded() && Isolated(a, S()) && (res != Ok ==> Salvaged(a, S(), a.size))
        invariant res == Ok && !full ==> OnTheWay(a, S(), i, rem, target)
        invariant full ==> res == Ok && WalkEnd(a, S(), i, rem, true, target)
        invariant full ==> fs.freeClst == 0 || FreeCount(fs.Fat()) == 0
        invariant res == Ok && old(FreeExact(fs)) ==> FreeExact(fs)
        decreases rem, if res == Ok then 1 else 0
      {
        WayIsolated(a, S(), i, rem, target);
        res, full := WalkOn(a, i, rem, target);
        if full {
          rem := 0;
        } else if res == Ok {
          rem, i := rem - bcs, i + 1;
        }
      }
      if res == Ok && !full { WayIsolated(a, S(), i, rem, target); }
    }

    /** The cluster f_lseek starts to walk from. */
    method SeekStart(ofs: Word32) returns (res: FResult, rem: Word32, full: bool, ghost i: nat)
      requires Wired() && S().Whole() && 0 < ofs && (writable || ofs <= objsize)
      modifies this`chain, this`clust, this`sclust, this`fptr, fs, fs.win, fs.disk
      ensures Wired() && res in {Ok, IntErr, DiskErr} && S().Guarded() && Isolated(old(S()), S()) && (full ==> res == Ok)
      ensures res != Ok ==> Salvaged(old(S()), S(), old(objsize))
      ensures res == Ok ==> SeekStarted(old(S()), S(), i, rem, full, ofs)
      ensures full ==> fs.freeClst == 0 || FreeCount(fs.Fat()) == 0
      ensures res == Ok && old(FreeExact(fs)) ==> FreeExact(fs)
    {
      hide FatFs.Valid, FatFs.View, FatFs.Fat, StretchResult, FreeCount, FreeExact, Isolated, FileState.Guarded, SeekStarted, SameFile, Salvaged;
      ghost var a := S();
      WholeBasics(a);
      var bcs := fs.geo.csize * SECTOR_SIZE;
      var ifptr := fptr;
      res, rem, full, i := Ok, ofs, false, 0;
      if ifptr > 0 && (ofs - 1) / bcs >= (ifptr - 1) / bcs {
        SeekStartHere(a, ofs);
        fptr := (ifptr - 1) / bcs * bcs;
        rem, i := ofs - fptr, (ifptr - 1) / bcs;
        StartedIsolated(a, S(), i, rem, full, ofs);
      } else if sclust != 0 {
        SeekStartFirst(a, ofs);
        fptr, clust := 0, sclust;
        StartedIsolated(a, S(), i, rem, full, ofs);
      } else {
        res, full := SeekNew(ofs);
        if full { rem := 0; }
      }
    }

    /** f_lseek on a file without clusters: the first one. */
    method SeekNew(ofs: Word32) returns (res: FResult, full: bool)
      requires Wired() && S().Whole() && 0 < ofs && sclust == 0
      modifies this`chain, this`clust, this`sclust, this`fptr, fs, fs.win, fs.disk
      ensures Wired() && res in {Ok, IntErr, DiskErr} && S().Guarded() && Isolated(old(S()), S()) && (full ==> res == Ok)
      ensures res != Ok ==> Salvaged(old(S()), S(), old(objsize))
      ensures res == Ok ==> SeekStarted(old(S()), S(), 0, if full then 0 else ofs, full, ofs)
      ensures full ==> fs.freeClst == 0 || FreeCount(fs.Fat()) == 0
      ensures res == Ok && old(FreeExact(fs)) ==> FreeExact(fs)
    {
      hide FatFs.Valid, FatFs.View, FatFs.Fat, StretchResult, FreeCount, FreeExact, Isolated, FileState.Guarded, SeekStarted, SameFile, Salvaged;
      ghost var a := S();
      fptr := 0;
      assert S() == a.(fptr := 0);
      WholeSound(a.(fptr := 0));
      var clst := Stretch(0, 0);
      SeekStartNew(a, S(), clst, ofs);
      res, full := Ok, false;
      if clst == 1 {
        res := IntErr;
      } else if clst == DISK_ERROR {
        res := DiskErr;
      } else {
        sclust, clust := clst, clst;
        full := clst == 0;
      }
    }

    /** Loads the sector under the new cursor, unless the cursor is on a boundary or it is there. */
    method SeekLoad(nsect: Word32) returns (res: FResult)
      requires Wired() && S().Guarded() && fs.geo.csize > 0
      requires fptr % SECTOR_SIZE != 0 ==>
                 fptr / SECTOR_SIZE < Capacity(fs.geo, chain) && nsect == SectorOf(fs.geo, chain, fptr / SECTOR_SIZE) != fs.winsect
      modifies this`dirty, this`sect, buf, fs.disk
      ensures Wired() && res in {Ok, DiskErr} && S().Guarded() && Isolated(old(S()), S())
      ensures S() == old(S()).(v := S().v, dirty := S().dirty, sect := S().sect, b := S().b)
      ensures res == Ok ==> SeekLoaded(old(S()), S())
      ensures res != Ok ==> S().FileView() == old(S()).FileView()
    {
      hide FatFs.Valid, FatFs.View, FatFs.Fat, SectorOf, Isolated, OnChain, Placed;
      ghost var a := S();
      GuardedIsolated(a);
      res := Ok;
      if fptr % SECTOR_SIZE != 0 && nsect != sect {
        res := Flush();
        ghost var m := S();
        if res == Ok {
          var ok := fs.LoadThrough(buf, nsect);
          if ok { sect := nsect; } else { res := DiskErr; }
          IsolatedSame(a, m, S());
        }
      }
    }

    /** f_lseek once the walk has ended. */
    method SeekFinish(ghost a: FileState, ghost i: nat, rem: Word32, full: bool, ghost target: nat) returns (res: FResult)
      requires Wired() && WalkEnd(a, S(), i, rem, full, target) && target < POW32 && objsize == a.size && (!a.writable ==> target <= a.size)
      modifies this`fptr, this`objsize, this`modified, this`dirty, this`sect, buf, fs.disk
      ensures Wired() && res in {Ok, DiskErr} && S().Guarded() && Isolated(a, S()) && S().f == old(S()).f
      ensures res == Ok ==> SeekDone(a, S()) && fptr == if full then old(fptr) else target
      ensures res != Ok ==> Salvaged(a, S(), a.size)
      ensures res == Ok && fptr > a.size ==> modified
    {
      hide FatFs.Valid, FatFs.View, FatFs.Fat, SectorOf, Isolated, SameFile, Arrived, SeekDone, FileState.Guarded, Clst2Sect, SeekLoaded, FileState.Rooted, Salvaged;
      ghost var w := S();
      SeekArrived(a, w, i, rem, full, target);
      var nsect := 0;
      if !full && rem % SECTOR_SIZE != 0 {
        nsect := Clst2Sect(fs.geo, clust) + rem / SECTOR_SIZE;
      }
      fptr := fptr + rem;
      ghost var m := S();
      if fptr > objsize {
        objsize := fptr;
        modified := true;
      }
      ghost var x := S();
      assert m == w.(fptr := w.fptr + rem) && x == Grown(m);
      res := SeekLoad(nsect);
      IsolatedTransitive(a, x, S());
      if res == Ok { SeekEnd(a, m, S()); } else { SeekFailed(a, m, S()); }
    }

    /** f_lseek up to loading the sector: the cursor's way over the chain. */
    method SeekPath(ofs: Word32) returns (res: FResult, rem: Word32, full: bool, ghost i: nat)
      requires Wired() && S().Whole() && 0 < ofs && (writable || ofs <= objsize)
      modifies this`chain, this`clust, this`sclust, this`fptr, fs, fs.win, fs.disk
      ensures Wired() && res in {Ok, IntErr, DiskErr} && S().Guarded() && Isolated(old(S()), S())
      ensures res != Ok ==> Salvaged(old(S()), S(), old(objsize))
      ensures res == Ok ==> WalkEnd(old(S()), S(), i, rem, full, ofs)
      ensures res == Ok && full ==> fs.freeClst == 0 || FreeCount(fs.Fat()) == 0
      ensures res == Ok && old(FreeExact(fs)) ==> FreeExact(fs)
    {
      hide FatFs.Valid, FatFs.View, FatFs.Fat, FreeCount, FreeExact, Isolated, FileState.Guarded, SeekStarted, SameFile, Walking, WalkEnd, Salvaged;
      ghost var a := S();
      res, rem, full, i := SeekStart(ofs);
      ghost var m := S();
      if res == Ok && full {
        rem := 0;
        StartedZero(a, m, i, ofs);
        StartedFull(a, m, i, ofs);
      }
      if res == Ok && !full {
        StartedWalking(a, m, i, rem, ofs);
        res, rem, full, i := SeekWalk(rem, i);
        IsolatedTransitive(a, m, S());
        if res == Ok { WalkEndFrom(a, m, S(), i, rem, full, ofs); } else { SameFileSalvaged(a, m, S()); }
      }
    }

    /** f_lseek */
    method Seek(to: Word32) returns (res: FResult)
      requires Valid()
      modifies this, buf, fs, fs.win, fs.disk
      ensures Wired() && S().Guarded() && Isolated(old(S()), S())
      ensures Valid() <==> res != Ok || S().Cached()
      ensures old(Harmless(S())) || objsize == old(objsize) ==> Valid()
      ensures res == Ok && fptr == to && old(Doomed(S(), to)) ==> !Valid()
      ensures old(err) != Ok ==> res == old(err) && S() == old(S()) && err == old(err)
      ensures old(err) == Ok && res != Ok ==> err == res && Salvaged(old(S()), S(), old(objsize))
      ensures res == Ok ==> S().Settled() && BufferKept(old(S()), S())
      ensures res == Ok ==> err == Ok && old(S()).Held() <= S().Held() && objsize == Max(old(objsize), fptr) && old(chain) <= chain
      ensures res == Ok ==> fptr <= Target(old(objsize), to) && (fptr > old(objsize) ==> modified)
      ensures res == Ok && fptr < Target(old(objsize), to) ==> fs.freeClst == 0 || FreeCount(fs.Fat()) == 0
      ensures res == Ok && old(FreeExact(fs)) ==> FreeExact(fs)
    {
      hide FatFs.Valid, FatFs.View, FatFs.Fat, FreeCount, Isolated, FileState.Guarded, FileState.Whole, FileState.Held, FileState.Cached, WalkEnd, SeekDone, Harmless, Doomed, Salvaged;
      ghost var a := S();
      GuardedIsolated(a);
      res := err;
      if res == Ok {
        var ofs := Target(objsize, to);
        WholeSound(a);
        SeekZero(a);
        if ofs > 0 {
          var rem, full;
          ghost var i;
          res, rem, full, i := SeekPath(ofs);
          if res == Ok {
            ghost var m := S();
            WalkEndSize(a, m, i, rem, full, ofs);
            res := SeekFinish(a, i, rem, full, ofs);
          }
        } else {
          fptr := 0;
        }
        if res == Ok { SeekOutcome(a, S(), to); }
        err := res;
      }
    }

    /** The offset f_lseek goes for: at most the end of the file when it is not open for writing. */
    function Target(size: Word32, ofs: Word32): Word32 {
      if ofs > size && !writable then size else ofs
    }

    // ------------------------------------------------------------ truncating

    /** f_truncate's work on the table. */
    method TruncateTable() returns (res: FResult)
      requires Wired() && S().Whole() && fptr < objsize
      modifies fs, fs.win, fs.disk
      ensures Wired() && TableCut(old(S()), S(), res)
      ensures res == Ok && old(FreeExact(fs)) ==> FreeExact(fs)
    {
      hide FatFs.Valid, FatFs.View, FatFs.Fat, TableCut, FreeExact;
      if fptr == 0 {
        res := TruncateWhole();
      } else {
        res := TruncateTail();
      }
    }

    /** A file cut at its first byte loses its whole chain. */
    method TruncateWhole() returns (res: FResult)
      requires Wired() && S().Whole() && 0 == fptr < objsize
      modifies fs, fs.win, fs.disk
      ensures Wired() && TableCut(old(S()), S(), res)
      ensures res == Ok && old(FreeExact(fs)) ==> FreeExact(fs)
    {
      hide FatFs.Valid, FatFs.View, FatFs.Fat, SameData, Freed, Removal, KeepsOthers, Isolated, FreeExact, Geometry.Truncated;
      ghost var a := S();
      fs.GeometryFacts();
      KeptBounds(a);
      RemovalInChain(a);
      res := RemoveChain(fs, sclust, 0);
      OwnTableChange(a, S(), Removal(fs.geo, a.f, sclust, 0));
    }

    /** A file cut further on loses the clusters behind the one of the cursor, if there are any. */
    method TruncateTail() returns (res: FResult)
      requires Wired() && S().Whole() && 0 < fptr < objsize
      modifies fs, fs.win, fs.disk
      ensures Wired() && TableCut(old(S()), S(), res)
      ensures res == Ok && old(FreeExact(fs)) ==> FreeExact(fs)
    {
      hide FatFs.Valid, FatFs.View, FatFs.Fat, SameData, Agree, Freed, Removal, KeepsOthers, Isolated, FreeCount, Geometry.Truncated;
      ghost var a := S();
      fs.GeometryFacts();
      KeptBounds(a);
      LinkBehind(a);
      var ncl := fs.GetFat(clust);
      ghost var m := S();
      SameDataRefl(m.v, fs.geo);
      AgreeThenSame(a.v, m.v, m.v, fs.geo);
      SameKeeps(a.f);
      OwnTableChange(a, m, {});
      LinksOwn(a);
      res := if ncl == DISK_ERROR then DiskErr else if ncl == 1 then IntErr else Ok;
      if res == Ok && ncl < fs.geo.nFatent {
        res := TruncateBehind(a, ncl);
      }
    }

    method TruncateBehind(ghost a: FileState, ncl: Word32) returns (res: FResult)
      requires Wired() && a.Whole() && a.g.csize > 0 && 0 < Kept(a) < |a.chain| && a.clust == a.chain[Kept(a) - 1] && ncl == a.chain[Kept(a)]
      requires S() == a.(v := S().v, w := S().w) && SameData(a.v, S().v, fs.geo) && fs.geo.Drifted(a.w, fs.winsect) && InUse(a.f, a.clust)
      modifies fs, fs.win, fs.disk
      ensures Wired() && TableCut(a, S(), res)
      ensures res == Ok && old(FreeExact(fs)) ==> FreeExact(fs)
    {
      hide FatFs.Valid, FatFs.View, FatFs.Fat, SameData, Freed, Removal, KeepsOthers, Isolated, FreeExact, Geometry.Truncated;
      ghost var m := S();
      fs.GeometryFacts();
      KeptBounds(a);
      RemovalInChain(a);
      res := RemoveChain(fs, ncl, clust);
      SameDataTransitive(a.v, m.v, fs.View(), fs.geo);
      OwnTableChange(a, S(), Removal(fs.geo, a.f, ncl, clust));
      LinksStay(a, S().f);
    }

    /** f_truncate */
    method Truncate() returns (res: FResult)
      requires Valid()
      modifies this, buf, fs, fs.win, fs.disk
      ensures Valid() && Isolated(old(S()), S())
      ensures old(err) != Ok ==> res == old(err) && S() == old(S()) && err == old(err)
      ensures old(err) == Ok && !writable ==> res == Denied && S() == old(S()) && err == Ok
      ensures old(err) == Ok && writable && res != Ok ==> err == res && CutShort(old(S()), S())
      ensures res == Ok ==> err == Ok && Bytes() == old(S()).Held()[..old(fptr)] && fptr == old(fptr)
      ensures res == Ok ==> sect == old(sect) && (old(S()).UpToDate() ==> S().UpToDate())
      ensures res == Ok && old(FreeExact(fs)) ==> FreeExact(fs)
    {
      hide FatFs.Valid, FatFs.View, FatFs.Fat, Isolated, TableCut, FileState.Whole, FileState.Held, FileState.Guarded, Truncated, FreeCount;
      ghost var a := S();
      GuardedIsolated(a);
      res := err;
      if res == Ok && !writable { res := Denied; }
      if res == Ok {
        WholeSound(a);
        if fptr < objsize {
          res := TruncateTable();
          res := TruncateFields(a, res);
          if res == Ok { TruncatedGuarded(a, S()); }
          err := res;
        } else {
          WholeHeld(a);
        }
      }
    }

    /** f_truncate after its work on the table. */
    method TruncateFields(ghost a: FileState, table: FResult) returns (res: FResult)
      requires Wired() && a.Whole() && a.fptr < a.size && TableCut(a, S(), table)
      modifies this`sclust, this`objsize, this`chain, this`modified, this`dirty, fs.disk
      ensures Wired() && S().Guarded() && Isolated(a, S()) && S().f == old(S()).f
      ensures table != Ok ==> res == table
      ensures res == Ok ==> Truncated(a, S()) && modified
      ensures res != Ok ==> CutShort(a, S())
    {
      hide FatFs.Valid, FatFs.View, FatFs.Fat, Isolated, Overlay, CutTable, FileState.Guarded, SameData, LinksKept, CutShort, Truncated, TableCut, FileState.Whole;
      ghost var m := S();
      TableCutFacts(a, m, table);
      if fptr == 0 { sclust := 0; }
      objsize := fptr;
      modified := true;
      res := table;
      ghost var x := S();
      FieldsIsolated(a, m, x);
      if res == Ok {
        res := Flush();
        if res == Ok {
          chain := chain[..Kept(a)];
          assert S() == CutFile(a, m);
          CutDone(a, m);
        } else {
          IsolatedTransitive(a, x, S());
        }
      }
      if res != Ok { FailedCut(a, m, S(), table); }
    }
  }
}
