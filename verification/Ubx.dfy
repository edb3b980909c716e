/** The u-blox framing as the source runs it: a receive buffer filled by reads of any length, two
    accumulation buffers, and a state machine fed byte by byte. */
module UbxFraming {
  import opened Arith
  import opened Options
  import opened UbxTheory

  function AsSeq<T>(o: Option<T>): seq<T> { if o.Some? then [o.value] else [] }

  /** ubx_calc_crc: the two sums packed in 16 bits. */
  method CalcCrc(buf: array<Byte>, n: nat) returns (ck: nat)
    requires n <= buf.Length
    ensures ck == 256 * Checksum(buf[..n]).1 as int + Checksum(buf[..n]).0 as int
  {
    var a: int, b: int := 0, 0;
    for i := 0 to n
      invariant a == Checksum(buf[..i]).0 && b == Checksum(buf[..i]).1
    {
      assert buf[..i + 1][..i] == buf[..i];
      a := (a + buf[i] as int) % 256;
      b := (b + a) % 256;
    }
    ck := 256 * b + a;
  }

  /** The serial line: reads deliver the stream in non-empty pieces of any length, or fail. */
  class Serial {
    const stream: seq<Byte>
    var pos: nat

    constructor (stream: seq<Byte>)
      ensures this.stream == stream && pos == 0
    {
      this.stream, pos := stream, 0;
    }

    method Read(max: nat) returns (n: int, bytes: seq<Byte>)
      requires max > 0 && pos <= |stream|
      modifies this
      ensures n < 0 ==> pos == old(pos)
      ensures n >= 0 ==> 1 <= n <= max && old(pos) + n == pos <= |stream| && bytes == stream[old(pos)..pos]
    {
      n, bytes := -1, [];
      var fails: bool := *;
      if pos < |stream| && !fails {
        n :| 1 <= n <= max && pos + n <= |stream|;
        bytes := stream[pos..pos + n];
        pos := pos + n;
      }
    }
  }

  class Framing {
    const limits: Limits
    const serial: Serial
    const ubxBuf: array<Byte>
    /** The vector and the two bytes behind it that an RTCM frame may reach. */
    const rtcmBuf: array<Byte>
    var state: Rx
    var ubxLen: nat
    var rtcmLen: nat
    var unframed: nat
    var ubxFrames: nat
    var ubxErrors: nat
    var rtcmFrames: nat
    var rxBuf: seq<Byte>
    var rxIndex: nat
    var rxBytes: nat
    /** The bytes processed and the frames output so far. */
    ghost var seen: seq<Byte>
    ghost var emitted: seq<Frame>

    ghost predicate Sound()
      reads this, ubxBuf, rtcmBuf
    {
      && ubxBuf != rtcmBuf && ubxBuf.Length == limits.ubx && rtcmBuf.Length == limits.rtcm + 2 && limits.ubx >= 6 && limits.rtcm >= 6
      && ubxLen <= ubxBuf.Length && rtcmLen <= rtcmBuf.Length
    }

    ghost function P(): Parser
      requires Sound()
      reads this, ubxBuf, rtcmBuf
    {
      Parser(state, ubxBuf[..ubxLen], rtcmBuf[..rtcmLen], unframed, ubxFrames, ubxErrors, rtcmFrames)
    }

    ghost predicate Valid()
      reads this, ubxBuf, rtcmBuf, serial
    {
      && Sound() && (P(), emitted) == Parse(START, seen, limits)
      && rxIndex <= |rxBuf| && serial.pos <= |serial.stream| && seen + rxBuf[rxIndex..] == serial.stream[..serial.pos]
      && rxBytes == serial.pos % 0x1_0000_0000
    }

    constructor (serial: Serial, limits: Limits)
      requires serial.pos == 0 && limits.ubx >= 6 && limits.rtcm >= 6
      ensures Valid() && seen == [] && emitted == [] && this.serial == serial && this.limits == limits
      ensures fresh(ubxBuf) && fresh(rtcmBuf)
    {
      this.serial, this.limits := serial, limits;
      ubxBuf := new Byte[limits.ubx];
      rtcmBuf := new Byte[limits.rtcm + 2];
      state, ubxLen, rtcmLen, unframed, ubxFrames, ubxErrors, rtcmFrames := Reset, 0, 0, 0, 0, 0, 0;
      rxBuf, rxIndex, rxBytes, seen, emitted := [], 0, 0, [], [];
    }

    method PutUbx(c: Byte)
      requires Sound() && ubxLen < ubxBuf.Length
      modifies this`ubxLen, ubxBuf
      ensures Sound() && P() == old(P()).(ubx := old(P().ubx) + [c]) && ubxLen == old(ubxLen) + 1
    {
      ubxBuf[ubxLen] := c;
      ubxLen := ubxLen + 1;
    }

    method PutRtcm(c: Byte)
      requires Sound() && rtcmLen < rtcmBuf.Length
      modifies this`rtcmLen, rtcmBuf
      ensures Sound() && P() == old(P()).(rtcm := old(P().rtcm) + [c]) && rtcmLen == old(rtcmLen) + 1
    {
      rtcmBuf[rtcmLen] := c;
      rtcmLen := rtcmLen + 1;
    }

    /** Cases RESET and UBX_RTCM_WAIT_START_SC. */
    method Hunt(c: Byte)
      requires Sound() && (state == Reset || (state == WaitStart && ubxLen == 0 && rtcmLen == 0))
      modifies this`state, this`ubxLen, this`rtcmLen, this`unframed, rtcmBuf
      ensures Sound() && P() == Step(old(P()), c, limits).0
    {
      if state == Reset {
        state, ubxLen, rtcmLen := WaitStart, 0, 0;
      }
      if c == SYNC_1 {
        state := WaitSync;
      } else if c == RTCM_START {
        PutRtcm(c);
        state := RtcmLength;
      } else {
        unframed := Count32(unframed);
      }
    }

    /** Case UBX_WAIT_LENGTH. */
    method Length(c: Byte)
      requires Sound() && state == WaitLength && ubxLen < 4
      modifies this`state, this`ubxLen, ubxBuf
      ensures Sound() && P() == Step(old(P()), c, limits).0
    {
      PutUbx(c);
      if ubxLen == 4 {
        var len := ubxBuf[2] as int + 256 * ubxBuf[3] as int;
        state := if len > limits.ubx - 4 - 2 then Reset else WaitRest;
      }
    }

    /** Case UBX_WAIT_REST. */
    method Rest(c: Byte) returns (out: Option<Frame>)
      requires Sound() && state == WaitRest && 4 <= ubxLen < ubxBuf.Length
      modifies this`state, this`ubxLen, this`ubxFrames, this`ubxErrors, ubxBuf
      ensures Sound() && (P(), AsSeq(out)) == Step(old(P()), c, limits)
    {
      hide IsUbx, Checksum;
      out := None;
      PutUbx(c);
      var len := ubxBuf[2] as int + 256 * ubxBuf[3] as int;
      if ubxLen - 4 - 2 == len {
        var ck := CalcCrc(ubxBuf, len + 4);
        assert ubxBuf[..ubxLen][..len + 4] == ubxBuf[..len + 4];
        UbxByChecksum(ubxBuf[..ubxLen], ck);
        if ck % 256 == ubxBuf[len + 4] && ck / 256 == ubxBuf[len + 5] {
          out := Some(UbxFrame(ubxBuf[..ubxLen]));
          ubxFrames := Count32(ubxFrames);
        } else {
          ubxErrors := Count32(ubxErrors);
        }
        state := Reset;
      }
    }

    /** Case RTCM_WAIT_LENGTH. */
    method LengthRtcm(c: Byte)
      requires Sound() && state == RtcmLength && rtcmLen < 3
      modifies this`state, this`rtcmLen, rtcmBuf
      ensures Sound() && P() == Step(old(P()), c, limits).0
    {
      PutRtcm(c);
      if rtcmLen == 1 + 2 {
        var len := 256 * rtcmBuf[1] as int + rtcmBuf[2] as int;
        state := if len > limits.rtcm - 4 then Reset else RtcmRest;
      }
    }

    /** Case RTCM_WAIT_REST. */
    method RestRtcm(c: Byte) returns (out: Option<Frame>)
      requires Sound() && state == RtcmRest && 3 <= rtcmLen < rtcmBuf.Length
      modifies this`state, this`rtcmLen, this`rtcmFrames, rtcmBuf
      ensures Sound() && (P(), AsSeq(out)) == Step(old(P()), c, limits)
    {
      out := None;
      PutRtcm(c);
      var len := 256 * rtcmBuf[1] as int + rtcmBuf[2] as int;
      if rtcmLen == len + 1 + 2 + 3 {
        out := Some(RtcmFrame(rtcmBuf[..rtcmLen]));
        rtcmFrames := Count32(rtcmFrames);
        state := Reset;
      }
    }

    /** One byte through the state machine. */
    method Dispatch(c: Byte) returns (out: Option<Frame>)
      requires Sound() && Tracks(P(), seen, limits)
      modifies this`state, this`ubxLen, this`rtcmLen, this`unframed, this`ubxFrames, this`ubxErrors, this`rtcmFrames, ubxBuf, rtcmBuf
      ensures Sound() && (P(), AsSeq(out)) == Step(old(P()), c, limits)
      ensures out.Some? ==> state == Reset
    {
      hide EndsWith;
      out := None;
      match state
      case WaitSync => state := if c == SYNC_2 then WaitLength else Reset;
      case WaitLength => Length(c);
      case WaitRest => out := Rest(c);
      case RtcmLength => LengthRtcm(c);
      case RtcmRest => out := RestRtcm(c);
      case _ => Hunt(c);
    }

    method ProcessByte() returns (out: Option<Frame>)
      requires Valid() && rxIndex < |rxBuf|
      modifies this, ubxBuf, rtcmBuf
      ensures Valid() && rxBuf == old(rxBuf) && rxIndex == old(rxIndex) + 1 && seen == old(seen) + [rxBuf[old(rxIndex)]]
      ensures emitted == old(emitted) + AsSeq(out) && (out.Some? ==> state == Reset)
    {
      hide Step, Tracks;
      ParseTracks(seen, limits);
      var c := rxBuf[rxIndex];
      out := Dispatch(c);
      assert (seen + [c])[..|seen|] == seen && [c] + rxBuf[rxIndex + 1..] == rxBuf[rxIndex..];
      rxIndex := rxIndex + 1;
      seen, emitted := seen + [c], emitted + AsSeq(out);
    }

    /** ubx_process: at least one byte, then on until the buffer is used up or the machine is reset. */
    method Process() returns (out: Option<Frame>)
      requires Valid() && rxIndex < |rxBuf|
      modifies this, ubxBuf, rtcmBuf
      ensures Valid() && rxBuf == old(rxBuf) && rxIndex > old(rxIndex) && old(seen) <= seen
      ensures emitted == old(emitted) + AsSeq(out)
    {
      out := ProcessByte();
      while rxIndex < |rxBuf| && state != Reset
        invariant Valid() && rxBuf == old(rxBuf) && rxIndex > old(rxIndex) && old(seen) <= seen
        invariant emitted == old(emitted) + AsSeq(out) && (out.Some? ==> state == Reset)
        decreases |rxBuf| - rxIndex
      {
        out := ProcessByte();
      }
    }

    /** One activation: reads and processes until a frame is output or a read fails. */
    method Exec() returns (out: Option<Frame>)
      requires Valid()
      modifies this, ubxBuf, rtcmBuf, serial
      ensures Valid() && old(seen) <= seen && emitted == old(emitted) + AsSeq(out)
      ensures out.None? ==> rxIndex == |rxBuf|
    {
      out := None;
      var failed := false;
      while out.None? && !failed
        invariant Valid() && old(seen) <= seen && emitted == old(emitted) + AsSeq(out)
        invariant failed ==> rxIndex == |rxBuf|
        decreases |serial.stream| - |seen|, if failed || out.Some? then 0 else 1
      {
        if rxIndex >= |rxBuf| {
          failed := Fill();
        }
        if !failed {
          out := Process();
        }
      }
    }

    /** The read of exec: 256 bytes at most; true when it fails. */
    method Fill() returns (failed: bool)
      requires Valid() && rxIndex == |rxBuf|
      modifies this`rxBuf, this`rxIndex, this`rxBytes, serial
      ensures Valid() && (if failed then rxIndex == |rxBuf| else rxIndex < |rxBuf|)
    {
      hide Parse, Step;
      ghost var was := serial.pos;
      var n, bytes := serial.Read(256);
      failed := n < 0;
      if !failed {
        ModAdd(was, n, 0x1_0000_0000);
        rxBytes := (rxBytes + n) % 0x1_0000_0000;
        rxBuf, rxIndex := bytes, 0;
        assert serial.stream[..serial.pos] == seen + bytes;
      }
    }
  }

  /** Receivers that have processed the same bytes, however the reads cut them, are in the same state
      and have output the same frames. */
  lemma {:induction false} ChunkingIndependent(a: Framing, b: Framing)
    requires a.Valid() && b.Valid() && a.limits == b.limits && a.serial.stream == b.serial.stream && |a.seen| == |b.seen|
    ensures a.emitted == b.emitted && a.P() == b.P()
  {
    hide Parse;
    var s := a.serial.stream;
    assert a.seen == s[..a.serial.pos][..|a.seen|] == s[..|a.seen|];
    assert b.seen == s[..b.serial.pos][..|b.seen|] == s[..|b.seen|];
  }

  /** Once everything sent has been processed, exactly the sent frames have been output, in order. */
  lemma {:induction false} Delivered(f: Framing, ps: seq<Piece>)
    requires f.Valid() && Fitting(ps, f.limits) && f.serial.stream == Sent(ps, f.limits)
    requires f.serial.pos == |f.serial.stream| && f.rxIndex == |f.rxBuf|
    ensures f.emitted == Bodies(ps, f.limits)
  {
    hide Parse, Sent, Bodies;
    assert f.rxBuf[f.rxIndex..] == [] && f.serial.stream[..f.serial.pos] == f.serial.stream;
    assert f.seen == f.serial.stream;
    ParseSent(START, ps, f.limits);
  }
}
