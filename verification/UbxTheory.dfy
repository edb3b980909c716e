/** The u-blox framing as a function of the bytes received: the parser's steps, what it may emit,
    and the frames an encoder sends. */
module UbxTheory {
  import opened Arith

  datatype Rx = Reset | WaitStart | WaitSync | WaitLength | WaitRest | RtcmLength | RtcmRest

  datatype Frame = UbxFrame(bytes: seq<Byte>) | RtcmFrame(bytes: seq<Byte>)

  /** Sizes of the two accumulation buffers. */
  datatype Limits = Limits(ubx: nat, rtcm: nat)

  /** Everything the parser keeps between bytes. */
  datatype Parser = Parser(state: Rx, ubx: seq<Byte>, rtcm: seq<Byte>, unframed: nat, ubxFrames: nat, ubxErrors: nat, rtcmFrames: nat)

  const SYNC_1: Byte := 0xB5
  const SYNC_2: Byte := 0x62
  const RTCM_START: Byte := 0xD3

  function Count32(n: nat): nat { (n + 1) % 0x1_0000_0000 }

  /** The length field of a UBX header (little-endian) and of an RTCM one (big-endian). */
  function UbxLength(b: seq<Byte>): nat
    requires |b| >= 4
  {
    b[2] as int + 256 * b[3] as int
  }

  function RtcmLengthOf(b: seq<Byte>): nat
    requires |b| >= 3
  {
    256 * b[1] as int + b[2] as int
  }

  // ---------------------------------------------------------------- checksum

  /** The two running sums of the checksum. */
  function Checksum(b: seq<Byte>): (Byte, Byte) {
    if |b| == 0 then (0, 0)
    else
      var (x, y) := Checksum(b[..|b| - 1]);
      var x' := (x + b[|b| - 1]) % 256;
      (x', (y + x') % 256)
  }

  function Sum(b: seq<Byte>): nat { if |b| == 0 then 0 else Sum(b[..|b| - 1]) + b[|b| - 1] }

  /** Each byte weighted by the number of bytes from it to the end. */
  function Weighted(b: seq<Byte>): nat { if |b| == 0 then 0 else Weighted(b[..|b| - 1]) + Sum(b) }

  lemma {:induction false} ModApart(s: nat, t: nat)
    requires -256 < s - t < 256 && s != t
    ensures s % 256 != t % 256
  {
  }

  lemma {:induction false} ChecksumIs(b: seq<Byte>)
    ensures Checksum(b) == (Sum(b) % 256, Weighted(b) % 256)
  {
    if |b| > 0 {
      ChecksumIs(b[..|b| - 1]);
      var w := Weighted(b[..|b| - 1]);
      ModAdd(Sum(b[..|b| - 1]), b[|b| - 1], 256);
      ModAdd(w, Sum(b), 256);
      ModAdd(Sum(b), w % 256, 256);
    }
  }

  lemma {:induction false} SumChange(b: seq<Byte>, i: nat, c: Byte)
    requires i < |b|
    ensures Sum(b[i := c]) == Sum(b) - b[i] + c
  {
    var n := |b| - 1;
    if i < n {
      SumChange(b[..n], i, c);
      assert b[i := c][..n] == b[..n][i := c];
    } else {
      assert b[i := c][..n] == b[..n];
    }
  }

  /** No single wrong byte goes unnoticed. */
  lemma {:induction false} ChecksumDetects(b: seq<Byte>, i: nat, c: Byte)
    requires i < |b| && c != b[i]
    ensures Checksum(b[i := c]) != Checksum(b)
  {
    ChecksumIs(b);
    ChecksumIs(b[i := c]);
    SumChange(b, i, c);
    ModApart(Sum(b), Sum(b[i := c]));
  }

  // ---------------------------------------------------------------- one byte

  /** A complete UBX frame without its two sync bytes. */
  predicate IsUbx(b: seq<Byte>) {
    |b| >= 6 && |b| == UbxLength(b) + 6 && var ck := Checksum(b[..|b| - 2]); b[|b| - 2] == ck.0 && b[|b| - 1] == ck.1
  }

  /** The two checksum bytes as one sixteen-bit number. */
  lemma {:induction false} UbxByChecksum(b: seq<Byte>, ck: nat)
    requires |b| >= 6 && |b| == UbxLength(b) + 6
    requires ck == 256 * Checksum(b[..|b| - 2]).1 as int + Checksum(b[..|b| - 2]).0 as int
    ensures IsUbx(b) <==> ck % 256 == b[|b| - 2] && ck / 256 == b[|b| - 1]
  {
    hide Checksum, UbxLength;
  }

  /** Waiting for a start byte. */
  function StepHunt(p: Parser, c: Byte): (Parser, seq<Frame>) {
    if c == SYNC_1 then (p.(state := WaitSync), [])
    else if c == RTCM_START then (p.(state := RtcmLength, rtcm := p.rtcm + [c]), [])
    else (p.(unframed := Count32(p.unframed)), [])
  }

  function StepLength(p: Parser, c: Byte, m: Limits): (Parser, seq<Frame>) {
    var b := p.ubx + [c];
    (p.(ubx := b, state := if |b| != 4 then WaitLength else if UbxLength(b) > m.ubx - 6 then Reset else WaitRest), [])
  }

  function StepRest(p: Parser, c: Byte): (Parser, seq<Frame>) {
    var b := p.ubx + [c];
    if |b| < 4 || |b| != UbxLength(b) + 6 then (p.(ubx := b), [])
    else if IsUbx(b) then (p.(ubx := b, state := Reset, ubxFrames := Count32(p.ubxFrames)), [UbxFrame(b)])
    else (p.(ubx := b, state := Reset, ubxErrors := Count32(p.ubxErrors)), [])
  }

  function StepRtcmLength(p: Parser, c: Byte, m: Limits): (Parser, seq<Frame>) {
    var b := p.rtcm + [c];
    (p.(rtcm := b, state := if |b| != 3 then RtcmLength else if RtcmLengthOf(b) > m.rtcm - 4 then Reset else RtcmRest), [])
  }

  function StepRtcmRest(p: Parser, c: Byte): (Parser, seq<Frame>) {
    var b := p.rtcm + [c];
    if |b| < 3 || |b| != RtcmLengthOf(b) + 6 then (p.(rtcm := b), [])
    else (p.(rtcm := b, state := Reset, rtcmFrames := Count32(p.rtcmFrames)), [RtcmFrame(b)])
  }

  /** The parser after byte c, and the frame it completes, if any. */
  function Step(p: Parser, c: Byte, m: Limits): (Parser, seq<Frame>) {
    match p.state
    case Reset => StepHunt(p.(state := WaitStart, ubx := [], rtcm := []), c)
    case WaitStart => StepHunt(p, c)
    case WaitSync => (p.(state := if c == SYNC_2 then WaitLength else Reset), [])
    case WaitLength => StepLength(p, c, m)
    case WaitRest => StepRest(p, c)
    case RtcmLength => StepRtcmLength(p, c, m)
    case RtcmRest => StepRtcmRest(p, c)
  }

  /** The parser after a stream of bytes, and the frames it emitted. */
  function Parse(p: Parser, b: seq<Byte>, m: Limits): (Parser, seq<Frame>) {
    if |b| == 0 then (p, [])
    else
      var (q, fs) := Parse(p, b[..|b| - 1], m);
      var (r, f) := Step(q, b[|b| - 1], m);
      (r, fs + f)
  }

  /** However a stream is split, the parts parsed one after the other give the same as the whole. */
  lemma {:induction false} ParseConcat(p: Parser, a: seq<Byte>, b: seq<Byte>, m: Limits)
    ensures Parse(p, a + b, m) == (Parse(Parse(p, a, m).0, b, m).0, Parse(p, a, m).1 + Parse(Parse(p, a, m).0, b, m).1)
  {
    hide Step;
    if |b| == 0 {
      assert a + b == a;
      assert Parse(p, a, m).1 + [] == Parse(p, a, m).1;
    } else {
      ParseConcat(p, a, b[..|b| - 1], m);
      assert (a + b)[..|a + b| - 1] == a + b[..|b| - 1];
      var q := Parse(p, a, m);
      var (r, fs) := Parse(q.0, b[..|b| - 1], m);
      var (s, f) := Step(r, b[|b| - 1], m);
      assert q.1 + (fs + f) == (q.1 + fs) + f;
    }
  }

  const START: Parser := Parser(Reset, [], [], 0, 0, 0, 0)

  // ---------------------------------------------------------------- what holds in every reachable state

  predicate EndsWith(seen: seq<Byte>, b: seq<Byte>) { |b| <= |seen| && seen[|seen| - |b|..] == b }

  /** The bytes collected so far are the last ones received, and fit. */
  predicate Tracks(p: Parser, seen: seq<Byte>, m: Limits) {
    && |p.ubx| <= m.ubx && |p.rtcm| <= m.rtcm + 2
    && match p.state
       case Reset => true
       case WaitStart => p.ubx == [] && p.rtcm == []
       case WaitSync => p.ubx == [] && p.rtcm == [] && EndsWith(seen, [SYNC_1])
       case WaitLength => |p.ubx| < 4 && EndsWith(seen, [SYNC_1, SYNC_2] + p.ubx)
       case WaitRest => 4 <= |p.ubx| < UbxLength(p.ubx) + 6 <= m.ubx && EndsWith(seen, [SYNC_1, SYNC_2] + p.ubx)
       case RtcmLength => 1 <= |p.rtcm| < 3 && p.rtcm[0] == RTCM_START && EndsWith(seen, p.rtcm)
       case RtcmRest => 3 <= |p.rtcm| < RtcmLengthOf(p.rtcm) + 6 <= m.rtcm + 2 && p.rtcm[0] == RTCM_START && EndsWith(seen, p.rtcm)
  }

  /** f is what the stream holds behind its start bytes. */
  predicate Genuine(f: Frame, seen: seq<Byte>, m: Limits) {
    match f
    case UbxFrame(b) => IsUbx(b) && |b| <= m.ubx && EndsWith(seen, [SYNC_1, SYNC_2] + b)
    case RtcmFrame(b) => 6 <= |b| <= m.rtcm + 2 && b[0] == RTCM_START && |b| == RtcmLengthOf(b) + 6 && EndsWith(seen, b)
  }

  lemma {:induction false} EndsLonger(seen: seq<Byte>, b: seq<Byte>, c: Byte)
    requires EndsWith(seen, b)
    ensures EndsWith(seen + [c], b + [c])
  {
    assert (seen + [c])[|seen| - |b|..] == seen[|seen| - |b|..] + [c];
  }

  /** What a step must keep. */
  predicate Good(r: (Parser, seq<Frame>), seen: seq<Byte>, m: Limits) {
    Tracks(r.0, seen, m) && |r.1| <= 1 && (|r.1| == 1 ==> Genuine(r.1[0], seen, m))
  }

  lemma {:induction false} HuntTracks(p: Parser, seen: seq<Byte>, c: Byte, m: Limits)
    requires p.state == WaitStart && p.ubx == [] && p.rtcm == [] && m.ubx >= 6 && m.rtcm >= 6
    ensures Good(StepHunt(p, c), seen + [c], m)
  {
    hide EndsWith;
    EndsNew(seen, c);
  }

  lemma {:induction false} LengthTracks(p: Parser, seen: seq<Byte>, c: Byte, m: Limits)
    requires p.state == WaitLength && Tracks(p, seen, m) && m.ubx >= 6
    ensures Good(StepLength(p, c, m), seen + [c], m)
  {
    hide EndsWith;
    EndsLonger(seen, [SYNC_1, SYNC_2] + p.ubx, c);
    assert [SYNC_1, SYNC_2] + p.ubx + [c] == [SYNC_1, SYNC_2] + (p.ubx + [c]);
  }

  lemma {:induction false} RestTracks(p: Parser, seen: seq<Byte>, c: Byte, m: Limits)
    requires p.state == WaitRest && Tracks(p, seen, m)
    ensures Good(StepRest(p, c), seen + [c], m)
  {
    hide EndsWith, IsUbx;
    EndsLonger(seen, [SYNC_1, SYNC_2] + p.ubx, c);
    assert [SYNC_1, SYNC_2] + p.ubx + [c] == [SYNC_1, SYNC_2] + (p.ubx + [c]);
  }

  lemma {:induction false} RtcmTracks(p: Parser, seen: seq<Byte>, c: Byte, m: Limits)
    requires (p.state == RtcmLength || p.state == RtcmRest) && Tracks(p, seen, m) && m.rtcm >= 6
    ensures Good(if p.state == RtcmLength then StepRtcmLength(p, c, m) else StepRtcmRest(p, c), seen + [c], m)
  {
    hide EndsWith;
    EndsLonger(seen, p.rtcm, c);
  }

  /** One byte keeps the collected bytes in step with the stream; an emitted frame is a genuine one. */
  lemma {:induction false} StepTracks(p: Parser, seen: seq<Byte>, c: Byte, m: Limits)
    requires Tracks(p, seen, m) && m.ubx >= 6 && m.rtcm >= 6
    ensures Good(Step(p, c, m), seen + [c], m)
  {
    match p.state
    case Reset => HuntTracks(p.(state := WaitStart, ubx := [], rtcm := []), seen, c, m);
    case WaitStart => HuntTracks(p, seen, c, m);
    case WaitSync =>
      EndsLonger(seen, [SYNC_1], c);
      assert c == SYNC_2 ==> [SYNC_1] + [c] == [SYNC_1, SYNC_2] + [];
    case WaitLength => LengthTracks(p, seen, c, m);
    case WaitRest => RestTracks(p, seen, c, m);
    case RtcmLength => RtcmTracks(p, seen, c, m);
    case RtcmRest => RtcmTracks(p, seen, c, m);
  }

  lemma {:induction false} EndsNew(seen: seq<Byte>, c: Byte)
    ensures EndsWith(seen + [c], [c]) && EndsWith(seen + [c], [] + [c])
  {
    assert [] + [c] == [c];
  }

  lemma {:induction false} StartTracks(m: Limits)
    ensures Tracks(START, [], m)
  {
  }

  /** Over any byte stream: the buffers never hold more than they may, and the k-th emitted frame is
      genuine at some point of the stream. */
  lemma {:induction false} ParseTracks(b: seq<Byte>, m: Limits)
    requires m.ubx >= 6 && m.rtcm >= 6
    ensures Tracks(Parse(START, b, m).0, b, m)
    ensures forall f {:trigger f in Parse(START, b, m).1} | f in Parse(START, b, m).1 ::
              exists n {:trigger b[..n]} :: 0 <= n <= |b| && Genuine(f, b[..n], m)
  {
    hide Step, Tracks, Genuine;
    StartTracks(m);
    if |b| > 0 {
      var n := |b| - 1;
      ParseTracks(b[..n], m);
      var (q, fs) := Parse(START, b[..n], m);
      assert b[..n] + [b[n]] == b;
      StepTracks(q, b[..n], b[n], m);
      forall f | f in Parse(START, b, m).1 ensures exists k {:trigger b[..k]} :: 0 <= k <= |b| && Genuine(f, b[..k], m) {
        if f in fs {
          var k :| 0 <= k <= n && Genuine(f, b[..n][..k], m);
          assert b[..n][..k] == b[..k];
        } else {
          assert b[..n + 1] == b;
        }
      }
    }
  }

  // ---------------------------------------------------------------- what an encoder sends

  /** A UBX frame behind its sync bytes: class, id, length, payload and checksum. */
  function Body(cls: Byte, id: Byte, payload: seq<Byte>): (b: seq<Byte>)
    requires |payload| < 0x1_0000
    ensures |b| == |payload| + 6 && b[..4] == [cls, id, |payload| % 256, |payload| / 256] && b[4..|b| - 2] == payload
  {
    var h := [cls, id, |payload| % 256, |payload| / 256] + payload;
    h + [Checksum(h).0, Checksum(h).1]
  }

  function Encode(cls: Byte, id: Byte, payload: seq<Byte>): seq<Byte>
    requires |payload| < 0x1_0000
  {
    [SYNC_1, SYNC_2] + Body(cls, id, payload)
  }

  lemma {:induction false} BodyIsUbx(cls: Byte, id: Byte, payload: seq<Byte>)
    requires |payload| < 0x1_0000
    ensures IsUbx(Body(cls, id, payload)) && UbxLength(Body(cls, id, payload)) == |payload|
  {
    var b := Body(cls, id, payload);
    var h := [cls, id, |payload| % 256, |payload| / 256] + payload;
    assert b[..|b| - 2] == h;
  }

  /** The parser is between frames. */
  predicate Idle(p: Parser) { p.state == Reset || (p.state == WaitStart && p.ubx == [] && p.rtcm == []) }

  lemma {:induction false} ParseOne(p: Parser, c: Byte, m: Limits)
    ensures Parse(p, [c], m) == Step(p, c, m)
  {
    assert [c][..0] == [];
    assert [] + Step(p, c, m).1 == Step(p, c, m).1;
    hide Step;
  }

  /** Bytes that do not complete the frame are just collected. */
  lemma {:induction false} CollectRest(p: Parser, y: seq<Byte>, m: Limits)
    requires p.state == WaitRest && |p.ubx| >= 4 && |p.ubx| + |y| < UbxLength(p.ubx) + 6
    ensures Parse(p, y, m) == (p.(ubx := p.ubx + y), [])
  {
    if |y| == 0 {
      assert p.ubx + y == p.ubx;
    } else {
      var n := |y| - 1;
      CollectRest(p, y[..n], m);
      assert p.ubx + y[..n] + [y[n]] == p.ubx + y;
      assert UbxLength(p.ubx + y) == UbxLength(p.ubx);
      assert Step(p.(ubx := p.ubx + y[..n]), y[n], m) == (p.(ubx := p.ubx + y), []);
      assert Parse(p, y[..n], m).1 + [] == [];
    }
  }

  lemma {:induction false} CollectRtcm(p: Parser, y: seq<Byte>, m: Limits)
    requires p.state == RtcmRest && |p.rtcm| >= 3 && |p.rtcm| + |y| < RtcmLengthOf(p.rtcm) + 6
    ensures Parse(p, y, m) == (p.(rtcm := p.rtcm + y), [])
  {
    if |y| == 0 {
      assert p.rtcm + y == p.rtcm;
    } else {
      var n := |y| - 1;
      CollectRtcm(p, y[..n], m);
      assert p.rtcm + y[..n] + [y[n]] == p.rtcm + y;
      assert RtcmLengthOf(p.rtcm + y) == RtcmLengthOf(p.rtcm);
      assert Step(p.(rtcm := p.rtcm + y[..n]), y[n], m) == (p.(rtcm := p.rtcm + y), []);
      assert Parse(p, y[..n], m).1 + [] == [];
    }
  }

  /** A frame's body, header to checksum, behind the sync bytes. */
  lemma {:induction false} ParseBody(p: Parser, b: seq<Byte>, m: Limits)
    requires p.state == WaitLength && p.ubx == [] && IsUbx(b) && |b| <= m.ubx
    ensures Parse(p, b, m) == (p.(state := Reset, ubx := b, ubxFrames := Count32(p.ubxFrames)), [UbxFrame(b)])
  {
    var n := |b|;
    ParseHeader(p, b[..4], m) by { assert UbxLength(b[..4]) == UbxLength(b); }
    var q := p.(state := WaitRest, ubx := b[..4]);
    CollectRest(q, b[4..n - 1], m);
    assert b == b[..4] + b[4..n - 1] + [b[n - 1]];
    ParseConcat(p, b[..4] + b[4..n - 1], [b[n - 1]], m);
    ParseConcat(p, b[..4], b[4..n - 1], m);
    var r := q.(ubx := b[..n - 1]);
    assert b[..4] + b[4..n - 1] == b[..n - 1];
    ParseOne(r, b[n - 1], m);
    assert b[..n - 1] + [b[n - 1]] == b;
    hide Parse, IsUbx;
  }

  lemma {:induction false} ParseHeader(p: Parser, h: seq<Byte>, m: Limits)
    requires p.state == WaitLength && p.ubx == [] && |h| == 4 && UbxLength(h) <= m.ubx - 6
    ensures Parse(p, h, m) == (p.(state := WaitRest, ubx := h), [])
  {
    HeaderPart(p, h, 3, m);
    assert h[..3] + [h[3]] == h;
  }

  lemma {:induction false} HeaderPart(p: Parser, h: seq<Byte>, k: nat, m: Limits)
    requires p.state == WaitLength && p.ubx == [] && |h| == 4 && k < 4
    ensures Parse(p, h[..k], m) == (p.(ubx := h[..k]), [])
  {
    hide Step, Parse;
    if k == 0 {
      assert h[..k] == p.ubx;
      ParseNone(p, m);
    } else {
      HeaderPart(p, h, k - 1, m);
      ParseSnoc(p, h[..k - 1], h[k - 1], m);
      HeaderStep(p.(ubx := h[..k - 1]), h[k - 1], m);
      assert h[..k] == h[..k - 1] + [h[k - 1]];
      assert Parse(p, h[..k - 1], m).1 + [] == [];
    }
  }

  lemma {:induction false} ParseNone(p: Parser, m: Limits)
    ensures Parse(p, [], m) == (p, [])
  {
  }

  lemma {:induction false} ParseSnoc(p: Parser, b: seq<Byte>, c: Byte, m: Limits)
    ensures var q := Parse(p, b, m); Parse(p, b + [c], m) == (Step(q.0, c, m).0, q.1 + Step(q.0, c, m).1)
  {
    hide Step;
    assert (b + [c])[..|b|] == b;
  }

  lemma {:induction false} HeaderStep(p: Parser, c: Byte, m: Limits)
    requires p.state == WaitLength && |p.ubx| < 3
    ensures Step(p, c, m) == (p.(ubx := p.ubx + [c]), [])
  {
    hide IsUbx, StepRest, StepRtcmRest, StepRtcmLength, StepHunt;
  }

  /** Encoding, then parsing between frames, gives the frame back. */
  lemma {:induction false} ParseEncoded(p: Parser, cls: Byte, id: Byte, payload: seq<Byte>, m: Limits)
    requires Idle(p) && |payload| < 0x1_0000 && |payload| + 6 <= m.ubx
    ensures var b := Body(cls, id, payload);
            Parse(p, Encode(cls, id, payload), m)
            == (Parser(Reset, b, [], p.unframed, Count32(p.ubxFrames), p.ubxErrors, p.rtcmFrames), [UbxFrame(b)])
  {
    hide Body, IsUbx, Parse, Step;
    var b := Body(cls, id, payload);
    BodyIsUbx(cls, id, payload);
    ParseSync(p, m);
    ParseConcat(p, [SYNC_1, SYNC_2], b, m);
    ParseBody(Parse(p, [SYNC_1, SYNC_2], m).0, b, m);
    assert [] + [UbxFrame(b)] == [UbxFrame(b)];
  }

  lemma {:induction false} ParseSync(p: Parser, m: Limits)
    requires Idle(p)
    ensures Parse(p, [SYNC_1, SYNC_2], m) == (Parser(WaitLength, [], [], p.unframed, p.ubxFrames, p.ubxErrors, p.rtcmFrames), [])
  {
    hide Parse;
    var q := Parser(WaitSync, [], [], p.unframed, p.ubxFrames, p.ubxErrors, p.rtcmFrames);
    ParseOne(p, SYNC_1, m);
    ParseOne(q, SYNC_2, m);
    assert [SYNC_1, SYNC_2] == [SYNC_1] + [SYNC_2];
    ParseConcat(p, [SYNC_1], [SYNC_2], m);
    assert Step(p, SYNC_1, m).1 + Step(q, SYNC_2, m).1 == [];
  }

  /** Bytes between frames hold no start byte. */
  predicate IsGap(g: seq<Byte>) { forall i {:trigger g[i]} | 0 <= i < |g| :: g[i] != SYNC_1 && g[i] != RTCM_START }

  lemma {:induction false} ParseGap(p: Parser, g: seq<Byte>, m: Limits)
    requires Idle(p) && IsGap(g)
    ensures var (q, fs) := Parse(p, g, m);
            Idle(q) && fs == [] && q.unframed % 0x1_0000_0000 == (p.unframed + |g|) % 0x1_0000_0000
            && q.ubxFrames == p.ubxFrames && q.ubxErrors == p.ubxErrors && q.rtcmFrames == p.rtcmFrames
  {
    hide Idle, Step, Count32;
    if |g| > 0 {
      var n := |g| - 1;
      ParseGap(p, g[..n], m);
      var q := Parse(p, g[..n], m).0;
      GapStep(q, g[n], m);
      CountIs(q.unframed, p.unframed + n);
      assert Parse(p, g[..n], m).1 + [] == [];
    }
  }

  lemma {:induction false} GapStep(p: Parser, c: Byte, m: Limits)
    requires Idle(p) && c != SYNC_1 && c != RTCM_START
    ensures Step(p, c, m) == (Parser(WaitStart, [], [], Count32(p.unframed), p.ubxFrames, p.ubxErrors, p.rtcmFrames), [])
    ensures Idle(Step(p, c, m).0)
  {
  }

  lemma {:induction false} CountIs(a: nat, b: nat)
    requires a % 0x1_0000_0000 == b % 0x1_0000_0000
    ensures Count32(a) % 0x1_0000_0000 == (b + 1) % 0x1_0000_0000
  {
    GapSum(a, b, 1);
  }

  lemma {:induction false} GapSum(a: nat, b: nat, n: nat)
    requires a % 0x1_0000_0000 == b % 0x1_0000_0000
    ensures (a + n) % 0x1_0000_0000 == (b + n) % 0x1_0000_0000
  {
    ModAdd(a, n, 0x1_0000_0000);
    ModAdd(b, n, 0x1_0000_0000);
  }

  /** A gap and a UBX frame behind it. */
  datatype Piece = Piece(gap: seq<Byte>, cls: Byte, id: Byte, payload: seq<Byte>)

  predicate Fitting(ps: seq<Piece>, m: Limits) {
    forall i {:trigger ps[i]} | 0 <= i < |ps| :: IsGap(ps[i].gap) && |ps[i].payload| < 0x1_0000 && |ps[i].payload| + 6 <= m.ubx
  }

  function Sent(ps: seq<Piece>, m: Limits): seq<Byte>
    requires Fitting(ps, m)
  {
    if |ps| == 0 then []
    else
      var p := ps[|ps| - 1];
      Sent(ps[..|ps| - 1], m) + (p.gap + Encode(p.cls, p.id, p.payload))
  }

  function Bodies(ps: seq<Piece>, m: Limits): seq<Frame>
    requires Fitting(ps, m)
  {
    if |ps| == 0 then []
    else
      var p := ps[|ps| - 1];
      Bodies(ps[..|ps| - 1], m) + [UbxFrame(Body(p.cls, p.id, p.payload))]
  }

  function GapBytes(ps: seq<Piece>): nat { if |ps| == 0 then 0 else GapBytes(ps[..|ps| - 1]) + |ps[|ps| - 1].gap| }

  /** Parsing inverts encoding: frames separated by bytes that start no frame come out exactly,
      in order, and the counters tell the frames and the bytes between them. */
  lemma {:induction false} ParseSent(p: Parser, ps: seq<Piece>, m: Limits)
    requires Idle(p) && Fitting(ps, m)
    ensures var (q, fs) := Parse(p, Sent(ps, m), m);
            && Idle(q) && fs == Bodies(ps, m)
            && q.ubxFrames % 0x1_0000_0000 == (p.ubxFrames + |ps|) % 0x1_0000_0000
            && q.unframed % 0x1_0000_0000 == (p.unframed + GapBytes(ps)) % 0x1_0000_0000
            && q.ubxErrors == p.ubxErrors && q.rtcmFrames == p.rtcmFrames
  {
    hide Step, Encode, Body, Count32;
    if |ps| > 0 {
      var e := ps[|ps| - 1];
      ParseSent(p, ps[..|ps| - 1], m);
      var q := Parse(p, Sent(ps[..|ps| - 1], m), m).0;
      ParseGap(q, e.gap, m);
      ParseEncoded(Parse(q, e.gap, m).0, e.cls, e.id, e.payload, m);
      ParseConcat(q, e.gap, Encode(e.cls, e.id, e.payload), m);
      ParseConcat(p, Sent(ps[..|ps| - 1], m), e.gap + Encode(e.cls, e.id, e.payload), m);
      CountIs(q.ubxFrames, p.ubxFrames + |ps| - 1);
      assert [] + [UbxFrame(Body(e.cls, e.id, e.payload))] == [UbxFrame(Body(e.cls, e.id, e.payload))];
      GapSum(q.unframed, p.unframed + GapBytes(ps[..|ps| - 1]), |e.gap|);
    }
  }

  // ---------------------------------------------------------------- exactly when a frame comes out

  /** The frames output with the last byte of b. */
  function AtLast(p: Parser, b: seq<Byte>, m: Limits): seq<Frame>
    requires |b| > 0
  {
    Step(Parse(p, b[..|b| - 1], m).0, b[|b| - 1], m).1
  }

  /** After n bytes the parser is not in step with a frame that began with the first of them. */
  predicate OutOfStep(p: Parser, n: nat) {
    match p.state
    case Reset => n > 0
    case WaitStart => n > 0 && p.ubx == []
    case WaitSync => n != 1 && p.ubx == []
    case WaitLength => |p.ubx| + 2 != n
    case WaitRest => |p.ubx| + 2 != n
    case RtcmLength => true
    case RtcmRest => true
  }

  lemma {:induction false} StaysOutOfStep(p: Parser, b: seq<Byte>, m: Limits)
    requires OutOfStep(p, 0)
    ensures OutOfStep(Parse(p, b, m).0, |b|)
  {
    if |b| > 0 { StaysOutOfStep(p, b[..|b| - 1], m); }
  }

  /** A well-formed fitting frame comes out with its last byte exactly when its first byte met the parser
      between frames, in every reachable state and whatever the frame holds. */
  lemma {:induction false} EmittedExactlyWhenIdle(p: Parser, seen: seq<Byte>, cls: Byte, id: Byte, payload: seq<Byte>, m: Limits)
    requires Tracks(p, seen, m) && m.ubx >= 6 && m.rtcm >= 6 && |payload| < 0x1_0000 && |payload| + 6 <= m.ubx
    ensures Idle(p) <==> AtLast(p, Encode(cls, id, payload), m) == [UbxFrame(Body(cls, id, payload))]
  {
    hide Body, Parse, IsUbx;
    var e, b := Encode(cls, id, payload), Body(cls, id, payload);
    var n := |e| - 1;
    if Idle(p) {
      ParseEncoded(p, cls, id, payload, m);
      IdleEmits(p, cls, id, payload, m);
    } else {
      StaysOutOfStep(p, e[..n], m);
    }
  }

  lemma {:induction false} IdleEmits(p: Parser, cls: Byte, id: Byte, payload: seq<Byte>, m: Limits)
    requires Idle(p) && |payload| < 0x1_0000 && |payload| + 6 <= m.ubx
    ensures AtLast(p, Encode(cls, id, payload), m) == [UbxFrame(Body(cls, id, payload))]
  {
    hide IsUbx, Body, Parse, Step, Idle;
    var b := Body(cls, id, payload);
    var n := |b| - 1;
    BodyEmits(p, cls, id, payload, m);
    var e := Encode(cls, id, payload);
    assert e[..|e| - 1] == [SYNC_1, SYNC_2] + b[..n];
    assert e[|e| - 1] == b[n];
  }

  lemma {:induction false} BodyEmits(p: Parser, cls: Byte, id: Byte, payload: seq<Byte>, m: Limits)
    requires Idle(p) && |payload| < 0x1_0000 && |payload| + 6 <= m.ubx
    ensures var b := Body(cls, id, payload);
            |b| > 0 && Step(Parse(p, [SYNC_1, SYNC_2] + b[..|b| - 1], m).0, b[|b| - 1], m).1 == [UbxFrame(b)]
  {
    hide IsUbx;
    var b := Body(cls, id, payload);
    var n := |b| - 1;
    BodyIsUbx(cls, id, payload);
    ParseSync(p, m);
    var q := Parse(p, [SYNC_1, SYNC_2], m).0;
    ParseHeader(q, b[..4], m) by { assert UbxLength(b[..4]) == UbxLength(b); }
    CollectRest(Parse(q, b[..4], m).0, b[4..n], m) by { assert UbxLength(b[..4]) == UbxLength(b); }
    hide Parse;
    ParseConcat(q, b[..4], b[4..n], m);
    assert b[..4] + b[4..n] == b[..n];
    ParseConcat(p, [SYNC_1, SYNC_2], b[..n], m);
    assert b[..n] + [b[n]] == b;
  }

  /** In a stream: the frame behind pre comes out exactly when pre leaves the parser between frames. */
  lemma {:induction false} FrameInStream(pre: seq<Byte>, cls: Byte, id: Byte, payload: seq<Byte>, m: Limits)
    requires m.ubx >= 6 && m.rtcm >= 6 && |payload| < 0x1_0000 && |payload| + 6 <= m.ubx
    ensures AtLast(START, pre + Encode(cls, id, payload), m) == [UbxFrame(Body(cls, id, payload))] <==> Idle(Parse(START, pre, m).0)
  {
    hide Body, Parse, Step, Tracks, Idle;
    var e := Encode(cls, id, payload);
    ParseTracks(pre, m);
    var p := Parse(START, pre, m).0;
    EmittedExactlyWhenIdle(p, pre, cls, id, payload, m);
    ParseConcat(START, pre, e[..|e| - 1], m);
    assert (pre + e)[..|pre + e| - 1] == pre + e[..|e| - 1];
  }

  /** k start bytes in a row. */
  function Strays(k: nat): (s: seq<Byte>)
    ensures |s| == k
  {
    seq(k, _ => SYNC_1)
  }

  lemma {:induction false} StraysPair(p: Parser, k: nat, m: Limits)
    requires Idle(p)
    ensures Parse(p, Strays(k), m).0.state == (if k % 2 == 1 then WaitSync else if k == 0 then p.state else Reset)
    ensures k % 2 == 0 ==> Idle(Parse(p, Strays(k), m).0)
  {
    if k > 0 {
      StraysPair(p, k - 1, m);
      assert Strays(k)[..k - 1] == Strays(k - 1);
    }
  }

  /** Start bytes in front of a frame pair up with each other: an even number lets the frame out, an odd
      number hides it, because the byte behind a failed second sync byte is not looked at again. */
  lemma {:induction false} StraysHide(pre: seq<Byte>, k: nat, cls: Byte, id: Byte, payload: seq<Byte>, m: Limits)
    requires m.ubx >= 6 && m.rtcm >= 6 && |payload| < 0x1_0000 && |payload| + 6 <= m.ubx && Idle(Parse(START, pre, m).0)
    ensures AtLast(START, pre + Strays(k) + Encode(cls, id, payload), m) == [UbxFrame(Body(cls, id, payload))] <==> k % 2 == 0
  {
    hide Body, Parse, Step, AtLast;
    StraysPair(Parse(START, pre, m).0, k, m);
    ParseConcat(START, pre, Strays(k), m);
    FrameInStream(pre + Strays(k), cls, id, payload, m);
  }

  /** One stray start byte right before a frame hides it. */
  lemma {:induction false} StrayHides(pre: seq<Byte>, cls: Byte, id: Byte, payload: seq<Byte>, m: Limits)
    requires m.ubx >= 6 && m.rtcm >= 6 && |payload| < 0x1_0000 && |payload| + 6 <= m.ubx && Idle(Parse(START, pre, m).0)
    ensures AtLast(START, pre + [SYNC_1] + Encode(cls, id, payload), m) != [UbxFrame(Body(cls, id, payload))]
  {
    hide Body, Parse, Step, AtLast;
    StraysHide(pre, 1, cls, id, payload, m);
    assert Strays(1) == [SYNC_1];
  }

  /** An RTCM header opens a frame exactly when its length is at most the buffer less 4, and the frame
      then holds length + 6 bytes: it fits the buffer exactly when the length is at most the buffer less 6. */
  lemma {:induction false} RtcmBound(p: Parser, hi: Byte, lo: Byte, rest: seq<Byte>, m: Limits)
    requires Idle(p) && m.rtcm >= 6 && |rest| == 256 * hi as int + lo as int + 3
    ensures var n, b, (q, fs) := 256 * hi as int + lo as int, [RTCM_START, hi, lo] + rest, Parse(p, [RTCM_START, hi, lo], m);
            && (q.state == RtcmRest <==> n <= m.rtcm - 4) && fs == []
            && (n <= m.rtcm - 4 ==> Parse(p, b, m).1 == [RtcmFrame(b)] && (|b| <= m.rtcm <==> n <= m.rtcm - 6))
  {
    hide Parse, Step, Idle;
    var h, n := [RTCM_START, hi, lo], |rest| - 1;
    RtcmHeader(p, hi, lo, m);
    if 256 * hi as int + lo as int <= m.rtcm - 4 {
      var q := Parse(p, h, m).0;
      CollectRtcm(q, rest[..n], m);
      RtcmLast(q.(rtcm := h + rest[..n]), rest[n], m) by { assert RtcmLengthOf(h + rest[..n] + [rest[n]]) == RtcmLengthOf(h); }
      assert h + rest == h + (rest[..n] + [rest[n]]) && h + rest[..n] + [rest[n]] == h + rest;
      ParseConcat(q, rest[..n], [rest[n]], m);
      ParseConcat(p, h, rest[..n] + [rest[n]], m);
    }
  }

  lemma {:induction false} RtcmLast(p: Parser, c: Byte, m: Limits)
    requires p.state == RtcmRest && |p.rtcm| >= 3 && |p.rtcm| + 1 == RtcmLengthOf(p.rtcm + [c]) + 6
    ensures Parse(p, [c], m).1 == [RtcmFrame(p.rtcm + [c])]
  {
    ParseOne(p, c, m);
  }

  lemma {:induction false} RtcmHeader(p: Parser, hi: Byte, lo: Byte, m: Limits)
    requires Idle(p)
    ensures var h := [RTCM_START, hi, lo];
            Parse(p, h, m) == (Parser(if RtcmLengthOf(h) > m.rtcm - 4 then Reset else RtcmRest, [], h,
                                      p.unframed, p.ubxFrames, p.ubxErrors, p.rtcmFrames), [])
  {
    hide Parse;
    var q := Parser(RtcmLength, [], [RTCM_START], p.unframed, p.ubxFrames, p.ubxErrors, p.rtcmFrames);
    var r := q.(rtcm := [RTCM_START, hi]);
    ParseOne(p, RTCM_START, m);
    ParseOne(q, hi, m);
    ParseOne(r, lo, m);
    assert [RTCM_START, hi, lo] == [RTCM_START] + [hi] + [lo] && [RTCM_START, hi] == [RTCM_START] + [hi];
    assert Step(p, RTCM_START, m) == (q, []) by { assert [] + [RTCM_START] == [RTCM_START]; }
    assert Step(q, hi, m) == (r, []) by { assert [RTCM_START] + [hi] == [RTCM_START, hi]; }
    assert Step(r, lo, m).0.rtcm == [RTCM_START, hi, lo] by { assert [RTCM_START, hi] + [lo] == [RTCM_START, hi, lo]; }
    assert Step(p, RTCM_START, m).1 + Step(q, hi, m).1 + Step(r, lo, m).1 == [];
    assert Step(p, RTCM_START, m).1 + Step(q, hi, m).1 == [];
    ParseConcat(p, [RTCM_START], [hi], m);
    ParseConcat(p, [RTCM_START] + [hi], [lo], m);
  }
}
