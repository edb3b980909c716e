/** gen_numname: short names made distinct by a tilde and a number. */
module NumName {
  import opened Arith
  import opened LfnTheory
  import opened DirTheory

  const SPACE: Byte := 0x20
  const TILDE: Byte := 0x7E

  // ---------------------------------------------------------------- the hash of many collisions

  /** x with one binary digit inverted. */
  function Toggle(x: nat, bit: nat): nat
    requires bit > 0
  {
    if x / bit % 2 == 1 then (if x >= bit then x - bit else 0) else x + bit
  }

  /** One bit into the 16-bit shift register with feedback 0x11021. */
  function HashBit(sreg: nat, bit: nat): nat {
    var s := 2 * sreg + bit;
    if s / 0x1_0000 % 2 == 1 && s >= 0x1_0000 then Toggle(Toggle(Toggle(s - 0x1_0000, 0x1000), 0x20), 1) else s
  }

  /** The low n bits of a unit into the register, lowest first. */
  function HashUnit(sreg: nat, wc: nat, n: nat): nat
    decreases n
  {
    if n == 0 then sreg else HashUnit(HashBit(sreg, wc % 2), wc / 2, n - 1)
  }

  /** The terminated name in the buffer from unit i on into the register. */
  function HashName(sreg: nat, lfn: LfnBuf, i: nat): nat
    decreases MAX_LFN + 1 - i
  {
    if i > MAX_LFN || lfn[i] == 0 then sreg else HashName(HashUnit(sreg, lfn[i], 16), lfn, i + 1)
  }

  /** The number that goes into the n-th attempt. */
  function Number(lfn: LfnBuf, n: nat): nat { if n > 5 then HashName(n, lfn, 0) else n }

  // ---------------------------------------------------------------- the suffix

  function HexDigit(x: nat): Byte { if x % 16 < 10 then 0x30 + x % 16 else 0x37 + x % 16 }

  /** Hexadecimal digits of a number, one at least, seven at most. */
  function HexCount(num: nat, room: nat): nat
    decreases room
  {
    if room <= 1 || num / 16 == 0 then 1 else 1 + HexCount(num / 16, room - 1)
  }

  /** The low d digits, highest first. */
  function Hex(num: nat, d: nat): (h: seq<Byte>)
    ensures |h| == d
    ensures forall i {:trigger h[i]} | 0 <= i < d :: h[i] != SPACE && h[i] != TILDE
  {
    if d == 0 then [] else Hex(num / 16, d - 1) + [HexDigit(num)]
  }

  /** Where the suffix goes: behind the body or where it just fits. */
  function BodyEnd(src: ShortName, i: nat): (j: nat)
    requires i <= 8
    ensures j <= i
  {
    if i == 0 then 0 else
      var j := BodyEnd(src, i - 1);
      if j == i - 1 && src[j] != SPACE then i else j
  }

  /** src with its body cut short as needed and the number appended. */
  function Numbered(src: ShortName, num: nat): (r: ShortName) {
    var d := HexCount(num, 7);
    CountBounds(num, 7);
    var j := BodyEnd(src, 7 - d);
    src[..j] + [TILDE] + Hex(num, d) + seq<Byte>(7 - d - j, _ => SPACE) + src[8..]
  }

  lemma {:induction false} CountBounds(num: nat, room: nat)
    requires room >= 1
    ensures 1 <= HexCount(num, room) <= room
    decreases room
  {
    if room > 1 { CountBounds(num / 16, room - 1); }
  }

  /** A numbered name can stand in an entry if the name it is made from can. */
  lemma {:induction false} NumberedStorable(src: ShortName, num: nat)
    requires Storable(src)
    ensures Storable(Numbered(src, num))
  {
    CountBounds(num, 7);
    hide Hex, HexCount, BodyEnd;
    assert Numbered(src, num)[0] == if BodyEnd(src, 7 - HexCount(num, 7)) > 0 then src[0] else TILDE;
  }

  /** The digits of numbers that fit tell the numbers apart. */
  lemma {:induction false} HexInjective(a: nat, b: nat, d: nat)
    requires HexCount(a, 7) == d == HexCount(b, 7) && d < 7 && Hex(a, d) == Hex(b, d)
    ensures a == b
  {
    DigitsBound(a, 7, d);
    DigitsBound(b, 7, d);
    HexDecode(a, d);
    HexDecode(b, d);
  }

  function Power16(d: nat): nat { if d == 0 then 1 else 16 * Power16(d - 1) }

  /** Fewer digits than there is room for hold the whole number. */
  lemma {:induction false} DigitsBound(a: nat, room: nat, d: nat)
    requires room >= 1 && HexCount(a, room) == d < room
    ensures a < Power16(d)
    decreases room
  {
    if a / 16 == 0 {
      assert Power16(1) == 16 * Power16(0);
    } else {
      DigitsBound(a / 16, room - 1, d - 1);
    }
  }

  function Decode(h: seq<Byte>): nat {
    if |h| == 0 then 0
    else
      var c := h[|h| - 1];
      16 * Decode(h[..|h| - 1]) + (if c >= 0x41 then c - 0x37 else if c >= 0x30 then c - 0x30 else 0)
  }

  lemma {:induction false} HexDecode(a: nat, d: nat)
    requires a < Power16(d)
    ensures Decode(Hex(a, d)) == a
  {
    if d > 0 {
      HexDecode(a / 16, d - 1);
      assert Hex(a, d)[..d - 1] == Hex(a / 16, d - 1);
    }
  }

  /** Distinct numbers of at most six digits give distinct names. */
  lemma {:induction false} NumberedInjective(src: ShortName, a: nat, b: nat)
    requires HexCount(a, 7) < 7 && HexCount(b, 7) < 7 && Numbered(src, a) == Numbered(src, b)
    ensures a == b
  {
    hide Numbered, HexCount, Hex, BodyEnd, InForm;
    NumberedParts(src, a);
    NumberedParts(src, b);
    var d, e := HexCount(a, 7), HexCount(b, 7);
    FormsAgree(Numbered(src, a), BodyEnd(src, 7 - d), Hex(a, d), BodyEnd(src, 7 - e), Hex(b, e));
    HexInjective(a, b, d);
  }

  /** r has a tilde at j, the digits h behind it and then spaces only. */
  predicate InForm(r: ShortName, j: nat, h: seq<Byte>) {
    && j + 1 + |h| <= 8 && r[j] == TILDE
    && (forall p {:trigger r[p]} | j + 1 <= p < j + 1 + |h| :: r[p] == h[p - j - 1])
    && (forall i {:trigger h[i]} | 0 <= i < |h| :: h[i] != SPACE && h[i] != TILDE)
    && (forall p {:trigger r[p]} | j + 1 + |h| <= p < 8 :: r[p] == SPACE)
  }

  lemma {:induction false} NotShorter(r: ShortName, j: nat, h: seq<Byte>, g: seq<Byte>)
    requires InForm(r, j, h) && InForm(r, j, g)
    ensures |h| >= |g|
  {
    assert r[j + 1 + |h|] == SPACE || j + 1 + |h| == 8;
  }

  lemma {:induction false} FormsAgree(r: ShortName, j: nat, h: seq<Byte>, k: nat, g: seq<Byte>)
    requires InForm(r, j, h) && InForm(r, k, g)
    ensures j == k && h == g
  {
    assert r[j] == TILDE && r[k] == TILDE;
    NotShorter(r, j, h, g);
    NotShorter(r, j, g, h);
    forall i | 0 <= i < |h| ensures h[i] == g[i] { assert r[j + 1 + i] == h[i]; }
  }

  /** Behind the body a numbered name has the tilde, the digits and then spaces only. */
  lemma {:induction false} NumberedParts(src: ShortName, num: nat)
    ensures var d := HexCount(num, 7); 1 <= d <= 7 && InForm(Numbered(src, num), BodyEnd(src, 7 - d), Hex(num, d))
  {
    hide HexCount, BodyEnd;
    CountBounds(num, 7);
  }

  // ---------------------------------------------------------------- the loops

  lemma {:induction false} NumberedAs(src: ShortName, num: nat, d: nat, j: nat)
    requires 1 <= d <= 7 && d == HexCount(num, 7) && BodyEnd(src, 7 - d) == j && j <= 7 - d
    ensures Numbered(src, num) == src[..j] + [TILDE] + Hex(num, d) + seq<Byte>(7 - d - j, _ => SPACE) + src[8..]
  {
    hide HexCount, Hex, BodyEnd;
  }

  /** gen_numname. */
  method GenNumname(src: ShortName, lfn: LfnBuf, n: nat) returns (dst: ShortName)
    ensures dst == Numbered(src, Number(lfn, n))
  {
    hide HexDigit, HashBit, HexCount, Hex, HashName, Numbered;
    var num := n;
    if num > 5 { num := HashLoop(lfn, n); }
    CountBounds(num, 7);
    var suffix := Digits(num);
    var d := |suffix|;
    suffix := [TILDE] + suffix;
    var j := 0;
    while j < 7 - d && src[j] != SPACE
      invariant 0 <= j <= 7 - d && BodyEnd(src, j) == j
    {
      j := j + 1;
    }
    BodyEndStops(src, j, 7 - d);
    NumberedAs(src, num, d, j);
    assert src[..j] + suffix == src[..j] + [TILDE] + Hex(num, d);
    dst := src[..j] + suffix + seq<Byte>(7 - d - j, _ => SPACE) + src[8..];
  }

  /** The hexadecimal digits, built from the last one. */
  method Digits(num: nat) returns (suffix: seq<Byte>)
    ensures |suffix| == HexCount(num, 7) && suffix == Hex(num, HexCount(num, 7))
  {
    hide HexDigit;
    suffix := [];
    var d, rest := 0, num;
    while true
      invariant 0 <= d < 7 && suffix == HexTail(num, d) && rest == Shifted(num, d)
      invariant HexCount(num, 7) == d + HexCount(rest, 7 - d)
      decreases 7 - d
    {
      TailNext(num, d + 1);
      suffix := [HexDigit(rest)] + suffix;
      rest := rest / 16;
      d := d + 1;
      if d == 7 || rest == 0 { break; }
    }
    TailIsHex(num, d);
  }

  /** num without its low d digits, and those digits. */
  function Shifted(num: nat, d: nat): nat { if d == 0 then num else Shifted(num, d - 1) / 16 }

  function HexTail(num: nat, d: nat): seq<Byte> { if d == 0 then [] else [HexDigit(Shifted(num, d - 1))] + HexTail(num, d - 1) }

  lemma {:induction false} TailNext(num: nat, d: nat)
    requires d > 0
    ensures HexTail(num, d) == [HexDigit(Shifted(num, d - 1))] + HexTail(num, d - 1)
  {
  }

  lemma {:induction false} ShiftedSwap(num: nat, d: nat)
    ensures Shifted(num / 16, d) == Shifted(num, d + 1)
  {
    if d > 0 { ShiftedSwap(num, d - 1); }
  }

  lemma {:induction false} TailIsHex(num: nat, d: nat)
    ensures HexTail(num, d) == Hex(num, d)
  {
    hide HexDigit;
    if d > 0 {
      TailIsHex(num / 16, d - 1);
      TailSplit(num, d);
    }
  }

  lemma {:induction false} TailSplit(num: nat, d: nat)
    requires d > 0
    ensures HexTail(num, d) == HexTail(num / 16, d - 1) + [HexDigit(num)]
  {
    hide HexDigit;
    if d > 1 {
      TailSplit(num, d - 1);
      ShiftedSwap(num, d - 2);
      assert HexTail(num, d) == [HexDigit(Shifted(num, d - 1))] + HexTail(num, d - 1);
    }
  }

  lemma {:induction false} BodyEndStops(src: ShortName, j: nat, i: nat)
    requires j <= i <= 8 && BodyEnd(src, j) == j && (j == i || src[j] == SPACE)
    ensures BodyEnd(src, i) == j
  {
    if j < i { BodyEndStops(src, j, i - 1); }
  }

  method HashLoop(lfn: LfnBuf, n: nat) returns (sreg: nat)
    ensures sreg == HashName(n, lfn, 0)
  {
    hide HashBit;
    sreg := n;
    var k := 0;
    while k <= MAX_LFN && lfn[k] != 0
      invariant 0 <= k <= MAX_LFN + 1 && HashName(sreg, lfn, k) == HashName(n, lfn, 0)
      decreases MAX_LFN + 1 - k
    {
      var wc: nat := lfn[k];
      ghost var before := sreg;
      for i := 0 to 16
        invariant HashUnit(sreg, wc, 16 - i) == HashUnit(before, lfn[k], 16)
      {
        sreg := HashBit(sreg, wc % 2);
        wc := wc / 2;
      }
      k := k + 1;
    }
  }
}
