/** Integer output of the formatted printer: digits, padding and sign, and the bounded buffer they go to. */
module Printf {
  import opened Arith

  /** Room for the characters of one number. */
  const NTOA_BUFFER := 32

  datatype Flags = Flags(zeropad: bool, left: bool, plus: bool, space: bool, uppercase: bool, precision: bool)

  // ---------------------------------------------------------------- digits

  function DigitChar(d: nat, upper: bool): char
    requires d < 16
  {
    if d < 10 then '0' + d as char else (if upper then 'A' else 'a') + (d - 10) as char
  }

  /** The digit a character stands for, 16 or more for none. */
  function DigitOf(c: char): (d: nat) {
    if '0' <= c <= '9' then (c - '0') as nat
    else if 'a' <= c <= 'f' then (c - 'a') as nat + 10
    else if 'A' <= c <= 'F' then (c - 'A') as nat + 10
    else 16
  }

  function Pow(b: nat, n: nat): (p: nat)
    ensures b > 0 ==> p > 0
  {
    if n == 0 then 1 else b * Pow(b, n - 1)
  }

  /** The lowest digit of a value. */
  function Low(value: nat, base: nat): (d: nat)
    requires base > 0
    ensures d < base
  {
    value % base
  }

  /** The value without its lowest digit. */
  function Rest(value: nat, base: nat): nat
    requires base > 0
  {
    value / base
  }

  /** The digits of a value, lowest first, one at least and room at most. */
  function Digits(value: nat, base: nat, room: nat, upper: bool): (s: string)
    requires 2 <= base <= 16 && room > 0
    ensures 0 < |s| <= room && forall i {:trigger s[i]} | 0 <= i < |s| :: DigitOf(s[i]) < base
    decreases room
  {
    [DigitChar(Low(value, base), upper)] + if Rest(value, base) == 0 || room == 1 then [] else Digits(Rest(value, base), base, room - 1, upper)
  }

  /** What digits, lowest first, stand for. */
  function Sum(s: string, base: nat): nat {
    if |s| == 0 then 0 else DigitOf(s[0]) + base * Sum(s[1..], base)
  }

  /** Cutting off one digit at either end: a remainder by b * p in terms of the quotient by b. */
  lemma {:induction false} DivPow(value: nat, b: nat, p: nat)
    requires b > 0 && p > 0
    ensures b * p > 0 && value % (b * p) == value % b + b * ((value / b) % p)
  {
    var q, r := value / b, value % b;
    var d, e := q / p, q % p;
    assert value == b * q + r && q == p * d + e;
    MulMono(1, p, b);
    MulMono(e + 1, p, b);
    var m, x := b * p, b * e + r;
    Distribute(b, p, d, e);
    assert value == d * m + x && 0 <= x < m;
    DivModUnique(d, x, m);
  }

  lemma {:induction false} Distribute(b: int, p: int, d: int, e: int)
    ensures b * (p * d + e) == d * (b * p) + b * e
    ensures (e + 1) * b == b * e + b && 1 * b == b && p * b == b * p
  {
    assert b * (p * d) == d * (b * p);
  }

  /** The digits stand for the value, as far as there is room. */
  lemma {:induction false} DigitsSum(value: nat, base: nat, room: nat, upper: bool)
    requires 2 <= base <= 16 && room > 0
    ensures Sum(Digits(value, base, room, upper), base) == value % Pow(base, room)
    decreases room
  {
    hide DigitChar, DigitOf, Sum;
    var s, c := Digits(value, base, room, upper), DigitChar(value % base, upper);
    DigitIs(value % base, upper);
    DivPow(value, base, Pow(base, room - 1));
    if value / base == 0 || room == 1 {
      assert s == [c] + [];
      SumStep(c, [], base);
      NoDigits(value / base, Pow(base, room - 1), room);
    } else {
      var t := Digits(value / base, base, room - 1, upper);
      DigitsSum(value / base, base, room - 1, upper);
      assert s == [c] + t;
      SumStep(c, t, base);
    }
  }

  lemma {:induction false} SumStep(c: char, s: string, base: nat)
    ensures Sum([c] + s, base) == DigitOf(c) + base * Sum(s, base) && Sum([], base) == 0
  {
    assert ([c] + s)[1..] == s;
  }

  lemma {:induction false} DigitIs(d: nat, upper: bool)
    requires d < 16
    ensures DigitOf(DigitChar(d, upper)) == d
  {
  }

  lemma {:induction false} NoDigits(v: nat, p: nat, room: nat)
    requires p > 0 && (v == 0 || (room == 1 && p == 1))
    ensures v % p == 0
  {
  }

  // ---------------------------------------------------------------- the text of a number, last character first

  function Run(c: char, n: nat): (s: string)
    ensures |s| == n && forall i {:trigger s[i]} | 0 <= i < n :: s[i] == c
  {
    seq(n, _ => c)
  }

  function Reversed(s: string): (r: string)
    ensures |r| == |s|
  {
    if |s| == 0 then "" else Reversed(s[1..]) + [s[0]]
  }

  /** The digits; with a precision zero has none. */
  function Plain(value: nat, base: nat, flags: Flags): (s: string)
    requires 2 <= base <= 16
    ensures |s| <= NTOA_BUFFER && forall i {:trigger s[i]} | 0 <= i < |s| :: DigitOf(s[i]) < base
  {
    if flags.precision && value == 0 then "" else Digits(value, base, NTOA_BUFFER, flags.uppercase)
  }

  /** Zeros up to n characters, as long as there is room. */
  function Zeroed(s: string, n: nat): (t: string)
    requires |s| <= NTOA_BUFFER
    ensures |s| <= |t| <= NTOA_BUFFER
  {
    var m := if n < NTOA_BUFFER then n else NTOA_BUFFER;
    if |s| < m then s + Run('0', m - |s|) else s
  }

  predicate HasSign(negative: bool, flags: Flags) { negative || flags.plus || flags.space }

  /** The digits with leading zeros, which a left-justified number does not get. */
  function Padded(s: string, negative: bool, prec: nat, width: nat, flags: Flags): (t: string)
    requires |s| <= NTOA_BUFFER
    ensures |s| <= |t| <= NTOA_BUFFER
  {
    if flags.left then s
    else
      var t := Zeroed(s, prec);
      if flags.zeropad then Zeroed(t, if width > 0 && HasSign(negative, flags) then width - 1 else width) else t
  }

  /** The sign, when there is room for it. */
  function Signed(t: string, negative: bool, flags: Flags): string {
    if |t| < NTOA_BUFFER && HasSign(negative, flags) then t + [if negative then '-' else if flags.plus then '+' else ' '] else t
  }

  /** Characters put out in order, with spaces up to the width. */
  function Justified(r: string, width: nat, flags: Flags): string {
    var pad := Run(' ', if |r| < width then width - |r| else 0);
    (if !flags.left && !flags.zeropad then pad else "") + Reversed(r) + (if flags.left then pad else "")
  }

  function IntText(value: nat, negative: bool, base: nat, prec: nat, width: nat, flags: Flags): string
    requires 2 <= base <= 16
  {
    Justified(Signed(Padded(Plain(value, base, flags), negative, prec, width, flags), negative, flags), width, flags)
  }

  // ---------------------------------------------------------------- reading it back

  /** The digits a string starts with, behind what acc has. */
  function Horner(s: string, base: nat, acc: nat): nat {
    if |s| == 0 || DigitOf(s[0]) >= base then acc else Horner(s[1..], base, acc * base + DigitOf(s[0]))
  }

  /** The number in a string: spaces, a sign, digits. */
  function NumberIn(s: string, base: nat): int {
    if |s| == 0 then 0
    else if s[0] == ' ' then NumberIn(s[1..], base)
    else if s[0] == '-' then 0 - Horner(s[1..], base, 0)
    else if s[0] == '+' then Horner(s[1..], base, 0)
    else Horner(s, base, 0)
  }

  predicate AllDigits(s: string, base: nat) { forall i {:trigger s[i]} | 0 <= i < |s| :: DigitOf(s[i]) < base }

  lemma {:induction false} HornerConcat(a: string, b: string, base: nat, acc: nat)
    requires AllDigits(a, base)
    ensures Horner(a + b, base, acc) == Horner(b, base, Horner(a, base, acc))
  {
    if |a| == 0 {
      assert a + b == b;
    } else {
      assert (a + b)[1..] == a[1..] + b;
      HornerConcat(a[1..], b, base, acc * base + DigitOf(a[0]));
    }
  }

  lemma {:induction false} ReversedDigits(s: string, base: nat)
    requires AllDigits(s, base)
    ensures AllDigits(Reversed(s), base)
  {
    if |s| > 0 { ReversedDigits(s[1..], base); }
  }

  /** Digits read from the highest stand for their sum from the lowest. */
  lemma {:induction false} HornerReversed(s: string, base: nat)
    requires AllDigits(s, base)
    ensures Horner(Reversed(s), base, 0) == Sum(s, base)
  {
    if |s| > 0 {
      HornerReversed(s[1..], base);
      ReversedDigits(s[1..], base);
      HornerConcat(Reversed(s[1..]), [s[0]], base, 0);
      HornerOne(s[0], base, Sum(s[1..], base));
    }
  }

  lemma {:induction false} HornerOne(c: char, base: nat, acc: nat)
    requires DigitOf(c) < base
    ensures Horner([c], base, acc) == DigitOf(c) + base * acc
  {
    assert [c][1..] == [];
  }

  /** Leading zeros change nothing. */
  lemma {:induction false} SumZeros(s: string, n: nat, base: nat)
    requires base > 0 && AllDigits(s, base)
    ensures Sum(s + Run('0', n), base) == Sum(s, base) && AllDigits(s + Run('0', n), base)
  {
    if |s| == 0 {
      assert s + Run('0', n) == Run('0', n);
      if n > 0 {
        assert Run('0', n)[1..] == Run('0', n - 1) == [] + Run('0', n - 1);
        SumZeros([], n - 1, base);
      }
    } else {
      assert (s + Run('0', n))[1..] == s[1..] + Run('0', n);
      SumZeros(s[1..], n, base);
    }
  }

  lemma {:induction false} ZeroedSum(s: string, n: nat, base: nat)
    requires |s| <= NTOA_BUFFER && base > 0 && AllDigits(s, base)
    ensures Sum(Zeroed(s, n), base) == Sum(s, base) && AllDigits(Zeroed(s, n), base)
  {
    SumZeros(s, if n < NTOA_BUFFER then (if |s| < n then n - |s| else 0) else NTOA_BUFFER - |s|, base);
  }

  lemma {:induction false} SpacesSkipped(n: nat, s: string, base: nat)
    ensures NumberIn(Run(' ', n) + s, base) == NumberIn(s, base)
  {
    if n == 0 {
      assert Run(' ', 0) + s == s;
    } else {
      assert (Run(' ', n) + s)[1..] == Run(' ', n - 1) + s;
      SpacesSkipped(n - 1, s, base);
    }
  }

  /** Digits in order, with spaces behind. */
  lemma {:induction false} HornerSpaced(s: string, n: nat, base: nat)
    requires AllDigits(s, base) && base <= 16
    ensures Horner(Reversed(s) + Run(' ', n), base, 0) == Sum(s, base)
  {
    ReversedDigits(s, base);
    HornerConcat(Reversed(s), Run(' ', n), base, 0);
    HornerReversed(s, base);
    assert n > 0 ==> DigitOf(Run(' ', n)[0]) == 16;
  }

  lemma {:induction false} ReversedMore(t: string, c: char)
    ensures Reversed(t + [c]) == [c] + Reversed(t)
  {
    if |t| == 0 {
      assert t + [c] == [c] && [c][1..] == [];
    } else {
      assert (t + [c])[1..] == t[1..] + [c];
      ReversedMore(t[1..], c);
    }
  }

  /** A signed run of digits reads back with its sign, if it got one. */
  lemma {:induction false} SignedRead(t: string, negative: bool, n: nat, flags: Flags, base: nat)
    requires AllDigits(t, base) && base <= 16
    ensures NumberIn(Reversed(Signed(t, negative, flags)) + Run(' ', n), base) == if negative && |t| < NTOA_BUFFER then 0 - Sum(t, base) else Sum(t, base)
  {
    var tail := Run(' ', n);
    HornerSpaced(t, n, base);
    ReversedDigits(t, base);
    UnsignedRead(t, n, base);
    if |t| < NTOA_BUFFER && HasSign(negative, flags) {
      var c := if negative then '-' else if flags.plus then '+' else ' ';
      ReversedMore(t, c);
      assert [c] + Reversed(t) + tail == [c] + (Reversed(t) + tail);
      assert ([c] + (Reversed(t) + tail))[1..] == Reversed(t) + tail;
    }
  }

  lemma {:induction false} UnsignedRead(t: string, n: nat, base: nat)
    requires AllDigits(t, base) && base <= 16
    ensures NumberIn(Reversed(t) + Run(' ', n), base) == Sum(t, base)
  {
    if |t| == 0 {
      assert Reversed(t) + Run(' ', n) == Run(' ', n) + [];
      SpacesSkipped(n, [], base);
    } else {
      HornerSpaced(t, n, base);
      ReversedDigits(t, base);
      assert DigitOf(Reversed(t)[0]) < base;
      assert (Reversed(t) + Run(' ', n))[0] == Reversed(t)[0];
    }
  }

  /** A printed number reads back as the value cut to 32 digits, and its sign is lost exactly when the
      digits fill the buffer. */
  lemma {:induction false} IntTextRead(value: nat, negative: bool, base: nat, prec: nat, width: nat, flags: Flags)
    requires 2 <= base <= 16
    ensures var t := Padded(Plain(value, base, flags), negative, prec, width, flags);
            var v := value % Pow(base, NTOA_BUFFER);
            NumberIn(IntText(value, negative, base, prec, width, flags), base) == if negative && |t| < NTOA_BUFFER then 0 - v else v
  {
    hide Sum, Plain, Zeroed, Reversed, NumberIn, Digits;
    var s := Plain(value, base, flags);
    PlainSum(value, base, flags);
    var t := Padded(s, negative, prec, width, flags);
    assert AllDigits(t, base) && Sum(t, base) == Sum(s, base) by {
      ZeroedSum(s, prec, base);
      ZeroedSum(Zeroed(s, prec), if width > 0 && HasSign(negative, flags) then width - 1 else width, base);
    }
    var r := Signed(t, negative, flags);
    var n := if |r| < width then width - |r| else 0;
    JustifiedIs(r, width, flags);
    SignedRead(t, negative, if flags.left then n else 0, flags, base);
    SpacesSkipped(if !flags.left && !flags.zeropad then n else 0, Reversed(r) + Run(' ', if flags.left then n else 0), base);
  }

  lemma {:induction false} PlainSum(value: nat, base: nat, flags: Flags)
    requires 2 <= base <= 16
    ensures Sum(Plain(value, base, flags), base) == value % Pow(base, NTOA_BUFFER)
  {
    hide Digits, Pow;
    if flags.precision && value == 0 {
      assert Sum("", base) == 0;
    } else {
      DigitsSum(value, base, NTOA_BUFFER, flags.uppercase);
    }
  }

  lemma {:induction false} JustifiedIs(r: string, width: nat, flags: Flags)
    ensures var n := if |r| < width then width - |r| else 0;
            Justified(r, width, flags) == Run(' ', if !flags.left && !flags.zeropad then n else 0) + (Reversed(r) + Run(' ', if flags.left then n else 0))
  {
    hide Reversed;
  }

  /** A printed number reads back as it was exactly when its digits fit, and, for a negative one, when the
      digits and the zeros in front of them leave room for the sign. */
  lemma {:induction false} IntTextRight(value: nat, negative: bool, base: nat, prec: nat, width: nat, flags: Flags)
    requires 2 <= base <= 16 && (negative ==> value > 0)
    ensures var n := NumberIn(IntText(value, negative, base, prec, width, flags), base);
            n == (if negative then 0 - value else value) <==>
              && value < Pow(base, NTOA_BUFFER)
              && (negative ==> value < Pow(base, NTOA_BUFFER - 1)
                               && (flags.left || (prec < NTOA_BUFFER && (flags.zeropad ==> width <= NTOA_BUFFER))))
  {
    hide Pow, NumberIn, IntText, Plain, Digits;
    var s := Plain(value, base, flags);
    IntTextRead(value, negative, base, prec, width, flags);
    RestIs(value, Pow(base, NTOA_BUFFER));
    if negative {
      assert s == Digits(value, base, NTOA_BUFFER, flags.uppercase) by { PlainIs(value, base, flags); }
      DigitsFit(value, base, NTOA_BUFFER, flags.uppercase);
    }
  }

  lemma {:induction false} PlainIs(value: nat, base: nat, flags: Flags)
    requires 2 <= base <= 16 && value > 0
    ensures Plain(value, base, flags) == Digits(value, base, NTOA_BUFFER, flags.uppercase)
  {
  }

  /** Some room is left exactly behind the digits of a small value. */
  lemma {:induction false} DigitsFit(value: nat, base: nat, room: nat, upper: bool)
    requires 2 <= base <= 16 && room > 1
    ensures |Digits(value, base, room, upper)| < room <==> value < Pow(base, room - 1)
    decreases room
  {
    hide DigitChar, DigitOf, Low, Rest, Pow;
    PowStep(base, room - 1);
    RestAhead(value, base, Pow(base, room - 2));
    if Rest(value, base) != 0 && room > 2 {
      DigitsFit(Rest(value, base), base, room - 1, upper);
    } else if room == 2 {
      PowStep(base, 1);
    }
  }

  lemma {:induction false} PowStep(b: nat, n: nat)
    requires n > 0
    ensures Pow(b, n) == b * Pow(b, n - 1) && Pow(b, 0) == 1
  {
  }

  lemma {:induction false} RestAhead(value: nat, base: nat, p: nat)
    requires base > 0
    ensures Rest(value, base) < p <==> value < base * p
  {
    if value < base * p { QuotientBelow(value, p, base); }
    if value / base < p { MulMono(value / base + 1, p, base); }
  }

  lemma {:induction false} RestIs(v: nat, p: nat)
    requires p > 0
    ensures v % p <= v && (v % p == v <==> v < p)
  {
    if v < p { DivModUnique(0, v, p); }
  }

  // ---------------------------------------------------------------- the buffer

  /** The least of two lengths. */
  function Min(a: nat, b: nat): nat { if a < b then a else b }

  /** The output of one call of the printer: a buffer of which maxlen characters may be used, and all the
      characters put out so far, whether they fit or not. */
  class Printer {
    const buffer: array<char>
    const maxlen: nat
    var idx: nat
    ghost var text: string

    constructor (buffer: array<char>, maxlen: nat)
      requires maxlen <= buffer.Length
      ensures Valid() && text == "" && this.buffer == buffer && this.maxlen == maxlen
    {
      this.buffer, this.maxlen, idx, text := buffer, maxlen, 0, "";
    }

    /** The buffer holds as much of the text as it may. */
    ghost predicate Valid()
      reads this, buffer
    {
      maxlen <= buffer.Length && idx == |text| && buffer[..Min(idx, maxlen)] == text[..Min(idx, maxlen)]
    }

    /** _out_buffer at the next index. */
    method Put(c: char)
      requires Valid()
      modifies this, buffer
      ensures Valid() && text == old(text) + [c] && buffer[maxlen..] == old(buffer[maxlen..])
    {
      if idx < maxlen { buffer[idx] := c; }
      idx, text := idx + 1, text + [c];
    }

    method PutRun(c: char, n: nat)
      requires Valid()
      modifies this, buffer
      ensures Valid() && text == old(text) + Run(c, n) && buffer[maxlen..] == old(buffer[maxlen..])
    {
      var i := 0;
      while i < n
        invariant 0 <= i <= n && Valid() && text == old(text) + Run(c, i) && buffer[maxlen..] == old(buffer[maxlen..])
      {
        Put(c);
        assert Run(c, i) + [c] == Run(c, i + 1);
        i := i + 1;
      }
    }

    /** The characters of buf, last one first. */
    method PutReversed(buf: array<char>, len: nat)
      requires Valid() && len <= buf.Length && buf != buffer
      modifies this, buffer
      ensures Valid() && text == old(text) + Reversed(buf[..len]) && buffer[maxlen..] == old(buffer[maxlen..])
    {
      hide Reversed;
      ghost var r, front := buf[..len], text;
      var k := len;
      NoneReversed();
      assert r[..len] == r;
      while k > 0
        invariant 0 <= k <= len && Valid() && front + Reversed(r) == text + Reversed(r[..k]) && buffer[maxlen..] == old(buffer[maxlen..])
      {
        k := k - 1;
        assert buf[k] == r[k] && r[..k + 1] == r[..k] + [r[k]];
        ReversedMore(r[..k], r[k]);
        assert text + ([r[k]] + Reversed(r[..k])) == text + [r[k]] + Reversed(r[..k]);
        Put(buf[k]);
      }
      assert text + Reversed(r[..0]) == text;
    }

    /** _out_rev. */
    method OutRev(buf: array<char>, len: nat, width: nat, flags: Flags)
      requires Valid() && len <= buf.Length && buf != buffer
      modifies this, buffer
      ensures Valid() && text == old(text) + Justified(buf[..len], width, flags) && buffer[maxlen..] == old(buffer[maxlen..])
    {
      hide Reversed, Run;
      ghost var r, before := buf[..len], text;
      var pad := if len < width then width - len else 0;
      if !flags.left && !flags.zeropad { PutRun(' ', pad); }
      PutReversed(buf, len);
      if flags.left { PutRun(' ', pad); }
      JustifiedText(before, r, width, flags);
    }

    /** _ntoa_format without the alternative form: zeros and sign behind the digits in buf. */
    method NtoaFormat(buf: array<char>, len0: nat, negative: bool, prec: nat, width0: nat, flags: Flags)
      requires Valid() && buf.Length == NTOA_BUFFER && len0 <= NTOA_BUFFER && buf != buffer
      modifies this, buffer, buf
      ensures Valid() && buffer[maxlen..] == old(buffer[maxlen..])
      ensures text == old(text) + Justified(Signed(Padded(old(buf[..len0]), negative, prec, width0, flags), negative, flags), width0, flags)
    {
      hide Justified, Signed, Padded;
      var len, width := PadNumber(buf, len0, negative, prec, width0, flags);
      OutRev(buf, len, width, flags);
    }

    /** _ntoa_long: the digits of a value, lowest first, then the rest. */
    method NtoaLong(value: nat, negative: bool, base: nat, prec: nat, width: nat, flags: Flags)
      requires Valid() && 2 <= base <= 16
      modifies this, buffer
      ensures Valid() && text == old(text) + IntText(value, negative, base, prec, width, flags) && buffer[maxlen..] == old(buffer[maxlen..])
    {
      hide Justified, Signed, Padded;
      var buf := new char[NTOA_BUFFER](_ => '0');
      var len := 0;
      if !flags.precision || value != 0 {
        len := WriteDigits(buf, value, base, flags.uppercase);
      }
      assert buf[..len] == Plain(value, base, flags);
      NtoaFormat(buf, len, negative, prec, width, flags);
    }

    /** The end of the printer: terminates the text in the buffer and returns its whole length. */
    method Finish() returns (n: nat)
      requires Valid()
      modifies buffer
      ensures n == |text| && buffer[maxlen..] == old(buffer[maxlen..])
      ensures maxlen > 0 ==> var k := Min(|text|, maxlen - 1); buffer[..k] == text[..k] && buffer[k] == '\0'
      ensures maxlen == 0 ==> buffer[..] == old(buffer[..])
    {
      if idx < maxlen {
        buffer[idx] := '\0';
      } else if maxlen > 0 {
        buffer[maxlen - 1] := '\0';
      }
      n := idx;
    }
  }

  /** The number's characters in buf, last one first: leading zeros and sign behind the digits. */
  method PadNumber(buf: array<char>, len0: nat, negative: bool, prec: nat, width0: nat, flags: Flags) returns (len: nat, width: nat)
    requires buf.Length == NTOA_BUFFER && len0 <= NTOA_BUFFER
    modifies buf
    ensures len <= NTOA_BUFFER && buf[..len] == Signed(Padded(old(buf[..len0]), negative, prec, width0, flags), negative, flags)
    ensures forall r {:trigger Justified(r, width, flags)} :: Justified(r, width, flags) == Justified(r, width0, flags)
  {
    hide Zeroed;
    ghost var s := buf[..len0];
    len, width := len0, width0;
    if !flags.left {
      if width > 0 && flags.zeropad && HasSign(negative, flags) { width := width - 1; }
      len := PadZeros(buf, len, prec);
      if flags.zeropad { len := PadZeros(buf, len, width); }
    }
    assert buf[..len] == Padded(s, negative, prec, width0, flags);
    if len < NTOA_BUFFER && HasSign(negative, flags) {
      ghost var t := buf[..len];
      buf[len] := if negative then '-' else if flags.plus then '+' else ' ';
      assert buf[..len + 1] == t + [buf[len]];
      len := len + 1;
    }
  }

  /** The digits of a value, lowest first. */
  method WriteDigits(buf: array<char>, value: nat, base: nat, upper: bool) returns (len: nat)
    requires buf.Length == NTOA_BUFFER && 2 <= base <= 16
    modifies buf
    ensures len <= NTOA_BUFFER && buf[..len] == Digits(value, base, NTOA_BUFFER, upper)
  {
    hide DigitChar, Digits, DigitsLeft, Low, Rest;
    var v: nat := value;
    buf[0] := DigitChar(Low(v, base), upper);
    len, v := 1, Rest(v, base);
    DigitsFrom(value, base, NTOA_BUFFER, upper);
    while v != 0 && len < NTOA_BUFFER
      invariant 0 < len <= NTOA_BUFFER
      invariant Digits(value, base, NTOA_BUFFER, upper) == buf[..len] + DigitsLeft(v, base, NTOA_BUFFER - len, upper)
      decreases NTOA_BUFFER - len
    {
      ghost var s := buf[..len];
      LeftStep(v, base, NTOA_BUFFER - len, upper);
      buf[len] := DigitChar(Low(v, base), upper);
      assert buf[..len + 1] == s + [buf[len]];
      assert s + ([buf[len]] + DigitsLeft(Rest(v, base), base, NTOA_BUFFER - len - 1, upper)) == s + [buf[len]] + DigitsLeft(Rest(v, base), base, NTOA_BUFFER - len - 1, upper);
      len, v := len + 1, Rest(v, base);
    }
    NoneLeft(v, base, NTOA_BUFFER - len, upper);
    assert buf[..len] + "" == buf[..len];
  }

  /** The digits still to come. */
  function DigitsLeft(v: nat, base: nat, room: nat, upper: bool): string
    requires 2 <= base <= 16
  {
    if v == 0 || room == 0 then "" else Digits(v, base, room, upper)
  }

  lemma {:induction false} DigitsFrom(v: nat, base: nat, room: nat, upper: bool)
    requires 2 <= base <= 16 && room > 0
    ensures Digits(v, base, room, upper) == [DigitChar(Low(v, base), upper)] + DigitsLeft(Rest(v, base), base, room - 1, upper)
  {
  }

  lemma {:induction false} NoneLeft(v: nat, base: nat, room: nat, upper: bool)
    requires 2 <= base <= 16 && (v == 0 || room == 0)
    ensures DigitsLeft(v, base, room, upper) == ""
  {
  }

  lemma {:induction false} LeftStep(v: nat, base: nat, room: nat, upper: bool)
    requires 2 <= base <= 16 && room > 0 && v != 0
    ensures DigitsLeft(v, base, room, upper) == [DigitChar(Low(v, base), upper)] + DigitsLeft(Rest(v, base), base, room - 1, upper)
  {
    DigitsFrom(v, base, room, upper);
  }

  lemma {:induction false} NoneReversed()
    ensures Reversed("") == ""
  {
  }

  lemma {:induction false} JustifiedText(before: string, r: string, width: nat, flags: Flags)
    ensures var pad := Run(' ', if |r| < width then width - |r| else 0);
            before + Justified(r, width, flags) ==
              (if !flags.left && !flags.zeropad then before + pad else before) + Reversed(r) + (if flags.left then pad else "")
  {
    hide Reversed, Run;
  }

  /** Zeros behind the characters of buf up to n of them, as long as there is room. */
  method PadZeros(buf: array<char>, len0: nat, n: nat) returns (len: nat)
    requires buf.Length == NTOA_BUFFER && len0 <= NTOA_BUFFER
    modifies buf
    ensures len <= NTOA_BUFFER && buf[..len] == Zeroed(old(buf[..len0]), n)
  {
    len := len0;
    while len < n && len < NTOA_BUFFER
      invariant len0 <= len <= NTOA_BUFFER && (len > len0 ==> len <= n) && buf[..len] == old(buf[..len0]) + Run('0', len - len0)
    {
      buf[len] := '0';
      assert Run('0', len - len0) + ['0'] == Run('0', len + 1 - len0);
      len := len + 1;
    }
  }

  // ---------------------------------------------------------------- widths in the format

  predicate IsDigit(c: char) { '0' <= c <= '9' }

  /** _atoi: the decimal digits from i on, in 32-bit arithmetic, and where they end. */
  method Atoi(str: string, i: nat) returns (n: nat, end: nat)
    requires i <= |str|
    ensures i <= end <= |str| && (forall k {:trigger str[k]} | i <= k < end :: IsDigit(str[k])) && (end < |str| ==> !IsDigit(str[end]))
    ensures n == Horner(str[i..end], 10, 0) % 0x1_0000_0000
  {
    n, end := 0, i;
    assert str[i..i] == [];
    while end < |str| && IsDigit(str[end])
      invariant i <= end <= |str| && (forall k {:trigger str[k]} | i <= k < end :: IsDigit(str[k]))
      invariant n == Horner(str[i..end], 10, 0) % 0x1_0000_0000
    {
      AtoiStep(str, i, end, n);
      n := (n * 10 + (str[end] - '0') as nat) % 0x1_0000_0000;
      end := end + 1;
    }
  }

  lemma {:induction false} AtoiStep(str: string, i: nat, end: nat, n: nat)
    requires i <= end < |str| && IsDigit(str[end]) && forall k {:trigger str[k]} | i <= k < end :: IsDigit(str[k])
    requires n == Horner(str[i..end], 10, 0) % 0x1_0000_0000
    ensures (n * 10 + (str[end] - '0') as nat) % 0x1_0000_0000 == Horner(str[i..end + 1], 10, 0) % 0x1_0000_0000
  {
    var h := Horner(str[i..end], 10, 0);
    assert str[i..end + 1] == str[i..end] + [str[end]];
    HornerConcat(str[i..end], [str[end]], 10, 0);
    HornerOne(str[end], 10, h);
    hide Horner;
    WrapTen(h, DigitOf(str[end]));
  }

  lemma {:induction false} WrapTen(h: nat, d: nat)
    ensures (h % 0x1_0000_0000 * 10 + d) % 0x1_0000_0000 == (d + 10 * h) % 0x1_0000_0000
  {
  }
}
