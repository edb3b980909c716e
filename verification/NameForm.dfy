/** Names in 8.3 form: how they are stored in a short entry and shown again. */
module NameForm {
  import opened Arith
  import opened LfnTheory
  import opened DirTheory

  const SPACE := 0x20
  const DOT := 0x2E

  predicate IsUpper(c: nat) { 0x41 <= c <= 0x5A }

  predicate IsLower(c: nat) { 0x61 <= c <= 0x7A }

  /** Plus, comma, semicolon, equals sign and square brackets: legal in long names only. */
  predicate LongOnly(c: nat) { c == 0x2B || c == 0x2C || c == 0x3B || c == 0x3D || c == 0x5B || c == 0x5D }

  /** ASCII characters that a short name can have. */
  predicate Plain(c: nat) { SPACE < c < 0x80 && c != DOT && !LongOnly(c) }

  function Raised(c: nat): nat { if IsLower(c) then c - 0x20 else c }

  // ---------------------------------------------------------------- body and extension

  /** The index behind the last dot, or zero. */
  function AfterDot(name: seq<Unit>): (d: nat)
    ensures d <= |name| && (d > 0 ==> name[d - 1] == DOT) && forall i {:trigger name[i]} | d <= i < |name| :: name[i] != DOT
  {
    if |name| == 0 then 0 else if name[|name| - 1] == DOT then |name| else AfterDot(name[..|name| - 1])
  }

  function Body(name: seq<Unit>): seq<Unit> { if AfterDot(name) == 0 then name else name[..AfterDot(name) - 1] }

  function Ext(name: seq<Unit>): seq<Unit> { if AfterDot(name) == 0 then [] else name[AfterDot(name)..] }

  predicate AllPlain(s: seq<Unit>) { forall i {:trigger s[i]} | 0 <= i < |s| :: Plain(s[i]) }

  /** Up to eight plain characters and, behind a dot, up to three. */
  predicate Is83(name: seq<Unit>) {
    && 1 <= |Body(name)| <= 8 && AllPlain(Body(name))
    && (AfterDot(name) > 0 ==> 1 <= |Ext(name)| <= 3 && AllPlain(Ext(name)))
  }

  predicate HasUpper(s: seq<Unit>) { exists i {:trigger s[i]} :: 0 <= i < |s| && IsUpper(s[i]) }

  predicate HasLower(s: seq<Unit>) { exists i {:trigger s[i]} :: 0 <= i < |s| && IsLower(s[i]) }

  /** The letters are of one case in the body and of one case in the extension. */
  predicate OneCase(name: seq<Unit>) {
    && !(HasUpper(Body(name)) && HasLower(Body(name)))
    && !(HasUpper(Ext(name)) && HasLower(Ext(name)))
  }

  // ---------------------------------------------------------------- the stored form

  /** s raised and padded with spaces to n bytes. */
  function Padded(s: seq<Unit>, n: nat): (b: seq<Byte>)
    requires |s| <= n && AllPlain(s)
    ensures |b| == n
    ensures forall i {:trigger b[i]} | 0 <= i < n :: b[i] == if i < |s| then Raised(s[i]) else SPACE
  {
    seq(n, i requires 0 <= i < n => if i < |s| then Raised(s[i]) else SPACE)
  }

  /** The eleven bytes of an 8.3 name. */
  function Form(name: seq<Unit>): (fn: ShortName)
    requires Is83(name)
  {
    Padded(Body(name), 8) + Padded(Ext(name), 3)
  }

  /** The case flags of an 8.3 name of one case: 8 for a small body, 16 for a small extension. */
  function CaseOf(name: seq<Unit>): Byte {
    (if HasLower(Body(name)) then 8 else 0) + (if HasLower(Ext(name)) then 16 else 0)
  }

  // ---------------------------------------------------------------- showing a short entry

  /** The Unicode characters of the upper half of the code page, zero where there is none. */
  type Oem = seq<Unit>

  function Unicode(oem: Oem, c: Byte): Unit { if c < 0x80 then c else if c - 0x80 < |oem| then oem[c - 0x80] else 0 }

  /** A character in UTF-8, empty when it has no encoding. */
  function Utf8(u: Unit): (b: seq<Byte>)
    ensures u < 0x80 ==> b == [u]
  {
    if u < 0x80 then [u]
    else if u < 0x800 then [0xC0 + u / 0x40, 0x80 + u % 0x40]
    else if 0xD800 <= u < 0xE000 then []
    else [0xE0 + u / 0x1000, 0x80 + u / 0x40 % 0x40, 0x80 + u % 0x40]
  }

  /** Room for a short name with its dot. */
  const SFN_BUF := 12

  /** The alternative name from byte i on, behind what is shown already; empty when a character does not
      fit or is none. */
  function ShownFrom(oem: Oem, fn: ShortName, i: nat, shown: seq<Byte>): seq<Byte>
    requires i <= 11
    decreases 11 - i
  {
    if i == 11 then shown
    else if fn[i] == SPACE then ShownFrom(oem, fn, i + 1, shown)
    else
      var u := Unicode(oem, if fn[i] == REPLACED then DELETED else fn[i]);
      var front: seq<Byte> := if i == 8 && |shown| < SFN_BUF then shown + [DOT] else shown;
      if u == 0 || Utf8(u) == [] || |front| + |Utf8(u)| > SFN_BUF then [] else ShownFrom(oem, fn, i + 1, front + Utf8(u))
  }

  /** The alternative name in the case the flags tell. */
  function Cased(alt: seq<Byte>, flags: Byte, inExt: bool): seq<Byte>
    decreases |alt|
  {
    if |alt| == 0 then []
    else
      var ext := inExt || alt[0] == DOT;
      var small := if ext then flags / 16 % 2 == 1 else flags / 8 % 2 == 1;
      [if IsUpper(alt[0]) && small then alt[0] + 0x20 else alt[0]] + Cased(alt[1..], flags, ext)
  }

  /** The name shown for an entry without a long name. */
  function NameShown(oem: Oem, fn: ShortName, flags: Byte): seq<Byte> {
    var alt := ShownFrom(oem, fn, 0, []);
    if alt == [] then [0x3F] else Cased(alt, flags, false)
  }

  // ---------------------------------------------------------------- the round trip

  function RaisedAll(s: seq<Unit>): (r: seq<Byte>)
    requires AllPlain(s)
    ensures |r| == |s| && forall i {:trigger r[i]} | 0 <= i < |s| :: r[i] == Raised(s[i])
  {
    seq(|s|, i requires 0 <= i < |s| => Raised(s[i]))
  }

  /** One stored byte: a character is shown, a space is not. */
  lemma {:induction false} ShownOne(oem: Oem, fn: ShortName, i: nat, c: nat, shown: seq<Byte>)
    requires i < 11 && (if Plain(c) then fn[i] == Raised(c) else fn[i] == SPACE) && |shown| < SFN_BUF
    requires i == 8 ==> |shown| + 1 < SFN_BUF
    ensures ShownFrom(oem, fn, i, shown) ==
            if !Plain(c) then ShownFrom(oem, fn, i + 1, shown)
            else ShownFrom(oem, fn, i + 1, (if i == 8 then shown + [DOT] else shown) + [Raised(c)])
  {
  }

  lemma {:induction false} RaisedStep(s: seq<Unit>, k: nat)
    requires AllPlain(s) && k < |s|
    ensures RaisedAll(s)[..k] + [Raised(s[k])] == RaisedAll(s)[..k + 1] && Plain(s[k])
  {
  }

  lemma {:induction false} ShownBody(oem: Oem, fn: ShortName, s: seq<Unit>, k: nat)
    requires k <= 8 && |s| <= 8 && AllPlain(s) && fn[..8] == Padded(s, 8)
    ensures ShownFrom(oem, fn, k, RaisedAll(s)[..if k < |s| then k else |s|]) == ShownFrom(oem, fn, 8, RaisedAll(s))
    decreases 8 - k
  {
    hide ShownFrom, RaisedAll;
    if k < 8 {
      assert fn[k] == fn[..8][k];
      ShownOne(oem, fn, k, if k < |s| then s[k] else SPACE, RaisedAll(s)[..if k < |s| then k else |s|]);
      if k < |s| { RaisedStep(s, k); }
      ShownBody(oem, fn, s, k + 1);
    } else {
      assert RaisedAll(s)[..|s|] == RaisedAll(s);
    }
  }

  lemma {:induction false} ShownExt(oem: Oem, fn: ShortName, front: seq<Byte>, s: seq<Unit>, k: nat)
    requires 1 <= k <= 3 && |s| <= 3 && AllPlain(s) && fn[8..] == Padded(s, 3) && |front| <= 9
    ensures ShownFrom(oem, fn, 8 + k, front + RaisedAll(s)[..if k < |s| then k else |s|]) == front + RaisedAll(s)
    decreases 3 - k
  {
    if k < 3 {
      hide ShownFrom, RaisedAll;
      assert fn[8 + k] == fn[8..][k];
      var shown := front + RaisedAll(s)[..if k < |s| then k else |s|];
      ShownOne(oem, fn, 8 + k, if k < |s| then s[k] else SPACE, shown);
      if k < |s| {
        RaisedStep(s, k);
        assert shown + [Raised(s[k])] == front + RaisedAll(s)[..k + 1];
      }
      ShownExt(oem, fn, front, s, k + 1);
    } else {
      assert RaisedAll(s)[..|s|] == RaisedAll(s);
    }
  }

  /** The stored form of an 8.3 name is shown as the name in capitals. */
  lemma {:induction false} FormShown(oem: Oem, name: seq<Unit>)
    requires Is83(name)
    ensures ShownFrom(oem, Form(name), 0, []) ==
            RaisedAll(Body(name)) + if AfterDot(name) > 0 then [DOT] + RaisedAll(Ext(name)) else []
  {
    hide ShownFrom, RaisedAll, AfterDot, Padded;
    var fn, b, e := Form(name), Body(name), Ext(name);
    assert fn[..8] == Padded(b, 8) && fn[8..] == Padded(e, 3);
    assert RaisedAll(b)[..0] == [];
    ShownBody(oem, fn, b, 0);
    if AfterDot(name) > 0 { ShownWithExt(oem, fn, b, e); } else { ShownBare(oem, fn, b); }
  }

  lemma {:induction false} ShownWithExt(oem: Oem, fn: ShortName, b: seq<Unit>, e: seq<Unit>)
    requires |b| <= 8 && AllPlain(b) && 1 <= |e| <= 3 && AllPlain(e) && fn[8..] == Padded(e, 3)
    ensures ShownFrom(oem, fn, 8, RaisedAll(b)) == RaisedAll(b) + ([DOT] + RaisedAll(e))
  {
    hide ShownFrom, RaisedAll;
    assert fn[8] == fn[8..][0] && |RaisedAll(b)| == |b|;
    RaisedStep(e, 0);
    ShownOne(oem, fn, 8, e[0], RaisedAll(b));
    assert RaisedAll(b) + [DOT] + [Raised(e[0])] == RaisedAll(b) + [DOT] + RaisedAll(e)[..1];
    ShownExt(oem, fn, RaisedAll(b) + [DOT], e, 1);
    assert RaisedAll(b) + [DOT] + RaisedAll(e) == RaisedAll(b) + ([DOT] + RaisedAll(e));
  }

  lemma {:induction false} ShownBare(oem: Oem, fn: ShortName, b: seq<Unit>)
    requires |b| <= 8 && AllPlain(b) && fn[8..] == Padded([], 3)
    ensures ShownFrom(oem, fn, 8, RaisedAll(b)) == RaisedAll(b)
  {
    hide ShownFrom;
    assert fn[8] == fn[8..][0] && |RaisedAll(b)| == |b|;
    ShownOne(oem, fn, 8, SPACE, RaisedAll(b));
    assert RaisedAll(b) + RaisedAll([])[..0] == RaisedAll(b) && RaisedAll(b) + RaisedAll([]) == RaisedAll(b);
    ShownExt(oem, fn, RaisedAll(b), [], 1);
  }

  /** A part of one case comes back from its capitals and its flag. */
  lemma {:induction false} CasedPart(s: seq<Unit>, rest: seq<Byte>, flags: Byte, inExt: bool)
    requires AllPlain(s) && !(HasUpper(s) && HasLower(s))
    requires (if inExt then flags / 16 % 2 == 1 else flags / 8 % 2 == 1) == HasLower(s)
    ensures Cased(RaisedAll(s) + rest, flags, inExt) == s + Cased(rest, flags, inExt)
  {
    CasedFrom(s, s, rest, flags, inExt);
  }

  lemma {:induction false} CasedFrom(s: seq<Unit>, part: seq<Unit>, rest: seq<Byte>, flags: Byte, inExt: bool)
    requires AllPlain(s) && !(HasUpper(s) && HasLower(s)) && AllPlain(part) && forall c {:trigger c in part} | c in part :: c in s
    requires (if inExt then flags / 16 % 2 == 1 else flags / 8 % 2 == 1) == HasLower(s)
    ensures Cased(RaisedAll(part) + rest, flags, inExt) == part + Cased(rest, flags, inExt)
    decreases |part|
  {
    if |part| == 0 {
      assert RaisedAll(part) + rest == rest && part + Cased(rest, flags, inExt) == Cased(rest, flags, inExt);
    } else {
      var c := part[0];
      assert c in part && c in s && Plain(c);
      assert (RaisedAll(part) + rest)[1..] == RaisedAll(part[1..]) + rest && (RaisedAll(part) + rest)[0] == Raised(c);
      forall x | x in part[1..] ensures x in s { assert x in part; }
      CasedFrom(s, part[1..], rest, flags, inExt);
      assert part + Cased(rest, flags, inExt) == [c] + (part[1..] + Cased(rest, flags, inExt));
    }
  }

  /** Every 8.3 name of one case in each part is shown again exactly as it was, letter case included. */
  lemma {:induction false} ShownAsNamed(oem: Oem, name: seq<Unit>)
    requires Is83(name) && OneCase(name)
    ensures NameShown(oem, Form(name), CaseOf(name)) == name
  {
    hide ShownFrom, RaisedAll, Form, Cased;
    var b, e, d := Body(name), Ext(name), AfterDot(name);
    FormShown(oem, name);
    assert |RaisedAll(b)| > 0;
    if d > 0 {
      CasedPart(b, [DOT] + RaisedAll(e), CaseOf(name), false);
      CasedDot(RaisedAll(e), CaseOf(name));
      CasedPart(e, [], CaseOf(name), true);
      assert RaisedAll(e) + [] == RaisedAll(e) && Cased([], CaseOf(name), true) == [] by { CasedNone(CaseOf(name), true); }
      assert name == b + ([DOT] + e);
    } else {
      CasedPart(b, [], CaseOf(name), false);
      CasedNone(CaseOf(name), false);
      assert RaisedAll(b) + [] == RaisedAll(b);
    }
  }

  lemma {:induction false} CasedNone(flags: Byte, inExt: bool)
    ensures Cased([], flags, inExt) == []
  {
  }

  lemma {:induction false} CasedDot(e: seq<Byte>, flags: Byte)
    ensures Cased([DOT] + e, flags, false) == [DOT] + Cased(e, flags, true)
  {
    assert ([DOT] + e)[1..] == e;
  }
}
