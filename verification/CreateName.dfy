/** From a path segment to a long name, a short name and the status that says whether both are needed. */
module Names {
  import opened Arith
  import opened Volume
  import opened LfnTheory
  import opened DirTheory
  import opened NameForm
  import opened DirSteps

  /** A character of a path as tchar2uni decodes it: a unit, a surrogate pair in one word, or a wrong code. */
  type Decoded = u: Word32 | u < 0x1_0000 || u == 0xFFFF_FFFF || (0xD800 <= u / 0x1_0000 < 0xDC00 && 0xDC00 <= u % 0x1_0000 < 0xE000) witness 0

  const WRONG: Word32 := 0xFFFF_FFFF

  predicate IsSeparator(c: nat) { c == 0x2F || c == 0x5C }

  /** Where a segment ends: at the end of the path, at a control character or at a separator. */
  predicate Stops(c: nat) { c < SPACE || IsSeparator(c) }

  /** Asterisk, colon, angle brackets, bar, quote, question mark and delete. */
  predicate Illegal(c: nat) { c == 0x2A || c == 0x3A || c == 0x3C || c == 0x3E || c == 0x7C || c == 0x22 || c == 0x3F || c == 0x7F }

  function CharAt(path: seq<Decoded>, p: nat): Decoded { if p < |path| then path[p] else 0 }

  function UnitsOf(uc: Decoded): seq<Unit> { (if uc >= 0x1_0000 then [uc / 0x1_0000] else []) + [uc % 0x1_0000] }

  function AllUnits(path: seq<Decoded>): seq<Unit> {
    if |path| == 0 then [] else AllUnits(path[..|path| - 1]) + UnitsOf(path[|path| - 1])
  }

  /** A character that can be part of a name. */
  predicate Legal(uc: Decoded) { uc != WRONG && !Stops(uc % 0x1_0000) && !Illegal(uc % 0x1_0000) }

  predicate AllLegal(path: seq<Decoded>) { forall i {:trigger path[i]} | 0 <= i < |path| :: Legal(path[i]) }

  /** A name has no control characters and does not end in a space or a dot. */
  predicate Snipped(name: seq<Unit>) {
    && 0 < |name| <= MAX_LFN && name[|name| - 1] != SPACE && name[|name| - 1] != DOT
    && forall i {:trigger name[i]} | 0 <= i < |name| :: name[i] >= SPACE
  }

  predicate Ascii(name: seq<Unit>) { forall i {:trigger name[i]} | 0 <= i < |name| :: name[i] < 0x80 }

  /** The code page's byte of a unit, in capitals; zero when it has none. */
  type CodePage = seq<Byte>

  function Converted(cp: CodePage, u: Unit): Byte { if u < |cp| then cp[u] else 0 }

  // ---------------------------------------------------------------- the clean case

  /** Letters seen in a part of the name. */
  datatype Letters = Letters(upper: bool, lower: bool)

  function LettersOf(s: seq<Unit>): Letters { Letters(HasUpper(s), HasLower(s)) }

  /** As long as nothing was replaced, dropped or cut, the short name holds what was read. */
  predicate Clean(name: seq<Unit>, si: nat, i: nat, ni: nat, fn: ShortName, body: Letters, part: Letters)
    requires si <= |name|
  {
    var d := AfterDot(name);
    if ni == 8 then
      && i == si <= 8 && si <= |Body(name)| && (|name| > 0 ==> name[0] != DOT) && AllPlain(name[..si]) && part == LettersOf(name[..si])
      && fn == Padded(name[..si], 8) + Padded([], 3)
    else
      && ni == 11 && 0 < d <= si && 1 <= |Body(name)| <= 8 && AllPlain(Body(name)) && body == LettersOf(Body(name))
      && i == 8 + si - d <= 11 && AllPlain(name[d..si]) && part == LettersOf(name[d..si])
      && fn == Padded(Body(name), 8) + Padded(name[d..si], 3)
  }

  /** A character that no 8.3 name has at its place. */
  predicate Odd(name: seq<Unit>, k: nat)
    requires k < |name|
  {
    !Plain(name[k]) && (name[k] != DOT || k + 1 != AfterDot(name) || k == 0)
  }

  lemma {:induction false} OddIsNot83(name: seq<Unit>, k: nat)
    requires k < |name| && Odd(name, k)
    ensures !Is83(name)
  {
    var d, b, e := AfterDot(name), Body(name), Ext(name);
    if d == 0 {
      assert b[k] == name[k];
    } else if k < d - 1 {
      assert b[k] == name[k];
    } else if k >= d {
      assert e[k - d] == name[k];
    }
  }

  lemma {:induction false} CleanStart(name: seq<Unit>)
    requires Snipped(name) && name[0] != DOT
    ensures Clean(name, 0, 0, 8, seq(11, _ => SPACE), Letters(false, false), Letters(false, false))
  {
  }

  lemma {:induction false} LettersMore(s: seq<Unit>, c: Unit)
    ensures LettersOf(s + [c]) == Letters(HasUpper(s) || IsUpper(c), HasLower(s) || IsLower(c))
  {
    var t := s + [c];
    assert forall i | 0 <= i < |s| :: t[i] == s[i];
    assert t[|s|] == c;
  }

  lemma {:induction false} PaddedMore(s: seq<Unit>, c: Unit, n: nat)
    requires |s| < n && AllPlain(s) && Plain(c)
    ensures AllPlain(s + [c]) && Padded(s + [c], n) == Padded(s, n)[|s| := Raised(c)]
  {
  }

  /** A plain character is stored. */
  lemma {:induction false} CleanChar(name: seq<Unit>, si: nat, i: nat, ni: nat, fn: ShortName, body: Letters, part: Letters)
    requires si < |name| && Clean(name, si, i, ni, fn, body, part) && Plain(name[si]) && i < ni
    ensures i < 11 && Clean(name, si + 1, i + 1, ni, fn[i := Raised(name[si])], body,
                  Letters(part.upper || IsUpper(name[si]), part.lower || IsLower(name[si])))
  {
    hide AfterDot, HasUpper, HasLower, Padded;
    var d, c := AfterDot(name), name[si];
    if ni == 8 {
      assert name[..si + 1] == name[..si] + [c];
      LettersMore(name[..si], c);
      PaddedMore(name[..si], c, 8);
    } else {
      assert name[d..si + 1] == name[d..si] + [c];
      LettersMore(name[d..si], c);
      PaddedMore(name[d..si], c, 3);
    }
  }

  /** The last dot ends the body. */
  lemma {:induction false} CleanDot(name: seq<Unit>, si: nat, i: nat, fn: ShortName, body: Letters, part: Letters)
    requires si < |name| && Clean(name, si, i, 8, fn, body, part) && si + 1 == AfterDot(name)
    ensures Clean(name, si + 1, 8, 11, fn, part, Letters(false, false))
  {
    hide AfterDot, Padded;
    assert name[si + 1..si + 1] == [];
    assert Body(name) == name[..si];
  }

  /** One character too many. */
  lemma {:induction false} CleanOver(name: seq<Unit>, si: nat, i: nat, ni: nat, fn: ShortName, body: Letters, part: Letters)
    requires si < |name| && Clean(name, si, i, ni, fn, body, part) && i >= ni && (ni == 8 ==> si + 1 != AfterDot(name))
    ensures !Is83(name)
  {
    hide AfterDot, Padded, HasUpper, HasLower, AllPlain;
  }

  /** When the whole name went through, it is the stored form. */
  lemma {:induction false} CleanEnd(name: seq<Unit>, i: nat, ni: nat, fn: ShortName, body: Letters, part: Letters)
    requires Snipped(name) && Clean(name, |name|, i, ni, fn, body, part)
    ensures Is83(name) && fn == Form(name)
    ensures if ni == 8 then part == LettersOf(Body(name)) && Ext(name) == [] else body == LettersOf(Body(name)) && part == LettersOf(Ext(name))
  {
    hide Padded, HasUpper, HasLower;
    var d := AfterDot(name);
    if ni == 8 { assert d == 0 && name[..|name|] == name; } else { assert name[d..|name|] == name[d..]; }
  }

  lemma {:induction false} DotIs(name: seq<Unit>, d: nat)
    requires d <= |name| && (d > 0 ==> name[d - 1] == DOT) && forall k {:trigger name[k]} | d <= k < |name| :: name[k] != DOT
    ensures AfterDot(name) == d
  {
  }

  lemma {:induction false} FormStart(name: seq<Unit>)
    requires Is83(name)
    ensures Form(name)[0] < 0x80 && Form(name)[0] != 0
  {
    assert Plain(Body(name)[0]);
  }

  lemma {:induction false} NoLetters()
    ensures LettersOf([]) == Letters(false, false)
  {
  }

  // ---------------------------------------------------------------- the short name

  /** The second half of create_name: the short name, and how it differs from the name. */
  method MakeShort(name: seq<Unit>, cp: CodePage) returns (fn: ShortName, loss: bool, lfn: bool, body: Letters, ext: Letters)
    requires Snipped(name)
    ensures lfn <==> !Is83(name)
    ensures (loss ==> lfn) && (Ascii(name) && lfn ==> loss)
    ensures !lfn ==> fn == Form(name) && body == LettersOf(Body(name)) && ext == LettersOf(Ext(name))
    ensures Storable(fn)
  {
    hide AfterDot, Is83, Form, Clean, LettersOf, HasUpper, HasLower, Padded;
    loss, lfn := false, false;
    var si: nat := 0;
    while name[si] == SPACE
      invariant si < |name| && forall k {:trigger name[k]} | 0 <= k < si :: name[k] == SPACE
      decreases |name| - si
    {
      si := si + 1;
    }
    if si > 0 || name[si] == DOT {
      OddIsNot83(name, 0);
      loss, lfn := true, true;
    } else {
      CleanStart(name);
    }
    var di: nat := |name|;
    while di > 0 && name[di - 1] != DOT
      invariant di <= |name| && forall k {:trigger name[k]} | di <= k < |name| :: name[k] != DOT
    {
      di := di - 1;
    }
    DotIs(name, di);
    fn := seq(11, _ => SPACE);
    var i: nat, ni: nat := 0, 8;
    body, ext := Letters(false, false), Letters(false, false);
    var part := Letters(false, false);
    while si < |name|
      invariant si <= |name| && i <= ni <= 11 && (ni == 8 || ni == 11) && (forall k {:trigger fn[k]} | 0 <= k < 11 :: fn[k] != 0)
      invariant (loss ==> lfn) && (Ascii(name) && lfn ==> loss) && (lfn ==> !Is83(name)) && (!lfn ==> Clean(name, si, i, ni, fn, body, part))
      invariant ni == 11 ==> si >= di
      decreases |name| - si, 11 - ni
    {
      var wc := name[si];
      si := si + 1;
      if wc == SPACE || (wc == DOT && si != di) {
        OddIsNot83(name, si - 1);
        loss, lfn := true, true;
        continue;
      }
      if i >= ni || si == di {
        if ni == 11 || si != di {
          if !lfn { CleanOver(name, si - 1, i, ni, fn, body, part); }
          loss, lfn := true, true;
        } else if !lfn {
          CleanDot(name, si - 1, i, fn, body, part);
        }
        if ni == 11 || si > di { break; }
        si, i, ni := di, 8, 11;
        body, part := part, Letters(false, false);
        continue;
      }
      var c: Byte := if wc >= 0x80 then Converted(cp, wc) else wc;
      if wc >= 0x80 {
        OddIsNot83(name, si - 1);
        lfn := true;
      }
      if c == 0 || LongOnly(c) {
        OddIsNot83(name, si - 1);
        c, loss, lfn := 0x5F, true, true;
      } else {
        if !lfn { CleanChar(name, si - 1, i, ni, fn, body, part); }
        part := Letters(part.upper || IsUpper(c), part.lower || IsLower(c));
        c := Raised(c);
      }
      fn := fn[i := c];
      i := i + 1;
    }
    if !lfn {
      CleanEnd(name, i, ni, fn, body, part);
      FormStart(name);
      NoLetters();
    }
    if fn[0] == DELETED { fn := fn[0 := REPLACED]; }
    if ni == 8 { body := part; } else { ext := part; }
  }

  // ---------------------------------------------------------------- the segment

  /** The longest part of the path from p on that is all legal ends at e. */
  predicate EndsAt(path: seq<Decoded>, p: nat, e: nat) {
    p <= e <= |path| && AllLegal(path[p..e]) && !Legal(CharAt(path, e))
  }

  /** Where the longest all-legal part of the path from p on ends. */
  function SegmentEnd(path: seq<Decoded>, p: nat): (e: nat)
    requires p <= |path|
    ensures EndsAt(path, p, e)
    decreases |path| - p
  {
    assert path[p..p] == [];
    if Legal(CharAt(path, p)) then
      var e := SegmentEnd(path, p + 1);
      assert path[p..e] == [path[p]] + path[p + 1..e];
      e
    else p
  }

  /** The units of the segment at p. */
  function Segment(path: seq<Decoded>, p: nat): seq<Unit>
    requires p <= |path|
  {
    AllUnits(path[p..SegmentEnd(path, p)])
  }

  lemma {:induction false} EndsOnce(path: seq<Decoded>, p: nat, e: nat)
    requires EndsAt(path, p, e)
    ensures e == SegmentEnd(path, p)
  {
    LegalBefore(path, p, e);
    LegalBefore(path, p, SegmentEnd(path, p));
  }

  lemma {:induction false} LegalBefore(path: seq<Decoded>, p: nat, e: nat)
    requires p <= e <= |path| && AllLegal(path[p..e])
    ensures forall k {:trigger path[k]} | p <= k < e :: Legal(path[k])
  {
    forall k | p <= k < e ensures Legal(path[k]) { assert path[p..e][k - p] == path[k]; }
  }

  lemma {:induction false} UnitsGrow(path: seq<Decoded>, p: nat, e: nat, d: nat)
    requires p <= e <= d <= |path|
    ensures |AllUnits(path[p..e])| <= |AllUnits(path[p..d])|
    decreases d
  {
    if e < d {
      UnitsGrow(path, p, e, d - 1);
      assert path[p..d][..d - 1 - p] == path[p..d - 1];
    }
  }

  /** A segment create_name cannot read: a wrong code or an illegal character ends it, or it is too long. */
  predicate Unreadable(path: seq<Decoded>, p: nat)
    requires p <= |path|
  {
    var c := CharAt(path, SegmentEnd(path, p));
    c == WRONG || Illegal(c % 0x1_0000) || |Segment(path, p)| > MAX_LFN
  }

  lemma {:induction false} UnitsMore(path: seq<Decoded>, p: nat, e: nat)
    requires p <= e < |path| && Legal(path[e])
    ensures AllUnits(path[p..e + 1]) == AllUnits(path[p..e]) + UnitsOf(path[e])
    ensures AllLegal(path[p..e]) ==> AllLegal(path[p..e + 1])
  {
    assert path[p..e + 1][..e - p] == path[p..e];
  }

  /** The first part of create_name: the units of the segment, refused when one is illegal or they are too many. */
  method ReadSegment(path: seq<Decoded>, p: nat) returns (ok: bool, units: seq<Unit>, e: nat)
    requires p <= |path|
    ensures ok <==> !Unreadable(path, p)
    ensures ok ==> e == SegmentEnd(path, p) && units == Segment(path, p) && |units| <= MAX_LFN && Stops(CharAt(path, e) % 0x1_0000)
    ensures p <= e <= |path|
    ensures forall k {:trigger units[k]} | 0 <= k < |units| :: units[k] >= SPACE
  {
    hide SegmentEnd, AllUnits, AllLegal;
    e, units := p, [];
    assert AllLegal(path[p..p]) && AllUnits(path[p..p]) == [] by { NoUnits(path, p); }
    while true
      invariant p <= e <= |path| && AllLegal(path[p..e]) && units == AllUnits(path[p..e]) && |units| <= MAX_LFN
      invariant forall k {:trigger units[k]} | 0 <= k < |units| :: units[k] >= SPACE
      decreases |path| - e
    {
      var uc := CharAt(path, e);
      if uc == WRONG { EndsOnce(path, p, e); return false, [], e; }
      var high: seq<Unit> := if uc >= 0x1_0000 then [uc / 0x1_0000] else [];
      var wc: Unit := uc % 0x1_0000;
      if Stops(wc) { break; }
      if Illegal(wc) { EndsOnce(path, p, e); return false, [], e; }
      UnitsMore(path, p, e);
      if |units| + |high| >= MAX_LFN { TooLong(path, p, e + 1); return false, [], e; }
      units := units + high + [wc];
      e := e + 1;
    }
    EndsOnce(path, p, e);
    ok := true;
  }

  lemma {:induction false} NoUnits(path: seq<Decoded>, p: nat)
    requires p <= |path|
    ensures AllLegal(path[p..p]) && AllUnits(path[p..p]) == []
  {
  }

  /** Units too many in a part of the segment are too many in all of it. */
  lemma {:induction false} TooLong(path: seq<Decoded>, p: nat, e: nat)
    requires p <= e <= |path| && AllLegal(path[p..e]) && |AllUnits(path[p..e])| > MAX_LFN
    ensures Unreadable(path, p)
  {
    LegalBefore(path, p, e);
    UnitsGrow(path, p, e, SegmentEnd(path, p));
  }

  /** What create_name gives for the units of a segment. */
  predicate Created(units: seq<Unit>, name: seq<Unit>, fn: ShortName, status: Byte) {
    && Snipped(name) && name <= units && (forall k {:trigger units[k]} | |name| <= k < |units| :: units[k] == SPACE || units[k] == DOT)
    && (!HasLongFlag(status) <==> Is83(name) && OneCase(name))
    && (Is83(name) ==> fn == Form(name) && status % 2 == 0)
    && (Ascii(name) && !Is83(name) ==> status % 2 == 1)
    && (status % 2 == 1 ==> HasLongFlag(status))
    && CaseFlags(status) == (if HasLongFlag(status) then 0 else CaseOf(name))
    && status < 0x20 && Storable(fn)
  }

  /** NS_DOT */
  const DOT_NAME: Byte := 0x20

  /** A dot or two: the segment for the directory itself or the one above it. */
  predicate IsDots(units: seq<Unit>) { units == [DOT] || units == [DOT, DOT] }

  /** Nothing but spaces and dots. */
  predicate Blank(units: seq<Unit>) { forall k {:trigger units[k]} | 0 <= k < |units| :: units[k] == SPACE || units[k] == DOT }

  /** What create_name gives for a segment of one dot or two. */
  predicate DotCreated(units: seq<Unit>, name: seq<Unit>, fn: ShortName, status: Byte) {
    && name == units && HasDotFlag(status) && !HasLongFlag(status) && status % 2 == 0 && CaseFlags(status) == 0
    && |fn| == 11 && forall k {:trigger fn[k]} | 0 <= k < 11 :: fn[k] == if k < |units| then DOT else SPACE
  }

  predicate HasDotFlag(status: Byte) { status / DOT_NAME % 2 == 1 }

  /** create_name: the next segment's long and short name, and where the one after it starts. A segment is
      refused exactly when it cannot be read, or has nothing but spaces and dots and is no dot name. */
  method CreateName(path: seq<Decoded>, p: nat, cp: CodePage) returns (res: FResult, name: seq<Unit>, fn: ShortName, status: Byte, next: nat)
    requires p <= |path|
    ensures res == if Unreadable(path, p) || (Blank(Segment(path, p)) && !IsDots(Segment(path, p))) then InvalidName else Ok
    ensures res == Ok ==>
              var e, units := SegmentEnd(path, p), Segment(path, p);
              && (if IsDots(units) then DotCreated(units, name, fn, status) else Created(units, name, fn, status))
              && e <= next <= |path|
              && (forall k {:trigger path[k]} | e <= k < next :: IsSeparator(path[k])) && !IsSeparator(CharAt(path, next))
              && (status / 4 % 2 == 1 <==> CharAt(path, next) < SPACE)
  {
    hide AfterDot, Is83, Form, OneCase, CaseOf, Snipped, SegmentEnd, Segment, Unreadable, Created, DotCreated, Blank;
    name, fn, status, next := [], seq(11, _ => SPACE), 0, p;
    var ok, units, e := ReadSegment(path, p);
    if !ok { return InvalidName, name, fn, status, next; }
    next := e;
    while IsSeparator(CharAt(path, next))
      invariant e <= next <= |path| && forall k {:trigger path[k]} | e <= k < next :: IsSeparator(path[k])
      decreases |path| - next
    {
      next := next + 1;
    }
    if IsDots(units) {
      name := units;
      fn := seq(11, k => if k < |units| then DOT else SPACE);
      status := (if CharAt(path, next) < SPACE then 4 else 0) + DOT_NAME;
      DotsAre(units, fn, CharAt(path, next) < SPACE, status);
      return Ok, name, fn, status, next;
    }
    var di: nat := |units|;
    while di > 0 && (units[di - 1] == SPACE || units[di - 1] == DOT)
      invariant di <= |units| && forall k {:trigger units[k]} | di <= k < |units| :: units[k] == SPACE || units[k] == DOT
    {
      di := di - 1;
    }
    BlankIs(units, di);
    if di == 0 { return InvalidName, name, fn, status, next; }
    name := units[..di];
    SnippedIs(units, di);
    var loss, lfn, body, ext;
    fn, loss, lfn, body, ext := MakeShort(name, cp);
    lfn := lfn || (body.upper && body.lower) || (ext.upper && ext.lower);
    status := (if loss then 1 else 0) + (if lfn then 2 else 0) + (if CharAt(path, next) < SPACE then 4 else 0)
      + (if !lfn && body.lower then 8 else 0) + (if !lfn && ext.lower then 16 else 0);
    CreatedIs(units, name, fn, loss, body, ext, CharAt(path, next) < SPACE, status);
    res := Ok;
  }

  lemma {:induction false} DotsAre(units: seq<Unit>, fn: ShortName, last: bool, status: Byte)
    requires IsDots(units) && fn == seq(11, k => if k < |units| then DOT else SPACE) && status == (if last then 4 else 0) + DOT_NAME
    ensures DotCreated(units, units, fn, status) && (status / 4 % 2 == 1 <==> last)
  {
  }

  lemma {:induction false} BlankIs(units: seq<Unit>, di: nat)
    requires di <= |units| && (di > 0 ==> units[di - 1] != SPACE && units[di - 1] != DOT)
    requires forall k {:trigger units[k]} | di <= k < |units| :: units[k] == SPACE || units[k] == DOT
    ensures Blank(units) <==> di == 0
  {
  }

  lemma {:induction false} SnippedIs(units: seq<Unit>, di: nat)
    requires 0 < di <= |units| <= MAX_LFN && units[di - 1] != SPACE && units[di - 1] != DOT
    requires forall k {:trigger units[k]} | 0 <= k < |units| :: units[k] >= SPACE
    ensures Snipped(units[..di])
  {
  }

  lemma {:induction false} CreatedIs(units: seq<Unit>, name: seq<Unit>, fn: ShortName, loss: bool, body: Letters, ext: Letters, last: bool, status: Byte)
    requires Snipped(name) && name <= units && (forall k {:trigger units[k]} | |name| <= k < |units| :: units[k] == SPACE || units[k] == DOT)
    requires (loss ==> !Is83(name)) && (Ascii(name) && !Is83(name) ==> loss) && Storable(fn)
    requires Is83(name) ==> fn == Form(name) && body == LettersOf(Body(name)) && ext == LettersOf(Ext(name))
    requires var lfn := !Is83(name) || (body.upper && body.lower) || (ext.upper && ext.lower);
             status == (if loss then 1 else 0) + (if lfn then 2 else 0) + (if last then 4 else 0)
               + (if !lfn && body.lower then 8 else 0) + (if !lfn && ext.lower then 16 else 0)
    ensures Created(units, name, fn, status) && (status / 4 % 2 == 1 <==> last)
  {
    hide Is83, Form, HasUpper, HasLower, Snipped, Body, Ext;
  }

  /** The short entry of a name that create_name leaves without a long one shows the name itself. */
  lemma {:induction false} CreatedIsShown(units: seq<Unit>, name: seq<Unit>, fn: ShortName, status: Byte, oem: Oem)
    requires Created(units, name, fn, status) && !HasLongFlag(status)
    ensures var e := ShortEntry(fn, CaseFlags(status)); NameShown(oem, e[..11], e[12]) == name
  {
    hide Is83, Form, OneCase, NameShown, CaseOf;
    ShownAsNamed(oem, name);
  }

  /** The short-name part of get_fileinfo, for an entry without a long name. */
  method ShortInfo(dir: Entry, oem: Oem) returns (fname: seq<Byte>, altname: seq<Byte>)
    ensures fname == NameShown(oem, dir[..11], dir[12])
    ensures altname == if dir[12] == 0 then [] else ShownFrom(oem, dir[..11], 0, [])
  {
    altname := AltName(dir[..11], oem);
    fname := [0x3F];
    if altname != [] { fname := InCase(altname, dir[12]); }
    if dir[12] == 0 { altname := []; }
  }

  /** The short name in the encoding of the interface. */
  method AltName(fn: ShortName, oem: Oem) returns (altname: seq<Byte>)
    ensures altname == ShownFrom(oem, fn, 0, [])
  {
    hide Utf8, Unicode;
    altname := [];
    var si: nat := 0;
    while si < 11
      invariant si <= 11 && ShownFrom(oem, fn, si, altname) == ShownFrom(oem, fn, 0, [])
    {
      var wc := fn[si];
      if wc != SPACE {
        if wc == REPLACED { wc := DELETED; }
        if si == 8 && |altname| < SFN_BUF { altname := altname + [DOT]; }
        var u := Unicode(oem, wc);
        var enc := Utf8(u);
        if u == 0 || enc == [] || |altname| + |enc| > SFN_BUF { return []; }
        altname := altname + enc;
      }
      si := si + 1;
    }
  }

  /** The short name in the case its flags tell. */
  method InCase(altname: seq<Byte>, flags: Byte) returns (fname: seq<Byte>)
    ensures fname == Cased(altname, flags, false)
  {
    hide Cased;
    fname := [];
    var di, inExt := 0, false;
    assert altname[0..] == altname;
    while di < |altname|
      invariant 0 <= di <= |altname| && fname + Cased(altname[di..], flags, inExt) == Cased(altname, flags, false)
    {
      var wc := altname[di];
      ghost var before := inExt;
      if wc == DOT { inExt := true; }
      if IsUpper(wc) && (if inExt then flags / 16 % 2 == 1 else flags / 8 % 2 == 1) { wc := wc + 0x20; }
      CasedStep(altname[di..], flags, before, wc, inExt);
      assert altname[di..][1..] == altname[di + 1..];
      assert fname + ([wc] + Cased(altname[di + 1..], flags, inExt)) == fname + [wc] + Cased(altname[di + 1..], flags, inExt);
      fname := fname + [wc];
      di := di + 1;
    }
    CasedNone(flags, inExt);
    assert altname[di..] == [] && fname + [] == fname;
  }

  lemma {:induction false} CasedStep(alt: seq<Byte>, flags: Byte, inExt: bool, c: nat, ext: bool)
    requires |alt| > 0 && ext == (inExt || alt[0] == DOT)
    requires c == if IsUpper(alt[0]) && (if ext then flags / 16 % 2 == 1 else flags / 8 % 2 == 1) then alt[0] + 0x20 else alt[0]
    ensures c < 0x100 && Cased(alt, flags, inExt) == [c] + Cased(alt[1..], flags, ext)
  {
  }
}
