/** The wildcard matcher of the directory search. */
module Pattern {
  type Letter = c: nat | c != 0 witness 1

  /** A table of case folding: no character folds to the end of a string. */
  type Fold = seq<Letter>

  function Folded(up: Fold, c: Letter): Letter { if c < |up| then up[c] else c }

  /** A decoded string; an element of zero stands for a wrong encoding, which counts as the end. */
  type Text = seq<nat>

  const QUERY := 0x3F
  const STAR := 0x2A

  /** Wildcard terms a pattern may have. */
  const FIND_RECURS := 4

  predicate Ended(s: Text, i: nat) { i >= |s| || s[i] == 0 }

  predicate Wild(s: Text, i: nat) { i < |s| && (s[i] == QUERY || s[i] == STAR) }

  /** get_achar: the folded character at i, zero at the end. */
  function Char(up: Fold, s: Text, i: nat): (c: nat)
    ensures c == 0 <==> Ended(s, i)
  {
    if Ended(s, i) then 0 else Folded(up, s[i])
  }

  /** The name has characters from n up to k. */
  predicate Reach(s: Text, n: nat, k: nat) {
    n <= k <= |s| && forall i {:trigger s[i]} | n <= i < k :: s[i] != 0
  }

  // ---------------------------------------------------------------- what a pattern means

  /** The pattern from p matches the name from n: a query stands for one character, a star for any
      number of them, and every other character for itself up to case. */
  ghost predicate Glob(up: Fold, pat: Text, p: nat, nam: Text, n: nat)
    decreases |pat| - p
  {
    if Ended(pat, p) then Ended(nam, n)
    else if pat[p] == QUERY then !Ended(nam, n) && Glob(up, pat, p + 1, nam, n + 1)
    else if pat[p] == STAR then exists k: nat {:trigger Glob(up, pat, p + 1, nam, k)} :: Reach(nam, n, k) && Glob(up, pat, p + 1, nam, k)
    else !Ended(nam, n) && Folded(up, pat[p]) == Folded(up, nam[n]) && Glob(up, pat, p + 1, nam, n + 1)
  }

  /** Where the wildcard term at p ends. */
  function TermEnd(pat: Text, p: nat): (e: nat)
    ensures p <= e && !Wild(pat, e) && (p <= |pat| ==> e <= |pat|) && (Wild(pat, p) ==> p < e)
    decreases |pat| - p
  {
    if Wild(pat, p) then TermEnd(pat, p + 1) else p
  }

  /** The number of wildcard terms from p on. */
  function Terms(pat: Text, p: nat): nat
    decreases |pat| - p
  {
    if Ended(pat, p) then 0
    else if Wild(pat, p) then 1 + Terms(pat, TermEnd(pat, p))
    else Terms(pat, p + 1)
  }

  /** The queries of the term from p on. */
  function Queries(pat: Text, p: nat): nat
    decreases |pat| - p
  {
    if Wild(pat, p) then Queries(pat, p + 1) + (if pat[p] == QUERY then 1 else 0) else 0
  }

  /** The term from p on has a star. */
  predicate Starred(pat: Text, p: nat)
    decreases |pat| - p
  {
    Wild(pat, p) && (pat[p] == STAR || Starred(pat, p + 1))
  }

  /** Setting bit 8 of the packed count. */
  function WithStar(sk: nat): nat { if sk / 256 % 2 == 1 then sk else sk + 256 }

  /** The packed count of a term: queries counted from the lowest bit, bit 8 for a star. */
  function TermSkip(pat: Text, p: nat, sk: nat): nat
    decreases |pat| - p
  {
    if Wild(pat, p) then TermSkip(pat, p + 1, if pat[p] == QUERY then sk + 1 else WithStar(sk)) else sk
  }

  /** What the matcher makes of a pattern: like Glob, with every term read through its packed count. */
  ghost predicate Packed(up: Fold, pat: Text, p: nat, nam: Text, n: nat)
    decreases |pat| - p, 0
  {
    if Ended(pat, p) then Ended(nam, n)
    else if Wild(pat, p) then
      Skips(up, pat, TermEnd(pat, p), nam, n, TermSkip(pat, p, 0))
    else !Ended(nam, n) && Folded(up, pat[p]) == Folded(up, nam[n]) && Packed(up, pat, p + 1, nam, n + 1)
  }

  /** After sk % 256 characters, or any more when sk has a higher bit, the pattern from p matches. */
  ghost predicate Skips(up: Fold, pat: Text, p: nat, nam: Text, n: nat, sk: nat)
    decreases |pat| - p, 1
  {
    && Reach(nam, n, n + sk % 256)
    && (if sk < 256 then Packed(up, pat, p, nam, n + sk)
        else exists k: nat {:trigger Packed(up, pat, p, nam, k)} :: n + sk % 256 <= k && Reach(nam, n, k) && Packed(up, pat, p, nam, k))
  }

  // ---------------------------------------------------------------- the packed count is faithful

  /** The meaning of a whole term. */
  ghost predicate TermMeans(up: Fold, pat: Text, e: nat, nam: Text, n: nat, q: nat, star: bool) {
    && Reach(nam, n, n + q)
    && (if !star then Glob(up, pat, e, nam, n + q)
        else exists k: nat {:trigger Glob(up, pat, e, nam, k)} :: n + q <= k && Reach(nam, n, k) && Glob(up, pat, e, nam, k))
  }

  lemma {:induction false} TermGlob(up: Fold, pat: Text, p: nat, nam: Text, n: nat)
    requires n <= |nam|
    ensures Glob(up, pat, p, nam, n) <==> TermMeans(up, pat, TermEnd(pat, p), nam, n, Queries(pat, p), Starred(pat, p))
    decreases |pat| - p
  {
    if Wild(pat, p) {
      var e, q, star := TermEnd(pat, p), Queries(pat, p + 1), Starred(pat, p + 1);
      if pat[p] == QUERY {
        if !Ended(nam, n) { TermGlob(up, pat, p + 1, nam, n + 1); }
      } else {
        forall k: nat | n <= k <= |nam| ensures Glob(up, pat, p + 1, nam, k) <==> TermMeans(up, pat, e, nam, k, q, star) {
          TermGlob(up, pat, p + 1, nam, k);
        }
        StarGlob(up, pat, p, e, nam, n, q, star);
      }
    }
  }

  lemma {:induction false} StarGlob(up: Fold, pat: Text, p: nat, e: nat, nam: Text, n: nat, q: nat, star: bool)
    requires p < |pat| && pat[p] == STAR && n <= |nam|
    requires forall k: nat {:trigger Glob(up, pat, p + 1, nam, k)} | n <= k <= |nam| :: Glob(up, pat, p + 1, nam, k) <==> TermMeans(up, pat, e, nam, k, q, star)
    ensures Glob(up, pat, p, nam, n) <==> TermMeans(up, pat, e, nam, n, q, true)
  {
    if Glob(up, pat, p, nam, n) {
      var k: nat :| Reach(nam, n, k) && Glob(up, pat, p + 1, nam, k);
      assert TermMeans(up, pat, e, nam, k, q, star);
      var l: nat := k + q;
      if star { l :| k + q <= l && Reach(nam, k, l) && Glob(up, pat, e, nam, l); }
      assert Reach(nam, n, l) && Glob(up, pat, e, nam, l);
    }
    if TermMeans(up, pat, e, nam, n, q, true) {
      var l: nat :| n + q <= l && Reach(nam, n, l) && Glob(up, pat, e, nam, l);
      var k: nat := l - q;
      assert Reach(nam, n, k) && Reach(nam, k, l) && TermMeans(up, pat, e, nam, k, q, star);
      assert Glob(up, pat, p + 1, nam, k);
    }
  }

  lemma {:induction false} SkipIs(pat: Text, p: nat, q: nat, star: bool)
    requires q + Queries(pat, p) < 256
    ensures TermSkip(pat, p, q + if star then 256 else 0) == q + Queries(pat, p) + if star || Starred(pat, p) then 256 else 0
    decreases |pat| - p
  {
    if Wild(pat, p) {
      if pat[p] == QUERY { SkipIs(pat, p + 1, q + 1, star); } else { SkipIs(pat, p + 1, q, true); }
    }
  }

  lemma {:induction false} SkipsMeans(up: Fold, pat: Text, e: nat, nam: Text, n: nat, q: nat, star: bool)
    requires q < 256
    requires forall k: nat {:trigger Packed(up, pat, e, nam, k)} {:trigger Glob(up, pat, e, nam, k)} | k <= |nam| ::
               Packed(up, pat, e, nam, k) <==> Glob(up, pat, e, nam, k)
    ensures Skips(up, pat, e, nam, n, q + if star then 256 else 0) <==> TermMeans(up, pat, e, nam, n, q, star)
  {
    hide Packed, Glob;
  }

  /** No term has 256 queries. */
  predicate Plain(pat: Text, p: nat)
    decreases |pat| - p
  {
    if Ended(pat, p) then true
    else if Wild(pat, p) then Queries(pat, p) < 256 && Plain(pat, TermEnd(pat, p))
    else Plain(pat, p + 1)
  }

  /** For such patterns the matcher's reading is the meaning. */
  lemma {:induction false} PackedIsGlob(up: Fold, pat: Text, p: nat, nam: Text, n: nat)
    requires Plain(pat, p) && n <= |nam|
    ensures Packed(up, pat, p, nam, n) <==> Glob(up, pat, p, nam, n)
    decreases |pat| - p
  {
    if Ended(pat, p) {
    } else if Wild(pat, p) {
      var e := TermEnd(pat, p);
      TermGlob(up, pat, p, nam, n);
      SkipIs(pat, p, 0, false);
      forall k: nat | k <= |nam| ensures Packed(up, pat, e, nam, k) <==> Glob(up, pat, e, nam, k) { PackedIsGlob(up, pat, e, nam, k); }
      SkipsMeans(up, pat, e, nam, n, Queries(pat, p), Starred(pat, p));
    } else if !Ended(nam, n) {
      PackedIsGlob(up, pat, p + 1, nam, n + 1);
    }
  }

  // ---------------------------------------------------------------- one attempt

  /** The i-th plain characters from p and from m agree. */
  predicate Literal(up: Fold, pat: Text, p: nat, nam: Text, m: nat, i: nat) {
    !Ended(pat, p + i) && !Wild(pat, p + i) && !Ended(nam, m + i) && Folded(up, pat[p + i]) == Folded(up, nam[m + i])
  }

  /** The pattern's plain characters from p match the name's from m, l of them. */
  predicate Literals(up: Fold, pat: Text, p: nat, nam: Text, m: nat, l: nat) {
    forall i {:trigger Literal(up, pat, p, nam, m, i)} | 0 <= i < l :: Literal(up, pat, p, nam, m, i)
  }

  lemma {:induction false} LiteralsSame(up: Fold, pat: Text, p: nat, nam: Text, m: nat, l: nat)
    requires Literals(up, pat, p, nam, m, l)
    ensures Packed(up, pat, p, nam, m) <==> Packed(up, pat, p + l, nam, m + l)
    ensures Terms(pat, p) == Terms(pat, p + l)
    decreases l
  {
    if l > 0 {
      LiteralsSame(up, pat, p, nam, m, l - 1);
      assert Literal(up, pat, p, nam, m, l - 1);
    }
  }

  /** An attempt that used up the name leaves no later one a chance. */
  lemma {:induction false} LaterFails(up: Fold, pat: Text, p: nat, nam: Text, m: nat, l: nat, k: nat)
    requires Literals(up, pat, p, nam, m, l) && Ended(nam, m + l) && k > m && Reach(nam, m, k)
    ensures !Packed(up, pat, p, nam, k)
  {
    if Packed(up, pat, p, nam, k) {
      PackedLonger(up, pat, p, nam, k, l, m);
    }
  }

  /** A match from k takes as many characters as there are plain ones in front. */
  lemma {:induction false} PackedLonger(up: Fold, pat: Text, p: nat, nam: Text, k: nat, l: nat, m: nat)
    requires Packed(up, pat, p, nam, k) && Literals(up, pat, p, nam, m, l)
    ensures forall i: nat {:trigger Ended(nam, i)} | k <= i < k + l :: !Ended(nam, i)
    decreases l
  {
    if l > 0 {
      assert Literal(up, pat, p, nam, m, 0);
      forall i: nat {:trigger Literal(up, pat, p + 1, nam, m + 1, i)} | 0 <= i < l - 1 ensures Literal(up, pat, p + 1, nam, m + 1, i) { assert Literal(up, pat, p, nam, m, i + 1); }
      PackedLonger(up, pat, p + 1, nam, k + 1, l - 1, m + 1);
    }
  }

  // ---------------------------------------------------------------- the matcher

  datatype Outcome = Matched | TooMany | Missed(more: bool)

  /** Whether some attempt at a later place can still match. */
  ghost predicate Tried(up: Fold, pat: Text, p: nat, nam: Text, m: nat, recur: nat, o: Outcome) {
    match o
    case Matched => Terms(pat, p) <= recur && Packed(up, pat, p, nam, m)
    case TooMany => Terms(pat, p) > recur
    case Missed(more) =>
      && !(Terms(pat, p) <= recur && Packed(up, pat, p, nam, m))
      && (if more then m < |nam| && (!Wild(pat, p) ==> nam[m] != 0)
          else exists l: nat {:trigger Literals(up, pat, p, nam, m, l)} :: Literals(up, pat, p, nam, m, l) && Ended(nam, m + l))
  }

  /** One attempt: the plain characters at m, then the next wildcard term on its own. */
  method Attempt(up: Fold, pat: Text, p: nat, nam: Text, m: nat, recur: nat) returns (o: Outcome)
    requires p <= |pat| && m <= |nam|
    ensures Tried(up, pat, p, nam, m, recur, o)
    decreases recur, 0
  {
    hide Packed, Terms;
    var pp, nn := p, m;
    ghost var l: nat := 0;
    while !Wild(pat, pp)
      invariant pp == p + l <= |pat| && nn == m + l <= |nam| && Literals(up, pat, p, nam, m, l)
      decreases |pat| - pp
    {
      var pchr, nchr := Char(up, pat, pp), Char(up, nam, nn);
      LiteralsSame(up, pat, p, nam, m, l);
      EndOf(up, pat, pp, nam, nn);
      assert l > 0 ==> Literal(up, pat, p, nam, m, 0);
      if pchr != nchr { return Missed(nchr != 0); }
      if pchr == 0 { return Matched; }
      assert Literal(up, pat, p, nam, m, l);
      pp, nn, l := pp + 1, nn + 1, l + 1;
    }
    LiteralsSame(up, pat, p, nam, m, l);
    TermOf(up, pat, pp, nam, nn);
    if recur == 0 { return TooMany; }
    var e, sk := pp, 0;
    while Wild(pat, e)
      invariant pp <= e <= |pat| && TermSkip(pat, e, sk) == TermSkip(pat, pp, 0) && TermEnd(pat, e) == TermEnd(pat, pp)
      decreases |pat| - e
    {
      if pat[e] == QUERY { sk := sk + 1; } else { sk := WithStar(sk); }
      e := e + 1;
    }
    var r := PatternMatch(up, pat, e, nam, nn, sk, recur - 1);
    if r { return Matched; }
    assert l > 0 ==> Literal(up, pat, p, nam, m, 0);
    o := Missed(nn < |nam|);
  }

  lemma {:induction false} EndOf(up: Fold, pat: Text, p: nat, nam: Text, n: nat)
    requires !Wild(pat, p)
    ensures Char(up, pat, p) != Char(up, nam, n) ==> !Packed(up, pat, p, nam, n)
    ensures Char(up, pat, p) == Char(up, nam, n) == 0 ==> Packed(up, pat, p, nam, n) && Terms(pat, p) == 0
  {
  }

  lemma {:induction false} TermOf(up: Fold, pat: Text, p: nat, nam: Text, n: nat)
    ensures Wild(pat, p) ==> Terms(pat, p) == 1 + Terms(pat, TermEnd(pat, p))
    ensures Wild(pat, p) ==> (Packed(up, pat, p, nam, n) <==> Skips(up, pat, TermEnd(pat, p), nam, n, TermSkip(pat, p, 0)))
  {
  }

  /** An exhausted pattern matches where the name ends, which is somewhere. */
  lemma {:induction false} AllReach(up: Fold, pat: Text, nam: Text, m: nat) returns (k: nat)
    requires m <= |nam|
    ensures Reach(nam, m, k) && Packed(up, pat, |pat|, nam, k) && Terms(pat, |pat|) == 0
    decreases |nam| - m
  {
    k := m;
    if !Ended(nam, m) { k := AllReach(up, pat, nam, m + 1); }
  }

  lemma {:induction false} NoneLater(up: Fold, pat: Text, p: nat, nam: Text, m: nat, recur: nat)
    requires Tried(up, pat, p, nam, m, recur, Missed(false))
    ensures forall k: nat {:trigger Packed(up, pat, p, nam, k)} | k > m && Reach(nam, m, k) :: !Packed(up, pat, p, nam, k)
  {
    var l: nat :| Literals(up, pat, p, nam, m, l) && Ended(nam, m + l);
    forall k: nat | k > m && Reach(nam, m, k) ensures !Packed(up, pat, p, nam, k) { LaterFails(up, pat, p, nam, m, l, k); }
  }

  /** pattern_match: the pattern from p against the name from n, the packed count skip in front and
      recur wildcard terms allowed. */
  method PatternMatch(up: Fold, pat: Text, p: nat, nam: Text, n: nat, skip: nat, recur: nat) returns (r: bool)
    requires p <= |pat| && n <= |nam| && (skip > 0 ==> !Wild(pat, p))
    ensures r <==> Terms(pat, p) <= recur && Skips(up, pat, p, nam, n, skip)
    decreases recur, 1
  {
    hide Packed, Terms;
    var m: nat, left: nat := n, skip;
    while left % 256 != 0
      invariant Reach(nam, n, m) && m - n == skip - left && left / 256 == skip / 256
      decreases left
    {
      if Ended(nam, m) { return false; }
      m, left := m + 1, left - 1;
    }
    if p == |pat| && left > 0 {
      ghost var k := AllReach(up, pat, nam, m);
      return true;
    }
    ghost var first := m;
    while true
      invariant first <= m && Reach(nam, n, m) && (left == 0 ==> m == first)
      invariant Terms(pat, p) <= recur ==> forall k: nat {:trigger Packed(up, pat, p, nam, k)} | first <= k < m :: !Packed(up, pat, p, nam, k)
      decreases |nam| - m
    {
      var o := Attempt(up, pat, p, nam, m, recur);
      if o != Missed(true) || left == 0 {
        if o == Missed(false) { NoneLater(up, pat, p, nam, m, recur); }
        return o == Matched;
      }
      m := m + 1;
    }
  }

  // ---------------------------------------------------------------- when the matcher is right

  /** The characters a name must have at least. */
  function Need(pat: Text, p: nat): nat
    decreases |pat| - p
  {
    if Ended(pat, p) then 0 else Need(pat, p + 1) + if pat[p] == STAR then 0 else 1
  }

  lemma {:induction false} GlobNeeds(up: Fold, pat: Text, p: nat, nam: Text, n: nat)
    requires n <= |nam| && Glob(up, pat, p, nam, n)
    ensures n + Need(pat, p) <= |nam|
    decreases |pat| - p
  {
    if Ended(pat, p) {
    } else if pat[p] == STAR {
      var k: nat :| Reach(nam, n, k) && Glob(up, pat, p + 1, nam, k);
      GlobNeeds(up, pat, p + 1, nam, k);
    } else {
      GlobNeeds(up, pat, p + 1, nam, n + 1);
    }
  }

  lemma {:induction false} NeedTerm(pat: Text, p: nat)
    ensures Need(pat, p) == Queries(pat, p) + Need(pat, TermEnd(pat, p))
    decreases |pat| - p
  {
    if Wild(pat, p) { NeedTerm(pat, p + 1); }
  }

  lemma {:induction false} SkipMod(pat: Text, p: nat, sk: nat)
    ensures TermSkip(pat, p, sk) % 256 == (sk + Queries(pat, p)) % 256
    decreases |pat| - p
  {
    if Wild(pat, p) { SkipMod(pat, p + 1, if pat[p] == QUERY then sk + 1 else WithStar(sk)); }
  }

  /** n characters of no account. */
  function Any(n: nat): (s: Text)
    ensures |s| == n && forall i {:trigger s[i]} | 0 <= i < n :: s[i] == 1
  {
    if n == 0 then [] else [1] + Any(n - 1)
  }

  /** The shortest name the matcher takes for the pattern from p. */
  function Shortest(pat: Text, p: nat): (s: Text)
    ensures forall i {:trigger s[i]} | 0 <= i < |s| :: s[i] != 0
    decreases |pat| - p
  {
    if Ended(pat, p) then []
    else if Wild(pat, p) then Any(Queries(pat, p) % 256) + Shortest(pat, TermEnd(pat, p))
    else [pat[p]] + Shortest(pat, p + 1)
  }

  lemma {:induction false} SkipsHere(up: Fold, pat: Text, e: nat, nam: Text, n: nat, sk: nat)
    requires Reach(nam, n, n + sk % 256) && Packed(up, pat, e, nam, n + sk % 256)
    ensures Skips(up, pat, e, nam, n, sk)
  {
    hide Packed;
  }

  lemma {:induction false} ShortestMatches(up: Fold, pat: Text, p: nat, front: Text)
    ensures Packed(up, pat, p, front + Shortest(pat, p), |front|)
    decreases |pat| - p
  {
    hide Skips, Queries, TermSkip;
    var nam, n := front + Shortest(pat, p), |front|;
    if Ended(pat, p) {
    } else if Wild(pat, p) {
      var e, q := TermEnd(pat, p), Queries(pat, p) % 256;
      ShortestMatches(up, pat, e, front + Any(q));
      assert front + Any(q) + Shortest(pat, e) == nam;
      SkipMod(pat, p, 0);
      SkipsHere(up, pat, e, nam, n, TermSkip(pat, p, 0));
    } else {
      ShortestMatches(up, pat, p + 1, front + [pat[p]]);
      assert front + [pat[p]] + Shortest(pat, p + 1) == nam;
    }
  }

  lemma {:induction false} ShortestLength(pat: Text, p: nat)
    ensures |Shortest(pat, p)| <= Need(pat, p) && (|Shortest(pat, p)| == Need(pat, p) <==> Plain(pat, p))
    decreases |pat| - p
  {
    if Ended(pat, p) {
    } else if Wild(pat, p) {
      NeedTerm(pat, p);
      ShortestLength(pat, TermEnd(pat, p));
    } else {
      ShortestLength(pat, p + 1);
    }
  }

  /** The matcher reads a pattern right on every name exactly when no term has 256 queries: with more,
      the count runs into the star's bit and shorter names match. */
  lemma {:induction false} RightExactlyWhenPlain(up: Fold, pat: Text)
    ensures Plain(pat, 0) <==> forall nam: Text {:trigger Packed(up, pat, 0, nam, 0)} :: Packed(up, pat, 0, nam, 0) <==> Glob(up, pat, 0, nam, 0)
  {
    hide Packed, Glob;
    if Plain(pat, 0) {
      forall nam: Text | true ensures Packed(up, pat, 0, nam, 0) <==> Glob(up, pat, 0, nam, 0) { PackedIsGlob(up, pat, 0, nam, 0); }
    } else {
      var nam := Shortest(pat, 0);
      var front: Text := [];
      ShortestMatches(up, pat, 0, front);
      assert front + nam == nam && Packed(up, pat, 0, nam, 0);
      ShortestLength(pat, 0);
      if Glob(up, pat, 0, nam, 0) { GlobNeeds(up, pat, 0, nam, 0); }
    }
  }

  /** The matcher as the directory search calls it: right on every pattern of at most four wildcard
      terms with fewer than 256 queries each, and a mismatch for every pattern with more terms. */
  method Matches(up: Fold, pat: Text, nam: Text) returns (r: bool)
    ensures r <==> Terms(pat, 0) <= FIND_RECURS && Packed(up, pat, 0, nam, 0)
    ensures Plain(pat, 0) ==> (r <==> Terms(pat, 0) <= FIND_RECURS && Glob(up, pat, 0, nam, 0))
  {
    hide Packed, Glob, Terms;
    RightExactlyWhenPlain(up, pat);
    r := PatternMatch(up, pat, 0, nam, 0, 0, FIND_RECURS);
  }
}
