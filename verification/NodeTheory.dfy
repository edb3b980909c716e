/** Paths of the mount tree and the tree's links as values: a left-child, right-sibling structure
    that stands for a set of paths. */
module NodeTheory {
  import opened Options

  type Name = s: string | |s| > 0 && '/' !in s witness "a"

  type Path = seq<Name>

  // ---------------------------------------------------------------- paths

  /** The string without its leading slashes. */
  function SkipSlashes(s: string): (t: string)
    ensures |t| <= |s| && (|t| > 0 ==> t[0] != '/') && (|s| > 0 && s[0] == '/' ==> |t| < |s|)
  {
    if |s| > 0 && s[0] == '/' then SkipSlashes(s[1..]) else s
  }

  /** Length of the part in front of the first slash. */
  function Upto(s: string): (n: nat)
    ensures n <= |s| && '/' !in s[..n] && (n < |s| ==> s[n] == '/')
    ensures |s| > 0 && s[0] != '/' ==> n > 0
  {
    if |s| == 0 || s[0] == '/' then 0
    else
      var n := Upto(s[1..]);
      assert s[..n + 1] == [s[0]] + s[1..][..n];
      n + 1
  }

  /** The names of a path; a path that does not start with a slash has none. */
  function Tokens(s: string): Path
    decreases |s|
  {
    if |s| == 0 || s[0] != '/' then []
    else
      var t := SkipSlashes(s);
      if |t| == 0 then [] else [t[..Upto(t)]] + Tokens(t[Upto(t)..])
  }

  /** The path string of a list of names, each behind a run of slashes. */
  function Joined(ts: Path, slashes: seq<nat>, trailing: nat): string
    requires |slashes| == |ts|
  {
    if |ts| == 0 then Slashes(trailing) else Slashes(slashes[0] + 1) + ts[0] + Joined(ts[1..], slashes[1..], trailing)
  }

  function Slashes(n: nat): string { if n == 0 then "" else "/" + Slashes(n - 1) }

  lemma {:induction false} SkipRun(n: nat, s: string)
    requires |s| == 0 || s[0] != '/'
    ensures SkipSlashes(Slashes(n) + s) == s
  {
    if n == 0 {
      assert Slashes(0) + s == s;
    } else {
      SkipRun(n - 1, s);
      assert (Slashes(n) + s)[1..] == Slashes(n - 1) + s;
    }
  }

  lemma {:induction false} UptoPlain(t: string, s: string)
    requires '/' !in t && (|s| == 0 || s[0] == '/')
    ensures Upto(t + s) == |t|
  {
    if |t| == 0 {
      assert t + s == s;
    } else {
      assert t[0] in t;
      UptoPlain(t[1..], s);
      assert (t + s)[1..] == t[1..] + s;
    }
  }

  /** Repeated and trailing slashes do not matter: a path means its list of names. */
  lemma {:induction false} TokensOfJoined(ts: Path, slashes: seq<nat>, trailing: nat)
    requires |slashes| == |ts|
    ensures Tokens(Joined(ts, slashes, trailing)) == ts
  {
    if |ts| == 0 {
      SkipRun(trailing, "");
      assert Slashes(trailing) + "" == Slashes(trailing);
    } else {
      var tail: Path := ts[1..];
      var rest: string := Joined(tail, slashes[1..], trailing);
      TokensOfJoined(tail, slashes[1..], trailing);
      var s := Joined(ts, slashes, trailing);
      assert s == Slashes(slashes[0] + 1) + (ts[0] + rest);
      assert ts[0][0] in ts[0];
      SkipRun(slashes[0] + 1, ts[0] + rest);
      JoinedStarts(ts[1..], slashes[1..], trailing);
      UptoPlain(ts[0], rest);
      assert (ts[0] + rest)[..|ts[0]|] == ts[0] && (ts[0] + rest)[|ts[0]|..] == rest;
    }
  }

  lemma {:induction false} JoinedStarts(ts: Path, slashes: seq<nat>, trailing: nat)
    requires |slashes| == |ts|
    ensures var s := Joined(ts, slashes, trailing); |s| == 0 || s[0] == '/'
  {
    if |ts| > 0 { assert Slashes(slashes[0] + 1) == "/" + Slashes(slashes[0]); }
  }

  // ---------------------------------------------------------------- the table the tree stands for

  /** The operations of a mounted file system. */
  datatype Ops = Ops(dev: int)

  /** Operations by path; a node nobody mounted on has none. */
  type Table = map<Path, Option<Ops>>

  datatype Mounting = Mounting(ts: Path, op: Ops)

  /** The first k + 1 prefixes of ts, the empty one first. */
  function Prefixes(ts: Path, k: nat): set<Path>
    requires k <= |ts|
  {
    if k == 0 then {[]} else Prefixes(ts, k - 1) + {ts[..k]}
  }

  lemma {:induction false} InPrefixes(ts: Path, k: nat, p: Path)
    requires k <= |ts|
    ensures p in Prefixes(ts, k) <==> |p| <= k && p <= ts
  {
    if k > 0 {
      InPrefixes(ts, k - 1, p);
      assert |p| == k && p <= ts ==> p == ts[..k];
    }
  }

  const EMPTY: Table := map[[] := None]

  /** A mount: refused when the path exists, even as the prefix of another one. */
  function Mount(m: Table, c: Mounting): Table {
    if c.ts in m then m
    else map p: Path | p in m.Keys + Prefixes(c.ts, |c.ts|) :: if p in m then m[p] else if p == c.ts then Some(c.op) else None
  }

  function MountAll(m: Table, cs: seq<Mounting>): Table
    decreases |cs|
  {
    if |cs| == 0 then m else MountAll(Mount(m, cs[0]), cs[1..])
  }

  /** The first mount whose path reaches p. */
  function FirstOn(cs: seq<Mounting>, p: Path): (i: nat)
    ensures i <= |cs| && (i < |cs| ==> p <= cs[i].ts) && forall j {:trigger cs[j]} | 0 <= j < i :: !(p <= cs[j].ts)
  {
    if |cs| == 0 || p <= cs[0].ts then 0 else FirstOn(cs[1..], p) + 1
  }

  /** The prefixes of every path in the table are in it. */
  ghost predicate Closed(m: Table) {
    [] in m && forall p: Path, q: Path {:trigger p in m, q in m} | p in m && q <= p :: q in m
  }

  lemma {:induction false} MountOne(m: Table, c: Mounting, p: Path)
    requires Closed(m)
    ensures Closed(Mount(m, c))
    ensures p in Mount(m, c) <==> p in m || p <= c.ts
    ensures p in m ==> Mount(m, c)[p] == m[p]
    ensures p !in m && p <= c.ts ==> Mount(m, c)[p] == if p == c.ts then Some(c.op) else None
  {
    if c.ts !in m {
      forall a: Path | true ensures a in Mount(m, c) <==> a in m || a <= c.ts { InPrefixes(c.ts, |c.ts|, a); }
      forall a: Path, b: Path | a in Mount(m, c) && b <= a ensures b in Mount(m, c) {
        if a !in m { assert b <= c.ts; }
      }
    }
  }

  lemma {:induction false} MountAllIs(m: Table, cs: seq<Mounting>, p: Path)
    requires Closed(m)
    ensures p in MountAll(m, cs) <==> p in m || FirstOn(cs, p) < |cs|
    ensures p in m ==> MountAll(m, cs)[p] == m[p]
    ensures p !in m && FirstOn(cs, p) < |cs| ==>
              MountAll(m, cs)[p] == (var c := cs[FirstOn(cs, p)]; if p == c.ts then Some(c.op) else None)
    decreases |cs|
  {
    if |cs| > 0 {
      MountOne(m, cs[0], p);
      MountAllIs(Mount(m, cs[0]), cs[1..], p);
    }
  }

  /** What any run of mounts comes to: a path exists exactly when some mount reached it, and it has the
      operations of the first mount that did, provided that mount was on this very path. */
  lemma {:induction false} RunOfMounts(cs: seq<Mounting>, p: Path)
    requires p != []
    ensures p in MountAll(EMPTY, cs) <==> exists i {:trigger cs[i]} :: 0 <= i < |cs| && p <= cs[i].ts
    ensures p in MountAll(EMPTY, cs) ==>
              exists i {:trigger cs[i]} :: 0 <= i < |cs| && p <= cs[i].ts
                && MountAll(EMPTY, cs)[p] == (if p == cs[i].ts then Some(cs[i].op) else None)
                && forall j {:trigger cs[j]} | 0 <= j < i :: !(p <= cs[j].ts)
  {
    MountAllIs(EMPTY, cs, p);
  }
}
