/** The mount tree of the virtual file system. */
module NodeTree {
  import opened NodeTheory
  import opened Options

  datatype Errno = Fine | EINVAL | EEXIST | ENOENT | ENOMEM

  /** Room for a name, with its terminator. */
  const MAX_NAME := 64

  /** Every name fits a node. */
  predicate Fits(ts: Path) { forall i {:trigger ts[i]} | 0 <= i < |ts| :: |ts[i]| < MAX_NAME }

  class Node {
    const name: string
    var op: Option<Ops>
    var parent: Node?
    var sibling: Node?
    var child: Node?

    constructor (name: string)
      ensures this.name == name && op == None && parent == null && sibling == null && child == null
    {
      this.name, op, parent, sibling, child := name, None, null, null, null;
    }
  }

  /** A node's fields as a value. */
  datatype Cell = Cell(name: string, op: Option<Ops>, parent: Node?, sibling: Node?, child: Node?)

  /** Which node stands for which path, what the nodes hold, and the children of each in list order. */
  datatype Shape = Shape(at: map<Path, Node>, cells: map<Path, Cell>, kids: map<Path, seq<Name>>)

  /** The link that leads to the i-th child of p. */
  function Link(s: Shape, p: Path, i: nat): Node?
    requires p in s.at && p in s.cells && p in s.kids && i <= |s.kids[p]|
    requires i > 0 ==> p + [s.kids[p][i - 1]] in s.cells
  {
    if i == 0 then s.cells[p].child else s.cells[p + [s.kids[p][i - 1]]].sibling
  }

  /** The links at and below p are those of its list of children. */
  predicate LinksRight(s: Shape, p: Path)
    requires p in s.at && p in s.cells && p in s.kids
  {
    && (forall i {:trigger s.kids[p][i]} | 0 <= i < |s.kids[p]| :: p + [s.kids[p][i]] in s.at && p + [s.kids[p][i]] in s.cells)
    && (forall i {:trigger Link(s, p, i)} | 0 <= i <= |s.kids[p]| ::
          Link(s, p, i) == if i < |s.kids[p]| then s.at[p + [s.kids[p][i]]] else null)
  }

  predicate Distinct(k: seq<Name>) { forall i, j {:trigger k[i], k[j]} | 0 <= i < j < |k| :: k[i] != k[j] }

  /** The node of p has distinct children, linked in order. */
  predicate Tidy(s: Shape, p: Path) {
    p in s.at && p in s.cells && p in s.kids && Distinct(s.kids[p]) && LinksRight(s, p)
  }

  /** The node of p has its last name and its parent's node, which lists it. */
  predicate InPlace(s: Shape, p: Path)
    requires |p| > 0
  {
    var q, c := p[..|p| - 1], p[|p| - 1];
    q in s.at && q in s.kids && c in s.kids[q] && p in s.cells && s.cells[p].parent == s.at[q] && s.cells[p].name == c
  }

  /** No node has two paths. */
  predicate OnePath(s: Shape) {
    forall p, q {:trigger s.at[p], s.at[q]} | p in s.at && q in s.at && s.at[p] == s.at[q] :: p == q
  }

  /** The linked nodes form a finite tree whose paths are closed under prefixes: every node but the
      root has its parent and its own name, names of siblings differ, no node has two paths. */
  ghost predicate Sound(s: Shape) {
    && s.cells.Keys == s.at.Keys == s.kids.Keys && [] in s.at && OnePath(s)
    && (forall p {:trigger Tidy(s, p)} | p in s.at :: Tidy(s, p))
    && (forall p {:trigger InPlace(s, p)} | p in s.at && |p| > 0 :: InPlace(s, p))
  }

  /** The part of the path that exists. */
  function Depth(s: Shape, ts: Path, k: nat): (d: nat)
    requires k <= |ts| && ts[..k] in s.at
    ensures k <= d <= |ts| && ts[..d] in s.at
    decreases |ts| - k
  {
    if k < |ts| && ts[..k + 1] in s.at then Depth(s, ts, k + 1) else k
  }

  lemma {:induction false} PrefixClosed(s: Shape, ts: Path, d: nat)
    requires Sound(s) && ts in s.at && d <= |ts|
    ensures ts[..d] in s.at
    decreases |ts| - d
  {
    if d < |ts| {
      PrefixClosed(s, ts, d + 1);
      assert InPlace(s, ts[..d + 1]) && ts[..d + 1][..d] == ts[..d];
    } else {
      assert ts[..d] == ts;
    }
  }

  /** Depth is where the tree ends along the path: nothing longer exists. */
  lemma {:induction false} DepthIsDeepest(s: Shape, ts: Path, e: nat)
    requires Sound(s) && e <= |ts| && ts[..0] in s.at
    ensures ts[..e] in s.at <==> e <= Depth(s, ts, 0)
  {
    DepthStops(s, ts, 0);
    var d := Depth(s, ts, 0);
    if d < e { PrefixIn(s, ts, e, d + 1); } else { PrefixIn(s, ts, d, e); }
  }

  lemma {:induction false} PrefixIn(s: Shape, ts: Path, e: nat, d: nat)
    requires Sound(s) && d <= e <= |ts|
    ensures ts[..e] in s.at ==> ts[..d] in s.at
  {
    hide Sound;
    if ts[..e] in s.at {
      PrefixClosed(s, ts[..e], d);
      assert ts[..e][..d] == ts[..d];
    }
  }

  lemma {:induction false} DepthStops(s: Shape, ts: Path, k: nat)
    requires k <= |ts| && ts[..k] in s.at
    ensures var d := Depth(s, ts, k); d < |ts| ==> ts[..d + 1] !in s.at
    decreases |ts| - k
  {
    if k < |ts| && ts[..k + 1] in s.at { DepthStops(s, ts, k + 1); }
  }

  /** Children of a node are exactly the paths one name longer. */
  lemma {:induction false} KidsAre(s: Shape, p: Path, c: Name)
    requires Sound(s) && p in s.at
    ensures p + [c] in s.at <==> c in s.kids[p]
  {
    assert Tidy(s, p);
    if c in s.kids[p] {
      var i :| 0 <= i < |s.kids[p]| && s.kids[p][i] == c;
    }
    if p + [c] in s.at {
      assert InPlace(s, p + [c]) && (p + [c])[..|p|] == p && (p + [c])[|p|] == c;
    }
  }

  /** The shape after node n has been appended to the children of p under a name. */
  function Added(s: Shape, p: Path, name: Name, n: Node): Shape
    requires p in s.cells && p in s.kids && p in s.at && (|s.kids[p]| > 0 ==> p + [s.kids[p][|s.kids[p]| - 1]] in s.cells)
  {
    var k := s.kids[p];
    var cells := if |k| == 0 then s.cells[p := s.cells[p].(child := n)]
                 else s.cells[p + [k[|k| - 1]] := s.cells[p + [k[|k| - 1]]].(sibling := n)];
    Shape(s.at[p + [name] := n], cells[p + [name] := Cell(name, None, s.at[p], null, null)], s.kids[p := k + [name]][p + [name] := []])
  }

  ghost predicate Addable(s: Shape, p: Path, name: Name, n: Node) {
    Sound(s) && p in s.at && p + [name] !in s.at && forall q {:trigger s.at[q]} | q in s.at :: s.at[q] != n
  }

  /** The same, with what the addition reads spelled out. */
  ghost predicate Ready(s: Shape, p: Path, name: Name, n: Node) {
    && Addable(s, p, name, n) && p in s.kids && p in s.cells
    && (|s.kids[p]| > 0 ==> p + [s.kids[p][|s.kids[p]| - 1]] in s.at && p + [s.kids[p][|s.kids[p]| - 1]] in s.cells)
  }

  lemma {:induction false} LastKid(s: Shape, p: Path)
    requires Sound(s) && p in s.at
    ensures p in s.kids && p in s.cells
    ensures |s.kids[p]| > 0 ==> p + [s.kids[p][|s.kids[p]| - 1]] in s.at && p + [s.kids[p][|s.kids[p]| - 1]] in s.cells
  {
    assert Tidy(s, p);
  }

  /** Appending a child keeps the tree sound. */
  lemma {:induction false} AddedSound(s: Shape, p: Path, name: Name, n: Node)
    requires Addable(s, p, name, n)
    ensures Ready(s, p, name, n) && Sound(Added(s, p, name, n))
  {
    LastKid(s, p);
    var t := Added(s, p, name, n);
    KidsAre(s, p, name);
    hide Added, Tidy, InPlace, OnePath;
    AddedKeys(s, p, name, n);
    forall q | q in t.at ensures Tidy(t, q) {
      if q == p + [name] { AddedLeaf(s, p, name, n); }
      else if q == p { AddedParent(s, p, name, n); }
      else { AddedElsewhere(s, p, name, n, q); }
    }
    forall q | q in t.at && |q| > 0 ensures InPlace(t, q) { AddedPlace(s, p, name, n, q); }
  }

  lemma {:induction false} AddedKeys(s: Shape, p: Path, name: Name, n: Node)
    requires Ready(s, p, name, n)
    ensures var t := Added(s, p, name, n);
            t.cells.Keys == t.at.Keys == t.kids.Keys == s.at.Keys + {p + [name]} && [] in t.at && OnePath(t)
  {
    hide Tidy, InPlace;
  }

  lemma {:induction false} AddedPlace(s: Shape, p: Path, name: Name, n: Node, q: Path)
    requires Ready(s, p, name, n)
    requires |q| > 0 && (q in s.at || q == p + [name])
    ensures InPlace(Added(s, p, name, n), q)
  {
    hide Tidy, OnePath;
    if q == p + [name] {
      assert q[..|q| - 1] == p;
    } else {
      assert InPlace(s, q);
      assert q[..|q| - 1] != p + [name];
    }
  }

  lemma {:induction false} AddedLeaf(s: Shape, p: Path, name: Name, n: Node)
    requires Ready(s, p, name, n)
    ensures Tidy(Added(s, p, name, n), p + [name])
  {
    hide Sound;
  }

  /** The cell of x after the addition. */
  lemma {:induction false} AddedCell(s: Shape, p: Path, name: Name, n: Node, x: Path)
    requires Ready(s, p, name, n)
    requires x in s.at
    ensures var t, k := Added(s, p, name, n), s.kids[p];
            && x in t.cells && x in t.at && x in s.cells && t.at[x] == s.at[x]
            && t.cells[x].child == (if x == p && |k| == 0 then n else s.cells[x].child)
            && t.cells[x].sibling == (if |k| > 0 && x == p + [k[|k| - 1]] then n else s.cells[x].sibling)
            && t.cells[x].op == s.cells[x].op && t.cells[x].name == s.cells[x].name
  {
    hide Tidy, InPlace, OnePath;
  }

  lemma {:induction false} AddedParent(s: Shape, p: Path, name: Name, n: Node)
    requires Ready(s, p, name, n)
    requires name !in s.kids[p]
    ensures Tidy(Added(s, p, name, n), p)
  {
    hide Added, Sound, LinksRight, Distinct, Kept, Link;
    var t, k := Added(s, p, name, n), s.kids[p];
    TidyOf(s, p);
    AddedKeys(s, p, name, n);
    AddedNew(s, p, name, n);
    forall x | x in s.at ensures Kept(s, t, p, n, x) { AddedKept(s, p, name, n, x); }
    ParentLinks(s, t, p, n);
    DistinctMore(k, name);
  }

  lemma {:induction false} TidyOf(s: Shape, p: Path)
    requires Sound(s) && p in s.at
    ensures Tidy(s, p) && Distinct(s.kids[p])
  {
  }

  lemma {:induction false} DistinctMore(k: seq<Name>, name: Name)
    requires Distinct(k) && name !in k
    ensures Distinct(k + [name])
  {
  }

  lemma {:induction false} AddedNew(s: Shape, p: Path, name: Name, n: Node)
    requires Ready(s, p, name, n)
    ensures var t, r := Added(s, p, name, n), p + [name];
            && t.kids[p] == s.kids[p] + [name] && r in t.at && r in t.cells && t.at[r] == n && t.cells[r].sibling == null
            && p in t.at && p in t.cells
  {
    hide Tidy, InPlace, OnePath;
  }

  lemma {:induction false} AddedKept(s: Shape, p: Path, name: Name, n: Node, x: Path)
    requires Ready(s, p, name, n)
    requires x in s.at
    ensures Kept(s, Added(s, p, name, n), p, n, x)
  {
    hide Added, Sound;
    AddedCell(s, p, name, n, x);
  }

  lemma {:induction false} ParentLinks(s: Shape, t: Shape, p: Path, n: Node)
    requires Tidy(s, p) && p in t.at && p in t.cells && p in t.kids && |t.kids[p]| == |s.kids[p]| + 1 && t.kids[p][..|s.kids[p]|] == s.kids[p]
    requires forall x {:trigger Kept(s, t, p, n, x)} | x in s.at :: Kept(s, t, p, n, x)
    requires var r := p + [t.kids[p][|s.kids[p]|]]; r in t.at && r in t.cells && t.at[r] == n && t.cells[r].sibling == null
    ensures LinksRight(t, p)
  {
    hide Kept, Tidy;
    forall i | 0 <= i < |t.kids[p]| ensures p + [t.kids[p][i]] in t.at && p + [t.kids[p][i]] in t.cells {
      AddedLink(s, t, p, n, i);
      AddedLink(s, t, p, n, i + 1);
    }
    forall i {:trigger Link(t, p, i)} | 0 <= i <= |t.kids[p]|
      ensures Link(t, p, i) == if i < |t.kids[p]| then t.at[p + [t.kids[p][i]]] else null
    {
      AddedLink(s, t, p, n, i);
    }
  }

  /** What AddedCell says of x. */
  predicate Kept(s: Shape, t: Shape, p: Path, n: Node, x: Path)
    requires p in s.kids
  {
    var k := s.kids[p];
    && x in t.cells && x in t.at && x in s.cells && x in s.at && t.at[x] == s.at[x]
    && t.cells[x].child == (if x == p && |k| == 0 then n else s.cells[x].child)
    && t.cells[x].sibling == (if |k| > 0 && x == p + [k[|k| - 1]] then n else s.cells[x].sibling)
  }

  lemma {:induction false} AddedLink(s: Shape, t: Shape, p: Path, n: Node, i: nat)
    requires Tidy(s, p) && p in t.at && p in t.cells && p in t.kids && |t.kids[p]| == |s.kids[p]| + 1 && t.kids[p][..|s.kids[p]|] == s.kids[p]
    requires forall x {:trigger Kept(s, t, p, n, x)} | x in s.at :: Kept(s, t, p, n, x)
    requires i <= |t.kids[p]|
    requires var r := p + [t.kids[p][|s.kids[p]|]]; r in t.at && r in t.cells && t.at[r] == n && t.cells[r].sibling == null
    ensures i > 0 ==> p + [t.kids[p][i - 1]] in t.cells
    ensures i < |t.kids[p]| ==> p + [t.kids[p][i]] in t.at
    ensures Link(t, p, i) == if i < |t.kids[p]| then t.at[p + [t.kids[p][i]]] else null
  {
    var k, l := s.kids[p], t.kids[p];
    assert Kept(s, t, p, n, p);
    assert forall j | 0 <= j < |k| :: l[j] == k[j];
    if i <= |k| { assert Link(s, p, i) == if i < |k| then s.at[p + [k[i]]] else null; }
    if 0 < i <= |k| {
      var x := p + [k[i - 1]];
      assert k[i - 1] == l[i - 1] && Kept(s, t, p, n, x);
      assert x[|p|] == k[i - 1];
      if i < |k| { assert (p + [k[|k| - 1]])[|p|] == k[|k| - 1] && k[i - 1] != k[|k| - 1]; }
    }
    if i < |k| { assert Kept(s, t, p, n, p + [k[i]]); }
  }

  lemma {:induction false} AddedElsewhere(s: Shape, p: Path, name: Name, n: Node, q: Path)
    requires Ready(s, p, name, n)
    requires q in s.at && q != p
    ensures Tidy(Added(s, p, name, n), q)
  {
    hide Added, Sound, LinksRight, Distinct, Kept, Link;
    var t := Added(s, p, name, n);
    TidyOf(s, q);
    AddedKeys(s, p, name, n);
    AddedOther(s, p, name, n, q);
    forall x | x in s.at ensures Kept(s, t, p, n, x) { AddedKept(s, p, name, n, x); }
    OtherLinks(s, t, p, n, q);
  }

  lemma {:induction false} AddedOther(s: Shape, p: Path, name: Name, n: Node, q: Path)
    requires Ready(s, p, name, n)
    requires q in s.at && q != p
    ensures var t := Added(s, p, name, n); q in t.kids && q in t.at && q in t.cells && q in s.kids && t.kids[q] == s.kids[q]
  {
    hide Tidy, InPlace, OnePath;
  }

  lemma {:induction false} OtherLinks(s: Shape, t: Shape, p: Path, n: Node, q: Path)
    requires Tidy(s, q) && q != p && p in s.kids && q in t.at && q in t.cells && q in t.kids && t.kids[q] == s.kids[q]
    requires forall x {:trigger Kept(s, t, p, n, x)} | x in s.at :: Kept(s, t, p, n, x)
    ensures LinksRight(t, q)
  {
    hide Kept, Distinct, Link;
    var k := s.kids[q];
    forall i | 0 <= i < |k| ensures q + [k[i]] in t.at && q + [k[i]] in t.cells {
      OtherLink(s, t, p, n, q, i);
      OtherLink(s, t, p, n, q, i + 1);
    }
    forall i {:trigger Link(t, q, i)} | 0 <= i <= |k| ensures Link(t, q, i) == if i < |k| then t.at[q + [k[i]]] else null {
      OtherLink(s, t, p, n, q, i);
    }
  }

  lemma {:induction false} OtherLink(s: Shape, t: Shape, p: Path, n: Node, q: Path, i: nat)
    requires Tidy(s, q) && q != p && p in s.kids && q in t.at && q in t.cells && q in t.kids && t.kids[q] == s.kids[q] && i <= |s.kids[q]|
    requires forall x {:trigger Kept(s, t, p, n, x)} | x in s.at :: Kept(s, t, p, n, x)
    ensures i > 0 ==> q + [s.kids[q][i - 1]] in t.cells
    ensures i < |s.kids[q]| ==> q + [s.kids[q][i]] in t.at
    ensures Link(t, q, i) == if i < |s.kids[q]| then t.at[q + [s.kids[q][i]]] else null
  {
    var k := s.kids[q];
    assert Kept(s, t, p, n, q);
    assert Link(s, q, i) == if i < |k| then s.at[q + [k[i]]] else null;
    if i > 0 {
      var x := q + [k[i - 1]];
      assert Kept(s, t, p, n, x) && x[..|q|] == q && |x| == |q| + 1;
      if |s.kids[p]| > 0 { var y := p + [s.kids[p][|s.kids[p]| - 1]]; assert y[..|p|] == p && |y| == |p| + 1; }
    }
    if i < |k| { assert Kept(s, t, p, n, q + [k[i]]); }
  }

  // ---------------------------------------------------------------- what finding and mounting come to

  /** What a lookup of the names ts returns. */
  function Found(s: Shape, ts: Path, nearest: bool): Node?
    requires ts[..0] in s.at
  {
    var d := Depth(s, ts, 0);
    if d == |ts| then s.at[ts[..d]] else if nearest && d > 0 then s.at[ts[..d]] else null
  }

  /** A full-path lookup finds exactly the nodes of the tree; a nearest-path lookup the longest prefix
      that exists, but never the root for a path with names. */
  lemma {:induction false} FoundIs(s: Shape, ts: Path)
    requires Sound(s)
    ensures ts[..0] in s.at && Found(s, ts, false) == (if ts in s.at then s.at[ts] else null)
    ensures ts in s.at ==> Found(s, ts, true) == s.at[ts]
    ensures ts !in s.at ==> var d := Depth(s, ts, 0);
              && d < |ts| && Found(s, ts, true) == (if d == 0 then null else s.at[ts[..d]])
              && forall e {:trigger ts[..e]} | d < e <= |ts| :: ts[..e] !in s.at
  {
    assert ts[..0] == [] && ts[..|ts|] == ts;
    hide Sound, Depth;
    DepthIsDeepest(s, ts, |ts|);
    forall e | 0 <= e <= |ts| ensures ts[..e] in s.at <==> e <= Depth(s, ts, 0) { DepthIsDeepest(s, ts, e); }
  }

  predicate Stays(s: Shape, t: Shape, p: Path) {
    && p in t.at && p in t.cells
    && (if p in s.at then p in s.cells && t.at[p] == s.at[p] && t.cells[p].op == s.cells[p].op else t.cells[p].op == None)
  }

  /** t has s's nodes, operations included, and new ones without operations on the way along ts. */
  predicate Grows(s: Shape, t: Shape, ts: Path, k: nat)
    requires k <= |ts|
  {
    && t.at.Keys == s.at.Keys + Prefixes(ts, k)
    && (forall p {:trigger Stays(s, t, p)} | p in t.at :: Stays(s, t, p))
  }

  lemma {:induction false} GrowsStart(s: Shape, ts: Path)
    requires Sound(s)
    ensures Grows(s, s, ts, 0)
  {
    hide Tidy, InPlace, OnePath;
    assert s.at.Keys == s.at.Keys + Prefixes(ts, 0);
    assert forall p | p in s.at :: Stays(s, s, p);
  }

  lemma {:induction false} GrowsOver(s: Shape, t: Shape, ts: Path, k: nat)
    requires k < |ts| && Grows(s, t, ts, k) && ts[..k + 1] in t.at
    ensures Grows(s, t, ts, k + 1)
  {
    assert t.at.Keys == t.at.Keys + {ts[..k + 1]};
    assert s.at.Keys + Prefixes(ts, k + 1) == s.at.Keys + Prefixes(ts, k) + {ts[..k + 1]};
  }

  lemma {:induction false} GrowsAdded(s: Shape, t: Shape, ts: Path, k: nat, n: Node)
    requires k < |ts| && Grows(s, t, ts, k) && ts[..k] in t.at && Ready(t, ts[..k], ts[k], n)
    ensures Grows(s, Added(t, ts[..k], ts[k], n), ts, k + 1)
  {
    hide Sound;
    var u := Added(t, ts[..k], ts[k], n);
    assert ts[..k] + [ts[k]] == ts[..k + 1];
    assert u.at.Keys == t.at.Keys + {ts[..k + 1]};
    assert s.at.Keys + Prefixes(ts, k + 1) == s.at.Keys + Prefixes(ts, k) + {ts[..k + 1]};
    forall p | p in u.at ensures Stays(s, u, p) { assert p != ts[..k + 1] ==> Stays(s, t, p); }
  }

  /** The table of operations the tree stands for. */
  function TableOf(s: Shape): Table {
    map p {:trigger s.cells[p]} | p in s.cells :: s.cells[p].op
  }

  /** t is s with one node's operations set. */
  function WithOp(s: Shape, p: Path, op: Ops): Shape
    requires p in s.cells
  {
    s.(cells := s.cells[p := s.cells[p].(op := Some(op))])
  }

  /** Setting operations leaves the tree sound. */
  lemma {:induction false} WithOpSound(s: Shape, p: Path, op: Ops)
    requires Sound(s) && p in s.cells
    ensures Sound(WithOp(s, p, op))
  {
    hide Tidy, InPlace, WithOp, LinksRight, Distinct, Link;
    var t := WithOp(s, p, op);
    WithOpKeeps(s, p, op);
    forall q | q in t.at ensures Tidy(t, q) { assert Tidy(s, q); WithOpTidy(s, p, op, q); }
    forall q | q in t.at && |q| > 0 ensures InPlace(t, q) { assert InPlace(s, q); WithOpPlace(s, p, op, q); }
  }

  lemma {:induction false} WithOpKeeps(s: Shape, p: Path, op: Ops)
    requires p in s.cells
    ensures var t := WithOp(s, p, op); t.cells.Keys == s.cells.Keys && t.at == s.at && t.kids == s.kids
    ensures OnePath(s) ==> OnePath(WithOp(s, p, op))
  {
    assert WithOp(s, p, op).cells.Keys == s.cells.Keys;
  }

  lemma {:induction false} WithOpTidy(s: Shape, p: Path, op: Ops, q: Path)
    requires p in s.cells && Tidy(s, q)
    ensures Tidy(WithOp(s, p, op), q)
  {
    hide Distinct;
    var t := WithOp(s, p, op);
    forall i | 0 <= i < |t.kids[q]| ensures q + [t.kids[q][i]] in t.at && q + [t.kids[q][i]] in t.cells {
      assert q + [s.kids[q][i]] in s.at;
    }
    forall i {:trigger Link(t, q, i)} | 0 <= i <= |t.kids[q]| ensures Link(t, q, i) == if i < |t.kids[q]| then t.at[q + [t.kids[q][i]]] else null {
      assert Link(s, q, i) == if i < |s.kids[q]| then s.at[q + [s.kids[q][i]]] else null;
    }
  }

  lemma {:induction false} WithOpPlace(s: Shape, p: Path, op: Ops, q: Path)
    requires p in s.cells && |q| > 0 && InPlace(s, q)
    ensures InPlace(WithOp(s, p, op), q)
  {
  }

  /** The nodes made on the way, and the operations of the last: the table after the mount. */
  lemma {:induction false} MountedTable(s: Shape, t: Shape, c: Mounting)
    requires Sound(s) && Sound(t) && c.ts !in s.at && c.ts in t.cells && Grows(s, t, c.ts, |c.ts|)
    ensures TableOf(WithOp(t, c.ts, c.op)) == Mount(TableOf(s), c)
  {
    hide Tidy, InPlace, OnePath;
    var u, m := TableOf(WithOp(t, c.ts, c.op)), Mount(TableOf(s), c);
    assert u.Keys == t.at.Keys == m.Keys;
    forall p | p in u ensures u[p] == m[p] { assert Stays(s, t, p); }
  }

  lemma {:induction false} TableClosed(s: Shape)
    requires Sound(s)
    ensures Closed(TableOf(s)) && TableOf(s).Keys == s.at.Keys
  {
    hide Tidy, InPlace, OnePath;
    forall p: Path, q: Path | p in s.at && q <= p ensures q in s.at {
      PrefixClosed(s, p, |q|);
      assert p[..|q|] == q;
    }
  }

  // ---------------------------------------------------------------- the tree

  class Tree {
    const root: Node
    ghost var at: map<Path, Node>
    ghost var kids: map<Path, seq<Name>>

    constructor ()
      ensures Valid() && at.Keys == {[]} && fresh(root) && S().cells[[]].op == None
    {
      var n := new Node("");
      root := n;
      at, kids := map[[] := n], map[[] := []];
    }

    /** The linked structure as it is in memory. */
    ghost function S(): Shape
      reads this, at.Values
    {
      Shape(at, map p {:trigger at[p]} | p in at :: Cell(at[p].name, at[p].op, at[p].parent, at[p].sibling, at[p].child), kids)
    }

    ghost predicate Valid()
      reads this, at.Values
    {
      Sound(S()) && at[[]] == root
    }

    /** node_get_token: the first name and what is behind it. */
    static method GetToken(s: string) returns (token: Option<Name>, rest: string)
      ensures if Tokens(s) == [] then token == None
              else token == Some(Tokens(s)[0]) && Tokens(rest) == Tokens(s)[1..] && |rest| < |s|
    {
      token, rest := None, s;
      if |s| == 0 || s[0] != '/' { return; }
      var i := 0;
      while i < |s| && s[i] == '/'
        invariant 0 <= i <= |s| && SkipSlashes(s[i..]) == SkipSlashes(s)
      {
        assert s[i..][1..] == s[i + 1..];
        i := i + 1;
      }
      var t := s[i..];
      assert SkipSlashes(t) == t;
      var n := 0;
      while n < |t| && t[n] != '/'
        invariant 0 <= n <= |t| && Upto(t) == n + Upto(t[n..])
      {
        assert t[n..][1..] == t[n + 1..];
        n := n + 1;
      }
      rest := t[n..];
      if n > 0 {
        var name: Name := t[..n];
        token := Some(name);
      }
    }

    /** node_find_sibling among the children of p. */
    method FindSibling(first: Node?, name: Name, ghost p: Path) returns (node: Node?)
      requires Valid() && p in at && first == at[p].child
      ensures node == if p + [name] in at then at[p + [name]] else null
    {
      ghost var s := S();
      TidyOf(s, p);
      hide Sound, InPlace, OnePath, Distinct;
      node := first;
      ghost var i := 0;
      assert Link(s, p, 0) == first;
      while node != null
        invariant 0 <= i <= |kids[p]| && (i > 0 ==> p + [kids[p][i - 1]] in s.cells) && node == Link(s, p, i)
        invariant forall j {:trigger kids[p][j]} | 0 <= j < i :: kids[p][j] != name
        decreases |kids[p]| - i
      {
        assert node == at[p + [kids[p][i]]];
        KidName(s, p, i);
        if node.name == name {
          return;
        }
        node := node.sibling;
        i := i + 1;
        assert node == Link(s, p, i);
      }
      KidsAre(s, p, name);
    }

    /** node_find: the node of the path, or of its longest existing prefix. */
    method Find(path: Option<string>, nearest: bool) returns (node: Node?, errno: Errno)
      requires Valid()
      ensures path == None ==> node == null && errno == EINVAL
      ensures path != None ==> [] in at && node == Found(S(), Tokens(path.value), nearest) && errno == if node == null then ENOENT else Fine
    {
      hide Sound, Tidy, InPlace, OnePath, Depth, Tokens, Found, Along;
      RootIn(S());
      if path == None { return null, EINVAL; }
      ghost var s, ts := S(), Tokens(path.value);
      ghost var k: nat := 0;
      node := root;
      var prev: Node? := null;
      AlongStart(s, ts);
      var rest := path.value;
      while true
        invariant k <= |ts| && Along(s, ts, k, node, prev) && Tokens(rest) == ts[k..]
        decreases |ts| - k
      {
        var token, after := GetToken(rest);
        if token == None { break; }
        AlongAt(s, ts, k, node, prev);
        node := FindSibling(node.child, token.value, ts[..k]);
        AlongStep(s, ts, k, node, prev);
        if node == null {
          if nearest { node := prev; }
          errno := if node == null then ENOENT else Fine;
          return;
        }
        prev, rest, k := node, after, k + 1;
      }
      AlongAt(s, ts, k, node, prev);
      errno := if node == null then ENOENT else Fine;
    }

    /** node_create: calloc may fail. */
    method Create(name: Name) returns (node: Node?)
      requires |name| < MAX_NAME
      ensures node != null ==> fresh(node) && node.name == name && node.op == None && node.parent == null && node.sibling == null && node.child == null
    {
      var fails: bool := *;
      if fails { return null; }
      node := new Node(name);
    }

    /** The last sibling: where node_add_sibling appends. */
    method LastSibling(first: Node, ghost p: Path) returns (n: Node)
      requires Valid() && p in at && at[p].child == first
      ensures LastOf(S(), p, n) && n in at.Values && n.parent == at[p]
    {
      ghost var s := S();
      TidyOf(s, p);
      hide Sound, InPlace, OnePath, Distinct;
      n := first;
      ghost var i := 1;
      assert Link(s, p, 0) == first;
      while n.sibling != null
        invariant 0 < i <= |kids[p]| && n == at[p + [kids[p][i - 1]]]
        decreases |kids[p]| - i
      {
        assert n.sibling == Link(s, p, i);
        n := n.sibling;
        i := i + 1;
      }
      assert n.sibling == Link(s, p, i);
      KidParent(s, p, i - 1);
    }

    /** node_add_sibling: behind the last child of p. */
    method AddSibling(first: Node, node: Node, ghost p: Path, ghost name: Name)
      requires Valid() && Addable(S(), p, name, node) && at[p].child == first
      requires node.name == name && node.op == None && node.sibling == null && node.child == null
      modifies this, at.Values, node
      ensures Valid() && Grew(old(S()), S(), p, name, node) && at.Values <= old(at.Values) + {node}
    {
      hide Sound, Tidy, InPlace, OnePath, LastOf, Addable, Grew;
      ghost var s := S();
      AddableNew(s, p, name, node);
      var n := LastSibling(first, p);
      assert LastOf(s, p, n);
      LinkBehind(n, node, p, name);
      Appended(s, S(), p, name, node, n);
    }

    /** A new node linked behind the child n of p. */
    method LinkBehind(n: Node, node: Node, ghost p: Path, ghost name: Name)
      requires p in at && p in kids && n in at.Values && n.parent == at[p] && node !in at.Values && p + [name] !in at
      requires node.name == name && node.op == None && node.sibling == null && node.child == null
      modifies this, n`sibling, node`parent
      ensures Entered(old(S()), S(), p, name, node) && SiblingSet(old(S()), S(), n, node)
    {
      n.sibling := node;
      node.parent := n.parent;
      at, kids := at[p + [name] := node], kids[p := kids[p] + [name]][p + [name] := []];
    }

    /** node_add_child: as the last child of p. */
    method AddChild(parent: Node, node: Node, ghost p: Path, ghost name: Name)
      requires Valid() && Addable(S(), p, name, node) && at[p] == parent
      requires node.name == name && node.op == None && node.sibling == null && node.child == null
      modifies this, at.Values, node
      ensures Valid() && Grew(old(S()), S(), p, name, node) && at.Values <= old(at.Values) + {node}
    {
      hide Sound, Tidy, InPlace, OnePath, Addable, Grew;
      ghost var s := S();
      AddableNew(s, p, name, node);
      if parent.child == null {
        parent.child := node;
        node.parent := parent;
        at, kids := at[p + [name] := node], kids[p := kids[p] + [name]][p + [name] := []];
        FirstAdded(s, S(), p, name, node);
      } else {
        AddSibling(parent.child, node, p, name);
      }
    }

    /** One name on the way of a mount: the child is found or made. */
    method Enter(node: Node, name: Name, ghost s0: Shape, ghost ts: Path, ghost k: nat) returns (child: Node?)
      requires Valid() && k < |ts| && Walked(s0, S(), ts, k, node) && ts[k] == name && |name| < MAX_NAME
      modifies this, at.Values
      ensures Valid() && fresh(at.Values - old(at.Values))
      ensures child != null ==> Walked(s0, S(), ts, k + 1, child)
      ensures child == null ==> S() == old(S()) && ts[..k + 1] !in at
    {
      hide Sound, Tidy, InPlace, OnePath, Grew, Walked, Addable;
      ghost var t, p := S(), ts[..k];
      WalkedAt(s0, t, ts, k, node);
      child := FindSibling(node.child, name, p);
      if child != null {
        WalkedOver(s0, t, ts, k, node);
      } else {
        var made := Create(name);
        if made != null {
          NewAddable(t, p, name, made);
          AddChild(node, made, p, name);
          WalkedAdded(s0, t, S(), ts, k, node, made);
          child := made;
        }
      }
    }

    /** The end of a mount: the last node gets the operations. */
    method SetOp(node: Node, op: Ops, ghost s: Shape, ghost path: string)
      requires Valid() && Walked(s, S(), Tokens(path), |Tokens(path)|, node)
      modifies at.Values
      ensures Valid() && Mounted(s, S(), Some(path), Some(op), node, Fine)
    {
      hide Sound, Tidy, InPlace, OnePath, Tokens, Walked, Mounted;
      ghost var t := S();
      WalkedAt(s, t, Tokens(path), |Tokens(path)|, node);
      node.op := Some(op);
      WithOpIs(s, t, S(), path, op, node);
    }

    /** The loop of node_mount: enters the nodes of the path one after the other, making the missing ones. */
    method EnterAll(path: string, ghost op: Ops) returns (node: Node?)
      requires Valid() && Fits(Tokens(path)) && Tokens(path) !in at
      modifies this, at.Values
      ensures Valid() && fresh(at.Values - old(at.Values))
      ensures if node == null then Mounted(old(S()), S(), Some(path), Some(op), null, ENOMEM)
              else Walked(old(S()), S(), Tokens(path), |Tokens(path)|, node)
    {
      hide Sound, Tidy, InPlace, OnePath, Tokens, Walked, Prefixes, Mounted, Extends, Grows, TableOf;
      ghost var s, ts := S(), Tokens(path);
      RootIn(s);
      WalkedStart(s, ts);
      ghost var k := 0;
      node := root;
      var rest := path;
      while true
        invariant k <= |ts| && node != null && Valid() && fresh(at.Values - old(at.Values)) && Walked(s, S(), ts, k, node)
        invariant Tokens(rest) == ts[k..]
        decreases |ts| - k
      {
        var token, after := GetToken(rest);
        if token == None { break; }
        assert token.value == ts[k];
        var child := Enter(node, token.value, s, ts, k);
        if child == null {
          WalkedStuck(s, S(), path, op, k, node);
          return null;
        }
        node, rest, k := child, after, k + 1;
      }
    }

    /** node_mount: makes the missing nodes of the path and sets the operations of the last; when
        memory runs out the nodes made so far stay. */
    method Mount(path: Option<string>, op: Option<Ops>) returns (node: Node?, errno: Errno)
      requires Valid() && (path != None ==> Fits(Tokens(path.value)))
      modifies this, at.Values
      ensures Valid() && fresh(at.Values - old(at.Values))
      ensures Mounted(old(S()), S(), path, op, node, errno)
    {
      hide Sound, Tidy, InPlace, OnePath, Tokens, Walked, Found, Mounted, TableOf;
      ghost var s := S();
      MountedWrong(s, path, op);
      if path == None || op == None { return null, EINVAL; }
      RootIn(s);
      MountedThere(s, path.value, op.value);
      var there, e := Find(path, false);
      if there != null { return null, EEXIST; }
      node := EnterAll(path.value, op.value);
      if node == null { return null, ENOMEM; }
      SetOp(node, op.value, s, path.value);
      errno := Fine;
    }
  }

  lemma {:induction false} KidName(s: Shape, p: Path, i: nat)
    requires Sound(s) && p in s.kids && i < |s.kids[p]|
    ensures p + [s.kids[p][i]] in s.at && p + [s.kids[p][i]] in s.cells && s.cells[p + [s.kids[p][i]]].name == s.kids[p][i]
  {
    var q := p + [s.kids[p][i]];
    assert Tidy(s, p);
    assert InPlace(s, q) && q[|q| - 1] == s.kids[p][i];
  }

  lemma {:induction false} KidParent(s: Shape, p: Path, i: nat)
    requires Sound(s) && p in s.kids && i < |s.kids[p]|
    ensures p in s.at && p + [s.kids[p][i]] in s.cells && s.cells[p + [s.kids[p][i]]].parent == s.at[p]
  {
    var q := p + [s.kids[p][i]];
    assert Tidy(s, p);
    assert InPlace(s, q) && q[..|q| - 1] == p;
  }

  /** n is the last child of p. */
  ghost predicate LastOf(s: Shape, p: Path, n: Node) {
    && p in s.kids && |s.kids[p]| > 0
    && (var l := p + [s.kids[p][|s.kids[p]| - 1]]; l in s.at && s.at[l] == n)
  }

  ghost predicate Grew(s: Shape, t: Shape, p: Path, name: Name, n: Node) {
    Ready(s, p, name, n) && t == Added(s, p, name, n)
  }

  lemma {:induction false} RootIn(s: Shape)
    requires Sound(s)
    ensures [] in s.at && s.cells.Keys == s.at.Keys == s.kids.Keys
  {
    hide Tidy, InPlace, OnePath;
  }

  lemma {:induction false} AddableNew(s: Shape, p: Path, name: Name, n: Node)
    requires Addable(s, p, name, n)
    ensures s.cells.Keys == s.at.Keys == s.kids.Keys && p in s.at && p + [name] !in s.at && n !in s.at.Values
  {
    hide Tidy, InPlace, OnePath;
  }

  /** The shape after node n has been entered at p + [name] as a leaf below p. */
  ghost predicate Entered(s: Shape, t: Shape, p: Path, name: Name, n: Node) {
    && p in s.at && p in s.kids && t.at == s.at[p + [name] := n] && t.kids == s.kids[p := s.kids[p] + [name]][p + [name] := []]
    && t.cells.Keys == t.at.Keys && t.cells[p + [name]] == Cell(name, None, s.at[p], null, null)
  }

  predicate SiblingSet(s: Shape, t: Shape, last: Node, n: Node) {
    forall q {:trigger t.cells[q]} | q in s.cells && q in s.at && q in t.cells ::
      t.cells[q] == if s.at[q] == last then s.cells[q].(sibling := n) else s.cells[q]
  }

  predicate ChildSet(s: Shape, t: Shape, parent: Node, n: Node) {
    forall q {:trigger t.cells[q]} | q in s.cells && q in s.at && q in t.cells ::
      t.cells[q] == if s.at[q] == parent then s.cells[q].(child := n) else s.cells[q]
  }

  /** Linking a node behind the last child of p is the addition. */
  lemma {:induction false} Appended(s: Shape, t: Shape, p: Path, name: Name, n: Node, last: Node)
    requires Addable(s, p, name, n) && LastOf(s, p, last) && Entered(s, t, p, name, n) && SiblingSet(s, t, last, n)
    ensures Grew(s, t, p, name, n) && Sound(t)
  {
    hide Tidy, InPlace;
    AddedSound(s, p, name, n);
    AddedKeys(s, p, name, n);
    assert t.cells == Added(s, p, name, n).cells;
  }

  /** Linking it as the first child is, when p has none. */
  lemma {:induction false} FirstAdded(s: Shape, t: Shape, p: Path, name: Name, n: Node)
    requires Addable(s, p, name, n) && p in s.cells && s.cells[p].child == null && Entered(s, t, p, name, n) && ChildSet(s, t, s.at[p], n)
    ensures Grew(s, t, p, name, n) && Sound(t)
  {
    hide InPlace, Tidy, LinksRight, OnePath, ChildSet;
    AddedSound(s, p, name, n);
    AddedKeys(s, p, name, n);
    NoKids(s, p);
    FirstCells(s, t, p, name, n);
  }

  lemma {:induction false} FirstCells(s: Shape, t: Shape, p: Path, name: Name, n: Node)
    requires OnePath(s) && p in s.cells && p in s.kids && s.kids[p] == [] && p + [name] !in s.at && s.cells.Keys == s.at.Keys
    requires Entered(s, t, p, name, n) && ChildSet(s, t, s.at[p], n)
    ensures t.cells == Added(s, p, name, n).cells
  {
    var a := Added(s, p, name, n).cells;
    assert a == s.cells[p := s.cells[p].(child := n)][p + [name] := Cell(name, None, s.at[p], null, null)];
    assert t.cells.Keys == a.Keys;
    forall q | q in t.cells ensures t.cells[q] == a[q] {
      if q != p + [name] { assert q in s.cells && q in s.at && (s.at[q] == s.at[p] ==> q == p); }
    }
  }

  lemma {:induction false} NoKids(s: Shape, p: Path)
    requires Sound(s) && p in s.cells && s.cells[p].child == null
    ensures p in s.kids && s.kids[p] == []
  {
    hide InPlace, OnePath;
    assert Tidy(s, p) && Link(s, p, 0) == null;
  }

  /** The walk along ts has come to the node of its first k names. */
  predicate Along(s: Shape, ts: Path, k: nat, node: Node?, prev: Node?)
    requires k <= |ts|
  {
    && ts[..0] in s.at && ts[..k] in s.at && node == s.at[ts[..k]] && prev == (if k == 0 then null else node)
    && Depth(s, ts, 0) == Depth(s, ts, k)
  }

  lemma {:induction false} AlongStart(s: Shape, ts: Path)
    requires [] in s.at
    ensures Along(s, ts, 0, s.at[[]], null)
  {
    assert ts[..0] == [];
  }

  lemma {:induction false} AlongAt(s: Shape, ts: Path, k: nat, node: Node?, prev: Node?)
    requires k <= |ts| && Along(s, ts, k, node, prev)
    ensures ts[..0] in s.at && ts[..k] in s.at && node == s.at[ts[..k]]
    ensures k == |ts| ==> Found(s, ts, true) == Found(s, ts, false) == node
  {
  }

  lemma {:induction false} AlongStep(s: Shape, ts: Path, k: nat, node: Node?, prev: Node?)
    requires k < |ts| && ts[..k] in s.at && Along(s, ts, k, s.at[ts[..k]], prev)
    requires node == if ts[..k] + [ts[k]] in s.at then s.at[ts[..k] + [ts[k]]] else null
    ensures node != null ==> Along(s, ts, k + 1, node, node)
    ensures node == null ==> ts[..0] in s.at && Found(s, ts, true) == prev && Found(s, ts, false) == null
  {
    assert ts[..k] + [ts[k]] == ts[..k + 1];
  }

  // ---------------------------------------------------------------- mounting

  /** What a mount of op at a path does to the tree. */
  ghost predicate Mounted(s: Shape, t: Shape, path: Option<string>, op: Option<Ops>, node: Node?, errno: Errno) {
    if path == None || op == None then
      node == null && errno == EINVAL && t == s
    else
      var ts := Tokens(path.value);
      if ts in s.at then node == null && errno == EEXIST && t == s
      else
        && Extends(s, t)
        && (if node != null then
              errno == Fine && ts in t.at && t.at[ts] == node && TableOf(t) == NodeTheory.Mount(TableOf(s), Mounting(ts, op.value))
            else
              errno == ENOMEM && exists k {:trigger Grows(s, t, ts, k)} :: 0 <= k < |ts| && Grows(s, t, ts, k))
  }

  /** Every node stays where it is. */
  ghost predicate Extends(s: Shape, t: Shape) {
    forall p {:trigger t.at[p]} {:trigger s.at[p]} | p in s.at :: p in t.at && t.at[p] == s.at[p]
  }

  /** The mount from s has come, with the tree at t, to the node of the first k names. */
  ghost predicate Walked(s: Shape, t: Shape, ts: Path, k: nat, node: Node)
    requires k <= |ts|
  {
    Sound(s) && Sound(t) && ts !in s.at && Grows(s, t, ts, k) && ts[..k] in t.at && t.at[ts[..k]] == node
  }

  lemma {:induction false} WalkedAt(s: Shape, t: Shape, ts: Path, k: nat, node: Node)
    requires k <= |ts| && Walked(s, t, ts, k, node)
    ensures ts[..k] in t.at && t.at[ts[..k]] == node && t.cells.Keys == t.at.Keys && ts[..k] in t.cells
    ensures k < |ts| ==> ts[..k] + [ts[k]] == ts[..k + 1]
  {
    hide Tidy, InPlace, OnePath;
  }

  lemma {:induction false} WalkedStart(s: Shape, ts: Path)
    requires Sound(s) && ts !in s.at
    ensures [] in s.at && Walked(s, s, ts, 0, s.at[[]])
  {
    GrowsStart(s, ts);
    assert ts[..0] == [];
  }

  lemma {:induction false} WalkedOver(s: Shape, t: Shape, ts: Path, k: nat, node: Node)
    requires k < |ts| && Walked(s, t, ts, k, node) && ts[..k + 1] in t.at
    ensures Walked(s, t, ts, k + 1, t.at[ts[..k + 1]])
  {
    hide Sound;
    GrowsOver(s, t, ts, k);
  }

  lemma {:induction false} WalkedAdded(s: Shape, t: Shape, u: Shape, ts: Path, k: nat, node: Node, made: Node)
    requires k < |ts| && Walked(s, t, ts, k, node) && Sound(u) && Grew(t, u, ts[..k], ts[k], made)
    ensures Walked(s, u, ts, k + 1, made)
  {
    hide Sound;
    GrowsAdded(s, t, ts, k, made);
    assert ts[..k] + [ts[k]] == ts[..k + 1];
  }

  lemma {:induction false} NewAddable(s: Shape, p: Path, name: Name, n: Node)
    requires Sound(s) && p in s.at && p + [name] !in s.at && n !in s.at.Values
    ensures Addable(s, p, name, n)
  {
    hide Sound;
  }

  lemma {:induction false} MountedWrong(s: Shape, path: Option<string>, op: Option<Ops>)
    ensures path == None || op == None ==> Mounted(s, s, path, op, null, EINVAL)
  {
  }

  lemma {:induction false} MountedThere(s: Shape, path: string, op: Ops)
    requires Sound(s)
    ensures Tokens(path)[..0] in s.at && (Found(s, Tokens(path), false) == null <==> Tokens(path) !in s.at)
    ensures Tokens(path) in s.at ==> Mounted(s, s, Some(path), Some(op), null, EEXIST)
  {
    hide Sound, Found;
    FoundIs(s, Tokens(path));
  }

  lemma {:induction false} WalkedStuck(s: Shape, t: Shape, path: string, op: Ops, k: nat, node: Node)
    requires k < |Tokens(path)| && Walked(s, t, Tokens(path), k, node)
    ensures Mounted(s, t, Some(path), Some(op), null, ENOMEM)
  {
    hide Sound;
    forall p | p in s.at ensures p in t.at && t.at[p] == s.at[p] { assert p in t.at && Stays(s, t, p); }
  }

  /** Setting the operations of the last node finishes the mount. */
  lemma {:induction false} WithOpIs(s: Shape, t: Shape, u: Shape, path: string, op: Ops, node: Node)
    requires Walked(s, t, Tokens(path), |Tokens(path)|, node)
    requires u.at == t.at && u.kids == t.kids && u.cells.Keys == t.cells.Keys && OpSet(t, u, node, op)
    ensures Sound(u) && Mounted(s, u, Some(path), Some(op), node, Fine)
  {
    hide Tidy, InPlace, TableOf, Prefixes;
    var ts := Tokens(path);
    assert ts[..|ts|] == ts;
    assert u.cells == WithOp(t, ts, op).cells;
    assert u == WithOp(t, ts, op);
    WithOpSound(t, ts, op);
    MountedTable(s, t, Mounting(ts, op));
    forall p | p in s.at ensures p in t.at && t.at[p] == s.at[p] { assert p in t.at && Stays(s, t, p); }
  }

  predicate OpSet(t: Shape, u: Shape, node: Node, op: Ops) {
    forall q {:trigger u.cells[q]} | q in t.cells && q in t.at && q in u.cells ::
      u.cells[q] == if t.at[q] == node then t.cells[q].(op := Some(op)) else t.cells[q]
  }
}
