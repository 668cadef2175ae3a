/** The tree view's node structure. The pointer graph of the source is a
    value here: a node holds its children in order, and a node inside the
    tree is named by its path, the sequence of child positions that leads
    to it from the root. A node's parent is the node at the path without its
    last position. The `index` field is kept literally: the source uses it
    as "the position of the child the selection went through". */
module TreeModel {
  import opened Common

  datatype Node = Node(expanded: bool, index: nat, children: seq<Node>, data: int)

  type Path = seq<nat>

  /** treeview_node_init: expanded, no children, index 0. */
  function NewNode(data: int): Node
  {
    Node(true, 0, [], data)
  }

  /** treeview_node_alloc: no node without a draw callback; otherwise a
      node as treeview_node_init leaves it, whose index is in range and
      which takes one row. */
  function NodeAlloc(data: int, hasDrawCb: bool): (r: Option<Node>)
    ensures r.Some? <==> hasDrawCb
    ensures r.Some? ==> r.value.data == data && r.value.children == [] && r.value.expanded
    ensures r.Some? ==> IndexesOk(r.value) && Height(r.value) == 1
  {
    if hasDrawCb then Some(NewNode(data)) else None
  }

  predicate ValidPath(n: Node, p: Path)
    decreases |p|
  {
    |p| == 0 || (p[0] < |n.children| && ValidPath(n.children[p[0]], p[1..]))
  }

  /** The node at path p below n. */
  function At(n: Node, p: Path): Node
    requires ValidPath(n, p)
    decreases |p|
  {
    if |p| == 0 then n else At(n.children[p[0]], p[1..])
  }

  function Parent(p: Path): Path
    requires |p| > 0
  {
    p[..|p| - 1]
  }

  function Last(p: Path): nat
    requires |p| > 0
  {
    p[|p| - 1]
  }

  /** b differs from a at most along p: every proper ancestor of the node
      at p keeps its expanded flag, data and number of children, and every
      child off the path is the same subtree. Indexes along p are left open. */
  predicate OffPathSame(a: Node, b: Node, p: Path)
    decreases |p|
  {
    |p| == 0
    || (a.expanded == b.expanded && a.data == b.data
        && |a.children| == |b.children| && p[0] < |a.children|
        && (forall i :: 0 <= i < |a.children| && i != p[0] ==> b.children[i] == a.children[i])
        && OffPathSame(a.children[p[0]], b.children[p[0]], p[1..]))
  }

  /** Every proper ancestor of the node at p has the same index in a and b. */
  predicate IndexesSameAlong(a: Node, b: Node, p: Path)
    decreases |p|
  {
    |p| == 0
    || (a.index == b.index && p[0] < |a.children| && p[0] < |b.children|
        && IndexesSameAlong(a.children[p[0]], b.children[p[0]], p[1..]))
  }

  /** Every proper ancestor of the node at p has index 0. */
  predicate ZeroAlong(n: Node, p: Path)
    decreases |p|
  {
    |p| == 0 || (n.index == 0 && p[0] < |n.children| && ZeroAlong(n.children[p[0]], p[1..]))
  }

  /** n with the node at path p replaced by m; every node on the way keeps
      its own fields and its number of children, and everything off the
      path is kept. */
  function Replace(n: Node, p: Path, m: Node): (r: Node)
    requires ValidPath(n, p)
    ensures ValidPath(r, p) && At(r, p) == m
    ensures OffPathSame(n, r, p) && IndexesSameAlong(n, r, p)
    ensures |p| > 0 ==> r.expanded == n.expanded && r.index == n.index && r.data == n.data
                        && |r.children| == |n.children|
    decreases |p|
  {
    if |p| == 0 then m
    else n.(children := n.children[p[0] := Replace(n.children[p[0]], p[1..], m)])
  }

  /** The explicit form of OffPathSame: a node that is neither on the way
      to p nor below p is the same subtree in both trees, and a proper
      ancestor of the node at p keeps its fields, its index included when
      the indexes along p are the same. */
  lemma {:induction false} OffPathAt(a: Node, b: Node, p: Path, u: Path)
    requires OffPathSame(a, b, p) && ValidPath(a, u)
    ensures !(u <= p) && !(p <= u) ==> ValidPath(b, u) && At(b, u) == At(a, u)
    ensures u < p ==>
              ValidPath(b, u) && At(b, u).expanded == At(a, u).expanded
              && At(b, u).data == At(a, u).data && |At(b, u).children| == |At(a, u).children|
              && (IndexesSameAlong(a, b, p) ==> At(b, u).index == At(a, u).index)
    decreases |p|
  {
    if |p| > 0 && |u| > 0 {
      if u[0] == p[0] {
        assert u <= p ==> u[1..] <= p[1..];
        assert p <= u ==> p[1..] <= u[1..];
        assert u[1..] <= p[1..] ==> u <= p;
        assert p[1..] <= u[1..] ==> p <= u;
        OffPathAt(a.children[p[0]], b.children[p[0]], p[1..], u[1..]);
      } else {
        assert b.children[u[0]] == a.children[u[0]];
        assert !(u <= p) && !(p <= u);
      }
    } else if |p| == 0 {
      assert p <= u;
    }
  }

  /** When the node at p is itself kept, every node that is not a proper
      ancestor of it is the same subtree in both trees. */
  lemma {:induction false} KeptOffAncestors(a: Node, b: Node, p: Path, u: Path)
    requires OffPathSame(a, b, p) && ValidPath(a, p) && ValidPath(b, p) && At(b, p) == At(a, p)
    requires ValidPath(a, u) && !(u < p)
    ensures ValidPath(b, u) && At(b, u) == At(a, u)
    decreases |p|
  {
    if |p| > 0 && |u| > 0 {
      if u[0] == p[0] {
        assert u[1..] < p[1..] ==> u < p;
        KeptOffAncestors(a.children[p[0]], b.children[p[0]], p[1..], u[1..]);
      } else {
        assert b.children[u[0]] == a.children[u[0]];
      }
    } else if |u| == 0 {
      assert |p| == 0;
    }
  }

  /** The indexes of the proper ancestors of the node at p, read back
      through ZeroAlong and Tracked. */
  lemma {:induction false} AlongAt(n: Node, p: Path, u: Path)
    requires u < p
    ensures ZeroAlong(n, p) ==> ValidPath(n, u) && At(n, u).index == 0
    ensures Tracked(n, p) ==> ValidPath(n, u) && At(n, u).index == p[|u|]
    decreases |u|
  {
    if |u| > 0 && p[0] < |n.children| {
      assert u[1..] < p[1..];
      AlongAt(n.children[p[0]], p[1..], u[1..]);
    }
  }

  /** Replacing twice at the same place keeps only the second node. */
  lemma {:induction false} ReplaceTwice(n: Node, p: Path, m1: Node, m2: Node)
    requires ValidPath(n, p)
    ensures Replace(Replace(n, p, m1), p, m2) == Replace(n, p, m2)
    decreases |p|
  {
    if |p| > 0 {
      ReplaceTwice(n.children[p[0]], p[1..], m1, m2);
    }
  }

  /** Putting back the node that is there changes nothing. */
  lemma {:induction false} ReplaceSelf(n: Node, p: Path)
    requires ValidPath(n, p)
    ensures Replace(n, p, At(n, p)) == n
    decreases |p|
  {
    if |p| > 0 {
      ReplaceSelf(n.children[p[0]], p[1..]);
    }
  }

  /** A path splits into a path to an intermediate node and a path below it. */
  lemma {:induction false} PathAppend(n: Node, a: Path, b: Path)
    ensures ValidPath(n, a + b) <==> ValidPath(n, a) && ValidPath(At(n, a), b)
    ensures ValidPath(n, a + b) ==> At(n, a + b) == At(At(n, a), b)
    decreases |a|
  {
    if |a| > 0 {
      assert (a + b)[0] == a[0] && (a + b)[1..] == a[1..] + b;
      if a[0] < |n.children| {
        PathAppend(n.children[a[0]], a[1..], b);
      }
    } else {
      assert a + b == b;
    }
  }

  lemma PathSnoc(n: Node, q: Path, k: nat)
    ensures ValidPath(n, q + [k]) <==> ValidPath(n, q) && k < |At(n, q).children|
    ensures ValidPath(n, q + [k]) ==> At(n, q + [k]) == At(n, q).children[k]
  {
    PathAppend(n, q, [k]);
    if ValidPath(n, q) {
      var m := At(n, q);
      assert [k][1..] == [];
    }
  }

  /** The parent of a node in the tree is in the tree, and the node is one of
      its children. */
  lemma ParentValid(n: Node, p: Path)
    requires ValidPath(n, p) && |p| > 0
    ensures ValidPath(n, Parent(p)) && Last(p) < |At(n, Parent(p)).children|
    ensures At(n, p) == At(n, Parent(p)).children[Last(p)]
  {
    assert p == Parent(p) + [Last(p)];
    PathSnoc(n, Parent(p), Last(p));
  }

  /** The parent of the node at p. */
  function ParentOf(n: Node, p: Path): (r: Node)
    requires ValidPath(n, p) && |p| > 0
    ensures ValidPath(n, Parent(p)) && r == At(n, Parent(p))
    ensures Last(p) < |r.children| && r.children[Last(p)] == At(n, p)
  {
    ParentValid(n, p);
    At(n, Parent(p))
  }

  lemma PrefixValid(n: Node, p: Path, k: nat)
    requires ValidPath(n, p) && k <= |p|
    ensures ValidPath(n, p[..k])
  {
    assert p == p[..k] + p[k..];
    PathAppend(n, p[..k], p[k..]);
  }

  /** Every node's index is 0 or names one of its children, the range every
      event keeps it in. */
  predicate IndexesOk(n: Node)
  {
    (n.index == 0 || n.index < |n.children|)
    && forall i :: 0 <= i < |n.children| ==> IndexesOk(n.children[i])
  }

  lemma {:induction false} AtIndexesOk(n: Node, p: Path)
    requires ValidPath(n, p) && IndexesOk(n)
    ensures IndexesOk(At(n, p))
    decreases |p|
  {
    if |p| > 0 {
      AtIndexesOk(n.children[p[0]], p[1..]);
    }
  }

  lemma {:induction false} ReplaceIndexesOk(n: Node, p: Path, m: Node)
    requires ValidPath(n, p) && IndexesOk(n) && IndexesOk(m)
    ensures IndexesOk(Replace(n, p, m))
    decreases |p|
  {
    if |p| > 0 {
      ReplaceIndexesOk(n.children[p[0]], p[1..], m);
      var r := Replace(n, p, m);
      forall i | 0 <= i < |r.children|
        ensures IndexesOk(r.children[i])
      {
        if i != p[0] {
          assert r.children[i] == n.children[i];
        }
      }
    }
  }

  /** The indexes along p name the positions p goes through: every proper
      ancestor of the node at p has the next position of p as its index. */
  predicate Tracked(n: Node, p: Path)
    decreases |p|
  {
    |p| == 0 || (p[0] < |n.children| && n.index == p[0] && Tracked(n.children[p[0]], p[1..]))
  }

  lemma {:induction false} TrackedValid(n: Node, p: Path)
    requires Tracked(n, p)
    ensures ValidPath(n, p)
    decreases |p|
  {
    if |p| > 0 {
      TrackedValid(n.children[p[0]], p[1..]);
    }
  }

  lemma {:induction false} TrackedAppend(n: Node, a: Path, b: Path)
    requires ValidPath(n, a)
    ensures Tracked(n, a + b) <==> Tracked(n, a) && Tracked(At(n, a), b)
    decreases |a|
  {
    if |a| > 0 {
      assert (a + b)[0] == a[0] && (a + b)[1..] == a[1..] + b;
      TrackedAppend(n.children[a[0]], a[1..], b);
    } else {
      assert a + b == b;
    }
  }

  /** Tracked along a path ending in k: tracked to the parent, and the
      parent's index is k. */
  lemma TrackedSnoc(n: Node, q: Path, k: nat)
    requires ValidPath(n, q)
    ensures Tracked(n, q + [k]) <==> Tracked(n, q) && k < |At(n, q).children| && At(n, q).index == k
  {
    TrackedAppend(n, q, [k]);
    assert [k][1..] == [];
  }

  /** Replacing a node on or below the end of a tracked path keeps the path
      tracked: the nodes above it keep their indexes. */
  lemma {:induction false} ReplaceKeepsTracked(n: Node, s: Path, r: Path, m: Node)
    requires Tracked(n, s) && ValidPath(n, r) && |s| <= |r| && r[..|s|] == s
    ensures Tracked(Replace(n, r, m), s)
    decreases |s|
  {
    if |s| > 0 {
      assert r[0] == s[0];
      assert r[1..][..|s| - 1] == s[1..];
      ReplaceKeepsTracked(n.children[s[0]], s[1..], r[1..], m);
    }
  }

  /** The re-tracking of a path: every node on the way gets as its index the
      position the path takes next; nothing else changes. */
  function Retrack(n: Node, p: Path): (r: Node)
    requires ValidPath(n, p)
    ensures Tracked(r, p)
    ensures Congruent(n, r)
    ensures OffPathSame(n, r, p) && ValidPath(r, p) && At(r, p) == At(n, p)
    ensures IndexesOk(n) ==> IndexesOk(r)
    decreases |p|
  {
    CongruentRefl(n);
    if |p| == 0 then n
    else
      var child := Retrack(n.children[p[0]], p[1..]);
      var r := n.(index := p[0], children := n.children[p[0] := child]);
      assert forall i :: 0 <= i < |n.children| && i != p[0] ==> r.children[i] == n.children[i];
      r
  }

  /** Re-tracking a path that is already tracked changes nothing. */
  lemma {:induction false} RetrackTracked(n: Node, p: Path)
    requires ValidPath(n, p)
    ensures Tracked(n, p) ==> Retrack(n, p) == n
    decreases |p|
  {
    if |p| > 0 {
      RetrackTracked(n.children[p[0]], p[1..]);
    }
  }

  /** Two trees of the same shape: they differ at most in their indexes. */
  predicate Congruent(a: Node, b: Node)
  {
    a.expanded == b.expanded && a.data == b.data && |a.children| == |b.children|
    && forall i :: 0 <= i < |a.children| ==> Congruent(a.children[i], b.children[i])
  }

  lemma {:induction false} CongruentRefl(n: Node)
    ensures Congruent(n, n)
  {
    forall i | 0 <= i < |n.children|
      ensures Congruent(n.children[i], n.children[i])
    {
      CongruentRefl(n.children[i]);
    }
  }

  lemma {:induction false} CongruentPaths(a: Node, b: Node, p: Path)
    requires Congruent(a, b)
    ensures ValidPath(a, p) <==> ValidPath(b, p)
    ensures ValidPath(a, p) ==> Congruent(At(a, p), At(b, p))
    decreases |p|
  {
    if |p| > 0 && p[0] < |a.children| {
      CongruentPaths(a.children[p[0]], b.children[p[0]], p[1..]);
    }
  }

  lemma {:induction false} CongruentTrans(a: Node, b: Node, c: Node)
    requires Congruent(a, b) && Congruent(b, c)
    ensures Congruent(a, c)
  {
    forall i | 0 <= i < |a.children|
      ensures Congruent(a.children[i], c.children[i])
    {
      CongruentTrans(a.children[i], b.children[i], c.children[i]);
    }
  }

  /** Sets the index of every proper ancestor of the node at p to 0, as the
      walk to the root at the start of TREEVIEW_JUMP does. */
  function ResetPath(n: Node, p: Path): (r: Node)
    requires ValidPath(n, p)
    ensures ZeroAlong(r, p)
    ensures Congruent(n, r)
    ensures OffPathSame(n, r, p) && ValidPath(r, p) && At(r, p) == At(n, p)
    ensures IndexesOk(n) ==> IndexesOk(r)
    decreases |p|
  {
    CongruentRefl(n);
    if |p| == 0 then n
    else
      var child := ResetPath(n.children[p[0]], p[1..]);
      var r := n.(index := 0, children := n.children[p[0] := child]);
      assert forall i :: 0 <= i < |n.children| && i != p[0] ==> r.children[i] == n.children[i];
      r
  }

  /** A path whose every proper ancestor is expanded: the node at its end is
      a row on screen. The root is an ancestor of every other node. */
  predicate Shown(n: Node, p: Path)
    decreases |p|
  {
    |p| == 0 || (n.expanded && p[0] < |n.children| && Shown(n.children[p[0]], p[1..]))
  }

  lemma {:induction false} ShownValid(n: Node, p: Path)
    requires Shown(n, p)
    ensures ValidPath(n, p)
    decreases |p|
  {
    if |p| > 0 {
      ShownValid(n.children[p[0]], p[1..]);
    }
  }

  lemma {:induction false} ShownAppend(n: Node, a: Path, b: Path)
    requires ValidPath(n, a)
    ensures Shown(n, a + b) <==> Shown(n, a) && Shown(At(n, a), b)
    decreases |a|
  {
    if |a| > 0 {
      assert (a + b)[0] == a[0] && (a + b)[1..] == a[1..] + b;
      ShownAppend(n.children[a[0]], a[1..], b);
    } else {
      assert a + b == b;
    }
  }

  lemma ShownSnoc(n: Node, q: Path, k: nat)
    requires ValidPath(n, q)
    ensures Shown(n, q + [k]) <==> Shown(n, q) && At(n, q).expanded && k < |At(n, q).children|
  {
    ShownAppend(n, q, [k]);
    assert [k][1..] == [];
  }

  lemma {:induction false} CongruentShown(a: Node, b: Node, p: Path)
    requires Congruent(a, b)
    ensures Shown(a, p) <==> Shown(b, p)
    decreases |p|
  {
    if |p| > 0 && p[0] < |a.children| {
      CongruentShown(a.children[p[0]], b.children[p[0]], p[1..]);
    }
  }

  /** node_height_up_to_bottom: the rows a node takes on screen, its own and,
      when it is expanded, its children's. */
  function Height(n: Node): (h: int)
    ensures h >= 1
    ensures n.expanded ==> h >= 1 + |n.children|
    decreases n, 1
  {
    1 + (if n.expanded then SumHeights(n.children) else 0)
  }

  /** The rows a run of siblings takes. */
  function SumHeights(cs: seq<Node>): (r: int)
    ensures r >= |cs|
    decreases cs, 0
  {
    if cs == [] then 0 else SumHeights(cs[..|cs| - 1]) + Height(cs[|cs| - 1])
  }

  lemma {:induction false} SumHeightsAppend(a: seq<Node>, b: seq<Node>)
    ensures SumHeights(a + b) == SumHeights(a) + SumHeights(b)
    decreases |b|
  {
    if b == [] {
      assert a + b == a;
    } else {
      assert (a + b)[..|a + b| - 1] == a + b[..|b| - 1];
      SumHeightsAppend(a, b[..|b| - 1]);
    }
  }

  lemma SumHeightsSnoc(cs: seq<Node>, k: nat)
    requires k < |cs|
    ensures SumHeights(cs[..k + 1]) == SumHeights(cs[..k]) + Height(cs[k])
  {
    assert cs[..k + 1][..k] == cs[..k];
  }

  /** Trees of the same shape take the same rows: indexes do not count. */
  lemma {:induction false} CongruentHeight(a: Node, b: Node)
    requires Congruent(a, b)
    ensures Height(a) == Height(b)
    decreases a, 1
  {
    if a.expanded {
      CongruentSumHeights(a.children, b.children);
    }
  }

  lemma {:induction false} CongruentSumHeights(a: seq<Node>, b: seq<Node>)
    requires |a| == |b| && forall i :: 0 <= i < |a| ==> Congruent(a[i], b[i])
    ensures SumHeights(a) == SumHeights(b)
    decreases a, 0
  {
    if a != [] {
      CongruentSumHeights(a[..|a| - 1], b[..|b| - 1]);
      CongruentHeight(a[|a| - 1], b[|b| - 1]);
    }
  }

  /** The row of the node at p, counting n's own row as 1, read from the top:
      n's row, the rows of the siblings before each step, and one row for
      the step itself. */
  function RowsTo(n: Node, p: Path): (r: int)
    requires ValidPath(n, p)
    ensures r >= 1 + |p|
    decreases |p|
  {
    if |p| == 0 then 1
    else 1 + SumHeights(n.children[..p[0]]) + RowsTo(n.children[p[0]], p[1..])
  }

  lemma {:induction false} RowsToAppend(n: Node, a: Path, b: Path)
    requires ValidPath(n, a + b)
    ensures ValidPath(n, a) && ValidPath(At(n, a), b)
    ensures RowsTo(n, a + b) == RowsTo(n, a) + RowsTo(At(n, a), b) - 1
    decreases |a|
  {
    PathAppend(n, a, b);
    if |a| > 0 {
      assert (a + b)[0] == a[0] && (a + b)[1..] == a[1..] + b;
      RowsToAppend(n.children[a[0]], a[1..], b);
    } else {
      assert a + b == b;
    }
  }

  lemma RowsToSnoc(n: Node, q: Path, k: nat)
    requires ValidPath(n, q + [k])
    ensures ValidPath(n, q) && k < |At(n, q).children|
    ensures RowsTo(n, q + [k]) == RowsTo(n, q) + SumHeights(At(n, q).children[..k]) + 1
  {
    RowsToAppend(n, q, [k]);
    PathSnoc(n, q, k);
    assert [k][1..] == [];
  }

  lemma {:induction false} CongruentRows(a: Node, b: Node, p: Path)
    requires Congruent(a, b) && ValidPath(a, p)
    ensures ValidPath(b, p) && RowsTo(a, p) == RowsTo(b, p)
    decreases |p|
  {
    CongruentPaths(a, b, p);
    if |p| > 0 {
      CongruentSumHeights(a.children[..p[0]], b.children[..p[0]]);
      CongruentRows(a.children[p[0]], b.children[p[0]], p[1..]);
    }
  }

  /** node_height_bottom_to_up: the row of the node at p read from the node
      upwards, one row for the node, the rows of the siblings before it, and
      the row of its parent. */
  function HeightUp(root: Node, p: Path): (r: int)
    requires ValidPath(root, p)
    decreases |p|
  {
    if |p| == 0 then 1
    else
      ParentValid(root, p);
      1 + SumHeights(At(root, Parent(p)).children[..Last(p)]) + HeightUp(root, Parent(p))
  }

  /** Counting the rows from the node up gives the same row as counting them
      from the root down, the equality treeview_redraw asserts in the split
      revision. */
  lemma {:induction false} HeightUpIsRowsTo(root: Node, p: Path)
    requires ValidPath(root, p)
    ensures HeightUp(root, p) == RowsTo(root, p)
    decreases |p|
  {
    if |p| > 0 {
      ParentValid(root, p);
      HeightUpIsRowsTo(root, Parent(p));
      assert p == Parent(p) + [Last(p)];
      RowsToSnoc(root, Parent(p), Last(p));
    }
  }

  /** The loop of node_height_up_to_bottom. */
  method NodeHeightUpToBottom(n: Node) returns (h: int)
    ensures h == Height(n)
    decreases n
  {
    h := 1;
    if !n.expanded {
      return;
    }
    for i := 0 to |n.children|
      invariant h == 1 + SumHeights(n.children[..i])
    {
      var sub := NodeHeightUpToBottom(n.children[i]);
      SumHeightsSnoc(n.children, i);
      h := h + sub;
    }
    assert n.children[..|n.children|] == n.children;
  }

  /** The loop of node_height_bottom_to_up: the siblings before the node,
      then the parent's own row. The source asserts that every ancestor is
      expanded. */
  method NodeHeightBottomToUp(root: Node, p: Path) returns (h: int)
    requires ValidPath(root, p) && Shown(root, p)
    ensures h == HeightUp(root, p)
    ensures h == RowsTo(root, p)
    decreases |p|
  {
    HeightUpIsRowsTo(root, p);
    h := 1;
    if |p| == 0 {
      return;
    }
    ParentValid(root, p);
    var q, k := Parent(p), Last(p);
    assert p == q + [k];
    ShownSnoc(root, q, k);
    var parent := At(root, q);
    var i := 0;
    while i < |parent.children|
      invariant i <= k
      invariant h == 1 + SumHeights(parent.children[..i])
    {
      if i == k {
        break;
      }
      var sub := NodeHeightUpToBottom(parent.children[i]);
      SumHeightsSnoc(parent.children, i);
      h := h + sub;
      i := i + 1;
    }
    var above := NodeHeightBottomToUp(root, q);
    h := h + above;
  }

  /** node_height, the split revision's older count: walks the rows from n
      down in order until it meets the target, whose path from n is given;
      `realHeight` is the C out-parameter that stops the walk once the target
      was met. An unshown target is never met and the walk counts every row. */
  method NodeHeight(n: Node, target: Option<Path>, height: int, realHeight: int)
    returns (h: int, realHeight': int)
    requires height >= 0 && realHeight >= 0
    requires target.Some? ==> |target.value| > 0 && ValidPath(n, target.value)
    ensures realHeight > 0 ==> h == realHeight && realHeight' == realHeight
    ensures realHeight == 0 && target.Some? && Shown(n, target.value) ==>
              h == realHeight' == height + RowsTo(n, target.value)
    ensures realHeight == 0 && !(target.Some? && Shown(n, target.value)) ==>
              h == height + Height(n) && realHeight' == 0
    decreases n
  {
    if realHeight > 0 {
      return realHeight, realHeight;
    }
    h, realHeight' := height + 1, 0;
    if !n.expanded {
      return;
    }
    var i := 0;
    while i < |n.children|
      invariant i <= |n.children| && realHeight' >= 0 && h >= 0
      invariant realHeight' == 0 ==> h == height + 1 + SumHeights(n.children[..i])
      invariant realHeight' == 0 ==> !(target.Some? && Shown(n, target.value) && target.value[0] < i)
      invariant realHeight' > 0 ==> target.Some? && Shown(n, target.value) && target.value[0] < i && h == realHeight'
                                    && realHeight' == height + RowsTo(n, target.value)
    {
      var sub: Option<Path> := None;
      if target.Some? && target.value[0] == i {
        if |target.value| == 1 {
          assert target.value == [i] && target.value[1..] == [];
          assert Shown(n.children[i], []);
          assert Shown(n, target.value);
          assert RowsTo(n, target.value) == 1 + SumHeights(n.children[..i]) + RowsTo(n.children[i], []);
          realHeight' := h + 1;
          return realHeight', realHeight';
        }
        sub := Some(target.value[1..]);
      }
      SumHeightsSnoc(n.children, i);
      h, realHeight' := NodeHeight(n.children[i], sub, h, realHeight');
      i := i + 1;
    }
    assert n.children[..|n.children|] == n.children;
    if realHeight' > 0 {
      h := realHeight';
    }
  }

  /** leaf: from n down through the last child for as long as the node is
      expanded and has children; the path of the node it stops at. */
  function LeafPath(n: Node): (r: Path)
    ensures Shown(n, r) && ValidPath(n, r)
    ensures !(At(n, r).expanded && |At(n, r).children| > 0)
    ensures r == [] <==> !(n.expanded && |n.children| > 0)
    ensures RowsTo(n, r) == Height(n)
    decreases n
  {
    if n.expanded && |n.children| > 0 then
      var k := |n.children| - 1;
      var r := [k] + LeafPath(n.children[k]);
      assert r[0] == k && r[1..] == LeafPath(n.children[k]);
      assert n.children[..k + 1] == n.children;
      SumHeightsSnoc(n.children, k);
      r
    else []
  }

  /** is_last: the node at p is its parent's last child, that is, it has no
      sibling after it. The root has no parent. */
  function IsLast(root: Node, p: Path): (r: bool)
    requires ValidPath(root, p)
    ensures r <==> |p| > 0 && !ValidPath(root, Parent(p) + [Last(p) + 1])
  {
    if |p| == 0 then false
    else
      ParentValid(root, p);
      PathSnoc(root, Parent(p), Last(p) + 1);
      var len := |At(root, Parent(p)).children|;
      len > 0 && Last(p) == len - 1
  }

  /** The row after the node at p and its subtree, read from the top: the
      next sibling of the deepest ancestor-or-self that has one; None when
      the node's subtree ends the tree. */
  function NextAfter(n: Node, p: Path): (r: Option<Path>)
    requires ValidPath(n, p)
    ensures r.Some? ==> |r.value| > 0 && ValidPath(n, r.value)
    ensures r.Some? && Shown(n, p) ==> Shown(n, r.value)
    decreases |p|
  {
    if |p| == 0 then None
    else match NextAfter(n.children[p[0]], p[1..])
      case Some(t) =>
        assert ([p[0]] + t)[0] == p[0] && ([p[0]] + t)[1..] == t;
        Some([p[0]] + t)
      case None => if p[0] + 1 < |n.children| then Some([p[0] + 1]) else None
  }

  lemma {:induction false} NextAfterSnoc(n: Node, q: Path, k: nat)
    requires ValidPath(n, q + [k])
    ensures ValidPath(n, q) && k < |At(n, q).children|
    ensures NextAfter(n, q + [k]) == if k + 1 < |At(n, q).children| then Some(q + [k + 1]) else NextAfter(n, q)
    decreases |q|
  {
    PathSnoc(n, q, k);
    if |q| == 0 {
      assert q + [k] == [k] && [k][1..] == [];
      assert q + [k + 1] == [k + 1];
    } else {
      assert (q + [k])[0] == q[0] && (q + [k])[1..] == q[1..] + [k];
      NextAfterSnoc(n.children[q[0]], q[1..], k);
      assert [q[0]] + (q[1..] + [k + 1]) == q + [k + 1];
    }
  }

  /** The row after a node's subtree is its own row plus the rows it takes. */
  lemma {:induction false} NextAfterRow(n: Node, p: Path)
    requires Shown(n, p) && ValidPath(n, p) && NextAfter(n, p).Some?
    ensures RowsTo(n, NextAfter(n, p).value) == RowsTo(n, p) + Height(At(n, p))
    decreases |p|
  {
    var c := n.children[p[0]];
    match NextAfter(c, p[1..])
    case Some(t) =>
      NextAfterRow(c, p[1..]);
      assert ([p[0]] + t)[0] == p[0] && ([p[0]] + t)[1..] == t;
    case None =>
      NoNextIsBottom(c, p[1..]);
      SumHeightsSnoc(n.children, p[0]);
  }

  /** When nothing follows the node at p inside n, its subtree ends n's rows. */
  lemma {:induction false} NoNextIsBottom(n: Node, p: Path)
    requires Shown(n, p) && ValidPath(n, p) && NextAfter(n, p).None?
    ensures RowsTo(n, p) + Height(At(n, p)) - 1 == Height(n)
    decreases |p|
  {
    if |p| > 0 {
      var c := n.children[p[0]];
      NoNextIsBottom(c, p[1..]);
      assert n.children[..p[0] + 1] == n.children;
      SumHeightsSnoc(n.children, p[0]);
    }
  }

  /** A shown node with nothing after it and no open children is the leaf of
      n: the last row is unique. */
  lemma {:induction false} NoNextIsLeaf(n: Node, p: Path)
    requires Shown(n, p) && ValidPath(n, p) && NextAfter(n, p).None?
    requires !(At(n, p).expanded && |At(n, p).children| > 0)
    ensures p == LeafPath(n)
    decreases |p|
  {
    if |p| > 0 {
      var c := n.children[p[0]];
      NoNextIsLeaf(c, p[1..]);
      assert p == [p[0]] + p[1..];
    }
  }

  /** parent_next: moves on the index of the parent when it has a child
      after its index and selects that child, else tries again one level up;
      returns the node itself when its parent is the root and has no such
      child. */
  function ParentNext(root: Node, p: Path): (r: (Node, Path))
    requires ValidPath(root, p) && |p| > 0 && IndexesOk(root)
    ensures ValidPath(r.0, r.1) && |r.1| > 0 && IndexesOk(r.0) && Congruent(root, r.0)
    ensures r.0.expanded == root.expanded
    decreases |p|
  {
    ParentValid(root, p);
    var q := Parent(p);
    var parent := At(root, q);
    if parent.index + 1 < |parent.children| then
      var m := parent.(index := parent.index + 1);
      AtIndexesOk(root, q);
      ReplaceIndexesOk(root, q, m);
      CongruentRefl(parent);
      ReplaceCongruent(root, q, m);
      var root' := Replace(root, q, m);
      PathSnoc(root', q, parent.index + 1);
      (root', q + [parent.index + 1])
    else if |q| > 0 then ParentNext(root, q)
    else
      CongruentRefl(root);
      (root, p)
  }

  /** Replacing a node by one of the same shape keeps the tree's shape. */
  lemma {:induction false} ReplaceCongruent(n: Node, p: Path, m: Node)
    requires ValidPath(n, p) && Congruent(At(n, p), m)
    ensures Congruent(n, Replace(n, p, m))
    decreases |p|
  {
    if |p| > 0 {
      ReplaceCongruent(n.children[p[0]], p[1..], m);
      var r := Replace(n, p, m);
      forall i | 0 <= i < |n.children|
        ensures Congruent(n.children[i], r.children[i])
      {
        if i != p[0] {
          CongruentRefl(n.children[i]);
        }
      }
    }
  }

  /** While the indexes track the path, parent_next selects the row after
      the node's subtree; when there is none it climbs to the node's
      top-level ancestor. */
  lemma {:induction false} ParentNextTracked(root: Node, p: Path)
    requires ValidPath(root, p) && Tracked(root, p) && |p| > 0 && IndexesOk(root)
    ensures ParentNext(root, p).1 ==
              match NextAfter(root, p) case Some(t) => t case None => [p[0]]
    decreases |p|
  {
    ParentValid(root, p);
    var q, k := Parent(p), Last(p);
    assert p == q + [k];
    TrackedSnoc(root, q, k);
    NextAfterSnoc(root, q, k);
    if k + 1 >= |At(root, q).children| && |q| > 0 {
      ParentNextTracked(root, q);
      assert q[0] == p[0];
    }
  }
}
