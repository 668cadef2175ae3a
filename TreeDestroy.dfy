/** treeview_node_destroy and node_children_destroy: a node's children are
    destroyed, first to last, before the node itself is handed to its
    free_cb and freed. The model records the order in which nodes are freed,
    each named by its path below the node being destroyed. */
module TreeDestroy {
  import opened TreeModel

  /** The paths of s, each below child k. */
  function Under(k: nat, s: seq<Path>): (r: seq<Path>)
    ensures |r| == |s|
    ensures forall i :: 0 <= i < |s| ==> r[i] == [k] + s[i]
  {
    seq(|s|, i requires 0 <= i < |s| => [k] + s[i])
  }

  /** The order in which destroying n frees the nodes of its subtree. */
  function DestroyOrder(n: Node): seq<Path>
    decreases n, 1
  {
    ChildrenDestroyOrder(n.children) + [[]]
  }

  /** The order of node_children_destroy's loop over the children cs. */
  function ChildrenDestroyOrder(cs: seq<Node>): seq<Path>
    decreases cs, 0
  {
    if cs == [] then []
    else ChildrenDestroyOrder(cs[..|cs| - 1]) + Under(|cs| - 1, DestroyOrder(cs[|cs| - 1]))
  }

  predicate StrictPrefix(a: Path, b: Path)
  {
    |a| < |b| && b[..|a|] == a
  }

  /** No node is freed twice, and no node is freed before a node below it. */
  predicate ChildrenFirst(r: seq<Path>)
  {
    forall i, j :: 0 <= i < j < |r| ==> r[i] != r[j] && !StrictPrefix(r[i], r[j])
  }

  /** The loop of node_children_destroy inside treeview_node_destroy. */
  method Destroy(n: Node) returns (freed: seq<Path>)
    ensures freed == DestroyOrder(n)
    decreases n
  {
    freed := [];
    for i := 0 to |n.children|
      invariant freed == ChildrenDestroyOrder(n.children[..i])
    {
      var sub := Destroy(n.children[i]);
      assert n.children[..i + 1][..i] == n.children[..i];
      freed := freed + Under(i, sub);
    }
    assert n.children[..|n.children|] == n.children;
    freed := freed + [[]];
  }

  /** Destroying a node frees exactly the nodes of its subtree, each once,
      every node after all the nodes below it, and the node itself last. */
  lemma {:induction false} DestroyOrderFreesSubtree(n: Node)
    ensures var r := DestroyOrder(n);
            (forall i :: 0 <= i < |r| ==> ValidPath(n, r[i]))
            && (forall p :: ValidPath(n, p) ==> p in r)
            && ChildrenFirst(r) && r[|r| - 1] == []
    decreases n, 1
  {
    var c := ChildrenDestroyOrder(n.children);
    var r := DestroyOrder(n);
    ChildrenDestroyOrderFrees(n.children);
    forall i | 0 <= i < |r|
      ensures ValidPath(n, r[i])
    {
      if i < |c| {
        assert r[i] == c[i];
      }
    }
    forall p | ValidPath(n, p)
      ensures p in r
    {
      if |p| > 0 {
        assert [p[0]] + p[1..] == p;
      } else {
        assert r[|r| - 1] == p;
      }
    }
  }

  /** The loop over the children frees, child by child, each child's
      subtree in the order destroying that child frees it. */
  lemma {:induction false} ChildrenDestroyOrderFrees(cs: seq<Node>)
    ensures var r := ChildrenDestroyOrder(cs);
            (forall i :: 0 <= i < |r| ==>
               |r[i]| > 0 && r[i][0] < |cs| && ValidPath(cs[r[i][0]], r[i][1..]))
            && (forall k, q :: 0 <= k < |cs| && ValidPath(cs[k], q) ==> [k] + q in r)
            && ChildrenFirst(r)
    decreases cs, 0
  {
    if cs != [] {
      var k := |cs| - 1;
      var init := cs[..k];
      var a := ChildrenDestroyOrder(init);
      var d := DestroyOrder(cs[k]);
      var b := Under(k, d);
      var r := a + b;
      ChildrenDestroyOrderFrees(init);
      DestroyOrderFreesSubtree(cs[k]);
      forall i | 0 <= i < |r|
        ensures |r[i]| > 0 && r[i][0] < |cs| && ValidPath(cs[r[i][0]], r[i][1..])
      {
        if i < |a| {
          assert r[i] == a[i] && init[a[i][0]] == cs[a[i][0]];
        } else {
          assert r[i] == [k] + d[i - |a|] && r[i][1..] == d[i - |a|];
        }
      }
      forall k', q | 0 <= k' < |cs| && ValidPath(cs[k'], q)
        ensures [k'] + q in r
      {
        if k' < k {
          assert init[k'] == cs[k'];
        } else {
          var m :| 0 <= m < |d| && d[m] == q;
          assert r[|a| + m] == [k] + q;
        }
      }
      UnderChildrenFirst(k, d);
      BlocksChildrenFirst(a, b, k);
    }
  }

  /** Putting the same first position in front of every path keeps the
      order children-first. */
  lemma UnderChildrenFirst(k: nat, d: seq<Path>)
    requires ChildrenFirst(d)
    ensures ChildrenFirst(Under(k, d))
  {
    var b := Under(k, d);
    forall i, j | 0 <= i < j < |b|
      ensures b[i] != b[j] && !StrictPrefix(b[i], b[j])
    {
      var x, y := d[i], d[j];
      assert b[i][1..] == x && b[j][1..] == y;
    }
  }

  /** Paths below earlier children, then paths below child k: no path of
      the second run equals or lies below one of the first. */
  lemma BlocksChildrenFirst(a: seq<Path>, b: seq<Path>, k: nat)
    requires ChildrenFirst(a) && ChildrenFirst(b)
    requires forall i :: 0 <= i < |a| ==> |a[i]| > 0 && a[i][0] < k
    requires forall j :: 0 <= j < |b| ==> |b[j]| > 0 && b[j][0] == k
    ensures ChildrenFirst(a + b)
  {
    var r := a + b;
    forall i, j | 0 <= i < j < |r|
      ensures r[i] != r[j] && !StrictPrefix(r[i], r[j])
    {
      if j < |a| {
        assert r[i] == a[i] && r[j] == a[j];
      } else if i < |a| {
        assert r[i] == a[i] && r[j] == b[j - |a|];
      } else {
        assert r[i] == b[i - |a|] && r[j] == b[j - |a|];
      }
    }
  }
}
