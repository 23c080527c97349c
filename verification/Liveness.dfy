/** Which nodes vfs.c reads, and that none of them has been freed. */
module Liveness {
  import opened FileNode
  import opened FileTree
  import opened TreeOps
  import opened FileOps

  /** The nodes a search of directory d reads: d and the chain of its children */
  ghost predicate Listable(t: Tree, live: set<Node>, d: Node) {
    d in live && forall k :: k in Kids(t, d) ==> k in live
  }

  ghost predicate AncestorLive(t: Tree, live: set<Node>, n: Node, a: Node) {
    Inside(t, n, a) ==> a in live
  }

  lemma {:induction false} InsideParent(t: Tree, n: Node, a: Node)
    requires Inside(t, n, a) && Depth(t, Up(t, a)) < Depth(t, a)
    ensures Inside(t, n, Up(t, a))
    decreases Depth(t, n)
  {
    if n != a {
      InsideParent(t, Up(t, n), a);
    }
  }

  /** The nodes is_protected reads: the chains of / and /home, and the ancestors of n */
  ghost predicate Readable(t: Tree, live: set<Node>, n: Node) {
    match t
    case Tree(at, root, _, _, _) =>
      && Listable(t, live, root) && (Home(t) != null ==> Listable(t, live, Home(t)))
      && forall a {:trigger AncestorLive(t, live, n, a)} :: a in at ==> AncestorLive(t, live, n, a)
  }

  lemma SoundListable(t: Tree, d: Node)
    requires Sound(t) && d in t.at
    ensures Listable(t, t.nodes, d)
  {
    assert OwnedAt(t, d) && Linked(t, d);
    forall k | k in Kids(t, d)
      ensures k in t.nodes
    {
      assert ChildOf(t, k, d) && OwnedAt(t, k);
    }
  }

  /** In a sound tree all of them are allocated. */
  lemma SoundReadable(t: Tree, n: Node)
    requires Sound(t) && n in t.at
    ensures Readable(t, t.nodes, n)
  {
    SoundListable(t, t.root);
    if Home(t) != null {
      FindChildInTree(t, t.root, "home");
      SoundListable(t, Home(t));
    }
    forall a | a in t.at
      ensures AncestorLive(t, t.nodes, n, a)
    {
      assert OwnedAt(t, a);
    }
  }

  lemma ReadableAnyway(t: Tree, u: Tree, live: set<Node>, n: Node)
    requires Readable(t, live, n) && u.at == t.at && u.root == t.root
    ensures Readable(u, live, n)
  {
    FindInSame(t, u, Kids(t, t.root), "home");
    forall a | a in u.at
      ensures AncestorLive(u, live, n, a)
    {
      InsideAnyway(t, u, n, a);
      assert AncestorLive(t, live, n, a);
    }
  }

  // ---------- while a subtree is being freed ----------

  ghost predicate NeededAt(t: Tree, live: set<Node>, top: Node, n: Node, m: Node) {
    !Inside(t, m, top) || Inside(t, n, m) ==> m in live
  }

  /** Below the detached node `top` rm_recursive has come to n: what is outside, and what is above n, is allocated. */
  ghost predicate Around(t: Tree, live: set<Node>, top: Node, n: Node) {
    match t
    case Tree(at, root, _, _, _) =>
      && top in at && top != root && top !in Kids(t, Up(t, top))
      && forall m {:trigger NeededAt(t, live, top, n, m)} :: m in at ==> NeededAt(t, live, top, n, m)
  }

  /** So it is when nothing has been freed. */
  lemma DetachedAround(t: Tree, top: Node)
    requires Sound(t) && top in t.at && top != t.root && Up(t, top) in t.at
    ensures var d := Detach(t, top); Around(d, d.nodes, top, top) && Subtree(d, top) <= d.nodes
  {
    var d := Detach(t, top);
    assert Linked(t, Up(t, top));
    WithoutKeeps(Kids(t, Up(t, top)), top);
    assert Up(d, top) == Up(t, top);
    forall m | m in d.at
      ensures NeededAt(d, d.nodes, top, top, m) && m in d.nodes
    {
      assert OwnedAt(t, m);
    }
  }

  /** The chain of a directory outside the detached subtree is outside it too. */
  lemma OutsideListable(t: Tree, live: set<Node>, top: Node, n: Node, d: Node)
    requires Loose(t, top) && Around(t, live, top, n) && d in t.at && !Inside(t, d, top)
    ensures Listable(t, live, d)
  {
    assert NeededAt(t, live, top, n, d) && LooseAt(t, top, d);
    forall k | k in Kids(t, d)
      ensures k in live
    {
      assert ChildOf(t, k, d) && k != top && NeededAt(t, live, top, n, k);
    }
  }

  /** Then is_protected reads no freed node. */
  lemma AroundReadable(t: Tree, live: set<Node>, top: Node, n: Node)
    requires Loose(t, top) && Around(t, live, top, n) && n in t.at
    ensures Readable(t, live, n)
  {
    OutsideListable(t, live, top, n, t.root);
    var home := Home(t);
    if home != null {
      FoundIn(t, Kids(t, t.root), "home");
      assert LooseAt(t, top, t.root) && ChildOf(t, home, t.root) && home != top;
      OutsideListable(t, live, top, n, home);
    }
    forall a | a in t.at
      ensures AncestorLive(t, live, n, a)
    {
      assert NeededAt(t, live, top, n, a);
    }
  }

  lemma {:induction false} FoundIn(t: Tree, ks: seq<Node>, name: string)
    ensures FindIn(t, ks, name) != null ==> FindIn(t, ks, name) in ks
    decreases |ks|
  {
    if ks != [] && !Named(t, ks[0], name) {
      FoundIn(t, ks[1..], name);
    }
  }

  /** The step to a child of n */
  lemma AroundChild(t: Tree, live: set<Node>, top: Node, n: Node, k: Node)
    requires Loose(t, top) && Around(t, live, top, n) && n in t.at && k in Kids(t, n) && k in live
    ensures Around(t, live, top, k)
  {
    ChildInside(t, top, n, k);
    assert LooseAt(t, top, n) && ChildOf(t, k, n);
    forall m | m in t.at
      ensures NeededAt(t, live, top, k, m)
    {
      assert NeededAt(t, live, top, n, m);
    }
  }

  /** Freeing the subtrees of the first i children of n takes nothing of what is still read. */
  lemma AroundKept(t: Tree, live: set<Node>, top: Node, n: Node, i: nat)
    requires Loose(t, top) && Around(t, live, top, n) && n in t.at && Inside(t, n, top) && i <= |Kids(t, n)|
    ensures Around(t, live - Subtrees(t, Kids(t, n), i), top, n)
  {
    var ks := Kids(t, n);
    var gone := Subtrees(t, ks, i);
    forall m | m in t.at
      ensures NeededAt(t, live - gone, top, n, m)
    {
      assert NeededAt(t, live, top, n, m);
      if m in gone {
        InSubtrees(t, ks, i, m);
        var j :| 0 <= j < i && m in Subtree(t, ks[j]);
        BelowChild(t, top, n, ks[j], m);
      }
    }
  }

  lemma BelowChild(t: Tree, top: Node, n: Node, k: Node, m: Node)
    requires Loose(t, top) && n in t.at && Inside(t, n, top) && k in Kids(t, n) && Inside(t, m, k)
    ensures Inside(t, m, top) && !Inside(t, n, m)
  {
    ChildInside(t, top, n, k);
    InsideTrans(t, m, k, n);
    InsideTrans(t, m, n, top);
    InsideDepth(t, m, k);
    if Inside(t, n, m) {
      InsideDepth(t, n, m);
    }
  }

  /** The next child is still there as a whole. */
  lemma ChildLive(t: Tree, live: set<Node>, top: Node, n: Node, i: nat)
    requires Loose(t, top) && n in t.at && i < |Kids(t, n)| && Subtree(t, n) <= live
    ensures Subtree(t, Kids(t, n)[i]) <= live - Subtrees(t, Kids(t, n), i)
    ensures Kids(t, n)[i] in Subtree(t, Kids(t, n)[i])
  {
    var k := Kids(t, n)[i];
    ChildInside(t, top, n, k);
    SubtreesApart(t, top, n, i);
    forall m | m in Subtree(t, k)
      ensures m in live
    {
      InsideTrans(t, m, k, n);
    }
  }
}
