/** The changes that vfs.c makes to the tree, and what they keep. */
module TreeOps {
  import opened FileNode
  import opened FileTree

  // ---------- chains ----------

  function Without(ks: seq<Node>, n: Node): seq<Node> {
    if ks == [] then [] else if ks[0] == n then ks[1..] else [ks[0]] + Without(ks[1..], n)
  }

  lemma {:induction false} WithoutKeeps(ks: seq<Node>, n: Node)
    requires Distinct(ks)
    ensures Distinct(Without(ks, n)) && forall k :: k in Without(ks, n) <==> k in ks && k != n
  {
    if ks != [] && ks[0] != n {
      WithoutKeeps(ks[1..], n);
      assert Without(ks, n)[1..] == Without(ks[1..], n);
    }
  }

  lemma {:induction false} WithoutAt(ks: seq<Node>, i: nat)
    requires Distinct(ks) && i < |ks|
    ensures Without(ks, ks[i]) == ks[..i] + ks[i + 1..]
  {
    if i > 0 {
      assert ks[i] == ks[1..][i - 1];
      WithoutAt(ks[1..], i - 1);
    }
  }

  lemma {:induction false} DistinctAppend(ks: seq<Node>, n: Node)
    requires Distinct(ks) && n !in ks
    ensures Distinct(ks + [n])
  {
    if ks != [] {
      assert (ks + [n])[1..] == ks[1..] + [n];
      DistinctAppend(ks[1..], n);
    }
  }

  // ---------- a new node at the tail of a chain ----------

  function Append(t: Tree, p: Node, n: Node, name: string, dir: bool): Tree
    requires p in t.at
  {
    var parent := t.at[p];
    t.(at := t.at[p := parent.(kids := parent.kids + [n])][n := Entry(name, dir, null, p, [], parent.depth + 1)],
       nodes := t.nodes + {n})
  }

  lemma AppendLinked(t: Tree, p: Node, n: Node, name: string, dir: bool, m: Node)
    requires IsTree(t) && IsDir(t, p) && n !in t.at && (m in t.at || m == n)
    ensures Linked(Append(t, p, n, name, dir), m)
  {
    var t' := Append(t, p, n, name, dir);
    assert Linked(t, p);
    if m != n {
      assert Linked(t, m);
      assert Linked(t, Up(t, m));
    }
    assert Hangs(t', m);
    if m == p {
      DistinctAppend(t.at[p].kids, n);
    }
  }

  lemma AppendIsTree(t: Tree, p: Node, n: Node, name: string, dir: bool)
    requires IsTree(t) && IsDir(t, p) && n !in t.at
    ensures IsTree(Append(t, p, n, name, dir))
  {
    forall m | m in Append(t, p, n, name, dir).at
      ensures Linked(Append(t, p, n, name, dir), m)
    {
      AppendLinked(t, p, n, name, dir, m);
    }
  }

  lemma AppendOwned(t: Tree, p: Node, n: Node, name: string, dir: bool)
    requires Owned(t) && p in t.at && n !in t.at
    ensures Owned(Append(t, p, n, name, dir))
    ensures NoLeak(t) ==> NoLeak(Append(t, p, n, name, dir))
  {
    var t' := Append(t, p, n, name, dir);
    forall m | m in t'.at
      ensures OwnedAt(t', m)
    {
      assert m != n ==> OwnedAt(t, m);
    }
    forall m, k | m in t'.at && k in t'.at
      ensures Apart(t', m, k)
    {
      assert m != n && k != n ==> Apart(t, m, k);
    }
    if NoLeak(t) {
      forall b | b in t'.buffers
        ensures InUse(t', b)
      {
        var m :| m in t.at && t.at[m].data == b;
        assert m in t'.at && t'.at[m].data == b;
      }
    }
  }

  // ---------- a subtree taken out ----------

  ghost function Subtree(t: Tree, n: Node): set<Node> {
    set m | m in t.at && Inside(t, m, n)
  }

  ghost function BuffersOf(t: Tree, s: set<Node>): set<Buffer> {
    set b | b in t.buffers && exists m :: m in s && m in t.at && t.at[m].data == b
  }

  /** The subtree of n is taken out of its parent's chain; a working directory in it becomes the root. */
  ghost function Unlink(t: Tree, n: Node): Tree {
    var p := Up(t, n);
    t.(at := map m | m in t.at && !Inside(t, m, n) ::
               if m == p then t.at[m].(kids := Without(t.at[m].kids, n)) else t.at[m],
       cur := if Inside(t, t.cur, n) then t.root else t.cur)
  }

  /** ... and its nodes and buffers are freed. */
  ghost function Prune(t: Tree, n: Node): Tree {
    var gone := Subtree(t, n);
    Unlink(t, n).(nodes := t.nodes - gone, buffers := t.buffers - BuffersOf(t, gone))
  }

  lemma UnlinkHangs(t: Tree, n: Node, m: Node)
    requires IsTree(t) && n in t.at && n != t.root && m in t.at && !Inside(t, m, n)
    ensures Hangs(Unlink(t, n), m)
  {
    assert Linked(t, m) && Linked(t, Up(t, m));
    WithoutKeeps(t.at[Up(t, m)].kids, n);
  }

  lemma UnlinkHeads(t: Tree, n: Node, m: Node)
    requires IsTree(t) && n in t.at && n != t.root && m in t.at && !Inside(t, m, n)
    ensures Heads(Unlink(t, n), m)
  {
    var t' := Unlink(t, n);
    assert Linked(t, m) && Linked(t, n);
    WithoutKeeps(t.at[m].kids, n);
    forall k | k in t'.at[m].kids
      ensures ChildOf(t', k, m)
    {
      assert ChildOf(t, k, m);
    }
  }

  lemma UnlinkIsTree(t: Tree, n: Node)
    requires IsTree(t) && n in t.at && n != t.root
    ensures IsTree(Unlink(t, n))
  {
    RootStays(t, n);
    assert Linked(t, n);
    forall m | m in Unlink(t, n).at
      ensures Linked(Unlink(t, n), m)
    {
      UnlinkHangs(t, n, m);
      UnlinkHeads(t, n, m);
    }
  }

  /** Being a tree has nothing to do with the working directory or with what is allocated. */
  lemma TreeAnyway(t: Tree, u: Tree)
    requires IsTree(t) && u.at == t.at && u.root == t.root && IsDir(t, u.cur)
    ensures IsTree(u)
  {
    forall n | n in u.at
      ensures Linked(u, n)
    {
      assert Linked(t, n);
    }
  }

  /** Fewer nodes, with the same data, are owned if their memory has not been freed. */
  lemma OwnedStill(t: Tree, u: Tree)
    requires Owned(t)
    requires forall m :: m in u.at ==> m in t.at && u.at[m].data == t.at[m].data && (m in t.nodes ==> m in u.nodes)
    requires forall m :: m in u.at && u.at[m].data != null && u.at[m].data in t.buffers ==> u.at[m].data in u.buffers
    ensures Owned(u)
  {
    forall m | m in u.at
      ensures OwnedAt(u, m)
    {
      assert OwnedAt(t, m);
    }
    forall m, k | m in u.at && k in u.at
      ensures Apart(u, m, k)
    {
      assert Apart(t, m, k);
    }
  }

  lemma OwnedAnyway(t: Tree, u: Tree)
    requires Owned(t) && u.at == t.at && u.nodes == t.nodes && u.buffers == t.buffers
    ensures Owned(u) && (NoLeak(t) ==> NoLeak(u))
  {
    OwnedStill(t, u);
    forall b | NoLeak(t) && b in u.buffers
      ensures InUse(u, b)
    {
      var n :| n in t.at && t.at[n].data == b;
      assert n in u.at && u.at[n].data == b;
    }
  }

  lemma RootStays(t: Tree, n: Node)
    requires IsTree(t) && n != t.root
    ensures !Inside(t, t.root, n)
  {
    assert Linked(t, t.root);
  }

  lemma UnlinkOwned(t: Tree, n: Node)
    requires Owned(t)
    ensures Owned(Unlink(t, n))
  {
    OwnedStill(t, Unlink(t, n));
  }

  /** Freeing the subtree leaves no other node without its memory, and nothing behind. */
  lemma PruneOwned(t: Tree, n: Node)
    requires Owned(t)
    ensures Owned(Prune(t, n)) && (NoLeak(t) ==> NoLeak(Prune(t, n)))
  {
    var t' := Prune(t, n);
    forall m, k | m in t'.at && k in Subtree(t, n)
      ensures t.at[m].data != null ==> t.at[m].data != t.at[k].data
    {
      assert Apart(t, m, k);
    }
    OwnedStill(t, t');
    if NoLeak(t) {
      forall b | b in t'.buffers
        ensures InUse(t', b)
      {
        var m :| m in t.at && t.at[m].data == b;
        assert m in t'.at && t'.at[m].data == b;
      }
    }
  }

  /** What rm_r frees: every node of the subtree and every buffer in it but one of n itself. */
  ghost function Cut(t: Tree, n: Node): Tree {
    var gone := Subtree(t, n);
    Unlink(t, n).(nodes := t.nodes - gone, buffers := t.buffers - BuffersOf(t, gone - {n}))
  }

  lemma CutOwned(t: Tree, n: Node)
    requires Owned(t) && n in t.at
    ensures Owned(Cut(t, n))
    ensures NoLeak(t) ==> (NoLeak(Cut(t, n)) <==> t.at[n].data == null)
  {
    var t' := Cut(t, n);
    forall m, k | m in t'.at && k in Subtree(t, n)
      ensures t.at[m].data != null ==> t.at[m].data != t.at[k].data
    {
      assert Apart(t, m, k);
    }
    OwnedStill(t, t');
    assert OwnedAt(t, n);
    if NoLeak(t) && t.at[n].data == null {
      PruneOwned(t, n);
      assert BuffersOf(t, Subtree(t, n) - {n}) == BuffersOf(t, Subtree(t, n));
      assert t' == Prune(t, n);
    } else if NoLeak(t) {
      var b: Buffer := t.at[n].data;
      forall m | m in t.at && m != n
        ensures t.at[m].data != b
      {
        assert Apart(t, n, m);
      }
      assert b in t'.buffers && !InUse(t', b);
    }
  }

  // ---------- a new buffer ----------

  /** The buffer b takes the place of what n held, which is freed. */
  function SetData(t: Tree, n: Node, b: Buffer): Tree
    requires n in t.at
  {
    t.(at := t.at[n := t.at[n].(data := b)], buffers := (set x | x in t.buffers && x != t.at[n].data) + {b})
  }

  lemma SetDataIsTree(t: Tree, n: Node, b: Buffer)
    requires IsTree(t) && n in t.at && !IsDir(t, n)
    ensures IsTree(SetData(t, n, b))
  {
    var t' := SetData(t, n, b);
    forall m | m in t'.at
      ensures Linked(t', m)
    {
      assert Linked(t, m);
      forall k | k in t'.at[m].kids
        ensures ChildOf(t', k, m)
      {
        assert ChildOf(t, k, m);
      }
    }
  }

  lemma SetDataOwned(t: Tree, n: Node, b: Buffer)
    requires Owned(t) && n in t.at && b !in t.buffers
    ensures Owned(SetData(t, n, b)) && (NoLeak(t) ==> NoLeak(SetData(t, n, b)))
  {
    var t' := SetData(t, n, b);
    forall m | m in t'.at
      ensures OwnedAt(t', m)
    {
      assert OwnedAt(t, m) && Apart(t, m, n);
    }
    forall m, k | m in t'.at && k in t'.at
      ensures Apart(t', m, k)
    {
      assert Apart(t, m, k) && OwnedAt(t, m) && OwnedAt(t, k);
    }
    if NoLeak(t) {
      forall x | x in t'.buffers
        ensures InUse(t', x)
      {
        if x == b {
          assert n in t'.at && t'.at[n].data == x;
        } else {
          var m :| m in t.at && t.at[m].data == x;
          assert m in t'.at && t'.at[m].data == x;
        }
      }
    }
  }

  // ---------- a subtree moved ----------

  ghost function MovedEntry(t: Tree, n: Node, p: Node, name: string, m: Node): Entry
    requires m in t.at
  {
    var e := t.at[m];
    var kids := if m == Up(t, n) then Without(e.kids, n) else e.kids;
    Entry(if m == n then name else e.name, e.dir, e.data, if m == n then p else e.up,
          if m == p then [n] + kids else kids,
          if Inside(t, m, n) && Depth(t, n) <= e.depth then e.depth - Depth(t, n) + Depth(t, p) + 1 else e.depth)
  }

  /** Node n leaves its parent's chain, takes a name, and becomes the first child of p. */
  ghost function MoveTo(t: Tree, n: Node, p: Node, name: string): Tree {
    t.(at := map m | m in t.at :: MovedEntry(t, n, p, name, m))
  }

  lemma MoveHangs(t: Tree, n: Node, p: Node, name: string, m: Node)
    requires IsTree(t) && n in t.at && n != t.root && p in t.at && !Inside(t, p, n) && m in t.at
    ensures Hangs(MoveTo(t, n, p, name), m)
  {
    assert Linked(t, m) && Linked(t, n) && Linked(t, Up(t, m));
    WithoutKeeps(t.at[Up(t, m)].kids, n);
    RootStays(t, n);
    if Inside(t, m, n) {
      InsideDepth(t, m, n);
      if m != n {
        InsideDepth(t, Up(t, m), n);
      }
    }
  }

  lemma MoveHeads(t: Tree, n: Node, p: Node, name: string, m: Node)
    requires IsTree(t) && n in t.at && n != t.root && IsDir(t, p) && m in t.at
    ensures Heads(MoveTo(t, n, p, name), m)
  {
    var t' := MoveTo(t, n, p, name);
    assert Linked(t, m) && Linked(t, n);
    var kids := if m == Up(t, n) then Without(t.at[m].kids, n) else t.at[m].kids;
    WithoutKeeps(t.at[m].kids, n);
    assert n !in kids by {
      if n in t.at[m].kids {
        assert ChildOf(t, n, m);
      }
    }
    if m == p {
      assert ([n] + kids)[1..] == kids;
    }
    forall k | k in t'.at[m].kids
      ensures ChildOf(t', k, m)
    {
      if k in kids {
        assert ChildOf(t, k, m);
      }
    }
  }

  lemma MoveIsTree(t: Tree, n: Node, p: Node, name: string)
    requires IsTree(t) && n in t.at && n != t.root && IsDir(t, p) && !Inside(t, p, n)
    ensures IsTree(MoveTo(t, n, p, name))
  {
    var t' := MoveTo(t, n, p, name);
    assert Linked(t, t.root);
    forall m | m in t'.at
      ensures Linked(t', m)
    {
      MoveHangs(t, n, p, name, m);
      MoveHeads(t, n, p, name, m);
    }
  }

  lemma MoveOwned(t: Tree, n: Node, p: Node, name: string)
    requires Owned(t)
    ensures Owned(MoveTo(t, n, p, name)) && (NoLeak(t) ==> NoLeak(MoveTo(t, n, p, name)))
  {
    var t' := MoveTo(t, n, p, name);
    OwnedStill(t, t');
    forall b | NoLeak(t) && b in t.buffers
      ensures InUse(t', b)
    {
      var m :| m in t.at && t.at[m].data == b;
      assert m in t'.at && t'.at[m].data == b;
    }
  }

  /** The same nodes with the same links; only the levels may differ. */
  ghost predicate SameLinks(t: Tree, u: Tree) {
    && u.root == t.root && u.at.Keys == t.at.Keys
    && forall m :: m in t.at ==> u.at[m] == t.at[m].(depth := u.at[m].depth)
  }

  lemma {:induction false} BelowMoved(t: Tree, n: Node, p: Node, name: string, u: Tree, m: Node)
    requires IsTree(t) && n in t.at && n != t.root && m in t.at && Inside(t, m, n)
    requires SameLinks(MoveTo(t, n, p, name), u) && IsTree(u)
    ensures Depth(u, n) <= Depth(u, m)
    decreases Depth(t, m)
  {
    if m != n {
      assert Linked(t, m) && Linked(u, m);
      RootStays(t, n);
      BelowMoved(t, n, p, name, u, Up(t, m));
    }
  }

  /** Some assignment of levels makes it a tree again exactly when the directory is not in the moved subtree. */
  lemma MoveShape(t: Tree, n: Node, p: Node, name: string)
    requires IsTree(t) && n in t.at && n != t.root && IsDir(t, p)
    ensures (exists u :: SameLinks(MoveTo(t, n, p, name), u) && IsTree(u)) <==> !Inside(t, p, n)
  {
    var t' := MoveTo(t, n, p, name);
    if !Inside(t, p, n) {
      MoveIsTree(t, n, p, name);
      assert SameLinks(t', t');
    }
    forall u | SameLinks(t', u) && IsTree(u)
      ensures !Inside(t, p, n)
    {
      assert Linked(u, n);
      if Inside(t, p, n) {
        BelowMoved(t, n, p, name, u, p);
      }
    }
  }

  // ---------- the tree while a subtree is being removed ----------

  /** The parent of n is one level above it. */
  predicate Climbs(t: Tree, n: Node)
    requires n in t.at
  {
    t.at[n].up in t.at && (n != t.root ==> t.at[n].depth == t.at[t.at[n].up].depth + 1)
  }

  predicate LooseAt(t: Tree, top: Node, n: Node)
    requires n in t.at
  {
    Heads(t, n) && Climbs(t, n) && (n == top || Hangs(t, n))
  }

  /** A tree but for one node, which need not be in its parent's chain. */
  predicate Loose(t: Tree, top: Node) {
    && t.root in t.at && t.at[t.root].up == t.root
    && forall n {:trigger LooseAt(t, top, n)} :: n in t.at ==> LooseAt(t, top, n)
  }

  lemma TreeIsLoose(t: Tree, top: Node)
    requires IsTree(t)
    ensures Loose(t, top)
  {
    forall n | n in t.at
      ensures LooseAt(t, top, n)
    {
      assert Linked(t, n);
    }
  }

  /** Node n is out of its parent's chain, and nothing else has changed. */
  ghost function Detach(t: Tree, n: Node): Tree
    requires n in t.at && Up(t, n) in t.at
  {
    var p := t.at[n].up;
    t.(at := t.at[p := t.at[p].(kids := Without(t.at[p].kids, n))])
  }

  lemma DetachIsLoose(t: Tree, n: Node)
    requires IsTree(t) && n in t.at && n != t.root
    ensures Up(t, n) in t.at && Loose(Detach(t, n), n)
  {
    assert Linked(t, n) && Linked(t, Up(t, n));
    var t' := Detach(t, n);
    WithoutKeeps(t.at[Up(t, n)].kids, n);
    forall m | m in t'.at
      ensures LooseAt(t', n, m)
    {
      assert Linked(t, m);
      forall k | k in t'.at[m].kids
        ensures ChildOf(t', k, m)
      {
        assert ChildOf(t, k, m);
      }
    }
  }

  /** Taking a node out of its chain moves nobody below or above anybody. */
  lemma {:induction false} DetachInside(t: Tree, n: Node, m: Node, a: Node)
    requires n in t.at && Up(t, n) in t.at
    ensures Inside(Detach(t, n), m, a) == Inside(t, m, a)
    decreases Depth(t, m)
  {
    if m != a && Depth(t, Up(t, m)) < Depth(t, m) {
      DetachInside(t, n, Up(t, m), a);
    }
  }

  /** A node without children is its whole subtree. */
  lemma {:induction false} LeafSubtree(t: Tree, top: Node, n: Node, m: Node)
    requires Loose(t, top) && n in t.at && m in t.at && Inside(t, n, top) && Inside(t, m, n) && t.at[n].kids == []
    ensures m == n
    decreases Depth(t, m)
  {
    if m != n {
      assert LooseAt(t, top, m);
      LeafSubtree(t, top, n, Up(t, m));
      assert m == top;
      InsideDepth(t, m, n);
      InsideDepth(t, n, top);
    }
  }

  /** The subtrees of the first i nodes of a chain */
  ghost function Subtrees(t: Tree, ks: seq<Node>, i: nat): set<Node>
    requires i <= |ks|
  {
    if i == 0 then {} else Subtrees(t, ks, i - 1) + Subtree(t, ks[i - 1])
  }

  lemma {:induction false} InSubtrees(t: Tree, ks: seq<Node>, i: nat, m: Node)
    requires i <= |ks|
    ensures m in Subtrees(t, ks, i) <==> exists j :: 0 <= j < i && m in Subtree(t, ks[j])
  {
    if i > 0 {
      InSubtrees(t, ks, i - 1, m);
    }
  }

  lemma {:induction false} ChildAbove(t: Tree, top: Node, n: Node, m: Node)
    requires Loose(t, top) && n in t.at && m in t.at && Inside(t, n, top) && Inside(t, m, n) && m != n
    ensures exists k :: k in t.at[n].kids && Inside(t, m, k)
    decreases Depth(t, m)
  {
    assert LooseAt(t, top, m);
    if Up(t, m) == n {
      if m == top {
        InsideDepth(t, n, top);
        InsideDepth(t, m, n);
      }
      assert Inside(t, m, m);
    } else {
      ChildAbove(t, top, n, Up(t, m));
    }
  }

  lemma SubtreeSplit(t: Tree, top: Node, n: Node)
    requires Loose(t, top) && n in t.at && Inside(t, n, top)
    ensures Subtree(t, n) - {n} == Subtrees(t, t.at[n].kids, |t.at[n].kids|)
    ensures n in Subtree(t, n)
  {
    var ks := t.at[n].kids;
    assert LooseAt(t, top, n);
    forall m | m in Subtree(t, n) && m != n
      ensures m in Subtrees(t, ks, |ks|)
    {
      ChildAbove(t, top, n, m);
      var k :| k in ks && Inside(t, m, k);
      var j :| 0 <= j < |ks| && ks[j] == k;
      assert m in Subtree(t, ks[j]);
      InSubtrees(t, ks, |ks|, m);
    }
    forall m | m in Subtrees(t, ks, |ks|)
      ensures m in Subtree(t, n) && m != n
    {
      InSubtrees(t, ks, |ks|, m);
      var j :| 0 <= j < |ks| && m in Subtree(t, ks[j]);
      ChildInside(t, top, n, ks[j]);
      InsideTrans(t, m, ks[j], n);
      InsideDepth(t, m, ks[j]);
    }
  }

  lemma ChildInside(t: Tree, top: Node, n: Node, k: Node)
    requires Loose(t, top) && n in t.at && k in t.at[n].kids
    ensures k in t.at && Inside(t, k, n) && k != n && Depth(t, k) == Depth(t, n) + 1
  {
    assert LooseAt(t, top, n) && ChildOf(t, k, n) && LooseAt(t, top, k);
  }

  lemma {:induction false} DistinctAt(ks: seq<Node>, i: nat, j: nat)
    requires Distinct(ks) && i < j < |ks|
    ensures ks[i] != ks[j]
  {
    if i == 0 {
      assert ks[j] == ks[1..][j - 1];
    } else {
      DistinctAt(ks[1..], i - 1, j - 1);
    }
  }

  /** The subtree of the next child shares no node with the subtrees before it. */
  lemma SubtreesApart(t: Tree, top: Node, n: Node, i: nat)
    requires Loose(t, top) && n in t.at && i < |t.at[n].kids|
    ensures Subtree(t, t.at[n].kids[i]) !! Subtrees(t, t.at[n].kids, i)
  {
    var ks := t.at[n].kids;
    assert LooseAt(t, top, n);
    forall m | m in Subtree(t, ks[i]) && m in Subtrees(t, ks, i)
      ensures false
    {
      InSubtrees(t, ks, i, m);
      var j :| 0 <= j < i && m in Subtree(t, ks[j]);
      DistinctAt(ks, j, i);
      ChildInside(t, top, n, ks[i]);
      ChildInside(t, top, n, ks[j]);
      InsideUnique(t, m, ks[i], ks[j]);
      if Inside(t, ks[i], ks[j]) {
        InsideDepth(t, ks[i], ks[j]);
      } else {
        InsideDepth(t, ks[j], ks[i]);
      }
    }
  }

  lemma BuffersApart(t: Tree, a: set<Node>, b: set<Node>)
    requires Owned(t) && a !! b
    ensures BuffersOf(t, a) !! BuffersOf(t, b) && BuffersOf(t, a + b) == BuffersOf(t, a) + BuffersOf(t, b)
  {
    forall m, k | m in a && k in b && m in t.at && k in t.at
      ensures t.at[m].data != null ==> t.at[m].data != t.at[k].data
    {
      assert Apart(t, m, k);
    }
  }

  lemma LooseAnyway(t: Tree, u: Tree, top: Node)
    requires Loose(t, top) && u.at == t.at && u.root == t.root
    ensures Loose(u, top)
  {
    forall n | n in u.at
      ensures LooseAt(u, top, n)
    {
      assert LooseAt(t, top, n);
    }
  }

  ghost predicate DepthsBelow(t: Tree, bound: nat) {
    forall n :: n in t.at ==> Depth(t, n) < bound
  }

  lemma {:induction false} DepthBound(t: Tree, s: set<Node>) returns (bound: nat)
    ensures forall n :: n in s ==> Depth(t, n) < bound
    decreases s
  {
    if s == {} {
      bound := 0;
    } else {
      var n :| n in s;
      bound := DepthBound(t, s - {n});
      if bound <= Depth(t, n) {
        bound := Depth(t, n) + 1;
      }
    }
  }
}
