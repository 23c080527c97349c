/** vfs_cp_r: the destination becomes a copy of the source, although every step resolves paths in a growing tree. */
module Copying {
  import opened FileNode
  import opened Paths
  import opened FileTree
  import opened TreeOps
  import opened FileOps
  import opened Resolution

  // ---------- one new subtree ----------

  predicate AddedAt(t: Tree, u: Tree, p: Node, made: Node, m: Node)
    requires m in t.at
  {
    m in u.at && u.at[m] == if m == p then t.at[m].(kids := t.at[m].kids + [made]) else t.at[m]
  }

  predicate NewAt(t: Tree, u: Tree, made: Node, m: Node) {
    m in t.at || Inside(u, m, made)
  }

  /** The node made is appended to the chain of p, every other new node is below it, and nothing else has changed. */
  predicate Added(t: Tree, u: Tree, p: Node, made: Node) {
    && u.root == t.root && u.cur == t.cur && p in t.at && made !in t.at && made in u.at && u.at[made].up == p
    && (forall m {:trigger AddedAt(t, u, p, made, m)} :: m in t.at ==> AddedAt(t, u, p, made, m))
    && forall m {:trigger NewAt(t, u, made, m)} :: m in u.at ==> NewAt(t, u, made, m)
  }

  lemma AddedGrows(t: Tree, u: Tree, p: Node, made: Node)
    requires Added(t, u, p, made)
    ensures Grows(t, u)
  {
    forall m | m in t.at
      ensures Kept(t, u, m)
    {
      assert AddedAt(t, u, p, made, m);
    }
  }

  /** Nodes that were there keep their ancestors. */
  lemma {:induction false} AddedInside(t: Tree, u: Tree, p: Node, made: Node, m: Node, a: Node)
    requires IsTree(t) && Added(t, u, p, made) && m in t.at
    ensures Inside(u, m, a) == Inside(t, m, a)
    decreases Depth(t, m)
  {
    assert Linked(t, m) && AddedAt(t, u, p, made, m);
    assert Linked(t, Up(t, m)) && AddedAt(t, u, p, made, Up(t, m));
    if m != a && Depth(t, Up(t, m)) < Depth(t, m) {
      AddedInside(t, u, p, made, Up(t, m), a);
    }
  }

  lemma AddedTrans(t: Tree, u: Tree, v: Tree, p: Node, made: Node, x: Node)
    requires IsTree(u) && IsTree(v) && Added(t, u, p, made) && Added(u, v, made, x)
    ensures Added(t, v, p, made)
  {
    forall m | m in t.at
      ensures AddedAt(t, v, p, made, m)
    {
      assert AddedAt(t, u, p, made, m) && AddedAt(u, v, made, x, m);
    }
    assert AddedAt(u, v, made, x, made);
    forall m | m in v.at
      ensures NewAt(t, v, made, m)
    {
      if m in u.at {
        assert NewAt(t, u, made, m);
        AddedInside(u, v, made, x, m, made);
      } else {
        assert NewAt(u, v, x, m) && Linked(v, x);
        assert Inside(v, x, made);
        InsideTrans(v, m, x, made);
      }
    }
  }

  /** A subtree that does not hold p is the same after the change. */
  lemma AddedSubtree(t: Tree, u: Tree, p: Node, made: Node, k: Node)
    requires IsTree(t) && IsTree(u) && Added(t, u, p, made) && k in t.at && !Inside(t, p, k)
    ensures Subtree(u, k) == Subtree(t, k) && !Inside(u, made, k)
  {
    assert Linked(u, made);
    AddedInside(t, u, p, made, p, k);
    forall m | m in u.at
      ensures Inside(u, m, k) <==> m in t.at && Inside(t, m, k)
    {
      if m in t.at {
        AddedInside(t, u, p, made, m, k);
      } else {
        assert NewAt(t, u, made, m);
        if Inside(u, m, k) {
          InsideUnique(u, m, made, k);
          AddedInside(t, u, p, made, k, made);
          if Inside(t, k, made) {
            InsideInTree(t, k, made);
          }
        }
      }
    }
    assert forall m :: m in t.at ==> AddedAt(t, u, p, made, m);
  }

  lemma CreateAdded(t: Tree, sudo: bool, path: string, dir: bool, n: Node)
    requires IsTree(t) && n !in t.at && Place(t, sudo, path) != null
    ensures Added(t, Create(t, sudo, path, dir, n), Place(t, sudo, path), n)
  {
    var u, p := Create(t, sudo, path, dir, n), Place(t, sudo, path);
    forall m | m in t.at
      ensures AddedAt(t, u, p, n, m)
    {
    }
    forall m | m in u.at
      ensures NewAt(t, u, n, m)
    {
    }
  }

  lemma SetDataAdded(t: Tree, u: Tree, p: Node, made: Node, b: Buffer)
    requires IsTree(u) && Added(t, u, p, made) && Kids(u, made) == []
    requires forall m :: m in u.at ==> m in t.at || m == made
    ensures Added(t, SetData(u, made, b), p, made)
  {
    var v := SetData(u, made, b);
    forall m | m in t.at
      ensures AddedAt(t, v, p, made, m)
    {
      assert AddedAt(t, u, p, made, m);
    }
    forall m | m in v.at
      ensures NewAt(t, v, made, m)
    {
    }
  }

  // ---------- copies ----------

  predicate SameText(a: Buffer?, b: Buffer?) {
    (a == null <==> b == null) && (a != null && b != null ==> a.text == b.text)
  }

  function Image(f: map<Node, Node>, k: Node): Node {
    if k in f then f[k] else k
  }

  function Images(f: map<Node, Node>, ks: seq<Node>): seq<Node> {
    if ks == [] then [] else Images(f, ks[..|ks| - 1]) + [Image(f, ks[|ks| - 1])]
  }

  lemma {:induction false} ImagesSame(f: map<Node, Node>, g: map<Node, Node>, ks: seq<Node>)
    requires forall k :: k in ks ==> Image(f, k) == Image(g, k)
    ensures Images(f, ks) == Images(g, ks)
  {
    if ks != [] {
      ImagesSame(f, g, ks[..|ks| - 1]);
    }
  }

  lemma {:induction false} InImages(f: map<Node, Node>, ks: seq<Node>, x: Node)
    ensures x in Images(f, ks) <==> exists k :: k in ks && Image(f, k) == x
  {
    if ks != [] {
      InImages(f, ks[..|ks| - 1], x);
      assert ks == ks[..|ks| - 1] + [ks[|ks| - 1]];
    }
  }

  /** f takes m to a new node of u with the same type, text and children; of its chain, `ks` is copied. */
  predicate CopyAt(t: Tree, u: Tree, f: map<Node, Node>, m: Node, ks: seq<Node>)
    requires m in t.at && m in f
  {
    && f[m] in u.at && f[m] !in t.at
    && u.at[f[m]].dir == t.at[m].dir && SameText(u.at[f[m]].data, t.at[m].data)
    && u.at[f[m]].kids == Images(f, ks)
  }

  predicate NamedCopyAt(t: Tree, u: Tree, f: map<Node, Node>, m: Node)
    requires m in t.at && m in f
  {
    CopyAt(t, u, f, m, t.at[m].kids) && u.at[f[m]].name == t.at[m].name
  }

  predicate Differ(f: map<Node, Node>, m: Node, k: Node)
    requires m in f && k in f
  {
    m != k ==> f[m] != f[k]
  }

  predicate Injective(f: map<Node, Node>) {
    forall m, k {:trigger Differ(f, m, k)} :: m in f && k in f ==> Differ(f, m, k)
  }

  /** f copies n and the subtrees of its first i children, and the copies are all that is new. */
  ghost predicate PartCopy(t: Tree, u: Tree, n: Node, made: Node, f: map<Node, Node>, i: nat)
    requires n in t.at && i <= |t.at[n].kids|
  {
    && f.Keys == Subtrees(t, t.at[n].kids, i) + {n} && f.Keys <= t.at.Keys && f[n] == made && Injective(f)
    && CopyAt(t, u, f, n, t.at[n].kids[..i])
    && (forall m {:trigger NamedCopyAt(t, u, f, m)} :: m in f && m != n ==> NamedCopyAt(t, u, f, m))
    && u.at.Keys == t.at.Keys + f.Values
  }

  /** f takes the subtree of n to a copy of it: the same types, texts, names below n, and order of children. */
  ghost predicate IsCopy(t: Tree, u: Tree, n: Node, made: Node, f: map<Node, Node>)
    requires n in t.at
  {
    && f.Keys == Subtree(t, n) && f.Keys <= t.at.Keys && f[n] == made && Injective(f)
    && CopyAt(t, u, f, n, t.at[n].kids)
    && (forall m {:trigger NamedCopyAt(t, u, f, m)} :: m in f && m != n ==> NamedCopyAt(t, u, f, m))
    && u.at.Keys == t.at.Keys + f.Values
  }

  lemma PartIsCopy(t: Tree, u: Tree, n: Node, made: Node, f: map<Node, Node>)
    requires IsTree(t) && n in t.at && PartCopy(t, u, n, made, f, |t.at[n].kids|)
    ensures IsCopy(t, u, n, made, f)
  {
    var ks := t.at[n].kids;
    TreeIsLoose(t, t.root);
    InsideRoot(t, n);
    SubtreeSplit(t, t.root, n);
    assert Subtree(t, n) == Subtrees(t, ks, |ks|) + {n};
    assert ks[..|ks|] == ks;
  }

  /** Tree v is tree u, a partial copy, after child i has been copied by g. */
  ghost predicate Step(t: Tree, u: Tree, v: Tree, p: Node, n: Node, made: Node, f: map<Node, Node>, i: nat,
                       g: map<Node, Node>)
    requires n in t.at && i < |t.at[n].kids|
  {
    var k := t.at[n].kids[i];
    && IsTree(t) && IsTree(u) && IsTree(v) && Added(t, u, p, made) && !Inside(t, p, n) && PartCopy(t, u, n, made, f, i)
    && k in u.at && k in g && Added(u, v, made, g[k]) && IsCopy(u, v, k, g[k], g)
    && v.at[g[k]].name == NameOf(t, k)
  }

  lemma StepKeys(t: Tree, u: Tree, v: Tree, p: Node, n: Node, made: Node, f: map<Node, Node>, i: nat,
                 g: map<Node, Node>)
    requires n in t.at && i < |t.at[n].kids| && Step(t, u, v, p, n, made, f, i, g)
    ensures var k := t.at[n].kids[i];
            && k in t.at && Up(t, k) == n && k != n && g.Keys == Subtree(t, k) && f.Keys !! g.Keys
            && forall m :: m in g ==> m in t.at && m in u.at && u.at[m] == t.at[m]
  {
    var k := t.at[n].kids[i];
    TreeIsLoose(t, t.root);
    assert Linked(t, n) && ChildOf(t, k, n);
    ChildInside(t, t.root, n, k);
    SubtreesApart(t, t.root, n, i);
    if Inside(t, p, k) {
      InsideTrans(t, p, k, n);
    }
    AddedSubtree(t, u, p, made, k);
    if Inside(t, n, k) {
      InsideDepth(t, n, k);
    }
    forall m | m in g
      ensures m in t.at && m in u.at && u.at[m] == t.at[m]
    {
      InsideTrans(t, m, k, n);
      assert AddedAt(t, u, p, made, m);
    }
  }

  lemma StepOld(t: Tree, u: Tree, v: Tree, p: Node, n: Node, made: Node, f: map<Node, Node>, i: nat,
                g: map<Node, Node>, m: Node)
    requires n in t.at && i < |t.at[n].kids| && Step(t, u, v, p, n, made, f, i, g) && m in f && m != n
    ensures m in t.at && NamedCopyAt(t, v, f + g, m)
  {
    var k := t.at[n].kids[i];
    StepKeys(t, u, v, p, n, made, f, i, g);
    assert m in t.at && NamedCopyAt(t, u, f, m) && Differ(f, m, n) && AddedAt(u, v, made, g[k], f[m]);
    assert Linked(t, m);
    forall c | c in t.at[m].kids
      ensures Image(f + g, c) == Image(f, c)
    {
      assert ChildOf(t, c, m);
    }
    ImagesSame(f, f + g, t.at[m].kids);
  }

  lemma StepNew(t: Tree, u: Tree, v: Tree, p: Node, n: Node, made: Node, f: map<Node, Node>, i: nat,
                g: map<Node, Node>, m: Node)
    requires n in t.at && i < |t.at[n].kids| && Step(t, u, v, p, n, made, f, i, g) && m in g
    ensures m in t.at && NamedCopyAt(t, v, f + g, m)
  {
    var k := t.at[n].kids[i];
    StepKeys(t, u, v, p, n, made, f, i, g);
    assert m != k ==> NamedCopyAt(u, v, g, m);
    assert AddedAt(t, u, p, made, m);
    TreeIsLoose(t, t.root);
    forall c | c in t.at[m].kids
      ensures Image(f + g, c) == Image(g, c)
    {
      ChildInside(t, t.root, m, c);
      InsideTrans(t, c, m, k);
    }
    ImagesSame(g, f + g, t.at[m].kids);
    assert forall x :: x in t.at ==> AddedAt(t, u, p, made, x);
  }

  lemma StepTop(t: Tree, u: Tree, v: Tree, p: Node, n: Node, made: Node, f: map<Node, Node>, i: nat, g: map<Node, Node>)
    requires n in t.at && i < |t.at[n].kids| && Step(t, u, v, p, n, made, f, i, g)
    ensures n in f + g && (f + g)[n] == made && CopyAt(t, v, f + g, n, t.at[n].kids[..i + 1])
  {
    var ks := t.at[n].kids;
    StepKeys(t, u, v, p, n, made, f, i, g);
    assert AddedAt(u, v, made, g[ks[i]], made);
    OldImages(t, n, f, i, g);
    var next := ks[..i + 1];
    assert next[..i] == ks[..i] && next[|next| - 1] == ks[i] && Inside(t, ks[i], ks[i]);
  }

  lemma OldImages(t: Tree, n: Node, f: map<Node, Node>, i: nat, g: map<Node, Node>)
    requires IsTree(t) && n in t.at && i < |t.at[n].kids| && g.Keys == Subtree(t, t.at[n].kids[i])
    ensures Images(f, t.at[n].kids[..i]) == Images(f + g, t.at[n].kids[..i])
  {
    var ks := t.at[n].kids;
    TreeIsLoose(t, t.root);
    ChildInside(t, t.root, n, ks[i]);
    forall c | c in ks[..i]
      ensures Image(f + g, c) == Image(f, c)
    {
      var j :| 0 <= j < i && ks[j] == c;
      assert Linked(t, n);
      DistinctAt(ks, j, i);
      ChildInside(t, t.root, n, c);
      if Inside(t, c, ks[i]) {
        InsideDepth(t, c, ks[i]);
      }
    }
    ImagesSame(f, f + g, ks[..i]);
  }

  lemma StepInjective(t: Tree, u: Tree, v: Tree, p: Node, n: Node, made: Node, f: map<Node, Node>, i: nat,
                      g: map<Node, Node>)
    requires n in t.at && i < |t.at[n].kids| && Step(t, u, v, p, n, made, f, i, g)
    ensures Injective(f + g) && v.at.Keys == t.at.Keys + (f + g).Values
  {
    var k := t.at[n].kids[i];
    StepKeys(t, u, v, p, n, made, f, i, g);
    forall m | m in g
      ensures g[m] !in u.at
    {
      assert m != k ==> NamedCopyAt(u, v, g, m);
    }
    JoinedMaps(f, g);
  }

  lemma JoinedMaps(f: map<Node, Node>, g: map<Node, Node>)
    requires Injective(f) && Injective(g) && f.Keys !! g.Keys && f.Values !! g.Values
    ensures Injective(f + g) && (f + g).Values == f.Values + g.Values
  {
    var h := f + g;
    forall m, c | m in h && c in h
      ensures Differ(h, m, c)
    {
      if m in f && c in f {
        assert Differ(f, m, c);
      } else if m in g && c in g {
        assert Differ(g, m, c);
      } else {
        assert m in f ==> f[m] in f.Values;
        assert c in f ==> f[c] in f.Values;
      }
    }
    assert forall m :: m in f ==> m in h && h[m] == f[m];
    assert forall m :: m in g ==> m in h && h[m] == g[m];
  }

  /** One more child copied makes a longer partial copy. */
  lemma PartStep(t: Tree, u: Tree, v: Tree, p: Node, n: Node, made: Node, f: map<Node, Node>, i: nat,
                 g: map<Node, Node>)
    requires n in t.at && i < |t.at[n].kids| && Step(t, u, v, p, n, made, f, i, g)
    ensures PartCopy(t, v, n, made, f + g, i + 1)
  {
    StepKeys(t, u, v, p, n, made, f, i, g);
    StepTop(t, u, v, p, n, made, f, i, g);
    StepInjective(t, u, v, p, n, made, f, i, g);
    forall m | m in f + g && m != n
      ensures m in t.at && NamedCopyAt(t, v, f + g, m)
    {
      if m in g {
        StepNew(t, u, v, p, n, made, f, i, g, m);
      } else {
        StepOld(t, u, v, p, n, made, f, i, g, m);
      }
    }
  }

  lemma FirstCopy(t: Tree, sudo: bool, to: string, n: Node, made: Node)
    requires IsTree(t) && IsDir(t, n) && made !in t.at && Place(t, sudo, to) != null
    ensures PartCopy(t, Create(t, sudo, to, true, made), n, made, map[n := made], 0)
  {
    var u, f := Create(t, sudo, to, true, made), map[n := made];
    assert Linked(t, n);
    assert n in f && f[n] == made;
    assert forall x :: x in f.Values <==> x == made;
    assert t.at[n].kids[..0] == [];
    forall m, k | m in f && k in f
      ensures Differ(f, m, k)
    {
    }
  }

  // ---------- when cp_r copies ----------

  predicate FirstAt(t: Tree, m: Node) {
    Plain(NameOf(t, m)) && FindChild(t, Up(t, m), NameOf(t, m)) == m
  }

  /** Below n, all names are plain and no two siblings share one. */
  predicate AllFirst(t: Tree, n: Node) {
    forall m {:trigger FirstAt(t, m)} :: m in t.at && Inside(t, m, n) && m != n ==> FirstAt(t, m)
  }

  /**
   * The path src names n, in whose subtree names are unambiguous; `to` is a well-formed path
   * that nothing has yet, in a directory outside the subtree in which creation is allowed.
   */
  predicate Copyable(t: Tree, sudo: bool, src: string, to: string, n: Node) {
    && n in t.at && src != "" && Resolve(t, src) == n && AllFirst(t, n)
    && WellFormed(to) && Resolve(t, to) == null
    && Place(t, sudo, to) != null && !Inside(t, Place(t, sudo, to), n)
    && (Tilde(src) || Tilde(to) ==> HomeRoot(t) != null)
  }

  function CpRCode(t: Tree, sudo: bool, src: string, dest: string): int {
    var n := Resolve(t, src);
    if n == null then -1
    else if Place(t, sudo, CpPath(t, src, dest)) == null then -3
    else 0
  }

  /** What vfs_cp_r leaves behind: one new subtree at the destination, a copy of the source */
  ghost predicate Copied(t: Tree, u: Tree, sudo: bool, src: string, dest: string, made: Node, f: map<Node, Node>) {
    match t
    case Tree(_, _, _, _, _) =>
      var n, to := Resolve(t, src), CpPath(t, src, dest);
      && n != null && n in t.at && Place(t, sudo, to) != null
      && Added(t, u, Place(t, sudo, to), made) && IsCopy(t, u, n, made, f) && NameOf(u, made) == BaseName(to)
  }

  lemma ProtectedGrows(t: Tree, u: Tree, p: Node, made: Node)
    requires IsTree(t) && IsTree(u) && Added(t, u, p, made) && !Protected(t, p)
    ensures !Protected(u, made)
  {
    AddedGrows(t, u, p, made);
    HomeRootGrows(t, u);
    AddedInside(t, u, p, made, p, HomeRoot(t));
    ProtectionInherited(u, made);
  }

  lemma AllFirstChild(t: Tree, u: Tree, p: Node, n: Node, made: Node, k: Node)
    requires IsTree(t) && IsTree(u) && Added(t, u, p, made) && !Inside(t, p, n) && n in t.at && AllFirst(t, n)
    requires k in t.at[n].kids
    ensures AllFirst(u, k)
  {
    TreeIsLoose(t, t.root);
    ChildInside(t, t.root, n, k);
    if Inside(t, p, k) {
      InsideTrans(t, p, k, n);
    }
    AddedSubtree(t, u, p, made, k);
    forall m | m in u.at && Inside(u, m, k) && m != k
      ensures FirstAt(u, m)
    {
      assert m in Subtree(t, k);
      InsideTrans(t, m, k, n);
      InsideDepth(t, m, k);
      assert FirstAt(t, m) && AddedAt(t, u, p, made, m);
      FirstStays(t, u, p, made, m);
    }
  }

  lemma FirstStays(t: Tree, u: Tree, p: Node, made: Node, m: Node)
    requires IsTree(t) && Added(t, u, p, made) && m in t.at && m != t.root && FirstAt(t, m)
    ensures FirstAt(u, m) && NameOf(u, m) == NameOf(t, m)
  {
    AddedGrows(t, u, p, made);
    assert Linked(t, m) && AddedAt(t, u, p, made, m);
    EnterGrows(t, u, Up(t, m), NameOf(t, m));
  }

  /** None of the children copied so far has the name of the next one. */
  lemma NextNameFree(t: Tree, u: Tree, n: Node, made: Node, f: map<Node, Node>, i: nat)
    requires IsTree(t) && n in t.at && i < |t.at[n].kids| && PartCopy(t, u, n, made, f, i) && AllFirst(t, n)
    ensures FindChild(u, made, NameOf(t, t.at[n].kids[i])) == null
  {
    var ks := t.at[n].kids;
    var k := ks[i];
    var name := NameOf(t, k);
    TreeIsLoose(t, t.root);
    assert Linked(t, n) && ChildOf(t, k, n);
    ChildInside(t, t.root, n, k);
    assert FirstAt(t, k);
    var found := FindChild(u, made, name);
    if found != null {
      InImages(f, ks[..i], found);
      var c :| c in ks[..i] && Image(f, c) == found;
      var j :| 0 <= j < i && ks[j] == c;
      ChildInside(t, t.root, n, c);
      InSubtrees(t, ks, i, c);
      assert c in Subtree(t, ks[j]);
      assert NamedCopyAt(t, u, f, c);
      FirstBefore(t, ks, j, i, name);
    }
  }

  lemma {:induction false} FirstBefore(t: Tree, ks: seq<Node>, j: nat, i: nat, name: string)
    requires Distinct(ks) && j < i < |ks| && FindIn(t, ks, name) == ks[i]
    ensures !Named(t, ks[j], name)
  {
    assert ks[i] == ks[1..][i - 1];
    if j > 0 {
      assert ks[j] == ks[1..][j - 1];
      FirstBefore(t, ks[1..], j - 1, i - 1, name);
    }
  }

  lemma ChildSource(t: Tree, u: Tree, sudo: bool, src: string, to: string, n: Node, made: Node, i: nat)
    requires IsTree(t) && IsTree(u) && Copyable(t, sudo, src, to, n) && Added(t, u, Place(t, sudo, to), made)
    requires i < |t.at[n].kids|
    ensures var k := t.at[n].kids[i];
            && k in t.at && k in u.at && NameOf(u, k) == NameOf(t, k) && Plain(NameOf(t, k))
            && Resolve(u, src + "/" + NameOf(t, k)) == k && AllFirst(u, k) && !Inside(u, made, k)
            && Tilde(src + "/" + NameOf(t, k)) == Tilde(src)
  {
    var k, p := t.at[n].kids[i], Place(t, sudo, to);
    TreeIsLoose(t, t.root);
    assert Linked(t, n) && ChildOf(t, k, n);
    ChildInside(t, t.root, n, k);
    assert FirstAt(t, k);
    FirstStays(t, u, p, made, k);
    AddedGrows(t, u, p, made);
    assert AddedAt(t, u, p, made, k);
    ResolveGrowsTo(t, u, src);
    ResolveChild(u, src, NameOf(t, k));
    RestOfChild(src, NameOf(t, k));
    AllFirstChild(t, u, p, n, made, k);
    if Inside(t, p, k) {
      InsideTrans(t, p, k, n);
    }
    AddedSubtree(t, u, p, made, k);
  }

  lemma ResolveGrowsTo(t: Tree, u: Tree, path: string)
    requires IsTree(t) && Grows(t, u) && Resolve(t, path) != null && (Tilde(path) ==> HomeRoot(t) != null)
    ensures Resolve(u, path) == Resolve(t, path)
  {
    ResolveGrows(t, u, path);
  }

  lemma ChildDest(t: Tree, u: Tree, sudo: bool, src: string, to: string, n: Node, made: Node,
                  f: map<Node, Node>, i: nat)
    requires IsTree(t) && IsTree(u) && Copyable(t, sudo, src, to, n) && Added(t, u, Place(t, sudo, to), made)
    requires i < |t.at[n].kids| && PartCopy(t, u, n, made, f, i) && IsDir(u, made) && Resolve(u, to) == made
    requires Plain(NameOf(t, t.at[n].kids[i]))
    ensures var name := NameOf(t, t.at[n].kids[i]);
            var dest := to + "/" + name;
            && WellFormed(dest) && Resolve(u, dest) == null && Place(u, sudo, dest) == made
            && BaseName(dest) == name && Tilde(dest) == Tilde(to)
  {
    var name := NameOf(t, t.at[n].kids[i]);
    NextNameFree(t, u, n, made, f, i);
    if !sudo {
      ProtectedGrows(t, u, Place(t, sudo, to), made);
    }
    PathOfChild(u, sudo, to, made, name);
  }

  lemma PathOfChild(u: Tree, sudo: bool, to: string, made: Node, name: string)
    requires to != "" && Plain(name) && Resolve(u, to) == made && IsDir(u, made) && MayChange(u, sudo, made)
    ensures var dest := to + "/" + name;
            && WellFormed(dest) && Resolve(u, dest) == FindChild(u, made, name) && Place(u, sudo, dest) == made
            && BaseName(dest) == name && Tilde(dest) == Tilde(to)
  {
    var dest := to + "/" + name;
    ResolveChild(u, to, name);
    CutChild(to, name, dest);
  }

  lemma CutChild(to: string, name: string, dest: string)
    requires to != "" && SlashFree(name) && dest == to + "/" + name
    ensures LastSlash(dest) == |to| && dest[..|to|] == to && BaseName(dest) == name && Tilde(dest) == Tilde(to)
  {
    BaseNameOfChild(to, name);
    RestOfChild(to, name);
  }

  /** The next child can be copied by the paths that cp_r builds, in the tree as it is then. */
  lemma ChildCopyable(t: Tree, u: Tree, sudo: bool, src: string, to: string, n: Node, made: Node,
                      f: map<Node, Node>, i: nat)
    requires IsTree(t) && IsTree(u) && Copyable(t, sudo, src, to, n) && Added(t, u, Place(t, sudo, to), made)
    requires i < |t.at[n].kids| && PartCopy(t, u, n, made, f, i) && IsDir(u, made) && Resolve(u, to) == made
    ensures var k := t.at[n].kids[i];
            var from, dest := src + "/" + NameOf(t, k), to + "/" + NameOf(t, k);
            && k in u.at && NameOf(u, k) == NameOf(t, k) && Copyable(u, sudo, from, dest, k)
            && Place(u, sudo, dest) == made && CpPath(u, from, dest) == dest && BaseName(dest) == NameOf(t, k)
            && Resolvable(u, from) && Resolvable(u, dest)
  {
    ChildSource(t, u, sudo, src, to, n, made, i);
    ChildDest(t, u, sudo, src, to, n, made, f, i);
    if HomeRoot(t) != null {
      AddedGrows(t, u, Place(t, sudo, to), made);
      HomeRootGrows(t, u);
    }
    assert forall name :: src + "/" + name != "";
  }

  // ---------- the recursion of cp_r ----------

  /** A file copied by vfs_cp is a copy in the same sense. */
  lemma CpCopied(t: Tree, sudo: bool, src: string, dest: string, made: Node, b: Buffer?)
    requires Sound(t) && CpCode(t, sudo, src, dest) == 0 && made !in t.at
    requires var data := DataOf(t, Resolve(t, src)); data != null ==> b != null && b.text == data.text
    ensures var n := Resolve(t, src);
            n in t.at && Copied(t, Cp(t, sudo, src, dest, made, b), sudo, src, dest, made, map[n := made])
  {
    ResolveInTree(t, src);
    var n, to := Resolve(t, src), CpPath(t, src, dest);
    var u, f := Create(t, sudo, to, false, made), map[n := made];
    CreateAdded(t, sudo, to, false, made);
    CreateIsTree(t, sudo, to, false, made);
    if DataOf(t, n) != null {
      SetDataAdded(t, u, Place(t, sudo, to), made, b);
    }
    FileIsCopy(t, Cp(t, sudo, src, dest, made, b), n, made, f);
  }

  lemma FileIsCopy(t: Tree, u: Tree, n: Node, made: Node, f: map<Node, Node>)
    requires IsTree(t) && n in t.at && !IsDir(t, n) && f == map[n := made] && made !in t.at
    requires made in u.at && u.at.Keys == t.at.Keys + {made} && u.at[made].kids == [] && !u.at[made].dir
    requires SameText(u.at[made].data, t.at[n].data)
    ensures IsCopy(t, u, n, made, f)
  {
    assert Linked(t, n);
    TreeIsLoose(t, t.root);
    InsideRoot(t, n);
    forall m | m in t.at && Inside(t, m, n)
      ensures m == n
    {
      LeafSubtree(t, t.root, n, m);
    }
    assert n in f && f[n] == made;
    assert forall x :: x in f.Values <==> x == made;
    forall m, k | m in f && k in f
      ensures Differ(f, m, k)
    {
    }
  }

  ghost predicate Deepest(t: Tree, n: Node, bound: nat) {
    forall m :: m in Subtree(t, n) ==> Depth(t, m) < bound
  }

  /** Tree u after the first i children of n have been copied below the new directory `made` */
  ghost predicate Progressing(t: Tree, u: Tree, sudo: bool, src: string, to: string, n: Node, made: Node,
                              f: map<Node, Node>, i: nat)
    requires n in t.at && i <= |t.at[n].kids|
  {
    match t
    case Tree(_, _, _, _, _) =>
      && IsTree(t) && Copyable(t, sudo, src, to, n) && Added(t, u, Place(t, sudo, to), made)
      && PartCopy(t, u, n, made, f, i) && Resolve(u, to) == made && IsDir(u, made) && NameOf(u, made) == BaseName(to)
  }

  lemma StartProgress(t: Tree, sudo: bool, src: string, to: string, n: Node, made: Node)
    requires Sound(t) && Copyable(t, sudo, src, to, n) && IsDir(t, n) && made !in t.at
    ensures Progressing(t, Create(t, sudo, to, true, made), sudo, src, to, n, made, map[n := made], 0)
  {
    CreateAdded(t, sudo, to, true, made);
    CreateGrows(t, sudo, to, true, made);
    if HomeRoot(t) != null {
      HomeRootGrows(t, Create(t, sudo, to, true, made));
    }
    CreatedIsFound(t, sudo, to, true, made);
    FirstCopy(t, sudo, to, n, made);
  }

  lemma NextProgress(t: Tree, u: Tree, v: Tree, sudo: bool, src: string, to: string, n: Node, made: Node,
                     f: map<Node, Node>, i: nat, k: Node, x: Node, g: map<Node, Node>)
    requires n in t.at && i < |t.at[n].kids| && Sound(u) && Sound(v) && Progressing(t, u, sudo, src, to, n, made, f, i)
    requires k == t.at[n].kids[i] && Copied(u, v, sudo, src + "/" + NameOf(t, k), to + "/" + NameOf(t, k), x, g)
    ensures Progressing(t, v, sudo, src, to, n, made, f + g, i + 1)
  {
    var p := Place(t, sudo, to);
    ChildCopyable(t, u, sudo, src, to, n, made, f, i);
    AddedTrans(t, u, v, p, made, x);
    assert Step(t, u, v, p, n, made, f, i, g);
    PartStep(t, u, v, p, n, made, f, i, g);
    if Tilde(to) {
      AddedGrows(t, u, p, made);
      HomeRootGrows(t, u);
    }
    CopyStays(u, v, to, made, x);
  }

  lemma CopyStays(u: Tree, v: Tree, to: string, made: Node, x: Node)
    requires IsTree(u) && Added(u, v, made, x) && Resolve(u, to) == made && (Tilde(to) ==> HomeRoot(u) != null)
    requires made in u.at
    ensures Resolve(v, to) == made && IsDir(v, made) == IsDir(u, made) && NameOf(v, made) == NameOf(u, made)
  {
    AddedGrows(u, v, made, x);
    ResolveGrowsTo(u, v, to);
    assert AddedAt(u, v, made, x, made);
  }

  lemma ChildDeepest(t: Tree, u: Tree, p: Node, made: Node, n: Node, k: Node, bound: nat)
    requires IsTree(t) && IsTree(u) && Added(t, u, p, made) && n in t.at && k in t.at[n].kids && !Inside(t, p, n)
    requires Deepest(t, n, bound)
    ensures Deepest(u, k, bound) && Depth(u, k) == Depth(t, n) + 1
    ensures k in t.at && k in u.at && u.at[k].dir == t.at[k].dir
  {
    TreeIsLoose(t, t.root);
    ChildInside(t, t.root, n, k);
    if Inside(t, p, k) {
      InsideTrans(t, p, k, n);
    }
    AddedSubtree(t, u, p, made, k);
    forall m | m in Subtree(u, k)
      ensures Depth(u, m) < bound
    {
      assert AddedAt(t, u, p, made, m);
      InsideTrans(t, m, k, n);
      assert m in Subtree(t, n);
    }
    assert AddedAt(t, u, p, made, k);
  }

  lemma ProgressEnds(t: Tree, u: Tree, sudo: bool, src: string, to: string, n: Node, made: Node,
                     f: map<Node, Node>, i: nat)
    requires n in t.at && i == |t.at[n].kids| && Progressing(t, u, sudo, src, to, n, made, f, i)
    ensures Added(t, u, Place(t, sudo, to), made) && IsCopy(t, u, n, made, f) && NameOf(u, made) == BaseName(to)
  {
    PartIsCopy(t, u, n, made, f);
  }

  /** Copying a directory is promised when the paths are unambiguous; errors and files are always as the codes say. */
  predicate CpRReady(t: Tree, sudo: bool, src: string, dest: string) {
    var n := Resolve(t, src);
    n != null && IsDir(t, n) && CpRCode(t, sudo, src, dest) == 0 ==> Copyable(t, sudo, src, CpPath(t, src, dest), n)
  }

  // ---------- what a copy is good for ----------

  lemma {:induction false} FindInCopy(t: Tree, u: Tree, n: Node, f: map<Node, Node>, ks: seq<Node>, name: string)
    requires forall k :: k in ks ==> k in t.at && k in f && NamedCopyAt(t, u, f, k)
    ensures FindIn(u, Images(f, ks), name) ==
            (var k := FindIn(t, ks, name); if k == null then null else Image(f, k))
  {
    if ks != [] {
      ImagesCons(f, ks);
      if !Named(t, ks[0], name) {
        FindInCopy(t, u, n, f, ks[1..], name);
      }
    }
  }

  lemma {:induction false} ImagesCons(f: map<Node, Node>, ks: seq<Node>)
    requires ks != []
    ensures Images(f, ks) == [Image(f, ks[0])] + Images(f, ks[1..])
  {
    if |ks| > 1 {
      var front := ks[..|ks| - 1];
      ImagesCons(f, front);
      assert front[1..] == ks[1..][..|ks| - 2];
    }
  }

  lemma CopyChildFound(t: Tree, u: Tree, n: Node, made: Node, f: map<Node, Node>, m: Node, name: string)
    requires IsTree(t) && n in t.at && IsCopy(t, u, n, made, f) && m in f && FindChild(t, m, name) != null
    ensures FindChild(t, m, name) in f && FindChild(u, f[m], name) == f[FindChild(t, m, name)]
  {
    TreeIsLoose(t, t.root);
    forall k | k in t.at[m].kids
      ensures k in f && NamedCopyAt(t, u, f, k)
    {
      ChildInside(t, t.root, m, k);
      InsideTrans(t, k, m, n);
      InsideDepth(t, m, n);
    }
    assert m != n ==> NamedCopyAt(t, u, f, m);
    FindInCopy(t, u, n, f, t.at[m].kids, name);
  }

  /** Every path of names below the source leads, below the copy, to the image of what it leads to. */
  lemma {:induction false} CopyWalks(t: Tree, u: Tree, n: Node, made: Node, f: map<Node, Node>, m: Node,
                                     parts: seq<string>)
    requires IsTree(t) && n in t.at && IsCopy(t, u, n, made, f) && m in f
    requires (forall i :: 0 <= i < |parts| ==> Plain(parts[i])) && Walk(t, m, parts) != null
    ensures Walk(t, m, parts) in f && Walk(u, f[m], parts) == f[Walk(t, m, parts)]
    decreases |parts|
  {
    if parts != [] {
      CopyChildFound(t, u, n, made, f, m, parts[0]);
      CopyWalks(t, u, n, made, f, FindChild(t, m, parts[0]), parts[1..]);
    }
  }

  /** The path that was free now leads to the copy. */
  lemma CopiedIsFound(t: Tree, u: Tree, sudo: bool, src: string, dest: string, made: Node, f: map<Node, Node>)
    requires Sound(t) && Sound(u) && Copied(t, u, sudo, src, dest, made, f)
    requires Copyable(t, sudo, src, CpPath(t, src, dest), Resolve(t, src))
    ensures Resolve(u, CpPath(t, src, dest)) == made
  {
    var to := CpPath(t, src, dest);
    var p, name := Place(t, sudo, to), BaseName(to);
    AddedGrows(t, u, p, made);
    ResolveSplit(t, to);
    ResolveSplit(u, to);
    if HomeRoot(t) != null {
      HomeRootGrows(t, u);
    }
    if LastSlash(to) > 0 {
      SplitAtSlash(to);
      RestOfChild(to[..LastSlash(to)], name);
      ResolveGrowsTo(t, u, to[..LastSlash(to)]);
    }
    assert Parent(u, to) == p;
    assert Linked(t, p) && AddedAt(t, u, p, made, p);
    forall k | k in t.at[p].kids
      ensures Named(u, k, name) <==> Named(t, k, name)
    {
      assert ChildOf(t, k, p) && AddedAt(t, u, p, made, k);
    }
    FindInAppended(t, u, t.at[p].kids, made, name);
  }

  // ---------- when cp_r copies nothing ----------

  /** The destination path leads to a file: the new directory of cp_r goes behind it and is not found. */
  predicate OntoFile(t: Tree, to: string) {
    WellFormed(to) && Resolve(t, to) != null && !IsDir(t, Resolve(t, to)) && (Tilde(to) ==> HomeRoot(t) != null)
  }

  lemma NothingBelowFile(u: Tree, sudo: bool, from: string, to: string, name: string, n: Node, b: Buffer?)
    requires IsTree(u) && OntoFile(u, to) && to != "" && Plain(name)
    ensures var dest := to + "/" + name;
            CpRCode(u, sudo, from, dest) != 0 && Cp(u, sudo, from, dest, n, b) == u
  {
    var x, dest := Resolve(u, to), to + "/" + name;
    ResolveInTree(u, to);
    assert Linked(u, x);
    ResolveChild(u, to, name);
    CutChild(to, name, dest);
  }

  /**
   * cp_r of a directory to a path that leads to a file: no call for a child, whatever its source path leads to,
   * copies anything, so that the empty directory remains.  That is a copy if and only if the source is empty.
   */
  lemma CpROntoFile(t: Tree, sudo: bool, src: string, dest: string, made: Node, from: string, name: string, n: Node,
                    b: Buffer?)
    requires IsTree(t) && CpRCode(t, sudo, src, dest) == 0 && IsDir(t, Resolve(t, src)) && made !in t.at
    requires OntoFile(t, CpPath(t, src, dest)) && Plain(name)
    ensures var to := CpPath(t, src, dest);
            var u, child := Create(t, sudo, to, true, made), to + "/" + name;
            && CpRCode(u, sudo, from, child) != 0 && Cp(u, sudo, from, child, n, b) == u
            && ((exists f :: Copied(t, u, sudo, src, dest, made, f)) <==> Kids(t, Resolve(t, src)) == [])
  {
    var to := CpPath(t, src, dest);
    StillOntoFile(t, sudo, to, made);
    NothingBelowFile(Create(t, sudo, to, true, made), sudo, from, to, name, n, b);
    EmptyIsCopy(t, sudo, src, dest, made);
  }

  lemma StillOntoFile(t: Tree, sudo: bool, to: string, made: Node)
    requires IsTree(t) && OntoFile(t, to) && Place(t, sudo, to) != null && made !in t.at
    ensures var u := Create(t, sudo, to, true, made);
            IsTree(u) && OntoFile(u, to) && to != ""
  {
    var u, x := Create(t, sudo, to, true, made), Resolve(t, to);
    CreateAdded(t, sudo, to, true, made);
    CreateIsTree(t, sudo, to, true, made);
    AddedGrows(t, u, Place(t, sudo, to), made);
    ResolveInTree(t, to);
    ResolveGrowsTo(t, u, to);
    assert AddedAt(t, u, Place(t, sudo, to), made, x);
    if HomeRoot(t) != null {
      HomeRootGrows(t, u);
    }
  }

  lemma EmptyIsCopy(t: Tree, sudo: bool, src: string, dest: string, made: Node)
    requires IsTree(t) && CpRCode(t, sudo, src, dest) == 0 && IsDir(t, Resolve(t, src)) && made !in t.at
    ensures var u := Create(t, sudo, CpPath(t, src, dest), true, made);
            (exists f :: Copied(t, u, sudo, src, dest, made, f)) <==> Kids(t, Resolve(t, src)) == []
  {
    var n, to := Resolve(t, src), CpPath(t, src, dest);
    var u := Create(t, sudo, to, true, made);
    if t.at[n].kids == [] {
      CreateAdded(t, sudo, to, true, made);
      FirstCopy(t, sudo, to, n, made);
      PartIsCopy(t, u, n, made, map[n := made]);
      assert Copied(t, u, sudo, src, dest, made, map[n := made]);
    } else {
      forall f: map<Node, Node>
        ensures !Copied(t, u, sudo, src, dest, made, f)
      {
        assert Images(f, t.at[n].kids) != [] == u.at[made].kids;
      }
    }
  }

  // ---------- which child cp_r reads ----------

  /** For child k cp_r reads the first child of its name, which is k itself if and only if no namesake comes first. */
  lemma ChildRead(t: Tree, u: Tree, p: Node, made: Node, src: string, n: Node, k: Node)
    requires IsTree(t) && Added(t, u, p, made) && src != "" && Resolve(t, src) == n
    requires Tilde(src) ==> HomeRoot(t) != null
    requires k in Kids(t, n) && Plain(NameOf(t, k))
    ensures var from := src + "/" + NameOf(t, k);
            && Resolve(u, from) == FindChild(t, n, NameOf(t, k)) != null
            && (Resolve(u, from) == k <==> FirstAt(t, k))
  {
    assert Linked(t, n) && ChildOf(t, k, n);
    AddedGrows(t, u, p, made);
    ResolveGrowsTo(t, u, src);
    ResolveChild(u, src, NameOf(t, k));
    EnterGrows(t, u, n, NameOf(t, k));
  }

  // ---------- when cp_r never ends ----------

  /** The tree after |ns| rounds of the loop of cp_r over the files of directory a: round i visits child i of the chain
      as it is then, and vfs_cp makes the node ns[i] with the buffer bs[i]. */
  function Rounds(u: Tree, sudo: bool, src: string, to: string, a: Node, ns: seq<Node>, bs: seq<Buffer?>): Tree
    requires |bs| == |ns|
    decreases |ns|
  {
    if ns == [] then u
    else
      var i := |ns| - 1;
      var v := Rounds(u, sudo, src, to, a, ns[..i], bs[..i]);
      if i < |Kids(v, a)| then
        var name := NameOf(v, Kids(v, a)[i]);
        Cp(v, sudo, src + "/" + name, to + "/" + name, ns[i], bs[i])
      else v
  }

  predicate PlainFile(u: Tree, k: Node) {
    !IsDir(u, k) && Plain(NameOf(u, k))
  }

  /** Both paths lead to the directory a of files, in which creation is allowed. */
  predicate IntoItself(u: Tree, sudo: bool, src: string, to: string, a: Node) {
    match u
    case Tree(_, _, _, _, _) =>
      && IsTree(u) && IsDir(u, a) && MayChange(u, sudo, a) && src != "" && to != ""
      && Resolve(u, src) == a && Resolve(u, to) == a && (Tilde(src) || Tilde(to) ==> HomeRoot(u) != null)
      && forall k {:trigger PlainFile(u, k)} :: k in Kids(u, a) ==> PlainFile(u, k)
  }

  predicate NewFile(u: Tree, v: Tree, p: Node, n: Node, name: string) {
    && IsTree(v) && Added(u, v, p, n) && v.at.Keys == u.at.Keys + {n}
    && v.at[n].name == name && !v.at[n].dir && v.at[n].kids == []
  }

  lemma CreatedFile(u: Tree, sudo: bool, to: string, n: Node)
    requires IsTree(u) && Place(u, sudo, to) != null && n !in u.at
    ensures NewFile(u, Create(u, sudo, to, false, n), Place(u, sudo, to), n, BaseName(to))
  {
    CreateAdded(u, sudo, to, false, n);
    CreateIsTree(u, sudo, to, false, n);
  }

  lemma FilledFile(u: Tree, v: Tree, p: Node, n: Node, name: string, b: Buffer)
    requires NewFile(u, v, p, n, name)
    ensures NewFile(u, SetData(v, n, b), p, n, name)
  {
    SetDataAdded(u, v, p, n, b);
    SetDataIsTree(v, n, b);
  }

  lemma CpMakesFile(u: Tree, sudo: bool, from: string, dest: string, n: Node, b: Buffer?)
    requires IsTree(u) && CpCode(u, sudo, from, dest) == 0 && n !in u.at
    ensures var to := CpPath(u, from, dest);
            NewFile(u, Cp(u, sudo, from, dest, n, b), Place(u, sudo, to), n, BaseName(to))
  {
    var to := CpPath(u, from, dest);
    var v := Create(u, sudo, to, false, n);
    CreatedFile(u, sudo, to, n);
    if b != null {
      FilledFile(u, v, Place(u, sudo, to), n, BaseName(to), b);
      assert Cp(u, sudo, from, dest, n, b) == v || Cp(u, sudo, from, dest, n, b) == SetData(v, n, b);
    } else {
      assert Cp(u, sudo, from, dest, n, b) == v;
    }
  }

  /** The copy of a file of a goes to the tail of the chain of a. */
  lemma OneRound(u: Tree, sudo: bool, src: string, to: string, a: Node, k: Node, n: Node, b: Buffer?)
    requires IntoItself(u, sudo, src, to, a) && k in Kids(u, a) && n !in u.at
    ensures var v := Cp(u, sudo, src + "/" + NameOf(u, k), to + "/" + NameOf(u, k), n, b);
            IntoItself(v, sudo, src, to, a) && Kids(v, a) == Kids(u, a) + [n] && v.at.Keys == u.at.Keys + {n}
  {
    var name := NameOf(u, k);
    assert PlainFile(u, k) && Linked(u, a);
    PathOfChild(u, sudo, src, a, name);
    PathOfChild(u, sudo, to, a, name);
    var first := FindChild(u, a, name);
    assert first != null && PlainFile(u, first);
    CpMakesFile(u, sudo, src + "/" + name, to + "/" + name, n, b);
    StaysIntoItself(u, Cp(u, sudo, src + "/" + name, to + "/" + name, n, b), sudo, src, to, a, a, n);
  }

  lemma StaysIntoItself(u: Tree, v: Tree, sudo: bool, src: string, to: string, a: Node, p: Node, n: Node)
    requires IntoItself(u, sudo, src, to, a) && IsTree(v) && Added(u, v, p, n) && (p == a ==> PlainFile(v, n))
    ensures IntoItself(v, sudo, src, to, a) && Kids(v, a) == if p == a then Kids(u, a) + [n] else Kids(u, a)
  {
    assert AddedAt(u, v, p, n, a) && Linked(u, a);
    AddedGrows(u, v, p, n);
    ResolveGrowsTo(u, v, src);
    ResolveGrowsTo(u, v, to);
    if HomeRoot(u) != null {
      HomeRootGrows(u, v);
      AddedInside(u, v, p, n, a, HomeRoot(u));
    }
    forall k | k in Kids(v, a)
      ensures PlainFile(v, k)
    {
      if k in Kids(u, a) {
        assert PlainFile(u, k) && ChildOf(u, k, a) && AddedAt(u, v, p, n, k);
      }
    }
  }

  /** New nodes for the rounds, each used once */
  predicate NewNodes(u: Tree, ns: seq<Node>)
    decreases |ns|
  {
    ns == [] || (var i := |ns| - 1; ns[i] !in u.at && ns[i] !in ns[..i] && NewNodes(u, ns[..i]))
  }

  /** The rounds have appended `ns` to the chain of a and made no other node. */
  predicate GrownBy(u: Tree, v: Tree, sudo: bool, src: string, to: string, a: Node, ns: seq<Node>) {
    match v
    case Tree(_, _, _, _, _) =>
      && IntoItself(v, sudo, src, to, a) && Kids(v, a) == Kids(u, a) + ns
      && forall m :: m in v.at ==> m in u.at || m in ns
  }

  lemma SplitLast(ns: seq<Node>)
    requires ns != []
    ensures ns == ns[..|ns| - 1] + [ns[|ns| - 1]]
  {
  }

  lemma ChainMore(ks: seq<Node>, ns: seq<Node>, n: Node)
    ensures (ks + ns) + [n] == ks + (ns + [n])
  {
  }

  lemma GrownMore(u: Tree, v: Tree, w: Tree, sudo: bool, src: string, to: string, a: Node, ns: seq<Node>, n: Node)
    requires GrownBy(u, v, sudo, src, to, a, ns) && IntoItself(w, sudo, src, to, a)
    requires Kids(w, a) == Kids(v, a) + [n] && w.at.Keys == v.at.Keys + {n}
    ensures GrownBy(u, w, sudo, src, to, a, ns + [n])
  {
    ChainMore(Kids(u, a), ns, n);
    forall m | m in w.at
      ensures m in u.at || m in ns + [n]
    {
      assert m in v.at.Keys + {n};
    }
  }

  /**
   * The loop appends to the chain that it walks: after any number of rounds there is a next child,
   * if and only if there was a first one.
   */
  lemma {:induction false} NeverEnds(u: Tree, sudo: bool, src: string, to: string, a: Node, ns: seq<Node>,
                                     bs: seq<Buffer?>)
    requires IntoItself(u, sudo, src, to, a) && |bs| == |ns| && NewNodes(u, ns)
    ensures Kids(u, a) != [] ==> GrownBy(u, Rounds(u, sudo, src, to, a, ns, bs), sudo, src, to, a, ns)
    ensures Kids(u, a) != [] <==> |ns| < |Kids(Rounds(u, sudo, src, to, a, ns, bs), a)|
    decreases |ns|
  {
    if ns != [] {
      var i := |ns| - 1;
      var ms, n := ns[..i], ns[i];
      NeverEnds(u, sudo, src, to, a, ms, bs[..i]);
      if Kids(u, a) != [] {
        SplitLast(ns);
        var v := Rounds(u, sudo, src, to, a, ms, bs[..i]);
        OneRound(v, sudo, src, to, a, Kids(v, a)[i], n, bs[i]);
        GrownMore(u, v, Rounds(u, sudo, src, to, a, ns, bs), sudo, src, to, a, ms, n);
      }
    }
  }

  /**
   * cp_r of a directory of files to a path that leads to this directory: after its mkdir, which puts the new
   * directory behind the source, it never ends, if and only if the source has a child.
   */
  lemma CpROntoItself(t: Tree, sudo: bool, src: string, dest: string, made: Node, ns: seq<Node>, bs: seq<Buffer?>)
    requires CpRCode(t, sudo, src, dest) == 0 && made !in t.at
    requires var a, to := Resolve(t, src), CpPath(t, src, dest);
             WellFormed(to) && IntoItself(t, sudo, src, to, a)
    requires |bs| == |ns| && NewNodes(Create(t, sudo, CpPath(t, src, dest), true, made), ns)
    ensures var a, to := Resolve(t, src), CpPath(t, src, dest);
            var v := Rounds(Create(t, sudo, to, true, made), sudo, src, to, a, ns, bs);
            && (Kids(t, a) != [] ==> Kids(v, a) == Kids(t, a) + ns)
            && (Kids(t, a) != [] <==> |ns| < |Kids(v, a)|)
  {
    var a, to := Resolve(t, src), CpPath(t, src, dest);
    var p, u := Place(t, sudo, to), Create(t, sudo, to, true, made);
    ResolveSplit(t, to);
    FindChildInTree(t, p, BaseName(to));
    assert Linked(t, a);
    CreateAdded(t, sudo, to, true, made);
    CreateIsTree(t, sudo, to, true, made);
    StaysIntoItself(t, u, sudo, src, to, a, p, made);
    NeverEnds(u, sudo, src, to, a, ns, bs);
  }
}
