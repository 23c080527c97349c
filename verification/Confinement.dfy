/** Without sudo, no call changes anything outside /home/root, unless it removes or renames /home/root itself. */
module Confinement {
  import opened FileNode
  import opened FileTree
  import opened TreeOps
  import opened FileOps
  import opened Resolution
  import opened Copying
  import opened FileRuns

  // ---------- what is kept ----------

  predicate KeptAt(t: Tree, u: Tree, m: Node) {
    m in t.at && m in u.at && u.at[m] == t.at[m]
  }

  /** Every protected node, that is, every node outside /home/root, keeps all its fields. */
  predicate OutsideKept(t: Tree, u: Tree) {
    forall m {:trigger KeptAt(t, u, m)} :: m in t.at && Protected(t, m) ==> KeptAt(t, u, m)
  }

  predicate ProtectedIn(t: Tree, m: Node) {
    m in t.at && Protected(t, m)
  }

  /** /home/root is the same node, and the same nodes are protected. */
  predicate HomeKept(t: Tree, u: Tree) {
    && u.root == t.root && HomeRoot(u) == HomeRoot(t)
    && (forall m {:trigger ProtectedIn(u, m)} :: m in t.at && Protected(t, m) ==> ProtectedIn(u, m))
    && forall m {:trigger ProtectedIn(t, m)} :: m in u.at && Protected(u, m) ==> ProtectedIn(t, m)
  }

  predicate Confined(t: Tree, u: Tree) {
    OutsideKept(t, u) && HomeKept(t, u)
  }

  lemma ConfinedTrans(t: Tree, u: Tree, v: Tree)
    requires Confined(t, u) && Confined(u, v)
    ensures Confined(t, v)
  {
    forall m | m in t.at && Protected(t, m)
      ensures KeptAt(t, v, m) && ProtectedIn(v, m)
    {
      assert KeptAt(t, u, m) && ProtectedIn(u, m) && KeptAt(u, v, m) && ProtectedIn(v, m);
    }
    forall m | m in v.at && Protected(v, m)
      ensures ProtectedIn(t, m)
    {
      assert ProtectedIn(u, m) && ProtectedIn(t, m);
    }
  }

  predicate OutsideSame(t: Tree, u: Tree, h: Node, m: Node) {
    m in t.at && !Inside(t, m, h) ==> m in u.at && u.at[m] == t.at[m]
  }

  predicate InsideStill(t: Tree, u: Tree, h: Node, m: Node) {
    m in u.at && (m in t.at ==> Inside(t, m, h)) ==> Inside(u, m, h)
  }

  /** Outside the subtree of h nothing changes; what is new or was in it is in it; h keeps its place and name. */
  predicate Within(t: Tree, u: Tree, h: Node) {
    && u.root == t.root && h in t.at && h in u.at && u.at[h].name == t.at[h].name && u.at[h].up == t.at[h].up
    && (forall m {:trigger OutsideSame(t, u, h, m)} :: m in t.at ==> OutsideSame(t, u, h, m))
    && forall m {:trigger InsideStill(t, u, h, m)} :: m in u.at ==> InsideStill(t, u, h, m)
  }

  lemma {:induction false} OutsideStill(t: Tree, u: Tree, h: Node, m: Node)
    requires IsTree(t) && Within(t, u, h) && m in t.at && !Inside(t, m, h)
    ensures !Inside(u, m, h)
    decreases Depth(t, m)
  {
    assert OutsideSame(t, u, h, m) && Linked(t, m);
    assert OutsideSame(t, u, h, Up(t, m));
    if m != t.root {
      OutsideStill(t, u, h, Up(t, m));
    }
  }

  lemma WithinFind(t: Tree, u: Tree, h: Node, n: Node, name: string)
    requires IsTree(t) && Within(t, u, h) && n in t.at && !Inside(t, n, h)
    ensures FindChild(u, n, name) == FindChild(t, n, name)
  {
    assert OutsideSame(t, u, h, n) && Linked(t, n);
    forall k | k in t.at[n].kids
      ensures Named(t, k, name) <==> Named(u, k, name)
    {
      assert ChildOf(t, k, n) && OutsideSame(t, u, h, k) && Linked(t, k);
    }
    FindInSame(t, u, t.at[n].kids, name);
  }

  lemma WithinConfined(t: Tree, u: Tree, h: Node)
    requires IsTree(t) && HomeRoot(t) == h && Within(t, u, h)
    ensures Confined(t, u)
  {
    HomeRootInTree(t);
    var home := Home(t);
    assert Linked(t, h) && Linked(t, home) && Linked(t, t.root);
    if Inside(t, home, h) {
      InsideDepth(t, home, h);
    }
    WithinFind(t, u, h, t.root, "home");
    WithinFind(t, u, h, home, "root");
    forall m | m in t.at && Protected(t, m)
      ensures KeptAt(t, u, m) && ProtectedIn(u, m)
    {
      assert OutsideSame(t, u, h, m);
      OutsideStill(t, u, h, m);
    }
    forall m | m in u.at && Protected(u, m)
      ensures ProtectedIn(t, m)
    {
      assert InsideStill(t, u, h, m);
    }
  }

  /** A node that may be changed without sudo is in the subtree of /home/root. */
  lemma BelowHome(t: Tree, n: Node)
    requires !Protected(t, n)
    ensures HomeRoot(t) != null && Inside(t, n, HomeRoot(t))
  {
  }

  lemma CreateWithin(t: Tree, path: string, dir: bool, n: Node)
    requires IsTree(t) && n !in t.at && Place(t, false, path) != null
    ensures HomeRoot(t) != null && Within(t, Create(t, false, path, dir, n), HomeRoot(t))
  {
    var u, p := Create(t, false, path, dir, n), Place(t, false, path);
    BelowHome(t, p);
    var h := HomeRoot(t);
    HomeRootInTree(t);
    CreateAdded(t, false, path, dir, n);
    forall m | m in t.at
      ensures OutsideSame(t, u, h, m)
    {
      assert m in t.at ==> AddedAt(t, u, p, n, m);
    }
    forall m | m in u.at
      ensures InsideStill(t, u, h, m)
    {
      if m in t.at {
        AddedInside(t, u, p, n, m, h);
      } else if m == n {
        AddedInside(t, u, p, n, p, h);
      }
    }
    assert AddedAt(t, u, p, n, h);
  }

  lemma {:induction false} UnlinkInside(t: Tree, n: Node, m: Node, a: Node)
    requires IsTree(t) && n in t.at && n != t.root && m in t.at && !Inside(t, m, n)
    ensures Inside(Unlink(t, n), m, a) == Inside(t, m, a)
    decreases Depth(t, m)
  {
    RootStays(t, n);
    assert Linked(t, m);
    if m != t.root {
      assert !Inside(t, Up(t, m), n);
      if m != a {
        UnlinkInside(t, n, Up(t, m), a);
      }
    }
  }

  lemma UnlinkWithin(t: Tree, n: Node)
    requires IsTree(t) && n in t.at && !Protected(t, n) && n != HomeRoot(t)
    ensures HomeRoot(t) != null && Within(t, Unlink(t, n), HomeRoot(t))
  {
    var u, h := Unlink(t, n), HomeRoot(t);
    HomeRootInTree(t);
    assert Linked(t, n) && Linked(t, t.root);
    if Inside(t, h, n) {
      InsideDepth(t, h, n);
      InsideDepth(t, n, h);
    }
    forall m | m in t.at
      ensures OutsideSame(t, u, h, m)
    {
      if m in t.at && Inside(t, m, n) {
        InsideTrans(t, m, n, h);
      }
    }
    forall m | m in u.at
      ensures InsideStill(t, u, h, m)
    {
      if m in u.at {
        UnlinkInside(t, n, m, h);
      }
    }
  }

  lemma {:induction false} SameUpsInside(t: Tree, u: Tree, m: Node, a: Node)
    requires u.root == t.root && forall k :: Up(u, k) == Up(t, k) && Depth(u, k) == Depth(t, k)
    ensures Inside(u, m, a) == Inside(t, m, a)
    decreases Depth(t, m)
  {
    if m != a && Depth(t, Up(t, m)) < Depth(t, m) {
      SameUpsInside(t, u, Up(t, m), a);
    }
  }

  lemma SetDataWithin(t: Tree, n: Node, b: Buffer)
    requires IsTree(t) && n in t.at && !Protected(t, n)
    ensures HomeRoot(t) != null && Within(t, SetData(t, n, b), HomeRoot(t))
  {
    var u, h := SetData(t, n, b), HomeRoot(t);
    HomeRootInTree(t);
    forall m | m in t.at
      ensures OutsideSame(t, u, h, m) && InsideStill(t, u, h, m)
    {
      SameUpsInside(t, u, m, h);
    }
  }

  /** What was below h and outside the moved subtree is still below h. */
  lemma {:induction false} MoveInside(t: Tree, n: Node, p: Node, name: string, h: Node, m: Node)
    requires IsTree(t) && n in t.at && n != t.root && p in t.at && m in t.at
    requires IsTree(MoveTo(t, n, p, name)) && Inside(t, m, h) && !Inside(t, m, n)
    ensures Inside(MoveTo(t, n, p, name), m, h)
    decreases Depth(t, m)
  {
    var u := MoveTo(t, n, p, name);
    assert Linked(t, m) && Linked(u, m);
    if m != h {
      assert m != t.root;
      MoveInside(t, n, p, name, h, Up(t, m));
    }
  }

  lemma {:induction false} MovedInside(t: Tree, n: Node, p: Node, name: string, h: Node, m: Node)
    requires IsTree(t) && n in t.at && n != t.root && p in t.at && m in t.at
    requires IsTree(MoveTo(t, n, p, name)) && Inside(t, p, h) && !Inside(t, p, n) && Inside(t, m, n)
    ensures Inside(MoveTo(t, n, p, name), m, h)
    decreases Depth(t, m)
  {
    var u := MoveTo(t, n, p, name);
    assert Linked(t, m) && Linked(u, m);
    if m == n {
      MoveInside(t, n, p, name, h, p);
    } else {
      RootStays(t, n);
      MovedInside(t, n, p, name, h, Up(t, m));
    }
  }

  lemma MoveWithin(t: Tree, n: Node, p: Node, name: string)
    requires IsTree(t) && n in t.at && IsDir(t, p) && !Inside(t, p, n)
    requires !Protected(t, n) && n != HomeRoot(t) && !Protected(t, p)
    ensures HomeRoot(t) != null && Within(t, MoveTo(t, n, p, name), HomeRoot(t))
  {
    var u, h := MoveTo(t, n, p, name), HomeRoot(t);
    HomeRootInTree(t);
    assert Linked(t, n) && Linked(t, t.root);
    MoveIsTree(t, n, p, name);
    if Inside(t, h, n) {
      InsideDepth(t, h, n);
      InsideDepth(t, n, h);
    }
    forall m | m in t.at
      ensures OutsideSame(t, u, h, m)
    {
      if m in t.at && Inside(t, m, n) {
        InsideTrans(t, m, n, h);
      }
    }
    forall m | m in u.at
      ensures InsideStill(t, u, h, m)
    {
      if m in u.at && Inside(t, m, h) {
        if Inside(t, m, n) {
          MovedInside(t, n, p, name, h, m);
        } else {
          MoveInside(t, n, p, name, h, m);
        }
      }
    }
  }

  lemma SameNodesConfined(t: Tree, u: Tree)
    requires u.at == t.at && u.root == t.root
    ensures Confined(t, u)
  {
    FindInSame(t, u, Kids(t, t.root), "home");
    if Home(t) != null {
      FindInSame(t, u, Kids(t, Home(t)), "root");
    }
    forall m | m in t.at
      ensures Protected(u, m) == Protected(t, m)
    {
      ProtectedAnyway(t, u, m);
    }
  }

  // ---------- each call ----------

  lemma CreateConfined(t: Tree, path: string, dir: bool, n: Node)
    requires Sound(t) && n !in t.nodes
    ensures Confined(t, Create(t, false, path, dir, n))
  {
    FreshOutside(t, n);
    if Place(t, false, path) == null {
      SameNodesConfined(t, t);
    } else {
      CreateWithin(t, path, dir, n);
      WithinConfined(t, Create(t, false, path, dir, n), HomeRoot(t));
    }
  }

  lemma SetDataConfined(t: Tree, n: Node, b: Buffer)
    requires IsTree(t) && n in t.at && !Protected(t, n)
    ensures Confined(t, SetData(t, n, b))
  {
    SetDataWithin(t, n, b);
    WithinConfined(t, SetData(t, n, b), HomeRoot(t));
  }

  /** When /home/root is unlinked, the chain of /home, which is protected, changes. */
  lemma HomeChanges(t: Tree, u: Tree)
    requires IsTree(t) && HomeRoot(t) != null && u.at == Unlink(t, HomeRoot(t)).at && u.root == t.root
    ensures !OutsideKept(t, u) && !HomeKept(t, u)
  {
    var h, home := HomeRoot(t), Home(t);
    HomeRootInTree(t);
    HomeOutside(t);
    assert Linked(t, h) && Linked(t, home);
    WithoutKeeps(t.at[home].kids, h);
    assert !KeptAt(t, u, home);
    assert !Named(u, h, "root");
  }

  lemma HomeOutside(t: Tree)
    requires IsTree(t) && HomeRoot(t) != null
    ensures Home(t) in t.at && !Inside(t, Home(t), HomeRoot(t))
  {
    HomeRootInTree(t);
    assert Linked(t, HomeRoot(t));
    if Inside(t, Home(t), HomeRoot(t)) {
      InsideDepth(t, Home(t), HomeRoot(t));
    }
  }

  /** A node taken out without sudo: nothing outside /home/root changes, unless it is /home/root. */
  lemma UnlinkConfined(t: Tree, n: Node, u: Tree)
    requires IsTree(t) && n in t.at && n != t.root && !Protected(t, n) && u.at == Unlink(t, n).at && u.root == t.root
    ensures OutsideKept(t, u) <==> n != HomeRoot(t)
    ensures HomeKept(t, u) <==> n != HomeRoot(t)
  {
    var h := HomeRoot(t);
    HomeRootInTree(t);
    if n != h {
      SameNodesConfined(Unlink(t, n), u);
      UnlinkWithin(t, n);
      WithinConfined(t, Unlink(t, n), h);
      ConfinedTrans(t, Unlink(t, n), u);
    } else {
      HomeChanges(t, u);
    }
  }

  lemma MvConfinedBelow(t: Tree, src: string, dest: string)
    requires IsTree(t) && SafeMv(t, false, src, dest) && MvCode(t, false, src, dest) == 0
    requires Resolve(t, src) != HomeRoot(t)
    ensures Confined(t, FileOps.Mv(t, false, src, dest))
  {
    var n, p, h := Resolve(t, src), MvInto(t, src, dest), HomeRoot(t);
    MvInTree(t, src, dest);
    assert Linked(t, n);
    assert !Protected(t, p);
    MoveWithin(t, n, p, MvName(t, src, dest));
    WithinConfined(t, FileOps.Mv(t, false, src, dest), h);
  }

  /** A move inside /home/root, even of a node into itself, changes no node outside it. */
  lemma MoveOutsideKept(t: Tree, n: Node, p: Node, name: string)
    requires IsTree(t) && n in t.at && n != HomeRoot(t) && p in t.at && !Protected(t, n) && !Protected(t, p)
    ensures OutsideKept(t, MoveTo(t, n, p, name))
  {
    var u, h := MoveTo(t, n, p, name), HomeRoot(t);
    HomeRootInTree(t);
    assert Linked(t, n);
    forall m | m in t.at && Protected(t, m)
      ensures KeptAt(t, u, m)
    {
      assert u.at[m] == MovedEntry(t, n, p, name, m);
      if Inside(t, m, n) {
        InsideTrans(t, m, n, h);
      }
    }
  }

  /** Moved into itself, /home/root leaves the chain of /home. */
  lemma HomeIntoItself(t: Tree, p: Node, name: string)
    requires IsTree(t) && HomeRoot(t) != null && p in t.at && !Protected(t, p)
    ensures !OutsideKept(t, MoveTo(t, HomeRoot(t), p, name))
  {
    var h, home := HomeRoot(t), Home(t);
    var u := MoveTo(t, h, p, name);
    HomeRootInTree(t);
    HomeOutside(t);
    assert Linked(t, h) && Linked(t, home);
    WithoutKeeps(t.at[home].kids, h);
    assert u.at[home] == MovedEntry(t, h, p, name, home);
    assert !KeptAt(t, u, home);
  }

  /** Every directory that may be changed is inside /home/root, so that /home/root can only be renamed where it is,
      or moved into itself. */
  lemma HomeOnlyRenamed(t: Tree, src: string, dest: string)
    requires IsTree(t) && SafeMv(t, false, src, dest) && MvCode(t, false, src, dest) == 0
    requires Resolve(t, src) == HomeRoot(t)
    ensures HomeRoot(t) != null && MvInto(t, src, dest) == Up(t, HomeRoot(t))
    ensures FileOps.Mv(t, false, src, dest) == MoveTo(t, HomeRoot(t), Up(t, HomeRoot(t)), dest)
  {
    MvInTree(t, src, dest);
  }

  function FirstKid(t: Tree, n: Node): Node? {
    if Kids(t, n) == [] then null else Kids(t, n)[0]
  }

  /** Renaming /home/root, to any name, changes nothing outside it if and only if it is the first child of /home. */
  lemma RenameHomeOutside(t: Tree, name: string)
    requires IsTree(t) && HomeRoot(t) != null
    ensures var h := HomeRoot(t);
            OutsideKept(t, MoveTo(t, h, Up(t, h), name)) <==> FirstKid(t, Up(t, h)) == h
  {
    var h, home := HomeRoot(t), Home(t);
    HomeRootInTree(t);
    HomeOutside(t);
    var u := MoveTo(t, h, home, name);
    assert Linked(t, h);
    if FirstKid(t, home) == h {
      assert Kids(t, home) == [h] + Kids(t, home)[1..];
      forall m | m in t.at && Protected(t, m)
        ensures KeptAt(t, u, m)
      {
        assert u.at[m] == MovedEntry(t, h, home, name, m);
      }
    } else {
      assert u.at[home].kids[0] == h;
      assert !KeptAt(t, u, home);
    }
  }

  /** It keeps what is protected if and only if the name is the same. */
  lemma RenameHomeKept(t: Tree, name: string)
    requires IsTree(t) && HomeRoot(t) != null
    ensures var h := HomeRoot(t);
            HomeKept(t, MoveTo(t, h, Up(t, h), name)) <==> name == "root"
  {
    var h, home := HomeRoot(t), Home(t);
    HomeRootInTree(t);
    var u := MoveTo(t, h, home, name);
    if name == "root" {
      RenamedSame(t);
      forall m | m in t.at
        ensures Inside(u, m, h) == Inside(t, m, h)
      {
        SameUpsInside(t, u, m, h);
      }
    } else {
      assert !Named(u, h, "root");
    }
  }

  lemma RenamedAt(t: Tree, k: Node)
    requires IsTree(t) && HomeRoot(t) != null && k in t.at
    ensures var u := MoveTo(t, HomeRoot(t), Home(t), "root");
            k in u.at && u.at[k].up == t.at[k].up && u.at[k].depth == t.at[k].depth && u.at[k].name == t.at[k].name
  {
    var h := HomeRoot(t);
    HomeRootInTree(t);
    assert Linked(t, h);
    if Inside(t, k, h) {
      InsideDepth(t, k, h);
    }
  }

  lemma RenamedSame(t: Tree)
    requires IsTree(t) && HomeRoot(t) != null
    ensures var h := HomeRoot(t);
            var u := MoveTo(t, h, Up(t, h), "root");
            && HomeRoot(u) == h && forall k :: Up(u, k) == Up(t, k) && Depth(u, k) == Depth(t, k)
  {
    var h, home := HomeRoot(t), Home(t);
    HomeRootInTree(t);
    var u := MoveTo(t, h, home, "root");
    forall k | k in t.at
      ensures k in u.at && u.at[k].up == t.at[k].up && u.at[k].depth == t.at[k].depth && u.at[k].name == t.at[k].name
    {
      RenamedAt(t, k);
    }
    assert Linked(t, h) && Linked(t, t.root);
    FindInSame(t, u, Kids(t, t.root), "home");
    assert Home(u) == home;
    FirstFound(u, Kids(u, home), "root");
  }

  lemma FirstFound(t: Tree, ks: seq<Node>, name: string)
    requires ks != [] && Named(t, ks[0], name)
    ensures FindIn(t, ks, name) == ks[0]
  {
  }

  // ---------- the calls that touch /home/root itself ----------

  /** A successful removal of /home/root */
  predicate RemovesHome(t: Tree, op: Op) {
    match op
    case Rm(path) => RmCode(t, false, path) == 0 && RmTarget(t, path) == HomeRoot(t)
    case Rmdir(path) => RmdirCode(t, false, path) == 0 && Resolve(t, path) == HomeRoot(t)
    case RmR(path) => RmRCode(t, false, path) == 0 && Resolve(t, path) == HomeRoot(t)
    case _ => false
  }

  /** A successful move of /home/root, which without sudo renames it where it is or puts it into itself */
  predicate MovesHome(t: Tree, op: Op) {
    op.Mv? && MvCode(t, false, op.src, op.dest) == 0 && Resolve(t, op.src) == HomeRoot(t)
  }

  /** Nodes outside /home/root change: it is removed, moved into itself, or renamed when it was not the first child of
      /home. */
  predicate Disturbs(t: Tree, op: Op) {
    || RemovesHome(t, op)
    || (&& MovesHome(t, op) && HomeRoot(t) != null
        && (MvInto(t, op.src, op.dest) != Up(t, HomeRoot(t)) || FirstKid(t, Up(t, HomeRoot(t))) != HomeRoot(t)))
  }

  /** What is protected changes: /home/root is removed, or gets another name. */
  predicate Displaces(t: Tree, op: Op) {
    RemovesHome(t, op) || (MovesHome(t, op) && op.dest != "root")
  }

  lemma MvConfined(t: Tree, src: string, dest: string)
    requires IsTree(t)
    ensures OutsideKept(t, FileOps.Mv(t, false, src, dest)) <==> !Disturbs(t, Op.Mv(src, dest))
    ensures SafeMv(t, false, src, dest) ==>
            (HomeKept(t, FileOps.Mv(t, false, src, dest)) <==> !Displaces(t, Op.Mv(src, dest)))
  {
    if !SafeMv(t, false, src, dest) {
      MvUnsafe(t, src, dest);
    } else if !MovesHome(t, Op.Mv(src, dest)) {
      MvElsewhere(t, src, dest);
    } else {
      MvHome(t, src, dest);
    }
  }

  lemma MvElsewhere(t: Tree, src: string, dest: string)
    requires IsTree(t) && SafeMv(t, false, src, dest) && !MovesHome(t, Op.Mv(src, dest))
    ensures Confined(t, FileOps.Mv(t, false, src, dest))
    ensures !Disturbs(t, Op.Mv(src, dest)) && !Displaces(t, Op.Mv(src, dest))
  {
    if MvCode(t, false, src, dest) == 0 {
      MvConfinedBelow(t, src, dest);
    } else {
      SameNodesConfined(t, t);
    }
  }

  lemma MvHome(t: Tree, src: string, dest: string)
    requires IsTree(t) && SafeMv(t, false, src, dest) && MvCode(t, false, src, dest) == 0
    requires Resolve(t, src) == HomeRoot(t)
    ensures OutsideKept(t, FileOps.Mv(t, false, src, dest)) <==> !Disturbs(t, Op.Mv(src, dest))
    ensures HomeKept(t, FileOps.Mv(t, false, src, dest)) <==> !Displaces(t, Op.Mv(src, dest))
  {
    HomeOnlyRenamed(t, src, dest);
    MvHomeConfined(t, dest);
    MvDisturbs(t, src, dest);
  }

  lemma MvUnsafe(t: Tree, src: string, dest: string)
    requires IsTree(t) && !SafeMv(t, false, src, dest)
    ensures OutsideKept(t, FileOps.Mv(t, false, src, dest)) <==> !Disturbs(t, Op.Mv(src, dest))
  {
    var n, p, name := Resolve(t, src), MvInto(t, src, dest), MvName(t, src, dest);
    MvInTree(t, src, dest);
    if n == HomeRoot(t) {
      HomeIntoItself(t, p, name);
    } else {
      MoveOutsideKept(t, n, p, name);
    }
  }

  lemma MvHomeConfined(t: Tree, dest: string)
    requires IsTree(t) && HomeRoot(t) != null
    ensures var h := HomeRoot(t);
            var u := MoveTo(t, h, Up(t, h), dest);
            && (OutsideKept(t, u) <==> FirstKid(t, Up(t, h)) == h)
            && (HomeKept(t, u) <==> dest == "root")
  {
    RenameHomeOutside(t, dest);
    RenameHomeKept(t, dest);
  }

  lemma MvDisturbs(t: Tree, src: string, dest: string)
    requires MvCode(t, false, src, dest) == 0 && Resolve(t, src) == HomeRoot(t) && HomeRoot(t) != null
    requires MvInto(t, src, dest) == Up(t, HomeRoot(t))
    ensures Disturbs(t, Op.Mv(src, dest)) <==> FirstKid(t, Up(t, HomeRoot(t))) != HomeRoot(t)
    ensures Displaces(t, Op.Mv(src, dest)) <==> dest != "root"
  {
  }

  lemma RmConfined(t: Tree, path: string)
    requires IsTree(t)
    ensures OutsideKept(t, FileOps.Rm(t, false, path)) <==> !Disturbs(t, Op.Rm(path))
    ensures HomeKept(t, FileOps.Rm(t, false, path)) <==> !Displaces(t, Op.Rm(path))
  {
    SameNodesConfined(t, t);
    if RmCode(t, false, path) == 0 {
      RmTargetInTree(t, path);
      UnlinkConfined(t, RmTarget(t, path), FileOps.Rm(t, false, path));
    }
  }

  lemma RmdirConfined(t: Tree, path: string)
    requires IsTree(t)
    ensures OutsideKept(t, FileOps.Rmdir(t, false, path)) <==> !Disturbs(t, Op.Rmdir(path))
    ensures HomeKept(t, FileOps.Rmdir(t, false, path)) <==> !Displaces(t, Op.Rmdir(path))
  {
    SameNodesConfined(t, t);
    if RmdirCode(t, false, path) == 0 {
      UnlinkConfined(t, Resolve(t, path), FileOps.Rmdir(t, false, path));
    }
  }

  lemma RmRConfined(t: Tree, path: string)
    requires IsTree(t)
    ensures OutsideKept(t, FileOps.RmR(t, false, path)) <==> !Disturbs(t, Op.RmR(path))
    ensures HomeKept(t, FileOps.RmR(t, false, path)) <==> !Displaces(t, Op.RmR(path))
  {
    SameNodesConfined(t, t);
    if RmRCode(t, false, path) == 0 {
      ResolveInTree(t, path);
      UnlinkConfined(t, Resolve(t, path), FileOps.RmR(t, false, path));
    }
  }

  lemma WriteConfined(t: Tree, path: string, n: Node, b: Buffer)
    requires Sound(t) && n !in t.nodes
    ensures Confined(t, FileOps.Write(t, false, path, n, b))
  {
    var t1, m := WriteTree(t, false, path, n), WriteTarget(t, false, path, n);
    CreateConfined(t, path, false, n);
    SameNodesConfined(t, t);
    CreateKeeps(t, false, path, false, n);
    if WriteCode(t, false, path, n) == 0 && m in t1.at {
      SetDataConfined(t1, m, b);
      ConfinedTrans(t, t1, SetData(t1, m, b));
    }
  }

  lemma CpConfined(t: Tree, src: string, dest: string, n: Node, b: Buffer?)
    requires Sound(t) && n !in t.nodes
    ensures Confined(t, FileOps.Cp(t, false, src, dest, n, b))
  {
    var to := CpPath(t, src, dest);
    var t1 := Create(t, false, to, false, n);
    CreateConfined(t, to, false, n);
    SameNodesConfined(t, t);
    CreateKeeps(t, false, to, false, n);
    if CpCode(t, false, src, dest) == 0 {
      FreshOutside(t, n);
      CreateWithin(t, to, false, n);
      assert ProtectedIn(t, n) ==> n in t.at;
      if b != null {
        SetDataConfined(t1, n, b);
        ConfinedTrans(t, t1, SetData(t1, n, b));
      }
    }
  }

  /**
   * Without sudo, a call leaves every node outside /home/root as it is if and only if it does not remove /home/root,
   * move it into itself, or rename it behind a sibling; and unless it is a move of a node into itself, after which
   * there are no ancestors to go by, it keeps what is protected if and only if it neither removes nor renames it.
   */
  lemma StepConfined(t: Tree, op: Op)
    requires Sound(t) && Allowed(State(t, false), op)
    ensures OutsideKept(t, Apply(State(t, false), op).tree) <==> !Disturbs(t, op)
    ensures Safe(State(t, false), op) ==> (HomeKept(t, Apply(State(t, false), op).tree) <==> !Displaces(t, op))
  {
    match op
    case Mkdir(path, n) => CreateConfined(t, path, true, n);
    case Touch(path, n) => CreateConfined(t, path, false, n);
    case Cd(path) => SameNodesConfined(t, FileOps.Cd(t, path));
    case Rm(path) => RmConfined(t, path);
    case Rmdir(path) => RmdirConfined(t, path);
    case RmR(path) => RmRConfined(t, path);
    case Write(path, n, b) => WriteConfined(t, path, n, b);
    case Mv(src, dest) => MvConfined(t, src, dest);
    case Cp(src, dest, n, b) => CpConfined(t, src, dest, n, b);
    case SetSudo(_) => SameNodesConfined(t, t);
  }

  ghost predicate Harmless(s: State, ops: seq<Op>)
    decreases |ops|
  {
    ops == [] ||
    (&& !s.sudo && ops[0] != SetSudo(true) && !Disturbs(s.tree, ops[0]) && !Displaces(s.tree, ops[0])
     && Harmless(Apply(s, ops[0]), ops[1..]))
  }

  /** Over whole runs of such calls without sudo, every node outside /home/root keeps all its fields. */
  lemma {:induction false} RunConfined(s: State, ops: seq<Op>)
    requires Sound(s.tree) && LegalRun(s, ops) && Harmless(s, ops)
    ensures Confined(s.tree, Run(s, ops).tree)
    decreases |ops|
  {
    if ops == [] {
      SameNodesConfined(s.tree, s.tree);
    } else {
      var next := Apply(s, ops[0]);
      assert s == State(s.tree, false);
      StepConfined(s.tree, ops[0]);
      StepSound(s, ops[0]);
      RunConfined(next, ops[1..]);
      ConfinedTrans(s.tree, next.tree, Run(next, ops[1..]).tree);
    }
  }

  /** A cp_r without sudo, being a run of mkdir and cp calls, changes nothing outside /home/root. */
  lemma CopiesConfined(t: Tree, ops: seq<Op>, u: Tree)
    requires Sound(t) && Copies(t, false, ops, u)
    ensures Confined(t, u)
  {
    CopiesHarmless(t, ops, u);
    RunConfined(State(t, false), ops);
  }

  lemma {:induction false} CopiesHarmless(t: Tree, ops: seq<Op>, u: Tree)
    requires Copies(t, false, ops, u)
    ensures Harmless(State(t, false), ops)
    decreases |ops|
  {
    if ops != [] {
      CopiesHarmless(Apply(State(t, false), ops[0]).tree, ops[1..], u);
    }
  }

  // ---------- writing ----------

  /** A write that had to create its file is never refused afterwards: protection is inherited. */
  lemma WriteAfterTouch(t: Tree, sudo: bool, path: string, n: Node)
    requires Sound(t) && n !in t.nodes && Resolve(t, path) == null
    ensures WriteCode(t, sudo, path, n) == if Place(t, sudo, path) == null then -1 else 0
  {
    var p := Place(t, sudo, path);
    if p != null {
      FreshOutside(t, n);
      var u := Create(t, sudo, path, false, n);
      CreateAdded(t, sudo, path, false, n);
      CreateIsTree(t, sudo, path, false, n);
      if !sudo {
        ProtectedGrows(t, u, p, n);
      }
    }
  }
}
