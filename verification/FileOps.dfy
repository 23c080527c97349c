/** The operations of vfs.c on trees: what each one returns and does to the tree, and runs of them. */
module FileOps {
  import opened FileNode
  import opened Paths
  import opened FileTree
  import opened TreeOps

  /** The node whose chain mkdir, touch and rm look at, if the path names one */
  function Parent(t: Tree, path: string): Node? {
    var k := LastSlash(path);
    if k == -1 then t.cur else if k == 0 then t.root else Resolve(t, path[..k])
  }

  predicate MayChange(t: Tree, sudo: bool, n: Node) {
    !Protected(t, n) || sudo
  }

  /** The directory in which mkdir and touch create, if they may */
  function Place(t: Tree, sudo: bool, path: string): Node? {
    var p := Parent(t, path);
    if p == null || !IsDir(t, p) || !MayChange(t, sudo, p) then null else p
  }

  /** vfs_mkdir and vfs_touch; n is the node that kmalloc returns */
  function Create(t: Tree, sudo: bool, path: string, dir: bool, n: Node): Tree {
    var p := Place(t, sudo, path);
    if p == null then t else Append(t, p, n, BaseName(path), dir)
  }

  function CdCode(t: Tree, path: string): int {
    var n := Resolve(t, path);
    if n == null then -1 else if !IsDir(t, n) then -2 else 0
  }

  function Cd(t: Tree, path: string): Tree {
    if CdCode(t, path) == 0 then t.(cur := Resolve(t, path)) else t
  }

  /** The first child of the parent with the last name of the path */
  function RmTarget(t: Tree, path: string): Node? {
    var p := Parent(t, path);
    if p == null then null else FindChild(t, p, BaseName(path))
  }

  function RmCode(t: Tree, sudo: bool, path: string): int {
    var n := RmTarget(t, path);
    if n == null then -1
    else if !MayChange(t, sudo, n) then -3
    else if IsDir(t, n) then -2
    else 0
  }

  ghost function Rm(t: Tree, sudo: bool, path: string): Tree {
    if RmCode(t, sudo, path) == 0 then Prune(t, RmTarget(t, path)) else t
  }

  function RmdirCode(t: Tree, sudo: bool, path: string): int {
    var n := Resolve(t, path);
    if n == null then -1
    else if n == t.root then -4
    else if n == t.cur then -5
    else if !IsDir(t, n) then -2
    else if Kids(t, n) != [] then -3
    else if !MayChange(t, sudo, n) then -4
    else 0
  }

  ghost function Rmdir(t: Tree, sudo: bool, path: string): Tree {
    if RmdirCode(t, sudo, path) == 0 then Prune(t, Resolve(t, path)) else t
  }

  function RmRCode(t: Tree, sudo: bool, path: string): int {
    var n := Resolve(t, path);
    if n == null then -1
    else if n == t.root then -5
    else if n == t.cur then -4
    else if !MayChange(t, sudo, n) then -3
    else 0
  }

  /**
   * Without sudo, /home/root itself is unlinked but, once unlinked, protected: nothing of it is freed.
   * Of a file, the node is freed and the data is not.
   */
  ghost function Removed(t: Tree, sudo: bool, n: Node): Tree {
    if sudo || n != HomeRoot(t) then Cut(t, n) else Unlink(t, n)
  }

  ghost function RmR(t: Tree, sudo: bool, path: string): Tree {
    if RmRCode(t, sudo, path) == 0 then Removed(t, sudo, Resolve(t, path)) else t
  }

  function MvCode(t: Tree, sudo: bool, src: string, dest: string): int {
    var n, d := Resolve(t, src), Resolve(t, dest);
    if n == null then -1
    else if n == t.root then -3
    else if !MayChange(t, sudo, n) then -3
    else if d != null && IsDir(t, d) && !MayChange(t, sudo, d) then -4
    else 0
  }

  /** The directory that a move puts its node into: an existing one, or its own parent for a renaming */
  function MvInto(t: Tree, src: string, dest: string): Node
    requires Resolve(t, src) != null
  {
    var d := Resolve(t, dest);
    if d != null && IsDir(t, d) then d else Up(t, Resolve(t, src))
  }

  function MvName(t: Tree, src: string, dest: string): string
    requires Resolve(t, src) != null
  {
    var n, d := Resolve(t, src), Resolve(t, dest);
    if d != null && IsDir(t, d) && n in t.at then t.at[n].name else dest
  }

  ghost function Mv(t: Tree, sudo: bool, src: string, dest: string): Tree {
    if MvCode(t, sudo, src, dest) != 0 then t
    else MoveTo(t, Resolve(t, src), MvInto(t, src, dest), MvName(t, src, dest))
  }

  /** The source leaves the tree a tree exactly when this holds. */
  predicate SafeMv(t: Tree, sudo: bool, src: string, dest: string) {
    MvCode(t, sudo, src, dest) == 0 ==> !Inside(t, MvInto(t, src, dest), Resolve(t, src))
  }

  /** The tree in which vfs_write looks for its node: it may have to create one. */
  function WriteTree(t: Tree, sudo: bool, path: string, n: Node): Tree {
    if Resolve(t, path) == null then Create(t, sudo, path, false, n) else t
  }

  function WriteTarget(t: Tree, sudo: bool, path: string, n: Node): Node? {
    if Resolve(t, path) != null then Resolve(t, path)
    else if Place(t, sudo, path) == null then null
    else n
  }

  function WriteCode(t: Tree, sudo: bool, path: string, n: Node): int {
    var t1, m := WriteTree(t, sudo, path, n), WriteTarget(t, sudo, path, n);
    if m == null then -1
    else if IsDir(t1, m) then -2
    else if !MayChange(t1, sudo, m) then -3
    else 0
  }

  /** What the written file will hold */
  function WriteText(t: Tree, path: string, text: string, append: bool): string {
    var m := Resolve(t, path);
    if append && m != null && m in t.at && t.at[m].data != null then t.at[m].data.text + text else text
  }

  function Write(t: Tree, sudo: bool, path: string, n: Node, b: Buffer?): Tree {
    var t1, m := WriteTree(t, sudo, path, n), WriteTarget(t, sudo, path, n);
    if WriteCode(t, sudo, path, n) == 0 && m in t1.at && b != null then SetData(t1, m, b) else t1
  }

  /** The path that vfs_cp creates: a name in an existing directory, or the destination itself */
  function CpPath(t: Tree, src: string, dest: string): string {
    var n, d := Resolve(t, src), Resolve(t, dest);
    if d != null && IsDir(t, d) && n != null && n in t.at then dest + "/" + t.at[n].name else dest
  }

  function CpCode(t: Tree, sudo: bool, src: string, dest: string): int {
    var n := Resolve(t, src);
    if n == null then -1
    else if IsDir(t, n) then -2
    else if Place(t, sudo, CpPath(t, src, dest)) == null then -3
    else 0
  }

  function Cp(t: Tree, sudo: bool, src: string, dest: string, n: Node, b: Buffer?): Tree {
    var from, to := Resolve(t, src), CpPath(t, src, dest);
    if CpCode(t, sudo, src, dest) != 0 then t
    else
      var t1 := Create(t, sudo, to, false, n);
      if from in t.at && t.at[from].data != null && n in t1.at && b != null then SetData(t1, n, b) else t1
  }

  lemma CreateNodes(t: Tree, sudo: bool, path: string, dir: bool, n: Node, m: Node)
    ensures m in Create(t, sudo, path, dir, n).at ==> m in t.at || m == n
  {
  }

  lemma CpNodes(t: Tree, sudo: bool, src: string, dest: string, n: Node, b: Buffer?, m: Node)
    requires m in Cp(t, sudo, src, dest, n, b).at
    ensures m in t.at || (m == n && CpCode(t, sudo, src, dest) == 0)
  {
  }

  // ---------- the results are nodes of the tree ----------

  lemma ParentInTree(t: Tree, path: string)
    requires IsTree(t) && Parent(t, path) != null
    ensures Parent(t, path) in t.at
  {
    if LastSlash(path) > 0 {
      ResolveInTree(t, path[..LastSlash(path)]);
    }
  }

  lemma RmTargetInTree(t: Tree, path: string)
    requires IsTree(t) && RmTarget(t, path) != null
    ensures RmTarget(t, path) in t.at && RmTarget(t, path) != t.root
  {
    FindChildInTree(t, Parent(t, path), BaseName(path));
  }

  lemma MvInTree(t: Tree, src: string, dest: string)
    requires IsTree(t) && Resolve(t, src) != null && Resolve(t, src) != t.root
    ensures Resolve(t, src) in t.at && IsDir(t, MvInto(t, src, dest))
    ensures MvInto(t, src, dest) == Up(t, Resolve(t, src)) ==> !Inside(t, MvInto(t, src, dest), Resolve(t, src))
  {
    var n := Resolve(t, src);
    ResolveInTree(t, src);
    assert Linked(t, n) && Linked(t, Up(t, n));
    if Inside(t, Up(t, n), n) {
      InsideDepth(t, Up(t, n), n);
    }
  }

  // ---------- every operation keeps the tree ----------

  lemma FreshOutside(t: Tree, n: Node)
    requires Owned(t) && n !in t.nodes
    ensures n !in t.at
  {
    assert n in t.at ==> OwnedAt(t, n);
  }

  lemma CreateKeeps(t: Tree, sudo: bool, path: string, dir: bool, n: Node)
    requires IsTree(t) && Owned(t) && n !in t.nodes
    ensures IsTree(Create(t, sudo, path, dir, n)) && Owned(Create(t, sudo, path, dir, n))
    ensures NoLeak(t) ==> NoLeak(Create(t, sudo, path, dir, n))
  {
    var p := Place(t, sudo, path);
    FreshOutside(t, n);
    if p != null {
      AppendIsTree(t, p, n, BaseName(path), dir);
      AppendOwned(t, p, n, BaseName(path), dir);
    }
  }

  lemma PruneKeeps(t: Tree, n: Node)
    requires IsTree(t) && Owned(t) && n in t.at && n != t.root
    ensures IsTree(Prune(t, n)) && Owned(Prune(t, n)) && (NoLeak(t) ==> NoLeak(Prune(t, n)))
  {
    UnlinkIsTree(t, n);
    TreeAnyway(Unlink(t, n), Prune(t, n));
    PruneOwned(t, n);
  }

  lemma CdKeeps(t: Tree, path: string)
    requires IsTree(t) && Owned(t)
    ensures IsTree(Cd(t, path)) && Owned(Cd(t, path)) && (NoLeak(t) ==> NoLeak(Cd(t, path)))
  {
    if CdCode(t, path) == 0 {
      TreeAnyway(t, Cd(t, path));
      OwnedAnyway(t, Cd(t, path));
    }
  }

  lemma RmKeeps(t: Tree, sudo: bool, path: string)
    requires IsTree(t) && Owned(t)
    ensures IsTree(Rm(t, sudo, path)) && Owned(Rm(t, sudo, path)) && (NoLeak(t) ==> NoLeak(Rm(t, sudo, path)))
  {
    if RmCode(t, sudo, path) == 0 {
      RmTargetInTree(t, path);
      PruneKeeps(t, RmTarget(t, path));
    }
  }

  lemma RmdirKeeps(t: Tree, sudo: bool, path: string)
    requires IsTree(t) && Owned(t)
    ensures IsTree(Rmdir(t, sudo, path)) && Owned(Rmdir(t, sudo, path)) && (NoLeak(t) ==> NoLeak(Rmdir(t, sudo, path)))
  {
    if RmdirCode(t, sudo, path) == 0 {
      PruneKeeps(t, Resolve(t, path));
    }
  }

  /** rm_r loses memory exactly when it takes out /home/root without sudo, or a file that has data. */
  predicate RmRLeaks(t: Tree, sudo: bool, path: string) {
    var n := Resolve(t, path);
    RmRCode(t, sudo, path) == 0 && ((!sudo && n == HomeRoot(t)) || (n in t.at && t.at[n].data != null))
  }

  lemma RmRKeeps(t: Tree, sudo: bool, path: string)
    requires IsTree(t) && Owned(t)
    ensures IsTree(RmR(t, sudo, path)) && Owned(RmR(t, sudo, path))
    ensures NoLeak(t) ==> (NoLeak(RmR(t, sudo, path)) <==> !RmRLeaks(t, sudo, path))
  {
    if RmRCode(t, sudo, path) == 0 {
      var n := Resolve(t, path);
      ResolveInTree(t, path);
      UnlinkIsTree(t, n);
      UnlinkOwned(t, n);
      assert OwnedAt(t, n) && n !in Unlink(t, n).at;
      TreeAnyway(Unlink(t, n), Cut(t, n));
      CutOwned(t, n);
    }
  }

  lemma MvKeeps(t: Tree, sudo: bool, src: string, dest: string)
    requires IsTree(t) && Owned(t) && SafeMv(t, sudo, src, dest)
    ensures IsTree(Mv(t, sudo, src, dest)) && Owned(Mv(t, sudo, src, dest))
    ensures NoLeak(t) ==> NoLeak(Mv(t, sudo, src, dest))
  {
    if MvCode(t, sudo, src, dest) == 0 {
      MvInTree(t, src, dest);
      MoveIsTree(t, Resolve(t, src), MvInto(t, src, dest), MvName(t, src, dest));
      MoveOwned(t, Resolve(t, src), MvInto(t, src, dest), MvName(t, src, dest));
    }
  }

  /** Some levels make the result of a move a tree exactly when the move is safe. */
  lemma MvShape(t: Tree, sudo: bool, src: string, dest: string)
    requires IsTree(t)
    ensures (exists u :: SameLinks(Mv(t, sudo, src, dest), u) && IsTree(u)) <==> SafeMv(t, sudo, src, dest)
  {
    if MvCode(t, sudo, src, dest) == 0 {
      MvInTree(t, src, dest);
      MoveShape(t, Resolve(t, src), MvInto(t, src, dest), MvName(t, src, dest));
    } else {
      assert SameLinks(t, t);
    }
  }

  lemma WriteKeeps(t: Tree, sudo: bool, path: string, n: Node, b: Buffer?)
    requires IsTree(t) && Owned(t) && b !in t.buffers
    requires Resolve(t, path) == null && Place(t, sudo, path) != null ==> n !in t.nodes
    ensures IsTree(Write(t, sudo, path, n, b)) && Owned(Write(t, sudo, path, n, b))
    ensures NoLeak(t) ==> NoLeak(Write(t, sudo, path, n, b))
  {
    if Resolve(t, path) == null && Place(t, sudo, path) != null {
      CreateKeeps(t, sudo, path, false, n);
    }
    var t1, m := WriteTree(t, sudo, path, n), WriteTarget(t, sudo, path, n);
    if WriteCode(t, sudo, path, n) == 0 && m in t1.at && b != null {
      SetDataIsTree(t1, m, b);
      SetDataOwned(t1, m, b);
    }
  }

  lemma CpKeeps(t: Tree, sudo: bool, src: string, dest: string, n: Node, b: Buffer?)
    requires IsTree(t) && Owned(t) && n !in t.nodes && b !in t.buffers
    ensures IsTree(Cp(t, sudo, src, dest, n, b)) && Owned(Cp(t, sudo, src, dest, n, b))
    ensures NoLeak(t) ==> NoLeak(Cp(t, sudo, src, dest, n, b))
  {
    if CpCode(t, sudo, src, dest) == 0 {
      CreateKeeps(t, sudo, CpPath(t, src, dest), false, n);
      var t1 := Create(t, sudo, CpPath(t, src, dest), false, n);
      if b != null {
        SetDataIsTree(t1, n, b);
        SetDataOwned(t1, n, b);
      }
    }
  }

  // ---------- protection while a subtree is being removed ----------

  lemma {:induction false} FindInSame(t: Tree, u: Tree, ks: seq<Node>, name: string)
    requires forall k :: k in ks ==> (Named(t, k, name) <==> Named(u, k, name))
    ensures FindIn(t, ks, name) == FindIn(u, ks, name)
  {
    if ks != [] && !Named(t, ks[0], name) {
      FindInSame(t, u, ks[1..], name);
    }
  }

  lemma DetachFind(t: Tree, n: Node, d: Node, name: string)
    requires n in t.at && Up(t, n) in t.at && d != Up(t, n)
    ensures FindChild(Detach(t, n), d, name) == FindChild(t, d, name)
  {
    FindInSame(t, Detach(t, n), Kids(t, d), name);
  }

  /** A node strictly below /home/root can be detached without changing what is protected below it. */
  lemma DetachBelowHome(t: Tree, n: Node, m: Node)
    requires IsTree(t) && n in t.at && !Protected(t, n) && n != HomeRoot(t) && Inside(t, m, n)
    ensures n != t.root && Up(t, n) in t.at && !Protected(Detach(t, n), m)
  {
    var h := HomeRoot(t);
    HomeRootInTree(t);
    assert Linked(t, n) && Linked(t, h) && Linked(t, Home(t)) && Linked(t, t.root);
    if Up(t, n) == t.root {
      RootInside(t, h);
    }
    if Up(t, n) == Home(t) {
      InsideDepth(t, Home(t), h);
    }
    DetachFind(t, n, t.root, "home");
    DetachFind(t, n, Home(t), "root");
    InsideTrans(t, m, n, h);
    DetachInside(t, n, m, h);
  }

  /** Once /home/root is detached, everything in it is protected. */
  lemma DetachHome(t: Tree, m: Node)
    requires IsTree(t) && HomeRoot(t) != null && Inside(t, m, HomeRoot(t))
    ensures var n := HomeRoot(t); n in t.at && Up(t, n) in t.at && Protected(Detach(t, n), m)
  {
    var n := HomeRoot(t);
    HomeRootInTree(t);
    assert Linked(t, n) && Linked(t, Home(t));
    DetachFind(t, n, t.root, "home");
    var t' := Detach(t, n);
    var other := HomeRoot(t');
    if other != null {
      WithoutKeeps(t.at[Home(t)].kids, n);
      assert ChildOf(t, other, Home(t));
      SiblingsApart(t, m, n, other);
      DetachInside(t, n, m, other);
    }
  }

  /** Below a detached node, everything is protected or nothing is, unless sudo makes no difference. */
  predicate Uniform(t: Tree, sudo: bool, n: Node) {
    sudo || forall m {:trigger Protected(t, m)} ::
              m in t.at && Inside(t, m, n) ==> (Protected(t, m) <==> Protected(t, n))
  }

  lemma DetachUniform(t: Tree, sudo: bool, n: Node)
    requires IsTree(t) && n in t.at && n != t.root && MayChange(t, sudo, n)
    ensures Up(t, n) in t.at && Uniform(Detach(t, n), sudo, n)
    ensures MayChange(Detach(t, n), sudo, n) <==> sudo || n != HomeRoot(t)
  {
    assert Linked(t, n);
    var t' := Detach(t, n);
    if !sudo {
      forall m | m in t'.at && Inside(t', m, n)
        ensures Protected(t', m) <==> n == HomeRoot(t)
      {
        DetachInside(t, n, m, n);
        if n == HomeRoot(t) {
          DetachHome(t, m);
        } else {
          DetachBelowHome(t, n, m);
        }
      }
      assert Inside(t', n, n);
    }
  }

  /** Protection depends on the nodes only, not on the working directory or on what is allocated. */
  lemma {:induction false} InsideAnyway(t: Tree, u: Tree, m: Node, a: Node)
    requires u.at == t.at && u.root == t.root
    ensures Inside(u, m, a) == Inside(t, m, a)
    decreases Depth(t, m)
  {
    if m != a && Depth(t, Up(t, m)) < Depth(t, m) {
      InsideAnyway(t, u, Up(t, m), a);
    }
  }

  lemma ProtectedAnyway(t: Tree, u: Tree, m: Node)
    requires u.at == t.at && u.root == t.root
    ensures Protected(u, m) == Protected(t, m)
  {
    FindInSame(t, u, Kids(t, t.root), "home");
    var home := Home(t);
    if home != null {
      FindInSame(t, u, Kids(t, home), "root");
      if HomeRoot(t) != null {
        InsideAnyway(t, u, m, HomeRoot(t));
      }
    }
  }

  /** What is freed by rm_recursive: all of the subtree but the data of its top node, or nothing */
  ghost function Freed(t: Tree, sudo: bool, n: Node): set<Node> {
    if MayChange(t, sudo, n) then Subtree(t, n) else {}
  }
}
