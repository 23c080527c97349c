/** What each call returns and does, in terms of the paths given and the links, names and texts before it. */
module FileEffects {
  import opened FileNode
  import opened Paths
  import opened FileTree
  import opened TreeOps
  import opened FileOps
  import opened Resolution
  import opened PathLaws
  import Confinement
  import Copying

  // ---------- who may change what ----------

  /** sudo may change everything, anyone else only the node at the path /home/root and what is inside it. */
  predicate Open(t: Tree, sudo: bool, n: Node) {
    sudo || (Resolve(t, "/home/root") != null && Inside(t, n, Resolve(t, "/home/root")))
  }

  lemma MayChangeIs(t: Tree, sudo: bool, n: Node)
    ensures MayChange(t, sudo, n) <==> Open(t, sudo, n)
  {
    HomeRootIs(t);
  }

  /** Where mkdir, touch, cp and rm look for the last name of a path */
  lemma ParentIs(t: Tree, front: string, name: string)
    requires SlashFree(name)
    ensures Parent(t, name) == t.cur && BaseName(name) == name
    ensures Parent(t, "/" + name) == t.root && BaseName("/" + name) == name
    ensures front != "" ==> Parent(t, front + "/" + name) == Resolve(t, front) && BaseName(front + "/" + name) == name
  {
    LastSlashIs(name, -1);
    RootChild(name);
    if front != "" {
      Cut(front, name, front + "/" + name);
    }
  }

  lemma RootChild(name: string)
    requires SlashFree(name)
    ensures LastSlash("/" + name) == 0 && BaseName("/" + name) == name
  {
    var path := "/" + name;
    LastSlashIs(path, 0);
    assert path[1..] == name;
  }

  lemma Cut(front: string, name: string, path: string)
    requires front != "" && SlashFree(name) && path == front + "/" + name
    ensures LastSlash(path) == |front| && path[..|front|] == front && BaseName(path) == name
  {
    BaseNameOfChild(front, name);
  }

  // ---------- return codes ----------

  lemma CdCodes(t: Tree, path: string)
    ensures var n, c := Resolve(t, path), CdCode(t, path);
            && (c == -1 <==> n == null)
            && (c == -2 <==> n != null && !IsDir(t, n))
            && (c == 0 <==> n != null && IsDir(t, n))
  {
  }

  /** rm looks at protection before it looks at the type. */
  lemma RmCodes(t: Tree, sudo: bool, path: string)
    ensures var n, c := RmTarget(t, path), RmCode(t, sudo, path);
            && (n == null <==> Parent(t, path) == null || FindChild(t, Parent(t, path), BaseName(path)) == null)
            && (c == -1 <==> n == null)
            && (c == -3 <==> n != null && !Open(t, sudo, n))
            && (c == -2 <==> n != null && Open(t, sudo, n) && IsDir(t, n))
            && (c == 0 <==> n != null && Open(t, sudo, n) && !IsDir(t, n))
  {
    var n := RmTarget(t, path);
    if n != null {
      MayChangeIs(t, sudo, n);
    }
  }

  /** rmdir looks at protection last. */
  lemma RmdirCodes(t: Tree, sudo: bool, path: string)
    ensures var n, c := Resolve(t, path), RmdirCode(t, sudo, path);
            var plain := n != null && n != t.root && n != t.cur;
            && (c == -1 <==> n == null)
            && (c == -5 <==> n != null && n != t.root && n == t.cur)
            && (c == -2 <==> plain && !IsDir(t, n))
            && (c == -3 <==> plain && IsDir(t, n) && Kids(t, n) != [])
            && (c == -4 <==> n == t.root || (plain && IsDir(t, n) && Kids(t, n) == [] && !Open(t, sudo, n)))
            && (c == 0 <==> plain && IsDir(t, n) && Kids(t, n) == [] && Open(t, sudo, n))
  {
    var n := Resolve(t, path);
    if n != null {
      MayChangeIs(t, sudo, n);
    }
  }

  lemma RmRCodes(t: Tree, sudo: bool, path: string)
    ensures var n, c := Resolve(t, path), RmRCode(t, sudo, path);
            var plain := n != null && n != t.root && n != t.cur;
            && (c == -1 <==> n == null)
            && (c == -5 <==> n == t.root)
            && (c == -4 <==> n != null && n != t.root && n == t.cur)
            && (c == -3 <==> plain && !Open(t, sudo, n))
            && (c == 0 <==> plain && Open(t, sudo, n))
  {
    var n := Resolve(t, path);
    if n != null {
      MayChangeIs(t, sudo, n);
    }
  }

  lemma MvCodes(t: Tree, sudo: bool, src: string, dest: string)
    ensures var n, d, c := Resolve(t, src), Resolve(t, dest), MvCode(t, sudo, src, dest);
            var movable := n != null && n != t.root && Open(t, sudo, n);
            var barred := d != null && IsDir(t, d) && !Open(t, sudo, d);
            && (c == -1 <==> n == null)
            && (c == -3 <==> n != null && !movable)
            && (c == -4 <==> movable && barred)
            && (c == 0 <==> movable && !barred)
  {
    var n, d := Resolve(t, src), Resolve(t, dest);
    if n != null {
      MayChangeIs(t, sudo, n);
    }
    if d != null {
      MayChangeIs(t, sudo, d);
    }
  }

  lemma CpCodes(t: Tree, sudo: bool, src: string, dest: string)
    ensures var n, c := Resolve(t, src), CpCode(t, sudo, src, dest);
            && (c == -1 <==> n == null)
            && (c == -2 <==> n != null && IsDir(t, n))
            && (c == -3 <==> n != null && !IsDir(t, n) && Place(t, sudo, CpPath(t, src, dest)) == null)
            && (c == 0 <==> n != null && !IsDir(t, n) && Place(t, sudo, CpPath(t, src, dest)) != null)
  {
  }

  /** cp_r reports what its first mkdir says, and nothing of the children. */
  lemma CpRCodes(t: Tree, sudo: bool, src: string, dest: string)
    ensures var n, c := Resolve(t, src), Copying.CpRCode(t, sudo, src, dest);
            && (c == -1 <==> n == null)
            && (c == -3 <==> n != null && Place(t, sudo, CpPath(t, src, dest)) == null)
            && (c == 0 <==> n != null && Place(t, sudo, CpPath(t, src, dest)) != null)
  {
  }

  /** write fails with -1 when there is no such node and none can be created; what it created it may write. */
  lemma WriteCodes(t: Tree, sudo: bool, path: string, n: Node)
    requires Sound(t) && n !in t.nodes
    ensures var m, c := Resolve(t, path), WriteCode(t, sudo, path, n);
            && (c == -1 <==> m == null && Place(t, sudo, path) == null)
            && (c == -2 <==> m != null && IsDir(t, m))
            && (c == -3 <==> m != null && !IsDir(t, m) && !Open(t, sudo, m))
            && (m != null && c == 0 <==> m != null && !IsDir(t, m) && Open(t, sudo, m))
  {
    var m := Resolve(t, path);
    if m != null {
      MayChangeIs(t, sudo, m);
    }
    if Resolve(t, path) == null && Place(t, sudo, path) != null {
      Confinement.WriteAfterTouch(t, sudo, path, n);
    }
  }

  // ---------- mkdir and touch ----------

  /** Creation succeeds exactly if the path without its last name leads to a directory that may be changed; for a path
      without a slash that is the working directory, and for a slash and a name the root. */
  lemma PlaceIs(t: Tree, sudo: bool, front: string, name: string)
    requires SlashFree(name) && front != ""
    ensures var p := Resolve(t, front);
            Place(t, sudo, front + "/" + name) == if p != null && IsDir(t, p) && Open(t, sudo, p) then p else null
    ensures Place(t, sudo, name) == if IsDir(t, t.cur) && Open(t, sudo, t.cur) then t.cur else null
    ensures Place(t, sudo, "/" + name) == if IsDir(t, t.root) && Open(t, sudo, t.root) then t.root else null
  {
    ParentIs(t, front, name);
    MayChangeIs(t, sudo, t.cur);
    MayChangeIs(t, sudo, t.root);
    var p := Resolve(t, front);
    if p != null {
      MayChangeIs(t, sudo, p);
    }
  }

  /** The new node is behind all children of its directory, has the last name of the path, and nothing in it; no other
      node changes. */
  lemma CreateIs(t: Tree, sudo: bool, path: string, dir: bool, n: Node)
    requires IsTree(t) && n !in t.at && Place(t, sudo, path) != null
    ensures var u, p := Create(t, sudo, path, dir, n), Place(t, sudo, path);
            && u.at.Keys == t.at.Keys + {n} && u.root == t.root && u.cur == t.cur
            && u.nodes == t.nodes + {n} && u.buffers == t.buffers
            && p in t.at && Kids(u, p) == Kids(t, p) + [n] && Up(u, n) == p && NameOf(u, n) == BaseName(path)
            && IsDir(u, n) == dir && Kids(u, n) == [] && DataOf(u, n) == null
            && forall m :: m in t.at ==>
                 NameOf(u, m) == NameOf(t, m) && Up(u, m) == Up(t, m) && IsDir(u, m) == IsDir(t, m)
                 && DataOf(u, m) == DataOf(t, m) && (m != p ==> Kids(u, m) == Kids(t, m))
  {
  }

  // ---------- mv ----------

  /** Node m when n has gone to the front of the children of p under a name: its kind, data, name and parent, and its
      children, of which n has left and the others keep their order */
  predicate AfterMove(t: Tree, u: Tree, n: Node, p: Node, name: string, m: Node) {
    && m in u.at && IsDir(u, m) == IsDir(t, m) && DataOf(u, m) == DataOf(t, m)
    && NameOf(u, m) == (if m == n then name else NameOf(t, m))
    && Up(u, m) == (if m == n then p else Up(t, m))
    && Kids(u, m) == (if m == p then [n] else []) + Without(Kids(t, m), n)
  }

  ghost predicate Moved(t: Tree, u: Tree, n: Node, p: Node, name: string) {
    match t
    case Tree(at, root, cur, nodes, buffers) =>
      && u.at.Keys == at.Keys && u.root == root && u.cur == cur && u.nodes == nodes && u.buffers == buffers
      && forall m {:trigger AfterMove(t, u, n, p, name, m)} :: m in at ==> AfterMove(t, u, n, p, name, m)
  }

  lemma MoveOne(t: Tree, n: Node, p: Node, name: string, m: Node)
    requires IsTree(t) && n in t.at && m in t.at
    ensures AfterMove(t, MoveTo(t, n, p, name), n, p, name, m)
  {
    NotThere(t, n, m);
    var e := MovedEntry(t, n, p, name, m);
    assert MoveTo(t, n, p, name).at[m] == e;
    assert e.kids == (if m == p then [n] else []) + Without(t.at[m].kids, n);
  }

  lemma MoveToIs(t: Tree, n: Node, p: Node, name: string)
    requires IsTree(t) && n in t.at && n != t.root && p in t.at
    ensures Moved(t, MoveTo(t, n, p, name), n, p, name)
  {
    forall m | m in t.at
      ensures AfterMove(t, MoveTo(t, n, p, name), n, p, name, m)
    {
      MoveOne(t, n, p, name, m);
    }
  }

  /**
   * mv to a path that leads to a directory puts the node in front of the directory's children, under its old name;
   * mv to any other path gives it that path as its name, and puts it in front of its siblings.
   */
  lemma MvIs(t: Tree, sudo: bool, src: string, dest: string)
    requires IsTree(t) && MvCode(t, sudo, src, dest) == 0
    ensures var n, d := Resolve(t, src), Resolve(t, dest);
            var into := d != null && IsDir(t, d);
            && n in t.at
            && Moved(t, Mv(t, sudo, src, dest), n, if into then d else Up(t, n), if into then NameOf(t, n) else dest)
  {
    MvInTree(t, src, dest);
    MoveToIs(t, Resolve(t, src), MvInto(t, src, dest), MvName(t, src, dest));
  }

  /** Only its parent has a node among its children. */
  lemma NotThere(t: Tree, n: Node, m: Node)
    requires IsTree(t) && n in t.at && m in t.at
    ensures m != Up(t, n) ==> Without(t.at[m].kids, n) == t.at[m].kids
  {
    assert Linked(t, m);
    if n in t.at[m].kids {
      assert ChildOf(t, n, m);
    }
    WithoutNone(t.at[m].kids, n);
  }

  lemma {:induction false} WithoutNone(ks: seq<Node>, n: Node)
    ensures n !in ks ==> Without(ks, n) == ks
  {
    if ks != [] && ks[0] != n {
      WithoutNone(ks[1..], n);
    }
  }

  /** Of a chain, one node and nothing else goes. */
  lemma WithoutIs(ks: seq<Node>, n: Node) returns (i: nat)
    requires Distinct(ks) && n in ks
    ensures i < |ks| && ks[i] == n && Without(ks, n) == ks[..i] + ks[i + 1..]
  {
    i :| 0 <= i < |ks| && ks[i] == n;
    WithoutAt(ks, i);
  }

  // ---------- rm, rmdir and rm_r ----------

  /** Node m when n has been taken out: only if it is inside n it is gone, and only the parent of n loses a child. */
  predicate AfterRemoval(t: Tree, u: Tree, n: Node, m: Node) {
    if Inside(t, m, n) then m !in u.at
    else
      && m in u.at && IsDir(u, m) == IsDir(t, m) && DataOf(u, m) == DataOf(t, m)
      && NameOf(u, m) == NameOf(t, m) && Up(u, m) == Up(t, m)
      && Kids(u, m) == if m == Up(t, n) then Without(Kids(t, m), n) else Kids(t, m)
  }

  /** The subtree of n is gone, n from the children of its parent, and nothing else has changed; a working directory in
      the subtree has become the root. */
  ghost predicate TakenOut(t: Tree, u: Tree, n: Node) {
    match t
    case Tree(at, root, cur, _, _) =>
      && u.root == root && u.cur == (if Inside(t, cur, n) then root else cur) && u.at.Keys <= at.Keys
      && forall m {:trigger AfterRemoval(t, u, n, m)} :: m in at ==> AfterRemoval(t, u, n, m)
  }

  lemma UnlinkIs(t: Tree, n: Node, u: Tree)
    requires n in t.at && u.at == Unlink(t, n).at && u.root == t.root
    requires u.cur == if Inside(t, t.cur, n) then t.root else t.cur
    ensures TakenOut(t, u, n)
  {
    forall m | m in t.at
      ensures AfterRemoval(t, u, n, m)
    {
    }
  }

  /** rm -r takes out exactly the subtree that the path names, and moves the working directory to the root exactly if it
      is in it.  All nodes of the subtree are freed; without sudo, nothing is freed of /home/root. */
  lemma RmRIs(t: Tree, sudo: bool, path: string)
    requires IsTree(t) && RmRCode(t, sudo, path) == 0
    ensures var n, u := Resolve(t, path), RmR(t, sudo, path);
            && n in t.at && TakenOut(t, u, n)
            && u.cur == (if Inside(t, t.cur, n) then t.root else t.cur)
            && (sudo || n != Resolve(t, "/home/root") ==> u.nodes == t.nodes - Subtree(t, n))
            && (!sudo && n == Resolve(t, "/home/root") ==> u.nodes == t.nodes && u.buffers == t.buffers)
  {
    var n := Resolve(t, path);
    ResolveInTree(t, path);
    HomeRootIs(t);
    UnlinkIs(t, n, RmR(t, sudo, path));
  }

  /** A file, or a directory without children, taken out and freed */
  ghost predicate LeafTakenOut(t: Tree, u: Tree, n: Node) {
    match t
    case Tree(at, _, cur, nodes, _) =>
      n in at && TakenOut(t, u, n) && u.at.Keys == at.Keys - {n} && u.nodes == nodes - {n} && u.cur == cur
  }

  lemma PruneIs(t: Tree, n: Node)
    requires IsTree(t) && n in t.at && n != t.root && Kids(t, n) == [] && t.cur != n
    ensures LeafTakenOut(t, Prune(t, n), n)
  {
    LeafIs(t, n);
    assert Subtree(t, n) == {n};
    UnlinkIs(t, n, Prune(t, n));
  }

  lemma LeafIs(t: Tree, n: Node)
    requires IsTree(t) && n in t.at && Kids(t, n) == []
    ensures forall m :: m in t.at ==> (Inside(t, m, n) <==> m == n)
  {
    TreeIsLoose(t, t.root);
    InsideRoot(t, n);
    forall m | m in t.at && Inside(t, m, n)
      ensures m == n
    {
      LeafSubtree(t, t.root, n, m);
    }
  }

  /** rm takes out and frees exactly the first child of that name. */
  lemma RmIs(t: Tree, sudo: bool, path: string)
    requires IsTree(t) && RmCode(t, sudo, path) == 0
    ensures var p := Parent(t, path);
            p != null && FindChild(t, p, BaseName(path)) != null
            && LeafTakenOut(t, Rm(t, sudo, path), FindChild(t, p, BaseName(path)))
  {
    RmTargetInTree(t, path);
    assert Linked(t, RmTarget(t, path));
    PruneIs(t, RmTarget(t, path));
  }

  /** rmdir takes out and frees exactly the directory that the path leads to. */
  lemma RmdirIs(t: Tree, sudo: bool, path: string)
    requires IsTree(t) && RmdirCode(t, sudo, path) == 0
    ensures Resolve(t, path) != null && LeafTakenOut(t, Rmdir(t, sudo, path), Resolve(t, path))
  {
    PruneIs(t, Resolve(t, path));
  }

  // ---------- cp ----------

  /**
   * cp to a path that leads to a directory copies into it, under the name of the source; an empty path leads to the
   * working directory, but the copy goes into the root.  Any other path is where the copy goes.
   */
  lemma CpGoes(t: Tree, src: string, dest: string)
    requires Resolve(t, src) != null && SlashFree(NameOf(t, Resolve(t, src))) && Resolve(t, src) in t.at
    ensures var n, d, to := Resolve(t, src), Resolve(t, dest), CpPath(t, src, dest);
            && (d != null && IsDir(t, d) ==>
                  Parent(t, to) == (if dest == "" then t.root else d) && BaseName(to) == NameOf(t, n))
            && (d == null || !IsDir(t, d) ==> to == dest)
  {
    var name := NameOf(t, Resolve(t, src));
    ParentIs(t, dest, name);
    assert "" + "/" + name == "/" + name;
  }

  // ---------- write ----------

  /** Overwriting writes the text; appending writes it behind what the file holds. */
  lemma WriteTexts(t: Tree, path: string, text: string)
    ensures WriteText(t, path, text, false) == text
    ensures var b := DataOf(t, Resolve(t, path));
            WriteText(t, path, text, true) == if b == null then text else b.text + text
  {
  }

  /** Two writes: after the second, the file that the path leads to holds both texts, or the second one. */
  lemma WriteTwice(t: Tree, sudo: bool, path: string, n: Node, b: Buffer, text: string, append: bool, n2: Node,
                   c: Buffer)
    requires Sound(t) && n !in t.nodes && b !in t.buffers && WriteCode(t, sudo, path, n) == 0
    requires Resolve(t, path) == null ==> WellFormed(path) && (Tilde(path) ==> !MakesHomeRoot(t, sudo, path))
    requires var u := Write(t, sudo, path, n, b);
             n2 !in u.nodes && WriteCode(u, sudo, path, n2) == 0 && c.text == WriteText(u, path, text, append)
    ensures var u := Write(t, sudo, path, n, b);
            var v := Write(u, sudo, path, n2, c);
            && Resolve(v, path) == Resolve(u, path) != null && DataOf(v, Resolve(v, path)) == c
            && c.text == if append then b.text + text else text
  {
    var u := Write(t, sudo, path, n, b);
    WriteIsRead(t, sudo, path, n, b);
    WriteKeeps(t, sudo, path, n, b);
    WriteIsRead(u, sudo, path, n2, c);
    WriteTexts(u, path, text);
  }
}
