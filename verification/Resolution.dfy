/** What creation does to path resolution, and pwd as its inverse. */
module Resolution {
  import opened FileNode
  import opened Paths
  import opened FileTree
  import opened TreeOps
  import opened FileOps

  // ---------- trees that grow at the tails of chains ----------

  /** Node n keeps its place and name, and its chain may have grown at the tail. */
  predicate Kept(t: Tree, u: Tree, n: Node) {
    && n in t.at && n in u.at && u.at[n].name == t.at[n].name && u.at[n].dir == t.at[n].dir
    && u.at[n].up == t.at[n].up && u.at[n].depth == t.at[n].depth && t.at[n].kids <= u.at[n].kids
  }

  predicate Grows(t: Tree, u: Tree) {
    && u.root == t.root && u.cur == t.cur
    && forall n {:trigger Kept(t, u, n)} :: n in t.at ==> Kept(t, u, n)
  }

  lemma CreateGrows(t: Tree, sudo: bool, path: string, dir: bool, n: Node)
    requires n !in t.at
    ensures Grows(t, Create(t, sudo, path, dir, n))
  {
    var u := Create(t, sudo, path, dir, n);
    forall m | m in t.at
      ensures Kept(t, u, m)
    {
    }
  }

  lemma {:induction false} FindInGrows(t: Tree, u: Tree, ks: seq<Node>, ls: seq<Node>, name: string)
    requires Grows(t, u) && (forall k :: k in ks ==> k in t.at) && ks <= ls && FindIn(t, ks, name) != null
    ensures FindIn(u, ls, name) == FindIn(t, ks, name)
  {
    assert ks[0] == ls[0] && Kept(t, u, ks[0]);
    if !Named(t, ks[0], name) {
      assert ks[1..] <= ls[1..];
      FindInGrows(t, u, ks[1..], ls[1..], name);
    }
  }

  lemma EnterGrows(t: Tree, u: Tree, n: Node, part: string)
    requires IsTree(t) && Grows(t, u) && n in t.at && Enter(t, n, part) != null
    ensures Enter(u, n, part) == Enter(t, n, part)
  {
    assert Linked(t, n) && Kept(t, u, n);
    if part != ".." && part != "." {
      assert forall k :: k in t.at[n].kids ==> ChildOf(t, k, n);
      FindInGrows(t, u, t.at[n].kids, u.at[n].kids, part);
    }
  }

  lemma {:induction false} WalkGrows(t: Tree, u: Tree, n: Node, parts: seq<string>)
    requires IsTree(t) && Grows(t, u) && n in t.at && Walk(t, n, parts) != null
    ensures Walk(u, n, parts) == Walk(t, n, parts)
    decreases |parts|
  {
    if parts != [] {
      EnterInTree(t, n, parts[0]);
      EnterGrows(t, u, n, parts[0]);
      WalkGrows(t, u, Enter(t, n, parts[0]), parts[1..]);
    }
  }

  lemma HomeRootGrows(t: Tree, u: Tree)
    requires IsTree(t) && Grows(t, u) && HomeRoot(t) != null
    ensures HomeRoot(u) == HomeRoot(t)
  {
    HomeRootInTree(t);
    EnterGrows(t, u, t.root, "home");
    EnterGrows(t, u, Home(t), "root");
  }

  /** The meaning of a leading tilde has not changed. */
  predicate HomeStable(t: Tree, u: Tree) {
    HomeRoot(t) != null || HomeRoot(u) == null
  }

  lemma StartGrows(t: Tree, u: Tree, path: string)
    requires IsTree(t) && Grows(t, u) && (Tilde(path) ==> HomeStable(t, u))
    ensures Start(u, path) == Start(t, path)
  {
    if HomeRoot(t) != null {
      HomeRootGrows(t, u);
    }
  }

  lemma ResolveGrows(t: Tree, u: Tree, path: string)
    requires IsTree(t) && Grows(t, u) && Resolve(t, path) != null && (Tilde(path) ==> HomeStable(t, u))
    ensures Resolve(u, path) == Resolve(t, path)
  {
    StartInTree(t, path);
    StartGrows(t, u, path);
    WalkGrows(t, u, Start(t, path), Components(Rest(path)));
  }

  lemma {:induction false} FindInAppended(t: Tree, u: Tree, ks: seq<Node>, n: Node, name: string)
    requires forall k :: k in ks ==> (Named(u, k, name) <==> Named(t, k, name))
    ensures FindIn(u, ks + [n], name) ==
            if FindIn(t, ks, name) != null then FindIn(t, ks, name) else if Named(u, n, name) then n else null
  {
    if ks != [] {
      assert (ks + [n])[1..] == ks[1..] + [n];
      FindInAppended(t, u, ks[1..], n, name);
    } else {
      assert ([] + [n])[1..] == [];
    }
  }

  /** A new node is found under its name in its parent, behind older namesakes, and nowhere else. */
  lemma CreatedChild(t: Tree, p: Node, n: Node, name: string, dir: bool, d: Node, x: string)
    requires IsTree(t) && p in t.at && d in t.at && n !in t.at
    ensures FindChild(Append(t, p, n, name, dir), d, x) ==
            if FindChild(t, d, x) != null then FindChild(t, d, x) else if d == p && x == name then n else null
  {
    var u := Append(t, p, n, name, dir);
    assert Linked(t, d);
    assert forall m :: m in t.at[d].kids ==> ChildOf(t, m, d);
    if d == p {
      FindInAppended(t, u, t.at[d].kids, n, x);
    } else {
      FindInSame(t, u, t.at[d].kids, x);
    }
  }

  /** The call creates the first child called root in /home.  This can be decided before the call. */
  predicate MakesHomeRoot(t: Tree, sudo: bool, path: string) {
    HomeRoot(t) == null && Home(t) != null && Place(t, sudo, path) == Home(t) && BaseName(path) == "root"
  }

  /** Creation changes what a leading tilde means exactly when it makes the first /home/root. */
  lemma HomeStableIff(t: Tree, sudo: bool, path: string, dir: bool, n: Node)
    requires IsTree(t) && n !in t.at
    ensures HomeStable(t, Create(t, sudo, path, dir, n)) <==> !MakesHomeRoot(t, sudo, path)
  {
    var u, p, name := Create(t, sudo, path, dir, n), Place(t, sudo, path), BaseName(path);
    if p != null && HomeRoot(t) == null {
      CreatedChild(t, p, n, name, dir, t.root, "home");
      if Home(t) != null {
        FindChildInTree(t, t.root, "home");
        CreatedChild(t, p, n, name, dir, Home(t), "root");
      } else {
        assert Kids(u, n) == [];
      }
    }
  }

  /**
   * Creation is conservative: every path that resolved still resolves to the same node,
   * if and only if the new node is not the first /home/root.
   */
  lemma CreateConservative(t: Tree, sudo: bool, path: string, dir: bool, n: Node)
    requires IsTree(t) && n !in t.at
    ensures var u := Create(t, sudo, path, dir, n);
            (forall q: string :: Resolve(t, q) != null ==> Resolve(u, q) == Resolve(t, q))
            <==> !MakesHomeRoot(t, sudo, path)
  {
    var u := Create(t, sudo, path, dir, n);
    CreateGrows(t, sudo, path, dir, n);
    HomeStableIff(t, sudo, path, dir, n);
    if HomeStable(t, u) {
      forall q: string | Resolve(t, q) != null
        ensures Resolve(u, q) == Resolve(t, q)
      {
        ResolveGrows(t, u, q);
      }
    } else {
      assert Resolve(t, "~") == t.root;
      CreateIsTree(t, sudo, path, dir, n);
      HomeRootInTree(u);
      assert Resolve(u, "~") == HomeRoot(u) != t.root;
    }
  }

  lemma CreateIsTree(t: Tree, sudo: bool, path: string, dir: bool, n: Node)
    requires IsTree(t) && n !in t.at
    ensures IsTree(Create(t, sudo, path, dir, n))
  {
    var p := Place(t, sudo, path);
    if p != null {
      AppendIsTree(t, p, n, BaseName(path), dir);
    }
  }

  // ---------- the new node is found ----------

  /** Creation and resolution agree about the parent of a path whose last part is a plain name, not behind a bare
      tilde. */
  predicate WellFormed(path: string) {
    Plain(BaseName(path)) && (Tilde(path) ==> LastSlash(path) > 0)
  }

  lemma RestOfChild(front: string, name: string)
    requires front != ""
    ensures var path := front + "/" + name;
            && Rest(path) == Rest(front) + "/" + name
            && Tilde(path) == Tilde(front) && Absolute(path) == Absolute(front)
  {
    var path := front + "/" + name;
    assert path[0] == front[0];
    assert path[1..] == front[1..] + "/" + name;
  }

  lemma WalkOne(t: Tree, n: Node, parts: seq<string>, name: string)
    requires Plain(name)
    ensures Walk(t, n, parts + [name]) ==
            (var p := Walk(t, n, parts); if p == null then null else FindChild(t, p, name))
  {
    WalkAppend(t, n, parts, [name]);
    var p := Walk(t, n, parts);
    if p != null {
      var next := FindChild(t, p, name);
      assert next != null ==> Walk(t, next, [name][1..]) == next;
    }
  }

  /** A path, a slash and a name: the child of that name */
  lemma ResolveChild(t: Tree, front: string, name: string)
    requires front != "" && Plain(name)
    ensures Resolve(t, front + "/" + name) ==
            (var p := Resolve(t, front); if p == null then null else FindChild(t, p, name))
  {
    RestOfChild(front, name);
    ComponentsOfChild(Rest(front), name);
    WalkOne(t, Start(t, front), Components(Rest(front)), name);
  }

  lemma ResolveName(t: Tree, name: string)
    requires Plain(name) && !Tilde(name)
    ensures Resolve(t, name) == FindChild(t, t.cur, name)
  {
    PartsFree("", name);
    assert "" + name == name && [] + [name] == [name];
    WalkOne(t, t.cur, [], name);
  }

  lemma ResolveRootName(t: Tree, name: string)
    requires Plain(name)
    ensures Resolve(t, "/" + name) == FindChild(t, t.root, name)
  {
    var path := "/" + name;
    assert path[1..] == name;
    PartsFree("", name);
    assert "" + name == name && [] + [name] == [name];
    WalkOne(t, t.root, [], name);
  }

  lemma SplitAtSlash(path: string)
    requires LastSlash(path) > 0
    ensures path == path[..LastSlash(path)] + "/" + BaseName(path)
  {
    var k := LastSlash(path);
    assert path == path[..k] + [path[k]] + path[k + 1..];
  }

  lemma SplitRootSlash(path: string)
    requires LastSlash(path) == 0
    ensures path == "/" + BaseName(path)
  {
    assert path == [path[0]] + path[1..];
  }

  /** Resolving a well-formed path is looking its last name up in the parent. */
  lemma ResolveSplit(t: Tree, path: string)
    requires WellFormed(path)
    ensures Resolve(t, path) == (var p := Parent(t, path); if p == null then null else FindChild(t, p, BaseName(path)))
  {
    var k, name := LastSlash(path), BaseName(path);
    if k < 0 {
      ResolveName(t, path);
    } else {
      if k == 0 {
        SplitRootSlash(path);
        ResolveRootName(t, name);
      } else {
        SplitAtSlash(path);
        ResolveChild(t, path[..k], name);
      }
    }
  }

  /**
   * After mkdir or touch has created a node, a well-formed path resolves to it if it did not resolve before,
   * and to what it resolved to before if it did.
   */
  lemma CreatedIsFound(t: Tree, sudo: bool, path: string, dir: bool, n: Node)
    requires IsTree(t) && n !in t.at && WellFormed(path) && Place(t, sudo, path) != null
    requires Tilde(path) ==> !MakesHomeRoot(t, sudo, path)
    ensures Resolve(Create(t, sudo, path, dir, n), path) == if Resolve(t, path) != null then Resolve(t, path) else n
  {
    var u, p, name := Create(t, sudo, path, dir, n), Place(t, sudo, path), BaseName(path);
    CreateGrows(t, sudo, path, dir, n);
    HomeStableIff(t, sudo, path, dir, n);
    ResolveSplit(t, path);
    ResolveSplit(u, path);
    var k := LastSlash(path);
    if k > 0 {
      SplitAtSlash(path);
      RestOfChild(path[..k], name);
      ResolveGrows(t, u, path[..k]);
    }
    assert Parent(u, path) == p;
    CreatedChild(t, p, n, name, dir, p, name);
  }

  // ---------- what is written is read ----------

  lemma {:induction false} SameLinksWalk(t: Tree, u: Tree, n: Node, parts: seq<string>)
    requires forall m :: Up(u, m) == Up(t, m) && Kids(u, m) == Kids(t, m) && (m in t.at <==> m in u.at)
    requires forall m :: m in t.at ==> u.at[m].name == t.at[m].name
    ensures Walk(u, n, parts) == Walk(t, n, parts)
    decreases |parts|
  {
    if parts != [] {
      FindInSame(t, u, Kids(t, n), parts[0]);
      if Enter(t, n, parts[0]) != null {
        SameLinksWalk(t, u, Enter(t, n, parts[0]), parts[1..]);
      }
    }
  }

  lemma SetDataResolve(t: Tree, n: Node, b: Buffer, path: string)
    requires n in t.at
    ensures Resolve(SetData(t, n, b), path) == Resolve(t, path)
  {
    var u := SetData(t, n, b);
    FindInSame(t, u, Kids(t, t.root), "home");
    if Home(t) != null {
      FindInSame(t, u, Kids(t, Home(t)), "root");
    }
    SameLinksWalk(t, u, Start(t, path), Components(Rest(path)));
  }

  /** After a successful write, the path leads to the written file, and it holds the new data; every other file keeps
      its own. */
  lemma WriteIsRead(t: Tree, sudo: bool, path: string, n: Node, b: Buffer)
    requires Sound(t) && n !in t.nodes && WriteCode(t, sudo, path, n) == 0
    requires Resolve(t, path) == null ==> WellFormed(path) && (Tilde(path) ==> !MakesHomeRoot(t, sudo, path))
    ensures var u := Write(t, sudo, path, n, b);
            && Resolve(u, path) == WriteTarget(t, sudo, path, n) && DataOf(u, Resolve(u, path)) == b
            && forall m :: m in t.at && m != Resolve(u, path) ==> DataOf(u, m) == DataOf(t, m)
  {
    var t1, m := WriteTree(t, sudo, path, n), WriteTarget(t, sudo, path, n);
    WriteFinds(t, sudo, path, n);
    SetDataResolve(t1, m, b, path);
  }

  lemma CreateKeepsData(t: Tree, sudo: bool, path: string, n: Node)
    requires n !in t.at
    ensures var u := Create(t, sudo, path, false, n);
            && (forall m :: m in t.at ==> m in u.at && u.at[m].data == t.at[m].data)
            && (Place(t, sudo, path) != null ==> n in u.at)
  {
  }

  lemma WriteFinds(t: Tree, sudo: bool, path: string, n: Node)
    requires Sound(t) && n !in t.nodes && WriteCode(t, sudo, path, n) == 0
    requires Resolve(t, path) == null ==> WellFormed(path) && (Tilde(path) ==> !MakesHomeRoot(t, sudo, path))
    ensures var t1 := WriteTree(t, sudo, path, n);
            && WriteTarget(t, sudo, path, n) in t1.at && Resolve(t1, path) == WriteTarget(t, sudo, path, n)
            && forall m :: m in t.at ==> m in t1.at && t1.at[m].data == t.at[m].data
  {
    FreshOutside(t, n);
    CreateKeepsData(t, sudo, path, n);
    if Resolve(t, path) == null {
      CreatedIsFound(t, sudo, path, false, n);
    } else {
      ResolveInTree(t, path);
    }
  }

  // ---------- pwd ----------

  function NameOf(t: Tree, n: Node): string {
    if n in t.at then t.at[n].name else ""
  }

  /** The names from the root down to n, with a slash before each */
  function PathOf(t: Tree, n: Node): string
    decreases Depth(t, n)
  {
    if n == t.root || Depth(t, Up(t, n)) >= Depth(t, n) then "" else PathOf(t, Up(t, n)) + "/" + NameOf(t, n)
  }

  /** vfs_pwd */
  function Pwd(t: Tree): string {
    if t.cur == t.root then "/" else PathOf(t, t.cur)
  }

  predicate PlainPath(t: Tree, n: Node)
    decreases Depth(t, n)
  {
    n == t.root || (Plain(NameOf(t, n)) && (Depth(t, Up(t, n)) < Depth(t, n) ==> PlainPath(t, Up(t, n))))
  }

  /** On the way from the root to n, no other child of that name comes first. */
  predicate FirstOnPath(t: Tree, n: Node)
    decreases Depth(t, n)
  {
    n == t.root ||
    (FindChild(t, Up(t, n), NameOf(t, n)) == n && (Depth(t, Up(t, n)) < Depth(t, n) ==> FirstOnPath(t, Up(t, n))))
  }

  lemma PathOfShape(t: Tree, n: Node)
    requires IsTree(t) && n in t.at && n != t.root
    ensures PathOf(t, n) == PathOf(t, Up(t, n)) + "/" + NameOf(t, n)
    ensures Up(t, n) in t.at && Depth(t, Up(t, n)) < Depth(t, n)
    ensures Absolute(PathOf(t, n))
    decreases Depth(t, n)
  {
    assert Linked(t, n);
    if Up(t, n) != t.root {
      PathOfShape(t, Up(t, n));
    }
  }

  lemma {:induction false} PathLeads(t: Tree, n: Node)
    requires IsTree(t) && n in t.at && n != t.root && PlainPath(t, n)
    ensures Resolve(t, PathOf(t, n)) == n <==> FirstOnPath(t, n)
    decreases Depth(t, n)
  {
    var p, name := Up(t, n), NameOf(t, n);
    PathOfShape(t, n);
    if p == t.root {
      assert PathOf(t, n) == "/" + name;
      ResolveRootName(t, name);
    } else {
      PathOfShape(t, p);
      PathLeads(t, p);
      ResolveChild(t, PathOf(t, p), name);
      var q := Resolve(t, PathOf(t, p));
      if q != null && FindChild(t, q, name) == n {
        FindChildInTree(t, q, name);
      }
    }
  }

  /** With plain names, resolving what pwd prints leads back to the working directory if and only if no namesake comes
      first. */
  lemma PwdResolves(t: Tree)
    requires IsTree(t) && PlainPath(t, t.cur)
    ensures Resolve(t, Pwd(t)) == t.cur <==> FirstOnPath(t, t.cur)
  {
    if t.cur == t.root {
      assert Rest("/") == "" && Components("") == [];
    } else {
      PathLeads(t, t.cur);
    }
  }
}
