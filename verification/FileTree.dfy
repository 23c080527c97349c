/** The file system of vfs.c as a tree of nodes: lookup, path resolution, protection, and what makes it a tree. */
module FileTree {
  import opened FileNode
  import opened Paths

  /** What one node holds.  `kids` is its sibling chain of children, `depth` its distance from the root. */
  datatype Entry = Entry(name: string, dir: bool, data: Buffer?, up: Node, kids: seq<Node>, depth: nat)

  /** The tree, the working directory, and the nodes and buffers that are allocated */
  datatype Tree = Tree(at: map<Node, Entry>, root: Node, cur: Node, nodes: set<Node>, buffers: set<Buffer>)

  function Kids(t: Tree, n: Node): seq<Node> {
    if n in t.at then t.at[n].kids else []
  }

  function Up(t: Tree, n: Node): Node {
    if n in t.at then t.at[n].up else t.root
  }

  function Depth(t: Tree, n: Node): nat {
    if n in t.at then t.at[n].depth else 0
  }

  function DataOf(t: Tree, n: Node?): Buffer? {
    if n in t.at then t.at[n].data else null
  }

  predicate IsDir(t: Tree, n: Node) {
    n in t.at && t.at[n].dir
  }

  predicate Named(t: Tree, n: Node, name: string) {
    n in t.at && t.at[n].name == name
  }

  // ---------- the invariant ----------

  predicate Distinct(s: seq<Node>) {
    s == [] || (s[0] !in s[1..] && Distinct(s[1..]))
  }

  predicate ChildOf(t: Tree, k: Node, n: Node) {
    k in t.at && k != t.root && t.at[k].up == n
  }

  /** Node n is in its parent's chain, one level below it. */
  predicate Hangs(t: Tree, n: Node)
    requires n in t.at
  {
    var e := t.at[n];
    e.up in t.at && (n != t.root ==> n in t.at[e.up].kids && e.depth == t.at[e.up].depth + 1)
  }

  /** The chain of n has no node twice, and its nodes name n as their parent; only directories have one. */
  predicate Heads(t: Tree, n: Node)
    requires n in t.at
  {
    var e := t.at[n];
    && (forall k :: k in e.kids ==> ChildOf(t, k, n))
    && Distinct(e.kids)
    && (e.kids != [] ==> e.dir)
    && (e.dir ==> e.data == null)
  }

  predicate Linked(t: Tree, n: Node)
    requires n in t.at
  {
    Hangs(t, n) && Heads(t, n)
  }

  /** The chains and the parent pointers agree, and the parents of every node reach the root. */
  predicate IsTree(t: Tree) {
    && t.root in t.at && t.cur in t.at && t.at[t.root].up == t.root && t.at[t.root].dir && t.at[t.cur].dir
    && forall n {:trigger Linked(t, n)} :: n in t.at ==> Linked(t, n)
  }

  predicate OwnedAt(t: Tree, n: Node)
    requires n in t.at
  {
    n in t.nodes && (t.at[n].data != null ==> t.at[n].data in t.buffers)
  }

  predicate Apart(t: Tree, m: Node, n: Node)
    requires m in t.at && n in t.at
  {
    m != n && t.at[m].data != null ==> t.at[m].data != t.at[n].data
  }

  /** Every node and buffer of the tree is allocated, and no two nodes share a buffer. */
  predicate Owned(t: Tree) {
    && (forall n {:trigger OwnedAt(t, n)} :: n in t.at ==> OwnedAt(t, n))
    && forall m, n {:trigger Apart(t, m, n)} :: m in t.at && n in t.at ==> Apart(t, m, n)
  }

  /** The invariant of the file system */
  predicate Sound(t: Tree) {
    match t
    case Tree(_, _, _, _, _) => IsTree(t) && Owned(t)
  }

  predicate InUse(t: Tree, b: Buffer) {
    exists n :: n in t.at && t.at[n].data == b
  }

  /** Nothing else is allocated. */
  predicate NoLeak(t: Tree) {
    && (forall n :: n in t.nodes ==> n in t.at)
    && forall b :: b in t.buffers ==> InUse(t, b)
  }

  // ---------- ancestors ----------

  /** a is m or one of its ancestors. */
  predicate Inside(t: Tree, m: Node, a: Node)
    decreases Depth(t, m)
  {
    m == a || (Depth(t, Up(t, m)) < Depth(t, m) && Inside(t, Up(t, m), a))
  }

  lemma {:induction false} InsideTrans(t: Tree, m: Node, n: Node, a: Node)
    requires Inside(t, m, n) && Inside(t, n, a)
    ensures Inside(t, m, a)
    decreases Depth(t, m)
  {
    if m != n {
      InsideTrans(t, Up(t, m), n, a);
    }
  }

  lemma {:induction false} InsideDepth(t: Tree, m: Node, a: Node)
    requires Inside(t, m, a)
    ensures Depth(t, a) <= Depth(t, m) && (Depth(t, a) == Depth(t, m) ==> a == m)
    decreases Depth(t, m)
  {
    if m != a {
      InsideDepth(t, Up(t, m), a);
    }
  }

  lemma {:induction false} InsideRoot(t: Tree, m: Node)
    requires IsTree(t) && m in t.at
    ensures Inside(t, m, t.root)
    decreases Depth(t, m)
  {
    if m != t.root {
      assert Linked(t, m);
      InsideRoot(t, Up(t, m));
    }
  }

  lemma RootInside(t: Tree, a: Node)
    requires IsTree(t) && Inside(t, t.root, a)
    ensures a == t.root
  {
    assert Linked(t, t.root);
  }

  lemma {:induction false} InsideInTree(t: Tree, m: Node, a: Node)
    requires IsTree(t) && m in t.at && Inside(t, m, a)
    ensures a in t.at
    decreases Depth(t, m)
  {
    if m != a {
      assert Linked(t, m);
      InsideInTree(t, Up(t, m), a);
    }
  }

  /** Two ancestors of one node at the same level are the same. */
  lemma {:induction false} InsideUnique(t: Tree, m: Node, a: Node, b: Node)
    requires Inside(t, m, a) && Inside(t, m, b)
    ensures Inside(t, a, b) || Inside(t, b, a)
    decreases Depth(t, m)
  {
    if m != a && m != b {
      InsideUnique(t, Up(t, m), a, b);
    }
  }

  lemma SiblingsApart(t: Tree, m: Node, a: Node, b: Node)
    requires IsTree(t) && a in t.at && b in t.at && a != t.root && b != t.root && Up(t, a) == Up(t, b) && a != b
    requires Inside(t, m, a)
    ensures !Inside(t, m, b)
  {
    assert Linked(t, a) && Linked(t, b);
    if Inside(t, m, b) {
      InsideUnique(t, m, a, b);
      if Inside(t, a, b) {
        InsideDepth(t, a, b);
      } else {
        InsideDepth(t, b, a);
      }
    }
  }

  // ---------- lookup ----------

  /** The first node of a chain with this name */
  function FindIn(t: Tree, ks: seq<Node>, name: string): (r: Node?)
    ensures r != null ==> r in ks && Named(t, r, name)
    ensures r == null ==> forall k :: k in ks ==> !Named(t, k, name)
  {
    if ks == [] then null
    else if Named(t, ks[0], name) then ks[0]
    else FindIn(t, ks[1..], name)
  }

  function FindChild(t: Tree, n: Node, name: string): Node? {
    FindIn(t, Kids(t, n), name)
  }

  /** One component of a path */
  function Enter(t: Tree, n: Node, part: string): Node? {
    if part == ".." then Up(t, n)
    else if part == "." then n
    else FindChild(t, n, part)
  }

  function Walk(t: Tree, n: Node, parts: seq<string>): Node? {
    if parts == [] then n
    else
      var next := Enter(t, n, parts[0]);
      if next == null then null else Walk(t, next, parts[1..])
  }

  function Home(t: Tree): Node? {
    FindChild(t, t.root, "home")
  }

  /** The directory /home/root */
  function HomeRoot(t: Tree): Node? {
    var home := Home(t);
    if home == null then null else FindChild(t, home, "root")
  }

  predicate Tilde(path: string) {
    path != "" && path[0] == '~'
  }

  predicate Absolute(path: string) {
    path != "" && path[0] == '/'
  }

  function Start(t: Tree, path: string): Node {
    if Tilde(path) then (var home := HomeRoot(t); if home == null then t.root else home)
    else if Absolute(path) then t.root
    else t.cur
  }

  function Rest(path: string): string {
    if Tilde(path) || Absolute(path) then path[1..] else path
  }

  /** resolve_path */
  function Resolve(t: Tree, path: string): Node? {
    Walk(t, Start(t, path), Components(Rest(path)))
  }

  /** resolve_path reads the chain of /home when the path starts with a tilde. */
  predicate Resolvable(t: Tree, path: string) {
    Tilde(path) ==> Home(t) != null
  }

  /** is_protected */
  predicate Protected(t: Tree, n: Node) {
    var home := HomeRoot(t);
    home == null || !Inside(t, n, home)
  }

  lemma FindChildInTree(t: Tree, n: Node, name: string)
    requires IsTree(t) && FindChild(t, n, name) != null
    ensures var k := FindChild(t, n, name);
            n in t.at && k in t.at && Up(t, k) == n && k != t.root
  {
    assert Linked(t, n);
  }

  lemma EnterInTree(t: Tree, n: Node, part: string)
    requires IsTree(t) && n in t.at && Enter(t, n, part) != null
    ensures Enter(t, n, part) in t.at
  {
    assert Linked(t, n);
  }

  lemma {:induction false} WalkInTree(t: Tree, n: Node, parts: seq<string>)
    requires IsTree(t) && n in t.at && Walk(t, n, parts) != null
    ensures Walk(t, n, parts) in t.at
    decreases |parts|
  {
    if parts != [] {
      EnterInTree(t, n, parts[0]);
      WalkInTree(t, Enter(t, n, parts[0]), parts[1..]);
    }
  }

  lemma HomeRootInTree(t: Tree)
    requires IsTree(t) && HomeRoot(t) != null
    ensures HomeRoot(t) in t.at && HomeRoot(t) != t.root && Home(t) in t.at && Home(t) != t.root
    ensures Up(t, HomeRoot(t)) == Home(t) && Up(t, Home(t)) == t.root
  {
    FindChildInTree(t, t.root, "home");
    FindChildInTree(t, Home(t), "root");
  }

  lemma StartInTree(t: Tree, path: string)
    requires IsTree(t)
    ensures Start(t, path) in t.at
  {
    if HomeRoot(t) != null {
      HomeRootInTree(t);
    }
  }

  lemma ResolveInTree(t: Tree, path: string)
    requires IsTree(t) && Resolve(t, path) != null
    ensures Resolve(t, path) in t.at
  {
    StartInTree(t, path);
    WalkInTree(t, Start(t, path), Components(Rest(path)));
  }

  lemma {:induction false} WalkAppend(t: Tree, n: Node, a: seq<string>, b: seq<string>)
    ensures Walk(t, n, a + b) == (var m := Walk(t, n, a); if m == null then null else Walk(t, m, b))
    decreases |a|
  {
    if a == [] {
      assert a + b == b;
    } else {
      assert (a + b)[1..] == a[1..] + b;
      var next := Enter(t, n, a[0]);
      if next != null {
        WalkAppend(t, next, a[1..], b);
      }
    }
  }

  /** A child of an unprotected directory is unprotected. */
  lemma ProtectionInherited(t: Tree, n: Node)
    requires IsTree(t) && n in t.at && !Protected(t, Up(t, n))
    ensures !Protected(t, n)
  {
    assert Linked(t, n);
  }
}
