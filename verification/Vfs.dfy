/** vfs.c: linked nodes, proved to behave as the operations on trees say. */
module Vfs {
  import opened FileNode
  import opened Paths
  import opened FileTree
  import opened TreeOps
  import opened FileOps
  import opened Resolution
  import opened Copying
  import opened Liveness
  import Runs = FileRuns

  // ---------- sibling chains ----------

  function At(ks: seq<Node>, i: nat): Node? {
    if i < |ks| then ks[i] else null
  }

  /** The node behind n in a chain */
  function After(ks: seq<Node>, n: Node): Node? {
    if ks == [] then null else if ks[0] == n then At(ks, 1) else After(ks[1..], n)
  }

  lemma {:induction false} AfterAt(ks: seq<Node>, i: nat)
    requires Distinct(ks) && i < |ks|
    ensures After(ks, ks[i]) == At(ks, i + 1)
  {
    if i > 0 {
      assert ks[i] == ks[1..][i - 1];
      AfterAt(ks[1..], i - 1);
    }
  }

  lemma {:induction false} AfterAppend(ks: seq<Node>, n: Node, m: Node)
    requires Distinct(ks) && n !in ks && m in ks
    ensures After(ks + [n], m) == if m == ks[|ks| - 1] then n else After(ks, m)
  {
    assert (ks + [n])[1..] == ks[1..] + [n];
    if m != ks[0] {
      AfterAppend(ks[1..], n, m);
    }
  }

  lemma {:induction false} AfterLast(ks: seq<Node>, n: Node)
    requires n !in ks
    ensures After(ks + [n], n) == null
  {
    if ks != [] {
      assert (ks + [n])[1..] == ks[1..] + [n];
      AfterLast(ks[1..], n);
    }
  }

  lemma AppendNext(t: Tree, p: Node, n: Node, name: string, dir: bool, m: Node, stale: Node?)
    requires IsTree(t) && IsDir(t, p) && n !in t.at && m in t.at
    ensures var ks := t.at[p].kids;
            Next(Append(t, p, n, name, dir).at, m, stale) ==
            if ks != [] && m == ks[|ks| - 1] then n else Next(t.at, m, stale)
  {
    assert Linked(t, m) && Linked(t, p);
    var ks := t.at[p].kids;
    assert n in ks ==> ChildOf(t, n, p);
    if m in ks {
      assert ChildOf(t, m, p);
      AfterAppend(ks, n, m);
    }
  }

  /** A new node behind the last child of p changes one pointer. */
  lemma AppendFits(t: Tree, p: Node, n: Node, name: string, dir: bool, m: Node, r: Record)
    requires IsTree(t) && IsDir(t, p) && n !in t.at && m in t.at && Fits(t.at, m, r)
    ensures var ks := t.at[p].kids;
            Fits(Append(t, p, n, name, dir).at, m,
                 if ks == [] && m == p then r.(firstChild := n)
                 else if ks != [] && m == ks[|ks| - 1] then r.(nextSibling := n)
                 else r)
  {
    AppendNext(t, p, n, name, dir, m, r.nextSibling);
    assert Linked(t, p);
    var ks := t.at[p].kids;
    assert ks != [] ==> ks[|ks| - 1] in ks && ChildOf(t, ks[|ks| - 1], p);
  }

  lemma AppendedFits(t: Tree, p: Node, n: Node, name: string, dir: bool)
    requires IsTree(t) && IsDir(t, p) && n !in t.at
    ensures Fits(Append(t, p, n, name, dir).at, n, Record(name, dir, null, 0, p, null, null))
  {
    assert Linked(t, p);
    assert n in t.at[p].kids ==> ChildOf(t, n, p);
    AfterLast(t.at[p].kids, n);
  }

  /** The first loop of mkdir, touch and rm */
  method FindLastSlash(path: string) returns (lastSlash: int)
    ensures lastSlash == LastSlash(path)
  {
    lastSlash := -1;
    var i := 0;
    while i < |path|
      invariant 0 <= i <= |path| && -1 <= lastSlash < i
      invariant lastSlash >= 0 ==> path[lastSlash] == '/'
      invariant forall j :: lastSlash < j < i ==> path[j] != '/'
    {
      if path[i] == '/' {
        lastSlash := i;
      }
      i := i + 1;
    }
    LastSlashIs(path, lastSlash);
  }

  /** The fields that the tree gives to n; the sibling pointer of a node outside any chain does not matter. */
  function FieldsIn(at: map<Node, Entry>, n: Node, stale: Node?): Record
    requires n in at
  {
    var e := at[n];
    Record(e.name, e.dir, e.data, if e.data == null then 0 else |e.data.text|, e.up, At(e.kids, 0), Next(at, n, stale))
  }

  function Next(at: map<Node, Entry>, n: Node, stale: Node?): Node?
    requires n in at
  {
    var p := at[n].up;
    if p in at && n in at[p].kids then After(at[p].kids, n) else stale
  }

  predicate Fits(at: map<Node, Entry>, n: Node, r: Record)
    requires n in at
  {
    r == FieldsIn(at, n, r.nextSibling)
  }

  lemma {:induction false} AfterWithout(ks: seq<Node>, i: nat, m: Node)
    requires Distinct(ks) && i < |ks| && m in ks && m != ks[i]
    ensures After(Without(ks, ks[i]), m) == if i > 0 && m == ks[i - 1] then At(ks, i + 1) else After(ks, m)
  {
    if i == 0 {
      assert m in ks[1..];
    } else if i == 1 && m == ks[0] {
      assert Without(ks, ks[1])[1..] == ks[2..];
    } else {
      assert Without(ks, ks[i])[1..] == Without(ks[1..], ks[i]);
      if m != ks[0] {
        assert ks[i] == ks[1..][i - 1] && ks[i - 1] == (if i == 1 then ks[0] else ks[1..][i - 2]);
        AfterWithout(ks[1..], i - 1, m);
      }
    }
  }

  lemma DetachNext(t: Tree, n: Node, i: nat, m: Node, stale: Node?)
    requires IsTree(t) && n in t.at && n != t.root && m in t.at && i < |Kids(t, Up(t, n))| && Kids(t, Up(t, n))[i] == n
    ensures var ks := Kids(t, Up(t, n));
            Up(t, n) in t.at && Next(Detach(t, n).at, m, stale) ==
                                if m == n then stale
                                else if i > 0 && m == ks[i - 1] then At(ks, i + 1)
                                else Next(t.at, m, stale)
  {
    var p := Up(t, n);
    assert Linked(t, n) && Linked(t, p) && Linked(t, m);
    var ks := t.at[p].kids;
    WithoutKeeps(ks, n);
    assert i > 0 ==> ks[i - 1] in ks && ChildOf(t, ks[i - 1], p);
    if m in ks {
      assert ChildOf(t, m, p);
      if m != n {
        AfterWithout(ks, i, m);
      }
    }
  }

  /** Taking a node out of its chain changes one pointer. */
  lemma DetachFits(t: Tree, n: Node, i: nat, m: Node, r: Record)
    requires IsTree(t) && n in t.at && n != t.root && m in t.at && i < |Kids(t, Up(t, n))| && Kids(t, Up(t, n))[i] == n
    requires Fits(t.at, m, r)
    ensures var ks := Kids(t, Up(t, n));
            Up(t, n) in t.at && Fits(Detach(t, n).at, m,
                                     if i > 0 && m == ks[i - 1] then r.(nextSibling := At(ks, i + 1))
                                     else if i == 0 && m == Up(t, n) then r.(firstChild := At(ks, 1))
                                     else r)
  {
    var p := Up(t, n);
    DetachNext(t, n, i, m, r.nextSibling);
    assert Linked(t, n) && Linked(t, p);
    var ks := t.at[p].kids;
    WithoutAt(ks, i);
    assert i > 0 ==> ks[i - 1] in ks && ChildOf(t, ks[i - 1], p);
    if i > 0 {
      DistinctAt(ks, i - 1, i);
    }
  }

  /** The nodes that stay fit the tree without the subtree. */
  lemma UnlinkFits(t: Tree, n: Node, m: Node, r: Record)
    requires IsTree(t) && n in t.at && n != t.root && m in t.at && !Inside(t, m, n)
    requires Up(t, n) in t.at && Fits(Detach(t, n).at, m, r)
    ensures m in Unlink(t, n).at && Fits(Unlink(t, n).at, m, r)
  {
    assert Linked(t, m);
    assert Unlink(t, n).at[m] == Detach(t, n).at[m];
    RootStays(t, n);
    assert !Inside(t, Up(t, m), n);
    assert Unlink(t, n).at[Up(t, m)] == Detach(t, n).at[Up(t, m)];
  }

  /** The first node of that name at or behind place i */
  function FindFrom(t: Tree, ks: seq<Node>, i: nat, name: string): Node?
    decreases |ks| - i
  {
    if i >= |ks| then null else if Named(t, ks[i], name) then ks[i] else FindFrom(t, ks, i + 1, name)
  }

  lemma {:induction false} FindFromIs(t: Tree, ks: seq<Node>, i: nat, name: string)
    requires i <= |ks|
    ensures FindFrom(t, ks, i, name) == FindIn(t, ks[i..], name)
    ensures i == 0 ==> FindFrom(t, ks, i, name) == FindIn(t, ks, name)
    decreases |ks| - i
  {
    if i < |ks| {
      assert ks[i..][1..] == ks[i + 1..];
      FindFromIs(t, ks, i + 1, name);
    }
    assert i == 0 ==> ks[i..] == ks;
  }

  class FileSystem {
    var root: Node
    var currentDir: Node
    var sudoMode: bool
    ghost var tree: Tree

    ghost predicate Matches(at: map<Node, Entry>, n: Node)
      requires n in at
      reads n
    {
      Fits(at, n, n.Fields())
    }

    ghost predicate Shows()
      reads this, tree.at.Keys
    {
      match tree
      case Tree(at, top, _, _, _) => root == top && forall n {:trigger Matches(at, n)} :: n in at ==> Matches(at, n)
    }

    ghost predicate Valid()
      reads this, tree.at.Keys
    {
      match tree
      case Tree(_, _, cur, _, _) => Shows() && currentDir == cur && Sound(tree)
    }

    /** The root directory alone, as at the start of init_filesystem */
    constructor ()
      ensures Valid() && fresh(root) && sudoMode && tree == Alone(root)
    {
      var top := new Node.Root();
      root, currentDir, sudoMode, tree := top, top, true, Alone(top);
      new;
      AloneIsTree(root);
    }

    // ---------- lookup ----------

    /** Reading a node, which must be allocated */
    method Load(n: Node) returns (r: Record)
      requires n in tree.nodes
      ensures r == n.Fields()
    {
      r := n.Fields();
    }

    method FindChildOf(directory: Node, name: string) returns (r: Node?)
      requires Shows() && directory in tree.at && Heads(tree, directory) && Listable(tree, tree.nodes, directory)
      ensures r == FindChild(tree, directory, name)
    {
      ghost var ks, i := Kids(tree, directory), 0;
      assert Matches(tree.at, directory);
      var e := Load(directory);
      var child := e.firstChild;
      while child != null
        invariant 0 <= i <= |ks| && child == At(ks, i)
        invariant FindChild(tree, directory, name) == FindIn(tree, ks[i..], name)
        decreases |ks| - i
      {
        assert child in ks && ChildOf(tree, child, directory) && Matches(tree.at, child);
        e := Load(child);
        if e.name == name {
          return child;
        }
        AfterAt(ks, i);
        child := e.nextSibling;
        i := i + 1;
      }
      return null;
    }

    method IsProtected(node: Node, ghost top: Node) returns (r: bool)
      requires Shows() && Loose(tree, top) && node in tree.at && Readable(tree, tree.nodes, node)
      ensures r == Protected(tree, node)
    {
      assert LooseAt(tree, top, root);
      var home := FindChildOf(root, "home");
      if home == null {
        return true;
      }
      assert ChildOf(tree, home, root) && LooseAt(tree, top, home);
      var homeRoot := FindChildOf(home, "root");
      if homeRoot == null {
        return true;
      }
      var curr := node;
      while curr != root
        invariant curr in tree.at && Inside(tree, node, curr)
        invariant Inside(tree, node, homeRoot) <==> Inside(tree, curr, homeRoot)
        decreases Depth(tree, curr)
      {
        assert Matches(tree.at, curr) && LooseAt(tree, top, curr) && AncestorLive(tree, tree.nodes, node, curr);
        if curr == homeRoot {
          return false;
        }
        var e := Load(curr);
        InsideParent(tree, node, curr);
        curr := e.parent;
      }
      return true;
    }

    lemma MayAsk(node: Node)
      requires Valid() && node in tree.at
      ensures Loose(tree, root) && Readable(tree, tree.nodes, node)
    {
      TreeIsLoose(tree, root);
      SoundReadable(tree, node);
    }

    method ResolvePath(path: string) returns (r: Node?)
      requires Valid() && Resolvable(tree, path)
      ensures r == Resolve(tree, path)
    {
      if path == "" || path == "." {
        if path == "." {
          PartsFree("", path);
          assert "" + path == path && Walk(tree, tree.cur, ["."]) == Walk(tree, tree.cur, []);
        }
        return currentDir;
      }
      var node := currentDir;
      if path[0] == '~' {
        assert Linked(tree, root);
        SoundListable(tree, root);
        var home := FindChildOf(root, "home");
        FindChildInTree(tree, root, "home");
        assert Linked(tree, home);
        SoundListable(tree, home);
        var homeRoot := FindChildOf(home, "root");
        node := if homeRoot == null then root else homeRoot;
      } else if path[0] == '/' {
        node := root;
      }
      StartInTree(tree, path);
      r := WalkPath(node, if path[0] == '~' || path[0] == '/' then path[1..] else path);
    }

    /** The loop of resolve_path */
    method WalkPath(start: Node, path: string) returns (r: Node?)
      requires Valid() && start in tree.at
      ensures r == Walk(tree, start, Components(path))
    {
      var node, token, rest := start, "", path;
      while true
        invariant node in tree.at
        invariant Walk(tree, start, Components(path)) == Walk(tree, node, Parts(token, rest))
        decreases |rest|
      {
        WalkStep(tree, node, token, rest);
        if rest == "" || rest[0] == '/' {
          if token != "" {
            var next := EnterPart(node, token);
            if next == null {
              return null;
            }
            EnterInTree(tree, node, token);
            node := next;
          }
          token := "";
          if rest == "" {
            return node;
          }
        } else {
          token := token + [rest[0]];
        }
        rest := rest[1..];
      }
    }

    method EnterPart(node: Node, token: string) returns (r: Node?)
      requires Valid() && node in tree.at
      ensures r == Enter(tree, node, token)
    {
      assert Linked(tree, node) && Matches(tree.at, node);
      SoundListable(tree, node);
      if token == ".." {
        return node.parent;
      } else if token != "." {
        r := FindChildOf(node, token);
      } else {
        return node;
      }
    }

    // ---------- creation ----------

    /** The first part of mkdir, touch and rm: the last slash, the parent it leaves, and the name behind it. */
    method ParentOf(path: string) returns (parent: Node?, name: string)
      requires Valid() && Resolvable(tree, path)
      ensures parent == Parent(tree, path) && name == BaseName(path)
    {
      var lastSlash := FindLastSlash(path);
      if lastSlash == -1 {
        parent, name := currentDir, path;
      } else if lastSlash == 0 {
        parent, name := root, path[1..];
      } else {
        parent, name := SplitPath(path, lastSlash);
      }
    }

    /** A path cut at a slash */
    method SplitPath(path: string, slash: nat) returns (parent: Node?, name: string)
      requires Valid() && Resolvable(tree, path) && 0 < slash < |path|
      ensures parent == Resolve(tree, path[..slash]) && name == path[slash + 1..]
    {
      var front := path[..slash];
      assert front[0] == path[0];
      name := path[slash + 1..];
      parent := ResolvePath(front);
    }

    /** vfs_mkdir and vfs_touch, which differ only in the type they set */
    method CreateNode(path: string, isDir: bool) returns (node: Node?)
      requires Valid() && Resolvable(tree, path)
      modifies this`tree, tree.at.Keys
      ensures Valid() && sudoMode == old(sudoMode)
      ensures node == null <==> old(Place(tree, sudoMode, path)) == null
      ensures node == null ==> tree == old(tree)
      ensures node != null ==> fresh(node) && tree == Create(old(tree), sudoMode, path, isDir, node)
    {
      var parent, name := ParentOf(path);
      if parent == null {
        return null;
      }
      ParentInTree(tree, path);
      assert Matches(tree.at, parent);
      if !parent.isDir {
        return null;
      }
      MayAsk(parent);
      var protected := IsProtected(parent, root);
      if protected && !sudoMode {
        return null;
      }
      node := new Node(name, isDir, parent);
      CreateKeeps(tree, sudoMode, path, isDir, node);
      AppendChild(parent, node);
    }

    method LastChild(parent: Node) returns (child: Node)
      requires Shows() && parent in tree.at && Heads(tree, parent) && parent.firstChild != null
      ensures Kids(tree, parent) != [] && child == Kids(tree, parent)[|Kids(tree, parent)| - 1]
    {
      ghost var ks, i := Kids(tree, parent), 0;
      assert Matches(tree.at, parent);
      child := parent.firstChild;
      assert ChildOf(tree, child, parent) && Matches(tree.at, child);
      AfterAt(ks, 0);
      while child.nextSibling != null
        invariant 0 <= i < |ks| && child == ks[i] && child.nextSibling == At(ks, i + 1)
        decreases |ks| - i
      {
        child := child.nextSibling;
        i := i + 1;
        assert child in ks && ChildOf(tree, child, parent) && Matches(tree.at, child);
        AfterAt(ks, i);
      }
    }

    /** The last part of mkdir and touch: the new node goes to the tail of its parent's chain. */
    method AppendChild(parent: Node, node: Node)
      requires Shows() && IsTree(tree) && IsDir(tree, parent) && node !in tree.at
      requires node.Fields() == Record(node.name, node.isDir, null, 0, parent, null, null)
      modifies this`tree, tree.at.Keys
      ensures Shows() && tree == Append(old(tree), parent, node, node.name, node.isDir)
    {
      ghost var t, ks := tree, Kids(tree, parent);
      assert Linked(t, parent) && Matches(t.at, parent);
      if parent.firstChild == null {
        parent.firstChild := node;
      } else {
        var child := LastChild(parent);
        assert ChildOf(t, child, parent);
        child.nextSibling := node;
      }
      tree := Append(t, parent, node, node.name, node.isDir);
      AppendedFits(t, parent, node, node.name, node.isDir);
      ghost var changed := if ks == [] then parent else ks[|ks| - 1];
      assert changed.Fields() == if ks == [] then old(parent.Fields()).(firstChild := node)
                                 else old(changed.Fields()).(nextSibling := node);
      forall m | m in tree.at
        ensures Matches(tree.at, m)
      {
        if m != node {
          assert old(Matches(t.at, m));
          AppendFits(t, parent, node, node.name, node.isDir, m, old(m.Fields()));
          if m != changed {
            assert m.Fields() == old(m.Fields());
          }
        }
      }
    }

    // ---------- removal ----------

    /** kfree of a node, which must be allocated */
    method FreeNode(n: Node)
      requires n in tree.nodes
      modifies this`tree
      ensures tree == old(tree).(nodes := old(tree).nodes - {n})
    {
      tree := tree.(nodes := tree.nodes - {n});
    }

    /** kfree of a data buffer, which must be allocated */
    method FreeBuffer(b: Buffer)
      requires b in tree.buffers
      modifies this`tree
      ensures tree == old(tree).(buffers := old(tree).buffers - {b})
    {
      tree := tree.(buffers := tree.buffers - {b});
    }

    /** The walk of rmdir, rm_r and mv to a node in its parent's chain */
    method Preceding(parent: Node, node: Node) returns (prev: Node?, ghost i: nat)
      requires Shows() && IsTree(tree) && node in tree.at && node != tree.root && parent == Up(tree, node)
      ensures i < |Kids(tree, parent)| && Kids(tree, parent)[i] == node
      ensures prev == if i == 0 then null else Kids(tree, parent)[i - 1]
    {
      assert Linked(tree, node) && Linked(tree, parent) && Matches(tree.at, parent);
      ghost var ks := Kids(tree, parent);
      i, prev := 0, null;
      var child := parent.firstChild;
      while child != node
        invariant 0 <= i < |ks| && child == ks[i] && prev == (if i == 0 then null else ks[i - 1])
        invariant node in ks[i..]
        decreases |ks| - i
      {
        assert child in ks && ChildOf(tree, child, parent) && Matches(tree.at, child);
        AfterAt(ks, i);
        prev := child;
        child := child.nextSibling;
        i := i + 1;
      }
    }

    /** The two ways of taking a node out of its chain */
    method DetachNode(parent: Node, prev: Node?, child: Node, ghost i: nat)
      requires Shows() && IsTree(tree) && child in tree.at && child != tree.root && parent == Up(tree, child)
      requires i < |Kids(tree, parent)| && Kids(tree, parent)[i] == child
      requires prev == if i == 0 then null else Kids(tree, parent)[i - 1]
      modifies this`tree, tree.at.Keys
      ensures Shows() && tree == Detach(old(tree), child) && root == old(root) && currentDir == old(currentDir)
    {
      ghost var t, ks := tree, Kids(tree, parent);
      assert Linked(t, child) && Linked(t, parent) && ChildOf(t, child, parent) && Matches(t.at, child);
      AfterAt(ks, i);
      if prev == null {
        parent.firstChild := child.nextSibling;
      } else {
        assert ChildOf(t, prev, parent);
        prev.nextSibling := child.nextSibling;
      }
      tree := Detach(t, child);
      forall m | m in tree.at
        ensures Matches(tree.at, m)
      {
        assert old(Matches(t.at, m));
        DetachFits(t, child, i, m, old(m.Fields()));
        assert m.Fields() == (if i > 0 && m == ks[i - 1] then old(m.Fields()).(nextSibling := At(ks, i + 1))
                              else if i == 0 && m == parent then old(m.Fields()).(firstChild := At(ks, 1))
                              else old(m.Fields()));
      }
    }

    /** The subtree of the detached node n is no longer part of the tree. */
    ghost method Forget(t: Tree, n: Node)
      requires IsTree(t) && n in t.at && n != t.root && Up(t, n) in t.at
      requires Shows() && tree.at == Detach(t, n).at && tree.root == t.root
      modifies this`tree
      ensures Shows() && tree == Unlink(t, n).(nodes := old(tree).nodes, buffers := old(tree).buffers)
      ensures root == old(root) && currentDir == old(currentDir)
    {
      var before := tree;
      tree := Unlink(t, n).(nodes := before.nodes, buffers := before.buffers);
      forall m | m in tree.at
        ensures Matches(tree.at, m)
      {
        assert Matches(before.at, m);
        UnlinkFits(t, n, m, m.Fields());
      }
    }

    method HasName(parent: Node, child: Node, name: string) returns (same: bool)
      requires Shows() && IsTree(tree) && parent in tree.at && child in Kids(tree, parent)
      ensures same == Named(tree, child, name)
    {
      assert Linked(tree, parent) && ChildOf(tree, child, parent) && Matches(tree.at, child);
      same := child.name == name;
    }

    /** The walk of rm to the first child of that name */
    method FindByName(parent: Node, name: string) returns (prev: Node?, child: Node?, ghost i: nat)
      requires Valid() && parent in tree.at
      ensures child == FindChild(tree, parent, name)
      ensures child != null ==> i < |Kids(tree, parent)| && Kids(tree, parent)[i] == child
      ensures child != null ==> prev == if i == 0 then null else Kids(tree, parent)[i - 1]
    {
      ghost var ks := Kids(tree, parent);
      FindFromIs(tree, ks, 0, name);
      i, prev := 0, null;
      assert Linked(tree, parent) && Matches(tree.at, parent);
      child := parent.firstChild;
      while child != null
        invariant 0 <= i <= |ks| && child == At(ks, i)
        invariant prev == if i == 0 then null else ks[i - 1]
        invariant FindChild(tree, parent, name) == FindFrom(tree, ks, i, name)
        decreases |ks| - i
      {
        var same := HasName(parent, child, name);
        if same {
          return;
        }
        prev := child;
        assert ChildOf(tree, child, parent) && OwnedAt(tree, child);
        child := NextSibling(parent, child, i);
        i := i + 1;
      }
    }

    method Rm(path: string) returns (code: int)
      requires Valid() && Resolvable(tree, path)
      modifies this`tree, tree.at.Keys
      ensures Valid()
      ensures code == RmCode(old(tree), sudoMode, path) && tree == FileOps.Rm(old(tree), sudoMode, path)
    {
      ghost var t := tree;
      RmKeeps(t, sudoMode, path);
      var parent, name := ParentOf(path);
      if parent == null {
        return -1;
      }
      ParentInTree(t, path);
      var prev, child;
      ghost var i;
      prev, child, i := FindByName(parent, name);
      if child == null {
        return -1;
      }
      RmTargetInTree(t, path);
      FindChildInTree(t, parent, name);
      MayAsk(child);
      var protected := IsProtected(child, root);
      if protected && !sudoMode {
        return -3;
      }
      assert Matches(t.at, child) && Linked(t, child);
      if child.isDir {
        return -2;
      }
      RemoveLeaf(parent, prev, child, i);
      return 0;
    }

    /** The end of rm and rmdir: the node leaves its chain; its data, if any, and the node are freed. */
    method RemoveLeaf(parent: Node, prev: Node?, child: Node, ghost i: nat)
      requires Valid() && child in tree.at && child != tree.root && child != tree.cur && Kids(tree, child) == []
      requires parent == Up(tree, child) && i < |Kids(tree, parent)| && Kids(tree, parent)[i] == child
      requires prev == if i == 0 then null else Kids(tree, parent)[i - 1]
      modifies this`tree, tree.at.Keys
      ensures Valid() && tree == Prune(old(tree), child)
    {
      ghost var t := tree;
      assert Linked(t, child) && OwnedAt(t, child);
      LeafPruned(t, child);
      DetachNode(parent, prev, child, i);
      assert Matches(tree.at, child);
      FreeLeaf(child);
      Forget(t, child);
    }

    /** kfree of the data, if any, and of the node */
    method FreeLeaf(child: Node)
      requires child in tree.nodes && (child.data == null || child.data in tree.buffers)
      modifies this`tree
      ensures tree == old(tree).(nodes := old(tree).nodes - {child},
                                 buffers := if child.data == null then old(tree).buffers
                                            else old(tree).buffers - {child.data})
    {
      if child.data != null {
        FreeBuffer(child.data);
      }
      FreeNode(child);
    }

    method Rmdir(path: string) returns (code: int)
      requires Valid() && Resolvable(tree, path)
      modifies this`tree, tree.at.Keys
      ensures Valid()
      ensures code == RmdirCode(old(tree), sudoMode, path) && tree == FileOps.Rmdir(old(tree), sudoMode, path)
    {
      ghost var t := tree;
      var node := ResolvePath(path);
      if node == null {
        return -1;
      }
      if node == root {
        return -4;
      }
      if node == currentDir {
        return -5;
      }
      ResolveInTree(t, path);
      assert Matches(t.at, node);
      if !node.isDir {
        return -2;
      }
      if node.firstChild != null {
        return -3;
      }
      MayAsk(node);
      var protected := IsProtected(node, root);
      if protected && !sudoMode {
        return -4;
      }
      var prev;
      ghost var i;
      prev, i := Preceding(node.parent, node);
      RemoveLeaf(node.parent, prev, node, i);
      return 0;
    }

    /**
     * vfs_rm_recursive below the detached node `top`.  Tree t is the tree before anything was freed.
     * Every kfree is of something still allocated, and each is made once.
     */
    method RmRecursive(ghost t: Tree, ghost top: Node, ghost bound: nat, node: Node) returns (code: int)
      requires Shows() && tree.at == t.at && tree.root == t.root
      requires Loose(t, top) && Owned(t) && node in t.at && Inside(t, node, top) && DepthsBelow(t, bound)
      requires Uniform(t, sudoMode, node)
      requires Around(t, tree.nodes, top, node) && Subtree(t, node) <= tree.nodes
      requires BuffersOf(t, Freed(t, sudoMode, node) - {node}) <= tree.buffers
      modifies this`tree
      ensures Shows() && sudoMode == old(sudoMode)
      ensures tree == old(tree).(nodes := old(tree).nodes - Freed(t, sudoMode, node),
                                 buffers := old(tree).buffers - BuffersOf(t, Freed(t, sudoMode, node) - {node}))
      decreases bound - Depth(t, node), 2
    {
      SubtreeSplit(t, top, node);
      var refused := FreeChildren(t, top, bound, node);
      if !refused {
        refused := Refused(t, top, node);
      }
      if refused {
        assert Freed(t, sudoMode, node) == {};
        return -3;
      }
      FreeNode(node);
      return 0;
    }

    /** The loop of rm_recursive; it stops at the first child that may not go, and then it has freed nothing. */
    method FreeChildren(ghost t: Tree, ghost top: Node, ghost bound: nat, node: Node) returns (refused: bool)
      requires Shows() && tree.at == t.at && tree.root == t.root
      requires Loose(t, top) && Owned(t) && node in t.at && Inside(t, node, top) && DepthsBelow(t, bound)
      requires Uniform(t, sudoMode, node)
      requires Around(t, tree.nodes, top, node) && Subtree(t, node) <= tree.nodes
      requires BuffersOf(t, Freed(t, sudoMode, node) - {node}) <= tree.buffers
      modifies this`tree
      ensures Shows() && sudoMode == old(sudoMode)
      ensures MayChange(t, sudoMode, node) ==> !refused && tree == Less(old(tree), t, Subtree(t, node) - {node})
      ensures !MayChange(t, sudoMode, node) ==> tree == old(tree)
      ensures Around(t, tree.nodes, top, node)
      decreases bound - Depth(t, node), 1
    {
      ghost var t0, ks, i := tree, Kids(t, node), 0;
      assert Matches(t.at, node) && LooseAt(t, top, node);
      var e := Load(node);
      var child := e.firstChild;
      while child != null
        invariant 0 <= i <= |ks| && child == At(ks, i)
        invariant i > 0 ==> MayChange(t, sudoMode, node)
        invariant Shows() && sudoMode == old(sudoMode) && tree == Progress(t0, t, ks, i)
        decreases |ks| - i
      {
        refused, child := FreeNext(t, t0, top, bound, node, child, i);
        if refused {
          return;
        }
        i := i + 1;
      }
      AllFreed(t, t0, top, node);
      refused := false;
    }

    /** One round of the loop: the child is freed, unless it is protected, and the next one is found. */
    method FreeNext(ghost t: Tree, ghost t0: Tree, ghost top: Node, ghost bound: nat, node: Node, child: Node,
                    ghost i: nat) returns (refused: bool, next: Node?)
      requires Shows() && tree.at == t.at && tree.root == t.root
      requires Loose(t, top) && Owned(t) && node in t.at && Inside(t, node, top) && DepthsBelow(t, bound)
      requires i < |Kids(t, node)| && child == Kids(t, node)[i] && tree == Progress(t0, t, Kids(t, node), i)
      requires Uniform(t, sudoMode, node) && (i > 0 ==> MayChange(t, sudoMode, node))
      requires Around(t, t0.nodes, top, node) && Subtree(t, node) <= t0.nodes
      requires BuffersOf(t, Freed(t, sudoMode, node) - {node}) <= t0.buffers
      modifies this`tree
      ensures Shows() && sudoMode == old(sudoMode) && refused == !MayChange(t, sudoMode, node)
      ensures refused ==> tree == old(tree)
      ensures !refused ==> tree == Progress(t0, t, Kids(t, node), i + 1) && next == At(Kids(t, node), i + 1)
      decreases bound - Depth(t, node), 0
    {
      next := null;
      NextChild(t, top, sudoMode, node, i);
      NextReadable(t, t0, top, node, i);
      refused := Refused(t, top, child);
      if refused {
        return;
      }
      NextFreeable(t, t0, top, sudoMode, node, i);
      assert LooseAt(t, top, node);
      next := NextSibling(node, child, i);
      FreeChild(t, top, bound, child);
    }

    method NextSibling(parent: Node, child: Node, ghost i: nat) returns (next: Node?)
      requires Shows() && parent in tree.at && Heads(tree, parent) && child in tree.nodes
      requires i < |Kids(tree, parent)| && child == Kids(tree, parent)[i]
      ensures next == At(Kids(tree, parent), i + 1)
    {
      assert ChildOf(tree, child, parent) && Matches(tree.at, child);
      AfterAt(Kids(tree, parent), i);
      var e := Load(child);
      next := e.nextSibling;
    }

    method Refused(ghost t: Tree, ghost top: Node, node: Node) returns (r: bool)
      requires Shows() && tree.at == t.at && tree.root == t.root && Loose(t, top) && node in t.at
      requires Around(t, tree.nodes, top, node)
      ensures r == !MayChange(t, sudoMode, node)
    {
      LooseAnyway(t, tree, top);
      AroundReadable(t, tree.nodes, top, node);
      ReadableAnyway(t, tree, tree.nodes, node);
      ProtectedAnyway(t, tree, node);
      r := IsProtected(node, top);
      r := r && !sudoMode;
    }

    /** The loop body of rm_recursive for a child that may go */
    method FreeChild(ghost t: Tree, ghost top: Node, ghost bound: nat, child: Node)
      requires Shows() && tree.at == t.at && tree.root == t.root
      requires Loose(t, top) && Owned(t) && DepthsBelow(t, bound)
      requires child in t.at && Freeable(t, tree, top, sudoMode, child) && MayChange(t, sudoMode, child)
      requires Around(t, tree.nodes, top, child)
      modifies this`tree
      ensures Shows() && sudoMode == old(sudoMode) && tree == Less(old(tree), t, Subtree(t, child))
      decreases bound - Depth(t, child), 3
    {
      assert Matches(t.at, child) && Inside(t, child, child);
      var e := Load(child);
      if e.isDir {
        var _ := RmRecursive(t, top, bound, child);
      } else {
        if e.data != null {
          FreeBuffer(e.data);
        }
        FreeNode(child);
      }
    }

    /** The walk of rm_r from the working directory: if it is in the subtree, it becomes the root. */
    method LeaveSubtree(node: Node)
      requires Valid() && node in tree.at && node != tree.root
      modifies this`currentDir
      ensures currentDir == if Inside(tree, old(currentDir), node) then root else old(currentDir)
    {
      var check := currentDir;
      while check != root
        invariant check in tree.at && currentDir == old(currentDir)
        invariant Inside(tree, currentDir, node) <==> Inside(tree, check, node)
        decreases Depth(tree, check)
      {
        assert Matches(tree.at, check) && Linked(tree, check);
        if check == node {
          currentDir := root;
          return;
        }
        check := check.parent;
      }
      RootStays(tree, node);
    }

    /** vfs_rm_r with super_sudo_mode off */
    method RmR(path: string) returns (code: int)
      requires Valid() && Resolvable(tree, path)
      modifies this`tree, this`currentDir, tree.at.Keys
      ensures Valid()
      ensures code == RmRCode(old(tree), sudoMode, path) && tree == FileOps.RmR(old(tree), sudoMode, path)
    {
      var node := ResolvePath(path);
      if node == null {
        return -1;
      }
      ResolveInTree(tree, path);
      if node == root {
        return -5;
      }
      if node == currentDir {
        return -4;
      }
      MayAsk(node);
      var protected := IsProtected(node, root);
      if protected && !sudoMode {
        return -3;
      }
      RmRKeeps(tree, sudoMode, path);
      RemoveSubtree(node);
      return 0;
    }

    method RemoveSubtree(node: Node)
      requires Valid() && node in tree.at && node != tree.root && MayChange(tree, sudoMode, node)
      modifies this`tree, this`currentDir, tree.at.Keys
      ensures Shows() && currentDir == tree.cur
      ensures tree == Removed(old(tree), sudoMode, node)
    {
      ghost var t := tree;
      assert Linked(t, node) && Matches(t.at, node);
      var prev;
      ghost var i;
      prev, i := Preceding(node.parent, node);
      LeaveSubtree(node);
      DetachNode(node.parent, prev, node, i);
      FreeSubtree(t, node);
    }

    method FreeSubtree(ghost t: Tree, node: Node)
      requires Sound(t) && node in t.at && node != t.root && Up(t, node) in t.at && MayChange(t, sudoMode, node)
      requires Shows() && tree == Detach(t, node)
      modifies this`tree
      ensures Shows() && tree == Removed(t, sudoMode, node)
    {
      RemovalReady(t, sudoMode, node);
      DetachedAround(t, node);
      ghost var bound := DepthBound(tree, tree.at.Keys);
      var _ := RmRecursive(tree, node, bound, node);
      Forget(t, node);
    }

    // ---------- moving ----------

    method Mv(src: string, dest: string) returns (code: int)
      requires Valid() && Resolvable(tree, src) && Resolvable(tree, dest)
      modifies this`tree, tree.at.Keys
      ensures Shows() && currentDir == tree.cur
      ensures SafeMv(old(tree), sudoMode, src, dest) ==> Valid()
      ensures code == MvCode(old(tree), sudoMode, src, dest) && tree == FileOps.Mv(old(tree), sudoMode, src, dest)
    {
      ghost var t := tree;
      var node, p, name;
      code, node, p, name := MvChecks(src, dest);
      if code == 0 {
        MoveNode(node, p, name);
      }
      if SafeMv(t, sudoMode, src, dest) {
        MvKeeps(t, sudoMode, src, dest);
      }
    }

    /** What mv looks up and checks before it changes anything */
    method MvChecks(src: string, dest: string) returns (code: int, node: Node, p: Node, name: string)
      requires Valid() && Resolvable(tree, src) && Resolvable(tree, dest)
      ensures code == MvCode(tree, sudoMode, src, dest)
      ensures code == 0 ==> node == Resolve(tree, src) && node in tree.at && node != tree.root
      ensures code == 0 ==> p == MvInto(tree, src, dest) && p in tree.at && name == MvName(tree, src, dest)
    {
      node, p, name := root, root, dest;
      var found := ResolvePath(src);
      if found == null {
        return -1, node, p, name;
      }
      ResolveInTree(tree, src);
      if found == root {
        return -3, node, p, name;
      }
      node := found;
      MayAsk(node);
      var protected := IsProtected(node, root);
      if protected && !sudoMode {
        return -3, node, p, name;
      }
      var destNode := ResolvePath(dest);
      MvInTree(tree, src, dest);
      assert Matches(tree.at, node);
      p := node.parent;
      if destNode != null {
        ResolveInTree(tree, dest);
        assert Matches(tree.at, destNode);
        if destNode.isDir {
          MayAsk(destNode);
          protected := IsProtected(destNode, root);
          if protected && !sudoMode {
            return -4, node, p, name;
          }
          p, name := destNode, node.name;
        }
      }
      code := 0;
    }

    /** The end of mv: the node leaves its chain and becomes the first child of p. */
    method MoveNode(node: Node, p: Node, name: string)
      requires Valid() && node in tree.at && node != tree.root && p in tree.at
      modifies this`tree, tree.at.Keys
      ensures Shows() && tree == MoveTo(old(tree), node, p, name)
    {
      ghost var t := tree;
      assert Linked(t, node) && Matches(t.at, node);
      var prev;
      ghost var i;
      prev, i := Preceding(node.parent, node);
      DetachNode(node.parent, prev, node, i);
      LinkFirst(t, node, p, name);
    }

    method LinkFirst(ghost t: Tree, node: Node, p: Node, name: string)
      requires IsTree(t) && node in t.at && node != t.root && p in t.at && Up(t, node) in t.at
      requires Shows() && tree == Detach(t, node)
      modifies this`tree, node, p`firstChild
      ensures Shows() && tree == MoveTo(t, node, p, name)
    {
      ghost var d := tree;
      assert Matches(d.at, p);
      var head := p.firstChild;
      assert head == At(Kids(d, p), 0);
      node.name := name;
      node.parent := p;
      node.nextSibling := head;
      p.firstChild := node;
      tree := MoveTo(t, node, p, name);
      assert node.Fields() == Moved(old(node.Fields()), node, node, p, name, head);
      assert p.Fields() == Moved(old(p.Fields()), p, node, p, name, head);
      forall m | m in tree.at
        ensures Matches(tree.at, m)
      {
        assert old(Matches(d.at, m));
        MoveFits(t, node, p, name, m, old(m.Fields()));
        if m != node && m != p {
          assert m.Fields() == old(m.Fields());
        }
      }
    }

    method SetSudo(on: bool)
      requires Valid()
      modifies this`sudoMode
      ensures Valid() && sudoMode == on && tree == old(tree)
    {
      sudoMode := on;
    }

    // ---------- directories and data ----------

    method Cd(path: string) returns (code: int)
      requires Valid() && Resolvable(tree, path)
      modifies this`tree, this`currentDir
      ensures Valid()
      ensures code == CdCode(old(tree), path) && tree == FileOps.Cd(old(tree), path)
    {
      CdKeeps(tree, path);
      var node := ResolvePath(path);
      if node == null {
        return -1;
      }
      ResolveInTree(tree, path);
      assert Matches(tree.at, node);
      if !node.isDir {
        return -2;
      }
      SetCurrent(node);
      return 0;
    }

    method SetCurrent(node: Node)
      requires Shows()
      modifies this`tree, this`currentDir
      ensures Shows() && currentDir == node && tree == old(tree).(cur := node)
    {
      ghost var t := tree;
      currentDir := node;
      tree := tree.(cur := node);
      forall m | m in tree.at
        ensures Matches(tree.at, m)
      {
        assert old(Matches(t.at, m));
      }
    }

    /** The data of the file, or null if it has none */
    method Cat(path: string) returns (code: int, data: Buffer?)
      requires Valid() && Resolvable(tree, path)
      ensures code == (if Resolve(tree, path) == null then -1 else if IsDir(tree, Resolve(tree, path)) then -2 else 0)
      ensures code == 0 ==> Resolve(tree, path) in tree.at && data == tree.at[Resolve(tree, path)].data
      ensures code != 0 ==> data == null
    {
      var node := ResolvePath(path);
      if node == null {
        return -1, null;
      }
      ResolveInTree(tree, path);
      assert Matches(tree.at, node);
      if node.isDir {
        return -2, null;
      }
      return 0, node.data;
    }

    /** The new data of a file: the old buffer, if any, is freed. */
    method ReplaceData(node: Node, text: string) returns (b: Buffer)
      requires Valid() && node in tree.at && !IsDir(tree, node)
      modifies this`tree, node
      ensures Valid() && fresh(b) && b.text == text && tree == SetData(old(tree), node, b)
    {
      ghost var t := tree;
      assert Matches(t.at, node) && OwnedAt(t, node);
      if node.data != null {
        FreeBuffer(node.data);
      }
      b := new Buffer(text);
      node.data := b;
      node.dataSize := |text|;
      SetDataIsTree(t, node, b);
      SetDataOwned(t, node, b);
      tree := tree.(at := t.at[node := t.at[node].(data := b)], buffers := tree.buffers + {b});
      assert tree == SetData(t, node, b);
      assert node.Fields() == old(node.Fields()).(data := b, dataSize := |text|);
      forall m | m in tree.at
        ensures Matches(tree.at, m)
      {
        assert old(Matches(t.at, m));
        SetDataFits(t, node, b, m, old(m.Fields()));
        if m != node {
          assert m.Fields() == old(m.Fields());
        }
      }
    }

    /** `made` is the node that vfs_touch creates if the path does not resolve, and `b` the new buffer. */
    method Write(path: string, data: string, append: bool) returns (code: int, ghost made: Node, ghost b: Buffer?)
      requires Valid() && Resolvable(tree, path)
      modifies this`tree, tree.at.Keys
      ensures Valid()
      ensures Resolve(old(tree), path) == null && old(Place(tree, sudoMode, path)) != null ==> fresh(made)
      ensures b == null || fresh(b)
      ensures code == WriteCode(old(tree), sudoMode, path, made)
      ensures tree == FileOps.Write(old(tree), sudoMode, path, made, b)
      ensures code == 0 ==> b != null && b.text == WriteText(old(tree), path, data, append)
    {
      made, b := root, null;
      var node := ResolvePath(path);
      if node == null {
        node := CreateNode(path, false);
        if node == null {
          return -1, made, b;
        }
        made := node;
      } else {
        ResolveInTree(tree, path);
      }
      code, b := WriteNode(node, data, append);
    }

    /** The second half of vfs_write, when the node is there */
    method WriteNode(node: Node, data: string, append: bool) returns (code: int, ghost b: Buffer?)
      requires Valid() && node in tree.at
      modifies this`tree, node
      ensures Valid() && sudoMode == old(sudoMode) && (b == null || fresh(b))
      ensures code == if IsDir(old(tree), node) then -2 else if !MayChange(old(tree), sudoMode, node) then -3 else 0
      ensures code != 0 ==> tree == old(tree)
      ensures code == 0 ==> b != null && tree == SetData(old(tree), node, b)
      ensures var was := old(tree).at[node].data;
              code == 0 ==> b.text == if append && was != null then was.text + data else data
    {
      b := null;
      assert Matches(tree.at, node);
      if node.isDir {
        return -2, b;
      }
      MayAsk(node);
      var protected := IsProtected(node, root);
      if protected && !sudoMode {
        return -3, b;
      }
      var text := if append && node.data != null then node.data.text + data else data;
      b := ReplaceData(node, text);
      code := 0;
    }

    // ---------- pwd ----------

    /**
     * vfs_pwd fills its buffer of 4096 characters from behind and returns where the path starts.
     * Every write stays in the buffer; the path is there exactly when it has at most 4095 characters.
     */
    method Pwd() returns (path: array<char>, pos: int)
      requires Valid()
      ensures fresh(path) && path.Length == 4096
      ensures HoldsText(path[..], pos, Resolution.Pwd(tree)) <==> |Resolution.Pwd(tree)| <= 4095
      ensures |Resolution.Pwd(tree)| > 4095 ==> pos < 1
    {
      path := new char[4096];
      var node := currentDir;
      if node == root {
        path[0], path[1] := '/', '\0';
        return path, 0;
      }
      path[0] := '\0';
      pos := 4095;
      path[pos] := '\0';
      ghost var done := "";
      while node != root
        invariant node in tree.at && 0 <= pos <= 4095 && path[4095] == '\0'
        invariant path[pos..4095] == done && PathOf(tree, tree.cur) == PathOf(tree, node) + done
        decreases Depth(tree, node)
      {
        AtNode(node, done);
        var len := |node.name|;
        pos := pos - len;
        if pos < 1 {
          break;
        }
        PrependName(path, pos, node.name);
        pos := pos - 1;
        done := "/" + node.name + done;
        node := node.parent;
      }
    }

    /** What vfs_pwd reads at a node */
    lemma AtNode(node: Node, done: string)
      requires Shows() && IsTree(tree) && node in tree.at && node != tree.root
      ensures node.parent in tree.at && Depth(tree, node.parent) < Depth(tree, node)
      ensures |PathOf(tree, node)| >= 1 + |node.name|
      ensures PathOf(tree, node) + done == PathOf(tree, node.parent) + ("/" + node.name + done)
    {
      assert Matches(tree.at, node);
      PathOfShape(tree, node);
    }

    /** One name and its slash in front of what the buffer holds from pos + |name| on */
    method PrependName(path: array<char>, pos: nat, name: string)
      requires path.Length == 4096 && 1 <= pos && pos + |name| <= 4095
      modifies path
      ensures path[pos - 1..4095] == "/" + name + old(path[pos + |name|..4095]) && path[4095] == old(path[4095])
    {
      ghost var tail := path[pos + |name|..4095];
      CopyName(path, pos, name);
      path[pos - 1] := '/';
      assert path[pos + |name|..4095] == tail;
      assert path[pos..4095] == path[pos..pos + |name|] + path[pos + |name|..4095];
      assert path[pos - 1..4095] == [path[pos - 1]] + path[pos..4095];
    }

    /** kmemcpy into the buffer */
    method CopyName(path: array<char>, pos: nat, name: string)
      requires pos + |name| < path.Length
      modifies path
      ensures path[pos..pos + |name|] == name
      ensures forall k :: 0 <= k < pos || pos + |name| <= k < path.Length ==> path[k] == old(path[k])
    {
      var i := 0;
      while i < |name|
        invariant 0 <= i <= |name| && path[pos..pos + i] == name[..i]
        invariant forall k :: 0 <= k < pos || pos + |name| <= k < path.Length ==> path[k] == old(path[k])
      {
        path[pos + i] := name[i];
        i := i + 1;
      }
    }

    // ---------- copying ----------

    /** The path that cp and cp_r create */
    method CopyPath(node: Node, src: string, dest: string) returns (to: string)
      requires Valid() && Resolvable(tree, dest) && node == Resolve(tree, src) && node in tree.at
      ensures to == CpPath(tree, src, dest) && Resolvable(tree, to)
    {
      var destNode := ResolvePath(dest);
      to := dest;
      if destNode != null {
        ResolveInTree(tree, dest);
        assert Matches(tree.at, destNode) && Matches(tree.at, node);
        if destNode.isDir {
          to := dest + "/" + node.name;
          assert dest != "" ==> to[0] == dest[0];
        }
      }
    }

    /** What cp looks up before it creates anything */
    method CpChecks(src: string, dest: string) returns (code: int, node: Node, to: string)
      requires Valid() && Resolvable(tree, src) && Resolvable(tree, dest)
      ensures code == (var n := Resolve(tree, src); if n == null then -1 else if IsDir(tree, n) then -2 else 0)
      ensures code == 0 ==> node == Resolve(tree, src) && node in tree.at && !IsDir(tree, node)
      ensures code == 0 ==> to == CpPath(tree, src, dest) && Resolvable(tree, to)
    {
      node, to := root, dest;
      var found := ResolvePath(src);
      if found == null {
        return -1, node, to;
      }
      node := found;
      ResolveInTree(tree, src);
      assert Matches(tree.at, node);
      if node.isDir {
        return -2, node, to;
      }
      to := CopyPath(node, src, dest);
      code := 0;
    }

    method Cp(src: string, dest: string) returns (code: int, ghost made: Node, ghost b: Buffer?)
      requires Valid() && Resolvable(tree, src) && Resolvable(tree, dest)
      modifies this`tree, tree.at.Keys
      ensures Valid()
      ensures code == CpCode(old(tree), sudoMode, src, dest)
      ensures tree == FileOps.Cp(old(tree), sudoMode, src, dest, made, b)
      ensures code == 0 ==> fresh(made)
      ensures b == null || fresh(b)
      ensures var data := DataOf(old(tree), Resolve(old(tree), src));
              code == 0 && data != null ==> b != null && b.text == data.text
    {
      made, b := root, null;
      var node, to;
      code, node, to := CpChecks(src, dest);
      if code == 0 {
        assert Matches(tree.at, node);
        var data := node.data;
        var copy := CreateNode(to, false);
        if copy == null {
          code := -3;
        } else {
          made := copy;
          if data != null {
            b := ReplaceData(copy, data.text);
          }
        }
      }
    }

    /**
     * vfs_cp_r.  A copied directory is one new subtree: its nodes are images of the nodes of the source,
     * in the same order, with the same names, types and texts, and all that was there before is as it was.
     * The whole call is a run `ops` of mkdir and cp calls, so that it keeps what runs of these keep.
     */
    method CpR(src: string, dest: string)
      returns (code: int, ghost made: Node, ghost f: map<Node, Node>, ghost ops: seq<Runs.Op>)
      requires Valid() && Resolvable(tree, src) && Resolvable(tree, dest) && CpRReady(tree, sudoMode, src, dest)
      modifies this`tree, tree.at.Keys
      ensures Valid() && sudoMode == old(sudoMode) && Runs.Copies(old(tree), sudoMode, ops, tree)
      ensures code == CpRCode(old(tree), sudoMode, src, dest)
      ensures code != 0 ==> tree == old(tree)
      ensures code == 0 ==> Copied(old(tree), tree, sudoMode, src, dest, made, f)
    {
      ghost var bound := DepthBound(tree, tree.at.Keys);
      code, made, f, ops := CopyTree(src, dest, bound);
    }

    /** vfs_cp_r below a bound on the depth of the source, which never changes */
    method CopyTree(src: string, dest: string, ghost bound: nat)
      returns (code: int, ghost made: Node, ghost f: map<Node, Node>, ghost ops: seq<Runs.Op>)
      requires Valid() && Resolvable(tree, src) && Resolvable(tree, dest) && CpRReady(tree, sudoMode, src, dest)
      requires Resolve(tree, src) != null ==> Deepest(tree, Resolve(tree, src), bound)
      modifies this`tree, tree.at.Keys
      ensures Valid() && sudoMode == old(sudoMode) && Runs.Copies(old(tree), sudoMode, ops, tree)
      ensures forall m :: m in tree.at && m !in old(tree).at ==> fresh(m)
      ensures code == CpRCode(old(tree), sudoMode, src, dest)
      ensures code != 0 ==> tree == old(tree)
      ensures code == 0 ==> Copied(old(tree), tree, sudoMode, src, dest, made, f)
      decreases bound - (if Resolve(tree, src) == null then bound else Depth(tree, Resolve(tree, src))), 2
    {
      made, f, ops := root, map[], [];
      Runs.CopiesNothing(tree, sudoMode);
      var node := ResolvePath(src);
      if node == null {
        return -1, made, f, ops;
      }
      ResolveInTree(tree, src);
      assert Matches(tree.at, node);
      if node.isDir {
        code, made, f, ops := CopyDir(node, src, dest, bound);
      } else {
        code, made, f, ops := CopyFile(src, dest);
      }
    }

    method CopyDir(node: Node, src: string, dest: string, ghost bound: nat)
      returns (code: int, ghost made: Node, ghost f: map<Node, Node>, ghost ops: seq<Runs.Op>)
      requires Valid() && Resolvable(tree, dest) && CpRReady(tree, sudoMode, src, dest)
      requires node == Resolve(tree, src) && node in tree.at && IsDir(tree, node) && Deepest(tree, node, bound)
      modifies this`tree, tree.at.Keys
      ensures Valid() && sudoMode == old(sudoMode) && Runs.Copies(old(tree), sudoMode, ops, tree)
      ensures forall m :: m in tree.at && m !in old(tree).at ==> fresh(m)
      ensures code == CpRCode(old(tree), sudoMode, src, dest)
      ensures code != 0 ==> tree == old(tree)
      ensures code == 0 ==> Copied(old(tree), tree, sudoMode, src, dest, made, f)
      decreases bound - Depth(tree, node), 1
    {
      ghost var t := tree;
      made, f, ops, code := root, map[], [], -3;
      Runs.CopiesNothing(t, sudoMode);
      var to := CopyPath(node, src, dest);
      var newDir := CreateNode(to, true);
      if newDir != null {
        made, code := newDir, 0;
        ghost var op := Runs.Op.Mkdir(to, newDir);
        Runs.CopiesOne(t, sudoMode, op);
        ghost var u := tree;
        f, ops := CopyChildren(t, node, src, to, newDir, bound);
        Runs.CopiesThen(t, sudoMode, [op], u, ops, tree);
        ops := [op] + ops;
        forall m | m in tree.at && m !in t.at
          ensures fresh(m)
        {
          CreateNodes(t, sudoMode, to, true, newDir, m);
        }
      }
    }

    /** vfs_cp as a step of cp_r */
    method CopyFile(src: string, dest: string)
      returns (code: int, ghost made: Node, ghost f: map<Node, Node>, ghost ops: seq<Runs.Op>)
      requires Valid() && Resolvable(tree, src) && Resolvable(tree, dest)
      requires Resolve(tree, src) != null && !IsDir(tree, Resolve(tree, src))
      modifies this`tree, tree.at.Keys
      ensures Valid() && sudoMode == old(sudoMode) && Runs.Copies(old(tree), sudoMode, ops, tree)
      ensures forall m :: m in tree.at && m !in old(tree).at ==> fresh(m)
      ensures code == CpRCode(old(tree), sudoMode, src, dest)
      ensures code != 0 ==> tree == old(tree)
      ensures code == 0 ==> Copied(old(tree), tree, sudoMode, src, dest, made, f)
    {
      ghost var t := tree;
      ghost var b;
      Runs.CopiesNothing(t, sudoMode);
      code, made, b := Cp(src, dest);
      f, ops := map[], [];
      forall m | m in tree.at && m !in t.at
        ensures fresh(m)
      {
        CpNodes(t, sudoMode, src, dest, made, b, m);
      }
      if code == 0 {
        f := map[Resolve(t, src) := made];
        CpCopied(t, sudoMode, src, dest, made, b);
        ops := [Runs.Op.Cp(src, dest, made, b)];
        Runs.CopiesOne(t, sudoMode, ops[0]);
      }
    }

    /** The loop of cp_r, after it has made the new directory */
    method CopyChildren(ghost t: Tree, node: Node, src: string, to: string, newDir: Node, ghost bound: nat)
      returns (ghost f: map<Node, Node>, ghost ops: seq<Runs.Op>)
      requires Valid() && Sound(t) && Copyable(t, sudoMode, src, to, node) && IsDir(t, node) && Deepest(t, node, bound)
      requires newDir !in t.at && tree == Create(t, sudoMode, to, true, newDir)
      modifies this`tree, tree.at.Keys
      ensures Valid() && sudoMode == old(sudoMode) && Runs.Copies(old(tree), sudoMode, ops, tree)
      ensures forall m :: m in tree.at && m !in old(tree).at ==> fresh(m)
      ensures Added(t, tree, Place(t, sudoMode, to), newDir) && IsCopy(t, tree, node, newDir, f)
      ensures NameOf(tree, newDir) == BaseName(to)
      decreases bound - Depth(t, node), 0
    {
      ghost var ks, i := Kids(t, node), 0;
      StartProgress(t, sudoMode, src, to, node, newDir);
      f, ops := map[node := newDir], [];
      Runs.CopiesNothing(tree, sudoMode);
      var child := FirstSource(t, node, src, to, newDir, f);
      while child != null
        invariant 0 <= i <= |ks| && child == At(ks, i)
        invariant Valid() && Runs.Copies(old(tree), sudoMode, ops, tree)
        invariant forall m :: m in tree.at && m !in old(tree).at ==> fresh(m)
        invariant Progressing(t, tree, sudoMode, src, to, node, newDir, f, i)
        decreases |ks| - i
      {
        child, f, ops := CopyNext(old(tree), ops, t, node, src, to, newDir, f, i, child, bound);
        i := i + 1;
      }
      ProgressEnds(t, tree, sudoMode, src, to, node, newDir, f, i);
    }

    method CopyNext(ghost t0: Tree, ghost before: seq<Runs.Op>, ghost t: Tree, node: Node, src: string, to: string,
                    ghost newDir: Node, ghost f: map<Node, Node>, ghost i: nat, child: Node, ghost bound: nat)
      returns (next: Node?, ghost h: map<Node, Node>, ghost ops: seq<Runs.Op>)
      requires Valid() && node in t.at && i < |t.at[node].kids| && child == t.at[node].kids[i]
      requires Deepest(t, node, bound)
      requires Progressing(t, tree, sudoMode, src, to, node, newDir, f, i)
      requires Runs.Copies(t0, sudoMode, before, tree)
      modifies this`tree, tree.at.Keys
      ensures Valid() && sudoMode == old(sudoMode) && Runs.Copies(t0, sudoMode, ops, tree)
      ensures forall m :: m in tree.at && m !in old(tree).at ==> fresh(m)
      ensures Progressing(t, tree, sudoMode, src, to, node, newDir, h, i + 1) && next == At(Kids(t, node), i + 1)
      decreases bound - Depth(t, node) - 1, 4
    {
      ghost var u := tree;
      ghost var x, g;
      x, g, ops := CopyChild(t, node, src, to, newDir, f, i, child, bound);
      Runs.CopiesThen(t0, sudoMode, before, u, ops, tree);
      ops := before + ops;
      NextProgress(t, u, tree, sudoMode, src, to, node, newDir, f, i, child, x, g);
      h := f + g;
      next := NextSource(t, node, src, to, newDir, h, child, i);
    }

    /** The source chain is not changed by the copy. */
    method FirstSource(ghost t: Tree, node: Node, ghost src: string, ghost to: string, ghost newDir: Node,
                       ghost f: map<Node, Node>) returns (child: Node?)
      requires Valid() && node in t.at && Progressing(t, tree, sudoMode, src, to, node, newDir, f, 0)
      ensures child == At(Kids(t, node), 0)
    {
      assert AddedAt(t, tree, Place(t, sudoMode, to), newDir, node) && Matches(tree.at, node);
      child := node.firstChild;
    }

    method NextSource(ghost t: Tree, node: Node, ghost src: string, ghost to: string, ghost newDir: Node,
                      ghost f: map<Node, Node>, child: Node, ghost i: nat) returns (next: Node?)
      requires Valid() && node in t.at && i < |t.at[node].kids| && child == t.at[node].kids[i]
      requires Progressing(t, tree, sudoMode, src, to, node, newDir, f, i + 1)
      ensures next == At(Kids(t, node), i + 1)
    {
      assert AddedAt(t, tree, Place(t, sudoMode, to), newDir, node) && Linked(tree, node);
      assert ChildOf(tree, child, node) && OwnedAt(tree, child);
      next := NextSibling(node, child, i);
    }

    /** One child, by the paths that cp_r builds for it */
    method CopyChild(ghost t: Tree, ghost node: Node, src: string, to: string, ghost newDir: Node,
                     ghost f: map<Node, Node>, ghost i: nat, child: Node, ghost bound: nat)
      returns (ghost x: Node, ghost g: map<Node, Node>, ghost ops: seq<Runs.Op>)
      requires Valid() && node in t.at && i < |t.at[node].kids| && child == t.at[node].kids[i]
      requires Deepest(t, node, bound)
      requires Progressing(t, tree, sudoMode, src, to, node, newDir, f, i)
      modifies this`tree, tree.at.Keys
      ensures Valid() && sudoMode == old(sudoMode) && Runs.Copies(old(tree), sudoMode, ops, tree)
      ensures forall m :: m in tree.at && m !in old(tree).at ==> fresh(m)
      ensures Copied(old(tree), tree, sudoMode, src + "/" + NameOf(t, child), to + "/" + NameOf(t, child), x, g)
      decreases bound - Depth(t, node) - 1, 3
    {
      ChildCopyable(t, tree, sudoMode, src, to, node, newDir, f, i);
      ChildDeepest(t, tree, Place(t, sudoMode, to), newDir, node, child, bound);
      assert Matches(tree.at, child);
      var srcPath := src + "/" + child.name;
      var destPath := to + "/" + child.name;
      var code;
      if child.isDir {
        code, x, g, ops := CopyTree(srcPath, destPath, bound);
      } else {
        code, x, g, ops := CopyFile(srcPath, destPath);
      }
    }
  }

  /** From pos on, the buffer holds the text and a NUL. */
  predicate HoldsText(buffer: string, pos: int, text: string) {
    0 <= pos && pos + |text| < |buffer| && buffer[pos..pos + |text|] == text && buffer[pos + |text|] == '\0'
  }

  lemma SetDataFits(t: Tree, n: Node, b: Buffer, m: Node, r: Record)
    requires n in t.at && m in t.at && Fits(t.at, m, r)
    ensures Fits(SetData(t, n, b).at, m, if m == n then r.(data := b, dataSize := |b.text|) else r)
  {
  }

  /** The fields of m after node n has become the first child of p, in front of `head` */
  function Moved(r: Record, m: Node, n: Node, p: Node, name: string, head: Node?): Record {
    var r1 := if m == n then r.(name := name, parent := p, nextSibling := head) else r;
    if m == p then r1.(firstChild := n) else r1
  }

  lemma MoveNext(t: Tree, n: Node, p: Node, name: string, m: Node, stale: Node?)
    requires IsTree(t) && n in t.at && n != t.root && p in t.at && m in t.at && Up(t, n) in t.at
    ensures var d := Detach(t, n);
            Next(MoveTo(t, n, p, name).at, m, stale) == if m == n then At(Kids(d, p), 0) else Next(d.at, m, stale)
  {
    if m == n {
      MovedNext(t, n, p, name, stale);
    } else {
      OtherNext(t, n, p, name, m, stale);
    }
  }

  lemma MovedNext(t: Tree, n: Node, p: Node, name: string, stale: Node?)
    requires IsTree(t) && n in t.at && n != t.root && p in t.at && Up(t, n) in t.at
    ensures Next(MoveTo(t, n, p, name).at, n, stale) == At(Kids(Detach(t, n), p), 0)
  {
    var d, u := Detach(t, n), MoveTo(t, n, p, name);
    assert u.at[n].up == p && u.at[p].kids == [n] + d.at[p].kids;
    assert ([n] + d.at[p].kids)[0] == n;
  }

  lemma OtherNext(t: Tree, n: Node, p: Node, name: string, m: Node, stale: Node?)
    requires IsTree(t) && n in t.at && n != t.root && p in t.at && m in t.at && Up(t, n) in t.at && m != n
    ensures Next(MoveTo(t, n, p, name).at, m, stale) == Next(Detach(t, n).at, m, stale)
  {
    var d, u := Detach(t, n), MoveTo(t, n, p, name);
    assert Linked(t, m);
    var q := t.at[m].up;
    assert u.at[m].up == q && d.at[m].up == q;
    if q == p {
      assert u.at[q].kids == [n] + d.at[q].kids;
      AfterFirst(d.at[q].kids, n, m);
    }
  }

  lemma AfterFirst(ks: seq<Node>, n: Node, m: Node)
    requires m != n
    ensures After([n] + ks, m) == After(ks, m) && (m in [n] + ks <==> m in ks)
  {
    assert ([n] + ks)[1..] == ks;
  }

  lemma MoveFits(t: Tree, n: Node, p: Node, name: string, m: Node, r: Record)
    requires IsTree(t) && n in t.at && n != t.root && p in t.at && m in t.at && Up(t, n) in t.at
    requires Fits(Detach(t, n).at, m, r)
    ensures Fits(MoveTo(t, n, p, name).at, m, Moved(r, m, n, p, name, At(Kids(Detach(t, n), p), 0)))
  {
    MoveNext(t, n, p, name, m, r.nextSibling);
    MoveNext(t, n, p, name, m, At(Kids(Detach(t, n), p), 0));
  }

  /** What rm_recursive needs of the detached subtree, and what it frees there */
  lemma RemovalReady(t: Tree, sudo: bool, n: Node)
    requires Sound(t) && n in t.at && n != t.root && Up(t, n) in t.at && MayChange(t, sudo, n)
    ensures var d := Detach(t, n);
            && Loose(d, n) && Owned(d) && Inside(d, n, n) && Uniform(d, sudo, n)
            && Freed(d, sudo, n) <= d.nodes && BuffersOf(d, Freed(d, sudo, n) - {n}) <= d.buffers
            && Unlink(t, n).(nodes := d.nodes - Freed(d, sudo, n),
                             buffers := d.buffers - BuffersOf(d, Freed(d, sudo, n) - {n})) ==
               Removed(t, sudo, n)
  {
    var d := Detach(t, n);
    DetachIsLoose(t, n);
    DetachUniform(t, sudo, n);
    OwnedStill(t, d);
    forall m
      ensures Inside(d, m, n) == Inside(t, m, n)
    {
      DetachInside(t, n, m, n);
    }
    assert Subtree(d, n) == Subtree(t, n);
    forall m | m in Subtree(t, n)
      ensures m in t.nodes
    {
      assert OwnedAt(t, m);
    }
    assert BuffersOf(d, Subtree(t, n) - {n}) == BuffersOf(t, Subtree(t, n) - {n});
    assert BuffersOf(d, {}) == {};
  }

  /** Tree `now` after the memory of the nodes in `gone` of t has been freed */
  ghost function Less(now: Tree, t: Tree, gone: set<Node>): Tree {
    now.(nodes := now.nodes - gone, buffers := now.buffers - BuffersOf(t, gone))
  }

  lemma LessTwice(now: Tree, t: Tree, a: set<Node>, b: set<Node>)
    requires BuffersOf(t, a + b) == BuffersOf(t, a) + BuffersOf(t, b)
    ensures Less(Less(now, t, a), t, b) == Less(now, t, a + b)
  {
    assert now.nodes - a - b == now.nodes - (a + b);
  }

  /** All of the subtree of k is still allocated in tree `now`, and it can be freed node by node. */
  ghost predicate Freeable(t: Tree, now: Tree, top: Node, sudo: bool, k: Node)
    requires k in t.at
  {
    match now
    case Tree(_, _, _, nodes, buffers) =>
      && Inside(t, k, top) && Uniform(t, sudo, k)
      && Subtree(t, k) <= nodes && BuffersOf(t, Subtree(t, k)) <= buffers
      && (t.at[k].dir ==> BuffersOf(t, Subtree(t, k) - {k}) == BuffersOf(t, Subtree(t, k)))
      && (!t.at[k].dir ==> Subtree(t, k) == {k}
                           && BuffersOf(t, {k}) == if t.at[k].data == null then {} else {t.at[k].data})
  }

  /** The next child of a node belongs to the same removal. */
  lemma NextChild(t: Tree, top: Node, sudo: bool, n: Node, i: nat)
    requires Loose(t, top) && n in t.at && Inside(t, n, top) && Uniform(t, sudo, n) && i < |Kids(t, n)|
    ensures var k := Kids(t, n)[i];
            && ChildOf(t, k, n) && k in t.at[n].kids && Depth(t, k) == Depth(t, n) + 1
            && Inside(t, k, top) && MayChange(t, sudo, k) == MayChange(t, sudo, n) && Uniform(t, sudo, k)
  {
    var k := Kids(t, n)[i];
    assert LooseAt(t, top, n);
    ChildInside(t, top, n, k);
    InsideTrans(t, k, n, top);
    assert Inside(t, n, n) && Inside(t, k, n);
    forall m | m in t.at && Inside(t, m, k)
      ensures !sudo ==> (Protected(t, m) <==> Protected(t, k))
    {
      InsideTrans(t, m, k, n);
    }
  }

  /** The next child shares nothing with the children before it. */
  lemma NextApart(t: Tree, top: Node, n: Node, i: nat)
    requires Loose(t, top) && Owned(t) && n in t.at && i < |Kids(t, n)|
    ensures var k, before := Kids(t, n)[i], Subtrees(t, Kids(t, n), i);
            && Subtree(t, k) !! before && BuffersOf(t, Subtree(t, k)) !! BuffersOf(t, before)
            && BuffersOf(t, before + Subtree(t, k)) == BuffersOf(t, before) + BuffersOf(t, Subtree(t, k))
            && Subtree(t, k) <= Subtree(t, n) - {n}
            && BuffersOf(t, Subtree(t, k)) <= BuffersOf(t, Subtree(t, n) - {n})
  {
    var k, before := Kids(t, n)[i], Subtrees(t, Kids(t, n), i);
    ChildInside(t, top, n, k);
    SubtreesApart(t, top, n, i);
    BuffersApart(t, Subtree(t, k), before);
    forall m | m in Subtree(t, k)
      ensures m in Subtree(t, n) && m != n
    {
      InsideTrans(t, m, k, n);
      InsideDepth(t, m, k);
    }
  }

  /** Tree t0 after the subtrees of the first i nodes of a chain have been freed, one by one */
  ghost function Progress(t0: Tree, t: Tree, ks: seq<Node>, i: nat): (r: Tree)
    requires i <= |ks|
    ensures r.at == t0.at && r.root == t0.root
  {
    if i == 0 then t0 else Less(Progress(t0, t, ks, i - 1), t, Subtree(t, ks[i - 1]))
  }

  lemma {:induction false} ProgressIs(t: Tree, t0: Tree, top: Node, n: Node, i: nat)
    requires Loose(t, top) && Owned(t) && n in t.at && i <= |Kids(t, n)|
    ensures Progress(t0, t, Kids(t, n), i) == Less(t0, t, Subtrees(t, Kids(t, n), i))
  {
    if i > 0 {
      ProgressIs(t, t0, top, n, i - 1);
      NextApart(t, top, n, i - 1);
      LessTwice(t0, t, Subtrees(t, Kids(t, n), i - 1), Subtree(t, Kids(t, n)[i - 1]));
    }
  }

  lemma NextReadable(t: Tree, t0: Tree, top: Node, n: Node, i: nat)
    requires Loose(t, top) && Owned(t) && n in t.at && Inside(t, n, top) && i < |Kids(t, n)|
    requires Around(t, t0.nodes, top, n) && Subtree(t, n) <= t0.nodes
    ensures var k, live := Kids(t, n)[i], Progress(t0, t, Kids(t, n), i).nodes;
            k in live && Around(t, live, top, k)
  {
    var ks := Kids(t, n);
    ProgressIs(t, t0, top, n, i);
    AroundKept(t, t0.nodes, top, n, i);
    ChildLive(t, t0.nodes, top, n, i);
    AroundChild(t, t0.nodes - Subtrees(t, ks, i), top, n, ks[i]);
  }

  lemma AllFreed(t: Tree, t0: Tree, top: Node, n: Node)
    requires Loose(t, top) && Owned(t) && n in t.at && Inside(t, n, top) && Around(t, t0.nodes, top, n)
    ensures var r := Progress(t0, t, Kids(t, n), |Kids(t, n)|);
            r == Less(t0, t, Subtree(t, n) - {n}) && Around(t, r.nodes, top, n)
  {
    var i := |Kids(t, n)|;
    ProgressIs(t, t0, top, n, i);
    SubtreeSplit(t, top, n);
    AroundKept(t, t0.nodes, top, n, i);
  }

  lemma NextFreeable(t: Tree, t0: Tree, top: Node, sudo: bool, n: Node, i: nat)
    requires Loose(t, top) && Owned(t) && n in t.at && Inside(t, n, top) && Uniform(t, sudo, n) && i < |Kids(t, n)|
    requires Subtree(t, n) <= t0.nodes && BuffersOf(t, Subtree(t, n) - {n}) <= t0.buffers
    ensures var k := Kids(t, n)[i];
            k in t.at && Freeable(t, Progress(t0, t, Kids(t, n), i), top, sudo, k)
  {
    var k := Kids(t, n)[i];
    NextChild(t, top, sudo, n, i);
    NextApart(t, top, n, i);
    ProgressIs(t, t0, top, n, i);
    assert LooseAt(t, top, k) && OwnedAt(t, k);
    if !t.at[k].dir {
      forall m | m in Subtree(t, k)
        ensures m == k
      {
        LeafSubtree(t, top, k, m);
      }
      assert Inside(t, k, k);
    }
  }

  lemma LeafPruned(t: Tree, n: Node)
    requires Sound(t) && n in t.at && n != t.root && n != t.cur && t.at[n].kids == []
    ensures Sound(Prune(t, n)) && Prune(t, n).cur == t.cur
    ensures Prune(t, n) == Unlink(t, n).(nodes := t.nodes - {n},
                                         buffers := if t.at[n].data == null then t.buffers
                                                    else t.buffers - {t.at[n].data})
  {
    PruneKeeps(t, n);
    LeafGone(t, n);
  }

  /** What a node without children takes with it */
  lemma LeafGone(t: Tree, n: Node)
    requires IsTree(t) && n in t.at && t.at[n].kids == []
    ensures Subtree(t, n) == {n}
    ensures forall b :: b in BuffersOf(t, {n}) <==> b in t.buffers && t.at[n].data == b
    ensures t.cur != n ==> !Inside(t, t.cur, n)
  {
    TreeIsLoose(t, t.root);
    InsideRoot(t, n);
    forall m | m in t.at && Inside(t, m, n)
      ensures m == n
    {
      LeafSubtree(t, t.root, n, m);
    }
  }

  lemma WalkStep(t: Tree, n: Node, token: string, p: string)
    ensures p != "" && p[0] != '/' ==> Parts(token, p) == Parts(token + [p[0]], p[1..])
    ensures p == "" || p[0] == '/' ==>
              Walk(t, n, Parts(token, p)) ==
              (var next := if token == "" then n else Enter(t, n, token);
               if next == null then null else Walk(t, next, if p == "" then [] else Parts("", p[1..])))
  {
    var rest := if p == "" then [] else Parts("", p[1..]);
    if p == "" || p[0] == '/' {
      assert Parts(token, p) == Piece(token) + rest;
      if token == "" {
        assert Parts(token, p) == rest;
      } else {
        assert Parts(token, p)[0] == token && Parts(token, p)[1..] == rest;
      }
    }
  }

  function Alone(root: Node): Tree {
    Tree(map[root := Entry("/", true, null, root, [], 0)], root, root, {root}, {})
  }

  lemma AloneIsTree(root: Node)
    ensures IsTree(Alone(root)) && Owned(Alone(root)) && NoLeak(Alone(root))
  {
    assert Linked(Alone(root), root);
  }
}
