/** What every path means to resolve_path, part by part, and what pwd prints: laws in terms of links, names and
    other paths only. */
module PathLaws {
  import opened FileNode
  import opened Paths
  import opened FileTree
  import opened FileOps
  import opened Resolution

  // ---------- children ----------

  /** The child of a name is the first one that has it. */
  lemma {:induction false} FirstIs(t: Tree, ks: seq<Node>, name: string) returns (i: nat)
    requires FindIn(t, ks, name) != null
    ensures i < |ks| && ks[i] == FindIn(t, ks, name) && Named(t, ks[i], name)
    ensures forall j :: 0 <= j < i ==> !Named(t, ks[j], name)
  {
    if Named(t, ks[0], name) {
      i := 0;
    } else {
      var k := FirstIs(t, ks[1..], name);
      i := k + 1;
      assert forall j :: 0 < j < i ==> ks[j] == ks[1..][j - 1];
    }
  }

  // ---------- one more part ----------

  lemma PartsOne(part: string)
    requires SlashFree(part)
    ensures Components(part) == if part == "" then [] else [part]
  {
    PartsFree("", part);
    assert "" + part == part;
  }

  lemma ComponentsMore(p: string, part: string)
    requires SlashFree(part)
    ensures Components(p + "/" + part) == Components(p) + if part == "" then [] else [part]
  {
    PartsSlash("", p, part);
    PartsOne(part);
  }

  /** What one part does to a place */
  function Step(t: Tree, n: Node, part: string): Node? {
    if part == "" || part == "." then n
    else if part == ".." then Up(t, n)
    else FindChild(t, n, part)
  }

  lemma WalkStep(t: Tree, n: Node, parts: seq<string>, part: string)
    ensures Walk(t, n, parts + if part == "" then [] else [part]) ==
            (var p := Walk(t, n, parts); if p == null then null else Step(t, p, part))
  {
    var last := if part == "" then [] else [part];
    WalkAppend(t, n, parts, last);
    var p := Walk(t, n, parts);
    if p != null && part != "" {
      var next := Step(t, p, part);
      assert next != null ==> Walk(t, next, last[1..]) == next;
    }
  }

  /**
   * A path, a slash and a part: from where the path leads, ".." goes to the parent, "." and an empty part stay, and any
   * other part goes to the first child of that name.
   */
  lemma ResolvePart(t: Tree, front: string, part: string)
    requires front != "" && SlashFree(part)
    ensures Resolve(t, front + "/" + part) ==
            (var p := Resolve(t, front);
             if p == null then null
             else if part == ".." then Up(t, p)
             else if part == "." || part == "" then p
             else FindChild(t, p, part))
  {
    RestOfChild(front, part);
    ComponentsMore(Rest(front), part);
    WalkStep(t, Start(t, front), Components(Rest(front)), part);
  }

  /** A path without a slash starts at the working directory. */
  lemma ResolveFirst(t: Tree, part: string)
    requires SlashFree(part) && !Tilde(part)
    ensures Resolve(t, part) ==
            if part == ".." then Up(t, t.cur)
            else if part == "." || part == "" then t.cur
            else FindChild(t, t.cur, part)
  {
    PartsOne(part);
    WalkStep(t, t.cur, [], part);
    assert [] + (if part == "" then [] else [part]) == if part == "" then [] else [part];
  }

  /** A path whose only slash is the first character starts at the root. */
  lemma ResolveAbsolute(t: Tree, part: string)
    requires SlashFree(part)
    ensures Resolve(t, "/" + part) ==
            if part == ".." then Up(t, t.root)
            else if part == "." || part == "" then t.root
            else FindChild(t, t.root, part)
  {
    var path := "/" + part;
    assert path[1..] == part;
    PartsOne(part);
    WalkStep(t, t.root, [], part);
    assert [] + (if part == "" then [] else [part]) == if part == "" then [] else [part];
  }

  // ---------- the tilde ----------

  /** What follows a tilde at once is looked up where the tilde leads. */
  lemma ResolveTilde(t: Tree, part: string)
    requires SlashFree(part)
    ensures var home := Resolve(t, "~");
            && home != null
            && Resolve(t, "~" + part) ==
               if part == ".." then Up(t, home)
               else if part == "." || part == "" then home
               else FindChild(t, home, part)
  {
    var path := "~" + part;
    assert path[1..] == part && Rest("~") == "" && Components("") == [];
    PartsOne(part);
    WalkStep(t, Start(t, path), [], part);
    assert [] + (if part == "" then [] else [part]) == if part == "" then [] else [part];
  }

  /** /home/root is what the path says. */
  lemma HomeRootIs(t: Tree)
    ensures Resolve(t, "/home") == Home(t) && Resolve(t, "/home/root") == HomeRoot(t)
  {
    ResolveAbsolute(t, "home");
    assert "/home" == "/" + "home" && "/home/root" == "/home" + "/" + "root";
    ResolvePart(t, "/home", "root");
  }

  lemma RestOfTilde(rest: string)
    ensures Tilde("~/" + rest) && Rest("~/" + rest) == "/" + rest
    ensures Absolute("/home/root/" + rest) && Rest("/home/root/" + rest) == "home/root" + "/" + rest
  {
    var a, b := "~/" + rest, "/home/root/" + rest;
    assert a[1..] == "/" + rest;
    assert b[1..] == "home/root/" + rest;
    assert "home/root" + "/" + rest == "home/root/" + rest;
  }

  lemma TwoParts(a: string, b: string, rest: string)
    requires a != "" && b != "" && SlashFree(a) && SlashFree(b)
    ensures Components(a + "/" + b + "/" + rest) == [a, b] + Components(rest)
  {
    PartsSlash("", a + "/" + b, rest);
    ComponentsMore(a, b);
    PartsOne(a);
  }

  lemma HomeParts(rest: string)
    ensures Components("/" + rest) == Components(rest)
    ensures Components("home/root" + "/" + rest) == ["home", "root"] + Components(rest)
  {
    PartsSlash("", "", rest);
    assert "" + "/" + rest == "/" + rest;
    TwoParts("home", "root", rest);
    assert "home" + "/" + "root" == "home/root";
  }

  /** A leading tilde stands for /home/root, or for the root when there is no /home/root. */
  lemma TildeIs(t: Tree, rest: string)
    ensures HomeRoot(t) != null ==> Resolve(t, "~/" + rest) == Resolve(t, "/home/root/" + rest)
    ensures HomeRoot(t) == null ==> Resolve(t, "~/" + rest) == Resolve(t, "/" + rest)
    ensures Resolve(t, "~") == if HomeRoot(t) != null then HomeRoot(t) else t.root
  {
    RestOfTilde(rest);
    HomeParts(rest);
    assert Rest("~") == "" && Components("") == [];
    if HomeRoot(t) != null {
      WalkHome(t, Components(rest));
    } else {
      assert ("/" + rest)[1..] == rest;
    }
  }

  lemma WalkHome(t: Tree, parts: seq<string>)
    requires HomeRoot(t) != null
    ensures Walk(t, t.root, ["home", "root"] + parts) == Walk(t, HomeRoot(t), parts)
  {
    WalkAppend(t, t.root, ["home", "root"], parts);
    WalkStep(t, t.root, [], "home");
    assert [] + ["home"] == ["home"] && ["home"] + ["root"] == ["home", "root"];
    WalkStep(t, t.root, ["home"], "root");
  }

  // ---------- who is inside ----------

  /** The k-th ancestor */
  function Ancestor(t: Tree, n: Node, k: nat): Node {
    if k == 0 then n else Ancestor(t, Up(t, n), k - 1)
  }

  predicate Climbs(t: Tree, n: Node, k: nat, a: Node) {
    k <= Depth(t, n) && Ancestor(t, n, k) == a
  }

  /** In a tree, a node is inside another exactly if following the parents leads there. */
  lemma {:induction false} InsideIs(t: Tree, m: Node, a: Node)
    requires IsTree(t) && m in t.at
    ensures Inside(t, m, a) <==> exists k: nat :: Climbs(t, m, k, a)
    decreases Depth(t, m)
  {
    assert Linked(t, m);
    if m == a {
      assert Climbs(t, m, 0, a);
    } else if m != t.root {
      InsideIs(t, Up(t, m), a);
      if Inside(t, Up(t, m), a) {
        var k: nat :| Climbs(t, Up(t, m), k, a);
        assert Climbs(t, m, k + 1, a);
      }
      if k: nat :| Climbs(t, m, k, a) {
        assert Climbs(t, Up(t, m), k - 1, a);
      }
    } else {
      RootAncestors(t);
    }
  }

  lemma RootAncestors(t: Tree)
    requires IsTree(t)
    ensures forall k: nat :: Ancestor(t, t.root, k) == t.root
  {
    forall k: nat
      ensures Ancestor(t, t.root, k) == t.root
    {
      RootAncestor(t, k);
    }
  }

  lemma {:induction false} RootAncestor(t: Tree, k: nat)
    requires IsTree(t)
    ensures Ancestor(t, t.root, k) == t.root
    decreases k
  {
    assert Linked(t, t.root);
    if k > 0 {
      RootAncestor(t, k - 1);
    }
  }

  // ---------- cd and pwd ----------

  /** A successful cd goes where its path leads, and changes nothing else. */
  lemma CdIs(t: Tree, path: string)
    requires CdCode(t, path) == 0
    ensures var u := Cd(t, path);
            && Resolve(u, ".") == Resolve(t, path)
            && u.at == t.at && u.root == t.root && u.nodes == t.nodes && u.buffers == t.buffers
  {
    ResolveFirst(Cd(t, path), ".");
  }

  /** From every directory, `cd ..` succeeds.  pwd prints a slash in the root, and in any other directory what it prints
      after `cd ..`, with a slash unless that is one, and the name. */
  lemma PwdIs(t: Tree)
    requires IsTree(t)
    ensures CdCode(t, "..") == 0
    ensures t.cur == t.root ==> Pwd(t) == "/"
    ensures t.cur != t.root ==>
              var up := Pwd(Cd(t, ".."));
              Pwd(t) == (if Resolve(t, "..") == t.root then "" else up) + "/" + NameOf(t, t.cur)
  {
    ResolveFirst(t, "..");
    var p := Up(t, t.cur);
    assert Linked(t, t.cur) && Linked(t, p);
    if t.cur != t.root {
      PathOfShape(t, t.cur);
      SamePathOf(t, Cd(t, ".."), p);
      if p == t.root {
        assert PathOf(t, p) == "";
      }
    }
  }

  lemma {:induction false} SamePathOf(t: Tree, u: Tree, n: Node)
    requires u.at == t.at && u.root == t.root
    ensures PathOf(u, n) == PathOf(t, n)
    decreases Depth(t, n)
  {
    if n != t.root && Depth(t, Up(t, n)) < Depth(t, n) {
      SamePathOf(t, u, Up(t, n));
    }
  }
}
