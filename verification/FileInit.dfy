/** init_filesystem: the state from which every run starts. */
module FileInit {
  import opened FileNode
  import opened Paths
  import opened FileTree
  import opened TreeOps
  import opened FileOps
  import opened Resolution
  import opened Vfs

  // ---------- names of a chain ----------

  function Names(t: Tree, ks: seq<Node>): seq<string> {
    if ks == [] then [] else Names(t, ks[..|ks| - 1]) + [NameOf(t, ks[|ks| - 1])]
  }

  function ChildNames(t: Tree, n: Node): seq<string> {
    Names(t, Kids(t, n))
  }

  lemma {:induction false} SameNames(t: Tree, u: Tree, ks: seq<Node>)
    requires forall k :: k in ks ==> NameOf(u, k) == NameOf(t, k)
    ensures Names(u, ks) == Names(t, ks)
  {
    if ks != [] {
      SameNames(t, u, ks[..|ks| - 1]);
    }
  }

  lemma AppendNames(t: Tree, p: Node, n: Node, name: string, dir: bool, q: Node)
    requires IsTree(t) && q in t.at && p in t.at && n !in t.at
    ensures ChildNames(Append(t, p, n, name, dir), q) == if q == p then ChildNames(t, q) + [name] else ChildNames(t, q)
  {
    var u := Append(t, p, n, name, dir);
    assert Linked(t, q);
    forall k | k in t.at[q].kids
      ensures NameOf(u, k) == NameOf(t, k)
    {
      assert ChildOf(t, k, q);
    }
    SameNames(t, u, t.at[q].kids);
    if q == p {
      assert u.at[q].kids[..|t.at[q].kids|] == t.at[q].kids;
    }
  }

  // ---------- what is where ----------

  datatype Contents = Nothing | Directory(names: seq<string>) | File(text: string)

  function ContentsOf(t: Tree, n: Node?): Contents {
    if n == null || n !in t.at then Nothing
    else if IsDir(t, n) then Directory(ChildNames(t, n))
    else File(if DataOf(t, n) == null then "" else DataOf(t, n).text)
  }

  /** The contents of /, /home, /etc, /home/root and /etc/hostname */
  datatype Listing = Listing(root: Contents, home: Contents, etc: Contents, homeRoot: Contents, hostname: Contents)

  function Etc(t: Tree): Node? {
    FindChild(t, t.root, "etc")
  }

  function Hostname(t: Tree): Node? {
    if Etc(t) == null then null else FindChild(t, Etc(t), "hostname")
  }

  function ListingOf(t: Tree): Listing {
    Listing(ContentsOf(t, t.root), ContentsOf(t, Home(t)), ContentsOf(t, Etc(t)), ContentsOf(t, HomeRoot(t)),
            ContentsOf(t, Hostname(t)))
  }

  // ---------- a new node ----------

  /** A node that was there has the contents it had, but for a new name in its chain. */
  lemma AppendContents(t: Tree, p: Node, n: Node, name: string, dir: bool, q: Node?)
    requires IsTree(t) && IsDir(t, p) && n !in t.at && q != n
    ensures ContentsOf(Append(t, p, n, name, dir), q) ==
            if q == p then Directory(ChildNames(t, p) + [name]) else ContentsOf(t, q)
  {
    if q != null && q in t.at {
      AppendNames(t, p, n, name, dir, q);
    }
  }

  lemma NewContents(t: Tree, p: Node, n: Node, name: string, dir: bool)
    requires p in t.at && n !in t.at
    ensures ContentsOf(Append(t, p, n, name, dir), n) == if dir then Directory([]) else File("")
  {
  }

  /** The nodes on the way, after a new one */
  lemma AppendFinds(t: Tree, p: Node, n: Node, name: string, dir: bool)
    requires IsTree(t) && p in t.at && n !in t.at
    ensures var u := Append(t, p, n, name, dir);
            && Home(u) == (if Home(t) == null && p == t.root && name == "home" then n else Home(t))
            && Etc(u) == (if Etc(t) == null && p == t.root && name == "etc" then n else Etc(t))
            && (Home(t) != null ==>
                  HomeRoot(u) == if HomeRoot(t) == null && p == Home(t) && name == "root" then n else HomeRoot(t))
            && (Home(t) == null ==> HomeRoot(u) == null)
            && (Etc(t) != null ==>
                  Hostname(u) == if Hostname(t) == null && p == Etc(t) && name == "hostname" then n else Hostname(t))
            && (Etc(t) == null ==> Hostname(u) == null)
  {
    var u := Append(t, p, n, name, dir);
    assert n != p ==> Kids(u, n) == [];
    CreatedChild(t, p, n, name, dir, t.root, "home");
    CreatedChild(t, p, n, name, dir, t.root, "etc");
    if Home(t) != null {
      FindChildInTree(t, t.root, "home");
      CreatedChild(t, p, n, name, dir, Home(t), "root");
    }
    if Etc(t) != null {
      FindChildInTree(t, t.root, "etc");
      CreatedChild(t, p, n, name, dir, Etc(t), "hostname");
    }
  }

  /** The nodes on the way are nodes of the tree, and different ones. */
  lemma OnTheWay(t: Tree)
    requires IsTree(t)
    ensures Home(t) != null ==> Home(t) in t.at && Home(t) != t.root && Home(t) != Etc(t)
    ensures Etc(t) != null ==> Etc(t) in t.at && Etc(t) != t.root
    ensures HomeRoot(t) != null ==> HomeRoot(t) in t.at && HomeRoot(t) != t.root && HomeRoot(t) != Home(t)
                                    && HomeRoot(t) != Etc(t)
    ensures Hostname(t) != null ==> Hostname(t) in t.at && Hostname(t) != t.root && Hostname(t) != Home(t)
                                    && Hostname(t) != Etc(t) && Hostname(t) != HomeRoot(t)
  {
    if Home(t) != null {
      FindChildInTree(t, t.root, "home");
    }
    if Etc(t) != null {
      FindChildInTree(t, t.root, "etc");
    }
    if HomeRoot(t) != null {
      FindChildInTree(t, Home(t), "root");
    }
    if Hostname(t) != null {
      FindChildInTree(t, Etc(t), "hostname");
    }
  }

  lemma OldContents(t: Tree, p: Node, n: Node, name: string, dir: bool)
    requires IsTree(t) && IsDir(t, p) && n !in t.at
    ensures var u := Append(t, p, n, name, dir);
            && (p != t.root ==> ContentsOf(u, t.root) == ContentsOf(t, t.root))
            && (p != Home(t) ==> ContentsOf(u, Home(t)) == ContentsOf(t, Home(t)))
            && (p != Etc(t) ==> ContentsOf(u, Etc(t)) == ContentsOf(t, Etc(t)))
            && (p != HomeRoot(t) ==> ContentsOf(u, HomeRoot(t)) == ContentsOf(t, HomeRoot(t)))
            && (p != Hostname(t) ==> ContentsOf(u, Hostname(t)) == ContentsOf(t, Hostname(t)))
            && ContentsOf(u, p) == Directory(ChildNames(t, p) + [name])
            && ContentsOf(u, n) == if dir then Directory([]) else File("")
  {
    OnTheWay(t);
    AppendContents(t, p, n, name, dir, t.root);
    AppendContents(t, p, n, name, dir, Home(t));
    AppendContents(t, p, n, name, dir, Etc(t));
    AppendContents(t, p, n, name, dir, HomeRoot(t));
    AppendContents(t, p, n, name, dir, Hostname(t));
    AppendContents(t, p, n, name, dir, p);
    NewContents(t, p, n, name, dir);
  }

  /** A directory in the root, which may be /home or /etc */
  lemma ListTop(t: Tree, l: Listing, n: Node, name: string)
    requires IsTree(t) && n !in t.at && ListingOf(t) == l && l.root.Directory?
    requires (name == "home" ==> l.home.Nothing?) && (name == "etc" ==> l.etc.Nothing?)
    ensures ListingOf(Append(t, t.root, n, name, true)) ==
            l.(root := Directory(l.root.names + [name]),
               home := if name == "home" then Directory([]) else l.home,
               etc := if name == "etc" then Directory([]) else l.etc)
  {
    OnTheWay(t);
    AppendFinds(t, t.root, n, name, true);
    OldContents(t, t.root, n, name, true);
  }

  /** /home/root, the first child of /home */
  lemma ListHomeRoot(t: Tree, l: Listing, n: Node)
    requires IsTree(t) && n !in t.at && ListingOf(t) == l && l.home.Directory? && l.homeRoot.Nothing?
    ensures ListingOf(Append(t, Home(t), n, "root", true)) ==
            l.(home := Directory(l.home.names + ["root"]), homeRoot := Directory([]))
  {
    OnTheWay(t);
    AppendFinds(t, Home(t), n, "root", true);
    OldContents(t, Home(t), n, "root", true);
  }

  /** /etc/hostname */
  lemma ListHostname(t: Tree, l: Listing, n: Node)
    requires IsTree(t) && n !in t.at && ListingOf(t) == l && l.etc.Directory? && l.hostname.Nothing?
    ensures ListingOf(Append(t, Etc(t), n, "hostname", false)) ==
            l.(etc := Directory(l.etc.names + ["hostname"]), hostname := File(""))
  {
    OnTheWay(t);
    AppendFinds(t, Etc(t), n, "hostname", false);
    OldContents(t, Etc(t), n, "hostname", false);
  }

  /** A file in /home/root */
  lemma ListHistory(t: Tree, l: Listing, n: Node, name: string)
    requires IsTree(t) && n !in t.at && ListingOf(t) == l && l.homeRoot.Directory?
    ensures ListingOf(Append(t, HomeRoot(t), n, name, false)) == l.(homeRoot := Directory(l.homeRoot.names + [name]))
  {
    OnTheWay(t);
    AppendFinds(t, HomeRoot(t), n, name, false);
    OldContents(t, HomeRoot(t), n, name, false);
  }

  // ---------- other changes ----------

  /** The same nodes, but for their data */
  predicate SameButData(t: Tree, u: Tree) {
    match t
    case Tree(at, root, _, _, _) =>
      u.root == root && u.at.Keys == at.Keys && forall m :: m in at ==> u.at[m].(data := null) == at[m].(data := null)
  }

  lemma SameChildren(t: Tree, u: Tree, d: Node, name: string)
    requires SameButData(t, u)
    ensures FindChild(u, d, name) == FindChild(t, d, name) && ChildNames(u, d) == ChildNames(t, d)
    ensures IsDir(u, d) == IsDir(t, d)
  {
    if d in t.at {
      assert u.at[d].(data := null) == t.at[d].(data := null);
    }
    forall k | k in Kids(t, d)
      ensures Named(u, k, name) == Named(t, k, name) && NameOf(u, k) == NameOf(t, k)
    {
      if k in t.at {
        assert u.at[k].(data := null) == t.at[k].(data := null);
      }
    }
    FindInSame(t, u, Kids(t, d), name);
    SameNames(t, u, Kids(t, d));
  }

  lemma SameFinds(t: Tree, u: Tree)
    requires SameButData(t, u)
    ensures Home(u) == Home(t) && Etc(u) == Etc(t) && HomeRoot(u) == HomeRoot(t) && Hostname(u) == Hostname(t)
  {
    SameChildren(t, u, t.root, "home");
    SameChildren(t, u, t.root, "etc");
    if Home(t) != null {
      SameChildren(t, u, Home(t), "root");
    }
    if Etc(t) != null {
      SameChildren(t, u, Etc(t), "hostname");
    }
  }

  lemma SameContents(t: Tree, u: Tree, q: Node?)
    requires SameButData(t, u) && (q != null ==> DataOf(u, q) == DataOf(t, q))
    ensures ContentsOf(u, q) == ContentsOf(t, q)
  {
    if q != null {
      SameChildren(t, u, q, "");
    }
  }

  /** Another working directory changes nothing. */
  lemma ListSame(t: Tree, u: Tree)
    requires u.at == t.at && u.root == t.root
    ensures ListingOf(u) == ListingOf(t)
  {
    SameFinds(t, u);
    SameContents(t, u, t.root);
    SameContents(t, u, Home(t));
    SameContents(t, u, Etc(t));
    SameContents(t, u, HomeRoot(t));
    SameContents(t, u, Hostname(t));
  }

  lemma OneData(t: Tree, n: Node, b: Buffer)
    requires n in t.at && !IsDir(t, n)
    ensures var u := SetData(t, n, b);
            && SameButData(t, u) && ContentsOf(u, n) == File(b.text)
            && forall m :: m != n ==> DataOf(u, m) == DataOf(t, m)
  {
  }

  lemma ListData(t: Tree, l: Listing, b: Buffer)
    requires IsTree(t) && ListingOf(t) == l && l.hostname.File?
    ensures ListingOf(SetData(t, Hostname(t), b)) == l.(hostname := File(b.text))
  {
    var n := Hostname(t);
    var u := SetData(t, n, b);
    OnTheWay(t);
    OneData(t, n, b);
    SameFinds(t, u);
    SameContents(t, u, t.root);
    SameContents(t, u, Home(t));
    SameContents(t, u, Etc(t));
    SameContents(t, u, HomeRoot(t));
  }

  // ---------- the steps ----------

  /** vfs_mkdir or vfs_touch of a plain name in the working directory, with sudo on */
  method Make(fs: FileSystem, name: string, isDir: bool) returns (ghost n: Node)
    requires fs.Valid() && NoLeak(fs.tree) && fs.sudoMode && Plain(name) && !Tilde(name)
    modifies fs`tree, fs.tree.at.Keys
    ensures fs.Valid() && NoLeak(fs.tree) && fs.sudoMode && n !in old(fs.tree).at
    ensures fs.tree == Append(old(fs.tree), old(fs.tree).cur, n, name, isDir)
    ensures forall m :: m in fs.tree.at && m !in old(fs.tree).at ==> fresh(m)
  {
    ghost var t := fs.tree;
    LastSlashIs(name, -1);
    assert IsDir(t, t.cur);
    var node := fs.CreateNode(name, isDir);
    n := node;
    CreateKeeps(t, true, name, isDir, node);
    FreshOutside(t, node);
  }

  datatype Shown = Broken | Lists(l: Listing)

  /** What is where in a file system that is in order, without leaks, and with sudo on */
  ghost function Show(fs: FileSystem): Shown
    reads fs, fs.tree.at.Keys
  {
    if fs.Valid() && NoLeak(fs.tree) && fs.sudoMode then Lists(ListingOf(fs.tree)) else Broken
  }

  /** What there is when the root has directories of these names, with /home and /etc empty */
  function TopListing(names: seq<string>): Listing {
    Listing(Directory(names), if "home" in names then Directory([]) else Nothing,
            if "etc" in names then Directory([]) else Nothing, Nothing, Nothing)
  }

  lemma TopNext(names: seq<string>, name: string)
    requires name !in names
    ensures var l := TopListing(names);
            TopListing(names + [name]) == l.(root := Directory(l.root.names + [name]),
                                             home := if name == "home" then Directory([]) else l.home,
                                             etc := if name == "etc" then Directory([]) else l.etc)
  {
  }

  method MakeTop(fs: FileSystem, name: string, ghost names: seq<string>, ghost next: seq<string>)
    requires fs.tree.cur == fs.tree.root && Show(fs) == Lists(TopListing(names)) && next == names + [name]
    requires Plain(name) && !Tilde(name) && name !in names
    modifies fs`tree, fs.tree.at.Keys
    ensures fs.tree.cur == fs.tree.root
    ensures Show(fs) == Lists(TopListing(next))
    ensures forall m :: m in fs.tree.at && m !in old(fs.tree).at ==> fresh(m)
  {
    ghost var t := fs.tree;
    var n := Make(fs, name, true);
    ListTop(t, TopListing(names), n, name);
    TopNext(names, name);
  }

  function TopNames(): seq<string> {
    ["home", "etc", "tmp", "bin", "var"]
  }

  lemma TopSlices(tops: seq<string>)
    requires tops == TopNames()
    ensures tops[..1] == [] + ["home"] && tops[..2] == tops[..1] + ["etc"] && tops[..3] == tops[..2] + ["tmp"]
    ensures tops[..4] == tops[..3] + ["bin"] && tops == tops[..4] + ["var"]
    ensures "etc" !in tops[..1] && "tmp" !in tops[..2] && "bin" !in tops[..3] && "var" !in tops[..4]
  {
  }

  lemma PlainTops()
    ensures Plain("home") && Plain("etc") && Plain("tmp") && Plain("bin") && Plain("var")
    ensures !Tilde("home") && !Tilde("etc") && !Tilde("tmp") && !Tilde("bin") && !Tilde("var")
  {
  }

  method MakeTwo(fs: FileSystem, a: string, b: string, ghost names: seq<string>, ghost next: seq<string>,
                 ghost last: seq<string>)
    requires fs.tree.cur == fs.tree.root && Show(fs) == Lists(TopListing(names))
    requires next == names + [a] && last == next + [b]
    requires Plain(a) && !Tilde(a) && a !in names && Plain(b) && !Tilde(b) && b !in next
    modifies fs`tree, fs.tree.at.Keys
    ensures fs.tree.cur == fs.tree.root
    ensures Show(fs) == Lists(TopListing(last))
    ensures forall m :: m in fs.tree.at && m !in old(fs.tree).at ==> fresh(m)
  {
    MakeTop(fs, a, names, next);
    MakeTop(fs, b, next, last);
  }

  method MakeThree(fs: FileSystem, a: string, b: string, c: string, ghost names: seq<string>, ghost next: seq<string>,
                   ghost more: seq<string>, ghost last: seq<string>)
    requires fs.tree.cur == fs.tree.root && Show(fs) == Lists(TopListing(names))
    requires next == names + [a] && more == next + [b] && last == more + [c]
    requires Plain(a) && !Tilde(a) && a !in names && Plain(b) && !Tilde(b) && b !in next
    requires Plain(c) && !Tilde(c) && c !in more
    modifies fs`tree, fs.tree.at.Keys
    ensures fs.tree.cur == fs.tree.root
    ensures Show(fs) == Lists(TopListing(last))
    ensures forall m :: m in fs.tree.at && m !in old(fs.tree).at ==> fresh(m)
  {
    MakeTop(fs, a, names, next);
    MakeTwo(fs, b, c, next, more, last);
  }

  /** The five calls of vfs_mkdir in the root */
  method MakeTopDirectories(fs: FileSystem, ghost tops: seq<string>)
    requires Show(fs) == Lists(TopListing([]))
    requires fs.tree.cur == fs.tree.root && tops == TopNames()
    modifies fs`tree, fs.tree.at.Keys
    ensures fs.tree.cur == fs.tree.root
    ensures Show(fs) == Lists(TopListing(tops))
    ensures forall m :: m in fs.tree.at && m !in old(fs.tree).at ==> fresh(m)
  {
    TopSlices(tops);
    PlainTops();
    MakeTwo(fs, "home", "etc", [], tops[..1], tops[..2]);
    MakeThree(fs, "tmp", "bin", "var", tops[..2], tops[..3], tops[..4], tops);
  }

  /** vfs_cd of a path that leads to the directory d */
  method Enter(fs: FileSystem, path: string, ghost d: Node)
    requires fs.Valid() && NoLeak(fs.tree) && Resolvable(fs.tree, path)
    requires Resolve(fs.tree, path) == d && IsDir(fs.tree, d)
    modifies fs`tree, fs`currentDir
    ensures fs.Valid() && NoLeak(fs.tree) && fs.tree == old(fs.tree).(cur := d)
    ensures ListingOf(fs.tree) == old(ListingOf(fs.tree)) && fs.sudoMode == old(fs.sudoMode)
    ensures Home(fs.tree) == old(Home(fs.tree)) && Etc(fs.tree) == old(Etc(fs.tree))
    ensures HomeRoot(fs.tree) == old(HomeRoot(fs.tree)) && Hostname(fs.tree) == old(Hostname(fs.tree))
  {
    ghost var t := fs.tree;
    CdKeeps(t, path);
    var code := fs.Cd(path);
    ListSame(t, fs.tree);
    SameFinds(t, fs.tree);
  }

  lemma PlainNames()
    ensures Plain("root") && !Tilde("root") && Plain("home") && !Tilde("home")
    ensures Plain("hostname") && !Tilde("hostname")
    ensures Plain(".ksh_history") && !Tilde(".ksh_history")
  {
    assert |"hostname"| == 8 && |".ksh_history"| == 12;
  }

  lemma HomePath(t: Tree)
    requires Home(t) != null && t.cur == t.root
    ensures Resolve(t, "home") == Home(t) && Resolvable(t, "home")
  {
    PlainNames();
    ResolveName(t, "home");
  }

  lemma EtcPath(t: Tree)
    requires Etc(t) != null
    ensures Resolve(t, "/etc") == Etc(t) && Resolvable(t, "/etc")
  {
    assert "/" + "etc" == "/etc";
    ResolveRootName(t, "etc");
  }

  lemma TildePath(t: Tree)
    requires HomeRoot(t) != null
    ensures Resolve(t, "~") == HomeRoot(t) && Resolvable(t, "~")
  {
    assert Rest("~") == "" && Components("") == [];
  }

  /** vfs_cd("home") and vfs_mkdir("root") */
  method MakeHomeRoot(fs: FileSystem, ghost l: Listing)
    requires Show(fs) == Lists(l) && fs.tree.cur == fs.tree.root
    requires l.home.Directory? && l.homeRoot.Nothing?
    modifies fs`tree, fs`currentDir, fs.tree.at.Keys
    ensures Show(fs) == Lists(l.(home := Directory(l.home.names + ["root"]), homeRoot := Directory([])))
    ensures forall m :: m in fs.tree.at && m !in old(fs.tree).at ==> fresh(m)
  {
    HomePath(fs.tree);
    Enter(fs, "home", Home(fs.tree));
    ghost var t := fs.tree;
    PlainNames();
    var n := Make(fs, "root", true);
    ListHomeRoot(t, l, n);
  }

  /** vfs_cd("/etc") and vfs_touch("hostname") */
  method TouchHostname(fs: FileSystem, ghost l: Listing)
    requires Show(fs) == Lists(l)
    requires l.etc.Directory? && l.hostname.Nothing?
    modifies fs`tree, fs`currentDir, fs.tree.at.Keys
    ensures fs.tree.cur == Etc(fs.tree)
    ensures Show(fs) == Lists(l.(etc := Directory(l.etc.names + ["hostname"]), hostname := File("")))
    ensures forall m :: m in fs.tree.at && m !in old(fs.tree).at ==> fresh(m)
  {
    EtcPath(fs.tree);
    Enter(fs, "/etc", Etc(fs.tree));
    ghost var t := fs.tree;
    PlainNames();
    var n := Make(fs, "hostname", false);
    ListHostname(t, l, n);
    AppendFinds(t, Etc(t), n, "hostname", false);
  }

  /** vfs_write to a file in the working directory, with sudo on */
  method Put(fs: FileSystem, name: string, text: string, ghost n: Node) returns (ghost b: Buffer)
    requires fs.Valid() && NoLeak(fs.tree) && fs.sudoMode && Plain(name) && !Tilde(name)
    requires FindChild(fs.tree, fs.tree.cur, name) == n && n in fs.tree.at && !IsDir(fs.tree, n)
    modifies fs`tree, fs.tree.at.Keys
    ensures fs.Valid() && NoLeak(fs.tree) && fs.sudoMode && fs.tree == SetData(old(fs.tree), n, b) && b.text == text
  {
    ghost var t := fs.tree;
    ResolveName(t, name);
    ghost var m, data;
    var code;
    code, m, data := fs.Write(name, text, false);
    WriteKeeps(t, true, name, m, data);
    b := data;
  }

  /** vfs_write of the host name */
  method WriteHostname(fs: FileSystem, name: string, text: string, ghost l: Listing)
    requires Show(fs) == Lists(l) && l.hostname.File?
    requires Plain(name) && !Tilde(name) && FindChild(fs.tree, fs.tree.cur, name) == Hostname(fs.tree)
    modifies fs`tree, fs.tree.at.Keys
    ensures Show(fs) == Lists(l.(hostname := File(text)))
    ensures fs.tree.at.Keys == old(fs.tree).at.Keys
  {
    ghost var t := fs.tree;
    ghost var n := Hostname(t);
    assert n != null && n in t.at && !IsDir(t, n) by {
      OnTheWay(t);
    }
    ghost var b := Put(fs, name, text, n);
    ListData(t, l, b);
  }

  function WithHostname(l: Listing, text: string): Listing
    requires l.etc.Directory?
  {
    l.(etc := Directory(l.etc.names + ["hostname"]), hostname := File(text))
  }

  function WithHistory(l: Listing): Listing
    requires l.homeRoot.Directory?
  {
    l.(homeRoot := Directory(l.homeRoot.names + [".ksh_history"]))
  }

  /** vfs_cd("~") and vfs_touch(".ksh_history") */
  method TouchHistory(fs: FileSystem, ghost l: Listing)
    requires Show(fs) == Lists(l) && l.homeRoot.Directory?
    modifies fs`tree, fs`currentDir, fs.tree.at.Keys
    ensures fs.tree.cur == HomeRoot(fs.tree)
    ensures Show(fs) == Lists(WithHistory(l))
  {
    TildePath(fs.tree);
    Enter(fs, "~", HomeRoot(fs.tree));
    ghost var t := fs.tree;
    PlainNames();
    var n := Make(fs, ".ksh_history", false);
    ListHistory(t, l, n, ".ksh_history");
    OnTheWay(t);
    AppendFinds(t, HomeRoot(t), n, ".ksh_history", false);
  }

  method MakeRoot() returns (fs: FileSystem)
    ensures fresh(fs) && fs.Valid() && fs.sudoMode && NoLeak(fs.tree) && fs.tree.cur == fs.tree.root
    ensures Show(fs) == Lists(TopListing([])) && forall m :: m in fs.tree.at ==> fresh(m)
  {
    fs := new FileSystem();
    AloneListing(fs.root);
  }

  method MakeDirectories(fs: FileSystem, ghost tops: seq<string>)
    requires Show(fs) == Lists(TopListing([]))
    requires fs.tree.cur == fs.tree.root && tops == TopNames()
    modifies fs`tree, fs`currentDir, fs.tree.at.Keys
    ensures Show(fs) == Lists(StartListing())
    ensures forall m :: m in fs.tree.at && m !in old(fs.tree).at ==> fresh(m)
  {
    MakeTopDirectories(fs, tops);
    StartIs();
    MakeHomeRoot(fs, TopListing(tops));
  }

  lemma AloneListing(root: Node)
    ensures NoLeak(Alone(root)) && ListingOf(Alone(root)) == TopListing([])
  {
    AloneIsTree(root);
  }

  /** With the directories made */
  function StartListing(): Listing {
    Listing(Directory(TopNames()), Directory(["root"]), Directory([]), Directory([]), Nothing)
  }

  lemma StartIs()
    ensures var l := TopListing(TopNames());
            l.(home := Directory(l.home.names + ["root"]), homeRoot := Directory([])) == StartListing()
  {
    assert [] + ["root"] == ["root"];
  }

  /** The file with the host name, in /etc */
  method MakeHostname(fs: FileSystem, text: string, ghost l: Listing)
    requires Show(fs) == Lists(l)
    requires l.etc.Directory? && l.hostname.Nothing?
    modifies fs`tree, fs`currentDir, fs.tree.at.Keys
    ensures Show(fs) == Lists(WithHostname(l, text))
    ensures forall m :: m in fs.tree.at && m !in old(fs.tree).at ==> fresh(m)
  {
    TouchHostname(fs, l);
    PlainNames();
    WriteHostname(fs, "hostname", text, l.(etc := Directory(l.etc.names + ["hostname"]), hostname := File("")));
  }

  method MakeFiles(fs: FileSystem, text: string, ghost l: Listing, ghost next: Listing)
    requires Show(fs) == Lists(l)
    requires l.etc.Directory? && l.hostname.Nothing? && next == WithHostname(l, text) && next.homeRoot.Directory?
    modifies fs`tree, fs`currentDir, fs.tree.at.Keys
    ensures fs.tree.cur == HomeRoot(fs.tree)
    ensures Show(fs) == Lists(WithHistory(next))
  {
    MakeHostname(fs, text, l);
    TouchHistory(fs, next);
  }

  /** With all files made */
  function EndListing(text: string): Listing {
    Listing(Directory(TopNames()), Directory(["root"]), Directory(["hostname"]), Directory([".ksh_history"]),
            File(text))
  }

  lemma EndIs(text: string)
    ensures WithHistory(WithHostname(StartListing(), text)) == EndListing(text)
  {
    assert [] + ["hostname"] == ["hostname"] && [] + [".ksh_history"] == [".ksh_history"];
  }

  method MakeAll(fs: FileSystem, text: string)
    requires Show(fs) == Lists(TopListing([]))
    requires fs.tree.cur == fs.tree.root
    modifies fs`tree, fs`currentDir, fs.tree.at.Keys
    ensures fs.tree.cur == HomeRoot(fs.tree) && Show(fs) == Lists(EndListing(text))
  {
    MakeDirectories(fs, TopNames());
    MakeFiles(fs, text, StartListing(), WithHostname(StartListing(), text));
    EndIs(text);
  }

  /** init_filesystem: the directories, the host name in /etc, and the empty history in /home/root, where it ends. */
  method InitFilesystem() returns (fs: FileSystem)
    ensures fresh(fs) && fs.Valid() && NoLeak(fs.tree) && !fs.sudoMode && fs.currentDir == HomeRoot(fs.tree)
    ensures ListingOf(fs.tree) ==
            Listing(Directory(["home", "etc", "tmp", "bin", "var"]), Directory(["root"]), Directory(["hostname"]),
                    Directory([".ksh_history"]), File("KeyholeOS V1.2.1\nThis is the hostnamefile\n"))
  {
    fs := MakeRoot();
    MakeAll(fs, "KeyholeOS V1.2.1\nThis is the hostnamefile\n");
    fs.SetSudo(false);
  }
}
