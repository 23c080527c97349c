/** Small trees on which the file operations do less than one would expect. */
module FileExamples {
  import opened FileNode
  import opened Paths
  import opened FileTree
  import opened TreeOps
  import opened FileOps
  import opened Resolution
  import opened Confinement
  import Copying

  /** A root directory with one child */
  function OneChild(root: Node, name: string, child: Node, dir: bool, data: Buffer?): Tree {
    Tree(map[root := Entry("/", true, null, root, [child], 0), child := Entry(name, dir, data, root, [], 1)],
         root, root, {root, child}, if data == null then {} else {data})
  }

  lemma OneChildSound(root: Node, name: string, child: Node, dir: bool, data: Buffer?)
    requires root != child && (dir ==> data == null)
    ensures var t := OneChild(root, name, child, dir, data);
            Sound(t) && NoLeak(t) && FindChild(t, root, name) == child
  {
    OneChildTree(root, name, child, dir, data);
    OneChildOwned(root, name, child, dir, data);
  }

  lemma OneChildTree(root: Node, name: string, child: Node, dir: bool, data: Buffer?)
    requires root != child && (dir ==> data == null)
    ensures IsTree(OneChild(root, name, child, dir, data))
    ensures FindChild(OneChild(root, name, child, dir, data), root, name) == child
  {
    var t := OneChild(root, name, child, dir, data);
    assert [child][1..] == [];
    forall n | n in t.at
      ensures Linked(t, n)
    {
    }
  }

  lemma OneChildOwned(root: Node, name: string, child: Node, dir: bool, data: Buffer?)
    requires root != child && (dir ==> data == null)
    ensures Owned(OneChild(root, name, child, dir, data)) && NoLeak(OneChild(root, name, child, dir, data))
  {
    var t := OneChild(root, name, child, dir, data);
    forall n | n in t.at
      ensures OwnedAt(t, n)
    {
    }
    forall m, n | m in t.at && n in t.at
      ensures Apart(t, m, n)
    {
    }
    forall b | b in t.buffers
      ensures InUse(t, b)
    {
      assert t.at[child].data == b;
    }
  }

  /** `mv a a` of a directory is accepted, and no levels make the result a tree. */
  lemma MoveIntoItself(root: Node, a: Node)
    requires root != a
    ensures var t := OneChild(root, "a", a, true, null);
            && Sound(t) && MvCode(t, true, "a", "a") == 0
            && !exists u :: SameLinks(Mv(t, true, "a", "a"), u) && IsTree(u)
  {
    var t := OneChild(root, "a", a, true, null);
    OneChildSound(root, "a", a, true, null);
    ResolveName(t, "a");
    MvShape(t, true, "a", "a");
    assert Inside(t, a, a);
  }

  /** `rm -r f` of a file with data removes it and loses its buffer. */
  lemma RmRLosesData(root: Node, f: Node, data: Buffer)
    requires root != f
    ensures var t := OneChild(root, "f", f, false, data);
            Sound(t) && NoLeak(t) && RmRCode(t, true, "f") == 0 && !NoLeak(RmR(t, true, "f"))
  {
    var t := OneChild(root, "f", f, false, data);
    OneChildSound(root, "f", f, false, data);
    ResolveName(t, "f");
    RmRKeeps(t, true, "f");
  }

  /** `mkdir home/root` makes the tilde, which led to the root, lead to the new directory. */
  lemma MkdirMovesTilde(root: Node, home: Node, n: Node)
    requires root != home && n != root && n != home
    ensures var t := OneChild(root, "home", home, true, null);
            && Sound(t) && Resolve(t, "~") == root
            && Resolve(Create(t, true, "home/root", true, n), "~") == n
  {
    var t := OneChild(root, "home", home, true, null);
    OneChildSound(root, "home", home, true, null);
    HomeRootPath();
    PlaceBelow(t, home, "home", "root", "home/root");
    var u := Create(t, true, "home/root", true, n);
    CreatedChild(t, home, n, "root", true, root, "home");
    CreatedChild(t, home, n, "root", true, home, "root");
    assert Rest("~") == "" && Components("") == [];
  }

  lemma PlaceBelow(t: Tree, d: Node, front: string, name: string, path: string)
    requires Plain(front) && !Tilde(front) && Plain(name) && path == front + "/" + name
    requires FindChild(t, t.cur, front) == d && IsDir(t, d)
    ensures Place(t, true, path) == d && BaseName(path) == name
  {
    ResolveName(t, front);
    Copying.PathOfChild(t, true, front, d, name);
  }

  lemma HomeRootPath()
    ensures "home/root" == "home" + "/" + "root"
  {
  }

  lemma DotStays(t: Tree)
    ensures Resolve(t, ".") == t.cur
  {
    PartsFree("", ".");
    assert "" + "." == "." && Walk(t, t.cur, ["."]) == Walk(t, t.cur, []);
  }

  /** A directory in the root with one file without data */
  function FileInDir(root: Node, a: Node, name: string, c: Node, file: string): Tree {
    Append(OneChild(root, name, a, true, null), a, c, file, false)
  }

  lemma FileInDirSound(root: Node, a: Node, name: string, c: Node, file: string)
    requires root != a && root != c && a != c && Plain(file)
    ensures var t := FileInDir(root, a, name, c, file);
            && Sound(t) && FindChild(t, root, name) == a && Kids(t, a) == [c] && Copying.PlainFile(t, c)
            && t.root == root && t.cur == root && t.at.Keys == {root, a, c} && IsDir(t, root) && IsDir(t, a)
            && t.at[a].name == name
  {
    var t := OneChild(root, name, a, true, null);
    OneChildSound(root, name, a, true, null);
    AppendIsTree(t, a, c, file, false);
    AppendOwned(t, a, c, file, false);
    CreatedChild(t, a, c, file, false, root, name);
  }

  lemma DotPath(t: Tree, a: Node, name: string)
    requires Plain(name) && !Tilde(name) && t.cur == t.root && IsDir(t, t.root) && a in t.at && t.at[a].name == name
    requires FindChild(t, t.root, name) == a
    ensures var to := CpPath(t, name, ".");
            && Resolve(t, name) == a && Resolve(t, to) == a && WellFormed(to) && !Tilde(to) && to != ""
            && Copying.CpRCode(t, true, name, ".") == 0
  {
    ResolveName(t, name);
    DotStays(t);
    Copying.PathOfChild(t, true, ".", t.root, name);
  }

  lemma DotIntoItself(t: Tree, a: Node, name: string, c: Node)
    requires Plain(name) && !Tilde(name) && t.cur == t.root && IsTree(t) && IsDir(t, a) && t.at[a].name == name
    requires FindChild(t, t.root, name) == a && Kids(t, a) == [c] && Copying.PlainFile(t, c)
    ensures var to := CpPath(t, name, ".");
            && Resolve(t, name) == a && Copying.CpRCode(t, true, name, ".") == 0
            && WellFormed(to) && Copying.IntoItself(t, true, name, to, a)
  {
    DotPath(t, a, name);
  }

  /** `cp_r name .` of a directory of the working directory that holds a file: the destination path leads to the source,
      so every copy is appended to the very chain that is being walked, and after any number of rounds there is a next
      child to copy. */
  lemma CopyNeverEnds(root: Node, a: Node, name: string, c: Node, file: string, made: Node, ns: seq<Node>,
                      bs: seq<Buffer?>)
    requires Plain(name) && !Tilde(name) && Plain(file) && |bs| == |ns|
    requires root != a && root != c && a != c && made != root && made != a && made != c
    requires var t := FileInDir(root, a, name, c, file);
             Copying.NewNodes(Create(t, true, CpPath(t, name, "."), true, made), ns)
    ensures var t := FileInDir(root, a, name, c, file);
            var to := CpPath(t, name, ".");
            var v := Copying.Rounds(Create(t, true, to, true, made), true, name, to, a, ns, bs);
            && Sound(t) && Copying.CpRCode(t, true, name, ".") == 0 && Resolve(t, name) == a
            && Kids(v, a) == [c] + ns && |ns| < |Kids(v, a)|
  {
    var t := FileInDir(root, a, name, c, file);
    FileInDirSound(root, a, name, c, file);
    DotIntoItself(t, a, name, c);
    Copying.CpROntoItself(t, true, name, ".", made, ns, bs);
  }

  /** /home with an older child in front of /home/root */
  function TwoInHome(root: Node, home: Node, other: Node, h: Node): Tree {
    Append(Append(OneChild(root, "home", home, true, null), home, other, "other", true), home, h, "root", true)
  }

  /** Renaming /home/root from behind a sibling puts it at the front of the chain of /home, which is protected. */
  lemma RenameDisturbs(root: Node, home: Node, other: Node, h: Node, name: string)
    requires root != home && root != other && root != h && home != other && home != h && other != h
    ensures var t := TwoInHome(root, home, other, h);
            IsTree(t) && HomeRoot(t) == h && !OutsideKept(t, MoveTo(t, h, home, name))
  {
    var t := TwoInHome(root, home, other, h);
    TwoInHomeTree(root, home, other, h);
    assert Up(t, h) == home && FirstKid(t, home) == other;
    RenameHomeOutside(t, name);
  }

  lemma TwoInHomeTree(root: Node, home: Node, other: Node, h: Node)
    requires root != home && root != other && root != h && home != other && home != h && other != h
    ensures IsTree(TwoInHome(root, home, other, h)) && HomeRoot(TwoInHome(root, home, other, h)) == h
  {
    var t := OneChild(root, "home", home, true, null);
    var t1 := Append(t, home, other, "other", true);
    OneChildTree(root, "home", home, true, null);
    AppendIsTree(t, home, other, "other", true);
    AppendIsTree(t1, home, h, "root", true);
    CreatedChild(t, home, other, "other", true, root, "home");
    CreatedChild(t, home, other, "other", true, home, "root");
    CreatedChild(t1, home, h, "root", true, root, "home");
    CreatedChild(t1, home, h, "root", true, home, "root");
  }
}
