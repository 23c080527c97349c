/** Whole runs of the file system: it stays a tree, and memory is accounted for. */
module FileRuns {
  import opened FileNode
  import opened FileTree
  import opened TreeOps
  import opened FileOps

  /** One call, with the node and the buffer that kmalloc would return */
  datatype Op =
    | Mkdir(path: string, node: Node)
    | Touch(path: string, node: Node)
    | Cd(path: string)
    | Rm(path: string)
    | Rmdir(path: string)
    | RmR(path: string)
    | Write(path: string, node: Node, buffer: Buffer)
    | Mv(src: string, dest: string)
    | Cp(src: string, dest: string, node: Node, copy: Buffer?)
    | SetSudo(on: bool)

  datatype State = State(tree: Tree, sudo: bool)

  ghost function Apply(s: State, op: Op): State {
    match op
    case Mkdir(path, n) => s.(tree := Create(s.tree, s.sudo, path, true, n))
    case Touch(path, n) => s.(tree := Create(s.tree, s.sudo, path, false, n))
    case Cd(path) => s.(tree := FileOps.Cd(s.tree, path))
    case Rm(path) => s.(tree := FileOps.Rm(s.tree, s.sudo, path))
    case Rmdir(path) => s.(tree := FileOps.Rmdir(s.tree, s.sudo, path))
    case RmR(path) => s.(tree := FileOps.RmR(s.tree, s.sudo, path))
    case Write(path, n, b) => s.(tree := FileOps.Write(s.tree, s.sudo, path, n, b))
    case Mv(src, dest) => s.(tree := FileOps.Mv(s.tree, s.sudo, src, dest))
    case Cp(src, dest, n, b) => s.(tree := FileOps.Cp(s.tree, s.sudo, src, dest, n, b))
    case SetSudo(on) => s.(sudo := on)
  }

  /** Paths may start with a tilde only if there is a /home; new nodes and buffers are not allocated yet; a file with
      data is copied into a new buffer. */
  predicate Allowed(s: State, op: Op) {
    var t := s.tree;
    match op
    case Mkdir(path, n) => Resolvable(t, path) && n !in t.nodes
    case Touch(path, n) => Resolvable(t, path) && n !in t.nodes
    case Write(path, n, b) => Resolvable(t, path) && n !in t.nodes && b !in t.buffers
    case Cp(src, dest, n, b) =>
      && Resolvable(t, src) && Resolvable(t, dest) && n !in t.nodes && b !in t.buffers
      && (DataOf(t, Resolve(t, src)) != null ==> b != null)
    case Mv(src, dest) => Resolvable(t, src) && Resolvable(t, dest)
    case SetSudo(_) => true
    case _ => Resolvable(t, op.path)
  }

  /** Nothing is moved into itself. */
  predicate Safe(s: State, op: Op) {
    op.Mv? ==> SafeMv(s.tree, s.sudo, op.src, op.dest)
  }

  predicate Legal(s: State, op: Op) {
    Allowed(s, op) && Safe(s, op)
  }

  ghost predicate LegalRun(s: State, ops: seq<Op>)
    decreases |ops|
  {
    ops == [] || (Legal(s, ops[0]) && LegalRun(Apply(s, ops[0]), ops[1..]))
  }

  ghost function Run(s: State, ops: seq<Op>): State
    decreases |ops|
  {
    if ops == [] then s else Run(Apply(s, ops[0]), ops[1..])
  }

  // ---------- the tree and its memory ----------

  /** The calls that lose memory */
  predicate Leaks(s: State, op: Op) {
    op.RmR? && RmRLeaks(s.tree, s.sudo, op.path)
  }

  lemma StepSound(s: State, op: Op)
    requires Sound(s.tree) && Legal(s, op)
    ensures Sound(Apply(s, op).tree)
    ensures NoLeak(s.tree) ==> (NoLeak(Apply(s, op).tree) <==> !Leaks(s, op))
  {
    var t, sudo := s.tree, s.sudo;
    match op
    case Mkdir(path, n) => CreateKeeps(t, sudo, path, true, n);
    case Touch(path, n) => CreateKeeps(t, sudo, path, false, n);
    case Cd(path) => CdKeeps(t, path);
    case Rm(path) => RmKeeps(t, sudo, path);
    case Rmdir(path) => RmdirKeeps(t, sudo, path);
    case RmR(path) => RmRKeeps(t, sudo, path);
    case Write(path, n, b) => WriteKeeps(t, sudo, path, n, b);
    case Mv(src, dest) => MvKeeps(t, sudo, src, dest);
    case Cp(src, dest, n, b) => CpKeeps(t, sudo, src, dest, n, b);
    case SetSudo(_) =>
  }

  /** Every run of calls keeps a tree whose nodes and buffers are allocated and not shared. */
  lemma {:induction false} RunSound(s: State, ops: seq<Op>)
    requires Sound(s.tree) && LegalRun(s, ops)
    ensures Sound(Run(s, ops).tree)
    decreases |ops|
  {
    if ops != [] {
      StepSound(s, ops[0]);
      RunSound(Apply(s, ops[0]), ops[1..]);
    }
  }

  // ---------- exactly the safe runs keep a tree ----------

  /** Every mv of the run is safe in the state in which it is called. */
  ghost predicate SafeRun(s: State, ops: seq<Op>)
    decreases |ops|
  {
    ops == [] || (Safe(s, ops[0]) && SafeRun(Apply(s, ops[0]), ops[1..]))
  }

  /** A run as callers can make it, as far as the first move of a node into itself */
  ghost predicate AllowedRun(s: State, ops: seq<Op>)
    decreases |ops|
  {
    ops == [] || (Allowed(s, ops[0]) && (Safe(s, ops[0]) ==> AllowedRun(Apply(s, ops[0]), ops[1..])))
  }

  lemma RunPrefix(s: State, ops: seq<Op>, i: nat)
    requires 0 < i <= |ops|
    ensures Run(s, ops[..i]) == Run(Apply(s, ops[0]), ops[1..][..i - 1])
  {
    assert ops[..i][1..] == ops[1..][..i - 1];
  }

  lemma StepShape(s: State, op: Op)
    requires Sound(s.tree) && Allowed(s, op)
    ensures (exists u :: SameLinks(Apply(s, op).tree, u) && IsTree(u)) <==> Safe(s, op)
  {
    if op.Mv? {
      MvShape(s.tree, s.sudo, op.src, op.dest);
    } else {
      StepSound(s, op);
      assert SameLinks(Apply(s, op).tree, Apply(s, op).tree);
    }
  }

  lemma {:induction false} SafePrefix(s: State, ops: seq<Op>, i: nat)
    requires Sound(s.tree) && AllowedRun(s, ops) && SafeRun(s, ops) && i <= |ops|
    ensures Sound(Run(s, ops[..i]).tree)
    decreases |ops|
  {
    if i > 0 {
      StepSound(s, ops[0]);
      RunPrefix(s, ops, i);
      SafePrefix(Apply(s, ops[0]), ops[1..], i - 1);
    }
  }

  /** The first unsafe move leaves no tree. */
  lemma {:induction false} UnsafePrefix(s: State, ops: seq<Op>) returns (i: nat)
    requires Sound(s.tree) && AllowedRun(s, ops) && !SafeRun(s, ops)
    ensures 0 < i <= |ops|
    ensures !exists u :: SameLinks(Run(s, ops[..i]).tree, u) && IsTree(u)
    decreases |ops|
  {
    StepShape(s, ops[0]);
    if Safe(s, ops[0]) {
      StepSound(s, ops[0]);
      var j := UnsafePrefix(Apply(s, ops[0]), ops[1..]);
      i := j + 1;
    } else {
      i := 1;
    }
    RunPrefix(s, ops, i);
  }

  /** After every call of a run some levels make the links a tree, if and only if every mv of the run is safe. */
  lemma RunShape(s: State, ops: seq<Op>)
    requires Sound(s.tree) && AllowedRun(s, ops)
    ensures SafeRun(s, ops) <==>
            forall i :: 0 < i <= |ops| ==> exists u :: SameLinks(Run(s, ops[..i]).tree, u) && IsTree(u)
  {
    if SafeRun(s, ops) {
      forall i | 0 < i <= |ops|
        ensures exists u :: SameLinks(Run(s, ops[..i]).tree, u) && IsTree(u)
      {
        SafePrefix(s, ops, i);
        assert SameLinks(Run(s, ops[..i]).tree, Run(s, ops[..i]).tree);
      }
    } else {
      var i := UnsafePrefix(s, ops);
    }
  }

  // ---------- what is lost stays lost ----------

  predicate LostNode(t: Tree, n: Node) {
    n in t.nodes && n !in t.at
  }

  predicate LostBuffer(t: Tree, b: Buffer) {
    b in t.buffers && forall m :: m in t.at ==> t.at[m].data != b
  }

  ghost predicate Lost(t: Tree) {
    (exists n :: n in t.nodes && LostNode(t, n)) || exists b :: b in t.buffers && LostBuffer(t, b)
  }

  lemma LostIffLeak(t: Tree)
    ensures Lost(t) <==> !NoLeak(t)
  {
    forall b | b in t.buffers
      ensures InUse(t, b) <==> !LostBuffer(t, b)
    {
    }
    if n :| n in t.nodes && n !in t.at {
      assert LostNode(t, n);
    }
  }

  lemma UnlinkLost(t: Tree, n: Node, b: Buffer)
    requires LostBuffer(t, b)
    ensures LostBuffer(Unlink(t, n), b) && LostBuffer(Prune(t, n), b) && LostBuffer(Cut(t, n), b)
  {
    assert forall s :: b !in BuffersOf(t, s);
  }

  lemma CreateLostNode(t: Tree, sudo: bool, path: string, dir: bool, made: Node, n: Node)
    requires LostNode(t, n) && made != n
    ensures LostNode(Create(t, sudo, path, dir, made), n)
  {
  }

  lemma RemoveLostNode(t: Tree, sudo: bool, path: string, n: Node)
    requires LostNode(t, n)
    ensures LostNode(FileOps.Rm(t, sudo, path), n)
    ensures LostNode(FileOps.Rmdir(t, sudo, path), n)
  {
    if RmTarget(t, path) != null {
      UnlinkLostNode(t, RmTarget(t, path), n);
    }
    if Resolve(t, path) != null {
      UnlinkLostNode(t, Resolve(t, path), n);
    }
  }

  lemma RmRLostNode(t: Tree, sudo: bool, path: string, n: Node)
    requires LostNode(t, n)
    ensures LostNode(FileOps.RmR(t, sudo, path), n)
  {
    if Resolve(t, path) != null {
      UnlinkLostNode(t, Resolve(t, path), n);
    }
  }

  lemma UnlinkLostNode(t: Tree, x: Node, n: Node)
    requires LostNode(t, n)
    ensures LostNode(Unlink(t, x), n) && LostNode(Prune(t, x), n) && LostNode(Cut(t, x), n)
  {
    assert n !in Subtree(t, x);
  }

  lemma StepLostNode(s: State, op: Op, n: Node)
    requires Legal(s, op) && LostNode(s.tree, n)
    ensures LostNode(Apply(s, op).tree, n)
  {
    var t, sudo := s.tree, s.sudo;
    match op
    case Mkdir(path, made) => CreateLostNode(t, sudo, path, true, made, n);
    case Touch(path, made) => CreateLostNode(t, sudo, path, false, made, n);
    case Rm(path) => RemoveLostNode(t, sudo, path, n);
    case Rmdir(path) => RemoveLostNode(t, sudo, path, n);
    case RmR(path) => RmRLostNode(t, sudo, path, n);
    case Write(path, made, _) => CreateLostNode(t, sudo, path, false, made, n);
    case Cp(src, dest, made, _) => CreateLostNode(t, sudo, CpPath(t, src, dest), false, made, n);
    case _ =>
  }

  lemma CreateLost(t: Tree, sudo: bool, path: string, dir: bool, n: Node, b: Buffer)
    requires LostBuffer(t, b)
    ensures LostBuffer(Create(t, sudo, path, dir, n), b)
  {
  }

  lemma SetDataLost(t: Tree, n: Node, x: Buffer, b: Buffer)
    requires LostBuffer(t, b) && n in t.at && x != b
    ensures LostBuffer(SetData(t, n, x), b)
  {
  }

  lemma WriteLost(t: Tree, sudo: bool, path: string, n: Node, x: Buffer, b: Buffer)
    requires LostBuffer(t, b) && x != b
    ensures LostBuffer(FileOps.Write(t, sudo, path, n, x), b)
  {
    CreateLost(t, sudo, path, false, n, b);
    var t1, m := WriteTree(t, sudo, path, n), WriteTarget(t, sudo, path, n);
    if m != null && m in t1.at {
      SetDataLost(t1, m, x, b);
    }
  }

  lemma CpLost(t: Tree, sudo: bool, src: string, dest: string, n: Node, x: Buffer?, b: Buffer)
    requires LostBuffer(t, b) && x != b
    ensures LostBuffer(FileOps.Cp(t, sudo, src, dest, n, x), b)
  {
    var t1 := Create(t, sudo, CpPath(t, src, dest), false, n);
    CreateLost(t, sudo, CpPath(t, src, dest), false, n, b);
    if n in t1.at && x != null {
      SetDataLost(t1, n, x, b);
    }
  }

  lemma MvLost(t: Tree, sudo: bool, src: string, dest: string, b: Buffer)
    requires LostBuffer(t, b)
    ensures LostBuffer(FileOps.Mv(t, sudo, src, dest), b)
  {
  }

  lemma RemoveLost(t: Tree, sudo: bool, path: string, b: Buffer)
    requires LostBuffer(t, b)
    ensures LostBuffer(FileOps.Rm(t, sudo, path), b)
    ensures LostBuffer(FileOps.Rmdir(t, sudo, path), b)
    ensures LostBuffer(FileOps.RmR(t, sudo, path), b)
  {
    if RmTarget(t, path) != null {
      UnlinkLost(t, RmTarget(t, path), b);
    }
    if Resolve(t, path) != null {
      UnlinkLost(t, Resolve(t, path), b);
    }
  }

  lemma StepLostBuffer(s: State, op: Op, b: Buffer)
    requires Legal(s, op) && LostBuffer(s.tree, b)
    ensures LostBuffer(Apply(s, op).tree, b)
  {
    var t, sudo := s.tree, s.sudo;
    match op
    case Mkdir(path, n) => CreateLost(t, sudo, path, true, n, b);
    case Touch(path, n) => CreateLost(t, sudo, path, false, n, b);
    case Cd(_) =>
    case Rm(path) => RemoveLost(t, sudo, path, b);
    case Rmdir(path) => RemoveLost(t, sudo, path, b);
    case RmR(path) => RemoveLost(t, sudo, path, b);
    case Write(path, n, x) => WriteLost(t, sudo, path, n, x, b);
    case Mv(src, dest) => MvLost(t, sudo, src, dest, b);
    case Cp(src, dest, n, x) => CpLost(t, sudo, src, dest, n, x, b);
    case SetSudo(_) =>
  }

  lemma StepLost(s: State, op: Op)
    requires Legal(s, op) && !NoLeak(s.tree)
    ensures !NoLeak(Apply(s, op).tree)
  {
    LostIffLeak(s.tree);
    LostIffLeak(Apply(s, op).tree);
    if n :| n in s.tree.nodes && LostNode(s.tree, n) {
      StepLostNode(s, op, n);
    } else {
      var b :| b in s.tree.buffers && LostBuffer(s.tree, b);
      StepLostBuffer(s, op, b);
    }
  }

  ghost predicate LeakFree(s: State, ops: seq<Op>)
    decreases |ops|
  {
    ops == [] || (!Leaks(s, ops[0]) && LeakFree(Apply(s, ops[0]), ops[1..]))
  }

  /** At the end of a run, exactly the memory of the tree is allocated if and only if no rm_r on the way lost any. */
  lemma {:induction false} RunNoLeak(s: State, ops: seq<Op>)
    requires Sound(s.tree) && NoLeak(s.tree) && LegalRun(s, ops)
    ensures NoLeak(Run(s, ops).tree) <==> LeakFree(s, ops)
    decreases |ops|
  {
    if ops != [] {
      StepSound(s, ops[0]);
      var next := Apply(s, ops[0]);
      if NoLeak(next.tree) {
        RunNoLeak(next, ops[1..]);
      } else {
        RunLost(next, ops[1..]);
      }
    }
  }

  lemma {:induction false} RunLost(s: State, ops: seq<Op>)
    requires !NoLeak(s.tree) && LegalRun(s, ops)
    ensures !NoLeak(Run(s, ops).tree)
    decreases |ops|
  {
    if ops != [] {
      StepLost(s, ops[0]);
      RunLost(Apply(s, ops[0]), ops[1..]);
    }
  }

  // ---------- recursive copies as runs ----------

  /** Tree u is what a run of mkdir and cp calls makes of t. */
  ghost predicate Copies(t: Tree, sudo: bool, ops: seq<Op>, u: Tree) {
    && LegalRun(State(t, sudo), ops) && Run(State(t, sudo), ops) == State(u, sudo)
    && forall i :: 0 <= i < |ops| ==> ops[i].Mkdir? || ops[i].Cp?
  }

  lemma CopiesNothing(t: Tree, sudo: bool)
    ensures Copies(t, sudo, [], t)
  {
  }

  lemma CopiesOne(t: Tree, sudo: bool, op: Op)
    requires Legal(State(t, sudo), op) && (op.Mkdir? || op.Cp?)
    ensures Copies(t, sudo, [op], Apply(State(t, sudo), op).tree)
  {
    assert [op][1..] == [];
    assert LegalRun(Apply(State(t, sudo), op), []);
  }

  lemma {:induction false} CopiesThen(t: Tree, sudo: bool, a: seq<Op>, u: Tree, b: seq<Op>, v: Tree)
    requires Copies(t, sudo, a, u) && Copies(u, sudo, b, v)
    ensures Copies(t, sudo, a + b, v)
    decreases |a|
  {
    if a == [] {
      assert a + b == b;
    } else {
      assert (a + b)[1..] == a[1..] + b;
      CopiesThen(Apply(State(t, sudo), a[0]).tree, sudo, a[1..], u, b, v);
    }
  }

  /** Copying keeps the invariant and loses no memory. */
  lemma CopiesKeep(t: Tree, sudo: bool, ops: seq<Op>, u: Tree)
    requires Sound(t) && Copies(t, sudo, ops, u)
    ensures Sound(u) && (NoLeak(t) ==> NoLeak(u))
  {
    RunSound(State(t, sudo), ops);
    if NoLeak(t) {
      CopiesLeakFree(t, sudo, ops, u);
      RunNoLeak(State(t, sudo), ops);
    }
  }

  lemma {:induction false} CopiesLeakFree(t: Tree, sudo: bool, ops: seq<Op>, u: Tree)
    requires Copies(t, sudo, ops, u)
    ensures LeakFree(State(t, sudo), ops)
    decreases |ops|
  {
    if ops != [] {
      CopiesLeakFree(Apply(State(t, sudo), ops[0]).tree, sudo, ops[1..], u);
    }
  }
}
