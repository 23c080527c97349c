/** Four-level page tables as values: entries, the tree of tables, and the flat map it denotes
    (Intel SDM, Volume 3A, section 4.5).  A ghost map from slots to frames says which frame holds
    which table; a slot is a level and the part of the page number above it. */
module PageTable {
  import opened Bits
  import opened PageCount

  // ---------- entries ----------

  datatype Flag = PRESENT | WRITABLE | USER {
    function Position(): nat {
      match this
      case PRESENT => 0
      case WRITABLE => 1
      case USER => 2
    }

    /** VMM_PRESENT, VMM_WRITABLE, VMM_USER */
    function Mask(): nat {
      Shl(1, Position())
    }
  }

  /** `e & VMM_...` is non-zero (see Bits.TestBit) */
  predicate Has(e: nat, f: Flag) {
    Bit(e, f.Position())
  }

  /** `(e & 0x000FFFFFFFFFF000)` as a frame number (see Bits.AddressMask) */
  function FrameOf(e: nat): nat {
    Low(Shr(e, 12), 40)
  }

  /** The entry make_table returns for a table in the given frame */
  function TableEntry(frame: nat): nat {
    Or(Or(frame * 4096, PRESENT.Mask()), WRITABLE.Mask())
  }

  lemma OrMask(e: nat, f: Flag, g: Flag)
    ensures Has(Or(e, f.Mask()), g) <==> f == g || Has(e, g)
  {
    OrShr(e, f.Mask(), g.Position());
    OneBit(f.Position(), g.Position());
  }

  lemma OrFlags(a: nat, b: nat, g: Flag)
    ensures Has(Or(a, b), g) <==> Has(a, g) || Has(b, g)
  {
    OrShr(a, b, g.Position());
  }

  /** Or-ing low bits into an entry keeps its frame. */
  lemma OrFrame(e: nat, b: nat)
    requires b < 4096
    ensures FrameOf(Or(e, b)) == FrameOf(e)
  {
    OrShr(e, b, 12);
    Shr12(b);
  }

  lemma SmallMasks(f: Flag)
    ensures f.Mask() < 4096
  {
    assert Shl(1, 0) == 1 && Shl(1, 1) == 2 && Shl(1, 2) == 4;
  }

  lemma AlignedHasNoFlags(frame: nat, g: Flag)
    ensures !Has(frame * 4096, g)
  {
    var x := frame * 4096;
    assert x / 2 == frame * 2048 && x / 2 / 2 == frame * 1024;
    assert Shr(x, 0) == x && Shr(x, 1) == x / 2 && Shr(x, 2) == Shr(x / 2, 1) == x / 2 / 2;
  }

  lemma AlignedFrame(frame: nat)
    requires frame < 0x100_0000_0000
    ensures FrameOf(frame * 4096) == frame
  {
    Shr12(frame * 4096);
    Shl40();
    LowSmall(frame, 40);
  }

  lemma TableEntryFields(frame: nat)
    requires frame < 0x100_0000_0000
    ensures FrameOf(TableEntry(frame)) == frame
    ensures forall g: Flag :: Has(TableEntry(frame), g) <==> g != USER
  {
    SmallMasks(PRESENT);
    SmallMasks(WRITABLE);
    AlignedFrame(frame);
    OrFrame(frame * 4096, PRESENT.Mask());
    OrFrame(Or(frame * 4096, PRESENT.Mask()), WRITABLE.Mask());
    forall g: Flag
      ensures Has(TableEntry(frame), g) <==> g != USER
    {
      AlignedHasNoFlags(frame, g);
      OrMask(frame * 4096, PRESENT, g);
      OrMask(Or(frame * 4096, PRESENT.Mask()), WRITABLE, g);
    }
  }

  lemma UserGranted(e: nat)
    ensures FrameOf(Or(e, USER.Mask())) == FrameOf(e)
    ensures forall g: Flag :: Has(Or(e, USER.Mask()), g) <==> g == USER || Has(e, g)
  {
    SmallMasks(USER);
    OrFrame(e, USER.Mask());
    forall g: Flag
      ensures Has(Or(e, USER.Mask()), g) <==> g == USER || Has(e, g)
    {
      OrMask(e, USER, g);
    }
  }

  lemma ZeroEntry(g: Flag)
    ensures !Has(0, g)
  {
    ShrZero(g.Position());
  }

  // ---------- memory ----------

  type Table = s: seq<nat> | |s| == 512 witness seq(512, _ => 0)

  /** Physical memory: frame number to its 512 words; a frame that was never written reads as zero */
  type Memory = map<nat, Table>

  function TableIn(mem: Memory, frame: nat): Table {
    if frame in mem then mem[frame] else Zeros()
  }

  function Word(mem: Memory, frame: nat, i: nat): nat
    requires i < 512
  {
    TableIn(mem, frame)[i]
  }

  function Store(mem: Memory, frame: nat, i: nat, w: nat): Memory
    requires i < 512
  {
    var table: Table := TableIn(mem, frame)[i := w];
    mem[frame := table]
  }

  lemma StoreWord(mem: Memory, frame: nat, i: nat, w: nat)
    requires i < 512
    ensures forall f: nat, j: nat {:trigger Word(Store(mem, frame, i, w), f, j)} :: j < 512 ==>
              Word(Store(mem, frame, i, w), f, j) == if f == frame && j == i then w else Word(mem, f, j)
  {
  }

  function Zeros(): Table {
    seq(512, _ => 0)
  }

  // ---------- slots ----------

  datatype Slot = Slot(level: nat, prefix: nat)

  function Child(s: Slot, i: nat): Slot
    requires s.level > 0
  {
    Slot(s.level - 1, s.prefix * 512 + i)
  }

  function Parent(s: Slot): Slot {
    Slot(s.level + 1, Shr(s.prefix, 9))
  }

  /** The page number of a virtual address: its bits 12 to 47 */
  function Vpn(virt: nat): nat {
    Low(Shr(virt, 12), 36)
  }

  /** The slot of the level-l table on the path to a page */
  function Path(vpn: nat, l: nat): Slot {
    Slot(l, Shr(vpn, 9 * l))
  }

  lemma IndexBound(x: nat)
    ensures Low(x, 9) < 512
  {
    SplitAt(x, 9);
    assert Ones(9) == 511;
  }

  /** The index of a page in the level-l table on its path */
  function IndexOf(vpn: nat, l: nat): (i: nat)
    requires l > 0
    ensures i < 512
  {
    IndexBound(Shr(vpn, 9 * (l - 1)));
    Low(Shr(vpn, 9 * (l - 1)), 9)
  }

  /** `(virt >> 39) & 0x1FF` for l = 4, ..., `(virt >> 12) & 0x1FF` for l = 1 (see Bits.IndexMask) */
  function Index(virt: nat, l: nat): (i: nat)
    ensures i < 512
  {
    IndexBound(Shr(virt, 9 * l + 3));
    Low(Shr(virt, 9 * l + 3), 9)
  }

  /** The indices of an address lead along the path of its page, from the root at level 4. */
  lemma IndexPath(virt: nat, l: nat)
    requires 1 <= l <= 4
    ensures Index(virt, l) == IndexOf(Vpn(virt), l)
    ensures Child(Path(Vpn(virt), l), Index(virt, l)) == Path(Vpn(virt), l - 1)
  {
    var k := 9 * (l - 1);
    assert k + 12 == 9 * l + 3;
    IndexFromVpn(virt, k);
    IndexIs(virt, l);
    PathChild(Vpn(virt), l);
  }

  lemma IndexIs(virt: nat, l: nat)
    requires 1 <= l <= 4 && Low(Shr(Vpn(virt), 9 * (l - 1)), 9) == Low(Shr(virt, 9 * l + 3), 9)
    ensures Index(virt, l) == IndexOf(Vpn(virt), l)
  {
  }

  lemma IndexFromVpn(virt: nat, k: nat)
    requires k <= 27
    ensures Low(Shr(Vpn(virt), k), 9) == Low(Shr(virt, k + 12), 9)
  {
    ShrShr(virt, 12, k);
    LowShr(Shr(virt, 12), 36, k, 9);
  }

  lemma PathRoot(virt: nat)
    ensures Path(Vpn(virt), 4) == ROOT
  {
    ShrLow(Shr(virt, 12), 36);
  }

  lemma PathChild(vpn: nat, l: nat)
    requires l > 0
    ensures Child(Path(vpn, l), IndexOf(vpn, l)) == Path(vpn, l - 1)
    ensures Parent(Path(vpn, l - 1)) == Path(vpn, l) && IndexOf(vpn, l) < 512
  {
    var x := Shr(vpn, 9 * (l - 1));
    ShrShr(vpn, 9 * (l - 1), 9);
    Shr9(x);
  }

  lemma ChildParent(s: Slot, i: nat)
    requires s.level > 0 && i < 512
    ensures Parent(Child(s, i)) == s && Low(Child(s, i).prefix, 9) == i
  {
    Shr9(s.prefix * 512 + i);
  }

  lemma ParentChild(s: Slot)
    ensures Child(Parent(s), Low(s.prefix, 9)) == s && Low(s.prefix, 9) < 512
  {
    Shr9(s.prefix);
  }

  const ROOT := Slot(4, 0)

  // ---------- the tree invariant ----------

  type Tables = map<Slot, nat>

  /** The entry of a table, 0 for a table that does not exist */
  ghost function Entry(mem: Memory, t: Tables, s: Slot, i: nat): nat {
    if s in t && i < 512 then Word(mem, t[s], i) else 0
  }

  /** Every table has a frame of its own, which is in use and is not frame 0. */
  ghost predicate Owned(t: Tables, used: set<nat>) {
    && (forall s :: s in t ==> 1 <= s.level <= 4 && t[s] in used && t[s] != 0)
    && (forall s, s' {:trigger t[s], t[s']} :: s in t && s' in t && t[s] == t[s'] ==> s == s')
  }

  /** The present entries of the upper tables are exactly the links to the tables below; each is writable. */
  ghost predicate Linked(mem: Memory, t: Tables) {
    && (forall s, i: nat :: s in t && s.level > 1 && i < 512 ==>
          (Has(Entry(mem, t, s, i), PRESENT) <==> Child(s, i) in t))
    && (forall s, i: nat :: s in t && s.level > 1 && i < 512 && Child(s, i) in t ==>
          FrameOf(Entry(mem, t, s, i)) == t[Child(s, i)] && Has(Entry(mem, t, s, i), WRITABLE))
  }

  ghost predicate Rooted(t: Tables, root: nat) {
    && ROOT in t && t[ROOT] == root
    && (forall s :: s in t && s.level == 4 ==> s == ROOT)
    && (forall s :: s in t && s.level < 4 ==> Parent(s) in t)
  }

  /** The page tables at root form a four-level tree of unshared frames in use. */
  ghost predicate Tree(mem: Memory, root: nat, t: Tables, used: set<nat>) {
    Rooted(t, root) && Owned(t, used) && Linked(mem, t)
  }

  /** Some assignment of frames to tables makes it a tree. */
  ghost predicate IsTree(mem: Memory, root: nat) {
    exists t: Tables, used: set<nat> :: Tree(mem, root, t, used)
  }

  // ---------- the flat map ----------

  /** The entry that maps a page; 0 if a table on its path is missing */
  ghost function Leaf(mem: Memory, t: Tables, vpn: nat): nat {
    Entry(mem, t, Path(vpn, 1), IndexOf(vpn, 1))
  }

  /** Every leaf that grants user access is below upper entries that do. */
  ghost predicate UserClosed(mem: Memory, t: Tables) {
    forall vpn: nat, l: nat :: vpn < 0x10_0000_0000 && 2 <= l <= 4
      && Has(Leaf(mem, t, vpn), PRESENT) && Has(Leaf(mem, t, vpn), USER)
      ==> Has(UpperEntry(mem, t, vpn, l), USER)
  }

  /** The entry at level l > 1 on the path to a page */
  ghost function UpperEntry(mem: Memory, t: Tables, vpn: nat, l: nat): nat
    requires 2 <= l <= 4
  {
    Entry(mem, t, Path(vpn, l), IndexOf(vpn, l))
  }

  lemma ChildInjective(s: Slot, i: nat, s': Slot, i': nat)
    requires s.level > 0 && s'.level > 0 && i < 512 && i' < 512 && Child(s, i) == Child(s', i')
    ensures s == s' && i == i'
  {
    ChildParent(s, i);
    ChildParent(s', i');
  }

  // ---------- the memory operations of the walk in vmm_map ----------

  /** What `if (!(table[i] & PRESENT)) table[i] = make_table()` does when make_table is given the frame */
  function Ensure(mem: Memory, table: nat, i: nat, frame: nat): Memory
    requires i < 512
  {
    if Has(Word(mem, table, i), PRESENT) then mem else Store(mem[frame := Zeros()], table, i, TableEntry(frame))
  }

  /** What `if (flags & USER) table[i] |= USER` does */
  function Grant(mem: Memory, table: nat, i: nat, flags: nat): Memory
    requires i < 512
  {
    if Has(flags, USER) then Store(mem, table, i, Or(Word(mem, table, i), USER.Mask())) else mem
  }

  /** The new tree keeps every table and every leaf; upper entries may only gain USER. */
  ghost predicate Extends(mem: Memory, t: Tables, mem': Memory, t': Tables) {
    && (forall s :: s in t ==> s in t' && t'[s] == t[s])
    && (forall s, i: nat :: s in t && s.level > 1 && i < 512 && Child(s, i) in t && Has(Entry(mem, t, s, i), USER)
          ==> Has(Entry(mem', t', s, i), USER))
    && (forall vpn: nat :: Leaf(mem', t', vpn) == Leaf(mem, t, vpn))
  }

  lemma ExtendsTransitive(m0: Memory, t0: Tables, m1: Memory, t1: Tables, m2: Memory, t2: Tables)
    requires Extends(m0, t0, m1, t1) && Extends(m1, t1, m2, t2)
    ensures Extends(m0, t0, m2, t2)
  {
  }

  /** A store into a table changes one entry of one table, because no frame is shared. */
  lemma EntriesAfterStore(mem: Memory, t: Tables, used: set<nat>, s: Slot, i: nat, e: nat)
    requires Owned(t, used) && s in t && i < 512
    ensures var mem' := Store(mem, t[s], i, e);
            && Entry(mem', t, s, i) == e
            && (forall s', i': nat :: s' != s || i' != i ==> Entry(mem', t, s', i') == Entry(mem, t, s', i'))
  {
  }

  /** A missing table, made in a frame that was not in use, extends the tree. */
  lemma EnsureNew(mem: Memory, root: nat, t: Tables, used: set<nat>, s: Slot, i: nat, frame: nat)
    requires Tree(mem, root, t, used)
    requires s in t && s.level > 1 && i < 512 && Child(s, i) !in t
    requires frame !in used && 0 < frame < 0x100_0000_0000
    ensures var t' := t[Child(s, i) := frame];
            var mem' := Ensure(mem, t[s], i, frame);
            Tree(mem', root, t', used + {frame}) && Extends(mem, t, mem', t')
  {
    var c := Child(s, i);
    var t' := t[c := frame];
    var mem' := Ensure(mem, t[s], i, frame);
    TableEntryFields(frame);
    ZeroEntry(PRESENT);
    ChildParent(s, i);
    EntriesAfterEnsure(mem, root, t, used, s, i, frame);
    forall s', i': nat | s' in t' && s'.level > 1 && i' < 512
      ensures Has(Entry(mem', t', s', i'), PRESENT) <==> Child(s', i') in t'
      ensures Child(s', i') in t' ==>
                FrameOf(Entry(mem', t', s', i')) == t'[Child(s', i')] && Has(Entry(mem', t', s', i'), WRITABLE)
    {
      if s' == c {
        ChildParent(c, i');
      } else if Child(s', i') == c {
        ChildInjective(s, i, s', i');
      }
    }
    forall vpn: nat
      ensures Leaf(mem', t', vpn) == Leaf(mem, t, vpn)
    {
    }
  }

  lemma EntriesAfterEnsure(mem: Memory, root: nat, t: Tables, used: set<nat>, s: Slot, i: nat, frame: nat)
    requires Tree(mem, root, t, used)
    requires s in t && s.level > 1 && i < 512 && Child(s, i) !in t
    requires frame !in used && frame > 0
    ensures var t' := t[Child(s, i) := frame];
            var mem' := Ensure(mem, t[s], i, frame);
            && Entry(mem', t', s, i) == TableEntry(frame)
            && (forall i': nat :: i' < 512 ==> Entry(mem', t', Child(s, i), i') == 0)
            && (forall s', i': nat :: s' in t && i' < 512 && (s' != s || i' != i) ==>
                  Entry(mem', t', s', i') == Entry(mem, t, s', i'))
  {
    assert !Has(Entry(mem, t, s, i), PRESENT);
  }

  /** Granting user access on a link keeps the tree and every leaf. */
  lemma GrantKeeps(mem: Memory, root: nat, t: Tables, used: set<nat>, s: Slot, i: nat, flags: nat)
    requires Tree(mem, root, t, used)
    requires s in t && s.level > 1 && i < 512 && Child(s, i) in t
    ensures var mem' := Grant(mem, t[s], i, flags);
            && Tree(mem', root, t, used) && Extends(mem, t, mem', t)
            && (Has(flags, USER) ==> Has(Entry(mem', t, s, i), USER))
            && FrameOf(Word(mem', t[s], i)) == t[Child(s, i)]
  {
    if Has(flags, USER) {
      UserGranted(Word(mem, t[s], i));
      EntriesAfterStore(mem, t, used, s, i, Or(Word(mem, t[s], i), USER.Mask()));
    }
    var mem' := Grant(mem, t[s], i, flags);
    assert Entry(mem', t, s, i) == Word(mem', t[s], i);
    forall vpn: nat
      ensures Leaf(mem', t, vpn) == Leaf(mem, t, vpn)
    {
      assert Path(vpn, 1) != s;
    }
  }

  /** Writing a leaf keeps the tree and changes that page only. */
  lemma SetLeaf(mem: Memory, root: nat, t: Tables, used: set<nat>, vpn: nat, e: nat)
    requires Tree(mem, root, t, used) && Path(vpn, 1) in t
    ensures var mem' := Store(mem, t[Path(vpn, 1)], IndexOf(vpn, 1), e);
            && Tree(mem', root, t, used)
            && Leaf(mem', t, vpn) == e
            && (forall v: nat :: v != vpn ==> Leaf(mem', t, v) == Leaf(mem, t, v))
            && (forall s, i: nat :: s in t && s.level > 1 ==> Entry(mem', t, s, i) == Entry(mem, t, s, i))
  {
    var p := Path(vpn, 1);
    var mem' := Store(mem, t[p], IndexOf(vpn, 1), e);
    EntriesAfterStore(mem, t, used, p, IndexOf(vpn, 1), e);
    forall v: nat | v != vpn
      ensures Leaf(mem', t, v) == Leaf(mem, t, v)
    {
      PathChild(v, 1);
      PathChild(vpn, 1);
    }
  }

  /** The path of a page that has a level-1 table is complete. */
  lemma FullPath(mem: Memory, root: nat, t: Tables, used: set<nat>, vpn: nat)
    requires Tree(mem, root, t, used) && Path(vpn, 1) in t
    ensures forall l: nat :: 1 <= l <= 4 ==> Path(vpn, l) in t
  {
    ParentInTree(mem, root, t, used, vpn, 1);
    ParentInTree(mem, root, t, used, vpn, 2);
    ParentInTree(mem, root, t, used, vpn, 3);
    forall l: nat | 1 <= l <= 4
      ensures Path(vpn, l) in t
    {
      assert l == 1 || l == 2 || l == 3 || l == 4;
    }
  }

  lemma ParentInTree(mem: Memory, root: nat, t: Tables, used: set<nat>, vpn: nat, l: nat)
    requires Tree(mem, root, t, used) && 1 <= l <= 3 && Path(vpn, l) in t
    ensures Path(vpn, l + 1) in t
  {
    PathChild(vpn, l + 1);
  }

  lemma ExtendsUserClosed(mem: Memory, root: nat, t: Tables, used: set<nat>, mem': Memory, t': Tables)
    requires Tree(mem, root, t, used) && UserClosed(mem, t) && Extends(mem, t, mem', t')
    ensures UserClosed(mem', t')
  {
    forall vpn: nat, l: nat | vpn < 0x10_0000_0000 && 2 <= l <= 4
      && Has(Leaf(mem', t', vpn), PRESENT) && Has(Leaf(mem', t', vpn), USER)
      ensures Has(UpperEntry(mem', t', vpn, l), USER)
    {
      ZeroEntry(PRESENT);
      FullPath(mem, root, t, used, vpn);
      PathChild(vpn, l);
      assert Has(UpperEntry(mem, t, vpn, l), USER);
    }
  }

  // ---------- permissions ----------

  /** The permission the processor computes: the page is mapped and every level grants it. */
  ghost predicate Effective(mem: Memory, t: Tables, vpn: nat, f: Flag) {
    && Has(Leaf(mem, t, vpn), PRESENT) && Has(Leaf(mem, t, vpn), f)
    && (forall l: nat :: 2 <= l <= 4 ==> Has(UpperEntry(mem, t, vpn, l), f))
  }

  /** User and write permission of a page are what its own entry says, whatever else is mapped. */
  lemma EffectiveIsLeaf(mem: Memory, root: nat, t: Tables, used: set<nat>, vpn: nat, f: Flag)
    requires Tree(mem, root, t, used) && UserClosed(mem, t) && vpn < 0x10_0000_0000 && f != PRESENT
    ensures Effective(mem, t, vpn, f) <==> Has(Leaf(mem, t, vpn), PRESENT) && Has(Leaf(mem, t, vpn), f)
  {
    if Has(Leaf(mem, t, vpn), PRESENT) && Has(Leaf(mem, t, vpn), f) {
      ZeroEntry(PRESENT);
      FullPath(mem, root, t, used, vpn);
      forall l: nat | 2 <= l <= 4
        ensures Has(UpperEntry(mem, t, vpn, l), f)
      {
        PathChild(vpn, l);
      }
    }
  }

  // ---------- when make_table runs out of frames ----------

  /** The tables of t hang together from the root. */
  ghost predicate Chained(mem: Memory, root: nat, t: Tables) {
    && ROOT in t && t[ROOT] == root
    && (forall s :: s in t ==> 1 <= s.level <= 4 && t[s] != 0)
    && (forall s :: s in t && s.level == 4 ==> s == ROOT)
    && (forall s :: s in t && s.level < 4 ==>
          && Parent(s) in t
          && Has(Entry(mem, t, Parent(s), Low(s.prefix, 9)), PRESENT)
          && FrameOf(Entry(mem, t, Parent(s), Low(s.prefix, 9))) == t[s])
  }

  /** Some table reachable from the root links to frame 0, which make_table uses when pmm_alloc fails. */
  ghost predicate LinksToZero(mem: Memory, root: nat, t: Tables) {
    && Chained(mem, root, t)
    && (exists s, i: nat :: s in t && s.level > 1 && i < 512
          && Has(Entry(mem, t, s, i), PRESENT) && FrameOf(Entry(mem, t, s, i)) == 0)
  }

  lemma {:induction false} SamePlace(mem: Memory, root: nat, t: Tables, t2: Tables, used: set<nat>, s: Slot)
    requires Chained(mem, root, t) && Tree(mem, root, t2, used) && s in t
    ensures s in t2 && t2[s] == t[s]
    decreases 4 - s.level
  {
    if s.level < 4 {
      var p, i := Parent(s), Low(s.prefix, 9);
      SamePlace(mem, root, t, t2, used, p);
      ParentChild(s);
      assert Entry(mem, t2, p, i) == Entry(mem, t, p, i);
    }
  }

  lemma TreeChained(mem: Memory, root: nat, t: Tables, used: set<nat>)
    requires Tree(mem, root, t, used)
    ensures Chained(mem, root, t)
  {
    forall s | s in t && s.level < 4
      ensures Has(Entry(mem, t, Parent(s), Low(s.prefix, 9)), PRESENT)
      ensures FrameOf(Entry(mem, t, Parent(s), Low(s.prefix, 9))) == t[s]
    {
      ParentChild(s);
    }
  }

  /** The memory determines the tables. */
  lemma OneTree(mem: Memory, root: nat, t: Tables, used: set<nat>, t2: Tables, used2: set<nat>)
    requires Tree(mem, root, t, used) && Tree(mem, root, t2, used2)
    ensures t == t2
  {
    TreeChained(mem, root, t, used);
    TreeChained(mem, root, t2, used2);
    forall s | s in t
      ensures s in t2 && t2[s] == t[s]
    {
      SamePlace(mem, root, t, t2, used2, s);
    }
    forall s | s in t2
      ensures s in t
    {
      SamePlace(mem, root, t2, t, used, s);
    }
  }

  lemma NoZeroLink(mem: Memory, root: nat, t: Tables, t2: Tables, used: set<nat>, s: Slot, i: nat)
    requires Chained(mem, root, t) && Tree(mem, root, t2, used) && s in t && s.level > 1 && i < 512
    requires Has(Entry(mem, t, s, i), PRESENT)
    ensures FrameOf(Entry(mem, t, s, i)) != 0
  {
    SamePlace(mem, root, t, t2, used, s);
    assert Entry(mem, t2, s, i) == Entry(mem, t, s, i);
    assert t2[Child(s, i)] != 0;
  }

  /** Then no assignment of frames to tables makes it a tree. */
  lemma NoTree(mem: Memory, root: nat, t: Tables, t2: Tables, used: set<nat>)
    requires LinksToZero(mem, root, t)
    ensures !Tree(mem, root, t2, used)
  {
    var s, i: nat :| s in t && s.level > 1 && i < 512
      && Has(Entry(mem, t, s, i), PRESENT) && FrameOf(Entry(mem, t, s, i)) == 0;
    if Tree(mem, root, t2, used) {
      NoZeroLink(mem, root, t, t2, used, s, i);
    }
  }

  /** The first failing make_table */
  lemma EnsureLost(mem: Memory, root: nat, t: Tables, used: set<nat>, s: Slot, i: nat, flags: nat)
    requires Tree(mem, root, t, used)
    requires s in t && s.level > 1 && i < 512 && Child(s, i) !in t
    ensures var mem' := Grant(Ensure(mem, t[s], i, 0), t[s], i, flags);
            LinksToZero(mem', root, t) && FrameOf(Word(mem', t[s], i)) == 0 && TableIn(mem', 0) == Zeros()
  {
    var mem1 := Ensure(mem, t[s], i, 0);
    var mem' := Grant(mem1, t[s], i, flags);
    assert !Has(Entry(mem, t, s, i), PRESENT);
    TableEntryFields(0);
    UserGranted(TableEntry(0));
    assert Entry(mem', t, s, i) == Word(mem', t[s], i);
    forall s' | s' in t && s'.level < 4
      ensures Has(Entry(mem', t, Parent(s'), Low(s'.prefix, 9)), PRESENT)
      ensures FrameOf(Entry(mem', t, Parent(s'), Low(s'.prefix, 9))) == t[s']
    {
      ParentChild(s');
      assert Entry(mem', t, Parent(s'), Low(s'.prefix, 9)) == Entry(mem, t, Parent(s'), Low(s'.prefix, 9));
    }
  }

  /** Nothing written to frame 0 repairs the tree. */
  lemma StillLost(mem: Memory, root: nat, t: Tables, mem': Memory)
    requires LinksToZero(mem, root, t)
    requires forall f: nat :: f != 0 ==> TableIn(mem', f) == TableIn(mem, f)
    ensures LinksToZero(mem', root, t)
  {
    var s, i: nat :| s in t && s.level > 1 && i < 512
      && Has(Entry(mem, t, s, i), PRESENT) && FrameOf(Entry(mem, t, s, i)) == 0;
    assert Entry(mem', t, s, i) == Entry(mem, t, s, i);
    assert forall s', i': nat :: s' in t ==> Entry(mem', t, s', i') == Entry(mem, t, s', i');
  }

  // ---------- drawing frames ----------

  /** Memory, the used pages, and how many pages the allocator scans */
  datatype Space = Space(mem: Memory, used: set<nat>, pages: nat) {
    ghost function Free(): int {
      pages - CountIn(used, 0, pages)
    }

    /** The frame make_table gets: the lowest free one, or frame 0 when none is free */
    ghost function Frame(): nat {
      var p := LowestFree(used, 0, pages);
      if p == pages then 0 else p
    }

    ghost function Drawn(): set<nat> {
      var p := LowestFree(used, 0, pages);
      if p == pages then used else used + {p}
    }
  }

  /** A draw takes a frame that was free, if there is one. */
  lemma DrawFrame(sp: Space, mem': Memory)
    ensures sp.Free() >= 0
    ensures sp.Free() == 0 ==> sp.Frame() == 0 && sp.Drawn() == sp.used
    ensures sp.Free() > 0 ==>
              && sp.Frame() !in sp.used && sp.Frame() < sp.pages && sp.Drawn() == sp.used + {sp.Frame()}
              && Space(mem', sp.Drawn(), sp.pages).Free() == sp.Free() - 1
  {
    TakeLowest(sp.used, sp.pages);
    var p := LowestFree(sp.used, 0, sp.pages);
    if p < sp.pages {
      assert sp.Drawn() == sp.used + {p} && sp.Frame() == p;
    }
  }

  /** One level of vmm_map: make the table if it is missing, open it to user code if asked */
  ghost function Enter(sp: Space, table: nat, i: nat, flags: nat): Space
    requires i < 512
  {
    if Has(Word(sp.mem, table, i), PRESENT) then
      sp.(mem := Grant(sp.mem, table, i, flags))
    else
      sp.(mem := Grant(Ensure(sp.mem, table, i, sp.Frame()), table, i, flags), used := sp.Drawn())
  }

  /** The table that the level leads to */
  function Below(mem: Memory, table: nat, i: nat): nat
    requires i < 512
  {
    FrameOf(Word(mem, table, i))
  }

  datatype Reached = Reached(sp: Space, table: nat)

  /** The walk of vmm_map from the level-l table down to the level-1 table */
  ghost function WalkDown(sp: Space, table: nat, virt: nat, l: nat, flags: nat): Reached
    decreases l, table
  {
    if l <= 1 then
      Reached(sp, table)
    else
      var sp' := Enter(sp, table, Index(virt, l), flags);
      WalkDown(sp', Below(sp'.mem, table, Index(virt, l)), virt, l - 1, flags)
  }

  lemma WalkLevel(sp: Space, table: nat, virt: nat, l: nat, flags: nat, i: nat, sp': Space, below: nat, l1: nat)
    requires l > 1 && l1 == l - 1 && i == Index(virt, l)
    requires sp' == Enter(sp, table, i, flags) && below == Below(sp'.mem, table, i)
    ensures WalkDown(sp, table, virt, l, flags) == WalkDown(sp', below, virt, l1, flags)
  {
  }

  /** vmm_map as a function */
  ghost function MapPage(sp: Space, root: nat, virt: nat, phys: nat, flags: nat): Space {
    var r := WalkDown(sp, root, virt, 4, flags);
    r.sp.(mem := Store(r.sp.mem, r.table, Index(virt, 1), Or(phys, flags)))
  }

  // ---------- the walk on the tree ----------

  /** A table was made without a free frame, and the walk goes on inside frame 0. */
  ghost predicate Lost(sp: Space, root: nat, t: Tables, table: nat) {
    && LinksToZero(sp.mem, root, t) && table == 0 && sp.Free() == 0
    && (forall i: nat :: i < 512 && Has(Word(sp.mem, 0, i), PRESENT) ==> FrameOf(Word(sp.mem, 0, i)) == 0)
  }

  /** The walk has come down to the level-l table, in a tree or lost. */
  ghost predicate AtLevel(sp: Space, root: nat, t: Tables, lost: bool, vpn: nat, l: nat, table: nat) {
    if lost then
      Lost(sp, root, t, table)
    else
      && Tree(sp.mem, root, t, sp.used) && 0 in sp.used && sp.pages <= 0x100_0000_0000
      && Path(vpn, l) in t && t[Path(vpn, l)] == table
  }

  /** Every new table has a frame that was not in use before, and only those frames became used. */
  ghost predicate Grew(t: Tables, used: set<nat>, t': Tables, used': set<nat>) {
    && used <= used'
    && (forall s :: s in t' && s !in t ==> t'[s] in used' && t'[s] !in used)
    && (forall p: nat :: p in used' && p !in used ==> exists s :: s in t' && s !in t && t'[s] == p)
  }

  lemma GrewTransitive(t0: Tables, u0: set<nat>, t1: Tables, u1: set<nat>, t2: Tables, u2: set<nat>)
    requires Grew(t0, u0, t1, u1) && Grew(t1, u1, t2, u2)
    requires forall s :: s in t0 ==> s in t1 && t1[s] == t0[s]
    requires forall s :: s in t1 ==> s in t2 && t2[s] == t1[s]
    ensures Grew(t0, u0, t2, u2)
  {
    forall p: nat | p in u2 && p !in u0
      ensures exists s :: s in t2 && s !in t0 && t2[s] == p
    {
      if p in u1 {
        var s :| s in t1 && s !in t0 && t1[s] == p;
        assert s in t2 && t2[s] == p;
      } else {
        var s :| s in t2 && s !in t1 && t2[s] == p;
        assert s !in t0;
      }
    }
  }

  ghost function Need(have: set<Slot>, s: Slot): nat {
    if s in have then 0 else 1
  }

  /** How many tables below level l are missing on the path to a page */
  ghost function Missing(have: set<Slot>, vpn: nat, l: nat): nat {
    if l <= 1 then 0 else Need(have, Path(vpn, l - 1)) + Missing(have, vpn, l - 1)
  }

  lemma {:induction false} MissingSame(t: Tables, t': Tables, vpn: nat, l: nat)
    requires forall k: nat :: 1 <= k < l ==> (Path(vpn, k) in t <==> Path(vpn, k) in t')
    ensures Missing(t.Keys, vpn, l) == Missing(t'.Keys, vpn, l)
  {
    if l > 1 {
      MissingSame(t, t', vpn, l - 1);
    }
  }

  /** What the walk from level l down to level k does: the tables on the way exist afterwards, each missing
      one at the price of a free frame, and the walk is lost exactly when there are fewer free frames. */
  ghost predicate Walked(sp: Space, t: Tables, sp': Space, t': Tables, vpn: nat, l: nat, flags: nat)
    requires l <= 4
  {
    && Extends(sp.mem, t, sp'.mem, t')
    && Grew(t, sp.used, t', sp'.used)
    && (forall s :: s in t' <==> s in t || (1 <= s.level < l && s == Path(vpn, s.level)))
    && sp'.Free() == sp.Free() - Missing(t.Keys, vpn, l)
    && sp'.pages == sp.pages
    && (Has(flags, USER) ==> forall k: nat :: 2 <= k <= l ==> Has(UpperEntry(sp'.mem, t', vpn, k), USER))
  }

  /** In a tree, the entry on the path is present exactly when the next table exists. */
  lemma Presence(sp: Space, root: nat, t: Tables, virt: nat, l: nat, table: nat)
    requires 2 <= l <= 4 && AtLevel(sp, root, t, false, Vpn(virt), l, table)
    ensures Has(Word(sp.mem, table, Index(virt, l)), PRESENT) <==> Path(Vpn(virt), l - 1) in t
    ensures Path(Vpn(virt), l - 1) in t ==> Below(sp.mem, table, Index(virt, l)) == t[Path(Vpn(virt), l - 1)]
    ensures Child(Path(Vpn(virt), l), Index(virt, l)) == Path(Vpn(virt), l - 1)
    ensures Index(virt, l) == IndexOf(Vpn(virt), l)
  {
    IndexPath(virt, l);
    assert Entry(sp.mem, t, Path(Vpn(virt), l), Index(virt, l)) == Word(sp.mem, table, Index(virt, l));
  }

  /** Frames have run out already: everything happens in frame 0. */
  lemma LostStep(sp: Space, root: nat, t: Tables, i: nat, flags: nat)
    requires i < 512 && Lost(sp, root, t, 0)
    ensures var sp' := Enter(sp, 0, i, flags);
            Lost(sp', root, t, Below(sp'.mem, 0, i))
  {
    DrawFrame(sp, sp.mem);
    ZeroFrameClosed(sp.mem, i, flags);
    StillLost(sp.mem, root, t, Grant(Ensure(sp.mem, 0, i, 0), 0, i, flags));
  }

  lemma {:induction false} WalkLost(sp: Space, root: nat, t: Tables, virt: nat, l: nat, flags: nat)
    requires Lost(sp, root, t, 0)
    ensures var r := WalkDown(sp, 0, virt, l, flags);
            Lost(r.sp, root, t, r.table)
    decreases l
  {
    if l > 1 {
      LostStep(sp, root, t, Index(virt, l), flags);
      WalkLost(Enter(sp, 0, Index(virt, l), flags), root, t, virt, l - 1, flags);
    }
  }

  /** Frame 0, used as a table, only ever links to itself. */
  lemma ZeroFrameClosed(mem: Memory, i: nat, flags: nat)
    requires i < 512
    requires forall k: nat :: k < 512 && Has(Word(mem, 0, k), PRESENT) ==> FrameOf(Word(mem, 0, k)) == 0
    ensures var mem' := Grant(Ensure(mem, 0, i, 0), 0, i, flags);
            && FrameOf(Word(mem', 0, i)) == 0
            && (forall k: nat :: k < 512 && Has(Word(mem', 0, k), PRESENT) ==> FrameOf(Word(mem', 0, k)) == 0)
            && (forall f: nat :: f != 0 ==> TableIn(mem', f) == TableIn(mem, f))
  {
    var mem1 := Ensure(mem, 0, i, 0);
    var mem' := Grant(mem1, 0, i, flags);
    TableEntryFields(0);
    ZeroEntry(PRESENT);
    assert forall k: nat :: k < 512 && Has(Word(mem1, 0, k), PRESENT) ==> FrameOf(Word(mem1, 0, k)) == 0;
    UserGranted(Word(mem1, 0, i));
    assert forall k: nat :: k < 512 && k != i ==> Word(mem', 0, k) == Word(mem1, 0, k);
  }

  /** The table below exists already. */
  lemma ExistingStep(sp: Space, root: nat, t: Tables, virt: nat, l: nat, table: nat, flags: nat)
    requires 2 <= l <= 4 && AtLevel(sp, root, t, false, Vpn(virt), l, table)
    requires Path(Vpn(virt), l - 1) in t
    ensures var sp' := Enter(sp, table, Index(virt, l), flags);
            && AtLevel(sp', root, t, false, Vpn(virt), l - 1, Below(sp'.mem, table, Index(virt, l)))
            && sp'.used == sp.used && sp'.pages == sp.pages
            && Extends(sp.mem, t, sp'.mem, t)
            && (Has(flags, USER) ==> Has(UpperEntry(sp'.mem, t, Vpn(virt), l), USER))
  {
    Presence(sp, root, t, virt, l, table);
    GrantKeeps(sp.mem, root, t, sp.used, Path(Vpn(virt), l), Index(virt, l), flags);
  }

  /** The table below is made in a free frame. */
  lemma NewStep(sp: Space, root: nat, t: Tables, virt: nat, l: nat, table: nat, flags: nat)
    requires 2 <= l <= 4 && AtLevel(sp, root, t, false, Vpn(virt), l, table)
    requires Path(Vpn(virt), l - 1) !in t && sp.Free() > 0
    ensures var sp' := Enter(sp, table, Index(virt, l), flags);
            var t' := t[Path(Vpn(virt), l - 1) := sp.Frame()];
            && AtLevel(sp', root, t', false, Vpn(virt), l - 1, Below(sp'.mem, table, Index(virt, l)))
            && sp.Frame() !in sp.used && sp'.used == sp.used + {sp.Frame()} && sp'.pages == sp.pages
            && sp'.Free() == sp.Free() - 1
            && Extends(sp.mem, t, sp'.mem, t')
            && (Has(flags, USER) ==> Has(UpperEntry(sp'.mem, t', Vpn(virt), l), USER))
  {
    var s, i, frame := Path(Vpn(virt), l), Index(virt, l), sp.Frame();
    Presence(sp, root, t, virt, l, table);
    var mem' := Grant(Ensure(sp.mem, table, i, frame), table, i, flags);
    DrawFrame(sp, mem');
    NewTable(sp.mem, root, t, sp.used, s, i, frame, flags);
  }

  lemma NewTable(mem: Memory, root: nat, t: Tables, used: set<nat>, s: Slot, i: nat, frame: nat, flags: nat)
    requires Tree(mem, root, t, used)
    requires s in t && s.level > 1 && i < 512 && Child(s, i) !in t
    requires frame !in used && 0 < frame < 0x100_0000_0000
    ensures var t' := t[Child(s, i) := frame];
            var mem' := Grant(Ensure(mem, t[s], i, frame), t[s], i, flags);
            && Tree(mem', root, t', used + {frame}) && Extends(mem, t, mem', t')
            && (Has(flags, USER) ==> Has(Entry(mem', t', s, i), USER))
            && FrameOf(Word(mem', t[s], i)) == frame
  {
    var t' := t[Child(s, i) := frame];
    var mem1 := Ensure(mem, t[s], i, frame);
    EnsureNew(mem, root, t, used, s, i, frame);
    GrantKeeps(mem1, root, t', used + {frame}, s, i, flags);
    ExtendsTransitive(mem, t, mem1, t', Grant(mem1, t[s], i, flags), t');
  }

  /** The table below is missing and no frame is free. */
  lemma FailingStep(sp: Space, root: nat, t: Tables, virt: nat, l: nat, table: nat, flags: nat)
    requires 2 <= l <= 4 && AtLevel(sp, root, t, false, Vpn(virt), l, table)
    requires Path(Vpn(virt), l - 1) !in t && sp.Free() <= 0
    ensures var sp' := Enter(sp, table, Index(virt, l), flags);
            AtLevel(sp', root, t, true, Vpn(virt), l - 1, Below(sp'.mem, table, Index(virt, l)))
  {
    var s, i := Path(Vpn(virt), l), Index(virt, l);
    Presence(sp, root, t, virt, l, table);
    DrawFrame(sp, sp.mem);
    EnsureLost(sp.mem, root, t, sp.used, s, i, flags);
    ZeroEntry(PRESENT);
    TableEntryFields(0);
    UserGranted(TableEntry(0));
  }

  /** What is known at the end of a walk from level l */
  ghost predicate WalkResult(sp: Space, root: nat, t: Tables, lost: bool, vpn: nat, l: nat, flags: nat,
                             r: Reached, t': Tables, lost': bool)
    requires l <= 4
  {
    && AtLevel(r.sp, root, t', lost', vpn, 1, r.table)
    && (lost' <==> lost || Missing(t.Keys, vpn, l) > sp.Free())
    && (!lost' ==> Walked(sp, t, r.sp, t', vpn, l, flags))
  }

  /** The walk, level by level */
  lemma {:induction false} WalkCorrect(sp: Space, root: nat, t: Tables, lost: bool, virt: nat, l: nat, table: nat,
                                       flags: nat)
    returns (t': Tables, lost': bool)
    requires 1 <= l <= 4 && AtLevel(sp, root, t, lost, Vpn(virt), l, table)
    ensures WalkResult(sp, root, t, lost, Vpn(virt), l, flags, WalkDown(sp, table, virt, l, flags), t', lost')
    decreases l, 1
  {
    DrawFrame(sp, sp.mem);
    if l == 1 {
      WalkNowhere(sp, root, t, lost, virt, table, flags);
      return t, lost;
    } else if lost {
      WalkLost(sp, root, t, virt, l, flags);
      return t, true;
    } else {
      t', lost' := WalkTree(sp, root, t, virt, l, table, flags);
    }
  }

  lemma WalkNowhere(sp: Space, root: nat, t: Tables, lost: bool, virt: nat, table: nat, flags: nat)
    requires AtLevel(sp, root, t, lost, Vpn(virt), 1, table) && sp.Free() >= 0
    ensures WalkResult(sp, root, t, lost, Vpn(virt), 1, flags, WalkDown(sp, table, virt, 1, flags), t, lost)
  {
  }

  lemma {:induction false} WalkTree(sp: Space, root: nat, t: Tables, virt: nat, l: nat, table: nat, flags: nat)
    returns (t': Tables, lost': bool)
    requires 2 <= l <= 4 && AtLevel(sp, root, t, false, Vpn(virt), l, table)
    ensures WalkResult(sp, root, t, false, Vpn(virt), l, flags, WalkDown(sp, table, virt, l, flags), t', lost')
    decreases l, 0
  {
    var vpn, i := Vpn(virt), Index(virt, l);
    var sp1, t1, lost1 := TreeStep(sp, root, t, virt, l, table, flags);
    var k, down := l - 1, WalkDown(sp, table, virt, l, flags);
    assert down == WalkDown(sp1, Below(sp1.mem, table, i), virt, k, flags);
    t', lost' := WalkCorrect(sp1, root, t1, lost1, virt, k, Below(sp1.mem, table, i), flags);
    MissingSame(t, t1, vpn, k);
    DrawFrame(sp1, sp1.mem);
    if !lost' {
      WalkedOn(sp, t, sp1, t1, down.sp, t', vpn, l, k, flags);
    }
  }

  /** One level of the walk in a tree */
  lemma TreeStep(sp: Space, root: nat, t: Tables, virt: nat, l: nat, table: nat, flags: nat)
    returns (sp1: Space, t1: Tables, lost1: bool)
    requires 2 <= l <= 4 && AtLevel(sp, root, t, false, Vpn(virt), l, table)
    ensures sp1 == Enter(sp, table, Index(virt, l), flags)
    ensures AtLevel(sp1, root, t1, lost1, Vpn(virt), l - 1, Below(sp1.mem, table, Index(virt, l)))
    ensures lost1 <==> Need(t.Keys, Path(Vpn(virt), l - 1)) > sp.Free()
    ensures forall k: nat :: 1 <= k < l - 1 ==> (Path(Vpn(virt), k) in t <==> Path(Vpn(virt), k) in t1)
    ensures !lost1 ==>
              && Extends(sp.mem, t, sp1.mem, t1) && Grew(t, sp.used, t1, sp1.used)
              && (forall s :: s in t1 <==> s in t || s == Path(Vpn(virt), l - 1))
              && sp1.Free() == sp.Free() - Need(t.Keys, Path(Vpn(virt), l - 1)) && sp1.pages == sp.pages
              && Path(Vpn(virt), l) in t
              && (Has(flags, USER) ==> Has(UpperEntry(sp1.mem, t1, Vpn(virt), l), USER))
  {
    sp1 := Enter(sp, table, Index(virt, l), flags);
    DrawFrame(sp, sp1.mem);
    var c := Path(Vpn(virt), l - 1);
    if c in t {
      ExistingStep(sp, root, t, virt, l, table, flags);
      return sp1, t, false;
    } else if sp.Free() > 0 {
      NewStep(sp, root, t, virt, l, table, flags);
      return sp1, t[c := sp.Frame()], false;
    } else {
      FailingStep(sp, root, t, virt, l, table, flags);
      return sp1, t, true;
    }
  }

  /** One step and the rest of the walk make the whole walk. */
  lemma WalkedOn(sp: Space, t: Tables, sp1: Space, t1: Tables, sp': Space, t': Tables, vpn: nat, l: nat, k: nat,
                 flags: nat)
    requires 2 <= l <= 4 && k == l - 1 && Walked(sp1, t1, sp', t', vpn, k, flags)
    requires Extends(sp.mem, t, sp1.mem, t1) && Grew(t, sp.used, t1, sp1.used)
    requires forall s :: s in t1 <==> s in t || s == Path(vpn, k)
    requires sp1.Free() == sp.Free() - Need(t.Keys, Path(vpn, k)) && sp1.pages == sp.pages
    requires Path(vpn, l) in t
    requires Has(flags, USER) ==> Has(UpperEntry(sp1.mem, t1, vpn, l), USER)
    ensures Walked(sp, t, sp', t', vpn, l, flags)
  {
    ExtendsTransitive(sp.mem, t, sp1.mem, t1, sp'.mem, t');
    GrewTransitive(t, sp.used, t1, sp1.used, t', sp'.used);
    MissingSame(t, t1, vpn, k);
    PathChild(vpn, l);
    if Has(flags, USER) {
      forall j: nat | 2 <= j <= l
        ensures Has(UpperEntry(sp'.mem, t', vpn, j), USER)
      {
        if j == l {
          assert Has(UpperEntry(sp1.mem, t1, vpn, l), USER);
        }
      }
    }
  }

  // ---------- vmm_map ----------

  /** What vmm_map does to the flat map: the page gets the entry and no other page changes; tables stay
      where they are, and the missing ones are made in frames that were free. */
  ghost predicate Mapped(sp: Space, t: Tables, sp': Space, t': Tables, root: nat, vpn: nat, e: nat) {
    && Tree(sp'.mem, root, t', sp'.used)
    && Leaf(sp'.mem, t', vpn) == e
    && (forall v: nat :: v != vpn ==> Leaf(sp'.mem, t', v) == Leaf(sp.mem, t, v))
    && (forall s :: s in t ==> s in t' && t'[s] == t[s])
    && (forall s :: s in t' <==> s in t || (1 <= s.level < 4 && s == Path(vpn, s.level)))
    && Grew(t, sp.used, t', sp'.used)
    && sp'.Free() == sp.Free() - Missing(t.Keys, vpn, 4) && sp'.pages == sp.pages
  }

  /** vmm_map keeps the tables a tree exactly when there are as many free frames as missing tables,
      and then it updates the flat map.  User access stays closed upwards unless the physical address
      has a USER bit that the flags do not have. */
  lemma MapCorrect(sp: Space, root: nat, t: Tables, virt: nat, phys: nat, flags: nat) returns (t': Tables)
    requires Tree(sp.mem, root, t, sp.used) && UserClosed(sp.mem, t)
    requires 0 in sp.used && sp.pages <= 0x100_0000_0000
    ensures var sp' := MapPage(sp, root, virt, phys, flags);
            && (IsTree(sp'.mem, root) <==> Missing(t.Keys, Vpn(virt), 4) <= sp.Free())
            && (Missing(t.Keys, Vpn(virt), 4) <= sp.Free() ==>
                  && Mapped(sp, t, sp', t', root, Vpn(virt), Or(phys, flags))
                  && ((Has(phys, USER) ==> Has(flags, USER)) ==> UserClosed(sp'.mem, t')))
            && (Missing(t.Keys, Vpn(virt), 4) > sp.Free() ==> sp'.Free() == 0)
  {
    var sp' := MapPage(sp, root, virt, phys, flags);
    if Missing(t.Keys, Vpn(virt), 4) <= sp.Free() {
      t' := MapInTree(sp, root, t, virt, phys, flags);
      assert Tree(sp'.mem, root, t', sp'.used);
    } else {
      t' := t;
      MapLost(sp, root, t, virt, phys, flags);
    }
  }

  lemma MapInTree(sp: Space, root: nat, t: Tables, virt: nat, phys: nat, flags: nat) returns (t': Tables)
    requires Tree(sp.mem, root, t, sp.used) && UserClosed(sp.mem, t)
    requires 0 in sp.used && sp.pages <= 0x100_0000_0000
    requires Missing(t.Keys, Vpn(virt), 4) <= sp.Free()
    ensures var sp' := MapPage(sp, root, virt, phys, flags);
            && Mapped(sp, t, sp', t', root, Vpn(virt), Or(phys, flags))
            && ((Has(phys, USER) ==> Has(flags, USER)) ==> UserClosed(sp'.mem, t'))
  {
    PathRoot(virt);
    var lost;
    t', lost := WalkCorrect(sp, root, t, false, virt, 4, root, flags);
    var r := WalkDown(sp, root, virt, 4, flags);
    IndexPath(virt, 1);
    var sp' := MapPage(sp, root, virt, phys, flags);
    MapTree(sp, root, t, r.sp, t', Vpn(virt), r.table, Or(phys, flags), flags, sp');
    if Has(phys, USER) ==> Has(flags, USER) {
      MapUserClosed(sp, root, t, r.sp, t', Vpn(virt), r.table, phys, flags);
    }
  }

  lemma MapLost(sp: Space, root: nat, t: Tables, virt: nat, phys: nat, flags: nat)
    requires Tree(sp.mem, root, t, sp.used)
    requires 0 in sp.used && sp.pages <= 0x100_0000_0000
    requires Missing(t.Keys, Vpn(virt), 4) > sp.Free()
    ensures var sp' := MapPage(sp, root, virt, phys, flags);
            && sp'.Free() == 0 && sp'.pages == sp.pages && sp.used <= sp'.used
            && !IsTree(sp'.mem, root)
  {
    PathRoot(virt);
    var t', lost := WalkCorrect(sp, root, t, false, virt, 4, root, flags);
    WalkPages(sp, root, virt, 4, flags);
    var r := WalkDown(sp, root, virt, 4, flags);
    StoreLost(r.sp, root, t', Index(virt, 1), Or(phys, flags));
  }

  /** No step ever gives a frame back. */
  lemma {:induction false} WalkPages(sp: Space, table: nat, virt: nat, l: nat, flags: nat)
    ensures var r := WalkDown(sp, table, virt, l, flags);
            r.sp.pages == sp.pages && sp.used <= r.sp.used
    decreases l
  {
    if l > 1 {
      var sp' := Enter(sp, table, Index(virt, l), flags);
      WalkPages(sp', Below(sp'.mem, table, Index(virt, l)), virt, l - 1, flags);
    }
  }

  lemma StoreLost(sp: Space, root: nat, t: Tables, i: nat, e: nat)
    requires Lost(sp, root, t, 0) && i < 512
    ensures !IsTree(Store(sp.mem, 0, i, e), root)
  {
    var mem' := Store(sp.mem, 0, i, e);
    StillLost(sp.mem, root, t, mem');
    if IsTree(mem', root) {
      var t2: Tables, used2: set<nat> :| Tree(mem', root, t2, used2);
      NoTree(mem', root, t, t2, used2);
    }
  }

  lemma MapTree(sp: Space, root: nat, t: Tables, sp3: Space, t': Tables, vpn: nat, table: nat, e: nat, flags: nat,
                sp': Space)
    requires Tree(sp.mem, root, t, sp.used)
    requires Walked(sp, t, sp3, t', vpn, 4, flags) && AtLevel(sp3, root, t', false, vpn, 1, table)
    requires sp' == sp3.(mem := Store(sp3.mem, table, IndexOf(vpn, 1), e))
    ensures Mapped(sp, t, sp', t', root, vpn, e)
  {
    SetLeaf(sp3.mem, root, t', sp3.used, vpn, e);
  }

  lemma MapUserClosed(sp: Space, root: nat, t: Tables, sp3: Space, t': Tables, vpn: nat, table: nat, phys: nat,
                      flags: nat)
    requires Tree(sp.mem, root, t, sp.used) && UserClosed(sp.mem, t) && (Has(phys, USER) ==> Has(flags, USER))
    requires Walked(sp, t, sp3, t', vpn, 4, flags) && AtLevel(sp3, root, t', false, vpn, 1, table)
    ensures UserClosed(Store(sp3.mem, table, IndexOf(vpn, 1), Or(phys, flags)), t')
  {
    ExtendsUserClosed(sp.mem, root, t, sp.used, sp3.mem, t');
    OrFlags(phys, flags, USER);
    LeafUserClosed(sp3.mem, root, t', sp3.used, vpn, Or(phys, flags));
  }

  /** Writing a leaf keeps user access closed upwards if the path is open to user code or the leaf is not. */
  lemma LeafUserClosed(mem: Memory, root: nat, t: Tables, used: set<nat>, vpn: nat, e: nat)
    requires Tree(mem, root, t, used) && UserClosed(mem, t) && Path(vpn, 1) in t
    requires Has(e, USER) ==> forall l: nat :: 2 <= l <= 4 ==> Has(UpperEntry(mem, t, vpn, l), USER)
    ensures UserClosed(Store(mem, t[Path(vpn, 1)], IndexOf(vpn, 1), e), t)
  {
    var mem' := Store(mem, t[Path(vpn, 1)], IndexOf(vpn, 1), e);
    SetLeaf(mem, root, t, used, vpn, e);
    ZeroEntry(PRESENT);
    forall v: nat, l: nat | v < 0x10_0000_0000 && 2 <= l <= 4
      && Has(Leaf(mem', t, v), PRESENT) && Has(Leaf(mem', t, v), USER)
      ensures Has(UpperEntry(mem', t, v, l), USER)
    {
      FullPath(mem, root, t, used, v);
      assert UpperEntry(mem', t, v, l) == UpperEntry(mem, t, v, l);
    }
  }

  // ---------- vmm_unmap and vmm_get_phys ----------

  datatype Lookup = NotFound | Found(table: nat)

  /** The walk of vmm_unmap and vmm_get_phys, which give up at the first missing table */
  function FindDown(mem: Memory, table: nat, virt: nat, l: nat): Lookup
    decreases l
  {
    if l <= 1 then Found(table)
    else if !Has(Word(mem, table, Index(virt, l)), PRESENT) then NotFound
    else FindDown(mem, Below(mem, table, Index(virt, l)), virt, l - 1)
  }

  function UnmapPage(mem: Memory, root: nat, virt: nat): Memory {
    match FindDown(mem, root, virt, 4)
    case NotFound => mem
    case Found(table) => Store(mem, table, Index(virt, 1), 0)
  }

  /** Where an address goes under a leaf entry; 0 if the entry is not present */
  function Translate(e: nat, virt: nat): nat {
    if Has(e, PRESENT) then Or(FrameOf(e) * 4096, Low(virt, 12)) else 0
  }

  function PhysOf(mem: Memory, root: nat, virt: nat): nat {
    match FindDown(mem, root, virt, 4)
    case NotFound => 0
    case Found(table) => Translate(Word(mem, table, Index(virt, 1)), virt)
  }

  lemma {:induction false} FindCorrect(sp: Space, root: nat, t: Tables, virt: nat, l: nat, table: nat)
    requires 1 <= l <= 4 && AtLevel(sp, root, t, false, Vpn(virt), l, table)
    ensures FindDown(sp.mem, table, virt, l)
         == if Path(Vpn(virt), 1) in t then Found(t[Path(Vpn(virt), 1)]) else NotFound
    decreases l
  {
    if l > 1 {
      Presence(sp, root, t, virt, l, table);
      if Path(Vpn(virt), l - 1) in t {
        FindCorrect(sp, root, t, virt, l - 1, Below(sp.mem, table, Index(virt, l)));
      } else {
        PathGone(t, root, Vpn(virt), l - 1);
      }
    }
  }

  lemma {:induction false} PathGone(t: Tables, root: nat, vpn: nat, l: nat)
    requires Rooted(t, root) && 1 <= l < 4 && Path(vpn, l) !in t
    ensures Path(vpn, 1) !in t
    decreases l
  {
    if l > 1 {
      PathChild(vpn, l);
      PathGone(t, root, vpn, l - 1);
    }
  }

  /** vmm_unmap clears the page in the flat map and changes no other page. */
  lemma UnmapCorrect(sp: Space, root: nat, t: Tables, virt: nat)
    requires Tree(sp.mem, root, t, sp.used) && UserClosed(sp.mem, t)
    requires 0 in sp.used && sp.pages <= 0x100_0000_0000
    ensures var mem' := UnmapPage(sp.mem, root, virt);
            && Tree(mem', root, t, sp.used) && UserClosed(mem', t)
            && Leaf(mem', t, Vpn(virt)) == 0
            && (forall v: nat :: v != Vpn(virt) ==> Leaf(mem', t, v) == Leaf(sp.mem, t, v))
  {
    PathRoot(virt);
    FindCorrect(sp, root, t, virt, 4, root);
    IndexPath(virt, 1);
    if Path(Vpn(virt), 1) in t {
      SetLeaf(sp.mem, root, t, sp.used, Vpn(virt), 0);
      ZeroEntry(USER);
      LeafUserClosed(sp.mem, root, t, sp.used, Vpn(virt), 0);
    }
  }

  /** vmm_get_phys reads the flat map. */
  lemma GetPhysCorrect(sp: Space, root: nat, t: Tables, virt: nat)
    requires Tree(sp.mem, root, t, sp.used) && 0 in sp.used && sp.pages <= 0x100_0000_0000
    ensures PhysOf(sp.mem, root, virt) == Translate(Leaf(sp.mem, t, Vpn(virt)), virt)
  {
    PathRoot(virt);
    FindCorrect(sp, root, t, virt, 4, root);
    IndexPath(virt, 1);
    ZeroEntry(PRESENT);
  }

  /** An entry made from a frame's address and low flags has that frame and those flags. */
  lemma LeafOfFrame(frame: nat, flags: nat)
    requires frame < 0x100_0000_0000 && flags < 4096
    ensures FrameOf(Or(frame * 4096, flags)) == frame
    ensures forall f: Flag :: Has(Or(frame * 4096, flags), f) <==> Has(flags, f)
  {
    OrFrame(frame * 4096, flags);
    AlignedFrame(frame);
    forall f: Flag
      ensures Has(Or(frame * 4096, flags), f) <==> Has(flags, f)
    {
      OrFlags(frame * 4096, flags, f);
      AlignedHasNoFlags(frame, f);
    }
  }

  lemma OffsetOr(frame: nat, offset: nat)
    requires offset < 4096
    ensures Or(frame * 4096, offset) == frame * 4096 + offset
  {
    var a := frame * 4096;
    Shr12(offset);
    AlignedLow(frame, a);
    OrDisjoint(a, offset, 12);
  }

  lemma AlignedLow(frame: nat, a: nat)
    requires a == frame * 4096
    ensures Low(a, 12) == 0
  {
    assert a % 4096 == 0;
    LowMod(a, 12, 4096);
  }

  /** Mapping a page and then translating any address with vmm_get_phys: addresses on the page go to
      phys plus their offset, and every other address goes where it went before. */
  lemma MapThenGetPhys(sp: Space, root: nat, t: Tables, virt: nat, phys: nat, flags: nat, other: nat)
    requires Tree(sp.mem, root, t, sp.used) && UserClosed(sp.mem, t)
    requires 0 in sp.used && sp.pages <= 0x100_0000_0000
    requires Missing(t.Keys, Vpn(virt), 4) <= sp.Free()
    requires phys % 4096 == 0 && phys < 0x10_0000_0000_0000 && flags < 4096 && Has(flags, PRESENT)
    ensures PhysOf(MapPage(sp, root, virt, phys, flags).mem, root, other)
         == if Vpn(other) == Vpn(virt) then phys + other % 4096 else PhysOf(sp.mem, root, other)
  {
    var t' := MapLeaves(sp, root, t, virt, phys, flags, Vpn(other));
    GetPhysCorrect(sp, root, t, other);
    GetPhysCorrect(MapPage(sp, root, virt, phys, flags), root, t', other);
    TranslateMapped(phys, flags, other);
  }

  lemma MapLeaves(sp: Space, root: nat, t: Tables, virt: nat, phys: nat, flags: nat, v: nat) returns (t': Tables)
    requires Tree(sp.mem, root, t, sp.used) && UserClosed(sp.mem, t)
    requires 0 in sp.used && sp.pages <= 0x100_0000_0000
    requires Missing(t.Keys, Vpn(virt), 4) <= sp.Free()
    ensures var sp' := MapPage(sp, root, virt, phys, flags);
            && Tree(sp'.mem, root, t', sp'.used) && 0 in sp'.used && sp'.pages <= 0x100_0000_0000
            && Leaf(sp'.mem, t', v) == if v == Vpn(virt) then Or(phys, flags) else Leaf(sp.mem, t, v)
  {
    t' := MapInTree(sp, root, t, virt, phys, flags);
  }

  lemma TranslateMapped(phys: nat, flags: nat, other: nat)
    requires phys % 4096 == 0 && phys < 0x10_0000_0000_0000 && flags < 4096 && Has(flags, PRESENT)
    ensures Translate(Or(phys, flags), other) == phys + other % 4096
  {
    var frame := phys / 4096;
    assert phys == frame * 4096;
    LeafOfFrame(frame, flags);
    Shr12(other);
    OffsetOr(frame, other % 4096);
  }

  /** Unmapping a page and then translating: the page is gone, every other address goes where it went. */
  lemma UnmapThenGetPhys(sp: Space, root: nat, t: Tables, virt: nat, other: nat)
    requires Tree(sp.mem, root, t, sp.used) && UserClosed(sp.mem, t)
    requires 0 in sp.used && sp.pages <= 0x100_0000_0000
    ensures PhysOf(UnmapPage(sp.mem, root, virt), root, other)
         == if Vpn(other) == Vpn(virt) then 0 else PhysOf(sp.mem, root, other)
  {
    UnmapCorrect(sp, root, t, virt);
    GetPhysCorrect(sp, root, t, other);
    GetPhysCorrect(sp.(mem := UnmapPage(sp.mem, root, virt)), root, t, other);
    ZeroEntry(PRESENT);
  }
}
