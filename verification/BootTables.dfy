/** setup_page_tables: the page tables the kernel starts with, which identity-map the first 8 MiB. */
module BootTables {
  import opened Bits
  import opened PageTable

  /** The frames of page_table_l4, page_table_l3, page_table_l2 and page_table_l1_0 to page_table_l1_3 */
  datatype Layout = Layout(l4: nat, l3: nat, l2: nat, l1: seq<nat>) {
    ghost predicate Valid() {
      && |l1| == 4
      && 0 < l4 < 0x10_0000 && 0 < l3 < 0x10_0000 && 0 < l2 < 0x10_0000
      && (forall n :: 0 <= n < 4 ==> 0 < l1[n] < 0x10_0000 && l1[n] != l4 && l1[n] != l3 && l1[n] != l2)
      && l4 != l3 && l4 != l2 && l3 != l2
      && (forall m, n :: 0 <= m < n < 4 ==> l1[m] != l1[n])
    }

    /** The slots of the seven tables */
    static predicate IsSlot(s: Slot) {
      if s.level == 1 then s.prefix < 4 else 2 <= s.level <= 4 && s.prefix == 0
    }

    ghost function Place(s: Slot): nat
      requires |l1| == 4
    {
      if s.level == 4 then l4 else if s.level == 3 then l3 else if s.level == 2 then l2
      else if s.prefix < 4 then l1[s.prefix] else 0
    }

    /** Which frame holds which table */
    ghost function Map(): (t: Tables)
      requires |l1| == 4
      ensures forall s :: s in t <==> IsSlot(s)
      ensures forall s :: s in t ==> t[s] == Place(s)
    {
      var slots := {ROOT, Slot(3, 0), Slot(2, 0), Slot(1, 0), Slot(1, 1), Slot(1, 2), Slot(1, 3)};
      map s | s in slots :: Place(s)
    }
  }

  /** What the upper tables hold: entry 0 of levels 4 and 3, entries 0 to 3 of level 2 */
  ghost function Upper(b: Layout, frame: nat, i: nat): nat
    requires |b.l1| == 4
  {
    if frame == b.l4 && i == 0 then TableEntry(b.l3)
    else if frame == b.l3 && i == 0 then TableEntry(b.l2)
    else if frame == b.l2 && i < 4 then TableEntry(b.l1[i])
    else 0
  }

  ghost predicate UpperSet(mem: Memory, b: Layout)
    requires |b.l1| == 4
  {
    forall f: nat, i: nat :: i < 512 && (f == b.l4 || f == b.l3 || f == b.l2) ==> Word(mem, f, i) == Upper(b, f, i)
  }

  /** The level-1 tables hold the entries of the pages below done. */
  ghost predicate LowerSet(mem: Memory, b: Layout, done: nat)
    requires |b.l1| == 4
  {
    forall n: nat, i: nat :: n < 4 && i < 512 ==>
      Word(mem, b.l1[n], i) == if 512 * n + i < done then TableEntry(512 * n + i) else 0
  }

  method SetupPageTables(boot: Memory, b: Layout) returns (mem: Memory)
    requires b.Valid()
    requires forall f: nat, i: nat ::
               i < 512 && (f == b.l4 || f == b.l3 || f == b.l2 || f in b.l1) ==> Word(boot, f, i) == 0
    ensures UpperSet(mem, b) && LowerSet(mem, b, 2048)
  {
    mem := SetupUpper(boot, b);
    var ecx := 0;
    while ecx != 2048
      invariant 0 <= ecx <= 2048
      invariant UpperSet(mem, b) && LowerSet(mem, b, ecx)
      decreases 2048 - ecx
    {
      var eax := TableEntry(ecx);  // 0x1000 * ecx | 0b11
      if ecx < 512 {
        NextPage(mem, b, 0, ecx);
        mem := Store(mem, b.l1[0], ecx, eax);
      } else if ecx < 1024 {
        NextPage(mem, b, 1, ecx);
        mem := Store(mem, b.l1[1], ecx - 512, eax);
      } else if ecx < 1536 {
        NextPage(mem, b, 2, ecx);
        mem := Store(mem, b.l1[2], ecx - 1024, eax);
      } else {
        NextPage(mem, b, 3, ecx);
        mem := Store(mem, b.l1[3], ecx - 1536, eax);
      }
      ecx := ecx + 1;
    }
  }

  method SetupUpper(boot: Memory, b: Layout) returns (mem: Memory)
    requires b.Valid()
    requires forall f: nat, i: nat ::
               i < 512 && (f == b.l4 || f == b.l3 || f == b.l2 || f in b.l1) ==> Word(boot, f, i) == 0
    ensures UpperSet(mem, b) && LowerSet(mem, b, 0)
  {
    StoreWord(boot, b.l4, 0, TableEntry(b.l3));
    mem := Store(boot, b.l4, 0, TableEntry(b.l3));
    StoreWord(mem, b.l3, 0, TableEntry(b.l2));
    mem := Store(mem, b.l3, 0, TableEntry(b.l2));
    StoreWord(mem, b.l2, 0, TableEntry(b.l1[0]));
    mem := Store(mem, b.l2, 0, TableEntry(b.l1[0]));
    StoreWord(mem, b.l2, 1, TableEntry(b.l1[1]));
    mem := Store(mem, b.l2, 1, TableEntry(b.l1[1]));
    StoreWord(mem, b.l2, 2, TableEntry(b.l1[2]));
    mem := Store(mem, b.l2, 2, TableEntry(b.l1[2]));
    StoreWord(mem, b.l2, 3, TableEntry(b.l1[3]));
    mem := Store(mem, b.l2, 3, TableEntry(b.l1[3]));
  }

  lemma NextPage(mem: Memory, b: Layout, n: nat, page: nat)
    requires b.Valid() && n < 4 && 512 * n <= page < 512 * n + 512
    requires UpperSet(mem, b) && LowerSet(mem, b, page)
    ensures var mem' := Store(mem, b.l1[n], page - 512 * n, TableEntry(page));
            UpperSet(mem', b) && LowerSet(mem', b, page + 1)
  {
    StoreWord(mem, b.l1[n], page - 512 * n, TableEntry(page));
    var mem' := Store(mem, b.l1[n], page - 512 * n, TableEntry(page));
    forall m: nat, i: nat | m < 4 && i < 512
      ensures Word(mem', b.l1[m], i) == if 512 * m + i < page + 1 then TableEntry(512 * m + i) else 0
    {
      if m != n {
        assert 512 * m + i != page;
      }
    }
  }

  /** The boot tables are a tree that maps the first 2048 pages to themselves, writable and closed to
      user code, and nothing else: the state from which runs of vmm_map and vmm_unmap start. */
  lemma BootTree(mem: Memory, b: Layout, used: set<nat>)
    requires b.Valid() && UpperSet(mem, b) && LowerSet(mem, b, 2048)
    requires {b.l4, b.l3, b.l2, b.l1[0], b.l1[1], b.l1[2], b.l1[3]} <= used
    ensures Tree(mem, b.l4, b.Map(), used) && UserClosed(mem, b.Map())
    ensures forall vpn: nat :: Leaf(mem, b.Map(), vpn) == if vpn < 2048 then TableEntry(vpn) else 0
  {
    var t := b.Map();
    BootOwned(b, used);
    BootRooted(b);
    BootLinks(mem, b);
    forall vpn: nat
      ensures Leaf(mem, t, vpn) == if vpn < 2048 then TableEntry(vpn) else 0
      ensures !(Has(Leaf(mem, t, vpn), PRESENT) && Has(Leaf(mem, t, vpn), USER))
    {
      BootLeaf(mem, b, vpn);
      ZeroEntry(USER);
      if vpn < 2048 {
        TableEntryFields(vpn);
      }
    }
  }

  lemma BootOwned(b: Layout, used: set<nat>)
    requires b.Valid()
    requires {b.l4, b.l3, b.l2, b.l1[0], b.l1[1], b.l1[2], b.l1[3]} <= used
    ensures Owned(b.Map(), used)
  {
    var t := b.Map();
    forall s | s in t
      ensures 1 <= s.level <= 4 && t[s] in used && t[s] != 0
    {
      BootPlace(b, used, s);
    }
    forall s, s' | s in t && s' in t && t[s] == t[s']
      ensures s == s'
    {
      Distinct(b, s, s');
    }
  }

  lemma BootPlace(b: Layout, used: set<nat>, s: Slot)
    requires b.Valid() && Layout.IsSlot(s)
    requires {b.l4, b.l3, b.l2, b.l1[0], b.l1[1], b.l1[2], b.l1[3]} <= used
    ensures 1 <= s.level <= 4 && b.Place(s) in used && b.Place(s) != 0
  {
  }

  lemma BootRooted(b: Layout)
    requires b.Valid()
    ensures Rooted(b.Map(), b.l4)
  {
    BootParents(b);
  }

  lemma BootParents(b: Layout)
    requires b.Valid()
    ensures forall s :: s in b.Map() && s.level < 4 ==> Parent(s) in b.Map()
  {
    forall s | s in b.Map() && s.level < 4
      ensures Parent(s) in b.Map()
    {
      Shr9(s.prefix);
    }
  }

  lemma Distinct(b: Layout, s: Slot, s': Slot)
    requires b.Valid() && Layout.IsSlot(s) && Layout.IsSlot(s') && b.Place(s) == b.Place(s')
    ensures s == s'
  {
    assert forall m, n :: 0 <= m < 4 && 0 <= n < 4 && b.l1[m] == b.l1[n] ==> m == n;
  }

  lemma BootLeaf(mem: Memory, b: Layout, vpn: nat)
    requires b.Valid() && LowerSet(mem, b, 2048)
    ensures Leaf(mem, b.Map(), vpn) == if vpn < 2048 then TableEntry(vpn) else 0
  {
    Shr9(vpn);
    var n, i := vpn / 512, vpn % 512;
    assert Shr(vpn, 9 * (1 - 1)) == vpn;
    assert Path(vpn, 1) == Slot(1, n) && IndexOf(vpn, 1) == i;
    if n < 4 {
      assert b.Map()[Slot(1, n)] == b.l1[n];
      assert 512 * n + i == vpn;
      assert Word(mem, b.l1[n], i) == TableEntry(512 * n + i);
    }
  }

  lemma BootLinks(mem: Memory, b: Layout)
    requires b.Valid() && UpperSet(mem, b)
    ensures Linked(mem, b.Map())
  {
    var t := b.Map();
    forall s, i: nat | s in t && s.level > 1 && i < 512
      ensures Has(Entry(mem, t, s, i), PRESENT) <==> Child(s, i) in t
      ensures Child(s, i) in t ==>
                FrameOf(Entry(mem, t, s, i)) == t[Child(s, i)] && Has(Entry(mem, t, s, i), WRITABLE)
    {
      BootLink(mem, b, s, i);
    }
  }

  lemma BootLink(mem: Memory, b: Layout, s: Slot, i: nat)
    requires b.Valid() && UpperSet(mem, b) && s in b.Map() && s.level > 1 && i < 512
    ensures var t := b.Map();
            && (Has(Entry(mem, t, s, i), PRESENT) <==> Child(s, i) in t)
            && (Child(s, i) in t ==>
                  FrameOf(Entry(mem, t, s, i)) == t[Child(s, i)] && Has(Entry(mem, t, s, i), WRITABLE))
  {
    var t := b.Map();
    ZeroEntry(PRESENT);
    assert Entry(mem, t, s, i) == Upper(b, t[s], i);
    if Child(s, i) in t {
      TableEntryFields(t[Child(s, i)]);
      assert Upper(b, t[s], i) == TableEntry(t[Child(s, i)]);
    }
  }
}
