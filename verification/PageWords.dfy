/** Page-table entries and addresses as the numbers they are: which bits vmm.h and vmm.c read and write.  Nothing here
    is stated through flags, slots or shifts. */
module PageWords {
  import opened Bits
  import opened PageTable

  // ---------- flags and fields ----------

  /** VMM_PRESENT, VMM_WRITABLE and VMM_USER are 1, 2 and 4. */
  lemma FlagWords(e: nat)
    ensures PRESENT.Mask() == 1 && WRITABLE.Mask() == 2 && USER.Mask() == 4
    ensures Has(e, PRESENT) <==> e % 2 == 1
    ensures Has(e, WRITABLE) <==> e / 2 % 2 == 1
    ensures Has(e, USER) <==> e / 4 % 2 == 1
  {
    assert Shl(1, 0) == 1 && Shl(1, 1) == 2 && Shl(1, 2) == 4;
    ShrTwo(e);
  }

  lemma ShrTwo(e: nat)
    ensures Shr(e, 0) == e && Shr(e, 1) == e / 2 && Shr(e, 2) == e / 4
  {
    assert Shr(e, 1) == Shr(e / 2, 0);
    assert Shr(e, 2) == Shr(e / 2, 1) == Shr(e / 2 / 2, 0);
    assert e / 2 / 2 == e / 4;
  }

  /** Bits 12 to 51 */
  lemma FrameWord(e: nat)
    ensures FrameOf(e) == e / 4096 % 0x100_0000_0000
  {
    Shr12(e);
    Shl40();
    LowMod(e / 4096, 40, 0x100_0000_0000);
  }

  /** What make_table returns: the address of the table, present and writable, closed to user code */
  lemma TableEntryWord(frame: nat)
    ensures TableEntry(frame) == frame * 4096 + 3
  {
    var a := frame * 4096;
    FlagWords(a);
    OffsetOr(frame, 1);
    assert a + 1 == Or(a, 1);
    OrTwo(a + 1);
  }

  lemma OrTwo(e: nat)
    ensures Or(e, 2) == if e / 2 % 2 == 1 then e else e + 2
  {
    OrOne(e / 2);
    assert Or(e, 2) == 2 * Or(e / 2, 1) + e % 2;
  }

  lemma OrOne(e: nat)
    ensures Or(e, 1) == if e % 2 == 1 then e else e + 1
  {
    assert Or(e, 1) == 2 * Or(e / 2, 0) + 1;
  }

  /** Bit 2 set */
  function Opened(e: nat): nat {
    if e / 4 % 2 == 1 then e else e + 4
  }

  lemma OrFour(e: nat)
    ensures Or(e, 4) == Opened(e)
  {
    OrTwo(e / 2);
    assert Or(e, 4) == 2 * Or(e / 2, 2) + e % 2;
    assert e / 2 / 2 == e / 4;
  }

  // ---------- addresses ----------

  lemma {:induction false} ShrDiv(a: nat, k: nat, p: nat)
    requires p == Shl(1, k)
    ensures p > 0 && Shr(a, k) == a / p
  {
    LowMod(a, k, p);
    SplitAt(a, k);
    ShlMul(Shr(a, k), k);
    DivUnique(a, p, Shr(a, k), Low(a, k));
  }

  lemma Powers()
    ensures Shl(1, 9) == 0x200 && Shl(1, 12) == 0x1000 && Shl(1, 21) == 0x20_0000
    ensures Shl(1, 30) == 0x4000_0000 && Shl(1, 36) == 0x10_0000_0000 && Shl(1, 39) == 0x80_0000_0000
  {
    assert Shl(1, 9) == 0x200;
    assert Shl(1, 12) == 0x1000;
    assert Shl(1, 21) == 0x20_0000;
    assert Shl(1, 30) == 0x4000_0000;
    assert Shl(1, 36) == 0x10_0000_0000;
    assert Shl(1, 39) == 0x80_0000_0000;
  }

  lemma IndexWord(virt: nat, l: nat, k: nat, p: nat)
    requires k == 9 * l + 3 && p == Shl(1, k)
    ensures p > 0 && Index(virt, l) == virt / p % 512
  {
    ShrDiv(virt, k, p);
    Shr9(Shr(virt, k));
  }

  /** The four indices are bits 39 to 47, 30 to 38, 21 to 29 and 12 to 20. */
  lemma IndexWords(virt: nat)
    ensures Index(virt, 4) == virt / 0x80_0000_0000 % 512
    ensures Index(virt, 3) == virt / 0x4000_0000 % 512
    ensures Index(virt, 2) == virt / 0x20_0000 % 512
    ensures Index(virt, 1) == virt / 0x1000 % 512
  {
    Powers();
    IndexWord(virt, 4, 39, 0x80_0000_0000);
    IndexWord(virt, 3, 30, 0x4000_0000);
    IndexWord(virt, 2, 21, 0x20_0000);
    IndexWord(virt, 1, 12, 0x1000);
  }

  /** The page of an address: bits 12 to 47 */
  lemma VpnWord(virt: nat)
    ensures Vpn(virt) == virt / 0x1000 % 0x10_0000_0000
  {
    Powers();
    Shr12(virt);
    LowMod(virt / 0x1000, 36, 0x10_0000_0000);
  }

  /** What vmm_get_phys makes of the last entry */
  lemma TranslateWord(e: nat, virt: nat)
    ensures Translate(e, virt) ==
            if e % 2 == 1 then e / 4096 % 0x100_0000_0000 * 4096 + virt % 4096 else 0
  {
    FlagWords(e);
    FrameWord(e);
    Shr12(virt);
    OffsetOr(FrameOf(e), virt % 4096);
  }

  /** vmm_get_phys in numbers: the address bits of the page's entry and the offset, if the entry is odd */
  lemma GetPhysWord(sp: Space, root: nat, t: Tables, virt: nat)
    requires Tree(sp.mem, root, t, sp.used) && 0 in sp.used && sp.pages <= 0x100_0000_0000
    ensures var e := Leaf(sp.mem, t, virt / 0x1000 % 0x10_0000_0000);
            PhysOf(sp.mem, root, virt) ==
            if e % 2 == 1 then e / 4096 % 0x100_0000_0000 * 4096 + virt % 4096 else 0
  {
    VpnWord(virt);
    GetPhysCorrect(sp, root, t, virt);
    TranslateWord(Leaf(sp.mem, t, Vpn(virt)), virt);
  }

  // ---------- what vmm_map writes above the last level ----------

  /** Entry i of table s is on the way to the page. */
  predicate OnPath(vpn: nat, s: Slot, i: nat) {
    s.level > 0 && s == Path(vpn, s.level) && i == IndexOf(vpn, s.level)
  }

  /** An entry on the way: the one there was, or the link to the new table; opened to user code if the flags ask */
  ghost function Linking(mem: Memory, t: Tables, t': Tables, flags: nat, s: Slot, i: nat): nat
    requires s.level > 0
  {
    var e := if Child(s, i) in t then Entry(mem, t, s, i)
             else if Child(s, i) in t' then t'[Child(s, i)] * 4096 + 3 else 0;
    if flags / 4 % 2 == 1 then Opened(e) else e
  }

  /** The upper entries after the part of the walk from level l down: those on the way down from there are as Linking
      says, all others as they were; new tables are clear otherwise. */
  ghost predicate UpperFrom(mem: Memory, t: Tables, mem': Memory, t': Tables, flags: nat, vpn: nat, l: nat) {
    forall s, i: nat :: s in t' && s.level > 1 && i < 512 ==>
      Entry(mem', t', s, i) ==
      if OnPath(vpn, s, i) && s.level <= l then Linking(mem, t, t', flags, s, i) else Entry(mem, t, s, i)
  }

  lemma GrantWord(mem: Memory, t: Tables, used: set<nat>, s: Slot, i: nat, flags: nat)
    requires Owned(t, used) && s in t && i < 512
    ensures var mem' := Grant(mem, t[s], i, flags);
            && Entry(mem', t, s, i) == (if flags / 4 % 2 == 1 then Opened(Entry(mem, t, s, i)) else Entry(mem, t, s, i))
            && forall s', i': nat :: s' != s || i' != i ==> Entry(mem', t, s', i') == Entry(mem, t, s', i')
  {
    FlagWords(flags);
    OrFour(Word(mem, t[s], i));
    EntriesAfterStore(mem, t, used, s, i, Or(Word(mem, t[s], i), 4));
  }

  /** One level of the walk writes one entry, and clears the table it makes. */
  lemma EnterWord(sp: Space, root: nat, t: Tables, virt: nat, l: nat, table: nat, flags: nat) returns (t1: Tables)
    requires 2 <= l <= 4 && AtLevel(sp, root, t, false, Vpn(virt), l, table)
    requires Need(t.Keys, Path(Vpn(virt), l - 1)) <= sp.Free()
    ensures var sp1 := Enter(sp, table, Index(virt, l), flags);
            && AtLevel(sp1, root, t1, false, Vpn(virt), l - 1, Below(sp1.mem, table, Index(virt, l)))
            && (forall s :: s in t1 <==> s in t || s == Path(Vpn(virt), l - 1))
            && sp1.Free() == sp.Free() - Need(t.Keys, Path(Vpn(virt), l - 1))
            && EntryWritten(sp.mem, t, sp1.mem, t1, flags, Path(Vpn(virt), l), IndexOf(Vpn(virt), l))
  {
    var s, i, sp1 := Path(Vpn(virt), l), Index(virt, l), Enter(sp, table, Index(virt, l), flags);
    Presence(sp, root, t, virt, l, table);
    DrawFrame(sp, sp1.mem);
    if Child(s, i) in t {
      ExistingStep(sp, root, t, virt, l, table, flags);
      GrantWord(sp.mem, t, sp.used, s, i, flags);
      t1 := t;
    } else {
      NewStep(sp, root, t, virt, l, table, flags);
      t1 := t[Child(s, i) := sp.Frame()];
      NewTableWord(sp.mem, root, t, sp.used, s, i, sp.Frame(), flags);
    }
  }

  ghost predicate EntryWritten(mem: Memory, t: Tables, mem': Memory, t': Tables, flags: nat, s: Slot, i: nat)
    requires s.level > 0
  {
    && (forall s' :: s' in t ==> s' in t' && t'[s'] == t[s'])
    && Entry(mem', t', s, i) == Linking(mem, t, t', flags, s, i)
    && forall s', i': nat :: s' in t' && i' < 512 && (s' != s || i' != i) ==>
         Entry(mem', t', s', i') == Entry(mem, t, s', i')
  }

  lemma NewTableWord(mem: Memory, root: nat, t: Tables, used: set<nat>, s: Slot, i: nat, frame: nat, flags: nat)
    requires Tree(mem, root, t, used)
    requires s in t && s.level > 1 && i < 512 && Child(s, i) !in t
    requires frame !in used && 0 < frame < 0x100_0000_0000
    ensures var t' := t[Child(s, i) := frame];
            EntryWritten(mem, t, Grant(Ensure(mem, t[s], i, frame), t[s], i, flags), t', flags, s, i)
  {
    var t' := t[Child(s, i) := frame];
    var mem1 := Ensure(mem, t[s], i, frame);
    EnsureNew(mem, root, t, used, s, i, frame);
    EntriesAfterEnsure(mem, root, t, used, s, i, frame);
    TableEntryWord(frame);
    GrantWord(mem1, t', used + {frame}, s, i, flags);
    assert t'[s] == t[s];
  }

  /** An entry further down the way */
  lemma UpperBelow(mem: Memory, t: Tables, mem1: Memory, t1: Tables, mem': Memory, t': Tables, flags: nat, vpn: nat,
                   l: nat, k: nat, s: Slot, i: nat)
    requires 2 <= l <= 4 && k == l - 1 && UpperFrom(mem1, t1, mem', t', flags, vpn, k)
    requires EntryWritten(mem, t, mem1, t1, flags, Path(vpn, l), IndexOf(vpn, l))
    requires forall s :: s in t1 <==> s in t || s == Path(vpn, k)
    requires forall s :: s in t1 ==> s in t' && t'[s] == t1[s]
    requires s in t' && 1 < s.level <= k && i < 512 && OnPath(vpn, s, i)
    ensures Entry(mem', t', s, i) == Linking(mem, t, t', flags, s, i)
  {
    PathChild(vpn, s.level);
    assert Child(s, i) in t1 <==> Child(s, i) in t;
    assert Entry(mem', t', s, i) == Linking(mem1, t1, t', flags, s, i);
    assert Entry(mem1, t1, s, i) == Entry(mem, t, s, i);
  }

  /** The entry that the first level writes */
  lemma UpperHere(mem: Memory, t: Tables, mem1: Memory, t1: Tables, mem': Memory, t': Tables, flags: nat, vpn: nat,
                  l: nat, k: nat, s: Slot, i: nat)
    requires 2 <= l <= 4 && k == l - 1 && UpperFrom(mem1, t1, mem', t', flags, vpn, k)
    requires EntryWritten(mem, t, mem1, t1, flags, Path(vpn, l), IndexOf(vpn, l))
    requires forall s :: s in t1 <==> s in t || s == Path(vpn, k)
    requires forall s :: s in t1 ==> s in t' && t'[s] == t1[s]
    requires s in t' && s == Path(vpn, l) && i == IndexOf(vpn, l)
    ensures Entry(mem', t', s, i) == Linking(mem, t, t', flags, s, i)
  {
    PathChild(vpn, l);
    assert Entry(mem', t', s, i) == Entry(mem1, t1, s, i);
    assert Child(s, i) in t1 && t'[Child(s, i)] == t1[Child(s, i)];
  }

  /** The upper entries of the rest of the walk, seen from before its first level */
  lemma UpperStep(mem: Memory, t: Tables, mem1: Memory, t1: Tables, mem': Memory, t': Tables, flags: nat, vpn: nat,
                  l: nat, k: nat)
    requires 2 <= l <= 4 && k == l - 1 && UpperFrom(mem1, t1, mem', t', flags, vpn, k)
    requires EntryWritten(mem, t, mem1, t1, flags, Path(vpn, l), IndexOf(vpn, l))
    requires forall s :: s in t1 <==> s in t || s == Path(vpn, k)
    requires forall s :: s in t1 ==> s in t' && t'[s] == t1[s]
    ensures UpperFrom(mem, t, mem', t', flags, vpn, l)
  {
    PathChild(vpn, l);
    forall s, i: nat | s in t' && s.level > 1 && i < 512
      ensures Entry(mem', t', s, i) ==
              if OnPath(vpn, s, i) && s.level <= l then Linking(mem, t, t', flags, s, i) else Entry(mem, t, s, i)
    {
      if OnPath(vpn, s, i) && s.level <= k {
        UpperBelow(mem, t, mem1, t1, mem', t', flags, vpn, l, k, s, i);
      } else if OnPath(vpn, s, i) && s.level == l {
        UpperHere(mem, t, mem1, t1, mem', t', flags, vpn, l, k, s, i);
      } else {
        assert Entry(mem1, t1, s, i) == Entry(mem, t, s, i);
      }
    }
  }

  lemma {:induction false} WalkUpper(sp: Space, root: nat, t: Tables, virt: nat, l: nat, table: nat, flags: nat)
    returns (t': Tables)
    requires 1 <= l <= 4 && AtLevel(sp, root, t, false, Vpn(virt), l, table)
    requires Missing(t.Keys, Vpn(virt), l) <= sp.Free()
    ensures var r := WalkDown(sp, table, virt, l, flags);
            && AtLevel(r.sp, root, t', false, Vpn(virt), 1, r.table)
            && UpperFrom(sp.mem, t, r.sp.mem, t', flags, Vpn(virt), l)
            && forall s :: s in t ==> s in t' && t'[s] == t[s]
    decreases l
  {
    if l == 1 {
      t' := t;
    } else {
      var i, k := Index(virt, l), l - 1;
      var sp1 := Enter(sp, table, i, flags);
      var below := Below(sp1.mem, table, i);
      var t1 := EnterWord(sp, root, t, virt, l, table, flags);
      MissingSame(t, t1, Vpn(virt), k);
      t' := WalkUpper(sp1, root, t1, virt, k, below, flags);
      WalkLevel(sp, table, virt, l, flags, i, sp1, below, k);
      UpperStep(sp.mem, t, sp1.mem, t1, WalkDown(sp1, below, virt, k, flags).sp.mem, t', flags, Vpn(virt), l, k);
    }
  }

  /**
   * After vmm_map with enough frames, an upper entry on the way to the page is the one there was, or the address of
   * the new table plus 3; bit 2 is set on top exactly if bit 2 of the flags is.  No other upper entry changes.
   */
  lemma MapUpper(sp: Space, root: nat, t: Tables, virt: nat, phys: nat, flags: nat) returns (t': Tables)
    requires Tree(sp.mem, root, t, sp.used) && 0 in sp.used && sp.pages <= 0x100_0000_0000
    requires Missing(t.Keys, Vpn(virt), 4) <= sp.Free()
    ensures var sp' := MapPage(sp, root, virt, phys, flags);
            && Tree(sp'.mem, root, t', sp'.used) && Path(Vpn(virt), 1) in t'
            && UpperFrom(sp.mem, t, sp'.mem, t', flags, Vpn(virt), 4)
  {
    PathRoot(virt);
    IndexPath(virt, 1);
    t' := WalkUpper(sp, root, t, virt, 4, root, flags);
    var r := WalkDown(sp, root, virt, 4, flags);
    SetLeaf(r.sp.mem, root, t', r.sp.used, Vpn(virt), Or(phys, flags));
  }

  /** The page's own entry is the sum of address and flags. */
  lemma MapLeaf(sp: Space, root: nat, t: Tables, virt: nat, phys: nat, flags: nat) returns (t': Tables)
    requires Tree(sp.mem, root, t, sp.used) && UserClosed(sp.mem, t) && 0 in sp.used && sp.pages <= 0x100_0000_0000
    requires Missing(t.Keys, Vpn(virt), 4) <= sp.Free()
    requires phys % 4096 == 0 && flags < 4096
    ensures var sp' := MapPage(sp, root, virt, phys, flags);
            Tree(sp'.mem, root, t', sp'.used) && Leaf(sp'.mem, t', virt / 0x1000 % 0x10_0000_0000) == phys + flags
  {
    VpnWord(virt);
    t' := MapLeaves(sp, root, t, virt, phys, flags, Vpn(virt));
    assert phys == phys / 4096 * 4096;
    OffsetOr(phys / 4096, flags);
  }

  lemma OpenedBit(e: nat)
    ensures Opened(e) / 4 % 2 == 1
  {
  }

  /** With bit 2 in the flags, all entries on the way to the page get it. */
  lemma MapOpens(sp: Space, root: nat, t: Tables, virt: nat, phys: nat, flags: nat, l: nat) returns (t': Tables)
    requires Tree(sp.mem, root, t, sp.used) && 0 in sp.used && sp.pages <= 0x100_0000_0000
    requires Missing(t.Keys, Vpn(virt), 4) <= sp.Free() && 2 <= l <= 4 && flags / 4 % 2 == 1
    ensures var sp' := MapPage(sp, root, virt, phys, flags);
            && Tree(sp'.mem, root, t', sp'.used)
            && UpperEntry(sp'.mem, t', Vpn(virt), l) / 4 % 2 == 1
  {
    t' := MapUpper(sp, root, t, virt, phys, flags);
    var sp' := MapPage(sp, root, virt, phys, flags);
    OpenOnPath(sp.mem, root, t, sp'.mem, t', sp'.used, flags, Vpn(virt), l);
  }

  lemma OpenOnPath(mem: Memory, root: nat, t: Tables, mem': Memory, t': Tables, used: set<nat>, flags: nat, vpn: nat,
                   l: nat)
    requires UpperFrom(mem, t, mem', t', flags, vpn, 4) && Tree(mem', root, t', used) && Path(vpn, 1) in t'
    requires 2 <= l <= 4 && flags / 4 % 2 == 1
    ensures UpperEntry(mem', t', vpn, l) / 4 % 2 == 1
  {
    var s, i := Path(vpn, l), IndexOf(vpn, l);
    OnPathInTree(mem', root, t', used, vpn, l);
    assert Entry(mem', t', s, i) == Linking(mem, t, t', flags, s, i);
    OpenedBit(if Child(s, i) in t then Entry(mem, t, s, i)
              else if Child(s, i) in t' then t'[Child(s, i)] * 4096 + 3 else 0);
  }

  lemma OnPathInTree(mem: Memory, root: nat, t: Tables, used: set<nat>, vpn: nat, l: nat)
    requires Tree(mem, root, t, used) && Path(vpn, 1) in t && 2 <= l <= 4
    ensures Path(vpn, l) in t && OnPath(vpn, Path(vpn, l), IndexOf(vpn, l))
  {
    FullPath(mem, root, t, used, vpn);
  }
}
