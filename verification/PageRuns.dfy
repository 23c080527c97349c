/** Runs of vmm_map and vmm_unmap: the page tables behave as a flat map from pages to entries. */
module PageRuns {
  import opened Bits
  import opened PageTable
  import opened HeapPages

  datatype PageOp = Map(virt: nat, phys: nat, flags: nat) | Unmap(virt: nat)

  // ---------- the flat map ----------

  /** The entry of page v after one call */
  function Written(op: PageOp, v: nat, e: nat): nat {
    if v != Vpn(op.virt) then e
    else match op
      case Map(_, phys, flags) => Or(phys, flags)
      case Unmap(_) => 0
  }

  function EntryAfter(ops: seq<PageOp>, v: nat, e: nat): nat
    decreases |ops|
  {
    if ops == [] then e else EntryAfter(ops[1..], v, Written(ops[0], v, e))
  }

  // ---------- the page tables ----------

  ghost function Apply(sp: Space, root: nat, op: PageOp): Space {
    match op
    case Map(virt, phys, flags) => MapPage(sp, root, virt, phys, flags)
    case Unmap(virt) => sp.(mem := UnmapPage(sp.mem, root, virt))
  }

  ghost function Run(sp: Space, root: nat, ops: seq<PageOp>): Space
    decreases |ops|
  {
    if ops == [] then sp else Run(Apply(sp, root, ops[0]), root, ops[1..])
  }

  /** Page-aligned addresses and flags in the low bits */
  predicate Legal(op: PageOp) {
    op.Map? ==> op.phys % 4096 == 0 && op.phys < 0x10_0000_0000_0000 && op.flags < 4096
  }

  /** At every vmm_map of the run there is a frame for each table that is missing on the path of the page. */
  ghost predicate Enough(have: set<Slot>, free: int, ops: seq<PageOp>)
    decreases |ops|
  {
    ops == [] ||
    (Legal(ops[0]) && match ops[0]
       case Map(virt, _, _) =>
         && Missing(have, Vpn(virt), 4) <= free
         && Enough(have + PathSlots(Vpn(virt)), free - Missing(have, Vpn(virt), 4), ops[1..])
       case Unmap(_) => Enough(have, free, ops[1..]))
  }

  ghost predicate Ready(sp: Space, root: nat, t: Tables) {
    Tree(sp.mem, root, t, sp.used) && UserClosed(sp.mem, t) && 0 in sp.used && sp.pages <= 0x100_0000_0000
  }

  lemma MapStep(sp: Space, root: nat, t: Tables, virt: nat, phys: nat, flags: nat) returns (t': Tables)
    requires Ready(sp, root, t) && Legal(Map(virt, phys, flags)) && Missing(t.Keys, Vpn(virt), 4) <= sp.Free()
    ensures var sp' := MapPage(sp, root, virt, phys, flags);
            && Ready(sp', root, t') && t'.Keys == t.Keys + PathSlots(Vpn(virt))
            && sp'.Free() == sp.Free() - Missing(t.Keys, Vpn(virt), 4)
            && forall v: nat :: Leaf(sp'.mem, t', v) == Written(Map(virt, phys, flags), v, Leaf(sp.mem, t, v))
  {
    t' := MapInTree(sp, root, t, virt, phys, flags);
    var frame := phys / 4096;
    assert phys == frame * 4096;
    AlignedHasNoFlags(frame, USER);
    KeysGrown(t, t', Vpn(virt));
    WalkPages(sp, root, virt, 4, flags);
  }

  lemma UnmapStep(sp: Space, root: nat, t: Tables, virt: nat)
    requires Ready(sp, root, t)
    ensures var sp1 := sp.(mem := UnmapPage(sp.mem, root, virt));
            && Ready(sp1, root, t) && sp1.Free() == sp.Free()
            && forall v: nat :: Leaf(sp1.mem, t, v) == Written(Unmap(virt), v, Leaf(sp.mem, t, v))
  {
    UnmapCorrect(sp, root, t, virt);
  }

  lemma Step(sp: Space, root: nat, t: Tables, ops: seq<PageOp>) returns (t1: Tables)
    requires ops != [] && Ready(sp, root, t) && Enough(t.Keys, sp.Free(), ops)
    ensures var sp1 := Apply(sp, root, ops[0]);
            && Ready(sp1, root, t1) && Enough(t1.Keys, sp1.Free(), ops[1..])
            && forall v: nat :: Leaf(sp1.mem, t1, v) == Written(ops[0], v, Leaf(sp.mem, t, v))
  {
    match ops[0] {
      case Map(virt, phys, flags) =>
        var have, free := t.Keys + PathSlots(Vpn(virt)), sp.Free() - Missing(t.Keys, Vpn(virt), 4);
        assert Enough(have, free, ops[1..]);
        t1 := MapStep(sp, root, t, virt, phys, flags);
        var sp1 := MapPage(sp, root, virt, phys, flags);
        assert t1.Keys == have && sp1.Free() == free;
      case Unmap(virt) =>
        t1 := t;
        UnmapStep(sp, root, t, virt);
    }
  }

  /**
   * Over every run with enough frames, the tables stay a tree of unshared frames,
   * user access stays closed upwards, and every page has the entry that the flat map has.
   */
  lemma {:induction false} RunRefines(sp: Space, root: nat, t: Tables, ops: seq<PageOp>) returns (t': Tables)
    requires Ready(sp, root, t) && Enough(t.Keys, sp.Free(), ops)
    ensures Ready(Run(sp, root, ops), root, t')
    ensures forall v: nat :: Leaf(Run(sp, root, ops).mem, t', v) == EntryAfter(ops, v, Leaf(sp.mem, t, v))
    decreases |ops|
  {
    if ops == [] {
      t' := t;
    } else {
      var t1 := Step(sp, root, t, ops);
      t' := RunRefines(Apply(sp, root, ops[0]), root, t1, ops[1..]);
    }
  }

  predicate AllLegal(ops: seq<PageOp>) {
    forall i :: 0 <= i < |ops| ==> Legal(ops[i])
  }

  /** The tables are a tree before the run and after each of its calls. */
  ghost predicate StaysTree(sp: Space, root: nat, ops: seq<PageOp>)
    decreases |ops|
  {
    IsTree(sp.mem, root) && (ops == [] || StaysTree(Apply(sp, root, ops[0]), root, ops[1..]))
  }

  /** The tables stay a tree through a run if and only if there is a frame for every missing table on the way. */
  lemma {:induction false} StaysTreeIff(sp: Space, root: nat, t: Tables, ops: seq<PageOp>)
    requires Ready(sp, root, t) && AllLegal(ops)
    ensures StaysTree(sp, root, ops) <==> Enough(t.Keys, sp.Free(), ops)
    decreases |ops|
  {
    assert Tree(sp.mem, root, t, sp.used);
    if ops != [] {
      assert Legal(ops[0]);
      var sp1 := Apply(sp, root, ops[0]);
      if FitsNow(t.Keys, sp.Free(), ops[0]) {
        var t1 := FirstStep(sp, root, t, ops);
        StaysTreeIff(sp1, root, t1, ops[1..]);
      } else {
        MapLost(sp, root, t, ops[0].virt, ops[0].phys, ops[0].flags);
        assert ops[1..] == [] || !StaysTree(sp1, root, ops[1..]);
      }
    }
  }

  /** One call finds the frames it needs. */
  ghost predicate FitsNow(have: set<Slot>, free: int, op: PageOp) {
    op.Map? ==> Missing(have, Vpn(op.virt), 4) <= free
  }

  lemma FirstStep(sp: Space, root: nat, t: Tables, ops: seq<PageOp>) returns (t1: Tables)
    requires Ready(sp, root, t) && ops != [] && Legal(ops[0]) && FitsNow(t.Keys, sp.Free(), ops[0])
    ensures var sp1 := Apply(sp, root, ops[0]);
            Ready(sp1, root, t1) && (Enough(t.Keys, sp.Free(), ops) <==> Enough(t1.Keys, sp1.Free(), ops[1..]))
  {
    match ops[0] {
      case Map(virt, phys, flags) =>
        t1 := MapStep(sp, root, t, virt, phys, flags);
        EnoughStep(t.Keys, sp.Free(), ops, t1.Keys, Apply(sp, root, ops[0]).Free());
      case Unmap(virt) =>
        t1 := t;
        UnmapStep(sp, root, t, virt);
    }
  }

  lemma EnoughStep(have: set<Slot>, free: int, ops: seq<PageOp>, have1: set<Slot>, free1: int)
    requires ops != [] && ops[0].Map? && Legal(ops[0]) && Missing(have, Vpn(ops[0].virt), 4) <= free
    requires have1 == have + PathSlots(Vpn(ops[0].virt)) && free1 == free - Missing(have, Vpn(ops[0].virt), 4)
    ensures Enough(have, free, ops) <==> Enough(have1, free1, ops[1..])
  {
  }

  /** vmm_get_phys after a run: the translation of the entry that the flat map has. */
  lemma RunThenGetPhys(sp: Space, root: nat, t: Tables, ops: seq<PageOp>, virt: nat)
    requires Ready(sp, root, t) && Enough(t.Keys, sp.Free(), ops)
    ensures PhysOf(Run(sp, root, ops).mem, root, virt) ==
            Translate(EntryAfter(ops, Vpn(virt), Leaf(sp.mem, t, Vpn(virt))), virt)
  {
    var t' := RunRefines(sp, root, t, ops);
    GetPhysCorrect(Run(sp, root, ops), root, t', virt);
  }

  /** Mapping one page changes no permission of any other page. */
  lemma MapKeepsPermissions(sp: Space, root: nat, t: Tables, virt: nat, phys: nat, flags: nat, vpn: nat, f: Flag)
    returns (t': Tables)
    requires Ready(sp, root, t) && Legal(Map(virt, phys, flags)) && Missing(t.Keys, Vpn(virt), 4) <= sp.Free()
    requires vpn < 0x10_0000_0000 && vpn != Vpn(virt) && f != PRESENT
    ensures var sp' := MapPage(sp, root, virt, phys, flags);
            Ready(sp', root, t') && (Effective(sp'.mem, t', vpn, f) <==> Effective(sp.mem, t, vpn, f))
  {
    t' := MapStep(sp, root, t, virt, phys, flags);
    var sp' := MapPage(sp, root, virt, phys, flags);
    EffectiveIsLeaf(sp.mem, root, t, sp.used, vpn, f);
    EffectiveIsLeaf(sp'.mem, root, t', sp'.used, vpn, f);
  }
}
