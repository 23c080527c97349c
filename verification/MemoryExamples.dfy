/** Small states of memory in which the stack does less than one would expect. */
module MemoryExamples {
  import opened PageCount
  import opened PageTable
  import opened HeapPages
  import opened Blocks
  import opened HeapModel

  /** A root table in frame 1 without entries, in a memory of some frames of which all from 2 on are free */
  function Bare(pages: nat): Space {
    Space(map[], {0, 1}, pages)
  }

  function BareTables(): Tables {
    map[ROOT := 1]
  }

  lemma BareTree(pages: nat)
    requires pages >= 2
    ensures Tree(Bare(pages).mem, 1, BareTables(), Bare(pages).used) && UserClosed(Bare(pages).mem, BareTables())
    ensures Bare(pages).Free() == pages - 2
  {
    ZeroEntry(PRESENT);
    BareCount(pages);
  }

  lemma {:induction false} BareCount(pages: nat)
    requires pages >= 2
    ensures CountIn({0, 1}, 0, pages) == 2
    decreases pages
  {
    if pages == 2 {
      assert CountIn({0, 1}, 0, 1) == 1 && CountIn({0, 1}, 0, 0) == 0;
    } else {
      BareCount(pages - 1);
    }
  }

  lemma BareMissing(vpn: nat)
    ensures Missing(BareTables().Keys, vpn, 4) == 3
  {
    assert Missing(BareTables().Keys, vpn, 1) == 0;
    assert Missing(BareTables().Keys, vpn, 2) == 1;
    assert Missing(BareTables().Keys, vpn, 3) == 2;
  }

  /** vmm_map without a free frame does not leave a tree, whatever it maps. */
  lemma MapWithoutFrames(virt: nat, phys: nat, flags: nat)
    ensures IsTree(Bare(2).mem, 1) && !IsTree(MapPage(Bare(2), 1, virt, phys, flags).mem, 1)
  {
    BareTree(2);
    BareMissing(Vpn(virt));
    MapLost(Bare(2), 1, BareTables(), virt, phys, flags);
  }

  /** heap_init with one frame too few does not back the heap. */
  lemma InitWithoutFrames(max: nat, t': Tables)
    ensures !Backs(Init(Bare(5), 1, max), t')
  {
    BareTree(5);
    BareMissing(FIRST_PAGE);
    InitUnsound(Bare(5), 1, BareTables(), max, t');
  }

  /** With one frame left, a request for two pages grows the heap by one and returns NULL: the blocks no longer tile. */
  lemma GrowsPartway()
    ensures var h := Init(Bare(7), 1, 0x1_0000);
            && Good(h) && Tiles(h.bs, HEAP_START, h.end * 4096)
            && var r := Kmalloc(h, 5000);
               r.ptr == 0 && r.h.end == h.end + 1 && !Tiles(r.h.bs, HEAP_START, r.h.end * 4096)
  {
    BareTree(7);
    BareMissing(FIRST_PAGE);
    PagesForTwo();
    PartwayFrom(Bare(7), 1, BareTables(), 0x1_0000, 5000);
  }

  lemma PagesForTwo()
    ensures Sane(5000) && PagesFor(5000) == 2
  {
  }

  lemma PartwayFrom(sp: Space, root: nat, t0: Tables, max: nat, size: nat)
    requires Tree(sp.mem, root, t0, sp.used) && UserClosed(sp.mem, t0) && 0 in sp.used && sp.pages <= 0x8_0000_0000
    requires sp.Free() == 2 + Missing(t0.Keys, FIRST_PAGE, 4) && FIRST_PAGE + 1 < max
    requires Sane(size) && PagesFor(size) == 2 && size > 4072
    ensures var h := Init(sp, root, max);
            && Good(h) && Tiles(h.bs, HEAP_START, h.end * 4096)
            && var r := Kmalloc(h, size);
               r.ptr == 0 && r.h.end == h.end + 1 && !Tiles(r.h.bs, HEAP_START, r.h.end * 4096)
  {
    var h := Init(sp, root, max);
    var t := InitSound(sp, root, t0, max);
    OneBlockTooSmall(h, size);
    OneOfTwo(t.Keys, h.end);
    PartwayLoses(h, t, size);
    TilesIffNothingLost(h);
    TilesIffNothingLost(Kmalloc(h, size).h);
  }

  lemma PartwayLoses(h: Heap, t: Tables, size: nat)
    requires Good(h) && Sound(h.sp, h.root, t, FIRST_PAGE, h.end) && PartialGrowth(h, t.Keys, size)
    ensures var r := Kmalloc(h, size);
            && Good(r.h) && r.ptr == 0 && LostBytes(r.h) > LostBytes(h)
            && r.h.end == h.end + PagesMapped(t.Keys, h.sp.Free(), h.end, PagesFor(size))
  {
    KmallocNull(h, t, size);
    KmallocLoses(h, t, size);
    KmallocKeeps(h, size);
  }

  lemma OneBlockTooSmall(h: Heap, size: nat)
    requires h.bs == [Block(HEAP_START, 4072, true, 0)] && size > 4072
    ensures !HasFit(h.bs, size)
  {
    assert h.bs[1..] == [];
  }

  lemma OneOfTwo(have: set<Slot>, vpn: nat)
    ensures PagesMapped(have, 1, vpn, 2) == 1
  {
    assert PagesMapped(have + PathSlots(vpn), 1 - 1 - Missing(have, vpn, 4), vpn + 1, 1) == 0;
  }
}
