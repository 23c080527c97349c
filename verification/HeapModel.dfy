/** kmalloc and kfree as functions on the whole memory stack: block list, page tables, page bitmap. */
module HeapModel {
  import opened Bits
  import opened PageCount
  import opened PageTable
  import opened HeapPages
  import opened Blocks

  const HEAP_START: nat := 0x100_0000
  const FIRST_PAGE: nat := 0x1000

  /** The heap ends at page `end`; it may grow while that is below page `max`. */
  datatype Heap = Heap(bs: seq<Block>, end: nat, max: nat, sp: Space, root: nat)

  datatype Result = Result(h: Heap, ptr: nat)

  /** The pages kmalloc adds for a request: `(size + sizeof(struct Block) + PAGE_SIZE - 1) / PAGE_SIZE`, on size_t */
  function PagesFor(size: nat): nat {
    Wrap(Wrap(size + 24) + 4095) / 4096
  }

  /** The sum in PagesFor does not wrap. */
  predicate Sane(size: nat) {
    size + 24 + 4095 < 0x1_0000_0000_0000_0000
  }

  /** The sizes for which kmalloc adds at least one page: all but the 4096 whose wrapped sum is below a page */
  predicate Orderly(size: nat) {
    Sane(size) || (size < U64 && PagesFor(size) > 0)
  }

  function NewBlock(end: nat, pages: nat): Block
    requires pages > 0
  {
    Block(end * 4096, pages * 4096 - 24, true, 0)
  }

  lemma SanePages(size: nat)
    requires Sane(size)
    ensures PagesFor(size) == (size + 24 + 4095) / 4096 > 0
    ensures PagesFor(size) * 4096 - 24 >= size
  {
  }

  lemma WrappedPages(size: nat)
    requires Orderly(size) && !Sane(size)
    ensures PagesFor(size) == 1 && size > 4096
  {
  }

  /** The pages a request makes the heap grow by: those it needs, or, when the sum wraps to one page that is never
      enough, one after the other all that the heap may still get */
  function GrowthPages(h: Heap, size: nat): nat {
    if Sane(size) then PagesFor(size) else if h.end < h.max then h.max - h.end else 0
  }

  /** n free blocks of one page each */
  function OnePages(end: nat, n: nat): (r: seq<Block>)
    ensures |r| == n
    decreases n
  {
    if n == 0 then [] else [NewBlock(end, 1)] + OnePages(end + 1, n - 1)
  }

  /** The heap after growing page by page, with a free block for each page */
  ghost function Filled(h: Heap, g: Grown): Heap {
    h.(bs := h.bs + OnePages(h.end, g.mapped), end := h.end + g.mapped, sp := g.sp)
  }

  /** kmalloc */
  ghost function Kmalloc(h: Heap, size: nat): Result
    requires Orderly(size)
  {
    if HasFit(h.bs, size) then
      Result(h.(bs := Allocate(h.bs, size)), FirstFit(h.bs, size))
    else if h.end >= h.max then
      Result(h, 0)
    else if !Sane(size) then
      Result(Filled(h, GrowPages(h.sp, h.root, h.end, GrowthPages(h, size))), 0)
    else
      SanePages(size);
      var pages := PagesFor(size);
      var g := GrowPages(h.sp, h.root, h.end, pages);
      var bs := h.bs + [NewBlock(h.end, pages)];
      if g.mapped == pages && HasFit(bs, size) then
        Result(h.(bs := Allocate(bs, size), end := h.end + pages, sp := g.sp), FirstFit(bs, size))
      else
        Result(h.(end := h.end + g.mapped, sp := g.sp), 0)
  }

  /** kfree of a live pointer */
  function Kfree(h: Heap, ptr: nat): Heap
    requires Owns(h.bs, ptr)
  {
    h.(bs := Release(h.bs, ptr))
  }

  // ---------- the invariant ----------

  /** The block list is in order inside the heap, every live allocation fits its block, and the heap has no
      more pages than there were frames. */
  ghost predicate Good(h: Heap) {
    && h.bs != [] && h.bs[0].addr == HEAP_START
    && FIRST_PAGE <= h.end
    && h.end - FIRST_PAGE + h.sp.Free() <= h.sp.pages <= 0x8_0000_0000 && 0 in h.sp.used
    && Ordered(h.bs, HEAP_START, h.end * 4096) && Fitting(h.bs)
  }

  /** The bytes of the heap that no block covers: the pages of growths that failed partway */
  ghost function LostBytes(h: Heap): int {
    h.end * 4096 - HEAP_START - Total(h.bs)
  }

  /** The block list tiles the heap exactly when no growth has failed partway. */
  lemma TilesIffNothingLost(h: Heap)
    requires Good(h)
    ensures LostBytes(h) >= 0
    ensures Tiles(h.bs, HEAP_START, h.end * 4096) <==> LostBytes(h) == 0
  {
    TilesIffTotal(h.bs, HEAP_START, h.end * 4096);
  }

  /** Whether a request makes the heap grow */
  ghost predicate Grows(h: Heap, size: nat) {
    !HasFit(h.bs, size) && h.end < h.max
  }

  /** Every page of growth takes at least one frame. */
  lemma {:induction false} GrowFrames(sp: Space, root: nat, page: nat, n: nat)
    ensures var g := GrowPages(sp, root, page, n);
            && g.sp.pages == sp.pages && (0 in sp.used ==> 0 in g.sp.used)
            && g.mapped <= n && g.mapped + g.sp.Free() <= sp.Free()
            && (0 in sp.used && g.mapped < n ==> g.sp.Free() == 0)
    decreases n
  {
    DrawFrame(sp, sp.mem);
    if n > 0 && sp.Frame() != 0 {
      PageFrames(sp, root, page);
      GrowFrames(GrowPage(sp, root, page), root, page + 1, n - 1);
    } else if n > 0 {
      CountMonotone(sp.used, sp.Drawn(), sp.pages);
    }
  }

  lemma PageFrames(sp: Space, root: nat, page: nat)
    requires sp.Frame() != 0
    ensures var sp' := GrowPage(sp, root, page);
            sp'.pages == sp.pages && (0 in sp.used ==> 0 in sp'.used) && sp'.Free() <= sp.Free() - 1
  {
    DrawFrame(sp, sp.mem);
    MapFrames(sp.(used := sp.Drawn()), root, page * 4096, sp.Frame() * 4096, HEAP_FLAGS);
  }

  lemma MapFrames(sp: Space, root: nat, virt: nat, phys: nat, flags: nat)
    ensures var sp' := MapPage(sp, root, virt, phys, flags);
            sp'.pages == sp.pages && sp.used <= sp'.used && sp'.Free() <= sp.Free()
  {
    WalkPages(sp, root, virt, 4, flags);
    CountMonotone(sp.used, WalkDown(sp, root, virt, 4, flags).sp.used, sp.pages);
  }

  /** A growth that maps all its pages yields a block that fits the request. */
  lemma NewBlockFits(h: Heap, size: nat)
    requires Good(h) && Sane(size) && !HasFit(h.bs, size)
    ensures PagesFor(size) > 0
    ensures var b := NewBlock(h.end, PagesFor(size));
            var bs := h.bs + [b];
            && Ordered(bs, HEAP_START, b.End()) && Fitting(bs) && Total(bs) == Total(h.bs) + PagesFor(size) * 4096
            && Live(bs) == Live(h.bs) && HasFit(bs, size) && FirstFit(bs, size) == h.end * 4096 + 24
            && b.End() == (h.end + PagesFor(size)) * 4096
  {
    SanePages(size);
    var b := NewBlock(h.end, PagesFor(size));
    AppendKeeps(h.bs, b, HEAP_START, h.end * 4096, b.End());
  }

  /** A grown heap with its new block is in order again. */
  lemma AppendedGood(h: Heap, pages: nat, b: Block)
    requires Good(h) && pages > 0 && b == NewBlock(h.end, pages)
    requires GrowPages(h.sp, h.root, h.end, pages).mapped == pages
    ensures Good(Heap(h.bs + [b], h.end + pages, h.max, GrowPages(h.sp, h.root, h.end, pages).sp, h.root))
    ensures forall size: nat :: HasFit(h.bs + [b], size) <==> HasFit(h.bs, size) || b.size >= size
  {
    GrowFrames(h.sp, h.root, h.end, pages);
    AppendKeeps(h.bs, b, HEAP_START, h.end * 4096, b.End());
    assert b.End() == (h.end + pages) * 4096;
  }

  /** No block of a heap is big enough for a request whose sum wraps. */
  lemma {:induction false} TooBig(bs: seq<Block>, size: nat, lo: nat, hi: nat)
    requires Ordered(bs, lo, hi) && hi <= size
    ensures !HasFit(bs, size)
  {
    if bs != [] {
      OrderedAt(bs, lo, hi, 0);
      TooBig(bs[1..], size, bs[0].End(), hi);
    }
  }

  lemma InsaneTooBig(h: Heap, size: nat)
    requires Good(h) && !Sane(size)
    ensures !HasFit(h.bs, size)
  {
    DrawFrame(h.sp, h.sp.mem);
    TooBig(h.bs, size, HEAP_START, h.end * 4096);
  }

  /** What kmalloc returns: the lowest block that fits; else, the start of the new pages; and NULL only when the
      heap is at its limit or frames run out. */
  lemma KmallocReturns(h: Heap, size: nat)
    requires Good(h) && Sane(size)
    ensures var r, g := Kmalloc(h, size), GrowPages(h.sp, h.root, h.end, PagesFor(size));
            && (HasFit(h.bs, size) ==>
                  && r.h.end == h.end && r.h.sp == h.sp
                  && (exists i :: 0 <= i < |h.bs| && Fits(h.bs[i], size) && h.bs[i].Payload() == r.ptr)
                  && (forall j :: 0 <= j < |h.bs| && Fits(h.bs[j], size) ==> r.ptr <= h.bs[j].Payload()))
            && (Grows(h, size) && g.mapped == PagesFor(size) ==>
                  r.ptr == h.end * 4096 + 24 && r.h.end == h.end + PagesFor(size))
            && (Grows(h, size) && g.mapped < PagesFor(size) ==>
                  r.ptr == 0 && r.h.end == h.end + g.mapped && r.h.sp.Free() == 0)
            && (r.ptr == 0 <==> !HasFit(h.bs, size) && (h.end >= h.max || g.mapped < PagesFor(size)))
  {
    GrowFrames(h.sp, h.root, h.end, PagesFor(size));
    if HasFit(h.bs, size) {
      LowestFit(h.bs, size, HEAP_START, h.end * 4096);
      OrderedAt(h.bs, HEAP_START, h.end * 4096, 0);
    } else {
      NewBlockFits(h, size);
    }
  }

  /** kmalloc keeps the block list in order.  A non-NULL result is a new live allocation inside the heap and no
      other changes; NULL changes no block.  Bytes are lost exactly by a growth that fails partway. */
  lemma KmallocKeeps(h: Heap, size: nat)
    requires Good(h) && Sane(size)
    ensures var r := Kmalloc(h, size);
            && Good(r.h) && r.h.root == h.root && r.h.max == h.max
            && (r.ptr != 0 ==>
                  && Live(r.h.bs) == Live(h.bs) + {Alloc(r.ptr, size)} && !Owns(h.bs, r.ptr)
                  && HEAP_START < r.ptr && r.ptr + size <= r.h.end * 4096
                  && LostBytes(r.h) == LostBytes(h))
            && (r.ptr == 0 ==>
                  r.h.bs == h.bs && LostBytes(r.h) == LostBytes(h) + 4096 * (r.h.end - h.end))
  {
    DrawFrame(h.sp, h.sp.mem);
    if HasFit(h.bs, size) {
      AllocateKeeps(h.bs, size, HEAP_START, h.end * 4096);
    } else if h.end < h.max {
      GrowFrames(h.sp, h.root, h.end, PagesFor(size));
      NewBlockFits(h, size);
      if GrowPages(h.sp, h.root, h.end, PagesFor(size)).mapped == PagesFor(size) {
        GrownKeeps(h, size);
      } else {
        FailedKeeps(h, size);
      }
    }
  }

  lemma GrownKeeps(h: Heap, size: nat)
    requires Good(h) && Sane(size) && Grows(h, size)
    requires GrowPages(h.sp, h.root, h.end, PagesFor(size)).mapped == PagesFor(size)
    ensures var r := Kmalloc(h, size);
            && Good(r.h) && r.h.root == h.root && r.h.max == h.max
            && Live(r.h.bs) == Live(h.bs) + {Alloc(r.ptr, size)} && !Owns(h.bs, r.ptr)
            && HEAP_START < r.ptr && r.ptr + size <= r.h.end * 4096
            && LostBytes(r.h) == LostBytes(h)
  {
    var pages := PagesFor(size);
    var g := GrowPages(h.sp, h.root, h.end, pages);
    var b := NewBlock(h.end, pages);
    GrowFrames(h.sp, h.root, h.end, pages);
    DrawFrame(g.sp, g.sp.mem);
    NewBlockFits(h, size);
    AllocateKeeps(h.bs + [b], size, HEAP_START, b.End());
    var r := Kmalloc(h, size);
    assert r.h.bs == Allocate(h.bs + [b], size) && r.h.end * 4096 == b.End();
    OwnsAppended(h.bs, b, FirstFit(h.bs + [b], size));
  }

  lemma FailedKeeps(h: Heap, size: nat)
    requires Good(h) && Sane(size) && Grows(h, size)
    requires GrowPages(h.sp, h.root, h.end, PagesFor(size)).mapped < PagesFor(size)
    ensures var r := Kmalloc(h, size);
            && Good(r.h) && r.h.root == h.root && r.h.max == h.max && r.ptr == 0
            && r.h.bs == h.bs && LostBytes(r.h) == LostBytes(h) + 4096 * (r.h.end - h.end)
  {
    GrowFrames(h.sp, h.root, h.end, PagesFor(size));
    var g := GrowPages(h.sp, h.root, h.end, PagesFor(size));
    OrderedWiden(h.bs, HEAP_START, h.end * 4096, (h.end + g.mapped) * 4096);
  }

  lemma {:induction false} OnePagesKeep(bs: seq<Block>, end: nat, n: nat)
    requires Ordered(bs, HEAP_START, end * 4096) && Fitting(bs)
    ensures var all := bs + OnePages(end, n);
            && Ordered(all, HEAP_START, (end + n) * 4096) && Fitting(all)
            && Total(all) == Total(bs) + n * 4096 && Live(all) == Live(bs)
    decreases n
  {
    if n == 0 {
      assert bs + [] == bs;
    } else {
      var b, end1, n1 := NewBlock(end, 1), end + 1, n - 1;
      var mid := end * 4096;
      var mid1 := b.End();
      AppendKeeps(bs, b, HEAP_START, mid, mid1);
      OnePagesKeep(bs + [b], end1, n1);
      OnePagesStep(bs, end, n, b, end1, n1);
    }
  }

  lemma OnePagesStep(bs: seq<Block>, end: nat, n: nat, b: Block, end1: nat, n1: nat)
    requires n > 0 && b == NewBlock(end, 1) && end1 == end + 1 && n1 == n - 1
    ensures bs + OnePages(end, n) == bs + [b] + OnePages(end1, n1)
  {
  }

  /** A request whose sum wraps to one page ends in NULL.  It may fill the heap with free pages, but it keeps the
      order, the allocations, and the tiling. */
  lemma WrappedKeeps(h: Heap, size: nat)
    requires Good(h) && Orderly(size) && !Sane(size)
    ensures var r := Kmalloc(h, size);
            && Good(r.h) && r.h.root == h.root && r.h.max == h.max && r.ptr == 0
            && Live(r.h.bs) == Live(h.bs) && LostBytes(r.h) == LostBytes(h) && r.h.end >= h.end
  {
    InsaneTooBig(h, size);
    if h.end < h.max {
      var n := GrowthPages(h, size);
      var g := GrowPages(h.sp, h.root, h.end, n);
      GrowFrames(h.sp, h.root, h.end, n);
      OnePagesKeep(h.bs, h.end, g.mapped);
    }
  }

  lemma {:induction false} OwnsAppended(bs: seq<Block>, b: Block, ptr: nat)
    requires !Owns(bs + [b], ptr)
    ensures !Owns(bs, ptr)
  {
    if bs != [] {
      assert (bs + [b])[1..] == bs[1..] + [b];
      OwnsAppended(bs[1..], b, ptr);
    }
  }

  lemma {:induction false} OrderedWiden(bs: seq<Block>, lo: nat, hi: nat, hi': nat)
    requires Ordered(bs, lo, hi) && hi <= hi'
    ensures Ordered(bs, lo, hi')
  {
    if bs != [] {
      OrderedWiden(bs[1..], bs[0].End(), hi, hi');
    }
  }

  /** kfree of a live pointer ends that allocation and no other, keeps the list in order and loses no bytes. */
  lemma KfreeKeeps(h: Heap, ptr: nat)
    requires Good(h) && Owns(h.bs, ptr)
    ensures var h' := Kfree(h, ptr);
            && Good(h') && LostBytes(h') == LostBytes(h) && h'.end == h.end
            && (exists size :: Alloc(ptr, size) in Live(h.bs) && Live(h'.bs) == Live(h.bs) - {Alloc(ptr, size)})
  {
    ReleaseKeeps(h.bs, ptr, HEAP_START, h.end * 4096);
  }

  /** Whether a request asks make_table for a frame when none is left; it can be decided before the call. */
  ghost predicate SafeRequest(h: Heap, have: set<Slot>, size: nat) {
    Grows(h, size) ==> SafeGrowth(have, h.sp.Free(), h.end, GrowthPages(h, size))
  }

  /** The tables that exist after a safe request */
  ghost function HaveAfter(h: Heap, have: set<Slot>, size: nat): set<Slot> {
    if Grows(h, size) then Extended(have, h.sp.Free(), h.end, GrowthPages(h, size)) else have
  }

  /** What kmalloc leaves of the memory: it changes only by the growth. */
  lemma KmallocMemory(h: Heap, size: nat)
    requires Good(h) && Orderly(size)
    ensures var r := Kmalloc(h, size).h;
            var g := GrowPages(h.sp, h.root, h.end, GrowthPages(h, size));
            r.root == h.root && (if Grows(h, size) then r.sp == g.sp && r.end == h.end + g.mapped
                                 else r.sp == h.sp && r.end == h.end)
  {
    if Grows(h, size) && Sane(size) {
      NewBlockFits(h, size);
    }
  }

  /** Across the three layers: after kmalloc the page tables are still a tree exactly when the request was safe, and
      then every page of the heap is mapped to a frame of its own that holds no page table. */
  lemma KmallocSound(h: Heap, t: Tables, size: nat) returns (t': Tables)
    requires Good(h) && Orderly(size) && Sound(h.sp, h.root, t, FIRST_PAGE, h.end)
    ensures var r := Kmalloc(h, size);
            && (IsTree(r.h.sp.mem, h.root) <==> SafeRequest(h, t.Keys, size))
            && (SafeRequest(h, t.Keys, size) ==>
                  Sound(r.h.sp, h.root, t', FIRST_PAGE, r.h.end) && t'.Keys == HaveAfter(h, t.Keys, size))
  {
    KmallocMemory(h, size);
    if Grows(h, size) {
      var n := GrowthPages(h, size);
      t' := GrowCorrect(h.sp, h.root, t, FIRST_PAGE, h.end, n);
    } else {
      t' := t;
      assert Tree(h.sp.mem, h.root, t, h.sp.used);
    }
  }

  /** From a sound heap it can be decided before the call whether kmalloc returns NULL, and how far the heap grows. */
  lemma KmallocNull(h: Heap, t: Tables, size: nat)
    requires Good(h) && Orderly(size) && Sound(h.sp, h.root, t, FIRST_PAGE, h.end)
    ensures var r := Kmalloc(h, size);
            && (r.ptr == 0 <==>
                  && !HasFit(h.bs, size)
                  && (h.end >= h.max || !Sane(size)
                      || PagesMapped(t.Keys, h.sp.Free(), h.end, PagesFor(size)) < PagesFor(size)))
            && r.h.end == h.end + (if Grows(h, size) then
                                     PagesMapped(t.Keys, h.sp.Free(), h.end, GrowthPages(h, size))
                                   else 0)
  {
    GrowMaps(h.sp, h.root, t, FIRST_PAGE, h.end, GrowthPages(h, size));
    if Sane(size) {
      KmallocReturns(h, size);
    } else {
      InsaneTooBig(h, size);
    }
  }

  /** A growth that stops partway: some of its pages are mapped, but not all.  It can be decided before the call. */
  ghost predicate PartialGrowth(h: Heap, have: set<Slot>, size: nat) {
    && Grows(h, size) && Sane(size)
    && 0 < PagesMapped(have, h.sp.Free(), h.end, PagesFor(size)) < PagesFor(size)
  }

  /** kmalloc loses bytes exactly by a growth that stops partway. */
  lemma KmallocLoses(h: Heap, t: Tables, size: nat)
    requires Good(h) && Orderly(size) && Sound(h.sp, h.root, t, FIRST_PAGE, h.end)
    ensures LostBytes(Kmalloc(h, size).h) >= LostBytes(h)
    ensures LostBytes(Kmalloc(h, size).h) == LostBytes(h) <==> !PartialGrowth(h, t.Keys, size)
  {
    KmallocNull(h, t, size);
    if Sane(size) {
      KmallocKeeps(h, size);
    } else {
      WrappedKeeps(h, size);
    }
  }

  // ---------- heap_init ----------

  /** heap_init: the first page is mapped to whatever pmm_alloc returned, and becomes one free block. */
  ghost function Init(sp: Space, root: nat, max: nat): Heap {
    Heap([Block(HEAP_START, 4072, true, 0)], FIRST_PAGE + 1, max,
         GrowPage(sp, root, FIRST_PAGE), root)
  }

  /** With a frame for the page and one for each missing table, heap_init sets up a sound heap without allocations. */
  lemma InitSound(sp: Space, root: nat, t: Tables, max: nat) returns (t': Tables)
    requires Tree(sp.mem, root, t, sp.used) && UserClosed(sp.mem, t)
    requires 0 in sp.used && sp.pages <= 0x8_0000_0000
    requires sp.Free() > 0 && Missing(t.Keys, FIRST_PAGE, 4) <= sp.Free() - 1
    ensures var h := Init(sp, root, max);
            Good(h) && Sound(h.sp, root, t', FIRST_PAGE, h.end) && Live(h.bs) == {} && LostBytes(h) == 0
    ensures Init(sp, root, max).bs == [Block(0x100_0000, 4072, true, 0)] && Init(sp, root, max).end == 0x1001
    ensures t'.Keys == t.Keys + PathSlots(FIRST_PAGE)
    ensures Init(sp, root, max).sp.Free() == sp.Free() - 1 - Missing(t.Keys, FIRST_PAGE, 4)
  {
    DrawFrame(sp, sp.mem);
    CountAll(sp.used, sp.pages);
    t' := GrowOne(sp, root, t, FIRST_PAGE, FIRST_PAGE);
    PageFrames(sp, root, FIRST_PAGE);
    InitGood(Init(sp, root, max));
  }

  /** With fewer frames it does not: a table links to frame 0, or the first page of the heap is in frame 0. */
  lemma InitUnsound(sp: Space, root: nat, t: Tables, max: nat, t': Tables)
    requires Tree(sp.mem, root, t, sp.used) && UserClosed(sp.mem, t)
    requires 0 in sp.used && sp.pages <= 0x8_0000_0000
    requires sp.Free() == 0 || Missing(t.Keys, FIRST_PAGE, 4) > sp.Free() - 1
    ensures !Sound(Init(sp, root, max).sp, root, t', FIRST_PAGE, FIRST_PAGE + 1)
  {
    DrawFrame(sp, sp.mem);
    var virt := FIRST_PAGE * 4096;
    VpnOf(virt);
    assert Vpn(virt) == FIRST_PAGE;
    var sp1 := sp.(used := sp.Drawn());
    TreeMoreUsed(sp.mem, root, t, sp.used, sp1.used);
    if Missing(t.Keys, FIRST_PAGE, 4) > sp1.Free() {
      MapLost(sp1, root, t, virt, sp.Frame() * 4096, HEAP_FLAGS);
    } else {
      var sp' := Init(sp, root, max).sp;
      if Tree(sp'.mem, root, t', sp'.used) {
        FrameZeroMapped(sp1, root, t, virt, t');
      }
    }
  }

  /** A page in frame 0 has no frame of its own, whatever the tables are called. */
  lemma FrameZeroMapped(sp: Space, root: nat, t: Tables, virt: nat, t': Tables)
    requires Tree(sp.mem, root, t, sp.used) && UserClosed(sp.mem, t) && 0 in sp.used && sp.pages <= 0x100_0000_0000
    requires Missing(t.Keys, Vpn(virt), 4) <= sp.Free() && virt % 4096 == 0
    requires var sp' := MapPage(sp, root, virt, 0, HEAP_FLAGS); Tree(sp'.mem, root, t', sp'.used)
    ensures !OwnFrame(MapPage(sp, root, virt, 0, HEAP_FLAGS), t', Vpn(virt))
  {
    var sp' := MapPage(sp, root, virt, 0, HEAP_FLAGS);
    HeapFlags();
    MapThenGetPhys(sp, root, t, virt, 0, HEAP_FLAGS, virt);
    WalkPages(sp, root, virt, 4, HEAP_FLAGS);
    GetPhysCorrect(sp', root, t', virt);
    var e := Leaf(sp'.mem, t', Vpn(virt));
    assert Translate(e, virt) == 0;
    if Has(e, PRESENT) {
      ZeroFrame(e, virt);
    }
  }

  lemma ZeroFrame(e: nat, virt: nat)
    requires Translate(e, virt) == 0 && Has(e, PRESENT) && virt % 4096 == 0
    ensures FrameOf(e) == 0
  {
    Shr12(virt);
    OffsetOr(FrameOf(e), 0);
  }

  /** The tables t' back every page of the heap with a frame of its own. */
  ghost predicate Backs(h: Heap, t': Tables) {
    Sound(h.sp, h.root, t', FIRST_PAGE, h.end)
  }

  /** heap_init backs the heap's first page with a frame of its own if and only if there is a frame for it and one for
      each missing table. */
  lemma InitSoundIff(sp: Space, root: nat, t: Tables, max: nat)
    requires Tree(sp.mem, root, t, sp.used) && UserClosed(sp.mem, t)
    requires 0 in sp.used && sp.pages <= 0x8_0000_0000
    ensures (exists t' :: Backs(Init(sp, root, max), t'))
       <==> sp.Free() > 0 && Missing(t.Keys, FIRST_PAGE, 4) <= sp.Free() - 1
  {
    DrawFrame(sp, sp.mem);
    if sp.Free() > 0 && Missing(t.Keys, FIRST_PAGE, 4) <= sp.Free() - 1 {
      var t' := InitSound(sp, root, t, max);
      assert Backs(Init(sp, root, max), t');
    } else {
      forall t'
        ensures !Backs(Init(sp, root, max), t')
      {
        InitUnsound(sp, root, t, max, t');
      }
    }
  }

  lemma InitGood(h: Heap)
    requires h.bs == [Block(HEAP_START, 4072, true, 0)] && h.end == FIRST_PAGE + 1
    requires 1 + h.sp.Free() <= h.sp.pages <= 0x8_0000_0000 && 0 in h.sp.used
    ensures Good(h) && Live(h.bs) == {} && LostBytes(h) == 0
  {
    assert h.end * 4096 == HEAP_START + 4096;
    assert h.bs[1..] == [];
    assert Total(h.bs) == 24 + 4072 + Total(h.bs[1..]) && Total(h.bs[1..]) == 0;
  }

  // ---------- runs ----------

  datatype Op = Malloc(size: nat) | Free(ptr: nat)

  /** The operation is one the kernel may do: any size whose sum, wrapped or not, asks for a page, or a live pointer. */
  ghost predicate Legal(h: Heap, op: Op) {
    match op
    case Malloc(size) => Orderly(size)
    case Free(ptr) => Owns(h.bs, ptr)
  }

  ghost function Apply(h: Heap, op: Op): Heap
    requires Legal(h, op)
  {
    match op
    case Malloc(size) => Kmalloc(h, size).h
    case Free(ptr) => Kfree(h, ptr)
  }

  ghost predicate LegalRun(h: Heap, ops: seq<Op>)
    decreases |ops|
  {
    ops == [] || (Legal(h, ops[0]) && LegalRun(Apply(h, ops[0]), ops[1..]))
  }

  ghost function Run(h: Heap, ops: seq<Op>): Heap
    requires LegalRun(h, ops)
    decreases |ops|
  {
    if ops == [] then h else Run(Apply(h, ops[0]), ops[1..])
  }

  /** Every operation keeps the heap in order, and never covers lost bytes again. */
  lemma ApplyKeeps(h: Heap, op: Op)
    requires Good(h) && Legal(h, op)
    ensures Good(Apply(h, op)) && LostBytes(Apply(h, op)) >= LostBytes(h)
    ensures Apply(h, op).root == h.root && Apply(h, op).max == h.max
    ensures op.Free? ==> LostBytes(Apply(h, op)) == LostBytes(h) && Apply(h, op).sp == h.sp && Apply(h, op).end == h.end
  {
    match op {
      case Malloc(size) =>
        if Sane(size) {
          KmallocKeeps(h, size);
          GrowsUp(h, size);
        } else {
          WrappedKeeps(h, size);
        }
      case Free(ptr) => KfreeKeeps(h, ptr);
    }
  }

  /** Every run keeps the heap in order. */
  lemma {:induction false} RunKeeps(h: Heap, ops: seq<Op>)
    requires Good(h) && LegalRun(h, ops)
    ensures Good(Run(h, ops))
    ensures LostBytes(Run(h, ops)) >= LostBytes(h)
    decreases |ops|
  {
    if ops != [] {
      ApplyKeeps(h, ops[0]);
      RunKeeps(Apply(h, ops[0]), ops[1..]);
    }
  }

  lemma GrowsUp(h: Heap, size: nat)
    requires Good(h) && Sane(size)
    ensures Kmalloc(h, size).h.end >= h.end
  {
  }

  /** No request of the run grows partway, given the tables and free frames there are before it. */
  ghost predicate WholeRun(h: Heap, have: set<Slot>, ops: seq<Op>)
    requires LegalRun(h, ops)
    decreases |ops|
  {
    ops == []
    || match ops[0]
       case Malloc(size) =>
         !PartialGrowth(h, have, size) && WholeRun(Apply(h, ops[0]), HaveAfter(h, have, size), ops[1..])
       case Free(_) =>
         WholeRun(Apply(h, ops[0]), have, ops[1..])
  }

  /** From a sound heap, a run loses no bytes exactly when at each of its growing requests no page can be mapped or
      all of them. */
  lemma {:induction false} RunLoses(h: Heap, t: Tables, ops: seq<Op>)
    requires Good(h) && Sound(h.sp, h.root, t, FIRST_PAGE, h.end) && LegalRun(h, ops)
    ensures LostBytes(Run(h, ops)) == LostBytes(h) <==> WholeRun(h, t.Keys, ops)
    decreases |ops|
  {
    if ops != [] {
      var h1 := Apply(h, ops[0]);
      ApplyKeeps(h, ops[0]);
      RunKeeps(h1, ops[1..]);
      if ops[0].Free? {
        RunLoses(h1, t, ops[1..]);
      } else {
        var size := ops[0].size;
        KmallocLoses(h, t, size);
        var t1 := KmallocSound(h, t, size);
        if SafeRequest(h, t.Keys, size) {
          RunLoses(h1, t1, ops[1..]);
        } else {
          UnsafeExhausts(h, t, size);
          NothingLost(h1, HaveAfter(h, t.Keys, size), ops[1..]);
        }
      }
    }
  }

  /** Without a free frame nothing more is lost, whatever tables there are. */
  lemma {:induction false} NothingLost(h: Heap, have: set<Slot>, ops: seq<Op>)
    requires Good(h) && h.sp.Free() == 0 && LegalRun(h, ops)
    ensures LostBytes(Run(h, ops)) == LostBytes(h) && WholeRun(h, have, ops)
    decreases |ops|
  {
    if ops != [] {
      var h1 := Apply(h, ops[0]);
      ApplyKeeps(h, ops[0]);
      if ops[0].Malloc? {
        StaysWithoutFrames(h, ops[0].size);
        NothingLost(h1, HaveAfter(h, have, ops[0].size), ops[1..]);
      } else {
        NothingLost(h1, have, ops[1..]);
      }
    }
  }

  lemma StaysWithoutFrames(h: Heap, size: nat)
    requires Good(h) && h.sp.Free() == 0 && Orderly(size)
    ensures Kmalloc(h, size).h.sp == h.sp && LostBytes(Kmalloc(h, size).h) == LostBytes(h)
  {
    GrowStops(h.sp, h.root, h.end, GrowthPages(h, size));
    if Sane(size) {
      KmallocKeeps(h, size);
    } else {
      WrappedKeeps(h, size);
    }
  }

  /** Over every run from a heap that its blocks tile, they tile it at the end exactly when no request grew partway. */
  lemma RunTiles(h: Heap, t: Tables, ops: seq<Op>)
    requires Good(h) && Sound(h.sp, h.root, t, FIRST_PAGE, h.end) && LegalRun(h, ops)
    requires Tiles(h.bs, HEAP_START, h.end * 4096)
    ensures Good(Run(h, ops))
    ensures Tiles(Run(h, ops).bs, HEAP_START, Run(h, ops).end * 4096) <==> WholeRun(h, t.Keys, ops)
  {
    RunKeeps(h, ops);
    RunLoses(h, t, ops);
    TilesIffNothingLost(h);
    TilesIffNothingLost(Run(h, ops));
  }

  /** Every request of the run is safe, given the tables there are before it. */
  ghost predicate SafeRun(h: Heap, have: set<Slot>, ops: seq<Op>)
    requires LegalRun(h, ops)
    decreases |ops|
  {
    ops == []
    || match ops[0]
       case Malloc(size) =>
         SafeRequest(h, have, size) && SafeRun(Apply(h, ops[0]), HaveAfter(h, have, size), ops[1..])
       case Free(_) =>
         SafeRun(Apply(h, ops[0]), have, ops[1..])
  }

  /** At the end of a run the page tables are a tree exactly when every request was safe, and then every page of
      the heap is mapped to a frame of its own that holds no page table. */
  lemma {:induction false} RunSound(h: Heap, t: Tables, ops: seq<Op>) returns (t': Tables)
    requires Good(h) && Sound(h.sp, h.root, t, FIRST_PAGE, h.end) && LegalRun(h, ops)
    ensures IsTree(Run(h, ops).sp.mem, h.root) <==> SafeRun(h, t.Keys, ops)
    ensures SafeRun(h, t.Keys, ops) ==> Sound(Run(h, ops).sp, h.root, t', FIRST_PAGE, Run(h, ops).end)
    decreases |ops|
  {
    t' := t;
    if ops == [] {
      assert Tree(h.sp.mem, h.root, t, h.sp.used);
    } else if ops[0].Malloc? {
      var size := ops[0].size;
      ApplyKeeps(h, ops[0]);
      var t1 := KmallocSound(h, t, size);
      if SafeRequest(h, t.Keys, size) {
        t' := RunSound(Apply(h, ops[0]), t1, ops[1..]);
      } else {
        UnsafeExhausts(h, t, size);
        NeverRepaired(Apply(h, ops[0]), ops[1..]);
      }
    } else {
      KfreeKeeps(h, ops[0].ptr);
      t' := RunSound(Apply(h, ops[0]), t, ops[1..]);
    }
  }

  /** An unsafe request uses up the last frame. */
  lemma UnsafeExhausts(h: Heap, t: Tables, size: nat)
    requires Good(h) && Orderly(size) && Sound(h.sp, h.root, t, FIRST_PAGE, h.end)
    requires !SafeRequest(h, t.Keys, size)
    ensures Kmalloc(h, size).h.sp.Free() == 0
  {
    UnsafeGrowth(h.sp, h.root, t, FIRST_PAGE, h.end, GrowthPages(h, size));
    if Sane(size) {
      NewBlockFits(h, size);
    }
  }

  lemma {:induction false} UnsafeGrowth(sp: Space, root: nat, t: Tables, lo: nat, hi: nat, n: nat)
    requires Sound(sp, root, t, lo, hi) && !SafeGrowth(t.Keys, sp.Free(), hi, n)
    ensures GrowPages(sp, root, hi, n).sp.Free() == 0
    decreases n
  {
    if Missing(t.Keys, hi, 4) <= sp.Free() - 1 {
      DrawFrame(sp, sp.mem);
      var t1 := GrowOne(sp, root, t, lo, hi);
      var hi1, n1 := hi + 1, n - 1;
      var sp' := GrowPage(sp, root, hi);
      SafeStep(t.Keys, sp.Free(), hi, n, t1.Keys, sp'.Free(), hi1, n1);
      UnsafeGrowth(sp', root, t1, lo, hi1, n1);
      PagesStep(sp, root, hi, n, sp', hi1, n1);
    } else {
      GrowLost(sp, root, t, lo, hi, n);
    }
  }

  /** Without frames, no later operation writes to a page table. */
  lemma {:induction false} NeverRepaired(h: Heap, ops: seq<Op>)
    requires Good(h) && h.sp.Free() == 0 && LegalRun(h, ops)
    ensures Run(h, ops).sp == h.sp
    decreases |ops|
  {
    if ops != [] {
      match ops[0] {
        case Malloc(size) =>
          StaysWithoutFrames(h, size);
        case Free(_) =>
      }
      ApplyKeeps(h, ops[0]);
      NeverRepaired(Apply(h, ops[0]), ops[1..]);
    }
  }

  // ---------- the blocks that change ----------

  /** A growth that succeeds appends one block of all its pages, cut for the request like any other block. */
  lemma KmallocGrown(h: Heap, size: nat) returns (parts: seq<Block>)
    requires Good(h) && Sane(size) && Grows(h, size)
    requires GrowPages(h.sp, h.root, h.end, PagesFor(size)).mapped == PagesFor(size)
    ensures PagesFor(size) > 0
    ensures var b := Block(h.end * 4096, PagesFor(size) * 4096 - 24, true, 0);
            Kmalloc(h, size).h.bs == h.bs + parts && Cut(b, size, parts)
  {
    SanePages(size);
    GrowFrames(h.sp, h.root, h.end, PagesFor(size));
    var last := GrowPages(h.sp, h.root, h.end, PagesFor(size)).sp;
    DrawFrame(last, last.mem);
    NewBlockFits(h, size);
    var b := NewBlock(h.end, PagesFor(size));
    AllocateBehind(h.bs, [b], size);
    parts := Carve(b, size);
    AllocateOne(b, size);
  }

  lemma AllocateOne(b: Block, size: nat)
    requires Fits(b, size) && b.size < 0x8000_0000_0000_0000
    ensures HasFit([b], size) && Allocate([b], size) == Carve(b, size) && Cut(b, size, Carve(b, size))
  {
    assert [b][1..] == [];
    assert Carve(b, size) + [] == Carve(b, size);
  }

  lemma {:induction false} OnePagesAt(end: nat, n: nat, i: nat)
    requires i < n
    ensures OnePages(end, n)[i] == Block((end + i) * 4096, 4072, true, 0)
    decreases n
  {
    if i > 0 {
      OnePagesAt(end + 1, n - 1, i - 1);
    }
  }

  /** A request whose sum wraps to one page fills the heap: up to its limit, or until no frame is free, there is a free
      block for each new page. */
  lemma WrappedFills(h: Heap, size: nat)
    requires Good(h) && Orderly(size) && !Sane(size) && h.end < h.max
    ensures var r := Kmalloc(h, size);
            && r.ptr == 0 && h.end <= r.h.end <= h.max && (r.h.end == h.max || r.h.sp.Free() == 0)
            && |r.h.bs| == |h.bs| + (r.h.end - h.end) && r.h.bs[..|h.bs|] == h.bs
            && forall k :: |h.bs| <= k < |r.h.bs| ==>
                 r.h.bs[k] == Block((h.end + (k - |h.bs|)) * 4096, 4072, true, 0)
  {
    InsaneTooBig(h, size);
    var n := GrowthPages(h, size);
    GrowFrames(h.sp, h.root, h.end, n);
    var mapped := GrowPages(h.sp, h.root, h.end, n).mapped;
    forall i | 0 <= i < mapped
      ensures OnePages(h.end, mapped)[i] == Block((h.end + i) * 4096, 4072, true, 0)
    {
      OnePagesAt(h.end, mapped, i);
    }
  }

  // ---------- kfree undoes kmalloc ----------

  lemma {:induction false} OnePagesUnowned(bs: seq<Block>, end: nat, n: nat)
    requires Unowned(bs)
    ensures Unowned(bs + OnePages(end, n))
    decreases n
  {
    if n == 0 {
      assert bs + [] == bs;
    } else {
      var b, end1, n1 := NewBlock(end, 1), end + 1, n - 1;
      AppendUnowned(bs, b);
      OnePagesUnowned(bs + [b], end1, n1);
      OnePagesStep(bs, end, n, b, end1, n1);
    }
  }

  lemma ApplyUnowned(h: Heap, op: Op)
    requires Good(h) && Legal(h, op) && Unowned(h.bs)
    ensures Unowned(Apply(h, op).bs)
  {
    match op
    case Malloc(size) =>
      if HasFit(h.bs, size) {
        AllocateUnowned(h.bs, size);
      } else if h.end < h.max && Sane(size) {
        SanePages(size);
        var bs := h.bs + [NewBlock(h.end, PagesFor(size))];
        AppendUnowned(h.bs, NewBlock(h.end, PagesFor(size)));
        if HasFit(bs, size) {
          AllocateUnowned(bs, size);
        }
      } else if h.end < h.max {
        OnePagesUnowned(h.bs, h.end, GrowPages(h.sp, h.root, h.end, GrowthPages(h, size)).mapped);
      }
    case Free(ptr) => ReleaseUnowned(h.bs, ptr);
  }

  lemma {:induction false} RunUnowned(h: Heap, ops: seq<Op>)
    requires Good(h) && LegalRun(h, ops) && Unowned(h.bs)
    ensures Unowned(Run(h, ops).bs)
    decreases |ops|
  {
    if ops != [] {
      ApplyKeeps(h, ops[0]);
      ApplyUnowned(h, ops[0]);
      RunUnowned(Apply(h, ops[0]), ops[1..]);
    }
  }

  /**
   * After any run from heap_init: a kmalloc that finds a block, and a kfree of it at once, leave the heap exactly as it
   * was, if and only if the block had more than 40 bytes to spare or no free block is behind it.
   */
  lemma KfreeUndoes(sp: Space, root: nat, max: nat, ops: seq<Op>, size: nat)
    requires Good(Init(sp, root, max)) && LegalRun(Init(sp, root, max), ops) && Sane(size)
    requires HasFit(Run(Init(sp, root, max), ops).bs, size)
    ensures var h := Run(Init(sp, root, max), ops);
            var i, r := FitAt(h.bs, size), Kmalloc(h, size);
            && Owns(r.h.bs, r.ptr)
            && (Kfree(r.h, r.ptr) == h <==> h.bs[i].size > size + 40 || i + 1 == |h.bs| || !h.bs[i + 1].free)
  {
    var h0 := Init(sp, root, max);
    assert h0.bs[1..] == [];
    RunUnowned(h0, ops);
    RunKeeps(h0, ops);
    var h := Run(h0, ops);
    DrawFrame(h.sp, h.sp.mem);
    FreeUndoes(h.bs, size, HEAP_START, h.end * 4096);
  }
}
