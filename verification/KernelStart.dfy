/** The start of kernel_main: from the boot loader's memory map and the boot tables to a heap that works. */
module KernelStart {
  import opened Bits
  import opened ByteBitmap
  import opened PageCount
  import opened PhysicalMemory
  import opened Multiboot
  import opened PageTable
  import opened HeapPages
  import opened Blocks
  import opened HeapModel
  import opened HeapFrames
  import opened VirtualMemory
  import opened BootTables
  import KH = KernelHeap

  /** The pages the allocator scans after pmm_setup */
  ghost function Scanned(s: seq<byte>): nat
    requires GoodTags(s, 8)
  {
    PageOf(Top(s, 8)) / 8 * 8
  }

  /** The pages among them that are not free: those below 3 MiB and those no entry covers */
  ghost function Reserved(s: seq<byte>): set<nat>
    requires GoodTags(s, 8)
  {
    set p: nat | p < Scanned(s) && !(p >= 768 && Covers(s, 8, p))
  }

  /** The number of free frames after pmm_setup */
  ghost function FreeAtStart(s: seq<byte>): int
    requires GoodTags(s, 8)
  {
    Scanned(s) - CountIn(Reserved(s), 0, Scanned(s))
  }

  /** The number of free frames in the identity-mapped 8 MiB */
  ghost function LowPages(s: seq<byte>): int
    requires GoodTags(s, 8)
  {
    FreeBelow(Reserved(s), if Scanned(s) < 2048 then Scanned(s) else 2048)
  }

  /** The page holds a part of the bitmap, which pmm_init puts at address 0x300000, the start of page 768. */
  ghost predicate InBitmap(s: seq<byte>, p: nat)
    requires GoodTags(s, 8)
  {
    768 <= p && (p - 768) * 4096 < PageOf(Top(s, 8)) / 8
  }

  /** No page of the bitmap is declared available.  pmm_setup itself reserves only what is below. */
  ghost predicate BitmapReserved(s: seq<byte>)
    requires GoodTags(s, 8)
  {
    forall p: nat :: p < Scanned(s) && InBitmap(s, p) ==> !Covers(s, 8, p)
  }

  /** The tables are in the kernel's image, which pmm_setup reserves. */
  ghost predicate InImage(b: Layout) {
    b.Valid() && b.l4 < 768 && b.l3 < 768 && b.l2 < 768 && forall n :: 0 <= n < 4 ==> b.l1[n] < 768
  }

  /** What boot code, pmm_setup and vmm_init leave to heap_init; the bitmap ends in the identity-mapped 8 MiB. */
  ghost predicate Started(sp: Space, s: seq<byte>, b: Layout)
    requires GoodTags(s, 8)
  {
    && InImage(b) && UpperSet(sp.mem, b) && LowerSet(sp.mem, b, 2048)
    && sp.pages == Scanned(s) && 768 <= PageOf(Top(s, 8)) && PageOf(Top(s, 8)) / 8 <= 0x50_0000
    && forall p: nat :: p < Scanned(s) ==> (p in sp.used <==> p in Reserved(s))
  }

  lemma ScanBound(s: seq<byte>)
    requires GoodTags(s, 8) && 768 <= PageOf(Top(s, 8)) && PageOf(Top(s, 8)) / 8 <= 0x50_0000
    ensures 768 <= Scanned(s) <= 0x280_0000
  {
  }

  lemma StartUsed(sp: Space, s: seq<byte>, b: Layout, p: nat)
    requires GoodTags(s, 8) && Started(sp, s, b) && p < Scanned(s)
    ensures p !in sp.used <==> 768 <= p && Covers(s, 8, p)
  {
    assert p in Reserved(s) <==> !(p >= 768 && Covers(s, 8, p));
  }

  lemma StartCounts(sp: Space, s: seq<byte>, b: Layout)
    requires GoodTags(s, 8) && Started(sp, s, b)
    ensures sp.Free() == FreeAtStart(s) && FreeLow(sp) == LowPages(s)
  {
    CountSame(sp.used, Reserved(s), Scanned(s));
    CountSame(sp.used, Reserved(s), if Scanned(s) < 2048 then Scanned(s) else 2048);
  }

  lemma StartTree(sp: Space, s: seq<byte>, b: Layout)
    requires GoodTags(s, 8) && Started(sp, s, b)
    ensures Tree(sp.mem, b.l4, b.Map(), sp.used) && UserClosed(sp.mem, b.Map())
    ensures BootSlots(b.Map()) && Identity(sp.mem, b.Map())
    ensures 0 in sp.used && 768 <= sp.pages <= 0x8_0000_0000
  {
    ScanBound(s);
    forall p: nat | p < 768
      ensures p in sp.used
    {
      StartUsed(sp, s, b, p);
    }
    BootTree(sp.mem, b, sp.used);
    BootPlaces(b);
  }

  lemma BootPlaces(b: Layout)
    requires InImage(b)
    ensures BootSlots(b.Map()) && forall s :: s in b.Map() ==> b.Map()[s] < 768
  {
    var t := b.Map();
    assert forall q: nat :: Slot(1, q) in t <==> Layout.IsSlot(Slot(1, q));
  }

  /** In the boot tables, one table is missing on the path of the heap's first page. */
  lemma OneTableMissing(b: Layout)
    requires b.Valid()
    ensures Missing(b.Map().Keys, FIRST_PAGE, 4) == 1
  {
    LowPath(FIRST_PAGE);
    OnlyLowMissing(b.Map().Keys, FIRST_PAGE);
  }

  // ---------- the bitmap's own frames ----------

  /** The first frame drawn, which heap_init takes for the heap's first page, is one of the bitmap's own frames if and
      only if any of these is declared available; for instance whenever page 768 is. */
  lemma FirstFrame(sp: Space, s: seq<byte>, b: Layout)
    requires GoodTags(s, 8) && Started(sp, s, b) && FreeAtStart(s) >= 1
    ensures 768 <= sp.Frame() < Scanned(s) && Covers(s, 8, sp.Frame())
    ensures InBitmap(s, sp.Frame()) <==> !BitmapReserved(s)
    ensures 768 < Scanned(s) && Covers(s, 8, 768) ==> sp.Frame() == 768
  {
    StartCounts(sp, s, b);
    DrawFrame(sp, sp.mem);
    LowestFreeIs(sp.used, 0, sp.pages);
    var f := sp.Frame();
    StartUsed(sp, s, b, f);
    forall p: nat | p < Scanned(s) && 768 <= p && Covers(s, 8, p)
      ensures f <= p
    {
      StartUsed(sp, s, b, p);
    }
  }

  /** Where the header that heap_init stores at HEAP_START goes: into the first frame drawn */
  lemma HeaderGoes(sp: Space, s: seq<byte>, b: Layout, max: nat)
    requires GoodTags(s, 8) && Started(sp, s, b) && FreeAtStart(s) >= 2
    ensures PhysOf(Init(sp, b.l4, max).sp.mem, b.l4, HEAP_START) == sp.Frame() * 4096
  {
    StartTree(sp, s, b);
    StartCounts(sp, s, b);
    OneTableMissing(b);
    CountAll(sp.used, sp.pages);
    var t', e := GrowEntry(sp, b.l4, b.Map(), FIRST_PAGE, FIRST_PAGE);
    var sp' := GrowPage(sp, b.l4, FIRST_PAGE);
    assert OwnFrame(sp', t', FIRST_PAGE);
    PageAddress(sp', b.l4, t', FIRST_PAGE, HEAP_START);
    AlignedTranslate(e, FIRST_PAGE, HEAP_START);
  }

  /** The bitmap when its first 24 bytes are overwritten by the header: size 4072, free 1, four bytes that the compiler
      leaves alone, next NULL */
  function HeaderStored(bits: seq<byte>): seq<byte>
    requires |bits| >= 24
  {
    [0xE8, 0x0F, 0, 0, 0, 0, 0, 0] + [1, 0, 0, 0] + bits[12..16] + [0, 0, 0, 0, 0, 0, 0, 0] + bits[24..]
  }

  lemma HeaderFreesPageZero(bits: seq<byte>)
    requires |bits| >= 24
    ensures 0 !in SetBits(HeaderStored(bits))
  {
    var after := HeaderStored(bits);
    Member(after, 8 * |after|);
    assert after[0] == 0xE8 && !Bit(0xE8, 0);
  }

  /** When page 0 is free, pmm_alloc returns it, which is NULL: the heap is not sound, and no growth maps a page. */
  lemma PageZeroFree(h: Heap, size: nat, t: Tables)
    requires 0 !in h.sp.used && h.sp.pages > 0
    ensures h.sp.Frame() == 0 && h.sp.Free() > 0 && !Backs(h, t)
    ensures Orderly(size) && Grows(h, size) ==> Kmalloc(h, size).ptr == 0
  {
    LowestFreeUnique(h.sp.used, 0, h.sp.pages, 0);
    TakeLowest(h.sp.used, h.sp.pages);
    if Sane(size) {
      SanePages(size);
      assert GrowPages(h.sp, h.root, h.end, PagesFor(size)).mapped == 0;
    }
  }

  /** With page 768 available, the header overwrites the bitmap, whatever it holds by then: frames are free, but the
      heap is not sound, and the first request that needs another page returns NULL. */
  lemma BitmapOverwritten(sp: Space, s: seq<byte>, b: Layout, max: nat, bits: seq<byte>, size: nat, t: Tables)
    requires GoodTags(s, 8) && Started(sp, s, b) && FreeAtStart(s) >= 2 && |bits| >= 24
    requires 768 < Scanned(s) && Covers(s, 8, 768)
    ensures var h := Init(sp, b.l4, max);
            var after := h.(sp := h.sp.(used := SetBits(HeaderStored(bits))));
            && PhysOf(h.sp.mem, b.l4, HEAP_START) == 0x30_0000
            && after.sp.Free() > 0 && !Backs(after, t)
            && (Orderly(size) && Grows(after, size) ==> Kmalloc(after, size).ptr == 0)
  {
    var h := Init(sp, b.l4, max);
    FirstFrame(sp, s, b);
    HeaderGoes(sp, s, b, max);
    HeaderFreesPageZero(bits);
    StartTree(sp, s, b);
    PageFrames(sp, b.l4, FIRST_PAGE);
    PageZeroFree(h.(sp := h.sp.(used := SetBits(HeaderStored(bits)))), size, t);
  }

  // ---------- heap_init ----------

  /** The tables there are after heap_init */
  ghost function StartKeys(b: Layout): set<Slot>
    requires |b.l1| == 4
  {
    b.Map().Keys + PathSlots(FIRST_PAGE)
  }

  lemma FirstTracked(sp: Space, s: seq<byte>, b: Layout, sp1: Space, end: nat) returns (t: Tables)
    requires GoodTags(s, 8) && Started(sp, s, b) && FreeAtStart(s) >= 2
    requires sp1 == GrowPage(sp, b.l4, FIRST_PAGE) && end == FIRST_PAGE + 1
    ensures Tracked(sp, b.Map(), sp1, b.l4, t, end) && t.Keys == StartKeys(b)
  {
    StartTree(sp, s, b);
    StartCounts(sp, s, b);
    OneTableMissing(b);
    TrackStart(sp, b.l4, b.Map());
    t := TrackPage(sp, b.Map(), sp, b.l4, b.Map(), FIRST_PAGE, sp1, end);
  }

  lemma StartGood(sp: Space, s: seq<byte>, b: Layout, max: nat)
    requires GoodTags(s, 8) && Started(sp, s, b) && FreeAtStart(s) >= 2
    ensures var h := Init(sp, b.l4, max); Good(h) && Tiles(h.bs, HEAP_START, h.end * 4096)
  {
    StartTree(sp, s, b);
    StartCounts(sp, s, b);
    OneTableMissing(b);
    var t := InitSound(sp, b.l4, b.Map(), max);
    TilesIffNothingLost(Init(sp, b.l4, max));
  }

  /** With two free pages heap_init sets up a sound heap, whose frames and tables are drawn in order. */
  lemma StartTracked(sp: Space, s: seq<byte>, b: Layout, max: nat) returns (t: Tables)
    requires GoodTags(s, 8) && Started(sp, s, b) && FreeAtStart(s) >= 2
    ensures var h := Init(sp, b.l4, max);
            && Tracked(sp, b.Map(), h.sp, b.l4, t, h.end) && t.Keys == StartKeys(b)
            && Good(h) && Tiles(h.bs, HEAP_START, h.end * 4096)
  {
    StartGood(sp, s, b, max);
    var h := Init(sp, b.l4, max);
    t := FirstTracked(sp, s, b, h.sp, h.end);
  }

  /** When heap_init leaves the bitmap alone, it backs the heap with a frame of its own, and reaches the table it makes,
      if and only if two of the pages that boot code has mapped are free. */
  lemma StartSoundIff(sp: Space, s: seq<byte>, b: Layout, max: nat)
    requires GoodTags(s, 8) && Started(sp, s, b) && BitmapReserved(s)
    ensures var h := Init(sp, b.l4, max);
            (exists t' :: Backs(h, t') && AllReachable(h.sp.mem, b.l4, t')) <==> LowPages(s) >= 2
  {
    var h := Init(sp, b.l4, max);
    StartTree(sp, s, b);
    StartCounts(sp, s, b);
    OneTableMissing(b);
    InitSoundIff(sp, b.l4, b.Map(), max);
    LowAreFree(s);
    if FreeAtStart(s) >= 2 {
      var t := StartTracked(sp, s, b, max);
      AllReachedIff(sp, b.Map(), h.sp, b.l4, t, h.end);
      assert TablesFor(h.end) == 1;
      forall t' | Backs(h, t')
        ensures t' == t
      {
        OneTree(h.sp.mem, b.l4, t', h.sp.used, t, h.sp.used);
      }
      assert Backs(h, t);
    }
  }

  lemma LowAreFree(s: seq<byte>)
    requires GoodTags(s, 8)
    ensures 0 <= LowPages(s) <= FreeAtStart(s)
  {
    CountAll(Reserved(s), if Scanned(s) < 2048 then Scanned(s) else 2048);
    FreeBelowGrows(Reserved(s), if Scanned(s) < 2048 then Scanned(s) else 2048, Scanned(s));
  }

  // ---------- runs ----------

  /** A frame that is declared available, and outside the kernel's image and the bitmap */
  ghost predicate Usable(s: seq<byte>, f: nat)
    requires GoodTags(s, 8)
  {
    768 <= f < Scanned(s) && Covers(s, 8, f) && !InBitmap(s, f)
  }

  /** The pages of the heap, and the tables made for it, are in such frames. */
  ghost predicate Apart(s: seq<byte>, b: Layout, h: Heap, t: Tables)
    requires GoodTags(s, 8) && |b.l1| == 4
  {
    && (forall v: nat :: FIRST_PAGE <= v < h.end ==> Usable(s, FrameOf(Leaf(h.sp.mem, t, v))))
    && (forall x :: x in t && x !in b.Map() ==> Usable(s, t[x]))
  }

  lemma TrackedApart(sp: Space, s: seq<byte>, b: Layout, h: Heap, t: Tables)
    requires GoodTags(s, 8) && Started(sp, s, b) && BitmapReserved(s)
    requires Tracked(sp, b.Map(), h.sp, b.l4, t, h.end)
    ensures Apart(s, b, h, t)
  {
    forall f | f in h.sp.used && f !in sp.used
      ensures Usable(s, f)
    {
      StartUsed(sp, s, b, f);
    }
    forall v: nat | FIRST_PAGE <= v < h.end
      ensures Usable(s, FrameOf(Leaf(h.sp.mem, t, v)))
    {
      assert OwnFrame(h.sp, t, v);
    }
  }

  lemma {:induction false} RootKept(h: Heap, ops: seq<Op>)
    requires Good(h) && LegalRun(h, ops)
    ensures Run(h, ops).root == h.root
    decreases |ops|
  {
    if ops != [] {
      ApplyKeeps(h, ops[0]);
      RootKept(Apply(h, ops[0]), ops[1..]);
    }
  }

  lemma RunTracked(sp: Space, s: seq<byte>, b: Layout, max: nat, ops: seq<Op>) returns (t': Tables)
    requires GoodTags(s, 8) && Started(sp, s, b) && FreeAtStart(s) >= 2
    requires LegalRun(Init(sp, b.l4, max), ops) && SafeRun(Init(sp, b.l4, max), StartKeys(b), ops)
    ensures var end := Run(Init(sp, b.l4, max), ops);
            Tracked(sp, b.Map(), end.sp, b.l4, t', end.end) && end.root == b.l4
  {
    var h := Init(sp, b.l4, max);
    var t := StartTracked(sp, s, b, max);
    t' := TrackRun(sp, b.Map(), h, t, ops);
    RootKept(h, ops);
  }

  lemma AtMostThreeTables(end: nat)
    requires 513 * TablesFor(end) - 511 <= 1280
    ensures end <= FIRST_PAGE + 1536
  {
  }

  /** The kernel's image and the 1 MiB below it are not available. */
  lemma FewLowPages(sp: Space, s: seq<byte>, b: Layout)
    requires GoodTags(s, 8) && Started(sp, s, b)
    ensures LowPages(s) <= 1280
  {
    var m := if Scanned(s) < 2048 then Scanned(s) else 2048;
    ScanBound(s);
    assert forall p: nat :: p < 768 ==> p in Reserved(s);
    CountAll(Reserved(s), 768);
    CountMore(Reserved(s), 768, m);
  }

  lemma {:induction false} CountMore(used: set<nat>, m: nat, n: nat)
    requires m <= n
    ensures CountIn(used, 0, m) <= CountIn(used, 0, n)
    decreases n
  {
    if m < n {
      CountMore(used, m, n - 1);
    }
  }

  /** After a safe run the kernel reaches all its tables, c of them for the heap, if and only if the last of these, for
      which 513 c - 511 frames have been drawn, is among the pages that boot code has mapped.  That is never so for a
      heap of more than 6 MiB. */
  lemma RunReachedIff(sp: Space, s: seq<byte>, b: Layout, max: nat, ops: seq<Op>) returns (t': Tables)
    requires GoodTags(s, 8) && Started(sp, s, b) && BitmapReserved(s) && FreeAtStart(s) >= 2
    requires LegalRun(Init(sp, b.l4, max), ops) && SafeRun(Init(sp, b.l4, max), StartKeys(b), ops)
    ensures var end := Run(Init(sp, b.l4, max), ops);
            && Backs(end, t')
            && (AllReachable(end.sp.mem, b.l4, t') <==> 513 * TablesFor(end.end) - 511 <= LowPages(s))
            && (AllReachable(end.sp.mem, b.l4, t') ==> end.end <= FIRST_PAGE + 1536)
  {
    StartTree(sp, s, b);
    StartCounts(sp, s, b);
    t' := RunTracked(sp, s, b, max, ops);
    var end := Run(Init(sp, b.l4, max), ops);
    AllReachedIff(sp, b.Map(), end.sp, b.l4, t', end.end);
    LowAreFree(s);
    FewLowPages(sp, s, b);
    if 513 * TablesFor(end.end) - 511 <= LowPages(s) {
      AtMostThreeTables(end.end);
    }
  }

  /** How many of the tables for a heap up to `end` get a frame: table k is the (513 k + 2)-nd frame drawn. */
  ghost function TablesMade(s: seq<byte>, end: nat): int
    requires GoodTags(s, 8)
  {
    var most := (FreeAtStart(s) + 511) / 513;
    if TablesFor(end) < most then TablesFor(end) else most
  }

  /** The last table made, and with it all, is in the identity-mapped 8 MiB, where make_table can clear it. */
  ghost predicate InReach(s: seq<byte>, end: nat)
    requires GoodTags(s, 8)
  {
    513 * TablesMade(s, end) - 511 <= LowPages(s)
  }

  lemma AllMade(sp: Space, s: seq<byte>, b: Layout, sp1: Space, t: Tables, end: nat)
    requires GoodTags(s, 8) && Started(sp, s, b) && Tracked(sp, b.Map(), sp1, b.l4, t, end) && InReach(s, end)
    ensures 513 * TablesFor(end) - 511 <= LowPages(s)
  {
    var c := TablesFor(end);
    LowAreFree(s);
    if c > 0 {
      var k := if c <= 504 then c - 1 else 503;
      FewLowPages(sp, s, b);
      TableMade(sp, s, b, sp1, t, end, k);
      MadeUpTo(c, k, FreeAtStart(s), LowPages(s));
    }
  }

  lemma TableMade(sp: Space, s: seq<byte>, b: Layout, sp1: Space, t: Tables, end: nat, k: nat)
    requires GoodTags(s, 8) && Started(sp, s, b) && Tracked(sp, b.Map(), sp1, b.l4, t, end)
    requires k < TablesFor(end) && k < 504
    ensures 513 * k + 1 < FreeAtStart(s)
  {
    BootPlaces(b);
    StartCounts(sp, s, b);
    assert NumberedAt(sp, t, k);
    var f := t[Slot(1, 8 + k)];
    assert f in sp1.used && f !in sp.used;
    FreeBelowGrows(sp.used, f, sp.pages);
  }

  lemma MadeUpTo(c: nat, k: nat, free: int, low: int)
    requires c > 0 && k == (if c <= 504 then c - 1 else 503) && 513 * k + 1 < free && low <= 1280
    requires var most := (free + 511) / 513; 513 * (if c < most then c else most) - 511 <= low
    ensures 513 * c - 511 <= low
  {
  }

  /**
   * From the boot loader's memory map on, if no part of the bitmap is declared available and all tables are made in
   * reach: after every run of kmalloc and kfree the blocks are in order, they tile the heap exactly when no request
   * grew partway, the page tables are a tree exactly when every request was safe, and then the kernel reaches them all,
   * and every heap page is in a frame of its own.  None of these frames is the kernel's or the bitmap's.
   */
  lemma RunFromBoot(sp: Space, s: seq<byte>, b: Layout, max: nat, ops: seq<Op>) returns (t': Tables)
    requires GoodTags(s, 8) && Started(sp, s, b) && BitmapReserved(s) && FreeAtStart(s) >= 2
    requires LegalRun(Init(sp, b.l4, max), ops)
    requires InReach(s, Run(Init(sp, b.l4, max), ops).end)
    ensures var h := Init(sp, b.l4, max);
            var end := Run(h, ops);
            && Good(end)
            && (Tiles(end.bs, HEAP_START, end.end * 4096) <==> WholeRun(h, StartKeys(b), ops))
            && (IsTree(end.sp.mem, b.l4) <==> SafeRun(h, StartKeys(b), ops))
            && (SafeRun(h, StartKeys(b), ops) ==>
                  Backs(end, t') && AllReachable(end.sp.mem, b.l4, t') && Apart(s, b, end, t'))
  {
    var h := Init(sp, b.l4, max);
    var t0 := StartTracked(sp, s, b, max);
    RunTiles(h, t0, ops);
    t' := RunSound(h, t0, ops);
    RootKept(h, ops);
    if SafeRun(h, StartKeys(b), ops) {
      t' := SafeFromBoot(sp, s, b, max, ops);
    }
  }

  lemma SafeFromBoot(sp: Space, s: seq<byte>, b: Layout, max: nat, ops: seq<Op>) returns (t': Tables)
    requires GoodTags(s, 8) && Started(sp, s, b) && BitmapReserved(s) && FreeAtStart(s) >= 2
    requires LegalRun(Init(sp, b.l4, max), ops) && SafeRun(Init(sp, b.l4, max), StartKeys(b), ops)
    requires InReach(s, Run(Init(sp, b.l4, max), ops).end)
    ensures var end := Run(Init(sp, b.l4, max), ops);
            Backs(end, t') && AllReachable(end.sp.mem, b.l4, t') && Apart(s, b, end, t')
  {
    var end := Run(Init(sp, b.l4, max), ops);
    t' := RunTracked(sp, s, b, max, ops);
    var t := RunReachedIff(sp, s, b, max, ops);
    OneTree(end.sp.mem, b.l4, t', end.sp.used, t, end.sp.used);
    AllMade(sp, s, b, end.sp, t', end.end);
    TrackedApart(sp, s, b, end, t');
  }

  // ---------- the calls ----------

  /** pmm_setup and vmm_init */
  method StartPages(s: seq<byte>, pmm: Pmm, boot: Memory, b: Layout) returns (vmm: Vmm)
    requires GoodTags(s, 8) && 768 <= PageOf(Top(s, 8)) && PageOf(Top(s, 8)) / 8 <= 0x50_0000
    requires InImage(b) && UpperSet(boot, b) && LowerSet(boot, b, 2048)
    modifies pmm
    ensures fresh(vmm) && vmm.pmm == pmm && pmm.Valid() && fresh(pmm.bitmap)
    ensures vmm.pml4 == b.l4 && Started(vmm.Spaces(), s, b)
  {
    Setup(s, pmm);
    assert pmm.Pages() == Scanned(s);
    vmm := new Vmm(boot, b.l4 * 4096, pmm);
    assert forall p: nat :: p < Scanned(s) ==> (pmm.IsFree(p) <==> p !in pmm.used);
  }

  /** pmm_setup, vmm_init and heap_init, as kernel_main calls them.  heap_init must leave the bitmap alone, and the
      table it makes must be in reach. */
  method Start(s: seq<byte>, pmm: Pmm, boot: Memory, b: Layout) returns (heap: KH.KernelHeap, ghost sp: Space)
    requires GoodTags(s, 8) && 768 <= PageOf(Top(s, 8)) && PageOf(Top(s, 8)) / 8 <= 0x50_0000
    requires InImage(b) && UpperSet(boot, b) && LowerSet(boot, b, 2048)
    requires BitmapReserved(s) && (FreeAtStart(s) >= 2 ==> LowPages(s) >= 2)
    modifies pmm
    ensures fresh(heap) && heap.Shape() && Started(sp, s, b) && heap.Model() == Init(sp, b.l4, 0x1_0000)
  {
    var vmm := StartPages(s, pmm, boot, b);
    sp := vmm.Spaces();
    heap := new KH.KernelHeap(vmm);
    heap.HeapInit();
  }
}
