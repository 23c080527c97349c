/** Which frames the heap and its page tables get.  Pages are drawn in order and never given back, so the frames can be
    numbered by the free pages there were at the start. */
module HeapFrames {
  import opened Bits
  import opened PageCount
  import opened PageTable
  import opened HeapPages
  import opened HeapModel

  /** The number of pages below n that are not used */
  ghost function FreeBelow(used: set<nat>, n: nat): int {
    n - CountIn(used, 0, n)
  }

  lemma {:induction false} FreeBelowGrows(used: set<nat>, m: nat, n: nat)
    requires m <= n
    ensures FreeBelow(used, m) <= FreeBelow(used, n)
    ensures m < n && m !in used ==> FreeBelow(used, m) < FreeBelow(used, n)
    decreases n
  {
    if m < n {
      FreeBelowGrows(used, m, n - 1);
    }
  }

  // ---------- first fit ----------

  predicate InOrder(base: set<nat>, used: set<nat>, p: nat, q: nat) {
    p < q && q in used && q !in base && p !in base ==> p in used
  }

  /** From `base` on, pages below `pages` have been drawn, each time the lowest. */
  ghost predicate FirstFitFrom(base: set<nat>, used: set<nat>, pages: nat) {
    && base <= used
    && (forall q :: q in used && q !in base ==> q < pages)
    && forall p: nat, q: nat {:trigger InOrder(base, used, p, q)} :: InOrder(base, used, p, q)
  }

  lemma DrawInOrder(base: set<nat>, sp: Space)
    requires FirstFitFrom(base, sp.used, sp.pages)
    ensures FirstFitFrom(base, sp.Drawn(), sp.pages)
  {
    LowestFreeIs(sp.used, 0, sp.pages);
    forall p: nat, q: nat
      ensures InOrder(base, sp.Drawn(), p, q)
    {
      assert InOrder(base, sp.used, p, q);
    }
  }

  lemma {:induction false} WalkInOrder(base: set<nat>, sp: Space, table: nat, virt: nat, l: nat, flags: nat)
    requires FirstFitFrom(base, sp.used, sp.pages)
    ensures var r := WalkDown(sp, table, virt, l, flags).sp;
            FirstFitFrom(base, r.used, r.pages) && r.pages == sp.pages
    decreases l
  {
    if l > 1 {
      var i, l1 := Index(virt, l), l - 1;
      var sp' := Enter(sp, table, i, flags);
      var below := Below(sp'.mem, table, i);
      DrawInOrder(base, sp);
      WalkInOrder(base, sp', below, virt, l1, flags);
      WalkLevel(sp, table, virt, l, flags, i, sp', below, l1);
    }
  }

  /** One round of growth draws in order. */
  lemma GrowInOrder(base: set<nat>, sp: Space, root: nat, page: nat)
    requires FirstFitFrom(base, sp.used, sp.pages)
    ensures var r := GrowPage(sp, root, page); FirstFitFrom(base, r.used, r.pages) && r.pages == sp.pages
  {
    DrawInOrder(base, sp);
    WalkInOrder(base, sp.(used := sp.Drawn()), root, page * 4096, 4, HEAP_FLAGS);
  }

  /** The next page to be drawn comes behind exactly as many free pages of the start as have been drawn. */
  lemma NextNumber(base: set<nat>, used: set<nat>, pages: nat)
    requires FirstFitFrom(base, used, pages) && LowestFree(used, 0, pages) < pages
    ensures FreeBelow(base, LowestFree(used, 0, pages)) == CountIn(used, 0, pages) - CountIn(base, 0, pages)
  {
    var f := LowestFree(used, 0, pages);
    LowestFreeIs(used, 0, pages);
    CountAll(used, f);
    forall p: nat | f <= p < pages
      ensures p in used <==> p in base
    {
      assert InOrder(base, used, f, p);
    }
    SameBehind(base, used, f, pages);
  }

  lemma {:induction false} SameBehind(base: set<nat>, used: set<nat>, f: nat, n: nat)
    requires f <= n && forall p: nat :: f <= p < n ==> (p in used <==> p in base)
    ensures CountIn(used, 0, n) - CountIn(base, 0, n) == CountIn(used, 0, f) - CountIn(base, 0, f)
    decreases n
  {
    if f < n {
      SameBehind(base, used, f, n - 1);
    }
  }

  // ---------- only new frames ----------

  /** Since `base` and t0, only frames that were free then hold a new table or a page of [lo, hi); the old tables are
      where they were, and all other pages have the entries they had. */
  ghost predicate OnlyNew(base: Space, t0: Tables, sp: Space, t: Tables, lo: nat, hi: nat) {
    match base
    case Space(mem0, used0, pages0) =>
      && sp.pages == pages0 && FirstFitFrom(used0, sp.used, pages0)
      && (forall s :: s in t0 ==> s in t && t[s] == t0[s])
      && (forall s :: s in t && s !in t0 ==> t[s] !in used0)
      && (forall v: nat :: !(lo <= v < hi) ==> Leaf(sp.mem, t, v) == Leaf(mem0, t0, v))
      && (forall v: nat :: lo <= v < hi ==> FrameOf(Leaf(sp.mem, t, v)) !in used0)
  }

  lemma NewStep(base: Space, t0: Tables, sp: Space, t: Tables, root: nat, lo: nat, hi: nat, e: nat, sp': Space,
                t': Tables)
    requires OnlyNew(base, t0, sp, t, lo, hi) && lo <= hi && FrameOf(e) !in sp.used && sp.used <= sp.Drawn()
    requires Mapped(sp.(used := sp.Drawn()), t, sp', t', root, hi, e)
    requires FirstFitFrom(base.used, sp'.used, sp'.pages)
    ensures OnlyNew(base, t0, sp', t', lo, hi + 1)
  {
  }

  // ---------- the number of each table ----------

  /** The level-1 tables of the heap up to page `end`, which starts at page 4096 */
  function TablesFor(end: nat): nat {
    if end <= 0x1000 then 0 else (end - 0x1000 + 511) / 512
  }

  /** The boot tables lack exactly the level-1 tables of the heap, as far as the first GiB. */
  ghost predicate BootSlots(t: Tables) {
    && (forall q: nat :: Slot(1, q) in t <==> q < 4)
    && Slot(2, 0) in t && Slot(3, 0) in t
  }

  /** Table k of the heap is where it should be, in the free page with number 513 k + 1. */
  ghost predicate NumberedAt(base: Space, t: Tables, k: nat) {
    Slot(1, 8 + k) in t && FreeBelow(base.used, t[Slot(1, 8 + k)]) == 513 * k + 1
  }

  /** Beside the boot tables t0, the first c tables of the heap */
  ghost predicate SlotsUpTo(t0: Tables, t: Tables, c: nat) {
    && (forall q: nat :: Slot(1, q) in t <==> q < 4 || 8 <= q < 8 + c)
    && Slot(2, 0) in t && Slot(3, 0) in t
    && (forall s :: s in t ==> s in t0 || s.level == 1)
  }

  /** As long as the heap is in the first GiB, its tables are the only new ones, and the number of frames drawn is
      known. */
  ghost predicate Numbered(base: Space, t0: Tables, sp: Space, t: Tables, end: nat) {
    match base
    case Space(_, _, _) =>
      && (end <= 0x4_0000 ==>
            SlotsUpTo(t0, t, TablesFor(end)) && base.Free() - sp.Free() == end - 0x1000 + TablesFor(end))
      && forall k: nat {:trigger NumberedAt(base, t, k)} :: k < TablesFor(end) && k < 504 ==> NumberedAt(base, t, k)
  }

  lemma UpPath(vpn: nat, l: nat, k: nat, x: nat, y: nat)
    requires k == l + 1 && Path(vpn, l) == Slot(l, x) && y == x / 512
    ensures Path(vpn, k) == Slot(k, y)
  {
    PathChild(vpn, k);
    Shr9(x);
  }

  /** The slots on the path to a page of the first GiB */
  lemma LowPath(vpn: nat)
    requires vpn < 0x4_0000
    ensures Path(vpn, 1) == Slot(1, vpn / 512) && Path(vpn, 2) == Slot(2, 0) && Path(vpn, 3) == Slot(3, 0)
  {
    assert Path(vpn, 0) == Slot(0, vpn);
    UpPath(vpn, 0, 1, vpn, vpn / 512);
    UpPath(vpn, 1, 2, vpn / 512, 0);
    UpPath(vpn, 2, 3, 0, 0);
  }

  lemma OnlyLowMissing(have: set<Slot>, vpn: nat)
    requires Path(vpn, 2) in have && Path(vpn, 3) in have
    ensures Missing(have, vpn, 4) == if Path(vpn, 1) in have then 0 else 1
  {
    assert Missing(have, vpn, 1) == 0;
    assert Missing(have, vpn, 2) == if Path(vpn, 1) in have then 0 else 1;
    assert Missing(have, vpn, 3) == Missing(have, vpn, 2);
  }

  /** If exactly one page has been drawn, it was the lowest. */
  lemma OneDrawn(base: set<nat>, used: set<nat>, used': set<nat>, pages: nat, g: nat)
    requires base <= used && FirstFitFrom(base, used', pages) && LowestFree(used, 0, pages) < pages
    requires g in used' && g !in used && forall p :: p in used' && p !in used ==> p == g
    ensures g == LowestFree(used, 0, pages)
  {
    var low := LowestFree(used, 0, pages);
    LowestFreeIs(used, 0, pages);
    assert InOrder(base, used', low, g);
  }

  /** A single new table gets the lowest frame that is left. */
  lemma SingleTable(base: set<nat>, sp: Space, t: Tables, used': set<nat>, t': Tables, slot: Slot)
    requires Grew(t, sp.used, t', used') && sp.Free() > 0
    requires slot !in t && forall s :: s in t' <==> s in t || s == slot
    requires base <= sp.used && FirstFitFrom(base, used', sp.pages)
    ensures t'[slot] == LowestFree(sp.used, 0, sp.pages) < sp.pages
  {
    TakeLowest(sp.used, sp.pages);
    OneDrawn(base, sp.used, used', sp.pages, t'[slot]);
  }

  lemma OneSlot(t: Tables, t': Tables, vpn: nat)
    requires Path(vpn, 1) !in t && Path(vpn, 2) in t && Path(vpn, 3) in t
    requires forall s :: s in t' <==> s in t || (1 <= s.level < 4 && s == Path(vpn, s.level))
    ensures forall s :: s in t' <==> s in t || s == Path(vpn, 1)
  {
    assert Path(vpn, 1).level == 1;
    forall s | s in t' && s !in t
      ensures s == Path(vpn, 1)
    {
      assert s.level == 1 || s.level == 2 || s.level == 3;
    }
  }

  lemma TablesStep(end: nat)
    requires end >= 0x1000
    ensures TablesFor(end + 1) == TablesFor(end) + if end % 512 == 0 then 1 else 0
    ensures end % 512 == 0 ==> end / 512 == 8 + TablesFor(end) && end - 0x1000 == 512 * TablesFor(end)
    ensures end % 512 != 0 ==> 8 <= end / 512 < 8 + TablesFor(end)
    ensures end < 0x4_0000 ==> TablesFor(end + 1) <= 504
    ensures end >= 0x4_0000 ==> TablesFor(end) >= 504
  {
  }

  /** The slots after one more page */
  lemma SlotsStep(t0: Tables, t: Tables, t': Tables, end: nat)
    requires 0x1000 <= end < 0x4_0000 && SlotsUpTo(t0, t, TablesFor(end))
    requires forall s :: s in t' <==> s in t || (1 <= s.level < 4 && s == Path(end, s.level))
    ensures SlotsUpTo(t0, t', TablesFor(end + 1))
    ensures Missing(t.Keys, end, 4) == if end % 512 == 0 then 1 else 0
  {
    TablesStep(end);
    LowPath(end);
    OnlyLowMissing(t.Keys, end);
    if end % 512 == 0 {
      OneSlot(t, t', end);
    } else {
      forall s | s in t'
        ensures s in t
      {
        assert s in t || s.level == 1 || s.level == 2 || s.level == 3;
      }
    }
  }

  lemma NumberStep(base: Space, t0: Tables, sp: Space, t: Tables, end: nat, sp': Space, t': Tables, end1: nat)
    requires end >= 0x1000 && end1 == end + 1 && Numbered(base, t0, sp, t, end)
    requires forall s :: s in t' <==> s in t || (1 <= s.level < 4 && s == Path(end, s.level))
    requires forall s :: s in t ==> s in t' && t'[s] == t[s]
    requires sp'.Free() == sp.Free() - 1 - Missing(t.Keys, end, 4)
    requires end < 0x4_0000 && end % 512 == 0 ==> NumberedAt(base, t', TablesFor(end))
    ensures Numbered(base, t0, sp', t', end1)
  {
    TablesStep(end);
    OldNumbers(base, t, t');
    if end < 0x4_0000 {
      SlotsStep(t0, t, t', end);
    }
  }

  lemma OldNumbers(base: Space, t: Tables, t': Tables)
    requires forall s :: s in t ==> s in t' && t'[s] == t[s]
    ensures forall k: nat {:trigger NumberedAt(base, t', k)} :: NumberedAt(base, t, k) ==> NumberedAt(base, t', k)
  {
  }

  lemma NewNumber(base: Space, t0: Tables, sp: Space, t: Tables, root: nat, end: nat, e: nat, sp': Space, t': Tables)
    requires 0x1000 <= end < 0x4_0000 && end % 512 == 0 && Numbered(base, t0, sp, t, end)
    requires sp.pages == base.pages && sp.Free() > 0
    requires FirstFitFrom(base.used, sp.used, sp.pages) && FirstFitFrom(base.used, sp'.used, sp'.pages)
    requires Mapped(sp.(used := sp.Drawn()), t, sp', t', root, end, e)
    requires sp'.Free() == sp.Free() - 1 - Missing(t.Keys, end, 4)
    ensures NumberedAt(base, t', TablesFor(end))
  {
    var sp1 := sp.(used := sp.Drawn());
    TablesStep(end);
    LowPath(end);
    OnlyLowMissing(t.Keys, end);
    DrawFrame(sp, sp.mem);
    DrawFrame(sp', sp'.mem);
    DrawInOrder(base.used, sp);
    OneSlot(t, t', end);
    SingleTable(base.used, sp1, t, sp'.used, t', Path(end, 1));
    NextNumber(base.used, sp1.used, sp1.pages);
  }

  // ---------- growing ----------

  /** The heap from page 4096 to `end` is sound, and its frames and tables are the ones drawn since `base` and t0. */
  ghost predicate Tracked(base: Space, t0: Tables, sp: Space, root: nat, t: Tables, end: nat) {
    match base
    case Space(_, _, _) =>
      Sound(sp, root, t, FIRST_PAGE, end) && OnlyNew(base, t0, sp, t, FIRST_PAGE, end) && Numbered(base, t0, sp, t, end)
  }

  lemma TrackStart(sp: Space, root: nat, t: Tables)
    requires Tree(sp.mem, root, t, sp.used) && UserClosed(sp.mem, t) && BootSlots(t)
    requires 0 in sp.used && sp.pages <= 0x8_0000_0000
    ensures Tracked(sp, t, sp, root, t, FIRST_PAGE)
  {
    CountAll(sp.used, sp.pages);
    assert TablesFor(FIRST_PAGE) == 0;
    forall p: nat, q: nat
      ensures InOrder(sp.used, sp.used, p, q)
    {
    }
  }

  lemma TrackPage(base: Space, t0: Tables, sp: Space, root: nat, t: Tables, end: nat, sp': Space, end1: nat)
    returns (t': Tables)
    requires Tracked(base, t0, sp, root, t, end) && sp.Free() > 0 && Missing(t.Keys, end, 4) <= sp.Free() - 1
    requires sp' == GrowPage(sp, root, end) && end1 == end + 1
    ensures Tracked(base, t0, sp', root, t', end1)
    ensures sp'.Free() == sp.Free() - 1 - Missing(t.Keys, end, 4) && t'.Keys == t.Keys + PathSlots(end)
  {
    var e;
    DrawFrame(sp, sp.mem);
    t', e := GrowEntry(sp, root, t, FIRST_PAGE, end);
    GrowInOrder(base.used, sp, root, end);
    NewStep(base, t0, sp, t, root, FIRST_PAGE, end, e, sp', t');
    if end < 0x4_0000 && end % 512 == 0 {
      NewNumber(base, t0, sp, t, root, end, e, sp', t');
    }
    NumberStep(base, t0, sp, t, end, sp', t', end1);
  }

  lemma {:induction false} TrackGrowth(base: Space, t0: Tables, sp: Space, root: nat, t: Tables, end: nat, n: nat)
    returns (t': Tables, g: Grown, last: nat)
    requires Tracked(base, t0, sp, root, t, end) && SafeGrowth(t.Keys, sp.Free(), end, n)
    ensures g == GrowPages(sp, root, end, n) && last == end + g.mapped
    ensures Tracked(base, t0, g.sp, root, t', last) && t'.Keys == Extended(t.Keys, sp.Free(), end, n)
    decreases n
  {
    DrawFrame(sp, sp.mem);
    if n == 0 || sp.Free() == 0 {
      if n > 0 {
        GrowStops(sp, root, end, n);
      }
      t', g, last := t, Grown(sp, 0), end;
    } else {
      var sp', end1, n1 := GrowPage(sp, root, end), end + 1, n - 1;
      var t1 := TrackPage(base, t0, sp, root, t, end, sp', end1);
      SafeStep(t.Keys, sp.Free(), end, n, t1.Keys, sp'.Free(), end1, n1);
      t', g, last := TrackGrowth(base, t0, sp', root, t1, end1, n1);
      g := Grown(g.sp, g.mapped + 1);
      PagesStep(sp, root, end, n, sp', end1, n1);
    }
  }

  /** Over every safe run of kmalloc and kfree */
  lemma {:induction false} TrackRun(base: Space, t0: Tables, h: Heap, t: Tables, ops: seq<Op>) returns (t': Tables)
    requires Good(h) && LegalRun(h, ops) && SafeRun(h, t.Keys, ops)
    requires Tracked(base, t0, h.sp, h.root, t, h.end)
    ensures Tracked(base, t0, Run(h, ops).sp, h.root, t', Run(h, ops).end)
    decreases |ops|
  {
    t' := t;
    if ops != [] {
      var h1 := Apply(h, ops[0]);
      var t1 := t;
      ApplyKeeps(h, ops[0]);
      if ops[0].Malloc? {
        t1 := TrackRequest(base, t0, h, t, ops[0].size, h1);
      }
      t' := TrackRun(base, t0, h1, t1, ops[1..]);
    }
  }

  lemma TrackRequest(base: Space, t0: Tables, h: Heap, t: Tables, size: nat, r: Heap) returns (t': Tables)
    requires Good(h) && Orderly(size) && SafeRequest(h, t.Keys, size) && r == Kmalloc(h, size).h
    requires Tracked(base, t0, h.sp, h.root, t, h.end)
    ensures Tracked(base, t0, r.sp, h.root, t', r.end) && t'.Keys == HaveAfter(h, t.Keys, size)
  {
    KmallocMemory(h, size);
    if Grows(h, size) {
      var g, last;
      t', g, last := TrackGrowth(base, t0, h.sp, h.root, t, h.end, GrowthPages(h, size));
      assert r.sp == g.sp && r.end == last;
    } else {
      t' := t;
      assert r.sp == h.sp && r.end == h.end;
    }
  }

  // ---------- which tables the kernel reaches ----------

  /** The kernel writes tables through their physical addresses: the address of the frame is mapped to itself. */
  ghost predicate Reachable(mem: Memory, root: nat, frame: nat) {
    PhysOf(mem, root, frame * 4096) == frame * 4096
  }

  ghost predicate AllReachable(mem: Memory, root: nat, t: Tables) {
    forall s :: s in t ==> Reachable(mem, root, t[s])
  }

  /** What boot code leaves: the first 2048 pages are mapped to themselves, and the tables lie there. */
  ghost predicate Identity(mem: Memory, t: Tables) {
    && (forall v: nat :: Leaf(mem, t, v) == if v < 2048 then TableEntry(v) else 0)
    && (forall s :: s in t ==> t[s] < 2048)
  }

  lemma PageAddress(sp: Space, root: nat, t: Tables, f: nat, virt: nat)
    requires Tree(sp.mem, root, t, sp.used) && 0 in sp.used && sp.pages <= 0x8_0000_0000
    requires f < 0x10_0000_0000 && virt == f * 4096
    ensures PhysOf(sp.mem, root, virt) == Translate(Leaf(sp.mem, t, f), virt)
  {
    VpnOf(virt);
    assert Vpn(virt) == f;
    GetPhysCorrect(sp, root, t, virt);
  }

  lemma AlignedTranslate(e: nat, f: nat, virt: nat)
    requires virt == f * 4096
    ensures Translate(e, virt) == if Has(e, PRESENT) then FrameOf(e) * 4096 else 0
  {
    AlignedLow(f, virt);
    OffsetOr(FrameOf(e), 0);
  }

  /** A table is reached exactly below page 2048. */
  lemma ReachedBelow(base: Space, t0: Tables, sp: Space, root: nat, t: Tables, end: nat, s: Slot)
    requires Tracked(base, t0, sp, root, t, end) && Identity(base.mem, t0) && s in t
    ensures Reachable(sp.mem, root, t[s]) <==> t[s] < 2048
  {
    var f := t[s];
    assert s !in t0 ==> f < base.pages;
    PageAddress(sp, root, t, f, f * 4096);
    AlignedTranslate(Leaf(sp.mem, t, f), f, f * 4096);
    if f < 2048 {
      TableEntryFields(f);
    } else if FIRST_PAGE <= f < end {
      assert OwnFrame(sp, t, f);
    } else {
      ZeroEntry(PRESENT);
    }
  }

  /** The free pages that lie in the identity-mapped 8 MiB */
  ghost function FreeLow(sp: Space): int {
    FreeBelow(sp.used, if sp.pages < 2048 then sp.pages else 2048)
  }

  /** Table k is the (513 k + 2)-nd frame drawn: it lies below page 2048 exactly if so many pages there were free. */
  lemma TableBelow(base: Space, t0: Tables, sp: Space, root: nat, t: Tables, end: nat, k: nat)
    requires Tracked(base, t0, sp, root, t, end) && BootSlots(t0) && k < TablesFor(end) && k < 504
    ensures Slot(1, 8 + k) in t
    ensures t[Slot(1, 8 + k)] < 2048 <==> 513 * k + 1 < FreeLow(base)
  {
    var s, m := Slot(1, 8 + k), if base.pages < 2048 then base.pages else 2048;
    assert NumberedAt(base, t, k) && s !in t0;
    var f := t[s];
    assert f in sp.used && f !in base.used;
    if f < m {
      FreeBelowGrows(base.used, f, m);
    } else {
      FreeBelowGrows(base.used, m, f);
    }
  }

  /** All tables are within reach exactly if the last one is. */
  lemma AllReachedIff(base: Space, t0: Tables, sp: Space, root: nat, t: Tables, end: nat)
    requires Tracked(base, t0, sp, root, t, end) && BootSlots(t0) && Identity(base.mem, t0)
    ensures AllReachable(sp.mem, root, t) <==> TablesFor(end) == 0 || 513 * TablesFor(end) - 512 < FreeLow(base)
  {
    var c := TablesFor(end);
    if c > 0 && AllReachable(sp.mem, root, t) {
      var k := if c <= 504 then c - 1 else 503;
      TableBelow(base, t0, sp, root, t, end, k);
      ReachedBelow(base, t0, sp, root, t, end, Slot(1, 8 + k));
      FewFree(base);
    }
    if c == 0 || 513 * c - 512 < FreeLow(base) {
      FewFree(base);
      forall s | s in t
        ensures Reachable(sp.mem, root, t[s])
      {
        ReachedBelow(base, t0, sp, root, t, end, s);
        if s !in t0 {
          assert s == Slot(1, s.prefix);
          TableBelow(base, t0, sp, root, t, end, s.prefix - 8);
        }
      }
    }
  }

  lemma FewFree(sp: Space)
    ensures FreeLow(sp) <= 2048
  {
  }
}
