/** Growing the heap page by page: frames from the PMM, mapped through the VMM.  The pages of the heap stay
    mapped to frames of their own, none of which holds a page table. */
module HeapPages {
  import opened Bits
  import opened PageTable

  /** VMM_PRESENT | VMM_WRITABLE */
  const HEAP_FLAGS: nat := 3

  lemma HeapFlags()
    ensures Has(HEAP_FLAGS, PRESENT) && Has(HEAP_FLAGS, WRITABLE) && !Has(HEAP_FLAGS, USER)
  {
    assert Shr(3, 0) == 3 && Shr(3, 1) == 1 && Shr(3, 2) == 0;
  }

  datatype Grown = Grown(sp: Space, mapped: nat)

  /** One round of the growth loop: a page mapped to the frame that pmm_alloc returns */
  ghost function GrowPage(sp: Space, root: nat, page: nat): Space {
    MapPage(sp.(used := sp.Drawn()), root, page * 4096, sp.Frame() * 4096, HEAP_FLAGS)
  }

  /** The growth loop of kmalloc: n pages from the given page on, until pmm_alloc returns NULL */
  ghost function GrowPages(sp: Space, root: nat, page: nat, n: nat): Grown
    decreases n
  {
    if n == 0 then
      Grown(sp, 0)
    else
      if sp.Frame() == 0 then
        Grown(sp.(used := sp.Drawn()), 0)
      else
        var rest := GrowPages(GrowPage(sp, root, page), root, page + 1, n - 1);
        Grown(rest.sp, rest.mapped + 1)
  }

  // ---------- the invariant of the heap's pages ----------

  ghost predicate OwnFrame(sp: Space, t: Tables, v: nat) {
    var e := Leaf(sp.mem, t, v);
    && Has(e, PRESENT) && Has(e, WRITABLE)
    && FrameOf(e) in sp.used && FrameOf(e) != 0
    && (forall s :: s in t ==> t[s] != FrameOf(e))
  }

  /** The pages lo, ..., hi - 1 are mapped, to frames that are in use, differ from each other, and hold no table. */
  ghost predicate Backed(sp: Space, t: Tables, lo: nat, hi: nat) {
    && (forall v: nat :: lo <= v < hi ==> OwnFrame(sp, t, v))
    && (forall v: nat, w: nat :: lo <= v < w < hi ==> FrameOf(Leaf(sp.mem, t, v)) != FrameOf(Leaf(sp.mem, t, w)))
  }

  /** The page tables are a tree, and the pages lo, ..., hi - 1 are backed by frames of their own. */
  ghost predicate Sound(sp: Space, root: nat, t: Tables, lo: nat, hi: nat) {
    && Tree(sp.mem, root, t, sp.used) && UserClosed(sp.mem, t)
    && 0 in sp.used && sp.pages <= 0x8_0000_0000
    && lo <= 0x1_0000 && lo <= hi && hi - lo + sp.Free() <= sp.pages
    && Backed(sp, t, lo, hi)
  }

  // ---------- which growths are safe ----------

  ghost function PathSlots(vpn: nat): set<Slot> {
    {Path(vpn, 3), Path(vpn, 2), Path(vpn, 1)}
  }

  /** Growing by n pages never asks make_table for a frame when none is left: at each page either no frame is
      left for the page itself, and the loop stops, or after taking it there are enough for the missing tables. */
  ghost predicate SafeGrowth(have: set<Slot>, free: int, vpn: nat, n: nat)
    decreases n
  {
    || n == 0
    || free <= 0
    || (&& Missing(have, vpn, 4) <= free - 1
        && SafeGrowth(have + PathSlots(vpn), free - 1 - Missing(have, vpn, 4), vpn + 1, n - 1))
  }

  /** The tables that exist after growing by n pages: those on the paths of the pages mapped are added. */
  ghost function Extended(have: set<Slot>, free: int, vpn: nat, n: nat): set<Slot>
    decreases n
  {
    if n == 0 || free <= 0 then have
    else Extended(have + PathSlots(vpn), free - 1 - Missing(have, vpn, 4), vpn + 1, n - 1)
  }

  lemma VpnOf(at: nat)
    requires at < 0x1_0000_0000_0000
    ensures Vpn(at) == at / 4096
  {
    Shr12(at);
    Shl36();
    LowSmall(at / 4096, 36);
  }

  lemma Shl36()
    ensures Shl(1, 36) == 0x10_0000_0000
  {
    assert Shl(1, 12) == 0x1000;
    assert Shl(1, 24) == 0x100_0000;
  }

  /** More used frames, same tree */
  lemma TreeMoreUsed(mem: Memory, root: nat, t: Tables, used: set<nat>, more: set<nat>)
    requires Tree(mem, root, t, used) && used <= more
    ensures Tree(mem, root, t, more)
  {
  }

  /** One page of growth with enough frames, and the entry it gets */
  lemma GrowEntry(sp: Space, root: nat, t: Tables, lo: nat, hi: nat) returns (t': Tables, e: nat)
    requires Sound(sp, root, t, lo, hi)
    requires sp.Free() > 0 && Missing(t.Keys, hi, 4) <= sp.Free() - 1
    ensures var sp' := GrowPage(sp, root, hi);
            && Sound(sp', root, t', lo, hi + 1)
            && Mapped(sp.(used := sp.Drawn()), t, sp', t', root, hi, e) && FrameOf(e) == sp.Frame()
            && sp'.Free() == sp.Free() - 1 - Missing(t.Keys, hi, 4)
            && t'.Keys == t.Keys + PathSlots(hi)
  {
    DrawFrame(sp, sp.mem);
    t' := MapHeapPage(sp, root, t, hi, sp.Frame());
    e := Or(sp.Frame() * 4096, HEAP_FLAGS);
    SoundGrown(sp, root, t, lo, hi, sp.Frame(), GrowPage(sp, root, hi), t');
  }

  /** In numbers: the entry is the address of the frame plus 3, present and writable and nothing else. */
  lemma GrowLeaf(sp: Space, root: nat, t: Tables, lo: nat, hi: nat) returns (t': Tables)
    requires Sound(sp, root, t, lo, hi)
    requires sp.Free() > 0 && Missing(t.Keys, hi, 4) <= sp.Free() - 1
    ensures var sp' := GrowPage(sp, root, hi);
            && Tree(sp'.mem, root, t', sp'.used) && Leaf(sp'.mem, t', hi) == sp.Frame() * 4096 + 3
  {
    DrawFrame(sp, sp.mem);
    t' := MapHeapPage(sp, root, t, hi, sp.Frame());
    OffsetOr(sp.Frame(), 3);
  }

  lemma GrowOne(sp: Space, root: nat, t: Tables, lo: nat, hi: nat) returns (t': Tables)
    requires Sound(sp, root, t, lo, hi)
    requires sp.Free() > 0 && Missing(t.Keys, hi, 4) <= sp.Free() - 1
    ensures var sp' := GrowPage(sp, root, hi);
            && sp.Frame() != 0
            && Sound(sp', root, t', lo, hi + 1)
            && sp'.Free() == sp.Free() - 1 - Missing(t.Keys, hi, 4)
            && t'.Keys == t.Keys + PathSlots(hi)
  {
    DrawFrame(sp, sp.mem);
    var e;
    t', e := GrowEntry(sp, root, t, lo, hi);
  }

  /** The page is mapped, as far as the page tables are concerned. */
  lemma MapHeapPage(sp: Space, root: nat, t: Tables, hi: nat, f: nat) returns (t': Tables)
    requires Tree(sp.mem, root, t, sp.used) && UserClosed(sp.mem, t)
    requires 0 in sp.used && sp.pages <= 0x8_0000_0000 && hi < 0x10_0000_0000
    requires f !in sp.used && f < sp.pages
    requires var sp1 := sp.(used := sp.used + {f}); Missing(t.Keys, hi, 4) <= sp1.Free()
    ensures var sp1 := sp.(used := sp.used + {f});
            var sp' := MapPage(sp1, root, hi * 4096, f * 4096, HEAP_FLAGS);
            && Mapped(sp1, t, sp', t', root, hi, Or(f * 4096, HEAP_FLAGS))
            && UserClosed(sp'.mem, t')
  {
    var sp1 := sp.(used := sp.used + {f});
    TreeMoreUsed(sp.mem, root, t, sp.used, sp1.used);
    var virt, phys := hi * 4096, f * 4096;
    VpnOf(virt);
    assert Vpn(virt) == hi;
    AlignedHasNoFlags(f, USER);
    t' := MapInTree(sp1, root, t, virt, phys, HEAP_FLAGS);
  }

  lemma SoundGrown(sp: Space, root: nat, t: Tables, lo: nat, hi: nat, f: nat, sp': Space, t': Tables)
    requires Sound(sp, root, t, lo, hi)
    requires f !in sp.used && 0 < f < sp.pages
    requires sp.(used := sp.used + {f}).Free() == sp.Free() - 1
    requires Mapped(sp.(used := sp.used + {f}), t, sp', t', root, hi, Or(f * 4096, HEAP_FLAGS))
    requires UserClosed(sp'.mem, t')
    ensures Sound(sp', root, t', lo, hi + 1)
    ensures sp'.Free() == sp.Free() - 1 - Missing(t.Keys, hi, 4)
    ensures t'.Keys == t.Keys + PathSlots(hi) && FrameOf(Or(f * 4096, HEAP_FLAGS)) == f
  {
    HeapFlags();
    LeafOfFrame(f, HEAP_FLAGS);
    KeysGrown(t, t', hi);
    StillBacked(sp, t, f, sp.(used := sp.used + {f}), sp', t', root, lo, hi, Or(f * 4096, HEAP_FLAGS));
  }

  lemma KeysGrown(t: Tables, t': Tables, vpn: nat)
    requires forall s :: s in t' <==> s in t || (1 <= s.level < 4 && s == Path(vpn, s.level))
    ensures t'.Keys == t.Keys + PathSlots(vpn)
  {
    forall s: Slot
      ensures 1 <= s.level < 4 && s == Path(vpn, s.level) <==> s in PathSlots(vpn)
    {
      if 1 <= s.level < 4 {
        assert s.level == 1 || s.level == 2 || s.level == 3;
      }
    }
  }

  /** What page hi gets and the pages below keep: a frame that holds no table */
  lemma StillOwn(sp: Space, t: Tables, f: nat, sp1: Space, sp': Space, t': Tables, root: nat, hi: nat, e: nat, v: nat)
    requires Owned(t, sp.used) && f !in sp.used && f != 0 && sp1 == sp.(used := sp.used + {f})
    requires Mapped(sp1, t, sp', t', root, hi, e) && FrameOf(e) == f && Has(e, PRESENT) && Has(e, WRITABLE)
    requires (v < hi && OwnFrame(sp, t, v)) || v == hi
    ensures OwnFrame(sp', t', v)
    ensures FrameOf(Leaf(sp'.mem, t', v)) == if v < hi then FrameOf(Leaf(sp.mem, t, v)) else f
    ensures v < hi ==> FrameOf(Leaf(sp.mem, t, v)) != f
  {
    forall s | s in t'
      ensures t'[s] != FrameOf(Leaf(sp'.mem, t', v))
    {
      if s in t {
        assert t'[s] == t[s];
      }
    }
  }

  lemma StillBacked(sp: Space, t: Tables, f: nat, sp1: Space, sp': Space, t': Tables, root: nat, lo: nat, hi: nat,
                    e: nat)
    requires Owned(t, sp.used) && Backed(sp, t, lo, hi) && lo <= hi
    requires f !in sp.used && f != 0 && sp1 == sp.(used := sp.used + {f})
    requires Mapped(sp1, t, sp', t', root, hi, e) && FrameOf(e) == f && Has(e, PRESENT) && Has(e, WRITABLE)
    ensures Backed(sp', t', lo, hi + 1)
  {
    forall v: nat | lo <= v <= hi
      ensures OwnFrame(sp', t', v)
    {
      StillOwn(sp, t, f, sp1, sp', t', root, hi, e, v);
    }
    forall v: nat, w: nat | lo <= v < w <= hi
      ensures FrameOf(Leaf(sp'.mem, t', v)) != FrameOf(Leaf(sp'.mem, t', w))
    {
      StillOwn(sp, t, f, sp1, sp', t', root, hi, e, v);
      StillOwn(sp, t, f, sp1, sp', t', root, hi, e, w);
    }
  }

  /** Without a frame the loop stops at once. */
  lemma GrowStops(sp: Space, root: nat, page: nat, n: nat)
    requires sp.Free() == 0
    ensures GrowPages(sp, root, page, n) == Grown(sp, 0)
  {
    DrawFrame(sp, sp.mem);
  }

  /** What is known after growing a sound heap by n pages */
  ghost predicate GrowResult(sp: Space, root: nat, t: Tables, lo: nat, hi: nat, n: nat, g: Grown, t': Tables) {
    && (IsTree(g.sp.mem, root) <==> SafeGrowth(t.Keys, sp.Free(), hi, n))
    && (SafeGrowth(t.Keys, sp.Free(), hi, n) ==>
          Sound(g.sp, root, t', lo, hi + g.mapped) && t'.Keys == Extended(t.Keys, sp.Free(), hi, n))
    && g.mapped <= n && (g.mapped < n ==> g.sp.Free() == 0)
  }

  /** Growth keeps the page tables a tree, and the heap backed, exactly when it is safe.  It maps fewer pages than
      asked only when no frame is left. */
  lemma {:induction false} GrowCorrect(sp: Space, root: nat, t: Tables, lo: nat, hi: nat, n: nat) returns (t': Tables)
    requires Sound(sp, root, t, lo, hi)
    ensures GrowResult(sp, root, t, lo, hi, n, GrowPages(sp, root, hi, n), t')
    decreases n, 1
  {
    DrawFrame(sp, sp.mem);
    if n == 0 || sp.Free() == 0 {
      t' := t;
      GrowNothing(sp, root, t, lo, hi, n);
    } else if Missing(t.Keys, hi, 4) <= sp.Free() - 1 {
      t' := GrowOn(sp, root, t, lo, hi, n);
    } else {
      t' := t;
      GrowLost(sp, root, t, lo, hi, n);
    }
  }

  lemma GrowNothing(sp: Space, root: nat, t: Tables, lo: nat, hi: nat, n: nat)
    requires Sound(sp, root, t, lo, hi) && (n == 0 || sp.Free() == 0)
    ensures GrowResult(sp, root, t, lo, hi, n, GrowPages(sp, root, hi, n), t)
  {
    if n > 0 {
      GrowStops(sp, root, hi, n);
    }
    assert Tree(sp.mem, root, t, sp.used);
  }

  lemma {:induction false} GrowOn(sp: Space, root: nat, t: Tables, lo: nat, hi: nat, n: nat) returns (t': Tables)
    requires Sound(sp, root, t, lo, hi) && n > 0
    requires sp.Free() > 0 && Missing(t.Keys, hi, 4) <= sp.Free() - 1
    ensures GrowResult(sp, root, t, lo, hi, n, GrowPages(sp, root, hi, n), t')
    decreases n, 0
  {
    var t1 := GrowOne(sp, root, t, lo, hi);
    DrawFrame(sp, sp.mem);
    assert sp.Frame() != 0;
    var sp' := GrowPage(sp, root, hi);
    var hi1, n1 := hi + 1, n - 1;
    t' := GrowCorrect(sp', root, t1, lo, hi1, n1);
    GrowStep(sp, root, t, lo, hi, n, sp', t1, hi1, n1, t');
  }

  lemma GrowStep(sp: Space, root: nat, t: Tables, lo: nat, hi: nat, n: nat, sp': Space, t1: Tables,
                 hi1: nat, n1: nat, t': Tables)
    requires hi1 == hi + 1 && n1 == n - 1
    requires n > 0 && sp.Free() > 0 && sp.Frame() != 0 && Missing(t.Keys, hi, 4) <= sp.Free() - 1
    requires sp' == GrowPage(sp, root, hi)
    requires sp'.Free() == sp.Free() - 1 - Missing(t.Keys, hi, 4) && t1.Keys == t.Keys + PathSlots(hi)
    requires GrowResult(sp', root, t1, lo, hi1, n1, GrowPages(sp', root, hi1, n1), t')
    ensures GrowResult(sp, root, t, lo, hi, n, GrowPages(sp, root, hi, n), t')
  {
    SafeStep(t.Keys, sp.Free(), hi, n, t1.Keys, sp'.Free(), hi1, n1);
    PagesStep(sp, root, hi, n, sp', hi1, n1);
  }

  lemma SafeStep(have: set<Slot>, free: int, hi: nat, n: nat, have1: set<Slot>, free1: int, hi1: nat, n1: nat)
    requires hi1 == hi + 1 && n1 == n - 1 && free > 0 && Missing(have, hi, 4) <= free - 1
    requires have1 == have + PathSlots(hi) && free1 == free - 1 - Missing(have, hi, 4)
    ensures SafeGrowth(have, free, hi, n) <==> SafeGrowth(have1, free1, hi1, n1)
    ensures Extended(have, free, hi, n) == Extended(have1, free1, hi1, n1)
  {
  }

  lemma PagesStep(sp: Space, root: nat, hi: nat, n: nat, sp': Space, hi1: nat, n1: nat)
    requires hi1 == hi + 1 && n1 == n - 1 && sp.Frame() != 0
    requires sp' == GrowPage(sp, root, hi)
    ensures var rest := GrowPages(sp', root, hi1, n1);
            GrowPages(sp, root, hi, n) == Grown(rest.sp, rest.mapped + 1)
  {
  }

  lemma GrowLost(sp: Space, root: nat, t: Tables, lo: nat, hi: nat, n: nat)
    requires Sound(sp, root, t, lo, hi)
    requires n > 0 && sp.Free() > 0 && Missing(t.Keys, hi, 4) > sp.Free() - 1
    ensures GrowResult(sp, root, t, lo, hi, n, GrowPages(sp, root, hi, n), t)
    ensures GrowPages(sp, root, hi, n).sp.Free() == 0
  {
    DrawFrame(sp, sp.mem);
    LostPage(sp, root, t, lo, hi);
    GrowStops(GrowPage(sp, root, hi), root, hi + 1, n - 1);
  }

  // ---------- how far a growth comes ----------

  /** The pages a growth maps, decided before it starts: each takes a frame and one for every missing table. */
  ghost function PagesMapped(have: set<Slot>, free: int, vpn: nat, n: nat): (m: nat)
    ensures m <= n
    decreases n
  {
    if n == 0 || free <= 0 then 0
    else 1 + PagesMapped(have + PathSlots(vpn), free - 1 - Missing(have, vpn, 4), vpn + 1, n - 1)
  }

  lemma MappedStep(have: set<Slot>, free: int, hi: nat, n: nat, have1: set<Slot>, free1: int, hi1: nat, n1: nat)
    requires hi1 == hi + 1 && n1 == n - 1 && free > 0
    requires have1 == have + PathSlots(hi) && free1 == free - 1 - Missing(have, hi, 4)
    ensures PagesMapped(have, free, hi, n) == 1 + PagesMapped(have1, free1, hi1, n1)
  {
  }

  /** From a sound heap, every growth maps that many pages, a safe one or not. */
  lemma {:induction false} GrowMaps(sp: Space, root: nat, t: Tables, lo: nat, hi: nat, n: nat)
    requires Sound(sp, root, t, lo, hi)
    ensures GrowPages(sp, root, hi, n).mapped == PagesMapped(t.Keys, sp.Free(), hi, n)
    decreases n
  {
    DrawFrame(sp, sp.mem);
    if n > 0 && sp.Free() == 0 {
      GrowStops(sp, root, hi, n);
    } else if n > 0 && Missing(t.Keys, hi, 4) <= sp.Free() - 1 {
      var t1 := GrowOne(sp, root, t, lo, hi);
      var sp' := GrowPage(sp, root, hi);
      var hi1, n1 := hi + 1, n - 1;
      GrowMaps(sp', root, t1, lo, hi1, n1);
      PagesStep(sp, root, hi, n, sp', hi1, n1);
      MappedStep(t.Keys, sp.Free(), hi, n, t1.Keys, sp'.Free(), hi1, n1);
    } else if n > 0 {
      GrowMapsLost(sp, root, t, lo, hi, n);
    }
  }

  lemma GrowMapsLost(sp: Space, root: nat, t: Tables, lo: nat, hi: nat, n: nat)
    requires Sound(sp, root, t, lo, hi)
    requires n > 0 && sp.Free() > 0 && Missing(t.Keys, hi, 4) > sp.Free() - 1
    ensures GrowPages(sp, root, hi, n).mapped == 1 == PagesMapped(t.Keys, sp.Free(), hi, n)
  {
    DrawFrame(sp, sp.mem);
    var sp' := GrowPage(sp, root, hi);
    var hi1, n1 := hi + 1, n - 1;
    LostPage(sp, root, t, lo, hi);
    GrowStops(sp', root, hi1, n1);
    PagesStep(sp, root, hi, n, sp', hi1, n1);
  }

  /** A page whose tables run out of frames takes the last one. */
  lemma LostPage(sp: Space, root: nat, t: Tables, lo: nat, hi: nat)
    requires Sound(sp, root, t, lo, hi) && sp.Free() > 0 && Missing(t.Keys, hi, 4) > sp.Free() - 1
    ensures var sp' := GrowPage(sp, root, hi);
            sp'.Free() == 0 && !IsTree(sp'.mem, root)
  {
    DrawFrame(sp, sp.mem);
    var sp1 := sp.(used := sp.Drawn());
    TreeMoreUsed(sp.mem, root, t, sp.used, sp1.used);
    VpnOf(hi * 4096);
    MapLost(sp1, root, t, hi * 4096, sp.Frame() * 4096, HEAP_FLAGS);
  }
}
