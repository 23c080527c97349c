/** kmemory.c: the block list in memory, as headers linked by address, and kmalloc and kfree on it. */
module KernelHeap {
  import opened Bits
  import opened PageCount
  import opened PageTable
  import opened HeapPages
  import opened Blocks
  import opened HeapModel
  import opened VirtualMemory

  /** struct Block; next is an address, 0 for NULL */
  datatype Header = Header(size: nat, free: bool, next: nat)

  type Headers = map<nat, Header>

  /** The headers from p on list the blocks, up to a link to q. */
  ghost predicate Listed(mem: Headers, p: nat, bs: seq<Block>, q: nat)
    decreases |bs|
  {
    if bs == [] then p == q
    else
      && 0 < p == bs[0].addr && p in mem
      && mem[p].size == bs[0].size && mem[p].free == bs[0].free
      && Listed(mem, mem[p].next, bs[1..], q)
  }

  lemma {:induction false} ListedJoin(mem: Headers, p: nat, a: seq<Block>, q: nat, b: seq<Block>, r: nat)
    requires Listed(mem, p, a, q) && Listed(mem, q, b, r)
    ensures Listed(mem, p, a + b, r)
    decreases |a|
  {
    if a == [] {
      assert a + b == b;
    } else {
      assert (a + b)[1..] == a[1..] + b;
      ListedJoin(mem, mem[p].next, a[1..], q, b, r);
    }
  }

  lemma {:induction false} ListedSplit(mem: Headers, p: nat, a: seq<Block>, b: seq<Block>, r: nat)
    requires Listed(mem, p, a + b, r) && b != []
    ensures Listed(mem, p, a, b[0].addr) && Listed(mem, b[0].addr, b, r)
    decreases |a|
  {
    if a == [] {
      assert a + b == b;
    } else {
      assert (a + b)[1..] == a[1..] + b;
      ListedSplit(mem, mem[p].next, a[1..], b, r);
    }
  }

  ghost predicate SameHeader(mem: Headers, mem': Headers, x: nat) {
    x in mem ==> x in mem' && mem'[x] == mem[x]
  }

  /** Stores outside the range of some ordered blocks leave their list alone. */
  lemma {:induction false} ListedKeeps(mem: Headers, mem': Headers, p: nat, a: seq<Block>, q: nat, lo: nat, hi: nat)
    requires Listed(mem, p, a, q) && Ordered(a, lo, hi)
    requires forall x: nat :: lo <= x < hi ==> SameHeader(mem, mem', x)
    ensures Listed(mem', p, a, q)
    decreases |a|
  {
    if a != [] {
      OrderedBound(a[1..], a[0].End(), hi);
      assert SameHeader(mem, mem', p);
      ListedKeeps(mem, mem', mem[p].next, a[1..], q, a[0].End(), hi);
    }
  }

  /** Replacing the block at p, and its list up to the next one, by other blocks inside the same bytes */
  lemma ListedReplace(mem: Headers, mem': Headers, head: nat, pre: seq<Block>, new': seq<Block>,
                      rest: seq<Block>, p: nat, next: nat, end: nat, lo: nat, hi: nat)
    requires Listed(mem, head, pre, p) && Ordered(pre, lo, p)
    requires Listed(mem', p, new', next)
    requires Listed(mem, next, rest, 0) && Ordered(rest, end, hi)
    requires forall x: nat :: x < p || end <= x ==> SameHeader(mem, mem', x)
    ensures Listed(mem', head, pre + (new' + rest), 0)
  {
    ListedKeeps(mem, mem', head, pre, p, lo, p);
    ListedKeeps(mem, mem', next, rest, 0, end, hi);
    ListedJoin(mem', p, new', next, rest, 0);
    ListedJoin(mem', head, pre, p, new' + rest, 0);
  }

  class KernelHeap {
    var heapEnd: nat
    const heapMax: nat
    var freeList: nat
    var mem: map<nat, Header>   // the headers in heap memory, by address
    const vmm: Vmm
    ghost var bs: seq<Block>    // the block list
    ghost var endPage: nat      // heapEnd, in pages

    ghost function Model(): Heap
      reads this, vmm, vmm.pmm
    {
      Heap(bs, endPage, 0x1_0000, vmm.Spaces(), vmm.pml4)
    }

    ghost predicate Shape()
      reads this, vmm, vmm.pmm, vmm.pmm.bitmap
    {
      && vmm.pmm.Valid()
      && Listed(mem, freeList, bs, 0) && bs != []
      && heapEnd == endPage * 4096 && heapMax == 0x1_0000 * 4096
    }

    constructor (vmm: Vmm)
      ensures this.vmm == vmm && heapMax == 0x1000_0000 && heapEnd == HEAP_START && bs == [] && endPage == FIRST_PAGE
    {
      this.vmm := vmm;
      heapEnd, heapMax, freeList, mem, bs, endPage := HEAP_START, 0x1000_0000, 0, map[], [], FIRST_PAGE;
    }

    /** heap_init; pmm_alloc is not checked. */
    method HeapInit()
      requires vmm.pmm.Valid() && heapMax == 0x1_0000 * 4096
      modifies this`mem, this`bs, this`heapEnd, this`endPage, this`freeList
      modifies vmm`mem, vmm.pmm`usedPages, vmm.pmm`used, vmm.pmm.bitmap
      ensures Shape() && Model() == HeapModel.Init(old(vmm.Spaces()), vmm.pml4, 0x1_0000)
    {
      ghost var sp := vmm.Spaces();
      var phys := vmm.pmm.Alloc();
      FrameAddress(sp, phys);
      assert vmm.Spaces() == sp.(used := sp.Drawn());
      assert FIRST_PAGE * 4096 == HEAP_START;
      var r := vmm.Map(HEAP_START, phys, HEAP_FLAGS);
      heapEnd := HEAP_START + 4096;
      freeList := HEAP_START;
      mem := mem[HEAP_START := Header(4096 - 24, true, 0)];
      bs, endPage := [Block(HEAP_START, 4072, true, 0)], FIRST_PAGE + 1;
      assert Listed(mem, freeList, bs, 0);
    }

    /** The search loop of kmalloc, up to the return of the block it finds */
    method TakeFit(size: nat) returns (ptr: nat)
      requires Shape()
      modifies this`mem, this`bs
      ensures ptr != 0 <==> HasFit(old(bs), size)
      ensures ptr == 0 ==> mem == old(mem) && bs == old(bs)
      ensures ptr != 0 ==> ptr == FirstFit(old(bs), size) && bs == Allocate(old(bs), size)
      ensures ptr != 0 && Ordered(old(bs), HEAP_START, heapEnd) && heapEnd < 0x8000_0000_0000_0000 ==>
                Listed(mem, freeList, bs, 0)
    {
      var curr: nat := freeList;
      ghost var pre: seq<Block>, suf := [], bs;
      assert pre + suf == bs;
      while curr != 0
        invariant bs == old(bs) == pre + suf && mem == old(mem) && !HasFit(pre, size)
        invariant Listed(mem, freeList, pre, curr) && Listed(mem, curr, suf, 0)
        decreases |suf|
      {
        AllocateBehind(pre, suf, size);
        if mem[curr].free && mem[curr].size >= size {
          ghost var mem0 := mem;
          if mem[curr].size > Wrap(size + 40) {
            var newBlock := Wrap(curr + 24 + size);
            mem := mem[newBlock := Header(Wrap(mem[curr].size - size - 24), true, mem[curr].next)];
            mem := mem[curr := Header(size, mem[curr].free, newBlock)];
          }
          mem := mem[curr := Header(mem[curr].size, false, mem[curr].next)];
          if Ordered(bs, HEAP_START, heapEnd) && heapEnd < 0x8000_0000_0000_0000 {
            Taken(mem0, freeList, pre, suf, size, heapEnd, mem);
          }
          bs := Allocate(bs, size);
          return curr + 24;
        }
        NoFitNext(pre, suf[0], size);
        assert Listed(mem, curr, [suf[0]], mem[curr].next);
        ListedJoin(mem, freeList, pre, curr, [suf[0]], mem[curr].next);
        assert pre + suf == (pre + [suf[0]]) + suf[1..];
        curr := mem[curr].next;
        pre, suf := pre + [suf[0]], suf[1..];
      }
      assert suf == [];
      assert pre + suf == pre;
      return 0;
    }

    /** The growth loop of kmalloc: false when pmm_alloc returns NULL */
    method GrowBy(pages: nat) returns (ok: bool)
      requires vmm.pmm.Valid() && heapEnd == endPage * 4096
      modifies this`heapEnd, this`endPage, vmm`mem, vmm.pmm`usedPages, vmm.pmm`used, vmm.pmm.bitmap
      ensures vmm.pmm.Valid() && heapEnd == endPage * 4096
      ensures var g := GrowPages(old(vmm.Spaces()), vmm.pml4, old(endPage), pages);
              && vmm.Spaces() == g.sp && endPage == old(endPage) + g.mapped
              && g.mapped <= pages && (ok <==> g.mapped == pages)
    {
      ghost var left, sp := pages, vmm.Spaces();
      ghost var g := GrowPages(sp, vmm.pml4, endPage, pages);
      var i := 0;
      while i < pages
        invariant 0 <= i <= pages && left == pages - i && vmm.pmm.Valid()
        invariant heapEnd == endPage * 4096 && endPage == old(endPage) + i
        invariant sp == vmm.Spaces() && g == GrownOn(sp, vmm.pml4, endPage, left, i)
      {
        var mapped := GrowOne();
        if !mapped {
          return false;
        }
        i := i + 1;
        ghost var page1, left1, sp' := endPage + 1, left - 1, vmm.Spaces();
        PageMapped(sp, vmm.pml4, endPage, left, i - 1, sp', endPage * 4096, page1, left1, i);
        endPage, left, sp := page1, left1, sp';
      }
      return true;
    }

    /** One round of the growth loop */
    method GrowOne() returns (ok: bool)
      requires vmm.pmm.Valid()
      modifies this`heapEnd, vmm`mem, vmm.pmm`usedPages, vmm.pmm`used, vmm.pmm.bitmap
      ensures vmm.pmm.Valid()
      ensures var sp, sp1 := old(vmm.Spaces()), old(vmm.Spaces()).(used := old(vmm.Spaces()).Drawn());
              if sp.Frame() == 0 then
                !ok && heapEnd == old(heapEnd) && vmm.Spaces() == sp1
              else
                && ok && heapEnd == old(heapEnd) + 4096
                && vmm.Spaces() == MapPage(sp1, vmm.pml4, old(heapEnd), sp.Frame() * 4096, HEAP_FLAGS)
    {
      ghost var sp := vmm.Spaces();
      var phys := vmm.pmm.Alloc();
      FrameAddress(sp, phys);
      assert vmm.Spaces() == sp.(used := sp.Drawn());
      if phys == 0 {
        return false;
      }
      var r := vmm.Map(heapEnd, phys, HEAP_FLAGS);
      heapEnd := heapEnd + 4096;
      return true;
    }

    /** A new header at the old end of the heap, linked behind the last block */
    method Append(start: nat, size: nat)
      requires Listed(mem, freeList, bs, 0) && bs != []
      requires Ordered(bs, HEAP_START, start)
      modifies this`mem, this`bs
      ensures Listed(mem, freeList, bs, 0) && bs == old(bs) + [Block(start, size, true, 0)]
    {
      ghost var mem0 := mem;
      ghost var b := Block(start, size, true, 0);
      mem := mem[start := Header(size, true, 0)];
      OrderedAt(bs, HEAP_START, start, 0);
      ListedKeeps(mem0, mem, freeList, bs, 0, HEAP_START, start);
      var last := freeList;
      ghost var pre: seq<Block>, suf := [], bs;
      assert pre + suf == bs;
      while mem[last].next != 0
        invariant suf != [] && bs == old(bs) == pre + suf && mem == mem0[start := Header(size, true, 0)]
        invariant Listed(mem, freeList, pre, last) && Listed(mem, last, suf, 0)
        decreases |suf|
      {
        assert Listed(mem, last, [suf[0]], mem[last].next);
        ListedJoin(mem, freeList, pre, last, [suf[0]], mem[last].next);
        assert pre + suf == (pre + [suf[0]]) + suf[1..];
        last := mem[last].next;
        pre, suf := pre + [suf[0]], suf[1..];
      }
      assert Listed(mem, mem[last].next, suf[1..], 0);
      assert suf == [suf[0]];
      OrderedSplit(pre, suf, HEAP_START, start);
      ghost var mem1 := mem;
      mem := mem[last := Header(mem[last].size, mem[last].free, start)];
      ListedKeeps(mem1, mem, freeList, pre, last, HEAP_START, last);
      assert Listed(mem, start, [b], 0);
      assert Listed(mem, last, [suf[0]], start);
      ListedJoin(mem, last, [suf[0]], start, [b], 0);
      ListedJoin(mem, freeList, pre, last, [suf[0]] + [b], 0);
      assert pre + ([suf[0]] + [b]) == bs + [b];
      bs := bs + [b];
    }

    /** kmalloc.  Unless the wrapped sum asks for no page at all, it computes HeapModel.Kmalloc, and the headers in
        memory list the new blocks.  If it does, a heap that may grow gets a block of 2^64 - 24 bytes behind its end,
        and the pointer is into that block. */
    method Kmalloc(size: nat) returns (ptr: nat)
      requires size < U64 && Shape() && (Good(Model()) || HasFit(bs, size))
      modifies this`mem, this`bs, this`heapEnd, this`endPage, vmm`mem, vmm.pmm`usedPages, vmm.pmm`used, vmm.pmm.bitmap
      ensures Good(old(Model())) && (Orderly(size) || old(endPage) >= 0x1_0000) ==> Shape()
      ensures Good(old(Model())) ==> Returned(old(Model()), size, Model(), ptr)
      ensures HasFit(old(bs), size) ==>
                ptr == FirstFit(old(bs), size) && Model() == old(Model()).(bs := Allocate(old(bs), size))
      decreases if HasFit(bs, size) then 0 else 1 + (if endPage < 0x1_0000 then 0x1_0000 - endPage else 0)
    {
      ghost var h := Model();
      if Good(h) {
        HeapLimits(h, size);
      }
      ptr := TakeFit(size);
      if ptr != 0 {
        return;
      }
      if heapEnd >= heapMax {
        return 0;
      }
      var ok := GrowFor(size);
      ghost var h1 := Model();
      if !ok {
        ReturnsNull(h, size, h1);
        return 0;
      }
      ptr := Kmalloc(size);
      RetryReturns(h, size, h1, Model(), ptr);
    }

    /** The second half of kmalloc, before it calls itself */
    method GrowFor(size: nat) returns (ok: bool)
      requires size < U64 && Shape() && Good(Model()) && !HasFit(bs, size)
      modifies this`mem, this`bs, this`heapEnd, this`endPage, vmm`mem, vmm.pmm`usedPages, vmm.pmm`used, vmm.pmm.bitmap
      ensures Shape() && Retries(old(Model()), size, ok, Model())
    {
      ghost var h := Model();
      var needed := Wrap(size + 24);
      var pages := Wrap(needed + 4095) / 4096;
      var blockStart := heapEnd;
      ok := GrowBy(pages);
      ghost var g := GrowPages(h.sp, h.root, h.end, pages);
      if ok {
        Append(blockStart, Wrap(pages * 4096 - 24));
      }
      RetryState(h, size, pages, ok, Model());
    }

    method Kfree(ptr: nat)
      requires Shape() && Good(Model()) && Owns(bs, ptr)
      modifies this`mem, this`bs
      ensures Shape() && Model() == HeapModel.Kfree(old(Model()), ptr)
    {
      ghost var mem0, bs0 := mem, bs;
      ghost var pre, suf := ReleaseBehind(bs, ptr);
      ListedSplit(mem, freeList, pre, suf, 0);
      OrderedSplit(pre, suf, HEAP_START, heapEnd);
      var block := ptr - 24;
      assert Listed(mem, mem[block].next, suf[1..], 0);
      mem := mem[block := Header(mem[block].size, true, mem[block].next)];
      var next := mem[block].next;
      if next != 0 && mem[next].free {
        mem := mem[block := Header(mem[block].size + 24 + mem[next].size, true, mem[next].next)];
      }
      Freed(mem0, freeList, pre, suf, heapEnd, mem);
      bs := Release(bs, ptr);
      ReleaseKeeps(bs0, ptr, HEAP_START, heapEnd);
    }
  }

  lemma HeapLimits(h: Heap, size: nat)
    requires Good(h)
    ensures h.end <= 0x8_0000_1000
    ensures !Sane(size) ==> !HasFit(h.bs, size)
  {
    DrawFrame(h.sp, h.sp.mem);
    if !Sane(size) {
      InsaneTooBig(h, size);
    }
  }

  /** The block that kmalloc appends when the sum wraps to no page at all */
  function WildBlock(end: nat): Block {
    Block(end * 4096, Wrap(-24), true, 0)
  }

  /** What kmalloc does from a heap in order, for every size_t */
  ghost predicate Returned(h: Heap, size: nat, h': Heap, ptr: nat) {
    if Orderly(size) then
      HeapModel.Kmalloc(h, size) == Result(h', ptr)
    else if h.end >= h.max then
      h' == h && ptr == 0
    else
      && ptr == h.end * 4096 + 24
      && HasFit(h.bs + [WildBlock(h.end)], size) && h' == h.(bs := Allocate(h.bs + [WildBlock(h.end)], size))
  }

  /** kmalloc keeps the heap in order for exactly these sizes: all but the 4096 whose wrapped sum asks for no page. */
  lemma GoodIffOrderly(h: Heap, size: nat, h': Heap, ptr: nat)
    requires Good(h) && size < U64 && Returned(h, size, h', ptr)
    ensures Good(h') <==> Orderly(size) || h.end >= h.max
  {
    if Sane(size) {
      KmallocKeeps(h, size);
    } else if Orderly(size) {
      WrappedKeeps(h, size);
    } else if h.end < h.max {
      InsaneTooBig(h, size);
      WildDisorders(h, size);
    }
  }

  lemma WildDisorders(h: Heap, size: nat)
    requires !HasFit(h.bs, size) && HasFit(h.bs + [WildBlock(h.end)], size)
    ensures !Ordered(Allocate(h.bs + [WildBlock(h.end)], size), HEAP_START, h.end * 4096)
  {
    var b := WildBlock(h.end);
    assert b.size >= size by {
      WildFits(h.bs, b, size);
    }
    AllocateBehind(h.bs, [b], size);
    var bs := Allocate(h.bs + [b], size);
    assert bs[|h.bs|].addr == h.end * 4096;
    if Ordered(bs, HEAP_START, h.end * 4096) {
      OrderedAt(bs, HEAP_START, h.end * 4096, |h.bs|);
    }
  }

  lemma {:induction false} WildFits(bs: seq<Block>, b: Block, size: nat)
    requires !HasFit(bs, size) && HasFit(bs + [b], size)
    ensures Fits(b, size)
  {
    if bs != [] {
      assert (bs + [b])[1..] == bs[1..] + [b];
      WildFits(bs[1..], b, size);
    }
  }

  /** A pointer from kmalloc lies inside the heap exactly when the size sum did not wrap. */
  lemma InsideIffSane(h: Heap, size: nat, h': Heap, ptr: nat)
    requires Good(h) && size < U64 && Returned(h, size, h', ptr) && ptr != 0
    ensures ptr + size <= h'.end * 4096 <==> Sane(size)
  {
    HeapLimits(h, size);
    if Sane(size) {
      KmallocKeeps(h, size);
    } else if Orderly(size) {
      WrappedKeeps(h, size);
    }
  }

  /** For instance, a request for 2^64 - 25 bytes is granted at the end of any heap that may still grow. */
  lemma WrapExample(h: Heap, h': Heap, ptr: nat)
    requires Good(h) && h.end < h.max && Returned(h, 0xFFFF_FFFF_FFFF_FFE7, h', ptr)
    ensures ptr == h.end * 4096 + 24 && h'.end == h.end
  {
  }

  lemma ReturnsNull(h: Heap, size: nat, h': Heap)
    requires Good(h) && size < U64 && Retries(h, size, false, h') && !HasFit(h.bs, size) && h.end < h.max
    ensures Returned(h, size, h', 0)
  {
    GrowFrames(h.sp, h.root, h.end, PagesFor(size));
    if Orderly(size) && !Sane(size) {
      WrappedPages(size);
      assert h.bs + OnePages(h.end, 0) == h.bs;
    }
  }

  lemma RetryReturns(h: Heap, size: nat, h1: Heap, h': Heap, ptr: nat)
    requires Good(h) && size < U64 && Retries(h, size, true, h1) && !HasFit(h.bs, size) && h.end < h.max
    requires Good(h1) ==> Returned(h1, size, h', ptr)
    requires HasFit(h1.bs, size) ==> ptr == FirstFit(h1.bs, size) && h' == h1.(bs := Allocate(h1.bs, size))
    ensures Returned(h, size, h', ptr)
  {
    if Sane(size) {
      SanePages(size);
    } else if Orderly(size) {
      WrappedPages(size);
      RetryWrapped(h, size, h1);
    }
  }

  /** One page more, and the same request again */
  lemma RetryWrapped(h: Heap, size: nat, h1: Heap)
    requires Good(h) && Orderly(size) && !Sane(size) && !HasFit(h.bs, size) && h.end < h.max
    requires Retries(h, size, true, h1)
    ensures HeapModel.Kmalloc(h, size) == HeapModel.Kmalloc(h1, size)
  {
    WrappedPages(size);
    var b := NewBlock(h.end, 1);
    assert h1 == Heap(h.bs + [b], h.end + 1, h.max, h1.sp, h.root);
    WrappedOn(h, size, h1, h.max - h.end, h.max - h1.end);
  }

  lemma WrappedOn(h: Heap, size: nat, h1: Heap, n: nat, n1: nat)
    requires Orderly(size) && !Sane(size) && !HasFit(h.bs, size) && !HasFit(h1.bs, size)
    requires h1 == Heap(h.bs + [NewBlock(h.end, 1)], h.end + 1, h.max, h1.sp, h.root)
    requires GrowPages(h.sp, h.root, h.end, 1) == Grown(h1.sp, 1)
    requires h.end < h.max && n == h.max - h.end && n1 == h.max - h1.end
    ensures HeapModel.Kmalloc(h, size) == HeapModel.Kmalloc(h1, size)
  {
    GrowsByOne(h.sp, h.root, h.end, n, h1.sp, h1.end, n1);
    KmallocWrapped(h, size, n);
    KmallocWrapped(h1, size, n1);
    FilledOn(h, h1, GrowPages(h1.sp, h1.root, h1.end, n1));
  }

  lemma KmallocWrapped(h: Heap, size: nat, n: nat)
    requires Orderly(size) && !Sane(size) && !HasFit(h.bs, size) && h.end <= h.max && n == h.max - h.end
    ensures HeapModel.Kmalloc(h, size) == Result(Filled(h, GrowPages(h.sp, h.root, h.end, n)), 0)
  {
    if n == 0 {
      assert h.bs + OnePages(h.end, 0) == h.bs;
    }
  }

  lemma FilledOn(h: Heap, h1: Heap, rest: Grown)
    requires h1 == Heap(h.bs + [NewBlock(h.end, 1)], h.end + 1, h.max, h1.sp, h.root)
    ensures Filled(h1, rest) == Filled(h, Grown(rest.sp, rest.mapped + 1))
  {
    OneMorePage(h.bs, h.end, rest.mapped, rest.mapped + 1, h1.bs, h1.end);
  }

  lemma GrowsByOne(sp: Space, root: nat, end: nat, n: nat, sp1: Space, end1: nat, n1: nat)
    requires n > 0 && end1 == end + 1 && n1 == n - 1
    requires GrowPages(sp, root, end, 1) == Grown(sp1, 1)
    ensures var rest := GrowPages(sp1, root, end1, n1);
            GrowPages(sp, root, end, n) == Grown(rest.sp, rest.mapped + 1)
  {
    assert sp.Frame() != 0;
    PagesStep(sp, root, end, 1, sp1, end1, 0);
    PagesStep(sp, root, end, n, sp1, end1, n1);
  }

  lemma OneMorePage(bs: seq<Block>, end: nat, n1: nat, n: nat, bs1: seq<Block>, end1: nat)
    requires end1 == end + 1 && n1 == n - 1 && bs1 == bs + [NewBlock(end, 1)]
    ensures bs1 + OnePages(end1, n1) == bs + OnePages(end, n)
  {
    assert OnePages(end, n) == [NewBlock(end, 1)] + OnePages(end1, n1);
  }

  /** The heap from which kmalloc calls itself, or returns NULL if the growth failed */
  ghost predicate Retries(h: Heap, size: nat, ok: bool, h': Heap) {
    var pages := PagesFor(size);
    var g := GrowPages(h.sp, h.root, h.end, pages);
    && (ok <==> g.mapped == pages)
    && h'.sp == g.sp && h'.end == h.end + g.mapped && h'.root == h.root && h'.max == h.max
    && h'.bs == (if !ok then h.bs else if pages > 0 then h.bs + [NewBlock(h.end, pages)] else h.bs + [WildBlock(h.end)])
    && (ok && pages > 0 ==> Good(h'))
    && (ok && (Sane(size) || pages == 0) ==> HasFit(h'.bs, size) && FirstFit(h'.bs, size) == h.end * 4096 + 24)
    && (ok && !Sane(size) && pages > 0 ==> !HasFit(h'.bs, size))
  }

  lemma RetryState(h: Heap, size: nat, pages: nat, ok: bool, h': Heap)
    requires Good(h) && !HasFit(h.bs, size) && size < U64 && pages == PagesFor(size)
    requires var g := GrowPages(h.sp, h.root, h.end, pages);
             && (ok <==> g.mapped == pages)
             && h' == Heap(if ok then h.bs + [Block(h.end * 4096, Wrap(pages * 4096 - 24), true, 0)] else h.bs,
                           h.end + g.mapped, h.max, g.sp, h.root)
    ensures Retries(h, size, ok, h')
  {
    if ok {
      RetryGrown(h, size, pages, h');
    }
  }

  lemma RetryGrown(h: Heap, size: nat, pages: nat, h': Heap)
    requires Good(h) && !HasFit(h.bs, size) && size < U64 && pages == PagesFor(size)
    requires var g := GrowPages(h.sp, h.root, h.end, pages);
             && g.mapped == pages
             && h' == Heap(h.bs + [Block(h.end * 4096, Wrap(pages * 4096 - 24), true, 0)], h.end + pages, h.max,
                           g.sp, h.root)
    ensures Retries(h, size, true, h')
  {
    var b := Block(h.end * 4096, Wrap(pages * 4096 - 24), true, 0);
    RetryBlock(h, size, pages, b);
    RetryFit(h, size, b);
    if pages > 0 {
      AppendedGood(h, pages, b);
    }
  }

  lemma RetryBlock(h: Heap, size: nat, pages: nat, b: Block)
    requires size < U64 && pages == PagesFor(size) && b == Block(h.end * 4096, Wrap(pages * 4096 - 24), true, 0)
    ensures b == if pages > 0 then NewBlock(h.end, pages) else WildBlock(h.end)
    ensures b.size >= size <==> Sane(size) || pages == 0
  {
    WrappedSums(size);
  }

  lemma RetryFit(h: Heap, size: nat, b: Block)
    requires Good(h) && !HasFit(h.bs, size) && b.addr == h.end * 4096 && b.free
    ensures HasFit(h.bs + [b], size) <==> b.size >= size
    ensures b.size >= size ==> FirstFit(h.bs + [b], size) == h.end * 4096 + 24
  {
    AppendKeeps(h.bs, b, HEAP_START, h.end * 4096, b.End());
  }

  /** The size arithmetic of kmalloc, wrap-around included */
  lemma WrappedSums(size: nat)
    requires size < U64
    ensures PagesFor(size) > 0 ==> Wrap(PagesFor(size) * 4096 - 24) == PagesFor(size) * 4096 - 24
    ensures PagesFor(size) == 0 ==> !Sane(size) && Wrap(-24) >= size
    ensures Sane(size) ==> PagesFor(size) > 0 && PagesFor(size) * 4096 - 24 >= size
    ensures !Sane(size) && PagesFor(size) > 0 ==> PagesFor(size) == 1 && size > 4096
  {
    if Sane(size) {
      SanePages(size);
      NoWrap(PagesFor(size) * 4096 - 24);
    } else if PagesFor(size) > 0 {
      WrappedPages(size);
    } else {
      NoPages(size);
    }
  }

  lemma NoWrap(x: nat)
    requires x < U64
    ensures Wrap(x) == x
  {
  }

  lemma NoPages(size: nat)
    requires size < U64 && PagesFor(size) == 0
    ensures Wrap(-24) == U64 - 24 >= size
  {
  }

  /** What is left of a growth after its first i pages */
  ghost function GrownOn(sp: Space, root: nat, page: nat, n: nat, i: nat): Grown {
    var rest := GrowPages(sp, root, page, n);
    Grown(rest.sp, rest.mapped + i)
  }

  lemma PageMapped(sp: Space, root: nat, page: nat, left: nat, i: nat, sp': Space, virt: nat,
                   page1: nat, left1: nat, i1: nat)
    requires left > 0 && page1 == page + 1 && left1 == left - 1 && i1 == i + 1
    requires virt == page * 4096 && sp.Frame() != 0
    requires sp' == MapPage(sp.(used := sp.Drawn()), root, virt, sp.Frame() * 4096, HEAP_FLAGS)
    ensures GrownOn(sp, root, page, left, i) == GrownOn(sp', root, page1, left1, i1)
  {
  }

  /** What pmm_alloc returns, as a frame */
  lemma FrameAddress(sp: Space, phys: nat)
    requires var p := LowestFree(sp.used, 0, sp.pages); phys == if p == sp.pages then 0 else p * 4096
    ensures phys == sp.Frame() * 4096 && (phys == 0 <==> sp.Frame() == 0)
  {
  }

  /** The stores of kfree */
  lemma Freed(mem: Headers, head: nat, pre: seq<Block>, suf: seq<Block>, hi: nat, mem': Headers)
    requires suf != [] && Ordered(pre + suf, HEAP_START, hi)
    requires Listed(mem, head, pre, suf[0].addr) && Listed(mem, suf[0].addr, suf, 0)
    requires var b, p := suf[0], suf[0].addr;
             var next := mem[p].next;
             if |suf| > 1 && suf[1].free then
               next in mem && mem' == mem[p := Header(b.size + 24 + suf[1].size, true, mem[next].next)]
             else
               mem' == mem[p := Header(b.size, true, next)]
    ensures Listed(mem', head, pre + Merge(suf[0], suf[1..]), 0)
  {
    var b, p, rest := suf[0], suf[0].addr, suf[1..];
    OrderedSplit(pre, suf, HEAP_START, hi);
    if rest != [] && rest[0].free {
      var merged := Block(p, b.size + 24 + rest[0].size, true, 0);
      assert Listed(mem', p, [merged], mem'[p].next);
      ListedReplace(mem, mem', head, pre, [merged], rest[1..], p, mem'[p].next, rest[0].End(), HEAP_START, hi);
    } else {
      var freed := b.(free := true, req := 0);
      assert Listed(mem', p, [freed], mem'[p].next);
      ListedReplace(mem, mem', head, pre, [freed], rest, p, mem'[p].next, b.End(), HEAP_START, hi);
    }
  }

  /** The stores of kmalloc when it hands out a block */
  lemma Taken(mem: Headers, head: nat, pre: seq<Block>, suf: seq<Block>, size: nat, hi: nat, mem': Headers)
    requires suf != [] && Ordered(pre + suf, HEAP_START, hi) && hi < 0x8000_0000_0000_0000
    requires !HasFit(pre, size) && Fits(suf[0], size)
    requires Listed(mem, head, pre, suf[0].addr) && Listed(mem, suf[0].addr, suf, 0)
    requires var b, p := suf[0], suf[0].addr;
             mem' == if b.size > Wrap(size + 40) then
                       mem[Wrap(p + 24 + size) := Header(Wrap(b.size - size - 24), true, mem[p].next)]
                          [p := Header(size, false, Wrap(p + 24 + size))]
                     else
                       mem[p := Header(b.size, false, mem[p].next)]
    ensures HasFit(pre + suf, size) && Listed(mem', head, Allocate(pre + suf, size), 0)
  {
    var b, p, rest := suf[0], suf[0].addr, suf[1..];
    AllocateBehind(pre, suf, size);
    OrderedSplit(pre, suf, HEAP_START, hi);
    OrderedBound(rest, b.End(), hi);
    if Splits(b, size) {
      var c := Block(p + 24 + size, Wrap(b.size - size - 24), true, 0);
      var first := Block(p, size, false, size);
      assert Listed(mem', c.addr, [c], mem[p].next);
      assert Listed(mem', p, [first, c], mem[p].next);
      ListedReplace(mem, mem', head, pre, [first, c], rest, p, mem[p].next, b.End(), HEAP_START, hi);
    } else {
      var whole := b.(free := false, req := size);
      assert Listed(mem', p, [whole], mem[p].next);
      ListedReplace(mem, mem', head, pre, [whole], rest, p, mem[p].next, b.End(), HEAP_START, hi);
    }
  }
}
