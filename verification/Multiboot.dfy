/** pmm_setup: from the boot loader's memory map to the page bitmap (Multiboot2 Specification,
    section 3.6.8).  The boot information is a sequence of bytes; addresses are offsets into it. */
module Multiboot {
  import opened ByteBitmap
  import opened PhysicalMemory
  import opened Bits

  /** The number that bytes spell, least significant first */
  function LittleEndian(bytes: seq<byte>): nat {
    if bytes == [] then 0 else bytes[0] + 256 * LittleEndian(bytes[1..])
  }

  /** The n-byte number at offset off */
  function Read(s: seq<byte>, off: nat, n: nat): nat
    requires off + n <= |s|
  {
    LittleEndian(s[off..off + n])
  }

  // ---------- well-formed boot information ----------

  /** The entries from ptr up to end, entrySize bytes apart, lie inside s and do not wrap. */
  ghost predicate GoodEntries(s: seq<byte>, ptr: nat, end: nat, entrySize: nat)
    requires entrySize > 0
    decreases end - ptr
  {
    ptr < end ==>
      && ptr + 24 <= |s|
      && Read(s, ptr, 8) + Read(s, ptr + 8, 8) < 0x1_0000_0000_0000_0000
      && GoodEntries(s, ptr + entrySize, end, entrySize)
  }

  /** C's `(size + 7) & ~7` on uint32_t */
  function Align8(size: nat): nat {
    (size + 7) % 0x1_0000_0000 / 8 * 8
  }

  /** A tag list from off: each tag is at least its own 8-byte header, and a type-0 tag ends the list. */
  ghost predicate GoodTags(s: seq<byte>, off: nat)
    decreases |s| - off
  {
    && off + 8 <= |s| < 0x1_0000_0000
    && (Read(s, off, 4) != 0 ==>
          && var size := Read(s, off + 4, 4);
          && 8 <= size && off + size + 8 <= |s|
          && (Read(s, off, 4) == 6 ==>
                && 16 <= size && Read(s, off + 8, 4) > 0
                && GoodEntries(s, off + 16, off + size, Read(s, off + 8, 4)))
          && GoodTags(s, off + Align8(size)))
  }

  // ---------- the memory a tag list declares available (entries of type 1) ----------

  /** Some available entry from ptr up to end covers the page. */
  ghost predicate EntryCovers(s: seq<byte>, ptr: nat, end: nat, entrySize: nat, page: nat)
    requires entrySize > 0 && GoodEntries(s, ptr, end, entrySize)
    decreases end - ptr
  {
    && ptr < end
    && (|| (&& Read(s, ptr + 16, 4) == 1
            && PageOf(Read(s, ptr, 8)) <= page < PageOf(Read(s, ptr, 8)) + PageOf(Read(s, ptr + 8, 8)))
        || EntryCovers(s, ptr + entrySize, end, entrySize, page))
  }

  /** Some available entry of some memory-map tag from off on covers the page. */
  ghost predicate Covers(s: seq<byte>, off: nat, page: nat)
    requires GoodTags(s, off)
    decreases |s| - off
  {
    && Read(s, off, 4) != 0
    && var size := Read(s, off + 4, 4);
    && (|| (&& Read(s, off, 4) == 6
            && EntryCovers(s, off + 16, off + size, Read(s, off + 8, 4), page))
        || Covers(s, off + Align8(size), page))
  }

  function Max(a: nat, b: nat): nat {
    if a > b then a else b
  }

  /** The highest end of an available entry, 0 if there is none */
  ghost function EntryTop(s: seq<byte>, ptr: nat, end: nat, entrySize: nat): nat
    requires entrySize > 0 && GoodEntries(s, ptr, end, entrySize)
    decreases end - ptr
  {
    if ptr >= end then 0
    else
      Max(if Read(s, ptr + 16, 4) == 1 then Read(s, ptr, 8) + Read(s, ptr + 8, 8) else 0,
          EntryTop(s, ptr + entrySize, end, entrySize))
  }

  ghost function Top(s: seq<byte>, off: nat): nat
    requires GoodTags(s, off)
    decreases |s| - off
  {
    if Read(s, off, 4) == 0 then 0
    else
      var size := Read(s, off + 4, 4);
      Max(if Read(s, off, 4) == 6 then EntryTop(s, off + 16, off + size, Read(s, off + 8, 4)) else 0,
          Top(s, off + Align8(size)))
  }

  /** The first walk of pmm_setup */
  method TotalMemory(s: seq<byte>) returns (total: nat)
    requires GoodTags(s, 8)
    ensures total == Top(s, 8) < U64
  {
    total := 0;
    var tag := 8;
    while Read(s, tag, 4) != 0
      invariant GoodTags(s, tag)
      invariant Max(total, Top(s, tag)) == Top(s, 8) && total < U64
      decreases |s| - tag
    {
      var size := Read(s, tag + 4, 4);
      var next := tag + Align8(size);
      TopStep(s, tag, next);
      if Read(s, tag, 4) == 6 {
        total := TotalEntries(s, tag + 16, tag + size, Read(s, tag + 8, 4), total);
      }
      tag := next;
    }
  }

  lemma TopStep(s: seq<byte>, tag: nat, next: nat)
    requires GoodTags(s, tag) && Read(s, tag, 4) != 0 && next == tag + Align8(Read(s, tag + 4, 4))
    ensures GoodTags(s, next) && tag < next <= |s|
    ensures Top(s, tag) ==
            Max(if Read(s, tag, 4) == 6 then EntryTop(s, tag + 16, tag + Read(s, tag + 4, 4), Read(s, tag + 8, 4))
                else 0,
                Top(s, next))
  {
  }

  /** The inner loop of the first walk */
  method TotalEntries(s: seq<byte>, start: nat, end: nat, entrySize: nat, sofar: nat) returns (total: nat)
    requires entrySize > 0 && GoodEntries(s, start, end, entrySize) && sofar < U64
    ensures total == Max(sofar, EntryTop(s, start, end, entrySize)) < U64
  {
    total := sofar;
    var ptr := start;
    while ptr < end
      invariant GoodEntries(s, ptr, end, entrySize)
      invariant Max(total, EntryTop(s, ptr, end, entrySize)) == Max(sofar, EntryTop(s, start, end, entrySize))
      invariant total < U64
      decreases end - ptr
    {
      if Read(s, ptr + 16, 4) == 1 {
        var regionEnd := Read(s, ptr, 8) + Read(s, ptr + 8, 8);
        if regionEnd > total {
          total := regionEnd;
        }
      }
      ptr := ptr + entrySize;
    }
  }

  /** The second walk of pmm_setup: every declared page is freed, and nothing else is touched. */
  method FreeTags(s: seq<byte>, pmm: Pmm)
    requires GoodTags(s, 8) && pmm.Valid()
    requires PageOf(Top(s, 8)) <= pmm.totalPages
    modifies pmm`usedPages, pmm`used, pmm.bitmap
    ensures pmm.Valid()
    ensures forall p: nat :: p in pmm.used <==> p in old(pmm.used) && !Covers(s, 8, p)
  {
    var tag := 8;
    while Read(s, tag, 4) != 0
      invariant GoodTags(s, tag) && PageOf(Top(s, tag)) <= pmm.totalPages
      invariant pmm.Valid()
      invariant forall p: nat ::
          p in pmm.used && !Covers(s, tag, p) <==> p in old(pmm.used) && !Covers(s, 8, p)
      decreases |s| - tag
    {
      var size := Read(s, tag + 4, 4);
      if Read(s, tag, 4) == 6 {
        FreeEntries(s, tag + 16, tag + size, Read(s, tag + 8, 4), pmm);
      }
      tag := tag + Align8(size);
    }
  }

  /** The inner loop of the second walk */
  method FreeEntries(s: seq<byte>, start: nat, end: nat, entrySize: nat, pmm: Pmm)
    requires entrySize > 0 && GoodEntries(s, start, end, entrySize) && pmm.Valid()
    requires PageOf(EntryTop(s, start, end, entrySize)) <= pmm.totalPages
    modifies pmm`usedPages, pmm`used, pmm.bitmap
    ensures pmm.Valid()
    ensures forall p: nat :: p in pmm.used <==> p in old(pmm.used) && !EntryCovers(s, start, end, entrySize, p)
  {
    var ptr := start;
    while ptr < end
      invariant GoodEntries(s, ptr, end, entrySize) && PageOf(EntryTop(s, ptr, end, entrySize)) <= pmm.totalPages
      invariant pmm.Valid()
      invariant forall p: nat ::
          p in pmm.used && !EntryCovers(s, ptr, end, entrySize, p)
          <==> p in old(pmm.used) && !EntryCovers(s, start, end, entrySize, p)
      decreases end - ptr
    {
      if Read(s, ptr + 16, 4) == 1 {
        WholePages(Read(s, ptr, 8), Read(s, ptr + 8, 8), EntryTop(s, ptr, end, entrySize));
        pmm.FreeRegion(Read(s, ptr, 8), Read(s, ptr + 8, 8));
      }
      ptr := ptr + entrySize;
    }
  }

  /** The whole pages of a region lie below its end, and below the end of any memory that contains it. */
  lemma WholePages(addr: nat, len: nat, top: nat)
    requires addr + len <= top
    ensures PageOf(addr) + PageOf(len) <= PageOf(top)
  {
  }

  /** pmm_setup.  Among the pages the allocator scans, exactly the declared pages from 3 MiB up
      (page 768) are free.  Every bit that is written belongs to a page below totalPages. */
  method Setup(s: seq<byte>, pmm: Pmm)
    requires GoodTags(s, 8)
    requires PageOf(Top(s, 8)) >= 768
    modifies pmm
    ensures pmm.Valid() && fresh(pmm.bitmap)
    ensures pmm.totalPages == PageOf(Top(s, 8))
    ensures forall p: nat :: pmm.IsFree(p) <==>
              p < pmm.Pages() && p >= 768 && Covers(s, 8, p)
  {
    var total := TotalMemory(s);
    pmm.Init(total);
    assert forall p: nat :: p < pmm.Pages() ==> p in pmm.used by {
      forall p: nat | p < pmm.Pages()
        ensures p in pmm.used
      {
        assert !pmm.IsFree(p);
      }
    }
    FreeTags(s, pmm);
    pmm.ReserveRegion(0, 0x100000);
    pmm.ReserveRegion(0x100000, 0x200000);
  }
}
