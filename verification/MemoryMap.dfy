/** What the boot loader's memory map says, entry by entry: the meaning of the top and of the coverage that the two
    walks of pmm_setup compute. */
module MemoryMap {
  import opened ByteBitmap
  import opened Multiboot

  // ---------- numbers in the boot information ----------

  /** Four bytes, the least significant first */
  lemma ReadFour(s: seq<byte>, off: nat)
    requires off + 4 <= |s|
    ensures Read(s, off, 4) ==
            s[off] as int + 0x100 * s[off + 1] as int + 0x1_0000 * s[off + 2] as int + 0x100_0000 * s[off + 3] as int
  {
    ReadFirst(s, off, 4);
    ReadFirst(s, off + 1, 3);
    ReadFirst(s, off + 2, 2);
    ReadFirst(s, off + 3, 1);
    assert s[off + 4..off + 4] == [];
  }

  lemma ReadFirst(s: seq<byte>, off: nat, n: nat)
    requires 0 < n && off + n <= |s|
    ensures Read(s, off, n) == s[off] as int + 0x100 * Read(s, off + 1, n - 1)
  {
    assert s[off..off + n][1..] == s[off + 1..off + n];
  }

  /** Eight bytes are two times four, the low half first. */
  lemma ReadEight(s: seq<byte>, off: nat)
    requires off + 8 <= |s|
    ensures Read(s, off, 8) == Read(s, off, 4) + 0x1_0000_0000 * Read(s, off + 4, 4)
  {
    ReadFour(s, off);
    ReadFirst(s, off, 8);
    ReadFirst(s, off + 1, 7);
    ReadFirst(s, off + 2, 6);
    ReadFirst(s, off + 3, 5);
  }

  /** The step from tag to tag: the least multiple of 8 that holds the tag */
  lemma AlignIs(size: nat)
    requires size + 7 < 0x1_0000_0000
    ensures Align8(size) % 8 == 0 && size <= Align8(size) < size + 8
  {
  }

  // ---------- tags and entries ----------

  /** A tag of the list that starts at `from` is at offset off. */
  ghost predicate HasTag(s: seq<byte>, from: nat, off: nat)
    requires GoodTags(s, from)
    decreases |s| - from
  {
    Read(s, from, 4) != 0 && (off == from || HasTag(s, from + Align8(Read(s, from + 4, 4)), off))
  }

  lemma {:induction false} TagIsGood(s: seq<byte>, from: nat, off: nat)
    requires GoodTags(s, from) && HasTag(s, from, off)
    ensures GoodTags(s, off) && Read(s, off, 4) != 0
    decreases |s| - from
  {
    if off != from {
      TagIsGood(s, from + Align8(Read(s, from + 4, 4)), off);
    }
  }

  /** Entry j of the memory map that the tag at off holds, if it holds one (type 6) with so many entries */
  predicate HasEntry(s: seq<byte>, off: nat, j: nat, ptr: nat) {
    && off + 16 <= |s| && ptr + 24 <= |s|
    && Read(s, off, 4) == 6 && ptr == off + 16 + j * Read(s, off + 8, 4) && ptr < off + Read(s, off + 4, 4)
  }

  /** The memory map declares [base, base + len) available. */
  ghost predicate Declares(s: seq<byte>, from: nat, off: nat, j: nat, ptr: nat, base: nat, len: nat)
    requires GoodTags(s, from)
  {
    && HasTag(s, from, off) && HasEntry(s, off, j, ptr)
    && Read(s, ptr + 16, 4) == 1 && base == Read(s, ptr, 8) && len == Read(s, ptr + 8, 8)
  }

  // ---------- the entries of one tag ----------

  lemma NextMultiple(start: nat, d: nat, j: nat)
    requires j > 0
    ensures start + j * d == start + d + (j - 1) * d
  {
  }

  /** Every entry of the walk is inside the boot information and ends without wrapping. */
  lemma {:induction false} EntryIsGood(s: seq<byte>, start: nat, end: nat, d: nat, j: nat, ptr: nat)
    requires d > 0 && GoodEntries(s, start, end, d) && ptr == start + j * d && ptr < end
    ensures ptr + 24 <= |s|
    decreases j
  {
    if j > 0 {
      NextMultiple(start, d, j);
      EntryIsGood(s, start + d, end, d, j - 1, ptr);
    }
  }

  lemma {:induction false} EntryBelowTop(s: seq<byte>, start: nat, end: nat, d: nat, j: nat, ptr: nat)
    requires d > 0 && GoodEntries(s, start, end, d) && ptr == start + j * d && ptr < end && ptr + 24 <= |s|
    requires Read(s, ptr + 16, 4) == 1
    ensures Read(s, ptr, 8) + Read(s, ptr + 8, 8) <= EntryTop(s, start, end, d)
    decreases j
  {
    if j > 0 {
      NextMultiple(start, d, j);
      EntryBelowTop(s, start + d, end, d, j - 1, ptr);
    }
  }

  lemma {:induction false} EntryAtTop(s: seq<byte>, start: nat, end: nat, d: nat) returns (j: nat, ptr: nat)
    requires d > 0 && GoodEntries(s, start, end, d) && EntryTop(s, start, end, d) > 0
    ensures ptr == start + j * d && ptr < end && ptr + 24 <= |s| && Read(s, ptr + 16, 4) == 1
    ensures Read(s, ptr, 8) + Read(s, ptr + 8, 8) == EntryTop(s, start, end, d)
    decreases end - start
  {
    j, ptr := 0, start;
    if Read(s, start + 16, 4) != 1 || Read(s, start, 8) + Read(s, start + 8, 8) != EntryTop(s, start, end, d) {
      j, ptr := EntryAtTop(s, start + d, end, d);
      j := j + 1;
      NextMultiple(start, d, j);
    }
  }

  lemma {:induction false} EntryCoversIs(s: seq<byte>, start: nat, end: nat, d: nat, j: nat, ptr: nat, page: nat)
    requires d > 0 && GoodEntries(s, start, end, d) && ptr == start + j * d && ptr < end && ptr + 24 <= |s|
    requires Read(s, ptr + 16, 4) == 1
    requires Read(s, ptr, 8) / 4096 <= page < Read(s, ptr, 8) / 4096 + Read(s, ptr + 8, 8) / 4096
    ensures EntryCovers(s, start, end, d, page)
    decreases j
  {
    if j > 0 {
      NextMultiple(start, d, j);
      EntryCoversIs(s, start + d, end, d, j - 1, ptr, page);
    }
  }

  lemma {:induction false} CoveringEntry(s: seq<byte>, start: nat, end: nat, d: nat, page: nat)
    returns (j: nat, ptr: nat)
    requires d > 0 && GoodEntries(s, start, end, d) && EntryCovers(s, start, end, d, page)
    ensures ptr == start + j * d && ptr < end && ptr + 24 <= |s| && Read(s, ptr + 16, 4) == 1
    ensures Read(s, ptr, 8) / 4096 <= page < Read(s, ptr, 8) / 4096 + Read(s, ptr + 8, 8) / 4096
    decreases end - start
  {
    j, ptr := 0, start;
    if !(Read(s, start + 16, 4) == 1 &&
         Read(s, start, 8) / 4096 <= page < Read(s, start, 8) / 4096 + Read(s, start + 8, 8) / 4096) {
      j, ptr := CoveringEntry(s, start + d, end, d, page);
      j := j + 1;
      NextMultiple(start, d, j);
    }
  }

  // ---------- the whole map ----------

  lemma {:induction false} BelowTop(s: seq<byte>, from: nat, off: nat, j: nat, ptr: nat, base: nat, len: nat)
    requires GoodTags(s, from) && Declares(s, from, off, j, ptr, base, len)
    ensures base + len <= Top(s, from)
    decreases |s| - from
  {
    var next := from + Align8(Read(s, from + 4, 4));
    TopStep(s, from, next);
    if off == from {
      EntryBelowTop(s, off + 16, off + Read(s, off + 4, 4), Read(s, off + 8, 4), j, ptr);
    } else {
      BelowTop(s, next, off, j, ptr, base, len);
    }
  }

  lemma {:induction false} AtTop(s: seq<byte>, from: nat) returns (off: nat, j: nat, ptr: nat, base: nat, len: nat)
    requires GoodTags(s, from) && Top(s, from) > 0
    ensures Declares(s, from, off, j, ptr, base, len) && base + len == Top(s, from)
    decreases |s| - from
  {
    var size, next := Read(s, from + 4, 4), from + Align8(Read(s, from + 4, 4));
    TopStep(s, from, next);
    if Top(s, from) == Top(s, next) {
      off, j, ptr, base, len := AtTop(s, next);
    } else {
      off := from;
      j, ptr := EntryAtTop(s, from + 16, from + size, Read(s, from + 8, 4));
      base, len := Read(s, ptr, 8), Read(s, ptr + 8, 8);
    }
  }

  /** total_memory is the highest end of an available region of the memory map: every available region ends at or below
      it, and if it is not 0, one ends there.  Regions of any other type do not count. */
  lemma TopIs(s: seq<byte>)
    requires GoodTags(s, 8)
    ensures forall off: nat, j: nat, ptr: nat, base: nat, len: nat ::
              Declares(s, 8, off, j, ptr, base, len) ==> base + len <= Top(s, 8)
    ensures Top(s, 8) > 0 ==> exists off: nat, j: nat, ptr: nat, base: nat, len: nat ::
              Declares(s, 8, off, j, ptr, base, len) && base + len == Top(s, 8)
  {
    forall off: nat, j: nat, ptr: nat, base: nat, len: nat | Declares(s, 8, off, j, ptr, base, len)
      ensures base + len <= Top(s, 8)
    {
      BelowTop(s, 8, off, j, ptr, base, len);
    }
    if Top(s, 8) > 0 {
      var off, j, ptr, base, len := AtTop(s, 8);
    }
  }

  lemma {:induction false} DeclaredCovers(s: seq<byte>, from: nat, off: nat, j: nat, ptr: nat, base: nat, len: nat,
                                          page: nat)
    requires GoodTags(s, from) && Declares(s, from, off, j, ptr, base, len)
    requires base / 4096 <= page < base / 4096 + len / 4096
    ensures Covers(s, from, page)
    decreases |s| - from
  {
    if off == from {
      EntryCoversIs(s, off + 16, off + Read(s, off + 4, 4), Read(s, off + 8, 4), j, ptr, page);
    } else {
      DeclaredCovers(s, from + Align8(Read(s, from + 4, 4)), off, j, ptr, base, len, page);
    }
  }

  lemma {:induction false} CoveringRegion(s: seq<byte>, from: nat, page: nat)
    returns (off: nat, j: nat, ptr: nat, base: nat, len: nat)
    requires GoodTags(s, from) && Covers(s, from, page)
    ensures Declares(s, from, off, j, ptr, base, len) && base / 4096 <= page < base / 4096 + len / 4096
    decreases |s| - from
  {
    var size, d := Read(s, from + 4, 4), Read(s, from + 8, 4);
    if Read(s, from, 4) == 6 && EntryCovers(s, from + 16, from + size, d, page) {
      off := from;
      j, ptr := CoveringEntry(s, from + 16, from + size, d, page);
      base, len := Read(s, ptr, 8), Read(s, ptr + 8, 8);
    } else {
      off, j, ptr, base, len := CoveringRegion(s, from + Align8(size), page);
    }
  }

  /** A page is freed by the second walk exactly if it is among the len / 4096 pages from page base / 4096 on, for some
      available region. */
  lemma CoversIs(s: seq<byte>, page: nat)
    requires GoodTags(s, 8)
    ensures Covers(s, 8, page) <==> exists off: nat, j: nat, ptr: nat, base: nat, len: nat ::
              Declares(s, 8, off, j, ptr, base, len) && base / 4096 <= page < base / 4096 + len / 4096
  {
    if Covers(s, 8, page) {
      var off, j, ptr, base, len := CoveringRegion(s, 8, page);
    }
    if off: nat, j: nat, ptr: nat, base: nat, len: nat :|
      Declares(s, 8, off, j, ptr, base, len) && base / 4096 <= page < base / 4096 + len / 4096
    {
      DeclaredCovers(s, 8, off, j, ptr, base, len, page);
    }
  }

  /** Nothing is left out for its place: all entries of all memory-map tags lie inside the boot information. */
  lemma EntriesInside(s: seq<byte>, off: nat, j: nat, ptr: nat)
    requires GoodTags(s, 8) && HasTag(s, 8, off)
    ensures off + 8 <= |s| && (Read(s, off, 4) == 6 ==> off + 16 <= |s|)
    ensures Read(s, off, 4) == 6 && ptr == off + 16 + j * Read(s, off + 8, 4) && ptr < off + Read(s, off + 4, 4) ==>
              HasEntry(s, off, j, ptr)
  {
    TagIsGood(s, 8, off);
    if Read(s, off, 4) == 6 && ptr == off + 16 + j * Read(s, off + 8, 4) && ptr < off + Read(s, off + 4, 4) {
      EntryIsGood(s, off + 16, off + Read(s, off + 4, 4), Read(s, off + 8, 4), j, ptr);
    }
  }
}
