/** A bitmap of bytes, and the set of its bits that are set. */
module ByteBitmap {
  import opened Bits

  type byte = b: int | 0 <= b < 256

  /** Bit p of a bitmap */
  predicate BitAt(s: seq<byte>, p: nat)
    requires p < 8 * |s|
  {
    Bit(s[p / 8], p % 8)
  }

  /** The bits that are set */
  ghost function SetBits(s: seq<byte>): set<nat> {
    SetBelow(s, 8 * |s|)
  }

  ghost function SetBelow(s: seq<byte>, n: nat): set<nat>
    requires n <= 8 * |s|
  {
    if n == 0 then {} else SetBelow(s, n - 1) + if BitAt(s, n - 1) then {n - 1} else {}
  }

  lemma {:induction false} Member(s: seq<byte>, n: nat)
    requires n <= 8 * |s|
    ensures forall p: nat :: p in SetBelow(s, n) <==> p < n && BitAt(s, p)
  {
    if n > 0 {
      Member(s, n - 1);
    }
  }

  /** C's `b | (1 << j)` */
  function WithBit(b: byte, j: nat): (r: byte)
    requires j < 8
    ensures forall k: nat :: k < 8 ==> Bit(r, k) == (k == j || Bit(b, k))
  {
    ShlBelow(j, 8);
    AndOrBound(b, Shl(1, j), 8);
    assert forall k: nat {:trigger Bit(Or(b, Shl(1, j)), k)} ::
             k < 8 ==> Bit(Or(b, Shl(1, j)), k) == (k == j || Bit(b, k)) by {
      forall k: nat | k < 8 ensures Bit(Or(b, Shl(1, j)), k) == (k == j || Bit(b, k)) { SetClearBit(b, j, k); }
    }
    Or(b, Shl(1, j))
  }

  /** C's `b & ~(1 << j)` */
  function WithoutBit(b: byte, j: nat): (r: byte)
    requires j < 8
    ensures forall k: nat :: k < 8 ==> Bit(r, k) == (k != j && Bit(b, k))
  {
    AndOrBound(b, Not(j, 8), 8);
    assert forall k: nat {:trigger Bit(And(b, Not(j, 8)), k)} ::
             k < 8 ==> Bit(And(b, Not(j, 8)), k) == (k != j && Bit(b, k)) by {
      forall k: nat | k < 8 ensures Bit(And(b, Not(j, 8)), k) == (k != j && Bit(b, k)) { SetClearBit(b, j, k); }
    }
    And(b, Not(j, 8))
  }

  /** Byte updates are set updates. */
  lemma UpdateByte(s: seq<byte>, p: nat)
    requires p < 8 * |s|
    ensures SetBits(s[p / 8 := WithBit(s[p / 8], p % 8)]) == SetBits(s) + {p}
    ensures SetBits(s[p / 8 := WithoutBit(s[p / 8], p % 8)]) == SetBits(s) - {p}
  {
    var up, down := s[p / 8 := WithBit(s[p / 8], p % 8)], s[p / 8 := WithoutBit(s[p / 8], p % 8)];
    forall q: nat | q < 8 * |s|
      ensures BitAt(up, q) == (q == p || BitAt(s, q))
      ensures BitAt(down, q) == (q != p && BitAt(s, q))
    {
    }
    Member(s, 8 * |s|);
    Member(up, 8 * |s|);
    Member(down, 8 * |s|);
  }
}

/** Counting and searching the pages of a set. */
module PageCount {
  /** How many of the pages start, ..., start + count - 1 are in s */
  ghost function CountIn(s: set<nat>, start: nat, count: nat): nat {
    if count == 0 then 0 else CountIn(s, start, count - 1) + if start + count - 1 in s then 1 else 0
  }

  lemma {:induction false} CountWithout(s: set<nat>, page: nat, n: nat)
    requires page < n
    ensures CountIn(s - {page}, 0, n) == CountIn(s, 0, n) - if page in s then 1 else 0
    ensures CountIn(s + {page}, 0, n) == CountIn(s, 0, n) + if page in s then 0 else 1
  {
    if page < n - 1 {
      CountWithout(s, page, n - 1);
    } else {
      CountSame(s, s - {page}, n - 1);
      CountSame(s, s + {page}, n - 1);
    }
  }

  lemma {:induction false} CountSame(s: set<nat>, t: set<nat>, n: nat)
    requires forall p: nat :: p < n ==> (p in s <==> p in t)
    ensures CountIn(s, 0, n) == CountIn(t, 0, n)
  {
    if n > 0 {
      CountSame(s, t, n - 1);
    }
  }

  lemma {:induction false} CountAll(s: set<nat>, n: nat)
    ensures CountIn(s, 0, n) <= n
    ensures CountIn(s, 0, n) == n <==> forall p: nat :: p < n ==> p in s
  {
    if n > 0 {
      CountAll(s, n - 1);
    }
  }

  lemma {:induction false} CountMonotone(s: set<nat>, t: set<nat>, n: nat)
    requires s <= t
    ensures CountIn(s, 0, n) <= CountIn(t, 0, n)
  {
    if n > 0 {
      CountMonotone(s, t, n - 1);
    }
  }

  /** The lowest page from start up to n that is not in s; n if there is none */
  ghost function LowestFree(s: set<nat>, start: nat, n: nat): nat
    decreases n - start
  {
    if start >= n then n else if start !in s then start else LowestFree(s, start + 1, n)
  }

  lemma {:induction false} LowestFreeIs(s: set<nat>, start: nat, n: nat)
    requires start <= n
    ensures var p := LowestFree(s, start, n);
            start <= p <= n && (p < n ==> p !in s) && forall q: nat :: start <= q < p ==> q in s
    decreases n - start
  {
    if start < n && start in s {
      LowestFreeIs(s, start + 1, n);
    }
  }

  lemma {:induction false} LowestFreeUnique(s: set<nat>, start: nat, n: nat, p: nat)
    requires start <= p <= n && (p < n ==> p !in s) && forall q: nat :: start <= q < p ==> q in s
    ensures LowestFree(s, start, n) == p
    decreases n - start
  {
    if start < p {
      LowestFreeUnique(s, start + 1, n, p);
    }
  }

  /** There is a free page to find exactly when the count says so; taking it lowers the count by one. */
  lemma TakeLowest(s: set<nat>, n: nat)
    ensures var p := LowestFree(s, 0, n);
            && CountIn(s, 0, n) <= n && p <= n
            && (p == n <==> CountIn(s, 0, n) == n)
            && (p < n ==> p !in s && CountIn(s + {p}, 0, n) == CountIn(s, 0, n) + 1)
  {
    LowestFreeIs(s, 0, n);
    CountAll(s, n);
    var p := LowestFree(s, 0, n);
    if p < n {
      CountWithout(s, p, n);
    }
  }
}

/** pmm.c: the bitmap page-frame allocator, proved against the set of used pages. */
module PhysicalMemory {
  import opened ByteBitmap
  import opened Bits
  import opened PageCount

  /** The number of whole pages in x bytes; also the page an address lies in (PAGE_SIZE is 4096) */
  function PageOf(x: nat): nat {
    x / 4096
  }

  /** The number of pages that cover x bytes */
  function PagesUp(x: nat): nat {
    (x + 4095) / 4096
  }

  /** The page an address lies in begins at or below it; so many pages, and no fewer, cover x bytes. */
  lemma PageBounds(x: nat)
    ensures PageOf(x) * 4096 <= x < PageOf(x) * 4096 + 4096
    ensures x <= PagesUp(x) * 4096 < x + 4096
  {
  }

  /** The inner scan of pmm_alloc */
  method FirstClear(b: byte) returns (j: nat)
    requires b != 0xFF
    ensures j < 8 && !Bit(b, j)
    ensures forall k: nat :: k < j ==> Bit(b, k)
  {
    AllOnes(b, 8);
    j := 0;
    while j < 8
      invariant 0 <= j <= 8
      invariant forall k: nat :: k < j ==> Bit(b, k)
    {
      TestBit(b, j);
      if And(b, Shl(1, j)) == 0 {
        return j;
      }
      j := j + 1;
    }
  }

  lemma FullByte(s: seq<byte>, i: nat)
    requires i < |s| && s[i] == 0xFF
    ensures forall q: nat :: 8 * i <= q < 8 * i + 8 ==> q in SetBits(s)
  {
    AllOnes(0xFF, 8);
    Member(s, 8 * |s|);
  }

  lemma LowestClear(s: seq<byte>, i: nat, j: nat)
    requires i < |s| && j < 8 && !Bit(s[i], j)
    requires forall k: nat :: k < j ==> Bit(s[i], k)
    ensures i * 8 + j !in SetBits(s)
    ensures forall q: nat :: 8 * i <= q < 8 * i + j ==> q in SetBits(s)
  {
    Member(s, 8 * |s|);
    assert (i * 8 + j) / 8 == i && (i * 8 + j) % 8 == j;
    forall q: nat | 8 * i <= q < 8 * i + j
      ensures q in SetBits(s)
    {
      assert q / 8 == i && q % 8 < j;
    }
  }

  class Pmm {
    var bitmap: array<byte>
    var totalPages: nat
    var usedPages: int

    /** The pages whose bit is set, whether or not pmm_alloc scans them */
    ghost var used: set<nat>

    ghost predicate Valid()
      reads this, bitmap
    {
      && totalPages <= 0x10_0000_0000_0000
      && totalPages <= 8 * bitmap.Length < totalPages + 8
      && used == SetBits(bitmap[..])
    }

    /** pmm_alloc scans whole bytes only. */
    ghost function Pages(): nat
      reads this
    {
      8 * (totalPages / 8)
    }

    /** The pages pmm_alloc can still hand out */
    ghost predicate IsFree(p: nat)
      reads this
    {
      p < Pages() && p !in used
    }

    /** usedPages relative to the number of set bits */
    ghost function Drift(): int
      reads this
    {
      usedPages - CountIn(used, 0, 8 * bitmap.Length)
    }

    constructor ()
      ensures Valid() && totalPages == 0 && fresh(bitmap)
    {
      bitmap := new byte[0];
      totalPages, usedPages, used := 0, 0, {};
    }

    /** Every scanned page starts out used; bits of a last, partial byte keep whatever was there. */
    method Init(memSize: nat)
      requires memSize < U64
      modifies this
      ensures Valid() && fresh(bitmap)
      ensures totalPages == PageOf(memSize) && usedPages == totalPages
      ensures forall p: nat :: !IsFree(p)
    {
      totalPages := PageOf(memSize);
      var bitmapSize := totalPages / 8;
      var bytes := new byte[(totalPages + 7) / 8];
      var i := 0;
      while i < bitmapSize
        modifies bytes
        invariant 0 <= i <= bitmapSize
        invariant forall k :: 0 <= k < i ==> bytes[k] == 0xFF
      {
        bytes[i] := 0xFF;
        i := i + 1;
      }
      bitmap := bytes;
      usedPages := totalPages;
      used := SetBits(bytes[..]);
      forall p: nat | p < 8 * (totalPages / 8)
        ensures p in used
      {
        AllOnes(0xFF, 8);
        Member(bytes[..], 8 * |bytes[..]|);
      }
    }

    /** bitmap[page / 8] |= 1 << (page % 8), counted */
    method SetBitOf(page: nat)
      requires Valid() && page < 8 * bitmap.Length
      modifies this`usedPages, this`used, bitmap
      ensures Valid() && usedPages == old(usedPages) + 1
      ensures used == old(used) + {page}
      ensures Drift() == old(Drift()) + if page in old(used) then 1 else 0
    {
      CountWithout(used, page, 8 * bitmap.Length);
      UpdateByte(bitmap[..], page);
      ghost var before := bitmap[..];
      bitmap[page / 8] := WithBit(bitmap[page / 8], page % 8);
      assert bitmap[..] == before[page / 8 := WithBit(before[page / 8], page % 8)];
      usedPages, used := usedPages + 1, used + {page};
    }

    /** bitmap[page / 8] &= ~(1 << (page % 8)), counted */
    method ClearBit(page: nat)
      requires Valid() && page < 8 * bitmap.Length
      modifies this`usedPages, this`used, bitmap
      ensures Valid() && usedPages == old(usedPages) - 1
      ensures used == old(used) - {page}
      ensures Drift() == old(Drift()) - if page in old(used) then 0 else 1
    {
      CountWithout(used, page, 8 * bitmap.Length);
      UpdateByte(bitmap[..], page);
      ghost var before := bitmap[..];
      bitmap[page / 8] := WithoutBit(bitmap[page / 8], page % 8);
      assert bitmap[..] == before[page / 8 := WithoutBit(before[page / 8], page % 8)];
      usedPages, used := usedPages - 1, used - {page};
    }

    /** Frees a region.  The counter drops once per page, so it drifts by the pages that were free already. */
    method FreeRegion(addr: nat, len: nat)
      requires Valid()
      requires PageOf(addr) + PageOf(len) <= totalPages
      modifies this`usedPages, this`used, bitmap
      ensures Valid()
      ensures forall p: nat :: p in used <==> p in old(used) && !(PageOf(addr) <= p < PageOf(addr) + PageOf(len))
      ensures Drift() == old(Drift()) - (PageOf(len) - CountIn(old(used), PageOf(addr), PageOf(len)))
    {
      var startPage, numPages := PageOf(addr), PageOf(len);
      var i := 0;
      while i < numPages
        invariant 0 <= i <= numPages
        invariant Valid()
        invariant forall p: nat :: p in used <==> p in old(used) && !(startPage <= p < startPage + i)
        invariant Drift() == old(Drift()) - (i - CountIn(old(used), startPage, i))
      {
        var page := startPage + i;
        ClearBit(page);
        i := i + 1;
      }
    }

    /** Reserves a region.  The counter drifts by the pages that were used already. */
    method ReserveRegion(addr: nat, len: nat)
      requires Valid()
      requires len + 4095 < U64
      requires PageOf(addr) + PagesUp(len) <= totalPages
      modifies this`usedPages, this`used, bitmap
      ensures Valid()
      ensures forall p: nat :: p in used <==> p in old(used) || PageOf(addr) <= p < PageOf(addr) + PagesUp(len)
      ensures Drift() == old(Drift()) + CountIn(old(used), PageOf(addr), PagesUp(len))
    {
      var startPage, numPages := PageOf(addr), PagesUp(len);
      var i := 0;
      while i < numPages
        invariant 0 <= i <= numPages
        invariant Valid()
        invariant forall p: nat :: p in used <==> p in old(used) || startPage <= p < startPage + i
        invariant Drift() == old(Drift()) + CountIn(old(used), startPage, i)
      {
        var page := startPage + i;
        SetBitOf(page);
        i := i + 1;
      }
    }

    /** First fit: the lowest free page, or NULL (0) with nothing changed. */
    method Alloc() returns (addr: nat)
      requires Valid()
      modifies this`usedPages, this`used, bitmap
      ensures Valid() && Drift() == old(Drift())
      ensures var p := LowestFree(old(used), 0, Pages());
              if p == Pages() then
                addr == 0 && used == old(used) && usedPages == old(usedPages)
              else
                addr == p * 4096 && used == old(used) + {p}
    {
      var i := 0;
      while i < totalPages / 8
        invariant 0 <= i <= totalPages / 8
        invariant forall q: nat :: q < 8 * i ==> q in used
        invariant Valid() && unchanged(this) && unchanged(bitmap)
      {
        if bitmap[i] != 0xFF {
          var j := FirstClear(bitmap[i]);
          var page := i * 8 + j;
          LowestClear(bitmap[..], i, j);
          LowestFreeUnique(used, 0, Pages(), page);
          SetBitOf(page);
          return page * 4096;
        }
        FullByte(bitmap[..], i);
        i := i + 1;
      }
      LowestFreeUnique(used, 0, Pages(), Pages());
      return 0;
    }

    method FreePage(addr: nat)
      requires Valid()
      requires PageOf(addr) < totalPages
      modifies this`usedPages, this`used, bitmap
      ensures Valid()
      ensures used == old(used) - {PageOf(addr)}
      ensures Drift() == old(Drift()) - if PageOf(addr) in old(used) then 0 else 1
    {
      var page := PageOf(addr);
      ClearBit(page);
    }
  }
}
