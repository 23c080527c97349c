/** The kernel heap's block list as a value: first fit with splitting, growth at the end, and freeing
    with forward coalescing.  A block is a 24-byte header followed by its payload. */
module Blocks {
  import opened Bits

  /** A block; req is the size its current owner asked for */
  datatype Block = Block(addr: nat, size: nat, free: bool, req: nat) {
    function Payload(): nat {
      addr + 24
    }

    function End(): nat {
      addr + 24 + size
    }
  }

  // ---------- the operations ----------

  predicate Fits(b: Block, size: nat) {
    b.free && b.size >= size
  }

  predicate HasFit(bs: seq<Block>, size: nat) {
    bs != [] && (Fits(bs[0], size) || HasFit(bs[1..], size))
  }

  /** `curr->size > size + sizeof(struct Block) + 16`, on size_t */
  predicate Splits(b: Block, size: nat) {
    b.size > Wrap(size + 40)
  }

  /** The block that kmalloc hands out, and the rest of it if that is big enough to be a block */
  function Carve(b: Block, size: nat): seq<Block>
    requires b.size >= size
  {
    if Splits(b, size) then
      [Block(b.addr, size, false, size), Block(b.addr + 24 + size, Wrap(b.size - size - 24), true, 0)]
    else
      [b.(free := false, req := size)]
  }

  /** The list after the first block that fits is handed out */
  function Allocate(bs: seq<Block>, size: nat): seq<Block>
    requires HasFit(bs, size)
  {
    if Fits(bs[0], size) then Carve(bs[0], size) + bs[1..] else [bs[0]] + Allocate(bs[1..], size)
  }

  /** The address kmalloc returns */
  function FirstFit(bs: seq<Block>, size: nat): nat
    requires HasFit(bs, size)
  {
    if Fits(bs[0], size) then bs[0].Payload() else FirstFit(bs[1..], size)
  }

  predicate Owns(bs: seq<Block>, ptr: nat) {
    bs != [] && ((bs[0].Payload() == ptr && !bs[0].free) || Owns(bs[1..], ptr))
  }

  /** A freed block takes in its successor if that is free. */
  function Merge(b: Block, rest: seq<Block>): seq<Block> {
    if rest != [] && rest[0].free then
      [Block(b.addr, b.size + 24 + rest[0].size, true, 0)] + rest[1..]
    else
      [b.(free := true, req := 0)] + rest
  }

  function Release(bs: seq<Block>, ptr: nat): seq<Block>
    requires Owns(bs, ptr)
  {
    if bs[0].Payload() == ptr && !bs[0].free then Merge(bs[0], bs[1..]) else [bs[0]] + Release(bs[1..], ptr)
  }

  // ---------- the shape of the list ----------

  /** Blocks are in address order, do not overlap, and lie in [lo, hi). */
  predicate Ordered(bs: seq<Block>, lo: nat, hi: nat) {
    if bs == [] then lo <= hi else lo <= bs[0].addr && Ordered(bs[1..], bs[0].End(), hi)
  }

  /** Blocks fill [lo, hi) without a gap. */
  predicate Tiles(bs: seq<Block>, lo: nat, hi: nat) {
    if bs == [] then lo == hi else lo == bs[0].addr && Tiles(bs[1..], bs[0].End(), hi)
  }

  /** The bytes the blocks cover */
  function Total(bs: seq<Block>): nat {
    if bs == [] then 0 else 24 + bs[0].size + Total(bs[1..])
  }

  /** Ordered blocks tile their range exactly when they cover as many bytes as it has. */
  lemma {:induction false} TilesIffTotal(bs: seq<Block>, lo: nat, hi: nat)
    requires Ordered(bs, lo, hi)
    ensures lo + Total(bs) <= hi
    ensures Tiles(bs, lo, hi) <==> lo + Total(bs) == hi
  {
    if bs != [] {
      TilesIffTotal(bs[1..], bs[0].End(), hi);
    }
  }

  /** The sizes that were asked for fit the blocks. */
  predicate Fitting(bs: seq<Block>) {
    bs == [] || ((bs[0].free || bs[0].req <= bs[0].size) && Fitting(bs[1..]))
  }

  // ---------- live allocations ----------

  datatype Alloc = Alloc(ptr: nat, size: nat)

  ghost function Live(bs: seq<Block>): set<Alloc> {
    if bs == [] then {}
    else (if bs[0].free then {} else {Alloc(bs[0].Payload(), bs[0].req)}) + Live(bs[1..])
  }

  /** A live allocation is a block in use. */
  lemma {:induction false} LiveBlock(bs: seq<Block>, a: Alloc) returns (i: nat)
    requires a in Live(bs)
    ensures i < |bs| && !bs[i].free && bs[i].Payload() == a.ptr && bs[i].req == a.size
  {
    if !bs[0].free && a == Alloc(bs[0].Payload(), bs[0].req) {
      i := 0;
    } else {
      i := LiveBlock(bs[1..], a);
      i := i + 1;
    }
  }

  lemma {:induction false} OrderedAt(bs: seq<Block>, lo: nat, hi: nat, i: nat)
    requires Ordered(bs, lo, hi) && i < |bs|
    ensures lo <= bs[i].addr && bs[i].End() <= hi
  {
    if i == 0 {
      OrderedBound(bs[1..], bs[0].End(), hi);
    } else {
      OrderedAt(bs[1..], bs[0].End(), hi, i - 1);
    }
  }

  lemma {:induction false} OrderedBound(bs: seq<Block>, lo: nat, hi: nat)
    requires Ordered(bs, lo, hi)
    ensures lo <= hi
  {
    if bs != [] {
      OrderedBound(bs[1..], bs[0].End(), hi);
    }
  }

  lemma {:induction false} OrderedPair(bs: seq<Block>, lo: nat, hi: nat, i: nat, j: nat)
    requires Ordered(bs, lo, hi) && i < j < |bs|
    ensures bs[i].End() <= bs[j].addr
  {
    if i == 0 {
      OrderedAt(bs[1..], bs[0].End(), hi, j - 1);
    } else {
      OrderedPair(bs[1..], bs[0].End(), hi, i - 1, j - 1);
    }
  }

  lemma {:induction false} FittingAt(bs: seq<Block>, i: nat)
    requires Fitting(bs) && i < |bs|
    ensures bs[i].free || bs[i].req <= bs[i].size
  {
    if i > 0 {
      FittingAt(bs[1..], i - 1);
    }
  }

  predicate Apart(lo1: nat, hi1: nat, lo2: nat, hi2: nat) {
    hi1 <= lo2 || hi2 <= lo1
  }

  /** Live allocations lie inside the heap, touch no block header, and do not overlap each other. */
  lemma LiveDisjoint(bs: seq<Block>, lo: nat, hi: nat, a: Alloc, k: nat, c: Alloc)
    requires Ordered(bs, lo, hi) && Fitting(bs) && a in Live(bs) && k < |bs| && c in Live(bs)
    ensures lo <= a.ptr && a.ptr + a.size <= hi
    ensures Apart(a.ptr, a.ptr + a.size, bs[k].addr, bs[k].addr + 24)
    ensures a.ptr == c.ptr ==> a == c
    ensures a != c ==> Apart(a.ptr, a.ptr + a.size, c.ptr, c.ptr + c.size)
  {
    var i := LiveBlock(bs, a);
    var j := LiveBlock(bs, c);
    FittingAt(bs, i);
    FittingAt(bs, j);
    OrderedAt(bs, lo, hi, i);
    if i < k {
      OrderedPair(bs, lo, hi, i, k);
    } else if k < i {
      OrderedPair(bs, lo, hi, k, i);
    }
    if i < j {
      OrderedPair(bs, lo, hi, i, j);
    } else if j < i {
      OrderedPair(bs, lo, hi, j, i);
    }
  }

  // ---------- what the operations keep ----------

  /** Handing out a block keeps the order, the bytes covered and every other allocation. */
  lemma {:induction false} AllocateKeeps(bs: seq<Block>, size: nat, lo: nat, hi: nat)
    requires HasFit(bs, size) && Ordered(bs, lo, hi) && Fitting(bs) && hi < 0x8000_0000_0000_0000
    ensures var bs' := Allocate(bs, size);
            && Ordered(bs', lo, hi) && Fitting(bs') && Total(bs') == Total(bs) && bs' != []
            && bs'[0].addr == bs[0].addr
            && Live(bs') == Live(bs) + {Alloc(FirstFit(bs, size), size)}
            && lo < FirstFit(bs, size) && FirstFit(bs, size) + size <= hi
            && !Owns(bs, FirstFit(bs, size))
  {
    OrderedAt(bs, lo, hi, 0);
    var b, rest := bs[0], bs[1..];
    if Fits(b, size) {
      NotOwned(rest, b.End(), hi, b.Payload());
      var bs' := Carve(b, size) + rest;
      if Splits(b, size) {
        var second := Block(b.addr + 24 + size, b.size - size - 24, true, 0);
        assert bs'[1..] == [second] + rest;
        assert ([second] + rest)[1..] == rest;
        assert Live([second] + rest) == Live(rest);
      } else {
        assert bs'[1..] == rest;
      }
    } else {
      AllocateKeeps(rest, size, b.End(), hi);
      var tail := Allocate(rest, size);
      assert ([b] + tail)[1..] == tail;
    }
  }

  lemma {:induction false} NotOwned(bs: seq<Block>, lo: nat, hi: nat, ptr: nat)
    requires Ordered(bs, lo, hi) && ptr <= lo
    ensures !Owns(bs, ptr)
  {
    if bs != [] {
      NotOwned(bs[1..], bs[0].End(), hi, ptr);
    }
  }

  /** First fit is the block with the lowest address among those that fit. */
  lemma {:induction false} LowestFit(bs: seq<Block>, size: nat, lo: nat, hi: nat)
    requires HasFit(bs, size) && Ordered(bs, lo, hi)
    ensures exists i :: 0 <= i < |bs| && Fits(bs[i], size) && bs[i].Payload() == FirstFit(bs, size)
    ensures forall j :: 0 <= j < |bs| && Fits(bs[j], size) ==> FirstFit(bs, size) <= bs[j].Payload()
  {
    if Fits(bs[0], size) {
      forall j | 0 <= j < |bs| && Fits(bs[j], size)
        ensures FirstFit(bs, size) <= bs[j].Payload()
      {
        if j > 0 {
          OrderedPair(bs, lo, hi, 0, j);
        }
      }
    } else {
      LowestFit(bs[1..], size, bs[0].End(), hi);
      var i :| 0 <= i < |bs[1..]| && Fits(bs[1..][i], size) && bs[1..][i].Payload() == FirstFit(bs[1..], size);
      assert bs[i + 1] == bs[1..][i];
      forall j | 0 <= j < |bs| && Fits(bs[j], size)
        ensures FirstFit(bs, size) <= bs[j].Payload()
      {
        assert j > 0 && bs[j] == bs[1..][j - 1];
      }
    }
  }

  /** Freeing keeps the order, covers no more bytes than before, and ends one allocation and no other.
      If no bytes were lost before, none are lost by merging. */
  lemma {:induction false} ReleaseKeeps(bs: seq<Block>, ptr: nat, lo: nat, hi: nat)
    requires Owns(bs, ptr) && Ordered(bs, lo, hi) && Fitting(bs)
    ensures var bs' := Release(bs, ptr);
            && Ordered(bs', lo, hi) && Fitting(bs') && Total(bs') == Total(bs) && bs' != []
            && bs'[0].addr == bs[0].addr
            && (exists size :: Alloc(ptr, size) in Live(bs) && Live(bs') == Live(bs) - {Alloc(ptr, size)})
  {
    var b, rest := bs[0], bs[1..];
    if b.Payload() == ptr && !b.free {
      NotLive(rest, b.End(), hi, ptr);
      var bs' := Merge(b, rest);
      if rest != [] && rest[0].free {
        OrderedBound(rest[1..], rest[0].End(), hi);
        OrderedWeaken(rest[1..], rest[0].End(), b.addr + 24 + b.size + 24 + rest[0].size, hi);
        assert bs'[1..] == rest[1..];
      } else {
        assert bs'[1..] == rest;
      }
      assert Alloc(ptr, b.req) in Live(bs) && Live(bs') == Live(bs) - {Alloc(ptr, b.req)};
    } else {
      ReleaseKeeps(rest, ptr, b.End(), hi);
      var tail := Release(rest, ptr);
      var bs' := [b] + tail;
      assert bs'[1..] == tail;
      var size :| Alloc(ptr, size) in Live(rest) && Live(tail) == Live(rest) - {Alloc(ptr, size)};
      if !b.free {
        var i := LiveBlock(rest, Alloc(ptr, size));
      }
      assert Alloc(ptr, size) in Live(bs) && Live(bs') == Live(bs) - {Alloc(ptr, size)};
    }
  }

  lemma {:induction false} OrderedWeaken(bs: seq<Block>, lo: nat, lo': nat, hi: nat)
    requires Ordered(bs, lo, hi) && lo' <= lo
    ensures Ordered(bs, lo', hi)
  {
  }

  lemma {:induction false} NotLive(bs: seq<Block>, lo: nat, hi: nat, ptr: nat)
    requires Ordered(bs, lo, hi) && ptr <= lo
    ensures forall size :: Alloc(ptr, size) !in Live(bs)
  {
    if bs != [] {
      NotLive(bs[1..], bs[0].End(), hi, ptr);
    }
  }

  /** A block appended at the end of the heap */
  lemma {:induction false} AppendKeeps(bs: seq<Block>, b: Block, lo: nat, mid: nat, hi: nat)
    requires Ordered(bs, lo, mid) && Fitting(bs) && b.addr == mid && b.End() <= hi && b.free
    ensures Ordered(bs + [b], lo, hi) && Fitting(bs + [b]) && Total(bs + [b]) == Total(bs) + 24 + b.size
    ensures Live(bs + [b]) == Live(bs)
    ensures forall size: nat :: HasFit(bs + [b], size) <==> HasFit(bs, size) || b.size >= size
    ensures forall size: nat :: !HasFit(bs, size) && b.size >= size ==> FirstFit(bs + [b], size) == b.Payload()
  {
    if bs == [] {
      assert ([] + [b])[1..] == [];
    } else {
      AppendKeeps(bs[1..], b, bs[0].End(), mid, hi);
      assert (bs + [b])[1..] == bs[1..] + [b];
    }
  }

  // ---------- lists in two parts ----------

  /** If nothing in the front part fits, kmalloc works on the back part. */
  lemma {:induction false} AllocateBehind(pre: seq<Block>, suf: seq<Block>, size: nat)
    requires !HasFit(pre, size)
    ensures HasFit(pre + suf, size) <==> HasFit(suf, size)
    ensures HasFit(suf, size) ==>
              && FirstFit(pre + suf, size) == FirstFit(suf, size)
              && Allocate(pre + suf, size) == pre + Allocate(suf, size)
  {
    if pre == [] {
      assert pre + suf == suf;
      if HasFit(suf, size) {
        assert pre + Allocate(suf, size) == Allocate(suf, size);
      }
    } else {
      AllocateBehind(pre[1..], suf, size);
      assert (pre + suf)[1..] == pre[1..] + suf;
      if HasFit(suf, size) {
        assert [pre[0]] + (pre[1..] + Allocate(suf, size)) == pre + Allocate(suf, size);
      }
    }
  }

  lemma {:induction false} NoFitNext(pre: seq<Block>, b: Block, size: nat)
    requires !HasFit(pre, size) && !Fits(b, size)
    ensures !HasFit(pre + [b], size)
  {
    if pre != [] {
      assert (pre + [b])[1..] == pre[1..] + [b];
      NoFitNext(pre[1..], b, size);
    }
  }

  lemma {:induction false} OrderedSplit(pre: seq<Block>, suf: seq<Block>, lo: nat, hi: nat)
    requires Ordered(pre + suf, lo, hi) && suf != []
    ensures Ordered(pre, lo, suf[0].addr) && Ordered(suf, suf[0].addr, hi)
  {
    if pre == [] {
      assert pre + suf == suf;
    } else {
      assert (pre + suf)[1..] == pre[1..] + suf;
      OrderedSplit(pre[1..], suf, pre[0].End(), hi);
    }
  }

  /** The position of a live pointer's block, and what kfree does there */
  lemma {:induction false} ReleaseBehind(bs: seq<Block>, ptr: nat) returns (pre: seq<Block>, suf: seq<Block>)
    requires Owns(bs, ptr)
    ensures bs == pre + suf && suf != [] && suf[0].Payload() == ptr && !suf[0].free
    ensures Release(bs, ptr) == pre + Merge(suf[0], suf[1..])
  {
    if bs[0].Payload() == ptr && !bs[0].free {
      pre, suf := [], bs;
    } else {
      pre, suf := ReleaseBehind(bs[1..], ptr);
      assert [bs[0]] + (pre + Merge(suf[0], suf[1..])) == ([bs[0]] + pre) + Merge(suf[0], suf[1..]);
      pre := [bs[0]] + pre;
    }
  }

  // ---------- what the operations do to the block they touch ----------

  /** What becomes of a free block of at least `size` bytes: with more than 40 bytes to spare it is cut to the size, and
      all behind it but a header is one free block; else it is handed out whole. */
  predicate Cut(b: Block, size: nat, parts: seq<Block>) {
    if b.size > size + 40 then
      && |parts| == 2 && parts[0].addr == b.addr && parts[0].size == size && !parts[0].free
      && parts[1].addr == b.addr + 24 + size && parts[1].addr + 24 + parts[1].size == b.addr + 24 + b.size
      && parts[1].free
    else
      |parts| == 1 && parts[0].addr == b.addr && parts[0].size == b.size && !parts[0].free
  }

  /** kmalloc changes the first block that fits and no other. */
  lemma {:induction false} AllocateAt(bs: seq<Block>, size: nat, lo: nat, hi: nat) returns (i: nat, parts: seq<Block>)
    requires HasFit(bs, size) && Ordered(bs, lo, hi) && hi < 0x8000_0000_0000_0000
    ensures i < |bs| && bs[i].free && bs[i].size >= size
    ensures forall j :: 0 <= j < i ==> !bs[j].free || bs[j].size < size
    ensures FirstFit(bs, size) == bs[i].addr + 24
    ensures Allocate(bs, size) == bs[..i] + parts + bs[i + 1..] && Cut(bs[i], size, parts)
  {
    OrderedAt(bs, lo, hi, 0);
    if Fits(bs[0], size) {
      i, parts := 0, Carve(bs[0], size);
      assert bs[..0] + parts == parts;
    } else {
      var k, ps := AllocateAt(bs[1..], size, bs[0].End(), hi);
      i, parts := k + 1, ps;
      InTwo(bs, k, parts);
    }
  }

  lemma InTwo(bs: seq<Block>, k: nat, parts: seq<Block>)
    requires k + 1 < |bs|
    ensures [bs[0]] + (bs[1..][..k] + parts + bs[1..][k + 1..]) == bs[..k + 1] + parts + bs[k + 2..]
    ensures bs[1..][k] == bs[k + 1] && forall j :: 0 < j <= k ==> bs[j] == bs[1..][j - 1]
  {
    assert [bs[0]] + bs[1..][..k] == bs[..k + 1];
    assert bs[1..][k + 1..] == bs[k + 2..];
  }

  /** kfree frees the block of the pointer, takes the next block in exactly if that is free, and changes no other. */
  lemma {:induction false} ReleaseAt(bs: seq<Block>, ptr: nat) returns (i: nat)
    requires Owns(bs, ptr)
    ensures i < |bs| && !bs[i].free && bs[i].addr + 24 == ptr
    ensures var b := bs[i];
            Release(bs, ptr) ==
            if i + 1 < |bs| && bs[i + 1].free then
              bs[..i] + [Block(b.addr, b.size + 24 + bs[i + 1].size, true, 0)] + bs[i + 2..]
            else
              bs[..i] + [Block(b.addr, b.size, true, 0)] + bs[i + 1..]
  {
    var pre, suf := ReleaseBehind(bs, ptr);
    i := |pre|;
    InThree(bs, pre, suf);
    if i + 1 < |bs| && bs[i + 1].free {
      JoinOne(pre, Block(bs[i].addr, bs[i].size + 24 + bs[i + 1].size, true, 0), bs[i + 2..]);
    } else {
      JoinOne(pre, Block(bs[i].addr, bs[i].size, true, 0), bs[i + 1..]);
    }
  }

  lemma JoinOne(pre: seq<Block>, b: Block, suf: seq<Block>)
    ensures pre + ([b] + suf) == pre + [b] + suf
  {
  }

  lemma InThree(bs: seq<Block>, pre: seq<Block>, suf: seq<Block>)
    requires bs == pre + suf && suf != []
    ensures bs[..|pre|] == pre && bs[|pre|] == suf[0] && bs[|pre| + 1..] == suf[1..]
    ensures suf[1..] != [] ==> bs[|pre| + 1] == suf[1..][0] && bs[|pre| + 2..] == suf[1..][1..]
  {
  }

  // ---------- kfree undoes kmalloc ----------

  /** The first block that fits */
  function FitAt(bs: seq<Block>, size: nat): (i: nat)
    requires HasFit(bs, size)
    ensures i < |bs| && Fits(bs[i], size)
  {
    if Fits(bs[0], size) then 0 else 1 + FitAt(bs[1..], size)
  }

  /** Free blocks have no owner's size. */
  predicate Unowned(bs: seq<Block>) {
    bs == [] || ((bs[0].free ==> bs[0].req == 0) && Unowned(bs[1..]))
  }

  /** Freeing at once what was just allocated restores the list, if and only if the block was split or no free block
      is behind it. */
  lemma {:induction false} FreeUndoes(bs: seq<Block>, size: nat, lo: nat, hi: nat)
    requires HasFit(bs, size) && Ordered(bs, lo, hi) && Unowned(bs) && hi < 0x8000_0000_0000_0000
    ensures var i, ptr := FitAt(bs, size), FirstFit(bs, size);
            && Owns(Allocate(bs, size), ptr)
            && (Release(Allocate(bs, size), ptr) == bs <==>
                bs[i].size > size + 40 || i + 1 == |bs| || !bs[i + 1].free)
  {
    OrderedAt(bs, lo, hi, 0);
    var b, rest := bs[0], bs[1..];
    if Fits(b, size) {
      UndoHere(b, rest, size);
      assert bs == [b] + rest;
    } else {
      FreeUndoes(rest, size, b.End(), hi);
      UndoBehind(b, rest, size, lo, hi);
    }
  }

  lemma CarveIs(b: Block, size: nat)
    requires b.size >= size && b.size < 0x8000_0000_0000_0000
    ensures b.size > size + 40 ==>
              Carve(b, size) ==
              [Block(b.addr, size, false, size), Block(b.addr + 24 + size, b.size - size - 24, true, 0)]
    ensures b.size <= size + 40 ==> Carve(b, size) == [b.(free := false, req := size)]
  {
    assert Wrap(size + 40) == size + 40;
    if b.size > size + 40 {
      assert Wrap(b.size - size - 24) == b.size - size - 24;
    }
  }

  lemma UndoSplit(a: Block, c: Block, rest: seq<Block>, b: Block)
    requires !a.free && c.free && b == Block(a.addr, a.size + 24 + c.size, true, 0)
    ensures Owns([a, c] + rest, a.Payload()) && Release([a, c] + rest, a.Payload()) == [b] + rest
  {
    var bs := [a, c] + rest;
    var tail := bs[1..];
    assert bs[0] == a && tail[0] == c && tail[1..] == rest;
  }

  lemma UndoWhole(a: Block, rest: seq<Block>, b: Block)
    requires !a.free && b == a.(free := true, req := 0)
    ensures Owns([a] + rest, a.Payload())
    ensures Release([a] + rest, a.Payload()) == [b] + rest <==> rest == [] || !rest[0].free
  {
    var bs := [a] + rest;
    assert bs[0] == a && bs[1..] == rest;
    if rest != [] && rest[0].free {
      assert |Release(bs, a.Payload())| == |rest|;
    }
  }

  lemma UndoHere(b: Block, rest: seq<Block>, size: nat)
    requires Fits(b, size) && b.req == 0 && b.size < 0x8000_0000_0000_0000
    ensures Owns(Carve(b, size) + rest, b.Payload())
    ensures Release(Carve(b, size) + rest, b.Payload()) == [b] + rest <==>
            b.size > size + 40 || rest == [] || !rest[0].free
  {
    CarveIs(b, size);
    if b.size > size + 40 {
      UndoSplit(Carve(b, size)[0], Carve(b, size)[1], rest, b);
    } else {
      UndoWhole(Carve(b, size)[0], rest, b);
    }
  }

  lemma UndoBehind(b: Block, rest: seq<Block>, size: nat, lo: nat, hi: nat)
    requires HasFit(rest, size) && Ordered([b] + rest, lo, hi) && !Fits(b, size)
    requires Owns(Allocate(rest, size), FirstFit(rest, size))
    ensures var bs, ptr := [b] + rest, FirstFit(rest, size);
            && HasFit(bs, size) && FirstFit(bs, size) == ptr && Owns(Allocate(bs, size), ptr)
            && Release(Allocate(bs, size), ptr) == [b] + Release(Allocate(rest, size), ptr)
  {
    var bs := [b] + rest;
    assert bs[1..] == rest;
    LowestFit(rest, size, b.End(), hi);
    var i :| 0 <= i < |rest| && Fits(rest[i], size) && rest[i].Payload() == FirstFit(rest, size);
    OrderedAt(rest, b.End(), hi, i);
    assert ([b] + Allocate(rest, size))[1..] == Allocate(rest, size);
  }

  lemma {:induction false} AllocateUnowned(bs: seq<Block>, size: nat)
    requires HasFit(bs, size) && Unowned(bs)
    ensures Unowned(Allocate(bs, size))
  {
    if Fits(bs[0], size) {
      CarveUnowned(bs[0], size, bs[1..]);
    } else {
      AllocateUnowned(bs[1..], size);
      assert ([bs[0]] + Allocate(bs[1..], size))[1..] == Allocate(bs[1..], size);
    }
  }

  lemma CarveUnowned(b: Block, size: nat, rest: seq<Block>)
    requires b.size >= size && Unowned(rest)
    ensures Unowned(Carve(b, size) + rest)
  {
    var bs := Carve(b, size) + rest;
    if Splits(b, size) {
      assert bs[1..] == [bs[1]] + rest;
      assert ([bs[1]] + rest)[1..] == rest;
    } else {
      assert bs[1..] == rest;
    }
  }

  lemma {:induction false} ReleaseUnowned(bs: seq<Block>, ptr: nat)
    requires Owns(bs, ptr) && Unowned(bs)
    ensures Unowned(Release(bs, ptr))
  {
    var b, rest := bs[0], bs[1..];
    var bs' := Release(bs, ptr);
    if b.Payload() == ptr && !b.free {
      assert bs'[1..] == (if rest != [] && rest[0].free then rest[1..] else rest);
    } else {
      ReleaseUnowned(rest, ptr);
      assert bs'[1..] == Release(rest, ptr);
    }
  }

  lemma {:induction false} AppendUnowned(bs: seq<Block>, b: Block)
    requires Unowned(bs) && b.req == 0
    ensures Unowned(bs + [b])
  {
    if bs == [] {
      assert ([] + [b])[1..] == [];
    } else {
      AppendUnowned(bs[1..], b);
      assert (bs + [b])[1..] == bs[1..] + [b];
    }
  }
}
