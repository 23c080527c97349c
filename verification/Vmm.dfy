/** vmm.c: mapping, unmapping and translating pages through the page tables in memory.  Each method is
    proved to compute a function of PageTable, where the theorems about these functions are. */
module VirtualMemory {
  import opened Bits
  import opened PageTable
  import opened PhysicalMemory

  class Vmm {
    var mem: Memory    // physical memory, as far as it holds page tables
    var pml4: nat      // frame of the root table
    const pmm: Pmm

    ghost function Spaces(): Space
      reads this, pmm
    {
      Space(mem, pmm.used, pmm.Pages())
    }

    /** vmm_init: the root is what CR3 holds. */
    constructor (mem: Memory, cr3: nat, pmm: Pmm)
      ensures this.mem == mem && this.pml4 == PageOf(cr3) && this.pmm == pmm
    {
      this.mem, this.pml4, this.pmm := mem, PageOf(cr3), pmm;
    }

    /** make_table: pmm_alloc is not checked, so frame 0 is used when no frame is free. */
    method MakeTable() returns (e: nat)
      requires pmm.Valid()
      modifies this`mem, pmm`usedPages, pmm`used, pmm.bitmap
      ensures pmm.Valid()
      ensures e == TableEntry(old(Spaces()).Frame())
      ensures mem == old(mem)[old(Spaces()).Frame() := Zeros()] && pmm.used == old(Spaces()).Drawn()
    {
      var addr := pmm.Alloc();
      assert addr == PageOf(addr) * 4096;
      ZeroTable(PageOf(addr));
      e := Or(Or(addr, PRESENT.Mask()), WRITABLE.Mask());
    }

    /** The zeroing loop of make_table */
    method ZeroTable(newTable: nat)
      modifies this`mem
      ensures mem == old(mem)[newTable := Zeros()]
    {
      ghost var mem0 := mem;
      var i := 0;
      while i < 512
        invariant 0 <= i <= 512
        invariant mem == if i == 0 then mem0 else mem0[newTable := TableIn(mem, newTable)]
        invariant forall k: nat :: k < i ==> TableIn(mem, newTable)[k] == 0
      {
        ghost var before := TableIn(mem, newTable);
        mem := Store(mem, newTable, i, 0);
        assert TableIn(mem, newTable) == before[i := 0];
        i := i + 1;
      }
      assert TableIn(mem, newTable) == Zeros();
    }

    /** `e & VMM_...`, as a condition */
    static method IsSet(e: nat, f: Flag) returns (holds: bool)
      ensures holds == Has(e, f)
    {
      TestBit(e, f.Position());
      holds := And(e, f.Mask()) != 0;
    }

    /** The address of the table that an entry links to, as a frame */
    static method TableAt(e: nat) returns (frame: nat)
      ensures frame == FrameOf(e)
    {
      AddressMask(e);
      var address := And(e, 0x000F_FFFF_FFFF_F000);
      frame := PageOf(address);
    }

    /** The index of an address in the table of each level */
    static method Indices(virt: nat) returns (l4Idx: nat, l3Idx: nat, l2Idx: nat, l1Idx: nat)
      ensures l4Idx == Index(virt, 4) && l3Idx == Index(virt, 3) && l2Idx == Index(virt, 2) && l1Idx == Index(virt, 1)
    {
      IndexMask(Shr(virt, 39));
      IndexMask(Shr(virt, 30));
      IndexMask(Shr(virt, 21));
      IndexMask(Shr(virt, 12));
      l4Idx := And(Shr(virt, 39), 0x1FF);
      l3Idx := And(Shr(virt, 30), 0x1FF);
      l2Idx := And(Shr(virt, 21), 0x1FF);
      l1Idx := And(Shr(virt, 12), 0x1FF);
    }

    /** One level of vmm_map: make the table if it is missing, open it to user code if asked, and step
        into it. */
    method Descend(table: nat, i: nat, flags: nat) returns (below: nat)
      requires pmm.Valid() && i < 512
      modifies this`mem, pmm`usedPages, pmm`used, pmm.bitmap
      ensures pmm.Valid() && Spaces() == Enter(old(Spaces()), table, i, flags)
      ensures below == Below(mem, table, i)
    {
      var present := IsSet(Word(mem, table, i), PRESENT);
      if !present {
        var e := MakeTable();
        mem := Store(mem, table, i, e);
      }
      var user := IsSet(flags, USER);
      if user {
        mem := Store(mem, table, i, Or(Word(mem, table, i), USER.Mask()));
      }
      below := TableAt(Word(mem, table, i));
    }

    /** vmm_map */
    method Map(virt: nat, phys: nat, flags: nat) returns (r: int)
      requires pmm.Valid()
      modifies this`mem, pmm`usedPages, pmm`used, pmm.bitmap
      ensures pmm.Valid() && r == 0
      ensures Spaces() == MapPage(old(Spaces()), pml4, virt, phys, flags)
    {
      var l4Idx, l3Idx, l2Idx, l1Idx := Indices(virt);
      var l3Table := Descend(pml4, l4Idx, flags);
      WalkLevel(old(Spaces()), pml4, virt, 4, flags, l4Idx, Spaces(), l3Table, 3);
      ghost var sp3 := Spaces();
      var l2Table := Descend(l3Table, l3Idx, flags);
      WalkLevel(sp3, l3Table, virt, 3, flags, l3Idx, Spaces(), l2Table, 2);
      ghost var sp2 := Spaces();
      var l1Table := Descend(l2Table, l2Idx, flags);
      WalkLevel(sp2, l2Table, virt, 2, flags, l2Idx, Spaces(), l1Table, 1);
      mem := Store(mem, l1Table, l1Idx, Or(phys, flags));
      r := 0;
    }

    /** One level of vmm_unmap and vmm_get_phys */
    method Follow(table: nat, i: nat) returns (present: bool, below: nat)
      requires i < 512
      ensures present == Has(Word(mem, table, i), PRESENT) && below == Below(mem, table, i)
    {
      present := IsSet(Word(mem, table, i), PRESENT);
      below := TableAt(Word(mem, table, i));
    }

    /** vmm_unmap */
    method Unmap(virt: nat)
      modifies this`mem
      ensures mem == UnmapPage(old(mem), pml4, virt)
    {
      var l4Idx, l3Idx, l2Idx, l1Idx := Indices(virt);
      var present, l3Table := Follow(pml4, l4Idx);
      if !present {
        return;
      }
      var l2Table;
      present, l2Table := Follow(l3Table, l3Idx);
      if !present {
        return;
      }
      var l1Table;
      present, l1Table := Follow(l2Table, l2Idx);
      if !present {
        return;
      }
      mem := Store(mem, l1Table, l1Idx, 0);
    }

    /** vmm_get_phys */
    method GetPhys(virt: nat) returns (phys: nat)
      ensures phys == PhysOf(mem, pml4, virt)
    {
      var l4Idx, l3Idx, l2Idx, l1Idx := Indices(virt);
      var present, l3Table := Follow(pml4, l4Idx);
      if !present {
        return 0;
      }
      var l2Table;
      present, l2Table := Follow(l3Table, l3Idx);
      if !present {
        return 0;
      }
      var l1Table;
      present, l1Table := Follow(l2Table, l2Idx);
      if !present {
        return 0;
      }
      var frame;
      present, frame := Follow(l1Table, l1Idx);
      if !present {
        return 0;
      }
      phys := Address(Word(mem, l1Table, l1Idx), virt);
    }

    /** The last line of vmm_get_phys */
    static method Address(e: nat, virt: nat) returns (phys: nat)
      ensures phys == Or(FrameOf(e) * 4096, Low(virt, 12))
    {
      AddressMask(e);
      OffsetMask(virt);
      phys := Or(And(e, 0x000F_FFFF_FFFF_F000), And(virt, 0xFFF));
    }
  }

  lemma OffsetMask(a: nat)
    ensures And(a, 0xFFF) == Low(a, 12)
  {
    assert Ones(12) == 0xFFF;
    AndOnes(a, 12);
  }
}
