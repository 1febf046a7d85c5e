/**
 * The scenarios of the unit tests in src/vm/virtual_memory.rs, worked out on
 * the model: the `before` initialisation, the four translations from it, and
 * the free-frame scans.
 */
module VmExamples {
  import opened Ints
  import opened Constants
  import opened Errors
  import opened VirtualAddresses
  import opened VmSpec
  import Vm
  import VmProperties

  /** Segment 8 of size 4000 with its page table in frame 3; segment 9 of size 5000 with its page table on block 7. */
  function BeforeSegments(): seq<STInput> {
    [STInput(8, 4000, 3), STInput(9, 5000, -7)]
  }

  /** Pages 0 and 1 of segments 8 and 9. */
  function BeforePages(): seq<PTInput> {
    [PTInput(8, 0, 10), PTInput(8, 1, -20), PTInput(9, 0, 13), PTInput(9, 1, -25)]
  }

  function BeforeMemory(): Memory {
    BlankMemory()[16 := 4000][17 := 3][18 := 5000][19 := -7][1536 := 10][1537 := -20]
  }

  /** Block 7: the page table of segment 9, with page 0 in frame 13 and page 1 on block 25. */
  function BeforeBlock(): Block {
    ZeroBlock()[0 := 13][1 := -25]
  }

  /** The disk after `before`: block 7 as above, every other block zero. */
  predicate IsBeforeDisk(d: Disk) {
    d[7] == BeforeBlock() && forall b :: 0 <= b < PAGE_COUNT && b != 7 ==> d[b] == ZeroBlock()
  }

  /**
   * The `init` test: segment words 16..19, the page table of segment 8 in
   * frame 3 of memory, and that of segment 9 in disk block 7.
   */
  lemma InitExample()
    ensures AllValidST(BeforeSegments()) && AllValidPT(BeforePages())
    ensures var st := Init(Store(BlankMemory(), BlankDisk()), BeforeSegments(), BeforePages());
            st.Some? && st.value.memory == BeforeMemory() && IsBeforeDisk(st.value.disk)
    ensures BeforeMemory()[8 * SEGMENT_WORD_COUNT + SEGMENT_SIZE_OFFSET] == 4000
    ensures BeforeMemory()[8 * SEGMENT_WORD_COUNT + SEGMENT_PAGE_TABLE_OFFSET] == 3
    ensures BeforeMemory()[9 * SEGMENT_WORD_COUNT + SEGMENT_SIZE_OFFSET] == 5000
    ensures BeforeMemory()[9 * SEGMENT_WORD_COUNT + SEGMENT_PAGE_TABLE_OFFSET] == -7
    ensures BeforeBlock()[0] == 13 && BeforeBlock()[1] == -25
    ensures BeforeMemory()[3 * PAGE_SIZE] == 10 && BeforeMemory()[3 * PAGE_SIZE + 1] == -20
  {
    var sts, pts := BeforeSegments(), BeforePages();
    var segs := BlankMemory()[16 := 4000][17 := 3][18 := 5000][19 := -7];
    assert InitSegments(BlankMemory(), sts) == segs by {
      assert sts[1..][1..] == [];
    }
    var st0 := Store(segs, BlankDisk());
    var st1 := Store(segs[1536 := 10], BlankDisk());
    var st2 := Store(BeforeMemory(), BlankDisk());
    var st3 := Store(BeforeMemory(), BlankDisk()[7 := ZeroBlock()[0 := 13]]);
    assert st3.disk[7][1 := -25] == BeforeBlock();
    assert ApplyPage(st0, pts[0]) == Some(st1);
    assert ApplyPage(st1, pts[1]) == Some(st2);
    assert ApplyPage(st2, pts[2]) == Some(st3);
    var st4 := Store(BeforeMemory(), st3.disk[7 := BeforeBlock()]);
    assert ApplyPage(st3, pts[3]) == Some(st4);
    assert IsBeforeDisk(st4.disk);
    assert pts[1..][1..][1..][1..] == [];
  }

  /** Address 2097162 is segment 8, page 0, word 10; page 0 is resident in frame 10: address 5130. */
  lemma SimpleTranslate(disk: Disk)
    requires IsBeforeDisk(disk)
    ensures VirtualAddress.New(2097162) == VirtualAddress(8, 0, 10, 10)
    ensures CanTranslate(BeforeMemory(), disk, VirtualAddress(8, 0, 10, 10))
    ensures Translate(BeforeMemory(), disk, VirtualAddress(8, 0, 10, 10)) == Outcome(Ok(5130), BeforeMemory())
  {
  }

  /**
   * Address 2097674 is segment 8, page 1, word 10; page 1 is on block 20,
   * so it is paged into frame 2, the first free one: address 1034.
   */
  lemma PageNotResident(disk: Disk)
    requires IsBeforeDisk(disk)
    ensures VirtualAddress.New(2097674) == VirtualAddress(8, 1, 10, 522)
    ensures CanTranslate(BeforeMemory(), disk, VirtualAddress(8, 1, 10, 522))
    ensures Translate(BeforeMemory(), disk, VirtualAddress(8, 1, 10, 522)).result == Ok(1034)
    ensures Translate(BeforeMemory(), disk, VirtualAddress(8, 1, 10, 522)).memory[1537] == 2
  {
    FirstFreeFrameIsTwo(BeforeMemory());
  }

  /**
   * Address 2359306 is segment 9, page 0, word 10; the page table is on
   * block 7 and is paged into frame 2, where page 0 is frame 13: address 6666.
   */
  lemma PageTableNotResident(disk: Disk)
    requires IsBeforeDisk(disk)
    ensures VirtualAddress.New(2359306) == VirtualAddress(9, 0, 10, 10)
    ensures CanTranslate(BeforeMemory(), disk, VirtualAddress(9, 0, 10, 10))
    ensures Translate(BeforeMemory(), disk, VirtualAddress(9, 0, 10, 10)).result == Ok(6666)
    ensures var m := Translate(BeforeMemory(), disk, VirtualAddress(9, 0, 10, 10)).memory;
            m[19] == 2 && m[1024] == 13 && m[1025] == -25
  {
    var mem := BeforeMemory();
    FirstFreeFrameIsTwo(mem);
    var pt := Resolve(mem, disk, 19);
    assert pt.result == Ok(2);
    assert pt.memory[1024] == 13;
  }

  /**
   * Address 2359818 is segment 9, page 1, word 10; the page table goes to
   * frame 2, and page 1, on block 25, to frame 4, since frames 2 and 3 now
   * hold words: address 2058.
   */
  lemma BothNotResident(disk: Disk)
    requires IsBeforeDisk(disk)
    ensures VirtualAddress.New(2359818) == VirtualAddress(9, 1, 10, 522)
    ensures CanTranslate(BeforeMemory(), disk, VirtualAddress(9, 1, 10, 522))
    ensures Translate(BeforeMemory(), disk, VirtualAddress(9, 1, 10, 522)).result == Ok(2058)
    ensures var m := Translate(BeforeMemory(), disk, VirtualAddress(9, 1, 10, 522)).memory;
            m[19] == 2 && m[1025] == 4
  {
    var mem := BeforeMemory();
    FirstFreeFrameIsTwo(mem);
    var pt := Resolve(mem, disk, 19);
    assert pt.result == Ok(2);
    var m1 := pt.memory;
    assert m1[1025] == -25;
    assert m1[1024] == 13 && !FrameIsZero(m1, 2);
    assert m1[1536] == 10 && !FrameIsZero(m1, 3);
    assert FrameIsZero(m1, 4);
    assert FreePage(m1) == Ok(4);
  }

  /**
   * A frame paged in from an all-zero block stays free. Translating 2097674
   * puts block 20, all zero, into frame 2; translating 2359306 next finds
   * frame 2 still all zero and hands it out again for the page table of
   * segment 9, so page 1 of segment 8 and that page table share frame 2.
   */
  lemma ZeroPageInFrameIsReused(disk: Disk)
    requires IsBeforeDisk(disk)
    ensures var o1 := Translate(BeforeMemory(), disk, VirtualAddress(8, 1, 10, 522));
            && o1.result == Ok(1034)
            && CanTranslate(o1.memory, disk, VirtualAddress(9, 0, 10, 10))
            && var o2 := Translate(o1.memory, disk, VirtualAddress(9, 0, 10, 10));
            && o2.result == Ok(6666)
            && o2.memory[1537] == 2 && o2.memory[19] == 2
  {
    PageNotResident(disk);
    var m0 := BeforeMemory();
    FirstFreeFrameIsTwo(m0);
    var m1 := Translate(m0, disk, VirtualAddress(8, 1, 10, 522)).memory;
    assert m1 == CopyBlock(m0[1537 := 2], 2, disk[20]);
    assert FrameIsZero(m1, 2);
    assert FreePage(m1) == Ok(2);
    assert Resolve(m1, disk, 19).result == Ok(2);
  }

  /** Frames 2 on are all free in the `before` memory and in fresh memory; frame 2 comes first. */
  lemma FirstFreeFrameIsTwo(mem: Memory)
    requires mem == BeforeMemory() || mem == BlankMemory()
    ensures FreePage(mem) == Ok(2)
  {
    assert FrameIsZero(mem, 2);
  }

  /** The `find_free_page` test: frame 2 on fresh memory, frame 3 once word 1024 is set. */
  lemma FindFreePageExample()
    ensures FreePage(BlankMemory()) == Ok(2)
    ensures FreePage(BlankMemory()[PAGE_SIZE * 2 := 1]) == Ok(3)
  {
    FirstFreeFrameIsTwo(BlankMemory());
    var mem := BlankMemory()[PAGE_SIZE * 2 := 1];
    assert !FrameIsZero(mem, 2) by { assert mem[1024] == 1; }
    assert FrameIsZero(mem, 3);
  }

  /** Memory whose every frame has a nonzero first word, as the `find_free_page_full` test builds it. */
  function MarkedMemory(): Memory {
    seq(MEMORY_WORDS, k => if k % PAGE_SIZE == 0 then 1 else 0)
  }

  /** The `find_free_page_full` test: no frame is free. */
  lemma FindFreePageFull()
    ensures FreePage(MarkedMemory()) == Err(MemoryFull)
  {
    var mem := MarkedMemory();
    forall j | SEGMENT_WORD_COUNT <= j < PAGE_COUNT
      ensures !FrameIsZero(mem, j)
    {
      assert (j * PAGE_SIZE) % PAGE_SIZE == 0;
      assert mem[j * PAGE_SIZE] == 1;
    }
    VmProperties.FreePageFull(mem);
  }

  /** The `simple_translate` test, expressed with the engine's methods. */
  method SimpleTranslateOnEngine() returns (r: Result<u32>)
    ensures r == Ok(5130)
  {
    var vm := new Vm.VirtualMemory();
    InitExample();
    vm.Init(BeforeSegments(), BeforePages());
    var va := VirtualAddress.New(2097162);
    SimpleTranslate(vm.disk);
    r := vm.Translate(va);
  }
}
