/**
 * The translation engine (src/vm/virtual_memory.rs): a flat physical
 * memory updated in place and a disk of blocks. Each method is proved
 * against the function of the same behaviour in VmSpec.
 */
module Vm {
  import opened Ints
  import opened Constants
  import opened Errors
  import opened VirtualAddresses
  import opened VmSpec

  class VirtualMemory {
    var physicalMemory: array<i32>
    var disk: Disk

    ghost predicate Valid()
      reads this
    {
      physicalMemory.Length == MEMORY_WORDS
    }

    /** The current memory as a value. */
    ghost function Words(): Memory
      reads this, physicalMemory
      requires Valid()
    {
      physicalMemory[..]
    }

    /** `VirtualMemory::new`: all of memory and disk zero. */
    constructor ()
      ensures Valid() && fresh(physicalMemory)
      ensures Words() == BlankMemory() && disk == BlankDisk()
    {
      physicalMemory := new i32[MEMORY_WORDS](_ => 0);
      disk := BlankDisk();
    }

    /**
     * `init`: the segment entries are written in order, then the page
     * entries in order, each reading the segment's location word as it is
     * at that moment. The entries are the shapes the value types produce;
     * with them the source's integer conversions cannot fail, so nothing is
     * returned.
     */
    method Init(sts: seq<STInput>, pts: seq<PTInput>)
      requires Valid() && AllValidST(sts) && AllValidPT(pts)
      requires VmSpec.Init(Store(Words(), disk), sts, pts).Some?
      modifies this, physicalMemory
      ensures Valid() && physicalMemory == old(physicalMemory)
      ensures VmSpec.Init(Store(old(Words()), old(disk)), sts, pts) == Some(Store(Words(), disk))
    {
      ghost var initial := Store(Words(), disk);
      var i := 0;
      while i < |sts|
        invariant 0 <= i <= |sts|
        invariant Valid() && physicalMemory == old(physicalMemory) && disk == initial.disk
        invariant InitSegments(Words(), sts[i..]) == InitSegments(initial.memory, sts)
      {
        var e := sts[i];
        assert sts[i..][0] == e && sts[i..][1..] == sts[i + 1..];
        var segmentAddress := e.s * SEGMENT_WORD_COUNT;
        physicalMemory[segmentAddress + SEGMENT_SIZE_OFFSET] := e.z;
        physicalMemory[segmentAddress + SEGMENT_PAGE_TABLE_OFFSET] := e.f;
        i := i + 1;
      }
      assert sts[i..] == [];
      var j := 0;
      while j < |pts|
        invariant 0 <= j <= |pts|
        invariant Valid() && physicalMemory == old(physicalMemory)
        invariant InitPages(Store(Words(), disk), pts[j..]) == VmSpec.Init(initial, sts, pts)
      {
        var e := pts[j];
        assert pts[j..][0] == e && pts[j..][1..] == pts[j + 1..];
        ghost var before := Store(Words(), disk);
        assert ApplyPage(before, e).Some?;
        var ptFrame := physicalMemory[e.s * SEGMENT_WORD_COUNT + SEGMENT_PAGE_TABLE_OFFSET];
        if ptFrame < 0 {
          disk := disk[-ptFrame := disk[-ptFrame][e.p := e.f]];
          assert Words() == before.memory;
        } else {
          physicalMemory[ptFrame * PAGE_SIZE + e.p] := e.f;
          assert Words() == before.memory[ptFrame * PAGE_SIZE + e.p := e.f];
        }
        assert ApplyPage(before, e) == Some(Store(Words(), disk));
        j := j + 1;
      }
      assert pts[j..] == [];
    }

    /**
     * `find_free_page`: the lowest frame at or above SEGMENT_WORD_COUNT whose
     * words are all zero, or MemoryFull. Reads memory only.
     */
    method FindFreePage() returns (r: Result<nat>)
      requires Valid()
      ensures r == FreePage(Words())
      ensures r.Ok? ==> SEGMENT_WORD_COUNT <= r.value < PAGE_COUNT && FrameIsZero(Words(), r.value)
      ensures r.Ok? ==> forall j :: SEGMENT_WORD_COUNT <= j < r.value ==> !FrameIsZero(Words(), j)
      ensures r.Err? ==> r.error == MemoryFull
      ensures r.Err? ==> forall j :: SEGMENT_WORD_COUNT <= j < PAGE_COUNT ==> !FrameIsZero(Words(), j)
    {
      var i := SEGMENT_WORD_COUNT;
      while i < PAGE_COUNT
        invariant SEGMENT_WORD_COUNT <= i <= PAGE_COUNT
        invariant forall j :: SEGMENT_WORD_COUNT <= j < i ==> !FrameIsZero(Words(), j)
        invariant FreeFrom(Words(), i) == FreePage(Words())
      {
        var allZero := true;
        var k := 0;
        while k < PAGE_SIZE && allZero
          invariant 0 <= k <= PAGE_SIZE
          invariant allZero <==> forall t :: i * PAGE_SIZE <= t < i * PAGE_SIZE + k ==> physicalMemory[t] == 0
        {
          allZero := physicalMemory[i * PAGE_SIZE + k] == 0;
          k := k + 1;
        }
        if allZero {
          return Ok(i);
        }
        i := i + 1;
      }
      return Err(MemoryFull);
    }

    /**
     * The resolution of one location word (the two copies of it in
     * `translate`): on a disk block, the free frame is found, the slot is
     * overwritten with it, and only then is the block copied in word by word.
     */
    method ResolveSlot(slot: nat) returns (r: Result<nat>)
      requires Valid() && slot < MEMORY_WORDS && CanResolve(Words(), slot)
      modifies physicalMemory
      ensures Resolve(old(Words()), disk, slot) == Outcome(r, Words())
    {
      var location := physicalMemory[slot];
      if location < 0 {
        var block := -location;
        var free := FindFreePage();
        if free.Err? {
          return Err(free.error);
        }
        var frame := free.value;
        physicalMemory[slot] := frame;
        ghost var slotWritten := Words();
        var i := 0;
        while i < PAGE_SIZE
          invariant 0 <= i <= PAGE_SIZE
          invariant forall k :: 0 <= k < MEMORY_WORDS ==>
            physicalMemory[k] == if frame * PAGE_SIZE <= k < frame * PAGE_SIZE + i
                                 then disk[block][k - frame * PAGE_SIZE] else slotWritten[k]
        {
          physicalMemory[frame * PAGE_SIZE + i] := disk[block][i];
          i := i + 1;
        }
        assert Words() == CopyBlock(slotWritten, frame, disk[block]);
        return Ok(frame);
      } else if location == 0 {
        return Err(MemoryNotInitialized);
      } else {
        return Ok(location);
      }
    }

    /** `translate`, as the function Translate states it. The disk is never written. */
    method Translate(va: VirtualAddress) returns (r: Result<u32>)
      requires Valid() && CanTranslate(Words(), disk, va)
      modifies physicalMemory
      ensures VmSpec.Translate(old(Words()), disk, va) == Outcome(r, Words())
    {
      var segmentAddress := va.s * SEGMENT_WORD_COUNT;
      var segmentSize := physicalMemory[segmentAddress + SEGMENT_SIZE_OFFSET];
      if segmentSize < 0 {
        return Err(GeneralError);
      }
      if va.pw >= segmentSize {
        return Err(VirtualAddressOutOfBounds);
      }
      var pageTable := ResolveSlot(segmentAddress + SEGMENT_PAGE_TABLE_OFFSET);
      if pageTable.Err? {
        return Err(pageTable.error);
      }
      var pageAddress := pageTable.value * PAGE_SIZE + va.p;
      if pageAddress >= physicalMemory.Length {
        return Err(VirtualAddressOutOfBounds);
      }
      var page := ResolveSlot(pageAddress);
      if page.Err? {
        return Err(page.error);
      }
      var address := page.value * PAGE_SIZE + va.w;
      if address > U32_MAX {
        return Err(GeneralError);
      }
      return Ok(address);
    }
  }
}
