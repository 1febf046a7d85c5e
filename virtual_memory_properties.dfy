/** What the translation engine promises, proved about the functions of VmSpec. */
module VmProperties {
  import opened Ints
  import opened Constants
  import opened Errors
  import opened VirtualAddresses
  import opened VmSpec
  import opened Data
  import opened Frames
  import opened PhysicalMemories

  // ---------------------------------------------------------- free frames

  /** The scan from `i` finds the lowest all-zero frame at or above `i`, and fails only when there is none. */
  lemma {:induction false} FreeFromIsLowest(mem: Memory, i: nat)
    requires i <= PAGE_COUNT
    ensures FreeFrom(mem, i).Ok? ==> forall j :: i <= j < FreeFrom(mem, i).value ==> !FrameIsZero(mem, j)
    ensures FreeFrom(mem, i).Err? <==> forall j :: i <= j < PAGE_COUNT ==> !FrameIsZero(mem, j)
    decreases PAGE_COUNT - i
  {
    if i < PAGE_COUNT && !FrameIsZero(mem, i) {
      FreeFromIsLowest(mem, i + 1);
    }
  }

  /**
   * `find_free_page` returns frame `f` exactly when `f` is the lowest frame in
   * SEGMENT_WORD_COUNT..PAGE_COUNT whose words are all zero.
   */
  lemma FreePageIsLowest(mem: Memory, f: nat)
    ensures FreePage(mem) == Ok(f) <==>
              SEGMENT_WORD_COUNT <= f < PAGE_COUNT && FrameIsZero(mem, f)
              && forall j :: SEGMENT_WORD_COUNT <= j < f ==> !FrameIsZero(mem, j)
  {
    FreeFromIsLowest(mem, SEGMENT_WORD_COUNT);
  }

  /** `find_free_page` fails with MemoryFull exactly when no frame at or above SEGMENT_WORD_COUNT is all zero. */
  lemma FreePageFull(mem: Memory)
    ensures FreePage(mem) == Err(MemoryFull) <==>
              forall j :: SEGMENT_WORD_COUNT <= j < PAGE_COUNT ==> !FrameIsZero(mem, j)
  {
    FreeFromIsLowest(mem, SEGMENT_WORD_COUNT);
  }

  /** The frame handed out never contains a nonzero word, so never the slot that is being updated. */
  lemma AllocatedFrameAvoidsSlot(mem: Memory, slot: nat)
    requires slot < MEMORY_WORDS && mem[slot] != 0 && FreePage(mem).Ok?
    ensures !InFrame(slot, FreePage(mem).value)
    ensures FreePage(mem).value >= SEGMENT_WORD_COUNT
  {
  }

  // ------------------------------------------------------------ resolution

  /**
   * A page-in: the result is the frame `find_free_page` returns, the slot
   * then holds that frame, the frame holds the disk block, and no other word
   * changes. The slot lies outside the frame, so the copy does not undo the
   * slot update.
   */
  lemma PageIn(mem: Memory, disk: Disk, slot: nat)
    requires slot < MEMORY_WORDS && mem[slot] < 0 && Addressable(mem[slot])
    requires FreePage(mem).Ok?
    ensures var f := FreePage(mem).value;
            var o := Resolve(mem, disk, slot);
            && !InFrame(slot, f)
            && o.result == Ok(f)
            && o.memory[slot] == f
            && (forall k :: f * PAGE_SIZE <= k < f * PAGE_SIZE + PAGE_SIZE ==>
                  o.memory[k] == disk[-mem[slot]][k - f * PAGE_SIZE])
            && (forall k :: 0 <= k < MEMORY_WORDS && k != slot && !InFrame(k, f) ==> o.memory[k] == mem[k])
  {
    AllocatedFrameAvoidsSlot(mem, slot);
  }

  /** A page-in with no free frame fails with MemoryFull and changes nothing. */
  lemma PageInMemoryFull(mem: Memory, disk: Disk, slot: nat)
    requires slot < MEMORY_WORDS && I32_MIN < mem[slot] < 0
    requires forall j :: SEGMENT_WORD_COUNT <= j < PAGE_COUNT ==> !FrameIsZero(mem, j)
    ensures Resolve(mem, disk, slot) == Outcome(Err(MemoryFull), mem)
  {
    FreePageFull(mem);
  }

  /**
   * What any resolution does to memory: on an error nothing; on a resident
   * location nothing; otherwise it overwrites the slot and zero words only.
   * On success the slot holds the resolved, positive frame.
   */
  lemma ResolveEffect(mem: Memory, disk: Disk, slot: nat)
    requires slot < MEMORY_WORDS && CanResolve(mem, slot)
    ensures var o := Resolve(mem, disk, slot);
            && (o.result.Err? ==> o.memory == mem)
            && (mem[slot] > 0 ==> o == Outcome(Ok(mem[slot] as nat), mem))
            && (mem[slot] == 0 ==> o == Outcome(Err(MemoryNotInitialized), mem))
            && (o.result.Ok? ==> o.result.value > 0 && o.memory[slot] == o.result.value)
            && (forall k :: 0 <= k < MEMORY_WORDS && k != slot && mem[k] != 0 ==> o.memory[k] == mem[k])
  {
    if mem[slot] < 0 && FreePage(mem).Ok? {
      PageIn(mem, disk, slot);
    }
  }

  /** The outcome of a resolution, without its effect on other words. */
  lemma ResolvePoint(mem: Memory, disk: Disk, slot: nat)
    requires slot < MEMORY_WORDS && CanResolve(mem, slot)
    ensures var o := Resolve(mem, disk, slot);
            && (mem[slot] > 0 ==> o == Outcome(Ok(mem[slot] as nat), mem))
            && (o.result.Ok? ==> o.result.value > 0 && o.memory[slot] == o.result.value)
  {
    if mem[slot] < 0 && FreePage(mem).Ok? {
      PageIn(mem, disk, slot);
    }
  }

  /** A nonzero word other than the slot survives a resolution. */
  lemma ResolveKeepsWord(mem: Memory, disk: Disk, slot: nat, k: nat)
    requires slot < MEMORY_WORDS && CanResolve(mem, slot)
    requires k < MEMORY_WORDS && k != slot && mem[k] != 0
    ensures Resolve(mem, disk, slot).memory[k] == mem[k]
  {
    if mem[slot] < 0 && FreePage(mem).Ok? {
      PageIn(mem, disk, slot);
    }
  }

  // ------------------------------------------------------------- translate

  /** On fresh memory every size word is zero, so every translation is out of bounds. */
  lemma FreshMemoryRejectsEverything(disk: Disk, va: VirtualAddress)
    ensures CanTranslate(BlankMemory(), disk, va)
    ensures Translate(BlankMemory(), disk, va) == Outcome(Err(VirtualAddressOutOfBounds), BlankMemory())
  {
  }

  /** An offset at or beyond the segment size fails before any location word is read. */
  lemma BoundsCheckFirst(mem: Memory, disk: Disk, va: VirtualAddress)
    requires 0 <= mem[SizeSlot(va.s)] <= va.pw
    ensures CanTranslate(mem, disk, va)
    ensures Translate(mem, disk, va) == Outcome(Err(VirtualAddressOutOfBounds), mem)
  {
  }

  /** A zero page-table location is MemoryNotInitialized, with nothing changed. */
  lemma UninitialisedSegment(mem: Memory, disk: Disk, va: VirtualAddress)
    requires 0 <= va.pw < mem[SizeSlot(va.s)] && mem[TableSlot(va.s)] == 0
    ensures CanTranslate(mem, disk, va)
    ensures Translate(mem, disk, va) == Outcome(Err(MemoryNotInitialized), mem)
  {
  }

  /** A zero page location in a resident page table is MemoryNotInitialized, with nothing changed. */
  lemma UninitialisedPage(mem: Memory, disk: Disk, va: VirtualAddress)
    requires 0 <= va.pw < mem[SizeSlot(va.s)]
    requires mem[TableSlot(va.s)] > 0
    requires mem[TableSlot(va.s)] * PAGE_SIZE + va.p < MEMORY_WORDS
    requires mem[mem[TableSlot(va.s)] * PAGE_SIZE + va.p] == 0
    ensures CanTranslate(mem, disk, va)
    ensures Translate(mem, disk, va) == Outcome(Err(MemoryNotInitialized), mem)
  {
  }

  /** A segment whose page table must be paged in, with no free frame, fails with MemoryFull and changes nothing. */
  lemma PageTableFaultOnFullMemory(mem: Memory, disk: Disk, va: VirtualAddress)
    requires 0 <= va.pw < mem[SizeSlot(va.s)]
    requires I32_MIN < mem[TableSlot(va.s)] < 0
    requires forall j :: SEGMENT_WORD_COUNT <= j < PAGE_COUNT ==> !FrameIsZero(mem, j)
    ensures CanTranslate(mem, disk, va)
    ensures Translate(mem, disk, va) == Outcome(Err(MemoryFull), mem)
  {
    PageInMemoryFull(mem, disk, TableSlot(va.s));
  }

  /**
   * When both location words on the path are resident, translation changes
   * nothing and the address is the page's frame times PAGE_SIZE plus `w`.
   */
  lemma ResidentPathIsReadOnly(mem: Memory, disk: Disk, va: VirtualAddress)
    requires 0 <= va.pw < mem[SizeSlot(va.s)]
    requires mem[TableSlot(va.s)] > 0
    requires mem[TableSlot(va.s)] * PAGE_SIZE + va.p < MEMORY_WORDS
    requires mem[mem[TableSlot(va.s)] * PAGE_SIZE + va.p] > 0
    ensures CanTranslate(mem, disk, va)
    ensures var frame := mem[mem[TableSlot(va.s)] * PAGE_SIZE + va.p];
            Translate(mem, disk, va) ==
              if frame * PAGE_SIZE + va.w <= U32_MAX then Outcome(Ok(frame * PAGE_SIZE + va.w), mem)
              else Outcome(Err(GeneralError), mem)
  {
  }

  /**
   * After a successful translation the segment's size word is unchanged, and
   * walking the new memory meets two resident location words that lead to
   * the returned address.
   */
  lemma SuccessfulWalk(mem: Memory, disk: Disk, va: VirtualAddress)
    requires CanTranslate(mem, disk, va) && Translate(mem, disk, va).result.Ok?
    ensures var m := Translate(mem, disk, va).memory;
            var pt := m[TableSlot(va.s)];
            && m[SizeSlot(va.s)] == mem[SizeSlot(va.s)]
            && 0 <= va.pw < mem[SizeSlot(va.s)]
            && pt > 0 && pt * PAGE_SIZE + va.p < MEMORY_WORDS
            && m[pt * PAGE_SIZE + va.p] > 0
            && Translate(mem, disk, va).result.value == m[pt * PAGE_SIZE + va.p] * PAGE_SIZE + va.w
  {
    WalkShape(mem, disk, va);
    var pt := Resolve(mem, disk, TableSlot(va.s));
    WalkSteps(mem, disk, SizeSlot(va.s), TableSlot(va.s), pt.result.value * PAGE_SIZE + va.p);
  }

  /** A successful translation is two successful resolutions, the second on the first's memory. */
  lemma WalkShape(mem: Memory, disk: Disk, va: VirtualAddress)
    requires CanTranslate(mem, disk, va) && Translate(mem, disk, va).result.Ok?
    ensures 0 <= va.pw < mem[SizeSlot(va.s)]
    ensures var pt := Resolve(mem, disk, TableSlot(va.s));
            var pageSlot := pt.result.value * PAGE_SIZE + va.p;
            && pt.result.Ok? && pageSlot < MEMORY_WORDS && CanResolve(pt.memory, pageSlot)
            && var pg := Resolve(pt.memory, disk, pageSlot);
               pg.result.Ok? && Translate(mem, disk, va) == Outcome(Ok(pg.result.value * PAGE_SIZE + va.w), pg.memory)
  {
  }

  /**
   * Two successful resolutions in a row, the first of a table slot next to
   * a positive size slot: afterwards the size word and the first slot are as
   * the first step left them, and the second slot holds its frame.
   */
  lemma WalkSteps(mem: Memory, disk: Disk, sizeSlot: nat, tableSlot: nat, pageSlot: nat)
    requires sizeSlot < MEMORY_WORDS && tableSlot < MEMORY_WORDS && pageSlot < MEMORY_WORDS
    requires sizeSlot != tableSlot && mem[sizeSlot] > 0
    requires CanResolve(mem, tableSlot)
    requires var pt := Resolve(mem, disk, tableSlot);
             pt.result.Ok? && CanResolve(pt.memory, pageSlot) && Resolve(pt.memory, disk, pageSlot).result.Ok?
    ensures var pt := Resolve(mem, disk, tableSlot);
            var pg := Resolve(pt.memory, disk, pageSlot);
            && pg.memory[sizeSlot] == mem[sizeSlot]
            && pg.memory[tableSlot] == pt.result.value > 0
            && pg.memory[pageSlot] == pg.result.value > 0
  {
    var pt := Resolve(mem, disk, tableSlot);
    ResolvePoint(mem, disk, tableSlot);
    ResolveKeepsWord(mem, disk, tableSlot, sizeSlot);
    ResolvePoint(pt.memory, disk, pageSlot);
    if pageSlot != sizeSlot {
      ResolveKeepsWord(pt.memory, disk, pageSlot, sizeSlot);
    }
    if pageSlot != tableSlot {
      ResolveKeepsWord(pt.memory, disk, pageSlot, tableSlot);
    }
  }

  /**
   * Repeating a translation that just succeeded gives the same address and
   * changes nothing.
   */
  lemma TranslateIdempotent(mem: Memory, disk: Disk, va: VirtualAddress)
    requires CanTranslate(mem, disk, va) && Translate(mem, disk, va).result.Ok?
    ensures var o := Translate(mem, disk, va);
            CanTranslate(o.memory, disk, va) && Translate(o.memory, disk, va) == o
  {
    SuccessfulWalk(mem, disk, va);
    var o := Translate(mem, disk, va);
    ResidentPathIsReadOnly(o.memory, disk, va);
  }

  /** A successful address lies in a frame other than frame 0, at word `w` of it. */
  lemma TranslationOffset(mem: Memory, disk: Disk, va: VirtualAddress)
    requires va.w < PAGE_SIZE
    requires CanTranslate(mem, disk, va) && Translate(mem, disk, va).result.Ok?
    ensures Translate(mem, disk, va).result.value % PAGE_SIZE == va.w
    ensures Translate(mem, disk, va).result.value / PAGE_SIZE >= 1
  {
    SuccessfulWalk(mem, disk, va);
    var m := Translate(mem, disk, va).memory;
    var frame := m[m[TableSlot(va.s)] * PAGE_SIZE + va.p];
    SplitAddress(frame, va.w);
  }

  /** Address `frame * PAGE_SIZE + w` is word `w` of frame `frame`. */
  lemma SplitAddress(frame: nat, w: nat)
    requires w < PAGE_SIZE
    ensures (frame * PAGE_SIZE + w) % PAGE_SIZE == w && (frame * PAGE_SIZE + w) / PAGE_SIZE == frame
  {
  }

  /** Translation never changes the size word of the segment it translates. */
  lemma TranslateKeepsSize(mem: Memory, disk: Disk, va: VirtualAddress)
    requires CanTranslate(mem, disk, va)
    ensures Translate(mem, disk, va).memory[SizeSlot(va.s)] == mem[SizeSlot(va.s)]
  {
    TranslateMemory(mem, disk, va);
    var size := mem[SizeSlot(va.s)];
    if 0 <= size && va.pw < size {
      var sizeSlot, tableSlot := SizeSlot(va.s), TableSlot(va.s);
      var pt := Resolve(mem, disk, tableSlot);
      ResolveKeepsWord(mem, disk, tableSlot, sizeSlot);
      if pt.result.Ok? {
        var pageSlot := pt.result.value * PAGE_SIZE + va.p;
        if pageSlot < MEMORY_WORDS {
          ResolvePoint(pt.memory, disk, pageSlot);
          if pageSlot != sizeSlot {
            ResolveKeepsWord(pt.memory, disk, pageSlot, sizeSlot);
          }
        }
      }
    }
  }

  /**
   * The memory a translation leaves: unchanged when the bounds check fails,
   * the page-table step's memory when the walk stops there, and otherwise
   * the memory of the page step on top of it.
   */
  lemma TranslateMemory(mem: Memory, disk: Disk, va: VirtualAddress)
    requires CanTranslate(mem, disk, va)
    ensures var size := mem[SizeSlot(va.s)];
            var m := Translate(mem, disk, va).memory;
            if size < 0 || va.pw >= size then m == mem
            else
              var pt := Resolve(mem, disk, TableSlot(va.s));
              if pt.result.Err? then m == pt.memory
              else
                var pageSlot := pt.result.value * PAGE_SIZE + va.p;
                if pageSlot >= MEMORY_WORDS then m == pt.memory
                else CanResolve(pt.memory, pageSlot) && m == Resolve(pt.memory, disk, pageSlot).memory
  {
  }

  /**
   * Apart from the translated segment's page-table location, translation
   * leaves the whole segment table (the reserved frames) unchanged, as long
   * as that location does not name the reserved frame 1; the location is
   * kept or replaced by the frame it was paged into, which is not reserved.
   */
  lemma TranslateKeepsSegmentTable(mem: Memory, disk: Disk, va: VirtualAddress)
    requires CanTranslate(mem, disk, va) && mem[TableSlot(va.s)] != 1
    ensures var m := Translate(mem, disk, va).memory;
            && (forall k :: 0 <= k < SEGMENT_WORD_COUNT * PAGE_SIZE && k != TableSlot(va.s) ==> m[k] == mem[k])
            && (m[TableSlot(va.s)] == mem[TableSlot(va.s)] ||
                (mem[TableSlot(va.s)] < 0 && m[TableSlot(va.s)] >= SEGMENT_WORD_COUNT))
  {
    var tableSlot := TableSlot(va.s);
    var m := Translate(mem, disk, va).memory;
    TranslateMemory(mem, disk, va);
    var size := mem[SizeSlot(va.s)];
    if 0 <= size && va.pw < size {
      ResolveKeepsTable(mem, disk, tableSlot);
      var pt := Resolve(mem, disk, tableSlot);
      var pageSlot := if pt.result.Ok? then pt.result.value * PAGE_SIZE + va.p else 0;
      if pt.result.Ok? && pageSlot < MEMORY_WORDS {
        ResolvePoint(mem, disk, tableSlot);
        PageStepKeepsTable(mem, pt.memory, disk, tableSlot, pageSlot);
      }
    }
    assert TableKept(mem, m, tableSlot);
  }

  /**
   * Between two memories, the words of the first two frames other than
   * `slot` are equal, and `slot` is kept or, when it was on disk, now names
   * a frame at or above 2.
   */
  predicate TableKept(before: Memory, after: Memory, slot: nat)
    requires slot < MEMORY_WORDS
  {
    && (forall k :: 0 <= k < SEGMENT_WORD_COUNT * PAGE_SIZE && k != slot ==> after[k] == before[k])
    && (after[slot] == before[slot] || (before[slot] < 0 && after[slot] >= SEGMENT_WORD_COUNT))
  }

  /**
   * The page step of a walk, after a page-table step that kept the table
   * and left a resident frame in `slot`: resolving a page slot outside the
   * first two frames keeps what the first step kept.
   */
  lemma PageStepKeepsTable(mem: Memory, b: Memory, disk: Disk, slot: nat, pageSlot: nat)
    requires slot < MEMORY_WORDS && SEGMENT_WORD_COUNT * PAGE_SIZE <= pageSlot < MEMORY_WORDS
    requires TableKept(mem, b, slot) && b[slot] > 0 && CanResolve(b, pageSlot)
    ensures TableKept(mem, Resolve(b, disk, pageSlot).memory, slot)
  {
    ResolveKeepsTable(b, disk, pageSlot);
    ResolveEffect(b, disk, pageSlot);
  }

  /**
   * One location resolution, as far as the segment table sees it: the table
   * is kept apart from the slot, and a success names frame 1 only if the
   * slot held 1. The pages of a resolution that succeeds therefore lie
   * outside the segment table.
   */
  lemma ResolveKeepsTable(mem: Memory, disk: Disk, slot: nat)
    requires slot < MEMORY_WORDS && CanResolve(mem, slot)
    ensures TableKept(mem, Resolve(mem, disk, slot).memory, slot)
    ensures var o := Resolve(mem, disk, slot);
            o.result.Ok? && mem[slot] != 1 ==> o.result.value >= SEGMENT_WORD_COUNT
  {
    if mem[slot] < 0 && FreePage(mem).Ok? {
      PageIn(mem, disk, slot);
      FreePageIsLowest(mem, FreePage(mem).value);
    }
  }

  /**
   * No word that can serve as a translation's page-table location names
   * frame 1, a frame of the segment table itself: not the location words of
   * segments 0..MAX_SEGMENT_OFFSET, not any word outside the first two frames
   * (the location words of larger segment numbers lie there), and not any
   * disk word, since a page-in copies disk words into memory.
   */
  predicate AvoidsReserved(st: Store) {
    && (forall t :: 0 <= t <= MAX_SEGMENT_OFFSET ==> st.memory[TableSlot(t)] != 1)
    && (forall k :: SEGMENT_WORD_COUNT * PAGE_SIZE <= k < MEMORY_WORDS ==> st.memory[k] != 1)
    && (forall b, k :: 0 <= b < PAGE_COUNT && 0 <= k < PAGE_SIZE ==> st.disk[b][k] != 1)
  }

  /**
   * Under the invariant, the page-table location of every segment number a
   * `u32` address decodes to differs from 1, as TranslateKeepsSegmentTable
   * demands.
   */
  lemma AvoidsReservedAt(st: Store, va: VirtualAddress)
    requires AvoidsReserved(st)
    ensures st.memory[TableSlot(va.s)] != 1
  {
    if va.s > MAX_SEGMENT_OFFSET {
      assert TableSlot(va.s) >= SEGMENT_WORD_COUNT * PAGE_SIZE;
    }
  }

  /** Fresh memory and a fresh disk hold no 1 at all. */
  lemma FreshAvoidsReserved()
    ensures AvoidsReserved(Store(BlankMemory(), BlankDisk()))
  {
  }

  /**
   * A resolution keeps the invariant: a page-in writes a frame at or above
   * 2 into the slot and copies disk words, which are not 1, into that frame.
   */
  lemma ResolveKeepsAvoidsReserved(mem: Memory, disk: Disk, slot: nat)
    requires slot < MEMORY_WORDS && CanResolve(mem, slot) && AvoidsReserved(Store(mem, disk))
    ensures AvoidsReserved(Store(Resolve(mem, disk, slot).memory, disk))
  {
    if mem[slot] < 0 && FreePage(mem).Ok? {
      PageIn(mem, disk, slot);
      var f := FreePage(mem).value;
      var m := Resolve(mem, disk, slot).memory;
      assert f >= SEGMENT_WORD_COUNT;
      forall k | 0 <= k < MEMORY_WORDS && m[k] == 1
        ensures k < SEGMENT_WORD_COUNT * PAGE_SIZE && mem[k] == 1
      {
      }
    }
  }

  /**
   * Translation keeps the invariant, whatever segment number the address
   * carries: both steps of the walk are resolutions.
   */
  lemma TranslateKeepsAvoidsReserved(mem: Memory, disk: Disk, va: VirtualAddress)
    requires CanTranslate(mem, disk, va) && AvoidsReserved(Store(mem, disk))
    ensures AvoidsReserved(Store(Translate(mem, disk, va).memory, disk))
  {
    TranslateMemory(mem, disk, va);
    var size := mem[SizeSlot(va.s)];
    if 0 <= size && va.pw < size {
      var pt := Resolve(mem, disk, TableSlot(va.s));
      ResolveKeepsAvoidsReserved(mem, disk, TableSlot(va.s));
      if pt.result.Ok? {
        var pageSlot := pt.result.value * PAGE_SIZE + va.p;
        if pageSlot < MEMORY_WORDS {
          ResolveKeepsAvoidsReserved(pt.memory, disk, pageSlot);
        }
      }
    }
  }

  // ------------------------------------------------------------------ init

  /**
   * For a segment with entries, its two words hold the size and location of
   * the last entry for it.
   */
  lemma {:induction false} InitSegmentsLastWins(mem: Memory, es: seq<STInput>, i: nat)
    requires AllValidST(es) && i < |es|
    requires forall j :: i < j < |es| ==> es[j].s != es[i].s
    ensures InitSegments(mem, es)[SizeSlot(es[i].s)] == es[i].z
    ensures InitSegments(mem, es)[TableSlot(es[i].s)] == es[i].f
    decreases |es|
  {
    var next := ApplySegment(mem, es[0]);
    if i == 0 {
      InitSegmentsKeeps(next, es[1..], SizeSlot(es[0].s));
      InitSegmentsKeeps(next, es[1..], TableSlot(es[0].s));
    } else {
      InitSegmentsLastWins(next, es[1..], i - 1);
    }
  }

  /** A word that is neither slot of any entry keeps its value. */
  lemma {:induction false} InitSegmentsKeeps(mem: Memory, es: seq<STInput>, k: nat)
    requires AllValidST(es) && k < MEMORY_WORDS
    requires forall j :: 0 <= j < |es| ==> k != SizeSlot(es[j].s) && k != TableSlot(es[j].s)
    ensures InitSegments(mem, es)[k] == mem[k]
    decreases |es|
  {
    if es != [] {
      InitSegmentsKeeps(ApplySegment(mem, es[0]), es[1..], k);
    }
  }

  /** Segment entries touch only the segment table: words from frame SEGMENT_WORD_COUNT on keep their values. */
  lemma InitSegmentsStayInTable(mem: Memory, es: seq<STInput>, k: nat)
    requires AllValidST(es) && SEGMENT_WORD_COUNT * PAGE_SIZE <= k < MEMORY_WORDS
    ensures InitSegments(mem, es)[k] == mem[k]
  {
    InitSegmentsKeeps(mem, es, k);
  }

  /**
   * One page entry writes its location to word `p` of the disk block when
   * the segment's location is negative, and to physical word
   * `loc * PAGE_SIZE + p` otherwise; nothing else changes.
   */
  lemma ApplyPageEffect(st: Store, e: PTInput)
    requires e.Valid() && ApplyPage(st, e).Some?
    ensures var loc := st.memory[TableSlot(e.s)];
            var st' := ApplyPage(st, e).value;
            if loc < 0 then
              && st'.memory == st.memory
              && st'.disk[-loc][e.p] == e.f
              && (forall b, k :: 0 <= b < PAGE_COUNT && 0 <= k < PAGE_SIZE && (b != -loc || k != e.p) ==>
                    st'.disk[b][k] == st.disk[b][k])
            else
              && st'.disk == st.disk
              && st'.memory[loc * PAGE_SIZE + e.p] == e.f
              && (forall k :: 0 <= k < MEMORY_WORDS && k != loc * PAGE_SIZE + e.p ==> st'.memory[k] == st.memory[k])
  {
  }

  /**
   * Entries built from parsed text have the shapes `init` takes: every
   * accepted size fits an `i32`, so `i32::try_from` in `init` cannot fail.
   */
  lemma ParsedSegmentEntryIsValid(s: string, z: string, f: string)
    requires SegmentOffset.New(s).Ok? && SegmentSize.New(z).Ok? && FrameOffset.New(f).Ok?
    ensures STInput(SegmentOffset.New(s).value.Value(), SegmentSize.New(z).value.Value(),
                    FrameOffset.New(f).value.Value()).Valid()
    ensures SegmentSize.New(z).value.Value() <= I32_MAX
  {
  }

  lemma ParsedPageEntryIsValid(s: string, p: string, f: string)
    requires SegmentOffset.New(s).Ok? && PageOffset.New(p).Ok? && FrameOffset.New(f).Ok?
    ensures PTInput(SegmentOffset.New(s).value.Value(), PageOffset.New(p).value.Value(),
                    FrameOffset.New(f).value.Value()).Valid()
  {
  }

  // --------------------------------------------------- the frame-level view

  /**
   * Over memory kept as frames, the engine's test for a free frame (all of
   * its words zero) looks only at that frame's data.
   */
  lemma FlattenedFrameIsZero(frames: seq<Frame>, f: nat)
    requires |frames| == PAGE_COUNT && f < PAGE_COUNT
    ensures FrameIsZero(Flatten(frames), f) <==> forall k :: 0 <= k < PAGE_SIZE ==> frames[f].data[k] == 0
  {
    var mem: Memory := Flatten(frames);
    forall k | 0 <= k < PAGE_SIZE
      ensures mem[f * PAGE_SIZE + k] == frames[f].data[k]
    {
      FlattenAt(frames, f * PAGE_SIZE + k);
    }
    if forall k :: 0 <= k < PAGE_SIZE ==> frames[f].data[k] == 0 {
      forall a | f * PAGE_SIZE <= a < f * PAGE_SIZE + PAGE_SIZE
        ensures mem[a] == 0
      {
        assert mem[f * PAGE_SIZE + (a - f * PAGE_SIZE)] == frames[f].data[a - f * PAGE_SIZE];
      }
    }
  }

  /**
   * Segment entries whose locations are not 1 keep the invariant: they write
   * sizes only to even words of the first two frames, and locations to the
   * odd ones.
   */
  lemma {:induction false} InitSegmentsAvoidReserved(st: Store, es: seq<STInput>)
    requires AllValidST(es) && AvoidsReserved(st)
    requires forall j :: 0 <= j < |es| ==> es[j].f != 1
    ensures AvoidsReserved(Store(InitSegments(st.memory, es), st.disk))
    decreases |es|
  {
    if es != [] {
      var next := ApplySegment(st.memory, es[0]);
      forall t | 0 <= t <= MAX_SEGMENT_OFFSET
        ensures next[TableSlot(t)] != 1
      {
        assert TableSlot(t) != SizeSlot(es[0].s);
      }
      assert SizeSlot(es[0].s) < SEGMENT_WORD_COUNT * PAGE_SIZE;
      InitSegmentsAvoidReserved(Store(next, st.disk), es[1..]);
    }
  }

  /** Page entries whose locations are not 1 keep the invariant, wherever they write. */
  lemma {:induction false} InitPagesAvoidReserved(st: Store, es: seq<PTInput>)
    requires AllValidPT(es) && AvoidsReserved(st) && InitPages(st, es).Some?
    requires forall j :: 0 <= j < |es| ==> es[j].f != 1
    ensures AvoidsReserved(InitPages(st, es).value)
    decreases |es|
  {
    if es != [] {
      var next := ApplyPage(st, es[0]).value;
      assert AvoidsReserved(next);
      InitPagesAvoidReserved(next, es[1..]);
    }
  }

  /**
   * `init` with entries whose locations come from FrameOffset, which never
   * yields 1, keeps the invariant. With FreshAvoidsReserved,
   * TranslateKeepsAvoidsReserved and AvoidsReservedAt, every state reached
   * from fresh memory through `init` and translations meets the condition of
   * TranslateKeepsSegmentTable for every address.
   */
  lemma InitAvoidsReserved(st: Store, sts: seq<STInput>, pts: seq<PTInput>)
    requires AllValidST(sts) && AllValidPT(pts) && Init(st, sts, pts).Some?
    requires AvoidsReserved(st)
    requires forall j :: 0 <= j < |sts| ==> sts[j].f != 1
    requires forall j :: 0 <= j < |pts| ==> pts[j].f != 1
    ensures AvoidsReserved(Init(st, sts, pts).value)
  {
    InitSegmentsAvoidReserved(st, sts);
    InitPagesAvoidReserved(Store(InitSegments(st.memory, sts), st.disk), pts);
  }

  /** A location parsed by FrameOffset is never 1. */
  lemma ParsedLocationIsNotReserved(f: string)
    requires FrameOffset.New(f).Ok?
    ensures FrameOffset.New(f).value.Value() != 1
  {
  }
}
