/**
 * The behaviour of the translation engine (src/vm/virtual_memory.rs) as
 * functions of its state: the flat physical memory of MEMORY_WORDS words
 * and the disk of PAGE_COUNT blocks of PAGE_SIZE words.
 *
 * The segment table sits at the start of physical memory: word `2s` holds the
 * size of segment `s` and word `2s + 1` the location of its page table. A
 * location word, there or in a page table, is a signed tag: negative means
 * disk block `-v`, zero means uninitialised, positive means resident frame `v`.
 */
module VmSpec {
  import opened Ints
  import opened Constants
  import opened Errors
  import opened VirtualAddresses

  type Memory = m: seq<i32> | |m| == MEMORY_WORDS witness seq(524288, _ => 0)
  type Block = b: seq<i32> | |b| == PAGE_SIZE witness seq(512, _ => 0)
  type Disk = d: seq<Block> | |d| == PAGE_COUNT witness seq<Block>(1024, _ => ZeroBlock())

  /** A disk block of zero words. */
  function ZeroBlock(): Block {
    seq(512, _ => 0)
  }

  /** Memory and disk of a freshly created engine: every word zero. */
  function BlankMemory(): Memory {
    seq(MEMORY_WORDS, _ => 0)
  }

  function BlankDisk(): Disk {
    seq<Block>(PAGE_COUNT, _ => ZeroBlock())
  }

  /** Both halves of the engine's state, as `init` changes them. */
  datatype Store = Store(memory: Memory, disk: Disk)

  /** A result together with the memory after the operation that produced it. */
  datatype Outcome<T> = Outcome(result: Result<T>, memory: Memory)

  /** Word holding the size of segment `s`. */
  function SizeSlot(s: nat): nat {
    s * SEGMENT_WORD_COUNT + SEGMENT_SIZE_OFFSET
  }

  /** Word holding the page-table location of segment `s`. */
  function TableSlot(s: nat): nat {
    s * SEGMENT_WORD_COUNT + SEGMENT_PAGE_TABLE_OFFSET
  }

  /** Word `k` lies in frame `f`. */
  predicate InFrame(k: int, f: int) {
    f * PAGE_SIZE <= k < f * PAGE_SIZE + PAGE_SIZE
  }

  // ---------------------------------------------------------------- init

  /**
   * A segment-table entry as `init` consumes it: a segment number within the
   * segment bound, a segment size, and a nonzero location.
   */
  datatype STInput = STInput(s: u16, z: u32, f: i16) {
    predicate Valid() {
      s <= MAX_SEGMENT_OFFSET && z <= MAX_SEGMENT_SIZE && f != 0
    }
  }

  /** A page-table entry as `init` consumes it: segment, page (a PageOffset), location. */
  datatype PTInput = PTInput(s: u16, p: u16, f: i16) {
    predicate Valid() {
      s <= MAX_SEGMENT_OFFSET && p <= MAX_PAGE_OFFSET && f != 0
    }
  }

  predicate AllValidST(es: seq<STInput>) {
    forall i :: 0 <= i < |es| ==> es[i].Valid()
  }

  predicate AllValidPT(es: seq<PTInput>) {
    forall i :: 0 <= i < |es| ==> es[i].Valid()
  }

  /** One segment entry: the size goes to word `2s`, the location to word `2s + 1`. */
  function ApplySegment(mem: Memory, e: STInput): Memory
    requires e.Valid()
  {
    mem[SizeSlot(e.s) := e.z][TableSlot(e.s) := e.f]
  }

  /** The segment entries, applied in order. */
  function InitSegments(mem: Memory, es: seq<STInput>): Memory
    requires AllValidST(es)
    decreases |es|
  {
    if es == [] then mem else InitSegments(ApplySegment(mem, es[0]), es[1..])
  }

  /**
   * One page entry. The segment's location word decides where the entry goes:
   * word `p` of disk block `-loc` when it is negative, otherwise physical word
   * `loc * PAGE_SIZE + p`. None when the source would index out of range
   * (and panic).
   */
  function ApplyPage(st: Store, e: PTInput): Option<Store>
    requires e.Valid()
  {
    var loc := st.memory[TableSlot(e.s)];
    if loc < 0 then
      if -loc < PAGE_COUNT && e.p < PAGE_SIZE then
        Some(Store(st.memory, st.disk[-loc := st.disk[-loc][e.p := e.f]]))
      else
        None
    else if loc * PAGE_SIZE + e.p < MEMORY_WORDS then
      Some(Store(st.memory[loc * PAGE_SIZE + e.p := e.f], st.disk))
    else
      None
  }

  /** The page entries, applied in order. */
  function InitPages(st: Store, es: seq<PTInput>): Option<Store>
    requires AllValidPT(es)
    decreases |es|
  {
    if es == [] then Some(st)
    else match ApplyPage(st, es[0])
      case None => None
      case Some(st') => InitPages(st', es[1..])
  }

  /** `init`: every segment entry first, then every page entry. */
  function Init(st: Store, sts: seq<STInput>, pts: seq<PTInput>): Option<Store>
    requires AllValidST(sts) && AllValidPT(pts)
  {
    InitPages(Store(InitSegments(st.memory, sts), st.disk), pts)
  }

  // ---------------------------------------------------------- free frames

  /** Frame `f` holds only zero words: what `find_free_page` calls free. */
  predicate FrameIsZero(mem: Memory, f: nat)
    requires f < PAGE_COUNT
  {
    forall k :: f * PAGE_SIZE <= k < f * PAGE_SIZE + PAGE_SIZE ==> mem[k] == 0
  }

  /** The first all-zero frame at index `i` or above. */
  function FreeFrom(mem: Memory, i: nat): (r: Result<nat>)
    requires i <= PAGE_COUNT
    ensures r.Ok? ==> i <= r.value < PAGE_COUNT && FrameIsZero(mem, r.value)
    ensures r.Err? ==> r.error == MemoryFull
    decreases PAGE_COUNT - i
  {
    if i == PAGE_COUNT then Err(MemoryFull)
    else if FrameIsZero(mem, i) then Ok(i)
    else FreeFrom(mem, i + 1)
  }

  /** `find_free_page`: the scan skips the SEGMENT_WORD_COUNT reserved frames. */
  function FreePage(mem: Memory): Result<nat> {
    FreeFrom(mem, SEGMENT_WORD_COUNT)
  }

  // ------------------------------------------------------------ translate

  /** A location word whose disk block, if it names one, exists. */
  predicate Addressable(loc: int) {
    loc < 0 ==> -loc < PAGE_COUNT
  }

  /**
   * Resolving the word at `slot` does not panic: taking the magnitude of a
   * negative location does not overflow, and the disk block is indexed only
   * once a free frame has been found, so it must exist only then.
   */
  predicate CanResolve(mem: Memory, slot: nat)
    requires slot < MEMORY_WORDS
  {
    mem[slot] < 0 ==> I32_MIN < mem[slot] && (FreePage(mem).Ok? ==> Addressable(mem[slot]))
  }

  /** Memory with frame `f` overwritten by the words of `b`. */
  function CopyBlock(mem: Memory, f: nat, b: Block): Memory
    requires f < PAGE_COUNT
  {
    seq(MEMORY_WORDS, k requires 0 <= k < MEMORY_WORDS =>
      if f * PAGE_SIZE <= k < f * PAGE_SIZE + PAGE_SIZE then b[k - f * PAGE_SIZE] else mem[k])
  }

  /**
   * The three-way resolution of the location word at `slot`. A resident
   * frame is used as it is; zero is an error; a disk block is paged in: the
   * first free frame is taken, the slot is set to it, and then the block is
   * copied into it.
   */
  function Resolve(mem: Memory, disk: Disk, slot: nat): Outcome<nat>
    requires slot < MEMORY_WORDS && CanResolve(mem, slot)
  {
    var loc := mem[slot];
    if loc < 0 then
      match FreePage(mem)
      case Err(e) => Outcome(Err(e), mem)
      case Ok(f) => Outcome(Ok(f), CopyBlock(mem[slot := f], f, disk[-loc]))
    else if loc == 0 then
      Outcome(Err(MemoryNotInitialized), mem)
    else
      Outcome(Ok(loc as nat), mem)
  }

  /**
   * The states in which `translate` does not panic: every disk block it
   * pages in exists. Checks that end the translation earlier need nothing.
   */
  predicate CanTranslate(mem: Memory, disk: Disk, va: VirtualAddress) {
    var size := mem[SizeSlot(va.s)];
    size < 0 || va.pw >= size ||
    (CanResolve(mem, TableSlot(va.s)) &&
     var pt := Resolve(mem, disk, TableSlot(va.s));
     pt.result.Ok? && pt.result.value * PAGE_SIZE + va.p < MEMORY_WORDS ==>
       CanResolve(pt.memory, pt.result.value * PAGE_SIZE + va.p))
  }

  /**
   * `translate`: the bounds check against the segment size, the page-table
   * location, the page location, and the physical address
   * `frame * PAGE_SIZE + w`. Page-ins done before an error stay done.
   */
  function Translate(mem: Memory, disk: Disk, va: VirtualAddress): Outcome<u32>
    requires CanTranslate(mem, disk, va)
  {
    var size := mem[SizeSlot(va.s)];
    if size < 0 then
      // u32::try_from of a negative size fails
      Outcome(Err(GeneralError), mem)
    else if va.pw >= size then
      Outcome(Err(VirtualAddressOutOfBounds), mem)
    else
      var pt := Resolve(mem, disk, TableSlot(va.s));
      if pt.result.Err? then
        Outcome(Err(pt.result.error), pt.memory)
      else
        var pageSlot := pt.result.value * PAGE_SIZE + va.p;
        if pageSlot >= MEMORY_WORDS then
          Outcome(Err(VirtualAddressOutOfBounds), pt.memory)
        else
          var pg := Resolve(pt.memory, disk, pageSlot);
          if pg.result.Err? then
            Outcome(Err(pg.result.error), pg.memory)
          else
            var address := pg.result.value * PAGE_SIZE + va.w;
            if address > U32_MAX then
              // u32::try_from of the address fails
              Outcome(Err(GeneralError), pg.memory)
            else
              Outcome(Ok(address), pg.memory)
  }
}
