/**
 * Physical memory as a sequence of frames, with word access by absolute
 * address or by (frame, offset) (src/vm/physical_memory.rs). Flatten gives the
 * flat word view that the translation engine uses; address `a` is word
 * `a % PAGE_SIZE` of frame `a / PAGE_SIZE`.
 */
module PhysicalMemories {
  import opened Ints
  import opened Constants
  import opened Frames

  /** The words of all frames, in frame order. */
  function Flatten(frames: seq<Frame>): (words: seq<i32>)
    ensures |words| == PAGE_SIZE * |frames|
    decreases |frames|
  {
    if frames == [] then [] else Flatten(frames[..|frames| - 1]) + frames[|frames| - 1].data
  }

  /** Word `a` of the flat view is word `a % PAGE_SIZE` of frame `a / PAGE_SIZE`. */
  lemma {:induction false} FlattenAt(frames: seq<Frame>, a: nat)
    requires a < PAGE_SIZE * |frames|
    ensures a / PAGE_SIZE < |frames|
    ensures Flatten(frames)[a] == frames[a / PAGE_SIZE].data[a % PAGE_SIZE]
    decreases |frames|
  {
    var n := |frames| - 1;
    var prefix := frames[..n];
    assert Flatten(frames) == Flatten(prefix) + frames[n].data;
    if a < PAGE_SIZE * n {
      FlattenAt(prefix, a);
      assert prefix[a / PAGE_SIZE] == frames[a / PAGE_SIZE];
    } else {
      assert a / PAGE_SIZE == n && a % PAGE_SIZE == a - PAGE_SIZE * n;
    }
  }

  /** Writing word `o` of frame `f` is writing word `f * PAGE_SIZE + o` of the flat view. */
  lemma FlattenUpdate(frames: seq<Frame>, f: nat, o: nat, v: i32)
    requires f < |frames| && o < PAGE_SIZE
    ensures Flatten(frames[f := frames[f].(data := frames[f].data[o := v])])
            == Flatten(frames)[f * PAGE_SIZE + o := v]
  {
    var updated := frames[f := frames[f].(data := frames[f].data[o := v])];
    var lhs := Flatten(updated);
    var rhs := Flatten(frames)[f * PAGE_SIZE + o := v];
    forall a | 0 <= a < |lhs|
      ensures lhs[a] == rhs[a]
    {
      FlattenAt(updated, a);
      FlattenAt(frames, a);
    }
  }

  /** Frames whose words are all zero flatten to all-zero words. */
  lemma FlattenZero(frames: seq<Frame>)
    requires forall i, k :: 0 <= i < |frames| && 0 <= k < PAGE_SIZE ==> frames[i].data[k] == 0
    ensures Flatten(frames) == seq(PAGE_SIZE * |frames|, _ => 0)
  {
    var words := Flatten(frames);
    forall a | 0 <= a < |words|
      ensures words[a] == 0
    {
      FlattenAt(frames, a);
    }
  }

  /** The source's `PhysicalMemory`, a vector of frames updated in place. */
  class PhysicalMemory {
    var frames: seq<Frame>

    ghost predicate Valid()
      reads this
    {
      |frames| == PAGE_COUNT
    }

    /** `new_memory`: PAGE_COUNT free, all-zero frames. */
    constructor New()
      ensures Valid()
      ensures forall i :: 0 <= i < |frames| ==> frames[i] == Frame.New()
      ensures forall i :: 0 <= i < |frames| ==> frames[i].free
      ensures Flatten(frames) == seq(MEMORY_WORDS, _ => 0)
    {
      frames := seq(PAGE_COUNT, _ => Frame.New());
      new;
      FlattenZero(frames);
    }

    /** `get_word_by_offset`: word `offset` of frame `frame`. */
    function GetWordByOffset(frame: nat, offset: nat): (w: i32)
      reads this
      requires Valid() && frame < PAGE_COUNT && offset < PAGE_SIZE
      ensures w == Flatten(frames)[frame * PAGE_SIZE + offset]
    {
      FlattenAt(frames, frame * PAGE_SIZE + offset);
      frames[frame].data[offset]
    }

    /** `get_word_by_address`: the word at an absolute address. */
    function GetWordByAddress(address: nat): (w: i32)
      reads this
      requires Valid() && address < MEMORY_WORDS
      ensures w == GetWordByOffset(address / PAGE_SIZE, address % PAGE_SIZE)
      ensures w == Flatten(frames)[address]
    {
      FlattenAt(frames, address);
      frames[address / PAGE_SIZE].data[address % PAGE_SIZE]
    }

    /** `set_word_by_offset`: only word `offset` of frame `frame` changes. */
    method SetWordByOffset(frame: nat, offset: nat, value: i32)
      requires Valid() && frame < PAGE_COUNT && offset < PAGE_SIZE
      modifies this
      ensures Valid()
      ensures frames == old(frames)[frame := old(frames)[frame].(data := old(frames)[frame].data[offset := value])]
      ensures forall i :: 0 <= i < |frames| ==> frames[i].free == old(frames[i].free)
      ensures forall i, k :: 0 <= i < |frames| && 0 <= k < PAGE_SIZE && (i != frame || k != offset) ==>
                frames[i].data[k] == old(frames[i].data[k])
      ensures GetWordByOffset(frame, offset) == value
      ensures Flatten(frames) == old(Flatten(frames))[frame * PAGE_SIZE + offset := value]
    {
      FlattenUpdate(frames, frame, offset, value);
      frames := frames[frame := frames[frame].(data := frames[frame].data[offset := value])];
    }

    /** `set_word_by_address`: the same as writing by (address / PAGE_SIZE, address % PAGE_SIZE). */
    method SetWordByAddress(address: nat, value: i32)
      requires Valid() && address < MEMORY_WORDS
      modifies this
      ensures Valid()
      ensures var f, o := address / PAGE_SIZE, address % PAGE_SIZE;
              frames == old(frames)[f := old(frames)[f].(data := old(frames)[f].data[o := value])]
      ensures GetWordByAddress(address) == value
      ensures Flatten(frames) == old(Flatten(frames))[address := value]
    {
      FlattenAt(frames, address);
      var f, o := address / PAGE_SIZE, address % PAGE_SIZE;
      FlattenUpdate(frames, f, o, value);
      frames := frames[f := frames[f].(data := frames[f].data[o := value])];
    }
  }

  /** Address `f * PAGE_SIZE + o` is word `o` of frame `f`: splitting an address and rebuilding it agree. */
  lemma AddressSplitRoundTrip(m: PhysicalMemory, f: nat, o: nat)
    requires m.Valid() && f < PAGE_COUNT && o < PAGE_SIZE
    ensures (f * PAGE_SIZE + o) / PAGE_SIZE == f && (f * PAGE_SIZE + o) % PAGE_SIZE == o
    ensures m.GetWordByAddress(f * PAGE_SIZE + o) == m.GetWordByOffset(f, o)
  {
  }
}
