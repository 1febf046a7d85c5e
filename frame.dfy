/** A frame of physical memory: a free flag and PAGE_SIZE words (src/vm/frame.rs). */
module Frames {
  import opened Ints
  import opened Constants

  /** The words of one frame: exactly PAGE_SIZE of them, like the source's fixed-size array. */
  type FrameData = d: seq<i32> | |d| == PAGE_SIZE witness seq(512, _ => 0)

  datatype Frame = Frame(free: bool, data: FrameData) {

    /** `Frame::new`: a free frame whose every word is zero. */
    static function New(): (f: Frame)
      ensures f.free
      ensures |f.data| == PAGE_SIZE
      ensures forall k :: 0 <= k < |f.data| ==> f.data[k] == 0
    {
      Frame(true, seq(PAGE_SIZE, _ => 0))
    }
  }
}
