/**
 * The bounded value types (the files under src/io/data). Each parses a decimal string
 * into a fixed-width integer and then bound-checks it; a failure of either
 * step is reported with the type's own error kind.
 */
module Data {
  import opened Ints
  import opened Constants
  import opened Errors
  import opened Decimal

  /** The values each type admits once constructed. */
  type SegmentNumber = v: u16 | v <= MAX_SEGMENT_OFFSET
  type PageNumber = v: u16 | v <= MAX_PAGE_OFFSET
  type FrameLocation = v: i16 | v <= MAX_PAGE_OFFSET && !(0 <= v < MIN_POSITIVE_PAGE_OFFSET) witness -1
  type SizeValue = v: u32 | v <= MAX_SEGMENT_SIZE

  /** A segment number: a `u16` in 0..=MAX_SEGMENT_OFFSET (511). */
  datatype SegmentOffset = SegmentOffset(v: SegmentNumber) {
    function Value(): SegmentNumber {
      v
    }

    static function New(input: string): (r: Result<SegmentOffset>)
      ensures r.Ok? <==> IsNumeral(input) && ValueOf(input) <= MAX_SEGMENT_OFFSET
      ensures r.Ok? ==> r.value.Value() == ValueOf(input) && r.value.Value() <= 511
      ensures r.Err? ==> r.error == InvalidSegment
    {
      match ParseUnsigned(input, U16_MAX)
      case None => Err(InvalidSegment)
      case Some(n) => if n > MAX_SEGMENT_OFFSET then Err(InvalidSegment) else Ok(SegmentOffset(n))
    }
  }

  /**
   * A page number: a `u16` in 0..=MAX_PAGE_OFFSET. The bound is the
   * frame-count bound 1023, not the 511 that nine page bits would give.
   */
  datatype PageOffset = PageOffset(v: PageNumber) {
    function Value(): PageNumber {
      v
    }

    static function New(input: string): (r: Result<PageOffset>)
      ensures r.Ok? <==> IsNumeral(input) && ValueOf(input) <= MAX_PAGE_OFFSET
      ensures r.Ok? ==> r.value.Value() == ValueOf(input) && r.value.Value() <= 1023
      ensures r.Err? ==> r.error == InvalidPage
    {
      match ParseUnsigned(input, U16_MAX)
      case None => Err(InvalidPage)
      case Some(n) => if n > MAX_PAGE_OFFSET then Err(InvalidPage) else Ok(PageOffset(n))
    }
  }

  /**
   * A frame location: an `i16` outside 0..MIN_POSITIVE_PAGE_OFFSET and at
   * most MAX_PAGE_OFFSET. There is no lower bound besides the one of `i16`.
   */
  datatype FrameOffset = FrameOffset(v: FrameLocation) {
    function Value(): FrameLocation {
      v
    }

    static function New(input: string): (r: Result<FrameOffset>)
      ensures r.Ok? <==> IsSignedNumeral(input) && I16_MIN <= SignedValueOf(input) <= MAX_PAGE_OFFSET
                         && !(0 <= SignedValueOf(input) < MIN_POSITIVE_PAGE_OFFSET)
      ensures r.Ok? ==> r.value.Value() == SignedValueOf(input)
      ensures r.Ok? ==> r.value.Value() != 0 && (r.value.Value() > 0 ==> r.value.Value() >= 2)
      ensures r.Err? ==> r.error == InvalidFrame
    {
      match ParseSigned(input, I16_MIN, I16_MAX)
      case None => Err(InvalidFrame)
      case Some(n) =>
        if 0 <= n < MIN_POSITIVE_PAGE_OFFSET || n > MAX_PAGE_OFFSET then Err(InvalidFrame)
        else Ok(FrameOffset(n))
    }
  }

  /** A segment size: a `u32` in 0..=MAX_SEGMENT_SIZE (523264). */
  datatype SegmentSize = SegmentSize(v: SizeValue) {
    function Value(): SizeValue {
      v
    }

    static function New(input: string): (r: Result<SegmentSize>)
      ensures r.Ok? <==> IsNumeral(input) && ValueOf(input) <= MAX_SEGMENT_SIZE
      ensures r.Ok? ==> r.value.Value() == ValueOf(input)
      ensures r.Ok? ==> r.value.Value() <= 523264 && r.value.Value() <= I32_MAX
      ensures r.Err? ==> r.error == InvalidSegmentSize
    {
      match ParseUnsigned(input, U32_MAX)
      case None => Err(InvalidSegmentSize)
      case Some(n) => if n > MAX_SEGMENT_SIZE then Err(InvalidSegmentSize) else Ok(SegmentSize(n))
    }
  }

  /** The rendering of n is accepted exactly when n <= 511, and read back unchanged. */
  lemma SegmentOffsetRoundTrip(n: nat)
    ensures SegmentOffset.New(Show(n)) == if n <= 511 then Ok(SegmentOffset(n)) else Err(InvalidSegment)
  {
    ShowDenotes(n);
  }

  /** The rendering of n is accepted exactly when n <= 1023, and read back unchanged. */
  lemma PageOffsetRoundTrip(n: nat)
    ensures PageOffset.New(Show(n)) == if n <= 1023 then Ok(PageOffset(n)) else Err(InvalidPage)
  {
    ShowDenotes(n);
  }

  /**
   * The rendering of n is accepted exactly when n is an `i16` that is
   * negative or in 2..=1023.
   */
  lemma FrameOffsetRoundTrip(n: int)
    ensures FrameOffset.New(ShowSigned(n)) ==
            if I16_MIN <= n < 0 || 2 <= n <= 1023 then Ok(FrameOffset(n)) else Err(InvalidFrame)
  {
    ShowSignedDenotes(n);
  }

  /** The rendering of n is accepted exactly when n <= 523264, and read back unchanged. */
  lemma SegmentSizeRoundTrip(n: nat)
    ensures SegmentSize.New(Show(n)) == if n <= 523264 then Ok(SegmentSize(n)) else Err(InvalidSegmentSize)
  {
    ShowDenotes(n);
  }

  /** The test vectors of segment_offset.rs. */
  lemma SegmentOffsetExamples()
    ensures SegmentOffset.New("0") == Ok(SegmentOffset(0))
    ensures SegmentOffset.New("-1") == Err(InvalidSegment)
    ensures SegmentOffset.New("512") == Err(InvalidSegment)
    ensures SegmentOffset.New("511") == Ok(SegmentOffset(511))
  {
    assert Show(512) == "512" && Show(511) == "511";
    SegmentOffsetRoundTrip(512);
    SegmentOffsetRoundTrip(511);
  }

  /** The test vectors of page_offset.rs. */
  lemma PageOffsetExamples()
    ensures PageOffset.New("0") == Ok(PageOffset(0))
    ensures PageOffset.New("-1") == Err(InvalidPage)
    ensures PageOffset.New("1024") == Err(InvalidPage)
    ensures PageOffset.New("1023") == Ok(PageOffset(1023))
  {
    assert Show(1024) == "1024" && Show(1023) == "1023";
    PageOffsetRoundTrip(1024);
    PageOffsetRoundTrip(1023);
  }

  /** The test vectors of frame_offset.rs. */
  lemma FrameOffsetExamples()
    ensures FrameOffset.New("2") == Ok(FrameOffset(2))
    ensures FrameOffset.New("-1") == Ok(FrameOffset(-1))
    ensures FrameOffset.New("0") == Err(InvalidFrame)
    ensures FrameOffset.New("1") == Err(InvalidFrame)
    ensures FrameOffset.New("1024") == Err(InvalidFrame)
    ensures FrameOffset.New("1023") == Ok(FrameOffset(1023))
  {
    assert ShowSigned(1024) == "1024" && ShowSigned(1023) == "1023";
    FrameOffsetRoundTrip(1024);
    FrameOffsetRoundTrip(1023);
  }

  /** The test vectors of segment_size.rs. */
  lemma SegmentSizeExamples()
    ensures SegmentSize.New("0") == Ok(SegmentSize(0))
    ensures SegmentSize.New("-1") == Err(InvalidSegmentSize)
    ensures SegmentSize.New("523265") == Err(InvalidSegmentSize)
    ensures SegmentSize.New("523264") == Ok(SegmentSize(523264))
  {
    ShowSizeBound();
    assert SegmentSize.New("523265") == Err(InvalidSegmentSize) by {
      SegmentSizeRoundTrip(523265);
    }
    assert SegmentSize.New("523264") == Ok(SegmentSize(523264)) by {
      SegmentSizeRoundTrip(523264);
    }
  }

  /** The renderings of MAX_SEGMENT_SIZE and of the number after it. */
  lemma ShowSizeBound()
    ensures Show(523264) == "523264" && Show(523265) == "523265"
  {
    assert Show(523) == "523";
    assert Show(52326) == "52326";
  }
}
