/**
 * Decoding a 32-bit virtual address into segment, page and word fields
 * (src/vm/virtual_address.rs). On an unsigned value a right shift by k is
 * division by 2^k and a mask of k low bits is the remainder modulo 2^k, so
 * the decoder is written with `/` and `%`; BitOperationsAreDivMod states the
 * correspondence on `bv32`.
 */
module VirtualAddresses {
  import opened Ints

  /** 2^9: the span of the word field and of the page field. */
  const WORD_SPAN: nat := 512
  /** 2^18: the span of the page and word fields together. */
  const SEGMENT_SPAN: nat := 262144
  /** 2^27: the addresses whose segment field fits nine bits. */
  const ADDRESS_SPAN: nat := 134217728

  datatype VirtualAddress = VirtualAddress(s: u16, p: u16, w: u16, pw: u32) {

    /**
     * `VirtualAddress::new`: total, every `u32` decodes. The casts to `u16`
     * are lossless and the fields reassemble the address.
     */
    static function New(va: u32): (r: VirtualAddress)
      ensures r.w < 512 && r.p < 512 && r.s < 16384
      ensures r.pw == r.p * 512 + r.w
      ensures r.s * 262144 + r.pw == va
    {
      VirtualAddress(va / SEGMENT_SPAN, (va / WORD_SPAN) % WORD_SPAN, va % WORD_SPAN, va % SEGMENT_SPAN)
    }

    /** The shape every decoded address has. */
    predicate WellFormed() {
      w < WORD_SPAN && p < WORD_SPAN && pw == p * WORD_SPAN + w
    }
  }

  /** The shifts and masks of the source are the divisions and remainders above. */
  lemma BitOperationsAreDivMod(x: bv32)
    ensures x >> 18 == x / 0x40000
    ensures x & 0x1FF == x % 0x200
    ensures (x >> 9) & 0x1FF == (x / 0x200) % 0x200
    ensures x & 0x3FFFF == x % 0x40000
  {
  }

  /** Assembling an address from its fields, `(s << 18) | (p << 9) | w`. */
  function Encode(s: nat, p: nat, w: nat): nat {
    s * SEGMENT_SPAN + p * WORD_SPAN + w
  }

  /** The word field is the address modulo 512, the page field the next nine bits. */
  lemma DecodeFields(va: u32)
    ensures VirtualAddress.New(va).w == va % 512
    ensures VirtualAddress.New(va).p == (va / 512) % 512
    ensures VirtualAddress.New(va).pw == va % 262144
    ensures VirtualAddress.New(va).s == va / 262144
    ensures VirtualAddress.New(va).WellFormed()
  {
  }

  /** Decoding and re-encoding gives the address back. */
  lemma EncodeDecode(va: u32)
    ensures var d := VirtualAddress.New(va); Encode(d.s, d.p, d.w) == va
  {
  }

  /** Encoding fields in range and decoding gives the fields back. */
  lemma DecodeEncode(s: nat, p: nat, w: nat)
    requires s < 16384 && p < 512 && w < 512
    ensures Encode(s, p, w) <= U32_MAX
    ensures VirtualAddress.New(Encode(s, p, w)) == VirtualAddress(s, p, w, p * 512 + w)
  {
    var va := Encode(s, p, w);
    SplitBySegmentSpan(va, s, p * 512 + w);
    SplitByWordSpan(va, s * 512 + p, w);
    SplitByWordSpan(s * 512 + p, s, p);
  }

  /** `q` and `r` are the quotient and remainder of `a` by 2^18. */
  lemma SplitBySegmentSpan(a: nat, q: nat, r: nat)
    requires r < 262144 && a == q * 262144 + r
    ensures a / 262144 == q && a % 262144 == r
  {
  }

  /** `q` and `r` are the quotient and remainder of `a` by 2^9. */
  lemma SplitByWordSpan(a: nat, q: nat, r: nat)
    requires r < 512 && a == q * 512 + r
    ensures a / 512 == q && a % 512 == r
  {
  }

  /**
   * Only addresses below 2^27 have a segment field within the nine-bit
   * segment bound; the decoder does not reject the others.
   */
  lemma SegmentFieldBound(va: u32)
    ensures va < ADDRESS_SPAN ==> VirtualAddress.New(va).s <= 511
    ensures va >= ADDRESS_SPAN ==> VirtualAddress.New(va).s > 511
  {
  }
}
