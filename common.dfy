/**
 * Immediate decoding shared by the analysis and the translator: the tagged
 * inline immediate, the width extensions, and the resolution of an operand
 * dword against the constant pool.
 */
module Common {
  import opened Wrappers
  import opened PoolItems
  import opened Instructions

  /** The two's-complement readings of a 32-, 16- and 8-bit quantity. */
  function Signed(x: bv32): int {
    if x < 0x8000_0000 then x as int else x as int - 0x1_0000_0000
  }

  function Signed16(x: bv16): int {
    if x < 0x8000 then x as int else x as int - 0x1_0000
  }

  function Signed8(x: bv8): int {
    if x < 0x80 then x as int else x as int - 0x100
  }

  /**
   * The payload of an inline immediate: bits 0-30 kept, and bit 30 copied
   * into bit 31, so that the 31-bit quantity is read as signed.
   */
  function InlinePayload(dword: bv32): bv32 {
    (dword & 0x7FFF_FFFF) | ((dword << 1) & 0x8000_0000)
  }

  /** The payload keeps bits 0-30 of the dword, and its bit 31 is the dword's bit 30. */
  lemma {:induction false} InlinePayloadBits(dword: bv32)
    ensures InlinePayload(dword) % 0x8000_0000 == dword % 0x8000_0000
    ensures InlinePayload(dword) >= 0x8000_0000 <==> dword & 0x4000_0000 != 0
  {
  }

  /**
   * `get_immediate_pip_dword`: a dword with bit 31 set carries an inline
   * immediate; a dword with bit 31 clear is not one.
   */
  function GetImmediatePipDword(dword: bv32): (r: Option<bv32>)
    ensures r.None? <==> dword < 0x8000_0000
    ensures r.Some? ==> r.value == InlinePayload(dword)
  {
    if dword & 0x8000_0000 != 0 then Some(InlinePayload(dword)) else None
  }

  /**
   * `sign_extend(uint8_t)`: the low byte is the value and the upper 24 bits
   * are copies of its bit 7.
   */
  function SignExtend8(value: bv8): (r: bv32)
    ensures r & 0xFF == value as bv32
    ensures r >> 8 == if value >> 7 == 1 then 0xFF_FFFF else 0
  {
    if value & 0x80 == 0 then value as bv32 else (value as bv32) | 0xFFFF_FF00
  }

  /**
   * `sign_extend(uint16_t)`: the low half is the value and the upper 16 bits
   * are copies of its bit 15.
   */
  function SignExtend16(value: bv16): (r: bv32)
    ensures r & 0xFFFF == value as bv32
    ensures r >> 16 == if value >> 15 == 1 then 0xFFFF else 0
  {
    if value & 0x8000 == 0 then value as bv32 else (value as bv32) | 0xFFFF_0000
  }

  /**
   * `sign_extend_to_word`: the low byte is the value and the upper 8 bits are
   * copies of its bit 7.
   */
  function SignExtendToWord(value: bv8): (r: bv16)
    ensures r & 0xFF == value as bv16
    ensures r >> 8 == if value >> 7 == 1 then 0xFF else 0
  {
    if value & 0x80 == 0 then value as bv16 else (value as bv16) | 0xFF00
  }

  /** Sign extension keeps the signed value of the narrower quantity. */
  lemma {:induction false} SignExtend8PreservesValue(b: bv8)
    ensures Signed(SignExtend8(b)) == Signed8(b)
  {
    if b < 0x80 {
      assert SignExtend8(b) == b as bv32;
    } else {
      assert SignExtend8(b) == b as bv32 + 0xFFFF_FF00;
    }
  }

  lemma {:induction false} SignExtend16PreservesValue(h: bv16)
    ensures Signed(SignExtend16(h)) == Signed16(h)
  {
    if h < 0x8000 {
      assert SignExtend16(h) == h as bv32;
    } else {
      assert SignExtend16(h) == h as bv32 + 0xFFFF_0000;
    }
  }

  lemma {:induction false} SignExtendToWordPreservesValue(b: bv8)
    ensures Signed16(SignExtendToWord(b)) == Signed8(b)
  {
    if b < 0x80 {
      assert SignExtendToWord(b) == b as bv16;
    } else {
      assert SignExtendToWord(b) == b as bv16 + 0xFF00;
    }
  }

  /**
   * An inline immediate is a signed 31-bit value: as a word it lies below
   * 2^30 or at or above 2^32 - 2^30, that is in [-2^30, 2^30) read as signed.
   */
  lemma {:induction false} InlineRange(dword: bv32)
    ensures InlinePayload(dword) < 0x4000_0000 || InlinePayload(dword) >= 0xC000_0000
  {
  }

  /**
   * `read_immediate`: an inline immediate wins and the pool is not consulted;
   * otherwise the dword is a 1-based pool index that resolves only when it
   * names a constant, to that constant's payload.
   */
  function ReadImmediate(pool: PoolItems, dword: bv32): (r: Option<bv32>)
    ensures dword >= 0x8000_0000 ==> r == Some(InlinePayload(dword))
    ensures dword < 0x8000_0000 ==> (r.Some? <==> IsConstant(pool, dword as nat))
    ensures dword < 0x8000_0000 && r.Some? ==> r.value == GetConstant(pool, dword as nat)
  {
    match GetImmediatePipDword(dword)
    case Some(immediate) => Some(immediate)
    case None =>
      if IsConstant(pool, dword as nat) then Some(GetConstant(pool, dword as nat)) else None
  }

  /** An inline immediate resolves the same way against any pool. */
  lemma {:induction false} InlineIgnoresPool(pool1: PoolItems, pool2: PoolItems, dword: bv32)
    requires dword >= 0x8000_0000
    ensures ReadImmediate(pool1, dword) == ReadImmediate(pool2, dword)
  {
  }

  /**
   * `make_constant` followed by decoding gives the value back exactly when the
   * value is a 31-bit signed quantity (bits 30 and 31 agree).
   */
  lemma {:induction false} ConstantRoundTrip(value: bv32)
    ensures GetImmediatePipDword(MakeConstant(value)) == Some(value) <==> (value >= 0x8000_0000) == (value & 0x4000_0000 != 0)
  {
    assert GetImmediatePipDword(MakeConstant(value)) == Some(InlinePayload(MakeConstant(value)));
    PayloadOfConstant(value);
  }

  /** The payload decoded from `make_constant(value)`, compared with `value`. */
  lemma {:induction false} PayloadOfConstant(value: bv32)
    ensures InlinePayload(MakeConstant(value)) == value <==> (value >= 0x8000_0000) == (value & 0x4000_0000 != 0)
  {
    ConstantBits(value);
  }

  /** The same comparison on the two encodings written out bit-wise. */
  lemma ConstantBits(value: bv32)
    ensures ((value | 0x8000_0000) & 0x7FFF_FFFF) | (((value | 0x8000_0000) << 1) & 0x8000_0000) == value
      <==> (value >= 0x8000_0000) == (value & 0x4000_0000 != 0)
  {
  }

  /** In particular every value below 2^30 survives `make_constant` and decoding. */
  lemma {:induction false} SmallConstantRoundTrip(value: bv32)
    requires value < 0x4000_0000
    ensures GetImmediatePipDword(MakeConstant(value)) == Some(value)
  {
    ConstantRoundTrip(value);
  }

  /**
   * A pool reference is the bare index, and below 2^31 it is never mistaken
   * for an inline immediate.
   */
  lemma {:induction false} PoolRefGoesToPool(index: bv32)
    requires index < 0x8000_0000
    ensures MakePoolRef(index) == index
    ensures GetImmediatePipDword(MakePoolRef(index)) == None
  {
  }
}
