/**
 * The instruction word. One 32-bit little-endian word is read through four
 * overlapping views; each view is a pure decode of the word and each `Make...`
 * constructor a pure encode, never a memory overlay. Byte 0 is always the opcode.
 */
module Instructions {
  /**
   * The mnemonics the modelled handlers and the branch classifier refer to.
   * Their byte values are defined outside this model, so an instruction view
   * carries the raw opcode byte and this enumeration stands beside it.
   */
  datatype Opcode =
    | ADD | ADDi | ADDQ | SUB | SUBi | SUBQ
    | NOT | NEG | EXSB | EXSH | NOP | SLEEP | KILLTASK
    | LDI | LDQ | LDWd | LDHd | LDHUd | LDBd | LDBUd | STWd | STHd | STBd | STORE | RESTORE
    | SYSCPY | SYSSET
    | BEQ | BEQI | BEQIB | BNE | BNEI | BNEIB
    | BLT | BLTI | BLTIB | BLTU | BLTUI | BLTUIB
    | BLE | BLEI | BLEIB | BLEU | BLEUI | BLEUIB
    | BGT | BGTI | BGTIB | BGTU | BGTUI | BGTUIB
    | BGE | BGEI | BGEIB | BGEU | BGEUI | BGEUIB
    | JPl | CALLl | JPr | CALLr | RET
    | OtherOpcode

  /** (opcode, destination, 16-bit immediate) */
  datatype WordEncoding = WordEncoding(opcode: bv8, rd: bv8, imm: bv16)
  /** (opcode, first register of a range, byte count) */
  datatype RangeRegEncoding = RangeRegEncoding(opcode: bv8, rs: bv8, count: bv8)
  /** (opcode, destination, two sources) */
  datatype TwoSourcesEncoding = TwoSourcesEncoding(opcode: bv8, rd: bv8, rs: bv8, rt: bv8)
  /** (opcode, destination) */
  datatype DestOnlyEncoding = DestOnlyEncoding(opcode: bv8, rd: bv8)

  function Byte0(w: bv32): bv8 { (w & 0xFF) as bv8 }
  function Byte1(w: bv32): bv8 { ((w >> 8) & 0xFF) as bv8 }
  function Byte2(w: bv32): bv8 { ((w >> 16) & 0xFF) as bv8 }
  function Byte3(w: bv32): bv8 { (w >> 24) as bv8 }

  /** The little-endian word with the given four bytes, lowest first. */
  function Bytes(b0: bv8, b1: bv8, b2: bv8, b3: bv8): (w: bv32)
    ensures Byte0(w) == b0 && Byte1(w) == b1 && Byte2(w) == b2 && Byte3(w) == b3
  {
    (b0 as bv32) | ((b1 as bv32) << 8) | ((b2 as bv32) << 16) | ((b3 as bv32) << 24)
  }

  function WordView(w: bv32): WordEncoding {
    WordEncoding(Byte0(w), Byte1(w), (w >> 16) as bv16)
  }

  function RangeRegView(w: bv32): RangeRegEncoding {
    RangeRegEncoding(Byte0(w), Byte1(w), Byte2(w))
  }

  function TwoSourcesView(w: bv32): TwoSourcesEncoding {
    TwoSourcesEncoding(Byte0(w), Byte1(w), Byte2(w), Byte3(w))
  }

  function DestOnlyView(w: bv32): DestOnlyEncoding {
    DestOnlyEncoding(Byte0(w), Byte1(w))
  }

  /** `make_word_instruction`: the word view reads back exactly the three fields. */
  function MakeWordInstruction(opcode: bv8, rd: bv8, imm: bv16): (w: bv32)
    ensures WordView(w) == WordEncoding(opcode, rd, imm)
  {
    (opcode as bv32) | ((rd as bv32) << 8) | ((imm as bv32) << 16)
  }

  /**
   * `make_range_reg_instruction`: the range view reads back its three fields.
   * The fourth byte lies outside the initialised member; the model makes it 0.
   */
  function MakeRangeRegInstruction(opcode: bv8, rs: bv8, count: bv8): (w: bv32)
    ensures RangeRegView(w) == RangeRegEncoding(opcode, rs, count)
    ensures Byte3(w) == 0
  {
    Bytes(opcode, rs, count, 0)
  }

  /** `make_binary_instruction`: the two-sources view reads back all four fields. */
  function MakeBinaryInstruction(opcode: bv8, rd: bv8, rs: bv8, rt: bv8): (w: bv32)
    ensures TwoSourcesView(w) == TwoSourcesEncoding(opcode, rd, rs, rt)
  {
    Bytes(opcode, rd, rs, rt)
  }

  /** `make_unary_instruction`: like the binary form with the omitted `rt` value-initialised to 0. */
  function MakeUnaryInstruction(opcode: bv8, rd: bv8, rs: bv8): (w: bv32)
    ensures TwoSourcesView(w) == TwoSourcesEncoding(opcode, rd, rs, 0)
  {
    Bytes(opcode, rd, rs, 0)
  }

  /**
   * `make_single_argument_instruction`: the destination-only view reads back both fields.
   * The upper two bytes lie outside the initialised member; the model makes them 0.
   */
  function MakeSingleArgumentInstruction(opcode: bv8, rd: bv8): (w: bv32)
    ensures DestOnlyView(w) == DestOnlyEncoding(opcode, rd)
    ensures Byte2(w) == 0 && Byte3(w) == 0
  {
    Bytes(opcode, rd, 0, 0)
  }

  /** `make_pool_ref`: the word is the 1-based pool index itself. */
  function MakePoolRef(index: bv32): bv32 {
    index
  }

  /** `make_constant`: tags the word as an inline immediate by setting bit 31. */
  function MakeConstant(value: bv32): bv32 {
    value | 0x8000_0000
  }

  /** `make_constant` sets bit 31 and keeps bits 0-30 of the value. */
  lemma {:induction false} MakeConstantBits(value: bv32)
    ensures MakeConstant(value) >= 0x8000_0000
    ensures MakeConstant(value) % 0x8000_0000 == value % 0x8000_0000
  {
  }

  /** Decoding the full views and encoding them again gives back the same word. */
  lemma {:induction false} FullViewsRoundTrip(w: bv32)
    ensures var v := WordView(w); MakeWordInstruction(v.opcode, v.rd, v.imm) == w
    ensures var v := TwoSourcesView(w); MakeBinaryInstruction(v.opcode, v.rd, v.rs, v.rt) == w
  {
  }

  /** The partial views re-encode to the same word on every byte they cover. */
  lemma {:induction false} PartialViewsRoundTrip(w: bv32)
    ensures var v := RangeRegView(w); MakeRangeRegInstruction(v.opcode, v.rs, v.count) & 0xFF_FFFF == w & 0xFF_FFFF
    ensures var v := DestOnlyView(w); MakeSingleArgumentInstruction(v.opcode, v.rd) & 0xFFFF == w & 0xFFFF
  {
  }

  /**
   * How the views overlap: byte 1 is the first register of every view, byte 2
   * is both the range count and the first source, and the 16-bit immediate is
   * the two source bytes read as one little-endian halfword (rs + 256 * rt,
   * which never exceeds 0xFFFF).
   */
  lemma {:induction false} ViewsOverlap(w: bv32)
    ensures WordView(w).opcode == RangeRegView(w).opcode == TwoSourcesView(w).opcode == DestOnlyView(w).opcode
    ensures WordView(w).rd == TwoSourcesView(w).rd == RangeRegView(w).rs == DestOnlyView(w).rd
    ensures RangeRegView(w).count == TwoSourcesView(w).rs
    ensures WordView(w).imm == (TwoSourcesView(w).rs as bv16) + 256 * (TwoSourcesView(w).rt as bv16)
  {
  }
}
