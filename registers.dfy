/**
 * The guest register numbering. A register is named by the byte offset of its
 * 32-bit slot in the register file, so every name is a multiple of 4 and fits
 * in one byte of an instruction word.
 */
module Registers {
  /** A register operand: the value of one instruction byte. */
  type Register = r: int | 0 <= r < 256

  const ZR: Register := 0
  const SP: Register := 4
  const RA: Register := 8
  const FP: Register := 12
  const S0: Register := 16
  const S1: Register := 20
  const S2: Register := 24
  const S3: Register := 28
  const S4: Register := 32
  const S5: Register := 36
  const S6: Register := 40
  const S7: Register := 44
  const P0: Register := 48
  const P1: Register := 52
  const P2: Register := 56
  const P3: Register := 60
  const G0: Register := 64
  const G1: Register := 68
  const G2: Register := 72
  const G3: Register := 76
  const G4: Register := 80
  const G5: Register := 84
  const G6: Register := 88
  const G7: Register := 92
  const G8: Register := 96
  const G9: Register := 100
  const G10: Register := 104
  const G11: Register := 108
  const G12: Register := 112
  const G13: Register := 116
  const R0: Register := 120
  const R1: Register := 124
  const PC: Register := 128

  /** Number of 32-bit slots in the register file: PC / 4. */
  const TotalCount: nat := PC / 4

  /** Every named register, in declaration order. */
  const Named: seq<Register> :=
    [ZR, SP, RA, FP, S0, S1, S2, S3, S4, S5, S6, S7, P0, P1, P2, P3,
     G0, G1, G2, G3, G4, G5, G6, G7, G8, G9, G10, G11, G12, G13, R0, R1, PC]

  /** The register-file slot a register addresses: its byte offset divided by 4. */
  function Slot(r: Register): (s: nat)
    ensures 4 * s <= r < 4 * s + 4
    ensures r % 4 == 0 ==> 4 * s == r
  {
    r / 4
  }

  /** A register operand that names a slot inside the register file. */
  predicate InFile(r: Register) {
    r % 4 == 0 && Slot(r) < TotalCount
  }

  /** ZR is 0 and the names step by 4 up to PC, which is the last one. */
  lemma {:induction false} NamedAreWordOffsets()
    ensures |Named| == TotalCount + 1
    ensures forall i | 0 <= i < |Named| :: Named[i] == 4 * i
  {
    assert Named == [0, 4, 8, 12, 16, 20, 24, 28, 32, 36, 40, 44, 48, 52, 56, 60,
      64, 68, 72, 76, 80, 84, 88, 92, 96, 100, 104, 108, 112, 116, 120, 124, 128];
    assert Named == seq(33, i => 4 * i);
  }

  /** Every named register except PC addresses a slot of the file; PC's slot is one past the end. */
  lemma {:induction false} OnlyPcOutsideFile()
    ensures TotalCount == 32
    ensures Slot(PC) == TotalCount && !InFile(PC)
    ensures forall i | 0 <= i < |Named| - 1 :: InFile(Named[i]) && Slot(Named[i]) == i
  {
    NamedAreWordOffsets();
  }
}
