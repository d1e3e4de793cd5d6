/** The A64 instructions that depend on where they are (Arm Architecture Reference Manual for A-profile, DDI 0487, section
    C6.2), as fields of the word. */
module A64Isa {
  import opened Bits

  /** B: bits 31 to 26 are 000101. */
  predicate IsBranch(w: nat) { w / 0x400_0000 == 5 }

  /** BL: bits 31 to 26 are 100101. */
  predicate IsCall(w: nat) { w / 0x400_0000 == 0x25 }

  /** B.cond: bits 31 to 24 are 01010100, bit 4 is clear. */
  predicate IsBranchIf(w: nat) { w / 0x100_0000 == 0x54 && w / 0x10 % 2 == 0 }

  /** CBZ and CBNZ: bits 30 to 25 are 011010. */
  predicate IsCompare(w: nat) { w / 0x200_0000 % 0x40 == 0x1a }

  /** TBZ and TBNZ: bits 30 to 25 are 011011. */
  predicate IsTest(w: nat) { w / 0x200_0000 % 0x40 == 0x1b }

  /** ADR: bit 31 is clear, bits 28 to 24 are 10000. */
  predicate IsAdr(w: nat) { w / 0x8000_0000 == 0 && w / 0x100_0000 % 0x20 == 0x10 }

  /** ADRP: the same with bit 31 set. */
  predicate IsAdrp(w: nat) { w / 0x8000_0000 == 1 && w / 0x100_0000 % 0x20 == 0x10 }

  /** Loads of literals: bits 29 to 27 are 011, bits 25 and 24 are clear. Bit 26 selects the SIMD registers and bits 31 and
      30 the size. */
  predicate IsLiteral(w: nat) { w / 0x800_0000 % 8 == 3 && w / 0x100_0000 % 4 == 0 }

  /** PRFM (literal) */
  predicate IsPrefetch(w: nat) { IsLiteral(w) && w / 0x400_0000 % 2 == 0 && w / 0x4000_0000 == 3 }

  /** LDR Xt (literal) */
  predicate IsLoadX(w: nat) { IsLiteral(w) && w / 0x400_0000 % 2 == 0 && w / 0x4000_0000 == 1 }

  /** How many bytes a literal load reads: LDR Wt, LDR Xt, LDRSW; LDR St, LDR Dt, LDR Qt. */
  function LiteralSize(w: nat): nat {
    if w / 0x4000_0000 == 1 then 8 else if w / 0x4000_0000 == 2 && w / 0x400_0000 % 2 == 1 then 16 else 4
  }

  /** BR, BLR, RET and the like: bits 31 to 25 are 1101011. */
  predicate IsRegisterBranch(w: nat) { w / 0x200_0000 == 0x6b }

  // ---------- displacements, in words but for ADR and ADRP ----------

  /** B and BL */
  function Offset26(w: nat): int { Signed(w % 0x400_0000, 0x200_0000) }

  /** B.cond, CBZ, CBNZ and literal loads */
  function Offset19(w: nat): int { Signed(w / 0x20 % 0x8_0000, 0x4_0000) }

  /** TBZ and TBNZ */
  function Offset14(w: nat): int { Signed(w / 0x20 % 0x4000, 0x2000) }

  /** ADR in bytes and ADRP in pages: the two lowest bits are bits 30 and 29. */
  function Offset21(w: nat): int { Signed(w / 0x20 % 0x8_0000 * 4 + w / 0x2000_0000 % 4, 0x10_0000) }
}
