/** Halfwords and words, and where branches go (Arm Architecture Reference Manual for ARMv7-A and ARMv7-R,
    DDI 0406C, section A8.8). */
module ThumbIsa {
  import opened Bits
  import opened Options

  type Half = h: nat | h < 0x1_0000
  type Word = w: nat | w < 0x1_0000_0000

  const LDR_PC: Word := 0xe51f_f004  // LDR PC, [PC, #-4], in ARM code

  /** Is this the first half of a 32-bit instruction? */
  predicate Is32Bit(h: Half) {
    0x1d <= h / 0x800 <= 0x1f
  }

  // ---------- encodings ----------

  /** B<c>, encoding T1 */
  predicate IsCondBranch(h: Half) { 0xd000 <= h < 0xde00 }

  /** UDF and SVC, which would be B<c> with the conditions 14 and 15 */
  predicate IsCallNumber(h: Half) { 0xde00 <= h < 0xe000 }

  /** B, encoding T2 */
  predicate IsFreeBranch(h: Half) { 0xe000 <= h < 0xe800 }

  /** CBZ and CBNZ */
  predicate IsCompareBranch(h: Half) { h / 0x100 in {0xb1, 0xb3, 0xb9, 0xbb} }

  /** BX PC */
  predicate IsBxPc(h: Half) { 0x4778 <= h < 0x4780 }

  /** LDR Rt, [PC, #imm] */
  predicate IsLdrLiteral(h: Half) { 0x4800 <= h < 0x5000 }

  /** ADD Rdn, PC; the top bit of the register is bit 7 */
  predicate IsAddPc(h: Half) { 0x4478 <= h < 0x4480 || 0x44f8 <= h < 0x4500 }

  /** MOV Rd, PC; the top bit of the register is bit 7 */
  predicate IsMovPc(h: Half) { 0x4678 <= h < 0x4680 || 0x46f8 <= h < 0x4700 }

  /** ADR Rd */
  predicate IsAdr(h: Half) { 0xa000 <= h < 0xa800 }

  /** The first half of branches and of miscellaneous control instructions; the second one is at least 0x8000. */
  predicate InBranchSpace(hi: Half) { 0xf000 <= hi < 0xf800 }

  /** B<c>.W, encoding T3: with the conditions 14 and 15 it is a control instruction. */
  predicate IsCondBranchWide(hi: Half, lo: Half) { InBranchSpace(hi) && lo / 0x1000 in {8, 0xa} && hi / 0x80 % 8 != 7 }

  /** MSR, MRS, hints, barriers and the like. */
  predicate IsControl(hi: Half, lo: Half) { InBranchSpace(hi) && lo / 0x1000 in {8, 0xa} && hi / 0x80 % 8 == 7 }

  /** B.W, encoding T4 */
  predicate IsFreeBranchWide(hi: Half, lo: Half) { InBranchSpace(hi) && lo / 0x1000 in {9, 0xb} }

  /** BL, encoding T1 */
  predicate IsCallWide(hi: Half, lo: Half) { InBranchSpace(hi) && lo / 0x1000 in {0xd, 0xf} }

  /** BLX, encoding T2: bit 0 is clear. */
  predicate IsCallExchange(hi: Half, lo: Half) { InBranchSpace(hi) && lo / 0x1000 in {0xc, 0xe} && lo % 2 == 0 }

  /** LDR.W Rt, [PC, #imm] */
  predicate IsLdrLiteralWide(hi: Half) { hi == 0xf85f || hi == 0xf8df }

  /** ADR.W Rd, downwards and upwards */
  predicate IsAdrWide(hi: Half, lo: Half) { hi in {0xf2af, 0xf6af, 0xf20f, 0xf60f} && lo < 0x8000 }

  /** TBB and TBH */
  predicate IsTableBranch(hi: Half, lo: Half) { hi == 0xe8df && lo / 0x10 % 16 in {0, 1} }

  /** The condition of an ARM instruction; 15 marks the unconditional ones. */
  function ConditionArm(i: Word): nat { i / 0x1000_0000 }

  /** B, BL and BLX with a displacement */
  predicate InBranchSpaceArm(i: Word) { i / 0x200_0000 % 8 == 5 }

  predicate IsBlxArm(i: Word) { InBranchSpaceArm(i) && ConditionArm(i) == 15 }

  predicate IsBlArm(i: Word) { InBranchSpaceArm(i) && ConditionArm(i) != 15 && i / 0x100_0000 % 2 == 1 }

  predicate IsBArm(i: Word) { InBranchSpaceArm(i) && ConditionArm(i) != 15 && i / 0x100_0000 % 2 == 0 }

  /** BX PC, whatever its bits that should be one are. */
  predicate IsBxPcArm(i: Word) { i / 0x10_0000 % 0x100 == 0x12 && i / 0x10 % 16 == 1 && i % 16 == 15 }

  /** ADD Rd, PC, Rm with an immediate shift */
  predicate IsAddPcArm(i: Word) { i / 0x20_0000 % 0x80 == 4 && i / 0x1_0000 % 16 == 15 && i / 0x10 % 2 == 0 }

  /** ADR Rd, upwards and downwards */
  predicate IsAdrArm(i: Word) { i / 0x10_0000 % 0x100 in {0x28, 0x24} && i / 0x1_0000 % 16 == 15 }

  /** LDR Rt, [PC, #imm], whatever the bits for write-back are. */
  predicate IsLdrLiteralArm(i: Word) {
    i / 0x200_0000 % 8 == 2 && i / 0x40_0000 % 2 == 0 && i / 0x10_0000 % 2 == 1 && i / 0x1_0000 % 16 == 15
  }

  /** MOV Rd, PC */
  predicate IsMovPcArm(i: Word) { i / 0x20_0000 % 0x80 == 0xd && i % 0x1000 == 15 }

  /** A low register other than r: the first from 7 down. */
  function Scratch(r: nat): (x: nat)
    ensures x in {6, 7}
  {
    if r == 7 then 6 else 7
  }

  function Low(w: Word): Half { w % 0x1_0000 }

  function High(w: Word): Half { w / 0x1_0000 }

  /** The program counter of a PC-relative load: Align(PC, 4). */
  function AlignPc(pc: nat): nat { pc - pc % 4 }

  /** The bit k of h. */
  function BitOf(h: nat, k: nat): (b: nat)
    ensures b < 2
  {
    ShiftRight(h, k) % 2
  }

  /** Sums of 32 bits. */
  function Sum32(a: int, b: int): Word { (a + b) % 0x1_0000_0000 }

  /** B<c>, encoding T1 */
  function CondOffset16(i: Half): int { Signed(i % 0x100 * 2, 0x100) }

  /** B, encoding T2 */
  function Offset16(i: Half): int { Signed(i % 0x800 * 2, 0x800) }

  /** CBZ, CBNZ */
  function CbOffset16(i: nat): nat { i / 0x200 % 2 * 0x40 + i / 8 % 0x20 * 2 }

  /** B<c>.W, encoding T3 */
  function CondOffset32(hi: Half, lo: Half): int {
    Signed(BitOf(hi, 10) * 0x10_0000 + BitOf(lo, 11) * 0x8_0000 + BitOf(lo, 13) * 0x4_0000
           + hi % 0x40 * 0x1000 + lo % 0x800 * 2, 0x10_0000)
  }

  /** The bits I1 and I2: NOT(J EOR S) */
  function Inverted(j: nat, s: nat): nat { if j == s then 1 else 0 }

  /** B.W, encoding T4, and BL, encoding T1 */
  function Offset32(hi: Half, lo: Half): int {
    var s := BitOf(hi, 10);
    Signed(s * 0x100_0000 + Inverted(BitOf(lo, 13), s) * 0x80_0000 + Inverted(BitOf(lo, 11), s) * 0x40_0000
           + hi % 0x400 * 0x1000 + lo % 0x800 * 2, 0x100_0000)
  }

  /** BLX, encoding T2 */
  function BlxOffset32(hi: Half, lo: Half): int {
    var s := BitOf(hi, 10);
    Signed(s * 0x100_0000 + Inverted(BitOf(lo, 13), s) * 0x80_0000 + Inverted(BitOf(lo, 11), s) * 0x40_0000
           + hi % 0x400 * 0x1000 + lo / 2 % 0x400 * 4, 0x100_0000)
  }

  /** The halfword that a conditional or an unconditional 16-bit branch at halfword l goes to. */
  function BranchHalf(l: int, ic: nat): int {
    l + 2 + if ic / 0x1000 == 0xe then Signed(ic % 0x800, 0x400) else Signed(ic % 0x100, 0x80)
  }

  /** The same for CBZ and CBNZ. */
  function CbzHalf(l: int, ic: nat): int {
    l + 2 + CbOffset16(ic) / 2
  }

  /** The address that LDR Rt, [PC, #imm] at halfword l of a buffer at base reads. */
  function LdrSource(base: nat, l: nat, ic: nat): nat {
    AlignPc(base + 2 * l + 4) + ic % 0x100 * 4
  }

  /** The same for LDR.W Rt, [PC, #imm]. */
  function LdrWSource(base: nat, l: nat, ic: nat, next: nat): int {
    AlignPc(base + 2 * l + 4) + if BitOf(ic, 7) == 0 then -((next % 0x1000) as int) else next % 0x1000
  }

  /** The word at an address of the buffer. */
  function WordAt(base: nat, buffer: seq<nat>, a: int): Option<nat> {
    if base <= a && (a - base) % 4 == 0 && (a - base) / 2 + 1 < |buffer|
    then Some(buffer[(a - base) / 2] + 0x1_0000 * buffer[(a - base) / 2 + 1])
    else None
  }

  /** B and BL in ARM code, encoding A1 */
  function ArmOffset(i: Word): int { Signed(i % 0x100_0000 * 4, 0x200_0000) }

  /** BLX in ARM code, encoding A2 */
  function ArmBlxOffset(i: Word): int { Signed(i % 0x100_0000 * 4 + i / 0x100_0000 % 2 * 2, 0x200_0000) }

  lemma ShiftTwelve(x: nat, k: nat)
    ensures ShiftRight(x, 12 + k) == ShiftRight(x / 0x1000, k)
  {
    ShiftThree(x, 9 + k);
    ShiftThree(x / 8, 6 + k);
    ShiftThree(x / 8 / 8, 3 + k);
    ShiftThree(x / 8 / 8 / 8, k);
    assert x / 8 / 8 / 8 / 8 == x / 0x1000;
  }

  /** The four highest bits of a halfword. */
  lemma TopBits(h: Half)
    ensures BitOf(h, 12) == h / 0x1000 % 2 && BitOf(h, 13) == h / 0x1000 / 2 % 2
    ensures BitOf(h, 14) == h / 0x1000 / 4 % 2 && BitOf(h, 15) == h / 0x1000 / 8
  {
    var t := h / 0x1000;
    ShiftTwelve(h, 0);
    ShiftTwelve(h, 1);
    ShiftTwelve(h, 2);
    ShiftTwelve(h, 3);
    assert ShiftRight(t, 0) == t && ShiftRight(t, 1) == t / 2;
    assert ShiftRight(t, 2) == ShiftRight(t / 2, 1) == t / 2 / 2;
    assert ShiftRight(t, 3) == ShiftRight(t / 2, 2) == ShiftRight(t / 2 / 2, 1) == t / 2 / 2 / 2;
  }

  /** Shifting by three bits first. */
  lemma ShiftThree(a: nat, k: nat)
    ensures ShiftRight(a, 3 + k) == ShiftRight(a / 8, k)
  {
    assert ShiftRight(a, 3 + k) == ShiftRight(a / 2, 2 + k) == ShiftRight(a / 2 / 2, 1 + k) == ShiftRight(a / 2 / 2 / 2, k);
  }

  lemma UpBit()
    ensures BitOf(0xf8df, 7) == 1
  {
    ShiftThree(0xf8df, 4);
    ShiftThree(0x1f1b, 1);
  }
}
