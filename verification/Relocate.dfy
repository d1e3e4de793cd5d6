/** The 32-bit inline hook moves the instructions of the overwritten window to a trampoline and notes, on both sides,
    where each of them begins, so that a stopped thread can be moved between the two. */
module Relocate {
  import opened Bits
  import opened Buffers
  import opened Options
  import opened ThumbIsa

  /** What a literal load of the moved code finds at an address. */
  type Memory = int -> Word

  const LDR_W_PC: seq<Half> := [0xf8df, 0xf000]  // LDR.W PC, [PC]
  const NOP16: Half := 0xbf00

  /** LDR.W PC, [PC] and the word that it loads */
  function JumpTo(value: Word): (ws: seq<Half>)
    ensures |ws| == 4
  {
    LDR_W_PC + [Low(value), High(value)]
  }

  // ---------- Thumb, 16 bits ----------

  datatype Type16 = B1_16 | B2_16 | Bx_16 | Add_16 | Mov_16 | Adr_16 | Ldr_16 | Cb_16 | Undefine_16

  function TypeInThumb16(i: Half): Type16 {
    if i / 0x1000 == 0xd then B1_16
    else if i / 0x800 == 0x1c then B2_16
    else if i / 8 == 0x8ef then Bx_16
    else if i / 0x100 == 0x44 && i / 8 % 16 == 15 then Add_16
    else if i / 0x100 == 0x46 && i / 8 % 16 == 15 then Mov_16
    else if i / 0x800 == 0x14 then Adr_16
    else if i / 0x800 == 0x9 then Ldr_16
    else if i / 0x1000 == 0xb && i / 0x400 % 2 == 0 && i / 0x100 % 2 == 1 then Cb_16
    else Undefine_16
  }

  /** Where the code sends a 16-bit branch. */
  function Target16(pc: nat, i: Half): Word {
    match TypeInThumb16(i)
    case B1_16 => SetBit0(Sum32(pc, CondOffset16(i)))
    case B2_16 => SetBit0(Sum32(pc, Offset16(i)))
    case Cb_16 => Sum32(pc, CbOffset16(i) + 1)
    case _ => SetBit0(Sum32(pc, 0))
  }

  /** The classifier finds each encoding; UDF and SVC are taken for B<c>. */
  lemma Types16(i: Half)
    ensures IsCondBranch(i) || IsCallNumber(i) <==> TypeInThumb16(i) == B1_16
    ensures IsFreeBranch(i) <==> TypeInThumb16(i) == B2_16
    ensures IsBxPc(i) <==> TypeInThumb16(i) == Bx_16
    ensures IsCompareBranch(i) <==> TypeInThumb16(i) == Cb_16
    ensures IsAddPc(i) <==> TypeInThumb16(i) == Add_16
    ensures IsMovPc(i) <==> TypeInThumb16(i) == Mov_16
    ensures IsAdr(i) <==> TypeInThumb16(i) == Adr_16
    ensures IsLdrLiteral(i) <==> TypeInThumb16(i) == Ldr_16
  {
    HalfParts(i);
    BytesOf(i);
    hide IsCondBranch, IsCallNumber, IsFreeBranch, IsBxPc, IsAddPc, IsMovPc, IsAdr, IsLdrLiteral;
  }

  lemma HalfParts(i: Half)
    ensures i / 0x1000 == i / 0x100 / 16 && i / 0x800 == i / 0x100 / 8 && i / 0x400 == i / 0x100 / 4 && i / 0x100 < 0x100
    ensures i / 8 == i / 0x100 * 32 + i % 0x100 / 8 && i / 8 % 16 == i % 0x100 / 8 % 16 && i % 0x100 / 8 < 32
  {
    var (a, b) := (i / 0x100, i % 0x100 / 8);
    assert i == 0x100 * a + i % 0x100;
    assert i / 8 == 16 * (2 * a + b / 16) + b % 16;
    Remainder(i / 8, 16, 2 * a + b / 16, b % 16);
  }

  /** The encodings by the high byte and the upper five bits of the low one. */
  lemma BytesOf(i: Half)
    ensures var (a, b) := (i / 0x100, i % 0x100 / 8);
      && (IsCondBranch(i) || IsCallNumber(i) <==> 0xd0 <= a < 0xe0) && (IsFreeBranch(i) <==> 0xe0 <= a < 0xe8)
      && (IsAdr(i) <==> 0xa0 <= a < 0xa8) && (IsLdrLiteral(i) <==> 0x48 <= a < 0x50)
      && (IsBxPc(i) <==> a == 0x47 && b == 15) && (IsAddPc(i) <==> a == 0x44 && b in {15, 31}) && (IsMovPc(i) <==> a == 0x46 && b in {15, 31})
  {
    assert i == 0x100 * (i / 0x100) + i % 0x100;
  }

  /** What is a branch. */
  predicate IsBranch16(i: Half) {
    IsCondBranch(i) || IsFreeBranch(i) || IsBxPc(i) || IsCompareBranch(i)
  }

  /** Where a 16-bit branch goes; BX PC continues in ARM code, the others with the Thumb bit. */
  function Destination16(pc: nat, i: Half): Word {
    if IsBxPc(i) then Sum32(pc, 0)
    else Sum32(pc, 1 + if IsCondBranch(i) then CondOffset16(i) else if IsFreeBranch(i) then Offset16(i) else CbOffset16(i))
  }

  lemma OddSum(pc: nat, x: int)
    requires pc % 2 == 0 && x % 2 == 0
    ensures SetBit0(Sum32(pc, x)) == Sum32(pc, x + 1) && Sum32(pc, x) % 2 == 0
  {
  }

  lemma EvenOffset(x: nat, half: nat)
    requires half % 2 == 0
    ensures Signed(x * 2, half) % 2 == 0
  {
  }

  /** A 16-bit branch keeps its destination exactly when it is not BX PC. */
  lemma Target16Exact(pc: nat, i: Half)
    requires pc % 2 == 0 && IsBranch16(i)
    ensures Target16(pc, i) == Destination16(pc, i) <==> !IsBxPc(i)
  {
    Types16(i);
    Apart16(i);
    hide SetBit0, Sum32, Signed, TypeInThumb16;
    EvenOffset(i % 0x100, 0x100);
    EvenOffset(i % 0x800, 0x800);
    OddSum(pc, CondOffset16(i));
    OddSum(pc, Offset16(i));
    OddSum(pc, 0);
    BitZero(Sum32(pc, 0));
  }

  /** No halfword has two of these encodings. */
  lemma Apart16(i: Half)
    ensures IsBranch16(i) ==> !IsCallNumber(i)
    ensures IsBxPc(i) ==> !IsCondBranch(i) && !IsFreeBranch(i) && !IsCompareBranch(i)
    ensures IsCompareBranch(i) ==> !IsCondBranch(i) && !IsFreeBranch(i)
  {
  }

  lemma BitZero(w: Word)
    requires w % 2 == 0
    ensures SetBit0(w) != w
  {
  }

  /** BX PC would continue in Thumb code. */
  lemma BxPcMissed(pc: nat)
    requires pc % 2 == 0
    ensures IsBranch16(0x4778) && Target16(pc, 0x4778) == Sum32(pc, 0) + 1 && Destination16(pc, 0x4778) == Sum32(pc, 0)
  {
    OddSum(pc, 0);
  }

  function SetBit0(w: Word): Word {
    if w % 2 == 0 then w + 1 else w
  }

  /** 1 << r, for the register list of PUSH and POP */
  function RegisterBit(r: nat): (b: nat)
    requires r < 8
    ensures b < 256
  {
    [1, 2, 4, 8, 16, 32, 64, 128][r]
  }

  function LoadRegister16(i: Half): (r: nat)
    ensures r < 8
  {
    if TypeInThumb16(i) == Mov_16 then i % 8 else i / 0x100 % 8
  }

  function Value16(pc: nat, i: Half, mem: Memory): Word {
    match TypeInThumb16(i)
    case Adr_16 => (AlignPc(pc) + i % 0x100) % 0x1_0000_0000 * 4 % 0x1_0000_0000  // + binds tighter than <<
    case Ldr_16 => mem(AlignPc(pc) + i % 0x100 * 4)
    case _ => Sum32(pc, 0)
  }

  /** relocateInstructionInThumb16 */
  function Expand16(pc: nat, i: Half, mem: Memory): (ws: seq<Half>)
    ensures 2 <= |ws| <= 8 && |ws| % 2 == 0
  {
    ExpandAs16(TypeInThumb16(i), pc, i, Target16(pc, i), LoadRegister16(i), Value16(pc, i, mem))
  }

  /** The expansion of each type; target and value are used by branches and loads. */
  function ExpandAs16(kind: Type16, pc: nat, i: Half, target: Word, r: nat, value: Word): (ws: seq<Half>)
    requires r < 8
    ensures 2 <= |ws| <= 8 && |ws| % 2 == 0
  {
    match kind
    case B1_16 => [i / 0x100 * 0x100, 0xe003] + JumpTo(target)
    case B2_16 => JumpTo(target)
    case Bx_16 => JumpTo(target)
    case Add_16 => ExpandAdd16(pc, i)
    case Cb_16 => [i / 0x400 * 0x400 + i / 0x100 % 2 * 0x100 + i % 8, 0xe003] + JumpTo(target)
    case Undefine_16 => [i, NOP16]
    case _ => [0x4800 + r * 0x100, 0xe001, Low(value), High(value)]
  }

  function ExpandAdd16(pc: nat, i: Half): (ws: seq<Half>)
    ensures |ws| == 8
  {
    var r := Scratch(i / 0x80 % 2 * 8 + i % 8);
    [0xb400 + RegisterBit(r), 0x4802 + r * 0x100, i / 0x80 * 0x80 + r * 8 + i % 8, 0xbc00 + RegisterBit(r), 0xe002, NOP16,
     Low(Sum32(pc, 0)), High(Sum32(pc, 0))]
  }

  /** UDF and SVC, which the code takes for branches, keep their number exactly if it is zero. */
  lemma CallNumberKept(pc: nat, i: Half, mem: Memory)
    requires IsCallNumber(i)
    ensures Expand16(pc, i, mem)[0] == i <==> i % 0x100 == 0
  {
    Types16(i);
    hide Target16, Value16, JumpTo;
  }

  // ---------- Thumb, 32 bits ----------

  datatype Type32 = Blx_32 | Bl_32 | B1_32 | B2_32 | Adr1_32 | Adr2_32 | Ldr_32 | Tbb_32 | Tbh_32 | Undefine_32

  function TypeInThumb32(hi: Half, lo: Half): Type32 {
    var (b15, b14, b12) := (BitOf(lo, 15), BitOf(lo, 14), BitOf(lo, 12));
    if hi / 16 == 0xf3b && (b15, b14, b12) == (1, 0, 0) then Undefine_32
    else if hi / 0x800 == 0x1e && (b15, b14, b12) == (1, 1, 0) then Blx_32
    else if hi / 0x800 == 0x1e && (b15, b14, b12) == (1, 1, 1) then Bl_32
    else if hi / 0x800 == 0x1e && (b15, b14, b12) == (1, 0, 0) then B1_32
    else if hi / 0x800 == 0x1e && (b15, b14, b12) == (1, 0, 1) then B2_32
    else if (hi == 0xf2af || hi == 0xf6af) && b15 == 0 then Adr1_32
    else if (hi == 0xf20f || hi == 0xf60f) && b15 == 0 then Adr2_32
    else if hi == 0xf85f || hi == 0xf8df then Ldr_32
    else if hi == 0xe8df && lo / 16 % 16 == 0 then Tbb_32
    else if hi == 0xe8df && lo / 16 % 16 == 1 then Tbh_32
    else Undefine_32
  }

  /** The barriers among the control instructions, which the classifier exempts. */
  predicate IsExempt(hi: Half, lo: Half) { hi / 16 == 0xf3b && lo / 0x1000 in {8, 0xa} }

  /** The classifier finds each encoding; of the control instructions all but the barriers are taken for B<c>.W. */
  lemma Types32(hi: Half, lo: Half)
    ensures IsCondBranchWide(hi, lo) || (IsControl(hi, lo) && !IsExempt(hi, lo)) <==> TypeInThumb32(hi, lo) == B1_32
    ensures IsFreeBranchWide(hi, lo) <==> TypeInThumb32(hi, lo) == B2_32
    ensures IsCallWide(hi, lo) <==> TypeInThumb32(hi, lo) == Bl_32
    ensures InBranchSpace(hi) && lo / 0x1000 in {0xc, 0xe} <==> TypeInThumb32(hi, lo) == Blx_32
    ensures IsAdrWide(hi, lo) <==> TypeInThumb32(hi, lo) in {Adr1_32, Adr2_32}
    ensures IsLdrLiteralWide(hi) <==> TypeInThumb32(hi, lo) == Ldr_32
    ensures IsTableBranch(hi, lo) <==> TypeInThumb32(hi, lo) in {Tbb_32, Tbh_32}
  {
    TopBits(lo);
    SpaceParts(hi);
    assert lo / 0x1000 < 16 && (lo < 0x8000 <==> lo / 0x1000 < 8);
    hide BitOf;
  }

  lemma SpaceParts(hi: Half)
    ensures InBranchSpace(hi) <==> hi / 0x800 == 0x1e
    ensures hi / 16 == 0xf3b ==> InBranchSpace(hi) && hi / 0x80 % 8 == 7
  {
  }

  /** What is a branch. */
  predicate IsBranch32(hi: Half, lo: Half) {
    IsCondBranchWide(hi, lo) || IsFreeBranchWide(hi, lo) || IsCallWide(hi, lo) || IsCallExchange(hi, lo)
  }

  /** The displacement of a 32-bit branch. */
  function BranchOffset32(hi: Half, lo: Half): int {
    match TypeInThumb32(hi, lo)
    case B1_32 => CondOffset32(hi, lo)
    case Blx_32 => BlxOffset32(hi, lo)
    case _ => Offset32(hi, lo)
  }

  /** Where the code sends a 32-bit branch. */
  function Target32(pc: nat, hi: Half, lo: Half): Word {
    Sum32(AlignPc(pc), BranchOffset32(hi, lo) + if TypeInThumb32(hi, lo) == Blx_32 then 0 else 1)
  }

  /** Where the branch goes: BLX is the one that aligns the PC. */
  function Destination32(pc: nat, hi: Half, lo: Half): Word {
    if IsCallExchange(hi, lo) then Sum32(AlignPc(pc), BlxOffset32(hi, lo))
    else Sum32(pc, 1 + if IsCondBranchWide(hi, lo) then CondOffset32(hi, lo) else Offset32(hi, lo))
  }

  /** B<c>.W, B.W and BL keep their destination exactly when the PC is aligned; BLX always does. */
  lemma Target32Exact(pc: nat, hi: Half, lo: Half)
    requires IsBranch32(hi, lo)
    ensures Target32(pc, hi, lo) == Destination32(pc, hi, lo) <==> IsCallExchange(hi, lo) || pc % 4 == 0
  {
    Types32(hi, lo);
    hide TypeInThumb32, CondOffset32, Offset32, BlxOffset32, Sum32;
    AlignedExactly(pc, BranchOffset32(hi, lo) + 1);
  }

  lemma AlignedExactly(pc: nat, d: int)
    ensures Sum32(AlignPc(pc), d) == Sum32(pc, d) <==> pc % 4 == 0
  {
    assert pc - AlignPc(pc) == pc % 4;
  }

  /** B.W +0 at an address that is no multiple of four goes two bytes short. */
  lemma WideBranchOffBoundary(pc: nat)
    requires pc % 4 == 2
    ensures IsFreeBranchWide(0xf000, 0xb800) && Target32(pc, 0xf000, 0xb800) != Destination32(pc, 0xf000, 0xb800)
  {
    hide Target32, Destination32;
    Target32Exact(pc, 0xf000, 0xb800);
  }

  /** The code puts the bits of the immediate of ADR.W at the top of the word. */
  function AdrBits32(hi: Half, lo: Half): nat {
    Or(Or(BitOf(hi, 10) * 0x8000_0000, lo / 0x1000 % 8 * 0x4000_0000 % 0x1_0000_0000), lo % 0x100 * 0x800_0000 % 0x1_0000_0000)
  }

  function Value32(pc: nat, hi: Half, lo: Half, mem: Memory): Word {
    match TypeInThumb32(hi, lo)
    case Adr1_32 => Sum32(AlignPc(pc), AdrBits32(hi, lo))
    case Adr2_32 => Sum32(AlignPc(pc), -(AdrBits32(hi, lo) as int))
    case _ => mem(if BitOf(hi, 7) == 1 then AlignPc(pc) + lo % 0x1000 else AlignPc(pc) - lo % 0x1000)
  }

  /** LDR.W Rr, [PC, 2]; nop; B PC, #2; the word */
  function LoadValue32(r: nat, value: Word): (ws: seq<Half>)
    requires r < 16
    ensures |ws| == 6
  {
    [0xf8df, r * 0x1000 + 4, NOP16, 0xe001, Low(value), High(value)]
  }

  /** relocateInstructionInThumb32 */
  function Expand32(pc: nat, hi: Half, lo: Half, mem: Memory): (ws: seq<Half>)
    ensures 2 <= |ws| <= 14 && |ws| % 2 == 0
  {
    ExpandAs(TypeInThumb32(hi, lo), pc, hi, lo, Target32(pc, hi, lo), Value32(pc, hi, lo, mem))
  }

  /** The expansion of each type; target and value are used by branches and loads. */
  function ExpandAs(kind: Type32, pc: nat, hi: Half, lo: Half, target: Word, value: Word): (ws: seq<Half>)
    ensures 2 <= |ws| <= 14 && |ws| % 2 == 0
  {
    match kind
    case Blx_32 => [0xf20f, 0x0e09] + JumpTo(target)  // ADD.W LR, PC, #9
    case Bl_32 => [0xf20f, 0x0e09] + JumpTo(target)
    case B1_32 => [0xd000 + hi / 0x40 % 16 * 0x100, 0xe003] + JumpTo(target)
    case B2_32 => JumpTo(target)
    case Tbb_32 => ExpandTable(pc, lo % 16, 0, 0x7800)
    case Tbh_32 => ExpandTable(pc, lo % 16, 0x40, 0x8800)
    case Undefine_32 => [hi, lo]
    case Ldr_32 => LoadValue32(lo / 0x1000, value)
    case _ => LoadValue32(lo / 0x100 % 16, value)
  }

  /** TBB and TBH: the table is read with scratch registers r and rx. */
  function ExpandTable(pc: nat, rm: nat, shift: Half, load: Half): (ws: seq<Half>)
    requires rm < 16 && shift in {0, 0x40} && load in {0x7800, 0x8800}
    ensures |ws| == 14
  {
    var r := Scratch(rm);
    var rx := if rm == 7 then 5 else if rm == 6 then 5 else 6;
    [0xb400 + RegisterBit(rx), 0x4805 + r * 0x100, 0x4600 + rm * 8 + rx, 0xeb00 + r, shift + rx * 0x100 + rx, load + rx * 8 + rx,
     0xeb00 + r, 0x40 + r * 0x100 + rx, 0x3001 + r * 0x100, 0xbc00 + RegisterBit(rx), 0x4700 + r * 8, NOP16,
     Low(Sum32(pc, 0)), High(Sum32(pc, 0))]
  }

  /** What is taken for B<c>.W becomes a conditional branch exactly if it is one; the control instructions that are not
      exempt become UDF #0 or SVC #0. */
  lemma ControlDestroyed(pc: nat, hi: Half, lo: Half, mem: Memory)
    requires IsCondBranchWide(hi, lo) || (IsControl(hi, lo) && !IsExempt(hi, lo))
    ensures var first := Expand32(pc, hi, lo, mem)[0];
      if IsCondBranchWide(hi, lo) then IsCondBranch(first) && first / 0x100 == 0xd0 + hi / 0x40 % 16
      else first in {0xde00, 0xdf00}
  {
    hide Expand32;
    ControlFirst(pc, hi, lo, mem);
    ConditionBits(hi);
    CondHalf(hi / 0x40 % 16);
  }

  lemma ControlFirst(pc: nat, hi: Half, lo: Half, mem: Memory)
    requires IsCondBranchWide(hi, lo) || (IsControl(hi, lo) && !IsExempt(hi, lo))
    ensures Expand32(pc, hi, lo, mem)[0] == 0xd000 + hi / 0x40 % 16 * 0x100
  {
    Types32(hi, lo);
    hide TypeInThumb32, Target32, Value32, JumpTo;
  }

  lemma CondHalf(cond: nat)
    requires cond < 16
    ensures var h := 0xd000 + cond * 0x100; h / 0x100 == 0xd0 + cond && (IsCondBranch(h) <==> cond < 14)
  {
  }

  lemma ConditionBits(hi: Half)
    ensures hi / 0x80 % 8 == hi / 0x40 % 16 / 2
  {
    var q := hi / 0x40;
    Halved(hi);
    var m, c := q / 16, q % 16;
    assert q / 2 == 8 * m + c / 2;
    Remainder(q / 2, 8, m, c / 2);
  }

  lemma Halved(hi: nat)
    ensures hi / 0x80 == hi / 0x40 / 2
  {
  }

  /** MRS R0, APSR becomes SVC #0. */
  lemma MrsDestroyed(pc: nat, mem: Memory)
    ensures IsControl(0xf3ef, 0x8000) && Expand32(pc, 0xf3ef, 0x8000, mem)[0] == 0xdf00
  {
    hide Expand32;
    ControlFirst(pc, 0xf3ef, 0x8000, mem);
  }

  // ---------- ARM ----------

  datatype TypeArm = Blx_Arm | Bl_Arm | B_Arm | Bx_Arm | Add_Arm | Adr1_Arm | Adr2_Arm | Mov_Arm | Ldr_Arm | Undefine_Arm

  function TypeInArm(i: Word): TypeArm {
    if i / 0x200_0000 == 0x7d then Blx_Arm
    else if i / 0x100_0000 % 16 == 0xb then Bl_Arm
    else if i / 0x100_0000 % 16 == 0xa then B_Arm
    else if i / 0x10_0000 % 0x100 == 0x12 && i % 0x100 == 0x1f then Bx_Arm
    else if i / 0x20_0000 % 0x80 == 0x4 && i / 0x1_0000 % 16 == 15 && BitOf(i, 4) == 0 then Add_Arm
    else if i / 0x1_0000 % 0x1000 == 0x28f then Adr1_Arm
    else if i / 0x1_0000 % 0x1000 == 0x24f then Adr2_Arm
    else if i / 0x200_0000 % 8 == 2 && BitOf(i, 22) == 0 && BitOf(i, 20) == 1 && i / 0x1_0000 % 16 == 15 then Ldr_Arm
    else if i / 0x20_0000 % 0x80 == 0xd && i % 0x1000 == 0xf then Mov_Arm
    else Undefine_Arm
  }

  function TargetArm(pc: nat, i: Word): Word {
    match TypeInArm(i)
    case Blx_Arm => Sum32(pc, Signed(i % 0x100_0000 * 4 + BitOf(i, 24) * 2, 0x200_0000) + 1)
    case Bx_Arm => Sum32(pc, 0)
    case _ => Sum32(pc, Signed(i % 0x100_0000 * 4, 0x200_0000))
  }

  lemma WordParts(i: Word)
    ensures var a := i / 0x10_0000;
      && a < 0x1000 && i / 0x1000_0000 == a / 0x100 && i / 0x200_0000 == a / 0x20 && i / 0x100_0000 == a / 0x10
      && i / 0x20_0000 == a / 2 && i / 0x40_0000 == a / 4
  {
  }

  lemma LowParts(i: Word)
    ensures i % 0x100 == i / 0x10 % 16 * 16 + i % 16 && i / 0x1_0000 % 0x1000 == i / 0x10_0000 % 0x100 * 16 + i / 0x1_0000 % 16
  {
    Digits(i);
    Digits(i / 0x1_0000);
    assert i / 0x1_0000 / 16 == i / 0x10_0000;
    var a := i / 0x10_0000;
    assert i / 0x1_0000 == 0x1000 * (a / 0x100) + (a % 0x100 * 16 + i / 0x1_0000 % 16);
    Remainder(i / 0x1_0000, 0x1000, a / 0x100, a % 0x100 * 16 + i / 0x1_0000 % 16);
  }

  lemma Digits(x: nat)
    ensures x == 16 * (x / 16) + x % 16 && x % 0x100 == x / 16 % 16 * 16 + x % 16
  {
    var q := x / 16;
    assert x == 0x100 * (q / 16) + (q % 16 * 16 + x % 16);
    Remainder(x, 0x100, q / 16, q % 16 * 16 + x % 16);
  }

  lemma SmallShifts(x: nat)
    ensures ShiftRight(x, 1) == x / 2 && ShiftRight(x, 2) == x / 4
  {
    assert ShiftRight(x, 2) == ShiftRight(x / 2, 1) == ShiftRight(x / 2 / 2, 0);
    assert ShiftRight(x, 1) == ShiftRight(x / 2, 0);
  }

  lemma BitFour(i: Word)
    ensures BitOf(i, 4) == i / 0x10 % 2
  {
    ShiftThree(i, 1);
    SmallShifts(i / 8);
  }

  lemma BitTwenty(i: Word)
    ensures BitOf(i, 20) == i / 0x10_0000 % 2
  {
    ShiftTwelve(i, 8);
    ShiftThree(i / 0x1000, 5);
    ShiftThree(i / 0x8000, 2);
    SmallShifts(i / 0x4_0000);
  }

  lemma BitTwentyTwo(i: Word)
    ensures BitOf(i, 22) == i / 0x40_0000 % 2
  {
    ShiftTwelve(i, 10);
    ShiftThree(i / 0x1000, 7);
    ShiftThree(i / 0x8000, 4);
    ShiftThree(i / 0x4_0000, 1);
    SmallShifts(i / 0x20_0000);
  }

  /** Bits 20 to 27 of an encoding. */
  lemma OpcodeArm(l: nat)
    requires l < 0x100
    ensures l / 0x20 == 5 && l / 0x10 % 2 == 1 <==> l / 0x10 == 0xb
    ensures l / 0x20 == 5 && l / 0x10 % 2 == 0 <==> l / 0x10 == 0xa
    ensures l in {0x12, 0x28, 0x24} || l / 2 in {4, 0xd} ==> l / 0x20 in {0, 1} && l / 0x10 !in {0xa, 0xb}
    ensures l / 0x20 == 2 ==> l / 0x10 !in {0xa, 0xb} && l !in {0x12, 0x28, 0x24} && l / 2 !in {4, 0xd}
    ensures l in {0x12, 0x28, 0x24} ==> l / 2 !in {4, 0xd}
  {
  }

  /** The high bits of the encodings, in terms of the condition and of bits 20 to 27. */
  lemma HighArm(a: nat)
    requires a < 0x1000
    ensures var (h, l) := (a / 0x100, a % 0x100);
      && h < 16 && a / 0x20 == 8 * h + l / 0x20 && a / 0x20 % 8 == l / 0x20 && a / 0x10 % 16 == l / 0x10 && a / 0x10 % 2 == l / 0x10 % 2
      && a / 2 % 0x80 == l / 2 && a / 4 % 2 == l / 4 % 2 && a % 2 == l % 2
  {
    BitsFrom(a, 0x20, 8);
    BitsFrom(a, 0x10, 16);
    BitsFrom(a, 2, 0x80);
    LowBits(a);
  }

  lemma BitsFrom(a: nat, m: nat, n: nat)
    requires (m, n) in {(0x20, 8), (0x10, 16), (2, 0x80)}
    ensures var (h, l) := (a / 0x100, a % 0x100); a / m == n * h + l / m && a / m % n == l / m
  {
    var (h, l) := (a / 0x100, a % 0x100);
    assert a == 0x100 * h + l;
    Remainder(a / m, n, h, l / m);
  }

  lemma LowBits(a: nat)
    ensures var l := a % 0x100; a / 0x10 % 2 == l / 0x10 % 2 && a / 4 % 2 == l / 4 % 2 && a % 2 == l % 2
  {
    var (h, l) := (a / 0x100, a % 0x100);
    SamePart(a / 0x10, 8 * h, l / 0x10);
    SamePart(a / 4, 0x20 * h, l / 4);
    SamePart(a, 0x80 * h, l);
  }

  lemma SamePart(x: nat, k: nat, y: nat)
    requires x == 2 * k + y
    ensures x % 2 == y % 2
  {
  }

  /** The classifier finds each encoding. */
  lemma TypesArm(i: Word)
    ensures IsBlxArm(i) <==> TypeInArm(i) == Blx_Arm
    ensures IsBlArm(i) <==> TypeInArm(i) == Bl_Arm
    ensures IsBArm(i) <==> TypeInArm(i) == B_Arm
    ensures IsBxPcArm(i) <==> TypeInArm(i) == Bx_Arm
    ensures IsAddPcArm(i) <==> TypeInArm(i) == Add_Arm
    ensures IsAdrArm(i) <==> TypeInArm(i) in {Adr1_Arm, Adr2_Arm}
    ensures IsLdrLiteralArm(i) <==> TypeInArm(i) == Ldr_Arm
    ensures IsMovPcArm(i) <==> TypeInArm(i) == Mov_Arm
  {
    hide BitOf;
    WordParts(i);
    LowParts(i);
    BitFour(i);
    BitTwenty(i);
    BitTwentyTwo(i);
    HighArm(i / 0x10_0000);
    OpcodeArm(i / 0x10_0000 % 0x100);
  }

  predicate IsBranchArm(i: Word) {
    IsBlxArm(i) || IsBlArm(i) || IsBArm(i) || IsBxPcArm(i)
  }

  /** Where an ARM branch goes. */
  function DestinationArm(pc: nat, i: Word): Word {
    if IsBlxArm(i) then Sum32(pc, ArmBlxOffset(i) + 1) else if IsBxPcArm(i) then Sum32(pc, 0) else Sum32(pc, ArmOffset(i))
  }

  lemma BitTwentyFour(i: Word)
    ensures BitOf(i, 24) == i / 0x100_0000 % 2
  {
    ShiftTwelve(i, 12);
    ShiftTwelve(i / 0x1000, 0);
  }

  lemma TargetArmExact(pc: nat, i: Word)
    requires IsBranchArm(i)
    ensures TargetArm(pc, i) == DestinationArm(pc, i)
  {
    BitTwentyFour(i);
    TypesArm(i);
    hide TypeInArm, BitOf, Signed, Sum32;
  }

  /** The first register from 12 down that is neither of the two. */
  function ScratchArm(rd: nat, rm: nat): (r: nat)
    ensures r <= 12
  {
    if rd != 12 && rm != 12 then 12 else if rd != 11 && rm != 11 then 11 else 10
  }

  function ValueArm(pc: nat, i: Word, mem: Memory): Word {
    match TypeInArm(i)
    case Adr1_Arm => Sum32(pc, i % 0x1000)
    case Adr2_Arm => Sum32(pc, -((i % 0x1000) as int))
    case Ldr_Arm => mem(if BitOf(i, 23) == 1 then pc + i % 0x1000 else pc - i % 0x1000)
    case _ => Sum32(pc, 0)
  }

  function LoadValueArm(r: nat, value: Word): (ws: seq<Word>)
    requires r < 16
    ensures |ws| == 3
  {
    [0xe51f_0000 + r * 0x1000, 0xe28f_f000, value]
  }

  const ADD_LR_PC: Word := 0xe28f_e004  // ADD LR, PC, #4

  function ExpandArm(pc: nat, i: Word, mem: Memory): (ws: seq<Word>)
    ensures 1 <= |ws| <= 6
  {
    match TypeInArm(i)
    case Blx_Arm => [ADD_LR_PC, LDR_PC, TargetArm(pc, i)]
    case Bl_Arm => [ADD_LR_PC, LDR_PC, TargetArm(pc, i)]
    case B_Arm => [LDR_PC, TargetArm(pc, i)]
    case Bx_Arm => [LDR_PC, TargetArm(pc, i)]
    case Add_Arm =>
      var r := ScratchArm(i / 0x1000 % 16, i % 16);
      [0xe52d_0004 + r * 0x1000, 0xe59f_0008 + r * 0x1000, i / 0x10_0000 * 0x10_0000 + r * 0x1_0000 + i % 0x1_0000,
       0xe49d_0004 + r * 0x1000, 0xe28f_f000, Sum32(pc, 0)]
    case Undefine_Arm => [i]
    case _ => LoadValueArm(i / 0x1000 % 16, ValueArm(pc, i, mem))
  }

  // ---------- the window as a list of blocks ----------

  /** One instruction of the window: where it begins, in units of the instruction set, and what it becomes. */
  datatype Block = Block(orig: nat, words: seq<nat>)

  /** The blocks from position pos of a Thumb window on. A 32-bit instruction that does not fit is not moved, but its
      beginning is noted: there the trampoline returns. */
  function ThumbBlocks(target: nat, code: seq<Half>, mem: Memory, pos: nat): (bs: seq<Block>)
    requires pos < |code|
    ensures |bs| > 0 && bs[0].orig == pos
    decreases |code| - pos
  {
    var pc := target + 4 + 2 * pos;
    if Is32Bit(code[pos]) then
      if pos + 2 > |code| then [Block(pos, [])]
      else
        [Block(pos, Expand32(pc, code[pos], code[pos + 1], mem))]
        + if pos + 2 >= |code| then [] else ThumbBlocks(target, code, mem, pos + 2)
    else
      [Block(pos, Expand16(pc, code[pos], mem))] + if pos + 1 >= |code| then [] else ThumbBlocks(target, code, mem, pos + 1)
  }

  /** The position behind the last moved instruction. */
  function ResumeAt(code: seq<Half>, pos: nat): (r: nat)
    requires pos < |code|
    ensures |code| - 1 <= r <= |code| && pos <= r
    decreases |code| - pos
  {
    if Is32Bit(code[pos]) then
      if pos + 2 > |code| then pos else if pos + 2 >= |code| then pos + 2 else ResumeAt(code, pos + 2)
    else if pos + 1 >= |code| then pos + 1 else ResumeAt(code, pos + 1)
  }

  function ArmBlocks(target: nat, code: seq<Word>, mem: Memory, pos: nat): (bs: seq<Block>)
    requires pos <= |code|
    ensures |bs| == |code| - pos
    decreases |code| - pos
  {
    if pos == |code| then []
    else [Block(pos, ExpandArm(target + 8 + 4 * pos, code[pos], mem))] + ArmBlocks(target, code, mem, pos + 1)
  }

  function Words(bs: seq<Block>): seq<nat> {
    if bs == [] then [] else Words(bs[..|bs| - 1]) + bs[|bs| - 1].words
  }

  /** The boundary tables, for instruction units of the given size in bytes. */
  function OrigBounds(bs: seq<Block>, unit: nat): seq<nat> {
    seq(|bs|, k requires 0 <= k < |bs| => bs[k].orig * unit)
  }

  function TrampBounds(bs: seq<Block>, unit: nat): seq<nat> {
    seq(|bs|, k requires 0 <= k < |bs| => |Words(bs[..k])| * unit)
  }

  ghost predicate Increasing(s: seq<nat>) {
    forall i, j :: 0 <= i < j < |s| ==> s[i] < s[j]
  }

  /** Blocks follow each other, and only the last may be empty. */
  ghost predicate InOrder(bs: seq<Block>) {
    && (forall k :: 0 <= k < |bs| - 1 ==> bs[k].orig < bs[k + 1].orig && bs[k].words != [])
  }

  lemma ThumbInOrder(target: nat, code: seq<Half>, mem: Memory, pos: nat)
    requires pos < |code|
    ensures InOrder(ThumbBlocks(target, code, mem, pos))
    ensures forall b :: b in ThumbBlocks(target, code, mem, pos) ==> |b.words| % 2 == 0
    ensures |ThumbBlocks(target, code, mem, pos)| <= |code| - pos
  {
    hide ThumbBlocks, InOrder;
    OrderFrom(target, code, mem, pos);
    EvenFrom(target, code, mem, pos);
  }

  lemma {:induction false} OrderFrom(target: nat, code: seq<Half>, mem: Memory, pos: nat)
    requires pos < |code|
    ensures InOrder(ThumbBlocks(target, code, mem, pos)) && |ThumbBlocks(target, code, mem, pos)| <= |code| - pos
    decreases |code| - pos
  {
    hide ThumbBlocks, IsBlockOf, Is32Bit, InOrder;
    FirstBlock(target, code, mem, pos);
    var (bs, next) := (ThumbBlocks(target, code, mem, pos), if Is32Bit(code[pos]) then pos + 2 else pos + 1);
    if next < |code| {
      OrderFrom(target, code, mem, next);
      SomeWords(target, code, mem, bs[0]);
      OrderNext(bs);
    } else {
      OrderOne(bs);
    }
  }

  lemma OrderNext(bs: seq<Block>)
    requires |bs| > 1 && InOrder(bs[1..]) && bs[0].orig < bs[1].orig && bs[0].words != []
    ensures InOrder(bs)
  {
    forall k | 0 <= k < |bs| - 1
      ensures bs[k].orig < bs[k + 1].orig && bs[k].words != []
    {
      if k > 0 {
        assert bs[1..][k - 1] == bs[k] && bs[1..][k] == bs[k + 1];
      }
    }
  }

  lemma OrderOne(bs: seq<Block>)
    requires |bs| == 1
    ensures InOrder(bs)
  {
  }

  lemma SomeWords(target: nat, code: seq<Half>, mem: Memory, b: Block)
    requires IsBlockOf(target, code, mem, b) && (Is32Bit(code[b.orig]) ==> b.orig + 1 < |code|)
    ensures b.words != []
  {
    hide Expand16, Expand32, Is32Bit;
  }

  lemma {:induction false} EvenFrom(target: nat, code: seq<Half>, mem: Memory, pos: nat)
    requires pos < |code|
    ensures forall b :: b in ThumbBlocks(target, code, mem, pos) ==> |b.words| % 2 == 0
    decreases |code| - pos
  {
    hide Expand16, Expand32, Is32Bit;
    if Is32Bit(code[pos]) && pos + 2 < |code| {
      EvenFrom(target, code, mem, pos + 2);
    } else if !Is32Bit(code[pos]) && pos + 1 < |code| {
      EvenFrom(target, code, mem, pos + 1);
    }
  }

  lemma {:induction false} ArmInOrder(target: nat, code: seq<Word>, mem: Memory, pos: nat)
    requires pos <= |code|
    ensures InOrder(ArmBlocks(target, code, mem, pos))
    ensures pos < |code| ==> ArmBlocks(target, code, mem, pos)[0].orig == pos
    decreases |code| - pos
  {
    hide ExpandArm;
    if pos < |code| {
      ArmInOrder(target, code, mem, pos + 1);
    }
  }

  /** Both boundary tables are strictly increasing. */
  lemma BoundsIncrease(bs: seq<Block>, unit: nat)
    requires InOrder(bs) && unit > 0
    ensures Increasing(OrigBounds(bs, unit)) && Increasing(TrampBounds(bs, unit))
  {
    forall i, j | 0 <= i < j < |bs|
      ensures bs[i].orig * unit < bs[j].orig * unit && |Words(bs[..i])| * unit < |Words(bs[..j])| * unit
    {
      BlocksGrow(bs, i, j);
      Scaled(bs[i].orig, bs[j].orig, unit);
      Scaled(|Words(bs[..i])|, |Words(bs[..j])|, unit);
    }
  }

  lemma Scaled(a: nat, b: nat, unit: nat)
    requires a < b && unit > 0
    ensures a * unit < b * unit
  {
  }

  lemma {:induction false} BlocksGrow(bs: seq<Block>, i: nat, j: nat)
    requires InOrder(bs) && i < j < |bs|
    ensures bs[i].orig < bs[j].orig && |Words(bs[..i])| < |Words(bs[..j])|
    decreases j
  {
    assert bs[..j][..j - 1] == bs[..j - 1];
    if i < j - 1 {
      BlocksGrow(bs, i, j - 1);
    }
  }

  // ---------- the resume address and the literals ----------

  const THUMB_WINDOW := 6  // halfwords: 12 bytes
  const ARM_WINDOW := 2    // words: 8 bytes

  /** How many bytes of the target the hook overwrites: in Thumb code a NOP may come in front. */
  function PatchBytes(target: nat, thumb: bool): nat {
    if thumb && target % 4 != 0 then 10 else 8
  }

  /** The trampoline returns behind everything that the hook overwrites, even when the last instruction of the window
      does not fit and is executed in place. */
  lemma ResumePastPatch(target: nat, code: seq<Half>)
    requires |code| == THUMB_WINDOW
    ensures 2 * ResumeAt(code, 0) >= PatchBytes(target, true)
    ensures 2 * ResumeAt(code, 0) < 2 * |code| <==> Straddles(code, 0)
  {
    StraddleAt(code, 0);
  }

  /** Does a 32-bit instruction begin in the last halfword of the window? */
  predicate Straddles(code: seq<Half>, pos: nat)
    requires pos <= |code|
    decreases |code| - pos
  {
    if pos >= |code| then false
    else if Is32Bit(code[pos]) then pos + 2 > |code| || Straddles(code, pos + 2)
    else Straddles(code, pos + 1)
  }

  lemma {:induction false} StraddleAt(code: seq<Half>, pos: nat)
    requires pos < |code|
    ensures ResumeAt(code, pos) < |code| <==> Straddles(code, pos)
    decreases |code| - pos
  {
    hide Is32Bit;
    if Is32Bit(code[pos]) && pos + 2 < |code| {
      StraddleAt(code, pos + 2);
    } else if !Is32Bit(code[pos]) && pos + 1 < |code| {
      StraddleAt(code, pos + 1);
    }
  }

  lemma {:induction false} EvenWords(bs: seq<Block>)
    requires forall b :: b in bs ==> |b.words| % 2 == 0
    ensures |Words(bs)| % 2 == 0
  {
    if bs != [] {
      EvenWords(bs[..|bs| - 1]);
    }
  }

  lemma {:induction false} WordsAt(bs: seq<Block>, k: nat, j: nat)
    requires k < |bs| && j < |bs[k].words|
    ensures |Words(bs[..k])| + j < |Words(bs)| && Words(bs)[|Words(bs[..k])| + j] == bs[k].words[j]
  {
    var n := |bs| - 1;
    if k < n {
      WordsAt(bs[..n], k, j);
      assert bs[..n][..k] == bs[..k];
    }
  }

  /** Where in the block of a branch LDR.W PC, [PC] stands; its literal is behind it. */
  function JumpOffset16(i: Half): Option<nat> {
    if !IsBranch16(i) then None else if IsCondBranch(i) || IsCompareBranch(i) then Some(2) else Some(0)
  }

  function JumpOffset32(hi: Half, lo: Half): Option<nat> {
    if !IsBranch32(hi, lo) then None else if IsFreeBranchWide(hi, lo) then Some(0) else Some(2)
  }

  /** Where LDR.W PC, [PC] at position p goes, in a trampoline that starts on a word boundary: to what the two halfwords
      at the aligned PC say. */
  function LoadedAt(ws: seq<nat>, p: nat): Option<nat> {
    var q := (p + 2) / 2 * 2;
    if q + 1 < |ws| && ws[p] == 0xf8df && ws[p + 1] == 0xf000 then Some(ws[q] + 0x1_0000 * ws[q + 1]) else None
  }

  lemma Halves(value: Word)
    ensures Low(value) + 0x1_0000 * High(value) == value
  {
  }

  lemma Jump16(pc: nat, i: Half, mem: Memory)
    requires JumpOffset16(i).Some?
    ensures var (o, ws) := (JumpOffset16(i).value, Expand16(pc, i, mem));
      |ws| == o + 4 && o % 2 == 0 && ws[o..] == JumpTo(Target16(pc, i))
  {
    Types16(i);
    Apart16(i);
    hide Target16, JumpTo, TypeInThumb16;
  }

  lemma Jump32(pc: nat, hi: Half, lo: Half, mem: Memory)
    requires JumpOffset32(hi, lo).Some?
    ensures var (o, ws) := (JumpOffset32(hi, lo).value, Expand32(pc, hi, lo, mem));
      |ws| == o + 4 && o % 2 == 0 && ws[o..] == JumpTo(Target32(pc, hi, lo))
  {
    Types32(hi, lo);
    hide Target32, JumpTo, TypeInThumb32;
  }

  lemma JumpWords(ws: seq<nat>, o: nat, value: Word)
    requires |ws| == o + 4 && ws[o..] == JumpTo(value)
    ensures ws[o] == 0xf8df && ws[o + 1] == 0xf000 && ws[o + 2] + 0x1_0000 * ws[o + 3] == value
  {
    assert ws[o] == ws[o..][0] && ws[o + 1] == ws[o..][1] && ws[o + 2] == ws[o..][2] && ws[o + 3] == ws[o..][3];
    Halves(value);
  }

  /** In the finished trampoline every jump of a moved branch loads its own literal. */
  lemma OwnLiteral(bs: seq<Block>, tail: seq<nat>, k: nat, o: nat, value: Word)
    requires k < |bs| && forall b :: b in bs ==> |b.words| % 2 == 0
    requires o % 2 == 0 && |bs[k].words| == o + 4 && bs[k].words[o..] == JumpTo(value)
    ensures LoadedAt(Words(bs) + tail, |Words(bs[..k])| + o) == Some(value)
  {
    hide JumpTo, Words;
    EvenWords(bs[..k]);
    JumpWords(bs[k].words, o, value);
    WordsAt(bs, k, o);
    WordsAt(bs, k, o + 1);
    WordsAt(bs, k, o + 2);
    WordsAt(bs, k, o + 3);
  }

  /** What the instruction of the block becomes. */
  predicate IsBlockOf(target: nat, code: seq<Half>, mem: Memory, b: Block) {
    var p := b.orig;
    && p < |code|
    && (!Is32Bit(code[p]) ==> b.words == Expand16(target + 4 + 2 * p, code[p], mem))
    && (Is32Bit(code[p]) && p + 1 < |code| ==> b.words == Expand32(target + 4 + 2 * p, code[p], code[p + 1], mem))
  }

  lemma FirstBlock(target: nat, code: seq<Half>, mem: Memory, pos: nat)
    requires pos < |code|
    ensures var bs := ThumbBlocks(target, code, mem, pos); var next := if Is32Bit(code[pos]) then pos + 2 else pos + 1;
      && IsBlockOf(target, code, mem, bs[0])
      && (if next < |code| then bs[1..] == ThumbBlocks(target, code, mem, next) else |bs| == 1)
  {
    hide Expand16, Expand32, Is32Bit;
  }

  lemma {:induction false} ThumbJumps(target: nat, code: seq<Half>, mem: Memory, pos: nat, k: nat)
    requires pos < |code| && k < |ThumbBlocks(target, code, mem, pos)|
    ensures IsBlockOf(target, code, mem, ThumbBlocks(target, code, mem, pos)[k])
    decreases |code| - pos
  {
    hide IsBlockOf, ThumbBlocks, Is32Bit;
    FirstBlock(target, code, mem, pos);
    if k > 0 {
      ThumbJumps(target, code, mem, if Is32Bit(code[pos]) then pos + 2 else pos + 1, k - 1);
    }
  }

  /** In the trampoline of any window, the jump of every moved branch goes to the destination of that branch exactly
      unless it is BX PC, or a B<c>.W, B.W or BL off a word boundary. */
  lemma BranchesLand(target: nat, code: seq<Half>, mem: Memory, tail: seq<nat>, k: nat)
    requires code != [] && target % 2 == 0 && k < |ThumbBlocks(target, code, mem, 0)|
    ensures var bs := ThumbBlocks(target, code, mem, 0); var p := bs[k].orig; var pc := target + 4 + 2 * p;
      && p < |code|
      && (!Is32Bit(code[p]) && IsBranch16(code[p]) ==>
        (LoadedAt(Words(bs) + tail, |Words(bs[..k])| + JumpOffset16(code[p]).value) == Some(Destination16(pc, code[p]))
         <==> !IsBxPc(code[p])))
      && (Is32Bit(code[p]) && p + 1 < |code| && IsBranch32(code[p], code[p + 1]) ==>
        (IsCallExchange(code[p], code[p + 1]) || pc % 4 == 0 <==>
         LoadedAt(Words(bs) + tail, |Words(bs[..k])| + JumpOffset32(code[p], code[p + 1]).value)
         == Some(Destination32(pc, code[p], code[p + 1]))))
  {
    hide Expand16, Expand32, Target16, Target32, Destination16, Destination32, TypeInThumb16, TypeInThumb32, Is32Bit, LoadedAt,
      Words, JumpTo, ThumbBlocks, IsBranch16, IsBranch32;
    var bs := ThumbBlocks(target, code, mem, 0);
    ThumbInOrder(target, code, mem, 0);
    ThumbJumps(target, code, mem, 0, k);
    var p := bs[k].orig;
    var pc := target + 4 + 2 * p;
    if !Is32Bit(code[p]) && IsBranch16(code[p]) {
      Jump16(pc, code[p], mem);
      OwnLiteral(bs, tail, k, JumpOffset16(code[p]).value, Target16(pc, code[p]));
      Target16Exact(pc, code[p]);
    }
    if Is32Bit(code[p]) && p + 1 < |code| && IsBranch32(code[p], code[p + 1]) {
      Jump32(pc, code[p], code[p + 1], mem);
      OwnLiteral(bs, tail, k, JumpOffset32(code[p], code[p + 1]).value, Target32(pc, code[p], code[p + 1]));
      Target32Exact(pc, code[p], code[p + 1]);
    }
  }

  // ---------- conditional branches ----------

  predicate IsConditional(code: seq<Half>, p: nat)
    requires p < |code|
  {
    if Is32Bit(code[p]) then p + 1 < |code| && IsCondBranchWide(code[p], code[p + 1])
    else IsCondBranch(code[p]) || IsCompareBranch(code[p])
  }

  /** The first halfword of a moved conditional branch tests what the original tests, and branches two halfwords on. */
  predicate SameTest(code: seq<Half>, p: nat, first: Half)
    requires p < |code|
  {
    if Is32Bit(code[p]) then first / 0x100 == 0xd0 + code[p] / 0x40 % 16 && BranchHalf(0, first) == 2
    else if IsCondBranch(code[p]) then first / 0x100 == code[p] / 0x100 && BranchHalf(0, first) == 2
    else IsCompareBranch(first) && first / 0x800 == code[p] / 0x800 && first % 8 == code[p] % 8 && CbzHalf(0, first) == 2
  }

  lemma CondWords16(pc: nat, i: Half, mem: Memory)
    requires (IsCondBranch(i) || IsCompareBranch(i)) && !Is32Bit(i)
    ensures var ws := Expand16(pc, i, mem); |ws| == 6 && SameTest([i], 0, ws[0]) && ws[1] == 0xe003
  {
    Types16(i);
    Apart16(i);
    hide Target16, Value16, JumpTo, LoadRegister16, TypeInThumb16;
    if IsCompareBranch(i) {
      CbWord(i);
    }
  }

  lemma CbWord(i: Half)
    requires IsCompareBranch(i)
    ensures var w := i / 0x400 * 0x400 + i / 0x100 % 2 * 0x100 + i % 8;
      IsCompareBranch(w) && w / 0x800 == i / 0x800 && w % 8 == i % 8 && CbzHalf(0, w) == 2
  {
    CbParts(i / 0x400, i % 8);
    Quotients(i);
  }

  lemma CbParts(a: nat, r: nat)
    requires a < 0x40 && r < 8
    ensures var w := a * 0x400 + 0x100 + r;
      w / 0x1000 == a / 4 && w / 0x800 == a / 2 && w / 0x400 == a && w / 0x200 % 2 == 0 && w / 0x100 % 2 == 1 && w / 8 % 0x20 == 0
      && w % 8 == r
  {
    var w: nat := a * 0x400 + 0x100 + r;
    assert w / 0x100 == 4 * a + 1 && w % 0x100 == r;
    InPieces(w);
  }

  lemma InPieces(w: nat)
    ensures w / 0x200 == w / 0x100 / 2 && w / 0x400 == w / 0x100 / 4 && w / 0x800 == w / 0x100 / 8 && w / 0x1000 == w / 0x100 / 16
    ensures w % 8 == w % 0x100 % 8 && w / 8 % 0x20 == w % 0x100 / 8
  {
  }

  lemma Quotients(i: Half)
    ensures i / 0x1000 == i / 0x400 / 4 && i / 0x800 == i / 0x400 / 2 && i / 0x400 < 0x40
  {
  }

  lemma CondWords32(pc: nat, hi: Half, lo: Half, mem: Memory)
    requires IsCondBranchWide(hi, lo) && Is32Bit(hi)
    ensures var ws := Expand32(pc, hi, lo, mem); |ws| == 6 && SameTest([hi, lo], 0, ws[0]) && ws[1] == 0xe003
  {
    Types32(hi, lo);
    hide Target32, Value32, JumpTo, TypeInThumb32;
  }

  lemma SkipGoes(l: int)
    ensures BranchHalf(l, 0xe003) == l + 5
  {
  }

  /** A moved conditional branch tests what the original tests: if it is taken it goes to the jump, which is two halfwords
      behind it, and otherwise the next halfword branches behind the block. */
  lemma ConditionalsLand(target: nat, code: seq<Half>, mem: Memory, k: nat)
    requires code != [] && k < |ThumbBlocks(target, code, mem, 0)|
    ensures var bs := ThumbBlocks(target, code, mem, 0); var (p, l) := (bs[k].orig, |Words(bs[..k])|);
      && p < |code|
      && (IsConditional(code, p) ==>
        && l + 1 < |Words(bs)| && Words(bs)[l] < 0x1_0000 && SameTest(code, p, Words(bs)[l])
        && Words(bs)[l + 1] == 0xe003 && BranchHalf(l + 1, 0xe003) == |Words(bs[..k + 1])|)
  {
    hide Expand16, Expand32, IsBranch16, IsBranch32, IsCondBranch, IsCompareBranch, IsCondBranchWide, Is32Bit, Words, ThumbBlocks, BranchHalf, CbzHalf;
    var bs := ThumbBlocks(target, code, mem, 0);
    ThumbJumps(target, code, mem, 0, k);
    var p, l := bs[k].orig, |Words(bs[..k])|;
    if IsConditional(code, p) {
      var pc := target + 4 + 2 * p;
      if Is32Bit(code[p]) {
        CondWords32(pc, code[p], code[p + 1], mem);
      } else {
        CondWords16(pc, code[p], mem);
      }
      WordsAt(bs, k, 0);
      WordsAt(bs, k, 1);
      WordsNext(bs, k);
      SkipGoes(l + 1);
    }
  }

  /** The address that ADR.W Rd, PC, #imm at halfword l of a trampoline at base puts into register Rd. */
  function AdrW(base: nat, l: nat, hi: Half, lo: Half): nat {
    AlignPc(base + 2 * l + 4) + hi / 0x400 % 2 * 0x800 + lo / 0x1000 % 8 * 0x100 + lo % 0x100
  }

  predicate IsCall32(hi: Half, lo: Half) { IsCallWide(hi, lo) || IsCallExchange(hi, lo) }

  /** A moved BL or BLX puts the address behind its block, with the Thumb bit, into LR: so it returns to what follows. */
  lemma ReturnsBehind(target: nat, code: seq<Half>, mem: Memory, base: nat, k: nat)
    requires code != [] && k < |ThumbBlocks(target, code, mem, 0)| && base % 4 == 0
    ensures var bs := ThumbBlocks(target, code, mem, 0); var (p, l) := (bs[k].orig, |Words(bs[..k])|);
      && p < |code|
      && (Is32Bit(code[p]) && p + 1 < |code| && IsCall32(code[p], code[p + 1]) ==>
        l + 6 <= |Words(bs)| && Words(bs)[l..l + 2] == [0xf20f, 0x0e09]
        && AdrW(base, l, 0xf20f, 0x0e09) == base + 2 * |Words(bs[..k + 1])| + 1)
  {
    hide Expand16, Expand32, IsCall32, Is32Bit, Words, ThumbBlocks, AdrW;
    var bs := ThumbBlocks(target, code, mem, 0);
    ThumbInOrder(target, code, mem, 0);
    ThumbJumps(target, code, mem, 0, k);
    var p, l := bs[k].orig, |Words(bs[..k])|;
    if Is32Bit(code[p]) && p + 1 < |code| && IsCall32(code[p], code[p + 1]) {
      CallWords(target + 4 + 2 * p, code[p], code[p + 1], mem);
      WordsAt(bs, k, 0);
      WordsAt(bs, k, 1);
      WordsAt(bs, k, 5);
      EvenWords(bs[..k]);
      BehindBlock(base, l);
      WordsNext(bs, k);
    }
  }

  lemma CallWords(pc: nat, hi: Half, lo: Half, mem: Memory)
    requires IsCall32(hi, lo)
    ensures var ws := Expand32(pc, hi, lo, mem); |ws| == 6 && ws[0] == 0xf20f && ws[1] == 0x0e09
  {
    Types32(hi, lo);
    hide TypeInThumb32, Target32, Value32, JumpTo;
  }

  lemma BehindBlock(base: nat, l: nat)
    requires base % 4 == 0 && l % 2 == 0
    ensures AdrW(base, l, 0xf20f, 0x0e09) == base + 2 * (l + 6) + 1
  {
  }

  lemma WordsNext(bs: seq<Block>, k: nat)
    requires k < |bs|
    ensures |Words(bs[..k + 1])| == |Words(bs[..k])| + |bs[k].words|
  {
    assert bs[..k + 1][..k] == bs[..k];
  }

  /** The jump back loads the resume address. */
  lemma TailLiteral(bs: seq<Block>, value: Word)
    requires forall b :: b in bs ==> |b.words| % 2 == 0
    ensures LoadedAt(Words(bs) + JumpTo(value), |Words(bs)|) == Some(value)
  {
    EvenWords(bs);
    Halves(value);
  }

  // ---------- ARM branches ----------

  /** LDR PC, [PC, #-4] goes to the word behind it. */
  function ArmLoadedAt(ws: seq<nat>, p: nat): Option<nat> {
    if p + 1 < |ws| && ws[p] == LDR_PC then Some(ws[p + 1]) else None
  }

  /** Behind the ADD of BL and BLX. */
  function JumpOffsetArm(i: Word): nat {
    if IsBlxArm(i) || IsBlArm(i) then 1 else 0
  }

  lemma ArmWords(pc: nat, i: Word, mem: Memory)
    requires IsBranchArm(i)
    ensures var (o, ws) := (JumpOffsetArm(i), ExpandArm(pc, i, mem));
      |ws| == o + 2 && ws[o] == LDR_PC && ws[o + 1] == TargetArm(pc, i) && (o == 1 ==> ws[0] == ADD_LR_PC)
  {
    TypesArm(i);
    hide TypeInArm, TargetArm, ValueArm;
  }

  lemma {:induction false} ArmBlockAt(target: nat, code: seq<Word>, mem: Memory, pos: nat, k: nat)
    requires pos + k < |code|
    ensures ArmBlocks(target, code, mem, pos)[k] == Block(pos + k, ExpandArm(target + 8 + 4 * (pos + k), code[pos + k], mem))
    decreases k
  {
    hide ExpandArm;
    if k > 0 {
      ArmBlockAt(target, code, mem, pos + 1, k - 1);
    }
  }

  /** In the trampoline of any ARM window, the jump of every moved branch goes to the destination of that branch, and BL
      and BLX return behind their block. */
  lemma ArmBranchesLand(target: nat, code: seq<Word>, mem: Memory, tail: seq<nat>, base: nat, k: nat)
    requires k < |code| && IsBranchArm(code[k])
    ensures var bs := ArmBlocks(target, code, mem, 0); var (i, ws, l) := (code[k], Words(bs) + tail, |Words(bs[..k])|);
      && ArmLoadedAt(ws, l + JumpOffsetArm(i)) == Some(DestinationArm(target + 8 + 4 * k, i))
      && (JumpOffsetArm(i) == 1 ==> ws[l] == ADD_LR_PC && base + 4 * l + 8 + 4 == base + 4 * |Words(bs[..k + 1])|)
  {
    hide ExpandArm, ArmBlocks, TargetArm, DestinationArm, IsBranchArm, Words;
    var bs := ArmBlocks(target, code, mem, 0);
    var (i, pc, o) := (code[k], target + 8 + 4 * k, JumpOffsetArm(code[k]));
    ArmBlockAt(target, code, mem, 0, k);
    ArmWords(pc, i, mem);
    TargetArmExact(pc, i);
    WordsAt(bs, k, 0);
    WordsAt(bs, k, o);
    WordsAt(bs, k, o + 1);
    WordsNext(bs, k);
  }

  /** The words of a moved branch are executed under every condition, those of the original under its own: the branch
      keeps its condition exactly if it has none. BLX never has one. */
  lemma ConditionKept(pc: nat, i: Word, mem: Memory)
    requires IsBranchArm(i)
    ensures var ws := ExpandArm(pc, i, mem);
      && |ws| == JumpOffsetArm(i) + 2 && (forall j :: 0 <= j <= JumpOffsetArm(i) ==> ws[j] / 0x1000_0000 == 14)
      && (IsBlxArm(i) ==> ConditionArm(i) == 15)
      && (!IsBlxArm(i) ==> (ws[0] / 0x1000_0000 == ConditionArm(i) <==> ConditionArm(i) == 14))
  {
    ArmWords(pc, i, mem);
    hide ExpandArm, IsBranchArm;
  }

  /** BEQ is always taken in the trampoline. */
  lemma BeqAlwaysTaken(pc: nat, mem: Memory)
    ensures IsBranchArm(0x0a00_0000) && ExpandArm(pc, 0x0a00_0000, mem)[0] == LDR_PC
  {
    ArmWords(pc, 0x0a00_0000, mem);
    hide ExpandArm;
  }

  // ---------- moving a thread ----------

  /** The first index of x. */
  function IndexOf(s: seq<nat>, x: int): (r: Option<nat>)
    ensures match r
      case Some(i) => i < |s| && s[i] == x && forall j :: 0 <= j < i ==> s[j] != x
      case None => forall j :: 0 <= j < |s| ==> s[j] != x
  {
    if s == [] then None
    else if s[0] == x then Some(0)
    else
      match IndexOf(s[1..], x)
      case None => assert forall j :: 0 < j < |s| ==> s[j] == s[1..][j - 1]; None
      case Some(i) => Some(i + 1)
  }

  /** doProcessThreadPC: from one table to the other; a PC that is not on a boundary stays. */
  function Moved(pc: int, fromBase: int, from: seq<nat>, toBase: int, to: seq<nat>): Option<int>
    requires |from| == |to|
  {
    match IndexOf(from, pc - fromBase)
    case None => None
    case Some(i) => Some(toBase + to[i])
  }

  method ProcessThreadPc(pc: int, fromBase: int, from: seq<nat>, toBase: int, to: seq<nat>) returns (r: Option<int>)
    requires |from| == |to|
    ensures r == Moved(pc, fromBase, from, toBase, to)
  {
    var offset := pc - fromBase;
    for i := 0 to |from|
      invariant forall j :: 0 <= j < i ==> from[j] != offset
    {
      if offset == from[i] {
        return Some(toBase + to[i]);
      }
    }
    r := None;
  }

  /** Moving a thread into the trampoline and back, or out of it and in again, leaves it where it was. */
  lemma ThereAndBack(pc: int, aBase: int, a: seq<nat>, bBase: int, b: seq<nat>)
    requires |a| == |b| && Increasing(a) && Increasing(b) && Moved(pc, aBase, a, bBase, b).Some?
    ensures Moved(Moved(pc, aBase, a, bBase, b).value, bBase, b, aBase, a) == Some(pc)
  {
    var i := IndexOf(a, pc - aBase).value;
    var j := IndexOf(b, b[i] as int).value;
    assert j == i;
  }

  /** A thread is moved exactly when it is at the beginning of an instruction. */
  lemma MovedAtBoundaries(pc: int, bs: seq<Block>, unit: nat, target: int, base: int)
    ensures Moved(pc, target, OrigBounds(bs, unit), base, TrampBounds(bs, unit)).Some?
      <==> exists k :: 0 <= k < |bs| && pc == target + bs[k].orig * unit
  {
    var from := OrigBounds(bs, unit);
    if k :| 0 <= k < |bs| && pc == target + bs[k].orig * unit {
      assert from[k] == pc - target;
    }
    if i :| 0 <= i < |from| && from[i] == pc - target {
      assert pc == target + bs[i].orig * unit;
    }
  }

  // ---------- the loops ----------

  lemma OneMore(bs: seq<Block>, b: Block, unit: nat)
    ensures Words(bs + [b]) == Words(bs) + b.words
    ensures OrigBounds(bs + [b], unit) == OrigBounds(bs, unit) + [b.orig * unit]
    ensures TrampBounds(bs + [b], unit) == TrampBounds(bs, unit) + [|Words(bs)| * unit]
  {
    assert (bs + [b])[..|bs|] == bs;
    forall k | 0 <= k < |bs|
      ensures (bs + [b])[..k] == bs[..k]
    {
    }
  }

  /** The halfwords of the instruction at pos. */
  function SizeAt(code: seq<Half>, pos: nat): (n: nat)
    requires pos < |code|
    ensures 1 <= n <= 2
  {
    if Is32Bit(code[pos]) then 2 else 1
  }

  function MovedWords(pc: nat, code: seq<Half>, mem: Memory, pos: nat): (ws: seq<Half>)
    requires pos < |code| && pos + SizeAt(code, pos) <= |code|
    ensures 2 <= |ws| <= 14
  {
    if Is32Bit(code[pos]) then Expand32(pc, code[pos], code[pos + 1], mem) else Expand16(pc, code[pos], mem)
  }

  /** One round of the loop: the instruction that does not fit ends it, and so does the end of the window. */
  lemma ThumbStep(target: nat, code: seq<Half>, mem: Memory, pos: nat, done: seq<Block>, all: seq<Block>)
    requires pos < |code| && all == done + ThumbBlocks(target, code, mem, pos)
    ensures var n := SizeAt(code, pos);
      if pos + n > |code| then all == done + [Block(pos, [])] && ResumeAt(code, pos) == pos
      else
        var b := Block(pos, MovedWords(target + 4 + 2 * pos, code, mem, pos));
        if pos + n == |code| then all == done + [b] && ResumeAt(code, pos) == pos + n
        else all == done + [b] + ThumbBlocks(target, code, mem, pos + n) && ResumeAt(code, pos) == ResumeAt(code, pos + n)
  {
    hide Expand16, Expand32;
  }

  const TRAMPOLINE_HALVES := 2048  // one page
  const TRAMPOLINE_WORDS := 1024

  /** relocateInstructionInThumb; the address has its Thumb bit cleared */
  method RelocateInThumb(target: nat, code: seq<Half>, mem: Memory, tramp: array<nat>)
    returns (orig: seq<nat>, trampBounds: seq<nat>, used: nat)
    requires |code| == THUMB_WINDOW && tramp.Length == TRAMPOLINE_HALVES
    modifies tramp
    ensures var bs := ThumbBlocks(target, code, mem, 0);
      && orig == OrigBounds(bs, 2) && trampBounds == TrampBounds(bs, 2) && used == |Words(bs)| + 4
      && used <= TRAMPOLINE_HALVES && tramp[..used] == Words(bs) + JumpTo(Sum32(target + 2 * ResumeAt(code, 0), 1))
  {
    hide MovedWords, SizeAt, OrigBounds, TrampBounds, JumpTo, Words, ThumbBlocks, ResumeAt;
    var origPos: nat, trampPos: nat, pc := 0, 0, target + 4;
    orig, trampBounds := [], [];
    ghost var all, done := ThumbBlocks(target, code, mem, 0), [];
    NoBlocks();
    var more := true;
    while more
      invariant origPos <= |code| && pc == target + 4 + 2 * origPos && trampPos <= 14 * origPos
      invariant orig == OrigBounds(done, 2) && trampBounds == TrampBounds(done, 2)
      invariant trampPos == |Words(done)| && tramp[..trampPos] == Words(done)
      invariant if more then origPos < |code| && all == done + ThumbBlocks(target, code, mem, origPos)
          && ResumeAt(code, 0) == ResumeAt(code, origPos)
        else all == done && ResumeAt(code, 0) == origPos
      decreases more, |code| - origPos
    {
      orig := orig + [origPos * 2];
      trampBounds := trampBounds + [trampPos * 2];
      ThumbStep(target, code, mem, origPos, done, all);
      if SizeAt(code, origPos) == 2 && origPos + 2 > |code| {
        OneMore(done, Block(origPos, []), 2);
        done := done + [Block(origPos, [])];
        assert Words(done) == tramp[..trampPos];
        more := false;
      } else {
        var words, size := MovedWords(pc, code, mem, origPos), SizeAt(code, origPos);
        OneMore(done, Block(origPos, words), 2);
        Put(tramp, trampPos, words, Words(done));
        done := done + [Block(origPos, words)];
        pc := pc + 2 * size;
        trampPos := trampPos + |words|;
        origPos := origPos + size;
        more := origPos < |code|;
      }
    }
    var lr := Sum32(target + 2 * origPos, 1);
    Put(tramp, trampPos, JumpTo(lr), Words(done));
    used := trampPos + 4;
  }

  lemma NoBlocks()
    ensures Words([]) == [] && forall unit :: OrigBounds([], unit) == [] && TrampBounds([], unit) == []
  {
  }

  /** relocateInstructionInArm */
  method RelocateInArm(target: nat, code: seq<Word>, mem: Memory, tramp: array<nat>)
    returns (orig: seq<nat>, trampBounds: seq<nat>, used: nat)
    requires |code| == ARM_WINDOW && tramp.Length == TRAMPOLINE_WORDS
    modifies tramp
    ensures var bs := ArmBlocks(target, code, mem, 0);
      && orig == OrigBounds(bs, 4) && trampBounds == TrampBounds(bs, 4) && used == |Words(bs)| + 2
      && used <= TRAMPOLINE_WORDS && tramp[..used] == Words(bs) + [LDR_PC, Sum32(target, 8)]
  {
    hide ExpandArm, OrigBounds, TrampBounds, Words;
    var trampPos: nat := 0;
    orig, trampBounds := [], [];
    ghost var all, done := ArmBlocks(target, code, mem, 0), [];
    NoBlocks();
    for origPos := 0 to |code|
      invariant trampPos <= 6 * origPos && all == done + ArmBlocks(target, code, mem, origPos)
      invariant orig == OrigBounds(done, 4) && trampBounds == TrampBounds(done, 4)
      invariant trampPos == |Words(done)| && tramp[..trampPos] == Words(done)
    {
      orig := orig + [origPos * 4];
      trampBounds := trampBounds + [trampPos * 4];
      var words := ExpandArm(target + 8 + 4 * origPos, code[origPos], mem);
      OneMore(done, Block(origPos, words), 4);
      Put(tramp, trampPos, words, Words(done));
      done := done + [Block(origPos, words)];
      trampPos := trampPos + |words|;
    }
    assert all == done;
    Put(tramp, trampPos, [LDR_PC, Sum32(target, 8)], Words(done));
    used := trampPos + 2;
  }

  /** Whatever a Thumb window contains: a thread at the beginning of one of its instructions is moved into the
      trampoline and comes back to where it was, and the same the other way round. */
  lemma ThumbThreads(target: nat, code: seq<Half>, mem: Memory, base: int, pc: int)
    requires |code| == THUMB_WINDOW
    ensures var bs := ThumbBlocks(target, code, mem, 0); var (a, b) := (OrigBounds(bs, 2), TrampBounds(bs, 2));
      && Increasing(a) && Increasing(b)
      && (Moved(pc, target, a, base, b).Some? ==> Moved(Moved(pc, target, a, base, b).value, base, b, target, a) == Some(pc))
      && (Moved(pc, base, b, target, a).Some? ==> Moved(Moved(pc, base, b, target, a).value, target, a, base, b) == Some(pc))
  {
    var bs := ThumbBlocks(target, code, mem, 0);
    var a, b := OrigBounds(bs, 2), TrampBounds(bs, 2);
    ThumbInOrder(target, code, mem, 0);
    BoundsIncrease(bs, 2);
    hide OrigBounds, TrampBounds, ThumbBlocks;
    if Moved(pc, target, a, base, b).Some? {
      ThereAndBack(pc, target, a, base, b);
    }
    if Moved(pc, base, b, target, a).Some? {
      ThereAndBack(pc, base, b, target, a);
    }
  }

  lemma ArmThreads(target: nat, code: seq<Word>, mem: Memory, base: int, pc: int)
    requires |code| == ARM_WINDOW
    ensures var bs := ArmBlocks(target, code, mem, 0); var (a, b) := (OrigBounds(bs, 4), TrampBounds(bs, 4));
      && Increasing(a) && Increasing(b)
      && (Moved(pc, target, a, base, b).Some? ==> Moved(Moved(pc, target, a, base, b).value, base, b, target, a) == Some(pc))
      && (Moved(pc, base, b, target, a).Some? ==> Moved(Moved(pc, base, b, target, a).value, target, a, base, b) == Some(pc))
  {
    var bs := ArmBlocks(target, code, mem, 0);
    var a, b := OrigBounds(bs, 4), TrampBounds(bs, 4);
    ArmInOrder(target, code, mem, 0);
    BoundsIncrease(bs, 4);
    hide OrigBounds, TrampBounds, ArmBlocks;
    if Moved(pc, target, a, base, b).Some? {
      ThereAndBack(pc, target, a, base, b);
    }
    if Moved(pc, base, b, target, a).Some? {
      ThereAndBack(pc, base, b, target, a);
    }
  }

  // ---------- the room for boundaries ----------

  /** What an item has room for: orig_boundaries[4] */
  const SLOTS := 4

  /** How many 32-bit instructions lie wholly in the window from pos on. */
  function Fits32(code: seq<Half>, pos: nat): nat
    decreases |code| - pos
  {
    if pos >= |code| then 0
    else if Is32Bit(code[pos]) then (if pos + 2 <= |code| then 1 else 0) + Fits32(code, pos + 2)
    else Fits32(code, pos + 1)
  }

  /** There is a boundary for every halfword except for the second ones of moved instructions. */
  lemma {:induction false} BoundaryCount(target: nat, code: seq<Half>, mem: Memory, pos: nat)
    requires pos < |code|
    ensures |ThumbBlocks(target, code, mem, pos)| == |code| - pos - Fits32(code, pos)
    decreases |code| - pos
  {
    hide Expand16, Expand32, Is32Bit;
    if Is32Bit(code[pos]) && pos + 2 < |code| {
      BoundaryCount(target, code, mem, pos + 2);
    } else if !Is32Bit(code[pos]) && pos + 1 < |code| {
      BoundaryCount(target, code, mem, pos + 1);
    }
  }

  /** The boundaries of a Thumb window fit into an item exactly when two of its instructions are 32 bits wide; those of
      an ARM window always do. */
  lemma SlotsSuffice(target: nat, code: seq<Half>, arm: seq<Word>, mem: Memory)
    requires |code| == THUMB_WINDOW && |arm| == ARM_WINDOW
    ensures |ThumbBlocks(target, code, mem, 0)| <= SLOTS <==> Fits32(code, 0) >= 2
    ensures |ArmBlocks(target, arm, mem, 0)| <= SLOTS
  {
    hide ThumbBlocks, ArmBlocks, Fits32;
    BoundaryCount(target, code, mem, 0);
  }

  /** A window of six 16-bit instructions has six boundaries. */
  lemma FourSlotsAreFew(target: nat, mem: Memory)
    ensures |ThumbBlocks(target, [NOP16, NOP16, NOP16, NOP16, NOP16, NOP16], mem, 0)| == 6
  {
    hide ThumbBlocks;
    var code: seq<Half> := [NOP16, NOP16, NOP16, NOP16, NOP16, NOP16];
    BoundaryCount(target, code, mem, 0);
    NoneWide(code, 0);
  }

  lemma {:induction false} NoneWide(code: seq<Half>, pos: nat)
    requires forall i :: 0 <= i < |code| ==> code[i] == NOP16
    ensures Fits32(code, pos) == 0
    decreases |code| - pos
  {
    if pos < |code| {
      NoneWide(code, pos + 1);
    }
  }
}
