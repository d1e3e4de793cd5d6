/** The 64-bit inline hook: what each instruction of the overwritten window becomes in the trampoline,
    as a function of the instruction, its address and the place where it is put. */
module A64Layout {
  import opened A64FixMap
  import opened Bits
  import opened Options

  const ROW_WORDS := 50

  const NOP := 0xd503201f
  const LDR_X17_8 := 0x58000051    // LDR X17, #0x8
  const LDR_X17_12 := 0x58000071   // LDR X17, #12
  const ADR_X30_16 := 0x1000009e   // ADR X30, #16
  const BR_X17 := 0xd61f0220       // BR X17

  type Word = w: int | 0 <= w < 0x1_0000_0000

  /** The window: code starts at basep, the trampoline row at outBase; mem reads a word of the image. */
  datatype Env = Env(basep: int, code: seq<Word>, outBase: int, mem: int -> Word) {
    ghost predicate Valid() {
      basep % 4 == 0 && outBase % 4 == 0 && |code| <= MAX_INSTRUCTIONS
    }

    function InAddr(i: int): int { basep + 4 * i }

    function OutAddr(k: int): int { outBase + 4 * k }

    /** is_in_fixing_range */
    predicate Inside(a: int) { basep <= a < basep + 4 * |code| }

    /** get_ref_ins_index */
    function RefIndex(a: int): int {
      (a - basep) / 4
    }
  }

  datatype Kind =
    | BranchImm(link: bool)        // B, BL
    | CondBranch(field: Field)       // B.cond, CBZ, CBNZ (19-bit field), TBZ, TBNZ (14-bit field)
    | Prefetch                     // PRFM (literal)
    | LoadLiteral(align: nat, keep: nat) // LDR (literal) and its variants; align is the mask faligned
    | Adr
    | Adrp
    | Plain

  /** The classifiers in the order in which they are tried; top is the high byte of the word. */
  function KindByTop(top: nat, bit4: nat): Kind {
    if top / 4 == 0x05 then BranchImm(false)
    else if top / 4 == 0x25 then BranchImm(true)
    else if top == 0x54 && bit4 == 0 then CondBranch(Imm19)
    else if top % 0x80 == 0x34 || top % 0x80 == 0x35 then CondBranch(Imm19)
    else if top % 0x80 == 0x36 || top % 0x80 == 0x37 then CondBranch(Imm14)
    else if top == 0xd8 then Prefetch
    else if top == 0x18 then LoadLiteral(3, 1)
    else if top == 0x58 then LoadLiteral(7, 1)
    else if top % 0x40 == 0x1c then LoadLiteral(if top / 0x40 % 2 == 1 then 7 else if top / 0x80 == 1 then 15 else 3, 3)
    else if top == 0x98 then LoadLiteral(7, 0)
    else if top % 0x20 == 0x10 then (if top / 0x80 == 0 then Adr else Adrp)
    else Plain
  }

  function Top(ins: Word): nat { ins / 0x100_0000 }

  function Bit4Of(ins: Word): nat { ins / 16 % 2 }

  function KindOf(ins: Word): Kind {
    KindByTop(Top(ins), Bit4Of(ins))
  }

  // ---------- targets, as the code computes them ----------

  function BranchOffset(ins: Word): int {
    Signed(ins % 0x400_0000, 0x200_0000)
  }

  function BranchTarget(ins: Word, addr: int): int {
    addr + 4 * BranchOffset(ins)
  }

  /** The displacement field of a conditional branch, taken as unsigned. */
  function CondTarget(ins: Word, field: Field, addr: int): int {
    addr + 4 * (if field == Imm14 then ins / 32 % 0x4000 else ins / 32 % 0x8_0000)
  }

  /** (int32_t(ins << 8) >> 11) as an unsigned 32-bit number. */
  function Imm19Bytes(ins: Word): nat {
    Signed(ins * 0x100 % 0x1_0000_0000, 0x8000_0000) / 0x800 % 0x1_0000_0000
  }

  function LiteralTarget(ins: Word, addr: int): int {
    addr + Imm19Bytes(ins) - Imm19Bytes(ins) % 4
  }

  function AdrBytes(ins: Word): nat {
    Imm19Bytes(ins) - Imm19Bytes(ins) % 4 + ins * 2 % 0x1_0000_0000 / 0x4000_0000
  }

  function AdrTarget(ins: Word, addr: int): int {
    addr + AdrBytes(ins)
  }

  function AdrpTarget(ins: Word, addr: int): int {
    addr - addr % 0x1000 + AdrBytes(ins) * 0x1000 % 0x1_0000_0000
  }

  // ---------- encodings ----------

  function Abs(x: int): nat { if x < 0 then -x else x }

  /** The two words of a 64-bit literal in memory order. */
  function Literal(a: int): (ws: seq<nat>)
    ensures |ws| == 2
  {
    var u := a % 0x1_0000_0000_0000_0000;
    [u % 0x1_0000_0000, u / 0x1_0000_0000]
  }

  /** The branch with its displacement field set to d words. */
  function EncodeBranch(ins: Word, d: int): nat {
    ins / 0x400_0000 * 0x400_0000 + d % 0x400_0000
  }

  function EncodeCond(ins: Word, field: Field, d: int): nat {
    if field == Imm14 then ins / 0x8_0000 * 0x8_0000 + d % 0x4000 * 32 + ins % 32
    else ins / 0x100_0000 * 0x100_0000 + d % 0x8_0000 * 32 + ins % 32
  }

  /** ins & 0xff00001f */
  function KeepEnds(ins: Word): nat {
    ins / 0x100_0000 * 0x100_0000 + ins % 32
  }

  /** uint32(off << 5) & ~mask: bits 5 to 23, and for keep >= 1 bit 30, for keep >= 3 bit 31. */
  function LiteralField(off: int, keep: nat): nat {
    var x := off * 32 % 0x1_0000_0000;
    x % 0x100_0000 + (if keep >= 1 then x / 0x4000_0000 % 2 * 0x4000_0000 else 0)
    + (if keep >= 3 then x / 0x8000_0000 * 0x8000_0000 else 0)
  }

  function Nops(n: nat): (ws: seq<nat>)
    ensures |ws| == n
    ensures forall j :: 0 <= j < n ==> ws[j] == NOP
  {
    seq(n, _ => NOP)
  }

  // ---------- the block that one instruction becomes ----------

  /** Does the word at out index k start on an 8-byte boundary? */
  predicate Aligned8(env: Env, k: int) {
    env.OutAddr(k) % 8 == 0
  }

  /** The distance from word k of the row to target, in words. */
  function Reach(env: Env, target: int, k: int): int {
    (target - env.OutAddr(k)) / 4
  }

  function PlanBranch(env: Env, i: nat, k: nat, pos: seq<nat>): Plan
    requires i < |env.code| && |pos| == i && KindOf(env.code[i]).BranchImm?
  {
    var ins := env.code[i];
    var target := BranchTarget(ins, env.InAddr(i));
    var off := Reach(env, target, k);
    if env.Inside(target) then
      var ref := env.RefIndex(target);
      if ref <= i then Plan([EncodeBranch(ins, (if ref == i then k else pos[ref]) - k)], 0, None)
      else Plan([EncodeBranch(ins, 0)], 0, Some((ref, Fix(k, Imm26))))
    else if Abs(off) >= 0x1ff_ffff then
      if !KindOf(ins).link then
        var n := if Aligned8(env, k + 2) then 0 else 1;
        Plan(Nops(n) + [LDR_X17_8, BR_X17] + Literal(target), n, None)
      else
        var n := if Aligned8(env, k + 2) then 1 else 0;
        Plan(Nops(n) + [LDR_X17_12, ADR_X30_16, BR_X17] + Literal(target), n, None)
    else Plan([EncodeBranch(ins, off)], 0, None)
  }

  function PlanCond(env: Env, i: nat, k: nat, field: Field): Plan
    requires i < |env.code|
  {
    var ins := env.code[i];
    var target := CondTarget(ins, field, env.InAddr(i));
    var off := Reach(env, target, k);
    if env.Inside(target) then
      var ref := env.RefIndex(target);
      if ref <= i then Plan([EncodeCond(ins, field, 0)], 0, None)  // a branch to itself: the field is unsigned
      else Plan([EncodeCond(ins, field, 0)], 0, Some((ref, Fix(k, field))))
    else if Abs(off) >= (if field == Imm14 then 0x1fff else 0x3_ffff) then
      var n := if Aligned8(env, k + 4) then 0 else 1;
      Plan(Nops(n) + [EncodeCond(ins, field, 2), 0x1400_0005, LDR_X17_8, BR_X17] + Literal(target), n, None)
    else Plan([EncodeCond(ins, field, off)], 0, None)
  }

  /** Words copied from the image. */
  function Copied(env: Env, a: int, n: nat): (ws: seq<nat>)
    ensures |ws| == n
  {
    seq(n, j => env.mem(a + 4 * j))
  }

  /** How many words a is before the next multiple of align + 1. */
  function Padding(a: int, align: nat): nat {
    -a % (align + 1) / 4
  }

  predicate SlotAligned(a: int, align: nat) {
    a % (align + 1) == 0
  }

  predicate LiteralFar(off: int, align: nat) {
    Abs(off) + (align + 1 - 4) / 4 >= 0x3_ffff
  }

  /** How far off is behind a multiple of the size of the literal, in words. */
  function Misfit(off: int, align: nat): nat {
    off % (align / 4 + 1)
  }

  /** LDR #0x8; B behind the literal; a copy of the literal at a */
  function CopyWords(env: Env, ins: Word, a: int, align: nat): (ws: seq<nat>)
    ensures |ws| == 2 + (align + 1) / 4
  {
    [Or(64, KeepEnds(ins)), 0x1400_0001 + (align + 1) / 4] + Copied(env, a, (align + 1) / 4)
  }

  function PlanLiteral(env: Env, i: nat, k: nat, align: nat, keep: nat): Plan
    requires i < |env.code| && align in {3, 7, 15}
  {
    var ins := env.code[i];
    var target := LiteralTarget(ins, env.InAddr(i));
    var off := Reach(env, target, k);
    if env.Inside(target) || LiteralFar(off, align) then
      var n := Padding(env.OutAddr(k + 2), align);
      Plan(Nops(n) + CopyWords(env, ins, target, align), n, None)
    else
      var n := Misfit(off, align);
      Plan(Nops(n) + [Or(LiteralField(off - n, keep), KeepEnds(ins))], n, None)
  }

  /** LDR Xd, #0x8; B #0xc; the address */
  function AddressWords(ins: Word, target: int): (ws: seq<nat>)
    ensures |ws| == 4
  {
    [0x5800_0040 + ins % 32, 0x1400_0003] + Literal(target)
  }

  function LoadAddress(env: Env, ins: Word, k: nat, target: int): Plan {
    var n := if Aligned8(env, k + 2) then 0 else 1;
    Plan(Nops(n) + AddressWords(ins, target), n, None)
  }

  function PlanAdr(env: Env, i: nat, k: nat): Plan
    requires i < |env.code|
  {
    var ins := env.code[i];
    var target := AdrTarget(ins, env.InAddr(i));
    var off := target - env.OutAddr(k);
    if env.Inside(target) then
      var ref := env.RefIndex(target);
      if ref <= i then Plan([KeepEnds(ins)], 0, None)  // its own address: the displacement is never negative
      else Plan([KeepEnds(ins)], 0, Some((ref, Fix(k, ImmAdr))))
    else if Abs(off) >= 0xf_ffff then LoadAddress(env, ins, k, target)
    else Plan([Or(off * 8 % 0x100_0000, KeepEnds(ins))], 0, None)
  }

  function PlanAdrp(env: Env, i: nat, k: nat): Plan
    requires i < |env.code|
  {
    var target := AdrpTarget(env.code[i], env.InAddr(i));
    if env.Inside(target) then Plan([env.code[i]], 0, None)
    else LoadAddress(env, env.code[i], k, target)
  }

  /** What instruction i becomes at word k, the earlier ones being at the words pos. */
  function PlanOf(env: Env, i: nat, k: nat, pos: seq<nat>): (p: Plan)
    requires i < |env.code| && |pos| == i
    ensures |p.words| <= 9 && p.lead <= |p.words|
    ensures p.fix.Some? ==> i < p.fix.value.0 < |env.code| && p.fix.value.1.bp == k && |p.words| == 1 && p.lead == 0
  {
    match KindOf(env.code[i])
    case BranchImm(_) => PlanBranch(env, i, k, pos)
    case CondBranch(field) => PlanCond(env, i, k, field)
    case Prefetch => Plan([], 0, None)
    case LoadLiteral(align, keep) => PlanLiteral(env, i, k, align, keep)
    case Adr => PlanAdr(env, i, k)
    case Adrp => PlanAdrp(env, i, k)
    case Plain => Plan([env.code[i]], 0, None)
  }

  /** The jump back behind the window. */
  function Tail(env: Env, k: nat): (ws: seq<nat>)
    ensures |ws| <= 5
  {
    var callback := env.InAddr(|env.code|);
    var off := Reach(env, callback, k);
    if Abs(off) >= 0x1ff_ffff then Nops(if Aligned8(env, k + 2) then 0 else 1) + [LDR_X17_8, BR_X17] + Literal(callback)
    else [0x1400_0000 + off % 0x400_0000]
  }

  lemma PadTo4(b: int, m: int)
    requires m in {1, 2, 4}
    ensures (4 * b) % (4 * m) == 4 * (b % m) && -(4 * b) % (4 * m) == 4 * (-b % m)
  {
    Remainder(4 * b, 4 * m, b / m, 4 * (b % m));
    Remainder(-(4 * b), 4 * m, -b / m, 4 * (-b % m));
  }

  lemma PadSteps(b: int, m: int, n: nat)
    requires m in {1, 2, 4} && n <= -b % m
    ensures -b % m <= 3 && ((b + n) % m != 0 <==> n < -b % m)
  {
  }

  lemma PadStep(a: int, align: nat, n: nat)
    requires a % 4 == 0 && align in {3, 7, 15} && n <= Padding(a, align)
    ensures Padding(a, align) <= 3 && (!SlotAligned(a + 4 * n, align) <==> n < Padding(a, align))
  {
    var b, m := a / 4, (align + 1) / 4;
    PadTo4(b, m);
    PadTo4(b + n, m);
    PadSteps(b, m, n);
  }
}
