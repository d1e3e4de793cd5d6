/** What the trampoline does when it runs, for branches: a small machine for the words the hook emits
    (Arm Architecture Reference Manual for A-profile, DDI 0487, section C6.2). */
module A64Meaning {
  import opened A64FixMap
  import opened A64Isa
  import opened A64Layout
  import opened Bits
  import opened Options

  datatype Cpu = Cpu(pc: int, x17: int, x30: int)

  /** What a conditional branch tests: its opcode bits and its register or condition bits. */
  datatype Condition = Condition(op: nat, arg: nat)

  /** The state that conditions are tested in. */
  type Flags = Condition -> bool

  const TWO64 := 0x1_0000_0000_0000_0000

  predicate InRow(words: seq<nat>, base: int, a: int) {
    base <= a < base + 4 * |words| && (a - base) % 4 == 0
  }

  /** The 64-bit value stored at address a of the row. */
  function Read64(words: seq<nat>, base: int, a: int): int {
    if InRow(words, base, a) && InRow(words, base, a + 4)
    then words[(a - base) / 4] + 0x1_0000_0000 * words[(a - base) / 4 + 1]
    else 0
  }

  /** The displacement of a conditional branch, in words. */
  function CondOffset(w: nat, field: Field): int {
    if field == Imm14 then Offset14(w) else Offset19(w)
  }

  function ConditionOf(w: nat, field: Field): Condition {
    Condition(if field == Imm14 then w / 0x8_0000 else w / 0x100_0000, w % 32)
  }

  /** One instruction. Instructions that neither branch nor load X17 or X30 only move on. */
  function Exec(words: seq<nat>, base: int, s: Cpu, flags: Flags): Cpu
    requires InRow(words, base, s.pc)
  {
    var w := words[(s.pc - base) / 4];
    if w >= 0x1_0000_0000 then s
    else if w == BR_X17 then s.(pc := s.x17)
    else if IsBranch(w) then s.(pc := s.pc + 4 * Offset26(w))
    else if IsCall(w) then Cpu(s.pc + 4 * Offset26(w), s.x17, s.pc + 4)
    else if IsBranchIf(w) || IsCompare(w) then s.(pc := if flags(ConditionOf(w, Imm19)) then s.pc + 4 * Offset19(w) else s.pc + 4)
    else if IsTest(w) then s.(pc := if flags(ConditionOf(w, Imm14)) then s.pc + 4 * Offset14(w) else s.pc + 4)
    else if IsLoadX(w) then Loaded(s, w % 32, Read64(words, base, s.pc + 4 * Offset19(w)))
    else if IsAdr(w) then Loaded(s, w % 32, s.pc + Offset21(w))
    else s.(pc := s.pc + 4)
  }

  /** A value goes into register r, of which only X17 and X30 are kept. */
  function Loaded(s: Cpu, r: nat, value: int): Cpu {
    Cpu(s.pc + 4, if r == 17 then value else s.x17, if r == 30 then value else s.x30)
  }

  function Run(words: seq<nat>, base: int, s: Cpu, flags: Flags, n: nat): Cpu
    decreases n
  {
    if n == 0 || !InRow(words, base, s.pc) then s
    else Run(words, base, Exec(words, base, s, flags), flags, n - 1)
  }

  // ---------- what the hook takes an instruction for ----------

  lemma TopFields(w: Word)
    ensures var top := Top(w);
      && top < 0x100 && w / 0x200_0000 == top / 2 && w / 0x400_0000 == top / 4 && w / 0x800_0000 == top / 8
      && w / 0x4000_0000 == top / 0x40 && w / 0x8000_0000 == top / 0x80
  {
  }

  /** The classes by the highest byte. */
  lemma TopClasses(top: nat, bit4: nat)
    requires top < 0x100
    ensures var kind := KindByTop(top, bit4);
      && (top / 4 == 5 <==> kind == BranchImm(false)) && (top / 4 == 0x25 <==> kind == BranchImm(true))
      && ((top == 0x54 && bit4 == 0) || top / 2 % 0x40 == 0x1a <==> kind == CondBranch(Imm19))
      && (top / 2 % 0x40 == 0x1b <==> kind == CondBranch(Imm14))
  {
    SevenTop(top);
  }

  lemma SevenTop(top: nat)
    requires top < 0x100
    ensures top / 2 % 0x40 == top % 0x80 / 2 && top / 8 % 8 == top % 0x40 / 8 && top / 4 % 2 == top % 8 / 4
  {
    assert top / 2 == 0x40 * (top / 0x80) + top % 0x80 / 2;
    assert top / 8 == 8 * (top / 0x40) + top % 0x40 / 8;
    assert top / 4 == 2 * (top / 8) + top % 8 / 4;
    Remainder(top / 2, 0x40, top / 0x80, top % 0x80 / 2);
    Remainder(top / 8, 8, top / 0x40, top % 0x40 / 8);
    Remainder(top / 4, 2, top / 8, top % 8 / 4);
  }

  lemma TopLoads(top: nat, bit4: nat)
    requires top < 0x100
    ensures var (kind, literal) := (KindByTop(top, bit4), top / 8 % 8 == 3 && top % 4 == 0);
      && (literal && top / 4 % 2 == 0 && top / 0x40 == 3 <==> kind == Prefetch)
      && (literal && !(top / 4 % 2 == 0 && top / 0x40 == 3) <==> kind.LoadLiteral?)
      && (top / 0x80 == 0 && top % 0x20 == 0x10 <==> kind == Adr) && (top / 0x80 == 1 && top % 0x20 == 0x10 <==> kind == Adrp)
  {
    SevenTop(top);
    LiteralTops(top);
  }

  /** The highest bytes of literal loads. */
  lemma LiteralTops(top: nat)
    requires top < 0x100
    ensures top / 8 % 8 == 3 && top % 4 == 0 <==> top in {0x18, 0x58, 0x98, 0xd8, 0x1c, 0x5c, 0x9c, 0xdc}
  {
    SevenTop(top);
  }

  /** The hook finds each encoding. */
  lemma KindAgrees(w: Word)
    ensures IsBranch(w) <==> KindOf(w) == BranchImm(false)
    ensures IsCall(w) <==> KindOf(w) == BranchImm(true)
    ensures IsBranchIf(w) || IsCompare(w) <==> KindOf(w) == CondBranch(Imm19)
    ensures IsTest(w) <==> KindOf(w) == CondBranch(Imm14)
    ensures IsPrefetch(w) <==> KindOf(w) == Prefetch
    ensures IsLiteral(w) && !IsPrefetch(w) <==> KindOf(w).LoadLiteral?
    ensures IsAdr(w) <==> KindOf(w) == Adr
    ensures IsAdrp(w) <==> KindOf(w) == Adrp
  {
    TopFields(w);
    TopClasses(Top(w), Bit4Of(w));
    TopLoads(Top(w), Bit4Of(w));
    hide KindByTop;
  }

  /** It makes room for the whole literal. */
  lemma LiteralRoom(w: Word)
    requires IsLiteral(w) && !IsPrefetch(w)
    ensures KindOf(w).LoadLiteral? && KindOf(w).align + 1 >= LiteralSize(w)
  {
    TopFields(w);
    LiteralTops(Top(w));
    SevenTop(Top(w));
  }

  // ---------- single words ----------

  lemma EncodedBranch(ins: Word, d: int)
    requires KindOf(ins).BranchImm? && -0x200_0000 <= d < 0x200_0000
    ensures EncodeBranch(ins, d) < 0x1_0000_0000 && KindOf(EncodeBranch(ins, d)) == KindOf(ins)
    ensures BranchOffset(EncodeBranch(ins, d)) == d && EncodeBranch(ins, d) != BR_X17
  {
    var w := EncodeBranch(ins, d);
    assert w / 0x400_0000 == ins / 0x400_0000 && w % 0x400_0000 == d % 0x400_0000;
    assert w / 0x100_0000 / 4 == ins / 0x100_0000 / 4;
  }

  lemma Pieces19(hi: nat, f: nat, lo: nat)
    requires hi < 0x100 && f < 0x8_0000 && lo < 32
    ensures var w := hi * 0x100_0000 + f * 32 + lo;
      w < 0x1_0000_0000 && w / 0x100_0000 == hi && w / 32 % 0x8_0000 == f && w % 32 == lo && w / 16 % 2 == lo / 16
      && w / 0x400_0000 == hi / 4
  {
    var w := hi * 0x100_0000 + f * 32 + lo;
    assert w / 32 == hi * 0x8_0000 + f;
    assert w / 16 == hi * 0x10_0000 + f * 2 + lo / 16;
  }

  lemma Pieces14(hi: nat, f: nat, lo: nat)
    requires hi < 0x2000 && f < 0x4000 && lo < 32
    ensures var w := hi * 0x8_0000 + f * 32 + lo;
      w < 0x1_0000_0000 && w / 0x8_0000 == hi && w / 0x100_0000 == hi / 32 && w / 32 % 0x4000 == f && w % 32 == lo && w / 0x400_0000 == hi / 128
  {
    var w := hi * 0x8_0000 + f * 32 + lo;
    assert w / 32 == hi * 0x4000 + f;
  }

  lemma Bit4(x: nat)
    ensures x / 16 % 2 == x % 32 / 16
  {
  }

  lemma CondIsNotBr(w: Word)
    requires KindOf(w).CondBranch?
    ensures w != BR_X17
  {
    assert KindOf(BR_X17) == Plain;
  }

  lemma EncodedCond19(ins: Word, d: int)
    requires -0x4_0000 <= d < 0x4_0000
    ensures var w := EncodeCond(ins, Imm19, d);
      w < 0x1_0000_0000 && KindOf(w) == KindOf(ins) && CondOffset(w, Imm19) == d && ConditionOf(w, Imm19) == ConditionOf(ins, Imm19)
  {
    hide KindByTop;
    Pieces19(ins / 0x100_0000, d % 0x8_0000, ins % 32);
    Bit4(ins);
  }

  lemma EncodedCond14(ins: Word, d: int)
    requires -0x2000 <= d < 0x2000
    ensures var w := EncodeCond(ins, Imm14, d);
      w < 0x1_0000_0000 && KindOf(w) == KindOf(ins) && CondOffset(w, Imm14) == d && ConditionOf(w, Imm14) == ConditionOf(ins, Imm14)
  {
    hide KindByTop;
    Pieces14(ins / 0x8_0000, d % 0x4000, ins % 32);
    Bit4(ins);
    Bit4(EncodeCond(ins, Imm14, d));
    assert ins / 0x8_0000 / 32 == ins / 0x100_0000;
  }

  lemma EncodedCond(ins: Word, d: int)
    requires KindOf(ins).CondBranch? && KindOf(ins).field in {Imm19, Imm14}
    requires if KindOf(ins).field == Imm14 then -0x2000 <= d < 0x2000 else -0x4_0000 <= d < 0x4_0000
    ensures var w := EncodeCond(ins, KindOf(ins).field, d);
      w < 0x1_0000_0000 && KindOf(w) == KindOf(ins) && CondOffset(w, KindOf(ins).field) == d && w != BR_X17
      && ConditionOf(w, KindOf(ins).field) == ConditionOf(ins, KindOf(ins).field)
  {
    hide KindByTop, EncodeCond, CondOffset, ConditionOf;
    if KindOf(ins).field == Imm14 {
      EncodedCond14(ins, d);
    } else {
      EncodedCond19(ins, d);
    }
    CondIsNotBr(EncodeCond(ins, KindOf(ins).field, d));
  }

  lemma Pow2Values()
    ensures Pow2(14) == 0x4000 && Pow2(19) == 0x8_0000 && Pow2(26) == 0x400_0000
  {
    Pow2Plus(7, 7);
    Pow2Plus(9, 10);
    Pow2Plus(13, 13);
  }

  /** Patching a branch that was emitted with an empty field gives the branch with that displacement. */
  lemma PatchedBranch(ins: Word, k: nat, pos: nat)
    requires k <= pos < k + 0x2000
    ensures Patched(EncodeBranch(ins, 0), Fix(k, Imm26), pos) == EncodeBranch(ins, pos - k)
  {
    hide Or;
    Pow2Values();
    OrFillsLow(ins / 0x400_0000, pos - k, 26);
  }

  lemma EncodedSum(ins: Word, field: Field, d: nat)
    requires field in {Imm19, Imm14} && d < 0x2000
    ensures FieldBits(field, d) == 32 * d
    ensures EncodeCond(ins, field, d) == EncodeCond(ins, field, 0) + 32 * d
    ensures EncodeCond(ins, field, 0) ==
      if field == Imm14 then 32 * (ins / 0x8_0000 * 0x4000) + ins % 32 else 32 * (ins / 0x100_0000 * 0x8_0000) + ins % 32
  {
    assert d % 0x1_0000_0000 == d;
  }

  lemma PatchedCond(ins: Word, field: Field, k: nat, pos: nat)
    requires field in {Imm19, Imm14} && k <= pos < k + 0x2000
    ensures Patched(EncodeCond(ins, field, 0), Fix(k, field), pos) == EncodeCond(ins, field, pos - k)
  {
    hide EncodeCond, FieldBits, Or;
    EncodedSum(ins, field, pos - k);
    Pow2Values();
    if field == Imm14 {
      OrFillsMiddle(ins / 0x8_0000, ins % 32, pos - k, 14);
    } else {
      OrFillsMiddle(ins / 0x100_0000, ins % 32, pos - k, 19);
    }
  }

  /** The code reads the displacement of a conditional branch as unsigned: it finds the branch's own target
      exactly when the branch does not go backwards, and otherwise a place 64 KB or 2 MB behind it. */
  lemma CondTargetExact(ins: Word, addr: int)
    requires KindOf(ins).CondBranch?
    ensures var field := KindOf(ins).field;
      && (CondTarget(ins, field, addr) == addr + 4 * CondOffset(ins, field) <==> CondOffset(ins, field) >= 0)
      && (CondOffset(ins, field) < 0 ==>
        CondTarget(ins, field, addr) == addr + 4 * CondOffset(ins, field) + if field == Imm14 then 0x1_0000 else 0x20_0000)
  {
  }

  /** b.eq to the word in front. */
  lemma BackwardBranchMissed(addr: int)
    ensures KindOf(0x54ff_ffe0) == CondBranch(Imm19) && CondOffset(0x54ff_ffe0, Imm19) == -1
    ensures CondTarget(0x54ff_ffe0, Imm19, addr) == addr - 4 + 0x20_0000
  {
    CondTargetExact(0x54ff_ffe0, addr);
  }

  // ---------- the words of the far forms ----------

  lemma ExecFixed(words: seq<nat>, base: int, s: Cpu, flags: Flags)
    requires InRow(words, base, s.pc)
    ensures var w := words[(s.pc - base) / 4];
      && (w == NOP ==> Exec(words, base, s, flags) == s.(pc := s.pc + 4))
      && (w == BR_X17 ==> Exec(words, base, s, flags) == s.(pc := s.x17))
      && (w == LDR_X17_8 ==> Exec(words, base, s, flags) == Cpu(s.pc + 4, Read64(words, base, s.pc + 8), s.x30))
      && (w == LDR_X17_12 ==> Exec(words, base, s, flags) == Cpu(s.pc + 4, Read64(words, base, s.pc + 12), s.x30))
      && (w == ADR_X30_16 ==> Exec(words, base, s, flags) == Cpu(s.pc + 4, s.x17, s.pc + 16))
      && (w == 0x1400_0005 ==> Exec(words, base, s, flags) == s.(pc := s.pc + 20))
  {
    hide Read64;
  }

  /** The words of part lie in the row from index k on. */
  ghost predicate Lies(row: seq<nat>, k: nat, part: seq<nat>) {
    k + |part| <= |row| && forall i :: 0 <= i < |part| ==> row[k + i] == part[i]
  }

  lemma LiesParts(row: seq<nat>, k: nat, a: seq<nat>, b: seq<nat>)
    requires Lies(row, k, a + b)
    ensures Lies(row, k, a) && Lies(row, k + |a|, b)
  {
    assert forall i :: 0 <= i < |a| ==> (a + b)[i] == a[i];
    assert forall i :: 0 <= i < |b| ==> (a + b)[|a| + i] == b[i];
  }

  lemma ReadLiteral(row: seq<nat>, base: int, k: nat, a: int)
    requires Lies(row, k, Literal(a))
    ensures Read64(row, base, base + 4 * k) == a % TWO64
  {
    assert row[k + 0] == Literal(a)[0] && row[k + 1] == Literal(a)[1];
  }

  lemma OneStep(row: seq<nat>, base: int, s: Cpu, flags: Flags)
    requires InRow(row, base, s.pc)
    ensures Run(row, base, s, flags, 1) == Exec(row, base, s, flags)
  {
    hide Exec;
    assert Run(row, base, s, flags, 1) == Run(row, base, Exec(row, base, s, flags), flags, 0);
  }

  lemma {:induction false} RunOn(row: seq<nat>, base: int, s: Cpu, flags: Flags, m: nat, n: nat)
    ensures Run(row, base, s, flags, m + n) == Run(row, base, Run(row, base, s, flags, m), flags, n)
    decreases m
  {
    hide Exec;
    if m > 0 && InRow(row, base, s.pc) {
      RunOn(row, base, Exec(row, base, s, flags), flags, m - 1, n);
    }
  }

  /** One word of the far forms. */
  lemma StepFixed(row: seq<nat>, base: int, s: Cpu, flags: Flags, k: nat, w: nat, v: int)
    requires k < |row| && s.pc == base + 4 * k && row[k] == w
    requires w == LDR_X17_8 ==> v == Read64(row, base, s.pc + 8)
    requires w == LDR_X17_12 ==> v == Read64(row, base, s.pc + 12)
    ensures var t := Run(row, base, s, flags, 1);
      && (w == BR_X17 ==> t == s.(pc := s.x17))
      && (w == LDR_X17_8 || w == LDR_X17_12 ==> t == Cpu(s.pc + 4, v, s.x30))
      && (w == ADR_X30_16 ==> t == Cpu(s.pc + 4, s.x17, s.pc + 16))
      && (w == NOP ==> t == s.(pc := s.pc + 4))
      && (w == 0x1400_0005 ==> t == s.(pc := s.pc + 20))
  {
    ExecFixed(row, base, s, flags);
    OneStep(row, base, s, flags);
    hide Exec, Read64;
  }

  /** LDR X17, #0x8; BR X17; the address */
  lemma FarJump(row: seq<nat>, base: int, k: nat, a: int, s: Cpu, flags: Flags)
    requires Lies(row, k, [LDR_X17_8, BR_X17] + Literal(a)) && s.pc == base + 4 * k
    ensures Run(row, base, s, flags, 2) == Cpu(a % TWO64, a % TWO64, s.x30)
  {
    LiesParts(row, k, [LDR_X17_8, BR_X17], Literal(a));
    var code := [LDR_X17_8, BR_X17];
    assert row[k + 0] == code[0] && row[k + 1] == code[1];
    ReadLiteral(row, base, k + 2, a);
    hide Read64, Run, Literal, Lies;
    StepFixed(row, base, s, flags, k, LDR_X17_8, a % TWO64);
    var s1 := Cpu(s.pc + 4, a % TWO64, s.x30);
    StepFixed(row, base, s1, flags, k + 1, BR_X17, 0);
    RunOn(row, base, s, flags, 1, 1);
  }

  /** LDR X17, #12; ADR X30, #16; BR X17; the address */
  lemma FarCall(row: seq<nat>, base: int, k: nat, a: int, s: Cpu, flags: Flags)
    requires Lies(row, k, [LDR_X17_12, ADR_X30_16, BR_X17] + Literal(a)) && s.pc == base + 4 * k
    ensures Run(row, base, s, flags, 3) == Cpu(a % TWO64, a % TWO64, base + 4 * (k + 5))
  {
    LiesParts(row, k, [LDR_X17_12, ADR_X30_16, BR_X17], Literal(a));
    var code := [LDR_X17_12, ADR_X30_16, BR_X17];
    assert row[k + 0] == code[0] && row[k + 1] == code[1] && row[k + 2] == code[2];
    ReadLiteral(row, base, k + 3, a);
    hide Read64, Run, Literal, Lies;
    StepFixed(row, base, s, flags, k, LDR_X17_12, a % TWO64);
    var s1 := Cpu(s.pc + 4, a % TWO64, s.x30);
    StepFixed(row, base, s1, flags, k + 1, ADR_X30_16, 0);
    var s2 := Cpu(s1.pc + 4, a % TWO64, s1.pc + 16);
    StepFixed(row, base, s2, flags, k + 2, BR_X17, 0);
    RunOn(row, base, s, flags, 1, 1);
    RunOn(row, base, s, flags, 2, 1);
  }

  /** Alignment words in front only move on. */
  lemma OverNops(row: seq<nat>, base: int, k: nat, n: nat, s: Cpu, flags: Flags, m: nat)
    requires n <= 1 && Lies(row, k, Nops(n)) && s.pc == base + 4 * k
    ensures Run(row, base, s, flags, n + m) == Run(row, base, s.(pc := base + 4 * (k + n)), flags, m)
  {
    if n == 1 {
      assert row[k + 0] == Nops(n)[0];
      ExecFixed(row, base, s, flags);
    }
  }

  // ---------- branches keep their targets ----------

  /** The first n instructions of the window are in place, each according to its plan. */
  ghost predicate Done(env: Env, st: State, n: nat) {
    && env.Valid() && n <= |env.code| && Built(st, n)
    && forall j :: 0 <= j < n ==> Planned(env, st, j)
  }

  /** All instructions of the window are in place. */
  ghost predicate Complete(env: Env, st: State) {
    Done(env, st, |env.code|)
  }

  ghost predicate Planned(env: Env, st: State, j: nat)
    requires j < |env.code| && j < |st.plans| && j < |st.starts| && j <= |st.pos|
  {
    st.plans[j] == PlanOf(env, j, st.starts[j], st.pos[..j])
  }

  lemma {:induction false} Extent(env: Env, st: State, n: nat, j: nat)
    requires Done(env, st, n) && j <= n
    ensures st.starts[j] <= 9 * j
    ensures j < n ==> st.starts[j] <= st.pos[j] <= st.starts[j + 1] <= 9 * (j + 1)
  {
    hide PlanOf;
    if j > 0 {
      Extent(env, st, n, j - 1);
    }
    if j < n {
      assert Planned(env, st, j);
    }
  }

  lemma ExecBranch(row: seq<nat>, base: int, k: nat, ins: Word, d: int, s: Cpu, flags: Flags)
    requires KindOf(ins).BranchImm? && -0x200_0000 <= d < 0x200_0000
    requires k < |row| && row[k] == EncodeBranch(ins, d) && s.pc == base + 4 * k
    ensures Run(row, base, s, flags, 1) == Cpu(s.pc + 4 * d, s.x17, if KindOf(ins).link then s.pc + 4 else s.x30)
  {
    EncodedBranch(ins, d);
    KindAgrees(EncodeBranch(ins, d));
    KindAgrees(ins);
    hide KindOf, EncodeBranch, IsBranch, IsCall, IsBranchIf, IsCompare, IsTest, IsLiteral, IsPrefetch, IsLoadX, IsAdr, IsAdrp;
    assert Run(row, base, s, flags, 1) == Run(row, base, Exec(row, base, s, flags), flags, 0);
  }

  lemma ExecCond(row: seq<nat>, base: int, k: nat, ins: Word, d: int, s: Cpu, flags: Flags)
    requires KindOf(ins).CondBranch? && KindOf(ins).field in {Imm19, Imm14}
    requires if KindOf(ins).field == Imm14 then -0x2000 <= d < 0x2000 else -0x4_0000 <= d < 0x4_0000
    requires k < |row| && row[k] == EncodeCond(ins, KindOf(ins).field, d) && s.pc == base + 4 * k
    ensures Run(row, base, s, flags, 1) == s.(pc := if flags(ConditionOf(ins, KindOf(ins).field)) then s.pc + 4 * d else s.pc + 4)
  {
    EncodedCond(ins, d);
    KindAgrees(EncodeCond(ins, KindOf(ins).field, d));
    hide KindOf, EncodeCond, ConditionOf, Offset19, Offset14, IsBranch, IsCall, IsBranchIf, IsCompare, IsTest;
    assert Run(row, base, s, flags, 1) == Run(row, base, Exec(row, base, s, flags), flags, 0);
  }

  /** The displacement from the block of instruction j to the new place of instruction ref, in words. */
  function Gap(st: State, j: nat, ref: nat): int
    requires j < |st.starts| && ref < |st.pos|
  {
    (st.pos[ref] as int) - st.starts[j]
  }

  lemma Places(env: Env, st: State, j: nat, ref: nat)
    requires Complete(env, st) && j < |env.code| && ref < |env.code|
    ensures st.starts[j] <= 36 && st.pos[ref] <= 45
    ensures j < ref ==> st.starts[j] <= st.pos[ref]
    ensures st.plans[j] == PlanOf(env, j, st.starts[j], st.pos[..j])
  {
    hide PlanOf;
    assert Planned(env, st, j);
    Extent(env, st, |env.code|, j);
    Extent(env, st, |env.code|, ref);
    if j < ref {
      StartsGrow(st, |env.code|, j, ref);
    }
  }

  lemma ReachExact(env: Env, i: nat, d: int, k: nat)
    requires env.Valid()
    ensures env.OutAddr(k) + 4 * Reach(env, env.InAddr(i) + 4 * d, k) == env.InAddr(i) + 4 * d
  {
  }

  /** The near forms of a branch. */
  lemma BranchPlan(env: Env, i: nat, k: nat, pos: seq<nat>)
    requires i < |env.code| && |pos| == i && KindOf(env.code[i]).BranchImm?
    ensures var ins, p := env.code[i], PlanOf(env, i, k, pos); var target := BranchTarget(ins, env.InAddr(i));
      if env.Inside(target) then
        var ref := env.RefIndex(target);
        if ref <= i then p == Plan([EncodeBranch(ins, (if ref == i then k else pos[ref]) - k)], 0, None)
        else p == Plan([EncodeBranch(ins, 0)], 0, Some((ref, Fix(k, Imm26))))
      else Abs(Reach(env, target, k)) < 0x1ff_ffff ==> p == Plan([EncodeBranch(ins, Reach(env, target, k))], 0, None)
  {
    hide BranchTarget, EncodeBranch, Aligned8, Literal;
  }

  lemma CondPlan(env: Env, i: nat, k: nat, pos: seq<nat>, field: Field)
    requires i < |env.code| && |pos| == i && KindOf(env.code[i]) == CondBranch(field)
    ensures var ins, p := env.code[i], PlanOf(env, i, k, pos); var target := CondTarget(ins, field, env.InAddr(i));
      if env.Inside(target) then
        var ref := env.RefIndex(target);
        if ref <= i then p == Plan([EncodeCond(ins, field, 0)], 0, None)
        else p == Plan([EncodeCond(ins, field, 0)], 0, Some((ref, Fix(k, field))))
      else Abs(Reach(env, target, k)) < CondLimit(field) ==> p == Plan([EncodeCond(ins, field, Reach(env, target, k))], 0, None)
  {
    hide CondTarget, EncodeCond, Aligned8, Literal;
  }

  /** How far the near form of a conditional branch is used. */
  function CondLimit(field: Field): nat {
    if field == Imm14 then 0x1fff else 0x3_ffff
  }

  /** A branch into the window ends up with exactly the displacement to the new place of the instruction. */
  lemma InsideBranch(env: Env, st: State, j: nat) returns (d: int)
    requires Complete(env, st) && j < |env.code| && KindOf(env.code[j]).BranchImm?
    requires env.Inside(BranchTarget(env.code[j], env.InAddr(j)))
    ensures d == Gap(st, j, env.RefIndex(BranchTarget(env.code[j], env.InAddr(j)))) && -0x2000 <= d < 0x2000
    ensures st.pos[j] == st.starts[j] && st.starts[j + 1] == st.starts[j] + 1 <= |st.words|
    ensures st.words[st.starts[j]] == EncodeBranch(env.code[j], d)
  {
    hide EncodeBranch, KindOf, PlanOf, Patched, BranchTarget, Settled;
    var ins, k, n := env.code[j], st.starts[j], |env.code|;
    var ref := env.RefIndex(BranchTarget(ins, env.InAddr(j)));
    Places(env, st, j, ref);
    BranchPlan(env, j, k, st.pos[..j]);
    d := Gap(st, j, ref);
    if ref > j {
      PatchedWord(st, n, j, EncodeBranch(ins, 0), ref, Imm26);
      PatchedBranch(ins, k, st.pos[ref]);
    } else {
      SingleWord(st, n, j, st.plans[j].words[0]);
    }
  }

  /** A branch out of the window that stays within reach ends up with the displacement to its target. */
  lemma OutsideBranch(env: Env, st: State, j: nat, d: int)
    requires Complete(env, st) && j < |env.code| && KindOf(env.code[j]).BranchImm?
    requires var target := BranchTarget(env.code[j], env.InAddr(j));
      !env.Inside(target) && d == Reach(env, target, st.starts[j]) && Abs(d) < 0x1ff_ffff
    ensures env.OutAddr(st.starts[j]) + 4 * d == BranchTarget(env.code[j], env.InAddr(j))
    ensures st.pos[j] == st.starts[j] && st.starts[j + 1] == st.starts[j] + 1 <= |st.words|
    ensures st.words[st.starts[j]] == EncodeBranch(env.code[j], d)
  {
    hide EncodeBranch, KindOf, PlanOf, Reach, Settled, BranchOffset;
    assert Planned(env, st, j);
    BranchPlan(env, j, st.starts[j], st.pos[..j]);
    ReachExact(env, j, BranchOffset(env.code[j]), st.starts[j]);
    SingleWord(st, |env.code|, j, EncodeBranch(env.code[j], d));
  }

  lemma InsideCond(env: Env, st: State, j: nat, field: Field) returns (d: int)
    requires Complete(env, st) && j < |env.code| && KindOf(env.code[j]) == CondBranch(field) && field in {Imm19, Imm14}
    requires env.Inside(CondTarget(env.code[j], field, env.InAddr(j)))
    ensures d == Gap(st, j, env.RefIndex(CondTarget(env.code[j], field, env.InAddr(j)))) && -0x2000 <= d < 0x2000
    ensures st.pos[j] == st.starts[j] && st.starts[j + 1] == st.starts[j] + 1 <= |st.words|
    ensures st.words[st.starts[j]] == EncodeCond(env.code[j], field, d)
  {
    assert env.RefIndex(CondTarget(env.code[j], field, env.InAddr(j))) >= j;
    hide EncodeCond, KindOf, PlanOf, Patched, CondTarget, Settled;
    var ins, k, n := env.code[j], st.starts[j], |env.code|;
    var ref := env.RefIndex(CondTarget(ins, field, env.InAddr(j)));
    Places(env, st, j, ref);
    CondPlan(env, j, k, st.pos[..j], field);
    d := Gap(st, j, ref);
    if ref > j {
      PatchedWord(st, n, j, EncodeCond(ins, field, 0), ref, field);
      PatchedCond(ins, field, k, st.pos[ref]);
    } else {
      SingleWord(st, n, j, EncodeCond(ins, field, 0));
    }
  }

  lemma OutsideCond(env: Env, st: State, j: nat, field: Field, d: int)
    requires Complete(env, st) && j < |env.code| && KindOf(env.code[j]) == CondBranch(field) && field in {Imm19, Imm14}
    requires var target := CondTarget(env.code[j], field, env.InAddr(j));
      !env.Inside(target) && d == Reach(env, target, st.starts[j]) && Abs(d) < CondLimit(field)
    ensures env.OutAddr(st.starts[j]) + 4 * d == CondTarget(env.code[j], field, env.InAddr(j))
    ensures st.pos[j] == st.starts[j] && st.starts[j + 1] == st.starts[j] + 1 <= |st.words|
    ensures st.words[st.starts[j]] == EncodeCond(env.code[j], field, d)
  {
    ReachExact(env, j, if field == Imm14 then env.code[j] / 32 % 0x4000 else env.code[j] / 32 % 0x8_0000, st.starts[j]);
    hide EncodeCond, KindOf, PlanOf, Reach, Settled, CondTarget;
    assert Planned(env, st, j);
    CondPlan(env, j, st.starts[j], st.pos[..j], field);
    SingleWord(st, |env.code|, j, EncodeCond(env.code[j], field, d));
  }

  // ---------- whole blocks ----------

  /** The finished trampoline. */
  function Row(env: Env, st: State): seq<nat> {
    st.words + Tail(env, |st.words|)
  }

  lemma BlockLies(env: Env, st: State, j: nat)
    requires Complete(env, st) && j < |env.code| && st.plans[j].fix.None?
    ensures Lies(Row(env, st), st.starts[j], st.plans[j].words) && st.starts[j + 1] == st.starts[j] + |st.plans[j].words|
  {
    var ws := st.plans[j].words;
    StartsGrow(st, |env.code|, j + 1, |env.code|);
    forall i | 0 <= i < |ws|
      ensures Row(env, st)[st.starts[j] + i] == ws[i]
    {
      assert WordSettled(st, j, i);
    }
  }

  /** Where the program may be in the trampoline when it would be at address a: at the block or behind its alignment
      words for an instruction of the window, at the jump back for the first instruction behind it, or at a itself. */
  ghost predicate Corresponds(env: Env, st: State, a: int, pc: int)
    requires |st.pos| == |env.code| < |st.starts|
  {
    if env.Inside(a) then AtBlock(env, st, env.RefIndex(a), pc)
    else pc % TWO64 == a % TWO64 || (a == env.InAddr(|env.code|) && pc == env.OutAddr(st.starts[|env.code|]))
  }

  ghost predicate AtBlock(env: Env, st: State, j: nat, pc: int)
    requires j < |st.pos| && j < |st.starts|
  {
    pc == env.OutAddr(st.starts[j]) || pc == env.OutAddr(st.pos[j])
  }
}
