/** Running the trampoline of the 64-bit inline hook: block by block it does what the overwritten window did. */
module A64Runs {
  import opened A64FixMap
  import opened A64Isa
  import opened A64Layout
  import opened A64Meaning
  import opened Options
  import opened Sequences

  /** The far forms of a branch: alignment, then a jump or call through X17. */
  function FarWords(link: bool, target: int): seq<nat> {
    (if link then [LDR_X17_12, ADR_X30_16, BR_X17] else [LDR_X17_8, BR_X17]) + Literal(target)
  }

  lemma FarBranchPlan(env: Env, i: nat, k: nat, pos: seq<nat>) returns (n: nat)
    requires i < |env.code| && |pos| == i && KindOf(env.code[i]).BranchImm?
    requires var target := BranchTarget(env.code[i], env.InAddr(i));
      !env.Inside(target) && Abs(Reach(env, target, k)) >= 0x1ff_ffff
    ensures n == if Aligned8(env, k + 2) == KindOf(env.code[i]).link then 1 else 0
    ensures PlanOf(env, i, k, pos) ==
      Plan(Nops(n) + FarWords(KindOf(env.code[i]).link, BranchTarget(env.code[i], env.InAddr(i))), n, None)
  {
    var link, target := KindOf(env.code[i]).link, BranchTarget(env.code[i], env.InAddr(i));
    hide BranchTarget, EncodeBranch, Literal;
    n := if Aligned8(env, k + 2) == link then 1 else 0;
    hide Aligned8;
    Regroup(Nops(n), if link then [LDR_X17_12, ADR_X30_16, BR_X17] else [LDR_X17_8, BR_X17], Literal(target));
  }

  /** What a far form does from its first word on. */
  lemma FarBranch(row: seq<nat>, base: int, k: nat, link: bool, target: int, s: Cpu, flags: Flags) returns (n: nat)
    requires Lies(row, k, FarWords(link, target)) && s.pc == base + 4 * k
    ensures Run(row, base, s, flags, n).pc == target % TWO64
    ensures Run(row, base, s, flags, n).x30 == if link then base + 4 * (k + |FarWords(link, target)|) else s.x30
  {
    hide Run, Lies;
    if link {
      FarCall(row, base, k, target, s, flags);
      n := 3;
    } else {
      FarJump(row, base, k, target, s, flags);
      n := 2;
    }
  }

  /** Alignment words in front of a block change nothing: it may be entered before or behind them. */
  lemma EnterBlock(row: seq<nat>, base: int, k: nat, n: nat, part: seq<nat>, s: Cpu, flags: Flags, m: nat) returns (m': nat)
    requires n <= 1 && Lies(row, k, Nops(n) + part) && (s.pc == base + 4 * k || s.pc == base + 4 * (k + n))
    ensures Lies(row, k + n, part)
    ensures Run(row, base, s, flags, m') == Run(row, base, s.(pc := base + 4 * (k + n)), flags, m)
  {
    LiesParts(row, k, Nops(n), part);
    if s.pc == base + 4 * (k + n) {
      m' := m;
      assert s.(pc := base + 4 * (k + n)) == s;
    } else {
      m' := n + m;
      OverNops(row, base, k, n, s, flags, m);
    }
  }

  lemma NearBranch(env: Env, st: State, j: nat, d: int, s: Cpu, flags: Flags) returns (n: nat)
    requires Complete(env, st) && j < |env.code| && KindOf(env.code[j]).BranchImm? && AtBlock(env, st, j, s.pc)
    requires st.pos[j] == st.starts[j] && st.starts[j + 1] == st.starts[j] + 1 <= |st.words| && st.words[st.starts[j]] == EncodeBranch(env.code[j], d)
    requires -0x200_0000 <= d < 0x200_0000
    ensures Run(Row(env, st), env.outBase, s, flags, n).pc == env.OutAddr(st.starts[j]) + 4 * d
    ensures Run(Row(env, st), env.outBase, s, flags, n).x30 ==
      if KindOf(env.code[j]).link then env.OutAddr(st.starts[j + 1]) else s.x30
  {
    hide KindOf, Run, EncodeBranch;
    n := 1;
    ExecBranch(Row(env, st), env.outBase, st.starts[j], env.code[j], d, s, flags);
  }

  lemma InsideBranchKept(env: Env, st: State, j: nat, s: Cpu, flags: Flags) returns (n: nat)
    requires Complete(env, st) && j < |env.code| && KindOf(env.code[j]).BranchImm? && AtBlock(env, st, j, s.pc)
    requires env.Inside(BranchTarget(env.code[j], env.InAddr(j)))
    ensures var ref := env.RefIndex(BranchTarget(env.code[j], env.InAddr(j)));
      Run(Row(env, st), env.outBase, s, flags, n).pc == env.OutAddr(st.pos[ref])
    ensures Run(Row(env, st), env.outBase, s, flags, n).x30 ==
      if KindOf(env.code[j]).link then env.OutAddr(st.starts[j + 1]) else s.x30
  {
    hide BranchTarget, KindOf, PlanOf, Run, AtBlock, EncodeBranch, Row;
    var d := InsideBranch(env, st, j);
    n := NearBranch(env, st, j, d, s, flags);
  }

  lemma OutsideBranchKept(env: Env, st: State, j: nat, s: Cpu, flags: Flags) returns (n: nat)
    requires Complete(env, st) && j < |env.code| && KindOf(env.code[j]).BranchImm? && AtBlock(env, st, j, s.pc)
    requires var target := BranchTarget(env.code[j], env.InAddr(j));
      !env.Inside(target) && Abs(Reach(env, target, st.starts[j])) < 0x1ff_ffff
    ensures Run(Row(env, st), env.outBase, s, flags, n).pc == BranchTarget(env.code[j], env.InAddr(j))
    ensures Run(Row(env, st), env.outBase, s, flags, n).x30 ==
      if KindOf(env.code[j]).link then env.OutAddr(st.starts[j + 1]) else s.x30
  {
    hide BranchTarget, KindOf, PlanOf, Run, AtBlock, EncodeBranch, Row, Reach;
    var d := Reach(env, BranchTarget(env.code[j], env.InAddr(j)), st.starts[j]);
    OutsideBranch(env, st, j, d);
    n := NearBranch(env, st, j, d, s, flags);
  }

  lemma FarBranchKept(env: Env, st: State, j: nat, s: Cpu, flags: Flags) returns (n: nat)
    requires Complete(env, st) && j < |env.code| && KindOf(env.code[j]).BranchImm? && AtBlock(env, st, j, s.pc)
    requires var target := BranchTarget(env.code[j], env.InAddr(j));
      !env.Inside(target) && Abs(Reach(env, target, st.starts[j])) >= 0x1ff_ffff
    ensures Run(Row(env, st), env.outBase, s, flags, n).pc == BranchTarget(env.code[j], env.InAddr(j)) % TWO64
    ensures Run(Row(env, st), env.outBase, s, flags, n).x30 ==
      if KindOf(env.code[j]).link then env.OutAddr(st.starts[j + 1]) else s.x30
  {
    hide BranchTarget, KindOf, PlanOf, Run;
    var link, target, k, row := KindOf(env.code[j]).link, BranchTarget(env.code[j], env.InAddr(j)), st.starts[j], Row(env, st);
    assert Planned(env, st, j);
    var lead := FarBranchPlan(env, j, k, st.pos[..j]);
    hide Reach;
    var words := FarWords(link, target);
    assert st.plans[j] == Plan(Nops(lead) + words, lead, None);
    BlockLies(env, st, j);
    hide Complete, Row, FarWords;
    n := EnterFar(row, env.outBase, k, lead, link, target, s, flags);
  }

  lemma EnterFar(row: seq<nat>, base: int, k: nat, lead: nat, link: bool, target: int, s: Cpu, flags: Flags) returns (n: nat)
    requires lead <= 1 && Lies(row, k, Nops(lead) + FarWords(link, target)) && (s.pc == base + 4 * k || s.pc == base + 4 * (k + lead))
    ensures Run(row, base, s, flags, n).pc == target % TWO64
    ensures Run(row, base, s, flags, n).x30 == if link then base + 4 * (k + lead + |FarWords(link, target)|) else s.x30
  {
    hide Lies, Run, FarWords;
    var s1 := s.(pc := base + 4 * (k + lead));
    LiesParts(row, k, Nops(lead), FarWords(link, target));
    n := FarBranch(row, base, k + lead, link, target, s1, flags);
    n := EnterBlock(row, base, k, lead, FarWords(link, target), s, flags, n);
  }

  /** A branch in the trampoline goes where the original went; a call returns to the next block. */
  lemma BranchKept(env: Env, st: State, j: nat, s: Cpu, flags: Flags) returns (n: nat)
    requires Complete(env, st) && j < |env.code| && KindOf(env.code[j]).BranchImm? && AtBlock(env, st, j, s.pc)
    ensures Corresponds(env, st, BranchTarget(env.code[j], env.InAddr(j)), Run(Row(env, st), env.outBase, s, flags, n).pc)
    ensures Run(Row(env, st), env.outBase, s, flags, n).x30 ==
      if KindOf(env.code[j]).link then env.OutAddr(st.starts[j + 1]) else s.x30
  {
    hide BranchTarget, KindOf, PlanOf, Run, Reach, Row;
    var target := BranchTarget(env.code[j], env.InAddr(j));
    if env.Inside(target) {
      n := InsideBranchKept(env, st, j, s, flags);
    } else if Abs(Reach(env, target, st.starts[j])) < 0x1ff_ffff {
      n := OutsideBranchKept(env, st, j, s, flags);
    } else {
      n := FarBranchKept(env, st, j, s, flags);
    }
  }

  // ---------- conditional branches ----------

  /** B.C #0x8; B #0x14; then the far jump */
  function FarCondWords(ins: Word, field: Field, target: int): seq<nat> {
    [EncodeCond(ins, field, 2), 0x1400_0005] + ([LDR_X17_8, BR_X17] + Literal(target))
  }

  lemma FarCondPlan(env: Env, i: nat, k: nat, pos: seq<nat>, field: Field) returns (n: nat)
    requires i < |env.code| && |pos| == i && KindOf(env.code[i]) == CondBranch(field)
    requires var target := CondTarget(env.code[i], field, env.InAddr(i));
      !env.Inside(target) && Abs(Reach(env, target, k)) >= CondLimit(field)
    ensures n == if Aligned8(env, k + 4) then 0 else 1
    ensures PlanOf(env, i, k, pos) ==
      Plan(Nops(n) + FarCondWords(env.code[i], field, CondTarget(env.code[i], field, env.InAddr(i))), n, None)
  {
    var target := CondTarget(env.code[i], field, env.InAddr(i));
    hide CondTarget, EncodeCond, Literal;
    n := if Aligned8(env, k + 4) then 0 else 1;
    hide Aligned8;
    var head, code := EncodeCond(env.code[i], field, 2), [LDR_X17_8, BR_X17];
    assert [head, 0x1400_0005] + code == [head, 0x1400_0005, LDR_X17_8, BR_X17];
    Regroup([head, 0x1400_0005], code, Literal(target));
    Regroup(Nops(n), [head, 0x1400_0005, LDR_X17_8, BR_X17], Literal(target));
  }

  /** The far form of a conditional branch: to the target when the condition holds, else behind the block. */
  lemma FarCond(row: seq<nat>, base: int, k: nat, ins: Word, field: Field, target: int, s: Cpu, flags: Flags) returns (n: nat)
    requires KindOf(ins) == CondBranch(field) && field in {Imm19, Imm14}
    requires Lies(row, k, FarCondWords(ins, field, target)) && s.pc == base + 4 * k
    ensures Run(row, base, s, flags, n).x30 == s.x30
    ensures Run(row, base, s, flags, n).pc == if flags(ConditionOf(ins, field)) then target % TWO64 else base + 4 * (k + 6)
  {
    hide KindOf, EncodeCond, ConditionOf, Literal;
    var code, far := [EncodeCond(ins, field, 2), 0x1400_0005], [LDR_X17_8, BR_X17] + Literal(target);
    LiesParts(row, k, code, far);
    assert row[k + 0] == code[0] && row[k + 1] == code[1];
    ExecCond(row, base, k, ins, 2, s, flags);
    hide Lies;
    var s1 := Run(row, base, s, flags, 1);
    if flags(ConditionOf(ins, field)) {
      FarJump(row, base, k + 2, target, s1, flags);
      n := 1 + 2;
      RunOn(row, base, s, flags, 1, 2);
    } else {
      ExecFixed(row, base, s1, flags);
      n := 1 + 1;
      RunOn(row, base, s, flags, 1, 1);
      OneStep(row, base, s1, flags);
    }
  }

  lemma NearCond(env: Env, st: State, j: nat, field: Field, d: int, s: Cpu, flags: Flags) returns (n: nat)
    requires Complete(env, st) && j < |env.code| && KindOf(env.code[j]) == CondBranch(field) && field in {Imm19, Imm14}
    requires AtBlock(env, st, j, s.pc)
    requires st.pos[j] == st.starts[j] && st.starts[j + 1] == st.starts[j] + 1 <= |st.words| && st.words[st.starts[j]] == EncodeCond(env.code[j], field, d)
    requires if field == Imm14 then -0x2000 <= d < 0x2000 else -0x4_0000 <= d < 0x4_0000
    ensures Run(Row(env, st), env.outBase, s, flags, n).x30 == s.x30
    ensures Run(Row(env, st), env.outBase, s, flags, n).pc ==
      if flags(ConditionOf(env.code[j], field)) then env.OutAddr(st.starts[j]) + 4 * d else env.OutAddr(st.starts[j + 1])
  {
    hide KindOf, Run, EncodeCond, ConditionOf;
    n := 1;
    ExecCond(Row(env, st), env.outBase, st.starts[j], env.code[j], d, s, flags);
  }

  lemma InsideCondKept(env: Env, st: State, j: nat, field: Field, s: Cpu, flags: Flags) returns (n: nat)
    requires Complete(env, st) && j < |env.code| && KindOf(env.code[j]) == CondBranch(field) && field in {Imm19, Imm14}
    requires AtBlock(env, st, j, s.pc) && env.Inside(CondTarget(env.code[j], field, env.InAddr(j)))
    ensures Run(Row(env, st), env.outBase, s, flags, n).x30 == s.x30
    ensures var ref := env.RefIndex(CondTarget(env.code[j], field, env.InAddr(j)));
      Run(Row(env, st), env.outBase, s, flags, n).pc ==
      if flags(ConditionOf(env.code[j], field)) then env.OutAddr(st.pos[ref]) else env.OutAddr(st.starts[j + 1])
  {
    hide CondTarget, KindOf, PlanOf, Run, AtBlock, EncodeCond, Row, ConditionOf;
    var d := InsideCond(env, st, j, field);
    n := NearCond(env, st, j, field, d, s, flags);
  }

  lemma OutsideCondKept(env: Env, st: State, j: nat, field: Field, s: Cpu, flags: Flags) returns (n: nat)
    requires Complete(env, st) && j < |env.code| && KindOf(env.code[j]) == CondBranch(field) && field in {Imm19, Imm14}
    requires AtBlock(env, st, j, s.pc)
    requires var target := CondTarget(env.code[j], field, env.InAddr(j));
      !env.Inside(target) && Abs(Reach(env, target, st.starts[j])) < CondLimit(field)
    ensures Run(Row(env, st), env.outBase, s, flags, n).x30 == s.x30
    ensures Run(Row(env, st), env.outBase, s, flags, n).pc ==
      if flags(ConditionOf(env.code[j], field)) then CondTarget(env.code[j], field, env.InAddr(j)) else env.OutAddr(st.starts[j + 1])
  {
    hide CondTarget, KindOf, PlanOf, Run, AtBlock, EncodeCond, Row, ConditionOf, Reach;
    var d := Reach(env, CondTarget(env.code[j], field, env.InAddr(j)), st.starts[j]);
    OutsideCond(env, st, j, field, d);
    n := NearCond(env, st, j, field, d, s, flags);
  }

  lemma FarCondKept(env: Env, st: State, j: nat, field: Field, s: Cpu, flags: Flags) returns (n: nat)
    requires Complete(env, st) && j < |env.code| && KindOf(env.code[j]) == CondBranch(field) && field in {Imm19, Imm14}
    requires AtBlock(env, st, j, s.pc)
    requires var target := CondTarget(env.code[j], field, env.InAddr(j));
      !env.Inside(target) && Abs(Reach(env, target, st.starts[j])) >= CondLimit(field)
    ensures Run(Row(env, st), env.outBase, s, flags, n).x30 == s.x30
    ensures Run(Row(env, st), env.outBase, s, flags, n).pc ==
      if flags(ConditionOf(env.code[j], field)) then CondTarget(env.code[j], field, env.InAddr(j)) % TWO64
      else env.OutAddr(st.starts[j + 1])
  {
    hide CondTarget, KindOf, PlanOf, Run, ConditionOf;
    var ins, target, k, row := env.code[j], CondTarget(env.code[j], field, env.InAddr(j)), st.starts[j], Row(env, st);
    assert Planned(env, st, j);
    var lead := FarCondPlan(env, j, k, st.pos[..j], field);
    hide Reach;
    var words := FarCondWords(ins, field, target);
    assert st.plans[j] == Plan(Nops(lead) + words, lead, None);
    BlockLies(env, st, j);
    assert |words| == 6;
    hide Complete, Row, FarCondWords;
    LiesParts(row, k, Nops(lead), words);
    n := FarCond(row, env.outBase, k + lead, ins, field, target, s.(pc := env.outBase + 4 * (k + lead)), flags);
    n := EnterBlock(row, env.outBase, k, lead, words, s, flags, n);
  }

  /** A conditional branch in the trampoline tests the same condition; if it holds it goes where the code takes the
      original to go, and otherwise to the next block. */
  lemma CondKept(env: Env, st: State, j: nat, field: Field, s: Cpu, flags: Flags) returns (n: nat)
    requires Complete(env, st) && j < |env.code| && KindOf(env.code[j]) == CondBranch(field) && field in {Imm19, Imm14}
    requires AtBlock(env, st, j, s.pc)
    ensures Run(Row(env, st), env.outBase, s, flags, n).x30 == s.x30
    ensures var pc := Run(Row(env, st), env.outBase, s, flags, n).pc;
      if flags(ConditionOf(env.code[j], field)) then Corresponds(env, st, CondTarget(env.code[j], field, env.InAddr(j)), pc)
      else pc == env.OutAddr(st.starts[j + 1])
  {
    hide CondTarget, KindOf, PlanOf, Run, Reach, Row, ConditionOf;
    var target := CondTarget(env.code[j], field, env.InAddr(j));
    if env.Inside(target) {
      n := InsideCondKept(env, st, j, field, s, flags);
    } else if Abs(Reach(env, target, st.starts[j])) < CondLimit(field) {
      n := OutsideCondKept(env, st, j, field, s, flags);
    } else {
      n := FarCondKept(env, st, j, field, s, flags);
    }
  }

  // ---------- runs ----------

  lemma TailForm(env: Env, k: nat) returns (n: nat)
    ensures n <= 1
    ensures var callback := env.InAddr(|env.code|); var off := Reach(env, callback, k);
      Tail(env, k) ==
      if Abs(off) >= 0x1ff_ffff then Nops(n) + FarWords(false, callback) else [EncodeBranch(0x1400_0000, off)]
  {
    n := if Aligned8(env, k + 2) then 0 else 1;
    assert 0x1400_0000 / 0x400_0000 * 0x400_0000 == 0x1400_0000;
    hide Aligned8, Literal;
    Regroup(Nops(n), [LDR_X17_8, BR_X17], Literal(env.InAddr(|env.code|)));
  }

  lemma TailLies(env: Env, st: State)
    requires Complete(env, st)
    ensures Lies(Row(env, st), st.starts[|env.code|], Tail(env, st.starts[|env.code|]))
  {
    hide Tail;
    var k := st.starts[|env.code|];
    assert |st.words| == k;
    assert forall i :: 0 <= i < |Tail(env, k)| ==> Row(env, st)[k + i] == Tail(env, k)[i];
  }

  lemma RunTail(env: Env, row: seq<nat>, k: nat, s: Cpu, flags: Flags) returns (n: nat)
    requires env.Valid() && Lies(row, k, Tail(env, k)) && s.pc == env.OutAddr(k)
    ensures Run(row, env.outBase, s, flags, n).pc % TWO64 == env.InAddr(|env.code|) % TWO64
    ensures Run(row, env.outBase, s, flags, n).x30 == s.x30
  {
    var lead := TailForm(env, k);
    ReachExact(env, |env.code|, 0, k);
    hide Run, Lies, Reach, Tail, FarWords, EncodeBranch;
    var callback := env.InAddr(|env.code|);
    var off := Reach(env, callback, k);
    if Abs(off) >= 0x1ff_ffff {
      n := EnterFar(row, env.outBase, k, lead, false, callback, s, flags);
    } else {
      n := TailBranch(env, row, k, off, s, flags);
    }
  }

  /** Behind the last block the trampoline continues behind the window. */
  lemma TailKept(env: Env, st: State, s: Cpu, flags: Flags) returns (n: nat)
    requires Complete(env, st) && s.pc == env.OutAddr(st.starts[|env.code|])
    ensures Run(Row(env, st), env.outBase, s, flags, n).pc % TWO64 == env.InAddr(|env.code|) % TWO64
    ensures Run(Row(env, st), env.outBase, s, flags, n).x30 == s.x30
  {
    hide Tail, Run, Lies, Row;
    TailLies(env, st);
    n := RunTail(env, Row(env, st), st.starts[|env.code|], s, flags);
  }

  lemma TailBranch(env: Env, row: seq<nat>, k: nat, off: int, s: Cpu, flags: Flags) returns (n: nat)
    requires Lies(row, k, [EncodeBranch(0x1400_0000, off)]) && s.pc == env.OutAddr(k) && -0x1ff_ffff <= off <= 0x1ff_ffff
    ensures Run(row, env.outBase, s, flags, n).pc == env.OutAddr(k) + 4 * off
    ensures Run(row, env.outBase, s, flags, n).x30 == s.x30
  {
    hide EncodeBranch, Run;
    n := 1;
    var part := [EncodeBranch(0x1400_0000, off)];
    assert row[k + 0] == part[0];
    assert KindOf(0x1400_0000) == BranchImm(false);
    hide KindOf;
    ExecBranch(row, env.outBase, k, 0x1400_0000, off, s, flags);
  }

  predicate IsConditional(ins: Word) {
    IsBranchIf(ins) || IsCompare(ins) || IsTest(ins)
  }

  /** The displacement of a conditional branch, in words. */
  function BranchesBy(ins: Word): int {
    if IsTest(ins) then Offset14(ins) else Offset19(ins)
  }

  /** The instructions whose meaning the hook keeps: direct branches, conditional branches that do not go backwards,
      prefetches, and instructions that do not depend on where they are and do not branch to a register. */
  predicate Supported(ins: Word) {
    || IsBranch(ins) || IsCall(ins) || (IsConditional(ins) && BranchesBy(ins) >= 0) || IsPrefetch(ins)
    || !(IsConditional(ins) || IsLiteral(ins) || IsAdr(ins) || IsAdrp(ins) || IsRegisterBranch(ins))
  }

  /** What the hook takes them for. */
  lemma SupportedKinds(ins: Word)
    requires Supported(ins)
    ensures match KindOf(ins)
      case BranchImm(_) => true
      case CondBranch(field) => field in {Imm19, Imm14} && CondOffset(ins, field) >= 0
      case Plain => IsPlain(ins)
      case Prefetch => IsPrefetch(ins)
      case _ => false
  {
    KindAgrees(ins);
    KindFields(ins);
    hide KindOf, IsBranch, IsCall, IsBranchIf, IsCompare, IsTest, IsLiteral, IsAdr, IsAdrp, IsRegisterBranch, Offset14, Offset19;
  }

  /** Instructions that only move on. */
  predicate IsPlain(ins: Word) {
    !(IsBranch(ins) || IsCall(ins) || IsConditional(ins) || IsLiteral(ins) || IsAdr(ins) || IsAdrp(ins) || IsRegisterBranch(ins))
  }

  /** A prefetch only moves on. */
  lemma PrefetchMoves(words: seq<nat>, base: int, s: Cpu, flags: Flags)
    requires InRow(words, base, s.pc) && words[(s.pc - base) / 4] < 0x1_0000_0000 && IsPrefetch(words[(s.pc - base) / 4])
    ensures Exec(words, base, s, flags) == s.(pc := s.pc + 4)
  {
    var w: Word := words[(s.pc - base) / 4];
    KindAgrees(w);
    assert !IsPrefetch(BR_X17);
    OneOpcode(w);
    hide KindOf, IsBranch, IsCall, IsBranchIf, IsCompare, IsTest, IsLiteral, IsPrefetch, IsLoadX, IsAdr, IsAdrp;
  }

  lemma OneOpcode(w: nat)
    ensures !(IsLoadX(w) && IsPrefetch(w))
  {
  }

  lemma PlainMoves(words: seq<nat>, base: int, s: Cpu, flags: Flags)
    requires InRow(words, base, s.pc) && words[(s.pc - base) / 4] < 0x1_0000_0000 && IsPlain(words[(s.pc - base) / 4])
    ensures Exec(words, base, s, flags) == s.(pc := s.pc + 4)
  {
    hide IsBranch, IsCall, IsBranchIf, IsCompare, IsTest, IsLiteral, IsPrefetch, IsAdr, IsAdrp;
  }

  /** The link register holds the same value, or the two places behind the same instruction. */
  ghost predicate LinkMatches(env: Env, st: State, here: int, there: int)
    requires |st.starts| == |env.code| + 1
  {
    there == here || exists i :: 0 < i <= |env.code| && here == env.InAddr(i) && there == env.OutAddr(st.starts[i])
  }

  /** The two machines agree: on the place in the program and on the link register. */
  ghost predicate Agree(env: Env, st: State, o: Cpu, s: Cpu)
    requires |st.pos| == |env.code| && |st.starts| == |env.code| + 1
  {
    Corresponds(env, st, o.pc, s.pc) && LinkMatches(env, st, o.x30, s.x30)
  }

  lemma PlainKept(env: Env, st: State, j: nat, s: Cpu, flags: Flags) returns (n: nat)
    requires Complete(env, st) && j < |env.code| && KindOf(env.code[j]) == Plain && IsPlain(env.code[j])
    requires AtBlock(env, st, j, s.pc)
    ensures n == 1 && st.starts[j] < |st.words| && st.words[st.starts[j]] == env.code[j]
    ensures Run(Row(env, st), env.outBase, s, flags, n) == s.(pc := env.OutAddr(st.starts[j + 1]))
  {
    assert Planned(env, st, j);
    assert PlanOf(env, j, st.starts[j], st.pos[..j]) == Plan([env.code[j]], 0, None);
    hide PlanOf, Exec, IsPlain, KindOf;
    SingleWord(st, |env.code|, j, env.code[j]);
    n := 1;
    OneStep(Row(env, st), env.outBase, s, flags);
    hide Run, Complete;
    PlainMoves(Row(env, st), env.outBase, s, flags);
  }

  lemma FallsThrough(env: Env, st: State, j: nat)
    requires Complete(env, st) && j < |env.code|
    ensures Corresponds(env, st, env.InAddr(j + 1), env.OutAddr(st.starts[j + 1]))
    ensures LinkMatches(env, st, env.InAddr(j + 1), env.OutAddr(st.starts[j + 1]))
  {
  }

  /** One instruction of the window against its block. */
  lemma StepKept(env: Env, st: State, o: Cpu, s: Cpu, flags: Flags) returns (n: nat)
    requires Complete(env, st) && InRow(env.code, env.basep, o.pc) && Supported(env.code[env.RefIndex(o.pc)])
    requires Agree(env, st, o, s)
    ensures Agree(env, st, Exec(env.code, env.basep, o, flags), Run(Row(env, st), env.outBase, s, flags, n))
  {
    var j := env.RefIndex(o.pc);
    assert o.pc == env.InAddr(j);
    FallsThrough(env, st, j);
    SupportedKinds(env.code[j]);
    hide Exec, Run, KindOf, CondOffset, IsPlain, Supported;
    match KindOf(env.code[j])
    case BranchImm(_) =>
      n := StepBranch(env, st, j, o, s, flags);
    case CondBranch(field) =>
      n := StepCond(env, st, j, field, o, s, flags);
    case Plain =>
      n := StepPlain(env, st, j, o, s, flags);
    case Prefetch =>
      n := StepPrefetch(env, st, j, o, s, flags);
  }

  /** A prefetch has no block. */
  lemma StepPrefetch(env: Env, st: State, j: nat, o: Cpu, s: Cpu, flags: Flags) returns (n: nat)
    requires Complete(env, st) && j < |env.code| && o.pc == env.InAddr(j)
    requires KindOf(env.code[j]) == Prefetch && IsPrefetch(env.code[j])
    requires Agree(env, st, o, s)
    ensures Agree(env, st, Exec(env.code, env.basep, o, flags), Run(Row(env, st), env.outBase, s, flags, n))
  {
    FallsThrough(env, st, j);
    assert PlanOf(env, j, st.starts[j], st.pos[..j]) == Plan([], 0, None);
    hide KindOf, Exec, Row, IsPrefetch, PlanOf;
    assert Planned(env, st, j);
    assert st.starts[j + 1] == st.starts[j] == st.pos[j];
    hide Complete;
    PrefetchMoves(env.code, env.basep, o, flags);
    n := 0;
  }

  lemma StepBranch(env: Env, st: State, j: nat, o: Cpu, s: Cpu, flags: Flags) returns (n: nat)
    requires Complete(env, st) && j < |env.code| && o.pc == env.InAddr(j) && KindOf(env.code[j]).BranchImm?
    requires Agree(env, st, o, s)
    ensures Agree(env, st, Exec(env.code, env.basep, o, flags), Run(Row(env, st), env.outBase, s, flags, n))
  {
    FallsThrough(env, st, j);
    assert Exec(env.code, env.basep, o, flags) ==
      Cpu(BranchTarget(env.code[j], o.pc), o.x17, if KindOf(env.code[j]).link then env.InAddr(j + 1) else o.x30) by {
      KindAgrees(env.code[j]);
      hide KindOf, IsCall, IsBranch;
      assert !IsBranch(BR_X17) && !IsCall(BR_X17);
    }
    hide KindOf, Exec, Run, BranchTarget, Complete, Row;
    n := BranchKept(env, st, j, s, flags);
  }

  lemma StepCond(env: Env, st: State, j: nat, field: Field, o: Cpu, s: Cpu, flags: Flags) returns (n: nat)
    requires Complete(env, st) && j < |env.code| && o.pc == env.InAddr(j)
    requires KindOf(env.code[j]) == CondBranch(field) && CondOffset(env.code[j], field) >= 0
    requires Agree(env, st, o, s)
    ensures Agree(env, st, Exec(env.code, env.basep, o, flags), Run(Row(env, st), env.outBase, s, flags, n))
  {
    FallsThrough(env, st, j);
    OriginalCond(env, j, field, o, flags);
    hide KindOf, Exec, Run, CondTarget, CondOffset, ConditionOf, Complete, Row;
    n := CondKept(env, st, j, field, s, flags);
  }

  lemma OriginalCond(env: Env, j: nat, field: Field, o: Cpu, flags: Flags)
    requires j < |env.code| && o.pc == env.InAddr(j)
    requires KindOf(env.code[j]) == CondBranch(field) && CondOffset(env.code[j], field) >= 0
    ensures field in {Imm19, Imm14}
    ensures Exec(env.code, env.basep, o, flags) ==
      o.(pc := if flags(ConditionOf(env.code[j], field)) then CondTarget(env.code[j], field, env.InAddr(j)) else env.InAddr(j + 1))
  {
    CondTargetExact(env.code[j], o.pc);
    KindFields(env.code[j]);
    KindAgrees(env.code[j]);
    KindAgrees(BR_X17);
    assert KindOf(BR_X17) == Plain;
    hide KindOf, ConditionOf, CondTarget, Offset19, Offset14, IsBranch, IsCall, IsBranchIf, IsCompare, IsTest;
  }

  lemma KindFields(ins: Word)
    ensures KindOf(ins).CondBranch? ==> KindOf(ins).field in {Imm19, Imm14}
  {
  }

  lemma StepPlain(env: Env, st: State, j: nat, o: Cpu, s: Cpu, flags: Flags) returns (n: nat)
    requires Complete(env, st) && j < |env.code| && o.pc == env.InAddr(j)
    requires KindOf(env.code[j]) == Plain && IsPlain(env.code[j])
    requires Agree(env, st, o, s)
    ensures Agree(env, st, Exec(env.code, env.basep, o, flags), Run(Row(env, st), env.outBase, s, flags, n))
  {
    FallsThrough(env, st, j);
    hide KindOf, Exec, Run, Complete, Row, IsPlain;
    PlainMoves(env.code, env.basep, o, flags);
    n := PlainKept(env, st, j, s, flags);
  }

  lemma StaysAligned(env: Env, o: Cpu, flags: Flags)
    requires env.Valid() && InRow(env.code, env.basep, o.pc) && Supported(env.code[env.RefIndex(o.pc)])
    ensures Exec(env.code, env.basep, o, flags).pc % 4 == 0
  {
    var w := env.code[env.RefIndex(o.pc)];
    Fours(env.basep, o.pc - env.basep);
    StepFour(o.pc, 1);
    StepFour(o.pc, Offset26(w));
    StepFour(o.pc, Offset19(w));
    StepFour(o.pc, Offset14(w));
    assert IsRegisterBranch(BR_X17) && !IsBranch(BR_X17) && !IsCall(BR_X17) && !IsConditional(BR_X17);
    if IsPrefetch(w) {
      PrefetchMoves(env.code, env.basep, o, flags);
    }
    hide Offset26, Offset19, Offset14, ConditionOf, IsBranch, IsCall, IsBranchIf, IsCompare, IsTest, IsLiteral, IsPrefetch, IsAdr, IsAdrp, IsRegisterBranch;
  }

  lemma StepFour(a: int, q: int)
    requires a % 4 == 0
    ensures (a + 4 * q) % 4 == 0
  {
  }

  lemma Fours(a: int, b: int)
    requires a % 4 == 0 && b % 4 == 0
    ensures (a + b) % 4 == 0
  {
  }

  ghost predicate Reaches(row: seq<nat>, base: int, s: Cpu, flags: Flags, s': Cpu) {
    exists n: nat :: Run(row, base, s, flags, n) == s'
  }

  /** The trampoline can go from s to s' while the conditions are in turn those of fs. */
  ghost predicate Follows(row: seq<nat>, base: int, s: Cpu, fs: seq<Flags>, s': Cpu)
    decreases |fs|
  {
    s == s' || (fs != [] && exists m :: Reaches(row, base, s, fs[0], m) && Follows(row, base, m, fs[1..], s'))
  }

  /** The window itself, one instruction for each state of the conditions, until it is left. */
  function Original(env: Env, o: Cpu, fs: seq<Flags>): Cpu
    decreases |fs|
  {
    if fs == [] || !InRow(env.code, env.basep, o.pc) then o
    else Original(env, Exec(env.code, env.basep, o, fs[0]), fs[1..])
  }

  /** Every run of a supported window has a run of the trampoline that ends at the corresponding place, whatever the
      conditions are along the way. */
  lemma {:induction false} RunKept(env: Env, st: State, o: Cpu, s: Cpu, fs: seq<Flags>) returns (s': Cpu)
    requires Complete(env, st) && Agree(env, st, o, s) && o.pc % 4 == 0
    requires forall i :: 0 <= i < |env.code| ==> Supported(env.code[i])
    ensures Follows(Row(env, st), env.outBase, s, fs, s') && Agree(env, st, Original(env, o, fs), s')
    decreases |fs|
  {
    hide Supported, Exec, Run, Row, Agree;
    if fs == [] || !InRow(env.code, env.basep, o.pc) {
      s' := s;
    } else {
      var n := StepKept(env, st, o, s, fs[0]);
      StaysAligned(env, o, fs[0]);
      var m := Run(Row(env, st), env.outBase, s, fs[0], n);
      s' := RunKept(env, st, Exec(env.code, env.basep, o, fs[0]), m, fs[1..]);
      assert Reaches(Row(env, st), env.outBase, s, fs[0], m);
    }
  }

  // ---------- sizes and literals ----------

  /** Every trampoline fits its row, whatever the instructions and wherever the row and the window are. */
  lemma RowFits(env: Env, st: State)
    requires Complete(env, st)
    ensures |Row(env, st)| <= ROW_WORDS
  {
    Extent(env, st, |env.code|, |env.code|);
  }

  /** Is every literal of the block p, put at word k, on a boundary of its own size? The literals are the last two
      words of a long block, and all words behind the first two of a copied load. */
  predicate LiteralsAligned(env: Env, kind: Kind, p: Plan, k: nat) {
    if kind.LoadLiteral? then
      |p.words| > p.lead + 1 ==>
        |p.words| == p.lead + 2 + (kind.align + 1) / 4 && SlotAligned(env.OutAddr(k + p.lead + 2), kind.align)
    else |p.words| > 2 ==> |p.words| >= p.lead + 4 && Aligned8(env, k + |p.words| - 2)
  }

  lemma BlockAligned(env: Env, i: nat, k: nat, pos: seq<nat>)
    requires env.Valid() && i < |env.code| && |pos| == i
    ensures LiteralsAligned(env, KindOf(env.code[i]), PlanOf(env, i, k, pos), k)
  {
    hide KindOf, PlanBranch, PlanCond, PlanLiteral, PlanAdr, PlanAdrp;
    match KindOf(env.code[i])
    case BranchImm(_) => BranchAligned(env, i, k, pos);
    case CondBranch(field) => CondAligned(env, i, k, field);
    case Prefetch =>
    case LoadLiteral(align, keep) => LoadMasksAligned(env.code[i]); CopyAligned(env, i, k, align, keep);
    case Adr => AdrAligned(env, i, k);
    case Adrp => AdrAligned(env, i, k);
    case Plain =>
  }

  lemma LoadMasksAligned(ins: Word)
    requires KindOf(ins).LoadLiteral?
    ensures KindOf(ins).align in {3, 7, 15}
  {
  }

  /** The last two words of a long block are on a boundary of eight bytes. */
  predicate EndAligned(env: Env, p: Plan, k: nat) {
    |p.words| > 2 ==> |p.words| >= p.lead + 4 && Aligned8(env, k + |p.words| - 2)
  }

  lemma BranchAligned(env: Env, i: nat, k: nat, pos: seq<nat>)
    requires env.Valid() && i < |env.code| && |pos| == i && KindOf(env.code[i]).BranchImm?
    ensures EndAligned(env, PlanBranch(env, i, k, pos), k)
  {
    hide KindOf, BranchTarget, EncodeBranch, Reach, Literal, Aligned8;
    NextAligned(env, k + 2);
  }

  lemma CondAligned(env: Env, i: nat, k: nat, field: Field)
    requires env.Valid() && i < |env.code|
    ensures EndAligned(env, PlanCond(env, i, k, field), k)
  {
    hide CondTarget, EncodeCond, Reach, Literal, Aligned8;
    NextAligned(env, k + 4);
  }

  lemma AdrAligned(env: Env, i: nat, k: nat)
    requires env.Valid() && i < |env.code|
    ensures EndAligned(env, PlanAdr(env, i, k), k) && EndAligned(env, PlanAdrp(env, i, k), k)
  {
    hide AdrTarget, AdrpTarget, KeepEnds, Aligned8, AddressWords;
    NextAligned(env, k + 2);
  }

  lemma NextAligned(env: Env, k: nat)
    requires env.outBase % 4 == 0
    ensures Aligned8(env, k) <==> !Aligned8(env, k + 1)
    ensures Aligned8(env, k) <==> Aligned8(env, k + 2)
  {
  }

  lemma CopyAligned(env: Env, i: nat, k: nat, align: nat, keep: nat)
    requires env.Valid() && i < |env.code| && align in {3, 7, 15}
    ensures LiteralsAligned(env, LoadLiteral(align, keep), PlanLiteral(env, i, k, align, keep), k)
  {
    hide LiteralTarget, LiteralField, Reach, KeepEnds;
    var a := env.OutAddr(k + 2);
    PadStep(a, align, 0);
    PadStep(a, align, Padding(a, align));
    hide Padding, SlotAligned, LiteralFar, Misfit, CopyWords;
  }

  /** Every literal in the finished row, that of the jump back included, is on a boundary of its own size. */
  lemma AllAligned(env: Env, st: State)
    requires Complete(env, st)
    ensures forall j :: 0 <= j < |env.code| ==> LiteralsAligned(env, KindOf(env.code[j]), st.plans[j], st.starts[j])
    ensures var tail := Tail(env, |st.words|); |tail| > 1 ==> Aligned8(env, |st.words| + |tail| - 2)
  {
    forall j | 0 <= j < |env.code|
      ensures LiteralsAligned(env, KindOf(env.code[j]), st.plans[j], st.starts[j])
    {
      hide KindOf, PlanOf, LiteralsAligned;
      assert Planned(env, st, j);
      BlockAligned(env, j, st.starts[j], st.pos[..j]);
    }
    NextAligned(env, |st.words| + 2);
  }
}
