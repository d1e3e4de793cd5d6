/** The passes of the 64-bit inline hook over the overwritten window, on the row of words they fill. */
module A64Hook {
  import opened A64FixMap
  import opened A64Isa
  import opened A64Layout
  import opened A64Meaning
  import opened A64Runs
  import opened Bits
  import opened Buffers
  import opened Options
  import opened Sequences

  lemma {:induction false} PatchAllPrefix(words: seq<nat>, fs: seq<Fix>, pos: nat, k: nat)
    requires k <= |words| && forall f :: f in fs ==> f.bp < k
    ensures PatchAll(words, fs, pos)[..k] == PatchAll(words[..k], fs, pos)
    ensures PatchAll(words, fs, pos)[k..] == words[k..]
  {
    hide Patched;
    if fs != [] {
      PatchAllPrefix(words, fs[..|fs| - 1], pos, k);
    }
  }

  lemma {:induction false} WaitingBehind(env: Env, st: State, n: nat, m: nat, r: nat)
    requires Done(env, st, n) && m <= n
    ensures forall f :: f in Waiting(st.plans[..m], r) ==> f.bp < st.starts[n]
    ensures |Waiting(st.plans[..m], r)| <= m
  {
    if m > 0 {
      WaitingBehind(env, st, n, m - 1, r);
      assert st.plans[..m][..m - 1] == st.plans[..m - 1];
      StartsGrow(st, n, m - 1, n);
    }
  }

  /** The state after one more instruction. */
  function After(env: Env, st: State): State
    requires |st.plans| < |env.code| && |st.pos| == |st.plans| && |st.plans| < |st.fixes| && |st.plans| < |st.starts|
  {
    Next(st, PlanOf(env, |st.plans|, st.starts[|st.plans|], st.pos))
  }

  lemma AfterDone(env: Env, st: State, n: nat)
    requires Done(env, st, n) && n < |env.code|
    ensures Done(env, After(env, st), n + 1)
  {
    hide PlanOf;
    var p, st' := PlanOf(env, n, st.starts[n], st.pos), After(env, st);
    NextBuilt(st, n, p);
    hide Built;
    forall j | 0 <= j < n + 1
      ensures Planned(env, st', j)
    {
      if j < n {
        assert Planned(env, st, j);
      }
      assert st'.pos[..j] == st.pos[..j];
    }
  }

  lemma WaitingInRow(env: Env, st: State)
    requires Done(env, st, |st.plans|) && |st.plans| < |env.code|
    ensures forall f :: f in st.fixes[|st.plans|] ==> f.bp < |st.words|
  {
    WaitingBehind(env, st, |st.plans|, |st.plans|, |st.plans|);
    assert st.plans[..|st.plans|] == st.plans;
  }

  lemma Room(env: Env, st: State)
    requires Done(env, st, |st.plans|) && |st.plans| < |env.code|
    ensures |st.pos| == |st.plans| < MAX_INSTRUCTIONS && |st.starts| == |st.plans| + 1 && |st.fixes| == MAX_INSTRUCTIONS
    ensures |st.words| == st.starts[|st.plans|] <= 9 * |st.plans| <= 36
    ensures forall r :: |st.plans| <= r < MAX_INSTRUCTIONS ==> |st.fixes[r]| <= |st.plans|
  {
    hide Planned;
    Extent(env, st, |st.plans|, |st.plans|);
  }

  /** When the words of the next block are behind the others in the row, patching the row completes the next state. */
  lemma AfterWords(env: Env, st: State, row: seq<nat>, outp: nat)
    requires Done(env, st, |st.plans|) && |st.plans| < |env.code| && outp <= |row|
    requires row[..outp] == st.words + PlanOf(env, |st.plans|, st.starts[|st.plans|], st.pos).words
    ensures |After(env, st).words| == outp && forall f :: f in st.fixes[|st.plans|] ==> f.bp < |row|
    ensures var pos := st.starts[|st.plans|] + PlanOf(env, |st.plans|, st.starts[|st.plans|], st.pos).lead;
      PatchAll(row, st.fixes[|st.plans|], pos)[..outp] == After(env, st).words
  {
    hide PlanOf;
    WaitingInRow(env, st);
    hide Done, PatchAll, Enlisted;
    var pos := st.starts[|st.plans|] + PlanOf(env, |st.plans|, st.starts[|st.plans|], st.pos).lead;
    PatchAllPrefix(row, st.fixes[|st.plans|], pos, outp);
  }

  lemma CopyStep(env: Env, outp: nat, align: nat, n: nat)
    requires env.outBase % 4 == 0 && align in {3, 7, 15} && n <= Padding(env.OutAddr(outp + 2), align)
    ensures Padding(env.OutAddr(outp + 2), align) <= 3
    ensures !SlotAligned(env.OutAddr(outp + n + 2), align) <==> n < Padding(env.OutAddr(outp + 2), align)
  {
    hide Padding, SlotAligned;
    assert env.OutAddr(outp + n + 2) == env.OutAddr(outp + 2) + 4 * n;
    PadStep(env.OutAddr(outp + 2), align, n);
  }

  lemma OffsetStep(env: Env, a: int, outp: nat, align: nat, n: nat)
    requires align in {3, 7, 15} && n <= Misfit(Reach(env, a, outp), align)
    ensures Misfit(Reach(env, a, outp), align) <= 3
    ensures Reach(env, a, outp + n) == Reach(env, a, outp) - n
    ensures Misfit(Reach(env, a, outp + n), align) != 0 <==> n < Misfit(Reach(env, a, outp), align)
  {
  }

  lemma LiteralAligned(env: Env, i: nat)
    requires env.Valid() && i < |env.code|
    ensures LiteralTarget(env.code[i], env.InAddr(i)) % 4 == 0
  {
    hide Imm19Bytes;
  }

  /** B and BL by their opcode. */
  lemma BranchOpcode(w: Word)
    ensures var (opc, kind) := (w / 0x400_0000, KindOf(w));
      && (opc == 5 || opc == 0x25 <==> kind.BranchImm?) && (kind.BranchImm? ==> kind.link == (opc == 0x25))
      && (opc == 5 || opc == 0x25 <==> IsBranch(w) || IsCall(w))
  {
    TopFields(w);
  }

  /** Conditional branches by the highest byte and bit 4. */
  lemma CondOpcode(w: Word)
    ensures var (top, bit4) := (Top(w), Bit4Of(w));
      var (wide, short) := ((top == 0x54 && bit4 == 0) || top % 0x80 == 0x34 || top % 0x80 == 0x35, top % 0x80 == 0x36 || top % 0x80 == 0x37);
      && (wide <==> KindOf(w) == CondBranch(Imm19)) && (!wide && short <==> KindOf(w) == CondBranch(Imm14))
      && (wide || short <==> IsBranchIf(w) || IsCompare(w) || IsTest(w))
  {
    KindAgrees(w);
    hide IsBranchIf, IsCompare, IsTest, Top, Bit4Of;
  }

  lemma LiteralKinds(w: Word)
    ensures IsLiteral(w) <==> KindOf(w).Prefetch? || KindOf(w).LoadLiteral?
  {
    KindAgrees(w);
    assert IsPrefetch(w) ==> IsLiteral(w);
    hide KindOf, IsLiteral, IsPrefetch;
  }

  lemma AdrAhead(env: Env, i: nat)
    requires i < |env.code|
    ensures AdrTarget(env.code[i], env.InAddr(i)) >= env.InAddr(i)
  {
    hide Imm19Bytes;
  }

  lemma CondAhead(env: Env, i: nat, field: Field)
    requires i < |env.code|
    ensures CondTarget(env.code[i], field, env.InAddr(i)) >= env.InAddr(i)
  {
  }

  /** The context of one relocation: where the window is, where each instruction has been put, and for each
      instruction a table of the words that wait for it. Places are counted in words of the row. */
  class Context {
    const basep: int
    const endp: int
    const ins: array<nat>
    const fmap: array2<Option<Fix>>
    ghost var fixes: seq<seq<Fix>>

    ghost predicate Valid()
      reads this, ins, fmap
    {
      && ins.Length == MAX_INSTRUCTIONS && fmap.Length0 == MAX_INSTRUCTIONS && fmap.Length1 == MAX_REFERENCES
      && |fixes| == MAX_INSTRUCTIONS
      && forall r :: 0 <= r < MAX_INSTRUCTIONS ==> Table(r)
    }

    /** The slots in use come first. */
    ghost predicate Table(r: nat)
      requires r < |fixes| && r < fmap.Length0 && fmap.Length1 == MAX_REFERENCES
      reads this, fmap
    {
      && |fixes[r]| <= MAX_REFERENCES
      && forall k :: 0 <= k < MAX_REFERENCES ==> fmap[r, k] == if k < |fixes[r]| then Some(fixes[r][k]) else None
    }

    constructor (env: Env)
      ensures Valid() && basep == env.basep && endp == env.basep + 4 * |env.code| && fixes == [[], [], [], [], []]
      ensures fresh(ins) && fresh(fmap)
    {
      basep := env.basep;
      endp := env.basep + 4 * |env.code|;
      ins := new nat[MAX_INSTRUCTIONS](_ => 0);
      fmap := new Option<Fix>[MAX_INSTRUCTIONS, MAX_REFERENCES]((_, _) => None);
      fixes := [[], [], [], [], []];
    }

    predicate InFixingRange(a: int) {
      basep <= a < endp
    }

    function RefInsIndex(a: int): int {
      (a - basep) / 4
    }

    /** Enters f into the first free slot of instruction idx; a full table is left as it is. */
    method InsertFixMap(idx: nat, f: Fix)
      requires Valid() && idx < MAX_INSTRUCTIONS
      modifies this`fixes, fmap
      ensures Valid()
      ensures fixes == if old(|fixes[idx]|) < MAX_REFERENCES then old(fixes)[idx := old(fixes[idx]) + [f]] else old(fixes)
    {
      for k := 0 to MAX_REFERENCES
        invariant Valid() && fixes == old(fixes) && k <= |fixes[idx]|
      {
        assert Table(idx);
        if fmap[idx, k] == None {
          fmap[idx, k] := Some(f);
          fixes := fixes[idx := fixes[idx] + [f]];
          forall r | 0 <= r < MAX_INSTRUCTIONS
            ensures Table(r)
          {
            if r != idx {
              assert old(Table(r));
            }
          }
          return;
        }
      }
    }

    /** Fills the field of every word that waits for instruction idx, which has its place, and empties the table. */
    method ProcessFixMap(idx: nat, row: array<nat>)
      requires Valid() && idx < MAX_INSTRUCTIONS && row != ins
      requires forall f :: f in fixes[idx] ==> f.bp < row.Length
      modifies this`fixes, fmap, row
      ensures Valid() && fixes == old(fixes)[idx := []]
      ensures row[..] == PatchAll(old(row[..]), old(fixes[idx]), ins[idx])
    {
      hide Patched;
      ghost var fs, words := fixes[idx], row[..];
      assert Table(idx);
      var k := 0;
      while k < MAX_REFERENCES && fmap[idx, k].Some?
        invariant fixes == old(fixes)
        invariant k <= |fs| <= MAX_REFERENCES && row[..] == PatchAll(words, fs[..k], ins[idx])
        invariant forall i :: 0 <= i < MAX_REFERENCES ==>
          fmap[idx, i] == if k <= i < |fs| then Some(fs[i]) else None
        invariant forall r, i :: 0 <= r < MAX_INSTRUCTIONS && r != idx && 0 <= i < MAX_REFERENCES ==> fmap[r, i] == old(fmap[r, i])
      {
        var f := fmap[idx, k].value;
        assert f in fs && fs[..k + 1][..k] == fs[..k];
        row[f.bp] := Patched(row[f.bp], f, ins[idx]);
        fmap[idx, k] := None;
        k := k + 1;
      }
      assert fs[..k] == fs;
      fixes := fixes[idx := []];
      forall r | 0 <= r < MAX_INSTRUCTIONS
        ensures Table(r)
      {
        if r != idx {
          assert old(Table(r));
        }
      }
    }

    /** The first |st.plans| instructions are in place as st says. */
    ghost predicate Holds(env: Env, st: State, row: array<nat>, outp: nat)
      reads this, ins, fmap, row
    {
      && Valid() && Done(env, st, |st.plans|) && basep == env.basep && endp == env.basep + 4 * |env.code|
      && row != ins && row.Length >= ROW_WORDS && fixes == st.fixes
      && outp == |st.words| && outp <= row.Length && row[..outp] == st.words
      && forall i :: 0 <= i < |st.pos| ==> ins[i] == st.pos[i]
    }

    /** The next block, as p says, is written behind the others; what waits for it is not patched yet. */
    ghost predicate Ready(env: Env, st: State, p: Plan, row: array<nat>, outp: nat)
      reads this, ins, fmap, row
    {
      && Valid() && basep == env.basep && endp == env.basep + 4 * |env.code|
      && row != ins && row.Length >= ROW_WORDS && outp <= row.Length && row[..outp] == st.words + p.words
      && |st.pos| == |st.plans| < MAX_INSTRUCTIONS && |st.plans| < |st.starts| && fixes == Enlisted(st.fixes, p)
      && ins[|st.plans|] == st.starts[|st.plans|] + p.lead
      && forall i :: 0 <= i < |st.pos| ==> ins[i] == st.pos[i]
    }

    /** The words of the next block are written, its place and its waiting field are noted: patch what waits for it. */
    method Settle(env: Env, idx: nat, outp: nat, row: array<nat>, ghost st: State, ghost p: Plan)
      requires idx == |st.plans| < |env.code| && Done(env, st, idx) && p == PlanOf(env, idx, st.starts[idx], st.pos)
      requires Ready(env, st, p, row, outp)
      modifies this`fixes, fmap, row
      ensures Holds(env, After(env, st), row, outp)
    {
      hide Planned, PlanOf, Built, PatchAll;
      Room(env, st);
      assert fixes[idx] == st.fixes[idx];
      assert row[..][..outp] == row[..outp];
      AfterWords(env, st, row[..], outp);
      AfterDone(env, st, idx);
      ProcessFixMap(idx, row);
      hide Done;
      assert row[..][..outp] == row[..outp];
    }

    /** get_and_set_current_index */
    method SetCurrent(inp: nat, outp: nat, env: Env, row: array<nat>, ghost st: State) returns (idx: nat)
      requires Holds(env, st, row, outp) && inp == |st.plans| < |env.code|
      modifies ins
      ensures idx == inp && ins[idx] == outp && Holds(env, st, row, outp)
    {
      Room(env, st);
      idx := RefInsIndex(env.InAddr(inp));
      ins[idx] := outp;
      hide Done;
    }

    /** The displacement in words to absoluteAddr: inside the window, to the new place of the instruction, or none and
        the field has to wait. */
    method Resolve(env: Env, idx: nat, outp: nat, absoluteAddr: int, field: Field, row: array<nat>, ghost st: State)
      returns (offset: int, fix: Option<(nat, Fix)>)
      requires Holds(env, st, row, outp) && idx == |st.plans| < |env.code| && ins[idx] == outp && |st.pos| == idx
      ensures var ref := env.RefIndex(absoluteAddr);
        if !env.Inside(absoluteAddr) then offset == Reach(env, absoluteAddr, outp) && fix == None
        else if ref <= idx then offset == (if ref == idx then outp else st.pos[ref]) as int - outp && fix == None
        else ref < |env.code| && offset == 0 && fix == Some((ref, Fix(outp, field)))
    {
      Room(env, st);
      hide Done, Reach;
      offset, fix := Reach(env, absoluteAddr, outp), None;
      if InFixingRange(absoluteAddr) {
        var ref := RefInsIndex(absoluteAddr);
        if ref <= idx {
          offset := (ins[ref] as int) - outp;
        } else {
          fix := Some((ref, Fix(outp, field)));
          offset := 0;
        }
      }
    }

    /** Behind n alignment words: the instruction itself starts here. */
    method EmitBehind(idx: nat, outp: nat, n: nat, words: seq<nat>, row: array<nat>, ghost env: Env, ghost st: State)
      returns (outp': nat)
      requires Holds(env, st, row, outp) && idx == |st.plans| < |env.code| && n + |words| <= 9
      requires outp + n <= row.Length && row[..outp + n] == st.words + Nops(n)
      modifies ins, row
      ensures Ready(env, st, Plan(Nops(n) + words, n, None), row, outp')
    {
      Room(env, st);
      hide Done;
      ins[idx] := outp + n;
      Put(row, outp + n, words, st.words + Nops(n));
      outp' := outp + n + |words|;
      Regroup(st.words, Nops(n), words);
    }

    /** The instruction is at outp; if the block needs an alignment word, it is behind that. Then come its words. */
    method EmitBlock(idx: nat, outp: nat, nop: bool, words: seq<nat>, row: array<nat>, ghost env: Env, ghost st: State)
      returns (outp': nat)
      requires Holds(env, st, row, outp) && idx == |st.plans| < |env.code| && |words| <= 8
      modifies ins, row
      ensures var n := if nop then 1 else 0; Ready(env, st, Plan(Nops(n) + words, n, None), row, outp')
    {
      Room(env, st);
      hide Done;
      if nop {
        Put(row, outp, [NOP], st.words);
        assert [NOP] == Nops(1);
      }
      outp' := EmitBehind(idx, outp, if nop then 1 else 0, words, row, env, st);
    }

    /** A block of one word, whose field may have to wait for a later instruction. */
    method EmitWord(idx: nat, outp: nat, w: nat, fix: Option<(nat, Fix)>, row: array<nat>, ghost env: Env, ghost st: State)
      returns (outp': nat)
      requires Holds(env, st, row, outp) && idx == |st.plans| < |env.code| && ins[idx] == outp
      requires fix.Some? ==> idx < fix.value.0 < |env.code|
      modifies this`fixes, fmap, row
      ensures Ready(env, st, Plan([w], 0, fix), row, outp')
    {
      Room(env, st);
      hide Done;
      if fix.Some? {
        InsertFixMap(fix.value.0, fix.value.1);
      }
      Put(row, outp, [w], st.words);
      outp' := outp + 1;
    }

    /** The far forms of B and BL. */
    method EmitFarBranch(env: Env, idx: nat, outp: nat, link: bool, absoluteAddr: int, row: array<nat>, ghost st: State)
      returns (outp': nat)
      requires Holds(env, st, row, outp) && idx == |st.plans| < |env.code| && st.starts[idx] == outp && |st.pos| == idx
      requires KindOf(env.code[idx]) == BranchImm(link) && absoluteAddr == BranchTarget(env.code[idx], env.InAddr(idx))
      requires !env.Inside(absoluteAddr) && Abs(Reach(env, absoluteAddr, outp)) >= 0x1ff_ffff
      modifies ins, row
      ensures Ready(env, st, PlanOf(env, idx, outp, st.pos), row, outp')
    {
      hide KindOf, PlanOf, BranchTarget, Reach, Done, Literal, Ready;
      ghost var n := FarBranchPlan(env, idx, outp, st.pos);
      var aligned := Aligned8(env, outp + 2);
      if !link {
        outp' := EmitBlock(idx, outp, !aligned, [LDR_X17_8, BR_X17] + Literal(absoluteAddr), row, env, st);
      } else {
        outp' := EmitBlock(idx, outp, aligned, [LDR_X17_12, ADR_X30_16, BR_X17] + Literal(absoluteAddr), row, env, st);
      }
    }

    /** __fix_branch_imm */
    method FixBranchImm(env: Env, inp: nat, outp: nat, row: array<nat>, ghost st: State) returns (hit: bool, outp': nat)
      requires Holds(env, st, row, outp) && inp == |st.plans| < |env.code|
      modifies this`fixes, ins, fmap, row
      ensures hit <==> IsBranch(env.code[inp]) || IsCall(env.code[inp])
      ensures if hit then Holds(env, After(env, st), row, outp') else Holds(env, st, row, outp) && outp' == outp
    {
      var w := env.code[inp];
      var opc := w / 0x400_0000;
      hit, outp' := opc == 0x05 || opc == 0x25, outp;
      hide KindOf, IsBranch, IsCall;
      BranchOpcode(w);
      if hit {
        hide PlanOf, BranchTarget, Reach, EncodeBranch, Done, After, Literal;
        var absoluteAddr := BranchTarget(w, env.InAddr(inp));
        var idx := SetCurrent(inp, outp, env, row, st);
        var offset := Reach(env, absoluteAddr, outp);
        var special := InFixingRange(absoluteAddr);
        if !special && Abs(offset) >= 0x1ff_ffff {
          outp' := EmitFarBranch(env, idx, outp, opc == 0x25, absoluteAddr, row, st);
        } else {
          BranchPlan(env, idx, outp, st.pos);
          var fix;
          offset, fix := Resolve(env, idx, outp, absoluteAddr, Imm26, row, st);
          outp' := EmitWord(idx, outp, EncodeBranch(w, offset), fix, row, env, st);
        }
        Settle(env, idx, outp', row, st, PlanOf(env, idx, st.starts[idx], st.pos));
      }
    }

    /** __fix_cond_comp_test_branch */
    method FixCondCompTestBranch(env: Env, inp: nat, outp: nat, row: array<nat>, ghost st: State)
      returns (hit: bool, outp': nat)
      requires Holds(env, st, row, outp) && inp == |st.plans| < |env.code|
      modifies this`fixes, ins, fmap, row
      ensures hit <==> IsBranchIf(env.code[inp]) || IsCompare(env.code[inp]) || IsTest(env.code[inp])
      ensures if hit then Holds(env, After(env, st), row, outp') else Holds(env, st, row, outp) && outp' == outp
    {
      var w := env.code[inp];
      CondOpcode(w);
      hide KindOf, KindByTop, Top, Bit4Of, IsBranchIf, IsCompare, IsTest;
      var field := Imm19;
      var top, bit4 := Top(w), Bit4Of(w);
      outp' := outp;
      if !(top == 0x54 && bit4 == 0) && top % 0x80 != 0x34 && top % 0x80 != 0x35 {
        if top % 0x80 != 0x36 && top % 0x80 != 0x37 {
          return false, outp;
        }
        field := Imm14;
      }
      hit := true;
      hide PlanOf, CondTarget, Reach, EncodeCond, Done, After, Literal;
      var idx := SetCurrent(inp, outp, env, row, st);
      var absoluteAddr := CondTarget(w, field, env.InAddr(inp));
      var offset := Reach(env, absoluteAddr, outp);
      var special := InFixingRange(absoluteAddr);
      Room(env, st);
      hide Ready;
      if !special && Abs(offset) >= CondLimit(field) {
        ghost var n := FarCondPlan(env, idx, outp, st.pos, field);
        outp' := EmitBlock(idx, outp, !Aligned8(env, outp + 4), FarCondWords(w, field, absoluteAddr), row, env, st);
      } else {
        CondPlan(env, idx, outp, st.pos, field);
        CondAhead(env, idx, field);
        var fix;
        offset, fix := Resolve(env, idx, outp, absoluteAddr, field, row, st);
        outp' := EmitWord(idx, outp, EncodeCond(w, field, offset), fix, row, env, st);
      }
      Settle(env, idx, outp', row, st, PlanOf(env, idx, st.starts[idx], st.pos));
    }

    /** One more alignment word. */
    method EmitNop(outp: nat, n: nat, row: array<nat>, ghost env: Env, ghost st: State)
      requires Holds(env, st, row, outp) && outp + n < row.Length && row[..outp + n] == st.words + Nops(n)
      modifies row
      ensures Holds(env, st, row, outp) && row[..outp + n + 1] == st.words + Nops(n + 1)
    {
      hide Done;
      row[outp + n] := NOP;
      assert row[..outp + n + 1] == row[..outp + n] + [NOP];
      assert st.words + Nops(n) + [NOP] == st.words + Nops(n + 1);
      assert row[..outp] == row[..outp + n][..outp];
    }

    /** The alignment words in front of a copied literal: it comes two words later. */
    method PadForCopy(env: Env, outp: nat, align: nat, row: array<nat>, ghost st: State) returns (n: nat)
      requires Holds(env, st, row, outp) && |st.plans| < |env.code| && align in {3, 7, 15}
      modifies row
      ensures Holds(env, st, row, outp) && n == Padding(env.OutAddr(outp + 2), align) <= 3
      ensures outp + n <= row.Length && row[..outp + n] == st.words + Nops(n)
    {
      Room(env, st);
      assert env.outBase % 4 == 0 && row.Length >= ROW_WORDS;
      hide Done, Holds, Padding, SlotAligned;
      ghost var total := Padding(env.OutAddr(outp + 2), align);
      n := 0;
      CopyStep(env, outp, align, n);
      while !SlotAligned(env.OutAddr(outp + n + 2), align)
        invariant Holds(env, st, row, outp) && n <= total && row.Length >= ROW_WORDS
        invariant row[..outp + n] == st.words + Nops(n)
        decreases 3 - n
      {
        CopyStep(env, outp, align, n);
        EmitNop(outp, n, row, env, st);
        n := n + 1;
      }
      CopyStep(env, outp, align, n);
    }

    /** The alignment words in front of a load whose offset must be a multiple of the size of its literal. */
    method PadForLoad(env: Env, outp: nat, absoluteAddr: int, align: nat, row: array<nat>, ghost st: State)
      returns (n: nat, offset: int)
      requires Holds(env, st, row, outp) && |st.plans| < |env.code| && align in {3, 7, 15} && absoluteAddr % 4 == 0
      modifies row
      ensures Holds(env, st, row, outp) && n == Misfit(Reach(env, absoluteAddr, outp), align) <= 3
      ensures offset == Reach(env, absoluteAddr, outp) - n
      ensures outp + n <= row.Length && row[..outp + n] == st.words + Nops(n)
    {
      Room(env, st);
      ghost var total := Misfit(Reach(env, absoluteAddr, outp), align);
      n := 0;
      offset := Reach(env, absoluteAddr, outp);
      OffsetStep(env, absoluteAddr, outp, align, n);
      hide Done, Holds, Reach, Misfit;
      while Misfit(offset, align) != 0
        invariant Holds(env, st, row, outp) && n <= total && row.Length >= ROW_WORDS
        invariant offset == Reach(env, absoluteAddr, outp + n) && row[..outp + n] == st.words + Nops(n)
        decreases 3 - n
      {
        OffsetStep(env, absoluteAddr, outp, align, n);
        EmitNop(outp, n, row, env, st);
        n := n + 1;
        offset := Reach(env, absoluteAddr, outp + n);
      }
      OffsetStep(env, absoluteAddr, outp, align, n);
    }

    /** __fix_loadlit */
    method FixLoadLit(env: Env, inp: nat, outp: nat, row: array<nat>, ghost st: State) returns (hit: bool, outp': nat)
      requires Holds(env, st, row, outp) && inp == |st.plans| < |env.code|
      modifies this`fixes, ins, fmap, row
      ensures hit <==> IsLiteral(env.code[inp])
      ensures if hit then Holds(env, After(env, st), row, outp') else Holds(env, st, row, outp) && outp' == outp
    {
      var w := env.code[inp];
      LiteralKinds(w);
      hide IsLiteral;
      var top := Top(w);
      outp' := outp;
      Room(env, st);
      if top == 0xd8 {
        assert KindOf(w) == Prefetch && PlanOf(env, inp, outp, st.pos) == Plan([], 0, None);
        hide KindOf, PlanOf, Done, After;
        var current := SetCurrent(inp, outp, env, row, st);
        assert row[..outp] == st.words + [];
        Settle(env, current, outp, row, st, PlanOf(env, current, st.starts[current], st.pos));
        return true, outp;
      }
      var keep, align := 1, if top / 0x40 % 2 == 1 then 7 else 3;
      if top % 0x40 != 0x18 || top / 0x80 == 1 {
        keep := 3;
        if align != 7 {
          align := if top / 0x80 == 1 then 15 else 3;
        }
        if top % 0x40 != 0x1c {
          if top != 0x98 {
            assert !KindOf(w).Prefetch? && !KindOf(w).LoadLiteral?;
            return false, outp;
          }
          keep, align := 0, 7;
        }
      }
      hit := true;
      assert KindOf(w) == LoadLiteral(align, keep);
      assert PlanOf(env, inp, outp, st.pos) == PlanLiteral(env, inp, outp, align, keep);
      hide KindOf, KindByTop, PlanOf, Done, After;
      var idx := SetCurrent(inp, outp, env, row, st);
      outp' := EmitLiteral(env, idx, outp, align, keep, row, st);
      Settle(env, idx, outp', row, st, PlanOf(env, idx, st.starts[idx], st.pos));
    }

    /** LDR #0x8; B behind the literal; a copy of the literal, on its own boundary */
    method EmitCopy(env: Env, idx: nat, outp: nat, absoluteAddr: int, align: nat, row: array<nat>, ghost st: State)
      returns (outp': nat)
      requires Holds(env, st, row, outp) && idx == |st.plans| < |env.code| && align in {3, 7, 15}
      modifies ins, row
      ensures var n := Padding(env.OutAddr(outp + 2), align);
        Ready(env, st, Plan(Nops(n) + CopyWords(env, env.code[idx], absoluteAddr, align), n, None), row, outp')
    {
      Room(env, st);
      hide Done;
      var n := PadForCopy(env, outp, align, row, st);
      hide Padding;
      outp' := EmitBehind(idx, outp, n, CopyWords(env, env.code[idx], absoluteAddr, align), row, env, st);
    }

    method EmitLiteral(env: Env, idx: nat, outp: nat, align: nat, keep: nat, row: array<nat>, ghost st: State)
      returns (outp': nat)
      requires Holds(env, st, row, outp) && idx == |st.plans| < |env.code| && align in {3, 7, 15}
      modifies ins, row
      ensures Ready(env, st, PlanLiteral(env, idx, outp, align, keep), row, outp')
    {
      var absoluteAddr := LiteralTarget(env.code[idx], env.InAddr(idx));
      assert InFixingRange(absoluteAddr) <==> env.Inside(absoluteAddr);
      hide Done, Holds, LiteralTarget, LiteralField, LiteralFar, Misfit, KeepEnds, Reach, CopyWords, Padding, Ready;
      if InFixingRange(absoluteAddr) || LiteralFar(Reach(env, absoluteAddr, outp), align) {
        outp' := EmitCopy(env, idx, outp, absoluteAddr, align, row, st);
      } else {
        outp' := EmitNear(env, idx, outp, absoluteAddr, align, keep, row, st);
      }
    }

    /** The load reads its target itself. */
    method EmitNear(env: Env, idx: nat, outp: nat, absoluteAddr: int, align: nat, keep: nat, row: array<nat>, ghost st: State)
      returns (outp': nat)
      requires Holds(env, st, row, outp) && idx == |st.plans| < |env.code| && align in {3, 7, 15}
      requires absoluteAddr == LiteralTarget(env.code[idx], env.InAddr(idx))
      modifies ins, row
      ensures var off := Reach(env, absoluteAddr, outp); var n := Misfit(off, align);
        Ready(env, st, Plan(Nops(n) + [Or(LiteralField(off - n, keep), KeepEnds(env.code[idx]))], n, None), row, outp')
    {
      Room(env, st);
      LiteralAligned(env, idx);
      hide Done, LiteralTarget, LiteralField, Misfit, KeepEnds, Reach, Ready;
      var n, offset := PadForLoad(env, outp, absoluteAddr, align, row, st);
      outp' := EmitBehind(idx, outp, n, [Or(LiteralField(offset, keep), KeepEnds(env.code[idx]))], row, env, st);
    }

    /** __fix_pcreladdr */
    method FixPcRelAddr(env: Env, inp: nat, outp: nat, row: array<nat>, ghost st: State) returns (hit: bool, outp': nat)
      requires Holds(env, st, row, outp) && inp == |st.plans| < |env.code|
      modifies this`fixes, ins, fmap, row
      ensures hit <==> IsAdr(env.code[inp]) || IsAdrp(env.code[inp])
      ensures if hit then Holds(env, After(env, st), row, outp') else Holds(env, st, row, outp) && outp' == outp
    {
      KindAgrees(env.code[inp]);
      hide IsBranch, IsCall, IsBranchIf, IsCompare, IsTest, IsLiteral, IsPrefetch, IsAdr, IsAdrp;
      var top := Top(env.code[inp]);
      hit, outp' := top % 0x20 == 0x10, outp;
      assert hit <==> KindOf(env.code[inp]) in {Adr, Adrp};
      assert hit && top / 0x80 == 0 ==> KindOf(env.code[inp]) == Adr;
      Room(env, st);
      if hit {
        var idx := SetCurrent(inp, outp, env, row, st);
        if top / 0x80 == 0 {
          assert PlanOf(env, idx, outp, st.pos) == PlanAdr(env, idx, outp);
          hide KindOf, PlanOf, PlanAdr, Done;
          outp' := EmitAdr(env, idx, outp, row, st);
        } else {
          assert PlanOf(env, idx, outp, st.pos) == PlanAdrp(env, idx, outp);
          hide KindOf, PlanOf, PlanAdrp, Done;
          outp' := EmitAdrp(env, idx, outp, row, st);
        }
        Settle(env, idx, outp', row, st, PlanOf(env, idx, st.starts[idx], st.pos));
      }
    }

    method EmitAdr(env: Env, idx: nat, outp: nat, row: array<nat>, ghost st: State) returns (outp': nat)
      requires Holds(env, st, row, outp) && idx == |st.plans| < |env.code| && ins[idx] == outp
      modifies this`fixes, fmap, ins, row
      ensures Ready(env, st, PlanAdr(env, idx, outp), row, outp')
    {
      Room(env, st);
      AdrAhead(env, idx);
      hide Done, AdrTarget, KeepEnds, AddressWords, Ready;
      var w := env.code[idx];
      var absoluteAddr := AdrTarget(w, env.InAddr(idx));
      var offset := absoluteAddr - env.OutAddr(outp);
      if InFixingRange(absoluteAddr) {
        var ref := RefInsIndex(absoluteAddr);
        if ref <= idx {
          outp' := EmitWord(idx, outp, KeepEnds(w), None, row, env, st);
        } else {
          outp' := EmitWord(idx, outp, KeepEnds(w), Some((ref, Fix(outp, ImmAdr))), row, env, st);
        }
      } else if Abs(offset) >= 0xf_ffff {
        outp' := EmitBlock(idx, outp, !Aligned8(env, outp + 2), AddressWords(w, absoluteAddr), row, env, st);
      } else {
        outp' := EmitWord(idx, outp, Or(offset * 8 % 0x100_0000, KeepEnds(w)), None, row, env, st);
      }
    }

    method EmitAdrp(env: Env, idx: nat, outp: nat, row: array<nat>, ghost st: State) returns (outp': nat)
      requires Holds(env, st, row, outp) && idx == |st.plans| < |env.code| && ins[idx] == outp
      modifies this`fixes, fmap, ins, row
      ensures Ready(env, st, PlanAdrp(env, idx, outp), row, outp')
    {
      hide Done, AdrpTarget, AddressWords, Ready;
      var absoluteAddr := AdrpTarget(env.code[idx], env.InAddr(idx));
      if InFixingRange(absoluteAddr) {
        outp' := EmitWord(idx, outp, env.code[idx], None, row, env, st);
      } else {
        outp' := EmitBlock(idx, outp, !Aligned8(env, outp + 2), AddressWords(env.code[idx], absoluteAddr), row, env, st);
      }
    }

    /** An instruction without PC-relative offset. */
    method CopyPlain(env: Env, inp: nat, outp: nat, row: array<nat>, ghost st: State) returns (outp': nat)
      requires Holds(env, st, row, outp) && inp == |st.plans| < |env.code| && KindOf(env.code[inp]) == Plain
      modifies this`fixes, ins, fmap, row
      ensures Holds(env, After(env, st), row, outp')
    {
      Room(env, st);
      assert PlanOf(env, inp, outp, st.pos) == Plan([env.code[inp]], 0, None);
      hide KindOf, PlanOf, Done;
      var idx := SetCurrent(inp, outp, env, row, st);
      outp' := EmitWord(idx, outp, env.code[inp], None, row, env, st);
      Settle(env, idx, outp', row, st, PlanOf(env, idx, st.starts[idx], st.pos));
    }

    /** One instruction: the first pass that knows it moves it. */
    method FixOne(env: Env, inp: nat, outp: nat, row: array<nat>, ghost st: State) returns (outp': nat)
      requires Holds(env, st, row, outp) && inp == |st.plans| < |env.code|
      modifies this`fixes, ins, fmap, row
      ensures Holds(env, After(env, st), row, outp')
    {
      KindAgrees(env.code[inp]);
      assert IsPrefetch(env.code[inp]) ==> IsLiteral(env.code[inp]);
      KindFields(env.code[inp]);
      hide PlanOf, KindOf, Holds, After, IsBranch, IsCall, IsBranchIf, IsCompare, IsTest, IsLiteral, IsPrefetch, IsAdr, IsAdrp;
      var hit;
      hit, outp' := FixBranchImm(env, inp, outp, row, st);
      if hit {
        return;
      }
      hit, outp' := FixCondCompTestBranch(env, inp, outp, row, st);
      if hit {
        return;
      }
      hit, outp' := FixLoadLit(env, inp, outp, row, st);
      if hit {
        return;
      }
      hit, outp' := FixPcRelAddr(env, inp, outp, row, st);
      if hit {
        return;
      }
      outp' := CopyPlain(env, inp, outp, row, st);
    }
  }

  const EMPTY := State([], [], [0], [], [[], [], [], [], []])

  /** __fix_instructions: the row ends up holding exactly the trampoline of the window. */
  method FixInstructions(env: Env, row: array<nat>) returns (total: nat, ghost st: State)
    requires env.Valid() && row.Length >= ROW_WORDS
    modifies row
    ensures Complete(env, st) && total <= ROW_WORDS && row[..total] == Row(env, st)
  {
    var ctx := new Context(env);
    st := EMPTY;
    var inp: nat, outp: nat := 0, 0;
    while inp < |env.code|
      invariant inp == |st.plans| <= |env.code| && ctx.Holds(env, st, row, outp)
      invariant fresh(ctx) && fresh(ctx.ins) && fresh(ctx.fmap)
    {
      Room(env, st);
      outp := ctx.FixOne(env, inp, outp, row, st);
      st := After(env, st);
      inp := inp + 1;
    }
    Extent(env, st, |st.plans|, |st.plans|);
    var tail := Tail(env, outp);
    Put(row, outp, tail, st.words);
    total := outp + |tail|;
  }
}
