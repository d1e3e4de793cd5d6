/** A small machine for the 16-bit and 32-bit instructions that the moved table branches and additions consist of
    (Arm Architecture Reference Manual for ARMv7-A and ARMv7-R, DDI 0406C, section A8.8), and what those blocks do. */
module ThumbMachine {
  import opened Bits
  import opened Options
  import opened Relocate
  import opened RelocatedCode
  import opened ThumbIsa

  /** Registers 0 to 12, what has been pushed, the halfword of the buffer that comes next, and the address to which the
      buffer has been left. */
  datatype Cpu = Cpu(regs: seq<Word>, pushed: seq<Word>, at: int, left: Option<Word>)

  const REGS := 13

  /** What loads find outside the buffer. */
  datatype Data = Data(byte: Word -> Byte, half: Word -> Half)

  /** The only register of a list. */
  function OnlyRegister(list: nat): Option<nat> {
    if list == 1 then Some(0) else if list == 2 then Some(1) else if list == 4 then Some(2) else if list == 8 then Some(3)
    else if list == 16 then Some(4) else if list == 32 then Some(5) else if list == 64 then Some(6)
    else if list == 128 then Some(7) else None
  }

  predicate InBuffer(ws: seq<nat>, s: Cpu) {
    s.left == None && 0 <= s.at && s.at + 1 < |ws| && ws[s.at] < 0x1_0000 && ws[s.at + 1] < 0x1_0000 && |s.regs| == REGS
  }

  function Put(s: Cpu, r: nat, v: Word, size: nat): Option<Cpu>
    requires |s.regs| == REGS
  {
    if r < REGS then Some(s.(regs := s.regs[r := v], at := s.at + size)) else None
  }

  /** A 16-bit instruction; None stands for what the machine does not know. */
  function Exec16(ws: seq<nat>, base: nat, s: Cpu, data: Data): Option<Cpu>
    requires InBuffer(ws, s)
  {
    var h: Half := ws[s.at];
    var (low, mid) := (h % 8, h / 8 % 8);
    if h / 0x100 == 0xb4 then  // PUSH
      var r := OnlyRegister(h % 0x100);
      if r.Some? then Some(s.(pushed := s.pushed + [s.regs[r.value]], at := s.at + 1)) else None
    else if h / 0x100 == 0xbc then  // POP
      var r := OnlyRegister(h % 0x100);
      if r.Some? && s.pushed != [] then Put(s.(pushed := s.pushed[..|s.pushed| - 1]), r.value, s.pushed[|s.pushed| - 1], 1) else None
    else if IsLdrLiteral(h) then
      var v := WordAt(base, ws, LdrSource(base, s.at, h));
      if v.Some? && v.value < 0x1_0000_0000 then Put(s, h / 0x100 % 8, v.value, 1) else None
    else if h / 0x100 == 0x46 then  // MOV Rd, Rm
      if h / 8 % 16 < REGS then Put(s, h / 0x80 % 2 * 8 + low, s.regs[h / 8 % 16], 1) else None
    else if h / 0x100 == 0x44 then  // ADD Rdn, Rm
      var rdn := h / 0x80 % 2 * 8 + low;
      if h / 8 % 16 < REGS && rdn < REGS then Put(s, rdn, Sum32(s.regs[rdn], s.regs[h / 8 % 16]), 1) else None
    else if h / 0x800 == 6 then Put(s, h / 0x100 % 8, Sum32(s.regs[h / 0x100 % 8], h % 0x100), 1)  // ADDS Rdn, #imm
    else if h / 0x800 == 0xf then Put(s, low, data.byte(Sum32(s.regs[mid], h / 0x40 % 32)), 1)      // LDRB Rt, [Rn, #imm]
    else if h / 0x800 == 0x11 then Put(s, low, data.half(Sum32(s.regs[mid], h / 0x40 % 32 * 2)), 1) // LDRH Rt, [Rn, #imm]
    else if h / 0x80 == 0x8e then  // BX Rm
      if h / 8 % 16 < REGS then Some(s.(left := Some(s.regs[h / 8 % 16]))) else None
    else if IsFreeBranch(h) then Some(s.(at := BranchHalf(s.at, h)))
    else None
  }

  /** ADD.W Rd, Rn, Rm, LSL #shift */
  function ExecWide(ws: seq<nat>, s: Cpu): Option<Cpu>
    requires InBuffer(ws, s)
  {
    var (hi, lo) := (ws[s.at], ws[s.at + 1]);
    var (n, m, shift) := (hi % 16, lo % 16, lo / 0x1000 % 8 * 4 + lo / 0x40 % 4);
    if hi / 0x10 == 0xeb0 && lo < 0x8000 && lo / 0x10 % 4 == 0 && n < REGS && m < REGS
    then Put(s, lo / 0x100 % 16, Sum32(s.regs[n], s.regs[m] * Pow2(shift)), 2) else None
  }

  function Exec(ws: seq<nat>, base: nat, s: Cpu, data: Data): Option<Cpu>
    requires InBuffer(ws, s)
  {
    if Is32Bit(ws[s.at]) then ExecWide(ws, s) else Exec16(ws, base, s, data)
  }

  function Run(ws: seq<nat>, base: nat, s: Cpu, data: Data, n: nat): Option<Cpu>
    decreases n
  {
    if n == 0 then Some(s)
    else if !InBuffer(ws, s) then None
    else
      var next := Exec(ws, base, s, data);
      if next.None? then None else Run(ws, base, next.value, data, n - 1)
  }

  /** One more instruction. */
  lemma {:induction false} RunOn(ws: seq<nat>, base: nat, s: Cpu, data: Data, n: nat)
    ensures var t := Run(ws, base, s, data, n);
      t.Some? && InBuffer(ws, t.value) ==> Run(ws, base, s, data, n + 1) == Exec(ws, base, t.value, data)
    decreases n
  {
    hide Exec;
    if n > 0 && InBuffer(ws, s) && Exec(ws, base, s, data).Some? {
      RunOn(ws, base, Exec(ws, base, s, data).value, data, n - 1);
    } else if n == 0 && InBuffer(ws, s) && Exec(ws, base, s, data).Some? {
      assert Run(ws, base, Exec(ws, base, s, data).value, data, 0) == Exec(ws, base, s, data);
    }
  }

  // ---------- table branches ----------

  /** An index into a table of bytes or of halfwords. */
  function Scaled(w: nat, wide: bool): nat {
    if wide then 2 * w else w
  }

  /** What the table holds at an address. */
  function Entry(data: Data, a: Word, wide: bool): Word {
    if wide then data.half(a) else data.byte(a)
  }

  /** The block of a table branch from halfword l on; the scratch registers are r and x. */
  predicate IsTableBlock(ws: seq<nat>, l: nat, rm: nat, r: nat, x: nat, wide: bool, pc: nat) {
    && l + 14 <= |ws|
    && ws[l] == 0xb400 + RegisterBitOf(x) && ws[l + 1] == 0x4805 + r * 0x100 && ws[l + 2] == 0x4600 + rm * 8 + x
    && ws[l + 3] == 0xeb00 + r && ws[l + 4] == (if wide then 0x40 else 0) + x * 0x100 + x
    && ws[l + 5] == (if wide then 0x8800 else 0x7800) + x * 8 + x
    && ws[l + 6] == 0xeb00 + r && ws[l + 7] == 0x40 + r * 0x100 + x && ws[l + 8] == 0x3001 + r * 0x100
    && ws[l + 9] == 0xbc00 + RegisterBitOf(x) && ws[l + 10] == 0x4700 + r * 8 && ws[l + 11] == NOP16
    && Pair(ws[l + 12], ws[l + 13]) == Sum32(pc, 0)
  }

  function RegisterBitOf(x: nat): nat { if x == 5 then 0x20 else if x == 6 then 0x40 else 0x80 }

  /** Where TBB [PC, Rm] or TBH [PC, Rm, LSL #1] goes, with the Thumb bit. */
  function TableGoes(pc: nat, index: Word, wide: bool, data: Data): Word {
    Sum32(pc, 1 + 2 * Entry(data, Sum32(pc, Scaled(index, wide)), wide))
  }

  lemma Push(ws: seq<nat>, base: nat, s: Cpu, data: Data, x: nat)
    requires InBuffer(ws, s) && x in {5, 6, 7} && ws[s.at] == 0xb400 + RegisterBitOf(x)
    ensures Exec(ws, base, s, data) == Some(s.(pushed := s.pushed + [s.regs[x]], at := s.at + 1))
  {
    hide WordAt, LdrSource;
  }

  lemma Pop(ws: seq<nat>, base: nat, s: Cpu, data: Data, x: nat)
    requires InBuffer(ws, s) && x in {5, 6, 7} && ws[s.at] == 0xbc00 + RegisterBitOf(x) && s.pushed != []
    ensures var n := |s.pushed| - 1;
      Exec(ws, base, s, data) == Some(s.(pushed := s.pushed[..n], regs := s.regs[x := s.pushed[n]], at := s.at + 1))
  {
    hide WordAt, LdrSource;
  }

  lemma LoadPc(ws: seq<nat>, base: nat, s: Cpu, data: Data, r: nat, v: Word)
    requires InBuffer(ws, s) && r < 8 && Loads16(ws, base, s.at, r, v)
    ensures Exec(ws, base, s, data) == Some(s.(regs := s.regs[r := v], at := s.at + 1))
  {
    hide WordAt, LdrSource;
    LoadByte(ws[s.at], r);
  }

  lemma LoadByte(h: Half, r: nat)
    requires r < 8 && IsLdrLiteral(h) && h / 0x100 == 0x48 + r
    ensures h / 0x100 % 8 == r && !Is32Bit(h)
  {
  }

  lemma Move(ws: seq<nat>, base: nat, s: Cpu, data: Data, rm: nat, x: nat)
    requires InBuffer(ws, s) && x in {5, 6, 7} && rm < REGS && ws[s.at] == 0x4600 + rm * 8 + x
    ensures Exec(ws, base, s, data) == Some(s.(regs := s.regs[x := s.regs[rm]], at := s.at + 1))
  {
    hide WordAt, LdrSource;
    MoveFields(rm, x);
  }

  lemma MoveFields(rm: nat, x: nat)
    requires rm < 16 && x < 8
    ensures var h := 0x4600 + rm * 8 + x;
      h / 0x100 == 0x46 && h / 0x800 == 8 && h / 8 % 16 == rm && h % 8 == x && h / 0x80 % 2 == 0 && !IsLdrLiteral(h)
  {
  }

  lemma AddWide(ws: seq<nat>, base: nat, s: Cpu, data: Data, n: nat, d: nat, m: nat, wide: bool)
    requires InBuffer(ws, s) && n in {6, 7} && d in {5, 6, 7} && m in {5, 6, 7}
    requires ws[s.at] == 0xeb00 + n && ws[s.at + 1] == (if wide then 0x40 else 0) + d * 0x100 + m
    ensures Exec(ws, base, s, data) == Some(s.(regs := s.regs[d := Sum32(s.regs[n], Scaled(s.regs[m], wide))], at := s.at + 2))
  {
    ShiftedBy(s.regs[m], wide);
    hide Exec16, Sum32, Pow2, Scaled;
    AddFields(d, m, if wide then 1 else 0);
  }

  lemma ShiftedBy(w: nat, wide: bool)
    ensures w * Pow2(if wide then 1 else 0) == Scaled(w, wide)
  {
    assert Pow2(0) == 1 && Pow2(1) == 2;
  }

  lemma AddFields(d: nat, m: nat, shift: nat)
    requires d < 8 && m < 8 && shift < 2
    ensures var lo := shift * 0x40 + d * 0x100 + m;
      lo < 0x8000 && lo / 0x10 % 4 == 0 && lo % 16 == m && lo / 0x100 % 16 == d && lo / 0x1000 % 8 == 0 && lo / 0x40 % 4 == shift
  {
  }

  lemma Read(ws: seq<nat>, base: nat, s: Cpu, data: Data, x: nat, wide: bool)
    requires InBuffer(ws, s) && x in {5, 6, 7} && ws[s.at] == (if wide then 0x8800 else 0x7800) + x * 8 + x
    ensures Exec(ws, base, s, data)
      == Some(s.(regs := s.regs[x := Entry(data, Sum32(s.regs[x], 0), wide)], at := s.at + 1))
  {
    hide WordAt, LdrSource, Sum32;
  }

  lemma Increment(ws: seq<nat>, base: nat, s: Cpu, data: Data, r: nat)
    requires InBuffer(ws, s) && r in {6, 7} && ws[s.at] == 0x3001 + r * 0x100
    ensures Exec(ws, base, s, data) == Some(s.(regs := s.regs[r := Sum32(s.regs[r], 1)], at := s.at + 1))
  {
    hide WordAt, LdrSource, Sum32;
  }

  lemma Leave(ws: seq<nat>, base: nat, s: Cpu, data: Data, r: nat)
    requires InBuffer(ws, s) && r in {6, 7} && ws[s.at] == 0x4700 + r * 8
    ensures Exec(ws, base, s, data) == Some(s.(left := Some(s.regs[r])))
  {
    hide WordAt, LdrSource;
  }

  lemma Next(ws: seq<nat>, base: nat, s: Cpu, data: Data, n: nat, t: Cpu, u: Cpu)
    requires Run(ws, base, s, data, n) == Some(t) && InBuffer(ws, t) && Exec(ws, base, t, data) == Some(u)
    ensures Run(ws, base, s, data, n + 1) == Some(u)
  {
    RunOn(ws, base, s, data, n);
  }

  ghost predicate Halfwords(ws: seq<nat>, l: nat) {
    l + 14 <= |ws| && forall j :: l <= j < l + 14 ==> ws[j] < 0x1_0000
  }

  /** The scratch registers of a table branch with index register rm. */
  predicate AreScratch(rm: nat, r: nat, x: nat) {
    rm < REGS && r in {6, 7} && x in {5, 6, 7} && r != x && r != rm && x != rm
  }

  /** The first half: the word of the table is in x. */
  lemma TableRead(ws: seq<nat>, base: nat, s: Cpu, data: Data, l: nat, rm: nat, r: nat, x: nat, wide: bool, pc: nat)
    requires IsTableBlock(ws, l, rm, r, x, wide, pc) && AreScratch(rm, r, x) && Halfwords(ws, l)
    requires Loads16(ws, base, l + 1, r, Sum32(pc, 0)) && s.at == l && s.left == None && |s.regs| == REGS
    ensures var entry: Word := Entry(data, Sum32(Sum32(Sum32(pc, 0), Scaled(s.regs[rm], wide)), 0), wide);
      Run(ws, base, s, data, 5)
        == Some(Cpu(s.regs[r := Sum32(pc, 0)][x := entry], s.pushed + [s.regs[x]], l + 6, None))
  {
    hide Exec, Sum32, Loads16, Entry, Scaled;
    var v := Sum32(pc, 0);
    var s1 := s.(pushed := s.pushed + [s.regs[x]], at := s.at + 1);
    Push(ws, base, s, data, x);
    Next(ws, base, s, data, 0, s, s1);
    var s2 := s1.(regs := s.regs[r := v], at := l + 2);
    LoadPc(ws, base, s1, data, r, v);
    Next(ws, base, s, data, 1, s1, s2);
    var s3 := s2.(regs := s2.regs[x := s.regs[rm]], at := l + 3);
    Move(ws, base, s2, data, rm, x);
    Next(ws, base, s, data, 2, s2, s3);
    var s4 := s3.(regs := s2.regs[x := Sum32(v, Scaled(s.regs[rm], wide))], at := l + 5);
    AddWide(ws, base, s3, data, r, x, x, wide);
    assert s3.regs[x := s4.regs[x]] == s4.regs;
    Next(ws, base, s, data, 3, s3, s4);
    var entry: Word := Entry(data, Sum32(s4.regs[x], 0), wide);
    var s5 := s4.(regs := s2.regs[x := entry], at := l + 6);
    Read(ws, base, s4, data, x, wide);
    assert s4.regs[x := entry] == s5.regs;
    Next(ws, base, s, data, 4, s4, s5);
  }

  /** The second half: twice that word is added to the PC, the register is restored, and the buffer is left. */
  lemma TableLeft(ws: seq<nat>, base: nat, s: Cpu, data: Data, l: nat, rm: nat, r: nat, x: nat, wide: bool, pc: nat, t: Cpu)
    requires IsTableBlock(ws, l, rm, r, x, wide, pc) && AreScratch(rm, r, x) && Halfwords(ws, l)
    requires Run(ws, base, s, data, 5) == Some(t) 
    requires t.at == l + 6 && t.left == None && |t.regs| == REGS && t.pushed != []
    ensures var (n, v) := (|t.pushed| - 1, Sum32(Sum32(t.regs[r], Scaled(t.regs[x], true)), 1));
      Run(ws, base, s, data, 9) == Some(Cpu(t.regs[r := v][x := t.pushed[n]], t.pushed[..n], l + 10, Some(v)))
  {
    hide Exec, Sum32, Scaled;
    var n := |t.pushed| - 1;
    var a := Sum32(t.regs[r], Scaled(t.regs[x], true));
    var s6 := t.(regs := t.regs[r := a], at := l + 8);
    AddWide(ws, base, t, data, r, r, x, true);
    Next(ws, base, s, data, 5, t, s6);
    var s7 := s6.(regs := t.regs[r := Sum32(a, 1)], at := l + 9);
    Increment(ws, base, s6, data, r);
    assert s6.regs[r := Sum32(a, 1)] == s7.regs;
    Next(ws, base, s, data, 6, s6, s7);
    var s8 := s7.(regs := s7.regs[x := t.pushed[n]], pushed := t.pushed[..n], at := l + 10);
    Pop(ws, base, s7, data, x);
    Next(ws, base, s, data, 7, s7, s8);
    Leave(ws, base, s8, data, r);
    Next(ws, base, s, data, 8, s8, s8.(left := Some(s8.regs[r])));
  }

  lemma Sums(pc: nat, a: nat, b: nat)
    ensures Sum32(Sum32(Sum32(pc, 0), a), b) == Sum32(pc, a + b)
  {
  }

  /** The block of a table branch leaves the buffer for where the table branch goes, and changes no register but r. */
  lemma TableRun(ws: seq<nat>, base: nat, s: Cpu, data: Data, l: nat, rm: nat, r: nat, x: nat, wide: bool, pc: nat)
    requires IsTableBlock(ws, l, rm, r, x, wide, pc) && AreScratch(rm, r, x) && Halfwords(ws, l)
    requires Loads16(ws, base, l + 1, r, Sum32(pc, 0)) && s.at == l && s.left == None && |s.regs| == REGS
    ensures var dest := TableGoes(pc, s.regs[rm], wide, data);
      Run(ws, base, s, data, 9) == Some(Cpu(s.regs[r := dest], s.pushed, l + 10, Some(dest)))
  {
    hide IsTableBlock, Run, Loads16, Halfwords;
    TableRead(ws, base, s, data, l, rm, r, x, wide, pc);
    var t := Run(ws, base, s, data, 5).value;
    TableLeft(ws, base, s, data, l, rm, r, x, wide, pc, t);
    Sums(pc, Scaled(s.regs[rm], wide), 0);
    Sums(pc, Scaled(t.regs[x], true), 1);
    hide Sum32;
    var dest := TableGoes(pc, s.regs[rm], wide, data);
    assert t.regs[r := dest][x := s.regs[x]] == s.regs[r := dest];
    assert t.pushed[..|t.pushed| - 1] == s.pushed;
  }

  lemma TableWords(pc: nat, hi: Half, lo: Half, mem: Memory)
    requires IsTableBranch(hi, lo)
    ensures Expand32(pc, hi, lo, mem)
      == ExpandTable(pc, lo % 16, if lo / 0x10 % 16 == 1 then 0x40 else 0, if lo / 0x10 % 16 == 1 then 0x8800 else 0x7800)
  {
    Types32(hi, lo);
    TableType(hi, lo);
    hide TypeInThumb32, Target32, Value32, JumpTo, ExpandTable;
  }

  lemma TableType(hi: Half, lo: Half)
    requires IsTableBranch(hi, lo)
    ensures TypeInThumb32(hi, lo) == if lo / 0x10 % 16 == 1 then Tbh_32 else Tbb_32
  {
    hide BitOf;
  }

  /** The other scratch register of a table branch. */
  function SecondScratch(rm: nat): nat { if rm in {6, 7} then 5 else 6 }

  lemma TableBlock(pc: nat, rm: nat, wide: bool)
    requires rm < REGS
    ensures var ws := ExpandTable(pc, rm, if wide then 0x40 else 0, if wide then 0x8800 else 0x7800);
      |ws| == 14 && IsTableBlock(ws, 0, rm, Scratch(rm), SecondScratch(rm), wide, pc) && AreScratch(rm, Scratch(rm), SecondScratch(rm))
  {
    hide Sum32;
    Relocate.Halves(Sum32(pc, 0));
  }

  lemma TableStands(ws: seq<nat>, l: nat, words: seq<Half>, rm: nat, r: nat, x: nat, wide: bool, pc: nat)
    requires |words| == 14 && l + 14 <= |ws| && ws[l..l + 14] == words && IsTableBlock(words, 0, rm, r, x, wide, pc)
    ensures IsTableBlock(ws, l, rm, r, x, wide, pc) && Halfwords(ws, l)
  {
    hide Pair, RegisterBitOf, Sum32;
    forall j | 0 <= j < 14
      ensures ws[l + j] == words[j]
    {
      assert ws[l..l + 14][j] == ws[l + j];
    }
    assert ws[l + 0] == words[0] && ws[l + 1] == words[1] && ws[l + 2] == words[2] && ws[l + 3] == words[3] && ws[l + 4] == words[4];
    assert ws[l + 5] == words[5] && ws[l + 6] == words[6] && ws[l + 7] == words[7] && ws[l + 8] == words[8] && ws[l + 9] == words[9];
    assert ws[l + 10] == words[10] && ws[l + 11] == words[11] && ws[l + 12] == words[12] && ws[l + 13] == words[13];
    forall j | l <= j < l + 14
      ensures ws[j] < 0x1_0000
    {
      assert ws[l + (j - l)] == words[j - l];
    }
  }

  /** In the trampoline of every window, a moved TBB or TBH goes where the original goes. It changes one register, which the
      original does not. */
  lemma TableKept(target: nat, code: seq<Half>, mem: Memory, base: nat, k: nat, s: Cpu, data: Data)
    requires code != [] && k < |ThumbBlocks(target, code, mem, 0)| && base % 4 == 0
    requires s.at == |Words(ThumbBlocks(target, code, mem, 0)[..k])| && s.left == None && |s.regs| == REGS
    ensures var bs := ThumbBlocks(target, code, mem, 0); var p := bs[k].orig;
      && p < |code|
      && (p + 1 < |code| && IsTableBranch(code[p], code[p + 1]) && code[p + 1] % 16 < REGS ==>
        var rm := code[p + 1] % 16;
        var dest := TableGoes(target + 4 + 2 * p, s.regs[rm], code[p + 1] / 0x10 % 16 == 1, data);
        Run(Words(bs), base, s, data, 9) == Some(s.(regs := s.regs[Scratch(rm) := dest], at := s.at + 10, left := Some(dest))))
  {
    hide Expand16, Expand32, ThumbBlocks, Words, Loads16, Run, ExpandTable, TableGoes, IsTableBlock, Halfwords;
    BlockWords(target, code, mem, k);
    var bs := ThumbBlocks(target, code, mem, 0);
    var p := bs[k].orig;
    if p + 1 < |code| && IsTableBranch(code[p], code[p + 1]) && code[p + 1] % 16 < REGS {
      var (pc, rm, wide) := (target + 4 + 2 * p, code[p + 1] % 16, code[p + 1] / 0x10 % 16 == 1);
      TableWords(pc, code[p], code[p + 1], mem);
      TableBlock(pc, rm, wide);
      assert bs[k].words == Expand32(pc, code[p], code[p + 1], mem);
      TableStands(Words(bs), s.at, Expand32(pc, code[p], code[p + 1], mem), rm, Scratch(rm), SecondScratch(rm), wide, pc);
      TableLoads(Words(bs), base, s.at, rm, Scratch(rm), SecondScratch(rm), wide, pc);
      TableRun(Words(bs), base, s, data, s.at, rm, Scratch(rm), SecondScratch(rm), wide, pc);
    }
  }

  lemma TableLoads(ws: seq<nat>, base: nat, l: nat, rm: nat, r: nat, x: nat, wide: bool, pc: nat)
    requires IsTableBlock(ws, l, rm, r, x, wide, pc) && AreScratch(rm, r, x) && base % 4 == 0 && l % 2 == 0
    ensures Loads16(ws, base, l + 1, r, Sum32(pc, 0))
  {
    hide Loads16, Sum32, Pair;
    LoadsBehind(ws, base, l + 1, r, 5, Sum32(pc, 0));
  }

  // ---------- ADD with the PC ----------

  lemma AddLow(ws: seq<nat>, base: nat, s: Cpu, data: Data, rdn: nat, r: nat)
    requires InBuffer(ws, s) && r in {6, 7} && rdn < REGS && ws[s.at] == 0x4400 + rdn / 8 * 0x80 + r * 8 + rdn % 8
    ensures Exec(ws, base, s, data) == Some(s.(regs := s.regs[rdn := Sum32(s.regs[rdn], s.regs[r])], at := s.at + 1))
  {
    hide WordAt, LdrSource, Sum32;
    AddLowFields(rdn, r);
  }

  lemma AddLowFields(rdn: nat, r: nat)
    requires r < 8 && rdn < 16
    ensures var h := 0x4400 + rdn / 8 * 0x80 + r * 8 + rdn % 8;
      h / 0x100 == 0x44 && h / 0x800 == 8 && h / 8 % 16 == r && h / 0x80 % 2 * 8 + h % 8 == rdn && !IsLdrLiteral(h)
  {
    RegisterFields(rdn / 8, r, rdn % 8);
  }

  lemma RegisterFields(q: nat, r: nat, m: nat)
    requires q < 2 && r < 8 && m < 8
    ensures var h := 0x4400 + q * 0x80 + r * 8 + m; h / 0x100 == 0x44 && h / 0x800 == 8 && h / 8 % 16 == r && h / 0x80 % 2 == q && h % 8 == m
  {
    var h: nat := 0x4400 + q * 0x80 + r * 8 + m;
    assert h / 8 == 0x880 + q * 16 + r && h / 0x80 == 0x88 + q;
    Remainder(h / 8, 16, 0x88 + q, r);
  }

  lemma Over(ws: seq<nat>, base: nat, s: Cpu, data: Data)
    requires InBuffer(ws, s) && ws[s.at] == 0xe002
    ensures Exec(ws, base, s, data) == Some(s.(at := s.at + 4))
  {
    hide WordAt, LdrSource;
  }

  /** In the trampoline of every window, a moved ADD Rdn, PC adds the PC of the window to Rdn, changes nothing else, and goes
      on behind its block. */
  lemma AddKept(target: nat, code: seq<Half>, mem: Memory, base: nat, k: nat, s: Cpu, data: Data)
    requires code != [] && k < |ThumbBlocks(target, code, mem, 0)| && base % 4 == 0
    requires s.at == |Words(ThumbBlocks(target, code, mem, 0)[..k])| && s.left == None && |s.regs| == REGS
    ensures var bs := ThumbBlocks(target, code, mem, 0); var p := bs[k].orig;
      && p < |code|
      && (IsAddPc(code[p]) && code[p] / 0x80 % 2 * 8 + code[p] % 8 < REGS ==>
        var rdn := code[p] / 0x80 % 2 * 8 + code[p] % 8;
        Run(Words(bs), base, s, data, 5)
          == Some(s.(regs := s.regs[rdn := Sum32(s.regs[rdn], Sum32(target + 4 + 2 * p, 0))], at := |Words(bs[..k + 1])|)))
  {
    hide ThumbBlocks, Words, Loads16, Run, BranchHalf, RegisterBit, IsAddPc, Sum32;
    AddStands16(target, code, mem, base, k);
    var bs := ThumbBlocks(target, code, mem, 0);
    var p := bs[k].orig;
    var rdn := code[p] / 0x80 % 2 * 8 + code[p] % 8;
    if IsAddPc(code[p]) && rdn < REGS {
      SameBit(Scratch(rdn));
      AddHalfwords(target, code, mem, base, k);
      AddRun(Words(bs), base, s, data, rdn, Sum32(target + 4 + 2 * p, 0));
    }
  }

  lemma SameBit(r: nat)
    requires r in {6, 7}
    ensures RegisterBit(r) == RegisterBitOf(r)
  {
  }

  lemma AddHalfwords(target: nat, code: seq<Half>, mem: Memory, base: nat, k: nat)
    requires code != [] && k < |ThumbBlocks(target, code, mem, 0)|
    ensures var bs := ThumbBlocks(target, code, mem, 0); var (p, l) := (bs[k].orig, |Words(bs[..k])|);
      && p < |code| && (IsAddPc(code[p]) ==> l + 8 <= |Words(bs)| && forall j :: l <= j < l + 8 ==> Words(bs)[j] < 0x1_0000)
  {
    hide Expand16, Expand32, ThumbBlocks, Words, IsAddPc, Is32Bit;
    BlockWords(target, code, mem, k);
    var bs := ThumbBlocks(target, code, mem, 0);
    var (p, l) := (bs[k].orig, |Words(bs[..k])|);
    if IsAddPc(code[p]) {
      NotWide(code[p]);
      var words: seq<Half> := Expand16(target + 4 + 2 * p, code[p], mem);
      assert |words| == 8 by {
        AddBlock16(target + 4 + 2 * p, code[p], mem);
      }
      forall j | l <= j < l + 8
        ensures Words(bs)[j] < 0x1_0000
      {
        assert Words(bs)[l..l + 8][j - l] == words[j - l];
      }
    }
  }

  lemma AddRun(ws: seq<nat>, base: nat, s: Cpu, data: Data, rdn: nat, v: Word)
    requires s.at >= 0 && s.left == None && |s.regs| == REGS && rdn < REGS && s.at + 8 <= |ws| && forall j :: s.at <= j < s.at + 8 ==> ws[j] < 0x1_0000
    requires var (l, r) := (s.at, Scratch(rdn));
      && ws[l] == 0xb400 + RegisterBitOf(r) && Loads16(ws, base, l + 1, r, v)
      && ws[l + 2] == 0x4400 + rdn / 8 * 0x80 + r * 8 + rdn % 8 && ws[l + 3] == 0xbc00 + RegisterBitOf(r) && ws[l + 4] == 0xe002
    ensures Run(ws, base, s, data, 5) == Some(s.(regs := s.regs[rdn := Sum32(s.regs[rdn], v)], at := s.at + 8))
  {
    hide Exec, Sum32, Loads16, RegisterBitOf;
    var (l, r, n) := (s.at, Scratch(rdn), |s.pushed|);
    var s1 := s.(pushed := s.pushed + [s.regs[r]], at := l + 1);
    Push(ws, base, s, data, r);
    Next(ws, base, s, data, 0, s, s1);
    var s2 := s1.(regs := s.regs[r := v], at := l + 2);
    LoadPc(ws, base, s1, data, r, v);
    Next(ws, base, s, data, 1, s1, s2);
    var s3 := s2.(regs := s2.regs[rdn := Sum32(s.regs[rdn], v)], at := l + 3);
    AddLow(ws, base, s2, data, rdn, r);
    Next(ws, base, s, data, 2, s2, s3);
    var s4 := s.(regs := s.regs[rdn := Sum32(s.regs[rdn], v)], at := l + 4);
    Pop(ws, base, s3, data, r);
    assert s3.regs[r := s.regs[r]] == s4.regs && s3.pushed[..n] == s.pushed;
    Next(ws, base, s, data, 3, s3, s4);
    Over(ws, base, s4, data);
    Next(ws, base, s, data, 4, s4, s4.(at := l + 8));
  }
}
