/** What the 32-bit inline hook makes of instructions that are not branches: those that do not use the PC stand unchanged
    in the trampoline, and those that load from the PC or add it do so with the PC of the window. */
module RelocatedCode {
  import opened Bits
  import opened Options
  import opened Relocate
  import opened ThumbIsa

  /** Two halfwords in memory order. */
  function Pair(lo: nat, hi: nat): nat { lo + 0x1_0000 * hi }

  // ---------- the trampoline as blocks ----------

  /** The blocks of the trampoline belong to the instructions of the window: each begins where the one before it ends, and
      the last one reaches the end of the window. */
  lemma BlocksFollowCode(target: nat, code: seq<Half>, mem: Memory, k: nat)
    requires code != [] && k < |ThumbBlocks(target, code, mem, 0)|
    ensures var bs := ThumbBlocks(target, code, mem, 0); var p := bs[k].orig;
      && bs[0].orig == 0 && p < |code|
      && (var next := if Is32Bit(code[p]) then p + 2 else p + 1;
        if k + 1 < |bs| then bs[k + 1].orig == next else next >= |code|)
  {
    hide ThumbBlocks;
    FollowFrom(target, code, mem, 0, k);
  }

  lemma {:induction false} FollowFrom(target: nat, code: seq<Half>, mem: Memory, pos: nat, k: nat)
    requires pos < |code| && k < |ThumbBlocks(target, code, mem, pos)|
    ensures var bs := ThumbBlocks(target, code, mem, pos); var p := bs[k].orig;
      && p < |code|
      && (var next := if Is32Bit(code[p]) then p + 2 else p + 1;
        if k + 1 < |bs| then bs[k + 1].orig == next else next >= |code|)
    decreases k
  {
    hide IsBlockOf, ThumbBlocks, Is32Bit;
    FirstBlock(target, code, mem, pos);
    if k > 0 {
      FollowFrom(target, code, mem, if Is32Bit(code[pos]) then pos + 2 else pos + 1, k - 1);
    }
  }

  /** Each block begins at an even halfword, and its words are in the trampoline. */
  lemma BlockWords(target: nat, code: seq<Half>, mem: Memory, k: nat)
    requires code != [] && k < |ThumbBlocks(target, code, mem, 0)|
    ensures var bs := ThumbBlocks(target, code, mem, 0); var (b, l) := (bs[k], |Words(bs[..k])|);
      && IsBlockOf(target, code, mem, b) && l % 2 == 0 && |Words(bs[..k + 1])| == l + |b.words| <= |Words(bs)|
      && Words(bs)[l..l + |b.words|] == b.words
  {
    hide ThumbBlocks, IsBlockOf, Words;
    var bs := ThumbBlocks(target, code, mem, 0);
    var l := |Words(bs[..k])|;
    ThumbInOrder(target, code, mem, 0);
    ThumbJumps(target, code, mem, 0, k);
    EvenWords(bs[..k]);
    WordsNext(bs, k);
    WordsGrow(bs, k + 1);
    forall j | 0 <= j < |bs[k].words|
      ensures l + j < |Words(bs)| && Words(bs)[l + j] == bs[k].words[j]
    {
      WordsAt(bs, k, j);
    }
  }

  lemma {:induction false} WordsGrow(bs: seq<Block>, k: nat)
    requires k <= |bs|
    ensures |Words(bs[..k])| <= |Words(bs)|
  {
    if k == |bs| {
      assert bs[..k] == bs;
    } else {
      WordsGrow(bs[..|bs| - 1], k);
      assert bs[..|bs| - 1][..k] == bs[..k];
    }
  }

  /** The words of a block one by one. */
  lemma InTrampoline(ws: seq<nat>, l: nat, n: nat, words: seq<nat>)
    requires l + n <= |ws| && ws[l..l + n] == words
    ensures n > 1 ==> ws[l] == words[0] && ws[l + 1] == words[1]
    ensures n > 3 ==> ws[l + 2] == words[2] && ws[l + 3] == words[3]
    ensures n > 5 ==> ws[l + 4] == words[4] && ws[l + 5] == words[5]
    ensures n > 7 ==> ws[l + 6] == words[6] && ws[l + 7] == words[7]
  {
    forall j | 0 <= j < n
      ensures ws[l + j] == words[j]
    {
      assert ws[l..l + n][j] == ws[l + j];
    }
    if n > 1 {
      assert ws[l + 0] == words[0];
    }
  }

  // ---------- what loads in the trampoline read ----------

  /** Does LDR Rr, [PC, #imm] stand at halfword l of the trampoline, and is v what it reads there? */
  predicate Loads16(ws: seq<nat>, base: nat, l: nat, r: nat, v: Word) {
    l < |ws| && ws[l] < 0x1_0000 && IsLdrLiteral(ws[l]) && ws[l] / 0x100 == 0x48 + r && WordAt(base, ws, LdrSource(base, l, ws[l])) == Some(v)
  }

  /** The same for LDR.W Rr, [PC, #imm]. */
  predicate Loads32(ws: seq<nat>, base: nat, l: nat, r: nat, v: Word) {
    && l + 1 < |ws| && ws[l] < 0x1_0000 && ws[l + 1] < 0x1_0000 && IsLdrLiteralWide(ws[l]) && ws[l + 1] / 0x1000 == r
    && WordAt(base, ws, LdrWSource(base, l, ws[l], ws[l + 1])) == Some(v)
  }

  lemma LoadWord(r: nat, n: nat)
    requires r < 8 && n < 0x100
    ensures var h := 0x4800 + r * 0x100 + n; h < 0x5000 && h % 0x100 == n && h / 0x100 == 0x48 + r
  {
  }

  lemma AlignedAt(base: nat, l: nat)
    requires base % 4 == 0
    ensures AlignPc(base + 2 * l + 4) == base + 2 * (l + 2 - l % 2)
  {
  }

  /** The word at an even halfword. */
  lemma EvenWord(base: nat, ws: seq<nat>, j: nat)
    requires j % 2 == 0 && j + 1 < |ws|
    ensures WordAt(base, ws, base + 2 * j) == Some(Pair(ws[j], ws[j + 1]))
  {
  }

  lemma LoadsBehind(ws: seq<nat>, base: nat, l: nat, r: nat, n: nat, v: Word)
    requires base % 4 == 0 && r < 8 && n < 0x100 && l + 3 - l % 2 + 2 * n < |ws| && ws[l] == 0x4800 + r * 0x100 + n
    requires var j := l + 2 - l % 2 + 2 * n; Pair(ws[j], ws[j + 1]) == v
    ensures Loads16(ws, base, l, r, v)
  {
    hide AlignPc, WordAt, Pair;
    LoadWord(r, n);
    AlignedAt(base, l);
    EvenWord(base, ws, l + 2 - l % 2 + 2 * n);
  }

  lemma LoadsBehind32(ws: seq<nat>, base: nat, l: nat, r: nat, v: Word)
    requires base % 4 == 0 && l % 2 == 0 && r < 16 && l + 5 < |ws| && ws[l] == 0xf8df && ws[l + 1] == r * 0x1000 + 4
    requires Pair(ws[l + 4], ws[l + 5]) == v
    ensures Loads32(ws, base, l, r, v)
  {
    hide AlignPc, WordAt, Pair, BitOf;
    UpBit();
    AlignedAt(base, l);
    EvenWord(base, ws, l + 4);
    assert (r * 0x1000 + 4) % 0x1000 == 4 && (r * 0x1000 + 4) / 0x1000 == r;
  }

  lemma SkipsTo(l: int)
    ensures BranchHalf(l, 0xe001) == l + 3 && BranchHalf(l, 0xe002) == l + 4
  {
  }

  // ---------- Thumb, 16 bits ----------

  /** The 16-bit instructions that are changed. */
  predicate Listed16(i: Half) {
    IsBranch16(i) || IsCallNumber(i) || IsAddPc(i) || IsMovPc(i) || IsAdr(i) || IsLdrLiteral(i)
  }

  lemma PlainBlock16(pc: nat, i: Half, mem: Memory)
    requires !Listed16(i)
    ensures Expand16(pc, i, mem) == [i, NOP16]
  {
    Types16(i);
    hide TypeInThumb16, Target16, Value16, JumpTo, LoadRegister16;
  }

  /** In the trampoline of every window, a 16-bit instruction that is not listed stands unchanged, with a NOP behind it. */
  lemma PlainStands16(target: nat, code: seq<Half>, mem: Memory, k: nat)
    requires code != [] && k < |ThumbBlocks(target, code, mem, 0)|
    ensures var bs := ThumbBlocks(target, code, mem, 0); var (p, l) := (bs[k].orig, |Words(bs[..k])|);
      && p < |code|
      && (!Is32Bit(code[p]) && !Listed16(code[p]) ==>
        |Words(bs[..k + 1])| == l + 2 <= |Words(bs)| && Words(bs)[l..l + 2] == [code[p], NOP16])
  {
    hide Expand16, Expand32, Listed16, Is32Bit, ThumbBlocks, Words;
    BlockWords(target, code, mem, k);
    var p := ThumbBlocks(target, code, mem, 0)[k].orig;
    if !Is32Bit(code[p]) && !Listed16(code[p]) {
      PlainBlock16(target + 4 + 2 * p, code[p], mem);
    }
  }

  /** LDR Rt, [PC]; B behind the value; the value */
  predicate IsLoadBlock16(ws: seq<nat>, r: nat, v: Word) {
    |ws| == 4 && ws[0] == 0x4800 + r * 0x100 && ws[1] == 0xe001 && Pair(ws[2], ws[3]) == v
  }

  /** The address that the code computes for ADR Rd, #imm. */
  function AdrLoaded16(pc: nat, i: Half): Word {
    (AlignPc(pc) + i % 0x100) % 0x1_0000_0000 * 4 % 0x1_0000_0000
  }

  lemma LoadBlock16(pc: nat, i: Half, mem: Memory)
    requires IsLdrLiteral(i) || IsMovPc(i) || IsAdr(i)
    ensures var ws := Expand16(pc, i, mem);
      && (IsLdrLiteral(i) ==> IsLoadBlock16(ws, i / 0x100 % 8, mem(AlignPc(pc) + i % 0x100 * 4)))
      && (IsMovPc(i) ==> IsLoadBlock16(ws, i % 8, Sum32(pc, 0)))
      && (IsAdr(i) ==> IsLoadBlock16(ws, i / 0x100 % 8, AdrLoaded16(pc, i)))
  {
    Types16(i);
    hide TypeInThumb16, Target16, JumpTo, AlignPc, Sum32;
    Halves(Value16(pc, i, mem));
  }

  /** Such a block loads the value and goes on behind itself. */
  lemma LoadBlockStands(ws: seq<nat>, base: nat, l: nat, r: nat, v: Word)
    requires base % 4 == 0 && l % 2 == 0 && l + 4 <= |ws| && r < 8 && IsLoadBlock16(ws[l..l + 4], r, v)
    ensures Loads16(ws, base, l, r, v) && ws[l + 1] < 0x1_0000 && BranchHalf(l + 1, ws[l + 1]) == l + 4
  {
    hide Loads16, BranchHalf;
    InTrampoline(ws, l, 4, ws[l..l + 4]);
    LoadsBehind(ws, base, l, r, 0, v);
    SkipsTo(l + 1);
  }

  /** A moved LDR literal loads what the original loads, into its own register; MOV Rd, PC loads the PC of the window into
      register Rd modulo 8; a moved ADR loads what the code computes. All go on behind their block. */
  lemma LoadStands16(target: nat, code: seq<Half>, mem: Memory, base: nat, k: nat)
    requires code != [] && k < |ThumbBlocks(target, code, mem, 0)| && base % 4 == 0
    ensures var bs := ThumbBlocks(target, code, mem, 0); var (p, l) := (bs[k].orig, |Words(bs[..k])|);
      && p < |code|
      && (IsLdrLiteral(code[p]) ==> Loads16(Words(bs), base, l, code[p] / 0x100 % 8, mem(LdrSource(target, p, code[p]))))
      && (IsMovPc(code[p]) ==> Loads16(Words(bs), base, l, code[p] % 8, Sum32(target + 4 + 2 * p, 0)))
      && (IsAdr(code[p]) ==> Loads16(Words(bs), base, l, code[p] / 0x100 % 8, AdrLoaded16(target + 4 + 2 * p, code[p])))
      && (IsLdrLiteral(code[p]) || IsMovPc(code[p]) || IsAdr(code[p]) ==>
        |Words(bs[..k + 1])| == l + 4 <= |Words(bs)| && Words(bs)[l + 1] < 0x1_0000 && BranchHalf(l + 1, Words(bs)[l + 1]) == l + 4)
  {
    hide Expand16, Expand32, IsLdrLiteral, IsMovPc, IsAdr, ThumbBlocks, Words, Loads16, BranchHalf, AlignPc, Is32Bit, IsLoadBlock16, Sum32,
      AdrLoaded16;
    BlockWords(target, code, mem, k);
    var bs := ThumbBlocks(target, code, mem, 0);
    var (p, l) := (bs[k].orig, |Words(bs[..k])|);
    var i := code[p];
    if IsLdrLiteral(i) || IsMovPc(i) || IsAdr(i) {
      NotWide(i);
      LoadBlock16(target + 4 + 2 * p, i, mem);
      LoadLength(target + 4 + 2 * p, i, mem);
      if IsLdrLiteral(i) {
        LoadBlockStands(Words(bs), base, l, i / 0x100 % 8, mem(LdrSource(target, p, i)));
      } else if IsMovPc(i) {
        LoadBlockStands(Words(bs), base, l, i % 8, Sum32(target + 4 + 2 * p, 0));
      } else {
        LoadBlockStands(Words(bs), base, l, i / 0x100 % 8, AdrLoaded16(target + 4 + 2 * p, i));
      }
    }
  }

  lemma LoadLength(pc: nat, i: Half, mem: Memory)
    requires IsLdrLiteral(i) || IsMovPc(i) || IsAdr(i)
    ensures |Expand16(pc, i, mem)| == 4
  {
    hide Expand16;
    LoadBlock16(pc, i, mem);
  }

  lemma NotWide(i: Half)
    requires IsLdrLiteral(i) || IsMovPc(i) || IsAdr(i) || IsAddPc(i)
    ensures !Is32Bit(i) && !(IsLdrLiteral(i) && IsMovPc(i)) && !(IsAdr(i) && (IsLdrLiteral(i) || IsMovPc(i)))
  {
  }

  /** MOV Rd, PC loads the right register exactly when that is a low one. */
  lemma MovExact16(target: nat, code: seq<Half>, mem: Memory, base: nat, k: nat)
    requires code != [] && k < |ThumbBlocks(target, code, mem, 0)| && base % 4 == 0
    ensures var bs := ThumbBlocks(target, code, mem, 0); var (p, l) := (bs[k].orig, |Words(bs[..k])|);
      && p < |code|
      && (IsMovPc(code[p]) ==>
        var rd := code[p] / 0x80 % 2 * 8 + code[p] % 8;
        Loads16(Words(bs), base, l, rd, Sum32(target + 4 + 2 * p, 0)) <==> rd < 8)
  {
    hide ThumbBlocks, Words, WordAt, LdrSource, IsMovPc, IsLdrLiteral, Sum32, BranchHalf;
    LoadStands16(target, code, mem, base, k);
  }

  /** MOV R8, PC loads R0. */
  lemma HighMovMissed(pc: nat, mem: Memory)
    ensures IsMovPc(0x46f8) && Expand16(pc, 0x46f8, mem)[0] == 0x4800
  {
    hide Expand16;
    LoadBlock16(pc, 0x46f8, mem);
    LoadLength(pc, 0x46f8, mem);
  }

  /** ADR Rd, #imm adds imm to the aligned PC and then multiplies by four: the address that is loaded is right exactly if
      the aligned PC is zero. */
  lemma AdrExact16(pc: nat, i: Half)
    requires IsAdr(i)
    ensures AdrLoaded16(pc, i) == Sum32(AlignPc(pc), i % 0x100 * 4) <==> AlignPc(pc) % 0x1_0000_0000 == 0
  {
    TimesFour(AlignPc(pc), i % 0x100);
  }

  lemma TimesFour(a: nat, x: nat)
    requires a % 4 == 0 && x < 0x100
    ensures (a + x) % 0x1_0000_0000 * 4 % 0x1_0000_0000 == Sum32(a, x * 4) <==> a % 0x1_0000_0000 == 0
  {
    var (u, r) := ((a + x) % 0x1_0000_0000, a % 0x1_0000_0000);
    var (d, q) := ((a + x) / 0x1_0000_0000, a / 0x1_0000_0000);
    assert a + x == 0x1_0000_0000 * d + u && a == 0x1_0000_0000 * q + r;
    SameWord(4 * r + 4 * x, u * 4, 4 * (d - q));
    SameWord(a + x * 4, r + 4 * x, q);
    FourOrOne(r, 4 * x);
  }

  lemma SameWord(x: int, y: int, k: int)
    requires x == y + 0x1_0000_0000 * k
    ensures x % 0x1_0000_0000 == y % 0x1_0000_0000
  {
    Remainder(x, 0x1_0000_0000, y / 0x1_0000_0000 + k, y % 0x1_0000_0000);
  }

  lemma FourOrOne(r: nat, w: nat)
    requires r < 0x1_0000_0000
    ensures (4 * r + w) % 0x1_0000_0000 == (r + w) % 0x1_0000_0000 <==> r == 0
  {
    var (d, e) := ((4 * r + w) / 0x1_0000_0000, (r + w) / 0x1_0000_0000);
    if (4 * r + w) % 0x1_0000_0000 == (r + w) % 0x1_0000_0000 {
      assert 3 * r == 0x1_0000_0000 * (d - e) && d - e < 3;
    }
  }

  /** PUSH {Rr}; LDR Rr, [PC, #8]; ADD Rdn, Rr; POP {Rr}; B behind the value; NOP; the value */
  predicate IsAddBlock(ws: seq<nat>, rdn: nat, v: Word) {
    var r := Scratch(rdn);
    && |ws| == 8 && ws[0] == 0xb400 + RegisterBit(r) && ws[1] == 0x4802 + r * 0x100
    && ws[2] == 0x4400 + rdn / 8 * 0x80 + r * 8 + rdn % 8 && ws[3] == 0xbc00 + RegisterBit(r) && ws[4] == 0xe002
    && Pair(ws[6], ws[7]) == v
  }

  lemma AddBlock16(pc: nat, i: Half, mem: Memory)
    requires IsAddPc(i)
    ensures IsAddBlock(Expand16(pc, i, mem), i / 0x80 % 2 * 8 + i % 8, Sum32(pc, 0))
  {
    Types16(i);
    hide TypeInThumb16, Target16, Value16, JumpTo, RegisterBit, Sum32;
    Halves(Sum32(pc, 0));
    assert i / 0x80 == 0x88 + i / 0x80 % 2;
  }

  /** A moved ADD Rdn, PC saves a register other than Rdn, loads the PC of the window into it, adds it to Rdn, restores the
      register, and goes on behind its block. */
  lemma AddStands16(target: nat, code: seq<Half>, mem: Memory, base: nat, k: nat)
    requires code != [] && k < |ThumbBlocks(target, code, mem, 0)| && base % 4 == 0
    ensures var bs := ThumbBlocks(target, code, mem, 0); var (p, l) := (bs[k].orig, |Words(bs[..k])|);
      && p < |code|
      && (IsAddPc(code[p]) ==>
        var (ws, rdn) := (Words(bs), code[p] / 0x80 % 2 * 8 + code[p] % 8); var r := Scratch(rdn);
        && |Words(bs[..k + 1])| == l + 8 <= |ws| && r != rdn
        && ws[l] == 0xb400 + RegisterBit(r) && Loads16(ws, base, l + 1, r, Sum32(target + 4 + 2 * p, 0))
        && ws[l + 2] == 0x4400 + rdn / 8 * 0x80 + r * 8 + rdn % 8 && ws[l + 3] == 0xbc00 + RegisterBit(r)
        && ws[l + 4] == 0xe002 && BranchHalf(l + 4, 0xe002) == l + 8)
  {
    hide Expand16, Expand32, IsAddPc, ThumbBlocks, Words, Loads16, BranchHalf, Is32Bit, Sum32, RegisterBit;
    BlockWords(target, code, mem, k);
    var bs := ThumbBlocks(target, code, mem, 0);
    var (p, l) := (bs[k].orig, |Words(bs[..k])|);
    if IsAddPc(code[p]) {
      NotWide(code[p]);
      var pc := target + 4 + 2 * p;
      AddBlock16(pc, code[p], mem);
      AddBlockStands(Words(bs), base, l, bs[k].words, code[p] / 0x80 % 2 * 8 + code[p] % 8, Sum32(pc, 0));
    }
  }

  lemma AddBlockStands(ws: seq<nat>, base: nat, l: nat, words: seq<nat>, rdn: nat, v: Word)
    requires base % 4 == 0 && l % 2 == 0 && |words| == 8 && l + 8 <= |ws| && ws[l..l + 8] == words && IsAddBlock(words, rdn, v)
    ensures var r := Scratch(rdn);
      && ws[l] == 0xb400 + RegisterBit(r) && Loads16(ws, base, l + 1, r, v)
      && ws[l + 2] == 0x4400 + rdn / 8 * 0x80 + r * 8 + rdn % 8 && ws[l + 3] == 0xbc00 + RegisterBit(r)
      && ws[l + 4] == 0xe002 && BranchHalf(l + 4, 0xe002) == l + 8
  {
    hide Loads16, BranchHalf, RegisterBit;
    InTrampoline(ws, l, 8, words);
    LoadsBehind(ws, base, l + 1, Scratch(rdn), 2, v);
    SkipsTo(l + 4);
  }

  // ---------- Thumb, 32 bits ----------

  /** The 32-bit instructions that are changed: besides branches, loads and addresses these are the control instructions
      that the classifier does not exempt. */
  predicate Listed32(hi: Half, lo: Half) {
    || IsBranch32(hi, lo) || IsAdrWide(hi, lo) || IsLdrLiteralWide(hi) || IsTableBranch(hi, lo)
    || (InBranchSpace(hi) && lo / 0x1000 in {0xc, 0xe}) || (IsControl(hi, lo) && !IsExempt(hi, lo))
  }

  lemma PlainBlock32(pc: nat, hi: Half, lo: Half, mem: Memory)
    requires !Listed32(hi, lo)
    ensures Expand32(pc, hi, lo, mem) == [hi, lo]
  {
    Types32(hi, lo);
    hide TypeInThumb32, Target32, Value32, JumpTo;
  }

  /** In the trampoline of every window, a 32-bit instruction that is not listed stands unchanged. */
  lemma PlainStands32(target: nat, code: seq<Half>, mem: Memory, k: nat)
    requires code != [] && k < |ThumbBlocks(target, code, mem, 0)|
    ensures var bs := ThumbBlocks(target, code, mem, 0); var (p, l) := (bs[k].orig, |Words(bs[..k])|);
      && p < |code|
      && (Is32Bit(code[p]) && p + 1 < |code| && !Listed32(code[p], code[p + 1]) ==>
        |Words(bs[..k + 1])| == l + 2 <= |Words(bs)| && Words(bs)[l..l + 2] == code[p..p + 2])
  {
    hide Expand16, Expand32, Listed32, Is32Bit, ThumbBlocks, Words;
    BlockWords(target, code, mem, k);
    var p := ThumbBlocks(target, code, mem, 0)[k].orig;
    if Is32Bit(code[p]) && p + 1 < |code| && !Listed32(code[p], code[p + 1]) {
      PlainBlock32(target + 4 + 2 * p, code[p], code[p + 1], mem);
      assert code[p..p + 2] == [code[p], code[p + 1]];
    }
  }

  /** LDR.W Rt, [PC, #4]; NOP; B behind the value; the value */
  predicate IsLoadBlock32(ws: seq<nat>, r: nat, v: Word) {
    |ws| == 6 && ws[0] == 0xf8df && ws[1] == r * 0x1000 + 4 && ws[2] == NOP16 && ws[3] == 0xe001 && Pair(ws[4], ws[5]) == v
  }

  lemma LoadBlock32(pc: nat, hi: Half, lo: Half, mem: Memory)
    requires IsLdrLiteralWide(hi)
    ensures IsLoadBlock32(Expand32(pc, hi, lo, mem), lo / 0x1000, mem(AlignPc(pc) + if BitOf(hi, 7) == 0 then -((lo % 0x1000) as int) else lo % 0x1000))
  {
    Types32(hi, lo);
    hide TypeInThumb32, Target32, JumpTo, AlignPc, BitOf;
    Halves(Value32(pc, hi, lo, mem));
  }

  /** A moved LDR.W literal loads what the original loads, into its own register, and goes on behind its block. */
  lemma LoadStands32(target: nat, code: seq<Half>, mem: Memory, base: nat, k: nat)
    requires code != [] && k < |ThumbBlocks(target, code, mem, 0)| && base % 4 == 0
    ensures var bs := ThumbBlocks(target, code, mem, 0); var (p, l) := (bs[k].orig, |Words(bs[..k])|);
      && p < |code|
      && (p + 1 < |code| && IsLdrLiteralWide(code[p]) ==>
        && |Words(bs[..k + 1])| == l + 6 <= |Words(bs)|
        && Loads32(Words(bs), base, l, code[p + 1] / 0x1000, mem(LdrWSource(target, p, code[p], code[p + 1])))
        && Words(bs)[l + 2] == NOP16 && Words(bs)[l + 3] == 0xe001 && BranchHalf(l + 3, 0xe001) == l + 6)
  {
    hide Expand16, Expand32, ThumbBlocks, Words, Loads32, BranchHalf, AlignPc, IsLoadBlock32, BitOf;
    BlockWords(target, code, mem, k);
    var bs := ThumbBlocks(target, code, mem, 0);
    var (p, l) := (bs[k].orig, |Words(bs[..k])|);
    if p + 1 < |code| && IsLdrLiteralWide(code[p]) {
      LoadBlock32(target + 4 + 2 * p, code[p], code[p + 1], mem);
      LoadBlockStands32(Words(bs), base, l, bs[k].words, code[p + 1] / 0x1000, mem(LdrWSource(target, p, code[p], code[p + 1])));
    }
  }

  lemma LoadBlockStands32(ws: seq<nat>, base: nat, l: nat, words: seq<nat>, r: nat, v: Word)
    requires base % 4 == 0 && l % 2 == 0 && r < 16 && l + |words| <= |ws| && ws[l..l + |words|] == words && IsLoadBlock32(words, r, v)
    ensures |words| == 6 && Loads32(ws, base, l, r, v) && ws[l + 2] == NOP16 && ws[l + 3] == 0xe001 && BranchHalf(l + 3, 0xe001) == l + 6
  {
    hide Loads32, BranchHalf;
    InTrampoline(ws, l, 6, words);
    LoadsBehind32(ws, base, l, r, v);
    SkipsTo(l + 3);
  }

  /** The immediate of ADR.W */
  function AdrImmediate(hi: Half, lo: Half): nat { BitOf(hi, 10) * 0x800 + lo / 0x1000 % 8 * 0x100 + lo % 0x100 }

  /** The address that ADR.W computes: 0xf2af and 0xf6af subtract. */
  function AdrValue(pc: nat, hi: Half, lo: Half): Word {
    Sum32(AlignPc(pc), if hi in {0xf2af, 0xf6af} then -(AdrImmediate(hi, lo) as int) else AdrImmediate(hi, lo))
  }

  /** A moved ADR.W loads the right address exactly when its immediate is zero. */
  lemma AdrExact32(pc: nat, hi: Half, lo: Half, mem: Memory)
    requires IsAdrWide(hi, lo)
    ensures var ws := Expand32(pc, hi, lo, mem);
      && |ws| == 6 && IsLoadBlock32(ws, lo / 0x100 % 16, Pair(ws[4], ws[5]))
      && (Pair(ws[4], ws[5]) == AdrValue(pc, hi, lo) <==> AdrImmediate(hi, lo) == 0)
  {
    hide Expand32, Value32, IsAdrWide, AlignPc, Sum32, AdrShifted, Pair;
    AdrBlock32(pc, hi, lo, mem);
    ShiftedZero(hi, lo);
    NeverMeets(AlignPc(pc), AdrShifted(hi, lo), AdrImmediate(hi, lo));
  }

  lemma AdrBlock32(pc: nat, hi: Half, lo: Half, mem: Memory)
    requires IsAdrWide(hi, lo)
    ensures var (ws, x) := (Expand32(pc, hi, lo, mem), AdrShifted(hi, lo) * 0x800_0000);
      && |ws| == 6 && IsLoadBlock32(ws, lo / 0x100 % 16, Pair(ws[4], ws[5]))
      && Pair(ws[4], ws[5]) == Sum32(AlignPc(pc), if hi in {0xf2af, 0xf6af} then x else -(x as int))
  {
    hide Expand32, LoadValue32, Value32, AlignPc, Sum32, IsAdrWide, AdrShifted;
    AdrWords(pc, hi, lo, mem);
    LoadValueForm(lo / 0x100 % 16, Value32(pc, hi, lo, mem));
    AdrOperand(pc, hi, lo, mem);
  }

  lemma AdrWords(pc: nat, hi: Half, lo: Half, mem: Memory)
    requires IsAdrWide(hi, lo)
    ensures Expand32(pc, hi, lo, mem) == LoadValue32(lo / 0x100 % 16, Value32(pc, hi, lo, mem))
  {
    AdrSign(hi, lo);
    hide TypeInThumb32, Target32, Value32, LoadValue32, IsAdrWide;
  }

  lemma LoadValueForm(r: nat, v: Word)
    requires r < 16
    ensures var ws := LoadValue32(r, v); |ws| == 6 && IsLoadBlock32(ws, r, v) && Pair(ws[4], ws[5]) == v
  {
    Halves(v);
  }

  lemma AdrOperand(pc: nat, hi: Half, lo: Half, mem: Memory)
    requires IsAdrWide(hi, lo)
    ensures var x := AdrShifted(hi, lo) * 0x800_0000;
      Value32(pc, hi, lo, mem) == Sum32(AlignPc(pc), if hi in {0xf2af, 0xf6af} then x else -(x as int))
  {
    AdrSign(hi, lo);
    hide TypeInThumb32, AlignPc, BitOf, Sum32, IsAdrWide, AdrShifted, AdrBits32;
    ShiftedValue(hi, lo);
  }

  /** The bits of the immediate as the code shifts them, in units of 2^27. */
  function AdrShifted(hi: Half, lo: Half): (q: nat)
    ensures q < 32
  {
    var (a, b, c) := AdrFields(hi, lo);
    OrBelow(a, b, 5);
    OrBelow(Or(a, b), c, 5);
    assert Pow2(5) == 32;
    Or(Or(a, b), c)
  }

  function AdrFields(hi: Half, lo: Half): (f: (nat, nat, nat))
    ensures f.0 < 32 && f.1 < 32 && f.2 < 32
  {
    (BitOf(hi, 10) * 0x10, lo / 0x1000 % 8 * 8 % 0x20, lo % 0x100 % 0x20)
  }

  lemma ShiftedValue(hi: Half, lo: Half)
    ensures AdrShifted(hi, lo) * 0x800_0000 == AdrBits32(hi, lo)
  {
    hide Or, BitOf, Pow2;
    var (a, b, c) := AdrFields(hi, lo);
    AdrBits(BitOf(hi, 10), lo / 0x1000 % 8, lo % 0x100);
    TwentySeven();
    Shifted(Or(a, b), c, 27);
    Shifted(a, b, 27);
  }

  lemma ShiftedZero(hi: Half, lo: Half)
    ensures AdrImmediate(hi, lo) == 0 ==> AdrShifted(hi, lo) == 0
    ensures AdrImmediate(hi, lo) < 0x1000
  {
    hide BitOf;
  }

  /** Which of the two forms the classifier takes the instruction for. */
  lemma AdrSign(hi: Half, lo: Half)
    requires IsAdrWide(hi, lo)
    ensures TypeInThumb32(hi, lo) == if hi in {0xf2af, 0xf6af} then Adr1_32 else Adr2_32
  {
    TopBits(lo);
    hide BitOf;
  }

  lemma AdrBits(i: nat, imm3: nat, imm8: nat)
    requires i < 2 && imm3 < 8 && imm8 < 0x100
    ensures i * 0x8000_0000 == i * 0x10 * 0x800_0000
    ensures imm3 * 0x4000_0000 % 0x1_0000_0000 == imm3 * 8 % 0x20 * 0x800_0000
    ensures imm8 * 0x800_0000 % 0x1_0000_0000 == imm8 % 0x20 * 0x800_0000
  {
  }

  lemma TwentySeven()
    ensures Pow2(27) == 0x800_0000
  {
    Pow2Plus(9, 9);
    Pow2Plus(18, 9);
    assert Pow2(9) == 2 * Pow2(8) == 512 by {
      Pow2Plus(4, 4);
    }
  }

  lemma {:induction false} Shifted(a: nat, b: nat, n: nat)
    ensures Or(a * Pow2(n), b * Pow2(n)) == Or(a, b) * Pow2(n)
  {
    if n > 0 {
      Shifted(a, b, n - 1);
      ShiftedOnce(a, b, Pow2(n - 1));
    }
  }

  lemma ShiftedOnce(a: nat, b: nat, p: nat)
    requires Or(a * p, b * p) == Or(a, b) * p
    ensures Or(a * (2 * p), b * (2 * p)) == Or(a, b) * (2 * p)
  {
    hide Or;
    OrDouble(a * p, b * p);
    DoubleRight(a, p);
    DoubleRight(b, p);
    DoubleRight(Or(a, b), p);
  }

  lemma DoubleRight(x: nat, p: nat)
    ensures x * (2 * p) == 2 * (x * p)
  {
  }

  lemma SameSum(pc: nat, x: int, y: int)
    requires -0x1_0000_0000 < x - y < 0x1_0000_0000
    ensures Sum32(pc, x) == Sum32(pc, y) <==> x == y
  {
  }

  /** A multiple of 2^27 below 2^32 is no displacement of ADR.W but zero. */
  lemma NeverMeets(a: nat, q: nat, imm: nat)
    requires q < 32 && imm < 0x1000 && (imm == 0 ==> q == 0)
    ensures Sum32(a, q * 0x800_0000) == Sum32(a, -(imm as int)) <==> imm == 0
    ensures Sum32(a, -((q * 0x800_0000) as int)) == Sum32(a, imm) <==> imm == 0
  {
    hide Sum32;
    SameSum(a, q * 0x800_0000, -(imm as int));
    SameSum(a, -((q * 0x800_0000) as int), imm);
  }

  // ---------- ARM ----------

  const SKIP_ARM: Word := 0xe28f_f000  // ADD PC, PC, #0: over one word

  /** The displacement of LDR Rt, [PC, #imm]; bit 23 says whether it is added. */
  function LdrOffsetArm(i: Word): int {
    if i / 0x80_0000 % 2 == 1 then i % 0x1000 else -((i % 0x1000) as int)
  }

  /** Does LDR Rr, [PC, #imm] stand at word l, and is v the word that it reads in the buffer? */
  predicate LoadsArm(ws: seq<nat>, l: nat, r: nat, v: Word) {
    && l < |ws| && ws[l] < 0x1_0000_0000 && IsLdrLiteralArm(ws[l]) && ws[l] / 0x1000 % 16 == r && ConditionArm(ws[l]) == 14
    && var a := 4 * (l + 2) + LdrOffsetArm(ws[l]);
      0 <= a && a % 4 == 0 && a / 4 < |ws| && ws[a / 4] == v
  }

  /** The instructions that are changed. */
  predicate ListedArm(i: Word) {
    IsBranchArm(i) || IsAddPcArm(i) || IsAdrArm(i) || IsLdrLiteralArm(i) || IsMovPcArm(i)
  }

  lemma PlainWord(pc: nat, i: Word, mem: Memory)
    requires !ListedArm(i)
    ensures ExpandArm(pc, i, mem) == [i]
  {
    TypesArm(i);
    hide TypeInArm, TargetArm, ValueArm, IsAddPcArm, IsAdrArm, IsLdrLiteralArm, IsMovPcArm, IsBlxArm, IsBlArm, IsBArm, IsBxPcArm;
  }

  /** The words of the block are in the trampoline. */
  lemma ArmBlockWords(target: nat, code: seq<Word>, mem: Memory, k: nat)
    requires k < |code|
    ensures var bs := ArmBlocks(target, code, mem, 0); var (ws, l) := (ExpandArm(target + 8 + 4 * k, code[k], mem), |Words(bs[..k])|);
      && bs[k].words == ws && |Words(bs[..k + 1])| == l + |ws| <= |Words(bs)|
      && forall j :: 0 <= j < |ws| ==> Words(bs)[l + j] == ws[j]
  {
    hide ExpandArm, ArmBlocks, Words;
    var bs := ArmBlocks(target, code, mem, 0);
    ArmBlockAt(target, code, mem, 0, k);
    WordsNext(bs, k);
    WordsGrow(bs, k + 1);
    forall j | 0 <= j < |bs[k].words|
      ensures |Words(bs[..k])| + j < |Words(bs)| && Words(bs)[|Words(bs[..k])| + j] == bs[k].words[j]
    {
      WordsAt(bs, k, j);
    }
  }

  /** In the trampoline of every ARM window, an instruction that is not listed stands unchanged. */
  lemma PlainStandsArm(target: nat, code: seq<Word>, mem: Memory, k: nat)
    requires k < |code| && !ListedArm(code[k])
    ensures var bs := ArmBlocks(target, code, mem, 0); var l := |Words(bs[..k])|;
      |Words(bs[..k + 1])| == l + 1 <= |Words(bs)| && Words(bs)[l] == code[k]
  {
    hide ExpandArm, ListedArm, ArmBlocks, Words;
    ArmBlockWords(target, code, mem, k);
    PlainWord(target + 8 + 4 * k, code[k], mem);
    var bs := ArmBlocks(target, code, mem, 0);
    assert Words(bs)[|Words(bs[..k])| + 0] == ExpandArm(target + 8 + 4 * k, code[k], mem)[0];
  }

  lemma HighWord(w: nat, h: nat)
    requires w / 0x1_0000 == h
    ensures w / 0x1000_0000 == h / 0x1000 && w / 0x200_0000 == h / 0x200 && w / 0x100_0000 == h / 0x100 && w / 0x80_0000 == h / 0x80
      && w / 0x40_0000 == h / 0x40 && w / 0x20_0000 == h / 0x20 && w / 0x10_0000 == h / 0x10
  {
  }

  /** LDR Rr, [PC, #-0] and LDR Rr, [PC, #8] */
  lemma LdrWords(r: nat)
    requires r < 16
    ensures var w: Word := 0xe51f_0000 + r * 0x1000;
      IsLdrLiteralArm(w) && w / 0x1000 % 16 == r && ConditionArm(w) == 14 && LdrOffsetArm(w) == 0
    ensures var w: Word := 0xe59f_0008 + r * 0x1000;
      IsLdrLiteralArm(w) && w / 0x1000 % 16 == r && ConditionArm(w) == 14 && LdrOffsetArm(w) == 8
  {
    HighWord(0xe51f_0000 + r * 0x1000, 0xe51f);
    HighWord(0xe59f_0008 + r * 0x1000, 0xe59f);
  }

  lemma BitTwentyThree(i: Word)
    ensures BitOf(i, 23) == i / 0x80_0000 % 2
  {
    ShiftTwelve(i, 11);
    ShiftThree(i / 0x1000, 8);
    ShiftThree(i / 0x8000, 5);
    ShiftThree(i / 0x4_0000, 2);
    SmallShifts(i / 0x20_0000);
  }

  /** LDR Rr, [PC, #-0]; ADD PC, PC, #0; the value */
  lemma LoadWordsArm(pc: nat, i: Word, mem: Memory)
    requires IsLdrLiteralArm(i) || IsMovPcArm(i) || IsAdrArm(i)
    ensures var ws := ExpandArm(pc, i, mem);
      && |ws| == 3 && ws[0] == 0xe51f_0000 + i / 0x1000 % 16 * 0x1000 && ws[1] == SKIP_ARM && ws[2] == ValueArm(pc, i, mem)
      && (IsLdrLiteralArm(i) ==> ws[2] == mem(pc + LdrOffsetArm(i))) && (IsMovPcArm(i) ==> ws[2] == Sum32(pc, 0))
  {
    TypesArm(i);
    BitTwentyThree(i);
    hide TypeInArm, TargetArm, IsAddPcArm, IsAdrArm, IsLdrLiteralArm, IsMovPcArm, BitOf, Sum32;
  }

  /** A moved literal load loads what the original loads and MOV Rd, PC the PC of the window, each into its own register,
      under every condition; both go on behind their block. */
  lemma LoadStandsArm(target: nat, code: seq<Word>, mem: Memory, k: nat)
    requires k < |code| && (IsLdrLiteralArm(code[k]) || IsMovPcArm(code[k]))
    ensures var bs := ArmBlocks(target, code, mem, 0); var (i, pc, l) := (code[k], target + 8 + 4 * k, |Words(bs[..k])|);
      && |Words(bs[..k + 1])| == l + 3 <= |Words(bs)| && Words(bs)[l + 1] == SKIP_ARM
      && (IsLdrLiteralArm(i) ==> LoadsArm(Words(bs), l, i / 0x1000 % 16, mem(pc + LdrOffsetArm(i))))
      && (IsMovPcArm(i) ==> LoadsArm(Words(bs), l, i / 0x1000 % 16, Sum32(pc, 0)))
  {
    hide ExpandArm, ArmBlocks, Words, ValueArm, IsMovPcArm, IsLdrLiteralArm, LdrOffsetArm, Sum32, ConditionArm;
    var bs := ArmBlocks(target, code, mem, 0);
    var l := |Words(bs[..k])|;
    ArmBlockWords(target, code, mem, k);
    LoadWordsArm(target + 8 + 4 * k, code[k], mem);
    LdrWords(code[k] / 0x1000 % 16);
    assert Words(bs)[l + 0] == 0xe51f_0000 + code[k] / 0x1000 % 16 * 0x1000;
  }

  /** The load is executed under every condition: it keeps the condition of the original exactly if that has none. */
  lemma LoadConditionKept(pc: nat, i: Word, mem: Memory)
    requires IsLdrLiteralArm(i) || IsMovPcArm(i) || IsAdrArm(i)
    ensures ExpandArm(pc, i, mem)[0] / 0x1000_0000 == ConditionArm(i) <==> ConditionArm(i) == 14
  {
    LoadWordsArm(pc, i, mem);
    hide ExpandArm;
  }

  /** PUSH {Rr}; LDR Rr, [PC, #8]; ADD with Rr for the PC; POP {Rr}; ADD PC, PC, #0; the PC of the window */
  lemma AddWordsArm(pc: nat, i: Word, mem: Memory)
    requires IsAddPcArm(i)
    ensures var (ws, r) := (ExpandArm(pc, i, mem), ScratchArm(i / 0x1000 % 16, i % 16));
      && |ws| == 6 && ws[0] == 0xe52d_0004 + r * 0x1000 && ws[1] == 0xe59f_0008 + r * 0x1000
      && ws[2] == i / 0x10_0000 * 0x10_0000 + r * 0x1_0000 + i % 0x1_0000
      && ws[3] == 0xe49d_0004 + r * 0x1000 && ws[4] == SKIP_ARM && ws[5] == Sum32(pc, 0)
  {
    TypesArm(i);
    hide TypeInArm, TargetArm, ValueArm, IsAddPcArm, Sum32;
  }

  /** A moved ADD Rd, PC, Rm saves a register that it does not use, loads the PC of the window into it, adds with it in
      place of the PC, restores it, and goes on behind its block. */
  lemma AddStandsArm(target: nat, code: seq<Word>, mem: Memory, k: nat)
    requires k < |code| && IsAddPcArm(code[k])
    ensures var bs := ArmBlocks(target, code, mem, 0);
      var (i, l, ws, r) := (code[k], |Words(bs[..k])|, Words(bs), ScratchArm(code[k] / 0x1000 % 16, code[k] % 16));
      && |Words(bs[..k + 1])| == l + 6 <= |ws| && r != i / 0x1000 % 16 && r != i % 16
      && ws[l] == 0xe52d_0004 + r * 0x1000 && LoadsArm(ws, l + 1, r, Sum32(target + 8 + 4 * k, 0))
      && ws[l + 2] / 0x10_0000 == i / 0x10_0000 && ws[l + 2] / 0x1_0000 % 16 == r && ws[l + 2] % 0x1_0000 == i % 0x1_0000
      && ws[l + 3] == 0xe49d_0004 + r * 0x1000 && ws[l + 4] == SKIP_ARM
  {
    hide ExpandArm, ArmBlocks, Words, IsAddPcArm, IsLdrLiteralArm, LdrOffsetArm, Sum32, ConditionArm;
    var bs := ArmBlocks(target, code, mem, 0);
    var (i, l, r) := (code[k], |Words(bs[..k])|, ScratchArm(code[k] / 0x1000 % 16, code[k] % 16));
    ArmBlockWords(target, code, mem, k);
    AddWordsArm(target + 8 + 4 * k, i, mem);
    LdrWords(r);
    OperandReplaced(i / 0x10_0000, r, i % 0x1_0000);
    assert Words(bs)[l + 0] == 0xe52d_0004 + r * 0x1000;
  }

  lemma OperandReplaced(hi: nat, r: nat, lo: nat)
    requires r < 16 && lo < 0x1_0000
    ensures var w := hi * 0x10_0000 + r * 0x1_0000 + lo; w / 0x10_0000 == hi && w / 0x1_0000 % 16 == r && w % 0x1_0000 == lo
  {
  }

  /** The constant of a data-processing instruction: eight bits, rotated right by twice the upper four. */
  function ModifiedConstant(imm: nat): int
    requires imm < 0x1000
  {
    RotateRight(imm % 0x100, imm / 0x100 * 2)
  }

  /** A word rotated right by n bits. */
  function RotateRight(x: nat, n: nat): int
    requires n < 32
  {
    x / Pow2(n) + x % Pow2(n) * Pow2(32 - n)
  }

  /** What ADR Rd, label computes. */
  function AdrValueArm(pc: nat, i: Word): Word {
    Sum32(pc, if i / 0x10_0000 % 0x100 == 0x24 then -ModifiedConstant(i % 0x1000) else ModifiedConstant(i % 0x1000))
  }

  /** A moved ADR loads the right address exactly when its constant is not rotated. */
  lemma AdrExactArm(pc: nat, i: Word, mem: Memory)
    requires IsAdrArm(i)
    ensures var ws := ExpandArm(pc, i, mem); |ws| == 3 && (ws[2] == AdrValueArm(pc, i) <==> i / 0x100 % 16 == 0)
  {
    hide ExpandArm, ModifiedConstant, IsAdrArm, Sum32;
    AdrOperandArm(pc, i, mem);
    var imm := i % 0x1000;
    RotationExact(imm);
    Rotation(i);
    SameSum(pc, imm, ModifiedConstant(imm));
    SameSum(pc, -(imm as int), -ModifiedConstant(imm));
  }

  lemma Rotation(i: nat)
    ensures i % 0x1000 < 0x100 <==> i / 0x100 % 16 == 0
  {
    var q := i / 0x100;
    assert i == 0x1000 * (q / 16) + (q % 16 * 0x100 + i % 0x100);
    Remainder(i, 0x1000, q / 16, q % 16 * 0x100 + i % 0x100);
  }

  lemma AdrOperandArm(pc: nat, i: Word, mem: Memory)
    requires IsAdrArm(i)
    ensures var ws := ExpandArm(pc, i, mem);
      |ws| == 3 && ws[2] == Sum32(pc, if i / 0x10_0000 % 0x100 == 0x24 then -((i % 0x1000) as int) else i % 0x1000)
  {
    hide ExpandArm, TypeInArm, IsAdrArm, Sum32;
    LoadWordsArm(pc, i, mem);
    AdrFormArm(i);
  }

  lemma AdrFormArm(i: Word)
    requires IsAdrArm(i)
    ensures TypeInArm(i) == if i / 0x10_0000 % 0x100 == 0x24 then Adr2_Arm else Adr1_Arm
  {
    TypesArm(i);
    LowParts(i);
    hide BitOf, ConditionArm;
  }

  /** Rotation changes every constant. */
  lemma RotationExact(imm: nat)
    requires imm < 0x1000
    ensures 0 <= ModifiedConstant(imm) < 0x1_0000_0000 && (ModifiedConstant(imm) == imm <==> imm < 0x100)
  {
    hide Pow2;
    var (x, n) := (imm % 0x100, imm / 0x100 * 2);
    if n == 0 {
      NotRotated(x);
    } else if n < 8 {
      SmallRotation(x, n);
    } else {
      Pow2Grows(8, n);
      Powers();
      SmallQuotient(x, Pow2(n));
      LargeRotation(x, n);
    }
  }

  lemma Powers()
    ensures Pow2(2) == 4 && Pow2(4) == 16 && Pow2(6) == 64 && Pow2(8) == 0x100 && Pow2(10) == 0x400 && Pow2(12) == 0x1000
    ensures Pow2(24) == 0x100_0000 && Pow2(26) == 0x400_0000 && Pow2(28) == 0x1000_0000 && Pow2(30) == 0x4000_0000
  {
    assert Pow2(2) == 2 * Pow2(1) == 4;
    Pow2Plus(2, 2);
    Pow2Plus(4, 2);
    Pow2Plus(4, 4);
    Pow2Plus(8, 2);
    Pow2Plus(8, 4);
    Pow2Plus(12, 12);
    Pow2Plus(24, 2);
    Pow2Plus(24, 4);
    Pow2Plus(24, 6);
  }

  lemma NotRotated(x: nat)
    ensures RotateRight(x, 0) == x
  {
  }

  lemma SmallQuotient(x: nat, p: nat)
    requires x < p
    ensures x / p == 0 && x % p == x
  {
  }

  lemma SmallRotation(x: nat, n: nat)
    requires x < 0x100 && n in {2, 4, 6}
    ensures 0 <= RotateRight(x, n) < 0x1_0000_0000 && RotateRight(x, n) != n / 2 * 0x100 + x
  {
    Powers();
    hide Pow2;
  }

  lemma LargeRotation(x: nat, n: nat)
    requires x < 0x100 && 8 <= n <= 30 && n % 2 == 0
    ensures x * Pow2(32 - n) < 0x1_0000_0000 && x * Pow2(32 - n) != n / 2 * 0x100 + x
  {
    Powers();
    var m := 32 - n;
    Pow2Grows(m, 24);
    hide Pow2;
    if m >= 12 {
      Pow2Grows(12, m);
      Between(x, Pow2(m));
    } else {
      assert m in {2, 4, 6, 8, 10};
    }
  }

  lemma Between(x: nat, p: nat)
    requires x < 0x100 && 0x1000 <= p <= 0x100_0000
    ensures x * p < 0x1_0000_0000 && (x > 0 ==> x * p >= 0x1000)
  {
    if x > 0 {
      AtLeast(p, x);
    }
    assert x * p <= 0x100 * p - p by {
      Distribute(p, 0xff, -(x as int));
      AtLeast(p, 0xff - x);
    }
  }
}
