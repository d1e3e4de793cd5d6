/** What the trampoline of the 64-bit inline hook makes of literal loads, ADR and ADRP: which register they load, and with
    what. */
module A64Loads {
  import opened A64FixMap
  import opened A64Isa
  import opened A64Layout
  import opened A64Meaning
  import opened Bits
  import opened Options

  // ---------- the targets that the code computes ----------

  /** The displacement of 19 bits as the code computes it, without the two lowest bits. */
  lemma FieldBytes(ins: Word)
    ensures Imm19Bytes(ins) - Imm19Bytes(ins) % 4 == 4 * Offset19(ins) + if Offset19(ins) < 0 then 0x1_0000_0000 else 0
  {
    var (f, lo) := (ins / 32 % 0x8_0000, ins % 32);
    var top := ins / 0x100_0000;
    assert ins * 0x100 == 0x1_0000_0000 * top + (f * 0x2000 + lo * 0x100) by {
      assert ins / 32 == 0x8_0000 * top + f;
    }
    Remainder(ins * 0x100, 0x1_0000_0000, top, f * 0x2000 + lo * 0x100);
    ShiftedField(f, lo);
  }

  lemma ShiftedField(f: nat, lo: nat)
    requires f < 0x8_0000 && lo < 32
    ensures var b := Signed(f * 0x2000 + lo * 0x100, 0x8000_0000) / 0x800 % 0x1_0000_0000;
      b - b % 4 == 4 * f + if f < 0x4_0000 then 0 else 0x1_0000_0000 - 0x20_0000
  {
    assert (f * 0x2000 + lo * 0x100) / 0x800 == 4 * f + lo / 8;
    assert (f * 0x2000 + lo * 0x100 - 0x1_0000_0000) / 0x800 == 4 * f + lo / 8 - 0x20_0000;
  }

  lemma AdrField(ins: Word)
    ensures AdrBytes(ins) == Offset21(ins) + if Offset21(ins) < 0 then 0x1_0000_0000 else 0
    ensures Offset21(ins) % 4 == ins / 0x2000_0000 % 4
  {
    hide Imm19Bytes;
    FieldBytes(ins);
    LowestBits(ins);
  }

  lemma LowestBits(ins: Word)
    ensures ins * 2 % 0x1_0000_0000 / 0x4000_0000 == ins / 0x2000_0000 % 4
  {
    var q := ins / 0x2000_0000;
    assert ins * 2 == 0x1_0000_0000 * (q / 4) + (q % 4 * 0x4000_0000 + ins % 0x2000_0000 * 2);
    Remainder(ins * 2, 0x1_0000_0000, q / 4, q % 4 * 0x4000_0000 + ins % 0x2000_0000 * 2);
  }

  /** The code finds the literal exactly when it is not in front of the load, and otherwise a place 4 GB behind it. */
  lemma LiteralTargetExact(ins: Word, addr: int)
    ensures LiteralTarget(ins, addr) == addr + 4 * Offset19(ins) <==> Offset19(ins) >= 0
    ensures Offset19(ins) < 0 ==> LiteralTarget(ins, addr) == addr + 4 * Offset19(ins) + 0x1_0000_0000
  {
    hide Imm19Bytes, Offset19;
    FieldBytes(ins);
  }

  /** The same for ADR and for ADRP. */
  lemma AdrTargetExact(ins: Word, addr: int)
    ensures AdrTarget(ins, addr) == addr + Offset21(ins) <==> Offset21(ins) >= 0
    ensures Offset21(ins) < 0 ==> AdrTarget(ins, addr) == addr + Offset21(ins) + 0x1_0000_0000
  {
    hide AdrBytes, Offset21;
    AdrField(ins);
  }

  /** The address that ADRP at addr computes. */
  function PageOf(ins: Word, addr: int): int { addr - addr % 0x1000 + Offset21(ins) * 0x1000 }

  lemma AdrpTargetExact(ins: Word, addr: int)
    ensures AdrpTarget(ins, addr) == PageOf(ins, addr) <==> Offset21(ins) >= 0
    ensures Offset21(ins) < 0 ==> AdrpTarget(ins, addr) == PageOf(ins, addr) + 0x1_0000_0000
  {
    hide AdrBytes;
    AdrField(ins);
    PageBits(Offset21(ins));
    hide Offset21;
  }

  lemma PageBits(d: int)
    requires -0x10_0000 <= d < 0x10_0000
    ensures (d + if d < 0 then 0x1_0000_0000 else 0) * 0x1000 % 0x1_0000_0000 == d * 0x1000 + if d < 0 then 0x1_0000_0000 else 0
  {
    if d < 0 {
      Remainder((d + 0x1_0000_0000) * 0x1000, 0x1_0000_0000, 0xfff, d * 0x1000 + 0x1_0000_0000);
    } else {
      Remainder(d * 0x1000, 0x1_0000_0000, 0, d * 0x1000);
    }
  }

  /** LDR X0 of the literal in front of it. */
  lemma BackwardLiteralMissed(addr: int)
    ensures IsLoadX(0x58ff_ffe0) && Offset19(0x58ff_ffe0) == -1 && LiteralTarget(0x58ff_ffe0, addr) == addr - 4 + 0x1_0000_0000
  {
    LiteralTargetExact(0x58ff_ffe0, addr);
  }

  // ---------- single words ----------

  /** A word with the opcode and the register of ins and the displacement d. */
  predicate HasField(w: nat, ins: Word, d: int) {
    Top(ins) == w / 0x100_0000 && w % 32 == ins % 32 && Offset19(w) == d
  }

  lemma FieldWord(top: nat, f: nat, lo: nat)
    requires top < 0x100 && f < 0x8_0000 && lo < 32
    ensures var w := 32 * (top * 0x8_0000 + f) + lo;
      w < 0x1_0000_0000 && w / 0x100_0000 == top && w % 32 == lo && w / 32 % 0x8_0000 == f && w / 0x2000_0000 == top / 32
  {
    var w: nat := 32 * (top * 0x8_0000 + f) + lo;
    assert w / 32 == top * 0x8_0000 + f;
    assert w / 0x100_0000 == top by {
      assert w == 0x100_0000 * top + (32 * f + lo);
    }
    assert w / 0x2000_0000 == w / 0x100_0000 / 32;
  }

  /** LDR #0x8 with the opcode and the register of ins. */
  lemma SkipLoad(ins: Word)
    ensures HasField(Or(64, KeepEnds(ins)), ins, 2)
  {
    var top := Top(ins);
    Joined(0, 2, 0, top, 0, ins % 32);
    FieldWord(top, 2, ins % 32);
    hide Or;
  }

  /** Two words joined by their parts. */
  lemma Joined(h: nat, f: nat, x: nat, top: nat, g: nat, lo: nat)
    requires h < 0x100 && top < 0x100 && f < 0x8_0000 && g < 0x8_0000 && x < 32 && lo < 32
    ensures Or(h * 0x100_0000 + f * 32 + x, top * 0x100_0000 + g * 32 + lo)
      == 32 * (Or(h, top) * 0x8_0000 + Or(f, g)) + Or(x, lo)
    ensures Or(f, 0) == f && Or(0, g) == g && Or(0, lo) == lo && Or(0, top) == top && Or(x, 0) == x
  {
    assert Pow2(5) == 32;
    Pow2Values();
    OrSplit(h * 0x8_0000 + f, x, top * 0x8_0000 + g, lo, 5);
    OrSplit(h, f, top, g, 19);
    OrZero(f);
    OrZero(x);
    hide Or, Pow2;
    assert h * 0x100_0000 + f * 32 + x == 32 * (h * 0x8_0000 + f) + x;
    assert top * 0x100_0000 + g * 32 + lo == 32 * (top * 0x8_0000 + g) + lo;
  }

  lemma OrZero(a: nat)
    ensures Or(a, 0) == a && Or(0, a) == a
  {
  }

  /** The displacement field of the near form; a negative displacement sets the bits of the opcode as well that the
      mask leaves open. */
  lemma NearField(off: int, keep: nat)
    requires -0x4_0000 <= off < 0x4_0000 && keep in {0, 1, 3}
    ensures var h := if off >= 0 || keep == 0 then 0 else if keep == 1 then 0x40 else 0xc0;
      LiteralField(off, keep) == h * 0x100_0000 + off % 0x8_0000 * 32
  {
    if off >= 0 {
      assert off * 32 % 0x1_0000_0000 == off * 32;
    } else {
      assert off * 32 % 0x1_0000_0000 == off * 32 + 0x1_0000_0000;
      assert off % 0x8_0000 == off + 0x8_0000;
    }
  }

  lemma OpcodeBits(top: nat)
    ensures top in {0x18, 0x58} ==> Or(0x40, top) == 0x58
    ensures top in {0x1c, 0x5c, 0x9c, 0xdc} ==> Or(0xc0, top) == 0xdc
  {
    hide Or;
    TwoBits();
    SizeBits(1, top / 0x40, top % 0x40);
    SizeBits(3, top / 0x40, top % 0x40);
  }

  lemma TwoBits()
    ensures Or(1, 0) == 1 && Or(1, 1) == 1 && Or(3, 0) == 3 && Or(3, 1) == 3 && Or(3, 2) == 3 && Or(3, 3) == 3
  {
  }

  lemma SizeBits(h: nat, t: nat, lo: nat)
    requires lo < 0x40
    ensures Or(0x40 * h, 0x40 * t + lo) == 0x40 * Or(h, t) + lo
  {
    OrSplit(h, 0, t, lo, 6);
    OrZero(lo);
    assert Pow2(6) == 0x40;
    hide Or, Pow2;
  }

  /** The highest byte of the near form of a load: a negative displacement makes LDR Wt an LDR Xt, and loads of SIMD
      registers something that is not allocated. */
  function NearTop(top: nat, off: int): nat {
    if off >= 0 || top in {0x58, 0x98} then top else if top == 0x18 then 0x58 else 0xdc
  }

  lemma LoadMasks(ins: Word)
    requires IsLiteral(ins) && !IsPrefetch(ins)
    ensures KindOf(ins).LoadLiteral? && Top(ins) in {0x18, 0x58, 0x98, 0x1c, 0x5c, 0x9c, 0xdc}
    ensures KindOf(ins).keep == if Top(ins) in {0x18, 0x58} then 1 else if Top(ins) == 0x98 then 0 else 3
    ensures KindOf(ins).align in {3, 7, 15}
  {
    TopFields(ins);
    LiteralTops(Top(ins));
    SevenTop(Top(ins));
  }

  /** The bits of the opcode that the displacement runs into. */
  function HighBits(top: nat, off: int): (h: nat)
    ensures h < 0x100
  {
    if off >= 0 || top == 0x98 then 0 else if top in {0x18, 0x58} then 0x40 else 0xc0
  }

  lemma NearOpcode(top: nat, off: int)
    requires top in {0x18, 0x58, 0x98, 0x1c, 0x5c, 0x9c, 0xdc}
    ensures Or(HighBits(top, off), top) == NearTop(top, off) < 0x100
  {
    hide Or;
    OpcodeBits(top);
    OrZero(top);
  }

  lemma FieldOf(ins: Word, off: int)
    requires IsLiteral(ins) && !IsPrefetch(ins) && KindOf(ins).LoadLiteral? && -0x4_0000 <= off < 0x4_0000
    ensures LiteralField(off, KindOf(ins).keep) == HighBits(Top(ins), off) * 0x100_0000 + off % 0x8_0000 * 32
    ensures Top(ins) in {0x18, 0x58, 0x98, 0x1c, 0x5c, 0x9c, 0xdc}
  {
    LoadMasks(ins);
    hide KindOf, LiteralField, IsLiteral, IsPrefetch, Top;
    NearField(off, KindOf(ins).keep);
  }

  /** The near form of a load keeps its register and has the displacement. */
  lemma NearWord(ins: Word, off: int)
    requires IsLiteral(ins) && !IsPrefetch(ins) && KindOf(ins).LoadLiteral? && -0x4_0000 <= off < 0x4_0000
    ensures var w := Or(LiteralField(off, KindOf(ins).keep), KeepEnds(ins));
      w < 0x1_0000_0000 && w % 32 == ins % 32 && Offset19(w) == off && Top(w) == NearTop(Top(ins), off)
  {
    FieldOf(ins, off);
    NearOpcode(Top(ins), off);
    var (top, f, lo) := (Top(ins), off % 0x8_0000, ins % 32);
    Joined(HighBits(top, off), f, 0, top, 0, lo);
    FieldWord(NearTop(top, off), f, lo);
    SignedField(off);
    hide KindOf, Or, LiteralField, IsLiteral, IsPrefetch, NearTop, HighBits, Signed;
  }

  lemma SignedField(off: int)
    requires -0x4_0000 <= off < 0x4_0000
    ensures Signed(off % 0x8_0000, 0x4_0000) == off
  {
  }

  /** LDR W0 of a literal in front of the row becomes LDR X0. */
  lemma NearLoadWidened()
    ensures KindOf(0x1800_0000) == LoadLiteral(3, 1)
    ensures var w := Or(LiteralField(-1, 1), KeepEnds(0x1800_0000)); !IsLoadX(0x1800_0000) && IsLoadX(w) && w % 32 == 0
  {
    hide Or, LiteralField, KeepEnds;
    NearWord(0x1800_0000, -1);
    TopFields(Or(LiteralField(-1, 1), KeepEnds(0x1800_0000)));
  }

  /** ADR with the displacement in words d. */
  lemma AdrWord(ins: Word, d: int, x: nat)
    requires IsAdr(ins) && x < 32
    ensures var w := 32 * (Top(ins) * 0x8_0000 + d % 0x8_0000) + x;
      && w < 0x1_0000_0000 && IsAdr(w) && w % 32 == x
      && Offset21(w) == Signed(d % 0x8_0000 * 4 + ins / 0x2000_0000 % 4, 0x10_0000)
  {
    TopFields(ins);
    FieldWord(Top(ins), d % 0x8_0000, x);
    assert ins / 0x2000_0000 == Top(ins) / 32;
  }

  lemma SignedBack(off: int)
    requires -0x10_0000 <= off < 0x10_0000
    ensures Signed(off / 4 % 0x8_0000 * 4 + off % 4, 0x10_0000) == off
  {
  }

  /** The near form of ADR has the right displacement, but its two lowest bits run into the register: it is the right one
      exactly when they are set there anyway. */
  lemma NearAdr(ins: Word, off: int)
    requires IsAdr(ins) && -0x10_0000 <= off < 0x10_0000 && off % 4 == ins / 0x2000_0000 % 4
    ensures var w := Or(off * 8 % 0x100_0000, KeepEnds(ins));
      w < 0x1_0000_0000 && IsAdr(w) && Offset21(w) == off && w % 32 == Or(8 * (off % 4), ins % 32)
  {
    hide Or, IsAdr, Offset21, Signed, Top;
    ShiftedOffset(off);
    FiveBits(8 * (off % 4), ins % 32);
    JoinedLow(off / 4 % 0x8_0000, 8 * (off % 4), ins);
    AdrWord(ins, off / 4, Or(8 * (off % 4), ins % 32));
    SignedBack(off);
  }

  lemma JoinedLow(f: nat, x: nat, ins: Word)
    requires f < 0x8_0000 && x < 32
    ensures Or(f * 32 + x, KeepEnds(ins)) == 32 * (Top(ins) * 0x8_0000 + f) + Or(x, ins % 32)
  {
    Joined(0, f, x, Top(ins), 0, ins % 32);
    hide Or;
  }

  lemma ShiftedOffset(off: int)
    ensures off * 8 % 0x100_0000 == off / 4 % 0x8_0000 * 32 + 8 * (off % 4)
  {
    var d := off / 4;
    Remainder(off * 8, 0x100_0000, d / 0x8_0000, d % 0x8_0000 * 32 + 8 * (off % 4));
  }

  lemma FiveBits(x: nat, y: nat)
    requires x < 32 && y < 32
    ensures Or(x, y) < 32
  {
    assert Pow2(5) == 32;
    OrBelow(x, y, 5);
  }

  /** ADR X0 of an odd address becomes ADR X8. */
  lemma AdrIntoX8(off: int)
    requires -0x10_0000 <= off < 0x10_0000 && off % 4 == 1
    ensures IsAdr(0x3000_0000) && 0x3000_0000 % 32 == 0 && Or(off * 8 % 0x100_0000, KeepEnds(0x3000_0000)) % 32 == 8
  {
    hide Or;
    NearAdr(0x3000_0000, off);
    OrZero(8);
  }

  /** ADR with a patched field. */
  lemma PatchedAdr(ins: Word, k: nat, pos: nat)
    requires IsAdr(ins) && k <= pos < k + 0x2000
    ensures var w := Patched(KeepEnds(ins), Fix(k, ImmAdr), pos);
      w < 0x1_0000_0000 && IsAdr(w) && w % 32 == ins % 32 && Offset21(w) == 4 * (pos - k) + ins / 0x2000_0000 % 4
  {
    hide Or, IsAdr, FieldBits, Offset21;
    SmallField(pos - k);
    OrSwap(KeepEnds(ins), 32 * (pos - k));
    Joined(0, pos - k, 0, Top(ins), 0, ins % 32);
    AdrWord(ins, pos - k, ins % 32);
  }

  lemma SmallField(d: nat)
    requires d < 0x2000
    ensures FieldBits(ImmAdr, d) == 32 * d && d % 0x8_0000 == d
  {
  }

  lemma EmptyAdr(ins: Word)
    requires IsAdr(ins)
    ensures KeepEnds(ins) < 0x1_0000_0000 && IsAdr(KeepEnds(ins)) && KeepEnds(ins) % 32 == ins % 32
    ensures Offset21(KeepEnds(ins)) == ins / 0x2000_0000 % 4
  {
    hide IsAdr;
    AdrWord(ins, 0, ins % 32);
  }

  // ---------- whole blocks ----------

  /** LDR #0x8 into the register of ins stands at word p; the word behind it branches over the literal. */
  predicate SkipStands(row: seq<nat>, p: nat, ins: Word, top: nat, behind: nat) {
    && p + 2 <= behind <= |row| && row[p] / 0x100_0000 == top && row[p] % 32 == ins % 32 && Offset19(row[p]) == 2
    && IsBranch(row[p + 1]) && p + 1 + Offset26(row[p + 1]) == behind
  }

  /** A copy of the literal at target stands behind the load, on its own boundary. */
  ghost predicate CopyStands(env: Env, row: seq<nat>, p: nat, ins: Word, target: int, behind: nat) {
    && SkipStands(row, p, ins, Top(ins), behind) && 4 * (behind - p - 2) >= LiteralSize(ins)
    && env.OutAddr(p + 2) % LiteralSize(ins) == 0
    && forall j :: 0 <= j < behind - p - 2 ==> row[p + 2 + j] == env.mem(target + 4 * j)
  }

  /** The load reads target itself. */
  predicate NearStands(env: Env, row: seq<nat>, p: nat, ins: Word, target: int, behind: nat) {
    && p + 1 == behind <= |row| && 0 <= row[p] < 0x1_0000_0000 && row[p] % 32 == ins % 32
    && env.OutAddr(p) + 4 * Offset19(row[p]) == target && Top(row[p]) == NearTop(Top(ins), Offset19(row[p]))
  }

  /** LDR Xd with the address target behind it. */
  predicate AddressStands(env: Env, row: seq<nat>, p: nat, ins: Word, target: int, behind: nat) {
    SkipStands(row, p, ins, 0x58, behind) && Read64(row, env.outBase, env.OutAddr(p + 2)) == target % TWO64
  }

  lemma CopyLies(env: Env, row: seq<nat>, p: nat, ins: Word, target: int, align: nat)
    requires env.Valid() && IsLiteral(ins) && !IsPrefetch(ins) && align == (if KindOf(ins).LoadLiteral? then KindOf(ins).align else 3)
    requires Lies(row, p, CopyWords(env, ins, target, align)) && SlotAligned(env.OutAddr(p + 2), align)
    ensures CopyStands(env, row, p, ins, target, p + 2 + (align + 1) / 4)
  {
    LoadMasks(ins);
    LiteralRoom(ins);
    SkipLoad(ins);
    var n := (align + 1) / 4;
    assert n in {1, 2, 4};
    SkipBranch(n);
    Multiple(env.OutAddr(p + 2), align + 1, ins);
    hide Or, KeepEnds, KindOf, IsLiteral, IsPrefetch, LiteralSize, SlotAligned, IsBranch;
    var ws := CopyWords(env, ins, target, align);
    assert row[p + 0] == ws[0] && row[p + 1] == ws[1];
    forall j | 0 <= j < n
      ensures row[p + 2 + j] == env.mem(target + 4 * j)
    {
      assert row[p + (2 + j)] == ws[2 + j] == Copied(env, target, n)[j];
    }
  }

  /** B over n words */
  lemma SkipBranch(n: nat)
    requires n < 0x100
    ensures IsBranch(0x1400_0001 + n) && Offset26(0x1400_0001 + n) == 1 + n
  {
  }

  lemma Multiple(a: int, size: nat, ins: Word)
    requires size in {4, 8, 16} && a % size == 0 && size >= LiteralSize(ins)
    ensures a % LiteralSize(ins) == 0
  {
  }

  lemma AddressLies(env: Env, row: seq<nat>, p: nat, ins: Word, target: int)
    requires Lies(row, p, AddressWords(ins, target))
    ensures AddressStands(env, row, p, ins, target, p + 4)
  {
    var head := [0x5800_0040 + ins % 32, 0x1400_0003];
    LiesParts(row, p, head, Literal(target));
    ReadLiteral(row, env.outBase, p + 2, target);
    FieldWord(0x58, 2, ins % 32);
    SkipBranch(2);
    hide Literal, Read64, IsBranch;
    assert row[p + 0] == head[0] && row[p + 1] == head[1];
  }

  lemma LiteralPlan(env: Env, i: nat, k: nat, pos: seq<nat>)
    requires i < |env.code| && |pos| == i && KindOf(env.code[i]).LoadLiteral?
    ensures PlanOf(env, i, k, pos) == PlanLiteral(env, i, k, KindOf(env.code[i]).align, KindOf(env.code[i]).keep)
  {
    hide PlanLiteral;
  }

  lemma PlanAt(env: Env, st: State, i: nat)
    requires Complete(env, st) && i < |env.code|
    ensures env.Valid() && |st.plans| == |st.pos| == |env.code| && |st.starts| == |env.code| + 1
    ensures st.plans[i] == PlanOf(env, i, st.starts[i], st.pos[..i]) && st.pos[i] == st.starts[i] + st.plans[i].lead
  {
    hide PlanOf;
    assert Planned(env, st, i);
  }

  /** In the trampoline of every window, a literal load either stands in front of a copy of what the target holds, or reads
      the target itself; the target is where the code takes the literal to be. */
  lemma LiteralKept(env: Env, st: State, i: nat)
    requires Complete(env, st) && i < |env.code| && IsLiteral(env.code[i]) && !IsPrefetch(env.code[i])
    ensures |st.pos| == |env.code| && |st.starts| == |env.code| + 1
    ensures var (ins, row) := (env.code[i], Row(env, st)); var target := LiteralTarget(ins, env.InAddr(i));
      || CopyStands(env, row, st.pos[i], ins, target, st.starts[i + 1])
      || NearStands(env, row, st.pos[i], ins, target, st.starts[i + 1])
  {
    hide KindOf, PlanOf, PlanLiteral, Row, CopyStands, NearStands, LiteralTarget, Complete, IsLiteral, IsPrefetch, Lies;
    PlanAt(env, st, i);
    LoadMasks(env.code[i]);
    LiteralPlan(env, i, st.starts[i], st.pos[..i]);
    LiteralBlock(env, i, st.starts[i], KindOf(env.code[i]).align, KindOf(env.code[i]).keep);
    BlockLies(env, st, i);
    LiteralLies(env, Row(env, st), i, st.starts[i], st.plans[i]);
  }

  lemma LiteralBlock(env: Env, i: nat, k: nat, align: nat, keep: nat)
    requires i < |env.code| && align in {3, 7, 15}
    ensures PlanLiteral(env, i, k, align, keep).fix.None?
  {
    hide LiteralTarget, LiteralField, Reach, KeepEnds, CopyWords, Misfit, Padding, LiteralFar;
  }

  lemma LiteralLies(env: Env, row: seq<nat>, i: nat, k: nat, p: Plan)
    requires env.Valid() && i < |env.code| && IsLiteral(env.code[i]) && !IsPrefetch(env.code[i]) && KindOf(env.code[i]).LoadLiteral?
    requires KindOf(env.code[i]).align in {3, 7, 15}
    requires p == PlanLiteral(env, i, k, KindOf(env.code[i]).align, KindOf(env.code[i]).keep) && Lies(row, k, p.words)
    ensures var (ins, target) := (env.code[i], LiteralTarget(env.code[i], env.InAddr(i)));
      || CopyStands(env, row, k + p.lead, ins, target, k + |p.words|)
      || NearStands(env, row, k + p.lead, ins, target, k + |p.words|)
  {
    hide LiteralTarget, LiteralField, KeepEnds, KindOf, IsLiteral, IsPrefetch, CopyStands, NearStands, Or, Lies, LiteralFar, Misfit, Padding, SlotAligned, CopyWords, Reach;
    var (ins, align, keep) := (env.code[i], KindOf(env.code[i]).align, KindOf(env.code[i]).keep);
    var target := LiteralTarget(ins, env.InAddr(i));
    var off := Reach(env, target, k);
    if env.Inside(target) || LiteralFar(off, align) {
      var n := Padding(env.OutAddr(k + 2), align);
      LiesParts(row, k, Nops(n), CopyWords(env, ins, target, align));
      CopySlot(env, k, align);
      CopyLies(env, row, k + n, ins, target, align);
    } else {
      NearLies(env, row, i, k, align, keep);
    }
  }

  lemma CopySlot(env: Env, k: nat, align: nat)
    requires env.Valid() && align in {3, 7, 15}
    ensures SlotAligned(env.OutAddr(k + Padding(env.OutAddr(k + 2), align) + 2), align)
  {
    hide SlotAligned, Padding;
    var n := Padding(env.OutAddr(k + 2), align);
    assert env.OutAddr(k + n + 2) == env.OutAddr(k + 2) + 4 * n;
    PadStep(env.OutAddr(k + 2), align, n);
  }

  lemma NearLies(env: Env, row: seq<nat>, i: nat, k: nat, align: nat, keep: nat)
    requires env.Valid() && i < |env.code| && IsLiteral(env.code[i]) && !IsPrefetch(env.code[i]) && align in {3, 7, 15}
    requires KindOf(env.code[i]) == LoadLiteral(align, keep)
    requires var off := Reach(env, LiteralTarget(env.code[i], env.InAddr(i)), k); var n := Misfit(off, align);
      && !LiteralFar(off, align) && Lies(row, k, Nops(n) + [Or(LiteralField(off - n, keep), KeepEnds(env.code[i]))])
    ensures var target := LiteralTarget(env.code[i], env.InAddr(i)); var n := Misfit(Reach(env, target, k), align);
      NearStands(env, row, k + n, env.code[i], target, k + n + 1)
  {
    var (ins, target) := (env.code[i], LiteralTarget(env.code[i], env.InAddr(i)));
    var off := Reach(env, target, k);
    var n := Misfit(off, align);
    NearBound(off, align);
    TargetReached(env, i, k);
    hide LiteralTarget, LiteralField, KeepEnds, KindOf, IsLiteral, IsPrefetch, Or, LiteralFar, Misfit, Reach;
    var word := [Or(LiteralField(off - n, keep), KeepEnds(ins))];
    LiesParts(row, k, Nops(n), word);
    NearWord(ins, off - n);
    assert row[k + n + 0] == word[0];
  }

  lemma NearBound(off: int, align: nat)
    requires align in {3, 7, 15} && !LiteralFar(off, align)
    ensures -0x4_0000 <= off - Misfit(off, align) < 0x4_0000
  {
  }

  lemma TargetReached(env: Env, i: nat, k: nat)
    requires env.Valid() && i < |env.code|
    ensures var target := LiteralTarget(env.code[i], env.InAddr(i)); env.OutAddr(k) + 4 * Reach(env, target, k) == target
  {
    hide Offset19, Imm19Bytes;
    FieldBytes(env.code[i]);
    assert LiteralTarget(env.code[i], env.InAddr(i)) % 4 == 0;
    hide LiteralTarget;
  }

  /** ADR puts the address a into register r. */
  predicate AdrStands(env: Env, row: seq<nat>, p: nat, r: nat, a: int, behind: nat) {
    && p + 1 == behind <= |row| && row[p] < 0x1_0000_0000 && IsAdr(row[p]) && row[p] % 32 == r
    && env.OutAddr(p) + Offset21(row[p]) == a
  }

  /** In the trampoline of every window, ADR becomes the address of the new place if its target is in the window. A near
      target is computed into the register with the two lowest bits of the address run into it, and a far one is loaded.
      The target is where the code takes it to be. */
  lemma AdrKept(env: Env, st: State, i: nat)
    requires Complete(env, st) && i < |env.code| && IsAdr(env.code[i])
    ensures var (ins, row, p, behind) := (env.code[i], Row(env, st), st.pos[i], st.starts[i + 1]);
      var target := AdrTarget(ins, env.InAddr(i));
      if env.Inside(target) then
        AdrStands(env, row, p, ins % 32, env.OutAddr(st.pos[env.RefIndex(target)]) + target % 4, behind)
      else if Abs(target - env.OutAddr(st.starts[i])) >= 0xf_ffff then AddressStands(env, row, p, ins, target, behind)
      else AdrStands(env, row, p, Or(8 * (target % 4), ins % 32), target, behind)
  {
    KindAgrees(env.code[i]);
    assert PlanOf(env, i, st.starts[i], st.pos[..i]) == PlanAdr(env, i, st.starts[i]) by {
      hide PlanAdr, Planned;
    }
    hide KindOf, PlanOf, Row, AdrTarget, IsAdr, AdrStands, AddressStands, PlanAdr, Or;
    assert Planned(env, st, i);
    AdrLowest(env, i);
    if env.Inside(AdrTarget(env.code[i], env.InAddr(i))) {
      AdrInside(env, st, i);
    } else {
      AdrOutside(env, st, i);
    }
  }

  lemma AdrLowest(env: Env, i: nat)
    requires env.Valid() && i < |env.code|
    ensures AdrTarget(env.code[i], env.InAddr(i)) % 4 == env.code[i] / 0x2000_0000 % 4
    ensures AdrTarget(env.code[i], env.InAddr(i)) >= env.InAddr(i)
  {
    hide AdrBytes, Offset21;
    AdrField(env.code[i]);
  }

  lemma AdrInside(env: Env, st: State, i: nat)
    requires Complete(env, st) && i < |env.code| && IsAdr(env.code[i]) && env.Inside(AdrTarget(env.code[i], env.InAddr(i)))
    requires st.plans[i] == PlanAdr(env, i, st.starts[i])
    ensures var (ins, target) := (env.code[i], AdrTarget(env.code[i], env.InAddr(i)));
      AdrStands(env, Row(env, st), st.pos[i], ins % 32, env.OutAddr(st.pos[env.RefIndex(target)]) + target % 4, st.starts[i + 1])
  {
    AdrLowest(env, i);
    hide AdrTarget, KeepEnds, IsAdr, Patched, Settled, Offset21, Tail;
    var (ins, k) := (env.code[i], st.starts[i]);
    var ref := env.RefIndex(AdrTarget(ins, env.InAddr(i)));
    if ref <= i {
      SingleWord(st, |env.code|, i, KeepEnds(ins));
      EmptyAdr(ins);
    } else {
      PatchedWord(st, |env.code|, i, KeepEnds(ins), ref, ImmAdr);
      Places(env, st, i, ref);
      PatchedAdr(ins, k, st.pos[ref]);
    }
  }

  lemma AdrOutside(env: Env, st: State, i: nat)
    requires Complete(env, st) && i < |env.code| && IsAdr(env.code[i]) && !env.Inside(AdrTarget(env.code[i], env.InAddr(i)))
    requires st.plans[i] == PlanAdr(env, i, st.starts[i])
    ensures var (ins, row, p, behind) := (env.code[i], Row(env, st), st.pos[i], st.starts[i + 1]);
      var target := AdrTarget(ins, env.InAddr(i));
      if Abs(target - env.OutAddr(st.starts[i])) >= 0xf_ffff then AddressStands(env, row, p, ins, target, behind)
      else AdrStands(env, row, p, Or(8 * (target % 4), ins % 32), target, behind)
  {
    hide AdrTarget, KeepEnds, IsAdr, Or, Aligned8, AddressWords, AddressStands, AdrStands, Row, Lies, LoadAddress;
    LoadFix(env, env.code[i], st.starts[i], AdrTarget(env.code[i], env.InAddr(i)));
    BlockLies(env, st, i);
    hide Complete;
    AdrLies(env, Row(env, st), i, st.starts[i], st.plans[i]);
  }

  lemma LoadFix(env: Env, ins: Word, k: nat, target: int)
    ensures LoadAddress(env, ins, k, target).fix.None?
  {
  }

  lemma AdrLies(env: Env, row: seq<nat>, i: nat, k: nat, p: Plan)
    requires env.Valid() && i < |env.code| && IsAdr(env.code[i]) && !env.Inside(AdrTarget(env.code[i], env.InAddr(i)))
    requires p == PlanAdr(env, i, k) && Lies(row, k, p.words)
    ensures var (ins, target) := (env.code[i], AdrTarget(env.code[i], env.InAddr(i)));
      if Abs(target - env.OutAddr(k)) >= 0xf_ffff then AddressStands(env, row, k + p.lead, ins, target, k + |p.words|)
      else AdrStands(env, row, k + p.lead, Or(8 * (target % 4), ins % 32), target, k + |p.words|)
  {
    AdrLowest(env, i);
    var (ins, target) := (env.code[i], AdrTarget(env.code[i], env.InAddr(i)));
    OffsetLow(env, target, k);
    hide AdrTarget, KeepEnds, IsAdr, Or, AddressStands, AdrStands, Lies, LoadAddress;
    if Abs(target - env.OutAddr(k)) >= 0xf_ffff {
      LoadLies(env, row, k, ins, target);
    } else {
      AdrNear(env, row, k, ins, target - env.OutAddr(k));
    }
  }

  lemma OffsetLow(env: Env, target: int, k: nat)
    requires env.Valid()
    ensures (target - env.OutAddr(k)) % 4 == target % 4
  {
  }

  lemma AdrNear(env: Env, row: seq<nat>, k: nat, ins: Word, off: int)
    requires IsAdr(ins) && -0x10_0000 <= off < 0x10_0000 && off % 4 == ins / 0x2000_0000 % 4
    requires Lies(row, k, [Or(off * 8 % 0x100_0000, KeepEnds(ins))])
    ensures AdrStands(env, row, k, Or(8 * (off % 4), ins % 32), env.OutAddr(k) + off, k + 1)
  {
    hide Or, IsAdr, Offset21, Lies, KeepEnds;
    NearAdr(ins, off);
    OneWord(row, k, Or(off * 8 % 0x100_0000, KeepEnds(ins)));
  }

  lemma OneWord(row: seq<nat>, k: nat, w: nat)
    requires Lies(row, k, [w])
    ensures k + 1 <= |row| && row[k] == w
  {
    assert row[k + 0] == [w][0];
  }

  lemma LoadLies(env: Env, row: seq<nat>, k: nat, ins: Word, target: int)
    requires Lies(row, k, LoadAddress(env, ins, k, target).words)
    ensures var p := LoadAddress(env, ins, k, target); AddressStands(env, row, k + p.lead, ins, target, k + |p.words|)
  {
    hide Lies, AddressStands, AddressWords, Aligned8;
    var n := if Aligned8(env, k + 2) then 0 else 1;
    LiesParts(row, k, Nops(n), AddressWords(ins, target));
    AddressLies(env, row, k + n, ins, target);
  }

  /** ADRP loads the address of its page, unless that is in the window: then it is copied, and computes the same page
      exactly when row and window are in one page. */
  lemma AdrpKept(env: Env, st: State, i: nat)
    requires Complete(env, st) && i < |env.code| && IsAdrp(env.code[i])
    ensures var (ins, row, p, behind) := (env.code[i], Row(env, st), st.pos[i], st.starts[i + 1]);
      var (target, here, there) := (AdrpTarget(ins, env.InAddr(i)), env.InAddr(i), env.OutAddr(p));
      if env.Inside(target) then
        p + 1 == behind <= |row| && row[p] == ins && (PageOf(ins, there) == PageOf(ins, here) <==> there / 0x1000 == here / 0x1000)
      else AddressStands(env, row, p, ins, target, behind)
  {
    KindAgrees(env.code[i]);
    assert PlanOf(env, i, st.starts[i], st.pos[..i]) == PlanAdrp(env, i, st.starts[i]) by {
      hide PlanAdrp, Planned;
    }
    hide KindOf, PlanOf, AdrpTarget, AddressStands, Or, Settled, Tail, Lies, Aligned8, AddressWords, Offset21;
    assert Planned(env, st, i);
    BlockLies(env, st, i);
    var (ins, k, target) := (env.code[i], st.starts[i], AdrpTarget(env.code[i], env.InAddr(i)));
    if env.Inside(target) {
      OneWord(Row(env, st), k, ins);
      OnePage(env.OutAddr(k), env.InAddr(i));
    } else {
      hide Row;
      LoadLies(env, Row(env, st), k, ins, target);
    }
  }

  lemma OnePage(a: int, b: int)
    ensures a - a % 0x1000 == b - b % 0x1000 <==> a / 0x1000 == b / 0x1000
  {
  }
}
