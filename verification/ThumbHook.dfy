/** The Thumb hook of Substrate: the overwritten instructions are copied into a buffer that is sized in a first pass and
    filled in a second one, code growing up from its beginning and the words the code refers to growing down from its end. */
module ThumbHook {
  import opened Bits
  import opened Buffers
  import opened Options
  import opened Sequences
  import opened ThumbIsa

  // ---------- classifiers ----------

  predicate IsCbz(ic: Half) { ic / 0x1000 == 0xb && BitOf(ic, 10) == 0 && BitOf(ic, 8) == 1 }

  predicate IsB(ic: Half) { ic / 0x1000 == 0xd && ic / 0x200 % 8 != 7 }

  predicate IsWideB(ic: Half, next: Half) {
    && ic / 0x800 == 0x1e && BitOf(next, 15) == 1 && BitOf(next, 14) == 0
    && (BitOf(next, 12) == 1 || ic / 0x80 % 8 != 7)
  }

  predicate IsBl(ic: Half, next: Half) {
    ic / 0x800 == 0x1e && BitOf(next, 15) == 1 && BitOf(next, 14) == 1 && (BitOf(next, 12) == 1 || next % 2 == 0)
  }

  predicate IsLdr(ic: Half) { ic / 0x800 == 0x9 }

  predicate IsAdd(ic: Half) { ic / 0x100 == 0x44 && ic / 8 % 16 == 15 }

  predicate IsLdrW(ic: Half) { ic == 0xf85f || ic == 0xf8df }

  datatype Kind = Ldr | B | WideB | Bl | Cbz | LdrW | Add | Wide | Narrow

  /** The classifiers in the order in which both passes try them. Behind the window nothing is read. */
  function KindAt(code: seq<Half>, o: nat): Kind
    requires o < |code|
  {
    var (ic, next) := (code[o], if o + 1 < |code| then code[o + 1] else 0);
    if IsLdr(ic) then Ldr else if IsB(ic) then B else if IsWideB(ic, next) then WideB else if IsBl(ic, next) then Bl
    else if IsCbz(ic) then Cbz else if IsLdrW(ic) then LdrW else if IsAdd(ic) then Add else if Is32Bit(ic) then Wide
    else Narrow
  }

  lemma BitEight(h: Half)
    ensures BitOf(h, 8) == h / 0x100 % 2
  {
    ShiftThree(h, 5);
    ShiftThree(h / 8, 2);
    LowShifts(h / 64);
  }

  lemma BitTen(h: Half)
    ensures BitOf(h, 10) == h / 0x400 % 2
  {
    ShiftThree(h, 7);
    ShiftThree(h / 8, 4);
    ShiftThree(h / 64, 1);
    LowShifts(h / 512);
  }

  lemma BitSeven(h: Half)
    ensures BitOf(h, 7) == h / 0x80 % 2
  {
    ShiftThree(h, 4);
    ShiftThree(h / 8, 1);
    LowShifts(h / 64);
  }

  lemma LowShifts(x: nat)
    ensures ShiftRight(x, 1) == x / 2 && ShiftRight(x, 2) == x / 4
  {
    assert ShiftRight(x, 2) == ShiftRight(x / 2, 1) == ShiftRight(x / 2 / 2, 0);
    assert ShiftRight(x, 1) == ShiftRight(x / 2, 0);
  }

  /** The classifiers find the encodings of the manual. */
  lemma Classified(ic: Half, next: Half)
    ensures IsLdr(ic) <==> IsLdrLiteral(ic)
    ensures IsB(ic) <==> IsCondBranch(ic)
    ensures IsWideB(ic, next) <==> IsCondBranchWide(ic, next) || IsFreeBranchWide(ic, next)
    ensures IsBl(ic, next) <==> IsCallWide(ic, next) || IsCallExchange(ic, next)
    ensures IsCbz(ic) <==> IsCompareBranch(ic)
    ensures IsLdrW(ic) <==> IsLdrLiteralWide(ic)
    ensures IsAdd(ic) <==> IsAddPc(ic)
  {
    ClassifiedCbz(ic);
    ClassifiedWide(ic, next);
    ClassifiedAdd(ic);
    hide IsWideB, IsBl, IsCbz, IsAdd, IsAddPc, IsCondBranchWide, IsFreeBranchWide, IsCallWide, IsCallExchange, IsCompareBranch;
    assert IsB(ic) <==> IsCondBranch(ic) by {
      assert ic / 0x1000 == 0xd ==> ic / 0x200 % 8 == ic / 0x200 - 0x68;
    }
  }

  lemma ClassifiedCbz(ic: Half)
    ensures IsCbz(ic) <==> IsCompareBranch(ic)
  {
    BitEight(ic);
    BitTen(ic);
    Pieces(ic);
    hide BitOf;
  }

  lemma ClassifiedAdd(ic: Half)
    ensures IsAdd(ic) <==> IsAddPc(ic)
  {
    LowPieces(ic);
  }

  lemma ClassifiedWide(ic: Half, next: Half)
    ensures IsWideB(ic, next) <==> IsCondBranchWide(ic, next) || IsFreeBranchWide(ic, next)
    ensures IsBl(ic, next) <==> IsCallWide(ic, next) || IsCallExchange(ic, next)
  {
    TopBits(next);
    assert InBranchSpace(ic) <==> ic / 0x800 == 0x1e;
    assert next / 0x1000 < 16;
    hide BitOf, InBranchSpace;
  }

  lemma Pieces(ic: Half)
    ensures ic / 0x1000 == ic / 0x100 / 16 && ic / 0x800 == ic / 0x100 / 8 && ic / 0x400 == ic / 0x100 / 4 && ic / 0x200 == ic / 0x100 / 2
    ensures ic == ic / 0x100 * 0x100 + ic % 0x100 && ic / 0x100 < 0x100
  {
  }

  lemma LowPieces(ic: Half)
    ensures ic / 8 % 16 == ic % 0x80 / 8
  {
    assert ic / 8 == 16 * (ic / 0x80) + ic % 0x80 / 8;
    Remainder(ic / 8, 16, ic / 0x80, ic % 0x80 / 8);
  }

  /** What an instruction is taken for: each of these encodings for what it is, and everything else for what is copied. */
  lemma Kinds(code: seq<Half>, o: nat)
    requires o < |code|
    ensures var (ic, next, kind) := (code[o], if o + 1 < |code| then code[o + 1] else 0, KindAt(code, o));
      && (IsLdrLiteral(ic) <==> kind == Ldr) && (IsCondBranch(ic) <==> kind == B)
      && (IsCondBranchWide(ic, next) || IsFreeBranchWide(ic, next) <==> kind == WideB)
      && (IsCallWide(ic, next) || IsCallExchange(ic, next) <==> kind == Bl)
      && (IsCompareBranch(ic) <==> kind == Cbz) && (IsLdrLiteralWide(ic) <==> kind == LdrW) && (IsAddPc(ic) <==> kind == Add)
      && (kind in {Wide, Narrow} ==> (kind == Wide <==> Is32Bit(ic)))
  {
    var (ic, next) := (code[o], if o + 1 < |code| then code[o + 1] else 0);
    Classified(ic, next);
    OneEncoding(ic, next);
    hide IsLdr, IsB, IsWideB, IsBl, IsCbz, IsLdrW, IsAdd, IsLdrLiteral, IsCondBranch, IsCondBranchWide, IsFreeBranchWide, IsCallWide,
      IsCallExchange, IsCompareBranch, IsLdrLiteralWide, IsAddPc, Is32Bit;
  }

  /** No instruction has two of these encodings. */
  lemma OneEncoding(ic: Half, next: Half)
    ensures IsLdrLiteral(ic) ==> !IsCondBranch(ic) && !IsCompareBranch(ic) && !IsAddPc(ic) && !Is32Bit(ic)
    ensures IsCondBranch(ic) ==> !IsCompareBranch(ic) && !IsAddPc(ic) && !Is32Bit(ic)
    ensures IsCompareBranch(ic) ==> !IsAddPc(ic) && !Is32Bit(ic)
    ensures IsAddPc(ic) ==> !Is32Bit(ic)
    ensures IsLdrLiteralWide(ic) ==> Is32Bit(ic) && !InBranchSpace(ic)
    ensures InBranchSpace(ic) ==> Is32Bit(ic)
    ensures !((IsCondBranchWide(ic, next) || IsFreeBranchWide(ic, next)) && (IsCallWide(ic, next) || IsCallExchange(ic, next)))
    ensures IsCondBranchWide(ic, next) || IsFreeBranchWide(ic, next) || IsCallWide(ic, next) || IsCallExchange(ic, next) ==> InBranchSpace(ic)
  {
  }

  /** How many halfwords of the window each pass consumes. */
  function Stride(k: Kind): nat {
    if k == WideB || k == Bl || k == LdrW || k == Wide then 2 else 1
  }

  /** MSGetInstructionWidthThumb, in halfwords */
  function Width(ic: Half): nat {
    if Is32Bit(ic) then 2 else 1
  }

  /** Both passes step from instruction to instruction. */
  lemma StrideIsWidth(code: seq<Half>, o: nat)
    requires o < |code|
    ensures Stride(KindAt(code, o)) == Width(code[o])
  {
    hide BitOf;
  }

  /** The window ends where an instruction ends. */
  predicate OnBoundary(code: seq<Half>, o: nat)
    decreases |code| - o
  {
    o == |code| || (o < |code| && OnBoundary(code, o + Width(code[o])))
  }

  // ---------- the sizes ----------

  /** What the sizing pass adds for an instruction. */
  function Extra(k: Kind): nat {
    match k
    case Ldr => 3
    case B => 6
    case WideB => 5
    case Bl => 5
    case Cbz => 16
    case LdrW => 4
    case Add => 6
    case Wide => 0
    case Narrow => 0
  }

  /** How far the second pass moves start. */
  function CodeSize(k: Kind): nat {
    match k
    case Ldr => 2
    case B => 1
    case WideB => 1
    case Bl => 5
    case Cbz => 7
    case LdrW => 4
    case Add => 5
    case Wide => 2
    case Narrow => 1
  }

  /** How far the second pass moves end. */
  function TrailSize(k: Kind): nat {
    match k
    case Ldr => 2
    case B => 6
    case WideB => 6
    case Bl => 2
    case Cbz => 10
    case LdrW => 2
    case Add => 2
    case Wide => 0
    case Narrow => 0
  }

  lemma SizesAgree(k: Kind)
    ensures CodeSize(k) + TrailSize(k) == Stride(k) + Extra(k) && TrailSize(k) % 2 == 0
  {
  }

  /** The halfwords that code and trailer of the window from o on need. */
  function Need(code: seq<Half>, o: nat): nat
    requires OnBoundary(code, o)
    decreases |code| - o
  {
    if o >= |code| then 0
    else
      StrideIsWidth(code, o);
      Stride(KindAt(code, o)) + Extra(KindAt(code, o)) + Need(code, o + Width(code[o]))
  }

  /** The sizing pass: the halfwords of the buffer, and the padding in front. */
  function Pad(code: seq<Half>): nat
    requires OnBoundary(code, 0)
  {
    Need(code, 0) % 2
  }

  function Length(code: seq<Half>): nat
    requires OnBoundary(code, 0)
  {
    Need(code, 0) + Pad(code) + 2 + 4
  }

  method SizingPass(code: seq<Half>) returns (pad: nat, length: nat)
    requires OnBoundary(code, 0)
    ensures pad == Pad(code) && length == Length(code)
  {
    length := |code|;
    var offset := 0;
    while offset != |code|
      invariant offset <= |code| && OnBoundary(code, offset)
      invariant length + Need(code, offset) == Need(code, 0) + |code| - offset
      decreases |code| - offset
    {
      StrideIsWidth(code, offset);
      var kind := KindAt(code, offset);
      length := length + Extra(kind);
      offset := offset + Stride(kind);
    }
    pad := length % 2;
    length := length + pad + 2 + 4;
  }

  // ---------- the places ----------

  /** An instruction of the window, and start and end when the second pass comes to it. */
  datatype Place = Place(offset: nat, kind: Kind, start: int, end: int)

  function Places(code: seq<Half>, o: nat, start: nat, end: nat): seq<Place>
    requires OnBoundary(code, o) && end >= Need(code, o)
    decreases |code| - o
  {
    if o >= |code| then []
    else
      StrideIsWidth(code, o);
      var k := KindAt(code, o);
      SizesAgree(k);
      [Place(o, k, start, end)] + Places(code, o + Width(code[o]), start + CodeSize(k), end - TrailSize(k))
  }

  function AllPlaces(code: seq<Half>): seq<Place>
    requires OnBoundary(code, 0)
  {
    Places(code, 0, Pad(code), Length(code))
  }

  // ---------- what is written ----------

  /** The overwritten halfwords and the address they were at. */
  datatype Window = Window(area: nat, code: seq<Half>) {
    predicate Valid() { area % 2 == 0 && OnBoundary(code, 0) }

    function Ic(o: nat): Half
      requires o < |code|
    {
      code[o]
    }

    function Next(o: nat): Half
      requires o < |code|
    {
      if o + 1 < |code| then code[o + 1] else 0
    }

    /** What PC reads as for the instruction at o. */
    function PcAt(o: nat): nat { area + 2 * o + 4 }
  }

  const T_NOP: Half := 0x46c0
  const T_BX_PC: Half := 0x4778

  /** T$Label: from the PC of a load at halfword l to halfword r, in bytes */
  function Label(l: int, r: int): int {
    (r - l) * 2 - 4 + if l % 2 == 0 then 0 else 2
  }

  function LdrPc(rd: nat, im: int): Half
    requires rd < 8
  {
    0x4800 + rd * 0x100 + im % 0x100
  }

  function BranchTo(cond: nat, im: int): Half
    requires cond < 16
  {
    if cond == 14 then 0xe000 + im / 2 % 0x800 else 0xd000 + cond * 0x100 + im / 2 % 0x100
  }

  function CbzTo(op: nat, rn: nat, im: int): Half
    requires op < 2 && rn < 8
  {
    0xb100 + op * 0x800 + im / 0x40 % 2 * 0x200 + im / 2 % 0x20 * 8 + rn
  }

  function PushPop(base: Half, r: nat): Half
    requires base in {0xb400, 0xbc00} && r in {6, 7}
  {
    base + if r == 6 then 0x40 else 0x80
  }

  /** The condition of a wide branch; encoding T4 has none. */
  function WideCond(ic: Half, next: Half): (c: nat)
    ensures c < 16
  {
    if BitOf(next, 12) == 1 then 14 else ic / 0x40 % 16
  }

  /** The halfwords at start. */
  function CodeWords(w: Window, p: Place): (ws: seq<Half>)
    requires p.offset < |w.code|
    ensures |ws| == CodeSize(p.kind)
  {
    var (ic, next, start, end) := (w.Ic(p.offset), w.Next(p.offset), p.start, p.end);
    match p.kind
    case Ldr =>
      var rd := ic / 0x100 % 8;
      [LdrPc(rd, Label(start, end - 2) / 4), 0x6800 + rd * 8 + rd]
    case B => [BranchTo(ic / 0x100 % 16, (end - 6 - start) * 2 - 4)]
    case WideB => [BranchTo(WideCond(ic, next), (end - 6 - start) * 2 - 4)]
    case Bl => [0xb480, LdrPc(7, ((end - 2 - (start + 1)) * 2 - 4 + 2) / 4), 0x46be, 0xbc80, 0x47f0]
    case Cbz =>
      var rt := Scratch(ic % 8);
      [PushPop(0xb400, rt), 0xf3ef, 0x8000 + rt * 0x100, CbzTo(BitOf(ic, 11), ic % 8, (end - 10 - (start + 3)) * 2 - 4),
       0xf380 + rt, 0x8c00, PushPop(0xbc00, rt)]
    case LdrW =>
      var rt := next / 0x1000;
      [0xf8df, rt * 0x1000 + Label(start, end - 2) % 0x1000, 0xf8d0 + rt, rt * 0x1000]
    case Add =>
      var (rd, rt) := (ic % 8, Scratch(ic % 8));
      [PushPop(0xb400, rt), 0x4600 + rd * 8 + rt, LdrPc(rd, Label(start + 2, end - 2) / 4), 0x4400 + rt * 8 + rd, PushPop(0xbc00, rt)]
    case Wide => [ic, next]
    case Narrow => [ic]
  }

  /** The destination that the code computes for a branch, with the Thumb bit: the sign is extended by shifting the
      number up and down. */
  function Jump(w: Window, p: Place): Word
    requires p.offset < |w.code|
  {
    var (ic, next) := (w.Ic(p.offset), w.Next(p.offset));
    var (s, j1, j2) := (BitOf(ic, 10), BitOf(next, 13), BitOf(next, 11));
    Sum32(w.PcAt(p.offset),
      match p.kind
      case B => Signed(1 + ic % 0x100 * 2, 0x100)
      case WideB =>
        if BitOf(next, 12) == 1 then
          Signed(1 + next % 0x800 * 2 + ic % 0x40 * 0x1000 + s * 0x100_0000 + Inverted(j1, s) * 0x80_0000 + Inverted(j2, s) * 0x40_0000
                 + ic / 0x40 % 16 * 0x4_0000, 0x100_0000)
        else Signed(1 + next % 0x800 * 2 + ic % 0x40 * 0x1000 + s * 0x10_0000 + j2 * 0x8_0000 + j1 * 0x4_0000, 0x10_0000)
      case Bl =>
        Signed(s * 0x100_0000 + Inverted(j1, s) * 0x80_0000 + Inverted(j2, s) * 0x40_0000 + ic % 0x400 * 0x1000
               + next % 0x800 * 2 + BitOf(next, 12), 0x100_0000)
      case Cbz => 1 + BitOf(ic, 9) * 0x40 + ic / 8 % 0x20 * 2
      case _ => 0)
  }

  /** The address that a literal load reads, or the PC that is added. */
  function Address(w: Window, p: Place): Word
    requires p.offset < |w.code|
  {
    var (ic, next, pc) := (w.Ic(p.offset), w.Next(p.offset), w.PcAt(p.offset));
    match p.kind
    case Ldr => Sum32(AlignPc(pc), ic % 0x100 * 4)
    case LdrW => Sum32(AlignPc(pc), if BitOf(ic, 7) == 0 then -((next % 0x1000) as int) else next % 0x1000)
    case _ => Sum32(pc, 0)
  }

  /** A word in memory order. */
  function Halves(w: Word): (hs: seq<Half>)
    ensures |hs| == 2
  {
    [Low(w), High(w)]
  }

  /** bx pc; nop; ldr pc, [pc, #-4]; the destination */
  function Transfer(dest: Word): (hs: seq<Half>)
    ensures |hs| == 6
  {
    [T_BX_PC, T_NOP] + Halves(LDR_PC) + Halves(dest)
  }

  /** The halfwords below end. */
  function TrailHalves(w: Window, p: Place): (hs: seq<Half>)
    requires p.offset < |w.code|
    ensures |hs| == TrailSize(p.kind)
  {
    match p.kind
    case Ldr => Halves(Address(w, p))
    case B => Transfer(Jump(w, p))
    case WideB => Transfer(Jump(w, p))
    case Bl => Halves(Jump(w, p))
    case Cbz =>
      var rt := Scratch(w.Ic(p.offset) % 8);
      [0xf380 + rt, 0x8c00, PushPop(0xbc00, rt), T_NOP] + Transfer(Jump(w, p))
    case LdrW => Halves(Address(w, p))
    case Add => Halves(Address(w, p))
    case Wide => []
    case Narrow => []
  }

  /** The jump behind the window. */
  function Tail(w: Window): (hs: seq<Half>)
    ensures |hs| == 6
  {
    Transfer(Sum32(w.area + 2 * |w.code|, 1))
  }

  predicate InWindow(w: Window, ps: seq<Place>) {
    forall k :: 0 <= k < |ps| ==> ps[k].offset < |w.code|
  }

  /** All code so far. */
  function CodeOf(w: Window, ps: seq<Place>): seq<Half>
    requires InWindow(w, ps)
  {
    if ps == [] then [] else CodeOf(w, ps[..|ps| - 1]) + CodeWords(w, ps[|ps| - 1])
  }

  /** The whole trailer so far: later words are in front. */
  function TrailOf(w: Window, ps: seq<Place>): seq<Half>
    requires InWindow(w, ps)
  {
    if ps == [] then [] else TrailHalves(w, ps[|ps| - 1]) + TrailOf(w, ps[..|ps| - 1])
  }

  /** Only an ADD with a high register is refused. */
  predicate Refused(w: Window, p: Place)
    requires p.offset < |w.code|
  {
    p.kind == Add && BitOf(w.Ic(p.offset), 7) == 1
  }

  // ---------- the second pass ----------

  /** The words ws put behind index k - |ws|, in front of the words after. */
  method PutBehind(row: array<nat>, k: nat, ws: seq<nat>, ghost after: seq<nat>)
    requires |ws| <= k <= row.Length && row[k..] == after
    modifies row
    ensures row[k - |ws|..] == ws + after
    ensures row[..k - |ws|] == old(row[..k - |ws|])
  {
    var i: nat := |ws|;
    while i > 0
      invariant i <= |ws| && row[k - |ws| + i..] == ws[i..] + after
      invariant row[..k - |ws|] == old(row[..k - |ws|])
    {
      i := i - 1;
      row[k - |ws| + i] := ws[i];
      assert row[k - |ws| + i..] == [ws[i]] + row[k - |ws| + i + 1..];
    }
  }

  /** Where the second pass stands after the places ps: what is written, and what the rest still needs. */
  ghost predicate Filled(w: Window, ps: seq<Place>, o: nat, start: nat, end: nat, buffer: seq<nat>)
    requires w.Valid()
  {
    && OnBoundary(w.code, o) && InWindow(w, ps) && |buffer| == Length(w.code)
    && Pad(w.code) <= start && end <= |buffer| && end == start + Need(w.code, o) + 6
    && AllPlaces(w.code) == ps + Places(w.code, o, start, end)
    && buffer[Pad(w.code)..start] == CodeOf(w, ps) && buffer[end..] == TrailOf(w, ps)
  }

  lemma PlacesNext(code: seq<Half>, o: nat, start: nat, end: nat)
    requires OnBoundary(code, o) && o < |code| && end == start + Need(code, o) + 6
    ensures var k := KindAt(code, o);
      && o + Stride(k) <= |code| && OnBoundary(code, o + Stride(k)) && start + CodeSize(k) + 6 <= end - TrailSize(k)
      && TrailSize(k) % 2 == 0 && o < o + Stride(k)
      && end - TrailSize(k) == start + CodeSize(k) + Need(code, o + Stride(k)) + 6
      && Places(code, o, start, end) == [Place(o, k, start, end)] + Places(code, o + Stride(k), start + CodeSize(k), end - TrailSize(k))
  {
    StrideIsWidth(code, o);
    SizesAgree(KindAt(code, o));
    hide KindAt, Width, Stride, Extra, CodeSize, TrailSize;
  }

  lemma CodeNext(w: Window, ps: seq<Place>, p: Place)
    requires InWindow(w, ps) && p.offset < |w.code|
    ensures InWindow(w, ps + [p]) && CodeOf(w, ps + [p]) == CodeOf(w, ps) + CodeWords(w, p)
    ensures TrailOf(w, ps + [p]) == TrailHalves(w, p) + TrailOf(w, ps)
  {
    hide CodeWords, TrailHalves;
    assert (ps + [p])[..|ps|] == ps;
  }

  lemma FilledNext(w: Window, ps: seq<Place>, o: nat, start: nat, end: nat, buffer: seq<nat>, buffer': seq<nat>)
    requires w.Valid() && Filled(w, ps, o, start, end, buffer) && o < |w.code|
    requires var p := Place(o, KindAt(w.code, o), start, end);
      && start + CodeSize(p.kind) <= |buffer'| == |buffer| && TrailSize(p.kind) <= end
      && buffer'[..start + CodeSize(p.kind)] == buffer[..start] + CodeWords(w, p)
      && buffer'[end - TrailSize(p.kind)..] == TrailHalves(w, p) + buffer[end..]
    ensures var p := Place(o, KindAt(w.code, o), start, end);
      Filled(w, ps + [p], o + Stride(p.kind), start + CodeSize(p.kind), end - TrailSize(p.kind), buffer')
  {
    hide KindAt, Stride, CodeSize, TrailSize, CodeOf, TrailOf, CodeWords, TrailHalves, Need, AllPlaces, Places, Pad, Length, OnBoundary;
    hide InWindow;
    var p := Place(o, KindAt(w.code, o), start, end);
    PlacesNext(w.code, o, start, end);
    CodeNext(w, ps, p);
    CodeGrows(buffer, buffer', Pad(w.code), start, CodeOf(w, ps), CodeWords(w, p));
    Regroup(ps, [p], Places(w.code, o + Stride(p.kind), start + CodeSize(p.kind), end - TrailSize(p.kind)));
  }

  lemma CodeGrows(buffer: seq<nat>, buffer': seq<nat>, pad: nat, start: nat, soFar: seq<nat>, words: seq<nat>)
    requires pad <= start <= |buffer| && start + |words| <= |buffer'|
    requires buffer[pad..start] == soFar && buffer'[..start + |words|] == buffer[..start] + words
    ensures buffer'[pad..start + |words|] == soFar + words
  {
    var c := start + |words|;
    assert buffer'[pad..c] == buffer'[..c][pad..];
    assert buffer[pad..start] == buffer[..start][pad..];
  }

  ghost predicate NoneRefused(w: Window, ps: seq<Place>)
    requires InWindow(w, ps)
  {
    forall k :: 0 <= k < |ps| ==> !Refused(w, ps[k])
  }

  lemma {:induction false} PlacesInWindow(w: Window, o: nat, start: nat, end: nat)
    requires OnBoundary(w.code, o) && end >= Need(w.code, o)
    ensures InWindow(w, Places(w.code, o, start, end))
    decreases |w.code| - o
  {
    if o < |w.code| {
      var k := KindAt(w.code, o);
      StrideIsWidth(w.code, o);
      SizesAgree(k);
      PlacesInWindow(w, o + Width(w.code[o]), start + CodeSize(k), end - TrailSize(k));
    }
  }

  lemma FillingStarts(w: Window, buffer: seq<nat>)
    requires w.Valid() && |buffer| == Length(w.code)
    ensures Filled(w, [], 0, Pad(w.code), Length(w.code), buffer)
    ensures InWindow(w, AllPlaces(w.code))
  {
    PlacesInWindow(w, 0, Pad(w.code), Length(w.code));
  }

  ghost predicate Complete(w: Window, buffer: seq<nat>) {
    && w.Valid() && |buffer| == Length(w.code) && InWindow(w, AllPlaces(w.code)) && NoneRefused(w, AllPlaces(w.code))
    && buffer[Pad(w.code)..] == CodeOf(w, AllPlaces(w.code)) + (Tail(w) + TrailOf(w, AllPlaces(w.code)))
  }

  /** The second pass: code, the jump behind the window and the trailer fill the buffer exactly; the loop ends on the
      end of the window. */
  method EmitPass(w: Window, buffer: array<nat>) returns (ok: bool)
    requires w.Valid() && buffer.Length == Length(w.code)
    modifies buffer
    ensures InWindow(w, AllPlaces(w.code))
    ensures ok <==> NoneRefused(w, AllPlaces(w.code))
    ensures ok ==> Complete(w, buffer[..])
  {
    hide KindAt, Stride, CodeSize, TrailSize, CodeOf, TrailOf, CodeWords, TrailHalves, Need, AllPlaces, Places, Pad, Length,
      OnBoundary, Refused, Tail;
    var start: nat, end: nat, offset: nat := Pad(w.code), buffer.Length, 0;
    FillingStarts(w, buffer[..]);
    ghost var ps: seq<Place> := [];
    while offset != |w.code|
      invariant offset <= |w.code| && InWindow(w, ps) && Filled(w, ps, offset, start, end, buffer[..])
      invariant NoneRefused(w, ps)
      decreases |w.code| - offset
    {
      var kind := KindAt(w.code, offset);
      var p := Place(offset, kind, start, end);
      PlacesNext(w.code, offset, start, end);
      if Refused(w, p) {
        assert AllPlaces(w.code)[|ps|] == p;
        return false;
      }
      ghost var before := buffer[..];
      Put(buffer, start, CodeWords(w, p), buffer[..start]);
      ghost var middle := buffer[..];
      PutBehind(buffer, end, TrailHalves(w, p), buffer[end..]);
      PassStep(before, middle, buffer[..], start, end, CodeWords(w, p), TrailHalves(w, p));
      FilledNext(w, ps, offset, start, end, before, buffer[..]);
      ps := ps + [p];
      start := start + CodeSize(kind);
      end := end - TrailSize(kind);
      offset := offset + Stride(kind);
    }
    FilledAll(w, ps, offset, start, end, buffer[..]);
    ghost var before := buffer[..];
    Put(buffer, start, Tail(w), buffer[..start]);
    Finished(w, ps, start, end, before, buffer[..]);
    ok := true;
  }

  lemma PassStep(before: seq<nat>, middle: seq<nat>, after: seq<nat>, start: nat, end: nat, code: seq<nat>, trail: seq<nat>)
    requires |before| == |middle| == |after| && start + |code| <= end - |trail| && |trail| <= end <= |before|
    requires middle[..start + |code|] == before[..start] + code && middle[start + |code|..] == before[start + |code|..]
    requires after[end - |trail|..] == trail + middle[end..] && after[..end - |trail|] == middle[..end - |trail|]
    ensures after[..start + |code|] == before[..start] + code && after[end - |trail|..] == trail + before[end..]
  {
    assert after[..start + |code|] == after[..end - |trail|][..start + |code|];
    assert middle[end..] == middle[start + |code|..][end - start - |code|..];
    assert before[end..] == before[start + |code|..][end - start - |code|..];
  }

  lemma Finished(w: Window, ps: seq<Place>, start: nat, end: nat, before: seq<nat>, after: seq<nat>)
    requires w.Valid() && Filled(w, ps, |w.code|, start, end, before) && ps == AllPlaces(w.code) && end == start + 6
    requires NoneRefused(w, ps)
    requires |after| == |before| && after[..end] == before[..start] + Tail(w) && after[end..] == before[end..]
    ensures Complete(w, after)
  {
    hide CodeOf, TrailOf, AllPlaces, Places, Pad, Length, OnBoundary, Tail;
    assert after[Pad(w.code)..] == after[..end][Pad(w.code)..] + after[end..];
    assert after[..end][Pad(w.code)..] == before[Pad(w.code)..start] + Tail(w);
  }

  lemma FilledAll(w: Window, ps: seq<Place>, o: nat, start: nat, end: nat, buffer: seq<nat>)
    requires w.Valid() && Filled(w, ps, o, start, end, buffer) && o == |w.code|
    ensures ps == AllPlaces(w.code) && end == start + 6
  {
  }

  // ---------- the finished buffer ----------

  /** After k places the code has grown to place k and the trailer down to it; six halfwords more fit between. */
  ghost predicate PlacedAt(w: Window, ps: seq<Place>, k: nat, start: int, end: int)
    requires InWindow(w, ps) && k <= |ps|
  {
    var (c, t) := (|CodeOf(w, ps[..k])|, |TrailOf(w, ps[..k])|);
    && t % 2 == 0
    && if k == |ps| then start + c + 6 == end - t
       else
         var p := ps[k];
         && p.start == start + c && p.end == end - t && p.kind == KindAt(w.code, p.offset)
         && p.start + CodeSize(p.kind) + 6 <= p.end - TrailSize(p.kind)
  }

  lemma PlacedNext(w: Window, p: Place, rest: seq<Place>, k: nat, start: int, end: int)
    requires p.offset < |w.code| && InWindow(w, rest) && 0 < k <= |rest| + 1
    requires PlacedAt(w, rest, k - 1, start + CodeSize(p.kind), end - TrailSize(p.kind)) && TrailSize(p.kind) % 2 == 0
    ensures InWindow(w, [p] + rest) && PlacedAt(w, [p] + rest, k, start, end)
  {
    hide KindAt, CodeSize, TrailSize, CodeOf, TrailOf;
    assert ([p] + rest)[..k] == [p] + rest[..k - 1];
    FirstPlace(w, p, rest[..k - 1]);
  }

  lemma PlacedFirst(w: Window, ps: seq<Place>, start: int, end: int)
    requires InWindow(w, ps) && (ps == [] ==> start + 6 == end)
    requires ps != [] ==> ps[0].start == start && ps[0].end == end && ps[0].kind == KindAt(w.code, ps[0].offset)
    requires ps != [] ==> start + CodeSize(ps[0].kind) + 6 <= end - TrailSize(ps[0].kind)
    ensures PlacedAt(w, ps, 0, start, end)
  {
    hide KindAt, CodeSize, TrailSize;
    NoPlaces(w, ps);
  }

  /** The places lie one behind the other, code upwards and trailer downwards. */
  lemma {:induction false} PlacesFollow(w: Window, o: nat, start: nat, end: nat, k: nat)
    requires OnBoundary(w.code, o) && end == start + Need(w.code, o) + 6 && k <= |Places(w.code, o, start, end)|
    ensures InWindow(w, Places(w.code, o, start, end)) && PlacedAt(w, Places(w.code, o, start, end), k, start, end)
    decreases |w.code| - o
  {
    hide KindAt, Stride, CodeSize, TrailSize, Need, Places, OnBoundary, PlacedAt;
    PlacesInWindow(w, o, start, end);
    if o >= |w.code| {
      NoMorePlaces(w.code, o, start, end);
      PlacedFirst(w, [], start, end);
    } else {
      PlacesNext(w.code, o, start, end);
      var kind := KindAt(w.code, o);
      var rest := Places(w.code, o + Stride(kind), start + CodeSize(kind), end - TrailSize(kind));
      if k == 0 {
        PlacedFirst(w, [Place(o, kind, start, end)] + rest, start, end);
      } else {
        PlacesFollow(w, o + Stride(kind), start + CodeSize(kind), end - TrailSize(kind), k - 1);
        PlacedNext(w, Place(o, kind, start, end), rest, k, start, end);
      }
    }
  }

  lemma NoMorePlaces(code: seq<Half>, o: nat, start: nat, end: nat)
    requires OnBoundary(code, o) && o >= |code| && end >= Need(code, o)
    ensures Places(code, o, start, end) == [] && Need(code, o) == 0
  {
  }

  lemma NoPlaces(w: Window, ps: seq<Place>)
    requires InWindow(w, ps)
    ensures CodeOf(w, ps[..0]) == [] && TrailOf(w, ps[..0]) == []
  {
  }

  lemma {:induction false} FirstPlace(w: Window, p: Place, ps: seq<Place>)
    requires p.offset < |w.code| && InWindow(w, ps)
    ensures InWindow(w, [p] + ps)
    ensures |CodeOf(w, [p] + ps)| == CodeSize(p.kind) + |CodeOf(w, ps)|
    ensures |TrailOf(w, [p] + ps)| == TrailSize(p.kind) + |TrailOf(w, ps)|
    decreases |ps|
  {
    hide CodeWords, TrailHalves, CodeSize, TrailSize;
    if ps == [] {
      assert [p][..0] == [];
      assert [p] + ps == [p];
    } else {
      var n := |ps| - 1;
      FirstPlace(w, p, ps[..n]);
      assert ([p] + ps)[..n + 1] == [p] + ps[..n];
    }
  }

  lemma {:induction false} CodeAt(w: Window, ps: seq<Place>, k: nat, i: nat)
    requires InWindow(w, ps) && k < |ps| && i < CodeSize(ps[k].kind)
    ensures |CodeOf(w, ps[..k])| + i < |CodeOf(w, ps)|
    ensures CodeOf(w, ps)[|CodeOf(w, ps[..k])| + i] == CodeWords(w, ps[k])[i]
    decreases |ps|
  {
    hide CodeWords, CodeSize;
    var n := |ps| - 1;
    if k < n {
      CodeAt(w, ps[..n], k, i);
      assert ps[..n][..k] == ps[..k];
    }
  }

  lemma {:induction false} TrailAt(w: Window, ps: seq<Place>, k: nat, i: nat)
    requires InWindow(w, ps) && k < |ps| && i < TrailSize(ps[k].kind)
    ensures var at := |TrailOf(w, ps)| - |TrailOf(w, ps[..k])| - TrailSize(ps[k].kind) + i;
      0 <= at < |TrailOf(w, ps)| && TrailOf(w, ps)[at] == TrailHalves(w, ps[k])[i]
    decreases |ps|
  {
    hide TrailHalves, TrailSize;
    var n := |ps| - 1;
    if k < n {
      TrailAt(w, ps[..n], k, i);
      assert ps[..n][..k] == ps[..k];
    }
  }

  /** How far code and trailer of an instruction are apart: what it and the instructions behind it need lies between. */
  ghost predicate Apart(code: seq<Half>, p: Place) {
    OnBoundary(code, p.offset) && p.end == p.start + Need(code, p.offset) + 6
  }

  lemma {:induction false} PlaceApart(code: seq<Half>, o: nat, start: nat, end: nat, k: nat)
    requires OnBoundary(code, o) && end == start + Need(code, o) + 6 && k < |Places(code, o, start, end)|
    ensures Apart(code, Places(code, o, start, end)[k])
    decreases |code| - o
  {
    hide KindAt, Stride, CodeSize, TrailSize, Need, Places, OnBoundary;
    if o >= |code| {
      NoMorePlaces(code, o, start, end);
    } else {
      PlacesNext(code, o, start, end);
      var kind := KindAt(code, o);
      if k > 0 {
        PlaceApart(code, o + Stride(kind), start + CodeSize(kind), end - TrailSize(kind), k - 1);
      }
    }
  }

  /** The two areas of an instruction in the finished buffer: inside it, apart, word-aligned above, and filled. */
  ghost predicate PlaceIn(w: Window, buffer: seq<nat>, p: Place) {
    && p.offset < |w.code| && p.kind == KindAt(w.code, p.offset) && !Refused(w, p) && w.area % 2 == 0
    && Apart(w.code, p)
    && p.end % 2 == 0 && 0 <= p.start && p.end <= |buffer|
    && p.start + CodeSize(p.kind) + 6 <= p.end - TrailSize(p.kind)
    && buffer[p.start..p.start + CodeSize(p.kind)] == CodeWords(w, p)
    && buffer[p.end - TrailSize(p.kind)..p.end] == TrailHalves(w, p)
  }

  /** Every instruction of the window has its place. */
  lemma PlaceFilled(w: Window, buffer: seq<nat>, k: nat)
    requires Complete(w, buffer) && k < |AllPlaces(w.code)|
    ensures PlaceIn(w, buffer, AllPlaces(w.code)[k])
  {
    hide KindAt, CodeSize, TrailSize, CodeOf, TrailOf, CodeWords, TrailHalves, Need, Places, OnBoundary, Refused;
    var ps := AllPlaces(w.code);
    PlacesFollow(w, 0, Pad(w.code), Length(w.code), k);
    PlacesFollow(w, 0, Pad(w.code), Length(w.code), |ps|);
    PlaceApart(w.code, 0, Pad(w.code), Length(w.code), k);
    assert Length(w.code) % 2 == 0;
    hide AllPlaces, Pad, Length, Apart;
    CodeFilled(w, buffer, k);
    TrailFilled(w, buffer, k);
  }

  lemma CodeFilled(w: Window, buffer: seq<nat>, k: nat)
    requires Complete(w, buffer) && k < |AllPlaces(w.code)|
    requires PlacedAt(w, AllPlaces(w.code), k, Pad(w.code), Length(w.code))
    ensures var p := AllPlaces(w.code)[k];
      Pad(w.code) <= p.start && p.start + CodeSize(p.kind) <= |buffer| && buffer[p.start..p.start + CodeSize(p.kind)] == CodeWords(w, p)
  {
    hide KindAt, CodeSize, TrailSize, CodeOf, TrailOf, CodeWords, TrailHalves, Need, Places, AllPlaces, OnBoundary, Pad, Length, Refused;
    var p := AllPlaces(w.code)[k];
    forall i | 0 <= i < CodeSize(p.kind)
      ensures p.start + i < |buffer| && buffer[p.start + i] == CodeWords(w, p)[i]
    {
      CodeAt(w, AllPlaces(w.code), k, i);
      assert buffer[p.start + i] == buffer[Pad(w.code)..][p.start - Pad(w.code) + i];
    }
    SomeCode(p.kind);
    assert p.start + (CodeSize(p.kind) - 1) < |buffer|;
  }

  lemma SomeCode(k: Kind)
    ensures CodeSize(k) > 0
  {
  }

  lemma TrailFilled(w: Window, buffer: seq<nat>, k: nat)
    requires Complete(w, buffer) && k < |AllPlaces(w.code)|
    requires PlacedAt(w, AllPlaces(w.code), k, Pad(w.code), Length(w.code))
    requires PlacedAt(w, AllPlaces(w.code), |AllPlaces(w.code)|, Pad(w.code), Length(w.code))
    ensures var p := AllPlaces(w.code)[k];
      0 <= p.end - TrailSize(p.kind) && p.end <= |buffer| && buffer[p.end - TrailSize(p.kind)..p.end] == TrailHalves(w, p)
  {
    hide KindAt, CodeSize, TrailSize, CodeOf, TrailOf, CodeWords, TrailHalves, Need, Places, AllPlaces, OnBoundary, Pad, Length, Refused;
    var ps := AllPlaces(w.code);
    var p := ps[k];
    assert ps[..|ps|] == ps;
    forall i | 0 <= i < TrailSize(p.kind)
      ensures 0 <= p.end - TrailSize(p.kind) + i < |buffer| && buffer[p.end - TrailSize(p.kind) + i] == TrailHalves(w, p)[i]
    {
      TrailAt(w, ps, k, i);
      assert buffer[p.end - TrailSize(p.kind) + i] == buffer[Pad(w.code)..][p.end - TrailSize(p.kind) + i - Pad(w.code)];
    }
  }

  // ---------- where branches go ----------

  /** Is a branch of a kind that the hook rewrites at o? */
  predicate IsBranchAt(w: Window, o: nat)
    requires o < |w.code|
  {
    var (ic, next) := (w.Ic(o), w.Next(o));
    || IsCondBranch(ic) || IsCompareBranch(ic) || IsCondBranchWide(ic, next) || IsFreeBranchWide(ic, next)
    || IsCallWide(ic, next) || IsCallExchange(ic, next)
  }

  /** Where the branch at o goes, with the Thumb bit; BLX changes to ARM code and aligns the PC. */
  function Destination(w: Window, o: nat): Word
    requires o < |w.code|
  {
    var (ic, next, pc) := (w.Ic(o), w.Next(o), w.PcAt(o));
    if IsCallExchange(ic, next) then Sum32(AlignPc(pc), BlxOffset32(ic, next))
    else Sum32(pc, 1 + if IsCondBranch(ic) then CondOffset16(ic) else if IsCompareBranch(ic) then CbOffset16(ic)
                       else if IsCondBranchWide(ic, next) then CondOffset32(ic, next) else Offset32(ic, next))
  }

  lemma SignedOdd(x: nat, half: nat)
    requires x % 2 == 0 && half % 2 == 0
    ensures Signed(x + 1, half) == Signed(x, half) + 1
  {
  }

  lemma BitNine(ic: Half)
    ensures BitOf(ic, 9) == ic / 0x200 % 2
  {
    ShiftThree(ic, 6);
    ShiftThree(ic / 8, 3);
    ShiftThree(ic / 8 / 8, 0);
  }

  /** The two forms of the wide branches and of the calls. */
  lemma WideForms(ic: Half, next: Half)
    ensures IsWideB(ic, next) ==> (IsFreeBranchWide(ic, next) <==> BitOf(next, 12) == 1) && (IsCondBranchWide(ic, next) <==> BitOf(next, 12) == 0)
    ensures IsBl(ic, next) ==> (IsCallWide(ic, next) <==> BitOf(next, 12) == 1) && (IsCallExchange(ic, next) <==> BitOf(next, 12) == 0)
  {
    TopBits(next);
    assert InBranchSpace(ic) <==> ic / 0x800 == 0x1e;
    assert next / 0x1000 < 16;
    hide BitOf, InBranchSpace;
  }

  lemma FormAt(w: Window, p: Place)
    requires p.offset < |w.code| && p.kind == KindAt(w.code, p.offset) && IsBranchAt(w, p.offset)
    ensures var (ic, next, dest) := (w.Ic(p.offset), w.Next(p.offset), Destination(w, p.offset));
      match p.kind
      case B => dest == Sum32(w.PcAt(p.offset), CondOffset16(ic) + 1)
      case Cbz => dest == Sum32(w.PcAt(p.offset), CbOffset16(ic) + 1)
      case WideB => dest == Sum32(w.PcAt(p.offset), (if BitOf(next, 12) == 1 then Offset32(ic, next) else CondOffset32(ic, next)) + 1)
      case Bl =>
        && (IsCallExchange(ic, next) <==> BitOf(next, 12) == 0)
        && dest == if BitOf(next, 12) == 1 then Sum32(w.PcAt(p.offset), Offset32(ic, next) + 1)
                   else Sum32(AlignPc(w.PcAt(p.offset)), BlxOffset32(ic, next))
      case _ => false
    ensures p.kind != Bl ==> !IsCallExchange(w.Ic(p.offset), w.Next(p.offset))
  {
    var (ic, next) := (w.Ic(p.offset), w.Next(p.offset));
    Kinds(w.code, p.offset);
    Classified(ic, next);
    WideForms(ic, next);
    OneEncoding(ic, next);
    WideApart(ic, next);
    hide KindAt, BitOf, IsLdr, IsB, IsWideB, IsBl, IsCbz, IsLdrW, IsAdd, IsLdrLiteral, IsCondBranch, IsCondBranchWide, IsFreeBranchWide,
      IsCallWide, IsCallExchange, IsCompareBranch, IsLdrLiteralWide, IsAddPc, Is32Bit, InBranchSpace, Offset32, CondOffset32, BlxOffset32, CbOffset16,
      CondOffset16, Sum32, AlignPc;
  }

  lemma WideApart(ic: Half, next: Half)
    ensures !(IsCallWide(ic, next) && IsCallExchange(ic, next)) && !(IsCondBranchWide(ic, next) && IsFreeBranchWide(ic, next))
  {
  }

  /** The code computes the destination of every branch, except for a BLX that is not on a word boundary. */
  lemma JumpExact(w: Window, p: Place)
    requires p.offset < |w.code| && p.kind == KindAt(w.code, p.offset) && IsBranchAt(w, p.offset) && w.area % 2 == 0
    ensures Jump(w, p) == Destination(w, p.offset)
      <==> !(IsCallExchange(w.Ic(p.offset), w.Next(p.offset)) && w.PcAt(p.offset) % 4 != 0)
  {
    hide BitOf, Signed, KindAt, Jump, Destination, Sum32, IsBranchAt, IsCallExchange;
    FormAt(w, p);
    match p.kind
    case B => SignedOdd(w.Ic(p.offset) % 0x100 * 2, 0x100); JumpB(w, p);
    case WideB => WideExact(w, p);
    case Bl =>
      if BitOf(w.Next(p.offset), 12) == 1 {
        BlExact(w, p);
      } else {
        BlxExact(w, p);
      }
    case Cbz => BitNine(w.Ic(p.offset)); JumpB(w, p);
    case _ =>
  }

  lemma JumpB(w: Window, p: Place)
    requires p.offset < |w.code| && (p.kind == B || (p.kind == Cbz && BitOf(w.Ic(p.offset), 9) == w.Ic(p.offset) / 0x200 % 2))
    requires p.kind == B ==> Signed(w.Ic(p.offset) % 0x100 * 2 + 1, 0x100) == Signed(w.Ic(p.offset) % 0x100 * 2, 0x100) + 1
    ensures Jump(w, p) == Sum32(w.PcAt(p.offset), 1 + if p.kind == B then CondOffset16(w.Ic(p.offset)) else CbOffset16(w.Ic(p.offset)))
  {
    hide BitOf, Signed, Sum32;
  }

  lemma WideExact(w: Window, p: Place)
    requires p.offset < |w.code| && p.kind == WideB
    ensures var (ic, next) := (w.Ic(p.offset), w.Next(p.offset));
      Jump(w, p) == Sum32(w.PcAt(p.offset), 1 + if BitOf(next, 12) == 1 then Offset32(ic, next) else CondOffset32(ic, next))
  {
    hide BitOf, Signed, Sum32, Inverted, Jump;
    if BitOf(w.Next(p.offset), 12) == 1 {
      FreeExact(w, p);
    } else {
      CondExact(w, p);
    }
  }

  lemma FreeExact(w: Window, p: Place)
    requires p.offset < |w.code| && p.kind == WideB && BitOf(w.Next(p.offset), 12) == 1
    ensures Jump(w, p) == Sum32(w.PcAt(p.offset), 1 + Offset32(w.Ic(p.offset), w.Next(p.offset)))
  {
    hide BitOf, Signed, Sum32, Inverted;
    var ic: nat, next: nat := w.Ic(p.offset), w.Next(p.offset);
    var (s, j1, j2) := (BitOf(ic, 10), BitOf(next, 13), BitOf(next, 11));
    Ten(ic);
    var x: nat := s * 0x100_0000 + Inverted(j1, s) * 0x80_0000 + Inverted(j2, s) * 0x40_0000 + ic % 0x400 * 0x1000 + next % 0x800 * 2;
    SignedOdd(x, 0x100_0000);
    assert Offset32(ic, next) == Signed(x, 0x100_0000);
  }

  lemma CondExact(w: Window, p: Place)
    requires p.offset < |w.code| && p.kind == WideB && BitOf(w.Next(p.offset), 12) == 0
    ensures Jump(w, p) == Sum32(w.PcAt(p.offset), 1 + CondOffset32(w.Ic(p.offset), w.Next(p.offset)))
  {
    hide BitOf, Signed, Sum32, Inverted;
    var ic: nat, next: nat := w.Ic(p.offset), w.Next(p.offset);
    var (s, j1, j2) := (BitOf(ic, 10), BitOf(next, 13), BitOf(next, 11));
    var x: nat := s * 0x10_0000 + j2 * 0x8_0000 + j1 * 0x4_0000 + ic % 0x40 * 0x1000 + next % 0x800 * 2;
    SignedOdd(x, 0x10_0000);
    assert CondOffset32(ic, next) == Signed(x, 0x10_0000);
  }

  lemma Ten(ic: Half)
    ensures ic % 0x400 * 0x1000 == ic % 0x40 * 0x1000 + ic / 0x40 % 16 * 0x4_0000
  {
  }

  lemma BlExact(w: Window, p: Place)
    requires p.offset < |w.code| && p.kind == Bl && BitOf(w.Next(p.offset), 12) == 1
    ensures Jump(w, p) == Sum32(w.PcAt(p.offset), 1 + Offset32(w.Ic(p.offset), w.Next(p.offset)))
  {
    hide BitOf, Signed, Sum32;
    var (ic, next) := (w.Ic(p.offset), w.Next(p.offset));
    var (s, j1, j2) := (BitOf(ic, 10), BitOf(next, 13), BitOf(next, 11));
    SignedOdd(next % 0x800 * 2 + ic % 0x400 * 0x1000 + s * 0x100_0000 + Inverted(j1, s) * 0x80_0000 + Inverted(j2, s) * 0x40_0000, 0x100_0000);
  }

  lemma BlxExact(w: Window, p: Place)
    requires p.offset < |w.code| && p.kind == KindAt(w.code, p.offset) == Bl && BitOf(w.Next(p.offset), 12) == 0 && w.area % 2 == 0
    ensures var pc := w.PcAt(p.offset);
      Jump(w, p) == Sum32(AlignPc(pc), BlxOffset32(w.Ic(p.offset), w.Next(p.offset))) <==> pc % 4 == 0
  {
    var (ic, next, pc) := (w.Ic(p.offset), w.Next(p.offset), w.PcAt(p.offset));
    hide BitOf, Signed;
    assert next % 2 == 0;
    assert next % 0x800 * 2 == next / 2 % 0x400 * 4;
    hide KindAt;
    var d := BlxOffset32(ic, next);
    assert Jump(w, p) == Sum32(pc, d);
    AlignedSum(pc, d);
  }

  /** A BLX behind one halfword of a word-aligned window. */
  lemma BlxOffBoundary(area: nat)
    requires area % 4 == 0
    ensures var w := Window(area, [0xbf00, 0xf000, 0xe800, 0xbf00, 0xbf00, 0xbf00]);
      IsCallExchange(w.Ic(1), w.Next(1)) && KindAt(w.code, 1) == Bl && Jump(w, Place(1, Bl, 0, 0)) != Destination(w, 1)
  {
    hide *;
    var w := Window(area, [0xbf00, 0xf000, 0xe800, 0xbf00, 0xbf00, 0xbf00]);
    BlxKind(w);
    JumpExact(w, Place(1, Bl, 0, 0));
  }

  lemma BlxKind(w: Window)
    requires |w.code| > 2 && w.code[1] == 0xf000 && w.code[2] == 0xe800
    ensures IsCallExchange(w.Ic(1), w.Next(1)) && IsBranchAt(w, 1) && KindAt(w.code, 1) == Bl && w.PcAt(1) == w.area + 6
  {
    Kinds(w.code, 1);
    hide KindAt;
  }

  lemma AlignedSum(pc: nat, d: int)
    ensures Sum32(pc, d) == Sum32(AlignPc(pc), d) <==> pc % 4 == 0
  {
    assert pc - AlignPc(pc) == pc % 4;
  }

  // ---------- what the buffer does when it runs ----------

  /** bx pc on a word boundary continues in ARM code behind the nop, where ldr pc, [pc, #-4] loads the word behind it. */
  function TransferTo(base: nat, buffer: seq<nat>, r: int): Option<nat> {
    if r % 2 == 0 && base % 4 == 0 && 0 <= r && r + 6 <= |buffer| && buffer[r..r + 4] == [T_BX_PC, T_NOP] + Halves(LDR_PC)
    then WordAt(base, buffer, base + 2 * (r + 4))
    else None
  }

  lemma {:induction false} NeedBound(code: seq<Half>, o: nat)
    requires OnBoundary(code, o)
    ensures o <= |code| && Need(code, o) <= 17 * (|code| - o)
    decreases |code| - o
  {
    if o < |code| {
      StrideIsWidth(code, o);
      SizeBound(KindAt(code, o));
      hide KindAt, Stride, Extra, Width;
      NeedBound(code, o + Width(code[o]));
    }
  }

  lemma SizeBound(k: Kind)
    ensures 1 <= Stride(k) && Stride(k) + Extra(k) <= 17 * Stride(k)
  {
  }

  /** The hook overwrites 12 or 14 bytes; the last instruction may reach one halfword further. */
  const MAX_WINDOW := 8

  lemma LengthBound(w: Window)
    requires w.Valid() && |w.code| <= MAX_WINDOW
    ensures Length(w.code) <= 143
  {
    NeedBound(w.code, 0);
  }

  lemma WordBack(base: nat, buffer: seq<nat>, r: nat, value: Word)
    requires base % 4 == 0 && r % 2 == 0 && r + 2 <= |buffer| && buffer[r..r + 2] == Halves(value)
    ensures WordAt(base, buffer, base + 2 * r) == Some(value)
  {
    assert buffer[r] == buffer[r..r + 2][0] && buffer[r + 1] == buffer[r..r + 2][1];
    assert Low(value) + 0x1_0000 * High(value) == value;
  }

  /** T$Label is the distance from the aligned PC. */
  lemma LabelDistance(base: nat, l: nat, r: nat)
    requires base % 4 == 0 && r % 2 == 0 && l + 2 <= r
    ensures Label(l, r) % 4 == 0 && Label(l, r) >= 0 && AlignPc(base + 2 * l + 4) + Label(l, r) == base + 2 * r
    ensures ((r - l) * 2 - 4 + 2) / 4 == Label(l, r) / 4
  {
    AlignedBase(base, 2 * l + 4);
    hide AlignPc;
    LabelParts(l, r);
  }

  lemma LabelParts(l: nat, r: nat)
    requires r % 2 == 0 && l + 2 <= r
    ensures Label(l, r) % 4 == 0 && Label(l, r) >= 0 && AlignPc(2 * l + 4) + Label(l, r) == 2 * r
    ensures ((r - l) * 2 - 4 + 2) / 4 == Label(l, r) / 4
  {
    var n, m := l / 2, r / 2;
    if l % 2 == 0 {
      assert 2 * l + 4 == 4 * (n + 1) && Label(l, r) == 4 * (m - n - 1);
    } else {
      assert 2 * l + 4 == 4 * (n + 1) + 2 && Label(l, r) == 4 * (m - n - 1);
    }
  }

  /** A load finds the word that it is linked to, through the alignment of the PC. */
  lemma LabelLands(base: nat, l: nat, r: nat, rd: nat)
    requires base % 4 == 0 && r % 2 == 0 && l + 2 <= r <= l + 400 && rd < 8
    ensures LdrPc(rd, Label(l, r) / 4) / 0x100 == 0x48 + rd && LdrSource(base, l, LdrPc(rd, Label(l, r) / 4)) == base + 2 * r
    ensures Label(l, r) % 4 == 0 && 0 <= Label(l, r) < 0x400 && AlignPc(base + 2 * l + 4) + Label(l, r) == base + 2 * r
    ensures ((r - l) * 2 - 4 + 2) / 4 == Label(l, r) / 4
  {
    LabelDistance(base, l, r);
    LabelBound(l, r);
    hide Label, AlignPc, LdrPc;
    LdrPcParts(rd, Label(l, r));
  }

  lemma LabelBound(l: nat, r: nat)
    requires l <= r <= l + 400
    ensures Label(l, r) < 0x400
  {
  }

  lemma LdrPcParts(rd: nat, d: nat)
    requires rd < 8 && d < 0x400 && d % 4 == 0
    ensures LdrPc(rd, d / 4) / 0x100 == 0x48 + rd && LdrPc(rd, d / 4) % 0x100 * 4 == d
  {
  }

  lemma AlignedBase(base: nat, x: nat)
    requires base % 4 == 0
    ensures AlignPc(base + x) == base + AlignPc(x)
  {
  }

  lemma TransferLands(base: nat, buffer: seq<nat>, r: nat, dest: Word)
    requires base % 4 == 0 && r % 2 == 0 && r + 6 <= |buffer| && buffer[r..r + 6] == Transfer(dest)
    ensures TransferTo(base, buffer, r) == Some(dest)
  {
    assert buffer[r..r + 4] == buffer[r..r + 6][..4];
    assert buffer[r + 4..r + 6] == buffer[r..r + 6][4..];
    WordBack(base, buffer, r + 4, dest);
  }

  const MAX_LENGTH := 143

  /** The slices of a place, one by one. */
  lemma PlaceSlots(w: Window, buffer: seq<nat>, p: Place, code: seq<Half>, trail: seq<Half>)
    requires PlaceIn(w, buffer, p) && CodeWords(w, p) == code && TrailHalves(w, p) == trail
    ensures 0 <= p.start && p.start + |code| + 6 <= p.end - |trail| <= p.end <= |buffer|
    ensures forall i :: 0 <= i < |code| ==> buffer[p.start + i] == code[i]
    ensures p.end % 2 == 0 && buffer[p.end - |trail|..p.end] == trail
  {
    hide CodeWords, TrailHalves, KindAt, CodeSize, TrailSize, Refused, Apart;
    forall i | 0 <= i < |code|
      ensures buffer[p.start + i] == code[i]
    {
      assert buffer[p.start + i] == buffer[p.start..p.start + |code|][i];
    }
  }

  lemma PlaceBounds(w: Window, buffer: seq<nat>, p: Place)
    requires PlaceIn(w, buffer, p)
    ensures p.offset < |w.code| && p.kind == KindAt(w.code, p.offset) && 0 <= p.start <= p.end <= |buffer| && p.end % 2 == 0
    ensures w.area % 2 == 0
  {
    hide CodeWords, TrailHalves, KindAt, CodeSize, TrailSize, Refused, Apart;
  }

  /** In a window of the hook every branch but CBZ is near enough to its trailer. */
  lemma BranchNeed(w: Window, buffer: seq<nat>, p: Place)
    requires PlaceIn(w, buffer, p) && |w.code| <= MAX_WINDOW && p.kind in {B, WideB}
    ensures (p.end - 6 - p.start) * 2 - 4 <= 248
  {
    StrideIsWidth(w.code, p.offset);
    hide CodeWords, TrailHalves, KindAt, CodeSize, TrailSize, Refused, Width, OnBoundary;
    NextNeed(w.code, p.offset);
    NeedBound(w.code, p.offset + Width(w.code[p.offset]));
  }

  lemma NextNeed(code: seq<Half>, o: nat)
    requires OnBoundary(code, o) && o < |code|
    ensures OnBoundary(code, o + Width(code[o]))
    ensures Need(code, o) == Stride(KindAt(code, o)) + Extra(KindAt(code, o)) + Need(code, o + Width(code[o]))
  {
    hide KindAt, Width, Stride, Extra;
  }

  /** A literal load first loads the address that the original loads from, then what is there. */
  lemma LdrKept(w: Window, base: nat, buffer: seq<nat>, p: Place)
    requires PlaceIn(w, buffer, p) && base % 4 == 0 && |buffer| <= MAX_LENGTH && IsLdrLiteral(w.code[p.offset])
    ensures p.start + 1 < |buffer|
    ensures buffer[p.start] / 0x100 == w.code[p.offset] / 0x100 && buffer[p.start + 1] == 0x6800 + 9 * (w.code[p.offset] / 0x100 % 8)
    ensures WordAt(base, buffer, LdrSource(base, p.start, buffer[p.start])) == Some(Sum32(LdrSource(w.area, p.offset, w.code[p.offset]), 0))
  {
    hide PlaceIn, LdrPc, LdrSource, WordAt, Address, Label, Halves;
    PlaceBounds(w, buffer, p);
    Kinds(w.code, p.offset);
    var ic := w.code[p.offset];
    var (rd, im) := (ic / 0x100 % 8, Label(p.start, p.end - 2) / 4);
    assert ic / 0x100 == 0x48 + rd;
    hide KindAt;
    var code := [LdrPc(rd, im), 0x6800 + rd * 8 + rd];
    assert CodeWords(w, p) == code && TrailHalves(w, p) == Halves(Address(w, p));
    hide CodeWords, TrailHalves;
    PlaceSlots(w, buffer, p, code, Halves(Address(w, p)));
    assert buffer[p.start + 0] == code[0] && buffer[p.start + 1] == code[1];
    LabelLands(base, p.start, p.end - 2, rd);
    WordBack(base, buffer, p.end - 2, Address(w, p));
    LdrAddress(w, p);
  }

  lemma LdrAddress(w: Window, p: Place)
    requires p.offset < |w.code| && p.kind == Ldr
    ensures Address(w, p) == Sum32(LdrSource(w.area, p.offset, w.code[p.offset]), 0)
  {
    hide AlignPc, BitOf;
  }

  /** A conditional branch tests the same condition. In every window it reaches its trailer, which goes to the
      destination that was computed. */
  lemma BKept(w: Window, base: nat, buffer: seq<nat>, p: Place)
    requires PlaceIn(w, buffer, p) && |w.code| <= MAX_WINDOW && base % 4 == 0 && IsCondBranch(w.code[p.offset])
    ensures p.start < |buffer| && buffer[p.start] / 0x100 == w.code[p.offset] / 0x100
    ensures BranchHalf(p.start, buffer[p.start]) == p.end - 6
    ensures TransferTo(base, buffer, p.end - 6) == Some(Jump(w, p))
  {
    hide PlaceIn, Transfer, Jump, TransferTo, BranchHalf, BranchTo;
    PlaceBounds(w, buffer, p);
    Kinds(w.code, p.offset);
    BranchNeed(w, buffer, p);
    var ic := w.code[p.offset];
    assert ic / 0x100 == 0xd0 + ic / 0x100 % 16 && ic / 0x100 % 16 < 14;
    hide KindAt;
    var word := BranchTo(ic / 0x100 % 16, (p.end - 6 - p.start) * 2 - 4);
    var code := [word];
    assert CodeWords(w, p) == code && TrailHalves(w, p) == Transfer(Jump(w, p));
    hide CodeWords, TrailHalves;
    PlaceSlots(w, buffer, p, code, Transfer(Jump(w, p)));
    assert buffer[p.start + 0] == code[0];
    BranchReaches(p.start, p.end - 6, ic / 0x100 % 16);
    TransferLands(base, buffer, p.end - 6, Jump(w, p));
  }

  lemma BranchReaches(l: int, r: int, cond: nat)
    requires cond < 15 && l + 2 <= r
    ensures var word := BranchTo(cond, (r - l) * 2 - 4);
      && (cond != 14 ==> word / 0x100 == 0xd0 + cond && (BranchHalf(l, word) == r <==> (r - l) * 2 - 4 <= 254))
      && (cond == 14 ==> word / 0x800 == 0x1c && (r <= l + 400 ==> BranchHalf(l, word) == r))
  {
    var d := r - l - 2;
    assert ((r - l) * 2 - 4) / 2 == d;
    if cond != 14 {
      assert BranchTo(cond, (r - l) * 2 - 4) % 0x100 == d % 0x100;
    } else {
      assert BranchTo(cond, (r - l) * 2 - 4) % 0x800 == d % 0x800;
    }
  }

  /** A wide branch becomes a narrow one of the same condition. In every window it reaches its trailer. */
  lemma WideBKept(w: Window, base: nat, buffer: seq<nat>, p: Place)
    requires PlaceIn(w, buffer, p) && |w.code| <= MAX_WINDOW && base % 4 == 0
    requires IsCondBranchWide(w.code[p.offset], w.Next(p.offset)) || IsFreeBranchWide(w.code[p.offset], w.Next(p.offset))
    ensures p.start < |buffer| && TransferTo(base, buffer, p.end - 6) == Some(Jump(w, p))
    ensures BranchHalf(p.start, buffer[p.start]) == p.end - 6
    ensures if IsFreeBranchWide(w.code[p.offset], w.Next(p.offset)) then buffer[p.start] / 0x800 == 0x1c
            else buffer[p.start] / 0x100 == 0xd0 + w.code[p.offset] / 0x40 % 16
  {
    hide PlaceIn, Transfer, Jump, TransferTo, BranchHalf, BranchTo, WideCond, KindAt, BitOf, IsFreeBranchWide, IsCondBranchWide;
    PlaceBounds(w, buffer, p);
    Kinds(w.code, p.offset);
    BranchNeed(w, buffer, p);
    var (ic, next) := (w.code[p.offset], w.Next(p.offset));
    WideCondition(ic, next);
    var word := BranchTo(WideCond(ic, next), (p.end - 6 - p.start) * 2 - 4);
    var code := [word];
    assert CodeWords(w, p) == code && TrailHalves(w, p) == Transfer(Jump(w, p));
    hide CodeWords, TrailHalves;
    PlaceSlots(w, buffer, p, code, Transfer(Jump(w, p)));
    assert buffer[p.start + 0] == code[0];
    BranchReaches(p.start, p.end - 6, WideCond(ic, next));
    TransferLands(base, buffer, p.end - 6, Jump(w, p));
  }

  lemma WideCondition(ic: Half, next: Half)
    requires IsCondBranchWide(ic, next) || IsFreeBranchWide(ic, next)
    ensures if IsFreeBranchWide(ic, next) then WideCond(ic, next) == 14 else WideCond(ic, next) == ic / 0x40 % 16 < 14
  {
    WideForms(ic, next);
    ClassifiedWide(ic, next);
    CondBelow(ic);
    hide BitOf, IsWideB, IsFreeBranchWide, InBranchSpace;
  }

  lemma CondBelow(ic: nat)
    ensures ic / 0x80 % 8 != 7 ==> ic / 0x40 % 16 < 14
  {
    var (q, r) := (ic / 0x40 / 16, ic / 0x40 % 16);
    assert ic / 0x80 == 8 * q + r / 2;
    Remainder(ic / 0x80, 8, q, r / 2);
  }

  /** BL loads the destination into LR and branches there by blx lr, so that it returns behind the block. */
  lemma BlKept(w: Window, base: nat, buffer: seq<nat>, p: Place)
    requires PlaceIn(w, buffer, p) && base % 4 == 0 && |buffer| <= MAX_LENGTH
    requires IsCallWide(w.code[p.offset], w.Next(p.offset)) || IsCallExchange(w.code[p.offset], w.Next(p.offset))
    ensures p.start + 4 < |buffer|
    ensures buffer[p.start] == 0xb480 && buffer[p.start + 1] / 0x100 == 0x4f  // push {r7}; ldr r7, [pc, #im]
    ensures buffer[p.start + 2..p.start + 5] == [0x46be, 0xbc80, 0x47f0]       // mov lr, r7; pop {r7}; blx lr
    ensures WordAt(base, buffer, LdrSource(base, p.start + 1, buffer[p.start + 1])) == Some(Jump(w, p))
  {
    hide PlaceIn, LdrPc, LdrSource, WordAt, Label, Halves, Jump, KindAt, IsCallWide, IsCallExchange;
    PlaceBounds(w, buffer, p);
    Kinds(w.code, p.offset);
    var im := ((p.end - 2 - (p.start + 1)) * 2 - 4 + 2) / 4;
    var code := [0xb480, LdrPc(7, im), 0x46be, 0xbc80, 0x47f0];
    assert CodeWords(w, p) == code && TrailHalves(w, p) == Halves(Jump(w, p));
    hide CodeWords, TrailHalves;
    PlaceSlots(w, buffer, p, code, Halves(Jump(w, p)));
    assert buffer[p.start + 0] == code[0] && buffer[p.start + 1] == code[1] && buffer[p.start + 2] == code[2];
    assert buffer[p.start + 3] == code[3] && buffer[p.start + 4] == code[4];
    LabelLands(base, p.start + 1, p.end - 2, 7);
    WordBack(base, buffer, p.end - 2, Jump(w, p));
  }

  /** CBZ and CBNZ test the same register and reach their trailer exactly when the instruction and those behind it need
      no more than 72 halfwords. The trailer restores the flags and the scratch register before it goes on. */
  lemma CbzKept(w: Window, base: nat, buffer: seq<nat>, p: Place)
    requires PlaceIn(w, buffer, p) && base % 4 == 0 && IsCompareBranch(w.code[p.offset])
    ensures p.start + 6 < |buffer|
    ensures var (ic, cb) := (w.code[p.offset], buffer[p.start + 3]);
      && cb % 8 == ic % 8 && cb / 0x800 == ic / 0x800
      && OnBoundary(w.code, p.offset) && (CbzHalf(p.start + 3, cb) == p.end - 10 <==> Need(w.code, p.offset) <= 72)
    ensures buffer[p.end - 10..p.end - 6] == buffer[p.start + 4..p.start + 7] + [T_NOP]
    ensures TransferTo(base, buffer, p.end - 6) == Some(Jump(w, p))
  {
    hide PlaceIn, Transfer, Jump, TransferTo, CbzTo, CbzHalf, BitOf, KindAt, Need, OnBoundary, IsCompareBranch;
    PlaceBounds(w, buffer, p);
    Kinds(w.code, p.offset);
    CbzWritten(w, buffer, p);
    CbzReaches(p.start + 3, p.end - 10, BitOf(w.code[p.offset], 11), w.code[p.offset] % 8);
    CbzNeed(w, buffer, p);
    TransferLands(base, buffer, p.end - 6, Jump(w, p));
  }

  lemma CbzWritten(w: Window, buffer: seq<nat>, p: Place)
    requires PlaceIn(w, buffer, p) && p.kind == Cbz
    ensures p.start >= 0 && p.start + 7 <= p.end - 10 && p.end <= |buffer| && p.end % 2 == 0
    ensures var ic := w.code[p.offset];
      && buffer[p.start + 3] == CbzTo(BitOf(ic, 11), ic % 8, (p.end - 10 - (p.start + 3)) * 2 - 4)
      && ic / 0x800 == 0x16 + BitOf(ic, 11)
    ensures buffer[p.end - 10..p.end - 6] == buffer[p.start + 4..p.start + 7] + [T_NOP]
    ensures buffer[p.end - 6..p.end] == Transfer(Jump(w, p))
  {
    hide PlaceIn, Transfer, Jump, CbzTo, PushPop, BitOf, IsCbz;
    PlaceBounds(w, buffer, p);
    var ic := w.code[p.offset];
    var (rt, im) := (Scratch(ic % 8), (p.end - 10 - (p.start + 3)) * 2 - 4);
    CbzOpcode(ic);
    hide KindAt;
    var cb, back := CbzTo(BitOf(ic, 11), ic % 8, im), [0xf380 + rt, 0x8c00, PushPop(0xbc00, rt)];
    var code := [PushPop(0xb400, rt), 0xf3ef, 0x8000 + rt * 0x100, cb, 0xf380 + rt, 0x8c00, PushPop(0xbc00, rt)];
    var trail := back + [T_NOP] + Transfer(Jump(w, p));
    assert CodeWords(w, p) == code && TrailHalves(w, p) == trail;
    hide CodeWords, TrailHalves;
    PlaceSlots(w, buffer, p, code, trail);
    CbzSlots(buffer, p.start, p.end, code, back, Transfer(Jump(w, p)));
  }

  lemma CbzNeed(w: Window, buffer: seq<nat>, p: Place)
    requires PlaceIn(w, buffer, p)
    ensures OnBoundary(w.code, p.offset) && ((p.end - 10 - (p.start + 3)) * 2 - 4 <= 126 <==> Need(w.code, p.offset) <= 72)
  {
    hide CodeWords, TrailHalves, KindAt, CodeSize, TrailSize, Refused, OnBoundary, Need;
  }

  lemma CbzSlots(buffer: seq<nat>, start: nat, end: int, code: seq<Half>, back: seq<Half>, transfer: seq<Half>)
    requires |code| == 7 && code[4..] == back && |transfer| == 6 && start + 7 <= end - 10 && end <= |buffer|
    requires forall i :: 0 <= i < |code| ==> buffer[start + i] == code[i]
    requires buffer[end - 10..end] == back + [T_NOP] + transfer
    ensures buffer[start + 3] == code[3] && buffer[end - 10..end - 6] == buffer[start + 4..start + 7] + [T_NOP]
    ensures buffer[end - 6..end] == transfer
  {
    assert buffer[start + 4..start + 7] == code[4..];
    assert buffer[end - 6..end] == buffer[end - 10..end][4..];
    assert buffer[end - 10..end - 6] == buffer[end - 10..end][..4];
  }

  lemma CbzOpcode(ic: Half)
    requires IsCbz(ic)
    ensures ic / 0x800 == 0x16 + BitOf(ic, 11)
  {
    ShiftThree(ic, 8);
    ShiftThree(ic / 8, 5);
    ShiftThree(ic / 8 / 8, 2);
    var x := ic / 8 / 8 / 8;
    assert ShiftRight(x, 2) == ShiftRight(x / 2, 1) == ShiftRight(x / 2 / 2, 0);
    assert ic / 8 / 8 / 8 / 2 / 2 == ic / 0x800;
  }

  /** The fields of a CBZ put together from its parts. */
  lemma CbzParts(cb: nat, op: nat, hi: nat, lo: nat, rn: nat)
    requires op < 2 && hi < 2 && lo < 0x20 && rn < 8
    requires cb == 0xb100 + op * 0x800 + hi * 0x200 + lo * 8 + rn
    ensures cb % 8 == rn && cb / 0x800 == 0x16 + op && cb / 0x200 % 2 == hi && cb / 8 % 0x20 == lo
  {
  }

  lemma SevenBits(im: int)
    requires im % 2 == 0
    ensures im % 0x80 == im / 0x40 % 2 * 0x40 + im / 2 % 0x20 * 2
  {
  }

  lemma CbzFields(op: nat, rn: nat, im: int)
    requires op < 2 && rn < 8 && im % 2 == 0
    ensures var cb := CbzTo(op, rn, im); cb % 8 == rn && cb / 0x800 == 0x16 + op && CbOffset16(cb) == im % 0x80
  {
    CbzParts(CbzTo(op, rn, im), op, im / 0x40 % 2, im / 2 % 0x20, rn);
    SevenBits(im);
  }

  lemma CbzReaches(l: int, r: int, op: nat, rn: nat)
    requires op < 2 && rn < 8 && l + 2 <= r
    ensures var cb := CbzTo(op, rn, (r - l) * 2 - 4);
      && cb % 8 == rn && cb / 0x800 == 0x16 + op
      && (CbzHalf(l, cb) == r <==> (r - l) * 2 - 4 <= 126)
  {
    hide CbzTo, CbOffset16;
    CbzFields(op, rn, (r - l) * 2 - 4);
    SevenBitsHalf(r - l - 2);
  }

  lemma SevenBitsHalf(d: nat)
    ensures (2 * d) % 0x80 / 2 == d <==> 2 * d <= 126
  {
  }

  /** LDR.W loads the address of the literal into its register, and then what is there. */
  lemma LdrWKept(w: Window, base: nat, buffer: seq<nat>, p: Place)
    requires PlaceIn(w, buffer, p) && base % 4 == 0 && |buffer| <= MAX_LENGTH && IsLdrLiteralWide(w.code[p.offset])
    ensures p.start + 3 < |buffer| && buffer[p.start] == 0xf8df
    ensures WordAt(base, buffer, LdrWSource(base, p.start, 0xf8df, buffer[p.start + 1]))
      == Some(Sum32(LdrWSource(w.area, p.offset, w.code[p.offset], w.Next(p.offset)), 0))
    ensures var rt := w.Next(p.offset) / 0x1000;
      buffer[p.start + 1] / 0x1000 == rt && buffer[p.start + 2] == 0xf8d0 + rt && buffer[p.start + 3] == rt * 0x1000  // ldr.w rt, [rt, #0]
  {
    hide PlaceIn, LdrWSource, WordAt, Address, Label, Halves, KindAt;
    PlaceBounds(w, buffer, p);
    Kinds(w.code, p.offset);
    var next := w.Next(p.offset);
    var (rt, im) := (next / 0x1000, Label(p.start, p.end - 2));
    var code := [0xf8df, rt * 0x1000 + im % 0x1000, 0xf8d0 + rt, rt * 0x1000];
    assert CodeWords(w, p) == code && TrailHalves(w, p) == Halves(Address(w, p));
    hide CodeWords, TrailHalves;
    PlaceSlots(w, buffer, p, code, Halves(Address(w, p)));
    assert buffer[p.start + 0] == code[0] && buffer[p.start + 1] == code[1];
    assert buffer[p.start + 2] == code[2] && buffer[p.start + 3] == code[3];
    LabelLands(base, p.start, p.end - 2, 0);
    LdrWLands(base, p.start, rt, im);
    WordBack(base, buffer, p.end - 2, Address(w, p));
    LdrWAddress(w, p);
  }

  lemma LdrWLands(base: nat, l: nat, rt: nat, im: int)
    requires rt < 16 && 0 <= im < 0x1000
    ensures LdrWSource(base, l, 0xf8df, rt * 0x1000 + im % 0x1000) == AlignPc(base + 2 * l + 4) + im
  {
    UpBit();
    hide BitOf;
  }

  lemma LdrWAddress(w: Window, p: Place)
    requires p.offset < |w.code| && p.kind == LdrW
    ensures Address(w, p) == Sum32(LdrWSource(w.area, p.offset, w.code[p.offset], w.Next(p.offset)), 0)
  {
    hide AlignPc, BitOf;
  }

  /** What a load does: it puts the value into a register, but into the PC it is a jump. */
  datatype Loaded = Register(rt: nat, value: nat) | JumpTo(dest: nat)

  function Load(rt: nat, value: nat): Loaded {
    if rt == 15 then JumpTo(value) else Register(rt, value)
  }

  /** What LDR.W Rt, [PC, #imm] and LDR.W Rd, [Rt, #imm] do at halfword l of a buffer at base: the second one is reached
      unless the first one jumps. */
  function RunLoads(base: nat, buffer: seq<nat>, l: int, mem: nat -> nat): Option<Loaded> {
    if l < 0 || l + 4 > |buffer| || buffer[l] != 0xf8df || buffer[l + 2] / 0x10 != 0xf8d then None
    else
      var (rt, address) := (buffer[l + 1] / 0x1000, WordAt(base, buffer, LdrWSource(base, l, 0xf8df, buffer[l + 1])));
      if address == None then None
      else if rt == 15 then Some(JumpTo(address.value))
      else if buffer[l + 2] % 0x10 != rt then None
      else Some(Load(buffer[l + 3] / 0x1000, mem(address.value + buffer[l + 3] % 0x1000)))
  }

  /** The address that the LDR.W at o loads from. */
  function LiteralOf(w: Window, o: nat): Word
    requires o < |w.code|
  {
    Sum32(LdrWSource(w.area, o, w.code[o], w.Next(o)), 0)
  }

  /** What is in the buffer loads what the original loads exactly when that does not load the PC, a literal that holds
      its own address aside: the first load would jump to the literal instead of where it points. */
  lemma LdrWExact(w: Window, base: nat, buffer: seq<nat>, p: Place, mem: nat -> nat)
    requires PlaceIn(w, buffer, p) && base % 4 == 0 && |buffer| <= MAX_LENGTH && IsLdrLiteralWide(w.code[p.offset])
    ensures var (rt, a) := (w.Next(p.offset) / 0x1000, LiteralOf(w, p.offset));
      && RunLoads(base, buffer, p.start, mem) == Some(if rt == 15 then JumpTo(a) else Load(rt, mem(a)))
      && (RunLoads(base, buffer, p.start, mem) == Some(Load(rt, mem(a))) <==> rt != 15 || mem(a) == a)
  {
    hide PlaceIn, LdrWSource, WordAt, KindAt, Sum32;
    PlaceBounds(w, buffer, p);
    LdrWKept(w, base, buffer, p);
    var rt := w.Next(p.offset) / 0x1000;
    assert buffer[p.start + 2] / 0x10 == 0xf8d && buffer[p.start + 2] % 0x10 == rt && buffer[p.start + 3] % 0x1000 == 0;
  }

  /** A window that begins with ldr.w pc, [pc, #0]. */
  lemma LdrWIntoPc(area: nat, base: nat, buffer: seq<nat>, mem: nat -> nat) returns (p: Place)
    requires area % 4 == 0 && base % 4 == 0 && Complete(Window(area, [0xf8df, 0xf000, 0xbf00, 0xbf00, 0xbf00, 0xbf00]), buffer)
    ensures var w := Window(area, [0xf8df, 0xf000, 0xbf00, 0xbf00, 0xbf00, 0xbf00]);
      && Required(area) == |w.code| && AllPlaces(w.code) != [] && p == AllPlaces(w.code)[0] && p.offset == 0
      && RunLoads(base, buffer, p.start, mem) == Some(JumpTo(LiteralOf(w, p.offset)))
  {
    var w := Window(area, [0xf8df, 0xf000, 0xbf00, 0xbf00, 0xbf00, 0xbf00]);
    hide Places, Need, OnBoundary, LdrWSource, CodeSize, TrailSize, CodeWords, TrailHalves, CodeOf, TrailOf, BitOf;
    PlacesNext(w.code, 0, Pad(w.code), Length(w.code));
    p := AllPlaces(w.code)[0];
    PlaceFilled(w, buffer, 0);
    LengthBound(w);
    hide PlaceIn, Pad, Length, AllPlaces, RunLoads, Complete;
    LdrWExact(w, base, buffer, p, mem);
  }

  /** ADD with the PC loads the PC of the original and adds the register, saved in a scratch register, to it. */
  lemma AddKept(w: Window, base: nat, buffer: seq<nat>, p: Place)
    requires PlaceIn(w, buffer, p) && base % 4 == 0 && |buffer| <= MAX_LENGTH && IsAddPc(w.code[p.offset])
    ensures var (rd, rt) := (w.code[p.offset] % 8, Scratch(w.code[p.offset] % 8));
      && p.start + 4 < |buffer| && rd != rt
      && buffer[p.start + 1] == 0x4600 + rd * 8 + rt && buffer[p.start + 2] / 0x100 == 0x48 + rd
      && buffer[p.start + 3] == 0x4400 + rt * 8 + rd
      && buffer[p.start + 4] == buffer[p.start] + 0x800  // pop what was pushed
    ensures WordAt(base, buffer, LdrSource(base, p.start + 2, buffer[p.start + 2])) == Some(Sum32(w.PcAt(p.offset), 0))
  {
    hide PlaceIn, LdrPc, LdrSource, WordAt, Label, Halves, KindAt, IsAddPc;
    PlaceBounds(w, buffer, p);
    Kinds(w.code, p.offset);
    var (rd, rt) := (w.code[p.offset] % 8, Scratch(w.code[p.offset] % 8));
    var im := Label(p.start + 2, p.end - 2) / 4;
    var code := [PushPop(0xb400, rt), 0x4600 + rd * 8 + rt, LdrPc(rd, im), 0x4400 + rt * 8 + rd, PushPop(0xbc00, rt)];
    assert CodeWords(w, p) == code && TrailHalves(w, p) == Halves(Sum32(w.PcAt(p.offset), 0));
    hide CodeWords, TrailHalves;
    PlaceSlots(w, buffer, p, code, Halves(Sum32(w.PcAt(p.offset), 0)));
    assert buffer[p.start + 0] == code[0] && buffer[p.start + 1] == code[1] && buffer[p.start + 2] == code[2];
    assert buffer[p.start + 3] == code[3] && buffer[p.start + 4] == code[4];
    LabelLands(base, p.start + 2, p.end - 2, rd);
    WordBack(base, buffer, p.end - 2, Sum32(w.PcAt(p.offset), 0));
  }

  /** Is what stands at o rewritten? */
  predicate IsRewritten(w: Window, o: nat)
    requires o < |w.code|
  {
    IsBranchAt(w, o) || IsLdrLiteral(w.Ic(o)) || IsLdrLiteralWide(w.Ic(o)) || IsAddPc(w.Ic(o))
  }

  /** Other instructions are copied. */
  lemma Copied(w: Window, buffer: seq<nat>, p: Place)
    requires PlaceIn(w, buffer, p) && !IsRewritten(w, p.offset)
    ensures buffer[p.start] == w.code[p.offset] && (Is32Bit(w.code[p.offset]) ==> buffer[p.start + 1] == w.Next(p.offset))
  {
    hide PlaceIn, KindAt, Is32Bit, IsLdrLiteral, IsCondBranch, IsCondBranchWide, IsFreeBranchWide, IsCallWide, IsCallExchange,
      IsCompareBranch, IsLdrLiteralWide, IsAddPc;
    PlaceBounds(w, buffer, p);
    Kinds(w.code, p.offset);
    var code := if p.kind == Wide then [w.code[p.offset], w.Next(p.offset)] else [w.code[p.offset]];
    assert CodeWords(w, p) == code && TrailHalves(w, p) == [];
    hide CodeWords, TrailHalves;
    PlaceSlots(w, buffer, p, code, []);
    assert buffer[p.start + 0] == code[0];
    assert p.kind == Wide ==> buffer[p.start + 1] == code[1];
  }

  /** The code ends with the jump behind the window, on a word boundary, and nothing is left between it and the trailer. */
  lemma TailKept(w: Window, base: nat, buffer: seq<nat>) returns (r: nat)
    requires Complete(w, buffer) && base % 4 == 0
    ensures r == Pad(w.code) + |CodeOf(w, AllPlaces(w.code))| && r + 6 + |TrailOf(w, AllPlaces(w.code))| == |buffer|
    ensures TransferTo(base, buffer, r) == Some(Sum32(w.area + 2 * |w.code|, 1))
  {
    hide KindAt, CodeSize, TrailSize, CodeOf, TrailOf, CodeWords, TrailHalves, Need, Places, OnBoundary, Refused;
    var ps := AllPlaces(w.code);
    PlacesFollow(w, 0, Pad(w.code), Length(w.code), |ps|);
    assert ps[..|ps|] == ps;
    assert Length(w.code) % 2 == 0;
    hide AllPlaces, Pad, Length, Transfer, TransferTo;
    r := Pad(w.code) + |CodeOf(w, ps)|;
    assert buffer[r..r + 6] == buffer[Pad(w.code)..][|CodeOf(w, ps)|..|CodeOf(w, ps)| + 6];
    TransferLands(base, buffer, r, Sum32(w.area + 2 * |w.code|, 1));
  }

  // ---------- the hook as a whole ----------

  /** How many halfwords the hook overwrites: the jump, and a nop in front of it unless the area is word-aligned. */
  function Required(area: nat): nat {
    6 + area % 4 / 2
  }

  /** The loop that extends the window to the end of an instruction. */
  method WindowLength(area: nat, mem: seq<Half>) returns (used: nat)
    requires area % 2 == 0 && |mem| >= MAX_WINDOW
    ensures Required(area) <= used <= Required(area) + 1 && OnBoundary(mem[..used], 0)
  {
    used := 0;
    while used < Required(area)
      invariant used <= Required(area) + 1
      invariant forall end :: used <= end <= |mem| && OnBoundary(mem[..end], used) ==> OnBoundary(mem[..end], 0)
    {
      var next := used + Width(mem[used]);
      forall end | next <= end <= |mem| && OnBoundary(mem[..end], next)
        ensures OnBoundary(mem[..end], used)
      {
        assert mem[..end][used] == mem[used];
      }
      used := next;
    }
    assert OnBoundary(mem[..used], used);
  }

  /** Both passes over the window at area, when the code there is not hooked already. */
  method BuildTrampoline(area: nat, mem: seq<Half>) returns (ok: bool, buffer: array<nat>, ghost w: Window)
    requires area % 2 == 0 && |mem| >= MAX_WINDOW
    ensures w.area == area && Required(area) <= |w.code| <= MAX_WINDOW && w.code == mem[..|w.code|]
    ensures w.Valid() && InWindow(w, AllPlaces(w.code)) && (ok <==> NoneRefused(w, AllPlaces(w.code)))
    ensures ok ==> Complete(w, buffer[..]) && buffer.Length <= MAX_LENGTH
  {
    var used := WindowLength(area, mem);
    var code := mem[..used];
    var window := Window(area, code);
    w := window;
    var pad, length := SizingPass(code);
    buffer := new nat[length];
    ok := EmitPass(window, buffer);
    LengthBound(w);
  }

  /** What the hook writes over the window. */
  function Patch(area: nat, used: nat, replace: Word): (hs: seq<Half>)
    requires Required(area) <= used
    ensures |hs| == used
  {
    seq(area % 4 / 2, _ => T_NOP) + Transfer(replace) + seq(used - Required(area), _ => T_NOP)
  }

  /** The patched function goes to the replacement, and the words it consists of are word-aligned. */
  lemma PatchJumps(area: nat, used: nat, replace: Word)
    requires area % 2 == 0 && Required(area) <= used
    ensures var align := area % 4 / 2;
      TransferTo(area + 2 * align, Patch(area, used, replace)[align..], 0) == Some(replace)
  {
    var align := area % 4 / 2;
    var rest := Patch(area, used, replace)[align..];
    assert rest[0..6] == Transfer(replace);
    TransferLands(area + 2 * align, rest, 0, replace);
  }

  lemma CbzNeeds(code: seq<Half>, o: nat, n: nat)
    requires o + n == |code| && forall i :: 0 <= i < |code| ==> code[i] == 0xb100
    ensures OnBoundary(code, o) && Need(code, o) == 17 * n
    decreases n
  {
    if n > 0 {
      CbzNeeds(code, o + 1, n - 1);
      Kinds(code, o);
      assert KindAt(code, o) == Cbz;
    }
  }

  /** In a window that is full of CBZ the first one does not reach its trailer. */
  lemma CbzOutOfReach(w: Window)
    requires w.area % 2 == 0 && |w.code| >= Required(w.area) && forall i :: 0 <= i < |w.code| ==> w.code[i] == 0xb100
    ensures w.Valid() && IsCompareBranch(w.code[0]) && Need(w.code, 0) > 72
  {
    hide KindAt, Need, OnBoundary;
    CbzNeeds(w.code, 0, |w.code|);
  }
}
