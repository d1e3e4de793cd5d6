/** The x86 hook of Substrate: the size pass over the overwritten instructions, the pass that writes what they become,
    and the pairs of functions that the two use. The instruction decoder is given. */
module X86Hook {
  import opened Bits
  import opened Buffers
  import opened Options

  /** Which of the two builds: 32-bit code, or 64-bit code. */
  datatype Mode = Ia32 | Lp64 {
    function Modulus(): (m: nat)
      ensures m in {0x1_0000_0000, 0x1_0000_0000_0000_0000}
    {
      if this == Ia32 then 0x1_0000_0000 else 0x1_0000_0000_0000_0000
    }

    /** Addresses wrap around. */
    function Wrap(a: int): nat { a % Modulus() }
  }

  /** What the decoder says about an instruction of the window. */
  datatype Decoded = Decoded(bytes: seq<Byte>, modrm: Byte, opcode: Byte, rexR: nat, modrmReg: nat, disp: int) {
    function Len(): int { |bytes| }
  }

  /** Instructions are 1 to 15 bytes long, and the direct branches have the lengths of their only forms. */
  predicate Sound(d: Decoded) {
    && 1 <= |d.bytes| <= 15 && d.rexR < 2 && d.modrmReg < 8
    && (d.bytes[0] == 0xe8 || d.bytes[0] == 0xe9 ==> |d.bytes| == 5)
    && (d.bytes[0] == 0xeb || d.bytes[0] == 0xe3 || d.bytes[0] / 16 == 7 ==> |d.bytes| == 2)
  }

  datatype Kind = RipMove | RipOther | Call | ShortJump | Jump | Cond | Plain

  function KindOf(mode: Mode, d: Decoded): Kind
    requires Sound(d)
  {
    if mode == Lp64 && d.modrm / 0x40 == 0 && d.modrm % 8 == 5 then (if d.opcode == 0x8b then RipMove else RipOther)
    else if d.bytes[0] == 0xe8 then Call
    else if d.bytes[0] == 0xeb then ShortJump
    else if d.bytes[0] == 0xe9 then Jump
    else if d.bytes[0] == 0xe3 || d.bytes[0] / 16 == 7 then Cond
    else Plain
  }

  /** A word of 32 bits in memory order. */
  function Bytes32(w: int): (bs: seq<Byte>)
    ensures |bs| == 4
  {
    [w % 0x100, w / 0x100 % 0x100, w / 0x1_0000 % 0x100, w / 0x100_0000 % 0x100]
  }

  /** The word that is stored at index i. */
  function Load32(bs: seq<Byte>, i: nat): nat
    requires i + 4 <= |bs|
  {
    var b0: nat, b1: nat, b2: nat, b3: nat := bs[i], bs[i + 1], bs[i + 2], bs[i + 3];
    b0 + 0x100 * b1 + 0x1_0000 * b2 + 0x100_0000 * b3
  }

  function Relative(d: Decoded): int
    requires Sound(d)
  {
    if |d.bytes| == 2 then Signed(d.bytes[1], 0x80)
    else if |d.bytes| == 5 then Signed(Load32(d.bytes, 1), 0x8000_0000) else d.disp
  }

  /** Where a branch goes, or what a RIP-relative move reads: the instruction is at address at. */
  function Destiny(mode: Mode, d: Decoded, at: int): (a: nat)
    requires Sound(d)
    ensures a < mode.Modulus()
  {
    mode.Wrap(at + d.Len() + if KindOf(mode, d) == RipMove then d.disp else Relative(d))
  }

  // ---------- sizes ----------

  predicate Is32BitOffset(mode: Mode, target: int, source: int) {
    -0x8000_0000 <= Signed(mode.Wrap(target - source), mode.Modulus() / 2) < 0x8000_0000
  }

  const SIZE_OF_SKIP := 5

  function SizeOfPushPointer(target: nat): nat {
    if target < 0x1_0000_0000 then 5 else 13
  }

  /** MSSizeOfJump without a source */
  function SizeOfBlindJump(mode: Mode, target: nat): nat {
    if mode == Ia32 then SIZE_OF_SKIP else SizeOfPushPointer(target) + 1
  }

  function SizeOfJump(mode: Mode, target: nat, source: int): nat {
    if mode == Ia32 || Is32BitOffset(mode, target, source + 5) then SIZE_OF_SKIP else SizeOfPushPointer(target) + 1
  }

  function SizeOfPop(reg: nat): nat {
    if reg / 8 != 0 then 2 else 1
  }

  const SIZE_OF_MOVE64 := 3

  /** What the size pass counts for an instruction at address at. */
  function SizeOf(mode: Mode, d: Decoded, at: int): int
    requires Sound(d)
  {
    var destiny := Destiny(mode, d, at);
    match KindOf(mode, d)
    case RipMove => SizeOfPushPointer(destiny) + SizeOfPop(d.rexR * 8 + d.modrmReg) + SIZE_OF_MOVE64
    case RipOther => d.Len()
    case Call => if Relative(d) == 0 then SizeOfPushPointer(destiny) else d.Len() + SIZE_OF_SKIP + SizeOfBlindJump(mode, destiny)
    case ShortJump => SizeOfBlindJump(mode, destiny)
    case Jump => SizeOfBlindJump(mode, destiny)
    case Cond => d.Len() + d.Len() + SizeOfBlindJump(mode, destiny)
    case Plain => d.Len()
  }

  // ---------- bytes ----------

  function WriteSkip(size: int): (bs: seq<Byte>)
    ensures |bs| == SIZE_OF_SKIP
  {
    [0xe9] + Bytes32(size)
  }

  function PushPointer(target: nat): (bs: seq<Byte>)
    requires target < 0x1_0000_0000_0000_0000
    ensures |bs| == SizeOfPushPointer(target)
  {
    [0x68] + Bytes32(target) +
    if target / 0x1_0000_0000 != 0 then [0xc7, 0x44, 0x24, 0x04] + Bytes32(target / 0x1_0000_0000) else []
  }

  /** MSWriteJump at address source: it is as long as MSSizeOfJump says. */
  function WriteJump(mode: Mode, target: nat, source: int): (bs: seq<Byte>)
    requires target < mode.Modulus()
    ensures |bs| == SizeOfJump(mode, target, source)
  {
    if mode == Ia32 || Is32BitOffset(mode, target, source + 5) then WriteSkip(target - (source + 5))
    else PushPointer(target) + [0xc3]
  }

  function WritePop(reg: nat): (bs: seq<Byte>)
    requires reg < 16
    ensures |bs| == SizeOfPop(reg)
  {
    (if reg / 8 != 0 then [0x41] else []) + [0x58 + reg % 8]
  }

  /** mov from the address in a register to the register */
  function WriteMove64(reg: nat): (bs: seq<Byte>)
    requires reg < 16
    ensures |bs| == SIZE_OF_MOVE64
  {
    [0x48 + reg / 8 * 5, 0x8b, reg % 8 * 9]
  }

  /** What the second pass writes for an instruction at address at, when its buffer has reached address current. */
  function Emit(mode: Mode, d: Decoded, at: int, current: int): seq<Byte>
    requires Sound(d)
  {
    var destiny := Destiny(mode, d, at);
    match KindOf(mode, d)
    case RipMove =>
      var reg := d.rexR * 8 + d.modrmReg;
      PushPointer(destiny) + WritePop(reg) + WriteMove64(reg)
    case Call =>
      if Relative(d) == 0 then PushPointer(mode.Wrap(at + d.Len()))
      else
        [0xe8] + Bytes32(SIZE_OF_SKIP) + WriteSkip(SizeOfJump(mode, destiny, current + 5 + SIZE_OF_SKIP))
        + WriteJump(mode, destiny, current + 10)
    case ShortJump => WriteJump(mode, destiny, current)
    case Jump => WriteJump(mode, destiny, current)
    case Cond =>
      [d.bytes[0], 2, 0xeb, SizeOfJump(mode, destiny, current + 3 + 1)] + WriteJump(mode, destiny, current + 4)
    case _ => d.bytes
  }

  /** No instruction needs more than was counted for it, wherever the buffer is. */
  lemma EmitFits(mode: Mode, d: Decoded, at: int, current: int)
    requires Sound(d)
    ensures |Emit(mode, d, at, current)| <= SizeOf(mode, d, at)
  {
  }

  // ---------- where the written code goes ----------

  lemma LoadBytes(w: int)
    ensures Load32(Bytes32(w), 0) == w % 0x1_0000_0000
  {
    var (q1, q2, q3, q4) := (w / 0x100, w / 0x1_0000, w / 0x100_0000, w / 0x1_0000_0000);
    assert q1 / 0x100 == q2 && q2 / 0x100 == q3 && q3 / 0x100 == q4;
    assert w == q1 * 0x100 + w % 0x100 && q1 == q2 * 0x100 + q1 % 0x100 && q2 == q3 * 0x100 + q2 % 0x100;
    assert q3 == q4 * 0x100 + q3 % 0x100;
  }

  /** The four bytes at index i are those of w. */
  lemma LoadAt(bs: seq<Byte>, i: nat, w: int)
    requires i + 4 <= |bs| && bs[i..i + 4] == Bytes32(w)
    ensures Load32(bs, i) == w % 0x1_0000_0000
  {
    var part := bs[i..i + 4];
    assert bs[i] == part[0] && bs[i + 1] == part[1] && bs[i + 2] == part[2] && bs[i + 3] == part[3];
    LoadBytes(w);
  }

  /** A relocated CALL calls the jump behind the skip, and the skip lands exactly behind that jump. */
  lemma CallLands(mode: Mode, d: Decoded, at: int, current: int)
    requires Sound(d) && KindOf(mode, d) == Call && Relative(d) != 0
    ensures var (e, jump) := (Emit(mode, d, at, current), WriteJump(mode, Destiny(mode, d, at), current + 10));
      && |e| == 10 + |jump| && e[0] == 0xe8 && 5 + Signed(Load32(e, 1), 0x8000_0000) == 10 && e[10..] == jump
      && e[5] == 0xe9 && 10 + Signed(Load32(e, 6), 0x8000_0000) == |e|
  {
    hide Destiny, Relative, Bytes32, Is32BitOffset;
    var destiny := Destiny(mode, d, at);
    var (jump, size) := (WriteJump(mode, destiny, current + 10), SizeOfJump(mode, destiny, current + 10));
    var e := Emit(mode, d, at, current);
    assert e == [0xe8] + Bytes32(SIZE_OF_SKIP) + ([0xe9] + Bytes32(size)) + jump;
    hide WriteJump, Emit, KindOf, WriteSkip;
    assert e[1..5] == Bytes32(SIZE_OF_SKIP) && e[6..10] == Bytes32(size) && e[10..] == jump;
    LoadAt(e, 1, SIZE_OF_SKIP);
    LoadAt(e, 6, size);
  }

  /** A relocated Jcc that is taken goes over the short jump, and the short jump lands exactly behind the long one. */
  lemma CondLands(mode: Mode, d: Decoded, at: int, current: int)
    requires Sound(d) && KindOf(mode, d) == Cond
    ensures var (e, jump) := (Emit(mode, d, at, current), WriteJump(mode, Destiny(mode, d, at), current + 4));
      && |e| == 4 + |jump| && e[0] == d.bytes[0] && 2 + Signed(e[1], 0x80) == 4 && e[4..] == jump
      && e[2] == 0xeb && 4 + Signed(e[3], 0x80) == |e|
  {
    hide Destiny, Relative, Is32BitOffset, PushPointer, WriteSkip;
  }

  /** What PushPointer pushes: PUSH extends the sign of its word, and the high half is only written if it is not zero. */
  function Pushed(mode: Mode, bs: seq<Byte>): nat
    requires |bs| >= 5
  {
    if |bs| == 13 then Load32(bs, 1) + 0x1_0000_0000 * Load32(bs, 9) else mode.Wrap(Signed(Load32(bs, 1), 0x8000_0000))
  }

  /** The addresses from 2 GB to 4 GB, in code of 64 bits. */
  predicate SignLost(mode: Mode, target: nat) {
    mode == Lp64 && 0x8000_0000 <= target < 0x1_0000_0000
  }

  /** PushPointer pushes its address exactly if its sign is not lost. */
  lemma PushKept(mode: Mode, target: nat)
    requires target < mode.Modulus()
    ensures Pushed(mode, PushPointer(target)) == target <==> !SignLost(mode, target)
  {
    hide PushPointer, Pushed;
    if target >= 0x1_0000_0000 {
      PushWide(mode, target);
    } else {
      PushShort(mode, target);
      SignExtended(mode, target);
    }
  }

  lemma PushShort(mode: Mode, target: nat)
    requires target < 0x1_0000_0000
    ensures Pushed(mode, PushPointer(target)) == mode.Wrap(Signed(target, 0x8000_0000))
  {
    var bs := PushPointer(target);
    assert |bs| == 5 && bs[1..5] == Bytes32(target);
    hide Bytes32, PushPointer, Load32;
    LoadAt(bs, 1, target);
  }

  lemma PushWide(mode: Mode, target: nat)
    requires 0x1_0000_0000 <= target < mode.Modulus()
    ensures Pushed(mode, PushPointer(target)) == target && !SignLost(mode, target)
  {
    var (low, high) := (Bytes32(target), Bytes32(target / 0x1_0000_0000));
    assert PushPointer(target) == [0x68] + low + ([0xc7, 0x44, 0x24, 0x04] + high);
    hide PushPointer, Load32, Bytes32;
    PushedWords(target, low, high, PushPointer(target));
  }

  lemma PushedWords(target: nat, low: seq<Byte>, high: seq<Byte>, bs: seq<Byte>)
    requires target < 0x1_0000_0000_0000_0000 && low == Bytes32(target) && high == Bytes32(target / 0x1_0000_0000)
    requires bs == [0x68] + low + ([0xc7, 0x44, 0x24, 0x04] + high)
    ensures |bs| == 13 && Load32(bs, 1) + 0x1_0000_0000 * Load32(bs, 9) == target
  {
    hide Load32, Bytes32;
    assert bs[1..5] == low && bs[9..13] == high;
    LoadAt(bs, 1, target);
    LoadAt(bs, 9, target / 0x1_0000_0000);
  }

  lemma SignExtended(mode: Mode, target: nat)
    requires target < 0x1_0000_0000
    ensures mode.Wrap(Signed(target, 0x8000_0000)) == target <==> !SignLost(mode, target)
  {
  }

  /** A relocated RIP-relative move pushes the address that it reads, and pops it into its register. */
  lemma RipMovePushes(mode: Mode, d: Decoded, at: int, current: int)
    requires Sound(d) && KindOf(mode, d) == RipMove
    ensures var (e, destiny, reg) := (Emit(mode, d, at, current), Destiny(mode, d, at), d.rexR * 8 + d.modrmReg);
      var n := SizeOfPushPointer(destiny);
      && destiny == mode.Wrap(at + d.Len() + d.disp)
      && n <= |e| && e[n..] == WritePop(reg) + WriteMove64(reg) && (Pushed(mode, e[..n]) == destiny <==> !SignLost(mode, destiny))
  {
    assert Destiny(mode, d, at) == mode.Wrap(at + d.Len() + d.disp);
    hide Pushed, PushPointer, WritePop, WriteMove64, Destiny;
    var (e, destiny, reg) := (Emit(mode, d, at, current), Destiny(mode, d, at), d.rexR * 8 + d.modrmReg);
    assert e == PushPointer(destiny) + WritePop(reg) + WriteMove64(reg);
    assert e[..|PushPointer(destiny)|] == PushPointer(destiny);
    assert e[|PushPointer(destiny)|..] == WritePop(reg) + WriteMove64(reg);
    PushKept(mode, destiny);
  }

  /** The register that POP loads. */
  function PopsInto(bs: seq<Byte>): Option<nat> {
    if |bs| == 1 && bs[0] / 8 == 0xb then Some(bs[0] % 8)
    else if |bs| == 2 && bs[0] / 0x10 == 4 && bs[1] / 8 == 0xb then Some(bs[0] % 2 * 8 + bs[1] % 8)
    else None
  }

  /** The register that MOV r64, r/m64 loads, and the one at whose address it reads; with 4 or 5 as its lowest bits the
      encoding stands for another operand. */
  function MovesInto(bs: seq<Byte>): Option<nat> {
    if |bs| == 3 && bs[0] / 8 == 9 && bs[1] == 0x8b then Some(bs[0] / 4 % 2 * 8 + bs[2] / 8 % 8) else None
  }

  function MovesFrom(bs: seq<Byte>): Option<nat> {
    if |bs| == 3 && bs[0] / 8 == 9 && bs[1] == 0x8b && bs[2] / 0x40 == 0 && bs[2] % 8 !in {4, 5}
    then Some(bs[0] % 2 * 8 + bs[2] % 8) else None
  }

  /** The address is popped into the register of the original, and what is there is loaded into it, unless it is RSP, RBP,
      R12 or R13. */
  lemma MoveExact(reg: nat)
    requires reg < 16
    ensures PopsInto(WritePop(reg)) == Some(reg) && MovesInto(WriteMove64(reg)) == Some(reg)
    ensures MovesFrom(WriteMove64(reg)) == Some(reg) <==> reg !in {4, 5, 12, 13}
  {
    var (h, l) := (reg / 8, reg % 8);
    assert (0x48 + h * 5) / 8 == 9 && (0x48 + h * 5) / 4 % 2 == h && (0x48 + h * 5) % 2 == h;
    assert l * 9 / 8 == l + l / 8 && l * 9 % 8 == l;
  }

  /** A CALL of the next instruction pushes the address of that instruction. */
  lemma CallOfNextPushes(mode: Mode, d: Decoded, at: int, current: int)
    requires Sound(d) && KindOf(mode, d) == Call && Relative(d) == 0
    ensures var (e, next) := (Emit(mode, d, at, current), mode.Wrap(at + d.Len()));
      |e| >= 5 && (Pushed(mode, e) == next <==> !SignLost(mode, next))
  {
    hide Pushed, PushPointer;
    PushKept(mode, mode.Wrap(at + d.Len()));
  }

  /** Where a written jump goes: a relative one, or a return to a pushed address. */
  function JumpGoes(mode: Mode, bs: seq<Byte>, at: int): nat
    requires |bs| >= 6 || (|bs| == 5 && bs[0] == 0xe9)
  {
    if bs[0] == 0xe9 then mode.Wrap(at + 5 + Signed(Load32(bs, 1), 0x8000_0000)) else Pushed(mode, bs[..|bs| - 1])
  }

  predicate Near(mode: Mode, target: nat, source: int) {
    mode == Ia32 || Is32BitOffset(mode, target, source + 5)
  }

  lemma JumpForm(mode: Mode, target: nat, source: int)
    requires target < mode.Modulus()
    ensures var bs := WriteJump(mode, target, source); if Near(mode, target, source) then |bs| == 5 && bs[0] == 0xe9 else |bs| >= 6
  {
    hide Is32BitOffset, PushPointer, Bytes32;
  }

  /** A written jump goes to its target, except in the far form for the addresses from 2 GB to 4 GB. */
  lemma JumpKept(mode: Mode, target: nat, source: int)
    requires target < mode.Modulus()
    ensures var bs := WriteJump(mode, target, source);
      && (|bs| >= 6 || (|bs| == 5 && bs[0] == 0xe9))
      && (JumpGoes(mode, bs, source) == target <==> Near(mode, target, source) || !SignLost(mode, target))
  {
    hide WriteJump, JumpGoes;
    JumpForm(mode, target, source);
    if Near(mode, target, source) {
      NearJump(mode, target, source);
    } else {
      FarJump(mode, target, source);
    }
  }

  /** A jump from 1 TB to the address 2 GB. */
  lemma FarJumpMissed()
    ensures var (target, source) := (0x8000_0000, 0x100_0000_0000); var bs := WriteJump(Lp64, target, source);
      !Near(Lp64, target, source) && |bs| >= 6 && JumpGoes(Lp64, bs, source) != target
  {
    hide WriteJump, JumpGoes;
    JumpKept(Lp64, 0x8000_0000, 0x100_0000_0000);
    JumpForm(Lp64, 0x8000_0000, 0x100_0000_0000);
  }

  lemma NearJump(mode: Mode, target: nat, source: int)
    requires target < mode.Modulus() && Near(mode, target, source)
    ensures var bs := WriteJump(mode, target, source); |bs| == 5 && bs[0] == 0xe9 && JumpGoes(mode, bs, source) == target
  {
    var x := target - (source + 5);
    var bs := WriteJump(mode, target, source);
    assert bs == [0xe9] + Bytes32(x);
    assert bs[1..5] == Bytes32(x);
    LoadAt(bs, 1, x);
    assert JumpGoes(mode, bs, source) == mode.Wrap(source + 5 + Signed(x % 0x1_0000_0000, 0x8000_0000));
    hide WriteJump, JumpGoes;
    var k := SignedBack(x);
    if mode == Ia32 {
      Back32(target, k);
    } else {
      ShortOffset(x, source + 5, target);
    }
  }

  /** A residue taken as signed differs from the number by a multiple of the modulus. */
  lemma SignedBack(x: int) returns (k: int)
    ensures Signed(x % 0x1_0000_0000, 0x8000_0000) == x - k * 0x1_0000_0000
    ensures -0x8000_0000 <= x - k * 0x1_0000_0000 < 0x8000_0000
  {
    k := x / 0x1_0000_0000 + if x % 0x1_0000_0000 < 0x8000_0000 then 0 else 1;
  }

  lemma SignedBack64(x: int) returns (k: int)
    ensures Signed(x % 0x1_0000_0000_0000_0000, 0x8000_0000_0000_0000) == x - k * 0x1_0000_0000_0000_0000
  {
    k := x / 0x1_0000_0000_0000_0000 + if x % 0x1_0000_0000_0000_0000 < 0x8000_0000_0000_0000 then 0 else 1;
  }

  lemma Back32(t: nat, k: int)
    requires t < 0x1_0000_0000
    ensures (t - k * 0x1_0000_0000) % 0x1_0000_0000 == t
  {
  }

  lemma Back64(t: nat, k: int)
    requires t < 0x1_0000_0000_0000_0000
    ensures (t - k * 0x1_0000_0000_0000_0000) % 0x1_0000_0000_0000_0000 == t
  {
  }

  lemma ShortOffset(x: int, from: int, target: nat)
    requires x == target - from && target < 0x1_0000_0000_0000_0000
    requires -0x8000_0000 <= Signed(x % 0x1_0000_0000_0000_0000, 0x8000_0000_0000_0000) < 0x8000_0000
    ensures (from + Signed(x % 0x1_0000_0000, 0x8000_0000)) % 0x1_0000_0000_0000_0000 == target
  {
    var k := SignedBack(x);
    var q := SignedBack64(x);
    hide Signed;
    var s, o := x - k * 0x1_0000_0000, x - q * 0x1_0000_0000_0000_0000;
    assert s - o == (q * 0x1_0000_0000 - k) * 0x1_0000_0000;
    assert s == o;
    Back64(target, q);
  }

  lemma FarJump(mode: Mode, target: nat, source: int)
    requires target < mode.Modulus() && !Near(mode, target, source)
    ensures var bs := WriteJump(mode, target, source);
      |bs| >= 6 && (JumpGoes(mode, bs, source) == target <==> !SignLost(mode, target))
  {
    var (bs, push) := (WriteJump(mode, target, source), PushPointer(target));
    assert bs == push + [0xc3] && bs[0] == 0x68;
    assert bs[..|bs| - 1] == push;
    hide WriteJump, PushPointer, Is32BitOffset, Pushed;
    PushKept(mode, target);
  }

  // ---------- where moved instructions go ----------

  /** Does the instruction address memory relative to RIP? */
  predicate UsesRip(mode: Mode, d: Decoded) {
    mode == Lp64 && d.modrm / 0x40 == 0 && d.modrm % 8 == 5
  }

  /** Where the bytes of a direct branch at address at say that it goes. */
  function BranchGoes(mode: Mode, bs: seq<Byte>, at: int): nat
    requires |bs| in {2, 5}
  {
    mode.Wrap(at + |bs| + if |bs| == 2 then Signed(bs[1], 0x80) else Signed(Load32(bs, 1), 0x8000_0000))
  }

  /** A written jump at source goes to dest, unless it is far and the sign of dest is lost. */
  predicate GoesTo(mode: Mode, bs: seq<Byte>, source: int, dest: nat) {
    && (|bs| >= 6 || (|bs| == 5 && bs[0] == 0xe9))
    && (JumpGoes(mode, bs, source) == dest <==> Near(mode, dest, source) || !SignLost(mode, dest))
  }

  lemma WrittenGoes(mode: Mode, target: nat, source: int)
    requires target < mode.Modulus()
    ensures GoesTo(mode, WriteJump(mode, target, source), source, target)
  {
    hide WriteJump, JumpGoes, Near, SignLost;
    JumpKept(mode, target, source);
  }

  lemma DestinyIs(mode: Mode, d: Decoded, at: int)
    requires Sound(d) && !UsesRip(mode, d) && |d.bytes| in {2, 5}
    ensures Destiny(mode, d, at) == BranchGoes(mode, d.bytes, at)
  {
    hide Load32, Signed;
  }

  /** What becomes of an instruction that does not use RIP, by its first byte: the jump of a moved JMP, CALL or Jcc goes
      where its bytes say, and everything else is written unchanged. */
  lemma MovedGoes(mode: Mode, d: Decoded, at: int, current: int)
    requires Sound(d) && !UsesRip(mode, d)
    ensures var (e, first) := (Emit(mode, d, at, current), d.bytes[0]);
      if first in {0xe9, 0xeb} then GoesTo(mode, e, current, BranchGoes(mode, d.bytes, at))
      else if first == 0xe8 then
        Load32(d.bytes, 1) != 0 ==> |e| > 10 && GoesTo(mode, e[10..], current + 10, BranchGoes(mode, d.bytes, at))
      else if first == 0xe3 || first / 16 == 7 then |e| > 4 && GoesTo(mode, e[4..], current + 4, BranchGoes(mode, d.bytes, at))
      else e == d.bytes
  {
    hide GoesTo, WriteJump, Destiny, BranchGoes, Load32, PushPointer;
    var first := d.bytes[0];
    if first in {0xe9, 0xeb} {
      DestinyIs(mode, d, at);
      WrittenGoes(mode, Destiny(mode, d, at), current);
    } else if first == 0xe8 {
      DestinyIs(mode, d, at);
      if Load32(d.bytes, 1) != 0 {
        RelativeIs(d);
        CallLands(mode, d, at, current);
        WrittenGoes(mode, Destiny(mode, d, at), current + 10);
      }
    } else if first == 0xe3 || first / 16 == 7 {
      DestinyIs(mode, d, at);
      CondLands(mode, d, at, current);
      WrittenGoes(mode, Destiny(mode, d, at), current + 4);
    }
  }

  lemma RelativeIs(d: Decoded)
    requires Sound(d) && d.bytes[0] == 0xe8 && Load32(d.bytes, 1) != 0
    ensures Relative(d) != 0
  {
    WordBelow(d.bytes, 1);
    hide Load32;
  }

  lemma WordBelow(bs: seq<Byte>, i: nat)
    requires i + 4 <= |bs|
    ensures Load32(bs, i) < 0x1_0000_0000
  {
  }

  // ---------- the passes ----------

  predicate AllSound(ds: seq<Decoded>) {
    forall i :: 0 <= i < |ds| ==> Sound(ds[i])
  }

  /** The bytes of the window. */
  function Used(ds: seq<Decoded>): int {
    if ds == [] then 0 else Used(ds[..|ds| - 1]) + ds[|ds| - 1].Len()
  }

  /** What the size pass counts for the instructions of a window at area. */
  function Sizes(mode: Mode, ds: seq<Decoded>, area: int): int
    requires AllSound(ds)
  {
    if ds == [] then 0
    else
      var before := ds[..|ds| - 1];
      Sizes(mode, before, area) + SizeOf(mode, ds[|ds| - 1], area + Used(before))
  }

  /** What the second pass writes into a buffer at base. */
  function Code(mode: Mode, ds: seq<Decoded>, area: int, base: int): seq<Byte>
    requires AllSound(ds)
  {
    if ds == [] then []
    else
      var before := ds[..|ds| - 1];
      var code := Code(mode, before, area, base);
      code + Emit(mode, ds[|ds| - 1], area + Used(before), base + |code|)
  }

  /** The length of the buffer: the instructions, and the jump behind the window wherever the buffer may be. */
  function Length(mode: Mode, ds: seq<Decoded>, area: int): int
    requires AllSound(ds)
  {
    Sizes(mode, ds, area) + SizeOfBlindJump(mode, mode.Wrap(area + Used(ds)))
  }

  lemma {:induction false} CodeFits(mode: Mode, ds: seq<Decoded>, area: int, base: int)
    requires AllSound(ds)
    ensures |Code(mode, ds, area, base)| <= Sizes(mode, ds, area)
  {
    hide Emit, SizeOf, Sound;
    if ds != [] {
      var before := ds[..|ds| - 1];
      CodeFits(mode, before, area, base);
      EmitFits(mode, ds[|ds| - 1], area + Used(before), base + |Code(mode, before, area, base)|);
    }
  }

  /** What the size pass does to the length for one instruction: its own bytes are counted already. */
  function Adjust(mode: Mode, d: Decoded, at: int): int
    requires Sound(d)
  {
    var destiny := Destiny(mode, d, at);
    match KindOf(mode, d)
    case RipMove => -d.Len() + SizeOfPushPointer(destiny) + SizeOfPop(d.rexR * 8 + d.modrmReg) + SIZE_OF_MOVE64
    case RipOther => 0
    case Call => if Relative(d) == 0 then -d.Len() + SizeOfPushPointer(destiny) else SIZE_OF_SKIP + SizeOfBlindJump(mode, destiny)
    case ShortJump => -d.Len() + SizeOfBlindJump(mode, destiny)
    case Jump => -d.Len() + SizeOfBlindJump(mode, destiny)
    case Cond => d.Len() + SizeOfBlindJump(mode, destiny)
    case Plain => 0
  }

  lemma TakeNext(ds: seq<Decoded>, i: nat)
    requires i < |ds|
    ensures ds[..i + 1][..i] == ds[..i] && ds[..i + 1][i] == ds[i]
  {
  }

  /** The size pass */
  method SizePass(mode: Mode, ds: seq<Decoded>, area: int) returns (length: int)
    requires AllSound(ds)
    ensures length == Length(mode, ds, area)
  {
    hide Sound, Destiny, Adjust;
    length := Used(ds) + SizeOfBlindJump(mode, mode.Wrap(area + Used(ds)));
    ghost var jump := length - Used(ds);
    var offset := 0;
    for i := 0 to |ds|
      invariant offset == Used(ds[..i]) && length == Used(ds) - Used(ds[..i]) + Sizes(mode, ds[..i], area) + jump
    {
      TakeNext(ds, i);
      AdjustIs(mode, ds[i], area + offset);
      length := length + Adjust(mode, ds[i], area + offset);
      offset := offset + ds[i].Len();
    }
    assert ds[..|ds|] == ds;
  }

  lemma AdjustIs(mode: Mode, d: Decoded, at: int)
    requires Sound(d)
    ensures d.Len() + Adjust(mode, d, at) == SizeOf(mode, d, at)
  {
  }

  /** The second pass never leaves the buffer that the first one sized, wherever it is. */
  method EmitPass(mode: Mode, ds: seq<Decoded>, area: int, base: int, buffer: array<nat>) returns (written: nat)
    requires AllSound(ds) && buffer.Length == Length(mode, ds, area)
    modifies buffer
    ensures written <= buffer.Length
    ensures var code := Code(mode, ds, area, base);
      buffer[..written] == code + WriteJump(mode, mode.Wrap(area + Used(ds)), base + |code|)
  {
    hide Sound, Emit, WriteJump, Code, Used, Length, Sizes;
    var offset := 0;
    written := 0;
    NothingYet(mode, ds, area, base);
    for i := 0 to |ds|
      invariant offset == Used(ds[..i]) && written == |Code(mode, ds[..i], area, base)|
      invariant written <= buffer.Length && buffer[..written] == Code(mode, ds[..i], area, base)
    {
      EmitStep(mode, ds, area, base, i);
      var bytes := Emit(mode, ds[i], area + offset, base + written);
      Put(buffer, written, bytes, buffer[..written]);
      written := written + |bytes|;
      offset := offset + ds[i].Len();
    }
    assert ds[..|ds|] == ds;
    JumpFits(mode, ds, area, base);
    var bytes := WriteJump(mode, mode.Wrap(area + offset), base + written);
    Put(buffer, written, bytes, buffer[..written]);
    written := written + |bytes|;
  }

  lemma NothingYet(mode: Mode, ds: seq<Decoded>, area: int, base: int)
    requires AllSound(ds)
    ensures Used(ds[..0]) == 0 && Code(mode, ds[..0], area, base) == []
  {
  }

  lemma EmitStep(mode: Mode, ds: seq<Decoded>, area: int, base: int, i: nat)
    requires AllSound(ds) && i < |ds|
    ensures Used(ds[..i + 1]) == Used(ds[..i]) + ds[i].Len()
    ensures var code := Code(mode, ds[..i], area, base);
      Code(mode, ds[..i + 1], area, base) == code + Emit(mode, ds[i], area + Used(ds[..i]), base + |code|)
    ensures |Code(mode, ds[..i + 1], area, base)| <= Length(mode, ds, area)
  {
    hide Sound, Emit, SizeOf;
    TakeNext(ds, i);
    CodeFits(mode, ds[..i + 1], area, base);
    SizesGrow(mode, ds, area, i + 1);
  }

  lemma JumpFits(mode: Mode, ds: seq<Decoded>, area: int, base: int)
    requires AllSound(ds)
    ensures var n := |Code(mode, ds, area, base)|;
      n + SizeOfJump(mode, mode.Wrap(area + Used(ds)), base + n) <= Length(mode, ds, area)
  {
    hide Is32BitOffset, Sound, Emit, SizeOf;
    CodeFits(mode, ds, area, base);
  }

  lemma SizeNotNegative(mode: Mode, d: Decoded, at: int)
    requires Sound(d)
    ensures SizeOf(mode, d, at) >= 0
  {
  }

  lemma {:induction false} SizesGrow(mode: Mode, ds: seq<Decoded>, area: int, i: nat)
    requires AllSound(ds) && i <= |ds|
    ensures Sizes(mode, ds[..i], area) <= Sizes(mode, ds, area)
    decreases |ds| - i
  {
    hide Sound, SizeOf;
    if i == |ds| {
      assert ds[..i] == ds;
    } else {
      TakeNext(ds, i);
      SizeNotNegative(mode, ds[i], area + Used(ds[..i]));
      SizesGrow(mode, ds, area, i + 1);
    }
  }
}
