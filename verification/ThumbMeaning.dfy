/** What the buffer of the Thumb hook does, instruction by instruction of the window, in terms of their encodings. */
module ThumbMeaning {
  import opened Options
  import opened ThumbHook
  import opened ThumbIsa

  // ---------- the instructions of the window ----------

  /** The places belong to the instructions of the window: the first one is at its beginning, each begins where the one
      before it ends, and the last one ends where the window ends. */
  lemma PlacesFollowCode(code: seq<Half>, k: nat)
    requires OnBoundary(code, 0) && k < |AllPlaces(code)|
    ensures var ps := AllPlaces(code); var o := ps[k].offset;
      && ps[0].offset == 0 && o < |code|
      && (var next := if Is32Bit(code[o]) then o + 2 else o + 1;
        if k + 1 < |ps| then ps[k + 1].offset == next else next == |code|)
  {
    hide Places, Need, OnBoundary, Is32Bit;
    if |code| == 0 {
      NoMorePlaces(code, 0, Pad(code), Length(code));
    } else {
      PlacesNext(code, 0, Pad(code), Length(code));
    }
    FollowFrom(code, 0, Pad(code), Length(code), k);
  }

  lemma {:induction false} FollowFrom(code: seq<Half>, o: nat, start: nat, end: nat, k: nat)
    requires OnBoundary(code, o) && end == start + Need(code, o) + 6 && k < |Places(code, o, start, end)|
    ensures var ps := Places(code, o, start, end); var p := ps[k];
      && p.offset < |code| && p.kind == KindAt(code, p.offset)
      && (var next := if Is32Bit(code[p.offset]) then p.offset + 2 else p.offset + 1;
        if k + 1 < |ps| then ps[k + 1].offset == next && ps[k + 1].start == p.start + CodeSize(p.kind)
        else next == |code| && p.start + CodeSize(p.kind) + 6 == p.end - TrailSize(p.kind))
    decreases |code| - o
  {
    hide KindAt, Stride, CodeSize, TrailSize, Need, Places, OnBoundary, Is32Bit;
    if o >= |code| {
      NoMorePlaces(code, o, start, end);
    } else {
      PlacesNext(code, o, start, end);
      StrideIsWidth(code, o);
      var kind := KindAt(code, o);
      var (o', start', end') := (o + Stride(kind), start + CodeSize(kind), end - TrailSize(kind));
      if k > 0 {
        FollowFrom(code, o', start', end', k - 1);
      } else if o' < |code| {
        PlacesNext(code, o', start', end');
      } else {
        NoMorePlaces(code, o', start', end');
      }
    }
  }

  // ---------- what each of them becomes ----------

  /** B<c> keeps its condition; it goes to the trailer, and that to the destination. */
  predicate KeptCond(w: Window, base: nat, buffer: seq<nat>, o: nat, start: nat, end: int)
    requires o < |w.code| && start < |buffer|
  {
    && buffer[start] / 0x100 == (if IsCondBranch(w.Ic(o)) then w.Ic(o) / 0x100 else 0xd0 + w.Ic(o) / 0x40 % 16)
    && BranchHalf(start, buffer[start]) == end - 6 && TransferTo(base, buffer, end - 6) == Some(Destination(w, o))
  }

  /** The same for B.W. */
  predicate KeptBranch(w: Window, base: nat, buffer: seq<nat>, o: nat, start: nat, end: int)
    requires o < |w.code| && start < |buffer|
  {
    && buffer[start] / 0x800 == 0x1c
    && BranchHalf(start, buffer[start]) == end - 6 && TransferTo(base, buffer, end - 6) == Some(Destination(w, o))
  }

  /** A literal load first loads the address that the original loads from, then what is there. */
  predicate KeptLdr(w: Window, base: nat, buffer: seq<nat>, o: nat, start: nat)
    requires o < |w.code| && start + 6 < |buffer|
  {
    var ic := w.Ic(o);
    && buffer[start] / 0x100 == ic / 0x100 && buffer[start + 1] == 0x6800 + 9 * (ic / 0x100 % 8)
    && WordAt(base, buffer, LdrSource(base, start, buffer[start])) == Some(Sum32(LdrSource(w.area, o, ic), 0))
  }

  /** The same for LDR.W. */
  predicate KeptLdrW(w: Window, base: nat, buffer: seq<nat>, o: nat, start: nat)
    requires o < |w.code| && start + 6 < |buffer|
  {
    var rt := w.Next(o) / 0x1000;
    && buffer[start] == 0xf8df && buffer[start + 1] / 0x1000 == rt && buffer[start + 2] == 0xf8d0 + rt && buffer[start + 3] == rt * 0x1000
    && WordAt(base, buffer, LdrWSource(base, start, 0xf8df, buffer[start + 1])) == Some(LiteralOf(w, o))
  }

  /** BL and BLX load the destination into LR and branch there by blx lr. */
  predicate KeptCall(w: Window, base: nat, buffer: seq<nat>, o: nat, start: nat)
    requires o < |w.code| && start + 6 < |buffer|
  {
    && buffer[start] == 0xb480 && buffer[start + 1] / 0x100 == 0x4f           // push {r7}; ldr r7, [pc, #im]
    && buffer[start + 2..start + 5] == [0x46be, 0xbc80, 0x47f0]               // mov lr, r7; pop {r7}; blx lr
    && (WordAt(base, buffer, LdrSource(base, start + 1, buffer[start + 1])) == Some(Destination(w, o))
        <==> IsCallWide(w.Ic(o), w.Next(o)) || w.PcAt(o) % 4 == 0)
  }

  /** CBZ and CBNZ keep their test and reach their trailer if it is near enough. */
  predicate KeptCompare(w: Window, base: nat, buffer: seq<nat>, o: nat, start: nat, end: int)
    requires o < |w.code| && start + 6 < |buffer|
  {
    var (ic, cb) := (w.Ic(o), buffer[start + 3]);
    && cb % 8 == ic % 8 && cb / 0x800 == ic / 0x800
    && TransferTo(base, buffer, end - 6) == Some(Destination(w, o))
    && OnBoundary(w.code, o) && (CbzHalf(start + 3, cb) == end - 10 <==> Need(w.code, o) <= 72)
  }

  /** ADD Rd, PC, with a low register, saves Rd in a scratch register, loads the PC into Rd and adds what was there. */
  predicate KeptAdd(w: Window, base: nat, buffer: seq<nat>, o: nat, start: nat)
    requires o < |w.code| && start + 6 < |buffer|
  {
    var (rd, rt) := (w.Ic(o) % 8, Scratch(w.Ic(o) % 8));
    && w.Ic(o) / 0x80 % 2 == 0 && rd != rt && buffer[start + 1] == 0x4600 + rd * 8 + rt && buffer[start + 2] / 0x100 == 0x48 + rd
    && buffer[start + 3] == 0x4400 + rt * 8 + rd && buffer[start + 4] == buffer[start] + 0x800
    && WordAt(base, buffer, LdrSource(base, start + 2, buffer[start + 2])) == Some(Sum32(w.PcAt(o), 0))
  }

  /** The block at start does what the instruction at o does, and ends in front of behind. Branches keep their condition,
      and what is not changed is copied. */
  predicate Kept(w: Window, base: nat, buffer: seq<nat>, o: nat, start: nat, end: int, behind: nat)
    requires o < |w.code| && start + 6 < |buffer|
  {
    var (ic, next, first) := (w.Ic(o), w.Next(o), buffer[start]);
    if IsLdrLiteral(ic) then behind == start + 2 && KeptLdr(w, base, buffer, o, start)
    else if IsLdrLiteralWide(ic) then behind == start + 4 && KeptLdrW(w, base, buffer, o, start)
    else if IsCondBranch(ic) || IsCondBranchWide(ic, next) then behind == start + 1 && KeptCond(w, base, buffer, o, start, end)
    else if IsFreeBranchWide(ic, next) then behind == start + 1 && KeptBranch(w, base, buffer, o, start, end)
    else if IsCallWide(ic, next) || IsCallExchange(ic, next) then behind == start + 5 && KeptCall(w, base, buffer, o, start)
    else if IsCompareBranch(ic) then behind == start + 7 && KeptCompare(w, base, buffer, o, start, end)
    else if IsAddPc(ic) then behind == start + 5 && KeptAdd(w, base, buffer, o, start)
    else if Is32Bit(ic) then behind == start + 2 && first == ic && buffer[start + 1] == next
    else behind == start + 1 && first == ic
  }

  /** In the finished buffer of every window, each instruction is kept, and its block is followed by that of the next
      instruction or by the jump behind the window. */
  lemma InstructionsKept(w: Window, base: nat, buffer: seq<nat>, k: nat) returns (behind: nat)
    requires Complete(w, buffer) && |w.code| <= MAX_WINDOW && base % 4 == 0 && k < |AllPlaces(w.code)|
    ensures var ps := AllPlaces(w.code); var p := ps[k];
      && p.offset < |w.code| && 0 <= p.start && p.start + 6 < |buffer| && Kept(w, base, buffer, p.offset, p.start, p.end, behind)
      && if k + 1 < |ps| then ps[k + 1].start == behind
         else TransferTo(base, buffer, behind) == Some(Sum32(w.area + 2 * |w.code|, 1))
  {
    var p := AllPlaces(w.code)[k];
    PlaceFilled(w, buffer, k);
    LengthBound(w);
    FollowFrom(w.code, 0, Pad(w.code), Length(w.code), k);
    BlockEnds(w, base, buffer, k);
    PlaceRoom(w, buffer, p);
    behind := p.start + CodeSize(p.kind);
    hide AllPlaces, Complete, PlaceIn, Kept, CodeSize, TransferTo, Pad, Length;
    if p.kind == Ldr || p.kind == LdrW || p.kind == Add {
      LoadKept(w, base, buffer, p);
    } else if p.kind == B || p.kind == WideB {
      BranchKept(w, base, buffer, p);
    } else if p.kind == Bl {
      CallKept(w, base, buffer, p);
    } else if p.kind == Cbz {
      CompareKept(w, base, buffer, p);
    } else {
      CopyKept(w, base, buffer, p);
    }
  }

  lemma PlaceRoom(w: Window, buffer: seq<nat>, p: Place)
    requires PlaceIn(w, buffer, p)
    ensures p.offset < |w.code| && 0 <= p.start && p.start + 6 < |buffer|
  {
    SomeCode(p.kind);
    hide KindAt, CodeSize, TrailSize, CodeWords, TrailHalves, Refused, Apart;
    assert TrailSize(p.kind) >= 0;
  }

  /** The block of a place ends at the next place or at the jump behind the window. */
  lemma BlockEnds(w: Window, base: nat, buffer: seq<nat>, k: nat)
    requires Complete(w, buffer) && base % 4 == 0 && k < |AllPlaces(w.code)|
    ensures var p := AllPlaces(w.code)[k];
      && p.start >= 0
      && (k + 1 == |AllPlaces(w.code)| ==>
        TransferTo(base, buffer, p.start + CodeSize(p.kind)) == Some(Sum32(w.area + 2 * |w.code|, 1)))
  {
    hide KindAt, CodeSize, TrailSize, CodeOf, TrailOf, CodeWords, TrailHalves, Need, Places, OnBoundary, Refused, TransferTo;
    var ps := AllPlaces(w.code);
    PlacesFollow(w, 0, Pad(w.code), Length(w.code), k);
    hide AllPlaces, Pad, Length;
    if k + 1 == |ps| {
      var r := TailKept(w, base, buffer);
      CodeGrown(w, ps);
    }
  }

  lemma CodeGrown(w: Window, ps: seq<Place>)
    requires InWindow(w, ps) && ps != []
    ensures |CodeOf(w, ps)| == |CodeOf(w, ps[..|ps| - 1])| + CodeSize(ps[|ps| - 1].kind)
  {
    hide CodeWords, CodeSize;
  }

  lemma BranchKept(w: Window, base: nat, buffer: seq<nat>, p: Place)
    requires PlaceIn(w, buffer, p) && base % 4 == 0 && |w.code| <= MAX_WINDOW && p.kind in {B, WideB}
    requires 0 <= p.start && p.start + 6 < |buffer| && p.offset < |w.code|
    ensures Kept(w, base, buffer, p.offset, p.start, p.end, p.start + CodeSize(p.kind))
  {
    PlaceBounds(w, buffer, p);
    Kinds(w.code, p.offset);
    WideApart(w.code[p.offset], w.Next(p.offset));
    hide PlaceIn, KindAt, IsLdrLiteral, IsCondBranch, IsCondBranchWide, IsFreeBranchWide, IsCallWide, IsCallExchange, IsCompareBranch,
      IsLdrLiteralWide, IsAddPc, Is32Bit, KeptLdr, KeptLdrW, KeptCall, KeptCompare, KeptAdd, KeptCond, KeptBranch, Destination;
    if p.kind == B {
      NarrowGoes(w, base, buffer, p);
    } else {
      WideGoes(w, base, buffer, p);
    }
  }

  lemma NarrowGoes(w: Window, base: nat, buffer: seq<nat>, p: Place)
    requires PlaceIn(w, buffer, p) && |w.code| <= MAX_WINDOW && base % 4 == 0
    requires 0 <= p.start < |buffer| && p.offset < |w.code| && IsCondBranch(w.code[p.offset])
    ensures KeptCond(w, base, buffer, p.offset, p.start, p.end)
  {
    hide PlaceIn, KindAt, IsCondBranch, IsCallExchange, TransferTo, BranchHalf, Jump, Destination;
    PlaceBounds(w, buffer, p);
    Kinds(w.code, p.offset);
    NotExchange(w, p);
    JumpExact(w, p);
    BKept(w, base, buffer, p);
  }

  /** Only BLX exchanges the instruction set. */
  lemma NotExchange(w: Window, p: Place)
    requires p.offset < |w.code| && p.kind == KindAt(w.code, p.offset) && IsBranchAt(w, p.offset)
    ensures IsCallExchange(w.Ic(p.offset), w.Next(p.offset)) ==> p.kind == Bl
  {
    hide KindAt, IsBranchAt, Destination, BitOf;
    FormAt(w, p);
  }

  lemma WideGoes(w: Window, base: nat, buffer: seq<nat>, p: Place)
    requires PlaceIn(w, buffer, p) && |w.code| <= MAX_WINDOW && base % 4 == 0 && 0 <= p.start < |buffer| && p.offset < |w.code|
    requires IsCondBranchWide(w.code[p.offset], w.Next(p.offset)) || IsFreeBranchWide(w.code[p.offset], w.Next(p.offset))
    ensures IsFreeBranchWide(w.code[p.offset], w.Next(p.offset)) ==> KeptBranch(w, base, buffer, p.offset, p.start, p.end)
    ensures !IsFreeBranchWide(w.code[p.offset], w.Next(p.offset)) ==> KeptCond(w, base, buffer, p.offset, p.start, p.end)
  {
    hide PlaceIn, KindAt, IsCondBranch, IsCondBranchWide, IsFreeBranchWide, IsCallWide, IsCallExchange, TransferTo, BranchHalf, Jump, Destination;
    PlaceBounds(w, buffer, p);
    Kinds(w.code, p.offset);
    NotExchange(w, p);
    JumpExact(w, p);
    WideBKept(w, base, buffer, p);
  }

  lemma CallKept(w: Window, base: nat, buffer: seq<nat>, p: Place)
    requires PlaceIn(w, buffer, p) && base % 4 == 0 && |buffer| <= MAX_LENGTH && p.kind == Bl
    requires 0 <= p.start && p.start + 6 < |buffer| && p.offset < |w.code|
    ensures Kept(w, base, buffer, p.offset, p.start, p.end, p.start + CodeSize(p.kind))
  {
    PlaceBounds(w, buffer, p);
    Kinds(w.code, p.offset);
    WideApart(w.code[p.offset], w.Next(p.offset));
    hide PlaceIn, KindAt, IsLdrLiteral, IsCondBranch, IsCondBranchWide, IsFreeBranchWide, IsCallWide, IsCallExchange, IsCompareBranch,
      IsLdrLiteralWide, IsAddPc, Is32Bit, KeptLdr, KeptLdrW, KeptCall, KeptCompare, KeptAdd, KeptCond, KeptBranch, Destination;
    CallGoes(w, base, buffer, p);
  }

  lemma CallGoes(w: Window, base: nat, buffer: seq<nat>, p: Place)
    requires PlaceIn(w, buffer, p) && base % 4 == 0 && |buffer| <= MAX_LENGTH && 0 <= p.start && p.start + 6 < |buffer| && p.offset < |w.code|
    requires IsCallWide(w.code[p.offset], w.Next(p.offset)) || IsCallExchange(w.code[p.offset], w.Next(p.offset))
    ensures KeptCall(w, base, buffer, p.offset, p.start)
  {
    hide PlaceIn, KindAt, IsCallWide, IsCallExchange, LdrSource, WordAt, Jump, Destination;
    PlaceBounds(w, buffer, p);
    WideApart(w.code[p.offset], w.Next(p.offset));
    JumpExact(w, p);
    BlKept(w, base, buffer, p);
  }

  lemma CompareKept(w: Window, base: nat, buffer: seq<nat>, p: Place)
    requires PlaceIn(w, buffer, p) && base % 4 == 0 && p.kind == Cbz
    requires 0 <= p.start && p.start + 6 < |buffer| && p.offset < |w.code|
    ensures Kept(w, base, buffer, p.offset, p.start, p.end, p.start + CodeSize(p.kind))
  {
    PlaceBounds(w, buffer, p);
    Kinds(w.code, p.offset);
    hide PlaceIn, KindAt, IsLdrLiteral, IsCondBranch, IsCondBranchWide, IsFreeBranchWide, IsCallWide, IsCallExchange, IsCompareBranch,
      IsLdrLiteralWide, IsAddPc, Is32Bit, KeptLdr, KeptLdrW, KeptCall, KeptCompare, KeptAdd, KeptCond, KeptBranch, Destination;
    CompareGoes(w, base, buffer, p);
  }

  lemma CompareGoes(w: Window, base: nat, buffer: seq<nat>, p: Place)
    requires PlaceIn(w, buffer, p) && base % 4 == 0 && p.offset < |w.code| && IsCompareBranch(w.code[p.offset])
    requires 0 <= p.start && p.start + 6 < |buffer|
    ensures KeptCompare(w, base, buffer, p.offset, p.start, p.end)
  {
    hide PlaceIn, KindAt, IsCallExchange, IsCompareBranch, TransferTo, Jump, Destination, CbzHalf, Need, OnBoundary;
    PlaceBounds(w, buffer, p);
    Kinds(w.code, p.offset);
    NotExchange(w, p);
    JumpExact(w, p);
    CbzKept(w, base, buffer, p);
  }

  lemma LoadKept(w: Window, base: nat, buffer: seq<nat>, p: Place)
    requires PlaceIn(w, buffer, p) && base % 4 == 0 && |buffer| <= MAX_LENGTH && p.kind in {Ldr, LdrW, Add}
    requires 0 <= p.start && p.start + 6 < |buffer| && p.offset < |w.code|
    ensures Kept(w, base, buffer, p.offset, p.start, p.end, p.start + CodeSize(p.kind))
  {
    PlaceBounds(w, buffer, p);
    Kinds(w.code, p.offset);
    hide PlaceIn, KindAt, IsLdrLiteral, IsCondBranch, IsCondBranchWide, IsFreeBranchWide, IsCallWide, IsCallExchange, IsCompareBranch,
      IsLdrLiteralWide, IsAddPc, Is32Bit, KeptLdr, KeptLdrW, KeptCall, KeptCompare, KeptAdd, KeptCond, KeptBranch, Destination;
    if p.kind == Ldr {
      LdrGoes(w, base, buffer, p);
    } else if p.kind == LdrW {
      LdrWGoes(w, base, buffer, p);
    } else {
      AddGoes(w, base, buffer, p);
    }
  }

  lemma LdrGoes(w: Window, base: nat, buffer: seq<nat>, p: Place)
    requires PlaceIn(w, buffer, p) && base % 4 == 0 && |buffer| <= MAX_LENGTH && 0 <= p.start && p.start + 6 < |buffer|
    requires p.offset < |w.code| && IsLdrLiteral(w.code[p.offset])
    ensures KeptLdr(w, base, buffer, p.offset, p.start)
  {
    hide PlaceIn, IsLdrLiteral, LdrSource, LdrWSource, WordAt;
    LdrKept(w, base, buffer, p);
  }

  lemma LdrWGoes(w: Window, base: nat, buffer: seq<nat>, p: Place)
    requires PlaceIn(w, buffer, p) && base % 4 == 0 && |buffer| <= MAX_LENGTH && 0 <= p.start && p.start + 6 < |buffer|
    requires p.offset < |w.code| && IsLdrLiteralWide(w.code[p.offset])
    ensures KeptLdrW(w, base, buffer, p.offset, p.start)
  {
    hide PlaceIn, IsLdrLiteralWide, LdrSource, LdrWSource, WordAt;
    LdrWKept(w, base, buffer, p);
  }

  lemma AddGoes(w: Window, base: nat, buffer: seq<nat>, p: Place)
    requires PlaceIn(w, buffer, p) && base % 4 == 0 && |buffer| <= MAX_LENGTH && 0 <= p.start && p.start + 6 < |buffer|
    requires p.offset < |w.code| && IsAddPc(w.code[p.offset])
    ensures KeptAdd(w, base, buffer, p.offset, p.start)
  {
    hide PlaceIn, IsAddPc, LdrSource, LdrWSource, WordAt;
    AddKept(w, base, buffer, p);
    LowRegister(w, buffer, p);
  }

  /** Only an ADD with a high register is refused. */
  lemma RefusedExactly(w: Window, p: Place)
    requires p.offset < |w.code| && p.kind == KindAt(w.code, p.offset)
    ensures Refused(w, p) <==> 0x44f8 <= w.code[p.offset] < 0x4500
  {
    Kinds(w.code, p.offset);
    BitSeven(w.code[p.offset]);
    hide KindAt, BitOf;
  }

  lemma LowRegister(w: Window, buffer: seq<nat>, p: Place)
    requires PlaceIn(w, buffer, p) && IsAddPc(w.code[p.offset])
    ensures w.code[p.offset] / 0x80 % 2 == 0
  {
    hide KindAt, CodeSize, TrailSize, CodeWords, TrailHalves, Refused, ThumbHook.Apart, IsAddPc;
    RefusedExactly(w, p);
    HighBit(w.code[p.offset]);
  }

  lemma HighBit(ic: Half)
    requires IsAddPc(ic)
    ensures ic / 0x80 % 2 == 0 <==> !(0x44f8 <= ic < 0x4500)
  {
  }

  lemma CopyKept(w: Window, base: nat, buffer: seq<nat>, p: Place)
    requires PlaceIn(w, buffer, p) && p.kind in {Wide, Narrow}
    requires 0 <= p.start && p.start + 6 < |buffer| && p.offset < |w.code|
    ensures Kept(w, base, buffer, p.offset, p.start, p.end, p.start + CodeSize(p.kind))
  {
    PlaceBounds(w, buffer, p);
    Kinds(w.code, p.offset);
    hide PlaceIn, KindAt, IsLdrLiteral, IsCondBranch, IsCondBranchWide, IsFreeBranchWide, IsCallWide, IsCallExchange, IsCompareBranch,
      IsLdrLiteralWide, IsAddPc, Is32Bit, KeptLdr, KeptLdrW, KeptCall, KeptCompare, KeptAdd, KeptCond, KeptBranch, Destination;
    Copied(w, buffer, p);
  }

  // ---------- what is copied although it uses the PC ----------

  /** A narrow B without a condition is copied, so that it goes where the original goes only from the same address. */
  lemma FreeBranchCopied(w: Window, base: nat, buffer: seq<nat>, k: nat)
    requires Complete(w, buffer) && k < |AllPlaces(w.code)|
    ensures var p := AllPlaces(w.code)[k];
      && p.offset < |w.code| && 0 <= p.start < |buffer|
      && (IsFreeBranch(w.code[p.offset]) ==>
        && buffer[p.start] == w.code[p.offset]
        && (base + 2 * BranchHalf(p.start, buffer[p.start]) == w.area + 2 * BranchHalf(p.offset, w.code[p.offset])
            <==> base + 2 * p.start == w.area + 2 * p.offset))
  {
    PlaceFilled(w, buffer, k);
    hide AllPlaces, Complete, PlaceIn, BranchHalf, IsFreeBranch;
    PlaceRoom(w, buffer, AllPlaces(w.code)[k]);
    if IsFreeBranch(w.code[AllPlaces(w.code)[k].offset]) {
      FreeBranchAt(w, buffer, AllPlaces(w.code)[k]);
    }
  }

  lemma FreeBranchAt(w: Window, buffer: seq<nat>, p: Place)
    requires PlaceIn(w, buffer, p) && p.offset < |w.code| && 0 <= p.start < |buffer| && IsFreeBranch(w.code[p.offset])
    ensures buffer[p.start] == w.code[p.offset]
    ensures BranchHalf(p.start, buffer[p.start]) - p.start == BranchHalf(p.offset, w.code[p.offset]) - p.offset
  {
    hide PlaceIn, BranchHalf;
    Copied(w, buffer, p);
    SameDistance(p.start, p.offset, w.code[p.offset]);
  }

  lemma SameDistance(l: int, m: int, ic: nat)
    ensures BranchHalf(l, ic) - l == BranchHalf(m, ic) - m
  {
  }
}
