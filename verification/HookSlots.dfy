/** Hooking a symbol: which words of the image are overwritten, with what, and what is saved. */
module HookSlots {
  import opened Bits
  import G = GnuHash
  import opened Options
  import P = PackedRelocations

  /** What depends on the machine: the width of a word, how r_info is split, and the relocation types. */
  datatype Arch = Arch(w: nat, typeBits: nat, jumpSlot: nat, globDat: nat, abs: nat)

  datatype Outcome = Ok | Invalid | Format | Protection

  /** The words of the image and what *old_func holds, if the caller passed one. */
  datatype Slots = Slots(mem: map<nat, nat>, saved: Option<nat>)

  /** xh_elf_replace_function, when it succeeds */
  function Replace(s: Slots, addr: nat, newFunc: nat): Slots {
    if addr !in s.mem || s.mem[addr] == newFunc then s
    else Slots(s.mem[addr := newFunc], if s.saved.Some? then Some(s.mem[addr]) else None)
  }

  function ReplaceAll(s: Slots, addrs: seq<nat>, newFunc: nat): Slots
    decreases |addrs|
  {
    if addrs == [] then s else ReplaceAll(Replace(s, addrs[0], newFunc), addrs[1..], newFunc)
  }

  /** Exactly the listed words hold the new function afterwards, and no other word has changed. */
  lemma {:induction false} ExactlyTheSlots(s: Slots, addrs: seq<nat>, newFunc: nat)
    ensures ReplaceAll(s, addrs, newFunc).mem.Keys == s.mem.Keys
    ensures forall a :: a in s.mem ==> ReplaceAll(s, addrs, newFunc).mem[a] == if a in addrs then newFunc else s.mem[a]
    decreases |addrs|
  {
    if addrs != [] {
      ExactlyTheSlots(Replace(s, addrs[0], newFunc), addrs[1..], newFunc);
    }
  }

  /** What is saved is never the new function: it is what one of the words held before. */
  lemma {:induction false} SavedIsOld(s: Slots, addrs: seq<nat>, newFunc: nat)
    ensures var saved := ReplaceAll(s, addrs, newFunc).saved;
      saved == s.saved || (saved.Some? && saved.value != newFunc
        && exists a :: a in addrs && a in s.mem && saved.value == s.mem[a])
    decreases |addrs|
  {
    if addrs != [] {
      var s' := Replace(s, addrs[0], newFunc);
      SavedIsOld(s', addrs[1..], newFunc);
      assert forall a :: a in addrs[1..] ==> a in addrs;
    }
  }

  lemma {:induction false} NothingToDo(s: Slots, addrs: seq<nat>, newFunc: nat)
    requires forall a :: a in addrs && a in s.mem ==> s.mem[a] == newFunc
    ensures ReplaceAll(s, addrs, newFunc) == s
    decreases |addrs|
  {
    if addrs != [] {
      NothingToDo(s, addrs[1..], newFunc);
    }
  }

  /** Hooking again changes neither the image nor what was saved. */
  lemma HookingAgain(s: Slots, addrs: seq<nat>, newFunc: nat)
    ensures ReplaceAll(ReplaceAll(s, addrs, newFunc), addrs, newFunc) == ReplaceAll(s, addrs, newFunc)
  {
    ExactlyTheSlots(s, addrs, newFunc);
    NothingToDo(ReplaceAll(s, addrs, newFunc), addrs, newFunc);
  }

  // ---------- with failures ----------

  /** The part of the image that is fixed while hooking; writable says for which words the protection can be changed. */
  datatype Image = Image(arch: Arch, base: nat, bias: nat, rela: bool, symbols: G.Table,
                         plt: Option<seq<P.Entry>>, dyn: Option<seq<P.Entry>>, android: Option<seq<Byte>>,
                         writable: nat -> bool)

  /** One word: its address must be in the image, and its protection changeable unless it is already hooked. */
  function HookOne(im: Image, s: Slots, addr: nat, newFunc: nat): (Slots, Outcome) {
    if addr < im.base then (s, Format)
    else if addr in s.mem && s.mem[addr] == newFunc then (s, Ok)
    else if !im.writable(addr) then (s, Protection)
    else (Replace(s, addr, newFunc), Ok)
  }

  /** One after another, up to the first failure. */
  function HookAll(im: Image, s: Slots, addrs: seq<nat>, newFunc: nat): (Slots, Outcome)
    decreases |addrs|
  {
    if addrs == [] then (s, Ok)
    else
      var (s', rc) := HookOne(im, s, addrs[0], newFunc);
      if rc != Ok then (s', rc) else HookAll(im, s', addrs[1..], newFunc)
  }

  lemma {:induction false} HookAllConcat(im: Image, s: Slots, a: seq<nat>, b: seq<nat>, newFunc: nat)
    ensures HookAll(im, s, a + b, newFunc) ==
      var (s', rc) := HookAll(im, s, a, newFunc);
      if rc != Ok then (s', rc) else HookAll(im, s', b, newFunc)
    decreases |a|
  {
    if a == [] {
      assert a + b == b;
    } else {
      assert (a + b)[1..] == a[1..] + b;
      HookAllConcat(im, HookOne(im, s, a[0], newFunc).0, a[1..], b, newFunc);
    }
  }

  /** Whatever fails, the words before the failure are hooked and nothing else is; without failures all are. */
  lemma {:induction false} HookAllReplaces(im: Image, s: Slots, addrs: seq<nat>, newFunc: nat) returns (k: nat)
    ensures k <= |addrs|
    ensures HookAll(im, s, addrs, newFunc).0 == ReplaceAll(s, addrs[..k], newFunc)
    ensures HookAll(im, s, addrs, newFunc).1 == Ok <==> k == |addrs|
    ensures k < |addrs| ==> addrs[k] < im.base || !im.writable(addrs[k])
    decreases |addrs|
  {
    if addrs == [] {
      k := 0;
    } else {
      var (s', rc) := HookOne(im, s, addrs[0], newFunc);
      if rc != Ok {
        k := 0;
      } else {
        k := HookAllReplaces(im, s', addrs[1..], newFunc);
        k := k + 1;
        assert addrs[..k][1..] == addrs[1..][..k - 1];
      }
    }
  }

  // ---------- which words ----------

  function SymOf(arch: Arch, e: P.Entry): nat { ShiftRight(e.info, arch.typeBits) }

  function TypeOf(arch: Arch, e: P.Entry): nat { e.info % Pow2(arch.typeBits) }

  predicate Wanted(arch: Arch, e: P.Entry, symidx: nat, isPlt: bool) {
    && SymOf(arch, e) == symidx
    && if isPlt then TypeOf(arch, e) == arch.jumpSlot else TypeOf(arch, e) == arch.globDat || TypeOf(arch, e) == arch.abs
  }

  function SlotOf(im: Image, e: P.Entry): nat {
    (im.bias + e.offset) % Pow2(im.arch.w)
  }

  ghost predicate FirstWanted(arch: Arch, es: seq<P.Entry>, symidx: nat, i: int) {
    0 <= i < |es| && Wanted(arch, es[i], symidx, true) && forall j :: 0 <= j < i ==> !Wanted(arch, es[j], symidx, true)
  }

  /** The first wanted entry of .rel(a).plt. */
  function PltSlots(im: Image, es: seq<P.Entry>, symidx: nat): (addrs: seq<nat>)
    ensures |addrs| <= 1
    ensures addrs == [] <==> forall e :: e in es ==> !Wanted(im.arch, e, symidx, true)
    ensures addrs != [] ==> exists i :: FirstWanted(im.arch, es, symidx, i) && addrs[0] == SlotOf(im, es[i])
  {
    if es == [] then []
    else if Wanted(im.arch, es[0], symidx, true) then [SlotOf(im, es[0])]
    else
      var addrs := PltSlots(im, es[1..], symidx);
      assert forall i :: FirstWanted(im.arch, es[1..], symidx, i) ==> FirstWanted(im.arch, es, symidx, i + 1);
      addrs
  }

  /** Every wanted entry of .rel(a).dyn or .rel(a).android. */
  function DynSlots(im: Image, es: seq<P.Entry>, symidx: nat): (addrs: seq<nat>)
    ensures forall a :: a in addrs <==> exists e :: e in es && Wanted(im.arch, e, symidx, false) && a == SlotOf(im, e)
  {
    if es == [] then []
    else
      (if Wanted(im.arch, es[0], symidx, false) then [SlotOf(im, es[0])] else []) + DynSlots(im, es[1..], symidx)
  }

  function Packed(im: Image, bytes: seq<Byte>): seq<P.Entry> {
    P.Run(P.Start(bytes, im.arch.w), im.arch.w, im.rela)
  }

  /** The words that hooking symbol symidx is about, in the order in which they are hooked. */
  function Targets(im: Image, symidx: nat): seq<nat> {
    (if im.plt.Some? then PltSlots(im, im.plt.value, symidx) else [])
    + (if im.dyn.Some? then DynSlots(im, im.dyn.value, symidx) else [])
    + (if im.android.Some? then DynSlots(im, Packed(im, im.android.value), symidx) else [])
  }

  /** xh_elf_hook as a whole */
  function Hooked(im: Image, s: Slots, symbol: G.Name, newFunc: nat): (Slots, Outcome)
    requires im.symbols.symoffset <= |im.symbols.syms|
  {
    if newFunc == 0 then (s, Invalid)
    else
      match G.Resolve(im.symbols, symbol)
      case None => (s, Ok)
      case Some(symidx) => HookAll(im, s, Targets(im, symidx), newFunc)
  }

  /** Is the relocation for symbol symidx and of type t? r_info holds the index above the type. */
  predicate IsFor(arch: Arch, e: P.Entry, symidx: nat, t: nat) {
    t < Pow2(arch.typeBits) && e.info == symidx * Pow2(arch.typeBits) + t
  }

  /** Is a the word that the relocation is about? */
  predicate IsAt(im: Image, e: P.Entry, a: nat) {
    a == (im.bias + e.offset) % Pow2(im.arch.w)
  }

  /** Is a the word of the first JUMP_SLOT of the symbol? */
  ghost predicate InPlt(im: Image, es: seq<P.Entry>, symidx: nat, a: nat) {
    exists i :: 0 <= i < |es| && IsAt(im, es[i], a) && IsFor(im.arch, es[i], symidx, im.arch.jumpSlot)
      && forall j :: 0 <= j < i ==> !IsFor(im.arch, es[j], symidx, im.arch.jumpSlot)
  }

  /** Is a the word of a GLOB_DAT or ABS relocation of the symbol? */
  ghost predicate InDyn(im: Image, es: seq<P.Entry>, symidx: nat, a: nat) {
    exists e :: e in es && IsAt(im, e, a) && (IsFor(im.arch, e, symidx, im.arch.globDat) || IsFor(im.arch, e, symidx, im.arch.abs))
  }

  ghost predicate IsSlot(im: Image, symidx: nat, a: nat) {
    || (im.plt.Some? && InPlt(im, im.plt.value, symidx, a)) || (im.dyn.Some? && InDyn(im, im.dyn.value, symidx, a))
    || (im.android.Some? && InDyn(im, Packed(im, im.android.value), symidx, a))
  }

  lemma {:induction false} Shifted(x: nat, k: nat)
    ensures ShiftRight(x, k) == x / Pow2(k)
  {
    if k > 0 {
      Shifted(x / 2, k - 1);
      HalfFirst(x, Pow2(k - 1));
    }
  }

  lemma HalfFirst(x: nat, p: nat)
    requires p > 0
    ensures x / 2 / p == x / (2 * p)
  {
    var (q, r) := (x / 2 / p, x / 2 % p);
    assert x / 2 == p * q + r;
    assert x == (2 * p) * q + (2 * r + x % 2) by {
      Twice(p, q);
    }
    Quotient(x, 2 * p, q, 2 * r + x % 2);
  }

  lemma Quotient(x: nat, m: nat, q: nat, r: nat)
    requires m > 0 && x == m * q + r && r < m
    ensures x / m == q
  {
    var d := q - x / m;
    assert m * (x / m) + x % m == x;
    assert m * d == m * q - m * (x / m);
    AtLeast(m, d);
  }

  /** A relocation is wanted by its numbers. */
  lemma WantedIs(arch: Arch, e: P.Entry, symidx: nat, t: nat)
    ensures SymOf(arch, e) == symidx && TypeOf(arch, e) == t <==> IsFor(arch, e, symidx, t)
  {
    Shifted(e.info, arch.typeBits);
    var p := Pow2(arch.typeBits);
    assert p * (e.info / p) + e.info % p == e.info;
    if IsFor(arch, e, symidx, t) {
      Swap(symidx, p);
      Quotient(e.info, p, symidx, t);
      Remainder(e.info, p, symidx, t);
    }
    Swap(e.info / p, p);
  }

  lemma PltWanted(arch: Arch, symidx: nat)
    ensures forall e: P.Entry :: Wanted(arch, e, symidx, true) <==> IsFor(arch, e, symidx, arch.jumpSlot)
  {
    forall e: P.Entry
      ensures Wanted(arch, e, symidx, true) <==> IsFor(arch, e, symidx, arch.jumpSlot)
    {
      WantedIs(arch, e, symidx, arch.jumpSlot);
    }
  }

  lemma InPltIs(im: Image, es: seq<P.Entry>, symidx: nat, a: nat)
    ensures a in PltSlots(im, es, symidx) <==> InPlt(im, es, symidx, a)
  {
    hide PltSlots, IsFor, Wanted, SlotOf;
    PltWanted(im.arch, symidx);
    SlotIs(im);
    if a in PltSlots(im, es, symidx) {
      var i :| FirstWanted(im.arch, es, symidx, i) && PltSlots(im, es, symidx)[0] == SlotOf(im, es[i]);
      assert IsAt(im, es[i], a);
    }
    if InPlt(im, es, symidx, a) {
      var i :| 0 <= i < |es| && IsAt(im, es[i], a) && IsFor(im.arch, es[i], symidx, im.arch.jumpSlot)
        && forall j :: 0 <= j < i ==> !IsFor(im.arch, es[j], symidx, im.arch.jumpSlot);
      assert es[i] in es && FirstWanted(im.arch, es, symidx, i);
      var k :| FirstWanted(im.arch, es, symidx, k) && PltSlots(im, es, symidx)[0] == SlotOf(im, es[k]);
    }
  }

  lemma SlotIs(im: Image)
    ensures forall e: P.Entry, a: nat :: IsAt(im, e, a) <==> a == SlotOf(im, e)
  {
  }

  lemma InDynIs(im: Image, es: seq<P.Entry>, symidx: nat, a: nat)
    ensures a in DynSlots(im, es, symidx) <==> InDyn(im, es, symidx, a)
  {
    forall e: P.Entry
      ensures Wanted(im.arch, e, symidx, false)
        <==> IsFor(im.arch, e, symidx, im.arch.globDat) || IsFor(im.arch, e, symidx, im.arch.abs)
    {
      WantedIs(im.arch, e, symidx, im.arch.globDat);
      WantedIs(im.arch, e, symidx, im.arch.abs);
    }
    hide DynSlots, IsFor, Wanted;
    if e :| e in es && Wanted(im.arch, e, symidx, false) && a == SlotOf(im, e) {
      assert IsAt(im, e, a);
    }
  }

  /** The words that are hooked, by the numbers in the relocations. */
  lemma SlotsAre(im: Image, symidx: nat, a: nat)
    ensures a in Targets(im, symidx) <==> IsSlot(im, symidx, a)
  {
    hide PltSlots, DynSlots, Packed, InPlt, InDyn;
    if im.plt.Some? {
      InPltIs(im, im.plt.value, symidx, a);
    }
    if im.dyn.Some? {
      InDynIs(im, im.dyn.value, symidx, a);
    }
    if im.android.Some? {
      InDynIs(im, Packed(im, im.android.value), symidx, a);
    }
  }

  /** When nothing fails, hooking a symbol that the image has leaves the new function in exactly the words of its first
      JUMP_SLOT and of all its GLOB_DAT and ABS relocations, plain and packed, and nothing else changes. */
  lemma HookedExactly(im: Image, s: Slots, symbol: G.Name, newFunc: nat)
    requires im.symbols.symoffset <= |im.symbols.syms| && newFunc != 0
    requires G.Resolve(im.symbols, symbol).Some?
    requires forall a: nat :: IsSlot(im, G.Resolve(im.symbols, symbol).value, a) ==> a >= im.base && im.writable(a)
    ensures var symidx := G.Resolve(im.symbols, symbol).value; var (s', rc) := Hooked(im, s, symbol, newFunc);
      && rc == Ok && s'.mem.Keys == s.mem.Keys
      && (forall a :: a in s.mem ==> s'.mem[a] == if IsSlot(im, symidx, a) then newFunc else s.mem[a])
      && Hooked(im, s', symbol, newFunc) == (s', Ok)
  {
    var symidx := G.Resolve(im.symbols, symbol).value;
    var targets := Targets(im, symidx);
    forall a: nat
      ensures a in targets <==> IsSlot(im, symidx, a)
    {
      SlotsAre(im, symidx, a);
    }
    assert forall i :: 0 <= i < |targets| ==> targets[i] in targets;
    hide Targets, G.Resolve, IsSlot;
    var k := HookAllReplaces(im, s, targets, newFunc);
    assert k == |targets| && targets[..k] == targets;
    ExactlyTheSlots(s, targets, newFunc);
    HookingAgain(s, targets, newFunc);
    var s' := ReplaceAll(s, targets, newFunc);
    var k' := HookAllReplaces(im, s', targets, newFunc);
    assert k' == |targets| && targets[..k'] == targets;
  }

  /** Whether or not something fails: what ends up in *old_func was there before or was in one of the words, and it is
      never the new function unless it was there before. */
  lemma SavedSafely(im: Image, s: Slots, symbol: G.Name, newFunc: nat)
    requires im.symbols.symoffset <= |im.symbols.syms|
    ensures var saved := Hooked(im, s, symbol, newFunc).0.saved;
      saved == s.saved || (saved.Some? && saved.value != newFunc && saved.value in s.mem.Values)
  {
    if newFunc != 0 && G.Resolve(im.symbols, symbol).Some? {
      var targets := Targets(im, G.Resolve(im.symbols, symbol).value);
      var k := HookAllReplaces(im, s, targets, newFunc);
      SavedIsOld(s, targets[..k], newFunc);
    }
  }

  lemma HookNext(im: Image, s: Slots, es: seq<P.Entry>, symidx: nat, newFunc: nat)
    requires es != []
    ensures HookAll(im, s, DynSlots(im, es, symidx), newFunc) ==
      var (s', rc) := if Wanted(im.arch, es[0], symidx, false) then HookOne(im, s, SlotOf(im, es[0]), newFunc) else (s, Ok);
      if rc != Ok then (s', rc) else HookAll(im, s', DynSlots(im, es[1..], symidx), newFunc)
  {
    hide HookOne, Wanted, SlotOf;
    var rest := DynSlots(im, es[1..], symidx);
    if Wanted(im.arch, es[0], symidx, false) {
      assert ([SlotOf(im, es[0])] + rest)[1..] == rest;
    } else {
      assert [] + rest == rest;
    }
  }

  /** The outcome of one table, if the image has it, and of the tables behind it. */
  lemma HookInParts(im: Image, s: Slots, symidx: nat, newFunc: nat)
    ensures var plt := if im.plt.Some? then PltSlots(im, im.plt.value, symidx) else [];
      var dyn := if im.dyn.Some? then DynSlots(im, im.dyn.value, symidx) else [];
      var android := if im.android.Some? then DynSlots(im, Packed(im, im.android.value), symidx) else [];
      var (s1, rc1) := HookAll(im, s, plt, newFunc);
      var (s2, rc2) := HookAll(im, s1, dyn, newFunc);
      HookAll(im, s, Targets(im, symidx), newFunc) ==
        if rc1 != Ok then (s1, rc1) else if rc2 != Ok then (s2, rc2) else HookAll(im, s2, android, newFunc)
    ensures forall s0: Slots :: HookAll(im, s0, [], newFunc) == (s0, Ok)
  {
    var plt := if im.plt.Some? then PltSlots(im, im.plt.value, symidx) else [];
    var dyn := if im.dyn.Some? then DynSlots(im, im.dyn.value, symidx) else [];
    var android := if im.android.Some? then DynSlots(im, Packed(im, im.android.value), symidx) else [];
    HookAllConcat(im, s, plt + dyn, android, newFunc);
    HookAllConcat(im, s, plt, dyn, newFunc);
  }

  // ---------- the code ----------

  class Elf {
    const im: Image
    var mem: map<nat, nat>

    constructor (im: Image, mem: map<nat, nat>)
      ensures this.im == im && this.mem == mem
    {
      this.im, this.mem := im, mem;
    }

    /** xh_elf_replace_function, with the check of the address in front */
    method ReplaceFunction(addr: nat, newFunc: nat, saved: Option<nat>) returns (saved': Option<nat>, rc: Outcome)
      modifies this
      ensures (Slots(mem, saved'), rc) == HookOne(im, Slots(old(mem), saved), addr, newFunc)
    {
      saved', rc := saved, Ok;
      if addr < im.base {
        rc := Format;
        return;
      }
      if addr in mem && mem[addr] == newFunc {
        return;
      }
      if !im.writable(addr) {
        rc := Protection;
        return;
      }
      if addr in mem {
        saved' := if saved.Some? then Some(mem[addr]) else None;
        mem := mem[addr := newFunc];
      }
    }

    /** xh_elf_find_and_replace_func */
    method FindAndReplaceFunc(isPlt: bool, newFunc: nat, saved: Option<nat>, symidx: nat, e: P.Entry)
      returns (found: bool, saved': Option<nat>, rc: Outcome)
      modifies this
      ensures found == Wanted(im.arch, e, symidx, isPlt)
      ensures (Slots(mem, saved'), rc) ==
        if found then HookOne(im, Slots(old(mem), saved), SlotOf(im, e), newFunc) else (Slots(old(mem), saved), Ok)
    {
      found, saved', rc := false, saved, Ok;
      if SymOf(im.arch, e) != symidx {
        return;
      }
      var kind := TypeOf(im.arch, e);
      if isPlt && kind != im.arch.jumpSlot {
        return;
      }
      if !isPlt && kind != im.arch.globDat && kind != im.arch.abs {
        return;
      }
      found := true;
      saved', rc := ReplaceFunction(SlotOf(im, e), newFunc, saved);
    }

    /** The loop over .rel(a).plt: it ends with the first relocation found. */
    method HookPlt(es: seq<P.Entry>, newFunc: nat, saved: Option<nat>, symidx: nat) returns (saved': Option<nat>, rc: Outcome)
      modifies this
      ensures (Slots(mem, saved'), rc) == HookAll(im, Slots(old(mem), saved), PltSlots(im, es, symidx), newFunc)
    {
      hide HookOne, Wanted, SlotOf;
      saved', rc := saved, Ok;
      var i := 0;
      while i < |es|
        invariant i <= |es| && mem == old(mem) && saved' == saved && rc == Ok
        invariant PltSlots(im, es, symidx) == PltSlots(im, es[i..], symidx)
      {
        assert es[i..][0] == es[i] && es[i..][1..] == es[i + 1..];
        var found;
        found, saved', rc := FindAndReplaceFunc(true, newFunc, saved', symidx, es[i]);
        if rc != Ok {
          return;
        }
        if found {
          return;
        }
        i := i + 1;
      }
    }

    /** The loop over .rel(a).dyn. */
    method HookDyn(es: seq<P.Entry>, newFunc: nat, saved: Option<nat>, symidx: nat) returns (saved': Option<nat>, rc: Outcome)
      modifies this
      ensures (Slots(mem, saved'), rc) == HookAll(im, Slots(old(mem), saved), DynSlots(im, es, symidx), newFunc)
    {
      hide HookOne, Wanted, SlotOf;
      saved', rc := saved, Ok;
      var i := 0;
      while i < |es|
        invariant i <= |es| && rc == Ok
        invariant HookAll(im, Slots(old(mem), saved), DynSlots(im, es, symidx), newFunc)
          == HookAll(im, Slots(mem, saved'), DynSlots(im, es[i..], symidx), newFunc)
      {
        assert es[i..][0] == es[i] && es[i..][1..] == es[i + 1..];
        HookNext(im, Slots(mem, saved'), es[i..], symidx, newFunc);
        var found;
        found, saved', rc := FindAndReplaceFunc(false, newFunc, saved', symidx, es[i]);
        if rc != Ok {
          return;
        }
        i := i + 1;
      }
    }

    /** The loop over .rel(a).android. */
    method HookAndroid(bytes: seq<Byte>, newFunc: nat, saved: Option<nat>, symidx: nat)
      returns (saved': Option<nat>, rc: Outcome)
      modifies this
      ensures (Slots(mem, saved'), rc) == HookAll(im, Slots(old(mem), saved), DynSlots(im, Packed(im, bytes), symidx), newFunc)
    {
      hide HookOne, Wanted, SlotOf, P.Run, P.Step, P.Start;
      saved', rc := saved, Ok;
      var it := new P.Iterator(bytes, im.arch.w, im.rela);
      while true
        invariant it.Valid() && fresh(it) && fresh(it.decoder) && it.decoder.w == im.arch.w && it.rela == im.rela && rc == Ok
        invariant HookAll(im, Slots(old(mem), saved), DynSlots(im, Packed(im, bytes), symidx), newFunc)
          == HookAll(im, Slots(mem, saved'), DynSlots(im, P.Run(it.State(), im.arch.w, im.rela), symidx), newFunc)
        decreases it.relocationCount - it.relocationIndex
      {
        P.RunOne(it.State(), im.arch.w, im.rela);
        ghost var es := P.Run(it.State(), im.arch.w, im.rela);
        var e := it.Next();
        if e == None {
          break;
        }
        HookNext(im, Slots(mem, saved'), es, symidx, newFunc);
        var found;
        found, saved', rc := FindAndReplaceFunc(false, newFunc, saved', symidx, e.value);
        if rc != Ok {
          return;
        }
      }
    }

    /** xh_elf_hook */
    method Hook(symbol: G.Name, newFunc: nat, saved: Option<nat>) returns (saved': Option<nat>, rc: Outcome)
      requires G.WellFormed(im.symbols)
      modifies this
      ensures (Slots(mem, saved'), rc) == Hooked(im, Slots(old(mem), saved), symbol, newFunc)
    {
      hide HookAll, PltSlots, DynSlots, Packed, G.Resolve, G.Entered, G.Heads;
      saved', rc := saved, Ok;
      if newFunc == 0 {
        rc := Invalid;
        return;
      }
      var found := G.Lookup(im.symbols, symbol);
      if found == None {
        return;
      }
      HookInParts(im, Slots(mem, saved), found.value, newFunc);
      if im.plt.Some? {
        saved', rc := HookPlt(im.plt.value, newFunc, saved', found.value);
        if rc != Ok {
          return;
        }
      }
      if im.dyn.Some? {
        saved', rc := HookDyn(im.dyn.value, newFunc, saved', found.value);
        if rc != Ok {
          return;
        }
      }
      if im.android.Some? {
        saved', rc := HookAndroid(im.android.value, newFunc, saved', found.value);
      }
    }
  }
}
