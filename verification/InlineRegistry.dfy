/** The registry of the 32-bit inline hook: which targets are registered or hooked, and what the hooked ones have done
    to the memory of the program. */
module InlineRegistry {
  import opened Options
  import opened ThumbIsa

  const MAX_ITEMS := 1024

  datatype Status = Registered | Hooked

  /** A registered target: an odd address is Thumb code. */
  datatype Item = Item(target: nat, newAddr: nat, orig: seq<nat>, status: Status) {
    function Start(): nat { target - target % 2 }

    function Length(): nat { if target % 2 == 1 then 12 else 8 }

    function End(): nat { Start() + Length() }

    predicate Covers(a: int) { Start() <= a < End() }

    /** What the hook writes: LDR.W PC, [PC], behind a NOP if that does not stand on a word, or LDR PC, [PC, #-4]; and
        the new address. */
    function Patch(): (bs: seq<nat>)
      ensures 8 <= |bs| <= Length()
    {
      if target % 2 == 1 then (if Start() % 4 != 0 then [0x00, 0xbf] else []) + ([0xdf, 0xf8, 0x00, 0xf0] + Bytes(newAddr))
      else [0x04, 0xf0, 0x1f, 0xe5] + Bytes(newAddr)
    }
  }

  /** A word in memory order. */
  function Bytes(w: nat): (bs: seq<nat>)
    ensures |bs| == 4
  {
    [w % 0x100, w / 0x100 % 0x100, w / 0x1_0000 % 0x100, w / 0x100_0000 % 0x100]
  }

  datatype Result = Done | NotExecutable | AlreadyRegistered | AlreadyHooked | NotRegistered | NotHooked

  function Overwrite(mem: seq<nat>, a: nat, bs: seq<nat>): (m: seq<nat>)
    requires a + |bs| <= |mem|
    ensures |m| == |mem|
    ensures forall i :: 0 <= i < |mem| ==> m[i] == if a <= i < a + |bs| then bs[i - a] else mem[i]
  {
    mem[..a] + bs + mem[a + |bs|..]
  }

  // ---------- the invariant ----------

  ghost predicate Apart(items: seq<Item>) {
    forall i, j :: 0 <= i < j < |items| ==> AreApart(items[i], items[j])
  }

  predicate AreApart(x: Item, y: Item) {
    x.End() <= y.Start() || y.End() <= x.Start()
  }

  /** The window of the item holds what its status says, and its saved instructions are the original ones. */
  ghost predicate WindowIs(it: Item, mem: seq<nat>, original: seq<nat>) {
    && it.End() <= |mem| == |original| && it.orig == original[it.Start()..it.End()]
    && forall a :: it.Covers(a) ==>
      mem[a] == if it.status == Hooked && a - it.Start() < |it.Patch()| then it.Patch()[a - it.Start()] else original[a]
  }

  ghost predicate Outside(items: seq<Item>, a: int) {
    forall i :: 0 <= i < |items| ==> !items[i].Covers(a)
  }

  /** The memory is the original one except for the patches of the hooked items. */
  ghost predicate MemoryIs(items: seq<Item>, mem: seq<nat>, original: seq<nat>) {
    && |mem| == |original|
    && (forall i :: 0 <= i < |items| ==> WindowIs(items[i], mem, original))
    && (forall a :: 0 <= a < |mem| && Outside(items, a) ==> mem[a] == original[a])
  }

  ghost predicate Consistent(items: seq<Item>, mem: seq<nat>, original: seq<nat>) {
    |items| <= MAX_ITEMS && Apart(items) && MemoryIs(items, mem, original)
  }

  lemma Overlap(x: Item, y: Item)
    requires x.target == y.target
    ensures !AreApart(x, y)
  {
  }

  /** Targets are unique: items with the same target would overlap. */
  lemma TargetsUnique(items: seq<Item>, i: nat, j: nat)
    requires Apart(items) && i < |items| && j < |items| && items[i].target == items[j].target
    ensures i == j
  {
    Overlap(items[i], items[j]);
    Overlap(items[j], items[i]);
  }

  // ---------- what the operations do ----------

  /** The first item for a target. */
  function Find(items: seq<Item>, target: nat): (r: Option<nat>)
    ensures match r
      case Some(i) => i < |items| && items[i].target == target && forall j :: 0 <= j < i ==> items[j].target != target
      case None => forall j :: 0 <= j < |items| ==> items[j].target != target
  {
    if items == [] then None
    else if items[0].target == target then Some(0)
    else
      match Find(items[1..], target)
      case None => assert forall j :: 0 < j < |items| ==> items[j] == items[1..][j - 1]; None
      case Some(i) => Some(i + 1)
  }

  /** The item at pos is replaced by the last one. */
  function SwapDelete(items: seq<Item>, pos: nat): seq<Item>
    requires pos < |items|
  {
    items[pos := items[|items| - 1]][..|items| - 1]
  }

  lemma Add(items: seq<Item>, mem: seq<nat>, original: seq<nat>, it: Item)
    requires Consistent(items, mem, original) && |items| < MAX_ITEMS && it.status == Registered
    requires it.End() <= |mem| && it.orig == mem[it.Start()..it.End()]
    requires forall i :: 0 <= i < |items| ==> AreApart(items[i], it)
    ensures Consistent(items + [it], mem, original)
  {
    var more := items + [it];
    forall a | it.Covers(a)
      ensures mem[a] == original[a]
    {
      assert forall i :: 0 <= i < |items| ==> AreApart(items[i], it) ==> !items[i].Covers(a);
      assert Outside(items, a);
    }
    assert it.orig == original[it.Start()..it.End()];
    assert WindowIs(it, mem, original);
    forall a | 0 <= a < |mem| && Outside(more, a)
      ensures mem[a] == original[a]
    {
      assert forall i :: 0 <= i < |items| ==> more[i] == items[i];
      assert Outside(items, a);
    }
  }

  /** Writing to one window leaves the others alone. */
  lemma OtherWindow(x: Item, y: Item, mem: seq<nat>, original: seq<nat>, bs: seq<nat>)
    requires AreApart(x, y) || AreApart(y, x)
    requires WindowIs(x, mem, original) && y.End() <= |mem| && |bs| <= y.Length()
    ensures WindowIs(x, Overwrite(mem, y.Start(), bs), original)
  {
  }

  lemma Hook(items: seq<Item>, mem: seq<nat>, original: seq<nat>, pos: nat)
    requires Consistent(items, mem, original) && pos < |items| && items[pos].status == Registered
    ensures items[pos].End() <= |mem|
    ensures var it := items[pos].(status := Hooked);
      Consistent(items[pos := it], Overwrite(mem, it.Start(), it.Patch()), original)
  {
    var it := items[pos].(status := Hooked);
    var now := items[pos := it];
    assert WindowIs(items[pos], mem, original);
    var mem' := Overwrite(mem, it.Start(), it.Patch());
    forall i | 0 <= i < |now|
      ensures WindowIs(now[i], mem', original)
    {
      if i != pos {
        OtherWindow(items[i], it, mem, original, it.Patch());
      }
    }
    forall a | 0 <= a < |mem| && Outside(now, a)
      ensures mem'[a] == original[a]
    {
      assert !now[pos].Covers(a);
      assert Outside(items, a) by {
        forall i | 0 <= i < |items|
          ensures !items[i].Covers(a)
        {
          assert !now[i].Covers(a);
        }
      }
    }
  }

  lemma UnHook(items: seq<Item>, mem: seq<nat>, original: seq<nat>, pos: nat)
    requires Consistent(items, mem, original) && pos < |items|
    ensures items[pos].End() <= |mem| && |items[pos].orig| == items[pos].Length()
    ensures Consistent(SwapDelete(items, pos), Overwrite(mem, items[pos].Start(), items[pos].orig), original)
  {
    var it, rest := items[pos], SwapDelete(items, pos);
    assert WindowIs(it, mem, original);
    var mem' := Overwrite(mem, it.Start(), it.orig);
    Deleted(items, pos);
    forall i | 0 <= i < |rest|
      ensures WindowIs(rest[i], mem', original)
    {
      var j := if i == pos then |items| - 1 else i;
      assert rest[i] == items[j];
      OtherWindow(items[j], it, mem, original, it.orig);
    }
    forall a | 0 <= a < |mem| && Outside(rest, a)
      ensures mem'[a] == original[a]
    {
      if !it.Covers(a) {
        assert Outside(items, a) by {
          forall i | 0 <= i < |items|
            ensures !items[i].Covers(a)
          {
            assert i == pos || !rest[if i == |items| - 1 then pos else i].Covers(a);
          }
        }
      }
    }
  }

  lemma Deleted(items: seq<Item>, pos: nat)
    requires pos < |items| && Apart(items)
    ensures Apart(SwapDelete(items, pos))
    ensures forall i :: 0 <= i < |items| - 1 ==> SwapDelete(items, pos)[i] == items[if i == pos then |items| - 1 else i]
    ensures multiset(SwapDelete(items, pos)) == multiset(items) - multiset{items[pos]}
  {
    var n := |items| - 1;
    assert items == items[..n] + [items[n]];
    if pos < n {
      assert items[..n] == items[..pos] + [items[pos]] + items[pos + 1..n];
      assert SwapDelete(items, pos) == items[..pos] + [items[n]] + items[pos + 1..n];
    } else {
      assert SwapDelete(items, pos) == items[..n];
    }
  }

  /** Without hooked items the memory is the original one. */
  lemma NothingHooked(items: seq<Item>, mem: seq<nat>, original: seq<nat>)
    requires Consistent(items, mem, original) && forall i :: 0 <= i < |items| ==> items[i].status == Registered
    ensures mem == original
  {
    forall a | 0 <= a < |mem|
      ensures mem[a] == original[a]
    {
      if i :| 0 <= i < |items| && items[i].Covers(a) {
        assert WindowIs(items[i], mem, original);
      } else {
        assert Outside(items, a);
      }
    }
  }

  // ---------- where a hooked target goes ----------

  /** The halfword and the word at an address. */
  function HalfAt(mem: seq<nat>, a: int): nat
    requires 0 <= a && a + 2 <= |mem|
  {
    mem[a] + 0x100 * mem[a + 1]
  }

  function Word32At(mem: seq<nat>, a: int): nat
    requires 0 <= a && a + 4 <= |mem|
  {
    HalfAt(mem, a) + 0x1_0000 * HalfAt(mem, a + 2)
  }

  /** The target goes to dest: in Thumb code LDR.W PC, [PC] stands there, possibly behind a NOP, and dest where its aligned
      PC points; in ARM code LDR PC, [PC, #-4], and dest four bytes in front of its PC. */
  predicate JumpsTo(mem: seq<nat>, target: nat, dest: nat) {
    var a := target - target % 2;
    if target % 2 == 1 then
      && a + 12 <= |mem|
      && var p := if HalfAt(mem, a) == 0xbf00 then a + 2 else a;
        && HalfAt(mem, p) == 0xf8df && HalfAt(mem, p + 2) == 0xf000 && LdrWSource(p, 0, 0xf8df, 0xf000) == p + 4
        && Word32At(mem, p + 4) == dest
    else a + 8 <= |mem| && Word32At(mem, a) == LDR_PC && Word32At(mem, a + 8 - 4) == dest
  }

  lemma WordBytes(w: nat)
    requires w < 0x1_0000_0000
    ensures w == w % 0x100 + 0x100 * (w / 0x100 % 0x100) + 0x1_0000 * (w / 0x1_0000 % 0x100 + 0x100 * (w / 0x100_0000 % 0x100))
  {
  }

  /** In every state of the registry, each hooked target goes to its new address. */
  lemma HookedGoes(items: seq<Item>, mem: seq<nat>, original: seq<nat>, i: nat)
    requires Consistent(items, mem, original) && i < |items| && items[i].status == Hooked && items[i].newAddr < 0x1_0000_0000
    ensures JumpsTo(mem, items[i].target, items[i].newAddr)
  {
    var it := items[i];
    assert WindowIs(it, mem, original);
    var patch := it.Patch();
    forall k | 0 <= k < |patch|
      ensures it.Start() + k < |mem| && mem[it.Start() + k] == patch[k]
    {
      assert it.Covers(it.Start() + k);
    }
    assert mem[it.Start()..it.Start() + |patch|] == patch;
    hide Consistent, WindowIs;
    if it.target % 2 == 1 {
      ThumbPatch(mem, it);
    } else {
      ArmPatch(mem, it);
    }
  }

  /** Eight bytes one by one. */
  lemma EightBytes(mem: seq<nat>, a: nat, bs: seq<nat>)
    requires |bs| == 8 && a + 8 <= |mem| && mem[a..a + 8] == bs
    ensures mem[a] == bs[0] && mem[a + 1] == bs[1] && mem[a + 2] == bs[2] && mem[a + 3] == bs[3]
    ensures mem[a + 4] == bs[4] && mem[a + 5] == bs[5] && mem[a + 6] == bs[6] && mem[a + 7] == bs[7]
  {
    forall k | 0 <= k < 8
      ensures mem[a + k] == bs[k]
    {
      assert mem[a..a + 8][k] == mem[a + k];
    }
    assert mem[a + 0] == bs[0];
  }

  lemma ThumbPatch(mem: seq<nat>, it: Item)
    requires it.target % 2 == 1 && it.Start() + 12 <= |mem| && it.newAddr < 0x1_0000_0000
    requires mem[it.Start()..it.Start() + |it.Patch()|] == it.Patch()
    ensures JumpsTo(mem, it.target, it.newAddr)
  {
    var (a, jump) := (it.Start(), [0xdf, 0xf8, 0x00, 0xf0] + Bytes(it.newAddr));
    if a % 4 == 0 {
      hide Word32At, LdrWSource, Bytes;
      JumpBytes(mem, a, it.newAddr);
    } else {
      hide Word32At, LdrWSource, Bytes;
      assert it.Patch() == [0x00, 0xbf] + jump;
      Behind(mem, a, [0x00, 0xbf], jump);
      JumpBytes(mem, a + 2, it.newAddr);
    }
  }

  /** Two bytes and what is behind them. */
  lemma Behind(mem: seq<nat>, a: nat, head: seq<nat>, tail: seq<nat>)
    requires |head| == 2 && a + 2 + |tail| <= |mem| && mem[a..a + |head + tail|] == head + tail
    ensures mem[a] == head[0] && mem[a + 1] == head[1] && mem[a + 2..a + 2 + |tail|] == tail
  {
    var part := mem[a..a + 2 + |tail|];
    assert part[0] == mem[a] && part[1] == mem[a + 1];
    assert mem[a + 2..a + 2 + |tail|] == part[2..];
    assert (head + tail)[2..] == tail;
  }

  lemma JumpBytes(mem: seq<nat>, p: nat, dest: nat)
    requires p % 4 == 0 && p + 8 <= |mem| && dest < 0x1_0000_0000
    requires mem[p..p + 8] == [0xdf, 0xf8, 0x00, 0xf0] + Bytes(dest)
    ensures HalfAt(mem, p) == 0xf8df && HalfAt(mem, p + 2) == 0xf000 && LdrWSource(p, 0, 0xf8df, 0xf000) == p + 4
    ensures Word32At(mem, p + 4) == dest
  {
    EightBytes(mem, p, [0xdf, 0xf8, 0x00, 0xf0] + Bytes(dest));
    UpBit();
    WordBytes(dest);
    hide BitOf;
  }

  lemma ArmPatch(mem: seq<nat>, it: Item)
    requires it.target % 2 == 0 && it.Start() + 8 <= |mem| && it.newAddr < 0x1_0000_0000
    requires mem[it.Start()..it.Start() + |it.Patch()|] == it.Patch()
    ensures JumpsTo(mem, it.target, it.newAddr)
  {
    EightBytes(mem, it.Start(), it.Patch());
    WordBytes(it.newAddr);
  }

  /** The same registered items, in whatever order. */
  ghost predicate SameRegistered(a: seq<Item>, b: seq<Item>) {
    forall it: Item :: it.status == Registered ==> multiset(a)[it] == multiset(b)[it]
  }

  lemma DeletedFrom(items: seq<Item>, mem: seq<nat>, original: seq<nat>, pos: nat)
    requires Consistent(items, mem, original) && pos < |items|
    ensures |SwapDelete(items, pos)| == |items| - 1 && SwapDelete(items, pos)[..pos] == items[..pos]
    ensures items[pos].status == Hooked ==> forall all :: SameRegistered(items, all) ==> SameRegistered(SwapDelete(items, pos), all)
  {
    Deleted(items, pos);
  }

  /** The same items, all hooked. */
  function AllHooked(items: seq<Item>): (r: seq<Item>)
    ensures |r| == |items| && forall i :: 0 <= i < |items| ==> r[i] == items[i].(status := Hooked)
  {
    seq(|items|, i requires 0 <= i < |items| => items[i].(status := Hooked))
  }

  class Registry {
    var items: seq<Item>
    var mem: seq<nat>
    ghost const original: seq<nat>

    ghost predicate Valid()
      reads this
    {
      Consistent(items, mem, original)
    }

    constructor (mem: seq<nat>)
      ensures Valid() && items == [] && this.mem == mem == original
    {
      items, this.mem, original := [], mem, mem;
    }

    /** findInlineHookItem */
    method FindInlineHookItem(target: nat) returns (r: Option<nat>)
      ensures r == Find(items, target)
    {
      for i := 0 to |items|
        invariant forall j :: 0 <= j < i ==> items[j].target != target
      {
        if items[i].target == target {
          return Some(i);
        }
      }
      r := None;
    }

    /** registerInlineHook: the window of a new target overlaps no other, and there is a free item. */
    method RegisterInlineHook(target: nat, newAddr: nat, executable: bool) returns (r: Result)
      requires Valid()
      requires executable && Find(items, target) == None ==>
        var it := Item(target, newAddr, [], Registered);
        && |items| < MAX_ITEMS && it.End() <= |mem|
        && forall i :: 0 <= i < |items| ==> AreApart(items[i], it)
      modifies this`items
      ensures Valid()
      ensures if !executable then r == NotExecutable && items == old(items)
        else match Find(old(items), target)
          case Some(i) =>
            r == (if old(items)[i].status == Registered then AlreadyRegistered else AlreadyHooked) && items == old(items)
          case None =>
            var it := Item(target, newAddr, [], Registered);
            r == Done && items == old(items) + [it.(orig := mem[it.Start()..it.End()])]
    {
      if !executable {
        return NotExecutable;
      }
      var found := FindInlineHookItem(target);
      if found.Some? {
        return if items[found.value].status == Registered then AlreadyRegistered else AlreadyHooked;
      }
      var it := Item(target, newAddr, [], Registered);
      it := it.(orig := mem[it.Start()..it.End()]);
      assert forall i :: 0 <= i < |items| ==> AreApart(items[i], Item(target, newAddr, [], Registered)) ==> AreApart(items[i], it);
      Add(items, mem, original, it);
      items := items + [it];
      r := Done;
    }

    /** doInlineHook */
    method DoInlineHook(pos: nat)
      requires Valid() && pos < |items| && items[pos].status == Registered
      modifies this
      ensures Valid() && items == old(items)[pos := old(items)[pos].(status := Hooked)]
    {
      Hook(items, mem, original, pos);
      mem := Overwrite(mem, items[pos].Start(), items[pos].Patch());
      items := items[pos := items[pos].(status := Hooked)];
    }

    /** inlineHook */
    method InlineHook(target: nat) returns (r: Result)
      requires Valid()
      modifies this
      ensures Valid()
      ensures match Find(old(items), target)
        case None => r == NotRegistered && items == old(items) && mem == old(mem)
        case Some(i) =>
          if old(items)[i].status == Hooked then r == AlreadyHooked && items == old(items) && mem == old(mem)
          else r == Done && items == old(items)[i := old(items)[i].(status := Hooked)]
    {
      var found := FindInlineHookItem(target);
      if found == None {
        return NotRegistered;
      }
      if items[found.value].status == Hooked {
        return AlreadyHooked;
      }
      DoInlineHook(found.value);
      r := Done;
    }

    /** inlineHookAll */
    method InlineHookAll()
      requires Valid()
      modifies this
      ensures Valid() && items == AllHooked(old(items))
    {
      for i := 0 to |items|
        invariant Valid() && |items| == |old(items)|
        invariant forall j :: 0 <= j < |items| ==> items[j] == if j < i then old(items)[j].(status := Hooked) else old(items)[j]
      {
        if items[i].status == Registered {
          DoInlineHook(i);
        }
      }
    }

    /** doInlineUnHook */
    method DoInlineUnHook(pos: nat)
      requires Valid() && pos < |items|
      modifies this
      ensures Valid() && items == SwapDelete(old(items), pos)
    {
      UnHook(items, mem, original, pos);
      mem := Overwrite(mem, items[pos].Start(), items[pos].orig);
      items := items[pos := items[|items| - 1]];
      items := items[..|items| - 1];
    }

    /** inlineUnHook */
    method InlineUnHook(target: nat) returns (r: Result)
      requires Valid()
      modifies this
      ensures Valid()
      ensures match Find(old(items), target)
        case None => r == NotHooked && items == old(items) && mem == old(mem)
        case Some(i) =>
          if old(items)[i].status == Registered then r == NotHooked && items == old(items) && mem == old(mem)
          else r == Done && items == SwapDelete(old(items), i)
    {
      for i := 0 to |items|
        invariant forall j :: 0 <= j < i ==> !(items[j].target == target && items[j].status == Hooked)
        invariant items == old(items) && mem == old(mem)
      {
        if items[i].target == target && items[i].status == Hooked {
          TargetsUnique(items, i, Find(items, target).value);
          DoInlineUnHook(i);
          return Done;
        }
      }
      r := NotHooked;
    }

    /** inlineUnHookAll: exactly the registered items are left, and the memory is what it was before any hook. */
    method InlineUnHookAll()
      requires Valid()
      modifies this
      ensures Valid() && mem == original
      ensures SameRegistered(items, old(items)) && forall i :: 0 <= i < |items| ==> items[i].status == Registered
    {
      hide Consistent, SwapDelete;
      assert SameRegistered(items, old(items));
      hide SameRegistered;
      var i := 0;
      while i < |items|
        invariant i <= |items| && Valid()
        invariant forall j :: 0 <= j < i ==> items[..i][j].status == Registered
        invariant SameRegistered(items, old(items))
        decreases |items| - i
      {
        if items[i].status == Hooked {
          DeletedFrom(items, mem, original, i);
          DoInlineUnHook(i);
        } else {
          i := i + 1;
        }
      }
      assert items[..i] == items;
      NothingHooked(items, mem, original);
    }
  }
}
