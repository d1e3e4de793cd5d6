/** Moving a stopped thread when all items of the registry are hooked or unhooked at once. */
module Threads {
  import opened Bits
  import opened Options
  import opened Relocate
  import opened ThumbIsa

  datatype Action = Enable | Disable

  function Opposite(action: Action): Action {
    if action == Enable then Disable else Enable
  }

  /** What processThreadPC uses of an item: its window and its trampoline, with their sizes in bytes, and the tables. */
  datatype Item = Item(target: int, window: nat, base: int, page: nat, orig: seq<nat>, tramp: seq<nat>) {
    ghost predicate Valid() {
      && |orig| == |tramp| && Increasing(orig) && Increasing(tramp)
      && (forall x :: x in orig ==> x < window) && (forall x :: x in tramp ==> x < page)
    }

    /** doProcessThreadPC */
    function Move(pc: int, action: Action): Option<int>
      requires |orig| == |tramp|
    {
      match action
      case Enable => Moved(pc, target, orig, base, tramp)
      case Disable => Moved(pc, base, tramp, target, orig)
    }
  }

  ghost predicate AllValid(items: seq<Item>) {
    forall k :: 0 <= k < |items| ==> items[k].Valid()
  }

  /** Neither windows nor trampolines overlap. */
  ghost predicate Apart(items: seq<Item>) {
    forall j, k :: 0 <= j < k < |items| ==>
      && (items[j].target + items[j].window <= items[k].target || items[k].target + items[k].window <= items[j].target)
      && (items[j].base + items[j].page <= items[k].base || items[k].base + items[k].page <= items[j].base)
  }

  /** The first item that has the PC in its table moves it. */
  ghost function MovedByFirst(items: seq<Item>, pc: int, action: Action): Option<int>
    requires AllValid(items)
  {
    if items == [] then None
    else if items[0].Move(pc, action).Some? then items[0].Move(pc, action)
    else MovedByFirst(items[1..], pc, action)
  }

  /** processThreadPC without an item */
  method ProcessThread(items: seq<Item>, pc: int, action: Action) returns (r: int)
    requires AllValid(items)
    ensures r == match MovedByFirst(items, pc, action)
      case Some(moved) => moved
      case None => pc
  {
    var pos := 0;
    while pos < |items|
      invariant pos <= |items| && MovedByFirst(items, pc, action) == MovedByFirst(items[pos..], pc, action)
    {
      var moved := items[pos].Move(pc, action);
      if moved.Some? {
        return moved.value;
      }
      assert items[pos..][1..] == items[pos + 1..];
      pos := pos + 1;
    }
    r := pc;
  }

  /** Whoever moves a thread has it in its window, and puts it into its trampoline, or the other way round. */
  lemma MovesInside(it: Item, pc: int, action: Action)
    requires it.Valid() && it.Move(pc, action).Some?
    ensures var moved := it.Move(pc, action).value; var (out, inside) := if action == Enable then (pc, moved) else (moved, pc);
      && it.target <= out < it.target + it.window && it.base <= inside < it.base + it.page
      && it.Move(moved, Opposite(action)) == Some(pc)
  {
    match action
    case Enable =>
      var i := IndexOf(it.orig, pc - it.target).value;
      assert it.orig[i] in it.orig && it.tramp[i] in it.tramp;
      ThereAndBack(pc, it.target, it.orig, it.base, it.tramp);
    case Disable =>
      var i := IndexOf(it.tramp, pc - it.base).value;
      assert it.orig[i] in it.orig && it.tramp[i] in it.tramp;
      ThereAndBack(pc, it.base, it.tramp, it.target, it.orig);
  }

  /** At most one item moves a thread. */
  lemma OneMoves(items: seq<Item>, pc: int, action: Action, j: nat, k: nat)
    requires AllValid(items) && Apart(items) && j < |items| && k < |items|
    requires items[j].Move(pc, action).Some? && items[k].Move(pc, action).Some?
    ensures j == k
  {
    MovesInside(items[j], pc, action);
    MovesInside(items[k], pc, action);
  }

  lemma {:induction false} SomeoneMoves(items: seq<Item>, pc: int, action: Action) returns (k: nat)
    requires AllValid(items) && MovedByFirst(items, pc, action).Some?
    ensures k < |items| && items[k].Move(pc, action) == MovedByFirst(items, pc, action)
  {
    if items[0].Move(pc, action).Some? {
      k := 0;
    } else {
      k := SomeoneMoves(items[1..], pc, action);
      k := k + 1;
    }
  }

  lemma {:induction false} FirstMoves(items: seq<Item>, pc: int, action: Action, k: nat)
    requires AllValid(items) && k < |items| && items[k].Move(pc, action).Some?
    ensures MovedByFirst(items, pc, action).Some?
  {
    if k > 0 {
      assert items[1..][k - 1] == items[k];
      FirstMoves(items[1..], pc, action, k - 1);
    }
  }

  /** With all items hooked and then unhooked, or the other way round, a thread that was moved is back where it was,
      whichever item it met. */
  lemma AllThereAndBack(items: seq<Item>, pc: int, action: Action)
    requires AllValid(items) && Apart(items) && MovedByFirst(items, pc, action).Some?
    ensures MovedByFirst(items, MovedByFirst(items, pc, action).value, Opposite(action)) == Some(pc)
  {
    var k := SomeoneMoves(items, pc, action);
    var moved := MovedByFirst(items, pc, action).value;
    MovesInside(items[k], pc, action);
    FirstMoves(items, moved, Opposite(action), k);
    var j := SomeoneMoves(items, moved, Opposite(action));
    OneMoves(items, moved, Opposite(action), j, k);
  }

  // ---------- the items that are built ----------

  const PAGE := 4096

  function ThumbItem(target: nat, code: seq<Half>, mem: Memory, base: int): Item
    requires code != []
  {
    var bs := ThumbBlocks(target, code, mem, 0);
    Item(target, 2 * |code|, base, PAGE, OrigBounds(bs, 2), TrampBounds(bs, 2))
  }

  function ArmItem(target: nat, code: seq<Word>, mem: Memory, base: int): Item {
    var bs := ArmBlocks(target, code, mem, 0);
    Item(target, 4 * |code|, base, PAGE, OrigBounds(bs, 4), TrampBounds(bs, 4))
  }

  lemma {:induction false} ShortWords(bs: seq<Block>, n: nat)
    requires forall b :: b in bs ==> |b.words| <= n
    ensures |Words(bs)| <= n * |bs|
  {
    if bs != [] {
      ShortWords(bs[..|bs| - 1], n);
      Distribute(n, |bs| - 1, 1);
    }
  }

  lemma {:induction false} ThumbShort(target: nat, code: seq<Half>, mem: Memory, pos: nat)
    requires pos < |code|
    ensures forall b :: b in ThumbBlocks(target, code, mem, pos) ==> b.orig < |code| && |b.words| <= 14
    decreases |code| - pos
  {
    hide Expand16, Expand32, Is32Bit;
    if Is32Bit(code[pos]) && pos + 2 < |code| {
      ThumbShort(target, code, mem, pos + 2);
    } else if !Is32Bit(code[pos]) && pos + 1 < |code| {
      ThumbShort(target, code, mem, pos + 1);
    }
  }

  lemma {:induction false} ArmShort(target: nat, code: seq<Word>, mem: Memory, pos: nat)
    requires pos <= |code|
    ensures forall b :: b in ArmBlocks(target, code, mem, pos) ==> b.orig < |code| && |b.words| <= 6
    decreases |code| - pos
  {
    hide ExpandArm;
    if pos < |code| {
      ArmShort(target, code, mem, pos + 1);
    }
  }

  lemma BoundsInside(bs: seq<Block>, unit: nat, window: nat, n: nat)
    requires (forall b :: b in bs ==> b.orig * unit < window && |b.words| <= n) && n * |bs| * unit < PAGE
    ensures forall x :: x in OrigBounds(bs, unit) ==> x < window
    ensures forall x :: x in TrampBounds(bs, unit) ==> x < PAGE
  {
    forall k | 0 <= k < |bs|
      ensures TrampBounds(bs, unit)[k] < PAGE
    {
      ShortWords(bs[..k], n);
      Product(|Words(bs[..k])|, n, k, |bs|, unit);
    }
  }

  lemma Product(x: nat, n: nat, k: nat, m: nat, unit: nat)
    requires x <= n * k && k <= m
    ensures x * unit <= n * m * unit
  {
    assert n * k <= n * m;
  }

  /** The tables of every window that is moved are valid ones. */
  lemma BuiltItems(target: nat, code: seq<Half>, arm: seq<Word>, mem: Memory, base: int)
    requires |code| == THUMB_WINDOW && |arm| == ARM_WINDOW
    ensures ThumbItem(target, code, mem, base).Valid() && ArmItem(target, arm, mem, base).Valid()
  {
    hide ThumbBlocks, ArmBlocks;
    var (bs, cs) := (ThumbBlocks(target, code, mem, 0), ArmBlocks(target, arm, mem, 0));
    ThumbInOrder(target, code, mem, 0);
    ArmInOrder(target, arm, mem, 0);
    BoundsIncrease(bs, 2);
    BoundsIncrease(cs, 4);
    ThumbShort(target, code, mem, 0);
    ArmShort(target, arm, mem, 0);
    assert 14 * |bs| * 2 < PAGE;
    BoundsInside(bs, 2, 12, 14);
    BoundsInside(cs, 4, 8, 6);
  }
}
