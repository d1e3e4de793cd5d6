/** The back-patching of the 64-bit inline hook: blocks of words laid one after another, and displacement fields
    that are filled in once the instruction they refer to has its place. */
module A64FixMap {
  import opened Bits
  import opened Options

  const MAX_INSTRUCTIONS := 5
  const MAX_REFERENCES := 10

  /** The displacement fields that can be patched, as the pairs (ls, ad) of a left shift and a mask. */
  datatype Field =
    | Imm26   // (0, 0x03ffffff): B, BL
    | Imm19   // (5, 0x00ffffe0): B.cond, CBZ, CBNZ
    | Imm14   // (5, 0x0007ffe0): TBZ, TBNZ
    | ImmAdr  // (5, 0x00ffffff): ADR

  /** (d << ls) & ad */
  function FieldBits(field: Field, d: int): nat {
    var x := d % 0x1_0000_0000;
    match field
    case Imm26 => x % 0x400_0000
    case Imm19 => x * 32 % 0x100_0000
    case Imm14 => x * 32 % 0x8_0000
    case ImmAdr => x * 32 % 0x100_0000
  }

  /** A field that must wait for the position of a later instruction: at word bp. */
  datatype Fix = Fix(bp: nat, field: Field)

  /** The words emitted, where the instruction itself starts after alignment, and what has to be patched later. */
  datatype Plan = Plan(words: seq<nat>, lead: nat, fix: Option<(nat, Fix)>)

  /** The state after some instructions: the words so far, the plans carried out, where each block begins and where
      each instruction itself is, and the fields waiting for each later instruction. */
  datatype State = State(words: seq<nat>, plans: seq<Plan>, starts: seq<nat>, pos: seq<nat>, fixes: seq<seq<Fix>>)

  /** What process_fix_map does to one word. */
  function Patched(w: nat, f: Fix, pos: nat): nat {
    Or(w, FieldBits(f.field, pos - f.bp))
  }

  function PatchAll(words: seq<nat>, fs: seq<Fix>, pos: nat): (ws: seq<nat>)
    ensures |ws| == |words|
  {
    if fs == [] then words
    else
      var rest, f := PatchAll(words, fs[..|fs| - 1], pos), fs[|fs| - 1];
      if f.bp < |rest| then rest[f.bp := Patched(rest[f.bp], f, pos)] else rest
  }

  predicate RefersTo(p: Plan, r: nat) {
    p.fix.Some? && p.fix.value.0 == r
  }

  /** The fields among these plans that wait for instruction r. */
  function Waiting(plans: seq<Plan>, r: nat): (fs: seq<Fix>)
    ensures |fs| <= |plans|
  {
    if plans == [] then []
    else
      var fs, p := Waiting(plans[..|plans| - 1], r), plans[|plans| - 1];
      if RefersTo(p, r) then fs + [p.fix.value.1] else fs
  }

  /** Blocks follow one another, each instruction sits behind its alignment words, and a field that waits
      is in a block of its own and waits for a later instruction. */
  ghost predicate LaidOut(st: State, n: nat) {
    && |st.plans| == n && |st.starts| == n + 1 && |st.pos| == n && st.starts[0] == 0
    && (forall j :: 0 <= j < n ==> st.starts[j + 1] == st.starts[j] + |st.plans[j].words|)
    && (forall j :: 0 <= j < n ==> st.pos[j] == st.starts[j] + st.plans[j].lead)
    && (forall j :: 0 <= j < n && st.plans[j].fix.Some? ==>
      st.plans[j].fix.value.0 > j && st.plans[j].fix.value.1.bp == st.starts[j] && |st.plans[j].words| == 1)
  }

  /** Word w of block j: patched as soon as the instruction it refers to has its place. */
  function Settled(st: State, j: nat, w: nat): nat
    requires j < |st.plans| && w < |st.plans[j].words|
  {
    var p := st.plans[j];
    if p.fix.Some? && p.fix.value.0 < |st.pos| then Patched(p.words[w], p.fix.value.1, st.pos[p.fix.value.0])
    else p.words[w]
  }

  ghost predicate WordsSettled(st: State) {
    && |st.plans| < |st.starts| && |st.words| == st.starts[|st.plans|]
    && forall j, w :: 0 <= j < |st.plans| && 0 <= w < |st.plans[j].words| ==> WordSettled(st, j, w)
  }

  ghost predicate WordSettled(st: State, j: nat, w: nat)
    requires j < |st.plans| < |st.starts| && w < |st.plans[j].words|
  {
    st.starts[j] + w < |st.words| && st.words[st.starts[j] + w] == Settled(st, j, w)
  }

  ghost predicate FixesListed(st: State) {
    && |st.fixes| == MAX_INSTRUCTIONS
    && forall r :: 0 <= r < MAX_INSTRUCTIONS ==> st.fixes[r] == if r < |st.plans| then [] else Waiting(st.plans, r)
  }

  ghost predicate Built(st: State, n: nat) {
    LaidOut(st, n) && WordsSettled(st) && FixesListed(st)
  }

  /** One more block. */
  function Next(st: State, p: Plan): (st': State)
    requires |st.plans| < |st.fixes| && |st.plans| < |st.starts|
  {
    var n := |st.plans|;
    var pos := st.starts[n] + p.lead;
    State(PatchAll(st.words + p.words, st.fixes[n], pos), st.plans + [p], st.starts + [st.starts[n] + |p.words|],
          st.pos + [pos], Enlisted(st.fixes, p)[n := []])
  }

  /** insert_fix_map */
  function Enlisted(fixes: seq<seq<Fix>>, p: Plan): (fs: seq<seq<Fix>>)
    ensures |fs| == |fixes|
  {
    if p.fix.Some? && p.fix.value.0 < |fixes| then fixes[p.fix.value.0 := fixes[p.fix.value.0] + [p.fix.value.1]] else fixes
  }

  lemma {:induction false} StartsGrow(st: State, n: nat, i: nat, j: nat)
    requires LaidOut(st, n) && i <= j <= n
    ensures st.starts[i] <= st.starts[j]
    ensures i < j ==> st.starts[i] + |st.plans[i].words| <= st.starts[j]
  {
    if i < j {
      StartsGrow(st, n, i, j - 1);
    }
  }

  /** The patches among fs that concern word x, applied to w. */
  function PatchesAt(w: nat, fs: seq<Fix>, pos: nat, x: nat): nat {
    if fs == [] then w
    else
      var v, f := PatchesAt(w, fs[..|fs| - 1], pos, x), fs[|fs| - 1];
      if f.bp == x then Patched(v, f, pos) else v
  }

  lemma {:induction false} PatchAllAt(words: seq<nat>, fs: seq<Fix>, pos: nat, x: nat)
    requires x < |words|
    ensures PatchAll(words, fs, pos)[x] == PatchesAt(words[x], fs, pos, x)
  {
    if fs != [] {
      PatchAllAt(words, fs[..|fs| - 1], pos, x);
    }
  }

  /** When only plan j may concern word x, it is patched at most once. */
  lemma {:induction false} PatchesOnce(w: nat, plans: seq<Plan>, r: nat, pos: nat, x: nat, j: nat)
    requires forall i :: 0 <= i < |plans| && RefersTo(plans[i], r) ==> (plans[i].fix.value.1.bp == x <==> i == j)
    ensures PatchesAt(w, Waiting(plans, r), pos, x) ==
      if j < |plans| && RefersTo(plans[j], r) then Patched(w, plans[j].fix.value.1, pos) else w
  {
    if plans != [] {
      var rest, p := plans[..|plans| - 1], plans[|plans| - 1];
      PatchesOnce(w, rest, r, pos, x, j);
      if RefersTo(p, r) {
        var fs := Waiting(rest, r);
        assert Waiting(plans, r)[..|fs|] == fs;
      }
    }
  }

  /** The patches of the fields waiting for instruction r reach exactly the blocks that refer to it. */
  lemma PatchWaiting(st: State, n: nat, r: nat, words: seq<nat>, q: nat, j: nat, w: nat)
    requires LaidOut(st, n) && j < n && w < |st.plans[j].words| && st.starts[n] <= |words|
    ensures st.starts[j] + w < |words|
    ensures PatchAll(words, Waiting(st.plans, r), q)[st.starts[j] + w] ==
      if RefersTo(st.plans[j], r) then Patched(words[st.starts[j] + w], st.plans[j].fix.value.1, q) else words[st.starts[j] + w]
  {
    var x := st.starts[j] + w;
    StartsGrow(st, n, j, n);
    forall i | 0 <= i < n && RefersTo(st.plans[i], r)
      ensures st.plans[i].fix.value.1.bp == x <==> i == j
    {
      if i < j {
        StartsGrow(st, n, i, j);
      } else {
        StartsGrow(st, n, j, i);
      }
    }
    PatchAllAt(words, Waiting(st.plans, r), q, x);
    PatchesOnce(words[x], st.plans, r, q, x, j);
  }

  lemma NextLaidOut(st: State, n: nat, p: Plan)
    requires Built(st, n) && n < MAX_INSTRUCTIONS
    requires p.fix.Some? ==> p.fix.value.0 > n && p.fix.value.1.bp == st.starts[n] && |p.words| == 1
    ensures LaidOut(Next(st, p), n + 1)
  {
  }

  /** The words of an earlier block after the patches for instruction n. */
  lemma NextOldWord(st: State, n: nat, p: Plan, j: nat, w: nat)
    requires Built(st, n) && j < n < MAX_INSTRUCTIONS && w < |st.plans[j].words|
    ensures WordSettled(Next(st, p), j, w)
  {
    hide Patched;
    var st', words, x := Next(st, p), st.words + p.words, st.starts[j] + w;
    StartsGrow(st, n, j, n);
    PatchWaiting(st, n, n, words, st'.pos[n], j, w);
    assert st.fixes[n] == Waiting(st.plans, n);
    assert WordSettled(st, j, w) && words[x] == st.words[x];
    SettledNext(st, n, p, j, w);
  }

  lemma SettledNext(st: State, n: nat, p: Plan, j: nat, w: nat)
    requires LaidOut(st, n) && |st.fixes| == MAX_INSTRUCTIONS && j < n < MAX_INSTRUCTIONS && w < |st.plans[j].words|
    ensures Settled(Next(st, p), j, w) ==
      if RefersTo(st.plans[j], n) then Patched(Settled(st, j, w), st.plans[j].fix.value.1, Next(st, p).pos[n]) else Settled(st, j, w)
  {
    var st', q := Next(st, p), st.plans[j];
    assert st'.plans[j] == q;
    if q.fix.Some? && q.fix.value.0 < n {
      assert st'.pos[q.fix.value.0] == st.pos[q.fix.value.0];
    }
  }

  lemma NextNewWord(st: State, n: nat, p: Plan, w: nat)
    requires Built(st, n) && n < MAX_INSTRUCTIONS && w < |p.words|
    requires p.fix.Some? ==> p.fix.value.0 > n
    ensures WordSettled(Next(st, p), n, w)
  {
    var st', words, x := Next(st, p), st.words + p.words, st.starts[n] + w;
    assert words[x] == p.words[w];
    forall i | 0 <= i < n && RefersTo(st.plans[i], n)
      ensures st.plans[i].fix.value.1.bp == x <==> i == n
    {
      StartsGrow(st, n, i, n);
    }
    assert st.fixes[n] == Waiting(st.plans, n);
    PatchAllAt(words, st.fixes[n], st'.pos[n], x);
    PatchesOnce(words[x], st.plans, n, st'.pos[n], x, n);
  }

  lemma NextFixes(st: State, n: nat, p: Plan, r: nat)
    requires Built(st, n) && n < r < MAX_INSTRUCTIONS
    ensures Next(st, p).fixes[r] == Waiting(Next(st, p).plans, r)
  {
    assert (st.plans + [p])[..n] == st.plans;
  }

  lemma NextBuilt(st: State, n: nat, p: Plan)
    requires Built(st, n) && n < MAX_INSTRUCTIONS
    requires p.fix.Some? ==> p.fix.value.0 > n && p.fix.value.1.bp == st.starts[n] && |p.words| == 1
    ensures Built(Next(st, p), n + 1)
  {
    var st' := Next(st, p);
    NextLaidOut(st, n, p);
    forall j, w | 0 <= j < n + 1 && 0 <= w < |st'.plans[j].words|
      ensures WordSettled(st', j, w)
    {
      if j < n {
        NextOldWord(st, n, p, j, w);
      } else {
        NextNewWord(st, n, p, w);
      }
    }
    forall r | 0 <= r < MAX_INSTRUCTIONS
      ensures st'.fixes[r] == if r < n + 1 then [] else Waiting(st'.plans, r)
    {
      if r > n {
        NextFixes(st, n, p, r);
      }
    }
  }

  /** A block of one word that refers to nothing is that word. */
  lemma SingleWord(st: State, n: nat, j: nat, v: nat)
    requires Built(st, n) && j < n && st.plans[j] == Plan([v], 0, None)
    ensures st.starts[j + 1] == st.starts[j] + 1 <= |st.words| && st.words[st.starts[j]] == v
    ensures st.pos[j] == st.starts[j]
  {
    assert WordSettled(st, j, 0);
  }

  /** A block of one word that waits for instruction r has its field patched with the displacement to r. */
  lemma PatchedWord(st: State, n: nat, j: nat, v: nat, r: nat, field: Field)
    requires Built(st, n) && j < n && r < n && st.plans[j] == Plan([v], 0, Some((r, Fix(st.starts[j], field))))
    ensures st.starts[j + 1] == st.starts[j] + 1 <= |st.words|
    ensures st.words[st.starts[j]] == Patched(v, Fix(st.starts[j], field), st.pos[r])
    ensures st.pos[j] == st.starts[j]
  {
    assert WordSettled(st, j, 0);
  }
}
