/** The iterator over packed relocations (the APS2 format of Android): groups of relocations whose fields are signed
    LEB128 numbers, some of them given once for the whole group and some as differences to the relocation before. */
module PackedRelocations {
  import opened Bits
  import opened Options
  import opened Sequences
  import opened Sleb128

  predicate GroupedByInfo(flags: nat) { flags % 2 == 1 }

  predicate GroupedByOffsetDelta(flags: nat) { flags / 2 % 2 == 1 }

  predicate GroupedByAddend(flags: nat) { flags / 4 % 2 == 1 }

  predicate GroupHasAddend(flags: nat) { flags / 8 % 2 == 1 }

  /** One relocation, as words; the addend is 0 where the table has none. */
  datatype Entry = Entry(offset: nat, info: nat, addend: nat)

  /** The fields of the iterator, with the bytes that are left. */
  datatype Iter = Iter(rest: seq<Byte>, count: nat, groupSize: nat, groupFlags: nat, groupDelta: nat,
                       index: nat, groupIndex: nat, offset: nat, info: nat, addend: nat)

  function Plus(a: nat, b: nat, w: nat): nat {
    (a + b) % Pow2(w)
  }

  /** Reading into a field: it keeps its value if there is no number to read. */
  function ReadInto(s: Iter, w: nat, field: nat): (bool, nat, Iter) {
    var (v, rest) := ReadWord(s.rest, w);
    (v.Some?, if v.Some? then v.value else field, s.(rest := rest))
  }

  /** xh_elf_packed_reloc_iterator_init */
  function Start(bytes: seq<Byte>, w: nat): Iter {
    var s := Iter(bytes, 0, 0, 0, 0, 0, 0, 0, 0, 0);
    var (ok, count, s1) := ReadInto(s, w, 0);
    if !ok then s1
    else
      var (_, offset, s2) := ReadInto(s1.(count := count), w, 0);
      s2.(offset := offset)
  }

  /** xh_elf_packed_reloc_iterator_read_group_fields */
  function ReadGroupFields(s: Iter, w: nat, rela: bool): (r: (bool, Iter))
    ensures r.1.index == s.index && r.1.count == s.count
  {
    var (ok1, size, s1) := ReadInto(s, w, s.groupSize);
    if !ok1 then (false, s1)
    else
      var (ok2, flags, s2) := ReadInto(s1.(groupSize := size), w, s.groupFlags);
      if !ok2 then (false, s2) else ReadDelta(s2.(groupFlags := flags), w, rela)
  }

  function ReadDelta(s: Iter, w: nat, rela: bool): (r: (bool, Iter))
    ensures r.1.index == s.index && r.1.count == s.count
  {
    if GroupedByOffsetDelta(s.groupFlags) then
      var (ok, delta, s1) := ReadInto(s, w, s.groupDelta);
      if !ok then (false, s1) else ReadInfo(s1.(groupDelta := delta), w, rela)
    else ReadInfo(s, w, rela)
  }

  function ReadInfo(s: Iter, w: nat, rela: bool): (r: (bool, Iter))
    ensures r.1.index == s.index && r.1.count == s.count
  {
    if GroupedByInfo(s.groupFlags) then
      var (ok, info, s1) := ReadInto(s, w, s.info);
      if !ok then (false, s1) else ReadAddend(s1.(info := info), w, rela)
    else ReadAddend(s, w, rela)
  }

  function ReadAddend(s: Iter, w: nat, rela: bool): (r: (bool, Iter))
    ensures r.1.index == s.index && r.1.count == s.count
  {
    if GroupHasAddend(s.groupFlags) && GroupedByAddend(s.groupFlags) then
      if !rela then (false, s)
      else
        var (ok, d, s1) := ReadInto(s, w, 0);
        if !ok then (false, s1) else (true, s1.(addend := Plus(s1.addend, d, w), groupIndex := 0))
    else if !GroupHasAddend(s.groupFlags) then (true, s.(addend := 0, groupIndex := 0))
    else (true, s.(groupIndex := 0))
  }

  /** xh_elf_packed_reloc_iterator_next */
  function Step(s: Iter, w: nat, rela: bool): (r: (Option<Entry>, Iter))
    ensures r.1.count == s.count
    ensures if r.0.Some? then r.1.index == s.index + 1 <= s.count else r.1.index == s.index
  {
    if s.index >= s.count then (None, s)
    else if s.groupIndex == s.groupSize then
      var (ok, s1) := ReadGroupFields(s, w, rela);
      if !ok then (None, s1) else StepOffset(s1, w, rela)
    else StepOffset(s, w, rela)
  }

  function StepOffset(s: Iter, w: nat, rela: bool): (r: (Option<Entry>, Iter))
    ensures r.1.count == s.count
    ensures r.1.index == s.index + if r.0.Some? then 1 else 0
  {
    if GroupedByOffsetDelta(s.groupFlags) then StepInfo(s.(offset := Plus(s.offset, s.groupDelta, w)), w, rela)
    else
      var (ok, d, s1) := ReadInto(s, w, 0);
      if !ok then (None, s1) else StepInfo(s1.(offset := Plus(s1.offset, d, w)), w, rela)
  }

  function StepInfo(s: Iter, w: nat, rela: bool): (r: (Option<Entry>, Iter))
    ensures r.1.count == s.count
    ensures r.1.index == s.index + if r.0.Some? then 1 else 0
  {
    if !GroupedByInfo(s.groupFlags) then
      var (ok, info, s1) := ReadInto(s, w, s.info);
      if !ok then (None, s1) else StepAddend(s1.(info := info), w, rela)
    else StepAddend(s, w, rela)
  }

  function StepAddend(s: Iter, w: nat, rela: bool): (r: (Option<Entry>, Iter))
    ensures r.1.count == s.count
    ensures r.1.index == s.index + if r.0.Some? then 1 else 0
  {
    if rela && GroupHasAddend(s.groupFlags) && !GroupedByAddend(s.groupFlags) then
      var (ok, d, s1) := ReadInto(s, w, 0);
      if !ok then (None, s1) else Deliver(s1.(addend := Plus(s1.addend, d, w)), rela)
    else Deliver(s, rela)
  }

  function Deliver(s: Iter, rela: bool): (r: (Option<Entry>, Iter))
    ensures r.0.Some? && r.1.count == s.count && r.1.index == s.index + 1
  {
    (Some(Entry(s.offset, s.info, if rela then s.addend else 0)), s.(index := s.index + 1, groupIndex := s.groupIndex + 1))
  }

  /** All relocations up to the first NULL: on every byte string there are at most as many as announced. */
  function Run(s: Iter, w: nat, rela: bool): (es: seq<Entry>)
    ensures |es| <= if s.index <= s.count then s.count - s.index else 0
    decreases if s.index <= s.count then s.count - s.index else 0
  {
    var (e, s') := Step(s, w, rela);
    if e.None? then [] else [e.value] + Run(s', w, rela)
  }

  // ---------- packing ----------

  datatype Raw = Raw(delta: int, info: int, addend: int)

  /** A group; the fields that its relocations have of their own are not written. The bits more are those that mean
      nothing. */
  datatype Group = Group(byInfo: bool, byDelta: bool, byAddend: bool, hasAddend: bool, more: nat,
                         delta: int, info: int, addend: int, entries: seq<Raw>)

  /** The flags as a number. */
  function FlagsOf(g: Group): nat {
    (if g.byInfo then 1 else 0) + (if g.byDelta then 2 else 0) + (if g.byAddend then 4 else 0) + (if g.hasAddend then 8 else 0)
    + 16 * g.more
  }

  /** Every flag is found in its bit. */
  lemma FlagsBack(g: Group)
    ensures GroupedByInfo(FlagsOf(g)) == g.byInfo && GroupedByOffsetDelta(FlagsOf(g)) == g.byDelta
    ensures GroupedByAddend(FlagsOf(g)) == g.byAddend && GroupHasAddend(FlagsOf(g)) == g.hasAddend
  {
    var (a, b, c, d) := (OneIf(g.byInfo), OneIf(g.byDelta), OneIf(g.byAddend), OneIf(g.hasAddend));
    assert FlagsOf(g) == a + 2 * (b + 2 * (c + 2 * (d + 2 * g.more)));
    FlagBits(a, b, c, d, g.more);
  }

  function OneIf(b: bool): (n: nat)
    ensures n <= 1
  {
    if b then 1 else 0
  }

  lemma FlagBits(a: nat, b: nat, c: nat, d: nat, m: nat)
    requires a <= 1 && b <= 1 && c <= 1 && d <= 1
    ensures var f := a + 2 * (b + 2 * (c + 2 * (d + 2 * m))); f % 2 == a && f / 2 % 2 == b && f / 4 % 2 == c && f / 8 % 2 == d
  {
    var f := a + 2 * (b + 2 * (c + 2 * (d + 2 * m)));
    assert f / 2 == b + 2 * (c + 2 * (d + 2 * m)) && f / 4 == f / 2 / 2 && f / 8 == f / 4 / 2;
  }

  predicate Legal(g: Group, rela: bool) {
    rela || !(g.hasAddend && g.byAddend)
  }

  function When(written: bool, v: int): seq<Byte> {
    if written then Encode(v) else []
  }

  function PackEntry(g: Group, e: Raw, rela: bool): seq<Byte> {
    When(!g.byDelta, e.delta) + (When(!g.byInfo, e.info)
    + When(rela && g.hasAddend && !g.byAddend, e.addend))
  }

  function PackEntries(g: Group, es: seq<Raw>, rela: bool): seq<Byte> {
    if es == [] then [] else PackEntry(g, es[0], rela) + PackEntries(g, es[1..], rela)
  }

  function PackHeader(g: Group): seq<Byte> {
    Encode(|g.entries|) + (Encode(FlagsOf(g)) + (When(g.byDelta, g.delta)
    + (When(g.byInfo, g.info) + When(g.hasAddend && g.byAddend, g.addend))))
  }

  function PackGroups(gs: seq<Group>, rela: bool): seq<Byte> {
    if gs == [] then []
    else PackHeader(gs[0]) + PackEntries(gs[0], gs[0].entries, rela) + PackGroups(gs[1..], rela)
  }

  function Total(gs: seq<Group>): nat {
    if gs == [] then 0 else |gs[0].entries| + Total(gs[1..])
  }

  function Pack(gs: seq<Group>, offset: int, rela: bool): seq<Byte> {
    Encode(Total(gs)) + Encode(offset) + PackGroups(gs, rela)
  }

  // ---------- the list that a packing stands for ----------

  /** The first relocation of a group starts from the state that the group's own fields give. */
  function Enter(g: Group, at: Entry, w: nat): Entry {
    at.(info := if g.byInfo then g.info % Pow2(w) else at.info,
        addend := if !g.hasAddend then 0
                  else if g.byAddend then (at.addend + g.addend) % Pow2(w) else at.addend)
  }

  function Advance(g: Group, e: Raw, at: Entry, w: nat, rela: bool): Entry {
    Entry((at.offset + if g.byDelta then g.delta else e.delta) % Pow2(w),
          if g.byInfo then at.info else e.info % Pow2(w),
          if rela && g.hasAddend && !g.byAddend then (at.addend + e.addend) % Pow2(w) else at.addend)
  }

  /** What the caller sees of it. */
  function Seen(at: Entry, rela: bool): Entry {
    at.(addend := if rela then at.addend else 0)
  }

  function ListEntries(g: Group, es: seq<Raw>, at: Entry, w: nat, rela: bool): (seq<Entry>, Entry) {
    if es == [] then ([], at)
    else
      var at' := Advance(g, es[0], at, w, rela);
      var (list, last) := ListEntries(g, es[1..], at', w, rela);
      ([Seen(at', rela)] + list, last)
  }

  function List(gs: seq<Group>, at: Entry, w: nat, rela: bool): seq<Entry> {
    if gs == [] then []
    else
      var (list, last) := ListEntries(gs[0], gs[0].entries, Enter(gs[0], at, w), w, rela);
      list + List(gs[1..], last, w, rela)
  }

  // ---------- reading a packing back ----------

  /** The sum of words is the word of the sum. */
  lemma PlusWord(a: nat, b: int, w: nat)
    ensures Plus(a, Word(b, w), w) == (a + b) % Pow2(w) && Word(b, w) == b % Pow2(w)
  {
    var (p, q) := (Pow2(w), b / Pow2(w));
    hide Pow2;
    var r := (a + b % p) % p;
    var k := (a + b % p) / p;
    assert a + b == p * (q + k) + r by {
      Distribute(p, q, k);
    }
    Remainder(a + b, p, q + k, r);
  }

  /** Reading a number that is there. */
  lemma ReadBack(s: Iter, w: nat, field: nat, v: int, tail: seq<Byte>)
    requires s.rest == Encode(v) + tail
    ensures ReadInto(s, w, field) == (true, Word(v, w), s.(rest := tail))
  {
    ReadEncode(v, tail);
  }

  lemma ReadWhen(s: Iter, w: nat, field: nat, written: bool, v: int, tail: seq<Byte>)
    requires s.rest == When(written, v) + tail
    ensures if written then ReadInto(s, w, field) == (true, Word(v, w), s.(rest := tail)) else s.rest == tail
  {
    if written {
      ReadBack(s, w, field, v, tail);
    } else {
      assert [] + tail == tail;
    }
  }

  /** The iterator is inside group g, at the state at. */
  predicate Inside(s: Iter, g: Group, at: Entry, w: nat) {
    && s.groupFlags == FlagsOf(g) && (g.byDelta ==> s.groupDelta == Word(g.delta, w))
    && Entry(s.offset, s.info, s.addend) == at
  }

  lemma EntryBack(s: Iter, g: Group, e: Raw, at: Entry, tail: seq<Byte>, w: nat, rela: bool)
    requires Inside(s, g, at, w) && s.rest == PackEntry(g, e, rela) + tail
    ensures var at' := Advance(g, e, at, w, rela);
      StepOffset(s, w, rela) == (Some(Seen(at', rela)),
        s.(rest := tail, offset := at'.offset, info := at'.info, addend := at'.addend,
           index := s.index + 1, groupIndex := s.groupIndex + 1))
  {
    hide When, Encode, ReadInto, Word, Plus, FlagsOf, Pow2;
    FlagsBack(g);
    PlusWord(at.offset, g.delta, w);
    PlusWord(at.offset, e.delta, w);
    PlusWord(at.addend, e.addend, w);
    PlusWord(0, e.info, w);
    var at' := Advance(g, e, at, w, rela);
    var d, i := When(!g.byDelta, e.delta), When(!g.byInfo, e.info);
    var a := When(rela && g.hasAddend && !g.byAddend, e.addend);
    Regroup(d, i + a, tail);
    Regroup(i, a, tail);
    ReadWhen(s, w, 0, !g.byDelta, e.delta, i + (a + tail));
    var s1 := s.(rest := i + (a + tail), offset := at'.offset);
    ReadWhen(s1, w, s1.info, !g.byInfo, e.info, a + tail);
    var s2 := s1.(rest := a + tail, info := at'.info);
    ReadWhen(s2, w, 0, rela && g.hasAddend && !g.byAddend, e.addend, tail);
    hide GroupedByOffsetDelta, GroupedByInfo, GroupedByAddend, GroupHasAddend;
    assert StepOffset(s, w, rela) == StepInfo(s1, w, rela);
    assert StepInfo(s1, w, rela) == StepAddend(s2, w, rela);
  }

  /** The iterator at the first relocation of group g, its header read. */
  function Entered(s: Iter, g: Group, at: Entry, tail: seq<Byte>, w: nat): Iter {
    var at' := Enter(g, at, w);
    s.(rest := tail, groupSize := |g.entries|, groupFlags := FlagsOf(g), groupIndex := 0,
       groupDelta := if g.byDelta then Word(g.delta, w) else s.groupDelta,
       info := at'.info, addend := at'.addend)
  }

  lemma HeaderBack(s: Iter, g: Group, at: Entry, tail: seq<Byte>, w: nat, rela: bool)
    requires Legal(g, rela) && |g.entries| < Pow2(w) && FlagsOf(g) < Pow2(w)
    requires s.rest == PackHeader(g) + tail && Entry(s.offset, s.info, s.addend) == at
    ensures ReadGroupFields(s, w, rela) == (true, Entered(s, g, at, tail, w))
  {
    hide When, Encode, ReadInto, Word, Plus, FlagsOf, Pow2, GroupedByOffsetDelta, GroupedByInfo, GroupedByAddend, GroupHasAddend;
    var size, flags := Encode(|g.entries|), Encode(FlagsOf(g));
    var hasDelta, hasInfo, hasAddend := g.byDelta, g.byInfo, g.hasAddend && g.byAddend;
    var d, i, a := When(hasDelta, g.delta), When(hasInfo, g.info), When(hasAddend, g.addend);
    Regroup(size, flags + (d + (i + a)), tail);
    Regroup(flags, d + (i + a), tail);
    Regroup(d, i + a, tail);
    Regroup(i, a, tail);
    Small(|g.entries|, w);
    Small(FlagsOf(g), w);
    FlagsBack(g);
    PlusWord(0, g.info, w);
    PlusWord(at.addend, g.addend, w);
    ReadBack(s, w, s.groupSize, |g.entries|, flags + (d + (i + (a + tail))));
    var s1 := s.(rest := flags + (d + (i + (a + tail))), groupSize := |g.entries|);
    ReadBack(s1, w, s1.groupFlags, FlagsOf(g), d + (i + (a + tail)));
    var s2 := s1.(rest := d + (i + (a + tail)), groupFlags := FlagsOf(g));
    ReadWhen(s2, w, s2.groupDelta, hasDelta, g.delta, i + (a + tail));
    var s3 := s2.(rest := i + (a + tail), groupDelta := if hasDelta then Word(g.delta, w) else s.groupDelta);
    ReadWhen(s3, w, s3.info, hasInfo, g.info, a + tail);
    var s4 := s3.(rest := a + tail, info := Enter(g, at, w).info);
    ReadWhen(s4, w, 0, hasAddend, g.addend, tail);
    assert ReadGroupFields(s, w, rela) == ReadDelta(s2, w, rela);
    assert ReadDelta(s2, w, rela) == ReadInfo(s3, w, rela);
    assert ReadInfo(s3, w, rela) == ReadAddend(s4, w, rela);
  }

  lemma Small(v: nat, w: nat)
    requires v < Pow2(w)
    ensures Word(v, w) == v
  {
    Remainder(v, Pow2(w), 0, v);
  }

  /** The iterator behind the relocations es of its group. */
  function Past(s: Iter, es: seq<Raw>, last: Entry, tail: seq<Byte>): Iter {
    s.(rest := tail, index := s.index + |es|, groupIndex := s.groupIndex + |es|,
       offset := last.offset, info := last.info, addend := last.addend)
  }

  lemma {:induction false} EntriesBack(s: Iter, g: Group, es: seq<Raw>, at: Entry, tail: seq<Byte>, w: nat, rela: bool)
    requires Inside(s, g, at, w) && s.rest == PackEntries(g, es, rela) + tail
    requires s.groupIndex + |es| == s.groupSize && s.index + |es| <= s.count
    ensures var (list, last) := ListEntries(g, es, at, w, rela);
      Run(s, w, rela) == list + Run(Past(s, es, last, tail), w, rela)
    decreases |es|
  {
    hide PackEntry, Advance, StepOffset, ReadGroupFields, GroupedByOffsetDelta;
    if es == [] {
      assert [] + tail == tail;
      assert [] + Run(s, w, rela) == Run(s, w, rela);
    } else {
      var rest := PackEntries(g, es[1..], rela) + tail;
      Regroup(PackEntry(g, es[0], rela), PackEntries(g, es[1..], rela), tail);
      EntryBack(s, g, es[0], at, rest, w, rela);
      var at' := Advance(g, es[0], at, w, rela);
      var s' := Past(s, es[..1], at', rest);
      assert Step(s, w, rela) == (Some(Seen(at', rela)), s');
      EntriesBack(s', g, es[1..], at', tail, w, rela);
      var (list, last) := ListEntries(g, es[1..], at', w, rela);
      assert Past(s', es[1..], last, tail) == Past(s, es, last, tail);
      var end := Run(Past(s, es, last, tail), w, rela);
      assert [Seen(at', rela)] + (list + end) == [Seen(at', rela)] + list + end;
    }
  }

  /** Empty groups are only at the end. */
  predicate EmptyLast(gs: seq<Group>) {
    forall i, j :: 0 <= i < j < |gs| && gs[i].entries == [] ==> gs[j].entries == []
  }

  lemma {:induction false} OnlyEmpty(gs: seq<Group>, at: Entry, w: nat, rela: bool)
    requires forall i :: 0 <= i < |gs| ==> gs[i].entries == []
    ensures Total(gs) == 0 && List(gs, at, w, rela) == []
  {
    hide Enter;
    if gs != [] {
      OnlyEmpty(gs[1..], Enter(gs[0], at, w), w, rela);
    }
  }

  lemma {:induction false} GroupsBack(s: Iter, gs: seq<Group>, at: Entry, tail: seq<Byte>, w: nat, rela: bool)
    requires EmptyLast(gs) && forall g :: g in gs ==> Legal(g, rela) && FlagsOf(g) < Pow2(w)
    requires s.groupIndex == s.groupSize && s.index + Total(gs) == s.count < Pow2(w)
    requires s.rest == PackGroups(gs, rela) + tail && Entry(s.offset, s.info, s.addend) == at
    ensures Run(s, w, rela) == List(gs, at, w, rela)
    decreases |gs|
  {
    hide PackHeader, PackEntries, ListEntries, StepOffset, ReadGroupFields, GroupedByOffsetDelta, Legal, Enter;
    if gs == [] || gs[0].entries == [] {
      OnlyEmpty(gs, at, w, rela);
    } else {
      var g := gs[0];
      var header, body, more := PackHeader(g), PackEntries(g, g.entries, rela), PackGroups(gs[1..], rela) + tail;
      Regroup(header + body, PackGroups(gs[1..], rela), tail);
      Regroup(header, body, more);
      HeaderBack(s, g, at, body + more, w, rela);
      var s1 := Entered(s, g, at, body + more, w);
      assert Step(s, w, rela) == Step(s1, w, rela);
      EnteredInside(s, g, at, body + more, w);
      EntriesBack(s1, g, g.entries, Enter(g, at, w), more, w, rela);
      var (list, last) := ListEntries(g, g.entries, Enter(g, at, w), w, rela);
      GroupsBack(Past(s1, g.entries, last, more), gs[1..], last, tail, w, rela);
    }
  }

  /** Reading a packing yields exactly the list that was packed, and then NULL, if no empty group is in front of another
      one that is not; whatever follows is not read. */
  lemma RoundTrip(gs: seq<Group>, offset: int, tail: seq<Byte>, w: nat, rela: bool)
    requires EmptyLast(gs) && forall g :: g in gs ==> Legal(g, rela) && FlagsOf(g) < Pow2(w)
    requires Total(gs) < Pow2(w)
    ensures Run(Start(Pack(gs, offset, rela) + tail, w), w, rela) == List(gs, Entry(Word(offset, w), 0, 0), w, rela)
  {
    var count, start, body := Encode(Total(gs)), Encode(offset), PackGroups(gs, rela) + tail;
    Regroup(count + start, PackGroups(gs, rela), tail);
    Regroup(count, start, body);
    hide PackGroups, Encode, Run, List, Word, ReadInto, EmptyLast;
    var s := Iter(Pack(gs, offset, rela) + tail, 0, 0, 0, 0, 0, 0, 0, 0, 0);
    ReadBack(s, w, 0, Total(gs), start + body);
    Small(Total(gs), w);
    var s1 := s.(rest := start + body, count := Total(gs));
    ReadBack(s1, w, 0, offset, body);
    GroupsBack(s1.(rest := body, offset := Word(offset, w)), gs, Entry(Word(offset, w), 0, 0), tail, w, rela);
  }

  // ---------- empty groups ----------

  /** The numbers in the header of a group. */
  function HeaderNumbers(g: Group): (ns: seq<int>)
    ensures |ns| >= 2
  {
    [|g.entries|, FlagsOf(g)] + (if g.byDelta then [g.delta] else [])
    + (if g.byInfo then [g.info] else [])
    + (if g.hasAddend && g.byAddend then [g.addend] else [])
  }

  function EncodeAll(ns: seq<int>): seq<Byte> {
    if ns == [] then [] else Encode(ns[0]) + EncodeAll(ns[1..])
  }

  lemma {:induction false} EncodeBoth(a: seq<int>, b: seq<int>)
    ensures EncodeAll(a + b) == EncodeAll(a) + EncodeAll(b)
  {
    hide Encode;
    if a == [] {
      assert a + b == b && [] + EncodeAll(b) == EncodeAll(b);
    } else {
      EncodeBoth(a[1..], b);
      assert (a + b)[1..] == a[1..] + b;
      Regroup(Encode(a[0]), EncodeAll(a[1..]), EncodeAll(b));
    }
  }

  lemma EncodeWhen(written: bool, n: int)
    ensures EncodeAll(if written then [n] else []) == When(written, n)
  {
    hide Encode;
    assert written ==> [n][1..] == [] && Encode(n) + [] == Encode(n);
  }

  lemma HeaderIs(g: Group)
    ensures PackHeader(g) == EncodeAll(HeaderNumbers(g))
  {
    var hasDelta, hasInfo, hasAddend := g.byDelta, g.byInfo, g.hasAddend && g.byAddend;
    hide Encode, EncodeAll, When, GroupedByOffsetDelta, GroupedByInfo, GroupedByAddend, GroupHasAddend;
    var n: int, f: int := |g.entries|, FlagsOf(g);
    var d := if hasDelta then [g.delta] else [];
    var i := if hasInfo then [g.info] else [];
    var a := if hasAddend then [g.addend] else [];
    assert HeaderNumbers(g) == [n] + ([f] + (d + (i + a)));
    EncodeBoth([n], [f] + (d + (i + a)));
    EncodeBoth([f], d + (i + a));
    EncodeBoth(d, i + a);
    EncodeBoth(i, a);
    EncodeWhen(hasDelta, g.delta);
    EncodeWhen(hasInfo, g.info);
    EncodeWhen(hasAddend, g.addend);
    EncodeWhen(true, n);
    EncodeWhen(true, f);
    assert When(true, n) == Encode(n) && When(true, f) == Encode(f) by {
      Written(n);
      Written(f);
    }
  }

  lemma Written(n: int)
    ensures When(true, n) == Encode(n)
  {
    hide Encode;
  }

  predicate OwnAddend(g: Group, rela: bool) {
    rela && g.hasAddend && !g.byAddend
  }

  /** How many numbers are read for a relocation under the flags. */
  function Reads(g: Group, rela: bool): nat {
    (if g.byDelta then 0 else 1) + (if g.byInfo then 0 else 1) + if OwnAddend(g, rela) then 1 else 0
  }

  /** The next number if it is wanted, and the others. */
  function Take(ns: seq<int>, wanted: bool): (int, seq<int>) {
    if wanted && ns != [] then (ns[0], ns[1..]) else (0, ns)
  }

  /** The relocation that the first of the numbers are read as, and the numbers behind it. */
  function ReadAs(g: Group, ns: seq<int>, rela: bool): (Raw, seq<int>) {
    var (delta, ns1) := Take(ns, !g.byDelta);
    var (info, ns2) := Take(ns1, !g.byInfo);
    var (addend, ns3) := Take(ns2, OwnAddend(g, rela));
    (Raw(delta, info, addend), ns3)
  }

  lemma Taken(ns: seq<int>, wanted: bool)
    requires wanted ==> ns != []
    ensures EncodeAll(ns) == When(wanted, Take(ns, wanted).0) + EncodeAll(Take(ns, wanted).1)
    ensures |Take(ns, wanted).1| == |ns| - if wanted then 1 else 0
  {
    hide Encode;
    if !wanted {
      assert [] + EncodeAll(ns) == EncodeAll(ns);
    }
  }

  lemma Chain(n0: seq<Byte>, d: seq<Byte>, n1: seq<Byte>, i: seq<Byte>, n2: seq<Byte>, a: seq<Byte>, n3: seq<Byte>)
    requires n0 == d + n1 && n1 == i + n2 && n2 == a + n3
    ensures n0 == d + (i + a) + n3
  {
    Regroup(i, a, n3);
    Regroup(d, i + a, n3);
  }

  lemma EntryOf(g: Group, ns: seq<int>, rela: bool)
    requires Reads(g, rela) <= |ns|
    ensures EncodeAll(ns) == PackEntry(g, ReadAs(g, ns, rela).0, rela) + EncodeAll(ReadAs(g, ns, rela).1)
  {
    hide Encode, EncodeAll, When, Take, GroupedByOffsetDelta, GroupedByInfo, GroupedByAddend, GroupHasAddend;
    var ownD, ownI, ownA := !g.byDelta, !g.byInfo, OwnAddend(g, rela);
    Taken(ns, ownD);
    var n1 := Take(ns, ownD).1;
    Taken(n1, ownI);
    var n2 := Take(n1, ownI).1;
    Taken(n2, ownA);
    Chain(EncodeAll(ns), When(ownD, Take(ns, ownD).0), EncodeAll(n1), When(ownI, Take(n1, ownI).0), EncodeAll(n2),
      When(ownA, Take(n2, ownA).0), EncodeAll(Take(n2, ownA).1));
  }

  /** Behind an empty group g the header of its successor h is read as a relocation of g: the step delivers what the
      first numbers of that header mean under the flags of g. */
  lemma EmptyGroupMisread(s: Iter, g: Group, h: Group, at: Entry, tail: seq<Byte>, w: nat, rela: bool)
    requires g.entries == [] && Legal(g, rela) && FlagsOf(g) < Pow2(w) && Reads(g, rela) <= |HeaderNumbers(h)|
    requires s.groupIndex == s.groupSize && s.index < s.count && Entry(s.offset, s.info, s.addend) == at
    requires s.rest == PackHeader(g) + (PackHeader(h) + tail)
    ensures Step(s, w, rela).0
      == Some(Seen(Advance(g, ReadAs(g, HeaderNumbers(h), rela).0, Enter(g, at, w), w, rela), rela))
  {
    hide PackHeader, PackEntry, HeaderNumbers, EncodeAll, Reads, ReadAs, Advance, Enter, StepOffset, ReadGroupFields, Legal, Seen;
    var ns := HeaderNumbers(h);
    var e, more := ReadAs(g, ns, rela).0, EncodeAll(ReadAs(g, ns, rela).1);
    HeaderIs(h);
    EntryOf(g, ns, rela);
    Regroup(PackEntry(g, e, rela), more, tail);
    HeaderBack(s, g, at, PackHeader(h) + tail, w, rela);
    var s1 := Entered(s, g, at, PackHeader(h) + tail, w);
    EnteredInside(s, g, at, PackHeader(h) + tail, w);
    EntryBack(s1, g, e, Enter(g, at, w), more + tail, w, rela);
  }

  lemma EnteredInside(s: Iter, g: Group, at: Entry, tail: seq<Byte>, w: nat)
    requires Entry(s.offset, s.info, s.addend) == at
    ensures Inside(Entered(s, g, at, tail, w), g, Enter(g, at, w), w)
  {
    FlagsBack(g);
  }

  /** A number of one byte. */
  lemma ReadDigit(s: Iter, w: nat, field: nat, b: Byte, tail: seq<Byte>)
    requires b < 64 <= Pow2(w) && s.rest == [b] + tail
    ensures ReadInto(s, w, field) == (true, b, s.(rest := tail))
  {
    Small(b, w);
    assert Encode(b) == [b];
    ReadBack(s, w, field, b, tail);
  }

  /** So the relocations that are read may differ from those that were packed. */
  lemma EmptyGroupBreaks(w: nat)
    requires w >= 6
    ensures var gs := [Group(false, false, false, false, 0, 0, 0, 0, []), Group(true, true, false, false, 0, 4, 7, 0, [Raw(0, 0, 0)])];
      && Run(Start(Pack(gs, 0, false), w), w, false) == [Entry(1, 3, 0)]
      && List(gs, Entry(0, 0, 0), w, false) == [Entry(4, 7, 0)]
  {
    assert Pow2(6) == 64;
    Pow2Grows(6, w);
    hide Pack, Run, List, Start;
    MisreadBytes();
    MisreadRun(Iter([1, 0, 0, 0, 1, 3, 4, 7], 0, 0, 0, 0, 0, 0, 0, 0, 0), w);
    MisreadList(w);
  }

  lemma MisreadList(w: nat)
    requires 64 <= Pow2(w)
    ensures List([Group(false, false, false, false, 0, 0, 0, 0, []), Group(true, true, false, false, 0, 4, 7, 0, [Raw(0, 0, 0)])], Entry(0, 0, 0), w, false) == [Entry(4, 7, 0)]
  {
    var empty, full, none := Group(false, false, false, false, 0, 0, 0, 0, []), Group(true, true, false, false, 0, 4, 7, 0, [Raw(0, 0, 0)]), Entry(0, 0, 0);
    Small(7, w);
    Small(4, w);
    hide Pow2, Word;
    assert Plus(0, 4, w) == Word(4, w);
    hide Plus;
    assert Enter(empty, none, w) == none && Enter(full, none, w) == Entry(0, 7, 0);
    assert Advance(full, full.entries[0], Entry(0, 7, 0), w, false) == Entry(4, 7, 0);
    hide Enter, Advance;
    assert full.entries[1..] == [] && [empty, full][1..] == [full] && [full][1..] == [];
    assert ListEntries(full, [], Entry(4, 7, 0), w, false) == ([], Entry(4, 7, 0));
    assert List([], Entry(4, 7, 0), w, false) == [];
    assert List([full], none, w, false) == [Entry(4, 7, 0)];
  }

  lemma MisreadHeaders()
    ensures PackHeader(Group(false, false, false, false, 0, 0, 0, 0, [])) == [0, 0]
    ensures PackHeader(Group(true, true, false, false, 0, 4, 7, 0, [Raw(0, 0, 0)])) == [1, 3, 4, 7]
  {
    assert Encode(0) == [0] && Encode(1) == [1] && Encode(3) == [3] && Encode(4) == [4] && Encode(7) == [7];
    hide Encode;
    assert [0] + ([0] + ([] + ([] + []))) == [0, 0];
    assert [1] + ([3] + ([4] + ([7] + []))) == [1, 3, 4, 7];
  }

  lemma MisreadBytes()
    ensures Pack([Group(false, false, false, false, 0, 0, 0, 0, []), Group(true, true, false, false, 0, 4, 7, 0, [Raw(0, 0, 0)])], 0, false) == [1, 0, 0, 0, 1, 3, 4, 7]
  {
    var empty, full := Group(false, false, false, false, 0, 0, 0, 0, []), Group(true, true, false, false, 0, 4, 7, 0, [Raw(0, 0, 0)]);
    MisreadHeaders();
    assert Encode(1) == [1] && Encode(0) == [0];
    hide Encode, PackHeader;
    assert full.entries[1..] == [];
    assert PackEntries(full, full.entries, false) == [] && PackEntries(empty, [], false) == [];
    hide PackEntries, PackEntry;
    assert [empty, full][1..] == [full] && [full][1..] == [];
    assert PackGroups([full], false) == [1, 3, 4, 7];
    assert PackGroups([empty, full], false) == [0, 0, 1, 3, 4, 7];
    hide PackGroups;
    assert Total([full]) == 1 && Total([empty, full]) == 1;
  }

  lemma MisreadRun(s: Iter, w: nat)
    requires 64 <= Pow2(w) && s == Iter([1, 0, 0, 0, 1, 3, 4, 7], 0, 0, 0, 0, 0, 0, 0, 0, 0)
    ensures Run(Start([1, 0, 0, 0, 1, 3, 4, 7], w), w, false) == [Entry(1, 3, 0)]
  {
    ReadDigit(s, w, 0, 1, [0, 0, 0, 1, 3, 4, 7]);
    var s1 := s.(rest := [0, 0, 0, 1, 3, 4, 7], count := 1);
    ReadDigit(s1, w, 0, 0, [0, 0, 1, 3, 4, 7]);
    var s2 := s1.(rest := [0, 0, 1, 3, 4, 7]);
    hide ReadInto, Step;
    MisreadStep(s2, w);
    var s6 := s2.(rest := [4, 7], offset := 1, info := 3, index := 1, groupIndex := 1);
    AtEnd(s6, w, false);
  }

  lemma AtEnd(s: Iter, w: nat, rela: bool)
    requires s.index >= s.count
    ensures Run(s, w, rela) == []
  {
  }

  lemma MisreadStep(s: Iter, w: nat)
    requires 64 <= Pow2(w) && s == Iter([0, 0, 1, 3, 4, 7], 1, 0, 0, 0, 0, 0, 0, 0, 0)
    ensures Step(s, w, false) == (Some(Entry(1, 3, 0)), s.(rest := [4, 7], offset := 1, info := 3, index := 1, groupIndex := 1))
  {
    ReadDigit(s, w, 0, 0, [0, 1, 3, 4, 7]);
    var s3 := s.(rest := [0, 1, 3, 4, 7]);
    ReadDigit(s3, w, 0, 0, [1, 3, 4, 7]);
    var s4 := s3.(rest := [1, 3, 4, 7]);
    ReadDigit(s4, w, 0, 1, [3, 4, 7]);
    Small(1, w);
    var s5 := s4.(rest := [3, 4, 7], offset := 1);
    ReadDigit(s5, w, 0, 3, [4, 7]);
    assert Plus(0, 1, w) == Word(1, w);
    hide ReadInto, Pow2, Plus;
    assert ReadGroupFields(s, w, false) == (true, s4);
  }

  // ---------- the iterator itself ----------

  /** xh_elf_packed_reloc_iterator_t */
  class Iterator {
    const decoder: Decoder
    const rela: bool
    var relocationCount: nat
    var groupSize: nat
    var groupFlags: nat
    var groupROffsetDelta: nat
    var relocationIndex: nat
    var relocationGroupIndex: nat
    var rOffset: nat
    var rInfo: nat
    var rAddend: nat

    ghost predicate Valid()
      reads this, decoder
    {
      decoder.Valid()
    }

    ghost function State(): Iter
      requires Valid()
      reads this, decoder
    {
      Iter(decoder.Rest(), relocationCount, groupSize, groupFlags, groupROffsetDelta,
           relocationIndex, relocationGroupIndex, rOffset, rInfo, rAddend)
    }

    /** A failure leaves what has been read; the callers of the iterator do not look at it. */
    constructor (bytes: seq<Byte>, w: nat, rela: bool)
      ensures Valid() && fresh(decoder) && decoder.w == w && this.rela == rela && State() == Start(bytes, w)
    {
      decoder := new Decoder(bytes, w);
      this.rela := rela;
      relocationCount, groupSize, groupFlags, groupROffsetDelta := 0, 0, 0, 0;
      relocationIndex, relocationGroupIndex, rOffset, rInfo, rAddend := 0, 0, 0, 0, 0;
      new;
      assert decoder.Rest() == bytes;
      var count := decoder.Next();
      if count == None {
        return;
      }
      relocationCount := count.value;
      var offset := decoder.Next();
      if offset == None {
        return;
      }
      rOffset := offset.value;
    }

    method NextGroup() returns (ok: bool)
      requires Valid()
      modifies this, decoder
      ensures Valid() && (ok, State()) == ReadGroupFields(old(State()), decoder.w, rela)
    {
      hide ReadWord, Plus;
      var v := decoder.Next();
      if v == None { return false; }
      groupSize := v.value;
      v := decoder.Next();
      if v == None { return false; }
      groupFlags := v.value;
      if GroupedByOffsetDelta(groupFlags) {
        v := decoder.Next();
        if v == None { return false; }
        groupROffsetDelta := v.value;
      }
      if GroupedByInfo(groupFlags) {
        v := decoder.Next();
        if v == None { return false; }
        rInfo := v.value;
      }
      if GroupHasAddend(groupFlags) && GroupedByAddend(groupFlags) {
        if !rela { return false; }
        v := decoder.Next();
        if v == None { return false; }
        rAddend := Plus(rAddend, v.value, decoder.w);
      } else if !GroupHasAddend(groupFlags) {
        rAddend := 0;
      }
      relocationGroupIndex := 0;
      ok := true;
    }

    method Next() returns (r: Option<Entry>)
      requires Valid()
      modifies this, decoder
      ensures Valid() && (r, State()) == Step(old(State()), decoder.w, rela)
    {
      hide ReadGroupFields, StepOffset;
      if relocationIndex >= relocationCount { return None; }
      if relocationGroupIndex == groupSize {
        var ok := NextGroup();
        if !ok { return None; }
      }
      r := NextInGroup();
    }

    method NextInGroup() returns (r: Option<Entry>)
      requires Valid()
      modifies this, decoder
      ensures Valid() && (r, State()) == StepOffset(old(State()), decoder.w, rela)
    {
      hide ReadWord, Plus;
      var v;
      if GroupedByOffsetDelta(groupFlags) {
        rOffset := Plus(rOffset, groupROffsetDelta, decoder.w);
      } else {
        v := decoder.Next();
        if v == None { return None; }
        rOffset := Plus(rOffset, v.value, decoder.w);
      }
      if !GroupedByInfo(groupFlags) {
        v := decoder.Next();
        if v == None { return None; }
        rInfo := v.value;
      }
      if rela && GroupHasAddend(groupFlags) && !GroupedByAddend(groupFlags) {
        v := decoder.Next();
        if v == None { return None; }
        rAddend := Plus(rAddend, v.value, decoder.w);
      }
      relocationIndex := relocationIndex + 1;
      relocationGroupIndex := relocationGroupIndex + 1;
      r := Some(Entry(rOffset, rInfo, if rela then rAddend else 0));
    }
  }

  lemma RunOne(s: Iter, w: nat, rela: bool)
    ensures var (e, s') := Step(s, w, rela);
      Run(s, w, rela) == if e == None then [] else [e.value] + Run(s', w, rela)
  {
  }

  /** The loop of the hook over a packed table: it ends, and sees at most as many relocations as announced. */
  method ReadAll(bytes: seq<Byte>, w: nat, rela: bool) returns (es: seq<Entry>)
    ensures es == Run(Start(bytes, w), w, rela) && |es| <= Start(bytes, w).count
  {
    hide Step, Run, Start;
    var it := new Iterator(bytes, w, rela);
    es := [];
    ghost var all := Run(it.State(), w, rela);
    assert it.relocationIndex == 0 by {
      StartIndex(bytes, w);
    }
    while true
      invariant it.Valid() && fresh(it) && fresh(it.decoder) && it.decoder.w == w && it.rela == rela
      invariant es + Run(it.State(), w, rela) == all
      decreases it.relocationCount - it.relocationIndex
    {
      RunOne(it.State(), w, rela);
      ghost var before := es;
      var e := it.Next();
      if e == None {
        break;
      }
      es := es + [e.value];
      assert before + ([e.value] + Run(it.State(), w, rela)) == es + Run(it.State(), w, rela);
    }
    StartIndex(bytes, w);
  }

  lemma StartIndex(bytes: seq<Byte>, w: nat)
    ensures Start(bytes, w).index == 0
  {
  }
}
