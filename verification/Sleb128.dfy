/** The signed LEB128 decoder of the packed relocation reader, for words of w bits.
    The format is that of section 7.6 of DWARF version 4. */
module Sleb128 {
  import opened Bits
  import opened Options

  /** The number that a byte string starts with, and the bytes behind it; none if it does not end. */
  function Read(bs: seq<Byte>): Option<(int, seq<Byte>)> {
    if bs == [] then None
    else if bs[0] < 128 then Some((Signed(bs[0], 64), bs[1..]))
    else
      match Read(bs[1..])
      case None => None
      case Some((v, rest)) => Some((bs[0] - 128 + 128 * v, rest))
  }

  /** The shortest encoding. */
  function Encode(v: int): (bs: seq<Byte>)
    ensures |bs| > 0
    decreases if v < 0 then -v else v
  {
    if -64 <= v < 64 then [v % 128] else [v % 128 + 128] + Encode(v / 128)
  }

  lemma ReadMore(b: Byte, more: seq<Byte>, rest: seq<Byte>)
    requires b >= 128 && Read(more + rest).Some?
    ensures var (v, end) := Read(more + rest).value; Read([b] + more + rest) == Some((b - 128 + 128 * v, end))
  {
    hide Signed;
    var bs: seq<Byte> := [b] + more + rest;
    assert bs[0] == b && bs[1..] == more + rest;
    var tail := more + rest;
    assert Read(bs) == match Read(tail) case None => None case Some((v, end)) => Some((b - 128 + 128 * v, end));
  }

  /** Decoding undoes encoding, for every number and whatever follows. */
  lemma {:induction false} ReadEncode(v: int, rest: seq<Byte>)
    ensures Read(Encode(v) + rest) == Some((v, rest))
    decreases if v < 0 then -v else v
  {
    var bs := Encode(v) + rest;
    if -64 <= v < 64 {
      assert bs[1..] == rest;
    } else {
      ReadEncode(v / 128, rest);
      ReadMore(v % 128 + 128, Encode(v / 128), rest);
    }
  }

  /** What the code keeps of a number: w bits. */
  function Word(v: int, w: nat): nat {
    v % Pow2(w)
  }

  /** The number a byte string starts with as a word, and what is left; everything is consumed if it does not end. */
  function ReadWord(bs: seq<Byte>, w: nat): (Option<nat>, seq<Byte>) {
    match Read(bs)
    case None => (None, [])
    case Some((v, rest)) => (Some(Word(v, w)), rest)
  }

  // ---------- arithmetic of the loop ----------

  /** Shifting into a word of w bits. */
  function ShiftLeft(x: nat, shift: nat, w: nat): nat {
    if shift < w then x * Pow2(shift) % Pow2(w) else 0
  }

  /** Words that differ by a multiple of the modulus are the same. */
  lemma SameWord(x: int, k: int, w: nat)
    ensures Word(x + Pow2(w) * k, w) == Word(x, w)
  {
    var m := Pow2(w);
    assert x == m * (x / m) + x % m;
    Distribute(m, x / m, k);
    assert m * (x / m + k) == m * (x / m) + m * k;
    Remainder(x + m * k, m, x / m + k, x % m);
  }

  lemma Below(lo: int, hi: int, r: int, p: int)
    requires 0 <= r < hi && 0 <= p < lo
    ensures 0 <= p + lo * r < lo * hi
  {
    var d := hi - r;
    Distribute(lo, r, d);
    assert lo * hi == lo * r + lo * d;
    AtLeast(lo, d);
    AtLeast(lo, r);
  }

  lemma ModScaled(lo: int, hi: int, x: int, p: int)
    requires hi > 0 && 0 <= p < lo
    ensures lo * hi > 0 && (p + lo * x) % (lo * hi) == p + lo * (x % hi)
  {
    var q, r := x / hi, x % hi;
    Below(lo, hi, r, p);
    assert x == hi * q + r;
    Distribute(lo, hi, q);
    assert lo * (hi * q + r) == lo * (hi * q) + lo * r;
    Remainder(p + lo * x, lo * hi, q, p + lo * r);
  }

  /** Below bit w, the word of p + 2^shift * x is the or of p and the shifted word, if p is below 2^shift. */
  lemma OrShifted(p: nat, x: nat, shift: nat, w: nat)
    requires shift < w && p < Pow2(shift)
    ensures Or(p, ShiftLeft(x, shift, w)) == Word(p + Pow2(shift) * x, w)
  {
    var lo, hi := Pow2(shift), Pow2(w - shift);
    var r := x % hi;
    Pow2Plus(shift, w - shift);
    ModScaled(lo, hi, x, 0);
    ModScaled(lo, hi, x, p);
    Swap(x, lo);
    Swap(r, lo);
    assert ShiftLeft(x, shift, w) == r * lo;
    hide ShiftLeft, Pow2, Or;
    HighLowApart(r, p, shift);
    OrSwap(p, r * lo);
    OrIsSum(r * lo, p);
  }

  lemma SmallWord(p: nat, shift: nat, w: nat)
    requires p < Pow2(shift) && shift <= w
    ensures Word(p, w) == p
  {
    Pow2Grows(shift, w);
    Remainder(p, Pow2(w), 0, p);
  }

  /** One more group of seven bits. */
  lemma AddBits(p: nat, b: nat, shift: nat, w: nat)
    requires p < Pow2(shift) && b < 128
    ensures p + Pow2(shift) * b < Pow2(shift + 7)
    ensures Or(Word(p, w), ShiftLeft(b, shift, w)) == Word(p + Pow2(shift) * b, w)
  {
    assert Pow2(7) == 128;
    Pow2Plus(shift, 7);
    Below(Pow2(shift), 128, b, p);
    if shift < w {
      SmallWord(p, shift, w);
      OrShifted(p, b, shift, w);
    } else {
      Pow2Plus(w, shift - w);
      Distribute(Pow2(w), Pow2(shift - w), b);
      SameWord(p, Pow2(shift - w) * b, w);
    }
  }

  /** The mask of the bits from shift on: -(1 << shift). */
  function HighBits(shift: nat, w: nat): nat
    requires shift < w
  {
    (Pow2(w - shift) - 1) * Pow2(shift)
  }

  /** Sign extension. */
  lemma AddSign(p: nat, shift: nat, w: nat)
    requires p < Pow2(shift)
    ensures Word(p - Pow2(shift), w) == if shift < w then Or(Word(p, w), HighBits(shift, w)) else Word(p, w)
  {
    var lo: int := Pow2(shift);
    if shift < w {
      var hi: int := Pow2(w - shift);
      SmallWord(p, shift, w);
      Pow2Plus(w - shift, shift);
      Distribute(lo, hi, -1);
      Swap(lo, hi);
      Swap(lo, hi - 1);
      AtLeast(lo, hi - 1);
      Remainder(p - lo, Pow2(w), -1, (hi - 1) * lo + p);
      OrHigh(p, hi - 1, shift);
    } else {
      var k: int := Pow2(shift - w);
      Pow2Plus(w, shift - w);
      Distribute(Pow2(w), k, -1);
      SameWord(p, -k, w);
    }
  }

  lemma OrHigh(p: nat, hi: nat, shift: nat)
    requires p < Pow2(shift)
    ensures Or(p, hi * Pow2(shift)) == hi * Pow2(shift) + p
  {
    HighLowApart(hi, p, shift);
    OrSwap(p, hi * Pow2(shift));
    OrIsSum(hi * Pow2(shift), p);
  }

  // ---------- the decoder ----------

  /** Reading on at rest after the value p of shift bits is reading all. */
  ghost predicate Continues(all: seq<Byte>, p: nat, shift: nat, rest: seq<Byte>) {
    match Read(rest)
    case None => Read(all) == None
    case Some((v, end)) => Read(all) == Some((p + Pow2(shift) * v, end))
  }

  lemma StartReading(all: seq<Byte>, w: nat)
    ensures Continues(all, 0, 0, all) && Word(0, w) == 0 && Pow2(0) == 1
  {
    Remainder(0, Pow2(w), 0, 0);
  }

  lemma NothingLeft(all: seq<Byte>, p: nat, shift: nat)
    ensures Continues(all, p, shift, []) ==> Read(all) == None
  {
  }

  lemma ContinueOn(all: seq<Byte>, p: nat, shift: nat, rest: seq<Byte>)
    requires Continues(all, p, shift, rest) && rest != []
    ensures rest[0] >= 128 ==> Continues(all, p + Pow2(shift) * (rest[0] % 128), shift + 7, rest[1..])
    ensures rest[0] < 128 ==>
      Read(all) == Some((p + Pow2(shift) * rest[0] - (if rest[0] >= 64 then Pow2(shift + 7) else 0), rest[1..]))
  {
    var m, b := Pow2(shift), rest[0] % 128;
    assert Pow2(7) == 128;
    Pow2Plus(shift, 7);
    if rest[0] >= 128 {
      match Read(rest[1..])
      case None =>
      case Some((v, end)) =>
        Distribute(m, 128, v);
        Distribute(m, b, 128 * v);
    } else {
      Distribute(m, b, -128);
    }
  }

  /** xh_elf_sleb128_decoder_t: cur and end as positions in the section. */
  class Decoder {
    const bytes: seq<Byte>
    const w: nat
    var cur: nat

    constructor (bytes: seq<Byte>, w: nat)
      ensures this.bytes == bytes && this.w == w && cur == 0
    {
      this.bytes := bytes;
      this.w := w;
      cur := 0;
    }

    predicate Valid()
      reads this
    {
      cur <= |bytes|
    }

    /** What has not been read yet. */
    function Rest(): seq<Byte>
      requires Valid()
      reads this
    {
      bytes[cur..]
    }

    /** xh_elf_sleb128_decoder_next */
    method Next() returns (r: Option<nat>)
      requires Valid()
      modifies this
      ensures Valid() && (r, Rest()) == ReadWord(old(Rest()), w)
    {
      hide Read, Or, ShiftLeft, HighBits, Continues, Word;
      ghost var all, p: nat := Rest(), 0;
      StartReading(all, w);
      var value: nat, shift: nat, byte: Byte := 0, 0, 128;
      while byte >= 128
        invariant Valid() && p < Pow2(shift) && value == Word(p, w)
        invariant byte >= 128 ==> Continues(all, p, shift, Rest())
        invariant byte < 128 ==> Read(all) == Some((p - (if byte >= 64 then Pow2(shift) else 0), Rest()))
        decreases |bytes| - cur
      {
        if cur >= |bytes| {
          assert Rest() == [];
          NothingLeft(all, p, shift);
          return None;
        }
        ContinueOn(all, p, shift, Rest());
        byte := bytes[cur];
        assert Rest()[1..] == bytes[cur + 1..];
        cur := cur + 1;
        AddBits(p, byte % 128, shift, w);
        value := Or(value, ShiftLeft(byte % 128, shift, w));
        p := p + Pow2(shift) * (byte % 128);
        shift := shift + 7;
      }
      AddSign(p, shift, w);
      if shift < w && byte >= 64 {
        value := Or(value, HighBits(shift, w));
      }
      r := Some(value);
    }
  }
}
