/** Symbol lookup through the GNU hash table, by name and by address, against a linear scan of the symbol table. */
module GnuHash {
  import opened Bits
  import opened Options

  /** A name without its terminating zero. */
  type Name = seq<Byte>

  datatype Sym = Sym(name: Name, value: nat, size: nat, tls: bool)

  /** The parts of DT_GNU_HASH, and the symbols; bits is the width of a word of the bloom filter. */
  datatype Table = Table(bits: nat, bloom: seq<nat>, bloomShift: nat, buckets: seq<nat>, symoffset: nat,
                         chain: seq<nat>, syms: seq<Sym>)

  function Hash(name: Name): (h: nat)
    ensures h < 0x1_0000_0000
  {
    if name == [] then 5381
    else
      var h := Hash(name[..|name| - 1]);
      (h + h * 32 % 0x1_0000_0000 + name[|name| - 1]) % 0x1_0000_0000
  }

  /** xh_elf_gnu_hash */
  method ComputeHash(name: Name) returns (h: nat)
    ensures h == Hash(name)
  {
    h := 5381;
    for i := 0 to |name|
      invariant h == Hash(name[..i])
    {
      assert name[..i + 1][..i] == name[..i];
      h := (h + h * 32 % 0x1_0000_0000 + name[i]) % 0x1_0000_0000;
    }
    assert name[..|name|] == name;
  }

  function Pow33(n: nat): nat {
    if n == 0 then 1 else 33 * Pow33(n - 1)
  }

  /** The bytes of a name as digits to the base 33, the first one in front. */
  function Digits(name: Name): nat {
    if name == [] then 0 else name[0] * Pow33(|name| - 1) + Digits(name[1..])
  }

  /** The hash in closed form: 5381 in front of these digits, of which 32 bits are kept. */
  lemma {:induction false} HashIs(name: Name)
    ensures Hash(name) == (5381 * Pow33(|name|) + Digits(name)) % 0x1_0000_0000
  {
    if name != [] {
      var n := |name| - 1;
      HashIs(name[..n]);
      LastDigit(name);
      HashStep(5381 * Pow33(n) + Digits(name[..n]), name[n]);
    }
  }

  lemma HashStep(x: nat, b: Byte)
    ensures var h := x % 0x1_0000_0000; (h + h * 32 % 0x1_0000_0000 + b) % 0x1_0000_0000 == (33 * x + b) % 0x1_0000_0000
  {
    var (q, h) := (x / 0x1_0000_0000, x % 0x1_0000_0000);
    var m := h * 32 / 0x1_0000_0000;
    assert 33 * x + b == 0x1_0000_0000 * (33 * q + m) + (h + h * 32 % 0x1_0000_0000 + b);
    var y := h + h * 32 % 0x1_0000_0000 + b;
    Remainder(33 * x + b, 0x1_0000_0000, 33 * q + m + y / 0x1_0000_0000, y % 0x1_0000_0000);
  }

  lemma {:induction false} LastDigit(name: Name)
    requires name != []
    ensures Digits(name) == 33 * Digits(name[..|name| - 1]) + name[|name| - 1]
  {
    var n := |name| - 1;
    if n > 0 {
      LastDigit(name[1..]);
      assert name[1..][..n - 1] == name[..n][1..] && name[..n][0] == name[0];
      Distribute(33, name[0], Pow33(n - 1));
      Distribute(name[0], 33, Pow33(n - 1));
      Swap(33, name[0]);
    } else {
      assert name[1..] == [] && name[..0] == [] && Pow33(0) == 1;
    }
  }

  // ---------- bits ----------

  function And(a: nat, b: nat): nat {
    if a == 0 || b == 0 then 0 else (if a % 2 == 1 && b % 2 == 1 then 1 else 0) + 2 * And(a / 2, b / 2)
  }

  predicate Bit(a: nat, k: nat) {
    if k == 0 then a % 2 == 1 else Bit(a / 2, k - 1)
  }

  lemma {:induction false} OneBit(a: nat, k: nat)
    ensures And(a, Pow2(k)) == Pow2(k) <==> Bit(a, k)
  {
    if k > 0 {
      OneBit(a / 2, k - 1);
      if a == 0 {
        NoBit(k - 1);
      }
    }
  }

  lemma {:induction false} NoBit(k: nat)
    ensures !Bit(0, k)
  {
    if k > 0 {
      NoBit(k - 1);
    }
  }

  lemma AndHalves(a: nat, m: nat)
    requires m > 0
    ensures And(a, m) == m <==> (m % 2 == 1 ==> a % 2 == 1) && And(a / 2, m / 2) == m / 2
  {
  }

  lemma OrHalves(a: nat, b: nat)
    ensures Or(a, b) % 2 == (if a % 2 == 1 || b % 2 == 1 then 1 else 0) && Or(a, b) / 2 == Or(a / 2, b / 2)
    ensures a > 0 ==> Or(a, b) > 0
  {
    OrPositive(a, b);
  }

  lemma {:induction false} OrPositive(a: nat, b: nat)
    ensures a > 0 ==> Or(a, b) > 0
  {
    if a > 1 && b != 0 {
      OrPositive(a / 2, b / 2);
    }
  }

  /** (word & mask) == mask for a mask of two bits: both are set. */
  lemma {:induction false} TwoBits(word: nat, j: nat, k: nat)
    ensures var mask := Or(Pow2(j), Pow2(k)); And(word, mask) == mask <==> Bit(word, j) && Bit(word, k)
    decreases j + k
  {
    OrHalves(Pow2(j), Pow2(k));
    AndHalves(word, Or(Pow2(j), Pow2(k)));
    hide Or, And;
    if j == 0 && k == 0 {
      OneBit(word, 0);
      OrZero(0);
      OneBit(word / 2, 0);
      AndZero(word / 2);
    } else if j == 0 {
      OrZero(Pow2(k - 1));
      OneBit(word / 2, k - 1);
    } else if k == 0 {
      OrZero(Pow2(j - 1));
      OneBit(word / 2, j - 1);
    } else {
      TwoBits(word / 2, j - 1, k - 1);
    }
  }

  lemma OrZero(a: nat)
    ensures Or(0, a) == a && Or(a, 0) == a
  {
  }

  lemma AndZero(a: nat)
    ensures And(a, 0) == 0
  {
  }

  // ---------- well-formed tables ----------

  function BucketOf(t: Table, i: nat): nat
    requires i < |t.syms| && |t.buckets| > 0
  {
    Hash(t.syms[i].name) % |t.buckets|
  }

  /** The two bits of a hash in its bloom word. */
  predicate InBloom(t: Table, h: nat)
    requires |t.bloom| > 0 && t.bits > 0
  {
    var word := t.bloom[h / t.bits % |t.bloom|];
    Bit(word, h % t.bits) && Bit(word, ShiftRight(h, t.bloomShift) % t.bits)
  }

  /** What the table says about the hashed symbol i: its chain word is its hash but for the lowest bit, which marks the
      end of its bucket; it is in the bloom filter; the buckets are in order. */
  ghost predicate Entered(t: Table, i: nat)
    requires t.symoffset <= i < |t.syms| == t.symoffset + |t.chain| && |t.buckets| > 0 && |t.bloom| > 0 && t.bits > 0
  {
    var c := t.chain[i - t.symoffset];
    && c / 2 == Hash(t.syms[i].name) / 2
    && (c % 2 == 1 <==> i + 1 == |t.syms| || BucketOf(t, i + 1) != BucketOf(t, i))
    && InBloom(t, Hash(t.syms[i].name))
    && (i + 1 < |t.syms| ==> BucketOf(t, i) <= BucketOf(t, i + 1))
  }

  /** A bucket names the first of its symbols; an empty one names none of the hashed symbols. */
  ghost predicate Heads(t: Table, b: nat)
    requires b < |t.buckets| && t.symoffset <= |t.syms|
  {
    var n := t.buckets[b];
    if n < t.symoffset then forall i :: t.symoffset <= i < |t.syms| ==> BucketOf(t, i) != b
    else n < |t.syms| && BucketOf(t, n) == b && forall i :: t.symoffset <= i < n ==> BucketOf(t, i) != b
  }

  ghost predicate WellFormed(t: Table) {
    && t.symoffset <= |t.syms| == t.symoffset + |t.chain| && |t.buckets| > 0 && |t.bloom| > 0 && t.bits > 0
    && (forall i :: t.symoffset <= i < |t.syms| ==> Entered(t, i))
    && (forall b :: 0 <= b < |t.buckets| ==> Heads(t, b))
  }

  // ---------- linear scans ----------

  /** The lowest index from lo up to hi of a symbol with this name. */
  function First(syms: seq<Sym>, name: Name, lo: nat, hi: nat): (r: Option<nat>)
    requires lo <= hi <= |syms|
    ensures match r
      case Some(i) => lo <= i < hi && syms[i].name == name && forall j :: lo <= j < i ==> syms[j].name != name
      case None => forall j :: lo <= j < hi ==> syms[j].name != name
    decreases hi - lo
  {
    if lo == hi then None else if syms[lo].name == name then Some(lo) else First(syms, name, lo + 1, hi)
  }

  lemma {:induction false} SkipTo(syms: seq<Sym>, name: Name, lo: nat, mid: nat, hi: nat)
    requires lo <= mid <= hi <= |syms| && forall j :: lo <= j < mid ==> syms[j].name != name
    ensures First(syms, name, lo, hi) == First(syms, name, mid, hi)
    decreases mid - lo
  {
    if lo < mid {
      SkipTo(syms, name, lo + 1, mid, hi);
    }
  }

  lemma {:induction false} Ordered(t: Table, i: nat, j: nat)
    requires WellFormed(t) && t.symoffset <= i <= j < |t.syms|
    ensures BucketOf(t, i) <= BucketOf(t, j)
    decreases j - i
  {
    if i < j {
      Ordered(t, i, j - 1);
      assert Entered(t, j - 1);
    }
  }

  // ---------- lookup by name ----------

  /** xh_elf_gnu_hash_lookup_def, and the same search in xdl.c */
  method LookupDef(t: Table, symbol: Name) returns (r: Option<nat>)
    requires WellFormed(t)
    ensures r == First(t.syms, symbol, t.symoffset, |t.syms|)
  {
    hide Hash, Entered, Heads, InBloom, First;
    var hash := ComputeHash(symbol);
    var word := t.bloom[hash / t.bits % |t.bloom|];
    var mask := Or(Pow2(hash % t.bits), Pow2(ShiftRight(hash, t.bloomShift) % t.bits));
    if And(word, mask) != mask {
      RejectedByBloom(t, symbol);
      return None;
    }
    var i := t.buckets[hash % |t.buckets|];
    StartOfBucket(t, symbol);
    if i < t.symoffset {
      return None;
    }
    while true
      invariant t.symoffset <= i < |t.syms| && BucketOf(t, i) == hash % |t.buckets|
      invariant First(t.syms, symbol, t.symoffset, |t.syms|) == First(t.syms, symbol, i, |t.syms|)
      decreases |t.syms| - i
    {
      var symhash := t.chain[i - t.symoffset];
      OnChain(t, symbol, i);
      if hash / 2 == symhash / 2 && t.syms[i].name == symbol {
        return Some(i);
      }
      if symhash % 2 == 1 {
        return None;
      }
      i := i + 1;
    }
  }

  /** What the bloom filter rejects is not in the table: no hashed symbol has the name. */
  lemma RejectedByBloom(t: Table, symbol: Name)
    requires WellFormed(t)
    ensures var h := Hash(symbol);
      var mask := Or(Pow2(h % t.bits), Pow2(ShiftRight(h, t.bloomShift) % t.bits));
      And(t.bloom[h / t.bits % |t.bloom|], mask) != mask ==> First(t.syms, symbol, t.symoffset, |t.syms|) == None
  {
    hide Hash;
    var h := Hash(symbol);
    TwoBits(t.bloom[h / t.bits % |t.bloom|], h % t.bits, ShiftRight(h, t.bloomShift) % t.bits);
    var r := First(t.syms, symbol, t.symoffset, |t.syms|);
    if r.Some? {
      assert Entered(t, r.value);
    }
  }

  /** A name can only be in its bucket, which begins where the bucket says. */
  lemma StartOfBucket(t: Table, symbol: Name)
    requires WellFormed(t)
    ensures var n := t.buckets[Hash(symbol) % |t.buckets|];
      if n < t.symoffset then First(t.syms, symbol, t.symoffset, |t.syms|) == None
      else (n < |t.syms| && BucketOf(t, n) == Hash(symbol) % |t.buckets|
        && First(t.syms, symbol, t.symoffset, |t.syms|) == First(t.syms, symbol, n, |t.syms|))
  {
    hide Hash;
    var b := Hash(symbol) % |t.buckets|;
    assert Heads(t, b);
    var n := t.buckets[b];
    assert forall j :: t.symoffset <= j < |t.syms| && BucketOf(t, j) != b ==> t.syms[j].name != symbol;
    if n >= t.symoffset {
      SkipTo(t.syms, symbol, t.symoffset, n, |t.syms|);
    }
  }

  /** One element of the chain: it is the symbol, or the end of the bucket, or the search goes on behind it. */
  lemma OnChain(t: Table, symbol: Name, i: nat)
    requires WellFormed(t) && t.symoffset <= i < |t.syms| && BucketOf(t, i) == Hash(symbol) % |t.buckets|
    ensures var c := t.chain[i - t.symoffset]; var r := First(t.syms, symbol, i, |t.syms|);
      if Hash(symbol) / 2 == c / 2 && t.syms[i].name == symbol then r == Some(i)
      else if c % 2 == 1 then r == None
      else i + 1 < |t.syms| && BucketOf(t, i + 1) == BucketOf(t, i) && r == First(t.syms, symbol, i + 1, |t.syms|)
  {
    hide Hash, InBloom;
    var c := t.chain[i - t.symoffset];
    assert Entered(t, i);
    if t.syms[i].name != symbol && c % 2 == 1 {
      forall j | i <= j < |t.syms|
        ensures t.syms[j].name != symbol
      {
        if j > i {
          Ordered(t, i + 1, j);
        }
      }
    }
  }

  /** xh_elf_gnu_hash_lookup_undef */
  method LookupUndef(t: Table, symbol: Name) returns (r: Option<nat>)
    requires t.symoffset <= |t.syms|
    ensures r == First(t.syms, symbol, 0, t.symoffset)
  {
    for i := 0 to t.symoffset
      invariant First(t.syms, symbol, 0, t.symoffset) == First(t.syms, symbol, i, t.symoffset)
    {
      if t.syms[i].name == symbol {
        return Some(i);
      }
    }
    r := None;
  }

  /** The symbol that a name stands for: the lowest hashed one, otherwise the lowest of the others. */
  function Resolve(t: Table, symbol: Name): (r: Option<nat>)
    requires t.symoffset <= |t.syms|
    ensures r.Some? <==> exists i :: 0 <= i < |t.syms| && t.syms[i].name == symbol
    ensures r.Some? ==> r.value < |t.syms| && t.syms[r.value].name == symbol
    ensures r.Some? && r.value >= t.symoffset ==> forall j :: t.symoffset <= j < r.value ==> t.syms[j].name != symbol
    ensures r.Some? && r.value < t.symoffset ==>
      forall j :: 0 <= j < |t.syms| && (j < r.value || j >= t.symoffset) ==> t.syms[j].name != symbol
  {
    var hashed := First(t.syms, symbol, t.symoffset, |t.syms|);
    if hashed.Some? then hashed else First(t.syms, symbol, 0, t.symoffset)
  }

  /** xh_elf_gnu_hash_lookup */
  method Lookup(t: Table, symbol: Name) returns (r: Option<nat>)
    requires WellFormed(t)
    ensures r == Resolve(t, symbol)
  {
    hide Entered, Heads;
    r := LookupDef(t, symbol);
    if r == None {
      r := LookupUndef(t, symbol);
    }
  }

  // ---------- lookup by address ----------

  /** xdl_sym_is_match, with sums of w bits */
  predicate Matches(s: Sym, offset: nat, w: nat) {
    !s.tls && s.value <= offset < (s.value + s.size) % Pow2(w)
  }

  /** The lowest index from lo up to hi of a symbol at this offset. */
  function FirstAt(syms: seq<Sym>, offset: nat, w: nat, lo: nat, hi: nat): (r: Option<nat>)
    requires lo <= hi <= |syms|
    ensures match r
      case Some(i) => lo <= i < hi && Matches(syms[i], offset, w) && forall j :: lo <= j < i ==> !Matches(syms[j], offset, w)
      case None => forall j :: lo <= j < hi ==> !Matches(syms[j], offset, w)
    decreases hi - lo
  {
    if lo == hi then None else if Matches(syms[lo], offset, w) then Some(lo) else FirstAt(syms, offset, w, lo + 1, hi)
  }

  /** n is behind the hashed symbols of the buckets before b and not behind others. */
  ghost predicate Reached(t: Table, b: nat, n: nat)
    requires t.symoffset <= |t.syms| && |t.buckets| > 0
  {
    && t.symoffset <= n <= |t.syms|
    && (forall i :: t.symoffset <= i < n ==> BucketOf(t, i) < b)
    && (forall i :: n <= i < |t.syms| ==> BucketOf(t, i) >= b)
  }

  /** The walk of xdl_sym_by_addr over all chains is a scan over the hashed symbols. */
  method SymByAddr(t: Table, offset: nat, w: nat) returns (r: Option<nat>)
    requires WellFormed(t)
    ensures r == FirstAt(t.syms, offset, w, t.symoffset, |t.syms|)
  {
    hide Hash, InBloom, Matches, Entered, Heads, Reached, FirstAt;
    ghost var done: nat := t.symoffset;
    BeforeAll(t);
    for b := 0 to |t.buckets|
      invariant Reached(t, b, done) && t.symoffset <= done <= |t.syms|
      invariant FirstAt(t.syms, offset, w, t.symoffset, |t.syms|) == FirstAt(t.syms, offset, w, done, |t.syms|)
    {
      var n := t.buckets[b];
      HeadReached(t, b, done);
      if n < t.symoffset {
        continue;
      }
      var last := false;
      while !last
        invariant t.symoffset <= n <= |t.syms| && n == done
        invariant if last then Reached(t, b + 1, n) else InBucket(t, b, n)
        invariant FirstAt(t.syms, offset, w, t.symoffset, |t.syms|) == FirstAt(t.syms, offset, w, n, |t.syms|)
        decreases |t.syms| - n, !last
      {
        WalkOne(t, offset, w, b, n);
        if Matches(t.syms[n], offset, w) {
          return Some(n);
        }
        last := t.chain[n - t.symoffset] % 2 == 1;
        n := n + 1;
        done := n;
      }
    }
    AllReached(t, offset, w, done);
    r := None;
  }

  /** n is a symbol of bucket b, behind all earlier buckets. */
  ghost predicate InBucket(t: Table, b: nat, n: nat)
    requires t.symoffset <= |t.syms| && |t.buckets| > 0
  {
    t.symoffset <= n < |t.syms| && BucketOf(t, n) == b && forall i :: t.symoffset <= i < n ==> BucketOf(t, i) <= b
  }

  lemma BeforeAll(t: Table)
    requires WellFormed(t)
    ensures Reached(t, 0, t.symoffset)
  {
  }

  lemma HeadReached(t: Table, b: nat, n: nat)
    requires WellFormed(t) && b < |t.buckets| && Reached(t, b, n)
    ensures if t.buckets[b] < t.symoffset then Reached(t, b + 1, n) else t.buckets[b] == n && InBucket(t, b, n)
  {
    hide Hash, InBloom;
    assert Heads(t, b);
    if t.buckets[b] >= t.symoffset && n < t.buckets[b] {
      Ordered(t, n, t.buckets[b]);
    }
  }

  lemma WalkOne(t: Table, offset: nat, w: nat, b: nat, n: nat)
    requires WellFormed(t) && InBucket(t, b, n)
    ensures n + 1 <= |t.syms|
    ensures if t.chain[n - t.symoffset] % 2 == 1 then Reached(t, b + 1, n + 1) else InBucket(t, b, n + 1)
    ensures FirstAt(t.syms, offset, w, n, |t.syms|) ==
      if Matches(t.syms[n], offset, w) then Some(n) else FirstAt(t.syms, offset, w, n + 1, |t.syms|)
  {
    hide Hash, InBloom, Matches;
    assert Entered(t, n);
    if t.chain[n - t.symoffset] % 2 == 1 {
      forall i | n + 1 <= i < |t.syms|
        ensures BucketOf(t, i) >= b + 1
      {
        Ordered(t, n + 1, i);
      }
    }
  }

  lemma AllReached(t: Table, offset: nat, w: nat, n: nat)
    requires WellFormed(t) && Reached(t, |t.buckets|, n)
    ensures FirstAt(t.syms, offset, w, n, |t.syms|) == None
  {
    hide Hash;
    assert n < |t.syms| ==> BucketOf(t, n) < |t.buckets|;
  }
}
