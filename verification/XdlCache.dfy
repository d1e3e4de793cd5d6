/** Address-to-symbol search with a cache of handles: what a call answers does not depend on the calls before it. */
module XdlCache {
  import opened Bits
  import G = GnuHash
  import opened Options

  /** The dynamic symbols of an image, with a GNU hash table or without; then all of them are scanned. */
  datatype Dynsym = Hashed(table: G.Table) | Scanned(syms: seq<G.Sym>)

  datatype Segment = Segment(vaddr: nat, memsz: nat)

  /** A loaded image: its load segments, and what loading its symbol tables yields, if it succeeds. */
  datatype Image = Image(name: string, bias: nat, loads: seq<Segment>, dynsym: Option<Dynsym>, symtab: Option<seq<G.Sym>>)

  /** The answer: the base and name of the image, and the name and address of a symbol, if there is one. */
  datatype Info = Info(fbase: nat, fname: string, sname: Option<(G.Name, nat)>)

  predicate InSegment(s: Segment, vaddr: int, w: nat) {
    s.vaddr <= vaddr < (s.vaddr + s.memsz) % Pow2(w)
  }

  /** xdl_elf_is_match */
  predicate IsMatch(im: Image, addr: nat, w: nat) {
    addr >= im.bias && exists i :: 0 <= i < |im.loads| && InSegment(im.loads[i], addr - im.bias, w)
  }

  method ElfIsMatch(im: Image, addr: nat, w: nat) returns (r: bool)
    ensures r == IsMatch(im, addr, w)
  {
    if addr < im.bias {
      return false;
    }
    for i := 0 to |im.loads|
      invariant forall j :: 0 <= j < i ==> !InSegment(im.loads[j], addr - im.bias, w)
    {
      if InSegment(im.loads[i], addr - im.bias, w) {
        return true;
      }
    }
    r := false;
  }

  ghost predicate WellFormed(im: Image) {
    im.dynsym.Some? && im.dynsym.value.Hashed? ==> G.WellFormed(im.dynsym.value.table)
  }

  /** No address belongs to two images. */
  ghost predicate Disjoint(images: seq<Image>, w: nat) {
    forall i, j, addr :: 0 <= i < j < |images| ==> !(IsMatch(images[i], addr, w) && IsMatch(images[j], addr, w))
  }

  /** The first image that addr belongs to. */
  ghost function ImageAt(images: seq<Image>, addr: nat, w: nat): Option<Image> {
    if images == [] then None
    else if IsMatch(images[0], addr, w) then Some(images[0]) else ImageAt(images[1..], addr, w)
  }

  lemma {:induction false} TheImage(images: seq<Image>, i: nat, addr: nat, w: nat)
    requires Disjoint(images, w) && i < |images| && IsMatch(images[i], addr, w)
    ensures ImageAt(images, addr, w) == Some(images[i])
  {
    hide IsMatch;
    if i > 0 {
      assert Disjoint(images[1..], w) by {
        forall j, k, a | 0 <= j < k < |images[1..]|
          ensures !(IsMatch(images[1..][j], a, w) && IsMatch(images[1..][k], a, w))
        {
          assert images[1..][j] == images[j + 1] && images[1..][k] == images[k + 1];
        }
      }
      TheImage(images[1..], i - 1, addr, w);
    }
  }

  lemma {:induction false} ImageIsListed(images: seq<Image>, addr: nat, w: nat)
    ensures ImageAt(images, addr, w).Some? ==> ImageAt(images, addr, w).value in images && IsMatch(ImageAt(images, addr, w).value, addr, w)
    ensures ImageAt(images, addr, w).None? ==> forall im :: im in images ==> !IsMatch(im, addr, w)
  {
    hide IsMatch;
    if images != [] {
      ImageIsListed(images[1..], addr, w);
    }
  }

  // ---------- what a fresh search answers ----------

  function Offset(im: Image, addr: nat, w: nat): nat {
    (addr - im.bias) % Pow2(w)
  }

  /** The symbol at addr among the dynamic symbols: the first of the hashed ones, or of all if there is no GNU table. */
  function DynSymbol(dynsym: Option<Dynsym>, offset: nat, w: nat): Option<G.Sym>
    requires dynsym.Some? && dynsym.value.Hashed? ==> dynsym.value.table.symoffset <= |dynsym.value.table.syms|
  {
    match dynsym
    case None => None
    case Some(Hashed(t)) =>
      var i := G.FirstAt(t.syms, offset, w, t.symoffset, |t.syms|);
      if i.Some? then Some(t.syms[i.value]) else None
    case Some(Scanned(syms)) => TableSymbol(syms, offset, w)
  }

  function TableSymbol(syms: seq<G.Sym>, offset: nat, w: nat): Option<G.Sym> {
    var i := G.FirstAt(syms, offset, w, 0, |syms|);
    if i.Some? then Some(syms[i.value]) else None
  }

  function Named(im: Image, s: G.Sym): Option<(G.Name, nat)> {
    Some((s.name, im.bias + s.value))
  }

  /** What is known about addr in its image: the symbol comes from the dynamic ones, otherwise from the others. */
  function About(im: Image, addr: nat, w: nat): Info
    requires im.dynsym.Some? && im.dynsym.value.Hashed? ==> im.dynsym.value.table.symoffset <= |im.dynsym.value.table.syms|
  {
    var offset := Offset(im, addr, w);
    var dyn := DynSymbol(im.dynsym, offset, w);
    var sym := if dyn.Some? then dyn else if im.symtab.Some? then TableSymbol(im.symtab.value, offset, w) else None;
    Info(im.bias, im.name, if sym.Some? then Named(im, sym.value) else None)
  }

  /** The symbols that are searched, dynamic ones in front. */
  function Searched(im: Image): seq<G.Sym>
    requires im.dynsym.Some? && im.dynsym.value.Hashed? ==> im.dynsym.value.table.symoffset <= |im.dynsym.value.table.syms|
  {
    (match im.dynsym
     case None => []
     case Some(Hashed(t)) => t.syms[t.symoffset..]
     case Some(Scanned(syms)) => syms)
    + if im.symtab.Some? then im.symtab.value else []
  }

  predicate Covers(im: Image, s: G.Sym, addr: nat) {
    !s.tls && im.bias + s.value <= addr < im.bias + s.value + s.size
  }

  /** The symbol that is named covers the address, and it is named with its own address; none is named only if none of
      those that end within the address space covers it. */
  lemma NamedCovers(im: Image, addr: nat, w: nat)
    requires WellFormed(im) && im.bias <= addr < im.bias + Pow2(w)
    ensures match About(im, addr, w).sname
      case Some((name, a)) => exists s :: s in Searched(im) && s.name == name && a == im.bias + s.value && Covers(im, s, addr)
      case None => forall s :: s in Searched(im) && s.value + s.size < Pow2(w) ==> !Covers(im, s, addr)
  {
    OffsetIs(im, addr, w);
    hide Pow2;
    var offset := Offset(im, addr, w);
    var dyn := DynSymbol(im.dynsym, offset, w);
    forall s | G.Matches(s, offset, w)
      ensures Covers(im, s, addr)
    {
      WithinSize(s.value + s.size, w);
    }
    forall s | Covers(im, s, addr) && s.value + s.size < Pow2(w)
      ensures G.Matches(s, offset, w)
    {
      WithinSize(s.value + s.size, w);
    }
    hide G.Matches, Covers, Offset;
    FoundIn(im.dynsym, offset, w);
    if im.symtab.Some? {
      FoundIn(Some(Scanned(im.symtab.value)), offset, w);
    }
  }

  lemma OffsetIs(im: Image, addr: nat, w: nat)
    requires im.bias <= addr < im.bias + Pow2(w)
    ensures Offset(im, addr, w) == addr - im.bias
  {
    Remainder(addr - im.bias, Pow2(w), 0, addr - im.bias);
  }

  lemma WithinSize(end: nat, w: nat)
    ensures end % Pow2(w) <= end && (end < Pow2(w) ==> end % Pow2(w) == end)
  {
    RemainderSmall(end, Pow2(w));
  }

  lemma RemainderSmall(x: nat, m: nat)
    requires m > 0
    ensures x % m <= x && (x < m ==> x % m == x)
  {
    if x < m {
      Remainder(x, m, 0, x);
    } else {
      assert x % m < m;
    }
  }

  /** The search finds a symbol that matches exactly when there is one. */
  lemma FoundIn(dynsym: Option<Dynsym>, offset: nat, w: nat)
    requires dynsym.Some? && dynsym.value.Hashed? ==> dynsym.value.table.symoffset <= |dynsym.value.table.syms|
    ensures var (r, syms) := (DynSymbol(dynsym, offset, w), Searched(Image("", 0, [], dynsym, None)));
      match r
      case Some(s) => s in syms && G.Matches(s, offset, w)
      case None => forall s :: s in syms ==> !G.Matches(s, offset, w)
  {
    hide G.Matches;
    match dynsym
    case None =>
    case Some(Hashed(t)) =>
      var i := G.FirstAt(t.syms, offset, w, t.symoffset, |t.syms|);
      if i.Some? {
        assert t.syms[t.symoffset..][i.value - t.symoffset] == t.syms[i.value];
      }
    case Some(Scanned(syms)) =>
  }

  ghost function Answer(images: seq<Image>, addr: nat, w: nat): Option<Info>
    requires forall im :: im in images ==> WellFormed(im)
  {
    ImageIsListed(images, addr, w);
    if addr == 0 then None
    else
      match ImageAt(images, addr, w)
      case None => None
      case Some(im) => assert im in images && WellFormed(im); Some(About(im, addr, w))
  }

  // ---------- handles ----------

  /** xdl_t: the tables are loaded when they are first asked for. */
  class Handle {
    const image: Image
    var dynsymTryLoad: bool
    var dynsym: Option<Dynsym>
    var symtabTryLoad: bool
    var symtab: Option<seq<G.Sym>>
    var next: Handle?

    ghost predicate Valid()
      reads this
    {
      && WellFormed(image)
      && dynsym == (if dynsymTryLoad then image.dynsym else None)
      && symtab == (if symtabTryLoad then image.symtab else None)
    }

    constructor (image: Image)
      requires WellFormed(image)
      ensures Valid() && this.image == image && next == null
    {
      this.image := image;
      dynsymTryLoad, dynsym, symtabTryLoad, symtab, next := false, None, false, None, null;
    }

    /** xdl_sym_by_addr */
    method SymByAddr(addr: nat, w: nat) returns (r: Option<G.Sym>)
      requires Valid()
      modifies this`dynsymTryLoad, this`dynsym
      ensures Valid() && r == DynSymbol(image.dynsym, Offset(image, addr, w), w)
    {
      hide G.Entered, G.Heads, G.Matches;
      if !dynsymTryLoad {
        dynsymTryLoad := true;
        dynsym := image.dynsym;
      }
      if dynsym == None {
        return None;
      }
      var offset := Offset(image, addr, w);
      match dynsym.value
      case Hashed(t) =>
        var i := G.SymByAddr(t, offset, w);
        r := if i.Some? then Some(t.syms[i.value]) else None;
      case Scanned(syms) =>
        r := ScanTable(syms, offset, w);
    }

    /** xdl_dsym_by_addr */
    method DsymByAddr(addr: nat, w: nat) returns (r: Option<G.Sym>)
      requires Valid()
      modifies this`symtabTryLoad, this`symtab
      ensures Valid() && r == if image.symtab.Some? then TableSymbol(image.symtab.value, Offset(image, addr, w), w) else None
    {
      if !symtabTryLoad {
        symtabTryLoad := true;
        symtab := image.symtab;
      }
      if symtab == None {
        return None;
      }
      r := ScanTable(symtab.value, Offset(image, addr, w), w);
    }

    /** The second half of xdl_addr */
    method Describe(addr: nat, w: nat) returns (r: Info)
      requires Valid()
      modifies this`dynsymTryLoad, this`dynsym, this`symtabTryLoad, this`symtab
      ensures Valid() && r == About(image, addr, w)
    {
      hide DynSymbol, TableSymbol, Offset;
      var sym := SymByAddr(addr, w);
      if sym == None {
        sym := DsymByAddr(addr, w);
      }
      r := Info(image.bias, image.name, if sym.Some? then Named(image, sym.value) else None);
    }
  }

  method ScanTable(syms: seq<G.Sym>, offset: nat, w: nat) returns (r: Option<G.Sym>)
    ensures r == TableSymbol(syms, offset, w)
  {
    hide G.Matches;
    for i := 0 to |syms|
      invariant G.FirstAt(syms, offset, w, 0, |syms|) == G.FirstAt(syms, offset, w, i, |syms|)
    {
      if G.Matches(syms[i], offset, w) {
        return Some(syms[i]);
      }
    }
    r := None;
  }

  // ---------- the cache ----------

  /** The handle at k of a list that ends with null. */
  ghost function HandleAt(handles: seq<Handle>, k: nat): Handle? {
    if k < |handles| then handles[k] else null
  }

  /** The list of handles that the calls share; the images of the process do not change. */
  class Cache {
    const images: seq<Image>
    const w: nat
    var head: Handle?
    ghost var handles: seq<Handle>

    ghost predicate Linked()
      reads this, handles
    {
      && head == HandleAt(handles, 0)
      && (forall k :: 0 <= k < |handles| ==> handles[k].next == HandleAt(handles, k + 1))
      && (forall j, k :: 0 <= j < k < |handles| ==> handles[j] != handles[k])
    }

    /** Each handle is for an image of the process, and no two are for the same. */
    ghost predicate Valid()
      reads this, handles
    {
      && Linked() && Disjoint(images, w) && (forall im :: im in images ==> WellFormed(im))
      && (forall k :: 0 <= k < |handles| ==> handles[k].Valid() && handles[k].image in images)
      && (forall j, k :: 0 <= j < k < |handles| ==> handles[j].image != handles[k].image)
    }

    constructor (images: seq<Image>, w: nat)
      requires Disjoint(images, w) && forall im :: im in images ==> WellFormed(im)
      ensures Valid() && handles == [] && this.images == images && this.w == w
    {
      this.images, this.w, head, handles := images, w, null, [];
    }

    /** The walk over the cached handles: the first that addr belongs to. */
    method FindHandle(addr: nat) returns (h: Handle?, ghost k: nat)
      requires Valid()
      ensures if h == null then k == |handles| else k < |handles| && h == handles[k] && IsMatch(h.image, addr, w)
      ensures forall j :: 0 <= j < k ==> !IsMatch(handles[j].image, addr, w)
    {
      hide IsMatch, Disjoint, WellFormed;
      h, k := head, 0;
      while h != null
        invariant k <= |handles| && h == HandleAt(handles, k)
        invariant forall j :: 0 <= j < k ==> !IsMatch(handles[j].image, addr, w)
        decreases |handles| - k
      {
        var found := ElfIsMatch(h.image, addr, w);
        if found {
          return;
        }
        h := h.next;
        k := k + 1;
      }
    }

    /** xdl_open_by_addr: the first image in the order of iteration. */
    method OpenByAddr(addr: nat) returns (h: Handle?)
      requires Valid()
      ensures match ImageAt(images, addr, w)
        case None => h == null
        case Some(im) => h != null && fresh(h) && h.Valid() && h.image == im
    {
      hide IsMatch, Disjoint, WellFormed;
      var i := 0;
      while i < |images|
        invariant i <= |images| && ImageAt(images, addr, w) == ImageAt(images[i..], addr, w)
      {
        assert images[i..][0] == images[i] && images[i..][1..] == images[i + 1..];
        var found := ElfIsMatch(images[i], addr, w);
        if found {
          assert images[i] in images;
          h := new Handle(images[i]);
          return;
        }
        i := i + 1;
      }
      h := null;
    }

    /** A new handle goes to the front of the list. */
    method Push(h: Handle)
      requires Valid() && h.Valid() && h !in handles && h.image in images
      requires forall k :: 0 <= k < |handles| ==> handles[k].image != h.image
      modifies this`head, this`handles, h`next
      ensures Valid() && handles == [h] + old(handles)
    {
      ghost var before := handles;
      assert forall k :: 0 <= k < |before| ==> before[k].Valid() && before[k].image in images;
      h.next := head;
      head := h;
      handles := [h] + handles;
      forall k | 0 <= k < |handles|
        ensures handles[k].next == HandleAt(handles, k + 1)
        ensures handles[k].Valid() && handles[k].image in images
      {
        assert HandleAt(handles, k + 1) == HandleAt(before, k);
        if k > 0 {
          assert handles[k] == before[k - 1] && before[k - 1] in before;
          assert old(before[k - 1].Valid());
          assert before[k - 1].next == old(before[k - 1].next);
        }
      }
    }

    /** xdl_addr: whatever has been asked before, the answer is that of a fresh search, and an image gets a handle at
        most once. */
    method Addr(addr: nat) returns (r: Option<Info>)
      requires Valid()
      modifies this`head, this`handles, handles
      ensures Valid() && r == Answer(images, addr, w)
      ensures handles == old(handles) || (|handles| == |old(handles)| + 1 && fresh(handles[0]) && handles[1..] == old(handles))
    {
      if addr == 0 {
        return None;
      }
      var handle, k := FindHandle(addr);
      if handle == null {
        handle := OpenByAddr(addr);
        if handle == null {
          return None;
        }
        ImageIsListed(images, addr, w);
        Push(handle);
      } else {
        Found(k, addr);
      }
      assert handle.image in images;
      var info := Ask(handle, addr);
      r := Some(info);
    }

    /** The handle found belongs to the image that a fresh search would find. */
    lemma Found(k: nat, addr: nat)
      requires Valid() && k < |handles| && IsMatch(handles[k].image, addr, w)
      ensures ImageAt(images, addr, w) == Some(handles[k].image)
    {
      var i :| 0 <= i < |images| && images[i] == handles[k].image;
      TheImage(images, i, addr, w);
    }

    /** Asking a handle leaves the list as it is. */
    method Ask(handle: Handle, addr: nat) returns (r: Info)
      requires Valid() && handle in handles && WellFormed(handle.image)
      modifies handle`dynsymTryLoad, handle`dynsym, handle`symtabTryLoad, handle`symtab
      ensures Valid() && r == About(handle.image, addr, w)
    {
      hide IsMatch, Disjoint, WellFormed, About;
      r := handle.Describe(addr, w);
      forall k | 0 <= k < |handles|
        ensures handles[k].Valid()
      {
        assert handles[k] == handle || old(handles[k].Valid());
      }
    }
  }
}
