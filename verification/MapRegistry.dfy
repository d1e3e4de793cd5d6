/** The map registry of the hook core: a refresh moves the known libraries from the old tree to a new one,
    hooks those that are new or have moved, and frees the rest. */
module MapRegistry {
  import opened Options
  import opened Sequences
  import opened RedBlackTree

  /** One accepted line of the process map: a path name and the address it is mapped at. */
  datatype Entry = Entry(pathname: string, base: nat)

  /** What a refresh must end with: each path at its first listed base. */
  ghost function FirstBases(es: seq<Entry>): map<string, nat> {
    if es == [] then map[]
    else AddFirst(FirstBases(es[..|es| - 1]), es[|es| - 1])
  }

  ghost function AddFirst(m: map<string, nat>, e: Entry): map<string, nat> {
    if e.pathname in m then m else m[e.pathname := e.base]
  }

  /** What a refresh must hook: each path when first listed, unless it was known at the same base. */
  ghost function HookPlan(es: seq<Entry>, known: map<string, nat>): seq<Entry> {
    if es == [] then []
    else
      var done, e := es[..|es| - 1], es[|es| - 1];
      if NeedsHook(e, FirstBases(done), known) then HookPlan(done, known) + [e] else HookPlan(done, known)
  }

  lemma NoLines(known: map<string, nat>)
    ensures Unlisted(known, FirstBases([])) == known && FirstBases([]) == map[] && HookPlan([], known) == []
  {
  }

  lemma OneMoreLine(es: seq<Entry>, i: nat, known: map<string, nat>)
    requires i < |es|
    ensures FirstBases(es[..i + 1]) == AddFirst(FirstBases(es[..i]), es[i])
    ensures HookPlan(es[..i + 1], known) ==
      if NeedsHook(es[i], FirstBases(es[..i]), known) then HookPlan(es[..i], known) + [es[i]] else HookPlan(es[..i], known)
  {
    assert es[..i + 1][..i] == es[..i];
  }

  /** Does the path of line i occur there first? */
  ghost predicate FirstAt(es: seq<Entry>, i: nat) {
    i < |es| && forall j :: 0 <= j < i ==> es[j].pathname != es[i].pathname
  }

  /** Exactly the listed paths have a base, and it is that of the first line with the path. */
  lemma {:induction false} FirstListed(es: seq<Entry>, i: nat)
    requires FirstAt(es, i)
    ensures es[i].pathname in FirstBases(es) && FirstBases(es)[es[i].pathname] == es[i].base
    decreases |es|
  {
    var n := |es| - 1;
    if i < n {
      assert FirstAt(es[..n], i);
      FirstListed(es[..n], i);
    } else if es[n].pathname in FirstBases(es[..n]) {
      var k := OnlyListed(es[..n], es[n].pathname);
      assert false;
    }
  }

  lemma {:induction false} OnlyListed(es: seq<Entry>, path: string) returns (i: nat)
    requires path in FirstBases(es)
    ensures FirstAt(es, i) && es[i].pathname == path
    decreases |es|
  {
    var n := |es| - 1;
    if path in FirstBases(es[..n]) {
      i := OnlyListed(es[..n], path);
    } else {
      i := n;
      forall j | 0 <= j < n
        ensures es[j].pathname != path
      {
        Listed(es[..n], j);
      }
    }
  }

  lemma {:induction false} Listed(es: seq<Entry>, j: nat)
    requires j < |es|
    ensures es[j].pathname in FirstBases(es)
  {
    var n := |es| - 1;
    if j < n {
      Listed(es[..n], j);
    }
  }

  ghost predicate DistinctPaths(es: seq<Entry>) {
    forall i, j :: 0 <= i < j < |es| ==> es[i].pathname != es[j].pathname
  }

  /** New is a path that was not known before, moved one that had another base. */
  ghost predicate NewOrMoved(e: Entry, listed: map<string, nat>, known: map<string, nat>) {
    && e.pathname in listed && e.base == listed[e.pathname]
    && !(e.pathname in known && known[e.pathname] == e.base)
  }

  /** What is hooked: every new or moved path at its first base, once, and nothing else. */
  lemma {:induction false} HookPlanIs(es: seq<Entry>, known: map<string, nat>)
    ensures DistinctPaths(HookPlan(es, known))
    ensures forall e :: e in HookPlan(es, known) <==> NewOrMoved(e, FirstBases(es), known)
  {
    if es != [] {
      var done := es[..|es| - 1];
      HookPlanIs(done, known);
      assert forall i :: 0 <= i < |HookPlan(done, known)| ==> NewOrMoved(HookPlan(done, known)[i], FirstBases(done), known);
    }
  }

  /** The map has exactly the listed paths, each with the base of the first line that lists it. */
  ghost predicate FirstLines(es: seq<Entry>, m: map<string, nat>) {
    && (forall i: nat :: FirstAt(es, i) ==> es[i].pathname in m && m[es[i].pathname] == es[i].base)
    && (forall p :: p in m ==> exists i: nat :: FirstAt(es, i) && es[i].pathname == p)
  }

  lemma FirstBasesIs(es: seq<Entry>)
    ensures FirstLines(es, FirstBases(es))
  {
    hide FirstBases;
    forall i: nat | FirstAt(es, i)
      ensures i < |es| && es[i].pathname in FirstBases(es) && FirstBases(es)[es[i].pathname] == es[i].base
    {
      FirstListed(es, i);
    }
    forall p | p in FirstBases(es)
      ensures exists i: nat :: i < |es| && FirstAt(es, i) && es[i].pathname == p
    {
      var i := OnlyListed(es, p);
    }
  }

  ghost predicate NeedsHook(e: Entry, listed: map<string, nat>, known: map<string, nat>) {
    e.pathname !in listed && !(e.pathname in known && known[e.pathname] == e.base)
  }

  /** What the tree h records: the path and the base of each node. */
  ghost function Pairs(h: RbHead): set<(string, nat)>
    reads h, h.nodes`baseAddr
  {
    set n | n in h.nodes :: (n.pathname, n.baseAddr)
  }

  twostate lemma PairsSame(h: RbHead)
    requires h.nodes == old(h.nodes) && forall n :: n in h.nodes ==> n.baseAddr == old(n.baseAddr)
    ensures Pairs(h) == old(Pairs(h))
  {
  }

  twostate lemma PairsLess(h: RbHead, new mi: MapInfo)
    requires mi in old(h.nodes) && forall n :: n in old(h.nodes) && n.pathname == mi.pathname ==> n == mi
    requires h.nodes == old(h.nodes) - {mi} && forall n :: n in h.nodes ==> n.baseAddr == old(n.baseAddr)
    ensures Pairs(h) == old(Pairs(h)) - {(mi.pathname, old(mi.baseAddr))}
  {
  }

  twostate lemma PairsMore(h: RbHead, new mi: MapInfo)
    requires h.nodes == old(h.nodes) + {mi} && forall n :: n in old(h.nodes) ==> n.baseAddr == old(n.baseAddr)
    ensures Pairs(h) == old(Pairs(h)) + {(mi.pathname, mi.baseAddr)}
  {
  }

  /** The paths that are known and not yet listed. */
  ghost function Unlisted(known: map<string, nat>, listed: map<string, nat>): map<string, nat> {
    known - listed.Keys
  }

  lemma UnlistedLess(known: map<string, nat>, listed: map<string, nat>, e: Entry)
    requires e.pathname in Unlisted(known, listed)
    ensures Unlisted(known, AddFirst(listed, e)).Items == Unlisted(known, listed).Items - {(e.pathname, known[e.pathname])}
  {
    var a, b := Unlisted(known, AddFirst(listed, e)), Unlisted(known, listed);
    forall p | p in a.Items
      ensures p in b.Items && p != (e.pathname, known[e.pathname])
    {
      assert p.0 in a && p.0 in b && b[p.0] == p.1;
    }
    forall p | p in b.Items && p != (e.pathname, known[e.pathname])
      ensures p in a.Items
    {
      assert p.0 in b && p.0 != e.pathname;
      assert p.0 in a && a[p.0] == p.1;
    }
  }

  lemma UnlistedSame(known: map<string, nat>, listed: map<string, nat>, e: Entry)
    requires e.pathname !in Unlisted(known, listed)
    ensures Unlisted(known, AddFirst(listed, e)) == Unlisted(known, listed)
  {
  }

  lemma ListedMore(listed: map<string, nat>, e: Entry)
    requires e.pathname !in listed
    ensures AddFirst(listed, e).Items == listed.Items + {(e.pathname, e.base)}
  {
    var a := AddFirst(listed, e);
    forall p | p in a.Items
      ensures p in listed.Items + {(e.pathname, e.base)}
    {
      if p.0 != e.pathname {
        assert p.0 in listed && listed[p.0] == p.1;
      }
    }
    forall p | p in listed.Items + {(e.pathname, e.base)}
      ensures p in a.Items
    {
      assert p.0 in a && a[p.0] == p.1;
    }
  }

  class XhCore {
    var mapInfo: RbHead
    ghost var known: map<string, nat>  // what mapInfo records: each path with its base
    var hooked: seq<Entry>             // the xh_core_hook calls made, in order
    var freed: seq<MapInfo>            // the records freed, in order

    constructor ()
      ensures Valid() && known == map[] && hooked == [] && freed == []
    {
      mapInfo := new RbHead();
      known, hooked, freed := map[], [], [];
    }

    ghost predicate Valid()
      reads this, mapInfo, mapInfo.nodes
    {
      mapInfo.Listing().Some? && Pairs(mapInfo) == known.Items
    }

    /** A known library: its record changes trees, and it is hooked again if it has moved. */
    method Move(mi: MapInfo, base: nat, refreshed: RbHead)
      requires mapInfo.Listing().Some? && refreshed.Listing().Some? && refreshed != mapInfo && mapInfo.nodes !! refreshed.nodes
      requires mi in mapInfo.nodes && forall n :: n in refreshed.nodes ==> n.pathname != mi.pathname
      modifies this`hooked, mapInfo, refreshed, mi`baseAddr
      modifies mapInfo.nodes`left, mapInfo.nodes`right, mapInfo.nodes`parent, mapInfo.nodes`color
      modifies refreshed.nodes`left, refreshed.nodes`right, refreshed.nodes`parent, refreshed.nodes`color
      ensures mapInfo.Listing().Some? && refreshed.Listing().Some?
      ensures mapInfo.nodes == old(mapInfo.nodes) - {mi} && refreshed.nodes == old(refreshed.nodes) + {mi}
      ensures mi.baseAddr == base
      ensures old(mi.baseAddr) == base ==> hooked == old(hooked)
      ensures old(mi.baseAddr) != base ==> hooked == old(hooked) + [Entry(mi.pathname, base)]
    {
      label Start:
      var _ := mapInfo.Remove(mi);
      refreshed.Undisturbed@Start();
      label Taken:
      var other := refreshed.Insert(mi);
      mapInfo.Undisturbed@Taken();
      if other != null {
        assert false;
      }
      label Inserted:
      if mi.baseAddr != base {
        mi.baseAddr := base;
        hooked := hooked + [Entry(mi.pathname, base)];
      }
      mapInfo.Undisturbed@Inserted();
      refreshed.Undisturbed@Inserted();
    }

    /** An unknown library: a new record, hooked, unless the path was listed before; then the record is freed. */
    method Create(e: Entry, refreshed: RbHead) returns (mi: MapInfo, ghost listed: bool)
      requires mapInfo.Listing().Some? && refreshed.Listing().Some? && refreshed != mapInfo && mapInfo.nodes !! refreshed.nodes
      modifies this`hooked, this`freed, refreshed
      modifies refreshed.nodes`left, refreshed.nodes`right, refreshed.nodes`parent, refreshed.nodes`color
      ensures refreshed.Listing().Some? && mapInfo.Listing().Some?
      ensures fresh(mi) && mi.pathname == e.pathname && mi.baseAddr == e.base
      ensures listed <==> exists n :: n in old(refreshed.nodes) && n.pathname == e.pathname
      ensures listed ==> refreshed.nodes == old(refreshed.nodes) && hooked == old(hooked) && freed == old(freed) + [mi]
      ensures !listed ==> refreshed.nodes == old(refreshed.nodes) + {mi} && hooked == old(hooked) + [e] && freed == old(freed)
    {
      mi := new MapInfo(e.pathname, e.base);
      refreshed.Undisturbed();
      var other := refreshed.Insert(mi);
      listed := other != null;
      if other != null {
        freed := freed + [mi];
      } else {
        hooked := hooked + [e];
      }
      mapInfo.Undisturbed();
    }

    /** A line whose path has a record in the old tree. */
    method StepKnown(e: Entry, mi: MapInfo, refreshed: RbHead, ghost listed: map<string, nat>)
      requires mapInfo.Listing().Some? && refreshed.Listing().Some? && refreshed != mapInfo && mapInfo.nodes !! refreshed.nodes
      requires Pairs(mapInfo) == Unlisted(known, listed).Items && Pairs(refreshed) == listed.Items
      requires mi in mapInfo.nodes && mi.pathname == e.pathname
      modifies this`hooked, mapInfo, refreshed, mapInfo.nodes, refreshed.nodes
      ensures mapInfo.Listing().Some? && refreshed.Listing().Some?
      ensures mapInfo.nodes == old(mapInfo.nodes) - {mi} && refreshed.nodes == old(refreshed.nodes) + {mi}
      ensures Pairs(mapInfo) == Unlisted(known, AddFirst(listed, e)).Items && Pairs(refreshed) == AddFirst(listed, e).Items
      ensures NeedsHook(e, listed, known) ==> hooked == old(hooked) + [e]
      ensures !NeedsHook(e, listed, known) ==> hooked == old(hooked)
    {
      mapInfo.OnlyOne(mi);
      assert (mi.pathname, mi.baseAddr) in Unlisted(known, listed).Items;
      NoneListed(refreshed, e, listed);
      UnlistedLess(known, listed, e);
      ListedMore(listed, e);
      Move(mi, e.base, refreshed);
      PairsLess(mapInfo, mi);
      PairsMore(refreshed, mi);
    }

    lemma NoneListed(refreshed: RbHead, e: Entry, listed: map<string, nat>)
      requires Pairs(refreshed) == listed.Items
      ensures e.pathname !in listed <==> forall n :: n in refreshed.nodes ==> n.pathname != e.pathname
    {
      if e.pathname in listed {
        assert (e.pathname, listed[e.pathname]) in listed.Items;
      } else {
        forall n | n in refreshed.nodes
          ensures n.pathname != e.pathname
        {
          assert (n.pathname, n.baseAddr) in listed.Items;
        }
      }
    }

    /** A line whose path has none. */
    method StepNew(e: Entry, refreshed: RbHead, ghost listed: map<string, nat>) returns (mi: MapInfo, ghost repeated: bool)
      requires mapInfo.Listing().Some? && refreshed.Listing().Some? && refreshed != mapInfo && mapInfo.nodes !! refreshed.nodes
      requires Pairs(mapInfo) == Unlisted(known, listed).Items && Pairs(refreshed) == listed.Items
      requires forall n :: n in mapInfo.nodes ==> n.pathname != e.pathname
      modifies this`hooked, this`freed, refreshed, refreshed.nodes
      ensures mapInfo.Listing().Some? && refreshed.Listing().Some? && fresh(mi)
      ensures refreshed.nodes == if repeated then old(refreshed.nodes) else old(refreshed.nodes) + {mi}
      ensures Pairs(mapInfo) == Unlisted(known, AddFirst(listed, e)).Items && Pairs(refreshed) == AddFirst(listed, e).Items
      ensures NeedsHook(e, listed, known) ==> hooked == old(hooked) + [e]
      ensures !NeedsHook(e, listed, known) ==> hooked == old(hooked)
      ensures repeated ==> freed == old(freed) + [mi]
      ensures !repeated ==> freed == old(freed)
    {
      NoneListed(mapInfo, e, Unlisted(known, listed));
      NoneListed(refreshed, e, listed);
      UnlistedSame(known, listed, e);
      mi, repeated := Create(e, refreshed);
      PairsSame(mapInfo);
      if repeated {
        PairsSame(refreshed);
      } else {
        PairsMore(refreshed, mi);
        ListedMore(listed, e);
      }
    }

    /** One line of the process map. */
    method Step(e: Entry, refreshed: RbHead, ghost listed: map<string, nat>) returns (ghost dup: seq<MapInfo>)
      requires mapInfo.Listing().Some? && refreshed.Listing().Some? && refreshed != mapInfo && mapInfo.nodes !! refreshed.nodes
      requires Pairs(mapInfo) == Unlisted(known, listed).Items && Pairs(refreshed) == listed.Items
      modifies this`hooked, this`freed, mapInfo, refreshed, mapInfo.nodes, refreshed.nodes
      ensures mapInfo.Listing().Some? && refreshed.Listing().Some? && mapInfo.nodes !! refreshed.nodes
      ensures Pairs(mapInfo) == Unlisted(known, AddFirst(listed, e)).Items && Pairs(refreshed) == AddFirst(listed, e).Items
      ensures NeedsHook(e, listed, known) ==> hooked == old(hooked) + [e]
      ensures !NeedsHook(e, listed, known) ==> hooked == old(hooked)
      ensures mapInfo.nodes <= old(mapInfo.nodes) && old(mapInfo.nodes + refreshed.nodes) <= mapInfo.nodes + refreshed.nodes
      ensures fresh(mapInfo.nodes + refreshed.nodes - old(mapInfo.nodes + refreshed.nodes))
      ensures freed == old(freed) + dup
      ensures forall n :: n in dup ==> fresh(n) && n !in refreshed.nodes
    {
      hide *;
      var mi, _ := mapInfo.Find(e.pathname);
      dup := [];
      if mi != null {
        StepKnown(e, mi, refreshed, listed);
      } else {
        var added;
        ghost var repeated;
        added, repeated := StepNew(e, refreshed, listed);
        dup := if repeated then [added] else [];
      }
    }

    /** The loop over the accepted lines; dups are the records freed because their path was listed before. */
    method Sweep(es: seq<Entry>, refreshed: RbHead) returns (ghost dups: seq<MapInfo>)
      requires Valid() && refreshed.Listing() == Some([]) && refreshed.nodes == {} && refreshed != mapInfo
      modifies this`hooked, this`freed, mapInfo, mapInfo.nodes, refreshed
      ensures mapInfo.Listing().Some? && refreshed.Listing().Some? && mapInfo.nodes !! refreshed.nodes
      ensures Pairs(mapInfo) == Unlisted(known, FirstBases(es)).Items && Pairs(refreshed) == FirstBases(es).Items
      ensures hooked == old(hooked) + HookPlan(es, known)
      ensures mapInfo.nodes <= old(mapInfo.nodes) <= mapInfo.nodes + refreshed.nodes
      ensures fresh(refreshed.nodes - old(mapInfo.nodes))
      ensures freed == old(freed) + dups
      ensures forall n :: n in dups ==> fresh(n) && n !in refreshed.nodes
    {
      dups := [];
      NoLines(known);
      hide HookPlan, Unlisted, FirstBases;
      for i := 0 to |es|
        invariant mapInfo.Listing().Some? && refreshed.Listing().Some? && mapInfo.nodes !! refreshed.nodes
        invariant Pairs(mapInfo) == Unlisted(known, FirstBases(es[..i])).Items
        invariant Pairs(refreshed) == FirstBases(es[..i]).Items
        invariant hooked == old(hooked) + HookPlan(es[..i], known)
        invariant mapInfo.nodes <= old(mapInfo.nodes) <= mapInfo.nodes + refreshed.nodes
        invariant fresh(refreshed.nodes - old(mapInfo.nodes))
        invariant freed == old(freed) + dups
        invariant forall n :: n in dups ==> fresh(n) && n !in refreshed.nodes
      {
        OneMoreLine(es, i, known);
        Regroup(old(hooked), HookPlan(es[..i], known), [es[i]]);
        ghost var dup := Step(es[i], refreshed, FirstBases(es[..i]));
        Regroup(old(freed), dups, dup);
        dups := dups + dup;
      }
      assert es[..|es|] == es;
    }

    /** xh_core_refresh_impl over the accepted lines; gone are the records freed because their path is no longer listed. */
    method RefreshImpl(es: seq<Entry>) returns (ghost dups: seq<MapInfo>, ghost gone: seq<MapInfo>)
      requires Valid()
      modifies this, mapInfo, mapInfo.nodes
      ensures Valid() && known == FirstBases(es)
      ensures FirstLines(es, known)
      ensures hooked == old(hooked) + HookPlan(es, old(known)) && DistinctPaths(HookPlan(es, old(known)))
      ensures forall e :: e in HookPlan(es, old(known)) <==> NewOrMoved(e, known, old(known))
      ensures freed == old(freed) + dups + gone
      ensures forall n :: n in dups ==> fresh(n) && n !in mapInfo.nodes
      ensures Ascending(gone) && (set n | n in gone) == old(mapInfo.nodes) - mapInfo.nodes
      ensures forall n :: n in old(mapInfo.nodes) ==> (n in mapInfo.nodes <==> n.pathname in FirstBases(es))
    {
      hide HookPlan, FirstBases, FirstLines, DistinctPaths, Ascending;
      var refreshed := new RbHead();
      dups := Sweep(es, refreshed);
      gone := Retire(refreshed, FirstBases(es));
      HookPlanIs(es, old(known));
      FirstBasesIs(es);
    }

    /** What is left in the old tree is freed, and the new tree takes its place. */
    method Retire(refreshed: RbHead, ghost listed: map<string, nat>) returns (ghost gone: seq<MapInfo>)
      requires mapInfo.Listing().Some? && refreshed.Listing().Some? && refreshed != mapInfo && mapInfo.nodes !! refreshed.nodes
      requires Pairs(mapInfo) == Unlisted(known, listed).Items && Pairs(refreshed) == listed.Items
      modifies this, mapInfo, mapInfo.nodes`left, mapInfo.nodes`right, mapInfo.nodes`parent, mapInfo.nodes`color
      ensures mapInfo == refreshed && mapInfo.nodes == old(refreshed.nodes) && Valid() && known == listed && hooked == old(hooked)
      ensures freed == old(freed) + gone && Ascending(gone)
      ensures (set n | n in gone) == old(mapInfo.nodes)
      ensures forall n :: n in old(mapInfo.nodes) ==> n.pathname !in listed
      ensures forall n :: n in refreshed.nodes ==> n.pathname in listed
    {
      ListedOrNot(refreshed, listed);
      mapInfo.ListingNodes();
      gone := mapInfo.Listing().value;
      var missing := mapInfo.Drain();
      refreshed.Undisturbed();
      PairsSame(refreshed);
      freed := freed + missing;
      mapInfo := refreshed;
      known := listed;
    }

    lemma ListedOrNot(refreshed: RbHead, listed: map<string, nat>)
      requires Pairs(mapInfo) == Unlisted(known, listed).Items && Pairs(refreshed) == listed.Items
      ensures forall n :: n in mapInfo.nodes ==> n.pathname !in listed
      ensures forall n :: n in refreshed.nodes ==> n.pathname in listed
    {
      forall n | n in mapInfo.nodes
        ensures n.pathname in Unlisted(known, listed)
      {
        assert (n.pathname, n.baseAddr) in Unlisted(known, listed).Items;
      }
      forall n | n in refreshed.nodes
        ensures n.pathname in listed
      {
        assert (n.pathname, n.baseAddr) in listed.Items;
      }
    }
  }
}
