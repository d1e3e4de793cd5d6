/** Red-black trees as values: the shape of a tree, the context (zipper) around a
    node, the sequence of items in key order, and the three colour conditions. */
module RedBlackShape {
  import opened Bits
  import opened Sequences

  datatype Color = Black | Red

  datatype Tree<N> = Leaf | Node(color: Color, left: Tree<N>, item: N, right: Tree<N>)

  /** What surrounds a subtree: the frame of its parent, then the parent's own context. */
  datatype Context<N> =
    | Top
    | InLeft(color: Color, item: N, right: Tree<N>, up: Context<N>)
    | InRight(color: Color, left: Tree<N>, item: N, up: Context<N>)

  /** The subtree of the parent, once the hole is filled with t. */
  ghost function Fill<N>(c: Context<N>, t: Tree<N>): Tree<N>
    requires !c.Top?
  {
    match c
    case InLeft(k, n, r, up) => Node(k, t, n, r)
    case InRight(k, l, n, up) => Node(k, l, n, t)
  }

  ghost function Plug<N>(c: Context<N>, t: Tree<N>): Tree<N>
    decreases c
  {
    if c.Top? then t else Plug(c.up, Fill(c, t))
  }

  function Depth<N>(c: Context<N>): nat {
    if c.Top? then 0 else 1 + Depth(c.up)
  }

  // ---------- items in order ----------

  ghost function Items<N>(t: Tree<N>): seq<N> {
    match t
    case Leaf => []
    case Node(_, l, n, r) => Items(l) + [n] + Items(r)
  }

  ghost function Before<N>(c: Context<N>): seq<N> {
    match c
    case Top => []
    case InLeft(_, _, _, up) => Before(up)
    case InRight(_, l, n, up) => Before(up) + Items(l) + [n]
  }

  ghost function After<N>(c: Context<N>): seq<N> {
    match c
    case Top => []
    case InLeft(_, n, r, up) => [n] + Items(r) + After(up)
    case InRight(_, _, _, up) => After(up)
  }

  /** The whole tree, read in order, from a position inside it. */
  ghost function Whole<N>(c: Context<N>, t: Tree<N>): seq<N> {
    Before(c) + Items(t) + After(c)
  }

  lemma FillWhole<N>(c: Context<N>, t: Tree<N>)
    requires !c.Top?
    ensures Whole(c.up, Fill(c, t)) == Whole(c, t)
  {
    var u, n := c.up, [c.item];
    match c
    case InLeft(_, _, r, _) =>
      Regroup(Items(t), n, Items(r));
      Regroup(Items(t), n + Items(r), After(u));
      Regroup(Before(u), Items(t) + (n + Items(r)), After(u));
      Regroup(Before(u), Items(t), (n + Items(r)) + After(u));
    case InRight(_, l, _, _) =>
      Regroup(Items(l), n, Items(t));
      Regroup(Before(u), Items(l) + n, Items(t));
      Regroup(Before(u), Items(l), n);
  }

  lemma SplitWhole<N>(c: Context<N>, t: Tree<N>)
    requires t.Node?
    ensures Whole(c, t) == (Before(c) + Items(t.left)) + [t.item] + (Items(t.right) + After(c))
  {
    Regroup(Items(t.left), [t.item], Items(t.right));
    Regroup(Before(c), Items(t.left), [t.item] + Items(t.right));
    Regroup(Before(c) + Items(t.left), [t.item] + Items(t.right), After(c));
    Regroup([t.item], Items(t.right), After(c));
    Regroup(Before(c) + Items(t.left), [t.item], Items(t.right) + After(c));
  }

  lemma {:induction false} PlugItems<N>(c: Context<N>, t: Tree<N>)
    ensures Items(Plug(c, t)) == Whole(c, t)
    decreases c
  {
    if !c.Top? {
      FillWhole(c, t);
      PlugItems(c.up, Fill(c, t));
    }
  }

  /** The position d inside a tree that itself sits in e. */
  ghost function Append<N>(d: Context<N>, e: Context<N>): Context<N>
    decreases d
  {
    match d
    case Top => e
    case InLeft(k, n, r, up) => InLeft(k, n, r, Append(up, e))
    case InRight(k, l, n, up) => InRight(k, l, n, Append(up, e))
  }

  lemma {:induction false} PlugAppend<N>(d: Context<N>, e: Context<N>, t: Tree<N>)
    ensures Plug(Append(d, e), t) == Plug(e, Plug(d, t))
    decreases d
  {
    if !d.Top? {
      assert Append(d, e).up == Append(d.up, e);
      PlugAppend(d.up, e, Fill(d, t));
    }
  }

  /** The positions reached by going left only. */
  ghost predicate AllLeft<N>(d: Context<N>) {
    d.Top? || (d.InLeft? && AllLeft(d.up))
  }

  lemma {:induction false} AppendLeft<N>(d: Context<N>, e: Context<N>)
    requires AllLeft(d)
    ensures Before(Append(d, e)) == Before(e) && After(Append(d, e)) == After(d) + After(e)
    decreases d
  {
    if !d.Top? {
      AppendLeft(d.up, e);
    }
  }

  // ---------- the nodes involved, and that none occurs twice ----------

  ghost function Ids<N>(t: Tree<N>): set<N> {
    match t
    case Leaf => {}
    case Node(_, l, n, r) => Ids(l) + {n} + Ids(r)
  }

  ghost function CtxIds<N>(c: Context<N>): set<N> {
    match c
    case Top => {}
    case InLeft(_, n, r, up) => {n} + Ids(r) + CtxIds(up)
    case InRight(_, l, n, up) => {n} + Ids(l) + CtxIds(up)
  }

  ghost predicate DistinctTree<N>(t: Tree<N>) {
    t.Node? ==>
      && t.item !in Ids(t.left) && t.item !in Ids(t.right) && Ids(t.left) !! Ids(t.right)
      && DistinctTree(t.left) && DistinctTree(t.right)
  }

  ghost predicate DistinctCtx<N>(c: Context<N>) {
    match c
    case Top => true
    case InLeft(_, n, r, up) =>
      n !in Ids(r) && n !in CtxIds(up) && Ids(r) !! CtxIds(up) && DistinctTree(r) && DistinctCtx(up)
    case InRight(_, l, n, up) =>
      n !in Ids(l) && n !in CtxIds(up) && Ids(l) !! CtxIds(up) && DistinctTree(l) && DistinctCtx(up)
  }

  ghost predicate Distinct<N>(c: Context<N>, t: Tree<N>) {
    DistinctTree(t) && DistinctCtx(c) && Ids(t) !! CtxIds(c)
  }

  lemma {:induction false} IdsAreItems<N>(t: Tree<N>)
    ensures forall n :: n in Ids(t) <==> n in Items(t)
    ensures Ids(t) == set n | n in Items(t)
  {
    if t.Node? {
      IdsAreItems(t.left);
      IdsAreItems(t.right);
    }
  }

  lemma {:induction false} CtxIdsAreItems<N>(c: Context<N>)
    ensures forall n :: n in CtxIds(c) <==> n in Before(c) + After(c)
  {
    match c
    case Top =>
    case InLeft(_, n, r, up) => IdsAreItems(r); CtxIdsAreItems(up);
    case InRight(_, l, n, up) => IdsAreItems(l); CtxIdsAreItems(up);
  }

  // ---------- the colour conditions ----------

  ghost function RootColor<N>(t: Tree<N>): Color {
    if t.Leaf? then Black else t.color
  }

  ghost function CtxColor<N>(c: Context<N>): Color {
    if c.Top? then Black else c.color
  }

  /** Each red node has black children. */
  ghost predicate NoRedRed<N>(t: Tree<N>) {
    t.Node? ==>
      && (t.color.Red? ==> RootColor(t.left).Black? && RootColor(t.right).Black?)
      && NoRedRed(t.left) && NoRedRed(t.right)
  }

  /** The same for every edge of the tree around the hole; the edge into the hole is not looked at. */
  ghost predicate NoRedRedCtx<N>(c: Context<N>) {
    match c
    case Top => true
    case InLeft(k, _, r, up) =>
      (k.Red? ==> RootColor(r).Black? && CtxColor(up).Black?) && NoRedRed(r) && NoRedRedCtx(up)
    case InRight(k, l, _, up) =>
      (k.Red? ==> RootColor(l).Black? && CtxColor(up).Black?) && NoRedRed(l) && NoRedRedCtx(up)
  }

  function Weight(k: Color): nat {
    if k.Black? then 1 else 0
  }

  /** Every path from the root to a leaf has exactly h black nodes. */
  ghost predicate Balanced<N>(t: Tree<N>, h: nat) {
    match t
    case Leaf => h == 0
    case Node(k, l, _, r) => Weight(k) <= h && Balanced(l, h - Weight(k)) && Balanced(r, h - Weight(k))
  }

  /** Filling the hole with a subtree of black height h gives a balanced tree. */
  ghost predicate BalancedCtx<N>(c: Context<N>, h: nat) {
    match c
    case Top => true
    case InLeft(k, _, r, up) => Balanced(r, h) && BalancedCtx(up, h + Weight(k))
    case InRight(k, l, _, up) => Balanced(l, h) && BalancedCtx(up, h + Weight(k))
  }

  ghost predicate RootBlackCtx<N>(c: Context<N>) {
    c.Top? || (if c.up.Top? then c.color.Black? else RootBlackCtx(c.up))
  }

  /** Black nodes on the leftmost path; in a balanced tree, on every path. */
  ghost function BlackHeight<N>(t: Tree<N>): nat {
    if t.Leaf? then 0 else Weight(t.color) + BlackHeight(t.left)
  }

  lemma {:induction false} BalancedHeight<N>(t: Tree<N>, h: nat)
    requires Balanced(t, h)
    ensures h == BlackHeight(t)
  {
    if t.Node? {
      BalancedHeight(t.left, h - Weight(t.color));
    }
  }

  ghost predicate RedBlack<N>(t: Tree<N>) {
    RootColor(t).Black? && NoRedRed(t) && Balanced(t, BlackHeight(t))
  }

  lemma {:induction false} PlugColors<N>(c: Context<N>, t: Tree<N>, h: nat)
    requires NoRedRed(t) && NoRedRedCtx(c) && (CtxColor(c).Red? ==> RootColor(t).Black?)
    requires Balanced(t, h) && BalancedCtx(c, h)
    requires RootBlackCtx(c) && (c.Top? ==> RootColor(t).Black?)
    ensures RedBlack(Plug(c, t))
    decreases c
  {
    if c.Top? {
      BalancedHeight(t, h);
    } else {
      PlugColors(c.up, Fill(c, t), h + Weight(c.color));
    }
  }

  /** The same tree with another colour at its root. */
  ghost function Tint<N>(t: Tree<N>, k: Color): (t': Tree<N>)
    ensures Items(t') == Items(t)
  {
    if t.Leaf? then t else Node(k, t.left, t.item, t.right)
  }

  ghost predicate Good<N>(t: Tree<N>, h: nat) {
    NoRedRed(t) && Balanced(t, h)
  }

  ghost predicate GoodCtx<N>(c: Context<N>, h: nat) {
    NoRedRedCtx(c) && BalancedCtx(c, h) && RootBlackCtx(c)
  }

  // ---------- insertion ----------

  /** The state of an insertion's repair: a red subtree of black height h whose parent alone may also be red. */
  ghost predicate RedFocus<N>(c: Context<N>, t: Tree<N>, h: nat) {
    t.Node? && t.color.Red? && Good(t, h) && GoodCtx(c, h)
  }

  /** A red parent is not the root. */
  lemma RedParent<N>(c: Context<N>, t: Tree<N>, h: nat)
    requires RedFocus(c, t, h) && CtxColor(c).Red?
    ensures !c.Top? && !c.up.Top? && c.up.color.Black?
  {
  }

  ghost function Sibling<N>(c: Context<N>): Tree<N>
    requires !c.Top?
  {
    if c.InLeft? then c.right else c.left
  }

  /** The sibling's own context. */
  ghost function SiblingCtx<N>(c: Context<N>, t: Tree<N>): Context<N>
    requires !c.Top?
  {
    match c
    case InLeft(k, n, _, up) => InRight(k, t, n, up)
    case InRight(k, _, n, up) => InLeft(k, n, t, up)
  }

  ghost function Uncle<N>(c: Context<N>): Tree<N>
    requires !c.Top? && !c.up.Top?
  {
    Sibling(c.up)
  }

  /** A context whose sibling of the hole is replaced by u. */
  ghost function WithSibling<N>(c: Context<N>, u: Tree<N>): Context<N>
    requires !c.Top?
  {
    match c
    case InLeft(k, n, _, up) => InLeft(k, n, u, up)
    case InRight(k, _, n, up) => InRight(k, u, n, up)
  }

  /** Parent and uncle turned black, the grandparent red. */
  ghost function Uncled<N>(c: Context<N>, t: Tree<N>): Tree<N>
    requires !c.Top? && !c.up.Top?
  {
    var p := Tint(Fill(c, t), Black);
    match c.up
    case InLeft(_, g, u, _) => Node(Red, p, g, Tint(u, Black))
    case InRight(_, u, g, _) => Node(Red, Tint(u, Black), g, p)
  }

  lemma UncledFocus<N>(c: Context<N>, t: Tree<N>, h: nat)
    requires RedFocus(c, t, h) && CtxColor(c).Red? && !c.up.Top? && RootColor(Uncle(c)).Red?
    ensures RedFocus(c.up.up, Uncled(c, t), h + 1)
    ensures Whole(c.up.up, Uncled(c, t)) == Whole(c, t)
  {
    RedParent(c, t, h);
    assert GoodCtx(c.up, h) && Good(Uncle(c), h);
    assert GoodCtx(c.up.up, h + 1);
    FillWhole(c, t);
    FillWhole(c.up, Fill(c, t));
    assert Items(Uncled(c, t)) == Items(Fill(c.up, Fill(c, t)));
    assert Good(Tint(Fill(c, t), Black), h + 1);
    assert Good(Tint(Uncle(c), Black), h + 1);
  }

  /** An inner red grandchild is rotated to the outside; the lower node becomes the focus. */
  ghost function InnerCtx<N>(c: Context<N>, t: Tree<N>): Context<N>
    requires !c.Top? && t.Node?
  {
    match c
    case InRight(_, _, _, up) => InLeft(Red, t.item, t.right, up)
    case InLeft(_, _, _, up) => InRight(Red, t.left, t.item, up)
  }

  ghost function InnerTree<N>(c: Context<N>, t: Tree<N>): Tree<N>
    requires !c.Top? && t.Node?
  {
    match c
    case InRight(_, l, p, _) => Node(Red, l, p, t.left)
    case InLeft(_, p, r, _) => Node(Red, t.right, p, r)
  }

  lemma InnerFocus<N>(c: Context<N>, t: Tree<N>, h: nat)
    requires RedFocus(c, t, h) && CtxColor(c).Red?
    ensures RedFocus(InnerCtx(c, t), InnerTree(c, t), h)
    ensures Whole(InnerCtx(c, t), InnerTree(c, t)) == Whole(c, t)
  {
    RedParent(c, t, h);
    assert GoodCtx(c.up, h);
    FillWhole(c, t);
    FillWhole(InnerCtx(c, t), InnerTree(c, t));
    match c
    case InRight(_, l, p, _) =>
      Regroup(Items(l), [p], Items(t));
      RegroupSlopes(Items(l), p, Items(t.left), t.item, Items(t.right));
    case InLeft(_, p, r, _) =>
      RegroupSlopes(Items(t.left), t.item, Items(t.right), p, Items(r));
  }

  lemma RegroupSlopes<N>(a: seq<N>, x: N, b: seq<N>, y: N, d: seq<N>)
    ensures a + [x] + (b + [y] + d) == (a + [x] + b) + [y] + d
  {
  }

  /** An outer red grandchild with a black uncle: the parent turns black and takes the grandparent's place. */
  ghost function OuterCtx<N>(c: Context<N>): Context<N>
    requires !c.Top? && !c.up.Top?
  {
    match (c, c.up)
    case (InLeft(_, p, r, _), InLeft(_, g, u, top)) => InLeft(Black, p, Node(Red, r, g, u), top)
    case (InRight(_, l, p, _), InRight(_, u, g, top)) => InRight(Black, Node(Red, u, g, l), p, top)
    case _ => c
  }

  lemma OuterItems<N>(c: Context<N>, t: Tree<N>)
    requires !c.Top? && !c.up.Top? && c.InLeft? == c.up.InLeft?
    ensures Whole(OuterCtx(c), t) == Whole(c, t)
  {
    FillWhole(c, t);
    FillWhole(c.up, Fill(c, t));
    FillWhole(OuterCtx(c), t);
    match (c, c.up)
    case (InLeft(_, p, r, _), InLeft(_, g, u, top)) =>
      RegroupSlopes(Items(t), p, Items(r), g, Items(u));
    case (InRight(_, l, p, _), InRight(_, u, g, top)) =>
      RegroupSlopes(Items(u), g, Items(l), p, Items(t));
  }

  lemma OuterFocus<N>(c: Context<N>, t: Tree<N>, h: nat)
    requires RedFocus(c, t, h) && CtxColor(c).Red? && !c.up.Top? && c.InLeft? == c.up.InLeft?
    requires RootColor(Uncle(c)).Black?
    ensures RedFocus(OuterCtx(c), t, h) && CtxColor(OuterCtx(c)).Black?
    ensures Whole(OuterCtx(c), t) == Whole(c, t)
  {
    RedParent(c, t, h);
    assert GoodCtx(c.up, h) && Good(Uncle(c), h);
    assert GoodCtx(c.up.up, h + 1);
    OuterItems(c, t);
  }

  /** One round of the repair, as a change of position. */
  ghost function Straightened<N>(c: Context<N>, t: Tree<N>): (Context<N>, Tree<N>)
    requires !c.Top? && !c.up.Top? && t.Node?
  {
    if c.InLeft? == c.up.InLeft? then (c, t) else (InnerCtx(c, t), InnerTree(c, t))
  }

  ghost function Repaired<N>(c: Context<N>, t: Tree<N>): (Context<N>, Tree<N>)
    requires !c.Top? && !c.up.Top? && t.Node?
  {
    if RootColor(Uncle(c)).Red? then (c.up.up, Uncled(c, t))
    else var (c', t') := Straightened(c, t); (OuterCtx(c'), t')
  }

  lemma RepairedFocus<N>(c: Context<N>, t: Tree<N>, h: nat) returns (h': nat)
    requires RedFocus(c, t, h) && CtxColor(c).Red? && !c.up.Top?
    ensures RedFocus(Repaired(c, t).0, Repaired(c, t).1, h')
    ensures Whole(Repaired(c, t).0, Repaired(c, t).1) == Whole(c, t)
    ensures Depth(Repaired(c, t).0) < Depth(c)
  {
    if RootColor(Uncle(c)).Red? {
      UncledFocus(c, t, h);
      h' := h + 1;
    } else {
      h' := h;
      var (c', t') := Straightened(c, t);
      if c.InLeft? != c.up.InLeft? {
        InnerFocus(c, t, h);
      }
      OuterFocus(c', t', h);
    }
  }

  lemma InsertDone<N>(c: Context<N>, t: Tree<N>, h: nat)
    requires RedFocus(c, t, h) && CtxColor(c).Black?
    ensures RedBlack(Tint(Plug(c, t), Black)) && Items(Tint(Plug(c, t), Black)) == Whole(c, t)
  {
    PlugItems(c, t);
    if c.Top? {
      PlugColors(c, Tint(t, Black), h + 1);
    } else {
      PlugColors(c, t, h);
    }
  }

  // ---------- positions in a red-black tree ----------

  ghost predicate Sound<N>(c: Context<N>, t: Tree<N>, h: nat) {
    && Good(t, h) && GoodCtx(c, h)
    && (CtxColor(c).Red? || c.Top? ==> RootColor(t).Black?)
  }

  lemma NewLeaf<N>(c: Context<N>, x: N, h: nat)
    requires Sound(c, Leaf, h)
    ensures RedFocus(c, Node(Red, Leaf, x, Leaf), h)
  {
  }

  lemma SoundDown<N>(c: Context<N>, t: Tree<N>, h: nat)
    requires !c.Top? && Sound(c.up, Fill(c, t), h)
    ensures Weight(c.color) <= h && Sound(c, t, h - Weight(c.color))
  {
    assert Good(t, h - Weight(c.color)) && Good(Sibling(c), h - Weight(c.color));
  }

  lemma {:induction false} Unplug<N>(c: Context<N>, t: Tree<N>) returns (h: nat)
    requires RedBlack(Plug(c, t))
    ensures Sound(c, t, h)
    decreases c
  {
    if c.Top? {
      h := BlackHeight(t);
    } else {
      h := Unplug(c.up, Fill(c, t));
      SoundDown(c, t, h);
      h := h - Weight(c.color);
    }
  }

  lemma TintBlack<N>(t: Tree<N>)
    requires NoRedRed(t)
    ensures NoRedRed(Tint(t, Black))
  {
  }

  // ---------- deletion ----------

  /** The state of a deletion's repair: the paths through the focused subtree lack one black node.
      Its root may be red, and may then have red children. */
  ghost predicate ShortFocus<N>(c: Context<N>, t: Tree<N>, h: nat) {
    NoRedRed(Tint(t, Black)) && Balanced(t, h) && GoodCtx(c, h + 1)
  }

  /** The sibling's child on the hole's side, and the one on the other side. */
  ghost function Near<N>(c: Context<N>): Tree<N>
    requires !c.Top? && Sibling(c).Node?
  {
    if c.InLeft? then c.right.left else c.left.right
  }

  ghost function Far<N>(c: Context<N>): Tree<N>
    requires !c.Top? && Sibling(c).Node?
  {
    if c.InLeft? then c.right.right else c.left.left
  }

  lemma HasSibling<N>(c: Context<N>, t: Tree<N>, h: nat)
    requires ShortFocus(c, t, h) && !c.Top?
    ensures Sibling(c).Node? && Good(Sibling(c), h + 1) && GoodCtx(c.up, h + 1 + Weight(c.color))
    ensures Sibling(c).color.Red? ==> c.color.Black?
  {
  }

  /** Red sibling: it takes the parent's place and turns black, the parent turns red. */
  ghost function RedSiblingCtx<N>(c: Context<N>): Context<N>
    requires !c.Top? && Sibling(c).Node?
  {
    match c
    case InLeft(_, p, w, up) => InLeft(Red, p, w.left, InLeft(Black, w.item, w.right, up))
    case InRight(_, w, p, up) => InRight(Red, w.right, p, InRight(Black, w.left, w.item, up))
  }

  lemma RedSiblingItems<N>(c: Context<N>, t: Tree<N>)
    requires !c.Top? && Sibling(c).Node?
    ensures Whole(RedSiblingCtx(c), t) == Whole(c, t)
  {
    var c' := RedSiblingCtx(c);
    FillWhole(c, t);
    FillWhole(c', t);
    FillWhole(c'.up, Fill(c', t));
    match c
    case InLeft(_, p, w, up) => RegroupSlopes(Items(t), p, Items(w.left), w.item, Items(w.right));
    case InRight(_, w, p, up) => RegroupSlopes(Items(w.left), w.item, Items(w.right), p, Items(t));
  }

  lemma RedSiblingFocus<N>(c: Context<N>, t: Tree<N>, h: nat)
    requires ShortFocus(c, t, h) && !c.Top? && RootColor(Sibling(c)).Red?
    ensures ShortFocus(RedSiblingCtx(c), t, h) && RootColor(Sibling(RedSiblingCtx(c))).Black?
    ensures Near(c).Node? && Whole(RedSiblingCtx(c), t) == Whole(c, t)
  {
    HasSibling(c, t, h);
    assert Good(Near(c), h + 1) && Good(Far(c), h + 1);
    RedSiblingItems(c, t);
  }

  /** Black sibling without red children: it turns red, and the parent becomes the focus. */
  ghost function Paled<N>(c: Context<N>, t: Tree<N>): Tree<N>
    requires !c.Top?
  {
    Fill(WithSibling(c, Tint(Sibling(c), Red)), t)
  }

  lemma PaledFocus<N>(c: Context<N>, t: Tree<N>, h: nat)
    requires ShortFocus(c, t, h) && RootColor(t).Black? && !c.Top? && RootColor(Sibling(c)).Black?
    requires Sibling(c).Node? && RootColor(Near(c)).Black? && RootColor(Far(c)).Black?
    ensures ShortFocus(c.up, Paled(c, t), h + Weight(c.color))
    ensures Whole(c.up, Paled(c, t)) == Whole(c, t)
  {
    HasSibling(c, t, h);
    assert Good(Near(c), h) && Good(Far(c), h);
    assert Good(Tint(Sibling(c), Red), h) && Good(t, h);
    FillWhole(c, t);
    assert Items(Paled(c, t)) == Items(Fill(c, t));
  }

  /** Black sibling whose far child is black and near child red: the red child is moved to the far side. */
  ghost function TurnedSibling<N>(c: Context<N>): Tree<N>
    requires !c.Top? && Sibling(c).Node? && Near(c).Node?
  {
    var w, o := Sibling(c), Near(c);
    if c.InLeft? then Node(Black, o.left, o.item, Node(Red, o.right, w.item, w.right))
    else Node(Black, Node(Red, w.left, w.item, o.left), o.item, o.right)
  }

  lemma TurnedFocus<N>(c: Context<N>, t: Tree<N>, h: nat)
    requires ShortFocus(c, t, h) && !c.Top? && RootColor(Sibling(c)).Black?
    requires Sibling(c).Node? && RootColor(Near(c)).Red? && RootColor(Far(c)).Black?
    ensures var c' := WithSibling(c, TurnedSibling(c));
      ShortFocus(c', t, h) && RootColor(Sibling(c')).Black? && RootColor(Far(c')).Red?
    ensures Whole(WithSibling(c, TurnedSibling(c)), t) == Whole(c, t)
  {
    HasSibling(c, t, h);
    assert Good(Near(c), h) && Good(Far(c), h);
    assert Good(Near(c).left, h) && Good(Near(c).right, h);
    var w, o := Sibling(c), Near(c);
    if c.InLeft? {
      assert Good(Node(Red, o.right, w.item, w.right), h);
      RegroupSlopes(Items(o.left), o.item, Items(o.right), w.item, Items(w.right));
    } else {
      assert Good(Node(Red, w.left, w.item, o.left), h);
      RegroupSlopes(Items(w.left), w.item, Items(o.left), o.item, Items(o.right));
    }
    assert Items(TurnedSibling(c)) == Items(w);
  }

  /** Black sibling whose far child is red: it takes the parent's place and colour, which ends the repair. */
  ghost function Ended<N>(c: Context<N>, t: Tree<N>): Tree<N>
    requires !c.Top? && Sibling(c).Node?
  {
    match c
    case InLeft(k, p, w, _) => Node(k, Node(Black, t, p, w.left), w.item, Tint(w.right, Black))
    case InRight(k, w, p, _) => Node(k, Tint(w.left, Black), w.item, Node(Black, w.right, p, t))
  }

  /** The shape just before the last rotation: the sibling has the parent's colour, parent and far child are black. */
  ghost function EndColored<N>(c: Context<N>, t: Tree<N>): Tree<N>
    requires !c.Top? && Sibling(c).Node?
  {
    match c
    case InLeft(k, p, w, _) => Node(Black, t, p, Node(k, w.left, w.item, Tint(w.right, Black)))
    case InRight(k, w, p, _) => Node(Black, Node(k, Tint(w.left, Black), w.item, w.right), p, t)
  }

  lemma EndedItems<N>(c: Context<N>, t: Tree<N>)
    requires !c.Top? && Sibling(c).Node?
    ensures Items(Ended(c, t)) == Items(Fill(c, t))
  {
    match c
    case InLeft(_, p, w, up) => RegroupSlopes(Items(t), p, Items(w.left), w.item, Items(w.right));
    case InRight(_, w, p, up) => RegroupSlopes(Items(w.left), w.item, Items(w.right), p, Items(t));
  }

  lemma EndedSound<N>(c: Context<N>, t: Tree<N>, h: nat)
    requires ShortFocus(c, t, h) && RootColor(t).Black? && !c.Top? && RootColor(Sibling(c)).Black?
    requires Sibling(c).Node? && RootColor(Far(c)).Red?
    ensures RedBlack(Plug(c.up, Ended(c, t)))
    ensures Items(Plug(c.up, Ended(c, t))) == Whole(c, t)
  {
    HasSibling(c, t, h);
    assert Good(Near(c), h) && Good(Far(c), h) && Good(t, h);
    assert Good(Tint(Far(c), Black), h + 1);
    assert Good(Ended(c, t), h + 1 + Weight(c.color));
    PlugColors(c.up, Ended(c, t), h + 1 + Weight(c.color));
    PlugItems(c.up, Ended(c, t));
    FillWhole(c, t);
    EndedItems(c, t);
  }

  // ---------- one round of the repair after a deletion ----------

  ghost predicate Mendable<N>(c: Context<N>) {
    !c.Top? && Sibling(c).Node? && (Sibling(c).color.Red? ==> Near(c).Node?)
  }

  ghost function BlackSiblingCtx<N>(c: Context<N>): (c': Context<N>)
    requires Mendable(c)
    ensures !c'.Top? && Sibling(c').Node?
  {
    if Sibling(c).color.Red? then RedSiblingCtx(c) else c
  }

  /** The position after a round whose sibling is black. */
  ghost function MendedBlack<N>(c: Context<N>, t: Tree<N>): (Context<N>, Tree<N>)
    requires !c.Top? && Sibling(c).Node?
  {
    if RootColor(Near(c)).Black? && RootColor(Far(c)).Black? then (c.up, Paled(c, t))
    else var c' := TurnedCtx(c); (Top, Plug(c'.up, Ended(c', t)))
  }

  ghost function TurnedCtx<N>(c: Context<N>): (c': Context<N>)
    requires !c.Top? && Sibling(c).Node?
    ensures !c'.Top? && Sibling(c').Node? && c'.up == c.up && c'.InLeft? == c.InLeft? && c'.item == c.item
  {
    if RootColor(Far(c)).Black? && Near(c).Node? then WithSibling(c, TurnedSibling(c)) else c
  }

  ghost function Mended<N>(c: Context<N>, t: Tree<N>): (Context<N>, Tree<N>)
    requires Mendable(c)
  {
    MendedBlack(BlackSiblingCtx(c), t)
  }

  /** How far the repair is from its end. */
  ghost function Rounds<N>(c: Context<N>, t: Tree<N>): nat {
    if RootColor(t).Red? then 0 else Depth(c)
  }

  lemma TurnedCtxFocus<N>(c: Context<N>, t: Tree<N>, h: nat)
    requires ShortFocus(c, t, h) && !c.Top? && RootColor(Sibling(c)).Black? && Sibling(c).Node?
    requires RootColor(Near(c)).Red? || RootColor(Far(c)).Red?
    ensures ShortFocus(TurnedCtx(c), t, h) && RootColor(Sibling(TurnedCtx(c))).Black? && RootColor(Far(TurnedCtx(c))).Red?
    ensures Whole(TurnedCtx(c), t) == Whole(c, t)
  {
    if RootColor(Far(c)).Black? {
      TurnedFocus(c, t, h);
    }
  }

  lemma RedBlackShort<N>(w: Tree<N>)
    requires RedBlack(w)
    ensures ShortFocus(Top, w, BlackHeight(w))
  {
  }

  lemma MendedBlackFocus<N>(c: Context<N>, t: Tree<N>, h: nat) returns (h': nat)
    requires ShortFocus(c, t, h) && RootColor(t).Black? && !c.Top? && RootColor(Sibling(c)).Black? && Sibling(c).Node?
    ensures ShortFocus(MendedBlack(c, t).0, MendedBlack(c, t).1, h')
    ensures Whole(MendedBlack(c, t).0, MendedBlack(c, t).1) == Whole(c, t)
    ensures MendedBlack(c, t).0.Top? || (Depth(MendedBlack(c, t).0) < Depth(c) && RootColor(MendedBlack(c, t).1) == c.color)
  {
    if RootColor(Near(c)).Black? && RootColor(Far(c)).Black? {
      PaledFocus(c, t, h);
      h' := h + Weight(c.color);
    } else {
      h' := MendedEnded(c, t, h);
    }
  }

  lemma MendedEnded<N>(c: Context<N>, t: Tree<N>, h: nat) returns (h': nat)
    requires ShortFocus(c, t, h) && RootColor(t).Black? && !c.Top? && RootColor(Sibling(c)).Black? && Sibling(c).Node?
    requires RootColor(Near(c)).Red? || RootColor(Far(c)).Red?
    ensures ShortFocus(Top, MendedBlack(c, t).1, h')
    ensures Items(MendedBlack(c, t).1) == Whole(c, t)
  {
    TurnedCtxFocus(c, t, h);
    EndedSound(TurnedCtx(c), t, h);
    RedBlackShort(MendedBlack(c, t).1);
    h' := BlackHeight(MendedBlack(c, t).1);
  }

  lemma MendedFocus<N>(c: Context<N>, t: Tree<N>, h: nat) returns (h': nat)
    requires ShortFocus(c, t, h) && !c.Top? && RootColor(t).Black?
    ensures Mendable(c) && ShortFocus(Mended(c, t).0, Mended(c, t).1, h')
    ensures Whole(Mended(c, t).0, Mended(c, t).1) == Whole(c, t)
    ensures Rounds(Mended(c, t).0, Mended(c, t).1) < Rounds(c, t)
  {
    HasSibling(c, t, h);
    if RootColor(Sibling(c)).Red? {
      RedSiblingFocus(c, t, h);
    }
    HasSibling(BlackSiblingCtx(c), t, h);
    h' := MendedBlackFocus(BlackSiblingCtx(c), t, h);
  }

  lemma ShortDone<N>(c: Context<N>, t: Tree<N>, h: nat)
    requires ShortFocus(c, t, h) && (c.Top? || RootColor(t).Red?)
    ensures RedBlack(Plug(c, Tint(t, Black))) && Items(Plug(c, Tint(t, Black))) == Whole(c, t)
  {
    PlugItems(c, Tint(t, Black));
    PlugColors(c, Tint(t, Black), if RootColor(t).Red? then h + 1 else h);
  }

  // ---------- taking a node out ----------

  lemma SpliceFocus<N>(c: Context<N>, t: Tree<N>, sub: Tree<N>, h: nat)
    requires Sound(c, t, h) && t.Node?
    requires (t.left.Leaf? && sub == t.right) || (t.right.Leaf? && sub == t.left)
    ensures t.color.Black? ==> h > 0 && ShortFocus(c, sub, h - 1)
    ensures t.color.Red? ==> RedBlack(Plug(c, sub)) && Items(Plug(c, sub)) == Whole(c, sub)
    ensures Items(t) == Items(t.left) + [t.item] + Items(t.right) && Items(sub) == Items(t.left) + Items(t.right)
  {
    TintBlack(sub);
    if t.color.Red? {
      PlugColors(c, sub, h);
      PlugItems(c, sub);
    }
  }

  lemma {:induction false} RenameGood<N>(d: Context<N>, k: Color, l: Tree<N>, x: N, y: N, c: Context<N>, h: nat)
    ensures GoodCtx(Append(d, InRight(k, l, x, c)), h) <==> GoodCtx(Append(d, InRight(k, l, y, c)), h)
    ensures CtxColor(Append(d, InRight(k, l, x, c))) == CtxColor(Append(d, InRight(k, l, y, c)))
    decreases d
  {
    if !d.Top? {
      RenameGood(d.up, k, l, x, y, c, h + Weight(d.color));
    }
  }

  lemma {:induction false} SoundAppend<N>(d: Context<N>, e: Context<N>, m: Tree<N>, h: nat) returns (k: nat)
    requires Sound(e, Plug(d, m), h)
    ensures Sound(Append(d, e), m, k)
    decreases d
  {
    if d.Top? {
      k := h;
    } else {
      k := SoundAppend(d.up, e, Fill(d, m), h);
      SoundDown(Append(d, e), m, k);
      k := k - Weight(d.color);
    }
  }

  lemma LeftmostItems<N>(d: Context<N>, m: Tree<N>)
    requires m.Node? && m.left.Leaf? && AllLeft(d)
    ensures Items(Plug(d, m)) == [m.item] + (Items(m.right) + After(d))
  {
    AppendLeft(d, Top);
    AppendTop(d);
    PlugItems(d, m);
    assert Items(m) == [m.item] + Items(m.right);
    assert Whole(d, m) == Items(m) + After(d);
    Regroup([m.item], Items(m.right), After(d));
  }

  lemma InnerOrder<N>(c: Context<N>, t: Tree<N>, d: Context<N>, m: Tree<N>)
    requires t.Node? && m.Node? && m.left.Leaf? && AllLeft(d) && Plug(d, m) == t.right
    ensures Whole(Append(d, InRight(t.color, t.left, m.item, c)), m.right) == Before(c) + Items(t.left) + Items(t.right) + After(c)
  {
    var a, x, b, r, z := Before(c) + Items(t.left), [m.item], Items(m.right), After(d), After(c);
    AppendLeft(d, InRight(t.color, t.left, m.item, c));
    LeftmostItems(d, m);
    Regroup(b, r, z);
    Regroup(a + x, b, r + z);
    Regroup(a, x, b + r);
    Regroup(a + x, b + r, z);
  }

  lemma {:induction false} AppendTop<N>(d: Context<N>)
    ensures Append(d, Top) == d
    decreases d
  {
    if !d.Top? {
      AppendTop(d.up);
    }
  }

  /** Taking the leftmost node of the right subtree to the place of t's root: what is left to repair, and the order. */
  lemma InnerSplice<N>(c: Context<N>, t: Tree<N>, d: Context<N>, m: Tree<N>, x: N, h: nat) returns (k: nat)
    requires Sound(c, t, h) && t.Node? && m.Node? && m.left.Leaf? && m.item == x
    requires AllLeft(d) && Plug(d, m) == t.right
    ensures var g := Append(d, InRight(t.color, t.left, x, c));
      && (m.color.Black? ==> ShortFocus(g, m.right, k))
      && (m.color.Red? ==> RedBlack(Plug(g, m.right)) && Items(Plug(g, m.right)) == Whole(g, m.right))
  {
    var e, g := InRight(t.color, t.left, t.item, c), Append(d, InRight(t.color, t.left, x, c));
    SoundDown(e, t.right, h);
    var j := SoundAppend(d, e, m, h - Weight(t.color));
    RenameGood(d, t.color, t.left, t.item, x, c, j);
    AppendIsTop(d, e);
    SpliceFocus(g, m, m.right, j);
    k := if m.color.Black? then j - 1 else 0;
  }

  lemma AppendIsTop<N>(d: Context<N>, e: Context<N>)
    requires !e.Top?
    ensures !Append(d, e).Top?
  {
  }

  // ---------- height ----------

  function Height<N>(t: Tree<N>): nat {
    if t.Leaf? then 0 else 1 + if Height(t.left) > Height(t.right) then Height(t.left) else Height(t.right)
  }

  /** Black nodes are at least half of each path, and a balanced tree is full down to its black height. */
  lemma {:induction false} HeightByBlack<N>(t: Tree<N>, h: nat)
    requires NoRedRed(t) && Balanced(t, h)
    ensures Height(t) <= 2 * h + (if RootColor(t).Red? then 1 else 0)
    ensures Pow2(h) <= |Items(t)| + 1
  {
    if t.Node? {
      HeightByBlack(t.left, h - Weight(t.color));
      HeightByBlack(t.right, h - Weight(t.color));
    }
  }

  lemma SquareMonotonic(a: nat, b: nat)
    requires a <= b
    ensures a * a <= b * b
  {
  }

  /** The height is at most 2 lg(n + 1), written without the logarithm. */
  lemma HeightBound<N>(t: Tree<N>)
    requires RedBlack(t)
    ensures Pow2(Height(t)) <= (|Items(t)| + 1) * (|Items(t)| + 1)
  {
    var h, n := BlackHeight(t), |Items(t)| + 1;
    HeightByBlack(t, h);
    Pow2Plus(h, h);
    Pow2Grows(Height(t), 2 * h);
    SquareMonotonic(Pow2(h), n);
  }
}
