/** The intrusive red-black tree: nodes with left, right and parent pointers, changed in place. */
module RedBlackTree {
  import opened Bits
  import opened Options
  import opened RedBlackShape
  import opened Sequences
  import opened StringOrder

  /** The tree fields of one node, as a value. */
  datatype Cell = Cell(left: MapInfo?, right: MapInfo?, parent: MapInfo?, color: Color) {
    /** The link to the child x leads to y instead. */
    ghost function Pointing(x: MapInfo?, y: MapInfo?): Cell {
      if left == x then this.(left := y) else this.(right := y)
    }
  }

  class MapInfo {
    const pathname: string
    var baseAddr: nat
    var left: MapInfo?
    var right: MapInfo?
    var parent: MapInfo?
    var color: Color

    constructor (pathname: string, baseAddr: nat)
      ensures this.pathname == pathname && this.baseAddr == baseAddr
    {
      this.pathname, this.baseAddr := pathname, baseAddr;
      left, right, parent, color := null, null, null, Black;
    }

    ghost function Look(): Cell
      reads this`left, this`right, this`parent, this`color
    {
      Cell(left, right, parent, color)
    }
  }

  ghost predicate Less(a: MapInfo, b: MapInfo) {
    StrCmp(a.pathname, b.pathname) < 0
  }

  /** In strictly ascending order of path names, hence without repetition. */
  ghost predicate Ascending(s: seq<MapInfo>) {
    forall i, j :: 0 <= i < j < |s| ==> Less(s[i], s[j])
  }

  lemma Irreflexive(a: MapInfo)
    ensures !Less(a, a)
  {
    StrCmpEqual(a.pathname, a.pathname);
  }

  type Shape = Tree<MapInfo>
  type Around = Context<MapInfo>

  function RootOf(t: Shape): MapInfo? {
    if t.Leaf? then null else t.item
  }

  function ParentOf(c: Around): MapInfo? {
    if c.Top? then null else c.item
  }

  // ---------- the pointers a shape prescribes ----------

  /** The fields of node n of the tree t hung under p. */
  ghost function TreeCell(t: Shape, p: MapInfo?, n: MapInfo): Cell {
    if t.Leaf? then Cell(null, null, null, Black)
    else if n == t.item then Cell(RootOf(t.left), RootOf(t.right), p, t.color)
    else if n in Ids(t.left) then TreeCell(t.left, t.item, n)
    else TreeCell(t.right, t.item, n)
  }

  /** The fields of node n of the context c whose hole is filled by the node hole. */
  ghost function CtxCell(c: Around, hole: MapInfo?, n: MapInfo): Cell
    decreases c
  {
    match c
    case Top => Cell(null, null, null, Black)
    case InLeft(k, m, r, up) =>
      if n == m then Cell(hole, RootOf(r), ParentOf(up), k)
      else if n in Ids(r) then TreeCell(r, m, n) else CtxCell(up, m, n)
    case InRight(k, l, m, up) =>
      if n == m then Cell(RootOf(l), hole, ParentOf(up), k)
      else if n in Ids(l) then TreeCell(l, m, n) else CtxCell(up, m, n)
  }

  ghost function CellAt(c: Around, t: Shape, n: MapInfo): Cell {
    if n in Ids(t) then TreeCell(t, ParentOf(c), n) else CtxCell(c, RootOf(t), n)
  }

  ghost function CtxRoot(c: Around, hole: MapInfo?): MapInfo? {
    if c.Top? then hole else CtxRoot(c.up, c.item)
  }

  ghost function Span(c: Around, t: Shape): set<MapInfo> {
    Ids(t) + CtxIds(c)
  }

  lemma {:induction false} AppendIds(d: Around, e: Around)
    requires !e.Top?
    ensures e.item in CtxIds(Append(d, e))
    ensures DistinctCtx(Append(d, e)) && !d.Top? ==> d.item != e.item
    decreases d
  {
    if !d.Top? {
      AppendIds(d.up, e);
    }
  }

  lemma FillSpan(c: Around, t: Shape)
    requires !c.Top?
    ensures Span(c.up, Fill(c, t)) == Span(c, t)
    ensures Distinct(c.up, Fill(c, t)) <==> Distinct(c, t)
  {
  }

  lemma FillCell(c: Around, t: Shape, n: MapInfo)
    requires !c.Top? && Distinct(c, t) && n in Span(c, t)
    ensures CellAt(c.up, Fill(c, t), n) == CellAt(c, t, n)
  {
  }

  lemma {:induction false} RootInside(c: Around, hole: MapInfo?)
    requires !c.Top?
    ensures CtxRoot(c, hole) != null && CtxRoot(c, hole) in CtxIds(c)
    decreases c
  {
    if !c.up.Top? {
      RootInside(c.up, c.item);
    }
  }

  /** The two fields of a parent that may lead to its child in the hole. */
  ghost function Redirect(c: Around, m: Cell, to: MapInfo?): Cell {
    if c.InLeft? then m.(left := to) else m.(right := to)
  }

  lemma Refill(c: Around, a: MapInfo?, b: MapInfo?, n: MapInfo)
    requires DistinctCtx(c) && n in CtxIds(c)
    ensures CtxCell(c, b, n) == if n == c.item then Redirect(c, CtxCell(c, a, n), b) else CtxCell(c, a, n)
  {
  }

  lemma RefillRoot(c: Around, a: MapInfo?, b: MapInfo?)
    ensures CtxRoot(c, b) == if c.Top? then b else CtxRoot(c, a)
  {
  }

  lemma Rehang(t: Shape, p: MapInfo?, q: MapInfo?, n: MapInfo)
    requires n in Ids(t)
    ensures TreeCell(t, q, n) == if n == t.item then TreeCell(t, p, n).(parent := q) else TreeCell(t, p, n)
  {
  }

  /** Three subtrees and two nodes between them that have nothing in common. */
  ghost predicate Apart(a: Shape, x: MapInfo, b: Shape, y: MapInfo, d: Shape) {
    && x != y && x !in Ids(a) && x !in Ids(b) && x !in Ids(d) && y !in Ids(a) && y !in Ids(b) && y !in Ids(d)
    && Ids(a) !! Ids(b) && Ids(a) !! Ids(d) && Ids(b) !! Ids(d)
    && DistinctTree(a) && DistinctTree(b) && DistinctTree(d)
  }

  /** The two shapes that a rotation exchanges. */
  ghost function RightSlope(kx: Color, a: Shape, x: MapInfo, ky: Color, b: Shape, y: MapInfo, d: Shape): Shape {
    Node(kx, a, x, Node(ky, b, y, d))
  }

  ghost function LeftSlope(kx: Color, a: Shape, x: MapInfo, ky: Color, b: Shape, y: MapInfo, d: Shape): Shape {
    Node(ky, Node(kx, a, x, b), y, d)
  }

  lemma SlopesApart(kx: Color, a: Shape, x: MapInfo, ky: Color, b: Shape, y: MapInfo, d: Shape)
    ensures DistinctTree(RightSlope(kx, a, x, ky, b, y, d)) <==> Apart(a, x, b, y, d)
    ensures DistinctTree(LeftSlope(kx, a, x, ky, b, y, d)) <==> Apart(a, x, b, y, d)
    ensures Ids(RightSlope(kx, a, x, ky, b, y, d)) == Ids(LeftSlope(kx, a, x, ky, b, y, d))
         == Ids(a) + {x} + Ids(b) + {y} + Ids(d)
  {
    assert DistinctTree(Node(ky, b, y, d)) <==> y !in Ids(b) && y !in Ids(d) && Ids(b) !! Ids(d) && DistinctTree(b) && DistinctTree(d);
    assert DistinctTree(Node(kx, a, x, b)) <==> x !in Ids(a) && x !in Ids(b) && Ids(a) !! Ids(b) && DistinctTree(a) && DistinctTree(b);
  }

  lemma SlopeCells(kx: Color, a: Shape, x: MapInfo, ky: Color, b: Shape, y: MapInfo, d: Shape, p: MapInfo?, n: MapInfo)
    requires Apart(a, x, b, y, d)
    ensures n in Ids(a) ==> TreeCell(RightSlope(kx, a, x, ky, b, y, d), p, n) == TreeCell(a, x, n) == TreeCell(LeftSlope(kx, a, x, ky, b, y, d), p, n)
    ensures n in Ids(d) ==> TreeCell(RightSlope(kx, a, x, ky, b, y, d), p, n) == TreeCell(d, y, n) == TreeCell(LeftSlope(kx, a, x, ky, b, y, d), p, n)
    ensures n in Ids(b) ==> TreeCell(RightSlope(kx, a, x, ky, b, y, d), p, n) == TreeCell(b, y, n) && TreeCell(LeftSlope(kx, a, x, ky, b, y, d), p, n) == TreeCell(b, x, n)
    ensures TreeCell(RightSlope(kx, a, x, ky, b, y, d), p, x) == Cell(RootOf(a), y, p, kx)
    ensures TreeCell(LeftSlope(kx, a, x, ky, b, y, d), p, x) == Cell(RootOf(a), RootOf(b), y, kx)
    ensures TreeCell(RightSlope(kx, a, x, ky, b, y, d), p, y) == Cell(RootOf(b), RootOf(d), x, ky)
    ensures TreeCell(LeftSlope(kx, a, x, ky, b, y, d), p, y) == Cell(x, RootOf(d), p, ky)
  {
  }

  /** How the fields of each node differ between the two shapes. */
  lemma RotateCells(c: Around, kx: Color, a: Shape, x: MapInfo, ky: Color, b: Shape, y: MapInfo, d: Shape, n: MapInfo)
    requires Distinct(c, RightSlope(kx, a, x, ky, b, y, d)) || Distinct(c, LeftSlope(kx, a, x, ky, b, y, d))
    requires n in Span(c, RightSlope(kx, a, x, ky, b, y, d))
    ensures var m := CellAt(c, RightSlope(kx, a, x, ky, b, y, d), n);
      var m' := CellAt(c, LeftSlope(kx, a, x, ky, b, y, d), n);
      && (n == x ==> m == Cell(RootOf(a), y, ParentOf(c), kx) && m' == Cell(RootOf(a), RootOf(b), y, kx))
      && (n == y ==> m == Cell(RootOf(b), RootOf(d), x, ky) && m' == Cell(x, RootOf(d), ParentOf(c), ky))
      && (n == RootOf(b) ==> m.parent == y && m' == m.(parent := x))
      && (n == ParentOf(c) && c.InLeft? ==> m.left == x && m' == m.(left := y))
      && (n == ParentOf(c) && c.InRight? ==> m.left != x && m.left != y && m.right == x && m' == m.(right := y))
      && (n != x && n != y && n != RootOf(b) && n != ParentOf(c) ==> m' == m)
  {
    SlopesApart(kx, a, x, ky, b, y, d);
    SlopeCells(kx, a, x, ky, b, y, d, ParentOf(c), n);
    if n in CtxIds(c) {
      Refill(c, x, y, n);
    } else if n in Ids(b) {
      Rehang(b, y, x, n);
    }
  }

  lemma TintCell(c: Around, t: Shape, k: Color, n: MapInfo)
    requires n in Span(c, t)
    ensures CellAt(c, Tint(t, k), n) == if n == RootOf(t) then CellAt(c, t, n).(color := k) else CellAt(c, t, n)
  {
  }

  /** A node with at most one child gives its place to that child. */
  lemma SpliceCell(c: Around, t: Shape, child: Shape, n: MapInfo)
    requires Distinct(c, t) && t.Node? && ((t.left.Leaf? && child == t.right) || (t.right.Leaf? && child == t.left))
    requires n in Span(c, t) && n != t.item
    ensures n in Span(c, child)
    ensures CellAt(c, child, n) ==
      if n == RootOf(child) then CellAt(c, t, n).(parent := ParentOf(c))
      else if n == ParentOf(c) then Redirect(c, CellAt(c, t, n), RootOf(child))
      else CellAt(c, t, n)
  {
    if n in CtxIds(c) {
      Refill(c, t.item, RootOf(child), n);
    } else {
      Rehang(child, t.item, ParentOf(c), n);
    }
  }

  /** A node gives its place, with its children and its colour, to a node from outside. */
  lemma ReplaceCell(c: Around, t: Shape, m: MapInfo, n: MapInfo)
    requires Distinct(c, t) && t.Node? && n in Span(c, t) && m !in Span(c, t)
    ensures n == t.item ==> CellAt(c, t.(item := m), m) == CellAt(c, t, n)
    ensures n == t.item || CellAt(c, t.(item := m), n) == (
      if n == RootOf(t.left) || n == RootOf(t.right) then CellAt(c, t, n).(parent := m)
      else if n == ParentOf(c) then Redirect(c, CellAt(c, t, n), m)
      else CellAt(c, t, n))
  {
    if n in CtxIds(c) {
      Refill(c, t.item, m, n);
    } else if n in Ids(t.left) {
      Rehang(t.left, t.item, m, n);
    } else if n in Ids(t.right) {
      Rehang(t.right, t.item, m, n);
    }
  }

  lemma ReplaceSpan(c: Around, t: Shape, m: MapInfo)
    requires Distinct(c, t) && t.Node? && m !in Span(c, t)
    ensures Distinct(c, t.(item := m)) && Span(c, t.(item := m)) == Span(c, t) - {t.item} + {m}
  {
  }

  class RbHead {
    var root: MapInfo?
    ghost var nodes: set<MapInfo>
    ghost var shape: Shape

    constructor ()
      ensures Listing() == Some([]) && nodes == {}
    {
      root, nodes, shape := null, {}, Leaf;
    }

    /** This head's tree is t in the context c. */
    ghost predicate At(c: Around, t: Shape)
      reads this`root, this`nodes, nodes`left, nodes`right, nodes`parent, nodes`color
    {
      && Span(c, t) == nodes && Distinct(c, t) && root == CtxRoot(c, RootOf(t))
      && forall n :: n in nodes ==> n.Look() == CellAt(c, t, n)
    }

    /** Moving the focus up to the parent, or down to a child, changes nothing. */
    lemma Up(c: Around, t: Shape)
      requires !c.Top?
      ensures At(c, t) <==> At(c.up, Fill(c, t))
    {
      FillSpan(c, t);
      if Distinct(c, t) && Span(c, t) == nodes {
        forall n | n in nodes
          ensures CellAt(c.up, Fill(c, t), n) == CellAt(c, t, n)
        {
          FillCell(c, t, n);
        }
      }
    }

    lemma {:induction false} Zoom(c: Around, t: Shape)
      ensures At(c, t) <==> At(Top, Plug(c, t))
      decreases c
    {
      if !c.Top? {
        Up(c, t);
        Zoom(c.up, Fill(c, t));
      }
    }

    /** What the pointers of the focused node and of its parent are. */
    lemma Focus(c: Around, t: Shape)
      requires At(c, t)
      ensures t.Node? ==>
        && t.item in nodes && t.item.parent == ParentOf(c) && t.item.color == t.color
        && t.item.left == RootOf(t.left) && t.item.right == RootOf(t.right)
      ensures !c.Top? ==>
        && c.item in nodes && c.item.color == c.color && c.item.parent == ParentOf(c.up)
        && (c.InLeft? ==> c.item.left == RootOf(t) && c.item.right == RootOf(c.right))
        && (c.InRight? ==> c.item.right == RootOf(t) && c.item.left == RootOf(c.left))
        && (c.InRight? && t.Node? ==> c.item.left != t.item)
    {
      if t.Node? {
        assert t.item.Look() == CellAt(c, t, t.item);
      }
      if !c.Top? {
        assert c.item.Look() == CellAt(c, t, c.item);
      }
    }

    method SetColor(x: MapInfo, k: Color, ghost c: Around, ghost t: Shape)
      requires At(c, t) && RootOf(t) == x
      modifies nodes`left, nodes`right, nodes`parent, nodes`color
      ensures At(c, Tint(t, k))
    {
      forall n | n in nodes
        ensures CellAt(c, Tint(t, k), n) == if n == x then n.Look().(color := k) else n.Look()
      {
        TintCell(c, t, k, n);
      }
      x.color := k;
    }

    /** RB_ROTATE_LEFT: elm goes down to the left, its right child takes its place. */
    method RotateLeftLinks(elm: MapInfo, ghost y: MapInfo, ghost b: MapInfo?, ghost p: MapInfo?)
      returns (tmp: MapInfo)
      requires elm in nodes && y in nodes && (b != null ==> b in nodes) && (p != null ==> p in nodes)
      requires elm.right == y && y.left == b && elm.parent == p
      requires elm != y && elm != b && elm != p && y != b && y != p && (b != null ==> b != p)
      modifies this`root, nodes`left, nodes`right, nodes`parent, nodes`color
      ensures tmp == y
      ensures root == if p == null then y else old(root)
      ensures elm.Look() == old(elm.Look()).(right := b, parent := y)
      ensures y.Look() == old(y.Look()).(left := elm, parent := p)
      ensures b != null ==> b.Look() == old(b.Look()).(parent := elm)
      ensures p != null ==> p.Look() == old(p.Look()).Pointing(elm, y)
      ensures forall n :: n in nodes && n != elm && n != y && n != b && n != p ==> n.Look() == old(n.Look())
    {
      tmp := elm.right;
      elm.right := tmp.left;
      if tmp.left != null {
        tmp.left.parent := elm;
      }
      tmp.parent := elm.parent;
      if tmp.parent != null {
        if elm == elm.parent.left {
          elm.parent.left := tmp;
        } else {
          elm.parent.right := tmp;
        }
      } else {
        root := tmp;
      }
      tmp.left := elm;
      elm.parent := tmp;
    }

    method RotateLeft(elm: MapInfo, ghost c: Around, ghost kx: Color, ghost a: Shape, ghost ky: Color, ghost b: Shape, ghost y: MapInfo, ghost d: Shape)
      returns (tmp: MapInfo)
      requires At(c, RightSlope(kx, a, elm, ky, b, y, d))
      modifies this`root, nodes`left, nodes`right, nodes`parent, nodes`color
      ensures tmp == y
      ensures At(c, LeftSlope(kx, a, elm, ky, b, y, d))
    {
      ghost var t, t' := RightSlope(kx, a, elm, ky, b, y, d), LeftSlope(kx, a, elm, ky, b, y, d);
      SlopesApart(kx, a, elm, ky, b, y, d);
      RotateCells(c, kx, a, elm, ky, b, y, d, elm);
      RotateCells(c, kx, a, elm, ky, b, y, d, y);
      assert elm.Look() == CellAt(c, t, elm) && y.Look() == CellAt(c, t, y);
      tmp := RotateLeftLinks(elm, y, RootOf(b), ParentOf(c));
      forall n | n in nodes
        ensures n.Look() == CellAt(c, t', n)
      {
        RotateCells(c, kx, a, elm, ky, b, y, d, n);
      }
      RefillRoot(c, elm, y);
    }

    /** RB_ROTATE_RIGHT: elm goes down to the right, its left child takes its place. */
    method RotateRightLinks(elm: MapInfo, ghost x: MapInfo, ghost b: MapInfo?, ghost p: MapInfo?)
      returns (tmp: MapInfo)
      requires elm in nodes && x in nodes && (b != null ==> b in nodes) && (p != null ==> p in nodes)
      requires elm.left == x && x.right == b && elm.parent == p
      requires elm != x && elm != b && elm != p && x != b && x != p && (b != null ==> b != p)
      modifies this`root, nodes`left, nodes`right, nodes`parent, nodes`color
      ensures tmp == x
      ensures root == if p == null then x else old(root)
      ensures elm.Look() == old(elm.Look()).(left := b, parent := x)
      ensures x.Look() == old(x.Look()).(right := elm, parent := p)
      ensures b != null ==> b.Look() == old(b.Look()).(parent := elm)
      ensures p != null ==> p.Look() == old(p.Look()).Pointing(elm, x)
      ensures forall n :: n in nodes && n != elm && n != x && n != b && n != p ==> n.Look() == old(n.Look())
    {
      tmp := elm.left;
      elm.left := tmp.right;
      if tmp.right != null {
        tmp.right.parent := elm;
      }
      tmp.parent := elm.parent;
      if tmp.parent != null {
        if elm == elm.parent.left {
          elm.parent.left := tmp;
        } else {
          elm.parent.right := tmp;
        }
      } else {
        root := tmp;
      }
      tmp.right := elm;
      elm.parent := tmp;
    }

    method RotateRight(elm: MapInfo, ghost c: Around, ghost kx: Color, ghost a: Shape, ghost x: MapInfo, ghost ky: Color, ghost b: Shape, ghost d: Shape)
      returns (tmp: MapInfo)
      requires At(c, LeftSlope(kx, a, x, ky, b, elm, d))
      modifies this`root, nodes`left, nodes`right, nodes`parent, nodes`color
      ensures tmp == x
      ensures At(c, RightSlope(kx, a, x, ky, b, elm, d))
    {
      ghost var t, t' := LeftSlope(kx, a, x, ky, b, elm, d), RightSlope(kx, a, x, ky, b, elm, d);
      SlopesApart(kx, a, x, ky, b, elm, d);
      RotateCells(c, kx, a, x, ky, b, elm, d, elm);
      RotateCells(c, kx, a, x, ky, b, elm, d, x);
      assert elm.Look() == CellAt(c, t, elm) && x.Look() == CellAt(c, t, x);
      tmp := RotateRightLinks(elm, x, RootOf(b), ParentOf(c));
      forall n | n in nodes
        ensures n.Look() == CellAt(c, t', n)
      {
        RotateCells(c, kx, a, x, ky, b, elm, d, n);
      }
      RefillRoot(c, elm, x);
    }

    /** Moving the focus to the sibling changes nothing. */
    lemma Sideways(c: Around, t: Shape)
      requires !c.Top?
      ensures At(c, t) <==> At(SiblingCtx(c, t), Sibling(c))
    {
      Up(c, t);
      Up(SiblingCtx(c, t), Sibling(c));
    }

    method SetSiblingColor(x: MapInfo, k: Color, ghost c: Around, ghost t: Shape)
      requires At(c, t) && !c.Top? && RootOf(Sibling(c)) == x
      modifies nodes`left, nodes`right, nodes`parent, nodes`color
      ensures At(WithSibling(c, Tint(Sibling(c), k)), t)
    {
      Sideways(c, t);
      SetColor(x, k, SiblingCtx(c, t), Sibling(c));
      Sideways(WithSibling(c, Tint(Sibling(c), k)), t);
    }

    /** Red uncle: uncle and parent turn black, the grandparent red. */
    method RecolorFamily(tmp: MapInfo, parent: MapInfo, gparent: MapInfo, ghost c: Around, ghost t: Shape)
      requires At(c, t) && !c.Top? && !c.up.Top?
      requires c.item == parent && c.up.item == gparent && RootOf(Uncle(c)) == tmp
      modifies nodes`left, nodes`right, nodes`parent, nodes`color
      ensures At(c.up.up, Uncled(c, t))
    {
      ghost var p, up := Fill(c, t), WithSibling(c.up, Tint(Uncle(c), Black));
      Up(c, t);
      SetSiblingColor(tmp, Black, c.up, p);
      SetColor(parent, Black, up, p);
      Up(up, Tint(p, Black));
      SetColor(gparent, Red, c.up.up, Fill(up, Tint(p, Black)));
    }

    /** One round of the repair when the parent is a left child. */
    method InsertFixLeft(elm0: MapInfo, parent0: MapInfo, gparent: MapInfo, ghost c: Around, ghost t: Shape)
      returns (elm: MapInfo)
      requires At(c, t) && RootOf(t) == elm0 && t.color.Red?
      requires CtxColor(c).Red? && c.item == parent0 && c.up.InLeft? && c.up.item == gparent
      modifies this`root, nodes`left, nodes`right, nodes`parent, nodes`color
      ensures At(Repaired(c, t).0, Repaired(c, t).1) && RootOf(Repaired(c, t).1) == elm
    {
      var parent := parent0;
      elm := elm0;
      Family(c, t);
      var tmp := gparent.right;
      if tmp != null && tmp.color.Red? {
        RecolorFamily(tmp, parent, gparent, c, t);
        elm := gparent;
      } else {
        ghost var (c', t') := Straightened(c, t);
        if parent.right == elm {
          tmp := RotateLeft(parent, c.up, Red, c.left, Red, t.left, elm, t.right);
          parent, elm := elm, parent;
          Up(c', t');
        }
        TurnRight(parent, gparent, c', t');
      }
    }

    /** The mirror image: the parent is a right child. */
    method InsertFixRight(elm0: MapInfo, parent0: MapInfo, gparent: MapInfo, ghost c: Around, ghost t: Shape)
      returns (elm: MapInfo)
      requires At(c, t) && RootOf(t) == elm0 && t.color.Red?
      requires CtxColor(c).Red? && c.item == parent0 && c.up.InRight? && c.up.item == gparent
      modifies this`root, nodes`left, nodes`right, nodes`parent, nodes`color
      ensures At(Repaired(c, t).0, Repaired(c, t).1) && RootOf(Repaired(c, t).1) == elm
    {
      var parent := parent0;
      elm := elm0;
      Family(c, t);
      var tmp := gparent.left;
      if tmp != null && tmp.color.Red? {
        RecolorFamily(tmp, parent, gparent, c, t);
        elm := gparent;
      } else {
        ghost var (c', t') := Straightened(c, t);
        if parent.left == elm {
          tmp := RotateRight(parent, c.up, Red, t.left, elm, Red, t.right, c.right);
          parent, elm := elm, parent;
          Up(c', t');
        }
        TurnLeft(parent, gparent, c', t');
      }
    }

    method InsertRound(elm0: MapInfo, parent: MapInfo, ghost c: Around, ghost t: Shape) returns (elm: MapInfo)
      requires At(c, t) && RootOf(t) == elm0 && t.color.Red?
      requires CtxColor(c).Red? && c.item == parent && !c.up.Top?
      modifies this`root, nodes`left, nodes`right, nodes`parent, nodes`color
      ensures At(Repaired(c, t).0, Repaired(c, t).1) && RootOf(Repaired(c, t).1) == elm
    {
      Family(c, t);
      var gparent := parent.parent;
      if parent == gparent.left {
        elm := InsertFixLeft(elm0, parent, gparent, c, t);
      } else {
        elm := InsertFixRight(elm0, parent, gparent, c, t);
      }
    }

    /** RB_INSERT_COLOR: elm is a red node whose parent may be red too. */
    method InsertColor(elm0: MapInfo, ghost c0: Around, ghost t0: Shape, ghost h0: nat)
      returns (ghost w: Shape)
      requires At(c0, t0) && RootOf(t0) == elm0 && RedFocus(c0, t0, h0)
      modifies this`root, nodes`left, nodes`right, nodes`parent, nodes`color
      ensures At(Top, w) && RedBlack(w) && Items(w) == Whole(c0, t0)
    {
      var elm := elm0;
      ghost var c, t, h := c0, t0, h0;
      Focus(c, t);
      var parent := elm.parent;
      while parent != null && parent.color.Red?
        invariant At(c, t) && RootOf(t) == elm && RedFocus(c, t, h)
        invariant parent == ParentOf(c) && (parent != null ==> parent.color == c.color)
        invariant Whole(c, t) == Whole(c0, t0)
        decreases Depth(c)
      {
        RedParent(c, t, h);
        h := RepairedFocus(c, t, h);
        elm := InsertRound(elm, parent, c, t);
        c, t := Repaired(c, t).0, Repaired(c, t).1;
        Focus(c, t);
        parent := elm.parent;
      }
      InsertDone(c, t, h);
      Zoom(c, t);
      w := Plug(c, t);
      Focus(Top, w);
      SetColor(root, Black, Top, w);
      w := Tint(w, Black);
    }

    /** Colours swap between parent and grandparent, and the parent is rotated up to the right. */
    method TurnRight(parent: MapInfo, gparent: MapInfo, ghost c: Around, ghost t: Shape)
      requires At(c, t) && c.InLeft? && c.up.InLeft? && c.item == parent && c.up.item == gparent
      modifies this`root, nodes`left, nodes`right, nodes`parent, nodes`color
      ensures At(OuterCtx(c), t)
    {
      ghost var p, top := Tint(Fill(c, t), Black), c.up.up;
      Up(c, t);
      SetColor(parent, Black, c.up, Fill(c, t));
      Up(c.up, p);
      SetColor(gparent, Red, top, Fill(c.up, p));
      var tmp := RotateRight(gparent, top, Black, t, parent, Red, c.right, c.up.right);
      Up(OuterCtx(c), t);
    }

    method TurnLeft(parent: MapInfo, gparent: MapInfo, ghost c: Around, ghost t: Shape)
      requires At(c, t) && c.InRight? && c.up.InRight? && c.item == parent && c.up.item == gparent
      modifies this`root, nodes`left, nodes`right, nodes`parent, nodes`color
      ensures At(OuterCtx(c), t)
    {
      ghost var p, top := Tint(Fill(c, t), Black), c.up.up;
      Up(c, t);
      SetColor(parent, Black, c.up, Fill(c, t));
      Up(c.up, p);
      SetColor(gparent, Red, top, Fill(c.up, p));
      var tmp := RotateLeft(gparent, top, Red, c.up.left, Black, c.left, parent, t);
      Up(OuterCtx(c), t);
    }

    /** What the pointers around a node with a grandparent are. */
    lemma Family(c: Around, t: Shape)
      requires At(c, t) && t.Node? && !c.Top? && !c.up.Top?
      ensures At(c.up, Fill(c, t))
      ensures c.item.parent == c.up.item && c.item.color == c.color
      ensures c.InLeft? ==> c.item.left == t.item && c.item.right != t.item
      ensures c.InRight? ==> c.item.right == t.item && c.item.left != t.item
      ensures c.up.InLeft? ==> c.up.item.left == c.item && c.up.item.right == RootOf(Uncle(c))
      ensures c.up.InRight? ==> c.up.item.left == RootOf(Uncle(c)) && c.up.item.left != c.item
      ensures Uncle(c).Node? ==> Uncle(c).item.color == Uncle(c).color
    {
      Focus(c, t);
      Up(c, t);
      Focus(c.up, Fill(c, t));
      Up(c.up, Fill(c, t));
      Up(SiblingCtx(c.up, Fill(c, t)), Uncle(c));
      Focus(SiblingCtx(c.up, Fill(c, t)), Uncle(c));
    }

    // ---------- RB_REMOVE_COLOR ----------

    /** What the pointers around a node with a sibling are. */
    lemma Kin(c: Around, t: Shape)
      requires At(c, t) && !c.Top? && Sibling(c).Node?
      ensures var w := Sibling(c);
        && c.item.color == c.color && c.item.parent == ParentOf(c.up)
        && c.item.left == (if c.InLeft? then RootOf(t) else w.item)
        && c.item.right == (if c.InLeft? then w.item else RootOf(t))
        && w.item.left == RootOf(w.left) && w.item.right == RootOf(w.right) && w.item.color == w.color
        && (w.left.Node? ==> w.left.item.color == w.left.color)
        && (w.right.Node? ==> w.right.item.color == w.right.color)
        && w.item != RootOf(t)
    {
      var w := Sibling(c);
      Focus(c, t);
      Sideways(c, t);
      Focus(SiblingCtx(c, t), w);
      Up(InLeft(w.color, w.item, w.right, SiblingCtx(c, t)), w.left);
      Focus(InLeft(w.color, w.item, w.right, SiblingCtx(c, t)), w.left);
      Up(InRight(w.color, w.left, w.item, SiblingCtx(c, t)), w.right);
      Focus(InRight(w.color, w.left, w.item, SiblingCtx(c, t)), w.right);
    }

    method RaiseRightSibling(tmp: MapInfo, parent: MapInfo, ghost c: Around, ghost t: Shape)
      requires At(c, t) && c.InLeft? && c.item == parent && RootOf(Sibling(c)) == tmp
      modifies this`root, nodes`left, nodes`right, nodes`parent, nodes`color
      ensures At(RedSiblingCtx(c), t)
    {
      ghost var w, c' := Sibling(c), RedSiblingCtx(c);
      SetSiblingColor(tmp, Black, c, t);
      Up(WithSibling(c, Tint(w, Black)), t);
      SetColor(parent, Red, c.up, Fill(WithSibling(c, Tint(w, Black)), t));
      var _ := RotateLeft(parent, c.up, Red, t, Black, w.left, w.item, w.right);
      Up(c', t);
      Up(c'.up, Fill(c', t));
    }

    method RaiseLeftSibling(tmp: MapInfo, parent: MapInfo, ghost c: Around, ghost t: Shape)
      requires At(c, t) && c.InRight? && c.item == parent && RootOf(Sibling(c)) == tmp
      modifies this`root, nodes`left, nodes`right, nodes`parent, nodes`color
      ensures At(RedSiblingCtx(c), t)
    {
      ghost var w, c' := Sibling(c), RedSiblingCtx(c);
      SetSiblingColor(tmp, Black, c, t);
      Up(WithSibling(c, Tint(w, Black)), t);
      SetColor(parent, Red, c.up, Fill(WithSibling(c, Tint(w, Black)), t));
      var _ := RotateRight(parent, c.up, Black, w.left, w.item, Red, w.right, t);
      Up(c', t);
      Up(c'.up, Fill(c', t));
    }

    method TurnRightSibling(tmp: MapInfo, oleft: MapInfo, ghost c: Around, ghost t: Shape)
      requires At(c, t) && c.InLeft? && RootOf(Sibling(c)) == tmp && RootOf(Near(c)) == oleft
      modifies this`root, nodes`left, nodes`right, nodes`parent, nodes`color
      ensures At(WithSibling(c, TurnedSibling(c)), t)
    {
      ghost var w, o, s := Sibling(c), Near(c), SiblingCtx(c, t);
      ghost var d := InLeft(w.color, w.item, w.right, s);
      Sideways(c, t);
      Up(d, o);
      SetColor(oleft, Black, d, o);
      Up(d, Tint(o, Black));
      SetColor(tmp, Red, s, Fill(d, Tint(o, Black)));
      var _ := RotateRight(tmp, s, Black, o.left, o.item, Red, o.right, w.right);
      Sideways(WithSibling(c, TurnedSibling(c)), t);
    }

    method TurnLeftSibling(tmp: MapInfo, oright: MapInfo, ghost c: Around, ghost t: Shape)
      requires At(c, t) && c.InRight? && RootOf(Sibling(c)) == tmp && RootOf(Near(c)) == oright
      modifies this`root, nodes`left, nodes`right, nodes`parent, nodes`color
      ensures At(WithSibling(c, TurnedSibling(c)), t)
    {
      ghost var w, o, s := Sibling(c), Near(c), SiblingCtx(c, t);
      ghost var d := InRight(w.color, w.left, w.item, s);
      Sideways(c, t);
      Up(d, o);
      SetColor(oright, Black, d, o);
      Up(d, Tint(o, Black));
      SetColor(tmp, Red, s, Fill(d, Tint(o, Black)));
      var _ := RotateLeft(tmp, s, Red, w.left, Black, o.left, o.item, o.right);
      Sideways(WithSibling(c, TurnedSibling(c)), t);
    }

    /** The colours that the last rotation of a deletion needs. */
    method ColorForEnd(tmp: MapInfo, parent: MapInfo, far: MapInfo, ghost c: Around, ghost t: Shape)
      requires At(c, t) && !c.Top? && c.item == parent && RootOf(Sibling(c)) == tmp && RootOf(Far(c)) == far
      modifies nodes`left, nodes`right, nodes`parent, nodes`color
      ensures At(c.up, EndColored(c, t))
    {
      ghost var w' := Tint(Sibling(c), c.color);
      Focus(c, t);
      SetSiblingColor(tmp, parent.color, c, t);
      ghost var c' := WithSibling(c, w');
      Up(c', t);
      SetColor(parent, Black, c.up, Fill(c', t));
      c' := if c.InLeft? then InLeft(Black, parent, w', c.up) else InRight(Black, w', parent, c.up);
      ghost var s := SiblingCtx(c', t);
      ghost var d := if c.InLeft? then InRight(c.color, w'.left, tmp, s) else InLeft(c.color, tmp, w'.right, s);
      Up(c', t);
      Sideways(c', t);
      Up(d, Far(c));
      SetColor(far, Black, d, Far(c));
      Up(d, Tint(Far(c), Black));
      Up(s, Fill(d, Tint(Far(c), Black)));
    }

    method PaleSibling(tmp: MapInfo, ghost c: Around, ghost t: Shape)
      requires At(c, t) && !c.Top? && RootOf(Sibling(c)) == tmp
      modifies nodes`left, nodes`right, nodes`parent, nodes`color
      ensures At(c.up, Paled(c, t))
      ensures c.item.parent == ParentOf(c.up)
    {
      SetSiblingColor(tmp, Red, c, t);
      Up(WithSibling(c, Tint(Sibling(c), Red)), t);
      Focus(c.up, Paled(c, t));
    }

    /** The sibling of a left child, rotated into place if it was red. */
    method BlackRightSibling(parent: MapInfo, ghost c: Around, ghost t: Shape) returns (tmp: MapInfo)
      requires At(c, t) && c.InLeft? && c.item == parent && Mendable(c)
      modifies this`root, nodes`left, nodes`right, nodes`parent, nodes`color
      ensures At(BlackSiblingCtx(c), t) && RootOf(Sibling(BlackSiblingCtx(c))) == tmp
    {
      Kin(c, t);
      tmp := parent.right;
      if tmp.color.Red? {
        RaiseRightSibling(tmp, parent, c, t);
        Kin(RedSiblingCtx(c), t);
        tmp := parent.right;
      }
    }

    method RemoveFixLeft(tmp: MapInfo, parent0: MapInfo, ghost c: Around, ghost t: Shape)
      returns (elm: MapInfo?, parent: MapInfo?)
      requires At(c, t) && c.InLeft? && c.item == parent0 && RootOf(Sibling(c)) == tmp
      modifies this`root, nodes`left, nodes`right, nodes`parent, nodes`color
      ensures At(MendedBlack(c, t).0, MendedBlack(c, t).1) && RootOf(MendedBlack(c, t).1) == elm
      ensures MendedBlack(c, t).0.Top? || parent == ParentOf(MendedBlack(c, t).0)
    {
      parent := parent0;
      Kin(c, t);
      if (tmp.left == null || tmp.left.color.Black?) && (tmp.right == null || tmp.right.color.Black?) {
        PaleSibling(tmp, c, t);
        elm := parent;
        parent := elm.parent;
      } else {
        EndLeft(tmp, parent, c, t);
        elm := root;
      }
    }

    method EndLeft(tmp0: MapInfo, parent: MapInfo, ghost c: Around, ghost t: Shape)
      requires At(c, t) && c.InLeft? && c.item == parent && RootOf(Sibling(c)) == tmp0
      requires RootColor(Near(c)).Red? || RootColor(Far(c)).Red?
      modifies this`root, nodes`left, nodes`right, nodes`parent, nodes`color
      ensures At(Top, Plug(c.up, Ended(TurnedCtx(c), t))) && RootOf(Plug(c.up, Ended(TurnedCtx(c), t))) == root
    {
      var tmp := tmp0;
      Kin(c, t);
      ghost var c' := TurnedCtx(c);
      if tmp.right == null || tmp.right.color.Black? {
        TurnRightSibling(tmp, tmp.left, c, t);
        Kin(c', t);
        tmp := parent.right;
      }
      ColorForEnd(tmp, parent, tmp.right, c', t);
      var _ := RotateLeft(parent, c.up, Black, t, c.color, Near(c'), tmp, Tint(Far(c'), Black));
      Zoom(c.up, Ended(c', t));
    }

    /** The sibling of a right child, rotated into place if it was red. */
    method BlackLeftSibling(parent: MapInfo, ghost c: Around, ghost t: Shape) returns (tmp: MapInfo)
      requires At(c, t) && c.InRight? && c.item == parent && Mendable(c)
      modifies this`root, nodes`left, nodes`right, nodes`parent, nodes`color
      ensures At(BlackSiblingCtx(c), t) && RootOf(Sibling(BlackSiblingCtx(c))) == tmp
    {
      Kin(c, t);
      tmp := parent.left;
      if tmp.color.Red? {
        RaiseLeftSibling(tmp, parent, c, t);
        Kin(RedSiblingCtx(c), t);
        tmp := parent.left;
      }
    }

    method RemoveFixRight(tmp: MapInfo, parent0: MapInfo, ghost c: Around, ghost t: Shape)
      returns (elm: MapInfo?, parent: MapInfo?)
      requires At(c, t) && c.InRight? && c.item == parent0 && RootOf(Sibling(c)) == tmp
      modifies this`root, nodes`left, nodes`right, nodes`parent, nodes`color
      ensures At(MendedBlack(c, t).0, MendedBlack(c, t).1) && RootOf(MendedBlack(c, t).1) == elm
      ensures MendedBlack(c, t).0.Top? || parent == ParentOf(MendedBlack(c, t).0)
    {
      parent := parent0;
      Kin(c, t);
      if (tmp.left == null || tmp.left.color.Black?) && (tmp.right == null || tmp.right.color.Black?) {
        PaleSibling(tmp, c, t);
        elm := parent;
        parent := elm.parent;
      } else {
        EndRight(tmp, parent, c, t);
        elm := root;
      }
    }

    method EndRight(tmp0: MapInfo, parent: MapInfo, ghost c: Around, ghost t: Shape)
      requires At(c, t) && c.InRight? && c.item == parent && RootOf(Sibling(c)) == tmp0
      requires RootColor(Near(c)).Red? || RootColor(Far(c)).Red?
      modifies this`root, nodes`left, nodes`right, nodes`parent, nodes`color
      ensures At(Top, Plug(c.up, Ended(TurnedCtx(c), t))) && RootOf(Plug(c.up, Ended(TurnedCtx(c), t))) == root
    {
      var tmp := tmp0;
      Kin(c, t);
      ghost var c' := TurnedCtx(c);
      if tmp.left == null || tmp.left.color.Black? {
        TurnLeftSibling(tmp, tmp.right, c, t);
        Kin(c', t);
        tmp := parent.left;
      }
      ColorForEnd(tmp, parent, tmp.left, c', t);
      var _ := RotateRight(parent, c.up, c.color, Tint(Far(c'), Black), tmp, Black, Near(c'), t);
      Zoom(c.up, Ended(c', t));
    }

    /** RB_REMOVE_COLOR: the paths through elm, a child of parent, lack one black node. */
    method RemoveColor(parent0: MapInfo?, elm0: MapInfo?, ghost c0: Around, ghost t0: Shape, ghost h0: nat)
      returns (ghost w: Shape)
      requires At(c0, t0) && RootOf(t0) == elm0 && ParentOf(c0) == parent0 && ShortFocus(c0, t0, h0)
      modifies this`root, nodes`left, nodes`right, nodes`parent, nodes`color
      ensures At(Top, w) && RedBlack(w) && Items(w) == Whole(c0, t0)
    {
      var elm, parent := elm0, parent0;
      ghost var c, t, h := c0, t0, h0;
      Focus(c, t);
      AtRoot(c, t);
      while (elm == null || elm.color.Black?) && elm != root
        invariant At(c, t) && RootOf(t) == elm && ShortFocus(c, t, h)
        invariant elm != null ==> elm.color == t.color
        invariant elm == root <==> c.Top?
        invariant c.Top? || parent == ParentOf(c)
        invariant Whole(c, t) == Whole(c0, t0)
        decreases Rounds(c, t)
      {
        h := MendedFocus(c, t, h);
        elm, parent := RemoveRound(elm, parent, c, t);
        c, t := Mended(c, t).0, Mended(c, t).1;
        Focus(c, t);
        AtRoot(c, t);
      }
      ShortDone(c, t, h);
      if elm != null {
        SetColor(elm, Black, c, t);
      }
      Zoom(c, Tint(t, Black));
      w := Plug(c, Tint(t, Black));
    }

    lemma AtRoot(c: Around, t: Shape)
      requires At(c, t)
      ensures RootOf(t) == root <==> c.Top?
    {
      if !c.Top? {
        RootInside(c, RootOf(t));
      }
    }

    method RemoveRound(elm0: MapInfo?, parent0: MapInfo, ghost c: Around, ghost t: Shape)
      returns (elm: MapInfo?, parent: MapInfo?)
      requires At(c, t) && RootOf(t) == elm0 && !c.Top? && c.item == parent0 && Mendable(c)
      modifies this`root, nodes`left, nodes`right, nodes`parent, nodes`color
      ensures At(Mended(c, t).0, Mended(c, t).1) && RootOf(Mended(c, t).1) == elm
      ensures Mended(c, t).0.Top? || parent == ParentOf(Mended(c, t).0)
    {
      Kin(c, t);
      if parent0.left == elm0 {
        var tmp := BlackRightSibling(parent0, c, t);
        elm, parent := RemoveFixLeft(tmp, parent0, BlackSiblingCtx(c), t);
      } else {
        var tmp := BlackLeftSibling(parent0, c, t);
        elm, parent := RemoveFixRight(tmp, parent0, BlackSiblingCtx(c), t);
      }
    }

    // ---------- RB_REMOVE ----------

    /** The pointers around elm are redirected to its only child. */
    method SpliceLinks(elm: MapInfo, child: MapInfo?, parent: MapInfo?)
      requires elm in nodes && (child != null ==> child in nodes) && (parent != null ==> parent in nodes)
      requires child != elm && parent != elm && (child != null ==> child != parent)
      modifies this`root, nodes`left, nodes`right, nodes`parent, nodes`color
      ensures root == if parent == null then child else old(root)
      ensures child != null ==> child.Look() == old(child.Look()).(parent := parent)
      ensures parent != null ==> parent.Look() == old(parent.Look()).Pointing(elm, child)
      ensures forall n :: n in nodes && n != child && n != parent ==> n.Look() == old(n.Look())
    {
      if child != null {
        child.parent := parent;
      }
      if parent != null {
        if parent.left == elm {
          parent.left := child;
        } else {
          parent.right := child;
        }
      } else {
        root := child;
      }
    }

    method Splice(elm: MapInfo, child: MapInfo?, parent: MapInfo?, ghost c: Around, ghost t: Shape, ghost sub: Shape)
      requires At(c, t) && RootOf(t) == elm && RootOf(sub) == child && ParentOf(c) == parent
      requires (t.left.Leaf? && sub == t.right) || (t.right.Leaf? && sub == t.left)
      modifies this, nodes`left, nodes`right, nodes`parent, nodes`color
      ensures nodes == old(nodes) - {elm} && At(c, sub) && elm.Look() == old(elm.Look())
    {
      Focus(c, t);
      SpliceLinks(elm, child, parent);
      forall n | n in nodes && n != elm
        ensures n.Look() == CellAt(c, sub, n)
      {
        SpliceCell(c, t, sub, n);
      }
      RefillRoot(c, elm, child);
      nodes := nodes - {elm};
    }

    /** elm, which is outside the tree, takes over the fields of old, and old's neighbours now point to elm. */
    method ReplaceLinks(prev: MapInfo, elm: MapInfo)
      requires prev in nodes && elm !in nodes
      requires prev.left != null && prev.left in nodes && prev.left != prev
      requires prev.right != null ==> prev.right in nodes && prev.right != prev && prev.right != prev.left
      requires prev.parent != null ==> prev.parent in nodes && prev.parent != prev && prev.parent != prev.left && prev.parent != prev.right
      modifies this`root, nodes`left, nodes`right, nodes`parent, nodes`color, elm`left, elm`right, elm`parent, elm`color
      ensures root == if old(prev.parent) == null then elm else old(root)
      ensures elm.Look() == old(prev.Look())
      ensures old(prev.left).Look() == old(prev.left.Look()).(parent := elm)
      ensures old(prev.right) != null ==> old(prev.right).Look() == old(prev.right.Look()).(parent := elm)
      ensures old(prev.parent) != null ==> old(prev.parent).Look() == old(prev.parent.Look()).Pointing(prev, elm)
      ensures forall n :: n in nodes && n != old(prev.left) && n != old(prev.right) && n != old(prev.parent) ==> n.Look() == old(n.Look())
    {
      elm.left, elm.right, elm.parent, elm.color := prev.left, prev.right, prev.parent, prev.color;
      if prev.parent != null {
        if prev.parent.left == prev {
          prev.parent.left := elm;
        } else {
          prev.parent.right := elm;
        }
      } else {
        root := elm;
      }
      prev.left.parent := elm;
      if prev.right != null {
        prev.right.parent := elm;
      }
    }

    method Replace(prev: MapInfo, elm: MapInfo, ghost c: Around, ghost t: Shape)
      requires At(c, t) && RootOf(t) == prev && t.left.Node? && elm !in nodes
      modifies this, nodes`left, nodes`right, nodes`parent, nodes`color, elm`left, elm`right, elm`parent, elm`color
      ensures nodes == old(nodes) - {prev} + {elm} && At(c, t.(item := elm))
    {
      Focus(c, t);
      FocusApart(c, t);
      ReplaceLinks(prev, elm);
      forall n | n in nodes && n != prev
        ensures n.Look() == CellAt(c, t.(item := elm), n)
      {
        ReplaceCell(c, t, elm, n);
      }
      ReplaceCell(c, t, elm, prev);
      ReplaceSpan(c, t, elm);
      RefillRoot(c, prev, elm);
      nodes := nodes - {prev} + {elm};
    }

    lemma FocusApart(c: Around, t: Shape)
      requires At(c, t) && t.Node?
      ensures t.left.Node? ==> t.left.item in nodes && t.left.item != t.item && t.left.item != ParentOf(c) && t.left.item != RootOf(t.right)
      ensures t.right.Node? ==> t.right.item in nodes && t.right.item != t.item && t.right.item != ParentOf(c)
      ensures !c.Top? ==> c.item in nodes && c.item != t.item
    {
    }

    ghost predicate Valid()
      reads this, nodes`left, nodes`right, nodes`parent, nodes`color
    {
      At(Top, shape) && RedBlack(shape) && Ascending(Items(shape))
    }

    /** The nodes in ascending order. */
    ghost function Contents(): seq<MapInfo>
      reads this
    {
      Items(shape)
    }

    /** The abstract value of the tree: its nodes in ascending order, or None when it is not a red-black tree. */
    ghost function Listing(): Option<seq<MapInfo>>
      reads this, nodes`left, nodes`right, nodes`parent, nodes`color
    {
      if Valid() then Some(Contents()) else None
    }

    /** Moving the focus between a position and the tree above it changes nothing. */
    lemma {:induction false} ZoomTo(d: Around, e: Around, t: Shape)
      ensures At(Append(d, e), t) <==> At(e, Plug(d, t))
      decreases d
    {
      if !d.Top? {
        Up(Append(d, e), t);
        ZoomTo(d.up, e, Fill(d, t));
      }
    }

    method AfterRemoval(color: Color, parent: MapInfo?, child: MapInfo?, ghost c: Around, ghost sub: Shape, ghost h: nat)
      returns (ghost w: Shape)
      requires At(c, sub) && RootOf(sub) == child && ParentOf(c) == parent
      requires color.Black? ==> ShortFocus(c, sub, h)
      requires color.Red? ==> RedBlack(Plug(c, sub)) && Items(Plug(c, sub)) == Whole(c, sub)
      modifies this`root, nodes`left, nodes`right, nodes`parent, nodes`color
      ensures At(Top, w) && RedBlack(w) && Items(w) == Whole(c, sub)
    {
      if color == Black {
        w := RemoveColor(parent, child, c, sub, h);
      } else {
        w := Plug(c, sub);
        Zoom(c, sub);
      }
    }

    /** The node with at most one child leaves; its child may have to be repaired. */
    method RemoveSimple(elm: MapInfo, child: MapInfo?, ghost c: Around, ghost t: Shape, ghost sub: Shape, ghost h: nat)
      returns (ghost w: Shape)
      requires At(c, t) && RootOf(t) == elm && RootOf(sub) == child && Sound(c, t, h)
      requires (t.left.Leaf? && sub == t.right) || (t.right.Leaf? && sub == t.left)
      modifies this, nodes`left, nodes`right, nodes`parent, nodes`color
      ensures nodes == old(nodes) - {elm}
      ensures At(Top, w) && RedBlack(w) && Items(w) == Whole(c, sub)
    {
      Focus(c, t);
      SpliceFocus(c, t, sub, h);
      var parent, color := elm.parent, elm.color;
      Splice(elm, child, parent, c, t, sub);
      w := AfterRemoval(color, parent, child, c, sub, if color == Black then h - 1 else 0);
    }

    /** The leftmost node below elm0, with its position. */
    method Leftmost(elm0: MapInfo, ghost e: Around, ghost t0: Shape) returns (elm: MapInfo, ghost d: Around, ghost t: Shape)
      requires At(e, t0) && RootOf(t0) == elm0
      ensures At(Append(d, e), t) && RootOf(t) == elm && t.left.Leaf?
      ensures AllLeft(d) && Plug(d, t) == t0
    {
      elm, d, t := elm0, Top, t0;
      Focus(e, t);
      while elm.left != null
        invariant At(Append(d, e), t) && RootOf(t) == elm
        invariant elm.left == RootOf(t.left)
        invariant AllLeft(d) && Plug(d, t) == t0
        decreases t
      {
        d, t := InLeft(t.color, t.item, t.right, d), t.left;
        Up(Append(d, e), t);
        elm := elm.left;
        Focus(Append(d, e), t);
      }
    }

    /** The successor elm leaves its place below prev. */
    method SpliceBelow(prev: MapInfo, elm: MapInfo, child: MapInfo?, parent: MapInfo?, ghost c: Around, ghost t: Shape, ghost d: Around, ghost m: Shape)
      requires RootOf(t) == prev && At(Append(d, InRight(t.color, t.left, prev, c)), m)
      requires RootOf(m) == elm && m.left.Leaf? && RootOf(m.right) == child
      requires parent == ParentOf(Append(d, InRight(t.color, t.left, prev, c)))
      modifies this, nodes`left, nodes`right, nodes`parent, nodes`color
      ensures nodes == old(nodes) - {elm} && elm.Look() == old(elm.Look())
      ensures At(c, Node(t.color, t.left, prev, Plug(d, m.right)))
    {
      ghost var e := InRight(t.color, t.left, prev, c);
      Splice(elm, child, parent, Append(d, e), m, m.right);
      ZoomTo(d, e, m.right);
      Up(e, Plug(d, m.right));
    }

    /** It takes the place of prev; returns the parent of the gap it left. */
    method TakeOver(prev: MapInfo, elm: MapInfo, child: MapInfo?, parent0: MapInfo?, ghost c: Around, ghost t: Shape, ghost d: Around, ghost m: Shape)
      returns (parent: MapInfo?)
      requires RootOf(t) == prev && t.left.Node? && At(Append(d, InRight(t.color, t.left, prev, c)), m)
      requires RootOf(m) == elm && m.left.Leaf? && RootOf(m.right) == child
      requires parent0 == ParentOf(Append(d, InRight(t.color, t.left, prev, c)))
      modifies this, nodes`left, nodes`right, nodes`parent, nodes`color
      ensures nodes == old(nodes) - {prev}
      ensures At(c, Node(t.color, t.left, elm, Plug(d, m.right)))
      ensures parent == if d.Top? then elm else d.item
    {
      ghost var e := InRight(t.color, t.left, prev, c);
      parent := parent0;
      Focus(Append(d, e), m);
      ContextApart(d, e, m, prev);
      SpliceBelow(prev, elm, child, parent, c, t, d, m);
      if elm.parent == prev {
        parent := elm;
      }
      Replace(prev, elm, c, Node(t.color, t.left, prev, Plug(d, m.right)));
    }

    lemma ContextApart(d: Around, e: Around, m: Shape, x: MapInfo)
      requires At(Append(d, e), m) && !e.Top? && e.item == x && m.Node?
      ensures x in nodes && x != m.item
      ensures ParentOf(Append(d, e)) == if d.Top? then x else d.item
      ensures !d.Top? ==> d.item != x
    {
      AppendIds(d, e);
    }

    /** The node prev with two children leaves; its successor takes its place. */
    method RemoveInner(prev: MapInfo, ghost c: Around, ghost t: Shape, ghost h: nat) returns (ghost w: Shape)
      requires At(c, t) && RootOf(t) == prev && t.left.Node? && t.right.Node? && Sound(c, t, h)
      modifies this, nodes`left, nodes`right, nodes`parent, nodes`color
      ensures nodes == old(nodes) - {prev}
      ensures At(Top, w) && RedBlack(w)
      ensures Items(w) == Before(c) + Items(t.left) + Items(t.right) + After(c)
    {
      ghost var e := InRight(t.color, t.left, prev, c);
      Up(e, t.right);
      Focus(c, t);
      var elm: MapInfo;
      ghost var d, m;
      elm, d, m := Leftmost(prev.right, e, t.right);
      Focus(Append(d, e), m);
      var child, parent, color := elm.right, elm.parent, elm.color;
      parent := TakeOver(prev, elm, child, parent, c, t, d, m);
      ghost var g := Append(d, InRight(t.color, t.left, elm, c));
      Up(InRight(t.color, t.left, elm, c), Plug(d, m.right));
      ZoomTo(d, InRight(t.color, t.left, elm, c), m.right);
      ghost var k := InnerSplice(c, t, d, m, elm, h);
      InnerOrder(c, t, d, m);
      w := AfterRemoval(color, parent, child, g, m.right, k);
    }

    method RemoveAt(elm: MapInfo, ghost c: Around, ghost t: Shape, ghost h: nat) returns (ghost w: Shape)
      requires At(c, t) && RootOf(t) == elm && Sound(c, t, h)
      modifies this, nodes`left, nodes`right, nodes`parent, nodes`color
      ensures nodes == old(nodes) - {elm}
      ensures At(Top, w) && RedBlack(w) && Items(w) == Before(c) + Items(t.left) + Items(t.right) + After(c)
    {
      Focus(c, t);
      if elm.left == null {
        w := RemoveSimple(elm, elm.right, c, t, t.right, h);
        assert Before(c) + Items(t.left) == Before(c);
      } else if elm.right == null {
        w := RemoveSimple(elm, elm.left, c, t, t.left, h);
        assert Before(c) + Items(t.left) + Items(t.right) == Before(c) + Items(t.left);
      } else {
        w := RemoveInner(elm, c, t, h);
      }
    }

    /** RB_REMOVE: takes elm out of the tree and returns it. */
    method Remove(elm: MapInfo) returns (prev: MapInfo)
      requires Listing().Some? && elm in nodes
      modifies this, nodes`left, nodes`right, nodes`parent, nodes`color
      ensures prev == elm && nodes == old(nodes) - {elm}
      ensures Listing() == Some(Without(old(Listing().value), elm))
    {
      prev := elm;
      ghost var c, t := Locate(Top, shape, elm);
      ghost var h := Unplug(c, t);
      Zoom(c, t);
      ghost var w := RemoveAt(elm, c, t, h);
      RemoveOrder(c, t, w);
      shape := w;
    }

    // ---------- RB_FIND and RB_INSERT ----------

    /** The path that a search for key follows from position (c, t): left of it everything is smaller, right of it larger. */
    ghost predicate Searching(key: string, c: Around, t: Shape)
      reads this, nodes`left, nodes`right, nodes`parent, nodes`color
    {
      && At(c, t) && Plug(c, t) == shape
      && (forall m :: m in Before(c) ==> StrCmp(m.pathname, key) < 0)
      && (forall m :: m in After(c) ==> StrCmp(key, m.pathname) < 0)
    }

    lemma SearchLeft(key: string, c: Around, t: Shape)
      requires Searching(key, c, t) && t.Node? && Ascending(Items(shape)) && StrCmp(key, t.item.pathname) < 0
      ensures Searching(key, InLeft(t.color, t.item, t.right, c), t.left)
    {
      Up(InLeft(t.color, t.item, t.right, c), t.left);
      PlugItems(c, t);
      SplitWhole(c, t);
      AscendingAround(Before(c) + Items(t.left), t.item, Items(t.right) + After(c));
      forall m | m in After(InLeft(t.color, t.item, t.right, c))
        ensures StrCmp(key, m.pathname) < 0
      {
        if m in Items(t.right) {
          assert m in Items(t.right) + After(c) && Less(t.item, m);
          StrCmpTransitive(key, t.item.pathname, m.pathname);
        }
      }
    }

    lemma SearchRight(key: string, c: Around, t: Shape)
      requires Searching(key, c, t) && t.Node? && Ascending(Items(shape)) && StrCmp(t.item.pathname, key) < 0
      ensures Searching(key, InRight(t.color, t.left, t.item, c), t.right)
    {
      Up(InRight(t.color, t.left, t.item, c), t.right);
      PlugItems(c, t);
      SplitWhole(c, t);
      AscendingAround(Before(c) + Items(t.left), t.item, Items(t.right) + After(c));
      forall m | m in Before(InRight(t.color, t.left, t.item, c))
        ensures StrCmp(m.pathname, key) < 0
      {
        if m in Items(t.left) {
          assert m in Before(c) + Items(t.left) && Less(m, t.item);
          StrCmpTransitive(m.pathname, t.item.pathname, key);
        }
      }
    }

    /** RB_FIND: the node with this path name; steps counts the nodes compared. */
    method Find(key: string) returns (tmp: MapInfo?, ghost steps: nat)
      requires Listing().Some?
      ensures tmp != null ==> tmp in nodes && tmp.pathname == key
      ensures tmp == null ==> forall m :: m in nodes ==> m.pathname != key
      ensures steps <= Height(shape)
    {
      tmp, steps := root, 0;
      ghost var c, t := Top, shape;
      while tmp != null
        invariant Searching(key, c, t) && tmp == RootOf(t)
        invariant steps + Height(t) <= Height(shape)
        decreases t
      {
        steps := steps + 1;
        Focus(c, t);
        var comp := StrCmp(key, tmp.pathname);
        StrCmpFlip(tmp.pathname, key);
        StrCmpEqual(key, tmp.pathname);
        if comp < 0 {
          SearchLeft(key, c, t);
          c, t := InLeft(t.color, t.item, t.right, c), t.left;
          tmp := tmp.left;
        } else if comp > 0 {
          SearchRight(key, c, t);
          c, t := InRight(t.color, t.left, t.item, c), t.right;
          tmp := tmp.right;
        } else {
          return;
        }
      }
      NotThere(key, c);
    }

    lemma NotThere(key: string, c: Around)
      requires Searching(key, c, Leaf)
      ensures forall m :: m in nodes ==> m.pathname != key
    {
      CtxIdsAreItems(c);
      StrCmpEqual(key, key);
    }

    /** The new red leaf is linked where the search ended. */
    method LinkLeaf(elm: MapInfo, parent: MapInfo?, comp: int, ghost c: Around)
      requires At(c, Leaf) && elm !in nodes && parent == ParentOf(c)
      requires c.InLeft? ==> comp < 0
      requires c.InRight? ==> comp >= 0
      modifies this, nodes`left, nodes`right, nodes`parent, nodes`color, elm`left, elm`right, elm`parent, elm`color
      ensures nodes == old(nodes) + {elm} && At(c, Node(Red, Leaf, elm, Leaf)) && shape == old(shape)
    {
      ghost var t := Node(Red, Leaf, elm, Leaf);
      Focus(c, Leaf);
      elm.parent := parent;
      elm.left, elm.right := null, null;
      elm.color := Red;
      if parent != null {
        if comp < 0 {
          parent.left := elm;
        } else {
          parent.right := elm;
        }
      } else {
        root := elm;
      }
      forall n | n in nodes
        ensures n.Look() == CellAt(c, t, n)
      {
        Refill(c, null, elm, n);
      }
      RefillRoot(c, null, elm);
      nodes := nodes + {elm};
    }

    method AddLeaf(elm: MapInfo, parent: MapInfo?, comp: int, ghost c: Around) returns (ghost w: Shape)
      requires At(c, Leaf) && RedBlack(Plug(c, Leaf)) && elm !in nodes && parent == ParentOf(c)
      requires c.InLeft? ==> comp < 0
      requires c.InRight? ==> comp >= 0
      modifies this, nodes`left, nodes`right, nodes`parent, nodes`color, elm`left, elm`right, elm`parent, elm`color
      ensures nodes == old(nodes) + {elm}
      ensures At(Top, w) && RedBlack(w) && Items(w) == Whole(c, Node(Red, Leaf, elm, Leaf))
    {
      ghost var h := Unplug(c, Leaf);
      NewLeaf(c, elm, h);
      LinkLeaf(elm, parent, comp, c);
      w := InsertColor(elm, c, Node(Red, Leaf, elm, Leaf), h);
    }

    /** Where the search for key ends: at the node with that path name, or below parent on the side comp tells. */
    method Descend(key: string) returns (tmp: MapInfo?, parent: MapInfo?, comp: int, ghost c: Around)
      requires Valid()
      ensures tmp != null ==> tmp in nodes && tmp.pathname == key
      ensures tmp == null ==> Searching(key, c, Leaf) && parent == ParentOf(c)
      ensures tmp == null ==> (c.InLeft? ==> comp < 0) && (c.InRight? ==> comp > 0)
    {
      tmp, parent, comp, c := root, null, 0, Top;
      ghost var t := shape;
      while tmp != null
        invariant Searching(key, c, t) && tmp == RootOf(t) && parent == ParentOf(c)
        invariant (c.InLeft? ==> comp < 0) && (c.InRight? ==> comp > 0)
        decreases t
      {
        Focus(c, t);
        parent := tmp;
        comp := StrCmp(key, parent.pathname);
        StrCmpFlip(parent.pathname, key);
        StrCmpEqual(key, parent.pathname);
        if comp < 0 {
          SearchLeft(key, c, t);
          c, t := InLeft(t.color, t.item, t.right, c), t.left;
          tmp := tmp.left;
        } else if comp > 0 {
          SearchRight(key, c, t);
          c, t := InRight(t.color, t.left, t.item, c), t.right;
          tmp := tmp.right;
        } else {
          return;
        }
      }
    }

    method InsertNew(elm: MapInfo, parent: MapInfo?, comp: int, ghost c: Around)
      requires Valid() && elm !in nodes && Searching(elm.pathname, c, Leaf) && parent == ParentOf(c)
      requires c.InLeft? ==> comp < 0
      requires c.InRight? ==> comp >= 0
      modifies this, nodes`left, nodes`right, nodes`parent, nodes`color, elm`left, elm`right, elm`parent, elm`color
      ensures nodes == old(nodes) + {elm} && Listing().Some?
      ensures elm in Listing().value && Without(Listing().value, elm) == old(Contents())
    {
      InsertOrder(c, elm);
      shape := AddLeaf(elm, parent, comp, c);
    }

    /** RB_INSERT: returns the node that already has elm's path name, or null after adding elm. */
    method Insert(elm: MapInfo) returns (other: MapInfo?)
      requires Listing().Some? && elm !in nodes
      modifies this, nodes`left, nodes`right, nodes`parent, nodes`color, elm`left, elm`right, elm`parent, elm`color
      ensures Listing().Some?
      ensures other != null ==>
        && other in old(nodes) && other.pathname == elm.pathname
        && Listing() == old(Listing()) && nodes == old(nodes) && root == old(root)
        && forall n :: n in nodes + {elm} ==> n.Look() == old(n.Look())
      ensures other == null ==>
        && (forall m :: m in old(nodes) ==> m.pathname != elm.pathname)
        && nodes == old(nodes) + {elm}
        && elm in Listing().value && Without(Listing().value, elm) == old(Listing().value)
    {
      var tmp, parent, comp;
      ghost var c;
      tmp, parent, comp, c := Descend(elm.pathname);
      if tmp != null {
        return tmp;
      }
      NotThere(elm.pathname, c);
      InsertNew(elm, parent, comp, c);
      other := null;
    }

    // ---------- RB_MINMAX, RB_NEXT, RB_FOREACH_SAFE ----------

    /** RB_MINMAX: the first node for a negative val, otherwise the last one. */
    method MinMax(val: int) returns (parent: MapInfo?)
      requires Listing().Some?
      ensures var s := Listing().value;
        parent == if s == [] then null else if val < 0 then s[0] else s[|s| - 1]
    {
      var tmp := root;
      parent := null;
      ghost var c, t := Top, shape;
      while tmp != null
        invariant At(c, t) && Plug(c, t) == shape && tmp == RootOf(t) && parent == ParentOf(c)
        invariant val < 0 ==> Before(c) == [] && (!c.Top? ==> After(c) != [] && After(c)[0] == c.item)
        invariant val >= 0 ==> After(c) == [] && (!c.Top? ==> Before(c) != [] && Before(c)[|Before(c)| - 1] == c.item)
        decreases t
      {
        Focus(c, t);
        parent := tmp;
        if val < 0 {
          tmp := tmp.left;
          c, t := InLeft(t.color, t.item, t.right, c), t.left;
        } else {
          tmp := tmp.right;
          c, t := InRight(t.color, t.left, t.item, c), t.right;
        }
        Up(c, t);
      }
      PlugItems(c, Leaf);
    }

    /** RB_NEXT: the node after elm, or null after the last one. */
    method Next(elm0: MapInfo) returns (elm: MapInfo?)
      requires Listing().Some? && elm0 in nodes
      ensures Follows(Listing().value, elm0, elm)
    {
      elm := elm0;
      ghost var c, t := Locate(Top, shape, elm0);
      ghost var a, b := Before(c) + Items(t.left), Items(t.right) + After(c);
      Zoom(c, t);
      PlugItems(c, t);
      SplitWhole(c, t);
      Focus(c, t);
      if elm.right != null {
        ghost var e := InRight(t.color, t.left, elm, c);
        Up(e, t.right);
        ghost var d, m;
        elm, d, m := Leftmost(elm.right, e, t.right);
        LeftmostItems(d, m);
      } else {
        if elm.parent != null && elm == elm.parent.left {
          elm := elm.parent;
        } else {
          elm := NextAbove(elm, c, t);
        }
      }
      MiddleFollows(a, elm0, b, elm);
    }

    /** Climbing while elm is a right child leads below the node that comes after its subtree. */
    method NextAbove(elm0: MapInfo, ghost c0: Around, ghost t0: Shape) returns (elm: MapInfo?)
      requires At(c0, t0) && RootOf(t0) == elm0
      ensures After(c0) == [] <==> elm == null
      ensures elm != null ==> elm == After(c0)[0]
    {
      elm := elm0;
      ghost var c, t := c0, t0;
      Focus(c, t);
      while elm.parent != null && elm == elm.parent.right
        invariant elm != null && At(c, t) && RootOf(t) == elm && After(c) == After(c0)
        invariant elm.parent == ParentOf(c)
        invariant !c.Top? ==> (c.InRight? <==> c.item.right == elm)
        decreases Depth(c)
      {
        Up(c, t);
        elm := elm.parent;
        c, t := c.up, Fill(c, t);
        Focus(c, t);
        FocusApart(c, t);
      }
      elm := elm.parent;
    }

    /** The successor is saved before the first node is removed, and it survives the removal. */
    method TakeFirst(x: MapInfo) returns (y: MapInfo?)
      requires Listing().Some? && Listing().value != [] && x == Listing().value[0]
      modifies this, nodes`left, nodes`right, nodes`parent, nodes`color
      ensures nodes == old(nodes) - {x} && Listing() == Some(old(Listing().value[1..]))
      ensures y == if Listing() == Some([]) then null else Listing().value[0]
    {
      ListingNodes();
      y := Next(x);
      HeadFollows(Listing().value, y);
      var _ := Remove(x);
    }

    /** RB_FOREACH_SAFE with the current node removed in each round. */
    method Drain() returns (visited: seq<MapInfo>)
      requires Listing().Some?
      modifies this, nodes`left, nodes`right, nodes`parent, nodes`color
      ensures visited == old(Listing().value)
      ensures Listing() == Some([]) && root == null && nodes == {}
    {
      hide *;
      visited := [];
      var x := MinMax(-1);
      while x != null
        invariant Listing().Some? && nodes <= old(nodes)
        invariant visited + Listing().value == old(Listing().value)
        invariant x == if Listing() == Some([]) then null else Listing().value[0]
        decreases |Listing().value|
      {
        var first: MapInfo := x;
        ghost var v, s := visited, Listing().value;
        x := TakeFirst(first);
        visited := visited + [first];
        MoveHead(v, s);
      }
      NothingLeft();
    }

    /** Moving the first element from one sequence to the end of the other. */
    static lemma MoveHead(v: seq<MapInfo>, s: seq<MapInfo>)
      requires s != []
      ensures v + [s[0]] + s[1..] == v + s
    {
    }

    lemma NothingLeft()
      requires Listing() == Some([])
      ensures root == null && nodes == {}
    {
      IdsAreItems(shape);
      if shape.Node? {
        assert false;
      }
    }

    /** A tree whose head and links stayed as they were is listed as before. */
    twostate lemma Undisturbed()
      requires unchanged(this) && forall n :: n in nodes ==> n.Look() == old(n.Look())
      ensures Listing() == old(Listing())
    {
    }

    /** The listing holds exactly the nodes of the tree, in strictly ascending order of path names. */
    lemma ListingNodes()
      requires Listing().Some?
      ensures (set n | n in Listing().value) == nodes
      ensures Ascending(Listing().value)
    {
      IdsAreItems(shape);
      assert nodes == Ids(shape) && Listing().value == Items(shape);
    }

    /** No two nodes of a tree share a path name. */
    lemma UniquePath(m: MapInfo, n: MapInfo)
      requires Listing().Some? && m in nodes && n in nodes && m.pathname == n.pathname
      ensures m == n
    {
      ListingNodes();
      var s := Listing().value;
      var i, j :| 0 <= i < |s| && 0 <= j < |s| && s[i] == m && s[j] == n;
      StrCmpEqual(m.pathname, n.pathname);
    }

    lemma OnlyOne(m: MapInfo)
      requires Listing().Some? && m in nodes
      ensures forall n :: n in nodes && n.pathname == m.pathname ==> n == m
    {
      forall n | n in nodes && n.pathname == m.pathname
        ensures n == m
      {
        UniquePath(m, n);
      }
    }

    /** Lookups stay within the height 2 lg(n + 1), stated without the logarithm. */
    lemma SearchBound()
      requires Listing().Some?
      ensures Pow2(Height(shape)) <= (|Listing().value| + 1) * (|Listing().value| + 1)
    {
      HeightBound(shape);
    }
  }

  /** y comes right after x in s, or x is last and y is null. */
  ghost predicate Follows(s: seq<MapInfo>, x: MapInfo, y: MapInfo?) {
    exists i :: FollowsAt(s, x, y, i)
  }

  ghost predicate FollowsAt(s: seq<MapInfo>, x: MapInfo, y: MapInfo?, i: int) {
    0 <= i < |s| && s[i] == x && y == if i + 1 < |s| then s[i + 1] else null
  }

  lemma MiddleFollows(a: seq<MapInfo>, x: MapInfo, b: seq<MapInfo>, y: MapInfo?)
    requires y == if b == [] then null else b[0]
    ensures Follows(a + [x] + b, x, y)
  {
    assert FollowsAt(a + [x] + b, x, y, |a|);
  }

  lemma HeadFollows(s: seq<MapInfo>, y: MapInfo?)
    requires Ascending(s) && s != [] && Follows(s, s[0], y)
    ensures y == if |s| > 1 then s[1] else null
    ensures Without(s, s[0]) == s[1..]
  {
    Irreflexive(s[0]);
  }

  /** Filling an empty place of an ascending tree with a node that fits between its neighbours. */
  lemma InsertOrder(c: Around, elm: MapInfo)
    requires Ascending(Items(Plug(c, Leaf)))
    requires forall m :: m in Before(c) ==> Less(m, elm)
    requires forall m :: m in After(c) ==> Less(elm, m)
    ensures var s := Whole(c, Node(Red, Leaf, elm, Leaf));
      Ascending(s) && elm in s && Without(s, elm) == Items(Plug(c, Leaf))
  {
    var a, b := Before(c), After(c);
    PlugItems(c, Leaf);
    assert Items(Plug(c, Leaf)) == a + b;
    assert Whole(c, Node(Red, Leaf, elm, Leaf)) == a + [elm] + b;
    if elm in a {
      Irreflexive(elm);
    }
    WithoutMiddle(a, elm, b);
    AddMiddle(a, elm, b);
  }

  lemma AddMiddle(a: seq<MapInfo>, x: MapInfo, b: seq<MapInfo>)
    requires Ascending(a + b)
    requires forall m :: m in a ==> Less(m, x)
    requires forall m :: m in b ==> Less(x, m)
    ensures Ascending(a + [x] + b)
  {
    var s := a + [x] + b;
    forall i, j | 0 <= i < j < |s|
      ensures Less(s[i], s[j])
    {
      if i != |a| && j != |a| {
        var i', j' := if i < |a| then i else i - 1, if j < |a| then j else j - 1;
        assert (a + b)[i'] == s[i] && (a + b)[j'] == s[j];
      }
    }
  }



  lemma AscendingAround(a: seq<MapInfo>, x: MapInfo, b: seq<MapInfo>)
    requires Ascending(a + [x] + b)
    ensures forall m :: m in a ==> Less(m, x)
    ensures forall m :: m in b ==> Less(x, m)
  {
    var s := a + [x] + b;
    assert s[|a|] == x;
    forall m | m in a
      ensures Less(m, x)
    {
      var i :| 0 <= i < |a| && a[i] == m;
      assert s[i] == m;
    }
    forall m | m in b
      ensures Less(x, m)
    {
      var i :| 0 <= i < |b| && b[i] == m;
      assert s[|a| + 1 + i] == m;
    }
  }

  /** s without its first x. */
  ghost function Without<T>(s: seq<T>, x: T): seq<T> {
    if s == [] then [] else if s[0] == x then s[1..] else [s[0]] + Without(s[1..], x)
  }

  lemma {:induction false} WithoutMiddle<T>(a: seq<T>, x: T, b: seq<T>)
    requires x !in a
    ensures Without(a + [x] + b, x) == a + b
  {
    if a == [] {
      assert a + [x] + b == [x] + b;
      assert ([x] + b)[1..] == b;
      assert a + b == b;
    } else {
      WithoutMiddle(a[1..], x, b);
      assert (a + [x] + b)[1..] == a[1..] + [x] + b;
      assert a + b == [a[0]] + (a[1..] + b);
    }
  }

  lemma DropMiddle(a: seq<MapInfo>, x: MapInfo, b: seq<MapInfo>)
    requires Ascending(a + [x] + b)
    ensures Without(a + [x] + b, x) == a + b && Ascending(a + b)
  {
    var s := a + [x] + b;
    if x in a {
      var i :| 0 <= i < |a| && a[i] == x;
      assert s[i] == x && s[|a|] == x;
      Irreflexive(x);
    }
    WithoutMiddle(a, x, b);
    forall i, j | 0 <= i < j < |a + b|
      ensures Less((a + b)[i], (a + b)[j])
    {
      var i', j' := if i < |a| then i else i + 1, if j < |a| then j else j + 1;
      assert (a + b)[i] == s[i'] && (a + b)[j] == s[j'];
    }
  }

  /** Dropping the focused node from an ascending tree. */
  lemma RemoveOrder(c: Around, t: Shape, w: Shape)
    requires t.Node? && Ascending(Items(Plug(c, t)))
    requires Items(w) == Before(c) + Items(t.left) + Items(t.right) + After(c)
    ensures Items(w) == Without(Items(Plug(c, t)), t.item) && Ascending(Items(w))
  {
    var a, b := Before(c) + Items(t.left), Items(t.right) + After(c);
    PlugItems(c, t);
    SplitWhole(c, t);
    DropMiddle(a, t.item, b);
    Regroup(a, Items(t.right), After(c));
  }

  /** The position of a node inside a tree. */
  lemma {:induction false} Locate(c0: Around, t0: Shape, x: MapInfo) returns (c: Around, t: Shape)
    requires x in Ids(t0)
    ensures Plug(c, t) == Plug(c0, t0) && t.Node? && t.item == x
    decreases t0
  {
    if x == t0.item {
      c, t := c0, t0;
    } else if x in Ids(t0.left) {
      c, t := Locate(InLeft(t0.color, t0.item, t0.right, c0), t0.left, x);
    } else {
      c, t := Locate(InRight(t0.color, t0.left, t0.item, c0), t0.right, x);
    }
  }
}
