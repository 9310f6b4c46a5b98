/** The pointers of the intrusive tree as a value: what the fields of each node
    hold, and which tree they spell out.

    `Focus(s, p, t)` says that position `p` of the tree in store `s` holds
    subtree `t`.  The pointer operations of ffbase/rbtree.h are functions on
    stores here; each lemma says what one of them does to (p, t).
  */
module RbStore {
  import opened RbShape

  datatype Cell = Cell(left: Node?, right: Node?, parent: Node?, color: Color)

  /** `sentl` stands for every missing child and for the parent of the root. */
  datatype Store = Store(cells: map<Node, Cell>, root: Node, sentl: Node)

  ghost function At(s: Store, t: Tree): Node { if t.Leaf? then s.sentl else t.node }

  ghost function ParentAt(s: Store, p: Path): Node { if p.Top? then s.sentl else p.node }

  /** The pointers below `n`, and those back up to `parent`, spell out `t`. */
  ghost predicate Rep(s: Store, t: Tree, n: Node?, parent: Node?) {
    match t
    case Leaf => n == s.sentl
    case Fork(l, m, c, r) =>
      && n == m && m in s.cells
      && s.cells[m].parent == parent && s.cells[m].color == c
      && Rep(s, l, s.cells[m].left, m) && Rep(s, r, s.cells[m].right, m)
  }

  /** The pointers around a position occupied by `child` spell out `p`. */
  ghost predicate RepPath(s: Store, p: Path, child: Node) {
    match p
    case Top => s.root == child
    case InLeft(up, m, c, sib) =>
      && m in s.cells && s.cells[m].left == child
      && s.cells[m].color == c && s.cells[m].parent == ParentAt(s, up)
      && Rep(s, sib, s.cells[m].right, m) && RepPath(s, up, m)
    case InRight(up, m, c, sib) =>
      && m in s.cells && s.cells[m].right == child
      && s.cells[m].color == c && s.cells[m].parent == ParentAt(s, up)
      && Rep(s, sib, s.cells[m].left, m) && RepPath(s, up, m)
  }

  ghost predicate Separate(s: Store, p: Path, t: Tree) {
    && Distinct(t) && DistinctPath(p) && Nodes(t) !! PathNodes(p)
    && Nodes(t) <= s.cells.Keys && PathNodes(p) <= s.cells.Keys && s.sentl in s.cells
    && s.sentl !in Nodes(t) && s.sentl !in PathNodes(p)
  }

  ghost predicate Focus(s: Store, p: Path, t: Tree) {
    && Separate(s, p, t)
    && Rep(s, t, At(s, t), ParentAt(s, p))
    && RepPath(s, p, At(s, t))
  }

  // ---------- moving the focus ----------

  lemma FocusUp(s: Store, p: Path, t: Tree)
    requires !p.Top?
    ensures Focus(s, p, t) <==> Focus(s, p.up, Join(p, t))
  {
    var m, j := p.node, Join(p, t);
    assert Nodes(j) + PathNodes(p.up) == Nodes(t) + PathNodes(p);
    assert Separate(s, p, t) <==> Separate(s, p.up, j);
    if m in s.cells {
      var child := if p.InLeft? then s.cells[m].left else s.cells[m].right;
      assert Rep(s, t, child, m) ==> child == At(s, t);
    }
    assert Rep(s, j, m, ParentAt(s, p.up)) && RepPath(s, p.up, m)
      <==> Rep(s, t, At(s, t), m) && RepPath(s, p, At(s, t));
  }

  lemma {:induction false} FocusPlug(s: Store, p: Path, t: Tree)
    ensures Focus(s, p, t) <==> Focus(s, Top, Plug(p, t))
    decreases p
  {
    if p.Top? {
    } else {
      FocusUp(s, p, t);
      FocusPlug(s, p.up, Join(p, t));
    }
  }

  lemma {:induction false} FocusAppend(s: Store, q: Path, base: Path, t: Tree)
    ensures Focus(s, Append(q, base), t) <==> Focus(s, base, Plug(q, t))
    decreases q
  {
    if q.Top? {
    } else {
      FocusUp(s, Append(q, base), t);
      FocusAppend(s, q.up, base, Join(q, t));
    }
  }

  // ---------- what writes elsewhere leave alone ----------

  ghost predicate Agree(s: Store, s': Store, ns: set<Node>) {
    forall n :: n in ns && n in s.cells ==> n in s'.cells && s.cells[n] == s'.cells[n]
  }

  lemma {:induction false} RepFrame(s: Store, s': Store, t: Tree, n: Node?, parent: Node?)
    requires Rep(s, t, n, parent) && Agree(s, s', Nodes(t)) && s.sentl == s'.sentl
    ensures Rep(s', t, n, parent)
  {
    if t.Leaf? {
    } else {
      RepFrame(s, s', t.left, s.cells[t.node].left, t.node);
      RepFrame(s, s', t.right, s.cells[t.node].right, t.node);
    }
  }

  lemma RepReparent(s: Store, s': Store, t: Tree, parent: Node?, parent': Node?)
    requires Rep(s, t, At(s, t), parent) && Distinct(t) && s.sentl == s'.sentl
    requires t.Fork? ==> t.node in s'.cells && s'.cells[t.node] == s.cells[t.node].(parent := parent')
    requires Agree(s, s', Nodes(t) - {At(s, t)})
    ensures Rep(s', t, At(s, t), parent')
  {
    if t.Fork? {
      RepFrame(s, s', t.left, s.cells[t.node].left, t.node);
      RepFrame(s, s', t.right, s.cells[t.node].right, t.node);
    }
  }

  lemma {:induction false} PathFrame(s: Store, s': Store, p: Path, child: Node)
    requires RepPath(s, p, child) && Agree(s, s', PathNodes(p))
    requires s.sentl == s'.sentl && s.root == s'.root
    ensures RepPath(s', p, child)
  {
    if p.Top? {
    } else {
      RepFrame(s, s', p.sibling, if p.InLeft? then s.cells[p.node].right else s.cells[p.node].left, p.node);
      PathFrame(s, s', p.up, p.node);
    }
  }

  // ---------- pointer operations ----------

  ghost function SetParent(s: Store, n: Node, p: Node): Store
    requires n in s.cells
  { s.(cells := s.cells[n := s.cells[n].(parent := p)]) }

  ghost function LinkLeft(s: Store, p: Node, n: Node): Store
    requires p in s.cells && n in s.cells
  { SetParent(s.(cells := s.cells[p := s.cells[p].(left := n)]), n, p) }

  ghost function LinkRight(s: Store, p: Node, n: Node): Store
    requires p in s.cells && n in s.cells
  { SetParent(s.(cells := s.cells[p := s.cells[p].(right := n)]), n, p) }

  lemma LinkLeftCells(s: Store, p: Node, n: Node)
    requires p in s.cells && n in s.cells && p != n
    ensures var s' := LinkLeft(s, p, n);
      && s'.root == s.root && s'.sentl == s.sentl && s'.cells.Keys == s.cells.Keys
      && s'.cells[p] == s.cells[p].(left := n) && s'.cells[n] == s.cells[n].(parent := p)
      && Agree(s, s', s.cells.Keys - {p, n})
  {}

  lemma LinkRightCells(s: Store, p: Node, n: Node)
    requires p in s.cells && n in s.cells && p != n
    ensures var s' := LinkRight(s, p, n);
      && s'.root == s.root && s'.sentl == s.sentl && s'.cells.Keys == s.cells.Keys
      && s'.cells[p] == s.cells[p].(right := n) && s'.cells[n] == s.cells[n].(parent := p)
      && Agree(s, s', s.cells.Keys - {p, n})
  {}

  /** `n` takes the place of `o` below the parent of `o`. */
  ghost function Relink(s: Store, o: Node, n: Node): Store
    requires o in s.cells && n in s.cells
    requires s.cells[o].parent != null && s.cells[o].parent in s.cells
  {
    var q := s.cells[o].parent;
    var s1 :=
      if q == s.sentl then s.(root := n)
      else if s.cells[q].left == o then s.(cells := s.cells[q := s.cells[q].(left := n)])
      else s.(cells := s.cells[q := s.cells[q].(right := n)]);
    SetParent(s1, n, q)
  }

  lemma RelinkPath(s: Store, p: Path, o: Node, n: Node)
    requires RepPath(s, p, o) && DistinctPath(p)
    requires o in s.cells && n in s.cells && PathNodes(p) + {s.sentl} <= s.cells.Keys
    requires s.cells[o].parent == ParentAt(s, p)
    requires s.sentl !in PathNodes(p) && o != s.sentl && o !in PathNodes(p) && n !in PathNodes(p)
    ensures var s' := Relink(s, o, n);
      && RepPath(s', p, n) && s'.cells[n] == s.cells[n].(parent := ParentAt(s, p))
      && Agree(s, s', s.cells.Keys - {n} - (if p.Top? then {} else {p.node}))
      && s'.cells.Keys == s.cells.Keys && s'.sentl == s.sentl
  {
    var s' := Relink(s, o, n);
    if !p.Top? {
      var q := p.node;
      if p.InRight? && p.sibling.Fork? {
        assert s.cells[q].left == p.sibling.node;
      }
      RepFrame(s, s', p.sibling, if p.InLeft? then s.cells[q].right else s.cells[q].left, q);
      PathFrame(s, s', p.up, q);
    }
  }

  // ---------- rotations ----------

  ghost function RotatedLeft(t: Tree): Tree
    requires t.Fork? && t.right.Fork?
  {
    var r := t.right;
    Fork(Fork(t.left, t.node, t.color, r.left), r.node, r.color, r.right)
  }

  ghost function RotatedRight(t: Tree): Tree
    requires t.Fork? && t.left.Fork?
  {
    var l := t.left;
    Fork(l.left, l.node, l.color, Fork(l.right, t.node, t.color, t.right))
  }

  /** Rotations keep the nodes and their in-order sequence. */
  lemma RotationShape(a: Tree, x: Node, c: Color, b: Tree, y: Node, d: Color, e: Tree)
    ensures var low, high := Fork(a, x, c, Fork(b, y, d, e)), Fork(Fork(a, x, c, b), y, d, e);
      && Nodes(low) == Nodes(high) && (Distinct(low) <==> Distinct(high))
  {
    assert Nodes(Fork(a, x, c, b)) == Nodes(a) + {x} + Nodes(b);
    assert Nodes(Fork(b, y, d, e)) == Nodes(b) + {y} + Nodes(e);
  }

  lemma RotationInorder(a: Tree, x: Node, c: Color, c': Color, b: Tree, y: Node, d: Color, d': Color, e: Tree)
    ensures Inorder(Fork(a, x, c, Fork(b, y, d, e))) == Inorder(Fork(Fork(a, x, c', b), y, d', e))
  {
    var u, v, w := Inorder(a) + [x], Inorder(b), Inorder(e);
    assert Inorder(Fork(a, x, c, Fork(b, y, d, e))) == u + (v + [y] + w);
    assert Inorder(Fork(Fork(a, x, c', b), y, d', e)) == (u + v) + [y] + w;
  }

  lemma RepParts(s: Store, t: Tree, n: Node?, parent: Node?)
    requires Rep(s, t, n, parent) && t.Fork?
    ensures n == t.node && n in s.cells
    ensures s.cells[t.node] == Cell(At(s, t.left), At(s, t.right), parent, t.color)
    ensures Rep(s, t.left, At(s, t.left), t.node) && Rep(s, t.right, At(s, t.right), t.node)
  {
    assert Rep(s, t.left, s.cells[t.node].left, t.node);
    assert Rep(s, t.right, s.cells[t.node].right, t.node);
  }

  lemma AgreeLess(s: Store, s': Store, ns: set<Node>, less: set<Node>)
    requires Agree(s, s', ns) && less <= ns
    ensures Agree(s, s', less)
  {}

  lemma AgreeAt(s: Store, s': Store, ns: set<Node>, n: Node)
    requires Agree(s, s', ns) && n in ns && n in s.cells
    ensures n in s'.cells && s'.cells[n] == s.cells[n]
  {}

  lemma AboveIn(p: Path)
    ensures !p.Top? ==> p.node in PathNodes(p)
  {}

  /** What three steps in a row leave alone. */
  lemma AgreeThrough(s: Store, s1: Store, s2: Store, s3: Store, ns: set<Node>)
    requires exists a :: ns <= a && Agree(s, s1, a)
    requires exists a :: ns <= a && Agree(s1, s2, a)
    requires exists a :: ns <= a && Agree(s2, s3, a)
    ensures Agree(s, s3, ns)
  {}

  /** `s1`, `s2`, `s3` are the stores after the three steps of `_ffrbt_left_rotate`. */
  lemma LeftRotateCells(s: Store, p: Path, x: Node, b: Node, y: Node, s1: Store, s2: Store, s3: Store)
    requires PathNodes(p) <= s.cells.Keys && b in s.cells && y in s.cells && x in s.cells
    requires RepPath(s, p, x) && DistinctPath(p) && s.cells[x].parent == ParentAt(s, p)
    requires s.sentl in s.cells && s.sentl !in PathNodes(p)
    requires x !in PathNodes(p) && b !in PathNodes(p) && y !in PathNodes(p)
    requires x != b && x != y && y != b && s.sentl != x && s.sentl != y
    requires s1 == LinkRight(s, x, b) && s2 == Relink(s1, x, y) && s3 == LinkLeft(s2, y, x)
    ensures RepPath(s3, p, y)
    ensures s3.sentl == s.sentl && s3.cells.Keys == s.cells.Keys
    ensures s3.cells[x] == s.cells[x].(right := b, parent := y)
    ensures s3.cells[y] == s.cells[y].(left := x, parent := ParentAt(s, p))
    ensures s3.cells[b] == s.cells[b].(parent := x)
    ensures Agree(s, s3, s.cells.Keys - {x, y, b} - PathNodes(p))
  {
    hide RepPath, DistinctPath, PathNodes, Relink, LinkLeft, LinkRight, Agree;
    var keys, path := s.cells.Keys, PathNodes(p);
    LinkRightCells(s, x, b);
    AgreeLess(s, s1, keys - {x, b}, path);
    PathFrame(s, s1, p, x);
    RelinkPath(s1, p, x, y);
    AboveIn(p);
    AgreeLess(s1, s2, keys - {y} - (if p.Top? then {} else {p.node}), keys - {y} - path);
    AgreeAt(s1, s2, keys - {y} - path, x);
    AgreeAt(s1, s2, keys - {y} - path, b);
    LinkLeftCells(s2, y, x);
    AgreeLess(s2, s3, keys - {y, x}, path);
    AgreeAt(s2, s3, keys - {y, x}, b);
    PathFrame(s2, s3, p, y);
    AgreeThrough(s, s1, s2, s3, keys - {x, y, b} - path);
  }

  lemma RotationDistinct(others: set<Node>, a: Tree, x: Node, b: Tree, y: Node, e: Tree)
    requires Distinct(Fork(a, x, Black, Fork(b, y, Black, e)))
    requires Nodes(Fork(a, x, Black, Fork(b, y, Black, e))) !! others
    ensures x != y && x !in others && y !in others && Distinct(b)
    ensures forall n :: n in Nodes(a) || n in Nodes(e) ==> n != x && n != y && n !in Nodes(b) && n !in others
    ensures forall n :: n in Nodes(b) ==> n != x && n != y && n !in others
  {
    var yt := Fork(b, y, Black, e);
    assert Nodes(yt) == Nodes(b) + {y} + Nodes(e) && Distinct(yt);
  }

  /** The subtrees survive a left rotation: only the parent of `b` changes in them. */
  lemma LeftRotateRep(s: Store, s3: Store, others: set<Node>, parent: Node,
                      a: Tree, x: Node, c: Color, b: Tree, y: Node, d: Color, e: Tree)
    requires Rep(s, Fork(a, x, c, Fork(b, y, d, e)), x, parent)
    requires Distinct(Fork(a, x, c, Fork(b, y, d, e))) && Nodes(Fork(a, x, c, Fork(b, y, d, e))) !! others
    requires Agree(s, s3, s.cells.Keys - {x, y, At(s, b)} - others) && s.sentl == s3.sentl && s.sentl in others
    requires {x, y} <= s3.cells.Keys && (b.Fork? ==> At(s, b) in s3.cells)
    requires s3.cells[x] == Cell(At(s, a), At(s, b), y, c) && s3.cells[y] == Cell(x, At(s, e), parent, d)
    requires b.Fork? ==> b.node in s.cells && s3.cells[b.node] == s.cells[b.node].(parent := x)
    ensures Rep(s3, Fork(Fork(a, x, c, b), y, d, e), y, parent)
  {
    RepParts(s, Fork(a, x, c, Fork(b, y, d, e)), x, parent);
    RepParts(s, Fork(b, y, d, e), y, x);
    RotationDistinct(others, a, x, b, y, e);
    RepReparent(s, s3, b, y, x);
    RepFrame(s, s3, a, At(s, a), x);
    RepFrame(s, s3, e, At(s, e), y);
    assert Rep(s3, Fork(a, x, c, b), x, y);
  }

  lemma LeftRotateFocus(s: Store, p: Path, a: Tree, x: Node, c: Color, b: Tree, y: Node, d: Color, e: Tree,
                        s1: Store, s2: Store, s3: Store)
    requires Focus(s, p, Fork(a, x, c, Fork(b, y, d, e)))
    requires At(s, b) in s.cells && y in s.cells
    requires s1 == LinkRight(s, x, At(s, b))
    requires s1.cells[x].parent != null && s1.cells[x].parent in s1.cells
    requires s2 == Relink(s1, x, y) && s3 == LinkLeft(s2, y, x)
    ensures Focus(s3, p, Fork(Fork(a, x, c, b), y, d, e))
    ensures s3.cells[s.sentl].color == s.cells[s.sentl].color
    ensures b.Fork? ==> s3.cells[s.sentl] == s.cells[s.sentl]
  {
    hide Rep, RepPath, DistinctPath, PathNodes;
    RotationShape(a, x, c, b, y, d, e);
    RepParts(s, Fork(a, x, c, Fork(b, y, d, e)), x, ParentAt(s, p));
    RepParts(s, Fork(b, y, d, e), y, x);
    RotationDistinct(PathNodes(p) + {s.sentl}, a, x, b, y, e);
    LeftRotateCells(s, p, x, At(s, b), y, s1, s2, s3);
    LeftRotateRep(s, s3, PathNodes(p) + {s.sentl}, ParentAt(s, p), a, x, c, b, y, d, e);
  }

  // the mirror image

  lemma RightRotateCells(s: Store, p: Path, y: Node, b: Node, x: Node, s1: Store, s2: Store, s3: Store)
    requires PathNodes(p) <= s.cells.Keys && b in s.cells && y in s.cells && x in s.cells
    requires RepPath(s, p, y) && DistinctPath(p) && s.cells[y].parent == ParentAt(s, p)
    requires s.sentl in s.cells && s.sentl !in PathNodes(p)
    requires x !in PathNodes(p) && b !in PathNodes(p) && y !in PathNodes(p)
    requires x != b && x != y && y != b && s.sentl != x && s.sentl != y
    requires s1 == LinkLeft(s, y, b) && s2 == Relink(s1, y, x) && s3 == LinkRight(s2, x, y)
    ensures RepPath(s3, p, x)
    ensures s3.sentl == s.sentl && s3.cells.Keys == s.cells.Keys
    ensures s3.cells[y] == s.cells[y].(left := b, parent := x)
    ensures s3.cells[x] == s.cells[x].(right := y, parent := ParentAt(s, p))
    ensures s3.cells[b] == s.cells[b].(parent := y)
    ensures Agree(s, s3, s.cells.Keys - {x, y, b} - PathNodes(p))
  {
    hide RepPath, DistinctPath, PathNodes, Relink, LinkLeft, LinkRight, Agree;
    var keys, path := s.cells.Keys, PathNodes(p);
    LinkLeftCells(s, y, b);
    AgreeLess(s, s1, keys - {y, b}, path);
    PathFrame(s, s1, p, y);
    RelinkPath(s1, p, y, x);
    AboveIn(p);
    AgreeLess(s1, s2, keys - {x} - (if p.Top? then {} else {p.node}), keys - {x} - path);
    AgreeAt(s1, s2, keys - {x} - path, y);
    AgreeAt(s1, s2, keys - {x} - path, b);
    LinkRightCells(s2, x, y);
    AgreeLess(s2, s3, keys - {x, y}, path);
    AgreeAt(s2, s3, keys - {x, y}, b);
    PathFrame(s2, s3, p, x);
    AgreeThrough(s, s1, s2, s3, keys - {x, y, b} - path);
  }

  lemma RightRotateRep(s: Store, s3: Store, others: set<Node>, parent: Node,
                       a: Tree, x: Node, c: Color, b: Tree, y: Node, d: Color, e: Tree)
    requires Rep(s, Fork(Fork(a, x, c, b), y, d, e), y, parent)
    requires Distinct(Fork(a, x, c, Fork(b, y, d, e))) && Nodes(Fork(a, x, c, Fork(b, y, d, e))) !! others
    requires Agree(s, s3, s.cells.Keys - {x, y, At(s, b)} - others) && s.sentl == s3.sentl && s.sentl in others
    requires {x, y} <= s3.cells.Keys && (b.Fork? ==> At(s, b) in s3.cells)
    requires s3.cells[y] == Cell(At(s, b), At(s, e), x, d) && s3.cells[x] == Cell(At(s, a), y, parent, c)
    requires b.Fork? ==> b.node in s.cells && s3.cells[b.node] == s.cells[b.node].(parent := y)
    ensures Rep(s3, Fork(a, x, c, Fork(b, y, d, e)), x, parent)
  {
    RepParts(s, Fork(Fork(a, x, c, b), y, d, e), y, parent);
    RepParts(s, Fork(a, x, c, b), x, y);
    RotationDistinct(others, a, x, b, y, e);
    RepReparent(s, s3, b, x, y);
    RepFrame(s, s3, a, At(s, a), x);
    RepFrame(s, s3, e, At(s, e), y);
    assert Rep(s3, Fork(b, y, d, e), y, x);
  }

  /** `s1`, `s2`, `s3` are the stores after the three steps of `_ffrbt_right_rotate`. */
  lemma RightRotateFocus(s: Store, p: Path, a: Tree, x: Node, c: Color, b: Tree, y: Node, d: Color, e: Tree,
                         s1: Store, s2: Store, s3: Store)
    requires Focus(s, p, Fork(Fork(a, x, c, b), y, d, e))
    requires At(s, b) in s.cells && x in s.cells
    requires s1 == LinkLeft(s, y, At(s, b))
    requires s1.cells[y].parent != null && s1.cells[y].parent in s1.cells
    requires s2 == Relink(s1, y, x) && s3 == LinkRight(s2, x, y)
    ensures Focus(s3, p, Fork(a, x, c, Fork(b, y, d, e)))
    ensures s3.cells[s.sentl].color == s.cells[s.sentl].color
    ensures b.Fork? ==> s3.cells[s.sentl] == s.cells[s.sentl]
  {
    hide Rep, RepPath, DistinctPath, PathNodes;
    RotationShape(a, x, c, b, y, d, e);
    RepParts(s, Fork(Fork(a, x, c, b), y, d, e), y, ParentAt(s, p));
    RepParts(s, Fork(a, x, c, b), x, y);
    RotationDistinct(PathNodes(p) + {s.sentl}, a, x, b, y, e);
    RightRotateCells(s, p, y, At(s, b), x, s1, s2, s3);
    RightRotateRep(s, s3, PathNodes(p) + {s.sentl}, ParentAt(s, p), a, x, c, b, y, d, e);
  }

  // ---------- recolouring, attaching, detaching ----------

  ghost function SetColor(s: Store, n: Node, c: Color): Store
    requires n in s.cells
  { s.(cells := s.cells[n := s.cells[n].(color := c)]) }

  lemma SetColorFocus(s: Store, p: Path, t: Tree, c: Color)
    requires Focus(s, p, t) && t.Fork?
    ensures Focus(SetColor(s, t.node, c), p, t.(color := c))
  {
    var s' := SetColor(s, t.node, c);
    RepParts(s, t, t.node, ParentAt(s, p));
    RepFrame(s, s', t.left, At(s, t.left), t.node);
    RepFrame(s, s', t.right, At(s, t.right), t.node);
    PathFrame(s, s', p, t.node);
  }

  /** The child pointer that position `p` stands for, or the root, becomes `n`. */
  ghost function PutChild(s: Store, p: Path, n: Node): Store
    requires !p.Top? ==> p.node in s.cells
  {
    match p
    case Top => s.(root := n)
    case InLeft(_, q, _, _) => s.(cells := s.cells[q := s.cells[q].(left := n)])
    case InRight(_, q, _, _) => s.(cells := s.cells[q := s.cells[q].(right := n)])
  }

  /** A fresh node without children put at an empty position. */
  lemma AttachFocus(s: Store, p: Path, n: Node, c: Color, s': Store)
    requires Focus(s, p, Leaf) && n !in s.cells
    requires !p.Top? ==> p.node in s.cells
    requires s' == PutChild(s, p, n).(cells := PutChild(s, p, n).cells[n := Cell(s.sentl, s.sentl, ParentAt(s, p), c)])
    ensures Focus(s', p, Fork(Leaf, n, c, Leaf))
    ensures s'.cells.Keys == s.cells.Keys + {n}
  {
    if !p.Top? {
      var q := p.node;
      RepFrame(s, s', p.sibling, if p.InLeft? then s.cells[q].right else s.cells[q].left, q);
      PathFrame(s, s', p.up, q);
    }
  }

  lemma PathParts(s: Store, p: Path, child: Node)
    requires RepPath(s, p, child) && !p.Top?
    ensures p.node in s.cells && s.cells[p.node].parent == ParentAt(s, p.up) && s.cells[p.node].color == p.color
    ensures p.InLeft? ==> s.cells[p.node].left == child && s.cells[p.node].right == At(s, p.sibling)
    ensures p.InRight? ==> s.cells[p.node].right == child && s.cells[p.node].left == At(s, p.sibling)
    ensures Rep(s, p.sibling, At(s, p.sibling), p.node) && RepPath(s, p.up, p.node)
  {
    var c := s.cells[p.node];
    assert Rep(s, p.sibling, if p.InLeft? then c.right else c.left, p.node);
  }

  /** Cells of nodes that are in neither the subtree nor the path do not matter. */
  lemma DropFocus(s: Store, p: Path, t: Tree, n: Node)
    requires Focus(s, p, t) && n !in Nodes(t) && n !in PathNodes(p) && n != s.sentl
    ensures Focus(s.(cells := s.cells - {n}), p, t)
  {
    var s' := s.(cells := s.cells - {n});
    RepFrame(s, s', t, At(s, t), ParentAt(s, p));
    PathFrame(s, s', p, At(s, t));
  }

  // ---------- removal ----------

  /** A node with at most one child is replaced by that child, or by nothing. */
  lemma ReplaceByChild(s: Store, p: Path, l: Tree, n: Node, c: Color, r: Tree, s': Store)
    requires Focus(s, p, Fork(l, n, c, r)) && (l.Leaf? || r.Leaf?)
    requires var k := if l.Leaf? then r else l;
      && n in s.cells && At(s, k) in s.cells
      && s.cells[n].parent != null && s.cells[n].parent in s.cells && s' == Relink(s, n, At(s, k))
    ensures var k := if l.Leaf? then r else l;
      && Focus(s', p, k) && s'.cells[At(s, k)].parent == ParentAt(s, p)
      && s'.cells[s.sentl].color == s.cells[s.sentl].color
  {
    var k := if l.Leaf? then r else l;
    RepParts(s, Fork(l, n, c, r), n, ParentAt(s, p));
    RelinkPath(s, p, n, At(s, k));
    RepReparent(s, s', k, n, ParentAt(s, p));
  }

  /** `next`, itself without a left child, is cut out: its right child takes its place. */
  lemma SpliceFocus(s: Store, q: Path, next: Node, nc: Color, nr: Tree, s': Store)
    requires Focus(s, q, Fork(Leaf, next, nc, nr)) && q.InLeft?
    requires q.node in s.cells && At(s, nr) in s.cells && s' == LinkLeft(s, q.node, At(s, nr))
    ensures Focus(s', q, nr) && s'.cells[At(s, nr)].parent == q.node
    ensures next in s'.cells && s'.cells[next] == s.cells[next] && s.cells[next].color == nc
    ensures s'.cells[s.sentl].color == s.cells[s.sentl].color
  {
    RepParts(s, Fork(Leaf, next, nc, nr), next, q.node);
    PathParts(s, q, next);
    RepReparent(s, s', nr, next, q.node);
    RepFrame(s, s', q.sibling, At(s, q.sibling), q.node);
    PathFrame(s, s', q.up, q.node);
  }

  /** `next` holds the subtrees `l` and `r` in place of whatever held them before. */
  lemma InPlace(s: Store, s': Store, p: Path, l: Tree, r: Tree, n: Node, parent: Node?, next: Node, nc: Color)
    requires Separate(s', p, Fork(l, next, nc, r)) && RepPath(s', p, next) && s.sentl == s'.sentl
    requires Rep(s, l, At(s, l), n) && Rep(s, r, At(s, r), parent)
    requires s'.cells[next] == Cell(At(s, l), At(s, r), ParentAt(s, p), nc)
    requires l.Fork? ==> l.node in s.cells && s'.cells[l.node] == s.cells[l.node].(parent := next)
    requires r.Fork? ==> r.node in s.cells && s'.cells[r.node] == s.cells[r.node].(parent := next)
    requires Agree(s, s', Nodes(l) - {At(s, l)}) && Agree(s, s', Nodes(r) - {At(s, r)})
    ensures Focus(s', p, Fork(l, next, nc, r))
  {
    RepReparent(s, s', l, n, next);
    RepReparent(s, s', r, parent, next);
  }

  lemma SetParentCells(s: Store, n: Node, p: Node)
    requires n in s.cells
    ensures var s' := SetParent(s, n, p);
      && s'.root == s.root && s'.sentl == s.sentl && s'.cells.Keys == s.cells.Keys
      && s'.cells[n] == s.cells[n].(parent := p) && Agree(s, s', s.cells.Keys - {n})
  {}

  lemma AgreeTwice(s: Store, s1: Store, s2: Store, ns: set<Node>, ns1: set<Node>, less: set<Node>)
    requires Agree(s, s1, ns) && Agree(s1, s2, ns1) && less <= ns && less <= ns1
    ensures Agree(s, s2, less)
  {}

  lemma NextNodes(l: Tree, n: Node, c: Color, next: Node, nc: Color, nr: Tree)
    requires Distinct(Fork(l, n, c, Fork(Leaf, next, nc, nr))) && l.Fork?
    ensures Nodes(Fork(l, n, c, Fork(Leaf, next, nc, nr))) == Nodes(l) + {n} + {next} + Nodes(nr)
    ensures n !in Nodes(l) && n != next && n !in Nodes(nr) && next !in Nodes(l) && next !in Nodes(nr)
    ensures Nodes(l) !! Nodes(nr) && l.node in Nodes(l) && (nr.Fork? ==> nr.node in Nodes(nr))
  {
    var rt := Fork(Leaf, next, nc, nr);
    assert Distinct(rt) && Nodes(rt) == {next} + Nodes(nr);
  }

  lemma NextApart(s: Store, p: Path, t: Tree, all: set<Node>)
    requires Focus(s, p, t) && Nodes(t) == all
    ensures all <= s.cells.Keys && all !! PathNodes(p) && s.sentl !in all && s.sentl !in PathNodes(p)
  {
    hide Rep, RepPath, Distinct, DistinctPath, Nodes, PathNodes;
  }

  /** The three steps leave the rest of both subtrees alone. */
  lemma NextAgree(s: Store, p: Path, l: Tree, n: Node, c: Color, next: Node, nc: Color, nr: Tree,
                  s1: Store, s2: Store, s3: Store)
    requires Focus(s, p, Fork(l, n, c, Fork(Leaf, next, nc, nr))) && l.Fork?
    requires At(s, nr) in s.cells && next in s.cells && l.node in s.cells && n in s.cells
    requires s1 == SetParent(s, At(s, nr), next) && s2 == LinkLeft(s1, next, l.node)
    requires s2.cells[n].parent != null && s2.cells[n].parent in s2.cells && s3 == Relink(s2, n, next)
    ensures Agree(s, s3, Nodes(l) - {l.node}) && Agree(s, s3, Nodes(nr) - {At(s, nr)})
  {
    hide Rep, RepPath, DistinctPath, Agree, LinkLeft, Relink, SetParent;
    var rt, a, b := Fork(Leaf, next, nc, nr), Nodes(l) - {l.node}, Nodes(nr) - {At(s, nr)};
    RepParts(s, Fork(l, n, c, rt), n, ParentAt(s, p));
    NextNodes(l, n, c, next, nc, nr);
    NextApart(s, p, Fork(l, n, c, rt), Nodes(l) + {n} + {next} + Nodes(nr));
    SetParentCells(s, At(s, nr), next);
    LinkLeftCells(s1, next, l.node);
    AgreeTwice(s, s1, s2, s.cells.Keys - {At(s, nr)}, s.cells.Keys - {next, l.node}, PathNodes(p));
    AgreeTwice(s, s1, s2, s.cells.Keys - {At(s, nr)}, s.cells.Keys - {next, l.node}, {n});
    AgreeAt(s, s2, {n}, n);
    PathFrame(s, s2, p, n);
    RelinkPath(s2, p, n, next);
    AboveIn(p);
    AgreeTwice(s, s1, s2, s.cells.Keys - {At(s, nr)}, s.cells.Keys - {next, l.node}, a + b);
    AgreeTwice(s, s2, s3, a + b, s.cells.Keys - {next} - (if p.Top? then {} else {p.node}), a + b);
    AgreeLess(s, s3, a + b, a);
    AgreeLess(s, s3, a + b, b);
  }

  /** The successor of `n` is its right child `next`. */
  lemma NextIsChild(s: Store, p: Path, l: Tree, n: Node, c: Color, next: Node, nc: Color, nr: Tree,
                    s1: Store, s2: Store, s3: Store)
    requires Focus(s, p, Fork(l, n, c, Fork(Leaf, next, nc, nr))) && l.Fork?
    requires At(s, nr) in s.cells && next in s.cells && l.node in s.cells && n in s.cells
    requires s1 == SetParent(s, At(s, nr), next) && s2 == LinkLeft(s1, next, l.node)
    requires s2.cells[n].parent != null && s2.cells[n].parent in s2.cells && s3 == Relink(s2, n, next)
    ensures Focus(s3, p, Fork(l, next, nc, nr)) && s3.cells[At(s, nr)].parent == next
    ensures s3.cells[s.sentl].color == s.cells[s.sentl].color
  {
    hide Rep, RepPath, DistinctPath;
    NextAgree(s, p, l, n, c, next, nc, nr, s1, s2, s3);
    var rt := Fork(Leaf, next, nc, nr);
    RepParts(s, Fork(l, n, c, rt), n, ParentAt(s, p));
    RepParts(s, rt, next, n);
    assert Distinct(rt) && Nodes(rt) == {next} + Nodes(nr);
    PathFrame(s, s2, p, n);
    RelinkPath(s2, p, n, next);
    assert Nodes(Fork(l, next, nc, nr)) <= Nodes(Fork(l, n, c, rt));
    InPlace(s, s3, p, l, nr, n, next, next, nc);
  }

  /** The detached `next` takes over both subtrees of `n` and its place. */
  lemma TakeOver(s: Store, p: Path, l: Tree, n: Node, c: Color, r: Tree, next: Node, s1: Store, s2: Store, s3: Store)
    requires Focus(s, p, Fork(l, n, c, r)) && l.Fork? && r.Fork?
    requires next !in Nodes(Fork(l, n, c, r)) && next !in PathNodes(p) && next != s.sentl
    requires next in s.cells && l.node in s.cells && r.node in s.cells && n in s.cells
    requires s1 == LinkRight(s, next, r.node) && s2 == LinkLeft(s1, next, l.node)
    requires s2.cells[n].parent != null && s2.cells[n].parent in s2.cells && s3 == Relink(s2, n, next)
    ensures Focus(s3, p, Fork(l, next, s.cells[next].color, r))
    ensures s3.cells[s.sentl] == s.cells[s.sentl]
  {
    RepParts(s, Fork(l, n, c, r), n, ParentAt(s, p));
    PathFrame(s, s2, p, n);
    RelinkPath(s2, p, n, next);
    InPlace(s, s3, p, l, r, n, n, next, s.cells[next].color);
  }
}
