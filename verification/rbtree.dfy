/** The intrusive red-black tree of ffbase/rbtree.h: nodes with parent pointers
    and one shared sentinel.

    `tree` is the ghost shape that the pointers spell out.  While an operation is
    under way its helpers pass the ghost pair (p, t) of RbStore.Focus along:
    position `p` of the tree holds subtree `t`.
  */
module RbTrees {
  import opened Powers
  import opened RbRemoval
  import opened RbShape
  import S = RbStore

  /** `struct ffrbtree`, with the default `insert` callback. */
  class RbTree {
    var len: nat
    var root: Node
    const sentl: Node
    ghost var tree: Tree
    ghost var repr: set<Node>  // the nodes in the tree

    ghost function Snap(): S.Store
      reads this`root, this`repr, repr, sentl
    {
      S.Store(map n | n in repr + {sentl} :: S.Cell(n.left, n.right, n.parent, n.color), root, sentl)
    }

    /** Position `p` of the tree holds `t`, and the pointers say so. */
    ghost predicate Shape(p: Path, t: Tree)
      reads this`root, this`repr, repr, sentl
    {
      sentl !in repr && repr == Nodes(t) + PathNodes(p) && S.Focus(Snap(), p, t)
    }

    ghost predicate Valid()
      reads this, sentl, repr
    {
      && Shape(Top, tree)
      && sentl.color == Black
      && RB(tree) && !IsRed(tree)
      && Sorted(Inorder(tree))
      && len == |Inorder(tree)|
    }

    /** `ffrbt_init`. */
    constructor ()
      ensures Valid() && fresh(sentl)
      ensures Inorder(tree) == []
    {
      var s := new Node(0);
      sentl, root := s, s;
      len, tree, repr := 0, Leaf, {};
    }

    ghost function At(t: Tree): Node { if t.Leaf? then sentl else t.node }

    ghost function ParentAt(p: Path): Node { if p.Top? then sentl else p.node }

    ghost predicate HasFields(n: Node, left: Node, right: Node, parent: Node, c: Color)
      reads n
    {
      n.left == left && n.right == right && n.parent == parent && n.color == c
    }

    lemma Opened()
      requires Valid()
      ensures Shape(Top, tree) && sentl.color == Black && RB(tree) && !IsRed(tree)
      ensures Sorted(Inorder(tree)) && len == |Inorder(tree)| && sentl !in repr
    {}

    lemma Closed()
      requires Shape(Top, tree) && sentl.color == Black && RB(tree) && !IsRed(tree)
      requires Sorted(Inorder(tree)) && len == |Inorder(tree)|
      ensures Valid()
    {}

    /** What the pointers at the focus are. */
    lemma Here(p: Path, t: Tree)
      requires Shape(p, t)
      ensures sentl !in repr && (p.Top? ==> root == if t.Fork? then t.node else sentl)
      ensures t.Fork? ==> t.node in repr && HasFields(t.node, At(t.left), At(t.right), ParentAt(p), t.color)
      ensures t.Fork? && t.left.Fork? ==>
        t.left.node in repr && t.left.node.parent == t.node && t.left.node.color == t.left.color
      ensures t.Fork? && t.right.Fork? ==>
        t.right.node in repr && t.right.node.parent == t.node && t.right.node.color == t.right.color
      ensures p.InLeft? ==> p.node in repr && HasFields(p.node, At(t), At(p.sibling), ParentAt(p.up), p.color)
      ensures p.InRight? ==> p.node in repr && HasFields(p.node, At(p.sibling), At(t), ParentAt(p.up), p.color)
      ensures !p.Top? && t.Fork? ==> (p.sibling.Fork? ==> p.sibling.node != t.node) && p.node != t.node
    {
      var s := Snap();
      if t.Fork? {
        S.RepParts(s, t, t.node, S.ParentAt(s, p));
        if t.left.Fork? { S.RepParts(s, t.left, t.left.node, t.node); }
        if t.right.Fork? { S.RepParts(s, t.right, t.right.node, t.node); }
      }
      if !p.Top? { S.PathParts(s, p, S.At(s, t)); }
    }

    lemma Up(p: Path, t: Tree)
      requires !p.Top?
      ensures Shape(p, t) <==> Shape(p.up, Join(p, t))
    {
      S.FocusUp(Snap(), p, t);
    }

    lemma UpToTop(p: Path, t: Tree)
      ensures Shape(p, t) <==> Shape(Top, Plug(p, t))
    {
      S.FocusPlug(Snap(), p, t);
      NodesPlug(p, t);
    }

    // ---------- elementary steps ----------

    /** `_ffrbt_link_leftchild`. */
    method LinkLeftChild(parnt: Node, child: Node)
      requires parnt in repr + {sentl} && child in repr + {sentl}
      modifies parnt`left, child`parent
      ensures parnt.left == child && child.parent == parnt
      ensures Snap() == S.LinkLeft(old(Snap()), parnt, child)
    {
      parnt.left := child;
      child.parent := parnt;
    }

    /** `_ffrbt_link_rightchild`. */
    method LinkRightChild(parnt: Node, child: Node)
      requires parnt in repr + {sentl} && child in repr + {sentl}
      modifies parnt`right, child`parent
      ensures parnt.right == child && child.parent == parnt
      ensures Snap() == S.LinkRight(old(Snap()), parnt, child)
    {
      parnt.right := child;
      child.parent := parnt;
    }

    /** `_ffrbt_relink_parent`: `nnew` takes the place of `o` below the parent of `o`. */
    method RelinkParent(o: Node, nnew: Node)
      requires o in repr && nnew in repr + {sentl}
      requires o.parent != null && o.parent in repr + {sentl}
      modifies this`root, repr`left, repr`right, repr`parent, sentl`parent
      ensures Snap() == S.Relink(old(Snap()), o, nnew)
    {
      ghost var s := Snap();
      var p := o.parent;
      if p == sentl {
        root := nnew;
        assert Snap() == s.(root := nnew);
      } else if o == p.left {
        p.left := nnew;
        assert Snap() == s.(cells := s.cells[p := s.cells[p].(left := nnew)]);
      } else {
        p.right := nnew;
        assert Snap() == s.(cells := s.cells[p := s.cells[p].(right := nnew)]);
      }
      SetParent(nnew, p);
    }

    method SetParent(n: Node, p: Node)
      requires n in repr + {sentl}
      modifies n`parent
      ensures n.parent == p && Snap() == S.SetParent(old(Snap()), n, p)
    {
      n.parent := p;
    }

    method PutColor(n: Node, c: Color)
      requires n in repr + {sentl}
      modifies n`color
      ensures Snap() == S.SetColor(old(Snap()), n, c)
    {
      n.color := c;
    }

    /** Assigns `node.color`. */
    method Paint(node: Node, c: Color, ghost p: Path, ghost t: Tree)
      requires Shape(p, t) && t.Fork? && t.node == node
      modifies node`color
      ensures Shape(p, t.(color := c))
      ensures node in repr
    {
      Here(p, t);
      S.SetColorFocus(Snap(), p, t, c);
      assert Nodes(t.(color := c)) == Nodes(t);
      PutColor(node, c);
    }

    /** The fields a rotation reads, with `u` the child that moves up and `b` the
        subtree that changes sides. */
    lemma RotationFields(p: Path, t: Tree, u: Tree, b: Tree)
      requires Shape(p, t) && t.Fork? && u.Fork?
      requires (u == t.right && b == u.left) || (u == t.left && b == u.right)
      ensures t.node in repr && u.node in repr && At(b) in repr + {sentl} && t.node.parent == ParentAt(p)
      ensures ParentAt(p) in repr + {sentl}
      ensures u == t.right ==> t.node.right == u.node && u.node.left == At(b)
      ensures u == t.left ==> t.node.left == u.node && u.node.right == At(b)
    {
      var s := Snap();
      S.RepParts(s, t, t.node, S.ParentAt(s, p));
      S.RepParts(s, u, u.node, t.node);
      if b.Fork? { S.RepParts(s, b, b.node, u.node); }
    }

    method LeftRotate(node: Node, ghost p: Path, ghost t: Tree)
      requires Shape(p, t)
      requires t.Fork? && t.node == node && t.right.Fork?
      modifies this`root, repr, sentl`parent
      ensures Shape(p, S.RotatedLeft(t))
      ensures t.right.left.Fork? ==> sentl.parent == old(sentl.parent)
    {
      ghost var s, u := Snap(), t.right;
      RotationFields(p, t, u, u.left);
      S.RotationShape(t.left, node, t.color, u.left, u.node, u.color, u.right);
      hide S.Focus, Nodes, PathNodes, Distinct;
      var r := node.right;
      LinkRightChild(node, r.left);
      ghost var s1 := Snap();
      RelinkParent(node, r);
      ghost var s2 := Snap();
      LinkLeftChild(r, node);
      S.LeftRotateFocus(s, p, t.left, node, t.color, u.left, r, u.color, u.right, s1, s2, Snap());
    }

    method RightRotate(node: Node, ghost p: Path, ghost t: Tree)
      requires Shape(p, t)
      requires t.Fork? && t.node == node && t.left.Fork?
      modifies this`root, repr, sentl`parent
      ensures Shape(p, S.RotatedRight(t))
      ensures t.left.right.Fork? ==> sentl.parent == old(sentl.parent)
    {
      ghost var s, u := Snap(), t.left;
      RotationFields(p, t, u, u.right);
      S.RotationShape(u.left, u.node, u.color, u.right, node, t.color, t.right);
      hide S.Focus, Nodes, PathNodes, Distinct;
      var l := node.left;
      LinkLeftChild(node, l.right);
      ghost var s1 := Snap();
      RelinkParent(node, l);
      ghost var s2 := Snap();
      LinkRightChild(l, node);
      S.RightRotateFocus(s, p, u.left, l, u.color, u.right, node, t.color, t.right, s1, s2, Snap());
    }

    // ---------- insertion ----------

    /** The last three statements of the insert fix-up for a parent that is a left
        child; `m` is the parent's subtree, `node` its left child. */
    method RaiseLeft(node: Node, gp: Node, ghost up: Path, ghost m: Tree) returns (ghost w: Tree)
      requires Shape(up, m) && m.Fork? && m.left.Fork? && m.left.node == node
      requires up.InLeft? && up.node == gp
      modifies this`root, repr, sentl`parent
      ensures w == Fork(m.left, m.node, Black, Fork(m.right, gp, Red, up.sibling))
      ensures Shape(up.up, w)
    {
      hide Shape;
      Here(up, m);
      Paint(node.parent, Black, up, m);
      w := m.(color := Black);
      Up(up, w);
      w := Join(up, w);
      Paint(gp, Red, up.up, w);
      w := w.(color := Red);
      RightRotate(gp, up.up, w);
      w := S.RotatedRight(w);
    }

    method RaiseRight(node: Node, gp: Node, ghost up: Path, ghost m: Tree) returns (ghost w: Tree)
      requires Shape(up, m) && m.Fork? && m.right.Fork? && m.right.node == node
      requires up.InRight? && up.node == gp
      modifies this`root, repr, sentl`parent
      ensures w == Fork(Fork(up.sibling, gp, Red, m.left), m.node, Black, m.right)
      ensures Shape(up.up, w)
    {
      hide Shape;
      Here(up, m);
      Paint(node.parent, Black, up, m);
      w := m.(color := Black);
      Up(up, w);
      w := Join(up, w);
      Paint(gp, Red, up.up, w);
      w := w.(color := Red);
      LeftRotate(gp, up.up, w);
      w := S.RotatedLeft(w);
    }

    /** The fix-up branch for a black uncle and a parent that is a left child. */
    method UncleBlackLeft(node0: Node, p: Node, gp: Node, ghost pos: Path, ghost t: Tree) returns (ghost w: Tree)
      requires Shape(pos, t) && t.Fork? && t.node == node0
      requires !pos.Top? && pos.node == p && pos.up.InLeft? && pos.up.node == gp
      modifies this`root, repr, sentl`parent
      ensures w == RaisedLeft(pos, t) && Shape(pos.up.up, w)
    {
      hide Shape;
      var node := node0;
      ghost var m := Join(pos, t);
      Here(pos, t);
      Up(pos, t);
      if node == p.right {
        LeftRotate(p, pos.up, m);
        m := S.RotatedLeft(m);
        node := p;
      }
      w := RaiseLeft(node, gp, pos.up, m);
    }

    method UncleBlackRight(node0: Node, p: Node, gp: Node, ghost pos: Path, ghost t: Tree) returns (ghost w: Tree)
      requires Shape(pos, t) && t.Fork? && t.node == node0
      requires !pos.Top? && pos.node == p && pos.up.InRight? && pos.up.node == gp
      modifies this`root, repr, sentl`parent
      ensures w == RaisedRight(pos, t) && Shape(pos.up.up, w)
    {
      hide Shape;
      var node := node0;
      ghost var m := Join(pos, t);
      Here(pos, t);
      Up(pos, t);
      if node == p.left {
        RightRotate(p, pos.up, m);
        m := S.RotatedRight(m);
        node := p;
      }
      w := RaiseRight(node, gp, pos.up, m);
    }

    /** The fix-up branch for a red uncle: parent and uncle become black, the
        grandparent red. */
    method UncleRed(p: Node, uncle: Node, gp: Node, ghost pos: Path, ghost t: Tree) returns (ghost w: Tree)
      requires Shape(pos, t)
      requires !pos.Top? && pos.node == p && !pos.up.Top? && pos.up.node == gp
      requires pos.up.sibling.Fork? && pos.up.sibling.node == uncle
      modifies repr
      ensures w == RedRaised(pos, t) && Shape(pos.up.up, w)
    {
      hide Shape;
      ghost var up := pos.up;
      Up(pos, t);
      Here(up, Join(pos, t));
      Paint(p, Black, up, Join(pos, t));
      ghost var m := Join(pos, t).(color := Black);
      Up(up, m);
      ghost var across := if up.InLeft? then InRight(up.up, gp, up.color, m) else InLeft(up.up, gp, up.color, m);
      Up(across, up.sibling);
      Here(across, up.sibling);
      Paint(uncle, Black, across, up.sibling);
      ghost var u := up.sibling.(color := Black);
      Up(across, u);
      Paint(gp, Red, up.up, Join(across, u));
      w := Join(across, u).(color := Red);
    }

    /** The search loop of `_ffrbt_node_insert`: the parent of the new leaf and the
        side it goes to. */
    method FindPlace(key: nat) returns (parent: Node, toLeft: bool, ghost pos: Path)
      requires Valid() && root != sentl
      ensures pos.InLeft? == toLeft && pos.InRight? == !toLeft && pos.node == parent
      ensures Shape(pos, Leaf) && Plug(pos, Leaf) == tree
      ensures AtMost(Before(pos), key) && Above(After(pos), key)
    {
      ghost var q, u := Top, tree;
      assert [] + Inorder(tree) + [] == Inorder(tree);
      Here(q, u);
      hide Shape;
      parent := root;
      while true
        invariant Shape(q, u) && u.Fork? && u.node == parent
        invariant Plug(q, u) == tree && AtMost(Before(q), key) && Above(After(q), key)
        decreases u
      {
        Here(q, u);
        InorderPlug(q, u);
        Descend(q, u, key);
        toLeft := key < parent.key;
        var child := if toLeft then parent.left else parent.right;
        pos := if toLeft then InLeft(q, parent, u.color, u.right) else InRight(q, parent, u.color, u.left);
        u := if toLeft then u.left else u.right;
        Up(pos, u);
        if child == sentl {
          Here(pos, u);
          break;
        }
        parent, q := child, pos;
      }
    }

    /** `_ffrbt_node_insert`: `node` becomes a leaf at the place its key belongs. */
    method NodeInsert(node: Node) returns (ghost pos: Path)
      requires Valid() && node !in repr && node != sentl
      modifies this`root, this`repr, repr, node
      ensures repr == old(repr) + {node}
      ensures node.color == old(node.color) && Shape(pos, Fork(Leaf, node, node.color, Leaf))
      ensures Plug(pos, Leaf) == tree && AtMost(Before(pos), node.key) && Above(After(pos), node.key)
    {
      hide Shape, S.Focus, Plug, AtMost, Above, RB, IsRed, Inorder, Sorted, Nodes, PathNodes, Before, After, Valid;
      ghost var s := Snap();
      Opened();
      Here(Top, tree);
      if root == sentl {
        pos := Top;
        EmptyPlace(node.key);
        LinkLeaf(node, null, false, pos);
      } else {
        var parent, toLeft;
        parent, toLeft, pos := FindPlace(node.key);
        Here(pos, Leaf);
        FocusOf(pos, Leaf);
        LinkLeaf(node, parent, toLeft, pos);
      }
      Enlist(node, pos, s);
    }

    lemma EmptyPlace(key: nat)
      requires Valid() && root == sentl
      ensures S.Focus(Snap(), Top, Leaf) && repr == PathNodes(Top) && Plug(Top, Leaf) == tree
      ensures AtMost(Before(Top), key) && Above(After(Top), key)
    {
      Here(Top, tree);
    }

    lemma FocusOf(p: Path, t: Tree)
      requires Shape(p, t)
      ensures S.Focus(Snap(), p, t) && repr == Nodes(t) + PathNodes(p) && (t.Leaf? ==> repr == PathNodes(p))
    {}

    lemma Counted(pos: Path, node: Node)
      requires S.Focus(Snap(), pos, Fork(Leaf, node, node.color, Leaf))
      requires repr == PathNodes(pos) + {node} && sentl !in repr
      ensures Shape(pos, Fork(Leaf, node, node.color, Leaf))
    {
      assert Nodes(Fork(Leaf, node, node.color, Leaf)) == {node};
    }

    /** Counts the linked leaf as a member. */
    ghost method Enlist(node: Node, pos: Path, s: S.Store)
      requires S.Focus(s, pos, Leaf) && s.sentl == sentl && s.cells.Keys == repr + {sentl} && repr == PathNodes(pos)
      requires node !in repr && node != sentl && sentl !in repr && (!pos.Top? ==> pos.node in s.cells)
      requires Snap() == S.PutChild(s, pos, node) && HasFields(node, sentl, sentl, ParentAt(pos), node.color)
      modifies this`repr
      ensures repr == old(repr) + {node}
      ensures Shape(pos, Fork(Leaf, node, node.color, Leaf))
    {
      hide Shape, S.Focus;
      ghost var s1 := Snap();
      Attached(s, pos, node, node.color);
      repr := repr + {node};
      assert Snap() == s1.(cells := s1.cells[node := S.Cell(sentl, sentl, ParentAt(pos), node.color)]);
      Counted(pos, node);
    }

    /** The assignments of `_ffrbt_node_insert`; `parent` is null in an empty tree. */
    method LinkLeaf(node: Node, parent: Node?, toLeft: bool, ghost pos: Path)
      requires node !in repr && node != sentl && sentl !in repr
      requires parent == null ==> pos.Top?
      requires parent != null ==>
        parent in repr && pos.InLeft? == toLeft && pos.InRight? == !toLeft && pos.node == parent
      modifies this`root, repr, node
      ensures Snap() == S.PutChild(old(Snap()), pos, node)
      ensures HasFields(node, sentl, sentl, ParentAt(pos), old(node.color))
    {
      if parent == null {
        root := node;
        node.parent := sentl;
      } else {
        if toLeft {
          parent.left := node;
        } else {
          parent.right := node;
        }
        node.parent := parent;
      }
      node.left, node.right := sentl, sentl;
    }

    /** The pointers spell out the tree with the new leaf, once it counts as a member. */
    lemma Attached(s: S.Store, pos: Path, node: Node, c: Color)
      requires S.Focus(s, pos, Leaf) && s.sentl == sentl
      requires s.cells.Keys == repr + {sentl} && repr == PathNodes(pos)
      requires node !in repr && node != sentl && sentl !in repr
      requires !pos.Top? ==> pos.node in s.cells
      ensures var s' := S.PutChild(s, pos, node);
        S.Focus(s'.(cells := s'.cells[node := S.Cell(sentl, sentl, ParentAt(pos), c)]), pos, Fork(Leaf, node, c, Leaf))
    {
      var s' := S.PutChild(s, pos, node);
      S.AttachFocus(s, pos, node, c, s'.(cells := s'.cells[node := S.Cell(sentl, sentl, ParentAt(pos), c)]));
    }

    /** `ffrbt_insert`. */
    method Insert(node: Node)
      requires Valid() && node !in repr && node != sentl
      modifies this, repr, node, sentl`parent
      ensures Valid() && repr == old(repr) + {node}
      ensures Inorder(tree) == Placed(old(Inorder(tree)), node)
    {
      hide *;
      Opened();
      ghost var pos := NodeInsert(node);
      InsertedTree(tree, pos, node);
      ghost var t := Fork(Leaf, node, node.color, Leaf);
      Paint(node, Red, pos, t);
      t := t.(color := Red);
      ghost var w := InsertFixup(node, pos, t);
      Here(Top, w);
      BlackenedRB(w);
      Paint(root, Black, Top, w);
      tree := w.(color := Black);
      len := len + 1;
      Closed();
    }

    /** The fix-up loop keeps one red node under a red parent as the only fault and
        moves it two levels up each time round. */
    method InsertFixup(node0: Node, ghost pos0: Path, ghost t0: Tree) returns (ghost w: Tree)
      requires Shape(pos0, t0) && IsRed(t0) && t0.node == node0 && sentl.color == Black
      requires RB(t0) && PathRB(pos0, BlackHeight(t0), false) && BlackTop(pos0)
      modifies this`root, repr, sentl`parent
      ensures Shape(Top, w) && w.Fork? && RB(w)
      ensures Inorder(w) == Inorder(Plug(pos0, t0))
    {
      hide Shape;
      Here(pos0, t0);
      var node := node0;
      ghost var pos, t := pos0, t0;
      while node.parent.color == Red
        invariant Shape(pos, t) && IsRed(t) && t.node == node && sentl.color == Black
        invariant node in repr && node.parent == ParentAt(pos) && (!pos.Top? ==> pos.node.color == pos.color)
        invariant RB(t) && PathRB(pos, BlackHeight(t), false) && BlackTop(pos)
        invariant Inorder(Plug(pos, t)) == Inorder(Plug(pos0, t0))
        decreases PathLength(pos)
      {
        Here(pos, t);
        var p, gp := node.parent, node.parent.parent;
        assert RedRed(pos, t);
        Up(pos, t);
        Here(pos.up, Join(pos, t));
        var uncle := if p == gp.left then gp.right else gp.left;
        Uncle(pos, t);
        if uncle.color == Black {
          if p == gp.left {
            w := UncleBlackLeft(node, p, gp, pos, t);
            RaisedLeftRB(pos, t);
          } else {
            w := UncleBlackRight(node, p, gp, pos, t);
            RaisedRightRB(pos, t);
          }
          FixupStep(pos, t, w);
          UpToTop(pos.up.up, w);
          RBPlug(pos.up.up, w);
          w := Plug(pos.up.up, w);
          return;
        }
        RedRaisedRB(pos, t);
        w := UncleRed(p, uncle, gp, pos, t);
        FixupStep(pos, t, w);
        pos, t := pos.up.up, w;
        node := gp;
        Here(pos, t);
      }
      UpToTop(pos, t);
      RBPlug(pos, t);
      w := Plug(pos, t);
      ForkPlug(pos, t);
    }

    /** The colour field of the uncle. */
    lemma Uncle(pos: Path, t: Tree)
      requires Shape(pos, t) && !pos.Top? && !pos.up.Top? && sentl.color == Black
      ensures (At(pos.up.sibling).color == Red) == IsRed(pos.up.sibling)
      ensures pos.up.InRight? ==> pos.node != At(pos.up.sibling)
    {
      Up(pos, t);
      Here(pos.up, Join(pos, t));
      var up := pos.up;
      var j := Join(up, Join(pos, t));
      Up(up, Join(pos, t));
      Here(up.up, j);
    }

    // ---------- removal ----------

    /** `ffrbt_node_min`. */
    method NodeMin(node: Node, ghost p: Path, ghost t: Tree) returns (m: Node)
      requires Shape(p, t) && node == At(t)
      ensures m == if t.Leaf? then sentl else Leftmost(t).node
    {
      hide Shape;
      Here(p, t);
      if node == sentl {
        return sentl;
      }
      m := node;
      ghost var q, u := p, t;
      while m.left != sentl
        invariant Shape(q, u) && u.Fork? && u.node == m && m in repr && m.left == At(u.left)
        invariant Leftmost(u) == Leftmost(t)
        decreases u
      {
        Here(q, u);
        m := m.left;
        q, u := InLeft(q, u.node, u.color, u.right), u.left;
        Up(q, u);
        Here(q, u);
      }
      Here(q, u);
    }

    /** Whether the pointers describe the hole left by the root of `t`; `x` is what
        is there now, and its parent pointer is right even when it is the sentinel. */
    ghost predicate Hole(x: Node, p: Path, t: Tree, c: Color)
      requires t.Fork?
      reads this`root, this`repr, repr, sentl
    {
      && Shape(HolePath(p, t, c), HoleTree(t))
      && x == At(HoleTree(t)) && x in repr + {sentl} && x.parent == ParentAt(HolePath(p, t, c))
    }

    /** `_ffrbt_node_rm` for a node without a left or without a right child. */
    method RmOneChild(node: Node, x: Node, ghost p: Path, ghost t: Tree)
      requires Shape(p, t) && t.Fork? && t.node == node && !TwoChildren(t)
      requires x == At(HoleTree(t))
      modifies this`root, this`repr, repr, sentl`parent
      ensures repr == old(repr) - {node} && node.color == old(node.color)
      ensures Hole(x, p, t, t.color)
    {
      ghost var s := Snap();
      Here(p, t);
      PlaceKnown(p, t);
      OneChildKnown(p, t);
      hide Shape, S.Focus, Nodes, PathNodes, Distinct;
      RelinkParent(node, x);
      S.ReplaceByChild(s, p, t.left, node, t.color, t.right, Snap());
      Unlist(node, p, HoleTree(t));
    }

    lemma OneChildKnown(p: Path, t: Tree)
      requires Shape(p, t) && t.Fork? && !TwoChildren(t)
      ensures S.Focus(Snap(), p, Fork(t.left, t.node, t.color, t.right)) && Removed(t) == HoleTree(t)
      ensures repr == Nodes(HoleTree(t)) + PathNodes(p) + {t.node}
      ensures t.node !in Nodes(HoleTree(t)) && t.node !in PathNodes(p)
    {
      RemovedNodes(p, t);
    }

    lemma Fields(n: Node)
      requires n in repr + {sentl}
      ensures Snap().cells.Keys == repr + {sentl} && Snap().sentl == sentl && Snap().root == root
      ensures Snap().cells[n] == S.Cell(n.left, n.right, n.parent, n.color)
    {}

    lemma PlaceKnown(p: Path, t: Tree)
      requires Shape(p, t)
      ensures ParentAt(p) in repr + {sentl}
    {}

    /** `_ffrbt_node_rm` for a node whose right child is its successor. */
    method RmNextIsChild(node: Node, next: Node, x: Node, ghost p: Path, ghost t: Tree)
      requires Shape(p, t) && TwoChildren(t) && t.node == node
      requires t.right.left.Leaf? && next == t.right.node && x == At(t.right.right)
      modifies this`root, this`repr, repr, sentl`parent
      ensures repr == old(repr) - {node} && node.color == old(node.color)
      ensures Hole(x, p, t, t.right.color)
    {
      hide Shape, S.Focus, Nodes, PathNodes, Distinct, Append, Snap, Leftmost, LeftPath, HolePath, Removed, Plug;
      ghost var s := Snap();
      Here(p, t);
      PlaceKnown(p, t);
      ChildKnown(p, t);
      Fields(node);
      SetParent(x, next);
      ghost var s1 := Snap();
      LinkLeftChild(next, node.left);
      ghost var s2 := Snap();
      Fields(node);
      RelinkParent(node, next);
      S.NextIsChild(s, p, t.left, node, t.color, next, t.right.color, t.right.right, s1, s2, Snap());
      Fields(x);
      Unlist(node, p, Removed(t));
      HoleOpened(p, t);
    }

    lemma SeparateKnown(p: Path, t: Tree)
      requires Shape(p, t) && TwoChildren(t)
      ensures Distinct(t) && Nodes(t) !! PathNodes(p)
      ensures repr == Nodes(Removed(t)) + PathNodes(p) + {t.node}
      ensures t.node !in Nodes(Removed(t)) && t.node !in PathNodes(p)
      ensures Nodes(Removed(t)) <= repr
    {
      RemovedNodes(p, t);
    }

    lemma ChildKnown(p: Path, t: Tree)
      requires Shape(p, t) && TwoChildren(t) && t.right.left.Leaf?
      ensures S.Focus(Snap(), p, Fork(t.left, t.node, t.color, Fork(Leaf, t.right.node, t.right.color, t.right.right)))
      ensures Removed(t) == Fork(t.left, t.right.node, t.right.color, t.right.right)
      ensures repr == Nodes(Removed(t)) + PathNodes(p) + {t.node}
      ensures t.node !in Nodes(Removed(t)) && t.node !in PathNodes(p)
      ensures At(t.right.right) in repr + {sentl}
      ensures t.left.node != t.node && t.left.node != t.right.node && t.node != t.right.node
      ensures HolePath(p, t, t.right.color) == InRight(p, t.right.node, t.right.color, t.left)
      ensures LostColor(t) == t.right.color && HoleTree(t) == t.right.right
    {
      RemovedNodes(p, t);
      assert LeftPath(t.right) == Top;
      S.RepParts(Snap(), t, t.node, S.ParentAt(Snap(), p));
      S.RepParts(Snap(), t.right, t.right.node, t.node);
      if t.right.right.Fork? { S.RepParts(Snap(), t.right.right, t.right.right.node, t.right.node); }
    }

    /** The hole seen from the place of the removed node, and on its own. */
    lemma HoleOpened(p: Path, t: Tree)
      requires t.Fork? && Shape(p, Removed(t))
      ensures var q, h := HolePath(p, t, LostColor(t)), HoleTree(t);
        && Shape(q, h) && At(h) in repr + {sentl} && sentl !in repr
        && (h.Fork? ==> h.node.parent == ParentAt(q))
    {
      hide Shape;
      UpToTop(p, Removed(t));
      HolePlug(p, t, LostColor(t));
      UpToTop(HolePath(p, t, LostColor(t)), HoleTree(t));
      Here(HolePath(p, t, LostColor(t)), HoleTree(t));
    }

    /** `_ffrbt_node_rm` for a node whose successor is further down. */
    method RmNextBelow(node: Node, next: Node, x: Node, ghost p: Path, ghost t: Tree)
      requires Shape(p, t) && TwoChildren(t) && t.node == node
      requires t.right.left.Fork? && next == Leftmost(t.right).node && x == At(Leftmost(t.right).right)
      modifies this`root, this`repr, repr, sentl`parent
      ensures repr == old(repr) - {node} && node.color == old(node.color)
      ensures Hole(x, p, t, LostColor(t))
    {
      hide Shape, S.Focus, Nodes, PathNodes, Distinct, Append, Snap, Leftmost, LeftPath, NextPath, HolePath, HoleTree;
      hide Removed, Plug, LostColor;
      Here(p, t);
      PlaceKnown(p, t);
      SeparateKnown(p, t);
      NextKnown(p, t);
      CutNext(next, x, p, t);
      ghost var s1 := Snap();
      Fields(sentl);
      Fields(node);
      LinkRightChild(next, node.right);
      ghost var s2 := Snap();
      LinkLeftChild(next, node.left);
      ghost var s3 := Snap();
      Fields(node);
      RelinkParent(node, next);
      S.TakeOver(s1, p, t.left, node, t.color, Removed(t).right, next, s2, s3, Snap());
      Fields(sentl);
      Unlist(node, p, Removed(t));
      HoleOpened(p, t);
    }

    /** The successor leaves its place to its right child `x`. */
    method CutNext(next: Node, x: Node, ghost p: Path, ghost t: Tree)
      requires Shape(p, t) && TwoChildren(t) && t.right.left.Fork?
      requires next == Leftmost(t.right).node && x == At(Leftmost(t.right).right)
      modifies repr`left, repr`parent, sentl`parent
      ensures Detached(Snap(), p, t) && x.parent == ParentAt(HolePath(p, t, LostColor(t)))
    {
      hide Shape, S.Focus, Nodes, PathNodes, Distinct, Append, Snap, Leftmost, LeftPath, NextPath, HolePath;
      hide Removed, Plug, Detached, LostColor;
      ghost var s, q, m := Snap(), NextPath(p, t), Leftmost(t.right);
      SeparateKnown(p, t);
      NextKnown(p, t);
      Fields(next);
      LinkLeftChild(next.parent, next.right);
      S.SpliceFocus(s, q, next, m.color, m.right, Snap());
      NextCut(Snap(), p, t);
    }

    lemma NextKnown(p: Path, t: Tree)
      requires Shape(p, t) && TwoChildren(t) && t.right.left.Fork?
      ensures var q, m := NextPath(p, t), Leftmost(t.right);
        && S.Focus(Snap(), q, Fork(Leaf, m.node, m.color, m.right)) && q.InLeft? && q.node in repr
        && m.node in repr && m.node.parent == q.node && m.node.right == At(m.right) && At(m.right) in repr + {sentl}
        && ParentAt(HolePath(p, t, LostColor(t))) == q.node && HoleTree(t) == m.right
    {
      var q, m := NextPath(p, t), Leftmost(t.right);
      NextPlug(p, t);
      UpToTop(p, t);
      UpToTop(q, m);
      Here(q, m);
      assert m == Fork(Leaf, m.node, m.color, m.right);
      assert HolePath(p, t, m.color).InLeft?;
    }

    /** In `s` the successor of the root of `t` is out of the tree, but nothing has
        taken the root's place yet. */
    ghost predicate Detached(s: S.Store, p: Path, t: Tree) {
      && TwoChildren(t)
      && var r, next := Removed(t).right, Leftmost(t.right).node;
        && S.Focus(s, p, Fork(t.left, t.node, t.color, r)) && r.Fork?
        && r.node in s.cells && t.left.node in s.cells && t.node in s.cells && next in s.cells
        && s.cells[t.node] == S.Cell(t.left.node, r.node, S.ParentAt(s, p), t.color)
        && s.cells[next].color == Leftmost(t.right).color
        && next !in Nodes(Fork(t.left, t.node, t.color, r)) && next !in PathNodes(p)
        && next != t.node && next != t.left.node && next != r.node && t.node != r.node && t.node != t.left.node
        && Removed(t) == Fork(t.left, next, Leftmost(t.right).color, r)
    }

    lemma NextCut(s1: S.Store, p: Path, t: Tree)
      requires TwoChildren(t) && t.right.left.Fork? && Distinct(t) && Nodes(t) !! PathNodes(p)
      requires S.Focus(s1, NextPath(p, t), Leftmost(t.right).right)
      requires var m := Leftmost(t.right); m.node in s1.cells && s1.cells[m.node].color == m.color
      ensures Detached(s1, p, t)
    {
      var q, m := LeftPath(t.right), Leftmost(t.right);
      var r := Plug(q, m.right);
      S.FocusAppend(s1, q, InRight(p, t.node, t.color, t.left), m.right);
      S.FocusUp(s1, InRight(p, t.node, t.color, t.left), r);
      NextApart(p, t);
      S.RepParts(s1, Fork(t.left, t.node, t.color, r), t.node, S.ParentAt(s1, p));
      S.RepParts(s1, t.left, t.left.node, t.node);
      S.RepParts(s1, r, r.node, t.node);
    }

    /** Takes `node` off the list of members. */
    ghost method Unlist(node: Node, p: Path, t: Tree)
      requires S.Focus(Snap(), p, t) && sentl !in repr && node in repr
      requires repr == Nodes(t) + PathNodes(p) + {node} && node !in Nodes(t) && node !in PathNodes(p)
      modifies this`repr
      ensures repr == old(repr) - {node} && Shape(p, t)
    {
      hide S.Focus;
      ghost var s := Snap();
      S.DropFocus(s, p, t, node);
      repr := repr - {node};
      assert Snap() == s.(cells := s.cells - {node});
    }

    /** `_ffrbt_node_rm`: returns what took the place of `node`, and its successor
        if that was moved. */
    method NodeRm(node: Node, ghost p: Path, ghost t: Tree) returns (x: Node, next: Node?)
      requires Shape(p, t) && t.Fork? && t.node == node
      modifies this`root, this`repr, repr, sentl`parent
      ensures repr == old(repr) - {node} && node.color == old(node.color)
      ensures node.left == null && node.right == null && node.parent == null
      ensures Hole(x, p, t, LostColor(t))
      ensures if TwoChildren(t) then next == Leftmost(t.right).node else next == null
    {
      hide Shape, HolePath, Plug, Append, LeftPath;
      Here(p, t);
      if node.left == sentl {
        x, next := node.right, null;
        RmOneChild(node, x, p, t);
      } else if node.right == sentl {
        x, next := node.left, null;
        RmOneChild(node, x, p, t);
      } else {
        ghost var q := InRight(p, node, t.color, t.left);
        Up(q, t.right);
        next := NodeMin(node.right, q, t.right);
        NextFields(p, t);
        x := next.right;
        if next == node.right {
          RmNextIsChild(node, next, x, p, t);
        } else {
          RmNextBelow(node, next, x, p, t);
        }
      }
      node.left, node.right, node.parent := null, null, null;
    }

    lemma NextFields(p: Path, t: Tree)
      requires Shape(p, t) && TwoChildren(t)
      ensures var m := Leftmost(t.right);
        && m.node in repr && m.node.right == At(m.right)
        && (m.node == t.right.node <==> t.right.left.Leaf?)
        && (t.right.left.Leaf? ==> LostColor(t) == t.right.color && HoleTree(t) == t.right.right)
    {
      var q, m := NextPath(p, t), Leftmost(t.right);
      NextPlug(p, t);
      UpToTop(p, t);
      UpToTop(q, m);
      Here(q, m);
      LeftmostPlug(t.right);
      if t.right.left.Fork? {
        ApartPlug(LeftPath(t.right), m);
        RootInPath(LeftPath(t.right), m);
      }
    }

    /** `x->color = BLACK`, where `x` may be the sentinel. */
    method PaintBlack(x: Node, ghost p: Path, ghost t: Tree)
      requires Shape(p, t) && x == At(t) && sentl.color == Black
      modifies x`color
      ensures Shape(p, if t.Fork? then t.(color := Black) else t)
      ensures sentl.color == Black
    {
      hide Shape;
      Here(p, t);
      if x == sentl {
        PaintSentinel(p, t);
      } else {
        Paint(x, Black, p, t);
      }
    }

    /** Painting the black sentinel black changes nothing. */
    method PaintSentinel(ghost p: Path, ghost t: Tree)
      requires Shape(p, t) && sentl.color == Black
      modifies sentl`color
      ensures Shape(p, t) && sentl.color == Black
    {
      ghost var s := Snap();
      sentl.color := Black;
      assert Snap() == s;
    }

    /** The first step of the fix-up for a red sibling of a left child. */
    method LowerLeft(p: Node, sib: Node, ghost pos: Path, ghost u: Tree)
      requires Shape(pos, u) && pos.InLeft? && pos.node == p
      requires pos.sibling.Fork? && pos.sibling.node == sib && pos.sibling.left.Fork?
      modifies this`root, repr, sentl`parent
      ensures Shape(Lowered(pos), u) && sentl.parent == old(sentl.parent)
    {
      hide Shape;
      ghost var q := Across(pos, u);
      Up(pos, u);
      Up(q, pos.sibling);
      Here(q, pos.sibling);
      Paint(sib, Black, q, pos.sibling);
      ghost var st := pos.sibling.(color := Black);
      Up(q, st);
      ghost var m := Fork(u, p, pos.color, st);
      Here(pos.up, m);
      Paint(p, Red, pos.up, m);
      m := m.(color := Red);
      LeftRotate(p, pos.up, m);
      Up(Lowered(pos), u);
      Up(Lowered(pos).up, Join(Lowered(pos), u));
    }

    method LowerRight(p: Node, sib: Node, ghost pos: Path, ghost u: Tree)
      requires Shape(pos, u) && pos.InRight? && pos.node == p
      requires pos.sibling.Fork? && pos.sibling.node == sib && pos.sibling.right.Fork?
      modifies this`root, repr, sentl`parent
      ensures Shape(Lowered(pos), u) && sentl.parent == old(sentl.parent)
    {
      hide Shape;
      ghost var q := Across(pos, u);
      Up(pos, u);
      Up(q, pos.sibling);
      Here(q, pos.sibling);
      Paint(sib, Black, q, pos.sibling);
      ghost var st := pos.sibling.(color := Black);
      Up(q, st);
      ghost var m := Fork(st, p, pos.color, u);
      Here(pos.up, m);
      Paint(p, Red, pos.up, m);
      m := m.(color := Red);
      RightRotate(p, pos.up, m);
      Up(Lowered(pos), u);
      Up(Lowered(pos).up, Join(Lowered(pos), u));
    }

    /** The second step, when the far child of the sibling is black. */
    method StraightenLeft(sib: Node, ghost q: Path, ghost st: Tree)
      requires Shape(q, st) && st.Fork? && st.node == sib && st.left.Fork?
      modifies this`root, repr, sentl`parent
      ensures Shape(q, StraightLeft(st))
    {
      hide Shape;
      ghost var f := InLeft(q, sib, st.color, st.right);
      Here(q, st);
      Up(f, st.left);
      Paint(sib.left, Black, f, st.left);
      ghost var l := st.left.(color := Black);
      Up(f, l);
      Paint(sib, Red, q, Join(f, l));
      RightRotate(sib, q, Join(f, l).(color := Red));
    }

    method StraightenRight(sib: Node, ghost q: Path, ghost st: Tree)
      requires Shape(q, st) && st.Fork? && st.node == sib && st.right.Fork?
      modifies this`root, repr, sentl`parent
      ensures Shape(q, StraightRight(st))
    {
      hide Shape;
      ghost var f := InRight(q, sib, st.color, st.left);
      Here(q, st);
      Up(f, st.right);
      Paint(sib.right, Black, f, st.right);
      ghost var r := st.right.(color := Black);
      Up(f, r);
      Paint(sib, Red, q, Join(f, r));
      LeftRotate(sib, q, Join(f, r).(color := Red));
    }

    /** The last step, with a red far child. */
    method CloseLeft(p: Node, sib: Node, ghost pos: Path, ghost u: Tree)
      requires Shape(pos, u) && pos.InLeft? && pos.node == p
      requires pos.sibling.Fork? && pos.sibling.node == sib && pos.sibling.right.Fork?
      modifies this`root, repr, sentl`parent
      ensures Shape(pos.up, ClosedLeft(pos, u))
    {
      hide Shape;
      ghost var q, st := Across(pos, u), pos.sibling;
      Here(pos, u);
      Up(pos, u);
      Up(q, st);
      Here(q, st);
      Paint(sib, p.color, q, st);
      st := st.(color := pos.color);
      Up(q, st);
      Paint(p, Black, pos.up, Join(q, st));
      q := InRight(pos.up, p, Black, u);
      Up(q, st);
      Here(q, st);
      ghost var f := InRight(q, sib, st.color, st.left);
      Up(f, st.right);
      Paint(sib.right, Black, f, st.right);
      ghost var r := st.right.(color := Black);
      Up(f, r);
      Up(q, Join(f, r));
      LeftRotate(p, pos.up, Join(q, Join(f, r)));
    }

    method CloseRight(p: Node, sib: Node, ghost pos: Path, ghost u: Tree)
      requires Shape(pos, u) && pos.InRight? && pos.node == p
      requires pos.sibling.Fork? && pos.sibling.node == sib && pos.sibling.left.Fork?
      modifies this`root, repr, sentl`parent
      ensures Shape(pos.up, ClosedRight(pos, u))
    {
      hide Shape;
      ghost var q, st := Across(pos, u), pos.sibling;
      Here(pos, u);
      Up(pos, u);
      Up(q, st);
      Here(q, st);
      Paint(sib, p.color, q, st);
      st := st.(color := pos.color);
      Up(q, st);
      Paint(p, Black, pos.up, Join(q, st));
      q := InLeft(pos.up, p, Black, u);
      Up(q, st);
      Here(q, st);
      ghost var f := InLeft(q, sib, st.color, st.right);
      Up(f, st.left);
      Paint(sib.left, Black, f, st.left);
      ghost var l := st.left.(color := Black);
      Up(f, l);
      Up(q, Join(f, l));
      RightRotate(p, pos.up, Join(q, Join(f, l)));
    }

    /** The sibling's fields, and the colours of its children. */
    lemma SiblingHere(pos: Path, u: Tree)
      requires Shape(pos, u) && !pos.Top? && pos.sibling.Fork? && sentl.color == Black
      ensures var st, p := pos.sibling, pos.node;
        && sentl !in repr && p in repr && p.color == pos.color && (if pos.InLeft? then p.right else p.left) == st.node
        && (if pos.InLeft? then p.left else p.right) == At(u) && At(u) != st.node
        && st.node in repr && st.node.color == st.color
        && st.node.left == At(st.left) && st.node.right == At(st.right)
        && At(st.left) in repr + {sentl} && At(st.right) in repr + {sentl}
        && (At(st.left).color == Red <==> IsRed(st.left)) && (At(st.right).color == Red <==> IsRed(st.right))
    {
      hide Shape;
      Here(pos, u);
      OtherSide(pos, u);
      Here(Across(pos, u), pos.sibling);
    }

    /** The same tree seen from the sibling. */
    lemma OtherSide(pos: Path, u: Tree)
      requires !pos.Top?
      ensures Shape(pos, u) <==> Shape(Across(pos, u), pos.sibling)
    {
      Up(pos, u);
      Up(Across(pos, u), pos.sibling);
    }

    /** A fix-up round found a black sibling with black children; if it lowered the
        position first, the parent is red now. */
    ghost predicate Turned(pos0: Path, pos: Path, u: Tree)
      reads this`root, this`repr, repr, sentl
    {
      && Shape(pos, u) && !pos.Top? && !pos0.Top? && pos.node == pos0.node && (pos == pos0 || pos.color == Red)
      && Short(pos, u) && BlackTop(pos) && Inorder(Plug(pos, u)) == Inorder(Plug(pos0, u))
      && pos.sibling.Fork? && pos.sibling.color == Black
      && !IsRed(pos.sibling.left) && !IsRed(pos.sibling.right)
    }

    /** One round of the fix-up for a left child, up to the recolouring at its end;
        `done` tells that a rotation has ended the fix-up. */
    method FixLeft(x: Node, p: Node, ghost pos0: Path, ghost u: Tree)
      returns (sib: Node, done: bool, ghost pos: Path, ghost w: Tree)
      requires Shape(pos0, u) && pos0.InLeft? && pos0.node == p && x == At(u) && sentl.color == Black
      requires Short(pos0, u) && !IsRed(u) && BlackTop(pos0)
      modifies this`root, repr, sentl`parent
      ensures done ==> Shape(Top, w) && RB(w) && !IsRed(w) && Inorder(w) == Inorder(Plug(pos0, u))
      ensures !done ==> Turned(pos0, pos, u) && sib == pos.sibling.node
    {
      hide Shape, Short, RB, BlackTop, Plug, Inorder, PathRB, BlackHeight;
      ShortSibling(pos0, u);
      pos, w := pos0, u;
      SiblingHere(pos, u);
      sib := p.right;
      if sib.color == Red {
        LowerLeft(p, sib, pos, u);
        LoweredShort(pos, u);
        pos := Lowered(pos);
        ShortSibling(pos, u);
        SiblingHere(pos, u);
        sib := p.right;
      }
      done := sib.left.color == Red || sib.right.color == Red;
      if done {
        if sib.right.color == Black {
          ghost var st := pos.sibling;
          OtherSide(pos, u);
          StraightenLeft(sib, Across(pos, u), st);
          StraightLeftRB(st);
          BesideShort(pos, u, StraightLeft(st));
          pos := Beside(pos, StraightLeft(st));
          OtherSide(pos, u);
          SiblingHere(pos, u);
          sib := p.right;
        }
        CloseLeft(p, sib, pos, u);
        ClosedLeftRB(pos, u);
        UpToTop(pos.up, ClosedLeft(pos, u));
        w := Plug(pos.up, ClosedLeft(pos, u));
      }
    }

    /** The mirror image of `FixLeft`. */
    method FixRight(x: Node, p: Node, ghost pos0: Path, ghost u: Tree)
      returns (sib: Node, done: bool, ghost pos: Path, ghost w: Tree)
      requires Shape(pos0, u) && pos0.InRight? && pos0.node == p && x == At(u) && sentl.color == Black
      requires Short(pos0, u) && !IsRed(u) && BlackTop(pos0)
      modifies this`root, repr, sentl`parent
      ensures done ==> Shape(Top, w) && RB(w) && !IsRed(w) && Inorder(w) == Inorder(Plug(pos0, u))
      ensures !done ==> Turned(pos0, pos, u) && sib == pos.sibling.node
    {
      hide Shape, Short, RB, BlackTop, Plug, Inorder, PathRB, BlackHeight;
      ShortSibling(pos0, u);
      pos, w := pos0, u;
      SiblingHere(pos, u);
      sib := p.left;
      if sib.color == Red {
        LowerRight(p, sib, pos, u);
        LoweredShort(pos, u);
        pos := Lowered(pos);
        ShortSibling(pos, u);
        SiblingHere(pos, u);
        sib := p.left;
      }
      done := sib.left.color == Red || sib.right.color == Red;
      if done {
        if sib.left.color == Black {
          ghost var st := pos.sibling;
          OtherSide(pos, u);
          StraightenRight(sib, Across(pos, u), st);
          StraightRightRB(st);
          BesideShort(pos, u, StraightRight(st));
          pos := Beside(pos, StraightRight(st));
          OtherSide(pos, u);
          SiblingHere(pos, u);
          sib := p.left;
        }
        CloseRight(p, sib, pos, u);
        ClosedRightRB(pos, u);
        UpToTop(pos.up, ClosedRight(pos, u));
        w := Plug(pos.up, ClosedRight(pos, u));
      }
    }

    /** The fix-up loop of `ffrbt_rm`: all ways down through position `pos0` are one
        black node short.  A round either ends the loop by a rotation, or moves the
        position up, or lowers it below a red parent, which ends the loop next. */
    method RmFixup(x0: Node, ghost pos0: Path, ghost u0: Tree) returns (x: Node, ghost pos: Path, ghost u: Tree)
      requires Shape(pos0, u0) && x0 == At(u0) && x0.parent == ParentAt(pos0) && sentl.color == Black
      requires Short(pos0, u0) && BlackTop(pos0)
      modifies this`root, repr, sentl`parent
      ensures Shape(pos, u) && x == At(u)
      ensures var b := if u.Fork? then u.(color := Black) else u;
        RB(Plug(pos, b)) && !IsRed(Plug(pos, b)) && Inorder(Plug(pos, b)) == Inorder(Plug(pos0, u0))
    {
      hide Shape, Short, RB, BlackTop, Plug, Inorder, PathRB, BlackHeight;
      x, pos, u := x0, pos0, u0;
      RootHere(pos, u);
      while x != root && x.color == Black
        invariant Shape(pos, u) && x == At(u) && x.parent == ParentAt(pos) && sentl.color == Black
        invariant (x == root <==> pos.Top?) && (x.color == Red <==> IsRed(u))
        invariant Short(pos, u) && BlackTop(pos) && Inorder(Plug(pos, u)) == Inorder(Plug(pos0, u0))
        decreases if IsRed(u) then 0 else PathLength(pos) + 1
      {
        ghost var before := pos;
        ShortSibling(pos, u);
        SiblingHere(pos, u);
        var p := x.parent;
        var sib, done;
        ghost var w;
        if x == p.left {
          sib, done, pos, w := FixLeft(x, p, pos, u);
        } else {
          sib, done, pos, w := FixRight(x, p, pos, u);
        }
        if done {
          x, pos, u := root, Top, w;
          RootHere(pos, u);
          Finished(w);
          return;
        }
        RaisedShort(pos, u);
        Redden(sib, pos, u);
        x, pos, u := p, pos.up, Join(Beside(pos, pos.sibling.(color := Red)), u);
        Here(pos, u);
        RootHere(pos, u);
      }
      ShortBlackened(pos, u);
    }

    /** `sib->color = RED`. */
    method Redden(sib: Node, ghost pos: Path, ghost u: Tree)
      requires Shape(pos, u) && !pos.Top? && pos.sibling.Fork? && pos.sibling.node == sib
      modifies repr`color
      ensures Shape(pos.up, Join(Beside(pos, pos.sibling.(color := Red)), u))
    {
      hide Shape;
      OtherSide(pos, u);
      Here(Across(pos, u), pos.sibling);
      Paint(sib, Red, Across(pos, u), pos.sibling);
      ghost var q := Beside(pos, pos.sibling.(color := Red));
      OtherSide(q, u);
      Up(q, u);
    }

    lemma RootHere(pos: Path, u: Tree)
      requires Shape(pos, u) && sentl.color == Black
      ensures (At(u) == root <==> pos.Top?) && (At(u).color == Red <==> IsRed(u)) && sentl !in repr
    {
      Here(pos, u);
      UpToTop(pos, u);
      Here(Top, Plug(pos, u));
      if !pos.Top? { RootInPath(pos, u); }
    }

    /** A sound tree with a black root needs no more paint. */
    lemma Finished(w: Tree)
      requires RB(w) && !IsRed(w)
      ensures var b := if w.Fork? then w.(color := Black) else w;
        RB(Plug(Top, b)) && !IsRed(Plug(Top, b)) && Inorder(Plug(Top, b)) == Inorder(w)
    {
      assert w.Fork? ==> w.(color := Black) == w;
    }

    /** The successor, if there is one, takes over the colour of `node`; returns the
        colour that is lost. */
    method ExchangeColors(node: Node, next: Node?, x: Node, ghost p: Path, ghost t: Tree) returns (clr: Color)
      requires t.Fork? && t.node == node && node.color == t.color && node !in repr && node != sentl
      requires Hole(x, p, t, LostColor(t))
      requires if TwoChildren(t) then next == Leftmost(t.right).node else next == null
      modifies repr`color
      ensures clr == LostColor(t) && Hole(x, p, t, t.color) && sentl.color == old(sentl.color)
    {
      hide Shape, HolePath, Plug, Leftmost, LeftPath, HoleTree, Append;
      HoleKnown(x, p, t, LostColor(t));
      UpToTop(HolePath(p, t, LostColor(t)), HoleTree(t));
      HolePlug(p, t, LostColor(t));
      HolePlug(p, t, t.color);
      SameHolder(p, t, LostColor(t), t.color);
      if next == null {
        clr := node.color;
      } else {
        clr := next.color;
        UpToTop(p, Removed(t));
        Here(p, Removed(t));
        Paint(next, node.color, p, Removed(t));
        UpToTop(p, Removed(t).(color := t.color));
      }
      UpToTop(HolePath(p, t, t.color), HoleTree(t));
    }

    lemma HoleKnown(x: Node, p: Path, t: Tree, c: Color)
      requires t.Fork? && Hole(x, p, t, c)
      ensures sentl !in repr && Shape(HolePath(p, t, c), HoleTree(t))
    {}

    lemma SameHolder(p: Path, t: Tree, c: Color, d: Color)
      requires t.Fork?
      ensures ParentAt(HolePath(p, t, c)) == ParentAt(HolePath(p, t, d))
    {
      if TwoChildren(t) {
        var q := LeftPath(t.right);
        if q.InLeft? || q.InRight? { assert ParentAt(HolePath(p, t, c)) == q.node; }
      }
    }

    /** `ffrbt_rm`. */
    method Remove(node: Node)
      requires Valid() && node in repr
      modifies this, repr, sentl
      ensures Valid() && repr == old(repr) - {node}
      ensures Inorder(tree) == Without(old(Inorder(tree)), node)
      ensures node.left == null && node.right == null && node.parent == null
    {
      hide *;
      Opened();
      MemberHere(node);
      ghost var p, t := PathTo(tree, node), SubAt(tree, node);
      RemovalStart(node);
      var x, next := NodeRm(node, p, t);
      len := len - 1;
      var clr := ExchangeColors(node, next, x, p, t);
      ghost var pos, u := HolePath(p, t, t.color), HoleTree(t);
      HoleFacts(x, p, t, t.color);
      if clr == Black {
        x, pos, u := RmFixup(x, pos, u);
      } else {
        RedLost(pos, u);
      }
      OccupantKnown(pos, u);
      PaintBlack(x, pos, u);
      ghost var b := if u.Fork? then u.(color := Black) else u;
      UpToTop(pos, b);
      tree := Plug(pos, b);
      Closed();
    }

    lemma HoleFacts(x: Node, p: Path, t: Tree, c: Color)
      requires t.Fork? && Hole(x, p, t, c)
      ensures Shape(HolePath(p, t, c), HoleTree(t)) && x == At(HoleTree(t)) && x.parent == ParentAt(HolePath(p, t, c))
      ensures x in repr + {sentl}
    {}

    /** A member of the tree is at a position of its shape. */
    lemma MemberHere(node: Node)
      requires Valid() && node in repr
      ensures node in Nodes(tree) && Shape(PathTo(tree, node), SubAt(tree, node))
      ensures node.color == SubAt(tree, node).color && node != sentl && SubAt(tree, node).node == node
      ensures Plug(PathTo(tree, node), SubAt(tree, node)) == tree && Distinct(tree)
    {
      PathToPlug(tree, node);
      UpToTop(PathTo(tree, node), SubAt(tree, node));
      Here(PathTo(tree, node), SubAt(tree, node));
    }

    /** What removing `node` will leave, before any repair. */
    lemma RemovalStart(node: Node)
      requires Valid() && node in Nodes(tree) && node in repr
      ensures var p, t := PathTo(tree, node), SubAt(tree, node);
        var pos, u := HolePath(p, t, t.color), HoleTree(t);
        && (LostColor(t) == Red ==> u.Leaf? && RB(Plug(pos, u)) && !IsRed(Plug(pos, u)))
        && (LostColor(t) == Black ==> Short(pos, u)) && BlackTop(pos)
        && Inorder(Plug(pos, u)) == Without(Inorder(tree), node)
      ensures Sorted(Without(Inorder(tree), node)) && |Without(Inorder(tree), node)| == len - 1
    {
      hide Shape, HolePath, HoleTree;
      var p, t := PathTo(tree, node), SubAt(tree, node);
      PathToPlug(tree, node);
      RemovedColors(p, t);
      MemberHere(node);
      MemberApart(p, t);
      RemovedInorder(p, t, t.color);
      WithoutSorted(Inorder(tree), node);
      InorderNodes(tree);
      assert node in Elems(Inorder(tree));
    }

    lemma OccupantKnown(p: Path, t: Tree)
      requires Shape(p, t)
      ensures At(t) in repr + {sentl}
    {}

    lemma MemberApart(p: Path, t: Tree)
      requires Shape(p, t)
      ensures Distinct(t) && Nodes(t) !! PathNodes(p)
    {}

    // ---------- searching ----------

    /** `ffrbt_find`; `steps` counts the rounds of its loop. */
    method Find(key: nat) returns (r: Node?, ghost steps: nat)
      requires Valid()
      ensures r != null <==> HasKey(Inorder(tree), key)
      ensures r != null ==> r in repr && r.key == key
      ensures Shifted(steps) <= (len + 1) * (len + 1)
    {
      hide *;
      ghost var q, u := Top, tree;
      Opened();
      Here(q, u);
      SearchStart(key);
      TopPlug(u);
      HeightBound(tree);
      ShiftedMonotone(0, Height(tree));
      steps := 0;
      var node := root;
      while node != sentl
        invariant Shape(q, u) && node == (if u.Fork? then u.node else sentl) && Plug(q, u) == tree
        invariant Narrowed(q, key) && steps + Height(u) <= Height(tree) && Shifted(steps) <= Shifted(Height(tree))
        decreases u
      {
        Here(q, u);
        Children(u);
        SearchStep(q, u, key);
        steps := steps + 1;
        ShiftedMonotone(steps, Height(tree));
        if key < node.key {
          node := node.left;
          q, u := InLeft(q, u.node, u.color, u.right), u.left;
          UpLeft(q, u);
        } else if key > node.key {
          node := node.right;
          q, u := InRight(q, u.node, u.color, u.left), u.right;
          UpRight(q, u);
        } else {
          return node, steps;
        }
      }
      Here(q, u);
      SearchEnd(q, key);
      r := null;
    }

    /** `ffrbt_node_locate` in the subtree t below the root or any other position: the node
        with the key, or else the node below which a node with that key belongs; the
        sentinel in an empty tree.  `steps` counts the rounds of its loop. */
    method Locate(key: nat, start: Node, ghost p: Path, ghost t: Tree)
      returns (r: Node, ghost pos: Path, ghost steps: nat)
      requires Valid() && Plug(p, t) == tree && start == At(t)
      ensures r == sentl <==> t.Leaf?
      ensures HasKey(Inorder(t), key) ==> r in repr && r.key == key
      ensures t.Fork? && !HasKey(Inorder(t), key) ==>
        Plug(pos, Leaf) == t && !pos.Top? && pos.node == r && Narrowed(pos, key)
      ensures steps <= Height(t) && Shifted(steps) <= (len + 1) * (len + 1)
    {
      hide *;
      ghost var q, u := p, t;
      pos := Top;
      Opened();
      UpToTop(p, t);
      SortedPart(p, t);
      Here(q, u);
      Itself(t);
      SearchStart(key);
      TopPlug(t);
      HeightBound(tree);
      PlugHeight(p, t);
      ShiftedMonotone(0, Height(tree));
      steps := 0;
      var node := start;
      r := start;
      while node != sentl
        invariant Shape(q, u) && node == (if u.Fork? then u.node else sentl) && Plug(pos, u) == t
        invariant Narrowed(pos, key) && steps + Height(u) <= Height(t) && Shifted(steps) <= Shifted(Height(tree))
        invariant if pos.Top? then r == node && u == t else r == pos.node && r in repr && t.Fork?
        decreases u
      {
        Here(q, u);
        Children(u);
        SearchStep(pos, u, key);
        steps := steps + 1;
        ShiftedMonotone(steps, Height(tree));
        r := node;
        if key < node.key {
          node := node.left;
          pos := InLeft(pos, u.node, u.color, u.right);
          q, u := InLeft(q, u.node, u.color, u.right), u.left;
          UpLeft(q, u);
        } else if key > node.key {
          node := node.right;
          pos := InRight(pos, u.node, u.color, u.left);
          q, u := InRight(q, u.node, u.color, u.left), u.right;
          UpRight(q, u);
        } else {
          return;
        }
      }
      Here(q, u);
      SearchEnd(pos, key);
    }

    lemma Itself(t: Tree)
      ensures At(t) == if t.Fork? then t.node else sentl
    {}

    lemma TopPlug(t: Tree)
      ensures Plug(Top, t) == t
    {}

    /** `At` of the children, spelled out. */
    lemma Children(t: Tree)
      requires t.Fork?
      ensures At(t.left) == (if t.left.Fork? then t.left.node else sentl)
      ensures At(t.right) == (if t.right.Fork? then t.right.node else sentl)
    {}

    lemma UpLeft(p: Path, t: Tree)
      requires p.InLeft? && Shape(p.up, Fork(t, p.node, p.color, p.sibling))
      ensures Shape(p, t)
    {
      Up(p, t);
    }

    lemma UpRight(p: Path, t: Tree)
      requires p.InRight? && Shape(p.up, Fork(p.sibling, p.node, p.color, t))
      ensures Shape(p, t)
    {
      Up(p, t);
    }

    // ---------- walking ----------

    /** `ffrbt_first`. */
    method First() returns (r: Node)
      requires Valid()
      ensures r == if Inorder(tree) == [] then sentl else Inorder(tree)[0]
    {
      Here(Top, tree);
      r := NodeMin(root, Top, tree);
      if tree.Fork? { LeftmostFirst(tree); }
    }

    /** `ffrbt_node_successor`; `i` is the place of `node0` in in-order. */
    method Successor(node0: Node, ghost i: nat) returns (r: Node)
      requires Valid() && i < |Inorder(tree)| && Inorder(tree)[i] == node0
      ensures r == if i + 1 < |Inorder(tree)| then Inorder(tree)[i + 1] else sentl
    {
      hide Shape, Inorder, Plug, PathTo, SubAt, Distinct, Valid;
      NotSentinel(i);
      MemberHere(node0);
      ghost var q, u := PathTo(tree, node0), SubAt(tree, node0);
      r := FollowUp(node0, q, u);
      NextInOrder(q, u, i);
    }

    /** The body of `ffrbt_node_successor`. */
    method FollowUp(node0: Node, ghost q0: Path, ghost u0: Tree) returns (r: Node)
      requires Shape(q0, u0) && u0.Fork? && u0.node == node0
      ensures var rest := Inorder(u0.right) + After(q0);
        r == if rest == [] then sentl else rest[0]
    {
      hide Shape;
      ghost var q, u := q0, u0;
      Here(q, u);
      if node0.right != sentl {
        LeftmostFirst(u.right);
        ghost var f := InRight(q, node0, u.color, u.left);
        Up(f, u.right);
        r := NodeMin(node0.right, f, u.right);
        return;
      }
      var node := node0;
      r := node.parent;
      while r != sentl && node == r.right
        invariant Shape(q, u) && u.Fork? && node == u.node && r == ParentAt(q) && After(q) == After(q0)
        decreases PathLength(q)
      {
        Here(q, u);
        Up(q, u);
        Here(q.up, Join(q, u));
        node := r;
        r := r.parent;
        q, u := q.up, Join(q, u);
      }
      Here(q, u);
    }

    /** `FFRBT_WALK`. */
    method Walk() returns (seen: seq<Node>)
      requires Valid()
      ensures seen == Inorder(tree)
    {
      hide *;
      seen := [];
      var it := First();
      NotSentinel(0);
      while it != sentl
        invariant |seen| <= |Inorder(tree)| && seen == Inorder(tree)[..|seen|]
        invariant it == if |seen| == |Inorder(tree)| then sentl else Inorder(tree)[|seen|]
        decreases |Inorder(tree)| - |seen|
      {
        ghost var k := |seen|;
        NotSentinel(k);
        var next := Successor(it, k);
        seen := seen + [it];
        it := next;
        NotSentinel(k + 1);
      }
      NotSentinel(|seen|);
    }

    lemma NotSentinel(i: nat)
      requires Valid() && i <= |Inorder(tree)|
      ensures i < |Inorder(tree)| ==> Inorder(tree)[i] != sentl && Inorder(tree)[i] in repr
    {
      if i < |Inorder(tree)| { InorderMember(tree, i); }
    }

    /** `FFRBT_FOR` with a body that takes the successor before it removes the
        current node: every node is visited once, in order, and the tree is empty
        at the end.  This works because removal relinks nodes and copies no keys. */
    method Drain() returns (seen: seq<Node>)
      requires Valid()
      modifies this, repr, sentl
      ensures Valid() && seen == old(Inorder(tree)) && Inorder(tree) == []
    {
      hide *;
      seen := [];
      var it := First();
      NotSentinel(0);
      while it != sentl
        invariant Valid() && repr <= old(repr)
        invariant seen + Inorder(tree) == old(Inorder(tree))
        invariant it == if Inorder(tree) == [] then sentl else Inorder(tree)[0]
        invariant Inorder(tree) != [] ==> it != sentl && it in repr
        decreases |Inorder(tree)|
      {
        ghost var s := Inorder(tree);
        var next := Successor(it, 0);
        Remove(it);
        WithoutFirst(s);
        assert seen + s == (seen + [s[0]]) + s[1..];
        seen := seen + [it];
        it := next;
        NotSentinel(0);
      }
    }
  }

  // ---------- what the fix-up branches make of the tree ----------

  ghost function RaisedLeft(pos: Path, t: Tree): Tree
    requires t.Fork? && !pos.Top? && pos.up.InLeft?
  {
    var m := if pos.InLeft? then Join(pos, t) else S.RotatedLeft(Join(pos, t));
    Fork(m.left, m.node, Black, Fork(m.right, pos.up.node, Red, pos.up.sibling))
  }

  ghost function RaisedRight(pos: Path, t: Tree): Tree
    requires t.Fork? && !pos.Top? && pos.up.InRight?
  {
    var m := if pos.InRight? then Join(pos, t) else S.RotatedRight(Join(pos, t));
    Fork(Fork(pos.up.sibling, pos.up.node, Red, m.left), m.node, Black, m.right)
  }

  ghost function RedRaised(pos: Path, t: Tree): Tree
    requires !pos.Top? && !pos.up.Top? && pos.up.sibling.Fork?
  {
    var j := Join(pos, t);
    var m, u := j.(color := Black), pos.up.sibling.(color := Black);
    if pos.up.InLeft? then Fork(m, pos.up.node, Red, u) else Fork(u, pos.up.node, Red, m)
  }

  /** A red node under a red parent under a black grandparent, everything else in
      order: the state in which the insert fix-up goes round. */
  ghost predicate RedRed(pos: Path, t: Tree) {
    && IsRed(t) && RB(t) && PathRB(pos, BlackHeight(t), false)
    && !pos.Top? && pos.color == Red && !pos.up.Top? && pos.up.color == Black
  }

  lemma RedRedAbove(pos: Path, t: Tree)
    requires RedRed(pos, t)
    ensures var h, u := BlackHeight(t), pos.up.sibling;
      && RB(pos.sibling) && BlackHeight(pos.sibling) == h && !IsRed(pos.sibling)
      && RB(u) && BlackHeight(u) == h && PathRB(pos.up.up, h + 1, false)
      && RB(t.left) && RB(t.right) && BlackHeight(t.left) == BlackHeight(t.right) == h
      && !IsRed(t.left) && !IsRed(t.right)
  {
    assert PathRB(pos.up, BlackHeight(t), true);
  }

  lemma RaisedLeftRB(pos: Path, t: Tree)
    requires RedRed(pos, t) && pos.up.InLeft? && !IsRed(pos.up.sibling)
    ensures var w := RaisedLeft(pos, t);
      RB(w) && !IsRed(w) && PathRB(pos.up.up, BlackHeight(w), false)
    ensures Inorder(RaisedLeft(pos, t)) == Inorder(Join(pos.up, Join(pos, t)))
    ensures Nodes(RaisedLeft(pos, t)) == Nodes(Join(pos.up, Join(pos, t)))
  {
    RedRedAbove(pos, t);
    var j := Join(pos, t);
    var m := if pos.InLeft? then j else S.RotatedLeft(j);
    if pos.InRight? {
      S.RotationInorder(j.left, j.node, j.color, j.color, t.left, t.node, t.color, t.color, t.right);
      S.RotationShape(j.left, j.node, j.color, t.left, t.node, t.color, t.right);
    }
    S.RotationInorder(m.left, m.node, Black, m.color, m.right, pos.up.node, Red, Black, pos.up.sibling);
    S.RotationShape(m.left, m.node, m.color, m.right, pos.up.node, Black, pos.up.sibling);
  }

  lemma RaisedRightRB(pos: Path, t: Tree)
    requires RedRed(pos, t) && pos.up.InRight? && !IsRed(pos.up.sibling)
    ensures var w := RaisedRight(pos, t);
      RB(w) && !IsRed(w) && PathRB(pos.up.up, BlackHeight(w), false)
    ensures Inorder(RaisedRight(pos, t)) == Inorder(Join(pos.up, Join(pos, t)))
    ensures Nodes(RaisedRight(pos, t)) == Nodes(Join(pos.up, Join(pos, t)))
  {
    RedRedAbove(pos, t);
    var j := Join(pos, t);
    var m := if pos.InRight? then j else S.RotatedRight(j);
    if pos.InLeft? {
      S.RotationInorder(t.left, t.node, t.color, t.color, t.right, j.node, j.color, j.color, j.right);
      S.RotationShape(t.left, t.node, t.color, t.right, j.node, j.color, j.right);
    }
    S.RotationInorder(pos.up.sibling, pos.up.node, Black, Red, m.left, m.node, m.color, Black, m.right);
    S.RotationShape(pos.up.sibling, pos.up.node, Black, m.left, m.node, m.color, m.right);
  }

  lemma RedRaisedRB(pos: Path, t: Tree)
    requires RedRed(pos, t) && IsRed(pos.up.sibling)
    ensures var w := RedRaised(pos, t);
      RB(w) && IsRed(w) && PathRB(pos.up.up, BlackHeight(w), false)
    ensures Inorder(RedRaised(pos, t)) == Inorder(Join(pos.up, Join(pos, t)))
    ensures Nodes(RedRaised(pos, t)) == Nodes(Join(pos.up, Join(pos, t)))
  {
    RedRedAbove(pos, t);
  }

  /** The tree before the fix-up: a red leaf, in order, and sound except for its parent. */
  lemma InsertedTree(before: Tree, pos: Path, node: Node)
    requires Plug(pos, Leaf) == before && RB(before) && !IsRed(before) && Sorted(Inorder(before))
    requires AtMost(Before(pos), node.key) && Above(After(pos), node.key)
    ensures var after := Plug(pos, Fork(Leaf, node, Red, Leaf));
      && Inorder(after) == Placed(Inorder(before), node)
      && Sorted(Inorder(after)) && |Inorder(after)| == |Inorder(before)| + 1
    ensures var t := Fork(Leaf, node, Red, Leaf);
      IsRed(t) && RB(t) && PathRB(pos, BlackHeight(t), false) && BlackTop(pos)
  {
    hide *;
    var t := Fork(Leaf, node, Red, Leaf);
    RedLeaf(node);
    RBPlug(pos, Leaf);
    if !pos.Top? { BlackTopPlug(pos, Leaf); } else { TopIsBlack(); }
    InorderPlug(pos, Leaf);
    InorderPlug(pos, t);
    PlacedBetween(Before(pos), After(pos), node);
    var i := PlacedSorted(Inorder(before), node);
    assert Before(pos) + [] + After(pos) == Before(pos) + After(pos);
  }

  lemma TopIsBlack()
    ensures BlackTop(Top)
  {}

  lemma RedLeaf(node: Node)
    ensures var t := Fork(Leaf, node, Red, Leaf);
      && Inorder(t) == [node] && IsRed(t) && RB(t)
      && Inorder(Leaf) == [] && !IsRed(Leaf) && BlackHeight(t) == BlackHeight(Leaf)
  {}

  /** Replacing the grandparent's subtree by one with the same in-order sequence. */
  lemma FixupStep(pos: Path, t: Tree, w: Tree)
    requires RedRed(pos, t) && BlackTop(pos)
    requires Inorder(w) == Inorder(Join(pos.up, Join(pos, t))) && Nodes(w) == Nodes(Join(pos.up, Join(pos, t)))
    ensures Inorder(Plug(pos.up.up, w)) == Inorder(Plug(pos, t))
    ensures Nodes(Plug(pos.up.up, w)) == Nodes(Plug(pos, t))
    ensures BlackTop(pos.up.up) && PathLength(pos.up.up) < PathLength(pos)
    ensures w.Fork? ==> Plug(pos.up.up, w).Fork?
  {
    var g := Join(pos.up, Join(pos, t));
    assert Plug(pos, t) == Plug(pos.up, Join(pos, t)) == Plug(pos.up.up, g);
    InorderPlug(pos.up.up, w);
    InorderPlug(pos.up.up, g);
    NodesPlug(pos.up.up, w);
    NodesPlug(pos.up.up, g);
    if w.Fork? { ForkPlug(pos.up.up, w); }
  }

  lemma ForkPlug(pos: Path, t: Tree)
    requires t.Fork?
    ensures Plug(pos, t).Fork?
  {
    NodesPlug(pos, t);
    assert t.node in Nodes(Plug(pos, t));
  }

  lemma RedLost(pos: Path, u: Tree)
    requires u.Leaf?
    ensures Plug(pos, if u.Fork? then u.(color := Black) else u) == Plug(pos, u)
  {}

  lemma WithoutFirst(s: seq<Node>)
    requires s != []
    ensures Without(s, s[0]) == s[1..]
  {}
}
