/** What removal does to the shape of a red-black tree: the pure part of the
    model of `_ffrbt_node_rm` and of the fix-up loop in `ffrbt_rm`. */
module RbRemoval {
  import opened RbShape
  import S = RbStore

  // ---------- finding a node in the shape ----------

  ghost function SubAt(t: Tree, n: Node): (u: Tree)
    requires n in Nodes(t)
    ensures u.Fork? && u.node == n
  {
    if t.node == n then t else if n in Nodes(t.left) then SubAt(t.left, n) else SubAt(t.right, n)
  }

  ghost function PathTo(t: Tree, n: Node): Path
    requires n in Nodes(t)
  {
    if t.node == n then Top
    else if n in Nodes(t.left) then Append(PathTo(t.left, n), InLeft(Top, t.node, t.color, t.right))
    else Append(PathTo(t.right, n), InRight(Top, t.node, t.color, t.left))
  }

  lemma {:induction false} PathToPlug(t: Tree, n: Node)
    requires n in Nodes(t)
    ensures Plug(PathTo(t, n), SubAt(t, n)) == t
  {
    if t.node == n {
    } else {
      var inLeft := n in Nodes(t.left);
      PathToPlug(if inLeft then t.left else t.right, n);
      var f := if inLeft then InLeft(Top, t.node, t.color, t.right) else InRight(Top, t.node, t.color, t.left);
      PlugAppend(if inLeft then PathTo(t.left, n) else PathTo(t.right, n), f, SubAt(t, n));
    }
  }

  // ---------- the minimum of a subtree ----------

  ghost function Leftmost(t: Tree): (m: Tree)
    requires t.Fork?
    ensures m.Fork? && m.left.Leaf?
  {
    if t.left.Leaf? then t else Leftmost(t.left)
  }

  ghost function LeftPath(t: Tree): Path
    requires t.Fork?
  {
    if t.left.Leaf? then Top else Append(LeftPath(t.left), InLeft(Top, t.node, t.color, t.right))
  }

  lemma {:induction false} LeftmostPlug(t: Tree)
    requires t.Fork?
    ensures Plug(LeftPath(t), Leftmost(t)) == t
    ensures Before(LeftPath(t)) == []
    ensures LeftPath(t).Top? == t.left.Leaf? && !LeftPath(t).InRight?
  {
    if t.left.Leaf? {
    } else {
      var f := InLeft(Top, t.node, t.color, t.right);
      LeftmostPlug(t.left);
      PlugAppend(LeftPath(t.left), f, Leftmost(t));
      BeforeAppend(LeftPath(t.left), f);
      assert Append(LeftPath(t.left), f).Top? == false;
    }
  }

  lemma {:induction false} BeforeAppend(q: Path, base: Path)
    ensures Before(Append(q, base)) == Before(base) + Before(q)
    ensures After(Append(q, base)) == After(q) + After(base)
    decreases q
  {
    if !q.Top? {
      BeforeAppend(q.up, base);
      if q.InRight? {
        Regroup(Before(base), Before(q.up), Inorder(q.sibling), [q.node]);
        assert Before(base) + (Before(q.up) + Inorder(q.sibling) + [q.node])
            == Before(base) + Before(q.up) + Inorder(q.sibling) + [q.node];
      } else {
        Regroup([q.node], Inorder(q.sibling), After(q.up), After(base));
        assert [q.node] + Inorder(q.sibling) + (After(q.up) + After(base))
            == [q.node] + Inorder(q.sibling) + After(q.up) + After(base);
      }
    }
  }

  /** The minimum comes first in in-order. */
  lemma LeftmostFirst(t: Tree)
    requires t.Fork?
    ensures Inorder(t) != [] && Inorder(t)[0] == Leftmost(t).node
  {
    LeftmostPlug(t);
    InorderPlug(LeftPath(t), Leftmost(t));
    assert Inorder(Leftmost(t)) == [Leftmost(t).node] + Inorder(Leftmost(t).right);
  }

  // ---------- unlinking ----------

  /** What stands in the place of the root of `t` once that is gone; the successor
      that moves up keeps its own colour. */
  ghost function Removed(t: Tree): Tree
    requires t.Fork?
  {
    if t.left.Leaf? then t.right
    else if t.right.Leaf? then t.left
    else
      var m := Leftmost(t.right);
      Fork(t.left, m.node, m.color, Plug(LeftPath(t.right), m.right))
  }

  ghost predicate TwoChildren(t: Tree) { t.Fork? && t.left.Fork? && t.right.Fork? }

  /** The position that lost a node, for a new root coloured `c`, and what is there now. */
  ghost function HolePath(p: Path, t: Tree, c: Color): Path
    requires t.Fork?
  {
    if TwoChildren(t) then Append(LeftPath(t.right), InRight(p, Leftmost(t.right).node, c, t.left)) else p
  }

  ghost function HoleTree(t: Tree): Tree
    requires t.Fork?
  {
    if t.left.Leaf? then t.right else if t.right.Leaf? then t.left else Leftmost(t.right).right
  }

  /** The node that is unlinked, with what is below it. */
  ghost function Unlinked(t: Tree): (m: Tree)
    requires t.Fork?
    ensures m.Fork?
  { if TwoChildren(t) then Leftmost(t.right) else t }

  /** The colour that has gone missing at the hole. */
  ghost function LostColor(t: Tree): Color
    requires t.Fork?
  { Unlinked(t).color }

  lemma HolePlug(p: Path, t: Tree, c: Color)
    requires t.Fork?
    ensures var r := Removed(t);
      Plug(HolePath(p, t, c), HoleTree(t)) == Plug(p, if TwoChildren(t) then r.(color := c) else r)
  {
    if TwoChildren(t) {
      PlugAppend(LeftPath(t.right), InRight(p, Leftmost(t.right).node, c, t.left), HoleTree(t));
    }
  }

  lemma RemovedNodes(p: Path, t: Tree)
    requires t.Fork? && Distinct(t) && Nodes(t) !! PathNodes(p)
    ensures Nodes(t) + PathNodes(p) == Nodes(Removed(t)) + PathNodes(p) + {t.node}
    ensures t.node !in Nodes(Removed(t)) && t.node !in PathNodes(p)
  {
    if TwoChildren(t) { RemovedNextNodes(p, t); }
  }

  lemma RemovedNextNodes(p: Path, t: Tree)
    requires TwoChildren(t) && Distinct(t) && Nodes(t) !! PathNodes(p)
    ensures Nodes(t) + PathNodes(p) == Nodes(Removed(t)) + PathNodes(p) + {t.node}
    ensures t.node !in Nodes(Removed(t)) && t.node !in PathNodes(p)
  {
    hide PathNodes, Plug, LeftPath, Leftmost;
    var r, m := t.right, Leftmost(t.right);
    LeftmostPlug(r);
    NodesPlug(LeftPath(r), m);
    NodesPlug(LeftPath(r), m.right);
    assert Nodes(m) == {m.node} + Nodes(m.right);
  }

  /** The successor and what is below and above it, seen from the whole tree. */
  ghost function NextPath(p: Path, t: Tree): Path
    requires TwoChildren(t)
  {
    Append(LeftPath(t.right), InRight(p, t.node, t.color, t.left))
  }

  lemma NextApart(p: Path, t: Tree)
    requires TwoChildren(t) && t.right.left.Fork? && Distinct(t) && Nodes(t) !! PathNodes(p)
    ensures var r, next := Removed(t).right, Leftmost(t.right).node;
      && r.Fork? && next !in Nodes(Fork(t.left, t.node, t.color, r)) && next !in PathNodes(p)
      && t.left.node != t.node && r.node != t.node && next != t.node && next != t.left.node && next != r.node
  {
    var q, m := LeftPath(t.right), Leftmost(t.right);
    LeftmostPlug(t.right);
    NodesPlug(q, m);
    NodesPlug(q, m.right);
    ApartPlug(q, m);
    var r := Removed(t).right;
    assert q.node in Nodes(r);
  }

  /** A subtree shares no node with the path around it. */
  lemma {:induction false} ApartPlug(q: Path, m: Tree)
    requires Distinct(Plug(q, m))
    ensures Distinct(m) && Nodes(m) !! PathNodes(q)
    decreases q
  {
    if q.Top? {
    } else {
      ApartPlug(q.up, Join(q, m));
    }
  }

  lemma NextPlug(p: Path, t: Tree)
    requires TwoChildren(t)
    ensures Plug(NextPath(p, t), Leftmost(t.right)) == Plug(p, t)
    ensures t.right.left.Fork? ==>
      NextPath(p, t).InLeft? && !LeftPath(t.right).Top? && NextPath(p, t).node == LeftPath(t.right).node
  {
    LeftmostPlug(t.right);
    PlugAppend(LeftPath(t.right), InRight(p, t.node, t.color, t.left), Leftmost(t.right));
  }

  /** Unlinking removes exactly the node and keeps the order of all others. */
  lemma RemovedInorder(p: Path, t: Tree, c: Color)
    requires t.Fork? && Distinct(t) && Nodes(t) !! PathNodes(p)
    ensures Inorder(Plug(HolePath(p, t, c), HoleTree(t))) == Without(Inorder(Plug(p, t)), t.node)
  {
    hide Distinct, Nodes, PathNodes, Plug, Without;
    var q := HolePath(p, t, c);
    InorderPlug(q, HoleTree(t));
    InorderPlug(p, t);
    var a, b := Before(p) + Inorder(t.left), Inorder(t.right) + After(p);
    Regroup(Before(p), Inorder(t.left), [t.node] + Inorder(t.right), After(p));
    assert Inorder(t) == Inorder(t.left) + ([t.node] + Inorder(t.right));
    assert Inorder(Plug(p, t)) == a + [t.node] + b;
    NotBefore(p, t);
    WithoutMiddle(a, t.node, b);
    HoleOrder(p, t, c);
  }

  lemma NotBefore(p: Path, t: Tree)
    requires t.Fork? && Distinct(t) && Nodes(t) !! PathNodes(p)
    ensures t.node !in Before(p) + Inorder(t.left)
  {
    BeforeAfterNodes(p);
    InorderNodes(t.left);
    assert t.node !in Elems(Before(p)) && t.node !in Elems(Inorder(t.left));
  }

  lemma HoleOrder(p: Path, t: Tree, c: Color)
    requires t.Fork?
    ensures var q := HolePath(p, t, c);
      Before(q) + Inorder(HoleTree(t)) + After(q) == (Before(p) + Inorder(t.left)) + (Inorder(t.right) + After(p))
  {
    if TwoChildren(t) {
      var r, m := t.right, Leftmost(t.right);
      var f := InRight(p, m.node, c, t.left);
      LeftmostPlug(r);
      BeforeAppend(LeftPath(r), f);
      InorderPlug(LeftPath(r), m);
      assert Inorder(m) == [m.node] + Inorder(m.right);
      Sequences(Before(p) + Inorder(t.left), m.node, Inorder(m.right), After(LeftPath(r)), After(p));
    } else if t.left.Leaf? {
      assert Before(p) + [] == Before(p);
    } else {
      assert [] + After(p) == After(p);
    }
  }

  lemma Sequences(x: seq<Node>, n: Node, y: seq<Node>, z: seq<Node>, w: seq<Node>)
    ensures ((x + [n]) + []) + y + (z + w) == x + (([] + ([n] + y) + z) + w)
  {}

  // ---------- colours ----------

  /** Every way down through `t` is one black node short, unless `t` has a red root. */
  ghost predicate Short(p: Path, t: Tree) {
    RB(if t.Fork? then t.(color := Black) else t) && PathRB(p, BlackHeight(t) + 1, false)
  }

  /** The surroundings of the hole accept what has been there. */
  lemma HoleAround(p: Path, t: Tree)
    requires t.Fork? && RB(Plug(p, t)) && !IsRed(Plug(p, t))
    ensures var m := Unlinked(t);
      RB(m) && PathRB(HolePath(p, t, t.color), BlackHeight(m), IsRed(m)) && BlackTop(HolePath(p, t, t.color))
  {
    var m := Unlinked(t);
    RBPlug(p, t);
    if TwoChildren(t) {
      var r := t.right;
      NextPlug(p, t);
      RBPlug(NextPath(p, t), m);
      PathRBRename(LeftPath(r), p, t.node, m.node, t.color, t.left, BlackHeight(m), IsRed(m));
    }
    SameTop(p, t, m);
  }

  lemma HoleColors(t: Tree)
    requires t.Fork? && RB(Unlinked(t))
    ensures var m, h := Unlinked(t), HoleTree(t);
      && RB(h) && BlackHeight(h) + Blacks(LostColor(t)) == BlackHeight(m)
      && (LostColor(t) == Red ==> h.Leaf? && IsRed(m)) && (IsRed(h) ==> RB(h.(color := Black)))
  {}

  /** Losing a red node leaves a sound tree; losing a black one, a short hole. */
  lemma RemovedColors(p: Path, t: Tree)
    requires t.Fork? && RB(Plug(p, t)) && !IsRed(Plug(p, t))
    ensures var q, h := HolePath(p, t, t.color), HoleTree(t);
      && (LostColor(t) == Red ==> h.Leaf? && RB(Plug(q, h)) && !IsRed(Plug(q, h)))
      && (LostColor(t) == Black ==> Short(q, h)) && BlackTop(q)
  {
    hide HolePath, HoleTree, LostColor, Unlinked, PathRB, BlackTop, Plug;
    var q, h, m := HolePath(p, t, t.color), HoleTree(t), Unlinked(t);
    HoleAround(p, t);
    HoleColors(t);
    if LostColor(t) == Black {
      WeakerHole(q, BlackHeight(m), IsRed(m));
    } else {
      WeakerHole(q, BlackHeight(m), IsRed(m));
      RBPlug(q, h);
      RootBlack(q, h);
    }
  }

  lemma RootBlack(q: Path, h: Tree)
    requires BlackTop(q) && h.Leaf?
    ensures !IsRed(Plug(q, h))
  {
    if !q.Top? { BlackTopPlug(q, h); }
  }

  lemma WeakerHole(p: Path, h: nat, red: bool)
    requires PathRB(p, h, red)
    ensures PathRB(p, h, false)
  {}

  lemma SameTop(p: Path, t: Tree, m: Tree)
    requires t.Fork? && RB(t) && !IsRed(Plug(p, t)) && m == Unlinked(t)
    ensures BlackTop(HolePath(p, t, t.color))
  {
    if !p.Top? { BlackTopPlug(p, t); }
    if TwoChildren(t) {
      BlackTopAppend(LeftPath(t.right), InRight(p, m.node, t.color, t.left));
    }
  }

  lemma {:induction false} BlackTopAppend(q: Path, base: Path)
    requires !base.Top? && BlackTop(base)
    ensures BlackTop(Append(q, base)) && !Append(q, base).Top?
  {
    if q.Top? {
    } else {
      BlackTopAppend(q.up, base);
    }
  }

  // ---------- the fix-up branches ----------

  /** A sibling with a red near child: that child moves up, so that the red child
      is on the far side. */
  ghost function StraightLeft(st: Tree): Tree
    requires st.Fork? && st.left.Fork?
  {
    var l := st.left;
    Fork(l.left, l.node, Black, Fork(l.right, st.node, Red, st.right))
  }

  ghost function StraightRight(st: Tree): Tree
    requires st.Fork? && st.right.Fork?
  {
    var r := st.right;
    Fork(Fork(st.left, st.node, Red, r.left), r.node, Black, r.right)
  }

  /** A sibling with a red far child: it moves up, takes over the parent's colour,
      and the short side gains a black node. */
  ghost function ClosedLeft(p: Path, t: Tree): Tree
    requires p.InLeft? && p.sibling.Fork? && p.sibling.right.Fork?
  {
    var s := p.sibling;
    Fork(Fork(t, p.node, Black, s.left), s.node, p.color, s.right.(color := Black))
  }

  ghost function ClosedRight(p: Path, t: Tree): Tree
    requires p.InRight? && p.sibling.Fork? && p.sibling.left.Fork?
  {
    var s := p.sibling;
    Fork(s.left.(color := Black), s.node, p.color, Fork(s.right, p.node, Black, t))
  }

  /** The position after a red sibling has been rotated above the parent. */
  ghost function Lowered(p: Path): Path
    requires !p.Top? && p.sibling.Fork?
  {
    var s := p.sibling;
    if p.InLeft? then InLeft(InLeft(p.up, s.node, Black, s.right), p.node, Red, s.left)
    else InRight(InRight(p.up, s.node, Black, s.left), p.node, Red, s.right)
  }

  /** `p` with another sibling. */
  ghost function Beside(p: Path, s: Tree): Path
    requires !p.Top?
  {
    if p.InLeft? then InLeft(p.up, p.node, p.color, s) else InRight(p.up, p.node, p.color, s)
  }

  /** The sibling's position. */
  ghost function Across(p: Path, t: Tree): Path
    requires !p.Top?
  {
    if p.InLeft? then InRight(p.up, p.node, p.color, t) else InLeft(p.up, p.node, p.color, t)
  }

  /** A short hole has a sibling with a black node in it. */
  lemma ShortSibling(p: Path, t: Tree)
    requires Short(p, t) && !IsRed(t) && !p.Top?
    ensures var h, s := BlackHeight(t), p.sibling;
      && RB(t) && s.Fork? && RB(s) && BlackHeight(s) == h + 1
      && (p.color == Red ==> s.color == Black)
      && PathRB(p.up, h + 1 + Blacks(p.color), p.color == Red)
      && (s.color == Red ==> s.left.Fork? && s.right.Fork? && s.left.color == Black && s.right.color == Black)
  {
    assert t.Fork? ==> t.(color := Black) == t;
  }

  lemma LoweredShort(p: Path, t: Tree)
    requires Short(p, t) && !IsRed(t) && !p.Top? && BlackTop(p)
    requires p.sibling.Fork? && p.sibling.color == Red
    ensures Short(Lowered(p), t) && !IsRed(Lowered(p).sibling) && BlackTop(Lowered(p))
    ensures Inorder(Plug(Lowered(p), t)) == Inorder(Plug(p, t))
  {
    ShortSibling(p, t);
    LoweredInorder(p, t);
    assert PathRB(Lowered(p).up, BlackHeight(t) + 1, true);
  }

  lemma LoweredInorder(p: Path, t: Tree)
    requires !p.Top? && p.sibling.Fork?
    ensures Inorder(Plug(Lowered(p), t)) == Inorder(Plug(p, t))
  {
    var q, s := Lowered(p), p.sibling;
    if p.InLeft? {
      S.RotationInorder(t, p.node, Red, p.color, s.left, s.node, Black, s.color, s.right);
      S.RotationInorder(t, p.node, p.color, Red, s.left, s.node, s.color, Black, s.right);
    } else {
      S.RotationInorder(s.left, s.node, s.color, s.color, s.right, p.node, p.color, p.color, t);
      S.RotationInorder(s.left, s.node, Black, s.color, s.right, p.node, Red, p.color, t);
    }
    assert Plug(q, t) == Plug(q.up, Join(q, t)) == Plug(p.up, Join(q.up, Join(q, t)));
    assert Inorder(Join(q.up, Join(q, t))) == Inorder(Join(p, t));
    InorderPlug(p.up, Join(p, t));
    InorderPlug(p.up, Join(q.up, Join(q, t)));
  }

  lemma StraightLeftRB(st: Tree)
    requires RB(st) && st.Fork? && st.color == Black && IsRed(st.left) && !IsRed(st.right)
    ensures var w := StraightLeft(st);
      RB(w) && BlackHeight(w) == BlackHeight(st) && !IsRed(w) && IsRed(w.right) && Inorder(w) == Inorder(st)
  {
    var l := st.left;
    S.RotationInorder(l.left, l.node, Black, l.color, l.right, st.node, Red, st.color, st.right);
  }

  lemma StraightRightRB(st: Tree)
    requires RB(st) && st.Fork? && st.color == Black && IsRed(st.right) && !IsRed(st.left)
    ensures var w := StraightRight(st);
      RB(w) && BlackHeight(w) == BlackHeight(st) && !IsRed(w) && IsRed(w.left) && Inorder(w) == Inorder(st)
  {
    var r := st.right;
    S.RotationInorder(st.left, st.node, st.color, Red, r.left, r.node, r.color, Black, r.right);
  }

  lemma ClosedLeftOrder(p: Path, t: Tree)
    requires p.InLeft? && p.sibling.Fork? && p.sibling.right.Fork?
    ensures Inorder(Plug(p.up, ClosedLeft(p, t))) == Inorder(Plug(p, t))
  {
    var w, s := ClosedLeft(p, t), p.sibling;
    S.RotationInorder(t, p.node, p.color, Black, s.left, s.node, s.color, p.color, s.right);
    assert Inorder(w) == Inorder(Join(p, t));
    InorderPlug(p.up, w);
    InorderPlug(p.up, Join(p, t));
  }

  lemma PlugTop(t: Tree)
    ensures Plug(Top, t) == t
  {}

  lemma ClosedLeftRB(p: Path, t: Tree)
    requires Short(p, t) && !IsRed(t) && p.InLeft? && p.sibling.Fork? && BlackTop(p)
    requires p.sibling.color == Black && IsRed(p.sibling.right)
    ensures RB(Plug(p.up, ClosedLeft(p, t))) && !IsRed(Plug(p.up, ClosedLeft(p, t)))
    ensures Inorder(Plug(p.up, ClosedLeft(p, t))) == Inorder(Plug(p, t))
  {
    hide Inorder, Plug;
    ShortSibling(p, t);
    ClosedLeftOrder(p, t);
    var w := ClosedLeft(p, t);
    RBPlug(p.up, w);
    if p.up.Top? { PlugTop(w); } else { BlackTopPlug(p.up, w); }
  }

  lemma ClosedRightOrder(p: Path, t: Tree)
    requires p.InRight? && p.sibling.Fork? && p.sibling.left.Fork?
    ensures Inorder(Plug(p.up, ClosedRight(p, t))) == Inorder(Plug(p, t))
  {
    var w, s := ClosedRight(p, t), p.sibling;
    S.RotationInorder(s.left, s.node, p.color, s.color, s.right, p.node, Black, p.color, t);
    assert Inorder(w) == Inorder(Join(p, t));
    InorderPlug(p.up, w);
    InorderPlug(p.up, Join(p, t));
  }

  lemma ClosedRightRB(p: Path, t: Tree)
    requires Short(p, t) && !IsRed(t) && p.InRight? && p.sibling.Fork? && BlackTop(p)
    requires p.sibling.color == Black && IsRed(p.sibling.left)
    ensures RB(Plug(p.up, ClosedRight(p, t))) && !IsRed(Plug(p.up, ClosedRight(p, t)))
    ensures Inorder(Plug(p.up, ClosedRight(p, t))) == Inorder(Plug(p, t))
  {
    hide Inorder, Plug;
    ShortSibling(p, t);
    ClosedRightOrder(p, t);
    var w := ClosedRight(p, t);
    RBPlug(p.up, w);
    if p.up.Top? { PlugTop(w); } else { BlackTopPlug(p.up, w); }
  }

  /** A sibling rearranged within itself. */
  lemma BesideShort(p: Path, t: Tree, s: Tree)
    requires Short(p, t) && !p.Top? && BlackTop(p)
    requires RB(s) && BlackHeight(s) == BlackHeight(p.sibling) && !IsRed(s) && Inorder(s) == Inorder(p.sibling)
    ensures Short(Beside(p, s), t) && BlackTop(Beside(p, s))
    ensures Inorder(Plug(Beside(p, s), t)) == Inorder(Plug(p, t))
  {
    var q := Beside(p, s);
    assert Inorder(Join(q, t)) == Inorder(Join(p, t));
    InorderPlug(p.up, Join(q, t));
    InorderPlug(p.up, Join(p, t));
  }

  /** A black sibling with black children turns red, and the whole subtree of the
      parent is one black node short. */
  lemma RaisedShort(p: Path, t: Tree)
    requires Short(p, t) && !IsRed(t) && !p.Top? && p.sibling.Fork?
    requires p.sibling.color == Black && !IsRed(p.sibling.left) && !IsRed(p.sibling.right)
    ensures var q := Beside(p, p.sibling.(color := Red));
      && Short(p.up, Join(q, t)) && (BlackTop(p) ==> BlackTop(p.up))
      && Inorder(Plug(p.up, Join(q, t))) == Inorder(Plug(p, t))
  {
    ShortSibling(p, t);
    var q := Beside(p, p.sibling.(color := Red));
    assert Inorder(q.sibling) == Inorder(p.sibling);
    assert Inorder(Join(q, t)) == Inorder(Join(p, t));
    InorderPlug(p.up, Join(q, t));
    InorderPlug(p.up, Join(p, t));
  }

  /** Once the loop stops, painting its node black makes the tree sound. */
  lemma ShortBlackened(p: Path, t: Tree)
    requires Short(p, t) && BlackTop(p) && (p.Top? || IsRed(t))
    ensures var b := if t.Fork? then t.(color := Black) else t;
      RB(Plug(p, b)) && !IsRed(Plug(p, b)) && Inorder(Plug(p, b)) == Inorder(Plug(p, t))
  {
    var b := if t.Fork? then t.(color := Black) else t;
    RBPlug(p, b);
    if !p.Top? { BlackTopPlug(p, b); }
    InorderPlug(p, b);
    InorderPlug(p, t);
    assert Inorder(b) == Inorder(t);
  }
}
