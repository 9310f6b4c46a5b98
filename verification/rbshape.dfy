/** Red-black tree shapes: the pure half of the model of ffbase/rbtree.h.

    A `Tree` says which node sits where and which colour it has; a `Path` is the
    rest of the tree seen from one position in it (the frames from that position
    up to the root).  `Plug(p, t)` puts subtree `t` back into its place.  The
    heap half (rbtree.dfy) keeps the C structure's pointers equal to a pair
    (path, subtree), so all reasoning about order, colours and black heights is
    done here on values.
  */
module RbShape {
  import opened Powers

  datatype Color = Black | Red

  /** `struct ffrbt_node`.  The key is chosen by the user before the node is
      inserted and no tree operation writes it. */
  class Node {
    var left: Node?
    var right: Node?
    var parent: Node?
    var color: Color
    const key: nat

    constructor (key: nat)
      ensures this.key == key && color == Black
    {
      this.key := key;
      left, right, parent, color := null, null, null, Black;
    }
  }

  datatype Tree = Leaf | Fork(left: Tree, node: Node, color: Color, right: Tree)

  /** `InLeft(up, n, c, r)`: the position is the left child of `n`, whose right
      subtree is `r`; `InRight` is the mirror image. */
  datatype Path =
    | Top
    | InLeft(up: Path, node: Node, color: Color, sibling: Tree)
    | InRight(up: Path, node: Node, color: Color, sibling: Tree)

  ghost function Nodes(t: Tree): set<Node> {
    match t
    case Leaf => {}
    case Fork(l, n, _, r) => Nodes(l) + {n} + Nodes(r)
  }

  ghost function PathNodes(p: Path): set<Node> {
    if p.Top? then {} else PathNodes(p.up) + {p.node} + Nodes(p.sibling)
  }

  /** One frame of `p` put around `t`. */
  ghost function Join(p: Path, t: Tree): Tree
    requires !p.Top?
  {
    if p.InLeft? then Fork(t, p.node, p.color, p.sibling)
    else Fork(p.sibling, p.node, p.color, t)
  }

  ghost function Plug(p: Path, t: Tree): Tree
    decreases p
  {
    if p.Top? then t else Plug(p.up, Join(p, t))
  }

  ghost function Append(q: Path, base: Path): Path {
    match q
    case Top => base
    case InLeft(up, n, c, s) => InLeft(Append(up, base), n, c, s)
    case InRight(up, n, c, s) => InRight(Append(up, base), n, c, s)
  }

  ghost function PathLength(p: Path): nat {
    if p.Top? then 0 else 1 + PathLength(p.up)
  }

  lemma {:induction false} PlugAppend(q: Path, base: Path, t: Tree)
    ensures Plug(Append(q, base), t) == Plug(base, Plug(q, t))
    decreases q
  {
    if q.Top? {
    } else {
      PlugAppend(q.up, base, Join(q, t));
    }
  }

  // ---------- no node occurs twice ----------

  ghost predicate Distinct(t: Tree) {
    match t
    case Leaf => true
    case Fork(l, n, _, r) =>
      Distinct(l) && Distinct(r) && n !in Nodes(l) && n !in Nodes(r) && Nodes(l) !! Nodes(r)
  }

  ghost predicate DistinctPath(p: Path) {
    !p.Top? ==>
      && DistinctPath(p.up) && Distinct(p.sibling)
      && p.node !in PathNodes(p.up) && p.node !in Nodes(p.sibling)
      && PathNodes(p.up) !! Nodes(p.sibling)
  }

  lemma {:induction false} NodesPlug(p: Path, t: Tree)
    ensures Nodes(Plug(p, t)) == PathNodes(p) + Nodes(t)
    decreases p
  {
    if p.Top? {
    } else {
      NodesPlug(p.up, Join(p, t));
    }
  }

  /** The root of the whole tree is in the outermost frame. */
  lemma {:induction false} RootInPath(p: Path, t: Tree)
    requires !p.Top?
    ensures Plug(p, t).Fork? && Plug(p, t).node in PathNodes(p)
    decreases p
  {
    if p.up.Top? {
    } else {
      RootInPath(p.up, Join(p, t));
    }
  }

  // ---------- in-order sequence ----------

  ghost function Inorder(t: Tree): seq<Node> {
    match t
    case Leaf => []
    case Fork(l, n, _, r) => Inorder(l) + [n] + Inorder(r)
  }

  /** The nodes that come before the position in in-order, and those after it. */
  ghost function Before(p: Path): seq<Node> {
    match p
    case Top => []
    case InLeft(up, _, _, _) => Before(up)
    case InRight(up, n, _, s) => Before(up) + Inorder(s) + [n]
  }

  ghost function After(p: Path): seq<Node> {
    match p
    case Top => []
    case InLeft(up, n, _, s) => [n] + Inorder(s) + After(up)
    case InRight(up, _, _, _) => After(up)
  }

  lemma {:induction false} InorderPlug(p: Path, t: Tree)
    ensures Inorder(Plug(p, t)) == Before(p) + Inorder(t) + After(p)
    decreases p
  {
    if p.Top? {
      assert [] + Inorder(t) + [] == Inorder(t);
    } else {
      InorderPlug(p.up, Join(p, t));
      if p.InLeft? {
        Regroup(Before(p.up), Inorder(t), [p.node] + Inorder(p.sibling), After(p.up));
        assert Inorder(Join(p, t)) == Inorder(t) + ([p.node] + Inorder(p.sibling));
      } else {
        Regroup(Before(p.up), Inorder(p.sibling) + [p.node], Inorder(t), After(p.up));
        assert Before(p) == Before(p.up) + (Inorder(p.sibling) + [p.node]);
      }
    }
  }

  lemma Regroup(a: seq<Node>, b: seq<Node>, c: seq<Node>, d: seq<Node>)
    ensures a + (b + c) + d == (a + b) + c + d == a + b + (c + d)
  {}

  ghost function Elems(s: seq<Node>): set<Node> { set n | n in s }

  lemma {:induction false} InorderNodes(t: Tree)
    ensures Elems(Inorder(t)) == Nodes(t)
  {
    if t.Leaf? {
    } else {
      InorderNodes(t.left);
      InorderNodes(t.right);
      assert Elems(Inorder(t)) == Elems(Inorder(t.left)) + {t.node} + Elems(Inorder(t.right));
    }
  }

  lemma {:induction false} BeforeAfterNodes(p: Path)
    ensures Elems(Before(p)) + Elems(After(p)) == PathNodes(p)
  {
    if !p.Top? {
      BeforeAfterNodes(p.up);
      InorderNodes(p.sibling);
      if p.InLeft? {
        assert Elems(After(p)) == {p.node} + Elems(Inorder(p.sibling)) + Elems(After(p.up));
      } else {
        assert Elems(Before(p)) == Elems(Before(p.up)) + Elems(Inorder(p.sibling)) + {p.node};
      }
    }
  }

  lemma InorderMember(t: Tree, i: nat)
    requires i < |Inorder(t)|
    ensures Inorder(t)[i] in Nodes(t)
  {
    InorderNodes(t);
    assert Inorder(t)[i] in Elems(Inorder(t));
  }

  lemma {:induction false} InorderDistinct(t: Tree)
    requires Distinct(t)
    ensures forall i, j :: 0 <= i < j < |Inorder(t)| ==> Inorder(t)[i] != Inorder(t)[j]
  {
    if t.Leaf? {
    } else {
      InorderDistinct(t.left);
      InorderDistinct(t.right);
      var s, a, b := Inorder(t), Inorder(t.left), Inorder(t.right);
      var m := |a|;
      forall i, j | 0 <= i < j < |s| ensures s[i] != s[j] {
        if i < m { assert s[i] == a[i]; InorderMember(t.left, i); }
        if j < m { assert s[j] == a[j]; }
        if m < j { assert s[j] == b[j - m - 1]; InorderMember(t.right, j - m - 1); }
        if m < i { assert s[i] == b[i - m - 1]; }
      }
    }
  }

  // ---------- key order ----------

  ghost predicate Sorted(s: seq<Node>) {
    forall i, j :: 0 <= i < j < |s| ==> s[i].key <= s[j].key
  }

  ghost predicate AtMost(s: seq<Node>, k: nat) { forall i :: 0 <= i < |s| ==> s[i].key <= k }

  ghost predicate Above(s: seq<Node>, k: nat) { forall i :: 0 <= i < |s| ==> k < s[i].key }

  ghost predicate Below(s: seq<Node>, k: nat) { forall i :: 0 <= i < |s| ==> s[i].key < k }

  ghost predicate HasKey(s: seq<Node>, k: nat) { exists i :: 0 <= i < |s| && s[i].key == k }

  /** Where a search for `k` may have got to: only smaller keys come before the
      position, only greater ones after it. */
  ghost predicate Narrowed(p: Path, k: nat) { Below(Before(p), k) && Above(After(p), k) }

  /** One round of a search: it is over, or goes on in one subtree. */
  lemma SearchStep(p: Path, t: Tree, k: nat)
    requires t.Fork? && Sorted(Inorder(Plug(p, t))) && Narrowed(p, k)
    ensures var l, r := InLeft(p, t.node, t.color, t.right), InRight(p, t.node, t.color, t.left);
      && Plug(l, t.left) == Plug(p, t) && Plug(r, t.right) == Plug(p, t)
      && (k < t.node.key ==> Narrowed(l, k)) && (t.node.key < k ==> Narrowed(r, k))
    ensures k == t.node.key ==> HasKey(Inorder(Plug(p, t)), k)
    ensures Height(t.left) < Height(t) && Height(t.right) < Height(t)
  {
    var l, r := InLeft(p, t.node, t.color, t.right), InRight(p, t.node, t.color, t.left);
    var s, x, y := Inorder(Plug(p, t)), Inorder(t.left), Inorder(t.right);
    assert Before(r) == Before(p) + x + [t.node] && After(l) == [t.node] + y + After(p);
    assert Inorder(t) == x + [t.node] + y;
    InorderPlug(p, t);
    Around(s, Before(p), x, t.node, y, After(p), k);
  }

  /** What the key of `n`, somewhere in a sorted sequence, says about the rest of it. */
  lemma Around(s: seq<Node>, b: seq<Node>, x: seq<Node>, n: Node, y: seq<Node>, a: seq<Node>, k: nat)
    requires s == b + (x + [n] + y) + a && Sorted(s) && Below(b, k) && Above(a, k)
    ensures k < n.key ==> Above([n] + y + a, k)
    ensures n.key < k ==> Below(b + x + [n], k)
    ensures k == n.key ==> HasKey(s, k)
  {
    var i := |b| + |x|;
    assert s[i] == n;
    assert forall j :: 0 <= j < |y| ==> y[j] == s[i + 1 + j];
    assert forall j :: 0 <= j < |x| ==> x[j] == s[|b| + j];
  }

  lemma SearchEnd(p: Path, k: nat)
    requires Narrowed(p, k)
    ensures !HasKey(Inorder(Plug(p, Leaf)), k)
  {
    InorderPlug(p, Leaf);
    assert Before(p) + [] + After(p) == Before(p) + After(p);
  }

  lemma SortedPart(p: Path, t: Tree)
    requires Sorted(Inorder(Plug(p, t)))
    ensures Sorted(Inorder(t))
  {
    hide Sorted;
    InorderPlug(p, t);
    SortedMiddle(Before(p), Inorder(t), After(p));
  }

  lemma SortedMiddle(a: seq<Node>, x: seq<Node>, b: seq<Node>)
    requires Sorted(a + x + b)
    ensures Sorted(x)
  {
    var s := a + x + b;
    forall i, j | 0 <= i < j < |x| ensures x[i].key <= x[j].key {
      assert s[|a| + i] == x[i] && s[|a| + j] == x[j];
    }
  }

  lemma SearchStart(k: nat)
    ensures Narrowed(Top, k)
  {}

  /** In a tree without duplicates a node is followed by what comes first after it:
      in its right subtree, or else after its whole subtree. */
  lemma NextInOrder(p: Path, t: Tree, i: nat)
    requires t.Fork? && Distinct(Plug(p, t)) && i < |Inorder(Plug(p, t))| && Inorder(Plug(p, t))[i] == t.node
    ensures var s, rest := Inorder(Plug(p, t)), Inorder(t.right) + After(p);
      if i + 1 < |s| then rest != [] && s[i + 1] == rest[0] else rest == []
  {
    hide Plug, Distinct, Before, After;
    InorderPlug(p, t);
    InorderDistinct(Plug(p, t));
    var a, rest := Before(p) + Inorder(t.left), Inorder(t.right) + After(p);
    Regroup(Before(p), Inorder(t.left), [t.node] + Inorder(t.right), After(p));
    assert Inorder(t) == Inorder(t.left) + ([t.node] + Inorder(t.right));
    hide Inorder;
    var s := Inorder(Plug(p, t));
    assert s == a + ([t.node] + rest);
    assert s[|a|] == t.node;
    assert i == |a|;
  }

  /** Searching goes on in one subtree: everything on the other side is settled. */
  lemma Descend(p: Path, t: Tree, k: nat)
    requires t.Fork? && Sorted(Before(p) + Inorder(t) + After(p))
    requires AtMost(Before(p), k) && Above(After(p), k)
    ensures k < t.node.key ==> Above(After(InLeft(p, t.node, t.color, t.right)), k)
    ensures t.node.key <= k ==> AtMost(Before(InRight(p, t.node, t.color, t.left)), k)
  {
    var s, b, l := Before(p) + Inorder(t) + After(p), Before(p), Inorder(t.left);
    assert s[|b| + |l|] == t.node;
    var right := After(InLeft(p, t.node, t.color, t.right));
    assert forall i :: 0 <= i < 1 + |Inorder(t.right)| ==> right[i] == s[|b| + |l| + i];
    assert forall i :: 0 <= i < |l| ==> l[i] == s[|b| + i];
  }

  /** `n` placed after every node whose key is at most its own. */
  ghost function Placed(s: seq<Node>, n: Node): seq<Node> {
    if s == [] || n.key < s[0].key then [n] + s else [s[0]] + Placed(s[1..], n)
  }

  lemma {:induction false} PlacedBetween(a: seq<Node>, b: seq<Node>, n: Node)
    requires AtMost(a, n.key) && Above(b, n.key)
    ensures Placed(a + b, n) == a + [n] + b
  {
    if a == [] {
      assert a + b == b;
    } else {
      assert (a + b)[0] == a[0] && (a + b)[1..] == a[1..] + b;
      PlacedBetween(a[1..], b, n);
      assert [a[0]] + (a[1..] + [n] + b) == a + [n] + b;
    }
  }

  /** Placing a node keeps a sorted sequence sorted; it adds exactly that node,
      behind all smaller or equal keys and before all greater ones. */
  lemma {:induction false} PlacedSorted(s: seq<Node>, n: Node) returns (i: nat)
    requires Sorted(s)
    ensures i <= |s| && Placed(s, n) == s[..i] + [n] + s[i..]
    ensures (forall j :: 0 <= j < i ==> s[j].key <= n.key) && forall j :: i <= j < |s| ==> n.key < s[j].key
    ensures Sorted(Placed(s, n))
  {
    if s == [] || n.key < s[0].key {
      i := 0;
    } else {
      var j := PlacedSorted(s[1..], n);
      i := j + 1;
      PlacedNext(s, n, j);
      hide Placed, Sorted, AtMost, Above;
      assert s[..i] + s[i..] == s;
      SortedAround(s[..i], n, s[i..]);
    }
  }

  lemma PlacedNext(s: seq<Node>, n: Node, j: nat)
    requires s != [] && s[0].key <= n.key && j < |s|
    requires AtMost(s[1..][..j], n.key) && Above(s[1..][j..], n.key)
    ensures s[1..][j..] == s[j + 1..] && AtMost(s[..j + 1], n.key) && Above(s[j + 1..], n.key)
    ensures s[..j + 1] + [n] + s[j + 1..] == [s[0]] + (s[1..][..j] + [n] + s[1..][j..])
  {
    assert s[..j + 1] == [s[0]] + s[1..][..j];
  }

  lemma SortedAround(a: seq<Node>, n: Node, b: seq<Node>)
    requires Sorted(a + b) && AtMost(a, n.key) && Above(b, n.key)
    ensures Sorted(a + [n] + b)
  {
    var s, u := a + b, a + [n] + b;
    forall i, j | 0 <= i < j < |u| ensures u[i].key <= u[j].key {
      if j < |a| { assert u[i] == s[i] && u[j] == s[j]; }
      if i > |a| { assert u[i] == s[i - 1] && u[j] == s[j - 1]; }
    }
  }

  /** `s` without the first occurrence of `n`. */
  ghost function Without(s: seq<Node>, n: Node): seq<Node> {
    if s == [] then [] else if s[0] == n then s[1..] else [s[0]] + Without(s[1..], n)
  }

  lemma {:induction false} WithoutMiddle(a: seq<Node>, n: Node, b: seq<Node>)
    requires n !in a
    ensures Without(a + [n] + b, n) == a + b
  {
    if a == [] {
      assert ([] + [n] + b)[1..] == b;
    } else {
      var s := a + [n] + b;
      assert s[0] == a[0] && s[1..] == a[1..] + [n] + b;
      WithoutMiddle(a[1..], n, b);
      assert [a[0]] + (a[1..] + b) == a + b;
    }
  }

  lemma {:induction false} WithoutSorted(s: seq<Node>, n: Node)
    requires Sorted(s)
    ensures Sorted(Without(s, n))
    ensures |Without(s, n)| == |s| - (if n in s then 1 else 0)
  {
    if s == [] || s[0] == n {
    } else {
      WithoutSorted(s[1..], n);
      WithoutAtLeast(s[1..], n, s[0].key);
    }
  }

  lemma {:induction false} WithoutAtLeast(s: seq<Node>, n: Node, k: nat)
    requires forall i :: 0 <= i < |s| ==> k <= s[i].key
    ensures forall i :: 0 <= i < |Without(s, n)| ==> k <= Without(s, n)[i].key
  {
    if s == [] || s[0] == n {
    } else {
      WithoutAtLeast(s[1..], n, k);
    }
  }

  // ---------- colours and black heights ----------

  ghost predicate IsRed(t: Tree) { t.Fork? && t.color == Red }

  ghost function Blacks(c: Color): nat { if c == Black then 1 else 0 }

  /** Black nodes on the way down the left edge; `RB` says every way down has as many. */
  ghost function BlackHeight(t: Tree): nat {
    if t.Leaf? then 0 else BlackHeight(t.left) + Blacks(t.color)
  }

  /** No red node has a red child, and all ways down pass the same number of black nodes. */
  ghost predicate RB(t: Tree) {
    match t
    case Leaf => true
    case Fork(l, _, c, r) =>
      && RB(l) && RB(r) && BlackHeight(l) == BlackHeight(r)
      && (c == Red ==> !IsRed(l) && !IsRed(r))
  }

  /** `p` becomes an `RB` tree when a subtree of black height `h` is plugged in
      whose root is black, or, with `red`, red. */
  ghost predicate PathRB(p: Path, h: nat, red: bool) {
    !p.Top? ==>
      && RB(p.sibling) && BlackHeight(p.sibling) == h
      && (p.color == Red ==> !red && !IsRed(p.sibling))
      && PathRB(p.up, h + Blacks(p.color), p.color == Red)
  }

  lemma {:induction false} RBPlug(p: Path, t: Tree)
    ensures RB(Plug(p, t)) <==> RB(t) && PathRB(p, BlackHeight(t), IsRed(t))
    decreases p
  {
    if p.Top? {
    } else {
      RBPlug(p.up, Join(p, t));
      assert RB(Join(p, t)) && PathRB(p.up, BlackHeight(Join(p, t)), IsRed(Join(p, t)))
        <==> RB(t) && PathRB(p, BlackHeight(t), IsRed(t));
    }
  }

  lemma BlackenedRB(t: Tree)
    requires t.Fork? && RB(t)
    ensures var b := t.(color := Black);
      RB(b) && !IsRed(b) && Inorder(b) == Inorder(t) && Nodes(b) == Nodes(t)
  {}

  /** The frame at the far end of the path, the root of the whole tree, is black. */
  ghost predicate BlackTop(p: Path) {
    !p.Top? ==> if p.up.Top? then p.color == Black else BlackTop(p.up)
  }

  lemma {:induction false} BlackTopPlug(p: Path, t: Tree)
    requires !p.Top?
    ensures BlackTop(p) <==> !IsRed(Plug(p, t))
    decreases p
  {
    if p.up.Top? {
    } else {
      BlackTopPlug(p.up, Join(p, t));
    }
  }

  /** The name of the node in a frame does not matter to the colours. */
  lemma {:induction false} PathRBRename(q: Path, up: Path, m: Node, n: Node, c: Color, s: Tree, h: nat, red: bool)
    requires PathRB(Append(q, InRight(up, m, c, s)), h, red)
    ensures PathRB(Append(q, InRight(up, n, c, s)), h, red)
    decreases q
  {
    if q.Top? {
    } else {
      PathRBRename(q.up, up, m, n, c, s, h + Blacks(q.color), q.color == Red);
    }
  }

  // ---------- height ----------

  ghost function Max(a: nat, b: nat): nat { if a < b then b else a }

  ghost function Height(t: Tree): nat {
    if t.Leaf? then 0 else 1 + Max(Height(t.left), Height(t.right))
  }

  lemma {:induction false} HeightByBlacks(t: Tree)
    requires RB(t)
    ensures Height(t) <= 2 * BlackHeight(t) + (if IsRed(t) then 1 else 0)
    ensures Shifted(BlackHeight(t)) <= |Inorder(t)| + 1
  {
    if t.Leaf? {
    } else {
      HeightByBlacks(t.left);
      HeightByBlacks(t.right);
    }
  }

  /** A red-black tree with a black root and `n` nodes has height at most
      2*log2(n+1), stated without a logarithm. */
  lemma {:induction false} HeightBound(t: Tree)
    requires RB(t) && !IsRed(t)
    ensures Shifted(Height(t)) <= (|Inorder(t)| + 1) * (|Inorder(t)| + 1)
  {
    HeightByBlacks(t);
    var b, n := BlackHeight(t), |Inorder(t)| + 1;
    ShiftedMonotone(Height(t), 2 * b);
    ShiftedSquare(b);
    SquareMonotone(Shifted(b), n);
  }

  lemma {:induction false} PlugHeight(p: Path, t: Tree)
    ensures Height(t) <= Height(Plug(p, t))
  {
    if p.Top? {
    } else {
      PlugHeight(p.up, Join(p, t));
    }
  }

  lemma SquareMonotone(x: nat, n: nat)
    requires x <= n
    ensures x * x <= n * n
  {
    assert x * x <= x * n;
  }
}
