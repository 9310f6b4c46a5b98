/** Whole walks over a file-name tree: what each loop over the cursor functions of
    ffbase/fntree.h visits, and that it visits everything exactly once.
  */
module FnWalk {
  import opened FnTree
  import opened Optional

  ghost function Refs(items: seq<Item>): (r: seq<Ref>)
    ensures |r| == |items|
  { seq(|items|, k requires 0 <= k < |items| => (items[k].b, items[k].i)) }

  lemma RefsNext(done: seq<Item>, x: Item, rest: seq<Item>)
    ensures Refs(done + [x]) == Refs(done) + [(x.b, x.i)]
    ensures done + ([x] + rest) == (done + [x]) + rest
  {}

  lemma NoRefs()
    ensures Refs([]) == []
  {}

  /** A directory whose entries are more than 64 levels deep, for which the stack has no
      place. */
  ghost predicate TooDeep(x: Item) { |x.path| > LEVELS && x.i < |x.b.entries| && Kids(x.b, x.i).Some? }

  /** How far a walk gets that cannot go on after a directory that is too deep. */
  ghost function Reach(items: seq<Item>): (n: nat)
    ensures n <= |items|
  { if items == [] then 0 else if TooDeep(items[0]) then 1 else 1 + Reach(items[1..]) }

  lemma ReachNext(x: Item, rest: seq<Item>)
    ensures Reach([x] + rest) == if TooDeep(x) then 1 else 1 + Reach(rest)
  {
    hide TooDeep;
    assert ([x] + rest)[1..] == rest;
  }

  /** The walk visits everything if and only if no directory but the last entry is too deep. */
  lemma {:induction false} ReachAll(items: seq<Item>)
    ensures Reach(items) == |items| <==> forall k :: 0 <= k < |items| - 1 ==> !TooDeep(items[k])
  {
    hide TooDeep;
    if |items| <= 1 {
    } else {
      var rest := items[1..];
      ReachAll(rest);
      if forall k :: 0 <= k < |items| - 1 ==> !TooDeep(items[k]) {
        forall k | 0 <= k < |rest| - 1 ensures !TooDeep(rest[k]) { assert rest[k] == items[k + 1]; }
      } else if !TooDeep(items[0]) {
        var k :| 0 <= k < |items| - 1 && TooDeep(items[k]);
        assert rest[k - 1] == items[k];
      }
    }
  }

  /** No directory is too deep if and only if the blocks are nested at most 64 levels. */
  lemma {:induction false} DeepNest(b: Block, i: nat, path: seq<Name>)
    requires i <= |b.entries|
    ensures (forall x :: x in Pre(b, i, path) ==> !TooDeep(x)) <==> Nest(b, i) == 0 || |path| + Nest(b, i) <= 64
    decreases b, |b.entries| - i
  {
    hide TooDeep, Kids;
    if i == |b.entries| {
    } else {
      var x, k := Item(path + [b.entries[i].name], b, i), Kids(b, i);
      var kids, rest := PreKids(b, i, path), Pre(b, i + 1, path);
      DeepNest(b, i + 1, path);
      DeepItem(x);
      PreNext(b, i, path);
      assert Pre(b, i, path) == [x] + kids + rest;
      InAny(x, kids, rest);
      if k.Some? {
        DeepNest(k.value, 0, x.path);
      }
    }
  }

  lemma DeepItem(x: Item)
    requires x.i < |x.b.entries|
    ensures TooDeep(x) <==> |x.path| > LEVELS && Kids(x.b, x.i).Some?
  {}

  lemma InAny(x: Item, a: seq<Item>, b: seq<Item>)
    ensures forall y :: y in [x] + a + b <==> y == x || y in a || y in b
  {}

  /** The loop over `fntree_cur_next_r`: it visits the entries in pre-order, up to the first
      directory that is too deep; so all of them on trees nested at most 64 levels. */
  method WalkTree(root: Block) returns (seen: seq<Ref>)
    ensures var all := Pre(root, 0, []); seen == Refs(all[..Reach(all)])
    ensures Nest(root, 0) <= 64 ==> seen == Refs(Pre(root, 0, []))
  {
    hide Linked, Nest, Kids, Pre, Left, Todo, Refs, Entered, Reach, TooDeep;
    var c := new Cursor();
    ghost var all, done := Pre(root, 0, []), [];
    seen := [];
    Started(c, root);
    NoRefs();
    WholeReach(root);
    assert [] + all == all;
    var more := true;
    while more
      invariant c.Valid() && fresh(c) && fresh(c.blockStk) && fresh(c.entStk) && !c.curblock.Gone?
      invariant seen == Refs(done)
      invariant more ==> Linked(c.Onward(root)) && all == done + Todo(c.Onward(root))
      invariant more && !c.Full(root) ==> Reach(all) == |done| + Reach(Todo(c.Onward(root)))
      invariant !more || c.Full(root) ==> Reach(all) == |done|
      invariant !more ==> done <= all
      decreases |all| - |done| + if more then 1 else 0
    {
      ghost var s := c.Onward(root);
      LeftTodo(s);
      LeftEnd(s);
      ghost var full := c.Full(root);
      var e, dir := c.NextR(root);
      if e.None? {
        more := false;
      } else {
        ghost var t := Left(s);
        assert c.At() == t;
        EnteredTodo(t);
        c.OnwardEntered(root);
        RefsNext(done, ItemAt(t), Todo(Entered(t)));
        ReachNext(ItemAt(t), Todo(Entered(t)));
        AtItem(c, t, root);
        seen := seen + [(dir, e.value)];
        done := done + [ItemAt(t)];
      }
    }
    assert all[..Reach(all)] == done;
  }

  /** On a tree nested at most 64 levels the walk reaches the end. */
  lemma WholeReach(root: Block)
    ensures var all := Pre(root, 0, []); Nest(root, 0) <= LEVELS ==> Reach(all) == |all| && all[..Reach(all)] == all
    ensures Reach([]) == 0
  {
    hide Nest, Pre, Reach, TooDeep;
    ReachNone();
    DeepNest(root, 0, []);
    ReachAll(Pre(root, 0, []));
  }

  lemma ReachNone()
    ensures Reach([]) == 0
  {}

  lemma Started(c: Cursor, root: Block)
    requires c.Valid() && c.cur == None && c.curblock == NoBlock && c.depth == 0
    ensures c.Ahead(root) == c.Onward(root) == [Frame(root, 0)] && Linked([Frame(root, 0)]) && !c.Full(root)
    ensures Todo([Frame(root, 0)]) == Pre(root, 0, [])
    ensures Listing([Frame(root, 0)]) == Entries(root, 0, []) + Subs(root, 0, [])
    ensures ListCount([Frame(root, 0)]) == ListedOf(root)
    ensures Rewound([Frame(root, 0)]) == [Frame(root, 0)] && (ScanFits([Frame(root, 0)]) <==> Nest(root, 0) <= LEVELS)
    ensures Leaving([Frame(root, 0)]) == Blocks(root) && Freeable([Frame(root, 0)]) == FreedOf(root)
  {
    var s := [Frame(root, 0)];
    assert c.Stack() == [];
    assert c.Ahead(root) == s;
    assert Rewound(s) == s;
  }

  lemma StartedList(c: Cursor, root: Block)
    requires c.Valid() && c.cur == None && c.curblock == NoBlock && c.depth == 0
    ensures c.Walking(root) && c.Unlisted(root) == ByDirectory(root) && c.Room(root) == ListedOf(root)
    ensures c.Clear(root) <==> Nest(root, 0) <= LEVELS
  {
    hide Linked, Nest, Listing, ScanFits, Rewound, ListCount, ListedOf;
    Started(c, root);
  }

  lemma LeftEnd(s: seq<Frame>)
    requires Linked(s)
    ensures Exhausted(Left(s)) ==> Todo(Left(s)) == []
  {
    if Exhausted(Left(s)) { TodoEmpty(Left(s)); }
  }

  lemma AtItem(c: Cursor, s: seq<Frame>, root: Block)
    requires c.Valid() && c.curblock.In? && c.cur.Some? && Linked(s) && !Exhausted(s) && c.At() == s
    ensures ItemAt(s).b == c.curblock.b && ItemAt(s).i == c.cur.value
    ensures TooDeep(ItemAt(s)) <==> c.Full(root)
  {
    hide Linked, Nest, Kids, PathOf;
    LinkedParts(s);
    PathLength(s);
    assert Top(c.At()) == Frame(c.curblock.b, c.cur.value);
  }

  /** Entries directory by directory. */
  ghost function ByDirectory(b: Block): seq<Item> { Entries(b, 0, []) + Subs(b, 0, []) }

  /** How many entries the walk by directories lists. */
  ghost function ListedOf(root: Block): nat { |root.entries| + ListCountIn(root, 0, 0) }

  /** The loop over `fntree_cur_next_r_ctx`.  Exactly on trees nested deeper than 64 levels
      it comes to a directory for which the stack has no place, after so many entries. */
  method WalkDirectories(root: Block) returns (seen: seq<Ref>, full: bool)
    ensures full <==> Nest(root, 0) > 64
    ensures ListedOf(root) <= |ByDirectory(root)| && seen == Refs(ByDirectory(root)[..ListedOf(root)])
    ensures !full ==> seen == Refs(ByDirectory(root))
  {
    hide Nest, ByDirectory, Refs, ListedOf, Cursor.Walking, Cursor.Unlisted, Cursor.Room, Cursor.Clear;
    var c := new Cursor();
    ghost var all, done := ByDirectory(root), [];
    seen, full := [], false;
    StartedList(c, root);
    NoRefs();
    assert [] + all == all;
    var more := true;
    while more
      invariant fresh(c) && fresh(c.blockStk) && fresh(c.entStk)
      invariant seen == Refs(done) && done <= all
      invariant more ==> !full && c.Walking(root) && all == done + c.Unlisted(root)
      invariant ListedOf(root) == |done| + if more then c.Room(root) else 0
      invariant more ==> (c.Clear(root) <==> Nest(root, 0) <= LEVELS)
      invariant !more ==> (full <==> Nest(root, 0) > LEVELS) && (!full ==> all == done)
      decreases |all| - |done| + if more then 1 else 0
    {
      ghost var todo := c.Unlisted(root);
      var e, dir;
      e, dir, full := c.NextCtx(root);
      if e.None? {
        assert todo == [] ==> done + todo == done;
        more := false;
      } else {
        assert todo == [todo[0]] + todo[1..];
        RefsNext(done, todo[0], todo[1..]);
        seen := seen + [(dir, e.value)];
        done := done + [todo[0]];
      }
    }
    assert all[..ListedOf(root)] == done;
  }

  /** How many blocks of a tree the freeing walk leaves. */
  ghost function FreedOf(root: Block): nat {
    FreeableIn(root, 0, 0) + if Nest(root, 0) > LEVELS then 0 else 1
  }

  lemma {:induction false} FreeableBound(b: Block, i: nat, depth: nat)
    requires i <= |b.entries|
    ensures FreeableIn(b, i, depth) <= |Inner(b, i)|
    ensures Nest(b, i) + depth <= LEVELS ==> FreeableIn(b, i, depth) == |Inner(b, i)|
    decreases b, |b.entries| - i
  {
    hide Kids;
    if i == |b.entries| {
    } else {
      var k := Kids(b, i);
      FreeableBound(b, i + 1, depth);
      if k.Some? {
        FreeableBound(k.value, 0, depth + 1);
      }
    }
  }

  /** All blocks are freed if and only if they are nested at most 64 levels. */
  lemma FreedAll(root: Block)
    ensures FreedOf(root) <= |Blocks(root)|
    ensures FreedOf(root) == |Blocks(root)| <==> Nest(root, 0) <= 64
  {
    FreeableBound(root, 0, 0);
  }

  /** `fntree_free_all`: no block is looked into after it is freed, which the
      precondition of `NextPost` checks; that takes blocks at different addresses. */
  method FreeAll(root: Option<Block>) returns (freed: seq<Block>)
    requires root.Some? ==> Distinct(Blocks(root.value))
    ensures root.None? ==> freed == []
    ensures root.Some? ==>
      FreedOf(root.value) <= |Blocks(root.value)| && freed == Blocks(root.value)[..FreedOf(root.value)]
    ensures root.Some? ==> (freed == Blocks(root.value) <==> Nest(root.value, 0) <= 64)
  {
    hide Linked, Nest, Kids, Inner, Blocks, Leaving, Freeable, FreedOf, Distinct, Alive;
    freed := [];
    if root.None? {
      return;
    }
    var b := root.value;
    var c := new Cursor();
    ghost var all := Blocks(b);
    Started(c, b);
    FreedAll(b);
    assert [] + all == all;
    while true
      invariant c.Valid() && fresh(c) && fresh(c.blockStk) && fresh(c.entStk) && c.Sound(b)
      invariant all == freed + c.Doomed(b) && FreedOf(b) == |freed| + c.Coming(b)
      decreases |c.Doomed(b)|
    {
      ghost var todo := c.Doomed(b);
      NotFreed(freed, todo);
      var r := c.NextPost(b, set x | x in freed);
      if r.None? {
        PrefixOf(freed, todo);
        return;
      }
      NextFreed(freed, todo);
      freed := freed + [r.value];
    }
  }

  lemma PrefixOf(freed: seq<Block>, todo: seq<Block>)
    ensures (freed + todo)[..|freed|] == freed && (|freed| == |freed + todo| ==> freed + todo == freed)
  {}

  lemma NextFreed(freed: seq<Block>, todo: seq<Block>)
    requires todo != []
    ensures freed + todo == (freed + [todo[0]]) + todo[1..]
  {}

  ghost predicate Distinct(s: seq<Block>) { forall i, j :: 0 <= i < j < |s| ==> s[i] != s[j] }

  lemma NotFreed(freed: seq<Block>, todo: seq<Block>)
    requires Distinct(freed + todo)
    ensures Alive(todo, set x | x in freed)
  {
    var s := freed + todo;
    forall x | x in todo ensures x !in (set y | y in freed) {
      var j :| 0 <= j < |todo| && todo[j] == x;
      assert s[|freed| + j] == x;
      forall i | 0 <= i < |freed| ensures freed[i] != x { assert s[i] == freed[i]; }
    }
  }

  // ---------- every block after those inside of it ----------

  /** In the order of freeing, a block comes right after all the blocks inside of it. */
  lemma {:induction false} FreedAfterInside(b: Block, i: nat, k: nat)
    requires i <= |b.entries| && k < |Inner(b, i)|
    ensures var x, n := Inner(b, i)[k], |Inner(Inner(b, i)[k], 0)|;
      n <= k && Inner(b, i)[k - n..k] == Inner(x, 0)
    decreases b, |b.entries| - i
  {
    hide Kids;
    var kid := Kids(b, i);
    var head := if kid.None? then [] else Inner(kid.value, 0) + [kid.value];
    var rest := Inner(b, i + 1);
    SliceRight(head, rest);
    if k >= |head| {
      FreedAfterInside(b, i + 1, k - |head|);
    } else {
      SliceLeft(head, rest);
      SliceLeft(Inner(kid.value, 0), [kid.value]);
      if k < |head| - 1 { FreedAfterInside(kid.value, 0, k); } else { WholeSlice(Inner(kid.value, 0)); }
    }
  }

  lemma SliceLeft(a: seq<Block>, b: seq<Block>)
    ensures forall x, y :: 0 <= x <= y <= |a| ==> (a + b)[x..y] == a[x..y]
    ensures forall x :: 0 <= x < |a| ==> (a + b)[x] == a[x]
  {}

  lemma SliceRight(a: seq<Block>, b: seq<Block>)
    ensures forall x, y :: |a| <= x <= y <= |a| + |b| ==> (a + b)[x..y] == b[x - |a|..y - |a|]
    ensures forall x :: |a| <= x < |a| + |b| ==> (a + b)[x] == b[x - |a|]
  {}

  lemma WholeSlice(a: seq<Block>)
    ensures a[0..|a|] == a
  {}

  // ---------- pre-order ----------

  /** What is inside of the directory of an entry. */
  ghost function InsideOf(x: Item): seq<Item>
    requires x.i < |x.b.entries|
  { if Kids(x.b, x.i).None? then [] else Pre(Kids(x.b, x.i).value, 0, x.path) }

  /** The k-th entry is followed by just what is inside it, that by the next entry of the
      same block; its path ends in its name. */
  ghost predicate InOrder(items: seq<Item>, k: nat)
    requires k < |items|
  {
    var x := items[k];
    && x.i < |x.b.entries| && x.path != [] && x.path[|x.path| - 1] == x.b.entries[x.i].name
    && var n := k + 1 + |InsideOf(x)|;
    && n <= |items| && items[k + 1..n] == InsideOf(x)
    && (x.i + 1 < |x.b.entries| ==> n < |items| && items[n].b == x.b && items[n].i == x.i + 1)
  }

  lemma PreHead(b: Block, i: nat, path: seq<Name>)
    requires i <= |b.entries|
    ensures if i == |b.entries| then Pre(b, i, path) == []
            else Pre(b, i, path) != [] && Pre(b, i, path)[0] == Item(path + [b.entries[i].name], b, i)
  {}

  lemma FirstInOrder(x: Item, kids: seq<Item>, rest: seq<Item>)
    requires x.i < |x.b.entries| && x.path != [] && x.path[|x.path| - 1] == x.b.entries[x.i].name
    requires kids == InsideOf(x)
    requires x.i + 1 < |x.b.entries| ==> rest != [] && rest[0].b == x.b && rest[0].i == x.i + 1
    ensures InOrder([x] + kids + rest, 0)
  {
    hide InsideOf, Kids;
    var all := [x] + kids + rest;
    assert all[1..1 + |kids|] == kids;
  }

  lemma OrderIn(a: seq<Item>, items: seq<Item>, c: seq<Item>, k: nat)
    requires k < |items| && InOrder(items, k)
    ensures InOrder(a + items + c, |a| + k)
  {
    hide InsideOf, Kids;
    var all, n := a + items + c, k + 1 + |InsideOf(items[k])|;
    assert all[|a| + k] == items[k];
    assert all[|a| + k + 1..|a| + n] == items[k + 1..n];
    if n < |items| { assert all[|a| + n] == items[n]; }
  }

  /** Pre-order: after an entry what is inside it, then the next entry of its block. */
  lemma {:induction false} PreOrder(b: Block, i: nat, path: seq<Name>, k: nat)
    requires i <= |b.entries| && k < |Pre(b, i, path)|
    ensures InOrder(Pre(b, i, path), k)
    decreases b, |b.entries| - i
  {
    hide Kids, InOrder, Pre;
    PreHead(b, i, path);
    var x := Item(path + [b.entries[i].name], b, i);
    var kids, rest := PreKids(b, i, path), Pre(b, i + 1, path);
    PreNext(b, i, path);
    PreHead(b, i + 1, path);
    if k == 0 {
      FirstInOrder(x, kids, rest);
    } else if k <= |kids| {
      PreOrder(Kids(b, i).value, 0, x.path, k - 1);
      OrderIn([x], kids, rest, k - 1);
    } else {
      PreOrder(b, i + 1, path, k - 1 - |kids|);
      assert rest + [] == rest;
      OrderIn([x] + kids, rest, [], k - 1 - |kids|);
      assert ([x] + kids) + rest + [] == [x] + kids + rest;
    }
  }

  // ---------- every entry exactly once ----------

  /** Both walks visit the same entries the same number of times. */
  lemma SameEntries(b: Block)
    ensures multiset(ByDirectory(b)) == multiset(Pre(b, 0, []))
  {
    SameFrom(b, 0, []);
    assert multiset(ByDirectory(b)) == multiset(Entries(b, 0, [])) + multiset(Subs(b, 0, []));
  }

  lemma {:induction false} SameFrom(b: Block, i: nat, path: seq<Name>)
    requires i <= |b.entries|
    ensures multiset(Pre(b, i, path)) == multiset(Entries(b, i, path)) + multiset(Subs(b, i, path))
    decreases b, |b.entries| - i
  {
    if i == |b.entries| {
    } else {
      SameFrom(b, i + 1, path);
      var k := Kids(b, i);
      if k.Some? {
        SameFrom(k.value, 0, path + [b.entries[i].name]);
      }
      assert multiset(PreKids(b, i, path)) == multiset(Sub(b, i, path));
    }
  }

  /** The entries visited from i on are those of b and of the blocks inside. */
  lemma {:induction false} PreVisits(b: Block, i: nat, path: seq<Name>, x: Block, j: nat)
    requires i <= |b.entries|
    ensures (x, j) in Refs(Pre(b, i, path)) <==>
      j < |x.entries| && ((x == b && i <= j) || x in Inner(b, i))
    decreases b, |b.entries| - i
  {
    if i == |b.entries| {
    } else {
      PreVisits(b, i + 1, path, x, j);
      var k := Kids(b, i);
      var head := PreKids(b, i, path);
      if k.Some? { PreVisits(k.value, 0, path + [b.entries[i].name], x, j); }
      RefsJoin([Item(path + [b.entries[i].name], b, i)] + head, Pre(b, i + 1, path));
      RefsJoin([Item(path + [b.entries[i].name], b, i)], head);
      assert Refs([Item(path + [b.entries[i].name], b, i)]) == [(b, i)];
    }
  }

  lemma RefsJoin(a: seq<Item>, b: seq<Item>)
    ensures Refs(a + b) == Refs(a) + Refs(b)
  {}

  /** Of blocks at different addresses no entry is visited twice. */
  lemma {:induction false} PreOnce(b: Block, i: nat, path: seq<Name>)
    requires i <= |b.entries| && Distinct(Inner(b, i) + [b])
    ensures Once(Refs(Pre(b, i, path)))
    decreases b, |b.entries| - i
  {
    if i == |b.entries| {
    } else {
      var k := Kids(b, i);
      var inner := path + [b.entries[i].name];
      var me, head, rest := [(b, i)], Refs(PreKids(b, i, path)), Refs(Pre(b, i + 1, path));
      var hb := if k.None? then [] else Inner(k.value, 0) + [k.value];
      DistinctParts(hb, Inner(b, i + 1), b);
      PreOnce(b, i + 1, path);
      if k.Some? { PreOnce(k.value, 0, inner); }
      forall r: Ref | r in head ensures r !in rest && r !in me {
        PreVisits(k.value, 0, inner, r.0, r.1);
        PreVisits(b, i + 1, path, r.0, r.1);
        assert r.0 in hb;
      }
      PreVisits(b, i + 1, path, b, i);
      RefsJoin([Item(inner, b, i)] + PreKids(b, i, path), Pre(b, i + 1, path));
      RefsJoin([Item(inner, b, i)], PreKids(b, i, path));
      assert Refs([Item(inner, b, i)]) == me;
      OnceJoin(me, head);
      OnceJoin(me + head, rest);
    }
  }

  ghost predicate Once(s: seq<Ref>) { forall i, j :: 0 <= i < j < |s| ==> s[i] != s[j] }

  lemma OnceJoin(a: seq<Ref>, b: seq<Ref>)
    requires Once(a) && Once(b) && forall r :: r in b ==> r !in a
    ensures Once(a + b)
  {
    var s := a + b;
    forall i, j | 0 <= i < j < |s| ensures s[i] != s[j] {
      if i < |a| <= j { assert s[i] in a && s[j] == b[j - |a|]; }
    }
  }

  lemma DistinctParts(a: seq<Block>, c: seq<Block>, b: Block)
    requires Distinct((a + c) + [b])
    ensures Distinct(a) && Distinct(c + [b])
    ensures forall x :: x in a ==> x !in c && x != b
    ensures b !in c
  {
    var s := (a + c) + [b];
    forall i, j | 0 <= i < j < |a| ensures a[i] != a[j] { assert s[i] == a[i] && s[j] == a[j]; }
    var t := c + [b];
    forall i, j | 0 <= i < j < |t| ensures t[i] != t[j] { assert s[|a| + i] == t[i] && s[|a| + j] == t[j]; }
    forall x | x in a ensures x !in c && x != b {
      var i :| 0 <= i < |a| && a[i] == x;
      forall j | 0 <= j < |c| ensures c[j] != x { assert s[i] == x && s[|a| + j] == c[j]; }
      assert s[i] == x && s[|s| - 1] == b;
    }
    forall j | 0 <= j < |c| ensures c[j] != b { assert s[|a| + j] == c[j] && s[|s| - 1] == b; }
  }

  /** The pre-order walk visits each entry of each block exactly once. */
  lemma EachEntryOnce(root: Block)
    requires Distinct(Blocks(root))
    ensures Once(Refs(Pre(root, 0, [])))
    ensures forall r: Ref :: r in Refs(Pre(root, 0, [])) <==> r.0 in Blocks(root) && r.1 < |r.0.entries|
  {
    PreOnce(root, 0, []);
    forall r: Ref ensures r in Refs(Pre(root, 0, [])) <==> r.0 in Blocks(root) && r.1 < |r.0.entries| {
      PreVisits(root, 0, [], r.0, r.1);
    }
  }
}
