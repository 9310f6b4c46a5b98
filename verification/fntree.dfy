/** The file-name tree of ffbase/fntree.h and the cursors that walk it with an explicit
    stack of 64 levels.

    A cursor is understood as a stack of frames, each a block and the position in it
    where reading goes on.  `Todo` is what is still to be visited in pre-order,
    `Listing` in directory-first order, and `Leaving` the blocks still to be left.  On
    trees nested deeper than the stack each walk stops at some point; `Full`, `ScanFits`
    and `Freeable` say where.
  */
module FnTree {
  import opened Optional

  type Name = seq<nat>

  /** `fntree_entry`, with the block attached to it, and `fntree_block`; `id` stands for
      the address of the block. */
  datatype Entry = Entry(name: Name, children: Option<Block>)
  datatype Block = Block(id: nat, entries: seq<Entry>)

  const LEVELS: nat := 64

  /** What the caller gets of an entry: its block and where it lies in the block. */
  type Ref = (Block, nat)

  function Kids(b: Block, i: nat): (r: Option<Block>)
    requires i < |b.entries|
    ensures r.Some? ==> r.value < b
  {
    var e := b.entries[i];
    assert e in b.entries;
    assert e.children.Some? ==> e.children.value < e.children;
    e.children
  }

  /** How many levels of blocks are nested below the entries from i on. */
  function Nest(b: Block, i: nat): nat
    requires i <= |b.entries|
    decreases b, |b.entries| - i
  {
    if i == |b.entries| then 0 else
    var k := Kids(b, i);
    Max(if k.None? then 0 else 1 + Nest(k.value, 0), Nest(b, i + 1))
  }

  function Max(a: nat, b: nat): nat { if a < b then b else a }

  lemma NestNext(b: Block, i: nat)
    requires i < |b.entries|
    ensures var k := Kids(b, i);
      Nest(b, i) == if k.None? then Nest(b, i + 1) else Max(1 + Nest(k.value, 0), Nest(b, i + 1))
  {}

  // ---------- the stack ----------

  datatype Frame = Frame(b: Block, pos: nat)

  function Top(s: seq<Frame>): Frame
    requires |s| > 0
  { s[|s| - 1] }

  function Below(s: seq<Frame>): seq<Frame>
    requires |s| > 0
  { s[..|s| - 1] }

  /** Every frame but the lowest is the block attached to the entry just passed below it. */
  ghost predicate Linked(s: seq<Frame>)
    decreases |s|
  {
    && |s| > 0
    && Top(s).pos <= |Top(s).b.entries|
    && (|s| > 1 ==>
      && Linked(Below(s))
      && 1 <= Top(Below(s)).pos
      && Kids(Top(Below(s)).b, Top(Below(s)).pos - 1) == Some(Top(s).b))
  }

  predicate Exhausted(s: seq<Frame>)
    requires |s| > 0
  { Top(s).pos == |Top(s).b.entries| }

  /** Leave the blocks that are read to the end, but not the lowest one. */
  ghost function Left(s: seq<Frame>): (r: seq<Frame>)
    requires Linked(s)
    ensures Linked(r) && (|r| > 1 ==> !Exhausted(r))
    decreases |s|
  { if Exhausted(s) && |s| > 1 then Left(Below(s)) else s }

  /** Pass the entry at the top. */
  ghost function Passed(s: seq<Frame>): (r: seq<Frame>)
    requires Linked(s) && !Exhausted(s)
    ensures Linked(r) && r == Below(s) + [Frame(Top(s).b, Top(s).pos + 1)]
    ensures Top(r) == Frame(Top(s).b, Top(s).pos + 1) && Below(r) == Below(s)
  { Below(s) + [Frame(Top(s).b, Top(s).pos + 1)] }

  /** Pass the entry at the top and go into the block attached to it. */
  ghost function Entered(s: seq<Frame>): (r: seq<Frame>)
    requires Linked(s) && !Exhausted(s)
    ensures Linked(r)
    ensures var k := Kids(Top(s).b, Top(s).pos);
      if k.None? then r == Passed(s)
      else r == Passed(s) + [Frame(k.value, 0)] && Top(r) == Frame(k.value, 0) && Below(r) == Passed(s) && |r| > 1
  {
    var t, p := Top(s), Passed(s);
    var k := Kids(t.b, t.pos);
    if k.None? then p else
    var r := p + [Frame(k.value, 0)];
    assert Below(r) == p;
    r
  }

  // ---------- pre-order ----------

  /** An entry with its path of names from the root. */
  datatype Item = Item(path: seq<Name>, b: Block, i: nat)

  /** The entries of b from i on, each directory before what is inside it. */
  ghost function Pre(b: Block, i: nat, path: seq<Name>): seq<Item>
    requires i <= |b.entries|
    decreases b, |b.entries| - i
  {
    if i == |b.entries| then [] else
    [Item(path + [b.entries[i].name], b, i)] + PreKids(b, i, path) + Pre(b, i + 1, path)
  }

  ghost function PreKids(b: Block, i: nat, path: seq<Name>): seq<Item>
    requires i < |b.entries|
    decreases b, |b.entries| - i, 0
  {
    var k := Kids(b, i);
    if k.None? then [] else Pre(k.value, 0, path + [b.entries[i].name])
  }

  /** The path of the directory whose block is at the top. */
  ghost function PathOf(s: seq<Frame>): seq<Name>
    requires Linked(s)
    decreases |s|
  {
    if |s| == 1 then [] else
    var f := Top(Below(s));
    PathOf(Below(s)) + [f.b.entries[f.pos - 1].name]
  }

  lemma {:induction false} PathLength(s: seq<Frame>)
    requires Linked(s)
    ensures |PathOf(s)| == |s| - 1
    decreases |s|
  {
    if |s| == 1 {
    } else {
      PathLength(Below(s));
    }
  }

  /** What is still to be visited. */
  ghost function Todo(s: seq<Frame>): seq<Item>
    requires Linked(s)
    decreases |s|
  {
    var here := Pre(Top(s).b, Top(s).pos, PathOf(s));
    if |s| == 1 then here else here + Todo(Below(s))
  }

  lemma {:induction false} LeftTodo(s: seq<Frame>)
    requires Linked(s)
    ensures Todo(Left(s)) == Todo(s)
    decreases |s|
  {
    if !Exhausted(s) || |s| == 1 {
    } else {
      LeftTodo(Below(s));
    }
  }

  ghost function ItemAt(s: seq<Frame>): Item
    requires Linked(s) && !Exhausted(s)
  { Item(PathOf(s) + [Top(s).b.entries[Top(s).pos].name], Top(s).b, Top(s).pos) }

  /** Passing an entry visits it; what is inside it comes next. */
  lemma EnteredTodo(s: seq<Frame>)
    requires Linked(s) && !Exhausted(s)
    ensures Todo(s) == [ItemAt(s)] + Todo(Entered(s))
  {
    hide Linked, Kids, Nest, Entered, Passed, Todo, PathOf, Pre;
    LinkedParts(s);
    PassedTodo(s);
    var t := Top(s);
    if Kids(t.b, t.pos).Some? {
      EnteredPath(s);
      TodoParts(Entered(s));
    } else {
      assert [] + Todo(Passed(s)) == Todo(Passed(s));
    }
  }

  lemma TodoParts(s: seq<Frame>)
    requires Linked(s)
    ensures |s| > 1 ==> Todo(s) == Pre(Top(s).b, Top(s).pos, PathOf(s)) + Todo(Below(s))
  {}

  lemma EnteredPath(s: seq<Frame>)
    requires Linked(s) && !Exhausted(s) && Kids(Top(s).b, Top(s).pos).Some?
    ensures PathOf(Entered(s)) == PathOf(s) + [Top(s).b.entries[Top(s).pos].name]
  {
    hide Linked, Kids, Nest, Entered, Passed, Todo;
    LinkedParts(s);
    PassedTodo(s);
  }

  lemma PassedTodo(s: seq<Frame>)
    requires Linked(s) && !Exhausted(s)
    ensures PathOf(Passed(s)) == PathOf(s)
    ensures Todo(s) == [ItemAt(s)] + (PreKids(Top(s).b, Top(s).pos, PathOf(s)) + Todo(Passed(s)))
  {
    hide Linked, Kids, Nest, PreKids, Pre, Passed;
    LinkedParts(s);
    var t, path := Top(s), PathOf(s);
    PreNext(t.b, t.pos, path);
    var kids, rest := PreKids(t.b, t.pos, path), Pre(t.b, t.pos + 1, path);
    Attach(ItemAt(s), kids, rest);
    if |s| > 1 {
      Attach(ItemAt(s), kids + rest, Todo(Below(s)));
      Regroup2(kids, rest, Todo(Below(s)));
    }
  }

  lemma PreNext(b: Block, i: nat, path: seq<Name>)
    requires i < |b.entries|
    ensures Pre(b, i, path) == [Item(path + [b.entries[i].name], b, i)] + PreKids(b, i, path) + Pre(b, i + 1, path)
  {}

  lemma Regroup2(a: seq<Item>, b: seq<Item>, c: seq<Item>)
    ensures (a + b) + c == a + (b + c)
  {}

  lemma TodoEmpty(s: seq<Frame>)
    requires Linked(s) && |s| == 1
    ensures Todo(s) == [] <==> Exhausted(s)
  {}

  // ---------- the cursor ----------

  /** `curblock`: NULL, a block, or the mark -1 of the freeing walk. */
  datatype Where = NoBlock | In(b: Block) | Gone

  /** `fntree_cursor` */
  class Cursor {
    var cur: Option<nat>
    var curblock: Where
    const blockStk: array<Block>
    const entStk: array<nat>
    var depth: nat

    ghost predicate Valid()
      reads this`depth
    { blockStk.Length == entStk.Length == LEVELS && depth <= LEVELS }

    /** The saved frames, lowest first. */
    ghost function Stack(): (s: seq<Frame>)
      requires Valid()
      reads this`depth, blockStk, entStk
      ensures |s| == depth
    {
      var d := depth;
      seq(d, k requires 0 <= k < d <= blockStk.Length && d <= entStk.Length reads blockStk, entStk =>
        Frame(blockStk[k], entStk[k] + 1))
    }

    /** The position after the current entry. */
    ghost function NextPos(): nat
      reads this
    { if cur.None? then 0 else cur.value + 1 }

    constructor ()
      ensures Valid() && fresh(blockStk) && fresh(entStk)
      ensures cur == None && curblock == NoBlock && depth == 0
    {
      cur, curblock, depth := None, NoBlock, 0;
      blockStk := new Block[LEVELS];
      entStk := new nat[LEVELS];
    }

    /** `fntree_cur_next`: the next entry of the same block. */
    method Next(b: Block) returns (e: Option<nat>)
      requires Valid() && NextPos() <= |b.entries|
      modifies this`cur
      ensures Valid() && Stack() == old(Stack())
      ensures if old(NextPos()) == |b.entries| then e == None && cur == old(cur)
              else e == Some(old(NextPos())) && cur == e
    {
      hide Stack;
      var i := if cur.None? then 0 else cur.value + 1;
      if i == |b.entries| {
        return None;
      }
      cur := Some(i);
      e := cur;
    }

    /** `_fntr_cur_push`: go into the block attached to entry i of b. */
    method Push(b: Block, i: nat) returns (r: Option<Block>)
      requires Valid() && i < |b.entries| && Kids(b, i).Some?
      modifies this, blockStk, entStk
      ensures Valid()
      ensures old(depth) == 64 ==>
        r == None && cur == old(cur) && curblock == old(curblock) && Stack() == old(Stack())
      ensures old(depth) < 64 ==> r == Kids(b, i) && cur == None && curblock == In(r.value)
      ensures old(depth) < 64 ==> Stack() == old(Stack()) + [Frame(b, i + 1)]
    {
      if depth == blockStk.Length {
        return None;
      }
      blockStk[depth] := b;
      entStk[depth] := i;
      depth := depth + 1;
      cur := None;
      r := b.entries[i].children;
      curblock := In(r.value);
    }

    /** `_fntr_cur_pop`: back to the saved block and entry. */
    method Pop() returns (r: Option<Block>)
      requires Valid()
      modifies this
      ensures Valid()
      ensures old(depth) == 0 ==> r == None && cur == old(cur) && curblock == old(curblock) && Stack() == old(Stack())
      ensures old(depth) > 0 ==> r.Some? && curblock == In(r.value) && cur.Some?
      ensures old(depth) > 0 ==> old(Stack()) == Stack() + [Frame(r.value, cur.value + 1)]
    {
      if depth == 0 {
        return None;
      }
      depth := depth - 1;
      cur := Some(entStk[depth]);
      curblock := In(blockStk[depth]);
      r := Some(blockStk[depth]);
    }

    /** The block that is read. */
    ghost function Here(root: Block): Block
      reads this
    { if curblock.In? then curblock.b else root }

    /** The frames still to be read when `cur` has been visited. */
    ghost function Ahead(root: Block): (s: seq<Frame>)
      requires Valid()
      reads this, blockStk, entStk
    { Stack() + [Frame(Here(root), NextPos())] }

    /** The frames when `cur` is about to be visited. */
    ghost function At(): (s: seq<Frame>)
      requires Valid() && curblock.In? && cur.Some?
      reads this, blockStk, entStk
      ensures |s| > 0
    { Stack() + [Frame(curblock.b, cur.value)] }

    /** The walk goes on in the block attached to the current entry, if there is one. */
    ghost predicate Inward(root: Block)
      reads this
    { cur.Some? && cur.value < |Here(root).entries| && Kids(Here(root), cur.value).Some? }

    /** Where the walk goes on. */
    ghost function Onward(root: Block): (s: seq<Frame>)
      requires Valid()
      reads this, blockStk, entStk
    { if Inward(root) then Ahead(root) + [Frame(Kids(Here(root), cur.value).value, 0)] else Ahead(root) }

    /** The walk goes on in a block for which the stack has no place. */
    ghost predicate Full(root: Block)
      reads this
    { Inward(root) && depth == LEVELS }

    /** `fntree_cur_next_r`: the next entry in pre-order.  At a directory for which the
        stack has no place it stays, and gives nothing any more. */
    method NextR(root: Block) returns (e: Option<nat>, dir: Block)
      requires Valid() && !curblock.Gone? && Linked(Onward(root))
      modifies this, blockStk, entStk
      ensures Valid() && curblock.In?
      ensures old(Full(root)) ==> e == None && Full(root) && Onward(root) == old(Onward(root))
      ensures !old(Full(root)) ==>
        var s := old(Left(Onward(root)));
        if Exhausted(s) then e == None && depth == 0
        else e.Some? && cur == e && curblock == In(dir) && At() == s
    {
      hide Linked, Kids, Nest, Left, Stack;
      var b := root;
      ghost var s := Onward(root);
      LinkedParts(s);
      if curblock.NoBlock? {
        curblock := In(b);
      } else {
        b := curblock.b;
      }
      dir := root;
      if cur.Some? {
        if Kids(b, cur.value).Some? {
          var k := Push(b, cur.value);
          if k.None? {
            return None, dir;
          }
          b := k.value;
        }
      }
      e, dir := NextUp(b, root);
    }

    /** The next entry of b, or else of the directories above. */
    method NextUp(b0: Block, root: Block) returns (e: Option<nat>, dir: Block)
      requires Valid() && curblock == In(b0) && Linked(Ahead(b0))
      modifies this, blockStk, entStk
      ensures Valid() && curblock.In?
      ensures var s := old(Left(Ahead(b0)));
        if Exhausted(s) then e == None && depth == 0
        else e.Some? && cur == e && curblock == In(dir) && At() == s
    {
      hide Linked, Kids, Nest, Left, Stack;
      var b := b0;
      ghost var s := Ahead(b0);
      dir := root;
      while true
        invariant Valid() && curblock == In(b)
        invariant Linked(Ahead(b)) && Left(Ahead(b)) == Left(s)
        decreases depth
      {
        ghost var t := Ahead(b);
        LinkedParts(t);
        LeftStep(t);
        e := Next(b);
        if e.Some? {
          assert At() == t;
          return e, b;
        }
        var up := Pop();
        if up.None? {
          return None, dir;
        }
        assert Below(t) == Ahead(up.value);
        b := up.value;
      }
    }

    /** After a visit the walk goes on inside of the entry or after it. */
    lemma OnwardEntered(root: Block)
      requires Valid() && curblock.In? && cur.Some? && Linked(At()) && !Exhausted(At())
      ensures Onward(root) == Entered(At())
    {
      hide Linked, Kids, Nest;
      LinkedParts(At());
      assert Top(At()) == Frame(curblock.b, cur.value);
      assert Below(At()) == Stack();
      assert Ahead(root) == Passed(At());
    }

    /** A walk by directories may go on. */
    ghost predicate Walking(root: Block)
      reads this, blockStk, entStk
    { Valid() && !curblock.Gone? && Linked(Ahead(root)) }

    /** What is still to be listed, */
    ghost function Unlisted(root: Block): seq<Item>
      requires Walking(root)
      reads this, blockStk, entStk
    { Listing(Ahead(root)) }

    /** how much of it the stack has place for, */
    ghost function Room(root: Block): nat
      requires Walking(root)
      reads this, blockStk, entStk
    { ListCount(Ahead(root)) }

    /** and whether it has place for all. */
    ghost predicate Clear(root: Block)
      requires Walking(root)
      reads this, blockStk, entStk
    { ScanFits(Rewound(Ahead(root))) }

    /** `fntree_cur_next_r_ctx`: the next entry, all of a directory before what is inside
        its subdirectories.  `full` says that the next subdirectory has no place in the
        stack; the code then goes on with a NULL block. */
    method NextCtx(root: Block) returns (e: Option<nat>, dir: Block, full: bool)
      requires Walking(root)
      modifies this, blockStk, entStk
      ensures Walking(root) && (e.None? <==> old(Room(root)) == 0)
      ensures full ==> e == None && !old(Clear(root))
      ensures e.None? && !full ==> old(Unlisted(root)) == [] && old(Clear(root))
      ensures e.Some? ==>
        && old(Unlisted(root)) != [] && Shows(old(Unlisted(root))[0], dir, e.value)
        && Unlisted(root) == old(Unlisted(root))[1..]
        && Room(root) == old(Room(root)) - 1 && Clear(root) == old(Clear(root))
    {
      hide Linked, Kids, Nest, Listing, ScanFits, Stack, Rewound, Shows, ListCount;
      assert Here(root) == if curblock.In? then curblock.b else root;
      var b := root;
      ghost var t := Ahead(root);
      if curblock.NoBlock? {
        curblock := In(b);
      } else {
        b := curblock.b;
      }
      assert Ahead(b) == t;
      e, dir, full := ListFrom(b, root);
    }

    /** The entries of b from where the cursor is, or else the next subdirectory. */
    method ListFrom(b0: Block, root: Block) returns (e: Option<nat>, dir: Block, full: bool)
      requires Valid() && curblock == In(b0) && Linked(Ahead(b0))
      modifies this, blockStk, entStk
      ensures Valid() && curblock.In? && Linked(Ahead(b0)) && (e.None? <==> old(ListCount(Ahead(b0))) == 0)
      ensures full ==> e == None && !old(ScanFits(Rewound(Ahead(b0))))
      ensures e.None? && !full ==> old(Listing(Ahead(b0))) == [] && old(ScanFits(Rewound(Ahead(b0))))
      ensures e.Some? ==>
        && old(Listing(Ahead(b0))) != [] && Shows(old(Listing(Ahead(b0)))[0], dir, e.value)
        && Listing(Ahead(b0)) == old(Listing(Ahead(b0)))[1..]
        && ListCount(Ahead(b0)) == old(ListCount(Ahead(b0))) - 1
        && ScanFits(Rewound(Ahead(b0))) == old(ScanFits(Rewound(Ahead(b0))))
    {
      hide Linked, Kids, Nest, Listing, Scanning, ScanCost, ScanFits, Stack, Rewound, Entered, Passed, Shows;
      hide ListCount, Findable;
      var b := b0;
      ghost var todo, fits, n := Listing(Ahead(b)), ScanFits(Rewound(Ahead(b))), ListCount(Ahead(b));
      dir := root;
      while true
        invariant Valid() && curblock == In(b) && Linked(Ahead(b)) && Listing(Ahead(b)) == todo
        invariant ScanFits(Rewound(Ahead(b))) == fits && ListCount(Ahead(b)) == n
        decreases ScanCost(Rewound(Ahead(b)))
      {
        ghost var t := Ahead(b);
        e := ListOne(b);
        if e.Some? {
          ListedNext(t);
          SameRewound(t);
          ListCountListed(t);
          return e, b, false;
        }
        ListCountDone(t);
        Rewind(b);
        var down;
        down, full := Search(b);
        if down.None? {
          return None, dir, full;
        }
        b := down.value;
      }
    }

    /** The next entry of the directory that is listed. */
    method ListOne(b: Block) returns (e: Option<nat>)
      requires Valid() && curblock == In(b) && Linked(Ahead(b))
      modifies this`cur
      ensures Valid() && (e.None? <==> old(Exhausted(Ahead(b))))
      ensures e.None? ==> Ahead(b) == old(Ahead(b))
      ensures e.Some? ==> e.value == old(NextPos()) < |b.entries| && cur == e && Ahead(b) == old(Passed(Ahead(b)))
      ensures Stack() == old(Stack())
    {
      hide Linked, Kids, Nest, Stack, Passed;
      ghost var t := Ahead(b);
      LinkedParts(t);
      e := Next(b);
      if e.Some? {
        assert Ahead(b) == Passed(t);
      }
    }

    /** Back to the start of a directory that is listed to the end. */
    method Rewind(b: Block)
      requires Valid() && curblock == In(b) && Linked(Ahead(b)) && Exhausted(Ahead(b))
      modifies this`cur
      ensures Valid() && Ahead(b) == Rewound(old(Ahead(b)))
      ensures Scanning(Ahead(b)) == old(Listing(Ahead(b)))
    {
      hide Linked, Kids, Nest, Listing, Scanning, Stack;
      ListingEnd(Ahead(b));
      cur := None;
    }

    /** The search for the next subdirectory, from the current entry of b on and then in
        the directories above.  It gives up at one for which the stack has no place. */
    method Search(b0: Block) returns (r: Option<Block>, full: bool)
      requires Valid() && curblock == In(b0) && Linked(Ahead(b0))
      modifies this, blockStk, entStk
      ensures Valid() && curblock.In? && Linked(Ahead(b0))
      ensures full ==> r == None && !old(ScanFits(Ahead(b0)))
      ensures old(Findable(Ahead(b0))) == if r.None? then 0 else ListCount(Ahead(b0))
      ensures r.None? && !full ==> old(Scanning(Ahead(b0))) == [] && old(ScanFits(Ahead(b0)))
      ensures r.Some? ==> curblock == In(r.value) && Listing(Ahead(b0)) == old(Scanning(Ahead(b0)))
      ensures r.Some? ==> ScanCost(Rewound(Ahead(b0))) < old(ScanCost(Ahead(b0)))
      ensures r.Some? ==> ScanFits(Rewound(Ahead(b0))) == old(ScanFits(Ahead(b0)))
    {
      hide Linked, Kids, Nest, Listing, Scanning, ScanCost, ScanFits, Stack, Rewound, Entered, Passed;
      hide ListCount, Findable;
      var b := b0;
      ghost var todo, was, fits := Scanning(Ahead(b0)), ScanCost(Ahead(b0)), ScanFits(Ahead(b0));
      ghost var n := Findable(Ahead(b0));
      while true
        invariant Valid() && curblock == In(b) && Linked(Ahead(b)) && Scanning(Ahead(b)) == todo
        invariant ScanCost(Ahead(b)) <= was && ScanFits(Ahead(b)) == fits && Findable(Ahead(b)) == n
        decreases ScanCost(Ahead(b))
      {
        ghost var u := Ahead(b);
        LinkedParts(u);
        var e := ListOne(b);
        if e.None? {
          var up := Up(b);
          if up.None? {
            return None, false;
          }
          b := up.value;
        } else {
          assert Top(u) == Frame(b, e.value);
          if Kids(b, e.value).None? {
            ScanPast(u);
            FitsPast(u);
            FindablePast(u);
          } else {
            assert At() == u;
            r := Down(b, e.value);
            return r, r.None?;
          }
        }
      }
    }

    /** The search in b is over. */
    method Up(b: Block) returns (r: Option<Block>)
      requires Valid() && curblock == In(b) && Linked(Ahead(b)) && Exhausted(Ahead(b))
      modifies this
      ensures Valid() && curblock.In?
      ensures r.None? ==> old(Scanning(Ahead(b))) == [] && old(ScanFits(Ahead(b))) && Ahead(b) == old(Ahead(b))
      ensures r.None? ==> old(Findable(Ahead(b))) == 0
      ensures r.Some? ==>
        && curblock == In(r.value) && Linked(Ahead(b)) && Scanning(Ahead(b)) == old(Scanning(Ahead(b)))
        && ScanFits(Ahead(b)) == old(ScanFits(Ahead(b))) && ScanCost(Ahead(b)) < old(ScanCost(Ahead(b)))
        && Findable(Ahead(b)) == old(Findable(Ahead(b)))
    {
      hide Linked, Kids, Nest, Scanning, ScanCost, ScanFits, Findable, Stack;
      ghost var u := Ahead(b);
      LinkedParts(u);
      ScanUp(u);
      FitsUp(u);
      FindableUp(u);
      r := Pop();
      if r.None? {
        SearchedAll(u);
      } else {
        assert Below(u) == Ahead(b);
      }
    }

    /** The search has passed entry i of b, which is a directory. */
    method Down(b: Block, i: nat) returns (r: Option<Block>)
      requires Valid() && curblock == In(b) && cur == Some(i) && i < |b.entries| && Kids(b, i).Some?
      requires Linked(At()) && Linked(Ahead(b))
      modifies this, blockStk, entStk
      ensures Valid() && curblock.In? && Linked(Ahead(b))
      ensures r.None? ==> !old(ScanFits(At()))
      ensures old(Findable(At())) == if r.None? then 0 else ListCount(Ahead(b))
      ensures r.Some? ==>
        && curblock == In(r.value) && Listing(Ahead(b)) == old(Scanning(At()))
        && ScanCost(Rewound(Ahead(b))) < old(ScanCost(At())) && ScanFits(Rewound(Ahead(b))) == old(ScanFits(At()))
    {
      hide Linked, Kids, Nest, Listing, Scanning, ScanCost, ScanFits, Stack, Rewound, Entered, Passed;
      hide ListCount, Findable;
      ghost var u := At();
      LinkedParts(u);
      assert Top(u) == Frame(b, i) && Below(u) == Stack();
      FitsInto(u);
      if depth < LEVELS {
        FindableInto(u);
      } else {
        FindableNot(u);
        FitsNot(u);
      }
      ScanInto(u);
      assert Ahead(b) == Passed(u);
      r := Push(b, i);
      if r.Some? {
        assert Ahead(b) == Entered(u);
      }
    }

    /** The blocks still to be left. */
    ghost function Doomed(root: Block): seq<Block>
      requires Sound(root)
      reads this, blockStk, entStk
    {
      if !curblock.Gone? then Leaving(Ahead(root)) else if depth == 0 then [] else Leaving(Stack())
    }

    /** How many of them the walk gives before it comes to a directory for which the stack
        has no place. */
    ghost function Coming(root: Block): nat
      requires Sound(root)
      reads this, blockStk, entStk
    {
      if !curblock.Gone? then Freeable(Ahead(root)) else if depth == 0 then 0 else Freeable(Stack())
    }

    ghost predicate Sound(root: Block)
      reads this, blockStk, entStk
    { Valid() && (if curblock.Gone? then depth == 0 || Linked(Stack()) else Linked(Ahead(root))) }

    /** Read the next entry of b and go into the block attached to it. */
    method GoIn(b: Block) returns (e: Option<nat>, b': Option<Block>)
      requires Valid() && curblock == In(b) && Linked(Ahead(b))
      modifies this, blockStk, entStk
      ensures Valid()
      ensures e.None? <==> old(Exhausted(Ahead(b)))
      ensures e.None? ==> Stack() == old(Stack()) && b' == Some(b)
      ensures e.Some? && b'.Some? ==>
        && curblock == In(b'.value) && Ahead(b'.value) == old(Entered(Ahead(b)))
        && (old(depth) < LEVELS || Kids(b, old(NextPos())).None?)
      ensures b'.None? ==>
        && e.Some? && old(depth) == LEVELS && Kids(b, old(NextPos())).Some?
        && curblock == In(b) && Ahead(b) == old(Passed(Ahead(b)))
    {
      hide Linked, Kids, Nest, Stack, Entered, Passed;
      ghost var u := Ahead(b);
      LinkedParts(u);
      b' := Some(b);
      e := Next(b);
      if e.Some? {
        assert Ahead(b) == Passed(u);
        if Kids(b, e.value).Some? {
          LinkedParts(Entered(u));
          b' := Push(b, e.value);
        }
      }
    }

    /** Down to the first block that has no more blocks inside of it, which is left. */
    method Descend(b0: Block, ghost freed: set<Block>) returns (r: Option<Block>)
      requires Valid() && curblock == In(b0) && Linked(Ahead(b0)) && Alive(Leaving(Ahead(b0)), freed)
      modifies this, blockStk, entStk
      ensures Sound(b0) && !curblock.NoBlock? && (r.Some? <==> curblock.Gone?)
      ensures r.None? <==> old(Freeable(Ahead(b0))) == 0
      ensures r.Some? ==>
        && old(Leaving(Ahead(b0))) == [r.value] + (if depth == 0 then [] else Leaving(Stack()))
        && old(Freeable(Ahead(b0))) == 1 + if depth == 0 then 0 else Freeable(Stack())
    {
      hide Linked, Kids, Nest, Leaving, Freeable, Stack, Entered, Passed, ScanCost, Alive;
      var b := b0;
      ghost var todo, n := Leaving(Ahead(b0)), Freeable(Ahead(b0));
      while true
        invariant Valid() && curblock == In(b) && Linked(Ahead(b)) && Leaving(Ahead(b)) == todo
        invariant Freeable(Ahead(b)) == n
        decreases ScanCost(Ahead(b))
      {
        ghost var u := Ahead(b);
        LinkedParts(u);
        LeavingTop(u);
        AliveIn(todo, freed, b);
        assert b !in freed;
        FreeableTop(u);
        var e, down := GoIn(b);
        if down.None? {
          return None;
        }
        if e.None? {
          assert Below(u) == Stack();
          curblock := Gone;
          return Some(b);
        }
        LeavingEntered(u);
        ScanCostStep(u);
        b := down.value;
      }
    }

    /** `_fntr_blk_next_r_post`: the next block, each after the blocks inside of it.  A
        block in `freed` is not looked into.  At a directory for which the stack has no
        place it gives nothing. */
    method NextPost(root: Block, ghost freed: set<Block>) returns (r: Option<Block>)
      requires Sound(root) && Alive(Doomed(root), freed)
      modifies this, blockStk, entStk
      ensures Sound(root) && (r.Some? ==> curblock.Gone?)
      ensures r.None? <==> old(Coming(root)) == 0
      ensures r.Some? ==> var todo := old(Doomed(root));
        && todo != [] && r == Some(todo[0]) && Doomed(root) == todo[1..] && Coming(root) == old(Coming(root)) - 1
    {
      hide Linked, Kids, Nest, Leaving, Freeable, Stack, Alive;
      var b := root;
      if curblock.NoBlock? {
        curblock := In(b);
      } else if curblock.In? {
        b := curblock.b;
      }
      if curblock.Gone? {
        ghost var t := Stack();
        var up := Pop();
        if up.None? {
          return None;
        }
        b := up.value;
        assert Ahead(b) == t;
      }
      r := Descend(b, freed);
    }
  }

  // ---------- directory by directory ----------

  ghost predicate Shows(x: Item, b: Block, i: nat) { x.b == b && x.i == i }

  /** The entries of b from i on, without what is inside of them. */
  ghost function Entries(b: Block, i: nat, path: seq<Name>): seq<Item>
    requires i <= |b.entries|
    decreases |b.entries| - i
  {
    if i == |b.entries| then [] else [Item(path + [b.entries[i].name], b, i)] + Entries(b, i + 1, path)
  }

  /** What is inside of the entries of b from i on. */
  ghost function Subs(b: Block, i: nat, path: seq<Name>): seq<Item>
    requires i <= |b.entries|
    decreases b, |b.entries| - i
  { if i == |b.entries| then [] else Sub(b, i, path) + Subs(b, i + 1, path) }

  ghost function Sub(b: Block, i: nat, path: seq<Name>): seq<Item>
    requires i < |b.entries|
    decreases b, |b.entries| - i, 0
  {
    var k := Kids(b, i);
    if k.None? then [] else
    var inner := path + [b.entries[i].name];
    Entries(k.value, 0, inner) + Subs(k.value, 0, inner)
  }

  /** Still to be visited when the top block is searched for subdirectories. */
  ghost function Scanning(s: seq<Frame>): seq<Item>
    requires Linked(s)
    decreases |s|
  {
    var here := Subs(Top(s).b, Top(s).pos, PathOf(s));
    if |s| == 1 then here else here + Scanning(Below(s))
  }

  /** The top block from its start. */
  ghost function Rewound(s: seq<Frame>): (r: seq<Frame>)
    requires Linked(s)
    ensures Linked(r) && r == Below(s) + [Frame(Top(s).b, 0)]
    ensures Top(r) == Frame(Top(s).b, 0) && Below(r) == Below(s)
  { Below(s) + [Frame(Top(s).b, 0)] }

  /** Still to be visited when the entries of the top block are listed. */
  ghost function Listing(s: seq<Frame>): seq<Item>
    requires Linked(s)
  { Entries(Top(s).b, Top(s).pos, PathOf(s)) + Scanning(Rewound(s)) }

  ghost function Cost(b: Block, i: nat): nat
    requires i <= |b.entries|
    decreases b, |b.entries| - i
  {
    if i == |b.entries| then 1 else
    var k := Kids(b, i);
    1 + (if k.None? then 0 else Cost(k.value, 0)) + Cost(b, i + 1)
  }

  /** How many steps the search can still take. */
  ghost function ScanCost(s: seq<Frame>): nat
    requires Linked(s)
    decreases |s|
  { Cost(Top(s).b, Top(s).pos) + if |s| == 1 then 0 else ScanCost(Below(s)) }

  lemma ListingNext(s: seq<Frame>)
    requires Linked(s) && !Exhausted(s)
    ensures Listing(s) == [ItemAt(s)] + Listing(Passed(s))
  {
    hide Linked, Kids, Nest, Scanning, Todo, Pre, Rewound, PathOf, Entries, Passed;
    LinkedParts(s);
    PassedTodo(s);
    var t := Top(s);
    SameRewound(s);
    EntriesNext(t.b, t.pos, PathOf(s));
    Attach(ItemAt(s), Entries(t.b, t.pos + 1, PathOf(s)), Scanning(Rewound(s)));
  }

  lemma ListedNext(s: seq<Frame>)
    requires Linked(s) && !Exhausted(s)
    ensures Listing(s) != [] && Shows(Listing(s)[0], Top(s).b, Top(s).pos) && Listing(s)[1..] == Listing(Passed(s))
  {
    hide Linked, Kids, Nest, Listing, Passed, PathOf;
    LinkedParts(s);
    ListingNext(s);
  }

  lemma SameRewound(s: seq<Frame>)
    requires Linked(s) && !Exhausted(s)
    ensures Rewound(Passed(s)) == Rewound(s)
  {}

  lemma EntriesNext(b: Block, i: nat, path: seq<Name>)
    requires i < |b.entries|
    ensures Entries(b, i, path) == [Item(path + [b.entries[i].name], b, i)] + Entries(b, i + 1, path)
  {}

  lemma Attach(x: Item, a: seq<Item>, b: seq<Item>)
    ensures ([x] + a) + b == [x] + (a + b)
  {}

  lemma ListingEnd(s: seq<Frame>)
    requires Linked(s) && Exhausted(s)
    ensures Listing(s) == Scanning(Rewound(s))
  {}

  /** One step of the search for subdirectories: back to the parent, */
  lemma ScanUp(s: seq<Frame>)
    requires Linked(s) && Exhausted(s)
    ensures Scanning(s) == if |s| == 1 then [] else Scanning(Below(s))
    ensures |s| > 1 ==> ScanCost(Below(s)) < ScanCost(s)
  {
    hide Linked, Nest, PathOf, Kids;
    LinkedParts(s);
  }

  /** past an entry that is not a directory, */
  lemma ScanPast(s: seq<Frame>)
    requires Linked(s) && !Exhausted(s) && Kids(Top(s).b, Top(s).pos).None?
    ensures Scanning(Passed(s)) == Scanning(s) && ScanCost(Passed(s)) < ScanCost(s)
  {
    hide Linked, Nest, PathOf, Scanning, ScanCost, Passed, Kids, Todo;
    LinkedParts(s);
    PassedTodo(s);
    ScanParts(s);
    ScanParts(Passed(s));
    var t := Top(s);
    assert [] + Subs(t.b, t.pos + 1, PathOf(s)) == Subs(t.b, t.pos + 1, PathOf(s));
  }

  /** or into a subdirectory, which is listed first. */
  lemma ScanInto(s: seq<Frame>)
    requires Linked(s) && !Exhausted(s) && Kids(Top(s).b, Top(s).pos).Some?
    ensures Listing(Entered(s)) == Scanning(s) && ScanCost(Rewound(Entered(s))) < ScanCost(s)
  {
    hide Linked, Nest, PathOf, Scanning, ScanCost, Entered, Passed, Kids, Todo, Rewound, Entries;
    LinkedParts(s);
    PassedTodo(s);
    var t, p, e := Top(s), Passed(s), Entered(s);
    var k, inner := Kids(t.b, t.pos).value, PathOf(s) + [t.b.entries[t.pos].name];
    RewoundStart(e);
    EnteredPath(s);
    ScanParts(s);
    ScanParts(p);
    ScanParts(e);
    Regroup(Entries(k, 0, inner), Subs(k, 0, inner), Subs(t.b, t.pos + 1, PathOf(s)),
      if |s| == 1 then [] else Scanning(Below(s)));
  }

  lemma Regroup(a: seq<Item>, b: seq<Item>, c: seq<Item>, d: seq<Item>)
    ensures ((a + b) + c) + d == a + (b + (c + d))
  {}

  lemma SearchedAll(s: seq<Frame>)
    requires Linked(s) && Exhausted(s) && |s| == 1
    ensures Scanning(s) == []
  {}

  lemma RewoundStart(s: seq<Frame>)
    requires Linked(s) && Top(s).pos == 0
    ensures Rewound(s) == s
  {}

  lemma ScanParts(s: seq<Frame>)
    requires Linked(s)
    ensures Scanning(s) == Subs(Top(s).b, Top(s).pos, PathOf(s)) + (if |s| == 1 then [] else Scanning(Below(s)))
    ensures ScanCost(s) == Cost(Top(s).b, Top(s).pos) + (if |s| == 1 then 0 else ScanCost(Below(s)))
  {}

  // ---------- the height of the stack ----------

  /** From here on the search finds no subdirectory for which the stack has no place. */
  ghost predicate ScanFits(s: seq<Frame>)
    requires Linked(s)
    decreases |s|
  { Nest(Top(s).b, Top(s).pos) + |s| - 1 <= LEVELS && (|s| > 1 ==> ScanFits(Below(s))) }

  lemma FitsUp(s: seq<Frame>)
    requires Linked(s) && Exhausted(s) && |s| - 1 <= LEVELS
    ensures ScanFits(s) <==> |s| == 1 || ScanFits(Below(s))
  {
    hide Linked, Kids;
    LinkedParts(s);
  }

  /** It stays so after an entry that is not a directory, */
  lemma FitsPast(s: seq<Frame>)
    requires Linked(s) && !Exhausted(s) && Kids(Top(s).b, Top(s).pos).None?
    ensures ScanFits(Passed(s)) <==> ScanFits(s)
  {
    hide Linked, Kids, Nest, Passed, ScanFits;
    LinkedParts(s);
    NestNext(Top(s).b, Top(s).pos);
    FitsParts(s);
    FitsParts(Passed(s));
  }

  /** and inside of a subdirectory, */
  lemma FitsInto(s: seq<Frame>)
    requires Linked(s) && !Exhausted(s) && Kids(Top(s).b, Top(s).pos).Some?
    ensures Rewound(Entered(s)) == Entered(s) && (ScanFits(Entered(s)) <==> ScanFits(s))
  {
    hide Linked, Kids, Nest, Entered, Passed, ScanFits, Rewound;
    LinkedParts(s);
    NestNext(Top(s).b, Top(s).pos);
    FitsParts(s);
    FitsParts(Passed(s));
    FitsParts(Entered(s));
    RewoundStart(Entered(s));
  }

  /** or the next one is such a subdirectory. */
  lemma FitsNot(s: seq<Frame>)
    requires Linked(s) && !Exhausted(s) && |s| - 1 == LEVELS && Kids(Top(s).b, Top(s).pos).Some?
    ensures !ScanFits(s)
  {
    hide Linked, Kids, Nest, ScanFits;
    LinkedParts(s);
    NestNext(Top(s).b, Top(s).pos);
    FitsParts(s);
  }

  lemma FitsParts(s: seq<Frame>)
    requires Linked(s)
    ensures ScanFits(s) <==> Nest(Top(s).b, Top(s).pos) + |s| - 1 <= LEVELS && (|s| > 1 ==> ScanFits(Below(s)))
  {}

  /** How many entries inside of the entries of b from i on, b being `depth` levels deep,
      the walk lists before it comes to a subdirectory for which the stack has no place. */
  ghost function ListCountIn(b: Block, i: nat, depth: nat): nat
    requires i <= |b.entries|
    decreases b, |b.entries| - i
  {
    if i == |b.entries| then 0 else
    var k := Kids(b, i);
    if k.None? then ListCountIn(b, i + 1, depth)
    else if depth >= LEVELS then 0
    else
      |k.value.entries| + ListCountIn(k.value, 0, depth + 1) +
      if Nest(k.value, 0) + depth + 1 > LEVELS then 0 else ListCountIn(b, i + 1, depth)
  }

  /** The same for the search from a stack on. */
  ghost function Findable(s: seq<Frame>): nat
    requires Linked(s)
    decreases |s|
  {
    ListCountIn(Top(s).b, Top(s).pos, |s| - 1) +
    if Nest(Top(s).b, Top(s).pos) + |s| - 1 > LEVELS || |s| == 1 then 0 else Findable(Below(s))
  }

  /** And with the rest of the directory that is listed. */
  ghost function ListCount(s: seq<Frame>): nat
    requires Linked(s)
  { |Top(s).b.entries| - Top(s).pos + Findable(Rewound(s)) }

  lemma FindableParts(s: seq<Frame>)
    requires Linked(s)
    ensures Findable(s) == ListCountIn(Top(s).b, Top(s).pos, |s| - 1) +
      if Nest(Top(s).b, Top(s).pos) + |s| - 1 > LEVELS || |s| == 1 then 0 else Findable(Below(s))
  {}

  lemma ListCountNext(b: Block, i: nat, depth: nat)
    requires i < |b.entries|
    ensures Kids(b, i).None? ==> ListCountIn(b, i, depth) == ListCountIn(b, i + 1, depth)
    ensures Kids(b, i).Some? && depth >= LEVELS ==> ListCountIn(b, i, depth) == 0
    ensures Kids(b, i).Some? && depth < LEVELS ==>
      var k := Kids(b, i).value;
      ListCountIn(b, i, depth) == |k.entries| + ListCountIn(k, 0, depth + 1) +
        if Nest(k, 0) + depth + 1 > LEVELS then 0 else ListCountIn(b, i + 1, depth)
  {}

  lemma ListCountEnd(b: Block, depth: nat)
    ensures ListCountIn(b, |b.entries|, depth) == 0 && Nest(b, |b.entries|) == 0
  {}

  /** One entry is listed, or all are. */
  lemma ListCountListed(s: seq<Frame>)
    requires Linked(s) && !Exhausted(s)
    ensures ListCount(s) == 1 + ListCount(Passed(s))
  {
    hide Linked, Kids, Nest, Passed, Findable, Rewound;
    LinkedParts(s);
    SameRewound(s);
  }

  lemma ListCountDone(s: seq<Frame>)
    requires Linked(s) && Exhausted(s)
    ensures ListCount(s) == Findable(Rewound(s))
  {
    hide Linked, Kids, Nest, Findable, Rewound;
    LinkedParts(s);
  }

  /** One step of the search: back to the parent, */
  lemma FindableUp(s: seq<Frame>)
    requires Linked(s) && Exhausted(s) && |s| - 1 <= LEVELS
    ensures Findable(s) == if |s| == 1 then 0 else Findable(Below(s))
  {
    hide Linked, Kids, Nest, Findable, ListCountIn;
    LinkedParts(s);
    FindableParts(s);
    ListCountEnd(Top(s).b, |s| - 1);
  }

  /** past an entry that is not a directory, */
  lemma FindablePast(s: seq<Frame>)
    requires Linked(s) && !Exhausted(s) && Kids(Top(s).b, Top(s).pos).None?
    ensures Findable(Passed(s)) == Findable(s)
  {
    hide Linked, Kids, Nest, Passed, Findable, ListCountIn;
    LinkedParts(s);
    FindableParts(s);
    FindableParts(Passed(s));
    NestNext(Top(s).b, Top(s).pos);
    ListCountNext(Top(s).b, Top(s).pos, |s| - 1);
  }

  /** or into a subdirectory, if the stack has a place for it. */
  lemma FindableInto(s: seq<Frame>)
    requires Linked(s) && !Exhausted(s) && |s| - 1 < LEVELS && Kids(Top(s).b, Top(s).pos).Some?
    ensures Findable(s) == ListCount(Entered(s))
  {
    hide Linked, Kids, Nest, Entered, Passed, Findable, ListCountIn, ListCount;
    LinkedParts(s);
    FindableParts(s);
    NestNext(Top(s).b, Top(s).pos);
    ListCountNext(Top(s).b, Top(s).pos, |s| - 1);
    ListCountStart(Entered(s));
    FindableParts(Passed(s));
    FindableParts(Entered(s));
  }

  lemma FindableNot(s: seq<Frame>)
    requires Linked(s) && !Exhausted(s) && |s| - 1 == LEVELS && Kids(Top(s).b, Top(s).pos).Some?
    ensures Findable(s) == 0
  {
    hide Linked, Kids, Nest, Findable, ListCountIn;
    LinkedParts(s);
    FindableParts(s);
    NestNext(Top(s).b, Top(s).pos);
    ListCountNext(Top(s).b, Top(s).pos, |s| - 1);
  }

  lemma ListCountStart(s: seq<Frame>)
    requires Linked(s) && Top(s).pos == 0
    ensures ListCount(s) == |Top(s).b.entries| + Findable(s)
  {
    hide Linked, Findable;
    RewoundStart(s);
  }

  // ---------- freeing ----------

  /** The blocks inside of the entries of b from i on, each after those inside of it. */
  ghost function Inner(b: Block, i: nat): seq<Block>
    requires i <= |b.entries|
    decreases b, |b.entries| - i
  {
    if i == |b.entries| then [] else
    var k := Kids(b, i);
    (if k.None? then [] else Inner(k.value, 0) + [k.value]) + Inner(b, i + 1)
  }

  /** All blocks of a tree. */
  ghost function Blocks(b: Block): seq<Block> { Inner(b, 0) + [b] }

  ghost function Leaving(s: seq<Frame>): seq<Block>
    requires Linked(s)
    decreases |s|
  { Inner(Top(s).b, Top(s).pos) + [Top(s).b] + if |s| == 1 then [] else Leaving(Below(s)) }

  /** How many blocks inside of the entries of b from i on, b being `depth` levels deep, the
      walk leaves before it comes to one for which the stack has no place. */
  ghost function FreeableIn(b: Block, i: nat, depth: nat): nat
    requires i <= |b.entries|
    decreases b, |b.entries| - i
  {
    if i == |b.entries| then 0 else
    var k := Kids(b, i);
    if k.None? then FreeableIn(b, i + 1, depth)
    else if depth >= LEVELS then 0
    else if Nest(k.value, 0) + depth + 1 > LEVELS then FreeableIn(k.value, 0, depth + 1)
    else FreeableIn(k.value, 0, depth + 1) + 1 + FreeableIn(b, i + 1, depth)
  }

  ghost function Freeable(s: seq<Frame>): nat
    requires Linked(s)
    decreases |s|
  {
    FreeableIn(Top(s).b, Top(s).pos, |s| - 1) +
    if Nest(Top(s).b, Top(s).pos) + |s| - 1 > LEVELS then 0
    else 1 + if |s| == 1 then 0 else Freeable(Below(s))
  }

  lemma FreeableParts(s: seq<Frame>)
    requires Linked(s)
    ensures Freeable(s) == FreeableIn(Top(s).b, Top(s).pos, |s| - 1) +
      if Nest(Top(s).b, Top(s).pos) + |s| - 1 > LEVELS then 0 else 1 + if |s| == 1 then 0 else Freeable(Below(s))
  {}

  lemma FreeableNext(b: Block, i: nat, depth: nat)
    requires i < |b.entries|
    ensures var k := Kids(b, i);
      FreeableIn(b, i, depth) ==
        if k.None? then FreeableIn(b, i + 1, depth)
        else if depth >= LEVELS then 0
        else if Nest(k.value, 0) + depth + 1 > LEVELS then FreeableIn(k.value, 0, depth + 1)
        else FreeableIn(k.value, 0, depth + 1) + 1 + FreeableIn(b, i + 1, depth)
  {}

  lemma FreeableEnd(b: Block, depth: nat)
    ensures FreeableIn(b, |b.entries|, depth) == 0 && Nest(b, |b.entries|) == 0
  {}

  /** One step of the freeing walk: a block that is read to the end is left, and an entry
      is passed or entered, as long as the stack has a place. */
  lemma FreeableTop(s: seq<Frame>)
    requires Linked(s) && |s| - 1 <= LEVELS
    ensures Exhausted(s) ==> Freeable(s) == 1 + if |s| == 1 then 0 else Freeable(Below(s))
    ensures !Exhausted(s) && (|s| - 1 < LEVELS || Kids(Top(s).b, Top(s).pos).None?) ==>
      Freeable(Entered(s)) == Freeable(s)
    ensures !Exhausted(s) && |s| - 1 == LEVELS && Kids(Top(s).b, Top(s).pos).Some? ==> Freeable(s) == 0
  {
    hide Linked, Kids, Nest, Entered, Passed, Freeable, FreeableIn;
    LinkedParts(s);
    FreeableParts(s);
    var t := Top(s);
    if Exhausted(s) {
      FreeableEnd(t.b, |s| - 1);
    } else {
      NestNext(t.b, t.pos);
      FreeableNext(t.b, t.pos, |s| - 1);
      if Kids(t.b, t.pos).None? {
        FreeablePast(s);
      } else if |s| - 1 < LEVELS {
        FreeableInto(s);
      }
    }
  }

  lemma FreeablePast(s: seq<Frame>)
    requires Linked(s) && !Exhausted(s) && Kids(Top(s).b, Top(s).pos).None?
    ensures Freeable(Entered(s)) == Freeable(s)
  {
    hide Linked, Kids, Nest, Entered, Passed, Freeable, FreeableIn;
    LinkedParts(s);
    FreeableParts(s);
    FreeableParts(Passed(s));
    NestNext(Top(s).b, Top(s).pos);
    FreeableNext(Top(s).b, Top(s).pos, |s| - 1);
  }

  lemma FreeableInto(s: seq<Frame>)
    requires Linked(s) && !Exhausted(s) && |s| - 1 < LEVELS && Kids(Top(s).b, Top(s).pos).Some?
    ensures Freeable(Entered(s)) == Freeable(s)
  {
    hide Linked, Kids, Nest, Entered, Passed, Freeable, FreeableIn;
    LinkedParts(s);
    FreeableParts(s);
    FreeableParts(Passed(s));
    FreeableParts(Entered(s));
    NestNext(Top(s).b, Top(s).pos);
    FreeableNext(Top(s).b, Top(s).pos, |s| - 1);
  }

  /** A block is left when its entries are passed; */
  lemma LeavingTop(s: seq<Frame>)
    requires Linked(s)
    ensures Top(s).b in Leaving(s)
    ensures Exhausted(s) ==> Leaving(s) == [Top(s).b] + if |s| == 1 then [] else Leaving(Below(s))
  {
    hide Linked, Nest, Kids, Leaving;
    LinkedParts(s);
    LeavingParts(s);
    var l := Leaving(s);
    assert l[|Inner(Top(s).b, Top(s).pos)|] == Top(s).b;
    if Exhausted(s) { assert [] + [Top(s).b] == [Top(s).b]; }
  }

  /** the blocks inside of it come first. */
  lemma LeavingEntered(s: seq<Frame>)
    requires Linked(s) && !Exhausted(s)
    ensures Leaving(s) == Leaving(Entered(s))
  {
    hide Linked, Nest, Entered, Passed, Kids, Leaving;
    LinkedParts(s);
    var t, p, e := Top(s), Passed(s), Entered(s);
    var rest := if |s| == 1 then [] else Leaving(Below(s));
    LeavingParts(s);
    LeavingParts(p);
    LeavingParts(e);
    var k := Kids(t.b, t.pos);
    if k.Some? {
      RegroupBlocks(Inner(k.value, 0) + [k.value], Inner(t.b, t.pos + 1), [t.b], rest);
    } else {
      assert [] + Inner(t.b, t.pos + 1) == Inner(t.b, t.pos + 1);
    }
  }

  lemma RegroupBlocks(a: seq<Block>, b: seq<Block>, c: seq<Block>, d: seq<Block>)
    ensures ((a + b) + c) + d == a + ((b + c) + d)
  {}

  /** None of the blocks is freed. */
  ghost predicate Alive(todo: seq<Block>, freed: set<Block>) { forall x :: x in todo ==> x !in freed }

  lemma AliveIn(todo: seq<Block>, freed: set<Block>, b: Block)
    requires Alive(todo, freed) && b in todo
    ensures b !in freed
  {}

  lemma LeavingParts(s: seq<Frame>)
    requires Linked(s)
    ensures Leaving(s) == (Inner(Top(s).b, Top(s).pos) + [Top(s).b]) + (if |s| == 1 then [] else Leaving(Below(s)))
  {}

  lemma ScanCostStep(s: seq<Frame>)
    requires Linked(s) && !Exhausted(s)
    ensures ScanCost(Entered(s)) < ScanCost(s)
  {
    hide Linked, Nest, Entered, Passed, Kids;
    LinkedParts(s);
  }

  lemma LinkedParts(s: seq<Frame>)
    requires Linked(s)
    ensures 0 < |s| && Top(s).pos <= |Top(s).b.entries|
    ensures |s| > 1 ==> Linked(Below(s)) && 1 <= Top(Below(s)).pos <= |Top(Below(s)).b.entries|
  {}

  lemma LeftStep(s: seq<Frame>)
    requires Linked(s)
    ensures Left(s) == if Exhausted(s) && |s| > 1 then Left(Below(s)) else s
  {}
}
