/** The recursive comparison of two directories in ffbase/fntree.h: two cursors walk two
    trees at once.

    `Merge` is the comparison by merging the entries of each directory; `Ahead` says it of
    two stacks of frames of any depths.  It rests on the two cursors being in the same
    relative directory at every depth they share (`SameDirs`).
  */
module FnCompare {
  import opened FnTree
  import opened FnWalk
  import opened Optional

  // ---------- names ----------

  /** The sign of the difference of two names, byte by byte and then by length. */
  function Order(a: Name, b: Name): int {
    if a == [] && b == [] then 0
    else if a == [] then -1
    else if b == [] then 1
    else if a[0] < b[0] then -1
    else if a[0] > b[0] then 1
    else Order(a[1..], b[1..])
  }

  lemma {:induction false} OrderEqual(a: Name, b: Name)
    ensures Order(a, b) == 0 <==> a == b
    ensures Order(b, a) == -Order(a, b)
  {
    if a == [] || b == [] || a[0] != b[0] {
    } else {
      OrderEqual(a[1..], b[1..]);
      assert a == [a[0]] + a[1..] && b == [b[0]] + b[1..];
    }
  }

  lemma {:induction false} OrderTransitive(a: Name, b: Name, c: Name)
    requires Order(a, b) < 0 && Order(b, c) < 0
    ensures Order(a, c) < 0
  {
    if a == [] || a[0] != b[0] || b[0] != c[0] {
    } else {
      OrderTransitive(a[1..], b[1..], c[1..]);
    }
  }

  /** The first different byte decides, and a name that the other one continues comes first. */
  lemma {:induction false} OrderIs(a: Name, b: Name) returns (k: nat)
    ensures k <= |a| && k <= |b| && a[..k] == b[..k]
    ensures k == |a| || k == |b| || a[k] != b[k]
    ensures Order(a, b) < 0 <==> (k == |a| < |b|) || (k < |a| && k < |b| && a[k] < b[k])
    ensures Order(a, b) > 0 <==> (k == |b| < |a|) || (k < |a| && k < |b| && a[k] > b[k])
  {
    k := 0;
    if a == [] || b == [] || a[0] != b[0] {
    } else {
      k := OrderIs(a[1..], b[1..]);
      assert a[..k + 1] == [a[0]] + a[1..][..k] && b[..k + 1] == [b[0]] + b[1..][..k];
      k := k + 1;
    }
  }

  /** `ffstr_cmp2`: the first different byte decides, then the lengths. */
  method CompareNames(a: Name, b: Name) returns (r: int)
    ensures (r < 0 <==> Order(a, b) < 0) && (r > 0 <==> Order(a, b) > 0)
  {
    var n := if |a| < |b| then |a| else |b|;
    var i := 0;
    while i < n
      invariant 0 <= i <= n && Order(a[i..], b[i..]) == Order(a, b)
    {
      if a[i] != b[i] {
        return a[i] as int - b[i];
      }
      assert a[i..][1..] == a[i + 1..] && b[i..][1..] == b[i + 1..];
      i := i + 1;
    }
    r := |a| - |b|;
  }

  // ---------- the comparison as a merge ----------

  /** `enum FNTREE_CMP` without DONE */
  datatype Side = Equal | LeftOnly | RightOnly | Different

  /** What is reported of a relative path: the entry, or the two entries, it leads to. */
  datatype Report =
    | InLeft(path: seq<Name>, l: Ref)
    | InRight(path: seq<Name>, r: Ref)
    | InBoth(path: seq<Name>, l: Ref, r: Ref, same: bool)

  ghost function SideOf(x: Report): Side {
    match x
    case InLeft(_, _) => LeftOnly
    case InRight(_, _) => RightOnly
    case InBoth(_, _, _, same) => if same then Equal else Different
  }

  /** Tells entries of the same name apart (size, time), as a caller's function may. */
  type Differ = (Entry, Entry) -> bool

  function Verdict(d: Differ, l: Entry, r: Entry): Side {
    var o := Order(l.name, r.name);
    if o < 0 then LeftOnly else if o > 0 then RightOnly else if d(l, r) then Different else Equal
  }

  ghost function Single(x: Item, side: Side): Report {
    if side.RightOnly? then InRight(x.path, (x.b, x.i)) else InLeft(x.path, (x.b, x.i))
  }

  /** All that is in one tree only. */
  ghost function All(items: seq<Item>, side: Side): (r: seq<Report>)
    ensures |r| == |items|
  { seq(|items|, k requires 0 <= k < |items| => Single(items[k], side)) }

  /** The report on two entries of the same name. */
  ghost function Both(path: seq<Name>, l: Block, i: nat, r: Block, j: nat, side: Side): Report {
    InBoth(path, (l, i), (r, j), side.Equal?)
  }

  /** The side to take the next report from. */
  function Turn(d: Differ, l: Block, i: nat, r: Block, j: nat): Side
    requires i <= |l.entries| && j <= |r.entries| && (i < |l.entries| || j < |r.entries|)
  {
    if i == |l.entries| then RightOnly
    else if j == |r.entries| then LeftOnly
    else Verdict(d, l.entries[i], r.entries[j])
  }

  /** The reports on entries i.. of l and j.. of r, both in the directory `path`. */
  ghost function Merge(d: Differ, l: Block, i: nat, r: Block, j: nat, path: seq<Name>): seq<Report>
    requires i <= |l.entries| && j <= |r.entries|
    decreases l, r, |l.entries| - i + |r.entries| - j
  {
    if i == |l.entries| && j == |r.entries| then [] else
    var t := Turn(d, l, i, r, j);
    if t.LeftOnly? then
      [Single(Item(path + [l.entries[i].name], l, i), t)] + All(PreKids(l, i, path), t) + Merge(d, l, i + 1, r, j, path)
    else if t.RightOnly? then
      [Single(Item(path + [r.entries[j].name], r, j), t)] + All(PreKids(r, j, path), t) + Merge(d, l, i, r, j + 1, path)
    else
      [Both(path + [l.entries[i].name], l, i, r, j, t)] + MergeKids(d, l, i, r, j, path)
        + Merge(d, l, i + 1, r, j + 1, path)
  }

  /** The reports on what is inside of two entries of the same name. */
  ghost function MergeKids(d: Differ, l: Block, i: nat, r: Block, j: nat, path: seq<Name>): seq<Report>
    requires i < |l.entries| && j < |r.entries|
    decreases l, r, |l.entries| - i + |r.entries| - j, 0
  {
    var a, b := Kids(l, i), Kids(r, j);
    if b.None? then All(PreKids(l, i, path), LeftOnly)
    else if a.None? then All(PreKids(r, j, path), RightOnly)
    else Merge(d, a.value, 0, b.value, 0, path + [l.entries[i].name])
  }

  /** A report on two entries is about entries of one name, and says that they differ exactly
      if `d` does. */
  ghost predicate Tested(d: Differ, x: Report) {
    x.InBoth? ==>
      && x.l.1 < |x.l.0.entries| && x.r.1 < |x.r.0.entries|
      && var a, b := x.l.0.entries[x.l.1], x.r.0.entries[x.r.1];
      a.name == b.name && (SideOf(x) == if d(a, b) then Different else Equal)
  }

  ghost predicate AllTested(d: Differ, xs: seq<Report>) { forall k :: 0 <= k < |xs| ==> Tested(d, xs[k]) }

  lemma AloneTested(d: Differ, items: seq<Item>, side: Side)
    ensures AllTested(d, All(items, side))
  {}

  lemma BothTested(d: Differ, l: Block, i: nat, r: Block, j: nat, path: seq<Name>)
    requires i < |l.entries| && j < |r.entries|
    ensures var t := Turn(d, l, i, r, j); t.Equal? || t.Different? ==>
      l.entries[i].name == r.entries[j].name && Tested(d, Both(path, l, i, r, j, t))
  {
    OrderEqual(l.entries[i].name, r.entries[j].name);
  }

  lemma TestedJoin(d: Differ, h: Report, kids: seq<Report>, rest: seq<Report>)
    requires Tested(d, h) && AllTested(d, kids) && AllTested(d, rest)
    ensures AllTested(d, [h] + kids + rest)
  {
    hide Tested;
  }

  /** The verdict on two entries of one path is that of `d`, for every two trees. */
  lemma {:induction false} MergeTested(d: Differ, l: Block, i: nat, r: Block, j: nat, path: seq<Name>)
    requires i <= |l.entries| && j <= |r.entries|
    ensures AllTested(d, Merge(d, l, i, r, j, path))
    decreases l, r, |l.entries| - i + |r.entries| - j
  {
    hide Tested, AllTested, All, PreKids, MergeKids, Verdict, Kids;
    if i == |l.entries| && j == |r.entries| {
      NoneTested(d);
    } else {
      var t := Turn(d, l, i, r, j);
      if t.LeftOnly? {
        MergeTested(d, l, i + 1, r, j, path);
        AloneTested(d, PreKids(l, i, path), t);
        SingleTested(d, Item(path + [l.entries[i].name], l, i), t);
        TestedJoin(d, Single(Item(path + [l.entries[i].name], l, i), t), All(PreKids(l, i, path), t),
                   Merge(d, l, i + 1, r, j, path));
      } else if t.RightOnly? {
        MergeTested(d, l, i, r, j + 1, path);
        AloneTested(d, PreKids(r, j, path), t);
        SingleTested(d, Item(path + [r.entries[j].name], r, j), t);
        TestedJoin(d, Single(Item(path + [r.entries[j].name], r, j), t), All(PreKids(r, j, path), t),
                   Merge(d, l, i, r, j + 1, path));
      } else {
        MergeTested(d, l, i + 1, r, j + 1, path);
        KidsTested(d, l, i, r, j, path);
        BothTested(d, l, i, r, j, path + [l.entries[i].name]);
        TestedJoin(d, Both(path + [l.entries[i].name], l, i, r, j, t), MergeKids(d, l, i, r, j, path),
                   Merge(d, l, i + 1, r, j + 1, path));
      }
    }
  }

  lemma NoneTested(d: Differ)
    ensures AllTested(d, [])
  {}

  lemma SingleTested(d: Differ, x: Item, side: Side)
    ensures Tested(d, Single(x, side))
  {}

  lemma {:induction false} KidsTested(d: Differ, l: Block, i: nat, r: Block, j: nat, path: seq<Name>)
    requires i < |l.entries| && j < |r.entries|
    ensures AllTested(d, MergeKids(d, l, i, r, j, path))
    decreases l, r, |l.entries| - i + |r.entries| - j, 0
  {
    hide AllTested;
    var a, b := Kids(l, i), Kids(r, j);
    if b.None? {
      AloneTested(d, PreKids(l, i, path), LeftOnly);
    } else if a.None? {
      AloneTested(d, PreKids(r, j, path), RightOnly);
    } else {
      MergeTested(d, a.value, 0, b.value, 0, path + [l.entries[i].name]);
    }
  }

  // ---------- two stacks ----------

  /** At every depth both have reached, the two are in the same relative directory. */
  ghost predicate SameDirs(l: seq<Frame>, r: seq<Frame>)
    requires Linked(l) && Linked(r)
    decreases |l| + |r|
  {
    if |l| > |r| then SameDirs(Below(l), r)
    else if |l| < |r| then SameDirs(l, Below(r))
    else PathOf(l) == PathOf(r) && (|l| > 1 ==> SameDirs(Below(l), Below(r)))
  }

  /** The reports still to come. */
  ghost function Ahead(d: Differ, l: seq<Frame>, r: seq<Frame>): seq<Report>
    requires Linked(l) && Linked(r)
    decreases |l| + |r|
  {
    if |l| > |r| then All(Pre(Top(l).b, Top(l).pos, PathOf(l)), LeftOnly) + Ahead(d, Below(l), r)
    else if |l| < |r| then All(Pre(Top(r).b, Top(r).pos, PathOf(r)), RightOnly) + Ahead(d, l, Below(r))
    else Merge(d, Top(l).b, Top(l).pos, Top(r).b, Top(r).pos, PathOf(l)) + AheadBelow(d, l, r)
  }

  ghost function AheadBelow(d: Differ, l: seq<Frame>, r: seq<Frame>): seq<Report>
    requires Linked(l) && Linked(r) && |l| == |r|
    decreases |l| + |r|, 0
  { if |l| == 1 then [] else Ahead(d, Below(l), Below(r)) }

  lemma AllRight(d: Differ, l: Block, r: Block, j: nat, path: seq<Name>)
    requires j <= |r.entries|
    ensures Merge(d, l, |l.entries|, r, j, path) == All(Pre(r, j, path), RightOnly)
    decreases |r.entries| - j
  {
    if j == |r.entries| {
    } else {
      AllRight(d, l, r, j + 1, path);
      AllJoin(Item(path + [r.entries[j].name], r, j), PreKids(r, j, path), Pre(r, j + 1, path), RightOnly);
    }
  }

  lemma AllLeft(d: Differ, l: Block, i: nat, r: Block, path: seq<Name>)
    requires i <= |l.entries|
    ensures Merge(d, l, i, r, |r.entries|, path) == All(Pre(l, i, path), LeftOnly)
    decreases |l.entries| - i
  {
    if i == |l.entries| {
    } else {
      AllLeft(d, l, i + 1, r, path);
      AllJoin(Item(path + [l.entries[i].name], l, i), PreKids(l, i, path), Pre(l, i + 1, path), LeftOnly);
    }
  }

  lemma AllJoin(x: Item, a: seq<Item>, b: seq<Item>, side: Side)
    ensures All([x] + a + b, side) == [Single(x, side)] + All(a, side) + All(b, side)
  {}

  /** Leaving a directory that is read to the end changes no report to come. */
  lemma LeaveLeft(d: Differ, l: seq<Frame>, r: seq<Frame>)
    requires Linked(l) && Linked(r) && Exhausted(l) && |l| > 1 && SameDirs(l, r)
    ensures SameDirs(Below(l), r) && Ahead(d, l, r) == Ahead(d, Below(l), r)
    decreases |r|
  {
    hide Linked, Kids, Nest, PathOf, Merge;
    LinkedParts(l);
    LinkedParts(r);
    if |l| > |r| {
      NothingLeft(Top(l).b, PathOf(l), LeftOnly);
    } else if |l| == |r| {
      AllRight(d, Top(l).b, Top(r).b, Top(r).pos, PathOf(l));
      SameBelow(l, r);
    } else {
      LeaveLeft(d, l, Below(r));
    }
  }

  lemma LeaveRight(d: Differ, l: seq<Frame>, r: seq<Frame>)
    requires Linked(l) && Linked(r) && Exhausted(r) && |r| > 1 && SameDirs(l, r)
    ensures SameDirs(l, Below(r)) && Ahead(d, l, r) == Ahead(d, l, Below(r))
    decreases |l|
  {
    hide Linked, Kids, Nest, PathOf, Merge;
    LinkedParts(l);
    LinkedParts(r);
    if |l| < |r| {
      NothingLeft(Top(r).b, PathOf(r), RightOnly);
    } else if |l| == |r| {
      AllLeft(d, Top(l).b, Top(l).pos, Top(r).b, PathOf(l));
      SameBelow(l, r);
    } else {
      LeaveRight(d, Below(l), r);
    }
  }

  lemma SameBelow(l: seq<Frame>, r: seq<Frame>)
    requires Linked(l) && Linked(r) && |l| == |r| > 1 && SameDirs(l, r)
    ensures SameDirs(Below(l), Below(r)) && SameDirs(Below(l), r) && SameDirs(l, Below(r))
  {}

  lemma NothingLeft(b: Block, path: seq<Name>, side: Side)
    ensures All(Pre(b, |b.entries|, path), side) == []
  {}

  lemma {:induction false} SettleLeft(d: Differ, l: seq<Frame>, r: seq<Frame>)
    requires Linked(l) && Linked(r) && SameDirs(l, r)
    ensures SameDirs(Left(l), r) && Ahead(d, Left(l), r) == Ahead(d, l, r)
    decreases |l|
  {
    hide Linked, SameDirs, Ahead;
    LinkedParts(l);
    LeftStep(l);
    if !Exhausted(l) || |l| == 1 {
    } else {
      LeaveLeft(d, l, r);
      SettleLeft(d, Below(l), r);
    }
  }

  lemma {:induction false} SettleRight(d: Differ, l: seq<Frame>, r: seq<Frame>)
    requires Linked(l) && Linked(r) && SameDirs(l, r)
    ensures SameDirs(l, Left(r)) && Ahead(d, l, Left(r)) == Ahead(d, l, r)
    decreases |r|
  {
    hide Linked, SameDirs, Ahead;
    LinkedParts(r);
    LeftStep(r);
    if !Exhausted(r) || |r| == 1 {
    } else {
      LeaveRight(d, l, r);
      SettleRight(d, l, Below(r));
    }
  }

  // ---------- one report ----------

  ghost function NameAt(s: seq<Frame>): Name
    requires Linked(s) && !Exhausted(s)
  { Top(s).b.entries[Top(s).pos].name }

  ghost function KidsAt(s: seq<Frame>): seq<Item>
    requires Linked(s) && !Exhausted(s)
  { PreKids(Top(s).b, Top(s).pos, PathOf(s)) }

  /** A directory that is entered on one side only. */
  lemma EnterLeft(d: Differ, l: seq<Frame>, r: seq<Frame>)
    requires Linked(l) && Linked(r) && !Exhausted(l) && |l| >= |r| && SameDirs(Passed(l), r)
    ensures SameDirs(Entered(l), r)
    ensures Ahead(d, Entered(l), r) == All(KidsAt(l), LeftOnly) + Ahead(d, Passed(l), r)
  {
    hide Linked, Kids, Nest, PathOf, Merge, Entered, Passed, Pre;
    LinkedParts(l);
    var t, e := Top(l), Entered(l);
    if Kids(t.b, t.pos).Some? {
      EnteredPath(l);
    } else {
      assert [] + Ahead(d, e, r) == Ahead(d, e, r);
    }
  }

  lemma EnterRight(d: Differ, l: seq<Frame>, r: seq<Frame>)
    requires Linked(l) && Linked(r) && !Exhausted(r) && |r| >= |l| && SameDirs(l, Passed(r))
    ensures SameDirs(l, Entered(r))
    ensures Ahead(d, l, Entered(r)) == All(KidsAt(r), RightOnly) + Ahead(d, l, Passed(r))
  {
    hide Linked, Kids, Nest, PathOf, Merge, Entered, Passed, Pre;
    LinkedParts(r);
    var t, e := Top(r), Entered(r);
    if Kids(t.b, t.pos).Some? {
      EnteredPath(r);
    } else {
      assert [] + Ahead(d, l, e) == Ahead(d, l, e);
    }
  }

  /** Whose entry is reported next. */
  ghost predicate LeftTurn(d: Differ, l: seq<Frame>, r: seq<Frame>)
    requires Linked(l) && Linked(r)
  {
    !Exhausted(l) && (|l| > |r| ||
      (|l| == |r| && Turn(d, Top(l).b, Top(l).pos, Top(r).b, Top(r).pos).LeftOnly?))
  }

  ghost predicate RightTurn(d: Differ, l: seq<Frame>, r: seq<Frame>)
    requires Linked(l) && Linked(r)
  {
    !Exhausted(r) && (|l| < |r| ||
      (|l| == |r| && Turn(d, Top(l).b, Top(l).pos, Top(r).b, Top(r).pos).RightOnly?))
  }

  lemma StepLeft(d: Differ, l: seq<Frame>, r: seq<Frame>)
    requires Linked(l) && Linked(r) && SameDirs(l, r) && LeftTurn(d, l, r)
    ensures SameDirs(Entered(l), r)
    ensures Ahead(d, l, r) == [Single(ItemAt(l), LeftOnly)] + Ahead(d, Entered(l), r)
  {
    hide Linked, Kids, Nest, PathOf, Entered, Passed, PreKids, Todo;
    LinkedParts(l);
    LinkedParts(r);
    PassedTodo(l);
    var t, p := Top(l), Passed(l);
    EnterLeft(d, l, r);
    var head := [Single(ItemAt(l), LeftOnly)];
    var rest := if |l| == 1 then [] else Ahead(d, Below(l), if |l| > |r| then r else Below(r));
    if |l| > |r| {
      AllJoin(ItemAt(l), KidsAt(l), Pre(t.b, t.pos + 1, PathOf(l)), LeftOnly);
      Regroup(head, All(KidsAt(l), LeftOnly), All(Pre(t.b, t.pos + 1, PathOf(l)), LeftOnly), rest);
    } else {
      Regroup(head, All(KidsAt(l), LeftOnly), Merge(d, t.b, t.pos + 1, Top(r).b, Top(r).pos, PathOf(l)), rest);
    }
  }

  lemma StepRight(d: Differ, l: seq<Frame>, r: seq<Frame>)
    requires Linked(l) && Linked(r) && SameDirs(l, r) && RightTurn(d, l, r)
    ensures SameDirs(l, Entered(r))
    ensures Ahead(d, l, r) == [Single(ItemAt(r), RightOnly)] + Ahead(d, l, Entered(r))
  {
    hide Linked, Kids, Nest, PathOf, Entered, Passed, PreKids, Todo;
    LinkedParts(l);
    LinkedParts(r);
    PassedTodo(r);
    var t, p := Top(r), Passed(r);
    EnterRight(d, l, r);
    var head := [Single(ItemAt(r), RightOnly)];
    var rest := if |r| == 1 then [] else Ahead(d, if |r| > |l| then l else Below(l), Below(r));
    if |r| > |l| {
      AllJoin(ItemAt(r), KidsAt(r), Pre(t.b, t.pos + 1, PathOf(r)), RightOnly);
      Regroup(head, All(KidsAt(r), RightOnly), All(Pre(t.b, t.pos + 1, PathOf(r)), RightOnly), rest);
    } else {
      Regroup(head, All(KidsAt(r), RightOnly), Merge(d, Top(l).b, Top(l).pos, t.b, t.pos + 1, PathOf(l)), rest);
    }
  }

  lemma Regroup(a: seq<Report>, b: seq<Report>, c: seq<Report>, e: seq<Report>)
    ensures ((a + b) + c) + e == a + (b + (c + e))
  {}

  /** The report on the entries at the top of two stacks of the same height. */
  ghost function BothAt(d: Differ, l: seq<Frame>, r: seq<Frame>): Report
    requires Linked(l) && Linked(r) && !Exhausted(l) && !Exhausted(r)
  {
    var t, u := Top(l), Top(r);
    Both(PathOf(l) + [NameAt(l)], t.b, t.pos, u.b, u.pos, Turn(d, t.b, t.pos, u.b, u.pos))
  }

  /** Entries of the same name are reported together, and their directories entered together. */
  lemma StepBoth(d: Differ, l: seq<Frame>, r: seq<Frame>)
    requires Linked(l) && Linked(r) && SameDirs(l, r) && |l| == |r| && !Exhausted(l) && !Exhausted(r)
    requires NameAt(l) == NameAt(r)
    ensures SameDirs(Entered(l), Entered(r))
    ensures Ahead(d, l, r) == [BothAt(d, l, r)] + Ahead(d, Entered(l), Entered(r))
  {
    hide Linked, Kids, Nest, PathOf, Entered, Passed, PreKids, Todo, Pre;
    LinkedParts(l);
    LinkedParts(r);
    PassedTodo(l);
    PassedTodo(r);
    OrderEqual(NameAt(l), NameAt(r));
    var t, u, pl, pr := Top(l), Top(r), Passed(l), Passed(r);
    assert SameDirs(pl, pr);
    var head := [BothAt(d, l, r)];
    var kids := MergeKids(d, t.b, t.pos, u.b, u.pos, PathOf(l));
    Regroup(head, kids, Merge(d, t.b, t.pos + 1, u.b, u.pos + 1, PathOf(l)), AheadBelow(d, l, r));
    BothKids(d, l, r);
  }

  lemma BothKids(d: Differ, l: seq<Frame>, r: seq<Frame>)
    requires Linked(l) && Linked(r) && |l| == |r| && !Exhausted(l) && !Exhausted(r)
    requires SameDirs(Passed(l), Passed(r)) && PathOf(l) == PathOf(r) && NameAt(l) == NameAt(r)
    ensures SameDirs(Entered(l), Entered(r))
    ensures Ahead(d, Entered(l), Entered(r))
      == MergeKids(d, Top(l).b, Top(l).pos, Top(r).b, Top(r).pos, PathOf(l)) + Ahead(d, Passed(l), Passed(r))
  {
    hide Linked, Kids, Nest, PathOf, Entered, Passed, Todo, Pre, Merge;
    LinkedParts(l);
    LinkedParts(r);
    var a, b := Kids(Top(l).b, Top(l).pos), Kids(Top(r).b, Top(r).pos);
    if a.Some? { EnteredPath(l); }
    if b.Some? { EnteredPath(r); }
    if a.None? && b.None? { assert [] + Ahead(d, Passed(l), Passed(r)) == Ahead(d, Passed(l), Passed(r)); }
  }

  lemma NothingAhead(d: Differ, l: seq<Frame>, r: seq<Frame>)
    requires Linked(l) && Linked(r) && |l| == |r| == 1 && Exhausted(l) && Exhausted(r)
    ensures Ahead(d, l, r) == []
  {}

  // ---------- the two cursors ----------

  const EMPTY: Block := Block(0, [])

  function OrEmpty(b: Option<Block>): Block { if b.None? then EMPTY else b.value }

  /** The frames of a cursor that looks at its next entry, or is through. */
  ghost function Facing(c: Cursor, root: Block): (s: seq<Frame>)
    requires c.Valid() && (c.cur.Some? ==> c.curblock.In?)
    reads c, c.blockStk, c.entStk
  { if c.cur.Some? then c.At() else [Frame(root, |root.entries|)] }

  ghost predicate Good(c: Cursor, root: Block)
    reads c, c.blockStk, c.entStk
  {
    && c.Valid() && (c.cur.Some? ==> c.curblock.In?)
    && Linked(Facing(c, root)) && Facing(c, root)[0].b == root
    && (c.cur.None? <==> Exhausted(Facing(c, root))) && (c.cur.None? ==> c.depth == 0)
  }

  lemma {:induction false} LeftBase(s: seq<Frame>)
    requires Linked(s)
    ensures Left(s)[0] == s[0]
    decreases |s|
  {
    if !Exhausted(s) || |s| == 1 {
    } else {
      LeftBase(Below(s));
    }
  }

  /** A cursor looks at an entry, or at none; whatever it has passed before. */
  ghost predicate Ready(c: Cursor)
    reads c, c.blockStk, c.entStk
  {
    && c.Valid()
    && (c.cur.Some? ==> c.curblock.In? && Linked(c.At()) && !Exhausted(c.At()))
  }

  /** How many entries it can still pass. */
  ghost function Rest(c: Cursor): nat
    requires Ready(c)
    reads c, c.blockStk, c.entStk
  { if c.cur.None? then 0 else |FnTree.Todo(c.At())| }

  ghost function EntryOf(c: Cursor): Entry
    requires Ready(c) && c.cur.Some?
    reads c, c.blockStk, c.entStk
  { Top(c.At()).b.entries[Top(c.At()).pos] }

  lemma GoodReady(c: Cursor, root: Block)
    requires Good(c, root)
    ensures Ready(c)
  {}

  lemma RestPositive(c: Cursor)
    requires Ready(c) && c.cur.Some?
    ensures Rest(c) > 0 && Rest(c) == 1 + |FnTree.Todo(Entered(c.At()))|
    ensures c.cur.value < |c.curblock.b.entries| && EntryOf(c) == c.curblock.b.entries[c.cur.value]
  {
    hide Linked, Kids, Nest, Entered, FnTree.Todo;
    LinkedParts(c.At());
    EnteredTodo(c.At());
    assert Top(c.At()) == Frame(c.curblock.b, c.cur.value);
  }

  /** `fntree_cmp` */
  class Compare {
    const lc: Cursor
    const rc: Cursor
    const differ: Differ
    ghost const lroot: Block
    ghost const rroot: Block

    ghost predicate Valid()
      reads lc, lc.blockStk, lc.entStk, rc, rc.blockStk, rc.entStk
    {
      && lc != rc && lc.blockStk != rc.blockStk && lc.entStk != rc.entStk
      && Good(lc, lroot) && Good(rc, rroot)
      && SameDirs(Facing(lc, lroot), Facing(rc, rroot))
    }

    /** Both cursors can be looked at, though one may be lost. */
    ghost predicate Usable()
      reads lc, lc.blockStk, lc.entStk, rc, rc.blockStk, rc.entStk
    {
      lc != rc && lc.blockStk != rc.blockStk && lc.entStk != rc.entStk && Ready(lc) && Ready(rc)
    }

    /** How many more calls there can be. */
    ghost function Calls(): nat
      requires Usable()
      reads lc, lc.blockStk, lc.entStk, rc, rc.blockStk, rc.entStk
    { Rest(lc) + Rest(rc) }

    /** A cursor could not go into a directory. */
    ghost predicate Lost()
      reads lc, rc
    { (lc.cur.None? && lc.depth == LEVELS) || (rc.cur.None? && rc.depth == LEVELS) }

    /** What the other cursor can still show then: what is left in its block, if that is as
        deep. */
    ghost function Extra(): seq<Row>
      requires Usable() && Lost()
      reads lc, lc.blockStk, lc.entStk, rc, rc.blockStk, rc.entStk
    { if lc.cur.None? && lc.depth == LEVELS then Alone(RightOnly, TailOf(rc)) else Alone(LeftOnly, TailOf(lc)) }

    lemma FullBoth()
      requires Valid()
      ensures lc.depth <= LEVELS && rc.depth <= LEVELS
      ensures lc.cur.Some? ==>
        && lc.curblock.In? && lc.cur.value < |lc.curblock.b.entries|
        && (lc.Full(lroot) <==> lc.depth == LEVELS && Kids(lc.curblock.b, lc.cur.value).Some?)
      ensures rc.cur.Some? ==>
        && rc.curblock.In? && rc.cur.value < |rc.curblock.b.entries|
        && (rc.Full(rroot) <==> rc.depth == LEVELS && Kids(rc.curblock.b, rc.cur.value).Some?)
    {
      hide Kids, Nest, Linked;
      if lc.cur.Some? { FullIs(lc, lroot); }
      if rc.cur.Some? { FullIs(rc, rroot); }
    }

    lemma ValidUsable()
      requires Valid()
      ensures Usable()
    {
      GoodReady(lc, lroot);
      GoodReady(rc, rroot);
    }

    ghost function Todo(): seq<Report>
      requires Valid()
      reads lc, lc.blockStk, lc.entStk, rc, rc.blockStk, rc.entStk
    { Ahead(differ, Facing(lc, lroot), Facing(rc, rroot)) }

    /** `fntree_cmp_init` on a zeroed object; a tree may be missing. */
    constructor (lb: Option<Block>, rb: Option<Block>, d: Differ)
      ensures Valid() && differ == d && lroot == OrEmpty(lb) && rroot == OrEmpty(rb)
      ensures fresh(lc) && fresh(lc.blockStk) && fresh(lc.entStk) && fresh(rc) && fresh(rc.blockStk) && fresh(rc.entStk)
      ensures Todo() == Merge(d, OrEmpty(lb), 0, OrEmpty(rb), 0, [])
    {
      hide Nest, Kids, Merge;
      differ := d;
      lroot, rroot := OrEmpty(lb), OrEmpty(rb);
      var l := new Cursor();
      var r := new Cursor();
      lc, rc := l, r;
      new;
      Face(lc, lb);
      Face(rc, rb);
      Opening(d, Facing(lc, lroot), Facing(rc, rroot));
    }

    /** The verdict of `fntree_cmp_next`: the deeper cursor goes first, so that it leaves
        the directory the other one is not in. */
    method Choose() returns (i: Option<Side>)
      requires Usable()
      ensures Found(i) && Passes(i)
      ensures Valid() ==> Chosen(i, differ, Facing(lc, lroot), Facing(rc, rroot))
    {
      hide Ready, EntryOf, Valid, Chosen;
      Looking();
      var l1, r1 := lc.cur, rc.cur;
      if lc.depth < rc.depth {
        l1 := None;
      } else if lc.depth > rc.depth {
        r1 := None;
      }
      if l1.None? {
        i := if r1.Some? then Some(RightOnly) else None;
      } else if r1.None? {
        i := Some(LeftOnly);
      } else {
        var el, er := lc.curblock.b.entries[l1.value], rc.curblock.b.entries[r1.value];
        OrderEqual(el.name, er.name);
        var o := CompareNames(el.name, er.name);
        i := Some(if o < 0 then LeftOnly else if o > 0 then RightOnly else if differ(el, er) then Different else Equal);
      }
      FoundChosen(i);
    }

    /** The entries the cursors look at. */
    lemma Looking()
      requires Usable()
      ensures lc.cur.Some? ==>
        lc.curblock.In? && lc.cur.value < |lc.curblock.b.entries| && EntryOf(lc) == lc.curblock.b.entries[lc.cur.value]
      ensures rc.cur.Some? ==>
        rc.curblock.In? && rc.cur.value < |rc.curblock.b.entries| && EntryOf(rc) == rc.curblock.b.entries[rc.cur.value]
    {
      hide Linked, EntryOf, Rest;
      if lc.cur.Some? { RestPositive(lc); }
      if rc.cur.Some? { RestPositive(rc); }
    }

    lemma FoundChosen(i: Option<Side>)
      requires Usable() && Found(i)
      ensures Passes(i)
      ensures Valid() ==> Chosen(i, differ, Facing(lc, lroot), Facing(rc, rroot))
    {
      hide Linked, Nest, Kids, Ahead, SameDirs, Left, PathOf;
      if Valid() {
        FacingTop(lc, lroot);
        FacingTop(rc, rroot);
        if lc.cur.Some? && rc.cur.Some? { OrderEqual(EntryOf(lc).name, EntryOf(rc).name); }
      }
    }

    /** A report is about an entry that a cursor looks at. */
    ghost predicate Passes(i: Option<Side>)
      reads lc, rc
    {
      i.Some? ==> (!i.value.RightOnly? ==> lc.cur.Some?) && (!i.value.LeftOnly? ==> rc.cur.Some?)
    }

    /** The verdict as the code finds it. */
    ghost predicate Found(i: Option<Side>)
      requires Usable()
      reads lc, lc.blockStk, lc.entStk, rc, rc.blockStk, rc.entStk
    {
      var l, r := lc.cur.Some? && lc.depth >= rc.depth, rc.cur.Some? && rc.depth >= lc.depth;
      if !l then i == (if r then Some(RightOnly) else None)
      else if !r then i == Some(LeftOnly)
      else i == Some(Verdict(differ, EntryOf(lc), EntryOf(rc)))
    }

    /** `fntree_cmp_next`: the next report; None is DONE.  `l` and `r` are the entries the
        two cursors look at, in the blocks `lb` and `rb`, whether the report is about them or
        not.  The comparison goes on if and only if no cursor has to go into a directory for
        which its stack has no place; there a cursor is lost.  The calls come to an end, also
        with a lost cursor. */
    method Next() returns (i: Option<Side>, l: Option<nat>, r: Option<nat>, lb: Where, rb: Where, ghost path: seq<Name>)
      requires Usable()
      modifies lc, lc.blockStk, lc.entStk, rc, rc.blockStk, rc.entStk
      ensures l == old(lc.cur) && r == old(rc.cur) && lb == old(lc.curblock) && rb == old(rc.curblock)
      ensures Usable() && (i.Some? ==> Calls() < old(Calls()))
      ensures old(Valid()) ==> (i.None? <==> old(Todo()) == [])
      ensures old(Valid()) && i.Some? ==>
        && Tells(old(Todo())[0], i.value, path, l, lb, r, rb)
        && |path| == 1 + (if i.value.RightOnly? then old(rc.depth) else old(lc.depth))
        && (i.value.Equal? || i.value.Different? ==> old(lc.depth) == old(rc.depth))
      ensures old(Valid()) ==>
        (old(lc.Full(lroot)) ==> i == Some(RightOnly)) && (old(rc.Full(rroot)) ==> i == Some(LeftOnly)) ==>
        Valid() && Todo() == if i.None? then [] else old(Todo())[1..]
      ensures old(Valid()) && old(lc.Full(lroot)) && i != Some(RightOnly) ==>
        lc.cur == None && lc.depth == LEVELS && !Valid()
      ensures old(Valid()) && old(rc.Full(rroot)) && i != Some(LeftOnly) ==>
        rc.cur == None && rc.depth == LEVELS && !Valid()
      ensures old(Lost()) ==> Lost() && (i.None? <==> old(Extra()) == [])
      ensures old(Lost()) && i.Some? ==> old(Extra()) == [Told(i.value, l, lb, r, rb)] + Extra()
    {
      hide Linked, Nest, Kids, Ahead, SameDirs, Left, Entered, Turn, PathOf, Facing, Chosen, Moved, Single, BothAt;
      hide Rest, Ready, FnTree.Todo, TailOf, Extra, Alone, Found;
      l, r, lb, rb := lc.cur, rc.cur, lc.curblock, rc.curblock;
      i := Choose();
      path := [];
      ghost var lost, tail, extra := Lost(), [], [];
      if lost {
        extra := Extra();
        LostChoice(i);
        if i.Some? {
          tail := TailOf(if i.value.RightOnly? then rc else lc);
        }
      }
      if Valid() {
        ghost var sl, sr := Facing(lc, lroot), Facing(rc, rroot);
        FacingTop(lc, lroot);
        FacingTop(rc, rroot);
        ghost var x := Reported(i, differ, sl, sr);
        path := x.path;
      }
      Move(i);
      if lost && i.Some? {
        LostMoved(i.value, if i.value.RightOnly? then (rb.b, r.value) else (lb.b, l.value), tail, extra);
      }
    }

    /** With a lost cursor only the other one is looked at, while it is as deep. */
    lemma LostChoice(i: Option<Side>)
      requires Usable() && Lost() && Found(i)
      ensures i.None? <==> Extra() == []
      ensures i.Some? ==> i == if lc.cur.None? then Some(RightOnly) else Some(LeftOnly)
      ensures i.Some? ==>
        if i.value.RightOnly? then
          rc.cur.Some? && rc.curblock.In? && rc.depth == LEVELS && Extra() == Alone(RightOnly, TailOf(rc))
        else
          lc.cur.Some? && lc.curblock.In? && lc.depth == LEVELS && Extra() == Alone(LeftOnly, TailOf(lc))
    {
      hide Linked, Nest, Kids, TailOf;
      TailSome(lc);
      TailSome(rc);
    }

    lemma ExtraStraggles()
      requires Usable() && Lost()
      ensures Straggling(Extra())
    {
      hide Linked, Straggling;
      if lc.cur.None? && lc.depth == LEVELS { TailStraggles(RightOnly, rc); } else { TailStraggles(LeftOnly, lc); }
    }

    /** After the call the rest of that is left. */
    lemma LostMoved(side: Side, ref: Ref, tail: seq<Ref>, extra: seq<Row>)
      requires Usable() && (side.RightOnly? || side.LeftOnly?) && extra == Alone(side, tail)
      requires if side.RightOnly? then lc.cur.None? && lc.depth == LEVELS && tail == [ref] + TailOf(rc)
               else rc.cur.None? && rc.depth == LEVELS && tail == [ref] + TailOf(lc)
      ensures Lost() && extra == [AloneOne(side, ref)] + Extra()
    {
      hide Ready, Tail;
      assert ([ref] + TailOf(rc))[1..] == TailOf(rc) && ([ref] + TailOf(lc))[1..] == TailOf(lc);
    }

    /** What the two stacks are to become. */
    lemma MovedIs(valid: bool, i: Option<Side>)
      requires valid ==> Valid() && Chosen(i, differ, Facing(lc, lroot), Facing(rc, rroot))
      ensures valid ==>
        && var sl, sr := Facing(lc, lroot), Facing(rc, rroot);
        var l, r := i != Some(RightOnly) && lc.cur.Some?, i != Some(LeftOnly) && rc.cur.Some?;
        && Moved(sl, i.Some? && !i.value.RightOnly?) == (if l then Left(Entered(sl)) else sl)
        && Moved(sr, i.Some? && !i.value.LeftOnly?) == (if r then Left(Entered(sr)) else sr)
    {
      hide Linked, Nest, Kids, Ahead, SameDirs, Left, Entered, Turn, PathOf;
    }

    /** The cursors pass what is reported. */
    method Move(i: Option<Side>)
      requires Usable() && Passes(i)
      requires Valid() ==> Chosen(i, differ, Facing(lc, lroot), Facing(rc, rroot))
      modifies lc, lc.blockStk, lc.entStk, rc, rc.blockStk, rc.entStk
      ensures Usable() && (i.Some? ==> Calls() < old(Calls()))
      ensures old(Valid()) && (old(lc.Full(lroot)) ==> i == Some(RightOnly)) ==>
        && Good(lc, lroot)
        && Facing(lc, lroot) == Moved(old(Facing(lc, lroot)), i.Some? && !i.value.RightOnly?)
      ensures old(Valid()) && old(lc.Full(lroot)) && i != Some(RightOnly) ==> lc.cur == None && lc.depth == LEVELS
      ensures old(Valid()) && (old(rc.Full(rroot)) ==> i == Some(LeftOnly)) ==>
        && Good(rc, rroot)
        && Facing(rc, rroot) == Moved(old(Facing(rc, rroot)), i.Some? && !i.value.LeftOnly?)
      ensures old(Valid()) && old(rc.Full(rroot)) && i != Some(LeftOnly) ==> rc.cur == None && rc.depth == LEVELS
      ensures i == Some(RightOnly) || old(lc.cur).None? ==> lc.cur == old(lc.cur) && lc.depth == old(lc.depth)
      ensures i == Some(RightOnly) && old(rc.depth) == LEVELS ==>
        old(TailOf(rc)) == [(old(rc.curblock.b), old(rc.cur.value))] + TailOf(rc)
      ensures i == Some(LeftOnly) || old(rc.cur).None? ==> rc.cur == old(rc.cur) && rc.depth == old(rc.depth)
      ensures i == Some(LeftOnly) && old(lc.depth) == LEVELS ==>
        old(TailOf(lc)) == [(old(lc.curblock.b), old(lc.cur.value))] + TailOf(lc)
    {
      hide Linked, Nest, Kids, Ahead, SameDirs, Left, Entered, Turn, PathOf, Facing, FnTree.Todo, Moved, Rest, Chosen;
      hide TailOf;
      MovedIs(Valid(), i);
      if i != Some(RightOnly) && lc.cur.Some? {
        Advance(lc, lroot);
      }
      if i != Some(LeftOnly) && rc.cur.Some? {
        Advance(rc, rroot);
      }
    }
  }

  /** What the choice of a side says about the two stacks. */
  ghost predicate Chosen(i: Option<Side>, d: Differ, l: seq<Frame>, r: seq<Frame>)
    requires Linked(l) && Linked(r)
  {
    if i.None? then |l| == |r| == 1 && Exhausted(l) && Exhausted(r)
    else if i.value.LeftOnly? then LeftTurn(d, l, r)
    else if i.value.RightOnly? then RightTurn(d, l, r)
    else
      && |l| == |r| && !Exhausted(l) && !Exhausted(r) && NameAt(l) == NameAt(r)
      && i.value == Turn(d, Top(l).b, Top(l).pos, Top(r).b, Top(r).pos)
  }

  /** What the caller gets tells the report: the side, and of each side that has the path
      the entry, which has the last name of the path. */
  ghost predicate Tells(x: Report, side: Side, path: seq<Name>, l: Option<nat>, lb: Where, r: Option<nat>, rb: Where) {
    && SideOf(x) == side && x.path == path
    && (!side.RightOnly? ==> l.Some? && lb.In? && x.l == (lb.b, l.value) && Named(path, lb.b, l.value))
    && (!side.LeftOnly? ==> r.Some? && rb.In? && x.r == (rb.b, r.value) && Named(path, rb.b, r.value))
  }

  ghost predicate Named(path: seq<Name>, b: Block, i: nat) {
    i < |b.entries| && path != [] && path[|path| - 1] == b.entries[i].name
  }

  /** The stacks after the report. */
  ghost function Moved(s: seq<Frame>, moves: bool): (r: seq<Frame>)
    requires Linked(s)
    ensures Linked(r)
  { if moves && !Exhausted(s) then Left(Entered(s)) else s }

  lemma Reported(i: Option<Side>, d: Differ, l: seq<Frame>, r: seq<Frame>) returns (x: Report)
    requires Linked(l) && Linked(r) && SameDirs(l, r) && Chosen(i, d, l, r)
    ensures var l', r' := Moved(l, i.Some? && !i.value.RightOnly?), Moved(r, i.Some? && !i.value.LeftOnly?);
      SameDirs(l', r') &&
      if i.None? then Ahead(d, l, r) == Ahead(d, l', r') == []
      else Ahead(d, l, r) == [x] + Ahead(d, l', r')
    ensures i.Some? ==> SideOf(x) == i.value && |x.path| == if i.value.RightOnly? then |r| else |l|
    ensures i.Some? && (i.value.Equal? || i.value.Different?) ==> |l| == |r|
    ensures i.Some? && !i.value.RightOnly? ==>
      !Exhausted(l) && x.l == (Top(l).b, Top(l).pos) && Named(x.path, Top(l).b, Top(l).pos)
    ensures i.Some? && !i.value.LeftOnly? ==>
      !Exhausted(r) && x.r == (Top(r).b, Top(r).pos) && Named(x.path, Top(r).b, Top(r).pos)
  {
    hide Linked, Nest, Kids, Ahead, SameDirs, Left, Entered, Turn, PathOf, Single, BothAt, SideOf, Named;
    x := Single(Item([], EMPTY, 0), LeftOnly);
    if i.None? {
      NothingAhead(d, l, r);
    } else if i.value.LeftOnly? {
      StepLeft(d, l, r);
      SettleLeft(d, Entered(l), r);
      TellsSingle(l, LeftOnly);
      x := Single(ItemAt(l), LeftOnly);
    } else if i.value.RightOnly? {
      StepRight(d, l, r);
      SettleRight(d, l, Entered(r));
      TellsSingle(r, RightOnly);
      x := Single(ItemAt(r), RightOnly);
    } else {
      StepBoth(d, l, r);
      SettleLeft(d, Entered(l), Entered(r));
      SettleRight(d, Left(Entered(l)), Entered(r));
      TellsBoth(d, l, r);
      x := BothAt(d, l, r);
    }
  }

  lemma TellsSingle(s: seq<Frame>, side: Side)
    requires Linked(s) && !Exhausted(s) && (side.LeftOnly? || side.RightOnly?)
    ensures var x := Single(ItemAt(s), side);
      && SideOf(x) == side && Named(x.path, Top(s).b, Top(s).pos) && |x.path| == |s|
      && (side.LeftOnly? ==> x.l == (Top(s).b, Top(s).pos)) && (side.RightOnly? ==> x.r == (Top(s).b, Top(s).pos))
  {
    hide Linked, Kids, Nest, PathOf;
    LinkedParts(s);
    PathLength(s);
  }

  lemma TellsBoth(d: Differ, l: seq<Frame>, r: seq<Frame>)
    requires Linked(l) && Linked(r) && !Exhausted(l) && !Exhausted(r) && NameAt(l) == NameAt(r)
    ensures var x := BothAt(d, l, r);
      && x.InBoth? && |x.path| == |l| && x.l == (Top(l).b, Top(l).pos) && x.r == (Top(r).b, Top(r).pos)
      && SideOf(x) == Turn(d, Top(l).b, Top(l).pos, Top(r).b, Top(r).pos)
      && Named(x.path, Top(l).b, Top(l).pos) && Named(x.path, Top(r).b, Top(r).pos)
  {
    hide Linked, Kids, Nest, PathOf;
    LinkedParts(l);
    LinkedParts(r);
    PathLength(l);
    OrderEqual(NameAt(l), NameAt(r));
  }

  /** What `fntree_cmp_init` does with each cursor. */
  method Face(c: Cursor, b: Option<Block>)
    requires c.Valid() && c.cur == None && c.curblock == NoBlock && c.depth == 0
    modifies c
    ensures Good(c, OrEmpty(b)) && Facing(c, OrEmpty(b)) == [Frame(OrEmpty(b), 0)]
  {
    if b.Some? {
      var e := c.Next(b.value);
      c.curblock := In(b.value);
    }
    assert c.Stack() == [];
    assert Facing(c, OrEmpty(b)) == [Frame(OrEmpty(b), 0)];
  }

  lemma Opening(d: Differ, l: seq<Frame>, r: seq<Frame>)
    requires Linked(l) && Linked(r) && |l| == |r| == 1
    ensures SameDirs(l, r) && Ahead(d, l, r) == Merge(d, Top(l).b, Top(l).pos, Top(r).b, Top(r).pos, [])
  {}

  lemma FacingTop(c: Cursor, root: Block)
    requires Good(c, root)
    ensures var s := Facing(c, root);
      && |s| == c.depth + 1
      && (c.cur.Some? ==> Top(s) == Frame(c.curblock.b, c.cur.value) && c.cur.value < |c.curblock.b.entries|)
  {}

  /** What a cursor still passes when it cannot go deeper: the entries of its block up to one
      with a block attached. */
  ghost function Tail(b: Block, i: nat): seq<Ref>
    requires i <= |b.entries|
    decreases |b.entries| - i
  {
    if i == |b.entries| then [] else [(b, i)] + if Kids(b, i).Some? then [] else Tail(b, i + 1)
  }

  function AloneOne(side: Side, ref: Ref): Row {
    if side.LeftOnly? then Row(side, Some(ref), None) else Row(side, None, Some(ref))
  }

  /** Entries of one side alone. */
  ghost function Alone(side: Side, refs: seq<Ref>): seq<Row> {
    if refs == [] then [] else [AloneOne(side, refs[0])] + Alone(side, refs[1..])
  }

  /** What a cursor at the last level still passes there. */
  ghost function TailOf(c: Cursor): seq<Ref>
    requires Ready(c)
    reads c, c.blockStk, c.entStk
  {
    if c.cur.Some? && c.depth == LEVELS then Tail(Top(c.At()).b, Top(c.At()).pos) else []
  }

  /** Takes a cursor past the entry it looks at, if the stack has a place for what is inside. */
  method Advance(c: Cursor, ghost root: Block)
    requires Ready(c) && c.cur.Some?
    modifies c, c.blockStk, c.entStk
    ensures Ready(c) && Rest(c) < old(Rest(c))
    ensures old(c.depth) == LEVELS ==> old(TailOf(c)) == [(old(c.curblock.b), old(c.cur.value))] + TailOf(c)
    ensures old(Good(c, root)) ==> Linked(old(Facing(c, root))) && !Exhausted(old(Facing(c, root)))
    ensures old(Good(c, root)) && !old(c.Full(root)) ==>
      Good(c, root) && Facing(c, root) == Left(Entered(old(Facing(c, root))))
    ensures old(Good(c, root)) && old(c.Full(root)) ==> c.cur == None && c.depth == LEVELS
  {
    hide Linked, Nest, Kids, Left, Entered, FnTree.Todo, Tail;
    ghost var s, full := c.At(), c.Full(root);
    RestPositive(c);
    c.OnwardEntered(c.curblock.b);
    ghost var t := Entered(s);
    LeftBase(t);
    EnteredBase(s);
    LeftTodo(t);
    LinkedParts(Left(t));
    AfterTail(s);
    var e, dir := c.NextR(c.curblock.b);
    c.cur := e;
    if !full && e.None? && s[0].b == root { OnlyBase(Left(t), root); }
  }

  lemma TailSome(c: Cursor)
    requires Ready(c)
    ensures TailOf(c) == [] <==> c.cur.None? || c.depth < LEVELS
  {
    hide Linked, Nest, Kids;
  }

  lemma TailNext(b: Block, i: nat)
    requires i < |b.entries|
    ensures Tail(b, i) == [(b, i)] + if Kids(b, i).Some? then [] else Tail(b, i + 1)
    ensures [(b, i)] + [] == [(b, i)] && Tail(b, |b.entries|) == []
  {}

  /** At the last level a cursor is lost, or goes on in its block, or leaves it. */
  lemma AfterTail(s: seq<Frame>)
    requires Linked(s) && !Exhausted(s)
    ensures var b, i, t := Top(s).b, Top(s).pos, Left(Entered(s));
      && i < |b.entries| && (Kids(b, i).Some? ==> Tail(b, i) == [(b, i)])
      && (Kids(b, i).None? ==>
        Tail(b, i) == [(b, i)] + if |t| == |s| && !Exhausted(t) then Tail(Top(t).b, Top(t).pos) else [])
      && (Kids(b, i).None? ==> |t| <= |s|)
  {
    hide *;
    LinkedParts(s);
    TopInside(s);
    var b, i := Top(s).b, Top(s).pos;
    TailNext(b, i);
    if Kids(b, i).None? {
      PassedTop(s);
      LeftShorter(Entered(s));
      BaseTail(Entered(s));
    }
  }

  lemma TopInside(s: seq<Frame>)
    requires Linked(s) && !Exhausted(s)
    ensures Top(s).pos < |Top(s).b.entries|
  {
    hide Linked;
    LinkedParts(s);
  }

  lemma PassedTop(s: seq<Frame>)
    requires Linked(s) && !Exhausted(s) && Top(s).pos < |Top(s).b.entries| && Kids(Top(s).b, Top(s).pos).None?
    ensures var t := Entered(s);
      && |t| == |s| && Top(t) == Frame(Top(s).b, Top(s).pos + 1)
      && (Exhausted(t) <==> Top(s).pos + 1 == |Top(s).b.entries|)
  {
    hide Linked, Nest, Kids;
    LinkedParts(s);
  }

  /** A block that is left at its end is not looked into any more. */
  lemma BaseTail(s: seq<Frame>)
    requires Linked(s)
    ensures Exhausted(s) && |Left(s)| == |s| ==> Exhausted(Left(s))
  {
    hide Linked;
    LeftShorter(s);
  }

  lemma {:induction false} LeftShorter(s: seq<Frame>)
    requires Linked(s)
    ensures |Left(s)| <= |s| && (Exhausted(s) && |s| > 1 ==> |Left(s)| < |s|)
    ensures !Exhausted(s) ==> Left(s) == s
    decreases |s|
  {
    if !Exhausted(s) || |s| == 1 {
    } else {
      LeftShorter(Below(s));
    }
  }

  lemma EnteredBase(s: seq<Frame>)
    requires Linked(s) && !Exhausted(s)
    ensures Entered(s)[0].b == s[0].b
  {}

  lemma OnlyBase(s: seq<Frame>, root: Block)
    requires Linked(s) && Exhausted(s) && |s| == 1 && s[0].b == root
    ensures s == [Frame(root, |root.entries|)]
  {}

  /** What the caller of `fntree_cmp_next` learns in one call. */
  datatype Row = Row(side: Side, l: Option<Ref>, r: Option<Ref>)

  ghost function RowOf(x: Report): Row {
    Row(SideOf(x), if x.InRight? then None else Some(x.l), if x.InLeft? then None else Some(x.r))
  }

  ghost function Rows(xs: seq<Report>): (rows: seq<Row>)
    ensures |rows| == |xs|
  { seq(|xs|, k requires 0 <= k < |xs| => RowOf(xs[k])) }

  function At(w: Where, i: Option<nat>): Option<Ref> {
    if w.In? && i.Some? then Some((w.b, i.value)) else None
  }

  function Told(side: Side, l: Option<nat>, lb: Where, r: Option<nat>, rb: Where): Row {
    Row(side, if side.RightOnly? then None else At(lb, l), if side.LeftOnly? then None else At(rb, r))
  }

  lemma RowsNone()
    ensures Rows([]) == []
  {}

  lemma RowsNext(done: seq<Report>, todo: seq<Report>)
    requires todo != []
    ensures Rows(done + [todo[0]]) == Rows(done) + [RowOf(todo[0])]
    ensures done + todo == (done + [todo[0]]) + todo[1..]
  {}

  lemma RowTold(x: Report, side: Side, path: seq<Name>, l: Option<nat>, lb: Where, r: Option<nat>, rb: Where)
    requires Tells(x, side, path, l, lb, r, rb)
    ensures RowOf(x) == Told(side, l, lb, r, rb)
  {}

  // ---------- what the reports say ----------

  /** What a report shows of one of the trees. */
  ghost function ShownOne(x: Report, left: bool): seq<Item> {
    if left then (if x.InRight? then [] else [Item(x.path, x.l.0, x.l.1)])
    else (if x.InLeft? then [] else [Item(x.path, x.r.0, x.r.1)])
  }

  ghost function Shown(xs: seq<Report>, left: bool): seq<Item> {
    if xs == [] then [] else ShownOne(xs[0], left) + Shown(xs[1..], left)
  }

  lemma {:induction false} ShownJoin(a: seq<Report>, b: seq<Report>, left: bool)
    ensures Shown(a + b, left) == Shown(a, left) + Shown(b, left)
  {
    if a == [] {
      assert a + b == b;
    } else {
      assert (a + b)[0] == a[0] && (a + b)[1..] == a[1..] + b;
      ShownJoin(a[1..], b, left);
      var h := ShownOne(a[0], left);
      assert h + (Shown(a[1..], left) + Shown(b, left)) == (h + Shown(a[1..], left)) + Shown(b, left);
    }
  }

  lemma {:induction false} ShownAll(items: seq<Item>, side: Side, left: bool)
    requires side.LeftOnly? || side.RightOnly?
    ensures Shown(All(items, side), left) == if left == side.RightOnly? then [] else items
  {
    if items == [] {
    } else {
      assert All(items, side)[1..] == All(items[1..], side);
      ShownAll(items[1..], side, left);
      assert items == [items[0]] + items[1..];
    }
  }

  lemma Split3(h: Report, a: seq<Report>, b: seq<Report>, left: bool)
    ensures Shown([h] + a + b, left) == ShownOne(h, left) + Shown(a, left) + Shown(b, left)
  {
    ShownJoin([h] + a, b, left);
    ShownJoin([h], a, left);
    assert [h][1..] == [];
    assert Shown([h], left) == ShownOne(h, left);
  }

  /** What the reports show of the left tree is the tree itself in pre-order, each entry with
      its path. */
  lemma {:induction false} MergeShowsLeft(d: Differ, l: Block, i: nat, r: Block, j: nat, path: seq<Name>)
    requires i <= |l.entries| && j <= |r.entries|
    ensures Shown(Merge(d, l, i, r, j, path), true) == Pre(l, i, path)
    decreases l, r, |l.entries| - i + |r.entries| - j
  {
    hide Kids, Shown, PreKids, MergeKids, All, Verdict;
    if i == |l.entries| && j == |r.entries| {
      Nothing(true);
    } else {
      var t := Turn(d, l, i, r, j);
      TurnName(d, l, i, r, j);
      if t.RightOnly? {
        MergeShowsLeft(d, l, i, r, j + 1, path);
        ShownAll(PreKids(r, j, path), t, true);
        var h := Single(Item(path + [r.entries[j].name], r, j), t);
        Split3(h, All(PreKids(r, j, path), t), Merge(d, l, i, r, j + 1, path), true);
        assert [] + [] + Pre(l, i, path) == Pre(l, i, path);
      } else if t.LeftOnly? {
        MergeShowsLeft(d, l, i + 1, r, j, path);
        ShownAll(PreKids(l, i, path), t, true);
        var h := Single(Item(path + [l.entries[i].name], l, i), t);
        Split3(h, All(PreKids(l, i, path), t), Merge(d, l, i + 1, r, j, path), true);
      } else {
        MergeShowsLeft(d, l, i + 1, r, j + 1, path);
        KidsShowLeft(d, l, i, r, j, path);
        var h := Both(path + [l.entries[i].name], l, i, r, j, t);
        Split3(h, MergeKids(d, l, i, r, j, path), Merge(d, l, i + 1, r, j + 1, path), true);
      }
    }
  }

  lemma {:induction false} KidsShowLeft(d: Differ, l: Block, i: nat, r: Block, j: nat, path: seq<Name>)
    requires i < |l.entries| && j < |r.entries|
    ensures Shown(MergeKids(d, l, i, r, j, path), true) == PreKids(l, i, path)
    decreases l, r, |l.entries| - i + |r.entries| - j, 0
  {
    var a, b := Kids(l, i), Kids(r, j);
    if b.None? {
      ShownAll(PreKids(l, i, path), LeftOnly, true);
    } else if a.None? {
      ShownAll(PreKids(r, j, path), RightOnly, true);
    } else {
      MergeShowsLeft(d, a.value, 0, b.value, 0, path + [l.entries[i].name]);
    }
  }

  lemma Nothing(left: bool)
    ensures Shown([], left) == []
  {}

  /** An entry of the left tree is there when it is its turn, and of the same name as the
      right one when they are reported together. */
  lemma TurnName(d: Differ, l: Block, i: nat, r: Block, j: nat)
    requires i <= |l.entries| && j <= |r.entries| && (i < |l.entries| || j < |r.entries|)
    ensures var t := Turn(d, l, i, r, j);
      && (!t.RightOnly? ==> i < |l.entries|) && (!t.LeftOnly? ==> j < |r.entries|)
      && (t.Equal? || t.Different? ==> l.entries[i].name == r.entries[j].name)
      && (t.LeftOnly? && j < |r.entries| ==> Order(l.entries[i].name, r.entries[j].name) < 0)
      && (t.RightOnly? && i < |l.entries| ==> Order(r.entries[j].name, l.entries[i].name) < 0)
  {
    if i < |l.entries| && j < |r.entries| { OrderEqual(l.entries[i].name, r.entries[j].name); }
  }

  /** What the reports show of the right tree is the tree itself in pre-order. */
  lemma {:induction false} MergeShowsRight(d: Differ, l: Block, i: nat, r: Block, j: nat, path: seq<Name>)
    requires i <= |l.entries| && j <= |r.entries|
    ensures Shown(Merge(d, l, i, r, j, path), false) == Pre(r, j, path)
    decreases l, r, |l.entries| - i + |r.entries| - j
  {
    hide Kids, Shown, PreKids, MergeKids, All, Verdict;
    if i == |l.entries| && j == |r.entries| {
      Nothing(false);
    } else {
      var t := Turn(d, l, i, r, j);
      TurnName(d, l, i, r, j);
      if t.LeftOnly? {
        MergeShowsRight(d, l, i + 1, r, j, path);
        ShownAll(PreKids(l, i, path), t, false);
        var h := Single(Item(path + [l.entries[i].name], l, i), t);
        Split3(h, All(PreKids(l, i, path), t), Merge(d, l, i + 1, r, j, path), false);
        assert [] + [] + Pre(r, j, path) == Pre(r, j, path);
      } else if t.RightOnly? {
        MergeShowsRight(d, l, i, r, j + 1, path);
        ShownAll(PreKids(r, j, path), t, false);
        var h := Single(Item(path + [r.entries[j].name], r, j), t);
        Split3(h, All(PreKids(r, j, path), t), Merge(d, l, i, r, j + 1, path), false);
      } else {
        MergeShowsRight(d, l, i + 1, r, j + 1, path);
        KidsShowRight(d, l, i, r, j, path);
        var h := Both(path + [l.entries[i].name], l, i, r, j, t);
        Split3(h, MergeKids(d, l, i, r, j, path), Merge(d, l, i + 1, r, j + 1, path), false);
      }
    }
  }

  lemma {:induction false} KidsShowRight(d: Differ, l: Block, i: nat, r: Block, j: nat, path: seq<Name>)
    requires i < |l.entries| && j < |r.entries| && l.entries[i].name == r.entries[j].name
    ensures Shown(MergeKids(d, l, i, r, j, path), false) == PreKids(r, j, path)
    decreases l, r, |l.entries| - i + |r.entries| - j, 0
  {
    var a, b := Kids(l, i), Kids(r, j);
    if b.None? {
      ShownAll(PreKids(l, i, path), LeftOnly, false);
    } else if a.None? {
      ShownAll(PreKids(r, j, path), RightOnly, false);
    } else {
      MergeShowsRight(d, a.value, 0, b.value, 0, path + [l.entries[i].name]);
    }
  }

  // ---------- the whole comparison ----------

  /** A directory among the items is too deep. */
  ghost predicate DeepIn(items: seq<Item>) { exists y :: y in items && TooDeep(y) }

  /** A cursor that passes what is reported has to go into a directory for which its stack has
      no place. */
  ghost predicate Deep(x: Report) { DeepIn(ShownOne(x, true)) || DeepIn(ShownOne(x, false)) }

  lemma DeepJoin(a: seq<Item>, b: seq<Item>)
    ensures DeepIn(a + b) <==> DeepIn(a) || DeepIn(b)
  {
    hide TooDeep;
    assert forall y :: y in a + b <==> y in a || y in b;
  }

  /** The reports up to the first at which a cursor is lost. */
  ghost function Reach(xs: seq<Report>): (n: nat)
    ensures n <= |xs|
  { if xs == [] then 0 else if Deep(xs[0]) then 1 else 1 + Reach(xs[1..]) }

  lemma {:induction false} ReachWhole(xs: seq<Report>)
    ensures Reach(xs) == |xs| <==> forall k :: 0 <= k < |xs| - 1 ==> !Deep(xs[k])
  {
    hide Deep;
    if |xs| <= 1 {
    } else {
      var rest := xs[1..];
      ReachWhole(rest);
      if forall k :: 0 <= k < |xs| - 1 ==> !Deep(xs[k]) {
        forall k | 0 <= k < |rest| - 1 ensures !Deep(rest[k]) { assert rest[k] == xs[k + 1]; }
      } else if !Deep(xs[0]) {
        var k :| 0 <= k < |xs| - 1 && Deep(xs[k]);
        assert rest[k - 1] == xs[k];
      }
    }
  }

  ghost predicate Losing(xs: seq<Report>) { exists x :: x in xs && Deep(x) }

  lemma LosingNext(xs: seq<Report>)
    requires xs != []
    ensures Losing(xs) <==> Deep(xs[0]) || Losing(xs[1..])
  {
    hide Deep;
    assert forall x :: x in xs <==> x == xs[0] || x in xs[1..];
  }

  lemma {:induction false} DeepShown(xs: seq<Report>)
    ensures Losing(xs) <==> DeepIn(Shown(xs, true)) || DeepIn(Shown(xs, false))
  {
    if xs == [] {
    } else {
      hide DeepIn, Losing;
      LosingNext(xs);
      DeepShown(xs[1..]);
      DeepJoin(ShownOne(xs[0], true), Shown(xs[1..], true));
      DeepJoin(ShownOne(xs[0], false), Shown(xs[1..], false));
    }
  }

  /** A cursor is lost somewhere if and only if one of the trees is nested deeper than its stack. */
  lemma DeepTrees(d: Differ, l: Block, r: Block)
    ensures (forall x :: x in Merge(d, l, 0, r, 0, []) ==> !Deep(x)) <==> Nest(l, 0) <= 64 && Nest(r, 0) <= 64
  {
    hide Merge, Pre, Nest, Deep, TooDeep, Shown;
    MergeShowsLeft(d, l, 0, r, 0, []);
    MergeShowsRight(d, l, 0, r, 0, []);
    DeepShown(Merge(d, l, 0, r, 0, []));
    DeepNest(l, 0, []);
    DeepNest(r, 0, []);
  }

  lemma ReachNoReport()
    ensures Reach([]) == 0
  {}

  lemma DeepTold(x: Report, side: Side, path: seq<Name>, l: Option<nat>, lb: Where, r: Option<nat>, rb: Where)
    requires Tells(x, side, path, l, lb, r, rb)
    ensures !side.RightOnly? ==> lb.In? && l.Some? && l.value < |lb.b.entries|
    ensures !side.LeftOnly? ==> rb.In? && r.Some? && r.value < |rb.b.entries|
    ensures var kl, kr := !side.RightOnly? && Kids(lb.b, l.value).Some?, !side.LeftOnly? && Kids(rb.b, r.value).Some?;
      Deep(x) <==> |path| > LEVELS && (kl || kr)
  {
    hide Kids;
    if !side.RightOnly? { assert ShownOne(x, true)[0] in ShownOne(x, true); }
    if !side.LeftOnly? { assert ShownOne(x, false)[0] in ShownOne(x, false); }
  }

  lemma FullIs(c: Cursor, root: Block)
    requires Good(c, root) && c.cur.Some?
    ensures c.curblock.In? && c.cur.value < |c.curblock.b.entries|
    ensures c.Full(root) <==> c.depth == LEVELS && Kids(c.curblock.b, c.cur.value).Some?
  {
    hide Kids, Nest, Linked;
    FacingTop(c, root);
  }

  /** Whether a call loses a cursor can be told from the report. */
  lemma LostIsDeep(x: Report, side: Side, path: seq<Name>, l: Option<nat>, lb: Where, r: Option<nat>, rb: Where,
                   ld: nat, rd: nat, lfull: bool, rfull: bool)
    requires Tells(x, side, path, l, lb, r, rb) && ld <= LEVELS && rd <= LEVELS
    requires |path| == 1 + (if side.RightOnly? then rd else ld) && (side.Equal? || side.Different? ==> ld == rd)
    requires l.Some? ==> lb.In? && l.value < |lb.b.entries| && (lfull <==> ld == LEVELS && Kids(lb.b, l.value).Some?)
    requires r.Some? ==> rb.In? && r.value < |rb.b.entries| && (rfull <==> rd == LEVELS && Kids(rb.b, r.value).Some?)
    ensures Deep(x) <==> (lfull && !side.RightOnly?) || (rfull && !side.LeftOnly?)
  {
    hide Kids, Deep;
    DeepTold(x, side, path, l, lb, r, rb);
  }

  lemma ReachNext(x: Report, rest: seq<Report>)
    ensures Reach([x] + rest) == if Deep(x) then 1 else 1 + Reach(rest)
  {
    hide Deep;
    assert ([x] + rest)[1..] == rest;
  }

  /** The first call that loses a cursor is the last of the merge. */
  lemma LostAt(all: seq<Report>, done: seq<Report>, todo: seq<Report>)
    requires all == done + todo && todo != [] && Deep(todo[0]) && Reach(all) == |done| + Reach(todo)
    ensures Losing(all) && Rows(done + [todo[0]]) == Rows(all[..Reach(all)])
  {
    hide Deep;
    ReachNext(todo[0], todo[1..]);
    assert todo == [todo[0]] + todo[1..];
    assert all[..|done| + 1] == done + [todo[0]];
    assert all[|done|] == todo[0];
  }

  lemma GoesOn(all: seq<Report>, done: seq<Report>, todo: seq<Report>)
    requires todo != [] && !Deep(todo[0]) && Reach(all) == |done| + Reach(todo)
    ensures Reach(all) == |done + [todo[0]]| + Reach(todo[1..])
  {
    hide Deep;
    ReachNext(todo[0], todo[1..]);
    assert todo == [todo[0]] + todo[1..];
  }

  /** Entries of one block of one side, from some entry on, up to one with a block attached. */
  ghost predicate Straggling(rows: seq<Row>) {
    exists side: Side, b: Block, i: nat ::
      (side.LeftOnly? || side.RightOnly?) && i <= |b.entries| && rows == Alone(side, Tail(b, i))
  }

  lemma Straggles(side: Side, b: Block, i: nat)
    requires (side.LeftOnly? || side.RightOnly?) && i <= |b.entries|
    ensures Straggling(Alone(side, Tail(b, i)))
  {}

  lemma TailStraggles(side: Side, c: Cursor)
    requires (side.LeftOnly? || side.RightOnly?) && Ready(c)
    ensures Straggling(Alone(side, TailOf(c)))
  {
    hide Linked, Straggling, Alone;
    if c.cur.Some? && c.depth == LEVELS {
      TopInside(c.At());
      Straggles(side, Top(c.At()).b, Top(c.At()).pos);
    } else {
      Straggles(side, EMPTY, 0);
    }
  }

  /** The rows are the reports up to the call at which a cursor is lost, all of them if none
      is; else there may follow what the other cursor still passes in the block it is in. */
  ghost predicate Compared(all: seq<Report>, rows: seq<Row>) {
    if Losing(all) then exists more :: Straggling(more) && rows == Rows(all[..Reach(all)]) + more
    else rows == Rows(all)
  }

  /** A row about one side is of its entry alone; a row about both is of entries of one name,
      and says that they differ exactly if `d` does. */
  ghost predicate RowTested(d: Differ, row: Row) {
    match row.side
    case LeftOnly => row.l.Some? && row.r.None?
    case RightOnly => row.l.None? && row.r.Some?
    case _ =>
      && row.l.Some? && row.r.Some? && var (l, i), (r, j) := row.l.value, row.r.value;
      && i < |l.entries| && j < |r.entries| && l.entries[i].name == r.entries[j].name
      && row.side == if d(l.entries[i], r.entries[j]) then Different else Equal
  }

  ghost predicate RowsTested(d: Differ, rows: seq<Row>) { forall k :: 0 <= k < |rows| ==> RowTested(d, rows[k]) }

  lemma ReportsTested(d: Differ, xs: seq<Report>)
    requires AllTested(d, xs)
    ensures RowsTested(d, Rows(xs))
  {
    forall k | 0 <= k < |xs| ensures RowTested(d, Rows(xs)[k]) { assert Tested(d, xs[k]); }
  }

  lemma {:induction false} StragglersTested(d: Differ, side: Side, refs: seq<Ref>)
    requires side.LeftOnly? || side.RightOnly?
    ensures RowsTested(d, Alone(side, refs))
  {
    if refs == [] {
    } else {
      StragglersTested(d, side, refs[1..]);
    }
  }

  lemma ComparedTested(d: Differ, all: seq<Report>, rows: seq<Row>)
    requires Compared(all, rows) && AllTested(d, all)
    ensures RowsTested(d, rows)
  {
    hide Losing, RowTested, Tested, Rows;
    ReportsTested(d, all);
    if Losing(all) {
      var more :| Straggling(more) && rows == Rows(all[..Reach(all)]) + more;
      var side: Side, b: Block, i: nat :|
        (side.LeftOnly? || side.RightOnly?) && i <= |b.entries| && more == Alone(side, Tail(b, i));
      StragglersTested(d, side, Tail(b, i));
      ReportsTested(d, all[..Reach(all)]);
    }
  }

  lemma LosingIs(xs: seq<Report>)
    ensures Losing(xs) <==> !forall x :: x in xs ==> !Deep(x)
  {
    hide Deep;
  }

  /** Every call has told its report. */
  lemma NoneLost(all: seq<Report>)
    requires Reach(all) == |all|
    ensures Compared(all, Rows(all))
  {
    hide Losing;
    assert all[..|all|] == all && Rows(all) + [] == Rows(all);
    Straggles(LeftOnly, EMPTY, 0);
    assert Alone(LeftOnly, Tail(EMPTY, 0)) == [];
  }

  /** Compares two trees from start to end: what is found of each entry, and where.  These are
      the reports of the merge up to the call at which a cursor is lost, and all of them if
      none is, which is so on trees nested at most 64 levels. */
  method CompareAll(lb: Option<Block>, rb: Option<Block>, d: Differ) returns (rows: seq<Row>)
    ensures Compared(Merge(d, OrEmpty(lb), 0, OrEmpty(rb), 0, []), rows)
    ensures Nest(OrEmpty(lb), 0) <= 64 && Nest(OrEmpty(rb), 0) <= 64 ==>
      rows == Rows(Merge(d, OrEmpty(lb), 0, OrEmpty(rb), 0, []))
    ensures RowsTested(d, rows)
  {
    hide Merge, Nest, Facing, Ahead, Good, Ready, Rest, SameDirs, Linked, Rows, RowOf, Tells, Deep, Reach;
    hide Kids, SideOf, Losing, Straggling, Compare.Extra, RowsTested, AllTested;
    var c := new Compare(lb, rb, d);
    c.ValidUsable();
    ghost var all := Merge(d, OrEmpty(lb), 0, OrEmpty(rb), 0, []);
    ghost var done: seq<Report>, lost, more := [], false, [];
    rows := [];
    RowsNone();
    DeepTrees(d, OrEmpty(lb), OrEmpty(rb));
    LosingIs(all);
    MergeTested(d, OrEmpty(lb), 0, OrEmpty(rb), 0, []);
    assert [] + all == all;
    while true
      invariant c.Usable() && fresh(c.lc) && fresh(c.lc.blockStk) && fresh(c.lc.entStk)
      invariant fresh(c.rc) && fresh(c.rc.blockStk) && fresh(c.rc.entStk)
      invariant !lost ==> c.Valid() && all == done + c.Todo() && Reach(all) == |done| + Reach(c.Todo())
      invariant !lost ==> rows == Rows(done)
      invariant lost ==> Losing(all) && Straggling(more) && c.Lost()
      invariant lost ==> rows + c.Extra() == Rows(all[..Reach(all)]) + more
      decreases c.Calls()
    {
      ghost var todo := if lost then [] else c.Todo();
      ghost var ld, rd, lfull, rfull := c.lc.depth, c.rc.depth, c.lc.Full(c.lroot), c.rc.Full(c.rroot);
      if !lost { c.FullBoth(); }
      ghost var path;
      var i, l, r, lb, rb;
      i, l, r, lb, rb, path := c.Next();
      if i.None? {
        if !lost {
          ReachNoReport();
          assert done + todo == done;
          NoneLost(all);
        }
        ComparedTested(d, all, rows);
        return;
      }
      ghost var was := rows;
      rows := rows + [Told(i.value, l, lb, r, rb)];
      if !lost {
        RowTold(todo[0], i.value, path, l, lb, r, rb);
        RowsNext(done, todo);
        LostIsDeep(todo[0], i.value, path, l, lb, r, rb, ld, rd, lfull, rfull);
        if Deep(todo[0]) {
          LostAt(all, done, todo);
          lost, more := true, c.Extra();
          c.ExtraStraggles();
        } else {
          GoesOn(all, done, todo);
          done := done + [todo[0]];
        }
      }
    }
  }

  // ---------- every path once ----------

  /** The names of every block from i on are strictly sorted. */
  ghost predicate Sorted(b: Block, i: nat)
    requires i <= |b.entries|
    decreases b, |b.entries| - i
  {
    i < |b.entries| ==>
      && (i + 1 < |b.entries| ==> Order(b.entries[i].name, b.entries[i + 1].name) < 0)
      && Sorted(b, i + 1)
      && (Kids(b, i).Some? ==> Sorted(Kids(b, i).value, 0))
  }

  ghost predicate Under(rs: seq<Report>, path: seq<Name>) {
    forall k :: 0 <= k < |rs| ==> |rs[k].path| > |path| && rs[k].path[..|path|] == path
  }

  /** All reports are under `path`, with names after n there. */
  ghost predicate Beyond(rs: seq<Report>, path: seq<Name>, n: Name) {
    forall k :: 0 <= k < |rs| ==>
      |rs[k].path| > |path| && rs[k].path[..|path|] == path && Order(n, rs[k].path[|path|]) < 0
  }

  ghost predicate EachOnce(rs: seq<Report>) { forall i, j :: 0 <= i < j < |rs| ==> rs[i].path != rs[j].path }

  /** The next names on both sides are after n. */
  ghost predicate After(n: Name, l: Block, i: nat, r: Block, j: nat) {
    && (i < |l.entries| ==> Order(n, l.entries[i].name) < 0)
    && (j < |r.entries| ==> Order(n, r.entries[j].name) < 0)
  }

  lemma Compose(h: Report, kids: seq<Report>, rest: seq<Report>, path: seq<Name>, n: Name)
    requires h.path == path + [n] && Under(kids, path + [n]) && EachOnce(kids)
    requires Beyond(rest, path, n) && EachOnce(rest)
    ensures EachOnce([h] + kids + rest) && Under([h] + kids + rest, path)
    ensures forall m: Name :: Order(m, n) < 0 ==> Beyond([h] + kids + rest, path, m)
  {
    var rs := [h] + kids + rest;
    OrderEqual(n, n);
    forall k | 0 <= k < |rs| ensures |rs[k].path| > |path| && rs[k].path[..|path|] == path
      && (rs[k].path[|path|] == n || Order(n, rs[k].path[|path|]) < 0)
    {
      if 1 <= k < 1 + |kids| {
        var q := kids[k - 1].path;
        assert rs[k] == kids[k - 1] && q[..|path| + 1] == path + [n];
        assert q[..|path|] == q[..|path| + 1][..|path|] && q[|path|] == q[..|path| + 1][|path|];
      } else if k >= 1 + |kids| {
        assert rs[k] == rest[k - 1 - |kids|];
      }
    }
    forall i, j | 0 <= i < j < |rs| ensures rs[i].path != rs[j].path {
      if j < 1 + |kids| {
        assert rs[j] == kids[j - 1];
        if i > 0 { assert rs[i] == kids[i - 1]; }
      } else {
        assert rs[j] == rest[j - 1 - |kids|];
        if i >= 1 + |kids| {
          assert rs[i] == rest[i - 1 - |kids|];
        } else {
          assert rs[i].path[|path|] == n by {
            if i > 0 {
              assert rs[i] == kids[i - 1] && rs[i].path[..|path| + 1] == path + [n];
              assert rs[i].path[|path|] == rs[i].path[..|path| + 1][|path|];
            }
          }
        }
      }
    }
    forall m: Name | Order(m, n) < 0 ensures Beyond(rs, path, m) {
      forall k | 0 <= k < |rs| ensures Order(m, rs[k].path[|path|]) < 0 {
        if Order(n, rs[k].path[|path|]) < 0 { OrderTransitive(m, n, rs[k].path[|path|]); }
      }
    }
  }

  lemma {:induction false} MergeOnce(d: Differ, l: Block, i: nat, r: Block, j: nat, path: seq<Name>)
    requires i <= |l.entries| && j <= |r.entries| && Sorted(l, i) && Sorted(r, j)
    ensures var rs := Merge(d, l, i, r, j, path);
      EachOnce(rs) && Under(rs, path) && forall n: Name :: After(n, l, i, r, j) ==> Beyond(rs, path, n)
    decreases l, r, |l.entries| - i + |r.entries| - j
  {
    hide Kids, EachOnce, Under, Beyond, MergeKids, PreKids, All, Turn;
    if i == |l.entries| && j == |r.entries| {
      Empty(path);
    } else {
      var t := Turn(d, l, i, r, j);
      TurnName(d, l, i, r, j);
      if t.LeftOnly? {
        var n := l.entries[i].name;
        MergeOnce(d, l, i + 1, r, j, path);
        assert After(n, l, i + 1, r, j);
        OneSideOnce(d, l, i, path, t);
        var h := Single(Item(path + [n], l, i), t);
        Compose(h, All(PreKids(l, i, path), t), Merge(d, l, i + 1, r, j, path), path, n);
      } else if t.RightOnly? {
        var n := r.entries[j].name;
        MergeOnce(d, l, i, r, j + 1, path);
        assert After(n, l, i, r, j + 1);
        OneSideOnce(d, r, j, path, t);
        var h := Single(Item(path + [n], r, j), t);
        Compose(h, All(PreKids(r, j, path), t), Merge(d, l, i, r, j + 1, path), path, n);
      } else {
        var n := l.entries[i].name;
        MergeOnce(d, l, i + 1, r, j + 1, path);
        assert After(n, l, i + 1, r, j + 1);
        KidsOnce(d, l, i, r, j, path);
        var h := Both(path + [n], l, i, r, j, t);
        Compose(h, MergeKids(d, l, i, r, j, path), Merge(d, l, i + 1, r, j + 1, path), path, n);
      }
    }
  }

  lemma Empty(path: seq<Name>)
    ensures EachOnce([]) && Under([], path) && forall n: Name :: Beyond([], path, n)
  {}

  /** What is inside of an entry, reported for one side. */
  lemma {:induction false} OneSideOnce(d: Differ, b: Block, i: nat, path: seq<Name>, side: Side)
    requires i < |b.entries| && Sorted(b, i)
    ensures EachOnce(All(PreKids(b, i, path), side))
    ensures Under(All(PreKids(b, i, path), side), path + [b.entries[i].name])
    decreases b, 0, |b.entries| - i, 0
  {
    var k := Kids(b, i);
    if k.Some? {
      var inner := path + [b.entries[i].name];
      PreKidsOnce(d, k.value, 0, inner);
      var left, these := All(Pre(k.value, 0, inner), LeftOnly), All(Pre(k.value, 0, inner), side);
      assert forall x :: 0 <= x < |these| ==> these[x].path == left[x].path;
    }
  }

  lemma {:induction false} PreKidsOnce(d: Differ, b: Block, i: nat, path: seq<Name>)
    requires i <= |b.entries| && Sorted(b, i)
    ensures var rs := All(Pre(b, i, path), LeftOnly);
      EachOnce(rs) && Under(rs, path) && forall n: Name :: After(n, b, i, EMPTY, 0) ==> Beyond(rs, path, n)
    decreases b, 0, |b.entries| - i
  {
    hide Kids, EachOnce, Under, Beyond, PreKids, All;
    if i == |b.entries| {
      NothingLeft(b, path, LeftOnly);
      Empty(path);
    } else {
      var n := b.entries[i].name;
      PreKidsOnce(d, b, i + 1, path);
      assert After(n, b, i + 1, EMPTY, 0);
      OneSideOnce(d, b, i, path, LeftOnly);
      var x := Item(path + [n], b, i);
      Compose(Single(x, LeftOnly), All(PreKids(b, i, path), LeftOnly), All(Pre(b, i + 1, path), LeftOnly), path, n);
      AllJoin(x, PreKids(b, i, path), Pre(b, i + 1, path), LeftOnly);
    }
  }

  lemma {:induction false} KidsOnce(d: Differ, l: Block, i: nat, r: Block, j: nat, path: seq<Name>)
    requires i < |l.entries| && j < |r.entries| && Sorted(l, i) && Sorted(r, j)
    requires l.entries[i].name == r.entries[j].name
    ensures EachOnce(MergeKids(d, l, i, r, j, path))
    ensures Under(MergeKids(d, l, i, r, j, path), path + [l.entries[i].name])
    decreases l, r, |l.entries| - i + |r.entries| - j, 0
  {
    hide EachOnce, Under, Beyond, All;
    var a, b := Kids(l, i), Kids(r, j);
    if b.None? {
      OneSideOnce(d, l, i, path, LeftOnly);
    } else if a.None? {
      OneSideOnce(d, r, j, path, RightOnly);
    } else {
      MergeOnce(d, a.value, 0, b.value, 0, path + [l.entries[i].name]);
    }
  }

  ghost predicate HasPath(items: seq<Item>, p: seq<Name>) { exists x :: x in items && x.path == p }

  lemma {:induction false} ShownHas(xs: seq<Report>, left: bool, p: seq<Name>)
    ensures HasPath(Shown(xs, left), p) <==> exists x :: x in xs && x.path == p && ShownOne(x, left) != []
  {
    if xs == [] {
    } else {
      var x, rest := xs[0], xs[1..];
      ShownHas(rest, left, p);
      assert forall y :: y in xs <==> y == x || y in rest;
      assert forall y :: y in Shown(xs, left) <==> y in ShownOne(x, left) || y in Shown(rest, left);
      if ShownOne(x, left) != [] {
        assert ShownOne(x, left)[0] in ShownOne(x, left);
      }
    }
  }

  /** The relative paths of a tree. */
  ghost predicate Has(b: Block, p: seq<Name>) { HasPath(Pre(b, 0, []), p) }

  /** On trees whose blocks are strictly sorted by name, every relative path is reported
      once: as equal or different if it is in both trees, as left or right if it is only
      in that one; and no other path is reported. */
  lemma ReportsExact(d: Differ, l: Block, r: Block)
    requires Sorted(l, 0) && Sorted(r, 0)
    ensures var xs := Merge(d, l, 0, r, 0, []);
      && EachOnce(xs)
      && (forall x :: x in xs ==>
        && (Has(l, x.path) <==> !SideOf(x).RightOnly?)
        && (Has(r, x.path) <==> !SideOf(x).LeftOnly?))
      && (forall p :: Has(l, p) || Has(r, p) ==> exists x :: x in xs && x.path == p)
  {
    hide Merge, Sorted, Pre, Shown, HasPath;
    var xs := Merge(d, l, 0, r, 0, []);
    MergeOnce(d, l, 0, r, 0, []);
    MergeShowsLeft(d, l, 0, r, 0, []);
    MergeShowsRight(d, l, 0, r, 0, []);
    forall p: seq<Name>
      ensures Has(l, p) <==> exists x :: x in xs && x.path == p && ShownOne(x, true) != []
      ensures Has(r, p) <==> exists x :: x in xs && x.path == p && ShownOne(x, false) != []
    {
      ShownHas(xs, true, p);
      ShownHas(xs, false, p);
    }
    OnePath(xs);
  }

  lemma OnePath(xs: seq<Report>)
    requires EachOnce(xs)
    ensures forall x, y :: x in xs && y in xs && x.path == y.path ==> x == y
  {}

  /** With the comparison by names alone, every path that is in both trees is reported equal. */
  lemma DefaultEqual(d: Differ, l: Block, r: Block)
    requires Sorted(l, 0) && Sorted(r, 0) && forall a, b :: !d(a, b)
    ensures forall x :: x in Merge(d, l, 0, r, 0, []) ==>
      (Has(l, x.path) && Has(r, x.path) <==> SideOf(x) == Equal)
  {
    hide Merge, Sorted, Has;
    ReportsExact(d, l, r);
    MergeTested(d, l, 0, r, 0, []);
    var xs := Merge(d, l, 0, r, 0, []);
    forall x | x in xs ensures Has(l, x.path) && Has(r, x.path) <==> SideOf(x) == Equal {
      var k :| 0 <= k < |xs| && xs[k] == x;
      assert Tested(d, xs[k]);
    }
  }
}
