/** The hash table of ffbase/map.h: open addressing with linear probing around a
    circular array, without tombstones.

    The table is a multiset of (hash, value) pairs.  What makes searching work is
    `NoHole`: no free slot lies on the circular way from the home slot of a stored
    item to the item.  Distances around the circle are `Dist`.
  */
module HashTable {

  import opened Modulo
  import opened Optional
  import opened Powers

  /** `struct _ffmap_item`; `Free` is `flags == 0`. */
  datatype Slot<V> = Free | Used(hash: nat, val: V)

  // ---------- the circle ----------

  /** `(i + 1) & mask` and `(i - 1) & mask`. */
  function Next(n: nat, i: nat): nat
    requires i < n
  { if i + 1 == n then 0 else i + 1 }

  function Prev(n: nat, i: nat): nat
    requires i < n
  { if i == 0 then n - 1 else i - 1 }

  /** `(b - a) & mask`: how many steps forward lead from a to b. */
  function Dist(n: nat, a: nat, b: nat): nat
    requires a < n && b < n
  { if a <= b then b - a else b + n - a }

  /** `IDX_HASH`: the slot where probing for a hash starts. */
  function Home(n: nat, hash: nat): (h: nat)
    requires 0 < n
    ensures h < n
  { hash % n }

  // ---------- the table as a value ----------

  ghost function Pair<V>(s: Slot<V>): multiset<(nat, V)> {
    if s.Free? then multiset{} else multiset{(s.hash, s.val)}
  }

  ghost function Bag<V>(s: seq<Slot<V>>): multiset<(nat, V)> {
    if s == [] then multiset{} else Bag(s[..|s| - 1]) + Pair(s[|s| - 1])
  }

  /** No free slot on the way from an item's home to the item. */
  ghost predicate NoHole<V>(s: seq<Slot<V>>) {
    forall p, f :: 0 <= p < |s| && 0 <= f < |s| && s[p].Used? && s[f].Free? ==>
      Dist(|s|, Home(|s|, s[p].hash), p) < Dist(|s|, Home(|s|, s[p].hash), f)
  }

  /** The same with slot r, about to be freed, counted as occupied but not as an item. */
  ghost predicate NoHoleBut<V>(s: seq<Slot<V>>, r: nat) {
    forall p, f :: 0 <= p < |s| && 0 <= f < |s| && p != r && f != r && s[p].Used? && s[f].Free? ==>
      Dist(|s|, Home(|s|, s[p].hash), p) < Dist(|s|, Home(|s|, s[p].hash), f)
  }

  /** Slots on the way from a to b, b excluded, are all occupied. */
  ghost predicate Run<V>(s: seq<Slot<V>>, a: nat, b: nat) {
    && a < |s| && b < |s|
    && forall i :: 0 <= i < |s| && Dist(|s|, a, i) < Dist(|s|, a, b) ==> s[i].Used?
  }

  lemma {:induction false} BagSplit<V>(s: seq<Slot<V>>, i: nat)
    requires i < |s|
    ensures Bag(s) == Bag(s[i := Free]) + Pair(s[i])
  {
    hide Bag, Pair;
    var k, t := |s| - 1, s[i := Free];
    BagLast(s);
    BagLast(t);
    if i == k {
      assert s[..k] == t[..k];
      FreePair<V>();
    } else {
      BagSplit(s[..k], i);
      assert s[..k][i := Free] == t[..k];
      Swapped(Bag(t[..k]), Pair(s[i]), Pair(s[k]));
    }
  }

  lemma BagLast<V>(s: seq<Slot<V>>)
    requires s != []
    ensures Bag(s) == Bag(s[..|s| - 1]) + Pair(s[|s| - 1])
  {}

  lemma FreePair<V>()
    ensures forall a: multiset<(nat, V)> :: a + Pair(Free) == a
  {}

  lemma Swapped<V>(a: multiset<V>, p: multiset<V>, q: multiset<V>)
    ensures (a + p) + q == (a + q) + p
  {}

  lemma BagUpdate<V>(s: seq<Slot<V>>, i: nat, x: Slot<V>)
    requires i < |s|
    ensures Bag(s[i := x]) == Bag(s[i := Free]) + Pair(x)
  {
    hide Bag, Pair;
    BagSplit(s[i := x], i);
    assert s[i := x][i := Free] == s[i := Free];
  }

  lemma BagHas<V>(s: seq<Slot<V>>, i: nat)
    requires i < |s| && s[i].Used?
    ensures (s[i].hash, s[i].val) in Bag(s)
  {
    BagSplit(s, i);
  }

  lemma {:induction false} BagIndex<V>(s: seq<Slot<V>>, x: (nat, V)) returns (i: nat)
    requires x in Bag(s)
    ensures i < |s| && s[i] == Used(x.0, x.1)
  {
    var k := |s| - 1;
    if x in Pair(s[k]) { i := k; } else { i := BagIndex(s[..k], x); }
  }

  lemma {:induction false} BagSize<V>(s: seq<Slot<V>>)
    ensures |Bag(s)| <= |s|
    ensures (exists i :: 0 <= i < |s| && s[i].Free?) <==> |Bag(s)| < |s|
  {
    if s != [] {
      var k := |s| - 1;
      BagSize(s[..k]);
      if s[k].Free? {
        assert |Bag(s)| < |s|;
      } else {
        assert forall i :: 0 <= i < k ==> s[i] == s[..k][i];
        if i :| 0 <= i < |s| && s[i].Free? { assert s[..k][i].Free?; }
      }
    }
  }

  lemma {:induction false} EmptyBag<V>(s: seq<Slot<V>>)
    requires forall i :: 0 <= i < |s| ==> s[i].Free?
    ensures Bag(s) == multiset{} && NoHole(s)
  {
    if s == [] {
    } else {
      EmptyBag(s[..|s| - 1]);
    }
  }

  // ---------- probing ----------

  /** Filling the first free slot from its home keeps every item reachable. */
  lemma FillKeeps<V>(s: seq<Slot<V>>, hash: nat, i: nat, val: V)
    requires NoHole(s) && i < |s| && s[i].Free? && Run(s, Home(|s|, hash), i)
    ensures NoHole(s[i := Used(hash, val)])
  {
    var n, t, h := |s|, s[i := Used(hash, val)], Home(|s|, hash);
    forall p, f | 0 <= p < n && 0 <= f < n && t[p].Used? && t[f].Free?
      ensures Dist(n, Home(n, t[p].hash), p) < Dist(n, Home(n, t[p].hash), f)
    {
      assert s[f].Free? && f != i;
      if p != i { assert s[p] == t[p]; }
    }
  }

  lemma FillBag<V>(s: seq<Slot<V>>, hash: nat, i: nat, val: V)
    requires i < |s| && s[i].Free?
    ensures Bag(s[i := Used(hash, val)]) == Bag(s) + multiset{(hash, val)}
  {
    BagUpdate(s, i, Used(hash, val));
    assert s[i := Free] == s;
  }

  /** Every item with the hash lies before the first free slot from its home. */
  lemma BeforeFree<V>(s: seq<Slot<V>>, hash: nat, f: nat, p: nat)
    requires NoHole(s) && f < |s| && s[f].Free? && p < |s| && s[p].Used? && s[p].hash == hash
    ensures Dist(|s|, Home(|s|, hash), p) < Dist(|s|, Home(|s|, hash), f)
  {}

  /** One step of probing from `a` while some slot `f` is free. */
  lemma RunStep<V>(s: seq<Slot<V>>, a: nat, i: nat, f: nat)
    requires a < |s| && i < |s| && f < |s| && Run(s, a, i) && s[i].Used? && s[f].Free?
    requires Dist(|s|, a, i) <= Dist(|s|, a, f)
    ensures var j := Next(|s|, i);
      j < |s| && j != a && Run(s, a, j) && Dist(|s|, a, j) == Dist(|s|, a, i) + 1 <= Dist(|s|, a, f)
  {}

  lemma RunStart<V>(s: seq<Slot<V>>, a: nat, f: nat)
    requires a < |s| && f < |s|
    ensures Run(s, a, a) && Dist(|s|, a, a) <= Dist(|s|, a, f)
  {}

  lemma FreeSlot<V>(s: seq<Slot<V>>) returns (f: nat)
    requires |Bag(s)| < |s|
    ensures f < |s| && s[f].Free?
  {
    BagSize(s);
    f :| 0 <= f < |s| && s[f].Free?;
  }

  ghost predicate Hit<V(!new)>(s: seq<Slot<V>>, p: int, hash: nat, matches: V -> bool) {
    0 <= p < |s| && s[p].Used? && s[p].hash == hash && matches(s[p].val)
  }

  /** No hit from `a` up to `i`. */
  ghost predicate Passed<V(!new)>(s: seq<Slot<V>>, a: nat, i: nat, hash: nat, matches: V -> bool) {
    a < |s| && i < |s| && forall p :: 0 <= p < |s| && Dist(|s|, a, p) < Dist(|s|, a, i) ==> !Hit(s, p, hash, matches)
  }

  lemma PassedNone<V(!new)>(s: seq<Slot<V>>, a: nat, hash: nat, matches: V -> bool)
    requires a < |s|
    ensures Passed(s, a, a, hash, matches)
  {}

  lemma PassedStep<V(!new)>(s: seq<Slot<V>>, a: nat, i: nat, hash: nat, matches: V -> bool)
    requires Passed(s, a, i, hash, matches) && !Hit(s, i, hash, matches) && Next(|s|, i) != a
    ensures Passed(s, a, Next(|s|, i), hash, matches)
  {}

  lemma PassedAll<V(!new)>(s: seq<Slot<V>>, i: nat, hash: nat, matches: V -> bool)
    requires NoHole(s) && i < |s| && s[i].Free? && Passed(s, Home(|s|, hash), i, hash, matches)
    ensures forall v :: (hash, v) in Bag(s) ==> !matches(v)
  {
    forall v | (hash, v) in Bag(s) ensures !matches(v) {
      var p := BagIndex(s, (hash, v));
      BeforeFree(s, hash, i, p);
      assert !Hit(s, p, hash, matches);
    }
  }

  // ---------- the way of a hash, slot by slot ----------

  /** The k-th slot that is looked at for a hash: around the circle from `hash & mask`. */
  ghost function OnWay<V>(s: seq<Slot<V>>, hash: nat, k: nat): Slot<V>
    requires s != []
  { s[(hash + k) % |s|] }

  /** The k-th slot is the first free one. */
  ghost predicate FirstFree<V>(s: seq<Slot<V>>, hash: nat, k: nat) {
    k < |s| && OnWay(s, hash, k).Free? && forall j :: 0 <= j < k ==> OnWay(s, hash, j).Used?
  }

  /** The k-th slot is the first that holds the hash and a value that matches; none before it
      is free. */
  ghost predicate FirstHit<V(!new)>(s: seq<Slot<V>>, hash: nat, k: nat, matches: V -> bool) {
    && k < |s| && Suits(OnWay(s, hash, k), hash, matches)
    && forall j :: 0 <= j < k ==> OnWay(s, hash, j).Used? && !Suits(OnWay(s, hash, j), hash, matches)
  }

  ghost predicate Suits<V(!new)>(x: Slot<V>, hash: nat, matches: V -> bool) {
    x.Used? && x.hash == hash && matches(x.val)
  }

  /** How far a slot is on the way. */
  lemma WayDist(n: nat, hash: nat, k: nat)
    requires k < n
    ensures (hash + k) % n < n && Dist(n, Home(n, hash), (hash + k) % n) == k
  {
    var q, h := hash / n, hash % n;
    Quotient(n, hash);
    if h + k < n {
      Remainder(hash + k, n, q, h + k);
    } else {
      assert n * (q + 1) == n * q + n;
      Remainder(hash + k, n, q + 1, h + k - n);
    }
  }

  lemma WayTo(n: nat, hash: nat, i: nat)
    requires i < n
    ensures var k := Dist(n, Home(n, hash), i); k < n && (hash + k) % n == i
  {
    WayDist(n, hash, Dist(n, Home(n, hash), i));
  }

  lemma RunFree<V>(s: seq<Slot<V>>, hash: nat, i: nat) returns (k: nat)
    requires i < |s| && s[i].Free? && Run(s, Home(|s|, hash), i)
    ensures (hash + k) % |s| == i && FirstFree(s, hash, k)
  {
    hide Home, Dist;
    var n := |s|;
    k := Dist(n, Home(n, hash), i);
    WayTo(n, hash, i);
    forall j | 0 <= j < k ensures OnWay(s, hash, j).Used? { WayDist(n, hash, j); }
  }

  lemma RunHit<V(!new)>(s: seq<Slot<V>>, i: nat, hash: nat, matches: V -> bool)
    requires i < |s| && Run(s, Home(|s|, hash), i) && Passed(s, Home(|s|, hash), i, hash, matches)
    requires Hit(s, i, hash, matches)
    ensures exists k :: FirstHit(s, hash, k, matches) && OnWay(s, hash, k) == s[i]
  {
    hide Home, Dist;
    var n := |s|;
    var k := Dist(n, Home(n, hash), i);
    WayTo(n, hash, i);
    forall j | 0 <= j < k ensures OnWay(s, hash, j).Used? && !Suits(OnWay(s, hash, j), hash, matches) {
      WayDist(n, hash, j);
      assert !Hit(s, (hash + j) % n, hash, matches);
    }
    assert FirstHit(s, hash, k, matches);
  }

  // ---------- closing the gap after a removal ----------

  /** `end` is free, `r` is the slot to be freed, and all slots from r to end are
      occupied; distances are counted from the slot after `end`. */
  ghost predicate Gap<V>(s: seq<Slot<V>>, end: nat, r: nat) {
    && end < |s| && r < |s| && s[end].Free? && Run(s, r, end)
    && r != end && NoHoleBut(s, r)
  }

  function Rel(n: nat, end: nat, i: nat): nat
    requires end < n && i < n
  { Dist(n, Next(n, end), i) }

  /** An item that stands before its home in this count would have its way cut by `end`. */
  lemma HomeFirst<V>(s: seq<Slot<V>>, end: nat, r: nat, p: nat)
    requires Gap(s, end, r) && p < |s| && p != r && s[p].Used?
    ensures var n := |s|; Rel(n, end, Home(n, s[p].hash)) <= Rel(n, end, p) < n - 1
  {}

  /** An item whose home is not behind the hole may fill it. */
  lemma MoveKeeps<V>(s: seq<Slot<V>>, end: nat, r: nat, p: nat)
    requires Gap(s, end, r) && p < |s| && s[p].Used?
    requires var n := |s|; Rel(n, end, r) < Rel(n, end, p) && Rel(n, end, Home(n, s[p].hash)) <= Rel(n, end, r)
    ensures Gap(s[r := s[p]], end, p)
  {
    var n, t := |s|, s[r := s[p]];
    HomeFirst(s, end, r, p);
    forall q, f | 0 <= q < n && 0 <= f < n && q != p && f != p && t[q].Used? && t[f].Free?
      ensures Dist(n, Home(n, t[q].hash), q) < Dist(n, Home(n, t[q].hash), f)
    {
      assert s[f].Free? && f != r;
      assert Dist(n, Home(n, s[p].hash), p) < Dist(n, Home(n, s[p].hash), f);
      if q != r { assert s[q] == t[q]; }
    }
    assert Run(t, p, end);
  }

  lemma MoveBag<V>(s: seq<Slot<V>>, r: nat, p: nat)
    requires r < |s| && p < |s| && r != p
    ensures Bag(s[r := s[p]][p := Free]) == Bag(s[r := Free])
  {
    hide Bag, Pair;
    var u := s[r := Free];
    var w := u[p := Free];
    BagSplit(u, p);
    BagUpdate(w, r, s[p]);
    assert s[r := s[p]][p := Free] == w[r := s[p]] && w[r := Free] == w && u[p] == s[p];
  }

  /** All items from i on, up to `end`, have their home behind the hole. */
  ghost predicate Settled<V>(s: seq<Slot<V>>, end: nat, r: nat, i: nat) {
    && end < |s| && r < |s| && i < |s|
    && forall p :: 0 <= p < |s| && p != end && Rel(|s|, end, i) <= Rel(|s|, end, p) ==>
      s[p].Used? && Rel(|s|, end, r) < Rel(|s|, end, Home(|s|, s[p].hash))
  }

  lemma SettledEnd<V>(s: seq<Slot<V>>, end: nat, r: nat)
    requires Gap(s, end, r)
    ensures Settled(s, end, r, end) && Rel(|s|, end, r) < Rel(|s|, end, end) < |s|
  {}

  /** The slot before i is the hole, or occupied and behind the hole. */
  lemma StepBack<V>(s: seq<Slot<V>>, end: nat, r: nat, i: nat)
    requires Gap(s, end, r) && i < |s| && Rel(|s|, end, r) < Rel(|s|, end, i)
    ensures var j := Prev(|s|, i);
      && j < |s| && Rel(|s|, end, j) == Rel(|s|, end, i) - 1 && s[j].Used? == (j != r || s[r].Used?)
      && (if j == r then i == Next(|s|, r) else Rel(|s|, end, r) < Rel(|s|, end, j))
  {
    var n, j := |s|, Prev(|s|, i);
    if j != r { assert Dist(n, r, j) < Dist(n, r, end); }
  }

  lemma SettledStep<V>(s: seq<Slot<V>>, end: nat, r: nat, i: nat)
    requires Settled(s, end, r, i) && Gap(s, end, r) && Rel(|s|, end, r) < Rel(|s|, end, i)
    requires var j := Prev(|s|, i); s[j].Used? && Rel(|s|, end, r) < Rel(|s|, end, Home(|s|, s[j].hash))
    ensures Settled(s, end, r, Prev(|s|, i))
  {}

  /** When no item behind the hole may fill it, it can be freed. */
  lemma AllSettled<V>(s: seq<Slot<V>>, end: nat, r: nat, i: nat)
    requires Gap(s, end, r) && i == Next(|s|, r) && Settled(s, end, r, i)
    ensures NoHole(s[r := Free])
  {
    var n, t := |s|, s[r := Free];
    forall p, f | 0 <= p < n && 0 <= f < n && t[p].Used? && t[f].Free?
      ensures Dist(n, Home(n, t[p].hash), p) < Dist(n, Home(n, t[p].hash), f)
    {
      HomeFirst(s, end, r, p);
      if f == r {
        if Rel(n, end, p) > Rel(n, end, r) { assert p != end; }
      }
    }
  }

  // ---------- the table ----------

  /** At most to three quarters full with n items. */
  predicate Roomy(n: nat, cap: nat) { cap > 0 && n * 100 / cap <= 75 }

  /** The size that `ffmap_grow` takes suffices for the test that `ffmap_add_hash` makes. */
  lemma Reserved(n: nat, cap: nat)
    requires n * 100 / 75 < cap
    ensures Roomy(n, cap)
  {
    Quotient(75, n * 100);
    DivBelow(cap, n * 100, 75);
  }

  /** Room for more items is room for each of them. */
  lemma RoomyEach(n: nat, more: nat, k: nat, cap: nat)
    requires Roomy(n + more, cap) && k <= more
    ensures Roomy(n + k, cap)
  {
    var b := (n + more) * 100;
    Quotient(cap, b);
    assert cap * (b / cap + 1) == cap * (b / cap) + cap;
    DivBelow(cap, (n + k) * 100, b / cap + 1);
  }

  /** `struct ffmap`.  `cap` is the length of `data`, 0 before the first allocation. */
  class Map<V(==,!new)> {
    var len: nat
    var data: array<Slot<V>>

    ghost predicate Valid()
      reads this, data
    {
      && NoHole(data[..])
      && len == |Bag(data[..])|
      && (data.Length > 0 ==> IsPow2(data.Length) && len < data.Length)
    }

    ghost function Contents(): multiset<(nat, V)>
      reads this, data
    { Bag(data[..]) }

    /** `ffmap_init`. */
    constructor ()
      ensures Valid() && Contents() == multiset{} && fresh(data)
    {
      data := new Slot<V>[0];
      len := 0;
    }

    /** `ffmap_alloc`: drops what was stored. */
    method Alloc(n: nat)
      modifies this
      ensures Valid() && Contents() == multiset{} && fresh(data)
      ensures IsPow2(data.Length) && 2 <= data.Length && n <= data.Length && (data.Length > 2 ==> data.Length / 2 < n)
      ensures forall i :: 0 <= i < data.Length ==> data[i].Free?
    {
      var cap := AlignPow2(n);
      data := new Slot<V>[cap](_ => Free);
      len := 0;
      EmptyBag(data[..]);
    }

    /** `_ffmap_add`: the first free slot from home takes the item. */
    method AddSlot(hash: nat, val: V) returns (ghost k: nat)
      requires NoHole(data[..]) && len == |Bag(data[..])| < data.Length
      modifies this`len, data
      ensures NoHole(data[..]) && len == |Bag(data[..])| == old(len) + 1
      ensures Contents() == old(Contents()) + multiset{(hash, val)}
      ensures FirstFree(old(data[..]), hash, k)
      ensures data[..] == old(data[..])[(hash + k) % data.Length := Used(hash, val)]
    {
      hide Run, Dist, Next, Bag, NoHole, Pair, Home, FirstFree;
      ghost var s := data[..];
      var n := data.Length;
      var home := Home(n, hash);
      var i: nat := home;
      ghost var f := FreeSlot(s);
      RunStart(s, home, f);
      while data[i].Used?
        invariant len == old(len) && i < n && data[..] == s && Run(s, home, i) && Dist(n, home, i) <= Dist(n, home, f)
        decreases Dist(n, home, f) - Dist(n, home, i)
      {
        RunStep(s, home, i, f);
        i := Next(n, i);
      }
      k := RunFree(s, hash, i);
      FillKeeps(s, hash, i, val);
      FillBag(s, hash, i, val);
      Sizes(Bag(s), (hash, val));
      data[i] := Used(hash, val);
      assert data[..] == s[i := Used(hash, val)];
      len := len + 1;
    }

    /** `_ffmap_resize`. */
    method Resize(newsize: nat)
      requires Valid() && len < newsize
      modifies this
      ensures Valid() && Contents() == old(Contents()) && fresh(data)
      ensures newsize <= data.Length && (data.Length > 2 ==> data.Length / 2 < newsize) && len == old(len)
    {
      hide Run, Dist, NoHole, Bag, Pair, IsPow2;
      var nm := new Map<V>();
      nm.Alloc(newsize);
      ghost var s := data[..];
      NothingYet(s);
      var i := 0;
      while i != data.Length
        invariant 0 <= i <= data.Length && data[..] == s && fresh(nm) && fresh(nm.data)
        invariant nm.data != data && data == old(data)
        invariant NoHole(nm.data[..]) && nm.len == |Bag(nm.data[..])|
        invariant Bag(nm.data[..]) == Bag(s[..i])
        invariant IsPow2(nm.data.Length) && newsize <= nm.data.Length
        invariant nm.data.Length > 2 ==> nm.data.Length / 2 < newsize
      {
        BagPrefix(s, i);
        BagNext(s, i);
        PairOf(s[i]);
        match data[i] {
          case Used(hash, val) => ghost var _ := nm.AddSlot(hash, val);
          case Free =>
        }
        i := i + 1;
      }
      assert s[..i] == s;
      len, data := nm.len, nm.data;
    }

    /** `ffmap_grow`: after it, `more` items can be added without another allocation. */
    method Grow(more: nat)
      requires Valid()
      modifies this
      ensures Valid() && Contents() == old(Contents()) && len == old(len)
      ensures Roomy(len + more, data.Length) && (len + more) * 100 / data.Length <= 75
      ensures var cap := (len + more) * 100 / 75 + 1;
        if cap <= old(data.Length) then data == old(data)
        else fresh(data) && cap <= data.Length && (data.Length > 2 ==> data.Length / 2 < cap)
    {
      hide NoHole, Bag, IsPow2;
      var cap := (len + more) * 100 / 75 + 1;
      if cap > data.Length {
        Resize(cap);
      }
      Reserved(len + more, data.Length);
    }

    /** `ffmap_add_hash`: the buffer is kept if and only if it is at most to three quarters
        full with the new item; the first buffer has 16 slots, each later one twice as many
        as the one before. */
    method AddHash(hash: nat, val: V)
      requires Valid()
      modifies this, data
      ensures Valid() && Contents() == old(Contents()) + multiset{(hash, val)} && len == old(len) + 1
      ensures old(data.Length) == 0 ==> fresh(data) && data.Length == 16
      ensures old(data.Length) > 0 ==>
        if (old(len) + 1) * 100 / old(data.Length) <= 75 then data == old(data)
        else fresh(data) && data.Length == 2 * old(data.Length)
    {
      hide Run, Dist, NoHole, Bag, Pair, IsPow2;
      Sixteen();
      if data.Length == 0 {
        NothingStored(data[..]);
        Alloc(16);
      } else if (len + 1) * 100 / data.Length > 75 {
        Doubles(data.Length);
        Resize(data.Length * 2);
      } else {
        BelowThreshold(len, data.Length);
      }
      ghost var _ := AddSlot(hash, val);
    }

    /** `_ffmap_normalize`: slot `irm` loses its item; items behind it that belong
        before the gap move up, each leaving a new gap, and the last gap is freed. */
    method Normalize(end: nat, irm: nat)
      requires len == |Bag(data[..])| && Gap(data[..], end, irm) && data[irm].Used?
      modifies this`len, data
      ensures NoHole(data[..]) && len == |Bag(data[..])| == old(len) - 1
      ensures Contents() == old(Bag(data[..][irm := Free]))
    {
      hide Run, Dist, NoHole, Bag, Pair, NoHoleBut, Rel, Prev, Settled, Home;
      ghost var s0 := data[..];
      var n := data.Length;
      var r: nat, i: nat := irm, end;
      BagSplit(s0, irm);
      PairOf(s0[irm]);
      Sizes(Bag(s0[irm := Free]), (s0[irm].hash, s0[irm].val));
      SettledEnd(s0, end, r);
      while true
        invariant len == old(len) && i < n && r < n && Gap(data[..], end, r) && data[r].Used?
        invariant Rel(n, end, r) < Rel(n, end, i) < n && Settled(data[..], end, r, i)
        invariant Bag(data[..][r := Free]) == Bag(s0[irm := Free])
        decreases n - Rel(n, end, r), Rel(n, end, i)
      {
        ghost var s := data[..];
        StepBack(s, end, r, i);
        ghost var was := i;
        i := Prev(n, i);
        if i == r {
          break;
        }
        var ni := Home(n, data[i].hash);
        if Rel(n, end, ni) <= Rel(n, end, r) {
          MoveKeeps(s, end, r, i);
          MoveBag(s, r, i);
          data[r] := data[i];
          assert data[..] == s[r := s[i]];
          r := i;
          i := end;
          SettledEnd(data[..], end, r);
        } else {
          SettledStep(s, end, r, was);
        }
      }

      ghost var s := data[..];
      AllSettled(s, end, r, Next(n, r));
      data[r] := Free;
      assert data[..] == s[r := Free];
      len := len - 1;
    }

    /** The search of `ffmap_rm_hash` and `ffmap_rm`: the first slot on the way that
        holds the hash and a value that `matches`, and the free slot behind it. */
    method Search(hash: nat, matches: V -> bool) returns (irm: int, end: nat)
      requires Valid() && len > 0
      ensures end < data.Length && data[end].Free? && Run(data[..], Home(data.Length, hash), end)
      ensures irm >= 0 ==> Hit(data[..], irm, hash, matches)
      ensures irm >= 0 ==> exists k :: FirstHit(data[..], hash, k, matches) && OnWay(data[..], hash, k) == data[irm]
      ensures irm < 0 ==> forall v :: (hash, v) in Contents() ==> !matches(v)
    {
      hide Run, Dist, NoHole, Bag, Passed, Next;
      ghost var s := data[..];
      BagSize(s);
      var n := data.Length;
      ghost var f := FreeSlot(s);
      var sentl: nat := Home(n, hash);
      var i: nat := sentl;
      irm := -1;
      RunStart(s, sentl, f);
      PassedNone(s, sentl, hash, matches);
      while data[i].Used?
        invariant i < n && Run(s, sentl, i) && Dist(n, sentl, i) <= Dist(n, sentl, f)
        invariant if irm < 0 then Passed(s, sentl, i, hash, matches) else Hit(s, irm, hash, matches) && irm < |s|
        invariant irm >= 0 ==> exists k :: FirstHit(s, hash, k, matches) && OnWay(s, hash, k) == s[irm]
        decreases Dist(n, sentl, f) - Dist(n, sentl, i)
      {
        RunStep(s, sentl, i, f);
        if irm < 0 && data[i].hash == hash && matches(data[i].val) {
          irm := i;
          RunHit(s, i, hash, matches);
        }
        if irm < 0 { PassedStep(s, sentl, i, hash, matches); }
        i := Next(n, i);
        if i == sentl {
          assert false;  // a slot is free, so the search never comes full circle
        }
      }
      end := i;
      if irm < 0 { PassedAll(s, end, hash, matches); }
    }

    /** `ffmap_rm`: removes one item with the hash whose value matches. */
    method Rm(hash: nat, matches: V -> bool) returns (ok: bool, ghost removed: Slot<V>)
      requires Valid()
      modifies this`len, data
      ensures Valid() && data == old(data)
      ensures ok <==> exists v :: (hash, v) in old(Contents()) && matches(v)
      ensures ok ==>
        removed.Used? && removed.hash == hash && matches(removed.val) && (hash, removed.val) in old(Contents())
      ensures ok ==> exists k :: FirstHit(old(data[..]), hash, k, matches) && OnWay(old(data[..]), hash, k) == removed
      ensures !ok ==> removed.Free?
      ensures Contents() == old(Contents()) - Pair(removed)
    {
      hide Run, Dist, Home, OnWay, FirstHit, Gap, IsPow2;
      removed := Free;
      if len == 0 {
        return false, removed;
      }
      var irm, end := Search(hash, matches);
      if irm < 0 {
        return false, removed;
      }

      ghost var s := data[..];
      removed := s[irm];
      BagHas(s, irm);
      BagSplit(s, irm);
      HitGap(s, hash, irm, end);
      Normalize(end, irm);
      ok := true;
    }

    /** `ffmap_rm_hash`: removes one copy of the pair. */
    method RmHash(hash: nat, val: V) returns (ok: bool)
      requires Valid()
      modifies this`len, data
      ensures Valid() && data == old(data)
      ensures ok <==> (hash, val) in old(Contents())
      ensures Contents() == old(Contents()) - multiset{(hash, val)}
    {
      hide Bag, NoHole, IsPow2;
      ghost var removed;
      ok, removed := Rm(hash, v => v == val);
      PairOf(removed);
      assert ok ==> removed == Used(hash, val);
      assert !ok ==> old(Contents()) - multiset{(hash, val)} == old(Contents());
    }

    /** `ffmap_find_hash`. */
    method FindHash(hash: nat, matches: V -> bool) returns (r: Option<V>)
      requires Valid()
      ensures r.Some? ==> (hash, r.value) in Contents() && matches(r.value)
      ensures r.Some? ==>
        exists k :: FirstHit(data[..], hash, k, matches) && OnWay(data[..], hash, k) == Used(hash, r.value)
      ensures r.None? ==> forall v :: (hash, v) in Contents() ==> !matches(v)
    {
      if len == 0 {
        return None;
      }
      hide Run, Dist, NoHole, Bag, Passed, Next;
      ghost var s := data[..];
      BagSize(s);
      var n := data.Length;
      ghost var f := FreeSlot(s);
      var sentl: nat := Home(n, hash);
      var i: nat := sentl;
      RunStart(s, sentl, f);
      PassedNone(s, sentl, hash, matches);
      while data[i].Used?
        invariant i < n && Run(s, sentl, i) && Dist(n, sentl, i) <= Dist(n, sentl, f)
        invariant Passed(s, sentl, i, hash, matches)
        decreases Dist(n, sentl, f) - Dist(n, sentl, i)
      {
        if data[i].hash == hash && matches(data[i].val) {
          BagHas(s, i);
          RunHit(s, i, hash, matches);
          return Some(data[i].val);
        }
        RunStep(s, sentl, i, f);
        PassedStep(s, sentl, i, hash, matches);
        i := Next(n, i);
        if i == sentl {
          assert false;  // a slot is free, so the search never comes full circle
        }
      }
      PassedAll(s, i, hash, matches);
      r := None;
    }
  }

  /** The least power of two that is at least 16 is 16. */
  lemma Sixteen()
    ensures forall r: nat :: IsPow2(r) && 16 <= r && r / 2 < 16 ==> r == 16
  {
    assert IsPow2(16);
    forall r: nat | IsPow2(r) && 16 <= r && r / 2 < 16 ensures r == 16 { LeastIs(16, r); }
  }

  lemma Doubles(cap: nat)
    requires IsPow2(cap)
    ensures forall r: nat :: IsPow2(r) && cap * 2 <= r && r / 2 < cap * 2 ==> r == cap * 2
  {
    Twice(cap);
    forall r: nat | IsPow2(r) && cap * 2 <= r && r / 2 < cap * 2 ensures r == cap * 2 { LeastIs(cap * 2, r); }
  }

  lemma LeastIs(m: nat, r: nat)
    requires IsPow2(m) && IsPow2(r) && m <= r && r / 2 < m
    ensures r == m
  {
    hide IsPow2;
    var q := Divides(m, r);
    Scaled(m, 2, q);
  }

  /** The search leaves a gap to be closed between the item and the free slot behind it. */
  lemma HitGap<V>(s: seq<Slot<V>>, hash: nat, irm: nat, end: nat)
    requires NoHole(s) && end < |s| && s[end].Free? && Run(s, Home(|s|, hash), end)
    requires irm < |s| && s[irm].Used? && s[irm].hash == hash
    ensures Gap(s, end, irm)
  {
    var n, h := |s|, Home(|s|, hash);
    assert Dist(n, h, irm) < Dist(n, h, end);
    forall i | 0 <= i < n && Dist(n, irm, i) < Dist(n, irm, end) ensures s[i].Used? {
      assert Dist(n, h, i) < Dist(n, h, end);
    }
  }

  lemma Sizes<V>(a: multiset<(nat, V)>, x: (nat, V))
    ensures |a + multiset{x}| == |a| + 1
  {}

  lemma PairOf<V>(x: Slot<V>)
    ensures Pair(x) == if x.Free? then multiset{} else multiset{(x.hash, x.val)}
  {}

  lemma NothingYet<V>(s: seq<Slot<V>>)
    ensures Bag(s[..0]) == multiset{}
  {}

  /** The items in the first i slots are some of all. */
  lemma {:induction false} BagPrefix<V>(s: seq<Slot<V>>, i: nat)
    requires i <= |s|
    ensures |Bag(s[..i])| <= |Bag(s)|
    decreases |s| - i
  {
    if i < |s| {
      BagPrefix(s, i + 1);
      BagNext(s, i);
    } else {
      assert s[..i] == s;
    }
  }

  lemma BagNext<V>(s: seq<Slot<V>>, i: nat)
    requires i < |s|
    ensures Bag(s[..i + 1]) == Bag(s[..i]) + Pair(s[i])
  {
    assert s[..i + 1][..i] == s[..i];
  }

  lemma NothingStored<V>(s: seq<Slot<V>>)
    requires |s| == 0
    ensures Bag(s) == multiset{}
  {}

  /** Below the threshold there is room for one more item and a free slot besides. */
  lemma BelowThreshold(len: nat, cap: nat)
    requires 0 < cap && (len + 1) * 100 / cap <= 75
    ensures len + 1 < cap
  {
    var a := (len + 1) * 100;
    assert a == cap * (a / cap) + a % cap;
    assert cap * (a / cap) <= cap * 75;
  }
}
