/** The merge sort of ffbase/sort-merge.h with the insertion sort of
    ffbase/sort-insertion.h for short ranges.

    The only thing used of the caller's function is whether it returns at most 0; `Le`
    is that relation.  A result is right when it is sorted and `Stable`: elements that
    are equal to each other keep their order.
  */
module Sorting {
  import opened Powers

  type Comparator<!T> = (T, T) -> int

  predicate Le<T>(cmp: Comparator<T>, a: T, b: T) { cmp(a, b) <= 0 }

  predicate Same<T>(cmp: Comparator<T>, a: T, b: T) { Le(cmp, a, b) && Le(cmp, b, a) }

  ghost predicate TotalPreorder<T(!new)>(cmp: Comparator<T>) {
    && (forall a, b :: Le(cmp, a, b) || Le(cmp, b, a))
    && (forall a, b, c :: Le(cmp, a, b) && Le(cmp, b, c) ==> Le(cmp, a, c))
  }

  ghost predicate Sorted<T>(cmp: Comparator<T>, s: seq<T>) {
    forall i, j :: 0 <= i < j < |s| ==> Le(cmp, s[i], s[j])
  }

  /** The elements of s that are equal to x, in their order. */
  ghost function Class<T>(cmp: Comparator<T>, x: T, s: seq<T>): seq<T> {
    if s == [] then [] else Class(cmp, x, s[..|s| - 1]) + (if Same(cmp, x, s[|s| - 1]) then [s[|s| - 1]] else [])
  }

  /** Equal elements are the same and in the same order in both. */
  ghost predicate Stable<T(!new)>(cmp: Comparator<T>, s: seq<T>, t: seq<T>) {
    forall x :: Class(cmp, x, s) == Class(cmp, x, t)
  }

  lemma {:induction false} ClassJoin<T>(cmp: Comparator<T>, x: T, a: seq<T>, b: seq<T>)
    ensures Class(cmp, x, a + b) == Class(cmp, x, a) + Class(cmp, x, b)
  {
    if b == [] {
      assert a + b == a;
    } else {
      var n := |b| - 1;
      assert (a + b)[..|a| + n] == a + b[..n];
      ClassJoin(cmp, x, a, b[..n]);
    }
  }

  lemma {:induction false} NoClass<T>(cmp: Comparator<T>, x: T, s: seq<T>)
    requires forall i :: 0 <= i < |s| ==> !Same(cmp, x, s[i])
    ensures Class(cmp, x, s) == []
  {
    if s == [] {
    } else {
      NoClass(cmp, x, s[..|s| - 1]);
    }
  }

  lemma ClassOne<T>(cmp: Comparator<T>, x: T, y: T)
    ensures Class(cmp, x, [y]) == if Same(cmp, x, y) then [y] else []
  {
    assert [y][..0] == [];
  }

  /** Stability alone makes the result a rearrangement of the input. */
  lemma StablePermutes<T(!new)>(cmp: Comparator<T>, s: seq<T>, t: seq<T>)
    requires TotalPreorder(cmp) && Stable(cmp, s, t)
    ensures multiset(s) == multiset(t)
  {
    forall x ensures multiset(s)[x] == multiset(t)[x] {
      ClassCounts(cmp, x, s);
      ClassCounts(cmp, x, t);
    }
  }

  lemma {:induction false} ClassCounts<T(!new)>(cmp: Comparator<T>, x: T, s: seq<T>)
    requires TotalPreorder(cmp)
    ensures multiset(Class(cmp, x, s))[x] == multiset(s)[x]
  {
    hide TotalPreorder, Same, Class;
    if s != [] {
      var init, last := s[..|s| - 1], s[|s| - 1];
      ClassCounts(cmp, x, init);
      CountsNext(cmp, x, init, last);
      assert s == init + [last];
    } else {
      NoClass(cmp, x, s);
    }
  }

  lemma CountsNext<T(!new)>(cmp: Comparator<T>, x: T, s: seq<T>, y: T)
    requires TotalPreorder(cmp) && multiset(Class(cmp, x, s))[x] == multiset(s)[x]
    ensures multiset(Class(cmp, x, s + [y]))[x] == multiset(s + [y])[x]
  {
    hide Class, TotalPreorder, Same;
    ClassNext(cmp, x, s, y);
    CountNext(s, y, x);
    CountNext(Class(cmp, x, s), y, x);
    Reflexive(cmp, x);
  }

  lemma Reflexive<T(!new)>(cmp: Comparator<T>, x: T)
    requires TotalPreorder(cmp)
    ensures Same(cmp, x, x)
  {}

  lemma ClassNext<T>(cmp: Comparator<T>, x: T, s: seq<T>, y: T)
    ensures Class(cmp, x, s + [y]) == if Same(cmp, x, y) then Class(cmp, x, s) + [y] else Class(cmp, x, s)
  {
    ClassJoin(cmp, x, s, [y]);
    ClassOne(cmp, x, y);
  }

  lemma CountNext<T>(s: seq<T>, y: T, x: T)
    ensures multiset(s + [y])[x] == multiset(s)[x] + if x == y then 1 else 0
  {}

  /** There is only one sorted and stable result. */
  lemma {:induction false} OnlyOne<T(!new)>(cmp: Comparator<T>, s: seq<T>, t: seq<T>)
    requires TotalPreorder(cmp) && Sorted(cmp, s) && Sorted(cmp, t) && Stable(cmp, s, t)
    ensures s == t
    decreases |s|
  {
    StablePermutes(cmp, s, t);
    assert |multiset(s)| == |s| && |multiset(t)| == |t|;
    if s == [] {
    } else {
      var n := |s| - 1;
      var x, y := s[n], t[n];
      assert x in multiset(t) && y in multiset(s);
      LastIsGreatest(cmp, s, y);
      LastIsGreatest(cmp, t, x);
      assert Class(cmp, x, s) == Class(cmp, x, s[..n]) + [x];
      assert Class(cmp, x, t) == Class(cmp, x, t[..n]) + [y];
      assert Class(cmp, x, s)[|Class(cmp, x, s)| - 1] == x && Class(cmp, x, t)[|Class(cmp, x, t)| - 1] == y;
      forall z ensures Class(cmp, z, s[..n]) == Class(cmp, z, t[..n]) {
        var tail := if Same(cmp, z, x) then [x] else [];
        assert Class(cmp, z, s) == Class(cmp, z, s[..n]) + tail;
        assert Class(cmp, z, t) == Class(cmp, z, t[..n]) + tail;
        assert Class(cmp, z, s)[..|Class(cmp, z, s)| - |tail|] == Class(cmp, z, s[..n]);
        assert Class(cmp, z, t)[..|Class(cmp, z, t)| - |tail|] == Class(cmp, z, t[..n]);
      }
      OnlyOne(cmp, s[..n], t[..n]);
      assert s == s[..n] + [x] && t == t[..n] + [y];
    }
  }

  lemma LastIsGreatest<T(!new)>(cmp: Comparator<T>, s: seq<T>, x: T)
    requires TotalPreorder(cmp) && Sorted(cmp, s) && x in s
    ensures Le(cmp, x, s[|s| - 1])
  {}

  // ---------- merging ----------

  ghost function Merge<T>(cmp: Comparator<T>, a: seq<T>, b: seq<T>): (r: seq<T>)
    ensures |r| == |a| + |b|
    decreases |a| + |b|
  {
    if a == [] then b else if b == [] then a
    else if Le(cmp, a[0], b[0]) then [a[0]] + Merge(cmp, a[1..], b)
    else [b[0]] + Merge(cmp, a, b[1..])
  }

  lemma {:induction false} MergeFrom<T>(cmp: Comparator<T>, a: seq<T>, b: seq<T>, i: nat)
    requires i < |a| + |b|
    ensures Merge(cmp, a, b)[i] in a || Merge(cmp, a, b)[i] in b
    decreases |a| + |b|
  {
    if a != [] && b != [] && i > 0 {
      if Le(cmp, a[0], b[0]) {
        MergeFrom(cmp, a[1..], b, i - 1);
      } else {
        MergeFrom(cmp, a, b[1..], i - 1);
      }
    }
  }

  lemma {:induction false} MergeSorted<T(!new)>(cmp: Comparator<T>, a: seq<T>, b: seq<T>)
    requires TotalPreorder(cmp) && Sorted(cmp, a) && Sorted(cmp, b)
    ensures Sorted(cmp, Merge(cmp, a, b))
    decreases |a| + |b|
  {
    if a != [] && b != [] {
      var left := Le(cmp, a[0], b[0]);
      var h := if left then a[0] else b[0];
      var a', b' := if left then a[1..] else a, if left then b else b[1..];
      MergeSorted(cmp, a', b');
      var m := Merge(cmp, a', b');
      forall i | 0 <= i < |m| ensures Le(cmp, h, m[i]) {
        MergeFrom(cmp, a', b', i);
        if m[i] in a' { FirstIsLeast(cmp, a, m[i]); } else { FirstIsLeast(cmp, b, m[i]); }
      }
    }
  }

  lemma FirstIsLeast<T(!new)>(cmp: Comparator<T>, s: seq<T>, x: T)
    requires TotalPreorder(cmp) && Sorted(cmp, s) && x in s
    ensures Le(cmp, s[0], x)
  {}

  /** Of equal elements those of the first part come first. */
  lemma {:induction false} MergeClass<T(!new)>(cmp: Comparator<T>, a: seq<T>, b: seq<T>, x: T)
    requires TotalPreorder(cmp) && Sorted(cmp, a) && Sorted(cmp, b)
    ensures Class(cmp, x, Merge(cmp, a, b)) == Class(cmp, x, a) + Class(cmp, x, b)
    decreases |a| + |b|
  {
    hide Class, Merge, Sorted, TotalPreorder;
    NoClass(cmp, x, []);
    MergeStep(cmp, a, b);
    if a != [] && b != [] {
      SortedRest(cmp, a);
      SortedRest(cmp, b);
      var left := Le(cmp, a[0], b[0]);
      if left {
        MergeClass(cmp, a[1..], b, x);
        ClassCons(cmp, x, a[0], Merge(cmp, a[1..], b));
        ClassCons(cmp, x, a[0], a[1..]);
        assert [a[0]] + a[1..] == a;
        Assoc(if Same(cmp, x, a[0]) then [a[0]] else [], Class(cmp, x, a[1..]), Class(cmp, x, b));
      } else {
        MergeClass(cmp, a, b[1..], x);
        ClassCons(cmp, x, b[0], Merge(cmp, a, b[1..]));
        ClassCons(cmp, x, b[0], b[1..]);
        assert [b[0]] + b[1..] == b;
        if Same(cmp, x, b[0]) {
          AllGreater(cmp, a, b[0], x);
          assert [] + Class(cmp, x, b[1..]) == Class(cmp, x, b[1..]) && [] + Class(cmp, x, b) == Class(cmp, x, b);
        } else {
          assert [] + Class(cmp, x, b[1..]) == Class(cmp, x, b[1..]);
          assert [] + (Class(cmp, x, a) + Class(cmp, x, b[1..])) == Class(cmp, x, a) + Class(cmp, x, b[1..]);
        }
      }
    } else {
      assert [] + Class(cmp, x, b) == Class(cmp, x, b) && Class(cmp, x, a) + [] == Class(cmp, x, a);
    }
  }

  lemma SortedRest<T>(cmp: Comparator<T>, s: seq<T>)
    requires s != [] && Sorted(cmp, s)
    ensures Sorted(cmp, s[1..])
  {}

  lemma Assoc<T>(a: seq<T>, b: seq<T>, c: seq<T>)
    ensures a + (b + c) == (a + b) + c
  {}

  lemma MergeStep<T>(cmp: Comparator<T>, a: seq<T>, b: seq<T>)
    ensures Merge(cmp, a, b) ==
      if a == [] then b else if b == [] then a
      else if Le(cmp, a[0], b[0]) then [a[0]] + Merge(cmp, a[1..], b) else [b[0]] + Merge(cmp, a, b[1..])
  {}

  lemma ClassCons<T>(cmp: Comparator<T>, x: T, y: T, s: seq<T>)
    ensures Class(cmp, x, [y] + s) == (if Same(cmp, x, y) then [y] else []) + Class(cmp, x, s)
  {
    ClassJoin(cmp, x, [y], s);
    ClassOne(cmp, x, y);
  }

  /** When the first of a is greater than y, nothing in a is equal to y. */
  lemma AllGreater<T(!new)>(cmp: Comparator<T>, a: seq<T>, y: T, x: T)
    requires TotalPreorder(cmp) && Sorted(cmp, a) && a != [] && !Le(cmp, a[0], y) && Same(cmp, x, y)
    ensures Class(cmp, x, a) == []
  {
    forall i | 0 <= i < |a| ensures !Same(cmp, x, a[i]) {
      FirstIsLeast(cmp, a, a[i]);
    }
    NoClass(cmp, x, a);
  }

  // ---------- inserting ----------

  /** Putting the last element before greater ones keeps equal elements in order. */
  lemma InsertClass<T(!new)>(cmp: Comparator<T>, s: seq<T>, k: nat, x: T, y: T)
    requires TotalPreorder(cmp) && k <= |s| && forall i :: k <= i < |s| ==> !Le(cmp, s[i], x)
    ensures Class(cmp, y, s[..k] + [x] + s[k..]) == Class(cmp, y, s + [x])
  {
    hide Class;
    assert s + [x] == s[..k] + s[k..] + [x];
    ClassJoin(cmp, y, s[..k] + [x], s[k..]);
    ClassJoin(cmp, y, s[..k], [x]);
    ClassJoin(cmp, y, s[..k] + s[k..], [x]);
    ClassJoin(cmp, y, s[..k], s[k..]);
    ClassOne(cmp, y, x);
    if Same(cmp, y, x) {
      forall i | 0 <= i < |s[k..]| ensures !Same(cmp, y, s[k..][i]) {
        assert !Le(cmp, s[k + i], x);
      }
      NoClass(cmp, y, s[k..]);
    }
  }

  lemma InsertSorted<T(!new)>(cmp: Comparator<T>, s: seq<T>, k: nat, x: T)
    requires TotalPreorder(cmp) && Sorted(cmp, s) && k <= |s|
    requires (forall i :: k <= i < |s| ==> !Le(cmp, s[i], x)) && (k > 0 ==> Le(cmp, s[k - 1], x))
    ensures Sorted(cmp, s[..k] + [x] + s[k..])
  {
    var t := s[..k] + [x] + s[k..];
    forall i, j | 0 <= i < j < |t| ensures Le(cmp, t[i], t[j]) {
      if j == k {
        if i < k - 1 { assert Le(cmp, s[i], s[k - 1]); }
      } else if i == k {
        assert !Le(cmp, s[j - 1], x);
      }
    }
  }

  // ---------- the sorts, in place ----------

  /** The range of n elements from lo on is sorted and stable against `was`, and the rest
      of the array is as it was in `all`. */
  ghost predicate Done<T(!new)>(cmp: Comparator<T>, all: seq<T>, now: seq<T>, lo: nat, n: nat) {
    && |now| == |all| && lo + n <= |all|
    && now[..lo] == all[..lo] && now[lo + n..] == all[lo + n..]
    && Sorted(cmp, now[lo..lo + n]) && Stable(cmp, all[lo..lo + n], now[lo..lo + n])
  }

  lemma DoneNone<T(!new)>(cmp: Comparator<T>, all: seq<T>, lo: nat, n: nat)
    requires n <= 1 && lo + n <= |all|
    ensures Done(cmp, all, all, lo, n)
  {}

  /** One more element is in its place. */
  lemma DoneNext<T(!new)>(cmp: Comparator<T>, all: seq<T>, was: seq<T>, now: seq<T>, lo: nat, i: nat,
                          s: seq<T>, k: nat, x: T)
    requires TotalPreorder(cmp) && Done(cmp, all, was, lo, i) && lo + i < |all| && |now| == |all|
    requires s == was[lo..lo + i] && x == was[lo + i]
    requires k <= i && (k > 0 ==> Le(cmp, s[k - 1], x))
    requires forall j :: k <= j < i ==> !Le(cmp, s[j], x)
    requires now == was[..lo + k] + [x] + was[lo + k..lo + i] + was[lo + i + 1..]
    ensures Done(cmp, all, now, lo, i + 1)
  {
    hide Class;
    assert x == all[lo + i] by { assert was[lo + i..][0] == all[lo + i..][0]; }
    var t := s[..k] + [x] + s[k..];
    assert now[lo..lo + i + 1] == t;
    InsertSorted(cmp, s, k, x);
    assert all[lo..lo + i + 1] == all[lo..lo + i] + [x];
    forall y ensures Class(cmp, y, all[lo..lo + i + 1]) == Class(cmp, y, t) {
      InsertClass(cmp, s, k, x, y);
      ClassJoin(cmp, y, all[lo..lo + i], [x]);
      ClassJoin(cmp, y, s, [x]);
    }
    assert now[..lo] == was[..lo];
    assert now[lo + i + 1..] == was[lo + i + 1..] == was[lo + i..][1..] == all[lo + i..][1..] == all[lo + i + 1..];
  }

  /** The array while element i moves down: those behind j are moved up by one. */
  ghost function Moving<T>(was: seq<T>, lo: nat, i: nat, j: int): (r: seq<T>)
    requires -1 <= j < i && lo + i < |was|
    ensures |r| == |was|
  { was[..lo + j + 2] + was[lo + j + 1..lo + i] + was[lo + i + 1..] }

  lemma MovingStart<T>(was: seq<T>, lo: nat, i: nat)
    requires lo + i < |was|
    ensures Moving(was, lo, i, i - 1) == was
  {}

  /** Moving element j up by one. */
  lemma Shift<T>(was: seq<T>, lo: nat, i: nat, j: nat)
    requires j < i && lo + i < |was|
    ensures var now := Moving(was, lo, i, j);
      now[lo + j] == was[lo + j] && now[lo + j + 1 := now[lo + j]] == Moving(was, lo, i, j - 1)
  {}

  /** The inner loop of `_ffsort_insertion`: moves element i down over those greater than it. */
  method Insert<T(!new)>(tmp: array<T>, data: array<T>, lo: nat, i: nat, cmp: Comparator<T>, ghost all: seq<T>)
    returns (calls: nat)
    requires TotalPreorder(cmp) && lo + i < data.Length && tmp != data && 0 < tmp.Length
    requires Done(cmp, all, data[..], lo, i)
    modifies tmp, data
    ensures Done(cmp, all, data[..], lo, i + 1) && calls <= i
  {
    hide Sorted, Stable, TotalPreorder, Done, Moving;
    ghost var was := data[..];
    ghost var s := was[lo..lo + i];
    tmp[0] := data[lo + i];
    var x := tmp[0];
    var j := i - 1;
    calls := 0;
    MovingStart(was, lo, i);
    while j >= 0
      invariant -1 <= j < i && calls <= i - 1 - j && tmp[0] == x
      invariant data[..] == Moving(was, lo, i, j)
      invariant forall k :: j < k < i ==> !Le(cmp, s[k], x)
    {
      ghost var now := data[..];
      Shift(was, lo, i, j);
      assert data[lo + j] == now[lo + j] == s[j];
      calls := calls + 1;
      if cmp(data[lo + j], tmp[0]) <= 0 {
        break;
      }
      data[lo + j + 1] := data[lo + j];
      assert data[..] == now[lo + j + 1 := now[lo + j]];
      j := j - 1;
    }

    ghost var k, now := j + 1, data[..];
    Place(was, lo, i, k, x);
    data[lo + j + 1] := tmp[0];
    assert data[..] == now[lo + k := x];
    DoneSize(cmp, all, was, lo, i);
    DoneNext(cmp, all, was, data[..], lo, i, s, k, x);
  }

  lemma Place<T>(was: seq<T>, lo: nat, i: nat, k: nat, x: T)
    requires k <= i && lo + i < |was|
    ensures Moving(was, lo, i, k - 1)[lo + k := x]
      == was[..lo + k] + [x] + was[lo + k..lo + i] + was[lo + i + 1..]
  {}

  lemma DoneSize<T(!new)>(cmp: Comparator<T>, all: seq<T>, now: seq<T>, lo: nat, n: nat)
    requires Done(cmp, all, now, lo, n)
    ensures |now| == |all|
  {}

  /** `_ffsort_insertion`.  Returns the number of calls of the comparison function. */
  method InsertionSort<T(!new)>(tmp: array<T>, data: array<T>, lo: nat, n: nat, cmp: Comparator<T>) returns (calls: nat)
    requires TotalPreorder(cmp) && lo + n <= data.Length && tmp != data && 0 < tmp.Length
    modifies tmp, data
    ensures Done(cmp, old(data[..]), data[..], lo, n)
    ensures 2 * calls <= n * (if n > 0 then n - 1 else 0)
  {
    hide TotalPreorder, Done;
    ghost var all := data[..];
    calls := 0;
    var i: nat := 0;
    DoneNone(cmp, all, lo, 0);
    while i != n
      invariant 0 <= i <= n && Done(cmp, all, data[..], lo, i)
      invariant 2 * calls <= i * (if i > 0 then i - 1 else 0)
    {
      var c := Insert(tmp, data, lo, i, cmp, all);
      calls := calls + c;
      i := i + 1;
    }
  }

  // ---------- merge sort ----------

  /** With x from d on. */
  ghost function Spliced<T>(was: seq<T>, d: nat, x: seq<T>): (r: seq<T>)
    requires d + |x| <= |was|
    ensures |r| == |was|
  { was[..d] + x + was[d + |x|..] }

  lemma SplicedNone<T>(was: seq<T>, d: nat)
    requires d <= |was|
    ensures Spliced(was, d, []) == was
  {}

  lemma SplicedNext<T>(was: seq<T>, d: nat, x: seq<T>, y: T)
    requires d + |x| < |was|
    ensures Spliced(was, d, x)[d + |x| := y] == Spliced(was, d, x + [y])
  {}

  /** `ffmem_copy` */
  method Copy<T>(dst: array<T>, d: nat, src: array<T>, s: nat, n: nat)
    requires dst != src && d + n <= dst.Length && s + n <= src.Length
    modifies dst
    ensures dst[..] == Spliced(old(dst[..]), d, src[s..s + n])
  {
    hide Spliced;
    ghost var was, from := dst[..], src[..];
    var i := 0;
    SplicedNone(was, d);
    assert from[s..s] == [];
    while i != n
      invariant 0 <= i <= n && src[..] == from && dst[..] == Spliced(was, d, from[s..s + i])
    {
      ghost var now := dst[..];
      SplicedNext(was, d, from[s..s + i], from[s + i]);
      assert from[s..s + i + 1] == from[s..s + i] + [from[s + i]];
      dst[d + i] := src[s + i];
      assert dst[..] == now[d + i := from[s + i]];
      i := i + 1;
    }
    assert src[s..s + n] == from[s..s + n];
  }

  /** The least k with n <= 2^k. */
  ghost function CeilLog2(n: nat): nat
    requires n > 0
  { if n == 1 then 0 else 1 + CeilLog2((n + 1) / 2) }

  lemma {:induction false} CeilLog2Is(n: nat)
    requires n > 0
    ensures n <= Shifted(CeilLog2(n)) && (n > 1 ==> Shifted(CeilLog2(n) - 1) < n)
  {
    if n == 1 {
    } else {
      CeilLog2Is((n + 1) / 2);
      if n > 2 { assert Shifted(CeilLog2(n) - 1) == 2 * Shifted(CeilLog2((n + 1) / 2) - 1); }
    }
  }

  lemma {:induction false} CeilLog2Grows(a: nat, b: nat)
    requires 0 < a <= b
    ensures CeilLog2(a) <= CeilLog2(b)
    decreases b
  {
    if a == 1 {
    } else {
      CeilLog2Grows((a + 1) / 2, (b + 1) / 2);
    }
  }

  /** Twice the bound on the calls: n * (ceil(log2 n) + K/2), K elements being sorted by
      insertion. */
  ghost predicate Within(calls: nat, n: nat, elsize: nat)
    requires elsize > 0
  { if n == 0 then calls == 0 else 2 * calls <= n * (2 * CeilLog2(n) + 64 / elsize) }

  lemma Times(x: nat, y: nat, z: nat)
    requires y <= z
    ensures x * y <= x * z
  {}

  lemma Quotient(n: nat, d: nat)
    requires d > 0 && n * d <= 64
    ensures n <= 64 / d
  {
    var k := 64 / d;
    if n > k { Times(d, k + 1, n); }
  }

  lemma ShortWithin(calls: nat, n: nat, elsize: nat)
    requires elsize > 0 && n > 0 && n * elsize <= 64 && 2 * calls <= n * (n - 1)
    ensures Within(calls, n, elsize)
  {
    Quotient(n, elsize);
    Times(n, n - 1, 2 * CeilLog2(n) + 64 / elsize);
  }

  lemma HalvesWithin(a: nat, b: nat, m: nat, n: nat, elsize: nat)
    requires elsize > 0 && n > 1 && Within(a, n / 2, elsize) && Within(b, n - n / 2, elsize) && m <= n
    ensures Within(a + b + m, n, elsize)
  {
    var l, r := n / 2, n - n / 2;
    CeilLog2Grows(l, r);
    Halving(a, b, m, l, r, CeilLog2(l), CeilLog2(r), 64 / elsize);
    assert r == (n + 1) / 2;
  }

  lemma Halving(a: nat, b: nat, m: nat, l: nat, r: nat, p: nat, q: nat, k: nat)
    requires 2 * a <= l * (2 * p + k) && 2 * b <= r * (2 * q + k) && m <= l + r && p <= q
    ensures 2 * (a + b + m) <= (l + r) * (2 * (1 + q) + k)
  {
    var c := 2 * q + k;
    Times(l, 2 * p + k, c);
    assert l * c + r * c == (l + r) * c;
    assert (l + r) * (c + 2) == (l + r) * c + (l + r) * 2;
  }

  /** The two sorted halves, and the array they are in. */
  ghost predicate Halves<T(!new)>(cmp: Comparator<T>, all: seq<T>, now: seq<T>, lo: nat, n: nat) {
    && n > 1 && |now| == |all| && lo + n <= |all|
    && now[..lo] == all[..lo] && now[lo + n..] == all[lo + n..]
    && Sorted(cmp, now[lo..lo + n / 2]) && Sorted(cmp, now[lo + n / 2..lo + n])
    && Stable(cmp, all[lo..lo + n / 2], now[lo..lo + n / 2])
    && Stable(cmp, all[lo + n / 2..lo + n], now[lo + n / 2..lo + n])
  }

  lemma HalvesDone<T(!new)>(cmp: Comparator<T>, all: seq<T>, mid: seq<T>, now: seq<T>, lo: nat, n: nat)
    requires n > 1 && lo + n <= |all|
    requires Done(cmp, all, mid, lo, n / 2) && Done(cmp, mid, now, lo + n / 2, n - n / 2)
    ensures Halves(cmp, all, now, lo, n)
  {
    hide Sorted, Stable;
    var h := lo + n / 2;
    assert now[lo..h] == now[..h][lo..] == mid[..h][lo..] == mid[lo..h];
    assert now[..lo] == now[..h][..lo] == mid[..h][..lo] == mid[..lo];
    assert mid[h..lo + n] == mid[h..][..n - n / 2] == all[h..][..n - n / 2] == all[h..lo + n];
    assert now[lo + n..] == mid[lo + n..] == mid[h..][n - n / 2..] == all[h..][n - n / 2..] == all[lo + n..];
  }

  lemma MergedDone<T(!new)>(cmp: Comparator<T>, all: seq<T>, now: seq<T>, end: seq<T>, lo: nat, n: nat)
    requires TotalPreorder(cmp) && Halves(cmp, all, now, lo, n) && |end| == |all|
    requires end == now[..lo] + Merge(cmp, now[lo..lo + n / 2], now[lo + n / 2..lo + n]) + now[lo + n..]
    ensures Done(cmp, all, end, lo, n)
  {
    hide Merge, Class;
    var h := lo + n / 2;
    var a, b := now[lo..h], now[h..lo + n];
    MergeSorted(cmp, a, b);
    var before, after := all[lo..lo + n], end[lo..lo + n];
    assert after == Merge(cmp, a, b) && end[..lo] == now[..lo] && end[lo + n..] == now[lo + n..];
    assert before == all[lo..h] + all[h..lo + n];
    forall x ensures Class(cmp, x, before) == Class(cmp, x, after) {
      MergeClass(cmp, a, b, x);
      ClassJoin(cmp, x, all[lo..h], all[h..lo + n]);
    }
  }

  /** The merging loop: the smaller of the two first elements goes to tmp, the left one
      of equals; returns what is left of both halves, a and b. */
  method MergeInto<T(!new)>(tmp: array<T>, data: array<T>, lo: nat, n1: nat, n2: nat, cmp: Comparator<T>,
                            ghost a: seq<T>, ghost b: seq<T>)
    returns (nL: nat, nR: nat, calls: nat)
    requires lo + n1 + n2 <= data.Length && n1 + n2 <= tmp.Length && tmp != data
    requires |a| == n1 && |b| == n2 && data[lo..lo + n1] == a && data[lo + n1..lo + n1 + n2] == b
    modifies tmp
    ensures nL <= n1 && nR <= n2 && (nL == 0 || nR == 0) && calls <= n1 + n2
    ensures tmp[..n1 + n2 - nL - nR] + (a[n1 - nL..] + b[n2 - nR..]) == Merge(cmp, a, b)
  {
    hide Merge, Merging;
    nL, nR, calls := n1, n2, 0;
    var l, r, t: nat := lo, lo + n1, 0;
    ghost var now, done := data[..], [];
    MergingStart(cmp, a, b);
    while nL != 0 && nR != 0
      invariant nL <= n1 && nR <= n2 && l + nL == lo + n1 && r + nR == lo + n1 + n2 && t + nL + nR == n1 + n2
      invariant calls == t && tmp[..t] == done && data[..] == now
      invariant Merging(cmp, a, b, n1 - nL, n2 - nR, done)
    {
      SliceAt(now, lo, a, n1 - nL);
      SliceAt(now, lo + n1, b, n2 - nR);
      var left := MergeOne(tmp, t, data, l, r, cmp, a, b, n1 - nL, n2 - nR, done);
      done := tmp[..t + 1];
      t, calls := t + 1, calls + 1;
      if left {
        l, nL := l + 1, nL - 1;
      } else {
        r, nR := r + 1, nR - 1;
      }
    }
    MergingEnd(cmp, a, b, n1 - nL, n2 - nR, done);
  }

  /** One round: the smaller of data[l] and data[r] goes to tmp, the left one of equals. */
  method MergeOne<T(!new)>(tmp: array<T>, t: nat, data: array<T>, l: nat, r: nat, cmp: Comparator<T>,
                           ghost a: seq<T>, ghost b: seq<T>, ghost i: nat, ghost j: nat, ghost done: seq<T>)
    returns (left: bool)
    requires l < data.Length && r < data.Length && t < tmp.Length && tmp != data && tmp[..t] == done
    requires Merging(cmp, a, b, i, j, done) && i < |a| && j < |b| && data[l] == a[i] && data[r] == b[j]
    modifies tmp
    ensures if left then Merging(cmp, a, b, i + 1, j, tmp[..t + 1]) else Merging(cmp, a, b, i, j + 1, tmp[..t + 1])
  {
    hide Merge, Merging;
    MergingNext(cmp, a, b, i, j, done);
    left := cmp(data[l], data[r]) <= 0;
    if left {
      Store(tmp, t, data[l]);
    } else {
      Store(tmp, t, data[r]);
    }
  }

  lemma SliceAt<T>(s: seq<T>, lo: nat, a: seq<T>, i: nat)
    requires lo + |a| <= |s| && s[lo..lo + |a|] == a && i < |a|
    ensures s[lo + i] == a[i]
  {}

  /** The merge of a and b is `done` and then the merge of what follows i and j. */
  ghost predicate Merging<T>(cmp: Comparator<T>, a: seq<T>, b: seq<T>, i: nat, j: nat, done: seq<T>) {
    i <= |a| && j <= |b| && done + Merge(cmp, a[i..], b[j..]) == Merge(cmp, a, b)
  }

  lemma MergingStart<T>(cmp: Comparator<T>, a: seq<T>, b: seq<T>)
    ensures Merging(cmp, a, b, 0, 0, [])
  {
    assert a[0..] == a && b[0..] == b && [] + Merge(cmp, a, b) == Merge(cmp, a, b);
  }

  lemma MergingNext<T>(cmp: Comparator<T>, a: seq<T>, b: seq<T>, i: nat, j: nat, done: seq<T>)
    requires Merging(cmp, a, b, i, j, done) && i < |a| && j < |b|
    ensures if cmp(a[i], b[j]) <= 0 then Merging(cmp, a, b, i + 1, j, done + [a[i]])
            else Merging(cmp, a, b, i, j + 1, done + [b[j]])
  {
    hide Merge;
    assert a[i..][1..] == a[i + 1..] && b[j..][1..] == b[j + 1..];
    MergeStep(cmp, a[i..], b[j..]);
    if Le(cmp, a[i], b[j]) {
      Assoc(done, [a[i]], Merge(cmp, a[i + 1..], b[j..]));
    } else {
      Assoc(done, [b[j]], Merge(cmp, a[i..], b[j + 1..]));
    }
  }

  lemma MergingEnd<T>(cmp: Comparator<T>, a: seq<T>, b: seq<T>, i: nat, j: nat, done: seq<T>)
    requires Merging(cmp, a, b, i, j, done) && (i == |a| || j == |b|)
    ensures done + (a[i..] + b[j..]) == Merge(cmp, a, b)
  {}

  /** `*T++ = x` */
  method Store<T>(tmp: array<T>, t: nat, x: T)
    requires t < tmp.Length
    modifies tmp
    ensures tmp[..t + 1] == old(tmp[..t]) + [x]
  {
    tmp[t] := x;
  }

  /** `_ffsort_merge`: sorts n elements from lo on, with one temporary buffer for all
      levels.  What is left of the right half is already in its place and is not copied. */
  method MergeSort<T(!new)>(tmp: array<T>, data: array<T>, lo: nat, n: nat, elsize: nat, cmp: Comparator<T>)
    returns (calls: nat)
    requires TotalPreorder(cmp) && lo + n <= data.Length && n <= tmp.Length && tmp != data && elsize > 0
    modifies tmp, data
    ensures Done(cmp, old(data[..]), data[..], lo, n)
    ensures Within(calls, n, elsize)
    decreases n
  {
    hide TotalPreorder, Done, Halves, Merge, Within;
    ghost var all := data[..];
    if n <= 1 {
      DoneNone(cmp, all, lo, n);
      NoCalls(n, elsize);
      return 0;
    }
    if n * elsize <= 64 {
      calls := InsertionSort(tmp, data, lo, n, cmp);
      ShortWithin(calls, n, elsize);
      return;
    }
    var nL, nR := n / 2, n - n / 2;
    var a := MergeSort(tmp, data, lo, nL, elsize, cmp);
    ghost var mid := data[..];
    var b := MergeSort(tmp, data, lo + nL, nR, elsize, cmp);
    ghost var now := data[..];
    HalvesDone(cmp, all, mid, now, lo, n);
    ghost var x, y := now[lo..lo + nL], now[lo + nL..lo + n];
    var restL, restR, c := MergeInto(tmp, data, lo, nL, nR, cmp, x, y);
    CopyBack(tmp, data, lo, nL, nR, restL, restR, x, y);
    MergedDone(cmp, all, now, data[..], lo, n);
    calls := a + b + c;
    HalvesWithin(a, b, c, n, elsize);
  }

  lemma NoCalls(n: nat, elsize: nat)
    requires n <= 1 && elsize > 0
    ensures Within(0, n, elsize)
  {}

  /** The left tail goes to tmp, and all but the right tail back to the array. */
  method CopyBack<T(!new)>(tmp: array<T>, data: array<T>, lo: nat, n1: nat, n2: nat, nL: nat, nR: nat,
                           ghost a: seq<T>, ghost b: seq<T>)
    requires lo + n1 + n2 <= data.Length && n1 + n2 <= tmp.Length && tmp != data
    requires |a| == n1 && |b| == n2 && data[lo..lo + n1] == a && data[lo + n1..lo + n1 + n2] == b
    requires nL <= n1 && nR <= n2 && (nL == 0 || nR == 0)
    modifies tmp, data
    ensures data[..] == old(data[..lo]) + (old(tmp[..n1 + n2 - nL - nR]) + (a[n1 - nL..] + b[n2 - nR..]))
      + old(data[lo + n1 + n2..])
  {
    hide Spliced;
    ghost var was, head := data[..], tmp[..n1 + n2 - nL - nR];
    if nL != 0 {
      Tail(was, lo, a, nL);
      Copy(tmp, n1 + n2 - nL - nR, data, lo + n1 - nL, nL);
      SplicedPart(old(tmp[..]), n1 + n2 - nL - nR, a[n1 - nL..]);
    }
    assert tmp[0..n1 + n2 - nR] == head + a[n1 - nL..];
    Copy(data, lo, tmp, 0, n1 + n2 - nR);
    Rejoined(was, lo, n1, n2, nR, head + a[n1 - nL..], b);
    Assoc(head, a[n1 - nL..], b[n2 - nR..]);
  }

  lemma Tail<T>(s: seq<T>, lo: nat, a: seq<T>, n: nat)
    requires lo + |a| <= |s| && s[lo..lo + |a|] == a && n <= |a|
    ensures s[lo + |a| - n..lo + |a|] == a[|a| - n..]
  {}

  lemma SplicedPart<T>(was: seq<T>, d: nat, x: seq<T>)
    requires d + |x| <= |was|
    ensures Spliced(was, d, x)[..d + |x|] == was[..d] + x
  {}

  /** What is left of the right half is already in its place. */
  lemma Rejoined<T>(was: seq<T>, lo: nat, n1: nat, n2: nat, nR: nat, x: seq<T>, b: seq<T>)
    requires lo + n1 + n2 <= |was| && |b| == n2 && was[lo + n1..lo + n1 + n2] == b && nR <= n2 && |x| == n1 + n2 - nR
    ensures Spliced(was, lo, x) == was[..lo] + (x + b[n2 - nR..]) + was[lo + n1 + n2..]
  {
    Tail(was, lo + n1, b, nR);
    var end := lo + n1 + n2;
    assert was[lo + |x|..] == was[lo + |x|..end] + was[end..];
    Together(was[..lo], x, b[n2 - nR..], was[end..]);
  }

  lemma Together<T>(a: seq<T>, b: seq<T>, c: seq<T>, d: seq<T>)
    ensures a + b + (c + d) == a + (b + c) + d
  {}

  /** `ffsort` */
  method Sort<T(!new,0)>(data: array<T>, n: nat, elsize: nat, cmp: Comparator<T>) returns (calls: nat)
    requires TotalPreorder(cmp) && n <= data.Length && elsize > 0
    modifies data
    ensures Sorted(cmp, data[..n]) && Stable(cmp, old(data[..n]), data[..n])
    ensures data[n..] == old(data[n..]) && Within(calls, n, elsize)
  {
    var tmp := new T[n];
    calls := MergeSort(tmp, data, 0, n, elsize, cmp);
  }
}
