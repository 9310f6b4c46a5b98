/** The lock-free rings of ffbase/ringqueue.h and ffbase/ring.h as one protocol.

    Any number of threads reserve a region with a compare-and-swap on a head
    cursor, touch the data, wait for their turn and publish by storing the tail
    cursor.  A queue of pointers is the case of regions of length 1
    (ffbase/ringqueue.h); a byte ring has regions of any length that may wrap
    into two pieces (ffbase/ring.h).

    Every read and write of a shared field is a step of its own, so a thread may
    act on stale values.  The cursors wrap modulo `modulus` (2^32 or 2^64 in the
    source); `wh`, `wt`, `rh`, `rt` are what they would be if they did not wrap,
    `log` is everything published so far.  Memory is sequentially consistent.
  */
module Ring {
  import opened Modulo

  datatype Config = Config(modulus: nat, cap: nat)

  /** The capacity is a power of two that divides the range of the cursors. */
  ghost predicate GoodConfig(c: Config) {
    0 < c.cap && 2 * c.cap <= c.modulus && c.modulus % c.cap == 0
  }

  /** How much to reserve: exactly n; at most n; at most n in one piece; all there
      is, but at least n.  Writers use Exact and Max1 only. */
  datatype Mode = Exact | Max | Max1 | Min

  /** Where a thread is in its operation.  `single` is the form for a lone writer or
      reader, without compare-and-swap and without waiting.  `pos` is the cursor
      value read, without wrap-around. */
  datatype Thread<T> =
    | Idle
    | WStart(items: seq<T>, n: nat, mode: Mode, single: bool)
    | WRead(items: seq<T>, n: nat, mode: Mode, single: bool, at: nat, pos: nat)
    | WTry(items: seq<T>, n: nat, mode: Mode, single: bool, at: nat, pos: nat)
    | WCopy(items: seq<T>, n: nat, single: bool, at: nat, pos: nat, done: nat)
    | WPublish(items: seq<T>, n: nat, single: bool, at: nat, pos: nat)
    | RStart(n: nat, mode: Mode, single: bool)
    | RRead(n: nat, mode: Mode, single: bool, at: nat, pos: nat)
    | RTry(n: nat, mode: Mode, single: bool, at: nat, pos: nat)
    | RCopy(n: nat, single: bool, at: nat, pos: nat, got: seq<T>)
    | RRelease(n: nat, single: bool, at: nat, pos: nat, got: seq<T>)

  datatype State<T> = State(
    whead: nat, wtail: nat, rhead: nat, rtail: nat, data: seq<T>,
    wh: nat, wt: nat, rh: nat, rt: nat, log: seq<T>,
    threads: map<nat, Thread<T>>)

  /** What a step means for the queue. */
  datatype Event<T> = Quiet | Enqueue(put: seq<T>) | Dequeue(got: seq<T>)

  // ---------- arithmetic of the source ----------

  function Plus(c: Config, a: nat, b: nat): nat
    requires 0 < c.modulus
  { (a + b) % c.modulus }

  /** Unsigned `a - b`. */
  function Minus(c: Config, a: nat, b: nat): nat
    requires 0 < c.modulus && b < c.modulus
  { (a + c.modulus - b) % c.modulus }

  function MinOf(a: nat, b: nat): nat { if a < b then a else b }

  /** The length asked for after looking at `avail`, for a region starting at `i`. */
  function Amount(mode: Mode, n: nat, avail: nat, i: nat, cap: nat): nat
    requires i < cap
  {
    match mode
    case Exact => n
    case Min => if n < avail then avail else n
    case Max => MinOf(n, avail)
    case Max1 => if i + MinOf(n, avail) > cap then cap - i else MinOf(n, avail)
  }

  /** Where the k-th element of a region of length n at offset `i` lies: in the first
      piece, up to the end of the buffer, or in the second, from its start. */
  function PieceIndex(cap: nat, i: nat, n: nat, k: nat): nat
    requires i < cap && k < n <= cap
  {
    var first := if i + n > cap then cap - i else n;
    if k < first then i + k else k - first
  }

  // ---------- steps ----------

  function Set<T>(s: State<T>, t: nat, th: Thread<T>): State<T> {
    s.(threads := s.threads[t := th])
  }

  ghost predicate Writing<T>(th: Thread<T>) {
    th.WStart? || th.WRead? || th.WTry? || th.WCopy? || th.WPublish?
  }

  ghost predicate Reading<T>(th: Thread<T>) {
    th.RStart? || th.RRead? || th.RTry? || th.RCopy? || th.RRelease?
  }

  /** A thread starts an operation.  A lone-writer call may not overlap with any
      other write, and a lone-reader call with no other read. */
  ghost predicate Begin<T>(s: State<T>, s': State<T>, t: nat, th: Thread<T>) {
    && (th.WStart? || th.RStart?) && (t in s.threads ==> s.threads[t].Idle?)
    && s' == Set(s, t, th)
    && (th.WStart? ==>
      && th.n <= |th.items| && (th.mode == Exact || th.mode == Max1)
      && forall u :: u in s.threads && Writing(s.threads[u]) ==> !th.single && !s.threads[u].single)
    && (th.RStart? ==>
      forall u :: u in s.threads && Reading(s.threads[u]) ==> !th.single && !s.threads[u].single)
  }

  /** One step of `_ffrq_add` or `ffring_write`, from the thread's point of view. */
  ghost predicate WriteStep<T>(c: Config, s: State<T>, s': State<T>, t: nat, e: Event<T>)
    requires GoodConfig(c) && t in s.threads
  {
    match s.threads[t]
    case WStart(items, n, mode, single) =>
      // wh = READ(whead)
      s' == Set(s, t, WRead(items, n, mode, single, s.whead, s.wh)) && e == Quiet
    case WRead(items, n, mode, single, at, pos) =>
      // free = cap + READ(rtail) - wh
      at < c.modulus &&
      var free := Minus(c, c.cap + s.rtail, at);
      var m := Amount(mode, n, free, at % c.cap, c.cap);
      e == Quiet &&
      s' == Set(s, t, if m > free || m == 0 then Idle else WTry(items, m, mode, single, at, pos))
    case WTry(items, n, mode, single, at, pos) =>
      // whead = wh + n, by compare-and-swap unless this is the only writer
      e == Quiet &&
      s' == if single || s.whead == at then
              Set(s.(whead := Plus(c, at, n), wh := s.wh + n), t, WCopy(items, n, single, at, s.wh, 0))
            else Set(s, t, WStart(items, n, mode, single))
    case WCopy(items, n, single, at, pos, done) =>
      // data[...] = item, or on to waiting for the previous writers
      n <= c.cap && n <= |items| && |s.data| == c.cap && done <= n && e == Quiet &&
      if done < n then
        s' == Set(s.(data := s.data[PieceIndex(c.cap, at % c.cap, n, done) := items[done]]), t,
                  WCopy(items, n, single, at, pos, done + 1))
      else
        (single || s.wtail == at) && s' == Set(s, t, WPublish(items, n, single, at, pos))
    case WPublish(items, n, single, at, pos) =>
      // WRITE(wtail, wh + n)
      n <= |items| && e == Enqueue(items[..n]) &&
      s' == Set(s.(wtail := Plus(c, at, n), wt := s.wt + n, log := s.log + items[..n]), t, Idle)
    case _ => false
  }

  /** One step of `_ffrq_fetch`, or of a reservation, use and release of `ffring_read_*`. */
  ghost predicate ReadStep<T>(c: Config, s: State<T>, s': State<T>, t: nat, e: Event<T>)
    requires GoodConfig(c) && t in s.threads
  {
    match s.threads[t]
    case RStart(n, mode, single) =>
      s' == Set(s, t, RRead(n, mode, single, s.rhead, s.rh)) && e == Quiet
    case RRead(n, mode, single, at, pos) =>
      // used = READ(wtail) - rh
      at < c.modulus &&
      var used := Minus(c, s.wtail, at);
      var m := Amount(mode, n, used, at % c.cap, c.cap);
      e == Quiet &&
      s' == Set(s, t, if m > used || m == 0 then Idle else RTry(m, mode, single, at, pos))
    case RTry(n, mode, single, at, pos) =>
      if single || s.rhead == at then
        && s' == Set(s.(rhead := Plus(c, at, n), rh := s.rh + n), t, RCopy(n, single, at, s.rh, []))
        && e == Dequeue(Queue(s)[..MinOf(n, |Queue(s)|)])
      else s' == Set(s, t, RStart(n, mode, single)) && e == Quiet
    case RCopy(n, single, at, pos, got) =>
      n <= c.cap && |s.data| == c.cap && |got| <= n && e == Quiet &&
      if |got| < n then
        s' == Set(s, t, RCopy(n, single, at, pos, got + [s.data[PieceIndex(c.cap, at % c.cap, n, |got|)]]))
      else
        (single || s.rtail == at) && s' == Set(s, t, RRelease(n, single, at, pos, got))
    case RRelease(n, single, at, pos, got) =>
      e == Quiet && s' == Set(s.(rtail := Plus(c, at, n), rt := s.rt + n), t, Idle)
    case _ => false
  }

  ghost predicate Step<T(!new)>(c: Config, s: State<T>, s': State<T>, t: nat, e: Event<T>)
    requires GoodConfig(c)
  {
    || (e == Quiet && exists th :: Begin(s, s', t, th))
    || (t in s.threads && (WriteStep(c, s, s', t, e) || ReadStep(c, s, s', t, e)))
  }

  /** The abstract queue: published and not yet reserved by a reader. */
  ghost function Queue<T>(s: State<T>): seq<T> {
    if s.rh <= s.wt <= |s.log| then s.log[s.rh..s.wt] else []
  }

  // ---------- the invariant ----------

  ghost predicate Cursors<T>(c: Config, s: State<T>)
    requires GoodConfig(c)
  {
    && s.whead == s.wh % c.modulus && s.wtail == s.wt % c.modulus
    && s.rhead == s.rh % c.modulus && s.rtail == s.rt % c.modulus
    && s.rt <= s.rh <= s.wt <= s.wh <= s.rt + c.cap
    && |s.log| == s.wt && |s.data| == c.cap
  }

  /** The slots that readers may look at hold what was published. */
  ghost predicate Published<T>(c: Config, s: State<T>)
    requires GoodConfig(c) && Cursors(c, s)
  {
    forall i :: s.rt <= i < s.wt ==> s.data[i % c.cap] == s.log[i]
  }

  /** The region a thread has reserved. */
  datatype Claim = Nothing | Region(pos: nat, n: nat)

  ghost function WClaim<T>(th: Thread<T>): Claim {
    if th.WCopy? || th.WPublish? then Region(th.pos, th.n) else Nothing
  }

  ghost function RClaim<T>(th: Thread<T>): Claim {
    if th.RCopy? || th.RRelease? then Region(th.pos, th.n) else Nothing
  }

  ghost function WClaims<T>(s: State<T>): map<nat, Claim> { map t | t in s.threads :: WClaim(s.threads[t]) }

  ghost function RClaims<T>(s: State<T>): map<nat, Claim> { map t | t in s.threads :: RClaim(s.threads[t]) }

  ghost predicate Within(m: map<nat, Claim>, lo: nat, hi: nat) {
    forall t :: t in m && m[t].Region? ==> 1 <= m[t].n && lo <= m[t].pos && m[t].pos + m[t].n <= hi
  }

  ghost predicate Disjoint(m: map<nat, Claim>) {
    forall t, u :: t in m && u in m && t != u && m[t].Region? && m[u].Region? ==>
      m[t].pos + m[t].n <= m[u].pos || m[u].pos + m[u].n <= m[t].pos
  }

  ghost predicate Owns(m: map<nat, Claim>, t: nat, i: nat) {
    t in m && m[t].Region? && m[t].pos <= i < m[t].pos + m[t].n
  }

  ghost predicate Owned(m: map<nat, Claim>, i: nat) { exists t :: Owns(m, t, i) }

  /** The reserved regions cut [lo, hi) into pieces, one for each thread that has one. */
  ghost predicate Tiles(m: map<nat, Claim>, lo: nat, hi: nat) {
    && Within(m, lo, hi) && Disjoint(m)
    && forall i :: lo <= i < hi ==> Owned(m, i)
  }

  /** What a thread's local values say. */
  ghost predicate Knows<T>(c: Config, s: State<T>, th: Thread<T>)
    requires GoodConfig(c) && Cursors(c, s)
  {
    match th
    case Idle => true
    case WStart(items, n, mode, _) => n <= |items| && (mode == Exact || mode == Max1)
    case WRead(items, n, mode, single, at, pos) =>
      && n <= |items| && (mode == Exact || mode == Max1)
      && at == pos % c.modulus && pos <= s.wh && (single ==> pos == s.wh)
    case WTry(items, n, mode, single, at, pos) =>
      && 1 <= n <= |items| && (mode == Exact || mode == Max1)
      && at == pos % c.modulus && pos <= s.wh && (single ==> pos == s.wh)
      && pos + n <= s.rt + c.cap
    case WCopy(items, n, _, at, pos, done) =>
      && n <= |items| && n <= c.cap && at == pos % c.modulus && done <= n
      && Written(c, s.data, items, pos, done)
    case WPublish(items, n, _, at, pos) =>
      && n <= |items| && n <= c.cap && at == pos % c.modulus && s.wt == pos
      && Written(c, s.data, items, pos, n)
    case RStart(n, _, _) => true
    case RRead(n, mode, single, at, pos) =>
      at == pos % c.modulus && pos <= s.rh && (single ==> pos == s.rh)
    case RTry(n, mode, single, at, pos) =>
      1 <= n && at == pos % c.modulus && pos <= s.rh && (single ==> pos == s.rh) && pos + n <= s.wt
    case RCopy(n, _, at, pos, got) =>
      n <= c.cap && at == pos % c.modulus && |got| <= n && pos + n <= s.wt && got == s.log[pos..pos + |got|]
    case RRelease(n, _, at, pos, got) =>
      n <= c.cap && at == pos % c.modulus && s.rt == pos && |got| == n && pos + n <= s.wt && got == s.log[pos..pos + n]
  }

  ghost predicate Written<T>(c: Config, data: seq<T>, items: seq<T>, pos: nat, k: nat)
    requires 0 < c.cap && |data| == c.cap && k <= |items|
  {
    forall j :: 0 <= j < k ==> data[(pos + j) % c.cap] == items[j]
  }

  /** A lone writer (reader) is alone. */
  ghost predicate WAlone<T>(s: State<T>) {
    forall t, u :: t in s.threads && u in s.threads && t != u && Writing(s.threads[t]) && Writing(s.threads[u]) ==>
      !s.threads[t].single
  }

  ghost predicate RAlone<T>(s: State<T>) {
    forall t, u :: t in s.threads && u in s.threads && t != u && Reading(s.threads[t]) && Reading(s.threads[u]) ==>
      !s.threads[t].single
  }

  ghost predicate AllKnow<T>(c: Config, s: State<T>)
    requires GoodConfig(c) && Cursors(c, s)
  {
    forall t :: t in s.threads ==> Knows(c, s, s.threads[t])
  }

  ghost predicate Inv<T>(c: Config, s: State<T>) {
    && GoodConfig(c) && Cursors(c, s) && Published(c, s) && AllKnow(c, s)
    && Tiles(WClaims(s), s.wt, s.wh) && Tiles(RClaims(s), s.rt, s.rh)
    && WAlone(s) && RAlone(s)
  }

  /** The assumption about reuse of cursor values: when the compare-and-swap of thread t
      finds the head it has read, the head has advanced by less than the modulus since. */
  ghost predicate NoReuse<T>(c: Config, s: State<T>, t: nat) {
    t in s.threads ==>
      var th := s.threads[t];
      && (th.WTry? && s.whead == th.at ==> s.wh < th.pos + c.modulus)
      && (th.RTry? && s.rhead == th.at ==> s.rh < th.pos + c.modulus)
  }

  // ---------- cursor arithmetic ----------

  lemma PlusMod(c: Config, a: nat, n: nat)
    requires 0 < c.modulus
    ensures Plus(c, a % c.modulus, n) == (a + n) % c.modulus
  {
    Quotient(c.modulus, a);
    ModAdd(c.modulus, a / c.modulus, a % c.modulus + n);
  }

  /** Unsigned subtraction of wrapped cursors gives the true distance without its wraps. */
  lemma MinusMod(c: Config, x: nat, a: nat, b: nat)
    requires 0 < c.modulus && b <= x + a
    ensures Minus(c, x + a % c.modulus, b % c.modulus) == (x + a - b) % c.modulus
  {
    var m := c.modulus;
    var k := b / m - a / m + 1;
    Quotient(m, a);
    Quotient(m, b);
    assert m * k == m * (b / m) - m * (a / m) + m;
    assert x + a % m + m - b % m == m * k + (x + a - b);
    ModAdd(m, k, x + a - b);
  }

  lemma ModSmall(x: nat, m: nat)
    requires 0 < m
    ensures x % m <= x && (x % m == x <==> x < m)
  {}

  /** Masking a wrapped cursor is the same as masking the true one. */
  lemma MaskMod(c: Config, a: nat)
    requires GoodConfig(c)
    ensures (a % c.modulus) % c.cap == a % c.cap
  {
    Quotient(c.cap, c.modulus);
    ModMod(c.cap, c.modulus / c.cap, a);
  }

  /** The two pieces of a region are the slots of consecutive positions. */
  lemma PieceIndexMod(cap: nat, pos: nat, n: nat, k: nat)
    requires 0 < cap && k < n <= cap
    ensures PieceIndex(cap, pos % cap, n, k) == (pos + k) % cap < cap
  {
    var i := pos % cap;
    Quotient(cap, pos);
    if i + k < cap {
      Remainder(pos + k, cap, pos / cap, i + k);
    } else {
      assert cap * (pos / cap + 1) == cap * (pos / cap) + cap;
      Remainder(pos + k, cap, pos / cap + 1, i + k - cap);
    }
  }

  /** Positions less than `cap` apart have different slots. */
  lemma SlotsDiffer(cap: nat, a: nat, b: nat)
    requires 0 < cap && a < b < a + cap
    ensures a % cap != b % cap
  {
    if a % cap == b % cap { ModUnique(cap, a, b); }
  }

  // ---------- regions ----------

  lemma TilesAdd(m: map<nat, Claim>, lo: nat, hi: nat, t: nat, n: nat)
    requires Tiles(m, lo, hi) && lo <= hi && 1 <= n && (t in m ==> m[t].Nothing?)
    ensures Tiles(m[t := Region(hi, n)], lo, hi + n)
  {
    var m' := m[t := Region(hi, n)];
    forall i | lo <= i < hi + n ensures Owned(m', i) {
      if i < hi {
        assert Owned(m, i);
        var u :| Owns(m, u, i);
        assert Owns(m', u, i);
      } else {
        assert Owns(m', t, i);
      }
    }
  }

  lemma TilesRemove(m: map<nat, Claim>, lo: nat, hi: nat, t: nat, n: nat)
    requires Tiles(m, lo, hi) && t in m && m[t] == Region(lo, n)
    ensures Tiles(m[t := Nothing], lo + n, hi) && lo + n <= hi
  {
    var m' := m[t := Nothing];
    forall i | lo + n <= i < hi ensures Owned(m', i) {
      assert Owned(m, i);
      var u :| Owns(m, u, i);
      assert Owns(m', u, i);
    }
  }

  /** With one region only, that region is all of [lo, hi). */
  lemma TilesOnly(m: map<nat, Claim>, lo: nat, hi: nat, t: nat)
    requires Tiles(m, lo, hi) && t in m && m[t].Region?
    requires forall u :: u in m && u != t ==> m[u].Nothing?
    ensures m[t].pos == lo
  {
    assert Owned(m, lo);
    var u :| Owns(m, u, lo);
  }

  lemma SetClaims<T>(s: State<T>, s': State<T>, t: nat, th: Thread<T>)
    requires s'.threads == s.threads[t := th]
    ensures WClaims(s') == WClaims(s)[t := WClaim(th)]
    ensures RClaims(s') == RClaims(s)[t := RClaim(th)]
    ensures t in s.threads && WClaim(th) == WClaim(s.threads[t]) ==> WClaims(s') == WClaims(s)
    ensures t in s.threads && RClaim(th) == RClaim(s.threads[t]) ==> RClaims(s') == RClaims(s)
  {}

  // ---------- every step keeps the invariant ----------

  lemma WrittenLater<T>(c: Config, data: seq<T>, data': seq<T>, items: seq<T>, pos: nat, k: nat)
    requires 0 < c.cap == |data| == |data'| && k <= |items| && Written(c, data, items, pos, k)
    requires forall i :: pos <= i < pos + k ==> data'[i % c.cap] == data[i % c.cap]
    ensures Written(c, data', items, pos, k)
  {
    forall j | 0 <= j < k ensures data'[(pos + j) % c.cap] == items[j] {
      assert data'[(pos + j) % c.cap] == data[(pos + j) % c.cap];
    }
  }

  lemma SlicesLater<T>(log: seq<T>, log': seq<T>, a: nat, b: nat)
    requires log <= log' && a <= b <= |log|
    ensures log'[a..b] == log[a..b]
  {}

  /** What a thread knows stays true while cursors advance, as long as its region and
      the slots in it are left alone and, for a lone writer (reader), its head. */
  lemma KnowsLater<T>(c: Config, s: State<T>, s': State<T>, th: Thread<T>)
    requires GoodConfig(c) && Cursors(c, s) && Cursors(c, s') && Knows(c, s, th)
    requires s.rt <= s'.rt && s.rh <= s'.rh && s.wt <= s'.wt && s.wh <= s'.wh && s.log <= s'.log
    requires Writing(th) && th.single ==> s'.wh == s.wh
    requires Reading(th) && th.single ==> s'.rh == s.rh
    requires th.WPublish? ==> s'.wt == s.wt
    requires th.RRelease? ==> s'.rt == s.rt
    requires WClaim(th).Region? ==>
      forall i :: th.pos <= i < th.pos + th.n ==> s'.data[i % c.cap] == s.data[i % c.cap]
    ensures Knows(c, s', th)
  {
    hide Written, Published;
    if th.WCopy? {
      WrittenLater(c, s.data, s'.data, th.items, th.pos, th.done);
    } else if th.WPublish? {
      WrittenLater(c, s.data, s'.data, th.items, th.pos, th.n);
    } else if th.RCopy? {
      SlicesLater(s.log, s'.log, th.pos, th.pos + |th.got|);
    } else if th.RRelease? {
      SlicesLater(s.log, s'.log, th.pos, th.pos + th.n);
    }
  }

  /** The moving thread goes on with its own operation or ends it. */
  ghost predicate Continues<T>(was: Thread<T>, th: Thread<T>) {
    && (Writing(th) ==> Writing(was) && th.single == was.single)
    && (Reading(th) ==> Reading(was) && th.single == was.single)
  }

  lemma AloneKept<T>(s: State<T>, s': State<T>, t: nat, th: Thread<T>)
    requires WAlone(s) && RAlone(s) && t in s.threads && Continues(s.threads[t], th)
    requires s'.threads == s.threads[t := th]
    ensures WAlone(s') && RAlone(s')
  {}

  /** A thread that only changes its local values. */
  lemma LocalStep<T>(c: Config, s: State<T>, t: nat, th: Thread<T>)
    requires Inv(c, s) && t in s.threads && Knows(c, s, th) && Continues(s.threads[t], th)
    requires WClaim(th) == WClaim(s.threads[t]) && RClaim(th) == RClaim(s.threads[t])
    ensures Inv(c, Set(s, t, th))
  {
    hide *;
    Parts(c, s);
    LocalOwn(c, s, t, th);
    AloneKept(s, Set(s, t, th), t, th);
    OthersKnow(c, s, Set(s, t, th), t);
    Whole(c, Set(s, t, th));
  }

  lemma LocalOwn<T>(c: Config, s: State<T>, t: nat, th: Thread<T>)
    requires GoodConfig(c) && Cursors(c, s) && Published(c, s) && t in s.threads && Knows(c, s, th)
    requires WClaim(th) == WClaim(s.threads[t]) && RClaim(th) == RClaim(s.threads[t])
    ensures var s' := Set(s, t, th);
      && Cursors(c, s') && Published(c, s') && Knows(c, s', th) && Harmless(c, s, s', t)
      && s'.threads == s.threads[t := th] && WClaims(s') == WClaims(s) && RClaims(s') == RClaims(s)
      && s'.wt == s.wt && s'.wh == s.wh && s'.rt == s.rt && s'.rh == s.rh
  {
    SetClaims(s, Set(s, t, th), t, th);
    KnowsLater(c, s, Set(s, t, th), th);
  }

  lemma TilesIdle(m: map<nat, Claim>, lo: nat, hi: nat, t: nat)
    requires Tiles(m, lo, hi) && (t in m ==> m[t].Nothing?)
    ensures Tiles(m[t := Nothing], lo, hi)
  {
    var m' := m[t := Nothing];
    forall i | lo <= i < hi ensures Owned(m', i) {
      assert Owned(m, i);
      var u :| Owns(m, u, i);
      assert Owns(m', u, i);
    }
  }

  /** The step of `t` takes back nothing that another thread relies on. */
  ghost predicate Harmless<T>(c: Config, s: State<T>, s': State<T>, t: nat)
    requires GoodConfig(c) && Cursors(c, s) && Cursors(c, s')
  {
    && s'.threads.Keys == s.threads.Keys + {t}
    && s.rt <= s'.rt && s.rh <= s'.rh && s.wt <= s'.wt && s.wh <= s'.wh && s.log <= s'.log
    && forall u :: u in s.threads && u != t ==> s'.threads[u] == s.threads[u] && Spared(c, s, s', s.threads[u])
  }

  ghost predicate Spared<T>(c: Config, s: State<T>, s': State<T>, th: Thread<T>)
    requires GoodConfig(c) && Cursors(c, s) && Cursors(c, s')
  {
    && (Writing(th) && th.single ==> s'.wh == s.wh) && (Reading(th) && th.single ==> s'.rh == s.rh)
    && (th.WPublish? ==> s'.wt == s.wt) && (th.RRelease? ==> s'.rt == s.rt)
    && (WClaim(th).Region? ==> forall i :: th.pos <= i < th.pos + th.n ==> s'.data[i % c.cap] == s.data[i % c.cap])
  }

  lemma OthersKnow<T>(c: Config, s: State<T>, s': State<T>, t: nat)
    requires GoodConfig(c) && Cursors(c, s) && Cursors(c, s') && AllKnow(c, s) && Harmless(c, s, s', t)
    requires t in s'.threads && Knows(c, s', s'.threads[t])
    ensures AllKnow(c, s')
  {
    hide Knows, Cursors;
    forall u | u in s'.threads && u != t ensures Knows(c, s', s'.threads[u]) {
      KnowsLater(c, s, s', s.threads[u]);
    }
  }

  lemma Parts<T>(c: Config, s: State<T>)
    requires Inv(c, s)
    ensures GoodConfig(c) && Cursors(c, s) && Published(c, s) && AllKnow(c, s)
    ensures Tiles(WClaims(s), s.wt, s.wh) && Tiles(RClaims(s), s.rt, s.rh) && WAlone(s) && RAlone(s)
  {}

  lemma Whole<T>(c: Config, s: State<T>)
    requires GoodConfig(c) && Cursors(c, s) && Published(c, s) && AllKnow(c, s)
    requires Tiles(WClaims(s), s.wt, s.wh) && Tiles(RClaims(s), s.rt, s.rh) && WAlone(s) && RAlone(s)
    ensures Inv(c, s)
  {}

  lemma BeginAlone<T>(s: State<T>, s': State<T>, t: nat, th: Thread<T>)
    requires WAlone(s) && RAlone(s) && Begin(s, s', t, th)
    ensures WAlone(s') && RAlone(s')
  {}

  lemma BeginOwn<T>(c: Config, s: State<T>, s': State<T>, t: nat, th: Thread<T>)
    requires GoodConfig(c) && Cursors(c, s) && Published(c, s) && Begin(s, s', t, th)
    ensures Cursors(c, s') && Published(c, s') && Knows(c, s', th) && Harmless(c, s, s', t)
    ensures t in s'.threads && s'.threads[t] == th
    ensures s'.wt == s.wt && s'.wh == s.wh && s'.rt == s.rt && s'.rh == s.rh
    ensures WClaims(s') == WClaims(s)[t := Nothing] && RClaims(s') == RClaims(s)[t := Nothing]
    ensures t in s.threads ==> WClaims(s)[t].Nothing? && RClaims(s)[t].Nothing?
  {
    SetClaims(s, s', t, th);
  }

  lemma BeginKeeps<T>(c: Config, s: State<T>, s': State<T>, t: nat, th: Thread<T>)
    requires Inv(c, s) && Begin(s, s', t, th)
    ensures Inv(c, s')
  {
    hide *;
    Parts(c, s);
    BeginOwn(c, s, s', t, th);
    ClaimKeys(s);
    TilesIdle(WClaims(s), s.wt, s.wh, t);
    TilesIdle(RClaims(s), s.rt, s.rh, t);
    BeginAlone(s, s', t, th);
    OthersKnow(c, s, s', t);
    Whole(c, s');
  }

  lemma ClaimKeys<T>(s: State<T>)
    ensures WClaims(s).Keys == s.threads.Keys == RClaims(s).Keys
  {}

  /** Reading the tail after a possibly stale head never gives more than the true free
      space, and gives exactly that as long as the cursors have not wrapped in between. */
  lemma FreeSpace<T>(c: Config, s: State<T>, t: nat)
    requires Inv(c, s) && t in s.threads && s.threads[t].WRead?
    ensures var th := s.threads[t];
      && th.at < c.modulus && th.pos <= s.wh <= s.rt + c.cap
      && var free := Minus(c, c.cap + s.rtail, th.at);
      && free == (s.rt + c.cap - th.pos) % c.modulus <= s.rt + c.cap - th.pos
      && (free == s.rt + c.cap - th.pos <==> s.rt + c.cap < th.pos + c.modulus)
  {
    var th := s.threads[t];
    assert Knows(c, s, th);
    MinusMod(c, c.cap, s.rt, th.pos);
    ModSmall(s.rt + c.cap - th.pos, c.modulus);
  }

  lemma UsedSpace<T>(c: Config, s: State<T>, t: nat)
    requires Inv(c, s) && t in s.threads && s.threads[t].RRead?
    ensures var th := s.threads[t];
      && th.at < c.modulus && th.pos <= s.rh <= s.wt
      && var used := Minus(c, s.wtail, th.at);
      && used == (s.wt - th.pos) % c.modulus <= s.wt - th.pos
      && (used == s.wt - th.pos <==> s.wt < th.pos + c.modulus)
  {
    var th := s.threads[t];
    assert Knows(c, s, th);
    MinusMod(c, 0, s.wt, th.pos);
    ModSmall(s.wt - th.pos, c.modulus);
  }

  lemma WReads<T>(c: Config, s: State<T>, s': State<T>, t: nat, e: Event<T>)
    requires GoodConfig(c) && t in s.threads && s.threads[t].WRead? && WriteStep(c, s, s', t, e)
    ensures var th := s.threads[t];
      && th.at < c.modulus
      && var free := Minus(c, c.cap + s.rtail, th.at);
      var m := Amount(th.mode, th.n, free, th.at % c.cap, c.cap);
      s' == Set(s, t, if m > free || m == 0 then Idle else WTry(th.items, m, th.mode, th.single, th.at, th.pos))
  {
    hide Minus, Amount;
  }

  lemma RReads<T>(c: Config, s: State<T>, s': State<T>, t: nat, e: Event<T>)
    requires GoodConfig(c) && t in s.threads && s.threads[t].RRead? && ReadStep(c, s, s', t, e)
    ensures var th := s.threads[t];
      && th.at < c.modulus
      && var used := Minus(c, s.wtail, th.at);
      var m := Amount(th.mode, th.n, used, th.at % c.cap, c.cap);
      s' == Set(s, t, if m > used || m == 0 then Idle else RTry(m, th.mode, th.single, th.at, th.pos))
  {
    hide Minus, Amount;
  }

  lemma WReadKeeps<T>(c: Config, s: State<T>, s': State<T>, t: nat, e: Event<T>)
    requires Inv(c, s) && t in s.threads && s.threads[t].WRead? && WriteStep(c, s, s', t, e)
    ensures Inv(c, s')
  {
    hide Inv, AllKnow, Tiles, WAlone, RAlone, Published, Minus, WriteStep, ReadStep;
    FreeSpace(c, s, t);
    Parts(c, s);
    ThreadKnows(c, s, t);
    WReads(c, s, s', t, e);
    LocalStep(c, s, t, s'.threads[t]);
  }

  lemma RReadKeeps<T>(c: Config, s: State<T>, s': State<T>, t: nat, e: Event<T>)
    requires Inv(c, s) && t in s.threads && s.threads[t].RRead? && ReadStep(c, s, s', t, e)
    ensures Inv(c, s')
  {
    hide Inv, AllKnow, Tiles, WAlone, RAlone, Published, Minus, WriteStep, ReadStep;
    UsedSpace(c, s, t);
    Parts(c, s);
    ThreadKnows(c, s, t);
    RReads(c, s, s', t, e);
    LocalStep(c, s, t, s'.threads[t]);
  }

  /** A compare-and-swap that finds the head it has read is right to go on, because the
      head is still what it was, if and only if the head has not wrapped around since. */
  lemma HeadUnchanged<T>(c: Config, s: State<T>, t: nat)
    requires Inv(c, s) && t in s.threads
    ensures var th := s.threads[t];
      && (th.WTry? && s.whead == th.at ==> (th.pos == s.wh <==> s.wh < th.pos + c.modulus))
      && (th.RTry? && s.rhead == th.at ==> (th.pos == s.rh <==> s.rh < th.pos + c.modulus))
      && (th.WTry? && th.single ==> th.pos == s.wh) && (th.RTry? && th.single ==> th.pos == s.rh)
  {
    var th := s.threads[t];
    ThreadKnows(c, s, t);
    if th.WTry? && s.whead == th.at && s.wh < th.pos + c.modulus { ModUnique(c.modulus, th.pos, s.wh); }
    if th.RTry? && s.rhead == th.at && s.rh < th.pos + c.modulus { ModUnique(c.modulus, th.pos, s.rh); }
  }

  // what single steps are

  lemma WReserves<T>(c: Config, s: State<T>, s': State<T>, t: nat, e: Event<T>)
    requires GoodConfig(c) && t in s.threads && s.threads[t].WTry? && WriteStep(c, s, s', t, e)
    requires s.threads[t].single || s.whead == s.threads[t].at
    ensures var th := s.threads[t];
      s' == Set(s.(whead := Plus(c, th.at, th.n), wh := s.wh + th.n), t,
                WCopy(th.items, th.n, th.single, th.at, s.wh, 0))
  {}

  lemma RReserves<T>(c: Config, s: State<T>, s': State<T>, t: nat, e: Event<T>)
    requires GoodConfig(c) && t in s.threads && s.threads[t].RTry? && ReadStep(c, s, s', t, e)
    requires s.threads[t].single || s.rhead == s.threads[t].at
    ensures var th := s.threads[t];
      s' == Set(s.(rhead := Plus(c, th.at, th.n), rh := s.rh + th.n), t, RCopy(th.n, th.single, th.at, s.rh, []))
  {
    hide Queue;
  }

  lemma Publishes<T>(c: Config, s: State<T>, s': State<T>, t: nat, e: Event<T>)
    requires GoodConfig(c) && t in s.threads && s.threads[t].WPublish? && WriteStep(c, s, s', t, e)
    ensures var th := s.threads[t];
      && th.n <= |th.items|
      && s' == Set(s.(wtail := Plus(c, th.at, th.n), wt := s.wt + th.n, log := s.log + th.items[..th.n]), t, Idle)
  {}

  lemma Releases<T>(c: Config, s: State<T>, s': State<T>, t: nat, e: Event<T>)
    requires GoodConfig(c) && t in s.threads && s.threads[t].RRelease? && ReadStep(c, s, s', t, e)
    ensures var th := s.threads[t];
      s' == Set(s.(rtail := Plus(c, th.at, th.n), rt := s.rt + th.n), t, Idle)
  {}

  lemma PublishedSame<T>(c: Config, s: State<T>, s': State<T>)
    requires GoodConfig(c) && Cursors(c, s) && Cursors(c, s') && Published(c, s)
    requires s'.rt == s.rt && s'.wt == s.wt && s'.log == s.log && s'.data == s.data
    ensures Published(c, s')
  {}

  lemma PublishedLess<T>(c: Config, s: State<T>, s': State<T>)
    requires GoodConfig(c) && Cursors(c, s) && Cursors(c, s') && Published(c, s)
    requires s.rt <= s'.rt && s'.wt == s.wt && s'.log == s.log && s'.data == s.data
    ensures Published(c, s')
  {}

  lemma ClaimsAt<T>(s: State<T>, t: nat)
    requires t in s.threads
    ensures t in WClaims(s) && WClaims(s)[t] == WClaim(s.threads[t])
    ensures t in RClaims(s) && RClaims(s)[t] == RClaim(s.threads[t])
  {}

  lemma NoneWritten<T>(c: Config, data: seq<T>, items: seq<T>, pos: nat)
    requires 0 < c.cap && |data| == c.cap
    ensures Written(c, data, items, pos, 0)
  {}

  /** A reservation: what it does besides extending the tiling. */
  lemma WReserveOwn<T>(c: Config, s: State<T>, s': State<T>, t: nat, e: Event<T>)
    requires Inv(c, s) && NoReuse(c, s, t) && t in s.threads && s.threads[t].WTry? && WriteStep(c, s, s', t, e)
    requires s.threads[t].single || s.whead == s.threads[t].at
    ensures var th' := WCopy(s.threads[t].items, s.threads[t].n, s.threads[t].single, s.threads[t].at, s.wh, 0);
      && s'.threads == s.threads[t := th'] && Cursors(c, s') && Published(c, s') && Knows(c, s', th')
      && Continues(s.threads[t], th') && 1 <= th'.n && s.wt <= s.wh
      && s'.wt == s.wt && s'.wh == s.wh + th'.n && s'.rt == s.rt && s'.rh == s.rh
      && s'.data == s.data && s'.log == s.log
      && WClaims(s') == WClaims(s)[t := Region(s.wh, th'.n)] && RClaims(s') == RClaims(s)
      && WClaims(s)[t] == Nothing
  {
    hide Inv, AllKnow, Tiles, WAlone, RAlone, Published, Written, WriteStep, ReadStep, WClaims, RClaims;
    Parts(c, s);
    ThreadKnows(c, s, t);
    var th := s.threads[t];
    HeadUnchanged(c, s, t);
    WReserves(c, s, s', t, e);
    PlusMod(c, s.wh, th.n);
    PublishedSame(c, s, s');
    SetClaims(s, s', t, s'.threads[t]);
    ClaimsAt(s, t);
    NoneWritten(c, s'.data, th.items, s.wh);
  }

  lemma WReserveHarmless<T>(c: Config, s: State<T>, s': State<T>, t: nat)
    requires GoodConfig(c) && Cursors(c, s) && Cursors(c, s') && WAlone(s) && t in s.threads && Writing(s.threads[t])
    requires t in s'.threads && s'.threads == s.threads[t := s'.threads[t]]
    requires s'.wt == s.wt && s.wh <= s'.wh && s'.rt == s.rt && s'.rh == s.rh && s'.data == s.data && s'.log == s.log
    ensures Harmless(c, s, s', t)
  {}

  lemma WTryKeeps<T>(c: Config, s: State<T>, s': State<T>, t: nat, e: Event<T>)
    requires Inv(c, s) && NoReuse(c, s, t) && t in s.threads && s.threads[t].WTry? && WriteStep(c, s, s', t, e)
    ensures Inv(c, s')
  {
    hide *;
    Parts(c, s);
    var th := s.threads[t];
    if th.single || s.whead == th.at {
      WReserveOwn(c, s, s', t, e);
      WritingNow(th);
      WReserveHarmless(c, s, s', t);
      TilesAdd(WClaims(s), s.wt, s.wh, t, th.n);
      AloneKept(s, s', t, s'.threads[t]);
      OthersKnow(c, s, s', t);
      Whole(c, s');
    } else {
      WRetry(c, s, s', t, e);
    }
  }

  lemma WritingNow<T>(th: Thread<T>)
    requires th.WTry? || th.WCopy? || th.WPublish?
    ensures Writing(th)
  {}

  lemma ReadingNow<T>(th: Thread<T>)
    requires th.RTry? || th.RCopy? || th.RRelease?
    ensures Reading(th)
  {}

  lemma WRetry<T>(c: Config, s: State<T>, s': State<T>, t: nat, e: Event<T>)
    requires Inv(c, s) && t in s.threads && s.threads[t].WTry? && WriteStep(c, s, s', t, e)
    requires !s.threads[t].single && s.whead != s.threads[t].at
    ensures Inv(c, s')
  {
    assert Knows(c, s, s.threads[t]);
    LocalStep(c, s, t, s'.threads[t]);
  }

  lemma RReserveOwn<T>(c: Config, s: State<T>, s': State<T>, t: nat, e: Event<T>)
    requires Inv(c, s) && NoReuse(c, s, t) && t in s.threads && s.threads[t].RTry? && ReadStep(c, s, s', t, e)
    requires s.threads[t].single || s.rhead == s.threads[t].at
    ensures var th' := RCopy(s.threads[t].n, s.threads[t].single, s.threads[t].at, s.rh, []);
      && s'.threads == s.threads[t := th'] && Cursors(c, s') && Published(c, s') && Knows(c, s', th')
      && Continues(s.threads[t], th') && 1 <= th'.n && s.rt <= s.rh
      && s'.wt == s.wt && s'.wh == s.wh && s'.rt == s.rt && s'.rh == s.rh + th'.n
      && s'.data == s.data && s'.log == s.log
      && RClaims(s') == RClaims(s)[t := Region(s.rh, th'.n)] && WClaims(s') == WClaims(s)
      && RClaims(s)[t] == Nothing
  {
    hide Inv, AllKnow, Tiles, WAlone, RAlone, Published, Written, WriteStep, ReadStep, WClaims, RClaims;
    Parts(c, s);
    ThreadKnows(c, s, t);
    var th := s.threads[t];
    HeadUnchanged(c, s, t);
    RReserves(c, s, s', t, e);
    PlusMod(c, s.rh, th.n);
    PublishedSame(c, s, s');
    SetClaims(s, s', t, s'.threads[t]);
    ClaimsAt(s, t);
  }

  lemma RReserveHarmless<T>(c: Config, s: State<T>, s': State<T>, t: nat)
    requires GoodConfig(c) && Cursors(c, s) && Cursors(c, s') && RAlone(s) && t in s.threads && Reading(s.threads[t])
    requires t in s'.threads && s'.threads == s.threads[t := s'.threads[t]]
    requires s'.wt == s.wt && s'.wh == s.wh && s'.rt == s.rt && s.rh <= s'.rh && s'.data == s.data && s'.log == s.log
    ensures Harmless(c, s, s', t)
  {}

  lemma RTryKeeps<T>(c: Config, s: State<T>, s': State<T>, t: nat, e: Event<T>)
    requires Inv(c, s) && NoReuse(c, s, t) && t in s.threads && s.threads[t].RTry? && ReadStep(c, s, s', t, e)
    ensures Inv(c, s')
  {
    hide *;
    Parts(c, s);
    var th := s.threads[t];
    if th.single || s.rhead == th.at {
      RReserveOwn(c, s, s', t, e);
      ReadingNow(th);
      RReserveHarmless(c, s, s', t);
      TilesAdd(RClaims(s), s.rt, s.rh, t, th.n);
      AloneKept(s, s', t, s'.threads[t]);
      OthersKnow(c, s, s', t);
      Whole(c, s');
    } else {
      RRetry(c, s, s', t, e);
    }
  }

  lemma RRetry<T>(c: Config, s: State<T>, s': State<T>, t: nat, e: Event<T>)
    requires Inv(c, s) && t in s.threads && s.threads[t].RTry? && ReadStep(c, s, s', t, e)
    requires !s.threads[t].single && s.rhead != s.threads[t].at
    ensures Inv(c, s')
  {
    assert Knows(c, s, s.threads[t]);
    LocalStep(c, s, t, s'.threads[t]);
  }

  // touching the data

  /** The slot that a copying thread touches is that of the true position. */
  lemma TrueSlot<T>(c: Config, s: State<T>, t: nat, k: nat)
    requires Inv(c, s) && t in s.threads && (s.threads[t].WCopy? || s.threads[t].RCopy?) && k < s.threads[t].n
    ensures var th := s.threads[t];
      && th.n <= c.cap && PieceIndex(c.cap, th.at % c.cap, th.n, k) == (th.pos + k) % c.cap < c.cap
      && (th.WCopy? ==> s.wt <= th.pos && th.pos + th.n <= s.wh)
      && (th.RCopy? ==> s.rt <= th.pos && th.pos + th.n <= s.rh)
  {
    hide Inv, AllKnow, Disjoint, Owned, WAlone, RAlone, Published, Written, WClaims, RClaims, PieceIndex;
    Parts(c, s);
    ThreadKnows(c, s, t);
    ClaimsAt(s, t);
    MaskMod(c, s.threads[t].pos);
    PieceIndexMod(c.cap, s.threads[t].pos, s.threads[t].n, k);
  }

  /** Writing one element: the slot belongs to nobody else. */
  lemma PutOwn<T>(c: Config, s: State<T>, s': State<T>, t: nat, e: Event<T>)
    requires Inv(c, s) && t in s.threads && s.threads[t].WCopy? && WriteStep(c, s, s', t, e)
    requires s.threads[t].done < s.threads[t].n
    ensures var th := s.threads[t]; var th' := th.(done := th.done + 1);
      && s'.threads == s.threads[t := th'] && Cursors(c, s') && Continues(th, th')
      && th.n <= |th.items| && s'.data == s.data[(th.pos + th.done) % c.cap := th.items[th.done]]
      && s'.wt == s.wt && s'.wh == s.wh && s'.rt == s.rt && s'.rh == s.rh && s'.log == s.log
      && s.wt <= th.pos && th.pos + th.n <= s.wh && s.wh <= s.rt + c.cap && s.rt <= s.wt && |s.log| == s.wt
      && WClaims(s') == WClaims(s) && RClaims(s') == RClaims(s)
  {
    var th := s.threads[t];
    assert Knows(c, s, th);
    TrueSlot(c, s, t, th.done);
    hide Tiles, WAlone, RAlone, Published;
    SetClaims(s, s', t, s'.threads[t]);
  }

  lemma PutKnows<T>(c: Config, s: State<T>, s': State<T>, th: Thread<T>)
    requires GoodConfig(c) && Cursors(c, s) && Cursors(c, s') && th.WCopy? && Knows(c, s, th) && th.done < th.n
    requires s'.data == s.data[(th.pos + th.done) % c.cap := th.items[th.done]]
    ensures Knows(c, s', th.(done := th.done + 1))
  {
    forall j | 0 <= j < th.done + 1 ensures s'.data[(th.pos + j) % c.cap] == th.items[j] {
      if j < th.done { SlotsDiffer(c.cap, th.pos + j, th.pos + th.done); }
    }
  }

  lemma PutHarmless<T>(c: Config, s: State<T>, s': State<T>, t: nat)
    requires Inv(c, s) && Cursors(c, s') && t in s.threads && s.threads[t].WCopy?
    requires s.threads[t].done < s.threads[t].n <= |s.threads[t].items|
    requires t in s'.threads && s'.threads == s.threads[t := s'.threads[t]]
    requires var th := s.threads[t]; s'.data == s.data[(th.pos + th.done) % c.cap := th.items[th.done]]
    requires s'.wt == s.wt && s'.wh == s.wh && s'.rt == s.rt && s'.rh == s.rh && s'.log == s.log
    requires s.wt <= s.threads[t].pos && s.threads[t].pos + s.threads[t].n <= s.wh
    ensures Harmless(c, s, s', t) && Published(c, s')
  {
    var th := s.threads[t];
    var at := th.pos + th.done;
    forall i | s.rt <= i < s.wt ensures s'.data[i % c.cap] == s.log[i] {
      SlotsDiffer(c.cap, i, at);
    }
    forall u | u in s.threads && u != t ensures Spared(c, s, s', s.threads[u]) {
      var o := s.threads[u];
      if WClaim(o).Region? {
        assert WClaims(s)[u] == Region(o.pos, o.n) && WClaims(s)[t] == Region(th.pos, th.n);
        forall i | o.pos <= i < o.pos + o.n ensures s'.data[i % c.cap] == s.data[i % c.cap] {
          if i < at { SlotsDiffer(c.cap, i, at); } else { SlotsDiffer(c.cap, at, i); }
        }
      }
    }
  }

  lemma PutKeeps<T>(c: Config, s: State<T>, s': State<T>, t: nat, e: Event<T>)
    requires Inv(c, s) && t in s.threads && s.threads[t].WCopy? && WriteStep(c, s, s', t, e)
    requires s.threads[t].done < s.threads[t].n
    ensures Inv(c, s')
  {
    hide *;
    Parts(c, s);
    ThreadKnows(c, s, t);
    PutOwn(c, s, s', t, e);
    PutKnows(c, s, s', s.threads[t]);
    PutHarmless(c, s, s', t);
    AloneKept(s, s', t, s'.threads[t]);
    OthersKnow(c, s, s', t);
    Whole(c, s');
  }

  lemma ThreadKnows<T>(c: Config, s: State<T>, t: nat)
    requires Inv(c, s) && t in s.threads
    ensures Knows(c, s, s.threads[t])
  {}

  // taking turns

  /** When it is a writer's turn, its region is the first of those in flight. */
  lemma WriterTurn<T>(c: Config, s: State<T>, t: nat)
    requires Inv(c, s) && t in s.threads && s.threads[t].WCopy?
    requires s.threads[t].single || s.wtail == s.threads[t].at
    ensures s.threads[t].pos == s.wt
  {
    var th, m := s.threads[t], WClaims(s);
    assert Knows(c, s, th) && m[t] == Region(th.pos, th.n);
    if th.single {
      forall u | u in m && u != t ensures m[u].Nothing? {
        if WClaim(s.threads[u]).Region? { assert Writing(s.threads[u]) && Writing(th); }
      }
      TilesOnly(m, s.wt, s.wh, t);
    } else {
      ModUnique(c.modulus, s.wt, th.pos);
    }
  }

  lemma ReaderTurn<T>(c: Config, s: State<T>, t: nat)
    requires Inv(c, s) && t in s.threads && s.threads[t].RCopy?
    requires s.threads[t].single || s.rtail == s.threads[t].at
    ensures s.threads[t].pos == s.rt
  {
    var th, m := s.threads[t], RClaims(s);
    assert Knows(c, s, th) && m[t] == Region(th.pos, th.n);
    if th.single {
      forall u | u in m && u != t ensures m[u].Nothing? {
        if RClaim(s.threads[u]).Region? { assert Reading(s.threads[u]) && Reading(th); }
      }
      TilesOnly(m, s.rt, s.rh, t);
    } else {
      ModUnique(c.modulus, s.rt, th.pos);
    }
  }

  lemma WTurnKeeps<T>(c: Config, s: State<T>, s': State<T>, t: nat, e: Event<T>)
    requires Inv(c, s) && t in s.threads && s.threads[t].WCopy? && WriteStep(c, s, s', t, e)
    requires s.threads[t].done >= s.threads[t].n
    ensures Inv(c, s')
  {
    assert Knows(c, s, s.threads[t]);
    WriterTurn(c, s, t);
    LocalStep(c, s, t, s'.threads[t]);
  }

  /** What a reader copies out of the buffer is what was published at its position. */
  lemma GotPublished<T>(c: Config, s: State<T>, t: nat)
    requires Inv(c, s) && t in s.threads && s.threads[t].RCopy? && |s.threads[t].got| < s.threads[t].n
    ensures var th := s.threads[t]; var k := |th.got|;
      && th.n <= c.cap && PieceIndex(c.cap, th.at % c.cap, th.n, k) < c.cap == |s.data|
      && var x := s.data[PieceIndex(c.cap, th.at % c.cap, th.n, k)];
      Knows(c, s, RCopy(th.n, th.single, th.at, th.pos, th.got + [x]))
  {
    var th := s.threads[t];
    assert Knows(c, s, th);
    var k := |th.got|;
    TrueSlot(c, s, t, k);
    assert s.data[(th.pos + k) % c.cap] == s.log[th.pos + k];
    assert s.log[th.pos..th.pos + k + 1] == s.log[th.pos..th.pos + k] + [s.log[th.pos + k]];
  }

  lemma GetKeeps<T>(c: Config, s: State<T>, s': State<T>, t: nat, e: Event<T>)
    requires Inv(c, s) && t in s.threads && s.threads[t].RCopy? && ReadStep(c, s, s', t, e)
    requires |s.threads[t].got| < s.threads[t].n
    ensures Inv(c, s')
  {
    GotPublished(c, s, t);
    hide Inv, Knows;
    LocalStep(c, s, t, s'.threads[t]);
  }

  lemma RTurnKeeps<T>(c: Config, s: State<T>, s': State<T>, t: nat, e: Event<T>)
    requires Inv(c, s) && t in s.threads && s.threads[t].RCopy? && ReadStep(c, s, s', t, e)
    requires |s.threads[t].got| >= s.threads[t].n
    ensures Inv(c, s')
  {
    assert Knows(c, s, s.threads[t]);
    ReaderTurn(c, s, t);
    LocalStep(c, s, t, s'.threads[t]);
  }

  // publishing

  /** No two threads publish at once. */
  lemma OnePublisher<T>(c: Config, s: State<T>, t: nat, u: nat)
    requires Inv(c, s) && t in s.threads && u in s.threads && t != u
    ensures !(s.threads[t].WPublish? && s.threads[u].WPublish?)
    ensures !(s.threads[t].RRelease? && s.threads[u].RRelease?)
  {
    var a, b := s.threads[t], s.threads[u];
    assert Knows(c, s, a) && Knows(c, s, b);
    assert WClaims(s)[t] == WClaim(a) && WClaims(s)[u] == WClaim(b);
    assert RClaims(s)[t] == RClaim(a) && RClaims(s)[u] == RClaim(b);
  }

  /** Who publishes has the first of the regions in flight. */
  lemma ClaimedFirst<T>(c: Config, s: State<T>, t: nat)
    requires Inv(c, s) && t in s.threads
    ensures var th := s.threads[t];
      && (th.WPublish? ==> th.pos == s.wt && s.wt + th.n <= s.wh && WClaims(s)[t] == Region(s.wt, th.n))
      && (th.RRelease? ==> th.pos == s.rt && s.rt + th.n <= s.rh && RClaims(s)[t] == Region(s.rt, th.n))
  {
    hide Inv, AllKnow, Disjoint, Owned, WAlone, RAlone, Published;
    Parts(c, s);
    ThreadKnows(c, s, t);
    assert WClaims(s)[t] == WClaim(s.threads[t]) && RClaims(s)[t] == RClaim(s.threads[t]);
  }

  lemma PublishOwn<T>(c: Config, s: State<T>, s': State<T>, t: nat, e: Event<T>)
    requires Inv(c, s) && t in s.threads && s.threads[t].WPublish? && WriteStep(c, s, s', t, e)
    ensures var th := s.threads[t];
      && s'.threads == s.threads[t := Idle] && Cursors(c, s') && Knows(c, s', Idle) && Continues(th, Idle)
      && th.n <= |th.items| && s'.log == s.log + th.items[..th.n]
      && s'.wt == s.wt + th.n && s'.wh == s.wh && s'.rt == s.rt && s'.rh == s.rh && s'.data == s.data
      && t in WClaims(s) && WClaims(s)[t] == Region(s.wt, th.n)
      && WClaims(s') == WClaims(s)[t := Nothing] && RClaims(s') == RClaims(s)
  {
    hide Inv, AllKnow, Tiles, WAlone, RAlone, Published, Written, WriteStep, ReadStep, WClaims, RClaims;
    Parts(c, s);
    ThreadKnows(c, s, t);
    var th := s.threads[t];
    ClaimedFirst(c, s, t);
    Publishes(c, s, s', t, e);
    PlusMod(c, s.wt, th.n);
    SetClaims(s, s', t, Idle);
    ClaimsAt(s, t);
  }

  lemma PublishPublished<T>(c: Config, s: State<T>, s': State<T>, t: nat)
    requires Inv(c, s) && Cursors(c, s') && t in s.threads && s.threads[t].WPublish?
    requires var th := s.threads[t]; th.n <= |th.items| && s'.log == s.log + th.items[..th.n]
    requires s'.wt == s.wt + s.threads[t].n && s'.rt == s.rt && s'.data == s.data
    ensures Published(c, s')
  {
    var th := s.threads[t];
    assert Knows(c, s, th);
    forall i | s'.rt <= i < s'.wt ensures s'.data[i % c.cap] == s'.log[i] {
      if i < s.wt {
        assert s.data[i % c.cap] == s.log[i];
      } else {
        assert s.data[(th.pos + (i - s.wt)) % c.cap] == th.items[i - s.wt];
      }
    }
  }

  lemma TailHarmless<T>(c: Config, s: State<T>, s': State<T>, t: nat)
    requires Inv(c, s) && Cursors(c, s') && t in s.threads
    requires t in s'.threads && s'.threads == s.threads[t := s'.threads[t]]
    requires s.wt <= s'.wt && s.rt <= s'.rt && s'.wh == s.wh && s'.rh == s.rh && s'.data == s.data && s.log <= s'.log
    requires s'.wt != s.wt ==> s.threads[t].WPublish?
    requires s'.rt != s.rt ==> s.threads[t].RRelease?
    ensures Harmless(c, s, s', t)
  {
    forall u | u in s.threads && u != t ensures Spared(c, s, s', s.threads[u]) {
      OnePublisher(c, s, t, u);
    }
  }

  lemma WPublishKeeps<T>(c: Config, s: State<T>, s': State<T>, t: nat, e: Event<T>)
    requires Inv(c, s) && t in s.threads && s.threads[t].WPublish? && WriteStep(c, s, s', t, e)
    ensures Inv(c, s')
  {
    hide *;
    Parts(c, s);
    PublishOwn(c, s, s', t, e);
    PublishPublished(c, s, s', t);
    TailHarmless(c, s, s', t);
    TilesRemove(WClaims(s), s.wt, s.wh, t, s.threads[t].n);
    AloneKept(s, s', t, Idle);
    OthersKnow(c, s, s', t);
    Whole(c, s');
  }

  lemma ReleaseOwn<T>(c: Config, s: State<T>, s': State<T>, t: nat, e: Event<T>)
    requires Inv(c, s) && t in s.threads && s.threads[t].RRelease? && ReadStep(c, s, s', t, e)
    ensures var th := s.threads[t];
      && s'.threads == s.threads[t := Idle] && Cursors(c, s') && Published(c, s') && Knows(c, s', Idle)
      && Continues(th, Idle) && s'.wt == s.wt && s'.wh == s.wh && s'.rt == s.rt + th.n && s'.rh == s.rh
      && s'.data == s.data && s'.log == s.log
      && t in RClaims(s) && RClaims(s)[t] == Region(s.rt, th.n)
      && RClaims(s') == RClaims(s)[t := Nothing] && WClaims(s') == WClaims(s)
  {
    hide Inv, AllKnow, Tiles, WAlone, RAlone, Published, Written, WriteStep, ReadStep, WClaims, RClaims;
    Parts(c, s);
    ThreadKnows(c, s, t);
    var th := s.threads[t];
    ClaimedFirst(c, s, t);
    Releases(c, s, s', t, e);
    PlusMod(c, s.rt, th.n);
    PublishedLess(c, s, s');
    SetClaims(s, s', t, Idle);
    ClaimsAt(s, t);
  }

  lemma RReleaseKeeps<T>(c: Config, s: State<T>, s': State<T>, t: nat, e: Event<T>)
    requires Inv(c, s) && t in s.threads && s.threads[t].RRelease? && ReadStep(c, s, s', t, e)
    ensures Inv(c, s')
  {
    hide *;
    Parts(c, s);
    ReleaseOwn(c, s, s', t, e);
    TailHarmless(c, s, s', t);
    TilesRemove(RClaims(s), s.rt, s.rh, t, s.threads[t].n);
    AloneKept(s, s', t, Idle);
    OthersKnow(c, s, s', t);
    Whole(c, s');
  }

  lemma StartKeeps<T>(c: Config, s: State<T>, s': State<T>, t: nat, e: Event<T>)
    requires Inv(c, s) && t in s.threads
    requires (s.threads[t].WStart? && WriteStep(c, s, s', t, e)) || (s.threads[t].RStart? && ReadStep(c, s, s', t, e))
    ensures Inv(c, s')
  {
    assert Knows(c, s, s.threads[t]);
    LocalStep(c, s, t, s'.threads[t]);
  }

  lemma StepKeeps<T(!new)>(c: Config, s: State<T>, s': State<T>, t: nat, e: Event<T>)
    requires Inv(c, s) && NoReuse(c, s, t) && Step(c, s, s', t, e)
    ensures Inv(c, s')
  {
    hide Inv, NoReuse, Begin;
    if e == Quiet && exists th :: Begin(s, s', t, th) {
      var th :| Begin(s, s', t, th);
      BeginKeeps(c, s, s', t, th);
    } else {
      match s.threads[t]
      case WStart(_, _, _, _) => StartKeeps(c, s, s', t, e);
      case WRead(_, _, _, _, _, _) => WReadKeeps(c, s, s', t, e);
      case WTry(_, _, _, _, _, _) => WTryKeeps(c, s, s', t, e);
      case WCopy(_, n, _, _, _, done) =>
        if done < n { PutKeeps(c, s, s', t, e); } else { WTurnKeeps(c, s, s', t, e); }
      case WPublish(_, _, _, _, _) => WPublishKeeps(c, s, s', t, e);
      case RStart(_, _, _) => StartKeeps(c, s, s', t, e);
      case RRead(_, _, _, _, _) => RReadKeeps(c, s, s', t, e);
      case RTry(_, _, _, _, _) => RTryKeeps(c, s, s', t, e);
      case RCopy(n, _, _, _, got) =>
        if |got| < n { GetKeeps(c, s, s', t, e); } else { RTurnKeeps(c, s, s', t, e); }
      case RRelease(_, _, _, _, _) => RReleaseKeeps(c, s, s', t, e);
    }
  }

  // ---------- runs ----------

  /** `ffrq_alloc`, `ffring_alloc`. */
  ghost predicate Init<T>(c: Config, s: State<T>) {
    && s.whead == s.wtail == s.rhead == s.rtail == 0 && |s.data| == c.cap
    && s.wh == s.wt == s.rh == s.rt == 0 && s.log == [] && s.threads == map[]
  }

  /** States `ss`, where step i is taken by thread ts[i] and means es[i] for the queue. */
  ghost predicate Run<T(!new)>(c: Config, ss: seq<State<T>>, ts: seq<nat>, es: seq<Event<T>>) {
    && GoodConfig(c) && |ss| == |ts| + 1 == |es| + 1 && Init(c, ss[0])
    && forall i :: 0 <= i < |ts| ==> NoReuse(c, ss[i], ts[i]) && Step(c, ss[i], ss[i + 1], ts[i], es[i])
  }

  lemma {:induction false} RunKeeps<T(!new)>(c: Config, ss: seq<State<T>>, ts: seq<nat>, es: seq<Event<T>>, i: nat)
    requires Run(c, ss, ts, es) && i < |ss|
    ensures Inv(c, ss[i])
  {
    if i == 0 {
    } else {
      RunKeeps(c, ss, ts, es, i - 1);
      hide Inv, Step;
      StepKeeps(c, ss[i - 1], ss[i], ts[i - 1], es[i - 1]);
    }
  }

  ghost function PutBy<T>(e: Event<T>): seq<T> { if e.Enqueue? then e.put else [] }

  ghost function GotBy<T>(e: Event<T>): seq<T> { if e.Dequeue? then e.got else [] }

  ghost function Enqueued<T>(es: seq<Event<T>>): seq<T> {
    if es == [] then [] else Enqueued(es[..|es| - 1]) + PutBy(es[|es| - 1])
  }

  ghost function Dequeued<T>(es: seq<Event<T>>): seq<T> {
    if es == [] then [] else Dequeued(es[..|es| - 1]) + GotBy(es[|es| - 1])
  }

  /** What each step does to the abstract queue, and to the log behind it. */
  ghost predicate Refines<T>(s: State<T>, s': State<T>, e: Event<T>) {
    && (e == Quiet ==> Queue(s') == Queue(s))
    && (e.Enqueue? ==> Queue(s') == Queue(s) + e.put)
    && (e.Dequeue? ==> Queue(s) == e.got + Queue(s'))
    && s'.log == s.log + PutBy(e) && s.rh <= s'.rh <= |s.log| && GotBy(e) == s.log[s.rh..s'.rh]
  }

  lemma StepRefines<T(!new)>(c: Config, s: State<T>, s': State<T>, t: nat, e: Event<T>)
    requires Inv(c, s) && NoReuse(c, s, t) && Step(c, s, s', t, e)
    ensures Refines(s, s', e)
  {
    hide *;
    StepKeeps(c, s, s', t, e);
    Bounds(c, s);
    Bounds(c, s');
    EventKind(e);
    if e.Quiet? {
      QuietStep(c, s, s', t);
    } else if e.Enqueue? {
      EnqueueStep(c, s, s', t, e);
    } else {
      DequeueStep(c, s, s', t, e);
    }
    RefinesBy(s, s', e);
  }

  lemma EventKind<T>(e: Event<T>)
    ensures e.Quiet? <==> e == Quiet
    ensures e.Quiet? || e.Enqueue? || e.Dequeue?
  {}

  /** What the kinds of steps do to the log and the cursors is what they do to the queue. */
  lemma RefinesBy<T>(s: State<T>, s': State<T>, e: Event<T>)
    requires s.rh <= s.wt == |s.log| && s'.rh <= s'.wt == |s'.log|
    requires Queue(s) == s.log[s.rh..s.wt] && Queue(s') == s'.log[s'.rh..s'.wt]
    requires e.Quiet? ==> s'.log == s.log && s'.rh == s.rh && s'.wt == s.wt
    requires e.Enqueue? ==> s'.log == s.log + e.put && s'.rh == s.rh && s'.wt == s.wt + |e.put|
    requires e.Dequeue? ==> s'.log == s.log && s'.wt == s.wt && s.rh <= s'.rh && e.got == s.log[s.rh..s'.rh]
    ensures Refines(s, s', e)
  {
    hide Queue;
    if e.Enqueue? {
      assert s'.log[s'.rh..s'.wt] == s.log[s.rh..s.wt] + e.put;
    } else if e.Dequeue? {
      assert s.log[s.rh..s.wt] == s.log[s.rh..s'.rh] + s.log[s'.rh..s.wt];
    }
  }

  lemma EnqueueStep<T(!new)>(c: Config, s: State<T>, s': State<T>, t: nat, e: Event<T>)
    requires GoodConfig(c) && Step(c, s, s', t, e) && e.Enqueue?
    ensures s'.log == s.log + e.put && s'.rh == s.rh && s'.wt == s.wt + |e.put|
  {
    hide Begin;
    assert s.threads[t].WPublish?;
  }

  /** Elements leave the queue in the step that reserves them for a reader. */
  lemma DequeueStep<T(!new)>(c: Config, s: State<T>, s': State<T>, t: nat, e: Event<T>)
    requires Inv(c, s) && NoReuse(c, s, t) && Step(c, s, s', t, e) && e.Dequeue?
    ensures s'.log == s.log && s'.wt == s.wt && s.rh <= s'.rh <= |s.log| && e.got == s.log[s.rh..s'.rh]
    ensures t in s'.threads && Holds(s'.threads[t], s.rh, |e.got|)
  {
    hide *;
    Bounds(c, s);
    Dequeuer(c, s, s', t, e);
    TakesPublished(c, s, t);
    HoldsNow(s'.threads[t], s.threads[t].n, s.threads[t].single, s.threads[t].at, s.rh);
    Take(s.log, s.rh, s.wt, s.threads[t].n);
  }

  lemma Take<T>(log: seq<T>, a: nat, b: nat, n: nat)
    requires a + n <= b <= |log|
    ensures log[a..b][..MinOf(n, |log[a..b]|)] == log[a..a + n] && |log[a..a + n]| == n
  {}

  lemma TakesPublished<T>(c: Config, s: State<T>, t: nat)
    requires Inv(c, s) && NoReuse(c, s, t) && t in s.threads && s.threads[t].RTry?
    requires s.threads[t].single || s.rhead == s.threads[t].at
    ensures s.rh + s.threads[t].n <= s.wt
  {
    HeadUnchanged(c, s, t);
    ThreadKnows(c, s, t);
  }

  lemma HoldsNow<T>(th: Thread<T>, n: nat, single: bool, at: nat, pos: nat)
    requires th == RCopy(n, single, at, pos, [])
    ensures Holds(th, pos, n)
  {}

  lemma Dequeuer<T(!new)>(c: Config, s: State<T>, s': State<T>, t: nat, e: Event<T>)
    requires GoodConfig(c) && Step(c, s, s', t, e) && e.Dequeue?
    ensures t in s.threads && s.threads[t].RTry? && (s.threads[t].single || s.rhead == s.threads[t].at)
    ensures var th := s.threads[t];
      && s'.log == s.log && s'.wt == s.wt && s'.rh == s.rh + th.n && e.got == Queue(s)[..MinOf(th.n, |Queue(s)|)]
      && t in s'.threads && s'.threads[t] == RCopy(th.n, th.single, th.at, s.rh, [])
  {
    hide Begin, Queue;
    assert s.threads[t].RTry?;
  }

  /** A reader with its region. */
  ghost predicate Holds<T>(th: Thread<T>, pos: nat, n: nat) {
    (th.RCopy? || th.RRelease?) && th.pos == pos && th.n == n
  }

  lemma QuietStep<T(!new)>(c: Config, s: State<T>, s': State<T>, t: nat)
    requires GoodConfig(c) && Step(c, s, s', t, Quiet)
    ensures s'.log == s.log && s'.rh == s.rh && s'.wt == s.wt
  {}

  lemma Bounds<T>(c: Config, s: State<T>)
    requires Inv(c, s)
    ensures GoodConfig(c) && s.rt <= s.rh <= s.wt <= s.wh <= s.rt + c.cap
    ensures |s.log| == s.wt && Queue(s) == s.log[s.rh..s.wt]
  {}

  lemma RunAt<T(!new)>(c: Config, ss: seq<State<T>>, ts: seq<nat>, es: seq<Event<T>>, i: nat)
    requires Run(c, ss, ts, es) && i < |es|
    ensures i + 1 < |ss| && i < |ts| && Inv(c, ss[i]) && Inv(c, ss[i + 1]) && NoReuse(c, ss[i], ts[i])
    ensures Step(c, ss[i], ss[i + 1], ts[i], es[i]) && Refines(ss[i], ss[i + 1], es[i])
  {
    RunKeeps(c, ss, ts, es, i);
    RunKeeps(c, ss, ts, es, i + 1);
    hide Inv, Step, Refines, NoReuse;
    StepRefines(c, ss[i], ss[i + 1], ts[i], es[i]);
  }

  lemma {:induction false} RunLog<T(!new)>(c: Config, ss: seq<State<T>>, ts: seq<nat>, es: seq<Event<T>>, i: nat)
    requires Run(c, ss, ts, es) && i < |ss|
    ensures i <= |es| && ss[i].rh <= |ss[i].log|
    ensures Enqueued(es[..i]) == ss[i].log && Dequeued(es[..i]) == ss[i].log[..ss[i].rh]
  {
    hide *;
    RunStart(c, ss, ts, es);
    if i == 0 {
    } else {
      RunLog(c, ss, ts, es, i - 1);
      RunAt(c, ss, ts, es, i - 1);
      MovedOn(es, i, ss[i - 1], ss[i]);
    }
  }

  lemma RunStart<T(!new)>(c: Config, ss: seq<State<T>>, ts: seq<nat>, es: seq<Event<T>>)
    requires Run(c, ss, ts, es)
    ensures |ss| == |es| + 1 == |ts| + 1 && ss[0].log == [] && ss[0].rh == 0
    ensures Enqueued(es[..0]) == [] && Dequeued(es[..0]) == []
  {}

  lemma Prefixes<T>(log: seq<T>, put: seq<T>, a: nat, b: nat)
    requires a <= b <= |log|
    ensures (log + put)[..b] == log[..a] + log[a..b]
  {}

  lemma MovedOn<T>(es: seq<Event<T>>, i: nat, s: State<T>, s': State<T>)
    requires 0 < i <= |es| && Refines(s, s', es[i - 1])
    requires Enqueued(es[..i - 1]) == s.log && s.rh <= |s.log| && Dequeued(es[..i - 1]) == s.log[..s.rh]
    ensures Enqueued(es[..i]) == s'.log && s'.rh <= |s'.log| && Dequeued(es[..i]) == s'.log[..s'.rh]
  {
    hide Queue;
    assert es[..i][..i - 1] == es[..i - 1] && es[..i][i - 1] == es[i - 1];
    hide Enqueued, Dequeued;
    Prefixes(s.log, PutBy(es[i - 1]), s.rh, s'.rh);
  }

  /** The ring is a bounded first-in first-out queue: over every run, what was taken out
      followed by what is in it is what was put in, so nothing is lost, duplicated or
      reordered, and it never holds more than `cap` elements. */
  lemma Fifo<T(!new)>(c: Config, ss: seq<State<T>>, ts: seq<nat>, es: seq<Event<T>>)
    requires Run(c, ss, ts, es)
    ensures var s := ss[|ss| - 1];
      Enqueued(es) == Dequeued(es) + Queue(s) && |Queue(s)| <= c.cap
  {
    hide *;
    var i := |es|;
    RunStart(c, ss, ts, es);
    RunLog(c, ss, ts, es, i);
    RunKeeps(c, ss, ts, es, i);
    Bounds(c, ss[i]);
    assert es[..i] == es;
    Prefixes(ss[i].log, [], ss[i].rh, ss[i].wt);
    assert ss[i].log + [] == ss[i].log && ss[i].log[..ss[i].wt] == ss[i].log;
  }

  /** In every reachable state the cursors are in order and at most `cap` apart. */
  lemma CursorOrder<T(!new)>(c: Config, ss: seq<State<T>>, ts: seq<nat>, es: seq<Event<T>>, i: nat)
    requires Run(c, ss, ts, es) && i < |ss|
    ensures var s := ss[i]; s.rt <= s.rh <= s.wt <= s.wh <= s.rt + c.cap
  {
    RunKeeps(c, ss, ts, es, i);
    Bounds(c, ss[i]);
  }

  lemma {:induction false} LogGrows<T(!new)>(c: Config, ss: seq<State<T>>, ts: seq<nat>, es: seq<Event<T>>,
                                             i: nat, j: nat)
    requires Run(c, ss, ts, es) && i <= j < |ss|
    ensures ss[i].log <= ss[j].log
    decreases j
  {
    hide *;
    if i == j {
    } else {
      RunStart(c, ss, ts, es);
      LogGrows(c, ss, ts, es, i, j - 1);
      RunAt(c, ss, ts, es, j - 1);
      LogExtended(ss[i].log, ss[j - 1], ss[j], es[j - 1]);
    }
  }

  lemma LogExtended<T>(log: seq<T>, s: State<T>, s': State<T>, e: Event<T>)
    requires Refines(s, s', e) && log <= s.log
    ensures log <= s'.log
  {}

  /** From its reservation on a reader keeps its region, until its operation ends. */
  lemma KeepsHolding<T(!new)>(c: Config, s: State<T>, s': State<T>, u: nat, e: Event<T>, t: nat, pos: nat, n: nat)
    requires GoodConfig(c) && Step(c, s, s', u, e) && t in s.threads && Holds(s.threads[t], pos, n)
    ensures t in s'.threads && (s'.threads[t].Idle? || Holds(s'.threads[t], pos, n))
  {
    if u != t {
      Elsewhere(c, s, s', u, e, t);
    }
  }

  lemma Elsewhere<T(!new)>(c: Config, s: State<T>, s': State<T>, u: nat, e: Event<T>, t: nat)
    requires GoodConfig(c) && Step(c, s, s', u, e) && t in s.threads && t != u
    ensures t in s'.threads && s'.threads[t] == s.threads[t]
  {}

  /** Thread t is busy in the states after i up to j. */
  ghost predicate BusyUntil<T>(ss: seq<State<T>>, t: nat, i: nat, j: nat)
    requires j < |ss|
  {
    forall k :: i < k <= j && t in ss[k].threads ==> !ss[k].threads[t].Idle?
  }

  lemma {:induction false} StillHolds<T(!new)>(c: Config, ss: seq<State<T>>, ts: seq<nat>, es: seq<Event<T>>,
                                               i: nat, j: nat)
    requires Run(c, ss, ts, es) && i < |es| && es[i].Dequeue? && i < j < |ss| && BusyUntil(ss, ts[i], i, j)
    ensures ts[i] in ss[j].threads && Holds(ss[j].threads[ts[i]], ss[i].rh, |es[i].got|)
    decreases j
  {
    hide *;
    RunStart(c, ss, ts, es);
    RunAt(c, ss, ts, es, j - 1);
    BusyBefore(ss, ts[i], i, j);
    if j == i + 1 {
      DequeueStep(c, ss[i], ss[j], ts[i], es[i]);
    } else {
      StillHolds(c, ss, ts, es, i, j - 1);
      GoodRun(c, ss, ts, es);
      KeepsHolding(c, ss[j - 1], ss[j], ts[j - 1], es[j - 1], ts[i], ss[i].rh, |es[i].got|);
    }
  }

  lemma BusyBefore<T>(ss: seq<State<T>>, t: nat, i: nat, j: nat)
    requires i < j < |ss| && BusyUntil(ss, t, i, j)
    ensures t in ss[j].threads ==> !ss[j].threads[t].Idle?
    ensures BusyUntil(ss, t, i, j - 1)
  {}

  lemma GoodRun<T(!new)>(c: Config, ss: seq<State<T>>, ts: seq<nat>, es: seq<Event<T>>)
    requires Run(c, ss, ts, es)
    ensures GoodConfig(c)
  {}

  /** What a reader has copied is always a prefix, and in the end all, of the elements that
      left the queue when it reserved them at step i, whatever other threads did to the
      buffer in between. */
  lemma ReaderGetsItsOwn<T(!new)>(c: Config, ss: seq<State<T>>, ts: seq<nat>, es: seq<Event<T>>, i: nat, j: nat)
    requires Run(c, ss, ts, es) && i < |es| && es[i].Dequeue? && i < j < |ss| && BusyUntil(ss, ts[i], i, j)
    ensures ts[i] in ss[j].threads
    ensures var th := ss[j].threads[ts[i]];
      (th.RCopy? || th.RRelease?) && th.got <= es[i].got && (th.RRelease? ==> th.got == es[i].got)
  {
    hide *;
    RunStart(c, ss, ts, es);
    RunAt(c, ss, ts, es, i);
    RunKeeps(c, ss, ts, es, j);
    LogGrows(c, ss, ts, es, i, j);
    StillHolds(c, ss, ts, es, i, j);
    Delivered(c, ss[j], ts[i], ss[i].rh, |es[i].got|);
    Extracted(ss[i], ss[i + 1], es[i]);
    var p, n := ss[i].rh, |es[i].got|;
    assert ss[j].log[p..p + n] == ss[i].log[p..p + n];
  }

  lemma Delivered<T>(c: Config, s: State<T>, t: nat, pos: nat, n: nat)
    requires Inv(c, s) && t in s.threads && Holds(s.threads[t], pos, n)
    ensures var th := s.threads[t];
      && (th.RCopy? || th.RRelease?) && pos + n <= |s.log| && th.got <= s.log[pos..pos + n]
      && (th.RRelease? ==> th.got == s.log[pos..pos + n])
  {
    ThreadKnows(c, s, t);
  }

  lemma Extracted<T>(s: State<T>, s': State<T>, e: Event<T>)
    requires Refines(s, s', e) && e.Dequeue?
    ensures s.rh + |e.got| <= |s.log| && e.got == s.log[s.rh..s.rh + |e.got|]
  {}

  // ---------- refusals ----------

  /** An amount m that is granted of n asked for and `avail` there: exactly n; at most n, and
      as much as there is; the same, and within the buffer from slot i on; or all there is,
      at least n. */
  ghost predicate Granted(mode: Mode, n: nat, avail: nat, i: nat, cap: nat, m: nat) {
    && 0 < m <= avail
    && (mode.Exact? ==> m == n)
    && (mode.Max? ==> m <= n && (m == n || m == avail))
    && (mode.Max1? ==> m <= n && i + m <= cap && (m == n || m == avail || i + m == cap))
    && (mode.Min? ==> m == avail && n <= avail)
  }

  lemma AmountGranted(mode: Mode, n: nat, avail: nat, i: nat, cap: nat)
    requires i < cap
    ensures var m := Amount(mode, n, avail, i, cap); 0 < m <= avail ==> Granted(mode, n, avail, i, cap, m)
  {}

  /** A write is refused exactly when the space free at the moment the tail was read,
      counted from the head read before, does not suffice, and else granted.  As long as the
      cursors have not wrapped in between, that space is real, and the reservations made
      since leave the ring with less than n free slots. */
  lemma WriteRefused<T>(c: Config, s: State<T>, s': State<T>, t: nat, e: Event<T>)
    requires Inv(c, s) && t in s.threads && s.threads[t].WRead? && WriteStep(c, s, s', t, e)
    ensures var th := s.threads[t];
      && t in s'.threads && var th', free := s'.threads[t], (s.rt + c.cap - th.pos) % c.modulus;
      var refused := th'.Idle?;
      && (!refused ==>
        && th' == WTry(th.items, th'.n, th.mode, th.single, th.at, th.pos)
        && Granted(th.mode, th.n, free, th.pos % c.cap, c.cap, th'.n))
      && (th.mode == Exact ==> (refused <==> th.n == 0 || free < th.n))
      && (th.mode == Max1 ==> (refused <==> th.n == 0 || free == 0))
      && (free == s.rt + c.cap - th.pos <==> s.rt + c.cap < th.pos + c.modulus)
      && (s.rt + c.cap < th.pos + c.modulus && refused && th.n > 0 ==> c.cap < (s.wh - s.rt) + th.n)
      && (s.rt + c.cap < th.pos + c.modulus && refused && th.n == 1 ==> s.wh == s.rt + c.cap)
  {
    var th := s.threads[t];
    ThreadKnows(c, s, t);
    FreeSpace(c, s, t);
    MaskMod(c, th.pos);
    AmountGranted(th.mode, th.n, Minus(c, c.cap + s.rtail, th.at), th.pos % c.cap, c.cap);
  }

  /** A read is refused exactly when the elements published when the tail was read,
      counted from the head read before, do not suffice, and else granted.  As long as the
      cursors have not wrapped in between, the queue then really has fewer than asked for, and none at all
      for an at-most request. */
  lemma ReadRefused<T>(c: Config, s: State<T>, s': State<T>, t: nat, e: Event<T>)
    requires Inv(c, s) && t in s.threads && s.threads[t].RRead? && ReadStep(c, s, s', t, e)
    ensures var th := s.threads[t];
      && t in s'.threads && var th', used := s'.threads[t], (s.wt - th.pos) % c.modulus;
      var refused := th'.Idle?;
      && (!refused ==>
        && th' == RTry(th'.n, th.mode, th.single, th.at, th.pos)
        && Granted(th.mode, th.n, used, th.pos % c.cap, c.cap, th'.n))
      && var some := th.mode == Max || th.mode == Max1;
      && (th.mode == Exact ==> (refused <==> th.n == 0 || used < th.n))
      && (th.mode == Min ==> (refused <==> used < th.n || used == 0))
      && (some ==> (refused <==> th.n == 0 || used == 0))
      && (used == s.wt - th.pos <==> s.wt < th.pos + c.modulus)
      && (s.wt < th.pos + c.modulus && refused && th.n > 0 ==>
        |Queue(s)| < th.n && (some || th.n == 1 ==> Queue(s) == []))
  {
    var th := s.threads[t];
    ThreadKnows(c, s, t);
    UsedSpace(c, s, t);
    Bounds(c, s);
    MaskMod(c, th.pos);
    AmountGranted(th.mode, th.n, Minus(c, s.wtail, th.at), th.pos % c.cap, c.cap);
  }

  // ---------- regions in use ----------

  /** The position is in a region that the thread has reserved and not published yet. */
  ghost predicate InRegion<T>(s: State<T>, t: nat, i: nat) { Owns(WClaims(s), t, i) || Owns(RClaims(s), t, i) }

  /** Regions being written and regions being read never share a slot, neither with
      each other nor among themselves. */
  lemma SlotsOwned<T>(c: Config, s: State<T>, t: nat, u: nat, i: nat, j: nat)
    requires Inv(c, s) && t in s.threads && u in s.threads
    requires InRegion(s, t, i) && InRegion(s, u, j) && t != u
    ensures i % c.cap != j % c.cap
  {
    assert s.rt <= i < s.rt + c.cap && s.rt <= j < s.rt + c.cap;
    assert WClaims(s)[t] == WClaim(s.threads[t]) && WClaims(s)[u] == WClaim(s.threads[u]);
    assert RClaims(s)[t] == RClaim(s.threads[t]) && RClaims(s)[u] == RClaim(s.threads[u]);
    assert i != j;
    if i < j { SlotsDiffer(c.cap, i, j); } else { SlotsDiffer(c.cap, j, i); }
  }

  /** The slot that a copying thread touches, in the one or two pieces of its region, is
      that of the true position, and no unfinished region of another thread has it. */
  lemma CopySlot<T>(c: Config, s: State<T>, t: nat, k: nat)
    requires Inv(c, s) && t in s.threads && (s.threads[t].WCopy? || s.threads[t].RCopy?) && k < s.threads[t].n
    ensures var th := s.threads[t]; th.n <= c.cap
    ensures var th := s.threads[t]; var slot := PieceIndex(c.cap, th.at % c.cap, th.n, k);
      slot == (th.pos + k) % c.cap && OnlyIn(c, s, t, slot)
  {
    hide *;
    Positive(c, s);
    TrueSlot(c, s, t, k);
    CopierOwns(s, t, k);
    OwnSlot(c, s, t, s.threads[t].pos + k);
  }

  /** Thread t alone has a region with that slot. */
  ghost predicate OnlyIn<T>(c: Config, s: State<T>, t: nat, slot: nat)
    requires 0 < c.cap
  {
    forall u, j: nat :: u in s.threads && u != t && InRegion(s, u, j) ==> j % c.cap != slot
  }

  lemma OwnSlot<T>(c: Config, s: State<T>, t: nat, i: nat)
    requires Inv(c, s) && t in s.threads && InRegion(s, t, i)
    ensures OnlyIn(c, s, t, i % c.cap)
  {
    hide Inv, InRegion, GoodConfig;
    Positive(c, s);
    forall u, j: nat | u in s.threads && u != t && InRegion(s, u, j) ensures j % c.cap != i % c.cap {
      SlotsOwned(c, s, t, u, i, j);
    }
  }

  lemma Positive<T>(c: Config, s: State<T>)
    requires Inv(c, s)
    ensures c.cap > 0
  {}

  lemma CopierOwns<T>(s: State<T>, t: nat, k: nat)
    requires t in s.threads && (s.threads[t].WCopy? || s.threads[t].RCopy?) && k < s.threads[t].n
    ensures InRegion(s, t, s.threads[t].pos + k)
  {}

  // ---------- waiting ----------

  /** A thread that has touched its data and waits for earlier ones to publish. */
  ghost predicate Waits<T>(s: State<T>, th: Thread<T>) {
    || (th.WCopy? && th.done >= th.n && !th.single && s.wtail != th.at)
    || (th.RCopy? && |th.got| >= th.n && !th.single && s.rtail != th.at)
  }

  /** A waiting thread waits for another one in flight that does not wait itself. */
  lemma WaitsForOther<T>(c: Config, s: State<T>, t: nat) returns (u: nat)
    requires Inv(c, s) && t in s.threads && Waits(s, s.threads[t])
    ensures u in s.threads && u != t && !s.threads[u].Idle? && !Waits(s, s.threads[u])
  {
    hide *;
    WaitingKind(s, s.threads[t]);
    if s.threads[t].WCopy? {
      u := FirstWriter(c, s, t);
    } else {
      u := FirstReader(c, s, t);
    }
  }

  lemma WaitingKind<T>(s: State<T>, th: Thread<T>)
    requires Waits(s, th)
    ensures th.WCopy? || th.RCopy?
  {}

  /** The thread whose region comes first is the one to publish. */
  lemma FirstWriter<T>(c: Config, s: State<T>, t: nat) returns (u: nat)
    requires Inv(c, s) && t in s.threads && s.threads[t].WCopy? && Waits(s, s.threads[t])
    ensures u in s.threads && u != t && !s.threads[u].Idle? && !Waits(s, s.threads[u])
  {
    hide Inv, AllKnow, Published, Disjoint, WAlone, RAlone, Written;
    Parts(c, s);
    ThreadKnows(c, s, t);
    assert WClaims(s)[t] == Region(s.threads[t].pos, s.threads[t].n);
    assert Owned(WClaims(s), s.wt);
    u :| Owns(WClaims(s), u, s.wt);
    assert WClaims(s)[u] == WClaim(s.threads[u]);
    ThreadKnows(c, s, u);
  }

  lemma FirstReader<T>(c: Config, s: State<T>, t: nat) returns (u: nat)
    requires Inv(c, s) && t in s.threads && s.threads[t].RCopy? && Waits(s, s.threads[t])
    ensures u in s.threads && u != t && !s.threads[u].Idle? && !Waits(s, s.threads[u])
  {
    hide Inv, AllKnow, Published, Disjoint, WAlone, RAlone, Written;
    Parts(c, s);
    ThreadKnows(c, s, t);
    assert RClaims(s)[t] == Region(s.threads[t].pos, s.threads[t].n);
    assert Owned(RClaims(s), s.rt);
    u :| Owns(RClaims(s), u, s.rt);
    assert RClaims(s)[u] == RClaim(s.threads[u]);
    ThreadKnows(c, s, u);
  }

  /** A thread that is not waiting can always take its next step. */
  lemma CanMove<T(!new)>(c: Config, s: State<T>, t: nat) returns (s': State<T>, e: Event<T>)
    requires Inv(c, s) && t in s.threads && !s.threads[t].Idle? && !Waits(s, s.threads[t])
    ensures Step(c, s, s', t, e)
  {
    ThreadKnows(c, s, t);
    var th := s.threads[t];
    if th.WCopy? {
      s', e := NextPut(c, s, t);
    } else if th.RCopy? {
      s', e := NextGet(c, s, t);
    } else if Writing(th) {
      s', e := NextWrite(c, s, t);
    } else {
      s', e := NextRead(c, s, t);
    }
    hide WriteStep, ReadStep;
  }

  lemma NextWrite<T>(c: Config, s: State<T>, t: nat) returns (s': State<T>, e: Event<T>)
    requires GoodConfig(c) && Cursors(c, s) && t in s.threads && Knows(c, s, s.threads[t])
    requires Writing(s.threads[t]) && !s.threads[t].WCopy?
    ensures WriteStep(c, s, s', t, e)
  {
    hide Cursors;
    e := Quiet;
    match s.threads[t]
    case WStart(items, n, mode, single) =>
      s' := Set(s, t, WRead(items, n, mode, single, s.whead, s.wh));
    case WRead(items, n, mode, single, at, pos) =>
      var free := Minus(c, c.cap + s.rtail, at);
      var m := Amount(mode, n, free, at % c.cap, c.cap);
      s' := Set(s, t, if m > free || m == 0 then Idle else WTry(items, m, mode, single, at, pos));
    case WTry(items, n, mode, single, at, pos) =>
      s' := if single || s.whead == at then
              Set(s.(whead := Plus(c, at, n), wh := s.wh + n), t, WCopy(items, n, single, at, s.wh, 0))
            else Set(s, t, WStart(items, n, mode, single));
    case WPublish(items, n, single, at, pos) =>
      e := Enqueue(items[..n]);
      s' := Set(s.(wtail := Plus(c, at, n), wt := s.wt + n, log := s.log + items[..n]), t, Idle);
  }

  lemma NextPut<T>(c: Config, s: State<T>, t: nat) returns (s': State<T>, e: Event<T>)
    requires GoodConfig(c) && Cursors(c, s) && t in s.threads && Knows(c, s, s.threads[t])
    requires s.threads[t].WCopy? && !Waits(s, s.threads[t])
    ensures WriteStep(c, s, s', t, e)
  {
    var WCopy(items, n, single, at, pos, done) := s.threads[t];
    e := Quiet;
    if done < n {
      PieceInside(c.cap, at % c.cap, n, done);
      s' := Set(s.(data := s.data[PieceIndex(c.cap, at % c.cap, n, done) := items[done]]), t,
                WCopy(items, n, single, at, pos, done + 1));
    } else {
      s' := Set(s, t, WPublish(items, n, single, at, pos));
    }
  }

  lemma NextRead<T>(c: Config, s: State<T>, t: nat) returns (s': State<T>, e: Event<T>)
    requires GoodConfig(c) && Cursors(c, s) && t in s.threads && Knows(c, s, s.threads[t])
    requires Reading(s.threads[t]) && !s.threads[t].RCopy?
    ensures ReadStep(c, s, s', t, e)
  {
    hide Cursors, Queue;
    e := Quiet;
    match s.threads[t]
    case RStart(n, mode, single) =>
      s' := Set(s, t, RRead(n, mode, single, s.rhead, s.rh));
    case RRead(n, mode, single, at, pos) =>
      var used := Minus(c, s.wtail, at);
      var m := Amount(mode, n, used, at % c.cap, c.cap);
      s' := Set(s, t, if m > used || m == 0 then Idle else RTry(m, mode, single, at, pos));
    case RTry(n, mode, single, at, pos) =>
      if single || s.rhead == at {
        s' := Set(s.(rhead := Plus(c, at, n), rh := s.rh + n), t, RCopy(n, single, at, s.rh, []));
        e := Dequeue(Queue(s)[..MinOf(n, |Queue(s)|)]);
      } else {
        s' := Set(s, t, RStart(n, mode, single));
      }
    case RRelease(n, single, at, pos, got) =>
      s' := Set(s.(rtail := Plus(c, at, n), rt := s.rt + n), t, Idle);
  }

  lemma NextGet<T>(c: Config, s: State<T>, t: nat) returns (s': State<T>, e: Event<T>)
    requires GoodConfig(c) && Cursors(c, s) && t in s.threads && Knows(c, s, s.threads[t])
    requires s.threads[t].RCopy? && !Waits(s, s.threads[t])
    ensures ReadStep(c, s, s', t, e)
  {
    var RCopy(n, single, at, pos, got) := s.threads[t];
    e := Quiet;
    if |got| < n {
      PieceInside(c.cap, at % c.cap, n, |got|);
      s' := Set(s, t, RCopy(n, single, at, pos, got + [s.data[PieceIndex(c.cap, at % c.cap, n, |got|)]]));
    } else {
      s' := Set(s, t, RRelease(n, single, at, pos, got));
    }
  }

  lemma PieceInside(cap: nat, i: nat, n: nat, k: nat)
    requires i < cap && k < n <= cap
    ensures PieceIndex(cap, i, n, k) < cap
  {}

  /** No deadlock: while any operation is under way, some thread in it can step. */
  lemma SomeoneMoves<T(!new)>(c: Config, s: State<T>, t: nat) returns (u: nat, s': State<T>, e: Event<T>)
    requires Inv(c, s) && t in s.threads && !s.threads[t].Idle?
    ensures u in s.threads && !s.threads[u].Idle? && Step(c, s, s', u, e)
  {
    u := t;
    if Waits(s, s.threads[t]) {
      u := WaitsForOther(c, s, t);
    }
    hide Inv, Step, Waits;
    s', e := CanMove(c, s, u);
  }

  // ---------- progress ----------

  /** A compare-and-swap fails only if the head has moved since it was read. */
  lemma TryFails<T>(c: Config, s: State<T>, t: nat)
    requires Inv(c, s) && t in s.threads
    ensures var th := s.threads[t];
      && (th.WTry? && !th.single && s.whead != th.at ==> th.pos < s.wh)
      && (th.RTry? && !th.single && s.rhead != th.at ==> th.pos < s.rh)
  {
    ThreadKnows(c, s, t);
  }

  /** About to read the head. */
  ghost predicate Starting<T>(s: State<T>, t: nat, writes: bool) {
    t in s.threads && if writes then s.threads[t].WStart? else s.threads[t].RStart?
  }

  /** On its way from there to its compare-and-swap. */
  ghost predicate Trying<T>(s: State<T>, t: nat, writes: bool) {
    && t in s.threads
    && if writes then s.threads[t].WRead? || s.threads[t].WTry? else s.threads[t].RRead? || s.threads[t].RTry?
  }

  ghost predicate TryingUntil<T>(ss: seq<State<T>>, t: nat, i: nat, j: nat, writes: bool)
    requires j < |ss|
  {
    forall k :: i < k <= j ==> Trying(ss[k], t, writes)
  }

  /** The thread's compare-and-swap is next, and will fail. */
  ghost predicate Fails<T>(s: State<T>, t: nat, writes: bool) {
    && t in s.threads
    && var th := s.threads[t];
    if writes then th.WTry? && !th.single && s.whead != th.at else th.RTry? && !th.single && s.rhead != th.at
  }

  ghost function HeadOf<T>(s: State<T>, writes: bool): nat { if writes then s.wh else s.rh }

  /** The step reserves a region. */
  ghost predicate Reserves<T>(s: State<T>, s': State<T>, u: nat, writes: bool) {
    && u in s.threads && (if writes then s.threads[u].WTry? else s.threads[u].RTry?)
    && u in s'.threads && (if writes then s'.threads[u].WCopy? else s'.threads[u].RCopy?)
  }

  /** A head moves only in a step that reserves. */
  lemma MovesHead<T(!new)>(c: Config, s: State<T>, s': State<T>, u: nat, e: Event<T>, writes: bool)
    requires GoodConfig(c) && Step(c, s, s', u, e)
    ensures HeadOf(s', writes) == HeadOf(s, writes) || Reserves(s, s', u, writes)
  {
    hide Queue;
  }

  lemma {:induction false} HeadMoved<T(!new)>(c: Config, ss: seq<State<T>>, ts: seq<nat>, es: seq<Event<T>>,
                                              i: nat, j: nat, writes: bool)
    returns (k: nat)
    requires Run(c, ss, ts, es) && i <= j < |ss| && HeadOf(ss[i], writes) != HeadOf(ss[j], writes)
    ensures i <= k < j && k < |ts| && Reserves(ss[k], ss[k + 1], ts[k], writes)
    decreases j
  {
    hide *;
    RunStart(c, ss, ts, es);
    if i == j {
      k := i;
    } else {
      RunAt(c, ss, ts, es, j - 1);
      GoodRun(c, ss, ts, es);
      MovesHead(c, ss[j - 1], ss[j], ts[j - 1], es[j - 1], writes);
      if HeadOf(ss[i], writes) != HeadOf(ss[j - 1], writes) {
        k := HeadMoved(c, ss, ts, es, i, j - 1, writes);
      } else {
        k := j - 1;
      }
    }
  }

  /** What the thread has read of the head stays what it was. */
  lemma KeepsTrying<T(!new)>(c: Config, s: State<T>, s': State<T>, u: nat, e: Event<T>, t: nat, writes: bool)
    requires GoodConfig(c) && Step(c, s, s', u, e) && Trying(s', t, writes)
    requires Trying(s, t, writes) || (Starting(s, t, writes) && u == t)
    ensures s'.threads[t].pos == if Trying(s, t, writes) then s.threads[t].pos else HeadOf(s, writes)
    ensures Trying(s, t, writes) && u == t ==> !Reserves(s, s', u, writes)
  {
    hide Queue;
    if u != t {
      Elsewhere(c, s, s', u, e, t);
    }
  }

  lemma {:induction false} HeadKept<T(!new)>(c: Config, ss: seq<State<T>>, ts: seq<nat>, es: seq<Event<T>>,
                                             t: nat, i: nat, j: nat, writes: bool)
    requires Run(c, ss, ts, es) && i < j < |ss| && i < |ts| && ts[i] == t
    requires Starting(ss[i], t, writes) && TryingUntil(ss, t, i, j, writes)
    ensures Trying(ss[j], t, writes) && ss[j].threads[t].pos == HeadOf(ss[i], writes)
    decreases j
  {
    hide *;
    RunStart(c, ss, ts, es);
    RunAt(c, ss, ts, es, j - 1);
    GoodRun(c, ss, ts, es);
    TryingAt(ss, t, i, j, writes, j);
    if j == i + 1 {
      NotYet(ss[i], t, writes);
    } else {
      TryingAt(ss, t, i, j, writes, j - 1);
      HeadKept(c, ss, ts, es, t, i, j - 1, writes);
    }
    KeepsTrying(c, ss[j - 1], ss[j], ts[j - 1], es[j - 1], t, writes);
  }

  lemma TryingAt<T>(ss: seq<State<T>>, t: nat, i: nat, j: nat, writes: bool, k: nat)
    requires i < k <= j < |ss| && TryingUntil(ss, t, i, j, writes)
    ensures Trying(ss[k], t, writes) && t in ss[k].threads && (k > i + 1 ==> TryingUntil(ss, t, i, k - 1, writes))
    ensures TryingUntil(ss, t, i, j - 1, writes)
  {}

  lemma NotYet<T>(s: State<T>, t: nat, writes: bool)
    requires Starting(s, t, writes)
    ensures !Trying(s, t, writes) && forall s': State<T> :: !Reserves(s, s', t, writes)
  {}

  /** Failing costs nobody the time of all: between the step i in which a thread reads the
      head and its failed compare-and-swap, another thread has made a reservation. */
  lemma FailureMeansProgress<T(!new)>(c: Config, ss: seq<State<T>>, ts: seq<nat>, es: seq<Event<T>>,
                                      t: nat, i: nat, j: nat, writes: bool)
    returns (k: nat)
    requires Run(c, ss, ts, es) && i < j < |ss| && i < |ts| && ts[i] == t
    requires Starting(ss[i], t, writes) && TryingUntil(ss, t, i, j, writes) && Fails(ss[j], t, writes)
    ensures i < k < j && k < |ts| && ts[k] != t && Reserves(ss[k], ss[k + 1], ts[k], writes)
  {
    hide *;
    RunStart(c, ss, ts, es);
    RunKeeps(c, ss, ts, es, j);
    HeadKept(c, ss, ts, es, t, i, j, writes);
    HeadLeft(c, ss[j], t, writes);
    k := HeadMoved(c, ss, ts, es, i, j, writes);
    RunAt(c, ss, ts, es, k);
    GoodRun(c, ss, ts, es);
    NotYet(ss[i], t, writes);
    if k > i {
      TryingAt(ss, t, i, j, writes, k);
      TryingAt(ss, t, i, j, writes, k + 1);
      KeepsTrying(c, ss[k], ss[k + 1], ts[k], es[k], t, writes);
    }
  }

  lemma HeadLeft<T>(c: Config, s: State<T>, t: nat, writes: bool)
    requires Inv(c, s) && Fails(s, t, writes)
    ensures t in s.threads && Trying(s, t, writes) && s.threads[t].pos < HeadOf(s, writes)
  {
    TryFails(c, s, t);
  }

  // ---------- operations nobody disturbs ----------

  /** States in which a run ends. */
  ghost predicate Reached<T(!new)>(c: Config, s: State<T>) {
    exists ss, ts, es :: Run(c, ss, ts, es) && ss[|ss| - 1] == s
  }

  lemma ReachedInv<T(!new)>(c: Config, s: State<T>)
    requires Reached(c, s)
    ensures Inv(c, s)
  {
    var ss, ts, es :| Run(c, ss, ts, es) && ss[|ss| - 1] == s;
    RunKeeps(c, ss, ts, es, |ss| - 1);
  }

  lemma ReachedInit<T(!new)>(c: Config, s: State<T>)
    requires GoodConfig(c) && Init(c, s)
    ensures Reached(c, s)
  {
    assert Run(c, [s], [], []);
  }

  lemma ReachedNext<T(!new)>(c: Config, s: State<T>, s': State<T>, t: nat, e: Event<T>)
    requires Reached(c, s) && GoodConfig(c) && NoReuse(c, s, t) && Step(c, s, s', t, e)
    ensures Reached(c, s')
  {
    hide Step, NoReuse, Init;
    var ss, ts, es :| Run(c, ss, ts, es) && ss[|ss| - 1] == s;
    var ss', ts', es' := ss + [s'], ts + [t], es + [e];
    forall i | 0 <= i < |ts'| ensures NoReuse(c, ss'[i], ts'[i]) && Step(c, ss'[i], ss'[i + 1], ts'[i], es'[i]) {
      if i < |ts| { assert ss'[i] == ss[i] && ss'[i + 1] == ss[i + 1]; }
    }
    assert Run(c, ss', ts', es');
  }

  /** What a thread's own step does when it only moves the thread on. */
  ghost predicate OnlyThread<T>(s: State<T>, s': State<T>, t: nat, th: Thread<T>) {
    && s'.threads == s.threads[t := th] && s'.log == s.log
    && s'.wh == s.wh && s'.wt == s.wt && s'.rh == s.rh && s'.rt == s.rt
  }

  lemma ReachedLocal<T(!new)>(c: Config, s: State<T>, t: nat, th: Thread<T>)
    requires Reached(c, s) && GoodConfig(c) && t in s.threads && !s.threads[t].WTry? && !s.threads[t].RTry?
    requires WriteStep(c, s, Set(s, t, th), t, Quiet) || ReadStep(c, s, Set(s, t, th), t, Quiet)
    ensures Reached(c, Set(s, t, th)) && OnlyThread(s, Set(s, t, th), t, th)
  {
    hide WriteStep, ReadStep, Reached;
    ReachedNext(c, s, Set(s, t, th), t, Quiet);
  }

  lemma WriteStarts<T(!new)>(c: Config, s: State<T>, t: nat, items: seq<T>, n: nat, mode: Mode)
    returns (s': State<T>)
    requires Reached(c, s) && GoodConfig(c) && (t in s.threads ==> s.threads[t].Idle?)
    requires n <= |items| && (mode.Exact? || mode.Max1?)
    requires forall u :: u in s.threads && Writing(s.threads[u]) ==> !s.threads[u].single
    ensures Reached(c, s') && OnlyThread(s, s', t, WRead(items, n, mode, false, s.whead, s.wh))
    ensures s'.whead == s.whead && s'.rtail == s.rtail
  {
    hide Reached;
    var th := WStart(items, n, mode, false);
    var s1 := Set(s, t, th);
    assert Begin(s, s1, t, th);
    ReachedNext(c, s, s1, t, Quiet);
    ReachedLocal(c, s1, t, WRead(items, n, mode, false, s.whead, s.wh));
    s' := Set(s1, t, WRead(items, n, mode, false, s.whead, s.wh));
  }

  /** What is asked for can be had of `avail`. */
  ghost predicate Sufficient(mode: Mode, n: nat, avail: nat) {
    if mode.Exact? then 1 <= n <= avail else if mode.Min? then n <= avail && 0 < avail else 0 < n && 0 < avail
  }

  lemma SufficientAmount(mode: Mode, n: nat, avail: nat, i: nat, cap: nat)
    requires Sufficient(mode, n, avail) && i < cap
    ensures 0 < Amount(mode, n, avail, i, cap) <= avail
    ensures Granted(mode, n, avail, i, cap, Amount(mode, n, avail, i, cap))
  {
    AmountGranted(mode, n, avail, i, cap);
  }

  lemma WReadOn<T>(c: Config, s: State<T>, t: nat, m: nat)
    requires GoodConfig(c) && t in s.threads && s.threads[t].WRead? && s.threads[t].at < c.modulus
    requires var th, free := s.threads[t], Minus(c, c.cap + s.rtail, s.threads[t].at);
      m == Amount(th.mode, th.n, free, th.at % c.cap, c.cap) && 0 < m <= free
    ensures var th := s.threads[t];
      WriteStep(c, s, Set(s, t, WTry(th.items, m, th.mode, th.single, th.at, th.pos)), t, Quiet)
  {
    hide Minus, Amount;
  }

  lemma RReadOn<T>(c: Config, s: State<T>, t: nat, m: nat)
    requires GoodConfig(c) && t in s.threads && s.threads[t].RRead? && s.threads[t].at < c.modulus
    requires var th, used := s.threads[t], Minus(c, s.wtail, s.threads[t].at);
      m == Amount(th.mode, th.n, used, th.at % c.cap, c.cap) && 0 < m <= used
    ensures var th := s.threads[t];
      ReadStep(c, s, Set(s, t, RTry(m, th.mode, th.single, th.at, th.pos)), t, Quiet)
  {
    hide Minus, Amount;
  }

  /** A write that begins undisturbed and has room goes on to its reservation. */
  lemma WriteBegun<T(!new)>(c: Config, s: State<T>, t: nat, items: seq<T>, n: nat, mode: Mode)
    returns (s': State<T>, m: nat)
    requires Reached(c, s) && (t in s.threads ==> s.threads[t].Idle?)
    requires n <= |items| && (mode.Exact? || mode.Max1?)
    requires s.wh <= s.rt + c.cap && Sufficient(mode, n, s.rt + c.cap - s.wh)
    requires forall u :: u in s.threads && Writing(s.threads[u]) ==> !s.threads[u].single
    ensures GoodConfig(c) && Granted(mode, n, s.rt + c.cap - s.wh, s.wh % c.cap, c.cap, m)
    ensures Reached(c, s') && s'.whead == s.whead
    ensures OnlyThread(s, s', t, WTry(items, m, mode, false, s.whead, s.wh))
  {
    hide Reached, Inv, Amount, Sufficient, WriteStep, ReadStep, Minus, Granted, Cursors;
    ReachedInv(c, s);
    Bounds(c, s);
    var s1 := WriteStarts(c, s, t, items, n, mode);
    ReachedInv(c, s1);
    FreeSpace(c, s1, t);
    MaskMod(c, s.wh);
    Wrapped(c, s);
    var free := s.rt + c.cap - s.wh;
    SufficientAmount(mode, n, free, s.wh % c.cap, c.cap);
    m := Amount(mode, n, free, s.wh % c.cap, c.cap);
    WReadOn(c, s1, t, m);
    ReachedLocal(c, s1, t, WTry(items, m, mode, false, s.whead, s.wh));
    s' := Set(s1, t, WTry(items, m, mode, false, s.whead, s.wh));
  }

  /** It makes its reservation, as the head is still the one read. */
  lemma WriteReserves<T(!new)>(c: Config, s: State<T>, t: nat, items: seq<T>, m: nat, mode: Mode)
    returns (s': State<T>)
    requires Reached(c, s) && GoodConfig(c) && t in s.threads
    requires s.threads[t] == WTry(items, m, mode, false, s.whead, s.wh)
    ensures Reached(c, s') && s'.threads == s.threads[t := WCopy(items, m, false, s.whead, s.wh, 0)]
    ensures s'.wh == s.wh + m && s'.wt == s.wt && s'.rh == s.rh && s'.rt == s.rt && s'.log == s.log
    ensures s'.wtail == s.wtail
  {
    hide Reached;
    s' := Set(s.(whead := Plus(c, s.whead, m), wh := s.wh + m), t, WCopy(items, m, false, s.whead, s.wh, 0));
    assert WriteStep(c, s, s', t, Quiet);
    hide WriteStep;
    ReachedNext(c, s, s', t, Quiet);
  }

  /** It copies what it has not copied yet. */
  lemma {:induction false} WriteCopies<T(!new)>(c: Config, s: State<T>, t: nat) returns (s': State<T>)
    requires Reached(c, s) && t in s.threads && s.threads[t].WCopy?
    ensures Reached(c, s') && s'.wtail == s.wtail
    ensures OnlyThread(s, s', t, s.threads[t].(done := s.threads[t].n))
    decreases s.threads[t].n - s.threads[t].done
  {
    hide Reached, Inv, WriteStep, Knows;
    ReachedInv(c, s);
    ThreadKnows(c, s, t);
    CopyProgress(c, s, t);
    if s.threads[t].done == s.threads[t].n {
      s' := s;
    } else {
      var s1, e := NextPut(c, s, t);
      PutOwn(c, s, s1, t, e);
      PutQuiet(c, s, s1, t, e);
      ReachedNext(c, s, s1, t, e);
      s' := WriteCopies(c, s1, t);
    }
  }

  lemma CopyProgress<T>(c: Config, s: State<T>, t: nat)
    requires Inv(c, s) && t in s.threads && s.threads[t].WCopy?
    ensures GoodConfig(c) && Cursors(c, s) && s.threads[t].done <= s.threads[t].n
    ensures s.threads[t].done < s.threads[t].n ==> !Waits(s, s.threads[t])
    ensures NoReuse(c, s, t)
  {
    ThreadKnows(c, s, t);
  }

  lemma PutQuiet<T(!new)>(c: Config, s: State<T>, s': State<T>, t: nat, e: Event<T>)
    requires GoodConfig(c) && t in s.threads && s.threads[t].WCopy? && WriteStep(c, s, s', t, e)
    requires s.threads[t].done < s.threads[t].n
    ensures e == Quiet && s'.wtail == s.wtail && Step(c, s, s', t, e)
  {}

  /** With nothing reserved before it, it is its turn, and it publishes. */
  lemma WritePublishes<T(!new)>(c: Config, s: State<T>, t: nat, items: seq<T>, m: nat, at: nat, pos: nat)
    returns (s': State<T>)
    requires Reached(c, s) && GoodConfig(c) && t in s.threads && s.wtail == at
    requires s.threads[t] == WCopy(items, m, false, at, pos, m) && m <= |items| && m <= c.cap == |s.data|
    ensures Reached(c, s') && s'.threads == s.threads[t := Idle] && s'.log == s.log + items[..m]
    ensures s'.wh == s.wh && s'.wt == s.wt + m && s'.rh == s.rh && s'.rt == s.rt
  {
    hide Reached;
    assert WriteStep(c, s, Set(s, t, WPublish(items, m, false, at, pos)), t, Quiet);
    ReachedLocal(c, s, t, WPublish(items, m, false, at, pos));
    var s1 := Set(s, t, WPublish(items, m, false, at, pos));
    s' := Set(s1.(wtail := Plus(c, at, m), wt := s1.wt + m, log := s1.log + items[..m]), t, Idle);
    assert WriteStep(c, s1, s', t, Enqueue(items[..m]));
    hide WriteStep;
    ReachedNext(c, s1, s', t, Enqueue(items[..m]));
  }

  /** A write that nobody disturbs, with nothing else reserved and room for it, succeeds: it
      publishes the first of its items, as many as are granted of the free space. */
  lemma UndisturbedWrite<T(!new)>(c: Config, s: State<T>, t: nat, items: seq<T>, n: nat, mode: Mode)
    returns (s': State<T>, m: nat)
    requires Reached(c, s) && (t in s.threads ==> s.threads[t].Idle?)
    requires n <= |items| && (mode.Exact? || mode.Max1?)
    requires s.wt == s.wh <= s.rt + c.cap && Sufficient(mode, n, s.rt + c.cap - s.wh)
    requires forall u :: u in s.threads && Writing(s.threads[u]) ==> !s.threads[u].single
    ensures GoodConfig(c) && Granted(mode, n, s.rt + c.cap - s.wh, s.wh % c.cap, c.cap, m) && m <= n
    ensures Reached(c, s') && s'.threads == s.threads[t := Idle] && s'.log == s.log + items[..m]
    ensures s'.wh == s'.wt == s.wh + m && s'.rh == s.rh && s'.rt == s.rt
  {
    hide Reached, Inv, Sufficient;
    ReachedInv(c, s);
    Wrapped(c, s);
    var s1;
    s1, m := WriteBegun(c, s, t, items, n, mode);
    ReachedInv(c, s1);
    Wrapped(c, s1);
    var s2 := WriteReserves(c, s1, t, items, m, mode);
    var s3 := WriteCopies(c, s2, t);
    ReachedInv(c, s3);
    Wrapped(c, s3);
    s' := WritePublishes(c, s3, t, items, m, s.whead, s.wh);
  }

  lemma Wrapped<T>(c: Config, s: State<T>)
    requires Inv(c, s)
    ensures GoodConfig(c) && |s.data| == c.cap && s.rt <= s.rh <= s.wt <= s.wh <= s.rt + c.cap
    ensures s.whead == s.wh % c.modulus && s.wtail == s.wt % c.modulus
    ensures s.rhead == s.rh % c.modulus && s.rtail == s.rt % c.modulus
  {}

  lemma ReadStarts<T(!new)>(c: Config, s: State<T>, t: nat, n: nat, mode: Mode) returns (s': State<T>)
    requires Reached(c, s) && GoodConfig(c) && (t in s.threads ==> s.threads[t].Idle?)
    requires forall u :: u in s.threads && Reading(s.threads[u]) ==> !s.threads[u].single
    ensures Reached(c, s') && OnlyThread(s, s', t, RRead(n, mode, false, s.rhead, s.rh))
    ensures s'.rhead == s.rhead && s'.wtail == s.wtail
  {
    hide Reached;
    var th := RStart(n, mode, false);
    var s1 := Set(s, t, th);
    assert Begin(s, s1, t, th);
    ReachedNext(c, s, s1, t, Quiet);
    ReachedLocal(c, s1, t, RRead(n, mode, false, s.rhead, s.rh));
    s' := Set(s1, t, RRead(n, mode, false, s.rhead, s.rh));
  }

  lemma ReadBegun<T(!new)>(c: Config, s: State<T>, t: nat, n: nat, mode: Mode) returns (s': State<T>, m: nat)
    requires Reached(c, s) && (t in s.threads ==> s.threads[t].Idle?)
    requires s.rh <= s.wt && Sufficient(mode, n, s.wt - s.rh)
    requires forall u :: u in s.threads && Reading(s.threads[u]) ==> !s.threads[u].single
    ensures GoodConfig(c) && Granted(mode, n, s.wt - s.rh, s.rh % c.cap, c.cap, m)
    ensures Reached(c, s') && OnlyThread(s, s', t, RTry(m, mode, false, s.rhead, s.rh)) && s'.rhead == s.rhead
  {
    hide Reached, Inv, Amount, Sufficient, WriteStep, ReadStep, Minus, Granted, Cursors;
    ReachedInv(c, s);
    Bounds(c, s);
    var s1 := ReadStarts(c, s, t, n, mode);
    ReachedInv(c, s1);
    UsedSpace(c, s1, t);
    MaskMod(c, s.rh);
    Wrapped(c, s);
    SufficientAmount(mode, n, s.wt - s.rh, s.rh % c.cap, c.cap);
    m := Amount(mode, n, s.wt - s.rh, s.rh % c.cap, c.cap);
    RReadOn(c, s1, t, m);
    ReachedLocal(c, s1, t, RTry(m, mode, false, s.rhead, s.rh));
    s' := Set(s1, t, RTry(m, mode, false, s.rhead, s.rh));
  }

  lemma ReadReserves<T(!new)>(c: Config, s: State<T>, t: nat, m: nat, mode: Mode) returns (s': State<T>)
    requires Reached(c, s) && GoodConfig(c) && t in s.threads
    requires s.threads[t] == RTry(m, mode, false, s.rhead, s.rh)
    ensures Reached(c, s') && s'.threads == s.threads[t := RCopy(m, false, s.rhead, s.rh, [])]
    ensures s'.rh == s.rh + m && s'.rt == s.rt && s'.wh == s.wh && s'.wt == s.wt && s'.log == s.log
    ensures s'.rtail == s.rtail
  {
    hide Reached, Queue;
    s' := Set(s.(rhead := Plus(c, s.rhead, m), rh := s.rh + m), t, RCopy(m, false, s.rhead, s.rh, []));
    var e := Dequeue(Queue(s)[..MinOf(m, |Queue(s)|)]);
    assert ReadStep(c, s, s', t, e);
    hide ReadStep;
    ReachedNext(c, s, s', t, e);
  }

  ghost function WithGot<T>(th: Thread<T>, got: seq<T>): Thread<T>
    requires th.RCopy?
  { RCopy(th.n, th.single, th.at, th.pos, got) }

  lemma {:induction false} ReadCopies<T(!new)>(c: Config, s: State<T>, t: nat) returns (s': State<T>, got: seq<T>)
    requires Reached(c, s) && t in s.threads && s.threads[t].RCopy?
    ensures Reached(c, s') && s'.rtail == s.rtail && |got| == s.threads[t].n
    ensures OnlyThread(s, s', t, WithGot(s.threads[t], got))
    decreases s.threads[t].n - |s.threads[t].got|
  {
    hide Reached, Inv, ReadStep, Knows;
    ReachedInv(c, s);
    ThreadKnows(c, s, t);
    TakeProgress(c, s, t);
    if |s.threads[t].got| == s.threads[t].n {
      s', got := s, s.threads[t].got;
    } else {
      var s1, e := NextGet(c, s, t);
      var x := GetQuiet(c, s, s1, t, e);
      ReachedNext(c, s, s1, t, e);
      s', got := ReadCopies(c, s1, t);
    }
  }

  lemma TakeProgress<T>(c: Config, s: State<T>, t: nat)
    requires Inv(c, s) && t in s.threads && s.threads[t].RCopy?
    ensures GoodConfig(c) && Cursors(c, s) && |s.threads[t].got| <= s.threads[t].n
    ensures |s.threads[t].got| < s.threads[t].n ==> !Waits(s, s.threads[t])
    ensures NoReuse(c, s, t)
  {
    ThreadKnows(c, s, t);
  }

  lemma GetQuiet<T(!new)>(c: Config, s: State<T>, s': State<T>, t: nat, e: Event<T>) returns (x: T)
    requires GoodConfig(c) && t in s.threads && s.threads[t].RCopy? && ReadStep(c, s, s', t, e)
    requires |s.threads[t].got| < s.threads[t].n
    ensures e == Quiet && s'.rtail == s.rtail && Step(c, s, s', t, e)
    ensures OnlyThread(s, s', t, WithGot(s.threads[t], s.threads[t].got + [x]))
  {
    var th := s.threads[t];
    PieceInside(c.cap, th.at % c.cap, th.n, |th.got|);
    x := s.data[PieceIndex(c.cap, th.at % c.cap, th.n, |th.got|)];
  }

  lemma ReadReleases<T(!new)>(c: Config, s: State<T>, t: nat, n: nat, at: nat, pos: nat, got: seq<T>)
    returns (s': State<T>)
    requires Reached(c, s) && GoodConfig(c) && t in s.threads && s.rtail == at
    requires s.threads[t] == RCopy(n, false, at, pos, got) && |got| == n <= c.cap == |s.data|
    ensures Reached(c, s') && s'.threads == s.threads[t := Idle] && s'.log == s.log
    ensures s'.rh == s.rh && s'.rt == s.rt + n && s'.wh == s.wh && s'.wt == s.wt
  {
    hide Reached;
    assert ReadStep(c, s, Set(s, t, RRelease(n, false, at, pos, got)), t, Quiet);
    ReachedLocal(c, s, t, RRelease(n, false, at, pos, got));
    var s1 := Set(s, t, RRelease(n, false, at, pos, got));
    s' := Set(s1.(rtail := Plus(c, at, n), rt := s1.rt + n), t, Idle);
    assert ReadStep(c, s1, s', t, Quiet);
    hide ReadStep;
    ReachedNext(c, s1, s', t, Quiet);
  }

  /** A read that nobody disturbs, of elements that are there, succeeds: it takes as many of
      them as are granted. */
  lemma UndisturbedRead<T(!new)>(c: Config, s: State<T>, t: nat, n: nat, mode: Mode) returns (s': State<T>, m: nat)
    requires Reached(c, s) && (t in s.threads ==> s.threads[t].Idle?)
    requires s.rt == s.rh <= s.wt && Sufficient(mode, n, s.wt - s.rh)
    requires forall u :: u in s.threads && Reading(s.threads[u]) ==> !s.threads[u].single
    ensures GoodConfig(c) && Granted(mode, n, s.wt - s.rh, s.rh % c.cap, c.cap, m)
    ensures Reached(c, s') && s'.threads == s.threads[t := Idle] && s'.log == s.log
    ensures s'.rh == s'.rt == s.rh + m && s'.wh == s.wh && s'.wt == s.wt
  {
    hide Reached, Inv, Sufficient;
    ReachedInv(c, s);
    Wrapped(c, s);
    var s1;
    s1, m := ReadBegun(c, s, t, n, mode);
    ReachedInv(c, s1);
    Wrapped(c, s1);
    var s2 := ReadReserves(c, s1, t, m, mode);
    var s3, got := ReadCopies(c, s2, t);
    ReachedInv(c, s3);
    Wrapped(c, s3);
    s' := ReadReleases(c, s3, t, m, s.rhead, s.rh, got);
  }

  // ---------- why cursor values must not be reused too soon ----------

  /** A writer of one element that has read the head of the empty ring and found room. */
  ghost function Sleeper<T>(x: T): Thread<T> { WTry([x], 1, Exact, false, 0, 0) }

  /** While it sleeps, another thread fills and empties the ring k times. */
  ghost predicate After<T>(c: Config, s: State<T>, x: T, k: nat) {
    && s.wh == s.wt == s.rh == s.rt == k * c.cap
    && 0 in s.threads && s.threads[0] == Sleeper(x) && (1 in s.threads ==> s.threads[1].Idle?)
    && s.threads.Keys <= {0, 1}
  }

  lemma Asleep<T(!new)>(c: Config, x: T) returns (s: State<T>)
    requires GoodConfig(c)
    ensures Reached(c, s) && After(c, s, x, 0)
  {
    hide Reached;
    var s0: State<T> := State(0, 0, 0, 0, seq(c.cap, _ => x), 0, 0, 0, 0, [], map[]);
    ReachedInit(c, s0);
    var m;
    s, m := WriteBegun(c, s0, 0, [x], 1, Exact);
  }

  lemma FilledWhileAsleep<T(!new)>(c: Config, s: State<T>, x: T, k: nat) returns (s': State<T>)
    requires Reached(c, s) && GoodConfig(c) && After(c, s, x, k)
    ensures Reached(c, s') && s'.wh == s'.wt == k * c.cap + c.cap && s'.rh == s'.rt == k * c.cap
    ensures s'.threads == s.threads[1 := Idle]
  {
    hide Reached;
    var m;
    s', m := UndisturbedWrite(c, s, 1, seq(c.cap, _ => x), c.cap, Exact);
  }

  lemma {:induction false} Rounds<T(!new)>(c: Config, x: T, k: nat) returns (s: State<T>)
    requires GoodConfig(c)
    ensures Reached(c, s) && After(c, s, x, k)
  {
    hide Reached;
    if k == 0 {
      s := Asleep(c, x);
    } else {
      var s0 := Rounds(c, x, k - 1);
      var s1 := FilledWhileAsleep(c, s0, x, k - 1);
      assert k * c.cap == (k - 1) * c.cap + c.cap;
      var m;
      s, m := UndisturbedRead(c, s1, 1, c.cap, Exact);
    }
  }

  lemma LastRound(c: Config) returns (k: nat)
    requires GoodConfig(c)
    ensures k * c.cap + c.cap == c.modulus && c.modulus % c.modulus == 0
  {
    k := c.modulus / c.cap - 1;
    Quotient(c.cap, c.modulus);
    assert (k + 1) * c.cap == k * c.cap + c.cap;
    Remainder(c.modulus, c.modulus, 1, 0);
  }

  /** The head has gone once around when the ring is full after the last round. */
  lemma OnceAround<T(!new)>(c: Config, x: T) returns (s: State<T>)
    requires GoodConfig(c)
    ensures Reached(c, s) && s.wh == s.rt + c.cap == c.modulus && s.whead == 0
    ensures 0 in s.threads && s.threads[0] == Sleeper(x)
  {
    hide Reached, Inv;
    var k := LastRound(c);
    var s0 := Rounds(c, x, k);
    s := FilledWhileAsleep(c, s0, x, k);
    ReachedInv(c, s);
    Wrapped(c, s);
  }

  /** In every configuration the assumption is needed: a run keeps it up to a state in
      which a writer that slept while the head went once around passes its
      compare-and-swap on a full ring, so that more than `cap` elements are claimed. */
  lemma ReuseBreaks<T(!new)>(c: Config, x: T) returns (s: State<T>, s': State<T>)
    requires GoodConfig(c)
    ensures Reached(c, s) && !NoReuse(c, s, 0) && s.wh == s.rt + c.cap
    ensures Step(c, s, s', 0, Quiet) && s'.wh == s'.rt + c.cap + 1
  {
    hide Reached;
    s := OnceAround(c, x);
    s' := Set(s.(whead := Plus(c, 0, 1), wh := s.wh + 1), 0, WCopy([x], 1, false, 0, s.wh, 0));
    assert WriteStep(c, s, s', 0, Quiet);
  }
}
