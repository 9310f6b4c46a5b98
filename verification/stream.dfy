/** The data stream of ffbase/stream.h: it hands out contiguous data and copies only
    where a request spans two inputs.

    `Contents` is what is accepted and not yet consumed.  It lies either in the caller's
    last input (`view`), or in the buffer from `r & mask` on, in one piece.  `r` and `w`
    are 32-bit counters that wrap around; `cap` and `mask` are 32-bit fields too, so a
    buffer of 2^32 elements or more has the capacity 0 (`TooLarge`).
  */
module Streaming {
  import opened Modulo
  import opened Optional
  import opened Powers
  import opened Words

  /** `x & mask`, where mask + 1 is a power of two. */
  function Masked(x: nat, mask: nat): (i: nat)
    ensures i <= mask
  { x % (mask + 1) }

  /** The fields go together: a buffer of `len` elements, and the counters in it or in the
      view. */
  ghost predicate Fits<T>(len: nat, cap: nat, mask: nat, view: Option<seq<T>>, r: nat, w: nat) {
    && r < WORD && w < WORD && mask < WORD && IsPow2(mask + 1)
    && (if len == 0 then cap == 0 && mask == 0
        else if cap == 0 then len >= WORD && mask == WORD - 1
        else cap == len == mask + 1 <= WORD / 2)
    && if view.Some? then r <= w <= |view.value|
       else Masked(r, mask) + Word(w - r) <= mask + 1 && Masked(r, mask) + Word(w - r) <= len
  }

  /** What is accepted and not yet consumed. */
  ghost function Data<T>(b: seq<T>, cap: nat, mask: nat, view: Option<seq<T>>, r: nat, w: nat): seq<T>
    requires Fits(|b|, cap, mask, view, r, w)
  {
    if view.Some? then view.value[r..w]
    else b[Masked(r, mask)..Masked(r, mask) + Word(w - r)]
  }

  /** `struct ffstream`; the length of `buf` is what was allocated. */
  class Stream<T(0)> {
    var buf: array<T>
    var cap: nat
    var mask: nat
    var view: Option<seq<T>>  // `ptr`
    var r: nat
    var w: nat
    ghost var accepted: seq<T>  // all input taken since the start
    ghost var consumed: nat

    /** `ffstream_used` */
    function Used(): nat
      reads this
    { Word(w - r) }

    /** `r & mask`, as `mask + 1` is a power of two. */
    function Start(): (i: nat)
      reads this
      ensures i <= r && i <= mask
    { Masked(r, mask) }

    /** The capacity did not fit its field. */
    predicate TooLarge()
      reads this
    { cap == 0 && buf.Length > 0 }

    ghost predicate Shape()
      reads this
    { Fits(buf.Length, cap, mask, view, r, w) }

    ghost function Contents(): seq<T>
      reads this, buf
      requires Shape()
    { Data(buf[..], cap, mask, view, r, w) }

    ghost predicate Valid()
      reads this, buf
    { Shape() && consumed <= |accepted| && Contents() == accepted[consumed..] }

    constructor ()
      ensures Valid() && fresh(buf) && accepted == [] && consumed == 0
    {
      buf := new T[0];
      cap, mask, view, r, w, accepted, consumed := 0, 0, None, 0, 0, [], 0;
    }

    /** `ffstream_realloc`: grows the buffer; what is in it moves to its front.  After a
        buffer that was too large for the field, the code takes a new one even for less
        than what is in the old one; `fits` says whether the copy stays inside of it, and
        if it does not, nothing more is said. */
    method Realloc(n: nat) returns (fits: bool)
      requires Valid()
      modifies this
      ensures fits <==> !old(TooLarge()) || old(view).Some? || old(Used()) <= AlignPow2(n)
      ensures fits ==>
        && Valid() && accepted == old(accepted) && consumed == old(consumed) && Contents() == old(Contents())
        && (n <= cap <==> n <= WORD / 2) && n <= buf.Length
        && if AlignPow2(n) <= old(cap) then buf == old(buf) else fresh(buf) && buf.Length == AlignPow2(n)
    {
      hide IsPow2, Masked, Word, Fits, Data, AlignPow2;
      var newcap := AlignPow2(n);
      Truncated(n, newcap);
      CapFits();
      if newcap <= cap {
        return true;
      }
      if view.None? && Used() > newcap {
        return false;
      }
      TakeNew(newcap);
      fits := true;
    }

    /** The new buffer, and the copy of the data to its front unless they are in the view. */
    method TakeNew(newcap: nat)
      requires Valid() && newcap >= 2 && (view.None? ==> Used() <= newcap)
      requires Word(newcap - 1) < WORD && IsPow2(Word(newcap - 1) + 1)
      requires if newcap <= WORD / 2 then Word(newcap) == newcap && Word(newcap - 1) == newcap - 1
               else newcap >= WORD && Word(newcap) == 0 && Word(newcap - 1) == WORD - 1
      modifies this`buf, this`cap, this`mask, this`r, this`w
      ensures Valid() && Contents() == old(Contents()) && fresh(buf) && buf.Length == newcap && cap == Word(newcap)
    {
      hide IsPow2, Masked, Word, Fits, Data;
      var p := new T[newcap];
      ghost var c := Contents();
      CapFits();
      if view.None? {
        InBuffer();
        var used, i := Used(), Start();
        Copy(p, 0, buf[i..i + used]);
        r, w := 0, used;
      } else {
        InView();
      }
      buf, cap, mask := p, Word(newcap), Word(newcap - 1);
      NewBuffer(p[..], cap, mask, view, r, w, c);
    }

    lemma InView()
      requires Shape() && view.Some?
      ensures r <= w <= |view.value| && w < WORD && Contents() == view.value[r..w]
    {}

    lemma CapFits()
      requires Shape()
      ensures cap <= buf.Length && cap <= WORD / 2
      ensures view.None? && cap > 0 ==> Used() <= cap
      ensures buf.Length == 0 && view.None? ==> Used() == 0
      ensures view.None? && Used() > cap ==> TooLarge()
      ensures Used() < WORD && (cap > 0 ==> !TooLarge())
    {}

    /** `ffstream_reset`: drops what is there. */
    method Reset()
      requires Shape()
      modifies this`r, this`w, this`view, this`accepted, this`consumed
      ensures Valid() && Contents() == []
    {
      r, w, view, accepted, consumed := 0, 0, None, [], 0;
    }

    /** `ffstream_view` */
    method View() returns (output: seq<T>)
      requires Valid()
      ensures output == accepted[consumed..]
    {
      output := if view.Some? then view.value[r..r + Used()] else buf[Start()..Start() + Used()];
    }

    /** `ffstream_consume` */
    method Consume(n: nat)
      requires Valid() && n <= Used()
      modifies this`r, this`consumed
      ensures Valid() && consumed == old(consumed) + n
    {
      hide IsPow2, Masked, Word, Fits, Data;
      ConsumedData(buf[..], cap, mask, view, r, w, n);
      assert accepted[consumed + n..] == accepted[consumed..][n..];
      r := Word(r + n);
      consumed := consumed + n;
    }

    /** The copy of a view into the buffer. */
    method Unview()
      requires Valid() && view.Some? && Used() <= buf.Length
      modifies this`view, this`r, this`w, buf
      ensures Valid() && view == None && Contents() == old(Contents()) && Used() == old(Used())
    {
      hide IsPow2, Masked, Word;
      var used := Used();
      ViewSize();
      Copy(buf, 0, view.value[r..r + used]);
      view, r, w := None, 0, used;
      WordIs(w - r);
      assert Start() == 0;
    }

    /** The move of the data to the front of the buffer. */
    method MoveToFront()
      requires Valid() && view.None? && cap > 0
      modifies this`r, this`w, buf
      ensures Valid() && Start() == 0 && Contents() == old(Contents()) && Used() == old(Used())
    {
      hide *;
      Opened();
      var i, used := Start(), Used();
      ghost var was := buf[..];
      Copy(buf, 0, buf[i..i + used]);
      MovedData(was, buf[..], cap, mask, view, r, w, i, used);
      r, w := r - i, Word(w - i);
      Closed();
    }

    /** The fields of a valid stream, and the other way round. */
    lemma Opened()
      requires Valid()
      ensures Fits(buf.Length, cap, mask, view, r, w) && consumed <= |accepted|
      ensures Contents() == Data(buf[..], cap, mask, view, r, w) == accepted[consumed..]
      ensures Start() == Masked(r, mask) && Used() == Word(w - r) && (view.None? ==> Start() + Used() <= buf.Length)
    {}

    lemma Closed()
      requires Fits(buf.Length, cap, mask, view, r, w) && consumed <= |accepted|
      requires Data(buf[..], cap, mask, view, r, w) == accepted[consumed..]
      ensures Valid() && Contents() == accepted[consumed..]
      ensures Start() == Masked(r, mask) && Used() == Word(w - r)
    {}

    /** Takes the first n bytes of the input behind what is in the buffer. */
    method Append(input: seq<T>, n: nat)
      requires Valid() && view.None? && cap > 0 && n <= |input| && Start() + Used() + n <= cap
      requires n > 0 ==> Start() + Used() < cap
      modifies this`w, this`accepted, buf
      ensures Valid() && view.None? && accepted == old(accepted) + input[..n]
      ensures Contents() == old(Contents()) + input[..n] && Used() == old(Used()) + n
    {
      hide IsPow2, Masked, Word, Data, Fits;
      ghost var was := buf[..];
      WritePlace();
      var i := Masked(w, mask);
      if n > 0 {
        Copy(buf, i, input[..n]);
      }
      AppendedData(was, buf[..], cap, mask, r, w, input[..n]);
      w := Word(w + n);
      Joined(accepted, consumed, input[..n]);
      accepted := accepted + input[..n];
    }

    /** Where writing goes on: behind the data, or at the front of a full buffer. */
    lemma WritePlace()
      requires Shape() && view.None? && cap > 0
      ensures buf.Length == cap && r < WORD && w < WORD
      ensures Masked(w, mask) == if Start() + Used() == cap then 0 else Start() + Used()
    {
      hide IsPow2, Masked, Word;
      WriteIndex(mask, r, w);
    }

    /** `ffstream_gather`: at least `need` bytes in one piece, if they are there.  Takes
        the first n bytes of the input: all, without a copy, if nothing is there and it is
        longer than what is needed; none if the last input still holds more than that, or if
        the buffer is too small; else what is missing.  Of an input of 2^32 bytes or more that
        is met without a copy, more is handed out than taken. */
    method Gather(input: seq<T>, need: nat) returns (n: nat, output: Option<seq<T>>)
      requires Valid()
      modifies this, buf
      ensures Valid() && buf == old(buf) && cap == old(cap) && consumed == old(consumed)
      ensures n <= |input| && accepted == old(accepted) + input[..n]
      ensures var there := |old(accepted)| - consumed;
        if there == 0 && need < |input| then n == |input| % 0x1_0000_0000 && output == Some(input)
        else if old(view).Some? && need < there then n == 0 && output == Some(accepted[consumed..])
        else if need > cap then n == 0 && output == None
        else
          && n == (if need <= there then 0 else if need - there < |input| then need - there else |input|)
          && output == Some(accepted[consumed..]) && (|output.value| >= need || n == |input|)
    {
      hide IsPow2, Masked, Word;
      var used := Used();
      ContentsSize();
      if need < |input| && used == 0 {
        n := LookAt(input);
        return n, Some(input);
      }
      assert accepted + input[..0] == accepted;
      if view.Some? && need < used {
        ViewSize();
        return 0, Some(view.value[r..r + used]);
      }
      if need > cap {
        return 0, None;
      }
      if view.Some? {
        FitsBuffer(need);
        Unview();
      }
      var all;
      n, all := TopUp(input, need);
      output := Some(all);
    }

    lemma FitsBuffer(need: nat)
      requires Shape() && view.Some? && Used() <= need <= cap
      ensures Used() <= buf.Length
    {}

    lemma ContentsSize()
      requires Shape()
      ensures |Contents()| == Used()
    {
      if view.Some? { WordIs(w - r); }
    }

    lemma ViewSize()
      requires Shape() && view.Some?
      ensures r + Used() == w
    {
      WordIs(w - r);
    }

    /** Takes the whole input as a view, as far as its length fits the counter. */
    method LookAt(input: seq<T>) returns (n: nat)
      requires Valid() && Contents() == []
      modifies this`view, this`r, this`w, this`accepted
      ensures Valid() && n == |input| % 0x1_0000_0000 <= |input|
      ensures accepted == old(accepted) + input[..n] && accepted[consumed..] == input[..n]
      ensures input[..n] == input <==> |input| < WORD
    {
      hide IsPow2, Masked, Word, Fits, Data;
      WordFits(|input|);
      n := Word(|input|);
      Joined(accepted, consumed, input[..n]);
      assert [] + input[..n] == input[..n];
      LookedAt(buf[..], cap, mask, view, r, w, input);
      view, r, w := Some(input), 0, n;
      accepted := accepted + input[..n];
    }

    /** Takes what is missing of `need` bytes into the buffer. */
    method TopUp(input: seq<T>, need: nat) returns (n: nat, output: seq<T>)
      requires Valid() && view.None? && need <= cap
      modifies this`r, this`w, this`accepted, buf
      ensures n == Missing(|input|, need, old(Used())) <= |input|
      ensures Valid() && view.None? && accepted == old(accepted) + input[..n]
      ensures output == accepted[consumed..] && (|output| >= need || n == |input|)
    {
      hide IsPow2, Masked, Word, Fits, Data;
      n := 0;
      assert accepted + input[..0] == accepted;
      InBuffer();
      var used := Used();
      if used < need {
        if Start() + need > cap {
          MoveToFront();
        }
        n := Missing(|input|, need, used);
        Append(input, n);
        InBuffer();
      }
      var i := Start();
      output := buf[i..i + Used()];
    }

    lemma InBuffer()
      requires Shape() && view.None?
      ensures Start() + Used() <= buf.Length && Contents() == buf[Start()..Start() + Used()] && |Contents()| == Used()
      ensures cap > 0 ==> buf.Length == cap
    {}
  }

  /** How much of an input it takes to have `need` bytes, of which `used` are there. */
  function Missing(len: nat, need: nat, used: nat): nat {
    if need <= used then 0 else if need - used < len then need - used else len
  }

  /** `ffmem_copy`, `ffmem_move` */
  method Copy<T>(buf: array<T>, at: nat, data: seq<T>)
    requires at + |data| <= buf.Length
    modifies buf
    ensures buf[..at] == old(buf[..at]) && buf[at..at + |data|] == data
  {
    forall k | 0 <= k < |data| { buf[at + k] := data[k]; }
  }

  /** Consuming n elements leaves the others, wherever the data are. */
  lemma ConsumedData<T>(b: seq<T>, cap: nat, mask: nat, view: Option<seq<T>>, r: nat, w: nat, n: nat)
    requires Fits(|b|, cap, mask, view, r, w) && n <= Word(w - r)
    ensures n <= |Data(b, cap, mask, view, r, w)|
    ensures Fits(|b|, cap, mask, view, Word(r + n), w)
    ensures Data(b, cap, mask, view, Word(r + n), w) == Data(b, cap, mask, view, r, w)[n..]
  {
    hide IsPow2, Masked, Word;
    WordIs(w - r);
    WordIs(r + n);
    if view.Some? {
      Dropped(view.value, r, w - r, n);
    } else {
      ConsumedAt(mask, r, w, n);
      Dropped(b, Masked(r, mask), Word(w - r), n);
      NothingAt(b, Masked(Word(r + n), mask));
    }
  }

  lemma Behind<T>(b: seq<T>, b': seq<T>, start: nat, used: nat, more: seq<T>)
    requires start + used + |more| <= |b| == |b'| && b'[..start + used] == b[..start + used]
    requires b'[start + used..start + used + |more|] == more
    ensures b'[start..start + used + |more|] == b[start..start + used] + more
  {
    assert b'[start..start + used] == b'[..start + used][start..] == b[start..start + used];
    assert b'[start..start + used + |more|] == b'[start..start + used] + b'[start + used..start + used + |more|];
  }

  /** The data moved to the front of the buffer. */
  lemma MovedData<T>(b: seq<T>, b': seq<T>, cap: nat, mask: nat, view: Option<seq<T>>, r: nat, w: nat,
                     i: nat, used: nat)
    requires Fits(|b|, cap, mask, view, r, w) && view.None? && |b'| == |b|
    requires i == Masked(r, mask) && used == Word(w - r) && i + used <= |b| && b'[0..used] == b[i..i + used]
    ensures i <= r && Fits(|b|, cap, mask, view, r - i, Word(w - i)) && Masked(r - i, mask) == 0
    ensures Word(Word(w - i) - (r - i)) == used
    ensures Data(b', cap, mask, view, r - i, Word(w - i)) == Data(b, cap, mask, view, r, w)
  {
    hide IsPow2, Masked, Word, Fits, Data;
    FitsParts(|b|, cap, mask, view, r, w);
    MovedBack(mask, r, w);
    FitsAtFront(|b|, cap, mask, view, r, w, r - i, Word(w - i));
    DataIs(b, cap, mask, view, r, w);
    DataIs(b', cap, mask, view, r - i, Word(w - i));
  }

  lemma FitsParts<T>(len: nat, cap: nat, mask: nat, view: Option<seq<T>>, r: nat, w: nat)
    requires Fits(len, cap, mask, view, r, w)
    ensures r < WORD && w < WORD
  {}

  /** Other counters, with as much between them and no more before them. */
  lemma FitsAtFront<T>(len: nat, cap: nat, mask: nat, view: Option<seq<T>>, r: nat, w: nat, r': nat, w': nat)
    requires Fits(len, cap, mask, view, r, w) && view.None? && r' < WORD && w' < WORD
    requires Masked(r', mask) == 0 && Word(w' - r') == Word(w - r)
    ensures Fits(len, cap, mask, view, r', w')
  {
    hide IsPow2, Masked, Word;
  }

  lemma DataIs<T>(b: seq<T>, cap: nat, mask: nat, view: Option<seq<T>>, r: nat, w: nat)
    requires Fits(|b|, cap, mask, view, r, w) && view.None?
    ensures var i, n := Masked(r, mask), Word(w - r);
      i + n <= |b| && Data(b, cap, mask, view, r, w) == b[i..i + n]
  {
    hide IsPow2, Masked, Word;
  }

  /** A new buffer, with the data at its front unless they are in the view. */
  lemma NewBuffer<T>(b: seq<T>, cap: nat, mask: nat, view: Option<seq<T>>, r: nat, w: nat, c: seq<T>)
    requires mask < WORD && IsPow2(mask + 1)
    requires |b| >= 2 && if |b| <= WORD / 2 then cap == |b| == mask + 1 else cap == 0 && mask == WORD - 1 && |b| >= WORD
    requires w < WORD && if view.Some? then r <= w <= |view.value| && view.value[r..w] == c
             else r == 0 && |c| == w <= |b| && b[..w] == c
    ensures Fits(|b|, cap, mask, view, r, w) && Data(b, cap, mask, view, r, w) == c
  {
    hide IsPow2, Masked, Word;
    if view.Some? {
    } else {
      WordIs(w - r);
      ZeroMasked(mask);
    }
  }

  lemma ZeroMasked(mask: nat)
    ensures Masked(0, mask) == 0
  {}

  /** Input written behind the data is appended to them. */
  lemma AppendedData<T>(b: seq<T>, b': seq<T>, cap: nat, mask: nat, r: nat, w: nat, more: seq<T>)
    requires Fits<T>(|b|, cap, mask, None, r, w) && cap > 0 && |b'| == |b|
    requires Masked(r, mask) + Word(w - r) + |more| <= cap
    requires var end := Masked(r, mask) + Word(w - r); b'[..end] == b[..end] && b'[end..end + |more|] == more
    ensures Fits<T>(|b|, cap, mask, None, r, Word(w + |more|)) && Word(Word(w + |more|) - r) == Word(w - r) + |more|
    ensures Data(b', cap, mask, None, r, Word(w + |more|)) == Data(b, cap, mask, None, r, w) + more
  {
    hide IsPow2, Masked, Word;
    Appended(r, w, |more|);
    WordIs(w + |more|);
    DataAt(b, cap, mask, r, w);
    DataAt(b', cap, mask, r, Word(w + |more|));
    hide Data, Fits;
    Behind(b, b', Masked(r, mask), Word(w - r), more);
  }

  lemma DataAt<T>(b: seq<T>, cap: nat, mask: nat, r: nat, w: nat)
    requires Fits<T>(|b|, cap, mask, None, r, w)
    ensures var start, used := Masked(r, mask), Word(w - r);
      start + used <= |b| && Data(b, cap, mask, None, r, w) == b[start..start + used]
  {}

  /** With an input in view, as much of it as its counted length is there. */
  lemma LookedAt<T>(b: seq<T>, cap: nat, mask: nat, view: Option<seq<T>>, r: nat, w: nat, input: seq<T>)
    requires Fits(|b|, cap, mask, view, r, w)
    ensures var n := Word(|input|);
      n <= |input| && Fits(|b|, cap, mask, Some(input), 0, n) && Data(b, cap, mask, Some(input), 0, n) == input[..n]
  {
    hide IsPow2;
    WordFits(|input|);
  }

  lemma Dropped<T>(s: seq<T>, at: nat, used: nat, n: nat)
    requires n <= used && at + used <= |s|
    ensures s[at..at + used][n..] == s[at + n..at + used]
  {}

  lemma NothingAt<T>(s: seq<T>, at: nat)
    ensures at <= |s| ==> s[at..at] == []
  {}

  lemma Joined<T>(accepted: seq<T>, consumed: nat, more: seq<T>)
    requires consumed <= |accepted|
    ensures (accepted + more)[consumed..] == accepted[consumed..] + more
  {}

  // ---------- the 32-bit counters ----------

  lemma WordFits(n: nat)
    ensures Word(n) == n % 0x1_0000_0000 <= n && (Word(n) == n <==> n < WORD)
  {}

  /** A power of two fits 32 bits, or leaves nothing in them. */
  lemma Truncated(n: nat, newcap: nat)
    requires IsPow2(newcap) && 2 <= newcap && n <= newcap && (newcap > 2 ==> newcap / 2 < n)
    ensures n <= WORD / 2 <==> newcap <= WORD / 2
    ensures newcap <= WORD / 2 ==> Word(newcap) == newcap && Word(newcap - 1) == newcap - 1
    ensures newcap > WORD / 2 ==> newcap >= WORD && Word(newcap) == 0 && Word(newcap - 1) == WORD - 1
    ensures IsPow2(Word(newcap - 1) + 1)
  {
    hide IsPow2, Masked, Word;
    WordsArePow2();
    if newcap <= WORD / 2 {
      WordIs(newcap);
      WordIs(newcap - 1);
    } else {
      var q := Divides(WORD / 2, newcap);
      assert q >= 2;
      assert newcap >= WORD;
      var k := Divides(WORD, newcap);
      LastOf(k);
    }
  }

  /** A buffer of 2^32 elements with three in it, and then a request for two. */
  lemma ReallocOverruns()
    ensures Fits<int>(WORD, 0, WORD - 1, None, 0, 3) && Word(3 - 0) == 3 > AlignPow2(2)
  {
    hide IsPow2;
    WordsArePow2();
  }

  lemma LastOf(k: nat)
    requires k >= 1
    ensures Word(WORD * k) == 0 && Word(WORD * k - 1) == WORD - 1
  {
    Remainder(WORD * k, WORD, k, 0);
    Remainder(WORD * k - 1, WORD, k - 1, WORD - 1);
  }

  lemma WordsArePow2()
    ensures IsPow2(0x8000_0000) && IsPow2(0x1_0000_0000)
  {
    assert IsPow2(1);
    hide IsPow2;
    Sixteenfold(1); Sixteenfold(0x10); Sixteenfold(0x100); Sixteenfold(0x1000);
    Sixteenfold(0x1_0000); Sixteenfold(0x10_0000); Sixteenfold(0x100_0000);
    Twice(0x1000_0000); Twice(0x2000_0000); Twice(0x4000_0000); Twice(0x8000_0000);
  }

  lemma Consumed(r: nat, w: nat, n: nat)
    requires r < WORD && w < WORD && n <= Word(w - r)
    ensures Word(w - Word(r + n)) == Word(w - r) - n
  {
    WordIs(w - r);
    WordIs(r + n);
    WordIs(w - Word(r + n));
  }

  lemma ConsumedAt(mask: nat, r: nat, w: nat, n: nat)
    requires r < WORD && w < WORD && n <= Word(w - r) && IsPow2(mask + 1) && mask < WORD
    requires Masked(r, mask) + Word(w - r) <= mask + 1
    ensures var r', i := Word(r + n), Masked(r, mask);
      && Word(w - r') == Word(w - r) - n && Masked(r', mask) + Word(w - r') <= mask + 1
      && Masked(r', mask) <= i + n && (n < Word(w - r) ==> Masked(r', mask) == i + n)
  {
    hide IsPow2, Masked, Word;
    Consumed(r, w, n);
    MaskedWord(mask, r + n);
    NextIndex(mask, r, n);
  }

  lemma Appended(r: nat, w: nat, n: nat)
    requires r < WORD && w < WORD && Word(w - r) + n < WORD
    ensures Word(Word(w + n) - r) == Word(w - r) + n
  {
    WordIs(w - r);
    WordIs(w + n);
    WordIs(Word(w + n) - r);
  }

  lemma NextIndex(mask: nat, r: nat, n: nat)
    requires Masked(r, mask) + n <= mask + 1
    ensures Masked(r + n, mask) == if Masked(r, mask) + n == mask + 1 then 0 else Masked(r, mask) + n
  {
    var m, i := mask + 1, Masked(r, mask);
    Quotient(m, r);
    if i + n == m {
      assert m * (r / m + 1) == m * (r / m) + m;
      Remainder(r + n, m, r / m + 1, 0);
    } else {
      Remainder(r + n, m, r / m, i + n);
    }
  }

  lemma WriteIndex(mask: nat, r: nat, w: nat)
    requires IsPow2(mask + 1) && mask < WORD && r < WORD && w < WORD && Masked(r, mask) + Word(w - r) <= mask + 1
    ensures var end := Masked(r, mask) + Word(w - r); Masked(w, mask) == if end == mask + 1 then 0 else end
  {
    hide IsPow2, Masked, Word;
    var used := Word(w - r);
    WordIs(w - r);
    WordIs(r + used);
    assert Word(r + used) == w;
    MaskedWord(mask, r + used);
    NextIndex(mask, r, used);
  }

  lemma MovedBack(mask: nat, r: nat, w: nat)
    requires r < WORD && w < WORD
    ensures var i := Masked(r, mask);
      i <= r && Masked(r - i, mask) == 0 && Word(Word(w - i) - (r - i)) == Word(w - r)
  {
    hide Word;
    var m := mask + 1;
    Rest(m, r);
    ModAdd(m, r / m, 0);
    BackWord(r, w, r % m);
  }

  lemma Rest(m: nat, r: nat)
    requires m > 0
    ensures r == m * (r / m) + r % m && r % m <= r
  {}

  lemma BackWord(r: nat, w: nat, i: nat)
    requires i <= r < WORD && w < WORD
    ensures Word(Word(w - i) - (r - i)) == Word(w - r)
  {
    WordIs(w - r);
    WordIs(w - i);
    WordIs(Word(w - i) - (r - i));
  }

  lemma MaskedWord(mask: nat, x: nat)
    requires IsPow2(mask + 1) && mask < WORD
    ensures Masked(Word(x), mask) == Masked(x, mask)
  {
    hide IsPow2, Word;
    WordIndex(mask + 1, x);
  }

  /** Wrapping the counters does not change the place in the buffer. */
  lemma WordIndex(m: nat, x: int)
    requires m > 0 && IsPow2(m) && m <= WORD
    ensures Word(x) % m == x % m
  {
    hide IsPow2, Masked, Word;
    WordsArePow2();
    var q := Divides(m, WORD);
    Wraps(x);
    Regroup(m, q, x / WORD);
    ModAdd(m, q * (x / WORD), Word(x));
  }
}
