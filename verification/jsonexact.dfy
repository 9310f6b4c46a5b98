/** Exactly which documents come back.

    `RoundTripExactly`: in every layout and with every option, the reader returns the events
    that were written, and accepts the end, exactly if the document is not a bare number and
    every event is `Faithful`: strings and keys are `Safe`, booleans are 0 or 1, and numbers
    have a text that is read as one number and not as an integer.
  */
module JsonExact {
  import opened JsonGrammar
  import opened JsonRoundTrip
  import opened JsonSpelling
  import opened JsonStep
  import opened JsonText
  import opened JsonWriter

  // ---------- numbers ----------

  predicate NumSoFar(c: Core) { c.st.InNum? ==> forall i :: 0 <= i < |c.buf| ==> NumChar(c.buf[i]) }

  /** A number comes with a text that is read as it. */
  ghost predicate NumPlain(o: Options, e: Event) { e.Num? ==> NumText(o, e.text) && NumEvent(e.text) == e }

  ghost predicate KeepsNum(o: Options, r: Out) {
    match r
    case Eat(c) => NumSoFar(c)
    case Again(c) => NumSoFar(c)
    case Emit(c, e) => NumSoFar(c) && NumPlain(o, e)
    case Hold(c, e) => NumSoFar(c) && NumPlain(o, e)
    case Fail(_) => true
  }

  lemma NumberNums(o: Options, c: Core, ch: byte)
    requires Ok(c) && c.st.InNum? && NumSoFar(c)
    ensures KeepsNum(o, StepNumber(o, c, ch))
  {
    hide OkOut, ToInt, NumChar;
  }

  lemma ValueNums(o: Options, c: Core, ch: byte)
    requires Ok(c) && (c.st.SpcVal? || c.st.SpcArr?)
    ensures KeepsNum(o, StepValue(c, ch))
  {
    hide OkOut, NumText, NumChar, IsSpace;
  }

  lemma TextNums(o: Options, c: Core, ch: byte)
    requires Ok(c)
    ensures c.st.InStr? || c.st.InKey? ==> KeepsNum(o, StepString(o, c, ch))
    ensures Commenting(c.st) ==> KeepsNum(o, StepComment(o, c, ch))
    ensures c.st.InTrue? || c.st.InFalse? || c.st.InNull? ==> KeepsNum(o, StepLiteral(c, ch))
  {
    hide OkOut, NumText, NumChar;
  }

  lemma EscapeNums(o: Options, c: Core, ch: byte)
    requires Ok(c) && Escaping(c.st)
    ensures KeepsNum(o, StepEscape(c, ch))
  {
    hide OkOut, OkAt, NumText, NumChar, Utf8, HexWord, Supplementary;
  }

  lemma BetweenNums(o: Options, c: Core, ch: byte)
    requires Ok(c)
    ensures c.st.SpcAfterVal? ==> KeepsNum(o, StepSpace(c, ch))
    ensures c.st.AfterVal? ==> KeepsNum(o, StepAfter(c, ch))
    ensures c.st.SpcObj? ==> KeepsNum(o, StepObject(c, ch))
    ensures c.st.AfterKey? ==> KeepsNum(o, StepColon(c, ch))
  {
    hide Ok, OkOut, NumText, NumChar, IsSpace;
  }

  lemma StepNums(o: Options, c: Core, ch: byte)
    requires Ok(c) && NumSoFar(c)
    ensures KeepsNum(o, Step(o, c, ch))
  {
    hide Ok, OkOut, KeepsNum, StepValue, StepEscape, StepNumber, StepString, StepComment, StepLiteral;
    hide StepSpace, StepAfter, StepObject, StepColon, NumSoFar;
    if c.st.InNum? { NumberNums(o, c, ch); }
    else if c.st.SpcVal? || c.st.SpcArr? { ValueNums(o, c, ch); }
    else if Escaping(c.st) { EscapeNums(o, c, ch); }
    else { TextNums(o, c, ch); BetweenNums(o, c, ch); }
  }

  ghost predicate AllNumPlain(o: Options, evs: seq<Event>) { forall i :: 0 <= i < |evs| ==> NumPlain(o, evs[i]) }

  lemma {:induction false} RunNums(o: Options, c: Core, s: seq<byte>)
    requires Ok(c) && NumSoFar(c)
    ensures AllNumPlain(o, Run(o, c, s).evs)
    decreases |s|, Rank(c.st)
  {
    hide Step, Ok, NumSoFar, NumPlain;
    if s == [] {
    } else {
      StepNums(o, c, s[0]);
      match Step(o, c, s[0])
      case Eat(c') => RunNums(o, c', s[1..]);
      case Again(c') => RunNums(o, c', s);
      case Emit(c', e) => RunNums(o, c', s[1..]);
      case Hold(c', e) => RunNums(o, c', s);
      case Fail(_) =>
    }
  }

  // ---------- a reader that keeps escapes ----------

  /** The first event is the string or key s. */
  ghost predicate Yields(r: Result, s: seq<byte>) {
    r.evs != [] && (r.evs[0].Str? || r.evs[0].Key?) && r.evs[0].s == s
  }

  /** It takes everything up to the next quote. */
  lemma {:induction false} KeptToQuote(o: Options, c: Core, x: seq<byte>, s: seq<byte>) returns (m: nat)
    requires Ok(c) && (c.st.InStr? || c.st.InKey?) && o.keepEscapes && Yields(Run(o, c, x), s)
    ensures m < |x| && x[m] == QUOTE && s == c.buf + x[..m] && AllTaken(o, x[..m])
    decreases |x|
  {
    m := 0;
    if x[0] == QUOTE {
      assert Step(o, c, x[0]).Emit? && Step(o, c, x[0]).e.s == c.buf;
      assert c.buf + x[..0] == c.buf;
    } else {
      var c' := c.(buf := c.buf + [x[0]]);
      assert Step(o, c, x[0]) == Eat(c');
      m := KeptToQuote(o, c', x[1..], s);
      assert x[..m + 1] == [x[0]] + x[1..][..m];
      assert Taken(o, x[0]);
      m := m + 1;
    }
  }

  lemma {:induction false} EscapedNoQuote(s: seq<byte>)
    requires QUOTE !in s
    ensures QUOTE !in Escaped(s)
  {
    if s == [] {
    } else {
      var n := |s| - 1;
      assert s == s[..n] + [s[n]];
      EscapedNoQuote(s[..n]);
      ByteNoQuote(s[n]);
    }
  }

  lemma ByteNoQuote(b: byte)
    requires b != QUOTE
    ensures QUOTE !in EscapedByte(b)
  {
    var k := EscapeClass(b);
    if k == 1 { assert HexValue(QUOTE) == -1; }
  }

  lemma {:induction false} EscapedLonger(s: seq<byte>)
    ensures |s| <= |Escaped(s)|
    ensures |s| == |Escaped(s)| ==> forall i :: 0 <= i < |s| ==> EscapeClass(s[i]) == 0
  {
    if s == [] {
    } else {
      hide EscapeClass;
      EscapedLonger(s[..|s| - 1]);
      ByteLonger(s[|s| - 1]);
    }
  }

  lemma ByteLonger(b: byte)
    ensures |EscapedByte(b)| == 1 ==> EscapeClass(b) == 0
  {}

  // ---------- a reader that resolves escapes ----------

  predicate InString(c: Core) { c.st.InStr? || c.st.InKey? || Escaping(c.st) }

  /** By how much the text may still grow beyond the bytes to come, in a `\u` escape. */
  function Credit(c: Core): nat {
    if !c.st.EscU? then 0 else if c.hi != 0 then c.escLen else if c.escLen == 0 then 0 else c.escLen - 1
  }

  /** No byte adds more than itself. */
  predicate GainsOne(r: Out, c: Core, ch: byte) {
    if r.Eat? then
      InString(r.c) && |r.c.buf| + Credit(r.c) <= |c.buf| + Credit(c) + 1 && (r.c.st.Esc? ==> ch == BACKSLASH)
    else if r.Emit? then (r.e.Str? || r.e.Key?) && r.e.s == c.buf
    else r.Fail?
  }

  lemma StringGains(o: Options, c: Core, ch: byte)
    requires Ok(c) && (c.st.InStr? || c.st.InKey?)
    ensures GainsOne(StepString(o, c, ch), c, ch)
  {
    hide Ok, OkOut;
  }

  lemma EscapeGains(c: Core, ch: byte)
    requires Ok(c) && Escaping(c.st)
    ensures GainsOne(StepEscape(c, ch), c, ch)
  {
    hide OkOut, OkAt, Utf8, HexWord, Supplementary;
    if c.st.Esc? {
      if Unescaped(ch) >= 0 { ShortUtf8(Unescaped(ch)); }
    } else if c.st.EscU? && c.escLen == 3 {
      HexGains(c, ch);
    }
  }

  lemma HexGains(c: Core, ch: byte)
    requires Ok(c) && c.st.EscU? && c.escLen == 3
    ensures GainsOne(StepHex(c, ch), c, ch)
  {
    hide OkOut, OkAt, Utf8, HexWord, Supplementary;
    var w := HexWord(c.esc[3 := ch]);
    if w >= 0 { BasicUtf8(w); }
  }

  lemma ShortUtf8(u: nat)
    requires u < 128
    ensures Utf8(u) == [u]
  {}

  lemma BasicUtf8(u: nat)
    requires u < 0x1_0000
    ensures |Utf8(u)| <= 3
  {}

  lemma StepGains(o: Options, c: Core, ch: byte)
    requires Ok(c) && InString(c)
    ensures GainsOne(Step(o, c, ch), c, ch)
  {
    hide Ok, GainsOne, StepString, StepEscape;
    if c.st.InStr? || c.st.InKey? { StringGains(o, c, ch); } else { EscapeGains(c, ch); }
  }

  /** No backslash before the first quote. */
  predicate Clean(t: seq<byte>) { t == [] || t[0] == QUOTE || (t[0] != BACKSLASH && Clean(t[1..])) }

  predicate Last(s: seq<byte>, b: byte) { s != [] && s[|s| - 1] == b }

  /** Up to the next quote a clean text adds no backslash. */
  lemma {:induction false} CleanEnd(o: Options, c: Core, t: seq<byte>, s: seq<byte>)
    requires Ok(c) && (c.st.InStr? || c.st.InKey?) && Clean(t) && Yields(Run(o, c, t), s) && !Last(c.buf, BACKSLASH)
    ensures !Last(s, BACKSLASH)
    decreases |t|
  {
    hide OkOut;
    var ch := t[0];
    if ch == QUOTE {
      assert Step(o, c, ch).Emit? && Step(o, c, ch).e.s == c.buf;
    } else if ch >= 0x20 && ch != DELETE {
      var c' := c.(buf := c.buf + [ch]);
      assert Step(o, c, ch) == Eat(c');
      CleanEnd(o, c', t[1..], s);
    }
  }

  /** What one step in a string means for the first event. */
  lemma RunFirst(o: Options, c: Core, y: seq<byte>)
    requires Ok(c) && y != []
    ensures var r := Step(o, c, y[0]);
      && (r.Eat? ==> Ok(r.c) && Run(o, c, y) == Run(o, r.c, y[1..]))
      && (r.Emit? ==> Run(o, c, y).evs != [] && Run(o, c, y).evs[0] == r.e)
      && (r.Fail? ==> Run(o, c, y).evs == [])
  {
    hide Step, Ok;
    StepRank(o, c, y[0]);
  }

  /** A digit that is none is noticed at the latest with the fourth. */
  lemma {:induction false} BadDigit(o: Options, c: Core, i: nat, t: seq<byte>)
    requires Ok(c) && c.st.EscU? && i < c.escLen && HexValue(c.esc[i]) < 0
    ensures Run(o, c, t).evs == []
    decreases |t|
  {
    hide OkOut, OkAt, HexValue, Run;
    if t == [] {
      NoEvents(o, c);
    } else {
      var c1 := c.(esc := c.esc[c.escLen := t[0]], escLen := c.escLen + 1);
      assert c1.esc[i] == c.esc[i];
      assert Step(o, c, t[0]) == if c1.escLen == 4 then Fail(BadEscape) else Eat(c1);
      RunFirst(o, c, t);
      if c1.escLen != 4 { BadDigit(o, c1, i, t[1..]); }
    }
  }

  lemma NoEvents(o: Options, c: Core)
    requires Ok(c)
    ensures Run(o, c, []).evs == []
  {}

  lemma QuoteNoDigit(o: Options, c: Core, x: seq<byte>)
    requires Ok(c) && Escaping(c.st) && !c.st.Esc? && x != [] && x[0] == QUOTE
    ensures Run(o, c, x).evs == []
  {
    hide OkOut, OkAt, HexWord, Run;
    assert HexValue(QUOTE) == -1;
    if c.st.EscU? {
      DigitFails(o, c, x);
    } else {
      assert Step(o, c, QUOTE) == Fail(BadEscape);
      RunFirst(o, c, x);
    }
  }

  lemma DigitFails(o: Options, c: Core, x: seq<byte>)
    requires Ok(c) && c.st.EscU? && x != [] && HexValue(x[0]) < 0
    ensures Run(o, c, x).evs == []
  {
    hide OkOut, OkAt, HexValue, Run;
    var c1 := c.(esc := c.esc[c.escLen := x[0]], escLen := c.escLen + 1);
    assert c1.esc[c.escLen] == x[0];
    assert Step(o, c, x[0]) == if c1.escLen == 4 then Fail(BadEscape) else Eat(c1);
    RunFirst(o, c, x);
    if c1.escLen != 4 { BadDigit(o, c1, c.escLen, x[1..]); }
  }

  /** In an escape the quote that was to close the string is one more byte of it, or is
      refused. */
  lemma QuoteEscaped(o: Options, c: Core, t: seq<byte>, s: seq<byte>)
    requires Ok(c) && Escaping(c.st) && Clean(t) && Yields(Run(o, c, [QUOTE] + t), s)
    ensures c.st.Esc? && !Last(s, BACKSLASH)
  {
    hide OkOut, OkAt, Clean, Run;
    var x := [QUOTE] + t;
    assert x[0] == QUOTE && x[1..] == t;
    if c.st.Esc? {
      ShortUtf8(QUOTE);
      var c' := c.(st := c.next, buf := c.buf + [QUOTE]);
      assert Step(o, c, QUOTE) == Eat(c');
      RunFirst(o, c, x);
      CleanEnd(o, c', t, s);
    } else {
      QuoteNoDigit(o, c, x);
    }
  }

  /** The string closes within its own text or at its own quote, and then is short; or an
      escape at the end of the text swallows that quote. */
  lemma {:induction false} Closes(o: Options, c: Core, x: seq<byte>, t: seq<byte>, s: seq<byte>)
    requires Ok(c) && InString(c) && Clean(t) && Yields(Run(o, c, x + ([QUOTE] + t)), s)
    ensures |s| <= |c.buf| + Credit(c) + |x|
      || (!Last(s, BACKSLASH) && if x == [] then c.st.Esc? else Last(x, BACKSLASH))
    decreases |x|
  {
    hide Ok, Step, InString, Credit, Run, Last, Clean;
    var y := x + ([QUOTE] + t);
    if x == [] {
      assert y == [QUOTE] + t;
      AtQuote(o, c, t, s);
    } else {
      assert y[0] == x[0] && y[1..] == x[1..] + ([QUOTE] + t);
      StepGains(o, c, x[0]);
      var r := Step(o, c, x[0]);
      RunFirst(o, c, y);
      if r.Eat? {
        Closes(o, r.c, x[1..], t, s);
        LastOf(x);
      }
    }
  }

  lemma LastOf(x: seq<byte>)
    requires x != []
    ensures if |x| == 1 then Last(x, BACKSLASH) <==> x[0] == BACKSLASH
            else x[1..] != [] && (Last(x, BACKSLASH) <==> Last(x[1..], BACKSLASH))
  {}

  lemma LastMore(a: seq<byte>, x: seq<byte>)
    requires x != []
    ensures Last(a + x, BACKSLASH) <==> Last(x, BACKSLASH)
  {}

  lemma AtQuote(o: Options, c: Core, t: seq<byte>, s: seq<byte>)
    requires Ok(c) && InString(c) && Clean(t) && Yields(Run(o, c, [QUOTE] + t), s)
    ensures |s| <= |c.buf| || (!Last(s, BACKSLASH) && c.st.Esc?)
  {
    hide OkOut, OkAt, Clean, Run, Last;
    var y := [QUOTE] + t;
    if c.st.InStr? || c.st.InKey? {
      RunFirst(o, c, y);
      assert Step(o, c, QUOTE).Emit? && Step(o, c, QUOTE).e.s == c.buf;
    } else {
      QuoteEscaped(o, c, t, s);
    }
  }

  /** So a string that is not escaped comes back only if it holds nothing that the reader
      resolves or refuses. */
  lemma {:induction false} OnlyTaken(o: Options, c: Core, x: seq<byte>, t: seq<byte>)
    requires Ok(c) && (c.st.InStr? || c.st.InKey?) && !o.keepEscapes && Clean(t)
    requires Yields(Run(o, c, x + ([QUOTE] + t)), c.buf + x)
    ensures AllTaken(o, x)
    decreases |x|
  {
    hide Ok, OkOut, Run, Clean;
    if x == [] {
    } else {
      var y := x + ([QUOTE] + t);
      assert y[0] == x[0] && y[1..] == x[1..] + ([QUOTE] + t);
      RunFirst(o, c, y);
      if x[0] == BACKSLASH {
        assert Step(o, c, x[0]) == Eat(Escaped1(c));
        Closes(o, Escaped1(c), x[1..], t, c.buf + x);
        LastOf(x);
        LastMore(c.buf, x);
      } else if Taken(o, x[0]) {
        var c' := c.(buf := c.buf + [x[0]]);
        assert Step(o, c, x[0]) == Eat(c');
        assert c'.buf + x[1..] == c.buf + x;
        OnlyTaken(o, c', x[1..], t);
      }
    }
  }

  /** Only safe strings come back from between their quotes. */
  lemma OnlySafe(o: Options, l: Layout, c: Core, s: seq<byte>, t: seq<byte>)
    requires Ok(c) && (c.st.InStr? || c.st.InKey?) && c.buf == [] && Clean(t)
    requires Yields(Run(o, c, Spelled(l, s) + ([QUOTE] + t)), s)
    ensures Safe(o, l, s)
  {
    hide Ok, Run, Clean, Taken;
    assert c.buf + s == s;
    if !o.keepEscapes {
      if l.raw { OnlyTaken(o, c, s, t); }
    } else {
      var x := Spelled(l, s) + ([QUOTE] + t);
      var m := KeptToQuote(o, c, x, s);
      assert c.buf + x[..m] == x[..m] == s;
      if !l.raw {
        TakenNoQuote(o, s);
        EscapedNoQuote(s);
        EscapedLonger(s);
        assert m >= |Escaped(s)|;
      }
    }
  }

  lemma TakenNoQuote(o: Options, s: seq<byte>)
    requires AllTaken(o, s)
    ensures QUOTE !in s
  {
    forall i | 0 <= i < |s| ensures s[i] != QUOTE { assert Taken(o, s[i]); }
  }

  // ---------- what follows a string ----------

  lemma {:induction false} CleanJoin(a: seq<byte>, b: seq<byte>)
    requires BACKSLASH !in a && Clean(b)
    ensures Clean(a + b)
  {
    if a == [] {
      assert a + b == b;
    } else {
      assert (a + b)[0] == a[0] && (a + b)[1..] == a[1..] + b;
      CleanJoin(a[1..], b);
    }
  }

  lemma BodyClean(o: Options, l: Layout, e: Event)
    requires Plain(o, e)
    ensures if e.Str? || e.Key? then Body(l, e) != [] && Body(l, e)[0] == QUOTE else BACKSLASH !in Body(l, e)
  {
    hide ToInt, Spelled;
    if e.Num? {
      forall i | 0 <= i < |e.text| ensures e.text[i] != BACKSLASH { assert NumChar(e.text[i]); }
    }
  }

  lemma LeadClean(l: Layout, p: Pen, e: Event)
    ensures BACKSLASH !in Lead(l, p, e) && BACKSLASH !in Indent(l, p, e)
  {}

  lemma {:induction false} DocumentClean(o: Options, l: Layout, p: Pen, evs: seq<Event>)
    requires forall i :: 0 <= i < |evs| ==> Plain(o, evs[i])
    ensures Clean(Document(l, p, evs))
    decreases |evs|
  {
    hide Plain, Body, Lead, Indent, After, Misplaced, Clean;
    if evs == [] {
      CleanNone();
    } else {
      var e := evs[0];
      var rest := Document(l, After(p, e), evs[1..]);
      DocumentClean(o, l, After(p, e), evs[1..]);
      BodyClean(o, l, e);
      LeadClean(l, p, e);
      if Misplaced(p, e) {
        CleanJoin(Indent(l, p, e), rest);
      } else if e.Str? || e.Key? {
        QuoteClean(Body(l, e) + rest);
        CleanJoin(Lead(l, p, e), Body(l, e) + rest);
        assert Lead(l, p, e) + (Body(l, e) + rest) == (Lead(l, p, e) + Body(l, e)) + rest;
      } else {
        CleanJoin(Lead(l, p, e) + Body(l, e), rest);
      }
    }
  }

  lemma CleanNone()
    ensures Clean([])
  {}

  lemma QuoteClean(t: seq<byte>)
    requires t != [] && t[0] == QUOTE
    ensures Clean(t)
  {}

  // ---------- a string inside a document ----------

  /** Between the closing quote and the next element. */
  function Colon(l: Layout, e: Event): seq<byte> {
    if !e.Key? then [] else if Pretty(l) then [COLON, SPACE] else [COLON]
  }

  /** Reading goes on where a known text ends. */
  lemma ReadsOn(o: Options, c: Core, a: seq<byte>, ea: seq<Event>, c1: Core, b: seq<byte>)
    requires Reads(o, c, a, ea, c1)
    ensures Ok(c) && Ok(c1) && Run(o, c, a + b).evs == ea + Run(o, c1, b).evs
  {
    hide Ok, Run;
    RunAppend(o, c, a, b);
  }

  /** What the reader does when it comes to a string or key that was written. */
  lemma StringReached(o: Options, l: Layout, evs: seq<Event>, k: nat) returns (c: Core)
    requires k < |evs| && Follow(START, evs).Some? && (evs[k].Str? || evs[k].Key?)
    requires forall i :: 0 <= i < k ==> Faithful(o, l, evs[i])
    ensures Ok(c) && (c.st.InStr? || c.st.InKey?) && c.buf == []
    ensures var p := PenAfter(FRESH, evs[..k]);
      var t := Colon(l, evs[k]) + Document(l, After(p, evs[k]), evs[k + 1..]);
      Run(o, INIT, Document(l, FRESH, evs)).evs == evs[..k] + Run(o, c, Spelled(l, evs[k].s) + ([QUOTE] + t)).evs
  {
    hide *;
    var done, e := evs[..k], evs[k];
    AtPlace(evs, k);
    DocumentSplit(l, FRESH, evs, k);
    var g, p := Follow(START, done).value, PenAfter(FRESH, done);
    var c0, now := PrefixRead(o, l, done);
    var rest := Document(l, After(p, e), evs[k + 1..]);
    ReadsOn(o, INIT, Document(l, FRESH, done), now, c0, Element(l, p, e) + rest);
    c := StringEntered(o, l, p, c0, g, e, rest);
    var x := Spelled(l, e.s) + ([QUOTE] + (Colon(l, e) + rest));
    assert now + (Pending(c0) + Run(o, c, x).evs) == (now + Pending(c0)) + Run(o, c, x).evs;
  }

  /** The events before are read, up to a number that is pending. */
  lemma PrefixRead(o: Options, l: Layout, evs: seq<Event>) returns (c: Core, now: seq<Event>)
    requires Follow(START, evs).Some? && forall i :: 0 <= i < |evs| ==> Faithful(o, l, evs[i])
    ensures Reads(o, INIT, Document(l, FRESH, evs), now, c) && now + Pending(c) == evs
    ensures Sync(o, !PenAfter(FRESH, evs).comma, c, Follow(START, evs).value)
  {
    hide Faithful, Document, Reads, Next, Sync;
    PenIs(FRESH, START, evs);
    DocumentSpelled(o, l, FRESH, START, evs);
    InitSync(o);
    c, now := ReadsTokens(o, true, INIT, START, SpellingsOf(l, FRESH, evs));
    assert Pending(INIT) + evs == evs;
  }

  lemma StringEntered(o: Options, l: Layout, p: Pen, c0: Core, g: Place, e: Event, rest: seq<byte>)
    returns (c: Core)
    requires Sync(o, !p.comma, c0, g) && Next(g, e).Some? && (e.Str? || e.Key?)
    ensures Ok(c) && (c.st.InStr? || c.st.InKey?) && c.buf == []
    ensures Ok(c0)
    ensures Run(o, c0, Element(l, p, e) + rest).evs
      == Pending(c0) + Run(o, c, Spelled(l, e.s) + ([QUOTE] + (Colon(l, e) + rest))).evs
  {
    hide Next, Sync, Element, Run, Reads, ToInt, Inside, Colon, Spelled, Separator, Blank, GapsText, Whites;
    var sp := SpellingOf(l, p, e);
    IndentSpaces(o, l, p, e);
    var c1 := ReadsSeparator(o, !p.comma, c0, g, sp, e);
    var lead := Separator(!p.comma, sp, e);
    c := c1.(st := if e.Key? then InKey else InStr);
    assert Step(o, c1, QUOTE) == Eat(c);
    ReadsByte(o, c1, QUOTE);
    ReadsThenString(o, c0, lead, Pending(c0), c1, c);
    var x := Spelled(l, e.s) + ([QUOTE] + (Colon(l, e) + rest));
    StringElement(o, l, p, e, rest);
    ReadsOn(o, c0, lead + [QUOTE], Pending(c0), c, x);
  }

  lemma StringElement(o: Options, l: Layout, p: Pen, e: Event, rest: seq<byte>)
    requires e.Str? || e.Key?
    ensures Element(l, p, e) + rest
      == (Separator(!p.comma, SpellingOf(l, p, e), e) + [QUOTE]) + (Spelled(l, e.s) + ([QUOTE] + (Colon(l, e) + rest)))
  {
    hide Indent, Spelled, TokenOf, Whites, GapsText, Blank;
    IndentSpaces(o, l, p, e);
    var lead := Lead(l, p, e);
    assert Separator(!p.comma, SpellingOf(l, p, e), e) == lead;
    assert Body(l, e) == Quoted(l, e.s) + Colon(l, e);
    var s := Spelled(l, e.s);
    var more := Colon(l, e) + rest;
    assert lead + (([QUOTE] + s + [QUOTE]) + Colon(l, e)) + rest == (lead + [QUOTE]) + (s + ([QUOTE] + more));
  }

  lemma ReadsThenString(o: Options, c0: Core, lead: seq<byte>, evs: seq<Event>, c1: Core, c: Core)
    requires Reads(o, c0, lead, evs, c1) && Reads(o, c1, [QUOTE], [], c)
    ensures Reads(o, c0, lead + [QUOTE], evs, c)
  {
    hide Reads;
    ReadsJoin(o, c0, lead, evs, c1, [QUOTE], [], c);
    assert evs + [] == evs;
  }

  // ---------- exactly the faithful documents ----------

  /** The reader gives back what was written and accepts the end. */
  ghost predicate ComesBack(o: Options, l: Layout, evs: seq<Event>) {
    var r := Run(o, INIT, Document(l, FRESH, evs));
    r.evs == evs && r.end.More? && Fin(r.end.c)
  }

  lemma OnlyPlain(o: Options, l: Layout, evs: seq<Event>)
    requires ComesBack(o, l, evs) && forall i :: 0 <= i < |evs| ==> Writable(evs[i])
    ensures forall i :: 0 <= i < |evs| ==> Plain(o, evs[i])
  {
    hide Run, Document, NumText, NumEvent;
    var s := Document(l, FRESH, evs);
    BoolsReported(o, s);
    RunNums(o, INIT, s);
    forall i | 0 <= i < |evs| ensures Plain(o, evs[i]) {
      assert Writable(evs[i]) && NumPlain(o, evs[i]) && BoolText(evs[i], s[..Offsets(o, INIT, s, 0)[i]]);
    }
  }

  lemma TailClean(o: Options, l: Layout, e: Event, p: Pen, evs: seq<Event>)
    requires forall i :: 0 <= i < |evs| ==> Plain(o, evs[i])
    ensures Clean(Colon(l, e) + Document(l, p, evs))
  {
    hide Clean, Document, Plain;
    DocumentClean(o, l, p, evs);
    CleanJoin(Colon(l, e), Document(l, p, evs));
  }

  /** The next string of a document that comes back is safe. */
  lemma NextSafe(o: Options, l: Layout, evs: seq<Event>, k: nat)
    requires ComesBack(o, l, evs) && Follow(START, evs).Some? && k < |evs| && (evs[k].Str? || evs[k].Key?)
    requires forall i :: 0 <= i < k ==> Faithful(o, l, evs[i])
    requires forall i :: k < i < |evs| ==> Plain(o, evs[i])
    ensures Safe(o, l, evs[k].s)
  {
    hide *;
    var e := evs[k];
    var p, rest := After(PenAfter(FRESH, evs[..k]), e), evs[k + 1..];
    var t := Colon(l, e) + Document(l, p, rest);
    var c := StringReached(o, l, evs, k);
    var r := Run(o, c, Spelled(l, e.s) + ([QUOTE] + t));
    AllBack(o, l, evs);
    SecondPart(evs, k, r.evs);
    YieldsIt(r, e);
    TailClean(o, l, e, p, rest);
    OnlySafe(o, l, c, e.s, t);
  }

  lemma AllBack(o: Options, l: Layout, evs: seq<Event>)
    requires ComesBack(o, l, evs)
    ensures Run(o, INIT, Document(l, FRESH, evs)).evs == evs
  {}

  lemma SecondPart(evs: seq<Event>, k: nat, more: seq<Event>)
    requires k < |evs| && evs == evs[..k] + more
    ensures more != [] && more[0] == evs[k]
  {
    assert (evs[..k] + more)[k] == more[0];
  }

  lemma YieldsIt(r: Result, e: Event)
    requires r.evs != [] && r.evs[0] == e && (e.Str? || e.Key?)
    ensures Yields(r, e.s)
  {}

  lemma {:induction false} OnlyFaithful(o: Options, l: Layout, evs: seq<Event>, k: nat)
    requires ComesBack(o, l, evs) && Follow(START, evs).Some? && k <= |evs|
    requires forall i :: 0 <= i < |evs| ==> Plain(o, evs[i])
    ensures forall i :: 0 <= i < k ==> Faithful(o, l, evs[i])
  {
    hide ComesBack, Follow, Plain, Safe;
    if k == 0 {
    } else {
      OnlyFaithful(o, l, evs, k - 1);
      var e := evs[k - 1];
      if e.Str? || e.Key? { NextSafe(o, l, evs, k - 1); }
    }
  }

  /** A complete document that is written is read back, and the end accepted, exactly if
      it is not a bare number and every event is faithful. */
  lemma RoundTripExactly(o: Options, l: Layout, evs: seq<Event>)
    requires Complete(evs) && forall i :: 0 <= i < |evs| ==> Writable(evs[i])
    ensures ComesBack(o, l, evs) <==> !BareNumber(evs) && forall i :: 0 <= i < |evs| ==> Faithful(o, l, evs[i])
  {
    hide Faithful, Run, Document, Fin;
    if ComesBack(o, l, evs) {
      OnlyPlain(o, l, evs);
      OnlyFaithful(o, l, evs, |evs|);
      RoundTrip(o, l, evs);
    } else if !BareNumber(evs) && forall i :: 0 <= i < |evs| ==> Faithful(o, l, evs[i]) {
      RoundTrip(o, l, evs);
    }
  }
}
