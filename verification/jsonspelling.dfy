/** Every spelling of a JSON document is read alike.

    A document is a sequence of tokens with space and comments around them.  Each character
    of a string stands for itself or for an escape, each hexadecimal digit has either case, a
    number is any text that is read as one.  `AnySpelling`: the reader returns what the tokens
    mean, and accepts the end, unless the document is a number and nothing follows it.
  */
module JsonSpelling {
  import opened JsonGrammar
  import opened JsonStep
  import opened JsonText
  import opened Optional

  // ---------- spellings ----------

  /** A part of a string: a byte that stands for itself, an escape of two characters, a
      `\u` escape, or two of them for a surrogate pair. */
  datatype Piece = Direct(b: byte) | Short(ch: byte) | Unit(hex: seq<byte>) | Pair(high: seq<byte>, low: seq<byte>)

  predicate WellFormed(p: Piece) {
    match p
    case Direct(b) => b >= 0x20 && b != DELETE && b != QUOTE
    case Short(ch) => Unescaped(ch) >= 0
    case Unit(hex) => |hex| == 4 && HexWord(hex) >= 0 && Basic(HexWord(hex))
    case Pair(high, low) =>
      |high| == 4 && |low| == 4 && HighSurrogate(HexWord(high)) && LowSurrogate(HexWord(low))
  }

  /** A reader that keeps escapes sees bytes only; for another one a backslash is none. */
  predicate Allowed(o: Options, p: Piece) {
    WellFormed(p) && if o.keepEscapes then p.Direct? else p != Direct(BACKSLASH)
  }

  predicate AllAllowed(o: Options, ps: seq<Piece>) { forall i :: 0 <= i < |ps| ==> Allowed(o, ps[i]) }

  function PieceText(p: Piece): seq<byte> {
    match p
    case Direct(b) => [b]
    case Short(ch) => [BACKSLASH, ch]
    case Unit(hex) => [BACKSLASH, 117] + hex
    case Pair(high, low) => ([BACKSLASH, 117] + high) + ([BACKSLASH, 117] + low)
  }

  /** What a part of a string stands for. */
  function PieceBytes(p: Piece): seq<byte>
    requires WellFormed(p)
  {
    match p
    case Direct(b) => [b]
    case Short(ch) => Utf8(Unescaped(ch))
    case Unit(hex) => Utf8(HexWord(hex))
    case Pair(high, low) => Utf8(Supplementary(HexWord(high), HexWord(low)))
  }

  function PiecesText(ps: seq<Piece>): seq<byte> {
    if ps == [] then [] else PiecesText(ps[..|ps| - 1]) + PieceText(ps[|ps| - 1])
  }

  function PiecesBytes(ps: seq<Piece>): seq<byte>
    requires forall i :: 0 <= i < |ps| ==> WellFormed(ps[i])
  { if ps == [] then [] else PiecesBytes(ps[..|ps| - 1]) + PieceBytes(ps[|ps| - 1]) }

  /** A text that is read as one number. */
  ghost predicate NumText(o: Options, text: seq<byte>) {
    && 1 <= |text| <= FLTCAP && (forall i :: 0 <= i < |text| ==> NumChar(text[i]))
    && (ToInt(text).used == |text| || o.isFloat(text))
  }

  ghost function NumEvent(text: seq<byte>): Event {
    if ToInt(text).used == |text| then Event.Int(ToInt(text).val) else Num(text)
  }

  /** What may stand between tokens: a byte of space, a comment up to the end of its line, or
      one between slashes and stars. */
  datatype Gap = White(b: byte) | Line(text: seq<byte>) | Block(text: seq<byte>)

  /** A text that does not close the comment it stands in.  A star is taken together with the
      byte after it, so only one right after an even number of stars can close a comment. */
  predicate BlockText(t: seq<byte>)
    decreases |t|
  {
    t == [] || if t[0] == STAR then |t| >= 2 && t[1] != SLASH && BlockText(t[2..]) else BlockText(t[1..])
  }

  predicate GapFits(o: Options, g: Gap) {
    match g
    case White(b) => IsSpace(b)
    case Line(t) => o.comments && NEWLINE !in t
    case Block(t) => o.comments && BlockText(t)
  }

  predicate Blank(o: Options, gs: seq<Gap>) { forall i :: 0 <= i < |gs| ==> GapFits(o, gs[i]) }

  function GapText(g: Gap): (s: seq<byte>)
    ensures s != []
  {
    match g
    case White(b) => [b]
    case Line(t) => [SLASH, SLASH] + (t + [NEWLINE])
    case Block(t) => [SLASH, STAR] + (t + [STAR, SLASH])
  }

  function GapsText(gs: seq<Gap>): seq<byte> { if gs == [] then [] else GapText(gs[0]) + GapsText(gs[1..]) }

  /** A key comes with its colon and what is before and after that. */
  datatype Token =
    | Sign(e: Event)
    | Quote(pieces: seq<Piece>)
    | Name(pieces: seq<Piece>, gap: seq<Gap>, after: seq<Gap>)
    | Number(text: seq<byte>)

  ghost predicate Readable(o: Options, t: Token) {
    match t
    case Sign(e) => Fixed(e) && (e.Bool? ==> e.b == 0 || e.b == 1)
    case Quote(ps) => AllAllowed(o, ps)
    case Name(ps, gap, after) => AllAllowed(o, ps) && Blank(o, gap) && Blank(o, after)
    case Number(text) => NumText(o, text)
  }

  ghost function Meaning(o: Options, t: Token): Event
    requires Readable(o, t)
  {
    match t
    case Sign(e) => e
    case Quote(ps) => Str(PiecesBytes(ps))
    case Name(ps, _, _) => Key(PiecesBytes(ps))
    case Number(text) => NumEvent(text)
  }

  function InQuotes(ps: seq<Piece>): seq<byte> { [QUOTE] + PiecesText(ps) + [QUOTE] }

  ghost function TokenText(o: Options, t: Token): seq<byte>
    requires Readable(o, t)
  {
    match t
    case Sign(e) => Mark(e)
    case Quote(ps) => InQuotes(ps)
    case Name(ps, gap, after) => InQuotes(ps) + (GapsText(gap) + ([COLON] + GapsText(after)))
    case Number(text) => text
  }

  /** A token with what is before it, on both sides of a comma.  `extra`: a comma even before
      the closing brace of an object that is not empty, which the reader lets pass. */
  datatype Spelling = Spelling(before: seq<Gap>, extra: bool, between: seq<Gap>, token: Token)

  ghost predicate Legible(o: Options, s: Spelling) {
    Blank(o, s.before) && Blank(o, s.between) && Readable(o, s.token)
  }

  /** `first`: nothing stands before it that a comma would separate it from. */
  predicate HasComma(first: bool, s: Spelling, e: Event) { !first && (!Closing(e) || (e.ObjClose? && s.extra)) }

  function Separator(first: bool, s: Spelling, e: Event): seq<byte> {
    GapsText(s.before) + ((if HasComma(first, s, e) then [COMMA] else []) + GapsText(s.between))
  }

  ghost predicate AllLegible(o: Options, ts: seq<Spelling>) { forall i :: 0 <= i < |ts| ==> Legible(o, ts[i]) }

  ghost function Meanings(o: Options, ts: seq<Spelling>): (evs: seq<Event>)
    requires AllLegible(o, ts)
    ensures |evs| == |ts|
  { if ts == [] then [] else [Meaning(o, ts[0].token)] + Meanings(o, ts[1..]) }

  ghost function SpellingText(o: Options, first: bool, s: Spelling): seq<byte>
    requires Legible(o, s)
  { Separator(first, s, Meaning(o, s.token)) + TokenText(o, s.token) }

  ghost function DocumentText(o: Options, first: bool, ts: seq<Spelling>): seq<byte>
    requires AllLegible(o, ts)
    decreases |ts|
  {
    if ts == [] then [] else
    SpellingText(o, first, ts[0]) + DocumentText(o, Introduces(Meaning(o, ts[0].token)), ts[1..])
  }

  // ---------- reading a known text ----------

  /** From c, reading s returns evs and leads to c'. */
  ghost predicate Reads(o: Options, c: Core, s: seq<byte>, evs: seq<Event>, c': Core) {
    Ok(c) && Ok(c') && Run(o, c, s) == Result(evs, More(c'))
  }

  lemma ReadsJoin(o: Options, c: Core, a: seq<byte>, ea: seq<Event>, c1: Core, b: seq<byte>, eb: seq<Event>, c2: Core)
    requires Reads(o, c, a, ea, c1) && Reads(o, c1, b, eb, c2)
    ensures Reads(o, c, a + b, ea + eb, c2)
  {
    hide Ok, Run;
    RunAppend(o, c, a, b);
  }

  lemma ReadsThen(o: Options, c: Core, a: seq<byte>, c1: Core, b: seq<byte>, evs: seq<Event>, c2: Core)
    requires Reads(o, c, a, [], c1) && Reads(o, c1, b, evs, c2)
    ensures Reads(o, c, a + b, evs, c2)
  {
    ReadsJoin(o, c, a, [], c1, b, evs, c2);
    assert [] + evs == evs;
  }

  lemma ReadsNone(o: Options, c: Core)
    requires Ok(c)
    ensures Reads(o, c, [], [], c)
  {}

  /** One byte that is used up. */
  lemma ReadsByte(o: Options, c: Core, ch: byte)
    requires Ok(c)
    ensures var r := Step(o, c, ch);
      && (r.Eat? ==> Reads(o, c, [ch], [], r.c))
      && (r.Emit? ==> Reads(o, c, [ch], [r.e], r.c))
  {
    hide Ok, OkOut, Step;
    Known(o, c, ch);
    var s, r := [ch], Step(o, c, ch);
    assert s[1..] == [];
    if !r.Fail? { ReadsNone(o, r.c); }
    if r.Emit? { assert [r.e] + [] == [r.e]; }
  }

  lemma Known(o: Options, c: Core, ch: byte)
    requires Ok(c)
    ensures !Step(o, c, ch).Fail? ==> Ok(Step(o, c, ch).c)
  {}

  /** A byte that is looked at again. */
  lemma ReadsAgain(o: Options, c: Core, s: seq<byte>)
    requires Ok(c) && s != []
    ensures var r := Step(o, c, s[0]);
      && (r.Again? ==> Ok(r.c) && Run(o, c, s) == Run(o, r.c, s))
      && (r.Hold? ==> Ok(r.c) && Run(o, c, s) == Prefix([r.e], Run(o, r.c, s)))
  {
    hide Ok, OkOut, Step;
    Known(o, c, s[0]);
  }

  // ---------- space and comments ----------

  /** The same state, but for the one that comments return to. */
  predicate Resumed(c: Core, c': Core) { Ok(c') && c' == c.(next := c'.next) }

  lemma {:induction false} ReadsLine(o: Options, c: Core, t: seq<byte>)
    requires Ok(c) && c.st.CmtLn? && NEWLINE !in t
    ensures Reads(o, c, t, [], c)
  {
    hide OkOut, OkAt;
    if t == [] {
      ReadsNone(o, c);
    } else {
      assert Step(o, c, t[0]) == Eat(c);
      ReadsByte(o, c, t[0]);
      ReadsLine(o, c, t[1..]);
      ReadsThen(o, c, [t[0]], c, t[1..], [], c);
      assert [t[0]] + t[1..] == t;
    }
  }

  lemma {:induction false} ReadsBlock(o: Options, c: Core, t: seq<byte>)
    requires Ok(c) && c.st.CmtMln? && BlockText(t)
    ensures Reads(o, c, t, [], c)
    decreases |t|
  {
    hide OkOut, OkAt;
    if t == [] {
      ReadsNone(o, c);
    } else if t[0] == STAR {
      var c1 := c.(st := CmtMlnSl);
      assert Step(o, c, t[0]) == Eat(c1);
      ReadsByte(o, c, t[0]);
      assert Step(o, c1, t[1]) == Eat(c);
      ReadsByte(o, c1, t[1]);
      ReadsBlock(o, c, t[2..]);
      ReadsThen(o, c1, [t[1]], c, t[2..], [], c);
      ReadsThen(o, c, [t[0]], c1, [t[1]] + t[2..], [], c);
      assert [t[0]] + ([t[1]] + t[2..]) == t;
    } else {
      assert Step(o, c, t[0]) == Eat(c);
      ReadsByte(o, c, t[0]);
      ReadsBlock(o, c, t[1..]);
      ReadsThen(o, c, [t[0]], c, t[1..], [], c);
      assert [t[0]] + t[1..] == t;
    }
  }

  /** The two characters that open a comment. */
  lemma ReadsOpening(o: Options, c: Core, ch: byte) returns (c': Core)
    requires Ok(c) && Skipping(c.st) && o.comments && (ch == SLASH || ch == STAR)
    ensures Reads(o, c, [SLASH, ch], [], c') && Ok(c')
    ensures c' == c.(next := c.st, st := if ch == SLASH then CmtLn else CmtMln)
  {
    hide OkOut, OkAt;
    var c1 := c.(next := c.st, st := Cmt);
    var c2 := c1.(st := CmtSl);
    c' := c1.(st := if ch == SLASH then CmtLn else CmtMln);
    assert Step(o, c, SLASH) == Again(c1);
    ReadsAgain(o, c, [SLASH]);
    assert Step(o, c1, SLASH) == Eat(c2);
    ReadsByte(o, c1, SLASH);
    assert Step(o, c2, ch) == Eat(c');
    ReadsByte(o, c2, ch);
    ReadsThen(o, c, [SLASH], c2, [ch], [], c');
    assert [SLASH] + [ch] == [SLASH, ch];
  }

  lemma ReadsGap(o: Options, c: Core, g: Gap) returns (c': Core)
    requires Ok(c) && Skipping(c.st) && GapFits(o, g)
    ensures Reads(o, c, GapText(g), [], c') && Resumed(c, c')
  {
    hide OkOut, OkAt, BlockText;
    match g
    case White(b) =>
      c' := c;
      assert Step(o, c, b) == Eat(c);
      ReadsByte(o, c, b);
    case Line(t) =>
      var c1 := ReadsOpening(o, c, SLASH);
      ReadsLine(o, c1, t);
      c' := c1.(st := c.st);
      assert Step(o, c1, NEWLINE) == Eat(c');
      ReadsByte(o, c1, NEWLINE);
      ReadsThen(o, c1, t, c1, [NEWLINE], [], c');
      ReadsThen(o, c, [SLASH, SLASH], c1, t + [NEWLINE], [], c');
    case Block(t) =>
      var c1 := ReadsOpening(o, c, STAR);
      ReadsBlock(o, c1, t);
      c' := ReadsBlockEnd(o, c1);
      ReadsThen(o, c1, t, c1, [STAR, SLASH], [], c');
      ReadsThen(o, c, [SLASH, STAR], c1, t + [STAR, SLASH], [], c');
  }

  lemma ReadsBlockEnd(o: Options, c: Core) returns (c': Core)
    requires Ok(c) && c.st.CmtMln?
    ensures Reads(o, c, [STAR, SLASH], [], c') && c' == c.(st := c.next)
  {
    hide OkOut, OkAt;
    var c1 := c.(st := CmtMlnSl);
    c' := c.(st := c.next);
    assert Step(o, c, STAR) == Eat(c1);
    ReadsByte(o, c, STAR);
    assert Step(o, c1, SLASH) == Eat(c');
    ReadsByte(o, c1, SLASH);
    ReadsThen(o, c, [STAR], c1, [SLASH], [], c');
    assert [STAR] + [SLASH] == [STAR, SLASH];
  }

  lemma {:induction false} ReadsGaps(o: Options, c: Core, gs: seq<Gap>) returns (c': Core)
    requires Ok(c) && Skipping(c.st) && Blank(o, gs)
    ensures Reads(o, c, GapsText(gs), [], c') && Resumed(c, c')
    decreases |gs|
  {
    hide Reads, GapFits, GapText, OkAt, Skipping;
    if gs == [] {
      ReadsNone(o, c);
      c' := c;
    } else {
      var c1 := ReadsGap(o, c, gs[0]);
      c' := ReadsGaps(o, c1, gs[1..]);
      ReadsThen(o, c, GapText(gs[0]), c1, GapsText(gs[1..]), [], c');
    }
  }

  // ---------- after a value ----------

  /** A value is complete, though the end of a number is not known before the next byte. */
  ghost predicate Ended(o: Options, c: Core) { Ok(c) && (c.st.SpcAfterVal? || (c.st.InNum? && NumText(o, c.buf))) }

  ghost function Pending(c: Core): seq<Event> { if c.st.InNum? then [NumEvent(c.buf)] else [] }

  ghost function Rested(c: Core): Core {
    if c.st.InNum? then c.(st := SpcAfterVal, intval := if ToInt(c.buf).used > 0 then ToInt(c.buf).val else c.intval)
    else c
  }

  lemma PendingFirst(o: Options, c: Core, s: seq<byte>)
    requires Ended(o, c) && s != [] && !NumChar(s[0])
    ensures Ok(Rested(c)) && Rested(c).st.SpcAfterVal?
    ensures Run(o, c, s) == Prefix(Pending(c), Run(o, Rested(c), s))
  {
    hide ToInt, NumChar;
    if c.st.InNum? {
      assert Step(o, c, s[0]) == Hold(Rested(c), NumEvent(c.buf));
      ReadsAgain(o, c, s);
    }
  }

  /** Read s after a value: what was pending comes first. */
  lemma ReadsAfter(o: Options, c: Core, s: seq<byte>, evs: seq<Event>, c': Core)
    requires Ended(o, c) && s != [] && !NumChar(s[0]) && Reads(o, Rested(c), s, evs, c')
    ensures Reads(o, c, s, Pending(c) + evs, c')
  {
    hide Run, NumChar;
    PendingFirst(o, c, s);
  }

  lemma GapEnds(o: Options, gs: seq<Gap>)
    requires Blank(o, gs) && gs != []
    ensures GapsText(gs) != [] && !NumChar(GapsText(gs)[0])
  {
    assert GapFits(o, gs[0]);
  }

  lemma CommaEnds()
    ensures !NumChar(COMMA) && !NumChar(RBRACKET) && !NumChar(RBRACE)
  {}

  /** The state after a comma. */
  function Separated(c: Core): Core {
    c.(st := if Inside(c.ctxs, Curly) then SpcObj else SpcVal, intval := 0, buf := [])
  }

  lemma ReadsComma(o: Options, c: Core)
    requires Ok(c) && c.st.SpcAfterVal? && |c.ctxs| > 0
    ensures Ok(Separated(c)) && Reads(o, c, [COMMA], [], Separated(c))
  {
    var c1 := c.(st := AfterVal);
    assert Step(o, c, COMMA) == Again(c1);
    assert Step(o, c1, COMMA) == Eat(Separated(c));
    ReadsAgain(o, c, [COMMA]);
    ReadsByte(o, c1, COMMA);
  }

  /** The state after a closing bracket. */
  function Closed(c: Core): Core
    requires |c.ctxs| > 0
  { c.(st := SpcAfterVal, ctxs := Popped(c.ctxs), intval := 0, buf := []) }

  function CloseEvent(b: Bracket): Event { if b.Square? then ArrClose else ObjClose }
  function CloseByte(b: Bracket): byte { if b.Square? then RBRACKET else RBRACE }

  lemma ReadsClose(o: Options, c: Core, b: Bracket)
    requires Ok(c) && c.st.SpcAfterVal? && Inside(c.ctxs, b)
    ensures Ok(Closed(c)) && Reads(o, c, [CloseByte(b)], [CloseEvent(b)], Closed(c))
  {
    var ch := CloseByte(b);
    var c1 := c.(st := AfterVal);
    assert Step(o, c, ch) == Again(c1);
    assert Step(o, c1, ch) == Emit(Closed(c), CloseEvent(b));
    ReadsAgain(o, c, [ch]);
    ReadsByte(o, c1, ch);
  }

  lemma ReadsCloseEmpty(o: Options, c: Core)
    requires Ok(c) && (c.st.SpcArr? || c.st.SpcObj?)
    ensures var b := if c.st.SpcArr? then Square else Curly;
      |c.ctxs| > 0 && Ok(Closed(c)) && Reads(o, c, [CloseByte(b)], [CloseEvent(b)], Closed(c))
  {
    var b := if c.st.SpcArr? then Square else Curly;
    assert Step(o, c, CloseByte(b)) == Emit(Closed(c), CloseEvent(b));
    ReadsByte(o, c, CloseByte(b));
  }

  // ---------- strings ----------

  /** States alike but for what is left over from escapes. */
  predicate Alike(c: Core, d: Core) {
    Ok(c) && Ok(d) && c.st == d.st && c.buf == d.buf && c.ctxs == d.ctxs && c.intval == d.intval
  }

  lemma ReadsDirect(o: Options, c: Core, b: byte)
    requires Ok(c) && (c.st.InStr? || c.st.InKey?) && Allowed(o, Direct(b))
    ensures Reads(o, c, [b], [], c.(buf := c.buf + [b]))
  {
    hide OkOut;
    assert Step(o, c, b) == Eat(c.(buf := c.buf + [b]));
    ReadsByte(o, c, b);
  }

  /** The state after a backslash. */
  function Escaped1(c: Core): Core { c.(st := Esc, next := c.st, escLen := 0, hi := 0) }

  lemma ReadsBackslash(o: Options, c: Core)
    requires Ok(c) && (c.st.InStr? || c.st.InKey?) && !o.keepEscapes
    ensures Ok(Escaped1(c)) && Reads(o, c, [BACKSLASH], [], Escaped1(c))
  {
    hide OkOut;
    assert Step(o, c, BACKSLASH) == Eat(Escaped1(c));
    ReadsByte(o, c, BACKSLASH);
  }

  lemma ReadsShort(o: Options, c: Core, ch: byte) returns (c': Core)
    requires Ok(c) && (c.st.InStr? || c.st.InKey?) && !o.keepEscapes && Unescaped(ch) >= 0
    ensures Reads(o, c, [BACKSLASH, ch], [], c') && Alike(c', c.(buf := c.buf + Utf8(Unescaped(ch))))
  {
    hide OkOut, Utf8, Unescaped;
    ReadsBackslash(o, c);
    var c1 := Escaped1(c);
    c' := c1.(st := c.st, buf := c.buf + Utf8(Unescaped(ch)));
    assert Step(o, c1, ch) == Eat(c');
    ReadsByte(o, c1, ch);
    ReadsThen(o, c, [BACKSLASH], c1, [ch], [], c');
    assert [BACKSLASH] + [ch] == [BACKSLASH, ch];
  }

  /** Reading the four digits of a `\u` escape. */
  lemma ReadsHex(o: Options, c: Core, h: seq<byte>, c': Core)
    requires Ok(c) && c.st.EscU? && c.escLen == 0 && |h| == 4
    requires StepWord(c.(esc := h, escLen := 4), HexWord(h)) == Eat(c')
    ensures Reads(o, c, h, [], c')
  {
    hide OkOut, StepWord, HexWord, OkAt;
    var e1 := c.esc[0 := h[0]];
    var e2 := e1[1 := h[1]];
    var e3 := e2[2 := h[2]];
    var e4 := e3[3 := h[3]];
    assert e4 == h;
    var c1, c2, c3 := c.(esc := e1, escLen := 1), c.(esc := e2, escLen := 2), c.(esc := e3, escLen := 3);
    assert Step(o, c, h[0]) == Eat(c1);
    ReadsByte(o, c, h[0]);
    assert Step(o, c1, h[1]) == Eat(c2);
    ReadsByte(o, c1, h[1]);
    assert Step(o, c2, h[2]) == Eat(c3);
    ReadsByte(o, c2, h[2]);
    assert Step(o, c3, h[3]) == Eat(c');
    ReadsByte(o, c3, h[3]);
    Join4(o, c, h, c1, c2, c3, c');
  }

  lemma Join4(o: Options, c: Core, h: seq<byte>, c1: Core, c2: Core, c3: Core, c4: Core)
    requires |h| == 4 && Reads(o, c, [h[0]], [], c1) && Reads(o, c1, [h[1]], [], c2)
    requires Reads(o, c2, [h[2]], [], c3) && Reads(o, c3, [h[3]], [], c4)
    ensures Reads(o, c, h, [], c4)
  {
    hide Reads;
    ReadsThen(o, c, [h[0]], c1, [h[1]], [], c2);
    ReadsThen(o, c, [h[0]] + [h[1]], c2, [h[2]], [], c3);
    ReadsThen(o, c, [h[0]] + [h[1]] + [h[2]], c3, [h[3]], [], c4);
    assert [h[0]] + [h[1]] + [h[2]] + [h[3]] == h;
  }

  /** A `\u` escape of a character of the Basic Multilingual Plane. */
  lemma ReadsUnicode(o: Options, c: Core, hex: seq<byte>) returns (c': Core)
    requires Ok(c) && (c.st.InStr? || c.st.InKey?) && !o.keepEscapes && WellFormed(Unit(hex))
    ensures Reads(o, c, [BACKSLASH, 117] + hex, [], c') && Alike(c', c.(buf := c.buf + Utf8(HexWord(hex))))
  {
    hide OkOut, HexWord, Utf8;
    ReadsBackslash(o, c);
    var c1 := Escaped1(c);
    var c2 := c1.(st := EscU);
    assert Unescaped(117) == -1;
    assert Step(o, c1, 117) == Eat(c2);
    ReadsByte(o, c1, 117);
    c' := c2.(esc := hex, escLen := 4, st := c.st, buf := c.buf + Utf8(HexWord(hex)));
    ReadsHex(o, c2, hex, c');
    Join3(o, c, [BACKSLASH], c1, [117], c2, hex, c');
    assert [BACKSLASH] + [117] == [BACKSLASH, 117];
  }

  /** The first half of a surrogate pair. */
  lemma ReadsHigh(o: Options, c: Core, hex: seq<byte>) returns (c': Core)
    requires Ok(c) && (c.st.InStr? || c.st.InKey?) && !o.keepEscapes && |hex| == 4 && HighSurrogate(HexWord(hex))
    ensures Reads(o, c, [BACKSLASH, 117] + hex, [], c')
    ensures c' == c.(st := U2Backslash, next := c.st, hi := HexWord(hex), escLen := 0, esc := hex)
  {
    hide OkOut, HexWord, Utf8;
    ReadsBackslash(o, c);
    var c1 := Escaped1(c);
    var c2 := c1.(st := EscU);
    assert Unescaped(117) == -1;
    assert Step(o, c1, 117) == Eat(c2);
    ReadsByte(o, c1, 117);
    c' := c2.(esc := hex, st := U2Backslash, hi := HexWord(hex), escLen := 0);
    ReadsHex(o, c2, hex, c');
    Join3(o, c, [BACKSLASH], c1, [117], c2, hex, c');
    assert [BACKSLASH] + [117] == [BACKSLASH, 117];
  }

  /** The second half. */
  lemma ReadsLow(o: Options, c: Core, hex: seq<byte>) returns (c': Core)
    requires Ok(c) && c.st.U2Backslash? && |hex| == 4 && LowSurrogate(HexWord(hex))
    ensures Reads(o, c, [BACKSLASH, 117] + hex, [], c')
    ensures c' == c.(st := c.next, esc := hex, escLen := 4, buf := c.buf + Utf8(Supplementary(c.hi, HexWord(hex))))
  {
    hide OkOut, HexWord, Utf8, Supplementary;
    var c1, c2 := c.(st := U2), c.(st := EscU);
    assert Step(o, c, BACKSLASH) == Eat(c1);
    ReadsByte(o, c, BACKSLASH);
    assert Step(o, c1, 117) == Eat(c2);
    ReadsByte(o, c1, 117);
    c' := c2.(esc := hex, escLen := 4, st := c.next, buf := c.buf + Utf8(Supplementary(c.hi, HexWord(hex))));
    ReadsHex(o, c2, hex, c');
    Join3(o, c, [BACKSLASH], c1, [117], c2, hex, c');
    assert [BACKSLASH] + [117] == [BACKSLASH, 117];
  }

  /** A surrogate pair for any other character. */
  lemma ReadsSurrogates(o: Options, c: Core, high: seq<byte>, low: seq<byte>) returns (c': Core)
    requires Ok(c) && (c.st.InStr? || c.st.InKey?) && !o.keepEscapes && WellFormed(Pair(high, low))
    ensures Reads(o, c, PieceText(Pair(high, low)), [], c')
    ensures Alike(c', c.(buf := c.buf + Utf8(Supplementary(HexWord(high), HexWord(low)))))
  {
    hide Step, OkOut, HexWord, Utf8, Reads, Supplementary;
    var c1 := ReadsHigh(o, c, high);
    c' := ReadsLow(o, c1, low);
    ReadsThen(o, c, [BACKSLASH, 117] + high, c1, [BACKSLASH, 117] + low, [], c');
  }

  lemma Join3(o: Options, c: Core, s1: seq<byte>, c1: Core, s2: seq<byte>, c2: Core, s3: seq<byte>, c3: Core)
    requires Reads(o, c, s1, [], c1) && Reads(o, c1, s2, [], c2) && Reads(o, c2, s3, [], c3)
    ensures Reads(o, c, s1 + s2 + s3, [], c3)
  {
    hide Reads;
    ReadsThen(o, c, s1, c1, s2, [], c2);
    ReadsThen(o, c, s1 + s2, c2, s3, [], c3);
  }

  lemma ReadsPiece(o: Options, c: Core, p: Piece) returns (c': Core)
    requires Ok(c) && (c.st.InStr? || c.st.InKey?) && Allowed(o, p)
    ensures Reads(o, c, PieceText(p), [], c') && Alike(c', c.(buf := c.buf + PieceBytes(p)))
  {
    hide Step, OkOut, Run, Utf8, HexWord, Supplementary, Unescaped;
    match p
    case Direct(b) =>
      c' := c.(buf := c.buf + [b]);
      ReadsDirect(o, c, b);
    case Short(ch) =>
      c' := ReadsShort(o, c, ch);
    case Unit(hex) =>
      c' := ReadsUnicode(o, c, hex);
    case Pair(high, low) =>
      c' := ReadsSurrogates(o, c, high, low);
  }

  lemma {:induction false} ReadsPieces(o: Options, c: Core, ps: seq<Piece>) returns (c': Core)
    requires Ok(c) && (c.st.InStr? || c.st.InKey?) && AllAllowed(o, ps)
    ensures Reads(o, c, PiecesText(ps), [], c') && Alike(c', c.(buf := c.buf + PiecesBytes(ps)))
  {
    hide Step, OkOut, Reads, PieceText, PieceBytes, Allowed, WellFormed;
    AllowedFormed(o, ps);
    if ps == [] {
      ReadsNone(o, c);
      c' := c;
      assert c.buf + [] == c.buf;
    } else {
      var n := |ps| - 1;
      AllowedFormed(o, ps[..n]);
      var c1 := ReadsPieces(o, c, ps[..n]);
      c' := ReadsPiece(o, c1, ps[n]);
      ReadsThen(o, c, PiecesText(ps[..n]), c1, PieceText(ps[n]), [], c');
      assert (c.buf + PiecesBytes(ps[..n])) + PieceBytes(ps[n]) == c.buf + PiecesBytes(ps);
    }
  }

  lemma AllowedFormed(o: Options, ps: seq<Piece>)
    requires AllAllowed(o, ps)
    ensures forall i :: 0 <= i < |ps| ==> WellFormed(ps[i])
  {}

  /** Where a value may start, and what it leaves the reader with. */
  predicate ValueStart(c: Core) { Ok(c) && (c.st.SpcVal? || c.st.SpcArr?) }

  /** The state after a value other than a number. */
  predicate Settled(c: Core, ctxs: seq<Bracket>) { Ok(c) && c.st.SpcAfterVal? && c.ctxs == ctxs }

  /** From the opening quote to the closing one. */
  lemma ReadsQuoted(o: Options, c: Core, ps: seq<Piece>) returns (c': Core)
    requires Ok(c) && (c.st.SpcVal? || c.st.SpcArr? || c.st.SpcObj?) && AllAllowed(o, ps)
    ensures Reads(o, c, InQuotes(ps), [if c.st.SpcObj? then Key(PiecesBytes(ps)) else Str(PiecesBytes(ps))], c')
    ensures if c.st.SpcObj? then Ok(c') && c'.st.AfterKey? && c'.ctxs == c.ctxs else Settled(c', c.ctxs)
  {
    hide OkOut, PiecesText, PiecesBytes, AllAllowed, Reads, Inside;
    AllowedFormed(o, ps);
    var s := PiecesBytes(ps);
    var e := if c.st.SpcObj? then Key(s) else Str(s);
    var c1 := c.(st := if c.st.SpcObj? then InKey else InStr);
    assert Step(o, c, QUOTE) == Eat(c1);
    ReadsByte(o, c, QUOTE);
    var c2 := ReadsPieces(o, c1, ps);
    assert c1.buf + s == s;
    c' := c2.(st := if c.st.SpcObj? then AfterKey else SpcAfterVal);
    assert Step(o, c2, QUOTE) == Emit(c', e);
    ReadsByte(o, c2, QUOTE);
    ReadsThen(o, c, [QUOTE], c1, PiecesText(ps), [], c2);
    ReadsThen(o, c, [QUOTE] + PiecesText(ps), c2, [QUOTE], [e], c');
  }

  lemma ReadsName(o: Options, c: Core, t: Token) returns (c': Core)
    requires Ok(c) && c.st.SpcObj? && t.Name? && Readable(o, t)
    ensures Reads(o, c, TokenText(o, t), [Meaning(o, t)], c')
    ensures Ok(c') && c'.st.SpcVal? && c'.ctxs == c.ctxs
  {
    hide OkOut, InQuotes, PiecesBytes, AllAllowed, Blank, Reads, Inside, GapsText;
    var c1 := ReadsQuoted(o, c, t.pieces);
    var c2 := ReadsGaps(o, c1, t.gap);
    var c3 := c2.(st := SpcVal, buf := []);
    assert Step(o, c2, COLON) == Eat(c3);
    ReadsByte(o, c2, COLON);
    c' := ReadsGaps(o, c3, t.after);
    ReadsThen(o, c2, [COLON], c3, GapsText(t.after), [], c');
    ReadsThen(o, c1, GapsText(t.gap), c2, [COLON] + GapsText(t.after), [], c');
    ReadsJoin(o, c, InQuotes(t.pieces), [Meaning(o, t)], c1, GapsText(t.gap) + ([COLON] + GapsText(t.after)), [], c');
    assert [Meaning(o, t)] + [] == [Meaning(o, t)];
  }

  /** The words `true`, `false` and `null`. */
  lemma ReadsTrue(o: Options, c: Core) returns (c': Core)
    requires ValueStart(c)
    ensures Reads(o, c, TRUE, [Event.Bool(1)], c') && Settled(c', c.ctxs)
  {
    hide OkOut, Reads, Inside;
    var c1 := c.(st := InTrue, escLen := 1);
    var c2, c3 := c1.(escLen := 2), c1.(escLen := 3);
    c' := c1.(st := SpcAfterVal, escLen := 4, intval := 1);
    assert Step(o, c, TRUE[0]) == Eat(c1);
    ReadsByte(o, c, TRUE[0]);
    assert Step(o, c1, TRUE[1]) == Eat(c2);
    ReadsByte(o, c1, TRUE[1]);
    assert Step(o, c2, TRUE[2]) == Eat(c3);
    ReadsByte(o, c2, TRUE[2]);
    assert Step(o, c3, TRUE[3]) == Emit(c', Event.Bool(1));
    ReadsByte(o, c3, TRUE[3]);
    Join3(o, c, [TRUE[0]], c1, [TRUE[1]], c2, [TRUE[2]], c3);
    ReadsThen(o, c, [TRUE[0]] + [TRUE[1]] + [TRUE[2]], c3, [TRUE[3]], [Event.Bool(1)], c');
    assert [TRUE[0]] + [TRUE[1]] + [TRUE[2]] + [TRUE[3]] == TRUE;
  }

  lemma ReadsFalse(o: Options, c: Core) returns (c': Core)
    requires ValueStart(c)
    ensures Reads(o, c, FALSE, [Event.Bool(0)], c') && Settled(c', c.ctxs)
  {
    hide OkOut, Reads, Inside;
    var c1 := c.(st := InFalse, escLen := 1);
    var c2, c3, c4 := c1.(escLen := 2), c1.(escLen := 3), c1.(escLen := 4);
    c' := c1.(st := SpcAfterVal, escLen := 5);
    assert Step(o, c, FALSE[0]) == Eat(c1);
    ReadsByte(o, c, FALSE[0]);
    assert Step(o, c1, FALSE[1]) == Eat(c2);
    ReadsByte(o, c1, FALSE[1]);
    assert Step(o, c2, FALSE[2]) == Eat(c3);
    ReadsByte(o, c2, FALSE[2]);
    assert Step(o, c3, FALSE[3]) == Eat(c4);
    ReadsByte(o, c3, FALSE[3]);
    assert Step(o, c4, FALSE[4]) == Emit(c', Event.Bool(0));
    ReadsByte(o, c4, FALSE[4]);
    Join3(o, c, [FALSE[0]], c1, [FALSE[1]], c2, [FALSE[2]], c3);
    ReadsThen(o, c, [FALSE[0]] + [FALSE[1]] + [FALSE[2]], c3, [FALSE[3]], [], c4);
    ReadsThen(o, c, [FALSE[0]] + [FALSE[1]] + [FALSE[2]] + [FALSE[3]], c4, [FALSE[4]], [Event.Bool(0)], c');
    assert [FALSE[0]] + [FALSE[1]] + [FALSE[2]] + [FALSE[3]] + [FALSE[4]] == FALSE;
  }

  lemma ReadsNull(o: Options, c: Core) returns (c': Core)
    requires ValueStart(c)
    ensures Reads(o, c, NULL, [Event.Null], c') && Settled(c', c.ctxs)
  {
    hide OkOut, Reads, Inside;
    var c1 := c.(st := InNull, escLen := 1);
    var c2, c3 := c1.(escLen := 2), c1.(escLen := 3);
    c' := c1.(st := SpcAfterVal, escLen := 4);
    assert Step(o, c, NULL[0]) == Eat(c1);
    ReadsByte(o, c, NULL[0]);
    assert Step(o, c1, NULL[1]) == Eat(c2);
    ReadsByte(o, c1, NULL[1]);
    assert Step(o, c2, NULL[2]) == Eat(c3);
    ReadsByte(o, c2, NULL[2]);
    assert Step(o, c3, NULL[3]) == Emit(c', Event.Null);
    ReadsByte(o, c3, NULL[3]);
    Join3(o, c, [NULL[0]], c1, [NULL[1]], c2, [NULL[2]], c3);
    ReadsThen(o, c, [NULL[0]] + [NULL[1]] + [NULL[2]], c3, [NULL[3]], [Event.Null], c');
    assert [NULL[0]] + [NULL[1]] + [NULL[2]] + [NULL[3]] == NULL;
  }

  // ---------- numbers ----------

  lemma {:induction false} ReadsNumber(o: Options, c: Core, s: seq<byte>)
    requires Ok(c) && c.st.InNum? && |c.buf| + |s| <= FLTCAP
    requires forall i :: 0 <= i < |s| ==> NumChar(s[i])
    ensures Ok(c.(buf := c.buf + s)) && Reads(o, c, s, [], c.(buf := c.buf + s))
    decreases |s|
  {
    hide OkOut, NumChar;
    if s == [] {
      ReadsNone(o, c);
      assert c.buf + s == c.buf;
    } else {
      var c1 := c.(buf := c.buf + [s[0]]);
      assert Step(o, c, s[0]) == Eat(c1);
      ReadsByte(o, c, s[0]);
      ReadsNumber(o, c1, s[1..]);
      assert c1.buf + s[1..] == c.buf + s;
      ReadsThen(o, c, [s[0]], c1, s[1..], [], c.(buf := c.buf + s));
      assert [s[0]] + s[1..] == s;
    }
  }

  /** A number is read up to its last character; its event is still pending. */
  lemma ReadsNumberText(o: Options, c: Core, s: seq<byte>) returns (c': Core)
    requires ValueStart(c) && NumText(o, s)
    ensures Reads(o, c, s, [], c') && Ended(o, c') && c'.st.InNum? && c'.ctxs == c.ctxs
    ensures Pending(c') == [NumEvent(s)]
  {
    hide OkOut, ToInt, Inside, NumChar;
    var c1 := c.(st := InNum);
    NumStarts(s[0]);
    assert Step(o, c, s[0]) == Again(c1);
    ReadsAgain(o, c, s);
    c' := c1.(buf := c1.buf + s);
    assert c1.buf + s == s;
    ReadsNumber(o, c1, s);
  }

  lemma NumStarts(ch: byte)
    requires NumChar(ch)
    ensures !IsSpace(ch) && ch != SLASH && ch != QUOTE && ch != TRUE[0] && ch != FALSE[0] && ch != NULL[0]
    ensures ch != LBRACKET && ch != RBRACKET && ch != LBRACE
  {}

  // ---------- one token ----------

  /** The reader and the grammar at the same place; `first`: no comma is due. */
  ghost predicate Sync(o: Options, first: bool, c: Core, g: Place) {
    && Ok(c) && c.ctxs == g.open
    && match g.want
       case Value => first && c.st.SpcVal?
       case Member =>
         && |g.open| > 0
         && (if !first then Ended(o, c) else if Inside(g.open, Square) then c.st.SpcArr? else c.st.SpcObj?)
       case Nothing => |g.open| == 0 && !first && Ended(o, c)
  }

  /** The events of one token that are returned at once; a number comes later. */
  function AtOnce(e: Event): seq<Event> { if e.Int? || e.Num? then [] else [e] }
  function Later(e: Event): seq<Event> { if e.Int? || e.Num? then [e] else [] }

  /** Up to the next token, past a comma. */
  lemma ReadsPastComma(o: Options, c: Core, s: Spelling) returns (c': Core)
    requires Ended(o, c) && |c.ctxs| > 0 && Blank(o, s.before) && Blank(o, s.between)
    ensures Reads(o, c, GapsText(s.before) + ([COMMA] + GapsText(s.between)), Pending(c), c')
    ensures Ok(c') && c'.ctxs == c.ctxs && c'.st == Separated(c).st
  {
    hide OkOut, ToInt, Reads, NumChar, NumText, Blank, GapsText, OkAt;
    var x := GapsText(s.before) + ([COMMA] + GapsText(s.between));
    CommaEnds();
    BeforeEnds(o, s.before, [COMMA] + GapsText(s.between));
    PendingFirst(o, c, x);
    var r := Rested(c);
    var r1 := ReadsGaps(o, r, s.before);
    ReadsComma(o, r1);
    c' := ReadsGaps(o, Separated(r1), s.between);
    Join3(o, r, GapsText(s.before), r1, [COMMA], Separated(r1), GapsText(s.between), c');
    assert GapsText(s.before) + [COMMA] + GapsText(s.between) == x;
    ReadsAfter(o, c, x, [], c');
    assert Pending(c) + [] == Pending(c);
  }

  /** Up to the next token, without a comma. */
  lemma ReadsTo(o: Options, c: Core, s: Spelling) returns (c': Core)
    requires Ok(c) && Skipping(c.st) && Blank(o, s.before) && Blank(o, s.between)
    ensures Reads(o, c, GapsText(s.before) + ([] + GapsText(s.between)), [], c') && Resumed(c, c')
  {
    hide OkOut, Reads, Blank, GapsText, OkAt;
    var c1 := ReadsGaps(o, c, s.before);
    c' := ReadsGaps(o, c1, s.between);
    ReadsThen(o, c, GapsText(s.before), c1, GapsText(s.between), [], c');
    assert [] + GapsText(s.between) == GapsText(s.between);
  }

  /** The space and the comma before a value or key. */
  lemma ReadsSeparator(o: Options, first: bool, c: Core, g: Place, s: Spelling, e: Event) returns (c': Core)
    requires Sync(o, first, c, g) && Next(g, e).Some? && !Closing(e) && Blank(o, s.before) && Blank(o, s.between)
    ensures Reads(o, c, Separator(first, s, e), Pending(c), c') && Ok(c') && c'.ctxs == c.ctxs
    ensures if e.Key? then c'.st.SpcObj? else c'.st.SpcVal? || c'.st.SpcArr?
  {
    hide OkOut, ToInt, Reads, NumText, Blank, GapsText;
    if first {
      c' := ReadsTo(o, c, s);
    } else {
      c' := ReadsPastComma(o, c, s);
    }
  }

  lemma BeforeEnds(o: Options, before: seq<Gap>, rest: seq<byte>)
    requires Blank(o, before) && rest != [] && !NumChar(rest[0])
    ensures var x := GapsText(before) + rest; x != [] && !NumChar(x[0])
  {
    hide GapText, GapFits;
    if before != [] { GapEnds(o, before); }
  }

  lemma ReadsOpen(o: Options, c: Core, e: Event) returns (c': Core)
    requires ValueStart(c) && (e.ArrOpen? || e.ObjOpen?)
    ensures Reads(o, c, Mark(e), [e], c')
    ensures Ok(c') && c'.ctxs == c.ctxs + [if e.ArrOpen? then Square else Curly]
    ensures if e.ArrOpen? then c'.st.SpcArr? else c'.st.SpcObj?
  {
    hide OkOut;
    var b := if e.ArrOpen? then Square else Curly;
    c' := c.(st := if e.ArrOpen? then SpcArr else SpcObj, ctxs := c.ctxs + [b]);
    var ch := if e.ArrOpen? then LBRACKET else LBRACE;
    assert Step(o, c, ch) == Emit(c', e);
    ReadsByte(o, c, ch);
  }

  /** A closing bracket with the space before it, and perhaps a comma. */
  lemma ReadsClosing(o: Options, first: bool, c: Core, g: Place, s: Spelling, e: Event) returns (c': Core)
    requires Sync(o, first, c, g) && Next(g, e).Some? && Closing(e) && Blank(o, s.before) && Blank(o, s.between)
    ensures Reads(o, c, Separator(first, s, e) + Mark(e), Pending(c) + [e], c')
    ensures Sync(o, false, c', Next(g, e).value) && Pending(c') == []
  {
    hide OkOut, ToInt, Reads, NumChar, NumText, Blank, GapsText;
    var b := if e.ArrClose? then Square else Curly;
    var t := [CloseByte(b)];
    var x := Separator(first, s, e);
    if first {
      var c1 := ReadsTo(o, c, s);
      c' := Closed(c1);
      ReadsCloseEmpty(o, c1);
      ReadsJoin(o, c, x, [], c1, t, [e], c');
    } else if HasComma(first, s, e) {
      var c1 := ReadsPastComma(o, c, s);
      c' := Closed(c1);
      ReadsCloseEmpty(o, c1);
      ReadsJoin(o, c, x, Pending(c), c1, t, [e], c');
    } else {
      c' := ReadsClosingLater(o, c, s, b);
      assert x + t == GapsText(s.before) + ([] + GapsText(s.between)) + t;
    }
  }

  /** Without a comma, after a value. */
  lemma ReadsClosingLater(o: Options, c: Core, s: Spelling, b: Bracket) returns (c': Core)
    requires Ended(o, c) && Inside(c.ctxs, b) && Blank(o, s.before) && Blank(o, s.between)
    ensures Reads(o, c, GapsText(s.before) + ([] + GapsText(s.between)) + [CloseByte(b)],
                  Pending(c) + [CloseEvent(b)], c')
    ensures Ok(c') && c'.st.SpcAfterVal? && c'.ctxs == Popped(c.ctxs)
  {
    hide OkOut, ToInt, Reads, NumChar, NumText, Blank, GapsText, OkAt;
    var u, v, t := GapsText(s.before), GapsText(s.between), [CloseByte(b)];
    CommaEnds();
    BeforeEnds(o, s.between, t);
    BeforeEnds(o, s.before, v + t);
    var x := u + ([] + v) + t;
    assert u + (v + t) == x;
    PendingFirst(o, c, x);
    var r := Rested(c);
    var r1 := ReadsTo(o, r, s);
    ReadsClose(o, r1, b);
    c' := Closed(r1);
    ReadsThen(o, r, u + ([] + v), r1, t, [CloseEvent(b)], c');
    ReadsAfter(o, c, x, [CloseEvent(b)], c');
  }

  /** A value that is not a bracket. */
  lemma ReadsScalar(o: Options, c: Core, t: Token) returns (c': Core)
    requires ValueStart(c) && Readable(o, t) && !t.Name?
    requires t.Sign? ==> t.e.Null? || t.e.Bool?
    ensures Reads(o, c, TokenText(o, t), AtOnce(Meaning(o, t)), c')
    ensures Ended(o, c') && c'.ctxs == c.ctxs && Pending(c') == Later(Meaning(o, t))
  {
    hide OkOut, ToInt, Reads, Ok, InQuotes, AllAllowed, NumText, PiecesBytes;
    match t
    case Sign(e) =>
      if e.Null? { c' := ReadsNull(o, c); }
      else if e.b == 0 { c' := ReadsFalse(o, c); }
      else { c' := ReadsTrue(o, c); }
    case Quote(ps) => c' := ReadsQuoted(o, c, ps);
    case Number(text) => c' := ReadsNumberText(o, c, text);
  }

  /** One token is read as its event. */
  lemma ReadsToken(o: Options, first: bool, c: Core, g: Place, s: Spelling) returns (c': Core)
    requires Legible(o, s) && Sync(o, first, c, g) && Next(g, Meaning(o, s.token)).Some?
    ensures var e := Meaning(o, s.token);
      && Reads(o, c, SpellingText(o, first, s), Pending(c) + AtOnce(e), c')
      && Sync(o, Introduces(e), c', Next(g, e).value) && Pending(c') == Later(e)
  {
    hide OkOut, ToInt, Separator, Reads, Blank, NumText, AllAllowed, InQuotes, PiecesBytes, GapsText;
    var t, e := s.token, Meaning(o, s.token);
    if Closing(e) {
      c' := ReadsClosing(o, first, c, g, s, e);
    } else {
      var c1 := ReadsSeparator(o, first, c, g, s, e);
      if e.Key? {
        c' := ReadsName(o, c1, t);
      } else if e.ArrOpen? || e.ObjOpen? {
        c' := ReadsOpen(o, c1, e);
      } else {
        c' := ReadsScalar(o, c1, t);
      }
      ReadsJoin(o, c, Separator(first, s, e), Pending(c), c1, TokenText(o, t), AtOnce(e), c');
    }
  }

  // ---------- whole documents ----------

  /** Whether nothing stands before the next token that a comma would separate it from. */
  function FirstAfter(first: bool, evs: seq<Event>): bool {
    if evs == [] then first else Introduces(evs[|evs| - 1])
  }

  lemma {:induction false} ReadsTokens(o: Options, first: bool, c: Core, g: Place, ts: seq<Spelling>)
    returns (c': Core, now: seq<Event>)
    requires AllLegible(o, ts) && Sync(o, first, c, g) && Follow(g, Meanings(o, ts)).Some?
    ensures Reads(o, c, DocumentText(o, first, ts), now, c') && now + Pending(c') == Pending(c) + Meanings(o, ts)
    ensures Sync(o, FirstAfter(first, Meanings(o, ts)), c', Follow(g, Meanings(o, ts)).value)
    ensures ts != [] ==> Pending(c') == Later(Meaning(o, ts[|ts| - 1].token))
    decreases |ts|
  {
    hide Sync, Reads, SpellingText, Next, Pending, Meaning, Legible, Ok, FirstAfter;
    if ts == [] {
      FirstNone(first);
      SyncOk(o, first, c, g);
      ReadsNone(o, c);
      c', now := c, [];
      assert [] + Pending(c) == Pending(c) + [];
    } else {
      TokenReadable(o, ts[0]);
      var e := Meaning(o, ts[0].token);
      var evs := Meanings(o, ts);
      assert evs[0] == e && evs[1..] == Meanings(o, ts[1..]);
      var c1 := ReadsToken(o, first, c, g, ts[0]);
      var later;
      c', later := ReadsTokens(o, Introduces(e), c1, Next(g, e).value, ts[1..]);
      now := (Pending(c) + AtOnce(e)) + later;
      ReadsJoin(o, c, SpellingText(o, first, ts[0]), Pending(c) + AtOnce(e), c1,
                DocumentText(o, Introduces(e), ts[1..]), later, c');
      FirstNext(first, evs);
      Gathered(Pending(c), e, later, Pending(c'), evs);
      if |ts| == 1 { OnlyOne(o, Introduces(e), c1, later, c', ts); }
    }
  }

  lemma FirstNone(first: bool)
    ensures FirstAfter(first, []) == first
  {}

  lemma FirstNext(first: bool, evs: seq<Event>)
    requires evs != []
    ensures FirstAfter(first, evs) == FirstAfter(Introduces(evs[0]), evs[1..])
  {}

  lemma TokenReadable(o: Options, s: Spelling)
    requires Legible(o, s)
    ensures Readable(o, s.token)
  {}

  lemma Gathered(before: seq<Event>, e: Event, later: seq<Event>, after: seq<Event>, evs: seq<Event>)
    requires evs != [] && evs[0] == e && later + after == Later(e) + evs[1..]
    ensures ((before + AtOnce(e)) + later) + after == before + evs
  {
    assert AtOnce(e) + Later(e) == [e];
    assert ((before + AtOnce(e)) + later) + after == before + (AtOnce(e) + (later + after));
    assert AtOnce(e) + (Later(e) + evs[1..]) == (AtOnce(e) + Later(e)) + evs[1..] == evs;
  }

  lemma SyncOk(o: Options, first: bool, c: Core, g: Place)
    requires Sync(o, first, c, g)
    ensures Ok(c)
  {}

  lemma OnlyOne(o: Options, first: bool, c: Core, evs: seq<Event>, c': Core, ts: seq<Spelling>)
    requires |ts| == 1 && AllLegible(o, ts) && Reads(o, c, DocumentText(o, first, ts[1..]), evs, c')
    ensures c' == c
  {}

  /** A document that is one number and nothing else. */
  predicate BareNumber(evs: seq<Event>) { |evs| == 1 && (evs[0].Int? || evs[0].Num?) }

  lemma {:induction false} NotStart(g: Place, evs: seq<Event>)
    requires evs != [] && Follow(g, evs).Some?
    ensures var h := Follow(g, evs).value; !(h.want.Value? && |h.open| == 0)
    decreases |evs|
  {
    if |evs| == 1 {
    } else {
      NotStart(Next(g, evs[0]).value, evs[1..]);
    }
  }

  /** A complete document that ends in a number is that number alone. */
  lemma LastNumber(evs: seq<Event>)
    requires Complete(evs) && evs != [] && (evs[|evs| - 1].Int? || evs[|evs| - 1].Num?)
    ensures BareNumber(evs)
  {
    var n := |evs| - 1;
    assert evs == evs[..n] + [evs[n]];
    FollowAppend(START, evs[..n], [evs[n]]);
    var g := Follow(START, evs[..n]).value;
    assert Follow(g, [evs[n]]).Some? && Follow(g, [evs[n]]) == Next(g, evs[n]);
    if n > 0 { NotStart(START, evs[..n]); }
  }

  /** What may follow a document; a comment up to the end of its line may be open. */
  datatype Tail = Tail(gaps: seq<Gap>, open: Option<seq<byte>>)

  const NO_TAIL: Tail := Tail([], None)

  predicate TailFits(o: Options, t: Tail) {
    Blank(o, t.gaps) && (t.open.Some? ==> o.comments && NEWLINE !in t.open.value)
  }

  function TailText(t: Tail): seq<byte> {
    GapsText(t.gaps) + if t.open.None? then [] else [SLASH, SLASH] + t.open.value
  }

  lemma NoTail()
    ensures TailText(NO_TAIL) == [] && forall o :: TailFits(o, NO_TAIL)
  {}

  lemma ReadsRest(o: Options, c: Core, t: Tail) returns (c': Core)
    requires Ok(c) && Skipping(c.st) && TailFits(o, t)
    ensures Reads(o, c, TailText(t), [], c') && c'.ctxs == c.ctxs
    ensures if t.open.None? then c'.st == c.st else c'.st.CmtLn?
  {
    hide Reads, OkAt, Blank, GapsText;
    var c1 := ReadsGaps(o, c, t.gaps);
    if t.open.None? {
      c' := c1;
      assert GapsText(t.gaps) + [] == GapsText(t.gaps);
    } else {
      c' := ReadsOpening(o, c1, SLASH);
      ReadsLine(o, c', t.open.value);
      ReadsThen(o, c1, [SLASH, SLASH], c', t.open.value, [], c');
      ReadsThen(o, c, GapsText(t.gaps), c1, [SLASH, SLASH] + t.open.value, [], c');
    }
  }

  lemma ReadsTail(o: Options, c: Core, t: Tail) returns (c': Core)
    requires Ended(o, c) && TailFits(o, t) && t != NO_TAIL
    ensures Reads(o, c, TailText(t), Pending(c), c') && (c'.st.SpcAfterVal? || c'.st.CmtLn?) && c'.ctxs == c.ctxs
  {
    hide Ok, ToInt, NumChar, Reads, NumText;
    TailEnds(o, t);
    PendingFirst(o, c, TailText(t));
    c' := ReadsRest(o, Rested(c), t);
    ReadsAfter(o, c, TailText(t), [], c');
    assert Pending(c) + [] == Pending(c);
  }

  lemma TailEnds(o: Options, t: Tail)
    requires TailFits(o, t) && t != NO_TAIL
    ensures TailText(t) != [] && !NumChar(TailText(t)[0])
  {
    if t.gaps != [] { GapEnds(o, t.gaps); }
  }

  /** The end of a complete document. */
  lemma SyncEnd(o: Options, first: bool, c: Core, g: Place)
    requires Sync(o, first, c, g) && g.want.Nothing?
    ensures Ended(o, c) && |c.ctxs| == 0
  {}

  /** However a complete document is spelled, and whatever follows it, it is read as its
      events and the end is accepted, unless it is a bare number that nothing follows. */
  lemma AnySpelling(o: Options, ts: seq<Spelling>, tail: Tail)
    requires AllLegible(o, ts) && Complete(Meanings(o, ts)) && TailFits(o, tail)
    ensures var r := Run(o, INIT, DocumentText(o, true, ts) + TailText(tail));
      var bare := BareNumber(Meanings(o, ts)) && tail == NO_TAIL;
      && r.end.More?
      && (r.evs == Meanings(o, ts) && Fin(r.end.c) <==> !bare)
      && (bare ==> r.evs == [] && !Fin(r.end.c))
  {
    hide Next, Legible, Run, ToInt, DocumentText, Ok, NumText, TailFits;
    InitSync(o);
    var evs := Meanings(o, ts);
    var c, now := ReadsTokens(o, true, INIT, START, ts);
    SyncEnd(o, FirstAfter(true, evs), c, Follow(START, evs).value);
    assert Pending(INIT) + evs == evs;
    if tail != NO_TAIL {
      var c' := ReadsTail(o, c, tail);
      ReadsJoin(o, INIT, DocumentText(o, true, ts), now, c, TailText(tail), Pending(c), c');
    } else {
      assert DocumentText(o, true, ts) + TailText(tail) == DocumentText(o, true, ts);
      if c.st.InNum? {
        assert |now| == |evs| - 1;
        LastIs(o, ts);
        LastNumber(evs);
      } else {
        assert now + [] == now;
        if BareNumber(evs) { LastIs(o, ts); }
      }
    }
  }

  lemma InitSync(o: Options)
    ensures Sync(o, true, INIT, START)
  {}

  lemma {:induction false} LastIs(o: Options, ts: seq<Spelling>)
    requires AllLegible(o, ts) && ts != []
    ensures Meanings(o, ts)[|ts| - 1] == Meaning(o, ts[|ts| - 1].token)
  {
    hide Legible, Meaning;
    if |ts| == 1 {
    } else {
      LastIs(o, ts[1..]);
    }
  }
}
