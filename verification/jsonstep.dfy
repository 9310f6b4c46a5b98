/** The JSON reader of ffbase/json.h as a function of one byte.

    `Step` is one pass through the switch of `ffjson_parse`; it keeps the invariant `Ok` of
    the reader's fields.  `Run` feeds it a whole text, `Offsets` says how many bytes are
    used up when each event is returned, and `Used` where reading ends.  Reading a text in
    pieces is reading it at once (`RunAppend`, `OffsetsAppend`, `UsedAppend`).
  */
module JsonStep {
  import opened JsonText

  /** What `ffjson_parse` returns, with the value it leaves in `val` or `intval`. */
  datatype Event =
    | Null
    | Str(s: seq<byte>)
    | Int(i: int)
    | Num(text: seq<byte>)
    | Bool(b: int)
    | ArrOpen
    | ArrClose
    | ObjOpen
    | Key(s: seq<byte>)
    | ObjClose

  datatype Error =
    | BadChar | BadStr | BadEscape | BadBool | BadNull | BadCtx | BadComment | Large | Finished | Incomplete

  datatype State =
    | SpcVal | SpcArr
    | Cmt | CmtSl | CmtLn | CmtMln | CmtMlnSl
    | InStr | InKey | Esc | EscU | U2Backslash | U2
    | InNum | InTrue | InFalse | InNull
    | SpcAfterVal | AfterVal
    | SpcObj | AfterKey

  /** Flags, and which texts `ffs_tofloat` reads to the end. */
  datatype Options = Options(comments: bool, keepEscapes: bool, isFloat: seq<byte> -> bool)

  /** An entry of the context stack. */
  datatype Bracket = Square | Curly

  /** The fields of `struct ffjson` that decide what happens next. */
  datatype Core = Core(st: State, next: State, buf: seq<byte>, ctxs: seq<Bracket>,
                       esc: seq<byte>, escLen: nat, hi: nat, intval: int)

  /** One pass through the switch: the byte is used up (`Eat`, `Emit`) or looked at
      again (`Again`, `Hold`), with an event or without. */
  datatype Out =
    | Eat(c: Core) | Again(c: Core) | Emit(c: Core, e: Event) | Hold(c: Core, e: Event) | Fail(err: Error)

  const FLTCAP: nat := 65

  const INIT: Core := Core(SpcVal, SpcVal, [], [], [0, 0, 0, 0], 0, 0, 0)

  // ---------- what every step keeps ----------

  predicate Inside(ctxs: seq<Bracket>, bracket: Bracket) {
    |ctxs| > 0 && ctxs[|ctxs| - 1] == bracket
  }

  /** A state from which spaces and comments are skipped. */
  predicate Skipping(st: State) {
    st.SpcVal? || st.SpcArr? || st.SpcAfterVal? || st.SpcObj? || st.AfterKey?
  }

  /** Outside of comments and escapes. */
  predicate OkAt(c: Core, st: State) {
    && (!st.SpcAfterVal? && !st.AfterVal? ==> c.intval == 0)
    && (st.SpcVal? || st.SpcArr? || st.SpcObj? || st.InTrue? || st.InFalse? || st.InNull? ==> |c.buf| == 0)
    && (st.SpcArr? ==> Inside(c.ctxs, Square))
    && (st.SpcObj? || st.InKey? || st.AfterKey? ==> Inside(c.ctxs, Curly))
    && (st.InNum? ==> |c.buf| <= FLTCAP)
    && (st.InTrue? || st.InNull? ==> 1 <= c.escLen < 4)
    && (st.InFalse? ==> 1 <= c.escLen < 5)
  }

  predicate Commenting(st: State) {
    st.Cmt? || st.CmtSl? || st.CmtLn? || st.CmtMln? || st.CmtMlnSl?
  }

  predicate Escaping(st: State) {
    st.Esc? || st.EscU? || st.U2Backslash? || st.U2?
  }

  /** The state that a comment or an escape returns to. */
  function Base(c: Core): State {
    if Commenting(c.st) || Escaping(c.st) then c.next else c.st
  }

  predicate Ok(c: Core) {
    && |c.esc| == 4
    && OkAt(c, Base(c))
    && (Commenting(c.st) ==> Skipping(c.next))
    && (Escaping(c.st) ==>
      && (c.next.InStr? || c.next.InKey?) && (c.hi == 0 || HighSurrogate(c.hi))
      && (!c.st.Esc? ==> c.escLen < 4)
      && (c.st.Esc? ==> c.hi == 0 && c.escLen == 0)
      && (c.st.U2? || c.st.U2Backslash? ==> c.hi != 0 && c.escLen == 0))
  }

  /** The invariant holds after the step, and a byte is looked at again only finitely often. */
  predicate OkOut(o: Out, st: State) {
    match o
    case Eat(c) => Ok(c)
    case Again(c) => Ok(c) && Rank(c.st) < Rank(st)
    case Emit(c, _) => Ok(c)
    case Hold(c, _) => Ok(c) && Rank(c.st) < Rank(st)
    case Fail(_) => true
  }

  /** How often the same byte can still be looked at again. */
  function Rank(st: State): nat {
    if st.SpcVal? || st.SpcArr? || st.SpcObj? || st.AfterKey? then 4
    else if st.InNum? then 3
    else if st.SpcAfterVal? then 2
    else if st.AfterVal? || st.Cmt? then 1
    else 0
  }

  // ---------- one pass through the switch ----------

  function Popped(ctxs: seq<Bracket>): seq<Bracket>
    requires |ctxs| > 0
  { ctxs[..|ctxs| - 1] }

  /** A slash where space may stand. */
  function StepSlash(c: Core): Out { Again(c.(next := c.st, st := Cmt)) }

  function StepBracket(c: Core, ch: byte): (r: Out)
    requires Ok(c) && (c.st.SpcVal? || c.st.SpcArr?)
    ensures OkOut(r, c.st)
  {
    if ch == LBRACKET then Emit(c.(st := SpcArr, ctxs := c.ctxs + [Square]), ArrOpen)
    else if ch == RBRACKET then
      if !c.st.SpcArr? then Fail(BadChar) else Emit(c.(st := SpcAfterVal, ctxs := Popped(c.ctxs)), ArrClose)
    else if ch == LBRACE then Emit(c.(st := SpcObj, ctxs := c.ctxs + [Curly]), ObjOpen)
    else Again(c.(st := InNum))
  }

  function StepValue(c: Core, ch: byte): (r: Out)
    requires Ok(c) && (c.st.SpcVal? || c.st.SpcArr?)
    ensures OkOut(r, c.st)
  {
    if IsSpace(ch) then Eat(c)
    else if ch == SLASH then StepSlash(c)
    else if ch == QUOTE then Eat(c.(st := InStr))
    else if ch == TRUE[0] then Eat(c.(st := InTrue, escLen := 1))
    else if ch == FALSE[0] then Eat(c.(st := InFalse, escLen := 1))
    else if ch == NULL[0] then Eat(c.(st := InNull, escLen := 1))
    else StepBracket(c, ch)
  }

  function StepComment(o: Options, c: Core, ch: byte): (r: Out)
    requires Ok(c) && Commenting(c.st)
    ensures OkOut(r, c.st)
  {
    if c.st.Cmt? then
      if !o.comments then Fail(BadComment) else Eat(c.(st := CmtSl))
    else if c.st.CmtSl? then
      if ch == SLASH then Eat(c.(st := CmtLn))
      else if ch == STAR then Eat(c.(st := CmtMln))
      else Fail(BadComment)
    else if c.st.CmtLn? then
      if ch == NEWLINE then Eat(c.(st := c.next)) else Eat(c)
    else if c.st.CmtMln? then
      if ch == STAR then Eat(c.(st := CmtMlnSl)) else Eat(c)
    else
      if ch == SLASH then Eat(c.(st := c.next)) else Eat(c.(st := CmtMln))
  }

  function StepString(o: Options, c: Core, ch: byte): (r: Out)
    requires Ok(c) && (c.st.InStr? || c.st.InKey?)
    ensures OkOut(r, c.st)
  {
    if ch == QUOTE then
      if c.st.InKey? then Emit(c.(st := AfterKey), Key(c.buf)) else Emit(c.(st := SpcAfterVal), Str(c.buf))
    else if ch == BACKSLASH && !o.keepEscapes then Eat(c.(st := Esc, next := c.st, escLen := 0, hi := 0))
    else if ch < 0x20 || ch == DELETE then Fail(BadStr)
    else Eat(c.(buf := c.buf + [ch]))
  }

  /** A complete 16-bit number of a `\u` escape. */
  function StepWord(c: Core, w: int): Out
    requires -1 <= w < 0x1_0000 && (c.hi == 0 || HighSurrogate(c.hi))
  {
    if w < 0 then Fail(BadEscape)
    else if Basic(w) then
      if c.hi != 0 then Fail(BadEscape) else Eat(c.(st := c.next, buf := c.buf + Utf8(w)))
    else if HighSurrogate(w) then
      if c.hi != 0 then Fail(BadEscape) else Eat(c.(st := U2Backslash, hi := w, escLen := 0))
    else if c.hi == 0 then Fail(BadEscape)
    else Eat(c.(st := c.next, buf := c.buf + Utf8(Supplementary(c.hi, w))))
  }

  /** The character after a backslash. */
  function StepEscaped(c: Core, ch: byte): (r: Out)
    requires Ok(c) && c.st.Esc?
    ensures OkOut(r, c.st)
  {
    if Unescaped(ch) >= 0 then Eat(c.(st := c.next, buf := c.buf + Utf8(Unescaped(ch))))
    else if ch == 117 then Eat(c.(st := EscU))
    else Fail(BadEscape)
  }

  /** A digit of a 16-bit number. */
  function StepHex(c: Core, ch: byte): (r: Out)
    requires Ok(c) && c.st.EscU?
    ensures OkOut(r, c.st)
  {
    var c1 := c.(esc := c.esc[c.escLen := ch], escLen := c.escLen + 1);
    if c1.escLen != 4 then Eat(c1) else StepWord(c1, HexWord(c1.esc))
  }

  function StepEscape(c: Core, ch: byte): (r: Out)
    requires Ok(c) && Escaping(c.st)
    ensures OkOut(r, c.st)
  {
    if c.st.Esc? then StepEscaped(c, ch)
    else if c.st.U2Backslash? then
      if ch != BACKSLASH then Fail(BadEscape) else Eat(c.(st := U2))
    else if c.st.U2? then
      if ch != 117 then Fail(BadEscape) else Eat(c.(st := EscU))
    else StepHex(c, ch)
  }

  predicate NumChar(ch: byte) {
    ch == MINUS || ch == PLUS || ch == DOT || ch == 101 || ch == 69 || IsDigit(ch)
  }

  /** The end of a number: what it is reported as. */
  ghost function StepNumEnd(o: Options, c: Core): Out {
    var t := ToInt(c.buf);
    var i := if t.used > 0 then t.val else c.intval;
    if |c.buf| == 0 then Fail(BadChar)
    else if t.used == |c.buf| then Hold(c.(st := SpcAfterVal, intval := i), Int(i))
    else if o.isFloat(c.buf) then Hold(c.(st := SpcAfterVal, intval := i), Num(c.buf))
    else Fail(BadChar)
  }

  ghost function StepNumber(o: Options, c: Core, ch: byte): (r: Out)
    requires Ok(c) && c.st.InNum?
    ensures OkOut(r, c.st)
  {
    if !NumChar(ch) then StepNumEnd(o, c)
    else if |c.buf| == FLTCAP then Fail(Large)
    else Eat(c.(buf := c.buf + [ch]))
  }

  function StepLiteral(c: Core, ch: byte): (r: Out)
    requires Ok(c) && (c.st.InTrue? || c.st.InFalse? || c.st.InNull?)
    ensures OkOut(r, c.st)
  {
    if c.st.InTrue? then
      if ch != TRUE[c.escLen] then Fail(BadBool)
      else if c.escLen + 1 == 4 then Emit(c.(st := SpcAfterVal, escLen := 4, intval := 1), Bool(1))
      else Eat(c.(escLen := c.escLen + 1))
    else if c.st.InFalse? then
      if ch != FALSE[c.escLen] then Fail(BadBool)
      else if c.escLen + 1 == 5 then Emit(c.(st := SpcAfterVal, escLen := 5), Bool(c.intval))
      else Eat(c.(escLen := c.escLen + 1))
    else
      if ch != NULL[c.escLen] then Fail(BadNull)
      else if c.escLen + 1 == 4 then Emit(c.(st := SpcAfterVal, escLen := 4), Null)
      else Eat(c.(escLen := c.escLen + 1))
  }

  function StepAfter(c: Core, ch: byte): (r: Out)
    requires Ok(c) && c.st.AfterVal?
    ensures OkOut(r, c.st)
  {
    var c1 := c.(intval := 0, buf := []);
    if |c.ctxs| == 0 then Fail(Finished)
    else if ch == COMMA then Eat(c1.(st := if Inside(c.ctxs, Curly) then SpcObj else SpcVal))
    else if ch == RBRACKET then
      if !Inside(c.ctxs, Square) then Fail(BadCtx) else Emit(c1.(st := SpcAfterVal, ctxs := Popped(c.ctxs)), ArrClose)
    else if ch == RBRACE then
      if !Inside(c.ctxs, Curly) then Fail(BadCtx) else Emit(c1.(st := SpcAfterVal, ctxs := Popped(c.ctxs)), ObjClose)
    else Fail(BadChar)
  }

  function StepObject(c: Core, ch: byte): (r: Out)
    requires Ok(c) && c.st.SpcObj?
    ensures OkOut(r, c.st)
  {
    if IsSpace(ch) then Eat(c)
    else if ch == SLASH then StepSlash(c)
    else if ch == QUOTE then Eat(c.(st := InKey))
    else if ch == RBRACE then Emit(c.(st := SpcAfterVal, ctxs := Popped(c.ctxs)), ObjClose)
    else Fail(BadChar)
  }

  function StepColon(c: Core, ch: byte): (r: Out)
    requires Ok(c) && c.st.AfterKey?
    ensures OkOut(r, c.st)
  {
    if IsSpace(ch) then Eat(c)
    else if ch == SLASH then StepSlash(c)
    else if ch == COLON then Eat(c.(st := SpcVal, buf := []))
    else Fail(BadChar)
  }

  function StepSpace(c: Core, ch: byte): (r: Out)
    requires Ok(c) && c.st.SpcAfterVal?
    ensures OkOut(r, c.st)
  {
    if IsSpace(ch) then Eat(c)
    else if ch == SLASH then StepSlash(c)
    else Again(c.(st := AfterVal))
  }

  /** Every step keeps the invariant. */
  ghost function Step(o: Options, c: Core, ch: byte): (r: Out)
    requires Ok(c)
    ensures OkOut(r, c.st)
  {
    if c.st.SpcVal? || c.st.SpcArr? then StepValue(c, ch)
    else if c.st.InStr? || c.st.InKey? then StepString(o, c, ch)
    else if c.st.InNum? then StepNumber(o, c, ch)
    else if c.st.InTrue? || c.st.InFalse? || c.st.InNull? then StepLiteral(c, ch)
    else if c.st.SpcAfterVal? then StepSpace(c, ch)
    else if c.st.AfterVal? then StepAfter(c, ch)
    else if c.st.SpcObj? then StepObject(c, ch)
    else if c.st.AfterKey? then StepColon(c, ch)
    else if Commenting(c.st) then StepComment(o, c, ch)
    else StepEscape(c, ch)
  }

  // ---------- a whole text ----------

  datatype End = More(c: Core) | Error(err: Error)
  datatype Result = Result(evs: seq<Event>, end: End)

  function Prefix(evs: seq<Event>, r: Result): Result { Result(evs + r.evs, r.end) }

  ghost function Run(o: Options, c: Core, s: seq<byte>): (r: Result)
    requires Ok(c)
    ensures r.end.More? ==> Ok(r.end.c)
    decreases |s|, Rank(c.st)
  {
    if s == [] then Result([], More(c)) else
    match Step(o, c, s[0])
    case Eat(c') => Run(o, c', s[1..])
    case Again(c') => Run(o, c', s)
    case Emit(c', e) => Prefix([e], Run(o, c', s[1..]))
    case Hold(c', e) => Prefix([e], Run(o, c', s))
    case Fail(err) => Result([], Error(err))
  }

  /** How many bytes are used up when each event is returned, from k on. */
  ghost function Offsets(o: Options, c: Core, s: seq<byte>, k: nat): (r: seq<nat>)
    requires Ok(c)
    ensures |r| == |Run(o, c, s).evs|
    ensures forall i :: 0 <= i < |r| ==> k <= r[i] <= k + |s|
    decreases |s|, Rank(c.st)
  {
    if s == [] then [] else
    match Step(o, c, s[0])
    case Eat(c') => Offsets(o, c', s[1..], k + 1)
    case Again(c') => Offsets(o, c', s, k)
    case Emit(c', e) => [k + 1] + Offsets(o, c', s[1..], k + 1)
    case Hold(c', e) => [k] + Offsets(o, c', s, k)
    case Fail(err) => []
  }

  /** How many bytes are used up when reading ends, at an error or with the text, from k on. */
  ghost function Used(o: Options, c: Core, s: seq<byte>, k: nat): (n: nat)
    requires Ok(c)
    ensures k <= n <= k + |s|
    decreases |s|, Rank(c.st)
  {
    if s == [] then k else
    match Step(o, c, s[0])
    case Eat(c') => Used(o, c', s[1..], k + 1)
    case Again(c') => Used(o, c', s, k)
    case Emit(c', e) => Used(o, c', s[1..], k + 1)
    case Hold(c', e) => Used(o, c', s, k)
    case Fail(err) => k
  }

  /** What follows when a text is continued. */
  ghost function Then(o: Options, r: Result, s: seq<byte>): Result
    requires r.end.More? ==> Ok(r.end.c)
  {
    if r.end.More? then Prefix(r.evs, Run(o, r.end.c, s)) else r
  }

  /** Reading a text in two pieces is reading it at once. */
  lemma {:induction false} RunAppend(o: Options, c: Core, a: seq<byte>, b: seq<byte>)
    requires Ok(c)
    ensures Run(o, c, a + b) == Then(o, Run(o, c, a), b)
    decreases |a|, Rank(c.st)
  {
    hide Step, Ok;
    if a == [] {
      assert a + b == b;
    } else {
      assert (a + b)[0] == a[0] && (a + b)[1..] == a[1..] + b;
      match Step(o, c, a[0])
      case Eat(c') => RunAppend(o, c', a[1..], b);
      case Again(c') => RunAppend(o, c', a, b);
      case Emit(c', e) => RunAppend(o, c', a[1..], b); PrefixThen(o, [e], Run(o, c', a[1..]), b);
      case Hold(c', e) => RunAppend(o, c', a, b); PrefixThen(o, [e], Run(o, c', a), b);
      case Fail(err) =>
    }
  }

  lemma PrefixThen(o: Options, evs: seq<Event>, r: Result, s: seq<byte>)
    requires r.end.More? ==> Ok(r.end.c)
    ensures Then(o, Prefix(evs, r), s) == Prefix(evs, Then(o, r, s))
  {
    if r.end.More? {
      assert (evs + r.evs) + Run(o, r.end.c, s).evs == evs + (r.evs + Run(o, r.end.c, s).evs);
    }
  }

  lemma Concat(a: seq<nat>, b: seq<nat>, c: seq<nat>)
    ensures a + (b + c) == (a + b) + c
  {}

  /** One step of `Run` and of `Offsets`. */
  lemma RunNext(o: Options, c: Core, s: seq<byte>)
    requires Ok(c) && s != []
    ensures var r := Step(o, c, s[0]);
      && (!r.Fail? ==> Ok(r.c))
      && (r.Eat? ==> Run(o, c, s) == Run(o, r.c, s[1..])) && (r.Again? ==> Run(o, c, s) == Run(o, r.c, s))
      && (r.Emit? ==> Run(o, c, s).end == Run(o, r.c, s[1..]).end)
      && (r.Hold? ==> Run(o, c, s).end == Run(o, r.c, s).end)
      && (r.Fail? ==> Run(o, c, s).end.Error?)
  {
    hide Step, Ok;
  }

  lemma OffsetsNext(o: Options, c: Core, s: seq<byte>, k: nat)
    requires Ok(c) && s != []
    ensures var r := Step(o, c, s[0]);
      && (!r.Fail? ==> Ok(r.c))
      && (r.Eat? ==> Offsets(o, c, s, k) == Offsets(o, r.c, s[1..], k + 1))
      && (r.Again? ==> Offsets(o, c, s, k) == Offsets(o, r.c, s, k))
      && (r.Emit? ==> Offsets(o, c, s, k) == [k + 1] + Offsets(o, r.c, s[1..], k + 1))
      && (r.Hold? ==> Offsets(o, c, s, k) == [k] + Offsets(o, r.c, s, k))
      && (r.Fail? ==> Offsets(o, c, s, k) == [])
  {
    hide Step, Ok, Run;
  }

  /** The offsets of what follows when a text is continued. */
  ghost function OffsetsAfter(o: Options, r: Result, s: seq<byte>, k: nat): seq<nat>
    requires r.end.More? ==> Ok(r.end.c)
  { if r.end.More? then Offsets(o, r.end.c, s, k) else [] }

  lemma OffsetsAfterSame(o: Options, r: Result, r': Result, s: seq<byte>, k: nat)
    requires r.end == r'.end && (r.end.More? ==> Ok(r.end.c))
    ensures OffsetsAfter(o, r, s, k) == OffsetsAfter(o, r', s, k)
  {}

  lemma OffsetsNone(o: Options, c: Core, b: seq<byte>, k: nat)
    requires Ok(c)
    ensures Offsets(o, c, [] + b, k) == Offsets(o, c, [], k) + OffsetsAfter(o, Run(o, c, []), b, k)
  {
    hide Step, Ok;
    assert [] + b == b && [] + Offsets(o, c, b, k) == Offsets(o, c, b, k);
  }

  lemma {:induction false} OffsetsAppend(o: Options, c: Core, a: seq<byte>, b: seq<byte>, k: nat)
    requires Ok(c)
    ensures Offsets(o, c, a + b, k) == Offsets(o, c, a, k) + OffsetsAfter(o, Run(o, c, a), b, k + |a|)
    decreases |a|, Rank(c.st)
  {
    hide *;
    if a == [] {
      OffsetsNone(o, c, b, k);
    } else {
      Split(a, b);
      RunNext(o, c, a);
      OffsetsNext(o, c, a, k);
      OffsetsNext(o, c, a + b, k);
      StepRank(o, c, a[0]);
      var r := Step(o, c, a[0]);
      if r.Eat? {
        OffsetsAppend(o, r.c, a[1..], b, k + 1);
      } else if r.Again? {
        OffsetsAppend(o, r.c, a, b, k);
      } else if r.Emit? {
        OffsetsAppend(o, r.c, a[1..], b, k + 1);
        OffsetsAfterSame(o, Run(o, c, a), Run(o, r.c, a[1..]), b, k + |a|);
        Concat([k + 1], Offsets(o, r.c, a[1..], k + 1), OffsetsAfter(o, Run(o, c, a), b, k + |a|));
      } else if r.Hold? {
        OffsetsAppend(o, r.c, a, b, k);
        OffsetsAfterSame(o, Run(o, c, a), Run(o, r.c, a), b, k + |a|);
        Concat([k], Offsets(o, r.c, a, k), OffsetsAfter(o, Run(o, c, a), b, k + |a|));
      } else {
        OffsetsAfterNone(o, Run(o, c, a), b, k + |a|);
      }
    }
  }

  lemma OffsetsAfterNone(o: Options, r: Result, s: seq<byte>, k: nat)
    requires r.end.Error?
    ensures OffsetsAfter(o, r, s, k) == [] && [] + OffsetsAfter(o, r, s, k) == []
  {}

  lemma Split(a: seq<byte>, b: seq<byte>)
    requires a != []
    ensures a + b != [] && (a + b)[0] == a[0] && (a + b)[1..] == a[1..] + b && |a[1..]| == |a| - 1
  {}

  lemma StepRank(o: Options, c: Core, ch: byte)
    requires Ok(c)
    ensures var r := Step(o, c, ch);
      (!r.Fail? ==> Ok(r.c)) && (r.Again? || r.Hold? ==> Rank(r.c.st) < Rank(c.st))
  {}

  lemma {:induction false} UsedAppend(o: Options, c: Core, a: seq<byte>, b: seq<byte>, k: nat)
    requires Ok(c)
    ensures var r := Run(o, c, a);
      Used(o, c, a + b, k) == if r.end.More? then Used(o, r.end.c, b, k + |a|) else Used(o, c, a, k)
    decreases |a|, Rank(c.st)
  {
    hide Step, Ok;
    if a == [] {
      assert a + b == b;
    } else {
      assert (a + b)[0] == a[0] && (a + b)[1..] == a[1..] + b;
      match Step(o, c, a[0])
      case Eat(c') => UsedAppend(o, c', a[1..], b, k + 1);
      case Again(c') => UsedAppend(o, c', a, b, k);
      case Emit(c', e) => UsedAppend(o, c', a[1..], b, k + 1);
      case Hold(c', e) => UsedAppend(o, c', a, b, k);
      case Fail(err) =>
    }
  }

  /** `ffjson_fin`: the end of the input. */
  function Fin(c: Core): (accepted: bool) {
    |c.ctxs| == 0 && (c.st.CmtLn? || c.st.SpcAfterVal?)
  }
}
