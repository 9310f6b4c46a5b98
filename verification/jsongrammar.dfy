/** The grammar of JSON events, apart from any reader or writer, and what the reader's
    events have to do with it, for every text.
  */
module JsonGrammar {
  import opened JsonText
  import opened JsonStep
  import opened Optional

  /** What may come next: a value must come; a member of the innermost bracket or its
      end may come; nothing more. */
  datatype Want = Value | Member | Nothing

  datatype Place = Place(open: seq<Bracket>, want: Want)

  const START: Place := Place([], Value)

  function AfterValue(open: seq<Bracket>): Place {
    Place(open, if |open| == 0 then Nothing else Member)
  }

  predicate ValueMay(g: Place) { g.want.Value? || (g.want.Member? && Inside(g.open, Square)) }

  predicate KeyMay(g: Place) { g.want.Member? && Inside(g.open, Curly) }

  /** The place after an event, if the event may stand here. */
  function Next(g: Place, e: Event): Option<Place> {
    match e
    case ArrOpen => if ValueMay(g) then Some(Place(g.open + [Square], Member)) else None
    case ObjOpen => if ValueMay(g) then Some(Place(g.open + [Curly], Member)) else None
    case ArrClose => if g.want.Member? && Inside(g.open, Square) then Some(AfterValue(Popped(g.open))) else None
    case ObjClose => if KeyMay(g) then Some(AfterValue(Popped(g.open))) else None
    case Key(_) => if KeyMay(g) then Some(Place(g.open, Value)) else None
    case _ => if ValueMay(g) then Some(AfterValue(g.open)) else None
  }

  function Follow(g: Place, evs: seq<Event>): Option<Place>
    decreases |evs|
  {
    if evs == [] then Some(g) else
    var n := Next(g, evs[0]);
    if n.None? then None else Follow(n.value, evs[1..])
  }

  /** The events are one complete value. */
  predicate Complete(evs: seq<Event>) {
    Follow(START, evs).Some? && Follow(START, evs).value.want.Nothing?
  }

  lemma {:induction false} FollowAppend(g: Place, a: seq<Event>, b: seq<Event>)
    ensures Follow(g, a + b) == if Follow(g, a).None? then None else Follow(Follow(g, a).value, b)
    decreases |a|
  {
    if a == [] {
      assert a + b == b;
    } else {
      assert (a + b)[0] == a[0] && (a + b)[1..] == a[1..] + b;
      if Next(g, a[0]).Some? { FollowAppend(Next(g, a[0]).value, a[1..], b); }
    }
  }

  // ---------- the text of an event ----------

  predicate Closing(e: Event) { e.ArrClose? || e.ObjClose? }

  /** An event that the next one follows without a comma. */
  predicate Introduces(e: Event) { e.ArrOpen? || e.ObjOpen? || e.Key? }

  /** Events that are always written alike. */
  predicate Fixed(e: Event) { !e.Str? && !e.Key? && !e.Int? && !e.Num? }

  function Mark(e: Event): seq<byte>
    requires Fixed(e)
  {
    match e
    case Null => NULL
    case Bool(b) => if b != 0 then TRUE else FALSE
    case ArrOpen => [LBRACKET]
    case ArrClose => [RBRACKET]
    case ObjOpen => [LBRACE]
    case ObjClose => [RBRACE]
  }

  // ---------- the reader follows the grammar ----------

  predicate AgreeAt(st: State, g: Place) {
    && (st.SpcVal? || st.InStr? || st.InNum? || st.InTrue? || st.InFalse? || st.InNull? ==> ValueMay(g))
    && (st.SpcArr? ==> g.want.Member? && Inside(g.open, Square))
    && (st.SpcObj? || st.InKey? ==> KeyMay(g))
    && (st.AfterKey? ==> g.want.Value?)
    && (st.SpcAfterVal? || st.AfterVal? ==> g == AfterValue(g.open))
  }

  predicate Agree(c: Core, g: Place) { c.ctxs == g.open && AgreeAt(Base(c), g) }

  /** A step that emits nothing stays at its place; an event leads to the next place. */
  predicate Fits(r: Out, g: Place) {
    match r
    case Eat(c) => Agree(c, g)
    case Again(c) => Agree(c, g)
    case Emit(c, e) => Next(g, e).Some? && Agree(c, Next(g, e).value)
    case Hold(c, e) => Next(g, e).Some? && Agree(c, Next(g, e).value)
    case Fail(_) => true
  }

  /** Comments are entered only through their first slash, which is looked at again. */
  predicate Quiet(r: Out, st: State) {
    match r
    case Eat(c) => !c.st.Cmt? && !c.st.AfterVal? && (Commenting(c.st) ==> Commenting(st))
    case Again(c) => Commenting(c.st) ==> c.st.Cmt?
    case Emit(c, _) => !c.st.AfterVal? && !Commenting(c.st)
    case Hold(c, _) => !c.st.AfterVal? && !Commenting(c.st)
    case Fail(_) => true
  }

  /** Away from the words `true` and `false`. */
  predicate Wordless(r: Out) {
    match r
    case Eat(c) => !c.st.InTrue? && !c.st.InFalse?
    case Again(c) => !c.st.InTrue? && !c.st.InFalse?
    case Emit(c, e) => !c.st.InTrue? && !c.st.InFalse? && !e.Bool?
    case Hold(c, e) => !c.st.InTrue? && !c.st.InFalse? && !e.Bool?
    case Fail(_) => true
  }

  lemma ValueFits(c: Core, ch: byte, g: Place)
    requires Ok(c) && Agree(c, g) && (c.st.SpcVal? || c.st.SpcArr?)
    ensures Fits(StepValue(c, ch), g) && Quiet(StepValue(c, ch), c.st)
  {
    hide Ok, OkOut, IsSpace;
  }

  lemma StringFits(o: Options, c: Core, ch: byte, g: Place)
    requires Ok(c) && Agree(c, g) && (c.st.InStr? || c.st.InKey?)
    ensures var r := StepString(o, c, ch); Fits(r, g) && Quiet(r, c.st) && Wordless(r)
  {
    hide Ok, OkOut, Inside;
  }

  lemma NumberFits(o: Options, c: Core, ch: byte, g: Place)
    requires Ok(c) && Agree(c, g) && c.st.InNum?
    ensures var r := StepNumber(o, c, ch); Fits(r, g) && Quiet(r, c.st) && Wordless(r)
  {
    hide Ok, OkOut, ToInt, Inside, NumChar;
  }

  lemma LiteralFits(c: Core, ch: byte, g: Place)
    requires Ok(c) && Agree(c, g) && (c.st.InTrue? || c.st.InFalse? || c.st.InNull?)
    ensures Fits(StepLiteral(c, ch), g) && Quiet(StepLiteral(c, ch), c.st)
    ensures c.st.InNull? ==> Wordless(StepLiteral(c, ch))
  {
    hide Ok, OkOut, Inside;
  }

  lemma SpaceFits(c: Core, ch: byte, g: Place)
    requires Ok(c) && Agree(c, g) && c.st.SpcAfterVal?
    ensures var r := StepSpace(c, ch); Fits(r, g) && Quiet(r, c.st) && Wordless(r)
  {
    hide Ok, OkOut, IsSpace;
  }

  lemma AfterFits(c: Core, ch: byte, g: Place)
    requires Ok(c) && Agree(c, g) && c.st.AfterVal?
    ensures var r := StepAfter(c, ch); Fits(r, g) && Quiet(r, c.st) && Wordless(r)
  {
    hide Ok, OkOut;
  }

  lemma ObjectFits(c: Core, ch: byte, g: Place)
    requires Ok(c) && Agree(c, g) && c.st.SpcObj?
    ensures var r := StepObject(c, ch); Fits(r, g) && Quiet(r, c.st) && Wordless(r)
  {
    hide Ok, OkOut, IsSpace;
  }

  lemma ColonFits(c: Core, ch: byte, g: Place)
    requires Ok(c) && Agree(c, g) && c.st.AfterKey?
    ensures var r := StepColon(c, ch); Fits(r, g) && Quiet(r, c.st) && Wordless(r)
  {
    hide Ok, OkOut, IsSpace;
  }

  lemma CommentFits(o: Options, c: Core, ch: byte, g: Place)
    requires Ok(c) && Agree(c, g) && Commenting(c.st)
    ensures var r := StepComment(o, c, ch); Fits(r, g) && Quiet(r, c.st) && Wordless(r)
  {
    hide OkOut, OkAt, AgreeAt;
  }

  lemma EscapeFits(c: Core, ch: byte, g: Place)
    requires Ok(c) && Agree(c, g) && Escaping(c.st)
    ensures var r := StepEscape(c, ch); Fits(r, g) && Quiet(r, c.st) && Wordless(r)
  {
    hide OkOut, OkAt, AgreeAt, Utf8, HexWord;
  }

  predicate Wordy(st: State) { st.SpcVal? || st.SpcArr? || st.InTrue? || st.InFalse? }

  lemma StepFits(o: Options, c: Core, ch: byte, g: Place)
    requires Ok(c) && Agree(c, g)
    ensures Fits(Step(o, c, ch), g) && Quiet(Step(o, c, ch), c.st)
    ensures !Wordy(c.st) ==> Wordless(Step(o, c, ch))
  {
    hide Ok, Fits, Agree, OkOut, Quiet, Wordless;
    if c.st.SpcVal? || c.st.SpcArr? { ValueFits(c, ch, g); }
    else if c.st.InStr? || c.st.InKey? { StringFits(o, c, ch, g); }
    else if c.st.InNum? { NumberFits(o, c, ch, g); }
    else if c.st.InTrue? || c.st.InFalse? || c.st.InNull? { LiteralFits(c, ch, g); }
    else if c.st.SpcAfterVal? { SpaceFits(c, ch, g); }
    else if c.st.AfterVal? { AfterFits(c, ch, g); }
    else if c.st.SpcObj? { ObjectFits(c, ch, g); }
    else if c.st.AfterKey? { ColonFits(c, ch, g); }
    else if Commenting(c.st) { CommentFits(o, c, ch, g); }
    else { EscapeFits(c, ch, g); }
  }

  /** Every state that keeps the invariant has a place in the grammar. */
  lemma SomePlace(c: Core) returns (g: Place)
    requires Ok(c)
    ensures Agree(c, g)
  {
    var b := Base(c);
    g := if b.SpcAfterVal? || b.AfterVal? then AfterValue(c.ctxs)
         else if b.SpcObj? || b.InKey? || b.SpcArr? then Place(c.ctxs, Member)
         else Place(c.ctxs, Value);
  }

  lemma {:induction false} RunFits(o: Options, c: Core, s: seq<byte>, g: Place)
    requires Ok(c) && Agree(c, g)
    ensures var r := Run(o, c, s);
      && Follow(g, r.evs).Some?
      && (r.end.More? ==> Agree(r.end.c, Follow(g, r.evs).value))
    decreases |s|, Rank(c.st)
  {
    hide Step, Agree, Next, Ok;
    if s == [] {
    } else {
      StepFits(o, c, s[0], g);
      match Step(o, c, s[0])
      case Eat(c') => RunFits(o, c', s[1..], g);
      case Again(c') => RunFits(o, c', s, g);
      case Emit(c', e) => RunFits(o, c', s[1..], Next(g, e).value);
      case Hold(c', e) => RunFits(o, c', s, Next(g, e).value);
      case Fail(_) =>
    }
  }

  /** Whatever the text, the events returned so far nest properly, keys and values
      alternate inside objects, and the context stack is the stack of open brackets. */
  lemma EventsGrammatical(o: Options, s: seq<byte>)
    ensures var r := Run(o, INIT, s);
      && Follow(START, r.evs).Some?
      && (r.end.More? ==> r.end.c.ctxs == Follow(START, r.evs).value.open)
  {
    RunFits(o, INIT, s, START);
  }

  // ---------- where the input may end ----------

  /** States in which the reader waits for the next byte. */
  predicate Waiting(o: Options, c: Core) {
    !c.st.Cmt? && !c.st.AfterVal? && (!o.comments ==> !Commenting(c.st))
  }

  /** Without comments, no state inside of a comment is entered. */
  predicate Calm(o: Options, c: Core) { !o.comments ==> c.st.Cmt? || !Commenting(c.st) }

  predicate StaysCalm(o: Options, r: Out) {
    match r
    case Eat(c) => Waiting(o, c)
    case Again(c) => Calm(o, c)
    case Emit(c, _) => Waiting(o, c)
    case Hold(c, _) => Calm(o, c)
    case Fail(_) => true
  }

  lemma StepCalm(o: Options, c: Core, ch: byte)
    requires Ok(c) && Calm(o, c)
    ensures StaysCalm(o, Step(o, c, ch))
  {
    hide Ok, OkOut, Fits, Agree, Wordless, StepValue, StepString, StepNumber, StepLiteral, StepSpace, StepAfter;
    hide StepObject, StepColon, StepEscape;
    var g := SomePlace(c);
    StepFits(o, c, ch, g);
  }

  lemma {:induction false} RunWaits(o: Options, c: Core, s: seq<byte>)
    requires Ok(c) && Calm(o, c) && (s == [] ==> Waiting(o, c))
    ensures Run(o, c, s).end.More? ==> Waiting(o, Run(o, c, s).end.c)
    decreases |s|, Rank(c.st)
  {
    hide Step, Ok, Calm, Waiting;
    if s == [] {
    } else {
      StepCalm(o, c, s[0]);
      match Step(o, c, s[0])
      case Eat(c') => WaitingCalm(o, c'); RunWaits(o, c', s[1..]);
      case Again(c') => RunWaits(o, c', s);
      case Emit(c', e) => WaitingCalm(o, c'); RunWaits(o, c', s[1..]);
      case Hold(c', e) => RunWaits(o, c', s);
      case Fail(_) =>
    }
  }

  lemma WaitingCalm(o: Options, c: Core)
    requires Waiting(o, c)
    ensures Calm(o, c)
  {}

  /** The end of the input is accepted after a complete value and only then, except
      inside of comments: a line comment is accepted even before any value, and an
      unfinished block comment is refused even after the value. */
  predicate CommentMisleads(c: Core) {
    |c.ctxs| == 0 && (if c.st.CmtLn? then !c.next.SpcAfterVal? else Commenting(c.st) && c.next.SpcAfterVal?)
  }

  lemma AcceptedExactly(o: Options, s: seq<byte>)
    requires Run(o, INIT, s).end.More?
    ensures var r := Run(o, INIT, s);
      && ((Fin(r.end.c) <==> Complete(r.evs)) <==> !CommentMisleads(r.end.c))
      && (!o.comments ==> (Fin(r.end.c) <==> Complete(r.evs)))
  {
    RunFits(o, INIT, s, START);
    RunWaits(o, INIT, s);
  }

  /** `//` alone is accepted as a document, though it holds no value. */
  lemma CommentAccepted(o: Options)
    requires o.comments
    ensures var r := Run(o, INIT, [SLASH, SLASH]);
      r.evs == [] && r.end.More? && Fin(r.end.c) && !Complete(r.evs)
  {
    var s: seq<byte> := [SLASH, SLASH];
    var c1 := INIT.(next := SpcVal, st := Cmt);
    var c2, c3 := c1.(st := CmtSl), c1.(st := CmtLn);
    assert Step(o, INIT, s[0]) == Again(c1);
    assert Step(o, c1, s[0]) == Eat(c2);
    assert Step(o, c2, s[1]) == Eat(c3);
    assert s[1..] == [SLASH] && s[1..][1..] == [];
    assert Run(o, c3, s[1..][1..]) == Result([], More(c3));
    assert Run(o, c2, s[1..]) == Result([], More(c3));
    assert Run(o, c1, s) == Result([], More(c3));
  }

  predicate AllSpace(s: seq<byte>) { forall i :: 0 <= i < |s| ==> IsSpace(s[i]) }

  /** After a complete document only space may follow; anything else is refused, a slash
      because comments are off, any other byte because the document is finished. */
  lemma {:induction false} AfterDocument(o: Options, c: Core, s: seq<byte>)
    requires Ok(c) && c.st.SpcAfterVal? && |c.ctxs| == 0 && !o.comments
    ensures AllSpace(s) ==> Run(o, c, s) == Result([], More(c))
    ensures !AllSpace(s) ==>
      Run(o, c, s) == Result([], End.Error(BadComment)) || Run(o, c, s) == Result([], End.Error(Finished))
  {
    if s == [] {
    } else if IsSpace(s[0]) {
      assert Step(o, c, s[0]) == Eat(c);
      AfterDocument(o, c, s[1..]);
      assert AllSpace(s[1..]) ==> AllSpace(s);
    } else if s[0] == SLASH {
      var c1 := c.(next := c.st, st := Cmt);
      assert Step(o, c, s[0]) == Again(c1) && Step(o, c1, s[0]) == Fail(BadComment);
      assert Run(o, c1, s) == Result([], End.Error(BadComment));
    } else {
      var c1 := c.(st := AfterVal);
      assert Step(o, c, s[0]) == Again(c1) && Step(o, c1, s[0]) == Fail(Finished);
      assert Run(o, c1, s) == Result([], End.Error(Finished));
    }
  }

  // ---------- booleans ----------

  predicate EndsWith(s: seq<byte>, t: seq<byte>) { |t| <= |s| && s[|s| - |t|..] == t }

  predicate LiteralSoFar(c: Core, h: seq<byte>) {
    && (c.st.InTrue? ==> c.escLen <= 4 && EndsWith(h, TRUE[..c.escLen]))
    && (c.st.InFalse? ==> c.escLen <= 5 && EndsWith(h, FALSE[..c.escLen]))
  }

  /** A boolean event is the word just read. */
  predicate BoolText(e: Event, text: seq<byte>) {
    e.Bool? ==> (e.b == 1 && EndsWith(text, TRUE)) || (e.b == 0 && EndsWith(text, FALSE))
  }

  predicate KeepsLiteral(r: Out, h: seq<byte>, h': seq<byte>) {
    match r
    case Eat(c) => LiteralSoFar(c, h')
    case Again(c) => LiteralSoFar(c, h)
    case Emit(c, e) => LiteralSoFar(c, h') && BoolText(e, h')
    case Hold(c, e) => LiteralSoFar(c, h) && !e.Bool?
    case Fail(_) => true
  }

  lemma EndsNext(h: seq<byte>, t: seq<byte>, n: nat, ch: byte)
    requires n < |t| && EndsWith(h, t[..n]) && ch == t[n]
    ensures EndsWith(h + [ch], t[..n + 1])
  {
    var u := h + [ch];
    assert u[|u| - (n + 1)..] == h[|h| - n..] + [ch];
    assert t[..n + 1] == t[..n] + [t[n]];
  }

  lemma ValueText(c: Core, h: seq<byte>, ch: byte)
    requires Ok(c) && (c.st.SpcVal? || c.st.SpcArr?)
    ensures KeepsLiteral(StepValue(c, ch), h, h + [ch])
  {
    hide Ok, OkOut, IsSpace, Inside, Popped;
    assert EndsWith(h, []) && TRUE[..0] == [] == FALSE[..0];
    if ch == TRUE[0] { EndsNext(h, TRUE, 0, ch); }
    if ch == FALSE[0] { EndsNext(h, FALSE, 0, ch); }
  }

  lemma WordText(c: Core, h: seq<byte>, ch: byte)
    requires Ok(c) && LiteralSoFar(c, h) && (c.st.InTrue? || c.st.InFalse?)
    ensures KeepsLiteral(StepLiteral(c, ch), h, h + [ch])
  {
    hide OkOut, Inside, EndsWith;
    if c.st.InTrue? {
      if ch == TRUE[c.escLen] { EndsNext(h, TRUE, c.escLen, ch); }
      assert TRUE[..4] == TRUE;
    } else {
      if ch == FALSE[c.escLen] { EndsNext(h, FALSE, c.escLen, ch); }
      assert FALSE[..5] == FALSE;
    }
  }

  lemma WordlessText(r: Out, h: seq<byte>, h': seq<byte>)
    requires Wordless(r)
    ensures KeepsLiteral(r, h, h')
  {}

  lemma StepLiteralText(o: Options, c: Core, h: seq<byte>, ch: byte)
    requires Ok(c) && LiteralSoFar(c, h)
    ensures KeepsLiteral(Step(o, c, ch), h, h + [ch])
  {
    hide Ok, OkOut, Fits, Agree, Quiet, Wordless, KeepsLiteral, LiteralSoFar;
    if c.st.SpcVal? || c.st.SpcArr? {
      ValueText(c, h, ch);
    } else if c.st.InTrue? || c.st.InFalse? {
      WordText(c, h, ch);
    } else {
      var g := SomePlace(c);
      StepFits(o, c, ch, g);
      WordlessText(Step(o, c, ch), h, h + [ch]);
    }
  }

  /** Every boolean among the events is the word read just before it was returned. */
  predicate BoolsText(evs: seq<Event>, at: seq<nat>, text: seq<byte>) {
    |evs| == |at| && forall i :: 0 <= i < |evs| ==> at[i] <= |text| && BoolText(evs[i], text[..at[i]])
  }

  lemma {:induction false} RunBools(o: Options, c: Core, h: seq<byte>, s: seq<byte>)
    requires Ok(c) && LiteralSoFar(c, h)
    ensures BoolsText(Run(o, c, s).evs, Offsets(o, c, s, |h|), h + s)
    decreases |s|, Rank(c.st)
  {
    hide Step, Ok, LiteralSoFar, BoolText, BoolsText;
    if s == [] {
      FirstText([], [], h + s);
    } else {
      StepLiteralText(o, c, h, s[0]);
      var h' := h + [s[0]];
      assert h' + s[1..] == h + s && (h + s)[..|h'|] == h' && (h + s)[..|h|] == h && |h'| == |h| + 1;
      match Step(o, c, s[0])
      case Eat(c') => RunBools(o, c', h', s[1..]);
      case Again(c') => RunBools(o, c', h, s);
      case Emit(c', e) =>
        RunBools(o, c', h', s[1..]);
        NextText(e, |h'|, Run(o, c', s[1..]).evs, Offsets(o, c', s[1..], |h'|), h + s);
      case Hold(c', e) =>
        RunBools(o, c', h, s);
        NotBool(e, h);
        NextText(e, |h|, Run(o, c', s).evs, Offsets(o, c', s, |h|), h + s);
      case Fail(_) => FirstText([], [], h + s);
    }
  }

  lemma FirstText(evs: seq<Event>, at: seq<nat>, text: seq<byte>)
    requires evs == [] && at == []
    ensures BoolsText(evs, at, text)
  {}

  lemma NextText(e: Event, k: nat, evs: seq<Event>, at: seq<nat>, text: seq<byte>)
    requires k <= |text| && BoolText(e, text[..k]) && BoolsText(evs, at, text)
    ensures BoolsText([e] + evs, [k] + at, text)
  {}

  lemma NotBool(e: Event, h: seq<byte>)
    requires !e.Bool?
    ensures BoolText(e, h)
  {}

  /** `true` is always reported as 1 and `false` as 0. */
  lemma BoolsReported(o: Options, s: seq<byte>)
    ensures BoolsText(Run(o, INIT, s).evs, Offsets(o, INIT, s, 0), s)
  {
    RunBools(o, INIT, [], s);
    assert [] + s == s;
  }
}
