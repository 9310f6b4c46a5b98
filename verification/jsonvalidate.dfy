/** `ffjson_validate` of ffbase/json.h: one document in one piece.

    It takes a call that returns no event for an unfinished document, so a document
    followed by space is refused although `ffjson_fin` accepts it (`ValidatedExactly`,
    `TrailingSpaceRefused`).
  */
module JsonValidate {
  import opened JsonGrammar
  import opened JsonLanguage
  import opened JsonParser
  import opened JsonSpelling
  import opened JsonStep
  import opened JsonText

  datatype Outcome = Good | Failed(err: Error)

  /** The last of the events comes at n. */
  ghost predicate LastAt(at: seq<nat>, n: nat) { at != [] && at[|at| - 1] == n }

  /** The last event comes with the last byte. */
  ghost predicate EndsWithEvent(o: Options, s: seq<byte>) { LastAt(Offsets(o, INIT, s, 0), |s|) }

  /** The outcome for a whole document. */
  ghost function Validated(o: Options, s: seq<byte>): Outcome {
    var end := Run(o, INIT, s).end;
    if end.Error? then Failed(end.err)
    else if EndsWithEvent(o, s) && Fin(end.c) then Good
    else Failed(Incomplete)
  }

  // ---------- what each call means for the outcome ----------

  lemma GotEvent(o: Options, s: seq<byte>, es: seq<Event>, ats: seq<nat>, c: Core, a: seq<byte>, k: nat,
                 e: Event, c1: Core, a1: seq<byte>, k1: nat)
    requires Ok(c) && Ok(c1) && Reached(o, s, es, ats, c, a, k) && Returned(o, c, a, k, e, c1, a1, k1)
    requires k1 + |a1| == k + |a|
    ensures Reached(o, s, es + [e], ats + [k1], c1, a1, k1)
  {
    hide Ok, Run, Offsets, Used, Reached, Returned;
    assert a + [] == a && a1 + [] == a1;
    ReachedEvent(o, s, es, ats, c, a, [], k, e, c1, a1, k1);
  }

  lemma GotError(o: Options, s: seq<byte>, es: seq<Event>, ats: seq<nat>, c: Core, a: seq<byte>, k: nat,
                 err: Error, k1: nat)
    requires Ok(c) && Reached(o, s, es, ats, c, a, k) && Refused(o, c, a, k, err, k1)
    ensures Validated(o, s) == Failed(err)
  {
    hide Ok, Run, Offsets, Used;
  }

  /** The end of the input, after the events at `ats`. */
  lemma GotEnd(o: Options, s: seq<byte>, es: seq<Event>, ats: seq<nat>, c: Core, a: seq<byte>, k: nat,
               c1: Core, k1: nat)
    requires Ok(c) && Ok(c1) && Reached(o, s, es, ats, c, a, k) && Same(o, c, a, k, c1, [], k1)
    ensures Validated(o, s) == if LastAt(ats, |s|) && Fin(c1) then Good else Failed(Incomplete)
  {
    hide Ok, Run, Offsets, Used, Fin;
    NothingRead(o, c1, k1);
    assert ats + [] == ats;
  }

  /** `ffjson_validate`, with a reader as `ffjson_init` leaves it. */
  method Validate(j: Parser, data: seq<byte>) returns (r: Outcome)
    requires j.Valid() && j.Fields(j.state) == INIT && j.eaten == []
    modifies j, j.esc
    ensures r == Validated(j.opts, data)
    ensures r.Failed? ==>
      var end := Run(j.opts, INIT, data).end;
      r.err == if end.Error? then end.err else Incomplete
  {
    hide Ok, OkOut, Run, Offsets, Used, Fin, Complete, CommentMisleads, Reached, Same, Returned, Refused;
    hide Rank, Validated, PositionAfter, Stands;
    ghost var es: seq<Event>, ats: seq<nat> := [], [];
    ReachedStart(j.opts, data);
    FailedAs(j.opts, data);
    var d := 0;
    assert data[0..] == data;
    NotInit();
    while d < |data|
      invariant 0 <= d <= |data| && j.Valid() && |j.eaten| == d
      invariant Reached(j.opts, data, es, ats, j.Fields(j.state), data[d..], d)
      invariant if d == 0 && ats == [] then j.Fields(j.state) == INIT else LastAt(ats, d)
      decreases |data| - d, Rank(j.state)
    {
      ghost var c, a, k := j.Fields(j.state), data[d..], d;
      var answer;
      ghost var stop;
      answer, d, stop := j.Parse(data, d);
      match answer
      case Bad(err) =>
        GotError(j.opts, data, es, ats, c, a, k, err, |j.eaten|);
        return Failed(err);
      case NeedMore =>
        GotEnd(j.opts, data, es, ats, c, a, k, j.Fields(j.state), |j.eaten|);
        return Failed(Incomplete);
      case Got(e) =>
        GotEvent(j.opts, data, es, ats, c, a, k, e, j.Fields(j.state), data[d..], |j.eaten|);
        es, ats := es + [e], ats + [d];
    }
    assert data[d..] == [];
    SameStart(j.opts, j.Fields(j.state), [], d);
    GotEnd(j.opts, data, es, ats, j.Fields(j.state), [], d, j.Fields(j.state), d);
    var accepted := j.Finish();
    r := if accepted then Good else Failed(Incomplete);
  }

  lemma FailedAs(o: Options, s: seq<byte>)
    ensures Validated(o, s).Failed? ==>
      var end := Run(o, INIT, s).end;
      Validated(o, s).err == if end.Error? then end.err else Incomplete
  {
    hide Run, Offsets, Fin;
  }

  lemma NotInit()
    ensures !Fin(INIT)
  {}

  // ---------- exactly which documents ----------

  /** A document is validated exactly if it is accepted and its last event comes with its
      last byte. */
  lemma ValidatedExactly(o: Options, s: seq<byte>)
    ensures Validated(o, s).Good? <==> Decided(o, s).Accepted? && EndsWithEvent(o, s)
  {
    hide Run, Offsets, Fin, EndsWithEvent;
  }

  /** A step of a reader without comments: space is used up where the reader rests, and no
      event comes with it. */
  predicate SpaceRests(r: Out, ch: byte) {
    && (r.Eat? && r.c.st.SpcAfterVal? ==> IsSpace(ch))
    && (r.Emit? ==> !IsSpace(ch))
  }

  lemma StepRests(o: Options, c: Core, ch: byte)
    requires Ok(c) && !o.comments && Calm(o, c)
    ensures SpaceRests(Step(o, c, ch), ch)
  {
    hide OkOut, OkAt, Utf8, HexWord, ToInt;
    if Escaping(c.st) { EscapeRests(c, ch); }
  }

  lemma EscapeRests(c: Core, ch: byte)
    requires Ok(c) && Escaping(c.st)
    ensures SpaceRests(StepEscape(c, ch), ch)
  {
    hide OkOut, OkAt, Utf8, HexWord, Supplementary;
  }

  lemma LastAfter(k: nat, at: seq<nat>, n: nat)
    requires forall i :: 0 <= i < |at| ==> at[i] <= n
    ensures at != [] ==> (LastAt([k] + at, n) <==> LastAt(at, n))
    ensures at == [] ==> (LastAt([k] + at, n) <==> k == n)
  {}

  /** Where the reader comes to rest, the last event comes with the last byte, or space is
      that byte. */
  lemma {:induction false} LastByte(o: Options, c: Core, s: seq<byte>, k: nat)
    requires Ok(c) && s != [] && !o.comments && Calm(o, c)
    requires Run(o, c, s).end.More? && Run(o, c, s).end.c.st.SpcAfterVal?
    ensures LastAt(Offsets(o, c, s, k), k + |s|) <==> !IsSpace(s[|s| - 1])
    decreases |s|, Rank(c.st)
  {
    hide *;
    var r := Step(o, c, s[0]);
    RunNext(o, c, s);
    OffsetsNext(o, c, s, k);
    StepRank(o, c, s[0]);
    StepCalm(o, c, s[0]);
    StepRests(o, c, s[0]);
    CalmOn(o, r, s[0]);
    if r.Again? {
      LastByte(o, r.c, s, k);
    } else if r.Hold? {
      LastByte(o, r.c, s, k);
      LastAfter(k, Offsets(o, r.c, s, k), k + |s|);
      LastNone(k + |s|);
    } else if r.Fail? {
    } else {
      var rest := s[1..];
      if rest == [] {
        NothingRead(o, r.c, k + 1);
        LastAfter(k + 1, [], k + 1);
        LastNone(k + 1);
      } else {
        LastByte(o, r.c, rest, k + 1);
        assert rest[|rest| - 1] == s[|s| - 1];
        LastAfter(k + 1, Offsets(o, r.c, rest, k + 1), k + |s|);
        LastNone(k + |s|);
      }
    }
  }

  lemma LastNone(n: nat)
    ensures !LastAt([], n)
  {}

  lemma CalmOn(o: Options, r: Out, ch: byte)
    requires StaysCalm(o, r) && SpaceRests(r, ch)
    ensures !r.Fail? ==> Calm(o, r.c)
    ensures (r.Eat? && r.c.st.SpcAfterVal? ==> IsSpace(ch)) && (r.Emit? ==> !IsSpace(ch))
  {}

  /** Without comments: exactly if it is accepted and does not end in space. */
  lemma ValidatedWithoutComments(o: Options, s: seq<byte>)
    requires !o.comments
    ensures Validated(o, s).Good? <==> Decided(o, s).Accepted? && s != [] && !IsSpace(s[|s| - 1])
  {
    hide Ok, OkOut, Offsets, Used, Waiting;
    ValidatedExactly(o, s);
    if s == [] {
      NotInit();
    } else if Decided(o, s).Accepted? {
      InitStands();
      RestsAtEnd(o, s);
      LastByte(o, INIT, s, 0);
    }
  }

  lemma RestsAtEnd(o: Options, s: seq<byte>)
    requires !o.comments && Run(o, INIT, s).end.More? && Fin(Run(o, INIT, s).end.c)
    ensures Run(o, INIT, s).end.c.st.SpcAfterVal? && Calm(o, INIT)
  {
    hide Run;
    if s == [] {
      NothingRead(o, INIT, 0);
    } else {
      RunWaits(o, INIT, s);
    }
  }

  /** Without comments the validated texts are exactly the spellings of complete values that
      are not numbers, with nothing after them. */
  lemma ValidatedExactlySpelled(o: Options, s: seq<byte>)
    requires !o.comments
    ensures Validated(o, s).Good? <==> exists ts :: IsSpelling(o, ts, NO_TAIL, s)
  {
    hide IsSpelling, Validated, Run, Fin, Ok, Used;
    ValidatedWithoutComments(o, s);
    InitStands();
    if Validated(o, s).Good? {
      var ts, tail := AcceptedIsSpelled(o, s);
      TailIs(o, ts, tail, s);
    }
    forall ts | IsSpelling(o, ts, NO_TAIL, s) ensures Validated(o, s).Good? {
      SpelledIsAccepted(o, ts, NO_TAIL, s);
      TailIs(o, ts, NO_TAIL, s);
    }
  }

  /** An empty object and a space are a document that is accepted, and are not validated. */
  lemma TrailingSpaceRefused(o: Options)
    ensures var s := [LBRACE, RBRACE, SPACE];
      Decided(o, s) == Accepted && Validated(o, s) == Failed(Incomplete)
  {
    hide *;
    var s: seq<byte> := [LBRACE, RBRACE, SPACE];
    var c1, c2 := EmptyObject(o);
    assert s[1..] == [RBRACE, SPACE] && s[1..][1..] == [SPACE] && s[1..][1..][1..] == [];
    RunNext(o, INIT, s);
    OffsetsNext(o, INIT, s, 0);
    RunNext(o, c1, s[1..]);
    OffsetsNext(o, c1, s[1..], 1);
    RunNext(o, c2, [SPACE]);
    OffsetsNext(o, c2, [SPACE], 2);
    NothingRead(o, c2, 3);
    assert [1] + ([2] + []) == [1, 2];
    EarlyEnd(o, s, c2);
  }

  /** The steps through it. */
  lemma EmptyObject(o: Options) returns (c1: Core, c2: Core)
    ensures Ok(INIT) && Ok(c1) && Ok(c2) && Fin(c2)
    ensures Step(o, INIT, LBRACE) == Emit(c1, ObjOpen) && Step(o, c1, RBRACE) == Emit(c2, ObjClose)
    ensures Step(o, c2, SPACE) == Eat(c2)
  {
    hide OkOut;
    c1, c2 := INIT.(st := SpcObj, ctxs := [Curly]), INIT.(st := SpcAfterVal);
    assert Popped(c1.ctxs) == [];
  }

  lemma EarlyEnd(o: Options, s: seq<byte>, c: Core)
    requires |s| == 3 && Ok(INIT) && Run(o, INIT, s).end == More(c) && Fin(c) && Offsets(o, INIT, s, 0) == [1, 2]
    ensures Decided(o, s) == Accepted && Validated(o, s) == Failed(Incomplete)
  {
    hide Run, Offsets, Fin, Ok;
  }
}
