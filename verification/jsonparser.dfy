/** `ffjson_parse` as it is written: an object whose fields are updated byte by byte.

    A string or number is not copied while it lies in one piece of input: `buf` then
    refers to the input itself (`Ref`), and it is copied when the piece ends, or when
    an escape adds something that is not in the input.  `Parse` refines `JsonStep.Run`,
    and `ParseAll` shows that cutting the input into pieces changes nothing.
  */
module JsonParser {
  import opened JsonGrammar
  import opened JsonStep
  import opened JsonText
  import opened Optional

  /** `ffvec buf`: no capacity and a pointer into the input, or memory of its own. */
  datatype Buffer = Ref(src: seq<byte>, start: nat, len: nat) | Own(data: seq<byte>)

  predicate InBounds(b: Buffer) { b.Ref? ==> b.start + b.len <= |b.src| }

  function Text(b: Buffer): seq<byte>
    requires InBounds(b)
  { if b.Ref? then b.src[b.start..b.start + b.len] else b.data }

  const NONE: Buffer := Ref([], 0, 0)

  /** States in which `buf` still grows. */
  predicate Growing(st: State) { st.InStr? || st.InKey? || st.InNum? }

  /** States in which an event is returned. */
  predicate Resting(st: State) { st.SpcArr? || st.SpcObj? || st.SpcAfterVal? || st.AfterKey? }

  /** A text that grows by reference ends where the input is read next. */
  predicate Adjacent(b: Buffer, st: State, data: seq<byte>, pos: nat) {
    Growing(st) && b.Ref? && b.len > 0 ==> b.src == data && b.start + b.len == pos
  }

  /** Nothing that may still grow, or grow again after an escape, refers to a piece of input. */
  predicate Detached(b: Buffer, st: State) {
    Growing(st) || Escaping(st) ==> b.Own? || b.len == 0
  }

  // ---------- line and character numbers ----------

  datatype Position = Position(line: nat, linechar: nat)

  function Lines(s: seq<byte>): nat {
    if s == [] then 0 else Lines(s[..|s| - 1]) + (if s[|s| - 1] == NEWLINE then 1 else 0)
  }

  /** How many bytes follow the last newline. */
  function Tail(s: seq<byte>): nat {
    if s == [] || s[|s| - 1] == NEWLINE then 0 else Tail(s[..|s| - 1]) + 1
  }

  /** Where one stands after reading s. */
  function PositionAfter(s: seq<byte>): Position { Position(1 + Lines(s), 1 + Tail(s)) }

  lemma PositionNext(s: seq<byte>, ch: byte)
    ensures PositionAfter(s + [ch]) ==
      if ch == NEWLINE then Position(PositionAfter(s).line + 1, 1)
      else Position(PositionAfter(s).line, PositionAfter(s).linechar + 1)
  {
    assert (s + [ch])[..|s|] == s;
  }

  /** Between two calls the events so far follow the grammar, and the fields agree with the
      place they lead to. */
  ghost predicate Stands(c: Core, evs: seq<Event>) {
    !c.st.AfterVal? && Follow(START, evs).Some? && Agree(c, Follow(START, evs).value)
  }

  /** What one pass through the switch decided. */
  datatype Action = Go | Retry | Return(e: Event) | Stop(e: Event) | Refuse(err: Error)

  predicate Refines(a: Action, c: Core, r: Out) {
    match r
    case Eat(c') => a == Go && c == c'
    case Again(c') => a == Retry && c == c'
    case Emit(c', e) => a == Return(e) && c == c'
    case Hold(c', e) => a == Stop(e) && c == c'
    case Fail(err) => a == Refuse(err)
  }

  datatype Answer = NeedMore | Got(e: Event) | Bad(err: Error)

  /** An event with the line and character number at which it was returned. */
  datatype Located = Located(e: Event, at: Position)

  class Parser {
    const opts: Options
    var state: State
    var nextstate: State
    var buf: Buffer
    var ctxs: seq<Bracket>
    const esc: array<byte>
    var escLen: nat
    var escHi: nat
    var intval: int
    var val: seq<byte>
    var line: nat
    var linechar: nat
    ghost var eaten: seq<byte>  // all input used up so far
    ghost var reported: seq<Event>  // all events returned so far

    /** The fields as a value, with `st` in place of `state`. */
    ghost function Fields(st: State): Core
      reads this, esc
      requires InBounds(buf)
    { Core(st, nextstate, Text(buf), ctxs, esc[..], escLen, escHi, intval) }

    ghost predicate Valid()
      reads this, esc
    {
      && esc.Length == 4 && InBounds(buf) && Ok(Fields(state))
      && Detached(buf, state)
      && Position(line, linechar) == PositionAfter(eaten)
      && Stands(Fields(state), reported)
    }

    /** What the caller finds in `val` and `intval` after an event. */
    ghost predicate Reports(e: Event)
      reads this
    {
      && (e.Str? || e.Key? ==> val == e.s)
      && (e.Int? ==> intval == e.i)
      && (e.Bool? ==> intval == e.b)
    }

    /** `ffjson_init` */
    constructor (o: Options)
      ensures Valid() && fresh(esc) && opts == o
      ensures Fields(state) == INIT && eaten == [] && reported == []
    {
      hide Ok, OkAt, Stands, PositionAfter, Text;
      opts := o;
      state, nextstate := SpcVal, SpcVal;
      buf, ctxs := NONE, [];
      escLen, escHi, intval, val := 0, 0, 0, [];
      line, linechar := 1, 1;
      eaten, reported := [], [];
      var e := new byte[4](_ => 0);
      esc := e;
      new;
      assert esc[..] == [0, 0, 0, 0];
      NoText();
      assert Fields(state) == INIT;
      InitStands();
    }

    /** `_ffjson_valadd`: take the byte at d into the text, by reference if possible. */
    method Add(data: seq<byte>, d: nat)
      requires d < |data| && InBounds(buf)
      requires buf.Ref? && buf.len > 0 ==> buf.src == data && buf.start + buf.len == d
      modifies this`buf
      ensures InBounds(buf) && Text(buf) == old(Text(buf)) + [data[d]]
      ensures buf.Ref? == old(buf.Ref?)
      ensures buf.Ref? ==> buf.src == data && buf.start + buf.len == d + 1
    {
      if buf.Ref? {
        if buf.len == 0 {
          buf := Ref(data, d, 0);
        }
        buf := Ref(buf.src, buf.start, buf.len + 1);
      } else {
        buf := Own(buf.data + [data[d]]);
      }
    }

    /** `_ffjson_valadd_u`: take a character that is not in the input, copying what was referred to. */
    method AddChar(u: nat)
      requires InBounds(buf) && u < 0x8000_0000
      modifies this`buf
      ensures buf.Own? && buf.data == old(Text(buf)) + Utf8(u)
    {
      buf := Own(Text(buf) + Utf8(u));
    }

    method OnValue(st: State, ch: byte) returns (st': State, a: Action)
      requires InBounds(buf) && Ok(Fields(st)) && (st.SpcVal? || st.SpcArr?)
      modifies this
      ensures buf == old(buf) && unchanged(`eaten, `reported, `line, `linechar)
      ensures a.Return? || a.Stop? ==> Resting(st') && Reports(a.e)
      ensures Refines(a, Fields(st'), StepValue(old(Fields(st)), ch))
    {
      hide Ok, OkOut, Text;
      st', a := st, Go;
      if IsSpace(ch) {
      } else if ch == SLASH {
        nextstate := st;
        st', a := Cmt, Retry;
      } else if ch == QUOTE {
        st' := InStr;
      } else if ch == TRUE[0] {
        st', escLen := InTrue, 1;
      } else if ch == FALSE[0] {
        st', escLen := InFalse, 1;
      } else if ch == NULL[0] {
        st', escLen := InNull, 1;
      } else if ch == LBRACKET {
        ctxs := ctxs + [Square];
        st', a := SpcArr, Return(ArrOpen);
      } else if ch == RBRACKET {
        if !st.SpcArr? {
          return st, Refuse(BadChar);
        }
        InArray(Fields(st));
        ctxs := ctxs[..|ctxs| - 1];
        st', a := SpcAfterVal, Return(ArrClose);
      } else if ch == LBRACE {
        ctxs := ctxs + [Curly];
        st', a := SpcObj, Return(ObjOpen);
      } else {
        st', a := InNum, Retry;
      }
    }

    method OnComment(st: State, ch: byte) returns (st': State, a: Action)
      requires InBounds(buf) && Ok(Fields(st)) && Commenting(st)
      ensures Commenting(st') || st' == nextstate
      ensures a.Return? || a.Stop? ==> Resting(st') && Reports(a.e)
      ensures Refines(a, Fields(st'), StepComment(opts, Fields(st), ch))
    {
      hide Ok, OkOut, Text;
      st', a := st, Go;
      if st.Cmt? {
        if !opts.comments { return st, Refuse(BadComment); }
        st' := CmtSl;
      } else if st.CmtSl? {
        if ch == SLASH { st' := CmtLn; }
        else if ch == STAR { st' := CmtMln; }
        else { return st, Refuse(BadComment); }
      } else if st.CmtLn? {
        if ch == NEWLINE { st' := nextstate; }
      } else if st.CmtMln? {
        if ch == STAR { st' := CmtMlnSl; }
      } else {
        if ch == SLASH { st' := nextstate; } else { st' := CmtMln; }
      }
    }

    method OnString(st: State, data: seq<byte>, d: nat) returns (st': State, a: Action)
      requires d < |data| && InBounds(buf) && Ok(Fields(st)) && (st.InStr? || st.InKey?)
      requires Adjacent(buf, st, data, d)
      modifies this
      ensures InBounds(buf) && unchanged(`eaten, `reported, `line, `linechar)
      ensures a != Retry && !a.Stop? && (a.Go? ==> Adjacent(buf, st', data, d + 1))
      ensures a.Return? || a.Stop? ==> Resting(st') && Reports(a.e)
      ensures Refines(a, Fields(st'), StepString(opts, old(Fields(st)), data[d]))
    {
      hide Ok, OkOut;
      st', a := st, Go;
      var ch := data[d];
      if ch == QUOTE {
        val := Text(buf);
        if st.InKey? {
          st', a := AfterKey, Return(Key(val));
        } else {
          st', a := SpcAfterVal, Return(Str(val));
        }
      } else if ch == BACKSLASH && !opts.keepEscapes {
        escLen, escHi, nextstate := 0, 0, st;
        st' := Esc;
      } else {
        if ch < 0x20 || ch == DELETE {
          return st, Refuse(BadStr);
        }
        Add(data, d);
      }
    }

    method OnEscape(st: State, ch: byte) returns (st': State, a: Action)
      requires esc.Length == 4 && InBounds(buf) && Ok(Fields(st)) && Escaping(st)
      modifies this, esc
      ensures InBounds(buf) && unchanged(`eaten, `reported, `line, `linechar)
      ensures a.Go? || a.Refuse?
      ensures a.Go? ==> buf.Own? || Escaping(st')
      ensures a.Return? || a.Stop? ==> Resting(st') && Reports(a.e)
      ensures Refines(a, Fields(st'), StepEscape(old(Fields(st)), ch))
    {
      hide OkOut, OkAt, HexWord, Utf8;
      st', a := st, Go;
      if st.Esc? {
        var b := Unescaped(ch);
        if b >= 0 {
          AddChar(b);
          st' := nextstate;
        } else if ch == 117 {
          st' := EscU;
        } else {
          return st, Refuse(BadEscape);
        }
      } else if st.U2Backslash? {
        if ch != BACKSLASH { return st, Refuse(BadEscape); }
        st' := U2;
      } else if st.U2? {
        if ch != 117 { return st, Refuse(BadEscape); }
        st' := EscU;
      } else {
        ghost var c := Fields(st);
        esc[escLen] := ch;
        escLen := escLen + 1;
        assert esc[..] == c.esc[c.escLen := ch];
        assert Fields(st) == c.(esc := c.esc[c.escLen := ch], escLen := c.escLen + 1);
        if escLen != 4 {
          return;
        }
        st', a := OnWord(st, HexWord(esc[..]));
      }
    }

    /** A complete `\u` escape. */
    method OnWord(st: State, w: int) returns (st': State, a: Action)
      requires esc.Length == 4 && InBounds(buf) && -1 <= w < 0x1_0000 && (escHi == 0 || HighSurrogate(escHi))
      requires st.EscU?
      modifies this
      ensures InBounds(buf) && unchanged(`eaten, `reported, `line, `linechar)
      ensures a.Go? || a.Refuse?
      ensures a.Go? ==> buf.Own? || Escaping(st')
      ensures a.Return? || a.Stop? ==> Resting(st') && Reports(a.e)
      ensures Refines(a, Fields(st'), StepWord(old(Fields(st)), w))
    {
      st', a := st, Refuse(BadEscape);
      var u: nat;
      if w < 0 {
        return;
      } else if Basic(w) {
        if escHi != 0 { return; }
        u := w;
      } else if HighSurrogate(w) {
        if escHi != 0 { return; }
        escHi, escLen := w, 0;
        return U2Backslash, Go;
      } else {
        if escHi == 0 { return; }
        u := Supplementary(escHi, w);
      }
      AddChar(u);
      st', a := nextstate, Go;
    }

    method OnNumber(st: State, data: seq<byte>, d: nat) returns (st': State, a: Action)
      requires d < |data| && InBounds(buf) && Ok(Fields(st)) && st.InNum?
      requires Adjacent(buf, st, data, d)
      modifies this
      ensures InBounds(buf) && unchanged(`eaten, `reported, `line, `linechar)
      ensures !a.Retry? && (a.Go? ==> Adjacent(buf, st', data, d + 1))
      ensures a.Return? || a.Stop? ==> Resting(st') && Reports(a.e)
      ensures Refines(a, Fields(st'), StepNumber(opts, old(Fields(st)), data[d]))
    {
      hide Ok, OkOut, ToInt;
      st', a := st, Go;
      var ch := data[d];
      var s := Text(buf);
      if !NumChar(ch) {
        if |s| == 0 {
          return st, Refuse(BadChar);
        }
        var used, i := ToInt64(s);
        if used > 0 { intval := i; }
        if |s| == used {
          return SpcAfterVal, Stop(Int(intval));
        } else if opts.isFloat(s) {
          return SpcAfterVal, Stop(Num(s));
        } else {
          return st, Refuse(BadChar);
        }
      }
      if |s| == FLTCAP {
        return st, Refuse(Large);
      }
      Add(data, d);
    }

    method OnLiteral(st: State, ch: byte) returns (st': State, a: Action)
      requires InBounds(buf) && Ok(Fields(st)) && (st.InTrue? || st.InFalse? || st.InNull?)
      modifies this
      ensures buf == old(buf) && unchanged(`eaten, `reported, `line, `linechar)
      ensures !Growing(st')
      ensures a.Return? || a.Stop? ==> Resting(st') && Reports(a.e)
      ensures Refines(a, Fields(st'), StepLiteral(old(Fields(st)), ch))
    {
      hide OkOut, Text;
      st', a := st, Go;
      if st.InTrue? {
        if ch != TRUE[escLen] { return st, Refuse(BadBool); }
        escLen := escLen + 1;
        if escLen == 4 {
          intval := 1;
          st', a := SpcAfterVal, Return(Bool(intval));
        }
      } else if st.InFalse? {
        if ch != FALSE[escLen] { return st, Refuse(BadBool); }
        escLen := escLen + 1;
        if escLen == 5 {
          st', a := SpcAfterVal, Return(Bool(intval));
        }
      } else {
        if ch != NULL[escLen] { return st, Refuse(BadNull); }
        escLen := escLen + 1;
        if escLen == 4 {
          st', a := SpcAfterVal, Return(Null);
        }
      }
    }

    method OnAfter(st: State, ch: byte) returns (st': State, a: Action)
      requires InBounds(buf) && Ok(Fields(st)) && st.AfterVal?
      modifies this
      ensures buf == NONE && unchanged(`eaten, `reported, `line, `linechar)
      ensures a.Return? || a.Stop? ==> Resting(st') && Reports(a.e)
      ensures Refines(a, Fields(st'), StepAfter(old(Fields(st)), ch))
    {
      hide Ok, OkOut;
      st', a := st, Go;
      intval, val, buf := 0, [], NONE;
      if |ctxs| == 0 {
        return st, Refuse(Finished);
      }
      if ch == COMMA {
        st' := SpcVal;
        if ctxs[|ctxs| - 1] == Curly { st' := SpcObj; }
      } else if ch == RBRACKET {
        if ctxs[|ctxs| - 1] != Square { return st, Refuse(BadCtx); }
        ctxs := ctxs[..|ctxs| - 1];
        st', a := SpcAfterVal, Return(ArrClose);
      } else if ch == RBRACE {
        if ctxs[|ctxs| - 1] != Curly { return st, Refuse(BadCtx); }
        ctxs := ctxs[..|ctxs| - 1];
        st', a := SpcAfterVal, Return(ObjClose);
      } else {
        a := Refuse(BadChar);
      }
    }

    method OnSpace(st: State, ch: byte) returns (st': State, a: Action)
      requires InBounds(buf) && Ok(Fields(st)) && (st.SpcAfterVal? || st.SpcObj? || st.AfterKey?)
      modifies this
      ensures InBounds(buf) && unchanged(`eaten, `reported, `line, `linechar)
      ensures buf == old(buf) || buf == NONE
      ensures Growing(st') ==> st.SpcObj? && buf == old(buf)
      ensures a.Return? || a.Stop? ==> Resting(st') && Reports(a.e)
      ensures st.SpcAfterVal? ==> Refines(a, Fields(st'), StepSpace(old(Fields(st)), ch))
      ensures st.SpcObj? ==> Refines(a, Fields(st'), StepObject(old(Fields(st)), ch))
      ensures st.AfterKey? ==> Refines(a, Fields(st'), StepColon(old(Fields(st)), ch))
    {
      hide Ok, OkOut;
      st', a := st, Go;
      if IsSpace(ch) {
      } else if ch == SLASH {
        nextstate := st;
        st', a := Cmt, Retry;
      } else if st.SpcAfterVal? {
        st', a := AfterVal, Retry;
      } else if st.SpcObj? {
        if ch == QUOTE {
          st' := InKey;
        } else if ch == RBRACE {
          InObject(Fields(st));
          ctxs := ctxs[..|ctxs| - 1];
          st', a := SpcAfterVal, Return(ObjClose);
        } else {
          a := Refuse(BadChar);
        }
      } else if ch == COLON {
        val, buf := [], NONE;
        st' := SpcVal;
      } else {
        a := Refuse(BadChar);
      }
    }

    /** One pass through the switch. */
    method Dispatch(st: State, data: seq<byte>, d: nat) returns (st': State, a: Action)
      requires esc.Length == 4 && d < |data| && InBounds(buf) && Ok(Fields(st))
      requires Adjacent(buf, st, data, d)
      modifies this, esc
      ensures InBounds(buf) && unchanged(`eaten, `reported, `line, `linechar)
      ensures a.Return? || a.Stop? ==> Resting(st') && Reports(a.e)
      ensures a.Go? ==> Adjacent(buf, st', data, d + 1)
      ensures a.Retry? ==> Adjacent(buf, st', data, d)
      ensures Refines(a, Fields(st'), Step(opts, old(Fields(st)), data[d]))
    {
      hide Ok, OkOut, StepValue, StepString, StepNumber, StepLiteral, StepSpace, StepAfter, StepObject, StepColon;
      hide StepComment, StepEscape;
      var ch := data[d];
      KnownEmpty(Fields(st));
      if st.SpcVal? || st.SpcArr? {
        st', a := OnValue(st, ch);
      } else if st.InStr? || st.InKey? {
        st', a := OnString(st, data, d);
      } else if st.InNum? {
        st', a := OnNumber(st, data, d);
      } else if st.InTrue? || st.InFalse? || st.InNull? {
        st', a := OnLiteral(st, ch);
      } else if st.AfterVal? {
        st', a := OnAfter(st, ch);
      } else if st.SpcAfterVal? || st.SpcObj? || st.AfterKey? {
        st', a := OnSpace(st, ch);
      } else if Commenting(st) {
        st', a := OnComment(st, ch);
      } else {
        st', a := OnEscape(st, ch);
      }
    }

    /** Count a byte that is used up. */
    method Advance(ch: byte)
      requires Position(line, linechar) == PositionAfter(eaten)
      modifies this`line, this`linechar, this`eaten
      ensures eaten == old(eaten) + [ch] && Position(line, linechar) == PositionAfter(eaten)
    {
      PositionNext(eaten, ch);
      eaten := eaten + [ch];
      linechar := linechar + 1;
      if ch == NEWLINE {
        line := line + 1;
        linechar := 1;
      }
    }

    /** Copy what is referred to, since the piece of input ends. */
    method Keep(st: State)
      requires InBounds(buf)
      modifies this`buf
      ensures InBounds(buf) && Fields(st) == old(Fields(st)) && (buf.Own? || buf.len == 0)
    {
      if buf.Ref? && buf.len != 0 {
        buf := Own(Text(buf));
      }
    }

    /** `ffjson_parse`: reads on from `from` until an event, an error or the end of the piece.
        `stop` is how far it looked; after an error the caller's position stays.  When more
        input is needed, nothing refers to the piece any more. */
    method Parse(data: seq<byte>, from: nat) returns (r: Answer, pos: nat, ghost stop: nat)
      requires Valid() && from <= |data|
      modifies this, esc
      ensures from <= pos <= |data| && from <= stop <= |data|
      ensures eaten == old(eaten) + data[from..stop] && Position(line, linechar) == PositionAfter(eaten)
      ensures !r.Bad? ==> Valid() && pos == stop
      ensures reported == old(reported) + (if r.Got? then [r.e] else [])
      ensures r.NeedMore? ==> pos == |data| && (buf.Own? || buf.len == 0)
      ensures r.NeedMore? ==> Same(opts, old(Fields(state)), data[from..], old(|eaten|), Fields(state), [], |eaten|)
      ensures r.Got? ==> Reports(r.e) && (pos > from || Rank(state) < Rank(old(state)))
      ensures r.Got? ==>
        Returned(opts, old(Fields(state)), data[from..], old(|eaten|), r.e, Fields(state), data[pos..], |eaten|)
      ensures r.Bad? ==> pos == from && Refused(opts, old(Fields(state)), data[from..], old(|eaten|), r.err, |eaten|)
    {
      hide Ok, OkOut, Step, Run, Offsets, Used, PositionAfter, Same, Returned, Refused, Adjacent, Detached, InBounds;
      hide Text, Rank, Growing, Escaping, OkAt, Base, Commenting, Agree, Follow, Next;
      ghost var c, s, k, g := Fields(state), data[from..], |eaten|, Follow(START, reported).value;
      SameStart(opts, c, s, k);
      FreshPiece(buf, state, data, from);
      var st, a;
      st, a, pos := Rounds(state, data, from, c, s, k, g);
      stop := pos;
      if a.Refuse? { return Bad(a.err), from, pos; }
      if a.Go? {
        Keep(st);
        Kept(buf, st);
        state := st;
        return NeedMore, pos, pos;
      }
      FollowOne(reported, a.e);
      reported := reported + [a.e];
      state := st;
      r := Got(a.e);
    }

    /** The loop: rounds until an event, an error or the end of the piece (`Go`). */
    method Rounds(st0: State, data: seq<byte>, from: nat,
                  ghost c0: Core, ghost s0: seq<byte>, ghost k0: nat, ghost g: Place)
      returns (st: State, a: Action, d: nat)
      requires esc.Length == 4 && from <= |data| && InBounds(buf) && Ok(Fields(st0)) && Ok(c0) && !st0.AfterVal?
      requires Adjacent(buf, st0, data, from) && Agree(Fields(st0), g)
      requires Same(opts, c0, s0, k0, Fields(st0), data[from..], |eaten|)
      requires Position(line, linechar) == PositionAfter(eaten)
      modifies this, esc
      ensures from <= d <= |data| && InBounds(buf) && reported == old(reported)
      ensures eaten == old(eaten) + data[from..d] && Position(line, linechar) == PositionAfter(eaten)
      ensures !a.Retry? && (!a.Refuse? ==> Ok(Fields(st)) && !st.AfterVal?)
      ensures a.Go? ==> d == |data| && Agree(Fields(st), g) && Same(opts, c0, s0, k0, Fields(st), [], |eaten|)
      ensures a.Return? || a.Stop? ==>
        && Reports(a.e) && Detached(buf, st) && Next(g, a.e).Some? && Agree(Fields(st), Next(g, a.e).value)
        && Returned(opts, c0, s0, k0, a.e, Fields(st), data[d..], |eaten|) && (d > from || Rank(st) < Rank(st0))
      ensures a.Refuse? ==> Refused(opts, c0, s0, k0, a.err, |eaten|)
    {
      hide Ok, OkOut, Step, Run, Offsets, Used, PositionAfter, Same, Returned, Refused, Adjacent, Detached, InBounds;
      hide Text, Rank, Growing, Escaping, OkAt, Base, Commenting, Agree, Follow, Next;
      ghost var seen := eaten;
      st, a, d := st0, Go, from;
      while d != |data|
        invariant from <= d <= |data| && esc.Length == 4 && InBounds(buf) && Ok(Fields(st))
        invariant Adjacent(buf, st, data, d) && (d > from || Rank(st) <= Rank(st0))
        invariant eaten == seen + data[from..d] && Position(line, linechar) == PositionAfter(eaten)
        invariant Same(opts, c0, s0, k0, Fields(st), data[d..], |eaten|)
        invariant reported == old(reported) && Agree(Fields(st), g) && (d == |data| ==> a.Go? && !st.AfterVal?)
        decreases |data| - d, Rank(st)
      {
        st, a := Turn(st, data, d, c0, s0, k0, g);
        if a.Refuse? || a.Stop? { return; }
        if !a.Retry? {
          assert data[from..d + 1] == data[from..d] + [data[d]];
          Advance(data[d]);
          d := d + 1;
          if a.Return? { return; }
        }
      }
      assert data[d..] == [];
    }

    /** One round of the loop: what it means for reading s0 from c0, and for the place g in
        the grammar. */
    method Turn(st: State, data: seq<byte>, d: nat, ghost c0: Core, ghost s0: seq<byte>, ghost k0: nat, ghost g: Place)
      returns (st': State, a: Action)
      requires esc.Length == 4 && d < |data| && InBounds(buf) && Ok(Fields(st)) && Ok(c0)
      requires Adjacent(buf, st, data, d) && Agree(Fields(st), g)
      requires Same(opts, c0, s0, k0, Fields(st), data[d..], |eaten|)
      modifies this, esc
      ensures InBounds(buf) && unchanged(`eaten, `reported, `line, `linechar)
      ensures !a.Refuse? ==> Ok(Fields(st'))
      ensures a.Go? ==>
        && Adjacent(buf, st', data, d + 1) && Same(opts, c0, s0, k0, Fields(st'), data[d + 1..], |eaten| + 1)
        && Agree(Fields(st'), g) && !st'.AfterVal?
      ensures a.Retry? ==>
        && Adjacent(buf, st', data, d) && Same(opts, c0, s0, k0, Fields(st'), data[d..], |eaten|)
        && Agree(Fields(st'), g)
      ensures a.Return? || a.Stop? ==>
        && Reports(a.e) && Detached(buf, st')
        && Next(g, a.e).Some? && Agree(Fields(st'), Next(g, a.e).value) && !st'.AfterVal?
      ensures a.Return? ==> Returned(opts, c0, s0, k0, a.e, Fields(st'), data[d + 1..], |eaten| + 1)
      ensures a.Stop? ==> Returned(opts, c0, s0, k0, a.e, Fields(st'), data[d..], |eaten|)
      ensures a.Retry? || a.Stop? ==> Rank(st') < Rank(st)
      ensures a.Refuse? ==> Refused(opts, c0, s0, k0, a.err, |eaten|)
    {
      hide Ok, OkOut, Step, Run, Offsets, Used, Same, Returned, Refused, Adjacent, Detached, InBounds;
      hide Text, Resting, Rank, Growing, Escaping, OkAt, Base, Commenting, Agree, Next;
      ghost var c, s, k := Fields(st), data[d..], |eaten|;
      assert s[0] == data[d] && s[1..] == data[d + 1..];
      st', a := Dispatch(st, data, d);
      StepRank(opts, c, s[0]);
      StepPlace(opts, c, s[0], g);
      Passed(opts, c0, s0, k0, c, s, k);
      if a.Stop? || a.Return? { AtRest(buf, st'); }
    }

    /** `ffjson_fin`: the end of the input.  It is accepted exactly if the events returned
        so far are one complete value, but for the two cases of a comment. */
    method Finish() returns (accepted: bool)
      requires Valid()
      ensures accepted == Fin(Fields(state))
      ensures (accepted <==> Complete(reported)) <==> !CommentMisleads(Fields(state))
    {
      FinComplete(Fields(state), reported);
      accepted := |ctxs| == 0 && (state.CmtLn? || state.SpcAfterVal?);
    }
  }

  // ---------- reading on, as equations between runs ----------

  /** Reading s from c is reading s1 from c1. */
  ghost predicate Same(o: Options, c: Core, s: seq<byte>, k: nat, c1: Core, s1: seq<byte>, k1: nat)
    requires Ok(c) && Ok(c1)
  {
    && Run(o, c, s) == Run(o, c1, s1)
    && Offsets(o, c, s, k) == Offsets(o, c1, s1, k1)
    && Used(o, c, s, k) == Used(o, c1, s1, k1)
  }

  /** The first event of s is e, and reading goes on with s1 from c1. */
  ghost predicate Returned(o: Options, c: Core, s: seq<byte>, k: nat, e: Event, c1: Core, s1: seq<byte>, k1: nat)
    requires Ok(c) && Ok(c1)
  {
    && Run(o, c, s) == Prefix([e], Run(o, c1, s1))
    && Offsets(o, c, s, k) == [k1] + Offsets(o, c1, s1, k1)
    && Used(o, c, s, k) == Used(o, c1, s1, k1)
  }

  /** Reading s ends in an error before any event. */
  ghost predicate Refused(o: Options, c: Core, s: seq<byte>, k: nat, err: Error, k1: nat)
    requires Ok(c)
  {
    Run(o, c, s) == Result([], End.Error(err)) && Offsets(o, c, s, k) == [] && Used(o, c, s, k) == k1
  }

  lemma NoText()
    ensures Text(NONE) == []
  {}

  lemma InitStands()
    ensures Ok(INIT) && Stands(INIT, []) && PositionAfter([]) == Position(1, 1)
  {}

  lemma FinComplete(c: Core, evs: seq<Event>)
    requires Ok(c) && Stands(c, evs)
    ensures (Fin(c) <==> Complete(evs)) <==> !CommentMisleads(c)
  {
    hide Follow, OkAt, Inside;
  }

  /** The step that leads to the next state leads to its place. */
  ghost predicate Placed(r: Out, g: Place) {
    if r.Fail? then true
    else if r.Eat? then Agree(r.c, g) && !r.c.st.AfterVal?
    else if r.Again? then Agree(r.c, g)
    else Next(g, r.e).Some? && Agree(r.c, Next(g, r.e).value) && !r.c.st.AfterVal?
  }

  lemma StepPlace(o: Options, c: Core, ch: byte, g: Place)
    requires Ok(c) && Agree(c, g)
    ensures Placed(Step(o, c, ch), g)
  {
    hide Step, Ok, Agree, Next, Commenting;
    StepFits(o, c, ch, g);
  }

  lemma FollowOne(evs: seq<Event>, e: Event)
    requires Follow(START, evs).Some?
    ensures Follow(START, evs + [e]) == Next(Follow(START, evs).value, e)
  {
    hide Next;
    FollowAppend(START, evs, [e]);
  }

  lemma Kept(b: Buffer, st: State)
    requires b.Own? || b.len == 0
    ensures Detached(b, st)
  {}

  lemma AtRest(b: Buffer, st: State)
    requires Resting(st)
    ensures Detached(b, st)
  {}

  lemma FreshPiece(b: Buffer, st: State, data: seq<byte>, pos: nat)
    requires Detached(b, st)
    ensures Adjacent(b, st, data, pos)
  {}

  lemma SameStart(o: Options, c: Core, s: seq<byte>, k: nat)
    requires Ok(c)
    ensures Same(o, c, s, k, c, s, k)
  {}

  /** What a step means for reading s0 from c0, when so far that is reading s from c. */
  ghost predicate Onwards(o: Options, c0: Core, s0: seq<byte>, k0: nat, r: Out, s: seq<byte>, k: nat)
    requires Ok(c0) && s != []
  {
    if r.Fail? then Refused(o, c0, s0, k0, r.err, k) else
    Ok(r.c) &&
    if r.Eat? then Same(o, c0, s0, k0, r.c, s[1..], k + 1)
    else if r.Again? then Same(o, c0, s0, k0, r.c, s, k)
    else if r.Emit? then Returned(o, c0, s0, k0, r.e, r.c, s[1..], k + 1)
    else Returned(o, c0, s0, k0, r.e, r.c, s, k)
  }

  /** One step further. */
  lemma Passed(o: Options, c0: Core, s0: seq<byte>, k0: nat, c: Core, s: seq<byte>, k: nat)
    requires Ok(c0) && Ok(c) && s != [] && Same(o, c0, s0, k0, c, s, k)
    ensures Onwards(o, c0, s0, k0, Step(o, c, s[0]), s, k)
  {
    hide Step, Ok;
    StepRank(o, c, s[0]);
  }

  /** States in which the text is still empty, and what a comment returns to. */
  lemma KnownEmpty(c: Core)
    requires Ok(c)
    ensures c.st.SpcVal? || c.st.SpcArr? || c.st.SpcObj? ==> |c.buf| == 0
    ensures Commenting(c.st) ==> Skipping(c.next)
  {}

  lemma InArray(c: Core)
    requires Ok(c) && c.st.SpcArr?
    ensures |c.ctxs| > 0
  {}

  lemma InObject(c: Core)
    requires Ok(c) && c.st.SpcObj?
    ensures |c.ctxs| > 0
  {}

  // ---------- input in pieces ----------

  function Joined(pieces: seq<seq<byte>>): seq<byte> {
    if pieces == [] then [] else pieces[0] + Joined(pieces[1..])
  }

  /** What reading a document ends with. */
  datatype Verdict = Accepted | Rejected(err: Error, at: Position)

  ghost function Locate(evs: seq<Event>, at: seq<nat>, s: seq<byte>): (r: seq<Located>)
    requires |evs| == |at| && forall i :: 0 <= i < |at| ==> at[i] <= |s|
    ensures |r| == |evs|
  { seq(|evs|, i requires 0 <= i < |evs| => Located(evs[i], PositionAfter(s[..at[i]]))) }

  /** All a caller sees of a document: its events with their line and character
      numbers, and the verdict. */
  ghost function Seen(o: Options, s: seq<byte>): seq<Located> {
    Locate(Run(o, INIT, s).evs, Offsets(o, INIT, s, 0), s)
  }

  ghost function Decided(o: Options, s: seq<byte>): Verdict {
    match Run(o, INIT, s).end
    case Error(err) => Rejected(err, PositionAfter(s[..Used(o, INIT, s, 0)]))
    case More(c) => if Fin(c) then Accepted else Rejected(Incomplete, PositionAfter(s))
  }

  /** `es`, at `ats`, are the events of `s` before `rest`, which is read next from `c`. */
  ghost predicate Reached(o: Options, s: seq<byte>, es: seq<Event>, ats: seq<nat>, c: Core, rest: seq<byte>, k: nat)
    requires Ok(c)
  {
    && |es| == |ats| && k + |rest| == |s|
    && (forall i :: 0 <= i < |ats| ==> ats[i] <= |s|)
    && Run(o, INIT, s) == Prefix(es, Run(o, c, rest))
    && Offsets(o, INIT, s, 0) == ats + Offsets(o, c, rest, k)
    && Used(o, INIT, s, 0) == Used(o, c, rest, k)
  }

  lemma ReachedStart(o: Options, s: seq<byte>)
    ensures Reached(o, s, [], [], INIT, s, 0)
  {}

  lemma ReachedMore(o: Options, s: seq<byte>, es: seq<Event>, ats: seq<nat>, c: Core, a: seq<byte>, b: seq<byte>,
                    k: nat, c1: Core, k1: nat)
    requires Ok(c) && Ok(c1) && Reached(o, s, es, ats, c, a + b, k) && Same(o, c, a, k, c1, [], k1) && k1 == k + |a|
    ensures Reached(o, s, es, ats, c1, b, k1)
  {
    hide Ok, Run, Offsets, Used;
    RunAppend(o, c, a, b);
    OffsetsAppend(o, c, a, b, k);
    UsedAppend(o, c, a, b, k);
    NothingRead(o, c1, k1);
    assert ats + ([] + Offsets(o, c1, b, k1)) == ats + Offsets(o, c1, b, k1);
    assert es + ([] + Run(o, c1, b).evs) == es + Run(o, c1, b).evs;
  }

  lemma NothingRead(o: Options, c: Core, k: nat)
    requires Ok(c)
    ensures Run(o, c, []) == Result([], More(c)) && Offsets(o, c, [], k) == [] && Used(o, c, [], k) == k
  {}

  lemma ReachedEvent(o: Options, s: seq<byte>, es: seq<Event>, ats: seq<nat>, c: Core, a: seq<byte>, b: seq<byte>,
                     k: nat, e: Event, c1: Core, a1: seq<byte>, k1: nat)
    requires Ok(c) && Ok(c1) && Reached(o, s, es, ats, c, a + b, k) && Returned(o, c, a, k, e, c1, a1, k1)
    requires k1 + |a1| == k + |a|
    ensures Reached(o, s, es + [e], ats + [k1], c1, a1 + b, k1)
  {
    hide Ok, Run, Offsets, Used;
    RunAppend(o, c, a, b);
    RunAppend(o, c1, a1, b);
    PrefixThen(o, [e], Run(o, c1, a1), b);
    OffsetsAppend(o, c, a, b, k);
    OffsetsAppend(o, c1, a1, b, k1);
    UsedAppend(o, c, a, b, k);
    UsedAppend(o, c1, a1, b, k1);
    assert es + ([e] + Run(o, c1, a1 + b).evs) == (es + [e]) + Run(o, c1, a1 + b).evs;
    assert ats + ([k1] + Offsets(o, c1, a1 + b, k1)) == (ats + [k1]) + Offsets(o, c1, a1 + b, k1);
  }

  lemma ReachedError(o: Options, s: seq<byte>, es: seq<Event>, ats: seq<nat>, c: Core, a: seq<byte>, b: seq<byte>,
                     k: nat, err: Error, k1: nat)
    requires Ok(c) && Reached(o, s, es, ats, c, a + b, k) && Refused(o, c, a, k, err, k1) && k1 <= |s|
    ensures Seen(o, s) == Locate(es, ats, s) && Decided(o, s) == Rejected(err, PositionAfter(s[..k1]))
  {
    hide Ok, PositionAfter;
    RunAppend(o, c, a, b);
    OffsetsAppend(o, c, a, b, k);
    UsedAppend(o, c, a, b, k);
    assert es + [] == es && ats + [] == ats;
  }

  lemma ReachedEnd(o: Options, s: seq<byte>, es: seq<Event>, ats: seq<nat>, c: Core, k: nat)
    requires Ok(c) && Reached(o, s, es, ats, c, [], k)
    ensures Seen(o, s) == Locate(es, ats, s)
    ensures Decided(o, s) == if Fin(c) then Accepted else Rejected(Incomplete, PositionAfter(s))
  {
    hide Ok, PositionAfter;
    assert es + [] == es && ats + [] == ats;
  }

  lemma LocateNext(es: seq<Event>, ats: seq<nat>, s: seq<byte>, e: Event, k: nat, h: seq<byte>)
    requires |es| == |ats| && (forall i :: 0 <= i < |ats| ==> ats[i] <= |s|) && k <= |s| && s[..k] == h
    ensures Locate(es + [e], ats + [k], s) == Locate(es, ats, s) + [Located(e, PositionAfter(h))]
  {}

  ghost predicate Sound(es: seq<Event>, ats: seq<nat>, s: seq<byte>) {
    |es| == |ats| && forall i :: 0 <= i < |ats| ==> ats[i] <= |s|
  }

  /** The reader j, its eaten input, and the events so far stand at `rest` of document s. */
  ghost predicate At(j: Parser, s: seq<byte>, es: seq<Event>, ats: seq<nat>, rest: seq<byte>, evs: seq<Located>)
    reads j, j.esc
  {
    && j.Valid() && s == j.eaten + rest
    && Reached(j.opts, s, es, ats, j.Fields(j.state), rest, |j.eaten|)
    && Sound(es, ats, s) && evs == Locate(es, ats, s)
  }

  /** One call of `ffjson_parse` on a piece of input that `b` follows. */
  method Call(j: Parser, data: seq<byte>, d: nat, evs: seq<Located>, ghost s: seq<byte>, ghost b: seq<byte>,
              ghost es: seq<Event>, ghost ats: seq<nat>)
    returns (r: Answer, pos: nat, evs': seq<Located>, ghost es': seq<Event>, ghost ats': seq<nat>)
    requires d <= |data| && At(j, s, es, ats, data[d..] + b, evs)
    modifies j, j.esc
    ensures d <= pos <= |data| && (r.NeedMore? ==> pos == |data|)
    ensures r.Got? ==> pos > d || Rank(j.state) < Rank(old(j.state))
    ensures !r.Bad? ==> At(j, s, es', ats', data[pos..] + b, evs')
    ensures r.Bad? ==> evs' == Seen(j.opts, s) && Rejected(r.err, Position(j.line, j.linechar)) == Decided(j.opts, s)
  {
    hide Ok, OkOut, Run, Offsets, Used, PositionAfter, Reached, Same, Returned, Refused, Seen, Decided, Locate, Rank;
    ghost var stop;
    ghost var c, a, k := j.Fields(j.state), data[d..], |j.eaten|;
    r, pos, stop := j.Parse(data, d);
    assert a == data[d..stop] + data[stop..];
    assert s == j.eaten + (data[stop..] + b);
    evs', es', ats' := evs, es, ats;
    match r
    case NeedMore =>
      ReachedMore(j.opts, s, es, ats, c, a, b, k, j.Fields(j.state), |j.eaten|);
      assert data[pos..] + b == b;
    case Got(e) =>
      ReachedEvent(j.opts, s, es, ats, c, a, b, k, e, j.Fields(j.state), data[pos..], |j.eaten|);
      LocateNext(es, ats, s, e, |j.eaten|, j.eaten);
      evs' := evs + [Located(e, Position(j.line, j.linechar))];
      es', ats' := es + [e], ats + [|j.eaten|];
    case Bad(err) =>
      ReachedError(j.opts, s, es, ats, c, a, b, k, err, |j.eaten|);
      assert s[..|j.eaten|] == j.eaten;
  }

  lemma RejectedAs(o: Options, s: seq<byte>)
    ensures Decided(o, s).Rejected? ==>
      var end := Run(o, INIT, s).end;
      Decided(o, s).err == if end.Error? then end.err else Incomplete
  {
    hide Run, Fin, PositionAfter;
  }

  /** Reads a document that arrives in pieces, as a caller of `ffjson_parse` and
      `ffjson_fin` does.  The result depends on the joined input alone, so it does not
      matter where the input is cut. */
  method ParseAll(o: Options, pieces: seq<seq<byte>>) returns (evs: seq<Located>, v: Verdict)
    ensures evs == Seen(o, Joined(pieces))
    ensures v == Decided(o, Joined(pieces))
    ensures v.Rejected? ==>
      var end := Run(o, INIT, Joined(pieces)).end;
      v.err == if end.Error? then end.err else Incomplete
  {
    hide Ok, OkOut, Run, Offsets, Used, PositionAfter, Reached, Seen, Decided, Locate, Rank;
    var j := new Parser(o);
    ghost var s := Joined(pieces);
    ghost var es: seq<Event>, ats: seq<nat> := [], [];
    evs := [];
    ReachedStart(o, s);
    RejectedAs(o, s);
    assert Locate([], [], s) == [];
    var i := 0;
    assert pieces[0..] == pieces;
    while i < |pieces|
      invariant 0 <= i <= |pieces| && fresh(j) && fresh(j.esc) && j.opts == o
      invariant At(j, s, es, ats, Joined(pieces[i..]), evs)
    {
      var data := pieces[i];
      ghost var b := Joined(pieces[i + 1..]);
      assert pieces[i..][0] == data && pieces[i..][1..] == pieces[i + 1..];
      var d := 0;
      assert data[0..] == data;
      while d < |data|
        invariant 0 <= d <= |data| && fresh(j) && fresh(j.esc) && j.opts == o
        invariant At(j, s, es, ats, data[d..] + b, evs)
        decreases |data| - d, Rank(j.state)
      {
        var r;
        r, d, evs, es, ats := Call(j, data, d, evs, s, b, es, ats);
        if r.Bad? { return evs, Rejected(r.err, Position(j.line, j.linechar)); }
      }
      assert data[d..] + b == b;
      i := i + 1;
    }
    assert pieces[i..] == [] && s == j.eaten;
    ReachedEnd(o, s, es, ats, j.Fields(j.state), |j.eaten|);
    var accepted := j.Finish();
    v := if accepted then Accepted else Rejected(Incomplete, Position(j.line, j.linechar));
  }
}
