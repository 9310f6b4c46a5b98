/** Which texts the JSON reader accepts.

    `AcceptedExactly` in JsonGrammar is about the events; this is about the text.  A text is
    accepted exactly if it is a spelling of one complete value, with space and comments
    after it, and not just a number that nothing follows; or if it holds no value and ends in
    a comment up to the end of its line (`AcceptedExactlySpelled`).
  */
module JsonLanguage {
  import opened JsonGrammar
  import opened JsonSpelling
  import opened JsonStep
  import opened JsonText
  import opened Optional

  /** From c the rest of the input is accepted. */
  ghost predicate Accepts(o: Options, c: Core, s: seq<byte>) {
    Ok(c) && Run(o, c, s).end.More? && Fin(Run(o, c, s).end.c)
  }

  lemma AcceptsNext(o: Options, c: Core, s: seq<byte>)
    requires Accepts(o, c, s) && s != []
    ensures var r := Step(o, c, s[0]);
      && !r.Fail?
      && (r.Eat? || r.Emit? ==> Accepts(o, r.c, s[1..]))
      && (r.Again? || r.Hold? ==> Accepts(o, r.c, s))
  {
    hide Step, Ok, Run, Fin;
    RunNext(o, c, s);
  }

  /** Nowhere else the input may end. */
  lemma AcceptsMore(o: Options, c: Core, s: seq<byte>)
    requires Accepts(o, c, s) && !c.st.SpcAfterVal? && !c.st.CmtLn?
    ensures s != []
  {
    hide Step, Ok;
  }

  /** Past a text that is known to be read. */
  lemma AcceptsPast(o: Options, c: Core, s: seq<byte>, n: nat, evs: seq<Event>, c': Core)
    requires Accepts(o, c, s) && n <= |s| && Reads(o, c, s[..n], evs, c')
    ensures Accepts(o, c', s[n..]) && Run(o, c, s).evs == evs + Run(o, c', s[n..]).evs
  {
    hide Ok, Run, Fin;
    RunAppend(o, c, s[..n], s[n..]);
    assert s == s[..n] + s[n..];
  }

  lemma AcceptsOk(o: Options, c: Core, s: seq<byte>)
    requires Accepts(o, c, s)
    ensures Ok(c)
  {}

  // ---------- space and comments ----------

  /** A comment up to the end of its line in which the text ends. */
  predicate OpenLine(o: Options, s: seq<byte>) {
    o.comments && |s| >= 2 && s[0] == SLASH && s[1] == SLASH && NEWLINE !in s[2..]
  }

  /** How far the line goes. */
  function LineEnd(s: seq<byte>): (n: nat)
    ensures n <= |s| && NEWLINE !in s[..n] && (n < |s| ==> s[n] == NEWLINE)
  { if s == [] || s[0] == NEWLINE then 0 else 1 + LineEnd(s[1..]) }

  /** The text of a comment that is closed. */
  lemma {:induction false} BlockRead(o: Options, c: Core, s: seq<byte>) returns (t: seq<byte>)
    requires Accepts(o, c, s) && c.st.CmtMln?
    ensures BlockText(t) && t + [STAR, SLASH] <= s
    decreases |s|
  {
    hide OkOut, OkAt, Run, Fin;
    AcceptsMore(o, c, s);
    AcceptsNext(o, c, s);
    if s[0] != STAR {
      assert Step(o, c, s[0]) == Eat(c);
      var u := BlockRead(o, c, s[1..]);
      t := [s[0]] + u;
      assert t[1..] == u && [s[0]] == s[..1];
      Prefixed(s, [s[0]], u + [STAR, SLASH]);
      assert [s[0]] + (u + [STAR, SLASH]) == t + [STAR, SLASH];
    } else {
      var c1 := c.(st := CmtMlnSl);
      assert Step(o, c, s[0]) == Eat(c1);
      AcceptsMore(o, c1, s[1..]);
      AcceptsNext(o, c1, s[1..]);
      if s[1] == SLASH {
        t := [];
        assert [] + [STAR, SLASH] == s[..2];
      } else {
        assert Step(o, c1, s[1]) == Eat(c);
        Rest(s, 1, 1);
        var u := BlockRead(o, c, s[2..]);
        t := s[..2] + u;
        assert t[2..] == u;
        Prefixed(s, s[..2], u + [STAR, SLASH]);
        assert s[..2] + (u + [STAR, SLASH]) == t + [STAR, SLASH];
      }
    }
  }

  /** A slash starts a comment that ends, or one that the text ends in. */
  lemma CommentRead(o: Options, c: Core, s: seq<byte>) returns (g: Option<Gap>)
    requires Accepts(o, c, s) && Skipping(c.st) && s != [] && s[0] == SLASH
    ensures if g.Some? then GapFits(o, g.value) && GapText(g.value) <= s else OpenLine(o, s)
  {
    hide OkOut, OkAt, Run, Fin, BlockText;
    var c1 := c.(next := c.st, st := Cmt);
    var c2 := c1.(st := CmtSl);
    AcceptsNext(o, c, s);
    assert Step(o, c, s[0]) == Again(c1);
    AcceptsNext(o, c1, s);
    assert Step(o, c1, s[0]) == Eat(c2);
    AcceptsMore(o, c2, s[1..]);
    AcceptsNext(o, c2, s[1..]);
    Rest(s, 1, 1);
    if s[1] == SLASH {
      var x := s[2..];
      var n := LineEnd(x);
      if n == |x| {
        assert x[..n] == x;
        g := None;
      } else {
        g := Some(Line(x[..n]));
        assert s[..2 + (n + 1)] == [SLASH, SLASH] + (x[..n] + [NEWLINE]);
      }
    } else {
      var c3 := c1.(st := CmtMln);
      assert Step(o, c2, s[1]) == Eat(c3);
      var t := BlockRead(o, c3, s[2..]);
      g := Some(Block(t));
      assert s[..2] == [SLASH, STAR];
      Prefixed(s, [SLASH, STAR], t + [STAR, SLASH]);
    }
  }

  /** All space and comments that a text starts with. */
  lemma {:induction false} GapsRead(o: Options, c: Core, s: seq<byte>) returns (gs: seq<Gap>, c': Core, n: nat)
    requires Accepts(o, c, s) && Skipping(c.st)
    ensures n <= |s| && Blank(o, gs) && GapsText(gs) == s[..n] && Resumed(c, c') && Accepts(o, c', s[n..])
    ensures n < |s| ==> !IsSpace(s[n]) && (s[n] == SLASH ==> OpenLine(o, s[n..]))
    ensures Run(o, c, s).evs == Run(o, c', s[n..]).evs
    decreases |s|
  {
    hide *;
    gs, c', n := [], c, 0;
    StaysHere(o, c, s);
    if s == [] || (!IsSpace(s[0]) && s[0] != SLASH) {
    } else {
      var g := GapRead(o, c, s);
      if g.Some? {
        var m := |GapText(g.value)|;
        assert s[..m] == GapText(g.value);
        AcceptsOk(o, c, s);
        var c1 := ReadsGap(o, c, g.value);
        AcceptsPast(o, c, s, m, [], c1);
        AcceptsOk(o, c1, s[m..]);
        ResumedSkips(c, c1);
        gs, c', n := GapsRead(o, c1, s[m..]);
        Rest(s, m, n);
        GapsCons(o, g.value, gs);
        ResumedTwice(c, c1, c');
        assert s[..m] + s[m..m + n] == s[..m + n];
        assert [] + Run(o, c1, s[m..]).evs == Run(o, c1, s[m..]).evs;
        gs, n := [g.value] + gs, m + n;
      }
    }
  }

  lemma StaysHere(o: Options, c: Core, s: seq<byte>)
    requires Accepts(o, c, s)
    ensures s[..0] == [] == GapsText([]) && s[0..] == s && Blank(o, []) && Resumed(c, c) && Ok(c)
  {
    hide Run, Fin, Ok;
  }

  lemma GapRead(o: Options, c: Core, s: seq<byte>) returns (g: Option<Gap>)
    requires Accepts(o, c, s) && Skipping(c.st) && s != [] && (IsSpace(s[0]) || s[0] == SLASH)
    ensures if g.Some? then GapFits(o, g.value) && GapText(g.value) <= s && GapText(g.value) != []
            else !IsSpace(s[0]) && OpenLine(o, s)
  {
    hide Accepts, OpenLine, Skipping;
    if IsSpace(s[0]) {
      g := Some(White(s[0]));
      assert [s[0]] == s[..1];
    } else {
      g := CommentRead(o, c, s);
    }
  }

  lemma GapsCons(o: Options, g: Gap, gs: seq<Gap>)
    requires GapFits(o, g) && Blank(o, gs)
    ensures Blank(o, [g] + gs) && GapsText([g] + gs) == GapText(g) + GapsText(gs)
  {
    hide GapFits, GapText;
    assert ([g] + gs)[1..] == gs;
  }

  lemma ResumedSkips(c: Core, c1: Core)
    requires Resumed(c, c1) && Skipping(c.st)
    ensures Skipping(c1.st)
  {}

  lemma ResumedTwice(c: Core, c1: Core, c2: Core)
    requires Resumed(c, c1) && Resumed(c1, c2)
    ensures Resumed(c, c2)
  {
    hide Ok;
  }

  /** A text that ends in a comment is accepted outside of all brackets, and holds no event. */
  lemma OpenLineEnds(o: Options, c: Core, s: seq<byte>)
    requires Accepts(o, c, s) && Skipping(c.st) && OpenLine(o, s)
    ensures |c.ctxs| == 0 && Run(o, c, s).evs == []
  {
    hide OkOut, OkAt, Reads;
    var c1 := ReadsOpening(o, c, SLASH);
    ReadsLine(o, c1, s[2..]);
    ReadsThen(o, c, [SLASH, SLASH], c1, s[2..], [], c1);
    assert [SLASH, SLASH] + s[2..] == s;
    EndsThere(o, c, s, c1);
  }

  lemma EndsThere(o: Options, c: Core, s: seq<byte>, c1: Core)
    requires Accepts(o, c, s) && Reads(o, c, s, [], c1)
    ensures Fin(c1) && Run(o, c, s).evs == []
  {
    hide Run, Ok, Fin;
  }

  // ---------- strings ----------

  /** What is left after the first n bytes of what is left after the first m. */
  lemma Rest(s: seq<byte>, m: nat, n: nat)
    requires m + n <= |s|
    ensures s[m..][n..] == s[m + n..] && s[m..][..n] == s[m..m + n]
  {}

  lemma FourDigits(o: Options, c: Core, t: seq<byte>) returns (c': Core)
    requires Accepts(o, c, t) && c.st.EscU? && c.escLen == 0
    ensures |t| >= 4 && StepWord(c.(esc := t[..4], escLen := 4), HexWord(t[..4])) == Eat(c')
    ensures Accepts(o, c', t[4..])
  {
    hide OkOut, OkAt, Run, Fin, StepWord, HexWord;
    AcceptsMore(o, c, t);
    AcceptsNext(o, c, t);
    var c1 := c.(esc := c.esc[0 := t[0]], escLen := 1);
    assert Step(o, c, t[0]) == Eat(c1);
    AcceptsMore(o, c1, t[1..]);
    AcceptsNext(o, c1, t[1..]);
    Rest(t, 1, 1);
    var c2 := c1.(esc := c1.esc[1 := t[1]], escLen := 2);
    assert Step(o, c1, t[1]) == Eat(c2);
    AcceptsMore(o, c2, t[2..]);
    AcceptsNext(o, c2, t[2..]);
    Rest(t, 2, 1);
    var c3 := c2.(esc := c2.esc[2 := t[2]], escLen := 3);
    assert Step(o, c2, t[2]) == Eat(c3);
    AcceptsMore(o, c3, t[3..]);
    AcceptsNext(o, c3, t[3..]);
    Rest(t, 3, 1);
    var c4 := c3.(esc := c3.esc[3 := t[3]], escLen := 4);
    assert c4.esc == t[..4];
    assert Step(o, c3, t[3]) == StepWord(c4, HexWord(t[..4]));
    WordEats(c4, HexWord(t[..4]));
    c' := Step(o, c3, t[3]).c;
  }

  lemma WordEats(c: Core, w: int)
    requires -1 <= w < 0x1_0000 && (c.hi == 0 || HighSurrogate(c.hi))
    ensures StepWord(c, w).Fail? || StepWord(c, w).Eat?
  {}

  /** After `\u`: one number, or two for a surrogate pair. */
  lemma UnicodePiece(o: Options, c: Core, s: seq<byte>, t: seq<byte>) returns (p: Piece, c': Core)
    requires Accepts(o, c, t) && c.st.EscU? && c.escLen == 0 && c.hi == 0 && !o.keepEscapes
    requires s == [BACKSLASH, 117] + t
    ensures Allowed(o, p) && PieceText(p) <= s && Accepts(o, c', s[|PieceText(p)|..])
    ensures Alike(c', c.(st := c.next, buf := c.buf + PieceBytes(p)))
  {
    hide OkOut, Run, Fin, Utf8, HexWord, Step;
    var c1 := FourDigits(o, c, t);
    var high := t[..4];
    AcceptsOk(o, c1, t[4..]);
    if Basic(HexWord(high)) {
      p, c' := Unit(high), c1;
      assert s[6..] == t[4..] && s[..6] == PieceText(p);
    } else {
      c' := LowPiece(o, c1, t[4..]);
      var low := t[6..10];
      assert t[4..][2..6] == low && t[4..][6..] == t[10..];
      p := Pair(high, low);
      assert s[12..] == t[10..] && s[..12] == PieceText(p);
    }
  }

  /** The second half of a surrogate pair. */
  lemma LowPiece(o: Options, c: Core, t: seq<byte>) returns (c': Core)
    requires Accepts(o, c, t) && c.st.U2Backslash?
    ensures |t| >= 6 && t[0] == BACKSLASH && t[1] == 117 && LowSurrogate(HexWord(t[2..6])) && Accepts(o, c', t[6..])
    ensures Alike(c', c.(st := c.next, buf := c.buf + Utf8(Supplementary(c.hi, HexWord(t[2..6])))))
  {
    hide OkOut, Run, Fin, Utf8, HexWord, Supplementary;
    AcceptsMore(o, c, t);
    AcceptsNext(o, c, t);
    var c1, c2 := c.(st := U2), c.(st := EscU);
    assert Step(o, c, t[0]) == Eat(c1);
    AcceptsMore(o, c1, t[1..]);
    AcceptsNext(o, c1, t[1..]);
    assert Step(o, c1, t[1]) == Eat(c2);
    Rest(t, 1, 1);
    c' := FourDigits(o, c2, t[2..]);
    Rest(t, 2, 4);
    AcceptsOk(o, c', t[6..]);
  }

  /** The first part of a string that does not end here. */
  lemma OnePiece(o: Options, c: Core, s: seq<byte>) returns (p: Piece, c': Core)
    requires Accepts(o, c, s) && (c.st.InStr? || c.st.InKey?) && s != [] && s[0] != QUOTE
    ensures Allowed(o, p) && PieceText(p) <= s && Accepts(o, c', s[|PieceText(p)|..])
    ensures Alike(c', c.(buf := c.buf + PieceBytes(p)))
  {
    hide OkOut, Run, Fin, Utf8, Unescaped;
    AcceptsNext(o, c, s);
    if s[0] == BACKSLASH && !o.keepEscapes {
      var c1 := Escaped1(c);
      assert Step(o, c, s[0]) == Eat(c1);
      AcceptsMore(o, c1, s[1..]);
      AcceptsNext(o, c1, s[1..]);
      Rest(s, 1, 1);
      if Unescaped(s[1]) >= 0 {
        p, c' := Short(s[1]), c1.(st := c.st, buf := c.buf + Utf8(Unescaped(s[1])));
        assert Step(o, c1, s[1]) == Eat(c');
        assert s[..2] == PieceText(p);
      } else {
        var c2 := c1.(st := EscU);
        assert Step(o, c1, s[1]) == Eat(c2);
        assert s == [BACKSLASH, 117] + s[2..];
        p, c' := UnicodePiece(o, c2, s, s[2..]);
      }
    } else {
      p, c' := Direct(s[0]), c.(buf := c.buf + [s[0]]);
      assert Step(o, c, s[0]) == Eat(c');
      assert s[..1] == PieceText(p);
    }
  }

  lemma {:induction false} PiecesCons(p: Piece, ps: seq<Piece>)
    ensures PiecesText([p] + ps) == PieceText(p) + PiecesText(ps)
  {
    hide PieceText;
    var all := [p] + ps;
    if ps == [] {
      assert all == [p] && all[..0] == [] && PieceText(p) + [] == PieceText(p) == [] + PieceText(p);
    } else {
      var n := |ps| - 1;
      PiecesCons(p, ps[..n]);
      assert all[..n + 1] == [p] + ps[..n] && all[n + 1] == ps[n];
      assert (PieceText(p) + PiecesText(ps[..n])) + PieceText(ps[n]) == PieceText(p) + PiecesText(ps);
    }
  }

  /** The parts of a string up to its closing quote. */
  lemma {:induction false} Pieces(o: Options, c: Core, s: seq<byte>) returns (ps: seq<Piece>)
    requires Accepts(o, c, s) && (c.st.InStr? || c.st.InKey?)
    ensures AllAllowed(o, ps) && PiecesText(ps) + [QUOTE] <= s
    decreases |s|
  {
    hide Accepts, Alike, Allowed, PieceText, PieceBytes, PiecesText;
    AcceptsMore(o, c, s);
    if s[0] == QUOTE {
      ps := [];
      NoPieces();
      assert [] + [QUOTE] == s[..1];
    } else {
      var p, c1 := OnePiece(o, c, s);
      var m := |PieceText(p)|;
      PieceLong(p);
      AlikeState(c1, c, PieceBytes(p));
      var more := Pieces(o, c1, s[m..]);
      ps := [p] + more;
      PiecesCons(p, more);
      Prefixed(s, PieceText(p), PiecesText(more) + [QUOTE]);
      assert (PieceText(p) + PiecesText(more)) + [QUOTE] == PieceText(p) + (PiecesText(more) + [QUOTE]);
    }
  }

  lemma NoPieces()
    ensures PiecesText([]) == []
  {}

  lemma PieceLong(p: Piece)
    ensures |PieceText(p)| > 0
    ensures forall o :: Allowed(o, p) ==> WellFormed(p)
  {}

  lemma AlikeState(c1: Core, c: Core, b: seq<byte>)
    requires Alike(c1, c.(buf := c.buf + b))
    ensures c1.st == c.st
  {}

  lemma Prefixed(s: seq<byte>, a: seq<byte>, b: seq<byte>)
    requires a <= s && b <= s[|a|..]
    ensures a + b <= s
  {
    assert s == a + s[|a|..];
    assert s[|a|..] == b + s[|a|..][|b|..];
    assert s == (a + b) + s[|a|..][|b|..];
  }

  // ---------- words and numbers ----------

  function WordOf(st: State): seq<byte> {
    if st.InTrue? then TRUE else if st.InFalse? then FALSE else NULL
  }

  lemma {:induction false} WordRead(o: Options, c: Core, s: seq<byte>)
    requires Accepts(o, c, s) && (c.st.InTrue? || c.st.InFalse? || c.st.InNull?)
    ensures WordOf(c.st)[c.escLen..] <= s
    decreases |s|
  {
    hide OkOut, Run, Fin;
    var w := WordOf(c.st);
    AcceptsMore(o, c, s);
    AcceptsNext(o, c, s);
    assert s[0] == w[c.escLen];
    assert w[c.escLen..] == [s[0]] + w[c.escLen + 1..];
    if c.escLen + 1 == |w| {
    } else {
      var c1 := c.(escLen := c.escLen + 1);
      assert Step(o, c, s[0]) == Eat(c1);
      WordRead(o, c1, s[1..]);
    }
    assert [s[0]] == s[..1];
    Prefixed(s, [s[0]], w[c.escLen + 1..]);
  }

  predicate NumChars(s: seq<byte>) { forall i :: 0 <= i < |s| ==> NumChar(s[i]) }

  /** The characters of a number up to the byte that ends it. */
  lemma {:induction false} NumberRead(o: Options, c: Core, s: seq<byte>) returns (n: nat)
    requires Accepts(o, c, s) && c.st.InNum? && NumChars(c.buf)
    ensures n < |s| && !NumChar(s[n]) && NumText(o, c.buf + s[..n])
    decreases |s|
  {
    hide OkOut, Run, Fin, ToInt, NumChar;
    AcceptsMore(o, c, s);
    AcceptsNext(o, c, s);
    if !NumChar(s[0]) {
      n := 0;
      assert Step(o, c, s[0]) == StepNumEnd(o, c);
      assert c.buf + s[..0] == c.buf;
    } else {
      var c1 := c.(buf := c.buf + [s[0]]);
      assert Step(o, c, s[0]) == Eat(c1);
      n := NumberRead(o, c1, s[1..]);
      assert c1.buf + s[1..][..n] == c.buf + s[..n + 1];
      n := n + 1;
    }
  }

  // ---------- one token ----------

  predicate IsValue(t: Token) { !t.Name? && (t.Sign? ==> !Closing(t.e)) }

  /** A token at the start of a text; the byte after a number is no part of it. */
  ghost predicate Starts(o: Options, t: Token, s: seq<byte>) {
    && Readable(o, t) && TokenText(o, t) <= s
    && (t.Number? ==> |t.text| < |s| && !NumChar(s[|t.text|]))
  }

  lemma QuotedRead(o: Options, c: Core, s: seq<byte>) returns (ps: seq<Piece>)
    requires Accepts(o, c, s) && (c.st.SpcVal? || c.st.SpcArr? || c.st.SpcObj?) && s != [] && s[0] == QUOTE
    ensures AllAllowed(o, ps) && InQuotes(ps) <= s
  {
    hide OkOut, Run, Fin, PiecesText, AllAllowed;
    var c1 := c.(st := if c.st.SpcObj? then InKey else InStr);
    AcceptsNext(o, c, s);
    assert Step(o, c, s[0]) == Eat(c1);
    ps := Pieces(o, c1, s[1..]);
    assert [QUOTE] == s[..1];
    Prefixed(s, [QUOTE], PiecesText(ps) + [QUOTE]);
    assert [QUOTE] + (PiecesText(ps) + [QUOTE]) == InQuotes(ps);
  }

  lemma LiteralRead(o: Options, c: Core, s: seq<byte>) returns (t: Token)
    requires Accepts(o, c, s) && (c.st.SpcVal? || c.st.SpcArr?) && s != []
    requires s[0] == TRUE[0] || s[0] == FALSE[0] || s[0] == NULL[0]
    ensures Starts(o, t, s) && IsValue(t)
  {
    hide OkOut, Run, Fin;
    var st := if s[0] == TRUE[0] then InTrue else if s[0] == FALSE[0] then InFalse else InNull;
    var w, c1 := WordOf(st), c.(st := st, escLen := 1);
    AcceptsNext(o, c, s);
    assert Step(o, c, s[0]) == Eat(c1);
    WordRead(o, c1, s[1..]);
    assert w == [s[0]] + w[1..] && [s[0]] == s[..1];
    Prefixed(s, [s[0]], w[1..]);
    t := Sign(if st.InTrue? then Event.Bool(1) else if st.InFalse? then Event.Bool(0) else Event.Null);
  }

  /** A value, where one may stand. */
  lemma ValueRead(o: Options, c: Core, s: seq<byte>) returns (t: Token)
    requires Accepts(o, c, s) && (c.st.SpcVal? || c.st.SpcArr?)
    requires s != [] && !IsSpace(s[0]) && s[0] != SLASH && s[0] != RBRACKET
    ensures Starts(o, t, s) && IsValue(t)
  {
    hide OkOut, Run, Fin, InQuotes, NumText, AllAllowed, NumChar;
    if s[0] == QUOTE {
      var ps := QuotedRead(o, c, s);
      t := Quote(ps);
    } else if s[0] == TRUE[0] || s[0] == FALSE[0] || s[0] == NULL[0] {
      t := LiteralRead(o, c, s);
    } else if s[0] == LBRACKET || s[0] == LBRACE {
      t := Sign(if s[0] == LBRACKET then ArrOpen else ObjOpen);
      assert [s[0]] == s[..1];
    } else {
      var c1 := c.(st := InNum);
      AcceptsNext(o, c, s);
      assert Step(o, c, s[0]) == Again(c1);
      var n := NumberRead(o, c1, s);
      assert c1.buf + s[..n] == s[..n];
      t := Number(s[..n]);
    }
  }

  /** What is before the colon after a key. */
  lemma ColonRead(o: Options, c: Core, s: seq<byte>) returns (gs: seq<Gap>, n: nat)
    requires Accepts(o, c, s) && c.st.AfterKey?
    ensures Blank(o, gs) && n < |s| && GapsText(gs) == s[..n] && s[n] == COLON
  {
    hide OkOut, Accepts, GapsText, Blank;
    var c1;
    gs, c1, n := GapsRead(o, c, s);
    AcceptsMore(o, c1, s[n..]);
    AcceptsNext(o, c1, s[n..]);
    AcceptsOk(o, c1, s[n..]);
    if s[n] == SLASH { OpenLineEnds(o, c1, s[n..]); }
  }

  /** A key with its colon. */
  lemma NameRead(o: Options, c: Core, s: seq<byte>) returns (t: Token)
    requires Accepts(o, c, s) && c.st.SpcObj? && s != [] && s[0] == QUOTE
    ensures Starts(o, t, s) && t.Name?
  {
    hide OkOut, Accepts, InQuotes, PiecesBytes, AllAllowed, Reads, Blank, GapText;
    var ps := QuotedRead(o, c, s);
    var q := InQuotes(ps);
    AcceptsOk(o, c, s);
    AllowedFormed(o, ps);
    var c1 := ReadsQuoted(o, c, ps);
    assert s[..|q|] == q;
    AcceptsPast(o, c, s, |q|, [Key(PiecesBytes(ps))], c1);
    var rest := s[|q|..];
    var gs, n := ColonRead(o, c1, rest);
    t := Name(ps, gs, []);
    NothingBlank(o);
    assert [COLON] + [] == [COLON] == rest[n..][..1];
    Prefixed(rest, rest[..n], [COLON] + []);
    Prefixed(s, q, rest[..n] + ([COLON] + []));
  }

  lemma NothingBlank(o: Options)
    ensures Blank(o, []) && GapsText([]) == []
  {}

  /** Which tokens may stand where. */
  predicate TokenMay(c: Core, t: Token) {
    if c.st.SpcObj? then t.Name? || t == Sign(ObjClose)
    else IsValue(t) || (c.st.SpcArr? && t == Sign(ArrClose))
  }

  lemma TokenRead(o: Options, c: Core, s: seq<byte>) returns (t: Token)
    requires Accepts(o, c, s) && (c.st.SpcVal? || c.st.SpcArr? || c.st.SpcObj?)
    requires s != [] && !IsSpace(s[0]) && s[0] != SLASH
    ensures Starts(o, t, s) && TokenMay(c, t)
  {
    hide OkOut, Run, Fin, InQuotes, AllAllowed, NumText, NumChar;
    AcceptsNext(o, c, s);
    if c.st.SpcObj? && s[0] == QUOTE {
      t := NameRead(o, c, s);
    } else if c.st.SpcObj? {
      t := Sign(ObjClose);
      assert [s[0]] == s[..1];
    } else if s[0] == RBRACKET {
      t := Sign(ArrClose);
      assert [s[0]] == s[..1];
    } else {
      t := ValueRead(o, c, s);
    }
  }

  // ---------- one token with what stands before it ----------

  /** No more of a number is to come. */
  predicate Cut(c: Core, s: seq<byte>) { c.st.InNum? ==> s != [] && !NumChar(s[0]) }

  /** The next token, with what stands before it. */
  ghost predicate NextIs(o: Options, first: bool, g: Place, sp: Spelling, s: seq<byte>) {
    && Legible(o, sp) && Next(g, Meaning(o, sp.token)).Some?
    && SpellingText(o, first, sp) <= s
    && (sp.token.Number? ==>
      var n := |SpellingText(o, first, sp)|; n < |s| && !NumChar(s[n]))
  }

  /** A token after a separator. */
  lemma Together3(o: Options, first: bool, g: Place, sp: Spelling, s: seq<byte>, n: nat)
    requires Legible(o, sp) && Next(g, Meaning(o, sp.token)).Some? && n <= |s|
    requires s[..n] == Separator(first, sp, Meaning(o, sp.token)) && Starts(o, sp.token, s[n..])
    ensures NextIs(o, first, g, sp, s)
  {
    hide Legible, Next, Meaning, Separator;
    var t := TokenText(o, sp.token);
    Prefixed(s, s[..n], t);
    assert sp.token.Number? ==> s[n..][|t|] == s[n + |t|];
  }

  /** Nothing but the end follows: outside of all brackets, after a value or in an open
      comment. */
  ghost predicate EndsHere(o: Options, g: Place, tail: Tail, s: seq<byte>) {
    && TailFits(o, tail) && s == TailText(tail)
    && |g.open| == 0 && (g.want.Nothing? || (g.want.Value? && tail.open.Some?))
  }

  /** The next token, or the end. */
  datatype Ahead = Token(sp: Spelling) | End(tail: Tail)

  ghost predicate AheadIs(o: Options, first: bool, g: Place, a: Ahead, s: seq<byte>) {
    match a
    case Token(sp) => NextIs(o, first, g, sp, s)
    case End(tail) => EndsHere(o, g, tail, s)
  }

  /** The end of the text, after n bytes of space and comments. */
  lemma EndRead(o: Options, c: Core, s: seq<byte>, gs: seq<Gap>, n: nat) returns (tail: Tail)
    requires n <= |s| && Blank(o, gs) && GapsText(gs) == s[..n] && Accepts(o, c, s[n..]) && Skipping(c.st)
    requires n < |s| ==> OpenLine(o, s[n..])
    ensures TailFits(o, tail) && s == TailText(tail) && tail.gaps == gs && |c.ctxs| == 0
    ensures Run(o, c, s[n..]).evs == [] && (tail.open.None? ==> c.st.SpcAfterVal?)
  {
    hide OkOut, Blank, GapsText;
    if n == |s| {
      assert s[n..] == [] && s[..n] + [] == s;
      tail := Tail(gs, None);
    } else {
      var x := s[n..];
      tail := Tail(gs, Some(x[2..]));
      assert x == [SLASH, SLASH] + x[2..] && s == s[..n] + x;
      OpenLineEnds(o, c, x);
    }
  }

  /** Where no comma is due. */
  lemma FirstAhead(o: Options, c: Core, g: Place, s: seq<byte>) returns (a: Ahead)
    requires Sync(o, true, c, g) && Accepts(o, c, s)
    ensures AheadIs(o, true, g, a, s) && (a.End? ==> Run(o, c, s).evs == [])
  {
    hide OkOut, Accepts, Readable, TokenText, Blank, OkAt, GapsText, OpenLine, TailFits, TailText;
    var gs, c1, n := GapsRead(o, c, s);
    if n == |s| || s[n] == SLASH {
      var tail := EndRead(o, c1, s, gs, n);
      a := End(tail);
    } else {
      var t := TokenRead(o, c1, s[n..]);
      TokenFits(o, c1, g, t);
      NothingBlank(o);
      var sp := Spelling(gs, false, [], t);
      assert s[..n] + ([] + []) == s[..n];
      Together3(o, true, g, sp, s, n);
      a := Token(sp);
    }
  }

  /** A token that may stand where a value or key starts fits the grammar there. */
  lemma TokenFits(o: Options, c: Core, g: Place, t: Token)
    requires Readable(o, t) && TokenMay(c, t)
    requires if c.st.SpcObj? then KeyMay(g)
             else ValueMay(g) && (c.st.SpcArr? ==> g.want.Member? && Inside(g.open, Square))
    ensures Next(g, Meaning(o, t)).Some?
    ensures Closing(Meaning(o, t)) ==> t == Sign(ArrClose) || t == Sign(ObjClose)
    ensures Closing(Meaning(o, t)) && c.st.SpcVal? ==> false
  {
    hide ToInt, PiecesBytes, NumText, AllAllowed;
  }

  /** A number that is complete gives way to what follows. */
  lemma Resting(o: Options, c: Core, s: seq<byte>)
    requires Ended(o, c) && Accepts(o, c, s) && Cut(c, s)
    ensures var r := Rested(c); Accepts(o, r, s) && r.st.SpcAfterVal? && r.ctxs == c.ctxs
    ensures Run(o, c, s).evs == Pending(c) + Run(o, Rested(c), s).evs
  {
    hide ToInt, NumChar, NumText, Run, Fin;
    if c.st.InNum? {
      PendingFirst(o, c, s);
    } else {
      assert [] + Run(o, c, s).evs == Run(o, c, s).evs;
    }
  }

  /** After a value: a comma or a closing bracket. */
  lemma AfterRead(o: Options, c: Core, s: seq<byte>) returns (c1: Core)
    requires Accepts(o, c, s) && c.st.SpcAfterVal? && s != [] && !IsSpace(s[0]) && s[0] != SLASH
    ensures c1 == c.(st := AfterVal) && Ok(c1) && !StepAfter(c1, s[0]).Fail?
    ensures s[0] == COMMA ==> Accepts(o, Separated(c), s[1..])
  {
    hide OkOut, Run, Fin;
    c1 := c.(st := AfterVal);
    AcceptsNext(o, c, s);
    assert Step(o, c, s[0]) == Again(c1);
    AcceptsNext(o, c1, s);
    assert Step(o, c1, s[0]) == StepAfter(c1, s[0]);
  }

  /** Where a comma is due. */
  lemma LaterAhead(o: Options, c: Core, g: Place, s: seq<byte>) returns (a: Ahead)
    requires Sync(o, false, c, g) && Accepts(o, c, s) && Cut(c, s)
    ensures AheadIs(o, false, g, a, s) && (a.End? ==> Run(o, c, s).evs == Pending(c))
  {
    hide OkOut, Accepts, Readable, TokenText, Blank, NumText, ToInt, NumChar, IsSpace, GapsText, OpenLine;
    hide TailFits, TailText, OkAt;
    Resting(o, c, s);
    var gs, r, n := GapsRead(o, Rested(c), s);
    if n == |s| || s[n] == SLASH {
      var tail := EndRead(o, r, s, gs, n);
      assert Pending(c) + [] == Pending(c);
      a := End(tail);
    } else {
      var sp := SeparatedRead(o, r, g, s, gs, n);
      a := Token(sp);
    }
  }

  lemma SeparatedRead(o: Options, r: Core, g: Place, s: seq<byte>, gs: seq<Gap>, n: nat) returns (sp: Spelling)
    requires Ok(r) && r.st.SpcAfterVal? && r.ctxs == g.open && (g.want.Member? <==> |g.open| > 0) && !g.want.Value?
    requires n < |s| && Blank(o, gs) && GapsText(gs) == s[..n] && Accepts(o, r, s[n..])
    requires !IsSpace(s[n]) && s[n] != SLASH
    ensures NextIs(o, false, g, sp, s)
  {
    hide OkOut, Accepts, Readable, TokenText, Blank, GapsText, OkAt, IsSpace;
    var x := s[n..];
    var c1 := AfterRead(o, r, x);
    if x[0] == COMMA {
      sp := CommaRead(o, r, g, s, gs, n);
    } else {
      var t := Sign(if x[0] == RBRACKET then ArrClose else ObjClose);
      sp := Spelling(gs, false, [], t);
      NothingBlank(o);
      CloseStarts(o, t, x);
      assert s[..n] + ([] + []) == s[..n];
      Together3(o, false, g, sp, s, n);
    }
  }

  lemma CloseStarts(o: Options, t: Token, x: seq<byte>)
    requires x != [] && t.Sign? && Closing(t.e) && [x[0]] == Mark(t.e)
    ensures Starts(o, t, x)
  {
    assert [x[0]] == x[..1];
  }

  lemma CommaText(s: seq<byte>, n: nat, m: nat)
    requires n + 1 + m <= |s| && s[n] == COMMA
    ensures s[..n + 1 + m] == s[..n] + ([COMMA] + s[n..][1..][..m]) && s[n..][1..][m..] == s[n + 1 + m..]
  {}

  /** Past a comma. */
  lemma CommaRead(o: Options, r: Core, g: Place, s: seq<byte>, gs: seq<Gap>, n: nat) returns (sp: Spelling)
    requires Ok(r) && r.st.SpcAfterVal? && r.ctxs == g.open && g.want.Member? && |g.open| > 0
    requires n < |s| && Blank(o, gs) && GapsText(gs) == s[..n] && s[n] == COMMA && Accepts(o, Separated(r), s[n..][1..])
    ensures NextIs(o, false, g, sp, s)
  {
    hide OkOut, Accepts, Readable, TokenText, Blank, Next, PiecesBytes, ToInt, NextIs, OkAt, GapsText, OpenLine;
    hide SpellingText, Separator, Legible, Run;
    var c, y := Separated(r), s[n..][1..];
    Rest(s, n, 1);
    var more, c1, m := GapsRead(o, c, y);
    AcceptsMore(o, c1, y[m..]);
    if y[m] == SLASH { OpenLineEnds(o, c1, y[m..]); }
    var t := TokenRead(o, c1, y[m..]);
    TokenFits(o, c1, g, t);
    sp := CommaNext(o, g, s, gs, more, t, n, m);
  }

  lemma CommaNext(o: Options, g: Place, s: seq<byte>, gs: seq<Gap>, more: seq<Gap>, t: Token, n: nat, m: nat)
    returns (sp: Spelling)
    requires n + 1 + m <= |s| && s[n] == COMMA && Blank(o, gs) && GapsText(gs) == s[..n]
    requires Blank(o, more) && GapsText(more) == s[n..][1..][..m] && Starts(o, t, s[n..][1..][m..])
    requires Next(g, Meaning(o, t)).Some? && (Closing(Meaning(o, t)) ==> t == Sign(ObjClose))
    ensures NextIs(o, false, g, sp, s)
  {
    hide TokenText, Blank, Next, PiecesBytes, ToInt, NextIs, GapsText;
    sp := Spelling(gs, t == Sign(ObjClose), more, t);
    CommaText(s, n, m);
    Together3(o, false, g, sp, s, n + 1 + m);
  }

  // ---------- whole texts ----------

  lemma TokenLong(o: Options, first: bool, sp: Spelling)
    requires Legible(o, sp)
    ensures |SpellingText(o, first, sp)| > 0
  {
    hide Blank, AllAllowed, PiecesText, PiecesBytes, ToInt, NumChar, GapsText;
  }

  lemma AnyAhead(o: Options, first: bool, c: Core, g: Place, s: seq<byte>) returns (a: Ahead)
    requires Sync(o, first, c, g) && Accepts(o, c, s) && Cut(c, s)
    ensures AheadIs(o, first, g, a, s) && (a.End? ==> Run(o, c, s).evs == Pending(c))
  {
    hide Accepts, Run, AheadIs, NumChar, NumText;
    if first { a := FirstAhead(o, c, g, s); } else { a := LaterAhead(o, c, g, s); }
  }

  /** The next token is read, and what follows is accepted. */
  lemma TokenPast(o: Options, first: bool, c: Core, g: Place, s: seq<byte>, sp: Spelling) returns (c1: Core)
    requires Sync(o, first, c, g) && Accepts(o, c, s) && NextIs(o, first, g, sp, s)
    ensures var e, rest := Meaning(o, sp.token), s[|SpellingText(o, first, sp)|..];
      && Sync(o, Introduces(e), c1, Next(g, e).value) && Accepts(o, c1, rest) && Cut(c1, rest)
      && Run(o, c, s).evs == (Pending(c) + AtOnce(e)) + Run(o, c1, rest).evs && Pending(c1) == Later(e)
  {
    hide Sync, Accepts, Blank, Reads, Run, SpellingText, Next, NumChar, ToInt, NumText, AllAllowed, PiecesBytes;
    c1 := ReadsToken(o, first, c, g, sp);
    var e, n := Meaning(o, sp.token), |SpellingText(o, first, sp)|;
    assert s[..n] == SpellingText(o, first, sp);
    AcceptsPast(o, c, s, n, Pending(c) + AtOnce(e), c1);
  }

  lemma GatheredAll(before: seq<Event>, e: Event, later: seq<Event>, evs: seq<Event>)
    requires evs != [] && evs[0] == e && later == Later(e) + evs[1..]
    ensures (before + AtOnce(e)) + later == before + evs
  {
    hide AtOnce, Later;
    assert later + [] == later;
    Gathered(before, e, later, [], evs);
    assert ((before + AtOnce(e)) + later) + [] == (before + AtOnce(e)) + later;
  }

  /** One spelling before others. */
  lemma OneMore(o: Options, first: bool, g: Place, sp: Spelling, more: seq<Spelling>)
    requires Legible(o, sp) && AllLegible(o, more) && Next(g, Meaning(o, sp.token)).Some?
    ensures var ts, e := [sp] + more, Meaning(o, sp.token);
      && AllLegible(o, ts) && Meanings(o, ts) == [e] + Meanings(o, more)
      && DocumentText(o, first, ts) == SpellingText(o, first, sp) + DocumentText(o, Introduces(e), more)
      && Follow(g, Meanings(o, ts)) == Follow(Next(g, e).value, Meanings(o, more))
  {
    hide SpellingText, Next, Legible, Meaning;
    TokenReadable(o, sp);
    var ts, e := [sp] + more, Meaning(o, sp.token);
    assert ts[1..] == more;
    var evs := [e] + Meanings(o, more);
    assert evs[1..] == Meanings(o, more);
  }

  lemma {:induction false} Decomposed(o: Options, first: bool, c: Core, g: Place, s: seq<byte>)
    returns (ts: seq<Spelling>, tail: Tail)
    requires Sync(o, first, c, g) && Accepts(o, c, s) && Cut(c, s)
    ensures AllLegible(o, ts) && TailFits(o, tail) && s == DocumentText(o, first, ts) + TailText(tail)
    ensures Follow(g, Meanings(o, ts)).Some? && Run(o, c, s).evs == Pending(c) + Meanings(o, ts)
    ensures EndsHere(o, Follow(g, Meanings(o, ts)).value, tail, TailText(tail))
    decreases |s|
  {
    hide Sync, Accepts, Cut, Run, SpellingText, Next, Legible, Meaning, Pending, NumChar, TailFits, TailText;
    var a := AnyAhead(o, first, c, g, s);
    if a.End? {
      ts, tail := [], a.tail;
      assert [] + s == s && Pending(c) + [] == Pending(c);
    } else {
      hide AllLegible, DocumentText, Meanings, Follow;
      var sp := a.sp;
      var c1 := TokenPast(o, first, c, g, s, sp);
      var text := SpellingText(o, first, sp);
      var rest := s[|text|..];
      TokenLong(o, first, sp);
      TokenReadable(o, sp);
      var e := Meaning(o, sp.token);
      var more;
      more, tail := Decomposed(o, Introduces(e), c1, Next(g, e).value, rest);
      ts := [sp] + more;
      OneMore(o, first, g, sp, more);
      assert s == text + rest == text + (DocumentText(o, Introduces(e), more) + TailText(tail));
      var evs := Meanings(o, ts);
      assert evs[0] == e && evs[1..] == Meanings(o, more);
      AcceptsOk(o, c, s);
      AcceptsOk(o, c1, rest);
      GatheredAll(Pending(c), e, Run(o, c1, rest).evs, evs);
    }
  }

  /** The text is a spelling of one complete value with space and comments after it, or it
      holds no value and ends in a comment. */
  ghost predicate IsSpelling(o: Options, ts: seq<Spelling>, tail: Tail, s: seq<byte>) {
    && AllLegible(o, ts) && TailFits(o, tail) && s == DocumentText(o, true, ts) + TailText(tail)
    && if ts == [] then tail.open.Some?
       else Complete(Meanings(o, ts)) && !(BareNumber(Meanings(o, ts)) && tail == NO_TAIL)
  }

  /** An accepted text is a spelling of its events. */
  lemma AcceptedIsSpelled(o: Options, s: seq<byte>) returns (ts: seq<Spelling>, tail: Tail)
    requires Accepts(o, INIT, s)
    ensures IsSpelling(o, ts, tail, s) && Run(o, INIT, s).evs == Meanings(o, ts)
  {
    hide Run, Ok, AllLegible, DocumentText, Next, TailFits, TailText;
    InitSync(o);
    ts, tail := Decomposed(o, true, INIT, START, s);
    assert Pending(INIT) + Meanings(o, ts) == Meanings(o, ts);
    if ts != [] {
      NotStart(START, Meanings(o, ts));
      AnySpelling(o, ts, tail);
    }
  }

  /** The accepted texts are exactly the spellings of complete values that space and comments
      may follow, and must follow if the value is a number, and the texts without a value
      that end in a comment. */
  lemma AcceptedExactlySpelled(o: Options, s: seq<byte>)
    ensures Accepts(o, INIT, s) <==> exists ts, tail :: IsSpelling(o, ts, tail, s)
  {
    hide IsSpelling, Accepts;
    if Accepts(o, INIT, s) {
      var ts, tail := AcceptedIsSpelled(o, s);
    }
    forall ts, tail | IsSpelling(o, ts, tail, s) ensures Accepts(o, INIT, s) {
      SpelledIsAccepted(o, ts, tail, s);
    }
  }

  lemma NoTokens(o: Options)
    ensures DocumentText(o, true, []) == []
  {}

  lemma SpelledIsAccepted(o: Options, ts: seq<Spelling>, tail: Tail, s: seq<byte>)
    requires IsSpelling(o, ts, tail, s)
    ensures Accepts(o, INIT, s) && Run(o, INIT, s).evs == Meanings(o, ts)
  {
    hide Run, AllLegible, DocumentText, TailFits, TailText, Complete, Ok;
    InitSync(o);
    if ts != [] {
      AnySpelling(o, ts, tail);
    } else {
      var c := ReadsRest(o, INIT, tail);
      NoTokens(o);
      assert [] + TailText(tail) == TailText(tail);
    }
  }

  /** A comment that is not closed swallows the rest. */
  lemma BlockSwallows(o: Options, t: seq<byte>)
    requires o.comments && BlockText(t)
    ensures var s := [SLASH, STAR] + t; Run(o, INIT, s).evs == [] && !Accepts(o, INIT, s)
  {
    hide OkOut, BlockText, Reads;
    var c := ReadsOpening(o, INIT, STAR);
    ReadsBlock(o, c, t);
    ReadsThen(o, INIT, [SLASH, STAR], c, t, [], c);
    NotThere(o, INIT, [SLASH, STAR] + t, c);
  }

  lemma NotThere(o: Options, c: Core, s: seq<byte>, c1: Core)
    requires Reads(o, c, s, [], c1) && !Fin(c1)
    ensures Run(o, c, s).evs == [] && !Accepts(o, c, s)
  {
    hide Run, Ok, Fin;
  }

  /** An even number of stars before the slash does not close a comment: an empty object
      after such a one is not seen. */
  lemma EvenStars(o: Options)
    requires o.comments
    ensures var s := [SLASH, STAR] + [STAR, STAR, SLASH, LBRACE, RBRACE];
      Run(o, INIT, s).evs == [] && !Accepts(o, INIT, s)
  {
    var t: seq<byte> := [STAR, STAR, SLASH, LBRACE, RBRACE];
    assert t[2..] == [SLASH, LBRACE, RBRACE] && t[2..][1..] == [LBRACE, RBRACE];
    assert [LBRACE, RBRACE][1..] == [RBRACE] && [RBRACE][1..] == [];
    assert BlockText([RBRACE]) && BlockText([LBRACE, RBRACE]) && BlockText(t[2..]);
    BlockSwallows(o, t);
  }

  // ---------- the last byte ----------

  lemma TokenEnds(o: Options, t: Token)
    requires Readable(o, t) && !t.Name?
    ensures var s := TokenText(o, t); s != [] && !IsSpace(s[|s| - 1])
  {
    hide AllAllowed, PiecesText, ToInt;
    if t.Number? { NumStarts(t.text[|t.text| - 1]); }
  }

  lemma {:induction false} TextEnds(o: Options, first: bool, ts: seq<Spelling>)
    requires AllLegible(o, ts) && ts != [] && !ts[|ts| - 1].token.Name?
    ensures var s := DocumentText(o, first, ts); s != [] && !IsSpace(s[|s| - 1])
    decreases |ts|
  {
    hide IsSpace, Meaning, TokenText, Separator, Readable, Blank;
    TokenReadable(o, ts[0]);
    if |ts| == 1 {
      TokenEnds(o, ts[0].token);
      assert DocumentText(o, first, ts) == SpellingText(o, first, ts[0]);
    } else {
      TextEnds(o, Introduces(Meaning(o, ts[0].token)), ts[1..]);
    }
  }

  /** A complete value does not end in a key. */
  lemma LastNoKey(evs: seq<Event>)
    requires Complete(evs)
    ensures evs != [] && !evs[|evs| - 1].Key?
  {
    if evs != [] {
      var n := |evs| - 1;
      assert evs == evs[..n] + [evs[n]];
      FollowAppend(START, evs[..n], [evs[n]]);
      assert Follow(Follow(START, evs[..n]).value, [evs[n]]) == Next(Follow(START, evs[..n]).value, evs[n]);
    }
  }

  lemma LastNoName(o: Options, ts: seq<Spelling>)
    requires AllLegible(o, ts) && Complete(Meanings(o, ts))
    ensures ts != [] && !ts[|ts| - 1].token.Name?
  {
    hide Complete, Readable;
    LastNoKey(Meanings(o, ts));
    if ts != [] { LastIs(o, ts); }
  }

  lemma {:induction false} SpaceEnds(o: Options, gs: seq<Gap>)
    requires Blank(o, gs) && !o.comments && gs != []
    ensures var s := GapsText(gs); s != [] && IsSpace(s[|s| - 1])
    decreases |gs|
  {
    assert GapFits(o, gs[0]);
    if |gs| == 1 {
      assert GapsText(gs) == GapText(gs[0]);
    } else {
      SpaceEnds(o, gs[1..]);
    }
  }

  /** Without comments: nothing follows the value exactly if the last byte is no space. */
  lemma TailIs(o: Options, ts: seq<Spelling>, tail: Tail, s: seq<byte>)
    requires IsSpelling(o, ts, tail, s) && !o.comments
    ensures s != [] && (tail == NO_TAIL <==> !IsSpace(s[|s| - 1]))
  {
    hide IsSpace, AllLegible, Complete, DocumentText, BareNumber, Blank, GapsText;
    LastNoName(o, ts);
    TextEnds(o, true, ts);
    if tail.gaps != [] {
      SpaceEnds(o, tail.gaps);
    } else {
      NothingBlank(o);
    }
  }
}
