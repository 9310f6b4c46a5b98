/** What the JSON writer writes, the JSON reader reads back.

    A written document is a spelling of its events (`DocumentSpelled`), so for every complete
    sequence of events the reader returns exactly the events that were written, in every
    layout, and accepts the end of the input, unless the document is a bare number, which
    the reader cannot know to be finished (`RoundTrip`).  A writer that does not escape or a
    reader that keeps escapes limits the strings (`Safe`).
  */
module JsonRoundTrip {
  import opened JsonGrammar
  import opened JsonParser
  import opened JsonSpelling
  import opened JsonStep
  import opened JsonText
  import opened JsonWriter
  import opened Optional

  // ---------- strings ----------

  /** How the writer spells a byte. */
  function PieceOf(l: Layout, b: byte): Piece {
    var k := EscapeClass(b);
    if l.raw || k == 0 then Direct(b)
    else if k == 1 then Unit([ZERO, ZERO, HexDigit(b / 16), HexDigit(b % 16)])
    else Short(k)
  }

  function PiecesOf(l: Layout, s: seq<byte>): (ps: seq<Piece>)
    ensures |ps| == |s|
  { if s == [] then [] else PiecesOf(l, s[..|s| - 1]) + [PieceOf(l, s[|s| - 1])] }

  /** Bytes that a reader takes as they are. */
  predicate Taken(o: Options, b: byte) { Allowed(o, Direct(b)) }

  predicate AllTaken(o: Options, s: seq<byte>) { forall i :: 0 <= i < |s| ==> Taken(o, s[i]) }

  /** A string that the writer writes and the reader reads as itself: any string if one
      escapes and the other resolves escapes; else one without bytes that an escape would
      be for, of which a backslash is none if neither does. */
  predicate Safe(o: Options, l: Layout, s: seq<byte>) {
    if l.raw then AllTaken(o, s) else o.keepEscapes ==> forall i :: 0 <= i < |s| ==> EscapeClass(s[i]) == 0
  }

  lemma ByteSpelled(o: Options, l: Layout, b: byte)
    requires Safe(o, l, [b])
    ensures var p := PieceOf(l, b); Allowed(o, p) && PieceBytes(p) == [b] && PieceText(p) == Spelled(l, [b])
  {
    assert [b][..0] == [] && [] + EscapedByte(b) == EscapedByte(b);
    assert Escaped([b]) == EscapedByte(b);
    assert [b][0] == b;
    if EscapeClass(b) == 1 && !l.raw { ControlText(b); }
  }

  lemma ControlText(b: byte)
    requires EscapeClass(b) == 1
    ensures var h := [ZERO, ZERO, HexDigit(b / 16), HexDigit(b % 16)];
      HexWord(h) == b && Basic(b) && Utf8(b) == [b] && EscapedByte(b) == [BACKSLASH, 117] + h
  {}

  lemma SafeParts(o: Options, l: Layout, s: seq<byte>, n: nat)
    requires Safe(o, l, s) && n < |s|
    ensures Safe(o, l, s[..n]) && Safe(o, l, [s[n]])
  {
    hide EscapeClass, Taken;
  }

  lemma SpelledNext(l: Layout, s: seq<byte>, n: nat)
    requires n + 1 == |s|
    ensures Spelled(l, s) == Spelled(l, s[..n]) + Spelled(l, [s[n]])
  {
    hide EscapedByte;
    var b := s[n];
    assert [b][..0] == [] && [] + EscapedByte(b) == EscapedByte(b);
    assert Escaped([b]) == EscapedByte(b);
    assert s == s[..n] + [b];
  }

  /** A string as it is written is a spelling of it. */
  lemma {:induction false} StringSpelled(o: Options, l: Layout, s: seq<byte>)
    requires Safe(o, l, s)
    ensures var ps := PiecesOf(l, s);
      AllAllowed(o, ps) && (AllowedFormed(o, ps); PiecesBytes(ps) == s) && PiecesText(ps) == Spelled(l, s)
  {
    hide Safe, Spelled, PieceOf, PieceText, PieceBytes, Allowed, WellFormed;
    var ps := PiecesOf(l, s);
    if s == [] {
      NoText(l);
    } else {
      var n := |s| - 1;
      SafeParts(o, l, s, n);
      StringSpelled(o, l, s[..n]);
      ByteSpelled(o, l, s[n]);
      SpelledNext(l, s, n);
      assert ps[..n] == PiecesOf(l, s[..n]) && ps[n] == PieceOf(l, s[n]);
      AllowedFormed(o, ps);
      assert s == s[..n] + [s[n]];
    }
  }

  lemma NoText(l: Layout)
    ensures Spelled(l, []) == []
  {}

  // ---------- elements ----------

  /** An event that has a text and comes back as it is. */
  ghost predicate Plain(o: Options, e: Event) {
    && (e.Int? ==> -TWO63 <= e.i < TWO63) && (e.Bool? ==> e.b == 0 || e.b == 1)
    && (e.Num? ==> NumText(o, e.text) && NumEvent(e.text) == e)
  }

  /** All that is asked of an event. */
  ghost predicate Faithful(o: Options, l: Layout, e: Event) {
    Plain(o, e) && (e.Str? || e.Key? ==> Safe(o, l, e.s))
  }

  function TokenOf(l: Layout, e: Event): Token {
    match e
    case Str(s) => Quote(PiecesOf(l, s))
    case Key(s) => Name(PiecesOf(l, s), [], if Pretty(l) then [White(SPACE)] else [])
    case Int(i) => Number(Decimal(i))
    case Num(text) => Number(text)
    case _ => Sign(e)
  }

  /** Space only. */
  function Whites(s: seq<byte>): (gs: seq<Gap>)
    ensures |gs| == |s|
  { if s == [] then [] else [White(s[0])] + Whites(s[1..]) }

  lemma {:induction false} WhitesAre(o: Options, s: seq<byte>)
    requires AllSpace(s)
    ensures Blank(o, Whites(s)) && GapsText(Whites(s)) == s
  {
    if s == [] {
    } else {
      WhitesAre(o, s[1..]);
      assert [s[0]] + s[1..] == s;
    }
  }

  function SpellingOf(l: Layout, p: Pen, e: Event): Spelling {
    Spelling([], false, Whites(Indent(l, p, e)), TokenOf(l, e))
  }

  function SpellingsOf(l: Layout, p: Pen, evs: seq<Event>): (ts: seq<Spelling>)
    ensures |ts| == |evs|
    decreases |evs|
  { if evs == [] then [] else [SpellingOf(l, p, evs[0])] + SpellingsOf(l, After(p, evs[0]), evs[1..]) }

  lemma IntegerSpelled(o: Options, i: int)
    requires -TWO63 <= i < TWO63
    ensures NumText(o, Decimal(i)) && NumEvent(Decimal(i)) == Event.Int(i)
  {
    hide ToInt;
    var s := Decimal(i);
    IntLength(i);
    IntRoundTrip(i);
    forall k | 0 <= k < |s| ensures NumChar(s[k]) {
      if i >= 0 || k > 0 { assert IsDigit(s[k]); }
    }
  }

  lemma TokenSpelled(o: Options, l: Layout, e: Event)
    requires Faithful(o, l, e)
    ensures var t := TokenOf(l, e); Readable(o, t) && Meaning(o, t) == e && TokenText(o, t) == Body(l, e)
  {
    hide Safe, Spelled, PiecesOf, PiecesText, PiecesBytes, AllAllowed, ToInt, NumText, Decimal, Blank, GapsText;
    if e.Str? || e.Key? {
      StringSpelled(o, l, e.s);
      OneSpace(o);
      assert [COLON] + [SPACE] == [COLON, SPACE] && [COLON] + [] == [COLON] && [] + [COLON] == [COLON];
      assert [] + [COLON, SPACE] == [COLON, SPACE];
    } else if e.Int? {
      IntegerSpelled(o, e.i);
    }
  }

  lemma OneSpace(o: Options)
    ensures Blank(o, []) && GapsText([]) == [] && Blank(o, [White(SPACE)]) && GapsText([White(SPACE)]) == [SPACE]
  {
    assert [White(SPACE)][1..] == [] && [SPACE] + [] == [SPACE];
  }

  lemma IndentSpaces(o: Options, l: Layout, p: Pen, e: Event)
    ensures var s := Indent(l, p, e); Blank(o, Whites(s)) && GapsText(Whites(s)) == s
    ensures Blank(o, []) && GapsText([]) == []
  {
    assert AllSpace(Indent(l, p, e));
    WhitesAre(o, Indent(l, p, e));
  }

  /** An element as it is written is a spelling of its event. */
  lemma ElementSpelled(o: Options, l: Layout, p: Pen, e: Event)
    requires Faithful(o, l, e) && !Misplaced(p, e)
    ensures var s := SpellingOf(l, p, e);
      Legible(o, s) && Meaning(o, s.token) == e && SpellingText(o, !p.comma, s) == Element(l, p, e)
  {
    hide Faithful, Indent, Body, TokenOf, Readable, Meaning, TokenText, Blank, GapsText, Whites, Misplaced;
    TokenSpelled(o, l, e);
    IndentSpaces(o, l, p, e);
    var lead := (if p.comma && !Closing(e) then [COMMA] else []) + Indent(l, p, e);
    assert [] + lead == lead;
  }

  // ---------- whole documents ----------

  /** A document as it is written is a spelling of its events. */
  lemma {:induction false} DocumentSpelled(o: Options, l: Layout, p: Pen, g: Place, evs: seq<Event>)
    requires p.ctxs == g.open && Follow(g, evs).Some? && forall i :: 0 <= i < |evs| ==> Faithful(o, l, evs[i])
    ensures var ts := SpellingsOf(l, p, evs);
      AllLegible(o, ts) && Meanings(o, ts) == evs && DocumentText(o, !p.comma, ts) == Document(l, p, evs)
    decreases |evs|
  {
    hide Faithful, SpellingOf, SpellingText, Legible, Meaning, Element, Next, After;
    if evs == [] {
    } else {
      var e := evs[0];
      PenNext(p, g, e);
      ElementSpelled(o, l, p, e);
      DocumentSpelled(o, l, After(p, e), Next(g, e).value, evs[1..]);
      assert [e] + evs[1..] == evs;
    }
  }

  /** Writing a complete document and reading it gives back the same events, and the end
      of the input is accepted, exactly when the document is not a bare number.  Of a
      bare number no event is returned. */
  lemma RoundTrip(o: Options, l: Layout, evs: seq<Event>)
    requires Complete(evs) && forall i :: 0 <= i < |evs| ==> Faithful(o, l, evs[i])
    ensures var r := Run(o, INIT, Document(l, FRESH, evs));
      && r.end.More?
      && (r.evs == evs && Fin(r.end.c) <==> !BareNumber(evs))
      && (BareNumber(evs) ==> r.evs == [] && !Fin(r.end.c))
  {
    hide Faithful, Run, Document, Fin;
    var ts := SpellingsOf(l, FRESH, evs);
    DocumentSpelled(o, l, FRESH, START, evs);
    AnySpelling(o, ts, NO_TAIL);
    NoTail();
    assert Document(l, FRESH, evs) + [] == Document(l, FRESH, evs);
  }

  /** The same when the document arrives in any pieces. */
  lemma RoundTripInPieces(o: Options, l: Layout, evs: seq<Event>, pieces: seq<seq<byte>>)
    requires Complete(evs) && !BareNumber(evs) && forall i :: 0 <= i < |evs| ==> Faithful(o, l, evs[i])
    requires Joined(pieces) == Document(l, FRESH, evs)
    ensures Decided(o, Joined(pieces)) == Accepted
    ensures var seen := Seen(o, Joined(pieces));
      |seen| == |evs| && forall i :: 0 <= i < |evs| ==> seen[i].e == evs[i]
  {
    RoundTrip(o, l, evs);
  }
}
