/** The JSON writer of ffbase/json-writer.h. */
module JsonWriter {
  import opened JsonGrammar
  import opened JsonStep
  import opened JsonText

  /** `FFJSONW_FPRETTY_TABS`, `FFJSONW_FPRETTY_4SPACES`, `FFJSONW_FDONTESCAPE` */
  datatype Layout = Layout(tabs: bool, spaces: bool, raw: bool)

  predicate Pretty(l: Layout) { l.tabs || l.spaces }

  /** The flag bits and the context stack. */
  datatype Pen = Pen(comma: bool, whspace: bool, ctxs: seq<Bracket>)

  const FRESH: Pen := Pen(false, false, [])

  /** The bracket an event opens or closes. */
  function BracketOf(e: Event): Bracket { if e.ArrOpen? || e.ArrClose? then Square else Curly }

  function Fill(ch: byte, n: nat): (s: seq<byte>)
    ensures |s| == n && forall i :: 0 <= i < n ==> s[i] == ch
  { seq(n, _ => ch) }

  // ---------- what an element adds ----------

  function Indent(l: Layout, p: Pen, e: Event): seq<byte> {
    if !Pretty(l) || !p.whspace || |p.ctxs| == 0 then [] else
    var n := if Closing(e) then |p.ctxs| - 1 else |p.ctxs|;
    [NEWLINE] + (if l.spaces then Fill(SPACE, n * 4) else Fill(TAB, n))
  }

  function Lead(l: Layout, p: Pen, e: Event): seq<byte> {
    (if p.comma && !Closing(e) then [COMMA] else []) + Indent(l, p, e)
  }

  /** A string as it is written, escaped unless the layout says not to. */
  function Spelled(l: Layout, s: seq<byte>): seq<byte> { if l.raw then s else Escaped(s) }

  function Quoted(l: Layout, s: seq<byte>): seq<byte> { [QUOTE] + Spelled(l, s) + [QUOTE] }

  function Body(l: Layout, e: Event): seq<byte> {
    match e
    case Str(s) => Quoted(l, s)
    case Key(s) => Quoted(l, s) + (if Pretty(l) then [COLON, SPACE] else [COLON])
    case Int(i) => Decimal(i)
    case Num(text) => text
    case _ => Mark(e)
  }

  /** A closing bracket without an open one, or one of the wrong kind. */
  predicate Misplaced(p: Pen, e: Event) { Closing(e) && !Inside(p.ctxs, BracketOf(e)) }

  function After(p: Pen, e: Event): Pen {
    match e
    case Key(_) => Pen(false, false, p.ctxs)
    case ArrOpen => Pen(false, true, p.ctxs + [Square])
    case ObjOpen => Pen(false, true, p.ctxs + [Curly])
    case _ => Pen(true, true, if Closing(e) && !Misplaced(p, e) then Popped(p.ctxs) else p.ctxs)
  }

  function Element(l: Layout, p: Pen, e: Event): seq<byte> {
    if Misplaced(p, e) then Indent(l, p, e) else Lead(l, p, e) + Body(l, e)
  }

  /** A document written event by event. */
  function Document(l: Layout, p: Pen, evs: seq<Event>): seq<byte>
    decreases |evs|
  {
    if evs == [] then [] else Element(l, p, evs[0]) + Document(l, After(p, evs[0]), evs[1..])
  }

  /** What may be asked for: 64-bit integers, and numbers with the text that `ffs_fromfloat`
      gives them, at most `FFS_FLTCAP` characters. */
  predicate Writable(e: Event) {
    (e.Int? ==> -TWO63 <= e.i < TWO63) && (e.Num? ==> |e.text| <= FLTCAP)
  }

  datatype Written = Count(n: nat) | NotOpen | WrongKind

  class Writer {
    const layout: Layout
    var comma: bool
    var whspace: bool
    var buf: seq<byte>
    var ctxs: seq<Bracket>

    ghost function Now(): Pen
      reads this
    { Pen(comma, whspace, ctxs) }

    /** `ffjsonw_init` */
    constructor (l: Layout)
      ensures layout == l && buf == [] && Now() == FRESH
    {
      layout := l;
      comma, whspace, buf, ctxs := false, false, [], [];
    }

    /** `ffjsonw_size`: room that is enough for the element. */
    method Size(e: Event) returns (cap: nat)
      requires Writable(e)
      ensures |Element(layout, Now(), e)| <= cap
      ensures e.Str? || e.Key? ==> 1 + (if Pretty(layout) then 1 + 4 * |ctxs| else 0) + |Quoted(layout, e.s)| + 2 <= cap
    {
      hide Escaped, Decimal, Inside;
      LeadFits(layout, Now(), e);
      cap := 1;
      if Pretty(layout) {
        cap := cap + 1 + 4 * |ctxs|;
      }
      if e.Str? || e.Key? {
        var n := TextSize(e.s);
        cap := cap + 4 + n;
      } else if e.Int? {
        IntLength(e.i);
        cap := cap + 32;
      } else if e.Num? {
        cap := cap + FLTCAP;
      } else if e.Null? || e.Bool? {
        cap := cap + 5;
      } else {
        cap := cap + 1;
      }
    }

    method TextSize(s: seq<byte>) returns (n: nat)
      ensures n == |Spelled(layout, s)|
    {
      if layout.raw { n := |s|; } else { n := EscapeSize(s); }
    }

    /** The comma and the line break before an element. */
    method AddLead(e: Event)
      modifies this`buf
      ensures buf == old(buf) + Lead(layout, Now(), e)
    {
      if !Closing(e) && comma {
        buf := buf + [COMMA];
      }
      if Pretty(layout) && whspace && |ctxs| != 0 {
        buf := buf + [NEWLINE];
        var fillchar, nfill := TAB, |ctxs|;
        if Closing(e) {
          nfill := nfill - 1;
        }
        if layout.spaces {
          fillchar, nfill := SPACE, nfill * 4;
        }
        buf := buf + Fill(fillchar, nfill);
      }
    }

    /** A string between quotes, escaped into the room that is left. */
    method AddQuoted(s: seq<byte>, room: nat)
      requires |Quoted(layout, s)| <= room
      modifies this`buf
      ensures buf == old(buf) + Quoted(layout, s)
    {
      hide Escaped;
      ghost var was := buf;
      var text := s;
      buf := buf + [QUOTE];
      if !layout.raw {
        var overrun;
        text, overrun := Escape(s, room - 1);
      }
      buf := buf + text;
      buf := buf + [QUOTE];
      Between(was, text);
    }

    method AddScalar(e: Event)
      requires e.Null? || e.Bool? || ((e.Int? || e.Num?) && Writable(e))
      modifies this
      ensures buf == old(buf) + Body(layout, e) && Now() == After(old(Now()), e)
    {
      comma, whspace := true, true;
      if e.Int? {
        var text := FromInt64(e.i);
        buf := buf + text;
      } else if e.Num? {
        buf := buf + e.text;
      } else if e.Null? {
        buf := buf + NULL;
      } else if e.b != 0 {
        buf := buf + TRUE;
      } else {
        buf := buf + FALSE;
      }
    }

    method AddText(e: Event, room: nat)
      requires (e.Str? || e.Key?) && |Quoted(layout, e.s)| <= room
      modifies this
      ensures buf == old(buf) + Body(layout, e) && Now() == After(old(Now()), e)
    {
      ghost var was := buf;
      if e.Str? {
        comma, whspace := true, true;
        AddQuoted(e.s, room);
      } else {
        comma, whspace := false, false;
        AddQuoted(e.s, room);
        buf := buf + [COLON];
        if Pretty(layout) {
          buf := buf + [SPACE];
        }
        assert buf == was + Body(layout, e);
      }
    }

    method AddOpen(e: Event)
      requires e.ArrOpen? || e.ObjOpen?
      modifies this
      ensures buf == old(buf) + Body(layout, e) && Now() == After(old(Now()), e)
    {
      comma, whspace := false, true;
      buf := buf + [if e.ObjOpen? then LBRACE else LBRACKET];
      ctxs := ctxs + [BracketOf(e)];
    }

    method AddClose(e: Event) returns (r: Written)
      requires Closing(e)
      modifies this
      ensures buf == if Misplaced(old(Now()), e) then old(buf) else old(buf) + Body(layout, e)
      ensures Now() == After(old(Now()), e)
      ensures r == if Inside(old(ctxs), BracketOf(e)) then Count(1) else if |old(ctxs)| == 0 then NotOpen else WrongKind
    {
      comma, whspace := true, true;
      if |ctxs| == 0 {
        return NotOpen;
      }
      if ctxs[|ctxs| - 1] != BracketOf(e) {
        return WrongKind;
      }
      ctxs := ctxs[..|ctxs| - 1];
      buf := buf + [if e.ObjClose? then RBRACE else RBRACKET];
      r := Count(1);
    }

    /** `ffjsonw_add`: appends one element.  After a misplaced closing bracket the line
        break before it stays in the buffer. */
    method Add(e: Event) returns (r: Written)
      requires Writable(e)
      modifies this
      ensures buf == old(buf) + Element(layout, old(Now()), e)
      ensures Now() == After(old(Now()), e)
      ensures r == if !Closing(e) || Inside(old(ctxs), BracketOf(e)) then Count(|buf| - |old(buf)|)
                   else if |old(ctxs)| == 0 then NotOpen else WrongKind
    {
      hide Indent, Body, After, Quoted, Inside, BracketOf, Pretty, Lead, Popped;
      var cap := Size(e);
      var oldlen := |buf|;
      LeadFits(layout, Now(), e);
      AddLead(e);
      if e.Str? || e.Key? {
        AddText(e, cap - (|buf| - oldlen));
      } else if e.ArrOpen? || e.ObjOpen? {
        AddOpen(e);
      } else if Closing(e) {
        NoComma(layout, Now(), e);
        r := AddClose(e);
        if !r.Count? { return; }
      } else {
        AddScalar(e);
      }
      r := Count(|buf| - oldlen);
    }
  }

  lemma Between(was: seq<byte>, text: seq<byte>)
    ensures ((was + [QUOTE]) + text) + [QUOTE] == was + (([QUOTE] + text) + [QUOTE])
  {}

  lemma NoComma(l: Layout, p: Pen, e: Event)
    requires Closing(e)
    ensures Lead(l, p, e) == Indent(l, p, e)
  {}

  lemma LeadFits(l: Layout, p: Pen, e: Event)
    ensures |Lead(l, p, e)| <= 1 + (if Pretty(l) then 1 + 4 * |p.ctxs| else 0)
  {}

  lemma NoMore(l: Layout, p: Pen)
    ensures Document(l, p, []) == []
  {}

  lemma DocumentNext(l: Layout, p: Pen, evs: seq<Event>, i: nat, done: seq<byte>)
    requires i < |evs|
    ensures done + Document(l, p, evs[i..])
      == (done + Element(l, p, evs[i])) + Document(l, After(p, evs[i]), evs[i + 1..])
  {
    hide Element, After;
    assert evs[i..][0] == evs[i] && evs[i..][1..] == evs[i + 1..];
  }

  /** Writes a whole document. */
  method WriteAll(l: Layout, evs: seq<Event>) returns (text: seq<byte>)
    requires forall i :: 0 <= i < |evs| ==> Writable(evs[i])
    ensures text == Document(l, FRESH, evs)
  {
    hide Element, After, Document;
    var w := new Writer(l);
    assert evs[0..] == evs && [] + Document(l, FRESH, evs) == Document(l, FRESH, evs);
    var i := 0;
    while i < |evs|
      invariant 0 <= i <= |evs| && fresh(w) && w.layout == l
      invariant w.buf + Document(l, w.Now(), evs[i..]) == Document(l, FRESH, evs)
    {
      DocumentNext(l, w.Now(), evs, i, w.buf);
      var r := w.Add(evs[i]);
      i := i + 1;
    }
    text := w.buf;
    NoMore(l, w.Now());
    assert evs[i..] == [] && text + [] == text;
  }

  // ---------- the layout of a document ----------

  /** The pen after some events. */
  function PenAfter(p: Pen, evs: seq<Event>): Pen
    decreases |evs|
  { if evs == [] then p else PenAfter(After(p, evs[0]), evs[1..]) }

  lemma PenNext(p: Pen, g: Place, e: Event)
    requires p.ctxs == g.open && Next(g, e).Some?
    ensures !Misplaced(p, e) && After(p, e).ctxs == Next(g, e).value.open
    ensures After(p, e).comma == !Introduces(e) && After(p, e).whspace == !e.Key?
  {}

  lemma {:induction false} PenIs(p: Pen, g: Place, evs: seq<Event>)
    requires p.ctxs == g.open && Follow(g, evs).Some?
    ensures var q := PenAfter(p, evs);
      && q.ctxs == Follow(g, evs).value.open
      && q.comma == (if evs == [] then p.comma else !Introduces(evs[|evs| - 1]))
      && q.whspace == (if evs == [] then p.whspace else !evs[|evs| - 1].Key?)
    decreases |evs|
  {
    hide Next, After;
    if evs == [] {
    } else {
      PenNext(p, g, evs[0]);
      PenIs(After(p, evs[0]), Next(g, evs[0]).value, evs[1..]);
    }
  }

  lemma {:induction false} DocumentSplit(l: Layout, p: Pen, evs: seq<Event>, k: nat)
    requires k < |evs|
    ensures var q := PenAfter(p, evs[..k]);
      Document(l, p, evs)
        == Document(l, p, evs[..k]) + (Element(l, q, evs[k]) + Document(l, After(q, evs[k]), evs[k + 1..]))
    decreases |evs|
  {
    hide Element, After;
    if k == 0 {
      assert evs[..0] == [];
    } else {
      var rest, p' := evs[1..], After(p, evs[0]);
      DocumentSplit(l, p', rest, k - 1);
      assert evs[..k][0] == evs[0] && evs[..k][1..] == rest[..k - 1] && rest[k..] == evs[k + 1..];
    }
  }

  /** The text of an event apart from commas and layout. */
  predicate IsText(l: Layout, e: Event, s: seq<byte>) {
    match e
    case Str(x) => s == [34] + Spelled(l, x) + [34]
    case Key(x) => s == [34] + Spelled(l, x) + [34] + (if l.tabs || l.spaces then [58, 32] else [58])
    case Int(i) => s == if i < 0 then [45] + Digits(-i) else Digits(i)
    case Num(text) => s == text
    case Null => s == [110, 117, 108, 108]
    case Bool(b) => s == if b != 0 then [116, 114, 117, 101] else [102, 97, 108, 115, 101]
    case ArrOpen => s == [91]
    case ArrClose => s == [93]
    case ObjOpen => s == [123]
    case ObjClose => s == [125]
  }

  /** A new line that is indented d levels, by tabs or by four blanks each. */
  predicate IsNewLine(l: Layout, d: nat, s: seq<byte>) {
    && |s| == 1 + (if l.spaces then 4 * d else d) && s[0] == 10
    && forall i :: 1 <= i < |s| ==> s[i] == if l.spaces then 32 else 9
  }

  /** A closing bracket of the kind that is open. */
  predicate Fitting(open: seq<Bracket>, e: Event) {
    |open| > 0 && ((e.ArrClose? && open[|open| - 1].Square?) || (e.ObjClose? && open[|open| - 1].Curly?))
  }

  /** The brackets that are open after one more event. */
  ghost function OpenNext(open: seq<Bracket>, e: Event): seq<Bracket> {
    if e.ArrOpen? then open + [Square] else if e.ObjOpen? then open + [Curly]
    else if Fitting(open, e) then Popped(open) else open
  }

  /** The brackets that some events leave open, a closing one that fits nothing apart. */
  ghost function OpenAfter(evs: seq<Event>): seq<Bracket> {
    if evs == [] then [] else OpenNext(OpenAfter(evs[..|evs| - 1]), evs[|evs| - 1])
  }

  /** How whatever is written looks: each element is preceded by a comma if it is not a
      closing bracket and there is one before it that is no key and no opening bracket; in a
      pretty layout, inside of brackets, by a new line if there is one before it that is no
      key, indented by the brackets that are open, a closing bracket by one less.  A key is
      followed by a colon and, in a pretty layout, one blank.  Of a closing bracket that
      fits nothing there is the new line only.  There is nothing else. */
  lemma WrittenAs(l: Layout, evs: seq<Event>, k: nat) returns (line: seq<byte>, text: seq<byte>)
    requires k < |evs|
    ensures var comma := k > 0 && !Closing(evs[k]) && !Introduces(evs[k - 1]);
      Document(l, FRESH, evs[..k + 1])
        == Document(l, FRESH, evs[..k]) + ((if comma then [44] else []) + line + text)
    ensures var n := |OpenAfter(evs[..k])|;
      if k > 0 && !evs[k - 1].Key? && (l.tabs || l.spaces) && n > 0 then
        IsNewLine(l, if Closing(evs[k]) then n - 1 else n, line)
      else line == []
    ensures if Closing(evs[k]) && !Fitting(OpenAfter(evs[..k]), evs[k]) then text == [] else IsText(l, evs[k], text)
  {
    hide Document, PenAfter, OpenAfter, Body, Indent, IsText, IsNewLine, Introduces;
    var done, e := evs[..k], evs[k];
    var p := PenAfter(FRESH, done);
    PenOpen(done);
    LastElement(l, evs, k);
    line, text := Indent(l, p, e), if Misplaced(p, e) then [] else Body(l, e);
    TextIs(l, e);
    LineIs(l, p, e);
    if k > 0 { assert done[k - 1] == evs[k - 1]; }
    var comma := if p.comma && !Closing(e) then [COMMA] else [];
    assert Element(l, p, e) == comma + line + text;
  }

  lemma {:induction false} PenLast(p: Pen, evs: seq<Event>)
    requires evs != []
    ensures PenAfter(p, evs) == After(PenAfter(p, evs[..|evs| - 1]), evs[|evs| - 1])
    decreases |evs|
  {
    hide After;
    if |evs| == 1 {
    } else {
      var rest := evs[1..];
      PenLast(After(p, evs[0]), rest);
      assert evs[..|evs| - 1][1..] == rest[..|rest| - 1];
    }
  }

  lemma {:induction false} PenOpen(evs: seq<Event>)
    ensures var p := PenAfter(FRESH, evs);
      && p.ctxs == OpenAfter(evs)
      && p.comma == (evs != [] && !Introduces(evs[|evs| - 1]))
      && p.whspace == (evs != [] && !evs[|evs| - 1].Key?)
  {
    if evs == [] {
    } else {
      hide PenAfter, OpenAfter, After, Introduces;
      PenOpen(evs[..|evs| - 1]);
      PenLast(FRESH, evs);
      OpenLast(evs);
      AfterOne(PenAfter(FRESH, evs[..|evs| - 1]), evs[|evs| - 1]);
    }
  }

  lemma OpenLast(evs: seq<Event>)
    requires evs != []
    ensures OpenAfter(evs) == OpenNext(OpenAfter(evs[..|evs| - 1]), evs[|evs| - 1])
  {
    hide OpenNext;
  }

  lemma AfterOne(p: Pen, e: Event)
    ensures var q := After(p, e); q.ctxs == OpenNext(p.ctxs, e) && q.comma == !Introduces(e) && q.whspace == !e.Key?
  {}

  /** The same of a document whose elements stand where they may: what is open is what the
      grammar says, and except at the start and after a key something is. */
  lemma LaidOut(l: Layout, evs: seq<Event>, k: nat) returns (line: seq<byte>, text: seq<byte>)
    requires Follow(START, evs).Some? && k < |evs|
    ensures Follow(START, evs[..k]).Some?
    ensures var comma := k > 0 && !Closing(evs[k]) && !Introduces(evs[k - 1]);
      Document(l, FRESH, evs[..k + 1])
        == Document(l, FRESH, evs[..k]) + ((if comma then [44] else []) + line + text)
    ensures var open := |Follow(START, evs[..k]).value.open|;
      if k > 0 && !evs[k - 1].Key? && (l.tabs || l.spaces) then
        open > 0 && IsNewLine(l, if Closing(evs[k]) then open - 1 else open, line)
      else line == []
    ensures IsText(l, evs[k], text)
  {
    hide Follow, Next, Document, PenAfter, OpenAfter, After, Inside, IsText, IsNewLine, Introduces, Fitting;
    var done := evs[..k];
    AtPlace(evs, k);
    PenIs(FRESH, START, done);
    PenOpen(done);
    var g := Follow(START, done).value;
    MoreMay(g, evs[k]);
    if Closing(evs[k]) { ClosesOne(g, evs[k]); }
    if k > 0 {
      PlaceAfter(done);
      assert done[k - 1] == evs[k - 1];
    }
    line, text := WrittenAs(l, evs, k);
  }

  lemma AtPlace(evs: seq<Event>, k: nat)
    requires Follow(START, evs).Some? && k < |evs|
    ensures Follow(START, evs[..k]).Some? && Next(Follow(START, evs[..k]).value, evs[k]).Some?
  {
    hide Next;
    assert evs == evs[..k] + evs[k..];
    FollowAppend(START, evs[..k], evs[k..]);
  }

  lemma ClosesOne(g: Place, e: Event)
    requires Next(g, e).Some? && Closing(e)
    ensures Fitting(g.open, e)
  {}

  lemma MoreMay(g: Place, e: Event)
    requires Next(g, e).Some?
    ensures !g.want.Nothing?
  {}

  lemma LastElement(l: Layout, evs: seq<Event>, k: nat)
    requires k < |evs|
    ensures Document(l, FRESH, evs[..k + 1])
      == Document(l, FRESH, evs[..k]) + Element(l, PenAfter(FRESH, evs[..k]), evs[k])
  {
    hide Element, Document, PenAfter, After;
    var es := evs[..k + 1];
    DocumentSplit(l, FRESH, es, k);
    assert es[..k] == evs[..k] && es[k + 1..] == [];
    NoMore(l, After(PenAfter(FRESH, evs[..k]), evs[k]));
    var x := Element(l, PenAfter(FRESH, evs[..k]), evs[k]);
    assert x + [] == x;
  }

  lemma TextIs(l: Layout, e: Event)
    ensures IsText(l, e, Body(l, e))
  {
    hide Digits, Spelled;
  }

  lemma LineIs(l: Layout, p: Pen, e: Event)
    ensures if Pretty(l) && p.whspace && |p.ctxs| > 0 then
        IsNewLine(l, if Closing(e) then |p.ctxs| - 1 else |p.ctxs|, Indent(l, p, e))
      else Indent(l, p, e) == []
  {}

  /** A value comes after a key and at the start only; else something is open, or nothing
      more may come. */
  lemma PlaceAfter(evs: seq<Event>)
    requires evs != [] && Follow(START, evs).Some?
    ensures var g := Follow(START, evs).value;
      if evs[|evs| - 1].Key? then g.want.Value?
      else if g.want.Nothing? then |g.open| == 0
      else g.want.Member? && |g.open| > 0
  {
    hide Inside;
    var n := |evs| - 1;
    assert evs == evs[..n] + [evs[n]];
    FollowAppend(START, evs[..n], [evs[n]]);
    assert Follow(Follow(START, evs[..n]).value, [evs[n]]) == Next(Follow(START, evs[..n]).value, evs[n]);
  }

  /** Without layout there is no space but in strings and keys, and in numbers whose text has
      some. */
  lemma Compact(l: Layout, evs: seq<Event>, k: nat) returns (text: seq<byte>)
    requires Follow(START, evs).Some? && k < |evs| && !l.tabs && !l.spaces
    ensures var comma := k > 0 && !Closing(evs[k]) && !Introduces(evs[k - 1]);
      Document(l, FRESH, evs[..k + 1]) == Document(l, FRESH, evs[..k]) + ((if comma then [44] else []) + text)
    ensures IsText(l, evs[k], text)
    ensures evs[k].Str? ==> text == [34] + Spelled(l, evs[k].s) + [34]
    ensures evs[k].Key? ==> text == [34] + Spelled(l, evs[k].s) + [34, 58]
    ensures !evs[k].Str? && !evs[k].Key? && !evs[k].Num? ==> forall i :: 0 <= i < |text| ==> text[i] !in [32, 9, 13, 10]
  {
    hide Document, Spelled, Decimal;
    var line;
    line, text := LaidOut(l, evs, k);
    assert forall c: seq<byte> :: c + [] == c;
    if evs[k].Key? {
      assert [34] + Spelled(l, evs[k].s) + [34] + [58] == [34] + Spelled(l, evs[k].s) + [34, 58];
    } else if evs[k].Int? {
      DecimalBare(evs[k].i);
    }
  }

  lemma DecimalBare(i: int)
    ensures forall k :: 0 <= k < |Decimal(i)| ==> Decimal(i)[k] !in [32, 9, 13, 10]
  {
    var s := Decimal(i);
    forall k | 0 <= k < |s| ensures s[k] !in [32, 9, 13, 10] {
      if i >= 0 || k > 0 { assert IsDigit(s[k]); }
    }
  }
}
