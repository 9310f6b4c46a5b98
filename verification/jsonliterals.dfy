/** The characters of JSON written out.

    What the reader makes of single characters and escapes, and what the writer makes of
    single bytes, against tables of literal text; nothing here is said in terms of the
    functions that the reader and the writer look characters up with.
  */
module JsonLiterals {
  import opened JsonGrammar
  import opened JsonSpelling
  import opened JsonStep
  import opened JsonText
  import opened Optional

  /** The bytes of a text. */
  function Ascii(t: string): (s: seq<byte>)
    requires forall i :: 0 <= i < |t| ==> t[i] < 128 as char
    ensures |s| == |t| && forall i :: 0 <= i < |t| ==> s[i] == t[i] as int
  { seq(|t|, i requires 0 <= i < |t| => t[i] as int) }

  // ---------- words, space and numbers ----------

  lemma WordsAre()
    ensures TRUE == Ascii("true") && FALSE == Ascii("false") && NULL == Ascii("null")
    ensures [LBRACKET, RBRACKET, LBRACE, RBRACE, COMMA, COLON, QUOTE] == Ascii("[]{},:\"")
    ensures [SLASH, STAR, NEWLINE, SPACE, TAB, BACKSLASH] == Ascii("/*\n \t\\")
  {}

  /** Space is four characters, no more and no less. */
  lemma SpaceIs(ch: byte)
    ensures IsSpace(ch) <==> ch in Ascii(" \t\r\n")
  {
    var s := Ascii(" \t\r\n");
    assert s == [32, 9, 13, 10];
  }

  /** What a number is made of. */
  lemma NumberCharacters(ch: byte)
    ensures NumChar(ch) <==> ch in Ascii("0123456789+-.eE")
  {
    var s := Ascii("0123456789+-.eE");
    assert s == [48, 49, 50, 51, 52, 53, 54, 55, 56, 57, 43, 45, 46, 101, 69];
  }

  // ---------- hexadecimal digits ----------

  const SMALL: string := "0123456789abcdef"
  const CAPITAL: string := "0123456789ABCDEF"

  /** A digit of the value v, in either case. */
  predicate DigitIs(ch: byte, v: nat)
    requires v < 16
  { ch == SMALL[v] as int || ch == CAPITAL[v] as int }

  /** Four hexadecimal digits of n, each in either case. */
  predicate DigitsAre(h: seq<byte>, n: nat)
    requires n < 0x1_0000
  {
    |h| == 4 && DigitIs(h[0], n / 4096) && DigitIs(h[1], n / 256 % 16) && DigitIs(h[2], n / 16 % 16)
    && DigitIs(h[3], n % 16)
  }

  lemma DigitValue(ch: byte, v: nat)
    requires v < 16 && DigitIs(ch, v)
    ensures HexValue(ch) == v
  {
    if v < 8 {
      assert v in {0, 1, 2, 3, 4, 5, 6, 7};
    } else {
      assert v in {8, 9, 10, 11, 12, 13, 14, 15};
    }
  }

  lemma WordValue(h: seq<byte>, n: nat)
    requires n < 0x1_0000 && DigitsAre(h, n)
    ensures |h| == 4 && HexWord(h) == n
  {
    hide DigitIs, HexValue;
    DigitValue(h[0], n / 4096);
    DigitValue(h[1], n / 256 % 16);
    DigitValue(h[2], n / 16 % 16);
    DigitValue(h[3], n % 16);
    Base16(n);
  }

  lemma Base16(n: nat)
    ensures ((n / 4096 * 16 + n / 256 % 16) * 16 + n / 16 % 16) * 16 + n % 16 == n
  {
    var a, b := n / 16, n / 256;
    assert a / 16 == b && b / 16 == n / 4096;
    Times16(n);
    Times16(a);
    Times16(b);
  }

  lemma Times16(n: nat)
    ensures n / 16 * 16 + n % 16 == n
  {}

  /** Only hexadecimal digits have a value, and the two characters before the letters. */
  lemma OnlyDigits(ch: byte)
    ensures HexValue(ch) >= 0 <==> ch in Ascii("0123456789@ABCDEF`abcdef")
  {
    var s := Ascii("0123456789@ABCDEF`abcdef");
    assert s == [48, 49, 50, 51, 52, 53, 54, 55, 56, 57, 64, 65, 66, 67, 68, 69, 70, 96, 97, 98, 99, 100, 101, 102];
  }

  // ---------- UTF-8 ----------

  /** The bytes of a number up to 10FFFF: how many, and the bits that each carries. */
  predicate IsUtf8(s: seq<byte>, u: nat) {
    if u < 0x80 then s == [u]
    else if u < 0x800 then
      |s| == 2 && 0xc0 <= s[0] < 0xe0 && Carries(s[1..])
      && u == (s[0] as int - 0xc0) * 0x40 + Carried(s[1])
    else if u < 0x1_0000 then
      |s| == 3 && 0xe0 <= s[0] < 0xf0 && Carries(s[1..])
      && u == ((s[0] as int - 0xe0) * 0x40 + Carried(s[1])) * 0x40 + Carried(s[2])
    else
      |s| == 4 && 0xf0 <= s[0] < 0xf8 && Carries(s[1..])
      && u == (((s[0] as int - 0xf0) * 0x40 + Carried(s[1])) * 0x40 + Carried(s[2])) * 0x40 + Carried(s[3])
  }

  /** Bytes that are not the first carry six bits each. */
  predicate Carries(s: seq<byte>) { forall i :: 0 <= i < |s| ==> 0x80 <= s[i] < 0xc0 }

  function Carried(b: byte): int { b as int - 0x80 }

  lemma CarriedSix(u: nat)
    ensures Carried(Six(u)) == u % 0x40 && u / 0x40 * 0x40 + u % 0x40 == u
  {}

  lemma Utf8Is(u: nat)
    requires u < 0x11_0000
    ensures IsUtf8(Utf8(u), u)
  {
    hide Six, Carried;
    CarriedSix(u);
    CarriedSix(u / 0x40);
    CarriedSix(u / 0x1000);
    Quotients(u);
  }

  // ---------- escapes in a string ----------

  /** The escape of a character of the Basic Multilingual Plane, its digits in either case,
      adds the character's UTF-8 bytes to the string that is read. */
  lemma UnicodeEscape(o: Options, c: Core, n: nat, h: seq<byte>) returns (c': Core, bytes: seq<byte>)
    requires Ok(c) && (c.st.InStr? || c.st.InKey?) && !o.keepEscapes
    requires n < 0x1_0000 && !(0xd800 <= n < 0xe000) && DigitsAre(h, n)
    ensures IsUtf8(bytes, n)
    ensures Reads(o, c, Ascii("\\u") + h, [], c') && Alike(c', c.(buf := c.buf + bytes))
  {
    hide HexWord, DigitsAre, Utf8, IsUtf8, Reads, OkAt;
    WordValue(h, n);
    Utf8Is(n);
    bytes := Utf8(n);
    assert Ascii("\\u") == [BACKSLASH, 117];
    c' := ReadsUnicode(o, c, h);
  }

  /** The two escapes of any other character add its UTF-8 bytes. */
  lemma SurrogateEscapes(o: Options, c: Core, n: nat, h: seq<byte>, l: seq<byte>) returns (c': Core, bytes: seq<byte>)
    requires Ok(c) && (c.st.InStr? || c.st.InKey?) && !o.keepEscapes && 0x1_0000 <= n < 0x11_0000
    requires DigitsAre(h, 0xd800 + (n - 0x1_0000) / 0x400) && DigitsAre(l, 0xdc00 + (n - 0x1_0000) % 0x400)
    ensures IsUtf8(bytes, n)
    ensures Reads(o, c, (Ascii("\\u") + h) + (Ascii("\\u") + l), [], c') && Alike(c', c.(buf := c.buf + bytes))
  {
    hide HexWord, DigitsAre, Utf8, IsUtf8, Reads, OkAt, Supplementary;
    WordValue(h, 0xd800 + (n - 0x1_0000) / 0x400);
    WordValue(l, 0xdc00 + (n - 0x1_0000) % 0x400);
    PairJoined(n);
    Utf8Is(n);
    bytes := Utf8(n);
    assert Ascii("\\u") == [BACKSLASH, 117];
    c' := ReadsSurrogates(o, c, h, l);
  }

  lemma PairJoined(n: nat)
    requires 0x1_0000 <= n < 0x11_0000
    ensures var hi, lo := 0xd800 + (n - 0x1_0000) / 0x400, 0xdc00 + (n - 0x1_0000) % 0x400;
      HighSurrogate(hi) && LowSurrogate(lo) && Supplementary(hi, lo) == n
  {}

  /** A document that is one string. */
  lemma OneString(o: Options, ps: seq<Piece>)
    requires AllAllowed(o, ps)
    ensures (forall i :: 0 <= i < |ps| ==> WellFormed(ps[i])) && var r := Run(o, INIT, InQuotes(ps));
      r.evs == [Str(PiecesBytes(ps))] && r.end.More? && Fin(r.end.c)
  {
    hide InQuotes, PiecesBytes, Allowed, Run, Fin;
    AllowedFormed(o, ps);
    var s := Spelling([], false, [], Quote(ps));
    var ts := [s];
    var e := Str(PiecesBytes(ps));
    assert ts[1..] == [] && Meanings(o, ts) == [e];
    assert Follow(START, [e]) == Next(START, e);
    AnySpelling(o, ts, NO_TAIL);
    NoTail();
    assert GapsText([]) == [];
    assert SpellingText(o, true, s) == InQuotes(ps);
    assert DocumentText(o, true, ts) + TailText(NO_TAIL) == InQuotes(ps);
  }

  /** A document that is one escape in quotes. */
  lemma OneEscape(o: Options, p: Piece, text: seq<byte>, bytes: seq<byte>)
    requires Allowed(o, p) && text == PieceText(p) && bytes == PieceBytes(p)
    ensures var r := Run(o, INIT, [QUOTE] + text + [QUOTE]); r.evs == [Str(bytes)] && r.end.More? && Fin(r.end.c)
  {
    hide Allowed, PieceText, PieceBytes, Run, Fin, WellFormed;
    OneString(o, [p]);
    assert [p][..0] == [] && [] + bytes == bytes && [] + text == text;
    assert PiecesBytes([p]) == bytes && PiecesText([p]) == text;
  }

  /** A document that is the escape of one character. */
  lemma EscapedDocument(o: Options, n: nat, h: seq<byte>) returns (bytes: seq<byte>)
    requires !o.keepEscapes && n < 0x1_0000 && !(0xd800 <= n < 0xe000) && DigitsAre(h, n)
    ensures IsUtf8(bytes, n)
    ensures var r := Run(o, INIT, Ascii("\"\\u") + h + Ascii("\""));
      r.evs == [Str(bytes)] && r.end.More? && Fin(r.end.c)
  {
    hide HexWord, DigitsAre, Utf8, IsUtf8, Run, Fin;
    WordValue(h, n);
    Utf8Is(n);
    bytes := Utf8(n);
    OneEscape(o, Unit(h), [BACKSLASH, 117] + h, bytes);
    Opened(h);
  }

  lemma Opened(h: seq<byte>)
    ensures Ascii("\"\\u") + h + Ascii("\"") == [QUOTE] + ([BACKSLASH, 117] + h) + [QUOTE]
  {
    assert Ascii("\"\\u") == [QUOTE, BACKSLASH, 117] && Ascii("\"") == [QUOTE];
  }

  /** The characters of an escape of two, and the bytes they stand for. */
  const SHORTS: string := "\"\\/bfnrt"
  const STAND_FOR: seq<byte> := [34, 92, 47, 8, 12, 10, 13, 9]

  lemma ShortIs(k: nat)
    requires k < 8
    ensures Unescaped(SHORTS[k] as int) == STAND_FOR[k]
  {
    assert k in {0, 1, 2, 3, 4, 5, 6, 7};
  }

  /** Each of the eight is read as its byte. */
  lemma ShortEscape(o: Options, k: nat)
    requires !o.keepEscapes && k < 8
    ensures var r := Run(o, INIT, Ascii("\"\\") + [SHORTS[k] as int, QUOTE]);
      r.evs == [Str([STAND_FOR[k]])] && r.end.More? && Fin(r.end.c)
  {
    hide Run, Fin, Unescaped;
    ShortIs(k);
    var ch: byte := SHORTS[k] as int;
    OneEscape(o, Short(ch), [BACKSLASH, ch], [STAND_FOR[k]]);
    assert Ascii("\"\\") == [QUOTE, BACKSLASH];
    assert [QUOTE, BACKSLASH] + [ch, QUOTE] == [QUOTE] + [BACKSLASH, ch] + [QUOTE];
  }

  lemma OnlyShorts(ch: byte)
    ensures Unescaped(ch) >= 0 <==> ch in Ascii("\"\\/bfnrt")
  {
    var s := Ascii("\"\\/bfnrt");
    assert s == [34, 92, 47, 98, 102, 110, 114, 116];
  }

  // ---------- refusals ----------

  /** What each refusal is called. */
  ghost function Refusal(o: Options, c: Core, ch: byte): Error
    requires Ok(c)
  {
    if c.st.InStr? || c.st.InKey? then BadStr
    else if Escaping(c.st) then BadEscape
    else if Commenting(c.st) then BadComment
    else if c.st.InTrue? || c.st.InFalse? then BadBool
    else if c.st.InNull? then BadNull
    else if c.st.InNum? && |c.buf| == 65 && ch in Ascii("0123456789+-.eE") then Large
    else if c.st.AfterVal? && |c.ctxs| == 0 then Finished
    else if c.st.AfterVal? && ch in Ascii("]}") then BadCtx
    else BadChar
  }

  /** Every refusal is called by the state it comes in, and by the byte only for a number that
      is too long and for a closing bracket of the wrong kind. */
  lemma RefusedAs(o: Options, c: Core, ch: byte)
    requires Ok(c)
    ensures Step(o, c, ch).Fail? ==> Step(o, c, ch).err == Refusal(o, c, ch)
  {
    hide OkAt, OkOut, ToInt, NumChar, IsSpace, Utf8, HexWord, Supplementary;
    NumberCharacters(ch);
    assert Ascii("]}") == [RBRACKET, RBRACE];
  }

  /** The sets of characters below, one by one. */
  lemma SetsAre()
    ensures Ascii("\"\\/bfnrtu") == [34, 92, 47, 98, 102, 110, 114, 116, 117]
    ensures Ascii("\\") == [92] && Ascii("u") == [117] && Ascii("/*") == [47, 42] && Ascii("]") == [93]
    ensures Ascii(",]") == [44, 93] && Ascii(",}") == [44, 125]
    ensures Ascii(" \t\r\n/\"}") == [32, 9, 13, 10, 47, 34, 125]
    ensures Ascii(" \t\r\n/:") == [32, 9, 13, 10, 47, 58]
  {}

  /** What is refused inside of strings, escapes and comments. */
  lemma RefusedInside(o: Options, c: Core, ch: byte)
    requires Ok(c)
    ensures c.st.InStr? || c.st.InKey? ==> (Step(o, c, ch).Fail? <==> ch < 0x20 || ch == 0x7f)
    ensures c.st.Esc? ==> (Step(o, c, ch).Fail? <==> ch !in Ascii("\"\\/bfnrtu"))
    ensures c.st.U2Backslash? ==> (Step(o, c, ch).Fail? <==> ch !in Ascii("\\"))
    ensures c.st.U2? ==> (Step(o, c, ch).Fail? <==> ch !in Ascii("u"))
    ensures c.st.Cmt? ==> (Step(o, c, ch).Fail? <==> !o.comments)
    ensures c.st.CmtSl? ==> (Step(o, c, ch).Fail? <==> ch !in Ascii("/*"))
    ensures c.st.CmtLn? || c.st.CmtMln? || c.st.CmtMlnSl? ==> !Step(o, c, ch).Fail?
  {
    hide OkAt, OkOut, ToInt, NumChar, Utf8, HexWord, Supplementary, Ascii;
    SetsAre();
  }

  /** What is refused between tokens. */
  lemma RefusedBetween(o: Options, c: Core, ch: byte)
    requires Ok(c)
    ensures var after := if Inside(c.ctxs, Square) then Ascii(",]") else Ascii(",}");
      c.st.AfterVal? ==> (Step(o, c, ch).Fail? <==> c.ctxs == [] || ch !in after)
    ensures c.st.SpcObj? ==> (Step(o, c, ch).Fail? <==> ch !in Ascii(" \t\r\n/\"}"))
    ensures c.st.AfterKey? ==> (Step(o, c, ch).Fail? <==> ch !in Ascii(" \t\r\n/:"))
    ensures c.st.SpcVal? ==> (Step(o, c, ch).Fail? <==> ch in Ascii("]"))
    ensures c.st.SpcArr? || c.st.SpcAfterVal? ==> !Step(o, c, ch).Fail?
  {
    hide OkAt, OkOut, ToInt, NumChar, Utf8, HexWord, Supplementary, Ascii;
    SetsAre();
  }

  /** What is refused inside of words and numbers. */
  lemma RefusedWords(o: Options, c: Core, ch: byte)
    requires Ok(c)
    ensures c.st.InTrue? ==> (Step(o, c, ch).Fail? <==> ch != Ascii("true")[c.escLen])
    ensures c.st.InFalse? ==> (Step(o, c, ch).Fail? <==> ch != Ascii("false")[c.escLen])
    ensures c.st.InNull? ==> (Step(o, c, ch).Fail? <==> ch != Ascii("null")[c.escLen])
    ensures c.st.InNum? && ch in Ascii("0123456789+-.eE") ==> (Step(o, c, ch).Fail? <==> |c.buf| == 65)
  {
    hide OkOut, ToInt, NumChar, Ascii;
    NumberCharacters(ch);
    WordsAre();
  }

  // ---------- what the writer makes of a byte ----------

  /** The escape of a byte: of two characters for eight of them, a `\u` escape with capital
      digits for the other control characters, and none else. */
  lemma EscapeIs(b: byte)
    ensures EscapedByte(b) ==
      if b == 8 then Ascii("\\b") else if b == 9 then Ascii("\\t") else if b == 10 then Ascii("\\n")
      else if b == 12 then Ascii("\\f") else if b == 13 then Ascii("\\r")
      else if b == 34 then Ascii("\\\"") else if b == 92 then Ascii("\\\\")
      else if b < 32 || b == 127 then Ascii("\\u00") + [CAPITAL[b / 16] as int, CAPITAL[b % 16] as int]
      else [b]
  {}

  /** A decimal number has no zeros in front. */
  lemma {:induction false} NoZeros(n: nat)
    ensures |Digits(n)| > 1 ==> Digits(n)[0] != '0' as int
  {
    if n < 10 {
    } else {
      NoZeros(n / 10);
    }
  }

  // ---------- decoding UTF-8 ----------

  /** The first byte of a character of n bytes. */
  predicate Announces(b: byte, n: nat) {
    if n == 1 then b < 0x80 else if n == 2 then 0xc0 <= b < 0xe0 else if n == 3 then 0xe0 <= b < 0xf0
    else if n == 4 then 0xf0 <= b < 0xf8 else if n == 5 then 0xf8 <= b < 0xfc else n == 6 && 0xfc <= b < 0xfe
  }

  /** What the first byte of n carries. */
  function Begun(b: byte, n: nat): int {
    b as int - if n == 1 then 0 else if n == 2 then 0xc0 else if n == 3 then 0xe0 else if n == 4 then 0xf0
      else if n == 5 then 0xf8 else 0xfc
  }

  /** Six bits each on top of what the first byte carries, the last byte the lowest. */
  ghost function Sum(first: int, s: seq<byte>): int {
    if s == [] then first else 64 * Sum(first, s[..|s| - 1]) + Carried(s[|s| - 1])
  }

  /** What decoding returns: 0 for a first byte that cannot be one, or for others that cannot
      follow; the number of bytes needed, negated, when there are too few; else that number
      and the value. */
  lemma DecodeIs(s: seq<byte>, n: nat)
    requires s != [] && Announces(s[0], n)
    ensures |s| < n ==> Decoded(s) == (0 - n, 0)
    ensures n <= |s| && !Carries(s[1..n]) ==> Decoded(s) == (0, 0)
    ensures n <= |s| && Carries(s[1..n]) ==> Decoded(s) == (n, Sum(Begun(s[0], n), s[1..n]))
  {
    hide Continued, Sum, Carries;
    assert LeadLength(s[0]) == n;
    if n <= |s| {
      if n == 1 {
        assert s[1..1] == [];
        SumNothing(s[0]);
      } else {
        assert s[0] % LeadBits(n) == Begun(s[0], n);
        ContinuedSum(s[0] % LeadBits(n), s[1..n]);
      }
    }
  }

  lemma DecodeNothing(s: seq<byte>)
    ensures s == [] ==> Decoded(s) == (-1, 0)
    ensures s != [] && (0x80 <= s[0] < 0xc0 || 0xfe <= s[0]) ==> Decoded(s) == (0, 0)
  {}

  lemma SumNothing(first: int)
    ensures Sum(first, []) == first && Carries([])
  {}

  lemma {:induction false} ContinuedSum(r: nat, s: seq<byte>)
    ensures if Carries(s) then Continued(r, s) == Some(Sum(r, s)) else Continued(r, s).None?
  {
    if s == [] {
    } else {
      hide Continued, Sum, Carries;
      var k := |s| - 1;
      ContinuedSum(r, s[..k]);
      ContinuedLast(r, s[..k], s[k]);
      assert s == s[..k] + [s[k]];
      SumLast(r, s);
    }
  }

  lemma SumLast(first: int, s: seq<byte>)
    requires s != []
    ensures var k := |s| - 1;
      && Sum(first, s) == 64 * Sum(first, s[..k]) + Carried(s[k])
      && (Carries(s) <==> Carries(s[..k]) && 0x80 <= s[k] < 0xc0)
  {
    hide Carried;
  }

  lemma {:induction false} ContinuedLast(r: nat, s: seq<byte>, b: byte)
    ensures Continued(r, s + [b]) == if Continued(r, s).None? || !(0x80 <= b < 0xc0) then None
                                     else Some(Continued(r, s).value * 64 + Carried(b))
    decreases |s|
  {
    if s == [] {
      assert s + [b] == [b] && [b][1..] == [];
    } else {
      assert (s + [b])[0] == s[0] && (s + [b])[1..] == s[1..] + [b];
      if 0x80 <= s[0] < 0xc0 { ContinuedLast(Packed(r, s[0] % 0x40), s[1..], b); }
    }
  }
}
