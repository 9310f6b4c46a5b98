/** Text conversions the JSON reader and writer rest on: decimal integers
    (ffbase/str-convert.h), UTF-8 and UTF-16 surrogates (ffbase/unicode.h), and
    the escaping of strings (ffbase/json-writer.h).
  */
module JsonText {
  import opened Modulo
  import opened Optional

  type byte = n: nat | n < 256

  // ---------- characters ----------

  const TAB: byte := 9
  const NEWLINE: byte := 10
  const RETURN: byte := 13
  const SPACE: byte := 32
  const QUOTE: byte := 34
  const PLUS: byte := 43
  const COMMA: byte := 44
  const MINUS: byte := 45
  const DOT: byte := 46
  const SLASH: byte := 47
  const ZERO: byte := 48
  const COLON: byte := 58
  const LBRACKET: byte := 91
  const BACKSLASH: byte := 92
  const RBRACKET: byte := 93
  const LBRACE: byte := 123
  const RBRACE: byte := 125
  const STAR: byte := 42
  const DELETE: byte := 127

  /** `true`, `false`, `null` */
  const TRUE: seq<byte> := [116, 114, 117, 101]
  const FALSE: seq<byte> := [102, 97, 108, 115, 101]
  const NULL: seq<byte> := [110, 117, 108, 108]

  predicate IsSpace(ch: byte) { ch == SPACE || ch == TAB || ch == RETURN || ch == NEWLINE }

  predicate IsDigit(ch: byte) { 48 <= ch <= 57 }

  // ---------- decimal integers ----------

  const TWO63: int := 0x8000_0000_0000_0000
  const TWO64: int := 0x1_0000_0000_0000_0000

  /** The number written by decimal digits. */
  ghost function Value(s: seq<byte>): nat
    requires forall i :: 0 <= i < |s| ==> IsDigit(s[i])
  { if s == [] then 0 else assert IsDigit(s[|s| - 1]); 10 * Value(s[..|s| - 1]) + (s[|s| - 1] - 48) }

  /** How many digits a text starts with. */
  ghost function DigitCount(s: seq<byte>): (n: nat)
    ensures n <= |s| && (forall i :: 0 <= i < n ==> IsDigit(s[i])) && (n < |s| ==> !IsDigit(s[n]))
  { if s == [] || !IsDigit(s[0]) then 0 else 1 + DigitCount(s[1..]) }

  /** The signed reading of a 64-bit word. */
  function AsInt64(r: nat): (i: int)
    requires r < TWO64
    ensures -TWO63 <= i < TWO63
  { if r < TWO63 then r else r - TWO64 }

  /** What a conversion used up (0: it failed) and the value it stored. */
  datatype Converted = Converted(used: nat, val: int)

  /** `ffs_toint` with `FFS_INT64 | FFS_INTSIGN`. */
  ghost function ToInt(s: seq<byte>): Converted {
    var sign := if s != [] && (s[0] == MINUS || s[0] == PLUS) then 1 else 0;
    var n := DigitCount(s[sign..]);
    var r := Value(s[sign..][..n]);
    if n == 0 || r >= TWO64 then Converted(0, 0)
    else Converted(sign + n, AsInt64(if s[0] == MINUS then (TWO64 - r) % TWO64 else r))
  }

  lemma {:induction false} ValueGrows(s: seq<byte>, i: nat)
    requires i <= |s| && forall k :: 0 <= k < |s| ==> IsDigit(s[k])
    ensures Value(s[..i]) <= Value(s)
  {
    if i < |s| {
      assert s[..|s| - 1][..i] == s[..i];
      ValueGrows(s[..|s| - 1], i);
    } else {
      assert s[..i] == s;
    }
  }

  lemma {:induction false} CountIs(s: seq<byte>, n: nat)
    requires n <= |s| && (forall i :: 0 <= i < n ==> IsDigit(s[i])) && (n < |s| ==> !IsDigit(s[n]))
    ensures DigitCount(s) == n
  {
    if n == 0 {
    } else {
      CountIs(s[1..], n - 1);
    }
  }

  lemma NoDigits()
    ensures Value([]) == 0 && DigitCount([]) == 0
  {}

  lemma NextDigit(s: seq<byte>, i: nat)
    requires i < |s| && forall k :: 0 <= k <= i ==> IsDigit(s[k])
    ensures i < DigitCount(s)
    ensures Value(s[..i + 1]) == 10 * Value(s[..i]) + s[i] - 48 <= Value(s[..DigitCount(s)])
  {
    var n := DigitCount(s);
    assert i < n;
    assert s[..i + 1][..i] == s[..i];
    assert s[..n][..i + 1] == s[..i + 1];
    ValueGrows(s[..n], i + 1);
  }

  /** `ffs_toint`, the loop: digit by digit, giving up on a 64-bit overflow. */
  method ToInt64(s: seq<byte>) returns (used: nat, val: int)
    ensures Converted(used, val) == ToInt(s)
  {
    hide Value, DigitCount;
    used, val := 0, 0;
    NoDigits();
    if |s| == 0 {
      return;
    }
    var minus := s[0] == MINUS;
    var sign := if s[0] == MINUS || s[0] == PLUS then 1 else 0;
    var rest := s[sign..];
    var r, i := 0, 0;
    while i != |rest| && IsDigit(rest[i])
      invariant 0 <= i <= |rest| && r < TWO64
      invariant forall k :: 0 <= k < i ==> IsDigit(rest[k])
      invariant r == Value(rest[..i])
    {
      NextDigit(rest, i);
      if r * 10 >= TWO64 {
        return;
      }
      r := r * 10;
      if r + (rest[i] - 48) >= TWO64 {
        return;
      }
      r := r + (rest[i] - 48);
      i := i + 1;
    }
    CountIs(rest, i);
    if i == 0 {
      return;
    }
    used := sign + i;
    val := AsInt64(if minus then (TWO64 - r) % TWO64 else r);
  }

  /** Decimal digits of a number. */
  function Digits(n: nat): (s: seq<byte>)
    ensures |s| > 0 && forall i :: 0 <= i < |s| ==> IsDigit(s[i])
  { if n < 10 then [48 + n] else Digits(n / 10) + [48 + n % 10] }

  /** `ffs_fromint` with `FFS_INTSIGN`, as text. */
  function Decimal(i: int): seq<byte> {
    if i < 0 then [MINUS] + Digits(-i) else Digits(i)
  }

  lemma {:induction false} DigitsValue(n: nat)
    ensures Value(Digits(n)) == n
  {
    if n < 10 {
    } else {
      DigitsValue(n / 10);
      assert Digits(n)[..|Digits(n)| - 1] == Digits(n / 10);
    }
  }

  /** The k-th digit from the right. */
  lemma {:induction false} DigitAt(n: nat, k: nat)
    requires k < |Digits(n)|
    ensures Digits(n)[|Digits(n)| - 1 - k] == 48 + n / Pow10(k) % 10
  {
    if k == 0 {
      assert Pow10(0) == 1;
    } else {
      DigitAt(n / 10, k - 1);
      Tenths(n, Pow10(k - 1));
    }
  }

  lemma Tenths(n: nat, p: nat)
    requires p > 0
    ensures n / 10 / p == n / (10 * p)
  {
    var q := n / 10;
    var d, r := q / p, q % p;
    Quotient(p, q);
    Regroup(10, p, d);
    Remainder(n, 10 * p, d, 10 * r + n % 10);
  }

  ghost function Pow10(n: nat): (p: nat)
    ensures p > 0
  { if n == 0 then 1 else 10 * Pow10(n - 1) }

  lemma {:induction false} DigitsLength(n: nat, k: nat)
    requires k > 0 && n < Pow10(k)
    ensures |Digits(n)| <= k
  {
    if n < 10 {
    } else {
      assert Pow10(1) == 10;
      DigitsLength(n / 10, k - 1);
    }
  }

  lemma IntLength(i: int)
    requires -TWO64 < i < TWO64
    ensures 1 <= |Decimal(i)| <= 21
  {
    var n := if i < 0 then -i else i;
    assert Pow10(5) == 100000;
    assert Pow10(10) == 100000 * Pow10(5);
    assert Pow10(15) == 100000 * Pow10(10);
    assert Pow10(20) == 100000 * Pow10(15);
    DigitsLength(n, 20);
  }

  /** Reading a printed integer gives it back. */
  lemma IntRoundTrip(i: int)
    requires -TWO63 <= i < TWO63
    ensures ToInt(Decimal(i)) == Converted(|Decimal(i)|, i)
  {
    hide Value, DigitCount, AsInt64;
    var s := Decimal(i);
    var n: nat := if i < 0 then -i else i;
    var d := Digits(n);
    DigitsValue(n);
    CountIs(d, |d|);
    assert d[..|d|] == d;
    if i < 0 { assert s[1..] == d; } else { assert IsDigit(d[0]) && s[0..] == d; }
    Negated(n);
  }

  lemma Negated(n: nat)
    requires n <= TWO63
    ensures n < TWO63 ==> AsInt64(n) == n
    ensures AsInt64((TWO64 - n) % TWO64) == 0 - n
  {}

  /** Of a text that starts with a sign or not and n digits, the whole of which it has no
      more: it is converted if and only if there is a digit and their value is below 2^64;
      then sign and digits are used up, and the value is right modulo 2^64, and so right
      exactly when it fits a signed 64-bit word. */
  lemma IntReported(s: seq<byte>, sign: nat, n: nat)
    requires sign <= 1 && sign + n <= |s| && (sign == 1 <==> s != [] && s[0] in [43, 45])
    requires forall i :: sign <= i < sign + n ==> 48 <= s[i] <= 57
    requires sign + n < |s| ==> !(48 <= s[sign + n] <= 57)
    ensures var digits := s[sign..sign + n];
      forall i :: 0 <= i < |digits| ==> IsDigit(digits[i])
    ensures var abs := Value(s[sign..sign + n]);
      if n == 0 || abs >= 0x1_0000_0000_0000_0000 then ToInt(s).used == 0
      else
        var v, r := if s[0] == 45 then 0 - abs else abs, ToInt(s).val;
        && ToInt(s).used == sign + n && -0x8000_0000_0000_0000 <= r < 0x8000_0000_0000_0000
        && (r == v || r == v - 0x1_0000_0000_0000_0000 || r == v + 0x1_0000_0000_0000_0000)
        && (r == v <==> -0x8000_0000_0000_0000 <= v < 0x8000_0000_0000_0000)
  {
    hide ToInt, Value, AsInt64, DigitCount;
    var rest := s[sign..];
    assert rest[..n] == s[sign..sign + n];
    CountIs(rest, n);
    IntParts(s, sign);
    var r := Value(rest[..n]);
    if r < TWO64 { Wrapped(r); }
  }

  lemma IntParts(s: seq<byte>, sign: nat)
    requires sign == if s != [] && (s[0] == MINUS || s[0] == PLUS) then 1 else 0
    ensures var n := DigitCount(s[sign..]); var r := Value(s[sign..][..n]);
      ToInt(s) == if n == 0 || r >= TWO64 then Converted(0, 0)
                  else Converted(sign + n, AsInt64(if s[0] == MINUS then (TWO64 - r) % TWO64 else r))
  {
    hide Value, AsInt64, DigitCount;
  }

  lemma Wrapped(r: nat)
    requires r < TWO64
    ensures AsInt64(r) == if r < TWO63 then r else r - TWO64
    ensures AsInt64((TWO64 - r) % TWO64) == if r <= TWO63 then 0 - r else TWO64 - r
  {}

  /** `ffs_fromint`, the loop: digits from the last to the first, then the sign. */
  method FromInt64(i: int) returns (s: seq<byte>)
    requires -TWO64 < i < TWO64
    ensures s == Decimal(i)
  {
    var buf := new byte[32];
    var k := 32;
    var n: nat := if i < 0 then -i else i;
    ghost var all: nat := n;
    IntLength(all);
    var more := true;
    while more
      invariant 0 <= k <= 32
      invariant more ==> |Digits(n)| + 32 - k <= 21 && Digits(all) == Digits(n) + buf[k..]
      invariant !more ==> Digits(all) == buf[k..]
      decreases more, n
    {
      k := k - 1;
      buf[k] := 48 + n % 10;
      assert buf[k..] == [48 + n % 10] + buf[k + 1..];
      more := n / 10 != 0;
      n := n / 10;
    }
    s := if i < 0 then [MINUS] + buf[k..] else buf[k..];
  }

  // ---------- UTF-8 and UTF-16 ----------

  /** `ffutf8_encode` for 31-bit numbers. */
  function Utf8(u: nat): (s: seq<byte>)
    requires u < 0x8000_0000
    ensures 1 <= |s| <= 6 && (u < 0x11_0000 ==> |s| <= 4)
  {
    if u < 0x80 then [u]
    else if u < 0x800 then [0xc0 + u / 0x40, Six(u)]
    else if u < 0x1_0000 then [0xe0 + u / 0x1000, Six(u / 0x40), Six(u)]
    else if u < 0x20_0000 then [0xf0 + u / 0x4_0000, Six(u / 0x1000), Six(u / 0x40), Six(u)]
    else if u < 0x400_0000 then
      [0xf8 + u / 0x100_0000, Six(u / 0x4_0000), Six(u / 0x1000), Six(u / 0x40), Six(u)]
    else
      [0xfc + u / 0x4000_0000, Six(u / 0x100_0000), Six(u / 0x4_0000), Six(u / 0x1000), Six(u / 0x40), Six(u)]
  }

  /** `0x80 | (u & 0x3f)` */
  function Six(u: nat): (b: byte)
    ensures 0x80 <= b < 0xc0 && b % 0x40 == u % 0x40
  { 0x80 + u % 0x40 }

  /** How many bytes the first byte announces, 0 if it announces none. */
  function LeadLength(d: byte): nat {
    if d < 0x80 then 1 else if d < 0xc0 then 0 else if d < 0xe0 then 2 else if d < 0xf0 then 3
    else if d < 0xf8 then 4 else if d < 0xfc then 5 else if d < 0xfe then 6 else 0
  }

  /** `b1_mask`, as a modulus. */
  function LeadBits(n: nat): nat
    requires 2 <= n <= 6
  { if n == 2 then 32 else if n == 3 then 16 else if n == 4 then 8 else if n == 5 then 4 else 2 }

  /** `(r << 6) | bits` */
  function Packed(r: nat, bits: nat): nat { r * 0x40 + bits }

  /** The bytes that follow the first one, on top of the value so far; None if one is bad. */
  ghost function Continued(r: nat, s: seq<byte>): Option<nat>
    decreases |s|
  {
    if s == [] then Some(r)
    else if 0x80 <= s[0] < 0xc0 then Continued(Packed(r, s[0] % 0x40), s[1..]) else None
  }

  /** What decoding returns: bytes used, or 0 for bad ones, or how many are needed, negated. */
  ghost function Decoded(s: seq<byte>): (int, nat) {
    if s == [] then (-1, 0)
    else if s[0] < 0x80 then (1, s[0])
    else
      var n := LeadLength(s[0]);
      if n == 0 then (0, 0)
      else if |s| < n then (-(n as int), 0)
      else
        var r := Continued(s[0] % LeadBits(n), s[1..n]);
        if r.None? then (0, 0) else (n, r.value)
  }

  /** `ffutf8_decode` */
  method DecodeUtf8(s: seq<byte>) returns (used: int, val: nat)
    ensures (used, val) == Decoded(s)
  {
    val := 0;
    if |s| == 0 {
      return -1, val;
    }
    if s[0] < 0x80 {
      return 1, s[0];
    }
    var n := LeadLength(s[0]);
    if n == 0 {
      return 0, val;
    }
    if |s| < n {
      return -(n as int), val;
    }
    var r: nat := s[0] % LeadBits(n);
    var i := 1;
    while i != n
      invariant 1 <= i <= n
      invariant Continued(r, s[i..n]) == Continued(s[0] % LeadBits(n), s[1..n])
    {
      assert s[i..n][1..] == s[i + 1..n];
      if !(0x80 <= s[i] < 0xc0) {
        return 0, val;
      }
      r := Packed(r, s[i] % 0x40);
      i := i + 1;
    }
    return n, r;
  }

  /** Decoding undoes encoding, whatever follows. */
  lemma Utf8RoundTrip(u: nat, rest: seq<byte>)
    requires u < 0x8000_0000
    ensures Decoded(Utf8(u) + rest) == (|Utf8(u)|, u)
  {
    hide Continued, Utf8;
    var s := Utf8(u);
    var t := s + rest;
    assert t[0] == s[0];
    Encoded(u);
    if |s| > 1 { assert t[1..|s|] == s[1..]; }
  }

  /** The first byte and those that follow it. */
  lemma Encoded(u: nat)
    requires u < 0x8000_0000
    ensures var s := Utf8(u); var n := |s|;
      && LeadLength(s[0]) == n && (n == 1 ==> s[0] == u)
      && (n > 1 ==> Continued(s[0] % LeadBits(n), s[1..]) == Some(u))
  {
    hide Continued, Packed, Six, Sixes, Shifted6;
    var n := |Utf8(u)|;
    if n > 1 {
      Together(u, n - 1);
      Leading(u);
      Following(u);
    }
  }

  lemma Leading(u: nat)
    requires 0x80 <= u < 0x8000_0000
    ensures var s := Utf8(u); s[0] % LeadBits(|s|) == Shifted6(u, |s| - 1)
  {
    hide Six, Shifted6;
    Shifts(u);
    Leads(u / 0x40, 32, 0xc0);
    Leads(u / 0x1000, 16, 0xe0);
    Leads(u / 0x4_0000, 8, 0xf0);
    Leads(u / 0x100_0000, 4, 0xf8);
    Leads(u / 0x4000_0000, 2, 0xfc);
  }

  lemma Following(u: nat)
    requires 0x80 <= u < 0x8000_0000
    ensures Utf8(u)[1..] == Sixes(u, |Utf8(u)| - 1)
  {
    hide Six, Sixes;
    Sixes1(u);
    Sixes2(u);
    Sixes3(u);
    Sixes4(u);
    Sixes5(u);
  }

  lemma Leads(x: nat, m: nat, lead: nat)
    requires (m == 32 && lead == 0xc0) || (m == 16 && lead == 0xe0) || (m == 8 && lead == 0xf0)
      || (m == 4 && lead == 0xf8) || (m == 2 && lead == 0xfc)
    ensures x < m ==> (lead + x) % m == x
  {}

  /** What is left of u without its last k times six bits. */
  function Shifted6(u: nat, k: nat): nat { if k == 0 then u else Shifted6(u / 0x40, k - 1) }

  /** The last k times six bits of u. */
  function Sixes(u: nat, k: nat): seq<byte> { if k == 0 then [] else Sixes(u / 0x40, k - 1) + [Six(u)] }

  lemma Quotients(u: nat)
    ensures u / 0x40 / 0x40 == u / 0x1000 && u / 0x1000 / 0x40 == u / 0x4_0000
    ensures u / 0x4_0000 / 0x40 == u / 0x100_0000 && u / 0x100_0000 / 0x40 == u / 0x4000_0000
  {}

  lemma Next6(u: nat, k: nat)
    requires k > 0
    ensures Shifted6(u, k) == Shifted6(u / 0x40, k - 1) && Sixes(u, k) == Sixes(u / 0x40, k - 1) + [Six(u)]
    ensures Shifted6(u, 0) == u && Sixes(u, 0) == []
  {}

  lemma Shifts(u: nat)
    ensures Shifted6(u, 1) == u / 0x40 && Shifted6(u, 2) == u / 0x1000 && Shifted6(u, 3) == u / 0x4_0000
    ensures Shifted6(u, 4) == u / 0x100_0000 && Shifted6(u, 5) == u / 0x4000_0000
  {
    hide *;
    Quotients(u);
    var a, b, c, d := u / 0x40, u / 0x1000, u / 0x4_0000, u / 0x100_0000;
    Next6(u, 1); Next6(u, 2); Next6(u, 3); Next6(u, 4); Next6(u, 5);
    Next6(a, 1); Next6(a, 2); Next6(a, 3); Next6(a, 4);
    Next6(b, 1); Next6(b, 2); Next6(b, 3);
    Next6(c, 1); Next6(c, 2);
    Next6(d, 1);
  }

  lemma Sixes1(u: nat)
    ensures Sixes(u, 1) == [Six(u)]
  {
    assert Sixes(u / 0x40, 0) == [];
  }

  lemma Sixes2(u: nat)
    ensures Sixes(u, 2) == [Six(u / 0x40), Six(u)]
  {
    hide *;
    Sixes1(u / 0x40);
    Next6(u, 2);
  }

  lemma Sixes3(u: nat)
    ensures Sixes(u, 3) == [Six(u / 0x1000), Six(u / 0x40), Six(u)]
  {
    hide *;
    Quotients(u);
    Sixes2(u / 0x40);
    Next6(u, 3);
  }

  lemma Sixes4(u: nat)
    ensures Sixes(u, 4) == [Six(u / 0x4_0000), Six(u / 0x1000), Six(u / 0x40), Six(u)]
  {
    hide *;
    Quotients(u);
    Quotients(u / 0x40);
    Sixes3(u / 0x40);
    Next6(u, 4);
  }

  lemma Sixes5(u: nat)
    ensures Sixes(u, 5) == [Six(u / 0x100_0000), Six(u / 0x4_0000), Six(u / 0x1000), Six(u / 0x40), Six(u)]
  {
    hide *;
    Quotients(u);
    Quotients(u / 0x40);
    Sixes4(u / 0x40);
    Next6(u, 5);
  }

  /** The bytes that follow put together again what they were taken from. */
  lemma {:induction false} Together(u: nat, k: nat)
    ensures Continued(Shifted6(u, k), Sixes(u, k)) == Some(u)
  {
    if k == 0 {
    } else {
      hide Packed, Six;
      Together(u / 0x40, k - 1);
      ContinuedMore(Shifted6(u, k), Sixes(u / 0x40, k - 1), Six(u));
      SixBits(u);
    }
  }

  lemma SixBits(u: nat)
    ensures Packed(u / 0x40, u % 0x40) == u
  {}

  lemma {:induction false} ContinuedMore(r: nat, s: seq<byte>, b: byte)
    requires Continued(r, s).Some? && 0x80 <= b < 0xc0
    ensures Continued(r, s + [b]) == Some(Packed(Continued(r, s).value, b % 0x40))
    decreases |s|
  {
    if s == [] {
      assert s + [b] == [b] && [b][1..] == [];
    } else {
      assert (s + [b])[0] == s[0] && (s + [b])[1..] == s[1..] + [b];
      ContinuedMore(Packed(r, s[0] % 0x40), s[1..], b);
    }
  }

  predicate Basic(u: int) { !(0xd800 <= u < 0xe000) }
  predicate HighSurrogate(u: int) { 0xd800 <= u < 0xdc00 }
  predicate LowSurrogate(u: int) { 0xdc00 <= u < 0xe000 }

  /** `ffutf16_suppl` */
  function Supplementary(hi: nat, lo: nat): (u: nat)
    requires HighSurrogate(hi) && LowSurrogate(lo)
    ensures 0x1_0000 <= u < 0x11_0000
    ensures hi == 0xd800 + (u - 0x1_0000) / 0x400 && lo == 0xdc00 + (u - 0x1_0000) % 0x400
  { 0x1_0000 + (hi - 0xd800) * 0x400 + (lo - 0xdc00) }

  /** `ffchar_tohex`; the characters before `A` and `a` pass for 9. */
  function HexValue(ch: byte): (n: int)
    ensures -1 <= n < 16
  {
    if 48 <= ch <= 57 then ch - 48
    else if 64 <= ch <= 70 then ch - 55
    else if 96 <= ch <= 102 then ch - 87
    else -1
  }

  /** `ffHEX` */
  function HexDigit(n: nat): (ch: byte)
    requires n < 16
    ensures HexValue(ch) == n && ch != BACKSLASH
  { if n < 10 then 48 + n else 55 + n }

  /** The 16-bit number of four hexadecimal characters, or -1. */
  function HexWord(s: seq<byte>): (n: int)
    requires |s| == 4
    ensures -1 <= n < 0x1_0000
  {
    var a, b, c, d := HexValue(s[0]), HexValue(s[1]), HexValue(s[2]), HexValue(s[3]);
    if a < 0 || b < 0 || c < 0 || d < 0 then -1 else ((a * 16 + b) * 16 + c) * 16 + d
  }

  // ---------- escaping ----------

  /** `json_esc_byte` for a character of `json_esc_char`, -1 for others. */
  function Unescaped(ch: byte): (n: int)
    ensures -1 <= n < 128
  {
    if ch == QUOTE || ch == BACKSLASH || ch == SLASH then ch
    else if ch == 98 then 8         // b
    else if ch == 102 then 12       // f
    else if ch == 114 then RETURN   // r
    else if ch == 110 then NEWLINE  // n
    else if ch == 116 then TAB      // t
    else -1
  }

  /** `json_esc_btoch`: 0 for a byte written as it is, 1 for one written as `\u00XX`,
      else the character written after a backslash. */
  function EscapeClass(b: byte): byte {
    if b == 8 then 98 else if b == TAB then 116 else if b == NEWLINE then 110
    else if b == 12 then 102 else if b == RETURN then 114
    else if b < 32 || b == DELETE then 1
    else if b == QUOTE || b == BACKSLASH then b
    else 0
  }

  function EscapedByte(b: byte): (s: seq<byte>)
    ensures 1 <= |s| <= 6
  {
    var k := EscapeClass(b);
    if k == 0 then [b]
    else if k == 1 then [BACKSLASH, 117, ZERO, ZERO, HexDigit(b / 16), HexDigit(b % 16)]
    else [BACKSLASH, k]
  }

  function Escaped(s: seq<byte>): seq<byte> {
    if s == [] then [] else Escaped(s[..|s| - 1]) + EscapedByte(s[|s| - 1])
  }

  lemma {:induction false} EscapedGrows(s: seq<byte>, i: nat)
    requires i <= |s|
    ensures |Escaped(s[..i])| <= |Escaped(s)|
  {
    if i == |s| {
      assert s[..i] == s;
    } else {
      assert s[..|s| - 1][..i] == s[..i];
      EscapedGrows(s[..|s| - 1], i);
    }
  }

  lemma EscapedNone()
    ensures Escaped([]) == []
  {}

  lemma EscapedNext(s: seq<byte>, i: nat)
    requires i < |s|
    ensures Escaped(s[..i + 1]) == Escaped(s[..i]) + EscapedByte(s[i])
    ensures |Escaped(s[..i + 1])| <= |Escaped(s)|
  {
    assert s[..i + 1][..i] == s[..i];
    EscapedGrows(s, i + 1);
  }

  /** `ffjson_escape` with no destination: the room needed. */
  method EscapeSize(s: seq<byte>) returns (n: nat)
    ensures n == |Escaped(s)|
  {
    n := 0;
    var i := 0;
    while i < |s|
      invariant 0 <= i <= |s| && n == |Escaped(s[..i])|
    {
      assert s[..i + 1][..i] == s[..i];
      var ch := EscapeClass(s[i]);
      if ch == 0 { n := n + 1; } else if ch == 1 { n := n + 6; } else { n := n + 2; }
      i := i + 1;
    }
    assert s[..|s|] == s;
  }

  /** Where the escaped text first goes beyond the room. */
  ghost predicate CutAt(s: seq<byte>, room: nat, i: nat) {
    i < |s| && |Escaped(s[..i])| <= room < |Escaped(s[..i + 1])|
  }

  /** `ffjson_escape` into `room` bytes: the escaped text when it fits.  Else nothing, unless
      the first byte too many is one that needs no escape: such a byte is stored without
      looking at the room (`overrun`). */
  method Escape(s: seq<byte>, room: nat) returns (dst: seq<byte>, overrun: bool)
    ensures |Escaped(s)| <= room ==> !overrun && dst == Escaped(s)
    ensures overrun <==> exists i: nat :: CutAt(s, room, i) && EscapeClass(s[i]) == 0
    ensures |Escaped(s)| > room && !overrun ==> dst == []
  {
    hide Escaped, EscapeClass;
    dst := [];
    EscapedNone();
    assert s[..0] == [];
    var i := 0;
    while i < |s|
      invariant 0 <= i <= |s| && dst == Escaped(s[..i]) && |dst| <= room
    {
      EscapedNext(s, i);
      var b := s[i];
      var ch := EscapeClass(b);
      EscapedByteIs(b);
      if ch == 0 {
        if |dst| == room {
          CutIs(s, room, i);
          return dst, true;
        }
        dst := dst + [b];
      } else if ch == 1 {
        if |dst| + 6 > room {
          CutIs(s, room, i);
          return [], false;
        }
        dst := dst + [BACKSLASH] + [117] + [ZERO] + [ZERO] + [HexDigit(b / 16)] + [HexDigit(b % 16)];
        assert dst == Escaped(s[..i]) + EscapedByte(b);
      } else {
        if |dst| + 2 > room {
          CutIs(s, room, i);
          return [], false;
        }
        dst := dst + [BACKSLASH] + [ch];
        assert dst == Escaped(s[..i]) + EscapedByte(b);
      }
      i := i + 1;
    }
    assert s[..|s|] == s;
    NoCut(s, room);
    overrun := false;
  }

  lemma EscapedByteIs(b: byte)
    ensures EscapeClass(b) == 0 ==> EscapedByte(b) == [b]
    ensures EscapeClass(b) == 1 ==> |EscapedByte(b)| == 6
    ensures EscapeClass(b) > 1 ==> EscapedByte(b) == [BACKSLASH, EscapeClass(b)]
  {}

  /** There is only one such place. */
  lemma CutIs(s: seq<byte>, room: nat, i: nat)
    requires CutAt(s, room, i)
    ensures |Escaped(s)| > room && forall k: nat :: CutAt(s, room, k) ==> k == i
  {
    hide Escaped;
    EscapedGrows(s, i + 1);
    forall k: nat | CutAt(s, room, k) ensures k == i {
      if k < i {
        assert s[..i][..k + 1] == s[..k + 1];
        EscapedGrows(s[..i], k + 1);
      } else if i < k {
        assert s[..k][..i + 1] == s[..i + 1];
        EscapedGrows(s[..k], i + 1);
      }
    }
  }

  lemma NoCut(s: seq<byte>, room: nat)
    requires |Escaped(s)| <= room
    ensures forall k: nat :: !CutAt(s, room, k)
  {
    hide Escaped;
    forall k: nat | CutAt(s, room, k) ensures false { EscapedGrows(s, k + 1); }
  }
}
