/**
 * A reader for the body of a JSON string, after section 7 of RFC 8259:
 * the two-character escapes, \uXXXX (with a surrogate pair standing for one
 * code point past the Basic Multilingual Plane), and unescaped UTF-8 other
 * than the quotation mark and the control characters. It is the partner of
 * dump_string: what dump_string writes for valid UTF-8 reads back as the
 * code points of its input.
 */
module JsonRead {
  import opened Wrappers
  import opened Utf8
  import opened JsonDump

  /** The value of one hexadecimal digit, in either case. */
  function HexValue(b: Byte): (r: Option<int>)
    ensures r.Some? ==> 0 <= r.value < 16
  {
    if B('0') <= b <= B('9') then Some((b - B('0')) as int)
    else if B('A') <= b <= B('F') then Some((b - B('A')) as int + 10)
    else if B('a') <= b <= B('f') then Some((b - B('a')) as int + 10)
    else None
  }

  /** The value of four hexadecimal digits. */
  function Hex4Value(t: seq<Byte>): (r: Option<int>)
    requires |t| == 4
    ensures r.Some? ==> 0 <= r.value < 0x10000
  {
    match (HexValue(t[0]), HexValue(t[1]), HexValue(t[2]), HexValue(t[3]))
    case (Some(a), Some(b), Some(c), Some(d)) => Some(a * 4096 + b * 256 + c * 16 + d)
    case _ => None
  }

  /** One character of a string body: how many bytes it takes and the code
      point it stands for. */
  datatype Token = Token(size: nat, codepoint: int)

  predicate HighSurrogate(v: int) { 0xD800 <= v < 0xDC00 }
  predicate LowSurrogate(v: int) { 0xDC00 <= v < 0xE000 }

  /** The code point of a surrogate pair. */
  function Combine(hi: int, lo: int): (c: int)
    requires HighSurrogate(hi) && LowSurrogate(lo)
    ensures 0x10000 <= c <= 0x10FFFF
  {
    0x10000 + (hi - 0xD800) * 1024 + (lo - 0xDC00)
  }

  /** An escape sequence at the start of t (t[0] is the reverse solidus). A
      lone or reversed surrogate is refused. */
  function Escaped(t: seq<Byte>): (r: Option<Token>)
    requires 1 <= |t| && t[0] == B('\\')
    ensures r.Some? ==> 2 <= r.value.size <= |t| && ScalarValue(r.value.codepoint)
  {
    if |t| < 2 then None
    else if t[1] == B('"') then Some(Token(2, '"' as int))
    else if t[1] == B('\\') then Some(Token(2, '\\' as int))
    else if t[1] == B('/') then Some(Token(2, '/' as int))
    else if t[1] == B('b') then Some(Token(2, 0x08))
    else if t[1] == B('f') then Some(Token(2, 0x0C))
    else if t[1] == B('n') then Some(Token(2, 0x0A))
    else if t[1] == B('r') then Some(Token(2, 0x0D))
    else if t[1] == B('t') then Some(Token(2, 0x09))
    else if t[1] != B('u') || |t| < 6 then None
    else
      match Hex4Value(t[2..6])
      case None => None
      case Some(v) =>
        if LowSurrogate(v) then None
        else if !HighSurrogate(v) then Some(Token(6, v))
        else if |t| < 12 || t[6] != B('\\') || t[7] != B('u') then None
        else
          match Hex4Value(t[8..12])
          case None => None
          case Some(w) => if LowSurrogate(w) then Some(Token(12, Combine(v, w))) else None
  }

  /** The first character of a non-empty string body: an escape, or a
      UTF-8 sequence that is neither the quotation mark nor a control
      character. */
  function ReadChar(t: seq<Byte>): (r: Option<Token>)
    requires 1 <= |t|
    ensures r.Some? ==> 1 <= r.value.size <= |t| && ScalarValue(r.value.codepoint)
  {
    if t[0] == B('\\') then Escaped(t)
    else
      match Iterate(t)
      case Step(k, c) => if c == '"' as int || c < 0x20 then None else Some(Token(k, c))
      case _ => None
  }

  /** The code points of a string body, or None if it is not well formed. */
  function Unescape(t: seq<Byte>): (r: Option<seq<int>>)
    ensures r.Some? ==> AllScalar(r.value)
    decreases |t|
  {
    if |t| == 0 then Some([])
    else
      match ReadChar(t)
      case None => None
      case Some(Token(k, c)) =>
        match Unescape(t[k..])
        case None => None
        case Some(cs) =>
          ConsScalar(c, cs);
          Some([c] + cs)
  }

  // ---------------------------------------------------------------------
  // Reading back what dump_string writes

  lemma HexDigitValue(d: int)
    requires 0 <= d < 16
    ensures HexValue(HexDigit(d)) == Some(d)
  {
  }

  /** %04X reads back as its value. */
  lemma Hex4Inverse(v: int)
    requires 0 <= v < 0x10000
    ensures Hex4Value(Hex4(v)) == Some(v)
  {
    var a, b, c, d := v / 4096, v / 256 % 16, v / 16 % 16, v % 16;
    HexDigitValue(a);
    HexDigitValue(b);
    HexDigitValue(c);
    HexDigitValue(d);
    assert v == 16 * (v / 16) + d;
    assert v / 16 / 16 == v / 256 && v / 256 / 16 == a;
    assert v / 16 == 16 * (v / 256) + c;
    assert v / 256 == 16 * a + b;
  }

  /** Every escape dump_string's switch can produce reads back as the
      code point it was made for, whatever follows it; this includes the
      solidus case and the surrogate pair, which the scan never reaches. */
  lemma {:induction false} EscapeTextReadsBack(c: int, rest: seq<Byte>)
    requires ScalarValue(c)
    ensures ReadChar(EscapeText(c) + rest) == Some(Token(|EscapeText(c)|, c))
  {
    var t := EscapeText(c) + rest;
    if c == '\\' as int || c == '"' as int || c == 0x08 || c == 0x0C || c == 0x0A
      || c == 0x0D || c == 0x09 || c == '/' as int {
      ShortEscape(c, rest);
    } else if c < 0x10000 {
      Hex4Inverse(c);
      assert t[2..6] == Hex4(c);
    } else {
      PairEscape(c, rest);
    }
  }

  lemma ShortEscape(c: int, rest: seq<Byte>)
    requires c == '\\' as int || c == '"' as int || c == 0x08 || c == 0x0C || c == 0x0A
      || c == 0x0D || c == 0x09 || c == '/' as int
    ensures |EscapeText(c)| == 2
    ensures ReadChar(EscapeText(c) + rest) == Some(Token(2, c))
  {
  }

  /** A code point past the Basic Multilingual Plane: the two halves are
      read and combined. */
  lemma PairEscape(c: int, rest: seq<Byte>)
    requires 0x10000 <= c <= 0x10FFFF
    ensures |EscapeText(c)| == 12
    ensures ReadChar(EscapeText(c) + rest) == Some(Token(12, c))
  {
    var v := c - 0x10000;
    var hi, lo := 0xD800 + v / 1024, 0xDC00 + v % 1024;
    assert EscapeText(c) == [B('\\'), B('u')] + Hex4(hi) + [B('\\'), B('u')] + Hex4(lo);
    ReadPair(hi, lo, rest);
    assert Combine(hi, lo) == c;
  }

  lemma ReadPair(hi: int, lo: int, rest: seq<Byte>)
    requires HighSurrogate(hi) && LowSurrogate(lo)
    ensures var t := [B('\\'), B('u')] + Hex4(hi) + [B('\\'), B('u')] + Hex4(lo) + rest;
      ReadChar(t) == Some(Token(12, Combine(hi, lo)))
  {
    var t := [B('\\'), B('u')] + Hex4(hi) + [B('\\'), B('u')] + Hex4(lo) + rest;
    Hex4Inverse(hi);
    Hex4Inverse(lo);
    assert t[2..6] == Hex4(hi) && t[8..12] == Hex4(lo);
  }

  /** An ordinary code point's own encoding reads back as itself. */
  lemma PlainReadsBack(c: int, rest: seq<Byte>)
    requires ScalarValue(c) && !Special(c)
    ensures ReadChar(Encode(c) + rest) == Some(Token(|Encode(c)|, c))
  {
    IterateEncode(c, rest);
    assert (Encode(c) + rest)[0] == Encode(c)[0];
  }

  lemma EscapeCpReadsBack(c: int, rest: seq<Byte>)
    requires ScalarValue(c)
    ensures ReadChar(EscapeCp(c) + rest) == Some(Token(|EscapeCp(c)|, c))
  {
    if Special(c) {
      EscapeTextReadsBack(c, rest);
    } else {
      PlainReadsBack(c, rest);
    }
  }

  /** Reading the escaped form of a sequence of code points gives it
      back. */
  lemma {:induction false} UnescapeEscapeAll(cs: seq<int>)
    requires AllScalar(cs)
    ensures Unescape(EscapeAll(cs)) == Some(cs)
  {
    if |cs| > 0 {
      var e, rest := EscapeCp(cs[0]), EscapeAll(cs[1..]);
      EscapeCpReadsBack(cs[0], rest);
      assert EscapeAll(cs) == e + rest;
      UnescapeEscapeAll(cs[1..]);
      UnescapeCons(e, rest, cs[0], cs[1..]);
      Uncons(cs);
    }
  }

  lemma Uncons<T>(s: seq<T>)
    requires |s| > 0
    ensures [s[0]] + s[1..] == s
  {
  }

  /** One token read off the front, and the rest read back. */
  lemma UnescapeCons(e: seq<Byte>, rest: seq<Byte>, c: int, cs: seq<int>)
    requires |e| >= 1 && ReadChar(e + rest) == Some(Token(|e|, c))
    requires Unescape(rest) == Some(cs)
    ensures Unescape(e + rest) == Some([c] + cs)
  {
    assert (e + rest)[|e|..] == rest;
  }

  /** What json_dump_string writes for valid UTF-8 is a JSON string whose
      body reads back as the input's code points. */
  lemma JsonDumpReadsBack(s: seq<Byte>)
    requires ValidUtf8(s)
    ensures var out := [B('"')] + Dump(s).out + [B('"')];
      out[0] == B('"') && out[|out| - 1] == B('"') && Unescape(out[1..|out| - 1]) == DecodeAll(s)
  {
    var out := [B('"')] + Dump(s).out + [B('"')];
    DumpValid(s);
    UnescapeEscapeAll(DecodeAll(s).value);
    assert out[1..|out| - 1] == Dump(s).out;
  }
}
