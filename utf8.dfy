/**
 * The UTF-8 decoder of src/util.c (utf8_check_first, utf8_check_full and
 * utf8_iterate, taken from Jansson), checked against the encoding of
 * section 3 of RFC 3629: a byte sequence is accepted exactly when it is the
 * encoding of one Unicode scalar value, and that value is what is reported.
 *
 * Bytes are the unsigned values 0..255; the masks of the C (`u & 0x1F`,
 * `u & 0x3F`, ...) are the remainders modulo the matching power of two, and
 * `value << 6` is `value * 64` (the value never exceeds 21 bits, so the
 * int32 in the C cannot overflow).
 */
module Utf8 {
  import opened Wrappers

  newtype Byte = b: int | 0 <= b < 256

  // ---------------------------------------------------------------------
  // The encoding (RFC 3629, section 3)

  /** Code points that UTF-8 may encode: 0..0x10FFFF without the UTF-16
      surrogate halves. */
  predicate ScalarValue(c: int)
  {
    0 <= c <= 0x10FFFF && !(0xD800 <= c <= 0xDFFF)
  }

  /** The shortest UTF-8 form of a scalar value. */
  function Encode(c: int): (r: seq<Byte>)
    requires ScalarValue(c)
    ensures 1 <= |r| <= 4
  {
    if c < 0x80 then [c as Byte]
    else if c < 0x800 then [(0xC0 + c / 64) as Byte, (0x80 + c % 64) as Byte]
    else if c < 0x10000 then
      [(0xE0 + c / 4096) as Byte, (0x80 + (c / 64) % 64) as Byte, (0x80 + c % 64) as Byte]
    else
      [(0xF0 + c / 262144) as Byte, (0x80 + (c / 4096) % 64) as Byte,
       (0x80 + (c / 64) % 64) as Byte, (0x80 + c % 64) as Byte]
  }

  /** The concatenated encodings of a sequence of scalar values. */
  predicate AllScalar(cs: seq<int>)
  {
    forall i :: 0 <= i < |cs| ==> ScalarValue(cs[i])
  }

  /** The encoding of a code point from U+0020 on holds no byte below
      0x20: the bytes of a longer encoding are all at least 0x80. */
  lemma EncodeAboveControls(c: int)
    requires ScalarValue(c) && c >= 0x20
    ensures forall i :: 0 <= i < |Encode(c)| ==> Encode(c)[i] >= 0x20
  {
  }

  function EncodeAll(cs: seq<int>): (r: seq<Byte>)
    requires AllScalar(cs)
  {
    if |cs| == 0 then [] else Encode(cs[0]) + EncodeAll(cs[1..])
  }

  // ---------------------------------------------------------------------
  // utf8_check_first

  /** utf8_check_first: how many bytes the sequence a lead byte starts
      has, or 0 for a byte that cannot start one (a continuation byte, the
      overlong leads 0xC0 and 0xC1, and 0xF5 upwards). */
  function CheckFirst(u: Byte): (count: nat)
    ensures count <= 4
  {
    if u < 0x80 then 1
    else if 0x80 <= u <= 0xBF then 0
    else if u == 0xC0 || u == 0xC1 then 0
    else if 0xC2 <= u <= 0xDF then 2
    else if 0xE0 <= u <= 0xEF then 3
    else if 0xF0 <= u <= 0xF4 then 4
    else 0
  }

  /** The first byte of every encoding is accepted and announces the
      encoding's length. */
  lemma CheckFirstOfEncode(c: int)
    requires ScalarValue(c)
    ensures CheckFirst(Encode(c)[0]) == |Encode(c)|
  {
    if c >= 0x10000 {
      assert c / 262144 <= 4;
    }
  }

  /** Conversely, every accepted byte begins the encoding of some scalar
      value with the announced length. */
  lemma CheckFirstExact(u: Byte)
    requires CheckFirst(u) != 0
    ensures exists c :: ScalarValue(c) && Encode(c)[0] == u && |Encode(c)| == CheckFirst(u)
  {
    var c: int;
    if u < 0x80 {
      c := u as int;
    } else if u <= 0xDF {
      c := (u as int - 0xC0) * 64;
    } else if u == 0xE0 {
      c := 0x800;
    } else if u <= 0xEF {
      c := (u as int - 0xE0) * 4096;
    } else if u == 0xF0 {
      c := 0x10000;
    } else {
      c := (u as int - 0xF0) * 262144;
    }
    assert ScalarValue(c) && Encode(c)[0] == u && |Encode(c)| == CheckFirst(u);
  }

  // ---------------------------------------------------------------------
  // utf8_check_full

  /** The payload bits of a lead byte for a sequence of `size` bytes. */
  function Lead(u: Byte, size: nat): int
  {
    if size == 2 then u as int % 32 else if size == 3 then u as int % 16 else u as int % 8
  }

  /** The accumulation loop of utf8_check_full: each continuation byte
      shifts in six bits; any other byte fails. */
  function Accumulate(v: int, tail: seq<Byte>): (r: Option<int>)
    ensures v >= 0 && r.Some? ==> r.value >= 0
    decreases |tail|
  {
    if |tail| == 0 then Some(v)
    else if tail[0] < 0x80 || tail[0] > 0xBF then None
    else Accumulate(v * 64 + tail[0] as int % 64, tail[1..])
  }

  predicate Overlong(size: nat, v: int)
  {
    (size == 2 && v < 0x80) || (size == 3 && v < 0x800) || (size == 4 && v < 0x10000)
  }

  /** What utf8_check_full decides for the first `size` bytes: the code
      point, or None for a size other than 2, 3 or 4, a bad continuation
      byte, a value past 0x10FFFF, a surrogate half or an overlong form. */
  function Full(buf: seq<Byte>, size: nat): Option<int>
    requires 1 <= |buf| && size <= |buf|
  {
    if size < 2 || size > 4 then None
    else
      match Accumulate(Lead(buf[0], size), buf[1..size])
      case None => None
      case Some(v) =>
        if v > 0x10FFFF then None
        else if 0xD800 <= v <= 0xDFFF then None
        else if Overlong(size, v) then None
        else Some(v)
  }

  /** utf8_check_full: ok is 1 exactly when Full accepts, and the code
      point is then the value Full decodes. (The C leaves its out-parameter
      alone on failure; here it is 0.) */
  method CheckFull(buf: seq<Byte>, size: nat) returns (ok: bool, codepoint: int)
    requires 1 <= |buf| && size <= |buf|
    ensures ok <==> Full(buf, size).Some?
    ensures ok ==> codepoint == Full(buf, size).value
  {
    var value := 0;
    var u := buf[0];
    if size == 2 {
      value := u as int % 32;
    } else if size == 3 {
      value := u as int % 16;
    } else if size == 4 {
      value := u as int % 8;
    } else {
      return false, 0;
    }
    var i := 1;
    while i < size
      invariant 1 <= i <= size
      invariant Accumulate(value, buf[i..size]) == Accumulate(Lead(buf[0], size), buf[1..size])
    {
      u := buf[i];
      if u < 0x80 || u > 0xBF {
        return false, 0;
      }
      value := value * 64 + u as int % 64;
      assert buf[i..size][1..] == buf[i + 1..size];
      i := i + 1;
    }
    if value > 0x10FFFF {
      return false, 0;
    } else if 0xD800 <= value <= 0xDFFF {
      return false, 0;
    } else if (size == 2 && value < 0x80) || (size == 3 && value < 0x800) || (size == 4 && value < 0x10000) {
      return false, 0;
    }
    return true, value;
  }

  // ---------------------------------------------------------------------
  // utf8_iterate

  /** What utf8_iterate returns: the same pointer on an empty buffer
      (End), NULL (Invalid), or the pointer advanced by `count` bytes with
      the code point read. */
  datatype Next = End | Invalid | Step(count: nat, codepoint: int)

  /** utf8_iterate. */
  function Iterate(buf: seq<Byte>): (r: Next)
    ensures r.End? <==> |buf| == 0
    ensures r.Step? ==> 1 <= r.count <= |buf| && ScalarValue(r.codepoint)
  {
    if |buf| == 0 then End
    else
      var count := CheckFirst(buf[0]);
      if count == 0 then Invalid
      else if count == 1 then Step(1, buf[0] as int)
      else if count > |buf| then Invalid
      else
        match Full(buf, count)
        case None => Invalid
        case Some(v) => Step(count, v)
  }

  /** Decoding an encoding reads back its scalar value and consumes
      exactly its bytes, whatever follows. */
  lemma IterateEncode(c: int, rest: seq<Byte>)
    requires ScalarValue(c)
    ensures Iterate(Encode(c) + rest) == Step(|Encode(c)|, c)
  {
    CheckFirstOfEncode(c);
    if c < 0x80 {
    } else if c < 0x800 {
      IterateEncode2(c, rest);
    } else if c < 0x10000 {
      IterateEncode3(c, rest);
    } else {
      IterateEncode4(c, rest);
    }
  }

  /** Six-bit digits: q * 64 + r splits back into q and r. */
  lemma Digits64(q: int, r: int)
    requires 0 <= r < 64
    ensures (q * 64 + r) / 64 == q && (q * 64 + r) % 64 == r
  {
  }

  /** A lead byte 0xC0 + h, 0xE0 + h or 0xF0 + h keeps h in its payload
      bits. */
  lemma LeadPayload(h: int, size: nat)
    requires 2 <= size <= 4
    requires 0 <= h && (size == 2 ==> h < 32) && (size == 3 ==> h < 16) && (size == 4 ==> h < 8)
    ensures var base := if size == 2 then 0xC0 else if size == 3 then 0xE0 else 0xF0;
      Lead((base + h) as Byte, size) == h
  {
  }

  lemma IterateEncode2(c: int, rest: seq<Byte>)
    requires 0x80 <= c < 0x800
    ensures Iterate(Encode(c) + rest) == Step(2, c)
  {
    var e := Encode(c);
    var buf := e + rest;
    var h, l := c / 64, c % 64;
    Digits64(h, l);
    CheckFirstOfEncode(c);
    LeadPayload(h, 2);
    assert buf[1..2] == [e[1]];
    assert Accumulate(h, buf[1..2]) == Accumulate(h * 64 + l, []);
  }

  lemma IterateEncode3(c: int, rest: seq<Byte>)
    requires 0x800 <= c < 0x10000 && ScalarValue(c)
    ensures Iterate(Encode(c) + rest) == Step(3, c)
  {
    var e := Encode(c);
    var buf := e + rest;
    var h, m, l := c / 4096, (c / 64) % 64, c % 64;
    Radix64Three(c);
    CheckFirstOfEncode(c);
    LeadPayload(h, 3);
    assert buf[1..3] == [e[1], e[2]];
    AccumulateTwo(h, m, l);
  }

  /** A value written as a head and two six-bit digits. */
  lemma Radix64Three(c: int)
    requires 0 <= c
    ensures c == (c / 4096 * 64 + (c / 64) % 64) * 64 + c % 64
  {
    var q1 := c / 64;
    var q2 := q1 / 64;
    assert c == q1 * 64 + c % 64;
    assert q1 == q2 * 64 + q1 % 64;
    assert q2 == c / 4096;
  }

  /** Two continuation bytes shift two six-bit digits into h. */
  lemma AccumulateTwo(h: int, m: int, l: int)
    requires 0 <= m < 64 && 0 <= l < 64
    ensures Accumulate(h, [(0x80 + m) as Byte, (0x80 + l) as Byte]) == Some((h * 64 + m) * 64 + l)
  {
    var b1, b2 := (0x80 + m) as Byte, (0x80 + l) as Byte;
    Continuation(b1);
    Continuation(b2);
    assert [b1, b2][1..] == [b2] && [b2][1..] == [];
    assert Accumulate(h, [b1, b2]) == Accumulate(h * 64 + m, [b2]);
    assert Accumulate(h * 64 + m, [b2]) == Accumulate((h * 64 + m) * 64 + l, []);
  }

  lemma IterateEncode4(c: int, rest: seq<Byte>)
    requires 0x10000 <= c <= 0x10FFFF
    ensures Iterate(Encode(c) + rest) == Step(4, c)
  {
    var e := Encode(c);
    var buf := e + rest;
    var h, m1, m2, l := c / 262144, (c / 4096) % 64, (c / 64) % 64, c % 64;
    Digits64(c / 64, l);
    Digits64(c / 4096, m2);
    Digits64(h, m1);
    Radix64(c);
    CheckFirstOfEncode(c);
    LeadPayload(h, 4);
    assert buf[1..4] == [e[1], e[2], e[3]];
    AccumulateThree(h, m1, m2, l);
  }

  /** A value below 2^21 written as a three-bit head and three six-bit
      digits. */
  lemma Radix64(c: int)
    requires 0 <= c
    ensures c == ((c / 262144 * 64 + (c / 4096) % 64) * 64 + (c / 64) % 64) * 64 + c % 64
  {
    var q1 := c / 64;
    var q2 := q1 / 64;
    var q3 := q2 / 64;
    assert c == q1 * 64 + c % 64;
    assert q1 == q2 * 64 + q1 % 64;
    assert q2 == q3 * 64 + q2 % 64;
    assert q2 == c / 4096 && q3 == c / 262144;
  }

  /** Three continuation bytes shift three six-bit digits into h. */
  lemma AccumulateThree(h: int, m1: int, m2: int, l: int)
    requires 0 <= m1 < 64 && 0 <= m2 < 64 && 0 <= l < 64
    ensures Accumulate(h, [(0x80 + m1) as Byte, (0x80 + m2) as Byte, (0x80 + l) as Byte])
         == Some(((h * 64 + m1) * 64 + m2) * 64 + l)
  {
    var b1, b2, b3 := (0x80 + m1) as Byte, (0x80 + m2) as Byte, (0x80 + l) as Byte;
    Continuation(b1);
    Continuation(b2);
    Continuation(b3);
    assert [b1, b2, b3][1..] == [b2, b3] && [b2, b3][1..] == [b3];
    assert Accumulate(h, [b1, b2, b3]) == Accumulate(h * 64 + m1, [b2, b3]);
    assert Accumulate(h * 64 + m1, [b2, b3]) == Accumulate((h * 64 + m1) * 64 + m2, [b3]);
    assert [b3][1..] == [];
    assert Accumulate((h * 64 + m1) * 64 + m2, [b3]) == Accumulate(((h * 64 + m1) * 64 + m2) * 64 + l, []);
  }

  /** Whatever utf8_iterate accepts is the encoding of the scalar value it
      reports: the decoder admits no other byte sequence. */
  lemma IterateDecodes(buf: seq<Byte>)
    requires Iterate(buf).Step?
    ensures ScalarValue(Iterate(buf).codepoint)
    ensures buf[..Iterate(buf).count] == Encode(Iterate(buf).codepoint)
  {
    var k := Iterate(buf).count;
    if k == 2 {
      IterateDecodes2(buf);
    } else if k == 3 {
      IterateDecodes3(buf);
    } else if k == 4 {
      IterateDecodes4(buf);
    }
  }

  /** A continuation byte is 0x80 plus its payload. */
  lemma Continuation(b: Byte)
    requires 0x80 <= b <= 0xBF
    ensures b as int % 64 == b as int - 0x80
  {
  }

  lemma IterateDecodes2(buf: seq<Byte>)
    requires Iterate(buf).Step? && Iterate(buf).count == 2
    ensures ScalarValue(Iterate(buf).codepoint)
    ensures buf[..2] == Encode(Iterate(buf).codepoint)
  {
    var c := Iterate(buf).codepoint;
    var h, l := buf[0] as int % 32, buf[1] as int % 64;
    assert buf[1..2] == [buf[1]];
    assert Accumulate(h, buf[1..2]) == Accumulate(h * 64 + l, []);
    assert c == h * 64 + l;
    Digits64(h, l);
    Continuation(buf[1]);
    assert buf[0] as int == 0xC0 + h;
  }

  lemma IterateDecodes3(buf: seq<Byte>)
    requires Iterate(buf).Step? && Iterate(buf).count == 3
    ensures ScalarValue(Iterate(buf).codepoint)
    ensures buf[..3] == Encode(Iterate(buf).codepoint)
  {
    var c := Iterate(buf).codepoint;
    var h, m, l := buf[0] as int % 16, buf[1] as int % 64, buf[2] as int % 64;
    assert buf[1..3] == [buf[1], buf[2]] && [buf[1], buf[2]][1..] == [buf[2]];
    assert Accumulate(h, buf[1..3]) == Accumulate(h * 64 + m, [buf[2]]);
    assert Accumulate(h * 64 + m, [buf[2]]) == Accumulate((h * 64 + m) * 64 + l, []);
    assert c == (h * 64 + m) * 64 + l;
    DigitsThree(h, m, l);
    Continuation(buf[1]);
    Continuation(buf[2]);
    assert buf[0] as int == 0xE0 + h;
  }

  lemma IterateDecodes4(buf: seq<Byte>)
    requires Iterate(buf).Step? && Iterate(buf).count == 4
    ensures ScalarValue(Iterate(buf).codepoint)
    ensures buf[..4] == Encode(Iterate(buf).codepoint)
  {
    var c := Iterate(buf).codepoint;
    var h, m1, m2, l := buf[0] as int % 8, buf[1] as int % 64, buf[2] as int % 64, buf[3] as int % 64;
    assert buf[1..4] == [buf[1], buf[2], buf[3]];
    assert [buf[1], buf[2], buf[3]][1..] == [buf[2], buf[3]] && [buf[2], buf[3]][1..] == [buf[3]];
    assert Accumulate(h, buf[1..4]) == Accumulate(h * 64 + m1, [buf[2], buf[3]]);
    assert Accumulate(h * 64 + m1, [buf[2], buf[3]]) == Accumulate((h * 64 + m1) * 64 + m2, [buf[3]]);
    assert Accumulate((h * 64 + m1) * 64 + m2, [buf[3]])
        == Accumulate(((h * 64 + m1) * 64 + m2) * 64 + l, []);
    assert c == ((h * 64 + m1) * 64 + m2) * 64 + l;
    DigitsFour(h, m1, m2, l);
    Continuation(buf[1]);
    Continuation(buf[2]);
    Continuation(buf[3]);
    assert buf[0] as int == 0xF0 + h;
  }

  /** A head and two six-bit digits read back from their value. */
  lemma DigitsThree(h: int, m: int, l: int)
    requires 0 <= h && 0 <= m < 64 && 0 <= l < 64
    ensures var c := (h * 64 + m) * 64 + l;
      c / 4096 == h && (c / 64) % 64 == m && c % 64 == l
  {
    var c := (h * 64 + m) * 64 + l;
    Digits64(h * 64 + m, l);
    Digits64(h, m);
    assert c / 4096 == (c / 64) / 64;
  }

  /** A head and three six-bit digits read back from their value. */
  lemma DigitsFour(h: int, m1: int, m2: int, l: int)
    requires 0 <= h && 0 <= m1 < 64 && 0 <= m2 < 64 && 0 <= l < 64
    ensures var c := ((h * 64 + m1) * 64 + m2) * 64 + l;
      c / 262144 == h && (c / 4096) % 64 == m1 && (c / 64) % 64 == m2 && c % 64 == l
  {
    var top := (h * 64 + m1) * 64 + m2;
    var c := top * 64 + l;
    Digits64(top, l);
    DigitsThree(h, m1, m2);
    assert c / 4096 == top / 64;
    assert c / 262144 == top / 4096;
  }

  // ---------------------------------------------------------------------
  // Whole strings

  /** The code points of a byte string read by repeated utf8_iterate, or
      None when some read fails. */
  function DecodeAll(s: seq<Byte>): (r: Option<seq<int>>)
    ensures r.Some? ==> AllScalar(r.value)
    decreases |s|
  {
    match Iterate(s)
    case End => Some([])
    case Invalid => None
    case Step(k, c) =>
      match DecodeAll(s[k..])
      case None => None
      case Some(cs) =>
        ConsScalar(c, cs);
        Some([c] + cs)
  }

  predicate ValidUtf8(s: seq<Byte>)
  {
    DecodeAll(s).Some?
  }

  /** Every sequence of scalar values is read back from its encoding. */
  lemma {:induction false} DecodeEncodeAll(cs: seq<int>)
    requires AllScalar(cs)
    ensures DecodeAll(EncodeAll(cs)) == Some(cs)
  {
    if |cs| > 0 {
      var e := Encode(cs[0]);
      IterateEncode(cs[0], EncodeAll(cs[1..]));
      DecodeEncodeAll(cs[1..]);
      assert (e + EncodeAll(cs[1..]))[|e|..] == EncodeAll(cs[1..]);
      assert [cs[0]] + cs[1..] == cs;
    }
  }

  /** Every valid byte string is the encoding of the code points read from
      it. */
  lemma {:induction false} EncodeDecodeAll(s: seq<Byte>, cs: seq<int>)
    requires DecodeAll(s) == Some(cs)
    ensures EncodeAll(cs) == s
    decreases |s|
  {
    if |s| > 0 {
      var k, c := Iterate(s).count, Iterate(s).codepoint;
      var rest := DecodeAll(s[k..]).value;
      assert cs == [c] + rest;
      IterateDecodes(s);
      EncodeDecodeAll(s[k..], rest);
      EncodeAllCons(c, rest);
      Glue(s, k, Encode(c), EncodeAll(rest));
    }
  }

  lemma Glue<T>(s: seq<T>, k: nat, front: seq<T>, back: seq<T>)
    requires k <= |s| && s[..k] == front && s[k..] == back
    ensures front + back == s
  {
    assert s == s[..k] + s[k..];
  }

  lemma EncodeAllCons(c: int, rest: seq<int>)
    requires ScalarValue(c) && AllScalar(rest) && AllScalar([c] + rest)
    ensures EncodeAll([c] + rest) == Encode(c) + EncodeAll(rest)
  {
    assert ([c] + rest)[1..] == rest;
  }

  lemma ConsScalar(c: int, rest: seq<int>)
    requires ScalarValue(c) && AllScalar(rest)
    ensures AllScalar([c] + rest)
  {
    forall i | 0 <= i < |[c] + rest|
      ensures ScalarValue(([c] + rest)[i])
    {
      if i > 0 {
        assert ([c] + rest)[i] == rest[i - 1];
      }
    }
  }
}
