/**
 * The JSON string serialiser of src/util.c (dump_string and
 * json_dump_string, taken from Jansson), against section 7 of RFC 8259:
 * the bytes of a valid UTF-8 string are copied, except that the quotation
 * mark, the reverse solidus and the control characters are escaped, and a
 * JSON reader gets the original code points back.
 *
 * A FILE is a Stream that appends what fwrite hands it. Every fwrite of
 * dump_string writes one item of `length` bytes; a stream in its error
 * state writes nothing and reports 0 items.
 */
module JsonDump {
  import opened Wrappers
  import opened Utf8

  /** A character literal as a byte. */
  function B(ch: char): Byte
    requires ch as int < 256
  {
    ch as int as Byte
  }

  /** An output stream: everything written so far, and whether writes
      succeed. */
  class Stream {
    var written: seq<Byte>
    const ok: bool

    constructor (ok: bool)
      ensures written == [] && this.ok == ok
    {
      written := [];
      this.ok := ok;
    }

    /** fwrite(item, |item|, 1, file): one item, or none on a failing
        stream. */
    method Write(item: seq<Byte>) returns (items: nat)
      modifies this
      ensures ok ==> items == 1 && written == old(written) + item
      ensures !ok ==> items == 0 && written == old(written)
    {
      if ok {
        written := written + item;
        items := 1;
      } else {
        items := 0;
      }
    }
  }

  // ---------------------------------------------------------------------
  // The escape table

  /** The code points the scan stops at: `\`, `"` and the controls. */
  predicate Special(c: int)
  {
    c == '\\' as int || c == '"' as int || c < 0x20
  }

  /** One upper-case hexadecimal digit. */
  function HexDigit(d: int): Byte
    requires 0 <= d < 16
  {
    if d < 10 then B('0') + d as Byte else B('A') + (d - 10) as Byte
  }

  /** snprintf "%04X". */
  function Hex4(v: int): (r: seq<Byte>)
    requires 0 <= v < 0x10000
    ensures |r| == 4 && forall i :: 0 <= i < 4 ==> B('0') <= r[i] <= B('9') || B('A') <= r[i] <= B('F')
  {
    [HexDigit(v / 4096), HexDigit(v / 256 % 16), HexDigit(v / 16 % 16), HexDigit(v % 16)]
  }

  /** The switch of dump_string: the text written for a code point the
      scan stopped at. */
  function EscapeText(c: int): (text: seq<Byte>)
    requires 0 <= c <= 0x10FFFF
    ensures 2 <= |text| <= 12 && text[0] == B('\\')
    ensures forall i :: 0 <= i < |text| ==> 0x20 <= text[i] < 0x7F
  {
    if c == '\\' as int then [B('\\'), B('\\')]
    else if c == '"' as int then [B('\\'), B('"')]
    else if c == 0x08 then [B('\\'), B('b')]
    else if c == 0x0C then [B('\\'), B('f')]
    else if c == 0x0A then [B('\\'), B('n')]
    else if c == 0x0D then [B('\\'), B('r')]
    else if c == 0x09 then [B('\\'), B('t')]
    else if c == '/' as int then [B('\\'), B('/')]
    else if c < 0x10000 then [B('\\'), B('u')] + Hex4(c)
    else
      var v := c - 0x10000;
      [B('\\'), B('u')] + Hex4(0xD800 + v / 1024) + [B('\\'), B('u')] + Hex4(0xDC00 + v % 1024)
  }

  /** Only the short forms are ever used: the solidus case and the
      surrogate-pair case lie outside the scan's stop set. */
  lemma EscapeTextReached(c: int)
    requires ScalarValue(c) && Special(c)
    ensures c != '/' as int && c < 0x10000
    ensures |EscapeText(c)| == 2 || (|EscapeText(c)| == 6 && c < 0x20)
    ensures EscapeText(c)[0] == B('\\')
  {
  }

  /** What the serialiser writes for one code point. */
  function EscapeCp(c: int): seq<Byte>
    requires ScalarValue(c)
  {
    if Special(c) then EscapeText(c) else Encode(c)
  }

  function EscapeAll(cs: seq<int>): seq<Byte>
    requires AllScalar(cs)
  {
    if |cs| == 0 then [] else EscapeCp(cs[0]) + EscapeAll(cs[1..])
  }

  // ---------------------------------------------------------------------
  // dump_string, as a function of the input

  /** Why the inner scan of dump_string stopped. */
  datatype Stop = AtEnd | Bad | Escape(count: nat, codepoint: int)

  /** The inner scan: how many bytes of ordinary code points come first,
      and what follows them. */
  datatype Scanned = Scanned(run: nat, stop: Stop)

  function Run(s: seq<Byte>): (r: Scanned)
    ensures r.run <= |s| && forall i :: 0 <= i < r.run ==> s[i] >= 0x20
    ensures r.stop.AtEnd? ==> r.run == |s|
    ensures r.stop.Escape? ==> 1 <= r.stop.count && r.run + r.stop.count <= |s| && 0 <= r.stop.codepoint <= 0x10FFFF
    decreases |s|
  {
    match Iterate(s)
    case End => Scanned(0, AtEnd)
    case Invalid => Scanned(0, Bad)
    case Step(k, c) =>
      if Special(c) then Scanned(0, Escape(k, c))
      else
        var Scanned(n, stop) := Run(s[k..]);
        IterateDecodes(s);
        EncodeAboveControls(c);
        Scanned(k + n, stop)
  }

  datatype Dumped = Dumped(out: seq<Byte>, status: int)

  /** What dump_string writes and returns: each run of ordinary code points
      copied, each stop escaped; -1, without the pending run, at the first
      invalid sequence. */
  function Dump(s: seq<Byte>): (r: Dumped)
    ensures r.status == 0 || r.status == -1
    ensures forall i :: 0 <= i < |r.out| ==> r.out[i] >= 0x20
    decreases |s|
  {
    var Scanned(n, stop) := Run(s);
    match stop
    case AtEnd => Dumped(s, 0)
    case Bad => Dumped([], -1)
    case Escape(k, c) =>
      var rest := Dump(s[n + k..]);
      Dumped(s[..n] + EscapeText(c) + rest.out, rest.status)
  }

  /** Dump read one code point at a time: an ordinary code point is
      copied and a stop is escaped, and the status is that of the rest. */
  lemma DumpCons(s: seq<Byte>, k: nat, c: int)
    requires Iterate(s) == Step(k, c)
    ensures Dump(s).status == Dump(s[k..]).status
    ensures Special(c) ==> Dump(s).out == EscapeText(c) + Dump(s[k..]).out
    ensures !Special(c) && Dump(s).status == 0 ==> Dump(s).out == s[..k] + Dump(s[k..]).out
  {
    RunCons(s, k, c);
    if Special(c) {
      DumpLeadingEscape(s, k, c);
    } else {
      DumpPlain(s, k);
    }
  }

  /** Dump where the first code point is escaped. */
  lemma DumpLeadingEscape(s: seq<Byte>, k: nat, c: int)
    requires k <= |s| && Run(s) == Scanned(0, Escape(k, c))
    ensures Dump(s) == Dumped(EscapeText(c) + Dump(s[k..]).out, Dump(s[k..]).status)
  {
    DumpEscape(s, 0, k, c);
    EmptyFront(s[..0], EscapeText(c), Dump(s[k..]).out);
  }

  lemma EmptyFront<T>(z: seq<T>, e: seq<T>, r: seq<T>)
    requires |z| == 0
    ensures z + e + r == e + r
  {
  }

  /** The scan's first step. */
  lemma RunCons(s: seq<Byte>, k: nat, c: int)
    requires Iterate(s) == Step(k, c)
    ensures Special(c) ==> Run(s) == Scanned(0, Escape(k, c))
    ensures !Special(c) ==> Run(s) == Scanned(k + Run(s[k..]).run, Run(s[k..]).stop)
  {
  }

  /** Dump where the scan stops at an escape. */
  lemma DumpEscape(s: seq<Byte>, n: nat, k: nat, c: int)
    requires Run(s) == Scanned(n, Escape(k, c))
    ensures Dump(s) == Dumped(s[..n] + EscapeText(c) + Dump(s[n + k..]).out, Dump(s[n + k..]).status)
  {
  }

  lemma DumpAtEnd(s: seq<Byte>)
    requires Run(s).stop.AtEnd?
    ensures Dump(s) == Dumped(s, 0)
  {
  }

  lemma DumpBad(s: seq<Byte>)
    requires Run(s).stop.Bad?
    ensures Dump(s) == Dumped([], -1)
  {
  }

  /** The copying half of DumpCons, once the scan is known to run on past
      the first k bytes. */
  lemma DumpPlain(s: seq<Byte>, k: nat)
    requires k <= |s| && Run(s) == Scanned(k + Run(s[k..]).run, Run(s[k..]).stop)
    ensures Dump(s).status == Dump(s[k..]).status
    ensures Dump(s).status == 0 ==> Dump(s).out == s[..k] + Dump(s[k..]).out
  {
    var t := s[k..];
    match Run(t).stop
    case AtEnd => PlainAtEnd(s, k, t);
    case Bad =>
      DumpBad(t);
      DumpBad(s);
    case Escape(k2, c2) => PlainEscape(s, k, t, Run(t).run, k2, c2);
  }

  lemma PlainAtEnd(s: seq<Byte>, k: nat, t: seq<Byte>)
    requires k <= |s| && t == s[k..] && Run(t).stop.AtEnd? && Run(s).stop.AtEnd?
    ensures Dump(s) == Dumped(s[..k] + Dump(t).out, Dump(t).status)
  {
    DumpAtEnd(t);
    DumpAtEnd(s);
    assert s == s[..k] + t;
  }

  lemma PlainEscape(s: seq<Byte>, k: nat, t: seq<Byte>, n: nat, k2: nat, c2: int)
    requires k + n + k2 <= |s| && t == s[k..]
    requires Run(t) == Scanned(n, Escape(k2, c2)) && Run(s) == Scanned(k + n, Escape(k2, c2))
    ensures Dump(s) == Dumped(s[..k] + Dump(t).out, Dump(t).status)
  {
    var after := s[k + n + k2..];
    var e := EscapeText(c2);
    var front := s[..k + n];
    SliceFacts(s, k, t, n + k2, n);
    DumpEscapeAt(t, n, k2, c2, t[..n], after);
    DumpEscapeAt(s, k + n, k2, c2, front, after);
    Reassociate(front, s[..k], t[..n], e, Dump(after).out);
  }

  lemma SliceFacts<T>(s: seq<T>, k: nat, t: seq<T>, j: nat, n: nat)
    requires n <= j && k + j <= |s| && t == s[k..]
    ensures t[j..] == s[k + j..] && s[..k + n] == s[..k] + t[..n]
  {
  }

  /** DumpEscape with the run and the remainder named. */
  lemma DumpEscapeAt(s: seq<Byte>, n: nat, k: nat, c: int, run: seq<Byte>, after: seq<Byte>)
    requires Run(s) == Scanned(n, Escape(k, c))
    requires n + k <= |s| && run == s[..n] && after == s[n + k..]
    ensures Dump(s) == Dumped(run + EscapeText(c) + Dump(after).out, Dump(after).status)
  {
    DumpEscape(s, n, k, c);
  }

  lemma Reassociate<T>(x: seq<T>, a: seq<T>, b: seq<T>, e: seq<T>, r: seq<T>)
    requires x == a + b
    ensures x + e + r == a + (b + e + r)
  {
  }

  /** dump_string succeeds exactly on valid UTF-8, and otherwise returns
      -1. */
  lemma {:induction false} DumpStatus(s: seq<Byte>)
    ensures Dump(s).status == 0 || Dump(s).status == -1
    ensures Dump(s).status == 0 <==> ValidUtf8(s)
    decreases |s|
  {
    match Iterate(s)
    case End =>
    case Invalid =>
    case Step(k, c) =>
      DumpCons(s, k, c);
      DumpStatus(s[k..]);
  }

  lemma EscapeAllCons(c: int, rest: seq<int>)
    requires ScalarValue(c) && AllScalar(rest)
    ensures AllScalar([c] + rest)
    ensures EscapeAll([c] + rest) == EscapeCp(c) + EscapeAll(rest)
  {
    ConsScalar(c, rest);
    assert ([c] + rest)[1..] == rest;
  }

  /** On valid UTF-8, dump_string writes each code point's escape or its
      own encoding, in order. */
  lemma {:induction false} DumpValid(s: seq<Byte>)
    requires ValidUtf8(s)
    ensures Dump(s).out == EscapeAll(DecodeAll(s).value)
    decreases |s|
  {
    match Iterate(s)
    case End =>
    case Step(k, c) =>
      IterateDecodes(s);
      var rest := DecodeAll(s[k..]).value;
      DumpStatus(s);
      DumpCons(s, k, c);
      DumpValid(s[k..]);
      EscapeAllCons(c, rest);
  }

  // ---------------------------------------------------------------------
  // dump_string and json_dump_string

  /** dump_string, with the fwrite results compared to the one item
      written. */
  method DumpString(file: Stream, s: seq<Byte>) returns (status: int)
    modifies file
    ensures file.ok ==> file.written == old(file.written) + Dump(s).out && status == Dump(s).status
    ensures !file.ok ==> file.written == old(file.written) && (status == 0 <==> |s| == 0)
  {
    var str := 0;
    assert s[str..] == s;
    while true
      invariant 0 <= str <= |s|
      invariant file.ok ==> old(file.written) + Dump(s).out == file.written + Dump(s[str..]).out
      invariant file.ok ==> Dump(s).status == Dump(s[str..]).status
      invariant !file.ok ==> str == 0 && file.written == old(file.written)
      decreases |s| - str
    {
      ghost var before := file.written;
      var next, done, failed := Round(file, s, str);
      if failed {
        return -1;
      }
      if done {
        break;
      }
      WholeKept(old(file.written), Dump(s).out, before, Dump(s[str..]).out, file.written, Dump(s[next..]).out);
      str := next;
    }
    return 0;
  }

  /** Once the output so far plus what is still to come equals the whole,
      writing a piece of what was to come keeps it so. */
  lemma WholeKept<T>(w0: seq<T>, whole: seq<T>, w: seq<T>, todo: seq<T>, w': seq<T>, todo': seq<T>)
    requires w0 + whole == w + todo && w' + todo' == w + todo
    ensures w0 + whole == w' + todo'
  {
  }

  /** One round of dump_string's outer loop from `str`: scan, write the
      pending run, then stop at the end or write the escape and go on from
      `next`. */
  method Round(file: Stream, s: seq<Byte>, str: nat) returns (next: nat, done: bool, failed: bool)
    requires str <= |s|
    modifies file
    ensures file.ok && failed ==> Dump(s[str..]) == Dumped([], -1) && file.written == old(file.written)
    ensures file.ok && done && !failed ==>
      file.written == old(file.written) + Dump(s[str..]).out && Dump(s[str..]).status == 0
    ensures file.ok && !done && !failed ==>
      && str < next <= |s|
      && file.written + Dump(s[next..]).out == old(file.written) + Dump(s[str..]).out
      && Dump(s[next..]).status == Dump(s[str..]).status
    ensures !file.ok ==> file.written == old(file.written) && (failed <==> str < |s|) && (!failed ==> done)
  {
    next, done, failed := str, false, false;
    var pos, end, codepoint, bad := Scan(s, str);
    if bad {
      return str, false, true;
    }
    DumpStep(s, str, pos, end);
    ghost var before := file.written;
    failed := Emit(file, s, str, pos, end, codepoint);
    if failed || end == pos {
      return str, !failed, failed;
    }
    ghost var rest := Dump(s[end..]).out;
    Append3(before, s[str..pos], EscapeText(codepoint), rest);
    next := end;
  }

  /** The two writes of a round: the pending run str..pos unless it is
      empty, then the escape of the code point spanning pos..end unless
      the scan reached the end. */
  method Emit(file: Stream, s: seq<Byte>, str: nat, pos: nat, end: nat, codepoint: int) returns (failed: bool)
    requires str <= pos <= end <= |s| && (end != pos ==> 0 <= codepoint <= 0x10FFFF)
    modifies file
    ensures file.ok ==> (!failed &&
      file.written == old(file.written) + s[str..pos] + (if end == pos then [] else EscapeText(codepoint)))
    ensures !file.ok ==> file.written == old(file.written) && (failed <==> pos != str || end != pos)
  {
    ghost var w0, run := file.written, s[str..pos];
    if pos != str {
      var items := file.Write(s[str..pos]);
      if items != 1 {
        return true;
      }
    } else {
      AppendEmpty(w0, run);
    }
    ghost var w1 := file.written;
    if end != pos {
      var items := file.Write(EscapeText(codepoint));
      if items != 1 {
        return true;
      }
    } else {
      AppendEmpty(w1, []);
    }
    return false;
  }

  lemma AppendEmpty<T>(w: seq<T>, e: seq<T>)
    requires |e| == 0
    ensures w + e == w
  {
  }

  lemma Append3<T>(w: seq<T>, a: seq<T>, e: seq<T>, r: seq<T>)
    ensures (w + a + e) + r == w + (a + e + r)
  {
  }

  /** The inner loop of dump_string: read code points from `str` until the
      end, an invalid sequence (bad), or a code point to escape, which then
      spans pos..end. */
  method Scan(s: seq<Byte>, str: nat) returns (pos: nat, end: nat, codepoint: int, bad: bool)
    requires str <= |s|
    ensures bad <==> Run(s[str..]).stop.Bad?
    ensures !bad ==> str <= pos <= end <= |s| && Run(s[str..]).run == pos - str
    ensures !bad && end == pos ==> Run(s[str..]).stop.AtEnd?
    ensures !bad && end != pos ==> Run(s[str..]).stop == Escape(end - pos, codepoint)
  {
    var lim := |s|;
    pos, end := str, str;
    codepoint := 0;
    while end < lim
      invariant str <= pos == end <= lim
      invariant Run(s[str..]) == Scanned(pos - str + Run(s[pos..]).run, Run(s[pos..]).stop)
      decreases lim - end
    {
      var next := Iterate(s[pos..]);
      if next.Invalid? {
        return pos, end, codepoint, true;
      }
      RunCons(s[pos..], next.count, next.codepoint);
      end := pos + next.count;
      codepoint := next.codepoint;
      if Special(codepoint) {
        return pos, end, codepoint, false;
      }
      assert s[pos..][next.count..] == s[end..];
      pos := end;
    }
    bad := false;
  }

  /** One round of dump_string's outer loop on the spec side: the output
      from `str` is the pending run, then the escape, then the output from
      `end`. */
  lemma DumpStep(s: seq<Byte>, str: nat, pos: nat, end: nat)
    requires str <= pos <= end <= |s|
    requires Run(s[str..]).run == pos - str
    requires Run(s[str..]).stop.AtEnd? || Run(s[str..]).stop.Escape?
    requires Run(s[str..]).stop.Escape? ==> Run(s[str..]).stop.count == end - pos
    requires Run(s[str..]).stop.AtEnd? ==> end == pos
    ensures Run(s[str..]).stop.AtEnd? ==> pos == |s| && Dump(s[str..]) == Dumped(s[str..pos], 0)
    ensures Run(s[str..]).stop.Escape? ==>
      && Dump(s[str..]).out == s[str..pos] + EscapeText(Run(s[str..]).stop.codepoint) + Dump(s[end..]).out
      && Dump(s[str..]).status == Dump(s[end..]).status
  {
    var t := s[str..];
    var run := s[str..pos];
    assert t[..pos - str] == run;
    if Run(t).stop.Escape? {
      var after := s[end..];
      assert t[pos - str + (end - pos)..] == after;
      DumpEscapeAt(t, pos - str, end - pos, Run(t).stop.codepoint, run, after);
    } else {
      assert t == run;
      DumpAtEnd(t);
    }
  }

  // ---------------------------------------------------------------------
  // dump_string as written

  /** What dump_string does as written, where each fwrite result (the
      number of items written, here 1) is compared with the byte count
      instead: a pending run passes the check only when it is one byte
      long, and an escape (2, 6 or 12 bytes) never passes, so the first
      round is also the last. The writes before the failed check have
      happened. */
  function DumpAsWritten(s: seq<Byte>): (r: Dumped)
    ensures r.out <= Dump(s).out
    ensures r.status == 0 ==> r == Dump(s)
  {
    var Scanned(n, stop) := Run(s);
    match stop
    case Bad => Dumped([], -1)
    case AtEnd => Dumped(s, if n <= 1 then 0 else -1)
    case Escape(k, c) =>
      if n >= 2 then Dumped(s[..n], -1) else Dumped(s[..n] + EscapeText(c), -1)
  }

  /** As written, dump_string reports success only for a string of at most
      one byte that needs no escape. */
  lemma AsWrittenStatus(s: seq<Byte>)
    ensures DumpAsWritten(s).status == 0 <==> Run(s).stop.AtEnd? && |s| <= 1
  {
  }

  /** "a\"b": as written, the output stops after the escaped quotation
      mark and the status is -1; dump_string as intended writes the whole
      of it and returns 0. */
  lemma AsWrittenDropsTail()
    ensures DumpAsWritten([0x61, 0x22, 0x62]) == Dumped([0x61, 0x5C, 0x22], -1)
    ensures Dump([0x61, 0x22, 0x62]) == Dumped([0x61, 0x5C, 0x22, 0x62], 0)
  {
    var s: seq<Byte> := [0x61, 0x22, 0x62];
    assert Iterate(s) == Step(1, 0x61);
    assert s[1..] == [0x22] + [0x62];
    assert Iterate(s[1..]) == Step(1, 0x22);
    assert Run(s) == Scanned(1, Escape(1, 0x22));
    assert s[2..] == [0x62];
    assert Iterate([0x62]) == Step(1, 0x62);
    assert Run([0x62]) == Scanned(1, AtEnd);
    DumpEscapeAt(s, 1, 1, 0x22, [0x61], [0x62]);
    DumpAtEnd([0x62]);
  }

  /** json_dump_string: the escaped body between two quotation marks. The
      status of dump_string is dropped, so invalid UTF-8 still gets its
      closing quote. */
  method JsonDumpString(stdout: Stream, s: seq<Byte>)
    modifies stdout
    ensures stdout.ok ==> stdout.written == old(stdout.written) + [B('"')] + Dump(s).out + [B('"')]
    ensures !stdout.ok ==> stdout.written == old(stdout.written)
  {
    var _ := stdout.Write([B('"')]);
    var _ := DumpString(stdout, s);
    var _ := stdout.Write([B('"')]);
  }
}
