/**
 * The JSON export of a gesture (simplestroke_export.c): json_escape_string,
 * which puts a backslash before every quotation mark and reverse solidus of
 * a C string, and the layout of the point list, a comma-separated list of
 * [x,y] pairs.
 */
module Export {
  import opened CStrings
  import opened Geometry
  import opened Strokes

  // ---------------------------------------------------------------------
  // json_escape_string

  /** The characters json_escape_string puts a backslash before. */
  predicate NeedsBackslash(c: char)
  {
    c == '"' || c == '\\'
  }

  /** What one input character becomes. */
  function EscapeChar(c: char): seq<char>
  {
    if NeedsBackslash(c) then ['\\', c] else [c]
  }

  /** The number of characters that get a backslash. */
  function Specials(s: seq<char>): (k: nat)
    ensures k <= |s|
  {
    if s == [] then 0 else (if NeedsBackslash(s[0]) then 1 else 0) + Specials(s[1..])
  }

  /** The escaped string, character by character and in order. It is as
      long as the input plus one for every character escaped, and it has a
      NUL only where the input has one. */
  function Escape(s: seq<char>): (r: seq<char>)
    ensures |r| == |s| + Specials(s)
    ensures NoNul(s) ==> NoNul(r)
  {
    if s == [] then [] else EscapeChar(s[0]) + Escape(s[1..])
  }

  /** Escaping works piece by piece. */
  lemma {:induction false} EscapeAppend(a: seq<char>, b: seq<char>)
    ensures Escape(a + b) == Escape(a) + Escape(b)
  {
    if a != [] {
      assert (a + b)[0] == a[0] && (a + b)[1..] == a[1..] + b;
      EscapeAppend(a[1..], b);
      calc {
        Escape(a + b);
        EscapeChar(a[0]) + Escape(a[1..] + b);
        EscapeChar(a[0]) + (Escape(a[1..]) + Escape(b));
        (EscapeChar(a[0]) + Escape(a[1..])) + Escape(b);
        Escape(a) + Escape(b);
      }
    } else {
      assert a + b == b;
    }
  }

  /** Removes the backslash of every escaped quotation mark and reverse
      solidus. */
  function DropEscapes(t: seq<char>): (r: seq<char>)
    ensures |r| <= |t|
  {
    if t == [] then []
    else if |t| >= 2 && t[0] == '\\' && NeedsBackslash(t[1]) then [t[1]] + DropEscapes(t[2..])
    else [t[0]] + DropEscapes(t[1..])
  }

  /** The escaping is reversible: dropping the added backslashes gives the
      input back, so no two strings escape alike. */
  lemma {:induction false} DropEscapesInverse(s: seq<char>)
    ensures DropEscapes(Escape(s)) == s
  {
    if s != [] {
      var t := Escape(s);
      assert t == EscapeChar(s[0]) + Escape(s[1..]);
      if NeedsBackslash(s[0]) {
        assert t[2..] == Escape(s[1..]);
      } else {
        assert t[1..] == Escape(s[1..]);
      }
      DropEscapesInverse(s[1..]);
    }
  }

  /** After escaping, every quotation mark has a backslash just before it. */
  lemma {:induction false} QuotesEscaped(s: seq<char>)
    ensures forall i :: 0 <= i < |Escape(s)| && Escape(s)[i] == '"' ==> 1 <= i && Escape(s)[i - 1] == '\\'
  {
    if s != [] {
      var t, e, rest := Escape(s), EscapeChar(s[0]), Escape(s[1..]);
      assert t == e + rest;
      assert e == if NeedsBackslash(s[0]) then ['\\', s[0]] else [s[0]];
      QuotesEscaped(s[1..]);
      forall i | 0 <= i < |t| && t[i] == '"'
        ensures 1 <= i && t[i - 1] == '\\'
      {
        if i < |e| {
          assert t[i] == e[i];
          if i == 1 {
            assert t[0] == e[0];
          }
        } else {
          assert t[i] == rest[i - |e|];
          if i - |e| == 0 {
            assert false;
          }
          var j := i - |e|;
          assert rest[j] == '"';
          assert 1 <= j && rest[j - 1] == '\\';
          assert t[i - 1] == rest[j - 1];
        }
      }
    }
  }

  /** The loop of json_escape_string: reads s up to its NUL and writes the
      escaped characters and a NUL through an advancing pointer into buf.
      The length the caller passes only sizes the allocation, so the loop
      needs room for the escaped text and the NUL. */
  method EscapeInto(s: array<char>, ghost str: seq<char>, buf: array<char>)
    requires Holds(s, str) && s != buf
    requires buf.Length >= |str| + Specials(str) + 1
    modifies buf
    ensures Holds(buf, Escape(str))
  {
    var i, p := 0, 0;
    EscapeAppend(str[..0], str);
    while s[i] != NUL
      invariant 0 <= i <= |str| && s[..|str|] == str
      invariant p == |Escape(str[..i])| && p + |Escape(str[i..])| == |Escape(str)|
      invariant buf[..p] == Escape(str[..i])
      decreases |str| - i
    {
      if i == |str| {
        assert false;
      }
      var c := s[i];
      assert c == str[i];
      EscapeStep(str, i);
      p := Put(buf, p, c);
      i := i + 1;
    }
    assert str[..i] == str;
    buf[p] := NUL;
    assert buf[..p] == Escape(str);
  }

  /** Writes one character, after a backslash if it needs one, at p. */
  method Put(buf: array<char>, p: nat, c: char) returns (next: nat)
    requires p + |EscapeChar(c)| <= buf.Length
    modifies buf
    ensures next == p + |EscapeChar(c)| && buf[..next] == old(buf[..p]) + EscapeChar(c)
  {
    next := p;
    if c == '"' || c == '\\' {
      buf[next] := '\\';
      next := next + 1;
    }
    buf[next] := c;
    next := next + 1;
  }

  /** One more character of the input, and the room it leaves. */
  lemma EscapeStep(str: seq<char>, i: nat)
    requires i < |str|
    ensures Escape(str[..i + 1]) == Escape(str[..i]) + EscapeChar(str[i])
    ensures |Escape(str[i..])| == |EscapeChar(str[i])| + |Escape(str[i + 1..])|
  {
    var c := str[i];
    assert str[..i + 1] == str[..i] + [c];
    assert str[i..] == [c] + str[i + 1..];
    EscapeAppend(str[..i], [c]);
    EscapeAppend([c], str[i + 1..]);
    assert Escape([c]) == EscapeChar(c) + Escape([]);
  }

  /** json_escape_string with the allocation made large enough: every
      character can at most double, and the NUL needs one more. */
  method JsonEscapeString(s: array<char>, ghost str: seq<char>, n: nat) returns (buf: array<char>)
    requires Holds(s, str) && n == |str|
    ensures fresh(buf) && Holds(buf, Escape(str))
  {
    buf := new char[2 * n + 1];
    EscapeInto(s, str, buf);
  }

  /** The allocation json_escape_string makes: malloc(n) with n the length
      of the input. */
  function AllocatedAsWritten(s: seq<char>): nat
  {
    |s|
  }

  /** What the escaping loop writes: the escaped text and the NUL. */
  function Written(s: seq<char>): nat
  {
    |Escape(s)| + 1
  }

  /** As written, every call writes past the allocation: by one character
      for a string with nothing to escape, and by one more per escaped
      character. */
  lemma AllocationAsWrittenTooSmall(s: seq<char>)
    ensures Written(s) == AllocatedAsWritten(s) + Specials(s) + 1
    ensures Written(s) > AllocatedAsWritten(s)
  {
  }

  /** For example: a"b gets 3 characters and needs 5 for a\"b and the
      NUL. */
  lemma AllocationAsWrittenExample()
    ensures Escape("a\"b") == "a\\\"b"
    ensures AllocatedAsWritten("a\"b") == 3 && Written("a\"b") == 5
  {
    assert "a\"b"[1..] == "\"b" && "\"b"[1..] == "b" && "b"[1..] == [];
  }

  /** The corrected allocation is always enough. */
  lemma CorrectedAllocationSuffices(s: seq<char>)
    ensures Written(s) <= 2 * |s| + 1
  {
  }

  // ---------------------------------------------------------------------
  // The point list of simplestroke_export_json

  /** The number formatter behind printf's %f. */
  type Format = real -> seq<char>

  /** One point as [x,y]. */
  function Pair(fmt: Format, p: Point): seq<char>
  {
    "[" + fmt(p.x) + "," + fmt(p.y) + "]"
  }

  function Pairs(fmt: Format, pts: seq<Point>): (r: seq<seq<char>>)
    ensures |r| == |pts| && forall i :: 0 <= i < |pts| ==> r[i] == Pair(fmt, pts[i])
  {
    if pts == [] then [] else Pairs(fmt, pts[..|pts| - 1]) + [Pair(fmt, pts[|pts| - 1])]
  }

  /** The items with a comma between each two of them. */
  function Join(items: seq<seq<char>>): seq<char>
  {
    if |items| == 0 then []
    else if |items| == 1 then items[0]
    else Join(items[..|items| - 1]) + "," + items[|items| - 1]
  }

  const PointsOpen: seq<char> := "\"points\":["
  const PointsClose: seq<char> := "]}\n"

  /** The text simplestroke_export_json prints for the points: the pairs,
      comma-separated, inside "points":[ ... ]}. */
  function PointsText(fmt: Format, pts: seq<Point>): seq<char>
  {
    PointsOpen + Join(Pairs(fmt, pts)) + PointsClose
  }

  /** The print loop: each pair is followed by a comma except the last. */
  method PrintPoints(s: Stroke, fmt: Format) returns (text: seq<char>)
    requires s.Valid()
    ensures text == PointsText(fmt, s.Points())
  {
    ghost var pts := s.Points();
    ghost var items := Pairs(fmt, pts);
    ghost var body: seq<char> := [];
    var n := s.n;
    text := PointsOpen;
    var i := 0;
    while i < n
      invariant 0 <= i <= n
      invariant text == PointsOpen + body
      invariant body == Listed(items, i)
    {
      var piece := "[" + fmt(s.p[i].x) + "," + fmt(s.p[i].y) + "]" + (if i == n - 1 then "" else ",");
      assert s.p[i] == pts[i];
      ListedNext(items, i);
      assert PointsOpen + body + piece == PointsOpen + (body + piece);
      text := text + piece;
      body := body + piece;
      i := i + 1;
    }
    ListedAll(items);
    text := text + PointsClose;
  }

  /** What the loop has printed of the list after i items: each item is
      followed by a comma unless it is the last. */
  function Listed(items: seq<seq<char>>, i: nat): seq<char>
    requires i <= |items|
  {
    Join(items[..i]) + (if 0 < i < |items| then "," else "")
  }

  lemma ListedNext(items: seq<seq<char>>, i: nat)
    requires i < |items|
    ensures Listed(items, i + 1) == Listed(items, i) + (items[i] + (if i == |items| - 1 then "" else ","))
  {
    var xs := items[..i + 1];
    var sep: seq<char> := if i == |items| - 1 then "" else ",";
    if i == 0 {
      assert Join(xs) == items[0];
      assert Listed(items, 0) == [];
    } else {
      assert xs[..i] == items[..i];
      assert Join(xs) == Join(items[..i]) + "," + items[i];
      assert Listed(items, i) == Join(items[..i]) + ",";
      assert Join(items[..i]) + "," + items[i] + sep == (Join(items[..i]) + ",") + (items[i] + sep);
    }
  }

  lemma ListedAll(items: seq<seq<char>>)
    ensures Listed(items, |items|) == Join(items)
  {
    assert items[..|items|] == items;
  }

  /** The number of commas in a text. */
  function Commas(t: seq<char>): nat
  {
    if t == [] then 0 else (if t[|t| - 1] == ',' then 1 else 0) + Commas(t[..|t| - 1])
  }

  lemma {:induction false} CommasAppend(a: seq<char>, b: seq<char>)
    ensures Commas(a + b) == Commas(a) + Commas(b)
  {
    if b != [] {
      var ab, b' := a + b, b[..|b| - 1];
      assert ab[|ab| - 1] == b[|b| - 1];
      assert ab[..|ab| - 1] == a + b';
      CommasAppend(a, b');
      assert Commas(ab) == (if b[|b| - 1] == ',' then 1 else 0) + Commas(a + b');
      assert Commas(b) == (if b[|b| - 1] == ',' then 1 else 0) + Commas(b');
    } else {
      assert a + b == a;
    }
  }

  /** A formatter that writes numbers without commas. */
  ghost predicate CommaFree(fmt: Format)
  {
    forall v: real :: Commas(fmt(v)) == 0
  }

  /** With such a formatter, n points give 2n - 1 commas: one inside each
      pair and one between each two; and a non-empty list ends in the last
      pair's bracket, with no comma after it. */
  lemma {:induction false} JoinPairs(fmt: Format, pts: seq<Point>)
    requires CommaFree(fmt) && |pts| >= 1
    ensures var j := Join(Pairs(fmt, pts));
      Commas(j) == 2 * |pts| - 1 && j[|j| - 1] == ']'
  {
    var items := Pairs(fmt, pts);
    var last := Pair(fmt, pts[|pts| - 1]);
    var x, y := fmt(pts[|pts| - 1].x), fmt(pts[|pts| - 1].y);
    CommasAppend("[" + x + "," + y, "]");
    CommasAppend("[" + x + ",", y);
    CommasAppend("[" + x, ",");
    CommasAppend("[", x);
    assert Commas("[") == 0 && Commas(",") == 1 && Commas("]") == 0;
    assert Commas(last) == 1;
    if |pts| > 1 {
      var front := pts[..|pts| - 1];
      assert items[..|items| - 1] == Pairs(fmt, front);
      JoinPairs(fmt, front);
      CommasAppend(Join(Pairs(fmt, front)) + ",", last);
      CommasAppend(Join(Pairs(fmt, front)), ",");
    }
  }
}
