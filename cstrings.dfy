/**
 * NUL-terminated strings in fixed-size character buffers, and the BSD
 * strlcpy and strlcat that util.c builds its paths with: both always leave
 * a terminated string when the size is not zero, and cut what does not
 * fit.
 */
module CStrings {
  const NUL: char := '\0'

  /** A C string's characters: no NUL among them. */
  predicate NoNul(s: seq<char>)
  {
    forall i :: 0 <= i < |s| ==> s[i] != NUL
  }

  /** strnlen: the characters before the first NUL, or all of them. */
  function StrLen(s: seq<char>): (n: nat)
    ensures n <= |s| && NoNul(s[..n]) && (n < |s| ==> s[n] == NUL)
  {
    if |s| == 0 || s[0] == NUL then 0
    else
      var n := StrLen(s[1..]);
      assert s[..1 + n] == [s[0]] + s[1..][..n];
      1 + n
  }

  /** The first NUL of s is at n. */
  lemma {:induction false} StrLenAt(s: seq<char>, n: nat)
    requires n <= |s| && NoNul(s[..n]) && (n < |s| ==> s[n] == NUL)
    ensures StrLen(s) == n
  {
    if n > 0 {
      assert s[0] == s[..n][0];
      assert s[1..][..n - 1] == s[..n][1..];
      StrLenAt(s[1..], n - 1);
    }
  }

  /** The buffer holds the C string s. */
  ghost predicate Holds(buf: array<char>, s: seq<char>)
    reads buf
  {
    NoNul(s) && |s| < buf.Length && buf[..|s|] == s && buf[|s|] == NUL
  }

  function Min(a: int, b: int): int
  {
    if a <= b then a else b
  }

  /** What fits in a buffer of `size` characters: at most size - 1
      characters and the NUL. */
  function Truncate(s: seq<char>, size: nat): (t: seq<char>)
    requires size >= 1
    ensures |t| < size && |t| <= |s| && t == s[..|t|]
    ensures |s| < size ==> t == s
  {
    s[..Min(|s|, size - 1)]
  }

  /** Cutting, appending and cutting again is cutting once: a chain of
      strlcpy and strlcat yields the concatenation, cut to the buffer. */
  lemma TruncateAppend(a: seq<char>, b: seq<char>, size: nat)
    requires size >= 1
    ensures Truncate(Truncate(a, size) + b, size) == Truncate(a + b, size)
  {
    if |a| >= size {
      var t := Truncate(a, size);
      assert (t + b)[..size - 1] == t == (a + b)[..size - 1];
    }
  }

  /** A buffer holding s with room to spare reads back s. */
  lemma HoldsStrLen(buf: array<char>, s: seq<char>, size: nat)
    requires Holds(buf, s) && |s| < size <= buf.Length
    ensures StrLen(buf[..size]) == |s| && buf[..size][..|s|] == s
  {
    StrLenAt(buf[..size], |s|);
  }

  /** strlcpy(dst, src, size): copies what fits and terminates it; returns
      the length of src. With size 0 nothing is written. */
  method Strlcpy(dst: array<char>, src: seq<char>, size: nat) returns (r: nat)
    requires size <= dst.Length && NoNul(src)
    modifies dst
    ensures r == |src|
    ensures size == 0 ==> dst[..] == old(dst[..])
    ensures size > 0 ==> Holds(dst, Truncate(src, size))
    ensures size > 0 ==> forall k :: |Truncate(src, size)| < k < dst.Length ==> dst[k] == old(dst[k])
  {
    r := |src|;
    if size == 0 {
      return;
    }
    var i := 0;
    while i < size - 1 && i < |src|
      invariant i <= size - 1 && i <= |src|
      invariant dst[..i] == src[..i]
      invariant forall k :: i <= k < dst.Length ==> dst[k] == old(dst[k])
    {
      dst[i] := src[i];
      i := i + 1;
    }
    dst[i] := NUL;
    assert dst[..i] == src[..i];
  }

  /** strlcat(dst, src, size): finds the end of the string in the first
      size characters of dst; if there is none, changes nothing and
      returns size + |src|; otherwise appends what fits, terminates it and
      returns the length it tried to create. */
  method Strlcat(dst: array<char>, src: seq<char>, size: nat) returns (r: nat)
    requires size <= dst.Length && NoNul(src)
    modifies dst
    ensures var d := StrLen(old(dst[..size]));
      && r == d + |src|
      && (d == size ==> dst[..] == old(dst[..]))
      && (d < size ==> Holds(dst, Truncate(old(dst[..d]) + src, size)))
      && (d < size ==> forall k :: |Truncate(old(dst[..d]) + src, size)| < k < dst.Length ==> dst[k] == old(dst[k]))
  {
    var d := StrEnd(dst, size);
    r := d + |src|;
    if d == size {
      return;
    }
    AppendAt(dst, d, src, size);
  }

  /** The first loop of strlcat: the end of the string in the first size
      characters. */
  method StrEnd(dst: array<char>, size: nat) returns (d: nat)
    requires size <= dst.Length
    ensures d == StrLen(dst[..size])
  {
    d := 0;
    while d < size && dst[d] != NUL
      invariant d <= size && NoNul(dst[..d])
    {
      assert dst[..d + 1] == dst[..d] + [dst[d]];
      d := d + 1;
    }
    assert dst[..size][..d] == dst[..d];
    StrLenAt(dst[..size], d);
  }

  /** The copying loop of strlcat: src after the d characters already
      there, cut to the buffer, then the NUL. */
  method AppendAt(dst: array<char>, d: nat, src: seq<char>, size: nat)
    requires d < size <= dst.Length && NoNul(dst[..d]) && NoNul(src)
    modifies dst
    ensures Holds(dst, Truncate(old(dst[..d]) + src, size))
    ensures forall k :: |Truncate(old(dst[..d]) + src, size)| < k < dst.Length ==> dst[k] == old(dst[k])
  {
    ghost var cur := dst[..d];
    var i := 0;
    while i < |src| && d + i < size - 1
      invariant i <= |src| && d + i <= size - 1
      invariant dst[..d + i] == cur + src[..i]
      invariant forall k :: d + i <= k < dst.Length ==> dst[k] == old(dst[k])
    {
      dst[d + i] := src[i];
      assert src[..i + 1] == src[..i] + [src[i]];
      i := i + 1;
    }
    dst[d + i] := NUL;
    TruncateJoin(cur, src, size, i);
    assert NoNul(cur + src);
  }

  lemma TruncateJoin(cur: seq<char>, src: seq<char>, size: nat, i: nat)
    requires |cur| < size && i <= |src| && |cur| + i <= size - 1
    requires i == |src| || |cur| + i == size - 1
    ensures Truncate(cur + src, size) == cur + src[..i]
  {
    assert cur + src[..i] == (cur + src)[..|cur| + i];
  }
}
