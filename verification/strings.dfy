/** The Kotlin standard-library string operations the modelled code relies on:
    `trim`, `isBlank`, `replace`, `split` on a one-character delimiter,
    `joinToString`, `contains` and `List.indexOf`. */
module Strings {

  /** Kotlin's `Char.isWhitespace()` on the JVM: `Character.isWhitespace`
      or `Character.isSpaceChar`. */
  predicate IsWhitespace(c: char) {
    || c == ' ' || c == '\t' || c == '\n' || c == '\r'
    || c == '\U{B}' || c == '\U{C}'
    || ('\U{1C}' <= c <= '\U{1F}')
    || c == '\U{A0}' || c == '\U{1680}'
    || ('\U{2000}' <= c <= '\U{200A}')
    || c == '\U{2028}' || c == '\U{2029}' || c == '\U{202F}'
    || c == '\U{205F}' || c == '\U{3000}'
  }

  /** True when neither end of `s` is whitespace, so `trim` leaves it alone. */
  predicate NoEdgeWhitespace(s: string) {
    |s| == 0 || (!IsWhitespace(s[0]) && !IsWhitespace(s[|s| - 1]))
  }

  /** Kotlin's `isBlank()`: empty or whitespace only. */
  predicate IsBlank(s: string) {
    forall i :: 0 <= i < |s| ==> IsWhitespace(s[i])
  }

  /** Drops the leading whitespace of `s`. */
  function TrimStart(s: string): (r: string)
    ensures |r| <= |s| && r == s[|s| - |r|..]
    ensures forall k :: 0 <= k < |s| - |r| ==> IsWhitespace(s[k])
    ensures |r| > 0 ==> !IsWhitespace(r[0])
  {
    if |s| == 0 then s
    else if IsWhitespace(s[0]) then TrimStart(s[1..])
    else s
  }

  /** Drops the trailing whitespace of `s`. */
  function TrimEnd(s: string): (r: string)
    ensures |r| <= |s| && r == s[..|r|]
    ensures forall k :: |r| <= k < |s| ==> IsWhitespace(s[k])
    ensures |r| > 0 ==> !IsWhitespace(r[|r| - 1])
  {
    if |s| == 0 then s
    else if IsWhitespace(s[|s| - 1]) then TrimEnd(s[..|s| - 1])
    else s
  }

  /** `r` is the slice of `s` that starts at `a`, and every character of `s`
      before or after that slice satisfies `strip`. */
  ghost predicate StrippedTo(s: string, r: string, a: int, strip: char -> bool) {
    && 0 <= a && a + |r| <= |s|
    && r == s[a..a + |r|]
    && (forall i :: 0 <= i < a ==> strip(s[i]))
    && (forall i :: a + |r| <= i < |s| ==> strip(s[i]))
  }

  /** Stripping one more character at the front keeps the result a stripped
      slice. */
  lemma StripFront(s: string, r: string, strip: char -> bool)
    requires |s| > 0 && strip(s[0])
    requires exists a :: StrippedTo(s[1..], r, a, strip)
    ensures exists a :: StrippedTo(s, r, a, strip)
  {
    var a :| StrippedTo(s[1..], r, a, strip);
    assert s[1..][a..a + |r|] == s[a + 1..a + 1 + |r|];
    forall i | 0 <= i < a + 1
      ensures strip(s[i])
    {
      if i > 0 {
        assert s[1..][i - 1] == s[i];
      }
    }
    forall i | a + 1 + |r| <= i < |s|
      ensures strip(s[i])
    {
      assert s[1..][i - 1] == s[i];
    }
    assert StrippedTo(s, r, a + 1, strip);
  }

  /** Stripping one more character at the back keeps the result a stripped
      slice. */
  lemma StripBack(s: string, init: string, r: string, strip: char -> bool)
    requires |s| > 0 && strip(s[|s| - 1]) && init == s[..|s| - 1]
    requires exists a :: StrippedTo(init, r, a, strip)
    ensures exists a :: StrippedTo(s, r, a, strip)
  {
    var a :| StrippedTo(init, r, a, strip);
    assert s[..|s| - 1][a..a + |r|] == s[a..a + |r|];
    forall i | 0 <= i < a
      ensures strip(s[i])
    {
      assert s[..|s| - 1][i] == s[i];
    }
    forall i | a + |r| <= i < |s|
      ensures strip(s[i])
    {
      if i < |s| - 1 {
        assert s[..|s| - 1][i] == s[i];
      }
    }
    assert StrippedTo(s, r, a, strip);
  }

  /** Kotlin's `trim()`: the slice of `s` left after whitespace is removed
      from both ends; a string already free of whitespace at its ends is
      returned unchanged. */
  function Trim(s: string): (r: string)
    ensures NoEdgeWhitespace(r)
    ensures |r| <= |s|
    ensures exists a :: StrippedTo(s, r, a, IsWhitespace)
    ensures NoEdgeWhitespace(s) ==> r == s
  {
    var t := TrimStart(s);
    var r := TrimEnd(t);
    assert StrippedTo(s, r, |s| - |t|, IsWhitespace) by {
      assert t[..|r|] == s[|s| - |t|..|s| - |t| + |r|];
      forall i | |s| - |t| + |r| <= i < |s|
        ensures IsWhitespace(s[i])
      {
        assert t[i - (|s| - |t|)] == s[i];
      }
    }
    r
  }

  /** `trim()` yields the empty string exactly for blank strings. */
  lemma {:induction false} TrimEmptyIffBlank(s: string)
    ensures Trim(s) == [] <==> IsBlank(s)
  {
    var t := TrimStart(s);
    if IsBlank(s) {
      BlankTrimStart(s);
    }
  }

  lemma {:induction false} BlankTrimStart(s: string)
    requires IsBlank(s)
    ensures TrimStart(s) == []
    decreases |s|
  {
    if |s| > 0 {
      BlankTrimStart(s[1..]);
    }
  }

  /** `sub` occurs in `s` at some position. */
  predicate Contains(s: string, sub: string)
    decreases |s|
  {
    sub <= s || (|s| > 0 && Contains(s[1..], sub))
  }

  /** Kotlin's `String.replace(old, new)`: every occurrence of `pat`, found
      left to right without overlap, is replaced by `rep`. */
  function ReplaceAll(s: string, pat: string, rep: string): string
    requires |pat| > 0
    decreases |s|
  {
    if |s| == 0 then []
    else if pat <= s then rep + ReplaceAll(s[|pat|..], pat, rep)
    else [s[0]] + ReplaceAll(s[1..], pat, rep)
  }

  /** Reference definition of replacing one character: each `c` becomes
      `rep`, every other character stays. */
  function ReplaceChar(s: string, c: char, rep: string): (r: string)
    ensures c !in rep ==> c !in r
    ensures forall x :: x in r && x !in rep ==> x in s
    ensures c !in s ==> r == s
  {
    if |s| == 0 then []
    else (if s[0] == c then rep else [s[0]]) + ReplaceChar(s[1..], c, rep)
  }

  /** A string without the pattern is left unchanged by `replace`. */
  lemma {:induction false} ReplaceAbsent(s: string, pat: string, rep: string)
    requires |pat| > 0
    requires !Contains(s, pat)
    ensures ReplaceAll(s, pat, rep) == s
    decreases |s|
  {
    if |s| > 0 {
      ReplaceAbsent(s[1..], pat, rep);
    }
  }

  /** `replace` with a one-character pattern is the character-wise reference. */
  lemma {:induction false} ReplaceAllChar(s: string, c: char, rep: string)
    ensures ReplaceAll(s, [c], rep) == ReplaceChar(s, c, rep)
    decreases |s|
  {
    if |s| > 0 {
      ReplaceAllChar(s[1..], c, rep);
      assert [c] <= s <==> s[0] == c;
    }
  }

  lemma {:induction false} ReplaceCharAppend(a: string, b: string, c: char, rep: string)
    ensures ReplaceChar(a + b, c, rep) == ReplaceChar(a, c, rep) + ReplaceChar(b, c, rep)
    decreases |a|
  {
    if |a| > 0 {
      assert (a + b)[1..] == a[1..] + b;
      ReplaceCharAppend(a[1..], b, c, rep);
    } else {
      assert a + b == b;
    }
  }

  /** `t` has no border: no non-empty proper prefix of `t` is also a suffix. */
  predicate Unbordered(t: string) {
    forall k :: 0 < k < |t| ==> t[k..] != t[..|t| - k]
  }

  /** The escaped form of `s` split at the first occurrence of `c`. */
  lemma EscapedAtFirst(s: string, c: char, tok: string, k: nat)
    requires k < |s| && s[k] == c && c !in s[..k]
    ensures ReplaceChar(s, c, tok) == s[..k] + tok + ReplaceChar(s[k + 1..], c, tok)
  {
    var before, after := s[..k], s[k + 1..];
    assert s == before + ([c] + after);
    ReplaceCharAppend(before, [c] + after, c, tok);
    ReplaceCharAppend([c], after, c, tok);
    assert ReplaceChar([c], c, tok) == tok;
    assert ReplaceChar(before, c, tok) == before;
  }

  /** Inside the escaped form of `s`, the token cannot start at a character
      copied from `s`, unless `s` contained the token or the token overlaps
      itself. */
  lemma NoMisalignedToken(s: string, c: char, tok: string)
    requires |s| > 0 && s[0] != c
    requires |tok| > 0 && Unbordered(tok)
    requires !Contains(s, tok)
    ensures !(tok <= ReplaceChar(s, c, tok))
  {
    var e := ReplaceChar(s, c, tok);
    if tok <= e && c in s {
      var k := FirstIndex(s, c);
      EscapedAtFirst(s, c, tok, k);
      if 0 < k < |tok| {
        BorderAt(tok, e, s[..k], ReplaceChar(s[k + 1..], c, tok));
      }
    }
  }

  lemma BorderAt(tok: string, e: string, a: string, b: string)
    requires e == a + tok + b && tok <= e
    requires 0 < |a| < |tok|
    ensures !Unbordered(tok)
  {
    var k := |a|;
    assert tok[k..] == e[k..|tok|];
    assert e[k..|tok|] == tok[..|tok| - k];
  }

  /** Index of the first `c` in `s`. */
  function FirstIndex(s: string, c: char): (k: nat)
    requires c in s
    ensures k < |s| && s[k] == c && c !in s[..k]
  {
    if s[0] == c then 0 else
      assert s[1..][..FirstIndex(s[1..], c)] == s[1..1 + FirstIndex(s[1..], c)];
      1 + FirstIndex(s[1..], c)
  }

  lemma NotContainsTail(s: string, tok: string)
    requires |s| > 0 && !Contains(s, tok)
    ensures !Contains(s[1..], tok)
  {
  }

  /** Replacing a character by an unbordered token that the string does not
      contain, and then replacing the token back, restores the string. */
  lemma {:induction false} ReplaceCharRoundTrip(s: string, c: char, tok: string)
    requires |tok| > 0 && Unbordered(tok)
    requires !Contains(s, tok)
    ensures ReplaceAll(ReplaceAll(s, [c], tok), tok, [c]) == s
    decreases |s|
  {
    ReplaceAllChar(s, c, tok);
    if |s| > 0 {
      NotContainsTail(s, tok);
      ReplaceCharRoundTrip(s[1..], c, tok);
      ReplaceAllChar(s[1..], c, tok);
      var e := ReplaceChar(s, c, tok);
      var e' := ReplaceChar(s[1..], c, tok);
      if s[0] == c {
        assert e == tok + e';
        assert tok <= e;
        assert e[|tok|..] == e';
      } else {
        assert e == [s[0]] + e';
        NoMisalignedToken(s, c, tok);
        assert e[1..] == e';
      }
      assert s == [s[0]] + s[1..];
    }
  }

  /** Kotlin's `joinToString(sep)` with a one-character separator. */
  function Join(parts: seq<string>, c: char): string {
    if |parts| == 0 then []
    else if |parts| == 1 then parts[0]
    else parts[0] + [c] + Join(parts[1..], c)
  }

  /** Kotlin's `split(sep)` on a one-character delimiter: the maximal pieces
      between delimiters, always at least one, which `joinToString` puts back. */
  function Split(s: string, c: char): (r: seq<string>)
    ensures |r| > 0
    ensures forall i :: 0 <= i < |r| ==> c !in r[i]
    ensures Join(r, c) == s
  {
    if |s| == 0 then [[]]
    else
      var r := Split(s[1..], c);
      if s[0] == c then
        assert Join([[]] + r, c) == [c] + Join(r, c);
        [[]] + r
      else
        var r' := [[s[0]] + r[0]] + r[1..];
        assert r'[1..] == r[1..];
        assert |r| > 1 ==> Join(r, c) == r[0] + [c] + Join(r[1..], c);
        r'
  }

  lemma {:induction false} SplitNoDelimiter(a: string, c: char)
    requires c !in a
    ensures Split(a, c) == [a]
    decreases |a|
  {
    if |a| > 0 {
      SplitNoDelimiter(a[1..], c);
      assert a == [a[0]] + a[1..];
    }
  }

  lemma {:induction false} SplitFirstDelimiter(a: string, b: string, c: char)
    requires c !in a
    ensures Split(a + [c] + b, c) == [a] + Split(b, c)
    decreases |a|
  {
    if |a| == 0 {
      assert a + [c] + b == [c] + b;
      assert ([c] + b)[1..] == b;
    } else {
      assert (a + [c] + b)[1..] == a[1..] + [c] + b;
      SplitFirstDelimiter(a[1..], b, c);
      assert a == [a[0]] + a[1..];
    }
  }

  /** Splitting a join of delimiter-free pieces gives the pieces back. */
  lemma {:induction false} SplitJoin(parts: seq<string>, c: char)
    requires |parts| > 0
    requires forall i :: 0 <= i < |parts| ==> c !in parts[i]
    ensures Split(Join(parts, c), c) == parts
    decreases |parts|
  {
    if |parts| == 1 {
      SplitNoDelimiter(parts[0], c);
    } else {
      SplitJoin(parts[1..], c);
      SplitFirstDelimiter(parts[0], Join(parts[1..], c), c);
      assert parts == [parts[0]] + parts[1..];
    }
  }

  /** A join contains the separator once there are two pieces or more. */
  lemma JoinHasSeparator(parts: seq<string>, c: char)
    requires |parts| >= 2
    ensures c in Join(parts, c)
  {
    assert Join(parts, c)[|parts[0]|] == c;
  }

  /** A join of pieces free of `x` is free of `x`, given a separator that is not `x`. */
  lemma {:induction false} JoinAvoids(parts: seq<string>, c: char, x: char)
    requires x != c
    requires forall i :: 0 <= i < |parts| ==> x !in parts[i]
    ensures x !in Join(parts, c)
    decreases |parts|
  {
    if |parts| > 1 {
      JoinAvoids(parts[1..], c, x);
    }
  }

  /** Java's `List.indexOf`: the first index holding `x`, or -1. */
  function IndexOf(xs: seq<string>, x: string): (r: int)
    ensures -1 <= r < |xs|
    ensures r == -1 <==> x !in xs
    ensures r >= 0 ==> xs[r] == x && x !in xs[..r]
  {
    if |xs| == 0 then -1
    else if xs[0] == x then 0
    else
      var k := IndexOf(xs[1..], x);
      assert k >= 0 ==> xs[..k + 1] == [xs[0]] + xs[1..][..k];
      if k == -1 then -1 else k + 1
  }
}
