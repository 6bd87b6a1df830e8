/**
 * The JavaScript string built-ins the matchers rely on, on `string` = `seq<char>`:
 * white space as `String.prototype.trim` and the regular-expression class `\s` see it,
 * `trim`, `toLowerCase` (restricted to ASCII, Latin-1 and the letter L with stroke),
 * `split(' ')`, `indexOf`, `startsWith`, `slice`, indexing, and `Math.min`/`Math.max`.
 */
module JsString {
  import opened Wrappers

  /** `s[k]`: the character at `k`, `undefined` (here `None`) outside the string. */
  function CharAt(s: string, k: int): Option<char> {
    if 0 <= k < |s| then Some(s[k]) else None
  }

  /** `Math.min` and `Math.max` on two numbers. */
  function RMin(a: real, b: real): real { if a <= b then a else b }
  function RMax(a: real, b: real): real { if a >= b then a else b }

  /** WhiteSpace and LineTerminator code points of ECMAScript (section 12.2 and 12.3 of ECMA-262). */
  predicate IsWhitespace(c: char) {
    c == '\t' || c == '\n' || c == '\U{000B}' || c == '\U{000C}' || c == '\r' || c == ' '
    || c == '\U{00A0}' || c == '\U{1680}' || ('\U{2000}' <= c <= '\U{200A}')
    || c == '\U{2028}' || c == '\U{2029}' || c == '\U{202F}' || c == '\U{205F}'
    || c == '\U{3000}' || c == '\U{FEFF}'
  }

  predicate AllWhitespace(s: string) {
    forall k :: 0 <= k < |s| ==> IsWhitespace(s[k])
  }

  /** Length of the longest prefix of `s` made of white space. */
  function LeadingWhitespace(s: string): (n: nat)
    ensures n <= |s| && AllWhitespace(s[..n])
    ensures n < |s| ==> !IsWhitespace(s[n])
  {
    if |s| > 0 && IsWhitespace(s[0]) then
      var n := 1 + LeadingWhitespace(s[1..]);
      assert s[..n] == [s[0]] + s[1..][..n - 1];
      n
    else 0
  }

  /** Length of the longest suffix of `s` made of white space. */
  function TrailingWhitespace(s: string): (n: nat)
    ensures n <= |s| && AllWhitespace(s[|s| - n..])
    ensures n < |s| ==> !IsWhitespace(s[|s| - n - 1])
  {
    if |s| > 0 && IsWhitespace(s[|s| - 1]) then
      var n := 1 + TrailingWhitespace(s[..|s| - 1]);
      assert s[|s| - n..] == s[..|s| - 1][|s| - n..] + [s[|s| - 1]];
      n
    else 0
  }

  /** `String.prototype.trim`: `s` with its leading and trailing white space removed. */
  function Trim(s: string): (r: string)
    ensures |r| == 0 || (!IsWhitespace(r[0]) && !IsWhitespace(r[|r| - 1]))
    ensures var a := LeadingWhitespace(s);
      && a + |r| <= |s| && r == s[a..a + |r|] && AllWhitespace(s[..a]) && AllWhitespace(s[a + |r|..])
  {
    var a := LeadingWhitespace(s);
    var t := s[a..];
    var b := TrailingWhitespace(t);
    var r := t[..|t| - b];
    assert r == s[a..a + |r|];
    assert s[a + |r|..] == t[|t| - b..];
    assert |r| > 0 ==> r[0] == s[a];
    r
  }

  /** Trimming text that has no white space at either end changes nothing. */
  lemma TrimUntrimmed(s: string)
    requires |s| == 0 || (!IsWhitespace(s[0]) && !IsWhitespace(s[|s| - 1]))
    ensures Trim(s) == s
  {
    assert LeadingWhitespace(s) == 0;
    assert TrailingWhitespace(s) == 0;
  }

  /** `toLowerCase` of one character: ASCII and Latin-1 capitals, and L with stroke. */
  function LowerChar(c: char): (d: char)
    ensures ('A' <= c <= 'Z') ==> d as int == c as int + 32
    ensures !('A' <= c <= 'Z') && !('\U{00C0}' <= c <= '\U{00DE}') && c != '\U{0141}' ==> d == c
  {
    if 'A' <= c <= 'Z' || ('\U{00C0}' <= c <= '\U{00DE}' && c != '\U{00D7}') then
      (c as int + 32) as char
    else if c == '\U{0141}' then '\U{0142}'
    else c
  }

  lemma LowerCharIdempotent(c: char)
    ensures LowerChar(LowerChar(c)) == LowerChar(c)
  {
  }

  /** `String.prototype.toLowerCase`, character by character. */
  function ToLower(s: string): (r: string)
    ensures |r| == |s| && forall k :: 0 <= k < |s| ==> r[k] == LowerChar(s[k])
  {
    seq(|s|, k requires 0 <= k < |s| => LowerChar(s[k]))
  }

  /** `s.split(sep)` for a one-character separator: the pieces between separators, empty ones included. */
  function Split(s: string, sep: char): (pieces: seq<string>)
    ensures |pieces| >= 1
    ensures forall k :: 0 <= k < |pieces| ==> sep !in pieces[k]
    decreases |s|
  {
    if |s| == 0 then [""]
    else
      var rest := Split(s[1..], sep);
      if s[0] == sep then [""] + rest
      else [[s[0]] + rest[0]] + rest[1..]
  }

  /** Joining the pieces of a split with the separator gives back the string. */
  lemma {:induction false} SplitJoin(s: string, sep: char)
    ensures Join(Split(s, sep), sep) == s
    decreases |s|
  {
    if |s| > 0 {
      var rest := Split(s[1..], sep);
      SplitJoin(s[1..], sep);
      if s[0] == sep {
        assert Split(s, sep) == [""] + rest;
      } else {
        assert Split(s, sep) == [[s[0]] + rest[0]] + rest[1..];
        if |rest| > 1 {
          assert Join(rest, sep) == rest[0] + [sep] + Join(rest[1..], sep);
        }
      }
    }
  }

  function Join(pieces: seq<string>, sep: char): string
    decreases |pieces|
  {
    if |pieces| == 0 then ""
    else if |pieces| == 1 then pieces[0]
    else pieces[0] + [sep] + Join(pieces[1..], sep)
  }

  /** Each piece of a split is free of the separator and occurs in the split string. */
  lemma SplitPiecesOccur(s: string, sep: char)
    ensures forall w :: w in Split(s, sep) ==> sep !in w && exists k :: OccursAt(s, w, k)
  {
    forall w | w in Split(s, sep)
      ensures sep !in w && exists k :: OccursAt(s, w, k)
    {
      var pieces := Split(s, sep);
      var n :| 0 <= n < |pieces| && pieces[n] == w;
      var k := PieceOffset(pieces, sep, n);
      SplitJoin(s, sep);
      PieceAt(pieces, sep, n);
      assert OccursAt(s, w, k);
    }
  }

  /** Where the `n`-th piece starts in the joined string. */
  function PieceOffset(pieces: seq<string>, sep: char, n: nat): nat
    requires n < |pieces|
  {
    if n == 0 then 0 else PieceOffset(pieces, sep, n - 1) + |pieces[n - 1]| + 1
  }

  lemma {:induction false} PieceAt(pieces: seq<string>, sep: char, n: nat)
    requires n < |pieces|
    ensures var k := PieceOffset(pieces, sep, n);
      k + |pieces[n]| <= |Join(pieces, sep)| && Join(pieces, sep)[k..k + |pieces[n]|] == pieces[n]
  {
    if n == 0 {
      assert Join(pieces, sep)[..|pieces[0]|] == pieces[0];
    } else {
      assert Join(pieces, sep) == pieces[0] + [sep] + Join(pieces[1..], sep);
      PieceAt(pieces[1..], sep, n - 1);
      PieceOffsetShift(pieces, sep, n);
    }
  }

  lemma {:induction false} PieceOffsetShift(pieces: seq<string>, sep: char, n: nat)
    requires 0 < n < |pieces|
    ensures PieceOffset(pieces, sep, n) == |pieces[0]| + 1 + PieceOffset(pieces[1..], sep, n - 1)
  {
    if n > 1 {
      PieceOffsetShift(pieces, sep, n - 1);
    }
  }

  /** A split yields more than one piece exactly when the separator occurs in the string. */
  lemma {:induction false} SplitMany(s: string, sep: char)
    ensures |Split(s, sep)| > 1 <==> sep in s
    decreases |s|
  {
    if |s| > 0 {
      SplitMany(s[1..], sep);
      assert sep in s <==> s[0] == sep || sep in s[1..];
    }
  }

  predicate OccursAt(s: string, t: string, k: int) {
    0 <= k && k + |t| <= |s| && s[k..k + |t|] == t
  }

  /** `s.indexOf(t, from)`: the first position at or after `from` where `t` occurs, or -1. */
  function IndexOfFrom(s: string, t: string, from: nat): (r: int)
    ensures r == -1 || (from <= r && OccursAt(s, t, r))
    ensures r == -1 ==> forall k :: from <= k ==> !OccursAt(s, t, k)
    ensures r != -1 ==> forall k :: from <= k < r ==> !OccursAt(s, t, k)
    decreases |s| - from
  {
    if from + |t| > |s| then -1
    else if s[from..from + |t|] == t then from
    else IndexOfFrom(s, t, from + 1)
  }

  /** `s.indexOf(t)`. */
  function IndexOf(s: string, t: string): (r: int)
    ensures r == -1 <==> forall k :: !OccursAt(s, t, k)
    ensures r != -1 ==> OccursAt(s, t, r) && forall k :: k < r ==> !OccursAt(s, t, k)
  {
    IndexOfFrom(s, t, 0)
  }

  /** The index `String.prototype.slice` uses for argument `k` on a string of length `len`. */
  function SliceIndex(len: nat, k: int): (r: nat)
    ensures r <= len
    ensures 0 <= k <= len ==> r == k
  {
    if k < 0 then (if len + k < 0 then 0 else len + k)
    else if k > len then len
    else k
  }

  /** `s.slice(start, end)`: negative arguments count from the end, all are clamped. */
  function Slice(s: string, start: int, end: int): (r: string)
    ensures 0 <= start <= end <= |s| ==> r == s[start..end]
    ensures |r| <= |s|
  {
    var a := SliceIndex(|s|, start);
    var b := SliceIndex(|s|, end);
    if a < b then s[a..b] else ""
  }
}
