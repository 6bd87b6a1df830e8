/**
 * Where the characters of a normalized text sit in the text it came from. The matcher reports
 * ranges into `normalizeText(text)`, which has lost the leading white space of `text`; for a
 * text without combining marks every other character keeps its place, so those ranges point
 * into `text` once they are moved right by the length of that white space.
 */
module HighlightOffset {
  import opened JsString
  import opened Subsequence
  import opened Normalize

  /** Each run moved `a` positions to the right. */
  function Shift(rs: seq<Run>, a: int): (r: seq<Run>)
    ensures |r| == |rs|
  {
    if |rs| == 0 then []
    else Shift(rs[..|rs| - 1], a) + [Run(rs[|rs| - 1].first + a, rs[|rs| - 1].last + a)]
  }

  lemma {:induction false} ShiftAt(rs: seq<Run>, a: int)
    ensures forall k :: 0 <= k < |rs| ==> Shift(rs, a)[k] == Run(rs[k].first + a, rs[k].last + a)
  {
    if |rs| > 0 {
      var init := rs[..|rs| - 1];
      ShiftAt(init, a);
      assert forall k :: 0 <= k < |init| ==> init[k] == rs[k];
    }
  }

  /** A precomposed letter's base letter; any other character as it is (NFD, then the marks removed). */
  function Base(c: char): char {
    if Precomposed(c) then BaseLetter(c) else c
  }

  /** What normalization makes of one character that is not a combining mark. */
  function NormChar(c: char): char {
    FoldLetter(Base(LowerChar(c)))
  }

  /** Each character normalized on its own. */
  function NormChars(s: string): (r: string)
    ensures |r| == |s|
    decreases |s|
  {
    if |s| == 0 then "" else [NormChar(s[0])] + NormChars(s[1..])
  }

  lemma {:induction false} NormCharsAt(s: string)
    ensures forall k :: 0 <= k < |s| ==> NormChars(s)[k] == NormChar(s[k])
    decreases |s|
  {
    if |s| > 0 {
      NormCharsAt(s[1..]);
      assert forall k :: 0 < k < |s| ==> s[1..][k - 1] == s[k];
    }
  }

  predicate NoMarks(s: string) {
    forall k :: 0 <= k < |s| ==> !IsCombiningMark(s[k])
  }

  /** Normalizing one character keeps it white space, or not white space. */
  lemma {:induction false} NormCharWhitespace(c: char)
    ensures IsWhitespace(NormChar(c)) <==> IsWhitespace(c)
  {
    var d := LowerChar(c);
    if IsWhitespace(c) {
      assert d == c;
      assert !Precomposed(d);
    } else {
      assert !IsWhitespace(d);
      assert !IsWhitespace(Base(d));
    }
  }

  lemma {:induction false} StripAppend(a: string, b: string)
    ensures StripMarks(a + b) == StripMarks(a) + StripMarks(b)
    decreases |a|
  {
    if |a| > 0 {
      assert (a + b)[0] == a[0] && (a + b)[1..] == a[1..] + b;
      StripAppend(a[1..], b);
      var h := if IsCombiningMark(a[0]) then "" else [a[0]];
      assert StripMarks(a + b) == h + (StripMarks(a[1..]) + StripMarks(b));
      assert StripMarks(a) == h + StripMarks(a[1..]);
    } else {
      assert a + b == b;
    }
  }

  /** Without combining marks to start with, decomposing and removing the marks leaves the base letters. */
  lemma {:induction false} StripNfd(t: string)
    requires NoMarks(t)
    ensures |StripMarks(Nfd(t))| == |t|
    ensures forall k :: 0 <= k < |t| ==> StripMarks(Nfd(t))[k] == Base(t[k])
    decreases |t|
  {
    if |t| > 0 {
      var rest := t[1..];
      assert NoMarks(rest) by {
        assert forall k :: 0 <= k < |rest| ==> rest[k] == t[k + 1];
      }
      StripNfd(rest);
      assert Nfd(t) == Decompose(t[0]) + Nfd(rest);
      StripAppend(Decompose(t[0]), Nfd(rest));
      assert StripMarks(Decompose(t[0])) == [Base(t[0])] by {
        if Precomposed(t[0]) {
          assert Decompose(t[0])[1..] == [Mark(t[0])];
          assert StripMarks([Mark(t[0])]) == "";
        } else {
          assert Decompose(t[0])[1..] == "";
        }
      }
      var r := StripMarks(Nfd(t));
      assert r == [Base(t[0])] + StripMarks(Nfd(rest));
      forall k | 0 <= k < |t|
        ensures r[k] == Base(t[k])
      {
        if k > 0 {
          assert r[k] == StripMarks(Nfd(rest))[k - 1];
          assert rest[k - 1] == t[k];
        }
      }
    }
  }

  /** Lower-casing never produces a combining mark. */
  lemma {:induction false} LowerNoMarks(s: string)
    requires NoMarks(s)
    ensures NoMarks(ToLower(s))
  {
    forall k | 0 <= k < |s|
      ensures !IsCombiningMark(ToLower(s)[k])
    {
      var c := s[k];
      assert ToLower(s)[k] == LowerChar(c);
    }
  }

  /** Before trimming, normalization maps a text without combining marks character by character. */
  lemma {:induction false} FoldedChars(s: string)
    requires NoMarks(s)
    ensures FoldLetters(StripMarks(Nfd(ToLower(s)))) == NormChars(s)
  {
    var lower := ToLower(s);
    LowerNoMarks(s);
    StripNfd(lower);
    var folded := FoldLetters(StripMarks(Nfd(lower)));
    assert |folded| == |s|;
    NormCharsAt(s);
    forall k | 0 <= k < |s|
      ensures folded[k] == NormChars(s)[k]
    {
      assert lower[k] == LowerChar(s[k]);
    }
  }

  /** The leading white space ends at the first character that is not white space. */
  lemma {:induction false} LeadingUnique(t: string, a: nat)
    requires a <= |t| && AllWhitespace(t[..a]) && (a < |t| ==> !IsWhitespace(t[a]))
    ensures LeadingWhitespace(t) == a
    decreases |t|
  {
    if |t| > 0 && IsWhitespace(t[0]) {
      assert t[1..][..a - 1] == t[..a][1..];
      LeadingUnique(t[1..], a - 1);
    }
  }

  /** Two texts that are white space at the same positions start with as much white space. */
  lemma {:induction false} LeadingSame(s: string, t: string)
    requires |s| == |t| && forall k :: 0 <= k < |s| ==> (IsWhitespace(s[k]) <==> IsWhitespace(t[k]))
    ensures LeadingWhitespace(s) == LeadingWhitespace(t)
  {
    var a := LeadingWhitespace(s);
    assert forall k :: 0 <= k < a ==> IsWhitespace(s[..a][k]);
    assert AllWhitespace(t[..a]);
    LeadingUnique(t, a);
  }

  /** A text and its characters normalized one by one are white space at the same positions. */
  lemma {:induction false} WhitespaceAlike(s: string)
    ensures forall k :: 0 <= k < |s| ==> (IsWhitespace(NormChars(s)[k]) <==> IsWhitespace(s[k]))
  {
    NormCharsAt(s);
    forall k | 0 <= k < |s|
      ensures IsWhitespace(NormChars(s)[k]) <==> IsWhitespace(s[k])
    {
      NormCharWhitespace(s[k]);
    }
  }

  /**
   * The normalized form of a text without combining marks: its characters normalized one by
   * one, from the end of its leading white space on.
   */
  lemma {:induction false} NormalizedAt(s: string, a: int, n: string)
    requires NoMarks(s) && a == LeadingWhitespace(s) && n == NormalizeText(s)
    ensures 0 <= a && a + |n| <= |s| && n == NormChars(s[a..a + |n|])
  {
    NormalizeTrims(s);
    TrimmedAt(s, a, n);
  }

  /** Trimming the characters normalized one by one keeps those from the leading white space on. */
  lemma {:induction false} TrimmedAt(s: string, a: int, n: string)
    requires a == LeadingWhitespace(s) && n == Trim(NormChars(s))
    ensures 0 <= a && a + |n| <= |s| && n == NormChars(s[a..a + |n|])
  {
    LeadingNormalized(s);
    TrimAt(NormChars(s), n, a);
    SliceNorm(s, a, n);
  }

  lemma {:induction false} TrimAt(t: string, n: string, a: int)
    requires n == Trim(t) && a == LeadingWhitespace(t)
    ensures a + |n| <= |t| && n == t[a..a + |n|]
  {
  }

  lemma {:induction false} SliceNorm(s: string, a: int, n: string)
    requires 0 <= a && a + |n| <= |s| && n == NormChars(s)[a..a + |n|]
    ensures n == NormChars(s[a..a + |n|])
  {
    NormCharsSlice(s, a, a + |n|);
  }

  lemma {:induction false} NormCharsSlice(x: string, i: int, j: int)
    requires 0 <= i <= j <= |x|
    ensures NormChars(x[i..j]) == NormChars(x)[i..j]
  {
    NormCharsAt(x);
    NormCharsAt(x[i..j]);
    var u, v := NormChars(x[i..j]), NormChars(x)[i..j];
    forall k | 0 <= k < j - i
      ensures u[k] == v[k]
    {
      assert x[i..j][k] == x[i + k];
    }
  }

  /** Normalization of a text without combining marks is its characters normalized, then trimmed. */
  lemma {:induction false} NormalizeTrims(s: string)
    requires NoMarks(s)
    ensures NormalizeText(s) == Trim(NormChars(s))
  {
    FoldedChars(s);
  }

  /** Normalizing character by character keeps the leading white space. */
  lemma {:induction false} LeadingNormalized(s: string)
    ensures LeadingWhitespace(NormChars(s)) == LeadingWhitespace(s)
  {
    WhitespaceAlike(s);
    LeadingSame(NormChars(s), s);
  }

  lemma {:induction false} NormCharsAppend(x: string, y: string)
    ensures NormChars(x + y) == NormChars(x) + NormChars(y)
  {
    NormCharsAt(x);
    NormCharsAt(y);
    NormCharsAt(x + y);
  }

  /** Moved runs stay separated, and runs inside `[0, m)` land inside `[0, m + a)`. */
  lemma {:induction false} ShiftKeeps(rs: seq<Run>, a: int, m: int)
    requires Separated(rs) && Within(rs, m) && 0 <= a
    ensures Separated(Shift(rs, a)) && Within(Shift(rs, a), m + a)
  {
    ShiftAt(rs, a);
  }

  /** Runs that `Spell` accepts on a text of length `m`: inside it, none of negative length. */
  predicate Spellable(rs: seq<Run>, m: int) {
    Within(rs, m) && forall k :: 0 <= k < |rs| ==> rs[k].first <= rs[k].last + 1
  }

  /** Spellable runs, moved by `a`, are spellable on a text `a` longer. */
  lemma {:induction false} ShiftSpellable(rs: seq<Run>, a: int, m: int)
    requires Spellable(rs, m) && 0 <= a
    ensures Spellable(Shift(rs, a), m + a)
  {
    ShiftAt(rs, a);
  }

  /** Spelling runs: the runs before the last, then the last one's characters. */
  lemma {:induction false} SpellLast(rs: seq<Run>, s: string, init: seq<Run>, r: Run)
    requires |rs| > 0 && Spellable(rs, |s|) && init == rs[..|rs| - 1] && r == rs[|rs| - 1]
    ensures Spellable(init, |s|) && 0 <= r.first <= r.last + 1 <= |s|
    ensures Spell(rs, s) == Spell(init, s) + s[r.first..r.last + 1]
  {
    forall k | 0 <= k < |init|
      ensures 0 <= init[k].first && init[k].last < |s| && init[k].first <= init[k].last + 1
    {
      assert init[k] == rs[k];
    }
  }

  /** Normalizing two pieces separately and joining them is normalizing the joined text. */
  lemma {:induction false} NormJoin(x: string, y: string, u: string, v: string)
    requires NormChars(x) == u && NormChars(y) == v
    ensures NormChars(x + y) == u + v
  {
    NormCharsAppend(x, y);
  }

  /** A slice of the part of `s` at `a` is the slice of `s` moved by `a`. */
  lemma {:induction false} SliceOfPart(s: string, a: int, w: string, i: int, j: int)
    requires 0 <= a && a + |w| <= |s| && w == s[a..a + |w|] && 0 <= i <= j <= |w|
    ensures s[i + a..j + a] == w[i..j]
  {
    forall k | 0 <= k < j - i
      ensures s[i + a..j + a][k] == w[i..j][k]
    {
    }
  }

  /** Runs moved by `a` pick from `s` what the unmoved runs pick from the part of `s` at `a`. */
  lemma {:induction false} SpellDrop(rs: seq<Run>, a: int, s: string, w: string)
    requires Spellable(rs, |w|)
    requires 0 <= a && a + |w| <= |s| && w == s[a..a + |w|]
    ensures Spellable(Shift(rs, a), |s|)
    ensures Spell(Shift(rs, a), s) == Spell(rs, w)
    decreases |rs|
  {
    ShiftSpellable(rs, a, |w|);
    if |rs| > 0 {
      var init, r := rs[..|rs| - 1], rs[|rs| - 1];
      SpellLast(rs, w, init, r);
      SpellDrop(init, a, s, w);
      var sh := Shift(rs, a);
      assert sh[..|sh| - 1] == Shift(init, a) && sh[|sh| - 1] == Run(r.first + a, r.last + a);
      SpellLast(sh, s, Shift(init, a), Run(r.first + a, r.last + a));
      SliceOfPart(s, a, w, r.first, r.last + 1);
    }
  }

  /** Normalizing what runs pick from `w` is picking with them from `w` normalized. */
  lemma {:induction false} SpellNorm(rs: seq<Run>, w: string)
    requires Spellable(rs, |w|)
    ensures NormChars(Spell(rs, w)) == Spell(rs, NormChars(w))
    decreases |rs|
  {
    if |rs| > 0 {
      var init, r := rs[..|rs| - 1], rs[|rs| - 1];
      var nw := NormChars(w);
      SpellLast(rs, w, init, r);
      SpellLast(rs, nw, init, r);
      SpellNorm(init, w);
      NormCharsSlice(w, r.first, r.last + 1);
      NormJoin(Spell(init, w), w[r.first..r.last + 1], Spell(init, nw), nw[r.first..r.last + 1]);
    }
  }

  /**
   * Ranges into a text `n` whose characters are those of `s` from `a` on, normalized: moved by
   * `a`, they lie in `s` and pick out the characters that normalize to what they pick from `n`.
   */
  lemma {:induction false} SpellShift(rs: seq<Run>, a: int, s: string, n: string)
    requires Spellable(rs, |n|)
    requires 0 <= a && a + |n| <= |s| && n == NormChars(s[a..a + |n|])
    ensures Spellable(Shift(rs, a), |s|)
    ensures NormChars(Spell(Shift(rs, a), s)) == Spell(rs, n)
  {
    var w := s[a..a + |n|];
    SpellDrop(rs, a, s, w);
    SpellNorm(rs, w);
  }
}
