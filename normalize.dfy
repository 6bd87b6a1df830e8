/**
 * `normalizeText` of microfuzz (microfuzz.bundle.js:9-18): lower-case, canonical decomposition
 * (NFD), removal of the combining diacritical marks U+0300-U+036F, the letters "ł" and "ñ" folded
 * to "l" and "n", then `trim`.
 */
module Normalize {
  import opened JsString

  predicate IsCombiningMark(c: char) {
    '\U{0300}' <= c <= '\U{036F}'
  }

  /** The lower-case letters of Latin-1 that have a canonical decomposition. */
  predicate Precomposed(c: char) {
    '\U{00E0}' <= c <= '\U{00FF}' && c != '\U{00E6}' && c != '\U{00F0}' && c != '\U{00F7}'
    && c != '\U{00F8}' && c != '\U{00FE}'
  }

  /** The base letter of a precomposed letter. */
  function BaseLetter(c: char): (b: char)
    requires Precomposed(c)
    ensures 'a' <= b <= 'z'
  {
    if c <= '\U{00E5}' then 'a'
    else if c == '\U{00E7}' then 'c'
    else if c <= '\U{00EB}' then 'e'
    else if c <= '\U{00EF}' then 'i'
    else if c == '\U{00F1}' then 'n'
    else if c <= '\U{00F6}' then 'o'
    else if c <= '\U{00FC}' then 'u'
    else 'y'
  }

  /** The combining mark of a precomposed letter. */
  function Mark(c: char): (m: char)
    requires Precomposed(c)
    ensures IsCombiningMark(m)
  {
    match c
    case '\U{00E0}' => '\U{0300}'  case '\U{00E1}' => '\U{0301}'  case '\U{00E2}' => '\U{0302}'
    case '\U{00E3}' => '\U{0303}'  case '\U{00E4}' => '\U{0308}'  case '\U{00E5}' => '\U{030A}'
    case '\U{00E7}' => '\U{0327}'
    case '\U{00E8}' => '\U{0300}'  case '\U{00E9}' => '\U{0301}'  case '\U{00EA}' => '\U{0302}'
    case '\U{00EB}' => '\U{0308}'
    case '\U{00EC}' => '\U{0300}'  case '\U{00ED}' => '\U{0301}'  case '\U{00EE}' => '\U{0302}'
    case '\U{00EF}' => '\U{0308}'
    case '\U{00F1}' => '\U{0303}'
    case '\U{00F2}' => '\U{0300}'  case '\U{00F3}' => '\U{0301}'  case '\U{00F4}' => '\U{0302}'
    case '\U{00F5}' => '\U{0303}'  case '\U{00F6}' => '\U{0308}'
    case '\U{00F9}' => '\U{0300}'  case '\U{00FA}' => '\U{0301}'  case '\U{00FB}' => '\U{0302}'
    case '\U{00FC}' => '\U{0308}'
    case '\U{00FD}' => '\U{0301}'
    case _ => '\U{0308}'
  }

  /**
   * Canonical decomposition of one character, for the precomposed lower-case letters of Latin-1
   * (base letter, then combining mark); every other character is its own decomposition.
   */
  function Decompose(c: char): (d: string)
    ensures 1 <= |d| <= 2
    ensures |d| == 1 <==> !Precomposed(c)
    ensures |d| == 1 ==> d[0] == c
    ensures |d| == 2 ==> 'a' <= d[0] <= 'z' && IsCombiningMark(d[1])
  {
    if Precomposed(c) then [BaseLetter(c), Mark(c)] else [c]
  }

  /** `normalize('NFD')`: every character replaced by its decomposition. */
  function Nfd(s: string): (r: string)
    ensures forall k :: 0 <= k < |r| ==> !Precomposed(r[k])
    ensures (forall k :: 0 <= k < |s| ==> LowerChar(s[k]) == s[k]) ==>
              forall k :: 0 <= k < |r| ==> LowerChar(r[k]) == r[k]
  {
    if |s| == 0 then ""
    else
      var d := Decompose(s[0]);
      var rest := Nfd(s[1..]);
      assert forall k :: 0 < k < |s| ==> s[1..][k - 1] == s[k];
      d + rest
  }

  /** `replace(/[̀-ͯ]/g, '')`. */
  function StripMarks(s: string): (r: string)
    ensures |r| <= |s|
    ensures forall k :: 0 <= k < |r| ==> !IsCombiningMark(r[k]) && r[k] in s
  {
    if |s| == 0 then ""
    else (if IsCombiningMark(s[0]) then "" else [s[0]]) + StripMarks(s[1..])
  }

  function FoldLetter(c: char): (d: char)
    ensures d != '\U{0142}' && d != '\U{00F1}'
    ensures c != '\U{0142}' && c != '\U{00F1}' ==> d == c
  {
    if c == '\U{0142}' then 'l' else if c == '\U{00F1}' then 'n' else c
  }

  /** `replace(/ł/g, 'l').replace(/ñ/g, 'n')`. */
  function FoldLetters(s: string): (r: string)
    ensures |r| == |s| && forall k :: 0 <= k < |s| ==> r[k] == FoldLetter(s[k])
  {
    seq(|s|, k requires 0 <= k < |s| => FoldLetter(s[k]))
  }

  /** A character that every step of the normalization leaves as it is. */
  predicate NormalChar(c: char) {
    LowerChar(c) == c && !Precomposed(c) && !IsCombiningMark(c) && c != '\U{0142}' && c != '\U{00F1}'
  }

  predicate AllNormal(s: string) {
    forall k :: 0 <= k < |s| ==> NormalChar(s[k])
  }

  /** The folded text, before trimming, is made of normal characters only. */
  lemma FoldedNormal(s: string)
    ensures AllNormal(FoldLetters(StripMarks(Nfd(ToLower(s)))))
  {
    var lower := ToLower(s);
    forall k | 0 <= k < |lower| ensures LowerChar(lower[k]) == lower[k] {
      LowerCharIdempotent(s[k]);
    }
    var decomposed := Nfd(lower);
    var stripped := StripMarks(decomposed);
    var folded := FoldLetters(stripped);
    forall k | 0 <= k < |folded| ensures NormalChar(folded[k]) {
      var c := stripped[k];
      assert c in decomposed;
      var i :| 0 <= i < |decomposed| && decomposed[i] == c;
      assert LowerChar(c) == c && !Precomposed(c);
    }
  }

  lemma TrimNormal(s: string)
    requires AllNormal(s)
    ensures AllNormal(Trim(s))
  {
    var r := Trim(s);
    var a := LeadingWhitespace(s);
    assert forall k :: 0 <= k < |r| ==> r[k] == s[a + k];
  }

  /** normalizeText: the text the matcher compares, never the one it shows. */
  function NormalizeText(s: string): (r: string)
    ensures |s| == 0 ==> r == ""
    ensures |r| == 0 || (!IsWhitespace(r[0]) && !IsWhitespace(r[|r| - 1]))
    ensures AllNormal(r)
    ensures forall k :: 0 <= k < |r| ==>
              !IsCombiningMark(r[k]) && r[k] != '\U{0142}' && r[k] != '\U{00F1}' && !('A' <= r[k] <= 'Z')
  {
    var folded := FoldLetters(StripMarks(Nfd(ToLower(s))));
    FoldedNormal(s);
    TrimNormal(folded);
    Trim(folded)
  }

  lemma {:induction false} NfdFixed(t: string)
    requires forall k :: 0 <= k < |t| ==> !Precomposed(t[k])
    ensures Nfd(t) == t
    decreases |t|
  {
    if |t| > 0 {
      NfdFixed(t[1..]);
      assert [t[0]] + t[1..] == t;
    }
  }

  lemma {:induction false} StripFixed(t: string)
    requires forall k :: 0 <= k < |t| ==> !IsCombiningMark(t[k])
    ensures StripMarks(t) == t
    decreases |t|
  {
    if |t| > 0 {
      StripFixed(t[1..]);
      assert [t[0]] + t[1..] == t;
    }
  }

  lemma LowerFixed(t: string)
    requires AllNormal(t)
    ensures ToLower(t) == t
  {
  }

  lemma FoldFixed(t: string)
    requires AllNormal(t)
    ensures FoldLetters(t) == t
  {
  }

  /** Normalizing normalized text changes nothing, so a normalized query can be normalized again. */
  lemma NormalizeIdempotent(s: string)
    ensures NormalizeText(NormalizeText(s)) == NormalizeText(s)
  {
    var t := NormalizeText(s);
    LowerFixed(t);
    NfdFixed(t);
    StripFixed(t);
    FoldFixed(t);
    TrimUntrimmed(t);
  }
}
