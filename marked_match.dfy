/**
 * What a highlighted label marks, against what the query matched. The match ranges index the
 * normalized text, which `normalizeText` has trimmed; the label applies them to the text as
 * shown. With leading white space the marks land that many characters too early (the program's
 * label, `ResultList.Label`), unless the ranges are moved past it first (`CorrectedLabel`).
 */
module MarkedMatch {
  import opened Wrappers
  import opened JsString
  import opened Subsequence
  import opened Highlight
  import opened MicrofuzzMatch
  import opened Normalize
  import opened HighlightOffset
  import ResultList

  /** Ranges into the normalized text, moved right past the leading white space of `text`. */
  function MovedRanges(text: string, ranges: seq<Run>): (r: seq<Run>)
    ensures |r| == |ranges|
  {
    Shift(ranges, LeadingWhitespace(text))
  }

  /** The title or URL span with the ranges moved, so that they mark the characters that matched. */
  function CorrectedLabel(query: string, text: string, ranges: Option<seq<Run>>): seq<Piece> {
    if query != "" && ranges.Some? then Highlighted(text, MovedRanges(text, ranges.value))
    else [Unmarked(text)]
  }

  /** Text without combining marks whose characters, normalized one by one and trimmed, are `t`. */
  lemma {:induction false} NormalizedIs(s: string, t: string)
    requires NoMarks(s) && Trim(NormChars(s)) == t
    ensures NormalizeText(s) == t
  {
    NormalizeTrims(s);
  }

  /** A trimmed text has no leading white space. */
  lemma {:induction false} TrimmedLeading(s: string)
    requires s == Trim(s)
    ensures LeadingWhitespace(s) == 0
  {
    LeadingUnique(s, 0);
  }

  /** A trimmed text without combining marks normalizes to its characters normalized one by one. */
  lemma {:induction false} TrimmedNormalizes(s: string)
    requires NoMarks(s) && s == Trim(s)
    ensures NormalizeText(s) == NormChars(s)
  {
    NormalizeTrims(s);
    var t := NormChars(s);
    if |s| > 0 {
      NormCharsAt(s);
      NormCharWhitespace(s[0]);
      NormCharWhitespace(s[|s| - 1]);
    }
    TrimUntrimmed(t);
  }

  /** " abc" normalizes to "abc". */
  lemma {:induction false} NormalizedTitle()
    ensures NormalizeText(" abc") == "abc"
  {
    assert NormChars(" abc") == " abc";
    assert LeadingWhitespace(" abc") == 1;
    assert TrailingWhitespace(" abc"[1..]) == 0;
    NormalizedIs(" abc", "abc");
  }

  /** "bc" normalizes to itself. */
  lemma {:induction false} NormalizedQuery()
    ensures NormalizeText("bc") == "bc"
  {
    assert NormChars("bc") == "bc";
    TrimUntrimmed("bc");
    NormalizedIs("bc", "bc");
  }

  /** "bc" first occurs in "abc" at 1. */
  lemma {:induction false} FoundAtOne()
    ensures IndexOf("abc", "bc") == 1
  {
    assert "abc"[1..3] == "bc";
    assert "abc"[0..2][0] != "bc"[0];
  }

  /** The substring rule: "bc" in "abc" at 1, after a space in the title as shown. */
  lemma {:induction false} MatchedAtOne(itemWords: set<string>, queryWords: seq<string>)
    ensures Match(" abc", "abc", itemWords, "bc", "bc", queryWords) == Some(FuzzyResult(1.0, Some([Run(1, 2)])))
  {
    FoundAtOne();
    assert CharAt(" abc", 0) == Some(' ');
  }

  /** A single run marks the characters it covers. */
  lemma {:induction false} MarkedRun(text: string, f: int, l: int)
    requires 0 <= f <= l < |text|
    ensures MarkedText(Highlighted(text, [Run(f, l)])) == text[f..l + 1]
  {
    var rs := [Run(f, l)];
    assert rs[..0] == [];
    HighlightedRoundTrip(text, rs);
  }

  /** Range [1, 2] applied to " abc" marks "ab". */
  lemma {:induction false} MarksAsWritten()
    ensures MarkedText(ResultList.Label("bc", " abc", Some([Run(1, 2)]))) == "ab"
  {
    MarkedRun(" abc", 1, 2);
    assert " abc"[1..3] == "ab";
  }

  /** The corrected label of one run marks the characters the run covers once moved. */
  lemma {:induction false} LabelOneRun(query: string, text: string, f: int, l: int)
    requires query != "" && 0 <= f <= l && l + LeadingWhitespace(text) < |text|
    ensures var a := LeadingWhitespace(text);
      MarkedText(CorrectedLabel(query, text, Some([Run(f, l)]))) == text[f + a..l + a + 1]
  {
    var a := LeadingWhitespace(text);
    ShiftAt([Run(f, l)], a);
    assert MovedRanges(text, [Run(f, l)]) == [Run(f + a, l + a)];
    assert CorrectedLabel(query, text, Some([Run(f, l)])) == Highlighted(text, [Run(f + a, l + a)]);
    MarkedRun(text, f + a, l + a);
  }

  /** " abc" has one leading space. */
  lemma {:induction false} OneLeadingSpace()
    ensures LeadingWhitespace(" abc") == 1
  {
    LeadingUnique(" abc", 1);
  }

  /** Range [1, 2] moved past the leading space of " abc" marks "bc". */
  lemma {:induction false} MarksMoved()
    ensures MarkedText(CorrectedLabel("bc", " abc", Some([Run(1, 2)]))) == "bc"
  {
    OneLeadingSpace();
    LabelOneRun("bc", " abc", 1, 2);
    assert " abc"[2..4] == "bc";
  }

  /**
   * Title " abc" and query "bc": the normalized title "abc" holds "bc" at 1, so the match
   * highlights range [1, 2]. Applied to the title as shown that range marks "ab"; moved past the
   * leading space it marks "bc".
   */
  lemma {:induction false} LeadingSpaceMarks(itemWords: set<string>, queryWords: seq<string>)
    ensures var m := Match(" abc", NormalizeText(" abc"), itemWords, "bc", NormalizeText("bc"), queryWords);
      && m == Some(FuzzyResult(1.0, Some([Run(1, 2)])))
      && MarkedText(ResultList.Label("bc", " abc", m.value.ranges)) == "ab"
      && MarkedText(CorrectedLabel("bc", " abc", m.value.ranges)) == "bc"
  {
    NormalizedTitle();
    NormalizedQuery();
    MatchedAtOne(itemWords, queryWords);
    MarksAsWritten();
    MarksMoved();
  }

  /**
   * For a trimmed query (line 72 of app.js trims it) and a text without combining marks, the
   * label built from a match's ranges shows the text, one mark per range, and the marked
   * characters normalize to the normalized query.
   */
  lemma {:induction false} MarksSpellQuery(item: string, itemWords: set<string>, query: string, queryWords: seq<string>,
                        score: real, rs: seq<Run>)
    requires NoMarks(item) && query == Trim(query) && |NormalizeText(query)| > 0
    requires Match(item, NormalizeText(item), itemWords, query, NormalizeText(query), queryWords)
             == Some(FuzzyResult(score, Some(rs)))
    ensures var shown := CorrectedLabel(query, item, Some(rs));
      && Content(shown) == item
      && MarkCount(shown) == |rs|
      && NormChars(MarkedText(shown)) == NormalizeText(query)
  {
    var ni, nq := NormalizeText(item), NormalizeText(query);
    assert query != "";
    if query == item {
      assert rs == [Run(0, |item| - 1)];
      WholeMarks(query, item);
    } else {
      MatchRangesSpell(item, ni, itemWords, query, nq, queryWords, rs);
      SpellMoved(item, ni, rs);
      ShownMoved(query, item, rs);
    }
  }

  /** When the query is the (trimmed) item itself, the one range marks all of it. */
  lemma {:induction false} WholeMarks(query: string, item: string)
    requires NoMarks(item) && item == Trim(item) && query == item && |item| > 0
    ensures var shown := CorrectedLabel(query, item, Some([Run(0, |item| - 1)]));
      && Content(shown) == item
      && MarkCount(shown) == 1
      && NormChars(MarkedText(shown)) == NormalizeText(query)
  {
    var rs := [Run(0, |item| - 1)];
    TrimmedLeading(item);
    TrimmedNormalizes(item);
    MovedNowhere(rs);
    SpellAll(item);
    HighlightedRoundTrip(item, rs);
  }

  /**
   * Ranges that spell out part of the normalized text, moved past the leading white space, lie
   * in the text and pick characters that normalize to what they spell.
   */
  lemma {:induction false} SpellMoved(item: string, ni: string, rs: seq<Run>)
    requires NoMarks(item) && ni == NormalizeText(item) && Separated(rs) && Within(rs, |ni|)
    ensures var moved := Shift(rs, LeadingWhitespace(item));
      && Separated(moved) && Within(moved, |item|)
      && NormChars(Spell(moved, item)) == Spell(rs, ni)
  {
    var a := LeadingWhitespace(item);
    NormalizedAt(item, a, ni);
    assert Spellable(rs, |ni|);
    SpellShift(rs, a, item, ni);
    assert Within(rs, |item| - a);
    ShiftKeeps(rs, a, |item| - a);
  }

  /** The corrected label of moved ranges inside the text: the text, one mark per range. */
  lemma {:induction false} ShownMoved(query: string, item: string, rs: seq<Run>)
    requires query != ""
    requires var moved := Shift(rs, LeadingWhitespace(item)); Separated(moved) && Within(moved, |item|)
    ensures var shown := CorrectedLabel(query, item, Some(rs));
      && Content(shown) == item
      && MarkCount(shown) == |rs|
      && MarkedText(shown) == Spell(Shift(rs, LeadingWhitespace(item)), item)
  {
    HighlightedRoundTrip(item, Shift(rs, LeadingWhitespace(item)));
  }

  /** Moving runs by nothing leaves them as they are. */
  lemma {:induction false} MovedNowhere(rs: seq<Run>)
    ensures Shift(rs, 0) == rs
  {
    ShiftAt(rs, 0);
  }

  /** The run over the whole of a non-empty text spells the text. */
  lemma {:induction false} SpellAll(s: string)
    requires |s| > 0
    ensures Separated([Run(0, |s| - 1)]) && Within([Run(0, |s| - 1)], |s|)
    ensures Spell([Run(0, |s| - 1)], s) == s
  {
    var rs := [Run(0, |s| - 1)];
    assert rs[..0] == [];
    assert s[0..|s|] == s;
  }
}
