/**
 * `matchesFuzzily` of microfuzz (microfuzz.bundle.js:20-100): the first-rule-wins cascade that
 * decides whether one text matches the query, with what score (lower is better) and which
 * inclusive index ranges to highlight.
 */
module MicrofuzzMatch {
  import opened Wrappers
  import opened JsString
  import opened Subsequence
  import Normalize

  /** The word-boundary characters of microfuzz.bundle.js:24: space, no-break space, brackets,
      parentheses, hyphen, en and em dash, straight and curly double quotes, apostrophe. */
  const WordBoundaries: set<char> :=
    {' ', '\U{00A0}', '[', ']', '(', ')', '-', '\U{2013}', '\U{2014}', '\'', '"', '\U{201C}', '\U{201D}'}

  /** isValidWordBoundary; `undefined` is not in the set. */
  predicate IsValidWordBoundary(c: Option<char>) {
    c.Some? && c.value in WordBoundaries
  }

  /** A match: its score and its highlight ranges, `None` for the all-words rule (`[1.5, null]`). */
  datatype FuzzyResult = FuzzyResult(score: real, ranges: Option<seq<Run>>)

  /** The words of the query are all words of the item (an empty query word is skipped). */
  predicate WordsMatch(queryWords: seq<string>, itemWords: set<string>) {
    forall k :: 0 <= k < |queryWords| ==> queryWords[k] == "" || queryWords[k] in itemWords
  }

  /**
   * What one more hit at position `p` of the normalized item takes off the score, after the
   * hits `before` (lines 67-78). The word-boundary test reads the ORIGINAL item at the
   * NORMALIZED position `p - 1`, as the source does.
   */
  function HitDeduction(item: string, before: seq<int>, p: int): real {
    (if p == LastOr(before, -1) + 1 then 0.025 + RMin(Streak(before + [p]) as real * 0.01, 0.01) else 0.0)
    + (if p <= 2 then (2 - p) as real * 0.03 else 0.0)
    + (if p == 0 || IsValidWordBoundary(CharAt(item, p - 1)) then 0.1 else 0.0)
  }

  function Deductions(item: string, hits: seq<int>): real {
    if |hits| == 0 then 0.0
    else Deductions(item, hits[..|hits| - 1]) + HitDeduction(item, hits[..|hits| - 1], hits[|hits| - 1])
  }

  /** The position of the hit before the last one, -1 when there is none (`prevItemIndex`). */
  function PrevLast(hits: seq<int>): int {
    if |hits| == 0 then -1 else LastOr(hits[..|hits| - 1], -1)
  }

  /** Line 92: 0.01 for every highlighted chunk after the first. */
  function ChunkPenalty(hits: seq<int>): real {
    RMax(0.0, (|Runs(hits)| - 1) as real) * 0.01
  }

  /** Line 93: 0.0001 per unmatched position between the LAST TWO hits only. */
  function GapPenalty(hits: seq<int>): real {
    RMax(0.0, (LastOr(hits, -1) - PrevLast(hits) - 1) as real) * 0.0001
  }

  /** Lines 95-96: 0.01 off when the first highlighted position is less than 4 before the last hit. */
  function ShortBonus(hits: seq<int>): real {
    var itemIndex := LastOr(hits, -1);
    var firstStart := if |Runs(hits)| > 0 then Runs(hits)[0].first else itemIndex;
    if itemIndex - firstStart < 4 then 0.01 else 0.0
  }

  /** The score of a successful subsequence scan with the given hits (lines 39 and 67-96). */
  function FallbackScore(item: string, hits: seq<int>): real {
    3.0 - Deductions(item, hits) + ChunkPenalty(hits) + GapPenalty(hits) - ShortBonus(hits)
  }

  /** The outcome of the subsequence scan (rule 6): no match unless the whole query was consumed. */
  function Fallback(item: string, normalizedItem: string, normalizedQuery: string): Option<FuzzyResult> {
    var hits := GreedyHits(normalizedQuery, normalizedItem, 0, 0);
    if |hits| != |normalizedQuery| then None
    else Some(FuzzyResult(FallbackScore(item, hits), Some(Runs(hits))))
  }

  /** The rules of lines 28-55 that come before the scan all failed. */
  predicate ReachesScan(item: string, normalizedItem: string, itemWords: set<string>,
                        query: string, normalizedQuery: string, queryWords: seq<string>) {
    && query != item
    && normalizedItem != normalizedQuery
    && !(normalizedQuery <= normalizedItem)
    && IndexOf(normalizedItem, normalizedQuery) == -1
    && !(|queryWords| > 1 && WordsMatch(queryWords, itemWords))
  }

  /** The whole cascade, first rule wins; `None` is the source's `null` (no match). */
  function Match(item: string, normalizedItem: string, itemWords: set<string>,
                 query: string, normalizedQuery: string, queryWords: seq<string>): Option<FuzzyResult>
  {
    if query == item then Some(FuzzyResult(0.0, Some([Run(0, |item| - 1)])))
    else if normalizedItem == normalizedQuery then Some(FuzzyResult(0.1, Some([Run(0, |normalizedItem| - 1)])))
    else if normalizedQuery <= normalizedItem then Some(FuzzyResult(0.5, Some([Run(0, |normalizedQuery| - 1)])))
    else
      var index := IndexOf(normalizedItem, normalizedQuery);
      if index != -1 then
        var startsWithWord := index == 0 || IsValidWordBoundary(CharAt(item, index - 1));
        Some(FuzzyResult(if startsWithWord then 1.0 else 2.0, Some([Run(index, index + |normalizedQuery| - 1)])))
      else if |queryWords| > 1 && WordsMatch(queryWords, itemWords) then Some(FuzzyResult(1.5, None))
      else Fallback(item, normalizedItem, normalizedQuery)
  }

  /** How the scan's bookkeeping functions move on by one hit at `p`. */
  lemma HitStep(item: string, before: seq<int>, p: int)
    ensures var h := before + [p];
      && h[..|h| - 1] == before
      && LastOr(h, -1) == p && PrevLast(h) == LastOr(before, -1)
      && Streak(h) == (if p == LastOr(before, -1) + 1 then Streak(before) + 1 else 0)
      && Deductions(item, h) == Deductions(item, before) + HitDeduction(item, before, p)
      && Runs(h) == (if |before| > 0 && p == before[|before| - 1] + 1
                     then Runs(before)[..|Runs(before)| - 1] + [Run(Runs(before)[|Runs(before)| - 1].first, p)]
                     else Runs(before) + [Run(p, p)])
  {
    var h := before + [p];
    assert h[..|h| - 1] == before;
  }

  /** matchesFuzzily, step by step as the source runs it (lines 20-100). */
  method MatchesFuzzily(item: string, normalizedItem: string, itemWords: set<string>,
                        query: string, normalizedQuery: string, queryWords: seq<string>)
    returns (r: Option<FuzzyResult>)
    ensures r == Match(item, normalizedItem, itemWords, query, normalizedQuery, queryWords)
  {
    if query == item {
      return Some(FuzzyResult(0.0, Some([Run(0, |item| - 1)])));
    }
    var normalizedItemLen := |normalizedItem|;
    var normalizedQueryLen := |normalizedQuery|;
    if normalizedItem == normalizedQuery {
      return Some(FuzzyResult(0.1, Some([Run(0, normalizedItemLen - 1)])));
    }
    if normalizedQuery <= normalizedItem {
      return Some(FuzzyResult(0.5, Some([Run(0, normalizedQueryLen - 1)])));
    }
    var index := IndexOf(normalizedItem, normalizedQuery);
    if index != -1 {
      var startsWithWord := index == 0 || IsValidWordBoundary(CharAt(item, index - 1));
      return Some(FuzzyResult(if startsWithWord then 1.0 else 2.0, Some([Run(index, index + normalizedQueryLen - 1)])));
    }
    if |queryWords| > 1 {
      var wordsMatch := true;
      var w := 0;
      while w < |queryWords|
        invariant 0 <= w <= |queryWords|
        invariant wordsMatch
        invariant forall k :: 0 <= k < w ==> queryWords[k] == "" || queryWords[k] in itemWords
      {
        var word := queryWords[w];
        if word != "" && word !in itemWords {
          wordsMatch := false;
          break;
        }
        w := w + 1;
      }
      assert wordsMatch <==> WordsMatch(queryWords, itemWords);
      if wordsMatch {
        return Some(FuzzyResult(1.5, None));
      }
    }
    r := Scan(item, normalizedItem, normalizedQuery);
  }

  /** The scan's variables agree with the hits found so far. */
  ghost predicate Tracks(item: string, hits: seq<int>, itemIndex: int, prevItemIndex: int,
                         consecutive: nat, score: real, highlightRanges: seq<Run>) {
    && itemIndex == LastOr(hits, -1) && prevItemIndex == PrevLast(hits)
    && consecutive == Streak(hits)
    && score == 3.0 - Deductions(item, hits)
    && highlightRanges == Runs(hits)
  }

  /** The open range is the last highlight range, and it is open exactly when the previous position was a hit. */
  ghost predicate OpenRange(hits: seq<int>, i: int, current: Option<Run>, highlightRanges: seq<Run>) {
    && (current.Some? <==> |hits| > 0 && hits[|hits| - 1] == i - 1)
    && (current.Some? ==> |highlightRanges| > 0 && current.value == highlightRanges[|highlightRanges| - 1])
  }

  /**
   * The character-by-character scan of lines 57-100. The highlight range that the source
   * keeps open (`currentHighlightRange`) is the same array object as the last element of
   * `highlightRanges`, so writing its end index changes that element: here `current` is
   * always equal to the last range, and extending it rewrites that last element.
   */
  method Scan(item: string, normalizedItem: string, normalizedQuery: string) returns (r: Option<FuzzyResult>)
    ensures r == Fallback(item, normalizedItem, normalizedQuery)
  {
    var normalizedItemLen := |normalizedItem|;
    var normalizedQueryLen := |normalizedQuery|;
    var score: real := 3.0;
    var itemIndex := -1;
    var prevItemIndex := -1;
    var highlightRanges: seq<Run> := [];
    var current: Option<Run> := None;
    var i := 0;
    var j := 0;
    var consecutive := 0;
    ghost var hits: seq<int> := [];
    ghost var whole := GreedyHits(normalizedQuery, normalizedItem, 0, 0);
    while i < normalizedItemLen && j < normalizedQueryLen
      invariant 0 <= i <= normalizedItemLen && j == |hits| <= normalizedQueryLen
      invariant hits + GreedyHits(normalizedQuery, normalizedItem, i, j) == whole
      invariant |hits| > 0 ==> hits[|hits| - 1] < i
      invariant Tracks(item, hits, itemIndex, prevItemIndex, consecutive, score, highlightRanges)
      invariant OpenRange(hits, i, current, highlightRanges)
      decreases normalizedItemLen - i
    {
      var itemChar := normalizedItem[i];
      var queryChar := normalizedQuery[j];
      if itemChar == queryChar {
        GreedyStep(normalizedQuery, normalizedItem, i, j, hits, whole);
        current, highlightRanges, consecutive, score, prevItemIndex, itemIndex :=
          RecordHit(item, hits, i, current, highlightRanges, consecutive, score, itemIndex, prevItemIndex);
        hits := hits + [i];
        i := i + 1;
        j := j + 1;
      } else {
        GreedyStep(normalizedQuery, normalizedItem, i, j, hits, whole);
        if current.Some? {
          current := None;
        }
        i := i + 1;
      }
    }

    assert hits == whole;
    if j != normalizedQueryLen {
      return None;
    }
    score := FinalScore(item, hits, score, highlightRanges, itemIndex, prevItemIndex, consecutive);
    // highlightRanges.sort(sortRangeTuple) leaves the ranges as they are: they are already
    // ascending (FallbackShape).
    return Some(FuzzyResult(score, Some(highlightRanges)));
  }

  /**
   * Lines 60-84 for a hit at position `i` after the hits `before`: the open highlight range is
   * extended (or a new one opened), the streak counter moves on and the three deductions are
   * taken off the score.
   */
  method RecordHit(item: string, ghost before: seq<int>, i: int, current: Option<Run>, highlightRanges: seq<Run>,
                   consecutive: nat, score: real, itemIndex: int, prevItemIndex: int)
    returns (current': Option<Run>, highlightRanges': seq<Run>, consecutive': nat, score': real,
             prevItemIndex': int, itemIndex': int)
    requires |before| > 0 ==> before[|before| - 1] < i
    requires Tracks(item, before, itemIndex, prevItemIndex, consecutive, score, highlightRanges)
    requires OpenRange(before, i, current, highlightRanges)
    ensures Tracks(item, before + [i], itemIndex', prevItemIndex', consecutive', score', highlightRanges')
    ensures OpenRange(before + [i], i + 1, current', highlightRanges')
  {
    HitStep(item, before, i);
    if current.Some? {
      current' := Some(Run(current.value.first, i));
      highlightRanges' := highlightRanges[..|highlightRanges| - 1] + [current'.value];
    } else {
      current' := Some(Run(i, i));
      highlightRanges' := highlightRanges + [current'.value];
    }
    score' := score;
    if i == itemIndex + 1 {
      consecutive' := consecutive + 1;
      score' := score' - (0.025 + RMin(consecutive' as real * 0.01, 0.01));
    } else {
      consecutive' := 0;
    }
    if i <= 2 {
      score' := score' - (2 - i) as real * 0.03;
    }
    if i == 0 || IsValidWordBoundary(CharAt(item, i - 1)) {
      score' := score' - 0.1;
    }
    prevItemIndex' := itemIndex;
    itemIndex' := i;
  }

  /** Lines 92-96: the chunk and gap penalties and the short-match bonus, added to the score of the scan. */
  method FinalScore(item: string, ghost hits: seq<int>, score: real, highlightRanges: seq<Run>,
                    itemIndex: int, prevItemIndex: int, ghost consecutive: nat) returns (finalScore: real)
    requires Tracks(item, hits, itemIndex, prevItemIndex, consecutive, score, highlightRanges)
    ensures finalScore == FallbackScore(item, hits)
  {
    finalScore := score;
    var chunkCount := |highlightRanges|;
    finalScore := finalScore + RMax(0.0, (chunkCount - 1) as real) * 0.01;
    finalScore := finalScore + RMax(0.0, (itemIndex - prevItemIndex - 1) as real) * 0.0001;
    var isShortMatch := itemIndex - (if |highlightRanges| > 0 then highlightRanges[0].first else itemIndex) < 4;
    if isShortMatch {
      finalScore := finalScore - 0.01;
    }
  }

  /**
   * A successful scan highlights ascending runs, each separated from the next by at least one
   * unmatched position, inside the normalized item, covering exactly as many positions as the
   * normalized query has characters and spelling that query in order. In particular the sort of
   * line 98 finds them already in order.
   */
  lemma FallbackShape(item: string, normalizedItem: string, normalizedQuery: string)
    requires Fallback(item, normalizedItem, normalizedQuery).Some?
    ensures var rs := Fallback(item, normalizedItem, normalizedQuery).value.ranges;
      && rs.Some?
      && Separated(rs.value) && Within(rs.value, |normalizedItem|)
      && Size(rs.value) == |normalizedQuery|
      && Spell(rs.value, normalizedItem) == normalizedQuery
  {
    var hits := GreedyHits(normalizedQuery, normalizedItem, 0, 0);
    GreedySound(normalizedQuery, normalizedItem, 0, 0);
    RunsShape(hits);
    RunsSpell(hits, normalizedItem);
    assert Picked(hits, normalizedItem) == normalizedQuery;
  }

  /**
   * Whatever rule produced them, highlight ranges of a non-empty normalized query (when the raw
   * query is not the item itself) are separated runs inside the normalized item that spell the
   * normalized query: the prefix and substring rules highlight one run, the scan several.
   */
  lemma MatchRangesSpell(item: string, normalizedItem: string, itemWords: set<string>,
                         query: string, normalizedQuery: string, queryWords: seq<string>, rs: seq<Run>)
    requires query != item && |normalizedQuery| > 0
    requires Match(item, normalizedItem, itemWords, query, normalizedQuery, queryWords).Some?
    requires Match(item, normalizedItem, itemWords, query, normalizedQuery, queryWords).value.ranges == Some(rs)
    ensures Separated(rs) && Within(rs, |normalizedItem|)
    ensures Size(rs) == |normalizedQuery| && Spell(rs, normalizedItem) == normalizedQuery
  {
    var n := |normalizedQuery|;
    if normalizedItem == normalizedQuery {
      assert rs == [Run(0, n - 1)];
      SingleRun(normalizedItem, 0, n);
      assert normalizedItem[0..n] == normalizedQuery;
    } else if normalizedQuery <= normalizedItem {
      assert rs == [Run(0, n - 1)];
      SingleRun(normalizedItem, 0, n);
      assert normalizedItem[0..n] == normalizedQuery;
    } else if IndexOf(normalizedItem, normalizedQuery) != -1 {
      var k := IndexOf(normalizedItem, normalizedQuery);
      assert rs == [Run(k, k + n - 1)];
      assert OccursAt(normalizedItem, normalizedQuery, k);
      SingleRun(normalizedItem, k, n);
    } else {
      assert Match(item, normalizedItem, itemWords, query, normalizedQuery, queryWords)
          == Fallback(item, normalizedItem, normalizedQuery);
      FallbackShape(item, normalizedItem, normalizedQuery);
    }
  }

  /** The single run `[k, k + n - 1]` of `s` covers `n` positions and spells `s[k..k + n]`. */
  lemma SingleRun(s: string, k: int, n: int)
    requires 0 <= k && 0 < n && k + n <= |s|
    ensures var rs := [Run(k, k + n - 1)];
      Separated(rs) && Within(rs, |s|) && Size(rs) == n && Spell(rs, s) == s[k..k + n]
  {
    var rs := [Run(k, k + n - 1)];
    assert rs[..|rs| - 1] == [];
    assert Within(rs, |s|);
    assert Size(rs) == Size([]) + n;
    assert Spell(rs, s) == Spell([], s) + s[k..k + n];
  }

  /**
   * With an empty normalized query (and a raw query other than the item), the normalized-equality
   * rule fires for an empty normalized item and the prefix rule for any other: every text matches.
   */
  lemma EmptyQueryMatches(item: string, normalizedItem: string, itemWords: set<string>,
                          query: string, queryWords: seq<string>)
    requires query != item
    ensures Match(item, normalizedItem, itemWords, query, "", queryWords)
         == Some(FuzzyResult(if normalizedItem == "" then 0.1 else 0.5, Some([Run(0, -1)])))
  {
  }

  /**
   * For texts and queries prepared as the search prepares them (lines 126-128 and 135-136),
   * there is no match exactly when the normalized query is not a subsequence of the normalized
   * item and the all-words rule does not apply. The greedy scan is complete: it never misses a
   * subsequence, and the rules before it only fire on subsequences.
   */
  lemma MatchNoneIff(item: string, query: string)
    ensures var normalizedItem := Normalize.NormalizeText(item);
      var normalizedQuery := Normalize.NormalizeText(query);
      var itemWords := set w | w in Split(normalizedItem, ' ');
      var queryWords := Split(normalizedQuery, ' ');
      Match(item, normalizedItem, itemWords, query, normalizedQuery, queryWords).None?
      <==> !IsSubsequence(normalizedQuery, normalizedItem) && !(|queryWords| > 1 && WordsMatch(queryWords, itemWords))
  {
    var normalizedItem := Normalize.NormalizeText(item);
    var normalizedQuery := Normalize.NormalizeText(query);
    var itemWords := set w | w in Split(normalizedItem, ' ');
    var queryWords := Split(normalizedQuery, ' ');
    MatchNoneIffPrepared(item, normalizedItem, itemWords, query, normalizedQuery, queryWords);
  }

  /** MatchNoneIff for any normalized forms that agree when the raw strings do. */
  lemma MatchNoneIffPrepared(item: string, normalizedItem: string, itemWords: set<string>,
                             query: string, normalizedQuery: string, queryWords: seq<string>)
    requires query == item ==> normalizedQuery == normalizedItem
    ensures Match(item, normalizedItem, itemWords, query, normalizedQuery, queryWords).None?
      <==> !IsSubsequence(normalizedQuery, normalizedItem) && !(|queryWords| > 1 && WordsMatch(queryWords, itemWords))
  {
    var m := Match(item, normalizedItem, itemWords, query, normalizedQuery, queryWords);
    GreedyIffSubsequence(normalizedQuery, normalizedItem);
    if query == item || normalizedItem == normalizedQuery || normalizedQuery <= normalizedItem {
      assert m.Some?;
      assert normalizedItem[0..|normalizedQuery|] == normalizedQuery;
      ContiguousSubsequence(normalizedQuery, normalizedItem, 0);
    } else {
      var index := IndexOf(normalizedItem, normalizedQuery);
      if index != -1 {
        assert m.Some?;
        ContiguousSubsequence(normalizedQuery, normalizedItem, index);
      } else if |queryWords| > 1 && WordsMatch(queryWords, itemWords) {
        assert m.Some?;
      } else {
        assert m == Fallback(item, normalizedItem, normalizedQuery);
      }
    }
  }
}
