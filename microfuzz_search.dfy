/**
 * The search side of microfuzz (microfuzz.bundle.js:102-163): texts are prepared once per
 * element, then each search runs `matchesFuzzily` on every text of every element, keeps per
 * element the best (lowest) score and the per-text highlight ranges, drops the elements that
 * matched nowhere and sorts the rest by ascending score.
 */
module MicrofuzzSearch {
  import opened Wrappers
  import opened JsString
  import opened Subsequence
  import Normalize
  import opened MicrofuzzMatch
  import opened StableSort
  import opened Filtering

  /** A text prepared for matching (lines 125-130): the original, its normal form, its words. */
  datatype PreparedText = PreparedText(original: string, normalized: string, words: set<string>)

  /** An element of the collection with its prepared texts (line 131). */
  datatype Entry<T> = Entry(element: T, texts: seq<PreparedText>)

  /** One search result (line 157); a `None` in `matches` is the source's `null`. */
  datatype SearchResult<T> = SearchResult(item: T, score: real, matches: seq<Option<seq<Run>>>)

  /** The result of `fuzzyMatch` on a single text (line 109). */
  datatype TextMatch = TextMatch(item: string, score: real, matches: seq<Option<seq<Run>>>)

  /** `new Set(s.split(' '))`. */
  function WordSet(s: string): (ws: set<string>)
    ensures forall w :: w in ws <==> w in Split(s, ' ')
  {
    set w | w in Split(s, ' ')
  }

  /** The empty text has one word, the empty one. */
  lemma WordSetEmpty()
    ensures WordSet("") == {""}
  {
    assert Split("", ' ') == [""];
  }

  /** Lines 126-129; a missing (`null` or `undefined`) text is prepared as the empty string. */
  function Prepare(text: Option<string>): (p: PreparedText)
    ensures text.None? ==> p == PreparedText("", "", {""})
    ensures text.Some? ==> p.original == text.value
    ensures p.normalized == Normalize.NormalizeText(p.original) && p.words == WordSet(p.normalized)
    ensures forall w :: w in p.words ==> ' ' !in w && exists k :: OccursAt(p.normalized, w, k)
  {
    var original := if text.Some? then text.value else "";
    var normalized := Normalize.NormalizeText(original);
    SplitPiecesOccur(normalized, ' ');
    WordSetEmpty();
    PreparedText(original, normalized, WordSet(normalized))
  }

  /** `fuzzyMatch(text, query)` (lines 102-112): one text, prepared as the search prepares it. */
  function FuzzyMatchText(text: string, query: string): (r: Option<TextMatch>)
    ensures var normalizedText := Normalize.NormalizeText(text);
      var queryWords := Split(Normalize.NormalizeText(query), ' ');
      r.None? <==> !IsSubsequence(Normalize.NormalizeText(query), normalizedText)
                   && !(|queryWords| > 1 && WordsMatch(queryWords, WordSet(normalizedText)))
    ensures r.Some? ==> r.value.item == text && |r.value.matches| == 1
  {
    var normalizedQuery := Normalize.NormalizeText(query);
    var normalizedText := Normalize.NormalizeText(text);
    MatchNoneIff(text, query);
    var m := Match(text, normalizedText, WordSet(normalizedText), query, normalizedQuery, Split(normalizedQuery, ' '));
    if m.Some? then Some(TextMatch(text, m.value.score, [m.value.ranges])) else None
  }

  /** The collection preprocessed (lines 117-132); `getText` gives the texts of an element. */
  function CreateFuzzySearch<T>(collection: seq<T>, getText: T -> seq<Option<string>>): (entries: seq<Entry<T>>)
    ensures |entries| == |collection|
    ensures forall i :: 0 <= i < |entries| ==>
      entries[i].element == collection[i] && |entries[i].texts| == |getText(collection[i])|
      && forall t :: 0 <= t < |entries[i].texts| ==> entries[i].texts[t] == Prepare(getText(collection[i])[t])
  {
    seq(|collection|, i requires 0 <= i < |collection| =>
      var texts := getText(collection[i]);
      Entry(collection[i], seq(|texts|, t requires 0 <= t < |texts| => Prepare(texts[t]))))
  }

  /** What `matchesFuzzily` answers for each text of an element (line 147). */
  function Outcomes(texts: seq<PreparedText>, query: string): (outcomes: seq<Option<FuzzyResult>>)
    ensures |outcomes| == |texts|
  {
    Mapped(texts, OutcomeFn(query))
  }

  function OutcomeFn(query: string): PreparedText -> Option<FuzzyResult> {
    text => OutcomeOf(text, query)
  }

  lemma OutcomesAt(texts: seq<PreparedText>, query: string)
    ensures forall t :: 0 <= t < |texts| ==> Outcomes(texts, query)[t] == OutcomeOf(texts[t], query)
  {
  }

  function OutcomeOf(text: PreparedText, query: string): Option<FuzzyResult> {
    var normalizedQuery := Normalize.NormalizeText(query);
    Match(text.original, text.normalized, text.words, query, normalizedQuery, Split(normalizedQuery, ' '))
  }

  /** The lowest score among the matches, the first one on ties; `None` when nothing matched (lines 141-155). */
  function BestScore(outcomes: seq<Option<FuzzyResult>>): Option<real> {
    if |outcomes| == 0 then None
    else
      var best := BestScore(outcomes[..|outcomes| - 1]);
      var last := outcomes[|outcomes| - 1];
      if last.Some? && (best.None? || last.value.score < best.value) then Some(last.value.score) else best
  }

  /** `matches[t]`: the ranges of a match, `null` for no match or for a match without ranges (lines 151-153). */
  function MatchesOf(outcomes: seq<Option<FuzzyResult>>): seq<Option<seq<Run>>> {
    seq(|outcomes|, t requires 0 <= t < |outcomes| => if outcomes[t].Some? then outcomes[t].value.ranges else None)
  }

  /** The result for one element, if any of its texts matched (lines 156-158). */
  function ResultOf<T>(entry: Entry<T>, query: string): Option<SearchResult<T>> {
    var outcomes := Outcomes(entry.texts, query);
    var best := BestScore(outcomes);
    if best.Some? then Some(SearchResult(entry.element, best.value, MatchesOf(outcomes))) else None
  }

  /** The result for one element, from its best score and its matches. */
  lemma ResultFromTexts<T>(entry: Entry<T>, query: string, bestScore: Option<real>, matches: seq<Option<seq<Run>>>)
    requires bestScore == BestScore(Outcomes(entry.texts, query))
    requires matches == MatchesOf(Outcomes(entry.texts, query))
    ensures ResultOf(entry, query) == if bestScore.Some? then Some(SearchResult(entry.element, bestScore.value, matches)) else None
  {
  }

  /** The result of every element, in collection order. */
  function ResultsOf<T>(entries: seq<Entry<T>>, query: string): (rs: seq<Option<SearchResult<T>>>)
    ensures |rs| == |entries|
  {
    Mapped(entries, ResultFn(query))
  }

  function ResultFn<T>(query: string): Entry<T> -> Option<SearchResult<T>> {
    entry => ResultOf(entry, query)
  }

  /** The results pushed by the loop of lines 138-159, in collection order, before the sort. */
  function Collected<T>(entries: seq<Entry<T>>, query: string): seq<SearchResult<T>> {
    Present(ResultsOf(entries, query))
  }

  function ScoreOf<T>(r: SearchResult<T>): real {
    r.score
  }

  /** One more element for the loop of lines 138-159: its result is pushed when one of its texts matched. */
  lemma CollectedStep<T>(entries: seq<Entry<T>>, idx: int, query: string, bestScore: Option<real>, matches: seq<Option<seq<Run>>>)
    requires 0 <= idx < |entries|
    requires bestScore == BestScore(Outcomes(entries[idx].texts, query))
    requires matches == MatchesOf(Outcomes(entries[idx].texts, query))
    ensures Collected(entries[..idx + 1], query) == Collected(entries[..idx], query)
      + (if bestScore.Some? then [SearchResult(entries[idx].element, bestScore.value, matches)] else [])
  {
    ResultFromTexts(entries[idx], query, bestScore, matches);
    MappedSnoc(entries, idx, ResultFn(query));
    PresentSnoc(ResultsOf(entries[..idx], query), ResultOf(entries[idx], query));
  }

  /** The search closure of lines 134-162. */
  method Search<T>(entries: seq<Entry<T>>, queryText: string) returns (results: seq<SearchResult<T>>)
    ensures results == Sort(Collected(entries, queryText), ScoreOf)
  {
    var normalizedQuery := Normalize.NormalizeText(queryText);
    var queryWords := Split(normalizedQuery, ' ');
    results := [];
    var idx := 0;
    while idx < |entries|
      invariant 0 <= idx <= |entries|
      invariant results == Collected(entries[..idx], queryText)
    {
      var element := entries[idx].element;
      var bestScore, matches := MatchTexts(entries[idx].texts, queryText, normalizedQuery, queryWords);
      CollectedStep(entries, idx, queryText, bestScore, matches);
      if bestScore.Some? {
        results := results + [SearchResult(element, bestScore.value, matches)];
      }
      idx := idx + 1;
    }
    assert entries[..idx] == entries;
    results := Sort(results, ScoreOf);
  }

  /** The inner loop of lines 141-155 over the texts of one element. */
  method MatchTexts(texts: seq<PreparedText>, queryText: string, normalizedQuery: string, queryWords: seq<string>)
    returns (bestScore: Option<real>, matches: seq<Option<seq<Run>>>)
    requires normalizedQuery == Normalize.NormalizeText(queryText) && queryWords == Split(normalizedQuery, ' ')
    ensures bestScore == BestScore(Outcomes(texts, queryText))
    ensures matches == MatchesOf(Outcomes(texts, queryText))
  {
    bestScore := None;
    matches := [];
    ghost var outcomes: seq<Option<FuzzyResult>> := [];
    var t := 0;
    while t < |texts|
      invariant 0 <= t <= |texts|
      invariant outcomes == Outcomes(texts[..t], queryText)
      invariant bestScore == BestScore(outcomes) && matches == MatchesOf(outcomes)
    {
      var m := MatchesFuzzily(texts[t].original, texts[t].normalized, texts[t].words, queryText, normalizedQuery, queryWords);
      OutcomesSnoc(texts, t, queryText);
      OutcomeStep(outcomes, m);
      outcomes := outcomes + [m];
      if m.Some? {
        var score := m.value.score;
        if bestScore.None? || score < bestScore.value {
          bestScore := Some(score);
        }
        matches := matches + [m.value.ranges];
      } else {
        matches := matches + [None];
      }
      t := t + 1;
    }
    assert texts[..t] == texts;
  }

  /** How the best score and the matches move on by one more outcome. */
  lemma OutcomeStep(outcomes: seq<Option<FuzzyResult>>, m: Option<FuzzyResult>)
    ensures var o := outcomes + [m];
      && BestScore(o) == (if m.Some? && (BestScore(outcomes).None? || m.value.score < BestScore(outcomes).value)
                          then Some(m.value.score) else BestScore(outcomes))
      && MatchesOf(o) == MatchesOf(outcomes) + [if m.Some? then m.value.ranges else None]
  {
    assert (outcomes + [m])[..|outcomes|] == outcomes;
  }

  lemma OutcomesSnoc(texts: seq<PreparedText>, t: int, query: string)
    requires 0 <= t < |texts|
    ensures Outcomes(texts[..t + 1], query) == Outcomes(texts[..t], query) + [OutcomeOf(texts[t], query)]
  {
    MappedSnoc(texts, t, OutcomeFn(query));
  }

  /** The best score exists exactly when some text matched; it is the lowest score of a match. */
  lemma {:induction false} BestScoreIsMinimum(outcomes: seq<Option<FuzzyResult>>)
    ensures BestScore(outcomes).Some? <==> exists t :: 0 <= t < |outcomes| && outcomes[t].Some?
    ensures BestScore(outcomes).Some? ==>
      && (exists t :: 0 <= t < |outcomes| && outcomes[t].Some? && outcomes[t].value.score == BestScore(outcomes).value)
      && forall t :: 0 <= t < |outcomes| && outcomes[t].Some? ==> BestScore(outcomes).value <= outcomes[t].value.score
  {
    if |outcomes| > 0 {
      var init := outcomes[..|outcomes| - 1];
      BestScoreIsMinimum(init);
      assert forall t :: 0 <= t < |init| ==> init[t] == outcomes[t];
      var best := BestScore(outcomes);
      if best.Some? {
        forall t | 0 <= t < |outcomes| && outcomes[t].Some?
          ensures best.value <= outcomes[t].value.score
        {
          if t < |init| {
            assert init[t].Some?;
          }
        }
      }
    }
  }

  /**
   * An element is in the results exactly when one of its texts matched; its score is the lowest
   * score over its matched texts, and `matches` has one entry per text, the ranges of that
   * text's match or `None`.
   */
  lemma ResultOfSpec<T>(entry: Entry<T>, query: string)
    ensures var r := ResultOf(entry, query);
      r.Some? <==> exists t :: 0 <= t < |entry.texts| && OutcomeOf(entry.texts[t], query).Some?
    ensures var r := ResultOf(entry, query);
      r.Some? ==>
        && r.value.item == entry.element
        && (exists t :: 0 <= t < |entry.texts| && OutcomeOf(entry.texts[t], query).Some?
                        && OutcomeOf(entry.texts[t], query).value.score == r.value.score)
        && (forall t :: 0 <= t < |entry.texts| && OutcomeOf(entry.texts[t], query).Some?
                        ==> r.value.score <= OutcomeOf(entry.texts[t], query).value.score)
        && |r.value.matches| == |entry.texts|
        && forall t :: 0 <= t < |entry.texts| ==>
             r.value.matches[t] == (if OutcomeOf(entry.texts[t], query).Some? then OutcomeOf(entry.texts[t], query).value.ranges else None)
  {
    var outcomes := Outcomes(entry.texts, query);
    BestScoreIsMinimum(outcomes);
    OutcomesAt(entry.texts, query);
  }

  /**
   * For prepared texts, an element is kept exactly when, for one of its texts, the normalized
   * query is a subsequence of the normalized text or the all-words rule applies.
   */
  lemma ElementKeptIff<T>(entry: Entry<T>, query: string)
    requires forall t :: 0 <= t < |entry.texts| ==> entry.texts[t].normalized == Normalize.NormalizeText(entry.texts[t].original)
    ensures var normalizedQuery := Normalize.NormalizeText(query);
      var queryWords := Split(normalizedQuery, ' ');
      ResultOf(entry, query).Some? <==>
        exists t :: 0 <= t < |entry.texts| &&
          (IsSubsequence(normalizedQuery, entry.texts[t].normalized)
           || (|queryWords| > 1 && WordsMatch(queryWords, entry.texts[t].words)))
  {
    var normalizedQuery := Normalize.NormalizeText(query);
    var queryWords := Split(normalizedQuery, ' ');
    ResultOfSpec(entry, query);
    forall t | 0 <= t < |entry.texts|
      ensures OutcomeOf(entry.texts[t], query).Some? <==>
        (IsSubsequence(normalizedQuery, entry.texts[t].normalized)
         || (|queryWords| > 1 && WordsMatch(queryWords, entry.texts[t].words)))
    {
      var text := entry.texts[t];
      MatchNoneIffPrepared(text.original, text.normalized, text.words, query, normalizedQuery, queryWords);
    }
  }

  lemma ResultsAt<T>(entries: seq<Entry<T>>, query: string)
    ensures forall i :: 0 <= i < |entries| ==> ResultsOf(entries, query)[i] == ResultOf(entries[i], query)
  {
  }

  /**
   * Before the sort, the results are exactly the results of the elements that have one, in
   * collection order: `kept` lists those elements' positions, ascending.
   */
  lemma CollectedInOrder<T>(entries: seq<Entry<T>>, query: string)
    ensures var kept := PresentAt(ResultsOf(entries, query));
      && |Collected(entries, query)| == |kept|
      && StrictlyIncreasing(kept)
      && (forall k :: 0 <= k < |kept| ==>
            0 <= kept[k] < |entries| && ResultOf(entries[kept[k]], query) == Some(Collected(entries, query)[k]))
      && (forall i :: 0 <= i < |entries| ==> (i in kept <==> ResultOf(entries[i], query).Some?))
  {
    PresentInOrder(ResultsOf(entries, query));
    ResultsAt(entries, query);
  }

  /** Every collected result is the result of one of the entries, for its element. */
  lemma CollectedFromEntries<T>(entries: seq<Entry<T>>, query: string, r: SearchResult<T>)
    requires r in Collected(entries, query)
    ensures exists j :: 0 <= j < |entries| && r.item == entries[j].element && ResultOf(entries[j], query) == Some(r)
  {
    var collected := Collected(entries, query);
    var k :| 0 <= k < |collected| && collected[k] == r;
    CollectedInOrder(entries, query);
    var j := PresentAt(ResultsOf(entries, query))[k];
    ResultOfSpec(entries[j], query);
  }

  /**
   * The results of a search are sorted by ascending score, hold exactly the collected results,
   * and results with equal scores keep their collection order (the sort is stable).
   */
  lemma SearchSortedStable<T>(entries: seq<Entry<T>>, query: string)
    ensures var results := Sort(Collected(entries, query), ScoreOf);
      && SortedBy(results, ScoreOf)
      && multiset(results) == multiset(Collected(entries, query))
      && forall v :: WithKey(results, ScoreOf, v) == WithKey(Collected(entries, query), ScoreOf, v)
  {
    forall v
      ensures WithKey(Sort(Collected(entries, query), ScoreOf), ScoreOf, v) == WithKey(Collected(entries, query), ScoreOf, v)
    {
      SortStable(Collected(entries, query), ScoreOf, v);
    }
  }
}
