/**
 * The older built-in tab matcher of index.js (lines 59-183): a greedy subsequence matcher whose
 * score is higher-is-better, the conversion of hit positions to half-open highlight ranges, the
 * combination of title and URL scores, and the filtering and ordering of the result list.
 */
module TabMatcher {
  import opened Wrappers
  import opened JsString
  import opened Subsequence
  import opened StableSort
  import opened Tabs
  import opened Filtering

  /** A score; `NegInf` is `-Infinity`, the score of a failed match. */
  datatype Score = NegInf | Finite(value: real)

  /** What `fuzzyMatch` returns. */
  datatype MatchResult = MatchResult(matched: bool, score: Score, indexes: seq<int>)

  /** The punctuation in the separator class of index.js:61 (white space is `\s`). */
  const Separators: set<char> :=
    {'-', '_', '.', '/', '\\', '(', ')', '[', ']', '{', '}', '<', '>', '"', '\'', '`',
     '~', '!', '@', '#', '$', '%', '^', '&', '*', '+', '=', '|', ',', ':', ';', '?'}

  /**
   * isWordBoundary (lines 60-63): no previous character (`''` or `undefined`) counts as a
   * boundary, as does white space and every separator; letters and digits never do.
   */
  function IsWordBoundary(prev: Option<char>): (b: bool)
    ensures prev.None? ==> b
    ensures prev.Some? && IsWhitespace(prev.value) ==> b
    ensures prev.Some? && ('a' <= prev.value <= 'z' || 'A' <= prev.value <= 'Z' || '0' <= prev.value <= '9') ==> !b
  {
    prev.None? || IsWhitespace(prev.value) || prev.value in Separators
  }

  /** The character before position `p` of the candidate, `''` (here `None`) at the start (line 88). */
  function PrevChar(candidate: string, p: int): Option<char> {
    if p > 0 then CharAt(candidate, p - 1) else None
  }

  /** What a hit at `p` after the hits `before` adds (lines 79-91); `lastMatchPos` starts at -1. */
  function HitPoints(candidate: string, before: seq<int>, p: int): real {
    1.0
    + (if p == LastOr(before, -1) + 1 then 0.5 + RMin(Streak(before + [p]) as real * 0.05, 0.3) else 0.0)
    + (if IsWordBoundary(PrevChar(candidate, p)) then 0.7 else 0.0)
    + RMax(0.0, 1.2 - p as real * 0.01)
  }

  function Points(candidate: string, hits: seq<int>): real {
    if |hits| == 0 then 0.0
    else Points(candidate, hits[..|hits| - 1]) + HitPoints(candidate, hits[..|hits| - 1], hits[|hits| - 1])
  }

  /** The unmatched positions between consecutive hits (line 101). */
  function Gaps(idx: seq<int>): int {
    if |idx| <= 1 then 0
    else Gaps(idx[..|idx| - 1]) + idx[|idx| - 1] - idx[|idx| - 2] - 1
  }

  /** fuzzyMatch (lines 65-105) as a function of its inputs. */
  function FuzzyMatchSpec(query: string, candidate: string): MatchResult {
    if query == "" then MatchResult(true, Finite(0.0), [])
    else if candidate == "" then MatchResult(false, NegInf, [])
    else
      var q := ToLower(query);
      var hits := GreedyHits(q, ToLower(candidate), 0, 0);
      if |hits| != |q| then MatchResult(false, NegInf, [])
      else MatchResult(true, Finite(Points(candidate, hits) - (if |hits| > 1 then Gaps(hits) as real * 0.02 else 0.0)), hits)
  }

  /** How the scan's bookkeeping moves on by one hit at `p`. */
  lemma HitStep(candidate: string, before: seq<int>, p: int)
    ensures var h := before + [p];
      && h[..|h| - 1] == before
      && LastOr(h, -1) == p
      && Streak(h) == (if p == LastOr(before, -1) + 1 then Streak(before) + 1 else 0)
      && Points(candidate, h) == Points(candidate, before) + HitPoints(candidate, before, p)
  {
    var h := before + [p];
    assert h[..|h| - 1] == before;
  }

  /** fuzzyMatch, step by step (lines 65-105). */
  method FuzzyMatch(query: string, candidate: string) returns (r: MatchResult)
    ensures r == FuzzyMatchSpec(query, candidate)
  {
    if query == "" {
      return MatchResult(true, Finite(0.0), []);
    }
    if candidate == "" {
      return MatchResult(false, NegInf, []);
    }
    var q := ToLower(query);
    var idx, score := ScanHits(q, ToLower(candidate), candidate);
    var matched := |idx| == |q|;
    if !matched {
      return MatchResult(false, NegInf, []);
    }
    if |idx| > 1 {
      var gaps := SumGaps(idx);
      score := score - gaps as real * 0.02;
    }
    return MatchResult(true, Finite(score), idx);
  }

  /** The scan of lines 74-94: the greedy hits of `q` in `s` and the points they earn in `candidate`. */
  method ScanHits(q: string, s: string, candidate: string) returns (idx: seq<int>, score: real)
    ensures idx == GreedyHits(q, s, 0, 0) && score == Points(candidate, idx)
  {
    var qi := 0;
    score := 0.0;
    idx := [];
    var lastMatchPos := -1;
    var streak := 0;
    ghost var whole := GreedyHits(q, s, 0, 0);
    var si := 0;
    while si < |s| && qi < |q|
      invariant 0 <= si <= |s| && qi == |idx| <= |q|
      invariant idx + GreedyHits(q, s, si, qi) == whole
      invariant lastMatchPos == LastOr(idx, -1) && streak == Streak(idx)
      invariant score == Points(candidate, idx)
      decreases |s| - si
    {
      GreedyStep(q, s, si, qi, idx, whole);
      if s[si] == q[qi] {
        score, streak := AddHit(candidate, idx, si, score, lastMatchPos, streak);
        idx := idx + [si];
        lastMatchPos := si;
        qi := qi + 1;
      }
      si := si + 1;
    }
    assert GreedyHits(q, s, si, qi) == [];
    assert idx + [] == idx;
  }

  /** Lines 79-91 for a hit at `si` after the hits `before`: the points it adds and the new streak. */
  method AddHit(candidate: string, ghost before: seq<int>, si: int, score: real, lastMatchPos: int, streak: nat)
    returns (score': real, streak': nat)
    requires score == Points(candidate, before) && lastMatchPos == LastOr(before, -1) && streak == Streak(before)
    ensures score' == Points(candidate, before + [si]) && streak' == Streak(before + [si])
  {
    HitStep(candidate, before, si);
    score' := score + 1.0;
    if lastMatchPos == si - 1 {
      streak' := streak + 1;
      score' := score' + (0.5 + RMin(streak' as real * 0.05, 0.3));
    } else {
      streak' := 0;
    }
    var prev := if si > 0 then CharAt(candidate, si - 1) else None;
    if IsWordBoundary(prev) {
      score' := score' + 0.7;
    }
    score' := score' + RMax(0.0, 1.2 - si as real * 0.01);
  }

  /** The loop of line 101. */
  method SumGaps(idx: seq<int>) returns (gaps: int)
    requires |idx| > 1
    ensures gaps == Gaps(idx)
  {
    gaps := 0;
    var i := 1;
    while i < |idx|
      invariant 1 <= i <= |idx|
      invariant gaps == Gaps(idx[..i])
    {
      assert idx[..i + 1][..i] == idx[..i];
      gaps := gaps + idx[i] - idx[i - 1] - 1;
      i := i + 1;
    }
    assert idx[..i] == idx;
  }

  /**
   * A match holds exactly when the query is empty, or the candidate is not and the lower-cased
   * query is a subsequence of the lower-cased candidate; the indexes of a match then pick the
   * query's characters out of the candidate in order. A failed match scores `-Infinity`.
   */
  lemma FuzzyMatchIff(query: string, candidate: string)
    ensures var r := FuzzyMatchSpec(query, candidate);
      && (r.matched <==> query == "" || (candidate != "" && IsSubsequence(ToLower(query), ToLower(candidate))))
      && (r.matched <==> r.score.Finite?)
      && (r.matched && query != "" ==> Embeds(r.indexes, ToLower(query), ToLower(candidate)))
  {
    GreedyIffSubsequence(ToLower(query), ToLower(candidate));
  }

  /** The gap sum of lines 100-101 in closed form: the span of the hits less the hits inside it. */
  lemma {:induction false} GapsClosedForm(idx: seq<int>)
    requires |idx| >= 1
    ensures Gaps(idx) == idx[|idx| - 1] - idx[0] - (|idx| - 1)
  {
    if |idx| > 1 {
      var init := idx[..|idx| - 1];
      GapsClosedForm(init);
      assert init[0] == idx[0] && init[|init| - 1] == idx[|idx| - 2];
    }
  }

  /** A hit at a non-negative position adds at least 1 and at most 1 + 0.8 + 0.7 + 1.2 points. */
  lemma HitPointsBounds(candidate: string, before: seq<int>, p: int)
    requires p >= 0
    ensures 1.0 <= HitPoints(candidate, before, p) <= 3.7
  {
  }

  /** Points therefore grow at least by one and at most by 3.7 per hit. */
  lemma {:induction false} PointsBounds(candidate: string, hits: seq<int>)
    requires forall k :: 0 <= k < |hits| ==> hits[k] >= 0
    ensures |hits| as real <= Points(candidate, hits) <= 3.7 * |hits| as real
  {
    if |hits| > 0 {
      PointsBounds(candidate, hits[..|hits| - 1]);
      HitPointsBounds(candidate, hits[..|hits| - 1], hits[|hits| - 1]);
    }
  }

  /** A half-open range `[start, end)` of highlighted positions. */
  datatype Span = Span(start: int, end: int)

  /** Inclusive runs as half-open ranges. */
  function HalfOpen(rs: seq<Run>): (spans: seq<Span>)
    ensures |spans| == |rs|
  {
    if |rs| == 0 then [] else HalfOpen(rs[..|rs| - 1]) + [Span(rs[|rs| - 1].first, rs[|rs| - 1].last + 1)]
  }

  lemma {:induction false} HalfOpenAt(rs: seq<Run>, k: int)
    requires 0 <= k < |rs|
    ensures HalfOpen(rs)[k] == Span(rs[k].first, rs[k].last + 1)
  {
    if k < |rs| - 1 {
      HalfOpenAt(rs[..|rs| - 1], k);
    }
  }

  lemma HalfOpenSnoc(rs: seq<Run>, r: Run)
    ensures HalfOpen(rs + [r]) == HalfOpen(rs) + [Span(r.first, r.last + 1)]
  {
    assert (rs + [r])[..|rs|] == rs;
  }

  /** How the runs move on when one more index is read: it extends the open run or closes it. */
  lemma RunsNext(indexes: seq<int>, i: int, done: seq<Run>, start: int, prev: int)
    requires 1 <= i < |indexes| && prev == indexes[i - 1]
    requires done + [Run(start, prev)] == Runs(indexes[..i])
    ensures indexes[i] == prev + 1 ==> done + [Run(start, indexes[i])] == Runs(indexes[..i + 1])
    ensures indexes[i] != prev + 1 ==> (done + [Run(start, prev)]) + [Run(indexes[i], indexes[i])] == Runs(indexes[..i + 1])
  {
    var h := indexes[..i + 1];
    assert h[..|h| - 1] == indexes[..i];
    Subsequence.RunsStep(h);
    var rs := done + [Run(start, prev)];
    assert rs[..|rs| - 1] == done;
  }

  /** rangesFromIndexes (lines 107-123). */
  method RangesFromIndexes(indexes: seq<int>) returns (ranges: seq<Span>)
    ensures ranges == HalfOpen(Runs(indexes))
  {
    if |indexes| == 0 {
      return [];
    }
    ranges := [];
    var start := indexes[0];
    var prev := indexes[0];
    ghost var done: seq<Run> := [];
    assert indexes[..1] == [] + [indexes[0]];
    var i := 1;
    while i < |indexes|
      invariant 1 <= i <= |indexes|
      invariant prev == indexes[i - 1]
      invariant done + [Run(start, prev)] == Runs(indexes[..i])
      invariant ranges == HalfOpen(done)
    {
      RunsNext(indexes, i, done, start, prev);
      if indexes[i] == prev + 1 {
        prev := indexes[i];
      } else {
        HalfOpenSnoc(done, Run(start, prev));
        ranges := ranges + [Span(start, prev + 1)];
        done := done + [Run(start, prev)];
        start := indexes[i];
        prev := indexes[i];
      }
      i := i + 1;
    }
    assert indexes[..i] == indexes;
    HalfOpenSnoc(done, Run(start, prev));
    ranges := ranges + [Span(start, prev + 1)];
  }

  /** Position `x` lies in one of the half-open ranges. */
  predicate Covered(spans: seq<Span>, x: int) {
    exists k :: 0 <= k < |spans| && spans[k].start <= x < spans[k].end
  }

  /** Separated runs give non-empty, ascending, non-adjacent ranges covering the same positions. */
  lemma HalfOpenSeparated(rs: seq<Run>)
    requires Separated(rs)
    ensures var spans := HalfOpen(rs);
      && (forall k :: 0 <= k < |spans| ==> spans[k].start < spans[k].end)
      && (forall a, b :: 0 <= a < b < |spans| ==> spans[a].end < spans[b].start)
      && forall x :: Covered(spans, x) <==> InRuns(rs, x)
  {
    var spans := HalfOpen(rs);
    forall k | 0 <= k < |spans|
      ensures spans[k] == Span(rs[k].first, rs[k].last + 1)
    {
      HalfOpenAt(rs, k);
    }
    forall x
      ensures Covered(spans, x) <==> InRuns(rs, x)
    {
      if Covered(spans, x) {
        var k :| 0 <= k < |spans| && spans[k].start <= x < spans[k].end;
        assert rs[k].first <= x <= rs[k].last;
      }
      if InRuns(rs, x) {
        var k :| 0 <= k < |rs| && rs[k].first <= x <= rs[k].last;
        assert spans[k].start <= x < spans[k].end;
      }
    }
  }

  /**
   * For strictly increasing indexes the half-open ranges are non-empty, ascending and not
   * adjacent (at least one position lies between two of them), and their union is exactly the
   * set of indexes; no indexes give no ranges.
   */
  lemma RangesCoverIndexes(indexes: seq<int>)
    requires StrictlyIncreasing(indexes)
    ensures var spans := HalfOpen(Runs(indexes));
      && (|indexes| == 0 <==> spans == [])
      && (forall k :: 0 <= k < |spans| ==> spans[k].start < spans[k].end)
      && (forall a, b :: 0 <= a < b < |spans| ==> spans[a].end < spans[b].start)
      && forall x :: Covered(spans, x) <==> x in indexes
  {
    var rs := Runs(indexes);
    RunsShape(indexes);
    HalfOpenSeparated(rs);
    forall x
      ensures Covered(HalfOpen(rs), x) <==> x in indexes
    {
      assert InRuns(rs, x) <==> x in indexes;
    }
  }

  /** What `scoreTab` returns (line 163). */
  datatype TabScore = TabScore(score: Score, titleIdx: seq<int>, urlIdx: seq<int>, matched: bool)

  /** The title searched: a missing or blank title counts as empty (line 142). */
  function TitleText(tab: Tab): string {
    if tab.title.Some? && Trim(tab.title.value) != "" then tab.title.value else ""
  }

  /** The URL searched: a missing URL counts as empty (line 143). */
  function UrlText(tab: Tab): string {
    if tab.url.Some? then tab.url.value else ""
  }

  /** `score + d`, where `-Infinity + d` stays `-Infinity`. */
  function AddTo(s: Score, d: real): Score {
    if s.Finite? then Finite(s.value + d) else NegInf
  }

  /** A match result whose score is finite exactly when it matched, as every `fuzzyMatch` result. */
  predicate WellScored(m: MatchResult) {
    m.matched <==> m.score.Finite?
  }

  lemma FuzzyMatchWellScored(query: string, candidate: string)
    ensures WellScored(FuzzyMatchSpec(query, candidate))
  {
  }

  /**
   * Lines 144-162 by case: the title counts 2.2 times, the URL 1.2 times, a tab matching on both
   * takes the better of the two plus 0.2, and the active tab gets 0.15 more.
   */
  function Combine(mt: MatchResult, mu: MatchResult, active: bool): (r: TabScore)
    requires WellScored(mt) && WellScored(mu)
    ensures r.matched == (mt.matched || mu.matched)
    ensures r.matched <==> r.score.Finite?
    ensures active ==> r.score == AddTo(Combine(mt, mu, false).score, 0.15)
  {
    var base :=
      if mt.matched && mu.matched then Finite(RMax(mt.score.value * 2.2, mu.score.value * 1.2) + 0.2)
      else if mt.matched then Finite(mt.score.value * 2.2)
      else if mu.matched then Finite(mu.score.value * 1.2)
      else NegInf;
    TabScore(if active then AddTo(base, 0.15) else base,
             if mt.matched then mt.indexes else [],
             if mu.matched then mu.indexes else [],
             mt.matched || mu.matched)
  }

  /** scoreTab (lines 141-164) as a function of the query and the tab. */
  function TabScoreOf(query: string, tab: Tab): TabScore {
    var mt := FuzzyMatchSpec(query, TitleText(tab));
    var mu := FuzzyMatchSpec(query, UrlText(tab));
    FuzzyMatchWellScored(query, TitleText(tab));
    FuzzyMatchWellScored(query, UrlText(tab));
    Combine(mt, mu, tab.active)
  }

  /** scoreTab (lines 141-164): two matches, then the score reassigned case by case. */
  method ScoreTab(query: string, tab: Tab) returns (r: TabScore)
    ensures r == TabScoreOf(query, tab)
  {
    var mt := FuzzyMatch(query, TitleText(tab));
    var mu := FuzzyMatch(query, UrlText(tab));
    FuzzyMatchWellScored(query, TitleText(tab));
    FuzzyMatchWellScored(query, UrlText(tab));
    r := CombineScores(mt, mu, tab.active);
  }

  /** Lines 144-163 with their reassignments. */
  method CombineScores(mt: MatchResult, mu: MatchResult, active: bool) returns (r: TabScore)
    requires WellScored(mt) && WellScored(mu)
    ensures r == Combine(mt, mu, active)
  {
    var score := if mt.matched then Finite(mt.score.value * 2.2) else NegInf;
    var titleIdx := if mt.matched then mt.indexes else [];
    var urlIdx := [];
    if mu.matched {
      var urlScore := mu.score.value * 1.2;
      if !mt.matched {
        score := Finite(urlScore);
      } else {
        score := Finite(RMax(score.value, urlScore) + 0.2);
      }
      urlIdx := mu.indexes;
    }
    if active {
      score := AddTo(score, 0.15);
    }
    return TabScore(score, titleIdx, urlIdx, mt.matched || mu.matched);
  }

  /**
   * For a non-empty query a tab matches exactly when its non-blank title or its URL contains the
   * lower-cased query as a subsequence; the highlights then pick the query out of what matched.
   */
  lemma TabMatchedIff(query: string, tab: Tab)
    requires query != ""
    ensures var r := TabScoreOf(query, tab);
      && (r.matched <==> (TitleText(tab) != "" && IsSubsequence(ToLower(query), ToLower(TitleText(tab))))
                         || (UrlText(tab) != "" && IsSubsequence(ToLower(query), ToLower(UrlText(tab)))))
      && (r.titleIdx != [] ==> Embeds(r.titleIdx, ToLower(query), ToLower(TitleText(tab))))
      && (r.urlIdx != [] ==> Embeds(r.urlIdx, ToLower(query), ToLower(UrlText(tab))))
  {
    FuzzyMatchIff(query, TitleText(tab));
    FuzzyMatchIff(query, UrlText(tab));
  }

  /** A row of the result list: a tab alone (no query) or a matched tab with its score and highlights. */
  datatype ListItem = Plain(tab: Tab) | Scored(tab: Tab, score: real, titleIdx: seq<int>, urlIdx: seq<int>)

  /** The item a scored tab contributes to the list, if it matched (line 179). */
  function ItemOf(tab: Tab, r: TabScore): (item: Option<ListItem>)
    requires r.matched <==> r.score.Finite?
    ensures item.Some? <==> r.matched
  {
    if r.matched then Some(Scored(tab, r.score.value, r.titleIdx, r.urlIdx)) else None
  }

  function ItemsOf(query: string, tabs: seq<Tab>): (items: seq<Option<ListItem>>)
    ensures |items| == |tabs|
  {
    Mapped(tabs, ItemFn(query))
  }

  /** The item of one tab for `query`, present when the tab matched. */
  function ItemFn(query: string): Tab -> Option<ListItem> {
    tab => ItemOf(tab, TabScoreOf(query, tab))
  }

  /** One more tab for the loop of lines 170-180: its item is pushed when it matched. */
  lemma ItemsStep(query: string, tabs: seq<Tab>, k: int, r: TabScore)
    requires 0 <= k < |tabs| && r == TabScoreOf(query, tabs[k])
    ensures Present(ItemsOf(query, tabs[..k + 1]))
      == Present(ItemsOf(query, tabs[..k])) + (if r.matched then [Scored(tabs[k], r.score.value, r.titleIdx, r.urlIdx)] else [])
  {
    MappedSnoc(tabs, k, ItemFn(query));
    PresentSnoc(ItemsOf(query, tabs[..k]), ItemOf(tabs[k], r));
  }

  /** The sort key of `(a, b) => b.score - a.score`: descending score. */
  function Descending(item: ListItem): real {
    if item.Scored? then -item.score else 0.0
  }

  /** The tabs as they are listed with no query (lines 167-168). */
  function PlainItems(tabs: seq<Tab>): (items: seq<ListItem>)
    ensures |items| == |tabs|
    ensures forall i :: 0 <= i < |tabs| ==> items[i] == Plain(tabs[i])
  {
    seq(|tabs|, i requires 0 <= i < |tabs| => Plain(tabs[i]))
  }

  /** The list computed by computeResultsAndRender (lines 166-181), before it is rendered. */
  method ComputeResults(inputValue: string, allTabs: seq<Tab>) returns (items: seq<ListItem>)
    ensures Trim(inputValue) == "" ==> items == PlainItems(allTabs)
    ensures Trim(inputValue) != "" ==> items == Sort(Present(ItemsOf(Trim(inputValue), allTabs)), Descending)
  {
    var q := Trim(inputValue);
    if q == "" {
      return PlainItems(allTabs);
    }
    var results: seq<ListItem> := [];
    var k := 0;
    while k < |allTabs|
      invariant 0 <= k <= |allTabs|
      invariant results == Present(ItemsOf(q, allTabs[..k]))
    {
      var t := allTabs[k];
      var r := ScoreTab(q, t);
      ItemsStep(q, allTabs, k, r);
      if r.matched {
        results := results + [Scored(t, r.score.value, r.titleIdx, r.urlIdx)];
      }
      k := k + 1;
    }
    assert allTabs[..k] == allTabs;
    items := Sort(results, Descending);
  }
}
