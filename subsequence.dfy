/**
 * What the two fuzzy matchers share: the greedy left-to-right subsequence scan
 * (microfuzz.bundle.js:57-87 and index.js:75-95 walk the text the same way), the
 * counter of consecutive hits that both keep, and the grouping of hit positions into
 * maximal runs of adjacent positions (the highlight ranges).
 */
module Subsequence {

  predicate StrictlyIncreasing(h: seq<int>) {
    forall a, b :: 0 <= a < b < |h| ==> h[a] < h[b]
  }

  /** `idx` picks the characters of `q`, in order, out of `s`. */
  predicate Embeds(idx: seq<int>, q: string, s: string) {
    && |idx| == |q|
    && StrictlyIncreasing(idx)
    && forall k :: 0 <= k < |idx| ==> 0 <= idx[k] < |s| && s[idx[k]] == q[k]
  }

  /** The reference notion: `q` is a (not necessarily contiguous) subsequence of `s`. */
  ghost predicate IsSubsequence(q: string, s: string) {
    exists idx :: Embeds(idx, q, s)
  }

  /**
   * The positions of `s` that the greedy scan consumes when it starts at position `i` of
   * `s` and position `j` of `q`: a text character is consumed when it equals the next
   * query character, and the scan stops at the end of either string.
   */
  function GreedyHits(q: string, s: string, i: nat, j: nat): (hits: seq<int>)
    ensures j <= |q| ==> |hits| <= |q| - j
    decreases |s| - i
  {
    if i >= |s| || j >= |q| then []
    else if s[i] == q[j] then [i] + GreedyHits(q, s, i + 1, j + 1)
    else GreedyHits(q, s, i + 1, j)
  }

  /** The `k`-th of `hits` is a position of `s` at or after `i` holding the query character `q[j + k]`. */
  predicate Consumes(hits: seq<int>, q: string, s: string, i: nat, j: nat) {
    forall k :: 0 <= k < |hits| ==> i <= hits[k] < |s| && j + k < |q| && s[hits[k]] == q[j + k]
  }

  /** Every position the scan consumes lies in `s` at or after `i` and holds the query character it consumed. */
  lemma {:induction false} GreedySound(q: string, s: string, i: nat, j: nat)
    ensures StrictlyIncreasing(GreedyHits(q, s, i, j))
    ensures Consumes(GreedyHits(q, s, i, j), q, s, i, j)
    decreases |s| - i
  {
    if i < |s| && j < |q| {
      if s[i] == q[j] {
        GreedySound(q, s, i + 1, j + 1);
        var rest := GreedyHits(q, s, i + 1, j + 1);
        var hits := GreedyHits(q, s, i, j);
        assert hits == [i] + rest;
        forall k | 0 < k < |hits|
          ensures i < hits[k] < |s| && j + k < |q| && s[hits[k]] == q[j + k]
        {
          assert hits[k] == rest[k - 1];
          assert j + 1 + (k - 1) == j + k;
        }
        assert Consumes(hits, q, s, i, j);
        forall a, b | 0 <= a < b < |hits|
          ensures hits[a] < hits[b]
        {
          assert hits[b] == rest[b - 1];
          if a > 0 {
            assert hits[a] == rest[a - 1];
          }
        }
      } else {
        GreedySound(q, s, i + 1, j);
        var hits := GreedyHits(q, s, i, j);
        assert hits == GreedyHits(q, s, i + 1, j);
        assert Consumes(hits, q, s, i, j);
      }
    }
  }

  /** The greedy scan never misses: any embedding of the rest of `q` at or after `i` lets it finish. */
  lemma {:induction false} GreedyComplete(q: string, s: string, i: nat, j: nat, idx: seq<int>)
    requires j <= |q| && |idx| == |q| - j && StrictlyIncreasing(idx)
    requires forall k :: 0 <= k < |idx| ==> i <= idx[k] < |s| && s[idx[k]] == q[j + k]
    ensures |GreedyHits(q, s, i, j)| == |q| - j
    decreases |s| - i
  {
    if j < |q| {
      assert i <= idx[0] < |s|;
      if s[i] == q[j] {
        GreedyComplete(q, s, i + 1, j + 1, idx[1..]);
      } else {
        assert idx[0] != i;
        GreedyComplete(q, s, i + 1, j, idx);
      }
    }
  }

  /** One step of the scan: the hits found so far followed by the rest of the scan stay the whole scan. */
  lemma GreedyStep(q: string, s: string, i: nat, j: nat, done: seq<int>, whole: seq<int>)
    requires i < |s| && j < |q| && done + GreedyHits(q, s, i, j) == whole
    ensures s[i] == q[j] ==> (done + [i]) + GreedyHits(q, s, i + 1, j + 1) == whole
    ensures s[i] != q[j] ==> done + GreedyHits(q, s, i + 1, j) == whole
  {
    if s[i] == q[j] {
      assert GreedyHits(q, s, i, j) == [i] + GreedyHits(q, s, i + 1, j + 1);
      assert (done + [i]) + GreedyHits(q, s, i + 1, j + 1) == done + ([i] + GreedyHits(q, s, i + 1, j + 1));
    }
  }

  /** The greedy scan consumes the whole query exactly when the query is a subsequence. */
  lemma GreedyIffSubsequence(q: string, s: string)
    ensures |GreedyHits(q, s, 0, 0)| == |q| <==> IsSubsequence(q, s)
    ensures |GreedyHits(q, s, 0, 0)| == |q| ==> Embeds(GreedyHits(q, s, 0, 0), q, s)
  {
    var hits := GreedyHits(q, s, 0, 0);
    GreedySound(q, s, 0, 0);
    if |hits| == |q| {
      assert forall k :: 0 <= k < |hits| ==> 0 <= hits[k] < |s| && s[hits[k]] == q[k];
      assert Embeds(hits, q, s);
    }
    if IsSubsequence(q, s) {
      var idx :| Embeds(idx, q, s);
      GreedyComplete(q, s, 0, 0, idx);
    }
  }

  /** A contiguous occurrence is in particular a subsequence. */
  lemma ContiguousSubsequence(q: string, s: string, k: int)
    requires 0 <= k && k + |q| <= |s| && s[k..k + |q|] == q
    ensures IsSubsequence(q, s)
  {
    var idx := seq(|q|, m requires 0 <= m < |q| => k + m);
    assert forall m :: 0 <= m < |q| ==> s[idx[m]] == s[k..k + |q|][m];
    assert Embeds(idx, q, s);
  }

  function LastOr(h: seq<int>, default: int): int {
    if |h| == 0 then default else h[|h| - 1]
  }

  /**
   * The consecutive-hit counter after the hits `h`, as both scans keep it: a hit right
   * after the previous one (the "previous" position starts at -1, so a hit at 0 counts)
   * adds one, any other hit resets it to zero.
   */
  function Streak(h: seq<int>): (n: nat)
    ensures n <= |h|
    ensures |h| > 0 && h[|h| - 1] != LastOr(h[..|h| - 1], -1) + 1 ==> n == 0
  {
    if |h| == 0 then 0
    else
      var init := h[..|h| - 1];
      if h[|h| - 1] == LastOr(init, -1) + 1 then Streak(init) + 1 else 0
  }

  /** An inclusive range `[first, last]` of positions. */
  datatype Run = Run(first: int, last: int)

  /**
   * The hits grouped into runs: a hit right after the previous hit extends the last run,
   * any other hit opens a new one-position run.
   */
  function Runs(h: seq<int>): (rs: seq<Run>)
    ensures |rs| <= |h|
    ensures |h| == 0 <==> |rs| == 0
    ensures |h| > 0 ==> rs[|rs| - 1].first <= rs[|rs| - 1].last == h[|h| - 1]
  {
    if |h| == 0 then []
    else
      var init := h[..|h| - 1];
      var p := h[|h| - 1];
      var rs := Runs(init);
      if |init| > 0 && p == init[|init| - 1] + 1 then rs[..|rs| - 1] + [Run(rs[|rs| - 1].first, p)]
      else rs + [Run(p, p)]
  }

  /** Runs that are non-empty, ascending and separated by at least one position not in any run. */
  predicate Separated(rs: seq<Run>) {
    && (forall k :: 0 <= k < |rs| ==> rs[k].first <= rs[k].last)
    && (forall a, b :: 0 <= a < b < |rs| ==> rs[a].last + 1 < rs[b].first)
  }

  predicate InRuns(rs: seq<Run>, x: int) {
    exists k :: 0 <= k < |rs| && rs[k].first <= x <= rs[k].last
  }

  /** Number of positions the runs cover. */
  function Size(rs: seq<Run>): int {
    if |rs| == 0 then 0 else Size(rs[..|rs| - 1]) + (rs[|rs| - 1].last - rs[|rs| - 1].first + 1)
  }

  /** Extending the last run by the position right after it keeps the runs separated and adds that position. */
  lemma ExtendRun(rs: seq<Run>, p: int)
    requires Separated(rs) && |rs| > 0 && rs[|rs| - 1].last + 1 == p
    ensures var rs' := rs[..|rs| - 1] + [Run(rs[|rs| - 1].first, p)];
      && Separated(rs') && Size(rs') == Size(rs) + 1 && rs'[0].first == rs[0].first
  {
    var n := |rs|;
    var rs' := rs[..n - 1] + [Run(rs[n - 1].first, p)];
    assert rs'[..n - 1] == rs[..n - 1];
    assert rs[..n - 1] + [rs[n - 1]] == rs;
  }

  /** Extending the last run covers one more position, `p`. */
  lemma ExtendRunCovers(rs: seq<Run>, p: int, x: int)
    requires |rs| > 0 && rs[|rs| - 1].first <= rs[|rs| - 1].last && rs[|rs| - 1].last + 1 == p
    ensures InRuns(rs[..|rs| - 1] + [Run(rs[|rs| - 1].first, p)], x) <==> InRuns(rs, x) || x == p
  {
    var n := |rs|;
    var rs' := rs[..n - 1] + [Run(rs[n - 1].first, p)];
    if InRuns(rs', x) {
      var k :| 0 <= k < n && rs'[k].first <= x <= rs'[k].last;
      if k < n - 1 || x < p {
        assert rs[k].first <= x <= rs[k].last;
      }
    }
    if InRuns(rs, x) {
      var k :| 0 <= k < n && rs[k].first <= x <= rs[k].last;
      assert rs'[k].first <= x <= rs'[k].last;
    }
    if x == p {
      assert rs'[n - 1].first <= x <= rs'[n - 1].last;
    }
  }

  /** A one-position run past the end of the last run (with a gap) keeps the runs separated. */
  lemma OpenRun(rs: seq<Run>, p: int)
    requires Separated(rs) && (|rs| == 0 || rs[|rs| - 1].last + 1 < p)
    ensures var rs' := rs + [Run(p, p)];
      && Separated(rs') && Size(rs') == Size(rs) + 1 && (|rs| > 0 ==> rs'[0].first == rs[0].first)
  {
    var n := |rs|;
    var rs' := rs + [Run(p, p)];
    assert rs'[..n] == rs;
    OpenRunSeparated(rs, p);
  }

  lemma OpenRunSeparated(rs: seq<Run>, p: int)
    requires Separated(rs) && (|rs| == 0 || rs[|rs| - 1].last + 1 < p)
    ensures Separated(rs + [Run(p, p)])
  {
    var n := |rs|;
    var rs' := rs + [Run(p, p)];
    forall a, b | 0 <= a < b < n + 1
      ensures rs'[a].last + 1 < rs'[b].first
    {
      if b == n && a < n - 1 {
        assert rs[a].last + 1 < rs[n - 1].first;
        assert rs[n - 1].first <= rs[n - 1].last;
      }
    }
  }

  lemma OpenRunCovers(rs: seq<Run>, p: int, x: int)
    ensures InRuns(rs + [Run(p, p)], x) <==> InRuns(rs, x) || x == p
  {
    var n := |rs|;
    var rs' := rs + [Run(p, p)];
    if InRuns(rs', x) {
      var k :| 0 <= k < n + 1 && rs'[k].first <= x <= rs'[k].last;
      if k < n {
        assert rs[k].first <= x <= rs[k].last;
      }
    }
    if InRuns(rs, x) {
      var k :| 0 <= k < n && rs[k].first <= x <= rs[k].last;
      assert rs'[k].first <= x <= rs'[k].last;
    }
    if x == p {
      assert rs'[n].first <= x <= rs'[n].last;
    }
  }

  /**
   * For strictly increasing hits the runs are separated, start at the first hit, end at
   * the last, cover exactly the hit positions and as many positions as there are hits.
   */
  /** The last step of `Runs`: the last position extends the last run or opens a new one. */
  lemma RunsStep(h: seq<int>)
    requires |h| > 0
    ensures var init, p := h[..|h| - 1], h[|h| - 1];
      Runs(h) == if |init| > 0 && p == init[|init| - 1] + 1
                 then Runs(init)[..|Runs(init)| - 1] + [Run(Runs(init)[|Runs(init)| - 1].first, p)]
                 else Runs(init) + [Run(p, p)]
  {
  }

  lemma IncreasingInit(h: seq<int>)
    requires StrictlyIncreasing(h) && |h| > 0
    ensures StrictlyIncreasing(h[..|h| - 1])
    ensures |h| > 1 ==> h[|h| - 2] < h[|h| - 1]
  {
    var init := h[..|h| - 1];
    forall a, b | 0 <= a < b < |init| ensures init[a] < init[b] {
      assert init[a] == h[a] && init[b] == h[b];
    }
    assert h == init + [h[|h| - 1]];
  }

  /** The runs cover exactly the positions of `h`, whatever `h` is. */
  lemma {:induction false} RunsCover(h: seq<int>, x: int)
    ensures InRuns(Runs(h), x) <==> x in h
    decreases |h|
  {
    if |h| > 0 {
      var init := h[..|h| - 1];
      var p := h[|h| - 1];
      RunsCover(init, x);
      RunsStep(h);
      assert h == init + [p];
      if |init| > 0 && p == init[|init| - 1] + 1 {
        ExtendRunCovers(Runs(init), p, x);
      } else {
        OpenRunCovers(Runs(init), p, x);
      }
    }
  }

  lemma {:induction false} RunsShape(h: seq<int>)
    requires StrictlyIncreasing(h)
    ensures Separated(Runs(h))
    ensures |h| > 0 ==> Runs(h)[0].first == h[0]
    ensures Size(Runs(h)) == |h|
    ensures forall x :: InRuns(Runs(h), x) <==> x in h
    decreases |h|
  {
    if |h| > 0 {
      var init := h[..|h| - 1];
      var p := h[|h| - 1];
      IncreasingInit(h);
      RunsShape(init);
      RunsStep(h);
      if |init| > 0 && p == init[|init| - 1] + 1 {
        ExtendRun(Runs(init), p);
      } else {
        OpenRun(Runs(init), p);
      }
    }
    forall x ensures InRuns(Runs(h), x) <==> x in h {
      RunsCover(h, x);
    }
  }

  /** The characters of `s` at the hit positions, in order. */
  function Picked(h: seq<int>, s: string): (r: string)
    requires forall k :: 0 <= k < |h| ==> 0 <= h[k] < |s|
    ensures |r| == |h| && forall k :: 0 <= k < |h| ==> r[k] == s[h[k]]
  {
    seq(|h|, k requires 0 <= k < |h| => s[h[k]])
  }

  predicate Within(rs: seq<Run>, n: int) {
    forall k :: 0 <= k < |rs| ==> 0 <= rs[k].first && rs[k].last < n
  }

  /** The text the runs highlight: the covered characters of `s`, run after run. */
  function Spell(rs: seq<Run>, s: string): string
    requires Within(rs, |s|) && forall k :: 0 <= k < |rs| ==> rs[k].first <= rs[k].last + 1
  {
    if |rs| == 0 then ""
    else Spell(rs[..|rs| - 1], s) + s[rs[|rs| - 1].first..rs[|rs| - 1].last + 1]
  }

  /** Strictly increasing in-bounds hits have runs that lie in bounds. */
  lemma RunsWithin(h: seq<int>, n: int)
    requires StrictlyIncreasing(h)
    requires forall k :: 0 <= k < |h| ==> 0 <= h[k] < n
    ensures Within(Runs(h), n) && Separated(Runs(h))
  {
    RunsShape(h);
    var rs := Runs(h);
    forall k | 0 <= k < |rs|
      ensures 0 <= rs[k].first && rs[k].last < n
    {
      assert InRuns(rs, rs[k].first) && InRuns(rs, rs[k].last);
    }
  }

  /** The runs of strictly increasing in-bounds hits spell the picked characters. */
  lemma {:induction false} RunsSpell(h: seq<int>, s: string)
    requires StrictlyIncreasing(h)
    requires forall k :: 0 <= k < |h| ==> 0 <= h[k] < |s|
    ensures Within(Runs(h), |s|) && Separated(Runs(h))
    ensures Spell(Runs(h), s) == Picked(h, s)
    decreases |h|
  {
    RunsWithin(h, |s|);
    if |h| > 0 {
      var init := h[..|h| - 1];
      var p := h[|h| - 1];
      var ri := Runs(init);
      IncreasingInit(h);
      RunsSpell(init, s);
      PickedSnoc(h, s);
      RunsStep(h);
      if |init| > 0 && p == init[|init| - 1] + 1 {
        SpellExtend(ri, p, s);
      } else {
        SpellOpen(ri, p, s);
      }
    }
  }

  lemma PickedSnoc(h: seq<int>, s: string)
    requires |h| > 0 && forall k :: 0 <= k < |h| ==> 0 <= h[k] < |s|
    ensures Picked(h, s) == Picked(h[..|h| - 1], s) + [s[h[|h| - 1]]]
  {
  }

  lemma SpellExtend(rs: seq<Run>, p: int, s: string)
    requires Within(rs, |s|) && Separated(rs) && |rs| > 0 && rs[|rs| - 1].last + 1 == p && p < |s|
    ensures var rs' := rs[..|rs| - 1] + [Run(rs[|rs| - 1].first, p)];
      Within(rs', |s|) && Spell(rs', s) == Spell(rs, s) + [s[p]]
  {
    var n := |rs|;
    var f := rs[n - 1].first;
    var rs' := rs[..n - 1] + [Run(f, p)];
    assert rs'[..n - 1] == rs[..n - 1];
    assert s[f..p + 1] == s[f..p] + [s[p]];
  }

  lemma SpellOpen(rs: seq<Run>, p: int, s: string)
    requires Within(rs, |s|) && Separated(rs) && 0 <= p < |s|
    ensures Within(rs + [Run(p, p)], |s|) && Spell(rs + [Run(p, p)], s) == Spell(rs, s) + [s[p]]
  {
    assert (rs + [Run(p, p)])[..|rs|] == rs;
  }
}
