/**
 * buildHighlightedSpan of app.js (lines 54-67): a text cut into plain and highlighted pieces by
 * inclusive ranges `[a, b]`, with the clamping of JavaScript's `String.prototype.slice`.
 */
module Highlight {
  import opened JsString
  import opened Subsequence

  /** A text node (`Unmarked`) or a `fsl-hl` span (`Marked`). */
  datatype Piece = Unmarked(text: string) | Marked(text: string)

  /** The pieces appended for the ranges so far and the position `pos` reached. */
  datatype Progress = Progress(pieces: seq<Piece>, pos: int)

  /** One range `[a, b]` of the loop (lines 57-64). */
  function Advance(text: string, p: Progress, r: Run): Progress {
    Progress(p.pieces
             + (if r.first > p.pos then [Unmarked(Slice(text, p.pos, r.first))] else [])
             + [Marked(Slice(text, r.first, r.last + 1))],
             r.last + 1)
  }

  /** The state after the loop has read all of `ranges`. */
  function Progressed(text: string, ranges: seq<Run>): Progress {
    if |ranges| == 0 then Progress([], 0)
    else Advance(text, Progressed(text, ranges[..|ranges| - 1]), ranges[|ranges| - 1])
  }

  /** All pieces of the span, with the tail after the last range (line 65). */
  function Highlighted(text: string, ranges: seq<Run>): seq<Piece> {
    var p := Progressed(text, ranges);
    p.pieces + (if p.pos < |text| then [Unmarked(Slice(text, p.pos, |text|))] else [])
  }

  /** The span's text content: its pieces joined. */
  function Content(pieces: seq<Piece>): string {
    if |pieces| == 0 then "" else Content(pieces[..|pieces| - 1]) + pieces[|pieces| - 1].text
  }

  /** The highlighted text: the marked pieces joined. */
  function MarkedText(pieces: seq<Piece>): string {
    if |pieces| == 0 then ""
    else MarkedText(pieces[..|pieces| - 1]) + (if pieces[|pieces| - 1].Marked? then pieces[|pieces| - 1].text else "")
  }

  /** How many highlighted spans there are. */
  function MarkCount(pieces: seq<Piece>): nat {
    if |pieces| == 0 then 0
    else MarkCount(pieces[..|pieces| - 1]) + (if pieces[|pieces| - 1].Marked? then 1 else 0)
  }

  lemma {:induction false} ContentAppend(a: seq<Piece>, b: seq<Piece>)
    ensures Content(a + b) == Content(a) + Content(b)
    decreases |b|
  {
    if |b| == 0 {
      assert a + b == a;
    } else {
      var b', x := b[..|b| - 1], b[|b| - 1];
      assert (a + b)[..|a + b| - 1] == a + b';
      assert (a + b)[|a + b| - 1] == x;
      ContentAppend(a, b');
      assert Content(a + b) == Content(a + b') + x.text;
      assert Content(b) == Content(b') + x.text;
      Associative(Content(a), Content(b'), x.text);
    }
  }

  lemma {:induction false} MarkedAppend(a: seq<Piece>, b: seq<Piece>)
    ensures MarkedText(a + b) == MarkedText(a) + MarkedText(b)
    decreases |b|
  {
    if |b| == 0 {
      assert a + b == a;
    } else {
      var b', x := b[..|b| - 1], b[|b| - 1];
      assert (a + b)[..|a + b| - 1] == a + b';
      assert (a + b)[|a + b| - 1] == x;
      MarkedAppend(a, b');
      var t := if x.Marked? then x.text else "";
      assert MarkedText(a + b) == MarkedText(a + b') + t;
      assert MarkedText(b) == MarkedText(b') + t;
      Associative(MarkedText(a), MarkedText(b'), t);
    }
  }

  lemma {:induction false} CountAppend(a: seq<Piece>, b: seq<Piece>)
    ensures MarkCount(a + b) == MarkCount(a) + MarkCount(b)
    decreases |b|
  {
    if |b| == 0 {
      assert a + b == a;
    } else {
      assert (a + b)[..|a + b| - 1] == a + b[..|b| - 1];
      CountAppend(a, b[..|b| - 1]);
    }
  }

  /** Joining two runs of pieces joins their texts, their highlights and their counts. */
  lemma PiecesAppend(a: seq<Piece>, b: seq<Piece>)
    ensures Content(a + b) == Content(a) + Content(b)
    ensures MarkedText(a + b) == MarkedText(a) + MarkedText(b)
    ensures MarkCount(a + b) == MarkCount(a) + MarkCount(b)
  {
    ContentAppend(a, b);
    MarkedAppend(a, b);
    CountAppend(a, b);
  }

  /** buildHighlightedSpan (lines 54-67), appending piece by piece. */
  method BuildHighlightedSpan(text: string, ranges: seq<Run>) returns (span: seq<Piece>)
    ensures span == Highlighted(text, ranges)
  {
    span := [];
    var pos := 0;
    for k := 0 to |ranges|
      invariant Progress(span, pos) == Progressed(text, ranges[..k])
    {
      assert ranges[..k + 1][..k] == ranges[..k];
      var a, b := ranges[k].first, ranges[k].last;
      if a > pos {
        span := span + [Unmarked(Slice(text, pos, a))];
      }
      span := span + [Marked(Slice(text, a, b + 1))];
      pos := b + 1;
    }
    assert ranges[..|ranges|] == ranges;
    if pos < |text| {
      span := span + [Unmarked(Slice(text, pos, |text|))];
    }
  }

  /** A lone piece: its text, marked or not. */
  lemma OnePiece(x: Piece)
    ensures Content([x]) == x.text
    ensures MarkedText([x]) == (if x.Marked? then x.text else "")
    ensures MarkCount([x]) == (if x.Marked? then 1 else 0)
  {
    assert [x][..0] == [];
  }

  /** Pieces, an unmarked gap (possibly none) and one mark, joined: the texts follow each other. */
  lemma GapAndMarkContent(pieces: seq<Piece>, gap: seq<Piece>, mark: Piece)
    ensures Content((pieces + gap) + [mark]) == (Content(pieces) + Content(gap)) + mark.text
  {
    ContentAppend(pieces, gap);
    ContentAppend(pieces + gap, [mark]);
    OnePiece(mark);
  }

  /** An unmarked gap adds nothing to the highlights, the mark adds its text. */
  lemma GapAndMarkMarked(pieces: seq<Piece>, gap: seq<Piece>, mark: Piece)
    requires |gap| <= 1 && (|gap| == 1 ==> gap[0].Unmarked?) && mark.Marked?
    ensures MarkedText((pieces + gap) + [mark]) == MarkedText(pieces) + mark.text
  {
    MarkedAppend(pieces, gap);
    MarkedAppend(pieces + gap, [mark]);
    OnePiece(mark);
    if |gap| == 1 {
      OnePiece(gap[0]);
      assert gap == [gap[0]];
    }
  }

  /** An unmarked gap and a mark add one highlight. */
  lemma GapAndMarkCount(pieces: seq<Piece>, gap: seq<Piece>, mark: Piece)
    requires |gap| <= 1 && (|gap| == 1 ==> gap[0].Unmarked?) && mark.Marked?
    ensures MarkCount((pieces + gap) + [mark]) == MarkCount(pieces) + 1
  {
    CountAppend(pieces, gap);
    CountAppend(pieces + gap, [mark]);
    OnePiece(mark);
    if |gap| == 1 {
      OnePiece(gap[0]);
      assert gap == [gap[0]];
    }
  }

  /** Three adjacent slices of a text make one. */
  lemma Adjacent(text: string, a: int, b: int, c: int)
    requires 0 <= a <= b <= c <= |text|
    ensures text[a..b] + text[b..c] == text[a..c]
  {
  }

  lemma PrefixThenSlice(text: string, b: int, c: int)
    requires 0 <= b <= c <= |text|
    ensures text[..b] + text[b..c] == text[..c]
  {
  }

  lemma Associative(a: string, b: string, c: string)
    ensures (a + b) + c == a + (b + c)
  {
  }

  lemma AdvanceAdds(text: string, p: Progress, r: Run)
    ensures Advance(text, p, r).pieces
      == (p.pieces + (if r.first > p.pos then [Unmarked(Slice(text, p.pos, r.first))] else []))
         + [Marked(Slice(text, r.first, r.last + 1))]
    ensures Advance(text, p, r).pos == r.last + 1
  {
  }

  /** One range after the text up to `pos` adds the text up to its end. */
  lemma AdvanceContent(text: string, p: Progress, r: Run)
    requires 0 <= p.pos <= r.first <= r.last < |text|
    ensures Content(Advance(text, p, r).pieces) == Content(p.pieces) + text[p.pos..r.last + 1]
  {
    var g, m := text[p.pos..r.first], text[r.first..r.last + 1];
    assert Slice(text, p.pos, r.first) == g;
    assert Slice(text, r.first, r.last + 1) == m;
    AdvanceAdds(text, p, r);
    var q := Advance(text, p, r);
    Adjacent(text, p.pos, r.first, r.last + 1);
    if r.first > p.pos {
      assert q.pieces == (p.pieces + [Unmarked(g)]) + [Marked(m)];
      GapAndMarkContent(p.pieces, [Unmarked(g)], Marked(m));
      OnePiece(Unmarked(g));
      Associative(Content(p.pieces), g, m);
    } else {
      assert q.pieces == (p.pieces + []) + [Marked(m)];
      GapAndMarkContent(p.pieces, [], Marked(m));
      assert g + m == m;
    }
  }

  /** One range marks exactly its own characters. */
  lemma AdvanceMarked(text: string, p: Progress, r: Run)
    requires 0 <= p.pos <= r.first <= r.last < |text|
    ensures MarkedText(Advance(text, p, r).pieces) == MarkedText(p.pieces) + text[r.first..r.last + 1]
  {
    var m := text[r.first..r.last + 1];
    assert Slice(text, r.first, r.last + 1) == m;
    var gap: seq<Piece> := if r.first > p.pos then [Unmarked(Slice(text, p.pos, r.first))] else [];
    AdvanceAdds(text, p, r);
    GapAndMarkMarked(p.pieces, gap, Marked(m));
  }

  /** One range adds one highlight. */
  lemma AdvanceCount(text: string, p: Progress, r: Run)
    ensures MarkCount(Advance(text, p, r).pieces) == MarkCount(p.pieces) + 1
  {
    var gap: seq<Piece> := if r.first > p.pos then [Unmarked(Slice(text, p.pos, r.first))] else [];
    AdvanceAdds(text, p, r);
    GapAndMarkCount(p.pieces, gap, Marked(Slice(text, r.first, r.last + 1)));
  }

  /** Ranges inside `[0, n)`, each non-empty and each starting after the end of the one before. */
  predicate Ordered(rs: seq<Run>, n: int) {
    if |rs| == 0 then true
    else
      var init, r := rs[..|rs| - 1], rs[|rs| - 1];
      && Ordered(init, n)
      && 0 <= r.first <= r.last < n
      && (|init| > 0 ==> init[|init| - 1].last < r.first)
  }

  /** The characters the ranges cover, range after range (with `slice`'s clamping). */
  function CoveredText(text: string, rs: seq<Run>): string {
    if |rs| == 0 then ""
    else CoveredText(text, rs[..|rs| - 1]) + Slice(text, rs[|rs| - 1].first, rs[|rs| - 1].last + 1)
  }

  lemma {:induction false} SeparatedOrdered(rs: seq<Run>, n: int)
    requires Separated(rs) && Within(rs, n)
    ensures Ordered(rs, n)
  {
    if |rs| > 0 {
      var init := rs[..|rs| - 1];
      assert Separated(init) && Within(init, n);
      SeparatedOrdered(init, n);
      if |init| > 0 {
        assert init[|init| - 1] == rs[|rs| - 2];
      }
    }
  }

  lemma {:induction false} CoveredSpell(text: string, rs: seq<Run>)
    requires Separated(rs) && Within(rs, |text|)
    ensures CoveredText(text, rs) == Spell(rs, text)
  {
    if |rs| > 0 {
      var init, r := rs[..|rs| - 1], rs[|rs| - 1];
      assert Separated(init) && Within(init, |text|);
      CoveredSpell(text, init);
      assert Slice(text, r.first, r.last + 1) == text[r.first..r.last + 1];
    }
  }

  /** After ordered ranges the position reached is the end of the last range. */
  lemma {:induction false} ProgressedPos(text: string, ranges: seq<Run>)
    requires Ordered(ranges, |text|)
    ensures Progressed(text, ranges).pos == (if |ranges| == 0 then 0 else ranges[|ranges| - 1].last + 1)
  {
    if |ranges| > 0 {
      ProgressedPos(text, ranges[..|ranges| - 1]);
    }
  }

  lemma ContentStep(text: string, p: Progress, r: Run)
    requires 0 <= p.pos <= r.first <= r.last < |text|
    requires Content(p.pieces) == text[..p.pos]
    ensures Content(Advance(text, p, r).pieces) == text[..r.last + 1]
  {
    AdvanceContent(text, p, r);
    PrefixThenSlice(text, p.pos, r.last + 1);
  }

  /** After ordered ranges the pieces so far spell the text up to the end of the last range. */
  lemma {:induction false} ProgressedContent(text: string, ranges: seq<Run>)
    requires Ordered(ranges, |text|)
    ensures 0 <= Progressed(text, ranges).pos <= |text|
    ensures Content(Progressed(text, ranges).pieces) == text[..Progressed(text, ranges).pos]
  {
    if |ranges| > 0 {
      var init, r := ranges[..|ranges| - 1], ranges[|ranges| - 1];
      assert Ordered(init, |text|) && 0 <= r.first <= r.last < |text|;
      ProgressedContent(text, init);
      ProgressedPos(text, init);
      var p := Progressed(text, init);
      ContentStep(text, p, r);
    }
  }

  lemma MarksStep(text: string, p: Progress, r: Run)
    requires 0 <= p.pos <= r.first <= r.last < |text|
    ensures MarkedText(Advance(text, p, r).pieces) == MarkedText(p.pieces) + Slice(text, r.first, r.last + 1)
  {
    AdvanceMarked(text, p, r);
    assert Slice(text, r.first, r.last + 1) == text[r.first..r.last + 1];
  }

  /** After ordered ranges the marked pieces spell exactly the covered characters. */
  lemma {:induction false} ProgressedMarks(text: string, ranges: seq<Run>)
    requires Ordered(ranges, |text|)
    ensures MarkedText(Progressed(text, ranges).pieces) == CoveredText(text, ranges)
  {
    if |ranges| > 0 {
      var init, r := ranges[..|ranges| - 1], ranges[|ranges| - 1];
      assert Ordered(init, |text|) && 0 <= r.first <= r.last < |text|;
      ProgressedMarks(text, init);
      ProgressedPos(text, init);
      MarksStep(text, Progressed(text, init), r);
    }
  }

  /** After ordered ranges there is one highlight per range. */
  lemma {:induction false} ProgressedCount(text: string, ranges: seq<Run>)
    requires Ordered(ranges, |text|)
    ensures MarkCount(Progressed(text, ranges).pieces) == |ranges|
  {
    if |ranges| > 0 {
      var init, r := ranges[..|ranges| - 1], ranges[|ranges| - 1];
      ProgressedCount(text, init);
      AdvanceCount(text, Progressed(text, init), r);
    }
  }

  /** The tail after the last range (line 65) completes the text and marks nothing. */
  lemma FinishShape(text: string, p: Progress)
    requires 0 <= p.pos <= |text| && Content(p.pieces) == text[..p.pos]
    ensures var tail: seq<Piece> := if p.pos < |text| then [Unmarked(Slice(text, p.pos, |text|))] else [];
      && Content(p.pieces + tail) == text
      && MarkedText(p.pieces + tail) == MarkedText(p.pieces)
      && MarkCount(p.pieces + tail) == MarkCount(p.pieces)
  {
    assert Slice(text, p.pos, |text|) == text[p.pos..];
    var tail: seq<Piece> := if p.pos < |text| then [Unmarked(text[p.pos..])] else [];
    PiecesAppend(p.pieces, tail);
    assert Content(tail) == text[p.pos..] && MarkedText(tail) == "" && MarkCount(tail) == 0 by {
      if p.pos < |text| {
        OnePiece(Unmarked(text[p.pos..]));
      }
    }
    assert text[..p.pos] + text[p.pos..] == text;
  }

  /**
   * For ascending, separated ranges inside the text the span shows the whole text unchanged,
   * highlights exactly the characters the ranges cover, in order, and has one highlight per range.
   */
  lemma HighlightedRoundTrip(text: string, ranges: seq<Run>)
    requires Separated(ranges) && Within(ranges, |text|)
    ensures Content(Highlighted(text, ranges)) == text
    ensures MarkedText(Highlighted(text, ranges)) == Spell(ranges, text)
    ensures MarkCount(Highlighted(text, ranges)) == |ranges|
  {
    SeparatedOrdered(ranges, |text|);
    ProgressedContent(text, ranges);
    ProgressedMarks(text, ranges);
    ProgressedCount(text, ranges);
    FinishShape(text, Progressed(text, ranges));
    CoveredSpell(text, ranges);
  }
}
