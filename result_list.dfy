/**
 * The result list of the overlay (app.js): the state object `STATE` (line 7) together with the
 * `<li>` rows of the list, focus handling, rendering, the two close paths and the keyboard
 * handler. The DOM is reduced to the sequence of rows it shows.
 */
module ResultList {
  import opened Wrappers
  import opened JsString
  import opened Subsequence
  import opened StableSort
  import opened MicrofuzzSearch
  import opened Tabs
  import opened Highlight
  import opened Filtering

  /** An item handed to renderTabsList: a tab and, for search results, its per-text ranges. */
  datatype Listed = Listed(tab: Tab, matches: seq<Option<seq<Run>>>)

  /** An `<li>` of the list: a tab with its title and URL spans, or the single message row. */
  datatype Row = TabRow(tab: Tab, title: seq<Piece>, url: seq<Piece>) | Placeholder(message: string)

  /** A key press, as far as the handler of lines 302-374 tells keys apart. */
  datatype Key = Escape | Down | Up | Enter | CloseKey | OtherKey

  /** What a key press asks of the browser (a message or closing the window). */
  datatype Effect = NoEffect | CloseWindow | ActivateTab(tabId: int) | RequestClose(tabId: int, row: nat)

  /** The texts searched for a tab (line 81): its title, then its URL. */
  function TabTexts(t: Tab): seq<Option<string>> {
    [t.title, t.url]
  }

  /** `Math.max(0, Math.min(n - 1, k))` (line 20). */
  function Clamp(n: nat, k: int): (c: int)
    requires n > 0
    ensures 0 <= c < n
    ensures 0 <= k < n ==> c == k
    ensures k < 0 ==> c == 0
    ensures k >= n ==> c == n - 1
  {
    if k < 0 then 0 else if k > n - 1 then n - 1 else k
  }

  /** The focused index after setFocusedIndex(newIndex) on a list of `n` rows (lines 15-32). */
  function FocusAfter(n: nat, newIndex: int): int {
    if n == 0 then -1 else Clamp(n, newIndex)
  }

  /** The index moveFocus(delta) asks for (line 38). */
  function MoveTarget(focused: int, delta: int): int {
    if focused < 0 then 0 else focused + delta
  }

  /** The title shown: the title if it is not blank, else the URL, else "Untitled" (line 161). */
  function TitleLabel(t: Tab): string {
    if t.title.Some? && Trim(t.title.value) != "" then t.title.value
    else if t.url.Some? && t.url.value != "" then t.url.value
    else "Untitled"
  }

  /** The URL shown (line 171). */
  function UrlLabel(t: Tab): string {
    if t.url.Some? then t.url.value else ""
  }

  /** `matches[k]`, `undefined` (here `None`) past the end or when there are no matches. */
  function MatchAt(matches: seq<Option<seq<Run>>>, k: nat): Option<seq<Run>> {
    if k < |matches| then matches[k] else None
  }

  /**
   * A title or URL span as lines 162-177 build it: highlighted with the match ranges when there
   * is a query and ranges, else the plain text. The ranges index the normalized text, and they
   * are applied to the text as shown unchanged.
   */
  function Label(query: string, text: string, ranges: Option<seq<Run>>): seq<Piece> {
    if query != "" && ranges.Some? then Highlighted(text, ranges.value) else [Unmarked(text)]
  }

  /** The row built for one item (lines 104-253). */
  function RowOf(query: string, item: Listed): Row {
    TabRow(item.tab,
           Label(query, TitleLabel(item.tab), MatchAt(item.matches, 0)),
           Label(query, UrlLabel(item.tab), MatchAt(item.matches, 1)))
  }

  /** The message of the empty list (line 98). */
  function EmptyMessage(query: string): string {
    if query != "" then "No results" else "No tabs available"
  }

  /** One row per item, in order. */
  function RowsOf(query: string, items: seq<Listed>): (rows: seq<Row>)
    ensures |rows| == |items|
  {
    if |items| == 0 then []
    else RowsOf(query, items[..|items| - 1]) + [RowOf(query, items[|items| - 1])]
  }

  /** The rows renderTabsList leaves in the list. */
  function RowsFor(query: string, items: seq<Listed>): (rows: seq<Row>)
    ensures |rows| == if |items| == 0 then 1 else |items|
  {
    if |items| == 0 then [Placeholder(EmptyMessage(query))] else RowsOf(query, items)
  }

  /** The tabs without search results, in their order (line 76). */
  function PlainListed(tabs: seq<Tab>): (items: seq<Listed>)
    ensures |items| == |tabs|
  {
    seq(|tabs|, i requires 0 <= i < |tabs| => Listed(tabs[i], []))
  }

  /** `items.map(n => n.item)` (line 93). */
  function TabsOf(items: seq<Listed>): (tabs: seq<Tab>)
    ensures |tabs| == |items| && forall i :: 0 <= i < |items| ==> tabs[i] == items[i].tab
  {
    seq(|items|, i requires 0 <= i < |items| => items[i].tab)
  }

  /** The tabs of the `<li>` rows that carry a tab id, in list order. */
  function RowTabs(rows: seq<Row>): seq<Tab> {
    if |rows| == 0 then []
    else RowTabs(rows[..|rows| - 1]) + (if rows[|rows| - 1].TabRow? then [rows[|rows| - 1].tab] else [])
  }

  /** Search results as list items. */
  function ListedOf(results: seq<SearchResult<Tab>>): (items: seq<Listed>)
    ensures |items| == |results|
    ensures forall i :: 0 <= i < |results| ==> items[i] == Listed(results[i].item, results[i].matches)
  {
    seq(|results|, i requires 0 <= i < |results| => Listed(results[i].item, results[i].matches))
  }

  /** The items computeResultsAndRender hands to renderTabsList for the trimmed query `q` (lines 74-84). */
  function ItemsFor(allTabs: seq<Tab>, q: string): seq<Listed> {
    if q == "" then PlainListed(allTabs)
    else ListedOf(Sort(Collected(CreateFuzzySearch(allTabs, TabTexts), q), ScoreOf))
  }

  class Overlay {
    /** The text of the search box. */
    var inputValue: string
    var allTabs: seq<Tab>
    var tabs: seq<Tab>
    var focusedIndex: int
    var query: string
    var allowMouseFocus: bool
    /** The `<li>` elements of the result list, in order. */
    var rows: seq<Row>

    /** The focus is on a row, or on none (-1). */
    ghost predicate Valid()
      reads this
    {
      -1 <= focusedIndex < |rows|
    }

    /** The list shows `items` for the current query, focused on the first row if there is one. */
    ghost predicate Shows(items: seq<Listed>)
      reads this
    {
      && tabs == TabsOf(items)
      && rows == RowsFor(query, items)
      && focusedIndex == (if |items| == 0 then -1 else 0)
    }

    /** The initial state (line 7) and an empty list. */
    constructor()
      ensures Valid()
      ensures inputValue == "" && allTabs == [] && tabs == [] && focusedIndex == -1
      ensures query == "" && !allowMouseFocus && rows == []
    {
      inputValue := "";
      allTabs := [];
      tabs := [];
      focusedIndex := -1;
      query := "";
      allowMouseFocus := false;
      rows := [];
    }

    /** setFocusedIndex (lines 15-32). */
    method SetFocusedIndex(newIndex: int)
      modifies this
      ensures Valid()
      ensures focusedIndex == FocusAfter(|rows|, newIndex)
      ensures rows == old(rows) && tabs == old(tabs) && allTabs == old(allTabs)
      ensures query == old(query) && inputValue == old(inputValue) && allowMouseFocus == old(allowMouseFocus)
    {
      if |rows| == 0 {
        focusedIndex := -1;
        return;
      }
      var max := |rows| - 1;
      var index := if newIndex < max then newIndex else max;
      index := if 0 < index then index else 0;
      focusedIndex := index;
    }

    /** moveFocus (lines 34-40). */
    method MoveFocus(delta: int)
      requires Valid()
      modifies this
      ensures Valid()
      ensures focusedIndex == if |rows| == 0 then old(focusedIndex) else FocusAfter(|rows|, MoveTarget(old(focusedIndex), delta))
      ensures rows == old(rows) && tabs == old(tabs) && allTabs == old(allTabs)
      ensures query == old(query) && inputValue == old(inputValue) && allowMouseFocus == old(allowMouseFocus)
    {
      if |rows| == 0 {
        return;
      }
      var next := if focusedIndex < 0 then 0 else focusedIndex + delta;
      SetFocusedIndex(next);
    }

    /** renderTabsList (lines 87-259): the rows are rebuilt and the first one is focused. */
    method RenderTabsList(items: seq<Listed>)
      modifies this
      ensures Valid() && Shows(items)
      ensures query == old(query) && allTabs == old(allTabs) && inputValue == old(inputValue)
      ensures allowMouseFocus == old(allowMouseFocus)
    {
      rows := [];
      tabs := TabsOf(items);
      focusedIndex := -1;
      if |items| == 0 {
        rows := [Placeholder(EmptyMessage(query))];
        return;
      }
      for i := 0 to |items|
        invariant rows == RowsOf(query, items[..i])
        invariant tabs == TabsOf(items) && focusedIndex == -1
        invariant query == old(query) && allTabs == old(allTabs) && inputValue == old(inputValue)
        invariant allowMouseFocus == old(allowMouseFocus)
      {
        var row := BuildRow(query, items[i]);
        assert items[..i + 1][..i] == items[..i];
        rows := rows + [row];
      }
      assert items[..|items|] == items;
      SetFocusedIndex(0);
    }

    /** computeResultsAndRender (lines 69-85). */
    method ComputeResultsAndRender()
      modifies this
      ensures Valid()
      ensures query == Trim(old(inputValue)) && Shows(ItemsFor(old(allTabs), query))
      ensures allTabs == old(allTabs) && inputValue == old(inputValue) && allowMouseFocus == old(allowMouseFocus)
    {
      var q := Trim(inputValue);
      query := q;
      if q == "" {
        RenderTabsList(PlainListed(allTabs));
        return;
      }
      var results := Search(CreateFuzzySearch(allTabs, TabTexts), q);
      RenderTabsList(ListedOf(results));
    }

    /** The search box changed (line 293). */
    method Input(value: string)
      modifies this
      ensures Valid()
      ensures inputValue == value && query == Trim(value) && Shows(ItemsFor(old(allTabs), query))
      ensures allTabs == old(allTabs) && allowMouseFocus == old(allowMouseFocus)
    {
      inputValue := value;
      ComputeResultsAndRender();
    }

    /** The tab list arrived (lines 264-274): a failed request counts as no tabs. */
    method TabsArrived(response: Option<seq<Tab>>)
      modifies this
      ensures Valid()
      ensures allTabs == (if response.Some? then response.value else [])
      ensures query == Trim(old(inputValue)) && Shows(ItemsFor(allTabs, query))
      ensures inputValue == old(inputValue) && allowMouseFocus == old(allowMouseFocus)
    {
      allTabs := if response.Some? then response.value else [];
      ComputeResultsAndRender();
    }

    /**
     * The reply to a close-tab message (lines 203-217 and 352-368): the row the request came from
     * is removed if it is still in the list (`at`), the tab is dropped from both lists, and the
     * focus stays where it was, moved up if it fell off the end; an emptied list is rendered anew.
     */
    method TabClosed(at: Option<nat>, tabId: int)
      requires Valid() && (at.Some? ==> at.value < |rows|)
      modifies this
      ensures Valid()
      ensures allTabs == WithoutId(old(allTabs), tabId)
      ensures var remaining := if at.Some? then old(rows)[..at.value] + old(rows)[at.value + 1..] else old(rows);
        if |remaining| > 0 then
          && rows == remaining && tabs == WithoutId(old(tabs), tabId)
          && focusedIndex == Clamp(|remaining|, if old(focusedIndex) < |remaining| - 1 then old(focusedIndex) else |remaining| - 1)
          && query == old(query)
        else
          query == Trim(old(inputValue)) && Shows(ItemsFor(allTabs, query))
      ensures inputValue == old(inputValue) && allowMouseFocus == old(allowMouseFocus)
    {
      if at.Some? {
        rows := rows[..at.value] + rows[at.value + 1..];
      }
      tabs := WithoutId(tabs, tabId);
      allTabs := WithoutId(allTabs, tabId);
      if |rows| > 0 {
        var idx := if focusedIndex < |rows| - 1 then focusedIndex else |rows| - 1;
        focusedIndex := -1;
        SetFocusedIndex(idx);
      } else {
        ComputeResultsAndRender();
      }
    }

    /** The tab id of the focused row, if it has one (lines 326-329 and 342-345). */
    method FocusedTabId() returns (id: Option<int>)
      requires Valid()
      ensures id.Some? <==> focusedIndex >= 0 && rows[focusedIndex].TabRow?
      ensures id.Some? ==> id.value == rows[focusedIndex].tab.id
    {
      if focusedIndex >= 0 && rows[focusedIndex].TabRow? {
        return Some(rows[focusedIndex].tab.id);
      }
      return None;
    }

    /**
     * The keyboard handler (lines 302-374): any key turns mouse focusing off; Escape closes the
     * window; Down/Up move the focus; Enter activates and the close key asks to close the focused tab.
     */
    method KeyDown(key: Key) returns (effect: Effect)
      requires Valid()
      modifies this
      ensures Valid() && !allowMouseFocus
      ensures rows == old(rows) && tabs == old(tabs) && allTabs == old(allTabs) && query == old(query)
      ensures inputValue == old(inputValue)
      ensures key == Down ==> focusedIndex == if |rows| == 0 then old(focusedIndex) else FocusAfter(|rows|, MoveTarget(old(focusedIndex), 1))
      ensures key == Up ==> focusedIndex == if |rows| == 0 then old(focusedIndex) else FocusAfter(|rows|, MoveTarget(old(focusedIndex), -1))
      ensures key != Down && key != Up ==> focusedIndex == old(focusedIndex)
      ensures key == Escape <==> effect == CloseWindow
      ensures effect.ActivateTab? <==> key == Enter && focusedIndex >= 0 && rows[focusedIndex].TabRow?
      ensures effect.RequestClose? <==> key == CloseKey && focusedIndex >= 0 && rows[focusedIndex].TabRow?
      ensures effect.ActivateTab? ==> effect.tabId == rows[focusedIndex].tab.id
      ensures effect.RequestClose? ==> effect.row == focusedIndex && effect.tabId == rows[focusedIndex].tab.id
    {
      allowMouseFocus := false;
      effect := NoEffect;
      match key
      case Escape =>
        effect := CloseWindow;
      case Down =>
        MoveFocus(1);
      case Up =>
        MoveFocus(-1);
      case Enter =>
        var id := FocusedTabId();
        if id.Some? {
          effect := ActivateTab(id.value);
        }
      case CloseKey =>
        var id := FocusedTabId();
        if id.Some? {
          effect := RequestClose(id.value, focusedIndex);
        }
      case OtherKey =>
    }

    /** Mouse movement turns hover focusing on (lines 297-299). */
    method MouseMoved()
      modifies this
      ensures allowMouseFocus
      ensures rows == old(rows) && tabs == old(tabs) && allTabs == old(allTabs) && query == old(query)
      ensures inputValue == old(inputValue) && focusedIndex == old(focusedIndex)
    {
      allowMouseFocus := true;
    }

    /**
     * The pointer entered the row at `idx` (-1 once the row is gone, as `indexOf` answers),
     * lines 226-230: it takes the focus only while hover focusing is on.
     */
    method Hover(idx: int)
      requires Valid()
      modifies this
      ensures Valid()
      ensures focusedIndex == if old(allowMouseFocus) then FocusAfter(|rows|, idx) else old(focusedIndex)
      ensures rows == old(rows) && tabs == old(tabs) && allTabs == old(allTabs) && query == old(query)
      ensures inputValue == old(inputValue) && allowMouseFocus == old(allowMouseFocus)
    {
      if allowMouseFocus {
        SetFocusedIndex(idx);
      }
    }
  }

  /** The row of one item, built as lines 158-177 do (`buildHighlightedSpan` for highlighted spans). */
  method BuildRow(query: string, item: Listed) returns (row: Row)
    ensures row == RowOf(query, item)
  {
    var titleText := TitleLabel(item.tab);
    var title := [Unmarked(titleText)];
    var titleMatches := MatchAt(item.matches, 0);
    if query != "" && titleMatches.Some? {
      title := BuildHighlightedSpan(titleText, titleMatches.value);
    }
    var urlText := UrlLabel(item.tab);
    var url := [Unmarked(urlText)];
    var urlMatches := MatchAt(item.matches, 1);
    if query != "" && urlMatches.Some? {
      url := BuildHighlightedSpan(urlText, urlMatches.value);
    }
    return TabRow(item.tab, title, url);
  }

  /** Moving down and then up from a row that is not the last comes back to it. */
  lemma MoveDownThenUp(n: nat, focused: int)
    requires 0 <= focused < n - 1
    ensures FocusAfter(n, MoveTarget(FocusAfter(n, MoveTarget(focused, 1)), -1)) == focused
  {
  }

  /** Moving never leaves the list, sticks at both ends, and from no focus lands on the first row. */
  lemma MoveStaysOnList(n: nat, focused: int, delta: int)
    requires n > 0 && -1 <= focused < n
    ensures 0 <= FocusAfter(n, MoveTarget(focused, delta)) < n
    ensures focused < 0 ==> FocusAfter(n, MoveTarget(focused, delta)) == 0
    ensures focused == n - 1 && delta >= 0 ==> FocusAfter(n, MoveTarget(focused, delta)) == n - 1
    ensures focused == 0 && delta <= 0 ==> FocusAfter(n, MoveTarget(focused, delta)) == 0
  {
  }

  lemma {:induction false} RowTabsAppend(a: seq<Row>, b: seq<Row>)
    ensures RowTabs(a + b) == RowTabs(a) + RowTabs(b)
    decreases |b|
  {
    if |b| == 0 {
      assert a + b == a;
    } else {
      assert (a + b)[..|a + b| - 1] == a + b[..|b| - 1];
      RowTabsAppend(a, b[..|b| - 1]);
    }
  }

  /** Each tab of the rows comes from a row that shows it. */
  lemma {:induction false} RowTabsFrom(rows: seq<Row>, t: Tab)
    requires t in RowTabs(rows)
    ensures exists k :: 0 <= k < |rows| && rows[k].TabRow? && rows[k].tab == t
  {
    var init := rows[..|rows| - 1];
    if t in RowTabs(init) {
      RowTabsFrom(init, t);
      var k :| 0 <= k < |init| && init[k].TabRow? && init[k].tab == t;
      assert rows[k] == init[k];
    }
  }

  lemma {:induction false} RowsOfShowTabs(query: string, items: seq<Listed>)
    ensures RowTabs(RowsOf(query, items)) == TabsOf(items)
  {
    if |items| > 0 {
      var init, last := items[..|items| - 1], items[|items| - 1];
      RowsOfShowTabs(query, init);
      var rows := RowsOf(query, items);
      assert rows[..|rows| - 1] == RowsOf(query, init);
      assert RowTabs(rows) == TabsOf(init) + [last.tab];
      var whole, part := TabsOf(items), TabsOf(init) + [last.tab];
      forall k | 0 <= k < |items|
        ensures whole[k] == part[k]
      {
        if k < |init| {
          assert init[k] == items[k];
        }
      }
      assert whole == part;
    }
  }

  /** A rendered list shows, row by row, exactly the tabs the state holds. */
  lemma RowsShowTabs(query: string, items: seq<Listed>)
    ensures RowTabs(RowsFor(query, items)) == TabsOf(items)
  {
    if |items| == 0 {
      assert [Placeholder(EmptyMessage(query))][..0] == [];
    } else {
      RowsOfShowTabs(query, items);
    }
  }

  /** Rows none of which shows the id keep all their tabs under the filter. */
  lemma RowsWithoutId(rows: seq<Row>, tabId: int)
    requires forall k :: 0 <= k < |rows| && rows[k].TabRow? ==> rows[k].tab.id != tabId
    ensures WithoutId(RowTabs(rows), tabId) == RowTabs(rows)
  {
    forall k | 0 <= k < |RowTabs(rows)|
      ensures RowTabs(rows)[k].id != tabId
    {
      RowTabsFrom(rows, RowTabs(rows)[k]);
    }
    WithoutIdAbsent(RowTabs(rows), tabId);
  }

  /**
   * Removing the row of a closed tab keeps the list and the state in step: when no other row
   * shows a tab with that id, the remaining rows show exactly the tabs left after the filter.
   */
  lemma ClosedRowInStep(rows: seq<Row>, at: nat, tabId: int)
    requires at < |rows| && rows[at].TabRow? && rows[at].tab.id == tabId
    requires forall k :: 0 <= k < |rows| && k != at && rows[k].TabRow? ==> rows[k].tab.id != tabId
    ensures RowTabs(rows[..at] + rows[at + 1..]) == WithoutId(RowTabs(rows), tabId)
  {
    var before, closed, after := rows[..at], rows[at], rows[at + 1..];
    assert forall k :: 0 <= k < |before| ==> before[k] == rows[k];
    assert forall k :: 0 <= k < |after| ==> after[k] == rows[at + 1 + k];
    RowsWithoutId(before, tabId);
    RowsWithoutId(after, tabId);
    RowTabsAround(before, closed, after);
    WithoutIdDropsOne(RowTabs(before), closed.tab, RowTabs(after), tabId);
    assert rows == before + [closed] + after;
  }

  /** The tabs of rows around one tab row: that row's tab between the others'. */
  lemma RowTabsAround(before: seq<Row>, closed: Row, after: seq<Row>)
    requires closed.TabRow?
    ensures RowTabs(before + [closed] + after) == RowTabs(before) + [closed.tab] + RowTabs(after)
    ensures RowTabs(before + after) == RowTabs(before) + RowTabs(after)
  {
    RowTabsAppend(before + [closed], after);
    RowTabsAppend(before, [closed]);
    RowTabsAppend(before, after);
    assert [closed][..0] == [];
  }

  /** With no query the list shows every tab, in the browser's order. */
  lemma EmptyQueryShowsAll(allTabs: seq<Tab>)
    ensures TabsOf(ItemsFor(allTabs, "")) == allTabs
  {
  }

  /** With a query the list shows only open tabs, each one a tab some text of which matched. */
  lemma ResultsAreOpenTabs(allTabs: seq<Tab>, q: string, i: int)
    requires q != "" && 0 <= i < |ItemsFor(allTabs, q)|
    ensures exists j :: 0 <= j < |allTabs| && ItemsFor(allTabs, q)[i].tab == allTabs[j]
                        && ResultOf(CreateFuzzySearch(allTabs, TabTexts)[j], q).Some?
  {
    var entries := CreateFuzzySearch(allTabs, TabTexts);
    var sorted := Sort(Collected(entries, q), ScoreOf);
    assert sorted[i] in multiset(Collected(entries, q)) by {
      assert sorted[i] in multiset(sorted);
    }
    CollectedFromEntries(entries, q, sorted[i]);
    var j :| 0 <= j < |entries| && sorted[i].item == entries[j].element && ResultOf(entries[j], q) == Some(sorted[i]);
    assert entries[j].element == allTabs[j];
    assert ItemsFor(allTabs, q) == ListedOf(sorted);
    assert ListedOf(sorted)[i].tab == sorted[i].item;
  }

  /**
   * A span built from separated ranges inside its text shows that text unchanged, with one mark
   * per range marking the characters the ranges cover; without a query or ranges it has no mark.
   */
  lemma LabelShowsText(query: string, text: string, ranges: Option<seq<Run>>)
    requires ranges.Some? ==> Separated(ranges.value) && Within(ranges.value, |text|)
    ensures Content(Label(query, text, ranges)) == text
    ensures query == "" || ranges.None? ==> MarkCount(Label(query, text, ranges)) == 0
    ensures query != "" && ranges.Some? ==>
      && MarkCount(Label(query, text, ranges)) == |ranges.value|
      && MarkedText(Label(query, text, ranges)) == Spell(ranges.value, text)
  {
    if query != "" && ranges.Some? {
      HighlightedRoundTrip(text, ranges.value);
    } else {
      OnePiece(Unmarked(text));
    }
  }
}
