/** A browser tab as the content scripts receive it: id, optional title and URL, active flag. */
module Tabs {
  import opened Wrappers

  datatype Tab = Tab(id: int, title: Option<string>, url: Option<string>, active: bool)

  /** The tabs whose id is not `id`, in their order (`tabs.filter(t => t.id !== id)`). */
  function WithoutId(tabs: seq<Tab>, id: int): (r: seq<Tab>)
    ensures |r| <= |tabs|
    ensures forall k :: 0 <= k < |r| ==> r[k].id != id
  {
    if |tabs| == 0 then []
    else WithoutId(tabs[..|tabs| - 1], id) + (if tabs[|tabs| - 1].id != id then [tabs[|tabs| - 1]] else [])
  }

  /** The tabs whose id is `id`, in their order. */
  function Only(tabs: seq<Tab>, id: int): seq<Tab> {
    if |tabs| == 0 then []
    else Only(tabs[..|tabs| - 1], id) + (if tabs[|tabs| - 1].id == id then [tabs[|tabs| - 1]] else [])
  }

  /** Removing `id` drops exactly the tabs with that id: together with them it is the whole list. */
  lemma {:induction false} WithoutIdRemovesOnly(tabs: seq<Tab>, id: int)
    ensures multiset(WithoutId(tabs, id)) + multiset(Only(tabs, id)) == multiset(tabs)
  {
    if |tabs| > 0 {
      var init, t := tabs[..|tabs| - 1], tabs[|tabs| - 1];
      WithoutIdRemovesOnly(init, id);
      assert tabs == init + [t];
      if t.id == id {
        assert multiset(Only(tabs, id)) == multiset(Only(init, id)) + multiset{t};
      } else {
        assert multiset(WithoutId(tabs, id)) == multiset(WithoutId(init, id)) + multiset{t};
      }
    }
  }

  /**
   * Removing `id` from a concatenation removes it from both parts and keeps them in order; with
   * `WithoutIdSingle` this says the other tabs keep their relative order.
   */
  lemma {:induction false} WithoutIdAppend(a: seq<Tab>, b: seq<Tab>, id: int)
    ensures WithoutId(a + b, id) == WithoutId(a, id) + WithoutId(b, id)
    decreases |b|
  {
    if |b| > 0 {
      var b' := b[..|b| - 1];
      assert (a + b)[..|a + b| - 1] == a + b';
      WithoutIdAppend(a, b', id);
    } else {
      assert a + b == a;
    }
  }

  lemma WithoutIdSingle(t: Tab, id: int)
    ensures WithoutId([t], id) == if t.id != id then [t] else []
  {
    assert [t][..0] == [];
  }

  /** Removing the id of the one tab that has it, between tabs that do not, drops just that tab. */
  lemma WithoutIdDropsOne(before: seq<Tab>, t: Tab, after: seq<Tab>, id: int)
    requires t.id == id && WithoutId(before, id) == before && WithoutId(after, id) == after
    ensures WithoutId(before + [t] + after, id) == before + after
  {
    WithoutIdAppend(before + [t], after, id);
    WithoutIdAppend(before, [t], id);
    WithoutIdSingle(t, id);
    assert before + [] == before;
  }

  /** A list without the id is left as it is. */
  lemma {:induction false} WithoutIdAbsent(tabs: seq<Tab>, id: int)
    requires forall k :: 0 <= k < |tabs| ==> tabs[k].id != id
    ensures WithoutId(tabs, id) == tabs
  {
    if |tabs| > 0 {
      WithoutIdAbsent(tabs[..|tabs| - 1], id);
    }
  }
}
