/** Keeping the present values of a sequence of optional values, as `filter` and `push` loops do. */
module Filtering {
  import opened Wrappers
  import opened Subsequence

  /** `f` applied to every element of `xs`, in order (`xs.map(f)`). */
  function Mapped<A, B>(xs: seq<A>, f: A -> B): (ys: seq<B>)
    ensures |ys| == |xs|
    ensures forall i :: 0 <= i < |xs| ==> ys[i] == f(xs[i])
  {
    if |xs| == 0 then [] else Mapped(xs[..|xs| - 1], f) + [f(xs[|xs| - 1])]
  }

  lemma MappedSnoc<A, B>(xs: seq<A>, i: int, f: A -> B)
    requires 0 <= i < |xs|
    ensures Mapped(xs[..i + 1], f) == Mapped(xs[..i], f) + [f(xs[i])]
  {
    assert xs[..i + 1][..i] == xs[..i];
  }

  /** The values present in `xs`, in order. */
  function Present<A>(xs: seq<Option<A>>): seq<A> {
    if |xs| == 0 then []
    else Present(xs[..|xs| - 1]) + (if xs[|xs| - 1].Some? then [xs[|xs| - 1].value] else [])
  }

  /** The positions of the values present in `xs`, in order. */
  function PresentAt<A>(xs: seq<Option<A>>): seq<int> {
    if |xs| == 0 then []
    else PresentAt(xs[..|xs| - 1]) + (if xs[|xs| - 1].Some? then [|xs| - 1] else [])
  }

  /** The present values are the values at the present positions, which are ascending. */
  lemma {:induction false} PresentInOrder<A>(xs: seq<Option<A>>)
    ensures var at := PresentAt(xs);
      && |Present(xs)| == |at|
      && StrictlyIncreasing(at)
      && (forall k :: 0 <= k < |at| ==> 0 <= at[k] < |xs| && xs[at[k]] == Some(Present(xs)[k]))
      && (forall i :: 0 <= i < |xs| ==> (i in at <==> xs[i].Some?))
  {
    if |xs| > 0 {
      var n := |xs| - 1;
      var init := xs[..n];
      PresentInOrder(init);
      var at0, p0 := PresentAt(init), Present(init);
      var at, p := PresentAt(xs), Present(xs);
      if xs[n].Some? {
        assert at == at0 + [n] && p == p0 + [xs[n].value];
        forall k | 0 <= k < |at|
          ensures 0 <= at[k] < |xs| && xs[at[k]] == Some(p[k])
        {
          if k < |at0| {
            assert at[k] == at0[k] && p[k] == p0[k] && init[at0[k]] == xs[at0[k]];
          }
        }
        forall i | 0 <= i < |xs|
          ensures i in at <==> xs[i].Some?
        {
          if i < n {
            assert init[i] == xs[i];
            assert i in at <==> i in at0;
          }
        }
        forall a, b | 0 <= a < b < |at|
          ensures at[a] < at[b]
        {
          if b < |at0| {
            assert at[a] == at0[a] && at[b] == at0[b];
          } else {
            assert at[a] == at0[a];
          }
        }
      } else {
        assert at == at0 && p == p0;
        forall i | 0 <= i < n
          ensures i in at <==> xs[i].Some?
        {
          assert init[i] == xs[i];
        }
        assert n !in at;
      }
    }
  }

  /** One more optional value adds its value, if present, at the end. */
  lemma PresentSnoc<A>(xs: seq<Option<A>>, x: Option<A>)
    ensures Present(xs + [x]) == Present(xs) + (if x.Some? then [x.value] else [])
  {
    assert (xs + [x])[..|xs|] == xs;
  }
}
