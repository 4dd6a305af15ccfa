/**
 * The 15-row pager of the personal history view: the page slice, the hand-written
 * iterator that drains it, and the page count that bounds `nextPage`.
 */
module Pager {

  const ItemsPerPage: nat := 15

  /** `Math.ceil(n / itemsPerPage)`. */
  function TotalPages(n: nat): (r: nat)
    ensures r * ItemsPerPage >= n
    ensures r == 0 || (r - 1) * ItemsPerPage < n
  {
    (n + ItemsPerPage - 1) / ItemsPerPage
  }

  /** `collection.slice(indexOfFirst, indexOfLast)` for 1-based page `page`; slice clamps to the length. */
  function PageSlice<T>(s: seq<T>, page: nat): (r: seq<T>)
    requires page >= 1
    ensures |r| <= ItemsPerPage
    ensures page <= TotalPages(|s|) ==> |r| > 0
    ensures page > TotalPages(|s|) ==> r == []
    ensures forall k :: 0 <= k < |r| ==> (page - 1) * ItemsPerPage + k < |s| && r[k] == s[(page - 1) * ItemsPerPage + k]
  {
    var first := (page - 1) * ItemsPerPage;
    var last := first + ItemsPerPage;
    var lo := if first < |s| then first else |s|;
    var hi := if last < |s| then last else |s|;
    s[lo..hi]
  }

  /** The list cut into consecutive pages of 15, the last possibly shorter. */
  function Pages<T>(s: seq<T>): seq<seq<T>>
    decreases |s|
  {
    if |s| == 0 then []
    else if |s| <= ItemsPerPage then [s]
    else [s[..ItemsPerPage]] + Pages(s[ItemsPerPage..])
  }

  function Concat<T>(pages: seq<seq<T>>): seq<T> {
    if pages == [] then [] else pages[0] + Concat(pages[1..])
  }

  lemma TotalPagesStep(n: nat)
    requires n > ItemsPerPage
    ensures TotalPages(n) == TotalPages(n - ItemsPerPage) + 1
  {
  }

  /** A later page of `s` is the previous page of what follows the first page. */
  lemma PageSliceShift<T>(s: seq<T>, p: nat)
    requires |s| > ItemsPerPage && p > 1
    ensures PageSlice(s, p) == PageSlice(s[ItemsPerPage..], p - 1)
  {
    var a, b := PageSlice(s, p), PageSlice(s[ItemsPerPage..], p - 1);
    assert (p - 1) * ItemsPerPage == (p - 2) * ItemsPerPage + ItemsPerPage;
    assert |a| == |b|;
  }

  /**
   * The pages cover the list exactly once and in order, there are `ceil(n/15)` of
   * them, and page `p` is what the view slices for `currentPage == p`.
   */
  lemma {:induction false} PagesCover<T>(s: seq<T>)
    ensures |Pages(s)| == TotalPages(|s|)
    ensures Concat(Pages(s)) == s
    ensures forall p :: 1 <= p <= |Pages(s)| ==> Pages(s)[p - 1] == PageSlice(s, p)
    decreases |s|
  {
    if |s| > ItemsPerPage {
      var rest := s[ItemsPerPage..];
      PagesCover(rest);
      TotalPagesStep(|s|);
      assert Pages(s)[1..] == Pages(rest);
      assert s == s[..ItemsPerPage] + rest;
      forall p | 1 <= p <= |Pages(s)|
        ensures Pages(s)[p - 1] == PageSlice(s, p)
      {
        if p > 1 {
          assert Pages(s)[p - 1] == Pages(rest)[p - 2];
          PageSliceShift(s, p);
        }
      }
    } else if |s| > 0 {
      assert Concat(Pages(s)) == s + Concat<T>([]);
    }
  }

  /** One step of the iterator protocol: `{ value, done: false }` or `{ done: true }`. */
  datatype IteratorStep<T> = Yield(value: T) | Done

  /** `createIncidentIterator(collection)`: a cursor over a fixed collection. */
  class IncidentIterator<T> {
    const collection: seq<T>
    var index: nat

    ghost predicate Valid()
      reads this
    {
      index <= |collection|
    }

    constructor (collection: seq<T>)
      ensures Valid() && this.collection == collection && index == 0
    {
      this.collection := collection;
      index := 0;
    }

    /** `next()`: the element under the cursor, advancing it, or `done` at the end. */
    method Next() returns (step: IteratorStep<T>)
      requires Valid()
      modifies this
      ensures Valid()
      ensures old(index) < |collection| ==> step == Yield(collection[old(index)]) && index == old(index) + 1
      ensures old(index) == |collection| ==> step == Done && index == old(index)
    {
      if index < |collection| {
        step := Yield(collection[index]);
        index := index + 1;
      } else {
        step := Done;
      }
    }
  }

  /**
   * The render-time loop: slice the current page, then push every value the iterator
   * yields until it reports `done`. The rows are exactly the page slice, in order.
   */
  method VisibleRows<T>(filtered: seq<T>, currentPage: nat) returns (rows: seq<T>)
    requires currentPage >= 1
    ensures rows == PageSlice(filtered, currentPage)
  {
    var current := PageSlice(filtered, currentPage);
    var cursor := new IncidentIterator(current);
    rows := [];
    var step := cursor.Next();
    while !step.Done?
      invariant cursor.Valid() && cursor.collection == current
      invariant step.Yield? ==> 1 <= cursor.index && step.value == current[cursor.index - 1]
                                && rows == current[..cursor.index - 1]
      invariant step.Done? ==> cursor.index == |current| && rows == current
      decreases |current| - cursor.index, if step.Done? then 0 else 1
    {
      rows := rows + [step.value];
      step := cursor.Next();
    }
  }
}
