/** `Paginator`: a range cut into consecutive pages of a fixed size. */
module Paging {

  /** The pages in order, and the page size `size()` reports. */
  datatype Paginator<T> = Paginator(pageSize: int, pages: seq<seq<T>>)

  /** The pages laid end to end. */
  function Flatten<T>(pages: seq<seq<T>>): seq<T> {
    if |pages| == 0 then [] else Flatten(pages[..|pages| - 1]) + pages[|pages| - 1]
  }

  lemma FlattenSnoc<T>(pages: seq<seq<T>>, page: seq<T>)
    ensures Flatten(pages + [page]) == Flatten(pages) + page
  {
    assert (pages + [page])[..|pages|] == pages;
  }

  lemma {:induction false} FlattenLength<T>(pages: seq<seq<T>>, size: int)
    requires forall i :: 0 <= i < |pages| ==> |pages[i]| == size
    ensures |Flatten(pages)| == |pages| * size
  {
    if |pages| > 0 {
      FlattenLength(pages[..|pages| - 1], size);
      assert |pages| * size == (|pages| - 1) * size + size;
    }
  }

  /** One full page taken off the front of the unpaged rest. */
  lemma FullPageStep<T>(xs: seq<T>, pages: seq<seq<T>>, next: seq<seq<T>>, start: int, size: int)
    requires 0 <= start && 0 <= size && start + size <= |xs|
    requires Flatten(pages) == xs[..start]
    requires forall i :: 0 <= i < |pages| ==> |pages[i]| == size
    requires next == pages + [xs[start..start + size]]
    ensures Flatten(next) == xs[..start + size]
    ensures forall i :: 0 <= i < |next| ==> |next[i]| == size
  {
    var page := xs[start..start + size];
    assert xs[..start] + page == xs[..start + size];
    FlattenSnoc(pages, page);
    forall i | 0 <= i < |next| ensures |next[i]| == size {
      if i < |pages| { assert next[i] == pages[i]; } else { assert next[i] == page; }
    }
  }

  /** The rest, at most one page of it, becomes the last page. */
  lemma LastPageStep<T>(xs: seq<T>, pages: seq<seq<T>>, start: int, size: int)
    requires 0 <= start < |xs| <= start + size
    requires Flatten(pages) == xs[..start]
    requires forall i :: 0 <= i < |pages| ==> |pages[i]| == size
    ensures Flatten(pages + [xs[start..]]) == xs
    ensures |xs| == |pages| * size + |xs[start..]|
  {
    FlattenLength(pages, size);
    assert xs[..start] + xs[start..] == xs;
    FlattenSnoc(pages, xs[start..]);
  }

  /** The constructor (also reached through `Paginate`): full pages of
      `size` elements while more than `size` remain, then the rest as a last
      page. With a page size of 0 only an empty range terminates. */
  method Paginate<T>(xs: seq<T>, size: int) returns (p: Paginator<T>)
    requires size > 0 || (size == 0 && |xs| == 0)
    ensures p.pageSize == size
    ensures Flatten(p.pages) == xs
    ensures forall i :: 0 <= i < |p.pages| - 1 ==> |p.pages[i]| == size
    ensures |p.pages| > 0 ==> 1 <= |p.pages[|p.pages| - 1]| <= size
    ensures |xs| == 0 <==> p.pages == []
    ensures |p.pages| > 0 ==> |xs| == (|p.pages| - 1) * size + |p.pages[|p.pages| - 1]|
  {
    var pages: seq<seq<T>> := [];
    var start := 0;
    while start + size < |xs|
      invariant 0 <= start <= |xs|
      invariant Flatten(pages) == xs[..start]
      invariant forall i :: 0 <= i < |pages| ==> |pages[i]| == size
      invariant |pages| > 0 ==> start < |xs|
      decreases |xs| - start
    {
      var next := pages + [xs[start..start + size]];
      FullPageStep(xs, pages, next, start, size);
      pages := next;
      start := start + size;
    }
    if start < |xs| {
      LastPageStep(xs, pages, start, size);
      pages := pages + [xs[start..]];
    } else {
      assert xs[..start] == xs;
    }
    p := Paginator(size, pages);
  }
}
