/** The orders the source relies on through `std::map`, `std::set`,
    `std::sort` and `std::unique`: byte-wise lexicographic order on strings,
    strictly sorted (sorted and de-duplicated) word lists, and the ascending
    enumeration of a set of document ids. */
module Ordering {

  /** `a < b` for `std::string`: lexicographic, a proper prefix first. */
  predicate Below(a: string, b: string)
    decreases |a|
  {
    if |a| == 0 then |b| > 0
    else |b| > 0 && (a[0] < b[0] || (a[0] == b[0] && Below(a[1..], b[1..])))
  }

  lemma BelowIrreflexive(a: string)
    ensures !Below(a, a)
  {
  }

  lemma {:induction false} BelowTransitive(a: string, b: string, c: string)
    requires Below(a, b) && Below(b, c)
    ensures Below(a, c)
    decreases |a|
  {
    if |a| > 0 && a[0] == b[0] && b[0] == c[0] {
      BelowTransitive(a[1..], b[1..], c[1..]);
    }
  }

  lemma {:induction false} BelowTotal(a: string, b: string)
    ensures a == b || Below(a, b) || Below(b, a)
    decreases |a|
  {
    if |a| > 0 && |b| > 0 && a[0] == b[0] {
      BelowTotal(a[1..], b[1..]);
      if a[1..] == b[1..] {
        assert a == [a[0]] + a[1..] && b == [b[0]] + b[1..];
      }
    }
  }

  lemma {:induction false} BelowAsymmetric(a: string, b: string)
    requires Below(a, b)
    ensures !Below(b, a)
  {
    if Below(b, a) {
      BelowTransitive(a, b, a);
      BelowIrreflexive(a);
    }
  }

  /** Sorted with no repeats: what `sort` followed by `unique`/`erase`
      leaves, and the iteration order of a `std::set<std::string>`. */
  predicate StrictlySorted(xs: seq<string>) {
    forall i, j :: 0 <= i < j < |xs| ==> Below(xs[i], xs[j])
  }

  lemma {:induction false} PrependSorted(w: string, xs: seq<string>)
    requires StrictlySorted(xs)
    requires forall x :: x in xs ==> Below(w, x)
    ensures StrictlySorted([w] + xs)
  {
    var r := [w] + xs;
    forall i, j | 0 <= i < j < |r| ensures Below(r[i], r[j]) {
      assert r[j] == xs[j - 1];
      if i > 0 { assert r[i] == xs[i - 1]; }
    }
  }

  /** Insert `w` into a strictly sorted list, as `std::set::insert` does:
      nothing changes when `w` is already there. */
  function InsertSorted(xs: seq<string>, w: string): (r: seq<string>)
    requires StrictlySorted(xs)
    ensures StrictlySorted(r)
    ensures forall x :: x in r <==> x in xs || x == w
    ensures |r| <= |xs| + 1
  {
    if |xs| == 0 then [w]
    else if w == xs[0] then xs
    else if Below(w, xs[0]) then
      assert forall x :: x in xs ==> x == xs[0] || Below(xs[0], x);
      assert forall x :: x in xs ==> Below(w, x) by {
        forall x | x in xs ensures Below(w, x) {
          if x != xs[0] { BelowTransitive(w, xs[0], x); }
        }
      }
      PrependSorted(w, xs);
      [w] + xs
    else
      BelowTotal(w, xs[0]);
      var rest := InsertSorted(xs[1..], w);
      assert forall x :: x in xs[1..] ==> Below(xs[0], x);
      PrependSorted(xs[0], rest);
      assert xs == [xs[0]] + xs[1..];
      [xs[0]] + rest
  }

  /** `sort` then `unique`: the strictly sorted list of the distinct words. */
  function SortUnique(ws: seq<string>): (r: seq<string>)
    ensures StrictlySorted(r)
    ensures forall x :: x in r <==> x in ws
    ensures |r| <= |ws|
  {
    if |ws| == 0 then []
    else
      assert ws == [ws[0]] + ws[1..];
      InsertSorted(SortUnique(ws[1..]), ws[0])
  }

  /** Two strictly sorted lists with the same elements are equal, so any
      correct sort-and-deduplicate (or an ordered set) yields one result. */
  lemma {:induction false} SortedUnique(a: seq<string>, b: seq<string>)
    requires StrictlySorted(a) && StrictlySorted(b)
    requires forall x :: x in a <==> x in b
    ensures a == b
  {
    if |a| > 0 {
      assert a[0] in b;
    }
    if |b| > 0 {
      assert b[0] in a;
    }
    if |a| > 0 && |b| > 0 {
      if a[0] != b[0] {
        assert a[0] in b;
        assert b[0] in a;
        var i :| 0 <= i < |b| && b[i] == a[0];
        var j :| 0 <= j < |a| && a[j] == b[0];
        assert i > 0 && j > 0;
        assert Below(b[0], a[0]) && Below(a[0], b[0]);
        BelowAsymmetric(b[0], a[0]);
      }
      forall x ensures x in a[1..] <==> x in b[1..] {
        if x in a[1..] {
          var k :| 1 <= k < |a| && a[k] == x;
          assert Below(a[0], a[k]);
          BelowIrreflexive(x);
          assert x in b;
          var l :| 0 <= l < |b| && b[l] == x;
          assert l != 0;
          assert b[1..][l - 1] == x;
        }
        if x in b[1..] {
          var k :| 1 <= k < |b| && b[k] == x;
          assert Below(b[0], b[k]);
          BelowIrreflexive(x);
          assert x in a;
          var l :| 0 <= l < |a| && a[l] == x;
          assert l != 0;
          assert a[1..][l - 1] == x;
        }
      }
      SortedUnique(a[1..], b[1..]);
      assert a == [a[0]] + a[1..] && b == [b[0]] + b[1..];
    }
  }

  /** The elements of `xs` that satisfy `keep`, in their original order:
      the loop that copies, or `copy_if`. A sub-sequence of a strictly sorted
      list is strictly sorted. */
  function Keep(xs: seq<string>, keep: string -> bool): (r: seq<string>)
    ensures forall x :: x in r <==> x in xs && keep(x)
    ensures forall x :: multiset(r)[x] == if keep(x) then multiset(xs)[x] else 0
    ensures StrictlySorted(xs) ==> StrictlySorted(r)
  {
    if |xs| == 0 then []
    else
      var rest := Keep(xs[1..], keep);
      assert xs == [xs[0]] + xs[1..];
      if keep(xs[0]) then
        assert StrictlySorted(xs) ==> StrictlySorted([xs[0]] + rest) by {
          if StrictlySorted(xs) {
            PrependSorted(xs[0], rest);
          }
        }
        [xs[0]] + rest
      else rest
  }

  /** Strictly increasing ids: the iteration order of `std::set<int>` and of
      the keys of `std::map<int, ...>`. */
  predicate Increasing(ids: seq<int>) {
    forall i, j :: 0 <= i < j < |ids| ==> ids[i] < ids[j]
  }

  lemma NoElementEmpty(s: set<int>)
    requires forall y :: y !in s
    ensures s == {}
  {
    assert forall y :: y in s <==> y in {};
  }

  lemma HasElement(s: set<int>)
    requires s != {}
    ensures exists y :: y in s
  {
    if forall y :: y !in s {
      NoElementEmpty(s);
      assert false;
    }
  }

  lemma {:induction false} MinExists(s: set<int>)
    requires s != {}
    ensures exists m :: m in s && forall x :: x in s ==> m <= x
    decreases |s|
  {
    HasElement(s);
    var y :| y in s;
    var t := s - {y};
    if t == {} {
      forall x | x in s ensures x == y {
        assert x == y || x in t;
      }
      assert y in s && forall x :: x in s ==> y <= x;
    } else {
      MinExists(t);
      var m :| m in t && forall x :: x in t ==> m <= x;
      var least := if y < m then y else m;
      forall x | x in s ensures least <= x {
        if x != y { assert x in t; }
      }
      assert least in s;
    }
  }

  /** The least id of a non-empty set. */
  function Min(s: set<int>): (m: int)
    requires s != {}
    ensures m in s
    ensures forall x :: x in s ==> m <= x
  {
    MinExists(s);
    var m :| m in s && forall x :: x in s ==> m <= x;
    m
  }

  /** The ids of `s` in ascending order. */
  function Ascending(s: set<int>): (r: seq<int>)
    ensures Increasing(r)
    ensures forall x :: x in r <==> x in s
    ensures |r| == |s|
    decreases |s|
  {
    if s == {} then []
    else
      var m := Min(s);
      var rest := Ascending(s - {m});
      assert forall x :: x in rest ==> m < x;
      [m] + rest
  }
}
