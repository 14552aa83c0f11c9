/** The scoring and ordering shared by both servers: the relevance
    accumulation of `FindAllDocuments`, the minus-word exclusion, the
    relevance-then-rating order and the cut to `MAX_RESULT_DOCUMENT_COUNT`. */
module Ranking {
  import opened Documents
  import opened Ordering

  const MaxResultDocumentCount: nat := 5

  /** Some word of `words` has `id` in its posting map. */
  predicate ReachedBy(postings: Postings, words: seq<string>, id: int) {
    exists w :: w in words && Contains(postings, w, id)
  }

  /** The predicate accepts the document `id`, judged on its stored status
      and rating. */
  predicate Accepts(documents: map<int, DocData>, pred: Predicate, id: int) {
    id in documents && pred(id, documents[id].status, documents[id].rating)
  }

  /** The relevance of `id`: over the plus words whose posting map holds
      `id`, the stored term frequency times the word's IDF. */
  function Relevance(postings: Postings, docCount: int, idf: Idf, words: seq<string>, id: int): real {
    if |words| == 0 then 0.0
    else
      Term(postings, docCount, idf, words[0], id) + Relevance(postings, docCount, idf, words[1..], id)
  }

  function GetOr(rel: map<int, real>, id: int): real {
    if id in rel then rel[id] else 0.0
  }

  lemma ReachedByCons(postings: Postings, words: seq<string>, id: int)
    requires |words| > 0
    ensures ReachedBy(postings, words, id) <==> Contains(postings, words[0], id) || ReachedBy(postings, words[1..], id)
  {
    assert forall v :: v in words <==> v == words[0] || v in words[1..];
  }

  /** The contribution of word `w` to the relevance of `id`. */
  function Term(postings: Postings, docCount: int, idf: Idf, w: string, id: int): real {
    if Contains(postings, w, id) then postings[w][id] * idf(docCount, |postings[w]|) else 0.0
  }

  /** The inner loop for one plus word: every id of its posting map that the
      predicate accepts gains `term_freq * weight`. */
  function AddWord(rel: map<int, real>, posting: map<int, real>, documents: map<int, DocData>,
                   pred: Predicate, weight: real): (r: map<int, real>)
    ensures forall k :: k in r <==> k in rel || (k in posting && Accepts(documents, pred, k))
    ensures forall k :: GetOr(r, k) ==
              GetOr(rel, k) + (if k in posting && Accepts(documents, pred, k) then posting[k] * weight else 0.0)
  {
    map k | k in rel.Keys + posting.Keys && (k in rel || Accepts(documents, pred, k)) ::
      GetOr(rel, k) + (if k in posting && Accepts(documents, pred, k) then posting[k] * weight else 0.0)
  }

  /** One iteration of the plus-word loop: a word absent from the index is
      skipped. */
  function AddPlusWord(rel: map<int, real>, postings: Postings, documents: map<int, DocData>,
                       pred: Predicate, idf: Idf, w: string): (r: map<int, real>)
    ensures forall k :: k in r <==> k in rel || (Contains(postings, w, k) && Accepts(documents, pred, k))
    ensures forall k :: GetOr(r, k) ==
              GetOr(rel, k) + (if Accepts(documents, pred, k) then Term(postings, |documents|, idf, w, k) else 0.0)
  {
    if w in postings then AddWord(rel, postings[w], documents, pred, idf(|documents|, |postings[w]|))
    else rel
  }

  /** The plus-word loop, each word adding its contribution weighted by its
      IDF. */
  function AccumulatePlus(rel: map<int, real>, postings: Postings, documents: map<int, DocData>,
                          pred: Predicate, idf: Idf, words: seq<string>): (r: map<int, real>)
    ensures forall k :: k in r <==> k in rel || (Accepts(documents, pred, k) && ReachedBy(postings, words, k))
    ensures forall k :: GetOr(r, k) ==
              GetOr(rel, k) + (if Accepts(documents, pred, k) then Relevance(postings, |documents|, idf, words, k) else 0.0)
    decreases |words|
  {
    if |words| == 0 then rel
    else
      var next := AddPlusWord(rel, postings, documents, pred, idf, words[0]);
      var r := AccumulatePlus(next, postings, documents, pred, idf, words[1..]);
      assert forall k :: (Relevance(postings, |documents|, idf, words, k) ==
        Term(postings, |documents|, idf, words[0], k) + Relevance(postings, |documents|, idf, words[1..], k));
      assert forall k :: k in r <==> k in rel || (Accepts(documents, pred, k) && ReachedBy(postings, words, k)) by {
        forall k ensures k in r <==> k in rel || (Accepts(documents, pred, k) && ReachedBy(postings, words, k)) {
          ReachedByCons(postings, words, k);
        }
      }
      r
  }

  /** The minus-word loop: every id in the posting map of a minus word is
      erased from the accumulated scores. */
  function EraseMinus(rel: map<int, real>, postings: Postings, words: seq<string>): (r: map<int, real>)
    ensures forall k :: k in r <==> k in rel && !ReachedBy(postings, words, k)
    ensures forall k :: k in r ==> r[k] == rel[k]
    decreases |words|
  {
    if |words| == 0 then rel
    else
      var w := words[0];
      var next := if w in postings then rel - postings[w].Keys else rel;
      var r := EraseMinus(next, postings, words[1..]);
      assert forall k :: k in r <==> k in rel && !ReachedBy(postings, words, k) by {
        forall k ensures k in r <==> k in rel && !ReachedBy(postings, words, k) {
          ReachedByCons(postings, words, k);
        }
      }
      r
  }

  /** `id` ends up in `FindAllDocuments`: a plus word reaches it with the
      predicate true, and no minus word reaches it. */
  predicate Qualifies(postings: Postings, documents: map<int, DocData>, plus: seq<string>,
                      minus: seq<string>, pred: Predicate, id: int) {
    && ReachedBy(postings, plus, id)
    && Accepts(documents, pred, id)
    && !ReachedBy(postings, minus, id)
  }

  /** The result vector built from the score map, in map (ascending id) order. */
  function Emit(ids: seq<int>, rel: map<int, real>, documents: map<int, DocData>): (r: seq<Document>)
    requires forall i :: 0 <= i < |ids| ==> ids[i] in rel && ids[i] in documents
    ensures |r| == |ids|
    ensures forall i :: 0 <= i < |r| ==> r[i] == Document(ids[i], rel[ids[i]], documents[ids[i]].rating)
  {
    if |ids| == 0 then []
    else [Document(ids[0], rel[ids[0]], documents[ids[0]].rating)] + Emit(ids[1..], rel, documents)
  }

  /** The score map after both loops: exactly the qualifying documents,
      each with its relevance. */
  function Scores(postings: Postings, documents: map<int, DocData>, plus: seq<string>, minus: seq<string>,
                  pred: Predicate, idf: Idf): (rel: map<int, real>)
    ensures forall k :: k in rel <==> Qualifies(postings, documents, plus, minus, pred, k)
    ensures forall k :: k in rel ==> k in documents && rel[k] == Relevance(postings, |documents|, idf, plus, k)
  {
    var acc := AccumulatePlus(map[], postings, documents, pred, idf, plus);
    assert forall k :: k in acc ==> acc[k] == GetOr(acc, k);
    EraseMinus(acc, postings, minus)
  }

  lemma EmitIds(ids: seq<int>, rel: map<int, real>, documents: map<int, DocData>)
    requires forall i :: 0 <= i < |ids| ==> ids[i] in rel && ids[i] in documents
    ensures forall id :: (exists i :: 0 <= i < |ids| && Emit(ids, rel, documents)[i].id == id) <==> id in ids
  {
    var r := Emit(ids, rel, documents);
    forall id | id in ids ensures exists i :: 0 <= i < |r| && r[i].id == id {
      var i :| 0 <= i < |ids| && ids[i] == id;
      assert r[i].id == id;
    }
  }

  lemma EmitIncreasing(ids: seq<int>, rel: map<int, real>, documents: map<int, DocData>)
    requires forall i :: 0 <= i < |ids| ==> ids[i] in rel && ids[i] in documents
    requires Increasing(ids)
    ensures var r := Emit(ids, rel, documents);
            forall i, j :: 0 <= i < j < |r| ==> r[i].id < r[j].id
  {
    var r := Emit(ids, rel, documents);
    forall i, j | 0 <= i < j < |r| ensures r[i].id < r[j].id {
      assert r[i].id == ids[i] && r[j].id == ids[j];
    }
  }

  lemma AscendingInMap(rel: map<int, real>, documents: map<int, DocData>)
    requires forall k :: k in rel ==> k in documents
    ensures var ids := Ascending(rel.Keys);
            && (forall id :: id in ids <==> id in rel)
            && (forall i :: 0 <= i < |ids| ==> ids[i] in rel && ids[i] in documents)
  {
    var ids := Ascending(rel.Keys);
    forall i | 0 <= i < |ids| ensures ids[i] in rel && ids[i] in documents {
      assert ids[i] in ids;
    }
  }

  /** Reading out an increasing enumeration of the score map's keys. */
  lemma EmitKeys(ids: seq<int>, rel: map<int, real>, documents: map<int, DocData>, r: seq<Document>)
    requires Increasing(ids)
    requires forall id :: id in ids <==> id in rel
    requires forall i :: 0 <= i < |ids| ==> ids[i] in rel && ids[i] in documents
    requires forall k :: k in rel ==> k in documents
    requires r == Emit(ids, rel, documents)
    ensures forall i, j :: 0 <= i < j < |r| ==> r[i].id < r[j].id
    ensures forall id :: (exists i :: 0 <= i < |r| && r[i].id == id) <==> id in rel
    ensures forall i :: 0 <= i < |r| ==> r[i].id in rel && r[i].id in documents
    ensures forall i :: 0 <= i < |r| ==> r[i].relevance == rel[r[i].id] && r[i].rating == documents[r[i].id].rating
  {
    EmitIds(ids, rel, documents);
    EmitIncreasing(ids, rel, documents);
    forall i | 0 <= i < |r|
      ensures r[i].id in rel && r[i].id in documents
      ensures r[i].relevance == rel[r[i].id] && r[i].rating == documents[r[i].id].rating
    {
      assert r[i] == Document(ids[i], rel[ids[i]], documents[ids[i]].rating);
    }
  }

  /** The score map read out in ascending id order, as iterating a
      `std::map<int, double>` does. */
  function EmitAscending(rel: map<int, real>, documents: map<int, DocData>): (r: seq<Document>)
    requires forall k :: k in rel ==> k in documents
    ensures forall i, j :: 0 <= i < j < |r| ==> r[i].id < r[j].id
    ensures forall id :: (exists i :: 0 <= i < |r| && r[i].id == id) <==> id in rel
    ensures forall i :: 0 <= i < |r| ==> r[i].id in rel && r[i].id in documents
    ensures forall i :: 0 <= i < |r| ==> r[i].relevance == rel[r[i].id] && r[i].rating == documents[r[i].id].rating
  {
    var ids := Ascending(rel.Keys);
    AscendingInMap(rel, documents);
    EmitKeys(ids, rel, documents, Emit(ids, rel, documents));
    Emit(ids, rel, documents)
  }

  /** `FindAllDocuments` once the query is parsed. */
  function FindAll(postings: Postings, documents: map<int, DocData>, plus: seq<string>, minus: seq<string>,
                   pred: Predicate, idf: Idf): (r: seq<Document>)
    ensures forall i, j :: 0 <= i < j < |r| ==> r[i].id < r[j].id
    ensures forall id :: (exists i :: 0 <= i < |r| && r[i].id == id) <==>
                         Qualifies(postings, documents, plus, minus, pred, id)
    ensures forall i :: 0 <= i < |r| ==> r[i].id in documents && r[i].rating == documents[r[i].id].rating
    ensures forall i :: 0 <= i < |r| ==> r[i].relevance == Relevance(postings, |documents|, idf, plus, r[i].id)
  {
    var rel := Scores(postings, documents, plus, minus, pred, idf);
    EmitAscending(rel, documents)
  }

  /** The phase order of the parallel `FindAllDocuments`: the minus words
      are erased from the accumulator while it is still empty, and only then
      are the plus words added. The concurrent map is modelled by its end
      state, which the phase order alone decides. */
  function FindAllParallelOrder(postings: Postings, documents: map<int, DocData>, plus: seq<string>,
                                minus: seq<string>, pred: Predicate, idf: Idf): (r: seq<Document>)
    ensures forall id :: (exists i :: 0 <= i < |r| && r[i].id == id) <==>
                         ReachedBy(postings, plus, id) && Accepts(documents, pred, id)
  {
    var rel := AccumulatePlus(EraseMinus(map[], postings, minus), postings, documents, pred, idf, plus);
    EmitAscending(rel, documents)
  }

  /** A document that a minus word reaches is dropped by the sequential
      search but returned by the parallel one. */
  lemma ParallelOrderIgnoresMinus(postings: Postings, documents: map<int, DocData>, plus: seq<string>,
                                  minus: seq<string>, pred: Predicate, idf: Idf, id: int)
    requires ReachedBy(postings, plus, id) && Accepts(documents, pred, id)
    requires ReachedBy(postings, minus, id)
    ensures var par := FindAllParallelOrder(postings, documents, plus, minus, pred, idf);
            exists i :: 0 <= i < |par| && par[i].id == id
    ensures var found := FindAll(postings, documents, plus, minus, pred, idf);
            forall i :: 0 <= i < |found| ==> found[i].id != id
  {
    var par := FindAllParallelOrder(postings, documents, plus, minus, pred, idf);
    var found := FindAll(postings, documents, plus, minus, pred, idf);
    assert exists i :: 0 <= i < |par| && par[i].id == id;
    assert !Qualifies(postings, documents, plus, minus, pred, id);
    assert !(exists i :: 0 <= i < |found| && found[i].id == id);
  }

  /** `a` may come before `b`: higher relevance, or equal relevance and a
      rating at least as high. (The source compares relevances up to 1e-6.) */
  predicate AtLeast(a: Document, b: Document) {
    a.relevance > b.relevance || (a.relevance == b.relevance && a.rating >= b.rating)
  }

  predicate RankSorted(ds: seq<Document>) {
    forall i, j :: 0 <= i < j < |ds| ==> AtLeast(ds[i], ds[j])
  }

  lemma {:induction false} PrependRanked(d: Document, ds: seq<Document>)
    requires RankSorted(ds)
    requires forall x :: x in ds ==> AtLeast(d, x)
    ensures RankSorted([d] + ds)
  {
    var r := [d] + ds;
    forall i, j | 0 <= i < j < |r| ensures AtLeast(r[i], r[j]) {
      assert r[j] == ds[j - 1];
      if i > 0 { assert r[i] == ds[i - 1]; }
    }
  }

  /** One insertion step: `d` goes before the first document it ranks at
      least as high as. */
  function InsertByRank(d: Document, ds: seq<Document>): (r: seq<Document>)
    requires RankSorted(ds)
    ensures RankSorted(r)
    ensures multiset(r) == multiset(ds) + multiset{d}
    ensures forall x :: x in r <==> x in ds || x == d
  {
    if |ds| == 0 then [d]
    else if AtLeast(d, ds[0]) then
      assert forall x :: x in ds ==> x == ds[0] || AtLeast(ds[0], x);
      PrependRanked(d, ds);
      [d] + ds
    else
      var rest := InsertByRank(d, ds[1..]);
      assert ds == [ds[0]] + ds[1..];
      assert forall x :: x in ds[1..] ==> AtLeast(ds[0], x);
      PrependRanked(ds[0], rest);
      [ds[0]] + rest
  }

  /** The `std::sort` of `FindTopDocuments` with the exact comparator: a
      permutation ordered by relevance, then rating, both descending.
      Documents equal in both keep their incoming (ascending id) order. */
  function SortByRank(ds: seq<Document>): (r: seq<Document>)
    ensures RankSorted(r)
    ensures multiset(r) == multiset(ds)
    ensures |r| == |ds|
  {
    if |ds| == 0 then []
    else
      assert ds == [ds[0]] + ds[1..];
      InsertByRank(ds[0], SortByRank(ds[1..]))
  }

  /** In a rank-sorted list every document of a prefix ranks at least as
      high as every document after it. */
  lemma PrefixDominates(sorted: seq<Document>, n: nat)
    requires RankSorted(sorted) && n <= |sorted|
    ensures forall d, e :: d in sorted[..n] && e in sorted && e !in sorted[..n] ==> AtLeast(d, e)
  {
    var r := sorted[..n];
    forall d, e | d in r && e in sorted && e !in r ensures AtLeast(d, e) {
      var j :| 0 <= j < |sorted| && sorted[j] == e;
      var i :| 0 <= i < n && r[i] == d;
      assert sorted[i] == d;
      assert forall k :: 0 <= k < n ==> sorted[k] in r;
      assert i < j;
    }
  }

  /** Sort, then keep at most `MaxResultDocumentCount`: the best ones. */
  function TopDocuments(ds: seq<Document>): (r: seq<Document>)
    ensures |r| == if |ds| < MaxResultDocumentCount then |ds| else MaxResultDocumentCount
    ensures RankSorted(r)
    ensures multiset(r) <= multiset(ds)
    ensures forall d, e :: d in r && e in ds && e !in r ==> AtLeast(d, e)
  {
    var sorted := SortByRank(ds);
    var n := if |sorted| < MaxResultDocumentCount then |sorted| else MaxResultDocumentCount;
    var r := sorted[..n];
    assert sorted == r + sorted[n..];
    assert multiset(sorted) == multiset(r) + multiset(sorted[n..]);
    PrefixDominates(sorted, n);
    assert forall e :: e in ds ==> e in sorted by {
      forall e | e in ds ensures e in sorted {
        assert e in multiset(ds);
      }
    }
    r
  }

  lemma SubMultisetMembers(top: seq<Document>, ds: seq<Document>)
    requires multiset(top) <= multiset(ds)
    ensures forall d :: d in top ==> d in ds
  {
    forall d | d in top ensures d in ds {
      assert d in multiset(top);
    }
  }

  /** Every document the cut keeps carries the id of an input entry. */
  lemma TopFromInput(all: seq<Document>)
    ensures forall d :: d in TopDocuments(all) ==> exists i :: 0 <= i < |all| && all[i].id == d.id
  {
    var top := TopDocuments(all);
    SubMultisetMembers(top, all);
    forall d | d in top ensures exists i :: 0 <= i < |all| && all[i].id == d.id {
      var i :| 0 <= i < |all| && all[i] == d;
      assert all[i].id == d.id;
    }
  }

  /** Every document the cut keeps is one the search found. */
  lemma TopQualifies(postings: Postings, documents: map<int, DocData>, plus: seq<string>, minus: seq<string>,
                     pred: Predicate, idf: Idf)
    ensures var top := TopDocuments(FindAll(postings, documents, plus, minus, pred, idf));
            forall d :: d in top ==> Qualifies(postings, documents, plus, minus, pred, d.id)
  {
    TopFromInput(FindAll(postings, documents, plus, minus, pred, idf));
  }
}
