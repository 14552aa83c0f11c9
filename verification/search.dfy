/** The read-only queries of `SearchServer`: `MatchDocument` (sequential and
    parallel), `FindAllDocuments` and the `FindTopDocuments` overloads. */
module Search {
  import opened Outcomes
  import opened Documents
  import opened Ordering
  import opened Index
  import opened Queries
  import opened Ranking

  /** `MatchDocument`: a parse error is `invalid_argument`; an unknown id is
      `out_of_range` (from `documents_.at`); a minus word present in the
      document empties the list; otherwise the query's plus words that the
      document contains, in sorted order, with the document's status. */
  function MatchDocument(s: Server, rawQuery: string, id: int): (r: Result<(seq<string>, Status)>)
    ensures r.Ok? <==> ParseQuery(s.stopWords, rawQuery).Ok? && id in s.documents
    ensures ParseQuery(s.stopWords, rawQuery).Err? ==> r == Err(InvalidArgument)
    ensures ParseQuery(s.stopWords, rawQuery).Ok? && id !in s.documents ==> r == Err(OutOfRange)
    ensures r.Ok? ==> r.value.1 == s.documents[id].status
    ensures r.Ok? ==> StrictlySorted(r.value.0)
    ensures r.Ok? && ReachedBy(s.postings, ParseQuery(s.stopWords, rawQuery).value.minus, id) ==> r.value.0 == []
    ensures r.Ok? && !ReachedBy(s.postings, ParseQuery(s.stopWords, rawQuery).value.minus, id) ==>
              forall w :: w in r.value.0 <==>
                w in ParseQuery(s.stopWords, rawQuery).value.plus && Contains(s.postings, w, id)
  {
    var q :- ParseQuery(s.stopWords, rawQuery);
    if id !in s.documents then Err(OutOfRange)
    else if ReachedBy(s.postings, q.minus, id) then Ok(([], s.documents[id].status))
    else Ok((Keep(q.plus, w => Contains(s.postings, w, id)), s.documents[id].status))
  }

  /** The parallel `MatchDocument`: the unsorted query, `any_of` over the
      minus words, `copy_if` over the plus words, then sort and unique. */
  function MatchDocumentPar(s: Server, rawQuery: string, id: int): (r: Result<(seq<string>, Status)>)
    ensures r == MatchDocument(s, rawQuery, id)
  {
    var q :- ParseQueryUnsorted(s.stopWords, rawQuery);
    if id !in s.documents then Err(OutOfRange)
    else if ReachedBy(s.postings, q.minus, id) then
      assert ReachedBy(s.postings, ParseQuery(s.stopWords, rawQuery).value.minus, id);
      Ok(([], s.documents[id].status))
    else
      var matched := SortUnique(Keep(q.plus, w => Contains(s.postings, w, id)));
      var sorted := ParseQuery(s.stopWords, rawQuery).value;
      assert !ReachedBy(s.postings, sorted.minus, id);
      SortedUnique(matched, Keep(sorted.plus, w => Contains(s.postings, w, id)));
      Ok((matched, s.documents[id].status))
  }

  /** `FindAllDocuments(raw_query, predicate)`: the qualifying documents in
      ascending id order, each with its relevance and stored rating. Every id
      in the index is a document id, which is what `documents_.at` needs. */
  function FindAllDocuments(s: Server, rawQuery: string, pred: Predicate, idf: Idf): (r: Result<seq<Document>>)
    requires PostingsKnown(s.postings, s.documents)
    ensures r.Err? <==> ParseQuery(s.stopWords, rawQuery).Err?
    ensures r.Err? ==> r.error == InvalidArgument
    ensures r.Ok? ==> forall i, j :: 0 <= i < j < |r.value| ==> r.value[i].id < r.value[j].id
    ensures r.Ok? ==>
      var q := ParseQuery(s.stopWords, rawQuery).value;
      forall id :: (exists i :: 0 <= i < |r.value| && r.value[i].id == id) <==>
                   Qualifies(s.postings, s.documents, q.plus, q.minus, pred, id)
    ensures r.Ok? ==> forall d :: d in r.value ==> d.id in s.documents && d.rating == s.documents[d.id].rating
    ensures r.Ok? ==>
      var q := ParseQuery(s.stopWords, rawQuery).value;
      forall d :: d in r.value ==> d.relevance == Relevance(s.postings, GetDocumentCount(s), idf, q.plus, d.id)
  {
    var q :- ParseQuery(s.stopWords, rawQuery);
    Ok(FindAll(s.postings, s.documents, q.plus, q.minus, pred, idf))
  }

  /** `FindTopDocuments(raw_query, predicate)`: the found documents ordered
      by relevance then rating, cut to `MAX_RESULT_DOCUMENT_COUNT`; nothing
      left out ranks above anything kept. */
  function FindTopDocuments(s: Server, rawQuery: string, pred: Predicate, idf: Idf): (r: Result<seq<Document>>)
    requires PostingsKnown(s.postings, s.documents)
    ensures r.Err? <==> ParseQuery(s.stopWords, rawQuery).Err?
    ensures r.Err? ==> r.error == InvalidArgument
    ensures r.Ok? ==> |r.value| <= MaxResultDocumentCount && RankSorted(r.value)
    ensures r.Ok? ==>
      var all := FindAllDocuments(s, rawQuery, pred, idf).value;
      && multiset(r.value) <= multiset(all)
      && |r.value| == (if |all| < MaxResultDocumentCount then |all| else MaxResultDocumentCount)
      && forall d, e :: d in r.value && e in all && e !in r.value ==> AtLeast(d, e)
    ensures r.Ok? ==>
      var q := ParseQuery(s.stopWords, rawQuery).value;
      forall d :: d in r.value ==> Qualifies(s.postings, s.documents, q.plus, q.minus, pred, d.id)
  {
    var all :- FindAllDocuments(s, rawQuery, pred, idf);
    var top := TopDocuments(all);
    assert forall d :: d in top ==> d in all by {
      forall d | d in top ensures d in all {
        assert d in multiset(top);
      }
    }
    assert forall d :: d in all ==> exists i :: 0 <= i < |all| && all[i].id == d.id;
    Ok(top)
  }

  /** The status overload: `FindTopDocuments` with the predicate that
      accepts exactly the documents of the given status. */
  function FindTopDocumentsByStatus(s: Server, rawQuery: string, status: Status, idf: Idf)
    : (r: Result<seq<Document>>)
    requires PostingsKnown(s.postings, s.documents)
    ensures r == FindTopDocuments(s, rawQuery, ByStatus(status), idf)
    ensures r.Err? <==> ParseQuery(s.stopWords, rawQuery).Err?
    ensures r.Err? ==> r.error == InvalidArgument
    ensures r.Ok? ==> |r.value| <= MaxResultDocumentCount && RankSorted(r.value)
    ensures r.Ok? ==> forall d :: d in r.value ==> d.id in s.documents && s.documents[d.id].status == status
    ensures r.Ok? ==>
      var q := ParseQuery(s.stopWords, rawQuery).value;
      forall d :: d in r.value ==> ReachedBy(s.postings, q.plus, d.id) && !ReachedBy(s.postings, q.minus, d.id)
  {
    FindTopDocuments(s, rawQuery, ByStatus(status), idf)
  }

  /** The default overload: the status overload with `ACTUAL`. */
  function FindTopDocumentsActual(s: Server, rawQuery: string, idf: Idf): (r: Result<seq<Document>>)
    requires PostingsKnown(s.postings, s.documents)
    ensures r == FindTopDocumentsByStatus(s, rawQuery, Actual, idf)
    ensures r.Err? <==> ParseQuery(s.stopWords, rawQuery).Err?
    ensures r.Err? ==> r.error == InvalidArgument
    ensures r.Ok? ==> |r.value| <= MaxResultDocumentCount && RankSorted(r.value)
    ensures r.Ok? ==> forall d :: d in r.value ==> d.id in s.documents && s.documents[d.id].status == Actual
    ensures r.Ok? ==>
      var q := ParseQuery(s.stopWords, rawQuery).value;
      forall d :: d in r.value ==> ReachedBy(s.postings, q.plus, d.id) && !ReachedBy(s.postings, q.minus, d.id)
  {
    FindTopDocumentsByStatus(s, rawQuery, Actual, idf)
  }

  /** `MatchDocument` and `FindAllDocuments` agree: a document the
      predicate accepts is found exactly when it matches at least one word. */
  lemma MatchedIffFound(s: Server, rawQuery: string, id: int, pred: Predicate, idf: Idf)
    requires PostingsKnown(s.postings, s.documents)
    requires ParseQuery(s.stopWords, rawQuery).Ok?
    requires Accepts(s.documents, pred, id)
    ensures MatchDocument(s, rawQuery, id).Ok?
    ensures var found := FindAllDocuments(s, rawQuery, pred, idf).value;
            MatchDocument(s, rawQuery, id).value.0 != [] <==> exists i :: 0 <= i < |found| && found[i].id == id
  {
    var q := ParseQuery(s.stopWords, rawQuery).value;
    var m := MatchDocument(s, rawQuery, id);
    var found := FindAllDocuments(s, rawQuery, pred, idf).value;
    assert (exists i :: 0 <= i < |found| && found[i].id == id) <==>
           Qualifies(s.postings, s.documents, q.plus, q.minus, pred, id);
    var matched := m.value.0;
    if !ReachedBy(s.postings, q.minus, id) {
      assert matched != [] ==> ReachedBy(s.postings, q.plus, id) by {
        if matched != [] {
          var w := matched[0];
          assert w in matched;
          assert w in q.plus && Contains(s.postings, w, id);
        }
      }
      if ReachedBy(s.postings, q.plus, id) {
        var w :| w in q.plus && Contains(s.postings, w, id);
        assert w in matched;
      }
    }
  }
}
