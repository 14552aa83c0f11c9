/** The value types shared by every part of the search server:
    the document status tag, the per-document metadata kept in `documents_`,
    and the `Document` triple a search returns. */
module Documents {

  datatype Status = Actual | Irrelevant | Banned | Removed

  /** What `documents_` stores for an id: the average rating and the status. */
  datatype DocData = DocData(rating: int, status: Status)

  /** One search hit: id, relevance score and the document's rating. */
  datatype Document = Document(id: int, relevance: real, rating: int)

  /** The caller-supplied filter `(document_id, status, rating) -> bool`. */
  type Predicate = (int, Status, int) -> bool

  /** The predicate the status overloads of `FindTopDocuments` pass on:
      documents of the given status, whatever their id and rating. */
  function ByStatus(status: Status): Predicate {
    (id: int, st: Status, rating: int) => st == status
  }

  /** Inverse document frequency as a function of the live document count and
      the number of documents in the word's posting map. The source computes
      `log(count / postings)`; floating point is not modelled, so the model
      takes this function as a parameter. */
  type Idf = (int, int) -> real

  /** The inverted index `word -> (document id -> term frequency)`. */
  type Postings = map<string, map<int, real>>

  /** `id` occurs in the posting map of `w`. */
  predicate Contains(postings: Postings, w: string, id: int) {
    w in postings && id in postings[w]
  }

  /** Every id mentioned by a posting map has metadata, so `documents_.at(id)`
      never throws while the postings are scanned. */
  predicate PostingsKnown(postings: Postings, documents: map<int, DocData>) {
    forall w, id :: w in postings && id in postings[w] ==> id in documents
  }
}
