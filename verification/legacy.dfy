/** The older, self-contained `SearchServer` of `main.cpp`: postings and
    metadata only (no per-document frequency map, no removal), queries held
    in ordered sets, and validation done by `CheckMinus` and `IsValidWord` on
    the whole raw query. Relevance, ordering and the result cap are the
    shared ones of `Ranking`; the average rating and the tokenizer are the
    same functions as in `Index` and `Strings`. */
module Legacy {
  import opened Outcomes
  import opened Documents
  import opened Strings
  import opened Ordering
  import opened Index
  import opened Queries
  import opened Ranking
  import Search

  datatype LegacyServer = LegacyServer(
    stopWords: set<string>,
    postings: Postings,                 // word_to_document_freqs_
    documents: map<int, DocData>)       // documents_

  /** What the corrected server keeps true: ids are non-negative, every
      posted id is a document, no stop word is indexed. */
  ghost predicate LegacyValid(s: LegacyServer) {
    && (forall id :: id in s.documents ==> id >= 0)
    && PostingsKnown(s.postings, s.documents)
    && (forall w :: w in s.postings ==> w !in s.stopWords)
  }

  /** The container constructor: every element, empty ones included, is
      checked for control characters; the stop words are the non-empty
      distinct ones. */
  function NewLegacyServer(stopWords: seq<string>): (r: Result<LegacyServer>)
    ensures r.Ok? <==> forall i :: 0 <= i < |stopWords| ==> IsValidWord(stopWords[i])
    ensures r.Err? ==> r.error == InvalidArgument
    ensures r.Ok? ==> LegacyValid(r.value) && r.value.postings == map[] && r.value.documents == map[]
    ensures r.Ok? ==> forall w :: w in r.value.stopWords <==> w in stopWords && w != ""
  {
    if exists i :: 0 <= i < |stopWords| && !IsValidWord(stopWords[i]) then Err(InvalidArgument)
    else Ok(LegacyServer(MakeUniqueNonEmptyStrings(stopWords), map[], map[]))
  }

  /** The text constructor: the container constructor over the tokens, then
      the whole text checked once more. */
  function NewLegacyServerFromText(text: string): (r: Result<LegacyServer>)
    ensures r.Ok? <==> IsValidWord(text)
    ensures r.Err? ==> r.error == InvalidArgument
    ensures r.Ok? ==> LegacyValid(r.value) && r.value.postings == map[] && r.value.documents == map[]
    ensures r.Ok? ==> forall w :: w in r.value.stopWords <==> w in SplitIntoWords(text)
  {
    TokensValid(text);
    var s :- NewLegacyServer(SplitIntoWords(text));
    if !IsValidWord(text) then Err(InvalidArgument) else Ok(s)
  }

  /** `GetDocumentCount`: the number of stored documents, zero exactly on a
      server without any. */
  function LegacyDocumentCount(s: LegacyServer): (n: nat)
    ensures n == 0 <==> s.documents == map[]
  {
    |s.documents|
  }

  /** `CheckMinus` on a non-empty text: false exactly when the text ends in
      `-` or holds two adjacent `-`. */
  function CheckMinus(text: string): (ok: bool)
    requires |text| > 0
    ensures !ok <==> text[|text| - 1] == '-' || exists i :: 0 <= i < |text| - 1 && text[i] == '-' && text[i + 1] == '-'
  {
    text[|text| - 1] != '-' && NoDoubleMinusFrom(text, 0)
  }

  /** The scanning loop of `CheckMinus`, from position `i` on. */
  function NoDoubleMinusFrom(text: string, i: nat): (ok: bool)
    requires i <= |text|
    ensures ok <==> forall j :: i <= j < |text| - 1 ==> !(text[j] == '-' && text[j + 1] == '-')
    decreases |text| - i
  {
    if i + 1 >= |text| then true
    else if text[i] == '-' && text[i + 1] == '-' then false
    else NoDoubleMinusFrom(text, i + 1)
  }

  /** The non-stop tokens, without any validation. */
  function LegacyWordsNoStop(stopWords: set<string>, text: string): (words: seq<string>)
    ensures forall w :: w in words <==> w in SplitIntoWords(text) && w !in stopWords
    ensures forall w :: multiset(words)[w] == if w in stopWords then 0 else multiset(SplitIntoWords(text))[w]
  {
    Keep(SplitIntoWords(text), w => w !in stopWords)
  }

  /** The check at the head of the legacy `AddDocument`. It sits inside a
      loop over the stored documents, so it only runs when there is one. */
  predicate AddRejects(s: LegacyServer, id: int, text: string) {
    exists key :: key in s.documents && (id == key || id <= -1 || !IsValidWord(text))
  }

  /** The legacy `AddDocument` as written: on an empty server a negative id
      and text with control characters go through. */
  function AddDocument(s: LegacyServer, id: int, text: string, status: Status, ratings: seq<int>)
    : (r: Result<LegacyServer>)
    ensures r.Err? <==> id in s.documents || (|s.documents| > 0 && (id < 0 || !IsValidWord(text)))
    ensures r.Err? ==> r.error == InvalidArgument
    ensures r.Ok? ==> r.value.stopWords == s.stopWords
    ensures r.Ok? ==> r.value.documents == s.documents[id := DocData(ComputeAverageRating(ratings), status)]
    ensures r.Ok? ==> forall w, k :: In2(r.value.postings, w, k) <==>
                        In2(s.postings, w, k) || (k == id && w in SplitIntoWords(text) && w !in s.stopWords)
    ensures r.Ok? ==> forall w, k :: k != id ==> Get2(r.value.postings, w, k) == Get2(s.postings, w, k)
  {
    if AddRejects(s, id, text) then Err(InvalidArgument)
    else
      assert |s.documents| > 0 ==> exists key :: key in s.documents by {
        if |s.documents| > 0 {
          assert s.documents.Keys != {};
          HasElement(s.documents.Keys);
        }
      }
      Ok(Store(s, id, text, status, ratings))
  }

  /** The state after the indexing loop and `documents_.emplace`. */
  function Store(s: LegacyServer, id: int, text: string, status: Status, ratings: seq<int>): (t: LegacyServer)
    ensures t.stopWords == s.stopWords
    ensures t.documents == s.documents[id := DocData(ComputeAverageRating(ratings), status)]
    ensures forall w :: w in t.postings <==> w in s.postings || (w in SplitIntoWords(text) && w !in s.stopWords)
    ensures forall w, k :: In2(t.postings, w, k) <==>
              In2(s.postings, w, k) || (k == id && w in SplitIntoWords(text) && w !in s.stopWords)
    ensures forall w, k :: k != id ==> Get2(t.postings, w, k) == Get2(s.postings, w, k)
  {
    var words := LegacyWordsNoStop(s.stopWords, text);
    var inc := if |words| == 0 then 0.0 else 1.0 / |words| as real;
    LegacyServer(s.stopWords, PostWords(s.postings, id, words, inc),
                 s.documents[id := DocData(ComputeAverageRating(ratings), status)])
  }

  /** `AddDocument` with the check made unconditional. */
  function AddDocumentChecked(s: LegacyServer, id: int, text: string, status: Status, ratings: seq<int>)
    : (r: Result<LegacyServer>)
    ensures r.Err? <==> id < 0 || id in s.documents || !IsValidWord(text)
    ensures r.Err? ==> r.error == InvalidArgument
    ensures r.Ok? ==> r.value.documents == s.documents[id := DocData(ComputeAverageRating(ratings), status)]
    ensures r.Ok? && LegacyValid(s) ==> LegacyValid(r.value)
  {
    if id < 0 || id in s.documents || !IsValidWord(text) then Err(InvalidArgument)
    else
      var t := Store(s, id, text, status, ratings);
      assert LegacyValid(s) ==> PostingsKnown(t.postings, t.documents) by {
        if LegacyValid(s) {
          forall w, k | w in t.postings && k in t.postings[w] ensures k in t.documents {
            assert In2(t.postings, w, k);
          }
        }
      }
      Ok(t)
  }

  /** Once a document is stored the two versions agree. */
  lemma CheckedAgreesWhenNonEmpty(s: LegacyServer, id: int, text: string, status: Status, ratings: seq<int>)
    requires |s.documents| > 0
    ensures AddDocument(s, id, text, status, ratings) == AddDocumentChecked(s, id, text, status, ratings)
  {
  }

  /** On an empty server the legacy `AddDocument` stores id -1 for a text with
      a control character, and the stored state is no longer valid. */
  lemma EmptyServerAcceptsInvalid(stopWords: set<string>)
    ensures var s := LegacyServer(stopWords, map[], map[]);
            && AddDocument(s, -1, "\t", Actual, []).Ok?
            && -1 in AddDocument(s, -1, "\t", Actual, []).value.documents
            && !LegacyValid(AddDocument(s, -1, "\t", Actual, []).value)
            && AddDocumentChecked(s, -1, "\t", Actual, []).Err?
  {
    assert !IsValidWord("\t") by { assert "\t"[0] < ' '; }
  }

  /** `ParseQueryWord` on a token (never empty): strips one leading `-`,
      with no validation. */
  function LegacyParseQueryWord(stopWords: set<string>, text: string): (q: QueryWord)
    requires |text| > 0
    ensures WordText(q) == text
    ensures q.isMinus <==> text[0] == '-'
    ensures q.isStop <==> q.data in stopWords
  {
    var isMinus := text[0] == '-';
    var data := if isMinus then text[1..] else text;
    assert isMinus ==> text == "-" + data;
    QueryWord(data, isMinus, data in stopWords)
  }

  /** The legacy `ParseQuery`: each token goes into the minus set (`-`
      stripped) or the plus set, stop words dropped. The sets are held as
      strictly sorted lists, their iteration order. */
  function LegacyParseQuery(stopWords: set<string>, tokens: seq<string>): (q: Query)
    requires forall i :: 0 <= i < |tokens| ==> IsToken(tokens[i])
    ensures StrictlySorted(q.plus) && StrictlySorted(q.minus)
    ensures forall w :: w in q.plus <==> w in tokens && |w| > 0 && w[0] != '-' && w !in stopWords
    ensures forall w :: w in q.minus <==> MinusOf(w) in tokens && w !in stopWords
    decreases |tokens|
  {
    if |tokens| == 0 then Query([], [])
    else
      var t := tokens[|tokens| - 1];
      assert IsToken(t);
      var init := tokens[..|tokens| - 1];
      assert forall x :: x in tokens <==> x in init || x == t;
      var q := LegacyParseQuery(stopWords, init);
      var qw := LegacyParseQueryWord(stopWords, t);
      assert forall w :: MinusOf(w) == t ==> w == qw.data && qw.isMinus by {
        forall w | MinusOf(w) == t ensures w == qw.data && qw.isMinus {
          assert t[1..] == w;
        }
      }
      if qw.isStop then q
      else if qw.isMinus then Query(q.plus, InsertSorted(q.minus, qw.data))
      else Query(InsertSorted(q.plus, qw.data), q.minus)
  }

  /** The gate of the legacy `FindTopDocuments` and `MatchDocument`: the
      whole raw query must pass `CheckMinus` and `IsValidWord`. */
  predicate QueryAccepted(rawQuery: string)
    requires |rawQuery| > 0
  {
    CheckMinus(rawQuery) && IsValidWord(rawQuery)
  }

  /** The legacy `FindTopDocuments` with a predicate. */
  function LegacyFindTopDocuments(s: LegacyServer, rawQuery: string, pred: Predicate, idf: Idf)
    : (r: Result<seq<Document>>)
    requires |rawQuery| > 0
    ensures r.Err? <==> !QueryAccepted(rawQuery)
    ensures r.Err? ==> r.error == InvalidArgument
    ensures r.Ok? ==> |r.value| <= MaxResultDocumentCount && RankSorted(r.value)
    ensures r.Ok? ==>
      var q := LegacyParseQuery(s.stopWords, SplitIntoWords(rawQuery));
      var all := FindAll(s.postings, s.documents, q.plus, q.minus, pred, idf);
      && multiset(r.value) <= multiset(all)
      && |r.value| == (if |all| < MaxResultDocumentCount then |all| else MaxResultDocumentCount)
      && forall d, e :: d in r.value && e in all && e !in r.value ==> AtLeast(d, e)
    ensures r.Ok? ==>
      var q := LegacyParseQuery(s.stopWords, SplitIntoWords(rawQuery));
      forall d :: d in r.value ==> Qualifies(s.postings, s.documents, q.plus, q.minus, pred, d.id)
  {
    if !QueryAccepted(rawQuery) then Err(InvalidArgument)
    else
      var q := LegacyParseQuery(s.stopWords, SplitIntoWords(rawQuery));
      TopQualifies(s.postings, s.documents, q.plus, q.minus, pred, idf);
      Ok(TopDocuments(FindAll(s.postings, s.documents, q.plus, q.minus, pred, idf)))
  }

  /** The status overload and the default (`ACTUAL`) overload: the
      predicate overload with the predicate that accepts exactly the
      documents of the given status. */
  function LegacyFindTopDocumentsByStatus(s: LegacyServer, rawQuery: string, status: Status, idf: Idf)
    : (r: Result<seq<Document>>)
    requires |rawQuery| > 0
    ensures r == LegacyFindTopDocuments(s, rawQuery, ByStatus(status), idf)
    ensures r.Err? <==> !QueryAccepted(rawQuery)
    ensures r.Err? ==> r.error == InvalidArgument
    ensures r.Ok? ==> |r.value| <= MaxResultDocumentCount && RankSorted(r.value)
    ensures r.Ok? ==> forall d :: d in r.value ==> d.id in s.documents && s.documents[d.id].status == status
  {
    LegacyFindTopDocuments(s, rawQuery, ByStatus(status), idf)
  }

  /** The legacy `MatchDocument`: the plus words the document contains, in
      set order, cleared when a minus word is present; the status lookup
      fails for an unknown id. */
  function LegacyMatchDocument(s: LegacyServer, rawQuery: string, id: int): (r: Result<(seq<string>, Status)>)
    requires |rawQuery| > 0
    ensures r.Ok? <==> QueryAccepted(rawQuery) && id in s.documents
    ensures !QueryAccepted(rawQuery) ==> r == Err(InvalidArgument)
    ensures QueryAccepted(rawQuery) && id !in s.documents ==> r == Err(OutOfRange)
    ensures r.Ok? ==>
      var q := LegacyParseQuery(s.stopWords, SplitIntoWords(rawQuery));
      && r.value.1 == s.documents[id].status
      && StrictlySorted(r.value.0)
      && (ReachedBy(s.postings, q.minus, id) ==> r.value.0 == [])
      && (!ReachedBy(s.postings, q.minus, id) ==>
            forall w :: w in r.value.0 <==> w in q.plus && Contains(s.postings, w, id))
  {
    if !QueryAccepted(rawQuery) then Err(InvalidArgument)
    else
      var q := LegacyParseQuery(s.stopWords, SplitIntoWords(rawQuery));
      var matched := Keep(q.plus, w => Contains(s.postings, w, id));
      var matched := if ReachedBy(s.postings, q.minus, id) then [] else matched;
      if id !in s.documents then Err(OutOfRange) else Ok((matched, s.documents[id].status))
  }

  /** `GetDocumentId`: `out_of_range` above the document count or at -1
      and below; otherwise the index itself. The guard is off by one: an
      index equal to the count is accepted, although with that many
      documents the last valid position is one below it
      (search-server/main.cpp:205). */
  function GetDocumentId(s: LegacyServer, index: int): (r: Result<int>)
    ensures r.Err? <==> index > LegacyDocumentCount(s) || index <= -1
    ensures r.Err? ==> r.error == OutOfRange
    ensures r.Ok? ==> r.value == index && 0 <= r.value <= LegacyDocumentCount(s)
  {
    if index > LegacyDocumentCount(s) || index <= -1 then Err(OutOfRange) else Ok(index)
  }

  /** Whenever the current parser accepts a query, the legacy parser reads
      the same plus and minus words from it. */
  lemma ParsersAgree(stopWords: set<string>, rawQuery: string)
    requires ParseQuery(stopWords, rawQuery).Ok?
    ensures LegacyParseQuery(stopWords, SplitIntoWords(rawQuery)) == ParseQuery(stopWords, rawQuery).value
  {
    var a := LegacyParseQuery(stopWords, SplitIntoWords(rawQuery));
    var b := ParseQuery(stopWords, rawQuery).value;
    SortedUnique(a.plus, b.plus);
    SortedUnique(a.minus, b.minus);
  }

  /** The two servers rank alike: on the same index, a query both accept
      yields the same documents in the same order. */
  lemma FindTopAgrees(s: Server, l: LegacyServer, rawQuery: string, pred: Predicate, idf: Idf)
    requires l.stopWords == s.stopWords && l.postings == s.postings && l.documents == s.documents
    requires PostingsKnown(s.postings, s.documents)
    requires |rawQuery| > 0 && QueryAccepted(rawQuery) && ParseQuery(s.stopWords, rawQuery).Ok?
    ensures LegacyFindTopDocuments(l, rawQuery, pred, idf) == Search.FindTopDocuments(s, rawQuery, pred, idf)
  {
    ParsersAgree(s.stopWords, rawQuery);
  }
}
