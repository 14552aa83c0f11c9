/** The state of `SearchServer` and the transitions that change it:
    construction from stop words, `AddDocument` and the three
    `RemoveDocument` variants, plus the read-only accessors. */
module Index {
  import opened Outcomes
  import opened Documents
  import opened Strings
  import opened Ordering

  /** The server's fields. The `word_` deque that owns the document texts is
      not modelled: words are owned strings. */
  datatype Server = Server(
    stopWords: set<string>,
    postings: Postings,                       // word_to_document_freqs_
    documents: map<int, DocData>,             // documents_
    documentIds: set<int>,                    // document_ids_
    wordFreqs: map<int, map<string, real>>)   // word_freqs

  /** `b` is a key of the inner map stored under `a`. */
  predicate In2<A(==), B(==)>(m: map<A, map<B, real>>, a: A, b: B) {
    a in m && b in m[a]
  }

  /** The value `m[a][b]`, or 0 when there is none: what `m[a][b] += x`
      starts from. */
  function Get2<A(==), B(==)>(m: map<A, map<B, real>>, a: A, b: B): real {
    if In2(m, a, b) then m[a][b] else 0.0
  }

  /** The two frequency maps are exact inverses of each other. */
  ghost predicate Synced(postings: Postings, freqs: map<int, map<string, real>>) {
    && (forall w, id :: In2(postings, w, id) <==> In2(freqs, id, w))
    && (forall w, id :: In2(postings, w, id) ==> Get2(postings, w, id) == Get2(freqs, id, w))
  }

  /** The invariant every reachable server keeps. */
  ghost predicate Valid(s: Server) {
    && s.documentIds == s.documents.Keys
    && (forall id :: id in s.documents ==> id >= 0)
    && s.wordFreqs.Keys <= s.documents.Keys
    && (forall w :: w in s.postings ==> w !in s.stopWords)
    && Synced(s.postings, s.wordFreqs)
  }

  lemma ValidPostingsKnown(s: Server)
    requires Valid(s)
    ensures PostingsKnown(s.postings, s.documents)
  {
    forall w, id | w in s.postings && id in s.postings[w] ensures id in s.documents {
      assert In2(s.postings, w, id);
    }
  }

  /** The empty server over the given stop words. */
  function Empty(stopWords: set<string>): Server {
    Server(stopWords, map[], map[], {}, map[])
  }

  /** The container constructor: the non-empty distinct stop words, rejected
      when one of them holds a control character. */
  function NewServer(stopWords: seq<string>): (r: Result<Server>)
    ensures r.Ok? <==> forall i :: 0 <= i < |stopWords| ==> IsValidWord(stopWords[i])
    ensures r.Err? ==> r.error == InvalidArgument
    ensures r.Ok? ==> Valid(r.value) && r.value == Empty(r.value.stopWords)
    ensures r.Ok? ==> forall w :: w in r.value.stopWords <==> w in stopWords && w != ""
  {
    var words := MakeUniqueNonEmptyStrings(stopWords);
    if exists w :: w in words && !IsValidWord(w) then
      Err(InvalidArgument)
    else
      assert forall i :: 0 <= i < |stopWords| && stopWords[i] == "" ==> IsValidWord(stopWords[i]);
      Ok(Empty(words))
  }

  /** The text constructors: the stop words are the tokens of the text. */
  function NewServerFromText(text: string): (r: Result<Server>)
    ensures r.Ok? <==> IsValidWord(text)
    ensures r.Err? ==> r.error == InvalidArgument
    ensures r.Ok? ==> Valid(r.value) && r.value == Empty(r.value.stopWords)
    ensures r.Ok? ==> forall w :: w in r.value.stopWords <==> w in SplitIntoWords(text)
  {
    TokensValid(text);
    NewServer(SplitIntoWords(text))
  }

  /** `GetDocumentCount`: the number of stored documents, which on a valid
      server is the size of the id set that `begin()`/`end()` walk. */
  function GetDocumentCount(s: Server): (n: nat)
    ensures Valid(s) ==> n == |s.documentIds|
    ensures n == 0 <==> s.documents == map[]
  {
    |s.documents|
  }

  /** `begin()`/`end()`: the live ids in ascending order. */
  function DocumentIds(s: Server): (ids: seq<int>)
    requires Valid(s)
    ensures Increasing(ids)
    ensures forall id :: id in ids <==> id in s.documents
    ensures |ids| == GetDocumentCount(s)
  {
    Ascending(s.documentIds)
  }

  /** `GetWordFrequencies`: the document's word -> frequency view, empty for
      an id that has none. It agrees with the inverted index. */
  function GetWordFrequencies(s: Server, id: int): (r: map<string, real>)
    ensures id !in s.wordFreqs ==> r == map[]
    ensures Valid(s) ==> forall w :: w in r <==> In2(s.postings, w, id)
    ensures Valid(s) ==> forall w :: w in r ==> r[w] == s.postings[w][id]
  {
    if id in s.wordFreqs then
      assert forall w :: w in s.wordFreqs[id] ==> In2(s.wordFreqs, id, w);
      s.wordFreqs[id]
    else map[]
  }

  function Sum(xs: seq<int>): int {
    if |xs| == 0 then 0 else xs[0] + Sum(xs[1..])
  }

  /** The quotient of a non-negative `a` by `b`, by repeated subtraction. */
  function NatDiv(a: int, b: int): (q: int)
    requires a >= 0 && b > 0
    ensures q >= 0 && q * b <= a < q * b + b
    decreases a
  {
    if a < b then 0
    else
      var q := NatDiv(a - b, b);
      assert (q + 1) * b == q * b + b;
      q + 1
  }

  /** C++ integer division, which truncates toward zero. */
  function TruncDiv(a: int, b: int): (q: int)
    requires b > 0
    ensures a >= 0 ==> q >= 0 && q * b <= a < q * b + b
    ensures a < 0 ==> q <= 0 && q * b - b < a <= q * b
  {
    if a >= 0 then NatDiv(a, b)
    else
      var p := NatDiv(-a, b);
      assert (-p) * b == -(p * b);
      -p
  }

  /** `ComputeAverageRating`: 0 for no ratings, otherwise the sum divided by
      the count, rounded toward zero. */
  function ComputeAverageRating(ratings: seq<int>): (r: int)
    ensures |ratings| == 0 ==> r == 0
    ensures |ratings| > 0 && Sum(ratings) >= 0 ==> r >= 0 && r * |ratings| <= Sum(ratings) < r * |ratings| + |ratings|
    ensures |ratings| > 0 && Sum(ratings) < 0 ==> r <= 0 && r * |ratings| - |ratings| < Sum(ratings) <= r * |ratings|
  {
    if |ratings| == 0 then 0 else TruncDiv(Sum(ratings), |ratings|)
  }

  /** `SplitIntoWordsNoStop`: the tokens of `text` that are not stop words,
      each as often as in the text; any token with a control character is
      rejected. */
  function SplitIntoWordsNoStop(stopWords: set<string>, text: string): (r: Result<seq<string>>)
    ensures r.Err? <==> !IsValidWord(text)
    ensures r.Err? ==> r.error == InvalidArgument
    ensures r.Ok? ==> forall w :: w in r.value <==> w in SplitIntoWords(text) && w !in stopWords
    ensures r.Ok? ==> forall w :: multiset(r.value)[w] ==
                        if w in stopWords then 0 else multiset(SplitIntoWords(text))[w]
  {
    var tokens := SplitIntoWords(text);
    TokensValid(text);
    if exists i :: 0 <= i < |tokens| && !IsValidWord(tokens[i]) then Err(InvalidArgument)
    else Ok(Keep(tokens, w => w !in stopWords))
  }

  /** `inc` added to 0 `n` times: what `n` executions of `+= inc` leave. */
  function Repeat(n: nat, inc: real): real {
    if n == 0 then 0.0 else Repeat(n - 1, inc) + inc
  }

  /** n additions of 1/n-ths give c/n: the term frequency is count/n. */
  lemma {:induction false} RepeatFraction(c: nat, n: nat)
    requires n > 0
    ensures Repeat(c, 1.0 / n as real) == c as real / n as real
  {
    if c > 0 {
      RepeatFraction(c - 1, n);
      assert (c - 1) as real / n as real + 1.0 / n as real == c as real / n as real;
    }
  }

  /** `m[a][b] += inc`, creating the missing levels with 0. */
  function Bump<A(==,!new), B(==,!new)>(m: map<A, map<B, real>>, a: A, b: B, inc: real): (r: map<A, map<B, real>>)
    ensures r.Keys == m.Keys + {a}
    ensures forall x, y :: In2(r, x, y) <==> In2(m, x, y) || (x == a && y == b)
    ensures forall x, y :: Get2(r, x, y) == Get2(m, x, y) + (if x == a && y == b then inc else 0.0)
  {
    var inner := if a in m then m[a] else map[];
    m[a := inner[b := (if b in inner then inner[b] else 0.0) + inc]]
  }

  /** The posting half of the indexing loop of `AddDocument`:
      `word_to_document_freqs_[word][id] += inc` for every word in turn. */
  function PostWords(postings: Postings, id: int, words: seq<string>, inc: real): (r: Postings)
    ensures forall w :: w in r <==> w in postings || w in words
    ensures forall w, k :: In2(r, w, k) <==> In2(postings, w, k) || (k == id && w in words)
    ensures forall w, k :: Get2(r, w, k) ==
              Get2(postings, w, k) + (if k == id then Repeat(multiset(words)[w], inc) else 0.0)
    decreases |words|
  {
    if |words| == 0 then postings
    else
      var w0 := words[0];
      assert words == [w0] + words[1..];
      var bumped := Bump(postings, w0, id, inc);
      var r := PostWords(bumped, id, words[1..], inc);
      assert forall w :: w in words <==> w == w0 || w in words[1..];
      assert forall w, k :: Get2(r, w, k) ==
               Get2(postings, w, k) + (if k == id then Repeat(multiset(words)[w], inc) else 0.0) by {
        forall w, k ensures Get2(r, w, k) ==
                 Get2(postings, w, k) + (if k == id then Repeat(multiset(words)[w], inc) else 0.0) {
          assert Get2(bumped, w, k) == Get2(postings, w, k) + (if w == w0 && k == id then inc else 0.0);
          assert Get2(r, w, k) == Get2(bumped, w, k) + (if k == id then Repeat(multiset(words[1..])[w], inc) else 0.0);
          if w == w0 {
            assert multiset(words)[w] == multiset(words[1..])[w] + 1;
            assert Repeat(multiset(words)[w], inc) == Repeat(multiset(words[1..])[w], inc) + inc;
          } else {
            assert multiset(words)[w] == multiset(words[1..])[w];
          }
        }
      }
      r
  }

  /** The per-document half of the indexing loop:
      `word_freqs[id][word] += inc` for every word in turn. */
  function FreqWords(freqs: map<int, map<string, real>>, id: int, words: seq<string>, inc: real)
    : (r: map<int, map<string, real>>)
    ensures forall k :: k in r <==> k in freqs || (k == id && |words| > 0)
    ensures forall k, w :: In2(r, k, w) <==> In2(freqs, k, w) || (k == id && w in words)
    ensures forall k, w :: Get2(r, k, w) ==
              Get2(freqs, k, w) + (if k == id then Repeat(multiset(words)[w], inc) else 0.0)
    decreases |words|
  {
    if |words| == 0 then freqs
    else
      var w0 := words[0];
      assert words == [w0] + words[1..];
      var bumped := Bump(freqs, id, w0, inc);
      var r := FreqWords(bumped, id, words[1..], inc);
      assert forall w :: w in words <==> w == w0 || w in words[1..];
      assert forall k, w :: Get2(r, k, w) ==
               Get2(freqs, k, w) + (if k == id then Repeat(multiset(words)[w], inc) else 0.0) by {
        forall k, w ensures Get2(r, k, w) ==
                 Get2(freqs, k, w) + (if k == id then Repeat(multiset(words)[w], inc) else 0.0) {
          assert Get2(bumped, k, w) == Get2(freqs, k, w) + (if k == id && w == w0 then inc else 0.0);
          assert Get2(r, k, w) == Get2(bumped, k, w) + (if k == id then Repeat(multiset(words[1..])[w], inc) else 0.0);
          if w == w0 {
            assert multiset(words)[w] == multiset(words[1..])[w] + 1;
            assert Repeat(multiset(words)[w], inc) == Repeat(multiset(words[1..])[w], inc) + inc;
          } else {
            assert multiset(words)[w] == multiset(words[1..])[w];
          }
        }
      }
      r
  }

  /** `AddDocument`. Rejects a negative or already used id and text with a
      control character before changing anything; otherwise indexes the
      non-stop words with term frequency count/n and records the metadata.
      A document of stop words only (n = 0) gets metadata but no frequencies. */
  function AddDocument(s: Server, id: int, text: string, status: Status, ratings: seq<int>): (r: Result<Server>)
    ensures r.Err? <==> id < 0 || id in s.documents || !IsValidWord(text)
    ensures r.Err? ==> r.error == InvalidArgument
    ensures r.Ok? ==> r.value.stopWords == s.stopWords
    ensures r.Ok? ==> r.value.documents == s.documents[id := DocData(ComputeAverageRating(ratings), status)]
    ensures r.Ok? ==> GetDocumentCount(r.value) == GetDocumentCount(s) + 1
    ensures r.Ok? ==> r.value.documentIds == s.documentIds + {id}
    ensures r.Ok? && Valid(s) ==> Valid(r.value)
  {
    if id < 0 || id in s.documents then Err(InvalidArgument)
    else
      var words :- SplitIntoWordsNoStop(s.stopWords, text);
      var inc := if |words| == 0 then 0.0 else 1.0 / |words| as real;
      var t := Server(s.stopWords, PostWords(s.postings, id, words, inc),
                      s.documents[id := DocData(ComputeAverageRating(ratings), status)],
                      s.documentIds + {id}, FreqWords(s.wordFreqs, id, words, inc));
      assert Valid(s) ==> Valid(t) by {
        if Valid(s) {
          AddKeepsSynced(s, id, words, inc);
        }
      }
      Ok(t)
  }

  lemma AddKeepsSynced(s: Server, id: int, words: seq<string>, inc: real)
    requires Valid(s) && id !in s.documents
    ensures Synced(PostWords(s.postings, id, words, inc), FreqWords(s.wordFreqs, id, words, inc))
  {
    forall w | true ensures !In2(s.postings, w, id) {
      assert !In2(s.wordFreqs, id, w);
    }
  }

  /** What `.at(word)` in the removal loop needs: every word of the document
      has a posting map. Every valid server meets it. */
  predicate Removable(s: Server, id: int) {
    id in s.wordFreqs ==> s.wordFreqs[id].Keys <= s.postings.Keys
  }

  lemma ValidRemovable(s: Server, id: int)
    requires Valid(s)
    ensures Removable(s, id)
  {
    if id in s.wordFreqs {
      forall w | w in s.wordFreqs[id] ensures w in s.postings {
        assert In2(s.wordFreqs, id, w);
      }
    }
  }

  /** `RemoveDocument(id)`: nothing happens unless `id` has a word-frequency
      entry; otherwise `id` leaves `document_ids_`, `documents_`,
      `word_freqs` and the posting map of each of its words. Posting maps that
      become empty stay in the index. */
  function RemoveDocument(s: Server, id: int): (r: Server)
    requires Removable(s, id)
    ensures id !in s.wordFreqs ==> r == s
    ensures id in s.wordFreqs ==> r.documents == s.documents - {id}
    ensures id in s.wordFreqs ==> r.documentIds == s.documentIds - {id}
    ensures id in s.wordFreqs ==> r.wordFreqs == s.wordFreqs - {id}
    ensures r.stopWords == s.stopWords && r.postings.Keys == s.postings.Keys
    ensures forall w, k :: k != id ==> (In2(r.postings, w, k) <==> In2(s.postings, w, k))
    ensures forall w, k :: k != id ==> Get2(r.postings, w, k) == Get2(s.postings, w, k)
    ensures Valid(s) ==> forall w :: !In2(r.postings, w, id)
    ensures Valid(s) ==> Valid(r)
    ensures GetWordFrequencies(r, id) == map[]
  {
    if id !in s.wordFreqs then s
    else
      var words := s.wordFreqs[id].Keys;
      var postings := map w | w in s.postings :: if w in words then s.postings[w] - {id} else s.postings[w];
      var r := Server(s.stopWords, postings, s.documents - {id}, s.documentIds - {id}, s.wordFreqs - {id});
      assert Valid(s) ==> forall w :: !In2(r.postings, w, id) by {
        if Valid(s) {
          forall w | In2(s.postings, w, id) ensures w in words {
            assert In2(s.wordFreqs, id, w);
          }
        }
      }
      r
  }

  /** Erase `id` from the posting map of each word of `order`, one word after
      the other. */
  function EraseFrom(postings: Postings, id: int, order: seq<string>): (r: Postings)
    requires forall w :: w in order ==> w in postings
    ensures r.Keys == postings.Keys
    ensures forall w :: w in r ==> r[w] == if w in order then postings[w] - {id} else postings[w]
    decreases |order|
  {
    if |order| == 0 then postings
    else
      var w := order[0];
      EraseFrom(postings[w := postings[w] - {id}], id, order[1..])
  }

  /** The policy overloads of `RemoveDocument`: the per-word erasures run in
      the order `order` (the map order for `seq`, any schedule of the
      worker threads for `par`), each word of the document exactly once.
      Every such order ends in the state of the plain `RemoveDocument`. */
  function RemoveDocumentWith(s: Server, id: int, order: seq<string>): (r: Server)
    requires Removable(s, id)
    requires id in s.wordFreqs ==> forall w :: w in order <==> w in s.wordFreqs[id]
    ensures r == RemoveDocument(s, id)
  {
    if id !in s.wordFreqs then s
    else
      var r := s.(postings := EraseFrom(s.postings, id, order), documents := s.documents - {id},
                  documentIds := s.documentIds - {id}, wordFreqs := s.wordFreqs - {id});
      assert r.postings == RemoveDocument(s, id).postings;
      r
  }

  /** The state `AddDocument` builds once `id` and the text are accepted:
      `words` are the non-stop tokens. */
  function Indexed(s: Server, id: int, words: seq<string>, data: DocData): Server {
    var inc := if |words| == 0 then 0.0 else 1.0 / |words| as real;
    Server(s.stopWords, PostWords(s.postings, id, words, inc), s.documents[id := data],
           s.documentIds + {id}, FreqWords(s.wordFreqs, id, words, inc))
  }

  lemma AddDocumentIndexed(s: Server, id: int, text: string, status: Status, ratings: seq<int>)
    requires id >= 0 && id !in s.documents && IsValidWord(text)
    ensures AddDocument(s, id, text, status, ratings).value ==
            Indexed(s, id, SplitIntoWordsNoStop(s.stopWords, text).value, DocData(ComputeAverageRating(ratings), status))
  {
  }

  lemma IndexedFresh(s: Server, id: int)
    requires Valid(s) && id !in s.documents
    ensures forall w :: !In2(s.postings, w, id) && !In2(s.wordFreqs, id, w)
  {
    forall w ensures !In2(s.postings, w, id) && !In2(s.wordFreqs, id, w) {
      assert !In2(s.wordFreqs, id, w);
    }
  }

  lemma PostedFraction(postings: Postings, id: int, words: seq<string>, w: string)
    requires !In2(postings, w, id) && w in words
    ensures var r := PostWords(postings, id, words, 1.0 / |words| as real);
            In2(r, w, id) && r[w][id] == multiset(words)[w] as real / |words| as real
  {
    var r := PostWords(postings, id, words, 1.0 / |words| as real);
    assert Get2(r, w, id) == r[w][id];
    RepeatFraction(multiset(words)[w], |words|);
  }

  lemma FreqFraction(freqs: map<int, map<string, real>>, id: int, words: seq<string>, w: string)
    requires !In2(freqs, id, w) && w in words
    ensures var r := FreqWords(freqs, id, words, 1.0 / |words| as real);
            In2(r, id, w) && r[id][w] == multiset(words)[w] as real / |words| as real
  {
    var r := FreqWords(freqs, id, words, 1.0 / |words| as real);
    assert Get2(r, id, w) == r[id][w];
    RepeatFraction(multiset(words)[w], |words|);
  }

  /** Each indexed word carries count/n in both maps. */
  lemma IndexedFrequencies(s: Server, id: int, words: seq<string>, data: DocData)
    requires Valid(s) && id !in s.documents
    ensures var t := Indexed(s, id, words, data);
            forall w :: w in words ==>
              In2(t.postings, w, id) && In2(t.wordFreqs, id, w) &&
              t.postings[w][id] == t.wordFreqs[id][w] == multiset(words)[w] as real / |words| as real
  {
    IndexedFresh(s, id);
    forall w | w in words
      ensures var t := Indexed(s, id, words, data);
              In2(t.postings, w, id) && In2(t.wordFreqs, id, w) &&
              t.postings[w][id] == t.wordFreqs[id][w] == multiset(words)[w] as real / |words| as real
    {
      PostedFraction(s.postings, id, words, w);
      FreqFraction(s.wordFreqs, id, words, w);
    }
  }

  /** Indexing one document leaves every other document's view unchanged. */
  lemma IndexedLeavesOthers(s: Server, id: int, words: seq<string>, data: DocData, k: int)
    requires k != id
    ensures GetWordFrequencies(Indexed(s, id, words, data), k) == GetWordFrequencies(s, k)
  {
    var t := Indexed(s, id, words, data);
    if k in s.wordFreqs {
      forall w ensures w in t.wordFreqs[k] <==> w in s.wordFreqs[k] {
        assert In2(t.wordFreqs, k, w) <==> In2(s.wordFreqs, k, w);
      }
      forall w | w in s.wordFreqs[k] ensures t.wordFreqs[k][w] == s.wordFreqs[k][w] {
        assert Get2(t.wordFreqs, k, w) == Get2(s.wordFreqs, k, w);
      }
    }
  }

  /** After a successful `AddDocument` with n >= 1 non-stop words, each such
      word w has `word_to_document_freqs_[w][id] == word_freqs[id][w] ==
      count(w) / n`; stop words never become keys; every other document's
      entries are unchanged. */
  lemma AddDocumentFrequencies(s: Server, id: int, text: string, status: Status, ratings: seq<int>)
    requires Valid(s)
    requires id >= 0 && id !in s.documents && IsValidWord(text)
    ensures var t := AddDocument(s, id, text, status, ratings).value;
            var words := SplitIntoWordsNoStop(s.stopWords, text).value;
            && (forall w :: w in t.postings ==> w !in t.stopWords)
            && (forall w :: In2(t.postings, w, id) <==> w in words)
            && (forall w :: w in words ==>
                  t.postings[w][id] == t.wordFreqs[id][w]
                  == multiset(SplitIntoWords(text))[w] as real / |words| as real)
            && (forall w, k :: k != id ==> Get2(t.postings, w, k) == Get2(s.postings, w, k))
            && (forall k :: k != id ==> GetWordFrequencies(t, k) == GetWordFrequencies(s, k))
  {
    var t := AddDocument(s, id, text, status, ratings).value;
    var words := SplitIntoWordsNoStop(s.stopWords, text).value;
    var data := DocData(ComputeAverageRating(ratings), status);
    AddDocumentIndexed(s, id, text, status, ratings);
    IndexedFresh(s, id);
    IndexedFrequencies(s, id, words, data);
    forall k | k != id ensures GetWordFrequencies(t, k) == GetWordFrequencies(s, k) {
      IndexedLeavesOthers(s, id, words, data, k);
    }
  }

  /** The multiplicities in `m` of the elements of `u`, added up. */
  function CountSum(m: multiset<string>, u: seq<string>): int {
    if |u| == 0 then 0 else m[u[0]] + CountSum(m, u[1..])
  }

  /** The frequencies `f[w]` of the words `w` of `u`, added up. */
  function FreqSum(f: map<string, real>, u: seq<string>): real
    requires forall i :: 0 <= i < |u| ==> u[i] in f
  {
    if |u| == 0 then 0.0 else f[u[0]] + FreqSum(f, u[1..])
  }

  lemma {:induction false} CountSumAgree(m1: multiset<string>, m2: multiset<string>, u: seq<string>)
    requires forall i :: 0 <= i < |u| ==> m1[u[i]] == m2[u[i]]
    ensures CountSum(m1, u) == CountSum(m2, u)
  {
    if |u| > 0 {
      CountSumAgree(m1, m2, u[1..]);
    }
  }

  /** Dropping every copy of `x` shrinks a multiset by the multiplicity of `x`. */
  lemma {:induction false} DropAll(m: multiset<string>, x: string)
    ensures |m| == |m[x := 0]| + m[x]
    decreases m[x]
  {
    if m[x] > 0 {
      var rest := m - multiset{x};
      assert m == rest + multiset{x};
      assert rest[x := 0] == m[x := 0];
      DropAll(rest, x);
    } else {
      assert m[x := 0] == m;
    }
  }

  /** Summed over a duplicate-free list of exactly its elements, the
      multiplicities of a multiset give its size. */
  lemma {:induction false} CountSumAll(m: multiset<string>, u: seq<string>)
    requires forall i, j :: 0 <= i < j < |u| ==> u[i] != u[j]
    requires forall x :: x in m <==> x in u
    ensures CountSum(m, u) == |m|
  {
    if |u| == 0 {
      assert m == multiset{};
    } else {
      var x := u[0];
      var rest := m[x := 0];
      forall y ensures y in rest <==> y in u[1..] {
        if y in u[1..] {
          var j :| 0 <= j < |u[1..]| && u[1..][j] == y;
          assert u[j + 1] == y;
        }
      }
      forall i | 0 <= i < |u[1..]| ensures m[u[1..][i]] == rest[u[1..][i]] {
        assert u[1..][i] == u[i + 1];
      }
      CountSumAgree(m, rest, u[1..]);
      CountSumAll(rest, u[1..]);
      DropAll(m, x);
    }
  }

  lemma DivideSelf(d: real)
    requires d > 0.0
    ensures d / d == 1.0
  {
  }

  lemma AddDivide(a: real, b: real, d: real)
    requires d > 0.0
    ensures a / d + b / d == (a + b) / d
  {
  }

  lemma {:induction false} FreqSumScaled(f: map<string, real>, u: seq<string>, m: multiset<string>, n: nat)
    requires n > 0
    requires forall i :: 0 <= i < |u| ==> u[i] in f && f[u[i]] == m[u[i]] as real / n as real
    ensures FreqSum(f, u) == CountSum(m, u) as real / n as real
  {
    if |u| > 0 {
      var tail := u[1..];
      forall i | 0 <= i < |tail| ensures tail[i] in f && f[tail[i]] == m[tail[i]] as real / n as real {
        assert tail[i] == u[i + 1];
      }
      FreqSumScaled(f, tail, m, n);
      AddDivide(m[u[0]] as real, CountSum(m, tail) as real, n as real);
    }
  }

  /** Frequencies that are count/n over a non-empty list of n words add up
      to 1 over any duplicate-free listing of its distinct words. */
  lemma FreqsSumToOne(f: map<string, real>, words: seq<string>, keys: seq<string>)
    requires words != []
    requires forall i, j :: 0 <= i < j < |keys| ==> keys[i] != keys[j]
    requires forall w :: w in keys <==> w in words
    requires forall w :: w in f <==> w in words
    requires forall w :: w in words ==> f[w] == multiset(words)[w] as real / |words| as real
    ensures forall i :: 0 <= i < |keys| ==> keys[i] in f
    ensures FreqSum(f, keys) == 1.0
  {
    var m := multiset(words);
    var n := |words|;
    forall i | 0 <= i < |keys| ensures keys[i] in f && f[keys[i]] == m[keys[i]] as real / n as real {
      assert keys[i] in words;
    }
    FreqSumScaled(f, keys, m, n);
    CountSumAll(m, keys);
    DivideSelf(n as real);
  }

  /** The view of a newly added document: its non-stop words, each at its
      count over their number. */
  lemma AddedView(s: Server, id: int, text: string, status: Status, ratings: seq<int>)
    requires Valid(s)
    requires id >= 0 && id !in s.documents && IsValidWord(text)
    ensures var f := GetWordFrequencies(AddDocument(s, id, text, status, ratings).value, id);
            var words := SplitIntoWordsNoStop(s.stopWords, text).value;
            && (forall w :: w in f <==> w in words)
            && (forall w :: w in words ==> f[w] == multiset(words)[w] as real / |words| as real)
  {
    var words := SplitIntoWordsNoStop(s.stopWords, text).value;
    var f := GetWordFrequencies(AddDocument(s, id, text, status, ratings).value, id);
    AddDocumentFrequencies(s, id, text, status, ratings);
    forall w | w in words ensures f[w] == multiset(words)[w] as real / |words| as real {
      assert w !in s.stopWords;
      assert multiset(SplitIntoWords(text))[w] == multiset(words)[w];
    }
  }

  /** A newly added document with at least one non-stop word has term
      frequencies that add up to 1: its view holds exactly its distinct
      non-stop words, and the count/n terms over them sum to n/n. */
  lemma AddDocumentFrequenciesSumToOne(s: Server, id: int, text: string, status: Status, ratings: seq<int>)
    requires Valid(s)
    requires id >= 0 && id !in s.documents && IsValidWord(text)
    requires SplitIntoWordsNoStop(s.stopWords, text).value != []
    ensures var f := GetWordFrequencies(AddDocument(s, id, text, status, ratings).value, id);
            var keys := SortUnique(SplitIntoWordsNoStop(s.stopWords, text).value);
            && (forall w :: w in f <==> w in keys)
            && FreqSum(f, keys) == 1.0
  {
    var words := SplitIntoWordsNoStop(s.stopWords, text).value;
    var f := GetWordFrequencies(AddDocument(s, id, text, status, ratings).value, id);
    var keys := SortUnique(words);
    AddedView(s, id, text, status, ratings);
    forall i, j | 0 <= i < j < |keys| ensures keys[i] != keys[j] {
      BelowIrreflexive(keys[i]);
    }
    FreqsSumToOne(f, words, keys);
  }

  lemma IndexedValid(s: Server, id: int, words: seq<string>, data: DocData)
    requires Valid(s) && id >= 0 && id !in s.documents
    requires forall w :: w in words ==> w !in s.stopWords
    ensures Valid(Indexed(s, id, words, data))
    ensures words != [] ==> id in Indexed(s, id, words, data).wordFreqs
  {
    AddKeepsSynced(s, id, words, if |words| == 0 then 0.0 else 1.0 / |words| as real);
  }

  /** Adding a document with at least one non-stop word and removing it again
      restores the documents, the id set, the word frequencies and every
      posting; only posting maps created for new words linger, empty. */
  lemma AddThenRemove(s: Server, id: int, text: string, status: Status, ratings: seq<int>)
    requires Valid(s)
    requires id >= 0 && id !in s.documents && IsValidWord(text)
    requires SplitIntoWordsNoStop(s.stopWords, text).value != []
    ensures Removable(AddDocument(s, id, text, status, ratings).value, id)
    ensures var u := RemoveDocument(AddDocument(s, id, text, status, ratings).value, id);
            && u.documents == s.documents
            && u.documentIds == s.documentIds
            && u.wordFreqs == s.wordFreqs
            && GetDocumentCount(u) == GetDocumentCount(s)
            && GetWordFrequencies(u, id) == GetWordFrequencies(s, id)
            && (forall w, k :: In2(u.postings, w, k) <==> In2(s.postings, w, k))
            && (forall w, k :: Get2(u.postings, w, k) == Get2(s.postings, w, k))
            && (forall w :: w in u.postings <==> w in s.postings || w in SplitIntoWordsNoStop(s.stopWords, text).value)
  {
    var words := SplitIntoWordsNoStop(s.stopWords, text).value;
    var data := DocData(ComputeAverageRating(ratings), status);
    AddDocumentIndexed(s, id, text, status, ratings);
    IndexedValid(s, id, words, data);
    IndexedThenRemoved(s, id, words, data);
    IndexedThenRemovedPostings(s, id, words, data);
  }

  lemma IndexedThenRemoved(s: Server, id: int, words: seq<string>, data: DocData)
    requires Valid(s) && id >= 0 && id !in s.documents && words != []
    requires forall w :: w in words ==> w !in s.stopWords
    ensures Valid(Indexed(s, id, words, data))
    ensures Removable(Indexed(s, id, words, data), id)
    ensures var u := RemoveDocument(Indexed(s, id, words, data), id);
            && u.documents == s.documents
            && u.documentIds == s.documentIds
            && u.wordFreqs == s.wordFreqs
            && GetWordFrequencies(u, id) == GetWordFrequencies(s, id)
  {
    var t := Indexed(s, id, words, data);
    IndexedValid(s, id, words, data);
    ValidRemovable(t, id);
    IndexedFreqsRestored(s, id, words, data);
  }

  /** Dropping the new document's entry from the indexed state's
      `word_freqs` gives the old one back. */
  lemma IndexedFreqsRestored(s: Server, id: int, words: seq<string>, data: DocData)
    requires id !in s.wordFreqs
    ensures Indexed(s, id, words, data).wordFreqs - {id} == s.wordFreqs
  {
    var t := Indexed(s, id, words, data);
    forall k | k in s.wordFreqs ensures k in t.wordFreqs && t.wordFreqs[k] == s.wordFreqs[k] {
      IndexedLeavesOthers(s, id, words, data, k);
      assert GetWordFrequencies(t, k) == t.wordFreqs[k];
    }
  }

  lemma IndexedThenRemovedPostings(s: Server, id: int, words: seq<string>, data: DocData)
    requires Valid(s) && id >= 0 && id !in s.documents && words != []
    requires forall w :: w in words ==> w !in s.stopWords
    ensures Removable(Indexed(s, id, words, data), id)
    ensures var u := RemoveDocument(Indexed(s, id, words, data), id);
            && (forall w, k :: Get2(u.postings, w, k) == Get2(s.postings, w, k))
            && (forall w :: w in u.postings <==> w in s.postings || w in words)
  {
    var t := Indexed(s, id, words, data);
    IndexedValid(s, id, words, data);
    ValidRemovable(t, id);
    IndexedFresh(s, id);
    var u := RemoveDocument(t, id);
    forall w, k ensures Get2(u.postings, w, k) == Get2(s.postings, w, k) {
      if k == id {
        assert !In2(u.postings, w, id);
      }
    }
  }

  /** A document made of stop words only gets metadata but no word-frequency
      entry, so `RemoveDocument` leaves it in place and the count stays up. */
  lemma StopOnlyDocumentSticks(s: Server, id: int, text: string, status: Status, ratings: seq<int>)
    requires Valid(s)
    requires id >= 0 && id !in s.documents && IsValidWord(text)
    requires SplitIntoWordsNoStop(s.stopWords, text).value == []
    ensures var t := AddDocument(s, id, text, status, ratings).value;
            && id in t.documents && id !in t.wordFreqs
            && RemoveDocument(t, id) == t
            && GetDocumentCount(RemoveDocument(t, id)) == GetDocumentCount(s) + 1
  {
    AddDocumentIndexed(s, id, text, status, ratings);
  }
}
