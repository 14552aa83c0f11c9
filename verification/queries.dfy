/** Query parsing: one raw token becomes a plus word or a minus word, and a
    query text becomes the plus and minus word lists, without stop words. */
module Queries {
  import opened Outcomes
  import opened Strings
  import opened Ordering

  /** `QueryWord`: the word without its `-`, whether it had one, whether it is
      a stop word. */
  datatype QueryWord = QueryWord(data: string, isMinus: bool, isStop: bool)

  /** `Query`: the plus words and the minus words. */
  datatype Query = Query(plus: seq<string>, minus: seq<string>)

  /** The token a query word is read from. */
  function WordText(q: QueryWord): string {
    (if q.isMinus then "-" else "") + q.data
  }

  /** A token starting with two minus signs. */
  predicate DoubleMinus(text: string) {
    |text| >= 2 && text[0] == '-' && text[1] == '-'
  }

  /** `ParseQueryWord`: rejects an empty token, a bare `-`, a token whose
      text after one stripped `-` starts with `-` again, and a token with a
      control character; otherwise strips at most one leading `-`. */
  function ParseQueryWord(stopWords: set<string>, text: string): (r: Result<QueryWord>)
    ensures r.Err? <==> text == "" || text == "-" || DoubleMinus(text) || !IsValidWord(text)
    ensures r.Err? ==> r.error == InvalidArgument
    ensures r.Ok? ==> WordText(r.value) == text
    ensures r.Ok? ==> r.value.data != "" && r.value.data[0] != '-' && IsValidWord(r.value.data)
    ensures r.Ok? ==> (r.value.isMinus <==> text[0] == '-') && (r.value.isStop <==> r.value.data in stopWords)
  {
    if |text| == 0 then Err(InvalidArgument)
    else
      var isMinus := text[0] == '-';
      var data := if isMinus then text[1..] else text;
      assert isMinus ==> text == "-" + data;
      ValidAppend("-", data);
      if |data| == 0 || data[0] == '-' || !IsValidWord(data) then Err(InvalidArgument)
      else Ok(QueryWord(data, isMinus, data in stopWords))
  }

  /** Reading back the token of a well-formed query word gives the word. */
  lemma ParseWordText(stopWords: set<string>, q: QueryWord)
    requires q.data != "" && q.data[0] != '-' && IsValidWord(q.data)
    requires q.isStop <==> q.data in stopWords
    ensures ParseQueryWord(stopWords, WordText(q)) == Ok(q)
  {
    var text := WordText(q);
    if q.isMinus {
      assert text[1..] == q.data;
    } else {
      assert text == q.data;
    }
  }

  /** The word a minus token stands for. */
  function MinusOf(w: string): string {
    "-" + w
  }

  /** The parsing loop over the tokens, keeping token order (the
      `ParseQuery(bool, text)` overload, which does not sort). */
  function CollectWords(stopWords: set<string>, tokens: seq<string>): (r: Result<Query>)
    ensures r.Err? <==> exists i :: 0 <= i < |tokens| && ParseQueryWord(stopWords, tokens[i]).Err?
    ensures r.Err? ==> r.error == InvalidArgument
    ensures r.Ok? ==> forall w :: w in r.value.plus <==>
                        w in tokens && |w| > 0 && w[0] != '-' && w !in stopWords
    ensures r.Ok? ==> forall w :: w in r.value.minus <==> MinusOf(w) in tokens && w !in stopWords
  {
    if |tokens| == 0 then Ok(Query([], []))
    else
      var t := tokens[0];
      assert tokens == [t] + tokens[1..];
      match ParseQueryWord(stopWords, t)
      case Err(e) => Err(e)
      case Ok(qw) =>
        match CollectWords(stopWords, tokens[1..])
        case Err(e) => Err(e)
        case Ok(rest) =>
          assert qw.isMinus ==> t == MinusOf(qw.data);
          assert forall w :: MinusOf(w) == t ==> w == qw.data && qw.isMinus by {
            forall w | MinusOf(w) == t ensures w == qw.data && qw.isMinus {
              assert t[1..] == w;
            }
          }
          if qw.isStop then Ok(rest)
          else if qw.isMinus then Ok(Query(rest.plus, [qw.data] + rest.minus))
          else Ok(Query([qw.data] + rest.plus, rest.minus))
  }

  /** `ParseQuery(true, text)`: the plus and minus words of the tokens, stop
      words dropped, before any sorting. */
  function ParseQueryUnsorted(stopWords: set<string>, text: string): (r: Result<Query>)
    ensures r.Err? <==> exists i :: 0 <= i < |SplitIntoWords(text)| &&
                          ParseQueryWord(stopWords, SplitIntoWords(text)[i]).Err?
    ensures r.Err? ==> r.error == InvalidArgument
    ensures r.Ok? ==> forall w :: w in r.value.plus <==>
                        w in SplitIntoWords(text) && |w| > 0 && w[0] != '-' && w !in stopWords
    ensures r.Ok? ==> forall w :: w in r.value.minus <==> MinusOf(w) in SplitIntoWords(text) && w !in stopWords
  {
    CollectWords(stopWords, SplitIntoWords(text))
  }

  /** `ParseQuery(text)`: as above, then each list sorted and de-duplicated. */
  function ParseQuery(stopWords: set<string>, text: string): (r: Result<Query>)
    ensures r.Err? <==> exists i :: 0 <= i < |SplitIntoWords(text)| &&
                          ParseQueryWord(stopWords, SplitIntoWords(text)[i]).Err?
    ensures r.Err? ==> r.error == InvalidArgument
    ensures r.Ok? ==> StrictlySorted(r.value.plus) && StrictlySorted(r.value.minus)
    ensures r.Ok? ==> forall w :: w in r.value.plus <==>
                        w in SplitIntoWords(text) && |w| > 0 && w[0] != '-' && w !in stopWords
    ensures r.Ok? ==> forall w :: w in r.value.minus <==> MinusOf(w) in SplitIntoWords(text) && w !in stopWords
  {
    var q :- ParseQueryUnsorted(stopWords, text);
    Ok(Query(SortUnique(q.plus), SortUnique(q.minus)))
  }

  /** The sorted query is the unsorted one with each list sorted and
      de-duplicated; any sort-and-unique of the unsorted lists gives it. */
  lemma ParseQuerySorts(stopWords: set<string>, text: string, plus: seq<string>, minus: seq<string>)
    requires ParseQueryUnsorted(stopWords, text).Ok?
    requires StrictlySorted(plus) && forall w :: w in plus <==> w in ParseQueryUnsorted(stopWords, text).value.plus
    requires StrictlySorted(minus) && forall w :: w in minus <==> w in ParseQueryUnsorted(stopWords, text).value.minus
    ensures ParseQuery(stopWords, text) == Ok(Query(plus, minus))
  {
    var q := ParseQuery(stopWords, text).value;
    SortedUnique(q.plus, plus);
    SortedUnique(q.minus, minus);
  }
}
