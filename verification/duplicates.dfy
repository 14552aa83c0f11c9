/** `RemoveDuplicates`: documents whose set of words equals that of a
    document with a smaller id are removed. */
module Duplicates {
  import opened Ordering
  import opened Index

  /** The words of a document, term frequencies ignored. */
  function WordSet(s: Server, id: int): set<string> {
    GetWordFrequencies(s, id).Keys
  }

  /** A document with a smaller id has exactly the same words. */
  predicate HasEarlierTwin(s: Server, id: int) {
    exists k :: k in s.documents && k < id && WordSet(s, k) == WordSet(s, id)
  }

  /** In an ascending enumeration of all documents, the ids before position
      `i` are exactly the documents below `ids[i]`. */
  lemma EarlierIds(s: Server, ids: seq<int>, i: int)
    requires Increasing(ids) && forall id :: id in ids <==> id in s.documents
    requires 0 <= i < |ids|
    ensures forall k :: k in s.documents && k < ids[i] <==> k in ids[..i]
  {
    forall k | k in s.documents && k < ids[i] ensures k in ids[..i] {
      var j :| 0 <= j < |ids| && ids[j] == k;
      assert j < i;
      assert ids[..i][j] == k;
    }
  }

  /** Some id before position `i` has the word set `ws`. */
  predicate Seen(s: Server, ids: seq<int>, i: int, ws: set<string>)
    requires 0 <= i <= |ids|
  {
    exists j :: 0 <= j < i && WordSet(s, ids[j]) == ws
  }

  /** The word set of `ids[i]` was seen before exactly when the document has
      an earlier twin. */
  lemma SeenIffTwin(s: Server, ids: seq<int>, i: int)
    requires Increasing(ids) && forall id :: id in ids <==> id in s.documents
    requires 0 <= i < |ids|
    ensures Seen(s, ids, i, WordSet(s, ids[i])) <==> HasEarlierTwin(s, ids[i])
  {
    EarlierIds(s, ids, i);
    var id := ids[i];
    if HasEarlierTwin(s, id) {
      var k :| k in s.documents && k < id && WordSet(s, k) == WordSet(s, id);
      var j :| 0 <= j < i && ids[..i][j] == k;
      assert WordSet(s, ids[j]) == WordSet(s, id);
    }
    if Seen(s, ids, i, WordSet(s, id)) {
      var j :| 0 <= j < i && WordSet(s, ids[j]) == WordSet(s, id);
      assert ids[j] in ids[..i];
    }
  }

  lemma SeenNext(s: Server, ids: seq<int>, i: int)
    requires 0 <= i < |ids|
    ensures forall ws :: Seen(s, ids, i + 1, ws) <==> Seen(s, ids, i, ws) || ws == WordSet(s, ids[i])
  {
    forall ws ensures Seen(s, ids, i + 1, ws) <==> Seen(s, ids, i, ws) || ws == WordSet(s, ids[i]) {
      if Seen(s, ids, i + 1, ws) && ws != WordSet(s, ids[i]) {
        var j :| 0 <= j < i + 1 && WordSet(s, ids[j]) == ws;
        assert j < i;
      }
    }
  }

  /** The scheduled set after visiting `ids[i]`. */
  lemma VisitDups(s: Server, ids: seq<int>, i: int, dups: set<int>)
    requires Increasing(ids) && 0 <= i < |ids|
    requires forall id :: id in dups <==> id in ids[..i] && HasEarlierTwin(s, id)
    ensures var d := if HasEarlierTwin(s, ids[i]) then dups + {ids[i]} else dups;
            forall x :: x in d <==> x in ids[..i + 1] && HasEarlierTwin(s, x)
  {
    var id := ids[i];
    assert ids[..i + 1] == ids[..i] + [id];
    assert forall x :: x in ids[..i + 1] <==> x in ids[..i] || x == id;
    assert id !in ids[..i] by {
      assert forall j :: 0 <= j < i ==> ids[..i][j] < id;
    }
  }

  /** The keeper map after visiting `ids[i]`. */
  lemma VisitKeepers(s: Server, ids: seq<int>, i: int, keepers: map<set<string>, int>)
    requires Increasing(ids) && forall id :: id in ids <==> id in s.documents
    requires 0 <= i < |ids|
    requires forall ws :: ws in keepers <==> Seen(s, ids, i, ws)
    requires forall ws :: ws in keepers ==>
               keepers[ws] in s.documents && WordSet(s, keepers[ws]) == ws && !HasEarlierTwin(s, keepers[ws])
    ensures WordSet(s, ids[i]) in keepers <==> HasEarlierTwin(s, ids[i])
    ensures var ws := WordSet(s, ids[i]);
            var k := if ws in keepers then keepers else keepers[ws := ids[i]];
            && (forall w :: w in k <==> Seen(s, ids, i + 1, w))
            && (forall w :: w in k ==> k[w] in s.documents && WordSet(s, k[w]) == w && !HasEarlierTwin(s, k[w]))
  {
    var id := ids[i];
    assert id in ids;
    SeenIffTwin(s, ids, i);
    SeenNext(s, ids, i);
  }

  /** The first loop, over `ids`, the documents in ascending order; the first id seen with a word
      set becomes its keeper, every later one is scheduled for deletion. */
  method FindDuplicates(s: Server, ids: seq<int>) returns (keepers: map<set<string>, int>, dups: set<int>)
    requires Increasing(ids) && forall id :: id in ids <==> id in s.documents
    ensures forall id :: id in dups <==> id in s.documents && HasEarlierTwin(s, id)
    ensures forall id :: id in s.documents ==> WordSet(s, id) in keepers
    ensures forall ws :: ws in keepers ==>
              keepers[ws] in s.documents && WordSet(s, keepers[ws]) == ws && !HasEarlierTwin(s, keepers[ws])
  {
    keepers := map[];
    dups := {};
    var i := 0;
    while i < |ids|
      invariant 0 <= i <= |ids|
      invariant forall id :: id in dups <==> id in ids[..i] && HasEarlierTwin(s, id)
      invariant forall ws :: ws in keepers <==> Seen(s, ids, i, ws)
      invariant forall ws :: ws in keepers ==>
                  keepers[ws] in s.documents && WordSet(s, keepers[ws]) == ws && !HasEarlierTwin(s, keepers[ws])
    {
      var id := ids[i];
      var ws := GetWordFrequencies(s, id).Keys;
      assert ws == WordSet(s, id);
      VisitDups(s, ids, i, dups);
      VisitKeepers(s, ids, i, keepers);
      if ws !in keepers {
        keepers := keepers[ws := id];
      } else {
        dups := dups + {id};
      }
      i := i + 1;
    }
    assert ids[..i] == ids;
    forall id | id in s.documents ensures WordSet(s, id) in keepers {
      var j :| 0 <= j < |ids| && ids[j] == id;
      assert Seen(s, ids, i, WordSet(s, id));
    }
  }

  /** The second loop: `RemoveDocument` for each id of `order` in turn. */
  method RemoveAll(s: Server, order: seq<int>) returns (r: Server)
    requires Valid(s)
    ensures Valid(r) && r.stopWords == s.stopWords
    ensures forall id :: id in r.documents <==> id in s.documents && !(id in order && id in s.wordFreqs)
    ensures forall id :: id in r.documents ==> r.documents[id] == s.documents[id]
    ensures forall id :: id in r.wordFreqs <==> id in s.wordFreqs && id !in order
    ensures forall id :: id in r.wordFreqs ==> r.wordFreqs[id] == s.wordFreqs[id]
  {
    r := s;
    var i := 0;
    while i < |order|
      invariant 0 <= i <= |order|
      invariant Valid(r) && r.stopWords == s.stopWords
      invariant forall id :: id in r.documents <==> id in s.documents && !(id in order[..i] && id in s.wordFreqs)
      invariant forall id :: id in r.documents ==> r.documents[id] == s.documents[id]
      invariant forall id :: id in r.wordFreqs <==> id in s.wordFreqs && id !in order[..i]
      invariant forall id :: id in r.wordFreqs ==> r.wordFreqs[id] == s.wordFreqs[id]
    {
      ValidRemovable(r, order[i]);
      r := RemoveDocument(r, order[i]);
      assert order[..i + 1] == order[..i] + [order[i]];
      i := i + 1;
    }
    assert order[..i] == order;
  }

  /** `RemoveDuplicates`: every scheduled id is handed to `RemoveDocument`.
      A scheduled document made only of stop words has no word-frequency
      entry, so that removal does nothing and it stays; every other remaining
      document has a word set no smaller id shares. */
  method RemoveDuplicates(s: Server) returns (dups: set<int>, r: Server)
    requires Valid(s)
    ensures forall id :: id in dups <==> id in s.documents && HasEarlierTwin(s, id)
    ensures Valid(r) && r.stopWords == s.stopWords
    ensures forall id :: id in r.documents <==> id in s.documents && !(id in dups && id in s.wordFreqs)
    ensures forall id :: id in r.documents ==> r.documents[id] == s.documents[id]
    ensures forall id :: id in r.documents ==> GetWordFrequencies(r, id) == GetWordFrequencies(s, id)
    ensures forall a, b :: a in r.documents && b in r.wordFreqs && a < b ==> WordSet(r, a) != WordSet(r, b)
  {
    var keepers;
    keepers, dups := FindDuplicates(s, DocumentIds(s));
    var order := Ascending(dups);
    r := RemoveAll(s, order);
    assert forall id :: id in order <==> id in dups;
    forall id | id in r.documents ensures GetWordFrequencies(r, id) == GetWordFrequencies(s, id) {
      assert id in r.wordFreqs <==> id in s.wordFreqs;
    }
    forall a, b | a in r.documents && b in r.wordFreqs && a < b ensures WordSet(r, a) != WordSet(r, b) {
      assert b in r.documents && b !in dups;
      assert WordSet(r, a) == WordSet(s, a) && WordSet(r, b) == WordSet(s, b);
    }
  }
}
