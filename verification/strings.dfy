/** Text helpers: the character validity test, the space tokenizer and the
    stop-word de-duplication. A `char` stands for one byte of the source's
    `std::string`. */
module Strings {

  /** No character of `w` is a control character (code below `' '`). */
  predicate IsValidWord(w: string) {
    forall i :: 0 <= i < |w| ==> w[i] >= ' '
  }

  /** A token produced by the tokenizer: non-empty and free of spaces. */
  predicate IsToken(w: string) {
    |w| > 0 && ' ' !in w
  }

  /** All tokens glued together without separators. */
  function Concat(ws: seq<string>): string {
    if |ws| == 0 then "" else ws[0] + Concat(ws[1..])
  }

  /** The text with every `' '` deleted. */
  function RemoveSpaces(text: string): string {
    if |text| == 0 then ""
    else if text[0] == ' ' then RemoveSpaces(text[1..])
    else [text[0]] + RemoveSpaces(text[1..])
  }

  /** The tokens separated by single spaces. */
  function Join(ws: seq<string>): string {
    if |ws| == 0 then ""
    else if |ws| == 1 then ws[0]
    else ws[0] + " " + Join(ws[1..])
  }

  lemma ConcatAppend(a: seq<string>, b: seq<string>)
    ensures Concat(a + b) == Concat(a) + Concat(b)
  {
    if |a| == 0 {
      assert a + b == b;
    } else {
      assert (a + b)[0] == a[0];
      assert (a + b)[1..] == a[1..] + b;
      ConcatAppend(a[1..], b);
    }
  }

  /** The tokenizer loop: `word` is the token being accumulated, `text` the
      part of the input not read yet. A space closes a non-empty token;
      any other character extends it; the end of input closes the last one. */
  function Split(text: string, word: string): seq<string>
    requires ' ' !in word
    decreases |text|
  {
    if |text| == 0 then
      if |word| > 0 then [word] else []
    else if text[0] == ' ' then
      (if |word| > 0 then [word] else []) + Split(text[1..], "")
    else
      Split(text[1..], word + [text[0]])
  }

  /** Every token of the loop is non-empty and space-free, and the tokens
      laid end to end are the pending word followed by the unread text with
      its spaces deleted. */
  lemma {:induction false} SplitTokens(text: string, word: string)
    requires ' ' !in word
    ensures forall i :: 0 <= i < |Split(text, word)| ==> IsToken(Split(text, word)[i])
    ensures Concat(Split(text, word)) == word + RemoveSpaces(text)
    decreases |text|
  {
    if |text| == 0 {
      assert Concat([word]) == word + Concat([]);
    } else if text[0] == ' ' {
      var head := if |word| > 0 then [word] else [];
      var tail := Split(text[1..], "");
      SplitTokens(text[1..], "");
      assert Concat([word]) == word + Concat([]);
      assert Concat(head) == word;
      assert RemoveSpaces(text) == RemoveSpaces(text[1..]);
      ConcatAppend(head, tail);
      assert Split(text, word) == head + tail;
      forall i | 0 <= i < |head + tail| ensures IsToken((head + tail)[i]) {
        if i >= |head| { assert (head + tail)[i] == tail[i - |head|]; }
      }
    } else {
      SplitTokens(text[1..], word + [text[0]]);
      assert RemoveSpaces(text) == [text[0]] + RemoveSpaces(text[1..]);
      assert word + [text[0]] + RemoveSpaces(text[1..]) == word + RemoveSpaces(text);
    }
  }

  /** `SplitIntoWords`: the non-empty maximal runs of non-space characters. */
  function SplitIntoWords(text: string): (words: seq<string>)
    ensures forall i :: 0 <= i < |words| ==> IsToken(words[i])
    ensures Concat(words) == RemoveSpaces(text)
  {
    SplitTokens(text, "");
    Split(text, "")
  }

  lemma {:induction false} SplitPrefix(w: string, rest: string, word: string)
    requires ' ' !in w && ' ' !in word
    ensures Split(w + rest, word) == Split(rest, word + w)
    decreases |w|
  {
    if |w| > 0 {
      assert (w + rest)[0] == w[0];
      assert (w + rest)[1..] == w[1..] + rest;
      assert word + [w[0]] + w[1..] == word + w;
      SplitPrefix(w[1..], rest, word + [w[0]]);
    } else {
      assert w + rest == rest;
      assert word + w == word;
    }
  }

  /** Tokens joined by single spaces split back into the same tokens: only
      `' '` separates tokens and no token is lost or merged. */
  lemma {:induction false} SplitJoin(ws: seq<string>)
    requires forall i :: 0 <= i < |ws| ==> IsToken(ws[i])
    ensures SplitIntoWords(Join(ws)) == ws
  {
    if |ws| == 1 {
      SplitPrefix(ws[0], "", "");
      assert ws[0] + "" == ws[0];
      assert "" + ws[0] == ws[0];
    } else if |ws| > 1 {
      var rest := " " + Join(ws[1..]);
      assert Join(ws) == ws[0] + rest;
      SplitPrefix(ws[0], rest, "");
      assert "" + ws[0] == ws[0];
      assert rest[0] == ' ' && rest[1..] == Join(ws[1..]);
      SplitJoin(ws[1..]);
      assert ws == [ws[0]] + ws[1..];
    }
  }

  /** A text without spaces is one token, or none when it is empty. */
  lemma SplitNoSpace(w: string)
    requires ' ' !in w
    ensures SplitIntoWords(w) == if |w| > 0 then [w] else []
  {
    SplitPrefix(w, "", "");
    assert w + "" == w;
    assert "" + w == w;
  }

  lemma SplitSpaceEmpty(b: string, word: string)
    requires ' ' !in word
    ensures Split("" + " " + b, word) == Split("", word) + Split(b, "")
  {
    var t := "" + " " + b;
    assert |t| > 0 && t[0] == ' ' && t[1..] == b;
  }

  /** The token, if any, that a space closes. */
  function Pending(word: string): seq<string>
  {
    if |word| > 0 then [word] else []
  }

  /** One step of the tokenizer loop on a space. */
  lemma SplitStepSpace(t: string, word: string)
    requires ' ' !in word && |t| > 0 && t[0] == ' '
    ensures Split(t, word) == Pending(word) + Split(t[1..], "")
  {
    assert t == [t[0]] + t[1..];
  }

  /** One step of the tokenizer loop on any other character. */
  lemma SplitStepChar(t: string, word: string)
    requires ' ' !in word && |t| > 0 && t[0] != ' '
    ensures Split(t, word) == Split(t[1..], word + [t[0]])
  {
    assert t == [t[0]] + t[1..];
  }

  lemma TailSpace(a: string, b: string)
    requires |a| > 0
    ensures |a + " " + b| > 0 && (a + " " + b)[0] == a[0]
    ensures (a + " " + b)[1..] == a[1..] + " " + b
  {
  }

  lemma AppendAssoc(p: seq<string>, y: seq<string>, z: seq<string>)
    ensures p + (y + z) == (p + y) + z
  {
  }

  lemma SplitSpaceAtSpace(a: string, b: string, word: string)
    requires ' ' !in word && |a| > 0 && a[0] == ' '
    requires Split(a[1..] + " " + b, "") == Split(a[1..], "") + Split(b, "")
    ensures Split(a + " " + b, word) == Split(a, word) + Split(b, "")
  {
    TailSpace(a, b);
    SplitStepSpace(a + " " + b, word);
    SplitStepSpace(a, word);
    AppendAssoc(Pending(word), Split(a[1..], ""), Split(b, ""));
  }

  lemma SplitSpaceAtChar(a: string, b: string, word: string)
    requires ' ' !in word && |a| > 0 && a[0] != ' '
    requires Split(a[1..] + " " + b, word + [a[0]]) == Split(a[1..], word + [a[0]]) + Split(b, "")
    ensures Split(a + " " + b, word) == Split(a, word) + Split(b, "")
  {
    TailSpace(a, b);
    SplitStepChar(a + " " + b, word);
    SplitStepChar(a, word);
  }

  /** A space always ends the pending token: what precedes it and what
      follows it are split independently. */
  lemma {:induction false} SplitSpace(a: string, b: string, word: string)
    requires ' ' !in word
    ensures Split(a + " " + b, word) == Split(a, word) + Split(b, "")
    decreases |a|
  {
    if |a| == 0 {
      assert a == "";
      SplitSpaceEmpty(b, word);
    } else if a[0] == ' ' {
      SplitSpace(a[1..], b, "");
      SplitSpaceAtSpace(a, b, word);
    } else {
      SplitSpace(a[1..], b, word + [a[0]]);
      SplitSpaceAtChar(a, b, word);
    }
  }

  /** The tokens of a text are those before its first (or any) space
      followed by those after it. */
  lemma SplitIntoWordsSpace(a: string, b: string)
    ensures SplitIntoWords(a + " " + b) == SplitIntoWords(a) + SplitIntoWords(b)
  {
    SplitSpace(a, b, "");
  }

  /** A text with a trailing space and an inner one: exactly its two
      maximal runs. */
  lemma SplitIntoWordsExample()
    ensures SplitIntoWords("ewaeae awea ") == ["ewaeae", "awea"]
  {
    assert "ewaeae awea " == "ewaeae" + " " + "awea ";
    assert "awea " == "awea" + " " + "";
    SplitIntoWordsSpace("ewaeae", "awea ");
    SplitIntoWordsSpace("awea", "");
    SplitNoSpace("ewaeae");
    SplitNoSpace("awea");
    SplitNoSpace("");
  }

  lemma ValidAppend(a: string, b: string)
    ensures IsValidWord(a + b) <==> IsValidWord(a) && IsValidWord(b)
  {
    if IsValidWord(a) && IsValidWord(b) {
      forall i | 0 <= i < |a + b| ensures (a + b)[i] >= ' ' {
        if i >= |a| { assert (a + b)[i] == b[i - |a|]; }
      }
    }
    if IsValidWord(a + b) {
      forall i | 0 <= i < |b| ensures b[i] >= ' ' { assert (a + b)[i + |a|] == b[i]; }
      forall i | 0 <= i < |a| ensures a[i] >= ' ' { assert (a + b)[i] == a[i]; }
    }
  }

  lemma {:induction false} ValidConcat(ws: seq<string>)
    ensures IsValidWord(Concat(ws)) <==> forall i :: 0 <= i < |ws| ==> IsValidWord(ws[i])
  {
    if |ws| > 0 {
      ValidConcat(ws[1..]);
      ValidAppend(ws[0], Concat(ws[1..]));
      forall i | 0 < i < |ws| ensures ws[i] == ws[1..][i - 1] { }
    }
  }

  lemma {:induction false} ValidRemoveSpaces(text: string)
    ensures IsValidWord(RemoveSpaces(text)) <==> IsValidWord(text)
    decreases |text|
  {
    if |text| > 0 {
      ValidRemoveSpaces(text[1..]);
      assert text == [text[0]] + text[1..];
      ValidAppend([text[0]], text[1..]);
      if text[0] != ' ' {
        ValidAppend([text[0]], RemoveSpaces(text[1..]));
      }
    }
  }

  /** Every token of `text` is valid exactly when `text` itself has no control
      character: the tokenizer only drops spaces, which are valid. */
  lemma TokensValid(text: string)
    ensures (forall i :: 0 <= i < |SplitIntoWords(text)| ==> IsValidWord(SplitIntoWords(text)[i]))
            <==> IsValidWord(text)
  {
    ValidConcat(SplitIntoWords(text));
    ValidRemoveSpaces(text);
  }

  /** `MakeUniqueNonEmptyStrings`: the set of non-empty elements. */
  function MakeUniqueNonEmptyStrings(strings: seq<string>): (r: set<string>)
    ensures "" !in r
    ensures forall i :: 0 <= i < |strings| && strings[i] != "" ==> strings[i] in r
    ensures forall w :: w in r ==> w in strings
    ensures |r| <= |strings|
  {
    if |strings| == 0 then {}
    else
      var rest := MakeUniqueNonEmptyStrings(strings[1..]);
      if strings[0] == "" then rest
      else
        assert |rest + {strings[0]}| <= |rest| + 1;
        rest + {strings[0]}
  }
}
