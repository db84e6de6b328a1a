/** Reconstruction: turning each word and its majority label into text, with
    the "capitalize the next word" flag carried from word to word, and joining
    the pieces with single spaces. */
module Reconstruct {
  import opened Results
  import opened Text
  import opened Voting

  /** The punctuation a label appends: its first character, unless that is
      the no-punctuation code `O`. */
  function Punct(code: Label): (p: string)
  {
    if code[0] != 'O' then [code[0]] else []
  }

  /** The label asks for the word itself to be capitalized. */
  predicate Upcased(code: Label)
  {
    code[|code| - 1] == 'U'
  }

  /** The label's punctuation ends a sentence. */
  predicate EndsSentence(code: Label)
  {
    code[0] == '.' || code[0] == '!' || code[0] == '?'
  }

  /** One word's text and whether the next word must be capitalized. */
  datatype Piece = Piece(text: string, upperNext: bool)

  /** `_combine_label_and_word`: capitalize if the label says so, append the
      label's punctuation, capitalize again if the previous word ended a
      sentence, and report whether this word ends one. */
  function Combine(code: Label, word: string, autoUpper: bool): (r: Piece)
    ensures r.upperNext <==> EndsSentence(code)
    ensures SameUpToCase(r.text, word + Punct(code))
    ensures !Upcased(code) && !autoUpper ==> r.text == word + Punct(code)
    ensures autoUpper ==> TrueCased(r.text)
  {
    var cased := if code[|code| - 1] == 'U' then Capitalize(word) else word;
    var punctuated := if code[0] != 'O' then cased + [code[0]] else cased;
    assert punctuated == cased + Punct(code);
    assert SameUpToCase(punctuated, word + Punct(code));
    var text := if autoUpper then Capitalize(punctuated) else punctuated;
    Piece(text, code[0] != '0' && code[0] in ['.', '!', '?'])
  }

  /** Whatever the order of its two capitalizations, `Combine`'s text is the
      word with its punctuation, capitalized once when either the label or the
      carried flag asks for it (and the carried flag then covers the
      punctuation too). */
  lemma CombineText(code: Label, word: string, autoUpper: bool)
    ensures Combine(code, word, autoUpper).text ==
      if autoUpper then Capitalize(word + Punct(code))
      else if Upcased(code) then Capitalize(word) + Punct(code)
      else word + Punct(code)
  {
    if autoUpper && Upcased(code) {
      CapitalizeAfterAppend(word, Punct(code));
    }
  }

  /** The word part of `Combine`'s text is true-cased exactly when the label or
      the carried flag asks for it, and left as it was otherwise. */
  lemma CombineWordCasing(code: Label, word: string, autoUpper: bool)
    ensures |word| <= |Combine(code, word, autoUpper).text|
    ensures Combine(code, word, autoUpper).text[..|word|] ==
      if Upcased(code) || autoUpper then Capitalize(word) else word
  {
    CombineText(code, word, autoUpper);
    if autoUpper && |word| > 0 {
      CapitalizePrefix(word, Punct(code));
    }
  }

  /** A reconstructed token: the word up to case, followed by at most one
      punctuation character. */
  ghost predicate Token(t: string, w: string)
  {
    (|t| == |w| || |t| == |w| + 1) && SameUpToCase(t[..|w|], w)
  }

  /** The label each word is combined with: `word_pred.label` read in word
      order, so a word without votes fails the reconstruction at the first
      such word. */
  function Decide(preds: seq<WordPrediction>): (r: Result<seq<Label>>)
    ensures r.Ok? ==> |r.value| == |preds|
    ensures r.Ok? ==> forall k :: 0 <= k < |preds| ==> r.value[k] in preds[k].labels
    decreases |preds|
  {
    if |preds| == 0 then Ok([])
    else
      var init := preds[..|preds| - 1];
      var codes :- Decide(init);
      assert forall k :: 0 <= k < |init| ==> init[k] == preds[k];
      match Majority(preds[|preds| - 1].labels)
      case None => Err(NoVotes(|preds| - 1))
      case Some(code) => Ok(codes + [code])
  }

  /** `Decide` succeeds exactly when every word has a vote. */
  lemma {:induction false} DecideOk(preds: seq<WordPrediction>)
    ensures Decide(preds).Ok? <==> forall k :: 0 <= k < |preds| ==> |preds[k].labels| > 0
    decreases |preds|
  {
    if |preds| > 0 {
      var n := |preds| - 1;
      var init := preds[..n];
      DecideOk(init);
      assert forall k :: 0 <= k < n ==> init[k] == preds[k];
      if Decide(init).Err? {
        var k :| 0 <= k < n && |init[k].labels| == 0;
        assert |preds[k].labels| == 0;
      }
    }
  }

  /** A successful `Decide` extends the decision for all but the last word
      with the last word's majority label. */
  lemma DecideSnoc(preds: seq<WordPrediction>)
    requires |preds| > 0 && Decide(preds).Ok?
    ensures Decide(preds[..|preds| - 1]).Ok?
    ensures Decide(preds).value == Decide(preds[..|preds| - 1]).value + [Majority(preds[|preds| - 1].labels).value]
  {
  }

  /** A successful `Decide` gives word `k` its majority label. */
  lemma {:induction false} DecideAt(preds: seq<WordPrediction>, k: nat)
    requires Decide(preds).Ok? && k < |preds|
    ensures Decide(preds).value[k] == Majority(preds[k].labels).value
    decreases |preds|
  {
    var n := |preds| - 1;
    var init := preds[..n];
    DecideSnoc(preds);
    if k < n {
      DecideAt(init, k);
      assert init[k] == preds[k];
    }
  }

  /** A successful `Decide` gives each word its majority label. */
  lemma DecideValues(preds: seq<WordPrediction>)
    requires Decide(preds).Ok?
    ensures forall k :: 0 <= k < |preds| ==> Decide(preds).value[k] == Majority(preds[k].labels).value
  {
    forall k | 0 <= k < |preds|
      ensures Decide(preds).value[k] == Majority(preds[k].labels).value
    {
      DecideAt(preds, k);
    }
  }

  /** `Decide` succeeds exactly when every word has a vote, and then gives
      each word its majority label. */
  lemma DecideSpec(preds: seq<WordPrediction>)
    ensures Decide(preds).Ok? <==> forall k :: 0 <= k < |preds| ==> |preds[k].labels| > 0
    ensures Decide(preds).Ok? ==>
      forall k :: 0 <= k < |preds| ==> Decide(preds).value[k] == Majority(preds[k].labels).value
  {
    DecideOk(preds);
    if Decide(preds).Ok? {
      DecideValues(preds);
    }
  }

  /** Two word lists whose words all have votes, and whose majority labels
      agree word by word, decide the same labels, however their votes
      differ. */
  lemma DecideAgree(a: seq<WordPrediction>, b: seq<WordPrediction>)
    requires |a| == |b|
    requires forall k :: 0 <= k < |a| ==> |a[k].labels| > 0 && |b[k].labels| > 0
    requires forall k :: 0 <= k < |a| ==> Majority(a[k].labels) == Majority(b[k].labels)
    ensures Decide(a).Ok? && Decide(a) == Decide(b)
  {
    DecideSpec(a);
    DecideSpec(b);
  }

  /** When `Decide` fails it names the first word without a vote, as the
      Python loop raises at that word. */
  lemma {:induction false} DecideFault(preds: seq<WordPrediction>)
    ensures Decide(preds).Err? ==>
      && Decide(preds).fault.NoVotes?
      && Decide(preds).fault.index < |preds|
      && |preds[Decide(preds).fault.index].labels| == 0
      && forall k :: 0 <= k < Decide(preds).fault.index ==> |preds[k].labels| > 0
    decreases |preds|
  {
    if |preds| > 0 {
      var n := |preds| - 1;
      var init := preds[..n];
      DecideFault(init);
      DecideOk(init);
      assert forall k :: 0 <= k < n ==> init[k] == preds[k];
      var rest := Decide(init);
      if rest.Err? {
        assert Decide(preds) == Err(rest.fault);
      } else if |preds[n].labels| == 0 {
        assert Decide(preds) == Err(NoVotes(n));
      }
    }
  }

  /** One turn of the combination loop: the text of a word and the flag for
      the next word, from the word's label, the word and the incoming flag. */
  type Step = (Label, string, bool) -> Piece

  /** The combination loop of `punctuate` from word `i` on, with `carry` the
      flag left by word `i - 1`. */
  function Scan(step: Step, codes: seq<Label>, words: seq<string>, i: nat, carry: bool): (r: seq<string>)
    requires |codes| == |words| && i <= |words|
    ensures |r| == |words| - i
    decreases |words| - i
  {
    if i == |words| then []
    else
      var piece := step(codes[i], words[i], carry);
      [piece.text] + Scan(step, codes, words, i + 1, piece.upperNext)
  }

  /** The flag the loop holds on reaching word `i + k`. */
  function FlagAt(step: Step, codes: seq<Label>, words: seq<string>, i: nat, carry: bool, k: nat): (upper: bool)
    requires |codes| == |words| && i + k <= |words|
    decreases k
  {
    if k == 0 then carry
    else step(codes[i + k - 1], words[i + k - 1], FlagAt(step, codes, words, i, carry, k - 1)).upperNext
  }

  /** Starting one word later with the flag the first word leaves reaches the
      same flags. */
  lemma {:induction false} FlagAtShift(step: Step, codes: seq<Label>, words: seq<string>, i: nat, carry: bool, k: nat)
    requires |codes| == |words| && i + 1 + k <= |words|
    ensures FlagAt(step, codes, words, i + 1, step(codes[i], words[i], carry).upperNext, k)
      == FlagAt(step, codes, words, i, carry, k + 1)
    decreases k
  {
    if k > 0 {
      FlagAtShift(step, codes, words, i, carry, k - 1);
      assert i + 1 + k - 1 == i + (k + 1) - 1;
    }
  }

  /** Token `k` of the loop is word `i + k` turned into text with its own label
      and the flag the loop holds there. */
  lemma {:induction false} ScanAt(step: Step, codes: seq<Label>, words: seq<string>, i: nat, carry: bool, k: nat)
    requires |codes| == |words| && i + k < |words|
    ensures Scan(step, codes, words, i, carry)[k] ==
      step(codes[i + k], words[i + k], FlagAt(step, codes, words, i, carry, k)).text
    decreases k
  {
    var piece := step(codes[i], words[i], carry);
    var rest := Scan(step, codes, words, i + 1, piece.upperNext);
    assert Scan(step, codes, words, i, carry) == [piece.text] + rest;
    if k == 0 {
      assert FlagAt(step, codes, words, i, carry, 0) == carry;
    } else {
      assert ([piece.text] + rest)[k] == rest[k - 1];
      assert rest[k - 1] == step(codes[i + k], words[i + k], FlagAt(step, codes, words, i, carry, k)).text by {
        ScanAt(step, codes, words, i + 1, piece.upperNext, k - 1);
        FlagAtShift(step, codes, words, i, carry, k - 1);
        assert i + 1 + (k - 1) == i + k;
      }
    }
  }

  /** The loop reads left to right: running it on a prefix of the words gives a
      prefix of the tokens. */
  lemma {:induction false} ScanPrefix(step: Step, codes: seq<Label>, words: seq<string>, m: nat, i: nat, carry: bool)
    requires |codes| == |words| && i <= m <= |words|
    ensures Scan(step, codes[..m], words[..m], i, carry) == Scan(step, codes, words, i, carry)[..m - i]
    decreases |words| - i
  {
    if i < m {
      var piece := step(codes[i], words[i], carry);
      assert codes[..m][i] == codes[i] && words[..m][i] == words[i];
      ScanPrefix(step, codes, words, m, i + 1, piece.upperNext);
      var rest := Scan(step, codes, words, i + 1, piece.upperNext);
      assert Scan(step, codes, words, i, carry) == [piece.text] + rest;
      assert ([piece.text] + rest)[..m - i] == [piece.text] + rest[..m - i - 1];
    }
  }

  /** With `Combine` as the step, the flag on reaching a word after the first
      says whether the previous word's label ends a sentence. */
  lemma CombineFlag(codes: seq<Label>, words: seq<string>, i: nat, carry: bool, k: nat)
    requires |codes| == |words| && i + k <= |words|
    ensures FlagAt(Combine, codes, words, i, carry, k) == if k == 0 then carry else EndsSentence(codes[i + k - 1])
  {
  }

  /** Each reconstructed token is its word up to case, with at most one
      punctuation character after it. */
  lemma CombineTokens(codes: seq<Label>, words: seq<string>, i: nat, carry: bool, k: nat)
    requires |codes| == |words| && i + k < |words|
    ensures Token(Scan(Combine, codes, words, i, carry)[k], words[i + k])
  {
    var code := codes[i + k];
    var w := words[i + k];
    ScanAt(Combine, codes, words, i, carry, k);
    var t := Combine(code, w, FlagAt(Combine, codes, words, i, carry, k)).text;
    assert (w + Punct(code))[..|w|] == w;
    forall n | 0 <= n < |w|
      ensures Lower(t[..|w|][n]) == Lower(w[n])
    {
      assert (w + Punct(code))[n] == w[n];
    }
  }

  /** After a word whose label ends a sentence the next token is true-cased;
      after any other word, a token whose label does not ask for a capital is
      its word followed by its punctuation, unchanged. */
  lemma CombineCasing(codes: seq<Label>, words: seq<string>, i: nat, carry: bool, k: nat)
    requires |codes| == |words| && i + k < |words| && k > 0
    ensures EndsSentence(codes[i + k - 1]) ==> TrueCased(Scan(Combine, codes, words, i, carry)[k])
    ensures !EndsSentence(codes[i + k - 1]) && !Upcased(codes[i + k]) ==>
      Scan(Combine, codes, words, i, carry)[k] == words[i + k] + Punct(codes[i + k])
  {
    ScanAt(Combine, codes, words, i, carry, k);
    CombineFlag(codes, words, i, carry, k);
  }

  /** `combine_word_predictions_into_final_text`: the tokens joined by single
      spaces, starting with no pending capitalization. */
  function CombinePredictions(preds: seq<WordPrediction>): (r: Result<string>)
  {
    var codes :- Decide(preds);
    Ok(Join(Scan(Combine, codes, Words(preds), 0, false)))
  }

  /** Deciding the labels of a prefix of the predictions gives a prefix of the
      labels. */
  lemma {:induction false} DecidePrefix(preds: seq<WordPrediction>, m: nat)
    requires m <= |preds|
    requires Decide(preds).Ok?
    ensures Decide(preds[..m]).Ok? && Decide(preds[..m]).value == Decide(preds).value[..m]
    decreases |preds|
  {
    if m < |preds| {
      var init := preds[..|preds| - 1];
      var rest := Decide(init);
      assert rest.Ok?;
      assert init[..m] == preds[..m];
      DecidePrefix(init, m);
      var code := Majority(preds[|preds| - 1].labels).value;
      assert Decide(preds).value == rest.value + [code];
      assert (rest.value + [code])[..m] == rest.value[..m];
    } else {
      assert preds[..m] == preds;
    }
  }

  /** The join of a prefix of a token list is a prefix of the join. */
  lemma JoinOfPrefix(tokens: seq<string>, m: nat)
    requires m <= |tokens|
    ensures |Join(tokens[..m])| <= |Join(tokens)| && Join(tokens)[..|Join(tokens[..m])|] == Join(tokens[..m])
  {
    assert tokens == tokens[..m] + tokens[m..];
    JoinPrefix(tokens[..m], tokens[m..]);
  }

  /** Reconstructing a prefix of the predictions gives a prefix of the text. */
  lemma CombinePredictionsPrefix(preds: seq<WordPrediction>, m: nat)
    requires m <= |preds|
    requires CombinePredictions(preds).Ok?
    ensures CombinePredictions(preds[..m]).Ok?
    ensures var whole := CombinePredictions(preds).value;
      var part := CombinePredictions(preds[..m]).value;
      |part| <= |whole| && whole[..|part|] == part
  {
    var codes := Decide(preds).value;
    var words := Words(preds);
    var tokens := Scan(Combine, codes, words, 0, false);
    assert Decide(preds[..m]) == Ok(codes[..m]) by {
      DecidePrefix(preds, m);
    }
    assert Words(preds[..m]) == words[..m];
    assert Scan(Combine, codes[..m], words[..m], 0, false) == tokens[..m] by {
      ScanPrefix(Combine, codes, words, m, 0, false);
    }
    assert CombinePredictions(preds[..m]) == Ok(Join(tokens[..m]));
    JoinOfPrefix(tokens, m);
  }

  /** A token holds no space when neither its word nor its label's first
      character is one. */
  lemma CombineSpaceFree(codes: seq<Label>, words: seq<string>, i: nat, carry: bool, k: nat)
    requires |codes| == |words| && i + k < |words|
    requires ' ' !in words[i + k] && codes[i + k][0] != ' '
    ensures ' ' !in Scan(Combine, codes, words, i, carry)[k]
  {
    var code := codes[i + k];
    var w := words[i + k];
    ScanAt(Combine, codes, words, i, carry, k);
    assert ' ' !in w + Punct(code);
    SpaceFreeUpToCase(Scan(Combine, codes, words, i, carry)[k], w + Punct(code));
  }

  /** With no spaces in the words or in the labels' first characters, the
      text splits back into one token per word, each the word up to case with
      at most one punctuation character after it. */
  lemma CombinePredictionsWords(preds: seq<WordPrediction>)
    requires |preds| > 0
    requires CombinePredictions(preds).Ok?
    requires forall k :: 0 <= k < |preds| ==> ' ' !in preds[k].word
    requires forall k, j :: 0 <= k < |preds| && 0 <= j < |preds[k].labels| ==> preds[k].labels[j][0] != ' '
    ensures var tokens := Split(CombinePredictions(preds).value);
      |tokens| == |preds| && forall k :: 0 <= k < |preds| ==> Token(tokens[k], preds[k].word)
  {
    var codes := Decide(preds).value;
    var words := Words(preds);
    var tokens := Scan(Combine, codes, words, 0, false);
    assert CombinePredictions(preds) == Ok(Join(tokens));
    assert Split(Join(tokens)) == tokens by {
      forall k | 0 <= k < |tokens|
        ensures ' ' !in tokens[k]
      {
        assert codes[k][0] != ' ' by {
          var j :| 0 <= j < |preds[k].labels| && preds[k].labels[j] == codes[k];
        }
        assert words[k] == preds[k].word;
        CombineSpaceFree(codes, words, 0, false, k);
      }
      SplitJoin(tokens);
    }
    forall k | 0 <= k < |preds|
      ensures Token(tokens[k], preds[k].word)
    {
      assert words[k] == preds[k].word;
      CombineTokens(codes, words, 0, false, k);
    }
  }
}
