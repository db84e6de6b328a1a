/** The one-shot pipeline of `PunctFixer.punctuate`: split the text into
    words, cut the words into windows, let the model vote on every window,
    and rebuild the text from each word's majority label. */
module Inference {
  import opened Results
  import opened Text
  import opened Chunking
  import opened Voting
  import opened Alignment
  import opened Reconstruct

  /** `init_word_prediction_list`: every word with no votes yet. */
  function InitPredictions(words: seq<string>): (preds: seq<WordPrediction>)
    ensures |preds| == |words| && Words(preds) == words
    ensures forall p :: 0 <= p < |preds| ==> preds[p].labels == []
  {
    seq(|words|, p requires 0 <= p < |words| => WordPrediction(words[p], []))
  }

  /** The word list once every window in `chunks`, laid `stride` apart, has
      voted: word `p` holds the votes of the windows covering it, in window
      order. */
  function VotedLedger(words: seq<string>, chunks: seq<seq<string>>, oracle: Oracle, stride: nat)
    : (preds: seq<WordPrediction>)
    ensures |preds| == |words| && Words(preds) == words
  {
    seq(|words|, p requires 0 <= p < |words| => WordPrediction(words[p], CoveringVotes(chunks, oracle, stride, p)))
  }

  /** `punctuate` after the split: windows, votes, reconstruction. */
  function PunctuateWords(words: seq<string>, cfg: Config, oracle: Oracle): (r: Result<string>)
    requires cfg.Valid()
  {
    var preds :- Populate(InitPredictions(words), Chunks(words, cfg), cfg, oracle);
    CombinePredictions(preds)
  }

  /** `punctuate`: the text split on single spaces, then punctuated. */
  function Punctuate(text: string, cfg: Config, oracle: Oracle): (r: Result<string>)
    requires cfg.Valid()
  {
    PunctuateWords(Split(text), cfg, oracle)
  }

  /** The one-shot windows were cut from the words themselves. */
  lemma ChunksPlaced(words: seq<string>, cfg: Config)
    requires cfg.Valid()
    ensures Placed(InitPredictions(words), Chunks(words, cfg), cfg.Stride())
  {
    var preds := InitPredictions(words);
    var cs := Chunks(words, cfg);
    var s := cfg.Stride();
    forall j | 0 <= j < |cs|
      ensures j * s + |cs[j]| <= |preds| && cs[j] == Words(preds)[j * s..j * s + |cs[j]|]
    {
      ChunksShape(words, cfg, j);
      if |words| < cfg.chunkSize {
        assert j == 0;
      }
    }
  }

  /** With a faithful model the vote loop of `punctuate` never faults, and it
      leaves each word with exactly the votes of the windows covering it, in
      window order: as many as windows cover it, and at least one. */
  lemma PunctuateVotes(words: seq<string>, cfg: Config, oracle: Oracle)
    requires cfg.Valid() && Faithful(oracle)
    ensures Populate(InitPredictions(words), Chunks(words, cfg), cfg, oracle)
      == Ok(VotedLedger(words, Chunks(words, cfg), oracle, cfg.Stride()))
    ensures forall p :: 0 <= p < |words| ==>
      |VotedLedger(words, Chunks(words, cfg), oracle, cfg.Stride())[p].labels|
        == (if |words| >= cfg.chunkSize then CoverFrom(p, 0, cfg.chunkSize, cfg.Stride()) else 1)
    ensures forall p :: 0 <= p < |words| ==>
      |VotedLedger(words, Chunks(words, cfg), oracle, cfg.Stride())[p].labels| >= 1
  {
    var cs := Chunks(words, cfg);
    var s := cfg.Stride();
    var ledger := VotedLedger(words, cs, oracle, s);
    ChunksPlaced(words, cfg);
    PopulateVotes(InitPredictions(words), cs, cfg, oracle);
    var init := InitPredictions(words);
    var r := Populate(init, cs, cfg, oracle).value;
    forall p | 0 <= p < |r|
      ensures r[p] == ledger[p]
    {
      assert init[p].word == Words(init)[p] == words[p];
      assert r[p].labels == [] + CoveringVotes(cs, oracle, s, p);
    }
    assert r == ledger;
    forall p | 0 <= p < |words|
      ensures |ledger[p].labels| == (if |words| >= cfg.chunkSize then CoverFrom(p, 0, cfg.chunkSize, s) else 1)
      ensures |ledger[p].labels| >= 1
    {
      CoveringVotesCount(cs, oracle, s, p);
      ChunksCoverage(words, cfg, p);
    }
  }

  /** With a faithful model `punctuate` succeeds, and its text is the
      reconstruction of the voted word list. */
  lemma PunctuateWordsOk(words: seq<string>, cfg: Config, oracle: Oracle)
    requires cfg.Valid() && Faithful(oracle)
    ensures PunctuateWords(words, cfg, oracle).Ok?
    ensures PunctuateWords(words, cfg, oracle) == CombinePredictions(VotedLedger(words, Chunks(words, cfg), oracle, cfg.Stride()))
  {
    PunctuateVotes(words, cfg, oracle);
    var ledger := VotedLedger(words, Chunks(words, cfg), oracle, cfg.Stride());
    DecideSpec(ledger);
  }

  /** The labels a model may produce never start with a space. */
  ghost predicate SpaceFreeCodes(oracle: Oracle)
  {
    forall w, j :: 0 <= j < |oracle(w)| ==> oracle(w)[j].code[0] != ' '
  }

  /** Every vote a window casts is a label the model produced. */
  lemma {:induction false} CoveringVotesCodes(chunks: seq<seq<string>>, oracle: Oracle, stride: nat, p: int, x: Label)
    requires x in CoveringVotes(chunks, oracle, stride, p)
    ensures exists w, j :: 0 <= j < |oracle(w)| && oracle(w)[j].code == x
    decreases |chunks|
  {
    assert CoveringVotes(chunks, oracle, stride, p) == Hit(chunks[0], oracle, p) + CoveringVotes(chunks[1..], oracle, stride, p - stride);
    if x in Hit(chunks[0], oracle, p) {
      var w := chunks[0];
      assert 0 <= p < |Expand(oracle(w))| && Expand(oracle(w))[p].code == x;
      ExpandCodes(oracle(w), p);
      var j :| 0 <= j < |oracle(w)| && oracle(w)[j].code == Expand(oracle(w))[p].code;
      assert oracle(w)[j].code == x;
    } else {
      CoveringVotesCodes(chunks[1..], oracle, stride, p - stride, x);
    }
  }

  /** An expanded word carries the label of one of the spans. */
  lemma {:induction false} ExpandCodes(spans: seq<Span>, q: int)
    requires 0 <= q < |Expand(spans)|
    ensures exists j :: 0 <= j < |spans| && spans[j].code == Expand(spans)[q].code
    decreases |spans|
  {
    var head := seq(|spans[0].words|, k requires 0 <= k < |spans[0].words| => Tagged(spans[0].code, spans[0].words[k]));
    assert Expand(spans) == head + Expand(spans[1..]);
    if q >= |head| {
      ExpandCodes(spans[1..], q - |head|);
      var j :| 0 <= j < |spans[1..]| && spans[1..][j].code == Expand(spans[1..])[q - |head|].code;
      assert spans[j + 1].code == Expand(spans)[q].code;
    }
  }

  /** Word preservation: for a faithful model whose labels never start with a
      space, the punctuated text splits into exactly as many tokens as the
      input split into words, and token `k` is word `k` up to case with at
      most one punctuation character after it. */
  lemma PunctuatePreservesWords(text: string, cfg: Config, oracle: Oracle)
    requires cfg.Valid() && Faithful(oracle) && SpaceFreeCodes(oracle)
    ensures Punctuate(text, cfg, oracle).Ok?
    ensures var words := Split(text);
      var tokens := Split(Punctuate(text, cfg, oracle).value);
      |tokens| == |words| && forall k :: 0 <= k < |words| ==> Token(tokens[k], words[k])
  {
    var words := Split(text);
    var chunks := Chunks(words, cfg);
    var ledger := VotedLedger(words, chunks, oracle, cfg.Stride());
    assert CombinePredictions(ledger).Ok? && Punctuate(text, cfg, oracle) == CombinePredictions(ledger) by {
      PunctuateWordsOk(words, cfg, oracle);
    }
    LedgerCodesSpaceFree(words, chunks, oracle, cfg.Stride());
    CombinePredictionsWords(ledger);
    var tokens := Split(CombinePredictions(ledger).value);
    forall k | 0 <= k < |words|
      ensures Token(tokens[k], words[k])
    {
      assert Words(ledger)[k] == ledger[k].word;
    }
  }

  /** Every vote in the voted word list is a label the model produced, so
      none starts with a space when no label does. */
  lemma LedgerCodesSpaceFree(words: seq<string>, chunks: seq<seq<string>>, oracle: Oracle, stride: nat)
    requires SpaceFreeCodes(oracle)
    ensures var ledger := VotedLedger(words, chunks, oracle, stride);
      forall k, j :: 0 <= k < |ledger| && 0 <= j < |ledger[k].labels| ==> ledger[k].labels[j][0] != ' '
  {
    var ledger := VotedLedger(words, chunks, oracle, stride);
    forall k, j | 0 <= k < |ledger| && 0 <= j < |ledger[k].labels|
      ensures ledger[k].labels[j][0] != ' '
    {
      assert ledger[k].labels[j] in ledger[k].labels;
      CoveringVotesCodes(chunks, oracle, stride, k, ledger[k].labels[j]);
    }
  }

  /** A text of 150 words with the default configuration is cut into five
      windows, starting at words 0, 30, 60, 90 and 120: `range` keeps
      starting windows while the start lies inside the text. */
  lemma DefaultWindowsOf150Words(words: seq<string>)
    requires |words| == 150
    ensures |Chunks(words, Default)| == 5
    ensures Chunks(words, Default)[4] == words[120..150]
  {
    ChunksFromCount(words, 0, 100, 30);
    ChunksShape(words, Default, 4);
  }
}
