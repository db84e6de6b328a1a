/** Alignment and voting: the labelled spans the model returns for a window are
    expanded word by word, mapped back to global word positions, checked
    against the stored words, and appended as votes. */
module Alignment {
  import opened Results
  import opened Chunking
  import opened Voting

  /** One group the model returns: contiguous words sharing one label. */
  datatype Span = Span(code: Label, words: seq<string>)

  /** The external model: from the words of a window to its labelled spans. */
  type Oracle = seq<string> -> seq<Span>

  /** One expanded word of the model output with its span's label. */
  datatype Tagged = Tagged(code: Label, word: string)

  /** The spans' words in order, each with the label of its span. */
  function Expand(spans: seq<Span>): (items: seq<Tagged>)
    decreases |spans|
  {
    if |spans| == 0 then []
    else
      seq(|spans[0].words|, k requires 0 <= k < |spans[0].words| => Tagged(spans[0].code, spans[0].words[k]))
      + Expand(spans[1..])
  }

  function WordsOf(items: seq<Tagged>): (ws: seq<string>)
  {
    seq(|items|, k requires 0 <= k < |items| => items[k].word)
  }

  /** The model's contract: its spans, expanded, give back the window's words. */
  ghost predicate Faithful(oracle: Oracle)
  {
    forall w :: WordsOf(Expand(oracle(w))) == w
  }

  /** The position of word `counter` of window `i` is `i * stride + counter`. */
  lemma WindowOffset(cfg: Config, i: nat, counter: nat)
    requires cfg.Valid()
    ensures i * cfg.chunkSize + counter - i * cfg.overlap == i * cfg.Stride() + counter
  {
    assert i * cfg.chunkSize - i * cfg.overlap == i * (cfg.chunkSize - cfg.overlap);
  }

  /** The expanded model output for window `i`, from word `counter` on, placed
      at `i * chunkSize + counter - i * overlap`: each word must equal the
      stored word there, which then gets the word's label as a new vote. */
  function ApplyWindow(preds: seq<WordPrediction>, cfg: Config, i: nat, items: seq<Tagged>, counter: nat)
    : (r: Result<seq<WordPrediction>>)
    requires cfg.Valid()
    ensures r.Ok? ==> Words(r.value) == Words(preds)
    decreases |items| - counter
  {
    if counter >= |items| then Ok(preds)
    else
      WindowOffset(cfg, i, counter);
      var index: nat := i * cfg.chunkSize + counter - i * cfg.overlap;
      if index >= |preds| then Err(OutOfRange(index))
      else if preds[index].word != items[counter].word then
        Err(Misaligned(index, preds[index].word, items[counter].word))
      else
        var voted := preds[index := preds[index].(labels := preds[index].labels + [items[counter].code])];
        ApplyWindow(voted, cfg, i, items, counter + 1)
  }

  /** The expanded words `items`, placed from position `base`, lie inside the
      word list and equal the words stored there. */
  ghost predicate Aligned(words: seq<string>, base: nat, items: seq<Tagged>)
  {
    |items| == 0 || (base + |items| <= |words| && WordsOf(items) == words[base..base + |items|])
  }

  /** Same as `Aligned`, for the expanded words from `counter` on. */
  ghost predicate AlignedFrom(words: seq<string>, base: nat, items: seq<Tagged>, counter: nat)
  {
    counter >= |items|
    || (base + |items| <= |words| && forall j :: counter <= j < |items| ==> items[j].word == words[base + j])
  }

  /** The vote window `i` adds to position `p`, as a list of zero or one label. */
  function VoteAt(items: seq<Tagged>, base: int, counter: nat, p: int): (votes: seq<Label>)
  {
    if base + counter <= p < base + |items| then [items[p - base].code] else []
  }

  /** Applying a window succeeds exactly when its words are aligned with the
      stored words, and then it appends one vote to each position it covers and
      changes nothing else. */
  lemma {:induction false} ApplyWindowSpec(preds: seq<WordPrediction>, cfg: Config, i: nat, items: seq<Tagged>, counter: nat)
    requires cfg.Valid() && counter <= |items|
    ensures ApplyWindow(preds, cfg, i, items, counter).Ok? <==> AlignedFrom(Words(preds), i * cfg.Stride(), items, counter)
    ensures ApplyWindow(preds, cfg, i, items, counter).Ok? ==>
      var r := ApplyWindow(preds, cfg, i, items, counter).value;
      |r| == |preds| &&
      forall p :: 0 <= p < |r| ==>
        r[p].word == preds[p].word &&
        r[p].labels == preds[p].labels + VoteAt(items, i * cfg.Stride(), counter, p)
    decreases |items| - counter
  {
    if counter < |items| {
      WindowOffset(cfg, i, counter);
      var base := i * cfg.Stride();
      var index := base + counter;
      if index < |preds| && preds[index].word == items[counter].word {
        var voted := preds[index := preds[index].(labels := preds[index].labels + [items[counter].code])];
        assert Words(voted) == Words(preds);
        ApplyWindowSpec(voted, cfg, i, items, counter + 1);
      }
    }
  }

  lemma AlignedFromStart(words: seq<string>, base: nat, items: seq<Tagged>)
    ensures AlignedFrom(words, base, items, 0) <==> Aligned(words, base, items)
  {
    if |items| > 0 && base + |items| <= |words| {
      if AlignedFrom(words, base, items, 0) {
        assert WordsOf(items) == words[base..base + |items|];
      } else {
        var j :| 0 <= j < |items| && items[j].word != words[base + j];
        assert WordsOf(items)[j] != words[base..base + |items|][j];
      }
    }
  }

  /** Runs the model on every window in order and applies its votes: the vote
      loop of `punctuate` over a list of windows. */
  function PopulateFrom(preds: seq<WordPrediction>, chunks: seq<seq<string>>, cfg: Config, oracle: Oracle, i: nat)
    : (r: Result<seq<WordPrediction>>)
    requires cfg.Valid()
    ensures r.Ok? ==> Words(r.value) == Words(preds)
    decreases |chunks| - i
  {
    if i >= |chunks| then Ok(preds)
    else
      var voted :- ApplyWindow(preds, cfg, i, Expand(oracle(chunks[i])), 0);
      PopulateFrom(voted, chunks, cfg, oracle, i + 1)
  }

  function Populate(preds: seq<WordPrediction>, chunks: seq<seq<string>>, cfg: Config, oracle: Oracle)
    : (r: Result<seq<WordPrediction>>)
    requires cfg.Valid()
  {
    PopulateFrom(preds, chunks, cfg, oracle, 0)
  }

  /** The vote a window's model output gives to window-relative position `q`. */
  function Hit(chunk: seq<string>, oracle: Oracle, q: int): (votes: seq<Label>)
  {
    var items := Expand(oracle(chunk));
    if 0 <= q < |items| then [items[q].code] else []
  }

  /** The votes position `p` gets from `chunks` laid `stride` apart from
      position 0, in window order. */
  function CoveringVotes(chunks: seq<seq<string>>, oracle: Oracle, stride: nat, p: int): (votes: seq<Label>)
    decreases |chunks|
  {
    if |chunks| == 0 then []
    else Hit(chunks[0], oracle, p) + CoveringVotes(chunks[1..], oracle, stride, p - stride)
  }

  /** Populating succeeds exactly when every window's model output is aligned
      with the stored words at the window's start: no vote is ever placed on a
      word the model did not return for that position. */
  lemma {:induction false} PopulateFromOk(preds: seq<WordPrediction>, chunks: seq<seq<string>>, cfg: Config, oracle: Oracle, i: nat)
    requires cfg.Valid() && i <= |chunks|
    ensures PopulateFrom(preds, chunks, cfg, oracle, i).Ok? <==>
      forall j :: i <= j < |chunks| ==> Aligned(Words(preds), j * cfg.Stride(), Expand(oracle(chunks[j])))
    decreases |chunks| - i
  {
    if i < |chunks| {
      var items := Expand(oracle(chunks[i]));
      ApplyWindowSpec(preds, cfg, i, items, 0);
      AlignedFromStart(Words(preds), i * cfg.Stride(), items);
      var first := ApplyWindow(preds, cfg, i, items, 0);
      if first.Ok? {
        PopulateFromOk(first.value, chunks, cfg, oracle, i + 1);
      }
    }
  }

  /** After a successful population each word's votes are its earlier votes
      followed by one vote per covering window, in window order. */
  lemma {:induction false} PopulateFromLabels(preds: seq<WordPrediction>, chunks: seq<seq<string>>, cfg: Config, oracle: Oracle, i: nat)
    requires cfg.Valid() && i <= |chunks|
    requires PopulateFrom(preds, chunks, cfg, oracle, i).Ok?
    ensures var r := PopulateFrom(preds, chunks, cfg, oracle, i).value;
      |r| == |preds| &&
      forall p :: 0 <= p < |r| ==>
        r[p].word == preds[p].word &&
        r[p].labels == preds[p].labels + CoveringVotes(chunks[i..], oracle, cfg.Stride(), p - i * cfg.Stride())
    decreases |chunks| - i
  {
    var s := cfg.Stride();
    if i == |chunks| {
      assert chunks[i..] == [];
    } else {
      var items := Expand(oracle(chunks[i]));
      ApplyWindowSpec(preds, cfg, i, items, 0);
      var voted := ApplyWindow(preds, cfg, i, items, 0).value;
      var r := PopulateFrom(preds, chunks, cfg, oracle, i).value;
      assert r == PopulateFrom(voted, chunks, cfg, oracle, i + 1).value;
      PopulateFromLabels(voted, chunks, cfg, oracle, i + 1);
      forall p | 0 <= p < |r|
        ensures r[p].labels == preds[p].labels + CoveringVotes(chunks[i..], oracle, s, p - i * s)
      {
        var v := VoteAt(items, i * s, 0, p);
        var rest := CoveringVotes(chunks[i + 1..], oracle, s, p - (i + 1) * s);
        assert r[p].labels == voted[p].labels + rest;
        assert voted[p].labels == preds[p].labels + v;
        CoveringVotesUnfold(chunks, oracle, s, i, p);
        ConcatAssoc(preds[p].labels, v, rest);
      }
    }
  }

  /** The votes from the windows from `i` on are window `i`'s vote followed by
      those from the windows after it. */
  lemma CoveringVotesUnfold(chunks: seq<seq<string>>, oracle: Oracle, s: nat, i: nat, p: int)
    requires i < |chunks|
    ensures CoveringVotes(chunks[i..], oracle, s, p - i * s)
      == VoteAt(Expand(oracle(chunks[i])), i * s, 0, p) + CoveringVotes(chunks[i + 1..], oracle, s, p - (i + 1) * s)
  {
    MulSucc(i, s);
    assert chunks[i..][0] == chunks[i];
    assert chunks[i..][1..] == chunks[i + 1..];
  }

  /** The windows were cut from the stored words: window `j` is the slice of
      the stored words starting at `j * stride`. */
  ghost predicate Placed(preds: seq<WordPrediction>, chunks: seq<seq<string>>, stride: nat)
  {
    forall j :: 0 <= j < |chunks| ==>
      j * stride + |chunks[j]| <= |preds| && chunks[j] == Words(preds)[j * stride..j * stride + |chunks[j]|]
  }

  /** With a faithful model and windows cut from the words themselves, voting
      never faults, and every word gets one vote from each window covering it. */
  lemma PopulateVotes(preds: seq<WordPrediction>, chunks: seq<seq<string>>, cfg: Config, oracle: Oracle)
    requires cfg.Valid() && Faithful(oracle)
    requires Placed(preds, chunks, cfg.Stride())
    ensures Populate(preds, chunks, cfg, oracle).Ok?
    ensures var r := Populate(preds, chunks, cfg, oracle).value;
      |r| == |preds| &&
      forall p :: 0 <= p < |r| ==>
        r[p].word == preds[p].word &&
        r[p].labels == preds[p].labels + CoveringVotes(chunks, oracle, cfg.Stride(), p)
  {
    var s := cfg.Stride();
    assert PopulateFrom(preds, chunks, cfg, oracle, 0).Ok? by {
      forall j | 0 <= j < |chunks|
        ensures Aligned(Words(preds), j * s, Expand(oracle(chunks[j])))
      {
        PlacedAligned(preds, chunks, s, oracle, j);
      }
      PopulateFromOk(preds, chunks, cfg, oracle, 0);
    }
    PopulateFromLabels(preds, chunks, cfg, oracle, 0);
    var r := PopulateFrom(preds, chunks, cfg, oracle, 0).value;
    assert chunks[0..] == chunks;
    forall p | 0 <= p < |r|
      ensures r[p].labels == preds[p].labels + CoveringVotes(chunks, oracle, s, p)
    {
      assert p - 0 * s == p;
    }
  }

  /** A faithful model's output for a window cut from the stored words is
      aligned with them. */
  lemma PlacedAligned(preds: seq<WordPrediction>, chunks: seq<seq<string>>, s: nat, oracle: Oracle, j: nat)
    requires Faithful(oracle) && Placed(preds, chunks, s) && j < |chunks|
    ensures Aligned(Words(preds), j * s, Expand(oracle(chunks[j])))
  {
    var items := Expand(oracle(chunks[j]));
    assert WordsOf(items) == chunks[j];
    assert |items| == |WordsOf(items)|;
  }

  /** Under a faithful model each covering window casts exactly one vote. */
  lemma {:induction false} CoveringVotesCount(chunks: seq<seq<string>>, oracle: Oracle, stride: nat, p: int)
    requires Faithful(oracle)
    ensures |CoveringVotes(chunks, oracle, stride, p)| == Coverage(chunks, stride, p)
    decreases |chunks|
  {
    if |chunks| > 0 {
      assert |Expand(oracle(chunks[0]))| == |WordsOf(Expand(oracle(chunks[0])))| == |chunks[0]|;
      CoveringVotesCount(chunks[1..], oracle, stride, p - stride);
    }
  }

  /** Votes from windows laid after each other: the second group's positions
      are shifted by the first group's strides. */
  lemma {:induction false} CoveringVotesAppend(a: seq<seq<string>>, b: seq<seq<string>>, oracle: Oracle, stride: nat, p: int)
    ensures CoveringVotes(a + b, oracle, stride, p)
      == CoveringVotes(a, oracle, stride, p) + CoveringVotes(b, oracle, stride, p - |a| * stride)
    decreases |a|
  {
    if |a| == 0 {
      assert a + b == b;
    } else {
      var rest := a[1..];
      var hit := Hit(a[0], oracle, p);
      assert CoveringVotes(a + b, oracle, stride, p) == hit + CoveringVotes(rest + b, oracle, stride, p - stride) by {
        assert (a + b)[0] == a[0] && (a + b)[1..] == rest + b;
      }
      var x := p - |a| * stride;
      var r1 := CoveringVotes(rest, oracle, stride, p - stride);
      var r2 := CoveringVotes(b, oracle, stride, x);
      assert CoveringVotes(rest + b, oracle, stride, p - stride) == r1 + r2 by {
        CoveringVotesAppend(rest, b, oracle, stride, p - stride);
        assert p - stride - |rest| * stride == x by {
          MulSucc(|rest|, stride);
        }
      }
      assert CoveringVotes(a, oracle, stride, p) == hit + r1;
      ConcatAssoc(hit, r1, r2);
    }
  }

  lemma ConcatAssoc<T>(a: seq<T>, b: seq<T>, c: seq<T>)
    ensures (a + b) + c == a + (b + c)
  {
  }

  /** A position before the first window gets no vote. */
  lemma {:induction false} CoveringVotesBefore(chunks: seq<seq<string>>, oracle: Oracle, stride: nat, p: int)
    requires p < 0
    ensures CoveringVotes(chunks, oracle, stride, p) == []
    decreases |chunks|
  {
    if |chunks| > 0 {
      CoveringVotesBefore(chunks[1..], oracle, stride, p - stride);
    }
  }

  /** A position after the end of every window gets no vote. */
  lemma {:induction false} CoveringVotesAfter(chunks: seq<seq<string>>, oracle: Oracle, stride: nat, p: int)
    requires Faithful(oracle)
    requires forall j :: 0 <= j < |chunks| ==> j * stride + |chunks[j]| <= p
    ensures CoveringVotes(chunks, oracle, stride, p) == []
    decreases |chunks|
  {
    if |chunks| > 0 {
      assert |Expand(oracle(chunks[0]))| == |WordsOf(Expand(oracle(chunks[0])))| == |chunks[0]|;
      assert 0 * stride + |chunks[0]| <= p;
      forall j | 0 <= j < |chunks| - 1
        ensures j * stride + |chunks[1..][j]| <= p - stride
      {
        MulSucc(j, stride);
        assert (j + 1) * stride + |chunks[j + 1]| <= p;
      }
      CoveringVotesAfter(chunks[1..], oracle, stride, p - stride);
    }
  }
}
