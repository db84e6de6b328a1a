/** `PunctFixStreamer`: words arrive in segments, full windows are carved off
    the front of a buffer into a growing ledger of word predictions, the model
    votes on every carved window, and only words that can receive no further
    vote are emitted before the end of the stream. */
module Streaming {
  import opened Results
  import opened Chunking
  import opened Voting
  import opened Alignment
  import opened Reconstruct
  import opened Inference

  /** Python's `xs[a:b]` for non-negative bounds: both ends clamped to the
      list, and empty when the start is not before the end. */
  function PySlice<T>(xs: seq<T>, a: nat, b: nat): (r: seq<T>)
    ensures a < b && a < |xs| ==> r == xs[a..Min(b, |xs|)]
    ensures !(a < b && a < |xs|) ==> r == []
  {
    if a < b && a < |xs| then xs[a..Min(b, |xs|)] else []
  }

  /** Where Python's `xs[a:]` starts: a negative `a` counts from the end, and
      the start is clamped to the list. */
  function PyStart(a: int, n: nat): (s: nat)
    ensures s <= n
    ensures 0 <= a <= n ==> s == a
    ensures a > n ==> s == n
    ensures a < 0 ==> s == if a + n < 0 then 0 else a + n
  {
    if a < 0 then (if a + n < 0 then 0 else a + n) else Min(a, n)
  }

  /** Python's `xs[a:]`. */
  function PyDrop<T>(xs: seq<T>, a: int): (r: seq<T>)
    ensures r == xs[PyStart(a, |xs|)..]
  {
    xs[PyStart(a, |xs|)..]
  }

  /** `xs[:b] == xs[:a] + xs[a:b]` for `0 <= a <= b`, at any list length. */
  lemma PySliceSplit<T>(xs: seq<T>, a: nat, b: nat)
    requires a <= b
    ensures PySlice(xs, 0, b) == PySlice(xs, 0, a) + PySlice(xs, a, b)
  {
  }

  /** `xs[:a] + xs[a:] == xs` for `a >= 0`: the carve's slices lose no word. */
  lemma PyTakeDrop<T>(xs: seq<T>, a: nat)
    ensures PySlice(xs, 0, a) + PyDrop(xs, a) == xs
  {
  }

  /** `xs[a:b] == xs[:b][a:]`: the words a turn appends to the ledger are
      the turn's window less its first `a` words. */
  lemma PySliceOfTake<T>(xs: seq<T>, a: nat, b: nat)
    ensures PySlice(xs, a, b) == PyDrop(PySlice(xs, 0, b), a)
  {
  }

  /** The streamer's state: the words not yet carved past (`buffer`; the
      model only ever reads their text) and the carved words with their votes
      (`chunked_words`, the ledger). */
  datatype Streamer = Streamer(buffer: seq<string>, ledger: seq<WordPrediction>)

  /** The state `__init__` and `clear` establish. */
  const Fresh := Streamer([], [])

  /** What the carving loop of `process_buffer` leaves: the windows it cut, in
      order, and the new ledger and buffer. */
  datatype Carving = Carving(chunks: seq<seq<string>>, ledger: seq<WordPrediction>, buffer: seq<string>)

  /** The `while` loop of `process_buffer`: while the buffer holds a full
      window (or, when finalizing, anything at all), cut its first
      `chunkSize` words as a window, append the words not yet in the ledger
      (all of them the first time, those after the first `overlap` words
      afterwards), and drop one stride from the front of the buffer. */
  function Carve(buffer: seq<string>, ledger: seq<WordPrediction>, cfg: Config, final: bool): (c: Carving)
    requires cfg.Valid()
    ensures |ledger| <= |c.ledger| && c.ledger[..|ledger|] == ledger
    ensures forall p :: |ledger| <= p < |c.ledger| ==> c.ledger[p].labels == []
    ensures final ==> c.buffer == []
    ensures !final ==> |c.buffer| < cfg.chunkSize
    ensures |c.chunks| == 0 ==> c.buffer == buffer && c.ledger == ledger
    decreases |buffer|
  {
    if |buffer| >= cfg.chunkSize || (final && |buffer| > 0) then
      var chunk := PySlice(buffer, 0, cfg.chunkSize);
      var skip := if |ledger| > 0 then cfg.overlap else 0;
      var grown := ledger + InitPredictions(PySlice(buffer, skip, cfg.chunkSize));
      var rest := Carve(PyDrop(buffer, cfg.Stride()), grown, cfg, final);
      assert rest.ledger[..|ledger|] == rest.ledger[..|grown|][..|ledger|] == ledger;
      assert forall p :: |ledger| <= p < |grown| ==> rest.ledger[p] == grown[p];
      Carving([chunk] + rest.chunks, rest.ledger, rest.buffer)
    else
      Carving([], ledger, buffer)
  }

  /** The outcome of `process_buffer`: the new state, and whether any window
      was carved (its return value). */
  datatype Processed = Processed(state: Streamer, carved: bool)

  /** `process_buffer`: carve, then let the model vote on the new windows,
      matching them against the ledger from `this_processing_started_at` on
      (the ledger length before carving, minus the overlap, when the ledger was
      not empty). */
  function ProcessBuffer(st: Streamer, cfg: Config, oracle: Oracle, final: bool): (r: Result<Processed>)
    requires cfg.Valid()
    ensures r.Ok? ==> (r.value.carved <==> Carve(st.buffer, st.ledger, cfg, final).chunks != [])
    ensures r.Ok? ==> Words(r.value.state.ledger) == Words(Carve(st.buffer, st.ledger, cfg, final).ledger)
    ensures r.Ok? ==> r.value.state.buffer == Carve(st.buffer, st.ledger, cfg, final).buffer
    ensures r.Ok? && !r.value.carved ==> r.value.state == st
  {
    var startedAt := if |st.ledger| > 0 then |st.ledger| - cfg.overlap else 0;
    var c := Carve(st.buffer, st.ledger, cfg, final);
    if |c.chunks| == 0 then Ok(Processed(Streamer(c.buffer, c.ledger), false))
    else
      var s := PyStart(startedAt, |c.ledger|);
      var voted :- Populate(PyDrop(c.ledger, startedAt), c.chunks, cfg, oracle);
      assert Words(c.ledger[..s] + voted) == Words(c.ledger) by {
        WordsAppend(c.ledger[..s], voted);
        WordsSplit(c.ledger, s);
      }
      Ok(Processed(Streamer(c.buffer, c.ledger[..s] + voted), true))
  }

  /** `range(n)`. */
  function Range(n: nat): (r: seq<nat>)
    ensures |r| == n && forall i :: 0 <= i < n ==> r[i] == i
  {
    seq(n, i requires 0 <= i < n => i)
  }

  /** How often `p` occurs in `xs`. */
  function CountOf(xs: seq<nat>, p: nat): (n: nat)
    decreases |xs|
  {
    if |xs| == 0 then 0 else (if xs[0] == p then 1 else 0) + CountOf(xs[1..], p)
  }

  /** How often `p` occurs across all the chunks. */
  function Occurrences(cs: seq<seq<nat>>, p: nat): (n: nat)
    decreases |cs|
  {
    if |cs| == 0 then 0 else CountOf(cs[0], p) + Occurrences(cs[1..], p)
  }

  /** `final_num_preds` of `get_result`: for each position of a ledger of `n`
      words (and `chunkSize` positions beyond), the number of windows of the
      one-shot chunking of `range(n)` that contain it. */
  function SettledCounts(n: nat, cfg: Config): (counts: seq<nat>)
    requires cfg.Valid()
    ensures |counts| == n + cfg.chunkSize
  {
    var cs := Chunks(Range(n), cfg);
    seq(n + cfg.chunkSize, p requires 0 <= p < n + cfg.chunkSize => Occurrences(cs, p))
  }

  /** The list comprehension of `get_result`: the ledger entries, from
      position `i` on, whose number of votes equals their count. */
  function KeepSettled(ledger: seq<WordPrediction>, counts: seq<nat>, i: nat): (kept: seq<WordPrediction>)
    requires i <= |ledger| <= |counts|
    ensures |kept| <= |ledger| - i
    decreases |ledger| - i
  {
    if i == |ledger| then []
    else if |ledger[i].labels| == counts[i] then [ledger[i]] + KeepSettled(ledger, counts, i + 1)
    else KeepSettled(ledger, counts, i + 1)
  }

  /** `get_result`: the text of the whole ledger when finalizing, and
      otherwise of the settled words only. */
  function GetResult(st: Streamer, cfg: Config, final: bool): (r: Result<string>)
    requires cfg.Valid()
  {
    if final then CombinePredictions(st.ledger)
    else CombinePredictions(KeepSettled(st.ledger, SettledCounts(|st.ledger|, cfg), 0))
  }

  /** What `__call__` returns, with the state it leaves. */
  datatype Reply = Reply(state: Streamer, output: Option<string>)

  /** `__call__`: append the segment's words to the buffer and process it;
      report the settled text when a window was carved, and nothing
      otherwise. The segment arrives already split into words. */
  function Call(st: Streamer, words: seq<string>, cfg: Config, oracle: Oracle): (r: Result<Reply>)
    requires cfg.Valid()
    ensures r.Ok? ==> (r.value.output.None? <==> Carve(st.buffer + words, st.ledger, cfg, false).chunks == [])
    ensures r.Ok? ==> r.value.state.buffer == Carve(st.buffer + words, st.ledger, cfg, false).buffer
  {
    var pr :- ProcessBuffer(Streamer(st.buffer + words, st.ledger), cfg, oracle, false);
    if pr.carved then
      var text :- GetResult(pr.state, cfg, false);
      Ok(Reply(pr.state, Some(text)))
    else
      Ok(Reply(pr.state, None))
  }

  /** What `finalize` returns, with the state it leaves. */
  datatype Finished = Finished(text: string, state: Streamer)

  /** `finalize`: carve everything left in the buffer, return the text of the
      whole ledger, and `clear` the streamer. */
  function Finalize(st: Streamer, cfg: Config, oracle: Oracle): (r: Result<Finished>)
    requires cfg.Valid()
    ensures r.Ok? ==> r.value.state == Fresh
  {
    var pr :- ProcessBuffer(st, cfg, oracle, true);
    var text :- GetResult(pr.state, cfg, true);
    Ok(Finished(text, Fresh))
  }
}
