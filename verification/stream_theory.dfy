/** What the streamer computes, stated against the words streamed in so far:
    after any segmentation of a word list the streamer's state is fixed by the
    word list alone, the text it reports is a prefix of every later report and
    of the final text, and the final text is the reconstruction of the word
    list voted by every window the stream cuts. */
module StreamTheory {
  import opened Results
  import opened Chunking
  import opened Voting
  import opened Alignment
  import opened Reconstruct
  import opened Inference
  import opened Streaming

  /** The number of full windows of a word list of length `n`: how many times
      the carving loop runs before the end of the stream. */
  function FullWindows(n: nat, cfg: Config): (k: nat)
    requires cfg.Valid()
    ensures k * cfg.Stride() <= n
    decreases n
  {
    if n < cfg.chunkSize then 0
    else
      MulSucc(FullWindows(n - cfg.Stride(), cfg), cfg.Stride());
      1 + FullWindows(n - cfg.Stride(), cfg)
  }

  /** Window `j` is full exactly when it ends inside the word list. */
  lemma {:induction false} FullWindowsAt(n: nat, cfg: Config, j: nat)
    requires cfg.Valid()
    ensures j < FullWindows(n, cfg) <==> j * cfg.Stride() + cfg.chunkSize <= n
    decreases n
  {
    if n >= cfg.chunkSize && j > 0 {
      FullWindowsAt(n - cfg.Stride(), cfg, j - 1);
      MulSucc(j - 1, cfg.Stride());
    }
  }

  /** The length of the ledger after `k` windows have been carved from a word
      list of length `n`: the first window brings `chunkSize` words, every
      later one a stride more, and never more words than there are. */
  function LedgerLength(k: nat, n: nat, cfg: Config): (l: nat)
    requires cfg.Valid()
    ensures l <= n
  {
    if k == 0 then 0 else Min((k - 1) * cfg.Stride() + cfg.chunkSize, n)
  }

  lemma MulMono(a: nat, b: nat, s: nat)
    requires a <= b
    ensures a * s <= b * s
  {
  }

  /** Carving more windows never shortens the ledger. */
  lemma LedgerLengthMono(k: nat, k': nat, n: nat, cfg: Config)
    requires cfg.Valid() && k <= k'
    ensures LedgerLength(k, n, cfg) <= LedgerLength(k', n, cfg)
  {
    if k > 0 {
      MulMono(k - 1, k' - 1, cfg.Stride());
    }
  }

  /** All windows the stream cuts when it is finalized: every stride start
      inside the word list, the last ones possibly short. */
  function Windows(ws: seq<string>, cfg: Config): (cs: seq<seq<string>>)
    requires cfg.Valid()
  {
    ChunksFrom(ws, 0, cfg.chunkSize, cfg.Stride())
  }

  /** A full window is a window of `chunkSize` words. */
  lemma FullWindowIsWindow(ws: seq<string>, cfg: Config, j: nat)
    requires cfg.Valid() && j < FullWindows(|ws|, cfg)
    ensures j < |Windows(ws, cfg)| && |Windows(ws, cfg)[j]| == cfg.chunkSize
  {
    FullWindowsAt(|ws|, cfg, j);
    ChunksFromAt(ws, 0, cfg.chunkSize, cfg.Stride(), j);
    MulMono(0, j, cfg.Stride());
    WindowOfSize(ws, Windows(ws, cfg), cfg.chunkSize, j, j * cfg.Stride());
  }

  lemma WindowOfSize(ws: seq<string>, cs: seq<seq<string>>, size: nat, j: nat, a: nat)
    requires 0 < size && a + size <= |ws|
    requires j < |cs| <==> a < |ws|
    requires j < |cs| ==> cs[j] == ws[a..Min(a + size, |ws|)]
    ensures j < |cs| && |cs[j]| == size
  {
  }

  /** The full windows come first among all windows. */
  lemma FullWindowsAreWindows(ws: seq<string>, cfg: Config)
    requires cfg.Valid()
    ensures FullWindows(|ws|, cfg) <= |Windows(ws, cfg)|
    ensures forall j :: 0 <= j < FullWindows(|ws|, cfg) ==> |Windows(ws, cfg)[j]| == cfg.chunkSize
  {
    var k := FullWindows(|ws|, cfg);
    if k > 0 {
      FullWindowIsWindow(ws, cfg, k - 1);
    }
    forall j | 0 <= j < k
      ensures |Windows(ws, cfg)[j]| == cfg.chunkSize
    {
      FullWindowIsWindow(ws, cfg, j);
    }
  }

  /** Once every window is carved the ledger holds the whole word list. */
  lemma LedgerLengthAll(ws: seq<string>, cfg: Config)
    requires cfg.Valid()
    ensures LedgerLength(|Windows(ws, cfg)|, |ws|, cfg) == |ws|
  {
    var m := |Windows(ws, cfg)|;
    ChunksFromCount(ws, 0, cfg.chunkSize, cfg.Stride());
    if m > 0 {
      MulSucc(m - 1, cfg.Stride());
    }
  }

  /** Where the carving loop stops: after the last full window while the
      stream runs, after the last window when it is finalized. */
  function Stop(ws: seq<string>, cfg: Config, final: bool): (e: nat)
    requires cfg.Valid()
    ensures e <= |Windows(ws, cfg)|
    ensures 0 <= e * cfg.Stride()
  {
    FullWindowsAreWindows(ws, cfg);
    MulMono(0, if final then |Windows(ws, cfg)| else FullWindows(|ws|, cfg), cfg.Stride());
    if final then |Windows(ws, cfg)| else FullWindows(|ws|, cfg)
  }

  lemma InitAppend(a: seq<string>, b: seq<string>)
    ensures InitPredictions(a + b) == InitPredictions(a) + InitPredictions(b)
  {
    assert forall k :: 0 <= k < |a + b| ==> InitPredictions(a + b)[k] == (InitPredictions(a) + InitPredictions(b))[k];
  }

  /** The carving loop runs once more exactly when a window remains before
      the stop. */
  lemma CarveGuard(ws: seq<string>, cfg: Config, final: bool, k: nat)
    requires cfg.Valid()
    ensures var buf := ws[Min(k * cfg.Stride(), |ws|)..];
      (|buf| >= cfg.chunkSize || (final && |buf| > 0)) <==> k < Stop(ws, cfg, final)
  {
    ChunksFromAt(ws, 0, cfg.chunkSize, cfg.Stride(), k);
    FullWindowsAt(|ws|, cfg, k);
  }

  /** One turn of the carving loop appends to the ledger exactly the words
      the next window brings. */
  lemma CarveAdds(ws: seq<string>, cfg: Config, k: nat)
    requires cfg.Valid() && k * cfg.Stride() < |ws|
    ensures (LedgerLength(k, |ws|, cfg) > 0) == (k > 0)
    ensures PySlice(ws[k * cfg.Stride()..], if k > 0 then cfg.overlap else 0, cfg.chunkSize)
      == ws[LedgerLength(k, |ws|, cfg)..LedgerLength(k + 1, |ws|, cfg)]
  {
    var ks := k * cfg.Stride();
    if k > 0 {
      MulSucc(k - 1, cfg.Stride());
      assert LedgerLength(k, |ws|, cfg) == Min(ks + cfg.overlap, |ws|);
    }
    assert LedgerLength(k + 1, |ws|, cfg) == Min(ks + cfg.chunkSize, |ws|);
    SliceAdds(ws, ks, if k > 0 then cfg.overlap else 0, cfg.chunkSize);
  }

  lemma SliceAdds(ws: seq<string>, ks: nat, skip: nat, size: nat)
    requires ks < |ws| && skip < size
    ensures PySlice(ws[ks..], skip, size) == ws[Min(ks + skip, |ws|)..Min(ks + size, |ws|)]
  {
  }

  lemma SliceJoin<T>(xs: seq<T>, a: nat, b: nat, c: nat)
    requires a <= b <= c <= |xs|
    ensures xs[a..b] + xs[b..c] == xs[a..c]
  {
  }

  lemma SliceCons<T>(xs: seq<T>, a: nat, b: nat)
    requires a < b <= |xs|
    ensures xs[a..b] == [xs[a]] + xs[a + 1..b]
  {
  }

  /** One turn of the carving loop cuts the next window of the stream. */
  lemma CarveCuts(ws: seq<string>, cfg: Config, k: nat)
    requires cfg.Valid() && k * cfg.Stride() < |ws|
    ensures k < |Windows(ws, cfg)|
    ensures PySlice(ws[k * cfg.Stride()..], 0, cfg.chunkSize) == Windows(ws, cfg)[k]
  {
    var a := k * cfg.Stride();
    ChunksFromAt(ws, 0, cfg.chunkSize, cfg.Stride(), k);
    assert ws[a..][0..Min(cfg.chunkSize, |ws| - a)] == ws[a..Min(a + cfg.chunkSize, |ws|)];
  }

  /** One turn of the carving loop, when its guard holds. */
  lemma CarveTurn(buf: seq<string>, ledger: seq<WordPrediction>, cfg: Config, final: bool)
    requires cfg.Valid()
    requires |buf| >= cfg.chunkSize || (final && |buf| > 0)
    ensures var rest := Carve(PyDrop(buf, cfg.Stride()),
        ledger + InitPredictions(PySlice(buf, if |ledger| > 0 then cfg.overlap else 0, cfg.chunkSize)), cfg, final);
      Carve(buf, ledger, cfg, final) == Carving([PySlice(buf, 0, cfg.chunkSize)] + rest.chunks, rest.ledger, rest.buffer)
  {
  }

  /** One turn of the carving loop, started on the word list after `k`
      windows with `k` before the stop: it cuts window `k`, appends the words
      that window brings, and carries on from the next stride start. */
  lemma CarveStep(ws: seq<string>, cfg: Config, final: bool, k: nat, ledger: seq<WordPrediction>)
    requires cfg.Valid()
    requires k < Stop(ws, cfg, final)
    requires Words(ledger) == ws[..LedgerLength(k, |ws|, cfg)]
    ensures LedgerLength(k, |ws|, cfg) <= LedgerLength(k + 1, |ws|, cfg)
    ensures Words(ledger + InitPredictions(ws[LedgerLength(k, |ws|, cfg)..LedgerLength(k + 1, |ws|, cfg)]))
      == ws[..LedgerLength(k + 1, |ws|, cfg)]
    ensures var rest := Carve(ws[Min((k + 1) * cfg.Stride(), |ws|)..],
        ledger + InitPredictions(ws[LedgerLength(k, |ws|, cfg)..LedgerLength(k + 1, |ws|, cfg)]), cfg, final);
      Carve(ws[Min(k * cfg.Stride(), |ws|)..], ledger, cfg, final)
        == Carving([Windows(ws, cfg)[k]] + rest.chunks, rest.ledger, rest.buffer)
  {
    var s := cfg.Stride();
    var n := |ws|;
    var buf := ws[Min(k * s, n)..];
    CarveGuard(ws, cfg, final, k);
    ChunksFromAt(ws, 0, cfg.chunkSize, s, k);
    assert buf == ws[k * s..];
    CarveAdds(ws, cfg, k);
    var l := LedgerLength(k, n, cfg);
    var l' := LedgerLength(k + 1, n, cfg);
    LedgerLengthMono(k, k + 1, n, cfg);
    var added := ws[l..l'];
    WordsAppend(ledger, InitPredictions(added));
    SliceJoin(ws, 0, l, l');
    assert ws[..l] + added == ws[..l'];
    MulSucc(k, s);
    assert PyDrop(buf, s) == ws[Min((k + 1) * s, n)..];
    assert PySlice(buf, if |ledger| > 0 then cfg.overlap else 0, cfg.chunkSize) == added;
    CarveCuts(ws, cfg, k);
    CarveTurn(buf, ledger, cfg, final);
  }

  /** Appending the words of two adjacent stretches one after the other is
      appending the words of the joined stretch. */
  lemma AppendStretches(ws: seq<string>, ledger: seq<WordPrediction>, l: nat, l': nat, le: nat)
    requires l <= l' <= le <= |ws|
    ensures (ledger + InitPredictions(ws[l..l'])) + InitPredictions(ws[l'..le]) == ledger + InitPredictions(ws[l..le])
  {
    InitAppend(ws[l..l'], ws[l'..le]);
    SliceJoin(ws, l, l', le);
    ConcatAssoc(ledger, InitPredictions(ws[l..l']), InitPredictions(ws[l'..le]));
  }

  /** The carving loop, started on the word list after `k` windows, cuts the
      windows `k` up to the stop, appends the words they bring with no votes
      yet, and leaves the words from the stop's stride start on. */
  lemma {:induction false} CarveFrom(ws: seq<string>, cfg: Config, final: bool, k: nat, ledger: seq<WordPrediction>)
    requires cfg.Valid()
    requires k <= Stop(ws, cfg, final)
    requires Words(ledger) == ws[..LedgerLength(k, |ws|, cfg)]
    ensures LedgerLength(k, |ws|, cfg) <= LedgerLength(Stop(ws, cfg, final), |ws|, cfg)
    ensures Carve(ws[Min(k * cfg.Stride(), |ws|)..], ledger, cfg, final)
      == Carving(Windows(ws, cfg)[k..Stop(ws, cfg, final)],
                 ledger + InitPredictions(ws[LedgerLength(k, |ws|, cfg)..LedgerLength(Stop(ws, cfg, final), |ws|, cfg)]),
                 ws[Min(Stop(ws, cfg, final) * cfg.Stride(), |ws|)..])
    decreases Stop(ws, cfg, final) - k
  {
    var n := |ws|;
    var e := Stop(ws, cfg, final);
    LedgerLengthMono(k, e, n, cfg);
    var l := LedgerLength(k, n, cfg);
    var le := LedgerLength(e, n, cfg);
    if k == e {
      CarveGuard(ws, cfg, final, k);
      assert ws[l..le] == [];
      assert ledger + InitPredictions([]) == ledger;
    } else {
      CarveStep(ws, cfg, final, k, ledger);
      var l' := LedgerLength(k + 1, n, cfg);
      var grown := ledger + InitPredictions(ws[l..l']);
      CarveFrom(ws, cfg, final, k + 1, grown);
      AppendStretches(ws, ledger, l, l', le);
      SliceCons(Windows(ws, cfg), k, e);
    }
  }

  /** The ledger after the first `k` windows have voted: the words they
      brought, each with the votes of the windows covering it. */
  function Voted(ws: seq<string>, cfg: Config, oracle: Oracle, k: nat): (ledger: seq<WordPrediction>)
    requires cfg.Valid() && k <= |Windows(ws, cfg)|
    ensures Words(ledger) == ws[..LedgerLength(k, |ws|, cfg)]
  {
    VotedLedger(ws[..LedgerLength(k, |ws|, cfg)], Windows(ws, cfg)[..k], oracle, cfg.Stride())
  }

  /** The state the streamer is in once the words `ws` have been streamed
      in, however they were segmented: the words from the stride start after
      the last full window wait in the buffer, and the ledger holds the words
      the full windows brought, voted by those windows. */
  function Expected(ws: seq<string>, cfg: Config, oracle: Oracle): (st: Streamer)
    requires cfg.Valid()
    ensures Words(st.ledger) == ws[..LedgerLength(FullWindows(|ws|, cfg), |ws|, cfg)]
    ensures ws == Words(st.ledger)[..FullWindows(|ws|, cfg) * cfg.Stride()] + st.buffer
  {
    var k := FullWindows(|ws|, cfg);
    FullWindowsAreWindows(ws, cfg);
    LedgerStart(|ws|, cfg, k);
    Streamer(ws[k * cfg.Stride()..], Voted(ws, cfg, oracle, k))
  }

  /** Facts about the ledger after `k` full windows: it is empty exactly
      before the first window, it reaches past the start of window `k`, and
      the overlap before its end is where window `k` starts. */
  lemma LedgerStart(n: nat, cfg: Config, k: nat)
    requires cfg.Valid() && k <= FullWindows(n, cfg)
    ensures (LedgerLength(k, n, cfg) > 0) == (k > 0)
    ensures k * cfg.Stride() <= LedgerLength(k, n, cfg)
    ensures k > 0 ==> LedgerLength(k, n, cfg) == (k - 1) * cfg.Stride() + cfg.chunkSize
    ensures k > 0 ==> LedgerLength(k, n, cfg) - cfg.overlap == k * cfg.Stride()
  {
    if k > 0 {
      FullWindowsAt(n, cfg, k - 1);
      MulSucc(k - 1, cfg.Stride());
    }
  }

  lemma SliceOfSlice<T>(xs: seq<T>, a: nat, b: nat, i: nat, j: nat)
    requires a <= b <= |xs| && i <= j <= b - a
    ensures xs[a..b][i..j] == xs[a + i..a + j]
  {
    var l := xs[a..b][i..j];
    var r := xs[a + i..a + j];
    assert |l| == |r|;
    forall t | 0 <= t < |l|
      ensures l[t] == r[t]
    {
      assert l[t] == xs[a..b][i + t] == xs[a + i + t];
    }
  }

  lemma MulAdd(a: nat, b: nat, s: nat)
    ensures (a + b) * s == a * s + b * s
  {
  }

  /** Window `k + j`, of the first `e`, read at offset `j` strides into the
      words from `k`'s stride start up to the ledger's end. */
  lemma TailWindow(ws: seq<string>, cfg: Config, k: nat, e: nat, j: nat, ks: nat, js: nat, le: nat)
    requires cfg.Valid() && k + j < e <= |Windows(ws, cfg)|
    requires ks == k * cfg.Stride() && js == j * cfg.Stride() && le == LedgerLength(e, |ws|, cfg)
    requires ks <= le
    ensures js + |Windows(ws, cfg)[k + j]| <= le - ks
    ensures Windows(ws, cfg)[k + j] == ws[ks..le][js..js + |Windows(ws, cfg)[k + j]|]
  {
    var s := cfg.Stride();
    ChunksFromAt(ws, 0, cfg.chunkSize, s, k + j);
    MulAdd(k, j, s);
    MulMono(k + j, e - 1, s);
    var a := ks + js;
    var b := Min(a + cfg.chunkSize, |ws|);
    assert Windows(ws, cfg)[k + j] == ws[a..b];
    assert b <= le;
    SliceOfSlice(ws, ks, le, js, js + |Windows(ws, cfg)[k + j]|);
  }

  /** The windows carved after window `k` were cut from the ledger's words
      from `k`'s stride start on. */
  lemma TailPlaced(ws: seq<string>, cfg: Config, k: nat, e: nat, tail: seq<WordPrediction>)
    requires cfg.Valid() && k <= e <= |Windows(ws, cfg)|
    requires k * cfg.Stride() <= LedgerLength(e, |ws|, cfg)
    requires Words(tail) == ws[k * cfg.Stride()..LedgerLength(e, |ws|, cfg)]
    ensures Placed(tail, Windows(ws, cfg)[k..e], cfg.Stride())
  {
    var s := cfg.Stride();
    var cs := Windows(ws, cfg)[k..e];
    var le := LedgerLength(e, |ws|, cfg);
    MulMono(0, k, s);
    forall j | 0 <= j < |cs|
      ensures j * s + |cs[j]| <= |tail| && cs[j] == Words(tail)[j * s..j * s + |cs[j]|]
    {
      MulMono(0, j, s);
      TailWindow(ws, cfg, k, e, j, k * s, j * s, le);
      assert cs[j] == Windows(ws, cfg)[k + j];
    }
  }

  /** The votes of the first `e` windows at position `p`: those of the first
      `k` windows, then those of the windows after them, which start at `k`'s
      stride start. */
  lemma PrefixVotesAppend(cs: seq<seq<string>>, oracle: Oracle, s: nat, k: nat, e: nat, p: int)
    requires k <= e <= |cs|
    ensures CoveringVotes(cs[..e], oracle, s, p) == CoveringVotes(cs[..k], oracle, s, p) + CoveringVotes(cs[k..e], oracle, s, p - k * s)
  {
    var front := cs[..k];
    assert cs[..e] == front + cs[k..e];
    assert |front| == k;
    CoveringVotesAppend(front, cs[k..e], oracle, s, p);
  }

  /** The first `k` full windows reach no further than the ledger they
      brought. */
  lemma VotesEarlyEnd(ws: seq<string>, cfg: Config, oracle: Oracle, k: nat, p: int)
    requires cfg.Valid() && Faithful(oracle)
    requires k <= FullWindows(|ws|, cfg)
    requires p >= LedgerLength(k, |ws|, cfg)
    ensures k <= |Windows(ws, cfg)|
    ensures CoveringVotes(Windows(ws, cfg)[..k], oracle, cfg.Stride(), p) == []
  {
    var s := cfg.Stride();
    FullWindowsAreWindows(ws, cfg);
    var early := Windows(ws, cfg)[..k];
    LedgerStart(|ws|, cfg, k);
    forall j | 0 <= j < k
      ensures j * s + |early[j]| <= p
    {
      MulMono(j, k - 1, s);
    }
    CoveringVotesAfter(early, oracle, s, p);
  }

  /** Position `p` of the ledger after `k` windows, grown by the words
      windows `k` up to `e` bring: its word, with the votes of the first `k`
      windows. */
  lemma GrownAt(ws: seq<string>, cfg: Config, oracle: Oracle, k: nat, e: nat, grown: seq<WordPrediction>, p: nat)
    requires cfg.Valid() && Faithful(oracle)
    requires k <= FullWindows(|ws|, cfg) && k <= e <= |Windows(ws, cfg)|
    requires LedgerLength(k, |ws|, cfg) <= LedgerLength(e, |ws|, cfg)
    requires grown == Voted(ws, cfg, oracle, k) + InitPredictions(ws[LedgerLength(k, |ws|, cfg)..LedgerLength(e, |ws|, cfg)])
    requires p < LedgerLength(e, |ws|, cfg)
    ensures p < |grown| && grown[p] == WordPrediction(ws[p], CoveringVotes(Windows(ws, cfg)[..k], oracle, cfg.Stride(), p))
  {
    var lk := LedgerLength(k, |ws|, cfg);
    var le := LedgerLength(e, |ws|, cfg);
    var before := Voted(ws, cfg, oracle, k);
    assert |before| == |Words(before)| == lk;
    if p < lk {
      GrownVoted(ws, cfg, oracle, k, before, grown, p);
    } else {
      VotesEarlyEnd(ws, cfg, oracle, k, p);
      GrownFresh(ws, before, lk, le, grown, p);
    }
  }

  /** A grown ledger keeps the votes of its entries from before. */
  lemma GrownVoted(ws: seq<string>, cfg: Config, oracle: Oracle, k: nat, before: seq<WordPrediction>, grown: seq<WordPrediction>, p: nat)
    requires cfg.Valid() && k <= |Windows(ws, cfg)|
    requires before == Voted(ws, cfg, oracle, k)
    requires |before| <= |grown| && grown[..|before|] == before
    requires p < LedgerLength(k, |ws|, cfg)
    ensures p < |grown| && grown[p] == WordPrediction(ws[p], CoveringVotes(Windows(ws, cfg)[..k], oracle, cfg.Stride(), p))
  {
    var lk := LedgerLength(k, |ws|, cfg);
    assert |before| == |Words(before)| == lk;
    assert grown[p] == grown[..|before|][p] == before[p];
    assert before[p] == WordPrediction(ws[..lk][p], CoveringVotes(Windows(ws, cfg)[..k], oracle, cfg.Stride(), p));
  }

  /** The entries a grown ledger appended are fresh. */
  lemma GrownFresh(ws: seq<string>, before: seq<WordPrediction>, lk: nat, le: nat, grown: seq<WordPrediction>, p: nat)
    requires |before| == lk <= p < le <= |ws|
    requires grown == before + InitPredictions(ws[lk..le])
    ensures p < |grown| && grown[p] == WordPrediction(ws[p], [])
  {
    assert grown[p] == InitPredictions(ws[lk..le])[p - lk];
  }

  /** Position `p` of the ledger after `e` windows: the votes of the first
      `k` windows, then those of the later ones. */
  lemma MergeAt(ws: seq<string>, cfg: Config, oracle: Oracle, k: nat, e: nat, a: nat, p: nat)
    requires cfg.Valid() && k <= e <= |Windows(ws, cfg)| && a == k * cfg.Stride()
    requires p < LedgerLength(e, |ws|, cfg)
    ensures p < |Voted(ws, cfg, oracle, e)|
    ensures Voted(ws, cfg, oracle, e)[p] == WordPrediction(ws[p],
      CoveringVotes(Windows(ws, cfg)[..k], oracle, cfg.Stride(), p)
        + CoveringVotes(Windows(ws, cfg)[k..e], oracle, cfg.Stride(), p - a))
  {
    var le := LedgerLength(e, |ws|, cfg);
    var after := Voted(ws, cfg, oracle, e);
    assert |after| == |Words(after)| == le;
    assert after[p] == WordPrediction(ws[..le][p], CoveringVotes(Windows(ws, cfg)[..e], oracle, cfg.Stride(), p));
    PrefixVotesAppend(Windows(ws, cfg), oracle, cfg.Stride(), k, e, p);
  }

  /** An entry before window `k`'s stride start keeps the votes it had after
      `k` full windows, whatever windows follow. */
  lemma VotedKeeps(ws: seq<string>, cfg: Config, oracle: Oracle, k: nat, e: nat, p: nat)
    requires cfg.Valid()
    requires k <= FullWindows(|ws|, cfg) && k <= e <= |Windows(ws, cfg)|
    requires p < k * cfg.Stride()
    ensures p < |Voted(ws, cfg, oracle, k)| && p < |Voted(ws, cfg, oracle, e)|
    ensures Voted(ws, cfg, oracle, e)[p] == Voted(ws, cfg, oracle, k)[p]
  {
    var lk := LedgerLength(k, |ws|, cfg);
    var before := Voted(ws, cfg, oracle, k);
    FullWindowsAreWindows(ws, cfg);
    LedgerStart(|ws|, cfg, k);
    LedgerLengthMono(k, e, |ws|, cfg);
    var a := k * cfg.Stride();
    MergeAt(ws, cfg, oracle, k, e, a, p);
    CoveringVotesBefore(Windows(ws, cfg)[k..e], oracle, cfg.Stride(), p - a);
    assert |before| == |Words(before)| == lk;
    assert before[p] == WordPrediction(ws[..lk][p], CoveringVotes(Windows(ws, cfg)[..k], oracle, cfg.Stride(), p));
  }

  /** The ledger after `k` windows holds one entry per word they brought. */
  lemma VotedLength(ws: seq<string>, cfg: Config, oracle: Oracle, k: nat)
    requires cfg.Valid() && k <= |Windows(ws, cfg)|
    ensures |Voted(ws, cfg, oracle, k)| == LedgerLength(k, |ws|, cfg)
  {
    assert |Voted(ws, cfg, oracle, k)| == |Words(Voted(ws, cfg, oracle, k))|;
  }

  /** Merging the votes of windows `k` up to `e` into the ledger after `k`
      windows gives the ledger after `e` windows: positions before window
      `k` keep their votes, later ones get the new windows' votes after the
      ones they had. */
  lemma MergeVotes(ws: seq<string>, cfg: Config, oracle: Oracle, k: nat, e: nat, voted: seq<WordPrediction>)
    requires cfg.Valid() && Faithful(oracle)
    requires k <= FullWindows(|ws|, cfg) && k <= e <= |Windows(ws, cfg)|
    requires LedgerLength(k, |ws|, cfg) <= LedgerLength(e, |ws|, cfg)
    requires var grown := Voted(ws, cfg, oracle, k) + InitPredictions(ws[LedgerLength(k, |ws|, cfg)..LedgerLength(e, |ws|, cfg)]);
      && k * cfg.Stride() <= |grown|
      && |voted| == |grown| - k * cfg.Stride()
      && forall p :: 0 <= p < |voted| ==>
        && voted[p].word == grown[k * cfg.Stride()..][p].word
        && voted[p].labels == grown[k * cfg.Stride()..][p].labels + CoveringVotes(Windows(ws, cfg)[k..e], oracle, cfg.Stride(), p)
    ensures var grown := Voted(ws, cfg, oracle, k) + InitPredictions(ws[LedgerLength(k, |ws|, cfg)..LedgerLength(e, |ws|, cfg)]);
      grown[..k * cfg.Stride()] + voted == Voted(ws, cfg, oracle, e)
  {
    var s := cfg.Stride();
    var n := |ws|;
    var lk := LedgerLength(k, n, cfg);
    var le := LedgerLength(e, n, cfg);
    var before := Voted(ws, cfg, oracle, k);
    var grown := before + InitPredictions(ws[lk..le]);
    var after := Voted(ws, cfg, oracle, e);
    var a := k * s;
    assert |grown| == |after| by {
      VotedLength(ws, cfg, oracle, k);
      VotedLength(ws, cfg, oracle, e);
    }
    MergeHead(ws, cfg, oracle, k, e, grown, a);
    MergeTail(ws, cfg, oracle, k, e, grown, a, voted);
    Splice(grown, voted, a, after);
  }

  /** The entries before window `k`'s stride start are those of the ledger
      after `e` windows. */
  lemma MergeHead(ws: seq<string>, cfg: Config, oracle: Oracle, k: nat, e: nat, grown: seq<WordPrediction>, a: nat)
    requires cfg.Valid()
    requires k <= FullWindows(|ws|, cfg) && k <= e <= |Windows(ws, cfg)|
    requires LedgerLength(k, |ws|, cfg) <= LedgerLength(e, |ws|, cfg)
    requires grown == Voted(ws, cfg, oracle, k) + InitPredictions(ws[LedgerLength(k, |ws|, cfg)..LedgerLength(e, |ws|, cfg)])
    requires a == k * cfg.Stride()
    ensures a <= |grown| && a <= |Voted(ws, cfg, oracle, e)|
    ensures forall p :: 0 <= p < a ==> grown[p] == Voted(ws, cfg, oracle, e)[p]
  {
    var before := Voted(ws, cfg, oracle, k);
    LedgerStart(|ws|, cfg, k);
    VotedLength(ws, cfg, oracle, k);
    VotedLength(ws, cfg, oracle, e);
    forall p | 0 <= p < a
      ensures grown[p] == Voted(ws, cfg, oracle, e)[p]
    {
      VotedKeeps(ws, cfg, oracle, k, e, p);
      assert grown[p] == before[p];
    }
  }

  /** The entries from window `k`'s stride start on, merged with the votes
      of windows `k` up to `e`, are those of the ledger after `e` windows. */
  lemma MergeTail(ws: seq<string>, cfg: Config, oracle: Oracle, k: nat, e: nat, grown: seq<WordPrediction>, a: nat, voted: seq<WordPrediction>)
    requires cfg.Valid() && Faithful(oracle)
    requires k <= FullWindows(|ws|, cfg) && k <= e <= |Windows(ws, cfg)|
    requires LedgerLength(k, |ws|, cfg) <= LedgerLength(e, |ws|, cfg)
    requires grown == Voted(ws, cfg, oracle, k) + InitPredictions(ws[LedgerLength(k, |ws|, cfg)..LedgerLength(e, |ws|, cfg)])
    requires a == k * cfg.Stride() && a <= |grown| && |voted| == |grown| - a
    requires forall p :: 0 <= p < |voted| ==>
        && voted[p].word == grown[a..][p].word
        && voted[p].labels == grown[a..][p].labels + CoveringVotes(Windows(ws, cfg)[k..e], oracle, cfg.Stride(), p)
    ensures forall q :: 0 <= q < |voted| ==> a + q < |Voted(ws, cfg, oracle, e)| && voted[q] == Voted(ws, cfg, oracle, e)[a + q]
  {
    var le := LedgerLength(e, |ws|, cfg);
    assert |grown| == le == |Voted(ws, cfg, oracle, e)| by {
      VotedLength(ws, cfg, oracle, k);
      VotedLength(ws, cfg, oracle, e);
    }
    GrownEntries(ws, cfg, oracle, k, e, grown);
    AfterEntries(ws, cfg, oracle, k, e, a, |voted|);
    MergeEntries(grown, Voted(ws, cfg, oracle, e), voted, a, ws[..le],
      EarlyVotes(ws, cfg, oracle, k, le), LateVotes(ws, cfg, oracle, k, e, |voted|));
  }

  /** The votes of the first `k` windows at each of the first `n` positions. */
  function EarlyVotes(ws: seq<string>, cfg: Config, oracle: Oracle, k: nat, n: nat): (vs: seq<seq<Label>>)
    requires cfg.Valid() && k <= |Windows(ws, cfg)|
    ensures |vs| == n
  {
    seq(n, p requires 0 <= p < n => CoveringVotes(Windows(ws, cfg)[..k], oracle, cfg.Stride(), p))
  }

  /** The votes of windows `k` up to `e` at each of the first `n` positions
      counted from window `k`'s stride start. */
  function LateVotes(ws: seq<string>, cfg: Config, oracle: Oracle, k: nat, e: nat, n: nat): (vs: seq<seq<Label>>)
    requires cfg.Valid() && k <= e <= |Windows(ws, cfg)|
    ensures |vs| == n
  {
    seq(n, q requires 0 <= q < n => CoveringVotes(Windows(ws, cfg)[k..e], oracle, cfg.Stride(), q))
  }

  /** Every entry of the grown ledger holds its word with the votes of the
      first `k` windows. */
  lemma GrownEntries(ws: seq<string>, cfg: Config, oracle: Oracle, k: nat, e: nat, grown: seq<WordPrediction>)
    requires cfg.Valid() && Faithful(oracle)
    requires k <= FullWindows(|ws|, cfg) && k <= e <= |Windows(ws, cfg)|
    requires LedgerLength(k, |ws|, cfg) <= LedgerLength(e, |ws|, cfg)
    requires grown == Voted(ws, cfg, oracle, k) + InitPredictions(ws[LedgerLength(k, |ws|, cfg)..LedgerLength(e, |ws|, cfg)])
    ensures var le := LedgerLength(e, |ws|, cfg);
      forall p :: 0 <= p < le ==> p < |grown| && grown[p] == WordPrediction(ws[..le][p], EarlyVotes(ws, cfg, oracle, k, le)[p])
  {
    var le := LedgerLength(e, |ws|, cfg);
    forall p | 0 <= p < le
      ensures p < |grown| && grown[p] == WordPrediction(ws[..le][p], EarlyVotes(ws, cfg, oracle, k, le)[p])
    {
      GrownAt(ws, cfg, oracle, k, e, grown, p);
    }
  }

  /** Every entry of the ledger after `e` windows from window `k`'s stride
      start on holds its word with the votes of the first `k` windows and
      then those of the later ones. */
  lemma AfterEntries(ws: seq<string>, cfg: Config, oracle: Oracle, k: nat, e: nat, a: nat, n: nat)
    requires cfg.Valid() && k <= e <= |Windows(ws, cfg)| && a == k * cfg.Stride()
    requires a + n == LedgerLength(e, |ws|, cfg)
    ensures var le := LedgerLength(e, |ws|, cfg);
      forall p :: a <= p < le ==>
        (p < |Voted(ws, cfg, oracle, e)| && Voted(ws, cfg, oracle, e)[p]
          == WordPrediction(ws[..le][p], EarlyVotes(ws, cfg, oracle, k, le)[p] + LateVotes(ws, cfg, oracle, k, e, n)[p - a]))
  {
    var le := LedgerLength(e, |ws|, cfg);
    forall p | a <= p < le
      ensures p < |Voted(ws, cfg, oracle, e)| && Voted(ws, cfg, oracle, e)[p]
        == WordPrediction(ws[..le][p], EarlyVotes(ws, cfg, oracle, k, le)[p] + LateVotes(ws, cfg, oracle, k, e, n)[p - a])
    {
      MergeAt(ws, cfg, oracle, k, e, a, p);
    }
    assert forall p :: a <= p < le ==>
      (p < |Voted(ws, cfg, oracle, e)| && Voted(ws, cfg, oracle, e)[p]
        == WordPrediction(ws[..le][p], EarlyVotes(ws, cfg, oracle, k, le)[p] + LateVotes(ws, cfg, oracle, k, e, n)[p - a]));
  }

  /** Merging later votes into the entries from `a` on: when each entry of
      `grown` holds its word with its earlier votes and each entry of `after`
      from `a` on holds its word with its earlier and then its later votes,
      the merged entries are those of `after`. */
  lemma MergeEntries(grown: seq<WordPrediction>, after: seq<WordPrediction>, voted: seq<WordPrediction>, a: nat,
                     words: seq<string>, early: seq<seq<Label>>, late: seq<seq<Label>>)
    requires |grown| == |after| == |words| == |early| && a <= |grown| && |voted| == |grown| - a == |late|
    requires forall p :: 0 <= p < |grown| ==> grown[p] == WordPrediction(words[p], early[p])
    requires forall p :: a <= p < |after| ==> after[p] == WordPrediction(words[p], early[p] + late[p - a])
    requires forall q :: 0 <= q < |voted| ==>
      voted[q].word == grown[a..][q].word && voted[q].labels == grown[a..][q].labels + late[q]
    ensures forall q :: 0 <= q < |voted| ==> voted[q] == after[a + q]
  {
    forall q | 0 <= q < |voted|
      ensures voted[q] == after[a + q]
    {
      assert grown[a..][q] == grown[a + q];
      assert a + q - a == q;
    }
  }

  lemma Splice<T>(xs: seq<T>, ys: seq<T>, a: nat, zs: seq<T>)
    requires a <= |xs| && |ys| == |xs| - a && |zs| == |xs|
    requires forall p :: 0 <= p < a ==> xs[p] == zs[p]
    requires forall q :: 0 <= q < |ys| ==> ys[q] == zs[a + q]
    ensures xs[..a] + ys == zs
  {
    var r := xs[..a] + ys;
    forall p | 0 <= p < |zs|
      ensures r[p] == zs[p]
    {
      if p >= a {
        assert r[p] == ys[p - a];
      }
    }
  }

  /** `process_buffer` when the carving loop cut at least one window and the
      vote succeeded. */
  lemma ProcessBufferCarved(st: Streamer, cfg: Config, oracle: Oracle, final: bool, start: nat, voted: seq<WordPrediction>)
    requires cfg.Valid()
    requires Carve(st.buffer, st.ledger, cfg, final).chunks != []
    requires start == (if |st.ledger| > 0 then |st.ledger| - cfg.overlap else 0)
    requires start <= |Carve(st.buffer, st.ledger, cfg, final).ledger|
    requires var c := Carve(st.buffer, st.ledger, cfg, final);
      Populate(c.ledger[start..], c.chunks, cfg, oracle) == Ok(voted)
    ensures var c := Carve(st.buffer, st.ledger, cfg, final);
      ProcessBuffer(st, cfg, oracle, final) == Ok(Processed(Streamer(c.buffer, c.ledger[..start] + voted), true))
  {
  }

  /** `process_buffer` from the state after `k` full windows when a window
      remains before the stop. */
  lemma ProcessCarves(ws: seq<string>, cfg: Config, oracle: Oracle, final: bool, k: nat)
    requires cfg.Valid() && Faithful(oracle)
    requires k <= FullWindows(|ws|, cfg) && k < Stop(ws, cfg, final)
    requires k * cfg.Stride() <= |ws|
    ensures ProcessBuffer(Streamer(ws[k * cfg.Stride()..], Voted(ws, cfg, oracle, k)), cfg, oracle, final)
      == Ok(Processed(Streamer(ws[Min(Stop(ws, cfg, final) * cfg.Stride(), |ws|)..], Voted(ws, cfg, oracle, Stop(ws, cfg, final))), true))
  {
    MulMono(0, k, cfg.Stride());
    var voted := CarvedTail(ws, cfg, oracle, final, k);
    TailStart(ws, cfg, oracle, k);
    ProcessBufferCarved(Streamer(ws[k * cfg.Stride()..], Voted(ws, cfg, oracle, k)), cfg, oracle, final, k * cfg.Stride(), voted);
    CarvedBuffer(ws, cfg, oracle, final, k);
  }

  /** `this_processing_started_at` on the ledger after `k` full windows is
      window `k`'s stride start. */
  lemma TailStart(ws: seq<string>, cfg: Config, oracle: Oracle, k: nat)
    requires cfg.Valid() && k <= FullWindows(|ws|, cfg) && k <= |Windows(ws, cfg)|
    ensures var before := Voted(ws, cfg, oracle, k);
      k * cfg.Stride() == if |before| > 0 then |before| - cfg.overlap else 0
  {
    LedgerStart(|ws|, cfg, k);
    VotedLength(ws, cfg, oracle, k);
  }

  /** Carving from window `k`'s stride start leaves the words from the stride
      start of the stop on in the buffer. */
  lemma CarvedBuffer(ws: seq<string>, cfg: Config, oracle: Oracle, final: bool, k: nat)
    requires cfg.Valid()
    requires k <= FullWindows(|ws|, cfg) && k < Stop(ws, cfg, final)
    requires k * cfg.Stride() <= |ws|
    ensures Carve(ws[k * cfg.Stride()..], Voted(ws, cfg, oracle, k), cfg, final).buffer
      == ws[Min(Stop(ws, cfg, final) * cfg.Stride(), |ws|)..]
  {
    MulMono(0, k, cfg.Stride());
    assert Min(k * cfg.Stride(), |ws|) == k * cfg.Stride();
    CarveFrom(ws, cfg, final, k, Voted(ws, cfg, oracle, k));
  }

  /** The windows `process_buffer` carves from the state after `k` full
      windows, voted on the ledger from `k`'s stride start, complete the
      ledger after every window up to the stop. */
  lemma CarvedTail(ws: seq<string>, cfg: Config, oracle: Oracle, final: bool, k: nat) returns (voted: seq<WordPrediction>)
    requires cfg.Valid() && Faithful(oracle)
    requires k <= FullWindows(|ws|, cfg) && k < Stop(ws, cfg, final)
    requires k * cfg.Stride() <= |ws|
    ensures var c := Carve(ws[k * cfg.Stride()..], Voted(ws, cfg, oracle, k), cfg, final);
      && c.chunks != []
      && k * cfg.Stride() <= |c.ledger|
      && Populate(c.ledger[k * cfg.Stride()..], c.chunks, cfg, oracle) == Ok(voted)
      && c.ledger[..k * cfg.Stride()] + voted == Voted(ws, cfg, oracle, Stop(ws, cfg, final))
  {
    var s := cfg.Stride();
    var n := |ws|;
    var e := Stop(ws, cfg, final);
    var before := Voted(ws, cfg, oracle, k);
    var lk := LedgerLength(k, n, cfg);
    var le := LedgerLength(e, n, cfg);
    var a := k * s;
    assert a <= lk <= le && Min(a, n) == a && |before| == lk by {
      LedgerStart(n, cfg, k);
      CarveFrom(ws, cfg, final, k, before);
      VotedLength(ws, cfg, oracle, k);
    }
    var grown := before + InitPredictions(ws[lk..le]);
    var cut := Carve(ws[a..], before, cfg, final);
    assert cut.chunks == Windows(ws, cfg)[k..e] && cut.ledger == grown by {
      CarveFrom(ws, cfg, final, k, before);
    }
    var tail := grown[a..];
    assert |grown| == le && Words(tail) == ws[a..le] by {
      WordsAppend(before, InitPredictions(ws[lk..le]));
      SliceJoin(ws, 0, lk, le);
      assert Words(grown) == ws[..le];
    }
    assert Placed(tail, Windows(ws, cfg)[k..e], s) by {
      TailPlaced(ws, cfg, k, e, tail);
    }
    PopulateVotes(tail, Windows(ws, cfg)[k..e], cfg, oracle);
    voted := Populate(tail, Windows(ws, cfg)[k..e], cfg, oracle).value;
    assert grown[..a] + voted == Voted(ws, cfg, oracle, e) by {
      MergeVotes(ws, cfg, oracle, k, e, voted);
    }
  }

  /** `process_buffer` from the state after `k` full windows: it carves and
      votes every window up to the stop, reports whether there was one, and
      never faults under a faithful model. */
  lemma ProcessFrom(ws: seq<string>, cfg: Config, oracle: Oracle, final: bool, k: nat)
    requires cfg.Valid() && Faithful(oracle)
    requires k <= FullWindows(|ws|, cfg)
    ensures k <= |Windows(ws, cfg)| && k * cfg.Stride() <= |ws|
    ensures ProcessBuffer(Streamer(ws[k * cfg.Stride()..], Voted(ws, cfg, oracle, k)), cfg, oracle, final)
      == Ok(Processed(Streamer(ws[Min(Stop(ws, cfg, final) * cfg.Stride(), |ws|)..], Voted(ws, cfg, oracle, Stop(ws, cfg, final))),
                      k < Stop(ws, cfg, final)))
  {
    var s := cfg.Stride();
    var n := |ws|;
    var e := Stop(ws, cfg, final);
    FullWindowsAreWindows(ws, cfg);
    MulMono(k, FullWindows(n, cfg), s);
    if k == e {
      var before := Voted(ws, cfg, oracle, k);
      LedgerStart(n, cfg, k);
      CarveFrom(ws, cfg, final, k, before);
      var lk := LedgerLength(k, n, cfg);
      assert ws[lk..lk] == [];
      assert before + InitPredictions([]) == before;
    } else {
      ProcessCarves(ws, cfg, oracle, final, k);
    }
  }

  /** A longer word list has at least as many full windows. */
  lemma FullWindowsMono(n: nat, n': nat, cfg: Config)
    requires cfg.Valid() && n <= n'
    ensures FullWindows(n, cfg) <= FullWindows(n', cfg)
  {
    var k := FullWindows(n, cfg);
    if k > 0 {
      FullWindowsAt(n, cfg, k - 1);
      FullWindowsAt(n', cfg, k - 1);
    }
  }

  /** Words streamed in later change neither the full windows already cut
      nor the votes they cast. */
  lemma VotedExtend(ws: seq<string>, more: seq<string>, cfg: Config, oracle: Oracle, k: nat)
    requires cfg.Valid() && k <= FullWindows(|ws|, cfg)
    ensures k <= FullWindows(|ws + more|, cfg) && k <= |Windows(ws, cfg)| && k <= |Windows(ws + more, cfg)|
    ensures LedgerLength(k, |ws|, cfg) == LedgerLength(k, |ws + more|, cfg)
    ensures Windows(ws, cfg)[..k] == Windows(ws + more, cfg)[..k]
    ensures Voted(ws, cfg, oracle, k) == Voted(ws + more, cfg, oracle, k)
  {
    var ws' := ws + more;
    FullWindowsMono(|ws|, |ws'|, cfg);
    FullWindowsAreWindows(ws, cfg);
    FullWindowsAreWindows(ws', cfg);
    assert LedgerLength(k, |ws|, cfg) == LedgerLength(k, |ws'|, cfg) by {
      LedgerStart(|ws|, cfg, k);
    }
    assert Windows(ws, cfg)[..k] == Windows(ws', cfg)[..k] by {
      forall j | 0 <= j < k
        ensures Windows(ws, cfg)[j] == Windows(ws', cfg)[j]
      {
        FullWindowExtends(ws, more, cfg, j);
      }
    }
    var l := LedgerLength(k, |ws|, cfg);
    assert ws[..l] == ws'[..l];
  }

  /** A full window is unchanged by words streamed in after it. */
  lemma FullWindowExtends(ws: seq<string>, more: seq<string>, cfg: Config, j: nat)
    requires cfg.Valid() && j < FullWindows(|ws|, cfg)
    ensures j < |Windows(ws, cfg)| && j < |Windows(ws + more, cfg)|
    ensures Windows(ws, cfg)[j] == Windows(ws + more, cfg)[j]
  {
    var s := cfg.Stride();
    var a := j * s;
    FullWindowsAt(|ws|, cfg, j);
    ChunksFromAt(ws, 0, cfg.chunkSize, s, j);
    ChunksFromAt(ws + more, 0, cfg.chunkSize, s, j);
    MulMono(0, j, s);
    SliceOfPrefix(ws, more, a, a + cfg.chunkSize);
  }

  lemma SliceOfPrefix<T>(xs: seq<T>, ys: seq<T>, a: nat, b: nat)
    requires a <= b <= |xs|
    ensures xs[a..Min(b, |xs|)] == (xs + ys)[a..Min(b, |xs + ys|)]
  {
  }

  /** The empty stream: the state `__init__` and `clear` leave. */
  lemma FreshIsExpected(cfg: Config, oracle: Oracle)
    requires cfg.Valid()
    ensures Expected([], cfg, oracle) == Fresh
  {
  }

  /** `get_result`'s filter keeps the entries from `i` on that pass its test,
      and when exactly those before `t` pass, it keeps that run. */
  lemma {:induction false} KeepSettledPrefix(ledger: seq<WordPrediction>, counts: seq<nat>, i: nat, t: nat)
    requires i <= |ledger| <= |counts| && t <= |ledger|
    requires forall p :: i <= p < |ledger| ==> (|ledger[p].labels| == counts[p] <==> p < t)
    ensures KeepSettled(ledger, counts, i) == if i <= t then ledger[i..t] else []
    decreases |ledger| - i
  {
    if i < |ledger| {
      KeepSettledPrefix(ledger, counts, i + 1, t);
      if i < t {
        assert ledger[i..t] == [ledger[i]] + ledger[i + 1..t];
      }
    }
  }

  /** A run of consecutive integers holds each of them once. */
  lemma {:induction false} CountOfRun(xs: seq<nat>, a: int, p: nat)
    requires forall i :: 0 <= i < |xs| ==> xs[i] == a + i
    ensures CountOf(xs, p) == if a <= p < a + |xs| then 1 else 0
    decreases |xs|
  {
    if |xs| > 0 {
      CountOfRun(xs[1..], a + 1, p);
    }
  }

  /** Counting occurrences in the windows of `range(n)` counts the windows
      covering each index. */
  lemma {:induction false} OccurrencesOfRange(n: nat, start: nat, cfg: Config, p: nat)
    requires cfg.Valid()
    ensures Occurrences(ChunksFrom(Range(n), start, cfg.chunkSize, cfg.Stride()), p)
      == Coverage(ChunksFrom(Range(n), start, cfg.chunkSize, cfg.Stride()), cfg.Stride(), p - start)
    decreases n - start
  {
    var cs := ChunksFrom(Range(n), start, cfg.chunkSize, cfg.Stride());
    if start < n {
      var first := Range(n)[start..Min(start + cfg.chunkSize, n)];
      assert cs[0] == first;
      assert cs[1..] == ChunksFrom(Range(n), start + cfg.Stride(), cfg.chunkSize, cfg.Stride());
      CountOfRun(first, start, p);
      OccurrencesOfRange(n, start + cfg.Stride(), cfg, p);
    }
  }

  /** `final_num_preds`: for an index of a list holding a full window, the
      number of one-shot windows that cover it. */
  lemma SettledCountsAt(n: nat, cfg: Config, p: nat)
    requires cfg.Valid() && cfg.chunkSize <= n && p < n
    ensures SettledCounts(n, cfg)[p] == CoverFrom(p, 0, cfg.chunkSize, cfg.Stride())
  {
    OccurrencesOfRange(n, 0, cfg, p);
    CoverageOfChunksFrom(Range(n), 0, cfg.chunkSize, cfg.Stride(), p);
  }

  /** Every entry of `final_num_preds`: the strided full windows covering `p`
      when the ledger holds a full window, the single whole-ledger window for a
      shorter ledger, and no window at all past the ledger's end. */
  lemma SettledCountsValue(n: nat, cfg: Config, p: nat)
    requires cfg.Valid() && p < n + cfg.chunkSize
    ensures SettledCounts(n, cfg)[p] ==
      if n <= p then 0
      else if cfg.chunkSize <= n then CoverFrom(p, 0, cfg.chunkSize, cfg.Stride())
      else 1
  {
    if cfg.chunkSize <= n {
      OccurrencesOfRange(n, 0, cfg, p);
      if p < n {
        CoverageOfChunksFrom(Range(n), 0, cfg.chunkSize, cfg.Stride(), p);
      } else {
        CoverageBeyond(Range(n), 0, cfg.chunkSize, cfg.Stride(), p);
      }
    } else {
      var cs := Chunks(Range(n), cfg);
      assert cs == [Range(n)];
      assert Occurrences(cs, p) == CountOf(Range(n), p) + Occurrences(cs[1..], p);
      CountOfRun(Range(n), 0, p);
    }
  }

  /** The votes a ledger entry holds after the full windows: all the windows
      that will ever cover it, less those starting after the last full one. */
  lemma VotesSoFar(ws: seq<string>, cfg: Config, oracle: Oracle, p: nat)
    requires cfg.Valid() && Faithful(oracle)
    requires p < LedgerLength(FullWindows(|ws|, cfg), |ws|, cfg)
    ensures FullWindows(|ws|, cfg) <= |Windows(ws, cfg)|
    ensures |Voted(ws, cfg, oracle, FullWindows(|ws|, cfg))[p].labels|
      + CoverFrom(p, FullWindows(|ws|, cfg) * cfg.Stride(), cfg.chunkSize, cfg.Stride())
      == CoverFrom(p, 0, cfg.chunkSize, cfg.Stride())
  {
    var k := FullWindows(|ws|, cfg);
    FullWindowsAreWindows(ws, cfg);
    var full := Windows(ws, cfg)[..k];
    assert Voted(ws, cfg, oracle, k)[p].labels == CoveringVotes(full, oracle, cfg.Stride(), p);
    FullVotes(full, oracle, cfg.chunkSize, cfg.Stride(), p);
  }

  /** Full windows cast at a position as many votes as the unbounded count
      has windows before the next start. */
  lemma FullVotes(full: seq<seq<string>>, oracle: Oracle, size: nat, stride: nat, p: int)
    requires Faithful(oracle) && stride > 0
    requires forall j :: 0 <= j < |full| ==> |full[j]| == size
    ensures |CoveringVotes(full, oracle, stride, p)| + CoverFrom(p, |full| * stride, size, stride)
      == CoverFrom(p, 0, size, stride)
  {
    CoveringVotesCount(full, oracle, stride, p);
    CoverageFullWindows(full, 0, size, stride, p);
  }

  /** `get_result`'s settledness filter keeps exactly the ledger words before
      the stride start after the last full window: those no window still to
      come can cover. */
  lemma SettledFilter(ws: seq<string>, cfg: Config, oracle: Oracle)
    requires cfg.Valid() && Faithful(oracle)
    ensures var st := Expected(ws, cfg, oracle);
      && FullWindows(|ws|, cfg) * cfg.Stride() <= |st.ledger|
      && KeepSettled(st.ledger, SettledCounts(|st.ledger|, cfg), 0) == st.ledger[..FullWindows(|ws|, cfg) * cfg.Stride()]
  {
    var k := FullWindows(|ws|, cfg);
    var ledger := Expected(ws, cfg, oracle).ledger;
    var t := k * cfg.Stride();
    LedgerStart(|ws|, cfg, k);
    var counts := SettledCounts(|ledger|, cfg);
    forall p | 0 <= p < |ledger|
      ensures |ledger[p].labels| == counts[p] <==> p < t
    {
      SettledAt(ws, cfg, oracle, ledger, k, t, counts, p);
    }
    KeepSettledPrefix(ledger, counts, 0, t);
  }

  /** One entry of `get_result`'s settledness filter: an entry of the ledger
      has all the votes it will ever get exactly when it lies before the
      stride start after the last full window. */
  lemma SettledAt(ws: seq<string>, cfg: Config, oracle: Oracle, ledger: seq<WordPrediction>, k: nat, t: nat,
                  counts: seq<nat>, p: nat)
    requires cfg.Valid() && Faithful(oracle)
    requires ledger == Expected(ws, cfg, oracle).ledger && k == FullWindows(|ws|, cfg) && t == k * cfg.Stride()
    requires counts == SettledCounts(|ledger|, cfg) && p < |ledger|
    ensures |ledger[p].labels| == counts[p] <==> p < t
  {
    FullWindowsAreWindows(ws, cfg);
    LedgerStart(|ws|, cfg, k);
    var l := LedgerLength(k, |ws|, cfg);
    assert |ledger| == |Words(ledger)| == l;
    MulMono(0, k - 1, cfg.Stride());
    assert cfg.chunkSize <= l;
    assert ledger == Voted(ws, cfg, oracle, k);
    VotesSoFar(ws, cfg, oracle, p);
    SettledCountsAt(|ledger|, cfg, p);
    CoverFromZero(p, t, cfg.chunkSize, cfg.Stride());
  }

  /** The settled part of the ledger after the words `ws`: the entries
      before the stride start after the last full window, which `__call__`
      reports. */
  function Settled(ws: seq<string>, cfg: Config, oracle: Oracle): (preds: seq<WordPrediction>)
    requires cfg.Valid()
    ensures |preds| == FullWindows(|ws|, cfg) * cfg.Stride()
    ensures Words(preds) == ws[..FullWindows(|ws|, cfg) * cfg.Stride()]
  {
    var k := FullWindows(|ws|, cfg);
    LedgerStart(|ws|, cfg, k);
    var ledger := Expected(ws, cfg, oracle).ledger;
    assert Words(ledger[..k * cfg.Stride()]) == Words(ledger)[..k * cfg.Stride()];
    ledger[..k * cfg.Stride()]
  }

  /** The ledger `finalize` reconstructs for the words `ws`: every word, with
      the votes of every window the stream cuts. */
  function FinalLedger(ws: seq<string>, cfg: Config, oracle: Oracle): (preds: seq<WordPrediction>)
    requires cfg.Valid()
    ensures Words(preds) == ws
  {
    VotedLedger(ws, Windows(ws, cfg), oracle, cfg.Stride())
  }

  /** Every settled word holds at least one vote, so its text can be
      reconstructed. */
  lemma SettledVoted(ws: seq<string>, cfg: Config, oracle: Oracle)
    requires cfg.Valid() && Faithful(oracle)
    ensures forall p :: 0 <= p < |Settled(ws, cfg, oracle)| ==> |Settled(ws, cfg, oracle)[p].labels| >= 1
    ensures CombinePredictions(Settled(ws, cfg, oracle)).Ok?
  {
    var k := FullWindows(|ws|, cfg);
    var t := k * cfg.Stride();
    var settled := Settled(ws, cfg, oracle);
    LedgerStart(|ws|, cfg, k);
    forall p | 0 <= p < |settled|
      ensures |settled[p].labels| >= 1
    {
      VotesSoFar(ws, cfg, oracle, p);
      CoverFromZero(p, t, cfg.chunkSize, cfg.Stride());
      CoverFromPositive(p, 0, cfg.chunkSize, cfg.Stride());
    }
    DecideSpec(settled);
  }

  /** Once every window is carved, the ledger is the final one. */
  lemma VotedAll(ws: seq<string>, cfg: Config, oracle: Oracle)
    requires cfg.Valid()
    ensures Voted(ws, cfg, oracle, |Windows(ws, cfg)|) == FinalLedger(ws, cfg, oracle)
  {
    LedgerLengthAll(ws, cfg);
    assert ws[..|ws|] == ws;
    assert Windows(ws, cfg)[..|Windows(ws, cfg)|] == Windows(ws, cfg);
  }

  /** Every word of the final ledger holds at least one vote, so the final
      text can be reconstructed. */
  lemma FinalVoted(ws: seq<string>, cfg: Config, oracle: Oracle)
    requires cfg.Valid() && Faithful(oracle)
    ensures forall p :: 0 <= p < |ws| ==>
      |FinalLedger(ws, cfg, oracle)[p].labels| == CoverFrom(p, 0, cfg.chunkSize, cfg.Stride()) >= 1
    ensures CombinePredictions(FinalLedger(ws, cfg, oracle)).Ok?
  {
    var ledger := FinalLedger(ws, cfg, oracle);
    forall p | 0 <= p < |ws|
      ensures |ledger[p].labels| == CoverFrom(p, 0, cfg.chunkSize, cfg.Stride()) >= 1
    {
      CoveringVotesCount(Windows(ws, cfg), oracle, cfg.Stride(), p);
      CoverageOfChunksFrom(ws, 0, cfg.chunkSize, cfg.Stride(), p);
      CoverFromPositive(p, 0, cfg.chunkSize, cfg.Stride());
    }
    DecideSpec(ledger);
  }

  /** `__call__` on the state after the words `ws`: the state after the
      words `ws + more`, and the text of the settled words exactly when a new
      full window was carved. Under a faithful model it never faults. */
  lemma CallSpec(ws: seq<string>, more: seq<string>, cfg: Config, oracle: Oracle)
    requires cfg.Valid() && Faithful(oracle)
    ensures CombinePredictions(Settled(ws + more, cfg, oracle)).Ok?
    ensures Call(Expected(ws, cfg, oracle), more, cfg, oracle)
      == Ok(Reply(Expected(ws + more, cfg, oracle), Report(ws, more, cfg, oracle)))
  {
    var ws' := ws + more;
    var st := Expected(ws, cfg, oracle);
    var st' := Expected(ws', cfg, oracle);
    ProcessAppended(ws, more, cfg, oracle);
    FullWindowsMono(|ws|, |ws'|, cfg);
    SettledVoted(ws', cfg, oracle);
    var pr := ProcessBuffer(Streamer(st.buffer + more, st.ledger), cfg, oracle, false);
    assert pr.Ok? && pr.value.state == st';
    if FullWindows(|ws'|, cfg) != FullWindows(|ws|, cfg) {
      SettledFilter(ws', cfg, oracle);
      var text := CombinePredictions(Settled(ws', cfg, oracle));
      assert GetResult(st', cfg, false) == text;
      CallReports(st, more, cfg, oracle, st', true, text.value);
    } else {
      CallReports(st, more, cfg, oracle, st', false, "");
    }
  }

  /** `__call__` once `process_buffer` and `get_result` are known. */
  lemma CallReports(st: Streamer, more: seq<string>, cfg: Config, oracle: Oracle, st': Streamer, carved: bool, text: string)
    requires cfg.Valid()
    requires ProcessBuffer(Streamer(st.buffer + more, st.ledger), cfg, oracle, false) == Ok(Processed(st', carved))
    requires carved ==> GetResult(st', cfg, false) == Ok(text)
    ensures Call(st, more, cfg, oracle) == Ok(Reply(st', if carved then Some(text) else None))
  {
  }

  /** Appending a segment to the buffer of the expected state gives the
      state after the same full windows of the longer word list. */
  lemma ExtendedBuffer(ws: seq<string>, more: seq<string>, cfg: Config, oracle: Oracle)
    requires cfg.Valid()
    ensures FullWindows(|ws|, cfg) <= FullWindows(|ws + more|, cfg)
    ensures FullWindows(|ws|, cfg) * cfg.Stride() <= |ws + more|
    ensures FullWindows(|ws|, cfg) <= |Windows(ws + more, cfg)|
    ensures var st := Expected(ws, cfg, oracle);
      Streamer(st.buffer + more, st.ledger)
        == Streamer((ws + more)[FullWindows(|ws|, cfg) * cfg.Stride()..], Voted(ws + more, cfg, oracle, FullWindows(|ws|, cfg)))
  {
    ExtendedLedger(ws, more, cfg, oracle);
    var t := ExpectedBuffer(ws, cfg, oracle);
    DropAppend(ws, more, t);
  }

  /** The buffer of the expected state: the words from the stride start
      after the last full window. */
  lemma ExpectedBuffer(ws: seq<string>, cfg: Config, oracle: Oracle) returns (t: nat)
    requires cfg.Valid()
    ensures t == FullWindows(|ws|, cfg) * cfg.Stride() && t <= |ws|
    ensures Expected(ws, cfg, oracle).buffer == ws[t..]
  {
    MulMono(0, FullWindows(|ws|, cfg), cfg.Stride());
    t := FullWindows(|ws|, cfg) * cfg.Stride();
  }

  lemma DropAppend<T>(xs: seq<T>, ys: seq<T>, a: nat)
    requires a <= |xs|
    ensures xs[a..] + ys == (xs + ys)[a..]
  {
  }

  /** Words streamed in later leave the ledger of the expected state as the
      votes of the same full windows of the longer word list. */
  lemma ExtendedLedger(ws: seq<string>, more: seq<string>, cfg: Config, oracle: Oracle)
    requires cfg.Valid()
    ensures FullWindows(|ws|, cfg) <= FullWindows(|ws + more|, cfg)
    ensures FullWindows(|ws|, cfg) <= |Windows(ws + more, cfg)|
    ensures Expected(ws, cfg, oracle).ledger == Voted(ws + more, cfg, oracle, FullWindows(|ws|, cfg))
  {
    VotedExtend(ws, more, cfg, oracle, FullWindows(|ws|, cfg));
  }

  /** The expected state is the one the carving loop leaves at the stop
      while the stream runs. */
  lemma ExpectedAtStop(ws: seq<string>, cfg: Config, oracle: Oracle)
    requires cfg.Valid()
    ensures Expected(ws, cfg, oracle)
      == Streamer(ws[Min(Stop(ws, cfg, false) * cfg.Stride(), |ws|)..], Voted(ws, cfg, oracle, Stop(ws, cfg, false)))
  {
    assert Min(FullWindows(|ws|, cfg) * cfg.Stride(), |ws|) == FullWindows(|ws|, cfg) * cfg.Stride();
  }

  /** `process_buffer` after the segment's words joined the buffer. */
  lemma ProcessAppended(ws: seq<string>, more: seq<string>, cfg: Config, oracle: Oracle)
    requires cfg.Valid() && Faithful(oracle)
    ensures var st := Expected(ws, cfg, oracle);
      ProcessBuffer(Streamer(st.buffer + more, st.ledger), cfg, oracle, false)
        == Ok(Processed(Expected(ws + more, cfg, oracle), FullWindows(|ws|, cfg) < FullWindows(|ws + more|, cfg)))
  {
    ExtendedBuffer(ws, more, cfg, oracle);
    ProcessFrom(ws + more, cfg, oracle, false, FullWindows(|ws|, cfg));
    ExpectedAtStop(ws + more, cfg, oracle);
  }

  /** `finalize` on the state after the words `ws`: the text of the final
      ledger, and the fresh state. Under a faithful model it never faults. */
  lemma FinalizeSpec(ws: seq<string>, cfg: Config, oracle: Oracle)
    requires cfg.Valid() && Faithful(oracle)
    ensures CombinePredictions(FinalLedger(ws, cfg, oracle)).Ok?
    ensures Finalize(Expected(ws, cfg, oracle), cfg, oracle)
      == Ok(Finished(CombinePredictions(FinalLedger(ws, cfg, oracle)).value, Fresh))
  {
    var k := FullWindows(|ws|, cfg);
    ProcessFrom(ws, cfg, oracle, true, k);
    VotedAll(ws, cfg, oracle);
    FinalVoted(ws, cfg, oracle);
  }

  /** An entry before the stride start after the full windows of `ws` is
      never voted on again, however the stream continues and whether or not
      it is finalized. */
  lemma KeptEntry(ws: seq<string>, more: seq<string>, cfg: Config, oracle: Oracle, e: nat, p: nat)
    requires cfg.Valid() && Faithful(oracle)
    requires FullWindows(|ws|, cfg) <= e <= |Windows(ws + more, cfg)|
    requires p < FullWindows(|ws|, cfg) * cfg.Stride()
    ensures FullWindows(|ws|, cfg) <= |Windows(ws, cfg)|
    ensures p < |Voted(ws + more, cfg, oracle, e)| && p < |Voted(ws, cfg, oracle, FullWindows(|ws|, cfg))|
    ensures Voted(ws + more, cfg, oracle, e)[p] == Voted(ws, cfg, oracle, FullWindows(|ws|, cfg))[p]
  {
    var ws' := ws + more;
    var k := FullWindows(|ws|, cfg);
    VotedExtend(ws, more, cfg, oracle, k);
    LedgerStart(|ws|, cfg, k);
    LedgerLengthMono(k, e, |ws'|, cfg);
    VotedKeeps(ws', cfg, oracle, k, e, p);
  }

  /** Non-retraction on the ledger: the settled entries after `ws` are the
      first entries of the settled ledger after any continuation `more`, and
      of the final ledger. */
  lemma SettledStays(ws: seq<string>, more: seq<string>, cfg: Config, oracle: Oracle)
    requires cfg.Valid() && Faithful(oracle)
    ensures |Settled(ws, cfg, oracle)| <= |Settled(ws + more, cfg, oracle)|
    ensures Settled(ws + more, cfg, oracle)[..|Settled(ws, cfg, oracle)|] == Settled(ws, cfg, oracle)
    ensures |Settled(ws, cfg, oracle)| <= |ws + more|
    ensures FinalLedger(ws + more, cfg, oracle)[..|Settled(ws, cfg, oracle)|] == Settled(ws, cfg, oracle)
  {
    var ws' := ws + more;
    var k := FullWindows(|ws|, cfg);
    var k' := FullWindows(|ws'|, cfg);
    var m' := |Windows(ws', cfg)|;
    var t := k * cfg.Stride();
    FullWindowsMono(|ws|, |ws'|, cfg);
    FullWindowsAreWindows(ws', cfg);
    MulMono(k, k', cfg.Stride());
    VotedAll(ws', cfg, oracle);
    var settled := Settled(ws, cfg, oracle);
    var later := Settled(ws', cfg, oracle);
    var final := FinalLedger(ws', cfg, oracle);
    forall p | 0 <= p < t
      ensures later[p] == settled[p] && final[p] == settled[p]
    {
      KeptEntry(ws, more, cfg, oracle, k', p);
      KeptEntry(ws, more, cfg, oracle, m', p);
    }
  }

  /** Non-retraction on the text, as the streamer's docstrings promise: the
      text reported after `ws` is a prefix of every text reported later and
      of the text `finalize` returns. */
  lemma ReportsArePrefixes(ws: seq<string>, more: seq<string>, cfg: Config, oracle: Oracle)
    requires cfg.Valid() && Faithful(oracle)
    ensures CombinePredictions(Settled(ws, cfg, oracle)).Ok?
    ensures CombinePredictions(Settled(ws + more, cfg, oracle)).Ok?
    ensures CombinePredictions(FinalLedger(ws + more, cfg, oracle)).Ok?
    ensures var part := CombinePredictions(Settled(ws, cfg, oracle)).value;
      var later := CombinePredictions(Settled(ws + more, cfg, oracle)).value;
      |part| <= |later| && later[..|part|] == part
    ensures var part := CombinePredictions(Settled(ws, cfg, oracle)).value;
      var final := CombinePredictions(FinalLedger(ws + more, cfg, oracle)).value;
      |part| <= |final| && final[..|part|] == part
  {
    var m := |Settled(ws, cfg, oracle)|;
    SettledVoted(ws, cfg, oracle);
    SettledVoted(ws + more, cfg, oracle);
    FinalVoted(ws + more, cfg, oracle);
    SettledStays(ws, more, cfg, oracle);
    CombinePredictionsPrefix(Settled(ws + more, cfg, oracle), m);
    CombinePredictionsPrefix(FinalLedger(ws + more, cfg, oracle), m);
  }

  /** For a stream holding at least one full window, or no more words than a
      stride, `finalize` returns what `punctuate` returns for the same
      words. */
  lemma FinalizeMatchesPunctuate(ws: seq<string>, cfg: Config, oracle: Oracle)
    requires cfg.Valid() && Faithful(oracle)
    requires |ws| >= cfg.chunkSize || |ws| <= cfg.Stride()
    ensures PunctuateWords(ws, cfg, oracle).Ok?
    ensures Finalize(Expected(ws, cfg, oracle), cfg, oracle) == Ok(Finished(PunctuateWords(ws, cfg, oracle).value, Fresh))
  {
    FinalizeSpec(ws, cfg, oracle);
    PunctuateWordsOk(ws, cfg, oracle);
    assert FinalLedger(ws, cfg, oracle) == VotedLedger(ws, Chunks(ws, cfg), oracle, cfg.Stride()) by {
      if |ws| == 0 {
        assert |FinalLedger(ws, cfg, oracle)| == 0;
      } else if |ws| < cfg.chunkSize {
        ShortWindows(ws, cfg);
      }
    }
  }

  /** A stream of no more words than a stride is cut into one window. */
  lemma ShortWindows(ws: seq<string>, cfg: Config)
    requires cfg.Valid() && 0 < |ws| <= cfg.Stride()
    ensures Windows(ws, cfg) == [ws] == Chunks(ws, cfg)
  {
    ChunksFromAt(ws, 0, cfg.chunkSize, cfg.Stride(), 0);
    ChunksFromAt(ws, 0, cfg.chunkSize, cfg.Stride(), 1);
    assert ws[0..|ws|] == ws;
  }

  /** A stream of more than one stride of words but at most two, and shorter
      than a window, is cut into two windows: the whole list, which is also
      the only window `punctuate` cuts, and the list from the stride on. */
  lemma TwoStrideWindows(ws: seq<string>, cfg: Config)
    requires cfg.Valid() && cfg.Stride() < |ws| <= 2 * cfg.Stride() && |ws| < cfg.chunkSize
    ensures Windows(ws, cfg) == [ws, ws[cfg.Stride()..]]
    ensures Chunks(ws, cfg) == [ws]
  {
    var s := cfg.Stride();
    ChunksFromAt(ws, 0, cfg.chunkSize, s, 0);
    ChunksFromAt(ws, 0, cfg.chunkSize, s, 1);
    ChunksFromAt(ws, 0, cfg.chunkSize, s, 2);
    assert ws[0..|ws|] == ws;
  }

  /** In such a stream every word's first vote comes from the whole-list
      window, the vote `punctuate` gives it, and at most one more follows. */
  lemma TwoStrideVotes(ws: seq<string>, cfg: Config, oracle: Oracle, p: nat)
    requires cfg.Valid() && Faithful(oracle)
    requires cfg.Stride() < |ws| <= 2 * cfg.Stride() && |ws| < cfg.chunkSize
    requires p < |ws|
    ensures var first := VotedLedger(ws, Chunks(ws, cfg), oracle, cfg.Stride())[p].labels;
      var all := FinalLedger(ws, cfg, oracle)[p].labels;
      && |first| == 1
      && |all| >= 1
      && all[..1] == first
      && |all| <= 2
  {
    var s := cfg.Stride();
    TwoStrideWindows(ws, cfg);
    assert |Expand(oracle(ws))| == |WordsOf(Expand(oracle(ws)))| == |ws|;
    var w := Windows(ws, cfg);
    assert w[1..] == [ws[s..]] && w[1..][1..] == [];
    assert [ws][1..] == [];
    assert CoveringVotes(w[1..][1..], oracle, s, p - s - s) == [];
    assert CoveringVotes(w[1..], oracle, s, p - s) == Hit(ws[s..], oracle, p - s) + [];
    assert CoveringVotes(w, oracle, s, p) == Hit(ws, oracle, p) + Hit(ws[s..], oracle, p - s);
    assert CoveringVotes([ws], oracle, s, p) == Hit(ws, oracle, p);
  }

  /** In such a stream the final ledger and the ledger `punctuate` votes
      decide the same labels. */
  lemma TwoStrideDecide(ws: seq<string>, cfg: Config, oracle: Oracle)
    requires cfg.Valid() && Faithful(oracle)
    requires cfg.Stride() < |ws| <= 2 * cfg.Stride() && |ws| < cfg.chunkSize
    ensures Decide(FinalLedger(ws, cfg, oracle)).Ok?
    ensures Decide(FinalLedger(ws, cfg, oracle)) == Decide(VotedLedger(ws, Chunks(ws, cfg), oracle, cfg.Stride()))
  {
    var a := FinalLedger(ws, cfg, oracle);
    var b := VotedLedger(ws, Chunks(ws, cfg), oracle, cfg.Stride());
    forall k | 0 <= k < |a|
      ensures |a[k].labels| > 0 && |b[k].labels| > 0
      ensures Majority(a[k].labels) == Majority(b[k].labels)
    {
      TwoStrideVotes(ws, cfg, oracle, k);
      var x := b[k].labels[0];
      assert b[k].labels == [x] + [];
      assert a[k].labels == [x] + a[k].labels[1..];
      FirstOfTwoVotes(x, []);
      FirstOfTwoVotes(x, a[k].labels[1..]);
    }
    DecideAgree(a, b);
  }

  /** For a stream of more than one stride of words but at most two, and
      shorter than a window, `finalize` also returns what `punctuate` returns:
      a word's second vote can only tie its first, and the tie goes to the
      first. */
  lemma FinalizeMatchesPunctuateTwoStrides(ws: seq<string>, cfg: Config, oracle: Oracle)
    requires cfg.Valid() && Faithful(oracle)
    requires cfg.Stride() < |ws| <= 2 * cfg.Stride() && |ws| < cfg.chunkSize
    ensures PunctuateWords(ws, cfg, oracle).Ok?
    ensures Finalize(Expected(ws, cfg, oracle), cfg, oracle) == Ok(Finished(PunctuateWords(ws, cfg, oracle).value, Fresh))
  {
    FinalizeSpec(ws, cfg, oracle);
    PunctuateWordsOk(ws, cfg, oracle);
    var a := FinalLedger(ws, cfg, oracle);
    var b := VotedLedger(ws, Chunks(ws, cfg), oracle, cfg.Stride());
    assert CombinePredictions(a) == CombinePredictions(b) by {
      TwoStrideDecide(ws, cfg, oracle);
      assert Words(a) == Words(b);
    }
  }

  /** What `__call__` reports when the segment `more` follows the words `ws`:
      nothing when no new full window was carved, otherwise the text of the
      settled words. */
  function Report(ws: seq<string>, more: seq<string>, cfg: Config, oracle: Oracle): (out: Option<string>)
    requires cfg.Valid() && Faithful(oracle)
    ensures out.None? <==> FullWindows(|ws + more|, cfg) == FullWindows(|ws|, cfg)
  {
    SettledVoted(ws + more, cfg, oracle);
    if FullWindows(|ws + more|, cfg) == FullWindows(|ws|, cfg) then None
    else Some(CombinePredictions(Settled(ws + more, cfg, oracle)).value)
  }

  /** The words of the segments, in order. */
  function Flatten(segments: seq<seq<string>>): (ws: seq<string>)
    decreases |segments|
  {
    if |segments| == 0 then [] else segments[0] + Flatten(segments[1..])
  }

  lemma {:induction false} FlattenAppend(a: seq<seq<string>>, b: seq<seq<string>>)
    ensures Flatten(a + b) == Flatten(a) + Flatten(b)
    decreases |a|
  {
    if |a| == 0 {
      assert a + b == b;
    } else {
      assert (a + b)[1..] == a[1..] + b;
      FlattenAppend(a[1..], b);
    }
  }

  /** A caller's session: the state reached and what each `__call__`
      returned. */
  datatype Session = Session(state: Streamer, outputs: seq<Option<string>>)

  /** A caller streaming the segments in order through `__call__`. */
  function Feed(st: Streamer, segments: seq<seq<string>>, cfg: Config, oracle: Oracle): (r: Result<Session>)
    requires cfg.Valid()
    ensures r.Ok? ==> |r.value.outputs| == |segments|
    decreases |segments|
  {
    if |segments| == 0 then Ok(Session(st, []))
    else
      var reply :- Call(st, segments[0], cfg, oracle);
      var rest :- Feed(reply.state, segments[1..], cfg, oracle);
      Ok(Session(rest.state, [reply.output] + rest.outputs))
  }

  /** One call of a session, then the rest of it. */
  lemma FeedStep(st: Streamer, segments: seq<seq<string>>, cfg: Config, oracle: Oracle, reply: Reply, rest: Session)
    requires cfg.Valid() && |segments| > 0
    requires Call(st, segments[0], cfg, oracle) == Ok(reply)
    requires Feed(reply.state, segments[1..], cfg, oracle) == Ok(rest)
    ensures Feed(st, segments, cfg, oracle) == Ok(Session(rest.state, [reply.output] + rest.outputs))
  {
  }

  /** Streaming segments after the words `ws`: the state depends only on
      the words streamed, and each call reports for the words up to its
      segment. */
  lemma {:induction false} FeedSpec(st: Streamer, ws: seq<string>, segments: seq<seq<string>>, cfg: Config, oracle: Oracle)
    requires cfg.Valid() && Faithful(oracle)
    requires st == Expected(ws, cfg, oracle)
    ensures Feed(st, segments, cfg, oracle).Ok?
    ensures Feed(st, segments, cfg, oracle).value.state == Expected(ws + Flatten(segments), cfg, oracle)
    ensures forall i :: 0 <= i < |segments| ==>
      Feed(st, segments, cfg, oracle).value.outputs[i]
        == Report(ws + Flatten(segments[..i]), segments[i], cfg, oracle)
    decreases |segments|
  {
    if |segments| > 0 {
      var first := segments[0];
      var rest := segments[1..];
      var next := Expected(ws + first, cfg, oracle);
      CallSpec(ws, first, cfg, oracle);
      FeedSpec(next, ws + first, rest, cfg, oracle);
      var reply := Reply(next, Report(ws, first, cfg, oracle));
      var tail := Feed(next, rest, cfg, oracle).value;
      FeedStep(st, segments, cfg, oracle, reply, tail);
      assert Flatten(segments) == first + Flatten(rest);
      ConcatAssoc(ws, first, Flatten(rest));
      ShiftReports(ws, segments, cfg, oracle, tail.outputs);
    } else {
      assert ws + Flatten(segments) == ws;
    }
  }

  /** The reports of a session after its first call, seen from its start. */
  lemma ShiftReports(ws: seq<string>, segments: seq<seq<string>>, cfg: Config, oracle: Oracle, later: seq<Option<string>>)
    requires cfg.Valid() && Faithful(oracle) && |segments| > 0
    requires |later| == |segments| - 1
    requires forall i :: 0 <= i < |segments| - 1 ==>
      later[i] == Report((ws + segments[0]) + Flatten(segments[1..][..i]), segments[1..][i], cfg, oracle)
    ensures var outs := [Report(ws, segments[0], cfg, oracle)] + later;
      forall i :: 0 <= i < |segments| ==> outs[i] == Report(ws + Flatten(segments[..i]), segments[i], cfg, oracle)
  {
    var outs := [Report(ws, segments[0], cfg, oracle)] + later;
    forall i | 0 <= i < |segments|
      ensures outs[i] == Report(ws + Flatten(segments[..i]), segments[i], cfg, oracle)
    {
      if i == 0 {
        assert Flatten(segments[..0]) == [];
        assert ws + [] == ws;
      } else {
        FlattenShift(ws, segments, i);
        assert outs[i] == later[i - 1];
      }
    }
  }

  lemma FlattenShift(ws: seq<string>, segments: seq<seq<string>>, i: nat)
    requires 0 < i <= |segments|
    ensures (ws + segments[0]) + Flatten(segments[1..][..i - 1]) == ws + Flatten(segments[..i])
    ensures segments[1..][i - 1..] == segments[i..]
  {
    assert segments[..i] == [segments[0]] + segments[1..][..i - 1];
    FlattenAppend([segments[0]], segments[1..][..i - 1]);
    assert [segments[0]][1..] == [];
  }

  /** A whole stream from the fresh state: however the words are segmented,
      the session never faults, `finalize` returns the reconstruction of the
      final ledger of all the words and clears the streamer, and every text
      a call reported is a prefix of that final text. */
  lemma StreamSession(segments: seq<seq<string>>, cfg: Config, oracle: Oracle)
    requires cfg.Valid() && Faithful(oracle)
    ensures Feed(Fresh, segments, cfg, oracle).Ok?
    ensures CombinePredictions(FinalLedger(Flatten(segments), cfg, oracle)).Ok?
    ensures Finalize(Feed(Fresh, segments, cfg, oracle).value.state, cfg, oracle)
      == Ok(Finished(CombinePredictions(FinalLedger(Flatten(segments), cfg, oracle)).value, Fresh))
    ensures forall i :: 0 <= i < |segments| && Feed(Fresh, segments, cfg, oracle).value.outputs[i].Some? ==>
      var part := Feed(Fresh, segments, cfg, oracle).value.outputs[i].value;
      var final := CombinePredictions(FinalLedger(Flatten(segments), cfg, oracle)).value;
      |part| <= |final| && final[..|part|] == part
  {
    var session := FreshFeed(segments, cfg, oracle);
    assert Finalize(session.state, cfg, oracle)
        == Ok(Finished(CombinePredictions(FinalLedger(Flatten(segments), cfg, oracle)).value, Fresh)) by {
      FinalizeSpec(Flatten(segments), cfg, oracle);
    }
    SessionReports(segments, cfg, oracle, session.outputs);
  }

  /** A session from the fresh state ends in the expected state of all its
      words, each call reporting what `Report` says of the words before it. */
  lemma FreshFeed(segments: seq<seq<string>>, cfg: Config, oracle: Oracle) returns (session: Session)
    requires cfg.Valid() && Faithful(oracle)
    ensures Feed(Fresh, segments, cfg, oracle) == Ok(session)
    ensures session.state == Expected(Flatten(segments), cfg, oracle)
    ensures |session.outputs| == |segments|
    ensures forall i :: 0 <= i < |segments| ==>
      session.outputs[i] == Report([] + Flatten(segments[..i]), segments[i], cfg, oracle)
  {
    assert Fresh == Expected([], cfg, oracle) by {
      FreshIsExpected(cfg, oracle);
    }
    FeedSpec(Fresh, [], segments, cfg, oracle);
    session := Feed(Fresh, segments, cfg, oracle).value;
    EmptyConcat(Flatten(segments));
  }

  lemma EmptyConcat<T>(xs: seq<T>)
    ensures [] + xs == xs
  {
  }

  /** Every text a session from the fresh state reports is a prefix of the
      final text. */
  lemma SessionReports(segments: seq<seq<string>>, cfg: Config, oracle: Oracle, outs: seq<Option<string>>)
    requires cfg.Valid() && Faithful(oracle)
    requires |outs| == |segments|
    requires forall i :: 0 <= i < |segments| ==> outs[i] == Report([] + Flatten(segments[..i]), segments[i], cfg, oracle)
    ensures CombinePredictions(FinalLedger(Flatten(segments), cfg, oracle)).Ok?
    ensures forall i :: 0 <= i < |segments| && outs[i].Some? ==>
      var final := CombinePredictions(FinalLedger(Flatten(segments), cfg, oracle)).value;
      |outs[i].value| <= |final| && final[..|outs[i].value|] == outs[i].value
  {
    FinalizeSpec(Flatten(segments), cfg, oracle);
    forall i | 0 <= i < |segments| && outs[i].Some?
      ensures var final := CombinePredictions(FinalLedger(Flatten(segments), cfg, oracle)).value;
        |outs[i].value| <= |final| && final[..|outs[i].value|] == outs[i].value
    {
      ReportIsPrefix(segments, cfg, oracle, i);
    }
  }

  /** The report of call `i` is a prefix of the final text. */
  lemma ReportIsPrefix(segments: seq<seq<string>>, cfg: Config, oracle: Oracle, i: nat)
    requires cfg.Valid() && Faithful(oracle) && i < |segments|
    requires Report([] + Flatten(segments[..i]), segments[i], cfg, oracle).Some?
    ensures CombinePredictions(FinalLedger(Flatten(segments), cfg, oracle)).Ok?
    ensures var part := Report([] + Flatten(segments[..i]), segments[i], cfg, oracle).value;
      var final := CombinePredictions(FinalLedger(Flatten(segments), cfg, oracle)).value;
      |part| <= |final| && final[..|part|] == part
  {
    var before := Flatten(segments[..i]);
    var upTo := before + segments[i];
    var after := Flatten(segments[i + 1..]);
    assert [] + before == before;
    FlattenSplit(segments, i);
    ReportsArePrefixes(upTo, after, cfg, oracle);
  }

  lemma FlattenOne(x: seq<string>)
    ensures Flatten([x]) == x
  {
    assert [x][1..] == [];
  }

  lemma {:induction false} FlattenSplit(segments: seq<seq<string>>, i: nat)
    requires i < |segments|
    ensures (Flatten(segments[..i]) + segments[i]) + Flatten(segments[i + 1..]) == Flatten(segments)
  {
    var a := segments[..i];
    var b := [segments[i]];
    var c := segments[i + 1..];
    assert a + b + c == segments;
    FlattenAppend(a, b);
    FlattenOne(segments[i]);
    FlattenAppend(a + b, c);
  }

  /** After a carve the buffer starts with the last `overlap` words of the
      ledger, and while the stream runs the buffer holds less than a full
      window; the ledger holds the words carved so far, in order, once each. */
  lemma OverlapKept(ws: seq<string>, cfg: Config, oracle: Oracle)
    requires cfg.Valid()
    ensures var st := Expected(ws, cfg, oracle);
      && |st.buffer| < cfg.chunkSize
      && Words(st.ledger) == ws[..|st.ledger|]
      && (|st.ledger| > 0 ==>
            && |st.ledger| >= cfg.overlap
            && |st.buffer| >= cfg.overlap
            && st.buffer[..cfg.overlap] == Words(st.ledger)[|st.ledger| - cfg.overlap..])
  {
    var k := FullWindows(|ws|, cfg);
    var s := cfg.Stride();
    FullWindowsAt(|ws|, cfg, k);
    LedgerStart(|ws|, cfg, k);
    var st := Expected(ws, cfg, oracle);
    if k > 0 {
      FullWindowsAt(|ws|, cfg, k - 1);
      assert st.buffer[..cfg.overlap] == ws[k * s..k * s + cfg.overlap];
    }
  }

  /** Before the first full window `__call__` reports nothing, and the words
      wait in the buffer. */
  lemma NoReportBeforeFirstWindow(ws: seq<string>, more: seq<string>, cfg: Config, oracle: Oracle)
    requires cfg.Valid() && Faithful(oracle)
    requires |ws + more| < cfg.chunkSize
    ensures Expected(ws + more, cfg, oracle) == Streamer(ws + more, [])
    ensures Call(Expected(ws, cfg, oracle), more, cfg, oracle) == Ok(Reply(Streamer(ws + more, []), None))
  {
    CallSpec(ws, more, cfg, oracle);
  }

  /** `get_result` on an empty ledger reconstructs nothing. */
  lemma GetResultEmpty(buffer: seq<string>, cfg: Config, final: bool)
    requires cfg.Valid()
    ensures GetResult(Streamer(buffer, []), cfg, final) == Ok("")
  {
  }
}
