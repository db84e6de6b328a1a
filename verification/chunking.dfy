/** Windowing: cutting a word list into overlapping windows of `chunkSize`
    words that start `chunkSize - overlap` words apart, and counting how many
    windows cover a position. */
module Chunking {

  /** The two integers that configure the core: `word_chunk_size` and
      `word_overlap`. */
  datatype Config = Config(chunkSize: int, overlap: int) {

    /** The geometry the windowing needs: a positive stride. */
    predicate Valid() {
      0 <= overlap < chunkSize
    }

    /** Distance between the starts of consecutive windows. */
    function Stride(): (s: nat)
      requires Valid()
      ensures 0 < s <= chunkSize
    {
      chunkSize - overlap
    }
  }

  /** The constructor defaults: windows of 100 words overlapping by 70. */
  const Default := Config(100, 70)

  function Min(a: int, b: int): (m: int)
  {
    if a <= b then a else b
  }

  /** The list comprehension `[xs[i:i + size] for i in range(start, |xs|, stride)]`,
      with Python's clamping of the slice end. */
  function ChunksFrom<T>(xs: seq<T>, start: nat, size: nat, stride: nat): (cs: seq<seq<T>>)
    requires stride > 0 && size > 0
    ensures forall k :: 0 <= k < |cs| ==> 0 < |cs[k]| <= size
    decreases |xs| - start
  {
    if start >= |xs| then []
    else [xs[start..Min(start + size, |xs|)]] + ChunksFrom(xs, start + stride, size, stride)
  }

  /** The windows `punctuate` feeds to the model: the strided windows when the
      list holds at least one full window, otherwise the whole list as the only
      window. */
  function Chunks<T>(xs: seq<T>, cfg: Config): (cs: seq<seq<T>>)
    requires cfg.Valid()
    ensures |cs| >= 1
    ensures forall k :: 0 <= k < |cs| ==> |cs[k]| <= cfg.chunkSize
    ensures |xs| > 0 ==> forall k :: 0 <= k < |cs| ==> |cs[k]| > 0
  {
    if |xs| >= cfg.chunkSize then ChunksFrom(xs, 0, cfg.chunkSize, cfg.Stride())
    else [xs]
  }

  /** The number of windows in `cs`, laid `stride` apart from position 0, that
      contain position `p`. */
  function Coverage<T>(cs: seq<seq<T>>, stride: nat, p: int): (n: nat)
    decreases |cs|
  {
    if |cs| == 0 then 0
    else (if 0 <= p < |cs[0]| then 1 else 0) + Coverage(cs[1..], stride, p - stride)
  }

  /** The number of full windows of `size` positions starting at `start`,
      `start + stride`, `start + 2 * stride`, ... without end, that contain `p`:
      the most votes position `p` can ever receive. */
  function CoverFrom(p: int, start: int, size: nat, stride: nat): (n: nat)
    requires stride > 0
    decreases p - start
  {
    if p < start then 0
    else (if p < start + size then 1 else 0) + CoverFrom(p, start + stride, size, stride)
  }

  lemma MulSucc(j: int, s: int)
    ensures (j + 1) * s == j * s + s
  {
  }

  /** Window `j` of `ChunksFrom` exists exactly when its start lies inside the
      list, and it is the slice of at most `size` items from that start. */
  lemma {:induction false} ChunksFromAt<T>(xs: seq<T>, start: nat, size: nat, stride: nat, j: nat)
    requires stride > 0 && size > 0
    ensures j < |ChunksFrom(xs, start, size, stride)| <==> start + j * stride < |xs|
    ensures j < |ChunksFrom(xs, start, size, stride)| ==>
      ChunksFrom(xs, start, size, stride)[j] == xs[start + j * stride..Min(start + j * stride + size, |xs|)]
    decreases j
  {
    if j > 0 && start < |xs| {
      ChunksFromAt(xs, start + stride, size, stride, j - 1);
      MulSucc(j - 1, stride);
    }
  }

  /** The number of windows `ChunksFrom` produces: the least count whose
      strides reach past the end of the list, as `range(start, |xs|, stride)`. */
  lemma ChunksFromCount<T>(xs: seq<T>, start: nat, size: nat, stride: nat)
    requires stride > 0 && size > 0
    ensures var n := |ChunksFrom(xs, start, size, stride)|;
      start + n * stride >= |xs| && (n > 0 ==> start + (n - 1) * stride < |xs|)
  {
    var n := |ChunksFrom(xs, start, size, stride)|;
    ChunksFromAt(xs, start, size, stride, n);
    if n > 0 {
      ChunksFromAt(xs, start, size, stride, n - 1);
    }
  }

  /** Shape of the one-shot windows: a single window holding everything for a
      short list; otherwise window `i` is `xs[i * stride .. min(i * stride + C, N)]`
      and there are as many windows as strides starting inside the list. */
  lemma ChunksShape<T>(xs: seq<T>, cfg: Config, i: nat)
    requires cfg.Valid()
    ensures |xs| < cfg.chunkSize ==> Chunks(xs, cfg) == [xs]
    ensures |xs| >= cfg.chunkSize ==>
      var cs := Chunks(xs, cfg);
      && (i < |cs| <==> i * cfg.Stride() < |xs|)
      && (i < |cs| ==> cs[i] == xs[i * cfg.Stride()..Min(i * cfg.Stride() + cfg.chunkSize, |xs|)])
  {
    if |xs| >= cfg.chunkSize {
      ChunksFromAt(xs, 0, cfg.chunkSize, cfg.Stride(), i);
    }
  }

  /** Coverage of a position that lies before the first window is zero. */
  lemma {:induction false} CoverageBefore<T>(cs: seq<seq<T>>, stride: nat, p: int)
    requires p < 0
    ensures Coverage(cs, stride, p) == 0
    decreases |cs|
  {
    if |cs| > 0 {
      CoverageBefore(cs[1..], stride, p - stride);
    }
  }

  /** Counting the windows of `ChunksFrom` that contain a position of the list
      gives the unbounded count `CoverFrom`: windows starting after the end of
      the list could not contain it anyway. */
  lemma {:induction false} CoverageOfChunksFrom<T>(xs: seq<T>, start: nat, size: nat, stride: nat, p: int)
    requires stride > 0 && size > 0
    requires p < |xs|
    ensures Coverage(ChunksFrom(xs, start, size, stride), stride, p - start) == CoverFrom(p, start, size, stride)
    decreases |xs| - start
  {
    if start < |xs| {
      var cs := ChunksFrom(xs, start, size, stride);
      assert cs[1..] == ChunksFrom(xs, start + stride, size, stride);
      CoverageOfChunksFrom(xs, start + stride, size, stride, p);
      if p < start {
        CoverageBefore(cs, stride, p - start);
      }
    }
  }

  /** No window cut from a list reaches a position past its end. */
  lemma {:induction false} CoverageBeyond<T>(xs: seq<T>, start: nat, size: nat, stride: nat, p: int)
    requires stride > 0 && size > 0
    requires |xs| <= p
    ensures Coverage(ChunksFrom(xs, start, size, stride), stride, p - start) == 0
    decreases |xs| - start
  {
    if start < |xs| {
      var cs := ChunksFrom(xs, start, size, stride);
      assert cs[1..] == ChunksFrom(xs, start + stride, size, stride);
      CoverageBeyond(xs, start + stride, size, stride, p);
    }
  }

  /** A window at least a stride wide leaves no gap: every position at or after
      the first start is covered. */
  lemma {:induction false} CoverFromPositive(p: int, start: int, size: nat, stride: nat)
    requires 0 < stride <= size
    requires start <= p
    ensures CoverFrom(p, start, size, stride) >= 1
    decreases p - start
  {
    if p >= start + size {
      CoverFromPositive(p, start + stride, size, stride);
    }
  }

  /** Every position of a word list is covered by the one-shot windows, by
      `CoverFrom(p, 0)` of them when the list holds a full window and by exactly
      one otherwise. */
  lemma ChunksCoverage<T>(xs: seq<T>, cfg: Config, p: int)
    requires cfg.Valid()
    requires 0 <= p < |xs|
    ensures Coverage(Chunks(xs, cfg), cfg.Stride(), p) ==
      if |xs| >= cfg.chunkSize then CoverFrom(p, 0, cfg.chunkSize, cfg.Stride()) else 1
    ensures Coverage(Chunks(xs, cfg), cfg.Stride(), p) >= 1
  {
    if |xs| >= cfg.chunkSize {
      CoverageOfChunksFrom(xs, 0, cfg.chunkSize, cfg.Stride(), p);
      CoverFromPositive(p, 0, cfg.chunkSize, cfg.Stride());
    } else {
      assert Chunks(xs, cfg)[1..] == [];
    }
  }

  /** Counting full windows: `Coverage` over `k` windows of width `size` plus the
      unbounded count from the next start adds up to the unbounded count. */
  lemma {:induction false} CoverageFullWindows<T>(cs: seq<seq<T>>, start: int, size: nat, stride: nat, p: int)
    requires stride > 0
    requires forall j :: 0 <= j < |cs| ==> |cs[j]| == size
    ensures Coverage(cs, stride, p - start) + CoverFrom(p, start + |cs| * stride, size, stride)
      == CoverFrom(p, start, size, stride)
    decreases |cs|
  {
    if |cs| > 0 {
      MulSucc(|cs| - 1, stride);
      assert start + |cs| * stride == (start + stride) + |cs[1..]| * stride;
      CoverageFullWindows(cs[1..], start + stride, size, stride, p);
      if p < start {
        CoverageBefore(cs, stride, p - start);
        CoverFromBefore(p, start + |cs| * stride, size, stride);
      }
    }
  }

  lemma CoverFromBefore(p: int, start: int, size: nat, stride: nat)
    requires stride > 0 && p < start
    ensures CoverFrom(p, start, size, stride) == 0
  {
  }

  /** No window starting after `p` covers it, and some window starting at or
      before it does: the unbounded count from `start` is zero exactly when
      `start` lies beyond `p`. */
  lemma CoverFromZero(p: int, start: int, size: nat, stride: nat)
    requires 0 < stride <= size
    ensures CoverFrom(p, start, size, stride) == 0 <==> p < start
  {
    if start <= p {
      CoverFromPositive(p, start, size, stride);
    }
  }
}
