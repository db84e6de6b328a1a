# punctfix core in Dafny

A model of the punctuation core of punctfix, with proofs about it. It covers
two Python components.

- `PunctFixer.punctuate` (`punctfix/inference.py`). It splits a lower-case
  text on single spaces and cuts the words into overlapping windows of
  `word_chunk_size` words that start `word_chunk_size - word_overlap` words
  apart. It sends each window to a token-classification model and maps every
  word the model returns back to its global position, where it appends the
  word's label as a vote. Each word then takes its most common label, ties
  going to the label whose first vote came earliest. Finally it rebuilds the
  text word by word: the label's first character is the punctuation (unless
  it is `O`), a trailing `U` capitalizes the word, and a sentence-ending mark
  capitalizes the next word.
- `PunctFixStreamer` (`punctfix/streaming.py`). It receives words in
  segments and keeps two lists. The buffer holds words that are not yet past
  a window. The ledger (`chunked_words`) holds the carved words with their
  votes. Each call carves every full window off the front of the buffer and
  votes them on the ledger. It reports only the words that no later window
  can reach. `finalize` carves what is left, reports everything, and clears
  the streamer.

The model is layered as modules:

- `Results`: the `Result` and `Option` types, and the three exceptions the
  core can raise.
- `Text`: Python's `str.capitalize`, `split(" ")` and `" ".join`.
- `Chunking`: the window geometry.
- `Voting`: `WordPrediction` and its majority label.
- `Alignment`: mapping model output back to word positions, and the vote loop.
- `Reconstruct`: `_combine_label_and_word` and the final join.
- `Inference`: `punctuate`.
- `Streaming`: the streamer's four operations.
- `StreamTheory`: what the streamer computes, stated against the words
  streamed so far.

The model of the neural network is a parameter. `Oracle` maps a window's
words to labelled spans (`entity_group`, `word`). `Faithful(oracle)` is the
assumption that the spans' words, read in order, are the window's words.

Three consequences of the code are worth stating up front:

- **Ties.** A tie goes to the label whose first vote is earliest, not to the
  label that first reached the top count: `Counter` keeps its keys in order of
  first insertion and `most_common(1)` keeps the first key of maximal count.
  `Voting.TieGoesToEarliestFirstVote` shows votes A, B, B, A electing A.
- **Window count.** With the default configuration (100-word windows
  overlapping by 70), a 150-word text gets five windows: `range(0, 150, 30)`
  starts them at words 0, 30, 60, 90 and 120, as
  `Inference.DefaultWindowsOf150Words` states.
- **Finalize versus punctuate.** `finalize` returns what `punctuate` returns on
  the same words when the stream holds at least one full window, or at most
  one stride of words (`StreamTheory.FinalizeMatchesPunctuate`). It does so
  too for more than one stride but at most two, short of a window
  (`StreamTheory.FinalizeMatchesPunctuateTwoStrides`). There the streamer
  cuts the whole list and then the list from the stride on. Each word's first
  vote is the one `punctuate` gives it, and a second vote can at most tie it,
  which the first vote wins. For more than two strides of words, short of a
  window, the model relates the two results no further: a word can then get
  three votes, and later windows can outvote the first.

`streaming.py` calls five `PunctFixer` methods that `inference.py` does not
define: `split_input_text`, `init_word_prediction_list`,
`split_words_into_chunks`, `populate_word_prediction_with_labels` and
`combine_word_predictions_into_final_text`. The model takes each of them to
be the matching step of `punctuate`:

- the split (line 81);
- the fresh list of predictions (line 91);
- the chunking (lines 83-89);
- the vote loop (lines 93-107);
- the combination (lines 110-118).

## Model

| member | source | states |
|---|---|---|
| Chunking.Chunks | punctfix/inference.py:83-89 | Every window has at most `word_chunk_size` words, there is at least one window, and no window of a non-empty list is empty |
| Chunking.ChunksFromAt | punctfix/inference.py:85-87 | Counting windows from `start`, window `j` exists exactly when `start + j * stride` lies inside the list, and it is then the slice of at most `word_chunk_size` words from there |
| Chunking.ChunksShape | punctfix/inference.py:84-89 | A list shorter than a window gives the list itself as the only window; otherwise window `i` is `xs[i*stride .. i*stride + size]` clamped, for exactly the starts inside the list |
| Chunking.ChunksCoverage | punctfix/inference.py:83-89 | Every word lies in at least one window. The number of windows covering word `p` is `CoverFrom(p, 0)`, the count of strided full windows containing it, when the list holds a full window, and 1 otherwise |
| Inference.DefaultWindowsOf150Words | punctfix/inference.py:84-87 | With 100-word windows overlapping by 70, a 150-word text gets five windows, the last being words 120 to 149 |
| Voting.Majority | punctfix/inference.py:17-19 | There is no label exactly when the word has no votes, and a returned label is one of the votes |
| Voting.CounterKeysMembers | punctfix/inference.py:19 | The Counter's keys are exactly the distinct votes |
| Voting.CounterKeysOrdered | punctfix/inference.py:19 | The Counter's keys are in order of first occurrence among the votes |
| Voting.MostCommonMax | punctfix/inference.py:19 | The label `most_common(1)` picks has a count no other key exceeds |
| Voting.MostCommonFirst | punctfix/inference.py:19 | Every key before the chosen one in the Counter has a strictly smaller count |
| Voting.MajoritySound | punctfix/inference.py:17-19 | For a non-empty vote list the chosen label is a majority: present, of maximal count, and first-voted among the labels tied at that count |
| Voting.MajorityUnique | punctfix/inference.py:17-19 | At most one label meets the majority specification |
| Voting.MajorityCharacterized | punctfix/inference.py:17-19 | `label` returns `m` if and only if `m` meets the majority specification |
| Voting.TieGoesToEarliestFirstVote | punctfix/inference.py:19 | With votes A, B, B, A the label A wins, although B reached two votes first |
| Voting.FirstOfTwoVotes | punctfix/inference.py:19 | With at most two votes the first vote is the label: a second vote either agrees with it or ties it, and the tie goes to the first |
| Text.Capitalize | punctfix/inference.py:125 | `capitalize` keeps the letters up to case, with the first character upper-case and the rest lower-case |
| Text.CapitalizeUnique | punctfix/inference.py:125 | The capitalized form is the only true-cased string equal to the input up to case |
| Text.CapitalizeIdempotent | punctfix/inference.py:131 | Capitalizing twice is capitalizing once |
| Text.CapitalizeAfterAppend | punctfix/inference.py:124-131 | Capitalizing the word, appending the mark and capitalizing again equals appending and capitalizing once |
| Text.Split | punctfix/inference.py:81 | `split(" ")` gives at least one piece, no piece holds a space, and joining the pieces with single spaces gives the text back |
| Text.SplitJoin | punctfix/inference.py:81 | Splitting the single-space join of space-free words gives back exactly those words |
| Text.JoinPrefix | punctfix/inference.py:118 | The join of a list is a prefix of the join of any extension of it |
| Inference.InitPredictions | punctfix/inference.py:91 | One prediction per word, carrying that word and no votes |
| Alignment.ApplyWindow | punctfix/inference.py:95-107 | Applying one window's output keeps the words of the list unchanged |
| Alignment.WindowOffset | punctfix/inference.py:102 | `i * chunk_size + counter - i * overlap` is the window's stride start plus the counter |
| Alignment.ApplyWindowSpec | punctfix/inference.py:95-107 | A window's output applies without fault exactly when each returned word equals the stored word at its position; it then adds one vote, that word's label, at each covered position and changes nothing else |
| Alignment.PopulateFrom | punctfix/inference.py:93-107 | The vote loop keeps the words of the list unchanged |
| Alignment.PopulateFromOk | punctfix/inference.py:93-107 | The vote loop over the windows completes exactly when every window's output is aligned with the stored words |
| Alignment.PopulateFromLabels | punctfix/inference.py:93-107 | After the loop each position holds its earlier votes followed by one vote from every window covering it, in window order |
| Alignment.PopulateVotes | punctfix/inference.py:93-107 | With a faithful model and windows cut from the list, the loop never faults and gives each word exactly the votes of the windows covering it |
| Alignment.CoveringVotesCount | punctfix/inference.py:96-107 | Under a faithful model a word gets as many votes as there are windows covering it |
| Alignment.CoveringVotesAppend | punctfix/inference.py:93 | The votes of two consecutive runs of windows are those of the first run followed by those of the second |
| Inference.ChunksPlaced | punctfix/inference.py:83-91 | Every window `punctuate` cuts equals the stored words at its stride start |
| Inference.PunctuateVotes | punctfix/inference.py:83-107 | With a faithful model the vote loop never faults; each word ends with one vote per covering window, and with at least one |
| Inference.PunctuateWordsOk | punctfix/inference.py:74-118 | With a faithful model `punctuate` does not raise, and its text is the reconstruction of the fully voted word list |
| Inference.CoveringVotesCodes | punctfix/inference.py:97-106 | Every vote cast is a label the model returned |
| Inference.PunctuatePreservesWords | punctfix/inference.py:74-118 | For a faithful model whose labels never start with a space, the output splits into exactly as many tokens as the input has words, and token `k` is word `k` up to case followed by at most one mark |
| Reconstruct.Combine | punctfix/inference.py:121-136 | The next-word flag is set exactly when the mark ends a sentence. The text is the word plus its mark, up to case. It is unchanged when neither the label nor the carried flag asks for a capital, and true-cased when the flag is set |
| Reconstruct.CombineText | punctfix/inference.py:121-136 | The text is `Capitalize(word + mark)` when the flag is set, otherwise `Capitalize(word) + mark` under a `U` label, otherwise `word + mark` |
| Reconstruct.CombineWordCasing | punctfix/inference.py:124-131 | The word part of the text is capitalized exactly when the label or the flag asks for it, and otherwise left as it was |
| Reconstruct.Decide | punctfix/inference.py:112-113 | A successful decision gives one label per word, each drawn from that word's votes |
| Reconstruct.DecideOk | punctfix/inference.py:112-113 | The labels can be read exactly when every word has a vote |
| Reconstruct.DecideAt | punctfix/inference.py:17-19 | The label read for word `k` is that word's majority label |
| Reconstruct.DecideSpec | punctfix/inference.py:110-116 | Reading the labels succeeds exactly when every word has a vote, and then each word gets its majority label |
| Reconstruct.DecideFault | punctfix/inference.py:19 | When the read fails, the fault names the first word without a vote; every earlier word has one |
| Reconstruct.DecideAgree | punctfix/inference.py:112-113 | Two word lists of equal length whose words all have votes, and whose majority labels agree word by word, yield the same labels however their votes differ |
| Reconstruct.DecidePrefix | punctfix/inference.py:112-113 | Reading the labels of a prefix of the words gives the prefix of the labels |
| Reconstruct.ScanAt | punctfix/inference.py:110-117 | Token `k` of the combination loop is word `k` combined with its label and the flag the loop holds on reaching it |
| Reconstruct.ScanPrefix | punctfix/inference.py:110-117 | Running the loop on a prefix of the words gives the prefix of the tokens |
| Reconstruct.CombineFlag | punctfix/inference.py:111-115 | The flag on reaching a word is false for the first word, and afterwards says whether the previous label ends a sentence |
| Reconstruct.CombineTokens | punctfix/inference.py:110-117 | Each token is its word up to case followed by at most one mark |
| Reconstruct.CombineCasing | punctfix/inference.py:111-135 | After a sentence-ending word the next token is true-cased; otherwise a token whose label has no `U` is its word plus its mark, unchanged |
| Reconstruct.CombinePredictionsPrefix | punctfix/inference.py:110-118 | The text of a prefix of the word list is a prefix of the text of the whole list |
| Reconstruct.CombinePredictionsWords | punctfix/inference.py:110-118 | With space-free words and labels, the text splits into one token per word, each the word up to case with at most one mark after it |
| Streaming.PySliceSplit | punctfix/streaming.py:96-105 | For `0 <= a <= b`, `xs[:b]` is `xs[:a]` followed by `xs[a:b]`, at any list length |
| Streaming.PySliceOfTake | punctfix/streaming.py:96-105 | `xs[a:b]` is `xs[:b]` less its first `a` words, at any list length |
| Streaming.PyTakeDrop | punctfix/streaming.py:95-110 | `xs[:a]` followed by `xs[a:]` is `xs`, for every `a >= 0` |
| Streaming.Carve | punctfix/streaming.py:92-110 | The loop only appends to the ledger, and every appended entry has no votes. Finalizing empties the buffer; otherwise less than a window is left. With no window cut, nothing changes |
| StreamTheory.CarveStep | punctfix/streaming.py:95-110 | One turn of the loop from the state after `k` windows cuts window `k`, appends the words it brings, and leaves the buffer at the next stride start |
| StreamTheory.CarveFrom | punctfix/streaming.py:92-110 | From the state after `k` windows the loop cuts exactly windows `k` up to the stop, and appends exactly the words they bring, once each, in order |
| Streaming.ProcessBuffer | punctfix/streaming.py:78-117 | The result says whether a window was cut. The ledger's words and the buffer are those the carving loop leaves. With no window, the state is unchanged |
| StreamTheory.TailStart | punctfix/streaming.py:85-89 | After `k` windows, `this_processing_started_at` (the ledger length less `word_overlap`, or 0 on an empty ledger) is window `k`'s stride start, where the next window's words sit in the ledger |
| StreamTheory.CarvedTail | punctfix/streaming.py:111-115 | Voting the new windows on the ledger from the start index, and keeping the entries before it, gives the ledger voted by every window up to the stop |
| StreamTheory.ProcessCarves | punctfix/streaming.py:78-117 | With at least one window to cut, `process_buffer` reports true and reaches the state after every window up to the stop |
| StreamTheory.ProcessFrom | punctfix/streaming.py:78-117 | `process_buffer` never faults under a faithful model. It reaches the state after every window up to the stop, and reports whether it cut any |
| StreamTheory.VotedExtend | punctfix/streaming.py:92-115 | Later words change neither the full windows already cut nor the votes they cast |
| Streaming.SettledCounts | punctfix/streaming.py:61-63 | `final_num_preds` has `len(chunked_words) + word_chunk_size` entries |
| StreamTheory.SettledCountsValue | punctfix/streaming.py:61-68 | Entry `p` of `final_num_preds` is 0 past the ledger's end; otherwise it is `CoverFrom(p, 0)`, the number of strided full windows containing `p`, when the ledger holds a full window, and 1 for a shorter ledger |
| StreamTheory.SettledCountsAt | punctfix/streaming.py:61-68 | For a ledger holding a full window, the entry of `final_num_preds` at each ledger position is the number of strided full windows containing it |
| StreamTheory.KeepSettledPrefix | punctfix/streaming.py:69-73 | When exactly the entries before `t` pass the vote-count test, the filter keeps exactly that prefix |
| StreamTheory.OccurrencesOfRange | punctfix/streaming.py:61-68 | The count of a position in the chunking of `range(n)` is the number of windows of that chunking covering it |
| StreamTheory.SettledFilter | punctfix/streaming.py:58-73 | On the streamer's state, `get_result`'s filter keeps exactly the ledger entries before the stride start after the last full window |
| StreamTheory.GetResultEmpty | punctfix/streaming.py:46-76 | On an empty ledger the result is the empty text, finalizing or not |
| Streaming.Call | punctfix/streaming.py:23-35 | The call reports nothing exactly when no window was carved from the extended buffer, and the buffer is the one the carving leaves |
| StreamTheory.CallSpec | punctfix/streaming.py:23-35 | From the state after the words `ws`, a call with `more` never faults. It reaches the state after `ws + more`, and reports the settled text exactly when a new full window was cut |
| StreamTheory.CallReports | punctfix/streaming.py:33-35 | The call's reply is `get_result` after a carve and nothing otherwise |
| StreamTheory.NoReportBeforeFirstWindow | punctfix/streaming.py:33-35 | While fewer than `word_chunk_size` words have arrived, a call reports nothing and the words wait in the buffer |
| StreamTheory.OverlapKept | punctfix/streaming.py:98-110 | While the stream runs, the buffer holds less than a window. The ledger holds the carved words once each and in order. After a carve the buffer starts with the ledger's last `word_overlap` words |
| StreamTheory.FreshIsExpected | punctfix/streaming.py:119-124 | The cleared state is the state after no words |
| Streaming.Finalize | punctfix/streaming.py:37-44 | A finalize that does not fault leaves the streamer cleared |
| StreamTheory.FinalizeSpec | punctfix/streaming.py:37-44 | From the state after `ws`, `finalize` never faults. It returns the text of all the words voted by every window the stream cuts, and clears the streamer |
| StreamTheory.FinalizeMatchesPunctuate | punctfix/streaming.py:37-44 | For at least one full window of words, or at most a stride of them, `finalize` returns what `punctuate` returns on the same words |
| StreamTheory.TwoStrideWindows | punctfix/streaming.py:92-110 | With more than one stride of words but at most two, short of a window, the finalizing loop cuts exactly two windows: the whole list, which is also `punctuate`'s only window (inference.py:88-89), and the list from the stride on |
| StreamTheory.TwoStrideVotes | punctfix/streaming.py:111-115 | In that case each word's first vote in the final ledger is the single vote `punctuate` gives it, and at most one more vote follows |
| StreamTheory.TwoStrideDecide | punctfix/inference.py:110-116 | In that case the final ledger and `punctuate`'s ledger yield the same label for every word |
| StreamTheory.FinalizeMatchesPunctuateTwoStrides | punctfix/streaming.py:37-44 | For more than one stride of words but at most two, short of a window, `finalize` also returns what `punctuate` returns on the same words |
| StreamTheory.SettledStays | punctfix/streaming.py:7-10 | The settled entries after `ws` are the first entries of the settled ledger after any continuation, and of the final ledger |
| StreamTheory.ReportsArePrefixes | punctfix/streaming.py:7-10 | The text reported after `ws` is a prefix of every later report and of the final text |
| StreamTheory.FeedSpec | punctfix/streaming.py:23-35 | Any sequence of calls from the state after `ws` never faults, ends in the state after all the words, and reports at each call what that call reports on its own |
| StreamTheory.StreamSession | punctfix/streaming.py:6-44 | For any segmentation from the cleared state, no call faults. `finalize` returns the text of the final ledger and clears the streamer, and every text a call reported is a prefix of that final text |

## Left out

- The neural pipeline (`TokenClassificationPipeline`, model and tokenizer loading, devices, `torch`) is an `Oracle` parameter. Its output is taken as spans whose words are already split on spaces, so the `text.split(" ")` at inference.py:99 is folded into the oracle.
- `PunctFixer.__init__` and `get_supported_languages` are left out. They do I/O and configuration only. The configuration is a `Config` of the two integers, with `0 <= word_overlap < word_chunk_size`. The model does not cover a zero or negative stride, for which `range` raises or loops.
- Text.Capitalize: case mapping is ASCII-only. Python's `str.capitalize` maps Unicode, so a word like "gäste" is capitalized to "Gäste" by the source but left as "gäste" by the model. For characters such as "ß", whose case forms have different lengths, the length claims in `SameUpToCase` and `Reconstruct.Token` hold only for ASCII text.
- Streaming.Call: after a fault the model returns only the fault, and the streamer's state is lost. Python keeps a partly changed streamer after an AssertionError or IndexError inside `process_buffer`:
  - the buffer already extended (streaming.py:28);
  - the ledger grown and the buffer slid by the carving loop (streaming.py:103-110);
  - some votes already appended (inference.py:106).
- Streaming.Finalize: after a fault the model returns only the fault. Python skips `clear` (streaming.py:43) and leaves the partly changed state described above.
- Streaming.Call: it takes the segment already split into words, because `inference.py` does not define `split_input_text`.
- Alignment.Faithful: the assumption covers every window, including windows holding the empty words that `text.split(" ")` makes from an empty text or from double spaces (inference.py:81). A real model cannot return an empty word. The theorems that assume a faithful model, such as `Inference.PunctuateWordsOk`, therefore say nothing about such inputs. On an empty text, Python raises IndexError at inference.py:19, where the model reports success.
- Voting.Label: labels are non-empty strings. Python would raise IndexError on `label[-1]` (inference.py:124) for an empty label, a case the model's type excludes.
- Alignment.ApplyWindow: the word check at inference.py:103 is an `assert` statement, which `python -O` removes. The model always performs the check and reports `Misaligned`.
- The f-string message of that assertion is not modelled; the `Misaligned` fault carries the position and both words instead.
- Reconstruct.Combine: the source's extra test `label[0] != "0"` (zero) at inference.py:133 is kept as written. It never changes the result, because `"0"` is not one of the three marks.
