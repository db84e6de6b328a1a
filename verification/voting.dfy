/** Majority voting over the labels a word received: `WordPrediction.label`,
    which is `Counter(labels).most_common(1)[0][0]`. */
module Voting {
  import opened Results

  /** A label code from the model, such as "OU" or ".O": its first character
      selects punctuation and its last one capitalization. Codes are never
      empty, since the core reads both ends. */
  type Label = s: string | |s| > 0 witness "O"

  /** One word of the input with the labels its covering windows voted. */
  datatype WordPrediction = WordPrediction(word: string, labels: seq<Label>)
  function Words(preds: seq<WordPrediction>): (ws: seq<string>)
    ensures |ws| == |preds| && forall k :: 0 <= k < |preds| ==> ws[k] == preds[k].word
  {
    seq(|preds|, k requires 0 <= k < |preds| => preds[k].word)
  }

  lemma WordsAppend(a: seq<WordPrediction>, b: seq<WordPrediction>)
    ensures Words(a + b) == Words(a) + Words(b)
  {
    assert forall k :: 0 <= k < |a + b| ==> Words(a + b)[k] == (Words(a) + Words(b))[k];
  }

  lemma WordsSplit(preds: seq<WordPrediction>, s: nat)
    requires s <= |preds|
    ensures Words(preds) == Words(preds[..s]) + Words(preds[s..])
  {
    assert preds[..s] + preds[s..] == preds;
    WordsAppend(preds[..s], preds[s..]);
  }

  /** Number of occurrences of `x` in `xs`. */
  function Count(xs: seq<Label>, x: Label): (n: nat)
    decreases |xs|
  {
    if |xs| == 0 then 0 else (if xs[0] == x then 1 else 0) + Count(xs[1..], x)
  }

  /** Position of the first occurrence of `x` in `xs`, or `|xs|` when absent. */
  function FirstIndex(xs: seq<Label>, x: Label): (i: nat)
    ensures i <= |xs|
    ensures i < |xs| <==> x in xs
    ensures i < |xs| ==> xs[i] == x
    ensures forall j :: 0 <= j < i ==> xs[j] != x
    decreases |xs|
  {
    if |xs| == 0 then 0
    else if xs[0] == x then 0
    else FirstIndex(xs[1..], x) + 1
  }

  lemma FirstIndexOfPrefix(xs: seq<Label>, n: nat, x: Label)
    requires n <= |xs| && x in xs[..n]
    ensures FirstIndex(xs, x) == FirstIndex(xs[..n], x)
  {
    var i := FirstIndex(xs, x);
    var k := FirstIndex(xs[..n], x);
    assert xs[..n][k] == xs[k];
    forall j | 0 <= j < k
      ensures xs[j] != x
    {
      assert xs[..n][j] == xs[j];
    }
  }

  /** The keys of `Counter(xs)` in their insertion order: each distinct value
      once, in the order of first occurrence (`CounterKeysOrdered`). */
  function CounterKeys(xs: seq<Label>): (keys: seq<Label>)
    decreases |xs|
  {
    if |xs| == 0 then []
    else
      var init := xs[..|xs| - 1];
      var last := xs[|xs| - 1];
      var ks := CounterKeys(init);
      if last in ks then ks else ks + [last]
  }

  /** The keys are exactly the distinct values of the list. */
  lemma {:induction false} CounterKeysMembers(xs: seq<Label>)
    ensures forall x :: x in CounterKeys(xs) <==> x in xs
    decreases |xs|
  {
    if |xs| > 0 {
      var init := xs[..|xs| - 1];
      CounterKeysMembers(init);
      assert xs == init + [xs[|xs| - 1]];
    }
  }

  /** The keys come in the order of their first occurrence. */
  lemma {:induction false} CounterKeysOrdered(xs: seq<Label>)
    ensures forall i, j :: 0 <= i < j < |CounterKeys(xs)| ==>
      FirstIndex(xs, CounterKeys(xs)[i]) < FirstIndex(xs, CounterKeys(xs)[j])
    decreases |xs|
  {
    if |xs| > 0 {
      var init := xs[..|xs| - 1];
      var last := xs[|xs| - 1];
      var ks := CounterKeys(init);
      CounterKeysOrdered(init);
      CounterKeysMembers(init);
      CounterKeysOrder(xs, init, ks);
      assert CounterKeys(xs) == if last in ks then ks else ks + [last];
    }
  }

  /** Helper for `CounterKeys`: first occurrences in the whole list agree with
      those in its prefix for every key already seen. */
  lemma CounterKeysOrder(xs: seq<Label>, init: seq<Label>, ks: seq<Label>)
    requires |xs| > 0 && init == xs[..|xs| - 1]
    requires forall x :: x in ks <==> x in init
    requires forall i, j :: 0 <= i < j < |ks| ==> FirstIndex(init, ks[i]) < FirstIndex(init, ks[j])
    ensures forall i :: 0 <= i < |ks| ==> FirstIndex(xs, ks[i]) == FirstIndex(init, ks[i])
    ensures xs[|xs| - 1] !in init ==> FirstIndex(xs, xs[|xs| - 1]) == |xs| - 1
  {
    forall i | 0 <= i < |ks|
      ensures FirstIndex(xs, ks[i]) == FirstIndex(init, ks[i])
    {
      FirstIndexOfPrefix(xs, |xs| - 1, ks[i]);
    }
    if xs[|xs| - 1] !in init {
      forall j | 0 <= j < |xs| - 1
        ensures xs[j] != xs[|xs| - 1]
      {
        assert xs[j] == init[j];
      }
    }
  }

  /** `max(keys, key=count)`: scanning left to right, a later key replaces the
      current one only with a strictly larger count, so the result has the
      largest count (and `MostCommonFirst` says which of the tied keys wins). */
  function MostCommon(keys: seq<Label>, votes: seq<Label>): (m: Label)
    requires |keys| > 0
    ensures m in keys
    decreases |keys|
  {
    if |keys| == 1 then keys[0]
    else
      var init := keys[..|keys| - 1];
      var last := keys[|keys| - 1];
      var best := MostCommon(init, votes);
      assert keys == init + [last];
      if Count(votes, last) > Count(votes, best) then last else best
  }

  /** No key has more votes than the winner. */
  lemma {:induction false} MostCommonMax(keys: seq<Label>, votes: seq<Label>)
    requires |keys| > 0
    ensures forall k :: k in keys ==> Count(votes, k) <= Count(votes, MostCommon(keys, votes))
    decreases |keys|
  {
    if |keys| > 1 {
      var init := keys[..|keys| - 1];
      MostCommonMax(init, votes);
      assert keys == init + [keys[|keys| - 1]];
    }
  }

  /** Every key before the winner has a strictly smaller count. */
  lemma {:induction false} MostCommonFirst(keys: seq<Label>, votes: seq<Label>)
    requires |keys| > 0
    ensures forall i :: 0 <= i < FirstIndex(keys, MostCommon(keys, votes)) ==>
      Count(votes, keys[i]) < Count(votes, MostCommon(keys, votes))
    decreases |keys|
  {
    if |keys| > 1 {
      var init := keys[..|keys| - 1];
      var last := keys[|keys| - 1];
      var best := MostCommon(init, votes);
      MostCommonFirst(init, votes);
      MostCommonMax(init, votes);
      assert keys == init + [last];
      FirstIndexOfPrefix(keys, |keys| - 1, best);
      if Count(votes, last) > Count(votes, best) {
        assert last !in init;
        assert FirstIndex(keys, last) == |keys| - 1 by {
          forall j | 0 <= j < |keys| - 1
            ensures keys[j] != last
          {
            assert keys[j] == init[j];
          }
        }
      } else {
        forall i | 0 <= i < FirstIndex(keys, best)
          ensures Count(votes, keys[i]) < Count(votes, best)
        {
          assert keys[i] == init[i];
        }
      }
    }
  }

  /** The specification of the majority label: it was voted, no label has more
      votes, and among the labels with as many votes it occurs first. */
  ghost predicate IsMajority(votes: seq<Label>, m: Label)
  {
    && m in votes
    && (forall x :: x in votes ==> Count(votes, x) <= Count(votes, m))
    && (forall x :: x in votes && Count(votes, x) == Count(votes, m) ==> FirstIndex(votes, m) <= FirstIndex(votes, x))
  }

  /** `WordPrediction.label`: the most common label, ties going to the label
      whose first vote came earliest; reading it with no votes is an error. */
  function Majority(votes: seq<Label>): (r: Option<Label>)
    ensures r.None? <==> |votes| == 0
    ensures r.Some? ==> r.value in votes
  {
    if |votes| == 0 then None
    else
      CounterKeysMembers(votes);
      assert votes[0] in CounterKeys(votes);
      Some(MostCommon(CounterKeys(votes), votes))
  }

  /** The label `Majority` returns meets the specification. */
  lemma MajoritySound(votes: seq<Label>)
    requires |votes| > 0
    ensures IsMajority(votes, Majority(votes).value)
  {
    var keys := CounterKeys(votes);
    var m := MostCommon(keys, votes);
    CounterKeysOrdered(votes);
    CounterKeysMembers(votes);
    MostCommonMax(keys, votes);
    MostCommonFirst(keys, votes);
    forall x | x in votes && Count(votes, x) == Count(votes, m)
      ensures FirstIndex(votes, m) <= FirstIndex(votes, x)
    {
      var ix := FirstIndex(keys, x);
      var im := FirstIndex(keys, m);
      assert x in keys;
      assert keys[ix] == x && keys[im] == m;
      assert im <= ix;
      if im < ix {
        assert FirstIndex(votes, keys[im]) < FirstIndex(votes, keys[ix]);
      }
    }
  }

  /** At most one label meets the specification. */
  lemma MajorityUnique(votes: seq<Label>, a: Label, b: Label)
    requires IsMajority(votes, a) && IsMajority(votes, b)
    ensures a == b
  {
    var i := FirstIndex(votes, a);
    assert votes[i] == a;
  }

  /** `Majority` returns exactly the label the specification describes. */
  lemma MajorityCharacterized(votes: seq<Label>, m: Label)
    ensures Majority(votes) == Some(m) <==> IsMajority(votes, m)
  {
    if IsMajority(votes, m) {
      MajoritySound(votes);
      MajorityUnique(votes, Majority(votes).value, m);
    } else if |votes| > 0 {
      MajoritySound(votes);
    }
  }

  /** A tie goes to the label voted first, not to the label that was first to
      reach the tied count: with votes A, B, B, A the label B reaches two votes
      first, yet A wins. */
  lemma TieGoesToEarliestFirstVote()
    ensures Majority(["A", "B", "B", "A"]) == Some("A")
  {
    var v := ["A", "B", "B", "A"];
    assert Count(v, "A") == 2 && Count(v, "B") == 2 by {
      assert v[1..][1..][1..][1..] == [];
    }
    assert IsMajority(v, "A") by {
      assert v[0] == "A";
      forall x | x in v
        ensures x == "A" || x == "B"
      {
        var i :| 0 <= i < |v| && v[i] == x;
      }
    }
    MajorityCharacterized(v, "A");
  }

  /** With at most two votes the first one wins: a second vote either agrees
      with it or ties it one to one, and a tie goes to the earlier first vote. */
  lemma FirstOfTwoVotes(x: Label, rest: seq<Label>)
    requires |rest| <= 1
    ensures Majority([x] + rest) == Some(x)
  {
    var v := [x] + rest;
    assert v[1..] == rest;
    assert FirstIndex(v, x) == 0;
    forall y | y in v
      ensures Count(v, y) <= Count(v, x)
    {
      assert Count(v, y) == (if x == y then 1 else 0) + Count(rest, y);
      if |rest| == 1 && y != x {
        assert rest[1..] == [];
        assert Count(rest, y) <= 1;
      }
    }
    MajorityCharacterized(v, x);
  }
}
