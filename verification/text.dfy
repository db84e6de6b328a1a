/** The string operations the punctuation core relies on: Python's
    `str.capitalize`, `str.split(" ")` and `" ".join`, with ASCII case mapping. */
module Text {

  /** Upper-case form of an ASCII letter; every other character is unchanged. */
  function Upper(c: char): (u: char)
  {
    if 'a' <= c <= 'z' then (c as int - 32) as char else c
  }

  /** Lower-case form of an ASCII letter; every other character is unchanged. */
  function Lower(c: char): (l: char)
  {
    if 'A' <= c <= 'Z' then (c as int + 32) as char else c
  }

  /** `a` and `b` spell the same characters, ignoring case. */
  predicate SameUpToCase(a: string, b: string)
  {
    |a| == |b| && forall i :: 0 <= i < |a| ==> Lower(a[i]) == Lower(b[i])
  }

  /** `c` is not an ASCII lower-case letter. */
  predicate NotLower(c: char)
  {
    !('a' <= c <= 'z')
  }

  /** `c` is not an ASCII upper-case letter. */
  predicate NotUpper(c: char)
  {
    !('A' <= c <= 'Z')
  }

  /** First character in upper case, every later one in lower case. */
  predicate TrueCased(s: string)
  {
    |s| > 0 ==> NotLower(s[0]) && forall i :: 1 <= i < |s| ==> NotUpper(s[i])
  }

  function LowerAll(s: string): (r: string)
  {
    seq(|s|, i requires 0 <= i < |s| => Lower(s[i]))
  }

  /** `str.capitalize`: the first character upper-cased, the rest lower-cased. */
  function Capitalize(s: string): (r: string)
    ensures SameUpToCase(r, s)
    ensures TrueCased(r)
  {
    if |s| == 0 then "" else [Upper(s[0])] + LowerAll(s[1..])
  }

  /** Case-insensitive equality is transitive. */
  lemma SameUpToCaseTrans(a: string, b: string, c: string)
    requires SameUpToCase(a, b) && SameUpToCase(b, c)
    ensures SameUpToCase(a, c)
  {
  }

  /** A true-cased string is determined by its letters: `Capitalize(s)` is the
      only true-cased string equal to `s` up to case. */
  lemma {:induction false} CapitalizeUnique(r: string, s: string)
    requires SameUpToCase(r, s) && TrueCased(r)
    ensures r == Capitalize(s)
  {
    var c := Capitalize(s);
    forall i | 0 <= i < |r|
      ensures r[i] == c[i]
    {
      assert Lower(r[i]) == Lower(c[i]);
    }
  }

  lemma CapitalizeIdempotent(s: string)
    ensures Capitalize(Capitalize(s)) == Capitalize(s)
  {
    CapitalizeUnique(Capitalize(s), Capitalize(s));
  }

  /** Capitalizing, appending and capitalizing again is the same as appending
      and capitalizing once. */
  lemma CapitalizeAfterAppend(w: string, p: string)
    ensures Capitalize(Capitalize(w) + p) == Capitalize(w + p)
  {
    var r := Capitalize(Capitalize(w) + p);
    assert SameUpToCase(Capitalize(w) + p, w + p);
    SameUpToCaseTrans(r, Capitalize(w) + p, w + p);
    CapitalizeUnique(r, w + p);
  }

  /** Capitalizing a longer string leaves the capitalized prefix unchanged. */
  lemma CapitalizePrefix(w: string, p: string)
    requires |w| > 0
    ensures Capitalize(w + p)[..|w|] == Capitalize(w)
  {
  }

  /** Case mapping never creates or removes a space. */
  lemma SpaceFreeUpToCase(a: string, b: string)
    requires SameUpToCase(a, b) && ' ' !in b
    ensures ' ' !in a
  {
    forall i | 0 <= i < |a|
      ensures a[i] != ' '
    {
      assert b[i] in b;
    }
  }

  /** Index of the first occurrence of `c` in `s`. */
  function IndexOf(s: string, c: char): (i: nat)
    requires c in s
    ensures i < |s| && s[i] == c && c !in s[..i]
  {
    if s[0] == c then 0
    else
      assert s == [s[0]] + s[1..];
      var j := IndexOf(s[1..], c);
      assert s[..j + 1] == [s[0]] + s[1..][..j];
      j + 1
  }

  /** Python's `" ".join(ws)`. */
  function Join(ws: seq<string>): (s: string)
  {
    if |ws| == 0 then "" else if |ws| == 1 then ws[0] else ws[0] + " " + Join(ws[1..])
  }

  /** Python's `s.split(" ")`: the pieces between single spaces, empty pieces
      included, so there is always at least one piece. */
  function Split(s: string): (ws: seq<string>)
    ensures |ws| >= 1
    ensures forall k :: 0 <= k < |ws| ==> ' ' !in ws[k]
    ensures Join(ws) == s
    decreases |s|
  {
    if ' ' in s then
      var i := IndexOf(s, ' ');
      var rest := Split(s[i + 1..]);
      assert s == s[..i] + " " + s[i + 1..];
      [s[..i]] + rest
    else [s]
  }

  /** Joining is undone by splitting when no piece holds a space. */
  lemma {:induction false} SplitJoin(ws: seq<string>)
    requires |ws| >= 1
    requires forall k :: 0 <= k < |ws| ==> ' ' !in ws[k]
    ensures Split(Join(ws)) == ws
    decreases |ws|
  {
    if |ws| > 1 {
      var s := Join(ws);
      assert s == ws[0] + " " + Join(ws[1..]);
      assert s[|ws[0]|] == ' ';
      assert s[..|ws[0]|] == ws[0];
      assert ' ' in s;
      var i := IndexOf(s, ' ');
      assert i == |ws[0]|;
      assert s[i + 1..] == Join(ws[1..]);
      SplitJoin(ws[1..]);
      assert ws == [ws[0]] + ws[1..];
    }
  }

  /** Joining two non-empty lists puts one space between their joins. */
  lemma {:induction false} JoinAppend(a: seq<string>, b: seq<string>)
    requires |a| > 0 && |b| > 0
    ensures Join(a + b) == Join(a) + " " + Join(b)
    decreases |a|
  {
    if |a| > 1 {
      assert (a + b)[1..] == a[1..] + b;
      JoinAppend(a[1..], b);
    } else {
      assert (a + b)[1..] == b;
    }
  }

  /** The join of a prefix of a list is a prefix of the join of the list. */
  lemma JoinPrefix(a: seq<string>, b: seq<string>)
    ensures |Join(a)| <= |Join(a + b)|
    ensures Join(a + b)[..|Join(a)|] == Join(a)
  {
    if |a| == 0 {
    } else if |b| == 0 {
      assert a + b == a;
    } else {
      JoinAppend(a, b);
    }
  }
}
