/**
 * Word counting: `countWords` trims its text, splits it on runs of
 * whitespace and counts the non-empty pieces. The reference meaning is the
 * number of maximal runs of non-whitespace characters, `Runs`.
 */
module Words {
  import opened Text

  /** Length of the longest prefix of `s` that holds no whitespace. */
  function TokenLength(s: string): (n: nat)
    ensures n <= |s| && NoSpaces(s[..n])
    ensures n < |s| ==> IsSpace(s[n])
  {
    if s == [] || IsSpace(s[0]) then 0
    else
      var n := 1 + TokenLength(s[1..]);
      assert s[..n] == [s[0]] + s[1..][..n - 1];
      n
  }

  /**
   * `s.split(/\s+/)`: the pieces between maximal whitespace runs, in order.
   * A leading or trailing run yields an empty piece, and "" splits into [""].
   */
  function Split(s: string): (pieces: seq<string>)
    ensures |pieces| >= 1
    decreases |s|
  {
    var n := TokenLength(s);
    if n == |s| then [s]
    else
      var rest := TrimStart(s[n..]);
      assert |rest| < |s[n..]|;
      [s[..n]] + Split(rest)
  }

  /** No piece of a split holds whitespace. */
  lemma {:induction false} SplitPiecesHaveNoSpaces(s: string)
    ensures forall k :: 0 <= k < |Split(s)| ==> NoSpaces(Split(s)[k])
    decreases |s|
  {
    var n := TokenLength(s);
    if n < |s| {
      var rest := TrimStart(s[n..]);
      SplitPiecesHaveNoSpaces(rest);
      assert Split(s) == [s[..n]] + Split(rest);
    }
  }

  /**
   * `pieces.filter(word => word.length > 0)`: the non-empty pieces, each as
   * often as it occurs, and only those. The identity clause covers the only
   * input `countWords` gives it: the split of a trimmed non-empty text has no
   * empty piece (`SplitTrimmed`).
   */
  function NonEmpty(pieces: seq<string>): (kept: seq<string>)
    ensures |kept| <= |pieces|
    ensures multiset(kept) == multiset(pieces)[[] := 0]
    ensures forall k :: 0 <= k < |kept| ==> kept[k] != []
    ensures (forall k :: 0 <= k < |pieces| ==> pieces[k] != []) ==> kept == pieces
  {
    if pieces == [] then []
    else
      assert pieces == [pieces[0]] + pieces[1..];
      if pieces[0] == [] then NonEmpty(pieces[1..])
      else [pieces[0]] + NonEmpty(pieces[1..])
  }

  /** `countWords(text)`: 0 when the trimmed text is empty, else the number of non-empty pieces of its split. */
  function CountWords(text: string): nat {
    var t := Trim(text);
    if t == [] then 0 else |NonEmpty(Split(t))|
  }

  // ---------------------------------------------------------------------
  // Reference meaning: maximal runs of non-whitespace characters

  /** Position `i` begins a word: a non-whitespace character at the start or right after whitespace. */
  predicate StartsWord(s: string, i: nat)
    requires i < |s|
  {
    !IsSpace(s[i]) && (i == 0 || IsSpace(s[i - 1]))
  }

  /** The number of word beginnings among the first `n` positions of `s`. */
  function StartsBelow(s: string, n: nat): nat
    requires n <= |s|
  {
    if n == 0 then 0 else StartsBelow(s, n - 1) + (if StartsWord(s, n - 1) then 1 else 0)
  }

  /** The number of maximal runs of non-whitespace characters in `s`. */
  function Runs(s: string): nat {
    StartsBelow(s, |s|)
  }

  lemma {:induction false} StartsBelowPrefix(a: string, b: string, n: nat)
    requires n <= |a|
    ensures StartsBelow(a + b, n) == StartsBelow(a, n)
  {
    if n > 0 {
      StartsBelowPrefix(a, b, n - 1);
      assert StartsWord(a + b, n - 1) == StartsWord(a, n - 1);
    }
  }

  lemma {:induction false} StartsBelowAppend(a: string, b: string, k: nat)
    requires k <= |b|
    requires a == [] || b == [] || IsSpace(a[|a| - 1]) || IsSpace(b[0])
    ensures StartsBelow(a + b, |a| + k) == Runs(a) + StartsBelow(b, k)
  {
    if k == 0 {
      StartsBelowPrefix(a, b, |a|);
    } else {
      StartsBelowAppend(a, b, k - 1);
      assert StartsWord(a + b, |a| + k - 1) == StartsWord(b, k - 1);
    }
  }

  /** Words do not merge across a boundary that has whitespace on one side. */
  lemma RunsAppend(a: string, b: string)
    requires a == [] || b == [] || IsSpace(a[|a| - 1]) || IsSpace(b[0])
    ensures Runs(a + b) == Runs(a) + Runs(b)
  {
    StartsBelowAppend(a, b, |b|);
  }

  lemma {:induction false} StartsBelowZeroIff(s: string, n: nat)
    requires n <= |s|
    ensures StartsBelow(s, n) == 0 <==> AllSpaces(s[..n])
  {
    if n > 0 {
      StartsBelowZeroIff(s, n - 1);
      assert s[..n] == s[..n - 1] + [s[n - 1]];
      if StartsBelow(s, n) == 0 && n >= 2 {
        assert IsSpace(s[..n - 1][n - 2]);
      }
    }
  }

  /** A text has no words exactly when it is all whitespace. */
  lemma RunsZeroIff(s: string)
    ensures Runs(s) == 0 <==> AllSpaces(s)
  {
    StartsBelowZeroIff(s, |s|);
    assert s[..|s|] == s;
  }

  lemma {:induction false} StartsBelowToken(t: string, n: nat)
    requires 1 <= n <= |t| && NoSpaces(t)
    ensures StartsBelow(t, n) == 1
  {
    if n > 1 {
      StartsBelowToken(t, n - 1);
    }
  }

  /** A non-empty text without whitespace is exactly one word. */
  lemma RunsOfToken(t: string)
    requires t != [] && NoSpaces(t)
    ensures Runs(t) == 1
  {
    StartsBelowToken(t, |t|);
  }

  /** Splitting a trimmed non-empty text yields one non-empty piece per word. */
  lemma SplitTrimmed(s: string)
    requires s != [] && Trimmed(s)
    ensures forall k :: 0 <= k < |Split(s)| ==> Split(s)[k] != []
    ensures |Split(s)| == Runs(s)
  {
    SplitTrimmedNonEmpty(s);
    SplitTrimmedCount(s);
  }

  lemma {:induction false} SplitTrimmedNonEmpty(s: string)
    requires s != [] && Trimmed(s)
    ensures forall k :: 0 <= k < |Split(s)| ==> Split(s)[k] != []
    decreases |s|
  {
    var n := TokenLength(s);
    if n < |s| {
      var rest := TrimStart(s[n..]);
      RestTrimmed(s, n);
      SplitTrimmedNonEmpty(rest);
      assert Split(s) == [s[..n]] + Split(rest);
    }
  }

  lemma {:induction false} SplitTrimmedCount(s: string)
    requires s != [] && Trimmed(s)
    ensures |Split(s)| == Runs(s)
    decreases |s|
  {
    var n := TokenLength(s);
    if n == |s| {
      RunsOfToken(s);
    } else {
      var rest := TrimStart(s[n..]);
      RunsAfterFirstToken(s);
      RestTrimmed(s, n);
      SplitTrimmedCount(rest);
    }
  }

  /** A trimmed text without its first word still ends in a word, and trimming its start leaves it trimmed. */
  lemma RestTrimmed(s: string, n: nat)
    requires Trimmed(s) && n < |s|
    ensures TrimStart(s[n..]) != [] && Trimmed(TrimStart(s[n..]))
  {
    var x := s[n..];
    assert x[|x| - 1] == s[|s| - 1];
    var rest := TrimStart(x);
    assert |rest| > 0 && rest[|rest| - 1] == x[|x| - 1];
  }

  /** The first word of a text, then the words of what follows the whitespace after it. */
  lemma RunsAfterFirstToken(s: string)
    requires s != [] && !IsSpace(s[0]) && TokenLength(s) < |s|
    ensures Runs(s) == 1 + Runs(TrimStart(s[TokenLength(s)..]))
  {
    var n := TokenLength(s);
    RunsSplitAtSpace(s, n);
    RunsTrimStart(s[n..]);
    RunsOfToken(s[..n]);
  }

  /** Cutting a text just before a whitespace character splits no word. */
  lemma RunsSplitAtSpace(s: string, n: nat)
    requires n < |s| && IsSpace(s[n])
    ensures Runs(s) == Runs(s[..n]) + Runs(s[n..])
  {
    assert s == s[..n] + s[n..];
    RunsAppend(s[..n], s[n..]);
  }

  /** Leading whitespace holds no word. */
  lemma RunsTrimStart(x: string)
    ensures Runs(TrimStart(x)) == Runs(x)
  {
    var lead := x[..LeadingSpaces(x)];
    assert x == lead + TrimStart(x);
    RunsAppend(lead, TrimStart(x));
    RunsZeroIff(lead);
  }

  /** Whitespace around a text adds no word. */
  lemma RunsSurrounded(lead: string, t: string, trail: string)
    requires AllSpaces(lead) && AllSpaces(trail)
    ensures Runs(lead + (t + trail)) == Runs(t)
  {
    var u := t + trail;
    assert lead == [] || IsSpace(lead[|lead| - 1]);
    assert trail == [] || IsSpace(trail[0]);
    RunsAppend(lead, u);
    RunsAppend(t, trail);
    RunsZeroIff(lead);
    RunsZeroIff(trail);
  }

  /** Trimming removes no word. */
  lemma RunsTrim(s: string)
    ensures Runs(Trim(s)) == Runs(s)
  {
    var lead, trail := TrimParts(s);
    RunsSurrounded(lead, Trim(s), trail);
  }

  /** `countWords` counts the maximal runs of non-whitespace characters; whitespace never yields an empty word. */
  lemma CountWordsIsRuns(text: string)
    ensures CountWords(text) == Runs(text)
  {
    var t := Trim(text);
    RunsTrim(text);
    if t == [] {
      RunsZeroIff(t);
    } else {
      SplitTrimmed(t);
    }
  }

  /** `countWords` is 0 exactly for empty or all-whitespace text. */
  lemma CountWordsZeroIff(text: string)
    ensures CountWords(text) == 0 <==> AllSpaces(text)
  {
    CountWordsIsRuns(text);
    RunsZeroIff(text);
  }

  /** Sum of the word counts of `parts`. */
  function SumOfWords(parts: seq<string>): nat {
    if parts == [] then 0 else CountWords(parts[0]) + SumOfWords(parts[1..])
  }

  /** A single space between two texts keeps their words apart. */
  lemma RunsAroundSpace(a: string, b: string)
    ensures Runs(a + " " + b) == Runs(a) + Runs(b)
  {
    var tail := " " + b;
    assert a + " " + b == a + tail;
    RunsAppend(a, tail);
    RunsAppend(" ", b);
    RunsZeroIff(" ");
  }

  /** Joining with a single space merges no words: the count of the join is the sum of the counts. */
  lemma {:induction false} CountWordsOfJoin(parts: seq<string>)
    ensures CountWords(Join(parts, " ")) == SumOfWords(parts)
  {
    if |parts| == 0 {
      CountWordsIsRuns("");
    } else if |parts| == 1 {
      assert parts[1..] == [];
    } else {
      var rest := Join(parts[1..], " ");
      CountWordsOfJoin(parts[1..]);
      CountWordsIsRuns(parts[0]);
      CountWordsIsRuns(rest);
      CountWordsIsRuns(parts[0] + " " + rest);
      RunsAroundSpace(parts[0], rest);
    }
  }
}
